/**
 * Python's `float(text)` restricted to plain decimal numerals: surrounding
 * whitespace, an optional sign, then digits with at most one decimal point
 * and at least one digit. Values are exact `real`s.
 */
module PyFloat {

  import opened Wrappers
  import opened PyText

  const Digits: set<char> := set c: char | '0' <= c <= '9'

  /** The characters `float()` strips from both ends of its argument: the
      `str.isspace()` characters except the ASCII separators U+001C to
      U+001F, which CPython's numeral reader does not count as space. */
  const FloatSpace: set<char> := Whitespace - {'\U{001C}', '\U{001D}', '\U{001E}', '\U{001F}'}

  /** Every character that can appear in a text `float()` accepts here. */
  const NumeralChars: set<char> := FloatSpace + Digits + {'.', '+', '-'}

  function DigitValue(c: char): (d: nat)
    requires c in Digits
    ensures d < 10
  {
    c as int - '0' as int
  }

  function DigitChar(d: nat): (c: char)
    requires d < 10
    ensures c in Digits && DigitValue(c) == d
  {
    ('0' as int + d) as char
  }

  /** The value of a string of decimal digits, most significant first. */
  function DigitsValue(ds: string): nat
    requires AllIn(ds, Digits)
  {
    if ds == [] then 0 else DigitsValue(ds[..|ds| - 1]) * 10 + DigitValue(ds[|ds| - 1])
  }

  /** The value of the digits after a decimal point: `0.d1d2...` is
      `(d1 + 0.d2...) / 10`. */
  function FractionValue(frac: string): (v: real)
    requires AllIn(frac, Digits)
    ensures 0.0 <= v < 1.0
  {
    if frac == [] then 0.0 else (DigitValue(frac[0]) as real + FractionValue(frac[1..])) / 10.0
  }

  /** A numeral without sign or surrounding whitespace: digits, optionally
      with one `.` somewhere, and at least one digit. */
  function ParseUnsigned(t: string): Option<real> {
    var p := IndexOf(t, '.');
    var whole := t[..p];
    var frac := if p < |t| then t[p + 1..] else [];
    if AllIn(whole, Digits) && AllIn(frac, Digits) && (whole != [] || frac != []) then
      Some(DigitsValue(whole) as real + FractionValue(frac))
    else
      None
  }

  /** A numeral with an optional leading sign and no surrounding whitespace. */
  function ParseSigned(t: string): Option<real> {
    var signed := t != [] && (t[0] == '+' || t[0] == '-');
    match ParseUnsigned(if signed then t[1..] else t)
    case Some(v) => Some(if signed && t[0] == '-' then -v else v)
    case None => None
  }

  /** `float(s)`, or `None` where Python raises `ValueError`. */
  function ParseFloat(s: string): Option<real> {
    ParseSigned(StripChars(s, FloatSpace))
  }

  // ---------------------------------------------------------------------
  // What float() accepts
  // ---------------------------------------------------------------------

  lemma {:induction false} ParseUnsignedAlphabet(t: string)
    requires ParseUnsigned(t).Some?
    ensures AllIn(t, Digits + {'.'})
  {
    var p := IndexOf(t, '.');
    var cs := Digits + {'.'};
    if p < |t| {
      assert t == t[..p] + [t[p]] + t[p + 1..];
      AllInConcat(t[..p], [t[p]], cs);
      AllInConcat(t[..p] + [t[p]], t[p + 1..], cs);
    } else {
      assert t == t[..p];
    }
  }

  lemma {:induction false} ParseSignedAlphabet(t: string)
    requires ParseSigned(t).Some?
    ensures AllIn(t, NumeralChars)
  {
    if t != [] && (t[0] == '+' || t[0] == '-') {
      ParseUnsignedAlphabet(t[1..]);
      assert t == [t[0]] + t[1..];
      AllInConcat([t[0]], t[1..], NumeralChars);
    } else {
      ParseUnsignedAlphabet(t);
    }
  }

  /** A text `float()` accepts holds nothing but whitespace, digits, signs
      and points; in particular no `/`, `,` or bracket. */
  lemma {:induction false} ParseFloatAlphabet(s: string)
    requires ParseFloat(s).Some?
    ensures AllIn(s, NumeralChars)
  {
    ParseSignedAlphabet(StripChars(s, FloatSpace));
    AllInStripped(s, FloatSpace, NumeralChars);
  }

  /** A text holding any character other than whitespace, digits, signs
      and points is rejected. */
  lemma {:induction false} ParseFloatRejectsOthers(s: string)
    requires !AllIn(s, NumeralChars)
    ensures ParseFloat(s) == None
  {
    if ParseFloat(s).Some? {
      ParseFloatAlphabet(s);
    }
  }

  /** `float()` does not strip the separator U+001C although `strip()`
      does: `"5\x1c"` is rejected. */
  lemma ParseFloatRejectsSeparator()
    ensures ParseFloat("5\U{001C}") == None
  {
    assert "5\U{001C}"[1] !in NumeralChars;
    ParseFloatRejectsOthers("5\U{001C}");
  }

  /** In particular a fraction such as `"463/10"` is not a `float()` text. */
  lemma {:induction false} ParseFloatRejectsSlash(s: string)
    requires '/' in s
    ensures ParseFloat(s) == None
  {
    var k :| 0 <= k < |s| && s[k] == '/';
    assert s[k] !in NumeralChars;
    ParseFloatRejectsOthers(s);
  }

  // ---------------------------------------------------------------------
  // Decimal numerals read back as the number they spell
  // ---------------------------------------------------------------------

  /** The decimal numeral of `n`, as Python's `str(n)` writes it. */
  function NatStr(n: nat): string {
    if n < 10 then [DigitChar(n)] else NatStr(n / 10) + [DigitChar(n % 10)]
  }

  lemma {:induction false} NatStrDigits(n: nat)
    ensures NatStr(n) != [] && AllIn(NatStr(n), Digits)
    ensures DigitsValue(NatStr(n)) == n
  {
    if n >= 10 {
      NatStrDigits(n / 10);
      var s := NatStr(n);
      assert s[..|s| - 1] == NatStr(n / 10);
    }
  }

  /** A string of digits with no point parses to its value. */
  lemma {:induction false} ParseUnsignedWhole(ds: string)
    requires ds != [] && AllIn(ds, Digits)
    ensures ParseUnsigned(ds) == Some(DigitsValue(ds) as real)
  {
    IndexOfAbsent(ds, '.');
    var whole := ds[..IndexOf(ds, '.')];
    assert whole == ds;
    var frac: string := [];
    assert FractionValue(frac) == 0.0;
    assert ParseUnsigned(ds) == Some(DigitsValue(whole) as real + FractionValue(frac));
  }

  /** A numeral made of digits has no surrounding space to strip. */
  lemma {:induction false} StripDigits(ds: string)
    requires ds != [] && AllIn(ds, Digits)
    ensures StripChars(ds, FloatSpace) == ds
  {
    assert ds[0] in Digits && ds[|ds| - 1] in Digits;
    StripCharsFixed(ds, FloatSpace);
  }

  /** Text with nothing to strip is parsed as it stands. */
  lemma {:induction false} ParseFloatStripped(t: string)
    requires StripChars(t, FloatSpace) == t
    ensures ParseFloat(t) == ParseSigned(t)
  {
  }

  /** A string of digits parses to its value. */
  lemma {:induction false} ParseFloatDigits(ds: string)
    requires ds != [] && AllIn(ds, Digits)
    ensures ParseFloat(ds) == Some(DigitsValue(ds) as real)
  {
    StripDigits(ds);
    ParseFloatStripped(ds);
    assert ds[0] in Digits;
    ParseUnsignedWhole(ds);
  }

  lemma {:induction false} ParseSignedNegDigits(ds: string)
    requires ds != [] && AllIn(ds, Digits)
    ensures ParseSigned("-" + ds) == Some(-(DigitsValue(ds) as real))
  {
    assert ("-" + ds)[1..] == ds;
    ParseUnsignedWhole(ds);
  }

  /** A minus sign before a string of digits negates its value. */
  lemma {:induction false} ParseFloatNegDigits(ds: string)
    requires ds != [] && AllIn(ds, Digits)
    ensures ParseFloat("-" + ds) == Some(-(DigitsValue(ds) as real))
  {
    var m := "-" + ds;
    assert ds[0] in Digits && ds[|ds| - 1] in Digits;
    assert m[0] !in FloatSpace && m[|m| - 1] == ds[|ds| - 1];
    StripCharsFixed(m, FloatSpace);
    ParseFloatStripped(m);
    ParseSignedNegDigits(ds);
  }

  /** `float(str(n)) == n` for every natural number. */
  lemma {:induction false} ParseFloatNatStr(n: nat)
    ensures ParseFloat(NatStr(n)) == Some(n as real)
  {
    NatStrDigits(n);
    ParseFloatDigits(NatStr(n));
  }

  /** `float("-" + str(n)) == -n`. */
  lemma {:induction false} ParseFloatNegNatStr(n: nat)
    ensures ParseFloat("-" + NatStr(n)) == Some(-(n as real))
  {
    NatStrDigits(n);
    ParseFloatNegDigits(NatStr(n));
  }

  lemma {:induction false} ParseUnsignedDecimal(w: string, frac: string)
    requires AllIn(w, Digits) && AllIn(frac, Digits) && (w != [] || frac != [])
    ensures ParseUnsigned(w + "." + frac) == Some(DigitsValue(w) as real + FractionValue(frac))
  {
    var t := w + "." + frac;
    assert '.' !in w;
    IndexOfAfter(w, frac, '.');
    assert t == w + ['.'] + frac;
    assert t[..|w|] == w && t[|w| + 1..] == frac;
  }

  /** Text that starts and ends with a digit is parsed without sign or
      stripping. */
  lemma {:induction false} ParseFloatUnsigned(t: string)
    requires t != [] && t[0] in Digits && t[|t| - 1] in Digits
    ensures ParseFloat(t) == ParseUnsigned(t)
  {
    StripCharsFixed(t, FloatSpace);
    ParseFloatStripped(t);
    ParseSignedUnsigned(t);
  }

  lemma {:induction false} ParseSignedUnsigned(t: string)
    requires t != [] && t[0] in Digits
    ensures ParseSigned(t) == ParseUnsigned(t)
  {
  }

  /** `float(whole + "." + frac)` for digit strings is the whole part plus
      the fraction the digits of `frac` spell. */
  lemma {:induction false} ParseFloatDecimal(whole: string, frac: string)
    requires whole != [] && AllIn(whole, Digits)
    requires frac != [] && AllIn(frac, Digits)
    ensures ParseFloat(whole + "." + frac) == Some(DigitsValue(whole) as real + FractionValue(frac))
  {
    var t := whole + "." + frac;
    assert t[0] == whole[0] && t[|t| - 1] == frac[|frac| - 1];
    assert whole[0] in Digits && frac[|frac| - 1] in Digits;
    ParseFloatUnsigned(t);
    ParseUnsignedDecimal(whole, frac);
  }

  lemma ExampleDigits()
    ensures AllIn("46", Digits) && DigitsValue("46") == 46
    ensures AllIn("3", Digits) && FractionValue("3") == 0.3
    ensures AllIn("0", Digits) && DigitsValue("0") == 0
  {
  }

  lemma ParseFloatExampleDecimal()
    ensures ParseFloat("46.3") == Some(46.3)
  {
    ExampleDigits();
    ParseUnsignedDecimal("46", "3");
    assert "46" + "." + "3" == "46.3";
    ParseFloatUnsigned("46.3");
  }

  lemma ParseFloatExampleNegativeZero()
    ensures ParseFloat("-0") == Some(0.0)
  {
    ExampleDigits();
    ParseFloatNegDigits("0");
    assert "-" + "0" == "-0";
  }
}
