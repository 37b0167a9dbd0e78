/**
 * GPS coordinates from EXIF tag text: the fraction helper, the
 * degrees/minutes/seconds conversion and the selection of the latitude and
 * longitude tags (googlemapcoord_from_jpeg_exif.py).
 */
module ExifCoord {

  import opened Wrappers
  import opened PyText
  import opened PyFloat

  // ---------------------------------------------------------------------
  // convert_fraction_string_to_float
  // ---------------------------------------------------------------------

  /** `n / d` for two parsed parts; a missing part or a zero denominator is
      `None`. */
  function Quotient(n: Option<real>, d: Option<real>): Option<real> {
    match (n, d)
    case (Some(x), Some(y)) => if y == 0.0 then None else Some(x / y)
    case _ => None
  }

  /** A text with a `/` must split into exactly two parts (the tuple unpack)
      that both parse, with a nonzero denominator; any other text is parsed
      as a plain number. Every failure is `None`. */
  function ConvertFraction(s: string): Option<real> {
    if '/' in s then
      var parts := Split(s, '/');
      if |parts| != 2 then None else Quotient(ParseFloat(parts[0]), ParseFloat(parts[1]))
    else
      ParseFloat(s)
  }

  /** A text without `/` is whatever `float()` makes of it. */
  lemma ConvertFractionPlain(s: string)
    requires '/' !in s
    ensures ConvertFraction(s) == ParseFloat(s)
  {
  }

  lemma {:induction false} SplitTwo(n: string, d: string, c: char)
    requires c !in n && c !in d
    ensures Split(n + [c] + d, c) == [n, d]
  {
    assert Join([n, d], c) == n + [c] + d by {
      assert [n, d][1..] == [d];
    }
    SplitJoin([n, d], c);
  }

  /** `"n/d"` with one slash is the quotient of the two parsed parts: it
      succeeds exactly when both parts parse and the denominator is not
      zero. */
  lemma {:induction false} ConvertFractionOfParts(n: string, d: string)
    requires '/' !in n && '/' !in d
    ensures ConvertFraction(n + "/" + d).Some?
      <==> ParseFloat(n).Some? && ParseFloat(d).Some? && ParseFloat(d).value != 0.0
    ensures ConvertFraction(n + "/" + d).Some? ==>
      ConvertFraction(n + "/" + d).value == ParseFloat(n).value / ParseFloat(d).value
  {
    ConvertFractionSplit(n, d);
    QuotientSome(ParseFloat(n), ParseFloat(d));
  }

  lemma {:induction false} ConvertFractionSplit(n: string, d: string)
    requires '/' !in n && '/' !in d
    ensures ConvertFraction(n + "/" + d) == Quotient(ParseFloat(n), ParseFloat(d))
  {
    var s := n + "/" + d;
    SplitTwo(n, d, '/');
    assert s == n + ['/'] + d;
    assert s[|n|] == '/';
  }

  lemma QuotientOfValues(x: real, y: real)
    ensures Quotient(Some(x), Some(y)) == if y == 0.0 then None else Some(x / y)
  {
  }

  lemma QuotientSome(x: Option<real>, y: Option<real>)
    ensures Quotient(x, y).Some? <==> x.Some? && y.Some? && y.value != 0.0
    ensures Quotient(x, y).Some? ==> Quotient(x, y).value == x.value / y.value
  {
  }

  /** Two or more slashes make the unpack fail: `None`. */
  lemma {:induction false} ConvertFractionManySlashes(s: string)
    requires multiset(s)['/'] >= 2
    ensures ConvertFraction(s) == None
  {
    SplitCount(s, '/');
    assert '/' in multiset(s);
  }

  /** A fraction of two digit strings is the quotient of their values, or
      `None` when the denominator is zero. */
  lemma {:induction false} ConvertFractionDigits(ns: string, ds: string)
    requires ns != [] && AllIn(ns, Digits) && ds != [] && AllIn(ds, Digits)
    ensures ConvertFraction(ns + "/" + ds)
      == if DigitsValue(ds) == 0 then None else Some(DigitsValue(ns) as real / DigitsValue(ds) as real)
  {
    DigitsNoSlash(ns);
    DigitsNoSlash(ds);
    ConvertFractionSplit(ns, ds);
    ParseFloatDigits(ns);
    ParseFloatDigits(ds);
    QuotientOfValues(DigitsValue(ns) as real, DigitsValue(ds) as real);
  }

  /** The `"a/b"` text of a rational with natural parts reads back as `a / b`,
      or `None` when `b` is zero. */
  lemma {:induction false} ConvertFractionRatio(a: nat, b: nat)
    ensures ConvertFraction(NatStr(a) + "/" + NatStr(b))
      == if b == 0 then None else Some(a as real / b as real)
  {
    NatStrDigits(a);
    NatStrDigits(b);
    ConvertFractionDigits(NatStr(a), NatStr(b));
  }

  lemma DigitsNoSlash(ds: string)
    requires AllIn(ds, Digits)
    ensures '/' !in ds && ',' !in ds && '[' !in ds && ']' !in ds
  {
  }

  lemma ExampleRatios()
    ensures AllIn("463", Digits) && DigitsValue("463") == 463
    ensures AllIn("10", Digits) && DigitsValue("10") == 10
    ensures AllIn("0", Digits) && DigitsValue("0") == 0
  {
    assert "463"[..2] == "46" && "46"[..1] == "4" && "10"[..1] == "1";
  }

  lemma {:induction false} SecondsExample(ns: string, ds: string)
    requires ns != [] && AllIn(ns, Digits) && DigitsValue(ns) == 463
    requires ds != [] && AllIn(ds, Digits) && DigitsValue(ds) == 10
    ensures ConvertFraction(ns + "/" + ds) == Some(46.3)
  {
    ConvertFractionDigits(ns, ds);
    RealQuotient(DigitsValue(ns), DigitsValue(ds));
  }

  lemma RealQuotient(a: nat, b: nat)
    requires a == 463 && b == 10
    ensures a as real / b as real == 46.3
  {
  }

  lemma ConvertFractionExampleSeconds()
    ensures ConvertFraction("463/10") == Some(46.3)
  {
    ExampleRatios();
    assert "463" + "/" + "10" == "463/10";
    SecondsExample("463", "10");
  }

  lemma ConvertFractionExampleZero()
    ensures ConvertFraction("0/0") == None
  {
    ExampleRatios();
    assert "0" + "/" + "0" == "0/0";
    ConvertFractionDigits("0", "0");
  }

  lemma ConvertFractionExamplePlain()
    ensures ConvertFraction("46.3") == Some(46.3)
  {
    assert '/' !in "46.3";
    ParseFloatExampleDecimal();
  }

  // ---------------------------------------------------------------------
  // convert_dms_string_to_decimal
  // ---------------------------------------------------------------------

  const Brackets: set<char> := {'[', ']'}

  /** `strip()` applied to every piece. */
  function StripEach(ps: seq<string>): (r: seq<string>)
    ensures |r| == |ps| && forall k :: 0 <= k < |ps| ==> r[k] == Strip(ps[k])
  {
    seq(|ps|, k requires 0 <= k < |ps| => Strip(ps[k]))
  }

  /** The components of a DMS text: brackets are stripped first and
      whitespace second, then the text is split at every comma and each
      piece is stripped. */
  function DmsComponents(dms: string): seq<string> {
    StripEach(Split(Strip(StripChars(dms, Brackets)), ','))
  }

  /** Degrees, minutes and seconds as decimal degrees. */
  function DmsValue(d: real, m: real, s: real): real {
    d + m / 60.0 + s / 3600.0
  }

  /** Whether a hemisphere reference, upper-cased, is `S` or `W`. */
  predicate NegatesRef(ref: string) {
    Upper(ref) == "S" || Upper(ref) == "W"
  }

  function ApplyRef(v: real, ref: string): real {
    if NegatesRef(ref) then -v else v
  }

  /** The unsigned part of `convert_dms_string_to_decimal`: exactly three
      components, degrees and minutes plain numbers, seconds a plain number
      or a fraction. Every failure is `None`. */
  function UnsignedDms(dms: string): Option<real> {
    var cs := DmsComponents(dms);
    if |cs| != 3 then None
    else CombineDms(ParseFloat(cs[0]), ParseFloat(cs[1]), ConvertFraction(cs[2]))
  }

  /** The value of three converted components, `None` when any of them
      failed to convert. */
  function CombineDms(d: Option<real>, m: Option<real>, sec: Option<real>): Option<real> {
    match (d, m, sec)
    case (Some(d), Some(m), Some(sec)) => Some(DmsValue(d, m, sec))
    case _ => None
  }

  /** `convert_dms_string_to_decimal(dms, ref)`: the unsigned value, negated
      for a southern or western reference. */
  function ConvertDms(dms: string, ref: string): Option<real> {
    Signed(UnsignedDms(dms), ref)
  }

  function Signed(o: Option<real>, ref: string): Option<real> {
    match o
    case None => None
    case Some(v) => Some(ApplyRef(v, ref))
  }

  function Negated(o: Option<real>): Option<real> {
    match o
    case None => None
    case Some(v) => Some(-v)
  }

  /** The references that negate are exactly the one-letter ones whose upper
      case is `S` or `W`: `S`, `s`, long s (U+017F), `W` and `w`. */
  lemma NegatesRefLetters(ref: string)
    ensures NegatesRef(ref) <==> |ref| == 1 && ref[0] in {'S', 's', '\U{017F}', 'W', 'w'}
  {
    if |ref| == 1 {
      assert Upper(ref) == [UpperChar(ref[0])];
    } else {
      assert |Upper(ref)| != 1;
    }
  }

  /** The reference only chooses the sign: the conversion succeeds or fails
      as it does for `N`, and the value is negated for `S` and `W`. */
  lemma {:induction false} ConvertDmsSign(dms: string, ref: string)
    ensures ConvertDms(dms, ref) == if NegatesRef(ref) then Negated(ConvertDms(dms, "N")) else ConvertDms(dms, "N")
  {
    NegatesRefLetters("N");
    ConvertDmsUnsigned(dms, ref);
    ConvertDmsUnsigned(dms, "N");
  }

  lemma ConvertDmsUnsigned(dms: string, ref: string)
    ensures ConvertDms(dms, ref) == if NegatesRef(ref) then Negated(UnsignedDms(dms)) else UnsignedDms(dms)
  {
    SignedByRef(UnsignedDms(dms), ref);
  }

  lemma SignedByRef(o: Option<real>, ref: string)
    ensures Signed(o, ref) == if NegatesRef(ref) then Negated(o) else o
  {
  }

  /** Brackets and whitespace keep every comma, so a text without exactly
      two commas does not have three components and converts to `None`. */
  lemma {:induction false} ConvertDmsCommas(dms: string, ref: string)
    ensures |DmsComponents(dms)| == multiset(dms)[','] + 1
    ensures multiset(dms)[','] != 2 ==> ConvertDms(dms, ref) == None
  {
    DmsComponentsCount(dms);
    if |DmsComponents(dms)| != 3 {
      assert UnsignedDms(dms) == None;
    }
  }

  lemma {:induction false} DmsComponentsCount(dms: string)
    ensures |DmsComponents(dms)| == multiset(dms)[','] + 1
  {
    CommasKept(dms);
    PiecesCount(Strip(StripChars(dms, Brackets)));
  }

  /** Stripping brackets and whitespace keeps every comma. */
  lemma CommasKept(dms: string)
    ensures multiset(Strip(StripChars(dms, Brackets)))[','] == multiset(dms)[',']
  {
    assert ',' !in Whitespace;
    StripTwiceCount(dms, Brackets, Whitespace, ',');
  }

  lemma PiecesCount(inner: string)
    ensures |StripEach(Split(inner, ','))| == multiset(inner)[','] + 1
  {
    SplitCount(inner, ',');
  }



  /** A fraction in the degrees or minutes component is rejected by
      `float()`, so the conversion is `None`. */
  lemma {:induction false} ConvertDmsFractionalDegrees(dms: string, ref: string)
    requires |DmsComponents(dms)| == 3
    requires '/' in DmsComponents(dms)[0] || '/' in DmsComponents(dms)[1]
    ensures ConvertDms(dms, ref) == None
  {
    var cs := DmsComponents(dms);
    if '/' in cs[0] {
      ParseFloatRejectsSlash(cs[0]);
      ComponentRejected(dms, ref, 0);
    } else {
      ParseFloatRejectsSlash(cs[1]);
      ComponentRejected(dms, ref, 1);
    }
  }

  /** A degrees or minutes component that `float()` rejects fails the
      whole conversion. */
  lemma ComponentRejected(dms: string, ref: string, i: nat)
    requires i < 2 && i < |DmsComponents(dms)| && ParseFloat(DmsComponents(dms)[i]) == None
    ensures ConvertDms(dms, ref) == None
  {
    UnsignedRejected(dms, i);
  }

  lemma UnsignedRejected(dms: string, i: nat)
    requires i < 2 && i < |DmsComponents(dms)| && ParseFloat(DmsComponents(dms)[i]) == None
    ensures UnsignedDms(dms) == None
  {
    var cs := DmsComponents(dms);
    if |cs| != 3 {
      assert UnsignedDms(dms) == None;
    } else {
      ThreeRejected(dms, cs, i);
    }
  }


  lemma ThreeRejected(dms: string, cs: seq<string>, i: nat)
    requires cs == DmsComponents(dms) && |cs| == 3
    requires i == 0 || i == 1
    requires ParseFloat(cs[i]) == None
    ensures UnsignedDms(dms) == None
  {
    assert CombineDms(ParseFloat(cs[0]), ParseFloat(cs[1]), ConvertFraction(cs[2])) == None;
  }



  /** A DMS triple written out as `"d, m, s"`. */
  function DmsPlainText(dt: string, mt: string, st: string): string {
    dt + ", " + mt + ", " + st
  }

  /** The text exifread produces for a DMS triple: the plain text in
      brackets. */
  function DmsText(dt: string, mt: string, st: string): string {
    "[" + DmsPlainText(dt, mt, st) + "]"
  }

  /** A component that survives `strip()` and the bracket strip unchanged. */
  predicate Component(t: string) {
    t != [] && ',' !in t && t[0] !in Whitespace + Brackets && t[|t| - 1] !in Whitespace + Brackets
  }

  /** `DmsText` is read back into its three components. */
  lemma {:induction false} DmsComponentsOfText(dt: string, mt: string, st: string)
    requires Component(dt) && Component(mt) && Component(st)
    ensures DmsComponents(DmsText(dt, mt, st)) == [dt, mt, st]
  {
    var inner := dt + ", " + mt + ", " + st;
    BracketsOfText(dt, mt, st, inner);
    StripCharsFixed(inner, Whitespace);
    SplitOfInner(dt, mt, st, inner);
    StripPieces(dt, mt, st);
  }

  /** Without brackets, `"d, m, s"` is read back into its three components
      as well. */
  lemma {:induction false} DmsComponentsOfPlainText(dt: string, mt: string, st: string)
    requires Component(dt) && Component(mt) && Component(st)
    ensures DmsComponents(DmsPlainText(dt, mt, st)) == [dt, mt, st]
  {
    var inner := DmsPlainText(dt, mt, st);
    PlainEnds(dt, mt, st, inner);
    StripCharsFixed(inner, Brackets);
    StripCharsFixed(inner, Whitespace);
    SplitOfInner(dt, mt, st, inner);
    StripPieces(dt, mt, st);
  }

  lemma {:induction false} PlainEnds(dt: string, mt: string, st: string, inner: string)
    requires Component(dt) && Component(st) && inner == DmsPlainText(dt, mt, st)
    ensures inner == dt + ", " + mt + ", " + st
    ensures inner[0] !in Whitespace + Brackets && inner[|inner| - 1] !in Whitespace + Brackets
  {
    assert inner[0] == dt[0] && inner[|inner| - 1] == st[|st| - 1];
  }

  lemma {:induction false} BracketsOfText(dt: string, mt: string, st: string, inner: string)
    requires Component(dt) && Component(st) && inner == dt + ", " + mt + ", " + st
    ensures StripChars(DmsText(dt, mt, st), Brackets) == inner
    ensures inner[0] !in Whitespace && inner[|inner| - 1] !in Whitespace
  {
    assert DmsText(dt, mt, st) == "[" + inner + "]";
    assert AllIn("[", Brackets) && AllIn("]", Brackets);
    assert inner[0] == dt[0] && inner[|inner| - 1] == st[|st| - 1];
    StripCharsExact("[", inner, "]", Brackets);
  }

  lemma {:induction false} SplitOfInner(dt: string, mt: string, st: string, inner: string)
    requires Component(dt) && Component(mt) && Component(st) && inner == dt + ", " + mt + ", " + st
    ensures Split(inner, ',') == [dt, " " + mt, " " + st]
  {
    var pieces := [dt, " " + mt, " " + st];
    JoinOfInner(dt, mt, st, inner);
    assert forall k :: 0 <= k < |pieces| ==> ',' !in pieces[k];
    SplitJoin(pieces, ',');
  }

  lemma {:induction false} JoinOfInner(dt: string, mt: string, st: string, inner: string)
    requires inner == dt + ", " + mt + ", " + st
    ensures Join([dt, " " + mt, " " + st], ',') == inner
  {
    JoinCons(dt, [" " + mt, " " + st], ',');
    JoinCons(" " + mt, [" " + st], ',');
    assert [dt] + [" " + mt, " " + st] == [dt, " " + mt, " " + st];
    assert [" " + mt] + [" " + st] == [" " + mt, " " + st];
    assert inner == dt + [','] + (" " + mt + [','] + " " + st);
  }

  lemma {:induction false} StripPieces(dt: string, mt: string, st: string)
    requires Component(dt) && Component(mt) && Component(st)
    ensures StripEach([dt, " " + mt, " " + st]) == [dt, mt, st]
  {
    StripEachThree(dt, " " + mt, " " + st);
    StripComponent(dt);
    StripSpacedComponent(mt);
    StripSpacedComponent(st);
  }


  lemma StripEachThree(a: string, b: string, c: string)
    ensures StripEach([a, b, c]) == [Strip(a), Strip(b), Strip(c)]
  {
  }

  lemma StripComponent(t: string)
    requires Component(t)
    ensures Strip(t) == t
  {
    StripCharsFixed(t, Whitespace);
  }

  lemma {:induction false} StripSpacedComponent(t: string)
    requires Component(t)
    ensures Strip(" " + t) == t
  {
    assert " " + t == " " + t + [];
    assert AllIn(" ", Whitespace) && AllIn([], Whitespace);
    StripCharsExact(" ", t, [], Whitespace);
  }


  /** Converting `DmsText` combines what its three components convert to. */
  lemma {:induction false} ConvertDmsText(dt: string, mt: string, st: string, ref: string)
    requires Component(dt) && Component(mt) && Component(st)
    ensures ConvertDms(DmsText(dt, mt, st), ref)
      == match (ParseFloat(dt), ParseFloat(mt), ConvertFraction(st))
         case (Some(d), Some(m), Some(sec)) => Some(ApplyRef(DmsValue(d, m, sec), ref))
         case _ => None
  {
    DmsComponentsOfText(dt, mt, st);
    ConvertDmsOfComponents(DmsText(dt, mt, st), dt, mt, st, ref);
  }

  /** A text whose components are `dt`, `mt` and `st` converts to what
      those three convert to. */
  lemma ConvertDmsOfComponents(dms: string, dt: string, mt: string, st: string, ref: string)
    requires DmsComponents(dms) == [dt, mt, st]
    ensures ConvertDms(dms, ref)
      == match (ParseFloat(dt), ParseFloat(mt), ConvertFraction(st))
         case (Some(d), Some(m), Some(sec)) => Some(ApplyRef(DmsValue(d, m, sec), ref))
         case _ => None
  {
  }

  /** Converting the plain text `"d, m, s"` combines what its three
      components convert to, exactly as for the bracketed text. */
  lemma {:induction false} ConvertDmsPlainText(dt: string, mt: string, st: string, ref: string)
    requires Component(dt) && Component(mt) && Component(st)
    ensures ConvertDms(DmsPlainText(dt, mt, st), ref)
      == match (ParseFloat(dt), ParseFloat(mt), ConvertFraction(st))
         case (Some(d), Some(m), Some(sec)) => Some(ApplyRef(DmsValue(d, m, sec), ref))
         case _ => None
  {
    DmsComponentsOfPlainText(dt, mt, st);
    ConvertDmsOfComponents(DmsPlainText(dt, mt, st), dt, mt, st, ref);
  }

  lemma DigitsComponent(ds: string)
    requires ds != [] && AllIn(ds, Digits)
    ensures Component(ds)
  {
    DigitsNoSlash(ds);
    assert ds[0] in Digits && ds[|ds| - 1] in Digits;
  }

  /** The DMS text of natural degrees and minutes and of seconds written as
      a fraction `a/b` converts to `d + m/60 + (a/b)/3600` with the sign of
      the reference, and to `None` when `b` is zero. */
  lemma {:induction false} ConvertDmsRoundTrip(d: nat, m: nat, a: nat, b: nat, ref: string)
    ensures ConvertDms(DmsText(NatStr(d), NatStr(m), NatStr(a) + "/" + NatStr(b)), ref)
      == if b == 0 then None
         else Some(ApplyRef(DmsValue(d as real, m as real, a as real / b as real), ref))
  {
    NatStrDigits(d);
    NatStrDigits(m);
    NatStrDigits(a);
    NatStrDigits(b);
    DigitsComponent(NatStr(d));
    DigitsComponent(NatStr(m));
    DigitsComponent(NatStr(a));
    DigitsComponent(NatStr(b));
    var st := NatStr(a) + "/" + NatStr(b);
    assert Component(st) by {
      assert ',' !in st;
      assert st[0] == NatStr(a)[0] && st[|st| - 1] == NatStr(b)[|NatStr(b)| - 1];
    }
    ConvertDmsText(NatStr(d), NatStr(m), st, ref);
    ParseFloatNatStr(d);
    ParseFloatNatStr(m);
    ConvertFractionRatio(a, b);
  }

  /** Whitespace before the opening bracket keeps the bracket: it ends up in
      the degrees component, which `float()` rejects. */
  lemma {:induction false} ConvertDmsLeadingSpace(ws: string, dt: string, mt: string, st: string, ref: string)
    requires ws != [] && AllIn(ws, Whitespace)
    requires Component(dt) && Component(mt) && Component(st)
    ensures ConvertDms(ws + DmsText(dt, mt, st), ref) == None
  {
    var rest := " " + mt + ", " + st;
    var bare := "[" + dt + [','] + rest;
    LeadingSpaceStrips(ws, dt, mt, st, rest, bare);
    FirstPieceOf(dt, rest, bare);
    FirstComponentRejected(ws + DmsText(dt, mt, st), ref, bare);
  }

  lemma {:induction false} FirstComponentRejected(dms: string, ref: string, bare: string)
    requires Strip(StripChars(dms, Brackets)) == bare
    requires ParseFloat(Strip(Split(bare, ',')[0])) == None
    ensures ConvertDms(dms, ref) == None
  {
    FirstComponent(dms, bare);
    assert ParseFloat(DmsComponents(dms)[0]) == None;
    ComponentRejected(dms, ref, 0);
  }

  lemma FirstComponent(dms: string, bare: string)
    requires Strip(StripChars(dms, Brackets)) == bare
    ensures |DmsComponents(dms)| >= 1 && DmsComponents(dms)[0] == Strip(Split(bare, ',')[0])
  {
  }

  lemma {:induction false} FirstPieceOf(dt: string, rest: string, bare: string)
    requires Component(dt) && bare == "[" + dt + [','] + rest
    ensures ParseFloat(Strip(Split(bare, ',')[0])) == None
  {
    var first := "[" + dt;
    assert first[|first| - 1] == dt[|dt| - 1] && ',' !in first;
    IndexOfAfter(first, rest, ',');
    FirstPieceRejected(bare, first, rest);
  }

  lemma {:induction false} LeadingSpaceStrips(ws: string, dt: string, mt: string, st: string, rest: string, bare: string)
    requires ws != [] && AllIn(ws, Whitespace)
    requires Component(dt) && Component(st)
    requires rest == " " + mt + ", " + st && bare == "[" + dt + [','] + rest
    ensures Strip(StripChars(ws + DmsText(dt, mt, st), Brackets)) == bare
  {
    assert ws + DmsText(dt, mt, st) == ws + bare + "]";
    BareEnds(dt, mt, st, rest, bare);
    TrailingBracket(ws, bare);
    LeadingWhitespace(ws, bare);
  }


  lemma {:induction false} BareEnds(dt: string, mt: string, st: string, rest: string, bare: string)
    requires Component(st)
    requires rest == " " + mt + ", " + st && bare == "[" + dt + [','] + rest
    ensures bare != [] && bare[0] !in Whitespace
    ensures bare[|bare| - 1] !in Whitespace && bare[|bare| - 1] !in Brackets
  {
    assert bare[|bare| - 1] == st[|st| - 1];
    assert '[' !in Whitespace;
  }


  lemma {:induction false} TrailingBracket(ws: string, bare: string)
    requires ws != [] && AllIn(ws, Whitespace)
    requires bare != [] && bare[|bare| - 1] !in Brackets
    ensures StripChars(ws + bare + "]", Brackets) == ws + bare
  {
    var kept := ws + bare;
    assert ws + bare + "]" == [] + kept + "]";
    assert AllIn([], Brackets) && AllIn("]", Brackets);
    assert kept[0] == ws[0] && kept[|kept| - 1] == bare[|bare| - 1];
    StripCharsExact([], kept, "]", Brackets);
  }

  lemma {:induction false} LeadingWhitespace(ws: string, bare: string)
    requires AllIn(ws, Whitespace)
    requires bare != [] && bare[0] !in Whitespace && bare[|bare| - 1] !in Whitespace
    ensures Strip(ws + bare) == bare
  {
    assert ws + bare == ws + bare + [];
    assert AllIn([], Whitespace);
    StripCharsExact(ws, bare, [], Whitespace);
  }

  lemma {:induction false} FirstPieceRejected(bare: string, first: string, rest: string)
    requires first != [] && first[0] == '[' && first[|first| - 1] !in Whitespace && ',' !in first
    requires bare == first + [','] + rest
    requires IndexOf(bare, ',') == |first|
    ensures Strip(Split(bare, ',')[0]) == first
    ensures ParseFloat(first) == None
  {
    assert bare[..|first|] == first;
    StripCharsFixed(first, Whitespace);
    assert first[0] !in NumeralChars;
    ParseFloatRejectsOthers(first);
  }

  lemma ExampleComponents()
    ensures AllIn("40", Digits) && DigitsValue("40") == 40
    ensures AllIn("26", Digits) && DigitsValue("26") == 26
  {
    assert "40"[..1] == "4" && "26"[..1] == "2";
  }

  lemma {:induction false} FractionComponent(ns: string, ds: string)
    requires ns != [] && AllIn(ns, Digits) && ds != [] && AllIn(ds, Digits)
    ensures Component(ns + "/" + ds)
  {
    DigitsComponent(ns);
    DigitsComponent(ds);
    var st := ns + "/" + ds;
    assert ',' !in st;
    assert st[0] == ns[0] && st[|st| - 1] == ds[|ds| - 1];
  }

  lemma {:induction false} DecimalComponent(w: string, f: string)
    requires w != [] && AllIn(w, Digits) && f != [] && AllIn(f, Digits)
    ensures Component(w + "." + f) && '/' !in w + "." + f
  {
    DigitsComponent(w);
    DigitsComponent(f);
    var st := w + "." + f;
    assert ',' !in st && '/' !in st;
    assert st[0] == w[0] && st[|st| - 1] == f[|f| - 1];
  }

  lemma {:induction false} DecimalSeconds(w: string, f: string)
    requires w != [] && AllIn(w, Digits) && DigitsValue(w) == 46
    requires f != [] && AllIn(f, Digits) && FractionValue(f) == 0.3
    ensures ConvertFraction(w + "." + f) == Some(46.3)
  {
    DecimalComponent(w, f);
    ConvertFractionPlain(w + "." + f);
    ParseFloatDecimal(w, f);
  }

  lemma {:induction false} DmsExample(dt: string, mt: string, st: string, ref: string)
    requires dt != [] && AllIn(dt, Digits) && DigitsValue(dt) == 40
    requires mt != [] && AllIn(mt, Digits) && DigitsValue(mt) == 26
    requires Component(st) && ConvertFraction(st) == Some(46.3)
    ensures ConvertDms(DmsText(dt, mt, st), ref) == Some(ApplyRef(40.0 + 26.0 / 60.0 + 46.3 / 3600.0, ref))
  {
    DigitsComponent(dt);
    DigitsComponent(mt);
    ParseFloatDigits(dt);
    ParseFloatDigits(mt);
    ConvertDmsText(dt, mt, st, ref);
  }

  /** The tag text of 40° 26' 46.3" (seconds as exifread writes them) with
      reference `S`. */
  lemma ConvertDmsExampleSouth()
    ensures ConvertDms("[40, 26, 463/10]", "S") == Some(-(40.0 + 26.0 / 60.0 + 46.3 / 3600.0))
  {
    ExampleComponents();
    ExampleRatios();
    FractionComponent("463", "10");
    SecondsExample("463", "10");
    DmsExample("40", "26", "463" + "/" + "10", "S");
    ExampleText();
    NegatesRefLetters("S");
  }

  lemma ExampleText()
    ensures DmsText("40", "26", "463" + "/" + "10") == "[40, 26, 463/10]"
  {
  }

  /** The same coordinate with decimal seconds and reference `N`. */
  lemma ConvertDmsExampleNorth()
    ensures ConvertDms("[40, 26, 46.3]", "N") == Some(40.0 + 26.0 / 60.0 + 46.3 / 3600.0)
  {
    ExampleComponents();
    ExampleDigits();
    DecimalComponent("46", "3");
    DecimalSeconds("46", "3");
    DmsExample("40", "26", "46" + "." + "3", "N");
    ExampleTextDecimal();
    NegatesRefLetters("N");
  }

  lemma ExampleTextDecimal()
    ensures DmsText("40", "26", "46" + "." + "3") == "[40, 26, 46.3]"
  {
  }

  lemma {:induction false} DmsPlainExample(dt: string, mt: string, st: string, ref: string)
    requires dt != [] && AllIn(dt, Digits) && DigitsValue(dt) == 40
    requires mt != [] && AllIn(mt, Digits) && DigitsValue(mt) == 26
    requires Component(st) && ConvertFraction(st) == Some(46.3)
    ensures ConvertDms(DmsPlainText(dt, mt, st), ref) == Some(ApplyRef(40.0 + 26.0 / 60.0 + 46.3 / 3600.0, ref))
  {
    DigitsComponent(dt);
    DigitsComponent(mt);
    ParseFloatDigits(dt);
    ParseFloatDigits(mt);
    ConvertDmsPlainText(dt, mt, st, ref);
  }

  /** The coordinate written without brackets, with reference `S`. */
  lemma ConvertDmsExamplePlainSouth()
    ensures ConvertDms("40, 26, 46.3", "S") == Some(-(40.0 + 26.0 / 60.0 + 46.3 / 3600.0))
  {
    ExampleComponents();
    ExampleDigits();
    DecimalComponent("46", "3");
    DecimalSeconds("46", "3");
    DmsPlainExample("40", "26", "46" + "." + "3", "S");
    ExamplePlainText();
    NegatesRefLetters("S");
  }

  lemma ExamplePlainText()
    ensures DmsPlainText("40", "26", "46" + "." + "3") == "40, 26, 46.3"
  {
  }

  /** Two components are one too few. */
  lemma ConvertDmsExampleTwoComponents()
    ensures ConvertDms("10, 20", "N") == None
  {
    var a, b := "10", " 20";
    assert "10, 20" == a + [','] + b;
    OneComma(a, b);
    ConvertDmsCommas("10, 20", "N");
  }

  lemma OneComma(a: string, b: string)
    requires ',' !in a && ',' !in b
    ensures multiset(a + [','] + b)[','] == 1
  {
    AbsentCount(a, ',');
    AbsentCount(b, ',');
    assert multiset(a + [','] + b) == multiset(a) + multiset{','} + multiset(b);
  }

  // ---------------------------------------------------------------------
  // get_lat_lon_from_jpeg
  // ---------------------------------------------------------------------

  const LatitudeTag := "GPS GPSLatitude"
  const LongitudeTag := "GPS GPSLongitude"
  const LatitudeRefTag := "GPS GPSLatitudeRef"
  const LongitudeRefTag := "GPS GPSLongitudeRef"

  /** `tags.get(key, default)`. */
  function Get(tags: map<string, string>, key: string, default: string): string {
    if key in tags then tags[key] else default
  }

  /** A tag that is present with a non-empty value. */
  predicate HasTag(tags: map<string, string>, key: string) {
    key in tags && tags[key] != ""
  }

  /** `get_lat_lon_from_jpeg` after the EXIF read: `exif` is the tag map, or
      `None` when the file could not be read. No tags, or a missing or empty
      latitude or longitude, give no coordinates at all; otherwise each one
      is converted with its reference, `N` and `E` by default. */
  function LatLon(exif: Option<map<string, string>>): (Option<real>, Option<real>) {
    if exif.None? || exif.value == map[] then (None, None)
    else
      var tags := exif.value;
      if HasTag(tags, LatitudeTag) && HasTag(tags, LongitudeTag) then
        (ConvertDms(tags[LatitudeTag], Get(tags, LatitudeRefTag, "N")),
         ConvertDms(tags[LongitudeTag], Get(tags, LongitudeRefTag, "E")))
      else (None, None)
  }

  /** Coordinates come only from a tag map holding both a non-empty
      latitude and a non-empty longitude; one without the other gives
      neither. */
  lemma LatLonMissing(exif: Option<map<string, string>>)
    requires !(exif.Some? && HasTag(exif.value, LatitudeTag) && HasTag(exif.value, LongitudeTag))
    ensures LatLon(exif) == (None, None)
  {
  }

  /** Without reference tags the coordinates are northern and eastern: the
      unsigned values of the two DMS texts. */
  lemma {:induction false} LatLonDefaults(tags: map<string, string>)
    requires HasTag(tags, LatitudeTag) && HasTag(tags, LongitudeTag)
    requires LatitudeRefTag !in tags && LongitudeRefTag !in tags
    ensures LatLon(Some(tags)) == (UnsignedDms(tags[LatitudeTag]), UnsignedDms(tags[LongitudeTag]))
  {
    NegatesRefLetters("N");
    NegatesRefLetters("E");
    ConvertDmsUnsigned(tags[LatitudeTag], "N");
    ConvertDmsUnsigned(tags[LongitudeTag], "E");
  }

  /** With references `S` and `W` both coordinates are negated. */
  lemma {:induction false} LatLonSouthWest(tags: map<string, string>)
    requires HasTag(tags, LatitudeTag) && HasTag(tags, LongitudeTag)
    requires LatitudeRefTag in tags && tags[LatitudeRefTag] == "S"
    requires LongitudeRefTag in tags && tags[LongitudeRefTag] == "W"
    ensures LatLon(Some(tags)) == (Negated(UnsignedDms(tags[LatitudeTag])), Negated(UnsignedDms(tags[LongitudeTag])))
  {
    NegatesRefLetters("S");
    NegatesRefLetters("W");
    ConvertDmsUnsigned(tags[LatitudeTag], "S");
    ConvertDmsUnsigned(tags[LongitudeTag], "W");
  }

  /** An explicit `N` or `E` reference reads as the missing one. */
  lemma {:induction false} LatLonExplicitDefaults(tags: map<string, string>)
    requires HasTag(tags, LatitudeTag) && HasTag(tags, LongitudeTag)
    requires LatitudeRefTag !in tags && LongitudeRefTag !in tags
    ensures LatLon(Some(tags[LatitudeRefTag := "N"][LongitudeRefTag := "E"])) == LatLon(Some(tags))
  {
    var t := tags[LatitudeRefTag := "N"][LongitudeRefTag := "E"];
    assert t[LatitudeTag] == tags[LatitudeTag] && t[LongitudeTag] == tags[LongitudeTag];
    assert Get(t, LatitudeRefTag, "N") == "N" && Get(t, LongitudeRefTag, "E") == "E";
    LatLonOfTags(t);
    LatLonOfTags(tags);
  }

  /** Both coordinates present: each is converted with its reference. */
  lemma LatLonOfTags(tags: map<string, string>)
    requires HasTag(tags, LatitudeTag) && HasTag(tags, LongitudeTag)
    ensures LatLon(Some(tags))
      == (ConvertDms(tags[LatitudeTag], Get(tags, LatitudeRefTag, "N")),
          ConvertDms(tags[LongitudeTag], Get(tags, LongitudeRefTag, "E")))
  {
    assert LatitudeTag in tags;
  }
}
