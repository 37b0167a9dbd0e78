/**
 * The output-file naming rule shared by split_fasta.py and
 * split_fasta_keepheaders.py: the accession found in a record id by
 * `re.search(r'([A-Z0-9_]+\.\d+)', id)`, or else the cleaned first token of
 * the id, followed by `.fasta` and joined onto the output directory.
 */
module FastaNaming {

  import opened Wrappers
  import opened PyText
  import opened PyFloat
  import opened PyPath

  /** The class `[A-Z0-9_]`. */
  const AccessionChars: set<char> := set c: char | 'A' <= c <= 'Z' || '0' <= c <= '9' || c == '_'

  // ---------------------------------------------------------------------
  // re.search(r'([A-Z0-9_]+\.\d+)', id)
  // ---------------------------------------------------------------------

  /** `t` as a whole matches `[A-Z0-9_]+\.\d+`: a non-empty run of the class,
      a dot, a non-empty run of digits. */
  ghost predicate InPattern(t: string) {
    exists k :: 0 < k < |t| - 1 && AllIn(t[..k], AccessionChars) && t[k] == '.' && AllIn(t[k + 1..], Digits)
  }

  /** Where the regex match that starts at `i` ends, if there is one. Since
      `.` is not in the class, the class run is the maximal one and the
      digit run after the dot is greedy. */
  function MatchEnd(s: string, i: nat): Option<nat>
    requires i <= |s|
  {
    var j := Skip(s, i, AccessionChars, true);
    if i < j && j + 1 < |s| && s[j] == '.' && s[j + 1] in Digits then Some(Skip(s, j + 1, Digits, true))
    else None
  }

  /** The scan of `re.search`: the first start at or after `i` where a match
      exists, with its end. */
  function SearchFrom(s: string, i: nat): (r: Option<(nat, nat)>)
    requires i <= |s|
    ensures r.Some? ==> i <= r.value.0 < r.value.1 <= |s| && MatchEnd(s, r.value.0) == Some(r.value.1)
    ensures r.Some? ==> forall a :: i <= a < r.value.0 ==> MatchEnd(s, a).None?
    ensures r.None? ==> forall a :: i <= a <= |s| ==> MatchEnd(s, a).None?
    decreases |s| - i
  {
    match MatchEnd(s, i)
    case Some(e) => Some((i, e))
    case None => if i == |s| then None else SearchFrom(s, i + 1)
  }

  /** `match.group(1)` of the search, or `None` when nothing matches. */
  function SearchAccession(id: string): Option<string> {
    match SearchFrom(id, 0)
    case Some((a, b)) => Some(id[a..b])
    case None => None
  }

  /** Every match found is a match of the pattern, ends before a non-digit
      and cannot be extended by more digits. */
  lemma {:induction false} MatchEndSound(s: string, i: nat)
    requires i <= |s| && MatchEnd(s, i).Some?
    ensures InPattern(s[i..MatchEnd(s, i).value])
    ensures MatchEnd(s, i).value == |s| || s[MatchEnd(s, i).value] !in Digits
  {
    var j := Skip(s, i, AccessionChars, true);
    var e := MatchEnd(s, i).value;
    var t := s[i..e];
    var k := j - i;
    assert t[..k] == s[i..j];
    assert t[k + 1..] == s[j + 1..e];
    assert AllIn(t[..k], AccessionChars) && t[k] == '.' && AllIn(t[k + 1..], Digits);
  }

  /** Every substring starting at `i` that matches the pattern is found by
      the match at `i`, which is at least as long. */
  lemma {:induction false} MatchEndComplete(s: string, i: nat, e: nat)
    requires i <= e <= |s| && InPattern(s[i..e])
    ensures MatchEnd(s, i).Some? && e <= MatchEnd(s, i).value
  {
    var t := s[i..e];
    var k :| 0 < k < |t| - 1 && AllIn(t[..k], AccessionChars) && t[k] == '.' && AllIn(t[k + 1..], Digits);
    assert t[..k] == s[i..i + k];
    assert t[k + 1..] == s[i + k + 1..e];
    assert s[i + k] == t[k];
    MatchAtDot(s, i, i + k, e);
  }

  /** A class run over `[i, j)`, a dot at `j` and digits over `(j, e)` make a
      match at `i` that reaches `e` or beyond. */
  lemma {:induction false} MatchAtDot(s: string, i: nat, j: nat, e: nat)
    requires i < j && j + 1 < e <= |s| && s[j] == '.'
    requires AllIn(s[i..j], AccessionChars) && AllIn(s[j + 1..e], Digits)
    ensures MatchEnd(s, i).Some? && e <= MatchEnd(s, i).value
  {
    SliceAllIn(s, i, j, AccessionChars);
    SliceAllIn(s, j + 1, e, Digits);
    SkipCovers(s, i, j, AccessionChars);
    assert Skip(s, i, AccessionChars, true) == j by {
      assert '.' !in AccessionChars;
    }
    SkipCovers(s, j + 1, e, Digits);
  }

  lemma SkipFromClassChar(s: string, i: nat)
    requires 0 < i <= |s| && s[i - 1] in AccessionChars
    ensures Skip(s, i - 1, AccessionChars, true) == Skip(s, i, AccessionChars, true)
  {
  }

  /** A match that starts inside a class run also starts one character
      earlier, so the leftmost match starts where its class run starts. */
  lemma {:induction false} MatchEndFromClassChar(s: string, i: nat)
    requires 0 < i <= |s| && s[i - 1] in AccessionChars && MatchEnd(s, i).Some?
    ensures MatchEnd(s, i - 1) == MatchEnd(s, i)
  {
    SkipFromClassChar(s, i);
  }

  /** `re.search` returns the leftmost match, and at that start the longest
      one; it is not preceded by a class character nor followed by a digit;
      and there is none exactly when no substring of the id matches. */
  lemma {:induction false} SearchAccessionSpec(id: string)
    ensures SearchAccession(id).None? <==> forall a, b :: 0 <= a <= b <= |id| ==> !InPattern(id[a..b])
    ensures SearchFrom(id, 0).Some? ==>
      var (a, b) := SearchFrom(id, 0).value;
      && InPattern(id[a..b])
      && (forall a', b' :: 0 <= a' < a && a' <= b' <= |id| ==> !InPattern(id[a'..b']))
      && (forall b' :: b < b' <= |id| ==> !InPattern(id[a..b']))
      && (a == 0 || id[a - 1] !in AccessionChars)
      && (b == |id| || id[b] !in Digits)
  {
    SearchFound(id);
    if SearchFrom(id, 0).Some? {
      var (a, b) := SearchFrom(id, 0).value;
      SearchSome(id, a, b);
    }
  }

  /** There is a match exactly when some substring matches the pattern. */
  lemma SearchFound(id: string)
    ensures SearchAccession(id).None? <==> forall a, b :: 0 <= a <= b <= |id| ==> !InPattern(id[a..b])
  {
    match SearchFrom(id, 0)
    case None =>
      SearchNone(id);
    case Some((a, b)) =>
      SearchSome(id, a, b);
  }

  lemma SearchNone(id: string)
    requires SearchFrom(id, 0).None?
    ensures forall a, b :: 0 <= a <= b <= |id| ==> !InPattern(id[a..b])
  {
    forall a, b | 0 <= a <= b <= |id|
      ensures !InPattern(id[a..b])
    {
      NoMatchAt(id, a, b);
    }
  }

  lemma {:induction false} SearchSome(id: string, a: nat, b: nat)
    requires SearchFrom(id, 0) == Some((a, b))
    ensures InPattern(id[a..b])
    ensures forall a', b' :: 0 <= a' < a && a' <= b' <= |id| ==> !InPattern(id[a'..b'])
    ensures forall b' :: b < b' <= |id| ==> !InPattern(id[a..b'])
    ensures a == 0 || id[a - 1] !in AccessionChars
    ensures b == |id| || id[b] !in Digits
  {
    MatchEndSound(id, a);
    forall a', b' | 0 <= a' < a && a' <= b' <= |id|
      ensures !InPattern(id[a'..b'])
    {
      NoMatchAt(id, a', b');
    }
    forall b' | b < b' <= |id|
      ensures !InPattern(id[a..b'])
    {
      LongestAt(id, a, b, b');
    }
    if a > 0 && id[a - 1] in AccessionChars {
      MatchEndFromClassChar(id, a);
    }
  }

  /** No match found at `a`: nothing starting at `a` matches. */
  lemma NoMatchAt(id: string, a: nat, b: nat)
    requires a <= b <= |id| && MatchEnd(id, a).None?
    ensures !InPattern(id[a..b])
  {
    if InPattern(id[a..b]) {
      MatchEndComplete(id, a, b);
    }
  }

  /** The match found at `a` is the longest one starting there. */
  lemma LongestAt(id: string, a: nat, b: nat, b': nat)
    requires a <= b < b' <= |id| && MatchEnd(id, a) == Some(b)
    ensures !InPattern(id[a..b'])
  {
    if InPattern(id[a..b']) {
      MatchEndComplete(id, a, b');
    }
  }

  /** The shape of a matched name: exactly one dot, class characters before
      it and digits after it, hence no `/` and no whitespace. */
  lemma {:induction false} PatternShape(t: string)
    requires InPattern(t)
    ensures multiset(t)['.'] == 1
    ensures t[0] in AccessionChars && t[|t| - 1] in Digits
    ensures '/' !in t && NoneIn(t, Whitespace)
  {
    var k :| 0 < k < |t| - 1 && AllIn(t[..k], AccessionChars) && t[k] == '.' && AllIn(t[k + 1..], Digits);
    PartsShape(t, t[..k], t[k + 1..]);
  }

  lemma {:induction false} PartsShape(t: string, before: string, after: string)
    requires before != [] && after != [] && t == before + ['.'] + after
    requires AllIn(before, AccessionChars) && AllIn(after, Digits)
    ensures multiset(t)['.'] == 1
    ensures t[0] in AccessionChars && t[|t| - 1] in Digits
    ensures '/' !in t && NoneIn(t, Whitespace)
  {
    AllInExcludes(before, AccessionChars, '.');
    AllInExcludes(after, Digits, '.');
    assert multiset(t) == multiset(before) + multiset{'.'} + multiset(after);
    assert t[0] == before[0] && t[|t| - 1] == after[|after| - 1];
    var cs := AccessionChars + {'.'};
    assert AllIn(after, cs) && AllIn(['.'], cs) && AllIn(before, cs);
    AllInConcat(before, ['.'], cs);
    AllInConcat(before + ['.'], after, cs);
    AllInExcludes(t, cs, '/');
    AllInAvoids(t, cs, Whitespace);
  }

  // ---------------------------------------------------------------------
  // The fallback: id.split()[0].replace('|', '_').replace('>', '').replace(':', '_')
  // ---------------------------------------------------------------------

  function CleanToken(t: string): string {
    Replace(Replace(Replace(t, '|', "_"), '>', ""), ':', "_")
  }

  /** What the three replacements do to one character. */
  function CleanChar(c: char): string {
    if c == '|' || c == ':' then "_" else if c == '>' then "" else [c]
  }

  /** The cleaning done in one pass, character by character. */
  function CleanEach(t: string): string {
    if t == [] then [] else CleanChar(t[0]) + CleanEach(t[1..])
  }

  lemma {:induction false} ReplaceConcat(a: string, b: string, c: char, repl: string)
    ensures Replace(a + b, c, repl) == Replace(a, c, repl) + Replace(b, c, repl)
    decreases |a|
  {
    if a == [] {
      assert a + b == b;
    } else {
      assert (a + b)[0] == a[0] && (a + b)[1..] == a[1..] + b;
      ReplaceConcat(a[1..], b, c, repl);
    }
  }

  lemma ReplaceOne(x: char, c: char, repl: string)
    ensures Replace([x], c, repl) == if x == c then repl else [x]
  {
    assert [x][1..] == [];
  }

  lemma ReplaceNone(c: char, repl: string)
    ensures Replace([], c, repl) == []
  {
  }

  lemma CleanOneChar(c: char)
    ensures CleanToken([c]) == CleanChar(c)
  {
    ReplaceOne(c, '|', "_");
    ReplaceOne('_', '>', "");
    ReplaceOne('_', ':', "_");
    ReplaceNone(':', "_");
    if c != '|' {
      ReplaceOne(c, '>', "");
      if c != '>' {
        ReplaceOne(c, ':', "_");
      }
    }
  }

  /** The chain of three replacements cleans each character on its own:
      `|` and `:` become `_`, `>` is dropped, anything else is kept. */
  lemma {:induction false} CleanTokenEach(t: string)
    ensures CleanToken(t) == CleanEach(t)
    decreases |t|
  {
    if t != [] {
      var c, rest := t[0], t[1..];
      assert t == [c] + rest;
      ReplaceConcat([c], rest, '|', "_");
      ReplaceConcat(Replace([c], '|', "_"), Replace(rest, '|', "_"), '>', "");
      ReplaceConcat(Replace(Replace([c], '|', "_"), '>', ""), Replace(Replace(rest, '|', "_"), '>', ""), ':', "_");
      CleanOneChar(c);
      CleanTokenEach(rest);
    }
  }

  /** A cleaned token contains none of `|`, `>` and `:`. */
  lemma CleanTokenChars(t: string)
    ensures '|' !in CleanToken(t) && '>' !in CleanToken(t) && ':' !in CleanToken(t)
  {
    var r1 := Replace(t, '|', "_");
    var r2 := Replace(r1, '>', "");
    ReplaceAbsent(t, '|', "_", '|');
    ReplaceAbsent(r1, '>', "", '>');
    ReplaceAbsent(r1, '>', "", '|');
    ReplaceAbsent(r2, ':', "_", ':');
    ReplaceAbsent(r2, ':', "_", '>');
    ReplaceAbsent(r2, ':', "_", '|');
  }

  /** A token without `|`, `>` and `:` is used as it is. */
  lemma {:induction false} CleanTokenUnchanged(t: string)
    requires '|' !in t && '>' !in t && ':' !in t
    ensures CleanToken(t) == t
    decreases |t|
  {
    CleanTokenEach(t);
    CleanEachUnchanged(t);
  }

  lemma {:induction false} CleanEachUnchanged(t: string)
    requires '|' !in t && '>' !in t && ':' !in t
    ensures CleanEach(t) == t
    decreases |t|
  {
    if t != [] {
      assert t[0] != '|' && t[0] != '>' && t[0] != ':';
      CleanEachUnchanged(t[1..]);
    }
  }

  /** The fallback name: the cleaned first whitespace token, or `None` when
      the id has no token and `split()[0]` raises. */
  function FallbackName(id: string): Option<string> {
    var ts := Tokens(id);
    if ts == [] then None else Some(CleanToken(ts[0]))
  }

  /** Lines 25-30: the accession if the search finds one, else the fallback. */
  function AccessionName(id: string): Option<string> {
    match SearchAccession(id)
    case Some(m) => Some(m)
    case None => FallbackName(id)
  }

  /** No class character is whitespace. */
  lemma AccessionCharsNotWhitespace(c: char)
    requires c in AccessionChars
    ensures c !in Whitespace
  {
  }

  /** Naming fails exactly for an id made only of whitespace. */
  lemma {:induction false} AccessionNameFails(id: string)
    ensures AccessionName(id).None? <==> AllIn(id, Whitespace)
  {
    FirstToken(id);
    if AllIn(id, Whitespace) {
      match SearchFrom(id, 0)
      case None =>
      case Some((a, b)) =>
        assert Skip(id, a, AccessionChars, true) > a;
        AccessionCharsNotWhitespace(id[a]);
        assert false;
    }
  }

  /** A name found by the search has the pattern's shape; a fallback name is
      the cleaned first token, in which `|`, `>` and `:` no longer occur. */
  lemma {:induction false} AccessionNameShape(id: string)
    requires AccessionName(id).Some?
    ensures SearchAccession(id).Some? ==> InPattern(AccessionName(id).value)
    ensures SearchAccession(id).None? ==>
      && Tokens(id) != []
      && AccessionName(id).value == CleanEach(Tokens(id)[0])
      && '|' !in AccessionName(id).value && '>' !in AccessionName(id).value && ':' !in AccessionName(id).value
  {
    if SearchAccession(id).Some? {
      SearchAccessionSpec(id);
    } else {
      CleanTokenEach(Tokens(id)[0]);
      CleanTokenChars(Tokens(id)[0]);
    }
  }

  /** An id that is itself an accession names the file after itself. */
  lemma {:induction false} AccessionNameWhole(t: string)
    requires InPattern(t)
    ensures AccessionName(t) == Some(t)
  {
    assert t[0..|t|] == t;
    MatchEndComplete(t, 0, |t|);
  }

  /** An id made of `>` alone has no accession; its cleaned token is empty,
      so its file is named `.fasta`. */
  lemma AccessionNameExampleBracket()
    ensures AccessionName(">") == Some("")
  {
    var id := ">";
    assert MatchEnd(id, 0).None? && MatchEnd(id, 1).None?;
    assert SearchFrom(id, 0).None?;
    assert Skip(id, 0, Whitespace, true) == 0 && Skip(id, 0, Whitespace, false) == 1;
    assert Tokens(id) == [">"] by {
      assert id[0..1] == ">" && id[1..] == [];
      assert Tokens([]) == [];
    }
    CleanOneChar('>');
  }

  // ---------------------------------------------------------------------
  // os.path.join(output_directory, f"{accession_number}.fasta")
  // ---------------------------------------------------------------------

  /** The output path of a record with this id, or `None` when naming fails. */
  function OutputFilename(dir: string, id: string): Option<string> {
    match AccessionName(id)
    case None => None
    case Some(name) => Some(PathJoin(dir, name + ".fasta"))
  }

  /** A matched accession is always the basename of the output path, with
      `.fasta` appended; the path lies inside the directory. */
  lemma {:induction false} OutputFilenameOfMatch(dir: string, id: string)
    requires SearchAccession(id).Some?
    ensures OutputFilename(dir, id).Some?
    ensures Basename(OutputFilename(dir, id).value) == SearchAccession(id).value + ".fasta"
    ensures OutputFilename(dir, id).value[..|dir|] == dir
  {
    var name := SearchAccession(id).value;
    SearchAccessionSpec(id);
    PatternShape(name);
    assert '/' !in name + ".fasta";
    BasenameOfJoin(dir, name + ".fasta");
    PathJoinPrefix(dir, name + ".fasta");
  }

  /** Ids get the same output path in one directory exactly when they get
      the same name, as long as no name starts with `/` (a fallback name
      that does is an absolute path and escapes the directory). */
  lemma {:induction false} OutputFilenameSame(dir: string, id1: string, id2: string)
    requires AccessionName(id1).Some? && AccessionName(id2).Some?
    requires AccessionName(id1).value == [] || AccessionName(id1).value[0] != '/'
    requires AccessionName(id2).value == [] || AccessionName(id2).value[0] != '/'
    ensures OutputFilename(dir, id1) == OutputFilename(dir, id2) <==> AccessionName(id1) == AccessionName(id2)
  {
    var n1, n2 := AccessionName(id1).value, AccessionName(id2).value;
    if PathJoin(dir, n1 + ".fasta") == PathJoin(dir, n2 + ".fasta") {
      PathJoinInjective(dir, n1 + ".fasta", n2 + ".fasta");
      assert n1 == (n1 + ".fasta")[..|n1|] && n2 == (n2 + ".fasta")[..|n2|];
    }
  }
}
