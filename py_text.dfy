/**
 * The Python `str` operations the scripts rely on, over `seq<char>`:
 * `strip()`, `strip(chars)`, `split(sep)`, `split()`, `upper()` and
 * single-character `replace`.
 */
module PyText {

  import opened Wrappers

  /** The characters for which Python's `str.isspace()` holds; `strip()`
      and `split()` treat exactly these as whitespace (`float()` strips a
      smaller set, `PyFloat.FloatSpace`). */
  const Whitespace: set<char> := set c: char |
    '\t' <= c <= '\r' || '\U{001C}' <= c <= ' ' || c == '\U{0085}' || c == '\U{00A0}' ||
    c == '\U{1680}' || '\U{2000}' <= c <= '\U{200A}' || c == '\U{2028}' || c == '\U{2029}' ||
    c == '\U{202F}' || c == '\U{205F}' || c == '\U{3000}'

  predicate AllIn(s: string, cs: set<char>) {
    forall k :: 0 <= k < |s| ==> s[k] in cs
  }

  lemma AllInConcat(a: string, b: string, cs: set<char>)
    ensures AllIn(a + b, cs) <==> AllIn(a, cs) && AllIn(b, cs)
  {
    if AllIn(a + b, cs) {
      assert forall k :: 0 <= k < |a| ==> a[k] == (a + b)[k];
      assert forall k :: 0 <= k < |b| ==> b[k] == (a + b)[|a| + k];
    }
  }

  predicate NoneIn(s: string, cs: set<char>) {
    forall k :: 0 <= k < |s| ==> s[k] !in cs
  }

  /** The end of the run that starts at `i` of characters whose membership
      in `cs` is `member`: the first index at or after `i` where it is not,
      or `|s|`. */
  function Skip(s: string, i: nat, cs: set<char>, member: bool): (j: nat)
    requires i <= |s|
    ensures i <= j <= |s|
    ensures forall k :: i <= k < j ==> (s[k] in cs) == member
    ensures j == |s| || (s[j] in cs) != member
    decreases |s| - i
  {
    if i == |s| || (s[i] in cs) != member then i else Skip(s, i + 1, cs, member)
  }

  /** A run that covers `[i, e)` ends at `e` or later. */
  lemma SkipCovers(s: string, i: nat, e: nat, cs: set<char>)
    requires i <= e <= |s|
    requires forall m :: i <= m < e ==> s[m] in cs
    ensures Skip(s, i, cs, true) >= e
  {
  }

  /** The characters of a slice, read in the whole string. */
  lemma SliceAllIn(s: string, a: nat, b: nat, cs: set<char>)
    requires a <= b <= |s| && AllIn(s[a..b], cs)
    ensures forall m :: a <= m < b ==> s[m] in cs
  {
    assert forall m :: a <= m < b ==> s[m] == s[a..b][m - a];
  }

  /** A string drawn from a class disjoint from `avoid` avoids it. */
  lemma AllInAvoids(s: string, cs: set<char>, avoid: set<char>)
    requires AllIn(s, cs) && cs !! avoid
    ensures NoneIn(s, avoid)
  {
  }

  // ---------------------------------------------------------------------
  // strip
  // ---------------------------------------------------------------------

  /** `s.lstrip(chars)`: drops the longest prefix made of characters of `cs`. */
  function LStrip(s: string, cs: set<char>): (r: string)
    ensures |r| <= |s| && r == s[|s| - |r|..]
    ensures AllIn(s[..|s| - |r|], cs)
    ensures r == [] || r[0] !in cs
  {
    if s != [] && s[0] in cs then
      var r := LStrip(s[1..], cs);
      assert s[..|s| - |r|] == [s[0]] + s[1..][..|s| - 1 - |r|];
      AllInConcat([s[0]], s[1..][..|s| - 1 - |r|], cs);
      r
    else s
  }

  /** `s.rstrip(chars)`: drops the longest suffix made of characters of `cs`. */
  function RStrip(s: string, cs: set<char>): (r: string)
    ensures |r| <= |s| && r == s[..|r|]
    ensures AllIn(s[|r|..], cs)
    ensures r == [] || r[|r| - 1] !in cs
  {
    if s != [] && s[|s| - 1] in cs then
      var r := RStrip(s[..|s| - 1], cs);
      assert s[|r|..] == s[..|s| - 1][|r|..] + [s[|s| - 1]];
      AllInConcat(s[..|s| - 1][|r|..], [s[|s| - 1]], cs);
      r
    else s
  }

  /** `s.strip(chars)`: the result neither starts nor ends with a character
      of `cs`; `StripCharsShape` shows what surrounds it in `s`. */
  function StripChars(s: string, cs: set<char>): (r: string)
    ensures |r| <= |s|
    ensures r == [] || (r[0] !in cs && r[|r| - 1] !in cs)
  {
    RStrip(LStrip(s, cs), cs)
  }

  /** `s` is the stripped text with characters of `cs` around it. */
  lemma {:induction false} StripCharsShape(s: string, cs: set<char>)
    ensures exists pre, post :: s == pre + StripChars(s, cs) + post && AllIn(pre, cs) && AllIn(post, cs)
  {
    var l := LStrip(s, cs);
    var r := RStrip(l, cs);
    var pre, post := s[..|s| - |l|], l[|r|..];
    Rejoin(s, l, r);
    ShapeWitness(s, r, pre, post, cs);
  }

  lemma ShapeWitness(s: string, r: string, pre: string, post: string, cs: set<char>)
    requires s == pre + r + post && AllIn(pre, cs) && AllIn(post, cs)
    ensures exists pre', post' :: s == pre' + r + post' && AllIn(pre', cs) && AllIn(post', cs)
  {
  }

  lemma Rejoin(s: string, l: string, r: string)
    requires |l| <= |s| && l == s[|s| - |l|..]
    requires |r| <= |l| && r == l[..|r|]
    ensures s == s[..|s| - |l|] + r + l[|r|..]
  {
    assert l == r + l[|r|..];
  }

  /** `s.strip()`. */
  function Strip(s: string): string {
    StripChars(s, Whitespace)
  }

  /** Whatever `strip(ws)` keeps or drops, a character class that contains
      `ws` and every kept character contains all of `s`. */
  lemma AllInStripped(s: string, ws: set<char>, cs: set<char>)
    requires ws <= cs && AllIn(StripChars(s, ws), cs)
    ensures AllIn(s, cs)
  {
    var r := StripChars(s, ws);
    StripCharsShape(s, ws);
    var pre, post :| s == pre + r + post && AllIn(pre, ws) && AllIn(post, ws);
    AllInConcat(pre, r, cs);
    AllInConcat(pre + r, post, cs);
  }

  /** A string that neither starts nor ends with a character of `cs` is
      left alone by `strip(cs)`. */
  lemma StripCharsFixed(s: string, cs: set<char>)
    requires s == [] || (s[0] !in cs && s[|s| - 1] !in cs)
    ensures StripChars(s, cs) == s
  {
  }

  /** Stripping twice strips nothing more. */
  lemma StripCharsIdempotent(s: string, cs: set<char>)
    ensures StripChars(StripChars(s, cs), cs) == StripChars(s, cs)
  {
    StripCharsFixed(StripChars(s, cs), cs);
  }

  /** Characters of `cs` around a core that starts and ends outside `cs`
      are exactly what `strip(cs)` removes. */
  lemma {:induction false} StripCharsExact(pre: string, r: string, post: string, cs: set<char>)
    requires AllIn(pre, cs) && AllIn(post, cs)
    requires r != [] && r[0] !in cs && r[|r| - 1] !in cs
    ensures StripChars(pre + r + post, cs) == r
  {
    assert pre + r + post == pre + (r + post);
    LStripExact(pre, r + post, cs);
    RStripExact(r, post, cs);
  }

  lemma {:induction false} LStripExact(pre: string, rest: string, cs: set<char>)
    requires AllIn(pre, cs) && (rest == [] || rest[0] !in cs)
    ensures LStrip(pre + rest, cs) == rest
    decreases |pre|
  {
    if pre != [] {
      assert (pre + rest)[1..] == pre[1..] + rest;
      LStripExact(pre[1..], rest, cs);
    }
  }

  lemma {:induction false} RStripExact(r: string, post: string, cs: set<char>)
    requires AllIn(post, cs) && (r == [] || r[|r| - 1] !in cs)
    ensures RStrip(r + post, cs) == r
    decreases |post|
  {
    if post == [] {
      assert r + post == r;
    } else {
      var s := r + post;
      assert s[..|s| - 1] == r + post[..|post| - 1];
      RStripExact(r, post[..|post| - 1], cs);
    }
  }

  lemma AllInExcludes(s: string, cs: set<char>, c: char)
    requires AllIn(s, cs) && c !in cs
    ensures c !in s && multiset(s)[c] == 0
  {
    assert forall k :: 0 <= k < |s| ==> s[k] != c;
  }

  /** `strip(cs)` removes no character outside `cs`. */
  lemma StripCharsCount(s: string, cs: set<char>, c: char)
    requires c !in cs
    ensures multiset(StripChars(s, cs))[c] == multiset(s)[c]
  {
    StripCharsShape(s, cs);
    var pre, post :| s == pre + StripChars(s, cs) + post && AllIn(pre, cs) && AllIn(post, cs);
    AllInExcludes(pre, cs, c);
    AllInExcludes(post, cs, c);
    assert multiset(s) == multiset(pre) + multiset(StripChars(s, cs)) + multiset(post);
  }

  /** Two strips in a row keep every character outside both sets. */
  lemma StripTwiceCount(s: string, cs1: set<char>, cs2: set<char>, c: char)
    requires c !in cs1 && c !in cs2
    ensures multiset(StripChars(StripChars(s, cs1), cs2))[c] == multiset(s)[c]
  {
    StripCharsCount(s, cs1, c);
    StripCharsCount(StripChars(s, cs1), cs2, c);
  }

  // ---------------------------------------------------------------------
  // split(sep) and its inverse, sep.join
  // ---------------------------------------------------------------------

  /** The index of the first `c` in `s`, or `|s|`. */
  function IndexOf(s: string, c: char): (i: nat)
    ensures i <= |s| && c !in s[..i]
    ensures i < |s| ==> s[i] == c
  {
    if s == [] then 0
    else if s[0] == c then 0
    else
      var i := 1 + IndexOf(s[1..], c);
      assert s[..i] == [s[0]] + s[1..][..i - 1];
      i
  }

  /** `s.split(c)` for a one-character separator: the pieces between the
      occurrences of `c`; there is always at least one piece. */
  function Split(s: string, c: char): (parts: seq<string>)
    ensures |parts| >= 1
    decreases |s|
  {
    var i := IndexOf(s, c);
    if i == |s| then [s] else [s[..i]] + Split(s[i + 1..], c)
  }

  /** No piece of `s.split(c)` contains `c`. */
  lemma {:induction false} SplitPieces(s: string, c: char)
    ensures forall k :: 0 <= k < |Split(s, c)| ==> c !in Split(s, c)[k]
    decreases |s|
  {
    var i := IndexOf(s, c);
    if i < |s| {
      SplitPieces(s[i + 1..], c);
      assert Split(s, c) == [s[..i]] + Split(s[i + 1..], c);
    }
  }

  /** `c.join(parts)`. */
  function Join(parts: seq<string>, c: char): string
    requires |parts| >= 1
  {
    if |parts| == 1 then parts[0] else parts[0] + [c] + Join(parts[1..], c)
  }

  /** Joining the pieces of a split gives back the original string. */
  lemma {:induction false} JoinSplit(s: string, c: char)
    ensures Join(Split(s, c), c) == s
    decreases |s|
  {
    var i := IndexOf(s, c);
    if i < |s| {
      var rest := Split(s[i + 1..], c);
      assert Split(s, c) == [s[..i]] + rest;
      JoinCons(s[..i], rest, c);
      JoinSplit(s[i + 1..], c);
      assert s == s[..i] + [c] + s[i + 1..];
    }
  }

  /** Joining one more piece in front. */
  lemma JoinCons(p: string, rest: seq<string>, c: char)
    requires |rest| >= 1
    ensures Join([p] + rest, c) == p + [c] + Join(rest, c)
  {
    assert ([p] + rest)[1..] == rest;
  }

  /** Splitting a join of separator-free pieces gives back the pieces. */
  lemma {:induction false} SplitJoin(parts: seq<string>, c: char)
    requires |parts| >= 1
    requires forall k :: 0 <= k < |parts| ==> c !in parts[k]
    ensures Split(Join(parts, c), c) == parts
    decreases |parts|
  {
    var s := Join(parts, c);
    if |parts| == 1 {
      IndexOfAbsent(s, c);
    } else {
      var rest := Join(parts[1..], c);
      assert s == parts[0] + [c] + rest;
      IndexOfAbsent(parts[0], c);
      IndexOfAfter(parts[0], rest, c);
      assert s[..|parts[0]|] == parts[0];
      assert s[|parts[0]| + 1..] == rest;
      SplitJoin(parts[1..], c);
    }
  }

  lemma IndexOfAbsent(s: string, c: char)
    requires c !in s
    ensures IndexOf(s, c) == |s|
  {
  }

  lemma IndexOfAfter(a: string, b: string, c: char)
    requires c !in a
    ensures IndexOf(a + [c] + b, c) == |a|
  {
    var s := a + [c] + b;
    assert s[..|a|] == a && s[|a|] == c;
  }

  /** `s.split(c)` has one piece more than `s` has occurrences of `c`. */
  lemma {:induction false} SplitCount(s: string, c: char)
    ensures |Split(s, c)| == multiset(s)[c] + 1
    decreases |s|
  {
    var i := IndexOf(s, c);
    if i == |s| {
      assert s == s[..i];
      AbsentCount(s, c);
    } else {
      SplitCount(s[i + 1..], c);
      SplitCountStep(s, c, i);
    }
  }

  lemma {:induction false} SplitCountStep(s: string, c: char, i: nat)
    requires i == IndexOf(s, c) < |s|
    requires |Split(s[i + 1..], c)| == multiset(s[i + 1..])[c] + 1
    ensures |Split(s, c)| == multiset(s)[c] + 1
  {
    SplitStep(s, c, i);
    ThreeParts(s, i, i + 1);
    assert s[i..i + 1] == [c];
    CountAround(s[..i], c, s[i + 1..]);
  }

  lemma SplitStep(s: string, c: char, i: nat)
    requires i == IndexOf(s, c) < |s|
    ensures |Split(s, c)| == 1 + |Split(s[i + 1..], c)|
  {
    assert Split(s, c) == [s[..i]] + Split(s[i + 1..], c);
  }

  lemma CountAround(pre: string, c: char, post: string)
    requires c !in pre
    ensures multiset(pre + [c] + post)[c] == multiset(post)[c] + 1
  {
    AbsentCount(pre, c);
    assert multiset(pre + [c] + post) == multiset(pre) + multiset{c} + multiset(post);
  }

  lemma AbsentCount(s: string, c: char)
    requires c !in s
    ensures multiset(s)[c] == 0
  {
  }

  // ---------------------------------------------------------------------
  // split() on whitespace
  // ---------------------------------------------------------------------

  /** `s.split()`: the maximal runs of non-whitespace characters, in order. */
  function Tokens(s: string): (ts: seq<string>)
    ensures forall k :: 0 <= k < |ts| ==> ts[k] != [] && NoneIn(ts[k], Whitespace)
    decreases |s|
  {
    var i := Skip(s, 0, Whitespace, true);
    if i == |s| then []
    else
      var j := Skip(s, i, Whitespace, false);
      [s[i..j]] + Tokens(s[j..])
  }

  /** `s.split()` is empty exactly when `s` is all whitespace; otherwise its
      first token is what follows the leading whitespace, up to the next
      whitespace character or the end. */
  lemma FirstToken(s: string)
    ensures Tokens(s) == [] <==> AllIn(s, Whitespace)
    ensures Tokens(s) != [] ==>
      exists lead, rest :: s == lead + Tokens(s)[0] + rest && AllIn(lead, Whitespace)
        && (rest == [] || rest[0] in Whitespace)
  {
    var i := Skip(s, 0, Whitespace, true);
    SkipPrefix(s, Whitespace);
    if i < |s| {
      var j := Skip(s, i, Whitespace, false);
      assert Tokens(s)[0] == s[i..j];
      ThreeParts(s, i, j);
      assert s[j..] == [] || s[j..][0] in Whitespace;
    }
  }

  /** The leading run of `cs` is all of `s` exactly when `s` is drawn from
      `cs`. */
  lemma SkipPrefix(s: string, cs: set<char>)
    ensures AllIn(s[..Skip(s, 0, cs, true)], cs)
    ensures Skip(s, 0, cs, true) == |s| <==> AllIn(s, cs)
  {
  }

  lemma ThreeParts(s: string, i: nat, j: nat)
    requires i <= j <= |s|
    ensures s == s[..i] + s[i..j] + s[j..]
  {
  }

  // ---------------------------------------------------------------------
  // upper() and replace()
  // ---------------------------------------------------------------------

  /** Upper case of one character, as `str.upper()` maps it: ASCII letters
      and U+017F (long s), whose upper case is `S`. */
  function UpperChar(c: char): char {
    if 'a' <= c <= 'z' then (c as int - 32) as char
    else if c == '\U{017F}' then 'S'
    else c
  }

  function Upper(s: string): (r: string)
    ensures |r| == |s| && forall k :: 0 <= k < |s| ==> r[k] == UpperChar(s[k])
  {
    seq(|s|, k requires 0 <= k < |s| => UpperChar(s[k]))
  }

  /** `s.replace(c, repl)` for a one-character pattern: every occurrence of
      `c`, left to right, becomes `repl`. */
  function Replace(s: string, c: char, repl: string): string {
    if s == [] then []
    else (if s[0] == c then repl else [s[0]]) + Replace(s[1..], c, repl)
  }

  /** After the replacement `c` is gone unless `repl` brings it back, and a
      character in neither `s` nor `repl` is still absent. */
  lemma {:induction false} ReplaceAbsent(s: string, c: char, repl: string, d: char)
    requires c !in repl
    requires d == c || (d !in s && d !in repl)
    ensures d !in Replace(s, c, repl)
  {
    if s != [] {
      ReplaceAbsent(s[1..], c, repl, d);
    }
  }

  /** Replacing by one character keeps the length and changes exactly the
      positions that held `c`. */
  lemma {:induction false} ReplaceByChar(s: string, c: char, d: char)
    ensures |Replace(s, c, [d])| == |s|
    ensures forall k :: 0 <= k < |s| ==> Replace(s, c, [d])[k] == if s[k] == c then d else s[k]
  {
    if s != [] {
      ReplaceByChar(s[1..], c, d);
    }
  }
}
