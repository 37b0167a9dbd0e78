/**
 * `os.path.join` and `os.path.basename` for POSIX paths, over strings.
 */
module PyPath {

  import opened PyText

  /** `os.path.join(dir, name)` with two arguments: an absolute `name`
      replaces `dir`; otherwise a `/` is inserted unless `dir` is empty or
      already ends with one. */
  function PathJoin(dir: string, name: string): string {
    if name != [] && name[0] == '/' then name
    else if dir == [] || dir[|dir| - 1] == '/' then dir + name
    else dir + "/" + name
  }

  /** `os.path.basename(p)`: what follows the last `/`. */
  function Basename(p: string): string {
    var parts := Split(p, '/');
    parts[|parts| - 1]
  }

  lemma {:induction false} JoinAppend(parts: seq<string>, last: string, c: char)
    requires |parts| >= 1
    ensures Join(parts + [last], c) == Join(parts, c) + [c] + last
    decreases |parts|
  {
    if |parts| == 1 {
      assert (parts + [last])[1..] == [last];
    } else {
      assert (parts + [last])[1..] == parts[1..] + [last];
      JoinAppend(parts[1..], last, c);
    }
  }

  /** Splitting at a separator splits the text before it and the text after
      it on their own. */
  lemma {:induction false} SplitAfterSeparator(a: string, b: string, c: char)
    requires c !in b
    ensures Split(a + [c] + b, c) == Split(a, c) + [b]
  {
    var parts := Split(a, c);
    SplitPieces(a, c);
    JoinSplit(a, c);
    JoinAppend(parts, b, c);
    assert forall k :: 0 <= k < |parts + [b]| ==> c !in (parts + [b])[k];
    SplitJoin(parts + [b], c);
  }

  /** A name without `/` is the basename of the path it is joined into. */
  lemma {:induction false} BasenameOfJoin(dir: string, name: string)
    requires '/' !in name
    ensures Basename(PathJoin(dir, name)) == name
  {
    assert name == [] || name[0] != '/';
    if dir == [] {
      assert PathJoin(dir, name) == name;
      BasenameNoSlash(name);
    } else if dir[|dir| - 1] == '/' {
      var d := dir[..|dir| - 1];
      assert PathJoin(dir, name) == d + ['/'] + name;
      BasenameAfterSlash(d, name);
    } else {
      assert PathJoin(dir, name) == dir + ['/'] + name;
      BasenameAfterSlash(dir, name);
    }
  }

  lemma BasenameNoSlash(name: string)
    requires '/' !in name
    ensures Basename(name) == name
  {
    IndexOfAbsent(name, '/');
  }

  lemma BasenameAfterSlash(d: string, name: string)
    requires '/' !in name
    ensures Basename(d + ['/'] + name) == name
  {
    SplitAfterSeparator(d, name, '/');
  }

  /** Relative names are joined onto the same directory without collisions:
      the path determines the name. */
  lemma PathJoinInjective(dir: string, name1: string, name2: string)
    requires name1 == [] || name1[0] != '/'
    requires name2 == [] || name2[0] != '/'
    requires PathJoin(dir, name1) == PathJoin(dir, name2)
    ensures name1 == name2
  {
    var p1, p2 := PathJoin(dir, name1), PathJoin(dir, name2);
    var sep := if dir == [] || dir[|dir| - 1] == '/' then "" else "/";
    assert p1 == (dir + sep) + name1 && p2 == (dir + sep) + name2;
    assert name1 == p1[|dir + sep|..] && name2 == p2[|dir + sep|..];
  }

  /** A relative name lands inside the directory: the path starts with it. */
  lemma PathJoinPrefix(dir: string, name: string)
    requires name == [] || name[0] != '/'
    ensures |dir| <= |PathJoin(dir, name)| && PathJoin(dir, name)[..|dir|] == dir
  {
    var sep := if dir == [] || dir[|dir| - 1] == '/' then "" else "/";
    assert PathJoin(dir, name) == dir + (sep + name);
  }

  /** An absolute name discards the directory. */
  lemma PathJoinAbsolute(dir: string, name: string)
    requires name != [] && name[0] == '/'
    ensures PathJoin(dir, name) == name
  {
  }
}
