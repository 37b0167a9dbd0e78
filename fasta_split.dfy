/**
 * The per-record loop that split_fasta.py and split_fasta_keepheaders.py
 * share: every record is named, written to its own file in mode "w" and
 * counted, until a record cannot be named and the run stops.
 */
module FastaSplit {

  import opened Wrappers
  import opened FastaNaming

  /** A parsed FASTA record: its id and its sequence text. */
  datatype Record = Record(id: string, sequence: string)

  /** One overwrite-mode write of `text` to `path`. */
  datatype Write = Write(path: string, text: string)

  /** How the loop ended: after every record, or at the record whose name
      could not be derived (the exception that ends the run). */
  datatype Outcome = Completed | Aborted(failedAt: nat)

  /** The files of the output directory, by path. */
  class FileStore {
    var files: map<string, string>

    constructor(initial: map<string, string>)
      ensures files == initial
    {
      files := initial;
    }

    /** `open(path, "w").write(text)`: the file is created or replaced. */
    method WriteText(path: string, text: string)
      modifies this
      ensures files == old(files)[path := text]
    {
      files := files[path := text];
    }
  }

  // ---------------------------------------------------------------------
  // What the loop does, as functions of its input
  // ---------------------------------------------------------------------

  /** How many records are processed: those before the first one whose name
      cannot be derived. */
  function ProcessedCount(records: seq<Record>, dir: string): (n: nat)
    ensures n <= |records|
    ensures forall k :: 0 <= k < n ==> OutputFilename(dir, records[k].id).Some?
    ensures n < |records| ==> OutputFilename(dir, records[n].id).None?
  {
    ProcessedFrom(records, dir, 0)
  }

  /** The index of the first record at or after `i` whose name cannot be
      derived, or `|records|`. */
  function ProcessedFrom(records: seq<Record>, dir: string, i: nat): (n: nat)
    requires i <= |records|
    ensures i <= n <= |records|
    ensures forall k :: i <= k < n ==> OutputFilename(dir, records[k].id).Some?
    ensures n < |records| ==> OutputFilename(dir, records[n].id).None?
    decreases |records| - i
  {
    if i == |records| || OutputFilename(dir, records[i].id).None? then i
    else ProcessedFrom(records, dir, i + 1)
  }

  /** The writes of the first `n` processed records, in order. */
  function WritesOf(records: seq<Record>, dir: string, content: Record -> string, n: nat): seq<Write>
    requires n <= ProcessedCount(records, dir)
  {
    seq(n, k requires 0 <= k < n => Write(OutputFilename(dir, records[k].id).value, content(records[k])))
  }

  /** One write per processed record. */
  function Plan(records: seq<Record>, dir: string, content: Record -> string): seq<Write> {
    WritesOf(records, dir, content, ProcessedCount(records, dir))
  }

  /** The files after a sequence of overwrites. */
  function ApplyWrites(fs: map<string, string>, ws: seq<Write>): map<string, string> {
    if ws == [] then fs
    else
      var w := ws[|ws| - 1];
      ApplyWrites(fs, ws[..|ws| - 1])[w.path := w.text]
  }

  /** The text of the last write to `p`, if any. */
  function LastWriteTo(ws: seq<Write>, p: string): Option<string> {
    if ws == [] then None
    else if ws[|ws| - 1].path == p then Some(ws[|ws| - 1].text)
    else LastWriteTo(ws[..|ws| - 1], p)
  }

  /** Write `k` goes to `p` and no later write does. */
  predicate IsLastWrite(ws: seq<Write>, k: nat, p: string) {
    k < |ws| && ws[k].path == p && forall j :: k < j < |ws| ==> ws[j].path != p
  }

  function WrittenPaths(ws: seq<Write>): set<string> {
    set k | 0 <= k < |ws| :: ws[k].path
  }

  // ---------------------------------------------------------------------
  // Properties of the writes
  // ---------------------------------------------------------------------

  lemma WrittenPathsLast(ws: seq<Write>)
    requires ws != []
    ensures WrittenPaths(ws) == WrittenPaths(ws[..|ws| - 1]) + {ws[|ws| - 1].path}
  {
    var init := ws[..|ws| - 1];
    assert forall k :: 0 <= k < |init| ==> init[k] == ws[k];
  }

  /** Overwrites: a path holds the text of its last write, or what it held
      before when nothing wrote it; the paths are the old ones and the
      written ones. */
  lemma {:induction false} ApplyWritesAt(fs: map<string, string>, ws: seq<Write>, p: string)
    ensures p in ApplyWrites(fs, ws) <==> p in fs || p in WrittenPaths(ws)
    ensures LastWriteTo(ws, p).None? <==> p !in WrittenPaths(ws)
    ensures p in ApplyWrites(fs, ws) ==>
      ApplyWrites(fs, ws)[p] == match LastWriteTo(ws, p) case Some(t) => t case None => fs[p]
    decreases |ws|
  {
    if ws != [] {
      ApplyWritesAt(fs, ws[..|ws| - 1], p);
      WrittenPathsLast(ws);
    }
  }

  /** The last write to a path is the write no later write to it follows. */
  lemma {:induction false} LastWriteToAt(ws: seq<Write>, k: nat, p: string)
    requires IsLastWrite(ws, k, p)
    ensures LastWriteTo(ws, p) == Some(ws[k].text)
    decreases |ws|
  {
    if k < |ws| - 1 {
      var init := ws[..|ws| - 1];
      assert init[k] == ws[k];
      LastWriteToAt(init, k, p);
    }
  }

  /** Every last write is some write that no later write to the same path
      follows. */
  lemma {:induction false} LastWriteToIsLast(ws: seq<Write>, p: string)
    requires LastWriteTo(ws, p).Some?
    ensures exists k: nat :: IsLastWrite(ws, k, p) && ws[k].text == LastWriteTo(ws, p).value
    decreases |ws|
  {
    var last := |ws| - 1;
    if ws[last].path == p {
      assert IsLastWrite(ws, last, p);
    } else {
      var init := ws[..last];
      LastWriteToIsLast(init, p);
      var k: nat :| IsLastWrite(init, k, p) && init[k].text == LastWriteTo(init, p).value;
      assert ws[k] == init[k];
      forall j | k < j < |ws|
        ensures ws[j].path != p
      {
        if j < last {
          assert ws[j] == init[j];
        }
      }
      assert IsLastWrite(ws, k, p);
    }
  }

  /** There are no more files written than writes. */
  lemma {:induction false} WrittenPathsBound(ws: seq<Write>)
    ensures |WrittenPaths(ws)| <= |ws|
    decreases |ws|
  {
    if ws != [] {
      WrittenPathsLast(ws);
      WrittenPathsBound(ws[..|ws| - 1]);
    }
  }

  // ---------------------------------------------------------------------
  // Properties of a run
  // ---------------------------------------------------------------------

  /** The run writes exactly the output paths of the processed records, and
      at most as many files as it processes records. */
  lemma {:induction false} RunWrites(records: seq<Record>, dir: string, content: Record -> string)
    ensures |Plan(records, dir, content)| == ProcessedCount(records, dir)
    ensures WrittenPaths(Plan(records, dir, content))
      == set k | 0 <= k < ProcessedCount(records, dir) :: OutputFilename(dir, records[k].id).value
    ensures |WrittenPaths(Plan(records, dir, content))| <= ProcessedCount(records, dir)
  {
    var n := ProcessedCount(records, dir);
    var ws := Plan(records, dir, content);
    assert |ws| == n;
    assert forall k :: 0 <= k < n ==> ws[k].path == OutputFilename(dir, records[k].id).value;
    WrittenPathsBound(ws);
  }

  /** The paths written do not depend on what is written to them. */
  lemma {:induction false} RunPathsIgnoreContent(records: seq<Record>, dir: string, c1: Record -> string, c2: Record -> string)
    ensures WrittenPaths(Plan(records, dir, c1)) == WrittenPaths(Plan(records, dir, c2))
  {
    RunWrites(records, dir, c1);
    RunWrites(records, dir, c2);
  }

  /** Record `k` is processed, its output path is `p`, and no later
      processed record has that path. */
  predicate LastRecordTo(records: seq<Record>, dir: string, k: nat, p: string) {
    && k < ProcessedCount(records, dir)
    && OutputFilename(dir, records[k].id) == Some(p)
    && forall j :: k < j < ProcessedCount(records, dir) ==> OutputFilename(dir, records[j].id) != Some(p)
  }

  lemma {:induction false} LastRecordIsLastWrite(records: seq<Record>, dir: string, content: Record -> string, k: nat, p: string)
    ensures LastRecordTo(records, dir, k, p) <==> IsLastWrite(Plan(records, dir, content), k, p)
  {
    var ws := Plan(records, dir, content);
    var n := ProcessedCount(records, dir);
    assert |ws| == n;
    assert forall j :: 0 <= j < n ==> ws[j].path == OutputFilename(dir, records[j].id).value;
  }

  /** Last writer wins: a processed record that no later processed record
      shares its output path with leaves its content in that file. */
  lemma {:induction false} LastWriterWins(fs: map<string, string>, records: seq<Record>, dir: string, content: Record -> string, k: nat, p: string)
    requires LastRecordTo(records, dir, k, p)
    ensures p in ApplyWrites(fs, Plan(records, dir, content))
    ensures ApplyWrites(fs, Plan(records, dir, content))[p] == content(records[k])
  {
    var ws := Plan(records, dir, content);
    LastRecordIsLastWrite(records, dir, content, k, p);
    LastWriteToAt(ws, k, p);
    ApplyWritesAt(fs, ws, p);
  }

  /** Every written file holds the content of the last processed record
      with that output path. */
  lemma {:induction false} RunFilesWritten(fs: map<string, string>, records: seq<Record>, dir: string, content: Record -> string, p: string)
    requires p in WrittenPaths(Plan(records, dir, content))
    ensures exists k: nat :: (
      && LastRecordTo(records, dir, k, p)
      && p in ApplyWrites(fs, Plan(records, dir, content))
      && ApplyWrites(fs, Plan(records, dir, content))[p] == content(records[k]))
  {
    var ws := Plan(records, dir, content);
    ApplyWritesAt(fs, ws, p);
    LastWriteToIsLast(ws, p);
    var k: nat :| IsLastWrite(ws, k, p) && ws[k].text == LastWriteTo(ws, p).value;
    LastRecordIsLastWrite(records, dir, content, k, p);
    assert ws[k].text == content(records[k]);
  }

  /** A file that no processed record names is as it was. */
  lemma {:induction false} RunFilesUntouched(fs: map<string, string>, records: seq<Record>, dir: string, content: Record -> string, p: string)
    requires p !in WrittenPaths(Plan(records, dir, content))
    ensures p in ApplyWrites(fs, Plan(records, dir, content)) <==> p in fs
    ensures p in fs ==> ApplyWrites(fs, Plan(records, dir, content))[p] == fs[p]
  {
    ApplyWritesAt(fs, Plan(records, dir, content), p);
  }

  /** Two records with the same id leave a single file, holding the second
      record's content. */
  lemma {:induction false} DuplicateIds(fs: map<string, string>, r1: Record, r2: Record, dir: string, content: Record -> string)
    requires r1.id == r2.id && AccessionName(r1.id).Some?
    ensures ProcessedCount([r1, r2], dir) == 2
    ensures WrittenPaths(Plan([r1, r2], dir, content)) == {OutputFilename(dir, r1.id).value}
    ensures ApplyWrites(fs, Plan([r1, r2], dir, content)) == fs[OutputFilename(dir, r1.id).value := content(r2)]
  {
    var records := [r1, r2];
    assert records[1..] == [r2] && [r2][1..] == [];
    var ws := Plan(records, dir, content);
    var p := OutputFilename(dir, r1.id).value;
    assert ws == [Write(p, content(r1)), Write(p, content(r2))];
    assert ws[..1] == [Write(p, content(r1))] && ws[..1][..0] == [];
    WrittenPathsLast(ws);
    WrittenPathsLast(ws[..1]);
    assert ApplyWrites(fs, ws[..1]) == fs[p := content(r1)];
    assert ApplyWrites(fs, ws) == fs[p := content(r1)][p := content(r2)];
  }

  // ---------------------------------------------------------------------
  // The loop
  // ---------------------------------------------------------------------

  lemma WritesOfNext(records: seq<Record>, dir: string, content: Record -> string, n: nat)
    requires n < ProcessedCount(records, dir)
    ensures WritesOf(records, dir, content, n + 1)
      == WritesOf(records, dir, content, n) + [Write(OutputFilename(dir, records[n].id).value, content(records[n]))]
  {
  }

  lemma ApplyWritesNext(fs: map<string, string>, ws: seq<Write>, w: Write)
    ensures ApplyWrites(fs, ws + [w]) == ApplyWrites(fs, ws)[w.path := w.text]
  {
    assert (ws + [w])[..|ws|] == ws;
  }

  /** Lines 20-39 of both scripts: for each record in order, derive the
      output path, overwrite that file with the record's content and count
      the record; a record whose name cannot be derived ends the run. */
  method ProcessRecords(store: FileStore, records: seq<Record>, dir: string, content: Record -> string)
    returns (count: nat, outcome: Outcome)
    modifies store
    ensures count == ProcessedCount(records, dir)
    ensures outcome == if count == |records| then Completed else Aborted(count)
    ensures store.files == ApplyWrites(old(store.files), Plan(records, dir, content))
  {
    count := 0;
    outcome := Completed;
    var i := 0;
    while i < |records|
      invariant i <= |records| && count == i
      invariant forall k :: 0 <= k < i ==> OutputFilename(dir, records[k].id).Some?
      invariant i <= ProcessedCount(records, dir)
      invariant store.files == ApplyWrites(old(store.files), WritesOf(records, dir, content, i))
      invariant outcome == Completed
    {
      var path := OutputFilename(dir, records[i].id);
      if path.None? {
        outcome := Aborted(i);
        break;
      }
      WritesOfNext(records, dir, content, i);
      ApplyWritesNext(old(store.files), WritesOf(records, dir, content, i), Write(path.value, content(records[i])));
      store.WriteText(path.value, content(records[i]));
      count := count + 1;
      i := i + 1;
    }
  }
}
