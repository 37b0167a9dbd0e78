/**
 * split_fasta_keepheaders.py: the same naming and loop as split_fasta.py,
 * but each file holds the whole record as `SeqIO.write` renders it in FASTA
 * format; that rendering is the parameter `render`.
 */
module SplitFastaKeepHeaders {

  import opened FastaSplit
  import SplitFasta

  /** `split_and_process_fasta` after the input file is parsed, writing
      `render(record)` for each processed record. */
  method SplitAndProcess(store: FileStore, records: seq<Record>, dir: string, render: Record -> string)
    returns (count: nat, outcome: Outcome)
    modifies store
    ensures count == ProcessedCount(records, dir)
    ensures outcome == if count == |records| then Completed else Aborted(count)
    ensures store.files == ApplyWrites(old(store.files), Plan(records, dir, render))
  {
    count, outcome := ProcessRecords(store, records, dir, render);
  }

  /** Every file the run writes holds the rendering of the last processed
      record named after it. */
  lemma {:induction false} FilesHoldRecords(fs: map<string, string>, records: seq<Record>, dir: string, render: Record -> string, p: string)
    requires p in WrittenPaths(Plan(records, dir, render))
    ensures exists k: nat :: (
      && LastRecordTo(records, dir, k, p)
      && p in ApplyWrites(fs, Plan(records, dir, render))
      && ApplyWrites(fs, Plan(records, dir, render))[p] == render(records[k]))
  {
    RunFilesWritten(fs, records, dir, render, p);
  }

  /** Both scripts name files alike: on the same records and directory they
      process the same records and write the same set of files. */
  lemma {:induction false} SameFilesAsSplitFasta(records: seq<Record>, dir: string, render: Record -> string)
    ensures WrittenPaths(Plan(records, dir, render)) == WrittenPaths(Plan(records, dir, SplitFasta.SequenceText))
    ensures |Plan(records, dir, render)| == |Plan(records, dir, SplitFasta.SequenceText)|
  {
    RunPathsIgnoreContent(records, dir, render, SplitFasta.SequenceText);
    RunWrites(records, dir, render);
    RunWrites(records, dir, SplitFasta.SequenceText);
  }
}
