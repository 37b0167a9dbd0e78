/**
 * split_fasta.py: one file per record, named after its accession, holding
 * only the sequence text (no header line).
 */
module SplitFasta {

  import opened FastaSplit

  /** `str(record.seq)`: the content written for a record. */
  function SequenceText(r: Record): string {
    r.sequence
  }

  /** `split_and_process_fasta` after the input file is parsed: the records
      are processed in order into `store`. */
  method SplitAndProcess(store: FileStore, records: seq<Record>, dir: string)
    returns (count: nat, outcome: Outcome)
    modifies store
    ensures count == ProcessedCount(records, dir)
    ensures outcome == if count == |records| then Completed else Aborted(count)
    ensures store.files == ApplyWrites(old(store.files), Plan(records, dir, SequenceText))
  {
    count, outcome := ProcessRecords(store, records, dir, SequenceText);
  }

  /** Every file the run writes holds exactly the sequence of the last
      processed record named after it, with no header. */
  lemma {:induction false} FilesHoldSequences(fs: map<string, string>, records: seq<Record>, dir: string, p: string)
    requires p in WrittenPaths(Plan(records, dir, SequenceText))
    ensures exists k: nat :: (
      && LastRecordTo(records, dir, k, p)
      && p in ApplyWrites(fs, Plan(records, dir, SequenceText))
      && ApplyWrites(fs, Plan(records, dir, SequenceText))[p] == records[k].sequence)
  {
    RunFilesWritten(fs, records, dir, SequenceText, p);
  }
}
