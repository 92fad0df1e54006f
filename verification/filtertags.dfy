/** Filtering tagger matches to given documents (`filtertags.py`).

    A line of the matches file is copied to the output, byte for byte and
    in input order, when the field before its first TAB is one of the
    given document ids. A line without TAB is its own id, newline
    included. A summary of lines written over lines read follows.
 */
module TagFilter {
  import opened Wrappers
  import opened PyStrings
  import opened Seqs

  /** `line.split('\t')[0]`. */
  function TagId(line: string): string {
    Split(line, '\t')[0]
  }

  /** The id is the text up to the first TAB, or the whole line. */
  lemma TagIdPrefix(line: string)
    ensures |TagId(line)| <= |line| && line[..|TagId(line)|] == TagId(line)
    ensures '\t' !in TagId(line)
    ensures |TagId(line)| < |line| ==> line[|TagId(line)|] == '\t'
    ensures '\t' !in line ==> TagId(line) == line
  {
    var f := Split(line, '\t');
    if |f| == 1 {
      assert line == f[0];
    } else {
      assert line == f[0] + ['\t'] + Join(f[1..], '\t');
    }
  }

  /** Whether a line goes to the output. */
  function Selected(ids: set<string>): string -> bool {
    (line: string) => TagId(line) in ids
  }

  /** The loop of `filter_tags`: the lines written, how many were
      written, and how many were read. The lines written are the selected
      lines, unchanged and in their order. */
  method FilterTags(lines: seq<string>, ids: set<string>) returns (out: seq<string>, outCount: nat, read: nat)
    ensures out == Filter(lines, Selected(ids))
    ensures outCount == |out| && read == |lines| && outCount <= read
    ensures forall line :: line in out <==> line in lines && TagId(line) in ids
  {
    out := [];
    outCount := 0;
    read := 0;
    for i := 0 to |lines|
      invariant out == Filter(lines[..i], Selected(ids))
      invariant outCount == |out| <= i && read == i
    {
      FilterStep(lines, i, ids);
      if TagId(lines[i]) in ids {
        out := out + [lines[i]];
        outCount := outCount + 1;
      }
      read := i + 1;
    }
    assert lines[..|lines|] == lines;
  }

  lemma FilterStep(lines: seq<string>, i: nat, ids: set<string>)
    requires i < |lines|
    ensures Filter(lines[..i + 1], Selected(ids))
         == Filter(lines[..i], Selected(ids)) + (if TagId(lines[i]) in ids then [lines[i]] else [])
  {
    FilterSnoc(lines[..i], lines[i], Selected(ids));
    assert lines[..i + 1] == lines[..i] + [lines[i]];
  }

  /** The output keeps the input order: it is a subsequence of the input. */
  lemma FilterTagsInOrder(lines: seq<string>, ids: set<string>)
    ensures IsSubseq(Filter(lines, Selected(ids)), lines)
  {
    FilterIsSubseq(lines, Selected(ids));
  }

  /** A line naming no listed id is never written, and a line whose id is
      listed is always written. */
  lemma FilterTagsLine(lines: seq<string>, ids: set<string>, i: nat)
    requires i < |lines|
    ensures lines[i] in Filter(lines, Selected(ids)) <==> TagId(lines[i]) in ids
  {
  }

  // ---------------------------------------------------------------------
  // The summary printed after the loop

  /** `out_count/ln` as written: `ln` is bound only by the loop, so an
      empty input makes the summary raise. */
  function SummaryAsWritten(outCount: nat, read: nat): (r: Result<real>)
    requires outCount <= read
    ensures r.Failure? <==> read == 0
    ensures r.Failure? ==> r.error == UnboundLocalError
  {
    if read == 0 then Failure(UnboundLocalError) else Success(outCount as real / read as real)
  }

  /** Filtering an empty matches file ends in `UnboundLocalError`. */
  lemma SummaryAsWrittenEmpty()
    ensures SummaryAsWritten(|Filter([], Selected({}))|, 0) == Failure(UnboundLocalError)
  {
  }

  /** The share of lines written, defined for a non-empty input. */
  function Summary(outCount: nat, read: nat): (r: Option<real>)
    requires outCount <= read
    ensures r.None? <==> read == 0
    ensures r.Some? ==> 0.0 <= r.value <= 1.0
    ensures r.Some? ==> (r.value == 1.0 <==> outCount == read)
  {
    if read == 0 then None else Some(outCount as real / read as real)
  }

  /** Where the summary as written is defined, it is the share. */
  lemma SummaryAgrees(outCount: nat, read: nat)
    requires outCount <= read && read > 0
    ensures SummaryAsWritten(outCount, read) == Success(Summary(outCount, read).value)
  {
  }
}
