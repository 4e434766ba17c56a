/**
 * `filter_cleaveland_output` of filter-cleaveland-results.py: parse, filter, write, and
 * return how many records were written.  A malformed number raises before the output
 * file is opened, so a failure produces no output.
 */
module CleavelandPipeline {
  import opened Wrappers
  import opened Text
  import opened Seqs
  import opened CleavelandParse
  import opened CleavelandFilter
  import opened CleavelandWrite

  /** The record count returned and the lines written. */
  datatype Outcome = Outcome(count: nat, written: seq<string>)

  /** What the three steps compute, one after the other. */
  function Pipeline(lines: seq<string>, toReal: string -> Option<real>, showReal: real -> string,
                    t: Thresholds): Result<Outcome, ParseError>
  {
    match Parse(lines, toReal)
    case Failure(e) => Failure(e)
    case Success(records) =>
      var kept := Filtered(records, t);
      Success(Outcome(|kept|, Render(kept, showReal)))
  }

  method FilterCleavelandOutput(lines: seq<string>, toReal: string -> Option<real>,
                                showReal: real -> string, t: Thresholds)
    returns (result: Result<Outcome, ParseError>)
    ensures result == Pipeline(lines, toReal, showReal, t)
  {
    var parsed := ParseCleavelandOutput(lines, toReal);
    if parsed.Failure? {
      return Failure(parsed.error);
    }
    var filtered := FilterRecords(parsed.value, t);
    var written := WriteOutput(filtered, showReal);
    return Success(Outcome(|filtered|, written));
  }

  /** The pipeline fails exactly where the parser does, at a malformed number line; the
      count is never more than the number of records read, and every record written is
      one that was read and passes the thresholds, in input order. */
  lemma PipelineOutcome(lines: seq<string>, toReal: string -> Option<real>, showReal: real -> string,
                        t: Thresholds)
    ensures Pipeline(lines, toReal, showReal, t).Failure? <==> Parse(lines, toReal).Failure?
    ensures Pipeline(lines, toReal, showReal, t).Failure? ==>
      var k := Pipeline(lines, toReal, showReal, t).error.lineIndex;
      k < |lines| && MalformedAt(lines, toReal, k)
    ensures Pipeline(lines, toReal, showReal, t).Success? ==>
      var records := Parse(lines, toReal).value;
      var kept := Filtered(records, t);
      && Pipeline(lines, toReal, showReal, t).value == Outcome(|kept|, Render(kept, showReal))
      && |kept| <= |records|
      && IsSubsequence(kept, records)
      && (forall r :: r in kept <==> r in records && Passes(r, t))
  {
    ParseFailsOnlyAtMalformed(lines, toReal);
    if Parse(lines, toReal).Success? {
      var records := Parse(lines, toReal).value;
      FilteredSubsequence(records, t);
      SubsequenceMembers(Filtered(records, t), records);
      forall r ensures r in Filtered(records, t) <==> r in records && Passes(r, t) {
        FilteredMembers(records, t, r);
      }
    }
  }

  /** With no threshold set, every record read is written back. */
  lemma PipelineNoThresholds(lines: seq<string>, toReal: string -> Option<real>, showReal: real -> string)
    requires Parse(lines, toReal).Success?
    ensures var records := Parse(lines, toReal).value;
      Pipeline(lines, toReal, showReal, NoThresholds) == Success(Outcome(|records|, Render(records, showReal)))
  {
    FilteredNoThresholds(Parse(lines, toReal).value);
  }

  /** Every record written keeps its site id: its block sits in the output between the
      blocks of the records kept before and after it, and its first line reads back as
      the id the record was parsed with. */
  lemma PipelineWritesSiteIds(lines: seq<string>, toReal: string -> Option<real>, showReal: real -> string,
                              t: Thresholds, k: nat)
    requires Parse(lines, toReal).Success?
    requires k < |Filtered(Parse(lines, toReal).value, t)|
    ensures var kept := Filtered(Parse(lines, toReal).value, t);
      var block := RecordLines(kept[k], showReal);
      && Pipeline(lines, toReal, showReal, t).value.written
         == Render(kept[..k], showReal) + block + Render(kept[k + 1..], showReal)
      && (kept[k].siteId.Some? ==> Classify(Strip(block[0])) == SiteLine(kept[k].siteId.value))
  {
    var records := Parse(lines, toReal).value;
    var kept := Filtered(records, t);
    RenderBlockAt(kept, k, showReal);
    ParsedRecordsShape(lines, toReal);
    FilteredMembers(records, t, kept[k]);
    if kept[k].siteId.Some? {
      WrittenSiteIdReadsBack(kept[k], showReal);
    }
  }
}
