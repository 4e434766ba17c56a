/**
 * `write_output` of filter-cleaveland-results.py.  The file is modelled as its lines:
 * the text written is each line followed by a newline.  Python's `str()` of a float is
 * the parameter `showReal`.
 */
module CleavelandWrite {
  import opened Wrappers
  import opened Text
  import opened Numerals
  import opened CleavelandParse
  import opened Seqs

  /** `"-" * 50`. */
  const Dashes: string := "--------------------------------------------------"

  /** The value of a float field, or `N/A` when the record lacks it. */
  function ShowScore(x: Option<real>, showReal: real -> string): string
  {
    if x.Some? then showReal(x.value) else "N/A"
  }

  function ShowCategory(c: Option<Category>): string
  {
    match c
    case None => "N/A"
    case Some(Int(n)) => IntToString(n)
    case Some(Raw(text)) => text
  }

  /** The lines of the five header fields. */
  function HeadLines(r: Record, showReal: real -> string): seq<string>
  {
    [ "SiteID: " + (if r.siteId.Some? then r.siteId.value else "Unknown"),
      "MFE of perfect match: " + ShowScore(r.mfePerfect, showReal),
      "MFE of this site: " + ShowScore(r.mfeSite, showReal),
      "MFEratio: " + ShowScore(r.mfeRatio, showReal),
      "Allen et al. score: " + ShowScore(r.allenScore, showReal) ]
  }

  /** One region line: the region indented by four spaces. */
  function Indent(region: string): string
  {
    "    " + region
  }

  function Indented(regions: seq<string>): seq<string>
  {
    Map(regions, Indent)
  }

  /** A region block: its marker, then each region indented. */
  function RegionLines(b: Block, regions: Option<seq<string>>): seq<string>
  {
    [Marker(b)] + Indented(OrEmpty(regions))
  }

  /** The three degradome lines, then the T-Plot line when the record has one. */
  function DegradomeLines(r: Record, showReal: real -> string): seq<string>
  {
    [ "Degradome data file: " + (if r.degradomeFile.Some? then r.degradomeFile.value else "N/A"),
      "Degradome Category: " + ShowCategory(r.degradomeCategory),
      "Degradome p-value: " + ShowScore(r.degradomePValue, showReal) ]
    + (if r.tplotFile.Some? then ["T-Plot file: " + r.tplotFile.value] else [])
  }

  function PositionRow(p: Position): string
  {
    IntToString(p.position) + "\t" + IntToString(p.readCount) + "\t" + IntToString(p.category)
  }

  function PositionRows(ps: seq<Position>): seq<string>
  {
    Map(ps, PositionRow)
  }

  const PositionHeader: string := "Position\tReads\tCategory"

  /** The position table, written only when the record has at least one position. */
  function PositionLines(r: Record): seq<string>
  {
    if r.positions.Some? && r.positions.value != [] then
      ["", PositionHeader] + PositionRows(r.positions.value)
    else []
  }

  /** The blank line, the row of 50 dashes and the blank line that close a record. */
  const Separator: seq<string> := ["", Dashes, ""]

  function OrEmpty(regions: Option<seq<string>>): seq<string>
  {
    if regions.Some? then regions.value else []
  }

  /** All lines written for one record. */
  function RecordLines(r: Record, showReal: real -> string): seq<string>
  {
    HeadLines(r, showReal) + RegionLines(PairedBlock, r.pairedRegions) + RegionLines(UnpairedBlock, r.unpairedRegions)
    + DegradomeLines(r, showReal) + PositionLines(r) + Separator
  }

  /** All lines written for the records, one block after another. */
  function Render(rs: seq<Record>, showReal: real -> string): seq<string>
  {
    FlatMap(rs, RecordBlock(showReal))
  }

  function RecordBlock(showReal: real -> string): Record -> seq<string>
  {
    r => RecordLines(r, showReal)
  }

  /** A loop that writes one line `line(x)` for each `x` of `xs`: the region loops and the
      position loop of `write_output`. */
  method WriteEach<T>(before: seq<string>, xs: seq<T>, line: T -> string) returns (block: seq<string>)
    ensures block == before + Map(xs, line)
  {
    block := before;
    for j := 0 to |xs|
      invariant block == before + Map(xs[..j], line)
    {
      MapSnoc(xs[..j], xs[j], line);
      assert xs[..j + 1] == xs[..j] + [xs[j]];
      block := block + [line(xs[j])];
    }
    assert xs[..|xs|] == xs;
  }

  /** The writes for one record, in the order of `write_output`. */
  method WriteRecord(record: Record, showReal: real -> string) returns (block: seq<string>)
    ensures block == RecordLines(record, showReal)
  {
    var head := HeadLines(record, showReal);
    var paired := WriteEach([Marker(PairedBlock)], OrEmpty(record.pairedRegions), Indent);
    var unpaired := WriteEach([Marker(UnpairedBlock)], OrEmpty(record.unpairedRegions), Indent);
    block := head + paired + unpaired;
    block := block + DegradomeLines(record, showReal);
    if record.positions.Some? && record.positions.value != [] {
      block := WriteEach(block + ["", PositionHeader], record.positions.value, PositionRow);
    }
    block := block + Separator;
  }

  /** `write_output`: the blocks of the records in their order. */
  method WriteOutput(records: seq<Record>, showReal: real -> string) returns (out: seq<string>)
    ensures out == Render(records, showReal)
    ensures records == [] ==> out == []
  {
    out := [];
    for k := 0 to |records|
      invariant out == Render(records[..k], showReal)
    {
      var block := WriteRecord(records[k], showReal);
      FlatMapPrefix(records, k, RecordBlock(showReal));
      out := out + block;
    }
    assert records[..|records|] == records;
  }

  /** Writing two lists of records writes the blocks of the first and then those of the
      second. */
  lemma RenderAppend(a: seq<Record>, b: seq<Record>, showReal: real -> string)
    ensures Render(a + b, showReal) == Render(a, showReal) + Render(b, showReal)
  {
    FlatMapAppend(a, b, RecordBlock(showReal));
  }
  /** Each record of the list gives one block, between the blocks of the records before
      it and those of the records after it. */
  lemma RenderBlockAt(rs: seq<Record>, k: nat, showReal: real -> string)
    requires k < |rs|
    ensures Render(rs, showReal)
         == Render(rs[..k], showReal) + RecordLines(rs[k], showReal) + Render(rs[k + 1..], showReal)
  {
    assert rs == rs[..k] + [rs[k]] + rs[k + 1..];
    RenderAppend(rs[..k] + [rs[k]], rs[k + 1..], showReal);
    RenderAppend(rs[..k], [rs[k]], showReal);
    assert Render([rs[k]], showReal) == RecordLines(rs[k], showReal) by {
      assert [rs[k]][..0] == [];
    }
  }

  /** The head of a block: the site id, `Unknown` when absent, on its first line. */
  lemma RecordLinesHead(r: Record, showReal: real -> string)
    ensures RecordLines(r, showReal)[0] == "SiteID: " + (if r.siteId.Some? then r.siteId.value else "Unknown")
  {
  }

  /** The two region blocks of a record, after the five head lines: each header is always
      written, followed by the record's regions, each indented by four spaces. */
  lemma RecordLinesRegions(r: Record, showReal: real -> string)
    ensures var lines := RecordLines(r, showReal);
      var p, u := OrEmpty(r.pairedRegions), OrEmpty(r.unpairedRegions);
      && |lines| > 7 + |p| + |u|
      && lines[5] == "Paired Regions"
      && lines[6..6 + |p|] == Indented(p)
      && lines[6 + |p|] == "Unpaired Regions"
      && lines[7 + |p|..7 + |p| + |u|] == Indented(u)
  {
    var p, u := RegionLines(PairedBlock, r.pairedRegions), RegionLines(UnpairedBlock, r.unpairedRegions);
    RegionParts(RecordLines(r, showReal), HeadLines(r, showReal), p, u,
      DegradomeLines(r, showReal), PositionLines(r), Separator);
  }

  /** Where the second and third of six consecutive parts sit in their concatenation. */
  lemma RegionParts(lines: seq<string>, h: seq<string>, p: seq<string>, u: seq<string>,
                    d: seq<string>, t: seq<string>, s: seq<string>)
    requires lines == h + p + u + d + t + s && |p| >= 1 && |u| >= 1
    ensures |h| + |p| + |u| < |lines| + 1
    ensures lines[|h|] == p[0] && lines[|h| + 1..|h| + |p|] == p[1..]
    ensures lines[|h| + |p|] == u[0] && lines[|h| + |p| + 1..|h| + |p| + |u|] == u[1..]
  {
    assert forall i :: 0 <= i < |p| - 1 ==> lines[|h| + 1..|h| + |p|][i] == p[1..][i];
    assert forall i :: 0 <= i < |u| - 1 ==> lines[|h| + |p| + 1..|h| + |p| + |u|][i] == u[1..][i];
  }

  /** The index of the first degradome line of a record's block. */
  function DegradomeStart(r: Record): nat
  {
    7 + |OrEmpty(r.pairedRegions)| + |OrEmpty(r.unpairedRegions)|
  }

  /** How many lines a block has: the fixed head, regions and degradome lines, one line
      for a T-Plot file, a blank line, a header and one row per position when there is a
      position, and the three closing lines. */
  lemma RecordLinesLength(r: Record, showReal: real -> string)
    ensures |RecordLines(r, showReal)| == DegradomeStart(r) + 3
      + (if r.tplotFile.Some? then 1 else 0)
      + (if r.positions.Some? && r.positions.value != [] then 2 + |r.positions.value| else 0) + 3
  {
  }

  /** The three degradome lines, with `N/A` for an absent value, and then the T-Plot line
      exactly when the record has a T-Plot file. */
  lemma RecordLinesDegradome(r: Record, showReal: real -> string)
    ensures var lines, d := RecordLines(r, showReal), DegradomeStart(r);
      && d + 3 < |lines|
      && lines[d] == "Degradome data file: " + (if r.degradomeFile.Some? then r.degradomeFile.value else "N/A")
      && lines[d + 1] == "Degradome Category: " + ShowCategory(r.degradomeCategory)
      && lines[d + 2] == "Degradome p-value: " + ShowScore(r.degradomePValue, showReal)
      && (r.tplotFile.Some? ==> lines[d + 3] == "T-Plot file: " + r.tplotFile.value)
  {
  }

  /** Line `|a| + k` of `a + b + c` is line `k` of `b`. */
  lemma MiddleLine(a: seq<string>, b: seq<string>, c: seq<string>, k: nat)
    requires k < |b|
    ensures |a| + k < |a + b + c| && (a + b + c)[|a| + k] == b[k]
  {
  }

  /** The lines of a block before its position table. */
  function FrontLines(r: Record, showReal: real -> string): seq<string>
  {
    HeadLines(r, showReal) + RegionLines(PairedBlock, r.pairedRegions) + RegionLines(UnpairedBlock, r.unpairedRegions)
    + DegradomeLines(r, showReal)
  }

  /** The position table follows the degradome lines only for a record with at least one
      position: a blank line and the tab-separated header ... */
  lemma RecordLinesPositionHeader(r: Record, showReal: real -> string)
    requires r.positions.Some? && r.positions.value != []
    ensures var lines := RecordLines(r, showReal);
      var e := DegradomeStart(r) + 3 + (if r.tplotFile.Some? then 1 else 0);
      && e + 2 + |r.positions.value| < |lines|
      && lines[e] == "" && lines[e + 1] == "Position\tReads\tCategory"
  {
    var front, table := FrontLines(r, showReal), PositionLines(r);
    RecordLinesSplit(r, showReal);
    PositionTableHead(r);
    MiddleLine(front, table, Separator, 0);
    MiddleLine(front, table, Separator, 1);
  }

  /** ... then one row per position, in the order the record lists them. */
  lemma RecordLinesPositionRows(r: Record, showReal: real -> string)
    requires r.positions.Some? && r.positions.value != []
    ensures var lines := RecordLines(r, showReal);
      var e := DegradomeStart(r) + 3 + (if r.tplotFile.Some? then 1 else 0);
      var ps := r.positions.value;
      && e + 2 + |ps| < |lines|
      && lines[e + 2..e + 2 + |ps|] == PositionRows(ps)
  {
    RecordLinesSplit(r, showReal);
    PositionTableHead(r);
    TableSlice(RecordLines(r, showReal), FrontLines(r, showReal), PositionLines(r), Separator,
      PositionRows(r.positions.value));
  }

  lemma TableSlice(lines: seq<string>, a: seq<string>, b: seq<string>, c: seq<string>, rows: seq<string>)
    requires lines == a + b + c && |b| == 2 + |rows| && b[2..] == rows
    ensures |a| + 2 + |rows| < |lines| + 1 && lines[|a| + 2..|a| + 2 + |rows|] == rows
  {
    assert forall i :: 0 <= i < |rows| ==> lines[|a| + 2..|a| + 2 + |rows|][i] == b[2..][i];
  }

  lemma PositionTableHead(r: Record)
    requires r.positions.Some? && r.positions.value != []
    ensures var table := PositionLines(r);
      && |table| == 2 + |r.positions.value|
      && table[0] == "" && table[1] == PositionHeader
      && table[2..] == PositionRows(r.positions.value)
  {
    assert PositionLines(r) == ["", PositionHeader] + PositionRows(r.positions.value);
  }

  /** A block is the lines before the position table, the table, and the separator. */
  lemma RecordLinesSplit(r: Record, showReal: real -> string)
    ensures RecordLines(r, showReal) == FrontLines(r, showReal) + PositionLines(r) + Separator
    ensures |FrontLines(r, showReal)| == DegradomeStart(r) + 3 + (if r.tplotFile.Some? then 1 else 0)
  {
  }

  /** Every block ends with a blank line, 50 dashes and a blank line. */
  lemma RecordLinesSeparator(r: Record, showReal: real -> string)
    ensures var lines := RecordLines(r, showReal);
      && |lines| >= 3
      && lines[|lines| - 3] == "" && lines[|lines| - 2] == Dashes && lines[|lines| - 1] == ""
  {
    var body := FrontLines(r, showReal) + PositionLines(r);
    assert RecordLines(r, showReal) == body + Separator;
    MiddleLine(body, Separator, [], 0);
    MiddleLine(body, Separator, [], 1);
    MiddleLine(body, Separator, [], 2);
    assert body + Separator + [] == body + Separator;
  }

  /** Python's `str.split(pat)[1]` after a leading `pat` is everything up to a second
      `pat`: when there is none, it is the whole rest. */
  lemma BeforeAbsent(s: string, pat: string)
    requires pat != [] && !Contains(s, pat)
    ensures BeforeOccurrence(s, pat) == s
  {
    var r := BeforeOccurrence(s, pat);
    StartsWithSlice(s, r);
    assert s[..|r|] == s;
  }

  /** `strip()` of the written `SiteID:` line: the line itself, or the bare tag when the
      id is empty. */
  lemma StripSiteLine(id: string)
    requires IsStripped(id)
    ensures Strip("SiteID: " + id) == if id == [] then "SiteID:" else "SiteID: " + id
  {
    var line := "SiteID: " + id;
    assert line[0] == 'S';
    assert SkipSpaces(line, 0) == 0;
    if id == [] {
      assert line[7] == ' ' && line[6] == ':';
      assert TrimEnd(line, 0, 7) == 7;
      assert TrimEnd(line, 0, |line|) == 7;
      assert line[..7] == "SiteID:";
    } else {
      assert line[|line| - 1] == id[|id| - 1];
      assert TrimEnd(line, 0, |line|) == |line|;
    }
  }

  /** `strip()` of a space followed by a stripped, non-empty id is the id. */
  lemma StripSpaceId(id: string)
    requires IsStripped(id) && id != []
    ensures Strip(" " + id) == id
  {
    var rest := " " + id;
    assert rest[1] == id[0];
    assert SkipSpaces(rest, 1) == 1;
    assert SkipSpaces(rest, 0) == 1;
    assert rest[|rest| - 1] == id[|id| - 1];
    assert TrimEnd(rest, 1, |rest|) == |rest|;
    assert rest[1..] == id;
  }

  /** The `SiteID:` line written for a record is read back as a site line carrying the
      same id, provided the id is stripped and holds no `SiteID:` of its own (as every id
      the scanner stores does). */
  lemma SiteLineReadsBack(id: string)
    requires IsStripped(id) && !Contains(id, "SiteID:")
    ensures Classify(Strip("SiteID: " + id)) == SiteLine(id)
  {
    StripSiteLine(id);
    if id == [] {
      BareTagReadsBack();
    } else {
      var line := "SiteID: " + id;
      SiteLinePrefix(id);
      ClassifySite(line);
      SiteRest(id);
    }
  }

  /** A `SiteID:` line with nothing after the tag reads back as an empty id. */
  lemma BareTagReadsBack()
    ensures Classify("SiteID:") == SiteLine([])
  {
    StartsWithSlice("SiteID:", "SiteID:");
    ClassifySite("SiteID:");
  }

  /** The written line starts with the tag, and a space and the id follow it. */
  lemma SiteLinePrefix(id: string)
    ensures StartsWith("SiteID: " + id, "SiteID:")
    ensures ("SiteID: " + id)[7..] == " " + id
  {
    var line := "SiteID: " + id;
    StartsWithSlice(line, "SiteID:");
    assert line[..7] == "SiteID:";
  }

  /** What follows the tag on a written `SiteID:` line reads back as the id. */
  lemma SiteRest(id: string)
    requires IsStripped(id) && !Contains(id, "SiteID:") && id != []
    ensures Strip(BeforeOccurrence(" " + id, "SiteID:")) == id
  {
    var tag := "SiteID:";
    var rest := " " + id;
    assert rest[0] == ' ' && rest[1..] == id;
    StartsWithSlice(rest, tag);
    BeforeAbsent(id, tag);
    assert BeforeOccurrence(rest, tag) == rest;
    StripSpaceId(id);
  }

  /** A record with a well-formed site id is written with a first line that reads back
      as that id. */
  lemma WrittenSiteIdReadsBack(r: Record, showReal: real -> string)
    requires r.siteId.Some? && WellFormedId(r)
    ensures Classify(Strip(RecordLines(r, showReal)[0])) == SiteLine(r.siteId.value)
  {
    RecordLinesHead(r, showReal);
    SiteLineReadsBack(r.siteId.value);
  }
}
