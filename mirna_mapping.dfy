/**
 * miRNA_mapping_script.py: `parse_fasta` maps each chromosome id of a FASTA header to the
 * full miRNA name and its type, and `process_table_to_stdout` / `process_table` rewrite a
 * whitespace-separated table with those names added.  Files are sequences of lines; the
 * written lines are returned instead of going to stdout or a file.
 */
module MirnaMapping {
  import opened Wrappers
  import opened Text
  import opened Seqs

  datatype MirnaInfo = MirnaInfo(fullName: string, mirnaType: string)

  /** The entry a header line contributes: the stripped line starts with `>`, and the name
      after it splits at its first `_` into the type and the chromosome id. */
  function HeaderEntry(line: string): seq<(string, MirnaInfo)>
  {
    var stripped := Strip(line);
    if !StartsWith(stripped, ">") then []
    else
      StartsWithSlice(stripped, ">");
      var fullName := stripped[1..];
      match SplitOnce(fullName, '_')
      case None => []
      case Some((mirnaType, chrId)) => [(chrId, MirnaInfo(fullName, mirnaType))]
  }

  /** The entries of the header lines, in file order. */
  function HeaderEntries(lines: seq<string>): seq<(string, MirnaInfo)>
  {
    FlatMap(lines, HeaderEntry)
  }

  /** The mapping `parse_fasta` returns: a later header with the same id overwrites. */
  function FastaMapping(lines: seq<string>): map<string, MirnaInfo>
  {
    MapOf(HeaderEntries(lines))
  }

  /** The body of the `for line in f` loop of `parse_fasta` for one line: the entry it
      stores, if any. */
  method ReadHeader(line: string) returns (found: bool, chrId: string, info: MirnaInfo)
    ensures found <==> Strip(line) != [] && Strip(line)[0] == '>' && '_' in Strip(line)[1..]
    ensures found ==> Strip(line) == ">" + info.fullName
    ensures found ==> info.fullName == info.mirnaType + "_" + chrId && '_' !in info.mirnaType
    ensures HeaderEntry(line) == if found then [(chrId, info)] else []
  {
    found, chrId, info := false, "", MirnaInfo("", "");
    var stripped := Strip(line);
    if StartsWith(stripped, ">") {
      StartsWithSlice(stripped, ">");
      var fullName := stripped[1..];
      assert stripped == ">" + fullName;
      var parts := SplitOnce(fullName, '_');
      if parts.Some? {
        found, chrId, info := true, parts.value.1, MirnaInfo(fullName, parts.value.0);
      }
    }
  }

  method ParseFasta(lines: seq<string>) returns (mapping: map<string, MirnaInfo>)
    ensures mapping == FastaMapping(lines)
  {
    mapping := map[];
    for k := 0 to |lines|
      invariant mapping == MapOf(HeaderEntries(lines[..k]))
    {
      ghost var before := HeaderEntries(lines[..k]);
      FlatMapPrefix(lines, k, HeaderEntry);
      var found, chrId, info := ReadHeader(lines[k]);
      if found {
        assert HeaderEntries(lines[..k + 1]) == before + [(chrId, info)];
        MapOfSnoc(before, (chrId, info));
        mapping := mapping[chrId := info];
      } else {
        assert HeaderEntries(lines[..k + 1]) == before + [];
        assert before + [] == before;
      }
    }
    assert lines[..|lines|] == lines;
  }

  /** Every entry read from a header keeps the name whole: it is the type, `_`, and the
      chromosome id, and the type has no `_`. */
  lemma {:induction false} HeaderEntriesShape(lines: seq<string>)
    ensures forall e :: e in HeaderEntries(lines) ==>
      e.1.fullName == e.1.mirnaType + "_" + e.0 && '_' !in e.1.mirnaType
    decreases |lines|
  {
    if lines != [] {
      HeaderEntriesShape(lines[..|lines| - 1]);
    }
  }

  /** A chromosome id is mapped exactly when some header carries it; the mapped name is
      that of the last such header, and it is the type, `_` and the id. */
  lemma FastaMappingSpec(lines: seq<string>, chrId: string)
    ensures var entries := HeaderEntries(lines);
      chrId in FastaMapping(lines) <==> exists k :: 0 <= k < |entries| && entries[k].0 == chrId
    ensures var entries := HeaderEntries(lines);
      chrId in FastaMapping(lines) ==>
        && FastaMapping(lines)[chrId].fullName == FastaMapping(lines)[chrId].mirnaType + "_" + chrId
        && '_' !in FastaMapping(lines)[chrId].mirnaType
        && (exists k :: 0 <= k < |entries| && entries[k] == (chrId, FastaMapping(lines)[chrId])
              && forall j :: k < j < |entries| ==> entries[j].0 != chrId)
  {
    var entries := HeaderEntries(lines);
    MapOfLastWins(entries, chrId);
    HeaderEntriesShape(lines);
    if chrId in FastaMapping(lines) {
      var k :| 0 <= k < |entries| && entries[k].0 == chrId && MapOf(entries)[chrId] == entries[k].1
        && forall j :: k < j < |entries| ==> entries[j].0 != chrId;
      assert entries[k] in entries;
    }
  }

  // ---------------------------------------------------------------------------------
  // The table rewrite

  const StdoutHeader: string := "Original miRNA ID\tmiRNA_Chr ID\tmiRNA ID\tTarget ID\tGene"
  const FileHeader: string := "Original miRNA ID\tmiRNA_Chr ID\tmiRNA ID\tTarget ID"

  /** The full name and type of a chromosome id, or `Unknown` for both. */
  function NamesOf(chrId: string, mapping: map<string, MirnaInfo>): MirnaInfo
  {
    if chrId in mapping then mapping[chrId] else MirnaInfo("Unknown", "Unknown")
  }

  /** The names written for a chromosome id are those of a FASTA header carrying it, so
      the full name is the type, `_` and the id; or both are `Unknown`, and then no
      header carries the id. */
  lemma NamesFromFasta(lines: seq<string>, chrId: string)
    ensures var info := NamesOf(chrId, FastaMapping(lines));
      || (chrId in FastaMapping(lines) && info.fullName == info.mirnaType + "_" + chrId)
      || (info == MirnaInfo("Unknown", "Unknown") && forall e :: e in HeaderEntries(lines) ==> e.0 != chrId)
  {
    var entries := HeaderEntries(lines);
    FastaMappingSpec(lines, chrId);
    if chrId !in FastaMapping(lines) {
      forall e | e in entries
        ensures e.0 != chrId
      {
        var k :| 0 <= k < |entries| && entries[k] == e;
      }
    }
  }

  /** The target id up to its last `.` (`target_id.rsplit('.', 1)[0]`), or all of it. */
  function GeneOf(targetId: string): string
  {
    match RSplitOnce(targetId, '.')
    case Some((gene, _)) => gene
    case None => targetId
  }

  lemma GeneOfSpec(targetId: string)
    ensures '.' !in targetId ==> GeneOf(targetId) == targetId
    ensures '.' in targetId ==> exists version :: targetId == GeneOf(targetId) + "." + version && '.' !in version
  {
    if '.' in targetId {
      var r := RSplitOnce(targetId, '.').value;
      assert targetId == r.0 + "." + r.1;
    }
  }

  /** The output line of a table row whose first two fields are `chrId` and `targetId`,
      without the Gene column (`process_table`) or with it (`process_table_to_stdout`). */
  function FileLine(chrId: string, targetId: string, mapping: map<string, MirnaInfo>): string
  {
    var info := NamesOf(chrId, mapping);
    chrId + "\t" + info.fullName + "\t" + info.mirnaType + "\t" + targetId
  }

  function StdoutLine(chrId: string, targetId: string, mapping: map<string, MirnaInfo>): string
  {
    FileLine(chrId, targetId, mapping) + "\t" + GeneOf(targetId)
  }

  /** The fields of a data line, `line.strip().split()`. */
  function Fields(line: string): seq<string>
  {
    Words(Strip(line))
  }

  function StdoutRow(mapping: map<string, MirnaInfo>): string -> seq<string>
  {
    line =>
      var parts := Fields(line);
      if |parts| >= 2 then [StdoutLine(parts[0], parts[1], mapping)] else []
  }

  function FileRow(mapping: map<string, MirnaInfo>): string -> seq<string>
  {
    line =>
      var parts := Fields(line);
      if |parts| >= 2 then [FileLine(parts[0], parts[1], mapping)] else []
  }

  /** The lines written for a table: the header, then one line per data line with at least
      two fields; `raised` is the StopIteration that `next(infile)` raises on an empty
      table, after the header is already written. */
  datatype TableOutput = TableOutput(written: seq<string>, raised: bool)

  function StdoutTable(table: seq<string>, mapping: map<string, MirnaInfo>): TableOutput
  {
    if table == [] then TableOutput([StdoutHeader], true)
    else TableOutput([StdoutHeader] + FlatMap(table[1..], StdoutRow(mapping)), false)
  }

  function FileTable(table: seq<string>, mapping: map<string, MirnaInfo>): TableOutput
  {
    if table == [] then TableOutput([FileHeader], true)
    else TableOutput([FileHeader] + FlatMap(table[1..], FileRow(mapping)), false)
  }

  /** The `for line in infile` loop of `process_table_to_stdout`. */
  method StdoutRows(rows: seq<string>, mapping: map<string, MirnaInfo>) returns (written: seq<string>)
    ensures written == FlatMap(rows, StdoutRow(mapping))
  {
    written := [];
    for k := 0 to |rows|
      invariant written == FlatMap(rows[..k], StdoutRow(mapping))
    {
      var lineOut := StdoutRow(mapping)(rows[k]);
      FlatMapPrefix(rows, k, StdoutRow(mapping));
      written := written + lineOut;
    }
    assert rows[..|rows|] == rows;
  }

  /** The `for line in infile` loop of `process_table`. */
  method FileRows(rows: seq<string>, mapping: map<string, MirnaInfo>) returns (written: seq<string>)
    ensures written == FlatMap(rows, FileRow(mapping))
  {
    written := [];
    for k := 0 to |rows|
      invariant written == FlatMap(rows[..k], FileRow(mapping))
    {
      var lineOut := FileRow(mapping)(rows[k]);
      FlatMapPrefix(rows, k, FileRow(mapping));
      written := written + lineOut;
    }
    assert rows[..|rows|] == rows;
  }

  /** `process_table_to_stdout`: the header, then the rows after the skipped header line. */
  method ProcessTableToStdout(table: seq<string>, mapping: map<string, MirnaInfo>) returns (out: TableOutput)
    ensures out == StdoutTable(table, mapping)
  {
    if table == [] {
      return TableOutput([StdoutHeader], true);
    }
    var rows := StdoutRows(table[1..], mapping);
    return TableOutput([StdoutHeader] + rows, false);
  }

  /** `process_table`: the same, without the Gene column. */
  method ProcessTable(table: seq<string>, mapping: map<string, MirnaInfo>) returns (out: TableOutput)
    ensures out == FileTable(table, mapping)
  {
    if table == [] {
      return TableOutput([FileHeader], true);
    }
    var rows := FileRows(table[1..], mapping);
    return TableOutput([FileHeader] + rows, false);
  }

  /** Removing the last column: the text before the last tab. */
  function DropGene(line: string): string
  {
    match RSplitOnce(line, '\t')
    case Some((before, _)) => before
    case None => line
  }

  /** The Gene column is the last one, and it contains no tab. */
  lemma StdoutLineSplits(chrId: string, targetId: string, mapping: map<string, MirnaInfo>)
    requires NoSpace(targetId)
    ensures RSplitOnce(StdoutLine(chrId, targetId, mapping), '\t') == Some((FileLine(chrId, targetId, mapping), GeneOf(targetId)))
  {
    var gene := GeneOf(targetId);
    GeneOfSpec(targetId);
    if '.' in targetId {
      var version :| targetId == gene + "." + version && '.' !in version;
      assert forall i :: 0 <= i < |gene| ==> gene[i] == targetId[i];
    }
    assert forall i :: 0 <= i < |gene| ==> !IsSpace(gene[i]);
    RSplitOnceAppend(FileLine(chrId, targetId, mapping), gene, '\t');
  }

  /** Removing the Gene column from the stdout header gives the file header. */
  lemma HeaderDropsGene()
    ensures DropGene(StdoutHeader) == FileHeader
  {
    assert StdoutHeader == FileHeader + "\t" + "Gene";
    RSplitOnceAppend(FileHeader, "Gene", '\t');
  }

  /** `process_table` writes the lines of `process_table_to_stdout`, header included,
      each with its Gene column removed, and raises in the same case. */
  lemma FileTableDropsGene(table: seq<string>, mapping: map<string, MirnaInfo>)
    ensures FileTable(table, mapping).raised == StdoutTable(table, mapping).raised
    ensures FileTable(table, mapping).written == Map(StdoutTable(table, mapping).written, DropGene)
  {
    HeaderDropsGene();
    if table != [] {
      var rows := table[1..];
      RowsDropGene(rows, mapping);
      MapCons(StdoutHeader, FlatMap(rows, StdoutRow(mapping)), DropGene);
    } else {
      MapCons(StdoutHeader, [], DropGene);
    }
  }

  lemma {:induction false} RowsDropGene(rows: seq<string>, mapping: map<string, MirnaInfo>)
    ensures FlatMap(rows, FileRow(mapping)) == Map(FlatMap(rows, StdoutRow(mapping)), DropGene)
    decreases |rows|
  {
    if rows != [] {
      var n := |rows| - 1;
      RowsDropGene(rows[..n], mapping);
      FlatMapPrefix(rows, n, FileRow(mapping));
      FlatMapPrefix(rows, n, StdoutRow(mapping));
      assert rows[..n + 1] == rows;
      var parts := Fields(rows[n]);
      if |parts| >= 2 {
        assert parts[1] in parts;
        StdoutLineSplits(parts[0], parts[1], mapping);
        MapSnoc(FlatMap(rows[..n], StdoutRow(mapping)), StdoutLine(parts[0], parts[1], mapping), DropGene);
      } else {
        assert FlatMap(rows, StdoutRow(mapping)) == FlatMap(rows[..n], StdoutRow(mapping)) + [];
      }
    }
  }

  /** The line written for a data line with at least two fields. */
  function RowLine(mapping: map<string, MirnaInfo>): string -> string
  {
    line =>
      var parts := Fields(line);
      if |parts| >= 2 then StdoutLine(parts[0], parts[1], mapping) else ""
  }

  /** One output line for each data line with at least two fields, in order: the line
      built from its first two fields, its mapped names and its gene. */
  lemma {:induction false} StdoutRowsSpec(rows: seq<string>, mapping: map<string, MirnaInfo>)
    ensures FlatMap(rows, StdoutRow(mapping)) == Map(Filter(rows, HasTwoFields), RowLine(mapping))
    decreases |rows|
  {
    if rows != [] {
      var n := |rows| - 1;
      StdoutRowsSpec(rows[..n], mapping);
      FlatMapPrefix(rows, n, StdoutRow(mapping));
      FilterPrefix(rows, n, HasTwoFields);
      assert rows[..n + 1] == rows;
      if HasTwoFields(rows[n]) {
        MapSnoc(Filter(rows[..n], HasTwoFields), rows[n], RowLine(mapping));
      } else {
        assert Filter(rows, HasTwoFields) == Filter(rows[..n], HasTwoFields) + [];
        assert FlatMap(rows, StdoutRow(mapping)) == FlatMap(rows[..n], StdoutRow(mapping)) + [];
      }
    }
  }

  predicate HasTwoFields(line: string)
  {
    |Fields(line)| >= 2
  }
}
