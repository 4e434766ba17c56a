/**
 * `extract_and_print_ids` of mirna-target-modules.py: for every line of a filtered
 * CleaveLand report that mentions a T-Plot file, the file name is split at `_` into a
 * miRNA id (its first two parts) and a target id (its third part).  The lines printed
 * to stdout are returned together with `found_count`; lines may carry their terminator.
 */
module TargetModules {
  import opened Text
  import opened Seqs

  const Header: string := "miRNA ID\tTarget ID"
  const TPlotTag: string := "T-Plot file:"

  /** The stripped line after its last `/`, or the whole stripped line when it has none. */
  function FileName(line: string): string
  {
    Last(SplitOn(Strip(line), '/'))
  }

  /** A line yields a row when it mentions a T-Plot file and its file name has at least
      four `_`-separated parts. */
  predicate Qualifies(line: string)
  {
    Contains(line, TPlotTag) && |SplitOn(FileName(line), '_')| >= 4
  }

  /** The row of a qualifying line: the first two parts joined by `_`, a tab, the third. */
  function RowText(line: string): string
  {
    var parts := SplitOn(FileName(line), '_');
    if |parts| >= 4 then parts[0] + "_" + parts[1] + "\t" + parts[2] else ""
  }

  /** What the loop prints for one line. */
  function RowOf(line: string): seq<string>
  {
    if Contains(line, TPlotTag) then
      var parts := SplitOn(FileName(line), '_');
      if |parts| >= 4 then [parts[0] + "_" + parts[1] + "\t" + parts[2]] else []
    else []
  }

  function Rows(lines: seq<string>): seq<string>
  {
    FlatMap(lines, RowOf)
  }

  /** The lines printed to stdout and the count reported on stderr. */
  datatype Report = Report(written: seq<string>, foundCount: nat)

  function Extract(lines: seq<string>): Report
  {
    Report([Header] + Rows(lines), |Rows(lines)|)
  }

  method ExtractAndPrintIds(lines: seq<string>) returns (report: Report)
    ensures report == Extract(lines)
  {
    var written := [Header];
    var foundCount := 0;
    for k := 0 to |lines|
      invariant written == [Header] + Rows(lines[..k])
      invariant foundCount == |Rows(lines[..k])|
    {
      FlatMapPrefix(lines, k, RowOf);
      var row := RowOf(lines[k]);
      if row != [] {
        written := written + row;
        foundCount := foundCount + 1;
      }
    }
    assert lines[..|lines|] == lines;
    return Report(written, foundCount);
  }

  /** One row per qualifying line, in input order, so the count is the number of
      qualifying lines. */
  lemma {:induction false} RowsSpec(lines: seq<string>)
    ensures Rows(lines) == Map(Filter(lines, Qualifies), RowText)
    ensures Extract(lines).foundCount == |Filter(lines, Qualifies)|
    decreases |lines|
  {
    if lines != [] {
      var n := |lines| - 1;
      RowsSpec(lines[..n]);
      FlatMapPrefix(lines, n, RowOf);
      FilterPrefix(lines, n, Qualifies);
      assert lines[..n + 1] == lines;
      if Qualifies(lines[n]) {
        MapSnoc(Filter(lines[..n], Qualifies), lines[n], RowText);
      } else {
        assert Filter(lines, Qualifies) == Filter(lines[..n], Qualifies) + [];
        assert Rows(lines) == Rows(lines[..n]) + [];
      }
    }
  }

  /** Every row is a miRNA id made of two parts, a tab and a target id, where no part
      holds `_` or `/`. */
  lemma RowShape(line: string)
    requires Qualifies(line)
    ensures exists a, b, c :: (RowText(line) == a + "_" + b + "\t" + c
      && '_' !in a && '_' !in b && '_' !in c && '/' !in a && '/' !in b && '/' !in c)
  {
    var name := FileName(line);
    var parts := SplitOn(name, '_');
    var slashParts := SplitOn(Strip(line), '/');
    assert '/' !in name by {
      assert name == slashParts[|slashParts| - 1];
    }
    assert forall i :: 0 <= i < |parts| ==> '/' !in parts[i] by {
      JoinMembers(parts, '_');
    }
    assert '_' !in parts[0] && '_' !in parts[1] && '_' !in parts[2];
    assert '/' !in parts[0] && '/' !in parts[1] && '/' !in parts[2];
  }

  /** A character of a part is a character of the joined string. */
  lemma {:induction false} JoinMembers(parts: seq<string>, sep: char)
    ensures forall i, c :: 0 <= i < |parts| && c in parts[i] ==> c in Join(parts, [sep])
    decreases |parts|
  {
    if |parts| > 1 {
      JoinMembers(parts[1..], sep);
      assert forall i :: 1 <= i < |parts| ==> parts[i] == parts[1..][i - 1];
    }
  }

  /** A line that starts with the label and a space mentions the label. */
  lemma MentionsTag(tail: string)
    ensures Contains(TPlotTag + " " + tail, TPlotTag)
  {
    var line := TPlotTag + " " + tail;
    assert line == TPlotTag + (" " + tail);
    StartsWithConcat(TPlotTag, " " + tail);
    assert line[0..] == line;
    assert OccursAt(line, TPlotTag, 0);
  }

  /** The T-Plot file name CleaveLand writes: miRNA, site, target and the rest of the
      name, joined by `_`. */
  function PlotName(mirna: string, site: string, target: string, rest: string): string
  {
    mirna + "_" + site + "_" + target + "_" + rest
  }

  lemma PlotNameNested(a: string, b: string, c: string, rest: string)
    ensures PlotName(a, b, c, rest) == a + ['_'] + (b + ['_'] + (c + ['_'] + rest))
  {
  }

  /** A name whose first three parts hold no `_` splits into those three parts and then
      the parts of `rest`. */
  lemma NameParts(a: string, b: string, c: string, rest: string)
    requires '_' !in a && '_' !in b && '_' !in c
    ensures SplitOn(PlotName(a, b, c, rest), '_') == [a, b, c] + SplitOn(rest, '_')
  {
    var x := c + ['_'] + rest;
    var y := b + ['_'] + x;
    SplitOnPrefix(c, rest, '_');
    SplitOnPrefix(b, x, '_');
    SplitOnPrefix(a, y, '_');
    PlotNameNested(a, b, c, rest);
  }

  /** A line that mentions the tag and whose file name is `<a>_<b>_<c>_<rest>` yields
      the row `<a>_<b>`, tab, `<c>`. */
  lemma RowOfPlotName(line: string, a: string, b: string, c: string, rest: string)
    requires '_' !in a && '_' !in b && '_' !in c
    requires Contains(line, TPlotTag) && FileName(line) == PlotName(a, b, c, rest)
    ensures RowOf(line) == [a + "_" + b + "\t" + c]
  {
    NameParts(a, b, c, rest);
  }

  /** The file name of a stripped line is what follows its last `/`. */
  lemma FileNameAfterSlash(head: string, name: string)
    requires '/' !in name && IsStripped(head + "/" + name)
    ensures FileName(head + "/" + name) == name
  {
    LastSplit(head, name, '/');
  }

  /** The file name of a stripped line without `/` is the whole line. */
  lemma FileNameNoSlash(line: string)
    requires '/' !in line && IsStripped(line)
    ensures FileName(line) == line
  {
  }

  /** The T-Plot line of a CleaveLand report whose file sits in a directory and is named
      `<miRNA>_<site>_<target>_<rest>` yields the row `<miRNA>_<site>`, tab, `<target>`. */
  lemma TPlotLineRow(dir: string, mirna: string, site: string, target: string, rest: string)
    requires '_' !in mirna && '_' !in site && '_' !in target
    requires '/' !in mirna && '/' !in site && '/' !in target && '/' !in rest
    requires rest == [] || !IsSpace(rest[|rest| - 1])
    ensures RowOf(TPlotTag + " " + dir + "/" + PlotName(mirna, site, target, rest))
      == [mirna + "_" + site + "\t" + target]
  {
    var name := PlotName(mirna, site, target, rest);
    var head := TPlotTag + " " + dir;
    var line := head + "/" + name;
    assert line == TPlotTag + " " + (dir + "/" + name);
    MentionsTag(dir + "/" + name);
    assert line[|line| - 1] == name[|name| - 1];
    FileNameAfterSlash(head, name);
    RowOfPlotName(line, mirna, site, target, rest);
  }

  /** When the T-Plot path has no directory the whole stripped line is split, so the
      miRNA id keeps the `T-Plot file: ` label in front of it. */
  lemma TPlotLineNoDirectory(mirna: string, site: string, target: string, rest: string)
    requires '_' !in mirna && '_' !in site && '_' !in target
    requires '/' !in mirna && '/' !in site && '/' !in target && '/' !in rest
    requires rest == [] || !IsSpace(rest[|rest| - 1])
    ensures RowOf(TPlotTag + " " + PlotName(mirna, site, target, rest))
      == [TPlotTag + " " + mirna + "_" + site + "\t" + target]
  {
    var tag := TPlotTag + " ";
    assert '_' !in tag && '/' !in tag;
    var head := tag + mirna;
    var name := PlotName(mirna, site, target, rest);
    var line := tag + name;
    assert line == PlotName(head, site, target, rest);
    MentionsTag(name);
    assert line[|line| - 1] == name[|name| - 1];
    assert '/' !in line;
    FileNameNoSlash(line);
    assert '_' !in head;
    RowOfPlotName(line, head, site, target, rest);
  }
}
