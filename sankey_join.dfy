/**
 * `process_files` of filter_script_for_sankey.py: find the needed columns in the two
 * tab-separated files, load the miRNA rows and the annotation rows, and join them on the
 * gene id without its version suffix.  Files are given as rows of fields (the CSV reader
 * is not modelled); the output file is `OutputHeader` followed by the returned rows.
 */
module SankeyJoin {
  import opened Wrappers
  import opened Text
  import opened Seqs

  /** The two ways `process_files` stops early: `next(reader)` on an empty file raises,
      and a missing column makes it return None. */
  datatype SankeyError =
    | EmptyMirnaFile
    | MissingMirnaColumns
    | EmptyAnnotationFile
    | MissingAnnotationColumns

  const OutputHeader: seq<string> := ["miRNA ID", "Gene", "Function"]

  /** `col.strip().lower()`. */
  function Normalize(col: string): string
  {
    Lower(Strip(col))
  }

  /** The index of the last of the first `n` names equal to `name`. */
  function LastMatching(names: seq<string>, name: string, n: nat): Option<nat>
    requires n <= |names|
  {
    if n == 0 then None
    else if names[n - 1] == name then Some(n - 1)
    else LastMatching(names, name, n - 1)
  }

  /** The header cell chosen for `name`: the last whose normalised text is `name`. */
  function ColumnIndex(header: seq<string>, name: string): Option<nat>
  {
    LastMatching(Map(header, Normalize), name, |header|)
  }

  /** The match found is the last one; none is found exactly when there is none. */
  lemma {:induction false} LastMatchingSpec(names: seq<string>, name: string, n: nat)
    requires n <= |names|
    ensures LastMatching(names, name, n).None? <==> forall j :: 0 <= j < n ==> names[j] != name
    ensures LastMatching(names, name, n).Some? ==>
      var i := LastMatching(names, name, n).value;
      i < n && names[i] == name && forall j :: i < j < n ==> names[j] != name
  {
    if n > 0 && names[n - 1] != name {
      LastMatchingSpec(names, name, n - 1);
    }
  }

  /** The column of `name` is the last header cell that normalises to it, and there is
      none exactly when no cell does. */
  lemma ColumnIndexSpec(header: seq<string>, name: string)
    ensures ColumnIndex(header, name).None? <==> forall j :: 0 <= j < |header| ==> Normalize(header[j]) != name
    ensures ColumnIndex(header, name).Some? ==>
      var i := ColumnIndex(header, name).value;
      i < |header| && Normalize(header[i]) == name && forall j :: i < j < |header| ==> Normalize(header[j]) != name
  {
    LastMatchingSpec(Map(header, Normalize), name, |header|);
  }

  /** The `enumerate(header)` loop: each index is reassigned at every matching cell. */
  method FindColumns(header: seq<string>, first: string, second: string)
    returns (firstIndex: Option<nat>, secondIndex: Option<nat>)
    requires first != second
    ensures firstIndex == ColumnIndex(header, first)
    ensures secondIndex == ColumnIndex(header, second)
  {
    ghost var names := Map(header, Normalize);
    firstIndex, secondIndex := None, None;
    for i := 0 to |header|
      invariant firstIndex == LastMatching(names, first, i)
      invariant secondIndex == LastMatching(names, second, i)
    {
      var col := Normalize(header[i]);
      assert col == names[i];
      if col == first {
        firstIndex := Some(i);
      } else if col == second {
        secondIndex := Some(i);
      }
    }
  }

  /** A loaded miRNA row: the id, the gene as written and the gene without its version. */
  datatype MirnaEntry = MirnaEntry(mirnaId: string, gene: string, geneBase: string)

  /** `gene.split('.')[0] if '.' in gene else gene`. */
  function GeneBase(gene: string): (base: string)
    ensures '.' !in base
    ensures '.' !in gene ==> base == gene
    ensures '.' in gene ==> exists rest :: gene == base + "." + rest
  {
    var parts := SplitOn(gene, '.');
    if '.' in gene then
      assert gene == parts[0] + "." + Join(parts[1..], ".");
      parts[0]
    else gene
  }

  /** A data row long enough for both columns. */
  predicate LongEnough(row: seq<string>, i: nat, j: nat)
  {
    |row| > i && |row| > j
  }

  function EntryOf(row: seq<string>, mirnaIndex: nat, geneIndex: nat): MirnaEntry
    requires LongEnough(row, mirnaIndex, geneIndex)
  {
    var gene := Strip(row[geneIndex]);
    MirnaEntry(Strip(row[mirnaIndex]), gene, GeneBase(gene))
  }

  /** The entries of the long-enough data rows, in file order. */
  function MirnaEntries(rows: seq<seq<string>>, mirnaIndex: nat, geneIndex: nat): seq<MirnaEntry>
    decreases |rows|
  {
    if rows == [] then []
    else
      var row := rows[|rows| - 1];
      MirnaEntries(rows[..|rows| - 1], mirnaIndex, geneIndex)
      + (if LongEnough(row, mirnaIndex, geneIndex) then [EntryOf(row, mirnaIndex, geneIndex)] else [])
  }

  method LoadMirna(rows: seq<seq<string>>, mirnaIndex: nat, geneIndex: nat) returns (entries: seq<MirnaEntry>)
    ensures entries == MirnaEntries(rows, mirnaIndex, geneIndex)
  {
    entries := [];
    for k := 0 to |rows|
      invariant entries == MirnaEntries(rows[..k], mirnaIndex, geneIndex)
    {
      var row := rows[k];
      assert rows[..k + 1][..k] == rows[..k];
      if |row| > mirnaIndex && |row| > geneIndex {
        var mirnaId := Strip(row[mirnaIndex]);
        var gene := Strip(row[geneIndex]);
        var geneBase := if '.' in gene then SplitOn(gene, '.')[0] else gene;
        entries := entries + [MirnaEntry(mirnaId, gene, geneBase)];
      }
    }
    assert rows[..|rows|] == rows;
  }

  /** Every entry comes from a long-enough row, and every long-enough row gives one. */
  lemma {:induction false} MirnaEntriesSpec(rows: seq<seq<string>>, mirnaIndex: nat, geneIndex: nat)
    ensures |MirnaEntries(rows, mirnaIndex, geneIndex)| <= |rows|
    ensures forall e :: e in MirnaEntries(rows, mirnaIndex, geneIndex) <==>
      exists row :: row in rows && LongEnough(row, mirnaIndex, geneIndex) && e == EntryOf(row, mirnaIndex, geneIndex)
    decreases |rows|
  {
    if rows != [] {
      var init := rows[..|rows| - 1];
      MirnaEntriesSpec(init, mirnaIndex, geneIndex);
      assert rows == init + [rows[|rows| - 1]];
    }
  }

  /** The `(id, function)` pairs of the long-enough annotation rows, in file order. */
  function AnnotationPairs(rows: seq<seq<string>>, idIndex: nat, functionIndex: nat): seq<(string, string)>
    decreases |rows|
  {
    if rows == [] then []
    else
      var row := rows[|rows| - 1];
      AnnotationPairs(rows[..|rows| - 1], idIndex, functionIndex)
      + (if LongEnough(row, idIndex, functionIndex) then [(Strip(row[idIndex]), Strip(row[functionIndex]))] else [])
  }

  /** The annotation dictionary. */
  function Annotations(rows: seq<seq<string>>, idIndex: nat, functionIndex: nat): map<string, string>
  {
    MapOf(AnnotationPairs(rows, idIndex, functionIndex))
  }

  method LoadAnnotations(rows: seq<seq<string>>, idIndex: nat, functionIndex: nat)
    returns (annotation: map<string, string>)
    ensures annotation == Annotations(rows, idIndex, functionIndex)
  {
    ghost var pairs: seq<(string, string)> := [];
    annotation := map[];
    for k := 0 to |rows|
      invariant pairs == AnnotationPairs(rows[..k], idIndex, functionIndex)
      invariant annotation == MapOf(pairs)
    {
      var row := rows[k];
      assert rows[..k + 1][..k] == rows[..k];
      if |row| > idIndex && |row| > functionIndex {
        var setariaId := Strip(row[idIndex]);
        var fn := Strip(row[functionIndex]);
        annotation := annotation[setariaId := fn];
        pairs := pairs + [(setariaId, fn)];
        assert pairs[..|pairs| - 1] == AnnotationPairs(rows[..k], idIndex, functionIndex);
      }
    }
    assert rows[..|rows|] == rows;
  }

  /** `annotation_data.get(key, "")`. */
  function Lookup(annotation: map<string, string>, key: string): string
  {
    if key in annotation then annotation[key] else ""
  }

  /** The output rows: one per entry whose gene has a non-empty function, in entry order. */
  function JoinRows(entries: seq<MirnaEntry>, annotation: map<string, string>): seq<seq<string>>
    decreases |entries|
  {
    if entries == [] then []
    else
      var e := entries[|entries| - 1];
      var fn := Lookup(annotation, e.geneBase);
      JoinRows(entries[..|entries| - 1], annotation) + (if fn != "" then [[e.mirnaId, e.geneBase, fn]] else [])
  }

  /** The output loop, with the fallback lookup `original_gene.split('.')[0]` that the
      source tries when the first lookup finds nothing. */
  method JoinAnnotations(entries: seq<MirnaEntry>, annotation: map<string, string>)
    returns (outputRows: seq<seq<string>>)
    requires forall e :: e in entries ==> e.geneBase == GeneBase(e.gene)
    ensures outputRows == JoinRows(entries, annotation)
  {
    outputRows := [];
    for k := 0 to |entries|
      invariant outputRows == JoinRows(entries[..k], annotation)
    {
      var e := entries[k];
      assert entries[..k + 1][..k] == entries[..k];
      var fn := Lookup(annotation, e.geneBase);
      if fn == "" && '.' in e.gene {
        var baseGene := SplitOn(e.gene, '.')[0];
        FallbackKey(e.gene);
        fn := Lookup(annotation, baseGene);
      }
      if fn != "" {
        outputRows := outputRows + [[e.mirnaId, e.geneBase, fn]];
      }
    }
    assert entries[..|entries|] == entries;
  }

  /** The fallback key is the key already tried, so the fallback never finds anything new. */
  lemma FallbackKey(gene: string)
    requires '.' in gene
    ensures SplitOn(gene, '.')[0] == GeneBase(gene)
  {
  }

  /** Every output row is `[id, gene base, function]` of an entry whose function is
      non-empty, and every such entry has its row; there are never more rows than entries. */
  lemma {:induction false} JoinRowsSpec(entries: seq<MirnaEntry>, annotation: map<string, string>)
    ensures |JoinRows(entries, annotation)| <= |entries|
    ensures forall row :: row in JoinRows(entries, annotation) <==>
      exists e :: e in entries && Lookup(annotation, e.geneBase) != ""
        && row == [e.mirnaId, e.geneBase, Lookup(annotation, e.geneBase)]
    decreases |entries|
  {
    if entries != [] {
      var init := entries[..|entries| - 1];
      JoinRowsSpec(init, annotation);
      assert entries == init + [entries[|entries| - 1]];
    }
  }

  /** What `process_files` returns, given the rows of the two files. */
  function ProcessFilesSpec(mirnaRows: seq<seq<string>>, annotationRows: seq<seq<string>>)
    : Result<seq<seq<string>>, SankeyError>
  {
    if mirnaRows == [] then Failure(EmptyMirnaFile)
    else
      var mi := ColumnIndex(mirnaRows[0], "mirna id");
      var gi := ColumnIndex(mirnaRows[0], "gene");
      if mi.None? || gi.None? then Failure(MissingMirnaColumns)
      else if annotationRows == [] then Failure(EmptyAnnotationFile)
      else
        var si := ColumnIndex(annotationRows[0], "setaria viridis id");
        var fi := ColumnIndex(annotationRows[0], "function");
        if si.None? || fi.None? then Failure(MissingAnnotationColumns)
        else
          var entries := MirnaEntries(mirnaRows[1..], mi.value, gi.value);
          Success(JoinRows(entries, Annotations(annotationRows[1..], si.value, fi.value)))
  }

  method ProcessFiles(mirnaRows: seq<seq<string>>, annotationRows: seq<seq<string>>)
    returns (result: Result<seq<seq<string>>, SankeyError>)
    ensures result == ProcessFilesSpec(mirnaRows, annotationRows)
  {
    if mirnaRows == [] {
      return Failure(EmptyMirnaFile);
    }
    var mirnaIdIndex, geneIndex := FindColumns(mirnaRows[0], "mirna id", "gene");
    if mirnaIdIndex.None? || geneIndex.None? {
      return Failure(MissingMirnaColumns);
    }
    var mirnaData := LoadMirna(mirnaRows[1..], mirnaIdIndex.value, geneIndex.value);
    if annotationRows == [] {
      return Failure(EmptyAnnotationFile);
    }
    var setariaIdIndex, functionIndex := FindColumns(annotationRows[0], "setaria viridis id", "function");
    if setariaIdIndex.None? || functionIndex.None? {
      return Failure(MissingAnnotationColumns);
    }
    var annotationData := LoadAnnotations(annotationRows[1..], setariaIdIndex.value, functionIndex.value);
    MirnaEntriesBases(mirnaRows[1..], mirnaIdIndex.value, geneIndex.value);
    var outputRows := JoinAnnotations(mirnaData, annotationData);
    return Success(outputRows);
  }

  lemma {:induction false} MirnaEntriesBases(rows: seq<seq<string>>, mirnaIndex: nat, geneIndex: nat)
    ensures forall e :: e in MirnaEntries(rows, mirnaIndex, geneIndex) ==> e.geneBase == GeneBase(e.gene)
    decreases |rows|
  {
    if rows != [] {
      MirnaEntriesBases(rows[..|rows| - 1], mirnaIndex, geneIndex);
    }
  }
}
