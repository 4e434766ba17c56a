# Small-RNA / degradome text tools, modelled in Dafny

This project models the line-oriented text transforms of a set of bioinformatics
scripts used in small-RNA and degradome analysis:

- **CleaveLand results filter** (`filter-cleaveland-results.py`): a scanner that
  assembles one record per `SiteID:` line of a CleaveLand report (scalar fields by
  line prefix, with the `Degardome` misspelling accepted for the degradome file,
  category and p-value; two region blocks read by inner loops; three-integer position
  rows), a stable filter on four optional thresholds, a writer that renders each record
  as a fixed-shape block, the extraction of site ids from the written report, and the
  rule that selects PDF file names by their `Sevir.<word>.<digits>` id.
- **Sankey input preparation** (`filter_script_for_sankey.py`): header-column lookup in
  two tab-separated files, loading of miRNA rows and of an annotation dictionary, and
  the join on the gene id without its version suffix.
- **miRNA mapping** (`miRNA_mapping_script.py`): a map from FASTA headers to miRNA
  names and types, and the per-row rewrite of a table, with and without a Gene column.
- **miRNA–target modules** (`mirna-target-modules.py`): splitting T-Plot file names
  into a miRNA id and a target id.
- **FASTQ to FASTA** (`fastq_to_fasta.py`): keeping the header and sequence line of
  each four-line record.

Every script is a loop that builds a list or writes lines. Each loop is a Dafny
`method` with loop invariants, proved equal to a specification function. The
properties the scripts promise are lemmas about those functions. Files are sequences
of lines or of rows of fields. Written output is returned as the sequence of lines or
strings written.

Python's `float()` is a parameter `toReal: string -> Option<real>` and `str(float)` a
parameter `showReal: real -> string`, so every fact holds for any float syntax. `int()`
is an optional sign followed by ASCII digits. Whitespace is the ASCII part of
`str.isspace()`; `\d` and `\w` are their ASCII classes.

Module layout: `Wrappers` (Option, Result), `Text` (the `str` methods the scripts use),
`Numerals` (`int()` and `str(int)`), `Seqs` (sub-sequences, map/filter/flat-map, and
dictionaries filled pair by pair), then one module per script or per function cluster:
`CleavelandParse`, `CleavelandFilter`, `CleavelandWrite`, `CleavelandPipeline`,
`CleavelandIds`, `SankeyJoin`, `MirnaMapping`, `TargetModules`, `FastqToFasta`.

Behaviour of the code that is easy to misread:

- The site id is the text between the first and the second `SiteID:` on the line, not
  everything after the tag.
- The scalar fields take the text between the first and the second `:`. A T-Plot path
  or file name that contains a `:` is therefore cut short.
- A region block keeps every non-empty line up to its sentinel, `SiteID:` and position
  lines included. Only a line repeating the block's own marker is skipped.
- A region marker seen before any `SiteID:` line opens a record without a site id. Only
  the first record can lack one.
- A position-like line whose third token is not all digits (`12 3 4x`) aborts the parse.

## Model

| member | source | states |
|---|---|---|
| `CleavelandParse.ParseCleavelandOutput` | filter-cleaveland-results.py:32-124 | the scanner (outer loop over `i`, accumulator record, list of records, early return on a `ValueError`) returns exactly `Parse`, the explicit fold over the lines |
| `CleavelandParse.ReadBlock` | filter-cleaveland-results.py:66-88 | the inner loop of a region block returns the regions and the stop index of `CollectRegions` |
| `CleavelandParse.Classify` | filter-cleaveland-results.py:45-116 | a line is a site line exactly when it starts with `SiteID:`; its id is stripped and holds no second `SiteID:`; every other field value is stripped and free of `:` |
| `CleavelandParse.ClassifySite` | filter-cleaveland-results.py:45-51 | a `SiteID:` line's id is the stripped text between the tag and the next `SiteID:` |
| `CleavelandParse.FieldText` | filter-cleaveland-results.py:55 | `line.split(":")[1].strip()` is stripped and contains no `:` |
| `CleavelandParse.FieldTextBetweenColons` | filter-cleaveland-results.py:55 | for a line `a:m` followed by nothing or by a further `:`, with no `:` in `a` or `m`, the field text is `m` stripped: the text between the first and the second colon |
| `CleavelandParse.SetField` | filter-cleaveland-results.py:54-116 | a field line fails exactly when `float()` rejects a score or `int()` rejects one of the first three tokens of a position row; a category that is not an int never fails; a successful step leaves a non-empty record with the same site id |
| `CleavelandParse.SetRegions` | filter-cleaveland-results.py:66-88 | a region block leaves a non-empty record with its site id unchanged |
| `CleavelandParse.CollectRegionsSpec` | filter-cleaveland-results.py:68-87 | a block stops at the first sentinel line (`Unpaired Regions`, or `Degradome`/`Degardome`) or at the end of input, and keeps exactly the non-empty stripped lines before it that do not repeat the block's marker, in order |
| `CleavelandParse.KeptBetweenShape` | filter-cleaveland-results.py:70-86 | every kept region is non-empty, stripped, and does not start with the block's marker |
| `CleavelandParse.ParsedRecordsShape` | filter-cleaveland-results.py:44-122 | no record returned is empty, every record after the first has a site id, and every site id is stripped and holds no `SiteID:` |
| `CleavelandParse.ParsedRecordIds` | filter-cleaveland-results.py:44-122 | the site ids of the records, in order, are: no id for a leading record exactly when a field line or region block comes before the first `SiteID:` line the scan reaches, then one record per `SiteID:` line at a scan point (`ScanPoints`: every line but those a region block consumes), holding that line's id |
| `CleavelandParse.ParseFailsOnlyAtMalformed` | filter-cleaveland-results.py:54-116 | the parse fails exactly when some scan point is a field line whose number `float()`/`int()` rejects, and it then reports the first such line; a report without such a line parses successfully |
| `CleavelandFilter.FilterRecords` | filter-cleaveland-results.py:127-158 | the loop with its `pass_filter` flag and short-circuited tests returns `Filtered`, the records passing all enabled tests in input order |
| `CleavelandFilter.FilteredMembers` | filter-cleaveland-results.py:131-156 | a record is kept exactly when it is in the input and passes all four tests (inclusive bounds, an absent field fails an enabled test) |
| `CleavelandFilter.FilteredSubsequence` | filter-cleaveland-results.py:131-158 | the result is an order-preserving sub-sequence of the input |
| `CleavelandFilter.FilteredNoThresholds` | filter-cleaveland-results.py:136-153 | with no threshold set every record is kept |
| `CleavelandFilter.FilteredThenStricter` | filter-cleaveland-results.py:127-158 | filtering, then filtering with stricter thresholds, is filtering once with the stricter ones |
| `CleavelandFilter.FilteredIdempotent` | filter-cleaveland-results.py:127-158 | filtering twice with the same thresholds is filtering once |
| `CleavelandFilter.StricterSubsequence` | filter-cleaveland-results.py:136-153 | enabling an extra criterion or tightening one keeps a sub-sequence of what was kept before |
| `CleavelandFilter.FilteredAppend` | filter-cleaveland-results.py:131-156 | each record is judged on its own: filtering distributes over concatenation |
| `CleavelandFilter.EmptyCategoriesRejectAll` | filter-cleaveland-results.py:146-148 | an empty category list rejects every record |
| `CleavelandFilter.RawCategoryRejected` | filter-cleaveland-results.py:146-148 | a category kept as text never passes an enabled category test |
| `CleavelandFilter.MinRatioExample` | filter-cleaveland-results.py:136-138 | of two records with MFE ratios 0.8 and 0.4, a minimum ratio of 0.7 keeps only the first |
| `CleavelandWrite.WriteOutput` | filter-cleaveland-results.py:160-193 | the writer returns the blocks of the records in order, and nothing for no records |
| `CleavelandWrite.WriteRecord` | filter-cleaveland-results.py:164-193 | the writes for one record give exactly its block |
| `CleavelandWrite.WriteEach` | filter-cleaveland-results.py:170-191 | a loop writing one line per element appends the mapped elements in order |
| `CleavelandWrite.RenderBlockAt` | filter-cleaveland-results.py:163-193 | each record's block sits between the blocks of the records before and after it |
| `CleavelandWrite.RecordLinesHead` | filter-cleaveland-results.py:164 | the first line of a block is `SiteID: ` and the id, or `Unknown` when absent |
| `CleavelandWrite.RecordLinesRegions` | filter-cleaveland-results.py:171-178 | after the five head lines, both region headers are always written, each followed by exactly the record's regions in order, each indented by four spaces (`Indented`) |
| `CleavelandWrite.RecordLinesDegradome` | filter-cleaveland-results.py:181-185 | the three degradome lines follow with `N/A` for absent values, then a T-Plot line for a record that has a T-Plot file |
| `CleavelandWrite.RecordLinesLength` | filter-cleaveland-results.py:164-193 | a block's length: fixed lines, one per region, one for a T-Plot file, a table of two lines plus one per position only when there is a position, three closing lines |
| `CleavelandWrite.RecordLinesPositionHeader` | filter-cleaveland-results.py:188-189 | a record with at least one position gets a blank line and then the `Position\tReads\tCategory` header right after its degradome lines (and the T-plot line when present) |
| `CleavelandWrite.RecordLinesPositionRows` | filter-cleaveland-results.py:190-191 | after that header come exactly the rows `PositionRows(ps)`, one tab-separated `position reads category` row per position in the record's order |
| `CleavelandWrite.RecordLinesSeparator` | filter-cleaveland-results.py:193 | every block ends with a blank line, 50 dashes and a blank line |
| `CleavelandWrite.SiteLineReadsBack` | filter-cleaveland-results.py:45-164 | the written `SiteID:` line of a stripped id without `SiteID:` is read back by the scanner as that same id |
| `CleavelandWrite.WrittenSiteIdReadsBack` | filter-cleaveland-results.py:164 | a record with a well-formed id is written with a first line that reads back as the id |
| `CleavelandPipeline.FilterCleavelandOutput` | filter-cleaveland-results.py:195-211 | parse, filter and write give `Pipeline`: a parse failure or the count of kept records and the lines written |
| `CleavelandPipeline.PipelineOutcome` | filter-cleaveland-results.py:199-211 | the run fails exactly when the parse does, at a malformed number line; otherwise it returns the number of kept records, which never exceeds those read, and writes exactly the records that passed, in input order |
| `CleavelandPipeline.PipelineNoThresholds` | filter-cleaveland-results.py:199-211 | with no threshold every parsed record is written back and counted |
| `CleavelandPipeline.PipelineWritesSiteIds` | filter-cleaveland-results.py:199-208 | every kept record's block is in the output in order, and a record parsed with an id is written with a line that reads back as that id |
| `CleavelandIds.ExtractIdsFromCleaveland` | filter-cleaveland-results.py:213-237 | the chunk loop returns `ExtractIds`: the cleaned id of each chunk that has a `SiteID:` token, in chunk order |
| `CleavelandIds.ChunksHaveNoBlank` | filter-cleaveland-results.py:226 | no chunk of `re.split(r'\n\n+', ...)` contains two newlines in a row |
| `CleavelandIds.ChunksOfNoBlank` | filter-cleaveland-results.py:226 | a text without a blank line is one chunk |
| `CleavelandIds.SiteTokenFromLeftmost` | filter-cleaveland-results.py:230 | the token is that of the leftmost `SiteID:\s*(\S+)` match, and there is none only when no position matches |
| `CleavelandIds.CleanId` | filter-cleaveland-results.py:234 | the cleaned id is a prefix of the token without `:`, and is either the whole token or is followed in it by a `:`, i.e. it is cut at the first `:` |
| `CleavelandIds.ExtractIdsShape` | filter-cleaveland-results.py:226-235 | at most one id per chunk, and no id contains `:` or whitespace |
| `CleavelandIds.FilterAndCopyPdfs` | filter-cleaveland-results.py:259-278 | the selection loop over the `.pdf` names returns `SelectPdfs`, the listed names that are selected, in listing order |
| `CleavelandIds.SelectPdfsSpec` | filter-cleaveland-results.py:259-275 | a name is copied exactly when it is listed, ends in `.pdf` and its leftmost Sevir id is in `ids`; the copied names keep listing order |
| `CleavelandIds.SevirFromShape` | filter-cleaveland-results.py:265 | the Sevir id found is the leftmost match of `Sevir\.[\w\d]+\.\d+`, and none is found only when nothing matches |
| `CleavelandIds.SelectedShape` | filter-cleaveland-results.py:265-270 | the id of a selected name is in `ids`, starts with `Sevir.`, ends in a digit and occurs in the name |
| `SankeyJoin.FindColumns` | filter_script_for_sankey.py:22-26 | the `enumerate` loop sets each index to the last matching header cell |
| `SankeyJoin.ColumnIndexSpec` | filter_script_for_sankey.py:22-31 | a column index is the last cell whose stripped, lower-cased text is the name; there is none exactly when no cell matches |
| `SankeyJoin.GeneBase` | filter_script_for_sankey.py:42 | the base has no `.`; it is the whole gene without a dot, else the gene is the base, a dot and the rest |
| `SankeyJoin.LoadMirna` | filter_script_for_sankey.py:36-43 | the row loop returns the entries of the long-enough rows, in file order |
| `SankeyJoin.MirnaEntriesSpec` | filter_script_for_sankey.py:38-43 | an entry comes from each row longer than both indices and from no other row |
| `SankeyJoin.LoadAnnotations` | filter_script_for_sankey.py:76-83 | the row loop returns the dictionary of the long-enough rows, filled in file order |
| `Seqs.MapOfLastWins` | filter_script_for_sankey.py:79-83 | a key of a dictionary filled pair by pair is present exactly when some pair has it, with the value of the last such pair |
| `SankeyJoin.JoinAnnotations` | filter_script_for_sankey.py:94-108 | the output loop, fallback lookup included, returns `JoinRows`: one row per entry whose gene base has a non-empty function |
| `SankeyJoin.FallbackKey` | filter_script_for_sankey.py:97-103 | the fallback key is the gene base already looked up |
| `SankeyJoin.JoinRowsSpec` | filter_script_for_sankey.py:94-108 | every output row is `[id, gene base, function]` of an entry with a non-empty function, and every such entry has a row |
| `SankeyJoin.ProcessFiles` | filter_script_for_sankey.py:6-111 | returns the join rows, or stops on an empty file or a missing column before any output row |
| `MirnaMapping.ParseFasta` | miRNA_mapping_script.py:4-28 | the line loop returns `FastaMapping`, the dictionary of the header entries in file order |
| `MirnaMapping.ReadHeader` | miRNA_mapping_script.py:11-26 | a line gives an entry exactly when its stripped text starts with `>` and the rest holds a `_`; then the full name is the text after `>`, and it is the type (which has no `_`), `_` and the chromosome id, i.e. `split('_', 1)` cuts at the first `_` |
| `MirnaMapping.FastaMappingSpec` | miRNA_mapping_script.py:11-26 | a chromosome id is mapped exactly when a header carries it; the name is that of the last such header, and is the type, `_` and the id, with no `_` in the type |
| `MirnaMapping.NamesFromFasta` | miRNA_mapping_script.py:99-105 | the names written come from a header for that id, or are both `Unknown` and no header has it |
| `MirnaMapping.GeneOfSpec` | miRNA_mapping_script.py:95-96 | the gene is the whole target id without a dot, else the target id is the gene, a dot and a suffix without a dot |
| `MirnaMapping.ProcessTableToStdout` | miRNA_mapping_script.py:76-108 | writes the header, skips the first line (an empty table raises after the header), then the rows of `StdoutTable` |
| `MirnaMapping.StdoutRowsSpec` | miRNA_mapping_script.py:88-108 | one output line per data line with at least two fields, in order, built from its first two fields |
| `MirnaMapping.ProcessTable` | miRNA_mapping_script.py:30-56 | the file variant writes the header, skips the first line, then the rows of `FileTable` |
| `MirnaMapping.FileTableDropsGene` | miRNA_mapping_script.py:30-108 | the file variant writes the stdout variant's lines, header included, each without its Gene column, and raises in the same case |
| `TargetModules.ExtractAndPrintIds` | mirna-target-modules.py:7-41 | prints the header, then one row per qualifying line; `found_count` is the number of rows |
| `TargetModules.RowsSpec` | mirna-target-modules.py:18-34 | the rows are those of the lines that mention `T-Plot file:` and whose file name has at least four `_` parts, in input order, and the count is their number |
| `TargetModules.RowShape` | mirna-target-modules.py:22-33 | a row is two parts joined by `_`, a tab, and a third part, none holding `_` or `/` |
| `TargetModules.TPlotLineRow` | mirna-target-modules.py:19-33 | a T-Plot line with a directory and a name `<miRNA>_<site>_<target>_<rest>` yields `<miRNA>_<site>`, tab, `<target>` |
| `TargetModules.TPlotLineNoDirectory` | mirna-target-modules.py:22-33 | without a `/` the whole stripped line is split, so the miRNA id keeps the `T-Plot file: ` label |
| `FastqToFasta.ConvertFastqToFasta` | fastq_to_fasta.py:4-12 | the counting loop returns `Fasta` of the lines |
| `FastqToFasta.FastaShape` | fastq_to_fasta.py:7-12 | the output has two lines per whole record plus up to two for a partial one; output line `i` is the header of record `i / 2` with its first character replaced by `>` when `i` is even, and that record's sequence line verbatim when odd |
| `FastqToFasta.WholeRecords` | fastq_to_fasta.py:7-12 | `4n` input lines give `2n` output lines |
| `FastqToFasta.TrailingHeader` | fastq_to_fasta.py:9-10 | a trailing header line with nothing after it is still written |
| `Numerals.IntRoundTrip` | filter-cleaveland-results.py:95 | an int written with `str()` is read back by `int()` as the same int |

## Left out

- File and process plumbing: `open`, `readlines`, `print`, stderr messages, `argparse`,
  every `main`, `traceback`, and the existence check of the input file. Inputs are
  sequences of lines or rows; outputs are the lines written.
- The file-system side effects of `filter_and_copy_pdfs` (`os.makedirs`, `os.listdir`,
  `shutil.copy2`): the directory listing is a parameter and the copy is not modelled.
- `float()` and `str(float)` are parameters, so NaN and infinities are not modelled.
- `int()` accepts only an optional sign and ASCII digits: `_` separators, surrounding
  whitespace and non-ASCII digits are not modelled. Every string `int()` meets here is
  already stripped or a whitespace-free token.
- Unicode semantics of `strip()`, `split()`, `lower()`, `\s`, `\d` and `\w`: only ASCII
  classes are modelled.
- CSV quoting and escaping in the Sankey script: rows are given as sequences of fields,
  and the output file is the header row followed by the returned rows.
- A general round trip `parse(write(r)) == r` does not hold: absent scores are written as
  `N/A`, which `float()` rejects, and an absent category comes back as the text `N/A`.
  Only the site id is proved to read back (`CleavelandWrite.SiteLineReadsBack`).
- `filter_ids_annotation.py` is not part of this model: it is table handling by a
  data-frame library and HTML styling.
- The handler of `extract_and_print_ids` catches every exception, but only a read or
  decode error of the input can reach it; such an error ends the loop early, leaving the
  rows already printed and their count. Reading is not modelled, so the model always
  processes every line.
