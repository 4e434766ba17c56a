/**
 * `parse_cleaveland_output` of filter-cleaveland-results.py: a scanner over the
 * lines of a CleaveLand report that assembles one record per `SiteID:` line.
 *
 * The specification is `Parse`, an explicit fold over the lines; the scanner
 * itself is the method `ParseCleavelandOutput`, proved equal to it.  Python's
 * `float()` is the parameter `toReal`, so every fact here holds whatever the
 * float syntax is.
 */
module CleavelandParse {
  import opened Wrappers
  import opened Text
  import opened Numerals
  import opened Seqs

  /** A degradome category: the int when `int()` accepts the text, else the text. */
  datatype Category = Int(n: int) | Raw(text: string)

  /** One row of the position table: position, read count, category. */
  datatype Position = Position(position: int, readCount: int, category: int)

  /** One record; a None field is a key the Python dict never received. */
  datatype Record = Record(
    siteId: Option<string>,
    mfePerfect: Option<real>,
    mfeSite: Option<real>,
    mfeRatio: Option<real>,
    allenScore: Option<real>,
    pairedRegions: Option<seq<string>>,
    unpairedRegions: Option<seq<string>>,
    degradomeFile: Option<string>,
    degradomeCategory: Option<Category>,
    degradomePValue: Option<real>,
    tplotFile: Option<string>,
    positions: Option<seq<Position>>)

  const EmptyRecord := Record(None, None, None, None, None, None, None, None, None, None, None, None)

  /** Python's truth value of the record dict is false exactly when it has no key. */
  predicate IsEmpty(r: Record) { r == EmptyRecord }

  /** The fields read with `float()`. */
  datatype ScoreField = MfePerfect | MfeSite | MfeRatio | AllenScore | DegradomePValue

  /** The two region blocks. */
  datatype Block = PairedBlock | UnpairedBlock

  /** A line that sets or extends one field of the current record. */
  datatype FieldLine =
    | ScoreLine(field: ScoreField, text: string)
    | DegradomeFileLine(file: string)
    | CategoryLine(category: string)
    | TPlotLine(tplot: string)
    | PositionLine(parts: seq<string>)

  /** What a stripped line means to the scanner; `Ignored` is the silent default. */
  datatype LineKind =
    | SiteLine(id: string)
    | FieldSetter(f: FieldLine)
    | BlockStart(block: Block)
    | Ignored

  datatype ParseError = MalformedNumber(lineIndex: nat)

  /** `line.split(":")[1].strip()`: the stripped text between the first and the second colon. */
  function FieldText(line: string): (t: string)
    requires ':' in line
    ensures ':' !in t && IsStripped(t)
  {
    var part := SplitOn(line, ':')[1];
    StripChars(part);
    Strip(part)
  }

  /** For a line cut as `a:m` followed by nothing or by another `:`, where neither `a`
      nor `m` holds a colon, the field text is `m` stripped: the part between the first
      and the second colon, whatever follows the second. */
  lemma FieldTextBetweenColons(a: string, m: string, tail: string)
    requires ':' !in a && ':' !in m && (tail == [] || tail[0] == ':')
    ensures FieldText(a + ":" + m + tail) == Strip(m)
  {
    var line := a + ":" + m + tail;
    assert line == a + [':'] + (m + tail);
    SplitOnPrefix(a, m + tail, ':');
    if tail == [] {
      assert m + tail == m;
      assert |SplitOn(m, ':')| == 1;
      assert Join(SplitOn(m, ':'), [':']) == SplitOn(m, ':')[0];
    } else {
      assert m + tail == m + [':'] + tail[1..];
      SplitOnPrefix(m, tail[1..], ':');
    }
  }

  lemma ColonPrefix(line: string, prefix: string)
    requires StartsWith(line, prefix) && prefix != [] && prefix[|prefix| - 1] == ':'
    ensures ':' in line
  {
    StartsWithSlice(line, prefix);
    assert line[|prefix| - 1] == prefix[|prefix| - 1];
  }

  /** The regex `^\d+\s+\d+\s+\d+` on a stripped line. */
  predicate HasPositionPrefix(s: string) {
    var a := Span(s, IsDigit);
    var b := a + Span(s[a..], IsSpace);
    var c := b + Span(s[b..], IsDigit);
    var d := c + Span(s[c..], IsSpace);
    0 < a < b < c < d && Span(s[d..], IsDigit) > 0
  }

  /** What a line means once its prefix is known. */
  datatype Action =
    | Site
    | Score(field: ScoreField)
    | Region(block: Block)
    | DegradomeFile
    | DegradomeCategory
    | TPlot

  /** The prefixes the scanner's `if`/`elif` chain tests, in its order; a test of the
      form `startswith(a) or startswith(b)` is two consecutive rules. */
  const Rules: seq<(string, Action)> := [
    ("SiteID:", Site),
    ("MFE of perfect match:", Score(MfePerfect)),
    ("MFE of this site:", Score(MfeSite)),
    ("MFEratio:", Score(MfeRatio)),
    ("Allen et al. score:", Score(AllenScore)),
    ("Paired Regions", Region(PairedBlock)),
    ("Unpaired Regions", Region(UnpairedBlock)),
    ("Degradome data file:", DegradomeFile),
    ("Degardome data file:", DegradomeFile),
    ("Degradome Category:", DegradomeCategory),
    ("Degardome Category:", DegradomeCategory),
    ("Degradome p-value:", Score(DegradomePValue)),
    ("Degardome p-value:", Score(DegradomePValue)),
    ("T-Plot file:", TPlot)]

  /** Every rule but a region marker has a prefix ending in a colon, so the line has a
      field after it; only the first rule reads a site id. */
  predicate RuleShape(k: nat, prefix: string, action: Action)
  {
    && prefix != []
    && (action.Region? || prefix[|prefix| - 1] == ':')
    && (action.Site? <==> k == 0)
  }

  lemma RulesShape(k: nat)
    requires k < |Rules|
    ensures RuleShape(k, Rules[k].0, Rules[k].1)
  {
  }

  /** The meaning of a line that starts with the prefix of a rule. */
  function Apply(line: string, prefix: string, action: Action): (kind: LineKind)
    requires StartsWith(line, prefix) && prefix != []
    requires action.Region? || prefix[|prefix| - 1] == ':'
    ensures kind.SiteLine? <==> action.Site?
    ensures kind.SiteLine? ==> IsStripped(kind.id) && !Contains(kind.id, prefix)
    ensures kind.FieldSetter? ==> !kind.f.PositionLine? && ':' !in FieldValue(kind.f) && IsStripped(FieldValue(kind.f))
  {
    StartsWithSlice(line, prefix);
    if action.Region? then BlockStart(action.block)
    else
      ColonPrefix(line, prefix);
      match action
      case Site =>
        var before := BeforeOccurrence(line[|prefix|..], prefix);
        StripKeepsAbsent(before, prefix);
        SiteLine(Strip(before))
      case Score(field) => FieldSetter(ScoreLine(field, FieldText(line)))
      case DegradomeFile => FieldSetter(DegradomeFileLine(FieldText(line)))
      case DegradomeCategory => FieldSetter(CategoryLine(FieldText(line)))
      case TPlot => FieldSetter(TPlotLine(FieldText(line)))
  }

  /** The chain from rule `k` on; a line no prefix matches is a position row when it
      matches the regex, and is otherwise ignored. */
  function ClassifyFrom(line: string, k: nat): LineKind
    requires k <= |Rules|
    decreases |Rules| - k
  {
    if k == |Rules| then
      if HasPositionPrefix(line) then FieldSetter(PositionLine(Words(line))) else Ignored
    else if StartsWith(line, Rules[k].0) then
      RulesShape(k);
      Apply(line, Rules[k].0, Rules[k].1)
    else
      ClassifyFrom(line, k + 1)
  }

  /** Rules after the first never give a site line, and a field line other than a
      position row carries stripped text without a colon. */
  lemma {:induction false} ClassifyFromShape(line: string, k: nat)
    requires k <= |Rules|
    ensures var kind := ClassifyFrom(line, k);
      && (kind.SiteLine? <==> k == 0 && StartsWith(line, Rules[0].0))
      && (kind.SiteLine? ==> IsStripped(kind.id) && !Contains(kind.id, Rules[0].0))
      && (kind.FieldSetter? && !kind.f.PositionLine? ==> ':' !in FieldValue(kind.f) && IsStripped(FieldValue(kind.f)))
    decreases |Rules| - k
  {
    if k < |Rules| {
      RulesShape(k);
      if !StartsWith(line, Rules[k].0) {
        ClassifyFromShape(line, k + 1);
      }
    }
  }

  /** The whole `if`/`elif` chain on a stripped line. */
  function Classify(line: string): (kind: LineKind)
    ensures kind.SiteLine? <==> StartsWith(line, "SiteID:")
    ensures kind.SiteLine? ==> IsStripped(kind.id) && !Contains(kind.id, "SiteID:")
    ensures kind.FieldSetter? && !kind.f.PositionLine? ==> ':' !in FieldValue(kind.f) && IsStripped(FieldValue(kind.f))
  {
    ClassifyFromShape(line, 0);
    ClassifyFrom(line, 0)
  }

  /** A line that starts with `SiteID:` is a site line whose id is the stripped text
      between that tag and the next one (`line.split("SiteID:")[1].strip()`). */
  lemma ClassifySite(line: string)
    requires StartsWith(line, "SiteID:")
    ensures |line| >= 7
    ensures Classify(line) == SiteLine(Strip(BeforeOccurrence(line[7..], "SiteID:")))
  {
    StartsWithSlice(line, "SiteID:");
  }

  /** The text a non-position field line carries. */
  function FieldValue(f: FieldLine): string
  {
    match f
    case ScoreLine(_, text) => text
    case DegradomeFileLine(file) => file
    case CategoryLine(category) => category
    case TPlotLine(tplot) => tplot
    case PositionLine(_) => []
  }

  function SetScore(r: Record, field: ScoreField, x: real): Record
  {
    match field
    case MfePerfect => r.(mfePerfect := Some(x))
    case MfeSite => r.(mfeSite := Some(x))
    case MfeRatio => r.(mfeRatio := Some(x))
    case AllenScore => r.(allenScore := Some(x))
    case DegradomePValue => r.(degradomePValue := Some(x))
  }

  /** `int()` on the category text, keeping the text when it is not an int. */
  function ReadCategory(text: string): Category
  {
    match ParseInt(text)
    case Some(n) => Int(n)
    case None => Raw(text)
  }

  /** A field line that makes `float()` or `int()` raise ValueError. */
  predicate Malformed(f: FieldLine, toReal: string -> Option<real>)
  {
    match f
    case ScoreLine(_, text) => toReal(text).None?
    case PositionLine(parts) =>
      |parts| >= 3 && (ParseInt(parts[0]).None? || ParseInt(parts[1]).None? || ParseInt(parts[2]).None?)
    case _ => false
  }

  /** The effect of one field line on the current record; None where Python raises. */
  function SetField(r: Record, f: FieldLine, toReal: string -> Option<real>): (next: Option<Record>)
    ensures next.None? <==> Malformed(f, toReal)
    ensures next.Some? ==> !IsEmpty(next.value) && next.value.siteId == r.siteId
  {
    match f
    case ScoreLine(field, text) =>
      (match toReal(text)
       case None => None
       case Some(x) => Some(SetScore(r, field, x)))
    case DegradomeFileLine(file) => Some(r.(degradomeFile := Some(file)))
    case CategoryLine(text) => Some(r.(degradomeCategory := Some(ReadCategory(text))))
    case TPlotLine(tplot) => Some(r.(tplotFile := Some(tplot)))
    case PositionLine(parts) =>
      var started := r.(positions := Some(if r.positions.Some? then r.positions.value else []));
      if |parts| >= 3 then
        (match (ParseInt(parts[0]), ParseInt(parts[1]), ParseInt(parts[2]))
         case (Some(p), Some(n), Some(c)) =>
           Some(started.(positions := Some(started.positions.value + [Position(p, n, c)])))
         case _ => None)
      else Some(started)
  }

  function Marker(b: Block): string
  {
    match b
    case PairedBlock => "Paired Regions"
    case UnpairedBlock => "Unpaired Regions"
  }

  /** The sentinel that ends a block; the sentinel line itself is scanned again. */
  predicate EndsBlock(b: Block, line: string)
  {
    match b
    case PairedBlock => StartsWith(line, "Unpaired Regions")
    case UnpairedBlock => StartsWith(line, "Degradome") || StartsWith(line, "Degardome")
  }

  /** A stripped line inside a block is kept when it is non-empty and does not repeat the
      block's marker. */
  function KeptLine(line: string, b: Block): seq<string>
  {
    if line != [] && !StartsWith(line, Marker(b)) then [line] else []
  }

  lemma KeptLineShape(line: string, b: Block)
    ensures forall r :: r in KeptLine(line, b) ==> r == line && line != [] && !StartsWith(line, Marker(b))
  {
  }

  /** The stripped lines among `lines[i..j]` that a block keeps, in their order. */
  function KeptBetween(lines: seq<string>, i: nat, j: nat, b: Block): seq<string>
    requires i <= j <= |lines|
    decreases j - i
  {
    if i == j then [] else KeptLine(Strip(lines[i]), b) + KeptBetween(lines, i + 1, j, b)
  }

  /** Every kept region is a non-empty stripped line that does not repeat the marker. */
  lemma {:induction false} KeptBetweenShape(lines: seq<string>, i: nat, j: nat, b: Block)
    requires i <= j <= |lines|
    ensures forall r :: r in KeptBetween(lines, i, j, b) ==> r != [] && IsStripped(r) && !StartsWith(r, Marker(b))
    decreases j - i
  {
    if i < j {
      var line := Strip(lines[i]);
      var here, rest := KeptLine(line, b), KeptBetween(lines, i + 1, j, b);
      KeptBetweenShape(lines, i + 1, j, b);
      KeptLineShape(line, b);
      assert KeptBetween(lines, i, j, b) == here + rest;
      forall r | r in here + rest
        ensures r != [] && IsStripped(r) && !StartsWith(r, Marker(b))
      {
        if r in here {
          assert r == line;
        }
      }
    }
  }

  /** The scan of a block from line `i` on, with the regions kept so far in `acc`: the
      regions of the whole block and the index of the line the block stops at. */
  function CollectFrom(lines: seq<string>, i: nat, b: Block, acc: seq<string>): (r: (seq<string>, nat))
    requires i <= |lines|
    ensures i <= r.1 <= |lines|
    decreases |lines| - i
  {
    if i == |lines| || EndsBlock(b, Strip(lines[i])) then (acc, i)
    else
      CollectFrom(lines, i + 1, b, acc + KeptLine(Strip(lines[i]), b))
  }

  /** The regions of a block whose first line is `lines[i]`, and the index of the line
      the block stops at. */
  function CollectRegions(lines: seq<string>, i: nat, b: Block): (seq<string>, nat)
    requires i <= |lines|
  {
    CollectFrom(lines, i, b, [])
  }

  /** A block stops at a sentinel line or at the end of the input ... */
  lemma {:induction false} CollectFromEnd(lines: seq<string>, i: nat, b: Block, acc: seq<string>)
    requires i <= |lines|
    ensures var j := CollectFrom(lines, i, b, acc).1;
      j < |lines| ==> EndsBlock(b, Strip(lines[j]))
    decreases |lines| - i
  {
    if i < |lines| && !EndsBlock(b, Strip(lines[i])) {
      CollectFromEnd(lines, i + 1, b, acc + KeptLine(Strip(lines[i]), b));
    }
  }

  /** ... and no line before that one is a sentinel: the block ends at the first. */
  lemma {:induction false} CollectFromBefore(lines: seq<string>, i: nat, b: Block, acc: seq<string>, k: nat)
    requires i <= |lines| && i <= k < CollectFrom(lines, i, b, acc).1
    ensures !EndsBlock(b, Strip(lines[k]))
    decreases k - i
  {
    if k > i {
      CollectFromBefore(lines, i + 1, b, acc + KeptLine(Strip(lines[i]), b), k);
    }
  }

  /** A block keeps exactly the non-empty stripped lines before its end that do not
      repeat the marker, in their order. */
  lemma {:induction false} CollectFromKept(lines: seq<string>, i: nat, b: Block, acc: seq<string>)
    requires i <= |lines|
    ensures var r := CollectFrom(lines, i, b, acc);
      r.0 == acc + KeptBetween(lines, i, r.1, b)
    decreases |lines| - i
  {
    var j := CollectFrom(lines, i, b, acc).1;
    if i < |lines| && !EndsBlock(b, Strip(lines[i])) {
      var kept := KeptLine(Strip(lines[i]), b);
      assert CollectFrom(lines, i, b, acc) == CollectFrom(lines, i + 1, b, acc + kept);
      CollectFromKept(lines, i + 1, b, acc + kept);
      var rest := KeptBetween(lines, i + 1, j, b);
      assert KeptBetween(lines, i, j, b) == kept + rest;
      AppendAssoc(acc, kept, rest);
    } else {
      assert acc + [] == acc;
    }
  }

  lemma AppendAssoc(a: seq<string>, b: seq<string>, c: seq<string>)
    ensures a + b + c == a + (b + c)
  {
  }

  /** `CollectFromEnd`, `CollectFromBefore` and `CollectFromKept` for a whole block. */
  lemma CollectRegionsSpec(lines: seq<string>, i: nat, b: Block)
    requires i <= |lines|
    ensures var r := CollectRegions(lines, i, b);
      && i <= r.1 <= |lines|
      && (forall k :: i <= k < r.1 ==> !EndsBlock(b, Strip(lines[k])))
      && (r.1 < |lines| ==> EndsBlock(b, Strip(lines[r.1])))
      && r.0 == KeptBetween(lines, i, r.1, b)
  {
    CollectFromEnd(lines, i, b, []);
    forall k | i <= k < CollectRegions(lines, i, b).1
      ensures !EndsBlock(b, Strip(lines[k]))
    {
      CollectFromBefore(lines, i, b, [], k);
    }
    CollectFromKept(lines, i, b, []);
  }

  function SetRegions(r: Record, b: Block, regions: seq<string>): (next: Record)
    ensures !IsEmpty(next) && next.siteId == r.siteId
  {
    match b
    case PairedBlock => r.(pairedRegions := Some(regions))
    case UnpairedBlock => r.(unpairedRegions := Some(regions))
  }

  /** Append the current record to the finished ones unless it is empty. */
  function Flush(done: seq<Record>, cur: Record): seq<Record>
  {
    if IsEmpty(cur) then done else done + [cur]
  }

  /** The scan from line `i` on, with `cur` the record being assembled and `done` the
      records already closed. */
  function ParseFrom(lines: seq<string>, toReal: string -> Option<real>, i: nat, cur: Record, done: seq<Record>)
    : Result<seq<Record>, ParseError>
    requires i <= |lines|
    decreases |lines| - i
  {
    if i == |lines| then Success(Flush(done, cur))
    else
      match Classify(Strip(lines[i]))
      case SiteLine(id) =>
        ParseFrom(lines, toReal, i + 1, EmptyRecord.(siteId := Some(id)), Flush(done, cur))
      case BlockStart(b) =>
        var (regions, j) := CollectRegions(lines, i + 1, b);
        ParseFrom(lines, toReal, j, SetRegions(cur, b, regions), done)
      case FieldSetter(f) =>
        (match SetField(cur, f, toReal)
         case None => Failure(MalformedNumber(i))
         case Some(next) => ParseFrom(lines, toReal, i + 1, next, done))
      case Ignored =>
        ParseFrom(lines, toReal, i + 1, cur, done)
  }

  /** One step of `ParseFrom`, at a `SiteID:` line. */
  lemma SiteStep(lines: seq<string>, toReal: string -> Option<real>, i: nat, cur: Record, done: seq<Record>, id: string)
    requires i < |lines| && Classify(Strip(lines[i])) == SiteLine(id)
    ensures ParseFrom(lines, toReal, i, cur, done)
         == ParseFrom(lines, toReal, i + 1, EmptyRecord.(siteId := Some(id)), Flush(done, cur))
  {
  }

  /** One step of `ParseFrom`, at a region marker: the whole block is consumed. */
  lemma BlockStep(lines: seq<string>, toReal: string -> Option<real>, i: nat, cur: Record, done: seq<Record>, b: Block)
    requires i < |lines| && Classify(Strip(lines[i])) == BlockStart(b)
    ensures var r := CollectRegions(lines, i + 1, b);
      ParseFrom(lines, toReal, i, cur, done) == ParseFrom(lines, toReal, r.1, SetRegions(cur, b, r.0), done)
  {
  }

  /** One step of `ParseFrom`, at a field line. */
  lemma FieldStep(lines: seq<string>, toReal: string -> Option<real>, i: nat, cur: Record, done: seq<Record>, f: FieldLine)
    requires i < |lines| && Classify(Strip(lines[i])) == FieldSetter(f)
    ensures ParseFrom(lines, toReal, i, cur, done)
         == match SetField(cur, f, toReal)
            case None => Failure(MalformedNumber(i))
            case Some(next) => ParseFrom(lines, toReal, i + 1, next, done)
  {
  }

  /** One step of `ParseFrom`, at a line the scanner ignores. */
  lemma IgnoredStep(lines: seq<string>, toReal: string -> Option<real>, i: nat, cur: Record, done: seq<Record>)
    requires i < |lines| && Classify(Strip(lines[i])) == Ignored
    ensures ParseFrom(lines, toReal, i, cur, done) == ParseFrom(lines, toReal, i + 1, cur, done)
  {
  }

  /** The records of a report, or the index of the first line that made the scan raise. */
  function Parse(lines: seq<string>, toReal: string -> Option<real>): Result<seq<Record>, ParseError>
  {
    ParseFrom(lines, toReal, 0, EmptyRecord, [])
  }

  /** A site id as the scanner stores it: stripped, and without a second `SiteID:`. */
  predicate WellFormedId(r: Record)
  {
    r.siteId.Some? ==> IsStripped(r.siteId.value) && !Contains(r.siteId.value, "SiteID:")
  }

  /** The shape of the records a successful scan returns: none is empty, every one after
      the first was opened by a `SiteID:` line, and every site id is well formed. */
  predicate WellFormedRecords(rs: seq<Record>)
  {
    && (forall k :: 0 <= k < |rs| ==> !IsEmpty(rs[k]) && WellFormedId(rs[k]))
    && (forall k :: 1 <= k < |rs| ==> rs[k].siteId.Some?)
  }

  /** What the scan keeps true of the closed records and the open one. */
  predicate ScanState(cur: Record, done: seq<Record>)
  {
    && WellFormedRecords(done)
    && WellFormedId(cur)
    && (done != [] ==> cur.siteId.Some?)
  }

  lemma FlushKeepsShape(cur: Record, done: seq<Record>)
    requires ScanState(cur, done)
    ensures WellFormedRecords(Flush(done, cur))
  {
    if !IsEmpty(cur) {
      var rs := done + [cur];
      assert forall k :: 0 <= k < |done| ==> rs[k] == done[k];
    }
  }

  lemma {:induction false} ParseFromShape(lines: seq<string>, toReal: string -> Option<real>, i: nat, cur: Record, done: seq<Record>)
    requires i <= |lines| && ScanState(cur, done)
    ensures ParseFrom(lines, toReal, i, cur, done).Success? ==> WellFormedRecords(ParseFrom(lines, toReal, i, cur, done).value)
    decreases |lines| - i
  {
    if i == |lines| {
      FlushKeepsShape(cur, done);
    } else {
      match Classify(Strip(lines[i]))
      case SiteLine(id) =>
        FlushKeepsShape(cur, done);
        ParseFromShape(lines, toReal, i + 1, EmptyRecord.(siteId := Some(id)), Flush(done, cur));
      case BlockStart(b) =>
        var r := CollectRegions(lines, i + 1, b);
        ParseFromShape(lines, toReal, r.1, SetRegions(cur, b, r.0), done);
      case FieldSetter(f) =>
        var next := SetField(cur, f, toReal);
        if next.Some? {
          ParseFromShape(lines, toReal, i + 1, next.value, done);
        }
      case Ignored =>
        ParseFromShape(lines, toReal, i + 1, cur, done);
    }
  }

  /** The records of a successful parse: none is empty, every one but the first begins at
      a `SiteID:` line, and every site id is stripped and holds no second `SiteID:`. */
  lemma ParsedRecordsShape(lines: seq<string>, toReal: string -> Option<real>)
    ensures Parse(lines, toReal).Success? ==> WellFormedRecords(Parse(lines, toReal).value)
  {
    ParseFromShape(lines, toReal, 0, EmptyRecord, []);
  }

  /** A line the scanner reads as a field whose number `float()` or `int()` rejects. */
  predicate MalformedAt(lines: seq<string>, toReal: string -> Option<real>, k: nat)
    requires k < |lines|
  {
    var kind := Classify(Strip(lines[k]));
    kind.FieldSetter? && Malformed(kind.f, toReal)
  }

  /** The index the scan moves to from line `i`: past the whole block at a region
      marker, else the next line. */
  function NextScan(lines: seq<string>, i: nat): (j: nat)
    requires i < |lines|
    ensures i < j <= |lines|
  {
    match Classify(Strip(lines[i]))
    case BlockStart(b) => CollectRegions(lines, i + 1, b).1
    case _ => i + 1
  }

  /** The indexes of the lines the scan classifies from line `i` on, in order: every line
      but those a region block consumes. */
  function ScanPoints(lines: seq<string>, i: nat): (pts: seq<nat>)
    requires i <= |lines|
    ensures forall k :: 0 <= k < |pts| ==> i <= pts[k] < |lines|
    decreases |lines| - i
  {
    if i == |lines| then [] else [i] + ScanPoints(lines, NextScan(lines, i))
  }

  /** The site ids of the `SiteID:` lines among the scan points, in order. */
  function SiteIdsAt(lines: seq<string>, pts: seq<nat>): seq<Option<string>>
    requires forall k :: 0 <= k < |pts| ==> pts[k] < |lines|
  {
    if pts == [] then []
    else SiteIdAt(lines, pts[0]) + SiteIdsAt(lines, pts[1..])
  }

  /** The id of line `k` when it is a `SiteID:` line. */
  function SiteIdAt(lines: seq<string>, k: nat): seq<Option<string>>
    requires k < |lines|
  {
    match Classify(Strip(lines[k])) case SiteLine(id) => [Some(id)] case _ => []
  }

  /** Some scan point from line `i` on, before the next `SiteID:` line, sets a field or
      opens a region block, and so fills the record open at `i`. */
  predicate PreambleSets(lines: seq<string>, i: nat)
    requires i <= |lines|
    decreases |lines| - i
  {
    if i == |lines| then false
    else
      match Classify(Strip(lines[i]))
      case SiteLine(_) => false
      case Ignored => PreambleSets(lines, i + 1)
      case _ => true
  }

  /** The site ids of a list of records, in order. */
  function SiteIds(rs: seq<Record>): seq<Option<string>>
  {
    if rs == [] then [] else SiteIds(rs[..|rs| - 1]) + [rs[|rs| - 1].siteId]
  }

  lemma SiteIdsFlush(done: seq<Record>, cur: Record)
    ensures SiteIds(Flush(done, cur)) == SiteIds(done) + (if IsEmpty(cur) then [] else [cur.siteId])
  {
    if !IsEmpty(cur) {
      assert (done + [cur])[..|done|] == done;
    }
  }

  lemma ScanPointsStep(lines: seq<string>, i: nat)
    requires i < |lines|
    ensures var pts := ScanPoints(lines, i);
      pts != [] && pts[0] == i && pts[1..] == ScanPoints(lines, NextScan(lines, i))
  {
    var pts := ScanPoints(lines, i);
    assert pts == [i] + ScanPoints(lines, NextScan(lines, i));
  }

  lemma SiteIdsAtStep(lines: seq<string>, i: nat)
    requires i < |lines|
    ensures SiteIdsAt(lines, ScanPoints(lines, i))
         == SiteIdAt(lines, i) + SiteIdsAt(lines, ScanPoints(lines, NextScan(lines, i)))
  {
    ScanPointsStep(lines, i);
  }

  /** How the site ids of the scan from `i` follow from those of the scan from the next
      point, given what line `i` does to the records. */
  lemma IdsStep(closed: seq<Option<string>>, lead: seq<Option<string>>, here: seq<Option<string>>,
                rest: seq<Option<string>>, closed': seq<Option<string>>, lead': seq<Option<string>>)
    requires closed' + lead' == closed + lead + here
    ensures closed' + lead' + rest == closed + lead + (here + rest)
  {
  }

  /** The ids the scan from line `i` returns, given the closed records and the open one. */
  function ExpectedIds(lines: seq<string>, i: nat, cur: Record, done: seq<Record>): seq<Option<string>>
    requires i <= |lines|
  {
    SiteIds(done) + (if !IsEmpty(cur) || PreambleSets(lines, i) then [cur.siteId] else [])
    + SiteIdsAt(lines, ScanPoints(lines, i))
  }

  predicate IdsHold(lines: seq<string>, toReal: string -> Option<real>, i: nat, cur: Record, done: seq<Record>)
    requires i <= |lines|
  {
    var res := ParseFrom(lines, toReal, i, cur, done);
    res.Success? ==> SiteIds(res.value) == ExpectedIds(lines, i, cur, done)
  }

  lemma IdsAtSiteLine(lines: seq<string>, toReal: string -> Option<real>, i: nat, cur: Record, done: seq<Record>, id: string)
    requires i < |lines| && Classify(Strip(lines[i])) == SiteLine(id)
    requires IdsHold(lines, toReal, i + 1, EmptyRecord.(siteId := Some(id)), Flush(done, cur))
    ensures IdsHold(lines, toReal, i, cur, done)
  {
    var lead: seq<Option<string>> := if !IsEmpty(cur) || PreambleSets(lines, i) then [cur.siteId] else [];
    var rest := SiteIdsAt(lines, ScanPoints(lines, i + 1));
    SiteStep(lines, toReal, i, cur, done, id);
    SiteIdsAtStep(lines, i);
    SiteIdsFlush(done, cur);
    IdsStep(SiteIds(done), lead, [Some(id)], rest, SiteIds(Flush(done, cur)), [Some(id)]);
  }

  lemma IdsAtBlock(lines: seq<string>, toReal: string -> Option<real>, i: nat, cur: Record, done: seq<Record>, b: Block)
    requires i < |lines| && Classify(Strip(lines[i])) == BlockStart(b)
    requires var r := CollectRegions(lines, i + 1, b);
      IdsHold(lines, toReal, r.1, SetRegions(cur, b, r.0), done)
    ensures IdsHold(lines, toReal, i, cur, done)
  {
    var lead: seq<Option<string>> := if !IsEmpty(cur) || PreambleSets(lines, i) then [cur.siteId] else [];
    var rest := SiteIdsAt(lines, ScanPoints(lines, NextScan(lines, i)));
    BlockStep(lines, toReal, i, cur, done, b);
    SiteIdsAtStep(lines, i);
    IdsStep(SiteIds(done), lead, [], rest, SiteIds(done), lead);
  }

  lemma IdsAtField(lines: seq<string>, toReal: string -> Option<real>, i: nat, cur: Record, done: seq<Record>, f: FieldLine)
    requires i < |lines| && Classify(Strip(lines[i])) == FieldSetter(f)
    requires SetField(cur, f, toReal).Some? ==> IdsHold(lines, toReal, i + 1, SetField(cur, f, toReal).value, done)
    ensures IdsHold(lines, toReal, i, cur, done)
  {
    var lead: seq<Option<string>> := if !IsEmpty(cur) || PreambleSets(lines, i) then [cur.siteId] else [];
    var rest := SiteIdsAt(lines, ScanPoints(lines, i + 1));
    FieldStep(lines, toReal, i, cur, done, f);
    assert NextScan(lines, i) == i + 1 && PreambleSets(lines, i);
    SiteIdsAtStep(lines, i);
    IdsStep(SiteIds(done), lead, [], rest, SiteIds(done), lead);
  }

  lemma IdsAtIgnored(lines: seq<string>, toReal: string -> Option<real>, i: nat, cur: Record, done: seq<Record>)
    requires i < |lines| && Classify(Strip(lines[i])) == Ignored
    requires IdsHold(lines, toReal, i + 1, cur, done)
    ensures IdsHold(lines, toReal, i, cur, done)
  {
    var lead: seq<Option<string>> := if !IsEmpty(cur) || PreambleSets(lines, i) then [cur.siteId] else [];
    var rest := SiteIdsAt(lines, ScanPoints(lines, i + 1));
    IgnoredStep(lines, toReal, i, cur, done);
    assert NextScan(lines, i) == i + 1;
    assert PreambleSets(lines, i) == PreambleSets(lines, i + 1);
    SiteIdsAtStep(lines, i);
    IdsStep(SiteIds(done), lead, [], rest, SiteIds(done), lead);
  }

  /** The site ids of the records the scan from line `i` returns: those closed so far, the
      open record's when it is or becomes non-empty, and one per `SiteID:` line it reaches. */
  lemma {:induction false} ParseFromIds(lines: seq<string>, toReal: string -> Option<real>, i: nat, cur: Record, done: seq<Record>)
    requires i <= |lines|
    ensures IdsHold(lines, toReal, i, cur, done)
    decreases |lines| - i
  {
    if i == |lines| {
      SiteIdsFlush(done, cur);
    } else {
      match Classify(Strip(lines[i]))
      case SiteLine(id) =>
        ParseFromIds(lines, toReal, i + 1, EmptyRecord.(siteId := Some(id)), Flush(done, cur));
        IdsAtSiteLine(lines, toReal, i, cur, done, id);
      case BlockStart(b) =>
        var r := CollectRegions(lines, i + 1, b);
        ParseFromIds(lines, toReal, r.1, SetRegions(cur, b, r.0), done);
        IdsAtBlock(lines, toReal, i, cur, done, b);
      case FieldSetter(f) =>
        var next := SetField(cur, f, toReal);
        if next.Some? {
          ParseFromIds(lines, toReal, i + 1, next.value, done);
        }
        IdsAtField(lines, toReal, i, cur, done, f);
      case Ignored =>
        ParseFromIds(lines, toReal, i + 1, cur, done);
        IdsAtIgnored(lines, toReal, i, cur, done);
    }
  }

  /** The records of a successful parse are, in order, a record without a site id exactly
      when a field or region block comes before the first `SiteID:` line, and then one
      record per `SiteID:` line the scan reaches, holding that line's id. */
  lemma ParsedRecordIds(lines: seq<string>, toReal: string -> Option<real>)
    ensures Parse(lines, toReal).Success? ==>
      (SiteIds(Parse(lines, toReal).value)
        == (if PreambleSets(lines, 0) then [None] else []) + SiteIdsAt(lines, ScanPoints(lines, 0)))
  {
    ParseFromIds(lines, toReal, 0, EmptyRecord, []);
    var lead: seq<Option<string>> := if PreambleSets(lines, 0) then [None] else [];
    assert SiteIds([]) == [];
    assert [] + lead == lead;
  }

  /** The scan from line `i` fails exactly when one of its scan points is a malformed
      field line, and then at the first such point. */
  predicate FailsAtFirstMalformed(lines: seq<string>, toReal: string -> Option<real>, i: nat, cur: Record, done: seq<Record>)
    requires i <= |lines|
  {
    var res, pts := ParseFrom(lines, toReal, i, cur, done), ScanPoints(lines, i);
    && (res.Failure? <==> exists k :: k in pts && MalformedAt(lines, toReal, k))
    && (res.Failure? ==>
          && res.error.lineIndex in pts && MalformedAt(lines, toReal, res.error.lineIndex)
          && forall k :: k in pts && k < res.error.lineIndex ==> !MalformedAt(lines, toReal, k))
  }

  /** A line whose field does not convert ends the scan there. */
  lemma FailsHere(lines: seq<string>, toReal: string -> Option<real>, i: nat, cur: Record, done: seq<Record>, f: FieldLine)
    requires i < |lines| && Classify(Strip(lines[i])) == FieldSetter(f) && SetField(cur, f, toReal).None?
    ensures FailsAtFirstMalformed(lines, toReal, i, cur, done)
  {
    var pts := ScanPoints(lines, i);
    FieldStep(lines, toReal, i, cur, done, f);
    ScanPointsStep(lines, i);
    assert MalformedAt(lines, toReal, i);
    assert i in pts;
  }

  /** At any other line the scan goes on from the next scan point, where the property
      already holds. */
  lemma FailsLater(lines: seq<string>, toReal: string -> Option<real>, i: nat, cur: Record, done: seq<Record>,
                   cur': Record, done': seq<Record>)
    requires i < |lines| && !MalformedAt(lines, toReal, i)
    requires ParseFrom(lines, toReal, i, cur, done) == ParseFrom(lines, toReal, NextScan(lines, i), cur', done')
    requires FailsAtFirstMalformed(lines, toReal, NextScan(lines, i), cur', done')
    ensures FailsAtFirstMalformed(lines, toReal, i, cur, done)
  {
    var pts, rest := ScanPoints(lines, i), ScanPoints(lines, NextScan(lines, i));
    ScanPointsStep(lines, i);
    assert pts == [i] + rest;
    assert forall k :: k in pts <==> k == i || k in rest;
  }

  lemma {:induction false} ParseFromFailure(lines: seq<string>, toReal: string -> Option<real>, i: nat, cur: Record, done: seq<Record>)
    requires i <= |lines|
    ensures FailsAtFirstMalformed(lines, toReal, i, cur, done)
    decreases |lines| - i
  {
    if i < |lines| {
      match Classify(Strip(lines[i]))
      case SiteLine(id) =>
        var started := EmptyRecord.(siteId := Some(id));
        SiteStep(lines, toReal, i, cur, done, id);
        ParseFromFailure(lines, toReal, i + 1, started, Flush(done, cur));
        FailsLater(lines, toReal, i, cur, done, started, Flush(done, cur));
      case BlockStart(b) =>
        var r := CollectRegions(lines, i + 1, b);
        BlockStep(lines, toReal, i, cur, done, b);
        ParseFromFailure(lines, toReal, r.1, SetRegions(cur, b, r.0), done);
        FailsLater(lines, toReal, i, cur, done, SetRegions(cur, b, r.0), done);
      case FieldSetter(f) =>
        FieldStep(lines, toReal, i, cur, done, f);
        if SetField(cur, f, toReal).None? {
          FailsHere(lines, toReal, i, cur, done, f);
        } else {
          var next := SetField(cur, f, toReal).value;
          ParseFromFailure(lines, toReal, i + 1, next, done);
          FailsLater(lines, toReal, i, cur, done, next, done);
        }
      case Ignored =>
        IgnoredStep(lines, toReal, i, cur, done);
        ParseFromFailure(lines, toReal, i + 1, cur, done);
        FailsLater(lines, toReal, i, cur, done, cur, done);
    }
  }

  /** The parse fails exactly when a line the scan reaches is a field line whose number
      does not convert, and it reports the first such line; so a report without such a
      line parses successfully. */
  lemma ParseFailsOnlyAtMalformed(lines: seq<string>, toReal: string -> Option<real>)
    ensures var pts := ScanPoints(lines, 0);
      Parse(lines, toReal).Failure? <==> exists k :: k in pts && MalformedAt(lines, toReal, k)
    ensures Parse(lines, toReal).Failure? ==>
      var k, pts := Parse(lines, toReal).error.lineIndex, ScanPoints(lines, 0);
      && k in pts && k < |lines| && MalformedAt(lines, toReal, k)
      && forall j :: j in pts && j < k ==> !MalformedAt(lines, toReal, j)
    ensures (forall k :: 0 <= k < |lines| ==> !MalformedAt(lines, toReal, k)) ==> Parse(lines, toReal).Success?
  {
    ParseFromFailure(lines, toReal, 0, EmptyRecord, []);
  }

  /** The inner loop of the scanner over one region block, starting at the line after
      the marker. */
  method ReadBlock(lines: seq<string>, start: nat, b: Block) returns (regions: seq<string>, end: nat)
    requires start <= |lines|
    ensures regions == CollectRegions(lines, start, b).0
    ensures end == CollectRegions(lines, start, b).1
  {
    regions := [];
    end := start;
    while end < |lines| && !EndsBlock(b, Strip(lines[end]))
      invariant start <= end <= |lines|
      invariant CollectFrom(lines, end, b, regions) == CollectRegions(lines, start, b)
      decreases |lines| - end
    {
      var region := Strip(lines[end]);
      if region != [] && !StartsWith(region, Marker(b)) {
        regions := regions + [region];
      } else {
        assert regions + [] == regions;
      }
      end := end + 1;
    }
  }

  /** The scanner: an index over the lines, an accumulator record and a list of records. */
  method ParseCleavelandOutput(lines: seq<string>, toReal: string -> Option<real>)
    returns (result: Result<seq<Record>, ParseError>)
    ensures result == Parse(lines, toReal)
  {
    var records: seq<Record> := [];
    var current := EmptyRecord;
    var i := 0;
    while i < |lines|
      invariant i <= |lines|
      invariant ParseFrom(lines, toReal, i, current, records) == Parse(lines, toReal)
      decreases |lines| - i
    {
      var line := Strip(lines[i]);
      var kind := Classify(line);
      match kind {
      case SiteLine(id) =>
        SiteStep(lines, toReal, i, current, records, id);
        if !IsEmpty(current) {
          records := records + [current];
          current := EmptyRecord;
        }
        current := current.(siteId := Some(id));
      case BlockStart(b) =>
        BlockStep(lines, toReal, i, current, records, b);
        var regions, end := ReadBlock(lines, i + 1, b);
        i := end;
        current := SetRegions(current, b, regions);
        continue;
      case FieldSetter(f) =>
        FieldStep(lines, toReal, i, current, records, f);
        var next := SetField(current, f, toReal);
        if next.None? {
          return Failure(MalformedNumber(i));
        }
        current := next.value;
      case Ignored =>
        IgnoredStep(lines, toReal, i, current, records);
      }
      i := i + 1;
    }
    result := Success(if IsEmpty(current) then records else records + [current]);
  }
}
