/**
 * `extract_ids_from_cleaveland` and the file-name selection of `filter_and_copy_pdfs` in
 * filter-cleaveland-results.py.  The three regular expressions they use are written out
 * as functions on ASCII text: `re.split(r'\n\n+', ...)` is `Chunks`,
 * `re.search(r'SiteID:\s*(\S+)', ...)` is `SiteToken` and
 * `re.search(r'Sevir\.[\w\d]+\.\d+', ...)` is `SevirId`.
 */
module CleavelandIds {
  import opened Wrappers
  import opened Text
  import opened Seqs

  // ---------------------------------------------------------------------------------
  // Splitting the file text at blank lines

  /** The index just past the run of newlines that starts at `i`. */
  function NewlineRunEnd(s: string, i: nat): (j: nat)
    requires i <= |s|
    ensures i <= j <= |s|
    ensures forall k :: i <= k < j ==> s[k] == '\n'
    ensures j < |s| ==> s[j] != '\n'
    decreases |s| - i
  {
    if i < |s| && s[i] == '\n' then NewlineRunEnd(s, i + 1) else i
  }

  /** Two newlines in a row start at `i`: where `\n\n+` matches. */
  predicate BlankAt(s: string, i: nat)
  {
    i + 1 < |s| && s[i] == '\n' && s[i + 1] == '\n'
  }

  /** The chunks of `s[start..]`, where the current chunk began at `start` and the scan
      has reached `i`; each maximal run of two or more newlines ends a chunk. */
  function ChunksFrom(s: string, start: nat, i: nat): seq<string>
    requires start <= i <= |s|
    decreases |s| - i, if BlankAt(s, i) then 1 else 0
  {
    if i == |s| then [s[start..]]
    else if BlankAt(s, i) then
      var j := NewlineRunEnd(s, i);
      [s[start..i]] + ChunksFrom(s, j, j)
    else ChunksFrom(s, start, i + 1)
  }

  /** `re.split(r'\n\n+', s)`. */
  function Chunks(s: string): seq<string>
  {
    ChunksFrom(s, 0, 0)
  }

  /** `s` has no two newlines in a row. */
  predicate NoBlank(s: string)
  {
    forall k :: 0 <= k < |s| ==> !BlankAt(s, k)
  }

  lemma SliceNoBlank(s: string, a: nat, b: nat)
    requires a <= b <= |s|
    requires forall k :: a <= k ==> k + 1 >= b || !BlankAt(s, k)
    ensures NoBlank(s[a..b])
  {
    forall k | 0 <= k < b - a ensures !BlankAt(s[a..b], k) {
      if BlankAt(s[a..b], k) {
        assert BlankAt(s, a + k);
      }
    }
  }

  lemma {:induction false} ChunksFromShape(s: string, start: nat, i: nat)
    requires start <= i <= |s|
    requires forall k :: start <= k ==> k + 1 >= i || !BlankAt(s, k)
    requires i > start ==> !BlankAt(s, i - 1)
    ensures forall c :: c in ChunksFrom(s, start, i) ==> NoBlank(c)
    decreases |s| - i, if BlankAt(s, i) then 1 else 0
  {
    if i == |s| {
      SliceNoBlank(s, start, i);
      assert s[start..i] == s[start..];
    } else if BlankAt(s, i) {
      var j := NewlineRunEnd(s, i);
      SliceNoBlank(s, start, i);
      ChunksFromShape(s, j, j);
    } else {
      ChunksFromShape(s, start, i + 1);
    }
  }

  /** No chunk contains a blank line. */
  lemma ChunksHaveNoBlank(s: string)
    ensures forall c :: c in Chunks(s) ==> NoBlank(c)
  {
    ChunksFromShape(s, 0, 0);
  }

  lemma {:induction false} ChunksFromWhole(s: string, start: nat, i: nat)
    requires start <= i <= |s| && NoBlank(s)
    ensures ChunksFrom(s, start, i) == [s[start..]]
    decreases |s| - i
  {
    if i < |s| {
      assert !BlankAt(s, i);
      ChunksFromWhole(s, start, i + 1);
    }
  }

  /** A text with no blank line is a single chunk. */
  lemma ChunksOfNoBlank(s: string)
    requires NoBlank(s)
    ensures Chunks(s) == [s]
  {
    ChunksFromWhole(s, 0, 0);
  }

  // ---------------------------------------------------------------------------------
  // The first `SiteID:` token of a chunk

  const SiteTag: string := "SiteID:"

  /** `SiteID:\s*(\S+)` matches at `p`: the tag, then optional whitespace, then at least
      one non-whitespace character. */
  predicate MatchAt(c: string, p: nat)
  {
    OccursAt(c, SiteTag, p) && p + |SiteTag| <= |c| && SkipSpaces(c, p + |SiteTag|) < |c|
  }

  /** Group 1 of the match at `p`: the maximal run of non-whitespace after the spaces. */
  function TokenAt(c: string, p: nat): (t: string)
    requires MatchAt(c, p)
    ensures t != [] && NoSpace(t)
  {
    var a := SkipSpaces(c, p + |SiteTag|);
    c[a..a + Span(c[a..], IsNotSpace)]
  }

  /** The token of the leftmost match at or after `k`. */
  function SiteTokenFrom(c: string, k: nat): (t: Option<string>)
    ensures t.Some? ==> t.value != [] && NoSpace(t.value)
    decreases |c| - k
  {
    if k >= |c| then None
    else if MatchAt(c, k) then Some(TokenAt(c, k))
    else SiteTokenFrom(c, k + 1)
  }

  /** `re.search(r'SiteID:\s*(\S+)', c).group(1)`, or None when there is no match. */
  function SiteToken(c: string): Option<string>
  {
    SiteTokenFrom(c, 0)
  }

  /** The search finds the leftmost match, and finds nothing only when there is none. */
  lemma {:induction false} SiteTokenFromLeftmost(c: string, k: nat)
    ensures SiteTokenFrom(c, k).None? <==> forall p: nat :: k <= p ==> !MatchAt(c, p)
    ensures SiteTokenFrom(c, k).Some? ==>
      exists p: nat :: k <= p && MatchAt(c, p) && SiteTokenFrom(c, k).value == TokenAt(c, p)
        && forall q: nat :: k <= q < p ==> !MatchAt(c, q)
    decreases |c| - k
  {
    if k >= |c| {
      forall p: nat | k <= p ensures !MatchAt(c, p) {
        assert p + |SiteTag| > |c|;
      }
    } else if MatchAt(c, k) {
    } else {
      SiteTokenFromLeftmost(c, k + 1);
      if SiteTokenFrom(c, k + 1).Some? {
        var p: nat :| k + 1 <= p && MatchAt(c, p) && SiteTokenFrom(c, k + 1).value == TokenAt(c, p)
          && forall q: nat :: k + 1 <= q < p ==> !MatchAt(c, q);
        assert forall q: nat :: k <= q < p ==> !MatchAt(c, q);
      }
    }
  }

  /** `full_id.split(':')[0]`. */
  function CleanId(token: string): (id: string)
    ensures ':' !in id && StartsWith(token, id)
    ensures NoSpace(token) ==> NoSpace(id)
    ensures id == token || (|id| < |token| && token[|id|] == ':')
  {
    var id := SplitOn(token, ':')[0];
    assert StartsWith(token, id) && (NoSpace(token) ==> NoSpace(id))
      && (id == token || (|id| < |token| && token[|id|] == ':')) by {
      CleanIdPrefix(token);
    }
    id
  }

  lemma CleanIdPrefix(token: string)
    ensures StartsWith(token, SplitOn(token, ':')[0])
    ensures NoSpace(token) ==> NoSpace(SplitOn(token, ':')[0])
    ensures var id := SplitOn(token, ':')[0];
      id == token || (|id| < |token| && token[|id|] == ':')
  {
    var parts := SplitOn(token, ':');
    if |parts| == 1 {
      assert parts[0] == token;
    } else {
      assert token == parts[0] + [':'] + Join(parts[1..], [':']);
      assert token[|parts[0]|] == ':';
    }
    StartsWithSlice(token, parts[0]);
  }

  /** The id extracted from one chunk, if any. */
  function ChunkIds(c: string): seq<string>
  {
    match SiteToken(c)
    case None => []
    case Some(t) => [CleanId(t)]
  }

  /** The ids of the chunks, in chunk order. */
  function IdsOfChunks(chunks: seq<string>): seq<string>
  {
    FlatMap(chunks, ChunkIds)
  }

  function ExtractIds(content: string): seq<string>
  {
    IdsOfChunks(Chunks(content))
  }

  /** The loop of `extract_ids_from_cleaveland` over the chunks of the file text. */
  method ExtractIdsFromCleaveland(content: string) returns (ids: seq<string>)
    ensures ids == ExtractIds(content)
  {
    var records := Chunks(content);
    ids := [];
    for k := 0 to |records|
      invariant ids == IdsOfChunks(records[..k])
    {
      var found := SiteToken(records[k]);
      FlatMapPrefix(records, k, ChunkIds);
      if found.Some? {
        ids := ids + [CleanId(found.value)];
      }
    }
    assert records[..|records|] == records;
  }

  /** At most one id per chunk, and every id is free of `:` and of whitespace. */
  lemma {:induction false} IdsOfChunksShape(chunks: seq<string>)
    ensures |IdsOfChunks(chunks)| <= |chunks|
    ensures forall id :: id in IdsOfChunks(chunks) ==> ':' !in id && NoSpace(id)
    decreases |chunks|
  {
    if chunks != [] {
      IdsOfChunksShape(chunks[..|chunks| - 1]);
    }
  }

  lemma ExtractIdsShape(content: string)
    ensures forall id :: id in ExtractIds(content) ==> ':' !in id && NoSpace(id)
    ensures |ExtractIds(content)| <= |Chunks(content)|
  {
    IdsOfChunksShape(Chunks(content));
  }

  // ---------------------------------------------------------------------------------
  // Selecting the PDF files

  const SevirTag: string := "Sevir."

  /** `Sevir\.[\w\d]+\.\d+` matched at `p`: the tag, a run of word characters, a dot and
      a run of digits, both runs as long as they go. */
  function SevirAt(s: string, p: nat): Option<string>
  {
    if !(OccursAt(s, SevirTag, p) && p + |SevirTag| <= |s|) then None
    else
      var w := p + |SevirTag| + Span(s[p + |SevirTag|..], IsWordChar);
      if w == p + |SevirTag| || w >= |s| || s[w] != '.' then None
      else
        var d := w + 1 + Span(s[w + 1..], IsDigit);
        if d == w + 1 then None else Some(s[p..d])
  }

  /** The leftmost match at or after `k`. */
  function SevirFrom(s: string, k: nat): Option<string>
    decreases |s| - k
  {
    if k >= |s| then None
    else if SevirAt(s, k).Some? then SevirAt(s, k)
    else SevirFrom(s, k + 1)
  }

  /** `re.search(r'Sevir\.[\w\d]+\.\d+', name).group(0)`, or None. */
  function SevirId(name: string): Option<string>
  {
    SevirFrom(name, 0)
  }

  /** A match starts with `Sevir.`, ends in a digit and occurs in the name. */
  lemma {:induction false} SevirFromShape(s: string, k: nat)
    ensures SevirFrom(s, k).Some? ==>
      exists p: nat :: k <= p && SevirAt(s, p).Some? && SevirFrom(s, k) == SevirAt(s, p)
        && forall q: nat :: k <= q < p ==> SevirAt(s, q).None?
    ensures SevirFrom(s, k).None? ==> forall p: nat :: k <= p ==> SevirAt(s, p).None?
    decreases |s| - k
  {
    if k >= |s| {
      forall p: nat | k <= p ensures SevirAt(s, p).None? {
        assert p + |SevirTag| > |s|;
      }
    } else if SevirAt(s, k).None? {
      SevirFromShape(s, k + 1);
      if SevirFrom(s, k + 1).Some? {
        var p: nat :| k + 1 <= p && SevirAt(s, p).Some? && SevirFrom(s, k + 1) == SevirAt(s, p)
          && forall q: nat :: k + 1 <= q < p ==> SevirAt(s, q).None?;
        assert forall q: nat :: k <= q < p ==> SevirAt(s, q).None?;
      }
    }
  }

  lemma SevirAtShape(s: string, p: nat)
    requires SevirAt(s, p).Some?
    ensures var m := SevirAt(s, p).value;
      StartsWith(m, SevirTag) && IsDigit(m[|m| - 1]) && OccursAt(s, m, p)
  {
    var m := SevirAt(s, p).value;
    var w := p + |SevirTag| + Span(s[p + |SevirTag|..], IsWordChar);
    var d := w + 1 + Span(s[w + 1..], IsDigit);
    assert m == s[p..d];
    assert IsDigit(s[w + 1..][d - w - 2]);
    StartsWithSlice(s[p..], SevirTag);
    StartsWithSlice(m, SevirTag);
    assert m[..|SevirTag|] == s[p..][..|SevirTag|];
    StartsWithSlice(s[p..], m);
    assert s[p..][..|m|] == m;
  }

  /** The file-name rule: a `.pdf` name whose Sevir id is one of the extracted ids. */
  predicate Selected(name: string, ids: seq<string>)
  {
    EndsWith(name, ".pdf") && SevirId(name).Some? && SevirId(name).value in ids
  }

  predicate IsPdf(name: string) { EndsWith(name, ".pdf") }

  function SelectedIn(ids: seq<string>): string -> bool
  {
    name => Selected(name, ids)
  }

  /** The names copied, in listing order. */
  function SelectPdfs(listing: seq<string>, ids: seq<string>): seq<string>
  {
    Filter(listing, SelectedIn(ids))
  }

  /** `pdf_files = [f for f in os.listdir(pdf_dir) if f.endswith('.pdf')]`, then the loop
      that copies each name whose Sevir id is in `ids`; the directory listing is the
      parameter `listing` and the copy itself is left out. */
  method FilterAndCopyPdfs(listing: seq<string>, ids: seq<string>) returns (copied: seq<string>)
    ensures copied == SelectPdfs(listing, ids)
  {
    var pdfFiles := Filter(listing, IsPdf);
    copied := [];
    for k := 0 to |pdfFiles|
      invariant copied == Filter(pdfFiles[..k], SelectedIn(ids))
    {
      var pdfFile := pdfFiles[k];
      FilterMembers(listing, IsPdf, pdfFile);
      var found := SevirId(pdfFile);
      FilterPrefix(pdfFiles, k, SelectedIn(ids));
      if found.Some? {
        var pdfId := found.value;
        if pdfId in ids {
          copied := copied + [pdfFile];
        }
      }
    }
    assert pdfFiles[..|pdfFiles|] == pdfFiles;
    PdfFilterTwice(listing, ids);
  }

  lemma {:induction false} PdfFilterTwice(listing: seq<string>, ids: seq<string>)
    ensures Filter(Filter(listing, IsPdf), SelectedIn(ids)) == SelectPdfs(listing, ids)
    decreases |listing|
  {
    if listing != [] {
      PdfFilterTwice(listing[..|listing| - 1], ids);
      var last := listing[|listing| - 1];
      FilterAppendOne(Filter(listing[..|listing| - 1], IsPdf), if IsPdf(last) then [last] else [],
        SelectedIn(ids));
    }
  }

  lemma FilterAppendOne<T>(xs: seq<T>, ys: seq<T>, p: T -> bool)
    requires |ys| <= 1
    ensures Filter(xs + ys, p) == Filter(xs, p) + Filter(ys, p)
  {
    if ys == [] {
      assert xs + ys == xs;
    } else {
      assert (xs + ys)[..|xs + ys| - 1] == xs;
      assert ys[..0] == [];
    }
  }

  /** A name is copied exactly when it is listed and selected; the copied names keep the
      listing order, and each contains its Sevir id. */
  lemma SelectPdfsSpec(listing: seq<string>, ids: seq<string>)
    ensures forall name :: name in SelectPdfs(listing, ids) <==> name in listing && Selected(name, ids)
    ensures IsSubsequence(SelectPdfs(listing, ids), listing)
  {
    forall name ensures name in SelectPdfs(listing, ids) <==> name in listing && Selected(name, ids) {
      FilterMembers(listing, SelectedIn(ids), name);
    }
    FilterSubsequence(listing, SelectedIn(ids));
  }

  /** The id a selected name matched is one of the extracted ids and occurs in the name. */
  lemma SelectedShape(name: string, ids: seq<string>)
    requires Selected(name, ids)
    ensures var m := SevirId(name).value;
      m in ids && StartsWith(m, SevirTag) && IsDigit(m[|m| - 1]) && exists p: nat :: OccursAt(name, m, p)
  {
    SevirFromShape(name, 0);
    var p: nat :| 0 <= p && SevirAt(name, p).Some? && SevirFrom(name, 0) == SevirAt(name, p)
      && forall q: nat :: 0 <= q < p ==> SevirAt(name, q).None?;
    SevirAtShape(name, p);
  }
}
