/**
 * `filter_records` of filter-cleaveland-results.py: keep the records that meet every
 * threshold the caller set.  The specification is `Filtered`, the records that pass,
 * in their order; the loop with its `pass_filter` flag is `FilterRecords`.
 */
module CleavelandFilter {
  import opened Wrappers
  import opened CleavelandParse
  import opened Seqs

  /** The optional command-line thresholds; None is an argument left out. */
  datatype Thresholds = Thresholds(
    minMfeRatio: Option<real>,
    maxAllenScore: Option<real>,
    categories: Option<seq<int>>,
    maxPValue: Option<real>)

  const NoThresholds := Thresholds(None, None, None, None)

  /** `record['degradome_category'] in category`: a category kept as text is never in
      a list of ints. */
  predicate CategoryIn(c: Category, categories: seq<int>)
  {
    c.Int? && c.n in categories
  }

  /** Each test passes when its threshold is unset; a set threshold rejects a record
      that lacks the field. */
  predicate RatioOk(r: Record, t: Thresholds)
  {
    t.minMfeRatio.Some? ==> r.mfeRatio.Some? && r.mfeRatio.value >= t.minMfeRatio.value
  }

  predicate AllenOk(r: Record, t: Thresholds)
  {
    t.maxAllenScore.Some? ==> r.allenScore.Some? && r.allenScore.value <= t.maxAllenScore.value
  }

  predicate CategoryOk(r: Record, t: Thresholds)
  {
    t.categories.Some? ==> r.degradomeCategory.Some? && CategoryIn(r.degradomeCategory.value, t.categories.value)
  }

  predicate PValueOk(r: Record, t: Thresholds)
  {
    t.maxPValue.Some? ==> r.degradomePValue.Some? && r.degradomePValue.value <= t.maxPValue.value
  }

  /** A record is kept when it meets all four thresholds. */
  predicate Passes(r: Record, t: Thresholds)
  {
    RatioOk(r, t) && AllenOk(r, t) && CategoryOk(r, t) && PValueOk(r, t)
  }

  /** The records of `rs` that pass, in their order. */
  function Filtered(rs: seq<Record>, t: Thresholds): seq<Record>
    decreases |rs|
  {
    if rs == [] then []
    else
      var last := rs[|rs| - 1];
      Filtered(rs[..|rs| - 1], t) + (if Passes(last, t) then [last] else [])
  }

  /** The loop of `filter_records`: the four tests in the source's order, each one
      skipped once the flag is down. */
  method FilterRecords(records: seq<Record>, t: Thresholds) returns (filtered: seq<Record>)
    ensures filtered == Filtered(records, t)
  {
    filtered := [];
    for k := 0 to |records|
      invariant filtered == Filtered(records[..k], t)
    {
      var record := records[k];
      var passFilter := true;
      if t.minMfeRatio.Some? {
        if record.mfeRatio.None? || record.mfeRatio.value < t.minMfeRatio.value {
          passFilter := false;
        }
      }
      if t.maxAllenScore.Some? && passFilter {
        if record.allenScore.None? || record.allenScore.value > t.maxAllenScore.value {
          passFilter := false;
        }
      }
      if t.categories.Some? && passFilter {
        if record.degradomeCategory.None? || !CategoryIn(record.degradomeCategory.value, t.categories.value) {
          passFilter := false;
        }
      }
      if t.maxPValue.Some? && passFilter {
        if record.degradomePValue.None? || record.degradomePValue.value > t.maxPValue.value {
          passFilter := false;
        }
      }
      assert passFilter == Passes(record, t);
      assert records[..k + 1][..k] == records[..k];
      if passFilter {
        filtered := filtered + [record];
      }
    }
    assert records[..|records|] == records;
  }

  /** A record is kept exactly when it is one of the input records and passes. */
  lemma {:induction false} FilteredMembers(rs: seq<Record>, t: Thresholds, r: Record)
    ensures r in Filtered(rs, t) <==> r in rs && Passes(r, t)
    decreases |rs|
  {
    if rs != [] {
      var init := rs[..|rs| - 1];
      FilteredMembers(init, t, r);
      assert rs == init + [rs[|rs| - 1]];
    }
  }

  /** Filtering keeps the order of the records it keeps. */
  lemma {:induction false} FilteredSubsequence(rs: seq<Record>, t: Thresholds)
    ensures IsSubsequence(Filtered(rs, t), rs)
    decreases |rs|
  {
    if rs != [] {
      var init := rs[..|rs| - 1];
      var last := rs[|rs| - 1];
      FilteredSubsequence(init, t);
      SubsequenceSnoc(Filtered(init, t), init, last, Passes(last, t));
      assert init + [last] == rs;
    }
  }

  /** With no threshold set every record is kept. */
  lemma {:induction false} FilteredNoThresholds(rs: seq<Record>)
    ensures Filtered(rs, NoThresholds) == rs
    decreases |rs|
  {
    if rs != [] {
      FilteredNoThresholds(rs[..|rs| - 1]);
      assert rs[..|rs| - 1] + [rs[|rs| - 1]] == rs;
    }
  }

  /** `t1` is at least as strict as `t2`: every threshold `t2` sets, `t1` sets as well,
      and no looser. */
  predicate Stricter(t1: Thresholds, t2: Thresholds)
  {
    && (t2.minMfeRatio.Some? ==> t1.minMfeRatio.Some? && t1.minMfeRatio.value >= t2.minMfeRatio.value)
    && (t2.maxAllenScore.Some? ==> t1.maxAllenScore.Some? && t1.maxAllenScore.value <= t2.maxAllenScore.value)
    && (t2.categories.Some? ==> t1.categories.Some? && forall c :: c in t1.categories.value ==> c in t2.categories.value)
    && (t2.maxPValue.Some? ==> t1.maxPValue.Some? && t1.maxPValue.value <= t2.maxPValue.value)
  }

  lemma StricterPasses(r: Record, t1: Thresholds, t2: Thresholds)
    requires Stricter(t1, t2) && Passes(r, t1)
    ensures Passes(r, t2)
  {
  }

  /** Filtering with `t2` and then with a stricter `t1` is filtering once with `t1`; with
      `t1 == t2` this says filtering is idempotent. */
  lemma {:induction false} FilteredThenStricter(rs: seq<Record>, t1: Thresholds, t2: Thresholds)
    requires Stricter(t1, t2)
    ensures Filtered(Filtered(rs, t2), t1) == Filtered(rs, t1)
    decreases |rs|
  {
    if rs != [] {
      var init := rs[..|rs| - 1];
      var last := rs[|rs| - 1];
      FilteredThenStricter(init, t1, t2);
      if Passes(last, t1) {
        StricterPasses(last, t1, t2);
      }
      FilteredAppend(Filtered(init, t2), if Passes(last, t2) then [last] else [], t1);
    }
  }

  /** Filtering distributes over concatenation. */
  lemma {:induction false} FilteredAppend(a: seq<Record>, b: seq<Record>, t: Thresholds)
    ensures Filtered(a + b, t) == Filtered(a, t) + Filtered(b, t)
    decreases |b|
  {
    if b == [] {
      assert a + b == a;
    } else {
      var init := b[..|b| - 1];
      FilteredAppend(a, init, t);
      assert (a + b)[..|a + b| - 1] == a + init;
    }
  }

  lemma StricterSelf(t: Thresholds)
    ensures Stricter(t, t)
  {
  }

  /** Filtering twice with the same thresholds is filtering once. */
  lemma FilteredIdempotent(rs: seq<Record>, t: Thresholds)
    ensures Filtered(Filtered(rs, t), t) == Filtered(rs, t)
  {
    StricterSelf(t);
    FilteredThenStricter(rs, t, t);
  }

  /** Tightening the thresholds keeps a sub-sequence of what the looser ones keep; in
      particular enabling one more criterion. */
  lemma StricterSubsequence(rs: seq<Record>, t1: Thresholds, t2: Thresholds)
    requires Stricter(t1, t2)
    ensures IsSubsequence(Filtered(rs, t1), Filtered(rs, t2))
  {
    FilteredThenStricter(rs, t1, t2);
    FilteredSubsequence(Filtered(rs, t2), t1);
  }

  /** An empty category list rejects every record. */
  lemma {:induction false} EmptyCategoriesRejectAll(rs: seq<Record>, t: Thresholds)
    requires t.categories == Some([])
    ensures Filtered(rs, t) == []
    decreases |rs|
  {
    if rs != [] {
      EmptyCategoriesRejectAll(rs[..|rs| - 1], t);
    }
  }

  /** A category kept as text fails an enabled category test, whatever the list. */
  lemma RawCategoryRejected(r: Record, t: Thresholds)
    requires r.degradomeCategory.Some? && r.degradomeCategory.value.Raw? && t.categories.Some?
    ensures !Passes(r, t)
  {
  }

  /** Two records that differ in their MFE ratio, 0.8 and 0.4, filtered with a minimum
      ratio of 0.7 and no other threshold: only the first is kept. */
  lemma MinRatioExample(a: Record, b: Record)
    requires a.mfeRatio == Some(0.8) && b.mfeRatio == Some(0.4)
    ensures Filtered([a, b], Thresholds(Some(0.7), None, None, None)) == [a]
  {
    var t := Thresholds(Some(0.7), None, None, None);
    assert Passes(a, t) && !Passes(b, t);
    assert [a, b][..1] == [a];
    assert Filtered([a], t) == Filtered([], t) + [a];
  }
}
