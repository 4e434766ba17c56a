/** Order-preserving sub-sequences, the shape every filter in the scripts produces. */
module Seqs {

  /** `a` is `b` with some elements left out and the rest in their original order. */
  ghost predicate IsSubsequence<T>(a: seq<T>, b: seq<T>)
    decreases |b|
  {
    a == [] || (b != [] && ((a[0] == b[0] && IsSubsequence(a[1..], b[1..])) || IsSubsequence(a, b[1..])))
  }

  lemma {:induction false} SubsequenceMembers<T>(a: seq<T>, b: seq<T>)
    requires IsSubsequence(a, b)
    ensures |a| <= |b|
    ensures forall x :: x in a ==> x in b
    decreases |b|
  {
    if a != [] {
      if a[0] == b[0] && IsSubsequence(a[1..], b[1..]) {
        SubsequenceMembers(a[1..], b[1..]);
        assert forall x :: x in a ==> x == a[0] || x in a[1..];
      } else {
        SubsequenceMembers(a, b[1..]);
      }
    }
  }

  lemma {:induction false} SubsequenceOfSelf<T>(a: seq<T>)
    ensures IsSubsequence(a, a)
    decreases |a|
  {
    if a != [] {
      SubsequenceOfSelf(a[1..]);
    }
  }

  /** The blocks `f(x)` of the elements of `xs`, one after another. */
  function FlatMap<T, U>(xs: seq<T>, f: T -> seq<U>): seq<U>
    decreases |xs|
  {
    if xs == [] then [] else FlatMap(xs[..|xs| - 1], f) + f(xs[|xs| - 1])
  }

  lemma FlatMapPrefix<T, U>(xs: seq<T>, k: nat, f: T -> seq<U>)
    requires k < |xs|
    ensures FlatMap(xs[..k + 1], f) == FlatMap(xs[..k], f) + f(xs[k])
  {
    assert xs[..k + 1][..k] == xs[..k];
  }

  /** Mapping two sequences one after the other gives the blocks of the first, then
      those of the second. */
  lemma {:induction false} FlatMapAppend<T, U>(a: seq<T>, b: seq<T>, f: T -> seq<U>)
    ensures FlatMap(a + b, f) == FlatMap(a, f) + FlatMap(b, f)
    decreases |b|
  {
    if b == [] {
      assert a + b == a;
    } else {
      FlatMapAppend(a, b[..|b| - 1], f);
      assert (a + b)[..|a + b| - 1] == a + b[..|b| - 1];
    }
  }

  /** `f` applied to each element of `xs`. */
  function Map<T, U>(xs: seq<T>, f: T -> U): (ys: seq<U>)
    ensures |ys| == |xs|
    ensures forall k :: 0 <= k < |xs| ==> ys[k] == f(xs[k])
  {
    seq(|xs|, k requires 0 <= k < |xs| => f(xs[k]))
  }

  lemma MapSnoc<T, U>(xs: seq<T>, x: T, f: T -> U)
    ensures Map(xs + [x], f) == Map(xs, f) + [f(x)]
  {
  }

  lemma MapCons<T, U>(x: T, xs: seq<T>, f: T -> U)
    ensures Map([x] + xs, f) == [f(x)] + Map(xs, f)
  {
  }

  /** The elements of `xs` that satisfy `p`, in their order (a list comprehension with a
      condition). */
  function Filter<T>(xs: seq<T>, p: T -> bool): seq<T>
    decreases |xs|
  {
    if xs == [] then [] else Filter(xs[..|xs| - 1], p) + (if p(xs[|xs| - 1]) then [xs[|xs| - 1]] else [])
  }

  lemma FilterPrefix<T>(xs: seq<T>, k: nat, p: T -> bool)
    requires k < |xs|
    ensures Filter(xs[..k + 1], p) == Filter(xs[..k], p) + (if p(xs[k]) then [xs[k]] else [])
  {
    assert xs[..k + 1][..k] == xs[..k];
  }

  lemma {:induction false} FilterMembers<T>(xs: seq<T>, p: T -> bool, x: T)
    ensures x in Filter(xs, p) <==> x in xs && p(x)
    decreases |xs|
  {
    if xs != [] {
      var init := xs[..|xs| - 1];
      FilterMembers(init, p, x);
      assert xs == init + [xs[|xs| - 1]];
    }
  }

  /** Appending to both sides of a sub-sequence, or only to the longer one. */
  lemma {:induction false} SubsequenceSnoc<T>(a: seq<T>, b: seq<T>, x: T, keep: bool)
    requires IsSubsequence(a, b)
    ensures IsSubsequence(a + (if keep then [x] else []), b + [x])
    decreases |b|
  {
    if b == [] {
      assert a == [];
      if keep {
        assert IsSubsequence([x][1..], []);
      }
    } else if a != [] && a[0] == b[0] && IsSubsequence(a[1..], b[1..]) {
      SubsequenceSnoc(a[1..], b[1..], x, keep);
      assert (a + (if keep then [x] else []))[1..] == a[1..] + (if keep then [x] else []);
      assert (b + [x])[1..] == b[1..] + [x];
    } else if a == [] {
      if keep {
        SubsequenceSnoc([], b[1..], x, keep);
        assert (b + [x])[1..] == b[1..] + [x];
      }
    } else {
      SubsequenceSnoc(a, b[1..], x, keep);
      assert (b + [x])[1..] == b[1..] + [x];
    }
  }

  lemma {:induction false} FilterSubsequence<T>(xs: seq<T>, p: T -> bool)
    ensures IsSubsequence(Filter(xs, p), xs)
    decreases |xs|
  {
    if xs != [] {
      var init := xs[..|xs| - 1];
      var last := xs[|xs| - 1];
      FilterSubsequence(init, p);
      SubsequenceSnoc(Filter(init, p), init, last, p(last));
      assert init + [last] == xs;
    }
  }

  /** A dictionary filled pair by pair: a later pair overwrites an earlier one. */
  function MapOf<K, V>(pairs: seq<(K, V)>): map<K, V>
    decreases |pairs|
  {
    if pairs == [] then map[]
    else
      var p := pairs[|pairs| - 1];
      MapOf(pairs[..|pairs| - 1])[p.0 := p.1]
  }

  lemma MapOfSnoc<K, V>(pairs: seq<(K, V)>, p: (K, V))
    ensures MapOf(pairs + [p]) == MapOf(pairs)[p.0 := p.1]
  {
    var s := pairs + [p];
    assert s[..|s| - 1] == pairs && s[|s| - 1] == p;
  }

  /** A key is in the dictionary exactly when some pair carries it, and its value is that
      of the last such pair. */
  lemma {:induction false} MapOfLastWins<K, V>(pairs: seq<(K, V)>, key: K)
    ensures key in MapOf(pairs) <==> exists k :: 0 <= k < |pairs| && pairs[k].0 == key
    ensures key in MapOf(pairs) ==>
      exists k :: 0 <= k < |pairs| && pairs[k].0 == key && MapOf(pairs)[key] == pairs[k].1
        && forall j :: k < j < |pairs| ==> pairs[j].0 != key
    decreases |pairs|
  {
    if pairs != [] {
      var n := |pairs| - 1;
      var init := pairs[..n];
      MapOfLastWins(init, key);
      assert forall k :: 0 <= k < n ==> pairs[k] == init[k];
      if pairs[n].0 == key {
        assert MapOf(pairs)[key] == pairs[n].1;
      } else if key in MapOf(init) {
        var k :| 0 <= k < n && init[k].0 == key && MapOf(init)[key] == init[k].1
          && forall j :: k < j < n ==> init[j].0 != key;
        assert pairs[k].0 == key && MapOf(pairs)[key] == pairs[k].1;
        assert forall j :: k < j < |pairs| ==> pairs[j].0 != key;
      } else {
        assert forall k :: 0 <= k < |pairs| ==> pairs[k].0 != key;
      }
    }
  }
}
