/**
 * The parts of Python's `str` that the scripts use, on `seq<char>`.
 * Character classes are restricted to ASCII: `IsSpace` is the ASCII part of
 * `str.isspace()` (which `strip()`, `split()` and the regex class `\s` share),
 * `IsDigit` is `\d` and `IsWordChar` is `\w` on ASCII input.
 */
module Text {
  import opened Wrappers

  predicate IsSpace(c: char) {
    c == ' ' || 9 <= c as int <= 13 || 28 <= c as int <= 31
  }

  predicate IsNotSpace(c: char) { !IsSpace(c) }

  predicate IsDigit(c: char) { '0' <= c <= '9' }

  predicate IsWordChar(c: char) {
    IsDigit(c) || 'a' <= c <= 'z' || 'A' <= c <= 'Z' || c == '_'
  }

  predicate NoSpace(s: string) { forall k :: 0 <= k < |s| ==> !IsSpace(s[k]) }

  /** `s` agrees with `prefix` from index `k` to the end of `prefix`. */
  predicate MatchesFrom(s: string, prefix: string, k: nat)
    decreases |prefix| - k
  {
    k >= |prefix| || (k < |s| && s[k] == prefix[k] && MatchesFrom(s, prefix, k + 1))
  }

  /** Python's `s.startswith(prefix)`, one character at a time. */
  predicate StartsWith(s: string, prefix: string) {
    MatchesFrom(s, prefix, 0)
  }

  lemma {:induction false} MatchesFromChars(s: string, prefix: string, k: nat)
    requires k <= |prefix|
    ensures MatchesFrom(s, prefix, k) <==>
      k == |prefix| || (|prefix| <= |s| && forall j :: k <= j < |prefix| ==> s[j] == prefix[j])
    decreases |prefix| - k
  {
    if k < |prefix| {
      MatchesFromChars(s, prefix, k + 1);
    }
  }

  /** The prefix test agrees with comparing the leading slice. */
  lemma StartsWithSlice(s: string, prefix: string)
    ensures StartsWith(s, prefix) <==> |prefix| <= |s| && s[..|prefix|] == prefix
  {
    MatchesFromChars(s, prefix, 0);
    if |prefix| <= |s| && s[..|prefix|] == prefix {
      assert forall j :: 0 <= j < |prefix| ==> s[j] == s[..|prefix|][j];
    }
  }

  lemma StartsWithCons(s: string, t: string)
    requires s != [] && StartsWith(s[1..], t)
    ensures StartsWith(s, [s[0]] + t)
  {
    StartsWithSlice(s[1..], t);
    StartsWithSlice(s, [s[0]] + t);
    assert s[..|t| + 1] == [s[0]] + s[1..][..|t|];
  }

  lemma StartsWithConcat(p: string, t: string)
    ensures StartsWith(p + t, p)
  {
    StartsWithSlice(p + t, p);
    assert (p + t)[..|p|] == p;
  }

  lemma StartsWithTrans(s: string, r: string, p: string)
    requires StartsWith(s, r) && StartsWith(r, p)
    ensures StartsWith(s, p)
  {
    StartsWithSlice(s, r);
    StartsWithSlice(r, p);
    StartsWithSlice(s, p);
    assert s[..|p|] == r[..|p|];
  }

  predicate EndsWith(s: string, suffix: string) {
    |suffix| <= |s| && s[|s| - |suffix|..] == suffix
  }

  /** `pat` occurs in `s` starting at index `k`. */
  predicate OccursAt(s: string, pat: string, k: nat) {
    k <= |s| && StartsWith(s[k..], pat)
  }

  lemma OccursAtTail(s: string, pat: string, k: nat)
    requires s != []
    ensures OccursAt(s, pat, k + 1) <==> OccursAt(s[1..], pat, k)
  {
    if k + 1 <= |s| {
      assert s[k + 1..] == s[1..][k..];
    }
  }

  /** Python's `pat in s`. */
  function Contains(s: string, pat: string): (b: bool)
    ensures b <==> exists k: nat :: OccursAt(s, pat, k)
    decreases |s|
  {
    if StartsWith(s, pat) then
      assert s[0..] == s;
      assert OccursAt(s, pat, 0);
      true
    else if s == [] then
      false
    else
      var b := Contains(s[1..], pat);
      assert b ==> exists k: nat :: OccursAt(s, pat, k) by {
        if b {
          var k: nat :| OccursAt(s[1..], pat, k);
          OccursAtTail(s, pat, k);
        }
      }
      assert (exists k: nat :: OccursAt(s, pat, k)) ==> b by {
        if k: nat :| OccursAt(s, pat, k) {
          assert k != 0;
          OccursAtTail(s, pat, k - 1);
        }
      }
      b
  }

  /** Length of the longest prefix of `s` whose characters all satisfy `p`. */
  function Span(s: string, p: char -> bool): (n: nat)
    ensures n <= |s|
    ensures forall k :: 0 <= k < n ==> p(s[k])
    ensures n < |s| ==> !p(s[n])
    decreases |s|
  {
    if s == [] || !p(s[0]) then 0 else 1 + Span(s[1..], p)
  }

  predicate IsStripped(s: string) {
    s == [] || (!IsSpace(s[0]) && !IsSpace(s[|s| - 1]))
  }

  /** The index of the first non-whitespace character of `s` at or after `k`, or `|s|`. */
  function SkipSpaces(s: string, k: nat): (n: nat)
    requires k <= |s|
    ensures k <= n <= |s|
    ensures n < |s| ==> !IsSpace(s[n])
    decreases |s| - k
  {
    if k < |s| && IsSpace(s[k]) then SkipSpaces(s, k + 1) else k
  }

  /** `k` moved down past the whitespace that ends `s[a..k]`. */
  function TrimEnd(s: string, a: nat, k: nat): (n: nat)
    requires a <= k <= |s|
    ensures a <= n <= k
    ensures n > a ==> !IsSpace(s[n - 1])
    decreases k
  {
    if k > a && IsSpace(s[k - 1]) then TrimEnd(s, a, k - 1) else k
  }

  /** Python's `s.strip()`: leading and trailing whitespace removed. */
  function Strip(s: string): (r: string)
    ensures |r| <= |s|
    ensures IsStripped(r)
    ensures IsStripped(s) ==> r == s
  {
    var a := SkipSpaces(s, 0);
    s[a..TrimEnd(s, a, |s|)]
  }

  /** Stripping only removes characters. */
  lemma StripChars(s: string)
    ensures forall c :: c in Strip(s) ==> c in s
  {
    var a := SkipSpaces(s, 0);
    var r := Strip(s);
    forall c | c in r ensures c in s {
      var k :| 0 <= k < |r| && r[k] == c;
      assert s[a + k] == c;
    }
  }

  /** An occurrence inside a slice is an occurrence in the whole string. */
  lemma OccursInSlice(s: string, pat: string, a: nat, n: nat, k: nat)
    requires a <= n <= |s| && OccursAt(s[a..n], pat, k)
    ensures OccursAt(s, pat, a + k)
  {
    var t := s[a..n][k..];
    StartsWithSlice(t, pat);
    StartsWithSlice(s[a + k..], pat);
    assert s[a + k..][..|pat|] == t[..|pat|];
  }

  /** Stripping a string in which `pat` does not occur leaves one in which it does not occur. */
  lemma StripKeepsAbsent(s: string, pat: string)
    requires forall k: nat :: !OccursAt(s, pat, k)
    ensures forall k: nat :: !OccursAt(Strip(s), pat, k)
  {
    var a := SkipSpaces(s, 0);
    var n := TrimEnd(s, a, |s|);
    forall k: nat | OccursAt(Strip(s), pat, k) ensures false {
      OccursInSlice(s, pat, a, n, k);
    }
  }

  /** Python's `s.split()`: the maximal runs of non-whitespace characters, in order. */
  function Words(s: string): (ws: seq<string>)
    ensures forall k :: 0 <= k < |ws| ==> ws[k] != [] && NoSpace(ws[k])
    decreases |s|
  {
    if s == [] then []
    else if IsSpace(s[0]) then Words(s[1..])
    else
      var n := Span(s, IsNotSpace);
      [s[..n]] + Words(s[n..])
  }

  /** The parts joined with `sep` between consecutive ones (Python's `sep.join(parts)`). */
  function Join(parts: seq<string>, sep: string): string
  {
    if |parts| == 0 then []
    else if |parts| == 1 then parts[0]
    else parts[0] + sep + Join(parts[1..], sep)
  }

  /** Python's `s.split(sep)` for a one-character separator: never empty, and joining
      the parts back with `sep` gives `s`. */
  function SplitOn(s: string, sep: char): (parts: seq<string>)
    ensures |parts| >= 1
    ensures forall k :: 0 <= k < |parts| ==> sep !in parts[k]
    ensures Join(parts, [sep]) == s
    ensures |parts| == 1 <==> sep !in s
    decreases |s|
  {
    if s == [] then [[]]
    else
      var rest := SplitOn(s[1..], sep);
      if s[0] == sep then
        [[]] + rest
      else
        var parts := [[s[0]] + rest[0]] + rest[1..];
        assert parts[1..] == rest[1..];
        assert Join(parts, [sep]) == [s[0]] + Join(rest, [sep]);
        parts
  }

  /** The last element of a split. */
  function Last(parts: seq<string>): string
    requires parts != []
  {
    parts[|parts| - 1]
  }

  lemma JoinSnoc(parts: seq<string>, sep: string)
    requires |parts| >= 2
    ensures Join(parts, sep) == Join(parts[..|parts| - 1], sep) + sep + parts[|parts| - 1]
    decreases |parts|
  {
    if |parts| > 2 {
      JoinSnoc(parts[1..], sep);
      assert parts[1..][..|parts| - 2] == parts[..|parts| - 1][1..];
    }
  }

  /** Splitting `a + sep + b`, where `a` has no separator, gives `a` and then the parts of `b`. */
  lemma {:induction false} SplitOnPrefix(a: string, b: string, sep: char)
    requires sep !in a
    ensures SplitOn(a + [sep] + b, sep) == [a] + SplitOn(b, sep)
    decreases |a|
  {
    var s := a + [sep] + b;
    if a == [] {
      assert s[0] == sep && s[1..] == b;
    } else {
      assert s[0] == a[0] && s[0] != sep;
      assert s[1..] == a[1..] + [sep] + b;
      SplitOnPrefix(a[1..], b, sep);
      var rest := SplitOn(s[1..], sep);
      assert rest == [a[1..]] + SplitOn(b, sep);
      assert SplitOn(s, sep) == [[s[0]] + rest[0]] + rest[1..];
      assert [a[0]] + a[1..] == a;
    }
  }

  /** Python's `s.split(sep, 1)` when it yields two parts: the text before the first
      `sep` and the text after it; None when `sep` does not occur. */
  function SplitOnce(s: string, sep: char): (r: Option<(string, string)>)
    ensures r.None? <==> sep !in s
    ensures r.Some? ==> s == r.value.0 + [sep] + r.value.1 && sep !in r.value.0
  {
    var parts := SplitOn(s, sep);
    if |parts| == 1 then None else Some((parts[0], Join(parts[1..], [sep])))
  }

  /** Python's `s.rsplit(sep, 1)` when it yields two parts: the text before the last
      `sep` and the text after it; None when `sep` does not occur. */
  function RSplitOnce(s: string, sep: char): (r: Option<(string, string)>)
    ensures r.None? <==> sep !in s
    ensures r.Some? ==> s == r.value.0 + [sep] + r.value.1 && sep !in r.value.1
  {
    var parts := SplitOn(s, sep);
    if |parts| == 1 then None
    else
      JoinSnoc(parts, [sep]);
      Some((Join(parts[..|parts| - 1], [sep]), parts[|parts| - 1]))
  }

  /** `rsplit` at the last separator of `a + sep + b`, when `b` has none, gives back `a`
      and `b`. */
  lemma RSplitOnceAppend(a: string, b: string, sep: char)
    requires sep !in b
    ensures RSplitOnce(a + [sep] + b, sep) == Some((a, b))
  {
    var s := a + [sep] + b;
    assert s[|a|] == sep;
    var r := RSplitOnce(s, sep);
    var x, y := r.value.0, r.value.1;
    assert s[|x|] == sep;
    assert forall i :: |x| < i < |s| ==> s[i] == y[i - |x| - 1];
    assert forall i :: |a| < i < |s| ==> s[i] == b[i - |a| - 1];
    assert |x| == |a|;
    assert x == s[..|x|] && y == s[|x| + 1..];
    assert a == s[..|a|] && b == s[|a| + 1..];
  }

  /** `s` up to the first occurrence of `pat`, or all of `s` when `pat` does not occur:
      for a line that starts with `pat`, Python's `line.split(pat)[1]` is this of the
      rest of the line. */
  function BeforeOccurrence(s: string, pat: string): (r: string)
    requires pat != []
    ensures StartsWith(s, r)
    ensures forall k: nat :: !OccursAt(r, pat, k)
    ensures |r| < |s| ==> OccursAt(s, pat, |r|)
    decreases |s|
  {
    if StartsWith(s, pat) || s == [] then []
    else
      var rest := BeforeOccurrence(s[1..], pat);
      var r := [s[0]] + rest;
      assert r[1..] == rest;
      StartsWithCons(s, rest);
      assert forall k: nat :: !OccursAt(r, pat, k) by {
        forall k: nat ensures !OccursAt(r, pat, k) {
          if k == 0 {
            assert r[0..] == r;
            if StartsWith(r, pat) {
              StartsWithTrans(s, r, pat);
            }
          } else {
            OccursAtTail(r, pat, k - 1);
            assert r[1..] == rest;
          }
        }
      }
      assert |r| < |s| ==> OccursAt(s, pat, |r|) by {
        if |r| < |s| {
          OccursAtTail(s, pat, |rest|);
        }
      }
      r
  }

  function LowerChar(c: char): char {
    if 'A' <= c <= 'Z' then (c as int + 32) as char else c
  }

  /** Python's `s.lower()` on ASCII letters. */
  function Lower(s: string): string
    decreases |s|
  {
    if s == [] then [] else [LowerChar(s[0])] + Lower(s[1..])
  }

  lemma {:induction false} LowerChars(s: string)
    ensures |Lower(s)| == |s|
    ensures forall k :: 0 <= k < |s| ==> Lower(s)[k] == LowerChar(s[k])
    decreases |s|
  {
    if s != [] {
      LowerChars(s[1..]);
    }
  }

  /** The last part of a split of `a + sep + b`, when `b` has no separator, is `b`. */
  lemma LastSplit(a: string, b: string, sep: char)
    requires sep !in b
    ensures Last(SplitOn(a + [sep] + b, sep)) == b
  {
    var s := a + [sep] + b;
    assert s[|a|] == sep;
    RSplitOnceAppend(a, b, sep);
    var parts := SplitOn(s, sep);
    assert |parts| != 1;
    assert RSplitOnce(s, sep).value.1 == parts[|parts| - 1];
  }
}
