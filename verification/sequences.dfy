/**
  Sequence operations shared by the client components: the stable sort that
  `Array.prototype.sort` performs with a comparator, `Array.prototype.filter`,
  and the order facts both rely on.
 */
module Sequences {

  /** `leq` is total and transitive: what a consistent sort comparator gives. */
  ghost predicate TotalPreorder<T(!new)>(leq: (T, T) -> bool)
  {
    && (forall a, b :: leq(a, b) || leq(b, a))
    && (forall a, b, c :: leq(a, b) && leq(b, c) ==> leq(a, c))
  }

  predicate SortedBy<T>(s: seq<T>, leq: (T, T) -> bool)
  {
    forall i, j :: 0 <= i < j < |s| ==> leq(s[i], s[j])
  }

  /** `r` keeps some of the elements of `s`, in their order. */
  predicate IsSubsequence<T(==)>(r: seq<T>, s: seq<T>)
    decreases |s|
  {
    if r == [] then true
    else if s == [] then false
    else if r[0] == s[0] then IsSubsequence(r[1..], s[1..])
    else IsSubsequence(r, s[1..])
  }

  /** No two elements of `s` share a key. */
  predicate KeysDistinct<T, K(==)>(s: seq<T>, key: T -> K)
  {
    forall i, j :: 0 <= i < j < |s| ==> key(s[i]) != key(s[j])
  }

  /** Inserts `x` after every leading element not greater than it, so that
      `x` follows the elements that compare equal to it: a stable insertion. */
  function InsertBy<T>(s: seq<T>, x: T, leq: (T, T) -> bool): (r: seq<T>)
    ensures |r| == |s| + 1
    ensures multiset(r) == multiset(s) + multiset{x}
  {
    if s == [] then [x]
    else if leq(s[0], x) then
      assert s == [s[0]] + s[1..];
      [s[0]] + InsertBy(s[1..], x, leq)
    else [x] + s
  }

  /** The length of the leading run of elements of `s` not greater than `x`:
      where `InsertBy` places `x`. */
  function LeadingRun<T>(s: seq<T>, x: T, leq: (T, T) -> bool): (k: nat)
    ensures k <= |s|
    ensures forall i :: 0 <= i < k ==> leq(s[i], x)
    ensures k < |s| ==> !leq(s[k], x)
  {
    if s == [] || !leq(s[0], x) then 0
    else
      var k := 1 + LeadingRun(s[1..], x, leq);
      assert forall i :: 1 <= i < k ==> s[i] == s[1..][i - 1];
      k
  }

  /** `InsertBy` puts `x` right after the leading run of elements not greater
      than it, and keeps everything else in place. */
  lemma {:induction false} InsertByAt<T>(s: seq<T>, x: T, leq: (T, T) -> bool)
    ensures var k := LeadingRun(s, x, leq);
            InsertBy(s, x, leq) == s[..k] + [x] + s[k..]
  {
    if s != [] && leq(s[0], x) {
      InsertByAt(s[1..], x, leq);
      SplitCons(s, LeadingRun(s[1..], x, leq), x);
    }
  }

  /** Splitting after the head: `s` cut at `k + 1` is its head followed by
      its tail cut at `k`. */
  lemma SplitCons<T>(s: seq<T>, k: nat, x: T)
    requires k < |s|
    ensures [s[0]] + (s[1..][..k] + [x] + s[1..][k..]) == s[..k + 1] + [x] + s[k + 1..]
  {
    assert s[..k + 1] == [s[0]] + s[1..][..k];
    assert s[k + 1..] == s[1..][k..];
  }

  /** Into a sorted sequence, `x` is inserted after every element not greater
      than it (those that compare equal included) and before every greater
      one: a stable insertion. */
  lemma InsertBySortedPosition<T(!new)>(s: seq<T>, x: T, leq: (T, T) -> bool)
    requires TotalPreorder(leq) && SortedBy(s, leq)
    ensures var k := LeadingRun(s, x, leq);
            && InsertBy(s, x, leq) == s[..k] + [x] + s[k..]
            && (forall i :: 0 <= i < k ==> leq(s[i], x))
            && (forall j :: k <= j < |s| ==> !leq(s[j], x))
  {
    InsertByAt(s, x, leq);
    var k := LeadingRun(s, x, leq);
    forall j | k <= j < |s|
      ensures !leq(s[j], x)
    {
      if j > k {
        assert leq(s[k], s[j]);
      }
    }
  }

  /** Stable insertion sort: the elements of `s` inserted one at a time,
      left to right. */
  function SortBy<T>(s: seq<T>, leq: (T, T) -> bool): (r: seq<T>)
    ensures |r| == |s|
    ensures multiset(r) == multiset(s)
  {
    if s == [] then []
    else
      assert s == s[..|s| - 1] + [s[|s| - 1]];
      InsertBy(SortBy(s[..|s| - 1], leq), s[|s| - 1], leq)
  }

  /** Inserting into a sorted sequence keeps it sorted. */
  lemma {:induction false} InsertBySorted<T(!new)>(s: seq<T>, x: T, leq: (T, T) -> bool)
    requires TotalPreorder(leq) && SortedBy(s, leq)
    ensures SortedBy(InsertBy(s, x, leq), leq)
  {
    if s != [] {
      if leq(s[0], x) {
        assert SortedBy(s[1..], leq);
        InsertBySorted(s[1..], x, leq);
        ConsSorted(s[0], s[1..], x, leq);
      } else {
        assert leq(x, s[0]);
        FirstBelowSorted(x, s, leq);
      }
    }
  }

  /** A head no greater than anything in `t` nor than `x` stays first. */
  lemma ConsSorted<T>(h: T, t: seq<T>, x: T, leq: (T, T) -> bool)
    requires forall i :: 0 <= i < |t| ==> leq(h, t[i])
    requires leq(h, x)
    requires SortedBy(InsertBy(t, x, leq), leq)
    ensures SortedBy([h] + InsertBy(t, x, leq), leq)
  {
    var rest := InsertBy(t, x, leq);
    forall k | 0 <= k < |rest|
      ensures leq(h, rest[k])
    {
      assert rest[k] in multiset(rest);
      if rest[k] != x {
        assert rest[k] in multiset(t);
        var j :| 0 <= j < |t| && t[j] == rest[k];
      }
    }
  }

  /** An element no greater than the first of a sorted sequence can lead it. */
  lemma FirstBelowSorted<T(!new)>(x: T, s: seq<T>, leq: (T, T) -> bool)
    requires TotalPreorder(leq) && SortedBy(s, leq)
    requires s != [] && leq(x, s[0])
    ensures SortedBy([x] + s, leq)
  {
    forall k | 0 <= k < |s|
      ensures leq(x, s[k])
    {
      if k > 0 { assert leq(s[0], s[k]); }
    }
  }

  /** Under a total preorder the sort's result is sorted. */
  lemma {:induction false} SortBySorts<T(!new)>(s: seq<T>, leq: (T, T) -> bool)
    requires TotalPreorder(leq)
    ensures SortedBy(SortBy(s, leq), leq)
  {
    if s != [] {
      SortBySorts(s[..|s| - 1], leq);
      InsertBySorted(SortBy(s[..|s| - 1], leq), s[|s| - 1], leq);
    }
  }

  /** Inserting an element no smaller than everything appends it. */
  lemma {:induction false} InsertByLast<T(!new)>(s: seq<T>, x: T, leq: (T, T) -> bool)
    requires forall i :: 0 <= i < |s| ==> leq(s[i], x)
    ensures InsertBy(s, x, leq) == s + [x]
  {
    if s != [] {
      InsertByLast(s[1..], x, leq);
      assert s == [s[0]] + s[1..];
    }
  }

  /** Sorting an already sorted sequence returns it unchanged. */
  lemma {:induction false} SortBySorted<T(!new)>(s: seq<T>, leq: (T, T) -> bool)
    requires SortedBy(s, leq)
    ensures SortBy(s, leq) == s
  {
    if s != [] {
      var init := s[..|s| - 1];
      assert SortedBy(init, leq);
      SortBySorted(init, leq);
      InsertByLast(init, s[|s| - 1], leq);
      assert init + [s[|s| - 1]] == s;
    }
  }

  /** Appending one element to a sorted sequence and sorting is a stable
      insertion of that element. */
  lemma SortAppended<T(!new)>(s: seq<T>, x: T, leq: (T, T) -> bool)
    requires SortedBy(s, leq)
    ensures SortBy(s + [x], leq) == InsertBy(s, x, leq)
  {
    assert (s + [x])[..|s|] == s;
    SortBySorted(s, leq);
  }

  lemma {:induction false} InsertByKeepsKeysDistinct<T(!new), K>(s: seq<T>, x: T, leq: (T, T) -> bool, key: T -> K)
    requires KeysDistinct(s, key)
    requires forall i :: 0 <= i < |s| ==> key(s[i]) != key(x)
    ensures KeysDistinct(InsertBy(s, x, leq), key)
  {
    if s != [] && leq(s[0], x) {
      var rest := InsertBy(s[1..], x, leq);
      assert KeysDistinct(s[1..], key);
      InsertByKeepsKeysDistinct(s[1..], x, leq, key);
      assert InsertBy(s, x, leq) == [s[0]] + rest;
      forall k | 0 <= k < |rest|
        ensures key(s[0]) != key(rest[k])
      {
        assert rest[k] in multiset(rest);
        if rest[k] != x {
          assert rest[k] in s[1..];
          var j :| 1 <= j < |s| && s[j] == rest[k];
        }
      }
    }
  }

  /** Sorting never makes two elements share a key. */
  lemma {:induction false} SortByKeepsKeysDistinct<T(!new), K>(s: seq<T>, leq: (T, T) -> bool, key: T -> K)
    requires KeysDistinct(s, key)
    ensures KeysDistinct(SortBy(s, leq), key)
  {
    if s != [] {
      var init := s[..|s| - 1];
      var sorted := SortBy(init, leq);
      assert KeysDistinct(init, key);
      SortByKeepsKeysDistinct(init, leq, key);
      forall i | 0 <= i < |sorted|
        ensures key(sorted[i]) != key(s[|s| - 1])
      {
        assert sorted[i] in multiset(init);
        var j :| 0 <= j < |init| && init[j] == sorted[i];
      }
      InsertByKeepsKeysDistinct(sorted, s[|s| - 1], leq, key);
    }
  }

  /** `Array.prototype.filter`: the elements satisfying `keep`, in order,
      each as often as in `s`. */
  function Filter<T(!new)>(s: seq<T>, keep: T -> bool): (r: seq<T>)
    ensures |r| <= |s|
    ensures IsSubsequence(r, s)
    ensures forall x :: multiset(r)[x] == if keep(x) then multiset(s)[x] else 0
    ensures forall x :: x in r <==> x in s && keep(x)
  {
    if s == [] then []
    else
      var rest := Filter(s[1..], keep);
      assert s == [s[0]] + s[1..];
      if keep(s[0]) then
        assert ([s[0]] + rest)[1..] == rest;
        [s[0]] + rest
      else
        assert rest == [] || rest[0] != s[0] by {
          if rest != [] { assert rest[0] in rest; }
        }
        SubsequenceSkip(rest, s);
        rest
  }

  /** A subsequence of `s[1..]` is a subsequence of `s`. */
  lemma {:induction false} SubsequenceSkip<T>(r: seq<T>, s: seq<T>)
    requires s != [] && IsSubsequence(r, s[1..])
    ensures IsSubsequence(r, s)
    decreases |s|, 0
  {
    if r != [] && r[0] == s[0] {
      SubsequenceTail(r, s[1..]);
    }
  }

  /** Dropping the first element of a nonempty subsequence keeps it a
      subsequence of the same sequence. */
  lemma {:induction false} SubsequenceTail<T>(r: seq<T>, s: seq<T>)
    requires r != [] && IsSubsequence(r, s)
    ensures IsSubsequence(r[1..], s)
    decreases |s|, 1
  {
    if r[1..] != [] {
      if r[0] != s[0] {
        SubsequenceTail(r, s[1..]);
      }
      SubsequenceSkip(r[1..], s);
    }
  }

  /** Every element of a subsequence is an element of the sequence. */
  lemma {:induction false} SubsequenceMembers<T>(r: seq<T>, s: seq<T>)
    requires IsSubsequence(r, s)
    ensures forall x :: x in r ==> x in s
    decreases |s|
  {
    if r != [] {
      if r[0] == s[0] {
        SubsequenceMembers(r[1..], s[1..]);
        forall x | x in r
          ensures x in s
        {
          if x != r[0] { assert x in r[1..]; assert x in s[1..]; }
        }
      } else {
        SubsequenceMembers(r, s[1..]);
      }
    }
  }

  /** Keeping some elements in order never makes two of them share a key. */
  lemma {:induction false} SubsequenceKeepsKeysDistinct<T, K>(r: seq<T>, s: seq<T>, key: T -> K)
    requires IsSubsequence(r, s) && KeysDistinct(s, key)
    ensures KeysDistinct(r, key)
    decreases |s|
  {
    if r != [] {
      assert KeysDistinct(s[1..], key);
      if r[0] == s[0] {
        SubsequenceKeepsKeysDistinct(r[1..], s[1..], key);
        SubsequenceMembers(r[1..], s[1..]);
        forall i, j | 0 <= i < j < |r|
          ensures key(r[i]) != key(r[j])
        {
          if i == 0 {
            assert r[j] in r[1..];
            var m :| 0 <= m < |s[1..]| && s[1..][m] == r[j];
            assert s[m + 1] == r[j];
          } else {
            assert r[i] == r[1..][i - 1] && r[j] == r[1..][j - 1];
          }
        }
      } else {
        SubsequenceKeepsKeysDistinct(r, s[1..], key);
      }
    }
  }
}
