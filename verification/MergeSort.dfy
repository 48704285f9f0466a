/**
 * The sort of solution.c: get_sorted_numbers and merge_sorted_arrays.
 *
 * Merge and Sorted are the values the two functions produce; MergeIx and SortIx are the same
 * recursions on positions, and say where every number comes from.
 */
module MergeSort {
  // ---------------------------------------------------------------- values

  /** Ties are taken from the left. */
  function Merge(a: seq<int>, b: seq<int>): (r: seq<int>)
    ensures |r| == |a| + |b|
  {
    if a == [] then b
    else if b == [] then a
    else if a[0] <= b[0] then [a[0]] + Merge(a[1..], b)
    else [b[0]] + Merge(a, b[1..])
  }

  function Sorted(s: seq<int>): (r: seq<int>)
    requires s != []
    ensures |r| == |s|
    decreases |s|
  {
    if |s| == 1 then s
    else if |s| == 2 then (if s[0] > s[1] then [s[1], s[0]] else s)
    else Merge(Sorted(s[..|s| / 2]), Sorted(s[|s| / 2..]))
  }

  // ---------------------------------------------------------------- positions

  function MergeIx(k: seq<int>, a: seq<nat>, b: seq<nat>): (r: seq<nat>)
    requires In(k, a) && In(k, b)
    ensures In(k, r) && |r| == |a| + |b|
  {
    if a == [] then b
    else if b == [] then a
    else if k[a[0]] <= k[b[0]] then [a[0]] + MergeIx(k, a[1..], b)
    else [b[0]] + MergeIx(k, a, b[1..])
  }

  /** Where the numbers k[lo..lo + n] end up. */
  function SortIx(k: seq<int>, lo: nat, n: nat): (r: seq<nat>)
    requires n > 0 && lo + n <= |k|
    ensures In(k, r) && |r| == n
    decreases n
  {
    if n == 1 then [lo]
    else if n == 2 then (if k[lo] > k[lo + 1] then [lo + 1, lo] else [lo, lo + 1])
    else MergeIx(k, SortIx(k, lo, n / 2), SortIx(k, lo + n / 2, n - n / 2))
  }

  predicate In(k: seq<int>, p: seq<nat>) { forall i | 0 <= i < |p| :: p[i] < |k| }

  function Values(k: seq<int>, p: seq<nat>): (r: seq<int>)
    requires In(k, p)
    ensures |r| == |p| && forall i | 0 <= i < |p| :: r[i] == k[p[i]]
  {
    seq(|p|, i requires 0 <= i < |p| => k[p[i]])
  }

  lemma {:induction false} MergeValues(k: seq<int>, a: seq<nat>, b: seq<nat>)
    requires In(k, a) && In(k, b)
    ensures Merge(Values(k, a), Values(k, b)) == Values(k, MergeIx(k, a, b))
  {
    var x, y := Values(k, a), Values(k, b);
    if a != [] && b != [] {
      Unfold(k, a, b);
      hide MergeIx;
      if k[a[0]] <= k[b[0]] {
        MergeValues(k, a[1..], b);
        assert x[1..] == Values(k, a[1..]);
        ValuesCons(k, a[0], MergeIx(k, a[1..], b));
      } else {
        MergeValues(k, a, b[1..]);
        assert y[1..] == Values(k, b[1..]);
        ValuesCons(k, b[0], MergeIx(k, a, b[1..]));
      }
    }
  }

  lemma ValuesCons(k: seq<int>, x: nat, p: seq<nat>)
    requires x < |k| && In(k, p)
    ensures Values(k, [x] + p) == [k[x]] + Values(k, p)
  {
  }

  lemma SplitSorted(s: seq<int>, m: nat)
    requires |s| > 2 && m == |s| / 2
    ensures 0 < m < |s| && Sorted(s) == Merge(Sorted(s[..m]), Sorted(s[m..]))
  {
    hide Merge;
  }

  lemma SplitIx(k: seq<int>, lo: nat, n: nat, m: nat)
    requires n > 2 && m == n / 2 && lo + n <= |k|
    ensures 0 < m < n && SortIx(k, lo, n) == MergeIx(k, SortIx(k, lo, m), SortIx(k, lo + m, n - m))
  {
    hide MergeIx;
  }

  lemma SmallValues(k: seq<int>, lo: nat, n: nat)
    requires 0 < n <= 2 && lo + n <= |k|
    ensures Sorted(k[lo..lo + n]) == Values(k, SortIx(k, lo, n))
  {
    hide Merge, MergeIx;
  }

  /** Sorting the numbers is sorting their positions. */
  lemma {:induction false} SortedIsValues(k: seq<int>, lo: nat, n: nat)
    requires n > 0 && lo + n <= |k|
    ensures Sorted(k[lo..lo + n]) == Values(k, SortIx(k, lo, n))
    decreases n
  {
    hide Sorted, SortIx, Merge, MergeIx, Values;
    if n <= 2 {
      SmallValues(k, lo, n);
    } else {
      var s, m := k[lo..lo + n], n / 2;
      SplitSorted(s, m);
      SplitIx(k, lo, n, m);
      SortedIsValues(k, lo, m);
      SortedIsValues(k, lo + m, n - m);
      assert s[..m] == k[lo..lo + m] && s[m..] == k[lo + m..lo + n];
      MergeValues(k, SortIx(k, lo, m), SortIx(k, lo + m, n - m));
    }
  }

  /** Position x goes before position y: a smaller number, or the same number standing earlier. */
  predicate Less(k: seq<int>, x: nat, y: nat)
    requires x < |k| && y < |k|
  {
    k[x] < k[y] || (k[x] == k[y] && x < y)
  }

  ghost predicate Ascending(k: seq<int>, p: seq<nat>)
    requires In(k, p)
  {
    forall i, j | 0 <= i < j < |p| :: Less(k, p[i], p[j])
  }

  lemma {:induction false} MergeMembers(k: seq<int>, a: seq<nat>, b: seq<nat>)
    requires In(k, a) && In(k, b)
    ensures multiset(MergeIx(k, a, b)) == multiset(a) + multiset(b)
  {
    hide MergeIx;
    Unfold(k, a, b);
    if a != [] && b != [] {
      if k[a[0]] <= k[b[0]] {
        MergeMembers(k, a[1..], b);
        assert multiset(a) == multiset{a[0]} + multiset(a[1..]) by { assert a == [a[0]] + a[1..]; }
      } else {
        MergeMembers(k, a, b[1..]);
        assert multiset(b) == multiset{b[0]} + multiset(b[1..]) by { assert b == [b[0]] + b[1..]; }
      }
    }
  }

  lemma Unfold(k: seq<int>, a: seq<nat>, b: seq<nat>)
    requires In(k, a) && In(k, b)
    ensures MergeIx(k, a, b)
      == if a == [] then b else if b == [] then a
         else if k[a[0]] <= k[b[0]] then [a[0]] + MergeIx(k, a[1..], b)
         else [b[0]] + MergeIx(k, a, b[1..])
  {
  }

  lemma FromEither(k: seq<int>, a: seq<nat>, b: seq<nat>, j: nat)
    requires In(k, a) && In(k, b) && j < |a| + |b|
    ensures MergeIx(k, a, b)[j] in a || MergeIx(k, a, b)[j] in b
  {
    MergeMembers(k, a, b);
    assert MergeIx(k, a, b)[j] in multiset(MergeIx(k, a, b));
  }

  /** Merging keeps the order when every position of a stands before every position of b. */
  lemma {:induction false} MergeAscending(k: seq<int>, a: seq<nat>, b: seq<nat>)
    requires In(k, a) && In(k, b) && Ascending(k, a) && Ascending(k, b)
    requires forall x, y | x in a && y in b :: x < y
    ensures Ascending(k, MergeIx(k, a, b))
  {
    if a != [] && b != [] {
      var r := MergeIx(k, a, b);
      if k[a[0]] <= k[b[0]] {
        Tail(k, a);
        MergeAscending(k, a[1..], b);
        forall j | 0 < j < |r| ensures Less(k, r[0], r[j]) {
          FromEither(k, a[1..], b, j - 1);
          FirstIsLeast(k, a, b, r[j]);
        }
      } else {
        Tail(k, b);
        MergeAscending(k, a, b[1..]);
        forall j | 0 < j < |r| ensures Less(k, r[0], r[j]) {
          FromEither(k, a, b[1..], j - 1);
          FirstIsLeast(k, a, b, r[j]);
        }
      }
    }
  }

  lemma Tail(k: seq<int>, a: seq<nat>)
    requires a != [] && In(k, a)
    ensures forall x | x in a[1..] :: x in a
    ensures Ascending(k, a) ==> Ascending(k, a[1..])
  {
  }

  lemma FirstIsLeast(k: seq<int>, a: seq<nat>, b: seq<nat>, x: nat)
    requires In(k, a) && In(k, b) && Ascending(k, a) && Ascending(k, b) && a != [] && b != []
    requires forall x, y | x in a && y in b :: x < y
    requires x in a || x in b
    ensures x < |k|
    ensures k[a[0]] <= k[b[0]] && (x in a[1..] || x in b) ==> Less(k, a[0], x)
    ensures k[a[0]] > k[b[0]] && (x in a || x in b[1..]) ==> Less(k, b[0], x)
  {
    assert a[0] in a && b[0] in b;
    assert forall i | 0 < i < |a| :: Less(k, a[0], a[i]);
    assert forall i | 0 < i < |b| :: Less(k, b[0], b[i]);
  }

  function Range(lo: nat, n: nat): (r: seq<nat>)
    ensures |r| == n && forall i | 0 <= i < n :: r[i] == lo + i
  {
    seq(n, i => lo + i)
  }

  /**
   * The sort is a stable one: the positions of its output are those of its input, each once, in the order of
   * their numbers, and equal numbers keep their order.
   */
  lemma {:induction false} SortIsStable(k: seq<int>, lo: nat, n: nat)
    requires n > 0 && lo + n <= |k|
    ensures multiset(SortIx(k, lo, n)) == multiset(Range(lo, n))
    ensures Ascending(k, SortIx(k, lo, n))
    decreases n
  {
    hide SortIx, MergeIx, Ascending, Range;
    if n <= 2 {
      SmallStable(k, lo, n);
    } else {
      var m := n / 2;
      SplitIx(k, lo, n, m);
      SortIsStable(k, lo, m);
      SortIsStable(k, lo + m, n - m);
      var a, b := SortIx(k, lo, m), SortIx(k, lo + m, n - m);
      assert Range(lo, n) == Range(lo, m) + Range(lo + m, n - m);
      MergeMembers(k, a, b);
      InRange(a, lo, m);
      InRange(b, lo + m, n - m);
      MergeAscending(k, a, b);
    }
  }

  lemma SmallStable(k: seq<int>, lo: nat, n: nat)
    requires 0 < n <= 2 && lo + n <= |k|
    ensures multiset(SortIx(k, lo, n)) == multiset(Range(lo, n))
    ensures Ascending(k, SortIx(k, lo, n))
  {
    hide MergeIx;
    if n == 1 { assert Range(lo, 1) == [lo]; } else { assert Range(lo, 2) == [lo, lo + 1]; }
  }

  lemma InRange(p: seq<nat>, lo: nat, n: nat)
    requires multiset(p) == multiset(Range(lo, n))
    ensures forall x | x in p :: lo <= x < lo + n
  {
    forall x | x in p ensures lo <= x < lo + n {
      assert x in multiset(p) && x in Range(lo, n);
    }
  }

  ghost predicate IsSorted(s: seq<int>) { forall i, j | 0 <= i < j < |s| :: s[i] <= s[j] }

  lemma {:induction false} MergePermutes(a: seq<int>, b: seq<int>)
    ensures multiset(Merge(a, b)) == multiset(a) + multiset(b)
  {
    if a != [] && b != [] {
      MergeTakes(a, b);
      hide Merge;
      if a[0] <= b[0] {
        MergePermutes(a[1..], b);
        HeadCounted(a);
        HeadCounted(Merge(a, b));
      } else {
        MergePermutes(a, b[1..]);
        HeadCounted(b);
        HeadCounted(Merge(a, b));
      }
    }
  }

  lemma MergeTakes(a: seq<int>, b: seq<int>)
    requires a != [] && b != []
    ensures var r := Merge(a, b);
      if a[0] <= b[0] then r[0] == a[0] && r[1..] == Merge(a[1..], b) else r[0] == b[0] && r[1..] == Merge(a, b[1..])
  {
  }

  lemma HeadCounted(s: seq<int>)
    requires s != []
    ensures multiset(s) == multiset{s[0]} + multiset(s[1..])
  {
    assert s == [s[0]] + s[1..];
  }

  lemma {:induction false} Permutes(s: seq<int>)
    requires s != []
    ensures multiset(Sorted(s)) == multiset(s)
    decreases |s|
  {
    if |s| == 2 {
      assert s == [s[0], s[1]];
    } else if |s| > 2 {
      var m := |s| / 2;
      assert s == s[..m] + s[m..];
      Permutes(s[..m]);
      Permutes(s[m..]);
      MergePermutes(Sorted(s[..m]), Sorted(s[m..]));
    }
  }

  /** What get_sorted_numbers returns: the numbers it was given, in order. */
  lemma SortsIntoOrder(s: seq<int>)
    requires s != []
    ensures IsSorted(Sorted(s)) && multiset(Sorted(s)) == multiset(s)
  {
    hide Sorted, SortIx, Range;
    Permutes(s);
    SortIsStable(s, 0, |s|);
    SortedIsValues(s, 0, |s|);
    assert s[0..|s|] == s;
    var p := SortIx(s, 0, |s|);
    forall i, j | 0 <= i < j < |s| ensures Sorted(s)[i] <= Sorted(s)[j] { assert Less(s, p[i], p[j]); }
  }

  /** There is only one way to put numbers in order. */
  lemma {:induction false} OrderIsUnique(a: seq<int>, b: seq<int>)
    requires IsSorted(a) && IsSorted(b) && multiset(a) == multiset(b)
    ensures a == b
  {
    assert |multiset(a)| == |a| && |multiset(b)| == |b|;
    if a != [] {
      LeastFirst(a, b);
      LeastFirst(b, a);
      assert multiset(a[1..]) == multiset(a) - multiset{a[0]} by { assert a == [a[0]] + a[1..]; }
      assert multiset(b[1..]) == multiset(b) - multiset{b[0]} by { assert b == [b[0]] + b[1..]; }
      OrderIsUnique(a[1..], b[1..]);
    }
  }

  lemma LeastFirst(a: seq<int>, b: seq<int>)
    requires IsSorted(a) && a != [] && b != [] && multiset(a) == multiset(b)
    ensures a[0] <= b[0]
  {
    assert b[0] in multiset(a);
  }

  // ---------------------------------------------------------------- costs

  /** How often sorting n numbers yields. */
  function Yields(n: nat): (y: nat)
    requires n > 0
    ensures y > 0
  {
    if n <= 2 then 1 else 1 + Yields(n / 2) + Yields(n - n / 2)
  }

  lemma {:induction false} YieldBounds(n: nat)
    requires n >= 2
    ensures n - 1 <= Yields(n) && 3 * Yields(n) <= 4 * n - 3
  {
    hide Yields;
    FewYields();
    if n > 2 { SplitYields(n, n / 2); }
    if n > 3 {
      YieldBounds(n / 2);
      YieldBounds(n - n / 2);
    }
  }

  function Pow2(e: nat): nat { if e == 0 then 1 else 2 * Pow2(e - 1) }

  lemma SplitYields(n: nat, m: nat)
    requires n > 2 && m == n / 2
    ensures 0 < m < n && Yields(n) == 1 + Yields(m) + Yields(n - m)
  {
  }

  /** Both bounds are met: by powers of two, and by three times a power of two. */
  lemma {:induction false} YieldBoundsTight(e: nat)
    ensures Pow2(e) > 0 && Yields(2 * Pow2(e)) == 2 * Pow2(e) - 1
    ensures 3 * Yields(3 * Pow2(e)) == 4 * (3 * Pow2(e)) - 3
  {
    hide Yields;
    FewYields();
    if e == 0 {
      SplitYields(3, 1);
    } else {
      YieldBoundsTight(e - 1);
      var h := Pow2(e - 1);
      SplitYields(4 * h, 2 * h);
      SplitYields(6 * h, 3 * h);
    }
  }

  lemma FewYields()
    ensures Yields(1) == 1 && Yields(2) == 1
  {
  }

  /** How many numbers the merges of a sort of n copy. */
  function Copies(n: nat): nat
    requires n > 0
  {
    if n <= 2 then 0 else n + Copies(n / 2) + Copies(n - n / 2)
  }

  /** The least e with n <= 2^e. */
  function CeilLog2(n: nat): (e: nat)
    requires n > 0
    ensures n <= Pow2(e) && (e > 0 ==> Pow2(e - 1) < n)
  {
    if n == 1 then 0 else 1 + CeilLog2(n - n / 2)
  }

  lemma SplitCopies(n: nat, m: nat)
    requires n > 2 && m == n / 2
    ensures 0 < m < n && Copies(n) == n + Copies(m) + Copies(n - m)
  {
  }

  lemma {:induction false} CopiesWithin(n: nat, e: nat)
    requires n > 0 && n <= Pow2(e)
    ensures Copies(n) <= n * e
    decreases n
  {
    hide Copies, Pow2;
    if n <= 2 {
      FewCopies(n);
      assert n * e >= 0;
    } else {
      var m := n / 2;
      Halved(n, e);
      SplitCopies(n, m);
      CopiesWithin(m, e - 1);
      CopiesWithin(n - m, e - 1);
      assert m * (e - 1) + (n - m) * (e - 1) == n * (e - 1) == n * e - n;
    }
  }

  lemma FewCopies(n: nat)
    requires 0 < n <= 2
    ensures Copies(n) == 0
  {
  }

  lemma Halved(n: nat, e: nat)
    requires 2 < n <= Pow2(e)
    ensures e > 0 && n / 2 <= n - n / 2 <= Pow2(e - 1)
  {
  }

  /** At most n ceil(log2 n) numbers are copied by merges. */
  lemma CopyBound(n: nat)
    requires n > 0
    ensures Copies(n) <= n * CeilLog2(n)
  {
    CopiesWithin(n, CeilLog2(n));
  }

  /** A power of two is copied as a whole on every level of the recursion but the last. */
  lemma {:induction false} CopyBoundTight(e: nat)
    ensures Pow2(e) > 0 && Copies(2 * Pow2(e)) == 2 * Pow2(e) * e
  {
    hide Copies;
    if e == 0 {
      FewCopies(2);
    } else {
      CopyBoundTight(e - 1);
      var h := Pow2(e - 1);
      SplitCopies(4 * h, 2 * h);
      assert 4 * h + 2 * (2 * h * (e - 1)) == 4 * h * e;
    }
  }

  // ---------------------------------------------------------------- the code

  /** The positions still to be merged, behind those already taken. */
  ghost function Rest(k: seq<int>, done: seq<nat>, a: seq<nat>, b: seq<nat>): seq<nat>
    requires In(k, a) && In(k, b)
  {
    done + MergeIx(k, a, b)
  }

  /** So many of a and of b have been taken, in the order of MergeIx, and result holds their numbers. */
  ghost predicate Merging(k: seq<int>, a: seq<nat>, b: seq<nat>, l: nat, r: nat, done: seq<nat>, result: seq<int>) {
    && In(k, a) && In(k, b) && In(k, done) && l <= |a| && r <= |b| && |done| == l + r
    && Rest(k, done, a[l..], b[r..]) == MergeIx(k, a, b) && result == Values(k, done)
  }

  lemma MergingStarts(k: seq<int>, a: seq<nat>, b: seq<nat>)
    requires In(k, a) && In(k, b)
    ensures Merging(k, a, b, 0, 0, [], [])
  {
    assert a[0..] == a && b[0..] == b && [] + MergeIx(k, a, b) == MergeIx(k, a, b);
  }

  lemma MergingEnds(k: seq<int>, a: seq<nat>, b: seq<nat>, done: seq<nat>, result: seq<int>)
    requires Merging(k, a, b, |a|, |b|, done, result)
    ensures done == MergeIx(k, a, b) && result == Merge(Values(k, a), Values(k, b))
  {
    assert a[|a|..] == [] && b[|b|..] == [] && done + [] == done;
    MergeValues(k, a, b);
  }

  lemma TakesLeft(k: seq<int>, a: seq<nat>, b: seq<nat>)
    requires In(k, a) && In(k, b) && a != [] && (b == [] || k[a[0]] <= k[b[0]])
    ensures MergeIx(k, a, b) == [a[0]] + MergeIx(k, a[1..], b)
  {
  }

  lemma TakesRight(k: seq<int>, a: seq<nat>, b: seq<nat>)
    requires In(k, a) && In(k, b) && b != [] && (a == [] || k[b[0]] < k[a[0]])
    ensures MergeIx(k, a, b) == [b[0]] + MergeIx(k, a, b[1..])
  {
  }

  /** One more number is behind the cursors. */
  lemma OneDone(k: seq<int>, done: seq<nat>, x: nat, rest: seq<nat>)
    requires In(k, done) && x < |k|
    ensures done + ([x] + rest) == (done + [x]) + rest
    ensures In(k, done + [x]) && Values(k, done + [x]) == Values(k, done) + [k[x]]
  {
  }

  /** A number is taken from the left part: also when it equals the next one of the right part. */
  lemma TakeLeft(k: seq<int>, a: seq<nat>, b: seq<nat>, l: nat, r: nat, done: seq<nat>, result: seq<int>)
    requires Merging(k, a, b, l, r, done, result) && l < |a| && (r == |b| || k[a[l]] <= k[b[r]])
    ensures Merging(k, a, b, l + 1, r, done + [a[l]], result + [k[a[l]]])
  {
    hide MergeIx, Values;
    TakesLeft(k, a[l..], b[r..]);
    assert a[l..][1..] == a[l + 1..];
    OneDone(k, done, a[l], MergeIx(k, a[l + 1..], b[r..]));
  }

  /** A number is taken from the right part: only when it is less than the next one of the left part. */
  lemma TakeRight(k: seq<int>, a: seq<nat>, b: seq<nat>, l: nat, r: nat, done: seq<nat>, result: seq<int>)
    requires Merging(k, a, b, l, r, done, result) && r < |b| && (l == |a| || k[b[r]] < k[a[l]])
    ensures Merging(k, a, b, l, r + 1, done + [b[r]], result + [k[b[r]]])
  {
    hide MergeIx, Values;
    TakesRight(k, a[l..], b[r..]);
    assert b[r..][1..] == b[r + 1..];
    OneDone(k, done, b[r], MergeIx(k, a[l..], b[r + 1..]));
  }

  /** result[idx++] = part[i++], with the position of the number. */
  method CopyOne(result: array<int>, idx: nat, part: array<int>, i: nat)
    requires idx < result.Length && i < part.Length && result != part
    modifies result
    ensures result[..idx + 1] == old(result[..idx]) + [part[i]]
  {
    result[idx] := part[i];
  }

  /**
   * Lines 237-267. The numbers of a and b are those at positions pa and pb of k; positions follows where every
   * number of the result comes from.
   */
  method MergeSortedArrays(a: array<int>, b: array<int>, ghost k: seq<int>, ghost pa: seq<nat>, ghost pb: seq<nat>)
    returns (merged: array<int>, ghost positions: seq<nat>)
    requires In(k, pa) && In(k, pb) && a[..] == Values(k, pa) && b[..] == Values(k, pb)
    ensures fresh(merged) && merged[..] == Merge(a[..], b[..])
    ensures positions == MergeIx(k, pa, pb) && merged[..] == Values(k, positions)
  {
    hide Merge, Merging, Rest, MergeIx;
    var idx, lIdx, rIdx := 0, 0, 0;
    var result := new int[a.Length + b.Length];
    positions := [];
    MergingStarts(k, pa, pb);
    assert result[..0] == [];
    assert forall i | 0 <= i < a.Length :: a[i] == a[..][i] == k[pa[i]];
    assert forall i | 0 <= i < b.Length :: b[i] == b[..][i] == k[pb[i]];
    while lIdx < a.Length || rIdx < b.Length
      invariant 0 <= lIdx <= a.Length && 0 <= rIdx <= b.Length && idx == lIdx + rIdx
      invariant Merging(k, pa, pb, lIdx, rIdx, positions, result[..idx])
      decreases result.Length - idx
    {
      if lIdx >= a.Length {
        while rIdx < b.Length
          invariant lIdx == a.Length && 0 <= rIdx <= b.Length && idx == lIdx + rIdx
          invariant Merging(k, pa, pb, lIdx, rIdx, positions, result[..idx])
        {
          TakeRight(k, pa, pb, lIdx, rIdx, positions, result[..idx]);
          CopyOne(result, idx, b, rIdx);
          positions := positions + [pb[rIdx]];
          idx, rIdx := idx + 1, rIdx + 1;
        }
      } else if rIdx >= b.Length {
        while lIdx < a.Length
          invariant rIdx == b.Length && 0 <= lIdx <= a.Length && idx == lIdx + rIdx
          invariant Merging(k, pa, pb, lIdx, rIdx, positions, result[..idx])
        {
          TakeLeft(k, pa, pb, lIdx, rIdx, positions, result[..idx]);
          CopyOne(result, idx, a, lIdx);
          positions := positions + [pa[lIdx]];
          idx, lIdx := idx + 1, lIdx + 1;
        }
      } else if a[lIdx] <= b[rIdx] {
        TakeLeft(k, pa, pb, lIdx, rIdx, positions, result[..idx]);
        CopyOne(result, idx, a, lIdx);
        positions := positions + [pa[lIdx]];
        idx, lIdx := idx + 1, lIdx + 1;
      } else {
        ghost var from := idx;
        while rIdx < b.Length && b[rIdx] < a[lIdx]
          invariant 0 <= lIdx < a.Length && 0 <= rIdx <= b.Length && idx == lIdx + rIdx && from <= idx
          invariant from == idx ==> rIdx < b.Length && b[rIdx] < a[lIdx]
          invariant Merging(k, pa, pb, lIdx, rIdx, positions, result[..idx])
          decreases b.Length - rIdx
        {
          TakeRight(k, pa, pb, lIdx, rIdx, positions, result[..idx]);
          CopyOne(result, idx, b, rIdx);
          positions := positions + [pb[rIdx]];
          idx, rIdx := idx + 1, rIdx + 1;
        }
      }
    }
    merged := result;
    assert result[..idx] == result[..];
    MergingEnds(k, pa, pb, positions, result[..]);
    Done(k, pa, pb, positions, result[..]);
  }

  lemma Done(k: seq<int>, a: seq<nat>, b: seq<nat>, done: seq<nat>, result: seq<int>)
    requires Merging(k, a, b, |a|, |b|, done, result)
    ensures result == Values(k, done)
  {
  }

  /**
   * Lines 193-234, on the len numbers from numbers + from. switches counts the calls of coro_yield, copied the
   * numbers written by merges, and positions says where every number of the result comes from.
   */
  method GetSortedNumbers(numbers: array<int>, from: nat, len: nat)
    returns (result: array<int>, switches: nat, copied: nat, ghost positions: seq<nat>)
    requires len > 0 && from + len <= numbers.Length
    ensures fresh(result) && result[..] == Sorted(numbers[from..from + len])
    ensures positions == SortIx(numbers[..], from, len) && result[..] == Values(numbers[..], positions)
    ensures switches == Yields(len) && copied == Copies(len)
    decreases len
  {
    hide Sorted, Merge, MergeIx, SortIx, Yields, Copies;
    switches, copied := 0, 0;
    ghost var k := numbers[..];
    Counts(len);
    if len == 1 {
      result := new int[1];
      result[0] := numbers[from];
      positions := [from];
      FewIx(k, from, len);
      assert result[..] == Values(k, positions);
    } else if len == 2 {
      result := new int[2];
      result[0], result[1] := numbers[from], numbers[from + 1];
      positions := [from, from + 1];
      if result[0] > result[1] {
        var temp := result[0];
        result[0] := result[1];
        result[1] := temp;
        positions := [positions[1], positions[0]];
      }
      FewIx(k, from, len);
      assert result[..] == Values(k, positions);
    } else {
      var leftLen := len / 2;
      var rightLen := len - leftLen;
      var leftSorted, leftSwitches, leftCopied;
      var rightSorted, rightSwitches, rightCopied;
      ghost var pl, pr;
      leftSorted, leftSwitches, leftCopied, pl := GetSortedNumbers(numbers, from, leftLen);
      rightSorted, rightSwitches, rightCopied, pr := GetSortedNumbers(numbers, from + leftLen, rightLen);
      result, positions := MergeSortedArrays(leftSorted, rightSorted, k, pl, pr);
      SplitIx(k, from, len, leftLen);
      assert |result[..]| == |positions| == len;
      switches, copied := leftSwitches + rightSwitches, leftCopied + rightCopied + result.Length;
    }
    SortedIsValues(k, from, len);
    assert k[from..from + len] == numbers[from..from + len];
    // coro_yield
    switches := switches + 1;
  }

  lemma Counts(n: nat)
    requires n > 0
    ensures n <= 2 ==> Yields(n) == 1 && Copies(n) == 0
    ensures n > 2 ==> Yields(n) == 1 + Yields(n / 2) + Yields(n - n / 2)
    ensures n > 2 ==> Copies(n) == n + Copies(n / 2) + Copies(n - n / 2)
  {
    hide Yields, Copies;
    if n > 2 {
      SplitYields(n, n / 2);
      SplitCopies(n, n / 2);
    } else {
      FewYields();
      FewCopies(n);
    }
  }

  lemma FewIx(k: seq<int>, lo: nat, n: nat)
    requires 0 < n <= 2 && lo + n <= |k|
    ensures SortIx(k, lo, n) == if n == 2 then (if k[lo] > k[lo + 1] then [lo + 1, lo] else [lo, lo + 1]) else [lo]
  {
    hide MergeIx;
  }
}
