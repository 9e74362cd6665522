/** The kernel's qsort: in place, for any comparator that is a total preorder. */
module QuickSort {

  /** comp orders the elements: of two elements one comes first, and the order chains. */
  ghost predicate TotalPreorder<T(!new)>(comp: (T, T) -> int) {
    && (forall x, y :: comp(x, y) <= 0 || comp(y, x) <= 0)
    && (forall x, y, z :: comp(x, y) <= 0 && comp(y, z) <= 0 ==> comp(x, z) <= 0)
  }

  ghost predicate Sorted<T>(s: seq<T>, comp: (T, T) -> int) {
    forall i, j :: 0 <= i < j < |s| ==> comp(s[i], s[j]) <= 0
  }

  /** Every element of s[lo..hi] comes strictly before the pivot. */
  ghost predicate Below<T>(s: seq<T>, lo: nat, hi: nat, pivot: T, comp: (T, T) -> int)
    requires hi <= |s|
  {
    forall i :: lo <= i < hi ==> comp(pivot, s[i]) > 0
  }

  /** No element of s[lo..hi] does. */
  ghost predicate Above<T>(s: seq<T>, lo: nat, hi: nat, pivot: T, comp: (T, T) -> int)
    requires hi <= |s|
  {
    forall i :: lo <= i < hi ==> comp(pivot, s[i]) <= 0
  }

  ghost predicate Perm<T>(s: seq<T>, t: seq<T>) { multiset(s) == multiset(t) }

  /** Rearranging a range keeps each element's side of the pivot. */
  lemma {:induction false} PermBelow<T>(s: seq<T>, t: seq<T>, lo: nat, hi: nat, pivot: T, comp: (T, T) -> int)
    requires Shuffled(s, t, lo, hi) && Below(s, lo, hi, pivot, comp)
    ensures Below(t, lo, hi, pivot, comp)
  {
    forall i | lo <= i < hi ensures comp(pivot, t[i]) > 0 {
      assert t[i] == t[lo..hi][i - lo];
      assert t[i] in multiset(t[lo..hi]);
      assert t[i] in s[lo..hi];
    }
  }

  lemma {:induction false} PermAbove<T>(s: seq<T>, t: seq<T>, lo: nat, hi: nat, pivot: T, comp: (T, T) -> int)
    requires Shuffled(s, t, lo, hi) && Above(s, lo, hi, pivot, comp)
    ensures Above(t, lo, hi, pivot, comp)
  {
    forall i | lo <= i < hi ensures comp(pivot, t[i]) <= 0 {
      assert t[i] == t[lo..hi][i - lo];
      assert t[i] in multiset(t[lo..hi]);
      assert t[i] in s[lo..hi];
    }
  }

  /** Everything outside [lo, hi) is as it was, and inside only the order changed. */
  ghost predicate Shuffled<T>(s: seq<T>, t: seq<T>, lo: nat, hi: nat) {
    && lo <= hi <= |s| == |t|
    && (forall i :: 0 <= i < |s| && !(lo <= i < hi) ==> t[i] == s[i])
    && Perm(s[lo..hi], t[lo..hi])
  }

  lemma {:induction false} ShuffledTwice<T>(s: seq<T>, t: seq<T>, u: seq<T>, lo: nat, hi: nat)
    requires Shuffled(s, t, lo, hi) && Shuffled(t, u, lo, hi)
    ensures Shuffled(s, u, lo, hi)
  {
  }

  /** Shuffling a part of a range shuffles the range. */
  lemma {:induction false} ShuffledWider<T>(s: seq<T>, t: seq<T>, lo: nat, a: nat, b: nat, hi: nat)
    requires lo <= a <= b <= hi <= |s| && Shuffled(s, t, a, b)
    ensures Shuffled(s, t, lo, hi)
  {
    assert s[lo..hi] == s[lo..a] + s[a..b] + s[b..hi];
    assert t[lo..hi] == t[lo..a] + t[a..b] + t[b..hi];
    assert s[lo..a] == t[lo..a] && s[b..hi] == t[b..hi];
  }

  function Swapped<T>(s: seq<T>, i: nat, j: nat): (t: seq<T>)
    requires i < |s| && j < |s|
    ensures |t| == |s|
  {
    s[i := s[j]][j := s[i]]
  }

  lemma {:induction false} SwapShuffles<T>(s: seq<T>, lo: nat, hi: nat, i: nat, j: nat)
    requires lo <= i < hi <= |s| && lo <= j < hi
    ensures Shuffled(s, Swapped(s, i, j), lo, hi)
  {
    hide Perm;
    SwapPerm(s[lo..hi], i - lo, j - lo);
    assert Swapped(s, i, j)[lo..hi] == Swapped(s[lo..hi], i - lo, j - lo);
  }

  lemma {:induction false} SwapPerm<T>(s: seq<T>, i: nat, j: nat)
    requires i < |s| && j < |s|
    ensures Perm(s, Swapped(s, i, j))
  {
    var t := Swapped(s, i, j);
    assert multiset(s[i := s[j]]) == multiset(s) - multiset{s[i]} + multiset{s[j]};
    assert multiset(t) == multiset(s[i := s[j]]) - multiset{s[i := s[j]][j]} + multiset{s[i]};
  }

  ghost predicate Ordered<T>(s: seq<T>, lo: nat, hi: nat, comp: (T, T) -> int)
    requires hi <= |s|
  {
    forall i, j :: lo <= i < j < hi ==> comp(s[i], s[j]) <= 0
  }

  /** Two sorted parts around the pivot make a sorted whole. */
  lemma {:induction false} JoinOrdered<T(!new)>(s: seq<T>, lo: nat, mid: nat, hi: nat, comp: (T, T) -> int)
    requires TotalPreorder(comp) && lo <= mid < hi <= |s| && Ordered(s, lo, mid, comp) &&
             Ordered(s, mid + 1, hi, comp)
    requires Below(s, lo, mid, s[mid], comp) && Above(s, mid + 1, hi, s[mid], comp)
    ensures Ordered(s, lo, hi, comp)
  {
    forall i, j | lo <= i < j < hi ensures comp(s[i], s[j]) <= 0 {
      assert i < mid ==> comp(s[i], s[mid]) <= 0;
      assert j > mid ==> comp(s[mid], s[j]) <= 0;
    }
  }

  method Swap<T>(a: array<T>, i: nat, j: nat)
    requires i < a.Length && j < a.Length
    modifies a
    ensures a[..] == Swapped(old(a[..]), i, j)
  {
    var buffer := a[i];
    a[i] := a[j];
    a[j] := buffer;
  }

  /** The scan has moved the smaller ones of s[left + 1..i] to s[left + 1..last + 1]. */
  ghost predicate Scanned<T>(s: seq<T>, left: nat, last: nat, i: nat, comp: (T, T) -> int) {
    left <= last < i <= |s| && Below(s, left + 1, last + 1, s[left], comp) && Above(s, last + 1, i, s[left], comp)
  }

  lemma {:induction false} ScanSwaps<T>(s: seq<T>, left: nat, last: nat, i: nat, comp: (T, T) -> int)
    requires Scanned(s, left, last, i, comp) && i < |s| && comp(s[left], s[i]) > 0
    ensures Scanned(Swapped(s, i, last + 1), left, last + 1, i + 1, comp)
  {
  }

  lemma {:induction false} ScanStays<T>(s: seq<T>, left: nat, last: nat, i: nat, comp: (T, T) -> int)
    requires Scanned(s, left, last, i, comp) && i < |s| && comp(s[left], s[i]) <= 0
    ensures Scanned(s, left, last, i + 1, comp)
  {
  }

  lemma {:induction false} ScanEnds<T>(s: seq<T>, left: nat, last: nat, i: nat, comp: (T, T) -> int)
    requires Scanned(s, left, last, i, comp)
    ensures var t := Swapped(s, left, last);
            Below(t, left, last, t[last], comp) && Above(t, last + 1, i, t[last], comp)
  {
  }

  /** The partition loop: the middle element becomes the pivot, and the scan moves smaller elements
      in front of it. */
  method Partition<T>(a: array<T>, left: nat, right: nat, comp: (T, T) -> int) returns (last: nat)
    requires left < right < a.Length
    modifies a
    ensures left <= last <= right
    ensures Shuffled(old(a[..]), a[..], left, right + 1)
    ensures Below(a[..], left, last, a[last], comp) && Above(a[..], last + 1, right + 1, a[last], comp)
  {
    hide Shuffled, Below, Above, Scanned, Swapped;
    ghost var s0 := a[..];
    SwapShuffles(s0, left, right + 1, left, (left + right) / 2);
    Swap(a, left, (left + right) / 2);
    last := left;
    var i := left + 1;
    ScanStarts(a[..], left, comp);
    while i <= right
      invariant left <= last < i <= right + 1
      invariant Shuffled(s0, a[..], left, right + 1) && Scanned(a[..], left, last, i, comp)
    {
      ghost var s := a[..];
      if comp(a[left], a[i]) > 0 {
        last := last + 1;
        SwapShuffles(s, left, right + 1, i, last);
        ScanSwaps(s, left, last - 1, i, comp);
        Swap(a, i, last);
        ShuffledTwice(s0, s, a[..], left, right + 1);
      } else {
        ScanStays(s, left, last, i, comp);
      }
      i := i + 1;
    }
    ghost var s := a[..];
    SwapShuffles(s, left, right + 1, left, last);
    ScanEnds(s, left, last, i, comp);
    Swap(a, left, last);
    ShuffledTwice(s0, s, a[..], left, right + 1);
  }

  lemma {:induction false} ScanStarts<T>(s: seq<T>, left: nat, comp: (T, T) -> int)
    requires left < |s|
    ensures Scanned(s, left, left, left + 1, comp)
  {
  }

  lemma {:induction false} Short<T>(s: seq<T>, lo: nat, hi: nat, comp: (T, T) -> int)
    requires lo <= hi <= |s| && hi <= lo + 1
    ensures Shuffled(s, s, lo, hi) && Ordered(s, lo, hi, comp)
  {
  }

  /** _qsort on a[left..right], both ends included; right may be left - 1. */
  method SortRange<T(!new)>(a: array<T>, left: int, right: int, comp: (T, T) -> int)
    requires TotalPreorder(comp) && 0 <= left <= right + 1 <= a.Length
    modifies a
    ensures Shuffled(old(a[..]), a[..], left, right + 1) && Ordered(a[..], left, right + 1, comp)
    decreases right + 1 - left
  {
    hide Shuffled, TotalPreorder, Ordered, Below, Above;
    if left >= right {
      Short(a[..], left, right + 1, comp);
      return;
    }
    ghost var s0 := a[..];
    var last: int := Partition(a, left, right, comp);
    ghost var s1 := a[..];
    SortRange(a, left, last - 1, comp);
    ghost var s2 := a[..];
    SortRange(a, last + 1, right, comp);
    Sides(s0, s1, s2, a[..], left, last, right, comp);
  }

  lemma {:induction false} ShuffledOutside<T>(s: seq<T>, t: seq<T>, lo: nat, hi: nat, k: nat)
    requires Shuffled(s, t, lo, hi) && k < |s| && !(lo <= k < hi)
    ensures |t| == |s| && t[k] == s[k]
  {
  }

  lemma {:induction false} BelowStays<T>(s: seq<T>, t: seq<T>, a: nat, b: nat, lo: nat, hi: nat, pivot: T,
      comp: (T, T) -> int)
    requires Shuffled(s, t, lo, hi) && b <= |s| && (b <= lo || hi <= a) && |t| == |s|
    ensures Below(s, a, b, pivot, comp) <==> Below(t, a, b, pivot, comp)
  {
    hide Perm;
    assert forall i :: a <= i < b ==> t[i] == s[i];
  }

  lemma {:induction false} AboveStays<T>(s: seq<T>, t: seq<T>, lo: nat, hi: nat, a: nat, b: nat, pivot: T,
      comp: (T, T) -> int)
    requires Shuffled(s, t, lo, hi) && b <= |s| && (b <= lo || hi <= a) && |t| == |s|
    ensures Above(s, a, b, pivot, comp) <==> Above(t, a, b, pivot, comp)
  {
    hide Perm;
    assert forall i :: a <= i < b ==> t[i] == s[i];
  }

  lemma {:induction false} OrderedStays<T>(s: seq<T>, t: seq<T>, a: nat, b: nat, lo: nat, hi: nat,
      comp: (T, T) -> int)
    requires Shuffled(s, t, lo, hi) && b <= |s| && (b <= lo || hi <= a) && |t| == |s|
    ensures Ordered(s, a, b, comp) <==> Ordered(t, a, b, comp)
  {
    hide Perm;
    assert forall i :: a <= i < b ==> t[i] == s[i];
  }

  /** Partitioning and then sorting both sides sorts the range. */
  lemma {:induction false} Sides<T(!new)>(s0: seq<T>, s1: seq<T>, s2: seq<T>, s3: seq<T>, left: nat, last: nat,
      right: nat, comp: (T, T) -> int)
    requires TotalPreorder(comp) && left <= last <= right < |s1|
    requires Shuffled(s0, s1, left, right + 1) && Below(s1, left, last, s1[last], comp) &&
             Above(s1, last + 1, right + 1, s1[last], comp)
    requires Shuffled(s1, s2, left, last) && Ordered(s2, left, last, comp)
    requires Shuffled(s2, s3, last + 1, right + 1) && Ordered(s3, last + 1, right + 1, comp)
    ensures Shuffled(s0, s3, left, right + 1) && Ordered(s3, left, right + 1, comp)
  {
    hide TotalPreorder, Ordered, Below, Above, Shuffled;
    var pivot := s1[last];
    ShuffledOutside(s1, s2, left, last, last);
    ShuffledOutside(s2, s3, last + 1, right + 1, last);
    BelowStays(s2, s3, left, last, last + 1, right + 1, pivot, comp);
    AboveStays(s1, s2, left, last, last + 1, right + 1, pivot, comp);
    OrderedStays(s2, s3, left, last, last + 1, right + 1, comp);
    PermBelow(s1, s2, left, last, pivot, comp);
    PermAbove(s2, s3, last + 1, right + 1, pivot, comp);
    ShuffledWider(s1, s2, left, left, last, right + 1);
    ShuffledWider(s2, s3, left, last + 1, right + 1, right + 1);
    ShuffledTwice(s0, s1, s2, left, right + 1);
    ShuffledTwice(s0, s2, s3, left, right + 1);
    JoinOrdered(s3, left, last, right + 1, comp);
  }

  /** qsort: a sorted permutation. */
  method Sort<T(!new)>(a: array<T>, comp: (T, T) -> int)
    requires TotalPreorder(comp)
    modifies a
    ensures Perm(old(a[..]), a[..]) && Sorted(a[..], comp)
  {
    SortRange(a, 0, a.Length - 1, comp);
    assert old(a[..])[0..a.Length] == old(a[..]) && a[..][0..a.Length] == a[..];
  }
}
