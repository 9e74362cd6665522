/** Block groups with a bitmap each, a free count each and a free count for the whole file system. */
module BitGroups {
  import opened Bitmap

  /** Group g manages the first size[g] bits of its bitmap. */
  datatype Groups = Groups(bits: seq<Flags>, size: seq<nat>, free: seq<nat>, total: nat)

  /** The clear bits among the first n. */
  function Clear(b: Flags, n: nat): (c: nat)
    requires n <= |b|
    ensures c <= n
  {
    if n == 0 then 0 else Clear(b, n - 1) + if b[n - 1] then 0 else 1
  }

  function Sum(f: seq<nat>): nat {
    if f == [] then 0 else f[0] + Sum(f[1..])
  }

  ghost predicate Shaped(s: Groups) {
    && |s.size| == |s.free| == |s.bits|
    && (forall g :: 0 <= g < |s.bits| ==> s.size[g] <= |s.bits[g]|)
  }

  /** Each group's count is its number of clear bits, and the whole count is their sum. */
  ghost predicate Counted(s: Groups) {
    && Shaped(s) && s.total == Sum(s.free)
    && (forall g :: 0 <= g < |s.bits| ==> s.free[g] == Clear(s.bits[g], s.size[g]))
  }

  /** Bit i of group g is one the group manages, and clear. */
  predicate Free(s: Groups, g: nat, i: nat) {
    g < |s.bits| && g < |s.size| && i < s.size[g] && i < |s.bits[g]| && !s.bits[g][i]
  }

  ghost predicate AnyFree(s: Groups) { exists g: nat, i: nat :: Free(s, g, i) }

  function Set(s: Groups, g: nat, i: nat, v: bool): seq<Flags>
    requires g < |s.bits| && i < |s.bits[g]|
  {
    var b: Flags := s.bits[g][i := v];
    s.bits[g := b]
  }

  /** The group after a bit was taken. */
  function Take(s: Groups, g: nat, i: nat): Groups
    requires g < |s.bits| && i < |s.bits[g]| && g < |s.free| && s.free[g] > 0 && s.total > 0
  {
    s.(bits := Set(s, g, i, true), free := s.free[g := s.free[g] - 1], total := s.total - 1)
  }

  /** The group after a bit was given back: the counts go up whatever the bit was. */
  function Give(s: Groups, g: nat, i: nat): Groups
    requires g < |s.bits| && i < |s.bits[g]| && g < |s.free|
  {
    s.(bits := Set(s, g, i, false), free := s.free[g := s.free[g] + 1], total := s.total + 1)
  }

  lemma {:induction false} ClearUpdate(b: Flags, n: nat, i: nat, v: bool)
    requires n <= |b| && i < n
    ensures var c := b[i := v]; Clear(c, n) == Clear(b, n) + (if b[i] then 1 else 0) - (if v then 1 else 0)
    decreases n
  {
    var c := b[i := v];
    if i == n - 1 { ClearSame(b, c, n - 1); } else { ClearUpdate(b, n - 1, i, v); }
  }

  lemma {:induction false} ClearSame(b: Flags, c: Flags, n: nat)
    requires n <= |b| == |c| && forall k :: 0 <= k < n ==> b[k] == c[k]
    ensures Clear(b, n) == Clear(c, n)
    decreases n
  {
    if n > 0 { ClearSame(b, c, n - 1); }
  }

  lemma {:induction false} ClearNone(b: Flags, n: nat)
    requires n <= |b|
    ensures Clear(b, n) == 0 <==> forall k :: 0 <= k < n ==> b[k]
    decreases n
  {
    if n > 0 { ClearNone(b, n - 1); }
  }

  lemma {:induction false} SumUpdate(f: seq<nat>, g: nat, x: nat)
    requires g < |f|
    ensures Sum(f[g := x]) == Sum(f) - f[g] + x
    decreases g
  {
    var h := f[g := x];
    if g == 0 {
      assert h[1..] == f[1..];
    } else {
      assert h[1..] == f[1..][g - 1 := x];
      SumUpdate(f[1..], g - 1, x);
    }
  }

  lemma {:induction false} SumAtLeast(f: seq<nat>, g: nat)
    requires g < |f|
    ensures Sum(f) >= f[g]
    decreases g
  {
    if g > 0 { SumAtLeast(f[1..], g - 1); }
  }

  /** A free bit shows in the counts. */
  lemma {:induction false} FreeCounts(s: Groups, g: nat, i: nat)
    requires Counted(s) && Free(s, g, i)
    ensures s.free[g] > 0 && s.total > 0
  {
    ClearNone(s.bits[g], s.size[g]);
    SumAtLeast(s.free, g);
  }

  /** Taking a clear bit keeps the counts exact. */
  lemma {:induction false} TakeOk(s: Groups, g: nat, i: nat)
    requires Counted(s) && Free(s, g, i)
    ensures s.free[g] > 0 && s.total > 0 && Counted(Take(s, g, i))
    ensures forall h: nat, k: nat :: Free(Take(s, g, i), h, k) <==> Free(s, h, k) && !(h == g && k == i)
  {
    FreeCounts(s, g, i);
    ClearUpdate(s.bits[g], s.size[g], i, true);
    SumUpdate(s.free, g, s.free[g] - 1);
  }

  /** Giving a bit back keeps the counts exact if and only if it was in use. */
  lemma {:induction false} GiveIff(s: Groups, g: nat, i: nat)
    requires Counted(s) && g < |s.bits| && i < s.size[g]
    ensures Counted(Give(s, g, i)) <==> !Free(s, g, i)
    ensures forall h: nat, k: nat :: Free(Give(s, g, i), h, k) <==> Free(s, h, k) || (h == g && k == i)
  {
    ClearUpdate(s.bits[g], s.size[g], i, false);
    SumUpdate(s.free, g, s.free[g] + 1);
    var r := Give(s, g, i);
    assert r.free[g] == s.free[g] + 1 && r.bits[g] == s.bits[g][i := false];
    if !Free(s, g, i) {
      forall h | 0 <= h < |r.bits| ensures r.free[h] == Clear(r.bits[h], r.size[h]) { }
    }
  }

  /** Freeing a free bit: one bit, and a count of two. */
  lemma DoubleFreeExample()
    ensures var s := Groups([[false]], [1], [1], 1);
            && Counted(s) && Free(s, 0, 0) && Give(s, 0, 0).bits == s.bits
            && Give(s, 0, 0).free == [2] && Give(s, 0, 0).total == 2 && !Counted(Give(s, 0, 0))
  {
    var s := Groups([[false]], [1], [1], 1);
    assert Clear(s.bits[0], 0) == 0 && Clear(s.bits[0], 1) == 1;
    assert Sum([1]) == 1 + Sum([]);
    GiveIff(s, 0, 0);
    assert Set(s, 0, 0, false)[0] == [false];
  }

  /** A group whose count is zero has no clear bit. */
  lemma {:induction false} NoneIn(s: Groups, g: nat)
    requires Counted(s) && g < |s.bits|
    ensures s.free[g] == 0 <==> forall i: nat :: !Free(s, g, i)
  {
    ClearNone(s.bits[g], s.size[g]);
    if forall i: nat :: !Free(s, g, i) {
      forall k | 0 <= k < s.size[g] ensures s.bits[g][k] { assert !Free(s, g, k); }
    }
  }

  // ---------------------------------------------------------------- giving back a range

  function Cleared(b: Flags, lo: nat, n: nat): (c: Flags)
    ensures |c| == |b|
  {
    seq(|b|, k requires 0 <= k < |b| => if lo <= k < lo + n then false else b[k])
  }

  /** Clearing a range adds its length to the clear bits exactly if all of it was set. */
  lemma {:induction false} ClearedCount(b: Flags, size: nat, lo: nat, n: nat)
    requires lo + n <= size <= |b|
    ensures Clear(Cleared(b, lo, n), size) <= Clear(b, size) + n
    ensures Clear(Cleared(b, lo, n), size) == Clear(b, size) + n <==> forall k :: lo <= k < lo + n ==> b[k]
    decreases n
  {
    if n == 0 {
      assert Cleared(b, lo, 0) == b;
    } else {
      var c := Cleared(b, lo, n - 1);
      ClearedCount(b, size, lo, n - 1);
      ClearUpdate(c, size, lo + n - 1, false);
      assert Cleared(b, lo, n) == c[lo + n - 1 := false];
    }
  }

  function GiveRange(s: Groups, g: nat, lo: nat, n: nat): Groups
    requires g < |s.bits| && g < |s.free|
  {
    s.(bits := s.bits[g := Cleared(s.bits[g], lo, n)], free := s.free[g := s.free[g] + n], total := s.total + n)
  }

  /** Giving back a range frees exactly its bits. */
  lemma {:induction false} GiveRangeFrees(s: Groups, g: nat, lo: nat, n: nat)
    requires Shaped(s) && g < |s.bits| && lo + n <= s.size[g]
    ensures forall h: nat, k: nat :: Free(GiveRange(s, g, lo, n), h, k) <==>
            Free(s, h, k) || (h == g && lo <= k < lo + n)
  {
  }

  /** Group g's count is its number of clear bits. */
  ghost predicate Exact(s: Groups, g: nat)
    requires Shaped(s) && g < |s.bits|
  {
    s.free[g] == Clear(s.bits[g], s.size[g])
  }

  /** Giving back a range keeps the counts exact if and only if all of it was in use. */
  lemma {:induction false} GiveRangeIff(s: Groups, g: nat, lo: nat, n: nat)
    requires Counted(s) && g < |s.bits| && lo + n <= s.size[g]
    ensures Counted(GiveRange(s, g, lo, n)) <==> forall k :: lo <= k < lo + n ==> s.bits[g][k]
  {
    hide Clear, Sum;
    ClearedCount(s.bits[g], s.size[g], lo, n);
    SumUpdate(s.free, g, s.free[g] + n);
    var r := GiveRange(s, g, lo, n);
    assert r.bits[g] == Cleared(s.bits[g], lo, n) && r.free[g] == s.free[g] + n;
    assert forall h :: 0 <= h < |s.bits| && h != g ==> r.bits[h] == s.bits[h] && r.free[h] == s.free[h];
  }
}
