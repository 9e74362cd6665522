/** Allocation and release of data blocks. */
module BlockAlloc {
  import opened Wrappers
  import opened Bits
  import opened Bitmap
  import opened BitGroups

  /** Blocks per group, whether block 0 stands before the first group, and how many blocks there are. */
  datatype Geometry = Geometry(perGroup: nat, boot: bool, blocks: nat)

  function Skip(k: Geometry): nat { if k.boot then 1 else 0 }

  /** ext4_block_group_cnt. */
  function GroupCount(k: Geometry): nat
    requires k.perGroup > 0
  {
    k.blocks / k.perGroup + if k.blocks % k.perGroup != 0 then 1 else 0
  }

  /** ext4_blocks_in_group_cnt. */
  function BlocksIn(k: Geometry, g: nat): (n: nat)
    requires k.perGroup > 0 && k.blocks > 0
    ensures 0 < n <= k.perGroup
  {
    DivMod(k.blocks, k.perGroup);
    if g + 1 < GroupCount(k) then k.perGroup
    else if k.blocks % k.perGroup != 0 then k.blocks % k.perGroup else k.perGroup
  }

  /** The last group holds what the others leave. */
  lemma {:induction false} LastGroup(k: Geometry)
    requires k.perGroup > 0 && k.blocks > 0
    ensures GroupCount(k) > 0 && (GroupCount(k) - 1) * k.perGroup + BlocksIn(k, GroupCount(k) - 1) == k.blocks
  {
    DivMod(k.blocks, k.perGroup);
    var q := k.blocks / k.perGroup;
    if k.blocks % k.perGroup == 0 {
      assert q > 0;
      assert q * k.perGroup == (q - 1) * k.perGroup + k.perGroup;
    }
  }

  /** ext4_balloc_get_bgid_of_block. */
  function GroupOf(k: Geometry, b: nat): nat
    requires k.perGroup > 0
  {
    DivMod(if k.boot && b > 0 then b - 1 else b, k.perGroup);
    (if k.boot && b > 0 then b - 1 else b) / k.perGroup
  }

  /** ext4_fs_addr_to_idx_bg. */
  function IndexOf(k: Geometry, b: nat): (i: nat)
    requires k.perGroup > 0
    ensures i < k.perGroup
  {
    (if k.boot && b > 0 then b - 1 else b) % k.perGroup
  }

  /** ext4_fs_bg_idx_to_addr. */
  function AddrOf(k: Geometry, g: nat, i: nat): nat { k.perGroup * g + i + Skip(k) }

  /** Addresses and positions in groups determine each other, but for block 0 of a file system whose
      groups start at block 1. */
  lemma {:induction false} AddressRoundTrip(k: Geometry, g: nat, i: nat, b: nat)
    requires k.perGroup > 0 && i < k.perGroup
    ensures GroupOf(k, AddrOf(k, g, i)) == g && IndexOf(k, AddrOf(k, g, i)) == i
    ensures AddrOf(k, GroupOf(k, b), IndexOf(k, b)) == b <==> !k.boot || b > 0
  {
    PositionIs(k, g, i);
    AddressIs(k, b);
  }

  lemma {:induction false} PositionIs(k: Geometry, g: nat, i: nat)
    requires k.perGroup > 0 && i < k.perGroup
    ensures GroupOf(k, AddrOf(k, g, i)) == g && IndexOf(k, AddrOf(k, g, i)) == i
  {
    var x := k.perGroup * g + i;
    ModUnique(x, k.perGroup, g, i);
    var a := AddrOf(k, g, i);
    assert (if k.boot && a > 0 then a - 1 else a) == x;
  }

  lemma {:induction false} AddressIs(k: Geometry, b: nat)
    requires k.perGroup > 0
    ensures AddrOf(k, GroupOf(k, b), IndexOf(k, b)) == (if k.boot && b > 0 then b - 1 else b) + Skip(k)
  {
    var x := if k.boot && b > 0 then b - 1 else b;
    DivMod(x, k.perGroup);
    assert k.perGroup * (x / k.perGroup) == x / k.perGroup * k.perGroup;
  }

  /** The next multiple of 64, as the mask computes it. */
  function Align64(i: nat): (a: nat)
    ensures i <= a < i + 64 && Align8(i) <= a
  {
    AlignBound(i, 64);
    Align8Below(i);
    (i + 63) / 64 * 64
  }

  lemma {:induction false} AlignBound(i: nat, n: nat)
    requires n > 0
    ensures i <= (i + n - 1) / n * n < i + n
  {
    DivMod(i + n - 1, n);
  }

  lemma {:induction false} Align8Below(i: nat)
    ensures Align8(i) <= (i + 63) / 64 * 64
  {
    var q: nat := (i + 63) / 64;
    assert i <= 64 * q by { AlignBound(i, 64); }
    assert (i + 7) / 8 <= 8 * q;
  }

  /** The search from the goal: the goal itself, its neighbours up to a multiple of 64, then the rest of
      the group.  The neighbours make the bitmap search start behind used bits, so its answer is right. */
  method NearGoal(b: Flags, idx: nat, n: nat) returns (r: Option<nat>)
    requires idx <= n <= |b| && idx < |b| && (idx == n ==> b[idx])
    ensures r == if FirstClear(b, idx, n) == n then None else Some(FirstClear(b, idx, n))
  {
    if !b[idx] {
      FirstClearAt(b, idx, n, idx);
      return Some(idx);
    }
    var end := if Align64(idx) > n then n else Align64(idx);
    var tmp := idx + 1;
    while tmp < end
      invariant idx < tmp && (tmp <= end || tmp == idx + 1) && forall k :: idx <= k < tmp ==> b[k]
      decreases end - tmp
    {
      if !b[tmp] {
        FirstClearAt(b, idx, n, tmp);
        return Some(tmp);
      }
      tmp := tmp + 1;
    }
    r := FindClear(b, idx, n);
    BehindUsed(b, idx, n, end);
  }

  lemma {:induction false} BehindUsed(b: Flags, idx: nat, n: nat, end: nat)
    requires idx <= n <= |b| && end == (if Align64(idx) > n then n else Align64(idx)) && idx < |b| && b[idx] &&
             forall k :: idx <= k < end ==> b[k]
    ensures Found(b, idx, n) == if FirstClear(b, idx, n) == n then None else Some(FirstClear(b, idx, n))
  {
    assert FirstClear(b, idx, n) >= end;
  }

  /** Where k steps from the group after bg lead among c groups. */
  function Around(c: nat, bg: nat, k: nat): nat { if bg + 1 + k < c then bg + 1 + k else bg + 1 + k - c }

  class Allocator {
    const geo: Geometry
    var bits: seq<Flags>
    var free: seq<nat>
    var total: nat
    const size: seq<nat>

    function G(): Groups
      reads this
    {
      Groups(bits, size, free, total)
    }

    ghost predicate Valid()
      reads this
    {
      && geo.perGroup > 0 && geo.blocks > 0 && Counted(G())
      && |size| == GroupCount(geo) &&
         (forall g :: 0 <= g < |size| ==> size[g] == BlocksIn(geo, g) && |bits[g]| == geo.perGroup)
    }

    /** Block b is one of the file system's and free. */
    ghost predicate IsFree(b: nat)
      requires geo.perGroup > 0
      reads this
    {
      Free(G(), GroupOf(geo, b), IndexOf(geo, b))
    }

    method TakeBit(g: nat, i: nat)
      requires Valid() && Free(G(), g, i)
      modifies this`bits, this`free, this`total
      ensures Valid() && old(free[g] > 0 && total > 0) && G() == Take(old(G()), g, i)
    {
      TakeOk(G(), g, i);
      bits := Set(G(), g, i, true);
      total := total - 1;
      free := free[g := free[g] - 1];
    }

    /** ext4_balloc_alloc_block; None is ENOSPC.  The goal lies in the file system, or just behind it at
        a bit that is set. */
    method AllocBlock(goal: nat) returns (r: Option<nat>)
      requires Valid() && GroupOf(geo, goal) < GroupCount(geo)
      requires IndexOf(geo, goal) <= BlocksIn(geo, GroupOf(geo, goal))
      requires IndexOf(geo, goal) == BlocksIn(geo, GroupOf(geo, goal)) ==>
               bits[GroupOf(geo, goal)][IndexOf(geo, goal)]
      modifies this`bits, this`free, this`total
      ensures Valid()
      ensures r.None? ==> G() == old(G()) && !AnyFree(G())
      ensures r.Some? ==> var g, i := GroupOf(geo, r.value), IndexOf(geo, r.value);
                          && Free(old(G()), g, i) && r.value == AddrOf(geo, g, i)
                          && (forall h: nat, k: nat :: Free(G(), h, k) <==>
                             Free(old(G()), h, k) && !(h == g && k == i))
                          && total == old(total) - 1
    {
      hide Counted, GroupCount, BlocksIn, GroupOf, IndexOf, Free;
      var bg, idx := GroupOf(geo, goal), IndexOf(geo, goal);
      ShapeFacts(G());
      if free[bg] != 0 {
        var near := NearGoal(bits[bg], idx, size[bg]);
        if near.Some? {
          r := Taken(bg, near.value);
          return;
        }
      }
      r := OtherGroups(bg);
    }

    /** Takes bit i of group g and gives its address. */
    method Taken(g: nat, i: nat) returns (r: Option<nat>)
      requires Valid() && g < |bits| && i < size[g] && i < |bits[g]| && !bits[g][i]
      modifies this`bits, this`free, this`total
      ensures Valid() && r == Some(AddrOf(geo, g, i)) && GroupOf(geo, r.value) == g && IndexOf(geo, r.value) == i
      ensures Free(old(G()), g, i) && total == old(total) - 1
      ensures forall h: nat, k: nat :: Free(G(), h, k) <==> Free(old(G()), h, k) && !(h == g && k == i)
    {
      TakeOk(G(), g, i);
      AddressRoundTrip(geo, g, i, 0);
      TakeBit(g, i);
      r := Some(AddrOf(geo, g, i));
    }

    /** Tries every group once, beginning after bg. */
    method OtherGroups(bg: nat) returns (r: Option<nat>)
      requires Valid() && bg < GroupCount(geo)
      modifies this`bits, this`free, this`total
      ensures Valid()
      ensures r.None? ==> G() == old(G()) && !AnyFree(G())
      ensures r.Some? ==> var g, i := GroupOf(geo, r.value), IndexOf(geo, r.value);
                          && Free(old(G()), g, i) && r.value == AddrOf(geo, g, i)
                          && (forall h: nat, k: nat :: Free(G(), h, k) <==>
                             Free(old(G()), h, k) && !(h == g && k == i))
                          && total == old(total) - 1
    {
      hide Counted, GroupCount, BlocksIn, GroupOf, IndexOf, Free;
      ShapeFacts(G());
      var groups := GroupCount(geo);
      var bgid, count := if bg + 1 == groups then 0 else bg + 1, groups;
      while count > 0
        invariant 0 <= count <= groups && Valid() && G() == old(G()) &&
                  (count > 0 ==> bgid == Around(groups, bg, groups - count))
        invariant forall k :: 0 <= k < groups - count ==> NoFree(G(), Around(groups, bg, k))
        decreases count
      {
        if free[bgid] != 0 {
          var found := FindClear(bits[bgid], 0, size[bgid]);
          FromZero(bits[bgid], size[bgid]);
          if found.Some? {
            r := Taken(bgid, found.value);
            return;
          }
        }
        GroupEmpty(G(), bgid);
        bgid := if bgid + 1 == groups then 0 else bgid + 1;
        count := count - 1;
      }
      AllEmpty(G(), bg, groups);
      return None;
    }

    /** ext4_balloc_free_block: the counts stay exact if and only if the block was in use. */
    method FreeBlock(b: nat)
      requires Valid() && GroupOf(geo, b) < GroupCount(geo) && IndexOf(geo, b) < BlocksIn(geo, GroupOf(geo, b))
      modifies this`bits, this`free, this`total
      ensures Valid() <==> !old(IsFree(b))
      ensures forall g: nat, i: nat :: Free(G(), g, i) <==>
              Free(old(G()), g, i) || (g == GroupOf(geo, b) && i == IndexOf(geo, b))
    {
      var g, i := GroupOf(geo, b), IndexOf(geo, b);
      GiveIff(G(), g, i);
      bits := Set(G(), g, i, false);
      total := total + 1;
      free := free[g := free[g] + 1];
    }

    /** ext4_balloc_try_alloc_block. */
    method TryAllocBlock(b: nat) returns (was: bool)
      requires Valid() && GroupOf(geo, b) < GroupCount(geo) && IndexOf(geo, b) < BlocksIn(geo, GroupOf(geo, b))
      modifies this`bits, this`free, this`total
      ensures Valid() && was == old(IsFree(b)) && !IsFree(b)
      ensures total == old(total) - (if was then 1 else 0)
      ensures forall g: nat, i: nat :: Free(G(), g, i) <==>
              Free(old(G()), g, i) && !(g == GroupOf(geo, b) && i == IndexOf(geo, b))
    {
      var g, i := GroupOf(geo, b), IndexOf(geo, b);
      was := !bits[g][i];
      if was {
        TakeOk(G(), g, i);
        TakeBit(g, i);
      }
    }

    /** One group's part: its bits are cleared and the counts go up, whatever the bits were. */
    method FreeRange(bg: nat, idx: nat, n: nat)
      requires bg < |bits| && bg < |free| && idx + n <= |bits[bg]|
      modifies this`bits, this`free, this`total
      ensures G() == GiveRange(old(G()), bg, idx, n) && total == old(total) + n
    {
      RangeIs(G(), bg, idx, n);
      var now := ClearedNow(bits[bg], idx, n);
      bits := bits[bg := now];
      total := total + n;
      free := free[bg := free[bg] + n];
    }

    /** ext4_balloc_free_blocks on blocks of possibly several groups: the counts stay exact if and only
        if all of them were in use. */
    method FreeBlocks(first: nat, count: nat)
      requires Valid() && count > 0 && first >= Skip(geo) && AllIn(geo, size, first - Skip(geo), count)
      modifies this`bits, this`free, this`total
      ensures Valid() <==> AllUsed(geo, old(G()), first - Skip(geo), count)
      ensures total == old(total) + count
      ensures forall g: nat, i: nat :: Free(G(), g, i) <==>
              Free(old(G()), g, i) || Among(geo, g, i, first - Skip(geo), count)
    {
      hide Counted, GroupCount, BlocksIn, Free, GroupOf, IndexOf, AllUsed, AllIn, Among, GiveRange, Freed, Progress,
        At, Spot;
      ghost var start: nat := first - Skip(geo);
      var bg, last := GroupOf(geo, first), GroupOf(geo, first + count - 1);
      var b: nat, left: nat := first, count;
      PlaceFacts(geo, first, count);
      NoneYet(geo, G(), start);
      ProgressStart(geo, G(), bg, start);
      while bg <= last
        invariant left <= count && b + left == first + count && total == old(total) + (count - left)
        invariant if left > 0 then At(geo, b, bg) && bg <= last else bg == last + 1
        invariant 0 < left < count ==> IndexOf(geo, b) == 0
        invariant Progress(geo, old(G()), G(), bg, start, count - left)
        invariant Freed(geo, old(G()), G(), start, count - left)
        decreases last + 1 - bg
      {
        var idx := IndexOf(geo, b);
        IndexIs(geo, b, bg);
        var n := geo.perGroup - idx;
        n := if left > n then n else left;
        ghost var s := G();
        ProgressShape(geo, old(G()), s, bg, start, count - left);
        RangeIn(geo, size, bg, idx, n, b, first, count);
        FreeRange(bg, idx, n);
        NextGroup(geo, first, count, b, left, n, bg, idx);
        GroupStep(geo, old(G()), s, bg, b, first, idx, n);
        b := b + n;
        left := left - n;
        bg := bg + 1;
      }
      FreedShows(geo, old(G()), G(), start, count);
      ShapeFacts(old(G()));
      ProgressEnd(geo, old(G()), G(), bg, start, count);
    }
  }

  /** Position i of group g is among count positions from start on. */
  ghost predicate Among(k: Geometry, g: nat, i: nat, start: nat, count: nat) {
    i < k.perGroup && start <= k.perGroup * g + i < start + count
  }

  /** The positions from start on are blocks in use. */
  ghost predicate AllUsed(k: Geometry, s: Groups, start: nat, count: nat) {
    forall g: nat, i: nat :: Among(k, g, i, start, count) ==> Used(s, g, i)
  }

  /** The positions from start on are blocks of the file system. */
  ghost predicate AllIn(k: Geometry, size: seq<nat>, start: nat, count: nat) {
    forall g: nat, i: nat :: Among(k, g, i, start, count) ==> g < |size| && i < size[g]
  }

  predicate Used(s: Groups, g: nat, i: nat) {
    g < |s.bits| && g < |s.size| && i < s.size[g] && i < |s.bits[g]| && s.bits[g][i]
  }

  /** Address b lies in group g. */
  ghost predicate At(k: Geometry, b: nat, g: nat) {
    b >= Skip(k) && k.perGroup * g <= b - Skip(k) < k.perGroup * g + k.perGroup
  }

  /** Address b is position idx of group g. */
  ghost predicate Spot(k: Geometry, b: nat, g: nat, idx: nat) {
    b >= Skip(k) && k.perGroup * g + idx == b - Skip(k)
  }

  lemma {:induction false} PlaceFacts(k: Geometry, first: nat, count: nat)
    requires k.perGroup > 0 && first >= Skip(k) && count > 0
    ensures At(k, first, GroupOf(k, first)) && At(k, first + count - 1, GroupOf(k, first + count - 1))
    ensures GroupOf(k, first) <= GroupOf(k, first + count - 1)
  {
    var p, x, y := k.perGroup, first - Skip(k), first + count - 1 - Skip(k);
    DivMod(x, p);
    DivMod(y, p);
    Ordered(p, x / p, y / p, x, y);
  }

  /** Of two positions the lower one is not in the higher group. */
  lemma {:induction false} Ordered(p: nat, g: nat, h: nat, x: nat, y: nat)
    requires p > 0 && p * g <= x < p * g + p && p * h <= y < p * h + p
    ensures (x <= y ==> g <= h) && (x == y ==> g == h)
  {
    if g > h { assert p * g == p * h + p * (g - h); MulPos(p, g - h); }
    if h > g { assert p * h == p * g + p * (h - g); MulPos(p, h - g); }
  }

  lemma {:induction false} IndexIs(k: Geometry, b: nat, g: nat)
    requires k.perGroup > 0 && At(k, b, g)
    ensures Spot(k, b, g, IndexOf(k, b))
  {
    ModUnique(b - Skip(k), k.perGroup, g, b - Skip(k) - k.perGroup * g);
  }

  /** Exactly the positions done so far were freed. */
  ghost predicate Freed(k: Geometry, s0: Groups, s: Groups, start: nat, done: nat) {
    forall g: nat, i: nat :: Free(s, g, i) <==> Free(s0, g, i) || Among(k, g, i, start, done)
  }

  lemma {:induction false} NoneYet(k: Geometry, s: Groups, start: nat)
    ensures Freed(k, s, s, start, 0)
  {
  }

  lemma {:induction false} FreedMore(k: Geometry, s0: Groups, s: Groups, start: nat, done: nat, g: nat, idx: nat,
      n: nat)
    requires Freed(k, s0, s, start, done) && k.perGroup > 0 && k.perGroup * g + idx == start + done &&
             idx + n <= k.perGroup
    requires Shaped(s) && g < |s.bits| && idx + n <= s.size[g]
    ensures Freed(k, s0, GiveRange(s, g, idx, n), start, done + n)
  {
    hide Among, Free, GiveRange;
    MoreDone(k, start, done, n, g, idx);
    GiveRangeFrees(s, g, idx, n);
  }

  lemma {:induction false} FreedShows(k: Geometry, s0: Groups, s: Groups, start: nat, done: nat)
    requires Freed(k, s0, s, start, done)
    ensures forall g: nat, i: nat :: Free(s, g, i) <==> Free(s0, g, i) || Among(k, g, i, start, done)
  {
    hide Among, Free;
  }

  lemma {:induction false} RangeIn(k: Geometry, size: seq<nat>, g: nat, idx: nat, n: nat, b: nat, first: nat,
      count: nat)
    requires first >= Skip(k) && AllIn(k, size, first - Skip(k), count) && Spot(k, b, g, idx)
    requires first <= b && 0 < n && b + n <= first + count && idx + n <= k.perGroup
    ensures g < |size| && idx + n <= size[g]
  {
    assert Among(k, g, idx + n - 1, first - Skip(k), count);
  }

  /** One group's part of the work. */
  lemma {:induction false} GroupStep(k: Geometry, s0: Groups, s: Groups, bg: nat, b: nat, first: nat, idx: nat,
      n: nat)
    requires k.perGroup > 0 && Skip(k) <= first <= b && Spot(k, b, bg, idx) && idx + n <= k.perGroup
    requires b == first || idx == 0
    requires Counted(s0) && Progress(k, s0, s, bg, first - Skip(k), b - first)
    requires Freed(k, s0, s, first - Skip(k), b - first) && bg < |s.bits| && bg < |s.size| && idx + n <= s.size[bg]
    requires bg < |s.free|
    ensures Progress(k, s0, GiveRange(s, bg, idx, n), bg + 1, first - Skip(k), b - first + n)
    ensures Freed(k, s0, GiveRange(s, bg, idx, n), first - Skip(k), b - first + n)
  {
    hide Counted, Progress, Freed, GiveRange;
    ProgressShape(k, s0, s, bg, first - Skip(k), b - first);
    ProgressMore(k, s0, s, bg, first - Skip(k), b - first, idx, n);
    FreedMore(k, s0, s, first - Skip(k), b - first, bg, idx, n);
  }

  lemma {:induction false} RangeIs(s: Groups, g: nat, idx: nat, n: nat)
    requires g < |s.bits| && g < |s.free|
    ensures GiveRange(s, g, idx, n) ==
            Groups(s.bits[g := Cleared(s.bits[g], idx, n)], s.size, s.free[g := s.free[g] + n], s.total + n)
  {
  }

  /** After a group is done, the rest begins at the next group. */
  lemma {:induction false} NextGroup(k: Geometry, first: nat, count: nat, b: nat, left: nat, n: nat, g: nat, idx: nat)
    requires k.perGroup > 0 && 0 < left && b + left == first + count && first >= Skip(k) && b >= first &&
             Spot(k, b, g, idx)
    requires idx < k.perGroup && n == if left > k.perGroup - idx then k.perGroup - idx else left
    ensures var last := GroupOf(k, first + count - 1);
            if left > n then At(k, b + n, g + 1) && g + 1 <= last && IndexOf(k, b + n) == 0 else g == last
  {
    hide GroupOf;
    var last: nat, p: nat := GroupOf(k, first + count - 1), k.perGroup;
    PlaceFacts(k, first, count);
    MulNext(p, g);
    var x: nat, y: nat := b + n - Skip(k), first + count - 1 - Skip(k);
    if left > n {
      Ordered(p, g + 1, last, x, y);
      ModUnique(x, p, g + 1, 0);
    } else {
      Ordered(p, g, last, y, y);
    }
  }

  lemma {:induction false} MulNext(p: nat, g: nat)
    ensures p * (g + 1) == p * g + p
  {
  }

  /** The positions done grow by those of the group. */
  lemma {:induction false} MoreDone(k: Geometry, start: nat, done: nat, n: nat, g: nat, idx: nat)
    requires k.perGroup > 0 && k.perGroup * g + idx == start + done && idx + n <= k.perGroup
    ensures forall h: nat, i: nat :: Among(k, h, i, start, done + n) <==>
            Among(k, h, i, start, done) || (h == g && idx <= i < idx + n)
  {
    forall h: nat, i: nat
      ensures Among(k, h, i, start, done + n) <==> Among(k, h, i, start, done) || (h == g && idx <= i < idx + n)
    {
      var x := k.perGroup * h + i;
      if i < k.perGroup && start + done <= x < start + done + n { Ordered(k.perGroup, h, g, x, x); }
    }
  }

  /** The positions of group g among those done were in use. */
  ghost predicate UsedIn(k: Geometry, s: Groups, g: nat, start: nat, done: nat) {
    forall i: nat :: Among(k, g, i, start, done) ==> Used(s, g, i)
  }

  /** s0 after the groups before bg were treated: the others are as they were, and a group's count is
      exact if and only if all its positions done were in use. */
  ghost predicate Progress(k: Geometry, s0: Groups, s: Groups, bg: nat, start: nat, done: nat) {
    && Shaped(s) && s.size == s0.size && |s.bits| == |s0.bits| && s.total == Sum(s.free) && |s0.free| == |s0.bits|
    && (forall h :: 0 <= h < |s.bits| ==> |s.bits[h]| == |s0.bits[h]|)
    && (forall h :: bg <= h < |s.bits| ==> s.bits[h] == s0.bits[h] && s.free[h] == s0.free[h])
    && (forall h :: 0 <= h < |s.bits| ==> (Exact(s, h) <==> UsedIn(k, s0, h, start, done)))
  }

  lemma {:induction false} ProgressStart(k: Geometry, s: Groups, bg: nat, start: nat)
    requires Counted(s)
    ensures Progress(k, s, s, bg, start, 0)
  {
    hide Clear, Sum;
  }

  lemma {:induction false} ProgressShape(k: Geometry, s0: Groups, s: Groups, bg: nat, start: nat, done: nat)
    requires Progress(k, s0, s, bg, start, done)
    ensures Shaped(s) && s.size == s0.size && |s.bits| == |s0.bits| == |s0.free|
    ensures forall h :: 0 <= h < |s.bits| ==> |s.bits[h]| == |s0.bits[h]|
  {
  }

  lemma {:induction false} ProgressMore(k: Geometry, s0: Groups, s: Groups, bg: nat, start: nat, done: nat, idx: nat,
      n: nat)
    requires Progress(k, s0, s, bg, start, done) && Counted(s0) && bg < |s.bits| && idx + n <= s.size[bg]
    requires k.perGroup > 0 && k.perGroup * bg + idx == start + done && idx + n <= k.perGroup &&
             (done == 0 || idx == 0)
    ensures Progress(k, s0, GiveRange(s, bg, idx, n), bg + 1, start, done + n)
  {
    hide Clear, Sum, Exact, UsedIn;
    var r := GiveRange(s, bg, idx, n);
    SumUpdate(s.free, bg, s.free[bg] + n);
    assert r.bits[bg] == Cleared(s.bits[bg], idx, n) && r.free[bg] == s.free[bg] + n;
    assert forall h :: 0 <= h < |s.bits| && h != bg ==> r.bits[h] == s.bits[h] && r.free[h] == s.free[h];
    forall h | 0 <= h < |r.bits| ensures Exact(r, h) <==> UsedIn(k, s0, h, start, done + n) {
      if h == bg {
        GroupDone(k, s0, s, bg, start, done, idx, n);
      } else {
        GroupKept(k, s0, s, r, h, start, done, n, bg, idx);
      }
    }
  }

  lemma {:induction false} GroupDone(k: Geometry, s0: Groups, s: Groups, bg: nat, start: nat, done: nat, idx: nat,
      n: nat)
    requires Counted(s0) && Shaped(s) && s.size == s0.size && bg < |s.bits| == |s0.bits| && idx + n <= s.size[bg]
    requires s.bits[bg] == s0.bits[bg] && s.free[bg] == s0.free[bg]
    requires k.perGroup > 0 && k.perGroup * bg + idx == start + done && idx + n <= k.perGroup &&
             (done == 0 || idx == 0)
    ensures Exact(GiveRange(s, bg, idx, n), bg) <==> UsedIn(k, s0, bg, start, done + n)
  {
    hide Clear, Sum, Among;
    var r := GiveRange(s, bg, idx, n);
    assert r.bits[bg] == Cleared(s.bits[bg], idx, n) && r.free[bg] == s.free[bg] + n;
    ClearedCount(s.bits[bg], s.size[bg], idx, n);
    hide UsedIn, Used;
    DoneIs(k, s0, bg, start, done, idx, n);
    RangeOf(s0, bg, idx, n);
  }

  lemma {:induction false} DoneIs(k: Geometry, s: Groups, g: nat, start: nat, done: nat, idx: nat, n: nat)
    requires k.perGroup > 0 && k.perGroup * g + idx == start + done && idx + n <= k.perGroup &&
             (done == 0 || idx == 0)
    ensures UsedIn(k, s, g, start, done + n) <==> forall i: nat :: idx <= i < idx + n ==> Used(s, g, i)
  {
    hide Used;
    var m := done + n;
    forall i: nat ensures Among(k, g, i, start, m) <==> idx <= i < idx + n { }
  }

  lemma {:induction false} RangeOf(s: Groups, g: nat, idx: nat, n: nat)
    requires Shaped(s) && g < |s.bits| && idx + n <= s.size[g]
    ensures (forall i: nat :: idx <= i < idx + n ==> Used(s, g, i)) <==> forall i :: idx <= i < idx + n ==>
            s.bits[g][i]
  {
    if forall i: nat :: idx <= i < idx + n ==> Used(s, g, i) {
      forall i | idx <= i < idx + n ensures s.bits[g][i] { assert Used(s, g, i); }
    }
  }

  lemma {:induction false} GroupKept(k: Geometry, s0: Groups, s: Groups, r: Groups, h: nat, start: nat, done: nat,
      n: nat, bg: nat, idx: nat)
    requires Shaped(s) && Shaped(r) && h < |s.bits| == |r.bits| && h != bg && r.size == s.size
    requires r.bits[h] == s.bits[h] && r.free[h] == s.free[h]
    requires Exact(s, h) <==> UsedIn(k, s0, h, start, done)
    requires k.perGroup > 0 && k.perGroup * bg + idx == start + done && idx + n <= k.perGroup
    ensures Exact(r, h) <==> UsedIn(k, s0, h, start, done + n)
  {
    hide Clear, Among, Used;
    MoreDone(k, start, done, n, bg, idx);
  }

  lemma {:induction false} ProgressEnd(k: Geometry, s0: Groups, s: Groups, bg: nat, start: nat, count: nat)
    requires Progress(k, s0, s, bg, start, count) && AllIn(k, s0.size, start, count) && |s0.size| == |s0.bits|
    ensures Counted(s) <==> AllUsed(k, s0, start, count)
    ensures Shaped(s) && s.size == s0.size && |s.bits| == |s0.bits|
    ensures forall h :: 0 <= h < |s.bits| ==> |s.bits[h]| == |s0.bits[h]|
  {
    hide Clear, Sum, Among, Used;
    if Counted(s) {
      forall g: nat, i: nat | Among(k, g, i, start, count) ensures Used(s0, g, i) {
        assert Exact(s, g) && UsedIn(k, s0, g, start, count);
      }
    }
    if AllUsed(k, s0, start, count) {
      forall h | 0 <= h < |s.bits| ensures s.free[h] == Clear(s.bits[h], s.size[h]) {
        assert UsedIn(k, s0, h, start, count) && Exact(s, h);
      }
    }
  }

  // ---------------------------------------------------------------- facts for the methods

  /** ext4_bmap_bits_free on a bitmap block. */
  method ClearedNow(b: Flags, lo: nat, n: nat) returns (c: Flags)
    requires lo + n <= |b|
    ensures c == Cleared(b, lo, n)
  {
    var a := new bool[|b|](k requires 0 <= k < |b| => b[k]);
    BitsFree(a, lo, n);
    c := a[..];
  }

  lemma {:induction false} ShapeFacts(s: Groups)
    requires Counted(s)
    ensures Shaped(s)
  {
  }

  ghost predicate NoFree(s: Groups, g: nat) { forall i: nat :: !Free(s, g, i) }

  lemma {:induction false} FromZero(b: Flags, n: nat)
    requires n <= |b|
    ensures Found(b, 0, n) == if FirstClear(b, 0, n) == n then None else Some(FirstClear(b, 0, n))
  {
  }

  lemma {:induction false} GroupEmpty(s: Groups, g: nat)
    requires Counted(s) && g < |s.bits| && (s.free[g] == 0 || FirstClear(s.bits[g], 0, s.size[g]) == s.size[g])
    ensures NoFree(s, g)
  {
    NoneIn(s, g);
  }

  lemma {:induction false} AllEmpty(s: Groups, bg: nat, c: nat)
    requires Shaped(s) && |s.bits| == c && bg < c && forall k :: 0 <= k < c ==> NoFree(s, Around(c, bg, k))
    ensures !AnyFree(s)
  {
    forall g: nat, i: nat ensures !Free(s, g, i) {
      if g < c {
        var k := if g > bg then g - bg - 1 else g + c - bg - 1;
        assert Around(c, bg, k) == g;
      }
    }
  }
}
