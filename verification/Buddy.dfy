/** The physical page allocator, updated in place. */
module Buddy {
  import opened Wrappers
  import opened Bits
  import opened Lists
  import opened BuddySpec
  import opened BuddyLists
  import opened BuddyZone

  const PGSIZE: nat := 4096
  // page numbers of 64-bit addresses
  const PAGE_BITS: nat := 52

  /** get_order: the smallest power of two of pages that holds a size in whole pages. */
  method GetOrder(size: nat) returns (order: nat)
    ensures size / PGSIZE <= Pow2(order) && (order > 0 ==> Pow2(order - 1) < size / PGSIZE)
  {
    var pages := size / PGSIZE;
    order := 0;
    var block := 1;
    while pages > block
      invariant block == Pow2(order) && (order > 0 ==> Pow2(order - 1) < pages)
      decreases pages - block
    {
      order := order + 1;
      block := 2 * block;
    }
  }

  /** The pages in count[i] blocks of order i, count[i + 1] of order i + 1, and so on. */
  function Pages(count: seq<nat>, i: nat): nat
    requires i <= |count|
    decreases |count| - i
  {
    if i == |count| then 0 else count[i] * Pow2(i) + Pages(count, i + 1)
  }

  lemma {:induction false} PagesAdd(count: seq<nat>, i: nat, k: nat, d: nat)
    requires i <= k < |count|
    ensures Pages(count[k := count[k] + d], i) == Pages(count, i) + d * Pow2(k)
    decreases |count| - i
  {
    var more := count[k := count[k] + d];
    if i < k {
      PagesAdd(count, i + 1, k, d);
    } else {
      assert (count[k] + d) * Pow2(k) == count[k] * Pow2(k) + d * Pow2(k);
      PagesAbove(count, more, i + 1);
    }
  }

  lemma {:induction false} PagesAbove(c: seq<nat>, d: seq<nat>, i: nat)
    requires i <= |c| == |d| && forall k :: i <= k < |c| ==> c[k] == d[k]
    ensures Pages(c, i) == Pages(d, i)
    decreases |c| - i
  {
    if i < |c| { PagesAbove(c, d, i + 1); }
  }

  lemma {:induction false} PagesZero(c: seq<nat>, i: nat)
    requires i <= |c| && forall k :: 0 <= k < |c| ==> c[k] == 0
    ensures Pages(c, i) == 0
    decreases |c| - i
  {
    if i < |c| { PagesZero(c, i + 1); }
  }

  lemma {:induction false} PagesStep(c: seq<nat>, i: nat)
    requires i < |c|
    ensures Pages(c, i) == c[i] * Pow2(i) + Pages(c, i + 1)
  {
  }

  lemma {:induction false} PagesEnd(c: seq<nat>)
    ensures Pages(c, |c|) == 0
  {
  }

  lemma {:induction false} OneLess(n: nat, p: nat)
    requires n > 0
    ensures n * p == p + (n - 1) * p
  {
  }

  /** How many blocks of each order buddy_init makes: one full share of every order if there is
      enough memory, and the rest in binary. */
  method InitialCounts(npages: nat) returns (count: seq<nat>)
    ensures |count| == MAX_ORDER && Pages(count, 0) == npages
  {
    hide Pages, Pow2;
    count := seq(MAX_ORDER, _ => 0);
    PagesZero(count, 0);
    var left: nat := npages;
    var share := MAX_ORDER * Pow2(MAX_ORDER - 1);
    if npages > share {
      left := npages - share;
      count := EqualShares();
    }
    var i: int := MAX_ORDER - 1;
    while i >= 0
      invariant -1 <= i < MAX_ORDER == |count|
      invariant Pages(count, 0) + left == npages && (i < MAX_ORDER - 1 ==> left < Pow2(i + 1))
    {
      LeftDown(left, i);
      var more: nat := left / Pow2(i);
      PagesAdd(count, 0, i, more);
      count := count[i := count[i] + more];
      left := And(left, Pow2(i) - 1);
      i := i - 1;
    }
    Pow2Zero();
  }

  method EqualShares() returns (count: seq<nat>)
    ensures |count| == MAX_ORDER && Pages(count, 0) == MAX_ORDER * Pow2(MAX_ORDER - 1)
  {
    hide Pages, Pow2;
    count := seq(MAX_ORDER, _ => 0);
    PagesZero(count, 0);
    var i: nat := 0;
    while i < MAX_ORDER
      invariant 0 <= i <= MAX_ORDER == |count| && (forall k :: i <= k < MAX_ORDER ==> count[k] == 0)
      invariant Pages(count, 0) == i * Pow2(MAX_ORDER - 1)
    {
      PagesAdd(count, 0, i, Pow2(MAX_ORDER - 1 - i));
      Pow2Add(MAX_ORDER - 1 - i, i);
      OneLess(i + 1, Pow2(MAX_ORDER - 1));
      count := count[i := Pow2(MAX_ORDER - 1 - i)];
      i := i + 1;
    }
  }

  lemma {:induction false} LeftDown(left: nat, i: nat)
    ensures left / Pow2(i) >= 0 && And(left, Pow2(i) - 1) < Pow2(i) &&
            left / Pow2(i) * Pow2(i) + And(left, Pow2(i) - 1) == left
  {
    hide Pow2, And;
    MaskIsMod(left, i);
    DivMod(left, Pow2(i));
  }

  lemma {:induction false} EmptyOk(z: Zone, s: nat)
    requires z.nr == seq(MAX_ORDER, _ => 0) && z.lists == seq(MAX_ORDER, _ => []) && z.blocks == map[]
    requires z.mem == map c | 0 - MAX_ORDER <= c < 0 :: Hdr(false, 0, c, c)
    ensures Inv(z, s, s)
  {
    forall i | 0 <= i < MAX_ORDER ensures ListOk(z, i) {
      assert Joined(z.mem, i, z.lists[i], 0);
    }
  }

  /** Blocks in somebody's hands. */
  ghost predicate Held(m: Blocks, a: nat) { a in m && !m[a].free }

  ghost predicate NoneHeld(m: Blocks) { forall a :: !Held(m, a) }

  lemma {:induction false} NoneHeldNow(m: Blocks, a: nat, i: nat)
    requires NoneHeld(m)
    ensures NoneHeld(m[a := Blk(i, true)]) && m[a := Blk(i, false)][a := Blk(i, true)] == m[a := Blk(i, true)]
  {
    var n := m[a := Blk(i, true)];
    forall b ensures !Held(n, b) { assert !Held(m, b); }
  }

  /** Of the blocks handed out, only a changed. */
  ghost predicate HeldSame(m: Blocks, n: Blocks, a: nat) {
    forall b :: b != a ==> (Held(m, b) <==> Held(n, b)) && (Held(m, b) ==> n[b] == m[b])
  }

  class Allocator {
    var mem: Mem
    var nr: seq<nat>
    var pageOrder: map<nat, nat>
    ghost var lists: seq<seq<nat>>
    ghost var blocks: Blocks
    const s: nat
    const e: nat

    ghost function Z(): Zone
      reads this
    {
      Zone(mem, nr, lists, blocks)
    }

    ghost predicate Valid()
      reads this
    {
      Inv(Z(), s, e) && s <= e <= Pow2(PAGE_BITS)
    }

    /** buddy_init on a range of bytes. */
    constructor (start: nat, end: nat)
      requires (start + PGSIZE - 1) / PGSIZE <= end / PGSIZE <= Pow2(PAGE_BITS)
      ensures Valid() && s == (start + PGSIZE - 1) / PGSIZE && e == end / PGSIZE && NoneHeld(blocks)
    {
      s := (start + PGSIZE - 1) / PGSIZE;
      e := end / PGSIZE;
      pageOrder := map[];
      nr := seq(MAX_ORDER, _ => 0);
      lists := seq(MAX_ORDER, _ => []);
      blocks := map[];
      mem := map c | 0 - MAX_ORDER <= c < 0 :: Hdr(false, 0, c, c);
      new;
      EmptyOk(Z(), s);
      Populate();
    }

    /** Covers the range with free blocks, small ones first. */
    method Populate()
      requires Inv(Z(), s, s) && s <= e && NoneHeld(blocks)
      modifies this`mem, this`nr, this`lists, this`blocks
      ensures Inv(Z(), s, e) && NoneHeld(blocks)
    {
      hide Pow2, Inv, Pages, NoneHeld;
      var count := InitialCounts(e - s);
      var cur: nat := s;
      var i := 0;
      while i < MAX_ORDER
        invariant 0 <= i <= MAX_ORDER && s <= cur && cur + Pages(count, i) == e
        invariant Inv(Z(), s, cur) && NoneHeld(blocks)
      {
        PagesStep(count, i);
        cur := Fill(cur, i, count[i]);
        i := i + 1;
      }
      PagesEnd(count);
    }

    /** Lists n new blocks of order i from cur on. */
    method Fill(cur: nat, i: nat, n: nat) returns (top: nat)
      requires Inv(Z(), s, cur) && s <= cur && i < MAX_ORDER && NoneHeld(blocks)
      modifies this`mem, this`nr, this`lists, this`blocks
      ensures top == cur + n * Pow2(i) && Inv(Z(), s, top) && NoneHeld(blocks)
    {
      hide Inv, Pow2, NoneHeld;
      top := cur;
      var j: nat := 0;
      while j < n
        invariant j <= n && top == cur + j * Pow2(i) && Inv(Z(), s, top) && NoneHeld(blocks)
      {
        ExtendOk(Z(), s, top, i);
        OneLess(j + 1, Pow2(i));
        NoneHeldNow(blocks, top, i);
        blocks := blocks[top := Blk(i, false)];
        PutLast(top, i, top + Pow2(i));
        top := top + Pow2(i);
        j := j + 1;
      }
    }

    method PutLast(a: nat, i: nat, ghost top: nat)
      requires Inv(Z(), s, top) && i < MAX_ORDER && InHand(Z(), a, i)
      modifies this`mem, this`nr, this`lists, this`blocks
      ensures Inv(Z(), s, top) && blocks == old(blocks)[a := Blk(i, true)]
    {
      hide Inv, ListsOk, Linked, NoDup, RingOnly;
      ghost var z := Z();
      ListFacts(z, s, top, i, a);
      ghost var q := lists[i];
      AddLastOk(mem, i, q, a);
      AddLastRing(mem, i, q, a);
      NoDupLast(q, a);
      ListedOk(z, s, top, a, i, AddLast(mem, i, a), q + [a]);
      var head := Sentinel(i);
      var last := mem[head].prev;
      mem := mem[a := Hdr(true, i, last, head)];
      mem := mem[head := mem[head].(prev := a)];
      mem := mem[last := mem[last].(next := a)];
      nr := nr[i := nr[i] + 1];
      lists := lists[i := q + [a]];
      blocks := blocks[a := Blk(i, true)];
      assert Z() == Listed(z, a, i, AddLast(z.mem, i, a), q + [a]);
    }

    method PutFirst(a: nat, i: nat, ghost top: nat)
      requires Inv(Z(), s, top) && i < MAX_ORDER && InHand(Z(), a, i)
      modifies this`mem, this`nr, this`lists, this`blocks
      ensures Inv(Z(), s, top) && blocks == old(blocks)[a := Blk(i, true)]
    {
      hide Inv, ListsOk, Linked, NoDup, RingOnly;
      ghost var z := Z();
      ListFacts(z, s, top, i, a);
      ghost var q := lists[i];
      AddFirstOk(mem, i, q, a);
      AddFirstRing(mem, i, q, a);
      NoDupFirst(q, a);
      ListedOk(z, s, top, a, i, AddFirst(mem, i, a), [a] + q);
      var head := Sentinel(i);
      var first := mem[head].next;
      mem := mem[a := Hdr(a in mem && mem[a].magic, i, head, first)];
      mem := mem[head := mem[head].(next := a)];
      mem := mem[first := mem[first].(prev := a)];
      nr := nr[i := nr[i] + 1];
      lists := lists[i := [a] + q];
      blocks := blocks[a := Blk(i, true)];
      assert Z() == Listed(z, a, i, AddFirst(z.mem, i, a), [a] + q);
    }

    /** remove: the header itself tells which list the block is on. */
    method Remove(a: nat, ghost i: nat)
      requires Inv(Z(), s, e) && i < MAX_ORDER && a in blocks && blocks[a] == Blk(i, true)
      modifies this`mem, this`nr, this`lists, this`blocks
      ensures Inv(Z(), s, e) && blocks == old(blocks)[a := Blk(i, false)]
    {
      hide Inv, ListsOk, Linked, NoDup, RingOnly, OnList;
      ghost var z := Z();
      ghost var j := FindOnList(z, s, e, i, a);
      ghost var q := lists[i];
      UnlinkOk(mem, i, q, j);
      UnlinkRing(mem, i, q, j);
      DropOne(q, j);
      UnlistedOk(z, s, e, a, i, Unlink(mem, a), q[..j] + q[j + 1..]);
      var order := mem[a].order;
      var prev, next := mem[a].prev, mem[a].next;
      mem := mem[prev := mem[prev].(next := next)];
      mem := mem[next := mem[next].(prev := prev)];
      mem := mem[a := mem[a].(order := -1, magic := false)];
      nr := nr[order := nr[order] - 1];
      lists := lists[i := q[..j] + q[j + 1..]];
      blocks := blocks[a := Blk(i, false)];
      assert Z() == Unlisted(z, a, i, Unlink(z.mem, a), q[..j] + q[j + 1..]);
    }

    /** require: cut the lower halves off a larger block until one of the order is left. */
    method Require(order: nat) returns (r: Option<nat>)
      requires Valid() && order < MAX_ORDER
      modifies this`mem, this`nr, this`lists, this`blocks
      ensures Valid()
      ensures r.None? ==> Z() == old(Z()) && forall a :: a in blocks && blocks[a].free ==> blocks[a].order <= order
      ensures r.Some? ==>
                InHand(Z(), r.value, order) && !Held(old(blocks), r.value) && HeldSame(old(blocks), blocks, r.value)
    {
      hide Inv, HeldSame, Pow2;
      ghost var m0 := blocks;
      SizeFacts(Z(), s, e);
      var i := order + 1;
      while i < MAX_ORDER
        invariant order < i <= MAX_ORDER && Z() == old(Z())
        invariant forall k :: order < k < i ==> nr[k] == 0
      {
        if nr[i] != 0 {
          var a := LastOf(i);
          Remove(a, i);
          var addr: nat := a;
          HeldStart(m0, addr, i);
          var j: int := i - 1;
          while j >= order
            invariant order - 1 <= j < i && Inv(Z(), s, e) && InHand(Z(), addr, (j + 1) as nat)
            invariant HeldSame(m0, blocks, addr) && !Held(m0, addr)
            decreases j
          {
            ghost var z := Z();
            SplitInHand(z, s, e, addr, j + 1);
            blocks := Split(blocks, addr, false, false);
            PutFirst(addr, j, e);
            SplitHeld(m0, z.blocks, addr, j + 1);
            addr := addr + Pow2(j);
            j := j - 1;
          }
          return Some(addr);
        }
        i := i + 1;
      }
      NoneLarger(Z(), s, e, order);
      return None;
    }

    /** The block before the sentinel. */
    method LastOf(i: nat) returns (a: nat)
      requires Inv(Z(), s, e) && i < MAX_ORDER && |nr| == MAX_ORDER && nr[i] != 0
      ensures a in blocks && blocks[a] == Blk(i, true)
    {
      TailFacts(Z(), s, e, i);
      a := mem[Sentinel(i)].prev;
    }

    /** buddy_alloc; None stands for running out of memory. */
    method Alloc(sz: nat) returns (r: Option<nat>, order: nat)
      requires Valid() && 0 < sz <= Pow2(MAX_ORDER - 1) * PGSIZE
      modifies this
      ensures Valid() && order < MAX_ORDER && sz <= Pow2(order) * PGSIZE &&
              (order > 0 ==> Pow2(order - 1) * PGSIZE < sz)
      ensures r.Some? ==>
                && InHand(Z(), r.value, order) && !Held(old(blocks), r.value) &&
                   HeldSame(old(blocks), blocks, r.value)
                && r.value in pageOrder && pageOrder[r.value] == order
      ensures r.None? ==>
                blocks == old(blocks) && forall a :: a in blocks && blocks[a].free ==> blocks[a].order < order
    {
      hide Inv, HeldSame;
      var size := (sz + PGSIZE - 1) / PGSIZE * PGSIZE;
      order := GetOrder(size);
      OrderFits(sz, size, order);
      ghost var z := Z();
      SizeFacts(z, s, e);
      if nr[order] != 0 {
        var a := LastOf(order);
        Remove(a, order);
        HeldStart(z.blocks, a, order);
        pageOrder := pageOrder[a := order];
        r := Some(a);
      } else {
        NoneOfOrder(z, s, e, order);
        r := Require(order);
        if r.Some? { pageOrder := pageOrder[r.value := order]; }
      }
    }

    /** buddy_free_helper; inRam stands for the check of the buddy's links, whatever it says. */
    method FreeHelper(a: nat, order: nat, inRam: nat -> bool)
      requires Valid() && order < MAX_ORDER && InHand(Z(), a, order)
      modifies this`mem, this`nr, this`lists, this`blocks
      ensures Valid() && !Held(blocks, a) && HeldSame(old(blocks), blocks, a)
      decreases MAX_ORDER - order
    {
      hide Inv, HeldSame, Pow2;
      ghost var m0 := blocks;
      var buddy := BuddyOf(a, order);
      if order < MAX_ORDER - 1 && buddy in mem && mem[buddy].magic && mem[buddy].order == order && inRam(order) {
        MagicMeans(Z(), s, e, buddy);
        Remove(buddy, order);
        InRange(Z(), s, e, a);
        BuddiesTouch(a, order, PAGE_BITS);
        var low := LowOf(a, order, PAGE_BITS);
        ghost var z, high := Z(), if low == a then buddy else a;
        MergeInHand(z, s, e, low, high, order);
        blocks := Merge(blocks, low, high, false);
        ghost var m1 := blocks;
        FreeHelper(low, order + 1, inRam);
        MergeHeld(m0, z.blocks, m1, blocks, a, buddy, low, high, order);
      } else {
        PutLast(a, order, e);
        HeldGone(m0, a, order);
      }
    }

    method Free(a: nat, order: nat, inRam: nat -> bool)
      requires Valid() && order < MAX_ORDER && InHand(Z(), a, order)
      modifies this
      ensures Valid() && !Held(blocks, a) && HeldSame(old(blocks), blocks, a)
    {
      pageOrder := pageOrder[a := 0];
      FreeHelper(a, order, inRam);
    }
  }

  // ---------------------------------------------------------------- small facts about the lists

  lemma {:induction false} ListFacts(z: Zone, s: nat, e: nat, i: nat, a: nat)
    requires Inv(z, s, e) && i < MAX_ORDER && InHand(z, a, i)
    ensures |z.lists| == |z.nr| == MAX_ORDER && Linked(z.mem, i, z.lists[i]) && NoDup(z.lists[i]) && a !in z.lists[i]
  {
    hide Partition, Linked, NoDup, FreeListed, MagicFree;
    assert ListOk(z, i);
  }

  lemma {:induction false} FindOnList(z: Zone, s: nat, e: nat, i: nat, a: nat) returns (j: nat)
    requires Inv(z, s, e) && i < MAX_ORDER && a in z.blocks && z.blocks[a] == Blk(i, true)
    ensures |z.lists| == |z.nr| == MAX_ORDER && j < |z.lists[i]| && z.lists[i][j] == a
    ensures Linked(z.mem, i, z.lists[i]) && NoDup(z.lists[i]) && OnList(z, i, a) && z.nr[i] == |z.lists[i]|
    ensures a in z.mem && z.mem[a].order == i
  {
    hide Partition, Linked, NoDup, MagicFree;
    assert ListOk(z, i) && a in z.lists[i];
    j :| 0 <= j < |z.lists[i]| && z.lists[i][j] == a;
    assert OnList(z, i, z.lists[i][j]);
  }

  lemma {:induction false} NoDupLast(q: seq<nat>, a: nat)
    requires NoDup(q) && a !in q
    ensures NoDup(q + [a]) && forall x :: x in q + [a] <==> x in q || x == a
  {
  }

  lemma {:induction false} NoDupFirst(q: seq<nat>, a: nat)
    requires NoDup(q) && a !in q
    ensures NoDup([a] + q) && forall x :: x in [a] + q <==> x in q || x == a
  {
  }

  lemma {:induction false} DropOne(q: seq<nat>, j: nat)
    requires NoDup(q) && j < |q|
    ensures var r := q[..j] + q[j + 1..]; NoDup(r) && |r| == |q| - 1 && forall x :: x in r <==> x in q && x != q[j]
  {
    var r := q[..j] + q[j + 1..];
    forall x ensures x in r <==> x in q && x != q[j] {
      if x in q && x != q[j] {
        var k :| 0 <= k < |q| && q[k] == x;
        assert r[if k < j then k else k - 1] == x;
      }
    }
  }

  // ---------------------------------------------------------------- who holds what

  lemma {:induction false} HeldStart(m: Blocks, a: nat, i: nat)
    requires a in m && m[a].free
    ensures HeldSame(m, m[a := Blk(i, false)], a) && !Held(m, a)
  {
  }

  lemma {:induction false} HeldGone(m: Blocks, a: nat, i: nat)
    ensures HeldSame(m, m[a := Blk(i, true)], a) && !Held(m[a := Blk(i, true)], a)
  {
  }

  /** Cutting off the lower half passes the hold on to the upper one. */
  lemma {:induction false} SplitHeld(m0: Blocks, m: Blocks, a: nat, order: nat)
    requires order > 0 && HeldSame(m0, m, a) && !Held(m0, a) && a in m && m[a] == Blk(order, false) &&
             a + Pow2(order - 1) !in m
    ensures var b := a + Pow2(order - 1);
            HeldSame(m0, Split(m, a, false, false)[a := Blk(order - 1, true)], b) && !Held(m0, b)
  {
    hide Pow2;
  }

  lemma {:induction false} MergeHeld(m0: Blocks, z: Blocks, m1: Blocks, m2: Blocks, a: nat, buddy: nat, low: nat,
      high: nat, order: nat)
    requires a in m0 && m0[a] == Blk(order, false) && buddy in m0 && m0[buddy].free &&
             z == m0[buddy := Blk(order, false)]
    requires (low == a && high == buddy) || (low == buddy && high == a)
    requires m1 == Merge(z, low, high, false) && !Held(m2, low) && HeldSame(m1, m2, low)
    ensures !Held(m2, a) && HeldSame(m0, m2, a)
  {
  }

  // ---------------------------------------------------------------- reading the lists

  lemma {:induction false} SizeFacts(z: Zone, s: nat, e: nat)
    requires Inv(z, s, e)
    ensures |z.nr| == |z.lists| == MAX_ORDER && forall i :: 0 <= i < MAX_ORDER ==> z.nr[i] == |z.lists[i]|
  {
    hide Partition, Linked, NoDup, FreeListed, MagicFree;
    forall i | 0 <= i < MAX_ORDER ensures z.nr[i] == |z.lists[i]| { assert ListOk(z, i); }
  }

  lemma {:induction false} TailFacts(z: Zone, s: nat, e: nat, i: nat)
    requires Inv(z, s, e) && i < MAX_ORDER && |z.nr| == MAX_ORDER && z.nr[i] != 0
    ensures Sentinel(i) in z.mem && z.mem[Sentinel(i)].prev >= 0
    ensures z.mem[Sentinel(i)].prev in z.blocks && z.blocks[z.mem[Sentinel(i)].prev] == Blk(i, true)
  {
    hide Partition, Linked, NoDup, FreeListed, MagicFree;
    assert ListOk(z, i);
    var q := z.lists[i];
    Ends(z.mem, i, q);
    assert OnList(z, i, q[|q| - 1]);
  }

  lemma {:induction false} NoneLarger(z: Zone, s: nat, e: nat, order: nat)
    requires Inv(z, s, e) && |z.nr| == MAX_ORDER && forall k :: order < k < MAX_ORDER ==> z.nr[k] == 0
    ensures forall a :: a in z.blocks && z.blocks[a].free ==> z.blocks[a].order <= order
  {
    SizeFacts(z, s, e);
  }

  lemma {:induction false} NoneOfOrder(z: Zone, s: nat, e: nat, order: nat)
    requires Inv(z, s, e) && order < MAX_ORDER && |z.nr| == MAX_ORDER && z.nr[order] == 0
    ensures forall a :: a in z.blocks && z.blocks[a].free ==> z.blocks[a].order != order
  {
    SizeFacts(z, s, e);
  }

  lemma {:induction false} MagicMeans(z: Zone, s: nat, e: nat, b: nat)
    requires Inv(z, s, e) && b in z.mem && z.mem[b].magic
    ensures b in z.blocks && z.blocks[b].free && z.mem[b].order == z.blocks[b].order < MAX_ORDER
  {
    hide Partition, Linked, NoDup;
    var i := z.blocks[b].order;
    assert ListOk(z, i) && b in z.lists[i];
    var k :| 0 <= k < |z.lists[i]| && z.lists[i][k] == b;
    assert OnList(z, i, z.lists[i][k]);
  }

  lemma {:induction false} InRange(z: Zone, s: nat, e: nat, a: nat)
    requires Inv(z, s, e) && a in z.blocks
    ensures a < e
  {
    Pow2Pos(z.blocks[a].order);
    assert End(z.blocks, a) <= e;
  }

  lemma {:induction false} OrderFits(sz: nat, size: nat, order: nat)
    requires 0 < sz <= Pow2(MAX_ORDER - 1) * PGSIZE && size == (sz + PGSIZE - 1) / PGSIZE * PGSIZE
    requires size / PGSIZE <= Pow2(order) && (order > 0 ==> Pow2(order - 1) < size / PGSIZE)
    ensures order < MAX_ORDER && sz <= Pow2(order) * PGSIZE && (order > 0 ==> Pow2(order - 1) * PGSIZE < sz)
  {
    var n := (sz + PGSIZE - 1) / PGSIZE;
    assert size / PGSIZE == n;
    if order >= MAX_ORDER { Pow2Mono(MAX_ORDER - 1, order - 1); }
  }
}
