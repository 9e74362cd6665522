/** The zone's invariant: rings, counters and headers agree with the partition of memory. */
module BuddyZone {
  import opened Bits
  import opened Lists
  import opened BuddySpec
  import opened BuddyLists

  /** Headers and counters, with the ring contents and the partition they stand for. */
  datatype Zone = Zone(mem: Mem, nr: seq<nat>, lists: seq<seq<nat>>, blocks: Blocks)

  ghost predicate OnList(z: Zone, i: nat, a: nat) {
    a in z.blocks && z.blocks[a] == Blk(i, true) && a in z.mem && z.mem[a].order == i
  }

  ghost predicate ListOk(z: Zone, i: nat)
    requires i < |z.lists| == |z.nr|
  {
    && z.nr[i] == |z.lists[i]| && NoDup(z.lists[i]) && Linked(z.mem, i, z.lists[i])
    && (forall k :: 0 <= k < |z.lists[i]| ==> OnList(z, i, z.lists[i][k]))
  }

  /** Every free block is on the list of its order. */
  ghost predicate FreeListed(z: Zone)
    requires |z.lists| == MAX_ORDER
  {
    forall a :: a in z.blocks && z.blocks[a].free ==> z.blocks[a].order < MAX_ORDER && a in z.lists[z.blocks[a].order]
  }

  /** A header with the magic number heads a free block.  The converse fails: blocks that add_first
      listed have none. */
  ghost predicate MagicFree(z: Zone) {
    forall a :: a in z.mem && z.mem[a].magic ==> a >= 0 && a in z.blocks && z.blocks[a].free
  }

  ghost predicate ListsOk(z: Zone) {
    |z.lists| == |z.nr| == MAX_ORDER && forall i :: 0 <= i < MAX_ORDER ==> ListOk(z, i)
  }

  ghost predicate Inv(z: Zone, s: nat, e: nat) {
    ListsOk(z) && FreeListed(z) && MagicFree(z) && Partition(z.blocks, s, e)
  }

  /** Block a is out of the lists, in somebody's hands. */
  ghost predicate InHand(z: Zone, a: nat, order: nat) { a in z.blocks && z.blocks[a] == Blk(order, false) }

  // ---------------------------------------------------------------- listing and unlisting a block

  /** Memory changed at a and otherwise at most in the links of ring i. */
  ghost predicate RingOnly(m: Mem, n: Mem, i: nat, q: seq<nat>, a: nat) {
    && (forall c :: c in m ==> c in n)
    && (forall c :: c in n && c != a ==> c in m && n[c].order == m[c].order && n[c].magic == m[c].magic)
    && (forall c :: c in m && c != a && c != Sentinel(i) && c !in q ==> n[c] == m[c])
  }

  lemma {:induction false} AddLastRing(m: Mem, i: nat, q: seq<nat>, a: nat)
    requires Linked(m, i, q)
    ensures Sentinel(i) in m && m[Sentinel(i)].prev in m && RingOnly(m, AddLast(m, i, a), i, q, a)
    ensures a in AddLast(m, i, a) && AddLast(m, i, a)[a].order == i
  {
    Ends(m, i, q);
  }

  lemma {:induction false} AddFirstRing(m: Mem, i: nat, q: seq<nat>, a: nat)
    requires Linked(m, i, q)
    ensures Sentinel(i) in m && m[Sentinel(i)].next in m && RingOnly(m, AddFirst(m, i, a), i, q, a)
    ensures a in AddFirst(m, i, a) && AddFirst(m, i, a)[a].order == i
  {
    Ends(m, i, q);
  }

  lemma {:induction false} UnlinkRing(m: Mem, i: nat, q: seq<nat>, j: nat)
    requires Linked(m, i, q) && j < |q|
    ensures q[j] in m && m[q[j]].prev in m && m[q[j]].next in m && RingOnly(m, Unlink(m, q[j]), i, q, q[j])
    ensures q[j] in Unlink(m, q[j]) && !Unlink(m, q[j])[q[j]].magic
  {
    Neighbours(m, i, q, j);
  }

  /** The other rings do not notice. */
  lemma {:induction false} OtherList(z: Zone, y: Zone, a: nat, i: nat, k: nat)
    requires ListsOk(z) && i < MAX_ORDER && k < MAX_ORDER && k != i
    requires a in z.blocks && z.blocks[a].order == i && RingOnly(z.mem, y.mem, i, z.lists[i], a)
    requires |y.lists| == |y.nr| == MAX_ORDER && y.lists[k] == z.lists[k] && y.nr[k] == z.nr[k]
    requires forall b :: b in z.blocks && b != a ==> b in y.blocks && y.blocks[b] == z.blocks[b]
    ensures ListOk(y, k)
  {
    var q := z.lists[k];
    assert ListOk(z, k) && ListOk(z, i);
    forall x | 0 <= x < |q| ensures q[x] != a && q[x] !in z.lists[i] && q[x] in z.mem && y.mem[q[x]] == z.mem[q[x]] {
      assert OnList(z, k, q[x]);
    }
    assert Sentinel(k) != Sentinel(i) && Sentinel(k) in z.mem;
    LinkedFrame(z.mem, y.mem, k, q);
    forall x | 0 <= x < |q| ensures OnList(y, k, q[x]) { assert OnList(z, k, q[x]); }
  }

  function Listed(z: Zone, a: nat, i: nat, mem: Mem, q: seq<nat>): Zone
    requires i < |z.lists| && i < |z.nr|
  {
    Zone(mem, z.nr[i := z.nr[i] + 1], z.lists[i := q], z.blocks[a := Blk(i, true)])
  }

  lemma {:induction false} ListedOwn(z: Zone, a: nat, i: nat, mem: Mem, q: seq<nat>)
    requires ListsOk(z) && i < MAX_ORDER && InHand(z, a, i) && RingOnly(z.mem, mem, i, z.lists[i], a)
    requires a in mem && mem[a].order == i && Linked(mem, i, q) && NoDup(q) && |q| == |z.lists[i]| + 1
    requires forall x :: x in q <==> x in z.lists[i] || x == a
    ensures ListOk(Listed(z, a, i, mem, q), i)
  {
    var y := Listed(z, a, i, mem, q);
    assert ListOk(z, i);
    forall k | 0 <= k < |q| ensures OnList(y, i, q[k]) {
      assert q[k] in q;
      if q[k] != a {
        var w :| 0 <= w < |z.lists[i]| && z.lists[i][w] == q[k];
        assert OnList(z, i, z.lists[i][w]);
      }
    }
  }

  /** Putting a block in hand on its list. */
  lemma {:induction false} ListedOk(z: Zone, s: nat, e: nat, a: nat, i: nat, mem: Mem, q: seq<nat>)
    requires Inv(z, s, e) && i < MAX_ORDER && InHand(z, a, i) && RingOnly(z.mem, mem, i, z.lists[i], a)
    requires a in mem && mem[a].order == i && Linked(mem, i, q) && NoDup(q) && |q| == |z.lists[i]| + 1
    requires forall x :: x in q <==> x in z.lists[i] || x == a
    ensures Inv(Listed(z, a, i, mem, q), s, e)
  {
    hide Partition, Linked, NoDup;
    var y := Listed(z, a, i, mem, q);
    ListedOwn(z, a, i, mem, q);
    forall k | 0 <= k < MAX_ORDER ensures ListOk(y, k) {
      if k != i { OtherList(z, y, a, i, k); }
    }
    MarkOk(z.blocks, s, e, a, true);
    assert y.blocks == z.blocks[a := z.blocks[a].(free := true)];
  }

  function Unlisted(z: Zone, a: nat, i: nat, mem: Mem, q: seq<nat>): Zone
    requires i < |z.lists| && i < |z.nr| && z.nr[i] > 0
  {
    Zone(mem, z.nr[i := z.nr[i] - 1], z.lists[i := q], z.blocks[a := Blk(i, false)])
  }

  lemma {:induction false} UnlistedOwn(z: Zone, a: nat, i: nat, mem: Mem, q: seq<nat>)
    requires ListsOk(z) && i < MAX_ORDER && OnList(z, i, a) && RingOnly(z.mem, mem, i, z.lists[i], a) && z.nr[i] > 0
    requires Linked(mem, i, q) && NoDup(q) && |q| == |z.lists[i]| - 1
    requires forall x :: x in q <==> x in z.lists[i] && x != a
    ensures ListOk(Unlisted(z, a, i, mem, q), i)
  {
    var y := Unlisted(z, a, i, mem, q);
    assert ListOk(z, i);
    forall k | 0 <= k < |q| ensures OnList(y, i, q[k]) {
      assert q[k] in q;
      var w :| 0 <= w < |z.lists[i]| && z.lists[i][w] == q[k];
      assert OnList(z, i, z.lists[i][w]);
    }
  }

  /** Taking a free block off its list. */
  lemma {:induction false} UnlistedOk(z: Zone, s: nat, e: nat, a: nat, i: nat, mem: Mem, q: seq<nat>)
    requires Inv(z, s, e) && i < MAX_ORDER && OnList(z, i, a) && RingOnly(z.mem, mem, i, z.lists[i], a) && z.nr[i] > 0
    requires a in mem && !mem[a].magic && Linked(mem, i, q) && NoDup(q) && |q| == |z.lists[i]| - 1
    requires forall x :: x in q <==> x in z.lists[i] && x != a
    ensures Inv(Unlisted(z, a, i, mem, q), s, e)
  {
    hide Partition, Linked, NoDup;
    var y := Unlisted(z, a, i, mem, q);
    UnlistedOwn(z, a, i, mem, q);
    forall k | 0 <= k < MAX_ORDER ensures ListOk(y, k) {
      if k != i { OtherList(z, y, a, i, k); }
    }
    MarkOk(z.blocks, s, e, a, false);
    assert y.blocks == z.blocks[a := z.blocks[a].(free := false)];
  }

  // ---------------------------------------------------------------- splitting and merging in hand

  /** Lists and headers do not depend on how a block in hand is cut. */
  lemma {:induction false} RecutOk(z: Zone, y: Zone, s: nat, e: nat)
    requires Inv(z, s, e) && y.mem == z.mem && y.nr == z.nr && y.lists == z.lists && Partition(y.blocks, s, e)
    requires forall a :: a in z.blocks && z.blocks[a].free ==> a in y.blocks && y.blocks[a] == z.blocks[a]
    requires forall a :: a in y.blocks && y.blocks[a].free ==> a in z.blocks && y.blocks[a] == z.blocks[a]
    ensures Inv(y, s, e)
  {
    hide Partition, Linked, NoDup;
    forall i | 0 <= i < MAX_ORDER ensures ListOk(y, i) {
      assert ListOk(z, i);
      forall k | 0 <= k < |z.lists[i]| ensures OnList(y, i, z.lists[i][k]) { assert OnList(z, i, z.lists[i][k]); }
    }
  }

  lemma {:induction false} SplitInHand(z: Zone, s: nat, e: nat, a: nat, order: nat)
    requires Inv(z, s, e) && InHand(z, a, order) && order > 0
    ensures var y := z.(blocks := Split(z.blocks, a, false, false));
            Inv(y, s, e) && InHand(y, a, order - 1) && InHand(y, a + Pow2(order - 1), order - 1) &&
              a + Pow2(order - 1) !in z.blocks
  {
    hide Partition, ListsOk, FreeListed, MagicFree, Pow2;
    SplitOk(z.blocks, s, e, a, false, false);
    Pow2Pos(order - 1);
    RecutOk(z, z.(blocks := Split(z.blocks, a, false, false)), s, e);
  }

  lemma {:induction false} Pow2Pos(k: nat)
    ensures Pow2(k) > 0
  {
  }

  lemma {:induction false} MergeInHand(z: Zone, s: nat, e: nat, a: nat, b: nat, order: nat)
    requires Inv(z, s, e) && InHand(z, a, order) && InHand(z, b, order) && b == a + Pow2(order)
    ensures var y := z.(blocks := Merge(z.blocks, a, b, false)); Inv(y, s, e) && InHand(y, a, order + 1)
  {
    hide Partition, ListsOk, FreeListed, MagicFree, Pow2;
    MergeOk(z.blocks, s, e, a, b, false);
    RecutOk(z, z.(blocks := Merge(z.blocks, a, b, false)), s, e);
  }

  /** A block appended behind the partition, in hand. */
  lemma {:induction false} ExtendOk(z: Zone, s: nat, e: nat, order: nat)
    requires Inv(z, s, e) && s <= e
    ensures e !in z.blocks
    ensures var y := z.(blocks := z.blocks[e := Blk(order, false)]); Inv(y, s, e + Pow2(order)) && InHand(y, e, order)
  {
    hide Linked, NoDup, Pow2, Partition;
    var y := z.(blocks := z.blocks[e := Blk(order, false)]);
    ExtendPartition(z.blocks, s, e, order);
    forall i | 0 <= i < MAX_ORDER ensures ListOk(y, i) {
      assert ListOk(z, i);
      forall k | 0 <= k < |z.lists[i]| ensures OnList(y, i, z.lists[i][k]) { assert OnList(z, i, z.lists[i][k]); }
    }
  }

  lemma {:induction false} ExtendPartition(m: Blocks, s: nat, e: nat, order: nat)
    requires Partition(m, s, e) && s <= e
    ensures e !in m && Partition(m[e := Blk(order, false)], s, e + Pow2(order))
  {
    hide Pow2;
    Pow2Pos(order);
    var n := m[e := Blk(order, false)];
    forall a | a in m ensures a < e { Pow2Pos(m[a].order); assert End(m, a) <= e; }
    forall x, y | x in n && y in n && x < y ensures End(n, x) <= y {
      assert x in m;
      assert y in m ==> End(m, x) <= y;
    }
    forall p | s <= p < e + Pow2(order) ensures InSome(n, p) {
      if p < e {
        assert InSome(m, p);
        var x :| Has(m, x, p);
        assert Has(n, x, p);
      } else {
        assert Has(n, e, p);
      }
    }
  }

  // ---------------------------------------------------------------- what holders may write

  /** Page p lies in a block that is handed out. */
  ghost predicate HeldPage(m: Blocks, p: int) {
    exists a :: a in m && !m[a].free && a <= p < End(m, a)
  }

  /** Headers differ only in pages that are handed out, and none of those shows the magic number. */
  ghost predicate HoldersWrote(z: Zone, n: Mem) {
    && (forall c :: c in z.mem && !HeldPage(z.blocks, c) ==> c in n && n[c] == z.mem[c])
    && (forall c :: c in n && !HeldPage(z.blocks, c) ==> c in z.mem)
    && (forall c :: c in n && HeldPage(z.blocks, c) ==> !n[c].magic)
  }

  lemma {:induction false} FreeNotHeld(z: Zone, s: nat, e: nat, a: nat)
    requires Partition(z.blocks, s, e) && a in z.blocks && z.blocks[a].free
    ensures !HeldPage(z.blocks, a)
  {
    hide Pow2, Covered;
    forall x | x in z.blocks && !z.blocks[x].free ensures !(x <= a < End(z.blocks, x)) {
      if x < a { assert End(z.blocks, x) <= a; }
    }
  }

  /** Whatever the holders write into their pages, short of the magic number, the allocator's
      invariant stays. */
  lemma {:induction false} HoldersWriteOk(z: Zone, s: nat, e: nat, n: Mem)
    requires Inv(z, s, e) && HoldersWrote(z, n)
    ensures Inv(z.(mem := n), s, e)
  {
    hide Partition, Linked, NoDup, HeldPage;
    var y := z.(mem := n);
    forall i | 0 <= i < MAX_ORDER ensures ListOk(y, i) { ListUntouched(z, s, e, n, i); }
  }

  lemma {:induction false} ListUntouched(z: Zone, s: nat, e: nat, n: Mem, i: nat)
    requires Inv(z, s, e) && HoldersWrote(z, n) && i < MAX_ORDER
    ensures ListOk(z.(mem := n), i)
  {
    hide Partition, NoDup, HeldPage;
    var y, q := z.(mem := n), z.lists[i];
    assert ListOk(z, i);
    forall k | 0 <= k < |q| ensures OnList(y, i, q[k]) && q[k] in n && n[q[k]] == z.mem[q[k]] {
      assert OnList(z, i, q[k]);
      FreeNotHeld(z, s, e, q[k]);
    }
    SentinelNotHeld(z.blocks, i);
    LinkedFrame(z.mem, n, i, q);
  }

  lemma {:induction false} SentinelNotHeld(m: Blocks, i: nat)
    ensures !HeldPage(m, Sentinel(i))
  {
  }
}
