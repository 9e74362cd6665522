/** The write-back block cache as a state machine over values: what each operation does to the
    buffers, the LRU tree, the dirty list and the device. */
module BlockCacheSpec {
  import opened Lists

  type Data = seq<bv8>

  // lru_ctr and lru_id are 32-bit numbers.
  const ID_SPACE: nat := 0x1_0000_0000

  /** struct ext4_buf with its four flags. */
  datatype Buf = Buf(data: Data, refs: nat, lruId: nat, uptodate: bool, dirty: bool, flush: bool, tmp: bool,
      onDirty: bool)

  /** Device, cache and write-back counter.  The two red-black trees are finite maps. */
  datatype State = State(
    disk: seq<Data>,
    bufs: map<nat, Buf>,
    lru: map<nat, nat>,
    dirty: seq<nat>,
    lruCtr: nat,
    refBlocks: nat,
    writeBack: nat,
    cap: nat)

  // ---------------------------------------------------------------- the flat array behind the cache

  /** The contents of block l as a client sees them. */
  function View(s: State, l: nat): Data
    requires l < |s.disk|
  {
    if l in s.bufs && s.bufs[l].uptodate then s.bufs[l].data else s.disk[l]
  }

  function Flat(s: State): (f: seq<Data>)
    ensures |f| == |s.disk|
  {
    seq(|s.disk|, l requires 0 <= l < |s.disk| => View(s, l))
  }

  // ---------------------------------------------------------------- the invariant

  ghost predicate BufOk(s: State, l: nat)
    requires l in s.bufs
  {
    var b := s.bufs[l];
    && l < |s.disk|
    && (b.dirty ==> b.uptodate)
    && (b.uptodate && !b.dirty ==> b.data == s.disk[l])
    && (b.refs == 0 ==> b.uptodate && !b.tmp && b.lruId in s.lru && s.lru[b.lruId] == l)
    && (b.onDirty <==> b.refs == 0 && b.dirty)
    && (b.onDirty <==> l in s.dirty)
  }

  ghost predicate BufsOk(s: State) {
    forall l :: l in s.bufs ==> BufOk(s, l)
  }

  /** The LRU tree holds unreferenced buffers under their own ids. */
  ghost predicate LruOk(s: State) {
    forall id :: id in s.lru ==> s.lru[id] in s.bufs && s.bufs[s.lru[id]].refs == 0 && s.bufs[s.lru[id]].lruId == id
  }

  ghost predicate IdsOk(s: State) {
    forall l, m :: l in s.bufs && m in s.bufs && l != m ==> s.bufs[l].lruId != s.bufs[m].lruId
  }

  ghost predicate ListOk(s: State) {
    && (forall i :: 0 <= i < |s.dirty| ==> s.dirty[i] in s.bufs)
    && NoDup(s.dirty)
  }

  ghost predicate Inv(s: State) {
    && BufsOk(s) && LruOk(s) && IdsOk(s) && ListOk(s)
    && s.refBlocks == |s.bufs|
    && (s.writeBack == 0 ==> s.dirty == [])
  }

  /** What the invariant says of the lists: the LRU tree holds exactly the unreferenced buffers, the dirty
      list exactly the unreferenced dirty ones, and all of them are counted. */
  lemma {:induction false} ListsMean(s: State, l: nat)
    requires Inv(s)
    ensures (exists id :: id in s.lru && s.lru[id] == l) <==> l in s.bufs && s.bufs[l].refs == 0
    ensures l in s.dirty <==> l in s.bufs && s.bufs[l].refs == 0 && s.bufs[l].dirty
    ensures s.refBlocks == |s.bufs|
  {
    if l in s.bufs {
      assert BufOk(s, l);
    }
  }

  // ---------------------------------------------------------------- building blocks

  function NextId(s: State): nat { (s.lruCtr + 1) % ID_SPACE }

  /** ext4_bcache_remove_dirty_node. */
  function Unlist(s: State, l: nat): State
    requires l in s.bufs
  {
    if s.bufs[l].onDirty then s.(dirty := Without(s.dirty, l), bufs := s.bufs[l := s.bufs[l].(onDirty := false)])
    else s
  }

  /** ext4_block_flush_buf, the write succeeding. */
  function FlushBuf(s: State, l: nat): State
    requires l in s.bufs && l < |s.disk|
  {
    if s.bufs[l].dirty && s.bufs[l].uptodate then
      var s1 := Unlist(s.(disk := s.disk[l := s.bufs[l].data]), l);
      s1.(bufs := s1.bufs[l := s1.bufs[l].(dirty := false)])
    else s
  }

  /** ext4_bcache_drop_buf. */
  function DropBuf(s: State, l: nat): State
    requires l in s.bufs
  {
    var b := s.bufs[l];
    var s1 := if b.refs != 0 then s else s.(lru := s.lru - {b.lruId});
    var s2 := if b.dirty then Unlist(s1, l) else s1;
    s2.(bufs := s2.bufs - {l}, refBlocks := if s2.refBlocks > 0 then s2.refBlocks - 1 else 0)
  }

  /** ext4_bcache_find_get of a cached buffer. */
  function FindGet(s: State, l: nat): State
    requires l in s.bufs
  {
    var b := s.bufs[l];
    if b.refs != 0 then s.(bufs := s.bufs[l := b.(refs := b.refs + 1)])
    else
      var id := NextId(s);
      var s1 := s.(lruCtr := id, lru := s.lru - {b.lruId});
      var s2 := if b.dirty then Unlist(s1, l) else s1;
      s2.(bufs := s2.bufs[l := s2.bufs[l].(lruId := id, refs := 1)])
  }

  /** The part of ext4_bcache_alloc for a block that is not cached; junk is what malloc returned. */
  function NewBuf(s: State, l: nat, junk: Data): State
    requires l !in s.bufs
  {
    var id := NextId(s);
    s.(bufs := s.bufs[l := Buf(junk, 1, id, false, false, false, false, false)], lruCtr := id,
      refBlocks := s.refBlocks + 1)
  }

  function Alloc(s: State, l: nat, junk: Data): State {
    if l in s.bufs then FindGet(s, l) else NewBuf(s, l, junk)
  }

  /** ext4_bcache_insert_dirty_node. */
  function Enlist(s: State, l: nat): State
    requires l in s.bufs
  {
    if s.bufs[l].onDirty then s
    else s.(dirty := [l] + s.dirty, bufs := s.bufs[l := s.bufs[l].(onDirty := true)])
  }

  /** ext4_bcache_free once the last reference is gone: into the LRU tree (where RB_INSERT leaves
      an existing id alone), then queued or written, then dropped if it must not stay. */
  function Release(s: State, l: nat): State
    requires l in s.bufs && l < |s.disk|
  {
    var b := s.bufs[l];
    var s1 := if b.lruId in s.lru then s else s.(lru := s.lru[b.lruId := l]);
    var s2 := if !(b.dirty && b.uptodate) then s1
              else if s.writeBack > 0 && !b.flush && !b.tmp then Enlist(s1, l)
              else
                var f := FlushBuf(s1, l);
                f.(bufs := f.bufs[l := f.bufs[l].(flush := false)]);
    if !b.uptodate || b.tmp then DropBuf(s2, l) else s2
  }

  function Free(s: State, l: nat): State
    requires l in s.bufs && s.bufs[l].refs > 0 && l < |s.disk|
  {
    var s1 := s.(bufs := s.bufs[l := s.bufs[l].(refs := s.bufs[l].refs - 1)]);
    if s1.bufs[l].refs == 0 then Release(s1, l) else s1
  }

  predicate Full(s: State) { s.cap <= s.refBlocks }

  ghost predicate IsLowest(lru: map<nat, nat>, id: nat) {
    id in lru && forall k :: k in lru ==> id <= k
  }

  lemma {:induction false} LowestOf(keys: set<nat>) returns (id: nat)
    requires keys != {}
    ensures id in keys && forall k :: k in keys ==> id <= k
    decreases keys
  {
    id :| id in keys;
    var rest := keys - {id};
    if rest != {} {
      var y := LowestOf(rest);
      assert forall k :: k in keys ==> k == id || k in rest;
      if y < id { id := y; }
    } else {
      assert forall k :: k in keys ==> k == id || k in rest;
    }
  }

  lemma {:induction false} LowestExists(keys: set<nat>)
    requires keys != {}
    ensures exists id :: id in keys && forall k :: k in keys ==> id <= k
  {
    var id := LowestOf(keys);
  }

  /** ext4_buf_lowest_lru. */
  ghost function Lowest(s: State): (id: nat)
    requires s.lru != map[]
    ensures IsLowest(s.lru, id)
  {
    assert s.lru.Keys != {};
    LowestExists(s.lru.Keys);
    var id :| id in s.lru.Keys && forall k :: k in s.lru.Keys ==> id <= k;
    id
  }

  /** ext4_block_cache_shake: write out and drop least recently used buffers while the cache is full. */
  ghost function Shake(s: State): State
    requires Inv(s)
    decreases |s.lru|
  {
    if s.lru == map[] || !Full(s) then s
    else
      EvictOk(s, s.lru[Lowest(s)]);
      Shake(Evict(s, s.lru[Lowest(s)]))
  }

  function Evict(s: State, l: nat): State
    requires l in s.bufs && l < |s.disk|
  {
    DropBuf(FlushBuf(s, l), l)
  }

  // ---------------------------------------------------------------- proofs about the building blocks

  /** Two states that differ in block l only: the device, the LRU tree and the dirty list agree
      about every other block. */
  ghost predicate SameElsewhere(s: State, r: State, l: nat) {
    && |r.disk| == |s.disk| && (forall m :: 0 <= m < |s.disk| && m != l ==> r.disk[m] == s.disk[m])
    && (forall id :: id in s.lru && s.lru[id] != l ==> id in r.lru && r.lru[id] == s.lru[id])
    && (forall id :: id in r.lru && r.lru[id] != l ==> id in s.lru && s.lru[id] == r.lru[id])
    && (forall m :: m != l ==> (m in r.dirty <==> m in s.dirty))
    && NoDup(r.dirty) && (r.writeBack == 0 ==> r.dirty == [])
  }

  /** Block l has the buffer n in r, which is fine by itself and has an id of its own. */
  ghost predicate Changed(s: State, r: State, l: nat, n: Buf) {
    && SameElsewhere(s, r, l)
    && r.bufs == s.bufs[l := n] && BufOk(r, l) && r.refBlocks == |r.bufs|
    && (forall id :: id in r.lru && r.lru[id] == l ==> n.refs == 0 && id == n.lruId)
    && (forall m :: m in s.bufs && m != l ==> s.bufs[m].lruId != n.lruId)
  }

  lemma {:induction false} ElsewhereOk(s: State, r: State, l: nat, m: nat)
    requires BufsOk(s) && SameElsewhere(s, r, l) && m != l && m in s.bufs && m in r.bufs && r.bufs[m] == s.bufs[m]
    ensures BufOk(r, m)
  {
    assert BufOk(s, m);
  }

  lemma {:induction false} ChangedIds(s: State, r: State, l: nat, n: Buf)
    requires LruOk(s) && IdsOk(s) && Changed(s, r, l, n)
    ensures LruOk(r) && IdsOk(r)
  {
    hide BufOk, NoDup;
    ChangedLru(s, r, l, n);
    forall k, m | k in r.bufs && m in r.bufs && k != m ensures r.bufs[k].lruId != r.bufs[m].lruId {
      assert k != l ==> k in s.bufs && r.bufs[k] == s.bufs[k];
      assert m != l ==> m in s.bufs && r.bufs[m] == s.bufs[m];
    }
  }

  lemma {:induction false} ChangedLru(s: State, r: State, l: nat, n: Buf)
    requires LruOk(s) && Changed(s, r, l, n)
    ensures LruOk(r)
  {
    hide BufOk, NoDup;
    forall id | id in r.lru
      ensures r.lru[id] in r.bufs && r.bufs[r.lru[id]].refs == 0 && r.bufs[r.lru[id]].lruId == id
    {
      if r.lru[id] != l { assert id in s.lru && s.lru[id] == r.lru[id]; }
    }
  }

  lemma {:induction false} ChangedList(s: State, r: State, l: nat)
    requires ListOk(s) && SameElsewhere(s, r, l) && (l in r.dirty ==> l in r.bufs)
    requires forall m :: m in s.bufs && m != l ==> m in r.bufs
    ensures ListOk(r)
  {
    forall i | 0 <= i < |r.dirty| ensures r.dirty[i] in r.bufs {
      assert r.dirty[i] in r.dirty;
    }
  }

  lemma {:induction false} ChangedFlat(s: State, r: State, l: nat)
    requires SameElsewhere(s, r, l) && l < |s.disk|
    requires forall m :: m != l ==> (m in r.bufs <==> m in s.bufs) && (m in s.bufs ==> r.bufs[m] == s.bufs[m])
    ensures Flat(r) == Flat(s)[l := View(r, l)]
  {
  }

  /** A change to one buffer keeps the invariant, and the flat array changes at most there. */
  lemma {:induction false} ChangedInv(s: State, r: State, l: nat, n: Buf)
    requires Inv(s) && Changed(s, r, l, n)
    ensures Inv(r) && l < |s.disk| && Flat(r) == Flat(s)[l := View(r, l)]
  {
    hide LruOk, IdsOk, ListOk, View;
    ChangedIds(s, r, l, n);
    ChangedList(s, r, l);
    ChangedFlat(s, r, l);
    forall m | m in r.bufs ensures BufOk(r, m) {
      if m != l { ElsewhereOk(s, r, l, m); }
    }
  }

  /** Removing a buffer keeps the invariant; the block then shows what is on the device. */
  lemma {:induction false} RemovedInv(s: State, r: State, l: nat)
    requires Inv(s) && l in s.bufs && SameElsewhere(s, r, l) && r.bufs == s.bufs - {l} && l !in r.dirty
    requires (forall id :: id in r.lru ==> r.lru[id] != l) && r.refBlocks == s.refBlocks - 1
    ensures Inv(r) && l < |s.disk| && Flat(r) == Flat(s)[l := r.disk[l]]
  {
    hide LruOk, IdsOk, ListOk, View;
    assert BufOk(s, l);
    assert r.bufs.Keys == s.bufs.Keys - {l};
    assert |r.bufs| == |r.bufs.Keys| && |s.bufs| == |s.bufs.Keys|;
    RemovedIds(s, r, l);
    ChangedList(s, r, l);
    ChangedFlat(s, r, l);
    RemovedView(r, l);
    forall m | m in r.bufs ensures BufOk(r, m) { ElsewhereOk(s, r, l, m); }
  }

  lemma {:induction false} RemovedIds(s: State, r: State, l: nat)
    requires LruOk(s) && IdsOk(s) && SameElsewhere(s, r, l) && r.bufs == s.bufs - {l} &&
             forall id :: id in r.lru ==> r.lru[id] != l
    ensures LruOk(r) && IdsOk(r)
  {
  }

  lemma {:induction false} RemovedView(r: State, l: nat)
    requires l < |r.disk| && l !in r.bufs
    ensures View(r, l) == r.disk[l]
  {
  }

  lemma {:induction false} FlatUpdate(s: State, l: nat, d: Data)
    requires l < |s.disk| && d == View(s, l)
    ensures Flat(s)[l := d] == Flat(s)
  {
  }

  // ---------------------------------------------------------------- the operations

  lemma {:induction false} FlushBufIs(s: State, l: nat)
    requires l in s.bufs && BufOk(s, l) && s.bufs[l].dirty
    ensures FlushBuf(s, l) == s.(
      disk := s.disk[l := s.bufs[l].data],
      dirty := if s.bufs[l].onDirty then Without(s.dirty, l) else s.dirty,
      bufs := s.bufs[l := s.bufs[l].(dirty := false, onDirty := false)])
  {
    hide Without;
    var n := s.bufs[l].(dirty := false, onDirty := false);
    assert FlushBuf(s, l).bufs == s.bufs[l := n];
  }

  lemma {:induction false} SameSize(a: map<nat, Buf>, l: nat, n: Buf)
    requires l in a
    ensures a[l := n].Keys == a.Keys && |a[l := n]| == |a|
  {
    assert a[l := n].Keys == a.Keys;
    assert |a[l := n]| == |a[l := n].Keys| && |a| == |a.Keys|;
  }

  lemma {:induction false} FlushBufOk(s: State, l: nat)
    requires Inv(s) && l in s.bufs
    ensures l < |s.disk|
    ensures var r := FlushBuf(s, l);
            && Inv(r) && Flat(r) == Flat(s) && r.lru == s.lru && r.bufs.Keys == s.bufs.Keys
            && r.bufs[l] == s.bufs[l].(dirty := false, onDirty := false)
            && r.writeBack == s.writeBack && r.lruCtr == s.lruCtr && r.cap == s.cap && r.refBlocks == s.refBlocks
            && (s.bufs[l].onDirty ==> r.dirty == Without(s.dirty, l))
  {
    assert BufOk(s, l);
    if s.bufs[l].dirty { FlushDirtyOk(s, l); }
  }

  lemma {:induction false} FlushDirtyOk(s: State, l: nat)
    requires Inv(s) && l in s.bufs && l < |s.disk| && s.bufs[l].dirty
    ensures var r := FlushBuf(s, l);
            && Inv(r) && Flat(r) == Flat(s) && r.lru == s.lru && r.bufs.Keys == s.bufs.Keys
            && r.bufs[l] == s.bufs[l].(dirty := false, onDirty := false)
            && r.writeBack == s.writeBack && r.lruCtr == s.lruCtr && r.cap == s.cap && r.refBlocks == s.refBlocks
            && (s.bufs[l].onDirty ==> r.dirty == Without(s.dirty, l))
  {
    hide FlushBuf, Flat, Without;
    assert BufOk(s, l);
    FlushBufIs(s, l);
    var r := FlushBuf(s, l);
    WithoutOk(s.dirty, l);
    SameSize(s.bufs, l, r.bufs[l]);
    ChangedInv(s, r, l, r.bufs[l]);
    FlatUpdate(s, l, View(r, l));
  }

  /** Dropping an unreferenced clean buffer. */
  lemma {:induction false} DropBufOk(s: State, l: nat)
    requires Inv(s) && l in s.bufs && s.bufs[l].refs == 0 && !s.bufs[l].dirty
    ensures var r := DropBuf(s, l);
            && Inv(r) && Flat(r) == Flat(s) && r.bufs == s.bufs - {l} && r.lru == s.lru - {s.bufs[l].lruId}
            && r.writeBack == s.writeBack && r.lruCtr == s.lruCtr && r.cap == s.cap && r.refBlocks == s.refBlocks - 1
  {
    assert BufOk(s, l);
    var r := DropBuf(s, l);
    RemovedInv(s, r, l);
    FlatUpdate(s, l, r.disk[l]);
  }

  lemma {:induction false} EvictOk(s: State, l: nat)
    requires Inv(s) && l in s.bufs && s.bufs[l].refs == 0
    ensures l < |s.disk|
    ensures var r := Evict(s, l);
            && Inv(r) && Flat(r) == Flat(s) && r.bufs.Keys == s.bufs.Keys - {l} && |r.lru| < |s.lru|
            && r.writeBack == s.writeBack && r.lruCtr == s.lruCtr && r.cap == s.cap && r.refBlocks == s.refBlocks - 1
  {
    hide View;
    assert BufOk(s, l);
    FlushBufOk(s, l);
    var f := FlushBuf(s, l);
    DropBufOk(f, l);
    var id := f.bufs[l].lruId;
    assert (f.lru - {id}).Keys == f.lru.Keys - {id};
    assert |f.lru.Keys - {id}| == |f.lru.Keys| - 1;
  }

  /** No buffer but l's carries the id that the next acquisition hands out. */
  ghost predicate Fresh(s: State, l: nat) {
    forall m :: m in s.bufs && m != l ==> s.bufs[m].lruId != NextId(s)
  }

  lemma {:induction false} FindGetIs(s: State, l: nat)
    requires l in s.bufs && BufOk(s, l) && s.bufs[l].refs == 0
    ensures FindGet(s, l) == s.(
      lruCtr := NextId(s),
      lru := s.lru - {s.bufs[l].lruId},
      dirty := if s.bufs[l].onDirty then Without(s.dirty, l) else s.dirty,
      bufs := s.bufs[l := s.bufs[l].(refs := 1, lruId := NextId(s), onDirty := false)])
  {
    hide Without, NextId;
    var n := s.bufs[l].(refs := 1, lruId := NextId(s), onDirty := false);
    assert FindGet(s, l).bufs == s.bufs[l := n];
  }

  lemma {:induction false} FindGetOk(s: State, l: nat)
    requires Inv(s) && l in s.bufs && (s.bufs[l].refs == 0 ==> Fresh(s, l))
    ensures var r := FindGet(s, l);
            && Inv(r) && Flat(r) == Flat(s) && r.bufs.Keys == s.bufs.Keys && r.writeBack == s.writeBack &&
               r.cap == s.cap
            && r.bufs[l] == s.bufs[l].(refs := s.bufs[l].refs + 1, lruId := r.bufs[l].lruId, onDirty := false)
  {
    assert BufOk(s, l);
    if s.bufs[l].refs == 0 { FindIdleOk(s, l); } else { FindHeldOk(s, l); }
  }

  lemma {:induction false} FindIdleOk(s: State, l: nat)
    requires Inv(s) && l in s.bufs && Fresh(s, l) && s.bufs[l].refs == 0
    ensures var r := FindGet(s, l);
            && Inv(r) && Flat(r) == Flat(s) && r.bufs.Keys == s.bufs.Keys && r.writeBack == s.writeBack &&
               r.cap == s.cap
            && r.bufs[l] == s.bufs[l].(refs := 1, lruId := r.bufs[l].lruId, onDirty := false)
  {
    hide FindGet, NextId, Flat, Without, IdsOk;
    assert BufOk(s, l);
    FindGetIs(s, l);
    var r := FindGet(s, l);
    WithoutOk(s.dirty, l);
    SameSize(s.bufs, l, r.bufs[l]);
    ChangedInv(s, r, l, r.bufs[l]);
    FlatUpdate(s, l, View(r, l));
  }

  lemma {:induction false} FindHeldOk(s: State, l: nat)
    requires Inv(s) && l in s.bufs && s.bufs[l].refs > 0
    ensures var r := FindGet(s, l);
            && Inv(r) && Flat(r) == Flat(s) && r == s.(bufs := s.bufs[l := s.bufs[l].(refs := s.bufs[l].refs + 1)])
            && r.bufs.Keys == s.bufs.Keys
  {
    hide NextId, Flat, Unlist;
    assert BufOk(s, l);
    var r := FindGet(s, l);
    SameSize(s.bufs, l, r.bufs[l]);
    ChangedInv(s, r, l, r.bufs[l]);
    FlatUpdate(s, l, View(r, l));
  }

  lemma {:induction false} NewBufChanges(s: State, l: nat, junk: Data)
    requires Inv(s) && l !in s.bufs && Fresh(s, l) && l < |s.disk|
    ensures var r := NewBuf(s, l, junk); r.bufs.Keys == s.bufs.Keys + {l} && Changed(s, r, l, r.bufs[l])
  {
    hide NextId, Inv, BufsOk, LruOk, IdsOk, ListOk;
    Absent(s, l);
    var r := NewBuf(s, l, junk);
    NewSize(s.bufs, l, r.bufs[l]);
    assert r.bufs == s.bufs[l := r.bufs[l]];
    assert SameElsewhere(s, r, l);
    assert BufOk(r, l);
  }

  lemma {:induction false} NewSize(a: map<nat, Buf>, l: nat, n: Buf)
    requires l !in a
    ensures a[l := n].Keys == a.Keys + {l} && |a[l := n]| == |a| + 1
  {
    assert a[l := n].Keys == a.Keys + {l};
    assert |a[l := n]| == |a[l := n].Keys| && |a| == |a.Keys|;
  }

  /** A block without a buffer is in neither list. */
  lemma {:induction false} Absent(s: State, l: nat)
    requires Inv(s) && l !in s.bufs
    ensures l !in s.dirty && (forall id :: id in s.lru ==> s.lru[id] != l) && SameElsewhere(s, s, l) &&
            s.refBlocks == |s.bufs|
  {
    hide BufsOk, IdsOk;
  }

  lemma {:induction false} NewBufOk(s: State, l: nat, junk: Data)
    requires Inv(s) && l !in s.bufs && Fresh(s, l) && l < |s.disk|
    ensures var r := NewBuf(s, l, junk);
            && Inv(r) && Flat(r) == Flat(s) && r.bufs.Keys == s.bufs.Keys + {l} && r.writeBack == s.writeBack &&
               r.cap == s.cap
            && r.bufs[l].refs == 1 && !r.bufs[l].uptodate
  {
    hide NextId, Flat, Inv, Changed, Fresh;
    var r := NewBuf(s, l, junk);
    NewBufChanges(s, l, junk);
    ChangedInv(s, r, l, r.bufs[l]);
    FlatUpdate(s, l, View(r, l));
  }

  /** An acquisition keeps the invariant exactly when it does not hand out an id in use. */
  lemma {:induction false} FreshNeeded(s: State, l: nat, junk: Data)
    requires Inv(s) && l < |s.disk| && (l in s.bufs ==> s.bufs[l].refs == 0)
    ensures Inv(Alloc(s, l, junk)) <==> Fresh(s, l)
  {
    hide Flat, BufsOk, LruOk, ListOk, NextId;
    var r := Alloc(s, l, junk);
    if Fresh(s, l) {
      if l in s.bufs { FindGetOk(s, l); } else { NewBufOk(s, l, junk); }
    } else {
      var m :| m in s.bufs && m != l && s.bufs[m].lruId == NextId(s);
      AllocId(s, l, junk);
      assert !IdsOk(r);
    }
  }

  lemma {:induction false} AllocId(s: State, l: nat, junk: Data)
    requires l in s.bufs ==> s.bufs[l].refs == 0
    ensures var r := Alloc(s, l, junk);
            && l in r.bufs && r.bufs[l].lruId == NextId(s)
            && (forall m :: m in s.bufs && m != l ==> m in r.bufs && r.bufs[m] == s.bufs[m])
  {
    hide Without, NextId;
  }

  /** The counter wraps onto an id in use: block 1 still carries id 0 when block 0 is acquired. */
  lemma WrapExample()
    ensures var s := State([[], []], map[0 := Idle(7), 1 := Idle(0)], map[7 := 0, 0 := 1], [], ID_SPACE - 1, 2, 0, 8);
            Inv(s) && !Fresh(s, 0) && !Inv(Alloc(s, 0, [])) && Alloc(s, 0, []).bufs[0].lruId == s.bufs[1].lruId
  {
    var s := State([[], []], map[0 := Idle(7), 1 := Idle(0)], map[7 := 0, 0 := 1], [], ID_SPACE - 1, 2, 0, 8);
    assert s.bufs.Keys == {0, 1} && |s.bufs| == |s.bufs.Keys|;
    assert BufOk(s, 0) && BufOk(s, 1);
    FreshNeeded(s, 0, []);
    AllocId(s, 0, []);
  }

  /** An unreferenced clean buffer of an empty block. */
  function Idle(id: nat): Buf { Buf([], 0, id, true, false, false, false, false) }

  // ---------------------------------------------------------------- giving a buffer back

  lemma {:induction false} ReleaseLru(s: State, l: nat)
    requires l in s.bufs && l < |s.disk| && s.bufs[l].refs == 1 && s.bufs[l].uptodate && !s.bufs[l].tmp
    ensures var r, id := Free(s, l), s.bufs[l].lruId;
            r.lru == (if id in s.lru then s.lru else s.lru[id := l]) && l in r.bufs && r.bufs[l].refs == 0
  {
    hide Without;
  }

  /** A cached block that is acquired and released is in the LRU tree afterwards, where it can be
      evicted, if and only if no other block there has the id that the acquisition handed out. */
  lemma {:induction false} ReleasedListedIff(s: State, l: nat, junk: Data)
    requires Inv(s) && l in s.bufs && s.bufs[l].refs == 0
    ensures l < |s.disk| && l in Alloc(s, l, junk).bufs && Alloc(s, l, junk).bufs[l].refs == 1
    ensures var r := Free(Alloc(s, l, junk), l);
            && l in r.bufs && r.bufs[l].refs == 0
            && ((exists id :: id in r.lru && r.lru[id] == l) <==> (NextId(s) in s.lru ==> s.lru[NextId(s)] == l))
  {
    hide Free, NextId, FindGet, Without;
    assert BufOk(s, l);
    FindGetIs(s, l);
    var a := Alloc(s, l, junk);
    ReleaseLru(a, l);
    var id := NextId(s);
    assert Free(a, l).lru == if id in a.lru then a.lru else a.lru[id := l];
    if id !in a.lru { assert Free(a, l).lru[id] == l; }
  }

  /** Whether releasing the last reference leaves block l in the cache. */
  predicate Stays(b: Buf) { b.uptodate && !b.tmp }

  /** Whether releasing the last reference queues the buffer instead of writing it. */
  predicate Queues(s: State, b: Buf) { b.dirty && s.writeBack > 0 && !b.flush && !b.tmp }

  /** The same contents, possibly written out in between. */
  predicate SameContents(b: Buf, n: Buf) {
    n.data == b.data && n.uptodate == b.uptodate && (n.dirty ==> b.dirty) && n.lruId == b.lruId
  }

  lemma {:induction false} FreeStaysIs(s: State, l: nat)
    requires l in s.bufs && BufOk(s, l) && s.bufs[l].refs == 1 && Stays(s.bufs[l]) && s.bufs[l].lruId !in s.lru
    ensures var b := s.bufs[l];
            var q := Queues(s, b);
            Free(s, l) == s.(
      lru := s.lru[b.lruId := l],
      disk := if b.dirty && !q then s.disk[l := b.data] else s.disk,
      dirty := if q then [l] + s.dirty else s.dirty,
      bufs := s.bufs[l := b.(refs := 0, onDirty := q, dirty := q, flush := b.flush && !(b.dirty && !q))])
  {
    hide Without;
    var b := s.bufs[l];
    var q := Queues(s, b);
    assert Free(s, l).bufs ==
           s.bufs[l := b.(refs := 0, onDirty := q, dirty := q, flush := b.flush && !(b.dirty && !q))];
  }

  lemma {:induction false} FreeDropsIs(s: State, l: nat)
    requires l in s.bufs && BufOk(s, l) && s.bufs[l].refs == 1 && !Stays(s.bufs[l]) && s.bufs[l].lruId !in s.lru &&
             s.refBlocks > 0
    ensures Free(s, l) == s.(
      disk := if s.bufs[l].dirty then s.disk[l := s.bufs[l].data] else s.disk,
      bufs := s.bufs - {l},
      refBlocks := s.refBlocks - 1)
  {
    hide Without;
    var r := Free(s, l);
    assert r.bufs == s.bufs - {l};
    assert r.lru == s.lru;
  }

  lemma {:induction false} FreeStaysChanges(s: State, l: nat)
    requires Inv(s) && l in s.bufs && BufOk(s, l) && s.bufs[l].refs == 1 && Stays(s.bufs[l]) &&
             s.bufs[l].lruId !in s.lru
    ensures var r := Free(s, l);
            r.bufs.Keys == s.bufs.Keys && l in r.bufs && Changed(s, r, l, r.bufs[l]) && View(r, l) == View(s, l)
  {
    assert l < |s.disk|;
    hide Free, BufsOk, LruOk, IdsOk, SameElsewhere, BufOk, NoDup;
    FreeStaysIs(s, l);
    var r := Free(s, l);
    SameSize(s.bufs, l, r.bufs[l]);
    FreeStaysElsewhere(s, l);
    FreeStaysOwn(s, l);
  }

  lemma {:induction false} FreeStaysElsewhere(s: State, l: nat)
    requires Inv(s) && l in s.bufs && BufOk(s, l) && s.bufs[l].refs == 1 && Stays(s.bufs[l]) &&
             s.bufs[l].lruId !in s.lru
    ensures SameElsewhere(s, Free(s, l), l)
    ensures forall id :: id in Free(s, l).lru && Free(s, l).lru[id] == l ==> id == s.bufs[l].lruId
    ensures forall m :: m in s.bufs && m != l ==> s.bufs[m].lruId != s.bufs[l].lruId
  {
    hide Free, BufsOk;
    FreeStaysIs(s, l);
    ConsNoDup(l, s.dirty);
  }

  lemma {:induction false} FreeStaysOwn(s: State, l: nat)
    requires l in s.bufs && BufOk(s, l) && s.bufs[l].refs == 1 && Stays(s.bufs[l]) && s.bufs[l].lruId !in s.lru
    ensures var r := Free(s, l); l in r.bufs && BufOk(r, l) && View(r, l) == View(s, l)
  {
    hide Free;
    FreeStaysIs(s, l);
  }

  lemma {:induction false} FreeStaysOk(s: State, l: nat)
    requires Inv(s) && l in s.bufs && l < |s.disk| && s.bufs[l].refs == 1 && Stays(s.bufs[l])
    ensures var r := Free(s, l);
            && Inv(r) && Flat(r) == Flat(s) && r.bufs.Keys == s.bufs.Keys && r.bufs == s.bufs[l := r.bufs[l]]
            && r.bufs[l].refs == 0 && SameContents(s.bufs[l], r.bufs[l])
            && r.writeBack == s.writeBack && r.lruCtr == s.lruCtr && r.cap == s.cap
  {
    hide Free, Flat, Changed, View;
    assert BufOk(s, l);
    FreeStaysIs(s, l);
    FreeStaysChanges(s, l);
    var r := Free(s, l);
    ChangedInv(s, r, l, r.bufs[l]);
    FlatUpdate(s, l, View(r, l));
  }

  lemma {:induction false} FreeDropsOk(s: State, l: nat)
    requires Inv(s) && l in s.bufs && l < |s.disk| && s.bufs[l].refs == 1 && !Stays(s.bufs[l])
    ensures var r := Free(s, l);
            && Inv(r) && Flat(r) == Flat(s) && r.bufs == s.bufs - {l}
            && r.writeBack == s.writeBack && r.lruCtr == s.lruCtr && r.cap == s.cap
  {
    hide Free, Flat;
    assert BufOk(s, l);
    assert s.bufs.Keys != {} && |s.bufs| == |s.bufs.Keys|;
    FreeDropsIs(s, l);
    var r := Free(s, l);
    RemovedInv(s, r, l);
    FlatUpdate(s, l, r.disk[l]);
  }

  lemma {:induction false} FreeSharedOk(s: State, l: nat)
    requires Inv(s) && l in s.bufs && l < |s.disk| && s.bufs[l].refs > 1
    ensures Free(s, l) == s.(bufs := s.bufs[l := s.bufs[l].(refs := s.bufs[l].refs - 1)])
    ensures Inv(Free(s, l)) && Flat(Free(s, l)) == Flat(s) && Free(s, l).bufs.Keys == s.bufs.Keys
  {
    hide Flat, Release;
    assert BufOk(s, l);
    var r := Free(s, l);
    SameSize(s.bufs, l, r.bufs[l]);
    ChangedInv(s, r, l, r.bufs[l]);
    FlatUpdate(s, l, View(r, l));
  }

  lemma {:induction false} InDevice(s: State, l: nat)
    requires Inv(s) && l in s.bufs
    ensures l < |s.disk|
  {
    assert BufOk(s, l);
  }

  /** Giving a buffer back never changes what clients see. */
  lemma {:induction false} FreeOk(s: State, l: nat)
    requires Inv(s) && l in s.bufs && s.bufs[l].refs > 0
    ensures l < |s.disk|
    ensures var r := Free(s, l);
            && Inv(r) && Flat(r) == Flat(s) && r.bufs.Keys <= s.bufs.Keys
            && r.writeBack == s.writeBack && r.lruCtr == s.lruCtr && r.cap == s.cap
            && (forall m :: m in s.bufs && m != l ==> m in r.bufs && r.bufs[m] == s.bufs[m])
            && (l in r.bufs <==> s.bufs[l].refs > 1 || Stays(s.bufs[l]))
            && (l in r.bufs ==> r.bufs[l].refs == s.bufs[l].refs - 1 && SameContents(s.bufs[l], r.bufs[l]))
  {
    hide Flat, Free, Inv, Stays;
    assert l < |s.disk| by { InDevice(s, l); }
    if s.bufs[l].refs > 1 { FreeSharedOk(s, l); }
    else if Stays(s.bufs[l]) { FreeStaysOk(s, l); }
    else { FreeDropsOk(s, l); }
  }

  // ---------------------------------------------------------------- making room, writing everything out

  /** Shaking drops unreferenced buffers only, oldest acquisition first, changes no contents, and
      stops with room in the cache unless every cached buffer is in use. */
  lemma {:induction false} ShakeOk(s: State)
    requires Inv(s)
    ensures var r := Shake(s);
            && Inv(r) && Flat(r) == Flat(s) && r.writeBack == s.writeBack && r.lruCtr == s.lruCtr && r.cap == s.cap
            && (!Full(r) || r.lru == map[])
            && (forall l :: l in s.bufs && s.bufs[l].refs > 0 ==> l in r.bufs)
            && (forall l :: l in r.bufs ==> l in s.bufs && r.bufs[l] == s.bufs[l])
    decreases |s.lru|
  {
    hide Flat, Inv, Evict, Lowest;
    if s.lru != map[] && Full(s) {
      var l := s.lru[Lowest(s)];
      ShakeVictim(s);
      EvictOk(s, l);
      EvictOthers(s, l);
      ShakeOk(Evict(s, l));
    }
  }

  lemma {:induction false} ShakeVictim(s: State)
    requires Inv(s) && s.lru != map[]
    ensures var l := s.lru[Lowest(s)];
            l in s.bufs && s.bufs[l].refs == 0 && l < |s.disk| && s.bufs[l].lruId == Lowest(s)
  {
    hide Flat;
    assert BufOk(s, s.lru[Lowest(s)]);
  }

  lemma {:induction false} EvictOthers(s: State, l: nat)
    requires l in s.bufs && l < |s.disk|
    ensures forall m :: m in Evict(s, l).bufs ==> m in s.bufs && m != l && Evict(s, l).bufs[m] == s.bufs[m]
    ensures forall m :: m in s.bufs && m != l ==> m in Evict(s, l).bufs
  {
    hide Without;
  }

  /** What is dropped was acquired before every idle buffer that is kept. */
  lemma {:induction false} ShakeOldest(s: State, l: nat, m: nat)
    requires Inv(s) && l in s.bufs && l !in Shake(s).bufs && m in Shake(s).bufs && Shake(s).bufs[m].refs == 0
    ensures m in s.bufs && s.bufs[l].lruId < s.bufs[m].lruId
    decreases |s.lru|
  {
    hide Flat, Inv, Evict, Lowest;
    ShakeOk(s);
    var v := s.lru[Lowest(s)];
    ShakeVictim(s);
    EvictOk(s, v);
    EvictOthers(s, v);
    ShakeOk(Evict(s, v));
    if l == v {
      IdleIsListed(s, m, v);
    } else {
      ShakeOldest(Evict(s, v), l, m);
    }
  }

  lemma {:induction false} IdleIsListed(s: State, m: nat, v: nat)
    requires Inv(s) && m in s.bufs && s.bufs[m].refs == 0 && s.lru != map[] && v == s.lru[Lowest(s)] && m != v
    ensures v in s.bufs && s.bufs[v].lruId < s.bufs[m].lruId
  {
    hide Flat;
    assert BufOk(s, m);
  }

  // ---------------------------------------------------------------- writing everything out

  lemma {:induction false} FirstQueued(s: State)
    requires Inv(s) && s.dirty != []
    ensures s.dirty[0] in s.bufs && s.dirty[0] < |s.disk| && s.bufs[s.dirty[0]].onDirty && s.bufs[s.dirty[0]].dirty
    ensures Without(s.dirty, s.dirty[0]) == s.dirty[1..]
  {
    assert s.dirty[0] in s.dirty;
    assert BufOk(s, s.dirty[0]);
  }

  /** ext4_block_cache_flush. */
  ghost function FlushAll(s: State): State
    requires Inv(s)
    decreases |s.dirty|
  {
    if s.dirty == [] then s
    else
      FirstQueued(s);
      FlushBufOk(s, s.dirty[0]);
      FlushAll(FlushBuf(s, s.dirty[0]))
  }

  /** Block l is in use by a client. */
  predicate Held(s: State, l: nat) { l in s.bufs && s.bufs[l].refs > 0 }

  /** After a flush the device holds every block that nobody is holding. */
  lemma {:induction false} FlushAllOk(s: State)
    requires Inv(s)
    ensures var r := FlushAll(s);
            && Inv(r) && Flat(r) == Flat(s) && r.dirty == [] && r.bufs.Keys == s.bufs.Keys
            && r.writeBack == s.writeBack && r.lruCtr == s.lruCtr && r.cap == s.cap
            && (forall l :: l in s.bufs ==> r.bufs[l].refs == s.bufs[l].refs && r.bufs[l].lruId == s.bufs[l].lruId)
            && (forall l :: 0 <= l < |s.disk| && !Held(s, l) ==> r.disk[l] == Flat(s)[l])
    decreases |s.dirty|
  {
    hide Inv, Flat, FlushBuf;
    if s.dirty == [] {
      forall l | 0 <= l < |s.disk| && !Held(s, l) ensures s.disk[l] == Flat(s)[l] { NothingQueued(s, l); }
    } else {
      FirstQueued(s);
      FlushBufOk(s, s.dirty[0]);
      FlushOthers(s, s.dirty[0]);
      FlushAllOk(FlushBuf(s, s.dirty[0]));
    }
  }

  lemma {:induction false} FlushOthers(s: State, l: nat)
    requires l in s.bufs && l < |s.disk|
    ensures FlushBuf(s, l).bufs.Keys == s.bufs.Keys && |FlushBuf(s, l).disk| == |s.disk|
    ensures forall m :: m in s.bufs ==>
            FlushBuf(s, l).bufs[m].refs == s.bufs[m].refs && FlushBuf(s, l).bufs[m].lruId == s.bufs[m].lruId
  {
    hide Without;
  }

  lemma {:induction false} NothingQueued(s: State, l: nat)
    requires Inv(s) && s.dirty == [] && l < |s.disk| && !Held(s, l)
    ensures s.disk[l] == Flat(s)[l]
  {
    if l in s.bufs { assert BufOk(s, l); }
  }

  /** With write-back off the device is current wherever no client holds the block. */
  lemma {:induction false} WriteThrough(s: State, l: nat)
    requires Inv(s) && s.writeBack == 0 && l < |s.disk| && !Held(s, l)
    ensures s.disk[l] == Flat(s)[l]
  {
    NothingQueued(s, l);
  }
}
