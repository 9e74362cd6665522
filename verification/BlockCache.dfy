/** The block cache as the kernel runs it: buffers, trees and lists updated in place, each call
    proved equal to its step of the state machine. */
module BlockCache {
  import opened Lists
  import opened BlockCacheSpec
  import opened BlockCacheRun

  /** Walks the list to the entry and unlinks it. */
  method Unlink(q: seq<nat>, l: nat) returns (r: seq<nat>)
    ensures r == Without(q, l)
  {
    var i := 0;
    while i < |q| && q[i] != l
      invariant 0 <= i <= |q| && forall j :: 0 <= j < i ==> q[j] != l
    {
      i := i + 1;
    }
    WithoutFirst(q, l, i);
    r := if i < |q| then q[..i] + q[i + 1..] else q;
  }

  lemma {:induction false} WithoutFirst(q: seq<nat>, l: nat, i: nat)
    requires i <= |q| && (i < |q| ==> q[i] == l) && forall j :: 0 <= j < i ==> q[j] != l
    ensures Without(q, l) == if i < |q| then q[..i] + q[i + 1..] else q
    decreases i
  {
    if i > 0 {
      var rest := q[1..];
      WithoutFirst(rest, l, i - 1);
      assert q == [q[0]] + rest;
      assert i < |q| ==> q[..i] == [q[0]] + rest[..i - 1] && q[i + 1..] == rest[i..];
    }
  }

  class Cache {
    var disk: seq<Data>
    var bufs: map<nat, Buf>
    var lru: map<nat, nat>
    var dirty: seq<nat>
    var lruCtr: nat
    var refBlocks: nat
    var writeBack: nat
    const cap: nat

    function St(): State
      reads this
    {
      State(disk, bufs, lru, dirty, lruCtr, refBlocks, writeBack, cap)
    }

    constructor (disk: seq<Data>, cap: nat)
      ensures St() == Init(disk, cap) && Inv(St())
    {
      this.disk := disk;
      bufs, lru, dirty, lruCtr, refBlocks, writeBack := map[], map[], [], 0, 0, 0;
      this.cap := cap;
      new;
      InitOk(disk, cap);
    }

    method RemoveDirtyNode(l: nat)
      requires l in bufs
      modifies this`dirty, this`bufs
      ensures St() == Unlist(old(St()), l)
    {
      if bufs[l].onDirty {
        dirty := Unlink(dirty, l);
        bufs := bufs[l := bufs[l].(onDirty := false)];
      }
    }

    method InsertDirtyNode(l: nat)
      requires l in bufs
      modifies this`dirty, this`bufs
      ensures St() == Enlist(old(St()), l)
    {
      if !bufs[l].onDirty {
        dirty := [l] + dirty;
        bufs := bufs[l := bufs[l].(onDirty := true)];
      }
    }

    method FlushOne(l: nat)
      requires l in bufs && l < |disk|
      modifies this
      ensures St() == FlushBuf(old(St()), l)
    {
      if bufs[l].dirty && bufs[l].uptodate {
        disk := disk[l := bufs[l].data];
        RemoveDirtyNode(l);
        bufs := bufs[l := bufs[l].(dirty := false)];
      }
    }

    method Drop(l: nat)
      requires l in bufs
      modifies this
      ensures St() == DropBuf(old(St()), l)
    {
      if bufs[l].refs == 0 { lru := lru - {bufs[l].lruId}; }
      if bufs[l].dirty { RemoveDirtyNode(l); }
      bufs := bufs - {l};
      if refBlocks > 0 { refBlocks := refBlocks - 1; }
    }

    method Find(l: nat) returns (found: bool)
      modifies this
      ensures found <==> old(l in bufs)
      ensures St() == if old(l in bufs) then FindGet(old(St()), l) else old(St())
    {
      found := l in bufs;
      if found {
        if bufs[l].refs == 0 {
          lruCtr := (lruCtr + 1) % ID_SPACE;
          lru := lru - {bufs[l].lruId};
          if bufs[l].dirty { RemoveDirtyNode(l); }
          bufs := bufs[l := bufs[l].(lruId := lruCtr, refs := 1)];
        } else {
          bufs := bufs[l := bufs[l].(refs := bufs[l].refs + 1)];
        }
      }
    }

    /** False is ENOMEM. */
    method Allocate(l: nat, memOk: bool, junk: Data) returns (ok: bool)
      modifies this
      ensures ok <==> old(l in bufs) || memOk
      ensures St() == if ok then Alloc(old(St()), l, junk) else old(St())
    {
      ok := Find(l);
      if !ok && memOk {
        refBlocks := refBlocks + 1;
        lruCtr := (lruCtr + 1) % ID_SPACE;
        bufs := bufs[l := Buf(junk, 1, lruCtr, false, false, false, false, false)];
        ok := true;
      }
    }

    method ReleaseLast(l: nat)
      requires l in bufs && l < |disk|
      modifies this
      ensures St() == Release(old(St()), l)
    {
      var b := bufs[l];
      if b.lruId !in lru { lru := lru[b.lruId := l]; }
      if b.dirty && b.uptodate {
        if writeBack > 0 && !b.flush && !b.tmp {
          InsertDirtyNode(l);
        } else {
          FlushOne(l);
          bufs := bufs[l := bufs[l].(flush := false)];
        }
      }
      if !bufs[l].uptodate || bufs[l].tmp { Drop(l); }
    }

    method GiveBack(l: nat)
      requires Inv(St()) && Held(St(), l)
      modifies this
      ensures l < old(|disk|) && St() == Free(old(St()), l)
      ensures Inv(St()) && Flat(St()) == old(Flat(St()))
    {
      hide Inv, Flat, Release, SameContents;
      FreeOk(St(), l);
      bufs := bufs[l := bufs[l].(refs := bufs[l].refs - 1)];
      if bufs[l].refs == 0 { ReleaseLast(l); }
    }

    /** Evicts least recently acquired idle buffers until there is room or none is left. */
    method ShakeCache()
      requires Inv(St())
      modifies this
      ensures St() == Shake(old(St()))
      ensures Inv(St()) && Flat(St()) == old(Flat(St())) && (refBlocks < cap || lru == map[])
    {
      hide Inv, Flat, Evict, FlushBuf, DropBuf;
      ghost var s0 := St();
      ShakeOk(s0);
      while lru != map[] && cap <= refBlocks
        invariant Inv(St()) && Shake(St()) == Shake(s0)
        decreases |lru|
      {
        ghost var s := St();
        LowestExists(lru.Keys);
        var id :| id in lru.Keys && forall k :: k in lru.Keys ==> id <= k;
        assert id == Lowest(s);
        ShakeVictim(s);
        EvictOk(s, lru[id]);
        FlushBufOk(s, lru[id]);
        EvictIs(s, lru[id]);
        var l := lru[id];
        if bufs[l].dirty { FlushOne(l); }
        Drop(l);
      }
    }

    /** Writes out the whole queue.  The counter may already have dropped to zero. */
    method CacheFlush()
      requires Inv(St().(writeBack := 1))
      modifies this
      ensures St().(writeBack := 1) == FlushAll(old(St()).(writeBack := 1)) && writeBack == old(writeBack)
    {
      hide Inv, Flat, FlushBuf;
      ghost var s0 := St().(writeBack := 1);
      while dirty != []
        invariant writeBack == old(writeBack)
        invariant Inv(St().(writeBack := 1)) && FlushAll(St().(writeBack := 1)) == FlushAll(s0)
        decreases |dirty|
      {
        ghost var s := St().(writeBack := 1);
        FirstQueued(s);
        FlushBufOk(s, dirty[0]);
        FlushAside(St(), dirty[0], 1);
        FlushOne(dirty[0]);
      }
    }

    method SetWriteBackMode(on: bool)
      requires Inv(St())
      modifies this
      ensures St() == SetWriteBack(old(St()), on)
      ensures Inv(St()) && Flat(St()) == old(Flat(St()))
      ensures writeBack == 0 ==> forall l :: 0 <= l < |disk| && !old(Held(St(), l)) ==> disk[l] == old(Flat(St()))[l]
    {
      hide Inv, Flat, FlushAll;
      ghost var s := St();
      SetWriteBackOk(s, on);
      WriteBackAside(s);
      if on { writeBack := writeBack + 1; }
      if !on && writeBack > 0 { writeBack := writeBack - 1; }
      if writeBack == 0 {
        FlushAllAside(s, 1);
        CacheFlush();
      }
    }

    /** False is ENXIO or ENOMEM. */
    method GetNoRead(l: nat, memOk: bool, junk: Data) returns (ok: bool)
      requires Inv(St()) && Legal(St(), Op.GetNoRead(l, memOk, junk))
      modifies this
      ensures St() == Step(old(St()), Op.GetNoRead(l, memOk, junk))
      ensures ok <==> l < old(|disk|) && l in bufs
      ensures Inv(St()) && Flat(St()) == old(Flat(St())) && (ok ==> Held(St(), l))
      ensures l < old(|disk|) && !ok ==> !memOk
    {
      hide Inv, Flat, Shake, Alloc, IdFree;
      if l >= |disk| { return false; }
      AcquireOk(St(), l, memOk, junk);
      ShakeCache();
      AllocHas(St(), l, junk);
      ok := Allocate(l, memOk, junk);
    }

    /** A block that is got reads as the array behind the cache. */
    method Get(l: nat, memOk: bool, junk: Data) returns (ok: bool)
      requires Inv(St()) && Legal(St(), Op.Get(l, memOk, junk))
      modifies this
      ensures St() == Step(old(St()), Op.Get(l, memOk, junk))
      ensures ok <==> l < old(|disk|) && l in bufs
      ensures Inv(St()) && Flat(St()) == old(Flat(St()))
      ensures ok ==> Held(St(), l) && bufs[l].data == old(Flat(St())[l])
      ensures l < old(|disk|) && !ok ==> !memOk
    {
      hide Inv, Flat, Shake, Acquire, IdFree;
      ok := GetNoRead(l, memOk, junk);
      if ok {
        FillOk(St(), l);
        if !bufs[l].uptodate {
          bufs := bufs[l := bufs[l].(data := disk[l], uptodate := true)];
        }
      }
    }

    method MarkDirty(l: nat, d: Data)
      requires Inv(St()) && Held(St(), l)
      modifies this
      ensures St() == SetDirty(old(St()), l, d)
      ensures l < |disk| && Inv(St()) && Flat(St()) == old(Flat(St()))[l := d]
    {
      hide Inv, Flat;
      InDevice(St(), l);
      SetDirtyOk(St(), l, d);
      bufs := bufs[l := bufs[l].(data := d, uptodate := true, dirty := true)];
    }

    method FlushBlock(l: nat)
      requires Inv(St()) && Legal(St(), Op.FlushBlock(l))
      modifies this
      ensures St() == Step(old(St()), Op.FlushBlock(l))
      ensures Inv(St()) && Flat(St()) == old(Flat(St()))
      ensures old(l in bufs && bufs[l].uptodate) ==> l < |disk| && disk[l] == Flat(St())[l]
    {
      hide Inv, Flat, FindGet, FlushBuf, IdFree, Free;
      if l in bufs {
        InDevice(St(), l);
        FlushLbaOk(St(), l);
        FindGetOk(St(), l) by { AcquireId(St(), l); }
        FlushBufOk(FindGet(St(), l), l);
      }
      var found := Find(l);
      if found {
        FlushOne(l);
        GiveBack(l);
      }
    }
  }

  lemma {:induction false} AllocHas(s: State, l: nat, junk: Data)
    ensures l in Alloc(s, l, junk).bufs
  {
    hide Without;
  }

  lemma {:induction false} AcquireId(s: State, l: nat)
    requires IdFree(s, l)
    ensures !Held(s, l) ==> Fresh(s, l)
  {
  }

  lemma {:induction false} FlushAside(s: State, l: nat, n: nat)
    requires l in s.bufs && l < |s.disk|
    ensures FlushBuf(s.(writeBack := n), l) == FlushBuf(s, l).(writeBack := n)
    ensures FlushBuf(s, l).writeBack == s.writeBack
  {
  }

  lemma {:induction false} WriteBackAside(s: State)
    requires Inv(s)
    ensures Inv(s.(writeBack := 1)) && Flat(s.(writeBack := 1)) == Flat(s)
  {
    WriteBackFlag(s, 1);
  }

  /** The order of flushing does not depend on the write-back counter. */
  lemma {:induction false} FlushAllAside(s: State, n: nat)
    requires Inv(s) && Inv(s.(writeBack := n))
    ensures FlushAll(s.(writeBack := n)) == FlushAll(s).(writeBack := n)
    decreases |s.dirty|
  {
    hide Inv, Flat, FlushBuf;
    if s.dirty != [] {
      FirstQueued(s);
      FlushAside(s, s.dirty[0], n);
      FlushBufOk(s, s.dirty[0]);
      FlushBufOk(s.(writeBack := n), s.dirty[0]);
      FlushAllAside(FlushBuf(s, s.dirty[0]), n);
    }
  }

  lemma {:induction false} EvictIs(s: State, l: nat)
    requires l in s.bufs && l < |s.disk|
    ensures Evict(s, l) == DropBuf(if s.bufs[l].dirty then FlushBuf(s, l) else s, l)
  {
  }
}
