/** malloc and free of the user library, on headers in memory. */
module Umalloc {
  import opened Wrappers
  import opened UmallocSpec
  import opened UmallocTake

  const UINT: nat := 0x1_0000_0000
  const ULONG: nat := 0x1_0000_0000_0000_0000
  // sizeof(Header)
  const UNIT: nat := 16
  // the least morecore asks for
  const CHUNK: nat := 4096

  /** The number of units for a request, header included, as the code's integer widths leave it. */
  function Units(nbytes: nat): nat { ((nbytes + UNIT - 1) % ULONG / UNIT + 1) % UINT }

  /** The units hold the request behind their header exactly when the count did not wrap. */
  lemma {:induction false} UnitsEnough(nbytes: nat)
    requires nbytes < ULONG
    ensures Units(nbytes) * UNIT >= nbytes + UNIT <==> nbytes <= (UINT - 2) * UNIT
  {
    var n := nbytes + UNIT - 1;
    if nbytes <= (UINT - 2) * UNIT {
      assert n % ULONG == n && n / UNIT + 1 < UINT;
    } else {
      assert Units(nbytes) < UINT;
    }
  }

  /** The smallest request that wraps gets no unit at all. */
  lemma {:induction false} UnitsExample()
    ensures Units((UINT - 2) * UNIT + 1) == 0
  {
  }

  lemma {:induction false} IndexOf(q: seq<nat>, a: nat) returns (k: nat)
    requires a in q
    ensures k < |q| && q[k] == a
  {
    k :| 0 <= k < |q| && q[k] == a;
  }

  /** The node a block belongs behind. */
  lemma {:induction false} LastBelow(q: seq<nat>, n: nat, b: nat) returns (t: nat)
    requires 0 < n <= |q| && q[0] < b && b !in q && forall i :: n <= i < |q| ==> b < q[i]
    ensures Before(q, t, b)
    decreases n
  {
    if q[n - 1] < b {
      t := n - 1;
    } else {
      assert q[n - 1] != b;
      t := LastBelow(q, n - 1, b);
    }
  }

  /** Where x steps from the start of a ring of n nodes lead. */
  function Cyc(n: nat, x: nat): nat { if x < n then x else x - n }

  class Allocator {
    var mem: map<nat, Hdr>
    var started: bool
    var freep: nat
    var brk: nat
    ghost var q: seq<nat>
    ghost var live: map<nat, nat>
    const base: nat

    ghost function H(): Heap
      reads this
    {
      Heap(mem, q, live, brk)
    }

    ghost predicate Valid()
      reads this
    {
      && (started ==> Inv(H()) && q[0] == base && freep in q)
      && (!started ==> live == map[] && base < brk)
    }

    /** The static header lies below the heap. */
    constructor (base: nat, brk: nat)
      requires base < brk
      ensures Valid() && live == map[]
    {
      this.base := base;
      this.brk := brk;
      mem, started, freep, q, live := map[], false, 0, [], map[];
    }

    /** _free's search for the node to link the block behind. */
    method FindPlace(bp: nat, ghost t: nat) returns (p: nat)
      requires started && Valid() && Before(q, t, bp) && q[0] < bp
      ensures p == q[t]
    {
      hide Inv, Before;
      ghost var h := H();
      p := freep;
      ghost var k: nat := IndexOf(q, p);
      RingFacts(h, t, bp, k);
      while !(bp > p && bp < mem[p].ptr)
        invariant k < |q| && q[k] == p && p in mem && Sees(h, t, bp, k)
        decreases if k <= t then t - k else |q| - k + t
      {
        if p >= mem[p].ptr && (bp > p || bp < mem[p].ptr) { break; }
        p := mem[p].ptr;
        k := if k + 1 < |q| then k + 1 else 0;
        RingFacts(h, t, bp, k);
      }
    }

    /** _free. */
    method Free(bp: nat)
      requires Valid() && started && bp in live
      modifies this`mem, this`freep, this`q, this`live
      ensures Valid() && started == old(started) && live == old(live) - {bp} && FreeAt(H(), bp, old(live[bp]))
    {
      hide Inv, Freed, Before;
      ghost var h := H();
      ghost var t := PlaceFor(h, bp);
      var p := FindPlace(bp, t);
      FreedOk(h, t, bp);
      FreedMem(h, t, bp);
      FreedTwo(h, p, bp);
      FreedCovers(h, t, bp);
      var next := mem[p].ptr;
      if bp + mem[bp].size == next {
        mem := mem[bp := Hdr(mem[next].ptr, mem[bp].size + mem[next].size)];
      } else {
        mem := mem[bp := mem[bp].(ptr := next)];
      }
      if p + mem[p].size == bp {
        mem := mem[p := Hdr(mem[bp].ptr, mem[p].size + mem[bp].size)];
      } else {
        mem := mem[p := mem[p].(ptr := bp)];
      }
      freep := p;
      q := Freed(h, t, bp).q;
      live := live - {bp};
      assert H() == Freed(h, t, bp);
    }

    /** morecore: cur is where the break stands and ok whether it can be moved; false is failure. */
    method MoreCore(nu: nat, cur: nat, ok: bool) returns (r: bool)
      requires Valid() && started && nu > 0 && brk <= cur
      modifies this
      ensures Valid() && started && live == old(live) && r == ok
      ensures !r ==> H() == old(H()) && freep == old(freep)
      ensures r ==> HasBig(H(), nu) && brk == cur + (if nu < CHUNK then CHUNK else nu)
    {
      hide Inv, Size;
      var n := if nu < CHUNK then CHUNK else nu;
      if !ok { return false; }
      GrownOk(H(), cur, n);
      ghost var was := live;
      mem := mem[cur := Hdr(if cur in mem then mem[cur].ptr else 0, n)];
      live := live[cur := n];
      brk := cur + n;
      Free(cur);
      assert live == was;
      ghost var j: nat :| Covers(H(), j, cur, n);
      assert Size(H(), q[j]) >= nu;
      r := true;
    }

    /** Takes n units from node k, the one behind prevp.  A count of 0 - which a request can wrap to -
        unlinks the static header, or writes a header of size 0 behind the free block. */
    method Take(prevp: nat, p: nat, n: nat, ghost k: nat) returns (r: Option<nat>)
      requires Valid() && started && k < |q| && p == q[k] && Size(H(), p) >= n
      requires prevp == q[if k == 0 then |q| - 1 else k - 1]
      modifies this`mem, this`freep, this`q, this`live
      ensures started && r.Some? && live == old(live)[r.value := n] && (Valid() <==> n > 0)
      ensures n > 0 ==> r.value !in old(live)
      ensures n == 0 ==> mem == if k == 0 then old(mem)[prevp := old(mem[prevp]).(ptr := old(mem[p]).ptr)]
                                else old(mem)[r.value := Hdr(OldPtr(old(mem), r.value), 0)]
      ensures n == 0 ==> r.value == p + old(mem[p]).size && (r.value == base || Size(H(), r.value) == 0)
    {
      hide Inv, Whole, Tail, Removed;
      ghost var h := H();
      LinkedFact(h, k);
      LinkedFact(h, if k == 0 then |q| - 1 else k - 1);
      NodeSize(h, k);
      var a := p;
      if mem[p].size == n {
        if n > 0 { WholeIs(h, k); }
        mem := mem[prevp := mem[prevp].(ptr := mem[p].ptr)];
        if n > 0 { q := Removed(q, k); }
      } else {
        if n > 0 { TailIs(h, k, n); }
        var left := mem[p].size - n;
        mem := mem[p := mem[p].(size := left)];
        a := p + left;
        mem := mem[a := Hdr(OldPtr(mem, a), n)];
      }
      live := live[a := n];
      if n == 0 { ZeroBreaks(H(), a); }
      freep := prevp;
      r := Some(a);
    }

    /** The first call makes the ring, of the static header alone. */
    method Start()
      requires Valid() && !started
      modifies this`mem, this`freep, this`started, this`q
      ensures Valid() && started
    {
      mem := mem[base := Hdr(base, 0)];
      freep, started := base, true;
      q := [base];
      StartOk(H(), base);
    }

    /** malloc; the result is the header of the block.  grew tells whether the heap was grown, cur and
        ok answer the one call to brk it may make. */
    method Malloc(nbytes: nat, cur: nat, ok: bool) returns (r: Option<nat>, grew: bool)
      requires Valid() && brk <= cur
      modifies this
      ensures Valid() <==> Units(nbytes) > 0
      ensures r.Some? ==> live == old(live)[r.value := Units(nbytes)]
      ensures r.Some? && Units(nbytes) > 0 ==> r.value !in old(live)
      ensures Units(nbytes) == 0 ==> r.Some? && !grew && (r.value == base || Size(H(), r.value) == 0)
      ensures r.None? ==> live == old(live) && !ok && grew
      ensures grew ==> r.None? || brk == cur + (if Units(nbytes) < CHUNK then CHUNK else Units(nbytes))
      ensures !grew ==> brk == old(brk)
    {
      hide Inv, Size, Units, HasBig, Small, Cyc, Cursor;
      var n := Units(nbytes);
      grew := false;
      if !started { Start(); }
      ghost var f: nat := IndexOf(q, freep);
      var prevp := freep;
      CursorStart(H(), f);
      var p := mem[prevp].ptr;
      ghost var d: nat := 0;
      SmallNone(H(), f, n);
      while true
        invariant Inv(H()) && q != [] && q[0] == base && started && live == old(live) && f < |q| && freep == q[f] &&
                  (if grew then n > 0 else brk <= cur)
        invariant Cursor(q, f, d, prevp, p) && d < |q| && Small(H(), f, d, n)
        invariant if grew then brk == cur + (if n < CHUNK then CHUNK else n) && HasBig(H(), n) else brk == old(brk)
        decreases !grew, |q| - d
      {
        ghost var h := H();
        ghost var k: nat := Cyc(|q|, f + d + 1);
        CursorFacts(h, f, d, prevp, p);
        if mem[p].size >= n {
          assert freep in q;
          r := Take(prevp, p, n, k);
          return r, grew;
        }
        SmallStep(h, f, d, n);
        if p == freep {
          AroundOnce(h, f, d, n);
          grew := true;
          var more := MoreCore(n, cur, ok);
          if !more { return None, grew; }
          f := IndexOf(q, freep);
          p := freep;
          d := 0;
          SmallNone(H(), f, n);
          CursorStart(H(), f);
        } else {
          NotAround(h, f, d);
          CursorNext(h, f, d, prevp, p);
          d := d + 1;
        }
        prevp := p;
        p := mem[p].ptr;
      }
    }
  }

  /** The search has come d nodes past node f: p is the next one to look at, prevp the one before it. */
  ghost predicate Cursor(q: seq<nat>, f: nat, d: nat, prevp: nat, p: nat) {
    f < |q| && d < |q| && prevp == q[Cyc(|q|, f + d)] && p == q[Cyc(|q|, f + d + 1)]
  }

  lemma {:induction false} CursorStart(h: Heap, f: nat)
    requires Inv(h) && f < |h.q|
    ensures h.q[f] in h.mem && Cursor(h.q, f, 0, h.q[f], h.mem[h.q[f]].ptr)
  {
    hide Inv;
    LinkedFact(h, f);
  }

  lemma {:induction false} CursorFacts(h: Heap, f: nat, d: nat, prevp: nat, p: nat)
    requires Inv(h) && Cursor(h.q, f, d, prevp, p)
    ensures var k := Cyc(|h.q|, f + d + 1);
            && k < |h.q| && p == h.q[k] && prevp == h.q[if k == 0 then |h.q| - 1 else k - 1]
            && p in h.mem && h.mem[p].size == Size(h, p)
  {
    hide Inv, Size;
    LinkedFact(h, Cyc(|h.q|, f + d + 1));
    CycBack(|h.q|, f + d);
  }

  lemma {:induction false} CursorNext(h: Heap, f: nat, d: nat, prevp: nat, p: nat)
    requires Inv(h) && Cursor(h.q, f, d, prevp, p) && d + 1 < |h.q| && p in h.mem
    ensures Cursor(h.q, f, d + 1, p, h.mem[p].ptr)
  {
    hide Inv;
    LinkedFact(h, Cyc(|h.q|, f + d + 1));
  }

  /** The link field that the memory at a holds. */
  function OldPtr(mem: map<nat, Hdr>, a: nat): nat { if a in mem then mem[a].ptr else 0 }

  /** A block in use of no units breaks the heap. */
  lemma {:induction false} ZeroBreaks(h: Heap, a: nat)
    requires a in h.live && h.live[a] == 0
    ensures !Inv(h)
  {
    hide Linked, Ordered, FreeApart;
  }

  lemma {:induction false} NodeSize(h: Heap, k: nat)
    requires Inv(h) && k < |h.q|
    ensures Size(h, h.q[k]) == 0 <==> k == 0
  {
    hide Linked, Ordered, FreeApart, LiveOk;
  }

  lemma {:induction false} WholeIs(h: Heap, k: nat)
    requires Inv(h) && 1 <= k < |h.q|
    ensures h.q[k - 1] in h.mem && h.q[k] in h.mem && h.q[k] !in h.live && h.q[k - 1] in Removed(h.q, k)
    ensures var p, x := h.q[k], h.q[k - 1];
            && Inv(Heap(h.mem[x := h.mem[x].(ptr := h.mem[p].ptr)], Removed(h.q, k), h.live[p := h.mem[p].size],
               h.brk))
            && Removed(h.q, k)[0] == h.q[0]
  {
    hide Inv, Removed;
    WholeOk(h, k);
    WholeKeeps(h, k);
  }

  lemma {:induction false} TailIs(h: Heap, k: nat, n: nat)
    requires Inv(h) && 1 <= k < |h.q| && h.q[k] in h.mem && 0 < n < h.mem[h.q[k]].size
    ensures var p, left := h.q[k], h.mem[h.q[k]].size - n;
            var m, a := h.mem[p := h.mem[p].(size := left)], p + left;
            Inv(Heap(m[a := Hdr(OldPtr(m, a), n)], h.q, h.live[a := n], h.brk)) && a !in h.live
  {
    hide Inv;
    TailOk(h, k, n);
  }

  lemma {:induction false} CycBack(n: nat, x: nat)
    requires n > 0
    ensures Cyc(n, x) == if Cyc(n, x + 1) == 0 then n - 1 else Cyc(n, x + 1) - 1
  {
  }

  /** The header of b after the first half of _free. */
  function FirstHdr(h: Heap, p: nat, b: nat): Hdr
    requires p in h.mem && b in h.mem
  {
    var next := h.mem[p].ptr;
    if next in h.mem && b + h.mem[b].size == next then Hdr(h.mem[next].ptr, h.mem[b].size + h.mem[next].size)
    else h.mem[b].(ptr := next)
  }

  /** The memory _free leaves, written out. */
  function FreedHdrs(h: Heap, p: nat, b: nat): map<nat, Hdr>
    requires p in h.mem && b in h.mem
  {
    var m1 := h.mem[b := FirstHdr(h, p, b)];
    if p + m1[p].size == b then m1[p := Hdr(m1[b].ptr, m1[p].size + m1[b].size)] else m1[p := m1[p].(ptr := b)]
  }

  lemma {:induction false} FreedTwo(h: Heap, p: nat, b: nat)
    requires p in h.mem && b in h.mem && p != b
    ensures FreedHdrs(h, p, b) == if p + h.mem[p].size == b
      then h.mem[b := FirstHdr(h, p, b)][p := Hdr(FirstHdr(h, p, b).ptr, h.mem[p].size + FirstHdr(h, p, b).size)]
      else h.mem[b := FirstHdr(h, p, b)][p := h.mem[p].(ptr := b)]
  {
  }

  lemma {:induction false} FirstJoin(h: Heap, k: nat, b: nat)
    requires Inv(h) && b in h.live && Before(h.q, k, b)
    ensures b in h.mem && h.q[k] in h.mem && h.mem[h.q[k]].ptr in h.mem && h.q[k] != b
    ensures var g := Joined(Link(h, k, b), k + 1);
            && g.mem == h.mem[b := FirstHdr(h, h.q[k], b)][h.q[k] := h.mem[h.q[k]].(ptr := b)]
            && k + 1 < |g.q| && g.q[k] == h.q[k] && g.q[k + 1] == b && g.q[0] == h.q[0]
  {
    NodeInMem(h, k, b);
    LinkApart(h, k, b);
    LinkedNext(h, k);
    PlainFacts(h, k, b);
    if k + 1 < |h.q| { NextNode(h, k, b); }
    hide Inv, Before, FirstHdr;
    FirstJoinMem(h, k, b);
  }

  lemma {:induction false} FirstJoinMem(h: Heap, k: nat, b: nat)
    requires k < |h.q| && b in h.mem && h.q[k] in h.mem && h.q[k] != b && h.mem[h.q[k]].ptr in h.mem &&
             h.mem[h.q[k]].ptr != b
    requires k + 1 < |h.q| ==> h.mem[h.q[k]].ptr == h.q[k + 1] != h.q[k]
    requires k + 1 == |h.q| ==> h.mem[h.q[k]].ptr == h.q[0] < b
    ensures var g := Joined(Link(h, k, b), k + 1);
            && g.mem == h.mem[b := FirstHdr(h, h.q[k], b)][h.q[k] := h.mem[h.q[k]].(ptr := b)]
            && k + 1 < |g.q| && g.q[k] == h.q[k] && g.q[k + 1] == b && g.q[0] == h.q[0]
  {
    LinkMem(h, k, b);
    InsertedAt(h.q, k, b);
    hide Link, Inserted, Removed;
    var l, p, next := Link(h, k, b), h.q[k], h.mem[h.q[k]].ptr;
    if k + 1 < |h.q| {
      assert l.q[k + 2] == h.q[Old(k, k + 2)] == next;
      RemovedAt(l.q, k + 2);
      assert TouchesAt(l, k + 1) <==> b + h.mem[b].size == next;
      assert l.mem[next] == h.mem[next];
    }
  }

  lemma {:induction false} LinkMem(h: Heap, k: nat, b: nat)
    requires k < |h.q| && b in h.mem && h.q[k] in h.mem && h.q[k] != b && h.mem[h.q[k]].ptr == Next(h.q, k)
    ensures var l := Link(h, k, b);
            l.q == Inserted(h.q, k, b) &&
              l.mem == h.mem[b := h.mem[b].(ptr := h.mem[h.q[k]].ptr)][h.q[k] := h.mem[h.q[k]].(ptr := b)]
  {
  }

  lemma {:induction false} PlainFacts(h: Heap, k: nat, b: nat)
    requires Inv(h) && b in h.live && k < |h.q|
    ensures h.q[0] < b && h.q[k] in h.q && h.mem[h.q[k]].ptr in h.mem
  {
    LinkedAt(h, k);
    LinkedAt(h, if k + 1 < |h.q| then k + 1 else 0);
  }

  lemma {:induction false} LinkedNext(h: Heap, k: nat)
    requires Inv(h) && k < |h.q|
    ensures h.q[k] in h.mem && h.mem[h.q[k]].ptr == if k + 1 < |h.q| then h.q[k + 1] else h.q[0]
  {
    LinkedAt(h, k);
  }

  lemma {:induction false} NextNode(h: Heap, k: nat, b: nat)
    requires Inv(h) && k + 1 < |h.q| && Before(h.q, k, b)
    ensures h.q[k + 1] != b && h.q[k + 1] != h.q[k] && Inserted(h.q, k, b)[k + 2] == h.q[k + 1] &&
            h.mem[h.q[k]].ptr == h.q[k + 1]
  {
    LinkedAt(h, k);
  }

  lemma {:induction false} FreedMem(h: Heap, k: nat, b: nat)
    requires Inv(h) && b in h.live && Before(h.q, k, b)
    ensures b in h.mem && h.q[k] in h.mem && h.mem[h.q[k]].ptr in h.mem && h.q[k] != b
    ensures var f := Freed(h, k, b); f.mem == FreedHdrs(h, h.q[k], b) && h.q[k] in f.q && f.q[0] == h.q[0]
  {
    hide Inv, Freed, Link, FirstHdr, Joined, FreedHdrs;
    FirstJoin(h, k, b);
    FreedIs(h, k, b);
    SecondJoinMem(h, Joined(Link(h, k, b), k + 1), k, b);
  }

  lemma {:induction false} SecondJoinMem(h: Heap, g: Heap, k: nat, b: nat)
    requires k < |h.q| && b in h.mem && h.q[k] in h.mem && h.q[k] != b
    requires g.mem == h.mem[b := FirstHdr(h, h.q[k], b)][h.q[k] := h.mem[h.q[k]].(ptr := b)]
    requires k + 1 < |g.q| && g.q[k] == h.q[k] && g.q[k + 1] == b && g.q[0] == h.q[0]
    ensures var f := Joined(g, k); f.mem == FreedHdrs(h, h.q[k], b) && h.q[k] in f.q && f.q[0] == h.q[0]
  {
    hide FirstHdr, Removed;
    var f := Joined(g, k);
    RemovedAt(g.q, k + 1);
    assert f.q[k] == h.q[k];
  }

  lemma {:induction false} PlaceFor(h: Heap, b: nat) returns (t: nat)
    requires Inv(h) && b in h.live
    ensures Before(h.q, t, b) && h.q[0] < b
  {
    forall i | 0 <= i < |h.q| ensures h.q[i] != b { if i > 0 { NodeNotLive(h, i); } }
    t := LastBelow(h.q, |h.q|, b);
  }

  ghost predicate Sees(h: Heap, t: nat, b: nat, k: nat) {
    && k < |h.q| && h.q[k] in h.mem && h.mem[h.q[k]].ptr == Next(h.q, k)
    && (b > h.q[k] && b < Next(h.q, k) <==> k == t && k + 1 < |h.q|)
    && (h.q[k] >= Next(h.q, k) && (b > h.q[k] || b < Next(h.q, k)) <==> k == t && k + 1 == |h.q|)
  }

  /** What the search sees at node k when it looks for the place behind node t. */
  lemma {:induction false} RingFacts(h: Heap, t: nat, b: nat, k: nat)
    requires Inv(h) && Before(h.q, t, b) && h.q[0] < b && k < |h.q|
    ensures h.q[k] in h.mem && Sees(h, t, b, k) && t < |h.q|
  {
    hide Sized, LiveOk, FreeApart, Gap;
    LinkedAt(h, k);
    assert k < t ==> h.q[k] < h.q[t];
    assert k + 1 < t ==> h.q[k + 1] < h.q[t];
    assert t + 1 < k ==> h.q[t + 1] < h.q[k];
  }

  // ---------------------------------------------------------------- malloc's walk round the ring

  ghost predicate HasBig(h: Heap, n: nat) { exists j :: 0 <= j < |h.q| && Size(h, h.q[j]) >= n }

  /** The d nodes behind node f are too small. */
  ghost predicate Small(h: Heap, f: nat, d: nat, n: nat) {
    forall e :: 0 <= e < d ==> SmallAt(h, f, e, n)
  }

  ghost predicate SmallAt(h: Heap, f: nat, e: nat, n: nat) {
    f < |h.q| && e < |h.q| && Size(h, h.q[Cyc(|h.q|, f + e + 1)]) < n
  }

  lemma {:induction false} SmallStep(h: Heap, f: nat, d: nat, n: nat)
    requires Small(h, f, d, n) && f < |h.q| && d < |h.q| && Size(h, h.q[Cyc(|h.q|, f + d + 1)]) < n
    ensures Small(h, f, d + 1, n)
  {
    hide Size, Cyc;
    assert SmallAt(h, f, d, n);
  }

  lemma {:induction false} SmallNone(h: Heap, f: nat, n: nat)
    ensures Small(h, f, 0, n)
  {
  }

  lemma {:induction false} RingApart(h: Heap, i: nat, j: nat)
    requires Inv(h) && i < |h.q| && j < |h.q| && h.q[i] == h.q[j]
    ensures i == j
  {
    NodesApart(h, i);
  }

  /** Back at the start, every node was too small. */
  lemma {:induction false} AroundOnce(h: Heap, f: nat, d: nat, n: nat)
    requires Inv(h) && f < |h.q| && d < |h.q| && h.q[Cyc(|h.q|, f + d + 1)] == h.q[f] && Small(h, f, d + 1, n)
    ensures !HasBig(h, n)
  {
    RingApart(h, Cyc(|h.q|, f + d + 1), f);
    hide Inv, Size, Small;
    assert d + 1 == |h.q|;
    forall j | 0 <= j < |h.q| ensures Size(h, h.q[j]) < n { SmallEach(h, f, n, j); }
  }

  lemma {:induction false} SmallEach(h: Heap, f: nat, n: nat, j: nat)
    requires f < |h.q| && j < |h.q| && Small(h, f, |h.q|, n)
    ensures Size(h, h.q[j]) < n
  {
    hide Size;
    var m := |h.q|;
    var e: nat := if j > f then j - f - 1 else j + m - f - 1;
    assert Cyc(m, f + e + 1) == j && SmallAt(h, f, e, n);
  }

  lemma {:induction false} NotAround(h: Heap, f: nat, d: nat)
    requires f < |h.q| && d < |h.q| && h.q[Cyc(|h.q|, f + d + 1)] != h.q[f]
    ensures d + 1 < |h.q|
  {
  }

  lemma {:induction false} LinkedFact(h: Heap, k: nat)
    requires Inv(h) && k < |h.q|
    ensures h.q[k] in h.mem && h.mem[h.q[k]].ptr == h.q[Cyc(|h.q|, k + 1)] && h.mem[h.q[k]].size == Size(h, h.q[k])
    ensures k == 0 ==> Size(h, h.q[k]) == 0
  {
    LinkedAt(h, k);
  }

  lemma {:induction false} WholeKeeps(h: Heap, k: nat)
    requires 1 <= k < |h.q| && h.q[k - 1] in h.mem && h.q[k] in h.mem
    ensures var g := Whole(h, k); h.q[k - 1] in g.q && g.q[0] == h.q[0]
  {
    RemovedAt(h.q, k);
    assert Removed(h.q, k)[k - 1] == h.q[k - 1];
  }

  lemma {:induction false} StartOk(h: Heap, base: nat)
    requires h.q == [base] && base in h.mem && h.mem[base] == Hdr(base, 0) && h.live == map[] && base < h.brk
    ensures Inv(h)
  {
  }
}
