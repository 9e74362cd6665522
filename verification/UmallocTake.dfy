/** Handing out a free block, whole or its tail, and growing the heap. */
module UmallocTake {
  import opened UmallocSpec

  /** Node k unlinked and in use. */
  function Whole(h: Heap, k: nat): Heap
    requires 1 <= k < |h.q| && h.q[k - 1] in h.mem && h.q[k] in h.mem
  {
    var p := h.q[k - 1];
    Heap(h.mem[p := h.mem[p].(ptr := h.mem[h.q[k]].ptr)], Removed(h.q, k), h.live[h.q[k] := h.mem[h.q[k]].size],
      h.brk)
  }

  lemma {:induction false} WholeLinked(h: Heap, k: nat)
    requires Linked(h) && Ordered(h) && 1 <= k < |h.q|
    ensures Linked(Whole(h, k))
  {
    NodesApart(h, k - 1);
    RemovedAt(h.q, k);
    hide Ordered, Removed;
    var g := Whole(h, k);
    forall i | 0 <= i < |g.q| ensures g.q[i] in g.mem && g.mem[g.q[i]].ptr == Next(g.q, i) {
      var j := if i < k then i else i + 1;
      assert g.q[i] == h.q[j];
      if j != k - 1 { assert g.mem[h.q[j]] == h.mem[h.q[j]]; }
    }
  }

  lemma {:induction false} WholeSizes(h: Heap, k: nat)
    requires 1 <= k < |h.q| && h.q[k - 1] in h.mem && h.q[k] in h.mem
    ensures var g := Whole(h, k);
            && (forall a :: Size(g, a) == Size(h, a)) && g.q == Removed(h.q, k) &&
               g.live == h.live[h.q[k] := Size(h, h.q[k])]
            && g.brk == h.brk && (forall a :: a in h.mem ==> a in g.mem)
  {
  }

  lemma {:induction false} WholeRest(h: Heap, g: Heap, k: nat)
    requires Loose(h) && 1 <= k < |h.q| && g.q == Removed(h.q, k) && (forall a :: Size(g, a) == Size(h, a))
    requires g.live == h.live[h.q[k] := Size(h, h.q[k])] && g.brk == h.brk && (forall a :: a in h.mem ==> a in g.mem)
    ensures Ordered(g) && Sized(g) && LiveOk(g) && FreeApart(g)
  {
    hide Size, Removed, Linked, LiveOk, FreeApart;
    RemovedAt(h.q, k);
    assert h.q[k] in h.mem by { LinkedAt(h, k); }
    WholeLive(h, g, k);
    WholeApart(h, g, k);
  }

  lemma {:induction false} WholeLive(h: Heap, g: Heap, k: nat)
    requires Sized(h) && Ordered(h) && LiveOk(h) && FreeApart(h) && 1 <= k < |h.q| && h.q[k] in h.mem
    requires g.q == Removed(h.q, k) && (forall a :: Size(g, a) == Size(h, a))
    requires g.live == h.live[h.q[k] := Size(h, h.q[k])] && g.brk == h.brk && (forall a :: a in h.mem ==> a in g.mem)
    ensures LiveOk(g)
  {
    hide Size, Removed;
    RemovedAt(h.q, k);
    assert g.q[0] == h.q[0];
    forall a, b | a in g.live && b in g.live && a < b ensures a + g.live[a] <= b {
      if a == h.q[k] { assert Clear(h, b, k); } else if b == h.q[k] { assert Clear(h, a, k); }
    }
  }

  lemma {:induction false} WholeApart(h: Heap, g: Heap, k: nat)
    requires Ordered(h) && FreeApart(h) && 1 <= k < |h.q| && g.q == Removed(h.q, k)
    requires (forall a :: Size(g, a) == Size(h, a)) && g.live == h.live[h.q[k] := Size(h, h.q[k])]
    ensures FreeApart(g)
  {
    hide Size, Removed;
    RemovedAt(h.q, k);
    forall a, i | a in g.live && 1 <= i < |g.q| ensures Clear(g, a, i) {
      var j := if i < k then i else i + 1;
      assert g.q[i] == h.q[j];
      if a != h.q[k] { assert Clear(h, a, j); }
    }
  }

  lemma {:induction false} LinkedAt(h: Heap, k: nat)
    requires Linked(h) && k < |h.q|
    ensures h.q[k] in h.mem && h.mem[h.q[k]].ptr == Next(h.q, k)
  {
  }

  lemma {:induction false} WholeLoose(h: Heap, k: nat)
    requires Loose(h) && 1 <= k < |h.q|
    ensures h.q[k - 1] in h.mem && h.q[k] in h.mem && Loose(Whole(h, k)) && h.q[k] !in h.live
  {
    LinkedAt(h, k - 1);
    LinkedAt(h, k);
    NodeNotLive(h, k);
    WholeLinked(h, k);
    WholeSizes(h, k);
    RemovedAt(h.q, k);
    hide Linked, Ordered, Sized, LiveOk, FreeApart, Whole, Removed, Size;
    WholeRest(h, Whole(h, k), k);
  }

  lemma {:induction false} WholeGap(h: Heap, k: nat, i: nat)
    requires 1 <= k < |h.q| && h.q[k - 1] in h.mem && h.q[k] in h.mem && 1 <= i < |h.q| - 1
    requires Gap(h, if i < k then i else i + 1) && Gap(h, k) && (i >= k ==> h.q[k] < h.q[i + 1])
    ensures Gap(Whole(h, k), i)
  {
    WholeSizes(h, k);
    RemovedAt(h.q, k);
  }

  /** Handing out a whole block. */
  lemma {:induction false} WholeOk(h: Heap, k: nat)
    requires Inv(h) && 1 <= k < |h.q|
    ensures h.q[k - 1] in h.mem && h.q[k] in h.mem && Inv(Whole(h, k)) && h.q[k] !in h.live
  {
    WholeLoose(h, k);
    WholeSizes(h, k);
    var g := Whole(h, k);
    forall i | 1 <= i < |g.q| ensures Gap(g, i) {
      assert i >= k ==> h.q[k] < h.q[i + 1];
      hide Linked, Sized, LiveOk, FreeApart, Whole, Removed, Ordered, Loose, Size;
      assert Gap(h, if i < k then i else i + 1) && Gap(h, k);
      WholeGap(h, k, i);
    }
  }

  /** The last n units of node k in use; the new header's link is whatever the memory held. */
  function Tail(h: Heap, k: nat, n: nat): Heap
    requires k < |h.q| && h.q[k] in h.mem && n < h.mem[h.q[k]].size
  {
    var p, left := h.q[k], h.mem[h.q[k]].size - n;
    var m1 := h.mem[p := h.mem[p].(size := left)];
    var a := p + left;
    Heap(m1[a := Hdr(if a in m1 then m1[a].ptr else 0, n)], h.q, h.live[a := n], h.brk)
  }

  /** No node and no block in use starts inside a free block. */
  lemma {:induction false} InsideFree(h: Heap, k: nat, a: nat)
    requires Loose(h) && 1 <= k < |h.q| && h.q[k] < a < h.q[k] + Size(h, h.q[k])
    ensures a !in h.live && a !in h.q
  {
    hide Linked;
    forall b | b in h.live ensures b != a { assert Clear(h, b, k); }
    forall i | 0 <= i < |h.q| ensures h.q[i] != a {
      assert i < k ==> h.q[i] < h.q[k];
      assert k < i ==> h.q[k] + Size(h, h.q[k]) <= h.q[i];
    }
  }

  lemma {:induction false} TailSizes(h: Heap, k: nat, n: nat)
    requires k < |h.q| && h.q[k] in h.mem && 0 < n < h.mem[h.q[k]].size
    ensures var g := Tail(h, k, n);
            var a := h.q[k] + Size(h, h.q[k]) - n;
            && g.q == h.q && g.live == h.live[a := n] && g.brk == h.brk && (forall b :: b in h.mem ==> b in g.mem) &&
               a in g.mem
            && Size(g, a) == n && Size(g, h.q[k]) == Size(h, h.q[k]) - n &&
               (forall b :: b != a && b != h.q[k] ==> Size(g, b) == Size(h, b))
            && (forall b :: b in h.mem && b != a ==> g.mem[b].ptr == h.mem[b].ptr)
  {
  }

  lemma {:induction false} TailRest(h: Heap, g: Heap, k: nat, n: nat, a: nat)
    requires Loose(h) && 1 <= k < |h.q| && 0 < n < Size(h, h.q[k]) && a == h.q[k] + Size(h, h.q[k]) - n &&
             a !in h.live && a !in h.q
    requires g.q == h.q && g.live == h.live[a := n] && g.brk == h.brk && (forall b :: b in h.mem ==> b in g.mem) &&
             a in g.mem
    requires Size(g, a) == n && Size(g, h.q[k]) == Size(h, h.q[k]) - n &&
             (forall b :: b != a && b != h.q[k] ==> Size(g, b) == Size(h, b))
    ensures Ordered(g) && Sized(g) && LiveOk(g) && FreeApart(g)
  {
    NodesApart(h, k);
    NodeNotLive(h, k);
    forall i | 0 <= i < |h.q| && i != k ensures Size(g, h.q[i]) == Size(h, h.q[i]) { assert h.q[i] in h.q; }
    forall b | b in h.live ensures Size(g, b) == Size(h, b) { }
    TailNodes(h, g, k, n);
    TailLive(h, g, k, n, a);
    TailApart(h, g, k, n, a);
  }

  lemma {:induction false} TailNodes(h: Heap, g: Heap, k: nat, n: nat)
    requires Ordered(h) && Sized(h) && 1 <= k < |h.q| && 0 < n < Size(h, h.q[k]) && g.q == h.q && g.brk == h.brk
    requires Size(g, h.q[k]) == Size(h, h.q[k]) - n && forall i :: 0 <= i < |h.q| && i != k ==>
             Size(g, h.q[i]) == Size(h, h.q[i])
    ensures Ordered(g) && Sized(g)
  {
    hide Size;
  }

  lemma {:induction false} TailLive(h: Heap, g: Heap, k: nat, n: nat, a: nat)
    requires Ordered(h) && LiveOk(h) && FreeApart(h) && Sized(h) && 1 <= k < |h.q| && 0 < n < Size(h, h.q[k])
    requires a == h.q[k] + Size(h, h.q[k]) - n && a !in h.live
    requires g.q == h.q && g.live == h.live[a := n] && g.brk == h.brk && (forall b :: b in h.mem ==> b in g.mem) &&
             a in g.mem
    requires Size(g, a) == n && (forall b :: b in h.live ==> Size(g, b) == Size(h, b))
    ensures LiveOk(g)
  {
    hide Size;
    assert h.q[0] < h.q[k];
    forall b, c | b in g.live && c in g.live && b < c ensures b + g.live[b] <= c {
      if b == a { assert Clear(h, c, k); } else if c == a { assert Clear(h, b, k); }
    }
  }

  lemma {:induction false} TailApart(h: Heap, g: Heap, k: nat, n: nat, a: nat)
    requires Ordered(h) && FreeApart(h) && 1 <= k < |h.q| && 0 < n < Size(h, h.q[k])
    requires a == h.q[k] + Size(h, h.q[k]) - n && a !in h.live && g.q == h.q && g.live == h.live[a := n]
    requires Size(g, h.q[k]) == Size(h, h.q[k]) - n
    requires forall i :: 0 <= i < |h.q| && i != k ==> Size(g, h.q[i]) == Size(h, h.q[i])
    ensures FreeApart(g)
  {
    hide Size;
    forall b, i | b in g.live && 1 <= i < |g.q| ensures Clear(g, b, i) {
      if b != a {
        assert Clear(h, b, i);
      } else {
        assert i < k ==> h.q[i] + Size(h, h.q[i]) <= h.q[k];
        assert k < i ==> h.q[k] + Size(h, h.q[k]) <= h.q[i];
      }
    }
  }

  lemma {:induction false} TailLoose(h: Heap, k: nat, n: nat)
    requires Loose(h) && 1 <= k < |h.q| && 0 < n < Size(h, h.q[k])
    ensures var a := h.q[k] + Size(h, h.q[k]) - n;
            h.q[k] in h.mem && Loose(Tail(h, k, n)) && a !in h.live && a !in h.q &&
              Tail(h, k, n).live == h.live[a := n]
  {
    hide Linked, Ordered, Sized, LiveOk, FreeApart, Tail;
    LinkedAt(h, k);
    var a := h.q[k] + Size(h, h.q[k]) - n;
    InsideFree(h, k, a);
    TailSizes(h, k, n);
    var g := Tail(h, k, n);
    TailRest(h, g, k, n, a);
    TailLinked(h, g, a);
  }

  lemma {:induction false} TailGap(h: Heap, k: nat, n: nat, i: nat)
    requires k < |h.q| && h.q[k] in h.mem && 0 < n < h.mem[h.q[k]].size && 1 <= i < |h.q| && Gap(h, i)
    requires h.q[i - 1] != h.q[k] + Size(h, h.q[k]) - n
    ensures Gap(Tail(h, k, n), i)
  {
    TailSizes(h, k, n);
  }

  /** Handing out the tail of a block. */
  lemma {:induction false} TailOk(h: Heap, k: nat, n: nat)
    requires Inv(h) && 1 <= k < |h.q| && 0 < n < Size(h, h.q[k])
    ensures var a := h.q[k] + Size(h, h.q[k]) - n;
            h.q[k] in h.mem && Inv(Tail(h, k, n)) && a !in h.live && Tail(h, k, n).live == h.live[a := n]
  {
    TailLoose(h, k, n);
    TailSizes(h, k, n);
    var g, a := Tail(h, k, n), h.q[k] + Size(h, h.q[k]) - n;
    hide Loose, Tail;
    forall i | 1 <= i < |g.q| ensures Gap(g, i) {
      assert Gap(h, i) && h.q[i - 1] in h.q;
      TailGap(h, k, n, i);
    }
  }

  lemma {:induction false} TailLinked(h: Heap, g: Heap, a: nat)
    requires Linked(h) && g.q == h.q && a !in h.q && (forall b :: b in h.mem ==> b in g.mem)
    requires forall b :: b in h.mem && b != a ==> g.mem[b].ptr == h.mem[b].ptr
    ensures Linked(g)
  {
    forall k | 0 <= k < |g.q| ensures g.q[k] in g.mem && g.mem[g.q[k]].ptr == Next(g.q, k) { assert h.q[k] in h.q; }
  }

  // ---------------------------------------------------------------- growing the heap

  /** nu new units at the break cur, counted as a block in use. */
  function Grown(h: Heap, cur: nat, nu: nat): Heap {
    Heap(h.mem[cur := Hdr(if cur in h.mem then h.mem[cur].ptr else 0, nu)], h.q, h.live[cur := nu], cur + nu)
  }

  lemma {:induction false} AboveAll(h: Heap, cur: nat)
    requires Loose(h) && h.brk <= cur
    ensures cur !in h.live && cur !in h.q
  {
    hide Linked;
    forall i | 0 <= i < |h.q| ensures h.q[i] != cur { assert i > 0 ==> h.q[i] + Size(h, h.q[i]) <= h.brk; }
  }

  lemma {:induction false} GrownLoose(h: Heap, cur: nat, nu: nat)
    requires Loose(h) && h.brk <= cur && nu > 0
    ensures Loose(Grown(h, cur, nu)) && cur !in h.live && cur !in h.q
  {
    AboveAll(h, cur);
    GrownSizes(h, cur, nu);
    var g := Grown(h, cur, nu);
    forall i | 0 <= i < |h.q| ensures Size(g, h.q[i]) == Size(h, h.q[i]) { assert h.q[i] in h.q; }
    TailLinked(h, g, cur);
    hide Linked, Ordered, Sized, LiveOk, FreeApart, Size;
    GrownNodes(h, g, cur);
    GrownLive(h, g, cur, nu);
  }

  /** The block at the break is new. */
  lemma {:induction false} GrownOk(h: Heap, cur: nat, nu: nat)
    requires Inv(h) && h.brk <= cur && nu > 0
    ensures Inv(Grown(h, cur, nu)) && cur !in h.live && cur !in h.q
  {
    GrownLoose(h, cur, nu);
    GrownSizes(h, cur, nu);
    hide Loose;
    var g := Grown(h, cur, nu);
    forall i | 1 <= i < |g.q| ensures Gap(g, i) { assert Gap(h, i) && h.q[i - 1] in h.q; }
  }

  lemma {:induction false} GrownSizes(h: Heap, cur: nat, nu: nat)
    ensures var g := Grown(h, cur, nu);
            Size(g, cur) == nu && cur in g.mem && (forall a :: a != cur ==> Size(g, a) == Size(h, a)) &&
              forall a :: a in h.mem ==> a in g.mem
  {
  }

  lemma {:induction false} GrownNodes(h: Heap, g: Heap, cur: nat)
    requires Ordered(h) && Sized(h) && h.brk <= cur && g.q == h.q && g.brk >= cur && h.q[0] < h.brk
    requires forall i :: 0 <= i < |h.q| ==> Size(g, h.q[i]) == Size(h, h.q[i])
    ensures Ordered(g) && Sized(g) && g.q[0] < g.brk
  {
    hide Size;
  }

  lemma {:induction false} GrownLive(h: Heap, g: Heap, cur: nat, nu: nat)
    requires LiveOk(h) && FreeApart(h) && Sized(h) && h.q[0] < h.brk <= cur && nu > 0 && cur !in h.live
    requires g.q == h.q && g.live == h.live[cur := nu] && g.brk == cur + nu
    requires forall i :: 0 <= i < |h.q| ==> Size(g, h.q[i]) == Size(h, h.q[i])
    requires Size(g, cur) == nu && (forall a :: a != cur ==> Size(g, a) == Size(h, a)) && cur in g.mem &&
             forall a :: a in h.mem ==> a in g.mem
    ensures LiveOk(g) && FreeApart(g)
  {
    hide Size;
    forall a | a in g.live ensures a in g.mem && Size(g, a) == g.live[a] > 0 && g.q[0] < a &&
      a + g.live[a] <= g.brk { }
    forall a, i | a in g.live && 1 <= i < |g.q| ensures Clear(g, a, i) {
      if a != cur { assert Clear(h, a, i); }
    }
  }
}
