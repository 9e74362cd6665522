/** The heap of the user-space allocator: a ring of free blocks in address order, closed by a static
    header, and the blocks handed out.  Addresses and sizes count header-sized units. */
module UmallocSpec {

  datatype Hdr = Hdr(ptr: nat, size: nat)

  /** Header memory, the ring's nodes in address order with the static header first, the blocks in
      use with their sizes, and the program break. */
  datatype Heap = Heap(mem: map<nat, Hdr>, q: seq<nat>, live: map<nat, nat>, brk: nat)

  function Size(h: Heap, a: nat): nat { if a in h.mem then h.mem[a].size else 0 }

  function Next(q: seq<nat>, k: nat): nat
    requires k < |q|
  {
    if k + 1 < |q| then q[k + 1] else q[0]
  }

  ghost predicate Linked(h: Heap) {
    forall k :: 0 <= k < |h.q| ==> h.q[k] in h.mem && h.mem[h.q[k]].ptr == Next(h.q, k)
  }

  /** Addresses ascend and blocks do not overlap. */
  ghost predicate Ordered(h: Heap) {
    forall i, j :: 0 <= i < j < |h.q| ==> h.q[i] < h.q[j] && h.q[i] + Size(h, h.q[i]) <= h.q[j]
  }

  ghost predicate Sized(h: Heap) {
    && h.q != [] && Size(h, h.q[0]) == 0
    && (forall k :: 1 <= k < |h.q| ==> Size(h, h.q[k]) > 0 && h.q[k] + Size(h, h.q[k]) <= h.brk)
  }

  /** Blocks in use lie in the heap, apart from each other, and keep their size in the header. */
  ghost predicate LiveOk(h: Heap) {
    && h.q != []
    && (forall a :: a in h.live ==> a in h.mem && Size(h, a) == h.live[a] > 0 && h.q[0] < a && a + h.live[a] <= h.brk)
    && (forall a, b :: a in h.live && b in h.live && a < b ==> a + h.live[a] <= b)
  }

  /** Free block k does not overlap the block a in use. */
  ghost predicate Clear(h: Heap, a: nat, k: nat)
    requires a in h.live && k < |h.q|
  {
    h.q[k] + Size(h, h.q[k]) <= a || a + h.live[a] <= h.q[k]
  }

  ghost predicate FreeApart(h: Heap) {
    forall a, k :: a in h.live && 1 <= k < |h.q| ==> Clear(h, a, k)
  }

  /** Node k does not touch the one before it. */
  ghost predicate Gap(h: Heap, k: nat)
    requires 1 <= k < |h.q|
  {
    h.q[k - 1] + Size(h, h.q[k - 1]) < h.q[k]
  }

  /** The heap, with neighbouring free blocks allowed to touch. */
  ghost predicate Loose(h: Heap) {
    h.q != [] && Linked(h) && Ordered(h) && Sized(h) && LiveOk(h) && FreeApart(h) && h.q[0] < h.brk
  }

  /** Free blocks are pairwise disjoint and not even adjacent. */
  ghost predicate Inv(h: Heap) {
    Loose(h) && forall k :: 1 <= k < |h.q| ==> Gap(h, k)
  }

  // ---------------------------------------------------------------- putting a block into the ring

  function Inserted(q: seq<nat>, k: nat, b: nat): (r: seq<nat>)
    requires k < |q|
    ensures |r| == |q| + 1
  {
    q[..k + 1] + [b] + q[k + 1..]
  }

  function Removed(q: seq<nat>, k: nat): (r: seq<nat>)
    requires k < |q|
    ensures |r| == |q| - 1
  {
    q[..k] + q[k + 1..]
  }

  /** Node k is the last one below address b. */
  ghost predicate Before(q: seq<nat>, k: nat, b: nat) {
    k < |q| && q[k] < b && (k + 1 < |q| ==> b < q[k + 1])
  }

  /** Block b, in use, linked in behind node k. */
  function Link(h: Heap, k: nat, b: nat): Heap
    requires k < |h.q| && b in h.mem && h.q[k] in h.mem
  {
    var m1 := h.mem[b := h.mem[b].(ptr := Next(h.q, k))];
    var m2 := m1[h.q[k] := m1[h.q[k]].(ptr := b)];
    Heap(m2, Inserted(h.q, k, b), h.live - {b}, h.brk)
  }

  /** Node k swallowing the node behind it. */
  function Swallow(h: Heap, k: nat): Heap
    requires k + 1 < |h.q| && h.q[k] in h.mem && h.q[k + 1] in h.mem
  {
    var a, b := h.q[k], h.q[k + 1];
    Heap(h.mem[a := Hdr(h.mem[b].ptr, h.mem[a].size + h.mem[b].size)], Removed(h.q, k + 1), h.live, h.brk)
  }

  /** Where the nodes of the longer ring were. */
  function Old(k: nat, i: nat): nat { if i <= k then i else if i == k + 1 then k else i - 1 }

  lemma {:induction false} InsertedAt(q: seq<nat>, k: nat, b: nat)
    requires k < |q|
    ensures var r := Inserted(q, k, b);
            && r[k + 1] == b && r[0] == q[0] && r[k] == q[k]
            && (forall i :: 0 <= i < |r| && i != k + 1 ==> r[i] == q[Old(k, i)])
  {
  }

  lemma {:induction false} LinkApart(h: Heap, k: nat, b: nat)
    requires Loose(h) && b in h.live && Before(h.q, k, b)
    ensures b !in h.q
    ensures forall i :: 0 <= i <= k ==> h.q[i] + Size(h, h.q[i]) <= b
    ensures forall i :: k < i < |h.q| ==> b + h.live[b] <= h.q[i]
  {
    forall i | 0 <= i <= k ensures h.q[i] < b && h.q[i] + Size(h, h.q[i]) <= b {
      assert i < k ==> h.q[i] < h.q[k];
      assert i > 0 ==> Clear(h, b, i);
    }
    forall i | k < i < |h.q| ensures b < h.q[i] && b + h.live[b] <= h.q[i] {
      assert k + 1 < i ==> h.q[k + 1] < h.q[i];
      assert Clear(h, b, i);
    }
  }

  lemma {:induction false} LinkLinked(h: Heap, k: nat, b: nat)
    requires Loose(h) && b in h.live && Before(h.q, k, b)
    ensures b in h.mem && Linked(Link(h, k, b))
  {
    LiveSize(h, b);
    LinkApart(h, k, b);
    NodesApart(h, k);
    hide LiveOk, FreeApart, Sized, Ordered, Inserted;
    var g := Link(h, k, b);
    forall i | 0 <= i < |g.q| ensures g.q[i] in g.mem && g.mem[g.q[i]].ptr == Next(g.q, i) { LinkAt(h, k, b, i); }
  }

  lemma {:induction false} LinkAt(h: Heap, k: nat, b: nat, i: nat)
    requires Linked(h) && k < |h.q| && b in h.mem && b !in h.q && i <= |h.q|
    requires forall j :: 0 <= j < |h.q| && j != k ==> h.q[j] != h.q[k]
    ensures var g := Link(h, k, b); g.q[i] in g.mem && g.mem[g.q[i]].ptr == Next(g.q, i)
  {
    var g := Link(h, k, b);
    if i != k && i != k + 1 {
      var j := Old(k, i);
      assert g.q[i] == h.q[j] && j != k && h.q[j] != b;
      assert g.mem[h.q[j]] == h.mem[h.q[j]];
    }
  }

  lemma {:induction false} NodesApart(h: Heap, k: nat)
    requires Ordered(h) && k < |h.q|
    ensures forall i :: 0 <= i < |h.q| && i != k ==> h.q[i] != h.q[k]
  {
  }

  lemma {:induction false} LinkSizes(h: Heap, k: nat, b: nat)
    requires k < |h.q| && b in h.mem && h.q[k] in h.mem
    ensures forall a :: Size(Link(h, k, b), a) == Size(h, a)
  {
  }

  lemma {:induction false} LinkLoose(h: Heap, k: nat, b: nat)
    requires Loose(h) && b in h.live && Before(h.q, k, b)
    ensures b in h.mem && Loose(Link(h, k, b))
  {
    LiveSize(h, b);
    LinkApart(h, k, b);
    LinkBounds(h, k, b);
    LinkLinked(h, k, b);
    LinkSizes(h, k, b);
    LinkIs(h, k, b);
    InsertedAt(h.q, k, b);
    hide Link, Size, Inserted, Linked, Ordered, LiveOk, FreeApart, Sized;
    var g := Link(h, k, b);
    LinkOrdered(h, g, k, b);
    LinkRest(h, g, k, b);
  }

  /** Only around the new node can there be no gap. */
  lemma {:induction false} LinkGap(h: Heap, k: nat, b: nat, i: nat)
    requires k < |h.q| && b in h.mem && h.q[k] in h.mem && 1 <= i <= |h.q| && i != k + 1 && i != k + 2 &&
             Gap(h, if i <= k then i else i - 1)
    ensures Gap(Link(h, k, b), i)
  {
    InsertedAt(h.q, k, b);
    LinkSizes(h, k, b);
  }

  lemma {:induction false} LinkBounds(h: Heap, k: nat, b: nat)
    requires Ordered(h) && Before(h.q, k, b)
    ensures (forall i :: 0 <= i <= k ==> h.q[i] < b) && (forall i :: k < i < |h.q| ==> b < h.q[i])
  {
    forall i | 0 <= i <= k ensures h.q[i] < b { assert i < k ==> h.q[i] < h.q[k]; }
    forall i | k < i < |h.q| ensures b < h.q[i] { assert k + 1 < i ==> h.q[k + 1] < h.q[i]; }
  }

  lemma {:induction false} LiveSize(h: Heap, b: nat)
    requires LiveOk(h) && b in h.live && h.q != []
    ensures Size(h, b) == h.live[b] > 0 && b in h.mem
  {
  }

  lemma {:induction false} LinkIs(h: Heap, k: nat, b: nat)
    requires k < |h.q| && b in h.mem && h.q[k] in h.mem
    ensures var g := Link(h, k, b);
            g.q == Inserted(h.q, k, b) && g.live == h.live - {b} && g.brk == h.brk && forall a :: a in h.mem ==>
              a in g.mem
  {
  }

  lemma {:induction false} LinkOrdered(h: Heap, g: Heap, k: nat, b: nat)
    requires k < |h.q| && g.q == Inserted(h.q, k, b) && Ordered(h) && (forall a :: Size(g, a) == Size(h, a))
    requires forall i :: 0 <= i <= k ==> h.q[i] < b && h.q[i] + Size(h, h.q[i]) <= b
    requires forall i :: k < i < |h.q| ==> b < h.q[i] && b + Size(h, b) <= h.q[i]
    ensures Ordered(g)
  {
    hide Size, Inserted;
    InsertedAt(h.q, k, b);
    forall i, j | 0 <= i < j < |g.q| ensures g.q[i] < g.q[j] && g.q[i] + Size(g, g.q[i]) <= g.q[j] {
      assert i != k + 1 ==> g.q[i] == h.q[Old(k, i)];
      assert j != k + 1 ==> g.q[j] == h.q[Old(k, j)];
    }
  }

  lemma {:induction false} LinkRest(h: Heap, g: Heap, k: nat, b: nat)
    requires k < |h.q| && g.q == Inserted(h.q, k, b) && (forall a :: Size(g, a) == Size(h, a)) &&
             g.live == h.live - {b} && g.brk == h.brk
    requires Sized(h) && LiveOk(h) && FreeApart(h) && b in h.live && (forall a :: a in h.mem ==> a in g.mem)
    ensures Sized(g) && LiveOk(g) && FreeApart(g)
  {
    hide Inserted;
    InsertedAt(h.q, k, b);
    forall i | 1 <= i < |g.q| && i != k + 1 ensures g.q[i] == h.q[Old(k, i)] && Old(k, i) >= 1 { }
    forall a | a in g.live ensures a in g.mem && Size(g, a) == g.live[a] > 0 && g.q[0] < a && a + g.live[a] <= g.brk {
      assert Size(g, a) == Size(h, a);
    }
    forall a, i | a in g.live && 1 <= i < |g.q| ensures Clear(g, a, i) {
      if i != k + 1 { assert Clear(h, a, Old(k, i)); }
    }
  }

  // ---------------------------------------------------------------- merging neighbours

  lemma {:induction false} RemovedAt(q: seq<nat>, k: nat)
    requires k < |q|
    ensures forall i :: 0 <= i < |q| - 1 ==> Removed(q, k)[i] == q[if i < k then i else i + 1]
  {
  }

  /** Node k touches the one behind it. */
  ghost predicate Touches(h: Heap, k: nat) {
    k + 1 < |h.q| && h.q[k] + Size(h, h.q[k]) == h.q[k + 1]
  }

  lemma {:induction false} SwallowSizes(h: Heap, k: nat)
    requires k + 1 < |h.q| && h.q[k] in h.mem && h.q[k + 1] in h.mem
    ensures var g := Swallow(h, k);
            && Size(g, h.q[k]) == Size(h, h.q[k]) + Size(h, h.q[k + 1]) &&
               (forall a :: a != h.q[k] ==> Size(g, a) == Size(h, a))
            && g.q == Removed(h.q, k + 1) && g.live == h.live && g.brk == h.brk &&
               (forall a :: a in h.mem ==> a in g.mem)
  {
  }

  lemma {:induction false} SwallowLinked(h: Heap, k: nat)
    requires Linked(h) && Ordered(h) && k + 1 < |h.q|
    ensures Linked(Swallow(h, k))
  {
    hide Ordered, Removed;
    var g := Swallow(h, k);
    forall i | 0 <= i < |g.q| ensures g.q[i] in g.mem && g.mem[g.q[i]].ptr == Next(g.q, i) { SwallowLink(h, k, i); }
  }

  lemma {:induction false} SwallowLink(h: Heap, k: nat, i: nat)
    requires Linked(h) && Ordered(h) && k + 1 < |h.q| && i < |h.q| - 1
    ensures |Swallow(h, k).q| == |h.q| - 1
    ensures var g := Swallow(h, k); g.q[i] in g.mem && g.mem[g.q[i]].ptr == Next(g.q, i)
  {
    hide Ordered, Removed, Linked;
    NodesApart(h, k);
    var j: nat := if i < k + 1 then i else i + 1;
    NodeOf(h, j);
    NodeOf(h, k);
    NodeOf(h, k + 1);
    RemovedOne(h.q, k + 1, i);
    if i + 1 < |h.q| - 1 { RemovedOne(h.q, k + 1, i + 1); }
    RemovedOne(h.q, k + 1, 0);
  }

  lemma {:induction false} NodeOf(h: Heap, j: nat)
    requires Linked(h) && j < |h.q|
    ensures h.q[j] in h.mem && h.mem[h.q[j]].ptr == Next(h.q, j)
  {
  }

  lemma {:induction false} RemovedOne(q: seq<nat>, k: nat, i: nat)
    requires k < |q| && i < |q| - 1
    ensures |Removed(q, k)| == |q| - 1 && Removed(q, k)[i] == q[if i < k then i else i + 1]
  {
  }

  lemma {:induction false} SwallowOrdered(h: Heap, g: Heap, k: nat)
    requires Ordered(h) && Touches(h, k) && g.q == Removed(h.q, k + 1)
    requires Size(g, h.q[k]) == Size(h, h.q[k]) + Size(h, h.q[k + 1]) &&
             (forall a :: a != h.q[k] ==> Size(g, a) == Size(h, a))
    ensures Ordered(g)
  {
    hide Size, Removed;
    RemovedAt(h.q, k + 1);
    forall i, j | 0 <= i < j < |g.q| ensures g.q[i] < g.q[j] && g.q[i] + Size(g, g.q[i]) <= g.q[j] {
      var x, y := if i < k + 1 then i else i + 1, if j < k + 1 then j else j + 1;
      assert g.q[i] == h.q[x] && g.q[j] == h.q[y];
      assert h.q[x] < h.q[y] && h.q[x] + Size(h, h.q[x]) <= h.q[y];
      if x == k { assert h.q[k + 1] + Size(h, h.q[k + 1]) <= h.q[y]; } else { NodesApart(h, k); }
    }
  }

  lemma {:induction false} SwallowRest(h: Heap, g: Heap, k: nat)
    requires Sized(h) && LiveOk(h) && FreeApart(h) && Ordered(h) && Touches(h, k) && 1 <= k &&
             g.q == Removed(h.q, k + 1)
    requires Size(g, h.q[k]) == Size(h, h.q[k]) + Size(h, h.q[k + 1]) &&
             (forall a :: a != h.q[k] ==> Size(g, a) == Size(h, a))
    requires g.live == h.live && g.brk == h.brk && h.q[k] !in h.live && (forall a :: a in h.mem ==> a in g.mem)
    ensures Sized(g) && LiveOk(g) && FreeApart(g)
  {
    hide Size, Removed;
    RemovedAt(h.q, k + 1);
    NodesApart(h, k);
    forall i | 1 <= i < |g.q| ensures Size(g, g.q[i]) > 0 && g.q[i] + Size(g, g.q[i]) <= g.brk {
      assert g.q[i] == h.q[if i < k + 1 then i else i + 1];
    }
    forall a, i | a in g.live && 1 <= i < |g.q| ensures Clear(g, a, i) {
      var x := if i < k + 1 then i else i + 1;
      assert g.q[i] == h.q[x] && Clear(h, a, x) && Clear(h, a, k + 1);
    }
    assert g.q[0] == h.q[0];
  }

  lemma {:induction false} NodeNotLive(h: Heap, k: nat)
    requires Loose(h) && 1 <= k < |h.q|
    ensures h.q[k] !in h.live
  {
    hide Linked, Ordered;
    forall a | a in h.live ensures a != h.q[k] { assert Clear(h, a, k); }
  }

  lemma {:induction false} SwallowLoose(h: Heap, k: nat)
    requires Loose(h) && Touches(h, k) && 1 <= k
    ensures h.q[k] in h.mem && h.q[k + 1] in h.mem && Loose(Swallow(h, k))
  {
    NodeNotLive(h, k);
    SwallowSizes(h, k);
    SwallowLinked(h, k);
    RemovedAt(h.q, k + 1);
    hide Linked, Ordered, LiveOk, FreeApart, Sized, Size, Swallow, Removed;
    var g := Swallow(h, k);
    SwallowOrdered(h, g, k);
    SwallowRest(h, g, k);
  }

  lemma {:induction false} SwallowGap(h: Heap, k: nat, i: nat)
    requires Ordered(h) && Touches(h, k) && h.q[k] in h.mem && h.q[k + 1] in h.mem && 1 <= i < |h.q| - 1
    requires Gap(h, if i <= k then i else i + 1)
    ensures Gap(Swallow(h, k), i)
  {
    SwallowSizes(h, k);
    RemovedAt(h.q, k + 1);
    NodesApart(h, k);
  }

  // ---------------------------------------------------------------- freeing a block

  /** What _free does to the block b behind node k. */
  function Freed(h: Heap, k: nat, b: nat): Heap
    requires k < |h.q| && b in h.mem && h.q[k] in h.mem
  {
    var h1 := Link(h, k, b);
    var h2 := if TouchesAt(h1, k + 1) then Swallow(h1, k + 1) else h1;
    if TouchesAt(h2, k) then Swallow(h2, k) else h2
  }

  predicate TouchesAt(h: Heap, k: nat) {
    k + 1 < |h.q| && h.q[k] in h.mem && h.q[k + 1] in h.mem && h.q[k] + h.mem[h.q[k]].size == h.q[k + 1]
  }

  ghost predicate GapsBut(h: Heap, lo: nat, hi: nat) {
    forall i :: 1 <= i < |h.q| && !(lo <= i < hi) ==> Gap(h, i)
  }

  lemma {:induction false} GapOrTouch(h: Heap, k: nat)
    requires Loose(h) && k + 1 < |h.q|
    ensures TouchesAt(h, k) <==> Touches(h, k)
    ensures Touches(h, k) || Gap(h, k + 1)
  {
  }

  lemma {:induction false} LinkGaps(h: Heap, k: nat, b: nat)
    requires Inv(h) && b in h.live && Before(h.q, k, b)
    ensures b in h.mem && Loose(Link(h, k, b)) && GapsBut(Link(h, k, b), k + 1, k + 3)
  {
    LinkLoose(h, k, b);
    LinkIs(h, k, b);
    hide Link, Loose, Gap;
    var g := Link(h, k, b);
    forall i | 1 <= i < |g.q| && !(k + 1 <= i < k + 3) ensures Gap(g, i) {
      LinkGapFrom(h, k, b, i);
    }
  }

  lemma {:induction false} LinkGapFrom(h: Heap, k: nat, b: nat, i: nat)
    requires Inv(h) && b in h.live && Before(h.q, k, b) && 1 <= i <= |h.q| && i != k + 1 && i != k + 2 &&
             b in h.mem && h.q[k] in h.mem
    ensures Gap(Link(h, k, b), i)
  {
    assert Gap(h, if i <= k then i else i - 1);
    LinkGap(h, k, b, i);
  }

  /** One merge, if node k touches its neighbour, leaves one gap fewer in doubt. */
  function Joined(h: Heap, k: nat): Heap { if TouchesAt(h, k) then Swallow(h, k) else h }

  lemma {:induction false} JoinGaps(h: Heap, k: nat, lo: nat)
    requires Loose(h) && 1 <= k && lo <= k + 1 && GapsBut(h, lo, k + 2)
    ensures Loose(Joined(h, k)) && GapsBut(Joined(h, k), lo, k + 1)
    ensures Joined(h, k).live == h.live && Joined(h, k).brk == h.brk
  {
    hide Loose, Gap, Swallow;
    if k + 1 < |h.q| { GapOrTouch(h, k); }
    if TouchesAt(h, k) {
      TouchFacts(h, k);
      SwallowLoose(h, k);
      SwallowSizes(h, k);
      var g := Swallow(h, k);
      forall i | 1 <= i < |g.q| && !(lo <= i < k + 1) ensures Gap(g, i) {
        OrderedOf(h);
        SwallowGap(h, k, i);
      }
    }
  }

  lemma {:induction false} OrderedOf(h: Heap)
    requires Loose(h)
    ensures Ordered(h)
  {
  }

  lemma {:induction false} FreedIs(h: Heap, k: nat, b: nat)
    requires k < |h.q| && b in h.mem && h.q[k] in h.mem
    ensures Freed(h, k, b) == Joined(Joined(Link(h, k, b), k + 1), k)
  {
  }

  /** The static header never takes part in a merge. */
  lemma {:induction false} BaseStays(h: Heap)
    requires Loose(h)
    ensures Joined(h, 0) == h && (GapsBut(h, 1, 2) ==> GapsBut(h, 1, 1))
  {
    if 1 < |h.q| { GapOrTouch(h, 0); }
  }

  /** Freeing keeps the ring sorted, disjoint and fully coalesced, and returns exactly that block. */
  lemma {:induction false} FreedOk(h: Heap, k: nat, b: nat)
    requires Inv(h) && b in h.live && Before(h.q, k, b)
    ensures b in h.mem && h.q[k] in h.mem && Inv(Freed(h, k, b)) && Freed(h, k, b).live == h.live - {b} &&
            Freed(h, k, b).brk == h.brk
  {
    hide Loose, Link, Gap, Joined, GapsBut, Inv, Freed;
    NodeInMem(h, k, b);
    LinkGaps(h, k, b);
    LinkIs(h, k, b);
    FreedIs(h, k, b);
    var h1 := Link(h, k, b);
    JoinGaps(h1, k + 1, k + 1);
    var h2 := Joined(h1, k + 1);
    if k == 0 { BaseStays(h2); } else { JoinGaps(h2, k, k + 1); }
    InvIs(Freed(h, k, b), k + 1);
  }

  lemma {:induction false} NodeInMem(h: Heap, k: nat, b: nat)
    requires Inv(h) && b in h.live && k < |h.q|
    ensures b in h.mem && h.q[k] in h.mem
  {
  }

  lemma {:induction false} InvIs(h: Heap, k: nat)
    requires Loose(h) && GapsBut(h, k, k)
    ensures Inv(h)
  {
  }

  /** Some free block covers the s units at b. */
  ghost predicate Covers(h: Heap, j: nat, b: nat, s: nat) {
    1 <= j < |h.q| && h.q[j] <= b && b + s <= h.q[j] + Size(h, h.q[j])
  }

  ghost predicate FreeAt(h: Heap, b: nat, s: nat) { exists j: nat :: Covers(h, j, b, s) }

  lemma {:induction false} JoinCovers(h: Heap, k: nat, b: nat, s: nat)
    requires Loose(h) && 1 <= k && FreeAt(h, b, s)
    ensures FreeAt(Joined(h, k), b, s)
  {
    var j: nat :| Covers(h, j, b, s);
    if TouchesAt(h, k) { SwallowCovers(h, k, j, b, s); }
  }

  lemma {:induction false} SwallowCovers(h: Heap, k: nat, j: nat, b: nat, s: nat)
    requires Loose(h) && 1 <= k && TouchesAt(h, k) && Covers(h, j, b, s)
    ensures FreeAt(Swallow(h, k), b, s)
  {
    hide Loose, Swallow, Removed, Size, TouchesAt;
    TouchFacts(h, k);
    var g := Swallow(h, k);
    var i: nat := if j <= k then j else j - 1;
    SwallowAt(h, k, j);
    assert Covers(g, i, b, s);
  }

  lemma {:induction false} TouchFacts(h: Heap, k: nat)
    requires Loose(h) && TouchesAt(h, k)
    ensures k + 1 < |h.q| && h.q[k] in h.mem && h.q[k + 1] in h.mem
    ensures h.q[k] < h.q[k + 1] && h.q[k] + Size(h, h.q[k]) == h.q[k + 1]
    ensures forall i :: 0 <= i < |h.q| && i != k ==> h.q[i] != h.q[k]
  {
    hide Sized, LiveOk, FreeApart;
    NodesApart(h, k);
  }

  /** Node j afterwards: unless it was swallowed it keeps its address, and all but node k their size. */
  lemma {:induction false} SwallowAt(h: Heap, k: nat, j: nat)
    requires k + 1 < |h.q| && h.q[k] in h.mem && h.q[k + 1] in h.mem && j < |h.q|
    requires forall i :: 0 <= i < |h.q| && i != k ==> h.q[i] != h.q[k]
    ensures var g, i := Swallow(h, k), if j <= k then j else j - 1;
            && i < |g.q| && g.q[i] == (if j == k + 1 then h.q[k] else h.q[j])
            && Size(g, g.q[i]) == if i == k then Size(h, h.q[k]) + Size(h, h.q[k + 1]) else Size(h, h.q[j])
  {
    SwallowSizes(h, k);
    RemovedAt(h.q, k + 1);
  }

  /** A freed block is free. */
  lemma {:induction false} FreedCovers(h: Heap, k: nat, b: nat)
    requires Inv(h) && b in h.live && Before(h.q, k, b)
    ensures b in h.mem && h.q[k] in h.mem && FreeAt(Freed(h, k, b), b, h.live[b])
  {
    hide Loose, Link, Gap, Joined, GapsBut, Inv, Freed, FreeAt;
    NodeInMem(h, k, b);
    LinkCovers(h, k, b);
    LinkGaps(h, k, b);
    FreedIs(h, k, b);
    var h1 := Link(h, k, b);
    JoinCovers(h1, k + 1, b, h.live[b]);
    JoinGaps(h1, k + 1, k + 1);
    var h2 := Joined(h1, k + 1);
    if k == 0 { BaseStays(h2); } else { JoinCovers(h2, k, b, h.live[b]); }
  }

  lemma {:induction false} LinkCovers(h: Heap, k: nat, b: nat)
    requires Inv(h) && b in h.live && k < |h.q| && b in h.mem && h.q[k] in h.mem
    ensures FreeAt(Link(h, k, b), b, h.live[b])
  {
    LiveSize(h, b);
    InsertedAt(h.q, k, b);
    LinkSizes(h, k, b);
    assert Covers(Link(h, k, b), k + 1, b, h.live[b]);
  }
}
