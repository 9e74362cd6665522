/** The free lists of the buddy allocator: rings of headers kept in the free pages themselves, one per
    order, each closed by a sentinel. */
module BuddyLists {
  import opened Lists

  /** A header at the start of a page, or a sentinel. */
  datatype Hdr = Hdr(magic: bool, order: int, prev: int, next: int)

  /** What can be read as a header, by page number; sentinels are numbered -1, -2, ... */
  type Mem = map<int, Hdr>

  function Sentinel(i: nat): int { -1 - i }

  /** The k-th node of ring i around the blocks q, the sentinel at both ends. */
  function Node(i: nat, q: seq<nat>, k: int): int {
    if 1 <= k <= |q| then q[k - 1] else Sentinel(i)
  }

  ghost predicate Present(m: Mem, i: nat, q: seq<nat>) {
    Sentinel(i) in m && forall k :: 0 <= k < |q| ==> q[k] in m
  }

  /** Nodes k and k + 1 of the ring point at each other. */
  ghost predicate Joined(m: Mem, i: nat, q: seq<nat>, k: int) {
    && Node(i, q, k) in m && Node(i, q, k + 1) in m
    && m[Node(i, q, k)].next == Node(i, q, k + 1) && m[Node(i, q, k + 1)].prev == Node(i, q, k)
  }

  /** Ring i runs through the blocks q in both directions. */
  ghost predicate Linked(m: Mem, i: nat, q: seq<nat>) {
    Present(m, i, q) && forall k :: 0 <= k <= |q| ==> Joined(m, i, q, k)
  }

  /** Overwrites the header of a, which may hold anything a client left there. */
  function Place(m: Mem, a: nat, magic: bool, order: nat, prev: int, next: int): Mem {
    m[a := Hdr(magic, order, prev, next)]
  }

  /** The order, links and neighbours written by add_last. */
  function AddLast(m: Mem, i: nat, a: nat): Mem
    requires Sentinel(i) in m && m[Sentinel(i)].prev in m
  {
    var s, last := Sentinel(i), m[Sentinel(i)].prev;
    var m1 := Place(m, a, true, i, last, s);
    var m2 := m1[s := m1[s].(prev := a)];
    m2[last := m2[last].(next := a)]
  }

  /** add_first leaves the magic number alone. */
  function AddFirst(m: Mem, i: nat, a: nat): Mem
    requires Sentinel(i) in m && m[Sentinel(i)].next in m
  {
    var s, first := Sentinel(i), m[Sentinel(i)].next;
    var m1 := Place(m, a, a in m && m[a].magic, i, s, first);
    var m2 := m1[s := m1[s].(next := a)];
    m2[first := m2[first].(prev := a)]
  }

  function Unlink(m: Mem, b: nat): Mem
    requires b in m && m[b].prev in m && m[b].next in m
  {
    var p, n := m[b].prev, m[b].next;
    var m1 := m[p := m[p].(next := n)];
    var m2 := m1[n := m1[n].(prev := p)];
    m2[b := m2[b].(order := -1, magic := false)]
  }

  // ---------------------------------------------------------------- rings stay rings

  lemma {:induction false} LinkedFrame(m: Mem, n: Mem, i: nat, q: seq<nat>)
    requires Linked(m, i, q) && Sentinel(i) in n && n[Sentinel(i)] == m[Sentinel(i)]
    requires forall k :: 0 <= k < |q| ==> q[k] in n && n[q[k]] == m[q[k]]
    ensures Linked(n, i, q)
  {
    forall k | 0 <= k <= |q| ensures Joined(n, i, q, k) {
      assert Joined(m, i, q, k);
    }
  }

  lemma {:induction false} NodesDiffer(i: nat, q: seq<nat>, j: nat, k: nat)
    requires NoDup(q) && j < k <= |q|
    ensures Node(i, q, j) != Node(i, q, k)
  {
  }

  lemma {:induction false} Ends(m: Mem, i: nat, q: seq<nat>)
    requires Linked(m, i, q)
    ensures Sentinel(i) in m && m[Sentinel(i)].next == Node(i, q, 1) && m[Sentinel(i)].prev == Node(i, q, |q|)
    ensures Node(i, q, 1) in m && Node(i, q, |q|) in m
  {
    assert Joined(m, i, q, 0) && Joined(m, i, q, |q|);
  }

  lemma {:induction false} AddLastOk(m: Mem, i: nat, q: seq<nat>, a: nat)
    requires Linked(m, i, q) && NoDup(q) && a !in q
    ensures Sentinel(i) in m && m[Sentinel(i)].prev in m && Linked(AddLast(m, i, a), i, q + [a])
  {
    hide Linked;
    Ends(m, i, q);
    assert Present(AddLast(m, i, a), i, q + [a]) by { LinkedParts(m, i, q); }
    forall k | 0 <= k <= |q| + 1 ensures Joined(AddLast(m, i, a), i, q + [a], k) { AddLastAt(m, i, q, a, k); }
    LinkedIs(AddLast(m, i, a), i, q + [a]);
  }

  lemma {:induction false} LinkedParts(m: Mem, i: nat, q: seq<nat>)
    requires Linked(m, i, q)
    ensures Present(m, i, q) && forall k :: 0 <= k <= |q| ==> Joined(m, i, q, k)
  {
  }

  lemma {:induction false} LinkedIs(m: Mem, i: nat, q: seq<nat>)
    requires Present(m, i, q) && forall k :: 0 <= k <= |q| ==> Joined(m, i, q, k)
    ensures Linked(m, i, q)
  {
  }

  lemma {:induction false} AddLastAt(m: Mem, i: nat, q: seq<nat>, a: nat, k: nat)
    requires Linked(m, i, q) && NoDup(q) && a !in q && k <= |q| + 1
    requires Sentinel(i) in m && m[Sentinel(i)].prev in m
    ensures Joined(AddLast(m, i, a), i, q + [a], k)
  {
    Ends(m, i, q);
    var r := q + [a];
    assert forall j :: 0 <= j <= |q| ==> Node(i, r, j) == Node(i, q, j);
    assert Node(i, r, |q| + 1) == a && Node(i, r, |q| + 2) == Sentinel(i);
    if k < |q| {
      assert Joined(m, i, q, k);
      NodesDiffer(i, q, k, |q|);
    }
  }

  lemma {:induction false} AddFirstOk(m: Mem, i: nat, q: seq<nat>, a: nat)
    requires Linked(m, i, q) && NoDup(q) && a !in q
    ensures Sentinel(i) in m && m[Sentinel(i)].next in m && Linked(AddFirst(m, i, a), i, [a] + q)
  {
    hide Linked;
    Ends(m, i, q);
    assert Present(AddFirst(m, i, a), i, [a] + q) by { LinkedParts(m, i, q); }
    forall k | 0 <= k <= |q| + 1 ensures Joined(AddFirst(m, i, a), i, [a] + q, k) { AddFirstAt(m, i, q, a, k); }
    LinkedIs(AddFirst(m, i, a), i, [a] + q);
  }

  lemma {:induction false} AddFirstAt(m: Mem, i: nat, q: seq<nat>, a: nat, k: nat)
    requires Linked(m, i, q) && NoDup(q) && a !in q && k <= |q| + 1
    requires Sentinel(i) in m && m[Sentinel(i)].next in m
    ensures Joined(AddFirst(m, i, a), i, [a] + q, k)
  {
    Ends(m, i, q);
    var r := [a] + q;
    assert forall j :: 2 <= j <= |q| + 2 ==> Node(i, r, j) == Node(i, q, j - 1);
    assert Node(i, r, 1) == a && Node(i, r, 0) == Sentinel(i);
    if k >= 2 {
      assert Joined(m, i, q, k - 1);
      if k <= |q| { NodesDiffer(i, q, 1, k); }
    }
  }

  lemma {:induction false} UnlinkOk(m: Mem, i: nat, q: seq<nat>, j: nat)
    requires Linked(m, i, q) && NoDup(q) && j < |q|
    ensures q[j] in m && m[q[j]].prev in m && m[q[j]].next in m && Linked(Unlink(m, q[j]), i, q[..j] + q[j + 1..])
  {
    Neighbours(m, i, q, j);
    hide Linked;
    var r := q[..j] + q[j + 1..];
    assert Present(Unlink(m, q[j]), i, r) by { LinkedParts(m, i, q); }
    forall k | 0 <= k <= |r| ensures Joined(Unlink(m, q[j]), i, r, k) { UnlinkAt(m, i, q, j, k); }
    LinkedIs(Unlink(m, q[j]), i, r);
  }

  lemma {:induction false} Neighbours(m: Mem, i: nat, q: seq<nat>, j: nat)
    requires Linked(m, i, q) && j < |q|
    ensures q[j] in m && m[q[j]].prev == Node(i, q, j) && m[q[j]].next == Node(i, q, j + 2)
    ensures Node(i, q, j) in m && Node(i, q, j + 2) in m
  {
    assert Joined(m, i, q, j) && Joined(m, i, q, j + 1);
  }

  lemma {:induction false} UnlinkAt(m: Mem, i: nat, q: seq<nat>, j: nat, k: nat)
    requires Linked(m, i, q) && NoDup(q) && j < |q| && k <= |q| - 1
    requires q[j] in m && m[q[j]].prev in m && m[q[j]].next in m
    ensures Joined(Unlink(m, q[j]), i, q[..j] + q[j + 1..], k)
  {
    Neighbours(m, i, q, j);
    var r := q[..j] + q[j + 1..];
    assert forall x :: 0 <= x <= j ==> Node(i, r, x) == Node(i, q, x);
    assert forall x :: j < x <= |r| + 1 ==> Node(i, r, x) == Node(i, q, x + 1);
    if k < j {
      assert Joined(m, i, q, k);
      NodesDiffer(i, q, k, j);
      if j + 2 <= |q| { NodesDiffer(i, q, k + 1, j + 2); }
      NodesDiffer(i, q, k, j + 1);
      NodesDiffer(i, q, k + 1, j + 1);
    } else if k > j {
      assert Joined(m, i, q, k + 1);
      NodesDiffer(i, q, j, k + 1);
      NodesDiffer(i, q, j + 1, k + 1);
      if k + 2 <= |q| { NodesDiffer(i, q, j + 2, k + 2); NodesDiffer(i, q, j + 1, k + 2); }
    }
  }
}
