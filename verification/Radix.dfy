/** Trees of fixed-size tables, as in an inode's indirect blocks or a page table: each table is an
    array of entries, and all but the lowest level hold references to further tables. */
module Radix {
  import opened Bits

  /** Tables by number. */
  type Store = map<nat, seq<nat>>

  /** The table an entry refers to, 0 for none. */
  type Ref = nat -> nat

  /** The value at the end of a path of indexes, 0 where a table is missing. */
  function Lookup(st: Store, ref: Ref, id: nat, path: seq<nat>): nat
    decreases |path|
  {
    if path == [] || id !in st || path[0] >= |st[id]| then 0
    else if |path| == 1 then st[id][path[0]]
    else Lookup(st, ref, ref(st[id][path[0]]), path[1..])
  }

  /** Where each table hangs: the depth of its tree, then the indexes that lead to it. */
  type Owners = map<nat, seq<nat>>

  /** Table id is the child of nothing but its own place, and its references go to tables that are
      theirs.  Since every table has one place, no two paths share a table. */
  ghost predicate NodeOk(st: Store, own: Owners, ref: Ref, fan: nat, id: nat)
    requires id in st
  {
    && id != 0 && id in own && |st[id]| == fan && 1 <= |own[id]| <= own[id][0]
    && (|own[id]| < own[id][0] ==> forall d :: 0 <= d < fan ==> ChildOk(st, own, ref, id, d))
  }

  ghost predicate ChildOk(st: Store, own: Owners, ref: Ref, id: nat, d: nat)
    requires id in st && id in own && d < |st[id]|
  {
    ref(st[id][d]) != 0 ==> ref(st[id][d]) in st && ref(st[id][d]) in own && own[ref(st[id][d])] == own[id] + [d]
  }

  /** No two tables have the same place. */
  ghost predicate Apart(st: Store, own: Owners) {
    forall a, b :: a in st && b in st && a in own && b in own && own[a] == own[b] ==> a == b
  }

  /** Table q refers to table id, which hangs at its index d. */
  ghost predicate Hangs(st: Store, own: Owners, ref: Ref, id: nat, q: nat, d: nat) {
    id in own && q in st && q in own && d < |st[q]| && own[id] == own[q] + [d] && ref(st[q][d]) == id
  }

  /** Every table but a root is referred to from its place. */
  ghost predicate Hung(st: Store, own: Owners, ref: Ref, id: nat) {
    id in own && (|own[id]| > 1 ==> exists q, d :: Hangs(st, own, ref, id, q, d))
  }

  ghost predicate Tree(st: Store, own: Owners, ref: Ref, fan: nat) {
    && ref(0) == 0 && Apart(st, own)
    && (forall id :: id in st ==> NodeOk(st, own, ref, fan, id) && Hung(st, own, ref, id))
  }

  /** The indexes still to go below table id. */
  ghost predicate Fits(own: Owners, fan: nat, id: nat, path: seq<nat>)
    requires id in own && own[id] != []
  {
    |own[id]| + |path| == own[id][0] + 1 && forall i :: 0 <= i < |path| ==> path[i] < fan
  }

  // ---------------------------------------------------------------- writing a value

  function Write(st: Store, id: nat, d: nat, v: nat): Store
    requires id in st && d < |st[id]|
  {
    var t: seq<nat> := st[id][d := v];
    st[id := t]
  }

  /** A lookup that starts at table id reads the written entry exactly if its path leads there. */
  lemma {:induction false} WriteLeaf(st: Store, own: Owners, ref: Ref, fan: nat, node: nat, d: nat, v: nat, id: nat,
      path: seq<nat>)
    requires Tree(st, own, ref, fan) && node in st && node in own && own[node] != [] && |own[node]| == own[node][0] &&
             d < |st[node]|
    requires id in st && id in own && own[id] != [] && Fits(own, fan, id, path) && path != []
    ensures Lookup(Write(st, node, d, v), ref, id, path) ==
            if own[id] + path == own[node] + [d] then v else Lookup(st, ref, id, path)
    decreases |path|
  {
    hide Tree, Write;
    if |path| == 1 {
      WriteLast(st, own, ref, fan, node, d, v, id, path);
    } else {
      OnTheWay(st, own, ref, fan, node, d, v, id, path);
      var c := ref(st[id][path[0]]);
      if c != 0 {
        WriteLeaf(st, own, ref, fan, node, d, v, c, path[1..]);
      } else if own[id] + path == own[node] + [d] {
        MissingChild(st, own, ref, fan, id, path, node, d);
      }
    }
  }

  lemma {:induction false} WriteLast(st: Store, own: Owners, ref: Ref, fan: nat, node: nat, d: nat, v: nat, id: nat,
      path: seq<nat>)
    requires Tree(st, own, ref, fan) && node in st && node in own && d < |st[node]|
    requires id in st && id in own && own[id] != [] && Fits(own, fan, id, path) && |path| == 1
    ensures Lookup(Write(st, node, d, v), ref, id, path) ==
            if own[id] + path == own[node] + [d] then v else Lookup(st, ref, id, path)
  {
    hide Fits, Hangs, Hung, NodeOk;
    assert NodeOk(st, own, ref, fan, id);
    if id == node && path[0] == d {
      assert own[id] + path == own[node] + [d];
    } else if own[id] + path == own[node] + [d] {
      LastOf(own[id], path, own[node], d);
    }
  }

  /** A table on the way is not the one written, and its entry leads on. */
  lemma {:induction false} OnTheWay(st: Store, own: Owners, ref: Ref, fan: nat, node: nat, d: nat, v: nat, id: nat,
      path: seq<nat>)
    requires Tree(st, own, ref, fan) && node in st && node in own && own[node] != [] && |own[node]| == own[node][0] &&
             d < |st[node]|
    requires id in st && id in own && own[id] != [] && Fits(own, fan, id, path) && |path| > 1
    ensures path[0] < |st[id]| && 0 !in st && own[id] + path == (own[id] + [path[0]]) + path[1..]
    ensures var w := Write(st, node, d, v); 0 !in w && id in w && w[id] == st[id]
    ensures var c := ref(st[id][path[0]]);
            c != 0 ==>
              c in st && c in own && own[c] == own[id] + [path[0]] && Fits(own, fan, c, path[1..]) &&
                c in Write(st, node, d, v)
  {
    assert NodeOk(st, own, ref, fan, id);
    assert id != node;
    assert ChildOk(st, own, ref, id, path[0]);
    forall x | x in st ensures x != 0 { assert NodeOk(st, own, ref, fan, x); }
  }

  lemma {:induction false} LastOf(a: seq<nat>, path: seq<nat>, b: seq<nat>, d: nat)
    requires |path| == 1 && a + path == b + [d]
    ensures a == b && path[0] == d
  {
    assert |a| == |b|;
    assert (a + path)[..|a|] == a && (b + [d])[..|b|] == b;
    assert (a + path)[|a|] == path[0] && (b + [d])[|b|] == d;
  }

  /** The table one step up. */
  lemma {:induction false} ParentAt(st: Store, own: Owners, ref: Ref, fan: nat, node: nat, a: seq<nat>, d: nat,
      id: nat)
    requires Tree(st, own, ref, fan) && node in st && node in own && own[node] == a + [d] && a != [] && id in st &&
             id in own && own[id] == a
    ensures d < |st[id]| && ref(st[id][d]) == node && node != 0
  {
    assert Hung(st, own, ref, node) && NodeOk(st, own, ref, fan, node);
    var q, e :| Hangs(st, own, ref, node, q, e);
    assert own[q] + [e] == a + [d];
    LastOf(own[q], [e], a, d);
  }

  /** A table below a missing reference cannot exist. */
  lemma {:induction false} MissingChild(st: Store, own: Owners, ref: Ref, fan: nat, id: nat, path: seq<nat>,
      node: nat, d: nat)
    requires Tree(st, own, ref, fan) && node in st && node in own && id in st && id in own && own[id] != [] &&
             |path| >= 2
    requires path[0] < |st[id]| && ref(st[id][path[0]]) == 0 && own[id] + path == own[node] + [d]
    ensures false
    decreases |path|
  {
    assert own[node] == own[id] + path[..|path| - 1] by {
      assert (own[node] + [d])[..|own[node]|] == own[node];
      assert (own[id] + path)[..|own[id]| + |path| - 1] == own[id] + path[..|path| - 1];
    }
    if |path| == 2 {
      assert path[..1] == [path[0]];
      ParentAt(st, own, ref, fan, node, own[id], path[0], id);
    } else {
      assert Hung(st, own, ref, node);
      var q, e :| Hangs(st, own, ref, node, q, e);
      var short := path[..|path| - 1];
      assert own[id] + short == own[q] + [e];
      MissingChild(st, own, ref, fan, id, short, q, e);
    }
  }

  // ---------------------------------------------------------------- adding a table

  function Zeros(fan: nat): (z: seq<nat>)
    ensures |z| == fan && forall i :: 0 <= i < fan ==> z[i] == 0
  {
    seq(fan, _ => 0)
  }

  /** A new table of zeros, referred to by the entry e at index d of table id. */
  function Grow(st: Store, id: nat, d: nat, n: nat, e: nat, fan: nat): Store
    requires id in st && d < |st[id]|
  {
    Write(st, id, d, e)[n := Zeros(fan)]
  }

  /** Growing changes no lookup: the paths through the new table led nowhere before and lead to
      zeros now. */
  lemma {:induction false} GrowSame(st: Store, own: Owners, ref: Ref, fan: nat, q: nat, d: nat, n: nat, e: nat,
      id: nat, path: seq<nat>)
    requires Tree(st, own, ref, fan) && q in st && q in own && |own[q]| < own[q][0] && d < fan && ref(st[q][d]) == 0
    requires n !in st && n != 0 && ref(e) == n
    requires id in st && id in own && own[id] != [] && Fits(own, fan, id, path) && path != []
    ensures Lookup(Grow(st, q, d, n, e, fan), ref, id, path) == Lookup(st, ref, id, path)
    decreases |path|
  {
    assert NodeOk(st, own, ref, fan, id) && NodeOk(st, own, ref, fan, q);
    var g := Grow(st, q, d, n, e, fan);
    if |path| == 1 {
      assert id != q;
    } else {
      assert ChildOk(st, own, ref, id, path[0]);
      var c := ref(st[id][path[0]]);
      if id == q && path[0] == d {
        assert 0 !in st;
        ZeroTable(g, ref, fan, n, path[1..]);
      } else if c == 0 {
        assert 0 !in st && 0 !in g;
      } else {
        GrowSame(st, own, ref, fan, q, d, n, e, c, path[1..]);
      }
    }
  }

  lemma {:induction false} ZeroTable(g: Store, ref: Ref, fan: nat, n: nat, path: seq<nat>)
    requires n in g && g[n] == Zeros(fan) && ref(0) == 0 && 0 !in g
    ensures Lookup(g, ref, n, path) == 0
  {
  }

  lemma {:induction false} NotTaken(st: Store, own: Owners, ref: Ref, fan: nat, q: nat, d: nat)
    requires Tree(st, own, ref, fan) && q in st && q in own && own[q] != [] && d < |st[q]| && ref(st[q][d]) == 0
    ensures forall c :: c in st && c in own ==> own[c] != own[q] + [d]
  {
    forall c | c in st && c in own ensures own[c] != own[q] + [d] {
      if own[c] == own[q] + [d] { ParentAt(st, own, ref, fan, c, own[q], d, q); }
    }
  }

  lemma {:induction false} GrowNode(st: Store, own: Owners, ref: Ref, fan: nat, q: nat, d: nat, n: nat, e: nat,
      id: nat)
    requires Tree(st, own, ref, fan) && q in st && q in own && |own[q]| < own[q][0] && d < fan && ref(st[q][d]) == 0
    requires n !in st && n != 0 && ref(e) == n && id in st
    ensures NodeOk(Grow(st, q, d, n, e, fan), own[n := own[q] + [d]], ref, fan, id)
  {
    assert NodeOk(st, own, ref, fan, id) && NodeOk(st, own, ref, fan, q);
    var g, w := Grow(st, q, d, n, e, fan), own[n := own[q] + [d]];
    if |own[id]| < own[id][0] {
      forall x | 0 <= x < fan ensures ChildOk(g, w, ref, id, x) {
        assert ChildOk(st, own, ref, id, x);
      }
    }
  }

  lemma {:induction false} GrowHung(st: Store, own: Owners, ref: Ref, fan: nat, q: nat, d: nat, n: nat, e: nat,
      id: nat)
    requires Tree(st, own, ref, fan) && q in st && q in own && |own[q]| < own[q][0] && d < fan && ref(st[q][d]) == 0
    requires n !in st && n != 0 && ref(e) == n && id in st
    ensures Hung(Grow(st, q, d, n, e, fan), own[n := own[q] + [d]], ref, id)
  {
    assert NodeOk(st, own, ref, fan, id) && NodeOk(st, own, ref, fan, q) && Hung(st, own, ref, id);
    var g, w := Grow(st, q, d, n, e, fan), own[n := own[q] + [d]];
    if |own[id]| > 1 {
      var p, x :| Hangs(st, own, ref, id, p, x);
      assert !(p == q && x == d);
      assert Hangs(g, w, ref, id, p, x);
    }
  }

  lemma {:induction false} GrowTree(st: Store, own: Owners, ref: Ref, fan: nat, q: nat, d: nat, n: nat, e: nat)
    requires Tree(st, own, ref, fan) && q in st && q in own && |own[q]| < own[q][0] && d < fan && ref(st[q][d]) == 0
    requires n !in st && n != 0 && ref(e) == n
    ensures Tree(Grow(st, q, d, n, e, fan), own[n := own[q] + [d]], ref, fan)
  {
    assert NodeOk(st, own, ref, fan, q);
    var g, w := Grow(st, q, d, n, e, fan), own[n := own[q] + [d]];
    GrowApart(st, own, ref, fan, q, d, n, e);
    hide Apart;
    forall id | id in g ensures NodeOk(g, w, ref, fan, id) && Hung(g, w, ref, id) {
      hide NodeOk, Hung, Grow;
      if id != n {
        GrowKeys(st, q, d, n, e, fan);
        GrowNode(st, own, ref, fan, q, d, n, e, id);
        GrowHung(st, own, ref, fan, q, d, n, e, id);
      } else {
        GrowNew(st, own, ref, fan, q, d, n, e);
      }
    }
  }

  lemma {:induction false} GrowKeys(st: Store, q: nat, d: nat, n: nat, e: nat, fan: nat)
    requires q in st && d < |st[q]|
    ensures forall id :: id in Grow(st, q, d, n, e, fan) ==> id == n || id in st
  {
  }

  lemma {:induction false} GrowApart(st: Store, own: Owners, ref: Ref, fan: nat, q: nat, d: nat, n: nat, e: nat)
    requires Tree(st, own, ref, fan) && q in st && q in own && own[q] != [] && d < |st[q]| && ref(st[q][d]) == 0 &&
             n !in st
    ensures Apart(Grow(st, q, d, n, e, fan), own[n := own[q] + [d]])
  {
    NotTaken(st, own, ref, fan, q, d);
  }

  lemma {:induction false} GrowNew(st: Store, own: Owners, ref: Ref, fan: nat, q: nat, d: nat, n: nat, e: nat)
    requires q in st && q in own && own[q] != [] && |own[q]| < own[q][0] && d < fan == |st[q]| && n !in st &&
             n != 0 && ref(e) == n && ref(0) == 0
    ensures var g, w := Grow(st, q, d, n, e, fan), own[n := own[q] + [d]];
            n in g && NodeOk(g, w, ref, fan, n) && Hung(g, w, ref, n)
  {
    var g, w := Grow(st, q, d, n, e, fan), own[n := own[q] + [d]];
    forall x | 0 <= x < fan ensures ChildOk(g, w, ref, n, x) { }
    assert Hangs(g, w, ref, n, q, d);
  }

  lemma {:induction false} WriteTree(st: Store, own: Owners, ref: Ref, fan: nat, node: nat, d: nat, v: nat)
    requires Tree(st, own, ref, fan) && node in st && node in own && |own[node]| == own[node][0] && d < |st[node]|
    ensures Tree(Write(st, node, d, v), own, ref, fan)
  {
    var w := Write(st, node, d, v);
    forall id | id in w ensures NodeOk(w, own, ref, fan, id) && Hung(w, own, ref, id) {
      assert NodeOk(st, own, ref, fan, id) && Hung(st, own, ref, id);
      if |own[id]| < own[id][0] {
        forall x | 0 <= x < fan ensures ChildOk(w, own, ref, id, x) { assert ChildOk(st, own, ref, id, x); }
      }
      if |own[id]| > 1 {
        var p, x :| Hangs(st, own, ref, id, p, x);
        assert p != node by { PlaceAbove(st, own, ref, fan, id, p, x); }
        assert Hangs(w, own, ref, id, p, x);
      }
    }
  }

  /** A table with a child is not on the lowest level. */
  lemma {:induction false} PlaceAbove(st: Store, own: Owners, ref: Ref, fan: nat, id: nat, p: nat, x: nat)
    requires Tree(st, own, ref, fan) && id in st && Hangs(st, own, ref, id, p, x) && own[p] != []
    ensures |own[p]| < own[p][0]
  {
    assert NodeOk(st, own, ref, fan, id) && NodeOk(st, own, ref, fan, p);
    assert own[id][0] == own[p][0];
  }

  /** A new root. */
  lemma {:induction false} RootTree(st: Store, own: Owners, ref: Ref, fan: nat, n: nat, depth: nat)
    requires Tree(st, own, ref, fan) && n !in st && n != 0 && depth >= 1 &&
             (forall c :: c in st && c in own ==> own[c] != [depth])
    ensures Tree(st[n := Zeros(fan)], own[n := [depth]], ref, fan)
  {
    var g, w := st[n := Zeros(fan)], own[n := [depth]];
    forall id | id in g ensures NodeOk(g, w, ref, fan, id) && Hung(g, w, ref, id) {
      if id != n {
        assert NodeOk(st, own, ref, fan, id) && Hung(st, own, ref, id);
        if |own[id]| < own[id][0] {
          forall x | 0 <= x < fan ensures ChildOk(g, w, ref, id, x) { assert ChildOk(st, own, ref, id, x); }
        }
        if |own[id]| > 1 {
          var p, x :| Hangs(st, own, ref, id, p, x);
          assert Hangs(g, w, ref, id, p, x);
        }
      } else {
        forall x | 0 <= x < fan ensures ChildOk(g, w, ref, n, x) { }
      }
    }
  }

  /** A new root changes no lookup from another table. */
  lemma {:induction false} RootSame(st: Store, own: Owners, ref: Ref, fan: nat, n: nat, id: nat, path: seq<nat>)
    requires Tree(st, own, ref, fan) && n !in st && n != 0 && id in st && id in own && own[id] != [] &&
             Fits(own, fan, id, path)
    ensures Lookup(st[n := Zeros(fan)], ref, id, path) == Lookup(st, ref, id, path)
    decreases |path|
  {
    assert NodeOk(st, own, ref, fan, id);
    if |path| > 1 {
      assert ChildOk(st, own, ref, id, path[0]);
      var c := ref(st[id][path[0]]);
      if c == 0 {
        assert 0 !in st;
      } else {
        RootSame(st, own, ref, fan, n, c, path[1..]);
      }
    }
  }

  // ---------------------------------------------------------------- tables still missing

  /** How many tables have to be added below table id before path leads to an entry. */
  function Missing(st: Store, ref: Ref, id: nat, path: seq<nat>): (n: nat)
    ensures path != [] ==> n < |path|
    decreases |path|
  {
    if |path| <= 1 then 0
    else if id !in st || path[0] >= |st[id]| || ref(st[id][path[0]]) == 0 then |path| - 1
    else Missing(st, ref, ref(st[id][path[0]]), path[1..])
  }

  /** A new table of zeros lacks everything below it. */
  lemma {:induction false} MissingBelow(st: Store, ref: Ref, fan: nat, n: nat, path: seq<nat>)
    requires n in st && st[n] == Zeros(fan) && ref(0) == 0 && path != []
    ensures Missing(st, ref, n, path) == |path| - 1
  {
  }

  /** The table that path leads to from table id, 0 if it is missing. */
  function Reach(st: Store, ref: Ref, id: nat, path: seq<nat>): nat
    decreases |path|
  {
    if id !in st then 0
    else if path == [] then id
    else if path[0] >= |st[id]| then 0
    else Reach(st, ref, ref(st[id][path[0]]), path[1..])
  }

  /** The indexes lead from table id to another table of its tree. */
  ghost predicate Inside(own: Owners, fan: nat, id: nat, path: seq<nat>)
    requires id in own && own[id] != []
  {
    |own[id]| + |path| <= own[id][0] && forall i :: 0 <= i < |path| ==> path[i] < fan
  }

  /** Reading one table on the way to another. */
  lemma {:induction false} ReachStep(st: Store, own: Owners, ref: Ref, fan: nat, id: nat, path: seq<nat>)
    requires Tree(st, own, ref, fan) && id in st && id in own && own[id] != [] && Inside(own, fan, id, path)
    ensures id != 0 && 0 !in st && |st[id]| == fan
    ensures path != [] ==>
              var c := ref(st[id][path[0]]);
              && |own[id]| < own[id][0] && own[id] + path == own[id] + [path[0]] + path[1..]
              && Reach(st, ref, id, path) == (if c == 0 then 0 else Reach(st, ref, c, path[1..]))
              && (c != 0 ==> c in st && c in own && own[c] == own[id] + [path[0]] && Inside(own, fan, c, path[1..]))
  {
    assert NodeOk(st, own, ref, fan, id);
    forall x | x in st ensures x != 0 { assert NodeOk(st, own, ref, fan, x); }
    if path != [] {
      assert ChildOk(st, own, ref, id, path[0]);
    }
  }

  /** A table is reached along its place. */
  lemma {:induction false} ReachPlace(st: Store, own: Owners, ref: Ref, fan: nat, id: nat, path: seq<nat>, t: nat)
    requires Tree(st, own, ref, fan) && id in st && id in own && own[id] != [] && Inside(own, fan, id, path)
    requires t in st && t in own && own[t] == own[id] + path
    ensures Reach(st, ref, id, path) == t
    decreases |path|
  {
    ReachStep(st, own, ref, fan, id, path);
    if path == [] {
      assert own[t] == own[id];
    } else {
      var c := ref(st[id][path[0]]);
      if c == 0 {
        assert own[id] + (path + [0]) == own[t] + [0];
        MissingChild(st, own, ref, fan, id, path + [0], t, 0);
      } else {
        hide Tree, Inside, Reach;
        ReachPlace(st, own, ref, fan, c, path[1..], t);
      }
    }
  }

  /** Adding a table lets exactly its own place be reached. */
  lemma {:induction false} GrowReach(st: Store, own: Owners, ref: Ref, fan: nat, q: nat, d: nat, n: nat, e: nat,
      id: nat, path: seq<nat>)
    requires Tree(st, own, ref, fan) && q in st && q in own && own[q] != [] && |own[q]| < own[q][0] && d < fan &&
             d < |st[q]| && ref(st[q][d]) == 0 && n !in st && n != 0 && ref(e) == n
    requires id in st && id in own && own[id] != [] && Inside(own, fan, id, path)
    ensures Reach(Grow(st, q, d, n, e, fan), ref, id, path) != 0 <==>
              Reach(st, ref, id, path) != 0 || own[id] + path == own[q] + [d]
    decreases |path|
  {
    ReachStep(st, own, ref, fan, id, path);
    var g := Grow(st, q, d, n, e, fan);
    GrowEntries(st, q, d, n, e, fan, id);
    if path != [] {
      var c := ref(st[id][path[0]]);
      if id == q && path[0] == d {
        NewReach(g, ref, fan, n, path[1..]);
        assert path == [path[0]] + path[1..];
      } else if c == 0 {
        NotBelow(st, own, ref, fan, id, path, q, d);
      } else {
        hide Tree, Inside, Grow;
        GrowReach(st, own, ref, fan, q, d, n, e, c, path[1..]);
      }
    }
  }

  lemma {:induction false} GrowEntries(st: Store, q: nat, d: nat, n: nat, e: nat, fan: nat, id: nat)
    requires q in st && d < |st[q]| && id in st && n !in st && n != 0 && 0 !in st
    ensures var g := Grow(st, q, d, n, e, fan);
            && id in g && 0 !in g && n in g && g[n] == Zeros(fan) && |g[id]| == |st[id]|
            && forall x :: 0 <= x < |st[id]| ==> g[id][x] == if id == q && x == d then e else st[id][x]
  {
  }

  lemma {:induction false} NewReach(g: Store, ref: Ref, fan: nat, n: nat, path: seq<nat>)
    requires n in g && g[n] == Zeros(fan) && ref(0) == 0 && 0 !in g && n != 0
    ensures Reach(g, ref, n, path) != 0 <==> path == []
  {
  }

  /** No table hangs below a missing one. */
  lemma {:induction false} NotBelow(st: Store, own: Owners, ref: Ref, fan: nat, id: nat, path: seq<nat>, q: nat,
      d: nat)
    requires Tree(st, own, ref, fan) && id in st && id in own && own[id] != [] && q in st && q in own
    requires path != [] && path[0] < |st[id]| && ref(st[id][path[0]]) == 0 && !(id == q && path[0] == d)
    ensures own[id] + path != own[q] + [d]
  {
    if own[id] + path == own[q] + [d] {
      if |path| == 1 {
        LastOf(own[id], path, own[q], d);
      } else {
        MissingChild(st, own, ref, fan, id, path, q, d);
      }
    }
  }

  /** Writing a value leaves every table where it is. */
  lemma {:induction false} WriteReach(st: Store, own: Owners, ref: Ref, fan: nat, node: nat, d: nat, v: nat, id: nat,
      path: seq<nat>)
    requires Tree(st, own, ref, fan) && node in st && node in own && own[node] != [] && |own[node]| == own[node][0] &&
             d < |st[node]|
    requires id in st && id in own && own[id] != [] && Inside(own, fan, id, path)
    ensures Reach(Write(st, node, d, v), ref, id, path) == Reach(st, ref, id, path)
    decreases |path|
  {
    ReachStep(st, own, ref, fan, id, path);
    if path != [] {
      var c := ref(st[id][path[0]]);
      if c != 0 {
        WriteReach(st, own, ref, fan, node, d, v, c, path[1..]);
      }
    }
  }

  // ---------------------------------------------------------------- indexes as digits

  function Pow(base: nat, k: nat): (p: nat)
    ensures base > 0 ==> p > 0
  {
    if k == 0 then 1 else base * Pow(base, k - 1)
  }

  /** The k digits of x, most significant first. */
  function Digits(base: nat, x: nat, k: nat): (ds: seq<nat>)
    requires base > 0
    ensures |ds| == k
    decreases k
  {
    if k == 0 then [] else [x / Pow(base, k - 1)] + Digits(base, x % Pow(base, k - 1), k - 1)
  }

  lemma {:induction false} DigitsBelow(base: nat, x: nat, k: nat)
    requires base > 0 && x < Pow(base, k)
    ensures forall i :: 0 <= i < k ==> Digits(base, x, k)[i] < base
    decreases k
  {
    if k > 0 {
      var p := Pow(base, k - 1);
      DivBelow(x, base, p);
      DigitsBelow(base, x % p, k - 1);
    }
  }

  lemma {:induction false} DivBelow(x: nat, b: nat, p: nat)
    requires p > 0 && x < b * p
    ensures x / p < b
  {
    var q := x / p;
    assert x == p * q + x % p;
    MulMono(p, b, q);
  }

  lemma {:induction false} MulMono(p: nat, b: nat, q: nat)
    ensures q >= b ==> p * q >= p * b
  {
    if q >= b { assert p * q == p * b + p * (q - b); }
  }

  /** Different numbers differ in some digit. */
  lemma {:induction false} DigitsApart(base: nat, x: nat, y: nat, k: nat)
    requires base > 0 && x < Pow(base, k) && y < Pow(base, k) && Digits(base, x, k) == Digits(base, y, k)
    ensures x == y
    decreases k
  {
    if k > 0 {
      var p := Pow(base, k - 1);
      assert x / p == y / p && Digits(base, x % p, k - 1) ==
             Digits(base, y % p, k - 1) by { FirstDigit(base, x, y, k); }
      DivMod(x, p);
      DivMod(y, p);
      hide Digits, Pow;
      DigitsApart(base, x % p, y % p, k - 1);
    }
  }

  lemma {:induction false} FirstDigit(base: nat, x: nat, y: nat, k: nat)
    requires base > 0 && k > 0 && Digits(base, x, k) == Digits(base, y, k)
    ensures var p := Pow(base, k - 1); x / p == y / p && Digits(base, x % p, k - 1) == Digits(base, y % p, k - 1)
  {
    var p, dx, dy := Pow(base, k - 1), Digits(base, x, k), Digits(base, y, k);
    assert dx[0] == dy[0] && dx[1..] == Digits(base, x % p, k - 1) && dy[1..] == Digits(base, y % p, k - 1);
  }

  // ---------------------------------------------------------------- where new tables come from

  /** Distinct numbers that are not in use as tables. */
  ghost predicate Usable(supply: seq<nat>, st: Store) {
    && (forall i :: 0 <= i < |supply| ==> supply[i] != 0 && supply[i] !in st)
    && (forall i, j :: 0 <= i < j < |supply| ==> supply[i] != supply[j])
  }

  lemma {:induction false} FirstUsable(supply: seq<nat>, st: Store, z: seq<nat>)
    requires Usable(supply, st) && supply != []
    ensures supply[0] != 0 && supply[0] !in st && Usable(supply[1..], st[supply[0] := z])
  {
  }

  function Elems(q: seq<nat>): set<nat> { set x | x in q }

  /** The tables of b are those of a and the numbers that left lacks of supply. */
  ghost predicate Drawn(a: Store, b: Store, supply: seq<nat>, left: seq<nat>) {
    && |left| <= |supply| && left == supply[|supply| - |left|..]
    && b.Keys == a.Keys + Elems(supply[..|supply| - |left|])
  }

  lemma {:induction false} DrawnNone(a: Store, supply: seq<nat>)
    ensures Drawn(a, a, supply, supply)
  {
    assert supply[..0] == [];
  }

  lemma {:induction false} DrawnOne(a: Store, b: Store, supply: seq<nat>)
    requires supply != [] && b.Keys == a.Keys + {supply[0]}
    ensures Drawn(a, b, supply, supply[1..])
  {
    assert supply[..1] == [supply[0]];
  }

  lemma {:induction false} DrawnMore(a: Store, b: Store, c: Store, supply: seq<nat>, left: seq<nat>, rest: seq<nat>)
    requires Drawn(a, b, supply, left) && Drawn(b, c, left, rest)
    ensures Drawn(a, c, supply, rest)
  {
    var i, j := |supply| - |left|, |supply| - |rest|;
    assert supply[..j] == supply[..i] + left[..j - i];
  }

  lemma {:induction false} WriteDrawn(a: Store, st: Store, t: nat, d: nat, e: nat, supply: seq<nat>, left: seq<nat>)
    requires Drawn(a, st, supply, left) && t in st && d < |st[t]|
    ensures Drawn(a, Write(st, t, d, e), supply, left)
  {
    assert Write(st, t, d, e).Keys == st.Keys;
  }

  lemma {:induction false} GrowDrawn(st: Store, q: nat, d: nat, e: nat, fan: nat, supply: seq<nat>)
    requires q in st && d < |st[q]| && supply != []
    ensures Drawn(st, Grow(st, q, d, supply[0], e, fan), supply, supply[1..])
  {
    DrawnOne(st, Grow(st, q, d, supply[0], e, fan), supply);
  }

  lemma {:induction false} GrowTable(st: Store, q: nat, d: nat, n: nat, e: nat, fan: nat)
    requires q in st && d < |st[q]|
    ensures n in Grow(st, q, d, n, e, fan) && Grow(st, q, d, n, e, fan)[n] == Zeros(fan)
  {
  }

  lemma {:induction false} GrowUsable(supply: seq<nat>, st: Store, q: nat, d: nat, e: nat, fan: nat)
    requires Usable(supply, st) && supply != [] && q in st && d < |st[q]|
    ensures Usable(supply[1..], Grow(st, q, d, supply[0], e, fan))
  {
  }
}
