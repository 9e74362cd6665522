/** A leaf split keeps the whole index searchable: the lookup invariant and the set of names. */
module HTreeSplitIndex {
  import opened Wrappers
  import opened DirBlockSpec
  import opened HTree
  import opened HTreeFind
  import opened HTreeSplit

  /** No block occurs twice in the index. */
  ghost predicate Apart(slots: seq<Slot>) {
    forall i, j :: 0 <= i < j < |slots| ==> slots[i].block != slots[j].block
  }

  ghost predicate Separate(d: Dir)
    requires Shaped(d)
  {
    Apart(Flat(d)) && (d.levels == 1 ==> Apart(d.root.slots))
  }

  // ---------------------------------------------------------------- names in leaves

  lemma {:induction false} LookupHasName(es: seq<Entry>, name: Name)
    ensures Lookup(es, name) != None <==> HasName(es, name)
    decreases |es|
  {
    if es != [] {
      LookupHasName(es[1..], name);
      assert forall k :: 0 < k < |es| ==> es[k] == es[1..][k - 1];
      if HasName(es[1..], name) {
        var i :| 0 <= i < |es[1..]| && es[1..][i].name == name;
        assert es[i + 1].name == name;
      }
    }
  }

  /** After the split a name is in one of the halves exactly when it was in the leaf, on the side of
      the key its hash belongs to. */
  lemma {:induction false} HalvedNames(es: seq<Entry>, left: seq<Entry>, right: seq<Entry>, key: nat, hash: Hash,
      name: Name)
    requires Halved(es, left, right, key, hash)
    ensures HasName(es, name) <==> HasName(left, name) || HasName(right, name)
    ensures HasName(left, name) ==> hash(name) < key
    ensures HasName(right, name) ==> Base(key) <= hash(name)
  {
    var both := left + right;
    if HasName(es, name) {
      var i :| 0 <= i < |es| && es[i].name == name;
      assert es[i] in multiset(es);
      assert es[i] in both;
      var k :| 0 <= k < |both| && both[k] == es[i];
      if k < |left| { assert left[k].name == name; } else { assert right[k - |left|].name == name; }
    }
    if HasName(left, name) {
      var i :| 0 <= i < |left| && left[i].name == name;
      assert both[i] == left[i] && both[i] in multiset(both);
      assert left[i] in es;
    }
    if HasName(right, name) {
      var i :| 0 <= i < |right| && right[i].name == name;
      assert both[|left| + i] == right[i] && both[|left| + i] in multiset(both);
      assert right[i] in es;
    }
  }

  /** Leaf b of d was split into leaves b and n of e. */
  ghost predicate LeafSplit(d: Dir, e: Dir, b: nat, n: nat, key: nat, hash: Hash) {
    && b in d.leaves && b in e.leaves && n in e.leaves && n != b && e.size == d.size
    && Tiled(d.leaves[b], 0, d.size) && Tiled(e.leaves[b], 0, d.size) && Tiled(e.leaves[n], 0, d.size)
    && Halved(Live(d.leaves[b], 0, d.size), Live(e.leaves[b], 0, d.size), Live(e.leaves[n], 0, d.size), key, hash)
    && (forall l :: l in d.leaves && l != b && l != n ==> l in e.leaves && e.leaves[l] == d.leaves[l])
    && (forall l :: l in e.leaves && l != b && l != n ==> l in d.leaves)
  }

  lemma {:induction false} HoldsIs(d: Dir, l: nat, name: Name)
    requires l in d.leaves && Tiled(d.leaves[l], 0, d.size)
    ensures Holds(d, l, name) <==> HasName(Live(d.leaves[l], 0, d.size), name)
  {
    LookupHasName(Live(d.leaves[l], 0, d.size), name);
  }

  lemma {:induction false} SplitHolds(d: Dir, e: Dir, b: nat, n: nat, key: nat, hash: Hash, name: Name)
    requires LeafSplit(d, e, b, n, key, hash)
    ensures Holds(d, b, name) <==> Holds(e, b, name) || Holds(e, n, name)
    ensures Holds(e, b, name) ==> hash(name) < key
    ensures Holds(e, n, name) ==> Base(key) <= hash(name)
    ensures forall l :: l != b && l != n ==> (Holds(e, l, name) <==> Holds(d, l, name))
  {
    hide Live, Tiled, Halved, HasName;
    HoldsIs(d, b, name);
    HoldsIs(e, b, name);
    HoldsIs(e, n, name);
    HalvedNames(Live(d.leaves[b], 0, d.size), Live(e.leaves[b], 0, d.size), Live(e.leaves[n], 0, d.size), key, hash,
      name);
  }

  /** Neither half is empty: some name sits on each side, the right one with the key's own hash. */
  lemma {:induction false} SplitWitness(d: Dir, e: Dir, b: nat, n: nat, key: nat, hash: Hash)
      returns (x: Name, y: Name)
    requires LeafSplit(d, e, b, n, key, hash)
    ensures Holds(d, b, x) && hash(x) < key && Holds(d, b, y) && hash(y) == Base(key)
  {
    hide Live, Tiled;
    var left, right := Live(e.leaves[b], 0, d.size), Live(e.leaves[n], 0, d.size);
    x, y := left[0].name, right[0].name;
    assert HasName(left, x) && HasName(right, y);
    HoldsIs(e, b, x);
    HoldsIs(e, n, y);
    SplitHolds(d, e, b, n, key, hash, x);
    SplitHolds(d, e, b, n, key, hash, y);
  }

  // ---------------------------------------------------------------- the flat index

  /** Index k of the longer list as an index of the shorter one. */
  function Old(f: nat, k: nat): nat { if k <= f then k else k - 1 }

  lemma {:induction false} InsertedAt(flat: seq<Slot>, f: nat, key: nat, n: nat)
    requires f < |flat|
    ensures var g := InsertSlot(flat, f, key, n);
            && |g| == |flat| + 1 && g[f + 1] == Slot(key, n)
            && forall k :: 0 <= k < |g| && k != f + 1 ==> g[k] == flat[Old(f, k)]
  {
  }

  /** The new key lies between its neighbours. */
  lemma {:induction false} KeyBetween(d: Dir, e: Dir, flat: seq<Slot>, f: nat, key: nat, n: nat, hash: Hash)
    requires f < |flat| && Placed(d, flat, hash) && LeafSplit(d, e, flat[f].block, n, key, hash)
    ensures flat[f].hash <= key && (f + 1 < |flat| ==> key <= flat[f + 1].hash)
  {
    hide Holds, LeafSplit;
    var x, y := SplitWitness(d, e, flat[f].block, n, key, hash);
    assert Base(flat[f].hash) <= hash(x);
    assert f + 1 < |flat| ==> hash(y) < flat[f + 1].hash;
  }

  lemma {:induction false} InsertAscends(flat: seq<Slot>, f: nat, key: nat, n: nat)
    requires f < |flat| && Ascending(flat) && flat[f].hash <= key && (f + 1 < |flat| ==> key <= flat[f + 1].hash)
    ensures Ascending(InsertSlot(flat, f, key, n))
  {
    var g := InsertSlot(flat, f, key, n);
    forall i, j | 0 <= i < j < |g| ensures g[i].hash <= g[j].hash {
      assert i != f + 1 ==> g[i] == flat[Old(f, i)];
      assert j != f + 1 ==> g[j] == flat[Old(f, j)];
      if i == f + 1 { assert flat[f + 1].hash <= flat[j - 1].hash; }
      if j == f + 1 { assert flat[i].hash <= flat[f].hash; }
    }
  }

  lemma {:induction false} InsertApart(flat: seq<Slot>, f: nat, key: nat, n: nat)
    requires f < |flat| && Apart(flat) && forall k :: 0 <= k < |flat| ==> flat[k].block != n
    ensures Apart(InsertSlot(flat, f, key, n))
  {
    var g := InsertSlot(flat, f, key, n);
    forall i, j | 0 <= i < j < |g| ensures g[i].block != g[j].block {
      assert i != f + 1 ==> g[i] == flat[Old(f, i)];
      assert j != f + 1 ==> g[j] == flat[Old(f, j)];
    }
  }

  /** Where a name of the split index was before: at the same leaf, or for the new leaf at the split one. */
  lemma {:induction false} WasAt(d: Dir, e: Dir, flat: seq<Slot>, f: nat, key: nat, n: nat, hash: Hash, j: nat,
      name: Name)
    requires f < |flat| && Apart(flat) && (forall k :: 0 <= k < |flat| ==> flat[k].block != n)
    requires LeafSplit(d, e, flat[f].block, n, key, hash) && j <= |flat|
    requires Holds(e, InsertSlot(flat, f, key, n)[j].block, name)
    ensures Holds(d, flat[Old(f, j)].block, name)
    ensures j == f ==> hash(name) < key
    ensures j == f + 1 ==> Base(key) <= hash(name)
  {
    hide LeafSplit, Holds;
    InsertedAt(flat, f, key, n);
    SplitHolds(d, e, flat[f].block, n, key, hash, name);
  }

  lemma {:induction false} InsertPlaced(d: Dir, e: Dir, flat: seq<Slot>, f: nat, key: nat, n: nat, hash: Hash)
    requires f < |flat| && Apart(flat) && (forall k :: 0 <= k < |flat| ==> flat[k].block != n)
    requires Ascending(flat) && Placed(d, flat, hash) && LeafSplit(d, e, flat[f].block, n, key, hash)
    ensures Placed(e, InsertSlot(flat, f, key, n), hash)
  {
    hide LeafSplit, Holds, InsertSlot, Apart, Ascending;
    var g := InsertSlot(flat, f, key, n);
    forall i, j, name | 0 <= i < |g| && 0 <= j < |g| && Holds(e, g[j].block, name)
      ensures (j < i ==> hash(name) < g[i].hash) && (i <= j ==> Base(g[i].hash) <= hash(name))
    {
      WasAt(d, e, flat, f, key, n, hash, j, name);
      KeyBetween(d, e, flat, f, key, n, hash);
      InsertedAt(flat, f, key, n);
      OneKey(d, flat, f, key, hash, i, j, name, g[i].hash);
    }
  }

  /** One bound of the invariant, from the bounds before the split. */
  lemma {:induction false} OneKey(d: Dir, flat: seq<Slot>, f: nat, key: nat, hash: Hash, i: nat, j: nat, name: Name,
      gi: nat)
    requires f < |flat| && i <= |flat| && j <= |flat| && Placed(d, flat, hash) &&
             Holds(d, flat[Old(f, j)].block, name)
    requires (j == f ==> hash(name) < key) && (j == f + 1 ==> Base(key) <= hash(name))
    requires flat[f].hash <= key && (f + 1 < |flat| ==> key <= flat[f + 1].hash)
    requires gi == if i == f + 1 then key else flat[Old(f, i)].hash
    ensures (j < i ==> hash(name) < gi) && (i <= j ==> Base(gi) <= hash(name))
  {
    hide Holds;
    var was := Old(f, j);
    assert was < |flat|;
    if i != f + 1 {
      assert flat[Old(f, i)].hash == gi;
    } else {
      assert Base(flat[f].hash) <= Base(key);
      assert was < f ==> hash(name) < flat[f].hash;
      if f + 1 < |flat| { assert f + 1 <= was ==> Base(flat[f + 1].hash) <= hash(name); }
    }
  }

  // ---------------------------------------------------------------- the directory

  /** The index entries of the node that points at slot j of row i. */
  function LowNode(d: Dir, i: nat): Node
    requires Shaped(d) && i < |Rows(d)|
  {
    if d.levels == 0 then d.root else d.nodes[d.root.slots[i].block]
  }

  /** The directory after the leaf at slot j of row i was split off into block n. */
  function SplitDir(d: Dir, i: nat, j: nat, left: Heads, right: Heads, key: nat, n: nat): Dir
    requires Shaped(d) && i < |Rows(d)| && j < |Rows(d)[i]|
  {
    var low := LowNode(d, i);
    var more := low.(slots := InsertSlot(low.slots, j, key, n));
    var leaves := d.leaves[Rows(d)[i][j].block := left][n := right];
    if d.levels == 0 then d.(root := more, leaves := leaves)
    else d.(nodes := d.nodes[d.root.slots[i].block := more], leaves := leaves)
  }

  lemma {:induction false} RowsInsert(d: Dir, i: nat, j: nat, left: Heads, right: Heads, key: nat, n: nat)
    requires Shaped(d) && Separate(d) && i < |Rows(d)| && j < |Rows(d)[i]| &&
             |LowNode(d, i).slots| < LowNode(d, i).limit
    ensures var e := SplitDir(d, i, j, left, right, key, n);
            Shaped(e) && Rows(e) == Rows(d)[i := InsertSlot(Rows(d)[i], j, key, n)]
  {
    hide Concat;
    var e := SplitDir(d, i, j, left, right, key, n);
    var rs := Rows(d)[i := InsertSlot(Rows(d)[i], j, key, n)];
    if d.levels == 0 {
      assert Keyed(0, InsertSlot(d.root.slots, j, key, n)) == InsertSlot(Keyed(0, d.root.slots), j, key, n);
    } else {
      forall k | 0 <= k < |d.root.slots|
        ensures d.root.slots[k].block in e.nodes && NodeOk(e.nodes[d.root.slots[k].block])
        ensures e.nodes[d.root.slots[k].block].limit == d.nodeLimit
      {
      }
      forall k | 0 <= k < |rs| ensures Rows(e)[k] == rs[k] {
        var key0 := if k == 0 then 0 else d.root.slots[k].hash;
        if k == i {
          var old_ := d.nodes[d.root.slots[i].block].slots;
          assert Keyed(key0, InsertSlot(old_, j, key, n)) == InsertSlot(Keyed(key0, old_), j, key, n);
        }
      }
    }
  }

  lemma {:induction false} ConcatInsert(rs: seq<seq<Slot>>, i: nat, j: nat, key: nat, n: nat)
    requires i < |rs| && j < |rs[i]|
    ensures Place(rs, i, j) < |Concat(rs)|
    ensures Concat(rs[i := InsertSlot(rs[i], j, key, n)]) == InsertSlot(Concat(rs), Place(rs, i, j), key, n)
    decreases i
  {
    PlaceOk(rs, i, j);
    var more := rs[i := InsertSlot(rs[i], j, key, n)];
    if i == 0 {
      assert more[1..] == rs[1..];
      assert InsertSlot(rs[0], j, key, n) + Concat(rs[1..]) == InsertSlot(rs[0] + Concat(rs[1..]), j, key, n);
    } else {
      ConcatInsert(rs[1..], i - 1, j, key, n);
      assert more[1..] == rs[1..][i - 1 := InsertSlot(rs[i], j, key, n)];
      var rest, p := Concat(rs[1..]), Place(rs[1..], i - 1, j);
      assert rs[0] + InsertSlot(rest, p, key, n) == InsertSlot(rs[0] + rest, |rs[0]| + p, key, n);
    }
  }

  lemma {:induction false} InsertLeaves(d: Dir, e: Dir, flat: seq<Slot>, f: nat, key: nat, n: nat, hash: Hash)
    requires f < |flat| && LeavesOk(d, flat) && LeafSplit(d, e, flat[f].block, n, key, hash)
    ensures LeavesOk(e, InsertSlot(flat, f, key, n))
  {
    hide Tiled, Halved, InsertSlot;
    InsertedAt(flat, f, key, n);
  }

  /** The same names before and after. */
  lemma {:induction false} SameNames(d: Dir, e: Dir, flat: seq<Slot>, f: nat, key: nat, n: nat, hash: Hash,
      name: Name)
    requires f < |flat| && Apart(flat) && (forall k :: 0 <= k < |flat| ==> flat[k].block != n)
    requires LeafSplit(d, e, flat[f].block, n, key, hash)
    ensures SomeHolds(d, flat, name) <==> SomeHolds(e, InsertSlot(flat, f, key, n), name)
  {
    hide Holds, LeafSplit, InsertSlot;
    var g := InsertSlot(flat, f, key, n);
    InsertedAt(flat, f, key, n);
    SplitHolds(d, e, flat[f].block, n, key, hash, name);
    if k :| 0 <= k < |flat| && Holds(d, flat[k].block, name) {
      if k == f {
        assert Holds(e, g[f].block, name) || Holds(e, g[f + 1].block, name);
      } else {
        var m := if k < f then k else k + 1;
        assert Old(f, m) == k && g[m] == flat[k];
        assert flat[k].block != flat[f].block;
        assert Holds(e, g[m].block, name);
      }
    }
    if k :| 0 <= k < |g| && Holds(e, g[k].block, name) {
      WasAt(d, e, flat, f, key, n, hash, k, name);
    }
  }

  lemma {:induction false} DirIsSplit(d: Dir, i: nat, j: nat, left: Heads, right: Heads, key: nat, n: nat, hash: Hash)
    requires WF(d, hash) && i < |Rows(d)| && j < |Rows(d)[i]| && Tiled(left, 0, d.size) && Tiled(right, 0, d.size)
    requires forall k :: 0 <= k < |Flat(d)| ==> Flat(d)[k].block != n
    requires Rows(d)[i][j].block in d.leaves && Tiled(d.leaves[Rows(d)[i][j].block], 0, d.size)
    requires Halved(Live(d.leaves[Rows(d)[i][j].block], 0, d.size), Live(left, 0, d.size), Live(right, 0, d.size),
             key, hash)
    ensures LeafSplit(d, SplitDir(d, i, j, left, right, key, n), Rows(d)[i][j].block, n, key, hash)
  {
    hide Tiled, Live, Halved, Concat, Placed;
    PlaceOk(Rows(d), i, j);
  }

  /** Splitting a leaf keeps the index well formed, so every lookup still agrees with a scan of the
      leaves, and neither adds nor loses a name. */
  lemma {:induction false} SplitKeepsIndex(d: Dir, i: nat, j: nat, left: Heads, right: Heads, key: nat, n: nat,
      hash: Hash)
    requires WF(d, hash) && Separate(d) && i < |Rows(d)| && j < |Rows(d)[i]|
    requires |LowNode(d, i).slots| < LowNode(d, i).limit && forall k :: 0 <= k < |Flat(d)| ==> Flat(d)[k].block != n
    requires Rows(d)[i][j].block in d.leaves && Tiled(d.leaves[Rows(d)[i][j].block], 0, d.size)
    requires Tiled(left, 0, d.size) && Tiled(right, 0, d.size)
    requires Halved(Live(d.leaves[Rows(d)[i][j].block], 0, d.size), Live(left, 0, d.size), Live(right, 0, d.size),
             key, hash)
    ensures var e := SplitDir(d, i, j, left, right, key, n);
            WF(e, hash) && Separate(e) && forall name :: InSomeLeaf(e, name) <==> InSomeLeaf(d, name)
  {
    hide Tiled, Live, Halved, Concat, Placed, Ascending, Apart, LeavesOk, InsertSlot, Place, SplitDir, LeafSplit,
      Holds, SomeHolds;
    var e := SplitDir(d, i, j, left, right, key, n);
    var flat, f := Flat(d), Place(Rows(d), i, j);
    RowsInsert(d, i, j, left, right, key, n);
    ConcatInsert(Rows(d), i, j, key, n);
    PlaceOk(Rows(d), i, j);
    DirIsSplit(d, i, j, left, right, key, n, hash);
    KeyBetween(d, e, flat, f, key, n, hash);
    InsertAscends(flat, f, key, n);
    InsertApart(flat, f, key, n);
    InsertPlaced(d, e, flat, f, key, n, hash);
    InsertLeaves(d, e, flat, f, key, n, hash);
    InsertedAt(flat, f, key, n);
    RootApart(d, i, j, left, right, key, n);
    forall name ensures InSomeLeaf(e, name) <==> InSomeLeaf(d, name) {
      SameNames(d, e, flat, f, key, n, hash, name);
    }
  }

  lemma {:induction false} RootApart(d: Dir, i: nat, j: nat, left: Heads, right: Heads, key: nat, n: nat)
    requires Shaped(d) && Separate(d) && i < |Rows(d)| && j < |Rows(d)[i]|
    ensures var e := SplitDir(d, i, j, left, right, key, n);
            e.levels == d.levels && (e.levels == 1 ==> Apart(e.root.slots))
  {
  }
}
