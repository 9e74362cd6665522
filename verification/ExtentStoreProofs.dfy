/** Writes to the block store along the search path: each one is a change to the tree. */
module ExtentStoreProofs {
  import opened Wrappers
  import opened ExtentTree
  import opened ExtentTreeProofs
  import opened ExtentStore
  import opened ExtentSplitProofs
  import opened ExtentPath

  // ---------------------------------------------------------------- one node

  lemma {:induction false} OwnNode(s: Store, x: Tree)
    requires Distinct(x)
    requires x.Index? ==> forall i :: 0 <= i < |x.kids| ==> Rep(s, x.kids[i].sub)
    ensures Rep(s[x.blk := NodeOf(x)], x)
  {
    if x.Index? {
      forall i | 0 <= i < |x.kids| ensures Rep(s[x.blk := NodeOf(x)], x.kids[i].sub) {
        RepFrame(s, s[x.blk := NodeOf(x)], x.kids[i].sub);
      }
    }
  }

  /** Rewriting the node at a place; its children may be old subtrees or already stored new ones. */
  lemma {:induction false} WriteNode(s: Store, t: Tree, path: seq<nat>, m: nat, x: Tree)
    requires Place(t, path, m) && Rep(s, t) && Distinct(t)
    requires Distinct(x) && x.blk == Sub(t, path, m).blk
    requires x.Index? ==> forall i :: 0 <= i < |x.kids| ==> Rep(s, x.kids[i].sub)
    requires Fits(x, Sub(t, path, m), t)
    ensures var r := Replace(t, path, m, x);
            Rep(s[x.blk := NodeOf(x)], r) && Distinct(r) && Swapped(r, t, Sub(t, path, m), x) && r.blk == t.blk
  {
    OwnNode(s, x);
    ReplaceRep(s, s[x.blk := NodeOf(x)], t, path, m, x);
  }

  lemma {:induction false} SwappedShrinks(r: Tree, t: Tree, path: seq<nat>, m: nat, x: Tree)
    requires Place(t, path, m) && Swapped(r, t, Sub(t, path, m), x) && UsesOnly(x, Sub(t, path, m), {})
    ensures UsesOnly(r, t, {})
  {
    forall b | Uses(Sub(t, path, m), b) ensures Uses(t, b) { SubUses(t, path, m, b); }
  }

  // ---------------------------------------------------------------- splitting one node

  /** Blocks of the two halves of a split: the left half uses old blocks only. */
  ghost predicate HalvesApart(u: Tree, l: Tree, r: Tree, extra: set<nat>) {
    && Distinct(l) && Distinct(r) && Apart(l, r)
    && UsesOnly(l, u, {}) && UsesOnly(r, u, extra) && Unused(u, extra)
    && l.blk == u.blk
  }

  lemma {:induction false} SplitDistinct(u: Tree, p: nat, k: nat, l: Tree, r: Tree, nb: nat, extra: set<nat>)
    requires u.Index? && Distinct(u) && p < |u.kids|
    requires HalvesApart(u.kids[p].sub, l, r, extra) && Unused(u, extra) && !Uses(u, nb) && nb !in extra
    ensures HalvesApart(u, Index(u.blk, LeftKids(u.kids, p, l)), Index(nb, RightKids(u.kids, p, k, r)), extra + {nb})
  {
    var a, c := LeftKids(u.kids, p, l), RightKids(u.kids, p, k, r);
    assert forall i :: 0 <= i < p ==> a[i] == u.kids[i];
    assert a[p].sub == l;
    assert c[0].sub == r;
    assert forall i :: 0 < i < |c| ==> c[i] == u.kids[p + i];
    forall i | 0 <= i < p ensures Apart(u.kids[i].sub, l) && Apart(u.kids[i].sub, r) {
      assert Apart(u.kids[i].sub, u.kids[p].sub);
      forall b | Uses(u.kids[i].sub, b) ensures b !in extra { assert Uses(u, b); }
    }
    forall i | p < i < |u.kids| ensures Apart(l, u.kids[i].sub) && Apart(r, u.kids[i].sub) {
      assert Apart(u.kids[p].sub, u.kids[i].sub);
      forall b | Uses(u.kids[i].sub, b) ensures b !in extra { assert Uses(u, b); }
    }
    forall i | 0 <= i < |u.kids| ensures !Uses(u.kids[i].sub, nb) {}
    assert Uses(u, u.blk);
    LeftHalf(u, p, l, a);
    RightHalf(u, p, r, c, nb, extra);
    CrossApart(u, p, l, r, a, c, nb, extra);
  }

  lemma {:induction false} LeftHalf(u: Tree, p: nat, l: Tree, a: seq<Kid>)
    requires u.Index? && Distinct(u) && p < |u.kids| && |a| == p + 1
    requires forall i :: 0 <= i < p ==> a[i] == u.kids[i]
    requires a[p].sub == l && Distinct(l) && UsesOnly(l, u.kids[p].sub, {})
    requires forall i :: 0 <= i < p ==> Apart(u.kids[i].sub, l)
    ensures Distinct(Index(u.blk, a)) && UsesOnly(Index(u.blk, a), u, {})
  {
    var x := Index(u.blk, a);
    forall b | Uses(x, b) ensures Uses(u, b) {
      if b != u.blk {
        var i :| 0 <= i < |a| && Uses(a[i].sub, b);
        assert Uses(u.kids[i].sub, b);
      }
    }
  }

  lemma {:induction false} RightHalf(u: Tree, p: nat, r: Tree, c: seq<Kid>, nb: nat, extra: set<nat>)
    requires u.Index? && Distinct(u) && p < |u.kids| && |c| == |u.kids| - p && !Uses(u, nb) && nb !in extra
    requires forall i :: 0 < i < |c| ==> c[i] == u.kids[p + i]
    requires c[0].sub == r && Distinct(r) && UsesOnly(r, u.kids[p].sub, extra)
    requires forall i :: p < i < |u.kids| ==> Apart(r, u.kids[i].sub)
    ensures Distinct(Index(nb, c)) && UsesOnly(Index(nb, c), u, extra + {nb})
  {
    var x := Index(nb, c);
    forall b | Uses(x, b) ensures Uses(u, b) || b in extra + {nb} {
      if b != nb {
        var i :| 0 <= i < |c| && Uses(c[i].sub, b);
        if i > 0 { assert Uses(u.kids[p + i].sub, b); }
      }
    }
    forall i | 0 <= i < |c| ensures !Uses(c[i].sub, nb) {
      if i > 0 { assert !Uses(u.kids[p + i].sub, nb); }
    }
    forall i, j | 0 <= i < j < |c| ensures Apart(c[i].sub, c[j].sub) {
      assert c[j].sub == u.kids[p + j].sub;
      if i > 0 { assert Apart(u.kids[p + i].sub, u.kids[p + j].sub); }
    }
  }

  lemma {:induction false} CrossApart(u: Tree, p: nat, l: Tree, r: Tree, a: seq<Kid>, c: seq<Kid>, nb: nat,
      extra: set<nat>)
    requires u.Index? && Distinct(u) && p < |u.kids| && |a| == p + 1 && |c| == |u.kids| - p && !Uses(u, nb)
    requires forall i :: 0 <= i < p ==> a[i] == u.kids[i]
    requires forall i :: 0 < i < |c| ==> c[i] == u.kids[p + i]
    requires a[p].sub == l && c[0].sub == r && Apart(l, r) && UsesOnly(l, u.kids[p].sub, {})
    requires UsesOnly(r, u.kids[p].sub, extra) && Unused(u, extra)
    requires forall i :: 0 <= i < p ==> Apart(u.kids[i].sub, r)
    requires forall i :: p < i < |u.kids| ==> Apart(l, u.kids[i].sub)
    ensures Apart(Index(u.blk, a), Index(nb, c))
  {
    forall i, j | 0 <= i < |a| && 0 <= j < |c| ensures Apart(a[i].sub, c[j].sub) {
      if j > 0 && i < p { assert Apart(u.kids[i].sub, u.kids[p + j].sub); }
    }
    forall j | 0 <= j < |c| ensures !Uses(c[j].sub, u.blk) {
      assert Uses(u, u.blk);
    }
    forall i | 0 <= i < |a| ensures !Uses(a[i].sub, nb) {
      assert !Uses(u.kids[i].sub, nb);
    }
  }

  /** The store after one step of ext4_ext_split_node holds both halves of the node. */
  lemma {:induction false} SplitRep(s: Store, u: Tree, p: nat, k: nat, l: Tree, r: Tree, nb: nat, extra: set<nat>)
    requires u.Index? && Distinct(u) && p < |u.kids|
    requires HalvesApart(u.kids[p].sub, l, r, extra) && Unused(u, extra) && !Uses(u, nb) && nb !in extra
    requires forall i :: 0 <= i < |u.kids| && i != p ==> Rep(s, u.kids[i].sub)
    requires Rep(s, l) && Rep(s, r)
    ensures var x, y := Index(u.blk, LeftKids(u.kids, p, l)), Index(nb, RightKids(u.kids, p, k, r));
            Rep(s[nb := NodeOf(y)][u.blk := NodeOf(x)], x) && Rep(s[nb := NodeOf(y)][u.blk := NodeOf(x)], y)
  {
    var x, y := Index(u.blk, LeftKids(u.kids, p, l)), Index(nb, RightKids(u.kids, p, k, r));
    SplitDistinct(u, p, k, l, r, nb, extra);
    forall i | 0 <= i < |y.kids| ensures Rep(s, y.kids[i].sub) {
      if i > 0 { assert y.kids[i] == u.kids[p + i]; }
    }
    OwnNode(s, y);
    var s1 := s[nb := NodeOf(y)];
    forall i | 0 <= i < |x.kids| ensures Rep(s1, x.kids[i].sub) {
      assert x.kids[i].sub == if i < p then u.kids[i].sub else l;
      assert !Uses(u.kids[i].sub, nb);
      RepFrame(s, s1, x.kids[i].sub);
    }
    OwnNode(s1, x);
    assert Uses(x, u.blk);
    RepFrame(s1, s1[u.blk := NodeOf(x)], y);
  }

  /** Splitting the leaf itself. */
  lemma {:induction false} SplitLeafRep(s: Store, u: Tree, n: nat, nb: nat)
    requires u.Leaf? && n <= |u.exts| && nb != u.blk
    ensures var x, y := Leaf(u.blk, u.exts[..n]), Leaf(nb, u.exts[n..]);
            && HalvesApart(u, x, y, {nb})
            && Rep(s[nb := NodeOf(y)][u.blk := NodeOf(x)], x) && Rep(s[nb := NodeOf(y)][u.blk := NodeOf(x)], y)
  {
  }

  /** The subtrees of a node whose child p was replaced by two halves. */
  function Joined(u: Tree, p: nat, l: Tree, r: Tree, i: nat): Tree
    requires u.Index? && p < |u.kids| && i <= |u.kids|
  {
    if i < p then u.kids[i].sub else if i == p then l else if i == p + 1 then r else u.kids[i - 1].sub
  }

  /** Both halves as children of one node. */
  lemma {:induction false} JoinDistinct(u: Tree, p: nat, k: nat, l: Tree, r: Tree, extra: set<nat>)
    requires u.Index? && Distinct(u) && p < |u.kids|
    requires HalvesApart(u.kids[p].sub, l, r, extra) && Unused(u, extra)
    ensures var x := Index(u.blk, LeftKids(u.kids, p, l) + RightKids(u.kids, p, k, r));
            Distinct(x) && UsesOnly(x, u, extra)
  {
    var j := LeftKids(u.kids, p, l) + RightKids(u.kids, p, k, r);
    forall i | 0 <= i < |j| ensures j[i].sub == Joined(u, p, l, r, i) {}
    forall i | 0 <= i < p ensures Apart(u.kids[i].sub, l) && Apart(u.kids[i].sub, r) {
      assert Apart(u.kids[i].sub, u.kids[p].sub);
      forall b | Uses(u.kids[i].sub, b) ensures b !in extra { assert Uses(u, b); }
    }
    forall i | p < i < |u.kids| ensures Apart(l, u.kids[i].sub) && Apart(r, u.kids[i].sub) {
      assert Apart(u.kids[p].sub, u.kids[i].sub);
      forall b | Uses(u.kids[i].sub, b) ensures b !in extra { assert Uses(u, b); }
    }
    JoinPairs(u, p, l, r, j);
    JoinUses(u, p, l, r, j, extra);
  }

  lemma {:induction false} JoinUses(u: Tree, p: nat, l: Tree, r: Tree, j: seq<Kid>, extra: set<nat>)
    requires u.Index? && Distinct(u) && p < |u.kids| && |j| == |u.kids| + 1
    requires UsesOnly(l, u.kids[p].sub, {}) && UsesOnly(r, u.kids[p].sub, extra) && Unused(u, extra)
    requires forall i {:trigger j[i]} :: 0 <= i < |j| ==> j[i].sub == Joined(u, p, l, r, i)
    ensures UsesOnly(Index(u.blk, j), u, extra)
    ensures forall i :: 0 <= i < |j| ==> !Uses(j[i].sub, u.blk)
  {
    assert Uses(u, u.blk);
    forall i, b | 0 <= i < |j| && Uses(j[i].sub, b) ensures (Uses(u, b) && b != u.blk) || b in extra {
      var c := if i < p then i else if i <= p + 1 then p else i - 1;
      assert Uses(u.kids[c].sub, b) || b in extra;
    }
  }

  lemma {:induction false} JoinPairs(u: Tree, p: nat, l: Tree, r: Tree, j: seq<Kid>)
    requires u.Index? && Distinct(u) && p < |u.kids| && |j| == |u.kids| + 1 && Apart(l, r)
    requires forall i {:trigger j[i]} :: 0 <= i < |j| ==> j[i].sub == Joined(u, p, l, r, i)
    requires forall i :: 0 <= i < p ==> Apart(u.kids[i].sub, l) && Apart(u.kids[i].sub, r)
    requires forall i :: p < i < |u.kids| ==> Apart(l, u.kids[i].sub) && Apart(r, u.kids[i].sub)
    ensures forall i, k :: 0 <= i < k < |j| ==> Apart(j[i].sub, j[k].sub)
  {
    forall i, k | 0 <= i < k < |j| ensures Apart(j[i].sub, j[k].sub) {
      if k < p {
        assert Apart(u.kids[i].sub, u.kids[k].sub);
      } else if k > p + 1 {
        var c := k - 1;
        assert j[k].sub == u.kids[c].sub;
        if i < p { assert Apart(u.kids[i].sub, u.kids[c].sub); }
        if i > p + 1 { assert Apart(u.kids[i - 1].sub, u.kids[c].sub); }
      }
    }
  }

  ghost function First(spare: seq<nat>, n: nat): set<nat>
    requires n <= |spare|
  {
    set i | 0 <= i < n :: spare[i]
  }

  /** Spare blocks: no block twice, none in use. */
  ghost predicate SpareOk(spare: seq<nat>, t: Tree) {
    && (forall i, j :: 0 <= i < j < |spare| ==> spare[i] != spare[j])
    && (forall i :: 0 <= i < |spare| ==> !Uses(t, spare[i]))
  }

  lemma {:induction false} FirstNext(spare: seq<nat>, n: nat, t: Tree)
    requires n < |spare| && SpareOk(spare, t)
    ensures First(spare, n + 1) == First(spare, n) + {spare[n]}
    ensures spare[n] !in First(spare, n) && Unused(t, First(spare, n + 1))
  {
  }

  /** The halves of a whole split path use old blocks and the first d + 1 spare ones. */
  lemma {:induction false} SplitApart(t: Tree, e: Extent, d: nat, spare: seq<nat>)
    requires Solid(t) && Shape(t, d) && Distinct(t) && d < |spare| && SpareOk(spare, t)
    ensures var h := Split(t, e, d, spare);
            HalvesApart(t, h.left, h.right, First(spare, d + 1))
    decreases t
  {
    FirstNext(spare, d, t);
    if t.Index? {
      var p := Pos(Keys(t.kids), e.first);
      assert SpareOk(spare, t.kids[p].sub);
      SplitApart(t.kids[p].sub, e, d - 1, spare);
      SplitApartStep(t, e, d, spare, p);
    }
  }

  lemma {:induction false} SplitApartStep(t: Tree, e: Extent, d: nat, spare: seq<nat>, p: nat)
    requires Solid(t) && Shape(t, d) && t.Index? && Distinct(t) && d < |spare| && SpareOk(spare, t)
    requires p == Pos(Keys(t.kids), e.first)
    requires var h := Split(t.kids[p].sub, e, d - 1, spare);
             HalvesApart(t.kids[p].sub, h.left, h.right, First(spare, d))
    ensures var h := Split(t, e, d, spare);
            HalvesApart(t, h.left, h.right, First(spare, d + 1))
  {
    hide Apart, Distinct, SpareOk, Uses;
    FirstNext(spare, d, t);
    var h := Split(t.kids[p].sub, e, d - 1, spare);
    SplitDistinct(t, p, SplitKey(t, e), h.left, h.right, spare[d], First(spare, d));
  }

  lemma {:induction false} RekeyedDistinct(u: Tree, p: nat, border: Option<nat>)
    requires u.Index? && p < |u.kids| && Distinct(u)
    ensures Distinct(Rekeyed(u, p, border)) && UsesOnly(Rekeyed(u, p, border), u, {})
  {
    var x := Rekeyed(u, p, border);
    assert forall i :: 0 <= i < |u.kids| ==> x.kids[i].sub == u.kids[i].sub;
    forall b | Uses(x, b) ensures Uses(u, b) {
      if b != u.blk {
        var i :| 0 <= i < |x.kids| && Uses(x.kids[i].sub, b);
        assert Uses(u.kids[i].sub, b);
      }
    }
  }

  lemma {:induction false} SpareKept(spare: seq<nat>, t: Tree, x: Tree)
    requires SpareOk(spare, t) && UsesOnly(x, t, {})
    ensures SpareOk(spare, x)
  {
  }
}
