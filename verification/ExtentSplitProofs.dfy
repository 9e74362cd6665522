/** Splitting and growing: they keep every extent, keep the tree well formed, and leave room
    exactly where the next attempt to insert will look. */
module ExtentSplitProofs {
  import opened ExtentTree
  import opened ExtentTreeProofs
  import opened ExtentInsertProofs

  lemma {:induction false} PosUnique(ks: seq<nat>, b: nat, p: nat)
    requires p < |ks| && (p == 0 || ks[p] <= b) && (forall j :: p < j < |ks| ==> b < ks[j])
    ensures Pos(ks, b) == p
  {
  }

  // ---------------------------------------------------------------- cutting a list of children

  lemma {:induction false} KidsConcat(a: seq<Kid>, b: seq<Kid>, d: nat, lo: nat, hi: nat)
    requires b != [] && KidsOk(a, d, lo, b[0].key) && KidsOk(b, d, b[0].key, hi)
    ensures KidsOk(a + b, d, lo, hi)
  {
    var c := a + b;
    assert lo <= a[0].key < b[0].key < hi;
    assert forall i :: 0 <= i < |c| ==> c[i] == if i < |a| then a[i] else b[i - |a|];
    forall i | 0 <= i < |c| ensures WF(c[i].sub, d, c[i].key, Limit(c, i, hi)) {
      if i < |a| {
        assert c[i] == a[i] && Limit(c, i, hi) == Limit(a, i, b[0].key);
      } else {
        assert c[i] == b[i - |a|] && Limit(c, i, hi) == Limit(b, i - |a|, hi);
      }
    }
  }

  lemma {:induction false} LeftKidsOk(kids: seq<Kid>, d: nat, lo: nat, hi: nat, p: nat, k: nat, l: Tree)
    requires KidsOk(kids, d, lo, hi) && p < |kids|
    requires WF(l, d, kids[p].key, k) && kids[p].key < k
    ensures KidsOk(LeftKids(kids, p, l), d, lo, k)
  {
    var c := LeftKids(kids, p, l);
    forall i | 0 <= i < |c| ensures WF(c[i].sub, d, c[i].key, Limit(c, i, k)) {
      if i < p {
        assert c[i] == kids[i] && Limit(c, i, k) == Limit(kids, i, hi);
      }
    }
  }

  lemma {:induction false} RightKidsOk(kids: seq<Kid>, d: nat, lo: nat, hi: nat, p: nat, k: nat, r: Tree)
    requires KidsOk(kids, d, lo, hi) && p < |kids|
    requires WF(r, d, k, Limit(kids, p, hi)) && k < Limit(kids, p, hi)
    ensures KidsOk(RightKids(kids, p, k, r), d, k, hi)
  {
    var c := RightKids(kids, p, k, r);
    assert forall i :: 0 < i < |c| ==> c[i] == kids[p + i];
    forall i | 0 <= i < |c| ensures WF(c[i].sub, d, c[i].key, Limit(c, i, hi)) {
      assert Limit(c, i, hi) == Limit(kids, p + i, hi);
    }
  }

  // ---------------------------------------------------------------- splitting a full path

  /** A leaf that is full, and an extent that fits it: where the split key falls. */
  lemma {:induction false} LeafSplitKey(exts: seq<Extent>, lo: nat, hi: nat, e: Extent)
    requires LeafOk(exts, lo, hi) && |exts| >= 2 && e.Written() && NoOverlap(exts, e) && e.End() <= hi
    ensures var p := Pos(Firsts(exts), e.first);
            var k := if p + 1 < |exts| then exts[p + 1].first else e.first;
            && lo < k < hi && exts[p].End() <= k && (e.first < k ==> p + 1 < |exts| && e.End() <= k)
            && LeafOk(exts[..p + 1], lo, k) && LeafOk(exts[p + 1..], k, hi)
  {
    hide NoOverlap, Pos, LeafOk;
    Neighbours(exts, lo, hi, e);
    var p := Pos(Firsts(exts), e.first);
    LeafEntry(exts, lo, hi, 0);
    LeafEntry(exts, lo, hi, p);
    if p + 1 < |exts| { LeafEntry(exts, lo, hi, p + 1); }
    LeafCut(exts, lo, hi, p, if p + 1 < |exts| then exts[p + 1].first else e.first);
  }

  lemma {:induction false} LeafEntry(exts: seq<Extent>, lo: nat, hi: nat, i: nat)
    requires LeafOk(exts, lo, hi) && i < |exts|
    ensures exts[i].Written() && lo <= exts[i].first && exts[i].End() <= hi
    ensures (0 < i ==> exts[0].End() <= exts[i].first) && (i + 1 < |exts| ==> exts[i].End() <= exts[i + 1].first)
  {
  }

  lemma {:induction false} LeafCut(exts: seq<Extent>, lo: nat, hi: nat, p: nat, k: nat)
    requires LeafOk(exts, lo, hi) && p < |exts| && exts[p].End() <= k && (p + 1 < |exts| ==> k <= exts[p + 1].first)
    ensures LeafOk(exts[..p + 1], lo, k) && LeafOk(exts[p + 1..], k, hi)
  {
    var r := exts[p + 1..];
    assert forall i :: 0 <= i < |r| ==> r[i] == exts[p + 1 + i];
    assert forall i :: p + 1 <= i < |exts| ==> k <= exts[i].first;
    assert forall i :: 0 <= i < p + 1 ==> exts[i].End() <= k;
  }

  lemma {:induction false} SplitKeyBelow(t: Tree, e: Extent)
    requires Solid(t) && t.Index?
    ensures SplitKey(t, e) == SplitKey(t.kids[Pos(Keys(t.kids), e.first)].sub, e)
  {
  }

  ghost predicate SplitReady(t: Tree, d: nat, lo: nat, hi: nat, e: Extent, b: nat)
  {
    && WF(t, d, lo, hi) && Solid(t) && Shape(t, d)
    && b >= 2 && Full(t, e.first, b, b)
    && InRange(t, e, hi)
  }

  lemma {:induction false} SplitReadyBelow(t: Tree, d: nat, lo: nat, hi: nat, e: Extent, b: nat)
    requires SplitReady(t, d, lo, hi, e, b) && t.Index?
    ensures var p := Pos(Keys(t.kids), e.first);
            SplitReady(t.kids[p].sub, d - 1, t.kids[p].key, Limit(t.kids, p, hi), e, b)
  {
    assert KidsOk(t.kids, d - 1, lo, hi);
    ApartBelow(t.kids, Pos(Keys(t.kids), e.first), e);
  }

  /** Both halves are well formed on their side of the split key. */
  lemma {:induction false} SplitOk(t: Tree, d: nat, lo: nat, hi: nat, e: Extent, b: nat, spare: seq<nat>)
    requires SplitReady(t, d, lo, hi, e, b) && d < |spare|
    ensures var h := Split(t, e, d, spare);
            && lo < SplitKey(t, e) < hi
            && WF(h.left, d, lo, SplitKey(t, e)) && WF(h.right, d, SplitKey(t, e), hi)
    decreases t
  {
    hide LeafOk, KidsOk, InRange, Split, SplitKey, Full;
    if t.Leaf? {
      SplitLeafOk(t, lo, hi, e, b, spare);
    } else {
      var kids := t.kids;
      var p := Pos(Keys(kids), e.first);
      SplitReadyBelow(t, d, lo, hi, e, b);
      SplitOk(kids[p].sub, d - 1, kids[p].key, Limit(kids, p, hi), e, b, spare);
      SplitStep(t, d, lo, hi, e, p, spare);
    }
  }

  lemma {:induction false} SplitLeafOk(t: Tree, lo: nat, hi: nat, e: Extent, b: nat, spare: seq<nat>)
    requires SplitReady(t, 0, lo, hi, e, b) && spare != []
    ensures var h := Split(t, e, 0, spare);
            && lo < SplitKey(t, e) < hi
            && WF(h.left, 0, lo, SplitKey(t, e)) && WF(h.right, 0, SplitKey(t, e), hi)
  {
    hide Appends, CanAppend, CanPrepend, Firsts, FlatKids, KidsOk, LeafOk, LeftKids, NoOverlap, Pos, Prepends,
      RightKids, Shape, Solid;
    LeafSplitKey(t.exts, lo, hi, e);
  }

  lemma {:induction false} SplitStep(t: Tree, d: nat, lo: nat, hi: nat, e: Extent, p: nat, spare: seq<nat>)
    requires t.Index? && Solid(t) && Shape(t, d) && d < |spare|
    requires KidsOk(t.kids, d - 1, lo, hi) && p == Pos(Keys(t.kids), e.first)
    requires var h := Split(t.kids[p].sub, e, d - 1, spare);
             var k := SplitKey(t.kids[p].sub, e);
             && t.kids[p].key < k < Limit(t.kids, p, hi)
             && WF(h.left, d - 1, t.kids[p].key, k) && WF(h.right, d - 1, k, Limit(t.kids, p, hi))
    ensures var h := Split(t, e, d, spare);
            && lo < SplitKey(t, e) < hi
            && WF(h.left, d, lo, SplitKey(t, e)) && WF(h.right, d, SplitKey(t, e), hi)
  {
    hide LeafOk, LeafAt;
    SplitKeyBelow(t, e);
    var h := Split(t.kids[p].sub, e, d - 1, spare);
    LeftKidsOk(t.kids, d - 1, lo, hi, p, SplitKey(t, e), h.left);
    RightKidsOk(t.kids, d - 1, lo, hi, p, SplitKey(t, e), h.right);
  }

  /** Splitting loses and moves nothing in the order of the extents. */
  lemma {:induction false} SplitFlat(t: Tree, d: nat, e: Extent, spare: seq<nat>)
    requires Solid(t) && Shape(t, d) && d < |spare|
    ensures var h := Split(t, e, d, spare); Flat(h.left) + Flat(h.right) == Flat(t)
    decreases t
  {
    if t.Index? {
      var kids := t.kids;
      var p := Pos(Keys(kids), e.first);
      SplitFlat(kids[p].sub, d - 1, e, spare);
      var h := Split(kids[p].sub, e, d - 1, spare);
      SplitKidsFlat(kids, p, SplitKey(t, e), h.left, h.right);
    }
  }

  lemma {:induction false} SplitKidsFlat(kids: seq<Kid>, p: nat, k: nat, l: Tree, r: Tree)
    requires p < |kids| && Flat(l) + Flat(r) == Flat(kids[p].sub)
    ensures FlatKids(LeftKids(kids, p, l)) + FlatKids(RightKids(kids, p, k, r)) == FlatKids(kids)
  {
    FlatKidsConcat(kids[..p], [Kid(kids[p].key, l)]);
    FlatKidsOne(Kid(kids[p].key, l));
    FlatKidsConcat([Kid(k, r)], kids[p + 1..]);
    FlatKidsOne(Kid(k, r));
    FlatAround(kids, p);
  }

  lemma {:induction false} SplitWithin(t: Tree, d: nat, e: Extent, b: nat, spare: seq<nat>)
    requires Solid(t) && Shape(t, d) && Within(t, b, b) && d < |spare|
    ensures Within(Split(t, e, d, spare).left, b, b) && Within(Split(t, e, d, spare).right, b, b)
    decreases t
  {
    if t.Index? {
      var p := Pos(Keys(t.kids), e.first);
      SplitWithin(t.kids[p].sub, d - 1, e, b, spare);
    }
  }

  // ---------------------------------------------------------------- where the next attempt goes

  /** The tree that the new extent descends to after a split. */
  function Side(h: Halves, k: nat, e: Extent): Tree { if e.first < k then h.left else h.right }

  lemma {:induction false} LeftPos(kids: seq<Kid>, p: nat, l: Tree, b: nat)
    requires kids != [] && p == Pos(Keys(kids), b)
    ensures Pos(Keys(LeftKids(kids, p, l)), b) == p
  {
    var ks := Keys(LeftKids(kids, p, l));
    assert ks[p] == Keys(kids)[p];
    PosUnique(ks, b, p);
  }

  lemma {:induction false} RightPos(kids: seq<Kid>, p: nat, k: nat, r: Tree, b: nat)
    requires kids != [] && p == Pos(Keys(kids), b)
    ensures Pos(Keys(RightKids(kids, p, k, r)), b) == 0
  {
    var c := RightKids(kids, p, k, r);
    forall j | 0 < j < |c| ensures b < Keys(c)[j] {
      assert c[j] == kids[p + j];
      assert Keys(c)[j] == Keys(kids)[p + j];
    }
    PosUnique(Keys(c), b, 0);
  }

  lemma {:induction false} BothPos(kids: seq<Kid>, p: nat, k: nat, l: Tree, r: Tree, b: nat)
    requires kids != [] && p == Pos(Keys(kids), b)
    ensures Pos(Keys(LeftKids(kids, p, l) + RightKids(kids, p, k, r)), b) == if b < k then p else p + 1
  {
    var a, c := LeftKids(kids, p, l), RightKids(kids, p, k, r);
    forall j | p + 1 < j < |a + c| ensures b < Keys(a + c)[j] {
      assert (a + c)[j] == kids[j - 1];
      assert Keys(a + c)[j] == Keys(kids)[j - 1];
    }
    assert Keys(a + c)[p] == Keys(kids)[p];
    assert Keys(a + c)[p + 1] == k;
    PosUnique(Keys(a + c), b, if b < k then p else p + 1);
  }

  /** The side that the new extent belongs to has a free leaf entry and still accepts it. */
  lemma {:induction false} SplitSide(t: Tree, d: nat, lo: nat, hi: nat, e: Extent, b: nat, spare: seq<nat>)
    requires SplitReady(t, d, lo, hi, e, b) && Within(t, b, b) && d < |spare|
    ensures var k := SplitKey(t, e);
            var s := Side(Split(t, e, d, spare), k, e);
            && Solid(s) && Roomy(s, e, b, b)
            && e.End() <= LeafLimit(s, e.first, if e.first < k then k else hi)
            && !Prepends(LeafAt(s, e.first), e)
    decreases t
  {
    hide LeafOk, KidsOk, InRange, LeafLimit, Full, Split, Roomy, LeafAt, Prepends;
    SplitSolid(t, d, e, spare);
    if t.Leaf? {
      SideLeaf(t, lo, hi, e, b, spare);
    } else {
      var kids := t.kids;
      var p := Pos(Keys(kids), e.first);
      SplitReadyBelow(t, d, lo, hi, e, b);
      SplitSide(kids[p].sub, d - 1, kids[p].key, Limit(kids, p, hi), e, b, spare);
      SplitSideStep(t, d, hi, e, p, b, spare);
    }
  }

  lemma {:induction false} SideLeaf(t: Tree, lo: nat, hi: nat, e: Extent, b: nat, spare: seq<nat>)
    requires SplitReady(t, 0, lo, hi, e, b) && Within(t, b, b) && spare != []
    ensures var k := SplitKey(t, e);
            var s := Side(Split(t, e, 0, spare), k, e);
            && Roomy(s, e, b, b) && e.End() <= LeafLimit(s, e.first, if e.first < k then k else hi)
            && !Prepends(LeafAt(s, e.first), e)
  {
    hide LeafOk, Limit, CanAppend, NoOverlap, Pos, Shape;
    LeafSplitKey(t.exts, lo, hi, e);
    var p := Pos(Firsts(t.exts), e.first);
    var l := t.exts[..p + 1];
    assert Firsts(l)[p] == Firsts(t.exts)[p];
    PosUnique(Firsts(l), e.first, p);
  }

  lemma {:induction false} SplitSolid(t: Tree, d: nat, e: Extent, spare: seq<nat>)
    requires Solid(t) && Shape(t, d) && d < |spare|
    ensures var h := Split(t, e, d, spare); Solid(h.left) && Solid(h.right)
    decreases t
  {
    if t.Index? {
      SplitSolid(t.kids[Pos(Keys(t.kids), e.first)].sub, d - 1, e, spare);
    }
  }

  lemma {:induction false} SplitSideStep(t: Tree, d: nat, hi: nat, e: Extent, p: nat, b: nat, spare: seq<nat>)
    requires Solid(t) && Shape(t, d) && t.Index? && d < |spare| && p == Pos(Keys(t.kids), e.first)
    requires var k := SplitKey(t.kids[p].sub, e);
             var s := Side(Split(t.kids[p].sub, e, d - 1, spare), k, e);
             && Solid(s) && Roomy(s, e, b, b)
             && e.End() <= LeafLimit(s, e.first, if e.first < k then k else Limit(t.kids, p, hi))
             && !Prepends(LeafAt(s, e.first), e)
    requires var h := Split(t, e, d, spare); Solid(h.left) && Solid(h.right)
    ensures var k := SplitKey(t, e);
            var s := Side(Split(t, e, d, spare), k, e);
            && Roomy(s, e, b, b)
            && e.End() <= LeafLimit(s, e.first, if e.first < k then k else hi)
            && !Prepends(LeafAt(s, e.first), e)
  {
    SplitKeyBelow(t, e);
    var k := SplitKey(t, e);
    var h := Split(t.kids[p].sub, e, d - 1, spare);
    if e.first < k {
      LeftPos(t.kids, p, h.left, e.first);
    } else {
      RightPos(t.kids, p, k, h.right, e.first);
    }
  }
}
