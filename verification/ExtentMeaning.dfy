/** What insertion means for lookups: exactly the new range is added - unless the extent is taken by
    the prepend branch - and what running out of blocks half way through a split costs. */
module ExtentMeaning {
  import opened Wrappers
  import opened ExtentTree
  import opened ExtentTreeProofs
  import opened ExtentInsertProofs
  import opened ExtentSplitProofs
  import opened ExtentRoomProofs
  import opened ExtentStore
  import opened ExtentPath
  import opened ExtentKeys

  /** Looking b up in s' gives the new range where e covers b and the old answer elsewhere. */
  ghost predicate AddsRange(s: seq<Extent>, s': seq<Extent>, e: Extent) {
    forall b: nat :: Scan(s', b) == if e.Covers(b) then Some(e.start + (b - e.first)) else Scan(s, b)
  }

  lemma {:induction false} ScanParts(a: seq<Extent>, x: Extent, c: seq<Extent>, b: nat)
    ensures Scan(a + [x] + c, b) ==
            if Scan(a, b).Some? then Scan(a, b) else if x.Covers(b) then Some(x.start + (b - x.first)) else Scan(c, b)
  {
    ScanConcat(a + [x], c, b);
    ScanConcat(a, [x], b);
  }

  lemma {:induction false} AddedScan(s: seq<Extent>, s': seq<Extent>, e: Extent, k: nat, b: nat)
    requires NoOverlap(s, e) && AddedAt(s, s', e, k)
    ensures Scan(s', b) == if e.Covers(b) then Some(e.start + (b - e.first)) else Scan(s, b)
  {
    ScanParts(s[..k], e, s[k..], b);
    assert s[..k] + s[k..] == s;
    ScanConcat(s[..k], s[k..], b);
    if e.Covers(b) {
      ScanMiss(s[..k], b);
    }
  }

  lemma {:induction false} MergedScan(s: seq<Extent>, s': seq<Extent>, e: Extent, k: nat, b: nat)
    requires NoOverlap(s, e) && MergedAt(s, s', e, k)
    ensures Scan(s', b) == if e.Covers(b) then Some(e.start + (b - e.first)) else Scan(s, b)
  {
    var x := s[k];
    assert s == s[..k] + [x] + s[k + 1..];
    assert s' == s[..k] + [Merge(x, e)] + s[k + 1..];
    ScanParts(s[..k], x, s[k + 1..], b);
    ScanParts(s[..k], Merge(x, e), s[k + 1..], b);
    if e.Covers(b) {
      ScanMiss(s[..k], b);
    }
  }

  /** A list that gained e maps e's blocks to e's physical blocks and every other block as before. */
  lemma {:induction false} InsertedAddsRange(s: seq<Extent>, s': seq<Extent>, e: Extent)
    requires NoOverlap(s, e) && Inserted(s, s', e)
    ensures AddsRange(s, s', e)
  {
    var k :| AddedAt(s, s', e, k) || MergedAt(s, s', e, k);
    forall b: nat ensures Scan(s', b) == if e.Covers(b) then Some(e.start + (b - e.first)) else Scan(s, b) {
      if AddedAt(s, s', e, k) { AddedScan(s, s', e, k, b); } else { MergedScan(s, s', e, k, b); }
    }
  }

  // ---------------------------------------------------------------- the prepend branch

  ghost predicate PrependedAt(s: seq<Extent>, s': seq<Extent>, e: Extent, k: nat) {
    k < |s| && CanPrepend(s[k], e) && s' == s[k := Extent(e.first, s[k].len + e.len, s[k].start)]
  }

  lemma {:induction false} PrependFlat(t: Tree, e: Extent) returns (k: nat)
    requires Solid(t) && Prepends(LeafAt(t, e.first), e)
    ensures PrependedAt(Flat(t), Flat(Insert(t, e).tree), e, k) && Insert(t, e).border == None
    decreases t
  {
    hide Appends, FlatKids;
    if t.Leaf? {
      k := Pos(Firsts(t.exts), e.first);
    } else {
      var p := Pos(Keys(t.kids), e.first);
      var sub := t.kids[p].sub;
      var j := PrependFlat(sub, e);
      var y := Insert(sub, e).tree;
      FlatAround(t.kids, p);
      FlatReplace(t.kids, p, Kid(t.kids[p].key, y));
      k := |FlatKids(t.kids[..p])| + j;
      PrependedWithin(FlatKids(t.kids[..p]), Flat(sub), Flat(y), FlatKids(t.kids[p + 1..]), e, j);
    }
  }

  lemma {:induction false} PrependedWithin(a: seq<Extent>, s: seq<Extent>, s': seq<Extent>, c: seq<Extent>, e: Extent,
      k: nat)
    requires PrependedAt(s, s', e, k)
    ensures PrependedAt(a + s + c, a + s' + c, e, |a| + k)
  {
    assert (a + s + c)[|a| + k] == s[k];
  }

  /** The prepend branch maps the first new block to the start of the old extent. */
  lemma {:induction false} PrependedWrong(s: seq<Extent>, s': seq<Extent>, e: Extent, k: nat)
    requires NoOverlap(s, e) && e.Written() && PrependedAt(s, s', e, k)
    ensures Scan(s', e.first) == Some(e.start + e.len) && !AddsRange(s, s', e)
  {
    ScanAt(s', e.first, k);
    assert e.Covers(e.first);
  }

  lemma {:induction false} PrependHit(exts: seq<Extent>, e: Extent)
    requires e.len > 0 && Prepends(exts, e)
    ensures Hit(PutLeaf(exts, e), e.first) == Some(e.start + e.len) && LeafBorder(exts, e) == None
  {
    var p := Pos(Firsts(exts), e.first);
    var r := PutLeaf(exts, e);
    forall j | p < j < |r| ensures e.first < Firsts(r)[j] {
      assert Firsts(r)[j] == Firsts(exts)[j];
    }
    PosUnique(Firsts(r), e.first, p);
  }

  /** After the prepend branch a lookup of the new block gives the block behind the new extent. */
  lemma {:induction false} PrependFind(t: Tree, e: Extent)
    requires Solid(t) && e.len > 0 && Prepends(LeafAt(t, e.first), e)
    ensures var r := Insert(t, e); r.border == None && Solid(r.tree) && Find(r.tree, e.first) == Some(e.start + e.len)
    decreases t
  {
    if t.Leaf? {
      PrependHit(t.exts, e);
    } else {
      PrependFind(t.kids[Pos(Keys(t.kids), e.first)].sub, e);
      assert Keys(Insert(t, e).tree.kids) == Keys(t.kids);
    }
  }

  /** For a written extent that overlaps nothing, insertion adds exactly its range if and only if the
      prepend branch is not taken. */
  lemma {:induction false} InsertRightIff(t: Tree, d: nat, lo: nat, hi: nat, e: Extent)
    requires WF(t, d, lo, hi) && Solid(t) && Settled(t)
    requires e.Written() && e.End() <= hi && NoOverlap(Flat(t), e)
    ensures AddsRange(Flat(t), Flat(Insert(t, e).tree), e) <==> !Prepends(LeafAt(t, e.first), e)
  {
    hide WF, Flat, Tight, AddsRange, Inserted;
    if Prepends(LeafAt(t, e.first), e) {
      var k := PrependFlat(t, e);
      PrependedWrong(Flat(t), Flat(Insert(t, e).tree), e, k);
    } else {
      InsertAdds(t, d, lo, hi, e);
      InsertedAddsRange(Flat(t), Flat(Insert(t, e).tree), e);
    }
  }

  /** The branch is reachable: one extent [10,12) at 100, then [9,10) at 99. */
  lemma PrependExample()
    ensures var t, e := Leaf(0, [Extent(10, 2, 100)]), Extent(9, 1, 99);
            && WF(t, 0, 0, 20) && NoOverlap(Flat(t), e) && Prepends(LeafAt(t, 9), e)
            && Find(Insert(t, e).tree, 9) == Some(100)
  {
    var t, e := Leaf(0, [Extent(10, 2, 100)]), Extent(9, 1, 99);
    assert Pos(Firsts(t.exts), 9) == 0;
    assert Insert(t, e).tree.exts == [Extent(9, 3, 100)];
    assert Pos(Firsts([Extent(9, 3, 100)]), 9) == 0;
  }

  // ---------------------------------------------------------------- giving up half way

  /** No leaf is empty. */
  ghost predicate Packed(t: Tree)
    decreases t
  {
    match t
    case Leaf(_, exts) => exts != []
    case Index(_, kids) => kids != [] && forall i :: 0 <= i < |kids| ==> Packed(kids[i].sub)
  }

  lemma {:induction false} PackedFlat(t: Tree)
    requires Packed(t)
    ensures Flat(t) != []
    decreases t
  {
    if t.Index? {
      PackedFlat(t.kids[0].sub);
      FlatAround(t.kids, 0);
    }
  }

  /** The search position is the last one at every level. */
  predicate AtEnd(t: Tree, b: nat)
    requires Solid(t)
    decreases t
  {
    match t
    case Leaf(_, exts) => exts == [] || Pos(Firsts(exts), b) + 1 == |exts|
    case Index(_, kids) => Pos(Keys(kids), b) + 1 == |kids| && AtEnd(kids[Pos(Keys(kids), b)].sub, b)
  }

  lemma {:induction false} RightEmptyIff(t: Tree, e: Extent, d: nat, spare: seq<nat>)
    requires Solid(t) && Shape(t, d) && d < |spare| && Packed(t)
    ensures Flat(Split(t, e, d, spare).right) == [] <==> AtEnd(t, e.first)
    decreases t
  {
    hide LeafAt, Pos;
    if t.Index? {
      var p := Pos(Keys(t.kids), e.first);
      RightEmptyIff(t.kids[p].sub, e, d - 1, spare);
      var r, k := Split(t.kids[p].sub, e, d - 1, spare).right, SplitKey(t, e);
      FlatKidsConcat([Kid(k, r)], t.kids[p + 1..]);
      FlatKidsOne(Kid(k, r));
      if p + 1 < |t.kids| {
        PackedFlat(t.kids[p + 1].sub);
        FlatAround(t.kids[p + 1..], 0);
      }
    }
  }

  /** An insertion that runs out of blocks after splitting n levels keeps every extent if and only if
      the new extent belongs behind everything in the subtree of those n levels. */
  lemma {:induction false} BrokenKeepsIff(t: Tree, d: nat, e: Extent, spare: seq<nat>, n: nat)
    requires Solid(t) && Shape(t, d) && 1 <= n <= d + 1 && n <= |spare| && Packed(t)
    ensures Flat(Broken(t, e, d, n, spare)) == Flat(t) <==> AtEnd(Stop(t, e.first, d + 1 - n), e.first)
  {
    hide Flat, Split, Broken, AtEnd;
    var pre, post := BrokenLoses(t, d, e, spare, n);
    var u := Stop(t, e.first, d + 1 - n);
    StopPacked(t, e.first, d + 1 - n);
    RightEmptyIff(u, e, n - 1, spare);
    var h := Split(u, e, n - 1, spare);
    assert |Flat(t)| == |pre| + |Flat(h.left)| + |Flat(h.right)| + |post|;
    assert |Flat(Broken(t, e, d, n, spare))| == |pre| + |Flat(h.left)| + |post|;
    if Flat(h.right) == [] {
      assert pre + Flat(h.left) + [] + post == pre + Flat(h.left) + post;
    }
  }

  lemma {:induction false} StopPacked(t: Tree, b: nat, m: nat)
    requires Solid(t) && Packed(t)
    ensures Packed(Stop(t, b, m))
    decreases t
  {
    if m > 0 && t.Index? {
      StopPacked(t.kids[Pos(Keys(t.kids), b)].sub, b, m - 1);
    }
  }

  lemma {:induction false} TightPacked(t: Tree)
    requires Tight(t)
    ensures Packed(t)
    decreases t
  {
    if t.Index? {
      forall i | 0 <= i < |t.kids| ensures Packed(t.kids[i].sub) {
        TightPacked(t.kids[i].sub);
      }
    }
  }

  /** What is left in place of t when the spare blocks are too few. */
  ghost predicate GaveUp(t: Tree, d: nat, e: Extent, cap: nat, b: nat, spare: seq<nat>, t': Tree)
    requires Solid(t) && Shape(t, d)
  {
    if !Full(t, e.first, cap, b) then
      |spare| <= d && t' == Broken(t, e, d, |spare|, spare)
    else if spare == [] then
      t' == t
    else
      && (t.Leaf? ==> t.exts != [])
      && var g := Grow(t, spare[0]);
         Solid(g) && Shape(g, d + 1) && |spare| <= d + 1 && t' == Broken(g, e, d + 1, |spare| - 1, spare[1..])
  }

  /** The levels that were split before the blocks ran out: growing takes one block, each level one. */
  function LevelsSplit(t: Tree, e: Extent, cap: nat, b: nat, spare: seq<nat>): (n: nat)
    requires Solid(t)
    ensures n <= |spare|
  {
    if Full(t, e.first, cap, b) && spare != [] then |spare| - 1 else |spare|
  }

  /** The new extent belongs behind everything in the subtree of the levels that were split. */
  ghost predicate LosesNothing(t: Tree, d: nat, e: Extent, cap: nat, b: nat, spare: seq<nat>)
    requires Solid(t)
  {
    var n := LevelsSplit(t, e, cap, b, spare);
    n == 0 || (n <= d && AtEnd(Stop(t, e.first, d + 1 - n), e.first))
  }

  lemma {:induction false} GrowStop(t: Tree, d: nat, blk: nat, b: nat, m: nat)
    requires Solid(t) && Shape(t, d) && 1 <= m <= d
    ensures Solid(Grow(t, blk)) && Stop(Grow(t, blk), b, m + 1) == Stop(t, b, m)
  {
    var g := Grow(t, blk);
    var x := g.kids[0].sub;
    assert forall i :: 0 <= i < |x.kids| ==> x.kids[i] == t.kids[i];
    assert Solid(x);
    PosUnique(Keys(g.kids), b, 0);
    assert Stop(g, b, m + 1) == Stop(x, b, m);
  }

  lemma {:induction false} GrowFlat(t: Tree, blk: nat)
    requires match t case Leaf(_, exts) => exts != [] case Index(_, kids) => kids != []
    ensures Flat(Grow(t, blk)) == Flat(t)
  {
    FlatKidsOne(Grow(t, blk).kids[0]);
  }

  /** Running out of blocks keeps every extent if and only if the new one belongs behind everything
      in the part that was split. */
  lemma {:induction false} GaveUpKeepsIff(t: Tree, d: nat, e: Extent, cap: nat, b: nat, spare: seq<nat>, t': Tree)
    requires Solid(t) && Shape(t, d) && Tight(t) && GaveUp(t, d, e, cap, b, spare, t')
    ensures Flat(t') == Flat(t) <==> LosesNothing(t, d, e, cap, b, spare)
  {
    hide Flat, Broken, Full, AtEnd, Tight, Grow, Stop, Packed;
    var n := LevelsSplit(t, e, cap, b, spare);
    if !Full(t, e.first, cap, b) {
      TightPacked(t);
      if n > 0 { BrokenKeepsIff(t, d, e, spare, n); } else { BrokenNone(t, d, e, spare); }
    } else if spare != [] {
      var g := Grow(t, spare[0]);
      GrowTight(t, spare[0]);
      TightPacked(g);
      GrowFlat(t, spare[0]);
      if n > 0 {
        BrokenKeepsIff(g, d + 1, e, spare[1..], n);
        GrowStop(t, d, spare[0], e.first, d + 1 - n);
      } else {
        BrokenNone(g, d + 1, e, spare[1..]);
      }
    }
  }

  lemma {:induction false} BrokenNone(t: Tree, d: nat, e: Extent, spare: seq<nat>)
    requires Solid(t) && Shape(t, d)
    ensures Broken(t, e, d, 0, spare) == t
  {
  }

  // Three levels: a root with room, below it a node with five entries, below that five leaves.
  function CrowdedKids(exts: seq<Extent>): seq<Kid> {
    [Kid(0, Leaf(2, exts)), Kid(10, Leaf(3, [Extent(10, 1, 110)])), Kid(20, Leaf(4, [Extent(20, 1, 120)])),
     Kid(30, Leaf(5, [Extent(30, 1, 130)])), Kid(40, Leaf(6, [Extent(40, 1, 140)]))]
  }

  function CrowdedNode(exts: seq<Extent>): Tree { Index(1, CrowdedKids(exts)) }

  function Crowded(exts: seq<Extent>): Tree { Index(0, [Kid(0, CrowdedNode(exts))]) }

  /** The extents of the leaf for blocks below 10: five single blocks, every other one. */
  function FiveBlocks(): seq<Extent> {
    [Extent(0, 1, 100), Extent(2, 1, 102), Extent(4, 1, 104), Extent(6, 1, 106), Extent(8, 1, 108)]
  }

  lemma CrowdedNodeIs(exts: seq<Extent>, b: nat)
    requires b < 10
    ensures var u := CrowdedNode(exts);
            && Solid(u) && Shape(u, 1) && Route(u, b) == [0] && Stop(u, b, 1) == Leaf(2, exts)
            && LeafAt(u, b) == exts && Find(u, b) == Hit(exts, b)
  {
    hide Pos, Hit;
    var u := CrowdedNode(exts);
    assert forall i :: 0 <= i < 5 ==> Shape(u.kids[i].sub, 0) && Solid(u.kids[i].sub);
    PosUnique(Keys(u.kids), b, 0);
    var x := u.kids[0].sub;
    assert Route(x, b) == [] && Stop(x, b, 0) == x && LeafAt(x, b) == exts && Find(x, b) == Hit(exts, b);
  }

  lemma CrowdedIs(exts: seq<Extent>, b: nat)
    requires b < 10
    ensures var t := Crowded(exts);
            && Solid(t) && Shape(t, 2) && Route(t, b) == [0, 0] && Stop(t, b, 2) == Leaf(2, exts)
            && LeafAt(t, b) == exts && Find(t, b) == Hit(exts, b)
  {
    hide Pos, Hit, CrowdedNode;
    CrowdedNodeIs(exts, b);
    var t := Crowded(exts);
    assert t.kids[0].sub == CrowdedNode(exts);
    PosUnique(Keys(t.kids), b, 0);
    assert Route(t, b) == [0] + Route(CrowdedNode(exts), b);
  }

  lemma CrowdedFlat(exts: seq<Extent>)
    ensures Flat(Crowded(exts)) ==
            exts + [Extent(10, 1, 110), Extent(20, 1, 120), Extent(30, 1, 130), Extent(40, 1, 140)]
  {
    var ks := CrowdedKids(exts);
    FlatKidsOne(Kid(0, CrowdedNode(exts)));
    FlatKidsOne(ks[0]);
    FlatKidsOne(ks[2]);
    FlatKidsOne(ks[4]);
    FlatParts([ks[2]], ks[3], [ks[4]]);
    FlatParts([ks[0]], ks[1], [ks[2]] + [ks[3]] + [ks[4]]);
    assert ks == [ks[0]] + [ks[1]] + ([ks[2]] + [ks[3]] + [ks[4]]);
  }

  lemma CrowdedBroken(exts: seq<Extent>, e: Extent)
    requires e.first < 10 && exts != []
    ensures Solid(Crowded(exts)) && Shape(Crowded(exts), 2)
    ensures Broken(Crowded(exts), e, 2, 1, [9]) == Crowded(exts[..Pos(Firsts(exts), e.first) + 1])
  {
    CrowdedIs(exts, e.first);
    var t, u := Crowded(exts), CrowdedNode(exts);
    var left := exts[..Pos(Firsts(exts), e.first) + 1];
    assert Split(Leaf(2, exts), e, 0, [9]).left == Leaf(2, left);
    assert Replace(u, [0], 1, Leaf(2, left)) == Index(1, u.kids[0 := Kid(0, Leaf(2, left))]) == CrowdedNode(left);
    assert [0, 0][1..] == [0];
    assert Replace(t, [0, 0], 2, Leaf(2, left)) == Crowded(left);
  }

  lemma CrowdedTight(exts: seq<Extent>)
    requires exts != [] && exts[0].first == 0
    ensures Tight(Crowded(exts))
  {
    var u := CrowdedNode(exts);
    assert forall i :: 0 <= i < 5 ==> Tight(u.kids[i].sub) && u.kids[i].key == Head(u.kids[i].sub, 0);
    assert Tight(u);
  }

  lemma CrowdedFull(exts: seq<Extent>)
    requires |exts| == 5
    ensures Solid(Crowded(exts)) && FullLevels(Crowded(exts), 1, 4, 5) == 2 && !Full(Crowded(exts), 1, 4, 5)
  {
    CrowdedIs(exts, 1);
    var t, u := Crowded(exts), CrowdedNode(exts);
    var x := u.kids[0].sub;
    assert t.kids[0].sub == u && x == Leaf(2, exts) && Solid(x) && Solid(u);
    PosUnique(Keys(t.kids), 1, 0);
    PosUnique(Keys(u.kids), 1, 0);
    assert Full(x, 1, 5, 5) && FullLevels(x, 1, 5, 5) == 1;
    assert Full(u, 1, 5, 5) && FullLevels(u, 1, 5, 5) == 2;
  }

  lemma CrowdedWF(exts: seq<Extent>)
    requires LeafOk(exts, 0, 10) && |exts| == 5
    ensures WF(Crowded(exts), 2, 0, BLOCK_SPACE) && Within(Crowded(exts), 4, 5)
  {
    hide LeafOk;
    var u := CrowdedNode(exts);
    CrowdedNodeWF(exts);
    assert KidsOk([Kid(0, u)], 1, 0, BLOCK_SPACE);
  }

  lemma CrowdedNodeWF(exts: seq<Extent>)
    requires LeafOk(exts, 0, 10) && |exts| == 5
    ensures WF(CrowdedNode(exts), 1, 0, BLOCK_SPACE) && Within(CrowdedNode(exts), 5, 5)
  {
    var u := CrowdedNode(exts);
    assert KeysOk(u.kids, 0, BLOCK_SPACE);
    forall i | 0 <= i < 5 ensures WF(u.kids[i].sub, 0, u.kids[i].key, Limit(u.kids, i, BLOCK_SPACE)) {
      CrowdedLeafWF(exts, i);
    }
    assert forall i :: 0 <= i < 5 ==> Within(u.kids[i].sub, 5, 5);
    assert KidsOk(u.kids, 0, 0, BLOCK_SPACE);
  }

  lemma CrowdedLeafWF(exts: seq<Extent>, i: nat)
    requires LeafOk(exts, 0, 10) && i < 5
    ensures var ks := CrowdedKids(exts); WF(ks[i].sub, 0, ks[i].key, Limit(ks, i, BLOCK_SPACE))
  {
  }

  lemma CrowdedTakes(e: Extent)
    requires e == Extent(1, 1, 501)
    ensures Solid(Crowded(FiveBlocks())) && Insertable(Crowded(FiveBlocks()), e, BLOCK_SPACE)
  {
    hide Solid, Shape, LeafAt, Flat, Crowded;
    CrowdedIs(FiveBlocks(), 1);
    CrowdedFlat(FiveBlocks());
    PosUnique(Firsts(FiveBlocks()), 1, 0);
  }

  /** The loss is reachable with a root of four entries and blocks of five: blocks 0, 2, 4, 6 and 8
      fill a leaf under a full node, block 1 is new, and of the two blocks that the split takes only
      one is there.  Blocks 2 to 8 lose their mapping. */
  lemma BrokenExample()
    ensures var e := Extent(1, 1, 501);
            var t, t' := Crowded(FiveBlocks()), Crowded([Extent(0, 1, 100)]);
            && Solid(t) && Shape(t, 2) && WF(t, 2, 0, BLOCK_SPACE) && Within(t, 4, 5) && Settled(t)
            && Insertable(t, e, BLOCK_SPACE) && FullLevels(t, 1, 4, 5) == 2
            && GaveUp(t, 2, e, 4, 5, [9], t') && Solid(t') && Find(t, 2) == Some(102) && Find(t', 2) == None
  {
    hide Solid, Shape, Find, Broken, Insertable, Tight, Full, FullLevels, Crowded, FiveBlocks, WF, Within, LeafOk;
    var exts, e := FiveBlocks(), Extent(1, 1, 501);
    FiveOk();
    CrowdedIs(exts, 2);
    CrowdedIs([Extent(0, 1, 100)], 2);
    CrowdedBroken(exts, e);
    CrowdedFull(exts);
    CrowdedTight(exts);
    CrowdedTakes(e);
    CrowdedWF(exts);
  }

  lemma FiveOk()
    ensures var exts := FiveBlocks();
            && |exts| == 5 && exts[0].first == 0 && LeafOk(exts, 0, 10)
            && exts[..Pos(Firsts(exts), 1) + 1] == [Extent(0, 1, 100)]
            && Hit(exts, 2) == Some(102) && Hit([Extent(0, 1, 100)], 2) == None
  {
    var exts := FiveBlocks();
    PosUnique(Firsts(exts), 1, 0);
    PosUnique(Firsts(exts), 2, 1);
    PosUnique(Firsts([Extent(0, 1, 100)]), 2, 0);
  }

  // ---------------------------------------------------------------- single blocks

  /** A block that the lookup misses overlaps nothing. */
  lemma {:induction false} MissedApart(s: seq<Extent>, e: Extent)
    requires e.len == 1 && Scan(s, e.first) == None
    ensures NoOverlap(s, e)
    decreases s
  {
    if s != [] {
      MissedApart(s[1..], e);
      forall i | 0 <= i < |s| ensures s[i].End() <= e.first || e.End() <= s[i].first {
        if i > 0 { assert s[i] == s[1..][i - 1]; }
      }
    }
  }
}
