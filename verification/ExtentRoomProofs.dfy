/** Making room and growing, and the whole of ext4_ext_insert_extent as one function. */
module ExtentRoomProofs {
  import opened ExtentTree
  import opened ExtentTreeProofs
  import opened ExtentInsertProofs
  import opened ExtentSplitProofs
  import opened ExtentStore
  import opened ExtentPath

  /** A tree that is well formed, within capacity, and ready to take e. */
  ghost predicate Ready(t: Tree, d: nat, lo: nat, hi: nat, e: Extent, cap: nat, b: nat) {
    && WF(t, d, lo, hi) && Solid(t) && Shape(t, d)
    && Within(t, cap, b) && InRange(t, e, hi)
  }

  lemma {:induction false} ReadyBelow(t: Tree, d: nat, lo: nat, hi: nat, e: Extent, cap: nat, b: nat)
    requires Ready(t, d, lo, hi, e, cap, b) && t.Index?
    ensures var p := Pos(Keys(t.kids), e.first);
            Ready(t.kids[p].sub, d - 1, t.kids[p].key, Limit(t.kids, p, hi), e, b, b)
  {
    assert KidsOk(t.kids, d - 1, lo, hi);
    ApartBelow(t.kids, Pos(Keys(t.kids), e.first), e);
  }

  lemma {:induction false} JoinKids(kids: seq<Kid>, d: nat, lo: nat, hi: nat, p: nat, k: nat, l: Tree, r: Tree)
    requires KidsOk(kids, d, lo, hi) && p < |kids| && kids[p].key < k < Limit(kids, p, hi)
    requires WF(l, d, kids[p].key, k) && WF(r, d, k, Limit(kids, p, hi))
    requires Flat(l) + Flat(r) == Flat(kids[p].sub)
    ensures var j := LeftKids(kids, p, l) + RightKids(kids, p, k, r);
            KidsOk(j, d, lo, hi) && FlatKids(j) == FlatKids(kids)
  {
    LeftKidsOk(kids, d, lo, hi, p, k, l);
    RightKidsOk(kids, d, lo, hi, p, k, r);
    KidsConcat(LeftKids(kids, p, l), RightKids(kids, p, k, r), d, lo, hi);
    SplitKidsFlat(kids, p, k, l, r);
    FlatKidsConcat(LeftKids(kids, p, l), RightKids(kids, p, k, r));
  }

  lemma {:induction false} JoinWithin(t: Tree, cap: nat, b: nat, p: nat, k: nat, l: Tree, r: Tree)
    requires t.Index? && Within(t, cap, b) && p < |t.kids| < cap && Within(l, b, b) && Within(r, b, b)
    ensures Within(Index(t.blk, LeftKids(t.kids, p, l) + RightKids(t.kids, p, k, r)), cap, b)
  {
    var j := LeftKids(t.kids, p, l) + RightKids(t.kids, p, k, r);
    forall i | 0 <= i < |j| ensures Within(j[i].sub, b, b) {
      if i < p { assert j[i] == t.kids[i]; } else if i > p + 1 { assert j[i] == t.kids[i - 1]; }
    }
  }

  /** One level above a full path: the two halves side by side. */
  lemma {:induction false} JoinOk(t: Tree, d: nat, lo: nat, hi: nat, e: Extent, cap: nat, b: nat, spare: seq<nat>,
      p: nat)
    requires Ready(t, d, lo, hi, e, cap, b) && t.Index? && |t.kids| < cap && b >= 2 && d <= |spare|
    requires p == Pos(Keys(t.kids), e.first) && Full(t.kids[p].sub, e.first, b, b)
    ensures var h := Split(t.kids[p].sub, e, d - 1, spare);
            var r := Index(t.blk, LeftKids(t.kids, p, h.left) + RightKids(t.kids, p, SplitKey(t, e), h.right));
            WF(r, d, lo, hi) && Flat(r) == Flat(t) && Within(r, cap, b)
  {
    hide Split, Full, InRange, KeysOk, LeafOk;
    var kids, k := t.kids, SplitKey(t, e);
    ReadyBelow(t, d, lo, hi, e, cap, b);
    var sub := kids[p].sub;
    SplitOk(sub, d - 1, kids[p].key, Limit(kids, p, hi), e, b, spare);
    SplitFlat(sub, d - 1, e, spare);
    SplitWithin(sub, d - 1, e, b, spare);
    SplitKeyBelow(t, e);
    var h := Split(sub, e, d - 1, spare);
    JoinKids(kids, d - 1, lo, hi, p, k, h.left, h.right);
    JoinWithin(t, cap, b, p, k, h.left, h.right);
  }

  lemma {:induction false} JoinSolid(t: Tree, p: nat, k: nat, l: Tree, r: Tree)
    requires t.Index? && Solid(t) && p < |t.kids| && Solid(l) && Solid(r)
    ensures Solid(Index(t.blk, LeftKids(t.kids, p, l) + RightKids(t.kids, p, k, r)))
  {
    var j := LeftKids(t.kids, p, l) + RightKids(t.kids, p, k, r);
    forall i | 0 <= i < |j| ensures Solid(j[i].sub) {
      if i < p { assert j[i] == t.kids[i]; } else if i > p + 1 { assert j[i] == t.kids[i - 1]; }
    }
  }

  lemma {:induction false} JoinStep(t: Tree, hi: nat, e: Extent, cap: nat, b: nat, p: nat, k: nat, h: Halves)
    requires t.Index? && Solid(t) && p == Pos(Keys(t.kids), e.first) && Solid(h.left) && Solid(h.right)
    requires var s := Side(h, k, e);
             && Roomy(s, e, b, b)
             && e.End() <= LeafLimit(s, e.first, if e.first < k then k else Limit(t.kids, p, hi))
             && !Prepends(LeafAt(s, e.first), e)
    ensures var r := Index(t.blk, LeftKids(t.kids, p, h.left) + RightKids(t.kids, p, k, h.right));
            && Solid(r) && Roomy(r, e, cap, b)
            && e.End() <= LeafLimit(r, e.first, hi) && !Prepends(LeafAt(r, e.first), e)
  {
    JoinSolid(t, p, k, h.left, h.right);
    BothPos(t.kids, p, k, h.left, h.right, e.first);
    var j := LeftKids(t.kids, p, h.left) + RightKids(t.kids, p, k, h.right);
    var q := if e.first < k then p else p + 1;
    assert j[q].sub == Side(h, k, e);
    assert Limit(j, q, hi) == if e.first < k then k else Limit(t.kids, p, hi);
  }

  lemma {:induction false} JoinSide(t: Tree, d: nat, lo: nat, hi: nat, e: Extent, cap: nat, b: nat, spare: seq<nat>,
      p: nat)
    requires Ready(t, d, lo, hi, e, cap, b) && t.Index? && b >= 2 && d <= |spare|
    requires p == Pos(Keys(t.kids), e.first) && Full(t.kids[p].sub, e.first, b, b)
    ensures var h := Split(t.kids[p].sub, e, d - 1, spare);
            var r := Index(t.blk, LeftKids(t.kids, p, h.left) + RightKids(t.kids, p, SplitKey(t, e), h.right));
            && Solid(r) && Roomy(r, e, cap, b)
            && e.End() <= LeafLimit(r, e.first, hi) && !Prepends(LeafAt(r, e.first), e)
  {
    ReadyBelow(t, d, lo, hi, e, cap, b);
    SplitSide(t.kids[p].sub, d - 1, t.kids[p].key, Limit(t.kids, p, hi), e, b, spare);
    SplitSolid(t.kids[p].sub, d - 1, e, spare);
    SplitKeyBelow(t, e);
    JoinStep(t, hi, e, cap, b, p, SplitKey(t, e), Split(t.kids[p].sub, e, d - 1, spare));
  }

  function CapAt(m: nat, cap: nat, b: nat): nat { if m == 0 then cap else b }

  lemma {:induction false} StopReady(t: Tree, d: nat, lo: nat, hi: nat, e: Extent, cap: nat, b: nat, m: nat)
    requires Ready(t, d, lo, hi, e, cap, b) && m <= d
    ensures Ready(Stop(t, e.first, m), d - m, StopLo(t, lo, e.first, m), StopHi(t, hi, e.first, m), e,
            CapAt(m, cap, b), b)
    decreases t
  {
    if m > 0 {
      ReadyBelow(t, d, lo, hi, e, cap, b);
      var p := Pos(Keys(t.kids), e.first);
      StopReady(t.kids[p].sub, d - 1, t.kids[p].key, Limit(t.kids, p, hi), e, b, b, m - 1);
    }
  }

  ghost predicate CanOpen(t: Tree, d: nat, e: Extent, cap: nat, b: nat, m: nat)
    requires Solid(t) && Shape(t, d) && m < d
  {
    RouteStep(t, e.first, d, m);
    && Full(Stop(t, e.first, m + 1), e.first, b, b)
    && |Stop(t, e.first, m).kids| < CapAt(m, cap, b)
  }

  /** The split key falls behind the key of the node that was split. */
  lemma {:induction false} KeyBehind(t: Tree, d: nat, lo: nat, hi: nat, e: Extent, cap: nat, b: nat, m: nat)
    requires Ready(t, d, lo, hi, e, cap, b) && b >= 2 && m < d && CanOpen(t, d, e, cap, b, m)
    ensures var u := Stop(t, e.first, m);
            u.Index? && u.kids != [] && u.kids[Pos(Keys(u.kids), e.first)].key < SplitKey(t, e)
  {
    hide WF, Within, Split, Full, Flat, InRange, Limit;
    RouteStep(t, e.first, d, m);
    RouteStep(t, e.first, d, m + 1);
    StopReady(t, d, lo, hi, e, cap, b, m);
    var u := Stop(t, e.first, m);
    var p := Pos(Keys(u.kids), e.first);
    ReadyBelow(u, d - m, StopLo(t, lo, e.first, m), StopHi(t, hi, e.first, m), e, CapAt(m, cap, b), b);
    SplitOk(u.kids[p].sub, d - m - 1, u.kids[p].key, Limit(u.kids, p, StopHi(t, hi, e.first, m)), e, b, Zeros(d - m));
  }

  /** Splitting below level m changes no extent and keeps the tree well formed and within capacity. */
  lemma {:induction false} RoomMadeOk(t: Tree, d: nat, lo: nat, hi: nat, e: Extent, cap: nat, b: nat, spare: seq<nat>,
      m: nat)
    requires Ready(t, d, lo, hi, e, cap, b) && b >= 2 && m < d <= m + |spare| && CanOpen(t, d, e, cap, b, m)
    ensures var r := RoomMade(t, e, d, m, spare);
            WF(r, d, lo, hi) && Flat(r) == Flat(t) && Within(r, cap, b)
  {
    hide WF, Within, Split, Full, InRange, Replace, Route, Solid, Shape, Place, Stop, StopLo, StopHi, SplitKey,
      Flat;
    RouteStep(t, e.first, d, m);
    StopReady(t, d, lo, hi, e, cap, b, m);
    var u := Stop(t, e.first, m);
    JoinOk(u, d - m, StopLo(t, lo, e.first, m), StopHi(t, hi, e.first, m), e, CapAt(m, cap, b), b, spare,
      Pos(Keys(u.kids), e.first));
    var x := Opened(t, e, d, m, spare);
    ReplaceWF(t, d, lo, hi, e.first, m, x);
    ReplaceWithin(t, cap, b, e.first, m, x);
    var pre, post := FlatPlace(t, Route(t, e.first), m, x);
  }

  /** After making room, descending for e reaches a leaf with a free entry that accepts it. */
  lemma {:induction false} RoomMadeSide(t: Tree, d: nat, lo: nat, hi: nat, e: Extent, cap: nat, b: nat,
      spare: seq<nat>, m: nat)
    requires Ready(t, d, lo, hi, e, cap, b) && b >= 2 && m < d <= m + |spare| && CanOpen(t, d, e, cap, b, m)
    ensures var r := RoomMade(t, e, d, m, spare);
            && Solid(r) && Roomy(r, e, cap, b)
            && e.End() <= LeafLimit(r, e.first, hi) && !Prepends(LeafAt(r, e.first), e)
  {
    hide WF, Within, Split, Full, InRange, Replace, Route, Shape, Place, Stop, StopLo, StopHi, SplitKey, LeafAt,
      LeafLimit, Roomy;
    RouteStep(t, e.first, d, m);
    StopReady(t, d, lo, hi, e, cap, b, m);
    var u := Stop(t, e.first, m);
    JoinSide(u, d - m, StopLo(t, lo, e.first, m), StopHi(t, hi, e.first, m), e, CapAt(m, cap, b), b, spare,
      Pos(Keys(u.kids), e.first));
    var x := Opened(t, e, d, m, spare);
    RouteReplace(t, e.first, d, m, x);
    RoomyReplace(t, e, cap, b, m, x);
    LimitReplace(t, e.first, hi, m, x);
  }

  lemma {:induction false} RoomMadeReady(t: Tree, d: nat, lo: nat, hi: nat, e: Extent, cap: nat, b: nat,
      spare: seq<nat>, m: nat)
    requires Ready(t, d, lo, hi, e, cap, b) && b >= 2 && m < d <= m + |spare| && CanOpen(t, d, e, cap, b, m)
    ensures var r := RoomMade(t, e, d, m, spare);
            Ready(r, d, lo, hi, e, cap, b) && Roomy(r, e, cap, b) && Flat(r) == Flat(t)
  {
    RoomMadeOk(t, d, lo, hi, e, cap, b, spare, m);
    RoomMadeSide(t, d, lo, hi, e, cap, b, spare, m);
    WFShape(RoomMade(t, e, d, m, spare), d, lo, hi);
  }

  lemma {:induction false} GrowWF(t: Tree, d: nat, lo: nat, hi: nat, blk: nat)
    requires WF(t, d, lo, hi) && Shape(t, d) && (t.Leaf? ==> t.exts != [])
    ensures WF(Grow(t, blk), d + 1, lo, hi) && Flat(Grow(t, blk)) == Flat(t)
  {
    var g := Grow(t, blk);
    var k := g.kids[0];
    FlatKidsOne(k);
    if t.Leaf? {
      assert t.exts[0].Written() && t.exts[0].End() <= hi;
      assert LeafOk(t.exts, k.key, hi);
    } else {
      assert KidsOk(t.kids, d - 1, lo, hi) && t.kids[0].key < hi;
      assert KidsOk(t.kids, d - 1, k.key, hi);
    }
    assert WF(k.sub, d, k.key, hi);
    assert KidsOk(g.kids, d, lo, hi);
  }

  /** Growing keeps every extent and leaves the old root, now in a larger block, with room. */
  lemma {:induction false} GrowReady(t: Tree, d: nat, lo: nat, hi: nat, e: Extent, cap: nat, b: nat, blk: nat)
    requires Ready(t, d, lo, hi, e, cap, b) && 2 <= cap < b && Full(t, e.first, cap, b) && !Roomy(t, e, cap, b)
    ensures var g := Grow(t, blk);
            && Ready(g, d + 1, lo, hi, e, cap, b) && Flat(g) == Flat(t)
            && !Full(g, e.first, cap, b) && (Roomy(g, e, cap, b) <==> d == 0)
  {
    var g := Grow(t, blk);
    GrowWF(t, d, lo, hi, blk);
    WFShape(g, d + 1, lo, hi);
    PosUnique(Keys(g.kids), e.first, 0);
    assert LeafAt(g, e.first) == LeafAt(g.kids[0].sub, e.first) == LeafAt(t, e.first);
    assert LeafLimit(g, e.first, hi) == LeafLimit(g.kids[0].sub, e.first, hi) == LeafLimit(t, e.first, hi);
  }

  /** How many levels of the search path are full, counted from the leaf up. */
  function FullLevels(t: Tree, b: nat, cap: nat, blockCap: nat): nat
    requires Solid(t)
    decreases t
  {
    match t
    case Leaf(_, exts) => if |exts| >= cap then 1 else 0
    case Index(_, kids) =>
      FullLevels(kids[Pos(Keys(kids), b)].sub, b, blockCap, blockCap) + if Full(t, b, cap, blockCap) then 1 else 0
  }

  lemma {:induction false} FullLevelsAll(t: Tree, d: nat, b: nat, cap: nat, blockCap: nat)
    requires Solid(t) && Shape(t, d) && Full(t, b, cap, blockCap)
    ensures FullLevels(t, b, cap, blockCap) == d + 1
    decreases t
  {
    if t.Index? {
      FullLevelsAll(t.kids[Pos(Keys(t.kids), b)].sub, d - 1, b, blockCap, blockCap);
    }
  }

  lemma {:induction false} FullLevelsOpen(t: Tree, d: nat, e: Extent, cap: nat, b: nat, m: nat)
    requires Solid(t) && Shape(t, d) && m < d && CanOpen(t, d, e, cap, b, m)
    ensures FullLevels(t, e.first, cap, b) == d - m && !Full(t, e.first, cap, b)
    decreases t
  {
    var sub := t.kids[Pos(Keys(t.kids), e.first)].sub;
    if m == 0 {
      assert Stop(t, e.first, 1) == Stop(sub, e.first, 0) == sub;
      FullLevelsAll(sub, d - 1, e.first, b, b);
    } else {
      assert Stop(t, e.first, m) == Stop(sub, e.first, m - 1);
      assert Stop(t, e.first, m + 1) == Stop(sub, e.first, m);
      FullLevelsOpen(sub, d - 1, e, b, b, m - 1);
    }
  }

  /** After growing a full tree the old root, one level down, can take the split below it. */
  lemma {:induction false} GrowCanOpen(t: Tree, d: nat, e: Extent, cap: nat, b: nat, blk: nat)
    requires Solid(t) && Shape(t, d) && d > 0 && Within(t, cap, b) && cap < b && Full(t, e.first, cap, b)
    ensures var g := Grow(t, blk); Solid(g) && Shape(g, d + 1) && CanOpen(g, d + 1, e, cap, b, 1)
  {
    var g := Grow(t, blk);
    var x := g.kids[0].sub;
    assert forall i :: 0 <= i < |x.kids| ==> x.kids[i] == t.kids[i];
    assert Solid(x) && Shape(x, d);
    PosUnique(Keys(g.kids), e.first, 0);
    assert Stop(g, e.first, 1) == Stop(x, e.first, 0) == x;
    var p := Pos(Keys(x.kids), e.first);
    assert Stop(g, e.first, 2) == Stop(x, e.first, 1) == Stop(x.kids[p].sub, e.first, 0);
  }

  // ---------------------------------------------------------------- running out of blocks

  lemma {:induction false} FullBelow(t: Tree, b: nat, cap: nat, m: nat)
    requires Solid(t) && Full(t, b, cap, cap)
    ensures Full(Stop(t, b, m), b, cap, cap)
    decreases t
  {
    if m > 0 && t.Index? {
      FullBelow(t.kids[Pos(Keys(t.kids), b)].sub, b, cap, m - 1);
    }
  }

  lemma {:induction false} BrokenShape(t: Tree, d: nat, lo: nat, hi: nat, e: Extent, cap: nat, b: nat,
      spare: seq<nat>, n: nat)
    requires Ready(t, d, lo, hi, e, cap, b) && b >= 2 && 1 <= n <= d && n <= |spare|
    requires Full(Stop(t, e.first, d + 1 - n), e.first, b, b)
    ensures WF(Broken(t, e, d, n, spare), d, lo, hi) && Within(Broken(t, e, d, n, spare), cap, b)
  {
    hide WF, Within, Split, Full, InRange, Replace, Route, Solid, Shape, Place, Stop, StopLo, StopHi, SplitKey;
    var m := d + 1 - n;
    RouteStep(t, e.first, d, m);
    StopReady(t, d, lo, hi, e, cap, b, m);
    var u, ulo, uhi := Stop(t, e.first, m), StopLo(t, lo, e.first, m), StopHi(t, hi, e.first, m);
    SplitOk(u, n - 1, ulo, uhi, e, b, spare);
    SplitWithin(u, n - 1, e, b, spare);
    var l := Split(u, e, n - 1, spare).left;
    WFWiden(l, n - 1, ulo, SplitKey(u, e), ulo, uhi);
    ReplaceWF(t, d, lo, hi, e.first, m, l);
    ReplaceWithin(t, cap, b, e.first, m, l);
  }

  /** Giving up after n levels drops one run of extents: those of the detached right half. */
  lemma {:induction false} BrokenLoses(t: Tree, d: nat, e: Extent, spare: seq<nat>, n: nat)
      returns (pre: seq<Extent>, post: seq<Extent>)
    requires Solid(t) && Shape(t, d) && 1 <= n <= d + 1 && n <= |spare|
    ensures Shape(Stop(t, e.first, d + 1 - n), n - 1)
    ensures var h := Split(Stop(t, e.first, d + 1 - n), e, n - 1, spare);
            && Flat(t) == pre + Flat(h.left) + Flat(h.right) + post
            && Flat(Broken(t, e, d, n, spare)) == pre + Flat(h.left) + post
  {
    hide Shape, Stop, Split, Flat, Route, Replace, Sub, Place;
    var m := d + 1 - n;
    RouteStep(t, e.first, d, m);
    var u := Stop(t, e.first, m);
    SplitFlat(u, n - 1, e, spare);
    var h := Split(u, e, n - 1, spare);
    pre, post := FlatPlace(t, Route(t, e.first), m, h.left);
    assert pre + Flat(u) + post == pre + Flat(h.left) + Flat(h.right) + post;
  }

  /** Running out of blocks below level m leaves a well-formed tree. */
  lemma {:induction false} GaveUpOk(t: Tree, d: nat, lo: nat, hi: nat, e: Extent, cap: nat, b: nat, spare: seq<nat>,
      m: nat)
    requires Ready(t, d, lo, hi, e, cap, b) && b >= 2 && m < d && |spare| < d - m && CanOpen(t, d, e, cap, b, m)
    ensures var r := Broken(t, e, d, |spare|, spare);
            WF(r, d, lo, hi) && Within(r, cap, b) && Solid(r) && Shape(r, d)
  {
    var n := |spare|;
    if n > 0 {
      RouteStep(t, e.first, d, m + 1);
      FullBelow(Stop(t, e.first, m + 1), e.first, b, d - n - m);
      StopOfStop(t, e.first, m + 1, d - n - m);
      BrokenShape(t, d, lo, hi, e, cap, b, spare, n);
    }
    WFShape(Broken(t, e, d, n, spare), d, lo, hi);
  }

  lemma {:induction false} FullNotEmpty(t: Tree, b: nat, cap: nat, blockCap: nat)
    requires Solid(t) && Full(t, b, cap, blockCap) && cap > 0
    ensures t.Leaf? ==> t.exts != []
  {
  }
}
