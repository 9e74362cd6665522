/** Tight keys: no leaf is empty and every key is the first block below it.  Every operation keeps
    this, and with it an extent that overlaps nothing always fits the leaf it belongs to. */
module ExtentKeys {
  import opened Wrappers
  import opened ExtentTree
  import opened ExtentTreeProofs
  import opened ExtentInsertProofs
  import opened ExtentSplitProofs
  import opened ExtentRoomProofs
  import opened ExtentStore
  import opened ExtentPath

  /** The first block a node stands for; b if it is an empty leaf. */
  function Head(t: Tree, b: nat): nat {
    match t
    case Leaf(_, exts) => if exts == [] then b else exts[0].first
    case Index(_, kids) => if kids == [] then b else kids[0].key
  }

  /** Every key of the node is the first block below it. */
  ghost predicate KeysTight(kids: seq<Kid>, b: nat) {
    forall i :: 0 <= i < |kids| ==> kids[i].key == Head(kids[i].sub, b)
  }

  ghost predicate Tight(t: Tree)
    decreases t
  {
    match t
    case Leaf(_, exts) => exts != []
    case Index(_, kids) =>
      kids != [] && KeysTight(kids, 0) && forall i :: 0 <= i < |kids| ==> Tight(kids[i].sub)
  }

  /** Tight, except that the leaf b descends to may still be empty; its key is then b itself. */
  ghost predicate TightBut(t: Tree, b: nat)
    requires Solid(t)
    decreases t
  {
    t.Index? ==>
      var p := Pos(Keys(t.kids), b);
      && KeysTight(t.kids, b)
      && (forall i :: 0 <= i < |t.kids| && i != p ==> Tight(t.kids[i].sub))
      && TightBut(t.kids[p].sub, b)
  }

  /** The only empty leaf is an empty root. */
  ghost predicate Settled(t: Tree) { t.Leaf? || Tight(t) }

  lemma {:induction false} HeadOfTight(t: Tree, b: nat)
    requires Tight(t)
    ensures Head(t, b) == Head(t, 0)
  {
  }

  lemma {:induction false} TightIsTightBut(t: Tree, b: nat)
    requires Solid(t) && Settled(t)
    ensures TightBut(t, b)
    decreases t
  {
    if t.Index? {
      forall i | 0 <= i < |t.kids| ensures t.kids[i].key == Head(t.kids[i].sub, b) {
        HeadOfTight(t.kids[i].sub, b);
      }
      TightIsTightBut(t.kids[Pos(Keys(t.kids), b)].sub, b);
    }
  }

  lemma {:induction false} TightKids(kids: seq<Kid>, b: nat)
    requires KeysTight(kids, b) && forall i :: 0 <= i < |kids| ==> Tight(kids[i].sub)
    ensures KeysTight(kids, 0)
  {
    forall i | 0 <= i < |kids| ensures kids[i].key == Head(kids[i].sub, 0) {
      HeadOfTight(kids[i].sub, b);
    }
  }

  // ---------------------------------------------------------------- what tight keys give

  lemma {:induction false} HeadIsFirst(t: Tree)
    requires Tight(t)
    ensures Flat(t) != [] && Flat(t)[0].first == Head(t, 0)
    decreases t
  {
    if t.Index? {
      HeadIsFirst(t.kids[0].sub);
      FlatAround(t.kids, 0);
    }
  }

  lemma {:induction false} BeforeNext(kids: seq<Kid>, hi: nat, e: Extent, p: nat)
    requires kids != [] && p == Pos(Keys(kids), e.first) && KeysTight(kids, 0)
    requires forall i :: 0 <= i < |kids| ==> Tight(kids[i].sub)
    requires NoOverlap(FlatKids(kids), e) && e.End() <= hi
    ensures e.End() <= Limit(kids, p, hi)
  {
    if p + 1 < |kids| {
      ApartBelow(kids, p + 1, e);
      HeadIsFirst(kids[p + 1].sub);
      assert e.first < Keys(kids)[p + 1];
    }
  }

  /** An extent that overlaps nothing ends before the next leaf's key. */
  lemma {:induction false} ApartInRange(t: Tree, hi: nat, e: Extent)
    requires Solid(t) && Settled(t) && NoOverlap(Flat(t), e) && e.End() <= hi
    ensures e.End() <= LeafLimit(t, e.first, hi)
    decreases t
  {
    if t.Index? {
      var p := Pos(Keys(t.kids), e.first);
      BeforeNext(t.kids, hi, e, p);
      ApartBelow(t.kids, p, e);
      ApartInRange(t.kids[p].sub, Limit(t.kids, p, hi), e);
    }
  }

  /** All that is asked of a new extent: it is written, lies in the block space, overlaps nothing,
      and is not taken by the faulty prepend branch. */
  ghost predicate Insertable(t: Tree, e: Extent, hi: nat)
    requires Solid(t)
  {
    e.Written() && e.End() <= hi && NoOverlap(Flat(t), e) && !Prepends(LeafAt(t, e.first), e)
  }

  lemma {:induction false} InsertableInRange(t: Tree, e: Extent, hi: nat)
    requires Solid(t) && Settled(t) && Insertable(t, e, hi)
    ensures InRange(t, e, hi)
  {
    ApartInRange(t, hi, e);
  }

  // ---------------------------------------------------------------- insertion

  lemma {:induction false} PutLeafHead(exts: seq<Extent>, e: Extent)
    requires !Prepends(exts, e)
    ensures PutLeaf(exts, e) != []
    ensures PutLeaf(exts, e)[0].first ==
            if LeafBorder(exts, e).Some? then LeafBorder(exts, e).value else exts[0].first
  {
  }

  lemma {:induction false} PutKidTight(t: Tree, e: Extent, p: nat)
    requires Solid(t) && t.Index? && TightBut(t, e.first) && p == Pos(Keys(t.kids), e.first)
    requires var r := Insert(t.kids[p].sub, e);
             && Tight(r.tree)
             && Head(r.tree, 0) == if r.border.Some? then r.border.value else Head(t.kids[p].sub, e.first)
    ensures Tight(Insert(t, e).tree)
    ensures var r := Insert(t, e);
            Head(r.tree, 0) == if r.border.Some? then r.border.value else Head(t, e.first)
  {
    var kids := Insert(t, e).tree.kids;
    forall i | 0 <= i < |kids| ensures Tight(kids[i].sub) && kids[i].key == Head(kids[i].sub, 0) {
      if i != p {
        assert kids[i] == t.kids[i];
        HeadOfTight(kids[i].sub, e.first);
      }
    }
  }

  /** Insertion fills the empty leaf, if there is one, and every key is tight again. */
  lemma {:induction false} InsertTight(t: Tree, e: Extent)
    requires Solid(t) && TightBut(t, e.first) && !Prepends(LeafAt(t, e.first), e)
    ensures Tight(Insert(t, e).tree)
    ensures var r := Insert(t, e);
            Head(r.tree, 0) == if r.border.Some? then r.border.value else Head(t, e.first)
    decreases t
  {
    if t.Leaf? {
      PutLeafHead(t.exts, e);
    } else {
      var p := Pos(Keys(t.kids), e.first);
      InsertTight(t.kids[p].sub, e);
      PutKidTight(t, e, p);
    }
  }

  /** Insertion keeps the tree well formed and its keys tight; the border is a valid new key for it. */
  lemma {:induction false} InsertKeepsShape(t: Tree, d: nat, lo: nat, hi: nat, e: Extent)
    requires WF(t, d, lo, hi) && Solid(t) && Settled(t) && Insertable(t, e, hi)
    ensures WF(Insert(t, e).tree, d, Low(lo, Insert(t, e).border), hi) && Tight(Insert(t, e).tree)
    ensures BorderOk(Insert(t, e).border, lo, hi, e)
  {
    InsertableInRange(t, e, hi);
    InRangeKeepsShape(t, d, lo, hi, e);
    TightIsTightBut(t, e.first);
    InsertTight(t, e);
  }

  /** Insertion adds exactly the new extent to the contents of the tree. */
  lemma {:induction false} InsertAdds(t: Tree, d: nat, lo: nat, hi: nat, e: Extent)
    requires WF(t, d, lo, hi) && Solid(t) && Settled(t) && Insertable(t, e, hi)
    ensures Inserted(Flat(t), Flat(Insert(t, e).tree), e)
  {
    InsertableInRange(t, e, hi);
    InRangeAdds(t, d, lo, hi, e);
  }

  // ---------------------------------------------------------------- splitting

  lemma {:induction false} LeftTight(kids: seq<Kid>, p: nat, l: Tree)
    requires p < |kids| && KeysTight(kids, 0) && forall i :: 0 <= i < |kids| ==> Tight(kids[i].sub)
    requires Tight(l) && Head(l, 0) == Head(kids[p].sub, 0)
    ensures Tight(Index(0, LeftKids(kids, p, l))) && LeftKids(kids, p, l)[0].key == kids[0].key
  {
    var c := LeftKids(kids, p, l);
    forall i | 0 <= i < |c| ensures Tight(c[i].sub) && c[i].key == Head(c[i].sub, 0) {
      if i < p { assert c[i] == kids[i]; }
    }
  }

  /** The left half stays tight under the old key. */
  lemma {:induction false} SplitLeftTight(t: Tree, d: nat, e: Extent, spare: seq<nat>)
    requires Solid(t) && Shape(t, d) && d < |spare| && Tight(t)
    ensures var l := Split(t, e, d, spare).left; Tight(l) && Head(l, 0) == Head(t, 0)
    decreases t
  {
    if t.Index? {
      var p := Pos(Keys(t.kids), e.first);
      SplitLeftTight(t.kids[p].sub, d - 1, e, spare);
      LeftTight(t.kids, p, Split(t.kids[p].sub, e, d - 1, spare).left);
    }
  }

  lemma {:induction false} RightTight(kids: seq<Kid>, p: nat, k: nat, r: Tree, b: nat)
    requires p < |kids| && KeysTight(kids, 0) && forall i :: 0 <= i < |kids| ==> Tight(kids[i].sub)
    requires k == Head(r, b)
    ensures var c := RightKids(kids, p, k, r);
            KeysTight(c, b) && forall i :: 0 < i < |c| ==> Tight(c[i].sub)
  {
    var c := RightKids(kids, p, k, r);
    forall i | 0 < i < |c| ensures Tight(c[i].sub) && c[i].key == Head(c[i].sub, b) {
      assert c[i] == kids[p + i];
      HeadOfTight(c[i].sub, b);
    }
  }

  /** The right half is tight under the split key; its first leaf is empty only if e goes there. */
  lemma {:induction false} SplitRightTight(t: Tree, d: nat, e: Extent, spare: seq<nat>)
    requires Solid(t) && Shape(t, d) && d < |spare| && Tight(t)
    ensures var r := Split(t, e, d, spare).right;
            && Solid(r) && TightBut(r, e.first) && Head(r, e.first) == SplitKey(t, e)
            && (e.first < SplitKey(t, e) ==> Tight(r))
    decreases t
  {
    hide KeysTight, LeftKids;
    if t.Index? {
      var p := Pos(Keys(t.kids), e.first);
      var sub := t.kids[p].sub;
      SplitRightTight(sub, d - 1, e, spare);
      SplitSolid(t, d, e, spare);
      SplitKeyBelow(t, e);
      var r := Split(sub, e, d - 1, spare).right;
      RightTight(t.kids, p, SplitKey(t, e), r, e.first);
      RightPos(t.kids, p, SplitKey(t, e), r, e.first);
      if e.first < SplitKey(t, e) {
        TightKids(RightKids(t.kids, p, SplitKey(t, e), r), e.first);
      }
    }
  }

  /** The node above the split: both halves side by side. */
  lemma {:induction false} OpenTight(u: Tree, d: nat, e: Extent, spare: seq<nat>)
    requires Solid(u) && Shape(u, d) && 0 < d <= |spare| && Tight(u)
    ensures var x := Open(u, e, d, spare);
            Solid(x) && TightBut(x, e.first) && Head(x, e.first) == Head(u, 0)
  {
    hide Split, SplitKey, TightBut;
    var p, k := Pos(Keys(u.kids), e.first), SplitKey(u, e);
    var sub := u.kids[p].sub;
    SplitKeyBelow(u, e);
    SplitLeftTight(sub, d - 1, e, spare);
    SplitRightTight(sub, d - 1, e, spare);
    SplitSolid(sub, d - 1, e, spare);
    JoinTight(u, p, k, Split(sub, e, d - 1, spare), e.first);
  }

  lemma {:induction false} JoinTight(u: Tree, p: nat, k: nat, h: Halves, b: nat)
    requires Solid(u) && u.Index? && Tight(u) && p == Pos(Keys(u.kids), b)
    requires Tight(h.left) && Solid(h.left) && Head(h.left, 0) == Head(u.kids[p].sub, 0)
    requires Solid(h.right) && TightBut(h.right, b) && Head(h.right, b) == k && (b < k ==> Tight(h.right))
    ensures var x := Index(u.blk, LeftKids(u.kids, p, h.left) + RightKids(u.kids, p, k, h.right));
            Solid(x) && TightBut(x, b) && Head(x, b) == Head(u, 0)
  {
    hide TightBut;
    var a, c := LeftKids(u.kids, p, h.left), RightKids(u.kids, p, k, h.right);
    LeftTight(u.kids, p, h.left);
    RightTight(u.kids, p, k, h.right, b);
    BothPos(u.kids, p, k, h.left, h.right, b);
    JoinSolid(u, p, k, h.left, h.right);
    HalvesTight(u.blk, a, c, k, b);
  }

  /** A tight list of children followed by one that may start with the empty leaf. */
  lemma {:induction false} HalvesTight(blk: nat, a: seq<Kid>, c: seq<Kid>, k: nat, b: nat)
    requires a != [] && c != [] && Tight(Index(0, a)) && c[0].key == k && KeysTight(c, b)
    requires Solid(Index(blk, a + c)) && (forall i :: 0 < i < |c| ==> Tight(c[i].sub))
    requires Solid(c[0].sub) && TightBut(c[0].sub, b) && (b < k ==> Tight(c[0].sub))
    requires Pos(Keys(a + c), b) == if b < k then |a| - 1 else |a|
    ensures TightBut(Index(blk, a + c), b)
  {
    var j, p := a + c, Pos(Keys(a + c), b);
    forall i | 0 <= i < |j|
      ensures j[i].key == Head(j[i].sub, b) && (i != |a| || b < k ==> Tight(j[i].sub))
    {
      if i < |a| { assert j[i] == a[i]; HeadOfTight(j[i].sub, b); } else { assert j[i] == c[i - |a|]; }
    }
    if b < k { TightIsTightBut(j[p].sub, b); }
  }

  // ---------------------------------------------------------------- changes along the route

  /** A subtree on the route is replaced by one that stands for the same first block. */
  lemma {:induction false} ReplaceTight(t: Tree, b: nat, m: nat, x: Tree)
    requires Solid(t) && Tight(t) && Place(t, Route(t, b), m)
    requires Solid(x) && TightBut(x, b) && Head(x, b) == Head(Stop(t, b, m), 0)
    ensures var r := Replace(t, Route(t, b), m, x);
            Solid(r) && TightBut(r, b) && Head(r, b) == Head(t, 0) && (Tight(x) ==> Tight(r))
    decreases t
  {
    if m > 0 {
      var p := Pos(Keys(t.kids), b);
      ReplaceTight(t.kids[p].sub, b, m - 1, x);
      assert Route(t, b)[1..] == Route(t.kids[p].sub, b);
      KidTight(t, b, p, Replace(t.kids[p].sub, Route(t.kids[p].sub, b), m - 1, x), x);
    }
  }

  lemma {:induction false} KidTight(t: Tree, b: nat, p: nat, y: Tree, x: Tree)
    requires Solid(t) && t.Index? && Tight(t) && p == Pos(Keys(t.kids), b)
    requires Solid(y) && TightBut(y, b) && Head(y, b) == Head(t.kids[p].sub, 0) && (Tight(x) ==> Tight(y))
    ensures var r := Index(t.blk, t.kids[p := Kid(t.kids[p].key, y)]);
            Solid(r) && TightBut(r, b) && Head(r, b) == Head(t, 0) && (Tight(x) ==> Tight(r))
  {
    var kids := t.kids[p := Kid(t.kids[p].key, y)];
    assert Keys(kids) == Keys(t.kids);
    forall i | 0 <= i < |kids|
      ensures Solid(kids[i].sub) && kids[i].key == Head(kids[i].sub, b) && (i != p ==> Tight(kids[i].sub))
    {
      if i != p { HeadOfTight(kids[i].sub, b); }
    }
    if Tight(x) { TightKids(kids, b); }
  }

  lemma {:induction false} StopTight(t: Tree, b: nat, m: nat)
    requires Solid(t) && Tight(t)
    ensures Tight(Stop(t, b, m))
    decreases t
  {
    if m > 0 && t.Index? {
      StopTight(t.kids[Pos(Keys(t.kids), b)].sub, b, m - 1);
    }
  }

  /** Making room keeps the keys tight, up to the leaf that waits for e. */
  lemma {:induction false} RoomMadeTight(t: Tree, d: nat, e: Extent, m: nat, spare: seq<nat>)
    requires Solid(t) && Shape(t, d) && m < d <= m + |spare| && Tight(t)
    ensures var r := RoomMade(t, e, d, m, spare); Solid(r) && TightBut(r, e.first)
  {
    hide Split, SplitKey, Shape, Stop, Open, TightBut;
    RouteStep(t, e.first, d, m);
    StopTight(t, e.first, m);
    OpenTight(Stop(t, e.first, m), d - m, e, spare);
    ReplaceTight(t, e.first, m, Opened(t, e, d, m, spare));
  }

  /** Giving up half way leaves the keys tight. */
  lemma {:induction false} BrokenTight(t: Tree, d: nat, e: Extent, n: nat, spare: seq<nat>)
    requires Solid(t) && Shape(t, d) && n <= d + 1 && n <= |spare| && Tight(t)
    ensures Tight(Broken(t, e, d, n, spare))
  {
    hide Split, Shape, Stop, TightBut, Replace;
    if n > 0 {
      var m := d + 1 - n;
      RouteStep(t, e.first, d, m);
      StopTight(t, e.first, m);
      var u := Stop(t, e.first, m);
      SplitLeftTight(u, n - 1, e, spare);
      SplitSolid(u, n - 1, e, spare);
      var l := Split(u, e, n - 1, spare).left;
      TightIsTightBut(l, e.first);
      HeadOfTight(l, e.first);
      ReplaceTight(t, e.first, m, l);
    }
  }

  lemma {:induction false} GrowTight(t: Tree, blk: nat)
    requires Tight(t)
    ensures Tight(Grow(t, blk))
  {
    var g := Grow(t, blk);
    assert Tight(g.kids[0].sub);
  }
}
