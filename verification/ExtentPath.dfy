/** The search path as a place in the tree, and how the step-by-step edits along it add up. */
module ExtentPath {
  import opened Wrappers
  import opened ExtentTree
  import opened ExtentTreeProofs
  import opened ExtentStore
  import opened ExtentInsertProofs
  import opened ExtentSplitProofs

  /** The positions chosen while descending for block b. */
  function Route(t: Tree, b: nat): seq<nat>
    requires Solid(t)
    decreases t
  {
    if t.Leaf? then []
    else
      var p := Pos(Keys(t.kids), b);
      [p] + Route(t.kids[p].sub, b)
  }

  /** The node reached after the first i steps. */
  ghost function Stop(t: Tree, b: nat, i: nat): (u: Tree)
    requires Solid(t)
    ensures Solid(u)
    decreases t
  {
    if i == 0 || t.Leaf? then t
    else Stop(t.kids[Pos(Keys(t.kids), b)].sub, b, i - 1)
  }

  lemma {:induction false} RouteLength(t: Tree, b: nat, d: nat)
    requires Solid(t) && Shape(t, d)
    ensures |Route(t, b)| == d
    decreases t
  {
    if t.Index? {
      RouteLength(t.kids[Pos(Keys(t.kids), b)].sub, b, d - 1);
    }
  }

  /** What is found at step i of the descent. */
  lemma {:induction false} RouteStep(t: Tree, b: nat, d: nat, i: nat)
    requires Solid(t) && Shape(t, d) && i <= d
    ensures |Route(t, b)| == d && Place(t, Route(t, b), i)
    ensures Sub(t, Route(t, b), i) == Stop(t, b, i)
    ensures Shape(Stop(t, b, i), d - i) && LeafAt(Stop(t, b, i), b) == LeafAt(t, b)
    ensures i < d ==> var u := Stop(t, b, i);
                      && u.Index? && Route(t, b)[i] == Pos(Keys(u.kids), b)
                      && Stop(t, b, i + 1) == u.kids[Pos(Keys(u.kids), b)].sub
    decreases t
  {
    hide Pos;
    RouteLength(t, b, d);
    if i > 0 {
      RouteStep(t.kids[Pos(Keys(t.kids), b)].sub, b, d - 1, i - 1);
    }
  }

  lemma {:induction false} StopOfStop(t: Tree, b: nat, m: nat, k: nat)
    requires Solid(t)
    ensures Stop(Stop(t, b, m), b, k) == Stop(t, b, m + k)
    decreases t
  {
    if m > 0 && t.Index? {
      StopOfStop(t.kids[Pos(Keys(t.kids), b)].sub, b, m - 1, k);
    }
  }

  lemma {:induction false} RouteOfStop(t: Tree, b: nat, d: nat, m: nat)
    requires Solid(t) && Shape(t, d) && m <= d
    ensures |Route(t, b)| == d && Route(Stop(t, b, m), b) == Route(t, b)[m..]
    decreases t
  {
    RouteLength(t, b, d);
    if m > 0 {
      RouteOfStop(t.kids[Pos(Keys(t.kids), b)].sub, b, d - 1, m - 1);
    }
  }

  lemma {:induction false} ReplaceDeeper(t: Tree, path: seq<nat>, m: nat, x: Tree)
    requires m < |path| && Place(t, path, m + 1)
    ensures Place(t, path, m)
    ensures var u := Sub(t, path, m);
            && u.Index? && path[m] < |u.kids| && Sub(t, path, m + 1) == u.kids[path[m]].sub
            && Replace(t, path, m + 1, x) ==
               Replace(t, path, m, Index(u.blk, u.kids[path[m] := Kid(u.kids[path[m]].key, x)]))
    decreases m
  {
    if m > 0 {
      ReplaceDeeper(t.kids[path[0]].sub, path[1..], m - 1, x);
    }
  }

  lemma {:induction false} ReplaceTwice(t: Tree, path: seq<nat>, m: nat, x: Tree, y: Tree)
    requires Place(t, path, m)
    ensures Place(Replace(t, path, m, x), path, m)
    ensures Sub(Replace(t, path, m, x), path, m) == x
    ensures Replace(Replace(t, path, m, x), path, m, y) == Replace(t, path, m, y)
    decreases m
  {
    if m > 0 {
      var sub := t.kids[path[0]].sub;
      ReplaceTwice(sub, path[1..], m - 1, x, y);
      var k := Kid(t.kids[path[0]].key, Replace(sub, path[1..], m - 1, y));
      assert Replace(t, path, m, x).kids[path[0] := k] == t.kids[path[0] := k];
    }
  }

  lemma {:induction false} ReplaceSame(t: Tree, path: seq<nat>, m: nat)
    requires Place(t, path, m)
    ensures Replace(t, path, m, Sub(t, path, m)) == t
    decreases m
  {
    if m > 0 {
      ReplaceSame(t.kids[path[0]].sub, path[1..], m - 1);
      var k := t.kids[path[0]];
      assert t.kids[path[0] := Kid(k.key, k.sub)] == t.kids;
    }
  }

  // ---------------------------------------------------------------- replacing along the route

  /** Descending in a tree that was changed at a node of the route, with the keys above kept. */
  lemma {:induction false} RouteReplace(t: Tree, b: nat, d: nat, m: nat, x: Tree)
    requires Solid(t) && Shape(t, d) && m <= d && Solid(x) && Place(t, Route(t, b), m)
    ensures |Route(t, b)| == d
    ensures var r := Replace(t, Route(t, b), m, x);
            Solid(r) && Route(r, b) == Route(t, b)[..m] + Route(x, b) && LeafAt(r, b) == LeafAt(x, b)
    decreases t
  {
    hide Firsts, Pos;
    RouteLength(t, b, d);
    if m == 0 { return; }
    var p := Pos(Keys(t.kids), b);
    var sub := t.kids[p].sub;
    RouteReplace(sub, b, d - 1, m - 1, x);
    var r := Replace(t, Route(t, b), m, x);
    assert Keys(r.kids) == Keys(t.kids);
    assert Route(t, b)[..m] == [p] + Route(sub, b)[..m - 1];
  }

  lemma {:induction false} StopReplace(t: Tree, b: nat, d: nat, m: nat, x: Tree, j: nat)
    requires Solid(t) && Shape(t, d) && m <= d && Solid(x) && Place(t, Route(t, b), m)
    requires Solid(Replace(t, Route(t, b), m, x))
    ensures var r := Replace(t, Route(t, b), m, x);
            if j < m then Stop(r, b, j).blk == Stop(t, b, j).blk else Stop(r, b, j) == Stop(x, b, j - m)
    decreases t
  {
    hide LeafAt, Pos;
    if m > 0 && j > 0 {
      var p := Pos(Keys(t.kids), b);
      var sub := t.kids[p].sub;
      RouteReplace(sub, b, d - 1, m - 1, x);
      StopReplace(sub, b, d - 1, m - 1, x, j - 1);
      assert Keys(Replace(t, Route(t, b), m, x).kids) == Keys(t.kids);
    }
  }

  lemma {:induction false} FlatSplice(kids: seq<Kid>, p: nat, y: Tree, a: seq<Extent>, x: seq<Extent>, c: seq<Extent>)
    requires p < |kids| && Flat(y) == a + x + c
    ensures FlatKids(kids[p := Kid(kids[p].key, y)]) == (FlatKids(kids[..p]) + a) + x + (c + FlatKids(kids[p + 1..]))
  {
    var k := Kid(kids[p].key, y);
    assert kids[p := k] == kids[..p] + [k] + kids[p + 1..];
    FlatParts(kids[..p], k, kids[p + 1..]);
  }

  /** The extents left and right of a place. */
  lemma {:induction false} FlatPlace(t: Tree, path: seq<nat>, m: nat, x: Tree)
      returns (pre: seq<Extent>, post: seq<Extent>)
    requires Place(t, path, m)
    ensures Flat(t) == pre + Flat(Sub(t, path, m)) + post
    ensures Flat(Replace(t, path, m, x)) == pre + Flat(x) + post
    decreases m
  {
    if m == 0 {
      pre, post := [], [];
      return;
    }
    var p, k := path[0], t.kids[path[0]];
    var a, c := FlatPlace(k.sub, path[1..], m - 1, x);
    pre, post := FlatKids(t.kids[..p]) + a, c + FlatKids(t.kids[p + 1..]);
    FlatSplice(t.kids, p, k.sub, a, Flat(Sub(t, path, m)), c);
    assert t.kids[p := Kid(k.key, k.sub)] == t.kids;
    FlatSplice(t.kids, p, Replace(k.sub, path[1..], m - 1, x), a, Flat(x), c);
  }

  // ---------------------------------------------------------------- correcting the keys upwards

  /** Insertion with the keys corrected only at levels k and below (level 0 is the root). */
  function InsertFrom(t: Tree, e: Extent, k: nat): Tree
    requires Solid(t)
    decreases t
  {
    if t.Leaf? then Insert(t, e).tree
    else
      var p := Pos(Keys(t.kids), e.first);
      var border := Insert(t.kids[p].sub, e).border;
      var key := if k == 0 && border.Some? then border.value else t.kids[p].key;
      Index(t.blk, t.kids[p := Kid(key, InsertFrom(t.kids[p].sub, e, if k == 0 then 0 else k - 1))])
  }

  lemma {:induction false} InsertFromRoot(t: Tree, e: Extent)
    requires Solid(t)
    ensures InsertFrom(t, e, 0) == Insert(t, e).tree
    decreases t
  {
    if t.Index? {
      InsertFromRoot(t.kids[Pos(Keys(t.kids), e.first)].sub, e);
    }
  }

  lemma {:induction false} InsertShape(t: Tree, e: Extent, d: nat)
    requires Solid(t) && Shape(t, d)
    ensures Solid(Insert(t, e).tree) && Shape(Insert(t, e).tree, d)
    decreases t
  {
    if t.Index? {
      InsertShape(t.kids[Pos(Keys(t.kids), e.first)].sub, e, d - 1);
    }
  }

  lemma {:induction false} InsertFromLeaf(t: Tree, e: Extent, d: nat)
    requires Solid(t) && Shape(t, d) && Place(t, Route(t, e.first), d)
    ensures InsertFrom(t, e, d) ==
            Replace(t, Route(t, e.first), d, Leaf(Stop(t, e.first, d).blk, PutLeaf(LeafAt(t, e.first), e)))
    decreases t
  {
    if t.Index? {
      var p := Pos(Keys(t.kids), e.first);
      assert Route(t, e.first)[1..] == Route(t.kids[p].sub, e.first);
      InsertFromLeaf(t.kids[p].sub, e, d - 1);
    }
  }

  /** The border that reaches level k from below. */
  ghost function BorderAt(t: Tree, e: Extent, k: nat): Option<nat>
    requires Solid(t)
  {
    Insert(Stop(t, e.first, k), e).border
  }

  lemma {:induction false} BorderUp(t: Tree, e: Extent, d: nat, k: nat)
    requires Solid(t) && Shape(t, d) && k < d
    ensures |Route(t, e.first)| == d
    ensures BorderAt(t, e, k) == if Route(t, e.first)[k] == 0 then BorderAt(t, e, k + 1) else None
  {
    RouteStep(t, e.first, d, k);
  }

  /** One step of ext4_ext_correct_indexes: the key at level k takes the border from below. */
  lemma {:induction false} InsertFromStep(t: Tree, e: Extent, d: nat, k: nat)
    requires Solid(t) && Shape(t, d) && k < d
    ensures |Route(t, e.first)| == d && Place(InsertFrom(t, e, k + 1), Route(t, e.first), k)
    ensures var u, p := Sub(InsertFrom(t, e, k + 1), Route(t, e.first), k), Route(t, e.first)[k];
            && u.Index? && p < |u.kids| && u.blk == Stop(t, e.first, k).blk
            && InsertFrom(t, e, k) ==
                 Replace(InsertFrom(t, e, k + 1), Route(t, e.first), k, Rekeyed(u, p, BorderAt(t, e, k + 1)))
    decreases t
  {
    RouteLength(t, e.first, d);
    if k == 0 {
      InsertFromTop(t, e, d);
    } else {
      var p := Pos(Keys(t.kids), e.first);
      InsertFromStep(t.kids[p].sub, e, d - 1, k - 1);
      InsertFromBelow(t, e, d, k, p);
    }
  }

  lemma {:induction false} InsertFromTop(t: Tree, e: Extent, d: nat)
    requires Solid(t) && Shape(t, d) && d > 0
    ensures var r, p := InsertFrom(t, e, 1), Route(t, e.first)[0];
            InsertFrom(t, e, 0) == Rekeyed(r, p, BorderAt(t, e, 1))
  {
    var p := Pos(Keys(t.kids), e.first);
    var sub := t.kids[p].sub;
    var r := InsertFrom(t, e, 1);
    assert Stop(t, e.first, 1) == Stop(sub, e.first, 0) == sub;
    var key := Rekeyed(r, p, BorderAt(t, e, 1)).kids[p].key;
    assert r.kids[p := Kid(key, r.kids[p].sub)] == t.kids[p := Kid(key, r.kids[p].sub)];
  }

  lemma {:induction false} InsertFromBelow(t: Tree, e: Extent, d: nat, k: nat, p: nat)
    requires Solid(t) && Shape(t, d) && 0 < k < d && p == Pos(Keys(t.kids), e.first)
    requires var sub := t.kids[p].sub;
             && |Route(sub, e.first)| == d - 1 && Place(InsertFrom(sub, e, k), Route(sub, e.first), k - 1)
             && var u, q := Sub(InsertFrom(sub, e, k), Route(sub, e.first), k - 1), Route(sub, e.first)[k - 1];
                && u.Index? && q < |u.kids| && u.blk == Stop(sub, e.first, k - 1).blk
                && InsertFrom(sub, e, k - 1) ==
                     Replace(InsertFrom(sub, e, k), Route(sub, e.first), k - 1, Rekeyed(u, q, BorderAt(sub, e, k)))
    ensures |Route(t, e.first)| == d && Place(InsertFrom(t, e, k + 1), Route(t, e.first), k)
    ensures var u, q := Sub(InsertFrom(t, e, k + 1), Route(t, e.first), k), Route(t, e.first)[k];
            && u.Index? && q < |u.kids| && u.blk == Stop(t, e.first, k).blk
            && InsertFrom(t, e, k) ==
                 Replace(InsertFrom(t, e, k + 1), Route(t, e.first), k, Rekeyed(u, q, BorderAt(t, e, k + 1)))
  {
    var sub := t.kids[p].sub;
    InsertFromDeep(t, e, d, k, p);
    assert Route(t, e.first)[1..] == Route(sub, e.first);
    var r, y := InsertFrom(t, e, k + 1), InsertFrom(sub, e, k - 1);
    assert r.kids[p := Kid(r.kids[p].key, y)] == t.kids[p := Kid(t.kids[p].key, y)];
  }

  /** A node whose entry p takes a new key, if there is one. */
  function Rekeyed(u: Tree, p: nat, border: Option<nat>): Tree
    requires u.Index? && p < |u.kids|
  {
    Index(u.blk, u.kids[p := Kid(if border.Some? then border.value else u.kids[p].key, u.kids[p].sub)])
  }

  lemma {:induction false} InsertFromDeep(t: Tree, e: Extent, d: nat, k: nat, p: nat)
    requires Solid(t) && Shape(t, d) && 0 < k < d && p == Pos(Keys(t.kids), e.first)
    ensures var sub := t.kids[p].sub;
            && InsertFrom(t, e, k + 1) == Index(t.blk, t.kids[p := Kid(t.kids[p].key, InsertFrom(sub, e, k))])
            && InsertFrom(t, e, k) == Index(t.blk, t.kids[p := Kid(t.kids[p].key, InsertFrom(sub, e, k - 1))])
  {
  }

  /** Once the border stops, the keys above are right already. */
  lemma {:induction false} InsertFromStops(t: Tree, e: Extent, d: nat, k: nat)
    requires Solid(t) && Shape(t, d) && k <= d && BorderAt(t, e, k) == None
    ensures InsertFrom(t, e, k) == InsertFrom(t, e, 0)
    decreases k
  {
    hide Stop, Insert, InsertFrom, Solid, Shape, Route, Place;
    if k > 0 {
      InsertFromStep(t, e, d, k - 1);
      BorderUp(t, e, d, k - 1);
      var r := InsertFrom(t, e, k);
      var u, p := Sub(r, Route(t, e.first), k - 1), Route(t, e.first)[k - 1];
      assert u.kids[p := Kid(u.kids[p].key, u.kids[p].sub)] == u.kids;
      ReplaceSame(r, Route(t, e.first), k - 1);
      InsertFromStops(t, e, d, k - 1);
    }
  }

  // ---------------------------------------------------------------- bounds along the route

  ghost function StopLo(t: Tree, lo: nat, b: nat, m: nat): nat
    requires Solid(t)
    decreases t
  {
    if m == 0 || t.Leaf? then lo
    else
      var p := Pos(Keys(t.kids), b);
      StopLo(t.kids[p].sub, t.kids[p].key, b, m - 1)
  }

  ghost function StopHi(t: Tree, hi: nat, b: nat, m: nat): nat
    requires Solid(t)
    decreases t
  {
    if m == 0 || t.Leaf? then hi
    else
      var p := Pos(Keys(t.kids), b);
      StopHi(t.kids[p].sub, Limit(t.kids, p, hi), b, m - 1)
  }

  lemma {:induction false} KidWF(t: Tree, d: nat, lo: nat, hi: nat, p: nat)
    requires WF(t, d, lo, hi) && t.Index? && p < |t.kids|
    ensures d > 0 && WF(t.kids[p].sub, d - 1, t.kids[p].key, Limit(t.kids, p, hi))
  {
    assert KidsOk(t.kids, d - 1, lo, hi);
  }

  /** Replacing a child by a tree that is well formed in the same range. */
  lemma {:induction false} KidSwapWF(t: Tree, d: nat, lo: nat, hi: nat, p: nat, y: Tree)
    requires WF(t, d, lo, hi) && t.Index? && p < |t.kids| && d > 0
    requires WF(y, d - 1, t.kids[p].key, Limit(t.kids, p, hi))
    ensures WF(Index(t.blk, t.kids[p := Kid(t.kids[p].key, y)]), d, lo, hi)
  {
    hide LeafOk;
    assert KidsOk(t.kids, d - 1, lo, hi);
    KidsReplace(t.kids, d - 1, lo, hi, p, Kid(t.kids[p].key, y), lo);
  }

  lemma {:induction false} StopWF(t: Tree, d: nat, lo: nat, hi: nat, b: nat, m: nat)
    requires WF(t, d, lo, hi) && Solid(t) && Shape(t, d) && m <= d
    ensures WF(Stop(t, b, m), d - m, StopLo(t, lo, b, m), StopHi(t, hi, b, m))
    decreases t
  {
    hide WF;
    if m > 0 {
      var p := Pos(Keys(t.kids), b);
      KidWF(t, d, lo, hi, p);
      StopWF(t.kids[p].sub, d - 1, t.kids[p].key, Limit(t.kids, p, hi), b, m - 1);
    }
  }

  lemma {:induction false} ReplaceWF(t: Tree, d: nat, lo: nat, hi: nat, b: nat, m: nat, x: Tree)
    requires WF(t, d, lo, hi) && Solid(t) && Shape(t, d) && m <= d && Place(t, Route(t, b), m)
    requires WF(x, d - m, StopLo(t, lo, b, m), StopHi(t, hi, b, m))
    ensures WF(Replace(t, Route(t, b), m, x), d, lo, hi)
    decreases t
  {
    hide WF;
    if m > 0 {
      var p := Pos(Keys(t.kids), b);
      var sub := t.kids[p].sub;
      KidWF(t, d, lo, hi, p);
      ReplaceWF(sub, d - 1, t.kids[p].key, Limit(t.kids, p, hi), b, m - 1, x);
      KidSwapWF(t, d, lo, hi, p, Replace(sub, Route(sub, b), m - 1, x));
    }
  }

  lemma {:induction false} ReplaceWithin(t: Tree, cap: nat, c: nat, b: nat, m: nat, x: Tree)
    requires Solid(t) && Within(t, cap, c) && Place(t, Route(t, b), m)
    requires Within(x, if m == 0 then cap else c, c)
    ensures Within(Replace(t, Route(t, b), m, x), cap, c)
    ensures Within(Stop(t, b, m), if m == 0 then cap else c, c)
    decreases t
  {
    if m > 0 {
      var p := Pos(Keys(t.kids), b);
      ReplaceWithin(t.kids[p].sub, c, c, b, m - 1, x);
    }
  }

  // ---------------------------------------------------------------- the route after a split

  lemma {:induction false} LeftRoute(t: Tree, e: Extent, d: nat, spare: seq<nat>, j: nat)
    requires Solid(t) && Shape(t, d) && d < |spare| && j <= d
    ensures var l := Split(t, e, d, spare).left;
            Solid(l) && Route(l, e.first) == Route(t, e.first) && Stop(l, e.first, j).blk == Stop(t, e.first, j).blk
    decreases t
  {
    SplitSolid(t, d, e, spare);
    if t.Index? {
      var p := Pos(Keys(t.kids), e.first);
      LeftRoute(t.kids[p].sub, e, d - 1, spare, if j == 0 then 0 else j - 1);
      LeftPos(t.kids, p, Split(t.kids[p].sub, e, d - 1, spare).left, e.first);
    }
  }

  lemma {:induction false} LeftLeaf(t: Tree, e: Extent, d: nat, spare: seq<nat>)
    requires Solid(t) && Shape(t, d) && d < |spare| && LeafAt(t, e.first) != []
    ensures var l := Split(t, e, d, spare).left;
            var p := Pos(Firsts(LeafAt(t, e.first)), e.first);
            Solid(l) && LeafAt(l, e.first) == LeafAt(t, e.first)[..p + 1]
            && Pos(Firsts(LeafAt(l, e.first)), e.first) == p
    decreases t
  {
    hide Pos, SplitKey;
    SplitSolid(t, d, e, spare);
    if t.Index? {
      var p := Pos(Keys(t.kids), e.first);
      LeftLeaf(t.kids[p].sub, e, d - 1, spare);
      LeftPos(t.kids, p, Split(t.kids[p].sub, e, d - 1, spare).left, e.first);
    } else {
      var p := Pos(Firsts(t.exts), e.first);
      assert Firsts(t.exts[..p + 1])[p] == Firsts(t.exts)[p];
      PosUnique(Firsts(t.exts[..p + 1]), e.first, p);
    }
  }

  function Zeros(n: nat): seq<nat> { seq(n, _ => 0) }

  lemma {:induction false} NextBeyond(exts: seq<Extent>, b: nat)
    requires exts != []
    ensures var p := Pos(Firsts(exts), b); p + 1 < |exts| ==> b < exts[p + 1].first
  {
    var fs := Firsts(exts);
    var p := Pos(fs, b);
    assert p + 1 < |exts| ==> b < fs[p + 1];
  }

  lemma {:induction false} RightRoute(t: Tree, e: Extent, d: nat, spare: seq<nat>, j: nat)
    requires Solid(t) && Shape(t, d) && d < |spare| && j <= d && SplitKey(t, e) <= e.first
    ensures var r := Split(t, e, d, spare).right;
            Solid(r) && Route(r, e.first) == Zeros(d) && LeafAt(r, e.first) == [] &&
              Stop(r, e.first, j).blk == spare[d - j]
    decreases t
  {
    hide Pos;
    SplitSolid(t, d, e, spare);
    if t.Index? {
      var p := Pos(Keys(t.kids), e.first);
      var h := Split(t.kids[p].sub, e, d - 1, spare);
      RightRoute(t.kids[p].sub, e, d - 1, spare, if j == 0 then 0 else j - 1);
      RightPos(t.kids, p, SplitKey(t, e), h.right, e.first);
      assert Zeros(d) == [0] + Zeros(d - 1);
    } else if t.exts != [] {
      NextBeyond(t.exts, e.first);
    }
  }

  // ---------------------------------------------------------------- making room is one change

  /** A node with its child on the route split in two. */
  ghost function Open(u: Tree, e: Extent, d: nat, spare: seq<nat>): Tree
    requires Solid(u) && Shape(u, d) && 0 < d <= |spare|
  {
    var p := Pos(Keys(u.kids), e.first);
    var h := Split(u.kids[p].sub, e, d - 1, spare);
    Index(u.blk, LeftKids(u.kids, p, h.left) + RightKids(u.kids, p, SplitKey(u, e), h.right))
  }

  /** The node at level m with its child on the route split in two. */
  ghost function Opened(t: Tree, e: Extent, d: nat, m: nat, spare: seq<nat>): Tree
    requires Solid(t) && Shape(t, d) && m < d <= m + |spare|
  {
    RouteStep(t, e.first, d, m);
    Open(Stop(t, e.first, m), e, d - m, spare)
  }

  /** The tree after ext4_ext_split_node split every level below m. */
  ghost function RoomMade(t: Tree, e: Extent, d: nat, m: nat, spare: seq<nat>): Tree
    requires Solid(t) && Shape(t, d) && m < d <= m + |spare|
  {
    RouteStep(t, e.first, d, m);
    Replace(t, Route(t, e.first), m, Opened(t, e, d, m, spare))
  }

  /** The tree after splitting the n lowest levels when no block is left for the next one: the
      left halves stay, the right halves are given up. */
  ghost function Broken(t: Tree, e: Extent, d: nat, n: nat, spare: seq<nat>): Tree
    requires Solid(t) && Shape(t, d) && n <= d + 1 && n <= |spare|
  {
    if n == 0 then t
    else
      RouteStep(t, e.first, d, d + 1 - n);
      Replace(t, Route(t, e.first), d + 1 - n, Split(Stop(t, e.first, d + 1 - n), e, n - 1, spare).left)
  }

  /** Whether there is room is decided in the leaf alone. */
  lemma {:induction false} RoomyAtLeaf(t: Tree, e: Extent, cap: nat, b: nat, d: nat)
    requires Solid(t) && Shape(t, d)
    ensures var exts := LeafAt(t, e.first);
            Roomy(t, e, cap, b) <==> Appends(exts, e) || Prepends(exts, e) || |exts| < (if d == 0 then cap else b)
    ensures Within(t, cap, b) ==> |LeafAt(t, e.first)| <= if d == 0 then cap else b
    decreases t
  {
    if t.Index? {
      RoomyAtLeaf(t.kids[Pos(Keys(t.kids), e.first)].sub, e, b, b, d - 1);
    }
  }

  lemma {:induction false} RoomyReplace(t: Tree, e: Extent, cap: nat, b: nat, m: nat, x: Tree)
    requires Solid(t) && Solid(x) && Place(t, Route(t, e.first), m) && Solid(Replace(t, Route(t, e.first), m, x))
    ensures Roomy(Replace(t, Route(t, e.first), m, x), e, cap, b) == Roomy(x, e, if m == 0 then cap else b, b)
    decreases t
  {
    if m > 0 {
      var sub := t.kids[Pos(Keys(t.kids), e.first)].sub;
      assert Keys(Replace(t, Route(t, e.first), m, x).kids) == Keys(t.kids);
      RoomyReplace(sub, e, b, b, m - 1, x);
    }
  }

  lemma {:induction false} LimitReplace(t: Tree, b: nat, hi: nat, m: nat, x: Tree)
    requires Solid(t) && Solid(x) && Place(t, Route(t, b), m) && Solid(Replace(t, Route(t, b), m, x))
    ensures LeafLimit(Replace(t, Route(t, b), m, x), b, hi) == LeafLimit(x, b, StopHi(t, hi, b, m))
    decreases t
  {
    if m > 0 {
      var p := Pos(Keys(t.kids), b);
      assert Keys(Replace(t, Route(t, b), m, x).kids) == Keys(t.kids);
      LimitReplace(t.kids[p].sub, b, Limit(t.kids, p, hi), m - 1, x);
    }
  }
}
