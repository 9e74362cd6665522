/** One level of ext4_ext_split_node at a time: what the block store holds half way. */
module ExtentSplitStore {
  import opened ExtentTree
  import opened ExtentTreeProofs
  import opened ExtentSplitProofs
  import opened ExtentStore
  import opened ExtentStoreProofs
  import opened ExtentPath

  lemma {:induction false} SubDistinct(t: Tree, path: seq<nat>, m: nat)
    requires Place(t, path, m) && Distinct(t)
    ensures Distinct(Sub(t, path, m))
    decreases m
  {
    if m > 0 {
      SubDistinct(t.kids[path[0]].sub, path[1..], m - 1);
    }
  }

  /** The route node at level m uses no spare block and no block twice. */
  lemma {:induction false} StopClean(t: Tree, b: nat, d: nat, m: nat, spare: seq<nat>)
    requires Solid(t) && Shape(t, d) && Distinct(t) && m <= d && SpareOk(spare, t)
    ensures Distinct(Stop(t, b, m)) && SpareOk(spare, Stop(t, b, m))
    ensures forall x :: Uses(Stop(t, b, m), x) ==> Uses(t, x)
  {
    RouteStep(t, b, d, m);
    SubDistinct(t, Route(t, b), m);
    forall x | Uses(Stop(t, b, m), x) ensures Uses(t, x) { SubUses(t, Route(t, b), m, x); }
  }

  /** The detached right half after n levels. */
  ghost function RightOf(t: Tree, e: Extent, d: nat, n: nat, spare: seq<nat>): Tree
    requires Solid(t) && Shape(t, d) && 1 <= n <= d + 1 && n <= |spare|
  {
    RouteStep(t, e.first, d, d + 1 - n);
    Split(Stop(t, e.first, d + 1 - n), e, n - 1, spare).right
  }

  ghost function LeftOf(t: Tree, e: Extent, d: nat, n: nat, spare: seq<nat>): Tree
    requires Solid(t) && Shape(t, d) && 1 <= n <= d + 1 && n <= |spare|
  {
    RouteStep(t, e.first, d, d + 1 - n);
    Split(Stop(t, e.first, d + 1 - n), e, n - 1, spare).left
  }

  /** The store after the n lowest levels of the path of t were split. */
  ghost predicate Halfway(s: Store, t: Tree, e: Extent, d: nat, n: nat, spare: seq<nat>)
    requires Solid(t) && Shape(t, d) && n <= d + 1 && n <= |spare|
  {
    var r := Broken(t, e, d, n, spare);
    && Rep(s, r) && Distinct(r) && UsesOnly(r, t, {}) && r.blk == t.blk
    && (n > 0 ==> Rep(s, RightOf(t, e, d, n, spare)) && Apart(r, RightOf(t, e, d, n, spare)))
  }

  ghost predicate Clean(t: Tree, d: nat, spare: seq<nat>) {
    Solid(t) && Shape(t, d) && Distinct(t) && SpareOk(spare, t)
  }

  /** What Broken replaces. */
  lemma {:induction false} BrokenIs(t: Tree, e: Extent, d: nat, n: nat, spare: seq<nat>)
    requires Solid(t) && Shape(t, d) && 1 <= n <= d + 1 && n <= |spare|
    ensures |Route(t, e.first)| == d && Place(t, Route(t, e.first), d + 1 - n)
    ensures Broken(t, e, d, n, spare) == Replace(t, Route(t, e.first), d + 1 - n, LeftOf(t, e, d, n, spare))
  {
    RouteStep(t, e.first, d, d + 1 - n);
  }

  lemma {:induction false} HalvesOf(t: Tree, e: Extent, d: nat, n: nat, spare: seq<nat>)
    requires Clean(t, d, spare) && 1 <= n <= d + 1 && n <= |spare|
    ensures HalvesApart(Stop(t, e.first, d + 1 - n), LeftOf(t, e, d, n, spare), RightOf(t, e, d, n, spare),
            First(spare, n))
    ensures Unused(t, First(spare, n))
  {
    hide Split, Route, Place, Sub, LeafAt, Keys, Uses, HalvesApart;
    RouteStep(t, e.first, d, d + 1 - n);
    StopClean(t, e.first, d, d + 1 - n, spare);
    SplitApart(Stop(t, e.first, d + 1 - n), e, n - 1, spare);
  }

  /** Whatever replaces a route node by its left half keeps away from its right half. */
  lemma {:induction false} SwappedApart(r: Tree, t: Tree, u: Tree, x: Tree, y: Tree, extra: set<nat>)
    requires Swapped(r, t, u, x) && HalvesApart(u, x, y, extra) && Unused(t, extra)
    ensures Apart(r, y)
  {
  }

  lemma {:induction false} HalfwayStart(s: Store, t: Tree, e: Extent, d: nat, spare: seq<nat>)
    requires Clean(t, d, spare) && Rep(s, t)
    ensures Halfway(s, t, e, d, 0, spare)
  {
  }

  /** The first level: the leaf. */
  lemma {:induction false} HalfwayLeaf(s: Store, t: Tree, e: Extent, d: nat, spare: seq<nat>)
    requires Clean(t, d, spare) && spare != [] && Rep(s, t)
    ensures |Route(t, e.first)| == d
    ensures var x, y := LeftOf(t, e, d, 1, spare), RightOf(t, e, d, 1, spare);
            x.blk == Stop(t, e.first, d).blk &&
              Halfway(s[spare[0] := NodeOf(y)][x.blk := NodeOf(x)], t, e, d, 1, spare)
  {
    var path := Route(t, e.first);
    RouteStep(t, e.first, d, d);
    var u, x, y := Stop(t, e.first, d), LeftOf(t, e, d, 1, spare), RightOf(t, e, d, 1, spare);
    var s' := s[spare[0] := NodeOf(y)][x.blk := NodeOf(x)];
    StopClean(t, e.first, d, d, spare);
    SplitLeafRep(s, u, if u.exts == [] then 0 else Pos(Firsts(u.exts), e.first) + 1, spare[0]);
    HalvesOf(t, e, d, 1, spare);
    ReplaceRep(s, s', t, path, d, x);
    BrokenIs(t, e, d, 1, spare);
    SwappedShrinks(Broken(t, e, d, 1, spare), t, path, d, x);
    SwappedApart(Broken(t, e, d, 1, spare), t, u, x, y, First(spare, 1));
  }

  lemma {:induction false} ReplaceSwapped(t: Tree, path: seq<nat>, m: nat, x: Tree)
    requires Place(t, path, m) && Distinct(t)
    ensures Swapped(Replace(t, path, m, x), t, Sub(t, path, m), x)
    decreases m
  {
    if m > 0 {
      var p, sub := path[0], t.kids[path[0]].sub;
      ReplaceSwapped(sub, path[1..], m - 1, x);
      SwapKid(t, p, Replace(sub, path[1..], m - 1, x));
      forall b | Uses(Sub(sub, path[1..], m - 1), b) ensures Uses(sub, b) { SubUses(sub, path[1..], m - 1, b); }
    }
  }

  lemma {:induction false} SwapKid(t: Tree, p: nat, y: Tree)
    requires t.Index? && p < |t.kids| && Distinct(t)
    ensures Swapped(Index(t.blk, t.kids[p := Kid(t.kids[p].key, y)]), t, t.kids[p].sub, y)
  {
    var r := Index(t.blk, t.kids[p := Kid(t.kids[p].key, y)]);
    assert Uses(t, t.blk);
    forall b | Uses(r, b) && !Uses(y, b) ensures Uses(t, b) && !Uses(t.kids[p].sub, b) {
      if b != t.blk {
        var i :| 0 <= i < |r.kids| && Uses(r.kids[i].sub, b);
        assert i < p ==> Apart(t.kids[i].sub, t.kids[p].sub);
        assert p < i ==> Apart(t.kids[p].sub, t.kids[i].sub);
        assert Uses(t.kids[i].sub, b);
      }
    }
  }

  lemma {:induction false} SplitKeyStop(t: Tree, e: Extent, d: nat, m: nat)
    requires Solid(t) && Shape(t, d) && m <= d
    ensures SplitKey(Stop(t, e.first, m), e) == SplitKey(t, e)
  {
    RouteStep(t, e.first, d, m);
  }

  /** The halves one level up, in terms of the halves below. */
  lemma {:induction false} HalvesUp(t: Tree, e: Extent, d: nat, n: nat, spare: seq<nat>)
    requires Solid(t) && Shape(t, d) && 1 <= n <= d && n < |spare|
    ensures var u := Stop(t, e.first, d - n);
            && u.Index? && u.kids != []
            && var p := Pos(Keys(u.kids), e.first);
               && u.kids[p].sub == Stop(t, e.first, d + 1 - n)
               && LeftOf(t, e, d, n + 1, spare) == Index(u.blk, LeftKids(u.kids, p, LeftOf(t, e, d, n, spare)))
               && RightOf(t, e, d, n + 1, spare) ==
                  Index(spare[n], RightKids(u.kids, p, SplitKey(t, e), RightOf(t, e, d, n, spare)))
  {
    hide Route, Place, Sub, SplitKey, LeafAt;
    RouteStep(t, e.first, d, d - n);
    RouteStep(t, e.first, d, d + 1 - n);
    SplitKeyStop(t, e, d, d - n);
  }

  lemma {:induction false} LevelUp(t: Tree, e: Extent, d: nat, n: nat, spare: seq<nat>)
    requires Solid(t) && Shape(t, d) && 1 <= n <= d && n < |spare|
    ensures |Route(t, e.first)| == d && Place(t, Route(t, e.first), d - n)
    ensures var u, p := Stop(t, e.first, d - n), Route(t, e.first)[d - n];
            && u.Index? && p < |u.kids| && u == Sub(t, Route(t, e.first), d - n)
            && u.kids[p].sub == Stop(t, e.first, d + 1 - n)
            && LeftOf(t, e, d, n + 1, spare) == Index(u.blk, LeftKids(u.kids, p, LeftOf(t, e, d, n, spare)))
            && RightOf(t, e, d, n + 1, spare) ==
               Index(spare[n], RightKids(u.kids, p, SplitKey(t, e), RightOf(t, e, d, n, spare)))
            && Broken(t, e, d, n, spare) ==
                 Replace(t, Route(t, e.first), d - n,
                   Index(u.blk, u.kids[p := Kid(u.kids[p].key, LeftOf(t, e, d, n, spare))]))
  {
    hide Broken, Replace, Sub, Place, Route, SplitKey, LeftOf, RightOf, Solid, Shape, Stop;
    HalvesUp(t, e, d, n, spare);
    RouteStep(t, e.first, d, d - n);
    BrokenIs(t, e, d, n, spare);
    ReplaceDeeper(t, Route(t, e.first), d - n, LeftOf(t, e, d, n, spare));
  }

  lemma {:induction false} LeftInside(u: Tree, p: nat, l: Tree)
    requires u.Index? && p < |u.kids|
    ensures UsesOnly(Index(u.blk, LeftKids(u.kids, p, l)), Index(u.blk, u.kids[p := Kid(u.kids[p].key, l)]), {})
  {
    var x, z := Index(u.blk, LeftKids(u.kids, p, l)), Index(u.blk, u.kids[p := Kid(u.kids[p].key, l)]);
    forall i | 0 <= i < |x.kids| ensures x.kids[i] == z.kids[i] {}
  }

  /** Splitting the index node u, whose child p was already split, inside the tree w. */
  lemma {:induction false} IndexStep(s: Store, w: Tree, path: seq<nat>, m: nat, u: Tree, p: nat, k: nat, l: Tree,
      r: Tree, nb: nat, extra: set<nat>)
    requires Place(w, path, m) && Rep(s, w) && Distinct(w) && !Uses(w, nb)
    requires u.Index? && p < |u.kids| && Sub(w, path, m) == Index(u.blk, u.kids[p := Kid(u.kids[p].key, l)])
    requires Distinct(u) && HalvesApart(u.kids[p].sub, l, r, extra) && Unused(u, extra) && !Uses(u, nb) &&
             nb !in extra
    requires Rep(s, r)
    ensures var x, y := Index(u.blk, LeftKids(u.kids, p, l)), Index(nb, RightKids(u.kids, p, k, r));
            var s' := s[nb := NodeOf(y)][u.blk := NodeOf(x)];
            Rep(s', Replace(w, path, m, x)) && Distinct(Replace(w, path, m, x)) && Rep(s', y)
  {
    var x, y := Index(u.blk, LeftKids(u.kids, p, l)), Index(nb, RightKids(u.kids, p, k, r));
    var z := Sub(w, path, m);
    SubRep(s, w, path, m);
    assert Rep(s, z.kids[p].sub);
    forall i | 0 <= i < |u.kids| && i != p ensures Rep(s, u.kids[i].sub) { assert z.kids[i] == u.kids[i]; }
    SplitRep(s, u, p, k, l, r, nb, extra);
    SplitDistinct(u, p, k, l, r, nb, extra);
    LeftInside(u, p, l);
    assert Uses(z, u.blk);
    ReplaceRep(s, s[nb := NodeOf(y)][u.blk := NodeOf(x)], w, path, m, x);
  }

  /** The next level up: an index node. */
  lemma {:induction false} HalfwayIndex(s: Store, t: Tree, e: Extent, d: nat, n: nat, spare: seq<nat>)
    requires Clean(t, d, spare) && 1 <= n <= d && n < |spare| && Halfway(s, t, e, d, n, spare)
    ensures var x, y := LeftOf(t, e, d, n + 1, spare), RightOf(t, e, d, n + 1, spare);
            Halfway(s[spare[n] := NodeOf(y)][x.blk := NodeOf(x)], t, e, d, n + 1, spare)
  {
    hide Uses, Rep, Distinct, Solid, Shape, Split, Route, Stop, Broken, SplitKey, HalvesApart;
    var path := Route(t, e.first);
    LevelUp(t, e, d, n, spare);
    var u, p := Stop(t, e.first, d - n), path[d - n];
    var l, r := LeftOf(t, e, d, n, spare), RightOf(t, e, d, n, spare);
    var x, y := LeftOf(t, e, d, n + 1, spare), RightOf(t, e, d, n + 1, spare);
    HalvesOf(t, e, d, n, spare);
    StopClean(t, e.first, d, d - n, spare);
    FirstNext(spare, n, u);
    ReplaceTwice(t, path, d - n, Index(u.blk, u.kids[p := Kid(u.kids[p].key, l)]), x);
    IndexStep(s, Broken(t, e, d, n, spare), path, d - n, u, p, SplitKey(t, e), l, r, spare[n], First(spare, n));
    BrokenIs(t, e, d, n + 1, spare);
    HalfwayDone(s[spare[n] := NodeOf(y)][x.blk := NodeOf(x)], t, e, d, n + 1, spare);
  }

  lemma {:induction false} HalfwayDone(s: Store, t: Tree, e: Extent, d: nat, n: nat, spare: seq<nat>)
    requires Clean(t, d, spare) && 1 <= n <= d + 1 && n <= |spare|
    requires var r := Broken(t, e, d, n, spare); Rep(s, r) && Distinct(r)
    requires Rep(s, RightOf(t, e, d, n, spare))
    ensures Halfway(s, t, e, d, n, spare)
  {
    BrokenIs(t, e, d, n, spare);
    HalvesOf(t, e, d, n, spare);
    RouteStep(t, e.first, d, d + 1 - n);
    var path, x := Route(t, e.first), LeftOf(t, e, d, n, spare);
    ReplaceSwapped(t, path, d + 1 - n, x);
    SwappedShrinks(Broken(t, e, d, n, spare), t, path, d + 1 - n, x);
    SwappedApart(Broken(t, e, d, n, spare), t, Stop(t, e.first, d + 1 - n), x, RightOf(t, e, d, n, spare),
      First(spare, n));
    RootKept(t, path, d + 1 - n, x);
  }

  lemma {:induction false} RootKept(t: Tree, path: seq<nat>, m: nat, x: Tree)
    requires Place(t, path, m) && x.blk == Sub(t, path, m).blk
    ensures Replace(t, path, m, x).blk == t.blk
  {
  }

  /** Both halves of child p of u become children of the node that stands for u in w. */
  lemma {:induction false} JoinNode(s: Store, w: Tree, path: seq<nat>, m: nat, u: Tree, p: nat, k: nat, l: Tree,
      r: Tree, extra: set<nat>)
    requires Place(w, path, m) && Rep(s, w) && Distinct(w) && Apart(w, r)
    requires u.Index? && p < |u.kids| && Sub(w, path, m) == Index(u.blk, u.kids[p := Kid(u.kids[p].key, l)])
    requires Distinct(u) && HalvesApart(u.kids[p].sub, l, r, extra) && Unused(u, extra) && Rep(s, r)
    ensures var x := Index(u.blk, LeftKids(u.kids, p, l) + RightKids(u.kids, p, k, r));
            && Rep(s[u.blk := NodeOf(x)], Replace(w, path, m, x)) && Distinct(Replace(w, path, m, x))
            && UsesOnly(x, u, extra)
  {
    var x := Index(u.blk, LeftKids(u.kids, p, l) + RightKids(u.kids, p, k, r));
    SubRep(s, w, path, m);
    JoinDistinct(u, p, k, l, r, extra);
    JoinParts(s, u, p, k, l, r, Sub(w, path, m), x, w);
    WriteNode(s, w, path, m, x);
  }

  /** The last step: the detached right half becomes a child of the node above. */
  lemma {:induction false} JoinStore(s: Store, t: Tree, e: Extent, d: nat, n: nat, spare: seq<nat>)
    requires Clean(t, d, spare) && 1 <= n <= d && n <= |spare| && Halfway(s, t, e, d, n, spare)
    ensures var x, r := Opened(t, e, d, d - n, spare), RoomMade(t, e, d, d - n, spare);
            && Rep(s[x.blk := NodeOf(x)], r) && Distinct(r) && r.blk == t.blk
            && UsesOnly(r, t, First(spare, n))
  {
    hide Uses, Rep, Distinct, Solid, Shape, Split, Route, Stop, Broken, SplitKey, SpareOk;
    var path, m := Route(t, e.first), d - n;
    RouteStep(t, e.first, d, m);
    RouteStep(t, e.first, d, m + 1);
    var u, p := Stop(t, e.first, m), path[m];
    var l, r := LeftOf(t, e, d, n, spare), RightOf(t, e, d, n, spare);
    var x := Opened(t, e, d, m, spare);
    BrokenIs(t, e, d, n, spare);
    ReplaceDeeper(t, path, m, l);
    ReplaceTwice(t, path, m, Index(u.blk, u.kids[p := Kid(u.kids[p].key, l)]), x);
    HalvesOf(t, e, d, n, spare);
    StopClean(t, e.first, d, m, spare);
    JoinNode(s, Broken(t, e, d, n, spare), path, m, u, p, SplitKey(u, e), l, r, First(spare, n));
    ReplaceSwapped(t, path, m, x);
    RootKept(t, path, m, x);
  }

  lemma {:induction false} JoinParts(s: Store, u: Tree, p: nat, k: nat, l: Tree, r: Tree, z: Tree, x: Tree, w: Tree)
    requires u.Index? && p < |u.kids|
    requires z == Index(u.blk, u.kids[p := Kid(u.kids[p].key, l)]) && Rep(s, z) && Rep(s, r)
    requires x == Index(u.blk, LeftKids(u.kids, p, l) + RightKids(u.kids, p, k, r))
    requires Apart(w, r)
    ensures forall i :: 0 <= i < |x.kids| ==> Rep(s, x.kids[i].sub)
    ensures Fits(x, z, w)
  {
    forall i | 0 <= i < |x.kids| && i != p + 1 ensures x.kids[i].sub == z.kids[if i <= p then i else i - 1].sub {
      assert x.kids[i].sub == Joined(u, p, l, r, i);
    }
    assert x.kids[p + 1].sub == r;
    forall b | Uses(x, b) ensures Uses(z, b) || !Uses(w, b) {
      if b != u.blk {
        var i :| 0 <= i < |x.kids| && Uses(x.kids[i].sub, b);
        if i != p + 1 { assert Uses(z.kids[if i <= p then i else i - 1].sub, b); }
      }
    }
  }

  // ---------------------------------------------------------------- in terms of the stored entries

  /** Splitting the leaf in the store. */
  lemma {:induction false} LeafLevel(s: Store, s': Store, t: Tree, e: Extent, d: nat, spare: seq<nat>, blk: nat,
      exts: seq<Extent>, p: nat)
    requires Clean(t, d, spare) && spare != [] && Rep(s, t)
    requires blk == Stop(t, e.first, d).blk && exts == LeafAt(t, e.first)
    requires p == if exts == [] then 0 else Pos(Firsts(exts), e.first) + 1
    requires s' == s[spare[0] := LeafNode(exts[p..])][blk := LeafNode(exts[..p])]
    ensures Halfway(s', t, e, d, 1, spare)
  {
    HalfwayLeaf(s, t, e, d, spare);
    RouteStep(t, e.first, d, d);
  }

  lemma {:induction false} LeafStored(s: Store, t: Tree, b: nat, d: nat)
    requires Solid(t) && Shape(t, d) && Distinct(t) && Rep(s, t)
    ensures var blk := Stop(t, b, d).blk; blk in s && s[blk] == LeafNode(LeafAt(t, b))
  {
    RouteStep(t, b, d, d);
    SubRep(s, t, Route(t, b), d);
  }

  lemma {:induction false} RightBlock(t: Tree, e: Extent, d: nat, n: nat, spare: seq<nat>)
    requires Solid(t) && Shape(t, d) && 1 <= n <= d + 1 && n <= |spare|
    ensures RightOf(t, e, d, n, spare).blk == spare[n - 1]
  {
    RouteStep(t, e.first, d, d + 1 - n);
  }

  lemma {:induction false} SplitIdx(kids: seq<Kid>, p: nat, k: nat, l: Tree, r: Tree)
    requires p < |kids| && l.blk == kids[p].sub.blk
    ensures IdxOf(LeftKids(kids, p, l)) == IdxOf(kids)[..p + 1]
    ensures IdxOf(RightKids(kids, p, k, r)) == [Idx(k, r.blk)] + IdxOf(kids)[p + 1..]
  {
  }

  /** The index node at the next level still stands in the store as it was in t. */
  lemma {:induction false} IndexNode(s: Store, t: Tree, e: Extent, d: nat, n: nat, spare: seq<nat>)
    requires Clean(t, d, spare) && 1 <= n <= d && n <= |spare| && Halfway(s, t, e, d, n, spare)
    ensures |Route(t, e.first)| == d
    ensures var u, p := Stop(t, e.first, d - n), Route(t, e.first)[d - n];
            u.Index? && p < |u.kids| && u.blk in s && s[u.blk] == NodeOf(u)
  {
    var path, l := Route(t, e.first), LeftOf(t, e, d, n, spare);
    RouteStep(t, e.first, d, d - n);
    RouteStep(t, e.first, d, d + 1 - n);
    ReplaceDeeper(t, path, d - n, l);
    var u, p := Stop(t, e.first, d - n), path[d - n];
    var z := Index(u.blk, u.kids[p := Kid(u.kids[p].key, l)]);
    HalvesOf(t, e, d, n, spare);
    ReplaceTwice(t, path, d - n, z, z);
    SubRep(s, Broken(t, e, d, n, spare), path, d - n);
    assert IdxOf(z.kids) == IdxOf(u.kids);
  }

  /** Splitting an index node in the store. */
  lemma {:induction false} IndexLevel(s: Store, s': Store, t: Tree, e: Extent, d: nat, n: nat, spare: seq<nat>,
      blk: nat, idx: seq<Idx>, p: nat)
    requires Clean(t, d, spare) && 1 <= n <= d && n < |spare| && Halfway(s, t, e, d, n, spare)
    requires |Route(t, e.first)| == d && blk == Stop(t, e.first, d - n).blk && p == Route(t, e.first)[d - n] < |idx|
    requires blk in s && s[blk] == IdxNode(idx)
    requires s' == s[spare[n] := IdxNode([Idx(SplitKey(t, e), spare[n - 1])] + idx[p + 1..])]
                    [blk := IdxNode(idx[..p + 1])]
    ensures Halfway(s', t, e, d, n + 1, spare)
  {
    IndexNode(s, t, e, d, n, spare);
    HalfwayIndex(s, t, e, d, n, spare);
    LevelUp(t, e, d, n, spare);
    HalvesOf(t, e, d, n, spare);
    RightBlock(t, e, d, n, spare);
    var u := Stop(t, e.first, d - n);
    SplitIdx(u.kids, p, SplitKey(t, e), LeftOf(t, e, d, n, spare), RightOf(t, e, d, n, spare));
  }

  lemma {:induction false} JoinIdx(kids: seq<Kid>, p: nat, k: nat, l: Tree, r: Tree)
    requires p < |kids| && l.blk == kids[p].sub.blk
    ensures IdxOf(LeftKids(kids, p, l) + RightKids(kids, p, k, r)) ==
            IdxOf(kids)[..p + 1] + [Idx(k, r.blk)] + IdxOf(kids)[p + 1..]
  {
  }

  /** Entering the new block into the node above the split. */
  lemma {:induction false} JoinLevel(s: Store, s': Store, t: Tree, e: Extent, d: nat, n: nat, spare: seq<nat>,
      blk: nat, idx: seq<Idx>, p: nat)
    requires Clean(t, d, spare) && 1 <= n <= d && n <= |spare| && Halfway(s, t, e, d, n, spare)
    requires |Route(t, e.first)| == d && blk == Stop(t, e.first, d - n).blk && p == Route(t, e.first)[d - n] < |idx|
    requires blk in s && s[blk] == IdxNode(idx)
    requires s' == s[blk := IdxNode(idx[..p + 1] + [Idx(SplitKey(t, e), spare[n - 1])] + idx[p + 1..])]
    ensures var r := RoomMade(t, e, d, d - n, spare);
            Rep(s', r) && Distinct(r) && r.blk == t.blk && UsesOnly(r, t, First(spare, n))
  {
    hide Apart, Distinct, First, Keys, LeftKids, Place, Rep, Split, Sub, Uses;
    IndexNode(s, t, e, d, n, spare);
    JoinStore(s, t, e, d, n, spare);
    RouteStep(t, e.first, d, d - n);
    RouteStep(t, e.first, d, d - n + 1);
    HalvesOf(t, e, d, n, spare);
    RightBlock(t, e, d, n, spare);
    var u := Stop(t, e.first, d - n);
    JoinIdx(u.kids, p, SplitKey(t, e), LeftOf(t, e, d, n, spare), RightOf(t, e, d, n, spare));
  }

  lemma {:induction false} SpareLeft(spare: seq<nat>, t: Tree, x: Tree, n: nat)
    requires SpareOk(spare, t) && n <= |spare| && UsesOnly(x, t, First(spare, n))
    ensures SpareOk(spare[n..], x)
  {
  }
}
