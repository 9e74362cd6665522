/** The extent tree as lwext4 edits it: nodes in blocks, a path array, and loops along the path. */
module ExtentFile {
  import opened Wrappers
  import opened ExtentTree
  import opened ExtentTreeProofs
  import opened ExtentInsertProofs
  import opened ExtentSplitProofs
  import opened ExtentRoomProofs
  import opened ExtentStore
  import opened ExtentStoreProofs
  import opened ExtentPath
  import opened ExtentSplitStore
  import opened ExtentKeys
  import opened ExtentMeaning

  datatype Err = EOK | EIO | ENOSPC

  /** ext4_extent_path: the block and search position of every level; leaf is -1 for no extent. */
  datatype Path = Path(blks: seq<nat>, pos: seq<nat>, leaf: int)

  function LeafPos(exts: seq<Extent>, b: nat): int {
    if exts == [] then -1 else Pos(Firsts(exts), b)
  }

  function IdxFirsts(idx: seq<Idx>): seq<nat> {
    seq(|idx|, i requires 0 <= i < |idx| => idx[i].first)
  }

  /** The pointer loop shared by ext4_ext_binsearch and ext4_ext_binsearch_idx. */
  method BinarySearch(ks: seq<nat>, b: nat) returns (p: nat)
    requires ks != []
    requires forall i, j :: 0 <= i < j < |ks| ==> ks[i] <= ks[j]
    ensures p == Pos(ks, b)
  {
    var l, r := 1, |ks| - 1;
    while l <= r
      invariant 1 <= l <= r + 1 <= |ks|
      invariant forall j :: 1 <= j < l ==> ks[j] <= b
      invariant forall j :: r < j < |ks| ==> b < ks[j]
    {
      var m := l + (r - l) / 2;
      if b < ks[m] {
        r := m - 1;
      } else {
        l := m + 1;
      }
    }
    PosUnique(ks, b, l - 1);
    p := l - 1;
  }

  ghost predicate PathTo(t: Tree, d: nat, b: nat, path: Path)
    requires Solid(t)
  {
    && path.pos == Route(t, b) && |path.pos| == d
    && |path.blks| == d + 1 && (forall j :: 0 <= j <= d ==> path.blks[j] == Stop(t, b, j).blk)
    && path.leaf == LeafPos(LeafAt(t, b), b)
  }

  // ---------------------------------------------------------------- the path after a split

  /** The blocks of the new nodes, topmost first. */
  function NewBlocks(spare: seq<nat>, n: nat): seq<nat>
    requires n <= |spare|
  {
    seq(n, j requires 0 <= j < n => spare[n - 1 - j])
  }

  /** The path that ext4_ext_insert_extent continues with: moved to the new nodes or left alone. */
  function MovedPath(path: Path, m: nat, blks: seq<nat>): Path
    requires m < |path.pos| && m < |path.blks|
  {
    Path(path.blks[..m + 1] + blks, path.pos[..m] + [path.pos[m] + 1] + Zeros(|path.pos| - m - 1), -1)
  }

  /** Descending through a node whose child p was replaced by two halves. */
  lemma {:induction false} OpenedNode(u: Tree, p: nat, k: nat, h: Halves, b: nat, i: nat)
    requires u.Index? && Solid(u) && p == Pos(Keys(u.kids), b) && Solid(h.left) && Solid(h.right)
    ensures var x := Index(u.blk, LeftKids(u.kids, p, h.left) + RightKids(u.kids, p, k, h.right));
            var side := if b < k then h.left else h.right;
            && Solid(x) && LeafAt(x, b) == LeafAt(side, b)
            && Route(x, b) == [if b < k then p else p + 1] + Route(side, b)
            && (i > 0 ==> Stop(x, b, i) == Stop(side, b, i - 1))
  {
    BothPos(u.kids, p, k, h.left, h.right, b);
    JoinSolid(u, p, k, h.left, h.right);
    var j := LeftKids(u.kids, p, h.left) + RightKids(u.kids, p, k, h.right);
    assert j[p].sub == h.left && j[p + 1].sub == h.right;
  }

  lemma {:induction false} OpenLeft(u: Tree, d: nat, e: Extent, spare: seq<nat>, i: nat)
    requires Solid(u) && Shape(u, d) && 0 < d <= |spare| && e.first < SplitKey(u, e) && i <= d
    requires LeafAt(u, e.first) != []
    ensures var x := Open(u, e, d, spare);
            && Solid(x) && Route(x, e.first) == Route(u, e.first)
            && Stop(x, e.first, i).blk == Stop(u, e.first, i).blk
            && LeafPos(LeafAt(x, e.first), e.first) == LeafPos(LeafAt(u, e.first), e.first)
  {
    hide Firsts, LeftKids, Pos, Split;
    var p := Pos(Keys(u.kids), e.first);
    var sub := u.kids[p].sub;
    LeftRoute(sub, e, d - 1, spare, if i == 0 then 0 else i - 1);
    LeftLeaf(sub, e, d - 1, spare);
    SplitSolid(sub, d - 1, e, spare);
    OpenedNode(u, p, SplitKey(u, e), Split(sub, e, d - 1, spare), e.first, i);
  }

  lemma {:induction false} OpenRight(u: Tree, d: nat, e: Extent, spare: seq<nat>, i: nat)
    requires Solid(u) && Shape(u, d) && 0 < d <= |spare| && SplitKey(u, e) <= e.first && i <= d
    ensures var x := Open(u, e, d, spare);
            && Solid(x) && LeafAt(x, e.first) == []
            && Route(x, e.first) == [Pos(Keys(u.kids), e.first) + 1] + Zeros(d - 1)
            && (i > 0 ==> Stop(x, e.first, i).blk == spare[d - i])
  {
    hide Split, Route, Stop, LeafAt, SplitKey;
    var p := Pos(Keys(u.kids), e.first);
    var sub := u.kids[p].sub;
    SplitKeyBelow(u, e);
    RightRoute(sub, e, d - 1, spare, if i == 0 then 0 else i - 1);
    SplitSolid(sub, d - 1, e, spare);
    OpenedNode(u, p, SplitKey(u, e), Split(sub, e, d - 1, spare), e.first, i);
  }

  lemma {:induction false} OpenedLeft(t: Tree, d: nat, e: Extent, m: nat, spare: seq<nat>, j: nat)
    requires Solid(t) && Shape(t, d) && m < d <= m + |spare| && e.first < SplitKey(t, e) && m <= j <= d
    requires LeafAt(t, e.first) != []
    ensures var x := Opened(t, e, d, m, spare);
            && Solid(x) && |Route(t, e.first)| == d && Route(x, e.first) == Route(t, e.first)[m..]
            && Stop(x, e.first, j - m).blk == Stop(t, e.first, j).blk
            && LeafPos(LeafAt(x, e.first), e.first) == LeafPos(LeafAt(t, e.first), e.first)
  {
    RouteStep(t, e.first, d, m);
    RouteOfStop(t, e.first, d, m);
    StopOfStop(t, e.first, m, j - m);
    var u := Stop(t, e.first, m);
    OpenLeft(u, d - m, e, spare, j - m);
  }

  lemma {:induction false} OpenedRight(t: Tree, d: nat, e: Extent, m: nat, spare: seq<nat>, j: nat)
    requires Solid(t) && Shape(t, d) && m < d <= m + |spare| && SplitKey(t, e) <= e.first && m <= j <= d
    ensures var x := Opened(t, e, d, m, spare);
            && Solid(x) && |Route(t, e.first)| == d && LeafAt(x, e.first) == []
            && Route(x, e.first) == [Route(t, e.first)[m] + 1] + Zeros(d - m - 1)
            && Stop(x, e.first, j - m).blk == if j == m then Stop(t, e.first, m).blk else spare[d - j]
  {
    hide Split, Route, LeafAt, Firsts, Keys, LeftKids, Zeros;
    RouteStep(t, e.first, d, m);
    var u := Stop(t, e.first, m);
    OpenRight(u, d - m, e, spare, j - m);
  }

  /** The adjusted path is the one a fresh descent would find. */
  lemma {:induction false} PathStays(t: Tree, d: nat, e: Extent, m: nat, spare: seq<nat>, path: Path)
    requires Solid(t) && Shape(t, d) && m < d <= m + |spare| && PathTo(t, d, e.first, path)
    requires e.first < SplitKey(t, e) && LeafAt(t, e.first) != []
    ensures Solid(RoomMade(t, e, d, m, spare)) && PathTo(RoomMade(t, e, d, m, spare), d, e.first, path)
  {
    hide Route, Stop, LeafAt, Place, Replace, Opened, Shape, SplitKey;
    var b, x, r := e.first, Opened(t, e, d, m, spare), RoomMade(t, e, d, m, spare);
    RouteStep(t, b, d, m);
    OpenedLeft(t, d, e, m, spare, m);
    RouteReplace(t, b, d, m, x);
    assert Route(t, b)[..m] + Route(t, b)[m..] == Route(t, b);
    forall j | 0 <= j <= d ensures path.blks[j] == Stop(r, b, j).blk {
      StayedBlock(t, d, e, m, spare, path, j);
    }
  }

  lemma {:induction false} StayedBlock(t: Tree, d: nat, e: Extent, m: nat, spare: seq<nat>, path: Path, j: nat)
    requires Solid(t) && Shape(t, d) && m < d <= m + |spare| && PathTo(t, d, e.first, path) && j <= d
    requires e.first < SplitKey(t, e) && LeafAt(t, e.first) != []
    requires Solid(RoomMade(t, e, d, m, spare)) && Solid(Opened(t, e, d, m, spare))
    ensures path.blks[j] == Stop(RoomMade(t, e, d, m, spare), e.first, j).blk
  {
    hide SplitKey, Split, Route, LeafAt, Solid, Shape, Opened;
    RouteStep(t, e.first, d, m);
    StopReplace(t, e.first, d, m, Opened(t, e, d, m, spare), j);
    if j >= m {
      OpenedLeft(t, d, e, m, spare, j);
    }
  }

  lemma {:induction false} PathMoves(t: Tree, d: nat, e: Extent, m: nat, spare: seq<nat>, path: Path)
    requires Solid(t) && Shape(t, d) && m < d <= m + |spare| && PathTo(t, d, e.first, path)
    requires SplitKey(t, e) <= e.first
    ensures Solid(RoomMade(t, e, d, m, spare))
    ensures PathTo(RoomMade(t, e, d, m, spare), d, e.first, MovedPath(path, m, NewBlocks(spare, d - m)))
  {
    hide Route, Stop, LeafAt, Place, Replace, Opened, Shape, SplitKey;
    RouteStep(t, e.first, d, m);
    OpenedRight(t, d, e, m, spare, m);
    RouteReplace(t, e.first, d, m, Opened(t, e, d, m, spare));
    MovedBlocks(t, d, e, m, spare, path);
  }

  lemma {:induction false} MovedBlocks(t: Tree, d: nat, e: Extent, m: nat, spare: seq<nat>, path: Path)
    requires Solid(t) && Shape(t, d) && m < d <= m + |spare| && PathTo(t, d, e.first, path)
    requires SplitKey(t, e) <= e.first && Solid(RoomMade(t, e, d, m, spare)) && Solid(Opened(t, e, d, m, spare))
    ensures forall j :: 0 <= j <= d ==>
              MovedPath(path, m, NewBlocks(spare, d - m)).blks[j] == Stop(RoomMade(t, e, d, m, spare), e.first, j).blk
  {
    forall j | 0 <= j <= d
      ensures MovedPath(path, m, NewBlocks(spare, d - m)).blks[j] == Stop(RoomMade(t, e, d, m, spare), e.first, j).blk
    {
      MovedBlock(t, d, e, m, spare, path, j);
    }
  }

  lemma {:induction false} MovedBlock(t: Tree, d: nat, e: Extent, m: nat, spare: seq<nat>, path: Path, j: nat)
    requires Solid(t) && Shape(t, d) && m < d <= m + |spare| && PathTo(t, d, e.first, path) && j <= d
    requires SplitKey(t, e) <= e.first && Solid(RoomMade(t, e, d, m, spare)) && Solid(Opened(t, e, d, m, spare))
    ensures MovedPath(path, m, NewBlocks(spare, d - m)).blks[j] == Stop(RoomMade(t, e, d, m, spare), e.first, j).blk
  {
    hide SplitKey, Split, Route, LeafAt, Solid, Shape, Opened;
    RouteStep(t, e.first, d, m);
    StopReplace(t, e.first, d, m, Opened(t, e, d, m, spare), j);
    if j >= m {
      OpenedRight(t, d, e, m, spare, j);
    }
  }

  class ExtentFile {
    const rootCap: nat   // entries of the node inside the inode
    const blockCap: nat  // entries of a node in a block
    var depth: nat
    var nodes: Store
    var free: seq<nat>   // blocks the allocator hands out, in order
    ghost var tree: Tree

    /** ext4_extent_tree_init: an empty root with room for (15 * 4 - 12) / 12 entries. */
    constructor (blockCap: nat, free: seq<nat>)
      requires 4 < blockCap
      requires forall i, j :: 0 <= i < j < |free| ==> free[i] != free[j]
      requires 0 !in free
      ensures Sound() && Flat(tree) == [] && this.free == free && this.blockCap == blockCap
    {
      this.rootCap, this.blockCap := 4, blockCap;
      this.depth, this.free := 0, free;
      this.nodes := map[0 := LeafNode([])];
      this.tree := Leaf(0, []);
    }

    /** The store holds the tree, rooted in the inode, and no spare block is in use. */
    ghost predicate Stored()
      reads this
    {
      && tree.blk == 0 && Rep(nodes, tree) && Distinct(tree)
      && Solid(tree) && Shape(tree, depth) && SpareOk(free, tree)
    }

    /** Well formed and within capacity; a leaf may be empty while an insertion is under way. */
    ghost predicate Usable()
      reads this
    {
      && Stored() && 2 <= rootCap < blockCap
      && WF(tree, depth, 0, BLOCK_SPACE) && Within(tree, rootCap, blockCap)
    }

    /** Between calls: no leaf is empty but an empty root, and every key is the first block below it. */
    ghost predicate Sound()
      reads this
    {
      Usable() && Settled(tree)
    }

    /** ext4_find_extent. */
    method FindExtent(b: nat) returns (path: Path)
      requires Usable()
      ensures PathTo(tree, depth, b, path)
    {
      hide WF, Within, Rep, Distinct, SpareOk, Solid, Shape, Route, LeafAt, Place, Pos;
      var blk: nat, i: nat := 0, depth;
      var blks, pos := [], [];
      StopNode(b, 0);
      RouteStep(tree, b, depth, 0);
      while i > 0
        invariant 0 <= i <= depth && |blks| == |pos| == depth - i && |Route(tree, b)| == depth
        invariant pos == Route(tree, b)[..depth - i]
        invariant forall j :: 0 <= j < depth - i ==> blks[j] == Stop(tree, b, j).blk
        invariant blk == Stop(tree, b, depth - i).blk && blk in nodes
        invariant nodes[blk] == NodeOf(Stop(tree, b, depth - i))
      {
        ghost var n := depth - i;
        ghost var u := Stop(tree, b, n);
        StopNode(b, n);
        var idx := nodes[blk].idx;
        assert IdxFirsts(idx) == Keys(u.kids);
        var p := BinarySearch(IdxFirsts(idx), b);
        blks, pos := blks + [blk], pos + [p];
        blk := idx[p].blk;
        StopNode(b, n + 1);
        assert Route(tree, b)[..n + 1] == Route(tree, b)[..n] + [Route(tree, b)[n]];
        i := i - 1;
      }
      StopNode(b, depth);
      var exts := nodes[blk].exts;
      var leaf: int := -1;
      if exts != [] {
        leaf := BinarySearch(Firsts(exts), b);
      }
      assert Route(tree, b)[..depth] == Route(tree, b);
      path := Path(blks + [blk], pos, leaf);
    }

    /** What the node at level n of the descent looks like. */
    lemma StopNode(b: nat, n: nat)
      requires Usable() && n <= depth
      ensures |Route(tree, b)| == depth
      ensures var u := Stop(tree, b, n);
              && u.blk in nodes && nodes[u.blk] == NodeOf(u)
              && (n < depth ==>
                    && u.Index? && u.kids != [] && Route(tree, b)[n] == Pos(Keys(u.kids), b)
                    && Stop(tree, b, n + 1) == u.kids[Pos(Keys(u.kids), b)].sub
                    && (forall i, j :: 0 <= i < j < |u.kids| ==> Keys(u.kids)[i] <= Keys(u.kids)[j]))
              && (n == depth ==>
                    && u.Leaf? && u.exts == LeafAt(tree, b)
                    && (forall i, j :: 0 <= i < j < |u.exts| ==> Firsts(u.exts)[i] <= Firsts(u.exts)[j]))
    {
      RouteStep(tree, b, depth, n);
      SubRep(nodes, tree, Route(tree, b), n);
      StopWF(tree, depth, 0, BLOCK_SPACE, b, n);
    }

    // -------------------------------------------------------------- insertion into the leaf

    /** The path leads to the place where e was put into t0 (before any key was corrected). */
    ghost predicate Along(path: Path, t0: Tree, e: Extent)
      reads this`depth
      requires Solid(t0)
    {
      && path.pos == Route(t0, e.first) && |path.pos| == depth && |path.blks| == depth + 1
      && (forall j :: 0 <= j <= depth ==> path.blks[j] == Stop(t0, e.first, j).blk)
    }

    /** One assignment of ext4_ext_correct_indexes: the key at level k of the path. */
    method SetKey(path: Path, k: nat, border: nat, ghost t0: Tree, ghost e: Extent)
      requires Solid(t0) && Shape(t0, depth) && k < depth && Along(path, t0, e)
      requires tree == InsertFrom(t0, e, k + 1) && Rep(nodes, tree) && Distinct(tree)
      requires BorderAt(t0, e, k + 1) == Some(border)
      modifies this`nodes, this`tree
      ensures tree == InsertFrom(t0, e, k) && Rep(nodes, tree) && Distinct(tree)
      ensures UsesOnly(tree, old(tree), {}) && tree.blk == old(tree).blk
    {
      hide Solid, Shape, Route, Stop, InsertFrom, Insert, Place, Sub, Replace, Uses;
      InsertFromStep(t0, e, depth, k);
      ghost var u, p := Sub(tree, path.pos, k), path.pos[k];
      ghost var x := Rekeyed(u, p, Some(border));
      SubRep(nodes, tree, path.pos, k);
      RekeyedDistinct(u, p, Some(border));
      WriteNode(nodes, tree, path.pos, k, x);
      SwappedShrinks(Replace(tree, path.pos, k, x), tree, path.pos, k, x);
      var blk := path.blks[k];
      var idx := nodes[blk].idx;
      nodes := nodes[blk := IdxNode(idx[path.pos[k] := Idx(border, idx[path.pos[k]].blk)])];
      assert nodes[blk] == NodeOf(x);
      tree := Replace(tree, path.pos, k, x);
    }

    /** ext4_ext_correct_indexes, called when the first extent of the leaf was touched. */
    method CorrectIndexes(path: Path, border: nat, ghost t0: Tree, ghost e: Extent)
      requires Solid(t0) && Shape(t0, depth) && Along(path, t0, e)
      requires tree == InsertFrom(t0, e, depth) && Rep(nodes, tree) && Distinct(tree)
      requires BorderAt(t0, e, depth) == Some(border)
      modifies this`nodes, this`tree
      ensures tree == Insert(t0, e).tree && Rep(nodes, tree) && Distinct(tree)
      ensures UsesOnly(tree, old(tree), {}) && tree.blk == old(tree).blk
    {
      InsertFromRoot(t0, e);
      if depth == 0 { return; }
      var k: nat := depth - 1;
      SetKey(path, k, border, t0, e);
      while k > 0
        invariant k < depth && tree == InsertFrom(t0, e, k) && Rep(nodes, tree) && Distinct(tree)
        invariant BorderAt(t0, e, k + 1) == Some(border)
        invariant UsesOnly(tree, old(tree), {}) && tree.blk == old(tree).blk
      {
        BorderUp(t0, e, depth, k);
        if path.pos[k] != 0 {
          InsertFromStops(t0, e, depth, k);
          return;
        }
        k := k - 1;
        SetKey(path, k, border, t0, e);
      }
    }

    /** The leaf of the path gets new entries. */
    method WriteLeaf(path: Path, exts: seq<Extent>, ghost e: Extent)
      requires Stored() && Along(path, tree, e)
      requires exts == PutLeaf(LeafAt(tree, e.first), e)
      modifies this`nodes, this`tree
      ensures tree == InsertFrom(old(tree), e, depth) && Rep(nodes, tree) && Distinct(tree)
      ensures UsesOnly(tree, old(tree), {}) && tree.blk == old(tree).blk
    {
      RouteStep(tree, e.first, depth, depth);
      InsertFromLeaf(tree, e, depth);
      ghost var x := Leaf(path.blks[depth], exts);
      WriteNode(nodes, tree, path.pos, depth, x);
      SwappedShrinks(Replace(tree, path.pos, depth, x), tree, path.pos, depth, x);
      nodes := nodes[path.blks[depth] := LeafNode(exts)];
      tree := Replace(tree, path.pos, depth, x);
    }

    /** ext4_ext_insert_leaf: merge, insert, refuse a duplicate, or ask for a split. */
    method InsertLeaf(path: Path, e: Extent) returns (r: Err, needSplit: bool)
      requires Usable() && PathTo(tree, depth, e.first, path)
      modifies this`nodes, this`tree
      ensures r == EOK <==> !Clashes(LeafAt(old(tree), e.first), e) && Roomy(old(tree), e, rootCap, blockCap)
      ensures needSplit <==> !Clashes(LeafAt(old(tree), e.first), e) && !Roomy(old(tree), e, rootCap, blockCap)
      ensures r == EOK || r == EIO
      ensures r == EIO ==> tree == old(tree) && nodes == old(nodes)
      ensures r == EOK ==> tree == Insert(old(tree), e).tree
      ensures Stored()
    {
      hide WF, Within, Rep, Distinct, Solid, Shape, Route, LeafAt, Roomy, InsertFrom, Apart, Keys;
      needSplit := false;
      ghost var t0 := tree;
      StopNode(e.first, depth);
      RouteStep(tree, e.first, depth, depth);
      RoomyAtLeaf(tree, e, rootCap, blockCap, depth);
      InsertShape(tree, e, depth);
      var exts := nodes[path.blks[depth]].exts;
      var at := path.leaf;
      if at >= 0 && e.first == exts[at].first { return EIO, false; }
      if at >= 0 && CanAppend(exts[at], e) {
        WriteLeaf(path, exts[at := Extent(exts[at].first, exts[at].len + e.len, exts[at].start)], e);
        LeafOnly(t0, e);
        return EOK, false;
      }
      if at >= 0 && CanPrepend(exts[at], e) {
        WriteLeaf(path, exts[at := Extent(e.first, exts[at].len + e.len, exts[at].start)], e);
        LeafOnly(t0, e);
        return EOK, false;
      }
      if |exts| == (if depth == 0 then rootCap else blockCap) { return EIO, true; }
      var ex := if at < 0 then 0 else if e.first > exts[at].first then at + 1 else at;
      var entries := exts[..ex] + [e] + exts[ex..];
      WriteLeaf(path, entries, e);
      if at <= 0 {
        CorrectIndexes(path, entries[0].first, t0, e);
      } else {
        LeafOnly(t0, e);
      }
      r := EOK;
      SpareKept(free, t0, tree);
    }

    /** Without a border from the leaf, no key above changes. */
    lemma LeafOnly(t0: Tree, e: Extent)
      requires Solid(t0) && Shape(t0, depth) && LeafBorder(LeafAt(t0, e.first), e) == None
      ensures InsertFrom(t0, e, depth) == Insert(t0, e).tree
    {
      RouteStep(t0, e.first, depth, depth);
      InsertFromStops(t0, e, depth, depth);
      InsertFromRoot(t0, e);
    }

    // -------------------------------------------------------------- splitting

    /** ext4_ext_split_node at the leaf: a new block takes the extents behind the search position. */
    method SplitLeafLevel(path: Path, ghost t0: Tree, ghost e: Extent, ghost spare: seq<nat>) returns (nb: nat)
      requires Clean(t0, depth, spare) && Rep(nodes, t0) && free == spare != []
      requires PathTo(t0, depth, e.first, path)
      modifies this`nodes, this`free
      ensures nb == spare[0] && free == spare[1..] && Halfway(nodes, t0, e, depth, 1, spare)
    {
      nb := free[0];
      free := free[1..];
      var blk, p := path.blks[depth], path.leaf + 1;
      LeafStored(nodes, t0, e.first, depth);
      var exts := nodes[blk].exts;
      var s := nodes[nb := LeafNode(exts[p..])][blk := LeafNode(exts[..p])];
      LeafLevel(nodes, s, t0, e, depth, spare, blk, exts, p);
      nodes := s;
    }

    /** ext4_ext_split_node at an index node: the new block starts with an entry for the new block below. */
    method SplitIndexLevel(path: Path, i: nat, right: nat, insertIndex: nat, ghost n: nat,
                           ghost t0: Tree, ghost e: Extent, ghost spare: seq<nat>) returns (nb: nat)
      requires Clean(t0, depth, spare) && i < depth && n == depth - i < |spare| &&
               Halfway(nodes, t0, e, depth, n, spare)
      requires PathTo(t0, depth, e.first, path) && insertIndex == SplitKey(t0, e)
      requires free == spare[n..] && right == spare[n - 1]
      modifies this`nodes, this`free
      ensures nb == spare[n] && free == spare[n + 1..] && Halfway(nodes, t0, e, depth, n + 1, spare)
    {
      nb := free[0];
      free := free[1..];
      var blk, p := path.blks[i], path.pos[i];
      IndexNode(nodes, t0, e, depth, n, spare);
      var idx := nodes[blk].idx;
      var s := nodes[nb := IdxNode([Idx(insertIndex, right)] + idx[p + 1..])][blk := IdxNode(idx[..p + 1])];
      IndexLevel(nodes, s, t0, e, depth, n, spare, blk, idx, p);
      nodes := s;
    }

    /** ext4_ext_insert_index: a new entry beside entry pos of an index node. */
    method InsertIndex(blk: nat, pos: nat, cap: nat, first: nat, child: nat) returns (r: Err)
      requires blk in nodes && nodes[blk].IdxNode? && pos < |nodes[blk].idx| <= cap
      modifies this`nodes
      ensures r == (if first == old(nodes[blk].idx[pos].first) || |old(nodes[blk].idx)| == cap then EIO else EOK)
      ensures r == EIO ==> nodes == old(nodes)
      ensures r == EOK ==>
                var idx := old(nodes[blk].idx);
                var ix := if first > idx[pos].first then pos + 1 else pos;
                nodes == old(nodes)[blk := IdxNode(idx[..ix] + [Idx(first, child)] + idx[ix..])]
    {
      var idx := nodes[blk].idx;
      if first == idx[pos].first || |idx| == cap { return EIO; }
      var ix := if first > idx[pos].first then pos + 1 else pos;
      nodes := nodes[blk := IdxNode(idx[..ix] + [Idx(first, child)] + idx[ix..])];
      r := EOK;
    }

    /** The error path of ext4_ext_split_node: the blocks taken so far go back to the allocator. */
    method GiveBack(taken: seq<nat>, ghost spare: seq<nat>)
      requires |taken| <= |spare| && taken == NewBlocks(spare, |taken|) && free == spare[|taken|..]
      modifies this`free
      ensures free == spare
    {
      var i := 0;
      while i < |taken|
        invariant 0 <= i <= |taken| && free == spare[|taken| - i..]
      {
        free := [taken[i]] + free;
        i := i + 1;
      }
    }

    /** The loop of ext4_ext_split_node, with its error path. */
    method SplitLevels(path: Path, at: nat, insertIndex: nat, ghost t0: Tree, ghost e: Extent, ghost spare: seq<nat>)
        returns (ok: bool, taken: seq<nat>)
      requires Clean(t0, depth, spare) && Rep(nodes, t0) && free == spare && 1 <= at <= depth
      requires PathTo(t0, depth, e.first, path) && insertIndex == SplitKey(t0, e)
      modifies this`nodes, this`free
      ensures ok <==> depth - at < |spare|
      ensures ok ==> taken == NewBlocks(spare, depth - at + 1) && free == spare[depth - at + 1..]
      ensures ok ==> Halfway(nodes, t0, e, depth, depth - at + 1, spare)
      ensures !ok ==> free == spare && Halfway(nodes, t0, e, depth, |spare|, spare)
    {
      hide Halfway, Solid, Shape, Distinct, SpareOk, Rep, PathTo, SplitKey;
      HalfwayStart(nodes, t0, e, depth, spare);
      var i, right: nat := depth, 0;
      taken := [];
      while i >= at
        invariant at - 1 <= i <= depth && depth - i <= |spare|
        invariant taken == NewBlocks(spare, depth - i) && free == spare[depth - i..]
        invariant Halfway(nodes, t0, e, depth, depth - i, spare)
        invariant i < depth ==> right == spare[depth - i - 1]
        invariant i == depth ==> nodes == old(nodes)
      {
        if free == [] {
          GiveBack(taken, spare);
          return false, taken;
        }
        if i == depth {
          right := SplitLeafLevel(path, t0, e, spare);
        } else {
          right := SplitIndexLevel(path, i, right, insertIndex, depth - i, t0, e, spare);
        }
        taken := [right] + taken;
        i := i - 1;
      }
      ok := true;
    }

    /** ext4_ext_split_node: splits the levels from the leaf up to level at and enters the topmost
        new node at level at - 1.  When the allocator runs dry half way, the left halves stay. */
    method SplitNode(path: Path, at: nat, e: Extent) returns (r: Err, path': Path)
      requires Usable() && PathTo(tree, depth, e.first, path) && 1 <= at <= depth
      requires Ready(tree, depth, 0, BLOCK_SPACE, e, rootCap, blockCap) &&
               CanOpen(tree, depth, e, rootCap, blockCap, at - 1)
      modifies this`nodes, this`free, this`tree
      ensures r == if depth - at < |old(free)| then EOK else ENOSPC
      ensures r == EOK ==>
                tree == RoomMade(old(tree), e, depth, at - 1, old(free)) && free == old(free)[depth - at + 1..]
      ensures r == EOK ==> Solid(tree) && PathTo(tree, depth, e.first, path')
      ensures r == ENOSPC ==> tree == Broken(old(tree), e, depth, |old(free)|, old(free)) && free == old(free)
      ensures Held(nodes, free, tree)
    {
      hide WF, Within, Shape, Solid, Rep, Distinct, SpareOk, InRange, Full, Stop, LeafAt, Route, SplitKey, Place,
        Broken, Halfway, CanOpen, Ready, RoomMade, Held;
      path' := path;
      ghost var t0, spare := tree, free;
      LeafFull(path, at, e);
      var exts := nodes[path.blks[depth]].exts;
      var insertIndex := if path.leaf + 1 < blockCap then exts[path.leaf + 1].first else e.first;
      var ok, taken := SplitLevels(path, at, insertIndex, t0, e, spare);
      if !ok {
        tree := Broken(t0, e, depth, |spare|, spare);
        HalfwayHeld(nodes, t0, e, depth, |spare|, spare);
        return ENOSPC, path;
      }
      var blk, p := path.blks[at - 1], path.pos[at - 1];
      ghost var s := nodes;
      NodeAbove(s, t0, depth, e, rootCap, blockCap, at, spare, path);
      r := InsertIndex(blk, p, if at == 1 then rootCap else blockCap, insertIndex, taken[0]);
      tree := RoomMade(t0, e, depth, at - 1, spare);
      Entered(s, nodes, t0, depth, e, at, spare, path);
      path' := if e.first < insertIndex then path else MovedPath(path, at - 1, taken);
      PathAfter(t0, depth, e, at - 1, spare, path);
    }

    /** A full path ends in a full leaf, so the split key is the next extent unless e comes last. */
    lemma LeafFull(path: Path, at: nat, e: Extent)
      requires Usable() && PathTo(tree, depth, e.first, path) && 1 <= at <= depth
      requires CanOpen(tree, depth, e, rootCap, blockCap, at - 1)
      ensures path.blks[depth] in nodes && nodes[path.blks[depth]] == LeafNode(LeafAt(tree, e.first))
      ensures |LeafAt(tree, e.first)| == blockCap && 0 <= path.leaf < blockCap
      ensures SplitKey(tree, e) == if path.leaf + 1 < blockCap then LeafAt(tree, e.first)[path.leaf + 1].first
              else e.first
    {
      hide Distinct, Keys, Route, SpareOk, Sub;
      LeafStored(nodes, tree, e.first, depth);
      RouteStep(tree, e.first, depth, at);
      RouteStep(tree, e.first, depth, depth);
      FullBelow(Stop(tree, e.first, at), e.first, blockCap, depth - at);
      StopOfStop(tree, e.first, at, depth - at);
      RoomyAtLeaf(tree, e, rootCap, blockCap, depth);
    }

    // -------------------------------------------------------------- growing

    /** ext4_ext_grow_indepth: the root moves to a new block and becomes its own only child. */
    method GrowInDepth() returns (r: Err)
      requires Usable() && (tree.Leaf? ==> tree.exts != [])
      modifies this`nodes, this`free, this`tree, this`depth
      ensures r == if old(free) == [] then ENOSPC else EOK
      ensures r == ENOSPC ==> tree == old(tree) && nodes == old(nodes) && free == old(free) && depth == old(depth)
      ensures r == EOK ==> tree == Grow(old(tree), old(free)[0]) && free == old(free)[1..] && depth == old(depth) + 1
      ensures Held(nodes, free, tree)
    {
      if free == [] { return ENOSPC; }
      ghost var s, spare, t0 := nodes, free, tree;
      var nb := free[0];
      free := free[1..];
      var first := if depth > 0 then nodes[0].idx[0].first else nodes[0].exts[0].first;
      nodes := nodes[nb := nodes[0]][0 := IdxNode([Idx(first, nb)])];
      depth := depth + 1;
      GrowStore(s, t0, spare);
      tree := Grow(t0, nb);
      r := EOK;
    }

    // -------------------------------------------------------------- the retry loop

    /** The scan of ext4_ext_insert_extent for the lowest level of the path with a free entry. */
    method FreeLevel(path: Path, e: Extent) returns (i: int)
      requires Usable() && PathTo(tree, depth, e.first, path) && !Roomy(tree, e, rootCap, blockCap)
      ensures -1 <= i < depth
      ensures i == -1 ==> Full(tree, e.first, rootCap, blockCap)
      ensures i >= 0 ==> CanOpen(tree, depth, e, rootCap, blockCap, i)
    {
      RoomyAtLeaf(tree, e, rootCap, blockCap, depth);
      i := depth;
      while i >= 0
        invariant -1 <= i <= depth
        invariant i < depth ==> Full(Stop(tree, e.first, i + 1), e.first, CapAt(i + 1, rootCap, blockCap), blockCap)
      {
        StopNode(e.first, i);
        var node := nodes[path.blks[i]];
        var count := if node.LeafNode? then |node.exts| else |node.idx|;
        if count < (if i == 0 then rootCap else blockCap) { return; }
        i := i - 1;
      }
    }

    /** The body of the retry loop: grow if every level is full, then split below the lowest level
        that has room. */
    method MakeSpace(path: Path, e: Extent) returns (r: Err, path': Path)
      requires Sound() && PathTo(tree, depth, e.first, path) && !Roomy(tree, e, rootCap, blockCap)
      requires Insertable(tree, e, BLOCK_SPACE)
      modifies this`nodes, this`free, this`tree, this`depth
      ensures r == if FullLevels(old(tree), e.first, rootCap, blockCap) <= |old(free)| then EOK else ENOSPC
      ensures r == EOK ==>
                Ready(tree, depth, 0, BLOCK_SPACE, e, rootCap, blockCap) && Roomy(tree, e, rootCap, blockCap)
      ensures r == EOK ==>
                TightBut(tree, e.first) && PathTo(tree, depth, e.first, path') && Flat(tree) == Flat(old(tree))
      ensures r == ENOSPC ==> Tight(tree) && GaveUp(old(tree), old(depth), e, rootCap, blockCap, old(free), tree)
      ensures r == ENOSPC ==>
                (Flat(tree) == Flat(old(tree)) <==>
                  LosesNothing(old(tree), old(depth), e, rootCap, blockCap, old(free)))
      ensures Usable()
    {
      hide WF, Within, Shape, Solid, Rep, Distinct, SpareOk, InRange, Insertable, Tight, TightBut, LosesNothing,
        Full, Stop, LeafAt, Route, Place, PathTo, Roomy, Broken, RoomMade, Flat, FullLevels, Grow, CanOpen;
      path' := path;
      var i := FreeLevel(path, e);
      ghost var t0, spare0 := tree, free;
      NoRoomTight(t0, e, rootCap, blockCap);
      InsertableInRange(t0, e, BLOCK_SPACE);
      if i < 0 {
        FullLevelsAll(tree, depth, e.first, rootCap, blockCap);
        FullNotEmpty(tree, e.first, rootCap, blockCap);
        r := GrowInDepth();
        if r != EOK {
          GaveUpKeepsIff(t0, depth, e, rootCap, blockCap, spare0, tree);
          return;
        }
        GrowReady(t0, depth - 1, 0, BLOCK_SPACE, e, rootCap, blockCap, spare0[0]);
        GrowTight(t0, spare0[0]);
        path' := FindExtent(e.first);
        if depth == 1 {
          TightIsTightBut(tree, e.first);
          return;
        }
        GrowCanOpen(t0, depth - 1, e, rootCap, blockCap, spare0[0]);
        i := 1;
      } else {
        FullLevelsOpen(tree, depth, e, rootCap, blockCap, i);
      }
      ghost var t, spare := tree, free;
      r, path' := SplitNode(path', i + 1, e);
      if r == EOK {
        RoomMadeReady(t, depth, 0, BLOCK_SPACE, e, rootCap, blockCap, spare, i);
        RoomMadeTight(t, depth, e, i, spare);
      } else {
        GaveUpOk(t, depth, 0, BLOCK_SPACE, e, rootCap, blockCap, spare, i);
        BrokenTight(t, depth, e, |spare|, spare);
        GaveUpKeepsIff(t0, old(depth), e, rootCap, blockCap, spare0, tree);
      }
    }

    /** ext4_ext_insert_extent.  A duplicate start is refused; the prepend branch is taken as it is;
        otherwise the tree gains exactly e, or the blocks for splitting run out. */
    method InsertExtent(path0: Path, e: Extent) returns (r: Err)
      requires Sound() && PathTo(tree, depth, e.first, path0)
      requires Clashes(LeafAt(tree, e.first), e) || Prepends(LeafAt(tree, e.first), e) ||
               Insertable(tree, e, BLOCK_SPACE)
      modifies this`nodes, this`free, this`tree, this`depth
      ensures Clashes(LeafAt(old(tree), e.first), e) ==> r == EIO && tree == old(tree) && nodes == old(nodes)
      ensures !Clashes(LeafAt(old(tree), e.first), e) && Prepends(LeafAt(old(tree), e.first), e) ==>
                r == EOK && tree == Insert(old(tree), e).tree && Stored()
      ensures Insertable(old(tree), e, BLOCK_SPACE) ==> Sound()
      ensures Insertable(old(tree), e, BLOCK_SPACE) ==>
                r == if BlocksNeeded(old(tree), e, rootCap, blockCap) <= |old(free)| then EOK else ENOSPC
      ensures Insertable(old(tree), e, BLOCK_SPACE) && r == EOK ==>
                Inserted(Flat(old(tree)), Flat(tree), e) && AddsRange(Flat(old(tree)), Flat(tree), e)
      ensures Insertable(old(tree), e, BLOCK_SPACE) && r == ENOSPC ==>
                && GaveUp(old(tree), old(depth), e, rootCap, blockCap, old(free), tree)
                && (Flat(tree) == Flat(old(tree)) <==>
                   LosesNothing(old(tree), old(depth), e, rootCap, blockCap, old(free)))
    {
      hide WF, Within, Shape, Solid, Rep, Distinct, SpareOk, Insertable, Tight, TightBut, LosesNothing, LeafAt,
        PathTo, Roomy, Flat, FullLevels, GaveUp, Clashes, Prepends, Insert, AddsRange, Inserted;
      ghost var t0 := tree;
      var path := path0;
      NoClash(tree, depth, e, rootCap, blockCap);
      var needSplit: bool;
      r, needSplit := InsertLeaf(path, e);
      if r == EOK {
        StartReady(t0, depth, e, rootCap, blockCap);
        InsertEnd(t0, t0, depth, e, rootCap, blockCap);
      }
      while needSplit
        invariant needSplit ==>
                    r == EIO && tree == t0 && free == old(free) && depth == old(depth) && Sound() &&
                      PathTo(tree, depth, e.first, path)
        invariant needSplit ==>
                    !Roomy(t0, e, rootCap, blockCap) && Insertable(t0, e, BLOCK_SPACE) &&
                      !Prepends(LeafAt(t0, e.first), e)
        invariant !needSplit && Clashes(LeafAt(t0, e.first), e) ==> r == EIO && tree == t0 && nodes == old(nodes)
        invariant !needSplit && !Clashes(LeafAt(t0, e.first), e) && Prepends(LeafAt(t0, e.first), e) ==>
                    r == EOK && tree == Insert(t0, e).tree && Stored()
        invariant !needSplit && Insertable(t0, e, BLOCK_SPACE) ==>
                    && r == EOK && Sound() && BlocksNeeded(t0, e, rootCap, blockCap) <= |old(free)|
                    && Inserted(Flat(t0), Flat(tree), e) && AddsRange(Flat(t0), Flat(tree), e)
        decreases needSplit
      {
        r, path := MakeSpace(path, e);
        if r != EOK { return; }
        ghost var t1 := tree;
        NoClash(tree, depth, e, rootCap, blockCap);
        r, needSplit := InsertLeaf(path, e);
        InsertEnd(t0, t1, depth, e, rootCap, blockCap);
      }
    }

    /** ext4_extent_get_blocks for one block.  The data block that the allocator offers is a
        parameter; 0 means that it has none. */
    method GetBlock(b: nat, create: bool, newBlock: nat) returns (r: Err, phys: nat)
      requires Sound() && b < BLOCK_SPACE
      modifies this`nodes, this`free, this`tree, this`depth
      ensures Scan(Flat(old(tree)), b).Some? ==> r == EOK && Some(phys) == Scan(Flat(old(tree)), b)
      ensures Scan(Flat(old(tree)), b).Some? || !create || newBlock == 0 ==>
              tree == old(tree) && nodes == old(nodes) && free == old(free)
      ensures Scan(Flat(old(tree)), b).None? && !create ==> r == EOK && phys == 0
      ensures Scan(Flat(old(tree)), b).None? && create && newBlock == 0 ==> r == ENOSPC
      ensures Scan(Flat(old(tree)), b).None? && create && newBlock != 0 ==>
                var e := Extent(b, 1, newBlock);
                !Prepends(LeafAt(old(tree), b), e) ==>
                  && Sound()
                  && r == (if BlocksNeeded(old(tree), e, rootCap, blockCap) <= |old(free)| then EOK else ENOSPC)
                  && (r == EOK ==> phys == newBlock && AddsRange(Flat(old(tree)), Flat(tree), e))
                  && (r == ENOSPC ==>
                        && GaveUp(old(tree), old(depth), e, rootCap, blockCap, old(free), tree)
                        && (Flat(tree) == Flat(old(tree)) <==>
                              LosesNothing(old(tree), old(depth), e, rootCap, blockCap, old(free))))
      ensures Scan(Flat(old(tree)), b).None? && create && newBlock != 0 ==>
                Prepends(LeafAt(old(tree), b), Extent(b, 1, newBlock)) ==>
                  r == EOK && phys == newBlock && Stored() && Find(tree, b) == Some(newBlock + 1)
    {
      hide WF, Within, Shape, Solid, Rep, Distinct, LeafAt, Prepends, Insertable, Flat, GaveUp, AddsRange,
        Inserted, PathTo, BlocksNeeded, SpareOk, Tight, LosesNothing, Find, Clashes, Insert;
      ghost var t0 := tree;
      phys := 0;
      var path := FindExtent(b);
      var found := Covered(path, b);
      if found.Some? { return EOK, found.value; }
      if !create { return EOK, 0; }
      if newBlock == 0 { return ENOSPC, 0; }
      var e := Extent(b, 1, newBlock);
      BlockInsertable(tree, e);
      if Prepends(LeafAt(tree, b), e) { PrependNoClash(LeafAt(tree, b), e); }
      r := InsertExtent(path, e);
      if r == EOK {
        phys := newBlock;
      }
      if Prepends(LeafAt(t0, b), e) {
        PrependFind(t0, e);
      }
    }

    /** The extent of the path, if it covers the block. */
    method Covered(path: Path, b: nat) returns (found: Option<nat>)
      requires Usable() && PathTo(tree, depth, b, path)
      ensures found == Scan(Flat(tree), b)
    {
      StopNode(b, depth);
      FindIsScan(tree, depth, 0, BLOCK_SPACE, b);
      FindAtLeaf(tree, b);
      found := None;
      if path.leaf >= 0 {
        var x := nodes[path.blks[depth]].exts[path.leaf];
        if x.first <= b && b <= x.first + x.len - 1 {
          found := Some(b - x.first + x.start);
        }
      }
    }
  }

  /** The blocks that splitting and growing will take for e. */
  function BlocksNeeded(t: Tree, e: Extent, cap: nat, b: nat): nat
    requires Solid(t)
  {
    if Roomy(t, e, cap, b) then 0 else FullLevels(t, e.first, cap, b)
  }

  lemma {:induction false} LeafInFlat(t: Tree, b: nat, i: nat)
    requires Solid(t) && i < |LeafAt(t, b)|
    ensures LeafAt(t, b)[i] in Flat(t)
    decreases t
  {
    if t.Index? {
      var p := Pos(Keys(t.kids), b);
      LeafInFlat(t.kids[p].sub, b, i);
      FlatAround(t.kids, p);
    }
  }

  /** An insertable extent never starts where another one does, and the prepend branch needs no room. */
  lemma {:induction false} NoClash(t: Tree, d: nat, e: Extent, cap: nat, b: nat)
    requires WF(t, d, 0, BLOCK_SPACE) && Solid(t) && Shape(t, d)
    ensures Insertable(t, e, BLOCK_SPACE) || InRange(t, e, BLOCK_SPACE) ==> !Clashes(LeafAt(t, e.first), e)
    ensures Prepends(LeafAt(t, e.first), e) ==> Roomy(t, e, cap, b)
  {
    hide WF, Flat, LeafAt, LeafLimit, Roomy, Prepends;
    FlatSorted(t, d, 0, BLOCK_SPACE);
    RoomyAtLeaf(t, e, cap, b, d);
    var exts := LeafAt(t, e.first);
    if exts != [] {
      LeafInFlat(t, e.first, Pos(Firsts(exts), e.first));
    }
  }

  lemma {:induction false} PrependNoClash(exts: seq<Extent>, e: Extent)
    requires e.len > 0 && Prepends(exts, e)
    ensures !Clashes(exts, e)
  {
  }

  /** A single block that the lookup misses may be inserted unless the prepend branch takes it. */
  lemma {:induction false} BlockInsertable(t: Tree, e: Extent)
    requires Solid(t) && e.len == 1 && e.first < BLOCK_SPACE && Scan(Flat(t), e.first) == None
    ensures Insertable(t, e, BLOCK_SPACE) <==> !Prepends(LeafAt(t, e.first), e)
  {
    hide Flat, Prepends, LeafAt;
    MissedApart(Flat(t), e);
  }

  /** A tree that has no room for e is not the empty root. */
  lemma {:induction false} NoRoomTight(t: Tree, e: Extent, cap: nat, b: nat)
    requires Solid(t) && Settled(t) && cap > 0 && !Roomy(t, e, cap, b)
    ensures Tight(t)
  {
  }

  lemma {:induction false} StartReady(t: Tree, d: nat, e: Extent, cap: nat, b: nat)
    requires WF(t, d, 0, BLOCK_SPACE) && Solid(t) && Shape(t, d) && Within(t, cap, b) && Settled(t)
    ensures TightBut(t, e.first) && (Insertable(t, e, BLOCK_SPACE) ==> Ready(t, d, 0, BLOCK_SPACE, e, cap, b))
  {
    TightIsTightBut(t, e.first);
    if Insertable(t, e, BLOCK_SPACE) {
      InsertableInRange(t, e, BLOCK_SPACE);
    }
  }

  lemma {:induction false} InsertEnd(t0: Tree, t: Tree, d: nat, e: Extent, cap: nat, b: nat)
    requires Solid(t) && TightBut(t, e.first)
    ensures Ready(t, d, 0, BLOCK_SPACE, e, cap, b) && Roomy(t, e, cap, b) && Flat(t) == Flat(t0) ==>
              var r := Insert(t, e).tree;
              && WF(r, d, 0, BLOCK_SPACE) && Within(r, cap, b) && Tight(r)
              && Inserted(Flat(t0), Flat(r), e) && AddsRange(Flat(t0), Flat(r), e)
  {
    hide Flat, LeafLimit, AddsRange, Inserted, LeafAt, Prepends, Roomy, Tight, TightBut;
    if Ready(t, d, 0, BLOCK_SPACE, e, cap, b) && Roomy(t, e, cap, b) && Flat(t) == Flat(t0) {
      var r := Insert(t, e);
      InRangeKeepsShape(t, d, 0, BLOCK_SPACE, e);
      InsertTight(t, e);
      WFWiden(r.tree, d, Low(0, r.border), BLOCK_SPACE, 0, BLOCK_SPACE);
      InsertWithin(t, e, cap, b);
      InRangeAdds(t, d, 0, BLOCK_SPACE, e);
      InsertedAddsRange(Flat(t), Flat(r.tree), e);
    }
  }

  /** A tree rooted in the inode, held in the store, with the spare blocks outside it. */
  ghost predicate Held(s: Store, free: seq<nat>, t: Tree) {
    t.blk == 0 && Rep(s, t) && Distinct(t) && SpareOk(free, t)
  }

  /** Moving the root to block spare[0] in the store. */
  lemma {:induction false} GrowStore(s: Store, t: Tree, spare: seq<nat>)
    requires Held(s, spare, t) && spare != [] &&
             (match t case Leaf(_, exts) => exts != [] case Index(_, kids) => kids != [])
    ensures var g := Grow(t, spare[0]);
            Held(s[spare[0] := s[0]][0 := IdxNode([Idx(g.kids[0].key, spare[0])])], spare[1..], g)
  {
    var nb, g := spare[0], Grow(t, spare[0]);
    var x := g.kids[0].sub;
    var s1 := s[nb := s[0]];
    var s2 := s1[0 := IdxNode([Idx(g.kids[0].key, nb)])];
    assert Uses(t, 0);
    if t.Index? {
      forall i | 0 <= i < |t.kids| ensures Rep(s2, t.kids[i].sub) {
        assert !Uses(t.kids[i].sub, nb);
        RepFrame(s, s2, t.kids[i].sub);
      }
    }
    assert Rep(s2, x);
    GrowUses(t, nb);
  }

  lemma {:induction false} GrowUses(t: Tree, nb: nat)
    requires (match t case Leaf(_, exts) => exts != [] case Index(_, kids) => kids != [])
    requires Distinct(t) && !Uses(t, nb)
    ensures Distinct(Grow(t, nb)) && UsesOnly(Grow(t, nb), t, {nb})
  {
    var g := Grow(t, nb);
    var x := g.kids[0].sub;
    forall b | Uses(x, b) ensures b == nb || (Uses(t, b) && b != t.blk) {
      if b != nb {
        var i :| 0 <= i < |x.kids| && Uses(x.kids[i].sub, b);
        assert x.kids[i] == t.kids[i];
      }
    }
    assert Uses(t, t.blk);
    assert Distinct(x);
  }

  lemma {:induction false} HalfwayHeld(s: Store, t: Tree, e: Extent, d: nat, n: nat, spare: seq<nat>)
    requires Clean(t, d, spare) && t.blk == 0 && n <= d + 1 && n <= |spare| && Halfway(s, t, e, d, n, spare)
    ensures Held(s, spare, Broken(t, e, d, n, spare))
  {
    hide Broken;
    SpareKept(spare, t, Broken(t, e, d, n, spare));
  }

  lemma {:induction false} PathAfter(t: Tree, d: nat, e: Extent, m: nat, spare: seq<nat>, path: Path)
    requires Solid(t) && Shape(t, d) && m < d <= m + |spare| && PathTo(t, d, e.first, path) &&
             LeafAt(t, e.first) != []
    ensures Solid(RoomMade(t, e, d, m, spare))
    ensures PathTo(RoomMade(t, e, d, m, spare), d, e.first,
                   if e.first < SplitKey(t, e) then path else MovedPath(path, m, NewBlocks(spare, d - m)))
  {
    if e.first < SplitKey(t, e) {
      PathStays(t, d, e, m, spare, path);
    } else {
      PathMoves(t, d, e, m, spare, path);
    }
  }

  /** The node above the split has room and a smaller key at the search position. */
  lemma {:induction false} NodeAbove(s: Store, t: Tree, d: nat, e: Extent, cap: nat, b: nat, at: nat, spare: seq<nat>,
      path: Path)
    requires Clean(t, d, spare) && PathTo(t, d, e.first, path) && 1 <= at <= d && d - at < |spare| && b >= 2
    requires Ready(t, d, 0, BLOCK_SPACE, e, cap, b) && CanOpen(t, d, e, cap, b, at - 1)
    requires Halfway(s, t, e, d, d - at + 1, spare)
    ensures var blk, p := path.blks[at - 1], path.pos[at - 1];
            && blk in s && s[blk].IdxNode? && p < |s[blk].idx| < CapAt(at - 1, cap, b)
            && s[blk].idx[p].first < SplitKey(t, e)
  {
    hide Solid, WF, Shape, Within, Full, Distinct, Rep, Halfway, SpareOk, InRange, SplitKey, Apart, Broken,
      Route, Sub;
    IndexNode(s, t, e, d, d - at + 1, spare);
    KeyBehind(t, d, 0, BLOCK_SPACE, e, cap, b, at - 1);
    RouteStep(t, e.first, d, at - 1);
  }

  lemma {:induction false} Entered(s: Store, s': Store, t: Tree, d: nat, e: Extent, at: nat, spare: seq<nat>,
      path: Path)
    requires Clean(t, d, spare) && PathTo(t, d, e.first, path) && 1 <= at <= d && d - at < |spare| && t.blk == 0
    requires Halfway(s, t, e, d, d - at + 1, spare)
    requires var blk, p := path.blks[at - 1], path.pos[at - 1];
             && blk in s && s[blk].IdxNode? && p < |s[blk].idx|
             && s' == s[blk := IdxNode(s[blk].idx[..p + 1] + [Idx(SplitKey(t, e), spare[d - at])]
                                       + s[blk].idx[p + 1..])]
    ensures Held(s', spare[d - at + 1..], RoomMade(t, e, d, at - 1, spare))
  {
    var blk, p, n := path.blks[at - 1], path.pos[at - 1], d - at + 1;
    JoinLevel(s, s', t, e, d, n, spare, blk, s[blk].idx, p);
    SpareLeft(spare, t, RoomMade(t, e, d, at - 1, spare), n);
  }
}
