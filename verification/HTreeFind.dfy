/** Looking a name up through the index. */
module HTreeFind {
  import opened Wrappers
  import opened DirBlockSpec
  import opened HTree
  import DirBlock

  /** A node on the way down and the entry taken in it. */
  datatype Step = Step(node: Node, pos: nat)

  predicate TailSorted(slots: seq<Slot>) {
    forall i, j :: 1 <= i < j < |slots| ==> slots[i].hash <= slots[j].hash
  }

  /** The binary search of one node, which never reads the first entry's hash. */
  method Search(slots: seq<Slot>, h: nat) returns (at: nat)
    requires slots != []
    ensures at < |slots|
    ensures TailSorted(slots) ==>
              (at > 0 ==> slots[at].hash <= h) && forall k :: at < k < |slots| ==> h < slots[k].hash
  {
    var p: nat, q := 1, |slots| - 1;
    while p <= q
      invariant 1 <= p <= q + 1 <= |slots|
      invariant TailSorted(slots) ==>
                (forall k :: 1 <= k < p ==> slots[k].hash <= h) && forall k :: q < k < |slots| ==> h < slots[k].hash
      decreases q - p
    {
      var m := p + (q - p) / 2;
      if slots[m].hash > h { q := m - 1; } else { p := m + 1; }
    }
    at := p - 1;
  }

  /** path leads to slot j of row i. */
  ghost predicate PathTo(d: Dir, path: seq<Step>, i: nat, j: nat)
    requires Shaped(d)
  {
    && i < |Rows(d)| && j < |Rows(d)[i]|
    && path == if d.levels == 0 then [Step(d.root, j)]
               else [Step(d.root, i), Step(d.nodes[d.root.slots[i].block], j)]
  }

  /** What the code reads at the end of a path. */
  lemma {:induction false} PathReads(d: Dir, path: seq<Step>, i: nat, j: nat)
    requires Shaped(d) && PathTo(d, path, i, j)
    ensures |path| == d.levels + 1 && i < |Rows(d)| && j < |Rows(d)[i]|
    ensures var s := path[d.levels];
            s.pos == j < |s.node.slots| == |Rows(d)[i]| && s.node.slots[j].block == Rows(d)[i][j].block
  {
  }

  // ---------------------------------------------------------------- from rows to the whole index

  lemma {:induction false} KeysAscend(rs: seq<seq<Slot>>, i: nat, j: nat, k: nat, m: nat)
    requires Ascending(Concat(rs)) && i <= k < |rs| && j < |rs[i]| && m < |rs[k]| && (i == k ==> j < m)
    ensures rs[i][j].hash <= rs[k][m].hash
  {
    PlaceMono(rs, i, j, k, m);
    PlaceOk(rs, i, j);
    PlaceOk(rs, k, m);
  }

  lemma {:induction false} RootSorted(d: Dir)
    requires Shaped(d) && Ascending(Flat(d))
    ensures TailSorted(d.root.slots)
  {
    var rs, s := Rows(d), d.root.slots;
    forall i, j | 1 <= i < j < |s| ensures s[i].hash <= s[j].hash {
      if d.levels == 0 {
        assert rs[0][i] == s[i] && rs[0][j] == s[j];
        KeysAscend(rs, 0, i, 0, j);
      } else {
        assert rs[i][0].hash == s[i].hash && rs[j][0].hash == s[j].hash;
        KeysAscend(rs, i, 0, j, 0);
      }
    }
  }

  lemma {:induction false} NodeSorted(d: Dir, i: nat)
    requires Shaped(d) && d.levels == 1 && Ascending(Flat(d)) && i < |d.root.slots|
    ensures TailSorted(d.nodes[d.root.slots[i].block].slots)
  {
    var rs, s := Rows(d), d.nodes[d.root.slots[i].block].slots;
    forall j, m | 1 <= j < m < |s| ensures s[j].hash <= s[m].hash {
      assert rs[i] == Row(d, i) && rs[i][j] == s[j] && rs[i][m] == s[m];
      KeysAscend(rs, i, j, i, m);
    }
  }

  /** Entry at is the last one a search for h can take in this node. */
  ghost predicate Taken(slots: seq<Slot>, at: nat, h: nat) {
    at < |slots| && (at > 0 ==> slots[at].hash <= h) && forall k :: at < k < |slots| ==> h < slots[k].hash
  }

  /** Since keys ascend, the last position is known by its neighbours. */
  lemma {:induction false} LastByNext(flat: seq<Slot>, at: nat, h: nat)
    requires Ascending(flat) && at < |flat| && flat[at].hash <= h && (at + 1 < |flat| ==> h < flat[at + 1].hash)
    ensures LastAtMost(flat, at, h)
  {
  }

  /** Searching node by node finds the last position of the whole index. */
  lemma {:induction false} LeafFound(d: Dir, i: nat, j: nat, h: nat)
    requires Shaped(d) && Ascending(Flat(d)) && i < |Rows(d)| && j < |Rows(d)[i]|
    requires if d.levels == 0 then Taken(d.root.slots, j, h)
             else Taken(d.root.slots, i, h) && Taken(d.nodes[d.root.slots[i].block].slots, j, h)
    ensures LastAtMost(Flat(d), Place(Rows(d), i, j), h)
  {
    hide Ascending, LastAtMost, Place;
    var rs := Rows(d);
    PlaceOk(rs, i, j);
    PlaceNext(rs, i, j);
    assert rs[i][j].hash <= h;
    if j + 1 < |rs[i]| {
      PlaceOk(rs, i, j + 1);
    } else if i + 1 < |rs| {
      PlaceOk(rs, i + 1, 0);
      assert rs[i + 1] == Row(d, i + 1);
      assert rs[i + 1][0].hash == d.root.slots[i + 1].hash;
    }
    LastByNext(Flat(d), Place(rs, i, j), h);
  }

  // ---------------------------------------------------------------- the code

  /** The blocks of the root's entries can be read. */
  predicate Loadable(d: Dir) {
    d.levels == 1 ==> forall i :: 0 <= i < |d.root.slots| ==> d.root.slots[i].block in d.nodes
  }

  predicate ChildOk(d: Dir, i: nat)
    requires i < |d.root.slots|
  {
    var b := d.root.slots[i].block;
    b in d.nodes && NodeOk(d.nodes[b]) && d.nodes[b].limit == d.nodeLimit
  }

  /** The descent for h meets a node with a wrong count or a wrong limit. */
  ghost predicate Damaged(d: Dir, h: nat) {
    !NodeOk(d.root) || (d.levels == 1 && exists i :: Taken(d.root.slots, i, h) && !ChildOk(d, i))
  }

  lemma {:induction false} TakenOnce(slots: seq<Slot>, i: nat, j: nat, h: nat)
    requires Taken(slots, i, h) && Taken(slots, j, h)
    ensures i == j
  {
  }

  lemma {:induction false} NotDamaged(d: Dir, i: nat, h: nat)
    requires NodeOk(d.root) && (d.levels > 0 ==> Taken(d.root.slots, i, h) && ChildOk(d, i))
    ensures !Damaged(d, h)
  {
    if k: nat :| d.levels == 1 && Taken(d.root.slots, k, h) && !ChildOk(d, k) { TakenOnce(d.root.slots, i, k, h); }
  }

  /** A well-formed index meets what the lookup asks for and is never reported. */
  lemma {:induction false} NeverDamaged(d: Dir, hash: Hash, h: nat)
    requires WF(d, hash)
    ensures Loadable(d) && TailSorted(d.root.slots) && !Damaged(d, h)
  {
    hide Ascending, Placed, LeavesOk;
    RootSorted(d);
  }

  /** ext4_dir_dx_get_leaf; None is EXT4_ERR_BAD_DX_DIR. */
  method GetLeaf(d: Dir, h: nat) returns (r: Option<seq<Step>>, ghost i: nat, ghost j: nat)
    requires d.levels <= 1 && (NodeOk(d.root) ==> Loadable(d) && TailSorted(d.root.slots))
    requires !Damaged(d, h) ==> Shaped(d) && Ascending(Flat(d))
    ensures r.Some? <==> !Damaged(d, h)
    ensures r.Some? ==> PathTo(d, r.value, i, j) && LastAtMost(Flat(d), Place(Rows(d), i, j), h)
  {
    i, j := 0, 0;
    var entries := d.root;
    var level: nat := d.levels;
    var path: seq<Step> := [];
    while true
      invariant level <= d.levels
      invariant level == d.levels ==> entries == d.root && path == [] && i == 0
      invariant level < d.levels ==>
                  && NodeOk(d.root) && Taken(d.root.slots, i, h)
                  && entries == d.nodes[d.root.slots[i].block] && entries.limit == d.nodeLimit &&
                     path == [Step(d.root, i)]
      decreases level
    {
      hide Ascending, Concat;
      if |entries.slots| == 0 || |entries.slots| > entries.limit { return None, i, j; }
      if level == 0 { NotDamaged(d, i, h); }
      if level < d.levels { NodeSorted(d, i); }
      var at := Search(entries.slots, h);
      path := path + [Step(entries, at)];
      if level == 0 {
        j := at;
        LeafFound(d, i, j, h);
        return Some(path), i, j;
      }
      i := at;
      var n := entries.slots[at].block;
      level := level - 1;
      entries := d.nodes[n];
      if entries.limit != d.nodeLimit { return None, i, j; }
    }
  }

  /** The first loop of ext4_dir_dx_next_block: advance in the lowest node that has a further entry. */
  method Climb(path: seq<Step>) returns (ok: bool, p: nat, next: seq<Step>)
    requires path != []
    ensures |next| == |path| && p < |path|
    ensures forall q :: p < q < |path| ==> path[q].pos + 1 >= |path[q].node.slots|
    ensures ok <==> path[p].pos + 1 < |path[p].node.slots|
    ensures ok ==> next[..p] == path[..p] && next[p] == path[p].(pos := path[p].pos + 1)
    ensures !ok ==> p == 0
  {
    next := path;
    p := |path| - 1;
    while true
      invariant p < |path| == |next| && next[..p + 1] == path[..p + 1]
      invariant forall q :: p < q < |path| ==> path[q].pos + 1 >= |path[q].node.slots|
      decreases p
    {
      assert next[p] == next[..p + 1][p] == path[p];
      next := next[p := next[p].(pos := next[p].pos + 1)];
      if next[p].pos < |next[p].node.slots| { return true, p, next; }
      if p == 0 { return false, p, next; }
      p := p - 1;
    }
  }

  /** What the climb finds is the next leaf of the whole index. */
  lemma {:induction false} ClimbMeans(d: Dir, path: seq<Step>, i: nat, j: nat, p: nat) returns (k: nat, m: nat)
    requires Shaped(d) && PathTo(d, path, i, j) && p < |path|
    requires forall q :: p < q < |path| ==> path[q].pos + 1 >= |path[q].node.slots|
    ensures path[p].pos + 1 >= |path[p].node.slots| && p == 0 ==> Place(Rows(d), i, j) + 1 == |Flat(d)|
    ensures path[p].pos + 1 < |path[p].node.slots| ==>
              && k < |Rows(d)| && m < |Rows(d)[k]| && Place(Rows(d), k, m) == Place(Rows(d), i, j) + 1 < |Flat(d)|
              && path[p].node.slots[path[p].pos + 1].hash == Flat(d)[Place(Rows(d), k, m)].hash
              && (if p == d.levels then k == i && m == j + 1 else k == i + 1 && m == 0)
  {
    hide Concat, Place;
    var rs := Rows(d);
    PathReads(d, path, i, j);
    PlaceNext(rs, i, j);
    k, m := i, j;
    if path[p].pos + 1 < |path[p].node.slots| {
      if p == d.levels { m := j + 1; } else { k, m := i + 1, 0; assert rs[k] == Row(d, k); }
      PlaceOk(rs, k, m);
    }
  }

  /** ext4_dir_dx_next_block: step to the next leaf if the chain of this hash continues there. */
  method NextBlock(d: Dir, h: nat, path: seq<Step>, ghost i: nat, ghost j: nat)
    returns (more: bool, next: seq<Step>, ghost k: nat, ghost m: nat)
    requires Shaped(d) && PathTo(d, path, i, j) && h % 2 == 0
    ensures more <==> Place(Rows(d), i, j) + 1 < |Flat(d)| && Base(Flat(d)[Place(Rows(d), i, j) + 1].hash) == h
    ensures more ==> PathTo(d, next, k, m) && Place(Rows(d), k, m) == Place(Rows(d), i, j) + 1
  {
    hide Place, Concat;
    var p: nat;
    more, p, next := Climb(path);
    k, m := ClimbMeans(d, path, i, j, p);
    if !more { return; }
    var current := next[p].node.slots[next[p].pos].hash;
    if current - current % 2 != h { more := false; return; }
    PathReads(d, path, i, j);
    while p + 1 < |path|
      invariant p < |path| == |next| == d.levels + 1
      invariant p < d.levels ==> p == 0 && next[0] == Step(d.root, k) && k < |d.root.slots| && m == 0
      invariant p == d.levels ==> PathTo(d, next, k, m)
    {
      var blk := next[p].node.slots[next[p].pos].block;
      p := p + 1;
      next := next[p := Step(d.nodes[blk], 0)];
    }
  }

  datatype Answer = Found(block: nat, off: nat) | NotFound | BadIndex

  ghost predicate SomeHolds(d: Dir, flat: seq<Slot>, name: Name) {
    exists k :: 0 <= k < |flat| && Holds(d, flat[k].block, name)
  }

  /** Some leaf of the index holds the name: what a scan of all leaf blocks would find. */
  ghost predicate InSomeLeaf(d: Dir, name: Name)
    requires Shaped(d)
  {
    SomeHolds(d, Flat(d), name)
  }

  /** None of the leaves lo..hi holds the name. */
  ghost predicate Missed(d: Dir, flat: seq<Slot>, lo: nat, hi: nat, name: Name) {
    forall k :: lo <= k < hi && k < |flat| ==> !Holds(d, flat[k].block, name)
  }

  /** Nothing is left to find once the chain ends. */
  lemma {:induction false} NothingElsewhere(d: Dir, hash: Hash, name: Name, at: nat, last: nat)
    requires Even(hash) && WF(d, hash) && LastAtMost(Flat(d), at, hash(name)) && at <= last < |Flat(d)|
    requires Missed(d, Flat(d), at, last + 1, name)
    requires last + 1 < |Flat(d)| ==> Base(Flat(d)[last + 1].hash) != hash(name)
    ensures !InSomeLeaf(d, name)
  {
    hide Concat, Holds;
    var flat := Flat(d);
    forall k | 0 <= k < |flat| ensures !Holds(d, flat[k].block, name) {
      if Holds(d, flat[k].block, name) { Reached(d, flat, hash, name, at, k); }
    }
  }

  lemma {:induction false} LeafSearch(d: Dir, hash: Hash, k: nat, name: Name)
    requires WF(d, hash) && k < |Flat(d)|
    ensures var l := Flat(d)[k].block;
            && l in d.leaves && Tiled(d.leaves[l], 0, d.size) && Readable(d.leaves[l], 0, d.size)
            && !FindFrom(d.leaves[l], 0, d.size, name).Corrupt?
            && (FindFrom(d.leaves[l], 0, d.size, name).At? <==> Holds(d, l, name))
  {
    hide Concat, Placed, Ascending;
    FindIsLookup(d.leaves[Flat(d)[k].block], 0, d.size, name);
  }

  /** ext4_dir_dx_find_entry: the indexed lookup answers as a scan of every leaf would. */
  method FindEntry(d: Dir, hash: Hash, name: Name) returns (r: Answer)
    requires Even(hash) && (d.levels <= 1 && NodeOk(d.root) ==> Loadable(d) && TailSorted(d.root.slots))
    requires d.levels <= 1 && !Damaged(d, hash(name)) ==> WF(d, hash)
    ensures r.BadIndex? <==> d.levels > 1 || Damaged(d, hash(name))
    ensures !r.BadIndex? ==> (r.Found? <==> InSomeLeaf(d, name))
    ensures r.Found? ==>
              && r.block in d.leaves && r.off in d.leaves[r.block] && Hit(d.leaves[r.block][r.off], name)
              && exists k :: 0 <= k < |Flat(d)| && Flat(d)[k].block == r.block
  {
    hide WF, Damaged, Even, Concat, Place, Holds, LastAtMost, Tiled, FindFrom, Live, Lookup, Rows, Readable;
    if d.levels > 1 { return BadIndex; }
    var h := hash(name);
    if !Damaged(d, h) { WFParts(d, hash); }
    var leaf, i, j := GetLeaf(d, h);
    if leaf.None? { return BadIndex; }
    var path := leaf.value;
    PlaceOk(Rows(d), i, j);
    ghost var at: nat := Place(Rows(d), i, j);
    ghost var f := at;
    while true
      invariant PathTo(d, path, i, j) && f == Place(Rows(d), i, j) && at <= f < |Flat(d)|
      invariant Missed(d, Flat(d), at, f, name)
      decreases |Flat(d)| - f
    {
      PathReads(d, path, i, j);
      PlaceOk(Rows(d), i, j);
      LeafSearch(d, hash, f, name);
      var l := path[d.levels].node.slots[path[d.levels].pos].block;
      var de := DirBlock.FindInBlock(d.leaves[l], d.size, name);
      if de.At? {
        FindIsLookup(d.leaves[l], 0, d.size, name);
        assert Flat(d)[f].block == l;
        return Found(l, de.off);
      }
      assert Missed(d, Flat(d), at, f + 1, name);
      EvenAt(hash, name);
      var more, next, k, m := NextBlock(d, h, path, i, j);
      if !more {
        NothingElsewhere(d, hash, name, at, f);
        return NotFound;
      }
      path, i, j, f := next, k, m, f + 1;
    }
  }

  lemma {:induction false} WFParts(d: Dir, hash: Hash)
    requires WF(d, hash)
    ensures Shaped(d) && Ascending(Flat(d))
  {
  }

  lemma {:induction false} EvenAt(hash: Hash, name: Name)
    requires Even(hash)
    ensures hash(name) % 2 == 0
  {
  }
}
