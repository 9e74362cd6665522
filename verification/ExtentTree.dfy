/** The extent tree of an inode as a value: a B+ tree from logical to physical blocks.

    Every node carries the number of the block that stores it; block 0 stands for the node kept
    inside the inode.  This file defines the shape of the tree, what it means (the list of its
    extents, left to right) and the pure effect of looking up, inserting, splitting and growing. */
module ExtentTree {
  import opened Wrappers

  // Logical blocks are 32-bit numbers.
  const BLOCK_SPACE: nat := 0x1_0000_0000

  // Longest written extent (EXT_INIT_MAX_LEN).
  const MAX_LEN: nat := 0x8000

  datatype Extent = Extent(first: nat, len: nat, start: nat) {
    function End(): nat { first + len }

    predicate Covers(b: nat) { first <= b < End() }

    predicate Written() { 1 <= len <= MAX_LEN }
  }

  datatype Tree = Leaf(blk: nat, exts: seq<Extent>) | Index(blk: nat, kids: seq<Kid>)

  // An index entry: its first_block key and the subtree stored in the block it points to.
  datatype Kid = Kid(key: nat, sub: Tree)

  // ---------------------------------------------------------------- meaning

  /** All extents of the tree, left to right. */
  function Flat(t: Tree): seq<Extent>
    decreases t
  {
    match t
    case Leaf(_, exts) => exts
    case Index(_, kids) => FlatKids(kids)
  }

  function FlatKids(kids: seq<Kid>): seq<Extent>
    decreases kids
  {
    if kids == [] then []
    else
      var k := kids[0];
      assert k in kids && k.sub < k;
      Flat(k.sub) + FlatKids(kids[1..])
  }

  /** The physical block of b found by scanning a list of extents from the left. */
  function Scan(exts: seq<Extent>, b: nat): Option<nat> {
    if exts == [] then None
    else if exts[0].Covers(b) then Some(exts[0].start + (b - exts[0].first))
    else Scan(exts[1..], b)
  }

  // ---------------------------------------------------------------- shape

  function Limit(kids: seq<Kid>, i: nat, hi: nat): nat {
    if i + 1 < |kids| then kids[i + 1].key else hi
  }

  ghost predicate LeafOk(exts: seq<Extent>, lo: nat, hi: nat) {
    && (forall i :: 0 <= i < |exts| ==> exts[i].Written() && lo <= exts[i].first && exts[i].End() <= hi)
    && (forall i, j :: 0 <= i < j < |exts| ==> exts[i].End() <= exts[j].first)
  }

  ghost predicate KeysOk(kids: seq<Kid>, lo: nat, hi: nat) {
    && |kids| > 0
    && (forall i :: 0 <= i < |kids| ==> lo <= kids[i].key < hi)
    && (forall i, j :: 0 <= i < j < |kids| ==> kids[i].key < kids[j].key)
  }

  /** Uniform depth d, sorted keys and extents, everything between lo and hi. */
  ghost predicate WF(t: Tree, d: nat, lo: nat, hi: nat)
    decreases t
  {
    match t
    case Leaf(_, exts) => d == 0 && LeafOk(exts, lo, hi)
    case Index(_, kids) => d > 0 && KidsOk(kids, d - 1, lo, hi)
  }

  /** The same for a list of children of depth d. */
  ghost predicate KidsOk(kids: seq<Kid>, d: nat, lo: nat, hi: nat)
    decreases kids
  {
    && KeysOk(kids, lo, hi)
    && (forall i {:trigger kids[i].sub} :: 0 <= i < |kids| ==>
          assert kids[i] in kids && kids[i].sub < kids[i];
          WF(kids[i].sub, d, kids[i].key, Limit(kids, i, hi)))
  }

  /** The node holds at most cap entries and every node below it at most b. */
  ghost predicate Within(t: Tree, cap: nat, b: nat)
    decreases t
  {
    match t
    case Leaf(_, exts) => |exts| <= cap
    case Index(_, kids) => |kids| <= cap && (forall i :: 0 <= i < |kids| ==> Within(kids[i].sub, b, b))
  }

  // ---------------------------------------------------------------- search

  function Firsts(exts: seq<Extent>): (s: seq<nat>) {
    seq(|exts|, i requires 0 <= i < |exts| => exts[i].first)
  }

  function Keys(kids: seq<Kid>): (s: seq<nat>) {
    seq(|kids|, i requires 0 <= i < |kids| => kids[i].key)
  }

  /** The position both binary searches settle on: the last key not above b, or position 0. */
  function Pos(ks: seq<nat>, b: nat): (p: nat)
    requires ks != []
    ensures p < |ks|
    ensures p == 0 || ks[p] <= b
    ensures forall j :: p < j < |ks| ==> b < ks[j]
  {
    if |ks| == 1 || ks[|ks| - 1] <= b then |ks| - 1 else Pos(ks[..|ks| - 1], b)
  }

  /** The leaf extents reached by descending for block b. */
  function LeafAt(t: Tree, b: nat): seq<Extent>
    requires Solid(t)
    decreases t
  {
    match t
    case Leaf(_, exts) => exts
    case Index(_, kids) => LeafAt(kids[Pos(Keys(kids), b)].sub, b)
  }

  /** No index node is empty; this is all that descending needs. */
  ghost predicate Solid(t: Tree)
    decreases t
  {
    t.Index? ==> |t.kids| > 0 && forall i :: 0 <= i < |t.kids| ==> Solid(t.kids[i].sub)
  }

  /** Solid with every leaf d levels down. */
  ghost predicate Shape(t: Tree, d: nat)
    decreases t
  {
    match t
    case Leaf(_, _) => d == 0
    case Index(_, kids) => d > 0 && |kids| > 0 && forall i :: 0 <= i < |kids| ==> Shape(kids[i].sub, d - 1)
  }

  /** The smallest key to the right of the leaf that b descends to. */
  function LeafLimit(t: Tree, b: nat, hi: nat): nat
    requires Solid(t)
    decreases t
  {
    match t
    case Leaf(_, _) => hi
    case Index(_, kids) =>
      var p := Pos(Keys(kids), b);
      LeafLimit(kids[p].sub, b, Limit(kids, p, hi))
  }

  /** What the extent at the search position of a leaf says about block b. */
  function Hit(exts: seq<Extent>, b: nat): Option<nat> {
    if exts == [] then None
    else
      var x := exts[Pos(Firsts(exts), b)];
      if x.Covers(b) then Some(x.start + (b - x.first)) else None
  }

  /** Lookup by descent: the part of ext4_extent_get_blocks that does not create. */
  function Find(t: Tree, b: nat): Option<nat>
    requires Solid(t)
    decreases t
  {
    match t
    case Leaf(_, exts) => Hit(exts, b)
    case Index(_, kids) => Find(kids[Pos(Keys(kids), b)].sub, b)
  }

  // ---------------------------------------------------------------- insertion into a leaf with room

  predicate CanAppend(x: Extent, e: Extent) {
    x.start + x.len == e.start && x.len + e.len <= MAX_LEN && x.first + x.len == e.first
  }

  predicate CanPrepend(x: Extent, e: Extent) {
    e.start + e.len == x.start && x.len + e.len <= MAX_LEN && e.first + e.len == x.first
  }

  /** The extent that the search position of a leaf points at, if the leaf is not empty. */
  function Near(exts: seq<Extent>, b: nat): Option<Extent> {
    if exts == [] then None else Some(exts[Pos(Firsts(exts), b)])
  }

  predicate Appends(exts: seq<Extent>, e: Extent) {
    exts != [] && CanAppend(Near(exts, e.first).value, e)
  }

  /** The faulty branch: the extent grows to the left but keeps its physical start. */
  predicate Prepends(exts: seq<Extent>, e: Extent) {
    exts != [] && !Appends(exts, e) && CanPrepend(Near(exts, e.first).value, e)
  }

  /** ext4_ext_insert_leaf refuses an extent that starts where the found one starts. */
  predicate Clashes(exts: seq<Extent>, e: Extent) {
    exts != [] && Near(exts, e.first).value.first == e.first
  }

  /** What ext4_ext_insert_leaf makes of the entries of a leaf. */
  function PutLeaf(exts: seq<Extent>, e: Extent): (r: seq<Extent>)
  {
    if exts == [] then [e]
    else
      var p := Pos(Firsts(exts), e.first);
      var x := exts[p];
      if CanAppend(x, e) then exts[p := Extent(x.first, x.len + e.len, x.start)]
      else if CanPrepend(x, e) then exts[p := Extent(e.first, x.len + e.len, x.start)]
      else if e.first > x.first then exts[..p + 1] + [e] + exts[p + 1..]
      else exts[..p] + [e] + exts[p..]
  }

  /** The key that ext4_ext_correct_indexes passes up: set only when position 0 was touched. */
  function LeafBorder(exts: seq<Extent>, e: Extent): Option<nat> {
    if exts == [] then Some(e.first)
    else if Appends(exts, e) || Prepends(exts, e) || Pos(Firsts(exts), e.first) != 0 then None
    else Some(PutLeaf(exts, e)[0].first)
  }

  datatype Put = Put(tree: Tree, border: Option<nat>)

  /** Insertion along the search path, with the keys above corrected. */
  function Insert(t: Tree, e: Extent): Put
    requires Solid(t)
    decreases t
  {
    match t
    case Leaf(blk, exts) => Put(Leaf(blk, PutLeaf(exts, e)), LeafBorder(exts, e))
    case Index(blk, kids) =>
      var p := Pos(Keys(kids), e.first);
      var r := Insert(kids[p].sub, e);
      var key := if r.border.Some? then r.border.value else kids[p].key;
      Put(Index(blk, kids[p := Kid(key, r.tree)]), if p == 0 then r.border else None)
  }

  /** The new extent can go into its leaf as it is: merged, or with a free entry. */
  predicate Roomy(t: Tree, e: Extent, cap: nat, blockCap: nat)
    requires Solid(t)
    decreases t
  {
    match t
    case Leaf(_, exts) => Appends(exts, e) || Prepends(exts, e) || |exts| < cap
    case Index(_, kids) => Roomy(kids[Pos(Keys(kids), e.first)].sub, e, blockCap, blockCap)
  }

  // ---------------------------------------------------------------- making room

  /** Every node on the search path of b is full. */
  predicate Full(t: Tree, b: nat, cap: nat, blockCap: nat)
    requires Solid(t)
    decreases t
  {
    match t
    case Leaf(_, exts) => |exts| >= cap
    case Index(_, kids) =>
      |kids| >= cap && Full(kids[Pos(Keys(kids), b)].sub, b, blockCap, blockCap)
  }

  /** The key of the new right sibling: the next extent of the leaf, or the new extent itself. */
  function SplitKey(t: Tree, e: Extent): nat
    requires Solid(t)
  {
    var exts := LeafAt(t, e.first);
    if exts == [] then e.first
    else
      var p := Pos(Firsts(exts), e.first);
      if p + 1 < |exts| then exts[p + 1].first else e.first
  }

  datatype Halves = Halves(left: Tree, right: Tree)

  function LeftKids(kids: seq<Kid>, p: nat, l: Tree): seq<Kid>
    requires p < |kids|
  {
    kids[..p] + [Kid(kids[p].key, l)]
  }

  function RightKids(kids: seq<Kid>, p: nat, k: nat, r: Tree): seq<Kid>
    requires p < |kids|
  {
    [Kid(k, r)] + kids[p + 1..]
  }

  /** Both halves of a full path: each node keeps its entries up to the search position, and a
      new node in block spare[d], d levels above the leaf, takes the rest. */
  function Split(t: Tree, e: Extent, d: nat, spare: seq<nat>): (r: Halves)
    requires Solid(t) && Shape(t, d)
    requires d < |spare|
    decreases t
  {
    match t
    case Leaf(blk, exts) =>
      var p := if exts == [] then 0 else Pos(Firsts(exts), e.first) + 1;
      Halves(Leaf(blk, exts[..p]), Leaf(spare[0], exts[p..]))
    case Index(blk, kids) =>
      var p := Pos(Keys(kids), e.first);
      var below := Split(kids[p].sub, e, d - 1, spare);
      Halves(Index(blk, LeftKids(kids, p, below.left)),
             Index(spare[d], RightKids(kids, p, SplitKey(t, e), below.right)))
  }

  /** ext4_ext_grow_indepth: the root moves into a block of its own below a new one-entry root. */
  function Grow(t: Tree, blk: nat): Tree
    requires match t case Leaf(_, exts) => exts != [] case Index(_, kids) => kids != []
  {
    match t
    case Leaf(b, exts) => Index(b, [Kid(exts[0].first, Leaf(blk, exts))])
    case Index(b, kids) => Index(b, [Kid(kids[0].key, Index(blk, kids))])
  }
}
