/** The hashed directory index: one or two levels of hash-sorted nodes over linear leaf blocks. */
module HTree {
  import opened Wrappers
  import opened DirBlockSpec

  /** An index entry.  The first entry of a node has no hash of its own: its bytes hold the node's
      count and limit. */
  datatype Slot = Slot(hash: nat, block: nat)

  datatype Node = Node(limit: nat, slots: seq<Slot>)

  /** A hashed directory: the root in block 0, index nodes below it when levels is 1, and leaves. */
  datatype Dir = Dir(levels: nat, root: Node, nodes: map<nat, Node>, leaves: map<nat, Heads>, size: nat,
      nodeLimit: nat)

  /** The key of a row of slots is known from the level above. */
  function Keyed(key: nat, slots: seq<Slot>): seq<Slot>
    requires slots != []
  {
    slots[0 := Slot(key, slots[0].block)]
  }

  predicate NodeOk(n: Node) { 0 < |n.slots| <= n.limit }

  predicate Shaped(d: Dir) {
    && d.levels <= 1 && NodeOk(d.root)
    && (d.levels == 1 ==> forall i :: 0 <= i < |d.root.slots| ==>
          d.root.slots[i].block in d.nodes && NodeOk(d.nodes[d.root.slots[i].block]) &&
            d.nodes[d.root.slots[i].block].limit == d.nodeLimit)
  }

  function Row(d: Dir, i: nat): (r: seq<Slot>)
    requires Shaped(d) && d.levels == 1 && i < |d.root.slots|
    ensures r != []
  {
    Keyed(if i == 0 then 0 else d.root.slots[i].hash, d.nodes[d.root.slots[i].block].slots)
  }

  /** The lowest index level, row by row, every slot with its key. */
  function Rows(d: Dir): (rs: seq<seq<Slot>>)
    requires Shaped(d)
    ensures rs != [] && forall i :: 0 <= i < |rs| ==> rs[i] != []
  {
    if d.levels == 0 then [Keyed(0, d.root.slots)]
    else seq(|d.root.slots|, i requires 0 <= i < |d.root.slots| => Row(d, i))
  }

  function Concat(rs: seq<seq<Slot>>): seq<Slot> {
    if rs == [] then [] else rs[0] + Concat(rs[1..])
  }

  /** All leaves in order with their keys. */
  function Flat(d: Dir): seq<Slot>
    requires Shaped(d)
  {
    Concat(Rows(d))
  }

  /** Where slot j of row i stands among all leaves. */
  function Place(rs: seq<seq<Slot>>, i: nat, j: nat): nat
    requires i < |rs|
  {
    if i == 0 then j else |rs[0]| + Place(rs[1..], i - 1, j)
  }

  lemma {:induction false} PlaceOk(rs: seq<seq<Slot>>, i: nat, j: nat)
    requires i < |rs| && j < |rs[i]|
    ensures Place(rs, i, j) < |Concat(rs)| && Concat(rs)[Place(rs, i, j)] == rs[i][j]
    decreases i
  {
    if i > 0 { PlaceOk(rs[1..], i - 1, j); }
  }

  lemma {:induction false} PlaceNext(rs: seq<seq<Slot>>, i: nat, j: nat)
    requires i < |rs| && j < |rs[i]|
    ensures j + 1 < |rs[i]| ==> Place(rs, i, j + 1) == Place(rs, i, j) + 1
    ensures j + 1 == |rs[i]| && i + 1 < |rs| ==> Place(rs, i + 1, 0) == Place(rs, i, j) + 1
    ensures j + 1 == |rs[i]| && i + 1 == |rs| ==> |Concat(rs)| == Place(rs, i, j) + 1
    decreases i
  {
    if i > 0 { PlaceNext(rs[1..], i - 1, j); }
    else if |rs| == 1 { assert rs[1..] == []; }
  }

  lemma {:induction false} PlaceMono(rs: seq<seq<Slot>>, i: nat, j: nat, k: nat, m: nat)
    requires i <= k < |rs| && j < |rs[i]| && m < |rs[k]| && (i == k ==> j < m)
    ensures Place(rs, i, j) < Place(rs, k, m)
    decreases i
  {
    if i > 0 { PlaceMono(rs[1..], i - 1, j, k - 1, m); }
  }

  // ---------------------------------------------------------------- well-formed indexes

  type Hash = Name -> nat

  /** The lowest bit of a stored hash only marks a continued chain. */
  ghost predicate Even(hash: Hash) { forall n :: hash(n) % 2 == 0 }

  function Base(key: nat): nat { key - key % 2 }

  predicate Ascending(flat: seq<Slot>) {
    forall i, j :: 0 <= i < j < |flat| ==> flat[i].hash <= flat[j].hash
  }

  /** Leaf l holds the name. */
  predicate Holds(d: Dir, l: nat, name: Name) {
    l in d.leaves && Tiled(d.leaves[l], 0, d.size) && Lookup(Live(d.leaves[l], 0, d.size), name) != None
  }

  /** Every name's hash lies between its leaf's key and the next: below the next key, and not below
      its own but for the mark. */
  ghost predicate Placed(d: Dir, flat: seq<Slot>, hash: Hash) {
    forall i, j, name :: 0 <= i < |flat| && 0 <= j < |flat| && Holds(d, flat[j].block, name) ==>
      (j < i ==> hash(name) < flat[i].hash) && (i <= j ==> Base(flat[i].hash) <= hash(name))
  }

  ghost predicate LeavesOk(d: Dir, flat: seq<Slot>) {
    forall i :: 0 <= i < |flat| ==> flat[i].block in d.leaves && Tiled(d.leaves[flat[i].block], 0, d.size)
  }

  ghost predicate WF(d: Dir, hash: Hash) {
    Shaped(d) && Ascending(Flat(d)) && LeavesOk(d, Flat(d)) && Placed(d, Flat(d), hash) && Flat(d)[0].hash == 0
  }

  /** Position at is the last whose key does not exceed the hash. */
  ghost predicate LastAtMost(flat: seq<Slot>, at: nat, h: nat) {
    at < |flat| && flat[at].hash <= h && forall k :: at < k < |flat| ==> h < flat[k].hash
  }

  /** A name is at the searched position or reached from it over keys marked as continuing. */
  lemma {:induction false} Reached(d: Dir, flat: seq<Slot>, hash: Hash, name: Name, at: nat, j: nat)
    requires Even(hash) && Placed(d, flat, hash) && LastAtMost(flat, at, hash(name)) && j < |flat| &&
             Holds(d, flat[j].block, name)
    ensures at <= j && forall i :: at < i <= j ==> Base(flat[i].hash) == hash(name)
  {
    forall i | at < i <= j ensures Base(flat[i].hash) == hash(name) {
      assert Base(flat[i].hash) <= hash(name) < flat[i].hash;
      assert hash(name) % 2 == 0;
    }
  }
}
