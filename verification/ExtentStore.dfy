/** Extent trees in a block store: which nodes represent a tree, and what a write to one node
    does to the tree that is represented. */
module ExtentStore {
  import opened ExtentTree

  datatype Idx = Idx(first: nat, blk: nat)

  datatype Node = LeafNode(exts: seq<Extent>) | IdxNode(idx: seq<Idx>)

  type Store = map<nat, Node>

  // ---------------------------------------------------------------- representation

  function IdxOf(kids: seq<Kid>): (s: seq<Idx>) {
    seq(|kids|, i requires 0 <= i < |kids| => Idx(kids[i].key, kids[i].sub.blk))
  }

  function NodeOf(t: Tree): Node {
    match t
    case Leaf(_, exts) => LeafNode(exts)
    case Index(_, kids) => IdxNode(IdxOf(kids))
  }

  /** Block b stores a node of the tree. */
  ghost predicate Uses(t: Tree, b: nat)
    decreases t
  {
    t.blk == b || (t.Index? && exists i :: 0 <= i < |t.kids| && Uses(t.kids[i].sub, b))
  }

  ghost predicate Apart(t: Tree, u: Tree) {
    forall b :: Uses(t, b) ==> !Uses(u, b)
  }

  /** No block is used twice. */
  ghost predicate Distinct(t: Tree)
    decreases t
  {
    t.Index? ==>
      && (forall i :: 0 <= i < |t.kids| ==> !Uses(t.kids[i].sub, t.blk))
      && (forall i, j :: 0 <= i < j < |t.kids| ==> Apart(t.kids[i].sub, t.kids[j].sub))
      && (forall i :: 0 <= i < |t.kids| ==> Distinct(t.kids[i].sub))
  }

  ghost predicate Rep(s: Store, t: Tree)
    decreases t
  {
    && t.blk in s && s[t.blk] == NodeOf(t)
    && (t.Index? ==> forall i :: 0 <= i < |t.kids| ==> Rep(s, t.kids[i].sub))
  }

  lemma {:induction false} RepFrame(s: Store, s': Store, t: Tree)
    requires Rep(s, t)
    requires forall b :: Uses(t, b) && b in s ==> b in s' && s'[b] == s[b]
    ensures Rep(s', t)
    decreases t
  {
    if t.Index? {
      forall i | 0 <= i < |t.kids| ensures Rep(s', t.kids[i].sub) {
        RepFrame(s, s', t.kids[i].sub);
      }
    }
  }

  // ---------------------------------------------------------------- places in a tree

  /** The first m positions of the path lead to a node of the tree. */
  ghost predicate Place(t: Tree, path: seq<nat>, m: nat)
    decreases m
  {
    m > 0 ==> path != [] && t.Index? && path[0] < |t.kids| && Place(t.kids[path[0]].sub, path[1..], m - 1)
  }

  ghost function Sub(t: Tree, path: seq<nat>, m: nat): Tree
    requires Place(t, path, m)
    decreases m
  {
    if m == 0 then t else Sub(t.kids[path[0]].sub, path[1..], m - 1)
  }

  ghost function Replace(t: Tree, path: seq<nat>, m: nat, x: Tree): Tree
    requires Place(t, path, m)
    decreases m
  {
    if m == 0 then x
    else
      var k := t.kids[path[0]];
      Index(t.blk, t.kids[path[0] := Kid(k.key, Replace(k.sub, path[1..], m - 1, x))])
  }

  lemma {:induction false} SubUses(t: Tree, path: seq<nat>, m: nat, b: nat)
    requires Place(t, path, m) && Uses(Sub(t, path, m), b)
    ensures Uses(t, b)
    decreases m
  {
    if m > 0 {
      SubUses(t.kids[path[0]].sub, path[1..], m - 1, b);
    }
  }

  lemma {:induction false} SubRep(s: Store, t: Tree, path: seq<nat>, m: nat)
    requires Place(t, path, m) && Rep(s, t) && Distinct(t)
    ensures Rep(s, Sub(t, path, m)) && Distinct(Sub(t, path, m))
    decreases m
  {
    if m > 0 {
      SubRep(s, t.kids[path[0]].sub, path[1..], m - 1);
    }
  }

  /** x uses only blocks of t and new ones. */
  ghost predicate UsesOnly(x: Tree, t: Tree, extra: set<nat>) {
    forall b :: Uses(x, b) ==> Uses(t, b) || b in extra
  }

  ghost predicate Unused(t: Tree, extra: set<nat>) {
    forall b :: b in extra ==> !Uses(t, b)
  }

  /** x may take the place of the subtree u of t: its other blocks are not in t. */
  ghost predicate Fits(x: Tree, u: Tree, t: Tree) {
    forall b :: Uses(x, b) ==> Uses(u, b) || !Uses(t, b)
  }

  /** r uses the blocks of x and those of t outside the subtree u. */
  ghost predicate Swapped(r: Tree, t: Tree, u: Tree, x: Tree) {
    forall b :: Uses(r, b) ==> Uses(x, b) || (Uses(t, b) && !Uses(u, b))
  }

  /** s' differs from s only outside t and on blocks of u, a subtree of t. */
  ghost predicate SameOutside(s: Store, s': Store, t: Tree, u: Tree) {
    forall b :: Uses(t, b) && !Uses(u, b) && b in s ==> b in s' && s'[b] == s[b]
  }

  /** Replacing one child. */
  lemma {:induction false} ReplaceKid(s: Store, s': Store, t: Tree, p: nat, y: Tree)
    requires t.Index? && p < |t.kids| && Rep(s, t) && Distinct(t)
    requires Rep(s', y) && Distinct(y) && y.blk == t.kids[p].sub.blk
    requires Fits(y, t.kids[p].sub, t) && SameOutside(s, s', t, t.kids[p].sub)
    ensures var r := Index(t.blk, t.kids[p := Kid(t.kids[p].key, y)]);
            Rep(s', r) && Distinct(r) && Swapped(r, t, t.kids[p].sub, y)
  {
    var r := Index(t.blk, t.kids[p := Kid(t.kids[p].key, y)]);
    assert NodeOf(r) == NodeOf(t);
    assert Uses(t, t.blk);
    forall i | 0 <= i < |t.kids| && i != p
      ensures Rep(s', t.kids[i].sub) && Apart(t.kids[i].sub, y) && Apart(y, t.kids[i].sub)
    {
      assert i < p ==> Apart(t.kids[i].sub, t.kids[p].sub);
      assert p < i ==> Apart(t.kids[p].sub, t.kids[i].sub);
      forall b | Uses(t.kids[i].sub, b) ensures Uses(t, b) && !Uses(t.kids[p].sub, b) {}
      RepFrame(s, s', t.kids[i].sub);
    }
    forall b | Uses(r, b) && !Uses(y, b) ensures Uses(t, b) && !Uses(t.kids[p].sub, b) {
      if b != t.blk {
        var i :| 0 <= i < |r.kids| && Uses(r.kids[i].sub, b);
        assert i < p ==> Apart(t.kids[i].sub, t.kids[p].sub);
        assert p < i ==> Apart(t.kids[p].sub, t.kids[i].sub);
        assert Uses(t.kids[i].sub, b);
      }
    }
  }

  /** Putting a tree x, represented in s', at a place whose node keeps its block. */
  lemma {:induction false} ReplaceRep(s: Store, s': Store, t: Tree, path: seq<nat>, m: nat, x: Tree)
    requires Place(t, path, m) && Rep(s, t) && Distinct(t)
    requires Rep(s', x) && Distinct(x) && x.blk == Sub(t, path, m).blk
    requires Fits(x, Sub(t, path, m), t) && SameOutside(s, s', t, Sub(t, path, m))
    ensures var r := Replace(t, path, m, x);
            Rep(s', r) && Distinct(r) && Swapped(r, t, Sub(t, path, m), x) && r.blk == t.blk
    decreases m
  {
    hide Apart, IdxOf, NodeOf;
    if m == 0 { return; }
    var p, sub := path[0], t.kids[path[0]].sub;
    forall b | Uses(Sub(sub, path[1..], m - 1), b) ensures Uses(sub, b) { SubUses(sub, path[1..], m - 1, b); }
    assert forall b :: Uses(sub, b) ==> Uses(t, b);
    ReplaceRep(s, s', sub, path[1..], m - 1, x);
    ReplaceKid(s, s', t, p, Replace(sub, path[1..], m - 1, x));
  }
}
