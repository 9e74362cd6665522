/** Insertion: the extents of the tree gain exactly the new extent and the tree stays well formed. */
module ExtentInsertProofs {
  import opened Wrappers
  import opened ExtentTree
  import opened ExtentTreeProofs

  ghost predicate NoOverlap(s: seq<Extent>, e: Extent) {
    forall i :: 0 <= i < |s| ==> s[i].End() <= e.first || e.End() <= s[i].first
  }

  function Merge(x: Extent, e: Extent): Extent { Extent(x.first, x.len + e.len, x.start) }

  ghost predicate AddedAt(s: seq<Extent>, s': seq<Extent>, e: Extent, k: nat) {
    k <= |s| && s' == s[..k] + [e] + s[k..]
  }

  ghost predicate MergedAt(s: seq<Extent>, s': seq<Extent>, e: Extent, k: nat) {
    k < |s| && CanAppend(s[k], e) && s' == s[k := Merge(s[k], e)]
  }

  /** s' is s with e as a new element, or with e merged onto the end of an element. */
  ghost predicate Inserted(s: seq<Extent>, s': seq<Extent>, e: Extent) {
    exists k :: AddedAt(s, s', e, k) || MergedAt(s, s', e, k)
  }

  lemma {:induction false} AddedWithin(a: seq<Extent>, s: seq<Extent>, s': seq<Extent>, b: seq<Extent>, e: Extent,
      k: nat)
    requires AddedAt(s, s', e, k)
    ensures AddedAt(a + s + b, a + s' + b, e, |a| + k)
  {
    var w := a + s + b;
    assert w[..|a| + k] == a + s[..k];
    assert w[|a| + k..] == s[k..] + b;
  }

  lemma {:induction false} MergedWithin(a: seq<Extent>, s: seq<Extent>, s': seq<Extent>, b: seq<Extent>, e: Extent,
      k: nat)
    requires MergedAt(s, s', e, k)
    ensures MergedAt(a + s + b, a + s' + b, e, |a| + k)
  {
    assert (a + s + b)[|a| + k] == s[k];
  }

  lemma {:induction false} InsertedWithin(a: seq<Extent>, s: seq<Extent>, s': seq<Extent>, b: seq<Extent>, e: Extent)
    requires Inserted(s, s', e)
    ensures Inserted(a + s + b, a + s' + b, e)
  {
    var k :| AddedAt(s, s', e, k) || MergedAt(s, s', e, k);
    if AddedAt(s, s', e, k) {
      AddedWithin(a, s, s', b, e, k);
    } else {
      MergedWithin(a, s, s', b, e, k);
    }
  }

  // ---------------------------------------------------------------- one leaf

  function Low(lo: nat, border: Option<nat>): nat {
    if border.Some? then border.value else lo
  }

  ghost predicate BorderOk(border: Option<nat>, lo: nat, hi: nat, e: Extent) {
    match border
    case None => lo <= e.first
    case Some(b) => (lo <= b || e.first <= b) && b <= e.first && b < hi
  }

  /** The new extent lies between its neighbours. */
  lemma {:induction false} Neighbours(exts: seq<Extent>, lo: nat, hi: nat, e: Extent)
    requires LeafOk(exts, lo, hi) && exts != [] && e.Written() && NoOverlap(exts, e)
    ensures var p := Pos(Firsts(exts), e.first);
            && (exts[p].End() <= e.first || (p == 0 && e.End() <= exts[0].first))
            && (p + 1 < |exts| ==> e.End() <= exts[p + 1].first)
  {
    var fs := Firsts(exts);
    var p := Pos(fs, e.first);
    if p + 1 < |exts| {
      assert e.first < fs[p + 1];
    }
    assert p > 0 ==> fs[p] <= e.first;
  }

  lemma {:induction false} AddedOk(exts: seq<Extent>, lo: nat, hi: nat, e: Extent, k: nat, r: seq<Extent>)
    requires LeafOk(exts, lo, hi) && e.Written() && e.End() <= hi
    requires AddedAt(exts, r, e, k)
    requires k > 0 ==> exts[k - 1].End() <= e.first
    requires k < |exts| ==> e.End() <= exts[k].first
    ensures LeafOk(r, if k == 0 then e.first else lo, hi)
  {
    forall i | 0 <= i < |r| ensures r[i] == if i < k then exts[i] else if i == k then e else exts[i - 1] {}
    forall i | 0 <= i < k ensures exts[i].End() <= e.first {}
    forall i | k <= i < |exts| ensures e.End() <= exts[i].first {}
  }

  lemma {:induction false} MergedOk(exts: seq<Extent>, lo: nat, hi: nat, e: Extent, k: nat, r: seq<Extent>)
    requires LeafOk(exts, lo, hi) && e.Written() && e.End() <= hi
    requires MergedAt(exts, r, e, k)
    requires k + 1 < |exts| ==> e.End() <= exts[k + 1].first
    ensures LeafOk(r, lo, hi)
  {
    forall i | k < i < |exts| ensures e.End() <= exts[i].first {}
  }

  lemma {:induction false} PutLeafOk(exts: seq<Extent>, lo: nat, hi: nat, e: Extent)
    requires LeafOk(exts, lo, hi) && e.Written() && NoOverlap(exts, e) && e.End() <= hi
    requires !Prepends(exts, e)
    ensures LeafOk(PutLeaf(exts, e), Low(lo, LeafBorder(exts, e)), hi)
    ensures BorderOk(LeafBorder(exts, e), lo, hi, e)
    ensures Inserted(exts, PutLeaf(exts, e), e)
    ensures |PutLeaf(exts, e)| == |exts| + if Appends(exts, e) then 0 else 1
  {
    hide Pos;
    var r := PutLeaf(exts, e);
    if exts == [] {
      assert AddedAt(exts, r, e, 0);
      return;
    }
    var p := Pos(Firsts(exts), e.first);
    Neighbours(exts, lo, hi, e);
    if CanAppend(exts[p], e) {
      assert MergedAt(exts, r, e, p);
      MergedOk(exts, lo, hi, e, p, r);
    } else if e.first > exts[p].first {
      assert AddedAt(exts, r, e, p + 1);
      AddedOk(exts, lo, hi, e, p + 1, r);
    } else {
      assert AddedAt(exts, r, e, p);
      AddedOk(exts, lo, hi, e, p, r);
    }
  }

  // ---------------------------------------------------------------- the whole path

  lemma {:induction false} KeysReplace(kids: seq<Kid>, lo: nat, hi: nat, p: nat, k: Kid, lo': nat)
    requires KeysOk(kids, lo, hi) && p < |kids| && k.key < Limit(kids, p, hi)
    requires if p == 0 then lo' <= k.key else lo' <= lo && kids[p].key <= k.key
    ensures KeysOk(kids[p := k], lo', hi)
  {
    forall j | p < j < |kids| ensures k.key < kids[j].key {}
    forall i | 0 <= i < p ensures kids[i].key < k.key {}
  }

  lemma {:induction false} KidsReplace(kids: seq<Kid>, d: nat, lo: nat, hi: nat, p: nat, k: Kid, lo': nat)
    requires KidsOk(kids, d, lo, hi) && p < |kids|
    requires WF(k.sub, d, k.key, Limit(kids, p, hi)) && k.key < Limit(kids, p, hi)
    requires if p == 0 then lo' <= k.key else lo' <= lo && kids[p].key <= k.key
    ensures KidsOk(kids[p := k], d, lo', hi)
  {
    var r := kids[p := k];
    KeysReplace(kids, lo, hi, p, k, lo');
    forall i | 0 <= i < |r| ensures WF(r[i].sub, d, r[i].key, Limit(r, i, hi)) {
      if i + 1 == p {
        WFWiden(kids[i].sub, d, kids[i].key, kids[p].key, kids[i].key, k.key);
      } else if i != p {
        assert Limit(r, i, hi) == Limit(kids, i, hi);
      }
    }
  }

  lemma {:induction false} FlatReplace(kids: seq<Kid>, p: nat, k: Kid)
    requires p < |kids|
    ensures FlatKids(kids[p := k]) == FlatKids(kids[..p]) + Flat(k.sub) + FlatKids(kids[p + 1..])
  {
    assert kids[p := k] == kids[..p] + [k] + kids[p + 1..];
    FlatParts(kids[..p], k, kids[p + 1..]);
  }

  lemma {:induction false} ApartBelow(kids: seq<Kid>, p: nat, e: Extent)
    requires p < |kids| && NoOverlap(FlatKids(kids), e)
    ensures NoOverlap(Flat(kids[p].sub), e)
  {
    FlatAround(kids, p);
    var a, m, f := FlatKids(kids[..p]), Flat(kids[p].sub), FlatKids(kids);
    forall i | 0 <= i < |m| ensures m[i].End() <= e.first || e.End() <= m[i].first {
      assert f[|a| + i] == m[i];
    }
  }

  /** The new extent is written, overlaps nothing, does not reach past the key range of the leaf it
      belongs to, and is not taken by the faulty prepend branch.  In a tree with tight keys the
      range follows from the rest (ExtentKeys). */
  ghost predicate InRange(t: Tree, e: Extent, hi: nat)
    requires Solid(t)
  {
    && e.Written() && NoOverlap(Flat(t), e)
    && e.End() <= LeafLimit(t, e.first, hi)
    && !Prepends(LeafAt(t, e.first), e)
  }

  lemma {:induction false} InsertStep(t: Tree, d: nat, lo: nat, hi: nat, e: Extent, p: nat)
    requires Solid(t) && t.Index? && d > 0 && KidsOk(t.kids, d - 1, lo, hi) && p == Pos(Keys(t.kids), e.first)
    requires var r := Insert(t.kids[p].sub, e);
             && WF(r.tree, d - 1, Low(t.kids[p].key, r.border), Limit(t.kids, p, hi))
             && BorderOk(r.border, t.kids[p].key, Limit(t.kids, p, hi), e)
    ensures WF(Insert(t, e).tree, d, Low(lo, Insert(t, e).border), hi)
    ensures BorderOk(Insert(t, e).border, lo, hi, e)
  {
    var kids := t.kids;
    assert p > 0 ==> kids[p].key == Keys(kids)[p] <= e.first;
    var r := Insert(kids[p].sub, e);
    KidsReplace(kids, d - 1, lo, hi, p, Kid(Low(kids[p].key, r.border), r.tree), Low(lo, Insert(t, e).border));
  }

  /** Insertion into a leaf range keeps the tree well formed; the border is a valid new key for it. */
  lemma {:induction false} InRangeKeepsShape(t: Tree, d: nat, lo: nat, hi: nat, e: Extent)
    requires WF(t, d, lo, hi) && Solid(t) && InRange(t, e, hi)
    ensures WF(Insert(t, e).tree, d, Low(lo, Insert(t, e).border), hi)
    ensures BorderOk(Insert(t, e).border, lo, hi, e)
    decreases t
  {
    if t.Leaf? {
      PutLeafOk(t.exts, lo, hi, e);
    } else {
      var p := Pos(Keys(t.kids), e.first);
      ApartBelow(t.kids, p, e);
      InRangeKeepsShape(t.kids[p].sub, d - 1, t.kids[p].key, Limit(t.kids, p, hi), e);
      InsertStep(t, d, lo, hi, e, p);
    }
  }

  /** Insertion into a leaf range adds exactly the new extent to the contents of the tree. */
  lemma {:induction false} InRangeAdds(t: Tree, d: nat, lo: nat, hi: nat, e: Extent)
    requires WF(t, d, lo, hi) && Solid(t) && InRange(t, e, hi)
    ensures Inserted(Flat(t), Flat(Insert(t, e).tree), e)
    decreases t
  {
    match t
    case Leaf(_, exts) => PutLeafOk(exts, lo, hi, e);
    case Index(blk, kids) =>
      var p := Pos(Keys(kids), e.first);
      ApartBelow(kids, p, e);
      InRangeAdds(kids[p].sub, d - 1, kids[p].key, Limit(kids, p, hi), e);
      var r := Insert(kids[p].sub, e);
      FlatAround(kids, p);
      FlatReplace(kids, p, Kid(Low(kids[p].key, r.border), r.tree));
      InsertedWithin(FlatKids(kids[..p]), Flat(kids[p].sub), Flat(r.tree), FlatKids(kids[p + 1..]), e);
  }

  /** With room in the leaf no node overflows. */
  lemma {:induction false} InsertWithin(t: Tree, e: Extent, cap: nat, blockCap: nat)
    requires Solid(t) && Within(t, cap, blockCap) && Roomy(t, e, cap, blockCap)
    ensures Within(Insert(t, e).tree, cap, blockCap)
    decreases t
  {
    match t
    case Leaf(_, exts) =>
    case Index(blk, kids) =>
      var p := Pos(Keys(kids), e.first);
      InsertWithin(kids[p].sub, e, blockCap, blockCap);
  }
}
