/** What lookup, insertion, splitting and growing do to the meaning and shape of an extent tree. */
module ExtentTreeProofs {
  import opened Wrappers
  import opened ExtentTree

  // ---------------------------------------------------------------- shape facts

  lemma {:induction false} WFShape(t: Tree, d: nat, lo: nat, hi: nat)
    requires WF(t, d, lo, hi)
    ensures Solid(t) && Shape(t, d)
    decreases t
  {
    if t.Index? {
      forall i | 0 <= i < |t.kids| ensures Solid(t.kids[i].sub) && Shape(t.kids[i].sub, d - 1) {
        WFShape(t.kids[i].sub, d - 1, t.kids[i].key, Limit(t.kids, i, hi));
      }
    }
  }

  lemma {:induction false} WFWiden(t: Tree, d: nat, lo: nat, hi: nat, lo': nat, hi': nat)
    requires WF(t, d, lo, hi) && lo' <= lo && hi <= hi'
    ensures WF(t, d, lo', hi')
    decreases t
  {
    if t.Index? {
      forall i | 0 <= i < |t.kids| ensures WF(t.kids[i].sub, d - 1, t.kids[i].key, Limit(t.kids, i, hi')) {
        WFWiden(t.kids[i].sub, d - 1, t.kids[i].key, Limit(t.kids, i, hi), t.kids[i].key, Limit(t.kids, i, hi'));
      }
    }
  }

  lemma {:induction false} FlatKidsConcat(a: seq<Kid>, b: seq<Kid>)
    ensures FlatKids(a + b) == FlatKids(a) + FlatKids(b)
    decreases a
  {
    if a == [] {
      assert a + b == b;
    } else {
      assert (a + b)[1..] == a[1..] + b;
      FlatKidsConcat(a[1..], b);
    }
  }

  lemma {:induction false} FlatKidsOne(k: Kid)
    ensures FlatKids([k]) == Flat(k.sub)
  {
    assert [k][1..] == [];
  }

  /** The extents around child p. */
  lemma {:induction false} FlatAround(kids: seq<Kid>, p: nat)
    requires p < |kids|
    ensures FlatKids(kids) == FlatKids(kids[..p]) + Flat(kids[p].sub) + FlatKids(kids[p + 1..])
  {
    FlatParts(kids[..p], kids[p], kids[p + 1..]);
    assert kids == kids[..p] + [kids[p]] + kids[p + 1..];
  }

  lemma {:induction false} FlatParts(a: seq<Kid>, k: Kid, b: seq<Kid>)
    ensures FlatKids(a + [k] + b) == FlatKids(a) + Flat(k.sub) + FlatKids(b)
  {
    FlatKidsConcat(a + [k], b);
    FlatKidsConcat(a, [k]);
    FlatKidsOne(k);
  }

  lemma {:induction false} KidsCut(kids: seq<Kid>, d: nat, lo: nat, hi: nat, n: nat)
    requires KidsOk(kids, d, lo, hi) && 0 < n < |kids|
    ensures KidsOk(kids[..n], d, lo, kids[n].key)
    ensures KidsOk(kids[n..], d, kids[n].key, hi)
  {
    forall i | 0 <= i < n ensures WF(kids[..n][i].sub, d, kids[..n][i].key, Limit(kids[..n], i, kids[n].key)) {
      assert Limit(kids[..n], i, kids[n].key) == Limit(kids, i, hi);
    }
    forall i | 0 <= i < |kids| - n ensures WF(kids[n..][i].sub, d, kids[n..][i].key, Limit(kids[n..], i, hi)) {
      assert kids[n..][i] == kids[n + i];
      assert Limit(kids[n..], i, hi) == Limit(kids, n + i, hi);
    }
  }

  lemma {:induction false} LeafOkConcat(a: seq<Extent>, b: seq<Extent>, lo: nat, mid: nat, hi: nat)
    requires LeafOk(a, lo, mid) && LeafOk(b, mid, hi) && lo <= mid <= hi
    ensures LeafOk(a + b, lo, hi)
  {
  }

  /** The extents of a well-formed tree are sorted and disjoint as one list. */
  lemma {:induction false} FlatSorted(t: Tree, d: nat, lo: nat, hi: nat)
    requires WF(t, d, lo, hi)
    ensures LeafOk(Flat(t), lo, hi)
    decreases t
  {
    if t.Index? {
      KidsSorted(t.kids, d - 1, lo, hi);
    }
  }

  lemma {:induction false} KidsSorted(kids: seq<Kid>, d: nat, lo: nat, hi: nat)
    requires KidsOk(kids, d, lo, hi)
    ensures LeafOk(FlatKids(kids), lo, hi)
    decreases kids
  {
    var k := kids[0];
    assert k in kids && k.sub < k;
    FlatSorted(k.sub, d, k.key, Limit(kids, 0, hi));
    if |kids| == 1 {
      assert kids == [k];
      FlatKidsOne(k);
    } else {
      KidsCut(kids, d, lo, hi, 1);
      KidsSorted(kids[1..], d, kids[1].key, hi);
      LeafOkConcat(Flat(k.sub), FlatKids(kids[1..]), k.key, kids[1].key, hi);
    }
  }

  // ---------------------------------------------------------------- lookup

  lemma {:induction false} ScanConcat(a: seq<Extent>, b: seq<Extent>, n: nat)
    ensures Scan(a + b, n) == if Scan(a, n).Some? then Scan(a, n) else Scan(b, n)
    decreases a
  {
    if a == [] {
      assert a + b == b;
    } else {
      assert (a + b)[1..] == a[1..] + b;
      ScanConcat(a[1..], b, n);
    }
  }

  lemma {:induction false} ScanMiss(s: seq<Extent>, n: nat)
    requires forall i :: 0 <= i < |s| ==> !s[i].Covers(n)
    ensures Scan(s, n) == None
    decreases s
  {
    if s != [] {
      ScanMiss(s[1..], n);
    }
  }

  lemma {:induction false} ScanAt(s: seq<Extent>, n: nat, p: nat)
    requires p < |s|
    requires forall i :: 0 <= i < |s| && i != p ==> !s[i].Covers(n)
    ensures Scan(s, n) == if s[p].Covers(n) then Some(s[p].start + (n - s[p].first)) else None
  {
    assert s == s[..p] + ([s[p]] + s[p + 1..]);
    ScanConcat(s[..p], [s[p]] + s[p + 1..], n);
    ScanMiss(s[..p], n);
    ScanMiss(s[p + 1..], n);
    assert ([s[p]] + s[p + 1..])[1..] == s[p + 1..];
  }

  /** Only the subtree at the search position can cover the block. */
  lemma {:induction false} OthersMiss(kids: seq<Kid>, d: nat, lo: nat, hi: nat, b: nat)
    requires KidsOk(kids, d, lo, hi)
    ensures var p := Pos(Keys(kids), b);
            Scan(FlatKids(kids), b) == Scan(Flat(kids[p].sub), b)
  {
    hide Limit;
    var p := Pos(Keys(kids), b);
    FlatAround(kids, p);
    var l, m, r := FlatKids(kids[..p]), Flat(kids[p].sub), FlatKids(kids[p + 1..]);
    if p > 0 {
      KidsCut(kids, d, lo, hi, p);
      KidsSorted(kids[..p], d, lo, kids[p].key);
    }
    ScanMiss(l, b);
    if p + 1 < |kids| {
      KidsCut(kids, d, lo, hi, p + 1);
      KidsSorted(kids[p + 1..], d, kids[p + 1].key, hi);
      assert b < Keys(kids)[p + 1];
    }
    ScanMiss(r, b);
    ScanConcat(l + m, r, b);
    ScanConcat(l, m, b);
  }

  lemma {:induction false} LeafFindIsScan(exts: seq<Extent>, lo: nat, hi: nat, b: nat)
    requires LeafOk(exts, lo, hi)
    ensures Hit(exts, b) == Scan(exts, b)
  {
    if exts == [] { return; }
    var fs := Firsts(exts);
    var p := Pos(fs, b);
    forall i | 0 <= i < |exts| && i != p ensures !exts[i].Covers(b) {
      assert i > p ==> b < fs[i];
      assert p > 0 ==> fs[p] <= b;
    }
    ScanAt(exts, b, p);
  }

  /** The descent finds what a scan of every leaf finds. */
  lemma {:induction false} FindIsScan(t: Tree, d: nat, lo: nat, hi: nat, b: nat)
    requires WF(t, d, lo, hi)
    ensures Solid(t) && Find(t, b) == Scan(Flat(t), b)
    decreases t
  {
    hide Firsts, Pos, Scan, Solid;
    WFShape(t, d, lo, hi);
    if t.Leaf? {
      LeafFindIsScan(t.exts, lo, hi, b);
    } else {
      var kids := t.kids;
      var p := Pos(Keys(kids), b);
      OthersMiss(kids, d - 1, lo, hi, b);
      FindIsScan(kids[p].sub, d - 1, kids[p].key, Limit(kids, p, hi), b);
    }
  }

  lemma {:induction false} FindAtLeaf(t: Tree, b: nat)
    requires Solid(t)
    ensures Find(t, b) == Hit(LeafAt(t, b), b)
    decreases t
  {
    if t.Index? {
      FindAtLeaf(t.kids[Pos(Keys(t.kids), b)].sub, b);
    }
  }
}
