/** The three-level Sv39 page table and mappages, with its shortcut along a table's entries. */
module PageTable {
  import opened Wrappers
  import opened Bits
  import opened Radix

  const PGSIZE: nat := 4096
  const ENTRIES: nat := 512
  // virtual page numbers have three 9-bit digits
  const PAGES: nat := 0x800_0000

  /** The table a valid entry points at, as a physical page number. */
  function PteRef(e: nat): nat { if e % 2 == 1 then e / 1024 else 0 }

  /** PA2PTE(table) | PTE_V. */
  function TablePte(n: nat): nat { n * 1024 + 1 }

  /** PA2PTE(pa) | flags | PTE_V. */
  function LeafPte(pa: nat, flags: nat): nat { Or(Or(pa / PGSIZE * 1024, flags), 1) }

  /** With flags in the low ten bits, the entry gives back the frame and the flags, with PTE_V set. */
  lemma {:induction false} LeafPteFields(pa: nat, flags: nat)
    requires flags < 1024
    ensures LeafPte(pa, flags) / 1024 == pa / PGSIZE && LeafPte(pa, flags) % 1024 == Or(flags, 1)
    ensures LeafPte(pa, flags) % 2 == 1
  {
    hide Or;
    var n: nat := pa / PGSIZE;
    TenBits();
    OrDisjoint(n, flags, 10);
    OrOne(n * 1024 + flags);
    OrOne(flags);
    SameParity(n, flags);
    var e := LeafPte(pa, flags);
    assert e == 1024 * n + Or(flags, 1);
    ModUnique(e, 1024, n, Or(flags, 1));
    OddEntry(n, Or(flags, 1));
  }

  lemma {:induction false} SameParity(n: nat, f: nat)
    ensures (n * 1024 + f) % 2 == f % 2
  {
    assert n * 1024 + f == 2 * (n * 512) + f;
  }

  lemma {:induction false} OddEntry(n: nat, f: nat)
    requires f % 2 == 1
    ensures (1024 * n + f) % 2 == 1
  {
    SameParity(n, f);
  }

  lemma {:induction false} TenBits()
    ensures Pow2(10) == 1024
  {
    assert Pow2(8) == 256;
    assert Pow2(10) == 2 * Pow2(9) && Pow2(9) == 2 * Pow2(8);
  }

  lemma {:induction false} TablePteIs(n: nat)
    ensures PteRef(TablePte(n)) == n && PteRef(0) == 0
  {
    var e := TablePte(n);
    assert e == 1024 * n + 1;
    ModUnique(e, 1024, n, 1);
    ModUnique(e, 2, 512 * n, 1);
  }

  /** The indexes walk uses for virtual page v: it shifts by 18, 9 and 0 and masks 9 bits. */
  function Index(v: nat, shift: nat): nat { And(Shr(v, shift), 0x1ff) }

  function Path(v: nat): seq<nat> { [Index(v, 18), Index(v, 9), Index(v, 0)] }

  lemma {:induction false} Powers()
    ensures Pow2(0) == 1 && Pow2(9) == 512 && Pow2(18) == 0x4_0000
  {
    assert Pow2(8) == 256;
    assert Pow2(9) == 2 * Pow2(8);
    Pow2Add(9, 9);
  }

  lemma {:induction false} IndexIs(v: nat)
    ensures Index(v, 18) == v / 0x4_0000 % 512 && Index(v, 9) == v / 512 % 512 && Index(v, 0) == v % 512
  {
    hide Pow2, And, Shr;
    Powers();
    ShrIsDiv(v, 18);
    ShrIsDiv(v, 9);
    ShrIsDiv(v, 0);
    MaskIsMod(Shr(v, 18), 9);
    MaskIsMod(Shr(v, 9), 9);
    MaskIsMod(Shr(v, 0), 9);
  }

  /** Within the address space the three indexes determine the page. */
  lemma {:induction false} PathsApart(v: nat, w: nat)
    requires v < PAGES && w < PAGES && Path(v) == Path(w)
    ensures v == w
  {
    IndexIs(v);
    IndexIs(w);
    assert Path(v)[0] == Path(w)[0] && Path(v)[1] == Path(w)[1] && Path(v)[2] == Path(w)[2];
    Recompose(v);
    Recompose(w);
  }

  lemma {:induction false} Recompose(v: nat)
    requires v < PAGES
    ensures v == v / 0x4_0000 % 512 * 0x4_0000 + v / 512 % 512 * 512 + v % 512
  {
  }

  /** The next page is the next entry of the same table unless this is the last. */
  lemma {:induction false} NextEntry(v: nat)
    ensures v % 512 < 511 ==> Path(v + 1) == Path(v)[..2] + [Path(v)[2] + 1] && Path(v)[2] + 1 < 512
    ensures v % 512 == 511 <==> Path(v)[2] + 1 == 512
  {
    hide Index;
    IndexIs(v);
    IndexIs(v + 1);
    if v % 512 < 511 { Stays(v); }
  }

  lemma {:induction false} Stays(v: nat)
    requires v % 512 < 511
    ensures (v + 1) / 512 == v / 512 && (v + 1) / 0x4_0000 == v / 0x4_0000 && (v + 1) % 512 == v % 512 + 1
  {
  }

  lemma {:induction false} PathBelow(v: nat)
    ensures |Path(v)| == 3 && forall i :: 0 <= i < 3 ==> Path(v)[i] < ENTRIES
  {
    IndexIs(v);
  }

  /** The entry of page v, 0 where a table is missing. */
  function Pte(st: Store, root: nat, v: nat): nat { Lookup(st, PteRef, root, Path(v)) }

  /** A valid entry above the lowest level points somewhere. */
  ghost predicate Pointed(st: Store, own: Owners, t: nat)
    requires t in st
  {
    t in own && own[t] != [] && |own[t]| < own[t][0] ==>
      forall d :: 0 <= d < |st[t]| ==> st[t][d] % 2 == 1 ==> PteRef(st[t][d]) != 0
  }

  ghost predicate Inv(st: Store, own: Owners, root: nat) {
    && Tree(st, own, PteRef, ENTRIES) && root in st && root in own && own[root] == [3]
    && (forall t :: t in st ==> Pointed(st, own, t))
  }

  ghost predicate SameMap(a: Store, b: Store, root: nat) {
    forall v :: Pte(b, root, v) == Pte(a, root, v)
  }

  /** Table t holds the entry of page v at index d. */
  ghost predicate EntryOf(own: Owners, t: nat, d: nat, v: nat) {
    t in own && own[t] + [d] == [3] + Path(v)
  }

  // ---------------------------------------------------------------- what the steps do to the map

  lemma {:induction false} RootFits(st: Store, own: Owners, root: nat, v: nat)
    requires Inv(st, own, root)
    ensures Fits(own, ENTRIES, root, Path(v))
  {
    PathBelow(v);
  }

  lemma {:induction false} GrowMap(st: Store, own: Owners, root: nat, q: nat, d: nat, n: nat)
    requires Inv(st, own, root) && q in st && q in own && own[q] != [] && |own[q]| < own[q][0] && d < |st[q]| &&
             d < ENTRIES && PteRef(st[q][d]) == 0 && n !in st && n != 0
    ensures var g := Grow(st, q, d, n, TablePte(n), ENTRIES);
            Inv(g, own[n := own[q] + [d]], root) && SameMap(st, g, root)
  {
    TablePteIs(n);
    GrowTree(st, own, PteRef, ENTRIES, q, d, n, TablePte(n));
    GrowPointed(st, own, q, d, n);
    hide Tree, Grow, PteRef, TablePte, Pointed;
    var g := Grow(st, q, d, n, TablePte(n), ENTRIES);
    GrowKeeps(st, q, d, n, TablePte(n), root);
    forall v ensures Pte(g, root, v) == Pte(st, root, v) {
      RootFits(st, own, root, v);
      GrowSame(st, own, PteRef, ENTRIES, q, d, n, TablePte(n), root, Path(v));
    }
  }

  lemma {:induction false} GrowPointed(st: Store, own: Owners, q: nat, d: nat, n: nat)
    requires q in st && q in own && d < |st[q]| && n !in st && n != 0 && forall t :: t in st ==> Pointed(st, own, t)
    ensures var g, w := Grow(st, q, d, n, TablePte(n), ENTRIES), own[n := own[q] + [d]];
            forall t :: t in g ==> Pointed(g, w, t)
  {
    TablePteIs(n);
    var g, w := Grow(st, q, d, n, TablePte(n), ENTRIES), own[n := own[q] + [d]];
    hide TablePte;
    forall t | t in g ensures Pointed(g, w, t) {
      if t != n { assert Pointed(st, own, t); }
    }
  }

  lemma {:induction false} GrowKeeps(st: Store, q: nat, d: nat, n: nat, e: nat, root: nat)
    requires root in st && q in st && d < |st[q]|
    ensures root in Grow(st, q, d, n, e, ENTRIES) && n in Grow(st, q, d, n, e, ENTRIES)
  {
  }

  /** Writing the entry of page v changes that page alone. */
  lemma {:induction false} WriteMap(st: Store, own: Owners, root: nat, t: nat, d: nat, v: nat, e: nat)
    requires Inv(st, own, root) && t in st && EntryOf(own, t, d, v) && v < PAGES && d < |st[t]|
    ensures var w := Write(st, t, d, e);
            && Inv(w, own, root)
            && forall x :: 0 <= x < PAGES ==> Pte(w, root, x) == if x == v then e else Pte(st, root, x)
  {
    assert |own[t] + [d]| == 4 && own[t] == (own[t] + [d])[..3] && own[t][0] == 3;
    WriteTree(st, own, PteRef, ENTRIES, t, d, e);
    var w := Write(st, t, d, e);
    forall x | x in w ensures Pointed(w, own, x) { assert Pointed(st, own, x); }
    hide Tree, PteRef, Path, Write, Lookup, Pointed;
    assert root in w by { WriteKeeps(st, t, d, e, root); }
    forall x | 0 <= x < PAGES ensures Pte(w, root, x) == if x == v then e else Pte(st, root, x) {
      RootFits(st, own, root, x);
      PathBelow(x);
      WriteLeaf(st, own, PteRef, ENTRIES, t, d, e, root, Path(x));
      if own[root] + Path(x) == own[t] + [d] {
        assert ([3] + Path(x))[1..] == Path(x) && ([3] + Path(v))[1..] == Path(v);
        PathsApart(x, v);
      }
    }
  }

  lemma {:induction false} WriteKeeps(st: Store, t: nat, d: nat, e: nat, root: nat)
    requires root in st && t in st && d < |st[t]|
    ensures root in Write(st, t, d, e)
  {
  }

  // ---------------------------------------------------------------- how many pages

  /** mappages' page count. */
  function Count(va: nat, sz: nat): int { (va + sz - 1 + PGSIZE - 1) / PGSIZE - va / PGSIZE }

  /** The pages from the first byte's on reach the end of the range exactly unless one byte spills
      onto a further page, and the last of them starts before that end. */
  lemma {:induction false} CountCovers(va: nat, sz: nat)
    requires va + sz > 0
    ensures (va / PGSIZE + Count(va, sz)) * PGSIZE >= va + sz <==> (va + sz) % PGSIZE != 1
    ensures va / PGSIZE * PGSIZE <= va && (va / PGSIZE + Count(va, sz) - 1) * PGSIZE < va + sz
  {
  }

  /** The last byte is missed: 4097 bytes get one page, and a single byte at 0 gets none. */
  lemma {:induction false} CountExample()
    ensures Count(0, 4097) == 1 && Count(0, 1) == 0
  {
  }

  // ---------------------------------------------------------------- which tables

  /** The indexes that lead to the table of page v k levels below the root. */
  function Way(v: nat, k: nat): seq<nat>
    requires k <= 3
  {
    Path(v)[..k]
  }

  /** The table of page v k levels below the root is there. */
  predicate Has(st: Store, root: nat, v: nat, k: nat)
    requires k <= 3
  {
    Reach(st, PteRef, root, Way(v, k)) != 0
  }

  /** The tables that are missing on the ways to the pages ws, by the indexes that lead to them. */
  function Lacking(st: Store, root: nat, ws: set<nat>): set<seq<nat>> {
    set w, k: nat | w in ws && 1 <= k <= 2 && !Has(st, root, w, k) :: Way(w, k)
  }

  /** Page v is the first of a table of the lowest level. */
  predicate TableStart(v: nat) { v % ENTRIES == 0 }

  /** The pages mappages walks to for n pages from start on: the first, and every one behind a table's
      last entry, even if no page is left to map there. */
  function Walks(start: nat, n: int): set<nat> {
    {start} + set w: nat | start < w <= start + n && TableStart(w)
  }

  /** b has the tables of a and the one at this place. */
  ghost predicate Gained(a: Store, b: Store, root: nat, place: seq<nat>) {
    forall x: nat, k: nat :: 1 <= k <= 2 ==> (Has(b, root, x, k) <==> Has(a, root, x, k) || [3] + Way(x, k) == place)
  }

  /** b has the tables of a and those on the first j steps to page v. */
  ghost predicate Walked(a: Store, b: Store, root: nat, v: nat, j: nat) {
    forall x: nat, k: nat :: 1 <= k <= 2 ==>
      (Has(b, root, x, k) <==> Has(a, root, x, k) || (k <= j && Way(x, k) == Way(v, k)))
  }

  ghost predicate OnWay(ws: set<nat>, x: nat, k: nat)
    requires k <= 3
  {
    exists w :: w in ws && Way(w, k) == Way(x, k)
  }

  /** b has the tables of a and those on the ways to the pages ws. */
  ghost predicate Covered(a: Store, b: Store, root: nat, ws: set<nat>) {
    forall x: nat, k: nat :: 1 <= k <= 2 ==> (Has(b, root, x, k) <==> Has(a, root, x, k) || OnWay(ws, x, k))
  }

  lemma {:induction false} RootInside(st: Store, own: Owners, root: nat, x: nat, k: nat)
    requires Inv(st, own, root) && k <= 2
    ensures root in own && own[root] == [3] && Inside(own, ENTRIES, root, Way(x, k))
  {
    PathBelow(x);
  }

  lemma {:induction false} GrowGained(st: Store, own: Owners, root: nat, q: nat, d: nat, n: nat)
    requires Inv(st, own, root) && q in st && q in own && own[q] != [] && |own[q]| < own[q][0] && d < |st[q]| &&
             d < ENTRIES && PteRef(st[q][d]) == 0 && n !in st && n != 0
    ensures Gained(st, Grow(st, q, d, n, TablePte(n), ENTRIES), root, own[q] + [d])
  {
    hide Tree, Grow, Reach, PteRef, TablePte, Way, Inside;
    TablePteIs(n);
    forall x: nat, k: nat | 1 <= k <= 2
      ensures Has(Grow(st, q, d, n, TablePte(n), ENTRIES), root, x, k) <==>
              Has(st, root, x, k) || [3] + Way(x, k) == own[q] + [d]
    {
      RootInside(st, own, root, x, k);
      GrowReach(st, own, PteRef, ENTRIES, q, d, n, TablePte(n), root, Way(x, k));
    }
  }

  /** A table that is there is found at its place. */
  lemma {:induction false} HadGained(st: Store, own: Owners, root: nat, c: nat)
    requires Inv(st, own, root) && c in st && c in own
    ensures Gained(st, st, root, own[c])
  {
    hide Tree, Reach, PteRef, Way, Inside;
    forall x: nat, k: nat | 1 <= k <= 2 && [3] + Way(x, k) == own[c] ensures Has(st, root, x, k) {
      RootInside(st, own, root, x, k);
      ReachPlace(st, own, PteRef, ENTRIES, root, Way(x, k), c);
      NotZero(st, own, root, c);
    }
  }

  lemma {:induction false} NotZero(st: Store, own: Owners, root: nat, c: nat)
    requires Inv(st, own, root) && c in st
    ensures c != 0
  {
    assert NodeOk(st, own, PteRef, ENTRIES, c);
  }

  lemma {:induction false} WalkedNone(st: Store, root: nat, v: nat)
    ensures Walked(st, st, root, v, 0)
  {
    hide Has;
  }

  lemma {:induction false} WalkedMore(a: Store, b: Store, c: Store, root: nat, v: nat, j: nat)
    requires Walked(a, b, root, v, j) && j < 2 && Gained(b, c, root, [3] + Way(v, j + 1))
    ensures Walked(a, c, root, v, j + 1)
  {
    forall x: nat, k: nat | 1 <= k <= 2
      ensures Has(c, root, x, k) <==> Has(a, root, x, k) || (k <= j + 1 && Way(x, k) == Way(v, k))
    {
      hide Has;
      PathAt(x, 1);
      PathAt(v, 1);
      SamePlace(x, k, v, j + 1);
    }
  }

  lemma {:induction false} SamePlace(x: nat, k: nat, v: nat, m: nat)
    requires k <= 3 && m <= 3
    ensures [3] + Way(x, k) == [3] + Way(v, m) <==> k == m && Way(x, k) == Way(v, m)
  {
    hide Path;
    PathAt(x, 1);
    PathAt(v, 1);
    assert |Way(x, k)| == k && |Way(v, m)| == m;
    assert ([3] + Way(x, k))[1..] == Way(x, k) && ([3] + Way(v, m))[1..] == Way(v, m);
  }

  /** The place of the child on the way to page v. */
  lemma {:induction false} ChildPlace(a: seq<nat>, path: seq<nat>, v: nat)
    requires 1 <= |path| <= 3 && a + path == [3] + Path(v)
    ensures a + [path[0]] == [3] + Way(v, 4 - |path|)
  {
    hide Path;
    PathAt(v, 1);
    var j := 4 - |path|;
    assert |a| == j;
    assert a + [path[0]] == (a + path)[..j + 1] == ([3] + Path(v))[..j + 1];
  }

  /** What a walk has to add is what is lacking on its way. */
  lemma {:induction false} MissingCount(st: Store, own: Owners, root: nat, v: nat)
    requires Inv(st, own, root)
    ensures Missing(st, PteRef, root, Path(v)) == |Lacking(st, root, {v})|
  {
    hide Tree, PteRef, Index;
    PathBelow(v);
    MissingLevels(st, own, root, v);
    LackingOne(st, root, v);
    WaysApart(v);
  }

  lemma {:induction false} WaysApart(v: nat)
    ensures Way(v, 1) != Way(v, 2)
  {
    hide Index;
    assert |Way(v, 1)| == 1 && |Way(v, 2)| == 2;
  }

  lemma {:induction false} LackingOne(st: Store, root: nat, v: nat)
    ensures Lacking(st, root, {v}) ==
            (if Has(st, root, v, 1) then {} else {Way(v, 1)}) + (if Has(st, root, v, 2) then {} else {Way(v, 2)})
  {
    hide Has, Way;
    var l := Lacking(st, root, {v});
    var m := (if Has(st, root, v, 1) then {} else {Way(v, 1)}) + (if Has(st, root, v, 2) then {} else {Way(v, 2)});
    forall p ensures p in l <==> p in m {
      if p in l {
        var k: nat :| 1 <= k <= 2 && !Has(st, root, v, k) && p == Way(v, k);
        assert k == 1 || k == 2;
      }
    }
  }

  lemma {:induction false} MissingLevels(st: Store, own: Owners, root: nat, v: nat)
    requires Inv(st, own, root)
    ensures Has(st, root, v, 2) ==> Has(st, root, v, 1)
    ensures Missing(st, PteRef, root, Path(v)) ==
            (if Has(st, root, v, 1) then 0 else 1) + if Has(st, root, v, 2) then 0 else 1
  {
    hide Tree, PteRef, Index;
    PathBelow(v);
    var p := Path(v);
    RootInside(st, own, root, v, 2);
    ReachStep(st, own, PteRef, ENTRIES, root, Way(v, 2));
    RootInside(st, own, root, v, 1);
    ReachStep(st, own, PteRef, ENTRIES, root, Way(v, 1));
    assert Way(v, 2)[1..] == [p[1]] && Way(v, 1)[1..] == [] && p[1..][1..] == [p[2]] && p[1..][0] == p[1];
    var c := PteRef(st[root][p[0]]);
    if c != 0 {
      ReachStep(st, own, PteRef, ENTRIES, c, [p[1]]);
      assert [p[1]][1..] == [];
      if PteRef(st[c][p[1]]) != 0 { NotZero(st, own, root, PteRef(st[c][p[1]])); }
    }
  }

  /** The way to one more page: what is lacking grows by what is lacking now. */
  lemma {:induction false} LackingMore(a: Store, b: Store, root: nat, ws: set<nat>, w: nat)
    requires Covered(a, b, root, ws)
    ensures |Lacking(a, root, ws + {w})| == |Lacking(a, root, ws)| + |Lacking(b, root, {w})|
  {
    hide Has, Way;
    var l, m, n := Lacking(a, root, ws), Lacking(b, root, {w}), Lacking(a, root, ws + {w});
    forall p ensures p in n <==> p in l || p in m {
      if p in m {
        var k: nat :| 1 <= k <= 2 && !Has(b, root, w, k) && p == Way(w, k);
        assert !Has(a, root, w, k) && w in ws + {w};
      }
      if p in n && p !in l {
        var x, k: nat :| x in ws + {w} && 1 <= k <= 2 && !Has(a, root, x, k) && p == Way(x, k);
        assert x == w;
        NotOnWay(a, root, ws, w, k);
      }
    }
    forall p | p in m ensures p !in l {
      var k: nat :| 1 <= k <= 2 && !Has(b, root, w, k) && p == Way(w, k);
      assert !OnWay(ws, w, k);
      if p in l { LackingOnWay(a, root, ws, w, k); }
    }
    assert n == l + m && l !! m;
  }

  lemma {:induction false} NotOnWay(a: Store, root: nat, ws: set<nat>, w: nat, k: nat)
    requires 1 <= k <= 2 && !Has(a, root, w, k) && Way(w, k) !in Lacking(a, root, ws)
    ensures !OnWay(ws, w, k)
  {
    assert forall x :: x in ws && !Has(a, root, x, k) ==> Way(x, k) in Lacking(a, root, ws);
    assert forall x: nat :: Way(x, k) == Way(w, k) ==> !Has(a, root, x, k);
  }

  lemma {:induction false} LackingOnWay(a: Store, root: nat, ws: set<nat>, w: nat, k: nat)
    requires 1 <= k <= 2 && Way(w, k) in Lacking(a, root, ws)
    ensures OnWay(ws, w, k)
  {
    hide Has, Path;
    var x, m: nat :| x in ws && 1 <= m <= 2 && !Has(a, root, x, m) && Way(w, k) == Way(x, m);
    PathAt(x, 1);
    PathAt(w, 1);
    assert |Way(w, k)| == k && |Way(x, m)| == m;
  }

  lemma {:induction false} LackingMono(a: Store, root: nat, ws: set<nat>, vs: set<nat>)
    requires ws <= vs
    ensures |Lacking(a, root, ws)| <= |Lacking(a, root, vs)|
  {
    hide Has, Way;
    SubsetSize(Lacking(a, root, ws), Lacking(a, root, vs));
  }

  lemma {:induction false} SubsetSize(a: set<seq<nat>>, b: set<seq<nat>>)
    requires a <= b
    ensures |a| <= |b|
  {
    assert b == a + (b - a);
  }

  // ---------------------------------------------------------------- the code

  class Table {
    var st: Store
    const root: nat
    ghost var own: Owners

    ghost predicate Valid()
      reads this
    {
      Inv(st, own, root)
    }

    constructor (root: nat)
      requires root != 0
      ensures Valid() && this.root == root && forall v :: 0 <= v < PAGES ==> Pte(st, root, v) == 0
    {
      this.root := root;
      st := map[root := Zeros(ENTRIES)];
      own := map[root := [3]];
      new;
      EmptyOk(root);
    }

    /** The table that entry d of table t points at, added if it is missing and alloc says so; 0 if not. */
    method Child(t: nat, d: nat, alloc: bool, supply: seq<nat>, ghost path: seq<nat>) returns (c: nat, left: seq<nat>)
      requires Valid() && Usable(supply, st) && t in st && t in own && own[t] != [] && |path| > 1 && path[0] == d &&
               Fits(own, ENTRIES, t, path)
      modifies this`st, this`own
      ensures Valid() && Usable(left, st) && SameMap(old(st), st, root) &&
              (!alloc ==> st == old(st) && left == supply)
      ensures c != 0 ==> && c in st && c in own && own[c] == old(own[t]) + [d] && Fits(own, ENTRIES, c, path[1..])
                         && Lookup(st, PteRef, c, path[1..]) == old(Lookup(st, PteRef, t, path))
      ensures c == 0 ==> st == old(st) && Lookup(st, PteRef, t, path) == 0 && (!alloc || left == [])
      ensures Drawn(old(st), st, supply, left) && |left| <= |supply|
      ensures c == 0 ==> Missing(old(st), PteRef, t, path) > 0 && left == supply
      ensures c != 0 ==> && Gained(old(st), st, root, old(own[t]) + [d])
                         && |supply| - |left| + Missing(st, PteRef, c, path[1..]) == Missing(old(st), PteRef, t, path)
    {
      hide Inv, TablePte, Usable, SameMap, Fits, Lookup, Pte, Grow, Drawn, Gained;
      left := supply;
      DrawnNone(st, supply);
      SameRefl(st, root);
      TableFacts(st, own, root, t, path);
      if st[t][d] % 2 == 0 {
        if !alloc || left == [] { return 0, left; }
        c := left[0];
        FirstUsable(left, st, Zeros(ENTRIES));
        GrowUsable(left, st, t, d, TablePte(c), ENTRIES);
        GrowMap(st, own, root, t, d, c);
        GrowGained(st, own, root, t, d, c);
        GrowDrawn(st, t, d, TablePte(c), ENTRIES, left);
        NewTable(st, own, t, d, c, path);
        own := own[c := own[t] + [d]];
        st := Grow(st, t, d, c, TablePte(c), ENTRIES);
        left := left[1..];
      } else {
        c := st[t][d] / 1024;
        HadGained(st, own, root, c);
      }
    }

    /** walk: the table and index of the entry for virtual page v.  alloc tells whether missing tables
        are added; supply is what the page allocator hands out.  None is a null result. */
    method Walk(v: nat, alloc: bool, supply: seq<nat>) returns (r: Option<(nat, nat)>, left: seq<nat>)
      requires Valid() && Usable(supply, st)
      modifies this`st, this`own
      ensures Valid() && Usable(left, st) && SameMap(old(st), st, root) &&
              (!alloc ==> st == old(st) && left == supply)
      ensures r.Some? ==> var (t, d) := r.value;
              t in st && d < |st[t]| && EntryOf(own, t, d, v) && Pte(st, root, v) == st[t][d]
      ensures r.None? ==> Pte(st, root, v) == 0 && (!alloc || left == [])
      ensures Drawn(old(st), st, supply, left) && |left| <= |supply|
      ensures r.None? <==> (if alloc then |supply| else 0) < Missing(old(st), PteRef, root, Path(v))
      ensures r.Some? ==> && |supply| - |left| == Missing(old(st), PteRef, root, Path(v))
                          && Walked(old(st), st, root, v, 2)
    {
      hide Inv, Path, Usable, SameMap, Fits, Lookup, EntryOf, Index, Pte, Drawn, Gained, Walked, Missing, OnPath;
      SameRefl(st, root);
      WalkedNone(st, root, v);
      DrawnNone(st, supply);
      ghost var need := Missing(st, PteRef, root, Path(v));
      left := supply;
      var t: nat, shift: nat := root, 18;
      ghost var path := Path(v);
      Start(st, own, root, v);
      while shift > 0
        invariant shift == 9 * (|path| - 1) && 1 <= |path| <= 3 && t in st && OnPath(own, t, path, v)
        invariant Valid() && Usable(left, st) && SameMap(old(st), st, root) &&
                  (!alloc ==> st == old(st) && left == supply)
        invariant Pte(st, root, v) == Lookup(st, PteRef, t, path)
        invariant Drawn(old(st), st, supply, left) && |left| <= |supply| && Walked(old(st), st, root, v, 3 - |path|)
        invariant |supply| - |left| + Missing(st, PteRef, t, path) == need
        decreases shift
      {
        PathStep(own, t, path, v);
        ghost var s1, was, w1 := st, left, own;
        var c: nat;
        c, left := Child(t, Index(v, shift), alloc, left, path);
        DrawnMore(old(st), s1, st, supply, was, left);
        SameTrans(old(st), s1, st, root, v);
        if c == 0 { return None, left; }
        WalkedMore(old(st), s1, st, root, v, 3 - |path|);
        PathNext(w1, own, t, c, path, v);
        t := c;
        path := path[1..];
        shift := shift - 9;
      }
      PathEnd(own, t, path, v);
      TableFacts(st, own, root, t, path);
      r := Some((t, Index(v, 0)));
    }

    /** mappages: npages consecutive pages from va on to consecutive frames from pa on, stepping along
        the entries of a table and walking again only at its end.  n pages are mapped in the end; false is a
        failed allocation. */
    method MapPages(va: nat, pa: nat, sz: nat, flags: nat, supply: seq<nat>) returns (ok: bool, n: nat)
      requires Valid() && Usable(supply, st) && va + sz > 0 && va / PGSIZE + Count(va, sz) <= PAGES
      modifies this`st, this`own
      ensures Valid()
      ensures n <= Count(va, sz) && (ok ==> n == Count(va, sz))
      ensures forall v :: 0 <= v < PAGES ==> Pte(st, root, v) == Mapped(old(st), root, va / PGSIZE, n, pa, flags, v)
      ensures ok <==> |Lacking(old(st), root, Walks(va / PGSIZE, Count(va, sz)))| <= |supply|
      ensures ok ==> Drawn(old(st), st, supply, supply[|Lacking(old(st), root, Walks(va / PGSIZE, Count(va, sz)))|..])
      ensures !ok ==> && Drawn(old(st), st, supply, []) && |supply| < |Lacking(old(st), root, Walks(va / PGSIZE, n))|
                      && (n > 0 ==> |Lacking(old(st), root, Walks(va / PGSIZE, n - 1))| <= |supply|)
    {
      hide Inv, Path, Usable, EntryOf, Index, Pte, Count, MapIs, SameMap, Drawn, Walked, Missing, Lacking, Walks,
        TablesAre, TableStart;
      ghost var s0 := st;
      var start, npages := va / PGSIZE, Count(va, sz);
      CountPositive(va, sz);
      TablesNone(st, own, root, start, npages);
      var pte, left := Walk(start, true, supply);
      MapStart(s0, st, root, start, pa, flags);
      if pte.None? {
        MapShows(s0, st, root, start, 0, pa, flags);
        return false, 0;
      }
      var t: nat, d: nat := pte.value.0, pte.value.1;
      var frame: nat := pa;
      n := 0;
      TablesFirst(s0, st, root, start, supply, left);
      while n < npages
        invariant 0 <= n <= npages && frame == pa + n * PGSIZE && Valid() && Usable(left, st) && t in st &&
                  d < |st[t]|
        invariant EntryOf(own, t, d, start + n) && MapIs(s0, st, root, start, n, pa, flags)
        invariant TablesAre(s0, st, root, Walks(start, n), supply, left)
        decreases npages - n
      {
        WriteMap(st, own, root, t, d, start + n, LeafPte(frame, flags));
        MapStep(s0, st, Write(st, t, d, LeafPte(frame, flags)), root, start, n, pa, flags);
        WriteUsable(left, st, t, d, LeafPte(frame, flags));
        FullTable(st, own, root, t, d, start + n);
        TablesWrite(s0, st, own, root, Walks(start, n), supply, left, t, d, start + n, LeafPte(frame, flags));
        st := Write(st, t, d, LeafPte(frame, flags));
        d := d + 1;
        frame := frame + PGSIZE;
        n := n + 1;
        WalksStep(start, n);
        if d == ENTRIES {
          ghost var s1, was := st, left;
          TablesNext(s0, st, own, root, start, n, npages, supply, left);
          pte, left := Walk(start + n, true, left);
          MapAfter(s0, s1, st, root, start, n, pa, flags);
          TablesDrawn(s0, s1, st, root, Walks(start, n - 1), supply, was, left);
          if pte.None? {
            MapShows(s0, st, root, start, n, pa, flags);
            return false, n;
          }
          TablesWalk(s0, s1, st, root, Walks(start, n - 1), start + n, supply, was, left);
          t, d := pte.value.0, pte.value.1;
        }
      }
      MapShows(s0, st, root, start, n, pa, flags);
      TablesEnd(s0, st, root, Walks(start, n), supply, left);
      ok := true;
    }
  }

  // ---------------------------------------------------------------- facts for the methods

  lemma {:induction false} EmptyOk(root: nat)
    requires root != 0
    ensures Inv(map[root := Zeros(ENTRIES)], map[root := [3]], root)
    ensures forall v :: Pte(map[root := Zeros(ENTRIES)], root, v) == 0
  {
    var st, own := map[root := Zeros(ENTRIES)], map[root := [3]];
    forall x | 0 <= x < ENTRIES ensures ChildOk(st, own, PteRef, root, x) { }
    forall v ensures Pte(st, root, v) == 0 { ZeroTable(st, PteRef, ENTRIES, root, Path(v)); }
  }

  lemma {:induction false} SameRefl(st: Store, root: nat)
    ensures SameMap(st, st, root)
  {
  }

  lemma {:induction false} SameTrans(a: Store, b: Store, c: Store, root: nat, v: nat)
    requires SameMap(a, b, root) && SameMap(b, c, root)
    ensures SameMap(a, c, root) && Pte(c, root, v) == Pte(b, root, v)
  {
    hide Pte;
  }

  /** The descent for page v has come to table t, with path still to go. */
  ghost predicate OnPath(own: Owners, t: nat, path: seq<nat>, v: nat) {
    && 1 <= |path| <= 3 && path == Path(v)[3 - |path|..]
    && t in own && own[t] != [] && Fits(own, ENTRIES, t, path) && own[t] + path == [3] + Path(v)
  }

  lemma {:induction false} Start(st: Store, own: Owners, root: nat, v: nat)
    requires Inv(st, own, root)
    ensures root in st && |Path(v)| == 3 && OnPath(own, root, Path(v), v)
    ensures Pte(st, root, v) == Lookup(st, PteRef, root, Path(v))
  {
    hide Tree, Lookup, Path;
    RootFits(st, own, root, v);
    PathBelow(v);
    assert Path(v)[0..] == Path(v);
  }

  lemma {:induction false} PathStep(own: Owners, t: nat, path: seq<nat>, v: nat)
    requires OnPath(own, t, path, v)
    ensures t in own && own[t] != [] && Fits(own, ENTRIES, t, path) && path[0] == Index(v, 9 * (|path| - 1))
    ensures own[t] + [path[0]] == [3] + Way(v, 4 - |path|)
  {
    hide Path, Index, Fits;
    PathAt(v, |path|);
    ChildPlace(own[t], path, v);
  }

  lemma {:induction false} PathNext(own: Owners, own': Owners, t: nat, c: nat, path: seq<nat>, v: nat)
    requires OnPath(own, t, path, v) && |path| > 1 && c in own' && own'[c] == own[t] + [path[0]]
    requires Fits(own', ENTRIES, c, path[1..])
    ensures OnPath(own', c, path[1..], v)
  {
    hide Path, Index, Fits;
    PathAt(v, |path|);
    Shorter(own[t], path);
  }

  lemma {:induction false} PathEnd(own: Owners, t: nat, path: seq<nat>, v: nat)
    requires OnPath(own, t, path, v) && |path| == 1
    ensures t in own && own[t] != [] && Fits(own, ENTRIES, t, path) && path[0] == Index(v, 0)
    ensures EntryOf(own, t, Index(v, 0), v)
  {
    hide Path, Index, Fits;
    PathAt(v, 1);
    LastEntry(own, t, path, v);
  }

  lemma {:induction false} PathAt(v: nat, k: nat)
    requires 1 <= k <= 3
    ensures |Path(v)| == 3 && Path(v)[3 - k] == Index(v, 9 * (k - 1)) && Path(v)[3 - k..][0] == Path(v)[3 - k]
    ensures k > 1 ==> Path(v)[3 - k..][1..] == Path(v)[4 - k..]
  {
    hide Index;
  }

  lemma {:induction false} Shorter(a: seq<nat>, path: seq<nat>)
    requires path != []
    ensures a + [path[0]] + path[1..] == a + path
  {
  }

  /** Reading one table on the way. */
  lemma {:induction false} TableFacts(st: Store, own: Owners, root: nat, t: nat, path: seq<nat>)
    requires Inv(st, own, root) && t in st && t in own && own[t] != [] && Fits(own, ENTRIES, t, path) && path != []
    ensures |st[t]| == ENTRIES && path[0] < ENTRIES && (|path| > 1 ==> |own[t]| < own[t][0])
    ensures 0 !in st && (|path| > 1 && st[t][path[0]] % 2 == 1 ==> PteRef(st[t][path[0]]) != 0)
    ensures |path| == 1 ==> Lookup(st, PteRef, t, path) == st[t][path[0]]
    ensures var c := PteRef(st[t][path[0]]);
            && (|path| <= 1 ==> Missing(st, PteRef, t, path) == 0)
            && (|path| > 1 ==> Missing(st, PteRef, t, path) ==
                               if c == 0 then |path| - 1 else Missing(st, PteRef, c, path[1..]))
    ensures var c := PteRef(st[t][path[0]]);
            |path| > 1 ==> && Lookup(st, PteRef, t, path) == (if c == 0 then 0 else Lookup(st, PteRef, c, path[1..]))
                           && (c != 0 ==>
                                 c in st && c in own && own[c] == own[t] + [path[0]] &&
                                   Fits(own, ENTRIES, c, path[1..]))
  {
    assert NodeOk(st, own, PteRef, ENTRIES, t) && Pointed(st, own, t);
    if |path| > 1 {
      assert ChildOk(st, own, PteRef, t, path[0]);
    }
    forall x | x in st ensures x != 0 { assert NodeOk(st, own, PteRef, ENTRIES, x); }
  }

  lemma {:induction false} NewTable(st: Store, own: Owners, t: nat, d: nat, n: nat, path: seq<nat>)
    requires t in st && d < |st[t]| == ENTRIES && t in own && own[t] != [] && |path| > 1 && path[0] == d &&
             Fits(own, ENTRIES, t, path) && n !in st && n != 0 && 0 !in st
    ensures var g := Grow(st, t, d, n, TablePte(n), ENTRIES);
            && n in g && Fits(own[n := own[t] + [d]], ENTRIES, n, path[1..])
            && Lookup(g, PteRef, n, path[1..]) == 0 && Missing(g, PteRef, n, path[1..]) == |path| - 2
  {
    MissingBelow(Grow(st, t, d, n, TablePte(n), ENTRIES), PteRef, ENTRIES, n, path[1..]);
    ZeroTable(Grow(st, t, d, n, TablePte(n), ENTRIES), PteRef, ENTRIES, n, path[1..]);
  }

  lemma {:induction false} LastEntry(own: Owners, t: nat, path: seq<nat>, v: nat)
    requires |path| == 1 && t in own && own[t] + path == [3] + Path(v)
    ensures EntryOf(own, t, path[0], v)
  {
    assert path == [path[0]];
  }

  // ---------------------------------------------------------------- the map built so far

  /** The flat page map with n pages from start on mapped to frames from pa on. */
  function Mapped(st: Store, root: nat, start: nat, n: int, pa: nat, flags: nat, v: nat): nat {
    if start <= v < start + n then LeafPte(pa + (v - start) * PGSIZE, flags) else Pte(st, root, v)
  }

  ghost predicate MapIs(s0: Store, st: Store, root: nat, start: nat, n: nat, pa: nat, flags: nat) {
    forall v :: 0 <= v < PAGES ==> Pte(st, root, v) == Mapped(s0, root, start, n, pa, flags, v)
  }

  lemma {:induction false} MapShows(s0: Store, st: Store, root: nat, start: nat, n: nat, pa: nat, flags: nat)
    requires MapIs(s0, st, root, start, n, pa, flags)
    ensures forall v :: 0 <= v < PAGES ==> Pte(st, root, v) == Mapped(s0, root, start, n, pa, flags, v)
  {
  }

  lemma {:induction false} MapStart(s0: Store, st: Store, root: nat, start: nat, pa: nat, flags: nat)
    requires SameMap(s0, st, root)
    ensures MapIs(s0, st, root, start, 0, pa, flags)
  {
    hide Pte;
  }

  lemma {:induction false} MapAfter(s0: Store, s1: Store, st: Store, root: nat, start: nat, n: nat, pa: nat,
      flags: nat)
    requires MapIs(s0, s1, root, start, n, pa, flags) && SameMap(s1, st, root)
    ensures MapIs(s0, st, root, start, n, pa, flags)
  {
    hide Pte, Mapped;
  }

  lemma {:induction false} MapStep(s0: Store, s1: Store, st: Store, root: nat, start: nat, n: nat, pa: nat,
      flags: nat)
    requires MapIs(s0, s1, root, start, n, pa, flags)
    requires forall x :: 0 <= x < PAGES ==>
             Pte(st, root, x) == if x == start + n then LeafPte(pa + n * PGSIZE, flags) else Pte(s1, root, x)
    ensures MapIs(s0, st, root, start, n + 1, pa, flags)
  {
    hide Pte, LeafPte;
  }

  lemma {:induction false} WriteUsable(supply: seq<nat>, st: Store, t: nat, d: nat, e: nat)
    requires Usable(supply, st) && t in st && d < |st[t]|
    ensures Usable(supply, Write(st, t, d, e)) && t in Write(st, t, d, e) && |Write(st, t, d, e)[t]| == |st[t]|
  {
  }

  /** Stepping to the next entry of the table is stepping to the next page. */
  lemma {:induction false} FullTable(st: Store, own: Owners, root: nat, t: nat, d: nat, v: nat)
    requires Inv(st, own, root) && t in st && EntryOf(own, t, d, v) && d < |st[t]|
    ensures |st[t]| == ENTRIES && (d + 1 < ENTRIES ==> EntryOf(own, t, d + 1, v + 1))
    ensures d + 1 == ENTRIES <==> TableStart(v + 1)
  {
    assert NodeOk(st, own, PteRef, ENTRIES, t);
    hide Path, Tree, Inv, NodeOk;
    PathBelow(v);
    NextEntry(v);
    LastIndex(own[t], d, v);
    NextStart(v);
    if d + 1 < ENTRIES {
      assert [3] + Path(v + 1) == [3] + Path(v)[..2] + [d + 1];
    }
  }

  lemma {:induction false} LastIndex(a: seq<nat>, d: nat, v: nat)
    requires a + [d] == [3] + Path(v)
    ensures |Path(v)| == 3 && a == [3] + Path(v)[..2] && d == Path(v)[2]
  {
    hide Index;
    var whole := [3] + Path(v);
    assert a == (a + [d])[..|a|] == whole[..3] && d == whole[3];
    assert whole[..3] == [3] + Path(v)[..2];
  }

  lemma {:induction false} NextStart(v: nat)
    ensures TableStart(v + 1) <==> v % 512 == 511
  {
  }

  // ---------------------------------------------------------------- the tables added so far

  /** st has the tables of s0 and those on the ways to ws, one number of supply for each that was lacking. */
  ghost predicate TablesAre(s0: Store, st: Store, root: nat, ws: set<nat>, supply: seq<nat>, left: seq<nat>) {
    Covered(s0, st, root, ws) && Drawn(s0, st, supply, left) && |supply| - |left| == |Lacking(s0, root, ws)|
  }

  /** Before the first walk. */
  lemma {:induction false} TablesNone(st: Store, own: Owners, root: nat, start: nat, n: nat)
    requires Inv(st, own, root)
    ensures Walks(start, 0) == {start} && Walks(start, 0) <= Walks(start, n)
    ensures |Lacking(st, root, Walks(start, 0))| == Missing(st, PteRef, root, Path(start))
    ensures |Lacking(st, root, Walks(start, 0))| <= |Lacking(st, root, Walks(start, n))|
  {
    hide Inv, Lacking, Missing, TableStart, Path;
    assert Walks(start, 0) == {start};
    MissingCount(st, own, root, start);
    LackingMono(st, root, Walks(start, 0), Walks(start, n));
  }

  lemma {:induction false} TablesFirst(s0: Store, st: Store, root: nat, start: nat, supply: seq<nat>, left: seq<nat>)
    requires Walked(s0, st, root, start, 2) && Drawn(s0, st, supply, left) && Walks(start, 0) == {start}
    requires |supply| - |left| == |Lacking(s0, root, Walks(start, 0))|
    ensures TablesAre(s0, st, root, Walks(start, 0), supply, left)
  {
    hide Has, Way, Lacking, Drawn;
    assert forall x: nat, k: nat :: 1 <= k <= 2 ==> (OnWay({start}, x, k) <==> Way(x, k) == Way(start, k));
  }

  lemma {:induction false} WalksStep(start: nat, n: nat)
    requires n > 0
    ensures Walks(start, n) ==
            if TableStart(start + n) then Walks(start, n - 1) + {start + n} else Walks(start, n - 1)
  {
    hide TableStart;
  }

  lemma {:induction false} TablesWrite(s0: Store, st: Store, own: Owners, root: nat, ws: set<nat>, supply: seq<nat>,
      left: seq<nat>, t: nat, d: nat, v: nat, e: nat)
    requires TablesAre(s0, st, root, ws, supply, left) && Inv(st, own, root) && t in st && d < |st[t]| &&
             EntryOf(own, t, d, v)
    ensures TablesAre(s0, Write(st, t, d, e), root, ws, supply, left)
  {
    hide Tree, Reach, PteRef, Write, Lacking, Drawn, OnWay, Inside;
    WriteDrawn(s0, st, t, d, e, supply, left);
    LowTable(own, t, d, v);
    forall x: nat, k: nat | 1 <= k <= 2 ensures Has(Write(st, t, d, e), root, x, k) <==> Has(st, root, x, k) {
      RootInside(st, own, root, x, k);
      WriteReach(st, own, PteRef, ENTRIES, t, d, e, root, Way(x, k));
    }
  }

  lemma {:induction false} LowTable(own: Owners, t: nat, d: nat, v: nat)
    requires EntryOf(own, t, d, v)
    ensures own[t] != [] && |own[t]| == own[t][0]
  {
    PathBelow(v);
    assert |own[t] + [d]| == 4 && own[t] == (own[t] + [d])[..3] && own[t][0] == 3;
  }

  /** Before the walk to the next table. */
  lemma {:induction false} TablesNext(s0: Store, st: Store, own: Owners, root: nat, start: nat, n: nat, all: nat,
      supply: seq<nat>, left: seq<nat>)
    requires TablesAre(s0, st, root, Walks(start, n - 1), supply, left) && Inv(st, own, root) && 0 < n <= all
    requires TableStart(start + n)
    ensures |Lacking(s0, root, Walks(start, n))| ==
            |supply| - |left| + Missing(st, PteRef, root, Path(start + n))
    ensures |Lacking(s0, root, Walks(start, n))| <= |Lacking(s0, root, Walks(start, all))|
    ensures |Lacking(s0, root, Walks(start, n - 1))| <= |supply|
  {
    hide Inv, Lacking, Missing, Path, Covered, TableStart;
    WalksStep(start, n);
    LackingMore(s0, st, root, Walks(start, n - 1), start + n);
    MissingCount(st, own, root, start + n);
    LackingMono(s0, root, Walks(start, n), Walks(start, all));
  }

  lemma {:induction false} TablesDrawn(s0: Store, s1: Store, st: Store, root: nat, ws: set<nat>, supply: seq<nat>,
      was: seq<nat>, left: seq<nat>)
    requires TablesAre(s0, s1, root, ws, supply, was) && Drawn(s1, st, was, left)
    ensures Drawn(s0, st, supply, left)
  {
    hide Covered, Lacking;
    DrawnMore(s0, s1, st, supply, was, left);
  }

  lemma {:induction false} TablesWalk(s0: Store, s1: Store, st: Store, root: nat, ws: set<nat>, w: nat,
      supply: seq<nat>, was: seq<nat>, left: seq<nat>)
    requires TablesAre(s0, s1, root, ws, supply, was) && Drawn(s1, st, was, left) && Walked(s1, st, root, w, 2)
    requires |supply| - |left| == |Lacking(s0, root, ws + {w})|
    ensures TablesAre(s0, st, root, ws + {w}, supply, left)
  {
    hide Has, Way, Lacking, Drawn;
    DrawnMore(s0, s1, st, supply, was, left);
    forall x: nat, k: nat | 1 <= k <= 2
      ensures Has(st, root, x, k) <==> Has(s0, root, x, k) || OnWay(ws + {w}, x, k)
    {
      OneMoreWay(ws, w, x, k);
    }
  }

  lemma {:induction false} OneMoreWay(ws: set<nat>, w: nat, x: nat, k: nat)
    requires k <= 3
    ensures OnWay(ws + {w}, x, k) <==> OnWay(ws, x, k) || Way(x, k) == Way(w, k)
  {
    hide Way;
    if OnWay(ws, x, k) {
      var y :| y in ws && Way(y, k) == Way(x, k);
      assert y in ws + {w};
    }
    assert w in ws + {w};
  }

  lemma {:induction false} TablesEnd(s0: Store, st: Store, root: nat, ws: set<nat>, supply: seq<nat>, left: seq<nat>)
    requires TablesAre(s0, st, root, ws, supply, left)
    ensures |Lacking(s0, root, ws)| <= |supply| && Drawn(s0, st, supply, supply[|Lacking(s0, root, ws)|..])
  {
    hide Covered, Lacking;
  }

  lemma {:induction false} CountPositive(va: nat, sz: nat)
    requires va + sz > 0
    ensures Count(va, sz) >= 0
  {
  }
}
