/** Splitting a full leaf of the hashed index: sort its entries by hash and move the upper half to a
    new block. */
module HTreeSplit {
  import opened DirBlockSpec
  import opened HTree
  import QuickSort

  /** A record to be redistributed, with the hash of its name. */
  datatype Item = Item(rec: Rec, hash: nat)

  function ItemOf(r: Rec, hash: Hash): seq<Item> {
    if r.inode != 0 && |r.name| != 0 then [Item(r, hash(r.name))] else []
  }

  /** The valid records of the block in order. */
  function Collected(h: Heads, off: nat, size: nat, hash: Hash): seq<Item>
    requires Tiled(h, off, size)
    decreases size - off
  {
    if off == size then [] else ItemOf(h[off], hash) + Collected(h, off + h[off].len, size, hash)
  }

  /** The bytes the records need when packed. */
  function Total(es: seq<Item>): nat {
    if es == [] then 0 else Total(es[..|es| - 1]) + Need(|es[|es| - 1].rec.name|)
  }

  function Names(es: seq<Item>): seq<Entry> {
    seq(|es|, i requires 0 <= i < |es| => Entry(es[i].rec.name, es[i].rec.inode))
  }

  predicate Good(es: seq<Item>, hash: Hash) {
    forall i :: 0 <= i < |es| ==> es[i].rec.inode != 0 && |es[i].rec.name| > 0 && es[i].hash == hash(es[i].rec.name)
  }

  lemma {:induction false} TotalConcat(a: seq<Item>, b: seq<Item>)
    ensures Total(a + b) == Total(a) + Total(b)
    decreases |b|
  {
    if b == [] {
      assert a + b == a;
    } else {
      var n := |b| - 1;
      assert (a + b)[..|a + b| - 1] == a + b[..n];
      TotalConcat(a, b[..n]);
    }
  }

  lemma {:induction false} TotalOne(e: Item)
    ensures Total([e]) == Need(|e.rec.name|)
  {
    assert [e][..0] == [];
  }

  /** What is collected fits the block. */
  lemma {:induction false} CollectedOk(h: Heads, off: nat, size: nat, hash: Hash)
    requires Tiled(h, off, size)
    ensures Good(Collected(h, off, size, hash), hash) && Total(Collected(h, off, size, hash)) <= size - off
    decreases size - off
  {
    hide Need, Total;
    if off < size {
      var one, es := ItemOf(h[off], hash), Collected(h, off + h[off].len, size, hash);
      CollectedOk(h, off + h[off].len, size, hash);
      TotalConcat(one, es);
      if one != [] { TotalOne(one[0]); } else { TotalNone(); }
    } else {
      TotalNone();
    }
  }

  lemma {:induction false} TotalNone()
    ensures Total([]) == 0
  {
  }

  ghost predicate AllNamed(es: seq<Entry>) { forall i :: 0 <= i < |es| ==> |es[i].name| > 0 }

  /** Every entry with a name is collected. */
  lemma {:induction false} CollectedNames(h: Heads, off: nat, size: nat, hash: Hash)
    requires Tiled(h, off, size) && AllNamed(Live(h, off, size))
    ensures Names(Collected(h, off, size, hash)) == Live(h, off, size)
    decreases size - off
  {
    if off < size {
      var next := off + h[off].len;
      var one, rest := EntryOf(h[off]), Live(h, next, size);
      NamedParts(one, rest);
      CollectedNames(h, next, size, hash);
      NamesConcat(ItemOf(h[off], hash), Collected(h, next, size, hash));
      assert h[off].inode != 0 ==> |one[0].name| > 0;
      assert Names(ItemOf(h[off], hash)) == one;
    }
  }

  lemma {:induction false} NamedParts(a: seq<Entry>, b: seq<Entry>)
    requires AllNamed(a + b)
    ensures AllNamed(a) && AllNamed(b)
  {
    forall i | 0 <= i < |a| ensures |a[i].name| > 0 { assert (a + b)[i] == a[i]; }
    forall i | 0 <= i < |b| ensures |b[i].name| > 0 { assert (a + b)[|a| + i] == b[i]; }
  }

  lemma {:induction false} NamesConcat(a: seq<Item>, b: seq<Item>)
    ensures Names(a + b) == Names(a) + Names(b)
  {
  }

  // ---------------------------------------------------------------- packing records into a block

  /** The records packed from offset off; the last one takes the rest of the block. */
  function Tiles(h: Heads, es: seq<Item>, off: nat, size: nat): Heads
    requires off + Total(es) <= size
    decreases |es|
  {
    if es == [] then h
    else
      var need := Need(|es[0].rec.name|);
      PackStep(es);
      if |es| == 1 then h[off := es[0].rec.(len := size - off)]
      else Tiles(h[off := es[0].rec.(len := need)], es[1..], off + need, size)
  }

  lemma {:induction false} PackStep(es: seq<Item>)
    requires es != []
    ensures Total(es) == Need(|es[0].rec.name|) + Total(es[1..])
  {
    TotalConcat([es[0]], es[1..]);
    TotalOne(es[0]);
    assert es == [es[0]] + es[1..];
  }

  /** Packing tiles the block with exactly these entries. */
  lemma {:induction false} TilesOk(h: Heads, es: seq<Item>, off: nat, size: nat, hash: Hash)
    requires es != [] && Good(es, hash) && off + Total(es) <= size && size % 4 == 0 && off % 4 == 0
    ensures var g := Tiles(h, es, off, size);
            Tiled(g, off, size) && Live(g, off, size) == Names(es) && Same(h, g, 0, off)
    decreases |es|
  {
    hide Need, Tiled, Live, Total, Tiles, Good, Names;
    TilesStep(h, es, off, size);
    GoodFirst(es, hash);
    if |es| == 1 {
      PackLast(es, off, size);
      LastTile(h, es[0], off, size);
    } else {
      var need := Need(|es[0].rec.name|);
      var h1 := h[off := es[0].rec.(len := need)];
      TilesOk(h1, es[1..], off + need, size, hash);
      NextTile(h, Tiles(h, es, off, size), es, off, size);
    }
  }

  lemma {:induction false} TilesStep(h: Heads, es: seq<Item>, off: nat, size: nat)
    requires es != [] && off + Total(es) <= size
    ensures var need := Need(|es[0].rec.name|);
            && off + need + Total(es[1..]) <= size
            && Tiles(h, es, off, size) ==
               if |es| == 1 then h[off := es[0].rec.(len := size - off)]
               else Tiles(h[off := es[0].rec.(len := need)], es[1..], off + need, size)
  {
    hide Need, Total;
    PackStep(es);
  }

  lemma {:induction false} GoodFirst(es: seq<Item>, hash: Hash)
    requires es != [] && Good(es, hash)
    ensures es[0].rec.inode != 0 && Good(es[1..], hash)
  {
  }

  lemma {:induction false} PackLast(es: seq<Item>, off: nat, size: nat)
    requires |es| == 1 && off + Total(es) <= size
    ensures off + Need(|es[0].rec.name|) <= size && Names(es) == [Entry(es[0].rec.name, es[0].rec.inode)]
  {
    hide Need, Total;
    PackStep(es);
  }

  lemma {:induction false} LastTile(h: Heads, x: Item, off: nat, size: nat)
    requires x.rec.inode != 0 && off + Need(|x.rec.name|) <= size && size % 4 == 0 && off % 4 == 0
    ensures var g := h[off := x.rec.(len := size - off)];
            && Tiled(g, off, size) && Live(g, off, size) == [Entry(x.rec.name, x.rec.inode)] && Same(h, g, 0, off)
  {
    hide Need, Tiled, Live;
    var g := h[off := x.rec.(len := size - off)];
    EndOfWalk(g, size);
    WalkCons(g, off, size);
  }

  /** A record in front of a packed rest. */
  lemma {:induction false} NextTile(h: Heads, g: Heads, es: seq<Item>, off: nat, size: nat)
    requires |es| > 1 && es[0].rec.inode != 0
    requires var need := Need(|es[0].rec.name|);
             && off + need <= size && Tiled(g, off + need, size) && Live(g, off + need, size) == Names(es[1..])
             && Same(h[off := es[0].rec.(len := need)], g, 0, off + need)
    ensures Tiled(g, off, size) && Live(g, off, size) == Names(es) && Same(h, g, 0, off)
  {
    hide Need, Tiled, Live, Names;
    var h1 := h[off := es[0].rec.(len := Need(|es[0].rec.name|))];
    assert off in h1 && g[off] == h1[off];
    assert off < size;
    WalkCons(g, off, size);
    FirstName(es);
    OneName(es[0]);
  }

  lemma {:induction false} OneName(x: Item)
    ensures Names([x]) == [Entry(x.rec.name, x.rec.inode)]
  {
  }

  lemma {:induction false} FirstName(es: seq<Item>)
    requires es != []
    ensures Names(es) == Names([es[0]]) + Names(es[1..])
  {
    NamesConcat([es[0]], es[1..]);
    assert es == [es[0]] + es[1..];
  }

  lemma {:induction false} EndOfWalk(h: Heads, size: nat)
    ensures Tiled(h, size, size) && Live(h, size, size) == []
  {
  }

  // ---------------------------------------------------------------- the order and the middle

  /** ext4_dir_dx_entry_comparator. */
  function Compare(a: Item, b: Item): int {
    if a.hash == b.hash then 0 else if a.hash < b.hash then -1 else 1
  }

  lemma {:induction false} CompareIsOrder()
    ensures QuickSort.TotalPreorder(Compare)
  {
  }

  ghost predicate ByHash(es: seq<Item>) {
    forall i, j :: 0 <= i < j < |es| ==> es[i].hash <= es[j].hash
  }

  lemma {:induction false} SortedByHash(es: seq<Item>)
    requires QuickSort.Sorted(es, Compare)
    ensures ByHash(es)
  {
    forall i, j | 0 <= i < j < |es| ensures es[i].hash <= es[j].hash {
      assert Compare(es[i], es[j]) <= 0;
    }
  }

  /** The last element of one rearrangement is somewhere in the other. */
  lemma {:induction false} PermStep(a: seq<Item>, b: seq<Item>) returns (k: nat)
    requires multiset(a) == multiset(b) && a != []
    ensures k < |b| && b[k] == a[|a| - 1] && multiset(a[..|a| - 1]) == multiset(b[..k] + b[k + 1..])
  {
    var n := |a| - 1;
    var e := a[n];
    assert a == a[..n] + [e];
    assert e in multiset(b);
    k :| 0 <= k < |b| && b[k] == e;
    assert b == b[..k] + [e] + b[k + 1..];
    assert multiset(a[..n]) == multiset(a) - multiset{e};
    assert multiset(b[..k] + b[k + 1..]) == multiset(b) - multiset{e};
  }

  /** Rearranging changes neither the bytes needed nor which records there are. */
  lemma {:induction false} PermTotal(a: seq<Item>, b: seq<Item>)
    requires multiset(a) == multiset(b)
    ensures Total(a) == Total(b)
    decreases |a|
  {
    if a == [] {
      assert |b| == |multiset(b)|;
    } else {
      var n := |a| - 1;
      var e := a[n];
      var k := PermStep(a, b);
      var rest := b[..k] + b[k + 1..];
      assert b == b[..k] + [e] + b[k + 1..] && a == a[..n] + [e];
      PermTotal(a[..n], rest);
      TotalAround(b[..k], e, b[k + 1..]);
    }
  }

  lemma {:induction false} TotalAround(a: seq<Item>, e: Item, b: seq<Item>)
    ensures Total(a + [e] + b) == Total(a + b) + Need(|e.rec.name|)
  {
    TotalConcat(a, [e]);
    TotalConcat(a + [e], b);
    TotalConcat(a, b);
    TotalOne(e);
  }

  lemma {:induction false} PermGood(a: seq<Item>, b: seq<Item>, hash: Hash)
    requires multiset(a) == multiset(b) && Good(a, hash)
    ensures Good(b, hash)
  {
    forall i | 0 <= i < |b| ensures b[i].rec.inode != 0 && |b[i].rec.name| > 0 && b[i].hash == hash(b[i].rec.name) {
      assert b[i] in multiset(b);
      assert b[i] in a;
    }
  }

  /** The loop that looks for the first record past half a block. */
  method FindMiddle(es: seq<Item>, size: nat) returns (mid: nat, newHash: nat)
    ensures Total(es) > size / 2 ==>
            mid < |es| && Total(es[..mid]) <= size / 2 < Total(es[..mid + 1]) && newHash == es[mid].hash
    ensures Total(es) <= size / 2 ==> mid == 0 && newHash == 0
  {
    mid, newHash := 0, 0;
    var current := 0;
    var i := 0;
    while i < |es|
      invariant 0 <= i <= |es| && mid == 0 && newHash == 0
      invariant current == Total(es[..i]) <= size / 2
    {
      assert es[..i + 1][..i] == es[..i];
      if current + Need(|es[i].rec.name|) > size / 2 {
        newHash, mid := es[i].hash, i;
        TotalConcat(es[..i + 1], es[i + 1..]);
        assert es == es[..i + 1] + es[i + 1..];
        return;
      }
      current := current + Need(|es[i].rec.name|);
      i := i + 1;
    }
    assert es[..i] == es;
  }

  /** Names are at most 255 bytes and blocks at least 1024, so no single record passes the middle:
      the split point has a record before it exactly when the records exceed half a block. */
  lemma {:induction false} MiddleInside(es: seq<Item>, size: nat, mid: nat)
    requires size >= 1024 && (forall i :: 0 <= i < |es| ==> |es[i].rec.name| <= 255)
    requires mid < |es| && Total(es[..mid]) <= size / 2 < Total(es[..mid + 1])
    ensures 0 < mid
  {
    assert es[..1] == [es[0]];
    TotalOne(es[0]);
  }

  // ---------------------------------------------------------------- the split

  ghost predicate HasName(es: seq<Entry>, name: Name) { exists i :: 0 <= i < |es| && es[i].name == name }

  /** The two blocks share out the entries around the key: the left ones hash below it, the right
      ones not below it but for the mark, and both sides are needed. */
  ghost predicate Halved(es: seq<Entry>, left: seq<Entry>, right: seq<Entry>, key: nat, hash: Hash) {
    && multiset(left + right) == multiset(es) && left != [] && right != []
    && (forall i :: 0 <= i < |left| ==> hash(left[i].name) < key)
    && (forall i :: 0 <= i < |right| ==> Base(key) <= hash(right[i].name))
    && hash(right[0].name) == Base(key)
  }

  lemma {:induction false} HalvesOk(es: seq<Item>, mid: nat, key: nat, hash: Hash)
    requires Even(hash) && Good(es, hash) && ByHash(es) && 0 < mid < |es|
    requires key == es[mid].hash + if es[mid].hash == es[mid - 1].hash then 1 else 0
    ensures Halved(Names(es), Names(es[..mid]), Names(es[mid..]), key, hash)
  {
    var left, right := es[..mid], es[mid..];
    assert left + right == es;
    NamesConcat(left, right);
    assert hash(es[mid].rec.name) % 2 == 0;
    assert Base(key) == es[mid].hash;
    forall i | 0 <= i < mid ensures hash(Names(left)[i].name) < key {
      assert left[i] == es[i];
      assert es[i].hash <= es[mid - 1].hash <= es[mid].hash;
    }
    forall i | 0 <= i < |right| ensures Base(key) <= hash(Names(right)[i].name) {
      assert right[i] == es[mid + i];
    }
  }

  /** Reads the valid records of a block. */
  method Collect(h: Heads, size: nat, hash: Hash) returns (es: seq<Item>)
    requires Tiled(h, 0, size)
    ensures es == Collected(h, 0, size, hash)
  {
    es := [];
    var de := 0;
    while de < size
      invariant de <= size && Tiled(h, de, size) && Collected(h, 0, size, hash) == es + Collected(h, de, size, hash)
      decreases size - de
    {
      hide Tiled, Collected;
      CollectedStep(h, de, size, hash);
      ghost var was := es;
      if h[de].inode != 0 && |h[de].name| != 0 { es := es + [Item(h[de], hash(h[de].name))]; }
      assert es == was + ItemOf(h[de], hash);
      Regroup(was, ItemOf(h[de], hash), Collected(h, de + h[de].len, size, hash));
      de := de + h[de].len;
    }
  }

  lemma {:induction false} Regroup(a: seq<Item>, b: seq<Item>, c: seq<Item>)
    ensures a + (b + c) == a + b + c
  {
  }

  lemma {:induction false} CollectedStep(h: Heads, off: nat, size: nat, hash: Hash)
    requires Tiled(h, off, size) && off < size
    ensures off in h && 0 < h[off].len && off + h[off].len <= size && Tiled(h, off + h[off].len, size)
    ensures Collected(h, off, size, hash) == ItemOf(h[off], hash) + Collected(h, off + h[off].len, size, hash)
  {
  }

  /** Writes the records over a block, one behind the other. */
  method WriteTiles(h: Heads, es: seq<Item>, size: nat) returns (g: Heads)
    requires Total(es) <= size
    ensures g == Tiles(h, es, 0, size)
  {
    hide Need, Total;
    g := h;
    var off: nat, i: nat := 0, 0;
    assert es[0..] == es;
    while i < |es|
      invariant i <= |es| && off + Total(es[i..]) <= size && Tiles(h, es, 0, size) == Tiles(g, es[i..], off, size)
      decreases |es| - i
    {
      ghost var rest := es[i..];
      PackStep(rest);
      assert rest[1..] == es[i + 1..] && rest[0] == es[i];
      var need := Need(|es[i].rec.name|);
      if i < |es| - 1 {
        g := g[off := es[i].rec.(len := need)];
      } else {
        g := g[off := es[i].rec.(len := size - off)];
      }
      off := off + need;
      i := i + 1;
    }
  }

  /** ext4_dir_dx_insert_entry. */
  function InsertSlot(slots: seq<Slot>, pos: nat, hash: nat, block: nat): (r: seq<Slot>)
    requires pos < |slots|
    ensures |r| == |slots| + 1
  {
    slots[..pos + 1] + [Slot(hash, block)] + slots[pos + 1..]
  }

  /** ext4_dir_dx_split_data, for a leaf whose records exceed half a block. */
  method SplitData(h: Heads, junk: Heads, size: nat, hash: Hash, slots: seq<Slot>, pos: nat, newBlock: nat)
    returns (left: Heads, right: Heads, key: nat, out: seq<Slot>)
    requires Even(hash) && Tiled(h, 0, size) && size % 4 == 0 && size >= 1024 && pos < |slots|
    requires forall i :: 0 <= i < |Live(h, 0, size)| ==> 0 < |Live(h, 0, size)[i].name| <= 255
    requires Total(Collected(h, 0, size, hash)) > size / 2
    ensures Tiled(left, 0, size) && Tiled(right, 0, size)
    ensures Halved(Live(h, 0, size), Live(left, 0, size), Live(right, 0, size), key, hash)
    ensures out == InsertSlot(slots, pos, key, newBlock)
  {
    hide Tiled, Live, Collected, Total, Good, Halved, Even, QuickSort.Sorted, QuickSort.TotalPreorder, ByHash,
      Names;
    var all := Collect(h, size, hash);
    CollectedOk(h, 0, size, hash);
    assert AllNamed(Live(h, 0, size));
    CollectedNames(h, 0, size, hash);
    var sort := new Item[|all|](i requires 0 <= i < |all| => all[i]);
    assert sort[..] == all;
    CompareIsOrder();
    QuickSort.Sort(sort, Compare);
    var es := sort[..];
    SortedByHash(es);
    PermTotal(all, es);
    PermGood(all, es, hash);
    PermNames(all, es);
    var mid, newHash := FindMiddle(es, size);
    ShortNames(all, es, Live(h, 0, size));
    MiddleInside(es, size, mid);
    var continued := if newHash == es[mid - 1].hash then 1 else 0;
    key := newHash + continued;
    HalvesOk(es, mid, key, hash);
    PartsFit(es, mid, size, hash);
    left := WriteTiles(h, es[..mid], size);
    TilesOk(h, es[..mid], 0, size, hash);
    right := WriteTiles(junk, es[mid..], size);
    TilesOk(junk, es[mid..], 0, size, hash);
    HalvedPerm(Names(es), Live(h, 0, size), Names(es[..mid]), Names(es[mid..]), key, hash);
    out := InsertSlot(slots, pos, key, newBlock);
  }

  lemma {:induction false} HalvedPerm(a: seq<Entry>, b: seq<Entry>, left: seq<Entry>, right: seq<Entry>, key: nat,
      hash: Hash)
    requires multiset(a) == multiset(b) && Halved(a, left, right, key, hash)
    ensures Halved(b, left, right, key, hash)
  {
  }

  lemma {:induction false} PartsFit(es: seq<Item>, mid: nat, size: nat, hash: Hash)
    requires 0 < mid < |es| && Total(es) <= size && Good(es, hash)
    ensures Total(es[..mid]) <= size && Total(es[mid..]) <= size && Good(es[..mid], hash) && Good(es[mid..], hash)
  {
    TotalConcat(es[..mid], es[mid..]);
    assert es == es[..mid] + es[mid..];
  }

  lemma {:induction false} PermNames(a: seq<Item>, b: seq<Item>)
    requires multiset(a) == multiset(b)
    ensures multiset(Names(a)) == multiset(Names(b))
    decreases |a|
  {
    if a == [] {
      assert |b| == |multiset(b)|;
    } else {
      var n := |a| - 1;
      var e := a[n];
      var k := PermStep(a, b);
      var rest := b[..k] + b[k + 1..];
      assert b == b[..k] + [e] + b[k + 1..] && a == a[..n] + [e];
      PermNames(a[..n], rest);
      NamesConcat(a[..n], [e]);
      NamesConcat(b[..k] + [e], b[k + 1..]);
      NamesConcat(b[..k], [e]);
      NamesConcat(b[..k], b[k + 1..]);
      assert multiset(Names(rest)) == multiset(Names(b[..k])) + multiset(Names(b[k + 1..]));
    }
  }

  lemma {:induction false} ShortNames(a: seq<Item>, b: seq<Item>, es: seq<Entry>)
    requires multiset(a) == multiset(b) && Names(a) == es && forall i :: 0 <= i < |es| ==> |es[i].name| <= 255
    ensures forall i :: 0 <= i < |b| ==> |b[i].rec.name| <= 255
  {
    forall i | 0 <= i < |b| ensures |b[i].rec.name| <= 255 {
      assert b[i] in multiset(b);
      assert b[i] in a;
      var k :| 0 <= k < |a| && a[k] == b[i];
      assert es[k].name == b[i].rec.name;
    }
  }
}
