/** A linear directory block: variable-length records that tile the block, each giving the distance
    to the next. */
module DirBlockSpec {
  import opened Wrappers

  type Name = seq<bv8>

  // sizeof(struct ext4_fake_dir_entry)
  const HEADER: nat := 8
  // EXT4_DIRENTRY_DIR_CSUM, the type of the checksum tail
  const DIR_CSUM: nat := 0xDE

  datatype Rec = Rec(inode: nat, len: nat, typ: nat, name: Name)

  /** What a program can read as a record at each offset of the block. */
  type Heads = map<nat, Rec>

  datatype Entry = Entry(name: Name, inode: nat)

  /** The bytes a record for a name of n bytes needs, rounded up to a multiple of 4. */
  function Need(n: nat): (m: nat)
    ensures HEADER + n <= m < HEADER + n + 4 && m % 4 == 0
  {
    if n % 4 != 0 then HEADER + n + (4 - n % 4) else HEADER + n
  }

  predicate RecOk(r: Rec) {
    r.len >= HEADER && r.len % 4 == 0 && (r.inode != 0 ==> Need(|r.name|) <= r.len)
  }

  /** From offset off on, records follow each other exactly up to the end of the block. */
  predicate Tiled(h: Heads, off: nat, size: nat)
    decreases size - off
  {
    off == size ||
    (off < size && off in h && RecOk(h[off]) && off + h[off].len <= size && Tiled(h, off + h[off].len, size))
  }

  function EntryOf(r: Rec): seq<Entry> { if r.inode != 0 then [Entry(r.name, r.inode)] else [] }

  /** The directory entries of the block in order. */
  function Live(h: Heads, off: nat, size: nat): seq<Entry>
    requires Tiled(h, off, size)
    decreases size - off
  {
    if off == size then [] else EntryOf(h[off]) + Live(h, off + h[off].len, size)
  }

  lemma {:induction false} WalkStep(h: Heads, off: nat, size: nat)
    requires Tiled(h, off, size) && off < size
    ensures off in h && RecOk(h[off]) && off + h[off].len <= size && Tiled(h, off + h[off].len, size)
    ensures Live(h, off, size) == EntryOf(h[off]) + Live(h, off + h[off].len, size)
  {
  }

  lemma {:induction false} WalkCons(h: Heads, off: nat, size: nat)
    requires off < size && off in h && RecOk(h[off]) && off + h[off].len <= size && Tiled(h, off + h[off].len, size)
    ensures Tiled(h, off, size) && Live(h, off, size) == EntryOf(h[off]) + Live(h, off + h[off].len, size)
  {
  }

  /** Offset o starts a record of the walk from off. */
  predicate OnWalk(h: Heads, off: nat, size: nat, o: nat)
    requires Tiled(h, off, size)
    decreases size - off
  {
    off < size && (o == off || OnWalk(h, off + h[off].len, size, o))
  }

  /** Two memories agree at all offsets of [lo, hi). */
  ghost predicate Same(h: Heads, g: Heads, lo: nat, hi: nat) {
    forall o :: lo <= o < hi && o in h ==> o in g && g[o] == h[o]
  }

  /** A walk depends only on what it passes over. */
  lemma {:induction false} WalkSame(h: Heads, g: Heads, off: nat, size: nat)
    requires Tiled(h, off, size) && Same(h, g, off, size)
    ensures Tiled(g, off, size) && Live(g, off, size) == Live(h, off, size)
    decreases size - off
  {
    if off < size { WalkSame(h, g, off + h[off].len, size); }
  }

  lemma {:induction false} OnWalkBounds(h: Heads, off: nat, size: nat, o: nat)
    requires Tiled(h, off, size) && OnWalk(h, off, size, o)
    ensures off <= o < size && o in h && RecOk(h[o]) && o + h[o].len <= size && Tiled(h, o, size)
    ensures o > off ==> o >= off + h[off].len
    decreases size - off
  {
    if o != off { OnWalkBounds(h, off + h[off].len, size, o); }
  }

  // ---------------------------------------------------------------- finding

  datatype Found = At(off: nat) | Missing | Corrupt

  predicate Hit(r: Rec, name: Name) { r.inode != 0 && r.name == name }

  /** What the search loop can read without leaving the records it knows. */
  predicate Readable(h: Heads, off: nat, size: nat)
    decreases size - off
  {
    off >= size || (off in h && (h[off].len == 0 || Readable(h, off + h[off].len, size)))
  }

  /** ext4_dir_find_in_block from offset off. */
  function FindFrom(h: Heads, off: nat, size: nat, name: Name): Found
    requires Readable(h, off, size)
    decreases size - off
  {
    if off >= size || off + |name| > size then Missing
    else if Hit(h[off], name) then At(off)
    else if h[off].len == 0 then Corrupt
    else FindFrom(h, off + h[off].len, size, name)
  }

  lemma {:induction false} TiledReadable(h: Heads, off: nat, size: nat)
    requires Tiled(h, off, size)
    ensures Readable(h, off, size)
    decreases size - off
  {
    if off < size { TiledReadable(h, off + h[off].len, size); }
  }

  /** The first entry of that name. */
  function Lookup(es: seq<Entry>, name: Name): Option<nat> {
    if es == [] then None else if es[0].name == name then Some(es[0].inode) else Lookup(es[1..], name)
  }

  lemma {:induction false} LookupOf(r: Rec, rest: seq<Entry>, name: Name)
    ensures Lookup(EntryOf(r) + rest, name) == if Hit(r, name) then Some(r.inode) else Lookup(rest, name)
  {
    var es := EntryOf(r) + rest;
    if r.inode != 0 { assert es[1..] == rest; } else { assert es == rest; }
  }

  /** The search gives the record of the first entry of that name, and misses exactly when the block
      has none; stopping early near the end loses nothing. */
  lemma {:induction false} FindIsLookup(h: Heads, off: nat, size: nat, name: Name)
    requires Tiled(h, off, size)
    ensures Readable(h, off, size)
    ensures var found := Lookup(Live(h, off, size), name);
            match FindFrom(h, off, size, name)
            case At(o) => OnWalk(h, off, size, o) && o in h && Hit(h[o], name) && found == Some(h[o].inode)
            case Missing => found == None
            case Corrupt => false
    decreases size - off
  {
    TiledReadable(h, off, size);
    if off < size {
      var next := off + h[off].len;
      LookupOf(h[off], Live(h, next, size), name);
      if off + |name| > size {
        NearEnd(h, next, size, name);
      } else {
        FindIsLookup(h, next, size, name);
      }
    }
  }

  lemma {:induction false} NearEnd(h: Heads, off: nat, size: nat, name: Name)
    requires Tiled(h, off, size) && off + |name| > size
    ensures Lookup(Live(h, off, size), name) == None
    decreases size - off
  {
    if off < size {
      NearEnd(h, off + h[off].len, size, name);
      LookupOf(h[off], Live(h, off + h[off].len, size), name);
    }
  }

  // ---------------------------------------------------------------- inserting

  predicate Reusable(r: Rec, need: nat) { r.inode == 0 && r.typ != DIR_CSUM && r.len >= need }

  predicate Splittable(r: Rec, need: nat) { r.inode != 0 && r.len - Need(|r.name|) >= need }

  /** ext4_dir_try_insert_entry from offset off; None is ENOSPC. */
  function InsertFrom(h: Heads, off: nat, size: nat, inode: nat, typ: nat, name: Name): Option<Heads>
    requires Tiled(h, off, size)
    decreases size - off
  {
    if off == size then None
    else
      var r := h[off];
      if Reusable(r, Need(|name|)) then Some(h[off := Rec(inode, r.len, typ, name)])
      else if Splittable(r, Need(|name|)) then
        var sz := Need(|r.name|);
        Some(h[off := r.(len := sz)][off + sz := Rec(inode, r.len - sz, typ, name)])
      else InsertFrom(h, off + r.len, size, inode, typ, name)
  }

  /** es with one more entry, somewhere. */
  ghost predicate Added(es: seq<Entry>, more: seq<Entry>, e: Entry) {
    exists k :: 0 <= k <= |es| && more == es[..k] + [e] + es[k..]
  }

  lemma {:induction false} AddedBehind(front: seq<Entry>, es: seq<Entry>, more: seq<Entry>, e: Entry)
    requires Added(es, more, e)
    ensures Added(front + es, front + more, e)
  {
    var k :| 0 <= k <= |es| && more == es[..k] + [e] + es[k..];
    var all, m := front + es, |front| + k;
    assert all[..m] == front + es[..k] && all[m..] == es[k..];
    assert front + more == all[..m] + [e] + all[m..];
  }

  /** Some record of the walk has room for a name of n bytes. */
  predicate HasRoom(h: Heads, off: nat, size: nat, n: nat)
    requires Tiled(h, off, size)
    decreases size - off
  {
    off < size && (Reusable(h[off], Need(n)) || Splittable(h[off], Need(n)) || HasRoom(h, off + h[off].len, size, n))
  }

  /** Inserting succeeds exactly when some record has room; it keeps the tiling, adds exactly the new
      entry and touches nothing before off. */
  lemma {:induction false} InsertOk(h: Heads, off: nat, size: nat, inode: nat, typ: nat, name: Name)
    requires Tiled(h, off, size) && inode != 0
    ensures InsertFrom(h, off, size, inode, typ, name).Some? <==> HasRoom(h, off, size, |name|)
    ensures InsertFrom(h, off, size, inode, typ, name).Some? ==>
              var g := InsertFrom(h, off, size, inode, typ, name).value;
              Tiled(g, off, size) && Same(h, g, 0, off) &&
                Added(Live(h, off, size), Live(g, off, size), Entry(name, inode))
    decreases size - off
  {
    if off < size {
      var r := h[off];
      if Reusable(r, Need(|name|)) {
        InsertReuses(h, off, size, inode, typ, name);
      } else if Splittable(r, Need(|name|)) {
        InsertSplits(h, off, size, inode, typ, name);
      } else {
        InsertOk(h, off + r.len, size, inode, typ, name);
        if InsertFrom(h, off, size, inode, typ, name).Some? {
          var g := InsertFrom(h, off, size, inode, typ, name).value;
          assert g[off] == r;
          AddedBehind(EntryOf(r), Live(h, off + r.len, size), Live(g, off + r.len, size), Entry(name, inode));
        }
      }
    }
  }

  lemma {:induction false} InsertReuses(h: Heads, off: nat, size: nat, inode: nat, typ: nat, name: Name)
    requires Tiled(h, off, size) && inode != 0 && off < size && Reusable(h[off], Need(|name|))
    ensures var g := h[off := Rec(inode, h[off].len, typ, name)];
            Tiled(g, off, size) && Same(h, g, 0, off) &&
              Added(Live(h, off, size), Live(g, off, size), Entry(name, inode))
  {
    hide Tiled, Live, Need;
    WalkStep(h, off, size);
    var g := h[off := Rec(inode, h[off].len, typ, name)];
    WalkSame(h, g, off + h[off].len, size);
    WalkCons(g, off, size);
    var es := Live(h, off, size);
    assert Live(g, off, size) == es[..0] + [Entry(name, inode)] + es[0..];
  }

  lemma {:induction false} InsertSplits(h: Heads, off: nat, size: nat, inode: nat, typ: nat, name: Name)
    requires Tiled(h, off, size) && inode != 0 && off < size && Splittable(h[off], Need(|name|))
    ensures var sz := Need(|h[off].name|);
            var g := h[off := h[off].(len := sz)][off + sz := Rec(inode, h[off].len - sz, typ, name)];
            Tiled(g, off, size) && Same(h, g, 0, off) &&
              Added(Live(h, off, size), Live(g, off, size), Entry(name, inode))
  {
    hide Tiled, Live, Need;
    WalkStep(h, off, size);
    var r, sz := h[off], Need(|h[off].name|);
    var next := off + r.len;
    var g := h[off := r.(len := sz)][off + sz := Rec(inode, r.len - sz, typ, name)];
    WalkSame(h, g, next, size);
    WalkCons(g, off + sz, size);
    WalkCons(g, off, size);
    var e, es, tail := Entry(name, inode), Live(h, off, size), Live(h, next, size);
    assert EntryOf(r) + ([e] + tail) == es[..1] + [e] + es[1..];
  }

  // ---------------------------------------------------------------- removing

  /** The record just before offset pos on the walk from off. */
  function Before(h: Heads, off: nat, size: nat, pos: nat): nat
    requires Tiled(h, off, size) && OnWalk(h, off, size, pos) && pos != off
    decreases size - off
  {
    if off + h[off].len == pos then off
    else Before(h, off + h[off].len, size, pos)
  }

  /** Freeing the record at pos, and giving its bytes to the record before it at pre. */
  function Merged(h: Heads, pre: nat, pos: nat): Heads
    requires pre in h && pos in h
  {
    var g := h[pos := h[pos].(inode := 0)];
    g[pre := g[pre].(len := g[pre].len + g[pos].len)]
  }

  /** ext4_dir_remove_entry on the found record. */
  function RemoveAt(h: Heads, size: nat, pos: nat): Heads
    requires Tiled(h, 0, size) && OnWalk(h, 0, size, pos)
  {
    OnWalkBounds(h, 0, size, pos);
    if pos == 0 then h[0 := h[0].(inode := 0)]
    else
      BeforeOk(h, 0, size, pos);
      Merged(h, Before(h, 0, size, pos), pos)
  }

  lemma {:induction false} BeforeOk(h: Heads, off: nat, size: nat, pos: nat)
    requires Tiled(h, off, size) && OnWalk(h, off, size, pos) && pos != off
    ensures var p := Before(h, off, size, pos);
            OnWalk(h, off, size, p) && p in h && p < pos && p + h[p].len == pos && pos in h
    decreases size - off
  {
    OnWalkBounds(h, off, size, pos);
    if off + h[off].len != pos { BeforeOk(h, off + h[off].len, size, pos); }
  }

  /** How many entries come before offset pos. */
  function LiveBefore(h: Heads, off: nat, size: nat, pos: nat): nat
    requires Tiled(h, off, size) && OnWalk(h, off, size, pos)
    decreases size - off
  {
    if off == pos then 0 else |EntryOf(h[off])| + LiveBefore(h, off + h[off].len, size, pos)
  }

  function Without(es: seq<Entry>, k: nat): seq<Entry>
    requires k < |es|
  {
    es[..k] + es[k + 1..]
  }

  /** The merge keeps the tiling and deletes exactly the entry of the record at pos. */
  lemma {:induction false} MergedOk(h: Heads, off: nat, size: nat, pos: nat)
    requires Tiled(h, off, size) && OnWalk(h, off, size, pos) && pos != off && pos in h && h[pos].inode != 0
    requires Before(h, off, size, pos) in h
    ensures var g := Merged(h, Before(h, off, size, pos), pos);
            var k := LiveBefore(h, off, size, pos);
            && Tiled(g, off, size) && k < |Live(h, off, size)|
            && Live(h, off, size)[k] == Entry(h[pos].name, h[pos].inode)
            && Live(g, off, size) == Without(Live(h, off, size), k)
    decreases size - off
  {
    hide Without, Merged;
    OnWalkBounds(h, off, size, pos);
    BeforeOk(h, off, size, pos);
    var next := off + h[off].len;
    if next == pos {
      MergedHere(h, off, size, pos);
    } else {
      BeforeOk(h, next, size, pos);
      OnWalkBounds(h, next, size, Before(h, next, size, pos));
      MergedOk(h, next, size, pos);
      MergedLater(h, off, size, pos, Before(h, next, size, pos), LiveBefore(h, next, size, pos));
    }
  }

  /** A merge further on leaves the record at off alone. */
  lemma {:induction false} MergedLater(h: Heads, off: nat, size: nat, pos: nat, pre: nat, k: nat)
    requires Tiled(h, off, size) && off < size && pre in h && pos in h && off < pre < pos
    requires var next := off + h[off].len;
             var g := Merged(h, pre, pos);
             Tiled(g, next, size) && k < |Live(h, next, size)| &&
               Live(g, next, size) == Without(Live(h, next, size), k)
    ensures var g := Merged(h, pre, pos);
            var m := |EntryOf(h[off])| + k;
            && Tiled(g, off, size) && m < |Live(h, off, size)| &&
               Live(h, off, size)[m] == Live(h, off + h[off].len, size)[k]
            && Live(g, off, size) == Without(Live(h, off, size), m)
  {
    hide Tiled, Live, Without, RecOk;
    WalkStep(h, off, size);
    var g := Merged(h, pre, pos);
    assert g[off] == h[off];
    WalkCons(g, off, size);
    WithoutBehind(EntryOf(h[off]), Live(h, off + h[off].len, size), k);
  }

  lemma {:induction false} WithoutBehind(front: seq<Entry>, es: seq<Entry>, k: nat)
    requires k < |es|
    ensures Without(front + es, |front| + k) == front + Without(es, k)
  {
  }

  lemma {:induction false} MergedHere(h: Heads, off: nat, size: nat, pos: nat)
    requires Tiled(h, off, size) && off < size && pos == off + h[off].len && pos < size && pos in h &&
             h[pos].inode != 0
    ensures var g := Merged(h, off, pos);
            var k := |EntryOf(h[off])|;
            && Tiled(g, off, size) && k < |Live(h, off, size)|
            && Live(h, off, size)[k] == Entry(h[pos].name, h[pos].inode)
            && Live(g, off, size) == Without(Live(h, off, size), k)
  {
    hide Tiled, Live, Need;
    WalkStep(h, off, size);
    WalkStep(h, pos, size);
    var g := Merged(h, off, pos);
    var after := pos + h[pos].len;
    WalkSame(h, g, after, size);
    WalkCons(g, off, size);
    assert EntryOf(g[off]) == EntryOf(h[off]);
  }

  lemma {:induction false} RemoveOk(h: Heads, size: nat, pos: nat)
    requires Tiled(h, 0, size) && OnWalk(h, 0, size, pos) && pos in h && h[pos].inode != 0
    ensures var k := LiveBefore(h, 0, size, pos);
            && Tiled(RemoveAt(h, size, pos), 0, size) && k < |Live(h, 0, size)|
            && Live(h, 0, size)[k] == Entry(h[pos].name, h[pos].inode)
            && Live(RemoveAt(h, size, pos), 0, size) == Without(Live(h, 0, size), k)
  {
    if pos == 0 {
      WalkSame(h, RemoveAt(h, size, 0), h[0].len, size);
    } else {
      BeforeOk(h, 0, size, pos);
      MergedOk(h, 0, size, pos);
    }
  }
}
