/** One directory block updated in place: a finite map from names to inodes. */
module DirBlock {
  import opened Wrappers
  import opened DirBlockSpec

  /** No name occurs twice. */
  ghost predicate NamesApart(es: seq<Entry>) {
    forall i, j :: 0 <= i < j < |es| ==> es[i].name != es[j].name
  }

  lemma {:induction false} LookupHas(es: seq<Entry>, k: nat)
    requires NamesApart(es) && k < |es|
    ensures Lookup(es, es[k].name) == Some(es[k].inode)
    decreases k
  {
    if k > 0 {
      assert es[1..][k - 1] == es[k];
      LookupHas(es[1..], k - 1);
    }
  }

  lemma {:induction false} LookupNone(es: seq<Entry>, name: Name)
    ensures Lookup(es, name) == None <==> forall k :: 0 <= k < |es| ==> es[k].name != name
    decreases |es|
  {
    if es != [] {
      LookupNone(es[1..], name);
      assert forall k :: 0 < k < |es| ==> es[k] == es[1..][k - 1];
    }
  }

  lemma {:induction false} LookupAround(a: seq<Entry>, e: seq<Entry>, b: seq<Entry>, name: Name)
    requires forall k :: 0 <= k < |e| ==> e[k].name != name
    ensures Lookup(a + e + b, name) == Lookup(a + b, name)
    decreases |a| + |e|
  {
    if a != [] {
      assert (a + e + b)[1..] == a[1..] + e + b && (a + b)[1..] == a[1..] + b;
      LookupAround(a[1..], e, b, name);
    } else if e != [] {
      assert (a + e + b)[1..] == a + e[1..] + b;
      LookupAround(a, e[1..], b, name);
    } else {
      assert a + e + b == a + b;
    }
  }

  lemma {:induction false} AddedApart(es: seq<Entry>, k: nat, e: Entry)
    requires k <= |es| && NamesApart(es) && forall i :: 0 <= i < |es| ==> es[i].name != e.name
    ensures NamesApart(es[..k] + [e] + es[k..])
  {
    var more := es[..k] + [e] + es[k..];
    forall i, j | 0 <= i < j < |more| ensures more[i].name != more[j].name {
      assert i != k ==> more[i] == es[if i < k then i else i - 1];
      assert j != k ==> more[j] == es[if j < k then j else j - 1];
    }
  }

  /** Adding an entry under a new name adds it to the map. */
  lemma {:induction false} AddedLookup(es: seq<Entry>, more: seq<Entry>, e: Entry, name: Name)
    requires Added(es, more, e) && Lookup(es, e.name) == None && NamesApart(es)
    ensures NamesApart(more)
    ensures Lookup(more, name) == if name == e.name then Some(e.inode) else Lookup(es, name)
  {
    hide Lookup, NamesApart;
    var k :| 0 <= k <= |es| && more == es[..k] + [e] + es[k..];
    LookupNone(es, e.name);
    AddedApart(es, k, e);
    if name == e.name {
      assert more[k] == e;
      LookupHas(more, k);
    } else {
      LookupAround(es[..k], [e], es[k..], name);
      assert es == es[..k] + es[k..];
    }
  }

  /** Deleting the entry of a name deletes it from the map. */
  lemma {:induction false} WithoutLookup(es: seq<Entry>, k: nat, name: Name)
    requires NamesApart(es) && k < |es|
    ensures NamesApart(Without(es, k))
    ensures Lookup(Without(es, k), name) == if name == es[k].name then None else Lookup(es, name)
  {
    var less := Without(es, k);
    assert forall i :: 0 <= i < |less| ==> less[i] == if i < k then es[i] else es[i + 1];
    if name == es[k].name {
      LookupNone(less, name);
    } else {
      LookupAround(es[..k], [es[k]], es[k + 1..], name);
      assert es == es[..k] + [es[k]] + es[k + 1..];
    }
  }

  /** ext4_dir_find_in_block. */
  method FindInBlock(h: Heads, size: nat, name: Name) returns (r: Found)
    requires Readable(h, 0, size)
    ensures r == FindFrom(h, 0, size, name)
  {
    var de := 0;
    while de < size
      invariant Readable(h, de, size) && FindFrom(h, 0, size, name) == FindFrom(h, de, size, name)
      decreases size - de
    {
      if de + |name| > size { break; }
      if h[de].inode != 0 && |h[de].name| == |name| && h[de].name == name { return At(de); }
      if h[de].len == 0 { return Corrupt; }
      de := de + h[de].len;
    }
    return Missing;
  }

  /** One record of the insertion. */
  lemma {:induction false} InsertStep(h: Heads, off: nat, size: nat, inode: nat, typ: nat, name: Name)
    requires Tiled(h, off, size) && off < size && off in h && off + h[off].len <= size &&
             Tiled(h, off + h[off].len, size)
    ensures var r, need, rest := h[off], Need(|name|), InsertFrom(h, off + h[off].len, size, inode, typ, name);
            InsertFrom(h, off, size, inode, typ, name) ==
            if Reusable(r, need) then Some(h[off := Rec(inode, r.len, typ, name)])
            else if Splittable(r, need) then
              var sz := Need(|r.name|);
              Some(h[off := r.(len := sz)][off + sz := Rec(inode, r.len - sz, typ, name)])
            else rest
    ensures h[off].len > 0
  {
  }

  lemma {:induction false} InsertEnd(h: Heads, size: nat, inode: nat, typ: nat, name: Name)
    requires Tiled(h, size, size)
    ensures InsertFrom(h, size, size, inode, typ, name) == None
  {
  }

  class Block {
    var heads: Heads
    const size: nat

    /** The records tile the block and no name is there twice. */
    ghost predicate Valid()
      reads this
    {
      Tiled(heads, 0, size) && NamesApart(Live(heads, 0, size))
    }

    ghost function Entries(): seq<Entry>
      requires Tiled(heads, 0, size)
      reads this
    {
      Live(heads, 0, size)
    }

    /** A fresh block with one entry, as the linear code appends it. */
    constructor (size: nat, inode: nat, typ: nat, name: Name)
      requires size % 4 == 0 && Need(|name|) <= size && inode != 0
      ensures Valid() && this.size == size && Entries() == [Entry(name, inode)]
    {
      this.size := size;
      heads := map[0 := Rec(inode, size, typ, name)];
      new;
      WalkCons(heads, 0, size);
    }

    method Find(name: Name) returns (r: Found)
      requires Readable(heads, 0, size)
      ensures r == FindFrom(heads, 0, size, name)
      ensures Valid() ==>
                match r
                case At(o) => o in heads && Hit(heads[o], name) && Lookup(Entries(), name) == Some(heads[o].inode)
                case Missing => Lookup(Entries(), name) == None
                case Corrupt => false
    {
      if Valid() { FindIsLookup(heads, 0, size, name); }
      r := FindInBlock(heads, size, name);
    }

    /** False is ENOSPC.  A name that is already there is entered a second time; it is the caller who
        looks first. */
    method TryInsert(inode: nat, typ: nat, name: Name) returns (ok: bool)
      requires Tiled(heads, 0, size) && inode != 0
      modifies this
      ensures Tiled(heads, 0, size) && (ok <==> old(HasRoom(heads, 0, size, |name|)))
      ensures !ok ==> heads == old(heads)
      ensures ok ==> Added(old(Entries()), Entries(), Entry(name, inode))
      ensures ok && old(Valid() && Lookup(Entries(), name) == None) ==>
                && Valid()
                && forall n :: Lookup(Entries(), n) == if n == name then Some(inode) else Lookup(old(Entries()), n)
    {
      hide Live, Lookup, NamesApart, Added, Tiled, InsertFrom, HasRoom, Need, RecOk;
      InsertOk(heads, 0, size, inode, typ, name);
      var needed := Need(|name|);
      var start := 0;
      ghost var goal := InsertFrom(heads, 0, size, inode, typ, name);
      ok := false;
      while start < size && !ok
        invariant start <= size
        invariant !ok ==>
                    heads == old(heads) && Tiled(heads, start, size) &&
                      goal == InsertFrom(heads, start, size, inode, typ, name)
        invariant ok ==> goal == Some(heads)
        decreases size - start, !ok
      {
        WalkStep(heads, start, size);
        InsertStep(heads, start, size, inode, typ, name);
        var r := heads[start];
        if r.inode == 0 && r.typ != DIR_CSUM && r.len >= needed {
          heads := heads[start := Rec(inode, r.len, typ, name)];
          ok := true;
        } else if r.inode != 0 && r.len - Need(|r.name|) >= needed {
          var sz := Need(|r.name|);
          var free := r.len - sz;
          heads := heads[start := r.(len := sz)];
          heads := heads[start + sz := Rec(inode, free, typ, name)];
          ok := true;
        } else {
          start := start + r.len;
        }
      }
      if !ok { InsertEnd(heads, size, inode, typ, name); }
      if ok && old(Valid() && Lookup(Entries(), name) == None) {
        AddedNames(old(Entries()), Entries(), Entry(name, inode));
      }
    }

    /** False is ENOENT. */
    method Remove(name: Name) returns (ok: bool)
      requires Valid()
      modifies this
      ensures Valid() && (ok <==> old(Lookup(Entries(), name)) != None)
      ensures !ok ==> heads == old(heads)
      ensures forall n :: Lookup(Entries(), n) == if n == name then None else Lookup(old(Entries()), n)
    {
      hide Before, EntryOf, FindFrom, Hit, OnWalk, Live, Lookup, Need, RecOk, Tiled;
      TiledReadable(heads, 0, size);
      FindIsLookup(heads, 0, size, name);
      var r := Find(name);
      if !r.At? { return false; }
      var pos := r.off;
      ghost var h0 := heads;
      OnWalkBounds(h0, 0, size, pos);
      heads := heads[pos := heads[pos].(inode := 0)];
      if pos != 0 {
        var pre := Predecessor(heads, size, pos, h0);
        BeforeOk(h0, 0, size, pos);
        heads := heads[pre := heads[pre].(len := heads[pre].len + heads[pos].len)];
      }
      ok := true;
      RemovedNames(h0, heads, size, pos);
    }
  }

  /** Walks from the start of the block to the record that ends where the one at pos begins. */
  method Predecessor(h: Heads, size: nat, pos: nat, ghost h0: Heads) returns (offset: nat)
    requires Tiled(h0, 0, size) && OnWalk(h0, 0, size, pos) && pos != 0
    requires forall o :: o in h0 ==> o in h && h[o].len == h0[o].len
    ensures offset == Before(h0, 0, size, pos)
  {
    OnWalkBounds(h0, 0, size, pos);
    offset := 0;
    var deLen := h[0].len;
    while offset + deLen < pos
      invariant offset < pos && Tiled(h0, offset, size) && OnWalk(h0, offset, size, pos)
      invariant offset in h0 && h0[offset].len == deLen
      invariant Before(h0, 0, size, pos) == Before(h0, offset, size, pos)
      decreases pos - offset
    {
      offset := offset + h[offset].len;
      OnWalkBounds(h0, offset, size, pos);
      deLen := h[offset].len;
    }
    OnWalkBounds(h0, offset, size, pos);
  }

  lemma {:induction false} AddedNames(es: seq<Entry>, more: seq<Entry>, e: Entry)
    requires Added(es, more, e) && Lookup(es, e.name) == None && NamesApart(es)
    ensures NamesApart(more)
    ensures forall n :: Lookup(more, n) == if n == e.name then Some(e.inode) else Lookup(es, n)
  {
    hide Added, Lookup, NamesApart;
    AddedLookup(es, more, e, e.name);
    forall n ensures Lookup(more, n) == if n == e.name then Some(e.inode) else Lookup(es, n) {
      AddedLookup(es, more, e, n);
    }
  }

  lemma {:induction false} RemovedNames(h: Heads, g: Heads, size: nat, pos: nat)
    requires Tiled(h, 0, size) && OnWalk(h, 0, size, pos) && pos in h && h[pos].inode != 0 &&
             NamesApart(Live(h, 0, size))
    requires g == RemoveAt(h, size, pos)
    ensures Tiled(g, 0, size) && NamesApart(Live(g, 0, size))
    ensures forall n :: Lookup(Live(g, 0, size), n) == if n == h[pos].name then None else Lookup(Live(h, 0, size), n)
  {
    hide RemoveAt, Live, Tiled;
    RemoveOk(h, size, pos);
    var es, k := Live(h, 0, size), LiveBefore(h, 0, size, pos);
    forall n ensures NamesApart(Live(g, 0, size)) &&
      Lookup(Live(g, 0, size), n) == if n == h[pos].name then None else Lookup(es, n) {
      WithoutLookup(es, k, n);
    }
  }
}
