/** The kfifo as an object: a byte ring updated in place, proved to be a bounded byte queue. */
module Kfifo {
  import opened Bits
  import opened KfifoRing

  /** The bytes of a ring from index out on, oldest first. */
  function Window(buf: Bytes, out: nat, len: nat): (w: Bytes)
    requires |buf| > 0
    ensures |w| == len
  {
    seq(len, j requires 0 <= j < len => buf[Slot(|buf|, out + j)])
  }

  /** Offset p is overwritten by a transfer of len bytes to index idx. */
  predicate Touched(size: nat, idx: nat, len: nat, p: nat)
    requires size > 0
  {
    var l := FirstPart(size, idx, len);
    And(idx, size - 1) <= p < And(idx, size - 1) + l || p < len - l
  }

  /** The buffer after len bytes of src were stored from index idx on. */
  ghost predicate Stored(a: Bytes, c: Bytes, idx: nat, src: Bytes, len: nat)
    requires |a| == |c| > 0 && len <= |src|
  {
    && (forall j :: 0 <= j < len ==> Place(|a|, idx, j) < |a| && c[Place(|a|, idx, j)] == src[j])
    && (forall p :: 0 <= p < |a| && !Touched(|a|, idx, len, p) ==> c[p] == a[p])
  }

  /** The two copies touch exactly the places of the transfer's bytes. */
  lemma {:induction false} TouchedPlace(size: nat, idx: nat, len: nat, p: nat) returns (j: nat)
    requires IsPow2(size) && len <= size && size > 0 && Touched(size, idx, len, p)
    ensures j < len && Place(size, idx, j) == p
  {
    MaskMod(size, idx);
    var at, l := And(idx, size - 1), FirstPart(size, idx, len);
    j := if at <= p < at + l then p - at else l + p;
  }

  lemma {:induction false} UnreadUntouched(size: nat, out: nat, used: nat, len: nat, k: nat)
    requires GoodSize(size) && size > 0 && used + len <= size && k < used
    ensures !Touched(size, Wrap(out + used), len, Slot(size, out + k))
  {
    hide Touched, Slot, Place, Wrap;
    var idx, p := Wrap(out + used), Slot(size, out + k);
    if Touched(size, idx, len, p) {
      var j := TouchedPlace(size, idx, len, p);
      PlaceIs(size, out + used, j);
      SlotsApart(size, out + k, out + used + j);
      assert false;
    }
  }

  /** Storing behind the used bytes appends to the window. */
  lemma {:induction false} StoredAppends(a: Bytes, c: Bytes, out: nat, used: nat, src: Bytes, len: nat)
    requires |a| == |c| && GoodSize(|a|) && |a| > 0 && len <= |src| && used + len <= |a|
    requires Stored(a, c, Wrap(out + used), src, len)
    ensures Window(c, out, used + len) == Window(a, out, used) + src[..len]
  {
    hide Touched, Slot, Place, GoodSize, Wrap;
    var w := Window(a, out, used) + src[..len];
    forall k | 0 <= k < used + len ensures Window(c, out, used + len)[k] == w[k] {
      if k < used {
        UnreadUntouched(|a|, out, used, len, k);
      } else {
        PlaceIs(|a|, out + used, k - used);
      }
    }
  }

  lemma {:induction false} SlotWraps(size: nat, x: nat, j: nat)
    requires GoodSize(size)
    ensures size > 0 && Slot(size, Wrap(x) + j) == Slot(size, x + j)
  {
    SizeDividesWord(size);
    ModAdd(Wrap(x), j, size);
    ModOfMod(x, WORD, size);
    ModAdd(x, j, size);
  }

  lemma {:induction false} WindowSplits(buf: Bytes, out: nat, len: nat, n: nat)
    requires GoodSize(|buf|) && |buf| > 0 && n <= len
    ensures Window(buf, out, len) == Window(buf, out, n) + Window(buf, Wrap(out + n), len - n)
  {
    hide Slot, GoodSize, Wrap;
    var w := Window(buf, out, n) + Window(buf, Wrap(out + n), len - n);
    forall k | 0 <= k < len ensures Window(buf, out, len)[k] == w[k] {
      if k >= n { SlotWraps(|buf|, out + n, k - n); }
    }
  }

  /** The two copies of a put store every byte in its place. */
  lemma {:induction false} HalvesStore(a: Bytes, b: Bytes, c: Bytes, idx: nat, src: Bytes, len: nat)
    requires |a| == |b| == |c| > 0 && IsPow2(|a|) && len <= |src| && len <= |a|
    requires b == Poked(a, And(idx, |a| - 1), src[..FirstPart(|a|, idx, len)])
    requires c == Poked(b, 0, src[FirstPart(|a|, idx, len)..len])
    ensures Stored(a, c, idx, src, len)
  {
    hide And, IsPow2;
    MaskMod(|a|, idx);
  }

  /** The two copies of a get read the window. */
  lemma {:induction false} HalvesRead(buf: Bytes, idx: nat, len: nat, data: Bytes)
    requires GoodSize(|buf|) && |buf| > 0 && len <= |buf| && Wrap(idx) == idx
    requires And(idx, |buf| - 1) + FirstPart(|buf|, idx, len) <= |buf|
    requires data == buf[And(idx, |buf| - 1)..][..FirstPart(|buf|, idx, len)]
                     + buf[..len - FirstPart(|buf|, idx, len)]
    ensures data == Window(buf, idx, len)
  {
    hide And, Slot, GoodSize;
    forall j | 0 <= j < len ensures data[j] == Window(buf, idx, len)[j] {
      PlaceIs(|buf|, idx, j);
    }
  }

  /** A memory block with src copied in at offset at. */
  function Poked(buf: Bytes, at: nat, src: Bytes): (r: Bytes)
    requires at + |src| <= |buf|
    ensures |r| == |buf|
  {
    buf[..at] + src + buf[at + |src|..]
  }

  class Fifo {
    const buffer: array<bv8>
    const size: nat
    var inIdx: nat
    var outIdx: nat

    ghost predicate Valid()
      reads this
    {
      && GoodSize(size) && buffer.Length == size && size > 0 && inIdx < WORD && outIdx < WORD
      && Len() <= size && Wrap(outIdx + Len()) == inIdx
    }

    function Len(): nat
      reads this
    {
      Wrap(inIdx - outIdx)
    }

    /** The queue, oldest byte first. */
    ghost function Contents(): Bytes
      requires Valid()
      reads this, buffer
    {
      Window(buffer[..], outIdx, Len())
    }

    /** kfifo_alloc: the size asked for is rounded up to a power of two. */
    constructor (asked: nat)
      requires asked <= 0x8000_0000
      ensures Valid() && fresh(buffer) && Contents() == [] && asked <= size && (asked > 0 ==> size < 2 * asked)
    {
      var n := asked;
      if asked == 0 || And(asked, asked - 1) != 0 {
        n := RoundUp(asked);
      } else {
        Pow2Test(asked);
      }
      size := n;
      buffer := new bv8[n];
      inIdx, outIdx := 0, 0;
    }

    method CopyIn(at: nat, src: Bytes)
      requires at + |src| <= buffer.Length
      modifies buffer
      ensures buffer[..] == Poked(old(buffer[..]), at, src)
    {
      var i: nat := 0;
      ghost var was := buffer[..];
      while i < |src|
        invariant i <= |src|
        invariant forall p :: 0 <= p < buffer.Length ==> buffer[p] == if at <= p < at + i then src[p - at] else was[p]
      {
        buffer[at + i] := src[i];
        i := i + 1;
      }
    }

    /** __kfifo_put: takes as many bytes as fit and appends them. */
    method Put(src: Bytes) returns (n: nat)
      requires Valid() && |src| < WORD
      modifies buffer, this`inIdx
      ensures Valid() && n == Min(|src|, size - old(Len()))
      ensures Contents() == old(Contents()) + src[..n]
    {
      hide And, FirstPart, Window, Stored, Wrap, GoodSize, IsPow2, Poked;
      SizeFits(size);
      ghost var used := Len();
      RoomIs(size, inIdx, outIdx);
      n := Min(|src|, Wrap(size - inIdx + outIdx));
      var at := And(inIdx, size - 1);
      var l := FirstPart(size, inIdx, n);
      ghost var a := buffer[..];
      CopyIn(at, src[..l]);
      ghost var b := buffer[..];
      CopyIn(0, src[l..n]);
      HalvesStore(a, b, buffer[..], inIdx, src, n);
      AddIn(inIdx, outIdx, n);
      StoredAppends(a, buffer[..], outIdx, used, src, n);
      inIdx := Wrap(inIdx + n);
    }

    /** __kfifo_get: removes as many bytes as asked for, or all. */
    method Get(want: nat) returns (data: Bytes)
      requires Valid() && want < WORD
      modifies this`outIdx
      ensures Valid() && |data| == Min(want, old(Len()))
      ensures old(Contents()) == data + Contents()
    {
      hide And, FirstPart, Wrap, GoodSize, IsPow2;
      SizeFits(size);
      var n := Min(want, Len());
      var l := FirstPart(size, outIdx, n);
      var at := And(outIdx, size - 1);
      data := buffer[..][at..][..l] + buffer[..n - l];
      WrapSmall(outIdx);
      HalvesRead(buffer[..], outIdx, n, data);
      WindowSplits(buffer[..], outIdx, Len(), n);
      AddOut(inIdx, outIdx, n);
      outIdx := Wrap(outIdx + n);
    }

    /** kfifo_get, under the lock: as Get, then an empty ring starts over at index 0. */
    method LockedGet(want: nat) returns (data: Bytes)
      requires Valid() && want < WORD
      modifies this`outIdx, this`inIdx
      ensures Valid() && |data| == Min(want, old(Len()))
      ensures old(Contents()) == data + Contents()
    {
      data := Get(want);
      if inIdx == outIdx {
        inIdx, outIdx := 0, 0;
      }
    }

    method Reset()
      requires Valid()
      modifies this`outIdx, this`inIdx
      ensures Valid() && Contents() == []
    {
      inIdx, outIdx := 0, 0;
    }
  }

  lemma {:induction false} WrapSmall(x: nat)
    requires x < WORD
    ensures Wrap(x) == x
  {
  }

  lemma {:induction false} SizeFits(size: nat)
    requires GoodSize(size)
    ensures size < WORD && IsPow2(size)
  {
  }

  /** The distance of two indices is their difference, one turn added if the writer has wrapped. */
  lemma {:induction false} Distance(i: nat, o: nat)
    requires i < WORD && o < WORD
    ensures Wrap(i - o) == if i >= o then i - o else i - o + WORD
  {
    hide Wrap;
    if i >= o { WrapTurns(i - o, 0, i - o); } else { WrapTurns(i - o, -1, i - o + WORD); }
  }

  /** An index moved forward by less than a turn. */
  lemma {:induction false} Forward(i: nat, n: nat)
    requires i < WORD && n < WORD
    ensures Wrap(i + n) == if i + n < WORD then i + n else i + n - WORD
  {
    hide Wrap;
    if i + n < WORD { WrapTurns(i + n, 0, i + n); } else { WrapTurns(i + n, 1, i + n - WORD); }
  }

  lemma {:induction false} RoomIs(size: nat, i: nat, o: nat)
    requires i < WORD && o < WORD && Wrap(i - o) <= size < WORD
    ensures Wrap(size - i + o) == size - Wrap(i - o)
  {
    hide Wrap;
    Distance(i, o);
    WrapTurns(size - i + o, if i >= o then 0 else 1, size - Wrap(i - o));
  }

  lemma {:induction false} AddIn(i: nat, o: nat, n: nat)
    requires i < WORD && o < WORD && Wrap(i - o) + n < WORD
    ensures Wrap(Wrap(i + n) - o) == Wrap(i - o) + n && Wrap(o + (Wrap(i - o) + n)) == Wrap(i + n) &&
            Wrap(o + Wrap(i - o)) == i
  {
    hide Wrap;
    Distance(i, o);
    Forward(i, n);
    Distance(Wrap(i + n), o);
    Forward(o, Wrap(i - o) + n);
    Forward(o, Wrap(i - o));
  }

  lemma {:induction false} AddOut(i: nat, o: nat, n: nat)
    requires i < WORD && o < WORD && n <= Wrap(i - o)
    ensures Wrap(i - Wrap(o + n)) == Wrap(i - o) - n && Wrap(Wrap(o + n) + (Wrap(i - o) - n)) == i
  {
    hide Wrap;
    Distance(i, o);
    Forward(o, n);
    Distance(i, Wrap(o + n));
    Forward(Wrap(o + n), Wrap(i - o) - n);
  }
}
