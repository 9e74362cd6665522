/** Bitmap blocks: searching for a clear bit and clearing a range. */
module Bitmap {
  import opened Wrappers

  /** The bits of a bitmap block, true for used. */
  type Flags = seq<bool>

  /** The first clear bit of [lo, hi), hi if there is none. */
  function FirstClear(b: Flags, lo: nat, hi: nat): (i: nat)
    requires lo <= hi <= |b|
    ensures lo <= i <= hi && (i < hi ==> !b[i]) && forall k :: lo <= k < i ==> b[k]
    decreases hi - lo
  {
    if lo == hi || !b[lo] then lo else FirstClear(b, lo + 1, hi)
  }

  lemma {:induction false} FirstClearAt(b: Flags, lo: nat, hi: nat, i: nat)
    requires lo <= i <= hi <= |b| && (i < hi ==> !b[i]) && forall k :: lo <= k < i ==> b[k]
    ensures FirstClear(b, lo, hi) == i
  {
  }

  /** The next multiple of 8. */
  function Align8(i: nat): (a: nat)
    ensures i <= a < i + 8 && a % 8 == 0
  {
    if i % 8 == 0 then i else i + (8 - i % 8)
  }

  /** What ext4_bmap_bit_find_clr reports: in the bits before the first byte boundary it answers with
      the start of the search instead of the bit it found. */
  function Found(b: Flags, sbit: nat, ebit: nat): Option<nat>
    requires sbit <= ebit <= |b|
  {
    var i := FirstClear(b, sbit, ebit);
    if i == ebit then None else if i < Align8(sbit) then Some(sbit) else Some(i)
  }

  /** The reported bit is clear exactly when the search starts at a clear bit or the bits up to the byte
      boundary are all set. */
  lemma {:induction false} FoundIsClear(b: Flags, sbit: nat, ebit: nat)
    requires sbit <= ebit <= |b| && Found(b, sbit, ebit).Some?
    ensures Found(b, sbit, ebit).value < ebit
    ensures !b[Found(b, sbit, ebit).value] <==> !b[sbit] || FirstClear(b, sbit, ebit) >= Align8(sbit)
    ensures !b[Found(b, sbit, ebit).value] ==> Found(b, sbit, ebit).value == FirstClear(b, sbit, ebit)
  {
    if !b[sbit] { FirstClearAt(b, sbit, ebit, sbit); }
  }

  /** A search from bit 1 over one used and one clear bit reports the used one. */
  lemma {:induction false} FoundExample()
    ensures var b := [true, true, false, true]; Found(b, 1, 4) == Some(1) && b[1]
  {
    FirstClearAt([true, true, false, true], 1, 4, 2);
  }

  /** A whole byte is in use. */
  predicate FullByte(b: Flags, at: nat)
    requires at + 8 <= |b|
  {
    forall k :: at <= k < at + 8 ==> b[k]
  }

  method FindClear(b: Flags, sbit: nat, ebit: nat) returns (r: Option<nat>)
    requires sbit <= ebit <= |b|
    ensures r == Found(b, sbit, ebit)
  {
    var bcnt := ebit - sbit;
    var i := sbit;
    while i % 8 != 0
      invariant sbit <= i <= Align8(sbit) && bcnt == ebit - i >= 0 && forall k :: sbit <= k < i ==> b[k]
      decreases Align8(sbit) - i
    {
      if bcnt == 0 {
        FirstClearAt(b, sbit, ebit, ebit);
        return None;
      }
      if !b[i] {
        FirstClearAt(b, sbit, ebit, i);
        return Some(sbit);
      }
      i := i + 1;
      bcnt := bcnt - 1;
    }
    var base := i;
    while bcnt >= 8
      invariant Align8(sbit) <= base && base + bcnt == ebit && bcnt >= 0 && forall k :: sbit <= k < base ==> b[k]
      decreases bcnt
    {
      if !FullByte(b, base) {
        i := 0;
        while i < 8
          invariant 0 <= i <= 8 && forall k :: sbit <= k < base + i ==> b[k]
        {
          if !b[base + i] {
            FirstClearAt(b, sbit, ebit, base + i);
            return Some(base + i);
          }
          i := i + 1;
        }
      }
      bcnt := bcnt - 8;
      base := base + 8;
    }
    i := 0;
    while i < bcnt
      invariant 0 <= i <= bcnt && forall k :: sbit <= k < base + i ==> b[k]
    {
      if !b[base + i] {
        FirstClearAt(b, sbit, ebit, base + i);
        return Some(base + i);
      }
      i := i + 1;
    }
    FirstClearAt(b, sbit, ebit, ebit);
    return None;
  }

  /** ext4_bmap_bits_free: clears the bits of a range and no others, bytewise in the middle. */
  method BitsFree(b: array<bool>, sbit: nat, count: nat)
    requires sbit + count <= b.Length
    modifies b
    ensures forall k :: 0 <= k < b.Length ==> b[k] == if sbit <= k < sbit + count then false else old(b[k])
  {
    var i, bcnt := sbit, count;
    while i % 8 != 0
      invariant sbit <= i && i + bcnt == sbit + count && bcnt >= 0
      invariant forall k :: 0 <= k < b.Length ==> b[k] == if sbit <= k < i then false else old(b[k])
      decreases bcnt
    {
      if bcnt == 0 { return; }
      b[i] := false;
      bcnt := bcnt - 1;
      i := i + 1;
    }
    var base := i;
    while bcnt >= 8
      invariant sbit <= base && base + bcnt == sbit + count && bcnt >= 0
      invariant forall k :: 0 <= k < b.Length ==> b[k] == if sbit <= k < base then false else old(b[k])
      decreases bcnt
    {
      forall k | base <= k < base + 8 { b[k] := false; }
      bcnt := bcnt - 8;
      base := base + 8;
    }
    i := 0;
    while i < bcnt
      invariant 0 <= i <= bcnt
      invariant forall k :: 0 <= k < b.Length ==> b[k] == if sbit <= k < base + i then false else old(b[k])
    {
      b[base + i] := false;
      i := i + 1;
    }
  }
}
