/** Allocation and release of inode numbers. */
module InodeAlloc {
  import opened Wrappers
  import opened Bits
  import opened Bitmap
  import opened BitGroups

  /** ext4_ialloc_get_bgid_of_inode. */
  function GroupOf(perGroup: nat, inode: nat): nat
    requires perGroup > 0 && inode > 0
  {
    DivMod(inode - 1, perGroup);
    (inode - 1) / perGroup
  }

  /** ext4_ialloc_inode_to_bgidx. */
  function IndexOf(perGroup: nat, inode: nat): (i: nat)
    requires perGroup > 0 && inode > 0
    ensures i < perGroup
  {
    (inode - 1) % perGroup
  }

  /** ext4_ialloc_bgidx_to_inode. */
  function InodeOf(perGroup: nat, g: nat, i: nat): nat { g * perGroup + (i + 1) }

  /** Inode numbers and positions in groups determine each other. */
  lemma {:induction false} InodeRoundTrip(perGroup: nat, g: nat, i: nat, inode: nat)
    requires perGroup > 0 && i < perGroup && inode > 0
    ensures GroupOf(perGroup, InodeOf(perGroup, g, i)) == g && IndexOf(perGroup, InodeOf(perGroup, g, i)) == i
    ensures InodeOf(perGroup, GroupOf(perGroup, inode), IndexOf(perGroup, inode)) == inode
  {
    ModUnique(g * perGroup + i, perGroup, g, i);
    DivMod(inode - 1, perGroup);
  }

  class Allocator {
    const perGroup: nat
    const size: seq<nat>
    var bits: seq<Flags>
    var free: seq<nat>
    var total: nat
    var dirs: seq<nat>
    // last_inode_bg_id
    var lastGroup: nat

    function G(): Groups
      reads this
    {
      Groups(bits, size, free, total)
    }

    ghost predicate Valid()
      reads this
    {
      && perGroup > 0 && Counted(G()) && |dirs| == |bits| && lastGroup <= |bits|
      && forall g :: 0 <= g < |size| ==> size[g] <= perGroup
    }

    /** ext4_ialloc_alloc_inode; None is ENOSPC.  Starting at the group used last and going round once,
        it finds a free inode whenever there is one. */
    method AllocInode(isDir: bool) returns (r: Option<nat>)
      requires Valid()
      modifies this`bits, this`free, this`total, this`dirs, this`lastGroup
      ensures Valid()
      ensures r.None? <==> !old(AnyFree(G()))
      ensures r.None? ==> G() == old(G()) && dirs == old(dirs)
      ensures r.Some? ==>
                && r.value > 0
                && (var g, i := GroupOf(perGroup, r.value), IndexOf(perGroup, r.value);
                    && Free(old(G()), g, i) && lastGroup == g && g < |dirs| == |old(dirs)|
                    && (forall h: nat, k: nat :: Free(G(), h, k) <==> Free(old(G()), h, k) && !(h == g && k == i))
                    && dirs == old(dirs)[g := old(dirs[g]) + if isDir then 1 else 0])
                && total == old(total) - 1
    {
      hide Counted, Free, GroupOf, IndexOf, InodeOf;
      ShapeOf(G());
      var bgid: nat, bgCount: nat, rewind := lastGroup, |bits|, false;
      while bgid <= bgCount
        invariant Valid() && G() == old(G()) && dirs == old(dirs) && lastGroup == old(lastGroup)
        invariant bgCount == (if rewind then lastGroup else |bits|) && bgid <= bgCount
        invariant forall g: nat :: (if rewind then lastGroup <= g < |bits| || g < bgid else lastGroup <= g < bgid) ==>
                  Empty(G(), g)
        decreases !rewind, bgCount - bgid
      {
        if bgid == bgCount {
          if rewind { break; }
          bgCount, bgid, rewind := lastGroup, 0, true;
          continue;
        }
        ShapeOf(G());
        if free[bgid] > 0 {
          var found := FindClear(bits[bgid], 0, size[bgid]);
          SomeClear(G(), bgid);
          var i := found.value;
          r := TakeInode(bgid, i, isDir);
          return;
        }
        NoneHere(G(), bgid);
        bgid := bgid + 1;
      }
      AllEmpty(G());
      return None;
    }

    method TakeInode(g: nat, i: nat, isDir: bool) returns (r: Option<nat>)
      requires Valid() && Free(G(), g, i)
      modifies this`bits, this`free, this`total, this`dirs, this`lastGroup
      ensures Valid() && r == Some(InodeOf(perGroup, g, i)) && r.value > 0 && GroupOf(perGroup, r.value) == g &&
              IndexOf(perGroup, r.value) == i
      ensures lastGroup == g < |dirs| == |old(dirs)| &&
              dirs == old(dirs)[g := old(dirs[g]) + if isDir then 1 else 0] && total == old(total) - 1
      ensures forall h: nat, k: nat :: Free(G(), h, k) <==> Free(old(G()), h, k) && !(h == g && k == i)
    {
      hide Clear, Counted;
      ShapeOf(G());
      TakeOk(G(), g, i);
      InodeRoundTrip(perGroup, g, i, 1);
      TakeIs(G(), g, i);
      hide Counted, GroupOf, IndexOf, InodeOf, Free, Take, Shaped;
      bits := Set(G(), g, i, true);
      free := free[g := free[g] - 1];
      if isDir { dirs := dirs[g := dirs[g] + 1]; }
      total := total - 1;
      lastGroup := g;
      r := Some(InodeOf(perGroup, g, i));
    }

    /** ext4_ialloc_free_inode: the counts stay exact if and only if the inode was in use. */
    method FreeInode(inode: nat, isDir: bool)
      requires Valid() && inode > 0 && GroupOf(perGroup, inode) < |bits| &&
               IndexOf(perGroup, inode) < size[GroupOf(perGroup, inode)]
      requires isDir ==> dirs[GroupOf(perGroup, inode)] > 0
      modifies this`bits, this`free, this`total, this`dirs
      ensures Valid() <==> !old(Free(G(), GroupOf(perGroup, inode), IndexOf(perGroup, inode)))
      ensures forall g: nat, i: nat :: Free(G(), g, i) <==>
              Free(old(G()), g, i) || (g == GroupOf(perGroup, inode) && i == IndexOf(perGroup, inode))
    {
      var g, i := GroupOf(perGroup, inode), IndexOf(perGroup, inode);
      GiveIff(G(), g, i);
      bits := Set(G(), g, i, false);
      if isDir { dirs := dirs[g := dirs[g] - 1]; }
      free := free[g := free[g] + 1];
      total := total + 1;
    }
  }

  // ---------------------------------------------------------------- facts for the methods

  ghost predicate Empty(s: Groups, g: nat) { forall i: nat :: !Free(s, g, i) }

  lemma {:induction false} TakeIs(s: Groups, g: nat, i: nat)
    requires Shaped(s) && Free(s, g, i) && s.free[g] > 0 && s.total > 0
    ensures Take(s, g, i) == Groups(Set(s, g, i, true), s.size, s.free[g := s.free[g] - 1], s.total - 1)
    ensures g < |s.bits| == |s.size| == |s.free| && i < |s.bits[g]|
  {
  }

  lemma {:induction false} ShapeOf(s: Groups)
    requires Counted(s)
    ensures Shaped(s)
  {
  }

  /** A positive count means the search from bit 0 succeeds, so the branch that would repeat the same
      group for ever is never taken. */
  lemma {:induction false} SomeClear(s: Groups, g: nat)
    requires Counted(s) && g < |s.bits| && s.free[g] > 0
    ensures Found(s.bits[g], 0, s.size[g]).Some? && Free(s, g, Found(s.bits[g], 0, s.size[g]).value)
  {
    NoneIn(s, g);
  }

  lemma {:induction false} NoneHere(s: Groups, g: nat)
    requires Counted(s) && g < |s.bits| && s.free[g] == 0
    ensures Empty(s, g)
  {
    NoneIn(s, g);
  }

  lemma {:induction false} AllEmpty(s: Groups)
    requires Shaped(s) && forall g: nat :: g < |s.bits| ==> Empty(s, g)
    ensures !AnyFree(s)
  {
    forall g: nat, i: nat ensures !Free(s, g, i) { if g < |s.bits| { assert Empty(s, g); } }
  }
}
