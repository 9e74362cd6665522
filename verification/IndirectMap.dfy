/** Block numbers of an inode without extents: twelve direct ones, then trees of indirect blocks one,
    two and three levels deep. */
module IndirectMap {
  import opened Radix

  // EXT4_INODE_DIRECT_BLOCK_COUNT
  const DIRECT: nat := 12

  datatype Error = OutOfRange | NoSpace

  datatype Result<+T> = Ok(value: T) | Err(error: Error)

  /** The block pointers of an inode, with the indirect blocks by number; fan is how many pointers
      one block holds. */
  datatype File = File(fan: nat, direct: seq<nat>, indirect: seq<nat>, st: Store)

  function Same(e: nat): nat { e }

  /** inode_block_limits: how many blocks the levels up to l reach. */
  function Limit(fan: nat, l: nat): nat {
    if l == 0 then DIRECT else Limit(fan, l - 1) + Pow(fan, l)
  }

  /** The level of indirection of a logical block, 0 if none reaches it. */
  function LevelOf(fan: nat, i: nat): (l: nat)
    requires i >= DIRECT
    ensures l <= 3 && (l > 0 ==> Limit(fan, l - 1) <= i < Limit(fan, l)) && (l == 0 <==> i >= Limit(fan, 3))
  {
    LimitsRise(fan);
    if i < Limit(fan, 1) then 1 else if i < Limit(fan, 2) then 2 else if i < Limit(fan, 3) then 3 else 0
  }

  lemma {:induction false} LimitsRise(fan: nat)
    ensures DIRECT == Limit(fan, 0) <= Limit(fan, 1) <= Limit(fan, 2) <= Limit(fan, 3)
  {
  }

  /** The pointers that lead from the inode to logical block i. */
  function PathOf(fan: nat, i: nat): seq<nat>
    requires fan > 0 && i >= DIRECT && LevelOf(fan, i) > 0
  {
    Digits(fan, i - Limit(fan, LevelOf(fan, i) - 1), LevelOf(fan, i))
  }

  /** The physical block of logical block i, 0 for a hole. */
  function BlockOf(f: File, i: nat): nat
    requires f.fan > 0 && |f.direct| == DIRECT && |f.indirect| == 3
  {
    if i < DIRECT then f.direct[i]
    else
      var l := LevelOf(f.fan, i);
      if l == 0 then 0 else Lookup(f.st, Same, f.indirect[l - 1], PathOf(f.fan, i))
  }

  /** How many indirect blocks have to be added before logical block i can be numbered. */
  function MissingFor(f: File, i: nat): nat
    requires f.fan > 0 && |f.direct| == DIRECT && |f.indirect| == 3
  {
    if i < DIRECT || LevelOf(f.fan, i) == 0 then 0
    else
      var l := LevelOf(f.fan, i);
      if f.indirect[l - 1] == 0 then l else Missing(f.st, Same, f.indirect[l - 1], PathOf(f.fan, i))
  }

  /** The indirect blocks form three trees, hanging off the inode. */
  ghost predicate Inv(f: File, own: Owners) {
    && f.fan > 0 && |f.direct| == DIRECT && |f.indirect| == 3 && Tree(f.st, own, Same, f.fan)
    && (forall l :: 1 <= l <= 3 ==> RootOk(f, own, l))
  }

  ghost predicate RootOk(f: File, own: Owners, l: nat)
    requires 1 <= l <= |f.indirect|
  {
    var r := f.indirect[l - 1];
    && (r != 0 ==> r in f.st && r in own && own[r] == [l])
    && (forall c :: c in f.st && c in own && own[c] == [l] ==> c == r)
  }

  /** The offset within a level is below the level's size, so its digits are valid indexes. */
  lemma {:induction false} PathFits(f: File, own: Owners, i: nat)
    requires Inv(f, own) && i >= DIRECT && LevelOf(f.fan, i) > 0
    ensures var l := LevelOf(f.fan, i);
            var r := f.indirect[l - 1];
            |PathOf(f.fan, i)| == l &&
              (r != 0 ==> r in f.st && r in own && own[r] == [l] && Fits(own, f.fan, r, PathOf(f.fan, i)))
  {
    hide LevelOf, Digits, Tree, Pow, Limit;
    var l := LevelOf(f.fan, i);
    LimitStep(f.fan, l);
    DigitsBelow(f.fan, i - Limit(f.fan, l - 1), l);
    assert RootOk(f, own, l);
  }

  lemma {:induction false} LimitStep(fan: nat, l: nat)
    requires l > 0
    ensures Limit(fan, l) == Limit(fan, l - 1) + Pow(fan, l)
  {
  }

  /** Two logical blocks of one level take different ways. */
  lemma {:induction false} PathsApart(fan: nat, i: nat, j: nat)
    requires fan > 0 && i >= DIRECT && j >= DIRECT && LevelOf(fan, i) == LevelOf(fan, j) > 0 &&
             PathOf(fan, i) == PathOf(fan, j)
    ensures i == j
  {
    hide LevelOf, Digits, Pow, Limit;
    var l := LevelOf(fan, i);
    LimitStep(fan, l);
    DigitsApart(fan, i - Limit(fan, l - 1), j - Limit(fan, l - 1), l);
  }

  // ---------------------------------------------------------------- what changes do to the map

  lemma {:induction false} ZeroMissing(f: File, own: Owners)
    requires Inv(f, own)
    ensures 0 !in f.st
  {
    forall id | id in f.st ensures id != 0 { assert NodeOk(f.st, own, Same, f.fan, id); }
  }

  /** Linking in an empty indirect block changes no block's number. */
  lemma {:induction false} GrowMap(f: File, own: Owners, q: nat, d: nat, n: nat, j: nat)
    requires Inv(f, own) && q in f.st && q in own && |own[q]| < own[q][0] && d < f.fan && f.st[q][d] == 0 &&
             n !in f.st && n != 0
    ensures BlockOf(f.(st := Grow(f.st, q, d, n, n, f.fan)), j) == BlockOf(f, j)
  {
    NodeFan(f, own, q);
    hide Inv, Tree, LevelOf, PathOf, Grow, Lookup;
    InodeIs(f, own);
    if j >= DIRECT && LevelOf(f.fan, j) > 0 {
      PathFits(f, own, j);
      var r := f.indirect[LevelOf(f.fan, j) - 1];
      if r != 0 {
        GrowSameHere(f, own, q, d, n, r, PathOf(f.fan, j));
      } else {
        GrowNowhere(f, own, q, d, n, PathOf(f.fan, j));
      }
    }
  }

  lemma {:induction false} InodeIs(f: File, own: Owners)
    requires Inv(f, own)
    ensures f.fan > 0 && |f.direct| == DIRECT && |f.indirect| == 3
  {
  }

  lemma {:induction false} NodeFan(f: File, own: Owners, q: nat)
    requires Inv(f, own) && q in f.st
    ensures |f.st[q]| == f.fan
  {
    assert NodeOk(f.st, own, Same, f.fan, q);
  }

  lemma {:induction false} GrowNowhere(f: File, own: Owners, q: nat, d: nat, n: nat, path: seq<nat>)
    requires Inv(f, own) && q in f.st && d < |f.st[q]| && n != 0
    ensures Lookup(Grow(f.st, q, d, n, n, f.fan), Same, 0, path) == Lookup(f.st, Same, 0, path)
  {
    ZeroMissing(f, own);
  }

  lemma {:induction false} GrowSameHere(f: File, own: Owners, q: nat, d: nat, n: nat, r: nat, path: seq<nat>)
    requires Inv(f, own) && q in f.st && q in own && |own[q]| < own[q][0] && d < f.fan && f.st[q][d] == 0 &&
             n !in f.st && n != 0
    requires r in f.st && r in own && own[r] != [] && Fits(own, f.fan, r, path) && path != []
    ensures Lookup(Grow(f.st, q, d, n, n, f.fan), Same, r, path) == Lookup(f.st, Same, r, path)
  {
    GrowSame(f.st, own, Same, f.fan, q, d, n, n, r, path);
  }

  lemma {:induction false} GrowInv(f: File, own: Owners, q: nat, d: nat, n: nat)
    requires Inv(f, own) && q in f.st && q in own && |own[q]| < own[q][0] && d < f.fan && f.st[q][d] == 0 &&
             n !in f.st && n != 0
    ensures Inv(f.(st := Grow(f.st, q, d, n, n, f.fan)), own[n := own[q] + [d]])
  {
    hide Apart, Hangs, Hung;
    assert NodeOk(f.st, own, Same, f.fan, q);
    GrowTree(f.st, own, Same, f.fan, q, d, n, n);
    hide Tree, NodeOk;
    var g, w := f.(st := Grow(f.st, q, d, n, n, f.fan)), own[n := own[q] + [d]];
    forall l | 1 <= l <= 3 ensures RootOk(g, w, l) {
      assert RootOk(f, own, l);
      assert |w[n]| > 1;
    }
  }

  /** A fresh empty block as the root of level l changes no block's number. */
  lemma {:induction false} RootMap(f: File, own: Owners, l: nat, n: nat, j: nat)
    requires Inv(f, own) && 1 <= l <= 3 && f.indirect[l - 1] == 0 && n !in f.st && n != 0
    ensures BlockOf(f.(st := f.st[n := Zeros(f.fan)], indirect := f.indirect[l - 1 := n]), j) == BlockOf(f, j)
  {
    if j >= DIRECT && LevelOf(f.fan, j) > 0 {
      PathFits(f, own, j);
      ZeroMissing(f, own);
      var m := LevelOf(f.fan, j);
      var r := f.indirect[m - 1];
      if m == l {
        ZeroTable(f.st[n := Zeros(f.fan)], Same, f.fan, n, PathOf(f.fan, j));
      } else if r != 0 {
        RootSame(f.st, own, Same, f.fan, n, r, PathOf(f.fan, j));
      }
    }
  }

  lemma {:induction false} RootInv(f: File, own: Owners, l: nat, n: nat)
    requires Inv(f, own) && 1 <= l <= 3 && f.indirect[l - 1] == 0 && n !in f.st && n != 0
    ensures Inv(f.(st := f.st[n := Zeros(f.fan)], indirect := f.indirect[l - 1 := n]), own[n := [l]])
  {
    assert RootOk(f, own, l);
    ZeroMissing(f, own);
    RootTree(f.st, own, Same, f.fan, n, l);
    hide Tree;
    var g, w := f.(st := f.st[n := Zeros(f.fan)], indirect := f.indirect[l - 1 := n]), own[n := [l]];
    forall k | 1 <= k <= 3 ensures RootOk(g, w, k) { assert RootOk(f, own, k); }
  }

  /** Writing the last pointer on the way to block i renumbers block i alone. */
  lemma {:induction false} WriteMap(f: File, own: Owners, q: nat, d: nat, v: nat, i: nat, j: nat)
    requires Inv(f, own) && i >= DIRECT && LevelOf(f.fan, i) > 0 && q in f.st && q in own && own[q] != [] &&
             |own[q]| == own[q][0] && d < |f.st[q]|
    requires own[q] + [d] == [LevelOf(f.fan, i)] + PathOf(f.fan, i)
    ensures BlockOf(f.(st := Write(f.st, q, d, v)), j) == if j == i then v else BlockOf(f, j)
  {
    if j >= DIRECT && LevelOf(f.fan, j) > 0 {
      PathFits(f, own, j);
      var l := LevelOf(f.fan, j);
      var r := f.indirect[l - 1];
      if r != 0 {
        hide LevelOf, PathOf, Tree, Lookup, Write, Limit;
        WriteLeaf(f.st, own, Same, f.fan, q, d, v, r, PathOf(f.fan, j));
        if own[r] + PathOf(f.fan, j) == own[q] + [d] {
          assert ([l] + PathOf(f.fan, j))[0] == l && ([l] + PathOf(f.fan, j))[1..] == PathOf(f.fan, j);
          assert ([LevelOf(f.fan, i)] + PathOf(f.fan, i))[1..] == PathOf(f.fan, i);
          PathsApart(f.fan, i, j);
        }
      } else {
        ZeroMissing(f, own);
        if j == i {
          assert own[q][0] == (own[q] + [d])[0] == l;
          RootThere(f, own, q);
        }
      }
    }
  }

  /** Every table's tree has its root in the inode. */
  lemma {:induction false} RootThere(f: File, own: Owners, q: nat)
    requires Inv(f, own) && q in f.st && q in own && own[q] != [] && 1 <= own[q][0] <= 3
    ensures f.indirect[own[q][0] - 1] != 0
    decreases |own[q]|
  {
    var l := own[q][0];
    assert NodeOk(f.st, own, Same, f.fan, q) && Hung(f.st, own, Same, q);
    if |own[q]| == 1 {
      assert own[q] == [l] && RootOk(f, own, l);
    } else {
      var p, x :| Hangs(f.st, own, Same, q, p, x);
      assert own[p][0] == l;
      RootThere(f, own, p);
    }
  }

  lemma {:induction false} WriteInv(f: File, own: Owners, q: nat, d: nat, v: nat)
    requires Inv(f, own) && q in f.st && q in own && own[q] != [] && |own[q]| == own[q][0] && d < |f.st[q]|
    ensures Inv(f.(st := Write(f.st, q, d, v)), own)
  {
    WriteTree(f.st, own, Same, f.fan, q, d, v);
    hide Tree;
    var g := f.(st := Write(f.st, q, d, v));
    forall l | 1 <= l <= 3 ensures RootOk(g, own, l) { assert RootOk(f, own, l); }
  }

  // ---------------------------------------------------------------- the code

  /** The level loop that both operations start with. */
  method FindLevel(fan: nat, iblock: nat) returns (l: nat)
    requires iblock >= DIRECT
    ensures l == LevelOf(fan, iblock)
  {
    LimitsRise(fan);
    var i := 1;
    while i < 4
      invariant 1 <= i <= 4 && forall k :: 1 <= k < i ==> iblock >= Limit(fan, k)
    {
      if iblock < Limit(fan, i) { return i; }
      i := i + 1;
    }
    return 0;
  }

  /** One step down: the next index and the rest of the offset. */
  lemma {:induction false} NextDigit(fan: nat, off: nat, l: nat)
    requires fan > 0 && l > 0
    ensures var ds := Digits(fan, off, l);
            |ds| == l && ds[0] == off / Pow(fan, l - 1) && ds[1..] == Digits(fan, off % Pow(fan, l - 1), l - 1)
  {
  }

  class Inode {
    const fan: nat
    var direct: seq<nat>
    var indirect: seq<nat>
    var st: Store
    var size: nat
    ghost var own: Owners

    function F(): File
      reads this
    {
      File(fan, direct, indirect, st)
    }

    ghost predicate Valid()
      reads this
    {
      Inv(F(), own)
    }

    constructor (fan: nat)
      requires fan > 0
      ensures Valid() && this.fan == fan && size == 0 && forall i :: BlockOf(F(), i) == 0
    {
      this.fan := fan;
      direct := seq(DIRECT, _ => 0);
      indirect := seq(3, _ => 0);
      st, own, size := map[], map[], 0;
    }

    /** ext4_fs_get_inode_dblk_idx_internal on an inode without extents. */
    method Get(iblock: nat) returns (r: Result<nat>)
      requires Valid()
      ensures r == if size == 0 then Ok(0)
                   else if iblock >= Limit(fan, 3) then Err(OutOfRange)
                   else Ok(BlockOf(F(), iblock))
    {
      hide Inv, Digits, Pow, BlockOf, LevelOf;
      LimitsRise(fan);
      if size == 0 { return Ok(0); }
      BlockIs(F(), own, iblock);
      if iblock < DIRECT { return Ok(direct[iblock]); }
      var l := FindLevel(fan, iblock);
      if l == 0 { return Err(OutOfRange); }
      var current := indirect[l - 1];
      if current == 0 { return Ok(0); }
      var b := Descend(current, iblock - Limit(fan, l - 1), l);
      return Ok(b);
    }

    /** Navigates from an indirect block of level l to the block number. */
    method Descend(id: nat, start: nat, level: nat) returns (current: nat)
      requires Valid() && level > 0 && fan > 0 && id in st && id in own && own[id] != [] &&
               Fits(own, fan, id, Digits(fan, start, level))
      ensures current == Lookup(st, Same, id, Digits(fan, start, level))
    {
      hide Inv, Digits, Pow;
      var l, off: nat := level, start;
      current := id;
      NextDigit(fan, off, l);
      var at := off / Pow(fan, l - 1);
      while l > 0
        invariant 0 < l && current in st && current in own && own[current] != []
        invariant at == Digits(fan, off, l)[0] && Fits(own, fan, current, Digits(fan, off, l))
        invariant Lookup(st, Same, id, Digits(fan, start, level)) == Lookup(st, Same, current, Digits(fan, off, l))
        decreases l
      {
        hide Lookup, Fits;
        TableFacts(F(), own, current, Digits(fan, off, l));
        NextDigit(fan, off, l);
        current := st[current][at];
        if current == 0 { return; }
        l := l - 1;
        if l == 0 { break; }
        off := off % Pow(fan, l);
        NextDigit(fan, off, l);
        at := off / Pow(fan, l - 1);
      }
    }

    /** ext4_fs_set_inode_data_block_index on an inode without extents.  The block allocator hands
        out the blocks of supply in turn and then fails. */
    method Set(iblock: nat, fblock: nat, supply: seq<nat>) returns (r: Result<()>)
      requires Valid() && Usable(supply, st)
      modifies this`direct, this`indirect, this`st, this`own
      ensures Valid()
      ensures r == Err(OutOfRange) <==> iblock >= Limit(fan, 3)
      ensures r.Ok? ==> forall j :: BlockOf(F(), j) == if j == iblock then fblock else BlockOf(old(F()), j)
      ensures r.Err? ==> SameMap(old(F()), F())
      ensures r == Err(NoSpace) <==> iblock < Limit(fan, 3) && |supply| < MissingFor(old(F()), iblock)
      ensures r.Ok? ==> Drawn(old(st), st, supply, supply[MissingFor(old(F()), iblock)..])
      ensures r == Err(NoSpace) ==> Drawn(old(st), st, supply, [])
    {
      hide Inv, Digits, Pow, BlockOf, LevelOf, Usable, SameMap, MissingFor, Missing, Drawn;
      LimitsRise(fan);
      ghost var f := F();
      BlockIs(f, own, iblock);
      MissingIs(f, iblock);
      SameRefl(f);
      DrawnNone(st, supply);
      if iblock < DIRECT {
        DirectMap(f, own, iblock, fblock);
        direct := direct[iblock := fblock];
        return Ok(());
      }
      var l := FindLevel(fan, iblock);
      if l == 0 { return Err(OutOfRange); }
      var current, left := Root(iblock, l, supply);
      if current == 0 { return Err(NoSpace); }
      ghost var s1, n := st, Missing(st, Same, current, Digits(fan, iblock - Limit(fan, l - 1), l));
      r := SetBelow(iblock, current, l, fblock, left, f);
      SetDrawn(f.st, s1, st, supply, left, n, r.Ok?);
    }

    /** The table the inode points at for level l, added if it is missing; 0 if there is no block for it. */
    method Root(iblock: nat, l: nat, supply: seq<nat>) returns (current: nat, left: seq<nat>)
      requires Valid() && Usable(supply, st) && iblock >= DIRECT && l == LevelOf(fan, iblock) > 0
      modifies this`indirect, this`st, this`own
      ensures Valid() && Usable(left, st) && SameMap(old(F()), F()) && Drawn(old(st), st, supply, left)
      ensures current == indirect[l - 1] && |left| <= |supply|
      ensures current == 0 ==> supply == [] && MissingFor(old(F()), iblock) > 0
      ensures current != 0 ==>
                |supply| - |left| + Missing(st, Same, current, Digits(fan, iblock - Limit(fan, l - 1), l)) ==
                MissingFor(old(F()), iblock)
    {
      hide Inv, Digits, Pow, BlockOf, LevelOf, Usable, SameMap, MissingFor, Missing, Drawn;
      ghost var f := F();
      BlockIs(f, own, iblock);
      MissingIs(f, iblock);
      SameRefl(f);
      DrawnNone(st, supply);
      current, left := indirect[l - 1], supply;
      if current == 0 {
        if supply == [] { return; }
        current := supply[0];
        FirstUsable(supply, st, Zeros(fan));
        DrawnOne(st, st[current := Zeros(fan)], supply);
        MissingBelow(st[current := Zeros(fan)], Same, fan, current, Digits(fan, iblock - Limit(fan, l - 1), l));
        RootInv(f, own, l, current);
        RootSameMap(f, own, l, current);
        st := st[current := Zeros(fan)];
        own := own[current := [l]];
        indirect := indirect[l - 1 := current];
        left := supply[1..];
      }
    }

    /** The table below index at of table id, added if it is missing; 0 if there is no block for it. */
    method Table(id: nat, at: nat, supply: seq<nat>, ghost path: seq<nat>, ghost f: File)
        returns (next: nat, left: seq<nat>)
      requires Valid() && Usable(supply, st) && SameMap(f, F()) && id in st && id in own && own[id] != []
      requires |path| > 1 && path[0] == at && Fits(own, fan, id, path)
      modifies this`st, this`own
      ensures Valid() && Usable(left, st) && SameMap(f, F())
      ensures next != 0 ==>
                next in st && next in own && own[next] == old(own[id]) + [at] && Fits(own, fan, next, path[1..])
      ensures Drawn(old(st), st, supply, left)
      ensures next == 0 ==> supply == [] && Missing(old(st), Same, id, path) > 0
      ensures next != 0 ==>
                |supply| - |left| + Missing(st, Same, next, path[1..]) == Missing(old(st), Same, id, path)
    {
      hide Inv, BlockOf, Usable, SameMap, Grow, Fits, Drawn;
      DrawnNone(st, supply);
      ghost var g := F();
      TableFacts(g, own, id, path);
      PlaceFacts(g, own, id, path);
      next, left := st[id][at], supply;
      if next == 0 {
        if left == [] { return; }
        next := left[0];
        FirstUsable(left, st, Zeros(fan));
        GrowUsable(left, st, id, at, next, fan);
        GrowInv(g, own, id, at, next);
        GrowSameMap(f, g, own, id, at, next);
        GrowHas(g, id, at, next);
        GrowDrawn(st, id, at, next, fan, left);
        GrowTable(st, id, at, next, next, fan);
        MissingBelow(Grow(st, id, at, next, next, fan), Same, fan, next, path[1..]);
        FitsHere(own, fan, id, next, path);
        own := own[next := own[id] + [at]];
        st := Grow(st, id, at, next, next, fan);
        left := left[1..];
      }
    }

    /** Navigates from the root of level l, adding indirect blocks where they are missing. */
    method SetBelow(iblock: nat, id: nat, level: nat, fblock: nat, supply: seq<nat>, ghost f: File)
        returns (r: Result<()>)
      requires Valid() && Usable(supply, st) && iblock >= DIRECT && level == LevelOf(fan, iblock) > 0
      requires id != 0 && indirect[level - 1] == id && f.fan == fan && |f.direct| == DIRECT && |f.indirect| == 3 &&
               SameMap(f, F())
      modifies this`st, this`own
      ensures Valid() && (r.Err? ==> r == Err(NoSpace))
      ensures r.Ok? ==> forall j :: BlockOf(F(), j) == if j == iblock then fblock else BlockOf(f, j)
      ensures r.Err? ==> SameMap(f, F())
      ensures var n := Missing(old(st), Same, id, Digits(fan, iblock - Limit(fan, level - 1), level));
              && (r.Err? <==> |supply| < n)
              && Drawn(old(st), st, supply, if r.Ok? then supply[n..] else [])
    {
      hide Inv, Digits, Pow, BlockOf, LevelOf, Usable, SameMap, Write, Fits, Missing, Drawn;
      DrawnNone(st, supply);
      BlockIs(F(), own, iblock);
      ghost var need := Missing(st, Same, id, Digits(fan, iblock - Limit(fan, level - 1), level));
      ghost var goal := [level] + Digits(fan, iblock - Limit(fan, level - 1), level);
      var l: nat, off: nat, current: nat, left := level, iblock - Limit(fan, level - 1), id, supply;
      NextDigit(fan, off, l);
      var at: nat := off / Pow(fan, l - 1);
      while l > 1
        invariant 0 < l && Valid() && SameMap(f, F()) && Usable(left, st) && current in st && current in own &&
                  own[current] != []
        invariant at == Digits(fan, off, l)[0] && Fits(own, fan, current, Digits(fan, off, l)) &&
                  own[current] + Digits(fan, off, l) == goal
        invariant Drawn(old(st), st, supply, left) && |left| <= |supply|
        invariant |supply| - |left| + Missing(st, Same, current, Digits(fan, off, l)) == need
        decreases l
      {
        ghost var path := Digits(fan, off, l);
        NextDigit(fan, off, l);
        Shorter(own[current], path, goal);
        var next: nat;
        ghost var s1, was := st, left;
        next, left := Table(current, at, left, path, f);
        DrawnMore(old(st), s1, st, supply, was, left);
        DrawnLength(s1, st, was, left);
        if next == 0 { return Err(NoSpace); }
        current := next;
        l := l - 1;
        off := off % Pow(fan, l);
        NextDigit(fan, off, l);
        at := off / Pow(fan, l - 1);
      }
      ghost var g, path := F(), Digits(fan, off, l);
      PlaceFacts(g, own, current, path);
      WriteInv(g, own, current, at, fblock);
      WriteAll(f, g, own, current, at, fblock, iblock, path);
      WriteDrawn(old(st), st, current, at, fblock, supply, left);
      MissingLast(st, current, path);
      DrawnLength(old(st), st, supply, left);
      st := Write(st, current, at, fblock);
      return Ok(());
    }
  }

  lemma {:induction false} SetDrawn(a: Store, b: Store, c: Store, supply: seq<nat>, left: seq<nat>, n: nat, ok: bool)
    requires Drawn(a, b, supply, left) && (ok ==> n <= |left|) && Drawn(b, c, left, if ok then left[n..] else [])
    ensures |left| <= |supply|
    ensures ok ==> |supply| - |left| + n <= |supply| && Drawn(a, c, supply, supply[|supply| - |left| + n..])
    ensures !ok ==> Drawn(a, c, supply, [])
  {
    DrawnMore(a, b, c, supply, left, if ok then left[n..] else []);
    assert ok ==> left[n..] == supply[|supply| - |left| + n..];
  }

  lemma {:induction false} MissingIs(f: File, i: nat)
    requires f.fan > 0 && |f.direct| == DIRECT && |f.indirect| == 3
    ensures i < DIRECT ==> MissingFor(f, i) == 0
    ensures i >= DIRECT && LevelOf(f.fan, i) > 0 ==>
              var l := LevelOf(f.fan, i);
              var r := f.indirect[l - 1];
              MissingFor(f, i) ==
              if r == 0 then l else Missing(f.st, Same, r, Digits(f.fan, i - Limit(f.fan, l - 1), l))
  {
    hide LevelOf, Missing;
  }

  lemma {:induction false} MissingLast(st: Store, id: nat, path: seq<nat>)
    requires |path| == 1
    ensures Missing(st, Same, id, path) == 0
  {
  }

  lemma {:induction false} DrawnLength(a: Store, b: Store, supply: seq<nat>, left: seq<nat>)
    requires Drawn(a, b, supply, left)
    ensures |left| <= |supply| && left == supply[|supply| - |left|..]
  {
  }

  lemma {:induction false} BlockIs(f: File, own: Owners, i: nat)
    requires Inv(f, own)
    ensures f.fan > 0 && |f.direct| == DIRECT && |f.indirect| == 3 && (i < DIRECT ==> BlockOf(f, i) == f.direct[i])
    ensures i >= DIRECT && LevelOf(f.fan, i) > 0 ==>
              var l := LevelOf(f.fan, i);
              var r, path := f.indirect[l - 1], Digits(f.fan, i - Limit(f.fan, l - 1), l);
              && BlockOf(f, i) == (if r == 0 then 0 else Lookup(f.st, Same, r, path))
              && (r != 0 ==> r in f.st && r in own && own[r] == [l] && Fits(own, f.fan, r, path))
  {
    ZeroMissing(f, own);
    if i >= DIRECT && LevelOf(f.fan, i) > 0 { PathFits(f, own, i); }
  }

  /** Reading one table on the way. */
  lemma {:induction false} TableFacts(f: File, own: Owners, id: nat, path: seq<nat>)
    requires Inv(f, own) && id in f.st && id in own && own[id] != [] && Fits(own, f.fan, id, path) && path != []
    ensures path[0] < |f.st[id]|
    ensures |path| == 1 ==> Lookup(f.st, Same, id, path) == f.st[id][path[0]]
    ensures var c := f.st[id][path[0]];
            |path| > 1 ==> && Lookup(f.st, Same, id, path) == (if c == 0 then 0 else Lookup(f.st, Same, c, path[1..]))
                           && (c != 0 ==>
                                 c in f.st && c in own && own[c] == own[id] + [path[0]] &&
                                   Fits(own, f.fan, c, path[1..]))
  {
    assert NodeOk(f.st, own, Same, f.fan, id);
    if |path| > 1 {
      assert ChildOk(f.st, own, Same, id, path[0]);
      ZeroMissing(f, own);
    }
  }

  // ---------------------------------------------------------------- facts for the methods

  /** The same numbers for all blocks. */
  ghost predicate SameMap(f: File, g: File) {
    && f.fan == g.fan > 0 && |f.direct| == |g.direct| == DIRECT && |f.indirect| == |g.indirect| == 3
    && forall j :: BlockOf(g, j) == BlockOf(f, j)
  }

  lemma {:induction false} SameRefl(f: File)
    requires f.fan > 0 && |f.direct| == DIRECT && |f.indirect| == 3
    ensures SameMap(f, f)
  {
  }

  lemma {:induction false} DirectMap(f: File, own: Owners, i: nat, v: nat)
    requires Inv(f, own) && i < DIRECT
    ensures var g := f.(direct := f.direct[i := v]);
            Inv(g, own) && forall j :: BlockOf(g, j) == if j == i then v else BlockOf(f, j)
  {
    var g := f.(direct := f.direct[i := v]);
    forall l | 1 <= l <= 3 ensures RootOk(g, own, l) { assert RootOk(f, own, l); }
  }

  lemma {:induction false} RootSameMap(f: File, own: Owners, l: nat, n: nat)
    requires Inv(f, own) && 1 <= l <= 3 && f.indirect[l - 1] == 0 && n !in f.st && n != 0
    ensures SameMap(f, f.(st := f.st[n := Zeros(f.fan)], indirect := f.indirect[l - 1 := n]))
  {
    var g := f.(st := f.st[n := Zeros(f.fan)], indirect := f.indirect[l - 1 := n]);
    forall j ensures BlockOf(g, j) == BlockOf(f, j) { RootMap(f, own, l, n, j); }
  }

  lemma {:induction false} GrowSameMap(f: File, g: File, own: Owners, q: nat, d: nat, n: nat)
    requires SameMap(f, g) && Inv(g, own) && q in g.st && q in own && |own[q]| < own[q][0] && d < g.fan &&
             d < |g.st[q]| && g.st[q][d] == 0 && n !in g.st && n != 0
    ensures SameMap(f, g.(st := Grow(g.st, q, d, n, n, g.fan)))
  {
    hide BlockOf;
    var h := g.(st := Grow(g.st, q, d, n, n, g.fan));
    forall j ensures BlockOf(h, j) == BlockOf(g, j) { GrowMap(g, own, q, d, n, j); }
  }

  lemma {:induction false} PlaceFacts(f: File, own: Owners, id: nat, path: seq<nat>)
    requires Inv(f, own) && id in f.st && id in own && own[id] != [] && Fits(own, f.fan, id, path) && path != []
    ensures |f.st[id]| == f.fan && path[0] < f.fan && (|path| > 1 ==> |own[id]| < own[id][0]) &&
            (|path| == 1 ==> |own[id]| == own[id][0])
  {
    assert NodeOk(f.st, own, Same, f.fan, id);
  }

  lemma {:induction false} GrowHas(f: File, q: nat, d: nat, n: nat)
    requires q in f.st && d < |f.st[q]|
    ensures n in Grow(f.st, q, d, n, n, f.fan)
  {
  }

  lemma {:induction false} FitsHere(own: Owners, fan: nat, id: nat, n: nat, path: seq<nat>)
    requires |path| > 1 && id in own && own[id] != [] && Fits(own, fan, id, path)
    ensures Fits(own[n := own[id] + [path[0]]], fan, n, path[1..])
  {
  }

  lemma {:induction false} Shorter(a: seq<nat>, path: seq<nat>, goal: seq<nat>)
    requires path != [] && a + path == goal
    ensures a + [path[0]] + path[1..] == goal
  {
  }

  lemma {:induction false} WriteAll(f: File, g: File, own: Owners, q: nat, d: nat, v: nat, i: nat, path: seq<nat>)
    requires SameMap(f, g) && Inv(g, own) && i >= DIRECT && LevelOf(g.fan, i) > 0 && q in g.st && q in own &&
             own[q] != []
    requires |own[q]| == own[q][0] && d < |g.st[q]| && |path| == 1 && path[0] == d
    requires own[q] + path == [LevelOf(g.fan, i)] + Digits(g.fan, i - Limit(g.fan, LevelOf(g.fan, i) - 1),
             LevelOf(g.fan, i))
    ensures var h := g.(st := Write(g.st, q, d, v)); forall j :: BlockOf(h, j) == if j == i then v else BlockOf(f, j)
  {
    hide BlockOf, LevelOf, Digits, Inv;
    assert path == [d];
    var h := g.(st := Write(g.st, q, d, v));
    forall j ensures BlockOf(h, j) == if j == i then v else BlockOf(f, j) { WriteMap(g, own, q, d, v, i, j); }
  }
}
