/** Whole runs of the block cache: every run by clients that follow the cache's rules behaves like a
    plain array of blocks. */
module BlockCacheRun {
  import opened Lists
  import opened BlockCacheSpec

  /** What clients call.  memOk says whether malloc would succeed and junk what its memory holds. */
  datatype Op =
    | Get(lba: nat, memOk: bool, junk: Data)
    | GetNoRead(lba: nat, memOk: bool, junk: Data)
    | Write(lba: nat, data: Data)
    | Put(lba: nat)
    | MarkFlush(lba: nat)
    | MarkTmp(lba: nat)
    | FlushBlock(lba: nat)
    | Flush
    | Toggle(on: bool)

  /** What a call gives back. */
  datatype Out = Done | Contents(data: Data) | NoBlock | NoMemory

  // ---------------------------------------------------------------- the cache

  /** ext4_block_get_noread, after its range check. */
  ghost function Acquire(s: State, l: nat, memOk: bool, junk: Data): State
    requires Inv(s)
  {
    var s1 := Shake(s);
    if l in s1.bufs || memOk then Alloc(s1, l, junk) else s1
  }

  /** The device read that follows for a buffer that is not up to date. */
  function Fill(s: State, l: nat): State
    requires l in s.bufs && l < |s.disk|
  {
    if s.bufs[l].uptodate then s else s.(bufs := s.bufs[l := s.bufs[l].(data := s.disk[l], uptodate := true)])
  }

  function SetDirty(s: State, l: nat, d: Data): State
    requires l in s.bufs
  {
    s.(bufs := s.bufs[l := s.bufs[l].(data := d, uptodate := true, dirty := true)])
  }

  /** ext4_block_flush_lba. */
  function FlushLba(s: State, l: nat): State
    requires l in s.bufs ==> l < |s.disk|
  {
    if l !in s.bufs then s else Free(FlushBuf(FindGet(s, l), l), l)
  }

  /** ext4_block_cache_write_back; switching off flushes with the queue as it was. */
  ghost function SetWriteBack(s: State, on: bool): State
    requires Inv(s)
  {
    if on then s.(writeBack := s.writeBack + 1)
    else if s.writeBack > 1 then s.(writeBack := s.writeBack - 1)
    else FlushAll(s).(writeBack := 0)
  }

  /** Acquiring block l hands out a new id, and no cached buffer carries it: the 32-bit acquisition
      counter has not come round to an id still in use. */
  ghost predicate IdFree(s: State, l: nat) { !Held(s, l) ==> Fresh(s, l) }

  /** The rules for clients: touch and give back only blocks you hold, and never give back block 0. */
  ghost predicate Legal(s: State, op: Op)
    requires Inv(s)
  {
    match op
    case Get(l, _, _) => l < |s.disk| ==> IdFree(Shake(s), l)
    case GetNoRead(l, _, _) => l < |s.disk| ==> IdFree(Shake(s), l)
    case Write(l, _) => Held(s, l)
    case Put(l) => Held(s, l) && l != 0
    case MarkFlush(l) => Held(s, l)
    case MarkTmp(l) => Held(s, l)
    case FlushBlock(l) => l in s.bufs ==> IdFree(s, l) && l != 0
    case Flush => true
    case Toggle(_) => true
  }

  ghost function Step(s: State, op: Op): State
    requires Inv(s) && Legal(s, op)
  {
    match op
    case Get(l, memOk, junk) =>
      if l >= |s.disk| then s
      else
        var s1 := Acquire(s, l, memOk, junk);
        ShakeOk(s);
        if l in s1.bufs && l < |s1.disk| then Fill(s1, l) else s1
    case GetNoRead(l, memOk, junk) => if l >= |s.disk| then s else Acquire(s, l, memOk, junk)
    case Write(l, d) => SetDirty(s, l, d)
    case Put(l) => InDevice(s, l); Free(s, l)
    case MarkFlush(l) => s.(bufs := s.bufs[l := s.bufs[l].(flush := true)])
    case MarkTmp(l) => s.(bufs := s.bufs[l := s.bufs[l].(tmp := true)])
    case FlushBlock(l) => if l in s.bufs then InDevice(s, l); FlushLba(s, l) else s
    case Flush => FlushAll(s)
    case Toggle(on) => SetWriteBack(s, on)
  }

  ghost function OutOf(s: State, op: Op): Out
    requires Inv(s) && Legal(s, op)
  {
    match op
    case Get(l, memOk, junk) =>
      if l >= |s.disk| then NoBlock
      else if l in Step(s, op).bufs then Contents(Step(s, op).bufs[l].data) else NoMemory
    case GetNoRead(l, memOk, junk) =>
      if l >= |s.disk| then NoBlock
      else if l in Step(s, op).bufs then Done else NoMemory
    case _ => Done
  }

  // ---------------------------------------------------------------- the array it stands for

  function RefStep(a: seq<Data>, op: Op): seq<Data> {
    if op.Write? && op.lba < |a| then a[op.lba := op.data] else a
  }

  function RefOut(a: seq<Data>, op: Op): Out {
    match op
    case Get(l, _, _) => if l < |a| then Contents(a[l]) else NoBlock
    case GetNoRead(l, _, _) => if l < |a| then Done else NoBlock
    case _ => Done
  }

  /** Same answer as the array, or out of memory where malloc was going to fail. */
  predicate Agrees(op: Op, out: Out, a: seq<Data>) {
    out == RefOut(a, op) || (out == NoMemory && (op.Get? || op.GetNoRead?) && !op.memOk && op.lba < |a|)
  }

  // ---------------------------------------------------------------- one step

  lemma {:induction false} AcquireOk(s: State, l: nat, memOk: bool, junk: Data)
    requires Inv(s) && l < |s.disk| && IdFree(Shake(s), l)
    ensures var r := Acquire(s, l, memOk, junk);
            && Inv(r) && Flat(r) == Flat(s) && r.cap == s.cap && r.writeBack == s.writeBack
            && (l in r.bufs ==> r.bufs[l].refs > 0)
            && (l !in r.bufs ==> !memOk)
  {
    hide Inv, Flat, Shake, FindGet, NewBuf, Fresh;
    ShakeOk(s);
    var t := Shake(s);
    if l in t.bufs { FindGetOk(t, l); }
    else if memOk { NewBufOk(t, l, junk); }
  }

  lemma {:induction false} FillOk(s: State, l: nat)
    requires Inv(s) && Held(s, l) && l < |s.disk|
    ensures var r := Fill(s, l);
            && Inv(r) && Flat(r) == Flat(s) && r.bufs.Keys == s.bufs.Keys && r.bufs[l].uptodate &&
               r.bufs[l].data == Flat(s)[l]
            && r.bufs[l].refs == s.bufs[l].refs
  {
    hide Flat;
    assert BufOk(s, l);
    var r := Fill(s, l);
    if !s.bufs[l].uptodate {
      SameSize(s.bufs, l, r.bufs[l]);
      ChangedInv(s, r, l, r.bufs[l]);
      FlatUpdate(s, l, View(r, l));
    }
    FlatAt(s, l);
  }

  lemma {:induction false} FlatAt(s: State, l: nat)
    requires l < |s.disk|
    ensures Flat(s)[l] == View(s, l)
  {
  }

  lemma {:induction false} SetDirtyOk(s: State, l: nat, d: Data)
    requires Inv(s) && Held(s, l) && l < |s.disk|
    ensures var r := SetDirty(s, l, d); Inv(r) && Flat(r) == Flat(s)[l := d] && r.bufs.Keys == s.bufs.Keys
  {
    hide Flat;
    assert BufOk(s, l);
    var r := SetDirty(s, l, d);
    SameSize(s.bufs, l, r.bufs[l]);
    ChangedInv(s, r, l, r.bufs[l]);
  }

  lemma {:induction false} MarkOk(s: State, l: nat, n: Buf)
    requires Inv(s) && Held(s, l) && (n == s.bufs[l].(flush := true) || n == s.bufs[l].(tmp := true))
    ensures var r := s.(bufs := s.bufs[l := n]); Inv(r) && Flat(r) == Flat(s) && r.bufs.Keys == s.bufs.Keys
  {
    hide Flat;
    assert BufOk(s, l);
    var r := s.(bufs := s.bufs[l := n]);
    SameSize(s.bufs, l, n);
    ChangedInv(s, r, l, n);
    FlatUpdate(s, l, View(r, l));
  }

  /** Flushing one block puts its contents on the device and leaves the clients' holds alone. */
  lemma {:induction false} FlushLbaOk(s: State, l: nat)
    requires Inv(s) && l in s.bufs && IdFree(s, l) && l < |s.disk|
    ensures var r := FlushLba(s, l);
            && Inv(r) && Flat(r) == Flat(s) && r.bufs.Keys == s.bufs.Keys && r.bufs[l].refs == s.bufs[l].refs
            && r.writeBack == s.writeBack && r.cap == s.cap
            && (forall m :: m in s.bufs && m != l ==> r.bufs[m] == s.bufs[m])
            && (s.bufs[l].uptodate ==> r.disk[l] == Flat(s)[l])
  {
    hide Inv, Flat, FindGet, FlushBuf, Free, Fresh;
    FindGetOk(s, l);
    var g := FindGet(s, l);
    FindOthers(s, l);
    FlushBufOk(g, l);
    FlushKeeps(g, l);
    var f := FlushBuf(g, l);
    FreeOk(f, l);
    if s.bufs[l].refs == 0 { IdleStays(s, l); }
    CleanOnDisk(FlushLba(s, l), l);
  }

  lemma {:induction false} FindOthers(s: State, l: nat)
    requires l in s.bufs
    ensures forall m :: m in s.bufs && m != l ==> m in FindGet(s, l).bufs && FindGet(s, l).bufs[m] == s.bufs[m]
  {
    hide Without, NextId;
  }

  lemma {:induction false} FlushKeeps(s: State, l: nat)
    requires l in s.bufs && l < |s.disk|
    ensures forall m :: m in s.bufs && m != l ==> m in FlushBuf(s, l).bufs && FlushBuf(s, l).bufs[m] == s.bufs[m]
  {
    hide Without;
  }

  lemma {:induction false} IdleStays(s: State, l: nat)
    requires Inv(s) && l in s.bufs && s.bufs[l].refs == 0
    ensures Stays(s.bufs[l])
  {
    assert BufOk(s, l);
  }

  lemma {:induction false} CleanOnDisk(s: State, l: nat)
    requires Inv(s) && l in s.bufs && !s.bufs[l].dirty
    ensures l < |s.disk| && (s.bufs[l].uptodate ==> s.disk[l] == Flat(s)[l])
  {
    assert BufOk(s, l);
  }

  lemma {:induction false} WriteBackFlag(s: State, n: nat)
    requires Inv(s) && (n == 0 ==> s.dirty == [])
    ensures Inv(s.(writeBack := n)) && Flat(s.(writeBack := n)) == Flat(s)
  {
    var r := s.(writeBack := n);
    forall l | l in r.bufs ensures BufOk(r, l) { assert BufOk(s, l); }
  }

  lemma {:induction false} SetWriteBackOk(s: State, on: bool)
    requires Inv(s)
    ensures var r := SetWriteBack(s, on);
            && Inv(r) && Flat(r) == Flat(s) && r.bufs.Keys == s.bufs.Keys
            && (r.writeBack == 0 ==> forall l :: 0 <= l < |s.disk| && !Held(s, l) ==> r.disk[l] == Flat(s)[l])
  {
    hide Inv, Flat, FlushAll;
    FlushAllOk(s);
    if on { WriteBackFlag(s, s.writeBack + 1); }
    else if s.writeBack > 1 { WriteBackFlag(s, s.writeBack - 1); }
    else { WriteBackFlag(FlushAll(s), 0); }
  }

  /** One call keeps the invariant, does to the contents what it would do to an array, and answers
      as the array would. */
  lemma {:induction false} StepOk(s: State, op: Op)
    requires Inv(s) && Legal(s, op)
    ensures Inv(Step(s, op)) && Flat(Step(s, op)) == RefStep(Flat(s), op) && Agrees(op, OutOf(s, op), Flat(s))
  {
    hide Inv, Flat, Shake, Free, FlushAll, FlushLba, Acquire, Fill, SetDirty, SetWriteBack, IdFree;
    match op
    case Get(l, memOk, junk) =>
      if l < |s.disk| {
        AcquireOk(s, l, memOk, junk);
        var a := Acquire(s, l, memOk, junk);
        if l in a.bufs { FillOk(a, l); }
      }
    case GetNoRead(l, memOk, junk) => if l < |s.disk| { AcquireOk(s, l, memOk, junk); }
    case Write(l, d) => InDevice(s, l); SetDirtyOk(s, l, d);
    case Put(l) => FreeOk(s, l);
    case MarkFlush(l) => MarkOk(s, l, s.bufs[l].(flush := true));
    case MarkTmp(l) => MarkOk(s, l, s.bufs[l].(tmp := true));
    case FlushBlock(l) => if l in s.bufs { InDevice(s, l); FlushLbaOk(s, l); }
    case Flush => FlushAllOk(s);
    case Toggle(on) => SetWriteBackOk(s, on);
  }

  // ---------------------------------------------------------------- whole runs

  ghost predicate LegalRun(s: State, ops: seq<Op>)
    requires Inv(s)
    decreases |ops|
  {
    ops != [] ==> Legal(s, ops[0]) && (StepOk(s, ops[0]); LegalRun(Step(s, ops[0]), ops[1..]))
  }

  ghost function Run(s: State, ops: seq<Op>): State
    requires Inv(s) && LegalRun(s, ops)
    decreases |ops|
  {
    if ops == [] then s else StepOk(s, ops[0]); Run(Step(s, ops[0]), ops[1..])
  }

  ghost function Outs(s: State, ops: seq<Op>): seq<Out>
    requires Inv(s) && LegalRun(s, ops)
    decreases |ops|
  {
    if ops == [] then [] else StepOk(s, ops[0]); [OutOf(s, ops[0])] + Outs(Step(s, ops[0]), ops[1..])
  }

  function RefRun(a: seq<Data>, ops: seq<Op>): seq<Data>
    decreases |ops|
  {
    if ops == [] then a else RefRun(RefStep(a, ops[0]), ops[1..])
  }

  ghost predicate AllAgree(ops: seq<Op>, outs: seq<Out>, a: seq<Data>)
    decreases |ops|
  {
    && |outs| == |ops|
    && (ops != [] ==> Agrees(ops[0], outs[0], a) && AllAgree(ops[1..], outs[1..], RefStep(a, ops[0])))
  }

  /** Every run of the cache is a run of the plain array. */
  lemma {:induction false} RunOk(s: State, ops: seq<Op>)
    requires Inv(s) && LegalRun(s, ops)
    ensures Inv(Run(s, ops)) && Flat(Run(s, ops)) == RefRun(Flat(s), ops) && AllAgree(ops, Outs(s, ops), Flat(s))
    decreases |ops|
  {
    hide Inv, Flat, Step, OutOf, Legal, RefStep, Agrees;
    if ops != [] {
      StepOk(s, ops[0]);
      var t := Step(s, ops[0]);
      RunOk(t, ops[1..]);
      assert Outs(s, ops)[1..] == Outs(t, ops[1..]);
    }
  }

  // ---------------------------------------------------------------- what a client can rely on while holding a block

  /** A held buffer stays in the cache, with at least as many references, until it is given back. */
  lemma {:induction false} StepPins(s: State, op: Op, l: nat)
    requires Inv(s) && Legal(s, op) && Held(s, l)
    ensures op != Put(l) ==> Held(Step(s, op), l) && Step(s, op).bufs[l].refs >= s.bufs[l].refs
    ensures op == Put(l) ==>
              (s.bufs[l].refs > 1 ==> Held(Step(s, op), l)) &&
                (Held(Step(s, op), l) ==> Step(s, op).bufs[l].refs == s.bufs[l].refs - 1)
  {
    hide Inv, Flat, Shake, Free, FlushAll, FlushLba, FindGet, NewBuf, IdFree, SameContents, Stays;
    match op
    case Get(m, memOk, junk) => if m < |s.disk| { AcquirePins(s, m, memOk, junk, l); }
    case GetNoRead(m, memOk, junk) => if m < |s.disk| { AcquirePins(s, m, memOk, junk, l); }
    case Write(m, d) =>
    case Put(m) => FreeOk(s, m);
    case MarkFlush(m) =>
    case MarkTmp(m) =>
    case FlushBlock(m) => if m in s.bufs { InDevice(s, m); FlushLbaOk(s, m); }
    case Flush => FlushAllOk(s);
    case Toggle(on) => FlushAllOk(s);
  }

  lemma {:induction false} AcquirePins(s: State, m: nat, memOk: bool, junk: Data, l: nat)
    requires Inv(s) && m < |s.disk| && IdFree(Shake(s), m) && Held(s, l)
    ensures Held(Acquire(s, m, memOk, junk), l) && Acquire(s, m, memOk, junk).bufs[l].refs >= s.bufs[l].refs
  {
    hide Inv, Flat, Shake, FindGet, NewBuf, Fresh;
    ShakeOk(s);
    var t := Shake(s);
    assert t.bufs[l] == s.bufs[l];
    if m in t.bufs { FindGetOk(t, m); FindOthers(t, m); }
    else if memOk { NewBufOk(t, m, junk); NewOthers(t, m, junk); }
  }

  lemma {:induction false} NewOthers(s: State, m: nat, junk: Data)
    requires m !in s.bufs
    ensures forall l :: l in s.bufs ==> l in NewBuf(s, m, junk).bufs && NewBuf(s, m, junk).bufs[l] == s.bufs[l]
  {
  }

  // ---------------------------------------------------------------- the 32-bit counter

  /** No id in the cache is beyond the counter. */
  ghost predicate Young(s: State) {
    s.lruCtr < ID_SPACE && forall l :: l in s.bufs ==> s.bufs[l].lruId <= s.lruCtr
  }

  lemma {:induction false} YoungFresh(s: State)
    requires Young(s) && s.lruCtr + 1 < ID_SPACE
    ensures forall l :: Fresh(s, l)
  {
  }

  lemma {:induction false} FindYoung(s: State, l: nat)
    requires Young(s) && s.lruCtr + 1 < ID_SPACE && l in s.bufs
    ensures Young(FindGet(s, l)) && FindGet(s, l).lruCtr <= s.lruCtr + 1
  {
    hide Without;
  }

  lemma {:induction false} AcquireYoung(s: State, l: nat, memOk: bool, junk: Data)
    requires Inv(s) && Young(s) && s.lruCtr + 1 < ID_SPACE
    ensures Young(Shake(s)) && Young(Acquire(s, l, memOk, junk)) && Acquire(s, l, memOk, junk).lruCtr <= s.lruCtr + 1
  {
    hide Inv, Flat, Shake, FindGet;
    ShakeOk(s);
    var t := Shake(s);
    if l in t.bufs { FindYoung(t, l); }
  }

  lemma {:induction false} FlushLbaYoung(s: State, l: nat)
    requires Inv(s) && Young(s) && s.lruCtr + 1 < ID_SPACE && l in s.bufs && l < |s.disk|
    ensures Young(FlushLba(s, l)) && FlushLba(s, l).lruCtr <= s.lruCtr + 1
  {
    hide Inv, Flat, FindGet, FlushBuf, Free, Young, Stays;
    YoungFresh(s);
    FindGetOk(s, l);
    FindYoung(s, l);
    var g := FindGet(s, l);
    FlushBufOk(g, l);
    FlushKeeps(g, l);
    var f := FlushBuf(g, l);
    SameIdsYoung(g, f);
    FreeOk(f, l);
    SameIdsYoung(f, Free(f, l));
  }

  lemma {:induction false} SameIdsYoung(s: State, r: State)
    requires Young(s) && r.lruCtr == s.lruCtr &&
             forall l :: l in r.bufs ==> l in s.bufs && r.bufs[l].lruId == s.bufs[l].lruId
    ensures Young(r)
  {
  }

  lemma {:induction false} StepYoung(s: State, op: Op)
    requires Inv(s) && Legal(s, op) && Young(s) && s.lruCtr + 1 < ID_SPACE
    ensures Young(Step(s, op)) && Step(s, op).lruCtr <= s.lruCtr + 1
  {
    hide Inv, Flat, Shake, Free, FlushAll, FlushLba, Acquire, IdFree, Stays;
    match op
    case Get(l, memOk, junk) => AcquireYoung(s, l, memOk, junk);
    case GetNoRead(l, memOk, junk) => AcquireYoung(s, l, memOk, junk);
    case Write(l, d) =>
    case Put(l) => FreeOk(s, l);
    case MarkFlush(l) =>
    case MarkTmp(l) =>
    case FlushBlock(l) => if l in s.bufs { InDevice(s, l); FlushLbaYoung(s, l); }
    case Flush => FlushAllOk(s);
    case Toggle(on) => FlushAllOk(s);
  }

  /** The rules a client can check: hold what you touch, and never give back block 0. */
  predicate Rules(s: State, op: Op) {
    match op
    case Write(l, _) => Held(s, l)
    case Put(l) => Held(s, l) && l != 0
    case MarkFlush(l) => Held(s, l)
    case MarkTmp(l) => Held(s, l)
    case FlushBlock(l) => l in s.bufs ==> l != 0
    case _ => true
  }

  ghost predicate RulesRun(s: State, ops: seq<Op>)
    requires Inv(s)
    decreases |ops|
  {
    ops != [] ==>
      && Rules(s, ops[0])
      && (Legal(s, ops[0]) ==> (StepOk(s, ops[0]); RulesRun(Step(s, ops[0]), ops[1..])))
  }

  lemma {:induction false} RulesLegal(s: State, op: Op)
    requires Inv(s) && Young(s) && s.lruCtr + 1 < ID_SPACE && Rules(s, op)
    ensures Legal(s, op)
  {
    hide Inv, Flat, Shake, Young, Fresh;
    YoungFresh(s);
    ShakeOk(s);
    AcquireYoung(s, 0, false, []);
    YoungFresh(Shake(s));
  }

  /** Until the counter wraps, following the rules is all a client has to do. */
  lemma {:induction false} RulesSuffice(s: State, ops: seq<Op>)
    requires Inv(s) && Young(s) && s.lruCtr + |ops| < ID_SPACE && RulesRun(s, ops)
    ensures LegalRun(s, ops)
    decreases |ops|
  {
    hide Inv, Flat, Step, Legal, Rules, Young;
    if ops != [] {
      RulesLegal(s, ops[0]);
      StepOk(s, ops[0]);
      StepYoung(s, ops[0]);
      RulesSuffice(Step(s, ops[0]), ops[1..]);
    }
  }

  /** A cache just created over a device. */
  function Init(disk: seq<Data>, cap: nat): State {
    State(disk, map[], map[], [], 0, 0, 0, cap)
  }

  lemma {:induction false} InitOk(disk: seq<Data>, cap: nat)
    ensures Inv(Init(disk, cap)) && Young(Init(disk, cap)) && Flat(Init(disk, cap)) == disk
  {
  }

  /** From mount on, for any capacity, any device and any calls that follow the rules, the cache is
      indistinguishable from the array of blocks it was created over. */
  lemma {:induction false} CacheIsArray(disk: seq<Data>, cap: nat, ops: seq<Op>)
    requires Inv(Init(disk, cap)) && |ops| < ID_SPACE && RulesRun(Init(disk, cap), ops)
    ensures LegalRun(Init(disk, cap), ops)
    ensures Flat(Run(Init(disk, cap), ops)) == RefRun(disk, ops)
    ensures AllAgree(ops, Outs(Init(disk, cap), ops), disk)
  {
    InitOk(disk, cap);
    RulesSuffice(Init(disk, cap), ops);
    RunOk(Init(disk, cap), ops);
  }
}
