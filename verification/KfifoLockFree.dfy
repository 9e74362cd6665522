/** The kfifo without its lock, used by one writer and one reader at the same time.  Each side samples
    the other's index, copies bytes in any order, then publishes its own index; the barriers in the
    code keep these three phases apart.  Steps of the two sides interleave freely. */
module KfifoLockFree {
  import opened KfifoRing

  datatype Writer = Waiting | Putting(data: Bytes, done: set<nat>)

  datatype Reader = Resting | Getting(len: nat, got: map<nat, bv8>)

  /** The shared ring with both sides' progress.  sent and taken record the bytes whose transfer
      has been published; the code does not keep them. */
  datatype Fifo = Fifo(size: nat, buf: Bytes, inIdx: nat, outIdx: nat, w: Writer, r: Reader, sent: Bytes,
      taken: Bytes)

  datatype Step =
    | StartPut(data: Bytes)
    | CopyIn(j: nat)
    | EndPut
    | StartGet(want: nat)
    | CopyOut(j: nat)
    | EndGet

  /** Which steps the two threads can take. */
  predicate Enabled(f: Fifo, s: Step) {
    match s
    case StartPut(data) => f.w.Waiting? && |data| < WORD
    case CopyIn(j) => f.w.Putting? && j < |f.w.data| && j !in f.w.done
    case EndPut => f.w.Putting? && forall j :: 0 <= j < |f.w.data| ==> j in f.w.done
    case StartGet(want) => f.r.Resting? && want < WORD
    case CopyOut(j) => f.r.Getting? && j < f.r.len && j !in f.r.got
    case EndGet => f.r.Getting? && forall j :: 0 <= j < f.r.len ==> j in f.r.got
  }

  /** The free bytes a writer computes from one look at the reader's index. */
  function Room(f: Fifo): nat { Wrap(f.size - f.inIdx + f.outIdx) }

  /** The bytes a reader sees waiting. */
  function Used(f: Fifo): nat { Wrap(f.inIdx - f.outIdx) }

  ghost function Next(f: Fifo, s: Step): Fifo
    requires Enabled(f, s) && f.size > 0
  {
    match s
    case StartPut(data) => f.(w := Putting(data[..Min(|data|, Room(f))], {}))
    case CopyIn(j) =>
      var p := Place(f.size, f.inIdx, j);
      if p < |f.buf| then f.(buf := f.buf[p := f.w.data[j]], w := f.w.(done := f.w.done + {j})) else f
    case EndPut => f.(inIdx := Wrap(f.inIdx + |f.w.data|), w := Waiting, sent := f.sent + f.w.data)
    case StartGet(want) => f.(r := Getting(Min(want, Used(f)), map[]))
    case CopyOut(j) =>
      var p := Place(f.size, f.outIdx, j);
      if p < |f.buf| then f.(r := f.r.(got := f.r.got[j := f.buf[p]])) else f
    case EndGet => f.(outIdx := Wrap(f.outIdx + f.r.len), r := Resting,
      taken := f.taken + seq(f.r.len, j requires 0 <= j < f.r.len => f.r.got[j]))
  }

  // ---------------------------------------------------------------- what every interleaving keeps

  ghost predicate Shape(f: Fifo) {
    && GoodSize(f.size) && |f.buf| == f.size && f.size > 0
    && f.inIdx == Wrap(|f.sent|) && f.outIdx == Wrap(|f.taken|)
    && |f.taken| <= |f.sent| <= |f.taken| + f.size
  }

  /** The ring holds the bytes sent but not taken. */
  ghost predicate Holds(f: Fifo)
    requires Shape(f)
  {
    forall k :: |f.taken| <= k < |f.sent| ==> f.buf[Slot(f.size, k)] == f.sent[k]
  }

  ghost predicate WriterOk(f: Fifo)
    requires Shape(f)
  {
    f.w.Putting? ==>
      && |f.sent| + |f.w.data| <= |f.taken| + f.size
      && (forall j :: j in f.w.done ==> 0 <= j < |f.w.data| && f.buf[Slot(f.size, |f.sent| + j)] == f.w.data[j])
  }

  ghost predicate ReaderOk(f: Fifo)
    requires Shape(f)
  {
    f.r.Getting? ==>
      && |f.taken| + f.r.len <= |f.sent|
      && (forall j :: j in f.r.got ==> 0 <= j < f.r.len && f.r.got[j] == f.sent[|f.taken| + j])
  }

  ghost predicate Prefix(f: Fifo) {
    |f.taken| <= |f.sent| && forall k :: 0 <= k < |f.taken| ==> f.taken[k] == f.sent[k]
  }

  ghost predicate Inv(f: Fifo) {
    Shape(f) && Holds(f) && WriterOk(f) && ReaderOk(f) && Prefix(f)
  }

  /** The byte a writer stores never lands on a byte that is still to be read, nor on another byte
      of the same put. */
  lemma {:induction false} NoOverwrite(f: Fifo, j: nat)
    requires Shape(f) && WriterOk(f) && f.w.Putting? && j < |f.w.data|
    ensures Place(f.size, f.inIdx, j) == Slot(f.size, |f.sent| + j)
    ensures forall k :: |f.taken| <= k < |f.sent| + |f.w.data| && k != |f.sent| + j ==>
            Slot(f.size, k) != Slot(f.size, |f.sent| + j)
  {
    hide GoodSize;
    PlaceIs(f.size, |f.sent|, j);
    var b := |f.sent| + j;
    forall k | |f.taken| <= k < |f.sent| + |f.w.data| && k != b ensures Slot(f.size, k) != Slot(f.size, b) {
      if k < b { SlotsApart(f.size, k, b); } else { SlotsApart(f.size, b, k); }
    }
  }

  lemma {:induction false} StartPutOk(f: Fifo, data: Bytes)
    requires Inv(f) && Enabled(f, StartPut(data))
    ensures Inv(Next(f, StartPut(data)))
    ensures Room(f) == f.size - (|f.sent| - |f.taken|)
  {
    WrappedRoom(f.size, |f.sent|, |f.taken|);
  }

  lemma {:induction false} CopyInOk(f: Fifo, j: nat)
    requires Inv(f) && Enabled(f, CopyIn(j))
    ensures Inv(Next(f, CopyIn(j)))
  {
    hide GoodSize, Place, Slot, Wrap;
    NoOverwrite(f, j);
    var g := Next(f, CopyIn(j));
    forall i | i in g.w.done ensures 0 <= i < |g.w.data| && g.buf[Slot(g.size, |g.sent| + i)] == g.w.data[i] {
      assert i == j || i in f.w.done;
    }
  }

  lemma {:induction false} EndPutOk(f: Fifo)
    requires Inv(f) && Enabled(f, EndPut)
    ensures Inv(Next(f, EndPut))
  {
    hide GoodSize, Slot, Wrap;
    var g := Next(f, EndPut);
    WrappedAdd(|f.sent|, |f.w.data|);
    forall k | |g.taken| <= k < |g.sent| ensures g.buf[Slot(g.size, k)] == g.sent[k] {
      if k >= |f.sent| {
        assert k - |f.sent| in f.w.done;
        assert Slot(f.size, |f.sent| + (k - |f.sent|)) == Slot(f.size, k);
      }
    }
  }

  lemma {:induction false} StartGetOk(f: Fifo, want: nat)
    requires Inv(f) && Enabled(f, StartGet(want))
    ensures Inv(Next(f, StartGet(want)))
    ensures Used(f) == |f.sent| - |f.taken|
  {
    WrappedDistance(|f.sent|, |f.taken|);
  }

  lemma {:induction false} CopyOutOk(f: Fifo, j: nat)
    requires Inv(f) && Enabled(f, CopyOut(j))
    ensures Inv(Next(f, CopyOut(j)))
  {
    hide GoodSize, Place, Wrap, Slot, Holds;
    ReadsSent(f, j);
    var g := Next(f, CopyOut(j));
    assert g.buf == f.buf && Shape(g);
    assert Holds(g) by { SameRing(f, g); }
  }

  /** The byte a reader copies out is the next byte sent. */
  lemma {:induction false} ReadsSent(f: Fifo, j: nat)
    requires Inv(f) && f.r.Getting? && j < f.r.len
    ensures var p := Place(f.size, f.outIdx, j); p < |f.buf| && f.buf[p] == f.sent[|f.taken| + j]
  {
    hide GoodSize, Place, Wrap, Slot;
    PlaceIs(f.size, |f.taken|, j);
    assert f.buf[Slot(f.size, |f.taken| + j)] == f.sent[|f.taken| + j];
  }

  lemma {:induction false} SameRing(f: Fifo, g: Fifo)
    requires Shape(f) && Shape(g) && Holds(f)
    requires g.buf == f.buf && g.sent == f.sent && g.taken == f.taken && g.size == f.size
    ensures Holds(g)
  {
  }

  lemma {:induction false} EndGetOk(f: Fifo)
    requires Inv(f) && Enabled(f, EndGet)
    ensures Inv(Next(f, EndGet))
  {
    hide GoodSize, Slot, Wrap;
    var g := Next(f, EndGet);
    WrappedAdd(|f.taken|, f.r.len);
    forall k | 0 <= k < |g.taken| ensures g.taken[k] == g.sent[k] {
      if k >= |f.taken| { assert k - |f.taken| in f.r.got; }
    }
  }

  lemma {:induction false} NextOk(f: Fifo, s: Step)
    requires Inv(f) && Enabled(f, s)
    ensures Inv(Next(f, s))
  {
    hide Inv, Next, Enabled;
    match s
    case StartPut(data) => StartPutOk(f, data);
    case CopyIn(j) => CopyInOk(f, j);
    case EndPut => EndPutOk(f);
    case StartGet(want) => StartGetOk(f, want);
    case CopyOut(j) => CopyOutOk(f, j);
    case EndGet => EndGetOk(f);
  }

  // ---------------------------------------------------------------- whole runs

  ghost predicate RunOf(f: Fifo, steps: seq<Step>, g: Fifo)
    decreases |steps|
  {
    if steps == [] then f == g
    else f.size > 0 && Enabled(f, steps[0]) && RunOf(Next(f, steps[0]), steps[1..], g)
  }

  lemma {:induction false} RunKeeps(f: Fifo, steps: seq<Step>, g: Fifo)
    requires Inv(f) && RunOf(f, steps, g)
    ensures Inv(g)
    decreases |steps|
  {
    hide Inv, Next, Enabled;
    if steps != [] {
      NextOk(f, steps[0]);
      RunKeeps(Next(f, steps[0]), steps[1..], g);
    }
  }

  function Empty(buf: Bytes): Fifo { Fifo(|buf|, buf, 0, 0, Waiting, Resting, [], []) }

  /** However the two sides interleave, and however often the indices wrap, the reader has received
      a prefix of what the writer has sent. */
  lemma {:induction false} TakenIsPrefix(buf: Bytes, steps: seq<Step>, g: Fifo)
    requires GoodSize(|buf|) && RunOf(Empty(buf), steps, g)
    ensures g.taken <= g.sent && |g.sent| - |g.taken| <= |buf|
  {
    MaskMod(|buf|, 0);
    assert Inv(Empty(buf));
    RunKeeps(Empty(buf), steps, g);
    SizeStays(Empty(buf), steps, g);
  }

  lemma {:induction false} SizeStays(f: Fifo, steps: seq<Step>, g: Fifo)
    requires RunOf(f, steps, g)
    ensures g.size == f.size
    decreases |steps|
  {
    if steps != [] { SizeStays(Next(f, steps[0]), steps[1..], g); }
  }
}
