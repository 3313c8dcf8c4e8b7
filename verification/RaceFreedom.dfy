/**
 Quiet runs, in which nothing is cleared or rewritten in place, under release/acquire: whatever a reader
 reaches through an acquired pointer and count was written before the matching release store, is the
 last value written there, and is never written again.
 */
module RaceFreedom {
  import opened ReleaseAcquire
  import opened MemoryShape

  // ---- Invariant ---------------------------------------------------------------------------

  ghost predicate SeesRows(m: Memory, v: View, b: nat, n: nat) {
    forall i: nat :: i < n ==> UpToDate(m, v, Cell(b, i))
  }

  ghost predicate SeesAll(m: Memory, v: View, b: nat) {
    b < |m.bufs| && SeesRows(m, v, b, m.bufs[b].cells)
  }

  /** Whoever has caught up with a reference has caught up with the block behind it. */
  ghost predicate Transitive(m: Memory, v: View) {
    forall l: Loc :: l.Cell? && UpToDate(m, v, l) && Latest(m, l).Ref? ==> SeesAll(m, v, Latest(m, l).buf)
  }

  ghost predicate GoodView(m: Memory, v: View) {
    Bounded(m, v) && Transitive(m, v)
  }

  /** Locations nobody will write again. */
  ghost predicate Frozen(m: Memory, l: Loc) {
    && l.Cell? && l.buf < |m.bufs| && l.i < m.bufs[l.buf].cells
    && (m.bufs[l.buf].sealed || (m.bufs[l.buf].published && l.i < Readable(m, CountNow(m, l.buf))))
  }

  ghost predicate CountMessageOk(m: Memory, b: nat, k: nat)
    requires Count(b) in m.log && k < |m.log[Count(b)]|
  {
    var msg := m.log[Count(b)][k];
    && msg.value.Num? && msg.value.n <= CountNow(m, b)
    && GoodView(m, msg.view)
    && (k >= 2 ==> SeesRows(m, msg.view, b, Readable(m, msg.value.n)))
  }

  /** What acquiring a pointer to b gives: its header and every cell counted at publication. */
  ghost predicate Owns(m: Memory, v: View, b: nat) {
    && b < |m.bufs| && m.bufs[b].published
    && Seen(v, Count(b)) >= 1 && SeesRows(m, v, b, Readable(m, CountAt(m, b, 1)))
  }

  ghost predicate SlotMessageOk(m: Memory, msg: Message) {
    && GoodView(m, msg.view)
    && (msg.value.Ref? ==> Owns(m, msg.view, msg.value.buf))
  }

  ghost predicate ThreadOk(m: Memory, t: Thread) {
    && GoodView(m, t.view)
    && match t.pc
       case Idle => true
       case Acquired(b) => Owns(m, t.view, b)
       case Counted(b, n) =>
         && b < |m.bufs| && m.bufs[b].published && n <= CountNow(m, b)
         && SeesRows(m, t.view, b, Readable(m, n))
       case Following(b) => b < |m.bufs| && m.bufs[b].sealed && SeesAll(m, t.view, b)
  }

  ghost predicate CountMessagesOk(m: Memory, b: nat)
    requires Count(b) in m.log
  {
    forall k: nat :: 1 <= k < |m.log[Count(b)]| ==> CountMessageOk(m, b, k)
  }

  ghost predicate MemoryInv(m: Memory) {
    && Shape(m)
    && (forall b: nat :: Count(b) in m.log ==> CountMessagesOk(m, b))
    && (forall k: nat :: k < |Messages(m, Slot)| ==> SlotMessageOk(m, m.log[Slot][k]))
  }

  ghost predicate Inv(s: State) {
    && MemoryInv(s.memory)
    && (forall r :: r in s.readers ==> ThreadOk(s.memory, s.readers[r]))
    && (forall l :: l in s.touched ==> Frozen(s.memory, l))
  }

  // ---- Small facts -------------------------------------------------------------------------

  lemma WriterSeesAll(m: Memory)
    requires MemoryOk(m) && ValuesOk(m)
    ensures GoodView(m, m.writer)
  {
    forall l: Loc | l.Cell? && UpToDate(m, m.writer, l) && Latest(m, l).Ref?
      ensures SeesAll(m, m.writer, Latest(m, l).buf)
    {
      var b := Latest(m, l).buf;
      assert ValueOk(m, l, |m.log[l]| - 1);
      forall i: nat | i < m.bufs[b].cells ensures UpToDate(m, m.writer, Cell(b, i)) {
        assert Allocated(m, Cell(b, i));
      }
    }
  }

  lemma JoinUpToDate(m: Memory, v: View, w: View, l: Loc)
    requires Bounded(m, v) && Bounded(m, w)
    ensures UpToDate(m, Join(v, w), l) <==> UpToDate(m, v, l) || UpToDate(m, w, l)
  {
  }

  lemma JoinGood(m: Memory, v: View, w: View)
    requires GoodView(m, v) && GoodView(m, w)
    ensures GoodView(m, Join(v, w))
  {
    forall l: Loc | l.Cell? && UpToDate(m, Join(v, w), l) && Latest(m, l).Ref?
      ensures SeesAll(m, Join(v, w), Latest(m, l).buf)
    {
      JoinUpToDate(m, v, w, l);
      var b := Latest(m, l).buf;
      forall i: nat | i < m.bufs[b].cells ensures UpToDate(m, Join(v, w), Cell(b, i)) {
        JoinUpToDate(m, v, w, Cell(b, i));
      }
    }
  }

  lemma JoinSeesRows(m: Memory, v: View, w: View, b: nat, n: nat)
    requires Bounded(m, v) && Bounded(m, w) && (SeesRows(m, v, b, n) || SeesRows(m, w, b, n))
    ensures SeesRows(m, Join(v, w), b, n)
  {
    forall i: nat | i < n ensures UpToDate(m, Join(v, w), Cell(b, i)) {
      JoinUpToDate(m, v, w, Cell(b, i));
    }
  }

  /** Advancing a view at an atomic location keeps it good. */
  lemma AdvanceGood(m: Memory, v: View, l: Loc, ts: nat)
    requires GoodView(m, v) && !l.Cell? && l in m.log && ts < |m.log[l]|
    ensures GoodView(m, v[l := ts])
    ensures forall b: nat, n: nat :: SeesRows(m, v, b, n) ==> SeesRows(m, v[l := ts], b, n)
  {
    forall k: Loc | k.Cell? ensures UpToDate(m, v[l := ts], k) <==> UpToDate(m, v, k) {
    }
  }

  // ---- Reads -------------------------------------------------------------------------------

  /** The two ways a plain read can be undefined: some write to the location is not ordered before it,
      or nothing has been written there. Neither can happen, and no load yields garbage either. */
  lemma ReadsAreRaceFree(m: Memory, t: Thread, a: ReadAction)
    requires MemoryInv(m) && ThreadOk(m, t) && MayRead(m, t, a)
    ensures var l := Target(t.pc, a);
            && m.log[l][a.ts].value != Garbage
            && (a.ReadCell? ==> UpToDate(m, t.view, l) && Frozen(m, l) && a.ts == |m.log[l]| - 1)
  {
    match a
    case LoadSlot(ts) => assert PointerOk(m, ts);
    case LoadCount(ts) =>
      assert BufferOk(m, t.pc.buf);
      assert CountMessageOk(m, t.pc.buf, ts);
    case ReadCell(i, _) =>
      if t.pc.Counted? {
        assert BufferOk(m, t.pc.buf);
        ReadableMonotone(m, t.pc.count, CountNow(m, t.pc.buf));
        assert UpToDate(m, t.view, Cell(t.pc.buf, i));
      } else {
        assert BufferOk(m, t.pc.block);
        assert UpToDate(m, t.view, Cell(t.pc.block, i));
      }
  }

  lemma LoadSlotOk(m: Memory, t: Thread, ts: nat)
    requires MemoryInv(m) && ThreadOk(m, t) && MayRead(m, t, LoadSlot(ts))
    ensures ThreadOk(m, Read(m, t, LoadSlot(ts)))
  {
    var msg := m.log[Slot][ts];
    assert SlotMessageOk(m, msg);
    AdvanceGood(m, t.view, Slot, ts);
    JoinGood(m, t.view[Slot := ts], msg.view);
    if msg.value.Ref? {
      JoinSeesRows(m, t.view[Slot := ts], msg.view, msg.value.buf, Readable(m, CountAt(m, msg.value.buf, 1)));
    }
  }

  lemma LoadCountOk(m: Memory, t: Thread, ts: nat)
    requires MemoryInv(m) && ThreadOk(m, t) && MayRead(m, t, LoadCount(ts))
    ensures ThreadOk(m, Read(m, t, LoadCount(ts)))
  {
    var b := t.pc.buf;
    var msg, v := m.log[Count(b)][ts], t.view[Count(b) := ts];
    assert BufferOk(m, b);
    assert CountMessageOk(m, b, ts);
    AdvanceGood(m, t.view, Count(b), ts);
    JoinGood(m, v, msg.view);
    JoinSeesRows(m, v, msg.view, b, Readable(m, if ts == 1 then CountAt(m, b, 1) else msg.value.n));
  }

  lemma ReadCellOk(m: Memory, t: Thread, a: ReadAction)
    requires MemoryInv(m) && ThreadOk(m, t) && a.ReadCell? && MayRead(m, t, a)
    ensures ThreadOk(m, Read(m, t, a))
  {
    ReadsAreRaceFree(m, t, a);
    var l := Target(t.pc, a);
    var v := t.view[l := a.ts];
    assert ValueOk(m, l, a.ts);
    assert forall k: Loc :: Seen(v, k) == Seen(t.view, k);
    assert forall k: Loc :: UpToDate(m, v, k) == UpToDate(m, t.view, k);
    assert GoodView(m, v);
    assert Latest(m, l) == m.log[l][a.ts].value;
  }

  lemma ReadKeepsInv(s: State, r: nat, a: ReadAction)
    requires Inv(s) && StepAllowed(s, Reads(r, a))
    ensures Inv(Next(s, Reads(r, a)))
  {
    hide MemoryInv, ThreadOk, MayRead, Frozen;
    var t := ThreadAt(s, r);
    NewThreadOk(s.memory);
    ReadsAreRaceFree(s.memory, t, a);
    ReadOk(s.memory, t, a);
  }

  lemma NewThreadOk(m: Memory)
    requires MemoryInv(m)
    ensures ThreadOk(m, Thread(Idle, map[]))
  {
    EmptyViewGood(m);
  }

  lemma ReadOk(m: Memory, t: Thread, a: ReadAction)
    requires MemoryInv(m) && ThreadOk(m, t) && MayRead(m, t, a)
    ensures ThreadOk(m, Read(m, t, a))
  {
    hide MemoryInv, ThreadOk, MayRead, Read;
    match a
    case LoadSlot(ts) => LoadSlotOk(m, t, ts);
    case LoadCount(ts) => LoadCountOk(m, t, ts);
    case ReadCell(_, _) => ReadCellOk(m, t, a);
  }

  /** A view that has seen no cell past its allocation has seen no reference. */
  lemma EmptyViewGood(m: Memory)
    requires MemoryOk(m)
    ensures GoodView(m, map[])
    ensures forall l: Loc, ts: nat :: !l.Cell? && l in m.log && ts < |m.log[l]| ==> GoodView(m, map[l := ts])
  {
    forall v: View | forall l: Loc :: l in v ==> !l.Cell? && l in m.log && v[l] < |m.log[l]| ensures GoodView(m, v) {
      forall l: Loc | l.Cell? && UpToDate(m, v, l) ensures !Latest(m, l).Ref? {
        assert m.log[l][0].value == Garbage;
      }
    }
  }

  // ---- Writes ------------------------------------------------------------------------------

  /** What a quiet action may do to memory: append messages, and never to a frozen location. */
  ghost predicate Evolves(m: Memory, m': Memory) {
    && Extends(m, m')
    && (forall b: nat :: b < |m.bufs| ==> CountNow(m, b) <= CountNow(m', b))
    && (forall l: Loc :: Frozen(m, l) ==> l in m.log && m'.log[l] == m.log[l])
  }

  lemma NothingFrozenIsStored(m: Memory, a: Action)
    requires MemoryInv(m) && Enabled(m, a) && !a.Alloc?
    ensures StoredTo(m, a) in m.log && !Frozen(m, StoredTo(m, a))
  {
    StoresAreLegal(m, a);
  }

  lemma CountsGrow(m: Memory, a: Action, b: nat)
    requires MemoryInv(m) && Enabled(m, a) && b < |m.bufs|
    ensures CountNow(m, b) <= CountNow(Act(m, a), b)
  {
    assert BufferOk(m, b) && Allocated(m, Count(b));
    LatestStays(m, a, Count(b));
    if !a.Alloc? {
      StoresAreLegal(m, a);
      StoreLatest(m, a);
    }
  }

  lemma ActEvolves(m: Memory, a: Action)
    requires MemoryInv(m) && Enabled(m, a)
    ensures Evolves(m, Act(m, a))
  {
    ActExtends(m, a);
    forall l: Loc | Frozen(m, l) ensures l in m.log && Act(m, a).log[l] == m.log[l] {
      assert Allocated(m, l);
      if a.Alloc? {
        AllocEffect(m, a.cells, l);
      } else {
        NothingFrozenIsStored(m, a);
        StoreEffect(m, a);
      }
    }
    forall b: nat | b < |m.bufs| ensures CountNow(m, b) <= CountNow(Act(m, a), b) {
      CountsGrow(m, a, b);
    }
  }

  lemma FrozenStays(m: Memory, m': Memory, l: Loc)
    requires Evolves(m, m') && Frozen(m, l)
    ensures Frozen(m', l)
  {
    ReadableMonotone(m, CountNow(m, l.buf), CountNow(m', l.buf));
  }

  lemma SeesRowsStays(m: Memory, m': Memory, v: View, b: nat, n: nat)
    requires Evolves(m, m') && SeesRows(m, v, b, n)
    requires forall i: nat :: i < n ==> Frozen(m, Cell(b, i))
    ensures SeesRows(m', v, b, n)
  {
  }

  /** A bounded view has not seen anything new, so what it has caught up with is what it had. */
  lemma GoodViewStays(m: Memory, m': Memory, v: View)
    requires Evolves(m, m') && MemoryOk(m) && ValuesOk(m) && GoodView(m, v)
    ensures GoodView(m', v)
  {
    forall l: Loc | l.Cell? && UpToDate(m', v, l) && Latest(m', l).Ref?
      ensures SeesAll(m', v, Latest(m', l).buf)
    {
      assert l in m.log && Seen(v, l) < |m.log[l]| && m.log[l] <= m'.log[l];
      assert m'.log[l] == m.log[l];
      assert UpToDate(m, v, l) && Latest(m, l) == Latest(m', l);
      var b := Latest(m, l).buf;
      assert ValueOk(m, l, |m.log[l]| - 1);
      SeesRowsStays(m, m', v, b, m.bufs[b].cells);
    }
  }

  lemma CountMessageStays(m: Memory, m': Memory, b: nat, k: nat)
    requires MemoryInv(m) && Evolves(m, m') && b < |m.bufs|
    requires Count(b) in m.log && 1 <= k < |m.log[Count(b)]|
    ensures CountMessageOk(m', b, k)
  {
    var msg := m.log[Count(b)][k];
    assert BufferOk(m, b) && CountMessagesOk(m, b) && CountMessageOk(m, b, k);
    GoodViewStays(m, m', msg.view);
    assert m'.log[Count(b)][k] == msg;
    if k >= 2 {
      ReadableMonotone(m, msg.value.n, CountNow(m, b));
      CountedRowsFit(m, b);
      SeesRowsStays(m, m', msg.view, b, Readable(m, msg.value.n));
    }
  }

  lemma CountedRowsFit(m: Memory, b: nat)
    requires Shape(m) && b < |m.bufs| && |Messages(m, Count(b))| >= 2
    ensures Readable(m, CountNow(m, b)) <= m.bufs[b].cells
  {
    assert BufferOk(m, b) && CountOk(m, b, |Messages(m, Count(b))| - 1);
  }

  lemma OwnsStays(m: Memory, m': Memory, v: View, b: nat)
    requires MemoryInv(m) && Evolves(m, m') && Owns(m, v, b)
    ensures Owns(m', v, b)
  {
    assert Allocated(m, Count(b)) && BufferOk(m, b) && CountMessagesOk(m, b) && CountMessageOk(m, b, 1);
    CountedRowsFit(m, b);
    ReadableMonotone(m, CountAt(m, b, 1), CountNow(m, b));
    SeesRowsStays(m, m', v, b, Readable(m, CountAt(m, b, 1)));
    assert CountAt(m', b, 1) == CountAt(m, b, 1);
  }

  lemma ThreadStays(m: Memory, m': Memory, t: Thread)
    requires MemoryInv(m) && Evolves(m, m') && ThreadOk(m, t)
    ensures ThreadOk(m', t)
  {
    GoodViewStays(m, m', t.view);
    match t.pc
    case Idle =>
    case Acquired(b) => OwnsStays(m, m', t.view, b);
    case Counted(b, n) =>
      assert BufferOk(m, b);
      CountedRowsFit(m, b);
      ReadableMonotone(m, n, CountNow(m, b));
      SeesRowsStays(m, m', t.view, b, Readable(m, n));
    case Following(b) =>
      SeesRowsStays(m, m', t.view, b, m.bufs[b].cells);
  }

  lemma SlotMessageStays(m: Memory, m': Memory, msg: Message)
    requires MemoryInv(m) && Evolves(m, m') && SlotMessageOk(m, msg)
    ensures SlotMessageOk(m', msg)
  {
    GoodViewStays(m, m', msg.view);
    if msg.value.Ref? {
      OwnsStays(m, m', msg.view, msg.value.buf);
    }
  }

  /** The writer has seen everything, so the count it releases vouches for all rows it covers. */
  lemma CommittedMessageOk(m: Memory, b: nat, k: nat, n: nat)
    requires Shape(m) && b < |m.bufs| && Readable(m, n) <= m.bufs[b].cells
    requires Count(b) in m.log && k < |m.log[Count(b)]| && n <= CountNow(m, b)
    requires m.log[Count(b)][k] == Message(Num(n), m.writer)
    ensures CountMessageOk(m, b, k)
  {
    WriterSeesAll(m);
    forall i: nat | i < Readable(m, n) ensures UpToDate(m, m.writer, Cell(b, i)) {
      assert Allocated(m, Cell(b, i));
    }
  }

  lemma CommitOk(m: Memory, b: nat, n: nat, k: nat)
    requires MemoryInv(m) && Enabled(m, Commit(n)) && Shape(Act(m, Commit(n))) && Latest(m, Slot) == Ref(b)
    requires Count(b) in m.log && Count(b) in Act(m, Commit(n)).log && k == |m.log[Count(b)]| < |Act(m, Commit(n)).log[Count(b)]|
    ensures CountMessageOk(Act(m, Commit(n)), b, k)
  {
    var m' := Act(m, Commit(n));
    StoreLatest(m, Commit(n));
    assert m'.log[Count(b)][k] == Message(Num(n), m'.writer);
    CommittedMessageOk(m', b, k, n);
  }

  lemma SetCountOk(m: Memory, b: nat, n: nat)
    requires MemoryInv(m) && Enabled(m, SetCount(b, n)) && Shape(Act(m, SetCount(b, n)))
    ensures Count(b) in Act(m, SetCount(b, n)).log && |Act(m, SetCount(b, n)).log[Count(b)]| == 2
    ensures CountMessageOk(Act(m, SetCount(b, n)), b, 1)
  {
    var m' := Act(m, SetCount(b, n));
    assert Allocated(m, Count(b));
    StoreEffect(m, SetCount(b, n));
    EmptyViewGood(m');
    assert m'.log[Count(b)][1] == Message(Num(n), map[Count(b) := 1]);
  }

  lemma CountMessageAfter(m: Memory, a: Action, b: nat, k: nat)
    requires MemoryInv(m) && Enabled(m, a) && Shape(Act(m, a))
    requires Count(b) in Act(m, a).log && 1 <= k < |Act(m, a).log[Count(b)]|
    ensures CountMessageOk(Act(m, a), b, k)
  {
    ActEvolves(m, a);
    NewMessage(m, a, Count(b), k);
    assert Allocated(Act(m, a), Count(b));
    assert Allocated(m, Count(b)) <==> b < |m.bufs|;
    if k < |Messages(m, Count(b))| {
      CountMessageStays(m, Act(m, a), b, k);
    } else {
      StoresAreLegal(m, a);
      StoreEffect(m, a);
      if a.SetCount? {
        SetCountOk(m, b, a.n);
      } else {
        CommitOk(m, b, a.n, k);
      }
    }
  }

  lemma SlotMessageAfter(m: Memory, a: Action, k: nat)
    requires MemoryInv(m) && Enabled(m, a) && Shape(Act(m, a)) && k < |Messages(Act(m, a), Slot)|
    ensures SlotMessageOk(Act(m, a), Act(m, a).log[Slot][k])
  {
    var m' := Act(m, a);
    ActEvolves(m, a);
    NewMessage(m, a, Slot, k);
    assert Allocated(m, Slot);
    if k < |m.log[Slot]| {
      assert SlotMessageOk(m, m.log[Slot][k]);
      SlotMessageStays(m, m', m.log[Slot][k]);
    } else {
      StoresAreLegal(m, a);
      StoreEffect(m, a);
      NewSlotMessageOk(m, a);
    }
  }

  lemma NewSlotMessageOk(m: Memory, a: Action)
    requires MemoryInv(m) && Enabled(m, a) && (a.Publish? || a.PublishNull?) && Shape(Act(m, a)) && Slot in m.log
    ensures SlotMessageOk(Act(m, a), Act(m, a).log[Slot][|m.log[Slot]|])
  {
    var m' := Act(m, a);
    WriterSeesAll(m');
    if a.Publish? {
      var b := a.buf;
      assert BufferOk(m, b) && Allocated(m', Count(b)) && Allocated(m, Count(b));
      StoreEffect(m, a);
      CountedRowsFit(m', b);
      assert CountAt(m', b, 1) == CountNow(m', b);
      forall i: nat | i < Readable(m', CountAt(m', b, 1)) ensures UpToDate(m', m'.writer, Cell(b, i)) {
        assert Allocated(m', Cell(b, i));
      }
    }
  }

  lemma ActKeepsMemoryInv(m: Memory, a: Action)
    requires MemoryInv(m) && Enabled(m, a)
    ensures MemoryInv(Act(m, a))
  {
    var m' := Act(m, a);
    ActKeepsShape(m, a);
    forall b: nat | Count(b) in m'.log ensures CountMessagesOk(m', b) {
      forall k: nat | 1 <= k < |m'.log[Count(b)]| ensures CountMessageOk(m', b, k) {
        CountMessageAfter(m, a, b, k);
      }
    }
    forall k: nat | k < |Messages(m', Slot)| ensures SlotMessageOk(m', m'.log[Slot][k]) {
      SlotMessageAfter(m, a, k);
    }
  }

  lemma WriteKeepsInv(s: State, a: Action)
    requires Inv(s) && Enabled(s.memory, a)
    ensures Inv(Next(s, Writes(a)))
  {
    ActKeepsMemoryInv(s.memory, a);
    ActEvolves(s.memory, a);
    forall r | r in s.readers ensures ThreadOk(Act(s.memory, a), s.readers[r]) {
      ThreadStays(s.memory, Act(s.memory, a), s.readers[r]);
    }
    forall l | l in s.touched ensures Frozen(Act(s.memory, a), l) {
      FrozenStays(s.memory, Act(s.memory, a), l);
    }
  }

  // ---- Whole runs --------------------------------------------------------------------------

  lemma {:induction false} RunKeepsInv(run: seq<State>, steps: seq<Step>, n: nat)
    requires IsRun(run, steps) && Quiet(steps) && n <= |steps|
    ensures Inv(run[n])
  {
    if n == 0 {
      EmptyViewGood(run[0].memory);
    } else {
      RunKeepsInv(run, steps, n - 1);
      match steps[n - 1]
      case Writes(a) => WriteKeepsInv(run[n - 1], a);
      case Reads(r, a) => ReadKeepsInv(run[n - 1], r, a);
    }
  }

  /** In every quiet run, whatever stale messages the loads pick, a plain read finds the
      location written, finds every write to it ordered before the read (so only the latest value can
      be returned), and finds it final: no later step of the run writes it. */
  lemma ReadersSeeInitialisedMemory(run: seq<State>, steps: seq<Step>, n: nat, k: nat)
    requires IsRun(run, steps) && Quiet(steps) && n < |steps| && steps[n].Reads? && n <= k <= |steps|
    ensures var t, a := ThreadAt(run[n], steps[n].reader), steps[n].read;
            var l := Target(t.pc, a);
            && run[n].memory.log[l][a.ts].value != Garbage
            && (a.ReadCell? ==>
                  && UpToDate(run[n].memory, t.view, l)
                  && a.ts == |run[n].memory.log[l]| - 1
                  && Messages(run[k].memory, l) == run[n].memory.log[l])
  {
    RunKeepsInv(run, steps, n);
    var s := run[n];
    var t, a := ThreadAt(s, steps[n].reader), steps[n].read;
    EmptyViewGood(s.memory);
    assert ThreadOk(s.memory, t);
    ReadsAreRaceFree(s.memory, t, a);
    if a.ReadCell? {
      FrozenForGood(run, steps, n, k, Target(t.pc, a));
    }
  }

  lemma FrozenThroughStep(s: State, step: Step, l: Loc)
    requires Inv(s) && StepAllowed(s, step) && (step.Writes? ==> Enabled(s.memory, step.action)) && Frozen(s.memory, l)
    ensures Frozen(Next(s, step).memory, l)
    ensures Messages(Next(s, step).memory, l) == Messages(s.memory, l)
  {
    if step.Writes? {
      ActEvolves(s.memory, step.action);
      FrozenStays(s.memory, Act(s.memory, step.action), l);
    }
  }

  lemma {:induction false} FrozenForGood(run: seq<State>, steps: seq<Step>, n: nat, k: nat, l: Loc)
    requires IsRun(run, steps) && Quiet(steps) && n <= k <= |steps| && Frozen(run[n].memory, l)
    ensures Frozen(run[k].memory, l)
    ensures Messages(run[k].memory, l) == Messages(run[n].memory, l)
    decreases k
  {
    hide Inv, Frozen, Messages;
    if n < k {
      FrozenForGood(run, steps, n, k - 1, l);
      RunKeepsInv(run, steps, k - 1);
      FrozenThroughStep(run[k - 1], steps[k - 1], l);
    }
  }

  /** The converse half of race freedom: in a quiet run the writer never stores plainly to what a reader
      has read. */
  lemma WritesAreRaceFree(run: seq<State>, steps: seq<Step>, n: nat)
    requires IsRun(run, steps) && Quiet(steps) && n < |steps| && steps[n].Writes? && steps[n].action.Write?
    ensures Cell(steps[n].action.buf, steps[n].action.i) !in run[n].touched
  {
    RunKeepsInv(run, steps, n);
    NothingFrozenIsStored(run[n].memory, steps[n].action);
  }
}
