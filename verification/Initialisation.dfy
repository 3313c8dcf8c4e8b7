/**
 All runs, array clears and in-place overwrites included: no reader ever loads uninitialised memory.

 Views no longer catch up with everything behind them, so the invariant is per cell: a reader that may
 load a cell has seen some write to it, and no reference has been written there since.
 */
module Initialisation {
  import opened ReleaseAcquire
  import opened MemoryShape

  // ---- Invariant ---------------------------------------------------------------------------

  /** Some write to the cell is behind the view, no reference is ahead of it, and nothing at all unless the
      cell has been rewritten. */
  ghost predicate Solid(m: Memory, v: View, l: Loc) {
    && 1 <= Seen(v, l) < |Messages(m, l)|
    && (l !in m.rewritten ==> UpToDate(m, v, l))
    && forall k: nat :: Seen(v, l) < k < |Messages(m, l)| ==> !Messages(m, l)[k].value.Ref?
  }

  ghost predicate SolidRows(m: Memory, v: View, b: nat, n: nat) {
    forall i: nat :: i < n ==> Solid(m, v, Cell(b, i))
  }

  ghost predicate HasBlock(m: Memory, v: View, b: nat) {
    b < |m.bufs| && m.bufs[b].sealed && SolidRows(m, v, b, m.bufs[b].cells)
  }

  /** A view that has seen a reference has the block behind it. */
  ghost predicate Closed(m: Memory, v: View) {
    forall l: Loc :: l.Cell? && 1 <= Seen(v, l) < |Messages(m, l)| && Messages(m, l)[Seen(v, l)].value.Ref? ==>
      HasBlock(m, v, Messages(m, l)[Seen(v, l)].value.buf)
  }

  ghost predicate ViewOk(m: Memory, v: View) {
    Bounded(m, v) && Closed(m, v)
  }

  /** What acquiring a pointer to b gives: its first count, and the rows of that count. */
  ghost predicate Owns(m: Memory, v: View, b: nat) {
    && b < |m.bufs| && m.bufs[b].published
    && Seen(v, Count(b)) >= 1 && SolidRows(m, v, b, Readable(m, CountAt(m, b, 1)))
  }

  ghost predicate CountMessageOk(m: Memory, b: nat, k: nat)
    requires k < |Messages(m, Count(b))|
  {
    var msg := Messages(m, Count(b))[k];
    ViewOk(m, msg.view) && (k >= 2 ==> SolidRows(m, msg.view, b, Readable(m, CountAt(m, b, k))))
  }

  /** The slot message was released when its buffer had just the count it was built with. */
  ghost predicate SlotMessageOk(m: Memory, msg: Message) {
    && ViewOk(m, msg.view)
    && (msg.value.Ref? ==> Owns(m, msg.view, msg.value.buf) && Seen(msg.view, Count(msg.value.buf)) == 1)
  }

  ghost predicate MemoryInv(m: Memory) {
    && Shape(m)
    && (forall b: nat, k: nat :: 1 <= k < |Messages(m, Count(b))| ==> CountMessageOk(m, b, k))
    && (forall k: nat :: k < |Messages(m, Slot)| ==> SlotMessageOk(m, Messages(m, Slot)[k]))
  }

  /** b has had this count. */
  ghost predicate WasCount(m: Memory, b: nat, n: nat) {
    exists j: nat :: 1 <= j < |Messages(m, Count(b))| && CountAt(m, b, j) == n
  }

  ghost predicate ThreadOk(m: Memory, t: Thread) {
    && ViewOk(m, t.view)
    && match t.pc
       case Idle => true
       case Acquired(b) => Owns(m, t.view, b)
       case Counted(b, n) =>
         b < |m.bufs| && m.bufs[b].published && WasCount(m, b, n) && SolidRows(m, t.view, b, Readable(m, n))
       case Following(b) => HasBlock(m, t.view, b)
  }

  ghost predicate Inv(s: State) {
    && MemoryInv(s.memory)
    && (forall r :: r in s.readers ==> ThreadOk(s.memory, s.readers[r]))
    && (forall l :: l in s.touched ==> Reachable(s.memory, l))
  }

  // ---- Views -------------------------------------------------------------------------------

  lemma SolidInLarger(m: Memory, v: View, w: View, l: Loc)
    requires Solid(m, v, l) && Bounded(m, w) && Seen(v, l) <= Seen(w, l)
    ensures Solid(m, w, l)
  {
    assert l in w && l in m.log;
  }

  lemma HasBlockInLarger(m: Memory, v: View, w: View, b: nat)
    requires HasBlock(m, v, b) && Bounded(m, w) && forall l: Loc :: Seen(v, l) <= Seen(w, l)
    ensures HasBlock(m, w, b)
  {
    RowsInLarger(m, v, w, b, m.bufs[b].cells);
  }

  lemma RowsInLarger(m: Memory, v: View, w: View, b: nat, n: nat)
    requires SolidRows(m, v, b, n) && Bounded(m, w) && forall l: Loc :: Seen(v, l) <= Seen(w, l)
    ensures SolidRows(m, w, b, n)
  {
    forall i: nat | i < n ensures Solid(m, w, Cell(b, i)) {
      SolidInLarger(m, v, w, Cell(b, i));
    }
  }

  lemma JoinOk(m: Memory, v: View, w: View)
    requires ViewOk(m, v) && ViewOk(m, w)
    ensures ViewOk(m, Join(v, w))
    ensures forall l: Loc :: Seen(v, l) <= Seen(Join(v, w), l) && Seen(w, l) <= Seen(Join(v, w), l)
  {
    var both := Join(v, w);
    forall l: Loc | l.Cell? && 1 <= Seen(both, l) < |Messages(m, l)| && Messages(m, l)[Seen(both, l)].value.Ref?
      ensures HasBlock(m, both, Messages(m, l)[Seen(both, l)].value.buf)
    {
      var b := Messages(m, l)[Seen(both, l)].value.buf;
      HasBlockInLarger(m, if Seen(both, l) == Seen(v, l) then v else w, both, b);
    }
  }

  /** Advancing a view, at an atomic location or past a cell's last reference. */
  lemma AdvanceOk(m: Memory, v: View, l: Loc, ts: nat)
    requires ViewOk(m, v) && l in m.log && Seen(v, l) <= ts < |m.log[l]|
    requires l.Cell? ==> ts == Seen(v, l) || !m.log[l][ts].value.Ref?
    ensures ViewOk(m, v[l := ts])
    ensures forall k: Loc :: Seen(v, k) <= Seen(v[l := ts], k)
  {
    var w := v[l := ts];
    forall k: Loc | k.Cell? && 1 <= Seen(w, k) < |Messages(m, k)| && Messages(m, k)[Seen(w, k)].value.Ref?
      ensures HasBlock(m, w, Messages(m, k)[Seen(w, k)].value.buf)
    {
      assert Seen(w, k) == Seen(v, k);
      HasBlockInLarger(m, v, w, Messages(m, k)[Seen(w, k)].value.buf);
    }
  }

  /** The writer has seen everything. */
  lemma WriterIsSolid(m: Memory, b: nat, n: nat)
    requires Shape(m) && Written(m, b, n)
    ensures SolidRows(m, m.writer, b, n)
  {
    forall i: nat | i < n ensures Solid(m, m.writer, Cell(b, i)) {
      var l := Cell(b, i);
      assert l in m.log && UpToDate(m, m.writer, l) && m.log[l][0].value == Garbage;
    }
  }

  lemma WriterIsOk(m: Memory)
    requires Shape(m)
    ensures ViewOk(m, m.writer)
  {
    var v := m.writer;
    forall l: Loc | l.Cell? && 1 <= Seen(v, l) < |Messages(m, l)| && Messages(m, l)[Seen(v, l)].value.Ref?
      ensures HasBlock(m, v, Messages(m, l)[Seen(v, l)].value.buf)
    {
      var b := Messages(m, l)[Seen(v, l)].value.buf;
      assert ValueOk(m, l, Seen(v, l));
      assert BufferOk(m, b);
      WriterIsSolid(m, b, m.bufs[b].cells);
    }
  }

  /** A view of atomic locations only. */
  lemma SmallViewOk(m: Memory, v: View)
    requires Bounded(m, v) && forall l: Loc :: l in v ==> !l.Cell?
    ensures ViewOk(m, v)
  {
  }

  // ---- Reads -------------------------------------------------------------------------------

  /** No load, atomic or plain, yields garbage, and plain reads stay within what is reachable. */
  lemma ReadsAreInitialised(m: Memory, t: Thread, a: ReadAction)
    requires MemoryInv(m) && ThreadOk(m, t) && MayRead(m, t, a)
    ensures m.log[Target(t.pc, a)][a.ts].value != Garbage
    ensures a.ReadCell? ==> Reachable(m, Target(t.pc, a)) && Solid(m, t.view, Target(t.pc, a))
    ensures a.ReadCell? && Target(t.pc, a) !in m.rewritten ==> a.ts == |m.log[Target(t.pc, a)]| - 1
  {
    var l := Target(t.pc, a);
    assert ValueOk(m, l, a.ts);
    match a
    case LoadSlot(ts) => assert PointerOk(m, ts);
    case LoadCount(ts) =>
    case ReadCell(i, _) =>
      assert Solid(m, t.view, l);
      if t.pc.Counted? {
        var j: nat :| 1 <= j < |Messages(m, Count(t.pc.buf))| && CountAt(m, t.pc.buf, j) == t.pc.count;
        assert Covered(m, t.pc.buf, i);
      }
  }

  lemma LoadSlotOk(m: Memory, t: Thread, ts: nat)
    requires MemoryInv(m) && ThreadOk(m, t) && MayRead(m, t, LoadSlot(ts))
    ensures ThreadOk(m, Read(m, t, LoadSlot(ts)))
  {
    var msg, v := Messages(m, Slot)[ts], t.view[Slot := ts];
    assert SlotMessageOk(m, msg);
    AdvanceOk(m, t.view, Slot, ts);
    JoinOk(m, v, msg.view);
    if msg.value.Ref? {
      RowsInLarger(m, msg.view, Join(v, msg.view), msg.value.buf, Readable(m, CountAt(m, msg.value.buf, 1)));
    }
  }

  lemma LoadCountOk(m: Memory, t: Thread, ts: nat)
    requires MemoryInv(m) && ThreadOk(m, t) && MayRead(m, t, LoadCount(ts))
    ensures ThreadOk(m, Read(m, t, LoadCount(ts)))
  {
    var b := t.pc.buf;
    var msg, v := Messages(m, Count(b))[ts], t.view[Count(b) := ts];
    assert CountMessageOk(m, b, ts);
    assert BufferOk(m, b) && CountOk(m, b, ts);
    AdvanceOk(m, t.view, Count(b), ts);
    JoinOk(m, v, msg.view);
    RowsInLarger(m, if ts == 1 then t.view else msg.view, Join(v, msg.view), b, Readable(m, CountAt(m, b, ts)));
  }

  lemma ReadCellOk(m: Memory, t: Thread, a: ReadAction)
    requires MemoryInv(m) && ThreadOk(m, t) && a.ReadCell? && MayRead(m, t, a)
    ensures ThreadOk(m, Read(m, t, a))
  {
    ReadsAreInitialised(m, t, a);
    var l := Target(t.pc, a);
    var value, v := m.log[l][a.ts].value, t.view[l := a.ts];
    AdvanceOk(m, t.view, l, a.ts);
    if value.Ref? {
      HasBlockInLarger(m, t.view, v, value.buf);
    } else if t.pc.Counted? {
      RowsInLarger(m, t.view, v, t.pc.buf, Readable(m, t.pc.count));
    } else {
      HasBlockInLarger(m, t.view, v, t.pc.block);
    }
  }

  lemma ReadKeepsInv(s: State, r: nat, a: ReadAction)
    requires Inv(s) && MayRead(s.memory, ThreadAt(s, r), a)
    ensures Inv(Next(s, Reads(r, a)))
  {
    hide MemoryInv, ThreadOk, MayRead, Reachable;
    var t := ThreadAt(s, r);
    NewThreadOk(s.memory);
    ReadsAreInitialised(s.memory, t, a);
    ReadOk(s.memory, t, a);
  }

  lemma NewThreadOk(m: Memory)
    ensures ThreadOk(m, Thread(Idle, map[]))
  {
    SmallViewOk(m, map[]);
  }

  lemma ReadOk(m: Memory, t: Thread, a: ReadAction)
    requires MemoryInv(m) && ThreadOk(m, t) && MayRead(m, t, a)
    ensures ThreadOk(m, Read(m, t, a))
  {
    hide MemoryInv, ThreadOk, MayRead, Read;
    match a
    case LoadSlot(ts) => LoadSlotOk(m, t, ts);
    case LoadCount(ts) => LoadCountOk(m, t, ts);
    case ReadCell(_, _) => ReadCellOk(m, t, a);
  }

  // ---- Writes ------------------------------------------------------------------------------

  lemma ReachableStays(m: Memory, m': Memory, l: Loc)
    requires Extends(m, m') && Reachable(m, l)
    ensures Reachable(m', l)
  {
    if Covered(m, l.buf, l.i) {
      CoveredStays(m, m', l.buf, l.i);
    }
  }

  /** A reachable cell that is not rewritten gets no message. */
  lemma LogStays(m: Memory, a: Action, l: Loc)
    requires MemoryOk(m) && Allowed(m, a) && Reachable(m, l) && l in m.log && l !in Act(m, a).rewritten
    ensures l in Act(m, a).log && Act(m, a).log[l] == m.log[l]
  {
    if a.Alloc? {
      AllocEffect(m, a.cells, l);
    } else {
      StoresAreLegal(m, a);
      StoreEffect(m, a);
    }
  }

  /** No action writes a reference where a reader may be. */
  lemma SolidStays(m: Memory, a: Action, v: View, l: Loc)
    requires MemoryOk(m) && Allowed(m, a) && Solid(m, v, l) && Reachable(m, l)
    ensures Solid(Act(m, a), v, l)
  {
    var m' := Act(m, a);
    ActExtends(m, a);
    RewritesOnlyItsTarget(m, a);
    forall k: nat | Seen(v, l) < k < |Messages(m', l)| ensures !Messages(m', l)[k].value.Ref? {
      NewMessage(m, a, l, k);
    }
    if l !in m'.rewritten {
      LogStays(m, a, l);
    }
  }

  lemma SolidRowsStay(m: Memory, a: Action, v: View, b: nat, n: nat)
    requires MemoryOk(m) && Allowed(m, a) && SolidRows(m, v, b, n)
    requires forall i: nat :: i < n ==> Reachable(m, Cell(b, i))
    ensures SolidRows(Act(m, a), v, b, n)
  {
    forall i: nat | i < n ensures Solid(Act(m, a), v, Cell(b, i)) {
      SolidStays(m, a, v, Cell(b, i));
    }
  }

  lemma HasBlockStays(m: Memory, a: Action, v: View, b: nat)
    requires MemoryOk(m) && Allowed(m, a) && HasBlock(m, v, b)
    ensures HasBlock(Act(m, a), v, b)
  {
    ActExtends(m, a);
    SolidRowsStay(m, a, v, b, m.bufs[b].cells);
  }

  lemma ViewStays(m: Memory, a: Action, v: View)
    requires MemoryOk(m) && Allowed(m, a) && ViewOk(m, v)
    ensures ViewOk(Act(m, a), v)
  {
    var m' := Act(m, a);
    ActExtends(m, a);
    forall l: Loc | l.Cell? && 1 <= Seen(v, l) < |Messages(m', l)| && Messages(m', l)[Seen(v, l)].value.Ref?
      ensures HasBlock(m', v, Messages(m', l)[Seen(v, l)].value.buf)
    {
      assert l in v && l in m.log && m.log[l] <= m'.log[l];
      HasBlockStays(m, a, v, Messages(m, l)[Seen(v, l)].value.buf);
    }
  }

  /** Rows of a count the buffer has had are reachable. */
  lemma CountedRowsReachable(m: Memory, b: nat, j: nat)
    requires b < |m.bufs| && m.bufs[b].published && 1 <= j < |Messages(m, Count(b))|
    ensures forall i: nat :: i < Readable(m, CountAt(m, b, j)) ==> Reachable(m, Cell(b, i))
  {
    forall i: nat | i < Readable(m, CountAt(m, b, j)) ensures Reachable(m, Cell(b, i)) {
      assert Covered(m, b, i);
    }
  }

  lemma CountsStay(m: Memory, m': Memory, b: nat, j: nat)
    requires Extends(m, m') && j < |Messages(m, Count(b))|
    ensures j < |Messages(m', Count(b))| && Messages(m', Count(b))[j] == Messages(m, Count(b))[j]
    ensures CountAt(m', b, j) == CountAt(m, b, j)
  {
    assert m.log[Count(b)] <= m'.log[Count(b)];
  }

  lemma OwnsStays(m: Memory, a: Action, v: View, b: nat)
    requires Shape(m) && Allowed(m, a) && Owns(m, v, b)
    ensures Owns(Act(m, a), v, b)
  {
    ActExtends(m, a);
    assert BufferOk(m, b);
    CountsStay(m, Act(m, a), b, 1);
    CountedRowsReachable(m, b, 1);
    SolidRowsStay(m, a, v, b, Readable(m, CountAt(m, b, 1)));
  }

  lemma ThreadStays(m: Memory, a: Action, t: Thread)
    requires Shape(m) && Allowed(m, a) && ThreadOk(m, t)
    ensures ThreadOk(Act(m, a), t)
  {
    ActExtends(m, a);
    ViewStays(m, a, t.view);
    match t.pc
    case Idle =>
    case Acquired(b) => OwnsStays(m, a, t.view, b);
    case Counted(b, n) =>
      var j: nat :| 1 <= j < |Messages(m, Count(b))| && CountAt(m, b, j) == n;
      CountsStay(m, Act(m, a), b, j);
      CountedRowsReachable(m, b, j);
      SolidRowsStay(m, a, t.view, b, Readable(m, n));
    case Following(b) => HasBlockStays(m, a, t.view, b);
  }

  lemma CountMessageStays(m: Memory, a: Action, b: nat, k: nat)
    requires MemoryInv(m) && Allowed(m, a) && 1 <= k < |Messages(m, Count(b))|
    requires k < |Messages(Act(m, a), Count(b))|
    ensures CountMessageOk(Act(m, a), b, k)
  {
    ActExtends(m, a);
    CountsStay(m, Act(m, a), b, k);
    assert CountMessageOk(m, b, k);
    var view := Messages(m, Count(b))[k].view;
    ViewStays(m, a, view);
    if k >= 2 {
      assert Allocated(m, Count(b)) && BufferOk(m, b);
      CountedRowsReachable(m, b, k);
      SolidRowsStay(m, a, view, b, Readable(m, CountAt(m, b, k)));
    }
  }

  /** A count is stored with no view before publication, and released with the writer's view after it. */
  lemma NewCountMessage(m: Memory, a: Action, b: nat, k: nat)
    requires Shape(m) && Allowed(m, a) && Shape(Act(m, a)) && 1 <= k == |Messages(m, Count(b))| < |Messages(Act(m, a), Count(b))|
    ensures CountMessageOk(Act(m, a), b, k)
  {
    var m' := Act(m, a);
    NewMessage(m, a, Count(b), k);
    StoresAreLegal(m, a);
    if a.SetCount? {
      assert Messages(m', Count(b))[k].view == map[Count(b) := 1];
      StoreEffect(m, a);
      SmallViewOk(m', map[Count(b) := 1]);
    } else {
      CurrentIsPublished(m);
      StoreEffect(m, a);
      StoreLatest(m, a);
      assert Messages(m', Count(b))[k].view == m'.writer;
      WriterIsOk(m');
      assert BufferOk(m', b);
      WriterIsSolid(m', b, Readable(m', CountNow(m', b)));
    }
  }

  lemma CountMessageAfter(m: Memory, a: Action, b: nat, k: nat)
    requires MemoryInv(m) && Allowed(m, a) && Shape(Act(m, a)) && 1 <= k < |Messages(Act(m, a), Count(b))|
    ensures CountMessageOk(Act(m, a), b, k)
  {
    NewMessage(m, a, Count(b), k);
    if k < |Messages(m, Count(b))| {
      CountMessageStays(m, a, b, k);
    } else {
      StoresAreLegal(m, a);
      StoreEffect(m, a);
      NewCountMessage(m, a, b, k);
    }
  }

  lemma NewSlotMessage(m: Memory, a: Action, k: nat)
    requires Shape(m) && Allowed(m, a) && Shape(Act(m, a)) && (a.Publish? || a.PublishNull?)
    requires k == |Messages(m, Slot)| < |Messages(Act(m, a), Slot)|
    ensures SlotMessageOk(Act(m, a), Messages(Act(m, a), Slot)[k])
  {
    var m' := Act(m, a);
    StoresAreLegal(m, a);
    StoreEffect(m, a);
    assert Messages(m', Slot)[k].view == m'.writer;
    WriterIsOk(m');
    if a.Publish? {
      assert Allocated(m', Count(a.buf)) && BufferOk(m', a.buf);
      assert UpToDate(m', m'.writer, Count(a.buf));
      assert CountAt(m', a.buf, 1) == CountNow(m', a.buf);
      WriterIsSolid(m', a.buf, Readable(m', CountNow(m', a.buf)));
    }
  }

  lemma SlotMessageAfter(m: Memory, a: Action, k: nat)
    requires MemoryInv(m) && Allowed(m, a) && Shape(Act(m, a)) && k < |Messages(Act(m, a), Slot)|
    ensures SlotMessageOk(Act(m, a), Messages(Act(m, a), Slot)[k])
  {
    NewMessage(m, a, Slot, k);
    assert Allocated(m, Slot);
    if k < |Messages(m, Slot)| {
      var msg := Messages(m, Slot)[k];
      assert SlotMessageOk(m, msg);
      ViewStays(m, a, msg.view);
      if msg.value.Ref? {
        OwnsStays(m, a, msg.view, msg.value.buf);
      }
    } else {
      StoresAreLegal(m, a);
      StoreEffect(m, a);
      NewSlotMessage(m, a, k);
    }
  }

  lemma ActKeepsMemoryInv(m: Memory, a: Action)
    requires MemoryInv(m) && Allowed(m, a)
    ensures MemoryInv(Act(m, a))
  {
    ActKeepsShape(m, a);
    forall b: nat, k: nat | 1 <= k < |Messages(Act(m, a), Count(b))| ensures CountMessageOk(Act(m, a), b, k) {
      CountMessageAfter(m, a, b, k);
    }
    forall k: nat | k < |Messages(Act(m, a), Slot)| ensures SlotMessageOk(Act(m, a), Messages(Act(m, a), Slot)[k]) {
      SlotMessageAfter(m, a, k);
    }
  }

  lemma WriteKeepsInv(s: State, a: Action)
    requires Inv(s) && Allowed(s.memory, a)
    ensures Inv(Next(s, Writes(a)))
  {
    ActKeepsMemoryInv(s.memory, a);
    ActExtends(s.memory, a);
    forall r | r in s.readers ensures ThreadOk(Act(s.memory, a), s.readers[r]) {
      ThreadStays(s.memory, a, s.readers[r]);
    }
    forall l | l in s.touched ensures Reachable(Act(s.memory, a), l) {
      ReachableStays(s.memory, Act(s.memory, a), l);
    }
  }

  // ---- Whole runs --------------------------------------------------------------------------

  lemma StepKeepsInv(s: State, step: Step)
    requires Inv(s) && StepAllowed(s, step)
    ensures Inv(Next(s, step))
  {
    match step
    case Writes(a) => WriteKeepsInv(s, a);
    case Reads(r, a) => ReadKeepsInv(s, r, a);
  }

  lemma {:induction false} RunKeepsInv(run: seq<State>, steps: seq<Step>, n: nat)
    requires IsRun(run, steps) && n <= |steps|
    ensures Inv(run[n])
  {
    if n == 0 {
      SmallViewOk(run[0].memory, map[]);
    } else {
      RunKeepsInv(run, steps, n - 1);
      StepKeepsInv(run[n - 1], steps[n - 1]);
    }
  }

  /** In every run, whatever the writer does and whatever stale messages the loads pick, no read returns
      uninitialised memory. */
  lemma NothingUninitialisedIsRead(run: seq<State>, steps: seq<Step>, n: nat)
    requires IsRun(run, steps) && n < |steps| && steps[n].Reads?
    ensures var l, a := Target(ThreadAt(run[n], steps[n].reader).pc, steps[n].read), steps[n].read;
            run[n].memory.log[l][a.ts].value != Garbage
  {
    RunKeepsInv(run, steps, n);
    var t := ThreadAt(run[n], steps[n].reader);
    SmallViewOk(run[n].memory, map[]);
    assert ThreadOk(run[n].memory, t);
    ReadsAreInitialised(run[n].memory, t, steps[n].read);
  }

  /** In every run a plain read of a cell that has not been rewritten finds every store to it ordered before
      the read, so only the last value can be returned. */
  lemma OnlyRewrittenCellsAreReadLate(run: seq<State>, steps: seq<Step>, n: nat)
    requires IsRun(run, steps) && n < |steps| && steps[n].Reads? && steps[n].read.ReadCell?
    ensures var t, a, m := ThreadAt(run[n], steps[n].reader), steps[n].read, run[n].memory;
            var l := Target(t.pc, a);
            l !in m.rewritten ==> UpToDate(m, t.view, l) && a.ts == |m.log[l]| - 1
  {
    RunKeepsInv(run, steps, n);
    var t := ThreadAt(run[n], steps[n].reader);
    NewThreadOk(run[n].memory);
    ReadsAreInitialised(run[n].memory, t, steps[n].read);
  }

  /** A cell is rewritten only by a plain store to it at a time when readers can reach it. */
  lemma {:induction false} RewrittenByAStore(run: seq<State>, steps: seq<Step>, n: nat, l: Loc)
    requires IsRun(run, steps) && n <= |steps|
    ensures l in run[n].memory.rewritten <==>
              exists k :: 0 <= k < n && steps[k].Writes? && (steps[k].action.Write? || steps[k].action.Overwrite?)
                          && l == StoredTo(run[k].memory, steps[k].action) && Reachable(run[k].memory, l)
  {
    if n > 0 {
      RewrittenByAStore(run, steps, n - 1, l);
      if steps[n - 1].Writes? {
        RewritesOnlyItsTarget(run[n - 1].memory, steps[n - 1].action);
      }
    }
  }
}
