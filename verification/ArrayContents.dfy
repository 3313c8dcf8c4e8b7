/**
 What readers find in an array that is only reserved and pushed to, under release/acquire and under every
 schedule: the value they read in cell i of any buffer they reach, superseded or not, is the i-th ever pushed.
 */
module ArrayContents {
  import ArrayBuffers
  import opened ReleaseAcquire
  import opened MemoryShape
  import opened Initialisation
  import opened Races
  import opened WriterPrograms
  import opened WriterCalls
  import opened CallRaces
  import opened CallSequences

  /** The counted cells of the current buffer. */
  ghost function Contents(m: Memory): (values: seq<Value>)
    ensures |values| == if HasBuffer(m) then Readable(m, SizeNow(m)) else 0
    ensures HasBuffer(m) ==> forall i :: 0 <= i < |values| ==> values[i] == Latest(m, Cell(Current(m), i))
  {
    if HasBuffer(m) then CurrentCells(m, Readable(m, SizeNow(m))) else []
  }

  /** Every cell that was ever counted, in whatever buffer, holds what the contents have there. */
  ghost predicate OneHistory(m: Memory) {
    forall b: nat, i: nat :: Covered(m, b, i) ==> i < |Contents(m)| && Latest(m, Cell(b, i)) == Contents(m)[i]
  }

  /** A buffer is published only with all the contents, at the same places. */
  ghost predicate Faithful(m: Memory, a: Action) {
    && !a.PublishNull? && !a.Clear?
    && (a.Publish? ==>
          && |Contents(m)| <= Readable(m, CountNow(m, a.buf))
          && forall i :: 0 <= i < |Contents(m)| ==> Latest(m, Cell(a.buf, i)) == Contents(m)[i])
  }

  ghost predicate StoreIsApart(m: Memory, a: Action) {
    a.Write? || a.Overwrite? ==> !Reachable(m, StoredTo(m, a))
  }

  // ---- One step ----------------------------------------------------------------------------

  /** A counted cell keeps its value. */
  lemma CountedCellStays(m: Memory, a: Action, b: nat, i: nat)
    requires Shape(m) && Allowed(m, a) && StoreIsApart(m, a) && Covered(m, b, i)
    ensures Latest(Act(m, a), Cell(b, i)) == Latest(m, Cell(b, i))
  {
    if a.Alloc? {
      CoveredIsThere(m, b, i);
      AllocEffect(m, a.cells, Cell(b, i));
    } else {
      StoresAreLegal(m, a);
      StoreLatest(m, a);
    }
  }

  lemma CoveredIsThere(m: Memory, b: nat, i: nat)
    requires Shape(m) && Covered(m, b, i)
    ensures Cell(b, i) in m.log
  {
    var j: nat :| 1 <= j < |Messages(m, Count(b))| && i < Readable(m, CountAt(m, b, j));
    assert BufferOk(m, b) && CountOk(m, b, j);
    assert Allocated(m, Cell(b, i));
  }

  lemma CurrentIsCovered(m: Memory, i: nat)
    requires Shape(m) && i < |Contents(m)|
    ensures Covered(m, Current(m), i)
  {
    var b := Current(m);
    CurrentIsPublished(m);
    assert CountAt(m, b, |Messages(m, Count(b))| - 1) == CountNow(m, b);
  }

  /** The contents only ever grow at the end. */
  lemma ContentsGrow(m: Memory, a: Action)
    requires Shape(m) && Shape(Act(m, a)) && Allowed(m, a) && Faithful(m, a) && StoreIsApart(m, a)
    ensures Contents(m) <= Contents(Act(m, a))
  {
    var m' := Act(m, a);
    if HasBuffer(m) {
      CurrentAfter(m, a);
      forall i: nat | i < |Contents(m)| ensures i < |Contents(m')| && Contents(m')[i] == Contents(m)[i] {
        if !a.Publish? {
          CurrentIsCovered(m, i);
          CountedCellStays(m, a, Current(m), i);
        }
      }
    }
  }

  lemma CurrentAfter(m: Memory, a: Action)
    requires Shape(m) && Shape(Act(m, a)) && Allowed(m, a) && Faithful(m, a) && (HasBuffer(m) || a.Publish?)
    ensures var m' := Act(m, a);
            && HasBuffer(m') && m'.rowCells == m.rowCells && m'.extraCells == m.extraCells
            && (if a.Publish? then
                  && Current(m') == a.buf && SizeNow(m') == CountNow(m, a.buf) && |Messages(m', Count(a.buf))| == 2
                  && forall l: Loc :: l != Slot ==> Messages(m', l) == Messages(m, l) && Latest(m', l) == Latest(m, l)
                else Current(m') == Current(m) && SizeNow(m) <= SizeNow(m'))
            && |Contents(m)| <= |Contents(m')|
  {
    var m' := Act(m, a);
    ActExtends(m, a);
    LatestStays(m, a, Slot);
    if a.Publish? {
      StoresAreLegal(m, a);
      StoreLatest(m, a);
      CurrentIsPublished(m');
    } else {
      CurrentIsPublished(m);
      CountAfter(m, a, Current(m));
      ReadableMonotone(m, SizeNow(m), SizeNow(m'));
    }
  }

  /** A cell becomes counted when its buffer is published or gets a count. */
  lemma WhyCovered(m: Memory, a: Action, b: nat, i: nat)
    requires Shape(m) && Shape(Act(m, a)) && Allowed(m, a) && Covered(Act(m, a), b, i) && !Covered(m, b, i)
    ensures a == Publish(b) || (!a.Alloc? && StoredTo(m, a) == Count(b) && b < |m.bufs| && m.bufs[b].published)
    ensures a != Publish(b) ==> i < Readable(m, CountNow(Act(m, a), b))
  {
    var m' := Act(m, a);
    var j: nat :| 1 <= j < |Messages(m', Count(b))| && i < Readable(m', CountAt(m', b, j));
    ActExtends(m, a);
    NewMessage(m, a, Count(b), j);
    if a != Publish(b) {
      PublishedBefore(m, a, b);
      assert j < |Messages(m, Count(b))| ==> CountAt(m', b, j) == CountAt(m, b, j);
      StoresAreLegal(m, a);
      StoreLatest(m, a);
    }
  }

  lemma PublishedBefore(m: Memory, a: Action, b: nat)
    requires MemoryOk(m) && Allowed(m, a) && b < |Act(m, a).bufs| && Act(m, a).bufs[b].published && a != Publish(b)
    ensures b < |m.bufs| && m.bufs[b].published
  {
    if !a.Alloc? {
      StoresAreLegal(m, a);
      StoreEffect(m, a);
    }
  }

  /** So it belongs to the current buffer. */
  lemma NewlyCovered(m: Memory, a: Action, b: nat, i: nat)
    requires Shape(m) && Shape(Act(m, a)) && Allowed(m, a) && Faithful(m, a)
    requires Covered(Act(m, a), b, i) && !Covered(m, b, i)
    ensures HasBuffer(Act(m, a)) && b == Current(Act(m, a)) && i < |Contents(Act(m, a))|
  {
    WhyCovered(m, a, b, i);
    if a == Publish(b) {
      CurrentAfter(m, a);
      OnlyCountIsCovered(Act(m, a), b, i);
    } else {
      CurrentIsPublished(m);
      assert BufferOk(m, b);
      CurrentAfter(m, a);
    }
  }

  lemma OnlyCountIsCovered(m': Memory, b: nat, i: nat)
    requires Covered(m', b, i) && |Messages(m', Count(b))| == 2
    ensures i < Readable(m', CountNow(m', b))
  {
    assert CountAt(m', b, 1) == CountNow(m', b);
  }

  lemma StepKeepsHistory(m: Memory, a: Action)
    requires Shape(m) && Allowed(m, a) && Faithful(m, a) && StoreIsApart(m, a) && OneHistory(m)
    ensures OneHistory(Act(m, a)) && Contents(m) <= Contents(Act(m, a))
  {
    var m' := Act(m, a);
    ActKeepsShape(m, a);
    ContentsGrow(m, a);
    forall b: nat, i: nat | Covered(m', b, i)
      ensures i < |Contents(m')| && Latest(m', Cell(b, i)) == Contents(m')[i]
    {
      if Covered(m, b, i) {
        CountedCellStays(m, a, b, i);
      } else {
        NewlyCovered(m, a, b, i);
      }
    }
  }

  // ---- Programs ----------------------------------------------------------------------------

  ghost predicate FaithfulProgram(m: Memory, program: seq<Action>)
    decreases |program|
  {
    program == [] || (Faithful(m, program[0]) && FaithfulProgram(Act(m, program[0]), program[1..]))
  }

  lemma {:induction false} FaithfulAppend(m: Memory, p: seq<Action>, q: seq<Action>)
    requires FaithfulProgram(m, p) && FaithfulProgram(Exec(m, p), q)
    ensures FaithfulProgram(m, p + q)
    decreases |p|
  {
    hide Faithful;
    if p == [] {
      assert p + q == q;
    } else {
      assert (p + q)[0] == p[0] && (p + q)[1..] == p[1..] + q;
      FaithfulAppend(Act(m, p[0]), p[1..], q);
    }
  }

  lemma {:induction false} UnpublishedIsFaithful(m: Memory, program: seq<Action>)
    requires Unpublished(program)
    ensures FaithfulProgram(m, program)
    decreases |program|
  {
    if program != [] {
      UnpublishedIsFaithful(Act(m, program[0]), program[1..]);
    }
  }

  /** Preparing something private changes nothing that counts. */
  lemma ContentsBesidePrivate(m: Memory, m1: Memory, cells: nat)
    requires Shape(m) && Private(m, m1, cells)
    ensures Contents(m1) == Contents(m) && HasBuffer(m1) == HasBuffer(m)
  {
    assert Allocated(m, Slot);
    CurrentHasBuffer(m);
    SameMessagesSameLatest(m, m1, Slot);
    if HasBuffer(m) {
      var b := Current(m);
      CurrentIsPublished(m);
      SameMessagesSameLatest(m, m1, Count(b));
      CountedCellsThere(m);
      forall i: nat | i < Readable(m, SizeNow(m)) ensures Latest(m1, Cell(b, i)) == Latest(m, Cell(b, i)) {
        SameMessagesSameLatest(m, m1, Cell(b, i));
      }
    }
  }

  lemma EnlargeIsFaithful(m: Memory, rows: nat)
    requires Shape(m) && m.rowCells > 0 && m.extraCells == 0 && SizeNow(m) <= rows
    ensures FaithfulProgram(m, Enlarge(m, rows))
  {
    var n, b, cells := SizeNow(m), |m.bufs|, rows * m.rowCells;
    var contents := CurrentCells(m, Readable(m, n));
    var build := Build(b, cells, true, n, contents);
    BuildIsUnpublished(b, cells, true, n, contents);
    UnpublishedIsFaithful(m, build);
    EnlargedIsBuilt(m, rows);
    var m1 := Exec(m, build);
    ContentsBesidePrivate(m, m1, cells);
    assert Faithful(m1, Publish(b)) by {
      CurrentHasBuffer(m);
    }
    assert [Publish(b)][1..] == [];
    FaithfulAppend(m, build, [Publish(b)]);
  }

  lemma CurrentHasBuffer(m: Memory)
    requires Shape(m)
    ensures HasBuffer(m) <==> Latest(m, Slot).Ref?
  {
    if Latest(m, Slot).Ref? {
      CurrentIsPublished(m);
    }
  }

  /** Growing and reserving leave the contents alone. */
  lemma ReplacedContents(m: Memory, m': Memory, cells: nat)
    requires Shape(m) && m.extraCells == 0
    requires Replaced(m, m', cells, SizeNow(m), CurrentCells(m, Readable(m, SizeNow(m))))
    ensures Contents(m') == Contents(m)
  {
    CurrentHasBuffer(m);
    assert HasBuffer(m') && Current(m') == |m.bufs| && SizeNow(m') == SizeNow(m);
  }

  /** An append adds the row at the end. */
  lemma AppendedContents(m: Memory, m': Memory, n: nat, from: nat, row: seq<Value>)
    requires Shape(m) && HasBuffer(m) && n == SizeNow(m) && from == Readable(m, n) && Readable(m, n + 1) == from + |row|
    requires RowCounted(m, m', Current(m), n, from, |row|)
    requires forall j :: 0 <= j < |row| ==> Latest(m', Cell(Current(m), from + j)) == row[j]
    ensures Contents(m') == Contents(m) + row
  {
    var b := Current(m);
    CountedCellsThere(m);
    forall i: nat | i < from ensures Latest(m', Cell(b, i)) == Latest(m, Cell(b, i)) {
      SameMessagesSameLatest(m, m', Cell(b, i));
    }
    hide Shape;
    forall i: nat | i < from + |row| ensures Contents(m')[i] == (Contents(m) + row)[i] {
      if i >= from {
        assert Latest(m', Cell(b, from + (i - from))) == row[i - from];
      }
    }
  }

  /** The numbers a call pushes. */
  function PushedBy(c: Call): seq<nat> {
    if c.Push? then c.row else []
  }

  /** The numbers pushed, row after row. */
  function Pushed(calls: seq<Call>): seq<nat>
    decreases |calls|
  {
    if calls == [] then []
    else PushedBy(calls[0]) + Pushed(calls[1..])
  }

  predicate OnlyPushes(calls: seq<Call>) {
    forall k :: 0 <= k < |calls| ==> calls[k].Push? || calls[k].Reserve?
  }

  lemma ReserveContents(m: Memory, rows: nat)
    requires Layout(OfArray, m)
    ensures var program := Program(m, Reserve(rows));
            FaithfulProgram(m, program) && Contents(Exec(m, program)) == Contents(m)
  {
    SizeIsBelowCapacity(m);
    if rows > CapacityNow(m) {
      EnlargeRuns(m, rows);
      EnlargeIsFaithful(m, rows);
      ReplacedContents(m, Exec(m, Enlarge(m, rows)), rows * m.rowCells);
    }
  }

  lemma PushContents(m: Memory, row: seq<nat>)
    requires Layout(OfArray, m) && |row| == m.rowCells
    ensures var program := Program(m, Push(row));
            FaithfulProgram(m, program) && Contents(Exec(m, program)) == Contents(m) + WriterPrograms.Bytes(row)
  {
    hide Shape, AppendRow, Runs, Copyable, RefsFit;
    var rows := ArrayBuffers.GrownCapacity(CapacityNow(m));
    var m1 := RoomContents(m, rows);
    var b, n, values := Current(m1), SizeNow(m1), WriterPrograms.Bytes(row);
    var from := Readable(m1, n);
    NumbersFit(m1, b, from, values);
    AppendRowRuns(m1, b, n, from, values);
    AppendedContents(m1, Exec(m1, AppendRow(b, n, from, values)), n, from, values);
    AppendIsUnpublished(b, n, from, values);
    UnpublishedIsFaithful(m1, AppendRow(b, n, from, values));
    FaithfulAppend(m, Room(m, rows), AppendRow(b, n, from, values));
    RunsAppend(m, Room(m, rows), AppendRow(b, n, from, values));
  }

  lemma RoomContents(m: Memory, rows: nat) returns (m1: Memory)
    requires Layout(OfArray, m) && CapacityNow(m) < rows
    ensures m1 == Exec(m, Room(m, rows)) && Runs(m, Room(m, rows)) && FaithfulProgram(m, Room(m, rows))
    ensures Shape(m1) && HasBuffer(m1) && Contents(m1) == Contents(m) && m1.rowCells == m.rowCells
    ensures HasRoom(m1, Current(m1), SizeNow(m1), Readable(m1, SizeNow(m1)), m1.rowCells)
  {
    m1 := Exec(m, Room(m, rows));
    RoomRuns(m, rows);
    if Full(m) {
      SizeIsBelowCapacity(m);
      EnlargeIsFaithful(m, rows);
      ReplacedContents(m, m1, rows * m.rowCells);
    }
  }

  lemma ArrayCallContents(m: Memory, c: Call)
    requires Layout(OfArray, m) && Fits(OfArray, m, c) && (c.Push? || c.Reserve?)
    ensures FaithfulProgram(m, Program(m, c))
    ensures Contents(Exec(m, Program(m, c))) == Contents(m) + WriterPrograms.Bytes(PushedBy(c))
  {
    if c.Push? {
      PushContents(m, c.row);
    } else {
      ReserveContents(m, c.rows);
    }
  }

  lemma FirstArrayCall(m: Memory, calls: seq<Call>) returns (m1: Memory)
    requires Layout(OfArray, m) && Calm(m) && AllFit(OfArray, m, calls) && OnlyPushes(calls) && calls != []
    ensures m1 == Exec(m, Program(m, calls[0])) && Runs(m, Program(m, calls[0]))
    ensures Layout(OfArray, m1) && Calm(m1) && AllFit(OfArray, m1, calls[1..]) && OnlyPushes(calls[1..])
    ensures !Rewrites(m, calls[0]) && FaithfulProgram(m, Program(m, calls[0]))
    ensures Contents(m1) == Contents(m) + WriterPrograms.Bytes(PushedBy(calls[0]))
  {
    hide Layout, Program, Contents, Calm, Rewrites, Runs, Exec, FaithfulProgram;
    m1 := FirstOfSequence(OfArray, m, calls);
    CallRuns(OfArray, m, calls[0]);
    ArrayCallContents(m, calls[0]);
    PushDoesNotRewrite(m, calls[0]);
  }

  lemma {:induction false} SequenceContents(m: Memory, calls: seq<Call>)
    requires Layout(OfArray, m) && Calm(m) && AllFit(OfArray, m, calls) && OnlyPushes(calls)
    ensures !SomeCallRewrites(m, calls) && FaithfulProgram(m, AllPrograms(m, calls))
    ensures Contents(Exec(m, AllPrograms(m, calls))) == Contents(m) + WriterPrograms.Bytes(Pushed(calls))
    decreases |calls|
  {
    hide Layout, Program, AllFit, Contents, Calm, Rewrites, Runs, Exec, FaithfulProgram, Fits, OnlyPushes, WriterPrograms.Bytes;
    if calls == [] {
      NothingPushed(m);
    } else {
      var m1 := FirstArrayCall(m, calls);
      SequenceContents(m1, calls[1..]);
      SequenceRuns(OfArray, m1, calls[1..]);
      FaithfulAppend(m, Program(m, calls[0]), AllPrograms(m1, calls[1..]));
      RunsAppend(m, Program(m, calls[0]), AllPrograms(m1, calls[1..]));
      BytesAppend(PushedBy(calls[0]), Pushed(calls[1..]));
    }
  }

  lemma NothingPushed(m: Memory)
    ensures Exec(m, []) == m && FaithfulProgram(m, []) && WriterPrograms.Bytes([]) == []
  {
  }

  lemma PushDoesNotRewrite(m: Memory, c: Call)
    requires Calm(m) && (c.Push? || c.Reserve?)
    ensures !Rewrites(m, c)
  {
  }

  lemma BytesAppend(one: seq<nat>, two: seq<nat>)
    ensures WriterPrograms.Bytes(one + two) == WriterPrograms.Bytes(one) + WriterPrograms.Bytes(two)
  {
  }

  // ---- Schedules ---------------------------------------------------------------------------

  /** Throughout a schedule every buffer shows a part of what is there in the end. */
  lemma {:induction false} ScheduleKeepsHistory(s: State, steps: seq<Step>, program: seq<Action>, n: nat)
    requires Inv(s) && OneHistory(s.memory) && s.memory.rewritten == {} && n <= |steps|
    requires Schedule(s, steps, program) && FaithfulProgram(s.memory, program) && StoresApart(s.memory, program)
    ensures |States(s, steps)| == |steps| + 1
    ensures var s' := States(s, steps)[n];
            && Inv(s') && OneHistory(s'.memory) && s'.memory.rewritten == {}
            && Contents(s'.memory) <= Contents(After(s, steps).memory)
            && (n < |steps| ==> StepAllowed(s', steps[n]))
    decreases |steps|
  {
    hide Inv, OneHistory, Contents, FaithfulProgram, StoresApart, Next;
    if steps != [] {
      var program' := if steps[0].Writes? then program[1..] else program;
      StepKeepsInv(s, steps[0]);
      OneStepOfHistory(s, steps[0], program);
      ScheduleKeepsHistory(Next(s, steps[0]), steps[1..], program', if n == 0 then 0 else n - 1);
    }
  }

  lemma OneStepOfHistory(s: State, step: Step, program: seq<Action>)
    requires Inv(s) && OneHistory(s.memory) && s.memory.rewritten == {} && StepAllowed(s, step)
    requires FaithfulProgram(s.memory, program) && StoresApart(s.memory, program)
    requires step.Writes? ==> program != [] && step.action == program[0]
    ensures var m' := Next(s, step).memory;
            OneHistory(m') && m'.rewritten == {} && Contents(s.memory) <= Contents(m')
    ensures var rest := if step.Writes? then program[1..] else program;
            FaithfulProgram(Next(s, step).memory, rest) && StoresApart(Next(s, step).memory, rest)
  {
    ApartDoesNotCollide(s, step, program);
    if step.Writes? {
      StepKeepsHistory(s.memory, step.action);
    }
  }

  lemma ZeroedSlotHasOneHistory(rowCells: nat)
    requires rowCells > 0
    ensures var m := ZeroedSlot(OfArray, rowCells).memory;
            OneHistory(m) && Contents(m) == [] && Calm(m) && m.rewritten == {}
  {
  }

  lemma CountedIsCovered(m: Memory, t: Thread, i: nat)
    requires ThreadOk(m, t) && t.pc.Counted? && i < Readable(m, t.pc.count)
    ensures Covered(m, t.pc.buf, i)
  {
    var j: nat :| 1 <= j < |Messages(m, Count(t.pc.buf))| && CountAt(m, t.pc.buf, j) == t.pc.count;
  }

  /** What a reader that has counted reads is what the contents hold there. */
  lemma CountedReadIsContents(s: State, r: nat, a: ReadAction)
    requires Inv(s) && OneHistory(s.memory) && s.memory.rewritten == {}
    requires a.ReadCell? && MayRead(s.memory, ThreadAt(s, r), a) && ThreadAt(s, r).pc.Counted?
    ensures var l := Target(ThreadAt(s, r).pc, a);
            a.i < |Contents(s.memory)| && s.memory.log[l][a.ts].value == Contents(s.memory)[a.i]
  {
    hide MemoryInv, ThreadOk, Contents;
    var m, t := s.memory, ThreadAt(s, r);
    NewThreadOk(m);
    ReadsAreInitialised(m, t, a);
    CountedIsCovered(m, t, a.i);
  }

  /** Some schedule of reserves and pushes on a zeroed slot, with any readers beside them. */
  ghost predicate PushRun(rowCells: nat, calls: seq<Call>, steps: seq<Step>) {
    && rowCells > 0 && OnlyPushes(calls) && AllFit(OfArray, ZeroedSlot(OfArray, rowCells).memory, calls)
    && Schedule(ZeroedSlot(OfArray, rowCells), steps, AllPrograms(ZeroedSlot(OfArray, rowCells).memory, calls))
  }

  /** The state in which the n-th step of a run is taken. */
  ghost function StateAt(rowCells: nat, steps: seq<Step>, n: nat): State {
    var run := States(ZeroedSlot(OfArray, rowCells), steps);
    if n < |run| then run[n] else run[0]
  }

  lemma ThroughoutPushRun(rowCells: nat, calls: seq<Call>, steps: seq<Step>, n: nat)
    requires PushRun(rowCells, calls, steps) && n <= |steps|
    ensures var s := StateAt(rowCells, steps, n);
            && Inv(s) && OneHistory(s.memory) && s.memory.rewritten == {}
            && Contents(s.memory) <= WriterPrograms.Bytes(Pushed(calls))
            && (n < |steps| ==> StepAllowed(s, steps[n]))
  {
    var s0 := ZeroedSlot(OfArray, rowCells);
    ZeroedSlotIsInv(OfArray, rowCells);
    ZeroedSlotHasOneHistory(rowCells);
    hide Inv, OneHistory, Contents, Layout, Schedule, States, After, AllPrograms, ZeroedSlot, WriterPrograms.Bytes;
    SequenceContents(s0.memory, calls);
    OthersAreApartThroughout(OfArray, s0.memory, calls);
    ScheduleKeepsHistory(s0, steps, AllPrograms(s0.memory, calls), n);
    ScheduleEndsAt(s0, steps, AllPrograms(s0.memory, calls));
  }

  /** The i-th cell read, by any reader, from any buffer, at any time, is the i-th number pushed. */
  lemma ReadersFindWhatWasPushed(rowCells: nat, calls: seq<Call>, steps: seq<Step>, n: nat)
    requires PushRun(rowCells, calls, steps) && n < |steps| && steps[n].Reads? && steps[n].read.ReadCell?
    requires ThreadAt(StateAt(rowCells, steps, n), steps[n].reader).pc.Counted?
    ensures var s, a := StateAt(rowCells, steps, n), steps[n].read;
            var l := Target(ThreadAt(s, steps[n].reader).pc, a);
            l in s.memory.log && a.ts < |s.memory.log[l]| && a.i < |Pushed(calls)|
            && s.memory.log[l][a.ts].value == Num(Pushed(calls)[a.i])
  {
    hide Inv, OneHistory, Contents, PushRun, StateAt;
    ThroughoutPushRun(rowCells, calls, steps, n);
    CountedReadIsContents(StateAt(rowCells, steps, n), steps[n].reader, steps[n].read);
  }
}
