/**
 Whole sequences of calls under every schedule of their stores and of any readers' steps. A sequence may
 collide with readers, in either order, exactly when one of its calls rewrites; and while only growing
 calls are made the sizes a reader loads never decrease.
 */
module CallSequences {
  import ArrayBuffers
  import EntryBuffers
  import opened ReleaseAcquire
  import opened MemoryShape
  import opened Initialisation
  import opened Races
  import opened WriterPrograms
  import opened WriterCalls
  import opened CallRaces
  import opened SizeCoherence

  /** The stores of all calls, each call's chosen by what the ones before it left in memory. */
  ghost function AllPrograms(m: Memory, calls: seq<Call>): seq<Action>
    decreases |calls|
  {
    if calls == [] then []
    else Program(m, calls[0]) + AllPrograms(Exec(m, Program(m, calls[0])), calls[1..])
  }

  ghost predicate AllFit(kind: Kind, m: Memory, calls: seq<Call>) {
    forall k :: 0 <= k < |calls| ==> Fits(kind, m, calls[k])
  }

  lemma FitsStays(kind: Kind, m: Memory, m': Memory, calls: seq<Call>)
    requires AllFit(kind, m, calls) && m'.rowCells == m.rowCells
    ensures AllFit(kind, m', calls) && (calls != [] ==> Fits(kind, m, calls[0]) && AllFit(kind, m', calls[1..]))
  {
  }

  /** One call, then the rest from what it leaves. */
  lemma FirstOfSequence(kind: Kind, m: Memory, calls: seq<Call>) returns (m1: Memory)
    requires Layout(kind, m) && AllFit(kind, m, calls) && calls != []
    ensures m1 == Exec(m, Program(m, calls[0])) && Runs(m, Program(m, calls[0]))
    ensures Layout(kind, m1) && m1.rowCells == m.rowCells && Fits(kind, m, calls[0]) && AllFit(kind, m1, calls[1..])
  {
    m1 := Exec(m, Program(m, calls[0]));
    CallRuns(kind, m, calls[0]);
    LayoutHasShape(kind, m);
    RunsKeepShape(m, Program(m, calls[0]));
    FitsStays(kind, m, m1, calls);
  }

  lemma LayoutHasShape(kind: Kind, m: Memory)
    requires Layout(kind, m)
    ensures Shape(m)
  {
  }

  lemma {:induction false} SequenceRuns(kind: Kind, m: Memory, calls: seq<Call>)
    requires Layout(kind, m) && AllFit(kind, m, calls)
    ensures Runs(m, AllPrograms(m, calls)) && Layout(kind, Exec(m, AllPrograms(m, calls)))
    ensures Exec(m, AllPrograms(m, calls)).rowCells == m.rowCells
    decreases |calls|
  {
    hide Layout, Program, AllFit;
    if calls != [] {
      var m1 := FirstOfSequence(kind, m, calls);
      SequenceRuns(kind, m1, calls[1..]);
      RunsAppend(m, Program(m, calls[0]), AllPrograms(m1, calls[1..]));
    }
  }

  // ---- Schedules one after another ---------------------------------------------------------

  lemma {:induction false} SchedulesAppend(s: State, front: seq<Step>, p: seq<Action>, back: seq<Step>, q: seq<Action>)
    requires Schedule(s, front, p) && Schedule(After(s, front), back, q)
    ensures Schedule(s, front + back, p + q) && After(s, front + back) == After(After(s, front), back)
    ensures CollidesAlong(s, front) || CollidesAlong(After(s, front), back) ==> CollidesAlong(s, front + back)
    decreases |front|
  {
    hide Next, StepAllowed, Collides;
    if front == [] {
      assert front + back == back && p + q == q;
    } else {
      assert (front + back)[0] == front[0] && (front + back)[1..] == front[1..] + back;
      if front[0].Writes? {
        assert (p + q)[0] == p[0] && (p + q)[1..] == p[1..] + q;
      }
      SchedulesAppend(Next(s, front[0]), front[1..], if front[0].Writes? then p[1..] else p, back, q);
    }
  }

  /** After any schedule of any calls the slot is as the calls leave it, and the condition on races applies
      to whatever call comes next. */
  lemma AfterAnySchedule(kind: Kind, s: State, steps: seq<Step>, calls: seq<Call>, next: Call)
    requires Inv(s) && Layout(kind, s.memory) && AllFit(kind, s.memory, calls)
    requires Schedule(s, steps, AllPrograms(s.memory, calls)) && Fits(kind, s.memory, next)
    ensures var s' := After(s, steps);
            && Inv(s') && Layout(kind, s'.memory) && s'.memory == Exec(s.memory, AllPrograms(s.memory, calls))
            && (MayRace(s', Program(s'.memory, next)) <==> Rewrites(s'.memory, next))
  {
    hide Inv, Layout, Program, AllPrograms, MayRace, Rewrites, Schedule, After;
    SequenceRuns(kind, s.memory, calls);
    ScheduleEndsAt(s, steps, AllPrograms(s.memory, calls));
    CallMayRaceExactlyWhenItRewrites(kind, After(s, steps), next);
  }

  // ---- Collisions --------------------------------------------------------------------------

  /** A plain store to what was read plainly, or a plain read of a cell with a store not ordered before it. */
  ghost predicate Collides(s: State, step: Step) {
    match step
    case Writes(a) => IsRace(s, a)
    case Reads(r, a) => a.ReadCell? && !UpToDate(s.memory, ThreadAt(s, r).view, Target(ThreadAt(s, r).pc, a))
  }

  ghost predicate CollidesAlong(s: State, steps: seq<Step>)
    decreases |steps|
  {
    && steps != [] && StepAllowed(s, steps[0])
    && (Collides(s, steps[0]) || CollidesAlong(Next(s, steps[0]), steps[1..]))
  }

  ghost predicate MayCollide(s: State, program: seq<Action>) {
    exists steps: seq<Step> :: Schedule(s, steps, program) && CollidesAlong(s, steps)
  }

  ghost predicate SomeCallRewrites(m: Memory, calls: seq<Call>)
    decreases |calls|
  {
    calls != []
    && (Rewrites(m, calls[0]) || SomeCallRewrites(Exec(m, Program(m, calls[0])), calls[1..]))
  }

  lemma {:induction false} RaceIsCollision(s: State, steps: seq<Step>)
    requires RacesAlong(s, steps)
    ensures CollidesAlong(s, steps)
    decreases |steps|
  {
    if !(steps[0].Writes? && IsRace(s, steps[0].action)) {
      RaceIsCollision(Next(s, steps[0]), steps[1..]);
    }
  }

  lemma {:induction false} StoresApartAppend(m: Memory, p: seq<Action>, q: seq<Action>)
    requires StoresApart(m, p) && StoresApart(Exec(m, p), q)
    ensures StoresApart(m, p + q)
    decreases |p|
  {
    if p == [] {
      assert p + q == q;
    } else {
      assert (p + q)[0] == p[0] && (p + q)[1..] == p[1..] + q;
      StoresApartAppend(Act(m, p[0]), p[1..], q);
    }
  }

  lemma {:induction false} OthersAreApartThroughout(kind: Kind, m: Memory, calls: seq<Call>)
    requires Layout(kind, m) && AllFit(kind, m, calls) && !SomeCallRewrites(m, calls)
    ensures StoresApart(m, AllPrograms(m, calls))
    decreases |calls|
  {
    hide Layout, Program, Rewrites, AllFit;
    if calls != [] {
      var m1 := FirstOfSequence(kind, m, calls);
      OthersAreApart(kind, m, calls[0]);
      OthersAreApartThroughout(kind, m1, calls[1..]);
      StoresApartAppend(m, Program(m, calls[0]), AllPrograms(m1, calls[1..]));
    }
  }

  /** As long as nothing has been rewritten, and stores stay apart, nothing collides. */
  lemma {:induction false} ApartNeverCollides(s: State, steps: seq<Step>, program: seq<Action>)
    requires Inv(s) && s.memory.rewritten == {} && StoresApart(s.memory, program) && Schedule(s, steps, program)
    ensures !CollidesAlong(s, steps) && After(s, steps).memory.rewritten == {}
    decreases |steps|
  {
    if steps != [] {
      StepKeepsInv(s, steps[0]);
      ApartDoesNotCollide(s, steps[0], program);
      ApartNeverCollides(Next(s, steps[0]), steps[1..], if steps[0].Writes? then program[1..] else program);
    }
  }

  lemma ApartDoesNotCollide(s: State, step: Step, program: seq<Action>)
    requires Inv(s) && s.memory.rewritten == {} && StoresApart(s.memory, program) && StepAllowed(s, step)
    requires step.Writes? ==> program != [] && step.action == program[0]
    ensures !Collides(s, step) && Next(s, step).memory.rewritten == {}
  {
    match step
    case Writes(a) => RewritesOnlyItsTarget(s.memory, a);
    case Reads(r, a) =>
      NewThreadOk(s.memory);
      ReadsAreInitialised(s.memory, ThreadAt(s, r), a);
  }

  lemma MayCollideThen(s: State, p: seq<Action>, steps: seq<Step>, q: seq<Action>)
    requires Inv(s) && Schedule(s, steps, p) && CollidesAlong(s, steps) && Runs(Exec(s.memory, p), q)
    ensures MayCollide(s, p + q)
  {
    hide Inv, Schedule, CollidesAlong, After, Runs;
    ScheduleEndsAt(s, steps, p);
    ProgramIsSchedule(After(s, steps), q);
    SchedulesAppend(s, steps, p, AllWrites(q), q);
  }

  lemma MayCollideLater(s: State, p: seq<Action>, q: seq<Action>) returns (s1: State)
    requires Inv(s) && Runs(s.memory, p)
    ensures Inv(s1) && s1.memory == Exec(s.memory, p) && (MayCollide(s1, q) ==> MayCollide(s, p + q))
  {
    hide Inv, Schedule, CollidesAlong, After, Runs, Exec;
    ProgramIsSchedule(s, p);
    ScheduleEndsAt(s, AllWrites(p), p);
    s1 := After(s, AllWrites(p));
    if MayCollide(s1, q) {
      var steps: seq<Step> :| Schedule(s1, steps, q) && CollidesAlong(s1, steps);
      SchedulesAppend(s, AllWrites(p), p, steps, q);
    }
  }

  lemma {:induction false} RewritingMayCollide(kind: Kind, s: State, calls: seq<Call>)
    requires Inv(s) && Layout(kind, s.memory) && AllFit(kind, s.memory, calls) && SomeCallRewrites(s.memory, calls)
    ensures MayCollide(s, AllPrograms(s.memory, calls))
    decreases |calls|
  {
    hide Inv, Layout, Program, Rewrites, AllFit, MayCollide, Schedule, RacesAlong, CollidesAlong, Exec, Runs;
    var m, p := s.memory, Program(s.memory, calls[0]);
    var m1 := FirstOfSequence(kind, m, calls);
    SequenceRuns(kind, m1, calls[1..]);
    var rest := AllPrograms(m1, calls[1..]);
    if Rewrites(m, calls[0]) {
      CallMayRaceExactlyWhenItRewrites(kind, s, calls[0]);
      var steps: seq<Step> :| Schedule(s, steps, p) && RacesAlong(s, steps);
      RaceIsCollision(s, steps);
      MayCollideThen(s, p, steps, rest);
    } else {
      var s1 := MayCollideLater(s, p, rest);
      RewritingMayCollide(kind, s1, calls[1..]);
    }
  }

  /** The condition for whole sequences: from a zeroed slot, some schedule lets a store and a plain read meet
      unordered, whichever comes first, if and only if some call rewrites. */
  lemma SequenceMayCollideExactlyWhenACallRewrites(kind: Kind, rowCells: nat, calls: seq<Call>)
    requires RowSizeOk(kind, rowCells) && AllFit(kind, ZeroedSlot(kind, rowCells).memory, calls)
    ensures var s := ZeroedSlot(kind, rowCells);
            MayCollide(s, AllPrograms(s.memory, calls)) <==> SomeCallRewrites(s.memory, calls)
  {
    var s := ZeroedSlot(kind, rowCells);
    ZeroedSlotIsInv(kind, rowCells);
    if SomeCallRewrites(s.memory, calls) {
      RewritingMayCollide(kind, s, calls);
    } else {
      OthersAreApartThroughout(kind, s.memory, calls);
      if MayCollide(s, AllPrograms(s.memory, calls)) {
        var steps: seq<Step> :| Schedule(s, steps, AllPrograms(s.memory, calls)) && CollidesAlong(s, steps);
        ApartNeverCollides(s, steps, AllPrograms(s.memory, calls));
      }
    }
  }

  // ---- Growing calls -----------------------------------------------------------------------

  /** Reserves, pushes and adds; a set call on a scalar field that is there counts nothing. */
  predicate GrowsOnly(c: Call) {
    c.Reserve? || c.Push? || c.SetScalar? || c.SetText? || c.EnsureObject?
  }

  ghost predicate GrowingProgram(m: Memory, program: seq<Action>)
    decreases |program|
  {
    program == [] || (Growing(m, program[0]) && GrowingProgram(Act(m, program[0]), program[1..]))
  }

  lemma {:induction false} GrowingAppend(m: Memory, p: seq<Action>, q: seq<Action>)
    requires GrowingProgram(m, p) && GrowingProgram(Exec(m, p), q)
    ensures GrowingProgram(m, p + q)
    decreases |p|
  {
    if p == [] {
      assert p + q == q;
    } else {
      assert (p + q)[0] == p[0] && (p + q)[1..] == p[1..] + q;
      GrowingAppend(Act(m, p[0]), p[1..], q);
    }
  }

  /** Nothing is published or cleared. */
  predicate Unpublished(program: seq<Action>) {
    forall k :: 0 <= k < |program| ==> !program[k].Publish? && !program[k].PublishNull? && !program[k].Clear?
  }

  lemma {:induction false} UnpublishedGrows(m: Memory, program: seq<Action>)
    requires Unpublished(program)
    ensures GrowingProgram(m, program)
    decreases |program|
  {
    if program != [] {
      UnpublishedGrows(Act(m, program[0]), program[1..]);
    }
  }

  lemma {:induction false} WriteAllIsUnpublished(b: nat, from: nat, values: seq<Value>)
    ensures Unpublished(WriteAll(b, from, values))
    decreases |values|
  {
    if values != [] {
      WriteAllIsUnpublished(b, from + 1, values[1..]);
    }
  }

  lemma BuildIsUnpublished(b: nat, cells: nat, zeroed: bool, count: nat, contents: seq<Value>)
    ensures Unpublished(Build(b, cells, zeroed, count, contents))
  {
    WriteAllIsUnpublished(b, 0, if zeroed then Zeros(cells) else []);
    WriteAllIsUnpublished(b, 0, contents);
  }

  lemma AppendIsUnpublished(b: nat, n: nat, from: nat, row: seq<Value>)
    ensures Unpublished(AppendRow(b, n, from, row))
  {
    WriteAllIsUnpublished(b, from, Zeros(|row|));
    WriteAllIsUnpublished(b, from, row);
  }

  lemma AddIsUnpublished(b: nat, n: nat, from: nat, v: nat, head: seq<Value>, payload: seq<Value>, text: seq<Value>)
    ensures Unpublished(AddEntry(b, n, from, v, head, payload, text))
  {
    hide WriteAll;
    WriteAllIsUnpublished(b, from, head);
    if text == [] {
      WriteAllIsUnpublished(v, 0, payload);
    } else {
      TextIsUnpublished(v, text);
    }
  }

  lemma TextIsUnpublished(v: nat, text: seq<Value>)
    ensures Unpublished(MakeText(v, text))
  {
    WriteAllIsUnpublished(v, 0, Zeros(2));
    WriteAllIsUnpublished(v + 1, 0, text);
  }

  lemma EnlargeGrows(m: Memory, rows: nat)
    requires Shape(m) && m.rowCells > 0 && m.extraCells == 0 && SizeNow(m) <= rows
    ensures GrowingProgram(m, Enlarge(m, rows))
  {
    var n, b, w := SizeNow(m), |m.bufs|, m.rowCells;
    var contents := CurrentCells(m, Readable(m, n));
    var build := Build(b, rows * w, true, n, contents);
    BuildIsUnpublished(b, rows * w, true, n, contents);
    UnpublishedGrows(m, build);
    EnlargedIsBuilt(m, rows);
    var m1 := Exec(m, build);
    if Latest(m, Slot).Ref? {
      CurrentIsPublished(m);
    }
    BuiltIsGrowing(m, m1, rows * w, n, contents);
    assert [Publish(b)][1..] == [];
    GrowingAppend(m, build, [Publish(b)]);
  }

  lemma EnlargedIsBuilt(m: Memory, rows: nat)
    requires Shape(m) && m.rowCells > 0 && m.extraCells == 0 && SizeNow(m) <= rows
    ensures var n, contents := SizeNow(m), CurrentCells(m, Readable(m, SizeNow(m)));
            Built(m, Exec(m, Build(|m.bufs|, rows * m.rowCells, true, n, contents)), rows * m.rowCells, n, contents)
  {
    var n, contents := SizeNow(m), CurrentCells(m, Readable(m, SizeNow(m)));
    ReadableMonotone(m, n, rows);
    if Latest(m, Slot).Ref? {
      CurrentIsPublished(m);
      CurrentCellsCopyable(m, Readable(m, n));
    } else {
      assert contents == [];
    }
    BuildRuns(m, rows * m.rowCells, true, n, contents);
  }

  lemma RoomGrows(m: Memory, rows: nat)
    requires Shape(m) && m.rowCells > 0 && m.extraCells == 0 && WholeRows(m) && CapacityNow(m) < rows
    ensures GrowingProgram(m, Room(m, rows))
  {
    SizeIsBelowCapacity(m);
    if Full(m) {
      EnlargeGrows(m, rows);
    }
  }

  lemma CallGrows(kind: Kind, m: Memory, c: Call)
    requires Layout(kind, m) && Fits(kind, m, c) && GrowsOnly(c)
    ensures GrowingProgram(m, Program(m, c))
  {
    match c
    case Reserve(rows) =>
      SizeIsBelowCapacity(m);
      if rows > CapacityNow(m) {
        EnlargeGrows(m, rows);
      }
    case Push(row) =>
      var rows := ArrayBuffers.GrownCapacity(CapacityNow(m));
      RoomGrows(m, rows);
      var m1 := Exec(m, Room(m, rows));
      var append := AppendRow(Current(m1), SizeNow(m1), Readable(m1, SizeNow(m1)), WriterPrograms.Bytes(row));
      AppendIsUnpublished(Current(m1), SizeNow(m1), Readable(m1, SizeNow(m1)), WriterPrograms.Bytes(row));
      UnpublishedGrows(m1, append);
      GrowingAppend(m, Room(m, rows), append);
    case SetScalar(key, typeId, word) =>
      AddGrows(m, key, typeId, [Num(word)], []);
      UnpublishedGrows(m, [Overwrite(BlockNow(m, key), 0, word)]);
    case SetText(key, str) => AddGrows(m, key, EntryBuffers.TYPE_STRING, Zeros(2), TextCells(str));
    case EnsureObject(key) => AddGrows(m, key, EntryBuffers.TYPE_OBJECT, Zeros(2), []);
  }

  lemma AddGrows(m: Memory, key: nat, typeId: nat, payload: seq<Value>, text: seq<Value>)
    requires Layout(OfObject, m)
    ensures GrowingProgram(m, AddProgram(m, key, typeId, payload, text))
  {
    var rows := EntryBuffers.GrownCapacity(CapacityNow(m));
    RoomGrows(m, rows);
    var m1 := Exec(m, Room(m, rows));
    var b, n, from, v := Current(m1), SizeNow(m1), Readable(m1, SizeNow(m1)), |m1.bufs|;
    AddIsUnpublished(b, n, from, v, Head(key, typeId), payload, text);
    UnpublishedGrows(m1, AddEntry(b, n, from, v, Head(key, typeId), payload, text));
    GrowingAppend(m, Room(m, rows), AddEntry(b, n, from, v, Head(key, typeId), payload, text));
  }

  lemma {:induction false} SequenceGrows(kind: Kind, m: Memory, calls: seq<Call>)
    requires Layout(kind, m) && AllFit(kind, m, calls) && forall k :: 0 <= k < |calls| ==> GrowsOnly(calls[k])
    ensures GrowingProgram(m, AllPrograms(m, calls))
    decreases |calls|
  {
    hide Layout, Program, AllFit;
    if calls != [] {
      var m1 := FirstOfSequence(kind, m, calls);
      CallGrows(kind, m, calls[0]);
      SequenceGrows(kind, m1, calls[1..]);
      GrowingAppend(m, Program(m, calls[0]), AllPrograms(m1, calls[1..]));
    }
  }

  // ---- Schedules as runs -------------------------------------------------------------------

  /** The states a schedule goes through. */
  ghost function States(s: State, steps: seq<Step>): (run: seq<State>)
    ensures run != [] && run[0] == s
    decreases |steps|
  {
    if steps == [] || !StepAllowed(s, steps[0]) then [s] else [s] + States(Next(s, steps[0]), steps[1..])
  }

  lemma {:induction false} ScheduleIsRun(s: State, steps: seq<Step>, program: seq<Action>)
    requires Schedule(s, steps, program) && GrowingProgram(s.memory, program)
    ensures var run := States(s, steps);
            && |run| == |steps| + 1
            && (forall i :: 0 <= i < |steps| ==> StepAllowed(run[i], steps[i]) && run[i + 1] == Next(run[i], steps[i]))
            && (forall i :: 0 <= i < |steps| && steps[i].Writes? ==> Growing(run[i].memory, steps[i].action))
    decreases |steps|
  {
    hide Growing;
    if steps != [] {
      ScheduleIsRun(Next(s, steps[0]), steps[1..], if steps[0].Writes? then program[1..] else program);
    }
  }

  lemma ScheduleIsGrowing(kind: Kind, rowCells: nat, calls: seq<Call>, steps: seq<Step>)
    requires RowSizeOk(kind, rowCells) && AllFit(kind, ZeroedSlot(kind, rowCells).memory, calls)
    requires forall k :: 0 <= k < |calls| ==> GrowsOnly(calls[k])
    requires Schedule(ZeroedSlot(kind, rowCells), steps, AllPrograms(ZeroedSlot(kind, rowCells).memory, calls))
    ensures GrowingRun(States(ZeroedSlot(kind, rowCells), steps), steps)
  {
    var s := ZeroedSlot(kind, rowCells);
    ZeroedSlotHasLayout(kind, rowCells);
    SequenceGrows(kind, s.memory, calls);
    ScheduleIsRun(s, steps, AllPrograms(s.memory, calls));
  }

  /** Under any schedule of any reserves, pushes or adds, the sizes one reader loads never decrease. */
  lemma SizesOfGrowingCalls(kind: Kind, rowCells: nat, calls: seq<Call>, steps: seq<Step>, n: nat, k: nat, r: nat, one: nat, two: nat)
    requires RowSizeOk(kind, rowCells) && AllFit(kind, ZeroedSlot(kind, rowCells).memory, calls)
    requires forall i :: 0 <= i < |calls| ==> GrowsOnly(calls[i])
    requires Schedule(ZeroedSlot(kind, rowCells), steps, AllPrograms(ZeroedSlot(kind, rowCells).memory, calls))
    requires var run := States(ZeroedSlot(kind, rowCells), steps);
             n < k < |steps| < |run| && StepAllowed(run[n], steps[n]) && StepAllowed(run[k], steps[k])
             && Counts(run[n], steps[n], r, one) && Counts(run[k], steps[k], r, two)
    ensures one <= two
  {
    ScheduleIsGrowing(kind, rowCells, calls, steps);
    SizeCoherence.SizesNeverDecrease(States(ZeroedSlot(kind, rowCells), steps), steps, n, k, r, one, two);
  }
}
