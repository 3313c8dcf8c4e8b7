/**
 Which calls race with readers. A call may race exactly when it stores plainly to what it or an earlier
 call has already made readable: a set call on a scalar field that is there, and an array push onto a
 buffer that has been cleared of more elements than it now holds.
 */
module CallRaces {
  import ArrayBuffers
  import EntryBuffers
  import opened ReleaseAcquire
  import opened MemoryShape
  import opened Initialisation
  import opened Races
  import opened WriterPrograms
  import opened WriterCalls

  /** The call stores to what readers may have read. */
  ghost predicate Rewrites(m: Memory, c: Call) {
    match c
    case SetScalar(key, typeId, _) => Present(m, key) && TypeNow(m, key) == Num(typeId)
    case Push(_) => !Calm(m)
    case _ => false
  }

  // ---- Programs that store only where no reader can be -------------------------------------

  ghost predicate StoresApart(m: Memory, program: seq<Action>)
    decreases |program|
  {
    program == []
    || (&& (program[0].Write? || program[0].Overwrite? ==> !Reachable(m, StoredTo(m, program[0])))
        && StoresApart(Act(m, program[0]), program[1..]))
  }

  lemma {:induction false} ApartNeverRaces(s: State, steps: seq<Step>, program: seq<Action>)
    requires Inv(s) && StoresApart(s.memory, program) && Schedule(s, steps, program)
    ensures !RacesAlong(s, steps)
    decreases |steps|
  {
    if steps != [] {
      StepKeepsInv(s, steps[0]);
      ApartNeverRaces(Next(s, steps[0]), steps[1..], if steps[0].Writes? then program[1..] else program);
    }
  }

  /** Stores go to buffers from `base` on. */
  predicate StoresFrom(program: seq<Action>, base: nat) {
    forall k :: 0 <= k < |program| && program[k].Write? ==> program[k].buf >= base
  }

  ghost predicate CalmFrom(m: Memory, base: nat) {
    HasBuffer(m) && Current(m) >= base ==> CalmAt(m, Current(m))
  }

  lemma QuietStoreIsApart(m: Memory, base: nat, a: Action)
    requires Shape(m) && Allowed(m, a) && CalmFrom(m, base) && a.Write? && a.buf >= base
    ensures !Reachable(m, StoredTo(m, a))
  {
    if Covered(m, a.buf, a.i) {
      var j: nat :| 1 <= j < |Messages(m, Count(a.buf))| && a.i < Readable(m, CountAt(m, a.buf, j));
      assert Current(m) == a.buf && CountAt(m, a.buf, j) <= CountNow(m, a.buf);
      ReadableMonotone(m, CountAt(m, a.buf, j), CountNow(m, a.buf));
    }
  }

  lemma ActStaysCalmFrom(m: Memory, base: nat, a: Action)
    requires Shape(m) && Allowed(m, a) && !a.Clear? && CalmFrom(m, base)
    ensures CalmFrom(Act(m, a), base)
  {
    if HasBuffer(Act(m, a)) && Current(Act(m, a)) >= base {
      if Latest(m, Slot) == Ref(Current(Act(m, a))) {
        CurrentIsPublished(m);
      }
      CalmAtStays(m, a, Current(Act(m, a)));
    }
  }

  lemma {:induction false} QuietIsApart(m: Memory, base: nat, program: seq<Action>)
    requires Shape(m) && Runs(m, program) && QuietProgram(program) && StoresFrom(program, base) && CalmFrom(m, base)
    ensures StoresApart(m, program)
    decreases |program|
  {
    if program != [] {
      var a := program[0];
      if a.Write? {
        QuietStoreIsApart(m, base, a);
      }
      ActKeepsShape(m, a);
      ActStaysCalmFrom(m, base, a);
      QuietIsApart(Act(m, a), base, program[1..]);
    }
  }

  lemma {:induction false} WriteAllStoresTo(b: nat, from: nat, values: seq<Value>)
    ensures StoresFrom(WriteAll(b, from, values), b)
    decreases |values|
  {
    if values != [] {
      WriteAllStoresTo(b, from + 1, values[1..]);
    }
  }

  /** A private buffer is apart whatever the current one has counted. */
  lemma ReplaceIsApart(m: Memory, cells: nat, zeroed: bool, count: nat, contents: seq<Value>)
    requires Shape(m) && Runs(m, Replace(|m.bufs|, cells, zeroed, count, contents))
    ensures StoresApart(m, Replace(|m.bufs|, cells, zeroed, count, contents))
  {
    WriteAllStoresTo(|m.bufs|, 0, if zeroed then Zeros(cells) else []);
    WriteAllStoresTo(|m.bufs|, 0, contents);
    ReplaceIsQuiet(|m.bufs|, cells, zeroed, count, contents);
    QuietIsApart(m, |m.bufs|, Replace(|m.bufs|, cells, zeroed, count, contents));
  }

  lemma CalmIsApart(m: Memory, program: seq<Action>)
    requires Shape(m) && Calm(m) && Runs(m, program) && QuietProgram(program)
    ensures StoresApart(m, program)
  {
    QuietIsApart(m, 0, program);
  }

  lemma OthersAreApart(kind: Kind, m: Memory, c: Call)
    requires Layout(kind, m) && Fits(kind, m, c) && !Rewrites(m, c)
    ensures StoresApart(m, Program(m, c))
  {
    CallRuns(kind, m, c);
    match c
    case SetString(str) =>
      SetStringRuns(m, str);
      CalmIsApart(m, Program(m, c));
    case Reserve(rows) =>
      if rows > CapacityNow(m) {
        ReplaceIsApart(m, rows * m.rowCells, true, SizeNow(m), CurrentCells(m, Readable(m, SizeNow(m))));
      }
    case Push(row) =>
      PushRuns(m, row);
      CalmIsApart(m, Program(m, c));
    case ClearArray =>
      assert [Clear][1..] == [];
    case _ => ObjectCallsAreApart(m, c);
  }

  lemma ObjectCallsAreApart(m: Memory, c: Call)
    requires Layout(OfObject, m) && Fits(OfObject, m, c) && !Rewrites(m, c)
    ensures StoresApart(m, Program(m, c))
  {
    match c
    case SetScalar(key, typeId, word) =>
      if !Present(m, key) {
        AddRuns(m, key, typeId, [Num(word)], []);
        CalmIsApart(m, Program(m, c));
      }
    case SetText(key, str) =>
      AddRuns(m, key, EntryBuffers.TYPE_STRING, Zeros(2), TextCells(str));
      if !Present(m, key) {
        CalmIsApart(m, Program(m, c));
      }
    case EnsureObject(key) =>
      AddRuns(m, key, EntryBuffers.TYPE_OBJECT, Zeros(2), []);
      if !Present(m, key) {
        CalmIsApart(m, Program(m, c));
      }
    case Remove(key) =>
      if Present(m, key) {
        PresentEntry(m, key);
        RemoveFieldRuns(m, FindEntry(m, key, 0));
        CalmIsApart(m, Program(m, c));
      }
  }

  // ---- Calls that rewrite ------------------------------------------------------------------

  /** The stores alone, with no reader in between. */
  function AllWrites(program: seq<Action>): seq<Step> {
    seq(|program|, k requires 0 <= k < |program| => Writes(program[k]))
  }

  lemma {:induction false} ProgramIsSchedule(s: State, program: seq<Action>)
    requires Runs(s.memory, program)
    ensures Schedule(s, AllWrites(program), program)
    decreases |program|
  {
    if program != [] {
      var s1 := s.(memory := Act(s.memory, program[0]));
      ProgramIsSchedule(s1, program[1..]);
      assert AllWrites(program)[1..] == AllWrites(program[1..]);
    }
  }

  lemma FirstStoreRaces(s: State, program: seq<Action>)
    requires Inv(s) && Runs(s.memory, program) && program != [] && (program[0].Write? || program[0].Overwrite?)
    requires MayTouch(s, StoredTo(s.memory, program[0]))
    ensures MayRace(s, program)
  {
    var before: seq<Step> :| Schedule(s, before, []) && StoredTo(s.memory, program[0]) in After(s, before).touched;
    ReadersKeepMemory(s, before);
    var s1, writes := After(s, before), AllWrites(program);
    ProgramIsSchedule(s1, program);
    assert writes[0] == Writes(program[0]) && IsRace(s1, program[0]);
    ScheduleAppend(s, before, writes, program);
  }

  lemma CurrentRowIsCovered(m: Memory, q: nat, i: nat)
    requires Shape(m) && HasBuffer(m) && q < SizeNow(m) && i < Readable(m, q + 1)
    ensures Covered(m, Current(m), i)
  {
    var b := Current(m);
    CurrentIsPublished(m);
    ReadableMonotone(m, q + 1, SizeNow(m));
    assert i < Readable(m, CountAt(m, b, |Messages(m, Count(b))| - 1));
  }

  /** A set call on a scalar field that is there. */
  lemma SetMayRace(s: State, key: nat, typeId: nat, word: nat)
    requires Inv(s) && Layout(OfObject, s.memory) && Rewrites(s.memory, SetScalar(key, typeId, word))
    ensures MayRace(s, Program(s.memory, SetScalar(key, typeId, word)))
  {
    hide Inv, MayTouch, MayRace, Covered, Shape;
    var m, q, v := s.memory, FindEntry(s.memory, key, 0), BlockNow(s.memory, key);
    PresentEntry(m, key);
    FourCells(m, q, q + 1);
    CurrentRowIsCovered(m, q, Readable(m, q) + 3);
    assert EntryOk(m, q);
    LinkedBlockMayBeRead(s, Current(m), Readable(m, q) + 3, v, 0);
    OverwriteRuns(m, key, word);
    FirstStoreRaces(s, [Overwrite(v, 0, word)]);
  }

  lemma ClearedRowIsCovered(m: Memory, grown: nat)
    requires Layout(OfArray, m) && !Calm(m)
    ensures Room(m, grown) == [] && HasBuffer(m) && !m.bufs[Current(m)].sealed
    ensures Covered(m, Current(m), Readable(m, SizeNow(m)))
  {
    var b, n := Current(m), SizeNow(m);
    var j: nat :| 1 <= j < |Messages(m, Count(b))| && CountAt(m, b, j) > CountNow(m, b);
    SizeIsBelowCapacity(m);
    CurrentIsPublished(m);
    MoreIsReadable(m, n, CountAt(m, b, j));
  }

  /** A push onto a buffer that has counted more elements than it holds. */
  lemma PushMayRace(s: State, row: seq<nat>)
    requires Inv(s) && Layout(OfArray, s.memory) && |row| == s.memory.rowCells && !Calm(s.memory)
    ensures MayRace(s, Program(s.memory, Push(row)))
  {
    hide MayTouch, MayRace, Schedule, Calm, Covered;
    var m := s.memory;
    ClearedRowIsCovered(m, ArrayBuffers.GrownCapacity(CapacityNow(m)));
    RowMayBeReadExactlyWhenCounted(s, Current(m), Readable(m, SizeNow(m)));
    PushRuns(m, row);
    assert Program(m, Push(row))[0] == Write(Current(m), Readable(m, SizeNow(m)), Num(0));
    FirstStoreRaces(s, Program(m, Push(row)));
  }

  lemma MoreIsReadable(m: Memory, n: nat, k: nat)
    requires n < k && m.rowCells > 0
    ensures Readable(m, n) < Readable(m, k)
  {
    assert k * m.rowCells == n * m.rowCells + (k - n) * m.rowCells;
  }

  /** The condition. A reader can be scheduled so that a store of the call goes to what it has read, with
      nothing ordering the two, if and only if the call rewrites. */
  lemma CallMayRaceExactlyWhenItRewrites(kind: Kind, s: State, c: Call)
    requires Inv(s) && Layout(kind, s.memory) && Fits(kind, s.memory, c)
    ensures MayRace(s, Program(s.memory, c)) <==> Rewrites(s.memory, c)
  {
    if Rewrites(s.memory, c) {
      if c.SetScalar? {
        SetMayRace(s, c.key, c.typeId, c.word);
      } else {
        PushMayRace(s, c.row);
      }
    } else {
      OthersAreApart(kind, s.memory, c);
      if MayRace(s, Program(s.memory, c)) {
        var steps: seq<Step> :| Schedule(s, steps, Program(s.memory, c)) && RacesAlong(s, steps);
        ApartNeverRaces(s, steps, Program(s.memory, c));
      }
    }
  }

  // ---- Runs that race ----------------------------------------------------------------------

  /** A schedule of a program leaves memory as the program does. */
  lemma {:induction false} ScheduleEndsAt(s: State, steps: seq<Step>, program: seq<Action>)
    requires Inv(s) && Schedule(s, steps, program)
    ensures Inv(After(s, steps)) && After(s, steps).memory == Exec(s.memory, program)
    decreases |steps|
  {
    if steps != [] {
      StepKeepsInv(s, steps[0]);
      ScheduleEndsAt(Next(s, steps[0]), steps[1..], if steps[0].Writes? then program[1..] else program);
    }
  }

  lemma ZeroedSlotIsInv(kind: Kind, rowCells: nat)
    requires RowSizeOk(kind, rowCells)
    ensures Inv(ZeroedSlot(kind, rowCells)) && Layout(kind, ZeroedSlot(kind, rowCells).memory)
  {
    RunKeepsInv([ZeroedSlot(kind, rowCells)], [], 0);
    ZeroedSlotHasLayout(kind, rowCells);
  }

  /** The state once the call's stores are done. */
  lemma AfterCall(kind: Kind, s: State, c: Call) returns (s': State)
    requires Inv(s) && Layout(kind, s.memory) && Fits(kind, s.memory, c)
    ensures Inv(s') && Layout(kind, s'.memory) && s'.memory == Exec(s.memory, Program(s.memory, c))
    ensures s'.memory.rowCells == s.memory.rowCells
  {
    var program := Program(s.memory, c);
    CallRuns(kind, s.memory, c);
    ProgramIsSchedule(s, program);
    ScheduleEndsAt(s, AllWrites(program), program);
    RunsKeepShape(s.memory, program);
    s' := After(s, AllWrites(program));
  }

  /** `obj[key] = word` twice: the second call may race. */
  lemma SecondSetRaces(key: nat, typeId: nat, word: nat, again: nat) returns (s: State)
    requires Fits(OfObject, ZeroedSlot(OfObject, 4).memory, SetScalar(key, typeId, word))
    ensures var m := ZeroedSlot(OfObject, 4).memory; s.memory == Exec(m, Program(m, SetScalar(key, typeId, word)))
    ensures Inv(s) && MayRace(s, Program(s.memory, SetScalar(key, typeId, again)))
  {
    hide Inv, Layout, MayRace, Exec, Runs, AddProgram, Initial, EntryCell;
    ZeroedSlotIsInv(OfObject, 4);
    ZeroedSlotHasLayout(OfObject, 4);
    var s0 := ZeroedSlot(OfObject, 4);
    AddRuns(s0.memory, key, typeId, [Num(word)], []);
    s := AfterCall(OfObject, s0, SetScalar(key, typeId, word));
    assert FindEntry(s.memory, key, 0) == 0;
    SetMayRace(s, key, typeId, again);
  }

  /** Push, clear, push: the second push may race. */
  lemma PushAfterClearRaces(row: seq<nat>) returns (s: State)
    requires row != []
    ensures var m0 := ZeroedSlot(OfArray, |row|).memory; var m1 := Exec(m0, Program(m0, Push(row)));
            s.memory == Exec(m1, Program(m1, ClearArray))
    ensures Inv(s) && MayRace(s, Program(s.memory, Push(row)))
  {
    hide Inv, Layout, MayRace, Exec, Runs, PushProgram, Initial, Calm;
    ZeroedSlotIsInv(OfArray, |row|);
    ZeroedSlotHasLayout(OfArray, |row|);
    var s0 := ZeroedSlot(OfArray, |row|);
    PushRuns(s0.memory, row);
    var s1 := AfterCall(OfArray, s0, Push(row));
    s := AfterCall(OfArray, s1, ClearArray);
    ClearedIsNotCalm(s1.memory);
    PushMayRace(s, row);
  }

  lemma ClearedIsNotCalm(m: Memory)
    requires Layout(OfArray, m) && HasBuffer(m) && SizeNow(m) > 0
    ensures !Calm(Exec(m, [Clear]))
  {
    var m', b := Exec(m, [Clear]), Current(m);
    RunsOne(m, Clear);
    CurrentIsPublished(m);
    StoresAreLegal(m, Clear);
    StoreLatest(m, Clear);
    StoreEffect(m, Clear);
    var j := |Messages(m, Count(b))| - 1;
    assert CountAt(m', b, j) == CountAt(m, b, j) == CountNow(m, b) > CountNow(m', b);
  }
}
