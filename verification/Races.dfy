/**
 When the writer's plain stores race. Readers never wait for the writer and never tell it what they have
 read, so a plain store races exactly when a reader may have read its cell before.
 */
module Races {
  import opened ReleaseAcquire
  import opened MemoryShape
  import opened Initialisation

  // ---- Schedules ---------------------------------------------------------------------------

  /** A schedule interleaves the given stores with any steps of any readers. */
  ghost predicate Schedule(s: State, steps: seq<Step>, program: seq<Action>)
    decreases |steps|
  {
    if steps == [] then program == []
    else
      && StepAllowed(s, steps[0])
      && match steps[0]
         case Writes(a) => program != [] && a == program[0] && Schedule(Next(s, steps[0]), steps[1..], program[1..])
         case Reads(_, _) => Schedule(Next(s, steps[0]), steps[1..], program)
  }

  ghost function After(s: State, steps: seq<Step>): State
    decreases |steps|
  {
    if steps == [] || !StepAllowed(s, steps[0]) then s else After(Next(s, steps[0]), steps[1..])
  }

  /** A plain store to a location that some reader has read plainly. */
  ghost predicate IsRace(s: State, a: Action) {
    (a.Write? || a.Overwrite?) && StoredTo(s.memory, a) in s.touched
  }

  ghost predicate RacesAlong(s: State, steps: seq<Step>)
    decreases |steps|
  {
    && steps != [] && StepAllowed(s, steps[0])
    && ((steps[0].Writes? && IsRace(s, steps[0].action)) || RacesAlong(Next(s, steps[0]), steps[1..]))
  }

  /** Some schedule of the program has a race. */
  ghost predicate MayRace(s: State, program: seq<Action>) {
    exists steps: seq<Step> :: Schedule(s, steps, program) && RacesAlong(s, steps)
  }

  /** Readers alone can get to read this cell. */
  ghost predicate MayTouch(s: State, l: Loc) {
    exists steps: seq<Step> :: Schedule(s, steps, []) && l in After(s, steps).touched
  }

  lemma {:induction false} ReadersKeepMemory(s: State, steps: seq<Step>)
    requires Inv(s) && Schedule(s, steps, [])
    ensures Inv(After(s, steps)) && After(s, steps).memory == s.memory
    decreases |steps|
  {
    if steps != [] {
      StepKeepsInv(s, steps[0]);
      ReadersKeepMemory(Next(s, steps[0]), steps[1..]);
    }
  }

  lemma {:induction false} ScheduleAppend(s: State, front: seq<Step>, back: seq<Step>, program: seq<Action>)
    requires Schedule(s, front, []) && Schedule(After(s, front), back, program)
    ensures Schedule(s, front + back, program) && After(s, front + back) == After(After(s, front), back)
    ensures RacesAlong(After(s, front), back) ==> RacesAlong(s, front + back)
    decreases |front|
  {
    hide Next, StepAllowed;
    if front == [] {
      assert front + back == back;
    } else {
      assert (front + back)[0] == front[0] && (front + back)[1..] == front[1..] + back;
      ScheduleAppend(Next(s, front[0]), front[1..], back, program);
    }
  }

  lemma OneStep(s: State, step: Step)
    requires Inv(s) && StepAllowed(s, step)
    ensures Schedule(s, [step], if step.Writes? then [step.action] else [])
    ensures After(s, [step]) == Next(s, step) && Inv(Next(s, step))
    ensures step.Writes? && IsRace(s, step.action) ==> RacesAlong(s, [step])
  {
    StepKeepsInv(s, step);
    assert [step][1..] == [];
    assert Schedule(Next(s, step), [], []);
    if step.Writes? {
      assert [step.action][1..] == [];
    }
  }

  // ---- Stores to rows ----------------------------------------------------------------------

  lemma {:induction false} SomeReaderIsFresh(readers: set<nat>) returns (r: nat)
    ensures forall k :: k in readers ==> k < r
    decreases readers
  {
    r := 0;
    if readers != {} {
      var k :| k in readers;
      var below := SomeReaderIsFresh(readers - {k});
      r := if k < below then below else k + 1;
      forall j | j in readers ensures j < r {
        assert j == k || j in readers - {k};
      }
    }
  }

  /** A new reader takes the old slot message and the old count, and reads the row's cell as it is now. */
  lemma ReaderGetsToRow(s: State, r: nat, b: nat, i: nat) returns (steps: seq<Step>)
    requires Inv(s) && r !in s.readers && Covered(s.memory, b, i)
    ensures Schedule(s, steps, [])
    ensures var s' := After(s, steps); var value := Latest(s.memory, Cell(b, i));
            && s'.memory == s.memory && Inv(s') && Cell(b, i) in s'.touched
            && (value.Ref? ==> ThreadAt(s', r).pc == Following(value.buf))
  {
    hide Schedule, After, Inv, StepAllowed;
    var k, j := WhereCovered(s, b, i);
    var s1 := ReaderLoadsSlot(s, r, b, k);
    var s2 := ReaderLoadsCount(s1, r, b, j);
    steps := ReaderReads(s2, r, i);
    ScheduleAppend(s1, [Reads(r, LoadCount(j))], steps, []);
    ScheduleAppend(s, [Reads(r, LoadSlot(k))], [Reads(r, LoadCount(j))] + steps, []);
    steps := [Reads(r, LoadSlot(k))] + ([Reads(r, LoadCount(j))] + steps);
  }

  lemma WhereCovered(s: State, b: nat, i: nat) returns (k: nat, j: nat)
    requires Inv(s) && Covered(s.memory, b, i)
    ensures var m := s.memory; b < |m.bufs| && k < |Messages(m, Slot)| && Messages(m, Slot)[k].value == Ref(b)
    ensures var m := s.memory; 1 <= j < |Messages(m, Count(b))| && i < Readable(m, CountAt(m, b, j))
  {
    var m := s.memory;
    assert BufferOk(m, b) && WasCurrent(m, b);
    k :| k < |Messages(m, Slot)| && Messages(m, Slot)[k].value == Ref(b);
    j :| 1 <= j < |Messages(m, Count(b))| && i < Readable(m, CountAt(m, b, j));
  }

  lemma ReaderLoadsSlot(s: State, r: nat, b: nat, k: nat) returns (s': State)
    requires Inv(s) && r !in s.readers && k < |Messages(s.memory, Slot)| && Messages(s.memory, Slot)[k].value == Ref(b)
    ensures Schedule(s, [Reads(r, LoadSlot(k))], []) && s' == After(s, [Reads(r, LoadSlot(k))])
    ensures Inv(s') && s'.memory == s.memory && r in s'.readers
    ensures ThreadAt(s', r).pc == Acquired(b) && Seen(ThreadAt(s', r).view, Count(b)) == 1
  {
    OneStep(s, Reads(r, LoadSlot(k)));
    s' := After(s, [Reads(r, LoadSlot(k))]);
    assert SlotMessageOk(s.memory, Messages(s.memory, Slot)[k]);
  }

  lemma ReaderLoadsCount(s: State, r: nat, b: nat, j: nat) returns (s': State)
    requires Inv(s) && r in s.readers && ThreadAt(s, r).pc == Acquired(b) && Seen(ThreadAt(s, r).view, Count(b)) == 1
    requires b < |s.memory.bufs| && 1 <= j < |Messages(s.memory, Count(b))|
    ensures Schedule(s, [Reads(r, LoadCount(j))], []) && s' == After(s, [Reads(r, LoadCount(j))])
    ensures Inv(s') && s'.memory == s.memory && r in s'.readers
    ensures ThreadAt(s', r).pc == Counted(b, CountAt(s.memory, b, j))
  {
    assert BufferOk(s.memory, b) && CountOk(s.memory, b, j);
    OneStep(s, Reads(r, LoadCount(j)));
    s' := After(s, [Reads(r, LoadCount(j))]);
  }

  lemma LatestIsReadable(m: Memory, t: Thread, i: nat) returns (a: ReadAction)
    requires ThreadOk(m, t)
    requires match t.pc
             case Counted(_, n) => i < Readable(m, n)
             case Following(b) => b < |m.bufs| && i < m.bufs[b].cells
             case _ => false
    ensures a.ReadCell? && a.i == i && Target(t.pc, a) == Target(t.pc, ReadCell(i, 0)) && MayRead(m, t, a)
    ensures m.log[Target(t.pc, a)][a.ts].value == Latest(m, Target(t.pc, a))
  {
    var l := Target(t.pc, ReadCell(i, 0));
    assert Solid(m, t.view, l);
    a := ReadCell(i, |m.log[l]| - 1);
  }

  /** What a reader reads next, it may read as it is now. */
  lemma ReaderReads(s: State, r: nat, i: nat) returns (steps: seq<Step>)
    requires Inv(s) && r in s.readers
    requires match ThreadAt(s, r).pc
             case Counted(_, n) => i < Readable(s.memory, n)
             case Following(b) => b < |s.memory.bufs| && i < s.memory.bufs[b].cells
             case _ => false
    ensures Schedule(s, steps, [])
    ensures var s' := After(s, steps); var l := Target(ThreadAt(s, r).pc, ReadCell(i, 0));
            && s'.memory == s.memory && Inv(s') && l in s'.touched && r in s'.readers
            && (Latest(s.memory, l).Ref? ==> ThreadAt(s', r).pc == Following(Latest(s.memory, l).buf))
  {
    var a := LatestIsReadable(s.memory, ThreadAt(s, r), i);
    hide Inv, Schedule, After, MayRead;
    steps := [Reads(r, a)];
    OneStep(s, Reads(r, a));
  }

  /** A store to a row of a buffer may race if and only if the buffer has counted that row before. */
  lemma RowMayBeReadExactlyWhenCounted(s: State, b: nat, i: nat)
    requires Inv(s) && b < |s.memory.bufs| && !s.memory.bufs[b].sealed
    ensures MayTouch(s, Cell(b, i)) <==> Covered(s.memory, b, i)
  {
    if Covered(s.memory, b, i) {
      var r := SomeReaderIsFresh(s.readers.Keys);
      var steps := ReaderGetsToRow(s, r, b, i);
    }
    if MayTouch(s, Cell(b, i)) {
      var steps: seq<Step> :| Schedule(s, steps, []) && Cell(b, i) in After(s, steps).touched;
      ReadersKeepMemory(s, steps);
      assert Reachable(s.memory, Cell(b, i));
    }
  }

  lemma StoreMayRaceExactlyWhenReadable(s: State, a: Action)
    requires Inv(s) && Allowed(s.memory, a) && (a.Write? || a.Overwrite?)
    ensures MayRace(s, [a]) <==> MayTouch(s, StoredTo(s.memory, a))
  {
    hide Inv, Next, Schedule, After, RacesAlong;
    var l := StoredTo(s.memory, a);
    if MayTouch(s, l) {
      var steps: seq<Step> :| Schedule(s, steps, []) && l in After(s, steps).touched;
      ReadersKeepMemory(s, steps);
      OneStep(After(s, steps), Writes(a));
      ScheduleAppend(s, steps, [Writes(a)], [a]);
    }
    if MayRace(s, [a]) {
      var steps: seq<Step> :| Schedule(s, steps, [a]) && RacesAlong(s, steps);
      OnlyRace(s, steps, a);
    }
  }

  /** The race is with a reader that has read before the store. */
  lemma {:induction false} OnlyRace(s: State, steps: seq<Step>, a: Action)
    requires Inv(s) && Schedule(s, steps, [a]) && RacesAlong(s, steps) && Allowed(s.memory, a)
    ensures MayTouch(s, StoredTo(s.memory, a))
    decreases |steps|
  {
    hide Inv;
    var l := StoredTo(s.memory, a);
    if steps[0].Writes? {
      assert [a][1..] == [];
      if l in s.touched {
        assert Schedule(s, [], []) && l in After(s, []).touched;
      } else {
        NothingRaces(Next(s, steps[0]), steps[1..]);
      }
    } else {
      var s1 := Next(s, steps[0]);
      StepKeepsInv(s, steps[0]);
      OnlyRace(s1, steps[1..], a);
      var rest: seq<Step> :| Schedule(s1, rest, []) && l in After(s1, rest).touched;
      OneStep(s, steps[0]);
      ScheduleAppend(s, [steps[0]], rest, []);
    }
  }

  lemma {:induction false} NothingRaces(s: State, steps: seq<Step>)
    requires Schedule(s, steps, [])
    ensures !RacesAlong(s, steps)
    decreases |steps|
  {
    if steps != [] {
      NothingRaces(Next(s, steps[0]), steps[1..]);
    }
  }

  // ---- Overwrites --------------------------------------------------------------------------

  /** A reader that may read a reference may read every cell of the block behind it. */
  lemma LinkedBlockMayBeRead(s: State, b: nat, i: nat, v: nat, c: nat)
    requires Inv(s) && Covered(s.memory, b, i) && Latest(s.memory, Cell(b, i)) == Ref(v)
    requires v < |s.memory.bufs| && c < s.memory.bufs[v].cells
    ensures MayTouch(s, Cell(v, c))
  {
    hide Schedule, After, Inv;
    var r := SomeReaderIsFresh(s.readers.Keys);
    var steps := ReaderGetsToRow(s, r, b, i);
    var s1 := After(s, steps);
    assert r in s1.readers;
    var more := ReaderReads(s1, r, c);
    ScheduleAppend(s, steps, more, []);
  }
}
