/**
 The store sequences the writer's calls issue, and the proof that each of them keeps to the publication
 discipline: from any memory the writer can have produced the sequence runs without violating a guard.
 */
module WriterPrograms {
  import opened ReleaseAcquire
  import opened MemoryShape

  /** Reader steps leave memory alone, so interleaved readers cannot disturb a sequence. */
  ghost predicate Runs(m: Memory, actions: seq<Action>)
    decreases |actions|
  {
    actions == [] || (Allowed(m, actions[0]) && Runs(Act(m, actions[0]), actions[1..]))
  }

  function Exec(m: Memory, actions: seq<Action>): Memory
    decreases |actions|
  {
    if actions == [] then m else Exec(Act(m, actions[0]), actions[1..])
  }

  lemma {:induction false} RunsAppend(m: Memory, front: seq<Action>, back: seq<Action>)
    requires Runs(m, front) && Runs(Exec(m, front), back)
    ensures Runs(m, front + back) && Exec(m, front + back) == Exec(Exec(m, front), back)
    decreases |front|
  {
    if front == [] {
      assert front + back == back;
    } else {
      assert (front + back)[0] == front[0] && (front + back)[1..] == front[1..] + back;
      RunsAppend(Act(m, front[0]), front[1..], back);
    }
  }

  lemma RunsOne(m: Memory, a: Action)
    requires Allowed(m, a)
    ensures Runs(m, [a]) && Exec(m, [a]) == Act(m, a)
  {
    assert [a][1..] == [];
    assert Runs(Act(m, a), []);
  }

  /** memcpy or memset: store `values` to consecutive cells. */
  function WriteAll(b: nat, from: nat, values: seq<Value>): seq<Action>
    decreases |values|
  {
    if values == [] then [] else [Write(b, from, values[0])] + WriteAll(b, from + 1, values[1..])
  }

  function Zeros(n: nat): (values: seq<Value>)
    ensures |values| == n && forall i :: 0 <= i < n ==> values[i] == Num(0)
  {
    seq(n, i => Num(0))
  }

  /** Values that may be copied: written ones, with every reference to a finished block. */
  ghost predicate Copyable(m: Memory, b: nat, values: seq<Value>) {
    forall j :: 0 <= j < |values| ==>
      && values[j] != Garbage
      && (values[j].Ref? ==> values[j].buf != b && values[j].buf < |m.bufs| && m.bufs[values[j].buf].sealed)
  }

  /** References go only where no reader has been. */
  ghost predicate RefsFit(m: Memory, b: nat, from: nat, values: seq<Value>) {
    forall j :: 0 <= j < |values| && values[j].Ref? ==> !Covered(m, b, from + j)
  }

  ghost predicate RangeWritable(m: Memory, b: nat, from: nat, n: nat) {
    forall i: nat :: from <= i < from + n ==> Writable(m, b, i)
  }

  /** Memory changed only in the cells [from, from + |values|) of b, which now hold `values`. */
  ghost predicate Copied(m: Memory, m': Memory, b: nat, from: nat, values: seq<Value>) {
    && m'.bufs == m.bufs && m'.rowCells == m.rowCells && m'.extraCells == m.extraCells
    && (forall l: Loc :: (l.Cell? && l.buf == b && from <= l.i < from + |values|) || Messages(m', l) == Messages(m, l))
    && (forall j :: 0 <= j < |values| ==> Latest(m', Cell(b, from + j)) == values[j])
  }

  lemma SameMessagesSameLatest(m: Memory, m': Memory, l: Loc)
    requires Messages(m', l) == Messages(m, l)
    ensures Latest(m', l) == Latest(m, l)
  {
  }

  lemma WriteIsEnabled(m: Memory, b: nat, i: nat, value: Value)
    requires Shape(m) && Writable(m, b, i) && Copyable(m, b, [value]) && (value.Ref? ==> !Covered(m, b, i))
    ensures Enabled(m, Write(b, i, value))
    ensures Seal(m.bufs, value) == m.bufs
  {
    var v := [value][0];
    if value.Ref? {
      assert BufferOk(m, v.buf);
    }
  }

  lemma WriteOneRuns(m: Memory, b: nat, i: nat, value: Value)
    requires Shape(m) && Writable(m, b, i) && Copyable(m, b, [value]) && (value.Ref? ==> !Covered(m, b, i))
    ensures Enabled(m, Write(b, i, value)) && Shape(Act(m, Write(b, i, value)))
    ensures Copied(m, Act(m, Write(b, i, value)), b, i, [value])
  {
    hide Shape, Writable, Copyable, Covered, Complete, Seal;
    var a := Write(b, i, value);
    WriteIsEnabled(m, b, i, value);
    ActKeepsShape(m, a);
    ShapeIsOk(m);
    StoresAreLegal(m, a);
    StoreLatest(m, a);
  }

  lemma ShapeIsOk(m: Memory)
    requires Shape(m)
    ensures MemoryOk(m)
  {
  }

  lemma WritableStays(m: Memory, m': Memory, b: nat, from: nat, values: seq<Value>, i: nat)
    requires Copied(m, m', b, from, values) && Writable(m, b, i)
    ensures Writable(m', b, i)
  {
    SameMessagesSameLatest(m, m', Slot);
    SameMessagesSameLatest(m, m', Count(b));
  }

  lemma CoveredAsBefore(m: Memory, m': Memory, b: nat, i: nat)
    requires b < |m.bufs| && b < |m'.bufs| && m'.bufs[b].published == m.bufs[b].published
    requires m'.rowCells == m.rowCells && m'.extraCells == m.extraCells && Messages(m', Count(b)) == Messages(m, Count(b))
    ensures Covered(m', b, i) ==> Covered(m, b, i)
  {
    if Covered(m', b, i) {
      var j: nat :| 1 <= j < |Messages(m', Count(b))| && i < Readable(m', CountAt(m', b, j));
      assert CountAt(m, b, j) == CountAt(m', b, j);
    }
  }

  lemma RunsCons(m: Memory, m1: Memory, a: Action, rest: seq<Action>)
    requires Allowed(m, a) && m1 == Act(m, a) && Runs(m1, rest)
    ensures Runs(m, [a] + rest) && Exec(m, [a] + rest) == Exec(m1, rest)
  {
    assert ([a] + rest)[1..] == rest;
  }

  lemma RestWritable(m: Memory, m1: Memory, b: nat, from: nat, values: seq<Value>)
    requires values != [] && RangeWritable(m, b, from, |values|) && Copyable(m, b, values) && RefsFit(m, b, from, values)
    requires Copied(m, m1, b, from, [values[0]])
    ensures RangeWritable(m1, b, from + 1, |values[1..]|) && Copyable(m1, b, values[1..])
    ensures RefsFit(m1, b, from + 1, values[1..])
  {
    assert Writable(m, b, from);
    forall j | 0 <= j < |values[1..]| && values[1..][j].Ref? ensures !Covered(m1, b, from + 1 + j) {
      assert values[1..][j] == values[j + 1];
      CoveredAsBefore(m, m1, b, from + (j + 1));
    }
    forall i: nat | from + 1 <= i < from + 1 + |values[1..]| ensures Writable(m1, b, i) {
      WritableStays(m, m1, b, from, [values[0]], i);
    }
  }

  lemma {:induction false} WriteAllRuns(m: Memory, b: nat, from: nat, values: seq<Value>)
    requires Shape(m) && RangeWritable(m, b, from, |values|) && Copyable(m, b, values) && RefsFit(m, b, from, values)
    ensures Runs(m, WriteAll(b, from, values))
    ensures var m' := Exec(m, WriteAll(b, from, values)); Shape(m') && Copied(m, m', b, from, values)
    decreases |values|
  {
    if values != [] {
      var m1 := FirstWritten(m, b, from, values);
      RestWritable(m, m1, b, from, values);
      WriteAllRuns(m1, b, from + 1, values[1..]);
      RunsCons(m, m1, Write(b, from, values[0]), WriteAll(b, from + 1, values[1..]));
      CopiedCompose(m, m1, Exec(m1, WriteAll(b, from + 1, values[1..])), b, from, values);
    }
  }

  lemma FirstWritten(m: Memory, b: nat, from: nat, values: seq<Value>) returns (m1: Memory)
    requires Shape(m) && RangeWritable(m, b, from, |values|) && Copyable(m, b, values) && RefsFit(m, b, from, values)
    requires values != []
    ensures Enabled(m, Write(b, from, values[0])) && m1 == Act(m, Write(b, from, values[0]))
    ensures Shape(m1) && Copied(m, m1, b, from, [values[0]])
  {
    assert Writable(m, b, from);
    assert Copyable(m, b, [values[0]]);
    WriteOneRuns(m, b, from, values[0]);
    m1 := Act(m, Write(b, from, values[0]));
  }

  lemma CopiedCompose(m: Memory, m1: Memory, m2: Memory, b: nat, from: nat, values: seq<Value>)
    requires values != []
    requires Copied(m, m1, b, from, [values[0]]) && Copied(m1, m2, b, from + 1, values[1..])
    ensures Copied(m, m2, b, from, values)
  {
    forall j | 0 <= j < |values| ensures Latest(m2, Cell(b, from + j)) == values[j] {
      if j == 0 {
        SameMessagesSameLatest(m1, m2, Cell(b, from));
        assert Latest(m1, Cell(b, from + 0)) == [values[0]][0];
      } else {
        assert Latest(m2, Cell(b, from + 1 + (j - 1))) == values[1..][j - 1];
      }
    }
  }

  // ---- Copy-on-write: build privately, then publish ----------------------------------------

  /** Allocate, optionally memset, store the count, copy the contents. */
  function Build(b: nat, cells: nat, zeroed: bool, count: nat, contents: seq<Value>): seq<Action> {
    [Alloc(cells)] + WriteAll(b, 0, if zeroed then Zeros(cells) else []) + [SetCount(b, count)] + WriteAll(b, 0, contents)
  }

  /** Memory m' is m with one more buffer, still private to the writer; nothing else changed. */
  ghost predicate Private(m: Memory, m': Memory, cells: nat) {
    && Shape(m')
    && m'.bufs == m.bufs + [Buffer(cells, false, false)]
    && m'.rowCells == m.rowCells && m'.extraCells == m.extraCells
    && (forall l: Loc :: l in m.log ==> Messages(m', l) == Messages(m, l))
  }

  lemma AllocPhase(m: Memory, cells: nat) returns (m1: Memory)
    requires Shape(m)
    ensures Runs(m, [Alloc(cells)]) && m1 == Exec(m, [Alloc(cells)])
    ensures Private(m, m1, cells) && |Messages(m1, Count(|m.bufs|))| == 1
  {
    m1 := Act(m, Alloc(cells));
    RunsOne(m, Alloc(cells));
    ActKeepsShape(m, Alloc(cells));
    forall l: Loc {
      AllocEffect(m, cells, l);
    }
  }

  lemma CopyPhase(m: Memory, m1: Memory, cells: nat, values: seq<Value>) returns (m2: Memory)
    requires Shape(m) && Private(m, m1, cells) && |values| <= cells && Copyable(m1, |m.bufs|, values)
    ensures Runs(m1, WriteAll(|m.bufs|, 0, values)) && m2 == Exec(m1, WriteAll(|m.bufs|, 0, values))
    ensures Private(m, m2, cells) && Copied(m1, m2, |m.bufs|, 0, values)
  {
    WriteAllRuns(m1, |m.bufs|, 0, values);
    m2 := Exec(m1, WriteAll(|m.bufs|, 0, values));
    forall l: Loc | l in m.log ensures Messages(m2, l) == Messages(m, l) {
      assert Allocated(m, l);
    }
  }

  lemma SetCountPhase(m: Memory, m2: Memory, cells: nat, n: nat) returns (m3: Memory)
    requires Shape(m) && Private(m, m2, cells) && |Messages(m2, Count(|m.bufs|))| == 1 && Readable(m, n) <= cells
    ensures Runs(m2, [SetCount(|m.bufs|, n)]) && m3 == Exec(m2, [SetCount(|m.bufs|, n)])
    ensures Private(m, m3, cells) && CountNow(m3, |m.bufs|) == n && |Messages(m3, Count(|m.bufs|))| == 2
    ensures forall l: Loc :: l != Count(|m.bufs|) ==> Messages(m3, l) == Messages(m2, l)
  {
    var b := |m.bufs|;
    m3 := Act(m2, SetCount(b, n));
    RunsOne(m2, SetCount(b, n));
    ActKeepsShape(m2, SetCount(b, n));
    StoresAreLegal(m2, SetCount(b, n));
    StoreEffect(m2, SetCount(b, n));
    assert m3.log[Count(b)][1] == Message(Num(n), map[Count(b) := 1]);
    assert !Allocated(m, Count(b));
  }

  /** A private buffer that is ready to be published with the given count and contents. */
  ghost predicate Built(m: Memory, m': Memory, cells: nat, count: nat, contents: seq<Value>) {
    var b := |m.bufs|;
    && Private(m, m', cells)
    && Enabled(m', Publish(b))
    && CountNow(m', b) == count
    && (forall i :: 0 <= i < |contents| ==> Latest(m', Cell(b, i)) == contents[i])
  }

  lemma BuiltAfterPhases(m: Memory, m2: Memory, m3: Memory, m4: Memory, cells: nat, zeros: seq<Value>, count: nat, contents: seq<Value>)
    requires Private(m, m4, cells) && |contents| <= cells
    requires forall i: nat :: i < |zeros| ==> Latest(m2, Cell(|m.bufs|, i)) == Num(0)
    requires CountNow(m3, |m.bufs|) == count && |Messages(m3, Count(|m.bufs|))| == 2
    requires forall l: Loc :: l != Count(|m.bufs|) ==> Messages(m3, l) == Messages(m2, l)
    requires Copied(m3, m4, |m.bufs|, 0, contents) && Garbage !in contents
    requires Readable(m, count) <= |zeros| || Readable(m, count) <= |contents|
    ensures Built(m, m4, cells, count, contents)
  {
    var b := |m.bufs|;
    SameMessagesSameLatest(m3, m4, Count(b));
    forall i: nat | i < Readable(m, count) ensures Latest(m4, Cell(b, i)) != Garbage {
      if i < |contents| {
        assert Latest(m4, Cell(b, 0 + i)) == contents[i];
      } else {
        SameMessagesSameLatest(m2, m3, Cell(b, i));
        SameMessagesSameLatest(m3, m4, Cell(b, i));
      }
    }
    forall i | 0 <= i < |contents| ensures Latest(m4, Cell(b, i)) == contents[i] {
      assert Latest(m4, Cell(b, 0 + i)) == contents[i];
    }
  }

  lemma CopyableLater(m: Memory, m1: Memory, cells: nat, b: nat, values: seq<Value>)
    requires Private(m, m1, cells) && Copyable(m, b, values)
    ensures Copyable(m1, b, values)
  {
  }

  lemma BuildRuns(m: Memory, cells: nat, zeroed: bool, count: nat, contents: seq<Value>)
    requires Shape(m) && Copyable(m, |m.bufs|, contents)
    requires |contents| <= cells && Readable(m, count) <= if zeroed then cells else |contents|
    ensures Runs(m, Build(|m.bufs|, cells, zeroed, count, contents))
    ensures Built(m, Exec(m, Build(|m.bufs|, cells, zeroed, count, contents)), cells, count, contents)
  {
    hide Shape, Runs, Exec, Built;
    var b, zeros := |m.bufs|, if zeroed then Zeros(cells) else [];
    var m1 := AllocPhase(m, cells);
    var m2 := CopyPhase(m, m1, cells, zeros);
    RunsAppend(m, [Alloc(cells)], WriteAll(b, 0, zeros));
    var m3 := SetCountPhase(m, m2, cells, count);
    RunsAppend(m, [Alloc(cells)] + WriteAll(b, 0, zeros), [SetCount(b, count)]);
    CopyableLater(m, m3, cells, b, contents);
    var m4 := CopyPhase(m, m3, cells, contents);
    RunsAppend(m, [Alloc(cells)] + WriteAll(b, 0, zeros) + [SetCount(b, count)], WriteAll(b, 0, contents));
    forall i: nat | i < |zeros| ensures Latest(m2, Cell(b, i)) == Num(0) {
      assert Latest(m2, Cell(b, 0 + i)) == zeros[i];
    }
    BuiltAfterPhases(m, m2, m3, m4, cells, zeros, count, contents);
  }

  /** Copy-on-write: build, then make the new buffer current with one release store. */
  function Replace(b: nat, cells: nat, zeroed: bool, count: nat, contents: seq<Value>): seq<Action> {
    Build(b, cells, zeroed, count, contents) + [Publish(b)]
  }

  /** The current buffer has this count and these cells. */
  ghost predicate Holds(m: Memory, b: nat, cells: nat, count: nat, contents: seq<Value>) {
    && Shape(m) && IsCurrent(m, b) && b < |m.bufs| && m.bufs[b].cells == cells
    && CountNow(m, b) == count
    && (forall i :: 0 <= i < |contents| ==> Latest(m, Cell(b, i)) == contents[i])
  }

  /** A new current buffer; all that was there before is as it was. */
  ghost predicate Replaced(m: Memory, m': Memory, cells: nat, count: nat, contents: seq<Value>) {
    && Holds(m', |m.bufs|, cells, count, contents) && |Messages(m', Count(|m.bufs|))| == 2
    && m'.bufs == m.bufs + [Buffer(cells, true, false)] && m'.rowCells == m.rowCells && m'.extraCells == m.extraCells
    && (forall l: Loc :: l in m.log && l != Slot ==> Messages(m', l) == Messages(m, l) && Latest(m', l) == Latest(m, l))
  }

  lemma ReplaceRuns(m: Memory, cells: nat, zeroed: bool, count: nat, contents: seq<Value>)
    requires Shape(m) && Copyable(m, |m.bufs|, contents)
    requires |contents| <= cells && Readable(m, count) <= if zeroed then cells else |contents|
    ensures Runs(m, Replace(|m.bufs|, cells, zeroed, count, contents))
    ensures Replaced(m, Exec(m, Replace(|m.bufs|, cells, zeroed, count, contents)), cells, count, contents)
  {
    var b, build := |m.bufs|, Build(|m.bufs|, cells, zeroed, count, contents);
    BuildRuns(m, cells, zeroed, count, contents);
    var m1 := Exec(m, build);
    RunsOne(m1, Publish(b));
    RunsAppend(m, build, [Publish(b)]);
    PublishHolds(m, m1, cells, count, contents);
  }

  lemma PublishEffect(m: Memory, b: nat)
    requires Shape(m) && Enabled(m, Publish(b))
    ensures var m' := Act(m, Publish(b));
            && Shape(m') && m'.bufs == m.bufs[b := m.bufs[b].(published := true)]
            && m'.rowCells == m.rowCells && m'.extraCells == m.extraCells && Latest(m', Slot) == Ref(b)
            && forall l: Loc :: l != Slot ==> Messages(m', l) == Messages(m, l) && Latest(m', l) == Latest(m, l)
  {
    var a := Publish(b);
    ActKeepsShape(m, a);
    StoresAreLegal(m, a);
    StoreLatest(m, a);
  }

  lemma PublishHolds(m: Memory, m1: Memory, cells: nat, count: nat, contents: seq<Value>)
    requires Built(m, m1, cells, count, contents)
    ensures Replaced(m, Act(m1, Publish(|m.bufs|)), cells, count, contents)
  {
    PublishEffect(m1, |m.bufs|);
    assert |Messages(m1, Count(|m.bufs|))| == 2;
    forall l: Loc | l in m.log ensures Latest(m1, l) == Latest(m, l) {
      SameMessagesSameLatest(m, m1, l);
    }
    hide Shape, Act, Enabled, Messages, Latest;
  }

  // ---- The calls ---------------------------------------------------------------------------

  /** What the counted rows of the current buffer hold. */
  ghost function CurrentCells(m: Memory, n: nat): (values: seq<Value>)
    ensures |values| == n
    ensures Latest(m, Slot).Ref? ==> forall i :: 0 <= i < n ==> values[i] == Latest(m, Cell(Latest(m, Slot).buf, i))
  {
    seq(n, (i: nat) => if Latest(m, Slot).Ref? then Latest(m, Cell(Latest(m, Slot).buf, i)) else Num(0))
  }

  lemma CurrentCellsCopyable(m: Memory, n: nat)
    requires Shape(m) && Latest(m, Slot).Ref? && n <= Readable(m, CountNow(m, Latest(m, Slot).buf))
    ensures Copyable(m, |m.bufs|, CurrentCells(m, n))
  {
    CurrentIsPublished(m);
    var b := Latest(m, Slot).buf;
    forall i | 0 <= i < n ensures Copyable(m, |m.bufs|, [CurrentCells(m, n)[i]]) {
      var l := Cell(b, i);
      assert ValueOk(m, l, |Messages(m, l)| - 1);
    }
    assert forall i :: 0 <= i < n ==> [CurrentCells(m, n)[i]][0] == CurrentCells(m, n)[i];
  }

  function Bytes(s: seq<nat>): (values: seq<Value>)
    ensures |values| == |s| && forall i :: 0 <= i < |s| ==> values[i] == Num(s[i])
  {
    seq(|s|, i requires 0 <= i < |s| => Num(s[i]))
  }

  /** Setting a non-empty string: header, bytes and NUL into an uncleared buffer, then publish. */
  lemma StringSetRuns(m: Memory, str: seq<nat>)
    requires Shape(m) && m.rowCells == 1 && m.extraCells == 1
    ensures var program := Replace(|m.bufs|, |str| + 1, false, |str|, Bytes(str + [0]));
            Runs(m, program) && Replaced(m, Exec(m, program), |str| + 1, |str|, Bytes(str + [0]))
  {
    ReplaceRuns(m, |str| + 1, false, |str|, Bytes(str + [0]));
  }

  /** Growing an array or an object, explicitly or to make room: clear, header, copy, publish. */
  lemma GrowRuns(m: Memory, rows: nat)
    requires Shape(m) && m.extraCells == 0 && Latest(m, Slot).Ref?
    requires CountNow(m, Latest(m, Slot).buf) <= rows
    ensures var n := CountNow(m, Latest(m, Slot).buf);
            var contents := CurrentCells(m, Readable(m, n));
            var program := Replace(|m.bufs|, rows * m.rowCells, true, n, contents);
            Runs(m, program) && Replaced(m, Exec(m, program), rows * m.rowCells, n, contents)
  {
    var n := CountNow(m, Latest(m, Slot).buf);
    ReadableMonotone(m, n, rows);
    CurrentCellsCopyable(m, Readable(m, n));
    ReplaceRuns(m, rows * m.rowCells, true, n, CurrentCells(m, Readable(m, n)));
  }

  /** The first buffer of an array or object is cleared and empty. */
  lemma FirstBufferRuns(m: Memory, rows: nat)
    requires Shape(m) && m.extraCells == 0
    ensures var program := Replace(|m.bufs|, rows * m.rowCells, true, 0, []);
            Runs(m, program) && Replaced(m, Exec(m, program), rows * m.rowCells, 0, [])
  {
    ReadableMonotone(m, 0, rows);
    ReplaceRuns(m, rows * m.rowCells, true, 0, []);
  }

  /** Removing row i: every cell of the tight new buffer is copied, so not clearing it is safe. */
  lemma RemoveRuns(m: Memory, i: nat)
    requires Shape(m) && m.extraCells == 0 && Latest(m, Slot).Ref?
    requires i < CountNow(m, Latest(m, Slot).buf)
    ensures var n := CountNow(m, Latest(m, Slot).buf);
            var all, w := CurrentCells(m, Readable(m, n)), m.rowCells;
            i * w <= (i + 1) * w <= |all| &&
            var contents := all[..i * w] + all[(i + 1) * w..];
            var program := Replace(|m.bufs|, (n - 1) * w, false, n - 1, contents);
            Runs(m, program) && Replaced(m, Exec(m, program), (n - 1) * w, n - 1, contents)
  {
    var n, w := CountNow(m, Latest(m, Slot).buf), m.rowCells;
    ReadableMonotone(m, i, i + 1);
    ReadableMonotone(m, i + 1, n);
    var all := CurrentCells(m, Readable(m, n));
    CurrentCellsCopyable(m, Readable(m, n));
    var contents := all[..i * w] + all[(i + 1) * w..];
    assert |contents| == (n - 1) * w;
    CopyableWithout(m, all, i * w, (i + 1) * w);
    ReplaceRuns(m, (n - 1) * w, false, n - 1, contents);
  }

  lemma CopyableWithout(m: Memory, values: seq<Value>, from: nat, to: nat)
    requires Copyable(m, |m.bufs|, values) && from <= to <= |values|
    ensures Copyable(m, |m.bufs|, values[..from] + values[to..])
  {
    var rest := values[..from] + values[to..];
    assert forall j :: 0 <= j < |rest| ==> rest[j] == values[if j < from then j else j + (to - from)];
  }

  // ---- In-place appends: fill the next row, then commit the count --------------------------

  /** The current buffer is b, counts n rows and has room for another at [from, from + w). */
  ghost predicate HasRoom(m: Memory, b: nat, n: nat, from: nat, w: nat) {
    && Shape(m) && IsCurrent(m, b) && b < |m.bufs| && CountNow(m, b) == n
    && Readable(m, n) == from && Readable(m, n + 1) == from + w <= m.bufs[b].cells
  }

  ghost predicate RangeWritten(m: Memory, b: nat, from: nat, to: nat) {
    forall i: nat :: from <= i < to ==> Latest(m, Cell(b, i)) != Garbage
  }

  lemma NextRowIsWritable(m: Memory, b: nat, n: nat, from: nat, w: nat)
    requires HasRoom(m, b, n, from, w)
    ensures !m.bufs[b].sealed && RangeWritable(m, b, from, w)
  {
    CurrentIsPublished(m);
  }

  lemma RoomStays(m: Memory, m': Memory, b: nat, n: nat, from: nat, w: nat)
    requires HasRoom(m, b, n, from, w) && Shape(m') && m'.extraCells == m.extraCells && m'.rowCells == m.rowCells
    requires Messages(m', Slot) == Messages(m, Slot) && Messages(m', Count(b)) == Messages(m, Count(b))
    requires |m.bufs| <= |m'.bufs| && m'.bufs[b].cells == m.bufs[b].cells
    ensures HasRoom(m', b, n, from, w)
    ensures forall i: nat :: Covered(m', b, i) ==> Covered(m, b, i)
  {
    SameMessagesSameLatest(m, m', Slot);
    SameMessagesSameLatest(m, m', Count(b));
    CurrentIsPublished(m);
    CurrentIsPublished(m');
    forall i: nat ensures Covered(m', b, i) ==> Covered(m, b, i) {
      CoveredAsBefore(m, m', b, i);
    }
  }

  lemma CommitRowEnabled(m: Memory, b: nat, n: nat, from: nat, w: nat)
    requires HasRoom(m, b, n, from, w) && RangeWritten(m, b, from, from + w)
    ensures Enabled(m, Commit(n + 1)) && StoredTo(m, Commit(n + 1)) == Count(b)
  {
    CurrentIsPublished(m);
    assert Written(m, b, from);
  }

  /** Nothing but the new row and new buffers differs, and the new row is counted. */
  ghost predicate RowCounted(m: Memory, m': Memory, b: nat, n: nat, from: nat, w: nat) {
    && Shape(m') && m'.rowCells == m.rowCells && m'.extraCells == m.extraCells
    && IsCurrent(m', b) && CountNow(m', b) == n + 1
    && |m.bufs| <= |m'.bufs| && (forall k: nat :: k < |m.bufs| ==> m'.bufs[k] == m.bufs[k])
    && OldCellsKept(m, m', b, from, w)
  }

  ghost predicate OldCellsKept(m: Memory, m': Memory, b: nat, from: nat, w: nat) {
    forall l: Loc :: l in m.log && l.Cell? && !(l.buf == b && from <= l.i < from + w) ==> Messages(m', l) == Messages(m, l)
  }

  lemma OldCellsCompose(m: Memory, m1: Memory, m2: Memory, b: nat, from: nat, w: nat)
    requires OldCellsKept(m, m1, b, from, w) && OldCellsKept(m1, m2, b, from, w) && MemoryOk(m) && MemoryOk(m1)
    requires |m.bufs| <= |m1.bufs| && forall k: nat :: k < |m.bufs| ==> m1.bufs[k].cells == m.bufs[k].cells
    ensures OldCellsKept(m, m2, b, from, w)
  {
    forall l: Loc | l in m.log && l.Cell? && !(l.buf == b && from <= l.i < from + w) ensures Messages(m2, l) == Messages(m, l) {
      assert Allocated(m, l) && Allocated(m1, l);
    }
  }

  lemma CommitRowPhase(m: Memory, b: nat, n: nat, from: nat, w: nat) returns (m1: Memory)
    requires HasRoom(m, b, n, from, w) && RangeWritten(m, b, from, from + w)
    ensures Runs(m, [Commit(n + 1)]) && m1 == Exec(m, [Commit(n + 1)])
    ensures Shape(m1) && IsCurrent(m1, b) && CountNow(m1, b) == n + 1
    ensures m1.rowCells == m.rowCells && m1.extraCells == m.extraCells && m1.bufs == m.bufs
    ensures forall l: Loc :: l.Cell? ==> Messages(m1, l) == Messages(m, l) && Latest(m1, l) == Latest(m, l)
  {
    m1 := Act(m, Commit(n + 1));
    CommitRowEnabled(m, b, n, from, w);
    RunsOne(m, Commit(n + 1));
    ActKeepsShape(m, Commit(n + 1));
    StoresAreLegal(m, Commit(n + 1));
    StoreLatest(m, Commit(n + 1));
  }

  lemma WriteRowPhase(m: Memory, b: nat, n: nat, from: nat, w: nat, values: seq<Value>) returns (m1: Memory)
    requires HasRoom(m, b, n, from, w) && |values| <= w && Copyable(m, b, values) && RefsFit(m, b, from, values)
    ensures Runs(m, WriteAll(b, from, values)) && m1 == Exec(m, WriteAll(b, from, values))
    ensures HasRoom(m1, b, n, from, w) && Copied(m, m1, b, from, values)
    ensures RangeWritten(m1, b, from, from + |values|) && OldCellsKept(m, m1, b, from, w)
    ensures forall i: nat :: Covered(m1, b, i) ==> Covered(m, b, i)
  {
    NextRowIsWritable(m, b, n, from, w);
    WriteAllRuns(m, b, from, values);
    m1 := Exec(m, WriteAll(b, from, values));
    RoomStays(m, m1, b, n, from, w);
    forall i: nat | from <= i < from + |values| ensures Latest(m1, Cell(b, i)) != Garbage {
      assert Latest(m1, Cell(b, from + (i - from))) == values[i - from];
    }
  }

  // ---- Arrays ------------------------------------------------------------------------------

  /** Array prepare, fill and commit. */
  function AppendRow(b: nat, n: nat, from: nat, row: seq<Value>): seq<Action> {
    WriteAll(b, from, Zeros(|row|)) + WriteAll(b, from, row) + [Commit(n + 1)]
  }

  lemma CopyableInPlace(m: Memory, m1: Memory, b: nat, values: seq<Value>)
    requires m1.bufs == m.bufs && Copyable(m, b, values)
    ensures Copyable(m1, b, values)
  {
  }

  lemma AppendRowRuns(m: Memory, b: nat, n: nat, from: nat, row: seq<Value>)
    requires HasRoom(m, b, n, from, |row|) && Copyable(m, b, row) && RefsFit(m, b, from, row)
    ensures Runs(m, AppendRow(b, n, from, row))
    ensures var m' := Exec(m, AppendRow(b, n, from, row));
            && RowCounted(m, m', b, n, from, |row|)
            && (forall j :: 0 <= j < |row| ==> Latest(m', Cell(b, from + j)) == row[j])
  {
    var clear, fill := WriteAll(b, from, Zeros(|row|)), WriteAll(b, from, row);
    var m1 := WriteRowPhase(m, b, n, from, |row|, Zeros(|row|));
    CopyableInPlace(m, m1, b, row);
    var m2 := WriteRowPhase(m1, b, n, from, |row|, row);
    RunsAppend(m, clear, fill);
    var m3 := CommitRowPhase(m2, b, n, from, |row|);
    RunsAppend(m, clear + fill, [Commit(n + 1)]);
    OldCellsCompose(m, m1, m2, b, from, |row|);
  }

  // ---- Value blocks ------------------------------------------------------------------------

  /** One store that makes a cell refer to a finished block. */
  lemma LinkPhase(m: Memory, b: nat, i: nat, v: nat) returns (m1: Memory)
    requires Shape(m) && Writable(m, b, i) && !Covered(m, b, i) && v != b && Complete(m, v) && !m.bufs[v].published
    ensures Runs(m, [Write(b, i, Ref(v))]) && m1 == Exec(m, [Write(b, i, Ref(v))])
    ensures Shape(m1) && m1.rowCells == m.rowCells && m1.extraCells == m.extraCells
    ensures m1.bufs == m.bufs[v := m.bufs[v].(sealed := true)]
    ensures Latest(m1, Cell(b, i)) == Ref(v)
    ensures forall l: Loc :: l != Cell(b, i) ==> Messages(m1, l) == Messages(m, l) && Latest(m1, l) == Latest(m, l)
  {
    var a := Write(b, i, Ref(v));
    m1 := Act(m, a);
    assert Enabled(m, a);
    RunsOne(m, a);
    ActKeepsShape(m, a);
    StoresAreLegal(m, a);
    StoreLatest(m, a);
  }

  /** Allocate a block and fill it completely. */
  function MakeBlock(v: nat, payload: seq<Value>): seq<Action> {
    [Alloc(|payload|)] + WriteAll(v, 0, payload)
  }

  /** A finished block that nothing refers to yet; nothing else changed. */
  ghost predicate BlockMade(m: Memory, m': Memory, payload: seq<Value>) {
    && Private(m, m', |payload|) && Complete(m', |m.bufs|)
    && forall i :: 0 <= i < |payload| ==> Latest(m', Cell(|m.bufs|, i)) == payload[i]
  }

  lemma MakeBlockPhase(m: Memory, payload: seq<Value>) returns (m1: Memory)
    requires Shape(m) && Copyable(m, |m.bufs|, payload)
    ensures Runs(m, MakeBlock(|m.bufs|, payload)) && m1 == Exec(m, MakeBlock(|m.bufs|, payload))
    ensures BlockMade(m, m1, payload)
  {
    var v := |m.bufs|;
    var m0 := AllocPhase(m, |payload|);
    CopyableLater(m, m0, |payload|, v, payload);
    m1 := CopyPhase(m, m0, |payload|, payload);
    RunsAppend(m, [Alloc(|payload|)], WriteAll(v, 0, payload));
    forall i: nat | i < |payload| ensures Latest(m1, Cell(v, i)) == payload[i] {
      assert Latest(m1, Cell(v, 0 + i)) == payload[i];
    }
  }

  /** The value block and text buffer of a new string field: the cleared block, the text with its
      length and NUL, and the block's pointer to it. */
  function MakeText(v: nat, text: seq<Value>): seq<Action> {
    MakeBlock(v, Zeros(2)) + MakeBlock(v + 1, text) + [Write(v, 1, Ref(v + 1))]
  }

  /** A value block that refers to its text. */
  ghost predicate TextMade(m: Memory, m': Memory, text: seq<Value>) {
    var v := |m.bufs|;
    && Shape(m') && m'.rowCells == m.rowCells && m'.extraCells == m.extraCells
    && m'.bufs == m.bufs + [Buffer(2, false, false), Buffer(|text|, false, true)]
    && Complete(m', v) && Latest(m', Cell(v, 0)) == Num(0) && Latest(m', Cell(v, 1)) == Ref(v + 1)
    && (forall j :: 0 <= j < |text| ==> Latest(m', Cell(v + 1, j)) == text[j])
    && (forall l: Loc :: l in m.log ==> Messages(m', l) == Messages(m, l))
  }

  lemma TwoBlocks(m: Memory, m1: Memory, m2: Memory, text: seq<Value>)
    requires Shape(m) && BlockMade(m, m1, Zeros(2)) && BlockMade(m1, m2, text)
    ensures var v := |m.bufs|;
            && Writable(m2, v, 1) && !Covered(m2, v, 1) && Complete(m2, v)
            && m2.bufs == m.bufs + [Buffer(2, false, false), Buffer(|text|, false, false)]
            && Latest(m2, Cell(v, 0)) == Num(0)
            && (forall j :: 0 <= j < |text| ==> Latest(m2, Cell(v + 1, j)) == text[j])
            && (forall l: Loc :: l in m.log ==> Messages(m2, l) == Messages(m, l))
  {
    var v := |m.bufs|;
    forall i: nat | i < 2 ensures Latest(m2, Cell(v, i)) == Zeros(2)[i] {
      assert Allocated(m1, Cell(v, i));
      SameMessagesSameLatest(m1, m2, Cell(v, i));
    }
    forall l: Loc | l in m.log ensures Messages(m2, l) == Messages(m, l) {
      assert Allocated(m, l) && Allocated(m1, l);
    }
  }

  lemma MakeTextPhase(m: Memory, text: seq<Value>) returns (m': Memory)
    requires Shape(m) && forall i :: 0 <= i < |text| ==> text[i].Num?
    ensures Runs(m, MakeText(|m.bufs|, text)) && m' == Exec(m, MakeText(|m.bufs|, text))
    ensures TextMade(m, m', text)
  {
    hide Shape, Runs, Exec, MakeBlock, Latest, Covered, Writable, Complete;
    var v := |m.bufs|;
    var m1 := MakeBlockPhase(m, Zeros(2));
    assert |m1.bufs| == v + 1;
    var m2 := MakeBlockPhase(m1, text);
    RunsAppend(m, MakeBlock(v, Zeros(2)), MakeBlock(v + 1, text));
    TwoBlocks(m, m1, m2, text);
    m' := LinkPhase(m2, v, 1, v + 1);
    RunsAppend(m, MakeBlock(v, Zeros(2)) + MakeBlock(v + 1, text), [Write(v, 1, Ref(v + 1))]);
    TextIsMade(m, m2, m', text);
  }

  lemma TextIsMade(m: Memory, m2: Memory, m': Memory, text: seq<Value>)
    requires Shape(m) && Shape(m')
    requires m'.rowCells == m.rowCells && m'.extraCells == m.extraCells
    requires var v := |m.bufs|;
      && Complete(m2, v) && m2.bufs == m.bufs + [Buffer(2, false, false), Buffer(|text|, false, false)]
      && m'.bufs == m2.bufs[v + 1 := m2.bufs[v + 1].(sealed := true)]
      && Latest(m2, Cell(v, 0)) == Num(0) && Latest(m', Cell(v, 1)) == Ref(v + 1)
      && (forall j :: 0 <= j < |text| ==> Latest(m2, Cell(v + 1, j)) == text[j])
      && (forall l: Loc :: l in m.log ==> Messages(m2, l) == Messages(m, l))
      && (forall l: Loc :: l != Cell(v, 1) ==> Messages(m', l) == Messages(m2, l) && Latest(m', l) == Latest(m2, l))
    ensures TextMade(m, m', text)
  {
    forall l: Loc | l in m.log ensures Messages(m', l) == Messages(m, l) {
      assert Allocated(m, l);
    }
    hide Shape, Messages, Latest;
  }

  // ---- Objects -----------------------------------------------------------------------------

  /** The last two stores of an object add: install the value block, commit the count. */
  function Install(b: nat, n: nat, from: nat, v: nat): seq<Action> {
    [Write(b, from + 3, Ref(v))] + [Commit(n + 1)]
  }

  lemma InstallPhase(m: Memory, b: nat, n: nat, from: nat, v: nat) returns (m': Memory)
    requires HasRoom(m, b, n, from, 4) && v != b && Complete(m, v) && !m.bufs[v].published
    requires RangeWritten(m, b, from, from + 3) && !Covered(m, b, from + 3)
    ensures Runs(m, Install(b, n, from, v)) && m' == Exec(m, Install(b, n, from, v))
    ensures Shape(m') && IsCurrent(m', b) && CountNow(m', b) == n + 1
    ensures m'.rowCells == m.rowCells && m'.extraCells == m.extraCells
    ensures m'.bufs == m.bufs[v := m.bufs[v].(sealed := true)]
    ensures Latest(m', Cell(b, from + 3)) == Ref(v)
    ensures forall l: Loc :: l.Cell? && l != Cell(b, from + 3) ==>
      Messages(m', l) == Messages(m, l) && Latest(m', l) == Latest(m, l)
  {
    NextRowIsWritable(m, b, n, from, 4);
    CurrentIsPublished(m);
    var m1 := LinkPhase(m, b, from + 3, v);
    RoomStays(m, m1, b, n, from, 4);
    forall i: nat | from <= i < from + 4 ensures Latest(m1, Cell(b, i)) != Garbage {
      assert i < from + 3 ==> Latest(m1, Cell(b, i)) == Latest(m, Cell(b, i));
    }
    m' := CommitRowPhase(m1, b, n, from, 4);
    RunsAppend(m, [Write(b, from + 3, Ref(v))], [Commit(n + 1)]);
  }

  /** The new row of b holds `head` and a reference to block v, which is finished and sealed. */
  ghost predicate EntryAdded(m: Memory, m': Memory, b: nat, n: nat, from: nat, head: seq<Value>, v: nat, cells: nat) {
    && RowCounted(m, m', b, n, from, 4)
    && (forall j :: 0 <= j < |head| ==> Latest(m', Cell(b, from + j)) == head[j])
    && Latest(m', Cell(b, from + 3)) == Ref(v)
    && v < |m'.bufs| && m'.bufs[v] == Buffer(cells, false, true)
  }

  /** From the head of the row, through the making of its block, to the commit. */
  lemma EntryIsAdded(m: Memory, m1: Memory, m2: Memory, b: nat, n: nat, from: nat, head: seq<Value>, v: nat)
    returns (m3: Memory)
    requires HasRoom(m, b, n, from, 4) && |head| == 3 && v == |m.bufs| && !Covered(m, b, from + 3)
    requires HasRoom(m1, b, n, from, 4) && Copied(m, m1, b, from, head) && OldCellsKept(m, m1, b, from, 4)
    requires forall i: nat :: Covered(m1, b, i) ==> Covered(m, b, i)
    requires Shape(m2) && m2.rowCells == m1.rowCells && m2.extraCells == m1.extraCells
    requires m1.bufs < m2.bufs && Complete(m2, v) && !m2.bufs[v].published && !m2.bufs[v].sealed && Garbage !in head
    requires forall l: Loc :: l in m1.log ==> Messages(m2, l) == Messages(m1, l)
    ensures Runs(m2, Install(b, n, from, v)) && m3 == Exec(m2, Install(b, n, from, v))
    ensures EntryAdded(m, m3, b, n, from, head, v, m2.bufs[v].cells)
    ensures m3.bufs == m2.bufs[v := m2.bufs[v].(sealed := true)]
    ensures forall l: Loc :: l.Cell? && l.buf >= v ==> Latest(m3, l) == Latest(m2, l)
  {
    hide Shape, HasRoom, OldCellsKept, Covered, Latest, Install, Runs, Exec, RangeWritten;
    RowReady(m, m1, m2, b, n, from, head);
    m3 := InstallPhase(m2, b, n, from, v);
    forall j | 0 <= j < 3 ensures Latest(m3, Cell(b, from + j)) == head[j] {
      assert Latest(m2, Cell(b, from + j)) == head[j];
    }
    KeptByAll(m, m1, m2, m3, b, n, from);
  }

  lemma RowReady(m: Memory, m1: Memory, m2: Memory, b: nat, n: nat, from: nat, head: seq<Value>)
    requires HasRoom(m, b, n, from, 4) && |head| == 3 && !Covered(m, b, from + 3) && Garbage !in head
    requires HasRoom(m1, b, n, from, 4) && Copied(m, m1, b, from, head)
    requires forall i: nat :: Covered(m1, b, i) ==> Covered(m, b, i)
    requires Shape(m2) && m2.rowCells == m1.rowCells && m2.extraCells == m1.extraCells && m1.bufs < m2.bufs
    requires forall l: Loc :: l in m1.log ==> Messages(m2, l) == Messages(m1, l)
    ensures b < |m.bufs| && HasRoom(m2, b, n, from, 4) && !Covered(m2, b, from + 3) && RangeWritten(m2, b, from, from + 3)
    ensures forall j :: 0 <= j < 3 ==> Latest(m2, Cell(b, from + j)) == head[j]
  {
    assert Allocated(m1, Slot) && Allocated(m1, Count(b));
    RoomStays(m1, m2, b, n, from, 4);
    forall j | 0 <= j < 3 ensures Latest(m2, Cell(b, from + j)) == head[j] {
      assert Allocated(m1, Cell(b, from + j));
      SameMessagesSameLatest(m1, m2, Cell(b, from + j));
    }
    forall i: nat | from <= i < from + 3 ensures Latest(m2, Cell(b, i)) != Garbage {
      assert Latest(m2, Cell(b, from + (i - from))) == head[i - from];
    }
  }

  lemma KeptByAll(m: Memory, m1: Memory, m2: Memory, m3: Memory, b: nat, n: nat, from: nat)
    requires HasRoom(m, b, n, from, 4) && HasRoom(m1, b, n, from, 4) && OldCellsKept(m, m1, b, from, 4) && m1.bufs == m.bufs
    requires forall l: Loc :: l in m1.log ==> Messages(m2, l) == Messages(m1, l)
    requires forall l: Loc :: l.Cell? && l != Cell(b, from + 3) ==> Messages(m3, l) == Messages(m2, l)
    ensures OldCellsKept(m, m3, b, from, 4)
  {
    forall l: Loc | l in m.log && l.Cell? && !(l.buf == b && from <= l.i < from + 4) ensures Messages(m3, l) == Messages(m, l) {
      assert Allocated(m, l) && Allocated(m1, l);
    }
  }

  /** Adding a field with a scalar value, or with a nested object's zeroed slot: fill the entry, fill a
      fresh value block, install, commit. */
  function AddScalar(b: nat, n: nat, from: nat, v: nat, head: seq<Value>, payload: seq<Value>): seq<Action> {
    WriteAll(b, from, head) + MakeBlock(v, payload) + Install(b, n, from, v)
  }

  lemma AddScalarRuns(m: Memory, b: nat, n: nat, from: nat, head: seq<Value>, payload: seq<Value>)
    requires HasRoom(m, b, n, from, 4) && |head| == 3 && !Covered(m, b, from + 3)
    requires Numbers(head) && Copyable(m, |m.bufs|, payload)
    ensures Runs(m, AddScalar(b, n, from, |m.bufs|, head, payload))
    ensures var m', v := Exec(m, AddScalar(b, n, from, |m.bufs|, head, payload)), |m.bufs|;
            && EntryAdded(m, m', b, n, from, head, v, |payload|)
            && (forall j :: 0 <= j < |payload| ==> Latest(m', Cell(v, j)) == payload[j])
  {
    var v := |m.bufs|;
    var m1 := WriteRowPhase(m, b, n, from, 4, head);
    CopyableInPlace(m, m1, v, payload);
    var m2 := MakeBlockPhase(m1, payload);
    RunsAppend(m, WriteAll(b, from, head), MakeBlock(v, payload));
    var m3 := EntryIsAdded(m, m1, m2, b, n, from, head, v);
    RunsAppend(m, WriteAll(b, from, head) + MakeBlock(v, payload), Install(b, n, from, v));
  }

  predicate Numbers(values: seq<Value>) {
    forall i :: 0 <= i < |values| ==> values[i].Num?
  }

  /** Adding a field with a string value. */
  function AddString(b: nat, n: nat, from: nat, v: nat, head: seq<Value>, text: seq<Value>): seq<Action> {
    WriteAll(b, from, head) + MakeText(v, text) + Install(b, n, from, v)
  }

  lemma AddStringRuns(m: Memory, b: nat, n: nat, from: nat, head: seq<Value>, text: seq<Value>)
    requires HasRoom(m, b, n, from, 4) && |head| == 3 && !Covered(m, b, from + 3)
    requires Numbers(head) && Numbers(text)
    ensures Runs(m, AddString(b, n, from, |m.bufs|, head, text))
    ensures var m', v := Exec(m, AddString(b, n, from, |m.bufs|, head, text)), |m.bufs|;
            && EntryAdded(m, m', b, n, from, head, v, 2)
            && Latest(m', Cell(v, 0)) == Num(0) && Latest(m', Cell(v, 1)) == Ref(v + 1)
            && v + 1 < |m'.bufs| && m'.bufs[v + 1] == Buffer(|text|, false, true)
            && (forall j :: 0 <= j < |text| ==> Latest(m', Cell(v + 1, j)) == text[j])
  {
    hide Shape, HasRoom, OldCellsKept, RowCounted, Covered, Latest, MakeText, WriteAll, Install, Runs, Exec;
    var v := |m.bufs|;
    var m1 := WriteRowPhase(m, b, n, from, 4, head);
    var m2 := MakeTextPhase(m1, text);
    RunsAppend(m, WriteAll(b, from, head), MakeText(v, text));
    var m3 := EntryIsAdded(m, m1, m2, b, n, from, head, v);
    RunsAppend(m, WriteAll(b, from, head) + MakeText(v, text), Install(b, n, from, v));
  }
}
