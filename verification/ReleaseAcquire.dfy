/**
 The publication protocol over a release/acquire memory.

 Every location holds the list of messages written to it; a message carries the view its write
 releases, a view being a timestamp per location. A load may take any message not older than the
 thread's view of that location, so stale values are possible wherever the protocol does not exclude
 them. See sections 6.9.2.1 [intro.races] and 31.4 [atomics.order] of C++20.

 Buffers have a count in their header and cells behind it. One model covers the three types:
   string   one byte per cell; the count is the length, and the terminating NUL is readable too
   array    the bytes of an element are the cells of a row; the count is the size. An element that is a
            slot again has a pointer cell of its own, stored and loaded like `Slot`
   object   the parts of an entry are the cells of a row, the last part refers to a value block
 `rowCells` is the number of cells per row and `extraCells` those readable beyond the counted rows.
 */
module ReleaseAcquire {

  datatype Loc = Slot | Count(buf: nat) | Cell(buf: nat, i: nat)

  /** Garbage is what a fresh allocation contains. Num(0) in the slot is the null pointer. */
  datatype Value = Garbage | Num(n: nat) | Ref(buf: nat)

  type View = map<Loc, nat>

  datatype Message = Message(value: Value, view: View)

  /** `published`: the slot has pointed here. `sealed`: some cell refers here; nothing is added any more, and
      only payloads are ever overwritten. */
  datatype Buffer = Buffer(cells: nat, published: bool, sealed: bool)

  datatype Reader =
    | Idle
    | Acquired(buf: nat)                  // loaded the slot
    | Counted(buf: nat, count: nat)       // and then the count
    | Following(block: nat)               // and then a reference found in a counted row

  datatype Thread = Thread(pc: Reader, view: View)

  /** Memory and what the writer knows of it. */
  datatype Memory = Memory(
    rowCells: nat,
    extraCells: nat,
    log: map<Loc, seq<Message>>,            // every message ever written, oldest first
    bufs: seq<Buffer>,
    writer: View,
    rewritten: set<Loc>)                    // a record: cells stored to when readers could already reach them

  datatype State = State(
    memory: Memory,
    readers: map<nat, Thread>,
    touched: set<Loc>)                    // locations some reader has read non-atomically

  datatype Action =
    | Alloc(cells: nat)
    | SetCount(buf: nat, n: nat)          // relaxed store, before publication
    | Write(buf: nat, i: nat, value: Value)   // plain store
    | Publish(buf: nat)                   // release store of the slot
    | PublishNull
    | Commit(n: nat)                      // release store of the current buffer's count
    | Clear                               // release store of 0 to it
    | Overwrite(buf: nat, i: nat, n: nat) // plain store of a new payload to a finished block

  datatype ReadAction =
    | LoadSlot(ts: nat)                   // acquire
    | LoadCount(ts: nat)                  // acquire
    | ReadCell(i: nat, ts: nat)           // plain

  // ---- Views -------------------------------------------------------------------------------

  function Seen(v: View, l: Loc): nat {
    if l in v then v[l] else 0
  }

  function Join(v: View, w: View): View {
    map l | l in v.Keys + w.Keys :: if Seen(v, l) >= Seen(w, l) then Seen(v, l) else Seen(w, l)
  }

  function Messages(m: Memory, l: Loc): seq<Message> {
    if l in m.log then m.log[l] else []
  }

  /** The latest value of a location. */
  function Latest(m: Memory, l: Loc): Value {
    if l in m.log && m.log[l] != [] then m.log[l][|m.log[l]| - 1].value else Garbage
  }

  /** The view has caught up with every write to the location. */
  predicate UpToDate(m: Memory, v: View, l: Loc) {
    l in m.log && Seen(v, l) + 1 == |m.log[l]|
  }

  /** How many cells a reader may touch that has seen count `n`. */
  function Readable(m: Memory, n: nat): nat {
    n * m.rowCells + m.extraCells
  }

  /** The count the header holds now, and the one it was published with. */
  function CountNow(m: Memory, b: nat): nat {
    if Latest(m, Count(b)).Num? then Latest(m, Count(b)).n else 0
  }

  function CountAt(m: Memory, b: nat, ts: nat): nat {
    var ms := Messages(m, Count(b));
    if ts < |ms| && ms[ts].value.Num? then ms[ts].value.n else 0
  }

  // ---- Writer ------------------------------------------------------------------------------

  function Store(m: Memory, l: Loc, value: Value, release: bool): Memory {
    var ts := |Messages(m, l)|;
    var view := if release then m.writer[l := ts] else map[l := ts];
    m.(log := m.log[l := Messages(m, l) + [Message(value, view)]], writer := m.writer[l := ts])
  }

  /** Every cell has been written. */
  ghost predicate Complete(m: Memory, b: nat) {
    b < |m.bufs| && forall i: nat :: i < m.bufs[b].cells ==> Latest(m, Cell(b, i)) != Garbage
  }

  ghost predicate Written(m: Memory, b: nat, n: nat) {
    forall i: nat :: i < n ==> Latest(m, Cell(b, i)) != Garbage
  }

  predicate IsCurrent(m: Memory, b: nat) {
    Latest(m, Slot) == Ref(b)
  }

  /** The cell was readable under some count its published buffer has had. */
  predicate Covered(m: Memory, b: nat, i: nat) {
    && b < |m.bufs| && m.bufs[b].published
    && exists j: nat :: 1 <= j < |Messages(m, Count(b))| && i < Readable(m, CountAt(m, b, j))
  }

  /** Cells readers may reach: rows that were counted, and blocks that are referred to. */
  predicate Reachable(m: Memory, l: Loc) {
    l.Cell? && l.buf < |m.bufs| && (m.bufs[l.buf].sealed || Covered(m, l.buf, l.i))
  }

  /** Cells the writer may still write: those of private buffers, and the current buffer's beyond what
      its count makes readable. */
  predicate Writable(m: Memory, b: nat, i: nat) {
    && b < |m.bufs| && i < m.bufs[b].cells && !m.bufs[b].sealed
    && (m.bufs[b].published ==> IsCurrent(m, b) && Readable(m, CountNow(m, b)) <= i)
  }

  /** The publication discipline: build privately, append beyond the count, never rewrite. A reference
      goes only where no reader has been. */
  ghost predicate Enabled(m: Memory, a: Action) {
    match a
    case Alloc(_) => true
    case SetCount(b, n) =>
      && b < |m.bufs| && !m.bufs[b].published && !m.bufs[b].sealed
      && |Messages(m, Count(b))| == 1 && Readable(m, n) <= m.bufs[b].cells
    case Write(b, i, value) =>
      && Writable(m, b, i)
      && value != Garbage
      && (value.Ref? ==>
            value.buf != b && Complete(m, value.buf) && !m.bufs[value.buf].published && !Covered(m, b, i))
    case Publish(b) =>
      && b < |m.bufs| && !m.bufs[b].published && !m.bufs[b].sealed
      && |Messages(m, Count(b))| == 2 && Written(m, b, Readable(m, CountNow(m, b)))
    case PublishNull => true
    case Commit(n) =>
      && Latest(m, Slot).Ref?
      && var b := Latest(m, Slot).buf;
      && b < |m.bufs| && CountNow(m, b) <= n && Readable(m, n) <= m.bufs[b].cells
      && Written(m, b, Readable(m, n))
    case Clear => false
    case Overwrite(_, _, _) => false
  }

  /** All that the writer does. An array clear makes counted elements writable again, and a set call on an
      existing scalar field stores the new payload into the field's block. */
  ghost predicate Allowed(m: Memory, a: Action) {
    match a
    case Clear => Latest(m, Slot).Ref? && Latest(m, Slot).buf < |m.bufs|
    case Overwrite(b, i, _) =>
      b < |m.bufs| && m.bufs[b].sealed && i < m.bufs[b].cells && Latest(m, Cell(b, i)).Num?
    case _ => Enabled(m, a)
  }

  function Fresh(b: nat, cells: nat): map<Loc, seq<Message>> {
    map[Count(b) := [Message(Garbage, map[])]]
    + map i: nat | i < cells :: Cell(b, i) := [Message(Garbage, map[])]
  }

  function Seal(bufs: seq<Buffer>, value: Value): seq<Buffer> {
    if value.Ref? && value.buf < |bufs| then bufs[value.buf := bufs[value.buf].(sealed := true)] else bufs
  }

  function Marked(m: Memory, l: Loc): set<Loc> {
    if Reachable(m, l) then m.rewritten + {l} else m.rewritten
  }

  function Act(m: Memory, a: Action): Memory {
    match a
    case Alloc(cells) =>
      m.(log := m.log + Fresh(|m.bufs|, cells), bufs := m.bufs + [Buffer(cells, false, false)])
    case SetCount(b, n) => Store(m, Count(b), Num(n), false)
    case Write(b, i, value) =>
      Store(m, Cell(b, i), value, false).(bufs := Seal(m.bufs, value), rewritten := Marked(m, Cell(b, i)))
    case Publish(b) =>
      Store(m, Slot, Ref(b), true).(
        bufs := if b < |m.bufs| then m.bufs[b := m.bufs[b].(published := true)] else m.bufs)
    case PublishNull => Store(m, Slot, Num(0), true)
    case Commit(n) => if Latest(m, Slot).Ref? then Store(m, Count(Latest(m, Slot).buf), Num(n), true) else m
    case Clear => if Latest(m, Slot).Ref? then Store(m, Count(Latest(m, Slot).buf), Num(0), true) else m
    case Overwrite(b, i, n) => Store(m, Cell(b, i), Num(n), false).(rewritten := Marked(m, Cell(b, i)))
  }

  // ---- Readers -----------------------------------------------------------------------------

  function ThreadAt(s: State, r: nat): Thread {
    if r in s.readers then s.readers[r] else Thread(Idle, map[])
  }

  /** The location a read action goes to, given where the reader is. */
  function Target(pc: Reader, a: ReadAction): Loc {
    match a
    case LoadSlot(_) => Slot
    case LoadCount(_) => Count(if pc.Acquired? then pc.buf else 0)
    case ReadCell(i, _) => Cell(if pc.Counted? then pc.buf else if pc.Following? then pc.block else 0, i)
  }

  /** A load may take any message the reader's view does not rule out; cells are read only within what
      the loaded count, or the size of a referenced block, allows. */
  predicate MayRead(m: Memory, t: Thread, a: ReadAction) {
    var l := Target(t.pc, a);
    && l in m.log && Seen(t.view, l) <= a.ts < |m.log[l]|
    && match a
       case LoadSlot(_) => true
       case LoadCount(_) => t.pc.Acquired?
       case ReadCell(i, _) =>
         || (t.pc.Counted? && i < Readable(m, t.pc.count))
         || (t.pc.Following? && t.pc.block < |m.bufs| && i < m.bufs[t.pc.block].cells)
  }

  function AfterRead(pc: Reader, a: ReadAction, value: Value): Reader {
    match a
    case LoadSlot(_) => if value.Ref? then Acquired(value.buf) else Idle
    case LoadCount(_) => if pc.Acquired? && value.Num? then Counted(pc.buf, value.n) else Idle
    case ReadCell(_, _) => if value.Ref? then Following(value.buf) else pc
  }

  /** An acquiring load adopts the view its message releases; a plain read does not. */
  function Read(m: Memory, t: Thread, a: ReadAction): Thread
    requires MayRead(m, t, a)
  {
    var l := Target(t.pc, a);
    var msg := m.log[l][a.ts];
    Thread(AfterRead(t.pc, a, msg.value),
           if a.ReadCell? then t.view[l := a.ts] else Join(t.view[l := a.ts], msg.view))
  }

  // ---- Runs --------------------------------------------------------------------------------

  datatype Step = Writes(action: Action) | Reads(reader: nat, read: ReadAction)

  ghost predicate StepAllowed(s: State, step: Step) {
    match step
    case Writes(a) => Allowed(s.memory, a)
    case Reads(r, a) => MayRead(s.memory, ThreadAt(s, r), a)
  }

  ghost function Next(s: State, step: Step): State
    requires StepAllowed(s, step)
  {
    match step
    case Writes(a) => s.(memory := Act(s.memory, a))
    case Reads(r, a) =>
      var t := ThreadAt(s, r);
      s.(readers := s.readers[r := Read(s.memory, t, a)],
         touched := if a.ReadCell? then s.touched + {Target(t.pc, a)} else s.touched)
  }

  function Initial(rowCells: nat, extraCells: nat): State {
    State(Memory(rowCells, extraCells, map[Slot := [Message(Num(0), map[])]], [], map[], {}), map[], {})
  }

  ghost predicate IsRun(run: seq<State>, steps: seq<Step>) {
    && |run| == |steps| + 1
    && run[0] == Initial(run[0].memory.rowCells, run[0].memory.extraCells)
    && forall i :: 0 <= i < |steps| ==> StepAllowed(run[i], steps[i]) && run[i + 1] == Next(run[i], steps[i])
  }

  /** Nothing was cleared and nothing rewritten in place. */
  ghost predicate Quiet(steps: seq<Step>) {
    forall i :: 0 <= i < |steps| && steps[i].Writes? ==> !steps[i].action.Clear? && !steps[i].action.Overwrite?
  }

  ghost predicate ClearFree(steps: seq<Step>) {
    forall i :: 0 <= i < |steps| && steps[i].Writes? ==> !steps[i].action.Clear?
  }
}
