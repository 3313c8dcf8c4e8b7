/**
 The single-writer/multi-reader growing array. Elements are opaque values; an element slot may be
 written any number of times between prepare and commit. Reserve and prepare build larger buffers
 privately; commit and clear store the size in the current buffer's header.
 */
module ArrayProtocol {
  import opened ArrayBuffers
  import opened Pointers

  datatype Writer = Idle | Reserving(addr: nat) | Growing(addr: nat) | Zeroing | Prepared

  datatype Query = Size | Get(index: nat)

  datatype Answer = Count(n: nat) | NoElement | Element(buf: nat, index: nat)

  datatype Reader = Quiet | HaveBuffer(q: Query, since: nat, buf: nat) | Done(q: Query, since: nat, answer: Answer)

  datatype State = State(now: nat, slot: Ptr, bufs: seq<Buffer>, writer: Writer, readers: map<nat, Reader>)

  const INITIAL: State := State(0, Null, [], Idle, map[])

  datatype Step =
    | Reserve(cap: nat)
    | Prepare
    | WriterStep                 // publish a built buffer, or zero the prepared element
    | Fill(value: int)           // the caller writes the prepared element
    | Commit
    | Clear
    | Invoke(reader: nat, query: Query)
    | ReaderStep(reader: nat)

  function BufferAt(s: State, a: nat): Buffer {
    if a < |s.bufs| then s.bufs[a] else EMPTY
  }

  function Current(s: State): Buffer {
    if s.slot.At? then BufferAt(s, s.slot.addr) else EMPTY
  }

  /** The elements committed so far. */
  function Abs(s: State): seq<int> {
    Current(s).Committed()
  }

  function StoreNext(s: State, value: int): State {
    if s.slot.At? && s.slot.addr < |s.bufs|
    then s.(bufs := s.bufs[s.slot.addr := Stored(Current(s), value)])
    else s
  }

  function StoreSize(s: State, size: nat): State {
    if s.slot.At? && s.slot.addr < |s.bufs| then s.(bufs := s.bufs[s.slot.addr := Current(s).(size := size)]) else s
  }

  function StartPrepare(s: State): State {
    var b := Current(s);
    if b.size >= b.Capacity()
    then s.(bufs := s.bufs + [Enlarged(b, GrownCapacity(b.Capacity()))], writer := Growing(|s.bufs|))
    else s.(writer := Zeroing)
  }

  function WriterNext(s: State): State {
    match s.writer
    case Idle => s
    case Reserving(addr) => s.(slot := At(addr), writer := Idle)
    case Growing(addr) => s.(slot := At(addr), writer := Zeroing)
    case Zeroing => StoreNext(s, 0).(writer := Prepared)
    case Prepared => s
  }

  function ReaderAt(s: State, r: nat): Reader {
    if r in s.readers then s.readers[r] else Quiet
  }

  function Invoked(s: State, q: Query): Reader {
    if s.slot.At? then HaveBuffer(q, s.now, s.slot.addr)
    else Done(q, s.now, if q.Size? then Count(0) else NoElement)
  }

  function ReaderNext(s: State, rd: Reader): Reader {
    match rd
    case Quiet => rd
    case Done(_, _, _) => rd
    case HaveBuffer(q, since, buf) =>
      var size := BufferAt(s, buf).size;
      Done(q, since, if q.Size? then Count(size) else if q.index >= size then NoElement else Element(buf, q.index))
  }

  /** One commit per filled prepare and no reserve in between: the writer's calling convention. */
  predicate Enabled(s: State, step: Step) {
    match step
    case Reserve(_) => s.writer.Idle?
    case Prepare => s.writer.Idle?
    case WriterStep => s.writer.Reserving? || s.writer.Growing? || s.writer.Zeroing?
    case Fill(_) => s.writer.Prepared?
    case Commit => s.writer.Prepared?
    case Clear => s.writer.Idle?
    case Invoke(r, _) => !ReaderAt(s, r).HaveBuffer?
    case ReaderStep(r) => ReaderAt(s, r).HaveBuffer?
  }

  function Effect(s: State, step: Step): State {
    match step
    case Reserve(cap) =>
      if cap <= Current(s).Capacity() then s
      else s.(bufs := s.bufs + [Enlarged(Current(s), cap)], writer := Reserving(|s.bufs|))
    case Prepare => StartPrepare(s)
    case WriterStep => WriterNext(s)
    case Fill(value) => StoreNext(s, value)
    case Commit => StoreSize(s, Current(s).size + 1).(writer := Idle)
    case Clear => StoreSize(s, 0)
    case Invoke(r, q) => s.(readers := s.readers[r := Invoked(s, q)])
    case ReaderStep(r) => s.(readers := s.readers[r := ReaderNext(s, ReaderAt(s, r))])
  }

  function Next(s: State, step: Step): State {
    Effect(s, step).(now := s.now + 1)
  }

  ghost predicate IsRun(run: seq<State>, steps: seq<Step>) {
    && |run| == |steps| + 1
    && run[0] == INITIAL
    && forall i :: 0 <= i < |steps| ==> Enabled(run[i], steps[i]) && run[i + 1] == Next(run[i], steps[i])
  }

  ghost predicate ClearFree(steps: seq<Step>) {
    forall i :: 0 <= i < |steps| ==> !steps[i].Clear?
  }

  // ---- Invariant of single states ----------------------------------------------------------

  ghost predicate Published(s: State, a: nat) {
    a < |s.bufs| && s.writer != Reserving(a) && s.writer != Growing(a)
  }

  ghost predicate Inv(s: State) {
    && (s.slot.At? ==> s.slot.addr < |s.bufs|)
    && (forall a :: 0 <= a < |s.bufs| ==> s.bufs[a].size <= s.bufs[a].Capacity())
    && match s.writer
       case Idle => true
       case Reserving(addr) =>
         addr == |s.bufs| - 1 && s.slot != At(addr) && s.bufs[addr].Committed() == Abs(s)
       case Growing(addr) =>
         addr == |s.bufs| - 1 && s.slot != At(addr) && s.bufs[addr].Committed() == Abs(s)
         && s.bufs[addr].size < s.bufs[addr].Capacity()
       case Zeroing => s.slot.At? && Current(s).size < Current(s).Capacity()
       case Prepared => s.slot.At? && Current(s).size < Current(s).Capacity()
  }

  /** The value a step appends to the committed elements, if any. */
  function Pushed(s: State, step: Step): seq<int> {
    var b := Current(s);
    if step.Commit? && b.size < b.Capacity() then [b.elems[b.size]] else []
  }

  lemma WriterStepKeepsInv(s: State)
    requires Inv(s) && Enabled(s, WriterStep)
    ensures Inv(Next(s, WriterStep)) && Abs(Next(s, WriterStep)) == Abs(s)
  {
  }

  lemma PrepareKeepsInv(s: State)
    requires Inv(s) && Enabled(s, Prepare)
    ensures Inv(Next(s, Prepare)) && Abs(Next(s, Prepare)) == Abs(s)
  {
    var b := Current(s);
    assert Enlarged(b, GrownCapacity(b.Capacity())).Committed() == b.Committed();
  }

  lemma ReaderKeepsInv(s: State, step: Step)
    requires Inv(s) && Enabled(s, step) && (step.Invoke? || step.ReaderStep?)
    ensures Inv(Next(s, step)) && Abs(Next(s, step)) == Abs(s)
  {
  }

  lemma CallerStepKeepsInv(s: State, step: Step)
    requires Inv(s) && Enabled(s, step) && (step.Fill? || step.Commit? || step.Clear? || step.Reserve?)
    ensures Inv(Next(s, step))
    ensures Abs(Next(s, step)) == if step.Clear? then [] else Abs(s) + Pushed(s, step)
  {
    if step.Reserve? && step.cap > Current(s).Capacity() {
      assert Enlarged(Current(s), step.cap).Committed() == Current(s).Committed();
    }
  }

  /** Every step but a commit and a clear leaves the committed elements as they are. */
  lemma StepKeepsInv(s: State, step: Step)
    requires Inv(s) && Enabled(s, step)
    ensures Inv(Next(s, step))
    ensures Abs(Next(s, step)) == if step.Clear? then [] else Abs(s) + Pushed(s, step)
  {
    hide Inv, Abs, Next;
    match step
    case WriterStep => WriterStepKeepsInv(s);
    case Prepare => PrepareKeepsInv(s);
    case Invoke(_, _) => ReaderKeepsInv(s, step);
    case ReaderStep(_) => ReaderKeepsInv(s, step);
    case _ => CallerStepKeepsInv(s, step);
  }

  /** Only the current buffer changes; its committed elements change only under clear. */
  lemma BuffersAreStable(s: State, step: Step, a: nat)
    requires Inv(s) && Enabled(s, step) && a < |s.bufs|
    ensures a < |Next(s, step).bufs|
    ensures s.slot != At(a) ==> Next(s, step).bufs[a] == s.bufs[a]
    ensures Next(s, step).slot != s.slot ==> Next(s, step).bufs == s.bufs
    ensures Next(s, step).bufs[a].Capacity() == s.bufs[a].Capacity()
    ensures !step.Clear? ==> s.bufs[a].Committed() <= Next(s, step).bufs[a].Committed()
  {
  }

  lemma PublishedGrows(s: State, step: Step, a: nat)
    requires Inv(s) && Enabled(s, step)
    ensures Published(s, a) ==> Published(Next(s, step), a)
    ensures Published(Next(s, step), a) ==> Published(s, a) || Next(s, step).slot == At(a)
    ensures s.slot == At(a) ==> Published(s, a)
  {
  }
}
