/**
 The single-writer/multi-reader object protocol as a transition system.

 Buffers and value blocks are never freed or reused while the object lives, so an address is an
 index into a sequence that only grows. The writer's own lookups are single steps: nobody else
 writes what they read. Building a private buffer is one step as well: no reader can reach it.
 Everything a reader can observe changes one store at a time.
 */
module ObjectProtocol {
  import opened EntryBuffers
  import opened OrderedFields
  import opened Pointers

  datatype Writer =
    | Idle
    | Aborted                                                     // type mismatch: the process is gone
    | Overwriting(key: nat, typeId: nat, word: int, idx: nat)
    | Adding(key: nat, typeId: nat, word: int)
    | GrowBuilt(key: nat, typeId: nat, word: int, addr: nat)      // larger buffer, still private
    | Filling(key: nat, typeId: nat, word: int, stage: nat)       // entry at `count`, `stage` parts written
    | RemoveBuilt(key: nat, idx: nat, addr: nat)                  // filtered buffer, still private
    | Emptying(key: nat)

  datatype Query = FieldCount | HasField(key: nat) | TypeOf(key: nat) | Get(key: nat, typeId: nat)

  /** `since` is the number of steps taken before the call's load of the entries pointer. */
  datatype Reader =
    | Quiet
    | HaveBuffer(q: Query, since: nat, buf: nat)
    | Scanning(q: Query, since: nat, buf: nat, count: nat, i: nat)
    | Found(q: Query, since: nat, buf: nat, i: nat)
    | Typed(q: Query, since: nat, buf: nat, i: nat)
    | HaveBlock(q: Query, since: nat, buf: nat, i: nat, val: nat)
    | Done(q: Query, since: nat, answer: int)

  datatype State = State(
    now: nat,                      // steps taken so far
    slot: Ptr,                     // the entries pointer
    bufs: seq<Buffer>,
    blocks: seq<int>,              // one word per value block: a scalar payload or a string's data pointer
    writer: Writer,
    readers: map<nat, Reader>)

  const INITIAL: State := State(0, Null, [], [], Idle, map[])

  datatype Step =
    | BeginSet(key: nat, typeId: nat, word: int)
    | BeginEnsureObject(key: nat)
    | BeginRemove(key: nat)
    | WriterStep
    | Invoke(reader: nat, query: Query)
    | ReaderStep(reader: nat)

  function Current(s: State): Buffer {
    if s.slot.At? && s.slot.addr < |s.bufs| then s.bufs[s.slot.addr] else EMPTY
  }

  function BufferAt(s: State, a: nat): Buffer {
    if a < |s.bufs| then s.bufs[a] else EMPTY
  }

  /** The abstract value of the object in a state. */
  function Abs(s: State): seq<Field<nat, int>> {
    FieldsOf(Current(s), s.blocks)
  }

  /** What each query should return of an abstract value. */
  function Answer(fields: seq<Field<nat, int>>, q: Query): int {
    match q
    case FieldCount => |fields|
    case HasField(key) => if Has(fields, key) then 1 else 0
    case TypeOf(key) => if Has(fields, key) then fields[IndexOf(fields, key)].typeId else 0
    case Get(key, typeId) =>
      if Has(fields, key) && fields[IndexOf(fields, key)].typeId == typeId
      then fields[IndexOf(fields, key)].value else 0
  }

  // ---- Writer ------------------------------------------------------------------------------

  function Lookup(s: State, key: nat): nat {
    if Current(s).count <= Current(s).Capacity() then Find(Current(s), key) else 0
  }

  function StartSet(s: State, key: nat, typeId: nat, word: int): State {
    var i := Lookup(s, key);
    if i < Current(s).count then
      if Current(s).EntryAt(i).typeId != typeId then s.(writer := Aborted)
      else s.(writer := Overwriting(key, typeId, word, i))
    else s.(writer := Adding(key, typeId, word))
  }

  function StartEnsureObject(s: State, key: nat): State {
    var i := Lookup(s, key);
    if i < Current(s).count then
      if Current(s).EntryAt(i).typeId != TYPE_OBJECT then s.(writer := Aborted) else s
    else s.(writer := Adding(key, TYPE_OBJECT, 0))
  }

  function StartRemove(s: State, key: nat): State {
    var b, i := Current(s), Lookup(s, key);
    if i >= b.count || b.count > b.Capacity() then s
    else if b.count == 1 then s.(writer := Emptying(key))
    else s.(bufs := s.bufs + [Filtered(b, i)], writer := RemoveBuilt(key, i, |s.bufs|))
  }

  /** Make room for one more entry: go straight to filling, or build a larger buffer first. */
  function Reserve(s: State, key: nat, typeId: nat, word: int): State {
    var b := Current(s);
    if b.Full() && b.count <= b.Capacity() then
      s.(bufs := s.bufs + [Grown(b)], writer := GrowBuilt(key, typeId, word, |s.bufs|))
    else s.(writer := Filling(key, typeId, word, 0))
  }

  /** One of the four stores that fill the next entry; the last one installs a fresh value block. */
  function FillPart(s: State, w: Writer): State
    requires w.Filling?
  {
    var b := Current(s);
    if !s.slot.At? || s.slot.addr >= |s.bufs| || b.Full() then s else
    var e := b.entries[b.count];
    var e' := if w.stage == 0 then e.(hash := w.key)
              else if w.stage == 1 then e.(typeId := w.typeId)
              else if w.stage == 2 then e.(size := BlockBytes(w.typeId))
              else e.(val := |s.blocks|);
    s.(bufs := s.bufs[s.slot.addr := WithNext(b, e')],
       blocks := if w.stage == 3 then s.blocks + [w.word] else s.blocks,
       writer := w.(stage := w.stage + 1))
  }

  function Commit(s: State): State {
    if !s.slot.At? || s.slot.addr >= |s.bufs| then s else
    var b := Current(s);
    s.(bufs := s.bufs[s.slot.addr := b.(count := b.count + 1)], writer := Idle)
  }

  function WriterNext(s: State): State {
    match s.writer
    case Idle => s
    case Aborted => s
    case Overwriting(_, _, word, idx) =>
      var at := Current(s).EntryAt(idx).val;
      s.(blocks := if at < |s.blocks| then s.blocks[at := word] else s.blocks, writer := Idle)
    case Adding(key, typeId, word) => Reserve(s, key, typeId, word)
    case GrowBuilt(key, typeId, word, addr) => s.(slot := At(addr), writer := Filling(key, typeId, word, 0))
    case Filling(_, _, _, stage) => if stage < 4 then FillPart(s, s.writer) else Commit(s)
    case RemoveBuilt(_, _, addr) => s.(slot := At(addr), writer := Idle)
    case Emptying(_) => s.(slot := Null, writer := Idle)
  }

  // ---- Readers -----------------------------------------------------------------------------

  function ReaderAt(s: State, r: nat): Reader {
    if r in s.readers then s.readers[r] else Quiet
  }

  function KeyOf(q: Query): nat {
    match q case FieldCount => 0 case HasField(k) => k case TypeOf(k) => k case Get(k, _) => k
  }

  function Invoked(s: State, q: Query): Reader {
    if s.slot.Null? then Done(q, s.now, 0) else HaveBuffer(q, s.now, s.slot.addr)
  }

  function ReaderNext(s: State, rd: Reader): Reader {
    match rd
    case Quiet => rd
    case Done(_, _, _) => rd
    case HaveBuffer(q, since, buf) =>
      var count := BufferAt(s, buf).count;
      if q.FieldCount? then Done(q, since, count)
      else if count == 0 then Done(q, since, 0)
      else Scanning(q, since, buf, count, 0)
    case Scanning(q, since, buf, count, i) =>
      if BufferAt(s, buf).EntryAt(i).hash == KeyOf(q) then
        if q.HasField? then Done(q, since, 1) else Found(q, since, buf, i)
      else if i + 1 < count then Scanning(q, since, buf, count, i + 1)
      else Done(q, since, 0)
    case Found(q, since, buf, i) =>
      var typeId := BufferAt(s, buf).EntryAt(i).typeId;
      if q.TypeOf? then Done(q, since, typeId)
      else if q.Get? && typeId == q.typeId then Typed(q, since, buf, i)
      else Done(q, since, 0)
    case Typed(q, since, buf, i) => HaveBlock(q, since, buf, i, BufferAt(s, buf).EntryAt(i).val)
    case HaveBlock(q, since, _, _, val) => Done(q, since, Word(s.blocks, val))
  }

  // ---- Runs --------------------------------------------------------------------------------

  predicate Busy(rd: Reader) {
    !rd.Quiet? && !rd.Done?
  }

  predicate Enabled(s: State, step: Step) {
    match step
    case BeginSet(_, _, _) => s.writer.Idle?
    case BeginEnsureObject(_) => s.writer.Idle?
    case BeginRemove(_) => s.writer.Idle?
    case WriterStep => !s.writer.Idle? && !s.writer.Aborted?
    case Invoke(r, _) => !Busy(ReaderAt(s, r))
    case ReaderStep(r) => Busy(ReaderAt(s, r))
  }

  /** Effect of a step, the step counter aside. */
  function Effect(s: State, step: Step): State {
    match step
    case BeginSet(key, typeId, word) => StartSet(s, key, typeId, word)
    case BeginEnsureObject(key) => StartEnsureObject(s, key)
    case BeginRemove(key) => StartRemove(s, key)
    case WriterStep => WriterNext(s)
    case Invoke(r, q) => s.(readers := s.readers[r := Invoked(s, q)])
    case ReaderStep(r) => s.(readers := s.readers[r := ReaderNext(s, ReaderAt(s, r))])
  }

  function Next(s: State, step: Step): State {
    Effect(s, step).(now := s.now + 1)
  }

  /** `run` lists the states of an interleaving, `steps` the steps between them. */
  ghost predicate IsRun(run: seq<State>, steps: seq<Step>) {
    && |run| == |steps| + 1
    && run[0] == INITIAL
    && forall i :: 0 <= i < |steps| ==> Enabled(run[i], steps[i]) && run[i + 1] == Next(run[i], steps[i])
  }
}
