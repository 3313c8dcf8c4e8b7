/**
 The memory behind objects, as data: entry buffers, value blocks (one word each) and text buffers, by
 address. Address 0 is null. Malloc hands out the next unused address and nothing is reused.
 These functions say what the object calls do to memory; ObjectHeap carries them out in place.
 */
module ObjectMemory {
  import opened EntryBuffers
  import opened OrderedFields

  /** `words[a]` is the word at a value block or slot: a scalar payload or a pointer. */
  datatype Memory = Memory(bufs: map<nat, Buffer>, words: map<nat, int>, texts: map<nat, seq<nat>>, next: nat)

  const NULL: nat := 0

  /** A process that hits a type mismatch prints a diagnostic and is gone. */
  datatype Outcome<T> = Ok(value: T) | Aborted

  /** Doubles are their bit patterns. */
  datatype Value = Bool(flag: int) | Int32(n: int) | Int64(n: int) | Float64(bits: int) | Str(bytes: seq<nat>)

  function TypeOf(v: Value): nat {
    match v
    case Bool(_) => TYPE_BOOL
    case Int32(_) => TYPE_INT32
    case Int64(_) => TYPE_INT64
    case Float64(_) => TYPE_FLOAT64
    case Str(_) => TYPE_STRING
  }

  /** The word a scalar is stored as; booleans are normalised. */
  function Payload(v: Value): int {
    match v
    case Bool(flag) => if flag != 0 then 1 else 0
    case Int32(n) => n
    case Int64(n) => n
    case Float64(bits) => bits
    case Str(_) => 0
  }

  predicate InUse(m: Memory, a: nat) {
    a in m.bufs || a in m.words || a in m.texts
  }

  function WordAt(m: Memory, a: nat): int {
    if a in m.words then m.words[a] else 0
  }

  /** The entries buffer behind a slot; no buffer reads as an empty one without room. */
  function BufferOf(m: Memory, slot: nat): Buffer {
    var a := WordAt(m, slot);
    if a > 0 && a in m.bufs then m.bufs[a] else EMPTY
  }

  predicate SlotOk(m: Memory, slot: nat) {
    && m.next != NULL
    && slot in m.words
    && m.words[slot] >= 0
    && (m.words[slot] != NULL ==> m.words[slot] in m.bufs)
    && BufferOf(m, slot).count <= BufferOf(m, slot).Capacity()
  }

  // ---- Allocation steps --------------------------------------------------------------------

  /** Publish a new buffer in a slot. */
  function Install(m: Memory, slot: nat, b: Buffer): Memory {
    m.(bufs := m.bufs[m.next := b], words := m.words[slot := m.next], next := m.next + 1)
  }

  /** Grow if the slot's buffer is missing or full. */
  function MakeRoom(m: Memory, slot: nat): (m': Memory)
    requires SlotOk(m, slot)
    ensures SlotOk(m', slot) && !BufferOf(m', slot).Full() && WordAt(m', slot) in m'.bufs
    ensures BufferOf(m', slot).Committed() == BufferOf(m, slot).Committed()
  {
    var b := BufferOf(m, slot);
    if b.Full() then
      assert Grown(b).Committed() == b.Committed();
      Install(m, slot, Grown(b))
    else m
  }

  /** Append an entry whose fresh value block, at the next address, holds `word`. */
  function Append(m: Memory, slot: nat, hash: nat, typeId: nat, word: int): Memory
    requires SlotOk(m, slot)
  {
    var m1 := MakeRoom(m, slot);
    var b := BufferOf(m1, slot);
    var b' := WithNext(b, Entry(hash, typeId, BlockBytes(typeId), m1.next));
    m1.(bufs := m1.bufs[WordAt(m1, slot) := b'.(count := b.count + 1)],
        words := m1.words[m1.next := word],
        next := m1.next + 1)
  }

  /** Store a string in a string slot: null for the empty string, a new buffer otherwise. */
  function StringSet(m: Memory, slot: nat, bytes: seq<nat>): Memory {
    if bytes == [] then m.(words := m.words[slot := NULL])
    else m.(texts := m.texts[m.next := bytes], words := m.words[slot := m.next], next := m.next + 1)
  }

  function StringGet(m: Memory, slot: nat): seq<nat> {
    var a := WordAt(m, slot);
    if a > 0 && a in m.texts then m.texts[a] else []
  }

  // ---- Calls -------------------------------------------------------------------------------

  function Overwrite(m: Memory, at: nat, v: Value): Memory {
    if v.Str? then StringSet(m, at, v.bytes) else m.(words := m.words[at := Payload(v)])
  }

  function Add(m: Memory, slot: nat, hash: nat, v: Value): Memory
    requires SlotOk(m, slot)
  {
    var m1 := Append(m, slot, hash, TypeOf(v), Payload(v));
    if v.Str? then StringSet(m1, MakeRoom(m, slot).next, v.bytes) else m1
  }

  function Set(m: Memory, slot: nat, hash: nat, v: Value): Outcome<Memory>
    requires SlotOk(m, slot)
  {
    var b, i := BufferOf(m, slot), Find(BufferOf(m, slot), hash);
    if i == b.count then Ok(Add(m, slot, hash, v))
    else if b.entries[i].typeId != TypeOf(v) then Aborted
    else Ok(Overwrite(m, b.entries[i].val, v))
  }

  /** The nested object's slot, and memory after creating it if it was missing. */
  function EnsureObject(m: Memory, slot: nat, hash: nat): Outcome<(Memory, nat)>
    requires SlotOk(m, slot)
  {
    var b, i := BufferOf(m, slot), Find(BufferOf(m, slot), hash);
    if i < b.count then
      if b.entries[i].typeId != TYPE_OBJECT then Aborted else Ok((m, b.entries[i].val))
    else
      Ok((Append(m, slot, hash, TYPE_OBJECT, NULL), MakeRoom(m, slot).next))
  }

  function Remove(m: Memory, slot: nat, hash: nat): Memory
    requires SlotOk(m, slot)
  {
    var b, i := BufferOf(m, slot), Find(BufferOf(m, slot), hash);
    if i == b.count then m
    else if b.count == 1 then m.(words := m.words[slot := NULL])
    else Install(m, slot, Filtered(b, i))
  }

  /** What the typed scalar getters return. */
  function Answer(m: Memory, slot: nat, hash: nat, typeId: nat): int
    requires SlotOk(m, slot)
  {
    var b, i := BufferOf(m, slot), Find(BufferOf(m, slot), hash);
    if i == b.count || b.entries[i].typeId != typeId then 0 else WordAt(m, b.entries[i].val)
  }

  // The typed getters, one by one.
  function GetBool(m: Memory, slot: nat, hash: nat): int
    requires SlotOk(m, slot)
  {
    Answer(m, slot, hash, TYPE_BOOL)
  }

  function GetInt32(m: Memory, slot: nat, hash: nat): int
    requires SlotOk(m, slot)
  {
    Answer(m, slot, hash, TYPE_INT32)
  }

  function GetInt64(m: Memory, slot: nat, hash: nat): int
    requires SlotOk(m, slot)
  {
    Answer(m, slot, hash, TYPE_INT64)
  }

  function GetFloat64(m: Memory, slot: nat, hash: nat): int
    requires SlotOk(m, slot)
  {
    Answer(m, slot, hash, TYPE_FLOAT64)
  }

  /** The recorded type of a field, 0 for a missing one. */
  function TypeAnswer(m: Memory, slot: nat, hash: nat): nat
    requires SlotOk(m, slot)
  {
    var b, i := BufferOf(m, slot), Find(BufferOf(m, slot), hash);
    if i == b.count then 0 else b.entries[i].typeId
  }

  function TextAnswer(m: Memory, slot: nat, hash: nat): seq<nat>
    requires SlotOk(m, slot)
  {
    var b, i := BufferOf(m, slot), Find(BufferOf(m, slot), hash);
    if i == b.count || b.entries[i].typeId != TYPE_STRING then [] else StringGet(m, b.entries[i].val)
  }
}
