/**
 Entry buffers: the [count | capacity | entry...] blocks behind an object's entries pointer.
 A buffer is immutable data here; publication, growth and removal build new ones.
 */
module EntryBuffers {
  import opened OrderedFields

  const TYPE_BOOL: nat := 1
  const TYPE_INT32: nat := 2
  const TYPE_INT64: nat := 4
  const TYPE_FLOAT64: nat := 5
  const TYPE_STRING: nat := 6
  const TYPE_OBJECT: nat := 8

  /** The size of a value block, as recorded in its entry. */
  function BlockBytes(typeId: nat): nat {
    if typeId == TYPE_BOOL || typeId == TYPE_INT32 then 8
    else if typeId == TYPE_STRING || typeId == TYPE_OBJECT then 24
    else 16
  }

  const HEADER_BYTES: nat := 8
  const ENTRY_BYTES: nat := 24

  datatype Entry = Entry(hash: nat, typeId: nat, size: nat, val: nat)

  const ZERO_ENTRY: Entry := Entry(0, 0, 0, 0)

  /** The capacity is the length of `entries`; only the first `count` entries are committed. */
  datatype Buffer = Buffer(count: nat, entries: seq<Entry>) {
    function Capacity(): nat { |entries| }
    function Bytes(): nat { HEADER_BYTES + Capacity() * ENTRY_BYTES }
    predicate Full() { count >= Capacity() }
    function EntryAt(i: nat): Entry { if i < |entries| then entries[i] else ZERO_ENTRY }
    function Committed(): (es: seq<Entry>)
      ensures count <= |entries| ==> |es| == count && es == entries[..count]
    {
      if count <= |entries| then entries[..count] else entries
    }
  }

  /** What a null entries pointer amounts to: no entries and no room. */
  const EMPTY: Buffer := Buffer(0, [])

  function ZeroEntries(n: nat): (es: seq<Entry>)
    ensures |es| == n && forall i :: 0 <= i < n ==> es[i] == ZERO_ENTRY
  {
    seq(n, i => ZERO_ENTRY)
  }

  function GrownCapacity(cap: nat): nat {
    if cap == 0 then 4 else cap * 2
  }

  /** A zeroed buffer of the next capacity holding the committed entries. */
  function Grown(b: Buffer): Buffer
    requires b.count <= b.Capacity()
  {
    Buffer(b.count, b.Committed() + ZeroEntries(GrownCapacity(b.Capacity()) - b.count))
  }

  /** A tightly-sized buffer without entry `i`, the other committed entries in order. */
  function Filtered(b: Buffer, i: nat): Buffer
    requires i < b.count <= b.Capacity()
  {
    Buffer(b.count - 1, b.entries[..i] + b.entries[i + 1..b.count])
  }

  /** Fill the free entry at position `count`. */
  function WithNext(b: Buffer, e: Entry): Buffer
    requires b.count < b.Capacity()
  {
    b.(entries := b.entries[b.count := e])
  }

  /** Index of the first committed entry with this hash; `count` when there is none. */
  function Find(b: Buffer, hash: nat): (i: nat)
    requires b.count <= b.Capacity()
    ensures i <= b.count
    ensures i < b.count ==> b.entries[i].hash == hash
    ensures forall j :: 0 <= j < i ==> b.entries[j].hash != hash
  {
    FindFrom(b, hash, 0)
  }

  function FindFrom(b: Buffer, hash: nat, from: nat): (i: nat)
    requires from <= b.count <= b.Capacity()
    ensures from <= i <= b.count
    ensures i < b.count ==> b.entries[i].hash == hash
    ensures forall j :: from <= j < i ==> b.entries[j].hash != hash
    decreases b.count - from
  {
    if from == b.count || b.entries[from].hash == hash then from else FindFrom(b, hash, from + 1)
  }

  ghost predicate DistinctHashes(b: Buffer) {
    forall i, j :: 0 <= i < j < |b.Committed()| ==> b.Committed()[i].hash != b.Committed()[j].hash
  }

  /** The word stored in value block `at`. */
  function Word(blocks: seq<int>, at: nat): int {
    if at < |blocks| then blocks[at] else 0
  }

  function FieldOf(e: Entry, blocks: seq<int>): Field<nat, int> {
    Field(e.hash, e.typeId, Word(blocks, e.val))
  }

  /** The fields a buffer presents, given the current contents of the value blocks. */
  function FieldsOf(b: Buffer, blocks: seq<int>): (fs: seq<Field<nat, int>>)
    ensures |fs| == |b.Committed()|
    ensures forall i :: 0 <= i < |fs| ==> fs[i] == FieldOf(b.Committed()[i], blocks)
  {
    seq(|b.Committed()|, i requires 0 <= i < |b.Committed()| => FieldOf(b.Committed()[i], blocks))
  }

  /** Fields depend only on committed entries and on the blocks these refer to. */
  lemma SameFields(b: Buffer, c: Buffer, blocks: seq<int>, more: seq<int>)
    requires b.Committed() == c.Committed()
    requires forall i :: 0 <= i < |b.Committed()| ==> Word(more, b.Committed()[i].val) == Word(blocks, b.Committed()[i].val)
    ensures FieldsOf(b, blocks) == FieldsOf(c, more)
  {
  }

  lemma FieldsOfFiltered(b: Buffer, i: nat, blocks: seq<int>)
    requires i < b.count <= b.Capacity()
    ensures FieldsOf(Filtered(b, i), blocks) == FieldsOf(b, blocks)[..i] + FieldsOf(b, blocks)[i + 1..]
  {
    var f := Filtered(b, i);
    assert f.Committed() == f.entries;
    assert forall j :: 0 <= j < b.count - 1 ==> f.entries[j] == b.entries[if j < i then j else j + 1];
    assert forall j :: 0 <= j < b.count ==> b.Committed()[j] == b.entries[j];
  }
}
