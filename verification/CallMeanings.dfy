/**
 What the store sequences of the calls leave in memory, said without them: a string slot holds the string
 last set and its NUL, an array slot the rows pushed since the last clear, an object slot the ordered fields
 that the sets, ensures and removals amount to.
 */
module CallMeanings {
  import ArrayBuffers
  import EntryBuffers
  import opened ReleaseAcquire
  import opened MemoryShape
  import opened Initialisation
  import opened OrderedFields
  import opened Races
  import opened WriterPrograms
  import opened WriterCalls
  import opened CallRaces
  import opened CallSequences
  import opened ArrayContents

  // ---- What an object slot holds -----------------------------------------------------------

  /** The payload of a scalar, the bytes of a string, the entries pointer of a nested object. */
  datatype Content = Number(word: nat) | Chars(bytes: seq<nat>) | Nested(pointer: nat)

  function NumOf(v: Value): nat {
    if v.Num? then v.n else 0
  }

  /** A text: its length and then its bytes. */
  function TextAt(m: Memory, t: nat): seq<nat> {
    seq(NumOf(Latest(m, Cell(t, 0))), (i: nat) => NumOf(Latest(m, Cell(t, i + 1))))
  }

  function ContentAt(m: Memory, typeId: nat, v: nat): Content {
    var pointer := Latest(m, Cell(v, 1));
    if typeId == EntryBuffers.TYPE_STRING then Chars(if pointer.Ref? then TextAt(m, pointer.buf) else [])
    else if typeId == EntryBuffers.TYPE_OBJECT then Nested(NumOf(pointer))
    else Number(NumOf(Latest(m, Cell(v, 0))))
  }

  function TypeAt(m: Memory, q: nat): nat {
    NumOf(EntryCell(m, q, 1))
  }

  function BlockAt(m: Memory, q: nat): nat {
    if EntryCell(m, q, 3).Ref? then EntryCell(m, q, 3).buf else 0
  }

  function EntryField(m: Memory, q: nat): Field<nat, Content> {
    Field(NumOf(EntryCell(m, q, 0)), TypeAt(m, q), ContentAt(m, TypeAt(m, q), BlockAt(m, q)))
  }

  /** The counted entries in order. */
  function Fields(m: Memory): (fields: seq<Field<nat, Content>>)
    ensures |fields| == SizeNow(m) && forall q :: 0 <= q < |fields| ==> fields[q] == EntryField(m, q)
  {
    seq(SizeNow(m), (q: nat) => EntryField(m, q))
  }

  /** The bytes of a value block by type: boolean and int32 8, string and object 24, the others 16. */
  function ValueBytes(typeId: nat): nat {
    if typeId == 1 || typeId == 2 then 8 else if typeId == 6 || typeId == 8 then 24 else 16
  }

  /** Length, bytes and NUL, and not a cell more. */
  ghost predicate TextFinished(m: Memory, t: nat) {
    && t < |m.bufs| && m.bufs[t].sealed
    && m.bufs[t].cells == |TextAt(m, t)| + 2
    && Latest(m, Cell(t, |TextAt(m, t)| + 1)) == Num(0)
  }

  predicate Composite(typeId: nat) {
    typeId == EntryBuffers.TYPE_STRING || typeId == EntryBuffers.TYPE_OBJECT
  }

  /** The text an entry's block refers to. */
  predicate RefersTo(m: Memory, q: nat, t: nat) {
    TypeAt(m, q) == EntryBuffers.TYPE_STRING && Latest(m, Cell(BlockAt(m, q), 1)) == Ref(t)
  }

  /** Strings and objects have two-cell blocks; texts are finished; the recorded size is the type's. */
  ghost predicate BlockOk(m: Memory, q: nat) {
    var v := BlockAt(m, q);
    && EntryOk(m, q)
    && EntryCell(m, q, 2) == Num(ValueBytes(TypeAt(m, q)))
    && (Composite(TypeAt(m, q)) ==> m.bufs[v].cells == 2)
    && (forall t: nat :: RefersTo(m, q, t) ==> TextFinished(m, t))
  }

  /** Every field has a block of its own, and no block is another field's text. */
  ghost predicate Unshared(m: Memory) {
    && (forall q: nat, k: nat :: q < k < SizeNow(m) ==> BlockAt(m, q) != BlockAt(m, k))
    && (forall q: nat, k: nat, t: nat :: q < SizeNow(m) && k < SizeNow(m) && RefersTo(m, q, t) ==> t != BlockAt(m, k))
  }

  ghost predicate Sound(m: Memory) {
    && Layout(OfObject, m)
    && (forall q: nat :: q < SizeNow(m) ==> BlockOk(m, q))
    && Unshared(m)
  }

  // ---- What the calls mean -----------------------------------------------------------------

  /** What a slot holds: a string; the numbers in the rows of an array, one after another; fields. */
  datatype Meaning =
    | OneString(str: seq<nat>)
    | Rows(size: nat, numbers: seq<nat>, capacity: nat)
    | Object(fields: seq<Field<nat, Content>>, capacity: nat)

  function Nothing(kind: Kind): Meaning {
    match kind
    case OfString => OneString([])
    case OfArray => Rows(0, [], 0)
    case OfObject => Object([], 0)
  }

  /** Room for one more: twice the capacity when full, `first` in the beginning. */
  function WithRoom(size: nat, capacity: nat, first: nat): nat {
    if size < capacity then capacity else if capacity == 0 then first else 2 * capacity
  }

  function Added(o: Meaning, key: nat, typeId: nat, content: Content): Meaning
    requires o.Object?
  {
    if Has(o.fields, key) then o
    else Object(Put(o.fields, key, typeId, content), WithRoom(|o.fields|, o.capacity, 4))
  }

  /** A set on a field of another type ends the process and stores nothing; a string or object field that is
      there has a slot of its own. */
  function Meant(o: Meaning, c: Call): Meaning {
    match (o, c)
    case (OneString(_), SetString(str)) => OneString(str)
    case (Rows(size, numbers, capacity), Reserve(rows)) => Rows(size, numbers, if rows > capacity then rows else capacity)
    case (Rows(size, numbers, capacity), Push(row)) => Rows(size + 1, numbers + row, WithRoom(size, capacity, 8))
    case (Rows(_, _, capacity), ClearArray) => Rows(0, [], capacity)
    case (Object(fields, capacity), SetScalar(key, typeId, word)) =>
      if !Has(fields, key) then Added(o, key, typeId, Number(word))
      else if fields[IndexOf(fields, key)].typeId == typeId then Object(Put(fields, key, typeId, Number(word)), capacity)
      else o
    case (Object(_, _), SetText(key, str)) => Added(o, key, 6, Chars(str))
    case (Object(_, _), EnsureObject(key)) => Added(o, key, 8, Nested(0))
    case (Object(fields, capacity), Remove(key)) =>
      if Has(fields, key) then Object(Without(fields, key), |fields| - 1) else o
    case _ => o
  }

  /** The string's bytes and its NUL, and not a cell more. */
  ghost predicate HoldsString(m: Memory, str: seq<nat>) {
    if str == [] then !HasBuffer(m)
    else
      && HasBuffer(m) && SizeNow(m) == |str| && m.bufs[Current(m)].cells == |str| + 1
      && (forall i: nat :: i < |str| ==> Latest(m, Cell(Current(m), i)) == Num(str[i]))
      && Latest(m, Cell(Current(m), |str|)) == Num(0)
  }

  ghost predicate Represents(kind: Kind, m: Memory, o: Meaning) {
    match kind
    case OfString => Layout(OfString, m) && o.OneString? && HoldsString(m, o.str)
    case OfArray =>
      && Layout(OfArray, m) && o.Rows?
      && SizeNow(m) == o.size && Contents(m) == WriterPrograms.Bytes(o.numbers) && CapacityNow(m) == o.capacity
    case OfObject => Sound(m) && o.Object? && Fields(m) == o.fields && CapacityNow(m) == o.capacity
  }

  // ---- Entries that move -------------------------------------------------------------------

  /** Blocks and texts are as they were. */
  ghost predicate BlocksKept(m: Memory, m': Memory) {
    && |m.bufs| <= |m'.bufs| && (forall k: nat :: k < |m.bufs| ==> m'.bufs[k] == m.bufs[k])
    && forall l: Loc :: l in m.log && l.Cell? && l.buf < |m.bufs| && m.bufs[l.buf].sealed ==> Latest(m', l) == Latest(m, l)
  }

  lemma BlockCellStays(m: Memory, m': Memory, v: nat, i: nat)
    requires Shape(m) && BlocksKept(m, m') && v < |m.bufs| && m.bufs[v].sealed && i < m.bufs[v].cells
    ensures Latest(m', Cell(v, i)) == Latest(m, Cell(v, i))
  {
    assert Allocated(m, Cell(v, i));
  }

  lemma TextStays(m: Memory, m': Memory, t: nat)
    requires Shape(m) && BlocksKept(m, m') && TextFinished(m, t)
    ensures TextAt(m', t) == TextAt(m, t) && TextFinished(m', t)
  {
    forall i: nat | i < |TextAt(m, t)| + 2 ensures Latest(m', Cell(t, i)) == Latest(m, Cell(t, i)) {
      BlockCellStays(m, m', t, i);
    }
  }

  /** Entry k of the old memory is entry q of the new one. */
  ghost predicate SameEntry(m: Memory, m': Memory, q: nat, k: nat) {
    && EntryField(m', q) == EntryField(m, k) && BlockAt(m', q) == BlockAt(m, k)
    && BlockOk(m', q) && forall t: nat :: RefersTo(m', q, t) <==> RefersTo(m, k, t)
  }

  lemma FieldMoves(m: Memory, m': Memory, q: nat, k: nat)
    requires Shape(m) && BlocksKept(m, m') && BlockOk(m, k) && EntryOk(m', q)
    requires forall j: nat :: j < 4 ==> EntryCell(m', q, j) == EntryCell(m, k, j)
    ensures SameEntry(m, m', q, k)
  {
    var v := BlockAt(m, k);
    hide Latest, EntryCell, TextAt, Shape, TextFinished;
    BlockCellStays(m, m', v, 0);
    if Composite(TypeAt(m, k)) {
      BlockCellStays(m, m', v, 1);
      var pointer := Latest(m, Cell(v, 1));
      if RefersTo(m, k, if pointer.Ref? then pointer.buf else 0) {
        TextStays(m, m', pointer.buf);
      }
    }
  }

  /** The old index of an entry when entry i is left out; with i beyond the end, none is. */
  function Skip(i: nat, q: nat): nat {
    if q < i then q else q + 1
  }

  /** The entries of the new memory are those of the old one, entry i left out. */
  ghost predicate Moved(m: Memory, m': Memory, i: nat) {
    && SizeNow(m') == SizeNow(m) - (if i < SizeNow(m) then 1 else 0)
    && forall q: nat :: q < SizeNow(m') ==> SameEntry(m, m', q, Skip(i, q))
  }

  lemma MovedIsUnshared(m: Memory, m': Memory, i: nat)
    requires Unshared(m) && Moved(m, m', i)
    ensures Unshared(m')
  {
    hide SizeNow, EntryField, BlockAt, RefersTo, BlockOk;
    forall q: nat, k: nat | q < k < SizeNow(m') ensures BlockAt(m', q) != BlockAt(m', k) {
      assert SameEntry(m, m', q, Skip(i, q)) && SameEntry(m, m', k, Skip(i, k));
    }
    forall q: nat, k: nat, t: nat | q < SizeNow(m') && k < SizeNow(m') && RefersTo(m', q, t)
      ensures t != BlockAt(m', k)
    {
      assert SameEntry(m, m', q, Skip(i, q)) && SameEntry(m, m', k, Skip(i, k));
    }
  }

  lemma MovedFields(m: Memory, m': Memory, i: nat)
    requires Moved(m, m', i)
    ensures Fields(m') == if i < SizeNow(m) then Fields(m)[..i] + Fields(m)[i + 1..] else Fields(m)
  {
    hide EntryField, BlockAt, RefersTo, BlockOk, SizeNow;
    forall q: nat | q < SizeNow(m') ensures Fields(m')[q] == Fields(m)[Skip(i, q)] {
      assert SameEntry(m, m', q, Skip(i, q));
    }
  }

  lemma MovedIsSound(m: Memory, m': Memory, i: nat)
    requires Sound(m) && Layout(OfObject, m') && Moved(m, m', i)
    ensures Sound(m')
  {
    hide Layout, EntryField, BlockAt, RefersTo, BlockOk, Unshared;
    MovedIsUnshared(m, m', i);
    forall q: nat | q < SizeNow(m') ensures BlockOk(m', q) {
      assert SameEntry(m, m', q, Skip(i, q));
    }
  }

  // ---- New buffers -------------------------------------------------------------------------

  lemma ReplacedKeepsBlocks(m: Memory, m': Memory, cells: nat, count: nat, contents: seq<Value>)
    requires Shape(m) && Replaced(m, m', cells, count, contents)
    ensures BlocksKept(m, m')
  {
    hide Shape, Messages, Latest;
  }

  lemma ReplacedMoves(m: Memory, m': Memory, cells: nat, contents: seq<Value>, i: nat)
    requires Sound(m) && HasBuffer(m) && Layout(OfObject, m')
    requires var count := SizeNow(m) - (if i < SizeNow(m) then 1 else 0);
      && Replaced(m, m', cells, count, contents)
      && forall q: nat :: q < count ==> RowIs(m, contents, q, Skip(i, q))
    ensures Moved(m, m', i)
  {
    hide Shape, Layout, EntryOk, BlockOk, RowIs;
    var count := SizeNow(m) - (if i < SizeNow(m) then 1 else 0);
    LayoutIsShape(m);
    ReplacedKeepsBlocks(m, m', cells, count, contents);
    assert SizeNow(m') == count && HasBuffer(m') && Current(m') == |m.bufs|;
    forall q: nat | q < count ensures SameEntry(m, m', q, Skip(i, q)) {
      ReplacedCells(m, m', cells, count, contents, q, Skip(i, q));
      EntryIsOk(m', q);
      FieldMoves(m, m', q, Skip(i, q));
    }
  }

  lemma LayoutIsShape(m: Memory)
    requires Layout(OfObject, m)
    ensures Shape(m) && m.rowCells == 4 && m.extraCells == 0
  {
  }

  lemma EntryIsOk(m: Memory, q: nat)
    requires Layout(OfObject, m) && q < SizeNow(m)
    ensures EntryOk(m, q)
  {
  }

  lemma ReplacedCells(m: Memory, m': Memory, cells: nat, count: nat, contents: seq<Value>, q: nat, k: nat)
    requires Replaced(m, m', cells, count, contents) && RowIs(m, contents, q, k) && HasBuffer(m')
    ensures forall j: nat :: j < 4 ==> EntryCell(m', q, j) == EntryCell(m, k, j)
  {
    hide Shape;
    forall j: nat | j < 4 ensures EntryCell(m', q, j) == EntryCell(m, k, j) {
      assert Latest(m', Cell(|m.bufs|, Readable(m, q) + j)) == contents[Readable(m, q) + j];
    }
  }

  /** Making room changes no field. */
  lemma RoomMeans(m: Memory) returns (m1: Memory)
    requires Sound(m)
    ensures m1 == Exec(m, Room(m, EntryBuffers.GrownCapacity(CapacityNow(m))))
    ensures Sound(m1) && Fields(m1) == Fields(m)
  {
    hide Shape, Runs, Exec, QuietProgram, BlockOk, Room;
    m1 := ObjectRoomRuns(m);
    var n, rows := SizeNow(m), EntryBuffers.GrownCapacity(CapacityNow(m));
    RoomRuns(m, rows);
    if Full(m) {
      var contents := CurrentCells(m, Readable(m, n));
      if HasBuffer(m) {
        forall q: nat | q < n ensures RowIs(m, contents, q, Skip(n, q)) {
          FourCells(m, q, n);
        }
        ReplacedMoves(m, m1, rows * 4, contents, n);
        MovedIsSound(m, m1, n);
        MovedFields(m, m1, n);
      }
    }
  }

  // ---- Adds --------------------------------------------------------------------------------

  lemma CurrentIsNotSealed(m: Memory)
    requires Shape(m) && HasBuffer(m)
    ensures !m.bufs[Current(m)].sealed
  {
    CurrentIsPublished(m);
  }

  lemma AddedKeepsBlocks(m: Memory, m': Memory, n: nat, from: nat)
    requires Shape(m) && HasBuffer(m) && RowCounted(m, m', Current(m), n, from, 4)
    ensures BlocksKept(m, m')
  {
    CurrentIsNotSealed(m);
    hide Shape;
    forall l: Loc | l in m.log && l.Cell? && l.buf < |m.bufs| && m.bufs[l.buf].sealed ensures Latest(m', l) == Latest(m, l) {
      SameMessagesSameLatest(m, m', l);
    }
  }

  lemma AddedMoves(m: Memory, m': Memory, n: nat, from: nat)
    requires Sound(m) && HasBuffer(m) && n == SizeNow(m) && from == Readable(m, n)
    requires RowCounted(m, m', Current(m), n, from, 4) && Layout(OfObject, m')
    ensures HasBuffer(m') && SizeNow(m') == n + 1 && forall q: nat :: q < n ==> SameEntry(m, m', q, q)
  {
    hide Shape, Layout, EntryOk, BlockOk, OldCellsKept;
    var b := Current(m);
    LayoutIsShape(m);
    AddedKeepsBlocks(m, m', n, from);
    CountedCellsThere(m);
    forall q: nat | q < n ensures SameEntry(m, m', q, q) {
      FourCells(m, q, n);
      KeptCells(m, m', b, from, q);
      EntryIsOk(m', q);
      FieldMoves(m, m', q, q);
    }
  }

  /** What a fresh block, and its text, hold for this content. */
  ghost predicate Filled(m: Memory, v: nat, typeId: nat, content: Content) {
    match content
    case Number(word) => !Composite(typeId) && Latest(m, Cell(v, 0)) == Num(word)
    case Chars(bytes) =>
      && typeId == EntryBuffers.TYPE_STRING && v < |m.bufs| && m.bufs[v].cells == 2
      && if bytes == [] then Latest(m, Cell(v, 1)) == Num(0)
         else Latest(m, Cell(v, 1)) == Ref(v + 1) && TextAt(m, v + 1) == bytes && TextFinished(m, v + 1)
    case Nested(pointer) =>
      && typeId == EntryBuffers.TYPE_OBJECT && v < |m.bufs| && m.bufs[v].cells == 2
      && pointer == 0 && Latest(m, Cell(v, 1)) == Num(0)
  }

  lemma FilledField(m: Memory, q: nat, key: nat, typeId: nat, v: nat, content: Content)
    requires EntryOk(m, q) && EntryCell(m, q, 0) == Num(key) && EntryCell(m, q, 1) == Num(typeId)
    requires EntryCell(m, q, 2) == Num(ValueBytes(typeId)) && EntryCell(m, q, 3) == Ref(v) && Filled(m, v, typeId, content)
    ensures EntryField(m, q) == Field(key, typeId, content) && BlockOk(m, q) && BlockAt(m, q) == v
    ensures forall t: nat :: RefersTo(m, q, t) ==> t == v + 1
  {
    hide TextAt, TextFinished, Latest, EntryCell;
  }

  lemma AddedIsSound(m: Memory, m': Memory, n: nat, key: nat, typeId: nat, content: Content)
    requires Sound(m) && Layout(OfObject, m') && n == SizeNow(m) && SizeNow(m') == n + 1
    requires forall q: nat :: q < n ==> SameEntry(m, m', q, q)
    requires EntryField(m', n) == Field(key, typeId, content) && BlockOk(m', n) && BlockAt(m', n) == |m.bufs|
    requires forall t: nat :: RefersTo(m', n, t) ==> t == |m.bufs| + 1
    ensures Sound(m') && Fields(m') == Fields(m) + [Field(key, typeId, content)]
  {
    hide Layout, EntryField, BlockAt, RefersTo, BlockOk, SizeNow, Unshared;
    OldBlocksAreOld(m, m', n);
    AddedIsUnshared(m, m', n, |m.bufs|);
    AddedFields(m, m', n, Field(key, typeId, content));
    forall q: nat | q < n + 1 ensures BlockOk(m', q) {
      assert q < n ==> SameEntry(m, m', q, q);
    }
  }

  /** The blocks and texts of the first n entries come before buffer v. */
  ghost predicate Earlier(m: Memory, n: nat, v: nat) {
    && (forall q: nat :: q < n ==> BlockAt(m, q) < v)
    && (forall q: nat, t: nat :: q < n && RefersTo(m, q, t) ==> t < v)
  }

  lemma OldBlocksAreOld(m: Memory, m': Memory, n: nat)
    requires Sound(m) && n == SizeNow(m) && forall q: nat :: q < n ==> SameEntry(m, m', q, q)
    ensures Earlier(m', n, |m.bufs|)
  {
    hide Layout, EntryField, Unshared, Latest, EntryCell, TextAt;
    forall q: nat | q < n ensures BlockAt(m', q) < |m.bufs| {
      assert BlockOk(m, q) && SameEntry(m, m', q, q);
    }
    forall q: nat, t: nat | q < n && RefersTo(m', q, t) ensures t < |m.bufs| {
      assert BlockOk(m, q) && SameEntry(m, m', q, q);
    }
  }

  lemma AddedFields(m: Memory, m': Memory, n: nat, field: Field<nat, Content>)
    requires n == SizeNow(m) && SizeNow(m') == n + 1 && forall q: nat :: q < n ==> SameEntry(m, m', q, q)
    requires EntryField(m', n) == field
    ensures Fields(m') == Fields(m) + [field]
  {
    hide EntryField, BlockAt, RefersTo, BlockOk, SizeNow;
    forall q: nat | q < n ensures Fields(m')[q] == Fields(m)[q] {
      assert SameEntry(m, m', q, q);
    }
  }

  lemma AddedIsUnshared(m: Memory, m': Memory, n: nat, v: nat)
    requires Unshared(m) && n == SizeNow(m) && SizeNow(m') == n + 1
    requires forall q: nat :: q < n ==> SameEntry(m, m', q, q)
    requires Earlier(m', n, v)
    requires BlockAt(m', n) == v && forall t: nat :: RefersTo(m', n, t) ==> t == v + 1
    ensures Unshared(m')
  {
    hide SizeNow, EntryField, BlockAt, RefersTo, BlockOk;
    forall q: nat, k: nat | q < k < n + 1 ensures BlockAt(m', q) != BlockAt(m', k) {
      assert SameEntry(m, m', q, q);
      if k < n {
        assert SameEntry(m, m', k, k);
      }
    }
    forall q: nat, k: nat, t: nat | q < n + 1 && k < n + 1 && RefersTo(m', q, t) ensures t != BlockAt(m', k) {
      if q < n && k < n {
        assert SameEntry(m, m', q, q) && SameEntry(m, m', k, k);
      }
    }
  }

  /** The payload and text that an add stores for a content. */
  ghost predicate Stores(typeId: nat, payload: seq<Value>, text: seq<Value>, content: Content) {
    match content
    case Number(word) => !Composite(typeId) && payload == [Num(word)] && text == []
    case Chars(bytes) => typeId == EntryBuffers.TYPE_STRING && payload == Zeros(2) && text == TextCells(bytes)
    case Nested(pointer) => typeId == EntryBuffers.TYPE_OBJECT && payload == Zeros(2) && text == [] && pointer == 0
  }

  lemma ScalarBlockFilled(m: Memory, v: nat, typeId: nat, payload: seq<Value>, content: Content)
    requires Stores(typeId, payload, [], content) && v < |m.bufs| && m.bufs[v].cells == |payload|
    requires forall j :: 0 <= j < |payload| ==> Latest(m, Cell(v, j)) == payload[j]
    ensures Filled(m, v, typeId, content)
  {
    hide Latest;
    if content.Chars? {
      assert content.bytes == [];
    }
  }

  lemma TextBlockFilled(m: Memory, v: nat, typeId: nat, bytes: seq<nat>)
    requires typeId == EntryBuffers.TYPE_STRING && bytes != [] && v + 1 < |m.bufs| && m.bufs[v].cells == 2
    requires Latest(m, Cell(v, 1)) == Ref(v + 1) && m.bufs[v + 1] == ReleaseAcquire.Buffer(|bytes| + 2, false, true)
    requires forall j :: 0 <= j < |bytes| + 2 ==> Latest(m, Cell(v + 1, j)) == TextCells(bytes)[j]
    ensures Filled(m, v, typeId, Chars(bytes))
  {
    hide Latest;
    var cells := TextCells(bytes);
    assert |cells| == |bytes| + 2 && cells[0] == Num(|bytes|) && cells[|bytes| + 1] == Num(0);
    assert Latest(m, Cell(v + 1, 0)) == cells[0] && Latest(m, Cell(v + 1, |bytes| + 1)) == cells[|bytes| + 1];
    forall i | 0 <= i < |bytes| ensures Latest(m, Cell(v + 1, i + 1)) == Num(bytes[i]) {
      assert cells[i + 1] == Num(bytes[i]);
    }
    assert TextAt(m, v + 1) == bytes;
  }

  lemma AddedEntry(m: Memory, m': Memory, n: nat, from: nat, key: nat, typeId: nat, cells: nat, content: Content)
    requires Sound(m) && HasBuffer(m) && n == SizeNow(m) && from == Readable(m, n) && Layout(OfObject, m')
    requires EntryAdded(m, m', Current(m), n, from, Head(key, typeId), |m.bufs|, cells)
    requires Filled(m', |m.bufs|, typeId, content)
    ensures Sound(m') && Fields(m') == Fields(m) + [Field(key, typeId, content)]
  {
    hide Layout, Sound, Filled, EntryOk, BlockOk, SameEntry, EntryField, RefersTo, BlockAt, OldCellsKept;
    var head := Head(key, typeId);
    assert head[0] == Num(key) && head[1] == Num(typeId) && head[2] == Num(ValueBytes(typeId));
    AddedMoves(m, m', n, from);
    EntryIsOk(m', n);
    assert Current(m') == Current(m) && Readable(m', n) == from;
    assert EntryCell(m', n, 0) == head[0] && EntryCell(m', n, 1) == head[1] && EntryCell(m', n, 2) == head[2];
    FilledField(m', n, key, typeId, |m.bufs|, content);
    AddedIsSound(m, m', n, key, typeId, content);
  }

  /** Whether as a scalar block or with a text, the entry's block is filled with the content. */
  lemma AddEntryFills(m: Memory, b: nat, n: nat, from: nat, head: seq<Value>, typeId: nat, payload: seq<Value>, text: seq<Value>, content: Content)
    requires HasRoom(m, b, n, from, 4) && |head| == 3 && !Covered(m, b, from + 3) && Numbers(head)
    requires Stores(typeId, payload, text, content)
    ensures var program := AddEntry(b, n, from, |m.bufs|, head, payload, text);
            var m', cells := Exec(m, program), if text == [] then |payload| else 2;
            && Runs(m, program) && EntryAdded(m, m', b, n, from, head, |m.bufs|, cells)
            && Filled(m', |m.bufs|, typeId, content)
  {
    hide HasRoom, Covered, Runs, Exec, AddScalar, AddString, RowCounted, Filled, Latest, OldCellsKept;
    if text == [] {
      NumbersFit(m, |m.bufs|, 0, payload);
      AddScalarRuns(m, b, n, from, head, payload);
      ScalarBlockFilled(Exec(m, AddScalar(b, n, from, |m.bufs|, head, payload)), |m.bufs|, typeId, payload, content);
    } else {
      AddStringRuns(m, b, n, from, head, text);
      TextBlockFilled(Exec(m, AddString(b, n, from, |m.bufs|, head, text)), |m.bufs|, typeId, content.bytes);
    }
  }

  lemma AddMeans(m: Memory, key: nat, typeId: nat, payload: seq<Value>, text: seq<Value>, content: Content)
    requires Sound(m) && Stores(typeId, payload, text, content)
    ensures var m' := Exec(m, AddProgram(m, key, typeId, payload, text));
            Sound(m') && Fields(m') == Fields(m) + [Field(key, typeId, content)]
  {
    hide Room, Runs, Exec, AddEntry, EntryAdded, HasRoom, Covered, Layout, QuietProgram, Readable, CapacityNow, Filled, BlockOk, Unshared;
    var room := Room(m, EntryBuffers.GrownCapacity(CapacityNow(m)));
    var m1 := RoomMeans(m);
    var _ := ObjectRoomRuns(m);
    var b, n, head := Current(m1), SizeNow(m1), Head(key, typeId);
    var from := Readable(m1, n);
    AddEntryFills(m1, b, n, from, head, typeId, payload, text, content);
    var add := AddEntry(b, n, from, |m1.bufs|, head, payload, text);
    RunsAppend(m, room, add);
    AddRuns(m, key, typeId, payload, text);
    AddedEntry(m1, Exec(m1, add), n, from, key, typeId, if text == [] then |payload| else 2, content);
  }

  // ---- Lookups -----------------------------------------------------------------------------

  lemma {:induction false} FindIsIndex(m: Memory, key: nat, q: nat)
    requires EntriesOk(m) && q <= SizeNow(m)
    ensures FindEntry(m, key, q) == q + IndexOf(Fields(m)[q..], key)
    decreases SizeNow(m) - q
  {
    var fields := Fields(m);
    if q < SizeNow(m) {
      assert EntryOk(m, q) && fields[q..][0] == EntryField(m, q);
      if EntryCell(m, q, 0) != Num(key) {
        FindIsIndex(m, key, q + 1);
        assert fields[q..][1..] == fields[q + 1..];
      }
    }
  }

  /** The writer's search is the search among the fields. */
  lemma LookupIsIndex(m: Memory, key: nat)
    requires Sound(m)
    ensures FindEntry(m, key, 0) == IndexOf(Fields(m), key)
    ensures Present(m, key) <==> Has(Fields(m), key)
    ensures Present(m, key) ==> TypeNow(m, key) == Num(Fields(m)[IndexOf(Fields(m), key)].typeId)
                                && TypeAt(m, IndexOf(Fields(m), key)) == Fields(m)[IndexOf(Fields(m), key)].typeId
    ensures Present(m, key) ==> BlockNow(m, key) == BlockAt(m, IndexOf(Fields(m), key))
  {
    FindIsIndex(m, key, 0);
    assert Fields(m)[0..] == Fields(m);
    if Present(m, key) {
      EntryIsOk(m, FindEntry(m, key, 0));
    }
  }

  // ---- Removals and overwrites -------------------------------------------------------------

  lemma RemoveMeans(m: Memory, i: nat)
    requires Sound(m) && HasBuffer(m) && i < SizeNow(m)
    ensures var m' := Exec(m, RemoveProgram(m, i)); Sound(m') && Fields(m') == Fields(m)[..i] + Fields(m)[i + 1..]
  {
    hide Shape, Runs, Exec, Replace, EntryOk, BlockOk, Unshared, QuietProgram;
    var n, all := SizeNow(m), CurrentCells(m, Readable(m, SizeNow(m)));
    RemoveFieldRuns(m, i);
    FourCells(m, i, n);
    FourCells(m, i + 1, n);
    FourCells(m, n - 1, n);
    var m' := Exec(m, RemoveProgram(m, i));
    if n == 1 {
      NullRuns(m);
      NothingIsSound(m');
    } else {
      RemoveRuns(m, i);
      var contents := all[..Readable(m, i)] + all[Readable(m, i + 1)..];
      forall q: nat | q < n - 1 ensures RowIs(m, contents, q, Skip(i, q)) {
        RemovedRows(m, i, q);
      }
      ReplacedMoves(m, m', (n - 1) * 4, contents, i);
      MovedIsSound(m, m', i);
      MovedFields(m, m', i);
    }
  }

  lemma NothingIsSound(m: Memory)
    requires Layout(OfObject, m) && !HasBuffer(m)
    ensures Sound(m) && Fields(m) == []
  {
  }

  /** Only the first cell of block v is different. */
  ghost predicate Overwritten(m: Memory, m': Memory, v: nat, word: nat) {
    && m'.bufs == m.bufs && m'.rowCells == m.rowCells && m'.extraCells == m.extraCells && v != Current(m)
    && forall l: Loc :: Latest(m', l) == if l == Cell(v, 0) then Num(word) else Latest(m, l)
  }

  lemma OverwrittenCells(m: Memory, m': Memory, v: nat, word: nat)
    requires Overwritten(m, m', v, word) && HasBuffer(m)
    ensures HasBuffer(m') && Current(m') == Current(m) && SizeNow(m') == SizeNow(m)
    ensures forall q: nat, j: nat :: EntryCell(m', q, j) == EntryCell(m, q, j)
    ensures forall q: nat :: TypeAt(m', q) == TypeAt(m, q) && BlockAt(m', q) == BlockAt(m, q)
    ensures forall q: nat, t: nat :: RefersTo(m', q, t) <==> RefersTo(m, q, t)
  {
  }

  lemma OtherEntryStays(m: Memory, m': Memory, v: nat, word: nat, q: nat)
    requires Overwritten(m, m', v, word) && HasBuffer(m) && BlockOk(m, q) && EntryOk(m', q)
    requires forall t: nat :: RefersTo(m, q, t) ==> t != v
    ensures BlockOk(m', q)
    ensures BlockAt(m, q) != v ==> EntryField(m', q) == EntryField(m, q)
    ensures BlockAt(m, q) == v && !Composite(TypeAt(m, q))
        ==> EntryField(m', q) == Field(EntryField(m, q).key, TypeAt(m, q), Number(word))
  {
    hide EntryOk, Latest;
    OverwrittenCells(m, m', v, word);
    forall t: nat | RefersTo(m, q, t) ensures TextAt(m', t) == TextAt(m, t) && TextFinished(m', t) {
    }
    var pointer := Latest(m, Cell(BlockAt(m, q), 1));
    if TypeAt(m, q) == EntryBuffers.TYPE_STRING && pointer.Ref? {
      assert RefersTo(m, q, pointer.buf);
    }
    hide EntryCell, RefersTo;
  }

  lemma OverwrittenIsUnshared(m: Memory, m': Memory, v: nat, word: nat)
    requires Overwritten(m, m', v, word) && HasBuffer(m) && Unshared(m)
    ensures Unshared(m')
  {
    OverwrittenCells(m, m', v, word);
    hide SizeNow, BlockAt, RefersTo;
  }

  /** The overwrite of a scalar field's payload. */
  lemma OverwriteMeans(m: Memory, key: nat, typeId: nat, word: nat)
    requires Sound(m) && Present(m, key) && TypeNow(m, key) == Num(typeId) && !Composite(typeId)
    ensures var m' := Exec(m, [Overwrite(BlockNow(m, key), 0, word)]);
            Sound(m') && Fields(m') == Put(Fields(m), key, typeId, Number(word))
  {
    hide Shape, Runs, EntryOk, BlockOk, Unshared, EntryField, TypeAt, RefersTo, SizeNow, BlockAt, EntryCell, FindEntry;
    var v, i := BlockNow(m, key), IndexOf(Fields(m), key);
    LookupIsIndex(m, key);
    PresentEntry(m, key);
    LayoutIsShape(m);
    OverwriteRuns(m, key, word);
    RunsOne(m, Overwrite(v, 0, word));
    var m' := Act(m, Overwrite(v, 0, word));
    ShapeIsOk(m);
    OverwriteEffect(m, v, word);
    OverwrittenCells(m, m', v, word);
    OverwrittenIsUnshared(m, m', v, word);
    forall q: nat | q < SizeNow(m)
      ensures BlockOk(m', q)
      ensures Fields(m')[q] == Put(Fields(m), key, typeId, Number(word))[q]
    {
      OverwrittenAt(m, m', i, v, word, q);
    }
  }

  lemma OverwrittenAt(m: Memory, m': Memory, i: nat, v: nat, word: nat, q: nat)
    requires Sound(m) && Layout(OfObject, m') && HasBuffer(m) && Overwritten(m, m', v, word)
    requires i < SizeNow(m) && BlockAt(m, i) == v && !Composite(TypeAt(m, i)) && q < SizeNow(m) == SizeNow(m')
    ensures BlockOk(m', q)
    ensures EntryField(m', q) == if q == i then Field(EntryField(m, i).key, TypeAt(m, i), Number(word)) else EntryField(m, q)
  {
    hide Layout, EntryField, RefersTo, SizeNow, BlockAt, EntryCell, BlockOk, EntryOk;
    EntryIsOk(m', q);
    assert BlockOk(m, q);
    OtherEntryStays(m, m', v, word, q);
    assert q < i || q == i || i < q;
  }

  // ---- Capacities --------------------------------------------------------------------------

  lemma ReplacedCapacity(m: Memory, m': Memory, rows: nat, count: nat, contents: seq<Value>)
    requires Replaced(m, m', rows * m.rowCells, count, contents) && m.rowCells > 0
    ensures CapacityNow(m') == rows
  {
    hide Shape;
    RowsDivide(rows, m.rowCells);
  }

  lemma RoomCapacity(m: Memory, rows: nat)
    requires Shape(m) && m.rowCells > 0 && m.extraCells == 0 && WholeRows(m) && CapacityNow(m) < rows
    ensures CapacityNow(Exec(m, Room(m, rows))) == if SizeNow(m) < CapacityNow(m) then CapacityNow(m) else rows
  {
    RoomRuns(m, rows);
    if Full(m) {
      ReplacedCapacity(m, Exec(m, Room(m, rows)), rows, SizeNow(m), CurrentCells(m, Readable(m, SizeNow(m))));
    }
  }

  lemma CountedCapacity(m: Memory, m': Memory, n: nat, from: nat, w: nat)
    requires HasBuffer(m) && RowCounted(m, m', Current(m), n, from, w)
    ensures CapacityNow(m') == CapacityNow(m)
  {
    hide Shape;
  }

  lemma AddCapacity(m: Memory, key: nat, typeId: nat, payload: seq<Value>, text: seq<Value>)
    requires Layout(OfObject, m) && Numbers(payload) && payload != [] && Numbers(text)
    ensures CapacityNow(Exec(m, AddProgram(m, key, typeId, payload, text))) == WithRoom(SizeNow(m), CapacityNow(m), 4)
  {
    hide Shape, Room, Runs, Exec, AddEntry, HasRoom, Covered, QuietProgram, Readable;
    var rows := EntryBuffers.GrownCapacity(CapacityNow(m));
    var room := Room(m, rows);
    var m1 := ObjectRoomRuns(m);
    LayoutIsShape(m);
    RoomCapacity(m, rows);
    var b, n, head := Current(m1), SizeNow(m1), Head(key, typeId);
    var from := Readable(m1, n);
    AddEntryRuns(m1, b, n, from, head, payload, text);
    var add := AddEntry(b, n, from, |m1.bufs|, head, payload, text);
    RunsAppend(m, room, add);
    CountedCapacity(m1, Exec(m1, add), n, from, 4);
  }

  lemma RemoveCapacity(m: Memory, i: nat)
    requires Layout(OfObject, m) && HasBuffer(m) && i < SizeNow(m)
    ensures CapacityNow(Exec(m, RemoveProgram(m, i))) == SizeNow(m) - 1
  {
    hide Shape, Runs, Exec, Replace;
    var n, all := SizeNow(m), CurrentCells(m, Readable(m, SizeNow(m)));
    LayoutIsShape(m);
    FourCells(m, i, n);
    FourCells(m, i + 1, n);
    if n == 1 {
      NullRuns(m);
    } else {
      RemoveRuns(m, i);
      var contents := all[..Readable(m, i)] + all[Readable(m, i + 1)..];
      ReplacedCapacity(m, Exec(m, RemoveProgram(m, i)), n - 1, n - 1, contents);
    }
  }

  // ---- Every call --------------------------------------------------------------------------

  lemma AddedMeans(m: Memory, o: Meaning, key: nat, typeId: nat, payload: seq<Value>, text: seq<Value>, content: Content)
    requires Represents(OfObject, m, o) && Stores(typeId, payload, text, content) && !Present(m, key)
    ensures Represents(OfObject, Exec(m, AddProgram(m, key, typeId, payload, text)), Added(o, key, typeId, content))
  {
    hide Layout, BlockOk, Unshared, AddProgram, Exec, CapacityNow, SizeNow;
    LookupIsIndex(m, key);
    AddMeans(m, key, typeId, payload, text, content);
    AddCapacity(m, key, typeId, payload, text);
    assert |Fields(m)| == SizeNow(m);
  }

  lemma SetScalarMeans(m: Memory, o: Meaning, c: Call)
    requires Represents(OfObject, m, o) && Fits(OfObject, m, c) && c.SetScalar?
    ensures Represents(OfObject, Exec(m, Program(m, c)), Meant(o, c))
  {
    hide Layout, BlockOk, Unshared, AddProgram, CapacityNow, FindEntry, EntryField;
    LookupIsIndex(m, c.key);
    if !Present(m, c.key) {
      AddedMeans(m, o, c.key, c.typeId, [Num(c.word)], [], Number(c.word));
    } else if TypeNow(m, c.key) == Num(c.typeId) {
      OverwriteMeans(m, c.key, c.typeId, c.word);
      OverwriteCapacity(m, c.key, c.word);
    }
  }

  lemma ObjectCallMeans(m: Memory, o: Meaning, c: Call)
    requires Represents(OfObject, m, o) && Fits(OfObject, m, c)
    ensures Represents(OfObject, Exec(m, Program(m, c)), Meant(o, c))
  {
    hide Layout, BlockOk, Unshared, AddProgram, RemoveProgram, CapacityNow, FindEntry, EntryField;
    match c
    case SetScalar(_, _, _) => SetScalarMeans(m, o, c);
    case SetText(key, str) =>
      LookupIsIndex(m, key);
      if !Present(m, key) {
        AddedMeans(m, o, key, EntryBuffers.TYPE_STRING, Zeros(2), TextCells(str), Chars(str));
      }
    case EnsureObject(key) =>
      LookupIsIndex(m, key);
      if !Present(m, key) {
        AddedMeans(m, o, key, EntryBuffers.TYPE_OBJECT, Zeros(2), [], Nested(0));
      }
    case Remove(key) =>
      LookupIsIndex(m, key);
      if Present(m, key) {
        PresentEntry(m, key);
        RemoveMeans(m, FindEntry(m, key, 0));
        RemoveCapacity(m, FindEntry(m, key, 0));
      }
  }

  lemma OverwriteCapacity(m: Memory, key: nat, word: nat)
    requires Layout(OfObject, m) && Present(m, key)
    ensures CapacityNow(Exec(m, [Overwrite(BlockNow(m, key), 0, word)])) == CapacityNow(m)
  {
    PresentEntry(m, key);
    LayoutIsShape(m);
    OverwriteRuns(m, key, word);
    RunsOne(m, Overwrite(BlockNow(m, key), 0, word));
    ShapeIsOk(m);
    OverwriteEffect(m, BlockNow(m, key), word);
  }

  lemma StringCallMeans(m: Memory, str: seq<nat>)
    requires Layout(OfString, m)
    ensures Represents(OfString, Exec(m, Program(m, SetString(str))), OneString(str))
  {
    hide Replace, HoldsString, Layout, Exec, Runs, Shape;
    SetStringRuns(m, str);
    StringLayout(m);
    if str == [] {
      NullRuns(m);
      NothingHeld(Exec(m, [PublishNull]));
    } else {
      StringSetRuns(m, str);
      ReplacedString(m, Exec(m, Program(m, SetString(str))), str);
    }
  }

  lemma StringLayout(m: Memory)
    requires Layout(OfString, m)
    ensures Shape(m) && m.rowCells == 1 && m.extraCells == 1
  {
  }

  lemma NothingHeld(m: Memory)
    requires !HasBuffer(m)
    ensures HoldsString(m, [])
  {
  }

  lemma ReplacedString(m: Memory, m': Memory, str: seq<nat>)
    requires str != [] && Replaced(m, m', |str| + 1, |str|, WriterPrograms.Bytes(str + [0]))
    ensures HoldsString(m', str)
  {
    hide Shape, Latest, Messages;
    var cells := WriterPrograms.Bytes(str + [0]);
    assert HasBuffer(m') && Current(m') == |m.bufs| && SizeNow(m') == |str|;
    forall i: nat | i < |str| ensures Latest(m', Cell(|m.bufs|, i)) == Num(str[i]) {
      assert cells[i] == Num(str[i]);
    }
    assert cells[|str|] == Num(0);
  }

  lemma ArrayCallMeans(m: Memory, o: Meaning, c: Call)
    requires Represents(OfArray, m, o) && Fits(OfArray, m, c)
    ensures Represents(OfArray, Exec(m, Program(m, c)), Meant(o, c))
  {
    match c
    case Reserve(rows) =>
      ReserveRuns(m, rows);
      ReserveContents(m, rows);
      if rows > CapacityNow(m) {
        SizeIsBelowCapacity(m);
        EnlargeRuns(m, rows);
      }
    case Push(row) =>
      PushRuns(m, row);
      PushContents(m, row);
      PushCapacity(m, row);
      BytesAppend(o.numbers, row);
    case ClearArray =>
      ClearRuns(m);
      ClearMeans(m);
  }

  lemma PushCapacity(m: Memory, row: seq<nat>)
    requires Layout(OfArray, m) && |row| == m.rowCells
    ensures CapacityNow(Exec(m, PushProgram(m, row))) == WithRoom(SizeNow(m), CapacityNow(m), 8)
  {
    hide Shape, AppendRow, Runs, Copyable, RefsFit, Room, Exec;
    var rows := ArrayBuffers.GrownCapacity(CapacityNow(m));
    var m1 := RoomContents(m, rows);
    RoomCapacity(m, rows);
    var b, n, values := Current(m1), SizeNow(m1), WriterPrograms.Bytes(row);
    var from := Readable(m1, n);
    NumbersFit(m1, b, from, values);
    AppendRowRuns(m1, b, n, from, values);
    RunsAppend(m, Room(m, rows), AppendRow(b, n, from, values));
    CountedCapacity(m1, Exec(m1, AppendRow(b, n, from, values)), n, from, |row|);
  }

  lemma ClearMeans(m: Memory)
    requires Layout(OfArray, m)
    ensures var m' := Exec(m, Program(m, ClearArray));
            SizeNow(m') == 0 && Contents(m') == [] && CapacityNow(m') == CapacityNow(m)
  {
    if HasBuffer(m) {
      RunsOne(m, Clear);
      CurrentIsPublished(m);
      StoresAreLegal(m, Clear);
      StoreLatest(m, Clear);
      StoreEffect(m, Clear);
    }
  }

  /** Each call leaves in memory what it means. */
  lemma CallMeans(kind: Kind, m: Memory, o: Meaning, c: Call)
    requires Represents(kind, m, o) && Fits(kind, m, c)
    ensures Represents(kind, Exec(m, Program(m, c)), Meant(o, c))
  {
    hide Program, Exec, Layout, Sound;
    match kind
    case OfString => StringCallMeans(m, c.str);
    case OfArray => ArrayCallMeans(m, o, c);
    case OfObject => ObjectCallMeans(m, o, c);
  }

  function AllMeant(o: Meaning, calls: seq<Call>): Meaning
    decreases |calls|
  {
    if calls == [] then o else AllMeant(Meant(o, calls[0]), calls[1..])
  }

  lemma RepresentsHasLayout(kind: Kind, m: Memory, o: Meaning)
    requires Represents(kind, m, o)
    ensures Layout(kind, m)
  {
  }

  lemma {:induction false} SequenceMeans(kind: Kind, m: Memory, o: Meaning, calls: seq<Call>)
    requires Represents(kind, m, o) && AllFit(kind, m, calls)
    ensures Represents(kind, Exec(m, AllPrograms(m, calls)), AllMeant(o, calls))
    decreases |calls|
  {
    hide Represents, Layout, Program, Meant, AllFit;
    if calls != [] {
      RepresentsHasLayout(kind, m, o);
      var m1 := FirstOfSequence(kind, m, calls);
      CallMeans(kind, m, o, calls[0]);
      SequenceMeans(kind, m1, Meant(o, calls[0]), calls[1..]);
      SequenceRuns(kind, m1, calls[1..]);
      RunsAppend(m, Program(m, calls[0]), AllPrograms(m1, calls[1..]));
    }
  }

  /** Any sequence of calls on a zeroed slot, under any schedule of their stores and of any readers. */
  lemma EveryScheduleMeans(kind: Kind, rowCells: nat, calls: seq<Call>, steps: seq<Step>)
    requires RowSizeOk(kind, rowCells) && AllFit(kind, ZeroedSlot(kind, rowCells).memory, calls)
    requires Schedule(ZeroedSlot(kind, rowCells), steps, AllPrograms(ZeroedSlot(kind, rowCells).memory, calls))
    ensures Represents(kind, After(ZeroedSlot(kind, rowCells), steps).memory, AllMeant(Nothing(kind), calls))
  {
    var s := ZeroedSlot(kind, rowCells);
    ZeroedSlotIsInv(kind, rowCells);
    ZeroedSlotHasLayout(kind, rowCells);
    assert Represents(kind, s.memory, Nothing(kind));
    SequenceMeans(kind, s.memory, Nothing(kind), calls);
    ScheduleEndsAt(s, steps, AllPrograms(s.memory, calls));
  }
}
