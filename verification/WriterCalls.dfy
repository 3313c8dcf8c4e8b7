/**
 The writer's calls as store sequences, chosen by what memory holds. From a zeroed slot on, every sequence
 of calls runs within the publication discipline, array clears and in-place overwrites apart.
 */
module WriterCalls {
  import ArrayBuffers
  import EntryBuffers
  import opened ReleaseAcquire
  import opened MemoryShape
  import opened WriterPrograms

  datatype Kind = OfString | OfArray | OfObject

  datatype Call =
    | SetString(str: seq<nat>)
    | Reserve(rows: nat)
    | Push(row: seq<nat>)                                // prepare, fill, commit
    | ClearArray
    | SetScalar(key: nat, typeId: nat, word: nat)
    | SetText(key: nat, str: seq<nat>)
    | EnsureObject(key: nat)
    | Remove(key: nat)

  /** A slot holds a value of one type; an array's rows have one size. */
  predicate Fits(kind: Kind, m: Memory, c: Call) {
    match c
    case SetString(_) => kind.OfString?
    case Reserve(_) => kind.OfArray?
    case Push(row) => kind.OfArray? && |row| == m.rowCells
    case ClearArray => kind.OfArray?
    case SetScalar(_, typeId, _) =>
      kind.OfObject? && typeId != EntryBuffers.TYPE_STRING && typeId != EntryBuffers.TYPE_OBJECT
    case SetText(_, _) => kind.OfObject?
    case EnsureObject(_) => kind.OfObject?
    case Remove(_) => kind.OfObject?
  }

  // ---- What the writer looks up ------------------------------------------------------------

  predicate HasBuffer(m: Memory) {
    Latest(m, Slot).Ref? && Latest(m, Slot).buf < |m.bufs|
  }

  function Current(m: Memory): nat {
    if HasBuffer(m) then Latest(m, Slot).buf else 0
  }

  function SizeNow(m: Memory): nat {
    if HasBuffer(m) then CountNow(m, Current(m)) else 0
  }

  /** The number of whole rows in so many cells. */
  function RowsIn(cells: nat, w: nat): nat {
    if w == 0 || cells < w then 0 else 1 + RowsIn(cells - w, w)
  }

  function CapacityNow(m: Memory): nat {
    if HasBuffer(m) then RowsIn(m.bufs[Current(m)].cells, m.rowCells) else 0
  }

  function Full(m: Memory): bool {
    SizeNow(m) >= CapacityNow(m)
  }

  /** An entry is a row of four cells: hash, type, size, reference to the value block. */
  function EntryCell(m: Memory, q: nat, j: nat): Value {
    Latest(m, Cell(Current(m), Readable(m, q) + j))
  }

  function FindEntry(m: Memory, key: nat, q: nat): (r: nat)
    ensures r < SizeNow(m) ==> EntryCell(m, r, 0) == Num(key)
    decreases SizeNow(m) - q
  {
    if q >= SizeNow(m) then SizeNow(m)
    else if EntryCell(m, q, 0) == Num(key) then q
    else FindEntry(m, key, q + 1)
  }

  predicate Present(m: Memory, key: nat) {
    FindEntry(m, key, 0) < SizeNow(m)
  }

  function TypeNow(m: Memory, key: nat): Value {
    EntryCell(m, FindEntry(m, key, 0), 1)
  }

  function BlockNow(m: Memory, key: nat): nat {
    var v := EntryCell(m, FindEntry(m, key, 0), 3);
    if v.Ref? then v.buf else 0
  }

  // ---- The store sequences -----------------------------------------------------------------

  /** Build a larger buffer with the counted rows, and publish it. */
  ghost function Enlarge(m: Memory, rows: nat): seq<Action> {
    Replace(|m.bufs|, rows * m.rowCells, true, SizeNow(m), CurrentCells(m, Readable(m, SizeNow(m))))
  }

  ghost function Room(m: Memory, rows: nat): seq<Action> {
    if Full(m) then Enlarge(m, rows) else []
  }

  ghost function PushProgram(m: Memory, row: seq<nat>): seq<Action> {
    var room := Room(m, ArrayBuffers.GrownCapacity(CapacityNow(m)));
    var m1 := Exec(m, room);
    room + AppendRow(Current(m1), SizeNow(m1), Readable(m1, SizeNow(m1)), Bytes(row))
  }

  function Head(key: nat, typeId: nat): (head: seq<Value>)
    ensures |head| == 3 && Numbers(head)
  {
    Bytes([key, typeId, EntryBuffers.BlockBytes(typeId)])
  }

  /** A field whose block holds `payload` and, unless `text` is empty, refers to a text. */
  function AddEntry(b: nat, n: nat, from: nat, v: nat, head: seq<Value>, payload: seq<Value>, text: seq<Value>): seq<Action> {
    if text == [] then AddScalar(b, n, from, v, head, payload) else AddString(b, n, from, v, head, text)
  }

  ghost function AddProgram(m: Memory, key: nat, typeId: nat, payload: seq<Value>, text: seq<Value>): seq<Action> {
    var room := Room(m, EntryBuffers.GrownCapacity(CapacityNow(m)));
    var m1 := Exec(m, room);
    room + AddEntry(Current(m1), SizeNow(m1), Readable(m1, SizeNow(m1)), |m1.bufs|, Head(key, typeId), payload, text)
  }

  ghost function RemoveProgram(m: Memory, q: nat): seq<Action> {
    var n, all := SizeNow(m), CurrentCells(m, Readable(m, SizeNow(m)));
    if n <= 1 || Readable(m, q + 1) > |all| || Readable(m, q) > |all| then [PublishNull]
    else Replace(|m.bufs|, Readable(m, n - 1), false, n - 1, all[..Readable(m, q)] + all[Readable(m, q + 1)..])
  }

  /** A text as stored: its length, its bytes and a NUL; nothing for the empty string. */
  function TextCells(str: seq<nat>): seq<Value> {
    if str == [] then [] else Bytes([|str|] + str + [0])
  }

  /** An existing string or object field has a slot of its own, so a call that finds one stores nothing
      here; nor does a call that finds another type, for then the process is gone. */
  ghost function Program(m: Memory, c: Call): seq<Action> {
    match c
    case SetString(str) =>
      if str == [] then [PublishNull] else Replace(|m.bufs|, |str| + 1, false, |str|, Bytes(str + [0]))
    case Reserve(rows) => if rows <= CapacityNow(m) then [] else Enlarge(m, rows)
    case Push(row) => PushProgram(m, row)
    case ClearArray => if HasBuffer(m) then [Clear] else []
    case SetScalar(key, typeId, word) =>
      if !Present(m, key) then AddProgram(m, key, typeId, [Num(word)], [])
      else if TypeNow(m, key) == Num(typeId) then [Overwrite(BlockNow(m, key), 0, word)]
      else []
    case SetText(key, str) =>
      if Present(m, key) then [] else AddProgram(m, key, EntryBuffers.TYPE_STRING, Zeros(2), TextCells(str))
    case EnsureObject(key) =>
      if Present(m, key) then [] else AddProgram(m, key, EntryBuffers.TYPE_OBJECT, Zeros(2), [])
    case Remove(key) =>
      if Present(m, key) then RemoveProgram(m, FindEntry(m, key, 0)) else []
  }

  // ---- What the calls rely on --------------------------------------------------------------

  ghost predicate WholeRows(m: Memory) {
    HasBuffer(m) ==> exists cap: nat :: m.bufs[Current(m)].cells == cap * m.rowCells
  }

  /** The entry refers to a block with a number in front. */
  ghost predicate EntryOk(m: Memory, q: nat) {
    && EntryCell(m, q, 0).Num? && EntryCell(m, q, 1).Num? && EntryCell(m, q, 2).Num?
    && EntryCell(m, q, 3).Ref?
    && var v := EntryCell(m, q, 3).buf;
    && v < |m.bufs| && m.bufs[v].cells > 0 && m.bufs[v].sealed && Latest(m, Cell(v, 0)).Num?
  }

  ghost predicate EntriesOk(m: Memory) {
    forall q: nat :: q < SizeNow(m) ==> EntryOk(m, q)
  }

  /** The buffer has never counted more than now. */
  ghost predicate CalmAt(m: Memory, b: nat) {
    forall j: nat :: 1 <= j < |Messages(m, Count(b))| ==> CountAt(m, b, j) <= CountNow(m, b)
  }

  ghost predicate Calm(m: Memory) {
    HasBuffer(m) ==> CalmAt(m, Current(m))
  }

  ghost predicate Layout(kind: Kind, m: Memory) {
    && Shape(m)
    && match kind
       case OfString => m.rowCells == 1 && m.extraCells == 1 && Calm(m)
       case OfArray => m.rowCells > 0 && m.extraCells == 0 && WholeRows(m)
       case OfObject => m.rowCells == 4 && m.extraCells == 0 && WholeRows(m) && EntriesOk(m) && Calm(m)
  }

  // ---- Programs in general -----------------------------------------------------------------

  lemma {:induction false} RunsKeepShape(m: Memory, program: seq<Action>)
    requires Shape(m) && Runs(m, program)
    ensures var m' := Exec(m, program); Shape(m') && m'.rowCells == m.rowCells && m'.extraCells == m.extraCells
    decreases |program|
  {
    if program != [] {
      ActKeepsShape(m, program[0]);
      ActExtends(m, program[0]);
      RunsKeepShape(Act(m, program[0]), program[1..]);
    }
  }

  predicate NoClear(program: seq<Action>) {
    forall k :: 0 <= k < |program| ==> !program[k].Clear?
  }

  predicate QuietProgram(program: seq<Action>) {
    forall k :: 0 <= k < |program| ==> !program[k].Clear? && !program[k].Overwrite?
  }

  lemma QuietAppend(front: seq<Action>, back: seq<Action>)
    requires QuietProgram(front) && QuietProgram(back)
    ensures QuietProgram(front + back)
  {
  }

  lemma CountAtStays(m: Memory, m': Memory, b: nat)
    requires Messages(m', Count(b)) == Messages(m, Count(b))
    ensures CountNow(m', b) == CountNow(m, b) && forall j: nat :: CountAt(m', b, j) == CountAt(m, b, j)
  {
  }

  lemma ActStaysCalm(m: Memory, a: Action)
    requires Shape(m) && Allowed(m, a) && !a.Clear? && Calm(m)
    ensures Calm(Act(m, a))
  {
    var m' := Act(m, a);
    ActKeepsShape(m, a);
    if HasBuffer(m') {
      var b := Current(m');
      CurrentIsPublished(m');
      CalmAtStays(m, a, b);
    }
  }

  lemma CalmAtStays(m: Memory, a: Action, b: nat)
    requires Shape(m) && Allowed(m, a) && !a.Clear? && Latest(Act(m, a), Slot) == Ref(b)
    requires Latest(m, Slot) == Ref(b) ==> CalmAt(m, b)
    ensures CalmAt(Act(m, a), b)
  {
    forall j: nat | 1 <= j < |Messages(Act(m, a), Count(b))| ensures CountAt(Act(m, a), b, j) <= CountNow(Act(m, a), b) {
      CountBelow(m, a, b, j);
    }
  }

  lemma CountBelow(m: Memory, a: Action, b: nat, j: nat)
    requires Shape(m) && Allowed(m, a) && !a.Clear? && (Latest(m, Slot) == Ref(b) ==> CalmAt(m, b))
    requires Latest(Act(m, a), Slot) == Ref(b) && 1 <= j < |Messages(Act(m, a), Count(b))|
    ensures CountAt(Act(m, a), b, j) <= CountNow(Act(m, a), b)
  {
    hide Act, Allowed;
    var m' := Act(m, a);
    if a.Commit? && Latest(m, Slot) == Ref(b) {
      CommittedIsMost(m, a.n, b, j);
    } else {
      CurrentCountStays(m, a, b);
      CountAtStays(m, m', b);
      if !a.Publish? {
        assert CountAt(m, b, j) <= CountNow(m, b);
      } else {
        assert CountAt(m', b, 1) == CountNow(m', b);
      }
    }
  }

  lemma CurrentCountStays(m: Memory, a: Action, b: nat)
    requires Shape(m) && Allowed(m, a) && !a.Clear? && Latest(Act(m, a), Slot) == Ref(b)
    requires !(a.Commit? && Latest(m, Slot) == Ref(b))
    ensures Messages(Act(m, a), Count(b)) == Messages(m, Count(b))
    ensures if a.Publish? then |Messages(m, Count(b))| == 2 else Latest(m, Slot) == Ref(b)
  {
    var m' := Act(m, a);
    if a.Alloc? {
      AllocEffect(m, a.cells, Slot);
      AllocEffect(m, a.cells, Count(b));
      assert Allocated(m, Slot);
      CurrentIsPublished(m);
    } else {
      StoresAreLegal(m, a);
      StoreLatest(m, a);
      if !a.Publish? {
        CurrentIsPublished(m);
      }
    }
  }

  lemma CommittedIsMost(m: Memory, n: nat, b: nat, j: nat)
    requires Shape(m) && Allowed(m, Commit(n)) && CalmAt(m, b) && Latest(m, Slot) == Ref(b)
    requires 1 <= j < |Messages(Act(m, Commit(n)), Count(b))|
    ensures CountAt(Act(m, Commit(n)), b, j) <= CountNow(Act(m, Commit(n)), b)
  {
    CurrentIsPublished(m);
    NewMessage(m, Commit(n), Count(b), j);
    StoreLatest(m, Commit(n));
    if j < |Messages(m, Count(b))| {
      assert CountAt(m, b, j) <= CountNow(m, b);
      assert CountAt(Act(m, Commit(n)), b, j) == CountAt(m, b, j);
    }
  }

  lemma {:induction false} RunsStayCalm(m: Memory, program: seq<Action>)
    requires Shape(m) && Runs(m, program) && NoClear(program) && Calm(m)
    ensures Calm(Exec(m, program))
    decreases |program|
  {
    if program != [] {
      ActKeepsShape(m, program[0]);
      ActStaysCalm(m, program[0]);
      RunsStayCalm(Act(m, program[0]), program[1..]);
    }
  }

  lemma {:induction false} WriteAllIsQuiet(b: nat, from: nat, values: seq<Value>)
    ensures QuietProgram(WriteAll(b, from, values))
    decreases |values|
  {
    if values != [] {
      WriteAllIsQuiet(b, from + 1, values[1..]);
    }
  }

  lemma ReplaceIsQuiet(b: nat, cells: nat, zeroed: bool, count: nat, contents: seq<Value>)
    ensures QuietProgram(Replace(b, cells, zeroed, count, contents))
  {
    WriteAllIsQuiet(b, 0, if zeroed then Zeros(cells) else []);
    WriteAllIsQuiet(b, 0, contents);
  }

  lemma AppendIsQuiet(b: nat, n: nat, from: nat, row: seq<Value>)
    ensures QuietProgram(AppendRow(b, n, from, row))
  {
    WriteAllIsQuiet(b, from, Zeros(|row|));
    WriteAllIsQuiet(b, from, row);
  }

  lemma AddIsQuiet(b: nat, n: nat, from: nat, v: nat, head: seq<Value>, payload: seq<Value>)
    ensures QuietProgram(AddScalar(b, n, from, v, head, payload)) && QuietProgram(AddString(b, n, from, v, head, payload))
  {
    WriteAllIsQuiet(b, from, head);
    WriteAllIsQuiet(v, 0, payload);
    WriteAllIsQuiet(v, 0, Zeros(2));
    WriteAllIsQuiet(v + 1, 0, payload);
  }

  // ---- Room --------------------------------------------------------------------------------

  lemma {:induction false} RowsDivide(cap: nat, w: nat)
    requires w > 0
    ensures RowsIn(cap * w, w) == cap
  {
    if cap > 0 {
      assert cap * w == (cap - 1) * w + w;
      RowsDivide(cap - 1, w);
    }
  }

  lemma CapacityIs(m: Memory)
    requires WholeRows(m) && HasBuffer(m) && m.rowCells > 0
    ensures m.bufs[Current(m)].cells == CapacityNow(m) * m.rowCells
  {
    var cap: nat :| m.bufs[Current(m)].cells == cap * m.rowCells;
    RowsDivide(cap, m.rowCells);
  }

  lemma SmallerRows(n: nat, k: nat, w: nat)
    requires w > 0
    ensures n * w <= k * w <==> n <= k
  {
    if n <= k {
      assert k * w == n * w + (k - n) * w;
    } else {
      assert n * w == k * w + (n - k) * w;
    }
  }

  lemma SizeIsBelowCapacity(m: Memory)
    requires Shape(m) && WholeRows(m) && m.rowCells > 0 && m.extraCells == 0
    ensures SizeNow(m) <= CapacityNow(m)
    ensures HasBuffer(m) ==> forall j: nat :: 1 <= j < |Messages(m, Count(Current(m)))| ==> CountAt(m, Current(m), j) <= CapacityNow(m)
  {
    if HasBuffer(m) {
      var b := Current(m);
      CurrentIsPublished(m);
      CapacityIs(m);
      forall j: nat | 1 <= j < |Messages(m, Count(b))| ensures CountAt(m, b, j) <= CapacityNow(m) {
        assert CountOk(m, b, j);
        SmallerRows(CountAt(m, b, j), CapacityNow(m), m.rowCells);
      }
      assert CountAt(m, b, |Messages(m, Count(b))| - 1) == CountNow(m, b);
    }
  }

  /** Enlarging runs, and keeps everything but the slot. */
  lemma EnlargeRuns(m: Memory, rows: nat)
    requires Shape(m) && m.rowCells > 0 && m.extraCells == 0 && SizeNow(m) <= rows
    ensures Runs(m, Enlarge(m, rows)) && QuietProgram(Enlarge(m, rows))
    ensures var m', n := Exec(m, Enlarge(m, rows)), SizeNow(m);
            && Replaced(m, m', rows * m.rowCells, n, CurrentCells(m, Readable(m, n)))
            && WholeRows(m') && CapacityNow(m') == rows && SizeNow(m') == n && Current(m') == |m.bufs| && HasBuffer(m')
  {
    var n := SizeNow(m);
    if Latest(m, Slot).Ref? {
      CurrentIsPublished(m);
      GrowRuns(m, rows);
    } else {
      assert CurrentCells(m, Readable(m, n)) == [];
      FirstBufferRuns(m, rows);
    }
    RowsDivide(rows, m.rowCells);
    ReplaceIsQuiet(|m.bufs|, rows * m.rowCells, true, n, CurrentCells(m, Readable(m, n)));
  }

  lemma RoomRuns(m: Memory, rows: nat)
    requires Shape(m) && m.rowCells > 0 && m.extraCells == 0 && WholeRows(m) && CapacityNow(m) < rows
    ensures Runs(m, Room(m, rows)) && QuietProgram(Room(m, rows))
    ensures var m', n := Exec(m, Room(m, rows)), SizeNow(m);
            && HasBuffer(m') && SizeNow(m') == n && WholeRows(m') && Shape(m')
            && m'.rowCells == m.rowCells && m'.extraCells == 0
            && HasRoom(m', Current(m'), n, Readable(m', n), m'.rowCells)
            && (if Full(m) then Replaced(m, m', rows * m.rowCells, n, CurrentCells(m, Readable(m, n))) else m' == m)
            && (Full(m) || Calm(m) ==> Calm(m'))
  {
    SizeIsBelowCapacity(m);
    if Full(m) {
      EnlargeRuns(m, rows);
      OneCountIsCalm(m, Exec(m, Room(m, rows)));
    }
    var m', n := Exec(m, Room(m, rows)), SizeNow(m);
    RoomForOne(m');
  }

  lemma RoomForOne(m: Memory)
    requires Shape(m) && HasBuffer(m) && WholeRows(m) && m.rowCells > 0 && m.extraCells == 0 && !Full(m)
    ensures HasRoom(m, Current(m), SizeNow(m), Readable(m, SizeNow(m)), m.rowCells)
  {
    var n, w := SizeNow(m), m.rowCells;
    CapacityIs(m);
    SmallerRows(n + 1, CapacityNow(m), w);
    assert (n + 1) * w == n * w + w;
  }

  /** A buffer that was built with more capacity than the old one has been full of has one count. */
  lemma OneCountIsCalm(m: Memory, m': Memory)
    requires Shape(m) && Shape(m') && Latest(m', Slot) == Ref(|m.bufs|) && |m.bufs| < |m'.bufs|
    requires |Messages(m', Count(|m.bufs|))| == 2
    ensures Calm(m')
  {
  }

  // ---- Arrays ------------------------------------------------------------------------------

  lemma NumbersFit(m: Memory, b: nat, from: nat, values: seq<Value>)
    requires Numbers(values)
    ensures Copyable(m, b, values) && RefsFit(m, b, from, values)
  {
  }

  lemma ReserveRuns(m: Memory, rows: nat)
    requires Layout(OfArray, m)
    ensures var program := Program(m, Reserve(rows));
            Runs(m, program) && QuietProgram(program) && Layout(OfArray, Exec(m, program))
  {
    SizeIsBelowCapacity(m);
    if rows > CapacityNow(m) {
      EnlargeRuns(m, rows);
    }
  }

  lemma PushRuns(m: Memory, row: seq<nat>)
    requires Layout(OfArray, m) && |row| == m.rowCells
    ensures Runs(m, PushProgram(m, row)) && Layout(OfArray, Exec(m, PushProgram(m, row)))
    ensures QuietProgram(PushProgram(m, row))
    ensures HasBuffer(Exec(m, PushProgram(m, row))) && SizeNow(Exec(m, PushProgram(m, row))) == SizeNow(m) + 1
  {
    hide Shape, Room, AppendRow, Runs, Exec, Copyable, RefsFit, HasRoom;
    var rows := ArrayBuffers.GrownCapacity(CapacityNow(m));
    var room, m1 := Room(m, rows), Exec(m, Room(m, rows));
    RoomRuns(m, rows);
    var b, n, from := Current(m1), SizeNow(m1), Readable(m1, SizeNow(m1));
    NumbersFit(m1, b, from, Bytes(row));
    AppendRowRuns(m1, b, n, from, Bytes(row));
    AppendIsQuiet(b, n, from, Bytes(row));
    RunsAppend(m, room, AppendRow(b, n, from, Bytes(row)));
    PushedLayout(m1, Exec(m, PushProgram(m, row)), n, from, |row|);
  }

  lemma PushedLayout(m: Memory, m': Memory, n: nat, from: nat, w: nat)
    requires HasBuffer(m) && WholeRows(m) && m.rowCells > 0 && m.extraCells == 0 && RowCounted(m, m', Current(m), n, from, w)
    ensures Layout(OfArray, m') && HasBuffer(m') && SizeNow(m') == n + 1
  {
    hide Shape;
    var cap: nat :| m.bufs[Current(m)].cells == cap * m.rowCells;
    assert m'.bufs[Current(m')].cells == cap * m'.rowCells;
  }

  lemma ClearRuns(m: Memory)
    requires Layout(OfArray, m)
    ensures var program := Program(m, ClearArray); Runs(m, program) && Layout(OfArray, Exec(m, program))
  {
    if HasBuffer(m) {
      RunsOne(m, Clear);
      ActKeepsShape(m, Clear);
      StoresAreLegal(m, Clear);
      StoreLatest(m, Clear);
    }
  }

  // ---- Objects -----------------------------------------------------------------------------

  /** Entry q' of the old memory is entry q of the new one, and its block is as it was. */
  lemma EntryMoves(m: Memory, m': Memory, q: nat, q': nat)
    requires Shape(m) && EntryOk(m, q') && forall j: nat :: j < 4 ==> EntryCell(m', q, j) == EntryCell(m, q', j)
    requires |m.bufs| <= |m'.bufs| && forall k: nat :: k < |m.bufs| ==> m'.bufs[k] == m.bufs[k]
    requires var v := EntryCell(m, q', 3).buf; Messages(m', Cell(v, 0)) == Messages(m, Cell(v, 0))
    ensures EntryOk(m', q)
  {
  }

  lemma BlockIsOld(m: Memory, q: nat)
    requires Shape(m) && EntryOk(m, q) && HasBuffer(m)
    ensures var v := EntryCell(m, q, 3).buf; Cell(v, 0) in m.log && v != Current(m)
  {
    CurrentIsPublished(m);
    var v := EntryCell(m, q, 3).buf;
    assert Allocated(m, Cell(v, 0)) && BufferOk(m, v);
  }

  /** The contents of the new buffer, row by row. */
  ghost predicate RowIs(m: Memory, contents: seq<Value>, q: nat, q': nat) {
    && Readable(m, q) + 4 <= |contents|
    && forall j: nat :: j < 4 ==> contents[Readable(m, q) + j] == EntryCell(m, q', j)
  }

  lemma ReplacedEntry(m: Memory, m': Memory, cells: nat, count: nat, contents: seq<Value>, q: nat, q': nat)
    requires Shape(m) && HasBuffer(m) && Replaced(m, m', cells, count, contents)
    requires EntryOk(m, q') && RowIs(m, contents, q, q')
    ensures EntryOk(m', q)
  {
    hide Shape;
    BlockIsOld(m, q');
    forall j: nat | j < 4 ensures EntryCell(m', q, j) == EntryCell(m, q', j) {
      assert Latest(m', Cell(|m.bufs|, Readable(m, q) + j)) == contents[Readable(m, q) + j];
    }
    EntryMoves(m, m', q, q');
  }

  lemma FourCells(m: Memory, q: nat, n: nat)
    requires m.rowCells == 4 && m.extraCells == 0
    ensures Readable(m, q) == 4 * q && (q < n ==> Readable(m, q) + 4 <= Readable(m, n))
  {
  }

  lemma EnlargedEntries(m: Memory, m': Memory, rows: nat)
    requires Layout(OfObject, m) && SizeNow(m') == SizeNow(m)
    requires Replaced(m, m', rows * 4, SizeNow(m), CurrentCells(m, Readable(m, SizeNow(m))))
    ensures EntriesOk(m')
  {
    var n := SizeNow(m);
    var contents := CurrentCells(m, Readable(m, n));
    forall q: nat | q < n ensures EntryOk(m', q) {
      FourCells(m, q, n);
      assert RowIs(m, contents, q, q);
      ReplacedEntry(m, m', rows * 4, n, contents, q, q);
    }
  }

  /** Rows beyond the current count of a calm buffer were never readable. */
  lemma NextRowIsUncovered(m: Memory, i: nat)
    requires Shape(m) && Calm(m) && HasBuffer(m) && Readable(m, SizeNow(m)) <= i
    ensures !Covered(m, Current(m), i)
  {
    if Covered(m, Current(m), i) {
      var j: nat :| 1 <= j < |Messages(m, Count(Current(m)))| && i < Readable(m, CountAt(m, Current(m), j));
      ReadableMonotone(m, CountAt(m, Current(m), j), SizeNow(m));
    }
  }

  lemma AddedEntries(m: Memory, m': Memory, b: nat, n: nat, from: nat, head: seq<Value>, v: nat, cells: nat)
    requires Layout(OfObject, m) && HasBuffer(m) && b == Current(m) && n == SizeNow(m) && from == Readable(m, n)
    requires EntryAdded(m, m', b, n, from, head, v, cells) && Numbers(head) && |head| == 3 && cells > 0
    requires Latest(m', Cell(v, 0)).Num?
    ensures EntriesOk(m')
  {
    hide EntryOk;
    forall q: nat | q < n + 1 ensures EntryOk(m', q) {
      if q < n {
        KeptEntry(m, m', b, n, from, q);
      } else {
        NewEntry(m, m', b, n, from, head, v, cells);
      }
    }
  }

  lemma NewEntry(m: Memory, m': Memory, b: nat, n: nat, from: nat, head: seq<Value>, v: nat, cells: nat)
    requires EntryAdded(m, m', b, n, from, head, v, cells) && Numbers(head) && |head| == 3 && cells > 0
    requires from == Readable(m, n) && b < |m.bufs| && Latest(m', Cell(v, 0)).Num?
    ensures EntryOk(m', n)
  {
    hide Shape;
    assert forall j :: 0 <= j < 3 ==> EntryCell(m', n, j) == head[j];
  }

  lemma KeptEntry(m: Memory, m': Memory, b: nat, n: nat, from: nat, q: nat)
    requires Layout(OfObject, m) && HasBuffer(m) && b == Current(m) && n == SizeNow(m) && from == Readable(m, n)
    requires RowCounted(m, m', b, n, from, 4) && q < n
    ensures EntryOk(m', q)
  {
    assert EntryOk(m, q);
    FourCells(m, q, n);
    BlockIsOld(m, q);
    CountedCellsThere(m);
    KeptCells(m, m', b, from, q);
    hide Latest, Messages, Readable, EntryCell;
    EntryMoves(m, m', q, q);
  }

  lemma KeptCells(m: Memory, m': Memory, b: nat, from: nat, q: nat)
    requires OldCellsKept(m, m', b, from, 4) && Readable(m, q) + 4 <= from && b == Current(m) == Current(m')
    requires m'.rowCells == m.rowCells && m'.extraCells == m.extraCells && forall i: nat :: i < from ==> Cell(b, i) in m.log
    ensures forall j: nat :: j < 4 ==> EntryCell(m', q, j) == EntryCell(m, q, j)
  {
    forall j: nat | j < 4 ensures EntryCell(m', q, j) == EntryCell(m, q, j) {
      assert Cell(b, Readable(m, q) + j) in m.log;
    }
  }

  lemma CountedCellsThere(m: Memory)
    requires Shape(m) && HasBuffer(m)
    ensures forall i: nat :: i < Readable(m, SizeNow(m)) ==> Cell(Current(m), i) in m.log
  {
    var b := Current(m);
    CurrentIsPublished(m);
    assert CountOk(m, b, |Messages(m, Count(b))| - 1);
    forall i: nat | i < Readable(m, SizeNow(m)) ensures Cell(b, i) in m.log {
      assert Allocated(m, Cell(b, i));
    }
  }

  /** The room an object makes is calm and holds the same entries. */
  lemma ObjectRoomRuns(m: Memory) returns (m1: Memory)
    requires Layout(OfObject, m)
    ensures var room := Room(m, EntryBuffers.GrownCapacity(CapacityNow(m)));
            Runs(m, room) && QuietProgram(room) && m1 == Exec(m, room)
    ensures Layout(OfObject, m1) && HasBuffer(m1) && SizeNow(m1) == SizeNow(m)
    ensures var b, from := Current(m1), Readable(m1, SizeNow(m1));
            HasRoom(m1, b, SizeNow(m1), from, 4) && !Covered(m1, b, from + 3)
  {
    var rows := EntryBuffers.GrownCapacity(CapacityNow(m));
    RoomRuns(m, rows);
    m1 := Exec(m, Room(m, rows));
    if Full(m) {
      EnlargedEntries(m, m1, rows);
    }
    NextRowIsUncovered(m1, Readable(m1, SizeNow(m1)) + 3);
  }

  predicate LastEntryIs(m: Memory, n: nat, key: nat, typeId: nat) {
    SizeNow(m) == n + 1 && EntryCell(m, n, 0) == Num(key) && EntryCell(m, n, 1) == Num(typeId)
  }

  lemma AddEntryRuns(m: Memory, b: nat, n: nat, from: nat, head: seq<Value>, payload: seq<Value>, text: seq<Value>)
    requires HasRoom(m, b, n, from, 4) && |head| == 3 && !Covered(m, b, from + 3)
    requires Numbers(head) && Numbers(payload) && payload != [] && Numbers(text)
    ensures var program, v := AddEntry(b, n, from, |m.bufs|, head, payload, text), |m.bufs|;
            && Runs(m, program) && QuietProgram(program)
            && EntryAdded(m, Exec(m, program), b, n, from, head, v, if text == [] then |payload| else 2)
            && Latest(Exec(m, program), Cell(v, 0)).Num?
  {
    hide HasRoom, Covered, Runs, Exec, QuietProgram, AddScalar, AddString, EntryAdded;
    AddIsQuiet(b, n, from, |m.bufs|, head, if text == [] then payload else text);
    if text == [] {
      NumbersFit(m, |m.bufs|, 0, payload);
      AddScalarRuns(m, b, n, from, head, payload);
    } else {
      AddStringRuns(m, b, n, from, head, text);
    }
  }

  lemma AddRuns(m: Memory, key: nat, typeId: nat, payload: seq<Value>, text: seq<Value>)
    requires Layout(OfObject, m) && Numbers(payload) && payload != [] && Numbers(text)
    ensures var program := AddProgram(m, key, typeId, payload, text);
            Runs(m, program) && QuietProgram(program) && Layout(OfObject, Exec(m, program))
    ensures LastEntryIs(Exec(m, AddProgram(m, key, typeId, payload, text)), SizeNow(m), key, typeId)
  {
    hide Shape, Room, Runs, Exec, AddEntry, EntryAdded, HasRoom, Covered, Layout, QuietProgram, Calm, Readable, CapacityNow;
    var room := Room(m, EntryBuffers.GrownCapacity(CapacityNow(m)));
    var m1 := ObjectRoomRuns(m);
    var b, n, head := Current(m1), SizeNow(m1), Head(key, typeId);
    var from := Readable(m1, n);
    var add, program := AddEntry(b, n, from, |m1.bufs|, head, payload, text), AddProgram(m, key, typeId, payload, text);
    AddEntryRuns(m1, b, n, from, head, payload, text);
    RunsAppend(m, room, add);
    QuietAppend(room, add);
    CalmAfter(m, program);
    assert head[0] == Num(key) && head[1] == Num(typeId);
    AddedLayout(m1, Exec(m, program), b, n, from, head, |m1.bufs|, if text == [] then |payload| else 2);
  }

  lemma CalmAfter(m: Memory, program: seq<Action>)
    requires Layout(OfObject, m) && Runs(m, program) && QuietProgram(program)
    ensures Calm(Exec(m, program))
  {
    RunsStayCalm(m, program);
  }

  lemma AddedLayout(m: Memory, m': Memory, b: nat, n: nat, from: nat, head: seq<Value>, v: nat, cells: nat)
    requires Layout(OfObject, m) && HasBuffer(m) && b == Current(m) && n == SizeNow(m) && from == Readable(m, n)
    requires EntryAdded(m, m', b, n, from, head, v, cells) && Numbers(head) && |head| == 3 && cells > 0
    requires Latest(m', Cell(v, 0)).Num? && Calm(m')
    ensures Layout(OfObject, m')
    ensures HasBuffer(m') && SizeNow(m') == n + 1 && forall j :: 0 <= j < 3 ==> EntryCell(m', n, j) == head[j]
  {
    AddedEntries(m, m', b, n, from, head, v, cells);
  }

  lemma RemovedRows(m: Memory, i: nat, q: nat)
    requires Layout(OfObject, m) && HasBuffer(m) && i < SizeNow(m) && q + 1 < SizeNow(m)
    ensures var all := CurrentCells(m, Readable(m, SizeNow(m)));
            && Readable(m, i) <= Readable(m, i + 1) <= |all|
            && RowIs(m, all[..Readable(m, i)] + all[Readable(m, i + 1)..], q, if q < i then q else q + 1)
  {
    FourCells(m, i, SizeNow(m));
    FourCells(m, q, i);
    FourCells(m, q + 1, SizeNow(m));
  }

  lemma RemoveFieldRuns(m: Memory, i: nat)
    requires Layout(OfObject, m) && HasBuffer(m) && i < SizeNow(m)
    ensures var program := RemoveProgram(m, i);
            Runs(m, program) && QuietProgram(program) && Layout(OfObject, Exec(m, program))
  {
    var n := SizeNow(m);
    FourCells(m, i, n);
    FourCells(m, i + 1, n);
    if n == 1 {
      NullRuns(m);
    } else {
      FilteredRuns(m, i);
    }
    CalmAfter(m, RemoveProgram(m, i));
  }

  lemma FilteredRuns(m: Memory, i: nat)
    requires Layout(OfObject, m) && HasBuffer(m) && i < SizeNow(m) && SizeNow(m) > 1
    ensures var program, m' := RemoveProgram(m, i), Exec(m, RemoveProgram(m, i));
            && Runs(m, program) && QuietProgram(program)
            && Shape(m') && m'.rowCells == 4 && m'.extraCells == 0 && WholeRows(m') && EntriesOk(m')
  {
    hide Shape, Runs, Exec, Replace, EntryOk;
    var n, all := SizeNow(m), CurrentCells(m, Readable(m, SizeNow(m)));
    FourCells(m, i, n);
    FourCells(m, i + 1, n);
    FourCells(m, n - 1, n);
    RemoveRuns(m, i);
    var contents := all[..Readable(m, i)] + all[Readable(m, i + 1)..];
    assert RemoveProgram(m, i) == Replace(|m.bufs|, (n - 1) * 4, false, n - 1, contents);
    ReplaceIsQuiet(|m.bufs|, (n - 1) * 4, false, n - 1, contents);
    FilteredEntries(m, Exec(m, RemoveProgram(m, i)), i, contents);
  }

  lemma FilteredEntries(m: Memory, m': Memory, i: nat, contents: seq<Value>)
    requires Layout(OfObject, m) && HasBuffer(m) && i < SizeNow(m) && SizeNow(m) > 1
    requires var all := CurrentCells(m, Readable(m, SizeNow(m)));
             Readable(m, i) <= Readable(m, i + 1) <= |all| && contents == all[..Readable(m, i)] + all[Readable(m, i + 1)..]
    requires Replaced(m, m', (SizeNow(m) - 1) * 4, SizeNow(m) - 1, contents)
    ensures EntriesOk(m') && WholeRows(m')
  {
    hide Shape;
    var n := SizeNow(m);
    forall q: nat | q < n - 1 ensures EntryOk(m', q) {
      RemovedRows(m, i, q);
      assert EntryOk(m, if q < i then q else q + 1);
      ReplacedEntry(m, m', (n - 1) * 4, n - 1, contents, q, if q < i then q else q + 1);
    }
    assert m'.bufs[Current(m')].cells == (n - 1) * m'.rowCells;
  }

  lemma NullRuns(m: Memory)
    requires Shape(m)
    ensures Runs(m, [PublishNull]) && Shape(Exec(m, [PublishNull])) && !HasBuffer(Exec(m, [PublishNull]))
    ensures Exec(m, [PublishNull]).rowCells == m.rowCells && Exec(m, [PublishNull]).extraCells == m.extraCells
  {
    RunsOne(m, PublishNull);
    ActKeepsShape(m, PublishNull);
    StoresAreLegal(m, PublishNull);
    StoreLatest(m, PublishNull);
  }

  lemma PresentEntry(m: Memory, key: nat)
    requires Layout(OfObject, m) && Present(m, key)
    ensures HasBuffer(m)
    ensures var v := BlockNow(m, key);
            EntryCell(m, FindEntry(m, key, 0), 3) == Ref(v) && v != Current(m) && Cell(v, 0) in m.log
            && forall w: nat :: Allowed(m, Overwrite(v, 0, w))
  {
    assert EntryOk(m, FindEntry(m, key, 0));
    BlockIsOld(m, FindEntry(m, key, 0));
  }

  lemma OverwriteRuns(m: Memory, key: nat, word: nat)
    requires Layout(OfObject, m) && Present(m, key)
    ensures var program := [Overwrite(BlockNow(m, key), 0, word)];
            Runs(m, program) && Layout(OfObject, Exec(m, program))
  {
    PresentEntry(m, key);
    var a := Overwrite(BlockNow(m, key), 0, word);
    RunsOne(m, a);
    ActKeepsShape(m, a);
    ActStaysCalm(m, a);
    OverwriteEffect(m, BlockNow(m, key), word);
    OverwrittenEntries(m, Act(m, a), BlockNow(m, key), word);
  }

  lemma OverwriteEffect(m: Memory, v: nat, word: nat)
    requires MemoryOk(m) && Allowed(m, Overwrite(v, 0, word))
    ensures var m' := Act(m, Overwrite(v, 0, word));
            && m'.bufs == m.bufs && m'.rowCells == m.rowCells && m'.extraCells == m.extraCells
            && forall l: Loc :: Latest(m', l) == if l == Cell(v, 0) then Num(word) else Latest(m, l)
  {
    var a := Overwrite(v, 0, word);
    StoresAreLegal(m, a);
    StoreLatest(m, a);
  }

  lemma OverwrittenEntries(m: Memory, m': Memory, v: nat, word: nat)
    requires EntriesOk(m) && HasBuffer(m) && v != Current(m)
    requires m'.bufs == m.bufs && m'.rowCells == m.rowCells && m'.extraCells == m.extraCells
    requires forall l: Loc :: Latest(m', l) == if l == Cell(v, 0) then Num(word) else Latest(m, l)
    ensures EntriesOk(m') && HasBuffer(m') && Current(m') == Current(m) && SizeNow(m') == SizeNow(m)
  {
    hide Latest;
    forall q: nat | q < SizeNow(m) ensures EntryOk(m', q) {
      assert EntryOk(m, q);
      assert forall j: nat :: EntryCell(m', q, j) == EntryCell(m, q, j);
    }
  }

  lemma SetStringRuns(m: Memory, str: seq<nat>)
    requires Layout(OfString, m)
    ensures var program := Program(m, SetString(str));
            Runs(m, program) && QuietProgram(program) && Layout(OfString, Exec(m, program))
  {
    if str == [] {
      NullRuns(m);
    } else {
      StringSetRuns(m, str);
      ReplaceIsQuiet(|m.bufs|, |str| + 1, false, |str|, Bytes(str + [0]));
    }
    RunsStayCalm(m, Program(m, SetString(str)));
  }

  // ---- Every sequence of calls -------------------------------------------------------------

  lemma CallRuns(kind: Kind, m: Memory, c: Call)
    requires Layout(kind, m) && Fits(kind, m, c)
    ensures Runs(m, Program(m, c)) && Layout(kind, Exec(m, Program(m, c)))
    ensures Calm(m) && !c.ClearArray? ==> Calm(Exec(m, Program(m, c)))
  {
    hide Layout, RemoveProgram, AddProgram, PushProgram, Enlarge, Replace, FindEntry, Calm;
    match c
    case SetString(str) =>
      SetStringRuns(m, str);
      LayoutIsCalm(kind, Exec(m, Program(m, c)));
    case Reserve(rows) =>
      ReserveRuns(m, rows);
      QuietKeepsCalm(m, Program(m, c));
    case Push(row) =>
      PushRuns(m, row);
      QuietKeepsCalm(m, Program(m, c));
    case ClearArray => ClearRuns(m);
    case _ =>
      ObjectCallRuns(m, c);
      LayoutIsCalm(kind, Exec(m, Program(m, c)));
  }

  lemma LayoutIsCalm(kind: Kind, m: Memory)
    requires Layout(kind, m) && !kind.OfArray?
    ensures Calm(m)
  {
  }

  lemma QuietKeepsCalm(m: Memory, program: seq<Action>)
    requires Layout(OfArray, m) && Runs(m, program) && QuietProgram(program)
    ensures Calm(m) ==> Calm(Exec(m, program))
  {
    if Calm(m) {
      RunsStayCalm(m, program);
    }
  }

  lemma ObjectCallRuns(m: Memory, c: Call)
    requires Layout(OfObject, m) && Fits(OfObject, m, c)
    ensures Runs(m, Program(m, c)) && Layout(OfObject, Exec(m, Program(m, c)))
  {
    hide Layout, RemoveProgram, AddProgram, FindEntry;
    match c
    case SetScalar(key, typeId, word) =>
      if !Present(m, key) {
        AddRuns(m, key, typeId, [Num(word)], []);
      } else if TypeNow(m, key) == Num(typeId) {
        OverwriteRuns(m, key, word);
      }
    case SetText(key, str) => AddRuns(m, key, EntryBuffers.TYPE_STRING, Zeros(2), TextCells(str));
    case EnsureObject(key) => AddRuns(m, key, EntryBuffers.TYPE_OBJECT, Zeros(2), []);
    case Remove(key) =>
      if Present(m, key) {
        PresentEntry(m, key);
        RemoveFieldRuns(m, FindEntry(m, key, 0));
      }
  }

  ghost predicate CallsRun(kind: Kind, m: Memory, calls: seq<Call>)
    decreases |calls|
  {
    calls == []
    || (Runs(m, Program(m, calls[0])) && CallsRun(kind, Exec(m, Program(m, calls[0])), calls[1..]))
  }

  lemma {:induction false} CallsRunFrom(kind: Kind, m: Memory, calls: seq<Call>)
    requires Layout(kind, m) && forall k :: 0 <= k < |calls| ==> Fits(kind, m, calls[k])
    ensures CallsRun(kind, m, calls)
    decreases |calls|
  {
    if calls != [] {
      CallRuns(kind, m, calls[0]);
      RunsKeepShape(m, Program(m, calls[0]));
      CallsRunFrom(kind, Exec(m, Program(m, calls[0])), calls[1..]);
    }
  }

  predicate RowSizeOk(kind: Kind, rowCells: nat) {
    match kind
    case OfString => rowCells == 1
    case OfArray => rowCells > 0
    case OfObject => rowCells == 4
  }

  /** A zeroed slot for a value of some type. */
  function ZeroedSlot(kind: Kind, rowCells: nat): State {
    Initial(rowCells, if kind.OfString? then 1 else 0)
  }

  lemma ZeroedSlotHasLayout(kind: Kind, rowCells: nat)
    requires RowSizeOk(kind, rowCells)
    ensures var m := ZeroedSlot(kind, rowCells).memory; Layout(kind, m) && m.rowCells == rowCells && SizeNow(m) == 0
  {
  }

  /** Any sequence of calls on a zeroed slot, growing wherever it must. */
  lemma EverySequenceRuns(kind: Kind, rowCells: nat, calls: seq<Call>)
    requires RowSizeOk(kind, rowCells)
    requires forall k :: 0 <= k < |calls| ==> Fits(kind, ZeroedSlot(kind, rowCells).memory, calls[k])
    ensures CallsRun(kind, ZeroedSlot(kind, rowCells).memory, calls)
  {
    ZeroedSlotHasLayout(kind, rowCells);
    CallsRunFrom(kind, ZeroedSlot(kind, rowCells).memory, calls);
  }
}
