/**
 Teardown of records, strings and arrays: byte-addressed memory, slots laid out inside one another, and
 pointers to separately allocated buffers. Free demands that its argument is still allocated, so a
 method that verifies frees no block twice.
 */
module RecordTeardown {
  import opened RecordLayout

  /** The words stored in memory, and every allocated block with its length. */
  datatype Mem = Mem(words: map<nat, nat>, blocks: map<nat, nat>)

  function Word(m: Mem, a: nat): nat {
    if a in m.words then m.words[a] else 0
  }

  class Store {
    var mem: Mem

    constructor (m: Mem)
      ensures mem == m
    {
      mem := m;
    }

    method Load(a: nat) returns (w: nat)
      ensures w == Word(mem, a)
    {
      w := if a in mem.words then mem.words[a] else 0;
    }

    method Write(a: nat, w: nat)
      modifies this
      ensures mem == old(mem).(words := old(mem).words[a := w])
    {
      mem := mem.(words := mem.words[a := w]);
    }

    method Free(a: nat)
      requires a in mem.blocks
      modifies this
      ensures mem == old(mem).(blocks := old(mem).blocks - {a})
    {
      mem := mem.(blocks := mem.blocks - {a});
    }
  }

  // ---- What a slot holds -------------------------------------------------------------------

  /** The contents of a slot, as far as teardown goes: buffers, and what lies in them. */
  datatype Value =
    | Plain
    | Chars(buf: nat)
    | Items(buf: nat, items: seq<Value>)
    | Fields(values: seq<Value>)

  function Kids(v: Value): seq<Value> {
    match v
    case Plain => []
    case Chars(_) => []
    case Items(_, items) => items
    case Fields(values) => values
  }

  /** A value of the right shape for a type; objects have their own teardown. */
  predicate Fits(t: Type, v: Value) {
    match t
    case Text => v.Chars?
    case Array(_) => v.Items?
    case Record(fields) => v.Fields? && |v.values| == |fields|
    case Object => false
    case _ => v.Plain?
  }

  predicate HasPointer(t: Type) {
    t.Text? || t.Array?
  }

  /** The slots inside a value: elements of an array's buffer, fields of a record. */
  function Parts(p: Place, v: Value): (ps: seq<Place>)
    requires Fits(p.typ, v)
    ensures |ps| == |Kids(v)|
  {
    match p.typ
    case Array(item) => seq(|v.items|, i requires 0 <= i < |v.items| => ElementAt(v.buf, i, item))
    case Record(fields) =>
      VisitsAreOffsets(p.offset + HEADER, fields);
      Visits(p.offset + HEADER, fields)
    case _ => []
  }

  /** The buffer pointer in the second half of a string or array slot. */
  function PointerCell(p: Place): nat {
    p.offset + 8
  }

  ghost predicate PointsTo(m: Mem, p: Place, v: Value)
    requires Fits(p.typ, v) && HasPointer(p.typ)
  {
    && Word(m, PointerCell(p)) == v.buf
    && (v.buf == 0 ==> Kids(v) == [])
    && (v.buf != 0 ==> v.buf in m.blocks)
    && (v.buf != 0 && p.typ.Array? ==>
          Word(m, v.buf) == |v.items| && HEADER + |v.items| * SlotSize(p.typ.item) <= m.blocks[v.buf])
  }

  ghost predicate Denotes(m: Mem, p: Place, v: Value)
    decreases v
  {
    && Fits(p.typ, v)
    && (HasPointer(p.typ) ==> PointsTo(m, p, v))
    && forall i :: 0 <= i < |Kids(v)| ==> Denotes(m, Parts(p, v)[i], Kids(v)[i])
  }

  function Own(v: Value): set<nat> {
    if (v.Chars? || v.Items?) && v.buf != 0 then {v.buf} else {}
  }

  /** The blocks of the first k parts. */
  function BlocksUpTo(v: Value, k: nat): set<nat>
    requires k <= |Kids(v)|
    decreases v, 0
  {
    set i, a | 0 <= i < k && a in Blocks(Kids(v)[i]) :: a
  }

  function Blocks(v: Value): set<nat>
    decreases v, 1
  {
    Own(v) + BlocksUpTo(v, |Kids(v)|)
  }

  function OwnCells(p: Place): set<nat> {
    if HasPointer(p.typ) then {PointerCell(p)} else {}
  }

  /** The pointer cells of the first k parts. */
  ghost function CellsUpTo(m: Mem, p: Place, v: Value, k: nat): set<nat>
    requires Denotes(m, p, v) && k <= |Kids(v)|
    decreases v, 0
  {
    set i, a | 0 <= i < k && a in Cells(m, Parts(p, v)[i], Kids(v)[i]) :: a
  }

  ghost function Cells(m: Mem, p: Place, v: Value): set<nat>
    requires Denotes(m, p, v)
    decreases v, 1
  {
    OwnCells(p) + CellsUpTo(m, p, v, |Kids(v)|)
  }

  // ---- Sharing and overlap -----------------------------------------------------------------

  ghost predicate Overlap(from: nat, to: nat, from': nat, to': nat) {
    from < to' && from' < to
  }

  /** Allocated blocks are not empty and do not overlap. */
  ghost predicate HeapOk(m: Mem) {
    && 0 !in m.blocks
    && (forall b :: b in m.blocks ==> m.blocks[b] > 0)
    && (forall b, c :: b in m.blocks && c in m.blocks && b != c ==> !Overlap(b, b + m.blocks[b], c, c + m.blocks[c]))
  }

  /** No buffer is pointed to twice. */
  ghost predicate Separate(v: Value) {
    && (forall i :: 0 <= i < |Kids(v)| ==> Separate(Kids(v)[i]) && Own(v) !! Blocks(Kids(v)[i]))
    && (forall i, j :: 0 <= i < j < |Kids(v)| ==> Blocks(Kids(v)[i]) !! Blocks(Kids(v)[j]))
  }

  /** The slot lies outside the blocks. */
  ghost predicate Clear(m: Mem, p: Place, bs: set<nat>) {
    forall b :: b in bs && b in m.blocks ==> !Overlap(p.offset, p.End(), b, b + m.blocks[b])
  }

  ghost predicate Good(m: Mem, p: Place, v: Value) {
    HeapOk(m) && Denotes(m, p, v) && Separate(v) && Clear(m, p, Blocks(v))
  }

  /** The bytes a value owns: its slot and its blocks. */
  ghost predicate InZone(m: Mem, p: Place, bs: set<nat>, a: nat) {
    p.offset <= a < p.End() || exists b :: b in bs && b in m.blocks && b <= a < b + m.blocks[b]
  }

  lemma {:induction false} BlocksAllocated(m: Mem, p: Place, v: Value)
    requires Denotes(m, p, v)
    ensures forall b :: b in Blocks(v) ==> b in m.blocks
    decreases v
  {
    forall i | 0 <= i < |Kids(v)| ensures forall b :: b in Blocks(Kids(v)[i]) ==> b in m.blocks {
      BlocksAllocated(m, Parts(p, v)[i], Kids(v)[i]);
    }
  }

  lemma PartBlocks(v: Value, i: nat)
    requires i < |Kids(v)|
    ensures Blocks(Kids(v)[i]) <= Blocks(v)
  {
    assert forall a :: a in Blocks(Kids(v)[i]) ==> a in BlocksUpTo(v, |Kids(v)|);
  }

  /** Where the part lies: inside the slot of a record, inside the buffer of an array. */
  ghost predicate LiesIn(m: Mem, p: Place, v: Value, q: Place) {
    if p.typ.Record? then p.offset <= q.offset && q.End() <= p.End()
    else p.typ.Array? && v.Items? && v.buf != 0 && v.buf in m.blocks
         && v.buf + HEADER <= q.offset && q.End() <= v.buf + m.blocks[v.buf]
  }

  lemma FieldInside(m: Mem, p: Place, v: Value, i: nat)
    requires p.typ.Record? && Fits(p.typ, v) && i < |Kids(v)|
    ensures LiesIn(m, p, v, Parts(p, v)[i])
  {
    VisitsAreOffsets(p.offset + HEADER, p.typ.fields);
    SlotsFitInside(i, p.typ.fields);
  }

  lemma ElementInside(m: Mem, p: Place, v: Value, i: nat)
    requires p.typ.Array? && Fits(p.typ, v) && i < |Kids(v)| && PointsTo(m, p, v)
    ensures LiesIn(m, p, v, Parts(p, v)[i])
  {
    Scaled(i + 1, |v.items|, SlotSize(p.typ.item));
  }

  lemma PartInside(m: Mem, p: Place, v: Value, i: nat)
    requires Denotes(m, p, v) && i < |Kids(v)|
    ensures LiesIn(m, p, v, Parts(p, v)[i])
  {
    hide LiesIn, PointsTo, Parts;
    if p.typ.Record? {
      FieldInside(m, p, v, i);
    } else {
      ElementInside(m, p, v, i);
    }
  }

  lemma PartsApart(p: Place, v: Value, i: nat, j: nat)
    requires Fits(p.typ, v) && i < j < |Kids(v)|
    ensures Apart(Parts(p, v)[i], Parts(p, v)[j])
  {
    if p.typ.Record? {
      VisitsAreOffsets(p.offset + HEADER, p.typ.fields);
      SlotsAreOrdered(i, j, p.typ.fields);
    } else {
      ElementsAreApart(v.buf, i, j, |v.items|, p.typ.item);
    }
  }

  lemma PartIsClear(m: Mem, p: Place, v: Value, i: nat, j: nat)
    requires Good(m, p, v) && i < |Kids(v)| && j < |Kids(v)|
    ensures Clear(m, Parts(p, v)[i], Blocks(Kids(v)[j]))
  {
    hide Parts, Blocks, PointsTo, Fits;
    PartInside(m, p, v, i);
    PartBlocks(v, j);
    InsideIsClear(m, p, v, Parts(p, v)[i], Blocks(Kids(v)[j]));
  }

  lemma InsideIsClear(m: Mem, p: Place, v: Value, q: Place, bs: set<nat>)
    requires HeapOk(m) && Clear(m, p, Blocks(v)) && LiesIn(m, p, v, q) && bs <= Blocks(v) && Own(v) !! bs
    ensures Clear(m, q, bs)
  {
    hide Blocks;
    forall b | b in bs && b in m.blocks ensures !Overlap(q.offset, q.End(), b, b + m.blocks[b]) {
      if !p.typ.Record? {
        assert v.buf in Own(v) && b != v.buf;
        assert !Overlap(v.buf, v.buf + m.blocks[v.buf], b, b + m.blocks[b]);
      }
    }
  }

  lemma PartIsGood(m: Mem, p: Place, v: Value, i: nat)
    requires Good(m, p, v) && i < |Kids(v)|
    ensures Good(m, Parts(p, v)[i], Kids(v)[i])
  {
    PartIsClear(m, p, v, i, i);
  }

  /** Everything a value reads or writes lies in its zone. */
  lemma {:induction false} CellsInZone(m: Mem, p: Place, v: Value)
    requires HeapOk(m) && Denotes(m, p, v)
    ensures forall a :: a in Cells(m, p, v) || a in Blocks(v) ==> InZone(m, p, Blocks(v), a)
    decreases v
  {
    BlocksAllocated(m, p, v);
    forall i, a | 0 <= i < |Kids(v)| && (a in Cells(m, Parts(p, v)[i], Kids(v)[i]))
      ensures InZone(m, p, Blocks(v), a)
    {
      CellsInZone(m, Parts(p, v)[i], Kids(v)[i]);
      PartInside(m, p, v, i);
      PartBlocks(v, i);
      assert !p.typ.Record? ==> v.buf in Own(v) && v.buf in Blocks(v);
    }
    forall a | a in Blocks(v) ensures InZone(m, p, Blocks(v), a) {
      assert a in m.blocks && a <= a < a + m.blocks[a];
    }
  }

  /** Zones of values that share nothing are disjoint. */
  lemma ZonesApart(m: Mem, p: Place, bs: set<nat>, q: Place, cs: set<nat>, a: nat)
    requires HeapOk(m) && Apart(p, q) && bs !! cs && Clear(m, p, cs) && Clear(m, q, bs)
    requires InZone(m, p, bs, a)
    ensures !InZone(m, q, cs, a)
  {
  }

  /** Tearing down one part leaves alone all that another part reads. */
  lemma PartsDoNotInterfere(m: Mem, p: Place, v: Value, i: nat, j: nat)
    requires Good(m, p, v) && i < |Kids(v)| && j < |Kids(v)| && i != j
    ensures var one, two := Cells(m, Parts(p, v)[i], Kids(v)[i]), Cells(m, Parts(p, v)[j], Kids(v)[j]);
            one !! two && one !! Blocks(Kids(v)[j]) && Blocks(Kids(v)[i]) !! Blocks(Kids(v)[j])
  {
    var q, r := Parts(p, v)[i], Parts(p, v)[j];
    PartIsClear(m, p, v, i, j);
    PartIsClear(m, p, v, j, i);
    if i < j {
      PartsApart(p, v, i, j);
    } else {
      PartsApart(p, v, j, i);
    }
    CellsInZone(m, q, Kids(v)[i]);
    CellsInZone(m, r, Kids(v)[j]);
    forall a | a in Cells(m, q, Kids(v)[i]) ensures a !in Cells(m, r, Kids(v)[j]) && a !in Blocks(Kids(v)[j]) {
      ZonesApart(m, q, Blocks(Kids(v)[i]), r, Blocks(Kids(v)[j]), a);
    }
  }

  // ---- Frames ------------------------------------------------------------------------------

  /** Some blocks gone, some pointer cells cleared, the rest as before. */
  ghost predicate Torn(m: Mem, m': Mem, cells: set<nat>, dead: set<nat>) {
    && m'.blocks == m.blocks - dead
    && forall a: nat :: Word(m', a) == if a in cells then 0 else Word(m, a)
  }

  ghost predicate TornDown(m: Mem, m': Mem, p: Place, v: Value)
    requires Denotes(m, p, v)
  {
    Torn(m, m', Cells(m, p, v), Blocks(v))
  }

  ghost predicate TornUpTo(m: Mem, m': Mem, p: Place, v: Value, k: nat)
    requires Denotes(m, p, v) && k <= |Kids(v)|
  {
    Torn(m, m', CellsUpTo(m, p, v, k), BlocksUpTo(v, k))
  }

  lemma {:induction false} DenotesFrame(m: Mem, m': Mem, p: Place, v: Value)
    requires Denotes(m, p, v)
    requires forall a :: a in Cells(m, p, v) || a in Blocks(v) ==> Word(m', a) == Word(m, a)
    requires forall b :: b in Blocks(v) ==> b in m.blocks && b in m'.blocks && m'.blocks[b] == m.blocks[b]
    ensures Denotes(m', p, v) && Cells(m', p, v) == Cells(m, p, v)
    decreases v
  {
    BlocksAllocated(m, p, v);
    if HasPointer(p.typ) {
      assert PointerCell(p) in OwnCells(p);
      assert v.buf != 0 ==> v.buf in Own(v);
      assert PointsTo(m', p, v);
    }
    forall i | 0 <= i < |Kids(v)|
      ensures Denotes(m', Parts(p, v)[i], Kids(v)[i])
      ensures Cells(m', Parts(p, v)[i], Kids(v)[i]) == Cells(m, Parts(p, v)[i], Kids(v)[i])
    {
      PartBlocks(v, i);
      assert forall a :: a in Cells(m, Parts(p, v)[i], Kids(v)[i]) ==> a in CellsUpTo(m, p, v, |Kids(v)|);
      DenotesFrame(m, m', Parts(p, v)[i], Kids(v)[i]);
    }
    assert CellsUpTo(m', p, v, |Kids(v)|) == CellsUpTo(m, p, v, |Kids(v)|);
  }

  /** When the parts before it are gone, part k is still whole. */
  lemma PartUntouched(m: Mem, p: Place, v: Value, k: nat)
    requires Good(m, p, v) && k < |Kids(v)|
    ensures var q, w := Parts(p, v)[k], Kids(v)[k];
            && (forall a :: a in Cells(m, q, w) || a in Blocks(w) ==> a !in CellsUpTo(m, p, v, k))
            && (forall b :: b in Blocks(w) ==> b !in BlocksUpTo(v, k))
  {
    forall i | 0 <= i < k
      ensures var q, w := Parts(p, v)[k], Kids(v)[k];
              Cells(m, q, w) + Blocks(w) !! Cells(m, Parts(p, v)[i], Kids(v)[i]) && Blocks(w) !! Blocks(Kids(v)[i])
    {
      PartsDoNotInterfere(m, p, v, i, k);
    }
    hide Cells, Blocks, Parts, Good, Denotes;
  }

  lemma GoodFrame(m: Mem, m': Mem, p: Place, v: Value, dead: set<nat>)
    requires Good(m, p, v) && m'.blocks == m.blocks - dead && Blocks(v) !! dead
    requires forall a :: a in Cells(m, p, v) || a in Blocks(v) ==> Word(m', a) == Word(m, a)
    ensures Good(m', p, v) && Cells(m', p, v) == Cells(m, p, v)
  {
    hide Blocks, Cells, Separate;
    BlocksAllocated(m, p, v);
    DenotesFrame(m, m', p, v);
  }

  lemma PartReady(m: Mem, m1: Mem, p: Place, v: Value, k: nat)
    requires Good(m, p, v) && k < |Kids(v)| && TornUpTo(m, m1, p, v, k)
    ensures var q, w := Parts(p, v)[k], Kids(v)[k]; Good(m1, q, w) && Cells(m1, q, w) == Cells(m, q, w)
  {
    PartIsGood(m, p, v, k);
    PartUntouched(m, p, v, k);
    hide Good, Blocks, BlocksUpTo, Cells, CellsUpTo, Parts;
    GoodFrame(m, m1, Parts(p, v)[k], Kids(v)[k], BlocksUpTo(v, k));
  }

  lemma TornOneMore(m: Mem, m1: Mem, m2: Mem, p: Place, v: Value, k: nat)
    requires Good(m, p, v) && k < |Kids(v)| && TornUpTo(m, m1, p, v, k)
    requires Denotes(m1, Parts(p, v)[k], Kids(v)[k]) && TornDown(m1, m2, Parts(p, v)[k], Kids(v)[k])
    requires Cells(m1, Parts(p, v)[k], Kids(v)[k]) == Cells(m, Parts(p, v)[k], Kids(v)[k])
    ensures TornUpTo(m, m2, p, v, k + 1)
  {
    OneMorePart(m, p, v, k);
    TornTwice(m, m1, m2, CellsUpTo(m, p, v, k), BlocksUpTo(v, k), Cells(m, Parts(p, v)[k], Kids(v)[k]), Blocks(Kids(v)[k]));
  }

  lemma OneMorePart(m: Mem, p: Place, v: Value, k: nat)
    requires Denotes(m, p, v) && k < |Kids(v)|
    ensures BlocksUpTo(v, k + 1) == BlocksUpTo(v, k) + Blocks(Kids(v)[k])
    ensures CellsUpTo(m, p, v, k + 1) == CellsUpTo(m, p, v, k) + Cells(m, Parts(p, v)[k], Kids(v)[k])
  {
  }

  lemma TornTwice(m: Mem, m1: Mem, m2: Mem, cells: set<nat>, dead: set<nat>, cells': set<nat>, dead': set<nat>)
    requires Torn(m, m1, cells, dead) && Torn(m1, m2, cells', dead')
    ensures Torn(m, m2, cells + cells', dead + dead')
  {
    assert m.blocks - dead - dead' == m.blocks - (dead + dead');
  }

  /** After all parts, the buffer itself and the pointer to it. */
  lemma TornLast(m: Mem, m1: Mem, m2: Mem, p: Place, v: Value)
    requires Good(m, p, v) && HasPointer(p.typ) && v.buf != 0 && TornUpTo(m, m1, p, v, |Kids(v)|)
    requires m2 == Mem(m1.words[PointerCell(p) := 0], m1.blocks - {v.buf})
    ensures TornDown(m, m2, p, v)
  {
    hide Separate, Clear, HeapOk;
    assert Blocks(v) == BlocksUpTo(v, |Kids(v)|) + {v.buf};
    assert Cells(m, p, v) == CellsUpTo(m, p, v, |Kids(v)|) + {PointerCell(p)};
  }

  lemma NothingTorn(m: Mem, p: Place, v: Value)
    requires Good(m, p, v)
    ensures TornUpTo(m, m, p, v, 0)
    ensures HasPointer(p.typ) && v.buf == 0 ==> TornDown(m, m, p, v)
    ensures v.Plain? ==> TornDown(m, m, p, v)
    ensures HasPointer(p.typ) && v.buf != 0 ==> v.buf in m.blocks && v.buf !in BlocksUpTo(v, |Kids(v)|)
  {
    assert CellsUpTo(m, p, v, 0) == {} && BlocksUpTo(v, 0) == {};
    assert m.blocks - {} == m.blocks;
    if HasPointer(p.typ) && v.buf == 0 {
      assert Cells(m, p, v) == {PointerCell(p)} && Blocks(v) == {};
    }
  }

  // ---- The teardown ------------------------------------------------------------------------

  /** Free everything the slot of a type holds, each block once, and clear its pointers. */
  method Deallocate(h: Store, p: Place, ghost v: Value)
    requires Good(h.mem, p, v)
    modifies h
    ensures TornDown(old(h.mem), h.mem, p, v)
    decreases v, |Kids(v)| + 2
  {
    NothingTorn(h.mem, p, v);
    match p.typ
    case Text => DeallocateText(h, p, v);
    case Array(item) => DeallocateArray(h, p, item, v);
    case Record(fields) =>
      ghost var m0 := h.mem;
      VisitsAreOffsets(p.offset + HEADER, fields);
      DeallocateFields(h, p.offset + HEADER, fields, m0, p, v, 0);
      assert Blocks(v) == BlocksUpTo(v, |Kids(v)|) && Cells(m0, p, v) == CellsUpTo(m0, p, v, |Kids(v)|);
    case _ =>
  }

  method DeallocateText(h: Store, p: Place, ghost v: Value)
    requires Good(h.mem, p, v) && p.typ.Text?
    modifies h
    ensures TornDown(old(h.mem), h.mem, p, v)
  {
    ghost var m0 := h.mem;
    NothingTorn(m0, p, v);
    var data := h.Load(p.offset + 8);
    if data == 0 {
      return;
    }
    h.Free(data);
    h.Write(p.offset + 8, 0);
    TornLast(m0, m0, h.mem, p, v);
  }

  /** Every committed element, then the buffer. */
  method DeallocateArray(h: Store, p: Place, item: Type, ghost v: Value)
    requires Good(h.mem, p, v) && p.typ == Array(item)
    modifies h
    ensures TornDown(old(h.mem), h.mem, p, v)
    decreases v, |Kids(v)| + 1
  {
    ghost var m0 := h.mem;
    NothingTorn(m0, p, v);
    var buf := h.Load(p.offset + 8);
    if buf == 0 {
      return;
    }
    var size := h.Load(buf);
    var i := 0;
    while i < size
      invariant i <= size == |Kids(v)| && TornUpTo(m0, h.mem, p, v, i)
    {
      DeallocatePart(h, ElementAt(buf, i, item), m0, p, v, i);
      i := i + 1;
    }
    ghost var m1 := h.mem;
    h.Free(buf);
    h.Write(p.offset + 8, 0);
    TornLast(m0, m1, h.mem, p, v);
  }

  method DeallocatePart(h: Store, q: Place, ghost m0: Mem, ghost p: Place, ghost v: Value, ghost k: nat)
    requires Good(m0, p, v) && k < |Kids(v)| && q == Parts(p, v)[k] && TornUpTo(m0, h.mem, p, v, k)
    modifies h
    ensures TornUpTo(m0, h.mem, p, v, k + 1)
    decreases v, 0
  {
    ghost var m1 := h.mem;
    PartReady(m0, m1, p, v, k);
    Deallocate(h, q, Kids(v)[k]);
    TornOneMore(m0, m1, h.mem, p, v, k);
  }

  /** Field after field, the offset carried along. */
  method DeallocateFields(h: Store, offset: nat, fields: seq<Member>, ghost m0: Mem, ghost p: Place, ghost v: Value, ghost k: nat)
    requires Good(m0, p, v) && p.typ.Record? && k <= |Kids(v)| && TornUpTo(m0, h.mem, p, v, k)
    requires fields == p.typ.fields[k..] && offset == p.offset + HEADER + OffsetAt(k, p.typ.fields)
    modifies h
    ensures TornUpTo(m0, h.mem, p, v, |Kids(v)|)
    decreases v, |fields|
  {
    hide TornUpTo, Separate, Clear, HeapOk;
    if fields != [] {
      VisitsAreOffsets(p.offset + HEADER, p.typ.fields);
      SlotsAreAdjacent(k, p.typ.fields);
      DeallocatePart(h, Place(offset, fields[0].typ), m0, p, v, k);
      DeallocateFields(h, offset + SlotSize(fields[0].typ), fields[1..], m0, p, v, k + 1);
    }
  }

  // ---- What it achieves --------------------------------------------------------------------

  /** The value of a slot whose buffers are gone. */
  function Emptied(v: Value): Value {
    match v
    case Plain => Plain
    case Chars(_) => Chars(0)
    case Items(_, _) => Items(0, [])
    case Fields(values) => Fields(seq(|values|, i requires 0 <= i < |values| => Emptied(values[i])))
  }

  /** The slot reads empty, at every level of nesting. */
  lemma {:induction false} SlotReadsEmpty(m: Mem, m': Mem, p: Place, v: Value)
    requires Denotes(m, p, v)
    requires forall a: nat :: a in Cells(m, p, v) ==> Word(m', a) == 0
    ensures Denotes(m', p, Emptied(v)) && Blocks(Emptied(v)) == {}
    decreases v
  {
    var e := Emptied(v);
    if HasPointer(p.typ) {
      assert PointerCell(p) in OwnCells(p);
    }
    if p.typ.Record? {
      forall i | 0 <= i < |Kids(v)|
        ensures Denotes(m', Parts(p, e)[i], Kids(e)[i]) && Blocks(Kids(e)[i]) == {}
      {
        assert forall a :: a in Cells(m, Parts(p, v)[i], Kids(v)[i]) ==> a in CellsUpTo(m, p, v, |Kids(v)|);
        SlotReadsEmpty(m, m', Parts(p, v)[i], Kids(v)[i]);
      }
    }
  }

  /** Everything reachable is freed, nothing else is, and no byte outside the value changes. */
  lemma TeardownIsExact(m: Mem, m': Mem, p: Place, v: Value, a: nat)
    requires Good(m, p, v) && TornDown(m, m', p, v)
    ensures Good(m', p, Emptied(v)) && Blocks(Emptied(v)) == {}
    ensures a in m'.blocks <==> a in m.blocks && a !in Blocks(v)
    ensures a in Blocks(v) ==> a in m.blocks
    ensures !InZone(m, p, Blocks(v), a) ==> Word(m', a) == Word(m, a)
  {
    hide Denotes, Separate, Overlap;
    BlocksAllocated(m, p, v);
    CellsInZone(m, p, v);
    SlotReadsEmpty(m, m', p, v);
    EmptiedIsSeparate(v);
  }

  lemma {:induction false} EmptiedIsSeparate(v: Value)
    ensures Separate(Emptied(v)) && Blocks(Emptied(v)) == {}
  {
    if v.Fields? {
      forall i | 0 <= i < |v.values| ensures Separate(Emptied(v.values[i])) && Blocks(Emptied(v.values[i])) == {} {
        EmptiedIsSeparate(v.values[i]);
      }
    }
  }
}
