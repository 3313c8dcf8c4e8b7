/**
 Setting strings and pushing, growing and clearing arrays anywhere inside a record, in byte-addressed
 memory. From a zeroed slot on, whatever is done at whatever depth, the slot denotes the value one expects
 and no buffer is pointed to twice: what the teardown relies on.
 */
module RecordUpdates {
  import opened RecordLayout
  import opened RecordTeardown

  /** No object inside. */
  predicate Plainly(t: Type) {
    match t
    case Object => false
    case Array(item) => Plainly(item)
    case Record(fields) => forall i :: 0 <= i < |fields| ==> Plainly(fields[i].typ)
    case _ => true
  }

  /** What zeroed memory denotes. */
  function EmptyOf(t: Type): Value {
    match t
    case Text => Chars(0)
    case Array(_) => Items(0, [])
    case Record(fields) => Fields(seq(|fields|, i requires 0 <= i < |fields| => EmptyOf(fields[i].typ)))
    case _ => Plain
  }

  lemma {:induction false} ZeroedDenotesEmpty(m: Mem, p: Place)
    requires Plainly(p.typ) && forall a: nat :: p.offset <= a < p.End() ==> Word(m, a) == 0
    ensures Denotes(m, p, EmptyOf(p.typ)) && Blocks(EmptyOf(p.typ)) == {} && Separate(EmptyOf(p.typ))
    decreases p.typ
  {
    var v := EmptyOf(p.typ);
    if p.typ.Record? {
      var fields := p.typ.fields;
      VisitsAreOffsets(p.offset + HEADER, fields);
      forall i | 0 <= i < |fields|
        ensures Denotes(m, Parts(p, v)[i], Kids(v)[i]) && Blocks(Kids(v)[i]) == {} && Separate(Kids(v)[i])
      {
        SlotsFitInside(i, fields);
        ZeroedDenotesEmpty(m, Parts(p, v)[i]);
      }
    }
  }

  // ---- What an update may do ---------------------------------------------------------------

  /** A block that malloc may hand out; n is 0 when none is needed. */
  ghost predicate Fresh(m: Mem, p: Place, a: nat, n: nat) {
    n > 0 ==>
      && a != 0 && !Overlap(p.offset, p.End(), a, a + n)
      && forall b :: b in m.blocks ==> !Overlap(b, b + m.blocks[b], a, a + n)
  }

  function NewBlock(a: nat, n: nat): set<nat> {
    if n > 0 then {a} else {}
  }

  /** Nothing is freed, and words change at most in the slot, in the blocks behind it and in the new one. */
  ghost predicate Changed(m: Mem, m': Mem, p: Place, bs: set<nat>, a: nat, n: nat) {
    && m'.blocks == (if n > 0 then m.blocks[a := n] else m.blocks)
    && forall x: nat :: Word(m', x) != Word(m, x) ==> InZone(m, p, bs, x) || a <= x < a + n
  }

  lemma NewBlockIsNew(m: Mem, p: Place, a: nat, n: nat)
    requires HeapOk(m) && Fresh(m, p, a, n) && n > 0
    ensures a !in m.blocks
  {
    if a in m.blocks {
      assert false;
    }
  }

  lemma HeapStaysOk(m: Mem, m': Mem, p: Place, a: nat, n: nat)
    requires HeapOk(m) && Fresh(m, p, a, n) && m'.blocks == if n > 0 then m.blocks[a := n] else m.blocks
    ensures HeapOk(m') && (n > 0 ==> a !in m.blocks)
  {
    if n > 0 {
      NewBlockIsNew(m, p, a, n);
    }
  }

  // ---- One part of a value -----------------------------------------------------------------

  function WithKid(v: Value, i: nat, w: Value): Value
    requires i < |Kids(v)|
  {
    if v.Items? then Items(v.buf, v.items[i := w]) else Fields(Kids(v)[i := w])
  }

  lemma PartsOfWithKid(p: Place, v: Value, i: nat, w: Value)
    requires Fits(p.typ, v) && i < |Kids(v)|
    ensures var v' := WithKid(v, i, w);
            && Fits(p.typ, v') && Parts(p, v') == Parts(p, v) && Kids(v') == Kids(v)[i := w] && Own(v') == Own(v)
            && (HasPointer(p.typ) ==> v.Items? && v'.Items? && v'.buf == v.buf)
  {
    assert v.Items? || v.Fields?;
  }

  /** The zone of a part is in the zone of the whole. */
  lemma PartZone(m: Mem, p: Place, v: Value, i: nat, x: nat)
    requires Good(m, p, v) && i < |Kids(v)| && InZone(m, Parts(p, v)[i], Blocks(Kids(v)[i]), x)
    ensures InZone(m, p, Blocks(v), x)
  {
    hide Blocks, Good, Parts, Clear;
    PartBlocks(v, i);
    GoodDenotes(m, p, v);
    PartInside(m, p, v, i);
    if !p.typ.Record? {
      BufferIsBlock(v);
    }
  }

  lemma GoodDenotes(m: Mem, p: Place, v: Value)
    requires Good(m, p, v)
    ensures Denotes(m, p, v) && HeapOk(m)
  {
  }

  lemma BufferIsBlock(v: Value)
    ensures v.Items? && v.buf != 0 ==> v.buf in Own(v) && v.buf in Blocks(v)
  {
  }

  /** The zones of two parts are disjoint. */
  lemma PartZonesApart(m: Mem, p: Place, v: Value, i: nat, j: nat, x: nat)
    requires Good(m, p, v) && i < |Kids(v)| && j < |Kids(v)| && i != j
    requires InZone(m, Parts(p, v)[j], Blocks(Kids(v)[j]), x)
    ensures !InZone(m, Parts(p, v)[i], Blocks(Kids(v)[i]), x)
  {
    PartIsClear(m, p, v, i, j);
    PartIsClear(m, p, v, j, i);
    if i < j {
      PartsApart(p, v, i, j);
    } else {
      PartsApart(p, v, j, i);
    }
    SeparateKids(v, i, j);
    hide Parts, Blocks, Clear, Denotes, Separate, InZone;
    ZonesApart(m, Parts(p, v)[j], Blocks(Kids(v)[j]), Parts(p, v)[i], Blocks(Kids(v)[i]), x);
  }

  /** Another part keeps all it reads. */
  lemma OtherPartStays(m: Mem, m': Mem, p: Place, v: Value, i: nat, j: nat, a: nat, n: nat)
    requires Good(m, p, v) && i < |Kids(v)| && j < |Kids(v)| && i != j && Fresh(m, p, a, n)
    requires Changed(m, m', Parts(p, v)[i], Blocks(Kids(v)[i]), a, n)
    ensures Denotes(m', Parts(p, v)[j], Kids(v)[j])
  {
    PartIsGood(m, p, v, j);
    hide Good, Parts, Blocks, Clear, Separate, InZone;
    forall x | InZone(m, Parts(p, v)[j], Blocks(Kids(v)[j]), x) ensures Word(m', x) == Word(m, x) {
      PartZonesApart(m, p, v, i, j, x);
      PartZone(m, p, v, j, x);
      NotInNewBlock(m, p, Blocks(v), a, n, x);
    }
    UnchangedZone(m, m', p, Parts(p, v)[j], Kids(v)[j], a, n);
  }

  /** A value whose zone is untouched is as it was. */
  lemma UnchangedZone(m: Mem, m': Mem, p: Place, q: Place, v: Value, a: nat, n: nat)
    requires Good(m, q, v) && Fresh(m, p, a, n) && m'.blocks == if n > 0 then m.blocks[a := n] else m.blocks
    requires forall x: nat :: InZone(m, q, Blocks(v), x) ==> Word(m', x) == Word(m, x)
    ensures Denotes(m', q, v)
  {
    CellsInZone(m, q, v);
    BlocksAllocated(m, q, v);
    if n > 0 {
      NewBlockIsNew(m, p, a, n);
    }
    hide Good, Blocks, Clear, Separate, InZone, Fresh;
    DenotesFrame(m, m', q, v);
  }

  lemma SeparateKids(v: Value, i: nat, j: nat)
    requires Separate(v) && i < |Kids(v)| && j < |Kids(v)| && i != j
    ensures Blocks(Kids(v)[i]) !! Blocks(Kids(v)[j])
  {
  }

  lemma NotInNewBlock(m: Mem, p: Place, bs: set<nat>, a: nat, n: nat, x: nat)
    requires Fresh(m, p, a, n) && InZone(m, p, bs, x)
    ensures !(a <= x < a + n)
  {
  }

  /** The buffer pointer and the count of an array are outside the zones of its elements. */
  lemma OwnWordsStay(m: Mem, m': Mem, p: Place, v: Value, i: nat, a: nat, n: nat)
    requires Good(m, p, v) && i < |Kids(v)| && HasPointer(p.typ) && Fresh(m, p, a, n)
    requires Changed(m, m', Parts(p, v)[i], Blocks(Kids(v)[i]), a, n)
    ensures v.Items? && v.buf != 0
    ensures Word(m', PointerCell(p)) == Word(m, PointerCell(p)) && Word(m', v.buf) == Word(m, v.buf)
    ensures v.buf in m'.blocks && m'.blocks[v.buf] == m.blocks[v.buf]
  {
    GoodDenotes(m, p, v);
    PartInside(m, p, v, i);
    PartBlocks(v, i);
    BufferIsBlock(v);
    assert Own(v) !! Blocks(Kids(v)[i]);
    if n > 0 {
      NewBlockIsNew(m, p, a, n);
    }
    var q, bs := Parts(p, v)[i], Blocks(Kids(v)[i]);
    assert v.buf !in bs && bs <= Blocks(v) && v.buf in Blocks(v);
    hide Blocks, Parts, Separate, Denotes;
    NotInPartZone(m, p, v, q, bs, PointerCell(p));
    NotInPartZone(m, p, v, q, bs, v.buf);
    assert InZone(m, p, Blocks(v), PointerCell(p)) && InZone(m, p, Blocks(v), v.buf);
    NotInNewBlock(m, p, Blocks(v), a, n, PointerCell(p));
    NotInNewBlock(m, p, Blocks(v), a, n, v.buf);
  }

  lemma NotInPartZone(m: Mem, p: Place, v: Value, q: Place, bs: set<nat>, x: nat)
    requires HeapOk(m) && Clear(m, p, Blocks(v)) && HasPointer(p.typ) && LiesIn(m, p, v, q)
    requires v.buf in Blocks(v) && bs <= Blocks(v) && v.buf !in bs && (x == PointerCell(p) || x == v.buf)
    ensures !InZone(m, q, bs, x)
  {
    hide Blocks;
    assert !Overlap(p.offset, p.End(), v.buf, v.buf + m.blocks[v.buf]);
    forall b | b in bs && b in m.blocks ensures !(b <= x < b + m.blocks[b]) {
      assert !Overlap(p.offset, p.End(), b, b + m.blocks[b]);
      assert !Overlap(v.buf, v.buf + m.blocks[v.buf], b, b + m.blocks[b]);
    }
  }

  lemma ReplacedDenotes(m: Mem, m': Mem, p: Place, v: Value, i: nat, w: Value, a: nat, n: nat)
    requires Good(m, p, v) && i < |Kids(v)| && Fresh(m, p, a, n)
    requires Changed(m, m', Parts(p, v)[i], Blocks(Kids(v)[i]), a, n) && Denotes(m', Parts(p, v)[i], w)
    ensures Denotes(m', p, WithKid(v, i, w))
  {
    PartsOfWithKid(p, v, i, w);
    var v' := WithKid(v, i, w);
    if HasPointer(p.typ) {
      OwnWordsStay(m, m', p, v, i, a, n);
      assert PointsTo(m', p, v');
    }
    forall j | 0 <= j < |Kids(v)| ensures Denotes(m', Parts(p, v')[j], Kids(v')[j]) {
      if j != i {
        OtherPartStays(m, m', p, v, i, j, a, n);
      }
    }
  }

  lemma ReplacedSeparate(m: Mem, p: Place, v: Value, i: nat, w: Value, a: nat, n: nat)
    requires Good(m, p, v) && i < |Kids(v)| && Fresh(m, p, a, n) && Separate(w)
    requires Blocks(w) <= Blocks(Kids(v)[i]) + NewBlock(a, n)
    ensures Separate(WithKid(v, i, w)) && Blocks(WithKid(v, i, w)) <= Blocks(v) + NewBlock(a, n)
  {
    var v' := WithKid(v, i, w);
    PartsOfWithKid(p, v, i, w);
    BlocksAllocated(m, p, v);
    if n > 0 {
      NewBlockIsNew(m, p, a, n);
    }
    forall j | 0 <= j < |Kids(v)|
      ensures Separate(Kids(v')[j]) && Own(v') !! Blocks(Kids(v')[j])
      ensures Blocks(Kids(v')[j]) <= Blocks(v) + NewBlock(a, n)
      ensures j != i ==> Blocks(Kids(v')[j]) !! Blocks(w)
    {
      PartBlocks(v, j);
      OwnIsPart(v);
      if j != i {
        SeparateKids(v, i, j);
      }
    }
    forall j, k | 0 <= j < k < |Kids(v)| ensures Blocks(Kids(v')[j]) !! Blocks(Kids(v')[k]) {
      if j != i && k != i {
        SeparateKids(v, j, k);
      }
    }
    BlocksOfKids(v', Blocks(v) + NewBlock(a, n));
  }

  lemma OwnIsPart(v: Value)
    ensures Own(v) <= Blocks(v)
  {
  }

  lemma BlocksOfKids(v: Value, all: set<nat>)
    requires Own(v) <= all && forall j :: 0 <= j < |Kids(v)| ==> Blocks(Kids(v)[j]) <= all
    ensures Blocks(v) <= all
  {
  }

  /** A change inside one part leaves the rest as it was and no buffer shared. */
  lemma ReplaceKid(m: Mem, m': Mem, p: Place, v: Value, i: nat, w: Value, a: nat, n: nat)
    requires Good(m, p, v) && i < |Kids(v)| && Fresh(m, p, a, n)
    requires Changed(m, m', Parts(p, v)[i], Blocks(Kids(v)[i]), a, n) && Good(m', Parts(p, v)[i], w)
    requires Blocks(w) <= Blocks(Kids(v)[i]) + NewBlock(a, n)
    ensures Good(m', p, WithKid(v, i, w)) && Changed(m, m', p, Blocks(v), a, n)
    ensures Blocks(WithKid(v, i, w)) <= Blocks(v) + NewBlock(a, n)
  {
    HeapStaysOk(m, m', p, a, n);
    ReplacedDenotes(m, m', p, v, i, w, a, n);
    ReplacedSeparate(m, p, v, i, w, a, n);
    forall x: nat | Word(m', x) != Word(m, x) ensures InZone(m, p, Blocks(v), x) || a <= x < a + n {
      if !(a <= x < a + n) {
        PartZone(m, p, v, i, x);
      }
    }
    ClearAfter(m, m', p, Blocks(v), Blocks(WithKid(v, i, w)), a, n);
    hide Denotes, Separate, Blocks, HeapOk, InZone;
  }

  lemma ClearAfter(m: Mem, m': Mem, p: Place, bs: set<nat>, bs': set<nat>, a: nat, n: nat)
    requires HeapOk(m) && Clear(m, p, bs) && Fresh(m, p, a, n) && m'.blocks == if n > 0 then m.blocks[a := n] else m.blocks
    requires bs' <= bs + NewBlock(a, n)
    ensures Clear(m', p, bs')
  {
  }

  /** A block that is fresh for the whole is fresh for each part. */
  lemma FreshForPart(m: Mem, p: Place, v: Value, i: nat, a: nat, n: nat)
    requires Good(m, p, v) && i < |Kids(v)| && Fresh(m, p, a, n)
    ensures Fresh(m, Parts(p, v)[i], a, n)
  {
    GoodDenotes(m, p, v);
    PartInside(m, p, v, i);
    hide Good, Parts, Blocks;
  }

  // ---- The updates themselves --------------------------------------------------------------

  /** Strings: a new buffer, or null. Arrays: a larger buffer, one more zeroed element, or no elements.
      Scalars: a word of the slot is stored. */
  datatype Update = SetText(a: nat, n: nat) | ClearText | Grow(a: nat, n: nat) | Push | Clean | Store(k: nat, word: nat)

  /** The block an update allocates. */
  function Address(u: Update): nat {
    if u.SetText? || u.Grow? then u.a else 0
  }

  function Size(u: Update): nat {
    if u.SetText? || u.Grow? then u.n else 0
  }

  function CountIn(m: Mem, q: Place): nat {
    if Word(m, PointerCell(q)) == 0 then 0 else Word(m, Word(m, PointerCell(q)))
  }

  predicate Within(x: nat, a: nat, n: nat) {
    a <= x < a + n
  }

  /** A word of a grown array's buffer: the count, then the elements copied over, then zeros. */
  function GrownWord(m: Mem, q: Place, a: nat, x: nat): nat
    requires q.typ.Array?
  {
    if x == a then CountIn(m, q)
    else if Within(x, a + HEADER, CountIn(m, q) * SlotSize(q.typ.item)) then Word(m, Word(m, PointerCell(q)) + (x - a))
    else 0
  }

  function GrownWords(m: Mem, q: Place, a: nat, n: nat): map<nat, nat>
    requires q.typ.Array?
  {
    map x: nat | x < a + n && Within(x, a, n) :: GrownWord(m, q, a, x)
  }

  function ZeroWords(start: nat, n: nat): map<nat, nat> {
    map x: nat | x < start + n && Within(x, start, n) :: 0
  }

  /** What the calls do to memory. */
  function Apply(m: Mem, q: Place, u: Update): Mem
    requires u.Grow? || u.Push? ==> q.typ.Array?
  {
    var buf, cell := Word(m, PointerCell(q)), PointerCell(q);
    match u
    case SetText(a, n) => Mem(m.words[cell := a], m.blocks[a := n])
    case ClearText => m.(words := m.words[cell := 0])
    case Grow(a, n) => Mem((m.words + GrownWords(m, q, a, n))[cell := a], m.blocks[a := n])
    case Push =>
      var size := SlotSize(q.typ.item);
      m.(words := (m.words + ZeroWords(buf + HEADER + CountIn(m, q) * size, size))[buf := CountIn(m, q) + 1])
    case Clean => if buf == 0 then m else m.(words := m.words[buf := 0])
    case Store(k, word) => m.(words := m.words[q.offset + k := word])
  }

  /** Which updates a slot takes: a grown buffer has room for what there is, a push needs room for one more. */
  ghost predicate Takes(m: Mem, q: Place, v: Value, u: Update) {
    match u
    case SetText(_, n) => q.typ.Text? && n > 0
    case ClearText => q.typ.Text?
    case Grow(_, n) => q.typ.Array? && v.Items? && HEADER + |v.items| * SlotSize(q.typ.item) <= n
    case Push =>
      && q.typ.Array? && Plainly(q.typ.item) && v.Items? && v.buf != 0 && v.buf in m.blocks
      && HEADER + (|v.items| + 1) * SlotSize(q.typ.item) <= m.blocks[v.buf]
    case Clean => q.typ.Array?
    case Store(k, _) => v.Plain? && k < SlotSize(q.typ)
  }

  function Updated(q: Place, v: Value, u: Update): Value {
    match u
    case SetText(a, _) => Chars(a)
    case ClearText => Chars(0)
    case Grow(a, _) => Items(a, Kids(v))
    case Push => if q.typ.Array? && v.Items? then Items(v.buf, v.items + [EmptyOf(q.typ.item)]) else v
    case Clean => if v.Items? then Items(v.buf, []) else v
    case Store(_, _) => v
  }

  /** The outcome at the slot itself. */
  ghost predicate Achieves(m: Mem, m': Mem, q: Place, v: Value, v': Value, a: nat, n: nat) {
    Good(m', q, v') && Changed(m, m', q, Blocks(v), a, n) && Blocks(v') <= Blocks(v) + NewBlock(a, n)
  }

  lemma TextAchieves(m: Mem, q: Place, v: Value, u: Update)
    requires Good(m, q, v) && Takes(m, q, v, u) && (u.SetText? || u.ClearText?) && Fresh(m, q, Address(u), Size(u))
    ensures Achieves(m, Apply(m, q, u), q, v, Updated(q, v, u), Address(u), Size(u))
  {
    var m', v' := Apply(m, q, u), Updated(q, v, u);
    HeapStaysOk(m, m', q, Address(u), Size(u));
    assert u.SetText? ==> u.n > 0 && u.a != 0;
    assert v'.Chars? && Kids(v') == [] && Own(v') == NewBlock(Address(u), Size(u));
    assert Blocks(v') == Own(v');
    assert PointsTo(m', q, v') && Denotes(m', q, v') && Separate(v');
    assert Clear(m', q, Blocks(v'));
    forall x: nat | Word(m', x) != Word(m, x) ensures InZone(m, q, Blocks(v), x) {
      assert x == PointerCell(q);
    }
  }

  lemma CleanAchieves(m: Mem, q: Place, v: Value)
    requires Good(m, q, v) && Takes(m, q, v, Clean)
    ensures Achieves(m, Apply(m, q, Clean), q, v, Updated(q, v, Clean), 0, 0)
  {
    var v' := Updated(q, v, Clean);
    BufferIsBlock(v);
    assert Kids(v') == [] && Blocks(v') == Own(v) && Own(v) <= Blocks(v);
    assert v.buf != 0 ==> HEADER + 0 * SlotSize(q.typ.item) <= m.blocks[v.buf];
  }

  // ---- Push --------------------------------------------------------------------------------

  function NextElement(q: Place, v: Value): nat
    requires q.typ.Array? && v.Items?
  {
    v.buf + HEADER + |v.items| * SlotSize(q.typ.item)
  }

  /** The words a push changes: the count, and the element after the last. */
  ghost predicate OnlyNext(m: Mem, m': Mem, buf: nat, next: nat, size: nat) {
    m'.blocks == m.blocks && forall x: nat :: Word(m', x) != Word(m, x) ==> x == buf || Within(x, next, size)
  }

  /** The next element lies in the buffer, behind the elements there are. */
  lemma NextFits(m: Mem, q: Place, v: Value) returns (next: nat, size: nat)
    requires Takes(m, q, v, Push)
    ensures q.typ.Array? && v.Items? && v.buf != 0 && v.buf in m.blocks
    ensures next == NextElement(q, v) && size == SlotSize(q.typ.item)
    ensures v.buf + HEADER <= next && next + size <= v.buf + m.blocks[v.buf]
  {
    next, size := NextElement(q, v), SlotSize(q.typ.item);
    Scaled(|v.items|, |v.items| + 1, size);
  }

  lemma ElementBeforeNext(q: Place, v: Value, j: nat)
    requires q.typ.Array? && v.Items? && j < |v.items|
    ensures var p := Parts(q, v)[j]; v.buf + HEADER <= p.offset && p.End() <= NextElement(q, v)
  {
    Scaled(j + 1, |v.items|, SlotSize(q.typ.item));
  }

  lemma PushChanges(m: Mem, q: Place, v: Value)
    requires Good(m, q, v) && Takes(m, q, v, Push)
    ensures var m', next, size := Apply(m, q, Push), NextElement(q, v), SlotSize(q.typ.item);
            && OnlyNext(m, m', v.buf, next, size) && Word(m', v.buf) == |v.items| + 1
            && forall x: nat :: Within(x, next, size) ==> Word(m', x) == 0
  {
    assert PointsTo(m, q, v);
    var next, size := NextFits(m, q, v);
    assert Word(m, PointerCell(q)) + HEADER + CountIn(m, q) * size == next;
    hide Denotes, Separate, Blocks, SlotSize, NextElement, PointsTo, Takes;
  }

  lemma BesideNext(m: Mem, m': Mem, p: Place, bs: set<nat>, buf: nat, next: nat, size: nat)
    requires HeapOk(m) && buf in m.blocks && buf !in bs && OnlyNext(m, m', buf, next, size)
    requires buf < p.offset && p.End() <= next && next + size <= buf + m.blocks[buf]
    ensures forall x: nat :: InZone(m, p, bs, x) ==> Word(m', x) == Word(m, x)
  {
    forall x: nat | InZone(m, p, bs, x) ensures Word(m', x) == Word(m, x) {
      if !(p.offset <= x < p.End()) {
        var b :| b in bs && b in m.blocks && b <= x < b + m.blocks[b];
        assert !Overlap(buf, buf + m.blocks[buf], b, b + m.blocks[b]);
      }
    }
  }

  lemma OldElementStays(m: Mem, m': Mem, q: Place, v: Value, j: nat, next: nat, size: nat)
    requires Good(m, q, v) && j < |Kids(v)| && v.Items? && v.buf != 0 && v.buf in m.blocks
    requires OnlyNext(m, m', v.buf, next, size) && v.buf < Parts(q, v)[j].offset && Parts(q, v)[j].End() <= next
    requires next + size <= v.buf + m.blocks[v.buf]
    ensures Denotes(m', Parts(q, v)[j], Kids(v)[j])
  {
    GoodDenotes(m, q, v);
    BufferIsBlock(v);
    assert Fits(q.typ, v) && Own(v) !! Blocks(Kids(v)[j]);
    PartIsGood(m, q, v, j);
    hide Good, Parts, Blocks, Separate, Denotes, HeapOk, SlotSize;
    BesideNext(m, m', Parts(q, v)[j], Blocks(Kids(v)[j]), v.buf, next, size);
    UnchangedZone(m, m', q, Parts(q, v)[j], Kids(v)[j], 0, 0);
  }

  lemma PushedPointsTo(m: Mem, m': Mem, q: Place, v: Value)
    requires Takes(m, q, v, Push) && m'.blocks == m.blocks
    requires Word(m', PointerCell(q)) == v.buf && Word(m', v.buf) == |v.items| + 1
    ensures PointsTo(m', q, Updated(q, v, Push))
  {
    assert |Updated(q, v, Push).items| == |v.items| + 1;
  }

  lemma PointerStays(m: Mem, m': Mem, q: Place, v: Value, next: nat, size: nat)
    requires Good(m, q, v) && q.typ.Array? && v.Items? && v.buf != 0 && v.buf in m.blocks
    requires OnlyNext(m, m', v.buf, next, size) && v.buf <= next && next + size <= v.buf + m.blocks[v.buf]
    ensures Word(m', PointerCell(q)) == v.buf
  {
    BufferIsBlock(v);
    hide PointsTo;
    PointerIsBuffer(m, q, v);
    assert !Overlap(q.offset, q.End(), v.buf, v.buf + m.blocks[v.buf]);
  }

  lemma PointerIsBuffer(m: Mem, q: Place, v: Value)
    requires Denotes(m, q, v) && HasPointer(q.typ)
    ensures Word(m, PointerCell(q)) == v.buf
  {
  }

  lemma NextIsEmpty(m: Mem, q: Place, v: Value)
    requires q.typ.Array? && Plainly(q.typ.item) && v.Items?
    requires forall x: nat :: Within(x, NextElement(q, v), SlotSize(q.typ.item)) ==> Word(m, x) == 0
    ensures var w := EmptyOf(q.typ.item);
            Denotes(m, ElementAt(v.buf, |v.items|, q.typ.item), w) && Blocks(w) == {} && Separate(w)
  {
    var next := ElementAt(v.buf, |v.items|, q.typ.item);
    forall x: nat | next.offset <= x < next.End() ensures Word(m, x) == 0 {
      assert Within(x, NextElement(q, v), SlotSize(q.typ.item));
    }
    ZeroedDenotesEmpty(m, next);
  }

  lemma PushedDenotes(m: Mem, q: Place, v: Value)
    requires q.typ.Array? && v.Items? && PointsTo(m, q, Updated(q, v, Push))
    requires forall j :: 0 <= j < |v.items| ==> Denotes(m, Parts(q, v)[j], Kids(v)[j])
    requires Denotes(m, ElementAt(v.buf, |v.items|, q.typ.item), EmptyOf(q.typ.item))
    ensures Denotes(m, q, Updated(q, v, Push))
  {
    hide PointsTo;
    var v', n := Updated(q, v, Push), |v.items|;
    forall j | 0 <= j < n + 1 ensures Denotes(m, Parts(q, v')[j], Kids(v')[j]) {
      if j < n {
        assert Parts(q, v')[j] == Parts(q, v)[j] && Kids(v')[j] == Kids(v)[j];
      }
    }
  }

  lemma OneMoreItem(buf: nat, items: seq<Value>, w: Value)
    requires Separate(Items(buf, items)) && Separate(w) && Blocks(w) == {}
    ensures Separate(Items(buf, items + [w])) && Blocks(Items(buf, items + [w])) == Blocks(Items(buf, items))
  {
    var v, v' := Items(buf, items), Items(buf, items + [w]);
    assert forall j :: 0 <= j < |items| ==> Kids(v')[j] == Kids(v)[j];
    assert Kids(v')[|items|] == w;
    hide Separate;
  }

  /** What a push does, without the arithmetic. */
  lemma PushEffect(m: Mem, q: Place, v: Value) returns (next: nat, size: nat)
    requires Good(m, q, v) && Takes(m, q, v, Push)
    ensures q.typ.Array? && v.Items? && v.buf != 0 && v.buf in m.blocks
    ensures OnlyNext(m, Apply(m, q, Push), v.buf, next, size)
    ensures v.buf <= next && next + size <= v.buf + m.blocks[v.buf]
    ensures PointsTo(Apply(m, q, Push), q, Updated(q, v, Push))
    ensures var w := EmptyOf(q.typ.item);
            Denotes(Apply(m, q, Push), ElementAt(v.buf, |v.items|, q.typ.item), w) && Blocks(w) == {} && Separate(w)
    ensures forall j :: 0 <= j < |v.items| ==> v.buf < Parts(q, v)[j].offset && Parts(q, v)[j].End() <= next
  {
    next, size := NextFits(m, q, v);
    PushChanges(m, q, v);
    NextIsEmpty(Apply(m, q, Push), q, v);
    PointerStays(m, Apply(m, q, Push), q, v, next, size);
    PushedPointsTo(m, Apply(m, q, Push), q, v);
    hide Apply, Takes, PointsTo, Denotes, Separate, Blocks, Good, NextElement, ElementAt, EmptyOf;
    forall j | 0 <= j < |v.items| ensures v.buf < Parts(q, v)[j].offset && Parts(q, v)[j].End() <= next {
      ElementBeforeNext(q, v, j);
    }
  }

  lemma PushAchieves(m: Mem, q: Place, v: Value)
    requires Good(m, q, v) && Takes(m, q, v, Push)
    ensures Achieves(m, Apply(m, q, Push), q, v, Updated(q, v, Push), 0, 0)
  {
    hide Apply, Takes, Parts, PointsTo, SlotSize, Denotes, Separate, Blocks, ElementAt, EmptyOf;
    var next, size := PushEffect(m, q, v);
    var m' := Apply(m, q, Push);
    forall j | 0 <= j < |v.items| ensures Denotes(m', Parts(q, v)[j], Kids(v)[j]) {
      OldElementStays(m, m', q, v, j, next, size);
    }
    PushedDenotes(m', q, v);
    OneMoreItem(v.buf, v.items, EmptyOf(q.typ.item));
    PushStaysInZone(m, m', q, v, next, size);
  }

  lemma PushStaysInZone(m: Mem, m': Mem, q: Place, v: Value, next: nat, size: nat)
    requires v.Items? && v.buf != 0 && v.buf in m.blocks && OnlyNext(m, m', v.buf, next, size)
    requires HeapOk(m) && v.buf <= next && next + size <= v.buf + m.blocks[v.buf]
    ensures Changed(m, m', q, Blocks(v), 0, 0)
  {
    BufferIsBlock(v);
    hide Blocks;
    forall x: nat | Word(m', x) != Word(m, x) ensures InZone(m, q, Blocks(v), x) {
      assert v.buf <= x < v.buf + m.blocks[v.buf];
    }
  }

  // ---- Grow --------------------------------------------------------------------------------

  ghost predicate SameAt(m: Mem, m': Mem, start: nat, start': nat, k: nat) {
    Word(m', start' + k) == Word(m, start + k)
  }

  /** The words [start + low, start + high) of m are found at start' in m'. */
  ghost predicate Copied(m: Mem, m': Mem, start: nat, start': nat, low: nat, high: nat) {
    forall k: nat :: low <= k < high ==> SameAt(m, m', start, start', k)
  }

  /** A slot copied elsewhere denotes the same, as long as the blocks behind it are as they were. */
  lemma {:induction false} Relocated(m: Mem, m': Mem, p: Place, p': Place, v: Value)
    requires HeapOk(m) && Denotes(m, p, v) && p'.typ == p.typ
    requires Copied(m, m', p.offset, p'.offset, 0, SlotSize(p.typ))
    requires forall b :: b in Blocks(v) ==> b in m.blocks && b in m'.blocks && m'.blocks[b] == m.blocks[b]
    requires forall b, x: nat :: b in Blocks(v) && b in m.blocks && b <= x < b + m.blocks[b] ==> Word(m', x) == Word(m, x)
    ensures Denotes(m', p', v)
    decreases v
  {
    if p.typ.Record? {
      forall i | 0 <= i < |Kids(v)| ensures Denotes(m', Parts(p', v)[i], Kids(v)[i]) {
        RelocatedField(m, m', p, p', v, i);
        PartBlocks(v, i);
        Relocated(m, m', Parts(p, v)[i], Parts(p', v)[i], Kids(v)[i]);
      }
    } else if HasPointer(p.typ) {
      assert SameAt(m, m', p.offset, p'.offset, 8);
      OwnIsPart(v);
      assert v.buf != 0 ==> v.buf in Own(v);
      assert v.buf in m.blocks ==> v.buf <= v.buf < v.buf + m.blocks[v.buf];
      assert PointsTo(m', p', v);
      forall i | 0 <= i < |Kids(v)| ensures Denotes(m', Parts(p', v)[i], Kids(v)[i]) {
        assert Parts(p', v)[i] == Parts(p, v)[i];
        ElementBehindStays(m, m', p, v, i);
      }
    }
  }

  lemma RelocatedField(m: Mem, m': Mem, p: Place, p': Place, v: Value, i: nat)
    requires p.typ.Record? && Fits(p.typ, v) && p'.typ == p.typ && i < |Kids(v)|
    requires Copied(m, m', p.offset, p'.offset, 0, SlotSize(p.typ))
    ensures var q, q' := Parts(p, v)[i], Parts(p', v)[i];
            q'.typ == q.typ && Copied(m, m', q.offset, q'.offset, 0, SlotSize(q.typ))
  {
    VisitsAreOffsets(p.offset + HEADER, p.typ.fields);
    VisitsAreOffsets(p'.offset + HEADER, p.typ.fields);
    SlotsFitInside(i, p.typ.fields);
    CopiedWithin(m, m', p.offset, p'.offset, SlotSize(p.typ), HEADER + OffsetAt(i, p.typ.fields), SlotSize(p.typ.fields[i].typ));
    hide SlotSize, OffsetAt, Copied;
  }

  lemma CopiedWithin(m: Mem, m': Mem, start: nat, start': nat, n: nat, at: nat, k: nat)
    requires Copied(m, m', start, start', 0, n) && at + k <= n
    ensures Copied(m, m', start + at, start' + at, 0, k)
  {
    var low, low' := start + at, start' + at;
    forall x: nat | x < k ensures SameAt(m, m', low, low', x) {
      assert SameAt(m, m', start, start', at + x);
    }
  }

  lemma ElementBehindStays(m: Mem, m': Mem, p: Place, v: Value, i: nat)
    requires HeapOk(m) && Denotes(m, p, v) && HasPointer(p.typ) && i < |Kids(v)|
    requires forall b :: b in Blocks(v) ==> b in m.blocks && b in m'.blocks && m'.blocks[b] == m.blocks[b]
    requires forall b, x: nat :: b in Blocks(v) && b in m.blocks && b <= x < b + m.blocks[b] ==> Word(m', x) == Word(m, x)
    ensures Denotes(m', Parts(p, v)[i], Kids(v)[i])
  {
    var q, w := Parts(p, v)[i], Kids(v)[i];
    PartInside(m, p, v, i);
    PartBlocks(v, i);
    BufferIsBlock(v);
    CellsInZone(m, q, w);
    hide Blocks, Parts, Denotes;
    forall x | x in Cells(m, q, w) || x in Blocks(w) ensures Word(m', x) == Word(m, x) {
      if q.offset <= x < q.End() {
        assert v.buf <= x < v.buf + m.blocks[v.buf];
      } else {
        var b :| b in Blocks(w) && b in m.blocks && b <= x < b + m.blocks[b];
        assert b in Blocks(v);
      }
    }
    DenotesFrame(m, m', q, w);
  }

  /** The words a grow changes: the pointer, and those of the new buffer. */
  lemma GrowChanges(m: Mem, q: Place, v: Value, a: nat, n: nat)
    requires Good(m, q, v) && Takes(m, q, v, Grow(a, n)) && Fresh(m, q, a, n)
    ensures var m' := Apply(m, q, Grow(a, n));
            && Word(m', PointerCell(q)) == a && Word(m', a) == |v.items|
            && (forall x: nat :: x != PointerCell(q) && !Within(x, a, n) ==> Word(m', x) == Word(m, x))
            && Copied(m, m', v.buf, a, HEADER, HEADER + |v.items| * SlotSize(q.typ.item))
  {
    var m' := Apply(m, q, Grow(a, n));
    assert PointsTo(m, q, v) && CountIn(m, q) == |v.items|;
    assert !Within(PointerCell(q), a, n);
    forall k: nat | HEADER <= k < HEADER + |v.items| * SlotSize(q.typ.item)
      ensures SameAt(m, m', v.buf, a, k)
    {
      assert Within(a + k, a, n) && a + k != PointerCell(q);
      assert v.items != [];
    }
  }

  lemma CopiedElement(m: Mem, m': Mem, buf: nat, a: nat, item: Type, count: nat, j: nat)
    requires j < count && Copied(m, m', buf, a, HEADER, HEADER + count * SlotSize(item))
    ensures Copied(m, m', ElementAt(buf, j, item).offset, ElementAt(a, j, item).offset, 0, SlotSize(item))
  {
    var size := SlotSize(item);
    Scaled(j + 1, count, size);
    forall k: nat | k < size ensures SameAt(m, m', ElementAt(buf, j, item).offset, ElementAt(a, j, item).offset, k) {
      assert SameAt(m, m', buf, a, HEADER + j * size + k);
    }
  }

  lemma GrownElement(m: Mem, m': Mem, q: Place, v: Value, a: nat, n: nat, j: nat)
    requires Good(m, q, v) && Takes(m, q, v, Grow(a, n)) && Fresh(m, q, a, n) && n > 0 && j < |v.items|
    requires m'.blocks == m.blocks[a := n]
    requires forall x: nat :: x != PointerCell(q) && !Within(x, a, n) ==> Word(m', x) == Word(m, x)
    requires Copied(m, m', v.buf, a, HEADER, HEADER + |v.items| * SlotSize(q.typ.item))
    ensures Denotes(m', ElementAt(a, j, q.typ.item), Kids(v)[j])
  {
    var w := Kids(v)[j];
    var p, p' := ElementAt(v.buf, j, q.typ.item), ElementAt(a, j, q.typ.item);
    assert Parts(q, v)[j] == p && Denotes(m, p, w);
    CopiedElement(m, m', v.buf, a, q.typ.item, |v.items|, j);
    PartBlocks(v, j);
    BlocksAllocated(m, p, w);
    NewBlockIsNew(m, q, a, n);
    hide Denotes, Separate, Blocks, SlotSize, Takes, Copied;
    forall b, x: nat | b in Blocks(w) && b in m.blocks && b <= x < b + m.blocks[b] ensures Word(m', x) == Word(m, x) {
      BehindIsElsewhere(m, q, Blocks(v), a, n, b, x);
    }
    Relocated(m, m', p, p', w);
  }

  lemma BehindIsElsewhere(m: Mem, q: Place, bs: set<nat>, a: nat, n: nat, b: nat, x: nat)
    requires Clear(m, q, bs) && Fresh(m, q, a, n) && n > 0 && b in bs && b in m.blocks && b <= x < b + m.blocks[b]
    requires HasPointer(q.typ)
    ensures x != PointerCell(q) && !Within(x, a, n)
  {
    assert !Overlap(q.offset, q.End(), b, b + m.blocks[b]) && !Overlap(b, b + m.blocks[b], a, a + n);
  }

  lemma RebufferedItems(m: Mem, q: Place, v: Value, a: nat)
    requires Good(m, q, v) && v.Items? && a !in m.blocks && a != 0
    ensures Separate(Items(a, v.items)) && Blocks(Items(a, v.items)) <= Blocks(v) + {a}
  {
    var v' := Items(a, v.items);
    BlocksAllocated(m, q, v);
    forall j | 0 <= j < |v.items| ensures Blocks(Kids(v')[j]) <= Blocks(v) && a !in Blocks(Kids(v')[j]) {
      PartBlocks(v, j);
    }
    assert Kids(v') == Kids(v) && Own(v') == {a};
    BlocksOfKids(v', Blocks(v) + {a});
  }

  lemma GrowAchieves(m: Mem, q: Place, v: Value, a: nat, n: nat)
    requires Good(m, q, v) && Takes(m, q, v, Grow(a, n)) && Fresh(m, q, a, n)
    ensures Achieves(m, Apply(m, q, Grow(a, n)), q, v, Updated(q, v, Grow(a, n)), a, n)
  {
    var m', v' := Apply(m, q, Grow(a, n)), Updated(q, v, Grow(a, n));
    HeapStaysOk(m, m', q, a, n);
    GrowChanges(m, q, v, a, n);
    forall j | 0 <= j < |v.items| ensures Denotes(m', Parts(q, v')[j], Kids(v')[j]) {
      GrownElement(m, m', q, v, a, n, j);
    }
    assert PointsTo(m', q, v') && Denotes(m', q, v');
    RebufferedItems(m, q, v, a);
    ClearAfter(m, m', q, Blocks(v), Blocks(v'), a, n);
    hide Denotes, Separate, Blocks, Apply;
    forall x: nat | Word(m', x) != Word(m, x) ensures InZone(m, q, Blocks(v), x) || a <= x < a + n {
      assert x == PointerCell(q) || Within(x, a, n);
    }
  }

  lemma StoreAchieves(m: Mem, q: Place, v: Value, k: nat, word: nat)
    requires Good(m, q, v) && Takes(m, q, v, Store(k, word))
    ensures Achieves(m, Apply(m, q, Store(k, word)), q, v, v, 0, 0)
  {
    assert !HasPointer(q.typ) && Kids(v) == [];
  }

  lemma Achieved(m: Mem, q: Place, v: Value, u: Update)
    requires Good(m, q, v) && Takes(m, q, v, u) && Fresh(m, q, Address(u), Size(u))
    ensures Achieves(m, Apply(m, q, u), q, v, Updated(q, v, u), Address(u), Size(u))
  {
    hide Good, Takes, Fresh, Achieves, Apply;
    match u
    case SetText(_, _) => TextAchieves(m, q, v, u);
    case ClearText => TextAchieves(m, q, v, u);
    case Grow(a, n) => GrowAchieves(m, q, v, a, n);
    case Push => PushAchieves(m, q, v);
    case Clean => CleanAchieves(m, q, v);
    case Store(k, word) => StoreAchieves(m, q, v, k, word);
  }

  // ---- At any depth ------------------------------------------------------------------------

  /** The path names a part of a part ... of the value. */
  predicate Leads(p: Place, v: Value, path: seq<nat>)
    decreases |path|
  {
    path == [] || (Fits(p.typ, v) && path[0] < |Kids(v)| && Leads(Parts(p, v)[path[0]], Kids(v)[path[0]], path[1..]))
  }

  function PlaceAt(p: Place, v: Value, path: seq<nat>): Place
    requires Leads(p, v, path)
    decreases |path|
  {
    if path == [] then p else PlaceAt(Parts(p, v)[path[0]], Kids(v)[path[0]], path[1..])
  }

  function ValueAt(p: Place, v: Value, path: seq<nat>): Value
    requires Leads(p, v, path)
    decreases |path|
  {
    if path == [] then v else ValueAt(Parts(p, v)[path[0]], Kids(v)[path[0]], path[1..])
  }

  /** The value with the part at the path updated, and no other. */
  function UpdatedAt(p: Place, v: Value, path: seq<nat>, u: Update): Value
    requires Leads(p, v, path)
    decreases |path|
  {
    if path == [] then Updated(p, v, u)
    else WithKid(v, path[0], UpdatedAt(Parts(p, v)[path[0]], Kids(v)[path[0]], path[1..], u))
  }

  /** An update anywhere inside a value does what it should and leaves everything else alone. */
  lemma {:induction false} UpdateKeepsGood(m: Mem, p: Place, v: Value, path: seq<nat>, u: Update)
    requires Good(m, p, v) && Leads(p, v, path) && Takes(m, PlaceAt(p, v, path), ValueAt(p, v, path), u)
    requires Fresh(m, p, Address(u), Size(u))
    ensures Achieves(m, Apply(m, PlaceAt(p, v, path), u), p, v, UpdatedAt(p, v, path, u), Address(u), Size(u))
    decreases |path|
  {
    hide Good, Fresh, Apply, Updated, Parts, Kids, Blocks, Changed, NewBlock;
    if path == [] {
      Achieved(m, p, v, u);
    } else {
      var i := path[0];
      PartIsGood(m, p, v, i);
      FreshForPart(m, p, v, i, Address(u), Size(u));
      UpdateKeepsGood(m, Parts(p, v)[i], Kids(v)[i], path[1..], u);
      var w := UpdatedAt(Parts(p, v)[i], Kids(v)[i], path[1..], u);
      ReplaceKid(m, Apply(m, PlaceAt(p, v, path), u), p, v, i, w, Address(u), Size(u));
    }
  }

  // ---- Whole runs --------------------------------------------------------------------------

  datatype Made = Made(path: seq<nat>, update: Update)

  /** One update of the value in a slot, with a block malloc may hand out. */
  ghost predicate Step(p: Place, m: Mem, v: Value, made: Made, m': Mem, v': Value) {
    && Leads(p, v, made.path)
    && Takes(m, PlaceAt(p, v, made.path), ValueAt(p, v, made.path), made.update)
    && Fresh(m, p, Address(made.update), Size(made.update))
    && m' == Apply(m, PlaceAt(p, v, made.path), made.update)
    && v' == UpdatedAt(p, v, made.path, made.update)
  }

  /** Memory and value, from a zeroed slot on. */
  ghost predicate IsRun(p: Place, ms: seq<Mem>, vs: seq<Value>, updates: seq<Made>) {
    && |ms| == |vs| == |updates| + 1
    && Plainly(p.typ) && HeapOk(ms[0]) && vs[0] == EmptyOf(p.typ)
    && (forall a: nat :: p.offset <= a < p.End() ==> Word(ms[0], a) == 0)
    && forall i :: 0 <= i < |updates| ==> Step(p, ms[i], vs[i], updates[i], ms[i + 1], vs[i + 1])
  }

  /** Whatever is set, pushed, grown and cleared, at whatever depth, the slot denotes the value one expects,
      and no two pointers share a buffer. */
  lemma {:induction false} RunKeepsGood(p: Place, ms: seq<Mem>, vs: seq<Value>, updates: seq<Made>, n: nat)
    requires IsRun(p, ms, vs, updates) && n <= |updates|
    ensures Good(ms[n], p, vs[n])
  {
    if n == 0 {
      ZeroedDenotesEmpty(ms[0], p);
    } else {
      RunKeepsGood(p, ms, vs, updates, n - 1);
      var made := updates[n - 1];
      assert Step(p, ms[n - 1], vs[n - 1], made, ms[n], vs[n]);
      hide Good, Takes, Fresh, Apply, UpdatedAt, Leads;
      UpdateKeepsGood(ms[n - 1], p, vs[n - 1], made.path, made.update);
    }
  }
}
