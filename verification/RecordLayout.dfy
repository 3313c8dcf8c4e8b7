/**
 Record layout: where every field of every nested record lives, computed from the types alone, and why
 fields never interfere. A record is an 8-byte header followed by its fields' slots in order.
 */
module RecordLayout {
  import opened Wrappers

  datatype Type =
    | Boolean
    | Int32
    | Float32
    | Int64
    | Float64
    | Text
    | Object
    | Array(item: Type)
    | Record(fields: seq<Member>)

  datatype Member = Member(name: string, typ: Type)

  const HEADER: nat := 8

  function SlotSize(t: Type): (n: nat)
    ensures n >= 8
  {
    match t
    case Boolean => 8
    case Int32 => 8
    case Float32 => 8
    case Record(fields) => HEADER + TotalSize(fields)
    case _ => 16
  }

  function TotalSize(fields: seq<Member>): nat {
    if fields == [] then 0 else SlotSize(fields[0].typ) + TotalSize(fields[1..])
  }

  // ---- The offset and name recursions ------------------------------------------------------

  function OffsetAt(i: nat, fields: seq<Member>): nat {
    if fields == [] then 0
    else if i == 0 then 0
    else SlotSize(fields[0].typ) + OffsetAt(i - 1, fields[1..])
  }

  function ComputeOffset(i: nat, acc: nat, fields: seq<Member>): nat
    decreases |fields|
  {
    if fields == [] then acc
    else if i == 0 then acc
    else ComputeOffset(i - 1, acc + SlotSize(fields[0].typ), fields[1..])
  }

  const NOT_FOUND: int := -1

  function FindFieldIndex(name: string, i: nat, fields: seq<Member>): int
    decreases |fields|
  {
    if fields == [] then NOT_FOUND
    else if name == fields[0].name then i
    else FindFieldIndex(name, i + 1, fields[1..])
  }

  function CountName(name: string, fields: seq<Member>): nat {
    if fields == [] then 0 else (if name == fields[0].name then 1 else 0) + CountName(name, fields[1..])
  }

  predicate AllNamesUnique(fields: seq<Member>) {
    fields == [] || (CountName(fields[0].name, fields) == 1 && AllNamesUnique(fields[1..]))
  }

  function Min(i: nat, j: nat): nat { if i < j then i else j }

  /** The accumulator form, the direct recursion and the sum of the preceding slots are one offset. */
  lemma {:induction false} OffsetsAgree(i: nat, acc: nat, fields: seq<Member>)
    ensures ComputeOffset(i, acc, fields) == acc + OffsetAt(i, fields)
    ensures OffsetAt(i, fields) == TotalSize(fields[..Min(i, |fields|)])
    decreases |fields|
  {
    if fields != [] && i > 0 {
      OffsetsAgree(i - 1, acc + SlotSize(fields[0].typ), fields[1..]);
      assert fields[..Min(i, |fields|)][1..] == fields[1..][..Min(i - 1, |fields| - 1)];
    } else {
      assert fields[..Min(i, |fields|)] == [];
    }
  }

  /** Slots follow one another without gap or overlap. */
  lemma {:induction false} SlotsAreAdjacent(i: nat, fields: seq<Member>)
    requires i < |fields|
    ensures OffsetAt(i + 1, fields) == OffsetAt(i, fields) + SlotSize(fields[i].typ)
    decreases |fields|
  {
    if i > 0 {
      SlotsAreAdjacent(i - 1, fields[1..]);
    }
  }

  lemma {:induction false} SlotsAreOrdered(i: nat, j: nat, fields: seq<Member>)
    requires i < j <= |fields|
    ensures OffsetAt(i, fields) + SlotSize(fields[i].typ) <= OffsetAt(j, fields)
    decreases j
  {
    SlotsAreAdjacent(j - 1, fields);
    if i < j - 1 {
      SlotsAreOrdered(i, j - 1, fields);
    }
  }

  lemma SlotsFitInside(i: nat, fields: seq<Member>)
    requires i < |fields|
    ensures OffsetAt(i, fields) + SlotSize(fields[i].typ) <= TotalSize(fields)
  {
    SlotsAreOrdered(i, |fields|, fields);
    OffsetsAgree(|fields|, 0, fields);
    assert fields[..|fields|] == fields;
  }

  // ---- Sizes and offsets as counts ---------------------------------------------------------

  /** Leaves whose payload takes four bytes, leaves whose payload takes eight, and records. */
  datatype Tally = Tally(small: nat, large: nat, records: nat) {
    function Plus(other: Tally): Tally {
      Tally(small + other.small, large + other.large, records + other.records)
    }

    function Bytes(): nat { 8 * small + 16 * large + 8 * records }
  }

  predicate Small(t: Type) {
    t.Boolean? || t.Int32? || t.Float32?
  }

  /** What a slot of this type consists of, at every level of nesting. */
  function Makeup(t: Type): Tally
    decreases t, 0
  {
    if t.Record? then Tally(0, 0, 1).Plus(ContentsOf(t.fields)) else if Small(t) then Tally(1, 0, 0) else Tally(0, 1, 0)
  }

  function ContentsOf(fields: seq<Member>): Tally
    decreases fields, 1
  {
    if fields == [] then Tally(0, 0, 0) else Makeup(fields[0].typ).Plus(ContentsOf(fields[1..]))
  }

  lemma BytesAdd(one: Tally, two: Tally)
    ensures one.Plus(two).Bytes() == one.Bytes() + two.Bytes()
  {
  }

  lemma OneByOne(fields: seq<Member>)
    ensures fields == [] ==> TotalSize(fields) == 0 && ContentsOf(fields) == Tally(0, 0, 0)
    ensures fields != [] ==>
      && TotalSize(fields) == SlotSize(fields[0].typ) + TotalSize(fields[1..])
      && ContentsOf(fields) == Makeup(fields[0].typ).Plus(ContentsOf(fields[1..]))
  {
    hide SlotSize, Makeup;
  }

  lemma RecordSize(t: Type)
    requires t.Record?
    ensures SlotSize(t) == 8 + TotalSize(t.fields) && Makeup(t) == Tally(0, 0, 1).Plus(ContentsOf(t.fields))
  {
    hide TotalSize, ContentsOf;
  }

  lemma LeafSize(t: Type)
    requires !t.Record?
    ensures SlotSize(t) == Makeup(t).Bytes() && Makeup(t) == if Small(t) then Tally(1, 0, 0) else Tally(0, 1, 0)
  {
    hide TotalSize, ContentsOf;
  }

  lemma {:induction false} SizesAdd(t: Type)
    ensures SlotSize(t) == Makeup(t).Bytes()
    decreases t, 0
  {
    hide SlotSize, Makeup, TotalSize, ContentsOf;
    if t.Record? {
      TotalsAdd(t.fields);
      BytesAdd(Tally(0, 0, 1), ContentsOf(t.fields));
      RecordSize(t);
    } else {
      LeafSize(t);
    }
  }

  lemma {:induction false} TotalsAdd(fields: seq<Member>)
    ensures TotalSize(fields) == ContentsOf(fields).Bytes()
    decreases fields, 1
  {
    hide SlotSize, Makeup, TotalSize, ContentsOf;
    OneByOne(fields);
    if fields != [] {
      SizesAdd(fields[0].typ);
      TotalsAdd(fields[1..]);
      BytesAdd(Makeup(fields[0].typ), ContentsOf(fields[1..]));
    }
  }

  /** Eight bytes for each small leaf and each record's header, sixteen for each other leaf. */
  lemma SizesAreCounts(t: Type)
    ensures SlotSize(t) == 8 * Makeup(t).small + 16 * Makeup(t).large + 8 * Makeup(t).records
  {
    hide SlotSize, Makeup;
    SizesAdd(t);
  }

  /** The number of fields of one size or the other. */
  function Count(fields: seq<Member>, small: bool): nat {
    if fields == [] then 0 else (if Small(fields[0].typ) == small then 1 else 0) + Count(fields[1..], small)
  }

  lemma {:induction false} FlatContents(fields: seq<Member>)
    requires forall i :: 0 <= i < |fields| ==> !fields[i].typ.Record?
    ensures ContentsOf(fields) == Tally(Count(fields, true), Count(fields, false), 0)
    decreases |fields|
  {
    hide Makeup, ContentsOf, TotalSize;
    OneByOne(fields);
    if fields != [] {
      FlatContents(fields[1..]);
      LeafSize(fields[0].typ);
    }
  }

  /** A record without nested records: its size and the place of every field, from the numbers of fields. */
  lemma FlatRecord(fields: seq<Member>, i: nat)
    requires (forall k :: 0 <= k < |fields| ==> !fields[k].typ.Record?) && i <= |fields|
    ensures SlotSize(Record(fields)) == 8 + 8 * Count(fields, true) + 16 * Count(fields, false)
    ensures HEADER + ComputeOffset(i, 0, fields) == 8 + 8 * Count(fields[..i], true) + 16 * Count(fields[..i], false)
  {
    hide Count, ContentsOf;
    FlatContents(fields);
    FlatContents(fields[..i]);
    TotalsAdd(fields);
    OffsetsAgree(i, 0, fields);
    TotalsAdd(fields[..i]);
  }

  // ---- Names -------------------------------------------------------------------------------

  ghost predicate NamesDistinct(fields: seq<Member>) {
    forall i, j :: 0 <= i < j < |fields| ==> fields[i].name != fields[j].name
  }

  lemma {:induction false} CountIsZeroExactlyWhenAbsent(name: string, fields: seq<Member>)
    ensures CountName(name, fields) == 0 <==> forall i :: 0 <= i < |fields| ==> fields[i].name != name
  {
    if fields != [] {
      CountIsZeroExactlyWhenAbsent(name, fields[1..]);
      assert forall i :: 1 <= i < |fields| ==> fields[i] == fields[1..][i - 1];
    }
  }

  /** The compile-time check says exactly that no name occurs twice. */
  lemma {:induction false} UniqueExactlyWhenDistinct(fields: seq<Member>)
    ensures AllNamesUnique(fields) <==> NamesDistinct(fields)
  {
    if fields != [] {
      var rest := fields[1..];
      UniqueExactlyWhenDistinct(rest);
      CountIsZeroExactlyWhenAbsent(fields[0].name, rest);
      assert forall i :: 1 <= i < |fields| ==> fields[i] == rest[i - 1];
      if NamesDistinct(fields) {
        forall i, j | 0 <= i < j < |rest| ensures rest[i].name != rest[j].name {
          assert rest[i] == fields[i + 1] && rest[j] == fields[j + 1];
        }
      }
    }
  }

  /** The search finds the first field of that name, and -1 exactly when there is none. */
  lemma {:induction false} FindIsFirst(name: string, from: nat, fields: seq<Member>)
    ensures var k := FindFieldIndex(name, from, fields);
            if k == NOT_FOUND then forall i :: 0 <= i < |fields| ==> fields[i].name != name
            else from <= k < from + |fields| && fields[k - from].name == name
                 && forall i :: 0 <= i < k - from ==> fields[i].name != name
    decreases |fields|
  {
    if fields != [] && fields[0].name != name {
      FindIsFirst(name, from + 1, fields[1..]);
      assert forall i :: 1 <= i < |fields| ==> fields[i] == fields[1..][i - 1];
    }
  }

  /** With unique names, search inverts naming. */
  lemma FindInvertsNaming(i: nat, fields: seq<Member>)
    requires AllNamesUnique(fields) && i < |fields|
    ensures FindFieldIndex(fields[i].name, 0, fields) == i
  {
    FindIsFirst(fields[i].name, 0, fields);
    UniqueExactlyWhenDistinct(fields);
  }

  // ---- Paths -------------------------------------------------------------------------------

  /** Names unique at every level of nesting. */
  predicate WellFormed(t: Type) {
    match t
    case Record(fields) => AllNamesUnique(fields) && forall i :: 0 <= i < |fields| ==> WellFormed(fields[i].typ)
    case Array(item) => WellFormed(item)
    case _ => true
  }

  /** A slot of some type at some offset from the start of the outermost record. */
  datatype Place = Place(offset: nat, typ: Type) {
    function End(): nat { offset + SlotSize(typ) }
  }

  /** One `get<Name>()`. */
  function Get(p: Place, name: string): Option<Place> {
    if !p.typ.Record? then None
    else
      var k := FindFieldIndex(name, 0, p.typ.fields);
      FindIsFirst(name, 0, p.typ.fields);
      if k == NOT_FOUND then None
      else Some(Place(p.offset + HEADER + ComputeOffset(k, 0, p.typ.fields), p.typ.fields[k].typ))
  }

  /** A chain of them. */
  function Locate(p: Place, path: seq<string>): Option<Place>
    decreases |path|
  {
    if path == [] then Some(p)
    else match Get(p, path[0])
         case None => None
         case Some(inner) => Locate(inner, path[1..])
  }

  ghost predicate Apart(p: Place, q: Place) {
    p.End() <= q.offset || q.End() <= p.offset
  }

  ghost predicate Inside(p: Place, q: Place) {
    q.offset <= p.offset && p.End() <= q.End()
  }

  lemma GetStaysInside(p: Place, name: string)
    requires Get(p, name).Some?
    ensures Inside(Get(p, name).value, p) && Get(p, name).value.offset >= p.offset + HEADER
  {
    var k := FindFieldIndex(name, 0, p.typ.fields);
    FindIsFirst(name, 0, p.typ.fields);
    OffsetsAgree(k, 0, p.typ.fields);
    SlotsFitInside(k, p.typ.fields);
  }

  lemma GetsAreApart(p: Place, name: string, other: string)
    requires Get(p, name).Some? && Get(p, other).Some? && name != other
    ensures Apart(Get(p, name).value, Get(p, other).value)
  {
    var fields := p.typ.fields;
    var i, j := FindFieldIndex(name, 0, fields), FindFieldIndex(other, 0, fields);
    FindIsFirst(name, 0, fields);
    FindIsFirst(other, 0, fields);
    OffsetsAgree(i, 0, fields);
    OffsetsAgree(j, 0, fields);
    if i < j {
      SlotsAreOrdered(i, j, fields);
    } else {
      SlotsAreOrdered(j, i, fields);
    }
  }

  /** Every path stays inside the record; a path of at least one name stays off its header. */
  lemma {:induction false} PathsStayInside(p: Place, path: seq<string>)
    requires Locate(p, path).Some?
    ensures Inside(Locate(p, path).value, p)
    ensures path != [] ==> Locate(p, path).value.offset >= p.offset + HEADER
    decreases |path|
  {
    if path != [] {
      GetStaysInside(p, path[0]);
      PathsStayInside(Get(p, path[0]).value, path[1..]);
    }
  }

  /** Paths of which neither leads through the other lead to disjoint slots. */
  lemma {:induction false} PathsAreApart(p: Place, one: seq<string>, two: seq<string>)
    requires Locate(p, one).Some? && Locate(p, two).Some?
    requires !(one <= two) && !(two <= one)
    ensures Apart(Locate(p, one).value, Locate(p, two).value)
    decreases |one|
  {
    PathsStayInside(Get(p, one[0]).value, one[1..]);
    PathsStayInside(Get(p, two[0]).value, two[1..]);
    if one[0] == two[0] {
      assert one == [one[0]] + one[1..] && two == [two[0]] + two[1..];
      PathsAreApart(Get(p, one[0]).value, one[1..], two[1..]);
    } else {
      GetsAreApart(p, one[0], two[0]);
    }
  }

  lemma {:induction false} LocateInSteps(p: Place, one: seq<string>, two: seq<string>)
    requires Locate(p, one).Some?
    ensures Locate(p, one + two) == Locate(Locate(p, one).value, two)
    decreases |one|
  {
    if one == [] {
      assert one + two == two;
    } else {
      LocateInSteps(Get(p, one[0]).value, one[1..], two);
      assert (one + two)[1..] == one[1..] + two;
    }
  }

  /** Everything laid out before the end of a path: on every level the record's header and the fields before
      the one taken. */
  ghost function Passed(t: Type, path: seq<string>): Tally
    decreases |path|
  {
    if path == [] || !t.Record? then Tally(0, 0, 0)
    else
      var k := FindFieldIndex(path[0], 0, t.fields);
      FindIsFirst(path[0], 0, t.fields);
      if k == NOT_FOUND then Tally(0, 0, 0)
      else Tally(0, 0, 1).Plus(ContentsOf(t.fields[..k])).Plus(Passed(t.fields[k].typ, path[1..]))
  }

  lemma {:induction false} PathsPass(p: Place, path: seq<string>)
    requires Locate(p, path).Some?
    ensures Locate(p, path).value.offset == p.offset + Passed(p.typ, path).Bytes()
    decreases |path|
  {
    if path != [] {
      var k := FindFieldIndex(path[0], 0, p.typ.fields);
      FindIsFirst(path[0], 0, p.typ.fields);
      OffsetsAgree(k, 0, p.typ.fields);
      TotalsAdd(p.typ.fields[..k]);
      PathsPass(Get(p, path[0]).value, path[1..]);
      hide SlotSize, ContentsOf, ComputeOffset, OffsetAt, TotalSize;
    }
  }

  /** Where a chain of gets ends, as a number of bytes. */
  lemma PathsLieAt(p: Place, path: seq<string>)
    requires Locate(p, path).Some?
    ensures var passed := Passed(p.typ, path);
            Locate(p, path).value.offset == p.offset + 8 * passed.small + 16 * passed.large + 8 * passed.records
  {
    hide Locate, Passed;
    PathsPass(p, path);
  }

  ghost predicate IsLeaf(there: Option<Place>) {
    there.Some? && !there.value.typ.Record?
  }

  /** Distinct leaves never share a byte. */
  lemma LeavesAreApart(p: Place, one: seq<string>, two: seq<string>)
    requires IsLeaf(Locate(p, one)) && IsLeaf(Locate(p, two)) && one != two
    ensures Apart(Locate(p, one).value, Locate(p, two).value)
  {
    if one <= two {
      LeafEndsPath(p, one, two);
    } else if two <= one {
      LeafEndsPath(p, two, one);
    } else {
      PathsAreApart(p, one, two);
    }
  }

  lemma LeafEndsPath(p: Place, one: seq<string>, two: seq<string>)
    requires IsLeaf(Locate(p, one)) && Locate(p, two).Some? && one <= two
    ensures one == two
  {
    assert two == one + two[|one|..];
    LocateInSteps(p, one, two[|one|..]);
  }

  /** No leaf covers a byte of the header of any record around or beside it. */
  lemma HeadersAreNeverCovered(p: Place, leaf: seq<string>, record: seq<string>)
    requires IsLeaf(Locate(p, leaf)) && Locate(p, record).Some? && Locate(p, record).value.typ.Record?
    ensures var l, r := Locate(p, leaf).value, Locate(p, record).value;
            l.End() <= r.offset || r.offset + HEADER <= l.offset
  {
    if record <= leaf {
      assert leaf == record + leaf[|record|..];
      LocateInSteps(p, record, leaf[|record|..]);
      PathsStayInside(Locate(p, record).value, leaf[|record|..]);
    } else if leaf <= record {
      LeafEndsPath(p, leaf, record);
    } else {
      PathsAreApart(p, leaf, record);
    }
  }

  // ---- Reading and writing payloads --------------------------------------------------------

  type Bytes = nat -> int

  /** The payload of a leaf: the second half of its slot. */
  function PayloadAt(p: Place): (at: nat)
    requires !p.typ.Record?
    ensures p.offset < at < p.End()
  {
    p.offset + SlotSize(p.typ) / 2
  }

  function PayloadSize(t: Type): nat
    requires !t.Record?
  {
    SlotSize(t) / 2
  }

  function ReadLeaf(mem: Bytes, p: Place): seq<int>
    requires !p.typ.Record?
  {
    seq(PayloadSize(p.typ), i requires 0 <= i < PayloadSize(p.typ) => mem(PayloadAt(p) + i))
  }

  function WriteLeaf(mem: Bytes, p: Place, payload: seq<int>): Bytes
    requires !p.typ.Record? && |payload| == PayloadSize(p.typ)
  {
    (a: nat) => if PayloadAt(p) <= a < PayloadAt(p) + |payload| then payload[a - PayloadAt(p)] else mem(a)
  }

  lemma PayloadIsHalf(p: Place)
    requires !p.typ.Record?
    ensures var w := if Small(p.typ) then 4 else 8; PayloadAt(p) == p.offset + w && PayloadSize(p.typ) == w
  {
  }

  /** The bytes of a leaf: the last four of a slot of eight, the last eight of a slot of sixteen. */
  lemma PayloadsLieAt(mem: Bytes, p: Place, path: seq<string>, o: nat)
    requires IsLeaf(Locate(p, path))
    requires var passed := Passed(p.typ, path); o == p.offset + 8 * passed.small + 16 * passed.large + 8 * passed.records
    ensures ReadLeaf(mem, Locate(p, path).value)
         == if Small(Locate(p, path).value.typ) then [mem(o + 4), mem(o + 5), mem(o + 6), mem(o + 7)]
            else [mem(o + 8), mem(o + 9), mem(o + 10), mem(o + 11), mem(o + 12), mem(o + 13), mem(o + 14), mem(o + 15)]
  {
    hide Locate, Passed, SlotSize, PayloadAt, PayloadSize;
    PathsLieAt(p, path);
    PayloadIsHalf(Locate(p, path).value);
  }

  /** A write stores the payload there, byte by byte, and nothing elsewhere. */
  lemma WritesGoTo(mem: Bytes, p: Place, path: seq<string>, payload: seq<int>, o: nat, a: nat)
    requires IsLeaf(Locate(p, path)) && |payload| == if Small(Locate(p, path).value.typ) then 4 else 8
    requires var passed := Passed(p.typ, path); o == p.offset + 8 * passed.small + 16 * passed.large + 8 * passed.records
    ensures PayloadSize(Locate(p, path).value.typ) == |payload|
    ensures WriteLeaf(mem, Locate(p, path).value, payload)(a)
         == if o + |payload| <= a < o + 2 * |payload| then payload[a - o - |payload|] else mem(a)
  {
    hide Locate, Passed, SlotSize, PayloadAt, PayloadSize;
    PathsLieAt(p, path);
    PayloadIsHalf(Locate(p, path).value);
  }

  lemma WriteReadsBack(mem: Bytes, p: Place, payload: seq<int>)
    requires !p.typ.Record? && |payload| == PayloadSize(p.typ)
    ensures ReadLeaf(WriteLeaf(mem, p, payload), p) == payload
  {
  }

  /** Writing one leaf leaves every other leaf of the record as it was. */
  lemma WritesDoNotInterfere(mem: Bytes, p: Place, leaf: seq<string>, payload: seq<int>, other: seq<string>)
    requires IsLeaf(Locate(p, leaf)) && |payload| == PayloadSize(Locate(p, leaf).value.typ)
    requires IsLeaf(Locate(p, other)) && other != leaf
    ensures ReadLeaf(WriteLeaf(mem, Locate(p, leaf).value, payload), Locate(p, other).value)
         == ReadLeaf(mem, Locate(p, other).value)
  {
    LeavesAreApart(p, leaf, other);
    WriteLeavesRest(mem, Locate(p, leaf).value, payload, Locate(p, other).value);
  }

  lemma WriteLeavesRest(mem: Bytes, l: Place, payload: seq<int>, q: Place)
    requires !l.typ.Record? && |payload| == PayloadSize(l.typ) && !q.typ.Record? && Apart(l, q)
    ensures ReadLeaf(WriteLeaf(mem, l, payload), q) == ReadLeaf(mem, q)
  {
    var before, after := ReadLeaf(mem, q), ReadLeaf(WriteLeaf(mem, l, payload), q);
    forall i | 0 <= i < |before| ensures after[i] == before[i] {
      var at: nat := PayloadAt(q) + i;
      assert q.offset <= at < q.End() && l.offset <= PayloadAt(l) && PayloadAt(l) + |payload| <= l.End();
    }
    assert after == before;
  }

  /** It touches neither the header of a record nor a byte outside the outermost one. */
  lemma WritesKeepHeaders(mem: Bytes, p: Place, leaf: seq<string>, payload: seq<int>, record: seq<string>, a: nat)
    requires IsLeaf(Locate(p, leaf)) && |payload| == PayloadSize(Locate(p, leaf).value.typ)
    requires Locate(p, record).Some? && Locate(p, record).value.typ.Record?
    requires var r := Locate(p, record).value; r.offset <= a < r.offset + HEADER || a < p.offset || a >= p.End()
    ensures WriteLeaf(mem, Locate(p, leaf).value, payload)(a) == mem(a)
  {
    HeadersAreNeverCovered(p, leaf, record);
    PathsStayInside(p, leaf);
  }

  // ---- The slots a deallocation visits -----------------------------------------------------

  /** `deallocate_fields`: one call per field, the offset carried along. */
  function Visits(offset: nat, fields: seq<Member>): seq<Place>
    decreases |fields|
  {
    if fields == [] then [] else [Place(offset, fields[0].typ)] + Visits(offset + SlotSize(fields[0].typ), fields[1..])
  }

  /** It visits exactly the slots that `get` returns, in order, each once. */
  lemma {:induction false} VisitsAreOffsets(offset: nat, fields: seq<Member>)
    ensures |Visits(offset, fields)| == |fields|
    ensures forall i :: 0 <= i < |fields| ==> Visits(offset, fields)[i] == Place(offset + OffsetAt(i, fields), fields[i].typ)
    decreases |fields|
  {
    if fields != [] {
      VisitsAreOffsets(offset + SlotSize(fields[0].typ), fields[1..]);
    }
  }

  lemma VisitsAreWhatGetReturns(p: Place)
    requires p.typ.Record? && AllNamesUnique(p.typ.fields)
    ensures var visits := Visits(p.offset + HEADER, p.typ.fields);
            && |visits| == |p.typ.fields|
            && (forall i :: 0 <= i < |visits| ==> Get(p, p.typ.fields[i].name) == Some(visits[i]))
            && (forall i, j :: 0 <= i < j < |visits| ==> Apart(visits[i], visits[j]))
  {
    var fields := p.typ.fields;
    var visits := Visits(p.offset + HEADER, fields);
    VisitsAreOffsets(p.offset + HEADER, fields);
    forall i | 0 <= i < |fields| ensures Get(p, fields[i].name) == Some(visits[i]) {
      FindInvertsNaming(i, fields);
      OffsetsAgree(i, 0, fields);
    }
    forall i, j | 0 <= i < j < |visits| ensures Apart(visits[i], visits[j]) {
      SlotsAreOrdered(i, j, fields);
    }
  }

  /** All leaves a record's deallocation reaches, nested records unfolded. */
  function LeafVisits(p: Place): seq<Place>
    decreases p.typ, 0
  {
    if p.typ.Record? then FieldVisits(p.offset + HEADER, p.typ.fields) else [p]
  }

  function FieldVisits(offset: nat, fields: seq<Member>): seq<Place>
    decreases fields, 1
  {
    if fields == [] then []
    else LeafVisits(Place(offset, fields[0].typ)) + FieldVisits(offset + SlotSize(fields[0].typ), fields[1..])
  }

  /** Visits that run through disjoint slots from left to right, within bounds. */
  ghost predicate InOrder(visits: seq<Place>, from: nat, to: nat) {
    && (forall i :: 0 <= i < |visits| ==> from <= visits[i].offset && visits[i].End() <= to)
    && (forall i, j :: 0 <= i < j < |visits| ==> visits[i].End() <= visits[j].offset)
  }

  lemma InOrderJoins(one: seq<Place>, two: seq<Place>, from: nat, middle: nat, to: nat)
    requires InOrder(one, from, middle) && InOrder(two, middle, to) && from <= middle <= to
    ensures InOrder(one + two, from, to)
  {
  }

  /** A deallocation reaches every leaf at most once. */
  lemma {:induction false} LeafVisitsInOrder(p: Place)
    ensures InOrder(LeafVisits(p), p.offset, p.End())
    decreases p.typ, 0
  {
    if p.typ.Record? {
      FieldVisitsInOrder(p.offset + HEADER, p.typ.fields);
    }
  }

  lemma {:induction false} FieldVisitsInOrder(offset: nat, fields: seq<Member>)
    ensures InOrder(FieldVisits(offset, fields), offset, offset + TotalSize(fields))
    decreases fields, 1
  {
    if fields != [] {
      var first := Place(offset, fields[0].typ);
      LeafVisitsInOrder(first);
      FieldVisitsInOrder(first.End(), fields[1..]);
      InOrderJoins(LeafVisits(first), FieldVisits(first.End(), fields[1..]), offset, first.End(), offset + TotalSize(fields));
    }
  }

  /** It reaches every leaf that a chain of gets can reach. */
  lemma {:induction false} EveryLeafIsVisited(p: Place, path: seq<string>)
    requires IsLeaf(Locate(p, path))
    ensures Locate(p, path).value in LeafVisits(p)
    decreases |path|
  {
    if path != [] {
      var k := FindFieldIndex(path[0], 0, p.typ.fields);
      FindIsFirst(path[0], 0, p.typ.fields);
      OffsetsAgree(k, 0, p.typ.fields);
      EveryLeafIsVisited(Get(p, path[0]).value, path[1..]);
      FieldVisitsInclude(p.offset + HEADER, p.typ.fields, k, Locate(p, path).value);
    }
  }

  lemma {:induction false} FieldVisitsInclude(offset: nat, fields: seq<Member>, k: nat, leaf: Place)
    requires k < |fields| && leaf in LeafVisits(Place(offset + OffsetAt(k, fields), fields[k].typ))
    ensures leaf in FieldVisits(offset, fields)
    decreases |fields|
  {
    if k > 0 {
      FieldVisitsInclude(offset + SlotSize(fields[0].typ), fields[1..], k - 1, leaf);
    }
  }

  /** It reaches nothing else: every visited slot is a leaf some chain of gets leads to. */
  lemma {:induction false} EveryVisitIsALeaf(p: Place, leaf: Place) returns (path: seq<string>)
    requires WellFormed(p.typ) && leaf in LeafVisits(p)
    ensures IsLeaf(Locate(p, path)) && Locate(p, path).value == leaf
    decreases p.typ, 0
  {
    path := [];
    if p.typ.Record? {
      var fields := p.typ.fields;
      var k, rest := VisitOfField(p.offset + HEADER, fields, leaf);
      FindInvertsNaming(k, fields);
      OffsetsAgree(k, 0, fields);
      path := [fields[k].name] + rest;
      assert path[1..] == rest;
    }
  }

  lemma {:induction false} VisitOfField(offset: nat, fields: seq<Member>, leaf: Place) returns (k: nat, path: seq<string>)
    requires (forall i :: 0 <= i < |fields| ==> WellFormed(fields[i].typ)) && leaf in FieldVisits(offset, fields)
    ensures k < |fields|
    ensures var there := Locate(Place(offset + OffsetAt(k, fields), fields[k].typ), path);
            IsLeaf(there) && there.value == leaf
    decreases fields, 1
  {
    var first := Place(offset, fields[0].typ);
    if leaf in LeafVisits(first) {
      k := 0;
      path := EveryVisitIsALeaf(first, leaf);
    } else {
      k, path := VisitOfField(first.End(), fields[1..], leaf);
      k := k + 1;
    }
  }

  // ---- Elements of arrays ------------------------------------------------------------------

  /** Element i of a buffer: the elements follow the buffer's own 8-byte header. */
  function ElementAt(buf: nat, i: nat, item: Type): Place {
    Place(buf + HEADER + i * SlotSize(item), item)
  }

  /** Distinct elements are disjoint, off the header and inside the buffer. */
  lemma ElementsAreApart(buf: nat, i: nat, j: nat, count: nat, item: Type)
    requires i < j < count
    ensures Apart(ElementAt(buf, i, item), ElementAt(buf, j, item))
    ensures ElementAt(buf, i, item).offset >= buf + HEADER
    ensures ElementAt(buf, j, item).End() <= buf + HEADER + count * SlotSize(item)
  {
    Scaled(i + 1, j, SlotSize(item));
    Scaled(j + 1, count, SlotSize(item));
  }

  /** Where an element lies, as a number of bytes. */
  lemma ElementsLieAt(buf: nat, i: nat, item: Type)
    ensures var parts := Makeup(item);
            ElementAt(buf, i, item).offset == buf + 8 + i * (8 * parts.small + 16 * parts.large + 8 * parts.records)
  {
    hide Makeup, SlotSize;
    var parts := Makeup(item);
    SizesAreCounts(item);
    var n := 8 * parts.small + 16 * parts.large + 8 * parts.records;
    assert i * SlotSize(item) == i * n;
  }

  lemma Scaled(i: nat, j: nat, n: nat)
    requires i <= j
    ensures i * n <= j * n
    ensures i > 0 ==> (i - 1) * n + n == i * n
  {
    assert j * n == i * n + (j - i) * n;
  }
}
