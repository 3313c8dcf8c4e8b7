/**
 What keeping superseded buffers costs an object. Nothing is freed while the object lives, so the bytes
 of all entries buffers ever allocated are the bytes retained.
 */
module RetentionCost {
  import opened EntryBuffers
  import opened ObjectMemory
  import opened ObjectPaths
  import opened ObjectTree
  import opened OrderedFields
  import opened Trees

  function BytesBelow(m: Memory, k: nat): nat {
    if k == 0 then 0
    else BytesBelow(m, k - 1) + if k - 1 in m.bufs then m.bufs[k - 1].Bytes() else 0
  }

  /** The bytes of all entries buffers allocated so far. */
  function BufferBytes(m: Memory): nat {
    BytesBelow(m, m.next)
  }

  lemma {:induction false} SameBytes(m: Memory, m': Memory, k: nat)
    requires forall a: nat :: a < k ==> (a in m'.bufs <==> a in m.bufs)
                                        && (a in m.bufs ==> m'.bufs[a].Capacity() == m.bufs[a].Capacity())
    ensures BytesBelow(m', k) == BytesBelow(m, k)
  {
    if k > 0 {
      SameBytes(m, m', k - 1);
    }
  }

  lemma InstallCost(m: Memory, slot: nat, b: Buffer)
    requires Tidy(m)
    ensures BufferBytes(Install(m, slot, b)) == BufferBytes(m) + b.Bytes()
  {
    var m' := Install(m, slot, b);
    SameBytes(m, m', m.next);
    assert BytesBelow(m', m'.next) == BytesBelow(m', m.next) + m'.bufs[m.next].Bytes();
  }

  /** An append pays for a buffer only when the current one is full. */
  lemma AppendCost(m: Memory, slot: nat, hash: nat, typeId: nat, word: int)
    requires Tidy(m) && SlotOk(m, slot)
    ensures var m', b := Append(m, slot, hash, typeId, word), BufferOf(m, slot);
            && BufferBytes(m') == BufferBytes(m) + (if b.Full() then HEADER_BYTES + ENTRY_BYTES * GrownCapacity(b.Capacity()) else 0)
            && BufferOf(m', slot).Capacity() == if b.Full() then GrownCapacity(b.Capacity()) else b.Capacity()
  {
    var m1, m' := MakeRoom(m, slot), Append(m, slot, hash, typeId, word);
    if BufferOf(m, slot).Full() {
      InstallCost(m, slot, Grown(BufferOf(m, slot)));
    }
    SameBytes(m1, m', m1.next);
    assert m1.next !in m'.bufs;
  }

  lemma TextCost(m: Memory, slot: nat, bytes: seq<nat>)
    requires Tidy(m)
    ensures BufferBytes(StringSet(m, slot, bytes)) == BufferBytes(m)
  {
    var m' := StringSet(m, slot, bytes);
    SameBytes(m, m', m.next);
  }

  lemma AddCost(m: Memory, n: Node, key: nat, v: Value) returns (n': Node)
    requires n.Obj? && Good(m, n) && SlotOk(m, n.addr) && Absent(n.fields, key)
    ensures var m', b := Add(m, n.addr, key, v), BufferOf(m, n.addr);
            && Set(m, n.addr, key, v) == Ok(m')
            && Good(m', n') && n'.Obj? && n'.addr == n.addr && SlotOk(m', n.addr)
            && Erase(n').fields == Erase(n).fields + [Field(key, TypeOf(v), TreeOf(v))]
            && BufferBytes(m') == BufferBytes(m) + (if b.Full() then HEADER_BYTES + ENTRY_BYTES * GrownCapacity(b.Capacity()) else 0)
  {
    FindIsIndex(m, n, key);
    AbsentIsNotHas(n.fields, key);
    n' := AddRefines(m, n, key, v);
    FindIsIndex(Add(m, n.addr, key, v), n', key);
    AppendCost(m, n.addr, key, TypeOf(v), Payload(v));
    AppendTidy(m, n.addr, key, TypeOf(v), Payload(v));
    if v.Str? {
      TextCost(Append(m, n.addr, key, TypeOf(v), Payload(v)), MakeRoom(m, n.addr).next, v.bytes);
    }
  }

  lemma RemoveBytes(m: Memory, n: Node, key: nat)
    requires n.Obj? && Good(m, n) && SlotOk(m, n.addr) && Has(n.fields, key)
    ensures BufferBytes(Remove(m, n.addr, key))
            == BufferBytes(m) + (if |n.fields| == 1 then 0 else HEADER_BYTES + ENTRY_BYTES * (|n.fields| - 1))
  {
    FindIsIndex(m, n, key);
    hide Denotes, Separate, BufferBytes;
    if |n.fields| == 1 {
      SameBuffersSameBytes(m, Remove(m, n.addr, key));
    } else {
      InstallCost(m, n.addr, Filtered(BufferOf(m, n.addr), IndexOf(n.fields, key)));
    }
  }

  lemma SameBuffersSameBytes(m: Memory, m': Memory)
    requires m'.bufs == m.bufs && m'.next == m.next
    ensures BufferBytes(m') == BufferBytes(m)
  {
    SameBytes(m, m', m.next);
  }

  /** A removal always pays for a tight buffer, unless nothing is left. */
  lemma RemoveCost(m: Memory, n: Node, key: nat) returns (n': Node)
    requires n.Obj? && Good(m, n) && SlotOk(m, n.addr) && Has(n.fields, key)
    ensures var m' := Remove(m, n.addr, key);
            && Good(m', n') && n'.Obj? && n'.addr == n.addr && SlotOk(m', n.addr)
            && n'.fields == Without(n.fields, key) && Erase(n').fields == Without(Erase(n).fields, key)
            && |n'.fields| == |n.fields| - 1 && BufferOf(m', n.addr).count == BufferOf(m', n.addr).Capacity() == |n'.fields|
            && BufferBytes(m') == BufferBytes(m) + (if |n.fields| == 1 then 0 else HEADER_BYTES + ENTRY_BYTES * (|n.fields| - 1))
  {
    RemoveBytes(m, n, key);
    FindIsIndex(m, n, key);
    RemovedIsTight(m, n.addr, key);
    hide Denotes, Separate, Blocks, Erase, BufferBytes, Remove;
    n' := RemoveRefines(m, n, key);
    WithoutKeepsDistinct(n.fields, key);
    FindIsIndex(Remove(m, n.addr, key), n', key);
  }

  lemma RemovedIsTight(m: Memory, slot: nat, key: nat)
    requires SlotOk(m, slot) && Find(BufferOf(m, slot), key) < BufferOf(m, slot).count
    ensures var b := BufferOf(Remove(m, slot, key), slot); b.count == b.Capacity()
  {
  }

  // ---- Removing many fields ----------------------------------------------------------------

  function Drops(keys: seq<nat>): seq<Call> {
    seq(|keys|, i requires 0 <= i < |keys| => ([], Drop(keys[i])))
  }

  lemma DropsHead(keys: seq<nat>)
    requires keys != []
    ensures Drops(keys) == [([], Drop(keys[0]))] + Drops(keys[1..])
  {
  }

  /** The calls go through and leave this many bytes of entries buffers allocated. */
  ghost predicate EndsAt(m: Memory, slot: nat, calls: seq<Call>, total: int)
    requires GoodSlot(m, slot)
  {
    var r := Play(m, slot, calls);
    r.Ok? && BufferBytes(r.value) == total
  }

  lemma OneMoreCall(m: Memory, m1: Memory, slot: nat, e: Edit, rest: seq<Call>, total: int)
    requires GoodSlot(m, slot) && SlotOk(m, slot) && Apply(m, slot, e) == Ok(m1)
    requires GoodSlot(m1, slot) && EndsAt(m1, slot, rest, total)
    ensures EndsAt(m, slot, [([], e)] + rest, total)
  {
    assert Perform(m, slot, [], e) == Ok((m1, slot));
    assert ([([], e)] + rest)[1..] == rest;
  }

  /** The sizes of the tight buffers of k removals from n fields. */
  function TightBytes(n: nat, k: nat): int {
    if k == 0 || n == 0 then 0 else HEADER_BYTES + ENTRY_BYTES * (n - 1) + TightBytes(n - 1, k - 1)
  }

  lemma OneMoreTerm(k: int, x: int)
    ensures 12 * (k - 1) * x + 12 * x + 12 * k == 12 * k * (x + 1)
  {
    assert 12 * k * (x + 1) == 12 * k * x + 12 * k;
    assert 12 * (k - 1) * x == 12 * k * x - 12 * x;
  }

  lemma {:induction false} TightBytesSum(n: nat, k: nat)
    requires k < n
    ensures TightBytes(n, k) == 8 * k + 12 * k * (2 * n - k - 1)
  {
    if k > 0 {
      TightBytesSum(n - 1, k - 1);
      OneMoreTerm(k, 2 * n - k - 2);
    }
  }

  ghost predicate AllThere(fields: seq<Field<nat, Node>>, keys: seq<nat>) {
    && (forall i :: 0 <= i < |keys| ==> Has(fields, keys[i]))
    && (forall i, j :: 0 <= i < j < |keys| ==> keys[i] != keys[j])
  }

  lemma {:induction false} RemovalsEndAt(m: Memory, n: Node, keys: seq<nat>, total: int)
    requires n.Obj? && Good(m, n) && GoodSlot(m, n.addr) && |keys| < |n.fields|
    requires AllThere(n.fields, keys) && total == BufferBytes(m) + TightBytes(|n.fields|, |keys|)
    ensures EndsAt(m, n.addr, Drops(keys), total)
    decreases |keys|
  {
    hide Denotes, Separate, Blocks;
    if keys != [] {
      GoodSlotIsOk(m, n.addr);
      var m1, n1 := FirstRemoval(m, n, keys);
      RemovalsEndAt(m1, n1, keys[1..], total);
      DropsHead(keys);
      OneMoreCall(m, m1, n.addr, Drop(keys[0]), Drops(keys[1..]), total);
    }
  }

  lemma FirstRemoval(m: Memory, n: Node, keys: seq<nat>) returns (m1: Memory, n1: Node)
    requires n.Obj? && Good(m, n) && SlotOk(m, n.addr) && 0 < |keys| < |n.fields|
    requires AllThere(n.fields, keys)
    ensures m1 == Remove(m, n.addr, keys[0])
    ensures n1.Obj? && Good(m1, n1) && n1.addr == n.addr && GoodSlot(m1, n.addr)
    ensures |n1.fields| == |n.fields| - 1 && AllThere(n1.fields, keys[1..])
    ensures BufferBytes(m1) == BufferBytes(m) + HEADER_BYTES + ENTRY_BYTES * (|n.fields| - 1)
  {
    m1 := Remove(m, n.addr, keys[0]);
    n1 := RemoveCost(m, n, keys[0]);
    StillThere(n, n1, keys);
  }

  lemma StillThere(n: Node, n1: Node, keys: seq<nat>)
    requires n.Obj? && n1.Obj? && Distinct(n.fields) && keys != [] && AllThere(n.fields, keys)
    requires n1.fields == Without(n.fields, keys[0])
    ensures AllThere(n1.fields, keys[1..])
  {
    forall i | 1 <= i < |keys| ensures Has(n1.fields, keys[i]) {
      LookupAfterWithout(n.fields, keys[0], keys[i]);
    }
  }

  /** Removing k of the object's f fields one by one, k < f, in any order. */
  lemma RemovalCost(m: Memory, n: Node, keys: seq<nat>, f: int, k: int)
    requires n.Obj? && Good(m, n) && GoodSlot(m, n.addr)
    requires |keys| == k < |n.fields| == f && AllThere(n.fields, keys)
    ensures EndsAt(m, n.addr, Drops(keys), BufferBytes(m) + 8 * k + 12 * k * (2 * f - k - 1))
  {
    TightBytesSum(f, k);
    RemovalsEndAt(m, n, keys, BufferBytes(m) + TightBytes(f, k));
  }

  // ---- Add/remove cycles -------------------------------------------------------------------

  /** Add a field of some type, then remove it, once for each key. */
  function Cycles(keys: seq<nat>, values: seq<Value>): seq<Call>
    requires |keys| == |values|
  {
    if keys == [] then [] else [([], Assign(keys[0], values[0])), ([], Drop(keys[0]))] + Cycles(keys[1..], values[1..])
  }

  /** Between cycles, after a first removal: the buffer has no room to spare. */
  ghost predicate Tight(m: Memory, n: Node) {
    && n.Obj? && Good(m, n) && SlotOk(m, n.addr)
    && n.fields != [] && BufferOf(m, n.addr).Capacity() == |n.fields|
  }

  lemma RemovalMakesTight(m: Memory, n: Node, key: nat) returns (n': Node)
    requires n.Obj? && Good(m, n) && SlotOk(m, n.addr) && Has(n.fields, key) && |n.fields| > 1
    ensures Tight(Remove(m, n.addr, key), n') && n'.addr == n.addr
    ensures n'.fields == Without(n.fields, key) && |n'.fields| == |n.fields| - 1
    ensures BufferBytes(Remove(m, n.addr, key)) == BufferBytes(m) + HEADER_BYTES + ENTRY_BYTES * (|n.fields| - 1)
  {
    n' := RemoveCost(m, n, key);
  }

  /** One cycle grows to twice the size and shrinks back, whatever the key and the value. */
  lemma CycleCost(m: Memory, n: Node, key: nat, v: Value) returns (m': Memory, n': Node)
    requires Tight(m, n) && Absent(n.fields, key)
    ensures var m1 := Add(m, n.addr, key, v);
            Set(m, n.addr, key, v) == Ok(m1) && SlotOk(m1, n.addr) && m' == Remove(m1, n.addr, key)
    ensures Tight(m', n') && n'.addr == n.addr && Erase(n') == Erase(n)
    ensures BufferBytes(m') == BufferBytes(m) + 16 + 72 * |n.fields|
  {
    FindIsIndex(m, n, key);
    var n1 := AddCost(m, n, key, v);
    var last := |n.fields|;
    SameIndex(n1, key);
    assert Erase(n1).fields[last].key == key;
    IndexIs(Erase(n1).fields, last);
    m' := Remove(Add(m, n.addr, key, v), n.addr, key);
    n' := RemoveCost(Add(m, n.addr, key, v), n1, key);
    assert Erase(n').fields == Erase(n).fields;
  }

  ghost predicate NoneThere(fields: seq<Field<nat, Node>>, keys: seq<nat>) {
    forall i :: 0 <= i < |keys| ==> Absent(fields, keys[i])
  }

  lemma {:induction false} CyclesEndAt(m: Memory, n: Node, keys: seq<nat>, values: seq<Value>, left: nat, per: int, total: int)
    requires Tight(m, n) && GoodSlot(m, n.addr) && NoneThere(n.fields, keys)
    requires left == |keys| == |values| && per == 16 + 72 * |n.fields| && total == BufferBytes(m) + Times(left, per)
    ensures EndsAt(m, n.addr, Cycles(keys, values), total)
    decreases |keys|
  {
    if keys != [] {
      var m2, n2 := FirstCycle(m, n, keys, values, total);
      CyclesEndAt(m2, n2, keys[1..], values[1..], left - 1, per, total);
    }
  }

  function Times(k: nat, bytes: int): int {
    if k == 0 then 0 else bytes + Times(k - 1, bytes)
  }

  lemma {:induction false} TimesIsProduct(k: nat, bytes: int)
    ensures Times(k, bytes) == k * bytes
  {
    if k > 0 {
      TimesIsProduct(k - 1, bytes);
    }
  }

  lemma FirstCycle(m: Memory, n: Node, keys: seq<nat>, values: seq<Value>, total: int) returns (m2: Memory, n2: Node)
    requires Tight(m, n) && GoodSlot(m, n.addr) && keys != [] && |keys| == |values| && NoneThere(n.fields, keys)
    ensures Tight(m2, n2) && n2.addr == n.addr && GoodSlot(m2, n.addr)
    ensures |n2.fields| == |n.fields| && NoneThere(n2.fields, keys[1..])
    ensures BufferBytes(m2) == BufferBytes(m) + 16 + 72 * |n.fields|
    ensures EndsAt(m2, n.addr, Cycles(keys[1..], values[1..]), total) ==> EndsAt(m, n.addr, Cycles(keys, values), total)
  {
    m2, n2 := CycleCost(m, n, keys[0], values[0]);
    SameFieldsAbsent(n, n2, keys);
    assert Good(m2, n2);
    if EndsAt(m2, n.addr, Cycles(keys[1..], values[1..]), total) {
      OneMoreCycle(m, n, keys, values, m2, total);
    }
  }

  lemma OneMoreCycle(m: Memory, n: Node, keys: seq<nat>, values: seq<Value>, m2: Memory, total: int)
    requires Tight(m, n) && GoodSlot(m, n.addr) && keys != [] && |keys| == |values| && Absent(n.fields, keys[0])
    requires GoodSlot(m2, n.addr) && EndsAt(m2, n.addr, Cycles(keys[1..], values[1..]), total)
    requires var m1 := Add(m, n.addr, keys[0], values[0]); SlotOk(m1, n.addr) && m2 == Remove(m1, n.addr, keys[0])
    ensures EndsAt(m, n.addr, Cycles(keys, values), total)
  {
    var m1 := Add(m, n.addr, keys[0], values[0]);
    var n1 := AddCost(m, n, keys[0], values[0]);
    assert Good(m1, n1);
    var rest := Cycles(keys[1..], values[1..]);
    OneMoreCall(m1, m2, n.addr, Drop(keys[0]), rest, total);
    OneMoreCall(m, m1, n.addr, Assign(keys[0], values[0]), [([], Drop(keys[0]))] + rest, total);
    CyclesHead(keys, values);
  }

  lemma CyclesHead(keys: seq<nat>, values: seq<Value>)
    requires keys != [] && |keys| == |values|
    ensures Cycles(keys, values) == [([], Assign(keys[0], values[0]))] + ([([], Drop(keys[0]))] + Cycles(keys[1..], values[1..]))
  {
  }

  /** Retention is linear in the number of cycles: nothing is ever amortised. */
  lemma CyclesCost(m: Memory, n: Node, keys: seq<nat>, values: seq<Value>, f: int, cycles: nat)
    requires Tight(m, n) && GoodSlot(m, n.addr) && |n.fields| == f && |keys| == |values| == cycles && NoneThere(n.fields, keys)
    ensures EndsAt(m, n.addr, Cycles(keys, values), BufferBytes(m) + cycles * (16 + 72 * f))
  {
    TimesIsProduct(cycles, 16 + 72 * f);
    CyclesEndAt(m, n, keys, values, cycles, 16 + 72 * f, BufferBytes(m) + cycles * (16 + 72 * f));
  }

  /** So an object of f fields that loses one and then sees any number of cycles retains exactly this. */
  lemma RemovalThenCyclesCost(m: Memory, n: Node, key: nat, keys: seq<nat>, values: seq<Value>, f: int, cycles: nat)
    requires n.Obj? && Good(m, n) && GoodSlot(m, n.addr) && Has(n.fields, key)
    requires |n.fields| == f + 1 > 1 && |keys| == |values| == cycles && NoneThere(Without(n.fields, key), keys)
    ensures EndsAt(m, n.addr, [([], Drop(key))] + Cycles(keys, values), BufferBytes(m) + 8 + 24 * f + cycles * (16 + 72 * f))
  {
    GoodSlotIsOk(m, n.addr);
    var m1 := Remove(m, n.addr, key);
    var n1 := RemovalMakesTight(m, n, key);
    assert GoodSlot(m1, n.addr);
    CyclesCost(m1, n1, keys, values, f, cycles);
    OneMoreCall(m, m1, n.addr, Drop(key), Cycles(keys, values), BufferBytes(m) + 8 + 24 * f + cycles * (16 + 72 * f));
  }

  lemma SameFieldsAbsent(n: Node, n1: Node, keys: seq<nat>)
    requires n.Obj? && n1.Obj? && Erase(n1) == Erase(n) && NoneThere(n.fields, keys)
    ensures |n1.fields| == |n.fields| && NoneThere(n1.fields, keys)
  {
    assert |Erase(n1).fields| == |Erase(n).fields|;
    assert forall j :: 0 <= j < |n.fields| ==> n1.fields[j].key == Erase(n1).fields[j].key == n.fields[j].key;
  }
}
