/**
 Giving memory back. `object::deallocate` frees the values of one object and its entries buffer;
 `object_deallocate_entry_value` frees everything below one entry. Free demands that its argument is
 still allocated, so a method that verifies frees no block twice.
 */
module Teardown {
  import opened EntryBuffers
  import opened ObjectHeap
  import opened ObjectMemory
  import opened ObjectPaths
  import opened ObjectTree
  import opened OrderedFields
  import opened Trees

  /** The trees that memory holds with no block shared. */
  ghost function Sound(m: Memory): iset<Node> {
    iset n: Node | Good(m, n)
  }

  function Freed(m: Memory, dead: set<nat>): Memory {
    m.(bufs := m.bufs - dead, words := m.words - dead, texts := m.texts - dead)
  }

  lemma FreedTwice(m: Memory, dead: set<nat>, more: set<nat>)
    ensures Freed(Freed(m, dead), more) == Freed(m, dead + more)
  {
  }

  lemma FreedOne(m: Memory, a: nat)
    requires Tidy(m)
    ensures a in m.words ==> Freed(m, {a}) == m.(words := m.words - {a})
    ensures a in m.texts ==> Freed(m, {a}) == m.(texts := m.texts - {a})
    ensures a in m.bufs ==> Freed(m, {a}) == m.(bufs := m.bufs - {a})
  {
  }

  /** Trees away from the freed blocks are not affected. */
  lemma SurvivesFree(m: Memory, dead: set<nat>, n: Node)
    requires n in Sound(m) && Blocks(n) !! dead
    ensures Good(Freed(m, dead), n)
  {
    DenotesFrame(m, Freed(m, dead), n);
  }

  // ---- Everything below an entry -----------------------------------------------------------

  /** The blocks of the first k fields. */
  function FieldBlocks(fields: seq<Field<nat, Node>>, k: nat): set<nat>
    requires k <= |fields|
  {
    set i, a | 0 <= i < k && a in Blocks(fields[i].value) :: a
  }

  lemma FieldBlocksStep(fields: seq<Field<nat, Node>>, k: nat)
    requires k < |fields|
    ensures FieldBlocks(fields, k + 1) == FieldBlocks(fields, k) + Blocks(fields[k].value)
  {
  }

  lemma FieldBlocksApart(n: Node, k: nat)
    requires n.Obj? && Separate(n) && k <= |n.fields|
    ensures Own(n) !! FieldBlocks(n.fields, k)
    ensures k < |n.fields| ==> Blocks(n.fields[k].value) !! FieldBlocks(n.fields, k)
  {
  }

  /** How deep objects are nested: the measure of the recursive walk. */
  function Nesting(v: Node): nat
    decreases v, if v.Obj? then |v.fields| + 1 else 0
  {
    if v.Obj? then 1 + Deepest(v, |v.fields|) else 0
  }

  function Deepest(v: Node, k: nat): nat
    requires v.Obj? && k <= |v.fields|
    decreases v, k
  {
    if k == 0 then 0
    else
      var rest, last := Deepest(v, k - 1), Nesting(v.fields[k - 1].value);
      if rest < last then last else rest
  }

  lemma {:induction false} NestingOfField(v: Node, i: nat, k: nat)
    requires v.Obj? && i < k <= |v.fields|
    ensures Nesting(v.fields[i].value) <= Deepest(v, k) < Nesting(v)
  {
    if i < k - 1 {
      NestingOfField(v, i, k - 1);
    }
    DeepestGrows(v, k);
  }

  lemma {:induction false} DeepestGrows(v: Node, k: nat)
    requires v.Obj? && k <= |v.fields|
    ensures Deepest(v, k) <= Deepest(v, |v.fields|)
    decreases |v.fields| - k
  {
    if k < |v.fields| {
      DeepestGrows(v, k + 1);
    }
  }

  /** An entry without a value, or the entry of this tree. */
  ghost predicate EntryOf(m: Memory, e: Entry, v: Node) {
    e.val == NULL || (v in Sound(m) && e.val == v.addr && e.typeId == TypeOfNode(v))
  }

  /** Free the value behind an entry, down to the last nested block, each once. */
  method DeallocateEntryValue(h: Heap, e: Entry, ghost v: Node)
    requires h.Valid() && EntryOf(h.memory, e, v)
    modifies h
    ensures h.Valid() && h.Repr == old(h.Repr)
    ensures h.memory == if e.val == NULL then old(h.memory) else Freed(old(h.memory), Blocks(v))
    decreases Nesting(v), 3
  {
    hide Blocks, Own, FieldBlocks, Separate;
    var val := e.val;
    if val == NULL {
      return;
    }
    ghost var m0 := h.memory;
    assert Denotes(m0, v);
    ghost var dead: set<nat> := {};
    if e.typeId == TYPE_STRING {
      var text := h.words[val];
      if text != NULL {
        FreedOne(m0, text);
        h.FreeText(text);
        dead := {text};
      }
    } else if e.typeId == TYPE_OBJECT {
      var nested := h.words[val];
      if nested != NULL {
        DeallocateEntries(h, nested, v);
        dead := FieldBlocks(v.fields, |v.fields|) + {nested};
      }
    }
    FreedWithRoot(m0, v, dead);
    h.FreeWord(val);
  }

  lemma FreedWithRoot(m: Memory, v: Node, dead: set<nat>)
    requires v in Sound(m)
    requires match v
             case Leaf(_, _, _) => dead == {}
             case Text(_, buf, _) => dead == if buf == NULL then {} else {buf}
             case Obj(_, buf, fields) => dead == if buf == NULL then {} else FieldBlocks(fields, |fields|) + {buf}
    ensures v.addr in Freed(m, dead).words
    ensures Freed(m, dead).(words := Freed(m, dead).words - {v.addr}) == Freed(m, Blocks(v))
  {
    BlocksInUse(m, v);
    assert v.addr in Own(v);
    if v.Obj? {
      FieldBlocksApart(v, |v.fields|);
    }
    assert Blocks(v) == dead + {v.addr};
    FreedOne(Freed(m, dead), v.addr);
    FreedTwice(m, dead, {v.addr});
  }

  /** The entries of a nested object, then its buffer. */
  method DeallocateEntries(h: Heap, nested: nat, ghost v: Node)
    requires h.Valid() && v in Sound(h.memory) && v.Obj? && v.buf == nested && nested != NULL
    modifies h
    ensures h.Valid() && h.Repr == old(h.Repr) && h.memory == Freed(old(h.memory), FieldBlocks(v.fields, |v.fields|) + {nested})
    decreases Nesting(v), 2
  {
    ghost var m0 := h.memory;
    EntriesStart(m0, v);
    var count := h.CountIn(nested);
    WalkEntries(h, nested, count, m0, v);
    BufferLast(m0, v, h.memory);
    h.FreeBuffer(nested);
  }

  method WalkEntries(h: Heap, nested: nat, count: nat, ghost m0: Memory, ghost v: Node)
    requires h.Valid() && v in Sound(m0) && v.Obj? && v.buf == nested && nested != NULL && count == |v.fields|
    requires h.memory == Freed(m0, FieldBlocks(v.fields, 0))
    modifies h
    ensures h.Valid() && h.Repr == old(h.Repr) && h.memory == Freed(m0, FieldBlocks(v.fields, count))
    decreases Nesting(v), 1
  {
    var i := 0;
    while i < count
      invariant i <= count && v in Sound(m0) && h.Valid() && h.Repr == old(h.Repr)
      invariant h.memory == Freed(m0, FieldBlocks(v.fields, i))
      modifies h
    {
      DeallocateNext(h, nested, i, m0, v);
      i := i + 1;
    }
  }

  /** Entry i, when the ones before it are gone. */
  method DeallocateNext(h: Heap, nested: nat, i: nat, ghost m0: Memory, ghost v: Node)
    requires h.Valid() && v in Sound(m0) && v.Obj? && v.buf == nested && nested != NULL && i < |v.fields|
    requires h.memory == Freed(m0, FieldBlocks(v.fields, i))
    modifies h
    ensures h.Valid() && h.Repr == old(h.Repr)
    ensures h.memory == Freed(m0, FieldBlocks(v.fields, i + 1))
    decreases Nesting(v), 0
  {
    NextEntry(m0, v, i);
    NestingOfField(v, i, |v.fields|);
    var e := h.EntryIn(nested, i);
    DeallocateEntryValue(h, e, v.fields[i].value);
  }

  lemma EntriesStart(m: Memory, v: Node)
    requires v in Sound(m) && v.Obj? && v.buf != NULL
    ensures v.buf in m.bufs && m.bufs[v.buf].count == |v.fields| && Freed(m, FieldBlocks(v.fields, 0)) == m
  {
    assert FieldBlocks(v.fields, 0) == {};
  }

  lemma BufferLast(m: Memory, v: Node, m1: Memory)
    requires v in Sound(m) && v.Obj? && v.buf != NULL && m1 == Freed(m, FieldBlocks(v.fields, |v.fields|))
    ensures v.buf in m1.bufs
    ensures m1.(bufs := m1.bufs - {v.buf}) == Freed(m, FieldBlocks(v.fields, |v.fields|) + {v.buf})
  {
    FieldBlocksApart(v, |v.fields|);
    assert v.buf in Own(v);
    FreedOne(m1, v.buf);
    FreedTwice(m, FieldBlocks(v.fields, |v.fields|), {v.buf});
  }

  lemma NextEntry(m: Memory, v: Node, i: nat)
    requires v in Sound(m) && v.Obj? && i < |v.fields| && v.buf != NULL
    ensures var m1, c := Freed(m, FieldBlocks(v.fields, i)), v.fields[i].value;
            && Freed(m1, Blocks(c)) == Freed(m, FieldBlocks(v.fields, i + 1))
            && v.buf in Freed(m, FieldBlocks(v.fields, i + 1)).bufs
            && v.buf in m1.bufs && m1.bufs[v.buf] == m.bufs[v.buf] && i < m.bufs[v.buf].Capacity()
            && EntryOf(m1, m1.bufs[v.buf].entries[i], c) && m1.bufs[v.buf].entries[i].val != NULL
  {
    FieldBlocksApart(v, i);
    FieldBlocksApart(v, i + 1);
    FieldBlocksStep(v.fields, i);
    assert v.buf in Own(v);
    assert Good(m, v.fields[i].value) && Describes(m.bufs[v.buf].entries[i], v.fields[i]);
    SurvivesFree(m, FieldBlocks(v.fields, i), v.fields[i].value);
    FreedTwice(m, FieldBlocks(v.fields, i), Blocks(v.fields[i].value));
  }

  // ---- One object, its values and its buffer -----------------------------------------------

  /** What the loop frees for one field: the value block, and the bytes of a string. */
  function FlatOwn(v: Node): set<nat> {
    if v.Text? then Own(v) else {v.addr}
  }

  function FlatBlocks(fields: seq<Field<nat, Node>>, k: nat): set<nat>
    requires k <= |fields|
  {
    set i, a | 0 <= i < k && a in FlatOwn(fields[i].value) :: a
  }

  /** Everything `deallocate` frees. */
  function Gone(n: Node): set<nat>
    requires n.Obj?
  {
    if n.buf == NULL then {} else FlatBlocks(n.fields, |n.fields|) + {n.buf}
  }

  function Emptied(m: Memory, n: Node): Memory
    requires n.Obj?
  {
    var m1 := Freed(m, Gone(n));
    m1.(words := m1.words[n.addr := NULL])
  }

  /** The values and the entries buffer of one object, each freed once; the slot is cleared. */
  method Deallocate(h: Heap, slot: nat, ghost n: Node)
    requires h.Valid() && n in Sound(h.memory) && n.Obj? && n.addr == slot
    modifies h
    ensures h.Valid() && h.Repr == old(h.Repr)
    ensures h.memory == Emptied(old(h.memory), n)
  {
    ghost var m0 := h.memory;
    SlotOfObject(m0, n);
    var buf := h.words[slot];
    if buf == NULL {
      return;
    }
    FreeValues(h, buf, n);
    FreeEntries(h, slot, buf, m0, n);
  }

  /** The loop over the entries. */
  method FreeValues(h: Heap, buf: nat, ghost n: Node)
    requires h.Valid() && n in Sound(h.memory) && n.Obj? && n.buf == buf && buf != NULL
    modifies h
    ensures h.Valid() && h.Repr == old(h.Repr) && h.memory == Freed(old(h.memory), FlatBlocks(n.fields, |n.fields|))
  {
    ghost var m0 := h.memory;
    FlatStart(m0, n);
    var count := h.CountIn(buf);
    var i := 0;
    while i < count
      invariant i <= count && n in Sound(m0) && h.Valid() && h.Repr == old(h.Repr)
      invariant h.memory == Freed(m0, FlatBlocks(n.fields, i))
      modifies h
    {
      DeallocateFlat(h, buf, i, m0, n);
      i := i + 1;
    }
  }

  /** The buffer, once the values are gone, and the pointer to it. */
  method FreeEntries(h: Heap, slot: nat, buf: nat, ghost m0: Memory, ghost n: Node)
    requires h.Valid() && n in Sound(m0) && n.Obj? && n.addr == slot && n.buf == buf && buf != NULL
    requires h.memory == Freed(m0, FlatBlocks(n.fields, |n.fields|))
    modifies h
    ensures h.Valid() && h.Repr == old(h.Repr) && h.memory == Emptied(m0, n)
  {
    ghost var m1 := h.memory;
    FlatLast(m0, n, m1);
    h.FreeBuffer(buf);
    ghost var m2 := h.memory;
    h.ClearSlot(slot);
    FlatDone(m0, n, m1, m2, h.memory);
  }

  method DeallocateFlat(h: Heap, buf: nat, i: nat, ghost m0: Memory, ghost n: Node)
    requires h.Valid() && n in Sound(m0) && n.Obj? && n.buf == buf && buf != NULL && i < |n.fields|
    requires h.memory == Freed(m0, FlatBlocks(n.fields, i))
    modifies h
    ensures h.Valid() && h.Repr == old(h.Repr)
    ensures h.memory == Freed(m0, FlatBlocks(n.fields, i + 1))
  {
    NextFlat(m0, n, i);
    FlatFreed(m0, n, i);
    var e := h.EntryIn(buf, i);
    var val := e.val;
    if val != NULL {
      if e.typeId == TYPE_STRING {
        FreeBytes(h, val);
      }
      h.FreeWord(val);
    }
  }

  /** The data buffer of a string value, if it has one. */
  method FreeBytes(h: Heap, val: nat)
    requires h.Valid() && val in h.memory.words && h.memory.words[val] >= 0
    requires h.memory.words[val] != NULL ==> h.memory.words[val] in h.memory.texts
    modifies h
    ensures h.Valid() && h.Repr == old(h.Repr)
    ensures var m, text := old(h.memory), old(h.memory.words[val]);
            h.memory == m.(texts := if text != NULL then m.texts - {text} else m.texts)
  {
    var text := h.words[val];
    if text != NULL {
      h.FreeText(text);
    }
  }


  lemma SlotOfObject(m: Memory, n: Node)
    requires n in Sound(m) && n.Obj?
    ensures n.addr in m.words && m.words[n.addr] == n.buf
    ensures n.buf == NULL ==> Emptied(m, n) == m
  {
  }

  lemma FlatStart(m: Memory, n: Node)
    requires n in Sound(m) && n.Obj? && n.buf != NULL
    ensures n.buf in m.bufs && m.bufs[n.buf].count == |n.fields| && Freed(m, FlatBlocks(n.fields, 0)) == m
  {
    assert FlatBlocks(n.fields, 0) == {};
  }

  lemma FlatApart(n: Node, i: nat)
    requires n.Obj? && Separate(n) && i <= |n.fields|
    ensures Own(n) !! FlatBlocks(n.fields, i)
    ensures i < |n.fields| ==> FlatOwn(n.fields[i].value) !! FlatBlocks(n.fields, i)
    ensures i < |n.fields| ==> FlatBlocks(n.fields, i + 1) == FlatBlocks(n.fields, i) + FlatOwn(n.fields[i].value)
  {
    forall j | 0 <= j < i ensures FlatOwn(n.fields[j].value) <= Blocks(n.fields[j].value) {
      FlatIsPart(n.fields[j].value);
    }
    if i < |n.fields| {
      FlatIsPart(n.fields[i].value);
    }
  }

  lemma FlatIsPart(v: Node)
    ensures FlatOwn(v) <= Blocks(v)
  {
  }

  lemma NextFlat(m: Memory, n: Node, i: nat)
    requires n in Sound(m) && n.Obj? && i < |n.fields| && n.buf != NULL
    ensures var m1, v := Freed(m, FlatBlocks(n.fields, i)), n.fields[i].value;
            && n.buf in m1.bufs && i < m1.bufs[n.buf].Capacity()
            && var e := m1.bufs[n.buf].entries[i];
            && e.val == v.addr != NULL && v.addr in m1.words
            && (e.typeId == TYPE_STRING <==> v.Text?)
            && (v.Text? ==> m1.words[v.addr] == v.buf && (v.buf != NULL ==> v.buf in m1.texts))
  {
    var v := n.fields[i].value;
    FlatApart(n, i);
    assert n.buf in Own(n) && v.addr in FlatOwn(v);
    assert Denotes(m, v) && Describes(m.bufs[n.buf].entries[i], n.fields[i]);
    assert v.Text? && v.buf != NULL ==> v.buf in FlatOwn(v);
  }

  lemma FlatFreed(m: Memory, n: Node, i: nat)
    requires n in Sound(m) && n.Obj? && i < |n.fields| && n.buf != NULL
    ensures var m1, v := Freed(m, FlatBlocks(n.fields, i)), n.fields[i].value;
            var m2 := m1.(words := m1.words - {v.addr},
                          texts := if v.Text? && v.buf != NULL then m1.texts - {v.buf} else m1.texts);
            m2 == Freed(m, FlatBlocks(n.fields, i + 1)) && n.buf in m2.bufs
  {
    var v := n.fields[i].value;
    FlatApart(n, i);
    FlatApart(n, i + 1);
    assert n.buf in Own(n);
    assert Denotes(m, v);
    assert FlatOwn(v) == if v.Text? && v.buf != NULL then {v.addr, v.buf} else {v.addr};
    assert n.buf in m.bufs && n.buf !in FlatBlocks(n.fields, i + 1);
    FreedWordAndText(m, FlatBlocks(n.fields, i), v.addr, if v.Text? then v.buf else NULL);
    hide Denotes, Separate, Own, Blocks, FlatOwn, FlatBlocks, Tidy;
  }

  lemma FreedWordAndText(m: Memory, dead: set<nat>, word: nat, text: nat)
    requires Tidy(m) && word in m.words && (text != NULL ==> text in m.texts)
    ensures var m1 := Freed(m, dead);
            Freed(m, dead + if text != NULL then {word, text} else {word})
            == m1.(words := m1.words - {word}, texts := if text != NULL then m1.texts - {text} else m1.texts)
  {
  }

  lemma FlatLast(m: Memory, n: Node, m1: Memory)
    requires n in Sound(m) && n.Obj? && n.buf != NULL && m1 == Freed(m, FlatBlocks(n.fields, |n.fields|))
    ensures n.buf in m1.bufs
  {
    FlatApart(n, |n.fields|);
    assert n.buf in Own(n);
  }

  lemma FlatDone(m: Memory, n: Node, m1: Memory, m2: Memory, m3: Memory)
    requires n in Sound(m) && n.Obj? && n.buf != NULL && m1 == Freed(m, FlatBlocks(n.fields, |n.fields|))
    requires m2 == m1.(bufs := m1.bufs - {n.buf}) && m3 == m2.(words := m2.words[n.addr := NULL])
    ensures m3 == Emptied(m, n)
  {
    FlatApart(n, |n.fields|);
    assert n.buf in Own(n) && n.addr in Own(n);
  }

  // ---- What a teardown achieves ------------------------------------------------------------

  /** The slot reads as an empty object again. */
  lemma EmptiedSlotIsAnObject(m: Memory, n: Node)
    requires Good(m, n) && n.Obj?
    ensures Good(Emptied(m, n), Obj(n.addr, NULL, []))
  {
    FlatApart(n, |n.fields|);
    assert n.addr in Own(n);
  }

  /** Blocks of nested objects that `deallocate` does not reach. */
  ghost function Stranded(n: Node): set<nat>
    requires n.Obj?
  {
    Blocks(n) - {n.addr} - Gone(n)
  }

  lemma GoneIsPart(n: Node)
    requires n.Obj? && Separate(n)
    ensures Gone(n) <= Blocks(n) && n.addr !in Gone(n)
  {
    FlatApart(n, |n.fields|);
    assert n.addr in Own(n);
    forall i | 0 <= i < |n.fields| ensures FlatOwn(n.fields[i].value) <= Blocks(n) {
      FlatIsPart(n.fields[i].value);
      BlocksOfField(n, i);
    }
  }

  /** Everything reachable is freed exactly when no field holds a nested object with a buffer of its own. */
  lemma FreesEverythingExactlyWhenFlat(m: Memory, n: Node)
    requires Good(m, n) && n.Obj?
    ensures Stranded(n) == {} <==> forall i :: 0 <= i < |n.fields| ==> !(n.fields[i].value.Obj? && n.fields[i].value.buf != NULL)
  {
    GoneIsPart(n);
    forall i | 0 <= i < |n.fields| && n.fields[i].value.Obj? && n.fields[i].value.buf != NULL
      ensures n.fields[i].value.buf in Stranded(n)
    {
      NestedBufferStays(n, i);
    }
    if forall i :: 0 <= i < |n.fields| ==> !(n.fields[i].value.Obj? && n.fields[i].value.buf != NULL) {
      forall i | 0 <= i < |n.fields| ensures Blocks(n.fields[i].value) == FlatOwn(n.fields[i].value) {
        var v := n.fields[i].value;
        assert Denotes(m, v);
      }
      assert n.buf == NULL ==> n.fields == [];
      forall a | a in Blocks(n) ensures a == n.addr || a in Gone(n) {
        BlocksAreOwnOrInside(n);
      }
    }
  }

  lemma NestedBufferStays(n: Node, i: nat)
    requires n.Obj? && Separate(n) && i < |n.fields| && n.fields[i].value.Obj? && n.fields[i].value.buf != NULL
    ensures n.fields[i].value.buf in Stranded(n)
  {
    var buf := n.fields[i].value.buf;
    NestedBufferIsInside(n, i);
    forall j | 0 <= j < |n.fields| ensures buf !in FlatOwn(n.fields[j].value) {
      NestedBufferApart(n, i, j);
    }
    NotInFlat(n.fields, |n.fields|, buf);
    assert n.addr in Own(n);
    hide Separate, Blocks, FlatOwn, FlatBlocks;
  }

  lemma NotInFlat(fields: seq<Field<nat, Node>>, k: nat, a: nat)
    requires k <= |fields| && forall j :: 0 <= j < k ==> a !in FlatOwn(fields[j].value)
    ensures a !in FlatBlocks(fields, k)
  {
  }

  lemma NestedBufferIsInside(n: Node, i: nat)
    requires n.Obj? && Separate(n) && i < |n.fields| && n.fields[i].value.Obj? && n.fields[i].value.buf != NULL
    ensures n.fields[i].value.buf in Blocks(n) && n.fields[i].value.buf !in Own(n)
  {
    var v := n.fields[i].value;
    BlocksOfField(n, i);
    assert v.buf in Own(v) && Own(n) !! Blocks(v);
  }

  lemma NestedBufferApart(n: Node, i: nat, j: nat)
    requires n.Obj? && Separate(n) && i < |n.fields| && j < |n.fields|
    requires n.fields[i].value.Obj? && n.fields[i].value.buf != NULL
    ensures n.fields[i].value.buf !in FlatOwn(n.fields[j].value)
  {
    var v := n.fields[i].value;
    assert Separate(v) && v.buf in Own(v) && v.buf in Blocks(v);
    if j != i {
      FlatIsPart(n.fields[j].value);
      assert Blocks(n.fields[i].value) !! Blocks(n.fields[j].value);
    }
  }

  /** After a teardown what is still allocated of the object is its slot and blocks in one of three other
      places; the blocks of other objects stay as they are. */
  lemma TeardownIsAccounted(m: Memory, n: Node, l: Ledger)
    requires Good(m, n) && n.Obj? && Accounted(m, n, l)
    ensures forall a: nat :: a !in l.elsewhere ==>
              (InUse(Emptied(m, n), a) <==> a == n.addr || a in l.superseded || a in l.detached || a in Stranded(n))
    ensures forall a: nat :: a in l.elsewhere ==> AgreeAt(m, Emptied(m, n), a)
    ensures n.addr !in l.Outside() + Stranded(n)
    ensures l.superseded !! l.detached && Stranded(n) !! l.Outside()
  {
    GoneIsPart(n);
    BlocksInUse(m, n);
  }

  lemma NestedFieldsStrand(m: Memory, n: Node, i: nat)
    requires Good(m, n) && n.Obj? && i < |n.fields|
    requires Erase(n).fields[i].value.Branch? && Erase(n).fields[i].value.fields != []
    ensures Stranded(n) != {}
  {
    assert Denotes(m, n.fields[i].value);
    NestedBufferStays(n, i);
  }

  const ONE_EMPTY_SLOT: Memory := Memory(map[], map[1 := 0], map[], 2)

  lemma OneNestedField(a: nat, b: nat)
    ensures var inner := Branch([Field(b, TYPE_INT32, Number(TYPE_INT32, 1))]);
            Edited(Branch([]), [a], Assign(b, Int32(1))) == Ok(Branch([Field(a, TYPE_OBJECT, inner)]))
  {
    var e := Assign(b, Int32(1));
    var inner := Branch([Field(b, TYPE_INT32, Number(TYPE_INT32, 1))]);
    assert Put([], b, TYPE_INT32, Number(TYPE_INT32, 1)) == inner.fields;
    assert Edited(Branch([]), [], e) == Ok(inner);
    assert Put([], a, TYPE_OBJECT, inner) == [Field(a, TYPE_OBJECT, inner)];
    assert [a][1..] == [] && Below([], a) == Branch([]);
  }

  /** A run that fails it: after `obj[a][b] = 1` on an empty object, freeing the object strands a block. */
  lemma NestedFieldIsStranded(a: nat, b: nat) returns (n: Node)
    ensures GoodSlot(ONE_EMPTY_SLOT, 1)
    ensures var r := Perform(ONE_EMPTY_SLOT, 1, [a], Assign(b, Int32(1)));
            r.Ok? && Good(r.value.0, n) && n.Obj? && n.addr == 1 && Stranded(n) != {}
  {
    var empty := ZeroedSlotIsAnObject(ONE_EMPTY_SLOT, 1, {});
    OneNestedField(a, b);
    hide Edited, GoodSlot, Perform, Denotes, Separate, Blocks, Stranded;
    n := PerformRefines(ONE_EMPTY_SLOT, empty, [a], Assign(b, Int32(1)));
    NestedFieldsStrand(Perform(ONE_EMPTY_SLOT, 1, [a], Assign(b, Int32(1))).value.0, n, 0);
  }

  /** The recursive walk over the entries of an object leaves only its slot and what was let go before. */
  lemma WalkFreesEverything(m: Memory, n: Node)
    requires Good(m, n) && n.Obj? && n.buf != NULL
    ensures FieldBlocks(n.fields, |n.fields|) + {n.buf} == Blocks(n) - {n.addr}
  {
    FieldBlocksApart(n, |n.fields|);
    assert n.addr in Own(n) && n.addr != n.buf;
    BlocksAreOwnOrInside(n);
  }
}
