/**
 Nested objects refine trees. A Node is a tree decorated with the addresses it occupies in memory;
 `Denotes` ties it to memory, `Separate` says that no block is shared. Calls along a path change the
 tree along that path and nothing else, and account for every block they leave behind.
 */
module ObjectTree {
  import opened EntryBuffers
  import opened ObjectMemory
  import opened OrderedFields
  import opened Trees

  datatype Node =
    | Leaf(addr: nat, typeId: nat, word: int)
    | Text(addr: nat, buf: nat, bytes: seq<nat>)
    | Obj(addr: nat, buf: nat, fields: seq<Field<nat, Node>>)

  function TypeOfNode(n: Node): nat {
    match n
    case Leaf(_, typeId, _) => typeId
    case Text(_, _, _) => TYPE_STRING
    case Obj(_, _, _) => TYPE_OBJECT
  }

  /** An entry describes a field: hash, type and the address of its value block. */
  predicate Describes(e: Entry, f: Field<nat, Node>) {
    e.hash == f.key && e.typeId == f.typeId == TypeOfNode(f.value) && e.val == f.value.addr
  }

  ghost predicate Denotes(m: Memory, n: Node) {
    && n.addr in m.words
    && match n
       case Leaf(_, typeId, word) => m.words[n.addr] == word && typeId != TYPE_STRING && typeId != TYPE_OBJECT
       case Text(_, buf, bytes) =>
         && m.words[n.addr] == buf
         && (if buf == NULL then bytes == [] else bytes != [] && buf in m.texts && m.texts[buf] == bytes)
       case Obj(_, buf, fields) =>
         && m.words[n.addr] == buf
         && Distinct(fields)
         && (if buf == NULL then fields == []
             else buf in m.bufs && m.bufs[buf].count == |fields| <= m.bufs[buf].Capacity()
                  && forall i :: 0 <= i < |fields| ==> Describes(m.bufs[buf].entries[i], fields[i]))
         && (forall i :: 0 <= i < |fields| ==> Denotes(m, fields[i].value))
  }

  /** The block of the node itself and the buffer it points to. */
  function Own(n: Node): set<nat> {
    if n.Leaf? || n.buf == NULL then {n.addr} else {n.addr, n.buf}
  }

  /** Every block the tree occupies. */
  function Blocks(n: Node): set<nat> {
    match n
    case Leaf(_, _, _) => Own(n)
    case Text(_, _, _) => Own(n)
    case Obj(_, _, fields) => Own(n) + set i, a | 0 <= i < |fields| && a in Blocks(fields[i].value) :: a
  }

  ghost predicate Separate(n: Node) {
    match n
    case Leaf(_, _, _) => true
    case Text(_, buf, _) => buf != n.addr
    case Obj(_, buf, fields) =>
      && buf != n.addr
      && (forall i :: 0 <= i < |fields| ==> Separate(fields[i].value) && Own(n) !! Blocks(fields[i].value))
      && (forall i, j :: 0 <= i < j < |fields| ==> Blocks(fields[i].value) !! Blocks(fields[j].value))
  }

  /** Memory uses only addresses already handed out, each for one purpose. */
  ghost predicate Tidy(m: Memory) {
    && m.next != NULL
    && (forall a: nat :: a in m.bufs ==> 0 < a < m.next && a !in m.words && a !in m.texts)
    && (forall a: nat :: a in m.words ==> 0 < a < m.next && a !in m.texts)
    && (forall a: nat :: a in m.texts ==> 0 < a < m.next)
  }

  ghost predicate Good(m: Memory, n: Node) {
    Tidy(m) && Denotes(m, n) && Separate(n)
  }

  // ---- Frames ------------------------------------------------------------------------------

  ghost predicate AgreeAt(m: Memory, m': Memory, a: nat) {
    && (a in m.words <==> a in m'.words) && (a in m.words ==> m'.words[a] == m.words[a])
    && (a in m.bufs <==> a in m'.bufs) && (a in m.bufs ==> m'.bufs[a] == m.bufs[a])
    && (a in m.texts <==> a in m'.texts) && (a in m.texts ==> m'.texts[a] == m.texts[a])
  }

  /** Memory changed at most at the given addresses and at ones handed out since; nothing is freed. */
  ghost predicate Touches(m: Memory, m': Memory, changed: set<nat>) {
    && m.next <= m'.next
    && (forall a: nat :: a in m.bufs ==> a in m'.bufs)
    && (forall a: nat :: a in m.words ==> a in m'.words)
    && (forall a: nat :: a in m.texts ==> a in m'.texts)
    && forall a: nat :: a < m.next && a !in changed ==> AgreeAt(m, m', a)
  }

  lemma BlocksOfField(n: Node, i: nat)
    requires n.Obj? && i < |n.fields|
    ensures Blocks(n.fields[i].value) <= Blocks(n)
  {
    assert forall a :: a in Blocks(n.fields[i].value) ==> a in Blocks(n);
  }

  /** The address lies in the tree of one of the fields. */
  ghost predicate Inside(n: Node, a: nat) {
    n.Obj? && exists i :: 0 <= i < |n.fields| && a in Blocks(n.fields[i].value)
  }

  lemma BlocksAreOwnOrInside(n: Node)
    ensures forall a: nat :: a in Blocks(n) <==> a in Own(n) || Inside(n, a)
  {
  }

  lemma {:induction false} BlocksInUse(m: Memory, n: Node)
    requires Denotes(m, n)
    ensures forall a :: a in Blocks(n) ==> InUse(m, a)
    ensures n.addr in Blocks(n)
  {
    if n.Obj? {
      forall i | 0 <= i < |n.fields| ensures forall a :: a in Blocks(n.fields[i].value) ==> InUse(m, a) {
        BlocksInUse(m, n.fields[i].value);
      }
    }
  }

  lemma {:induction false} DenotesFrame(m: Memory, m': Memory, n: Node)
    requires Denotes(m, n)
    requires forall a :: a in Blocks(n) ==> AgreeAt(m, m', a)
    ensures Denotes(m', n)
  {
    assert n.addr in Own(n) && forall a :: a in Own(n) ==> a in Blocks(n);
    if n.Obj? {
      forall i | 0 <= i < |n.fields| ensures Denotes(m', n.fields[i].value) {
        BlocksOfField(n, i);
        DenotesFrame(m, m', n.fields[i].value);
      }
    }
  }

  /** A tree away from the changed addresses is not affected. */
  lemma Unaffected(m: Memory, m': Memory, changed: set<nat>, n: Node)
    requires Tidy(m) && Touches(m, m', changed) && Denotes(m, n) && Blocks(n) !! changed
    ensures Denotes(m', n)
  {
    BlocksInUse(m, n);
    DenotesFrame(m, m', n);
  }

  /** Addresses handed out between two states of memory. */
  predicate Handed(m: Memory, m': Memory, a: nat) {
    m.next <= a < m'.next
  }

  /**
   What a call may do to a tree. Every fresh address ends up in the tree. What the tree loses is `cut`,
   the blocks of a removed field, and otherwise only entry and text buffers that were superseded.
   */
  ghost predicate Grows(m: Memory, m': Memory, n: Node, n': Node, cut: set<nat>) {
    && n'.addr == n.addr && TypeOfNode(n') == TypeOfNode(n)
    && Touches(m, m', Blocks(n))
    && (forall a: nat :: a in Blocks(n') ==> a in Blocks(n) || Handed(m, m', a))
    && (forall a: nat :: Handed(m, m', a) ==> a in Blocks(n'))
    && (forall a: nat :: a in cut ==> a in Blocks(n) && a !in Blocks(n'))
    && (forall a: nat :: a in Blocks(n) && a !in Blocks(n') && a !in cut ==> a in m.bufs || a in m.texts)
  }

  // ---- Changing one field of an object -----------------------------------------------------

  function WithChild(n: Node, i: nat, child: Node): Node
    requires n.Obj? && i < |n.fields|
  {
    Obj(n.addr, n.buf, n.fields[i := Field(n.fields[i].key, n.fields[i].typeId, child)])
  }

  lemma ReplaceChild(m: Memory, m': Memory, n: Node, i: nat, child: Node, cut: set<nat>)
    requires n.Obj? && i < |n.fields| && Good(m, n)
    requires Good(m', child) && Grows(m, m', n.fields[i].value, child, cut)
    ensures Good(m', WithChild(n, i, child)) && Grows(m, m', n, WithChild(n, i, child), cut)
    ensures forall a :: a in Blocks(n) && a !in Blocks(n.fields[i].value) ==> a in Blocks(WithChild(n, i, child))
    ensures Blocks(child) <= Blocks(WithChild(n, i, child))
  {
    ReplacedSeparate(m, m', n, i, child, cut);
    ReplacedDenotes(m, m', n, i, child);
    ReplacedGrows(m, m', n, i, child, cut);
  }

  lemma ReplacedGrows(m: Memory, m': Memory, n: Node, i: nat, child: Node, cut: set<nat>)
    requires n.Obj? && i < |n.fields| && Good(m, n) && Grows(m, m', n.fields[i].value, child, cut)
    ensures Grows(m, m', n, WithChild(n, i, child), cut)
    ensures forall a :: a in Blocks(n) && a !in Blocks(n.fields[i].value) ==> a in Blocks(WithChild(n, i, child))
    ensures Blocks(child) <= Blocks(WithChild(n, i, child))
  {
    ReplacedBlocks(m, m', n, i, child, cut);
    BlocksOfField(n, i);
    var n' := WithChild(n, i, child);
    forall a: nat | a in cut ensures a !in Blocks(n') {
      assert a in Blocks(n.fields[i].value) && a !in Own(n);
      forall j | 0 <= j < |n.fields| ensures a !in Blocks(n'.fields[j].value) {
        assert j != i ==> Blocks(n.fields[j].value) !! Blocks(n.fields[i].value);
      }
    }
  }

  lemma ReplacedDenotes(m: Memory, m': Memory, n: Node, i: nat, child: Node)
    requires n.Obj? && i < |n.fields| && Good(m, n) && Touches(m, m', Blocks(n.fields[i].value))
    requires Denotes(m', child) && child.addr == n.fields[i].value.addr && TypeOfNode(child) == TypeOfNode(n.fields[i].value)
    ensures Denotes(m', WithChild(n, i, child))
  {
    var n' := WithChild(n, i, child);
    OwnUnaffected(m, m', n, i);
    forall j | 0 <= j < |n.fields| ensures Denotes(m', n'.fields[j].value) {
      if j != i {
        Unaffected(m, m', Blocks(n.fields[i].value), n.fields[j].value);
      }
    }
    assert Distinct(n'.fields);
  }

  lemma ReplacedBlocks(m: Memory, m': Memory, n: Node, i: nat, child: Node, cut: set<nat>)
    requires n.Obj? && i < |n.fields| && Good(m, n) && Grows(m, m', n.fields[i].value, child, cut)
    ensures var n' := WithChild(n, i, child);
            && (forall a: nat :: a in Blocks(n') ==> a in Blocks(n) || Handed(m, m', a))
            && (forall a :: a in Blocks(n) && a !in Blocks(n.fields[i].value) ==> a in Blocks(n'))
            && Blocks(child) <= Blocks(n')
  {
    var n' := WithChild(n, i, child);
    BlocksOfField(n', i);
    forall a: nat | a in Blocks(n') ensures a in Blocks(n) || Handed(m, m', a) {
      if a !in Own(n) {
        var j :| 0 <= j < |n.fields| && a in Blocks(n'.fields[j].value);
        BlocksOfField(n, j);
      }
    }
    forall a | a in Blocks(n) && a !in Blocks(n.fields[i].value) ensures a in Blocks(n') {
      if a !in Own(n') {
        var j :| 0 <= j < |n.fields| && a in Blocks(n.fields[j].value);
        assert n'.fields[j] == n.fields[j];
        BlocksOfField(n', j);
      }
    }
  }

  lemma ReplacedSeparate(m: Memory, m': Memory, n: Node, i: nat, child: Node, cut: set<nat>)
    requires n.Obj? && i < |n.fields| && Good(m, n)
    requires Separate(child) && Grows(m, m', n.fields[i].value, child, cut)
    ensures Separate(WithChild(n, i, child))
  {
    var n' := WithChild(n, i, child);
    BlocksInUse(m, n);
    forall j | 0 <= j < |n.fields|
      ensures Separate(n'.fields[j].value) && Own(n') !! Blocks(n'.fields[j].value)
    {
      BlocksOfField(n, j);
    }
    forall j, k | 0 <= j < k < |n.fields| ensures Blocks(n'.fields[j].value) !! Blocks(n'.fields[k].value) {
      if j == i {
        ChildStaysApart(m, m', n, i, child, cut, k);
      } else if k == i {
        ChildStaysApart(m, m', n, i, child, cut, j);
      }
    }
  }

  lemma ChildStaysApart(m: Memory, m': Memory, n: Node, i: nat, child: Node, cut: set<nat>, k: nat)
    requires n.Obj? && i < |n.fields| && Good(m, n) && k < |n.fields| && k != i
    requires Grows(m, m', n.fields[i].value, child, cut)
    ensures Blocks(child) !! Blocks(n.fields[k].value)
  {
    BlocksInUse(m, n);
    BlocksOfField(n, k);
    assert Blocks(n.fields[i].value) !! Blocks(n.fields[k].value);
  }

  lemma OwnUnaffected(m: Memory, m': Memory, n: Node, i: nat)
    requires n.Obj? && i < |n.fields| && Good(m, n) && Touches(m, m', Blocks(n.fields[i].value))
    ensures n.addr in m'.words && m'.words[n.addr] == n.buf
    ensures n.buf != NULL ==> n.buf in m'.bufs && m'.bufs[n.buf] == m.bufs[n.buf]
  {
    BlocksInUse(m, n);
    assert n.addr in Own(n);
    assert n.buf != NULL ==> n.buf in Own(n);
  }

  lemma GrowsTransitively(m: Memory, m1: Memory, m2: Memory, n: Node, n1: Node, n2: Node, cut: set<nat>)
    requires Good(m, n) && Tidy(m1) && Grows(m, m1, n, n1, {}) && Grows(m1, m2, n1, n2, cut)
    requires forall a: nat :: Handed(m, m1, a) ==> a in Blocks(n2)
    ensures Grows(m, m2, n, n2, cut)
  {
    forall a: nat | a < m.next && a !in Blocks(n) ensures AgreeAt(m, m2, a) {
      assert AgreeAt(m, m1, a) && a !in Blocks(n1) && AgreeAt(m1, m2, a);
    }
    BlocksInUse(m, n);
    forall a: nat | a in Blocks(n2) ensures a in Blocks(n) || Handed(m, m2, a) {
      assert a in Blocks(n1) || Handed(m1, m2, a);
    }
    forall a: nat | Handed(m, m2, a) ensures a in Blocks(n2) {
      assert Handed(m, m1, a) || Handed(m1, m2, a);
    }
    forall a | a in cut ensures a in Blocks(n) && a !in Blocks(n2) {
      assert a in Blocks(n1) && !Handed(m, m1, a);
    }
    forall a: nat | a in Blocks(n) && a !in Blocks(n2) && a !in cut ensures a in m.bufs || a in m.texts {
      if a in Blocks(n1) {
        assert a in m1.bufs || a in m1.texts;
        assert a !in m.words;
      }
    }
  }

  /** Two calls in a row, the second on a field of what the first made of the tree. */
  lemma GrowsThenChild(m: Memory, m1: Memory, m2: Memory, n: Node, n1: Node, i: nat, child: Node, cut: set<nat>)
    requires Good(m, n) && Good(m1, n1) && Grows(m, m1, n, n1, {}) && n1.Obj? && i < |n1.fields|
    requires Good(m2, child) && Grows(m1, m2, n1.fields[i].value, child, cut)
    requires forall a: nat :: Handed(m, m1, a) && a in Blocks(n1.fields[i].value) ==> a in Blocks(child)
    ensures Good(m2, WithChild(n1, i, child)) && Grows(m, m2, n, WithChild(n1, i, child), cut)
  {
    ReplaceChild(m1, m2, n1, i, child, cut);
    GrowsTransitively(m, m1, m2, n, n1, WithChild(n1, i, child), cut);
  }

  // ---- Trees -------------------------------------------------------------------------------

  /** The tree with the addresses forgotten. */
  function Erase(n: Node): Tree {
    match n
    case Leaf(_, typeId, word) => Number(typeId, word)
    case Text(_, _, bytes) => Chars(bytes)
    case Obj(_, _, fields) =>
      Branch(seq(|fields|, i requires 0 <= i < |fields| => Field(fields[i].key, fields[i].typeId, Erase(fields[i].value))))
  }

  lemma SameIndex(n: Node, key: nat)
    requires n.Obj? && Distinct(n.fields)
    ensures Distinct(Erase(n).fields) && IndexOf(Erase(n).fields, key) == IndexOf(n.fields, key)
  {
    var fields, erased := n.fields, Erase(n).fields;
    if Has(fields, key) {
      IndexIs(erased, IndexOf(fields, key));
    } else {
      AbsentIsNotHas(fields, key);
      AbsentIsNotHas(erased, key);
    }
  }

  lemma EraseWithChild(n: Node, i: nat, child: Node)
    requires n.Obj? && i < |n.fields|
    ensures Erase(WithChild(n, i, child)).fields
         == Erase(n).fields[i := Field(n.fields[i].key, n.fields[i].typeId, Erase(child))]
  {
  }

  function WithField(n: Node, buf: nat, f: Field<nat, Node>): Node
    requires n.Obj?
  {
    Obj(n.addr, buf, n.fields + [f])
  }

  lemma EraseWithField(n: Node, buf: nat, f: Field<nat, Node>)
    requires n.Obj?
    ensures Erase(WithField(n, buf, f)).fields == Erase(n).fields + [Field(f.key, f.typeId, Erase(f.value))]
  {
  }

  // ---- Single calls ------------------------------------------------------------------------

  lemma FindIsIndex(m: Memory, n: Node, key: nat)
    requires n.Obj? && Good(m, n)
    ensures SlotOk(m, n.addr)
    ensures BufferOf(m, n.addr).count == |n.fields|
    ensures Find(BufferOf(m, n.addr), key) == IndexOf(n.fields, key)
    ensures var i := IndexOf(n.fields, key);
            i < |n.fields| ==> Describes(BufferOf(m, n.addr).entries[i], n.fields[i])
  {
    BlocksInUse(m, n);
    var i := Find(BufferOf(m, n.addr), key);
    if i < |n.fields| {
      IndexIs(n.fields, i);
    } else {
      AbsentIsNotHas(n.fields, key);
    }
  }

  /** An in-place overwrite of a scalar. */
  lemma LeafOverwrite(m: Memory, n: Node, word: int) returns (n': Node)
    requires n.Leaf? && Good(m, n)
    ensures n' == Leaf(n.addr, n.typeId, word)
    ensures var m' := m.(words := m.words[n.addr := word]); Good(m', n') && Grows(m, m', n, n', {})
  {
    n' := Leaf(n.addr, n.typeId, word);
  }

  lemma TextOverwrite(m: Memory, n: Node, bytes: seq<nat>) returns (n': Node)
    requires n.Text? && Good(m, n)
    ensures n'.Text? && n'.bytes == bytes
    ensures var m' := StringSet(m, n.addr, bytes); Good(m', n') && Grows(m, m', n, n', {})
  {
    n' := Text(n.addr, if bytes == [] then NULL else m.next, bytes);
    BlocksInUse(m, n);
    var m' := StringSet(m, n.addr, bytes);
    assert Own(n) <= {n.addr, n.buf} && Blocks(n) == Own(n) && Blocks(n') == Own(n');
    assert Tidy(m') && Touches(m, m', Blocks(n));
  }

  /** A fresh value block: one word, nothing behind it. */
  predicate Newborn(child: Node, typeId: nat, word: int) {
    match child
    case Leaf(_, t, w) => t == typeId && w == word && t != TYPE_STRING && t != TYPE_OBJECT
    case Text(_, buf, bytes) => typeId == TYPE_STRING && buf == NULL == word && bytes == []
    case Obj(_, buf, fields) => typeId == TYPE_OBJECT && buf == NULL == word && fields == []
  }

  /** Memory stays tidy and changed at most at the slot and the buffer behind it. */
  ghost predicate Around(m: Memory, m': Memory, slot: nat) {
    && Tidy(m') && m.next <= m'.next
    && (forall a: nat :: (a in m.bufs ==> a in m'.bufs) && (a in m.words ==> a in m'.words) && (a in m.texts ==> a in m'.texts))
    && (forall a: nat :: a < m.next && a != slot && a != WordAt(m, slot) ==> AgreeAt(m, m', a))
  }

  lemma MakeRoomTidy(m: Memory, slot: nat)
    requires Tidy(m) && SlotOk(m, slot)
    ensures Around(m, MakeRoom(m, slot), slot)
    ensures var a := WordAt(MakeRoom(m, slot), slot); a == WordAt(m, slot) || a >= m.next
  {
  }

  lemma AppendTidy(m: Memory, slot: nat, hash: nat, typeId: nat, word: int)
    requires Tidy(m) && SlotOk(m, slot)
    ensures Around(m, Append(m, slot, hash, typeId, word), slot) && m.next < Append(m, slot, hash, typeId, word).next
  {
    MakeRoomTidy(m, slot);
    hide MakeRoom, SlotOk;
  }

  lemma AppendBuffer(m: Memory, slot: nat, hash: nat, typeId: nat, word: int)
    requires Tidy(m) && SlotOk(m, slot)
    ensures var m', b, val := Append(m, slot, hash, typeId, word), BufferOf(m, slot), MakeRoom(m, slot).next;
            var a := WordAt(m', slot);
            && a > 0 && a in m'.bufs && (a == WordAt(m, slot) || m.next <= a < m'.next)
            && m'.bufs[a].count == b.count + 1 <= m'.bufs[a].Capacity()
            && (forall i :: 0 <= i < b.count ==> m'.bufs[a].entries[i] == b.entries[i])
            && m'.bufs[a].entries[b.count] == Entry(hash, typeId, BlockBytes(typeId), val)
            && slot in m'.words && val in m'.words && m'.words[val] == word && val != a
            && (forall x: nat :: Handed(m, m', x) <==> x == val || (x == a && a != WordAt(m, slot)))
  {
    var b, b1 := BufferOf(m, slot), BufferOf(MakeRoom(m, slot), slot);
    assert forall i :: 0 <= i < b.count ==> b1.Committed()[i] == b1.entries[i] == b.Committed()[i] == b.entries[i];
  }

  lemma AppendRefines(m: Memory, n: Node, hash: nat, typeId: nat, word: int, child: Node) returns (n': Node)
    requires n.Obj? && Good(m, n) && Absent(n.fields, hash) && SlotOk(m, n.addr)
    requires Newborn(child, typeId, word) && child.addr == MakeRoom(m, n.addr).next
    ensures var m' := Append(m, n.addr, hash, typeId, word);
            && m.next <= child.addr && Good(m', n') && Grows(m, m', n, n', {})
            && WordAt(m', n.addr) >= 0 && n' == WithField(n, WordAt(m', n.addr), Field(hash, typeId, child))
  {
    hide Append;
    var m' := Append(m, n.addr, hash, typeId, word);
    AppendTidy(m, n.addr, hash, typeId, word);
    AppendBuffer(m, n.addr, hash, typeId, word);
    BlocksInUse(m, n);
    var buf: nat := WordAt(m', n.addr);
    n' := WithField(n, buf, Field(hash, typeId, child));
    assert Separate(child) && Denotes(m', child) && Blocks(child) == {child.addr};
    AppendedGood(m, m', n, buf, Field(hash, typeId, child));
  }

  lemma AppendedGood(m: Memory, m': Memory, n: Node, buf: nat, f: Field<nat, Node>)
    requires n.Obj? && Good(m, n) && Tidy(m') && Absent(n.fields, f.key)
    requires Touches(m, m', Own(n)) && f.value.addr >= m.next && Blocks(f.value) == {f.value.addr} && f.value.addr != buf
    requires n.addr in m'.words && m'.words[n.addr] == buf && (buf == n.buf || m.next <= buf < m'.next)
    requires Denotes(m', f.value) && Separate(f.value) && f.typeId == TypeOfNode(f.value)
    requires buf > 0 && buf in m'.bufs && m'.bufs[buf].count == |n.fields| + 1 <= m'.bufs[buf].Capacity()
    requires n.buf != NULL ==> n.buf in m.bufs
    requires forall i :: 0 <= i < |n.fields| ==> m'.bufs[buf].entries[i] == m.bufs[n.buf].entries[i]
    requires Describes(m'.bufs[buf].entries[|n.fields|], f)
    requires forall a: nat :: Handed(m, m', a) <==> a == f.value.addr || (a == buf && buf != n.buf)
    ensures var n' := WithField(n, buf, f); Good(m', n') && Grows(m, m', n, n', {})
  {
    BlocksInUse(m, n);
    AppendedSeparate(m, n, buf, f);
    AppendedDenotes(m, m', n, buf, f);
    AppendedGrows(m, m', n, buf, f);
    hide Denotes, Separate, Grows;
  }

  lemma AppendedGrows(m: Memory, m': Memory, n: Node, buf: nat, f: Field<nat, Node>)
    requires n.Obj? && Good(m, n) && Touches(m, m', Own(n)) && Blocks(f.value) == {f.value.addr}
    requires (buf == n.buf || m.next <= buf) && buf > 0 && (n.buf != NULL ==> n.buf in m.bufs)
    requires forall a: nat :: Handed(m, m', a) <==> a == f.value.addr || (a == buf && buf != n.buf)
    ensures Grows(m, m', n, WithField(n, buf, f), {})
  {
    BlocksInUse(m, n);
    AppendedBlocks(n, buf, f);
    BlocksAreOwnOrInside(n);
    assert Own(n) == (if n.buf == NULL then {n.addr} else {n.addr, n.buf}) && Own(WithField(n, buf, f)) == {n.addr, buf};
    hide Denotes, Separate, Blocks, Inside, Own;
  }

  lemma AppendedDenotes(m: Memory, m': Memory, n: Node, buf: nat, f: Field<nat, Node>)
    requires n.Obj? && Good(m, n) && Absent(n.fields, f.key)
    requires Touches(m, m', Own(n)) && n.addr in m'.words && m'.words[n.addr] == buf
    requires Denotes(m', f.value) && buf > 0 && buf in m'.bufs && m'.bufs[buf].count == |n.fields| + 1 <= m'.bufs[buf].Capacity()
    requires n.buf != NULL ==> n.buf in m.bufs
    requires forall i :: 0 <= i < |n.fields| ==> m'.bufs[buf].entries[i] == m.bufs[n.buf].entries[i]
    requires Describes(m'.bufs[buf].entries[|n.fields|], f)
    ensures Denotes(m', WithField(n, buf, f))
  {
    var n' := WithField(n, buf, f);
    forall i | 0 <= i < |n'.fields|
      ensures Denotes(m', n'.fields[i].value) && Describes(m'.bufs[buf].entries[i], n'.fields[i])
    {
      if i < |n.fields| {
        BlocksOfField(n, i);
        Unaffected(m, m', Own(n), n.fields[i].value);
      }
    }
  }

  lemma AppendedBlocks(n: Node, buf: nat, f: Field<nat, Node>)
    requires n.Obj?
    ensures var n' := WithField(n, buf, f);
            forall a: nat :: a in Blocks(n') <==> a in Own(n') || a in Blocks(f.value) || Inside(n, a)
  {
    var n' := WithField(n, buf, f);
    assert n'.fields[|n.fields|] == f;
    forall a: nat | a in Blocks(n') && a !in Own(n') && a !in Blocks(f.value) ensures Inside(n, a) {
      var i :| 0 <= i < |n'.fields| && a in Blocks(n'.fields[i].value);
      assert n'.fields[i] == n.fields[i];
    }
    forall i | 0 <= i < |n.fields| ensures Blocks(n.fields[i].value) <= Blocks(n') {
      assert n'.fields[i] == n.fields[i];
      BlocksOfField(n', i);
    }
    BlocksOfField(n', |n.fields|);
  }

  lemma AppendedSeparate(m: Memory, n: Node, buf: nat, f: Field<nat, Node>)
    requires n.Obj? && Good(m, n) && (buf == n.buf || buf >= m.next) && buf != NULL
    requires Blocks(f.value) == {f.value.addr} && f.value.addr >= m.next && f.value.addr != buf && Separate(f.value)
    ensures Separate(WithField(n, buf, f))
  {
    var n' := WithField(n, buf, f);
    BlocksInUse(m, n);
    assert n.addr in Own(n) && (n.buf != NULL ==> n.buf in Own(n));
    forall i | 0 <= i < |n'.fields|
      ensures Separate(n'.fields[i].value) && Own(n') !! Blocks(n'.fields[i].value)
    {
      if i < |n.fields| {
        BlocksOfField(n, i);
      }
    }
    forall i, j | 0 <= i < j < |n'.fields| ensures Blocks(n'.fields[i].value) !! Blocks(n'.fields[j].value) {
      BlocksOfField(n, i);
    }
  }

  lemma OverwriteRefines(m: Memory, n: Node, i: nat, v: Value) returns (n': Node)
    requires n.Obj? && Good(m, n) && i < |n.fields| && n.fields[i].typeId == TypeOf(v)
    ensures var m' := Overwrite(m, n.fields[i].value.addr, v);
            && Good(m', n') && Grows(m, m', n, n', {}) && n'.Obj?
            && Erase(n').fields == Erase(n).fields[i := Field(n.fields[i].key, TypeOf(v), TreeOf(v))]
  {
    var c := n.fields[i].value;
    var m' := Overwrite(m, c.addr, v);
    assert Denotes(m, c) && Separate(c);
    ChildType(m, n, i);
    var c';
    if v.Str? {
      c' := TextOverwrite(m, c, v.bytes);
    } else {
      c' := LeafOverwrite(m, c, Payload(v));
    }
    ReplaceChild(m, m', n, i, c', {});
    n' := WithChild(n, i, c');
    EraseWithChild(n, i, c');
  }

  lemma ChildType(m: Memory, n: Node, i: nat)
    requires n.Obj? && Good(m, n) && i < |n.fields|
    ensures n.fields[i].typeId == TypeOfNode(n.fields[i].value)
    ensures n.fields[i].typeId == TYPE_STRING <==> n.fields[i].value.Text?
    ensures n.fields[i].typeId == TYPE_OBJECT <==> n.fields[i].value.Obj?
  {
    assert Denotes(m, n.fields[i].value);
    assert Describes(m.bufs[n.buf].entries[i], n.fields[i]);
  }

  lemma AddRefines(m: Memory, n: Node, hash: nat, v: Value) returns (n': Node)
    requires n.Obj? && Good(m, n) && Absent(n.fields, hash) && SlotOk(m, n.addr)
    ensures var m' := Add(m, n.addr, hash, v);
            && Good(m', n') && Grows(m, m', n, n', {}) && n'.Obj?
            && Erase(n').fields == Erase(n).fields + [Field(hash, TypeOf(v), TreeOf(v))]
  {
    var val := MakeRoom(m, n.addr).next;
    var child := if v.Str? then Text(val, NULL, []) else Leaf(val, TypeOf(v), Payload(v));
    var m1 := Append(m, n.addr, hash, TypeOf(v), Payload(v));
    n' := AppendRefines(m, n, hash, TypeOf(v), Payload(v), child);
    if v.Str? {
      n' := AddedText(m, m1, n, n', hash, child, v.bytes);
    } else {
      EraseWithField(n, n'.buf, Field(hash, TypeOf(v), child));
    }
  }

  lemma AddedText(m: Memory, m1: Memory, n: Node, n1: Node, hash: nat, child: Node, bytes: seq<nat>) returns (n': Node)
    requires n.Obj? && Good(m, n) && Good(m1, n1) && Grows(m, m1, n, n1, {})
    requires n1.Obj? && n1 == WithField(n, n1.buf, Field(hash, TYPE_STRING, child))
    requires child.Text? && child.buf == NULL && child.addr >= m.next
    ensures var m' := StringSet(m1, child.addr, bytes);
            && Good(m', n') && Grows(m, m', n, n', {}) && n'.Obj?
            && Erase(n').fields == Erase(n).fields + [Field(hash, TYPE_STRING, Chars(bytes))]
  {
    var last, m' := |n.fields|, StringSet(m1, child.addr, bytes);
    assert n1.fields[last].value == child && Good(m1, child);
    var c' := TextOverwrite(m1, child, bytes);
    n' := WithChild(n1, last, c');
    assert Blocks(child) == {child.addr};
    BlocksInUse(m', c');
    GrowsThenChild(m, m1, m', n, n1, last, c', {});
    EraseAddedText(n, n1, hash, child, c');
  }

  lemma EraseAddedText(n: Node, n1: Node, hash: nat, child: Node, c': Node)
    requires n.Obj? && n1.Obj? && n1 == WithField(n, n1.buf, Field(hash, TYPE_STRING, child)) && c'.Text?
    ensures Erase(WithChild(n1, |n.fields|, c')).fields == Erase(n).fields + [Field(hash, TYPE_STRING, Chars(c'.bytes))]
  {
    EraseWithField(n, n1.buf, Field(hash, TYPE_STRING, child));
    EraseWithChild(n1, |n.fields|, c');
  }

  /** A set call does to the tree what SetHere says, and aborts exactly when it says so. */
  lemma SetRefines(m: Memory, n: Node, hash: nat, v: Value) returns (n': Node)
    requires n.Obj? && Good(m, n) && SlotOk(m, n.addr)
    ensures match Set(m, n.addr, hash, v)
            case Aborted => SetHere(Erase(n).fields, hash, v).Aborted?
            case Ok(m') => Good(m', n') && Grows(m, m', n, n', {}) && n'.Obj?
                           && SetHere(Erase(n).fields, hash, v) == Ok(Erase(n').fields)
  {
    hide Grows, Add, Overwrite, Blocks, Separate, Tidy;
    FindIsIndex(m, n, hash);
    SameIndex(n, hash);
    var i := IndexOf(n.fields, hash);
    n' := n;
    if i == |n.fields| {
      AbsentIsNotHas(n.fields, hash);
      n' := AddRefines(m, n, hash, v);
    } else if n.fields[i].typeId == TypeOf(v) {
      n' := OverwriteRefines(m, n, i, v);
    }
  }

  /** An ensure call leaves a nested object under the key; its result is that object's slot. */
  lemma EnsureRefines(m: Memory, n: Node, hash: nat) returns (n': Node)
    requires n.Obj? && Good(m, n) && SlotOk(m, n.addr)
    ensures EnsureObject(m, n.addr, hash).Aborted? ==> EnsureHere(Erase(n).fields, hash).Aborted?
    ensures EnsureObject(m, n.addr, hash).Ok? ==>
            var m', nested := EnsureObject(m, n.addr, hash).value.0, EnsureObject(m, n.addr, hash).value.1;
            && Good(m', n') && Grows(m, m', n, n', {}) && n'.Obj?
            && EnsureHere(Erase(n).fields, hash) == Ok(Erase(n').fields)
            && Has(n'.fields, hash)
            && n'.fields[IndexOf(n'.fields, hash)].value.Obj?
            && n'.fields[IndexOf(n'.fields, hash)].value.addr == nested
            && (Has(n.fields, hash) ==> m' == m && n' == n)
            && (!Has(n.fields, hash) ==> n'.fields[IndexOf(n'.fields, hash)].value == Obj(nested, NULL, []))
  {
    FindIsIndex(m, n, hash);
    SameIndex(n, hash);
    var i := IndexOf(n.fields, hash);
    n' := n;
    if i == |n.fields| {
      n' := EnsureCreates(m, n, hash);
    } else {
      ChildType(m, n, i);
    }
  }

  lemma EnsureCreates(m: Memory, n: Node, hash: nat) returns (n': Node)
    requires n.Obj? && Good(m, n) && SlotOk(m, n.addr) && !Has(n.fields, hash)
    ensures var m', nested := Append(m, n.addr, hash, TYPE_OBJECT, NULL), MakeRoom(m, n.addr).next;
            && Good(m', n') && Grows(m, m', n, n', {}) && n'.Obj?
            && Erase(n').fields == Erase(n).fields + [Field(hash, TYPE_OBJECT, Branch([]))]
            && Has(n'.fields, hash)
            && n'.fields[IndexOf(n'.fields, hash)].value == Obj(nested, NULL, [])
  {
    AbsentIsNotHas(n.fields, hash);
    var child := Obj(MakeRoom(m, n.addr).next, NULL, []);
    n' := AppendRefines(m, n, hash, TYPE_OBJECT, NULL, child);
    EraseWithField(n, n'.buf, Field(hash, TYPE_OBJECT, child));
    assert Erase(child).fields == [];
    var last := |n.fields|;
    assert n'.fields[last] == Field(hash, TYPE_OBJECT, child);
    assert Distinct(n'.fields);
    IndexIs(n'.fields, last);
  }

  /** The blocks of the field with this key. */
  function Cut(n: Node, hash: nat): set<nat> {
    if n.Obj? && Has(n.fields, hash) then Blocks(n.fields[IndexOf(n.fields, hash)].value) else {}
  }

  lemma NothingGrows(m: Memory, n: Node)
    ensures Grows(m, m, n, n, {})
  {
  }

  /** A removal filters one field out of the tree and leaves its blocks and the old buffer behind. */
  lemma RemoveRefines(m: Memory, n: Node, hash: nat) returns (n': Node)
    requires n.Obj? && Good(m, n) && SlotOk(m, n.addr)
    ensures var m' := Remove(m, n.addr, hash);
            && Good(m', n') && Grows(m, m', n, n', Cut(n, hash)) && n'.Obj?
            && Erase(n').fields == Without(Erase(n).fields, hash)
            && n'.fields == Without(n.fields, hash)
            && (n' != n ==> m'.words[n.addr] == n'.buf && (n'.buf == NULL || n'.buf >= m.next))
  {
    hide Separate, Grows, Blocks;
    FindIsIndex(m, n, hash);
    SameIndex(n, hash);
    BlocksInUse(m, n);
    var i := IndexOf(n.fields, hash);
    if i == |n.fields| {
      n' := n;
      NothingGrows(m, n);
    } else {
      var m' := Remove(m, n.addr, hash);
      WithoutKeepsDistinct(n.fields, hash);
      n' := Obj(n.addr, if |n.fields| == 1 then NULL else m.next, Without(n.fields, hash));
      RemovedDenotes(m, n, i, n');
      RemovedErases(n, i, n');
    }
  }

  lemma RemovedErases(n: Node, i: nat, n': Node)
    requires n.Obj? && n'.Obj? && i < |n.fields| && n'.fields == n.fields[..i] + n.fields[i + 1..]
    ensures Erase(n').fields == Erase(n).fields[..i] + Erase(n).fields[i + 1..]
  {
  }

  lemma RemovedMemory(m: Memory, n: Node, i: nat)
    requires n.Obj? && Good(m, n) && i < |n.fields| && SlotOk(m, n.addr)
    requires i == Find(BufferOf(m, n.addr), n.fields[i].key) && BufferOf(m, n.addr).count == |n.fields|
    ensures var m', buf := Remove(m, n.addr, n.fields[i].key), if |n.fields| == 1 then NULL else m.next;
            && Tidy(m') && Touches(m, m', {n.addr}) && n.addr in m'.words && m'.words[n.addr] == buf
            && (forall a: nat :: Handed(m, m', a) <==> a == buf && a != NULL)
            && (buf != NULL ==> buf in m'.bufs && m'.bufs[buf] == Filtered(m.bufs[n.buf], i))
  {
    hide Separate, Erase;
    BlocksInUse(m, n);
  }

  lemma SurvivorStays(m: Memory, n: Node, i: nat, n': Node, m': Memory, j: nat)
    requires n.Obj? && Good(m, n) && i < |n.fields| && n'.Obj? && n'.addr == n.addr
    requires n'.fields == n.fields[..i] + n.fields[i + 1..] && j < |n'.fields|
    requires n'.buf == NULL || n'.buf == m.next
    requires Touches(m, m', {n.addr})
    ensures var k := if j < i then j else j + 1; n'.fields[j] == n.fields[k]
    ensures Blocks(n'.fields[j].value) <= Blocks(n)
    ensures Denotes(m', n'.fields[j].value) && Separate(n'.fields[j].value) && Own(n') !! Blocks(n'.fields[j].value)
  {
    var k := if j < i then j else j + 1;
    assert n'.fields[j] == n.fields[k];
    assert Denotes(m, n.fields[k].value) && Separate(n.fields[k].value) && Own(n) !! Blocks(n.fields[k].value);
    BlocksOfField(n, k);
    BlocksInUse(m, n);
    assert n.addr in Own(n);
    hide Blocks, Denotes, Separate;
    Unaffected(m, m', {n.addr}, n.fields[k].value);
  }

  lemma RemovedDenotes(m: Memory, n: Node, i: nat, n': Node)
    requires n.Obj? && Good(m, n) && i < |n.fields| && SlotOk(m, n.addr) && BufferOf(m, n.addr).count == |n.fields|
    requires i == Find(BufferOf(m, n.addr), n.fields[i].key) && Distinct(n.fields[..i] + n.fields[i + 1..])
    requires n' == Obj(n.addr, if |n.fields| == 1 then NULL else m.next, n.fields[..i] + n.fields[i + 1..])
    ensures var m' := Remove(m, n.addr, n.fields[i].key); Good(m', n') && Grows(m, m', n, n', Blocks(n.fields[i].value))
  {
    var m' := Remove(m, n.addr, n.fields[i].key);
    BlocksInUse(m, n);
    RemovedMemory(m, n, i);
    RemovedGood(m, n, i, n', m');
    RemovedGrows(m, m', n, i, n');
  }

  lemma RemovedGrows(m: Memory, m': Memory, n: Node, i: nat, n': Node)
    requires n.Obj? && Good(m, n) && i < |n.fields| && n'.Obj? && n'.addr == n.addr && (n'.buf == NULL || n'.buf >= m.next)
    requires n'.fields == n.fields[..i] + n.fields[i + 1..]
    requires Touches(m, m', {n.addr})
    requires forall a: nat :: Handed(m, m', a) <==> a == n'.buf && a != NULL
    ensures Grows(m, m', n, n', Blocks(n.fields[i].value))
  {
    RemovedBlocks(n, i, n');
    BlocksInUse(m, n);
    BlocksOfField(n, i);
    assert n.addr in Own(n) && n.addr in Own(n');
    assert Describes(m.bufs[n.buf].entries[i], n.fields[i]);
    forall a: nat | a in Blocks(n.fields[i].value) ensures a !in Blocks(n') {
      assert a !in Own(n) && a < m.next;
    }
  }

  lemma RemovedGood(m: Memory, n: Node, i: nat, n': Node, m': Memory)
    requires n.Obj? && Good(m, n) && i < |n.fields| && Distinct(n.fields[..i] + n.fields[i + 1..])
    requires n' == Obj(n.addr, if |n.fields| == 1 then NULL else m.next, n.fields[..i] + n.fields[i + 1..])
    requires Tidy(m') && Touches(m, m', {n.addr}) && n.addr in m'.words && m'.words[n.addr] == n'.buf
    requires n'.buf != NULL ==> n.buf in m.bufs && m.bufs[n.buf].count == |n.fields| <= m.bufs[n.buf].Capacity()
                                && n'.buf in m'.bufs && m'.bufs[n'.buf] == Filtered(m.bufs[n.buf], i)
    ensures Good(m', n')
  {
    BlocksInUse(m, n);
    assert n.addr in Own(n);
    forall j | 0 <= j < |n'.fields|
      ensures Denotes(m', n'.fields[j].value) && Separate(n'.fields[j].value) && Own(n') !! Blocks(n'.fields[j].value)
      ensures n'.buf != NULL ==> Describes(m'.bufs[n'.buf].entries[j], n'.fields[j])
    {
      SurvivorStays(m, n, i, n', m', j);
    }
    SurvivorsApart(n, i, n');
  }

  lemma RemovedBlocks(n: Node, i: nat, n': Node)
    requires n.Obj? && Separate(n) && i < |n.fields| && n'.Obj?
    requires n'.fields == n.fields[..i] + n.fields[i + 1..]
    ensures forall a :: a in Blocks(n') <==> a in Own(n') || (a in Blocks(n) && a !in Own(n) && a !in Blocks(n.fields[i].value))
  {
    BlocksAreOwnOrInside(n);
    BlocksAreOwnOrInside(n');
    forall a: nat ensures Inside(n', a) <==> Inside(n, a) && a !in Blocks(n.fields[i].value) {
      RemovedInside(n, i, n', a);
    }
    forall a | Inside(n, a) ensures a !in Own(n) {
      OwnIsNotInside(n, a);
    }
    hide Blocks, Separate;
  }

  lemma OwnIsNotInside(n: Node, a: nat)
    requires n.Obj? && Separate(n) && Inside(n, a)
    ensures a !in Own(n)
  {
    var k :| 0 <= k < |n.fields| && a in Blocks(n.fields[k].value);
    assert Own(n) !! Blocks(n.fields[k].value);
  }

  lemma RemovedInside(n: Node, i: nat, n': Node, a: nat)
    requires n.Obj? && Separate(n) && i < |n.fields| && n'.Obj?
    requires n'.fields == n.fields[..i] + n.fields[i + 1..]
    ensures Inside(n', a) <==> Inside(n, a) && a !in Blocks(n.fields[i].value)
  {
    if Inside(n', a) {
      StillInside(n, i, n', a);
    }
    if Inside(n, a) && a !in Blocks(n.fields[i].value) {
      hide Blocks, Separate;
      var k :| 0 <= k < |n.fields| && a in Blocks(n.fields[k].value);
      assert n'.fields[if k < i then k else k - 1] == n.fields[k];
    }
  }

  lemma StillInside(n: Node, i: nat, n': Node, a: nat)
    requires n.Obj? && Separate(n) && i < |n.fields| && n'.Obj?
    requires n'.fields == n.fields[..i] + n.fields[i + 1..] && Inside(n', a)
    ensures Inside(n, a) && a !in Blocks(n.fields[i].value)
  {
    var j :| 0 <= j < |n'.fields| && a in Blocks(n'.fields[j].value);
    var k := if j < i then j else j + 1;
    assert n'.fields[j] == n.fields[k];
    FieldsApart(n, k, i);
    hide Blocks, Separate;
  }

  lemma FieldsApart(n: Node, i: nat, j: nat)
    requires n.Obj? && Separate(n) && i < |n.fields| && j < |n.fields| && i != j
    ensures Blocks(n.fields[i].value) !! Blocks(n.fields[j].value)
  {
  }

  lemma SurvivorsApart(n: Node, i: nat, n': Node)
    requires n.Obj? && Separate(n) && i < |n.fields| && n'.Obj?
    requires n'.fields == n.fields[..i] + n.fields[i + 1..]
    ensures forall j, k :: 0 <= j < k < |n'.fields| ==> Blocks(n'.fields[j].value) !! Blocks(n'.fields[k].value)
  {
    assert forall j :: 0 <= j < |n'.fields| ==> n'.fields[j] == n.fields[if j < i then j else j + 1];
  }
}
