/**
 Chains of names, `obj[p1]...[pk]`: every name but the last goes through the ensure call, the last one
 is set, removed or read. A chain refines an edit of the tree, and every block it allocates or leaves
 behind is accounted for.
 */
module ObjectPaths {
  import opened EntryBuffers
  import opened ObjectMemory
  import opened ObjectTree
  import opened OrderedFields
  import opened Trees
  import opened Wrappers

  /** A slot with a well-formed, unshared object behind it. */
  ghost predicate GoodSlot(m: Memory, slot: nat) {
    exists n: Node :: n.Obj? && n.addr == slot && Good(m, n)
  }

  lemma GoodSlotIsOk(m: Memory, slot: nat)
    requires GoodSlot(m, slot)
    ensures SlotOk(m, slot)
  {
    var n: Node :| n.Obj? && n.addr == slot && Good(m, n);
    FindIsIndex(m, n, 0);
  }

  lemma EnsureKeepsGood(m: Memory, slot: nat, hash: nat)
    requires GoodSlot(m, slot) && SlotOk(m, slot) && EnsureObject(m, slot, hash).Ok?
    ensures GoodSlot(EnsureObject(m, slot, hash).value.0, EnsureObject(m, slot, hash).value.1)
  {
    var n: Node :| n.Obj? && n.addr == slot && Good(m, n);
    var n' := EnsureRefines(m, n, hash);
    var child := n'.fields[IndexOf(n'.fields, hash)].value;
    assert Good(EnsureObject(m, slot, hash).value.0, child);
  }

  /** The slot of the object at the end of a chain, missing objects created on the way. */
  ghost function Resolve(m: Memory, slot: nat, path: seq<nat>): (r: Outcome<(Memory, nat)>)
    requires GoodSlot(m, slot)
    ensures r.Ok? ==> GoodSlot(r.value.0, r.value.1)
    decreases |path|
  {
    GoodSlotIsOk(m, slot);
    if path == [] then Ok((m, slot))
    else
      match EnsureObject(m, slot, path[0])
      case Aborted => Aborted
      case Ok(first) =>
        EnsureKeepsGood(m, slot, path[0]);
        Resolve(first.0, first.1, path[1..])
  }

  /** One call on the object behind a slot. */
  function Apply(m: Memory, slot: nat, e: Edit): Outcome<Memory>
    requires SlotOk(m, slot)
  {
    match e
    case Assign(key, v) => Set(m, slot, key, v)
    case Drop(key) => Ok(Remove(m, slot, key))
    case Reach => Ok(m)
  }

  /** A chain followed by a call; also the slot the chain led to. */
  ghost function Perform(m: Memory, slot: nat, path: seq<nat>, e: Edit): Outcome<(Memory, nat)>
    requires GoodSlot(m, slot)
  {
    match Resolve(m, slot, path)
    case Aborted => Aborted
    case Ok(end) =>
      GoodSlotIsOk(end.0, end.1);
      match Apply(end.0, end.1, e)
      case Aborted => Aborted
      case Ok(m') => Ok((m', end.1))
  }

  /** The node at a path; a missing one does not exist. */
  function NodeAt(n: Node, path: seq<nat>): Option<Node> {
    if path == [] then Some(n)
    else if n.Obj? && Has(n.fields, path[0]) then NodeAt(n.fields[IndexOf(n.fields, path[0])].value, path[1..])
    else None
  }

  /** The blocks of the field an edit drops. */
  function CutAt(n: Node, path: seq<nat>, e: Edit): set<nat> {
    if !e.Drop? || NodeAt(n, path).None? then {} else Cut(NodeAt(n, path).value, e.key)
  }

  lemma ApplyRefines(m: Memory, n: Node, e: Edit) returns (n': Node)
    requires n.Obj? && Good(m, n) && SlotOk(m, n.addr)
    ensures match Apply(m, n.addr, e)
            case Aborted => EditHere(Erase(n).fields, e).Aborted?
            case Ok(m') => Good(m', n') && Grows(m, m', n, n', CutAt(n, [], e)) && n'.Obj?
                           && EditHere(Erase(n).fields, e) == Ok(Erase(n').fields)
  {
    match e
    case Assign(key, v) => n' := SetRefines(m, n, key, v);
    case Drop(key) => n' := RemoveRefines(m, n, key);
    case Reach => n' := n;
  }

  /**
   A chain does to the tree what Edited says, aborts exactly when it does, leads to the object at the
   path, and loses only the dropped field's blocks and superseded buffers.
   */
  lemma {:induction false} PerformRefines(m: Memory, n: Node, path: seq<nat>, e: Edit) returns (n': Node)
    requires n.Obj? && Good(m, n) && GoodSlot(m, n.addr)
    ensures match Perform(m, n.addr, path, e)
            case Aborted => Edited(Erase(n), path, e).Aborted?
            case Ok(end) => Refines(m, n, path, e, end.0, n', end.1)
    decreases |path|
  {
    GoodSlotIsOk(m, n.addr);
    if path == [] {
      n' := PerformHere(m, n, e);
      return;
    }
    n' := n;
    ChainAborts(m, n, path, e);
    PerformUnrolls(m, n.addr, path, e);
    if EnsureObject(m, n.addr, path[0]).Ok? {
      var m1, n1 := EnsureStep(m, n, path, e);
      var i := IndexOf(n1.fields, path[0]);
      var c' := PerformRefines(m1, n1.fields[i].value, path[1..], e);
      var r := Perform(m1, n1.fields[i].value.addr, path[1..], e);
      if r.Ok? {
        n' := WithChild(n1, i, c');
        OneLevelUp(m, n, path, e, m1, n1, r.value.0, c', r.value.1);
      }
    }
  }

  lemma PerformUnrolls(m: Memory, slot: nat, path: seq<nat>, e: Edit)
    requires GoodSlot(m, slot) && SlotOk(m, slot) && path != []
    ensures match EnsureObject(m, slot, path[0])
            case Aborted => Perform(m, slot, path, e).Aborted?
            case Ok(first) =>
              GoodSlot(first.0, first.1) && Perform(m, slot, path, e) == Perform(first.0, first.1, path[1..], e)
  {
    if EnsureObject(m, slot, path[0]).Ok? {
      EnsureKeepsGood(m, slot, path[0]);
    }
  }

  /** The first name of a chain, for the memory and for the edit. */
  lemma EnsureStep(m: Memory, n: Node, path: seq<nat>, e: Edit) returns (m1: Memory, n1: Node)
    requires n.Obj? && Good(m, n) && path != [] && SlotOk(m, n.addr) && EnsureObject(m, n.addr, path[0]).Ok?
    ensures n1.Obj? && Good(m1, n1) && Grows(m, m1, n, n1, {}) && Has(n1.fields, path[0])
    ensures EnsureHere(Erase(n).fields, path[0]) == Ok(Erase(n1).fields)
    ensures var c := n1.fields[IndexOf(n1.fields, path[0])].value;
            && c.Obj? && Good(m1, c) && EnsureObject(m, n.addr, path[0]) == Ok((m1, c.addr))
            && (if Has(n.fields, path[0]) then m1 == m && n1 == n else c == Obj(c.addr, NULL, []))
            && (Edited(Erase(c), path[1..], e).Aborted? ==> Edited(Erase(n), path, e).Aborted?)
  {
    n1 := EnsureRefines(m, n, path[0]);
    m1 := EnsureObject(m, n.addr, path[0]).value.0;
    SameIndex(n1, path[0]);
    EnsureFirst(Erase(n), Erase(n1).fields, path, e);
    assert Good(m1, n1.fields[IndexOf(n1.fields, path[0])].value);
  }

  ghost predicate Refines(m: Memory, n: Node, path: seq<nat>, e: Edit, m': Memory, n': Node, inner: nat) {
    && Good(m', n') && Grows(m, m', n, n', CutAt(n, path, e)) && n'.Obj?
    && Edited(Erase(n), path, e) == Ok(Erase(n'))
    && NodeAt(n', path).Some? && NodeAt(n', path).value.Obj? && NodeAt(n', path).value.addr == inner
  }

  lemma PerformHere(m: Memory, n: Node, e: Edit) returns (n': Node)
    requires n.Obj? && Good(m, n) && SlotOk(m, n.addr)
    ensures match Apply(m, n.addr, e)
            case Aborted => Edited(Erase(n), [], e).Aborted?
            case Ok(m') => Refines(m, n, [], e, m', n', n.addr)
  {
    n' := ApplyRefines(m, n, e);
  }

  /** From the nested object to the object around it. */
  lemma OneLevelUp(m: Memory, n: Node, path: seq<nat>, e: Edit, m1: Memory, n1: Node, m': Memory, c': Node, inner: nat)
    requires n.Obj? && n1.Obj? && path != [] && Good(m, n) && Good(m1, n1) && Grows(m, m1, n, n1, {})
    requires Has(n1.fields, path[0])
    requires EnsureHere(Erase(n).fields, path[0]) == Ok(Erase(n1).fields)
    requires var c := n1.fields[IndexOf(n1.fields, path[0])].value;
      && Refines(m1, c, path[1..], e, m', c', inner)
      && (if Has(n.fields, path[0]) then m1 == m && n1 == n else c == Obj(c'.addr, NULL, []))
    ensures Refines(m, n, path, e, m', WithChild(n1, IndexOf(n1.fields, path[0]), c'), inner)
  {
    var i := IndexOf(n1.fields, path[0]);
    var c, n' := n1.fields[i].value, WithChild(n1, i, c');
    ChainGrows(m, m1, m', n, n1, i, c', CutAt(c, path[1..], e));
    CutDescends(n, n1, path, e);
    ChildType(m1, n1, i);
    OneLevelUpEdit(n, n1, path, e, c');
  }

  lemma CutDescends(n: Node, n1: Node, path: seq<nat>, e: Edit)
    requires n.Obj? && n1.Obj? && path != [] && Has(n1.fields, path[0])
    requires var c := n1.fields[IndexOf(n1.fields, path[0])].value;
      if Has(n.fields, path[0]) then n1 == n else c == Obj(c.addr, NULL, [])
    ensures CutAt(n, path, e) == CutAt(n1.fields[IndexOf(n1.fields, path[0])].value, path[1..], e)
  {
  }

  lemma OneLevelUpEdit(n: Node, n1: Node, path: seq<nat>, e: Edit, c': Node)
    requires n.Obj? && n1.Obj? && path != [] && Distinct(n1.fields) && Has(n1.fields, path[0])
    requires EnsureHere(Erase(n).fields, path[0]) == Ok(Erase(n1).fields)
    requires var f := n1.fields[IndexOf(n1.fields, path[0])];
      f.typeId == TYPE_OBJECT && Edited(Erase(f.value), path[1..], e) == Ok(Erase(c'))
    ensures var n' := WithChild(n1, IndexOf(n1.fields, path[0]), c');
            Edited(Erase(n), path, e) == Ok(Erase(n')) && NodeAt(n', path) == NodeAt(c', path[1..])
  {
    var i := IndexOf(n1.fields, path[0]);
    var n' := WithChild(n1, i, c');
    SameIndex(n1, path[0]);
    EnsureFirst(Erase(n), Erase(n1).fields, path, e);
    EraseWithChild(n1, i, c');
    assert Distinct(n'.fields) && n'.fields[i].key == path[0];
    IndexIs(n'.fields, i);
  }

  lemma ChainGrows(m: Memory, m1: Memory, m2: Memory, n: Node, n1: Node, i: nat, c': Node, cut: set<nat>)
    requires Good(m, n) && Good(m1, n1) && Grows(m, m1, n, n1, {}) && n1.Obj? && i < |n1.fields|
    requires Good(m2, c') && Grows(m1, m2, n1.fields[i].value, c', cut)
    requires m1 == m || n1.fields[i].value == Obj(c'.addr, NULL, [])
    ensures Good(m2, WithChild(n1, i, c')) && Grows(m, m2, n, WithChild(n1, i, c'), cut)
  {
    hide Denotes, Separate;
    BlocksInUse(m2, c');
    if m1 != m {
      assert Blocks(n1.fields[i].value) == {c'.addr};
    }
    GrowsThenChild(m, m1, m2, n, n1, i, c', cut);
  }

  lemma ChainAborts(m: Memory, n: Node, path: seq<nat>, e: Edit)
    requires n.Obj? && Good(m, n) && path != [] && SlotOk(m, n.addr)
    ensures EnsureObject(m, n.addr, path[0]).Aborted? ==> Edited(Erase(n), path, e).Aborted?
  {
    FindIsIndex(m, n, path[0]);
    SameIndex(n, path[0]);
    if Has(n.fields, path[0]) {
      ChildType(m, n, IndexOf(n.fields, path[0]));
    }
  }

  // ---- Reading along a path ----------------------------------------------------------------

  lemma {:induction false} NodesAreTheTree(m: Memory, n: Node, path: seq<nat>)
    requires Good(m, n)
    ensures At(Erase(n), path).Some? <==> NodeAt(n, path).Some?
    ensures NodeAt(n, path).Some? ==> Good(m, NodeAt(n, path).value)
                                      && At(Erase(n), path).value == Erase(NodeAt(n, path).value)
    decreases |path|
  {
    if path != [] && n.Obj? {
      SameIndex(n, path[0]);
      if Has(n.fields, path[0]) {
        var child := n.fields[IndexOf(n.fields, path[0])].value;
        assert Good(m, child);
        NodesAreTheTree(m, child, path[1..]);
      }
    }
  }

  /** A chain over existing objects changes nothing and allocates nothing. */
  lemma {:induction false} ExistingChainsOnlyRead(m: Memory, n: Node, path: seq<nat>)
    requires n.Obj? && Good(m, n) && GoodSlot(m, n.addr)
    requires NodeAt(n, path).Some? && NodeAt(n, path).value.Obj?
    ensures Perform(m, n.addr, path, Reach) == Ok((m, NodeAt(n, path).value.addr))
    decreases |path|
  {
    GoodSlotIsOk(m, n.addr);
    if path != [] {
      PerformUnrolls(m, n.addr, path, Reach);
      FindIsIndex(m, n, path[0]);
      var i := IndexOf(n.fields, path[0]);
      ChildType(m, n, i);
      var child := n.fields[i].value;
      assert child.Obj? && Good(m, child);
      ExistingChainsOnlyRead(m, child, path[1..]);
    }
  }

  /** What the typed getters say about what stands at a path. */
  function NumberIn(there: Option<Tree>, typeId: nat): int {
    if there.Some? && there.value.Number? && there.value.typeId == typeId then there.value.word else 0
  }

  function CharsIn(there: Option<Tree>): seq<nat> {
    if there.Some? && there.value.Chars? then there.value.bytes else []
  }

  predicate Scalar(typeId: nat) {
    typeId != TYPE_STRING && typeId != TYPE_OBJECT
  }

  lemma GettersReadTheTree(m: Memory, n: Node, key: nat, typeId: nat)
    requires n.Obj? && Good(m, n) && SlotOk(m, n.addr)
    ensures Scalar(typeId) ==> Answer(m, n.addr, key, typeId) == NumberIn(At(Erase(n), [key]), typeId)
    ensures TextAnswer(m, n.addr, key) == CharsIn(At(Erase(n), [key]))
  {
    FindIsIndex(m, n, key);
    SameIndex(n, key);
    if Has(n.fields, key) {
      var i := IndexOf(n.fields, key);
      ChildType(m, n, i);
      var child := n.fields[i].value;
      assert Denotes(m, child);
      assert At(Erase(n), [key]) == At(Erase(child), []);
    }
  }

  /** Reading `path`, then `key`: what the chain and the getters return. */
  ghost predicate ReadsAs(m: Memory, slot: nat, path: seq<nat>, key: nat, typeId: nat, word: int, bytes: seq<nat>)
    requires GoodSlot(m, slot)
  {
    var r := Perform(m, slot, path, Reach);
    && r.Ok? && SlotOk(r.value.0, r.value.1)
    && (Scalar(typeId) ==> Answer(r.value.0, r.value.1, key, typeId) == word)
    && TextAnswer(r.value.0, r.value.1, key) == bytes
  }

  /** Following the chain leaves memory as it is. */
  ghost predicate OnlyReads(m: Memory, slot: nat, path: seq<nat>)
    requires GoodSlot(m, slot)
  {
    Perform(m, slot, path, Reach).Ok? && Perform(m, slot, path, Reach).value.0 == m
  }

  lemma {:induction false} AtDescends(t: Tree, path: seq<nat>, key: nat)
    requires At(t, path).Some?
    ensures At(t, path + [key]) == At(At(t, path).value, [key])
    decreases |path|
  {
    if path == [] {
      assert path + [key] == [key];
    } else {
      AtDescends(t.fields[IndexOf(t.fields, path[0])].value, path[1..], key);
      assert (path + [key])[1..] == path[1..] + [key];
    }
  }

  predicate AnObject(there: Option<Tree>) {
    there.Some? && there.value.Branch?
  }

  /** One address and type, one memory, one tree. */
  lemma {:induction false} DenotationIsUnique(m: Memory, n: Node, n': Node)
    requires Denotes(m, n) && Denotes(m, n') && n.addr == n'.addr && TypeOfNode(n) == TypeOfNode(n')
    ensures n == n'
  {
    if n.Obj? {
      assert |n.fields| == |n'.fields|;
      forall i | 0 <= i < |n.fields| ensures n.fields[i] == n'.fields[i] {
        var e := m.bufs[n.buf].entries[i];
        assert Describes(e, n.fields[i]) && Describes(e, n'.fields[i]);
        DenotationIsUnique(m, n.fields[i].value, n'.fields[i].value);
      }
      assert n.fields == n'.fields;
    }
  }

  /** A chain writes unless an object already stands at its end: reading creates what is missing. */
  lemma ReadsWriteExactlyWhenMissing(m: Memory, n: Node, path: seq<nat>)
    requires n.Obj? && Good(m, n) && GoodSlot(m, n.addr)
    ensures OnlyReads(m, n.addr, path) <==> AnObject(At(Erase(n), path))
  {
    NodesAreTheTree(m, n, path);
    if AnObject(At(Erase(n), path)) {
      ExistingChainsOnlyRead(m, n, path);
    }
    if OnlyReads(m, n.addr, path) {
      var n' := PerformRefines(m, n, path, Reach);
      DenotationIsUnique(m, n, n');
    }
  }

  /** The objects a chain creates are empty: below its end nothing new can be read. */
  lemma {:induction false} ReachAddsNothing(t: Tree, path: seq<nat>, key: nat)
    requires WellFormed(t) && Edited(t, path, Reach).Ok?
    ensures At(Edited(t, path, Reach).value, path + [key]) == At(t, path + [key])
    decreases |path|
  {
    if path != [] {
      var below := Below(t.fields, path[0]);
      ReachAddsNothing(below, path[1..], key);
      PutLookup(t.fields, path[0], TYPE_OBJECT, Edited(below, path[1..], Reach).value, path[0]);
      assert (path + [key])[1..] == path[1..] + [key];
    }
  }

  /** Whatever exists on the way, the getters at the end of a chain answer what stood there before. */
  lemma ReadsFollowTheTree(m: Memory, n: Node, path: seq<nat>, key: nat, typeId: nat)
    requires n.Obj? && Good(m, n) && GoodSlot(m, n.addr) && Perform(m, n.addr, path, Reach).Ok?
    ensures var there := At(Erase(n), path + [key]);
            ReadsAs(m, n.addr, path, key, typeId, NumberIn(there, typeId), CharsIn(there))
  {
    var (m', inner) := Perform(m, n.addr, path, Reach).value;
    var n' := PerformRefines(m, n, path, Reach);
    NodesAreTheTree(m', n', path);
    FindIsIndex(m', NodeAt(n', path).value, key);
    GettersReadTheTree(m', NodeAt(n', path).value, key, typeId);
    AtDescends(Erase(n'), path, key);
    ErasedIsWellFormed(m, n);
    ReachAddsNothing(Erase(n), path, key);
  }

  lemma {:induction false} ErasedIsWellFormed(m: Memory, n: Node)
    requires Denotes(m, n)
    ensures WellFormed(Erase(n))
  {
    if n.Obj? {
      SameIndex(n, 0);
      forall i | 0 <= i < |n.fields| ensures WellFormed(Erase(n).fields[i].value) {
        ErasedIsWellFormed(m, n.fields[i].value);
      }
      forall i | 0 <= i < |n.fields| ensures Erase(n).fields[i].typeId == TypeOfTree(Erase(n).fields[i].value) {
        assert Describes(m.bufs[n.buf].entries[i], n.fields[i]);
      }
    }
  }

  /** `obj[p1]...[pk] = v`, read back along the same chain. */
  lemma PathReadsBack(m: Memory, n: Node, path: seq<nat>, key: nat, v: Value)
    requires n.Obj? && Good(m, n) && GoodSlot(m, n.addr) && Perform(m, n.addr, path, Assign(key, v)).Ok?
    ensures var m' := Perform(m, n.addr, path, Assign(key, v)).value.0;
            && GoodSlot(m', n.addr)
            && ReadsAs(m', n.addr, path, key, TypeOf(v), Payload(v), if v.Str? then v.bytes else [])
            && OnlyReads(m', n.addr, path)
  {
    hide At, Edited, Perform, WellFormed, NodeAt, Blocks, Erase, Denotes, Separate, Tidy;
    var e := Assign(key, v);
    var n' := PerformRefines(m, n, path, e);
    var m' := Perform(m, n.addr, path, e).value.0;
    ErasedIsWellFormed(m, n);
    ObjectsOnTheWayExist(Erase(n), path, e, |path|);
    assert path[..|path|] == path;
    SetReadsBack(Erase(n), path, key, v);
    ReadsWriteExactlyWhenMissing(m', n', path);
    ReadsFollowTheTree(m', n', path, key, TypeOf(v));
  }

  /** What stands at a path as a type: 0 for nothing. */
  function TypeIn(there: Option<Tree>): nat {
    if there.Some? then TypeOfTree(there.value) else 0
  }

  lemma TypeReadsTheTree(m: Memory, n: Node, key: nat)
    requires n.Obj? && Good(m, n) && SlotOk(m, n.addr)
    ensures TypeAnswer(m, n.addr, key) == TypeIn(At(Erase(n), [key]))
  {
    FindIsIndex(m, n, key);
    SameIndex(n, key);
    if Has(n.fields, key) {
      ChildType(m, n, IndexOf(n.fields, key));
      assert At(Erase(n), [key]) == At(Erase(n.fields[IndexOf(n.fields, key)].value), []);
    }
  }

  /** The slot at the end of a chain over existing objects. */
  lemma EndOfChain(m: Memory, n: Node, path: seq<nat>) returns (end: Node)
    requires n.Obj? && Good(m, n) && GoodSlot(m, n.addr) && NodeAt(n, path).Some? && NodeAt(n, path).value.Obj?
    ensures end == NodeAt(n, path).value && Good(m, end) && SlotOk(m, end.addr)
    ensures Perform(m, n.addr, path, Reach) == Ok((m, end.addr))
    ensures forall key :: At(Erase(n), path + [key]) == At(Erase(end), [key])
  {
    end := NodeAt(n, path).value;
    NodesAreTheTree(m, n, path);
    ExistingChainsOnlyRead(m, n, path);
    FindIsIndex(m, end, 0);
    forall key ensures At(Erase(n), path + [key]) == At(Erase(end), [key]) {
      AtDescends(Erase(n), path, key);
    }
  }

  /** What the caller gets back after `obj[p1]...[pk] = v`: from the getter of the assigned type the value, a
      boolean normalised to 0 or 1, and from the type query the type's number. */
  lemma TypedFieldReadsBack(m: Memory, n: Node, path: seq<nat>, key: nat, v: Value)
    requires n.Obj? && Good(m, n) && GoodSlot(m, n.addr) && Perform(m, n.addr, path, Assign(key, v)).Ok?
    ensures var end := Perform(m, n.addr, path, Assign(key, v)).value;
            && GoodSlot(end.0, n.addr) && Perform(end.0, n.addr, path, Reach) == Ok(end) && SlotOk(end.0, end.1)
            && TypeAnswer(end.0, end.1, key) == (match v
                                                 case Bool(_) => 1
                                                 case Int32(_) => 2
                                                 case Int64(_) => 4
                                                 case Float64(_) => 5
                                                 case Str(_) => 6)
            && match v
               case Bool(flag) => GetBool(end.0, end.1, key) == (if flag == 0 then 0 else 1)
               case Int32(i) => GetInt32(end.0, end.1, key) == i
               case Int64(i) => GetInt64(end.0, end.1, key) == i
               case Float64(bits) => GetFloat64(end.0, end.1, key) == bits
               case Str(bytes) => TextAnswer(end.0, end.1, key) == bytes
  {
    hide At, Edited, Perform, WellFormed, NodeAt, Blocks, Erase, Denotes, Separate, Tidy, Answer, TypeAnswer, TextAnswer, SlotOk;
    var n' := PerformRefines(m, n, path, Assign(key, v));
    var m' := Perform(m, n.addr, path, Assign(key, v)).value.0;
    ErasedIsWellFormed(m, n);
    SetReadsBack(Erase(n), path, key, v);
    assert GoodSlot(m', n.addr) by {
      PathReadsBack(m, n, path, key, v);
    }
    var end := EndOfChain(m', n', path);
    GettersReadTheTree(m', end, key, TypeOf(v));
    TypeReadsTheTree(m', end, key);
  }

  /** Every name on the way of a chain is of the object type afterwards. */
  lemma ReachedIsAnObject(m: Memory, n: Node, path: seq<nat>, key: nat)
    requires n.Obj? && Good(m, n) && GoodSlot(m, n.addr) && Perform(m, n.addr, path + [key], Reach).Ok?
    ensures var m' := Perform(m, n.addr, path + [key], Reach).value.0;
            && GoodSlot(m', n.addr) && Perform(m', n.addr, path, Reach).Ok?
            && var end := Perform(m', n.addr, path, Reach).value;
               end.0 == m' && SlotOk(m', end.1) && TypeAnswer(m', end.1, key) == 8
  {
    hide Edited, Perform, WellFormed, Blocks, Denotes, Separate, Tidy, TypeAnswer, SlotOk;
    var chain := path + [key];
    var n' := PerformRefines(m, n, chain, Reach);
    var m' := Perform(m, n.addr, chain, Reach).value.0;
    ErasedIsWellFormed(m, n);
    ObjectsOnTheWayExist(Erase(n), chain, Reach, |path|);
    ObjectsOnTheWayExist(Erase(n), chain, Reach, |chain|);
    assert chain[..|path|] == path && chain[..|chain|] == chain;
    NodesAreTheTree(m', n', path);
    assert GoodSlot(m', n.addr);
    var end := EndOfChain(m', n', path);
    TypeReadsTheTree(m', end, key);
  }

  /** Any other path reads the same before and after. */
  lemma OtherPathsReadTheSame(m: Memory, n: Node, path: seq<nat>, e: Edit, q: seq<nat>, key: nat, typeId: nat)
    returns (word: int, bytes: seq<nat>)
    requires n.Obj? && Good(m, n) && GoodSlot(m, n.addr) && Perform(m, n.addr, path, e).Ok?
    requires Perform(m, n.addr, q, Reach).Ok?
    requires !Prefix(Target(path, e), q + [key]) && !Prefix(q + [key], Target(path, e))
    ensures var m' := Perform(m, n.addr, path, e).value.0;
            && ReadsAs(m, n.addr, q, key, typeId, word, bytes)
            && GoodSlot(m', n.addr) && ReadsAs(m', n.addr, q, key, typeId, word, bytes)
            && (OnlyReads(m, n.addr, q) ==> OnlyReads(m', n.addr, q))
  {
    var n' := PerformRefines(m, n, path, e);
    var m' := Perform(m, n.addr, path, e).value.0;
    var _ := PerformRefines(m, n, q, Reach);
    var _ := PerformRefines(m', n', q, Reach);
    ErasedIsWellFormed(m, n);
    StillReached(Erase(n), path, e, q, key);
    OtherPathsAreUnchanged(Erase(n), path, e, q + [key]);
    ReadsWriteExactlyWhenMissing(m, n, q);
    ReadsWriteExactlyWhenMissing(m', n', q);
    ReadsFollowTheTree(m, n, q, key, typeId);
    ReadsFollowTheTree(m', n', q, key, typeId);
    word, bytes := NumberIn(At(Erase(n), q + [key]), typeId), CharsIn(At(Erase(n), q + [key]));
  }

  lemma PrefixExtends(p: seq<nat>, q: seq<nat>, k: nat, key: nat)
    requires k <= |q|
    ensures Prefix(p, q[..k]) ==> Prefix(p, q + [key])
  {
    if Prefix(p, q[..k]) {
      assert (q + [key])[..|p|] == q[..|p|] == q[..k][..|p|];
    }
  }

  /** An edit elsewhere neither blocks nor removes the objects along a path. */
  lemma StillAnObject(t: Tree, path: seq<nat>, e: Edit, q: seq<nat>, k: nat, key: nat)
    requires WellFormed(t) && Edited(t, path, e).Ok? && k <= |q|
    requires !Prefix(Target(path, e), q + [key]) && !Prefix(q + [key], Target(path, e))
    ensures At(Edited(t, path, e).value, q[..k]) == At(t, q[..k]) || AnObject(At(Edited(t, path, e).value, q[..k]))
  {
    var goal := Target(path, e);
    PrefixExtends(goal, q, k, key);
    if Prefix(q[..k], goal) {
      assert q[..k] != goal by {
        assert Prefix(goal, goal);
      }
      assert q[..k] == path[..k];
      ObjectsOnTheWayExist(t, path, e, k);
    } else {
      OtherPathsAreUnchanged(t, path, e, q[..k]);
    }
  }

  lemma StillReached(t: Tree, path: seq<nat>, e: Edit, q: seq<nat>, key: nat)
    requires WellFormed(t) && Edited(t, path, e).Ok? && Edited(t, q, Reach).Ok?
    requires !Prefix(Target(path, e), q + [key]) && !Prefix(q + [key], Target(path, e))
    ensures Edited(Edited(t, path, e).value, q, Reach).Ok?
    ensures AnObject(At(t, q)) ==> AnObject(At(Edited(t, path, e).value, q))
  {
    var t' := Edited(t, path, e).value;
    EditKeepsWellFormed(t, path, e);
    AbortsExactlyWhenBlocked(t, q, Reach);
    AbortsExactlyWhenBlocked(t', q, Reach);
    forall k: nat | k <= |q| ensures !NotAnObject(At(t', q[..k])) {
      StillAnObject(t, path, e, q, k, key);
      assert !NotAnObject(At(t, q[..k]));
    }
    StillAnObject(t, path, e, q, |q|, key);
    assert q[..|q|] == q;
  }

  // ---- Whole runs --------------------------------------------------------------------------

  /** The blocks outside an object: superseded buffers, values of removed fields, and those of others. */
  datatype Ledger = Ledger(superseded: set<nat>, detached: set<nat>, elsewhere: set<nat>) {
    function Outside(): set<nat> { superseded + detached + elsewhere }
  }

  /** Every address handed out is in exactly one place. */
  ghost predicate Accounted(m: Memory, n: Node, l: Ledger) {
    && (forall a: nat :: a in Blocks(n) || a in l.Outside() <==> 0 < a < m.next)
    && Blocks(n) !! l.Outside()
    && l.superseded !! l.detached && l.elsewhere !! l.superseded + l.detached
    && (forall a: nat :: a in l.superseded ==> a in m.bufs || a in m.texts)
    && (forall a: nat :: a in l.detached ==> InUse(m, a))
  }

  ghost function Booked(l: Ledger, n: Node, n': Node, cut: set<nat>): Ledger {
    Ledger(l.superseded + (Blocks(n) - Blocks(n') - cut), l.detached + cut, l.elsewhere)
  }

  lemma CallIsAccounted(m: Memory, m': Memory, n: Node, n': Node, cut: set<nat>, l: Ledger)
    requires Good(m, n) && Good(m', n') && Grows(m, m', n, n', cut) && Accounted(m, n, l)
    ensures Accounted(m', n', Booked(l, n, n', cut))
    ensures forall a: nat :: a in l.Outside() ==> AgreeAt(m, m', a)
  {
    NothingGetsLost(m, m', n, n', cut, l);
    OutsideIsKept(m, m', n, n', cut, l);
    hide Grows, Blocks, Denotes, Separate, Tidy, AgreeAt;
  }

  /** What is outside stays outside, and what moves there is in use. */
  lemma OutsideIsKept(m: Memory, m': Memory, n: Node, n': Node, cut: set<nat>, l: Ledger)
    requires Good(m, n) && Good(m', n') && Grows(m, m', n, n', cut) && Accounted(m, n, l)
    ensures var l' := Booked(l, n, n', cut);
            && Blocks(n') !! l'.Outside()
            && l'.superseded !! l'.detached && l'.elsewhere !! l'.superseded + l'.detached
            && (forall a: nat :: a in l'.superseded ==> a in m'.bufs || a in m'.texts)
            && (forall a: nat :: a in l'.detached ==> InUse(m', a))
    ensures forall a: nat :: a in l.Outside() ==> AgreeAt(m, m', a)
  {
    BlocksInUse(m, n);
    hide Blocks, Denotes, Separate;
    forall a: nat | a in Blocks(n') ensures a !in l.Outside() {
      assert Handed(m, m', a) || a in Blocks(n);
    }
  }

  lemma NothingGetsLost(m: Memory, m': Memory, n: Node, n': Node, cut: set<nat>, l: Ledger)
    requires Good(m, n) && Good(m', n') && Grows(m, m', n, n', cut) && Accounted(m, n, l)
    ensures var l' := Booked(l, n, n', cut);
            forall a: nat :: a in Blocks(n') || a in l'.Outside() <==> 0 < a < m'.next
  {
    hide Denotes, Separate, Blocks;
    var l' := Booked(l, n, n', cut);
    forall a: nat ensures a in Blocks(n') || a in l'.Outside() <==> 0 < a < m'.next {
      assert Handed(m, m', a) || !Handed(m, m', a);
    }
  }

  type Call = (seq<nat>, Edit)

  lemma PerformKeepsGoodSlot(m: Memory, slot: nat, path: seq<nat>, e: Edit)
    requires GoodSlot(m, slot) && Perform(m, slot, path, e).Ok?
    ensures GoodSlot(Perform(m, slot, path, e).value.0, slot)
  {
    var n: Node :| n.Obj? && n.addr == slot && Good(m, n);
    var n' := PerformRefines(m, n, path, e);
  }

  ghost function Play(m: Memory, slot: nat, calls: seq<Call>): Outcome<Memory>
    requires GoodSlot(m, slot)
    decreases |calls|
  {
    if calls == [] then Ok(m)
    else
      match Perform(m, slot, calls[0].0, calls[0].1)
      case Aborted => Aborted
      case Ok(end) =>
        PerformKeepsGoodSlot(m, slot, calls[0].0, calls[0].1);
        Play(end.0, slot, calls[1..])
  }

  function EditedAll(t: Tree, calls: seq<Call>): Outcome<Tree>
    decreases |calls|
  {
    if calls == [] then Ok(t)
    else
      match Edited(t, calls[0].0, calls[0].1)
      case Aborted => Aborted
      case Ok(t1) => EditedAll(t1, calls[1..])
  }

  /** Over any run the object at the slot is the edited tree, and no block is lost track of or rewritten
      once let go. */
  lemma {:induction false} RunRefines(m: Memory, n: Node, calls: seq<Call>, l: Ledger) returns (n': Node, l': Ledger)
    requires n.Obj? && Good(m, n) && GoodSlot(m, n.addr) && Accounted(m, n, l)
    ensures match Play(m, n.addr, calls)
            case Aborted => EditedAll(Erase(n), calls).Aborted?
            case Ok(m') =>
              && EditedAll(Erase(n), calls) == Ok(Erase(n'))
              && n'.Obj? && n'.addr == n.addr && Good(m', n') && GoodSlot(m', n.addr)
              && Settled(m, m', n', l, l')
    decreases |calls|
  {
    n', l' := n, l;
    if calls != [] {
      var (path, e) := calls[0];
      if Perform(m, n.addr, path, e).Ok? {
        var m1, n1, l1 := FirstCall(m, n, path, e, l);
        n', l' := RunRefines(m1, n1, calls[1..], l1);
        if Play(m1, n.addr, calls[1..]).Ok? {
          SettledTransitively(m, m1, Play(m1, n.addr, calls[1..]).value, n1, n', l, l1, l');
        }
      } else {
        var _ := PerformRefines(m, n, path, e);
      }
    }
  }

  lemma SettledTransitively(m: Memory, m1: Memory, m2: Memory, n1: Node, n2: Node, l: Ledger, l1: Ledger, l2: Ledger)
    requires Settled(m, m1, n1, l, l1) && Settled(m1, m2, n2, l1, l2)
    ensures Settled(m, m2, n2, l, l2)
  {
  }

  lemma FirstCall(m: Memory, n: Node, path: seq<nat>, e: Edit, l: Ledger) returns (m1: Memory, n1: Node, l1: Ledger)
    requires n.Obj? && Good(m, n) && GoodSlot(m, n.addr) && Accounted(m, n, l) && Perform(m, n.addr, path, e).Ok?
    ensures m1 == Perform(m, n.addr, path, e).value.0
    ensures n1.Obj? && n1.addr == n.addr && Good(m1, n1) && GoodSlot(m1, n.addr)
    ensures Edited(Erase(n), path, e) == Ok(Erase(n1))
    ensures l1 == Booked(l, n, n1, CutAt(n, path, e)) && Settled(m, m1, n1, l, l1)
  {
    n1 := PerformRefines(m, n, path, e);
    m1 := Perform(m, n.addr, path, e).value.0;
    l1 := Booked(l, n, n1, CutAt(n, path, e));
    CallIsAccounted(m, m1, n, n1, CutAt(n, path, e), l);
  }

  ghost predicate Settled(m: Memory, m': Memory, n': Node, l: Ledger, l': Ledger) {
    && m.next <= m'.next && Accounted(m', n', l')
    && l.superseded <= l'.superseded && l.detached <= l'.detached && l.elsewhere == l'.elsewhere
    && forall a: nat :: a in l.Outside() ==> AgreeAt(m, m', a)
  }

  /** The books of a second object after the first one has changed: its own blocks are the same. */
  ghost function Rebooked(n': Node, l': Ledger, other: Node, k: Ledger): Ledger {
    Ledger(k.superseded, k.detached, Blocks(n') + l'.Outside() - Blocks(other) - k.superseded - k.detached)
  }

  /** A second object in the same memory: neither it nor what it left behind is touched. */
  lemma OthersAreUntouched(m: Memory, m': Memory, n': Node, l: Ledger, l': Ledger, other: Node, k: Ledger)
    requires Good(m, other) && Accounted(m, other, k) && Settled(m, m', n', l, l') && Good(m', n')
    requires Blocks(other) + k.superseded + k.detached <= l.elsewhere
    ensures Good(m', other) && Accounted(m', other, Rebooked(n', l', other, k))
    ensures Blocks(n') + l'.superseded + l'.detached <= Rebooked(n', l', other, k).elsewhere
  {
    forall a: nat | a in Blocks(other) + k.superseded + k.detached ensures AgreeAt(m, m', a) {
      assert a in l.Outside();
    }
    DenotesFrame(m, m', other);
    hide Denotes, Separate, Blocks;
  }

  /** A zeroed slot is an empty object, whatever else there is in memory. */
  lemma ZeroedSlotIsAnObject(m: Memory, slot: nat, others: set<nat>) returns (n: Node)
    requires Tidy(m) && slot in m.words && m.words[slot] == NULL
    requires forall a: nat :: a in others <==> 0 < a < m.next && a != slot
    ensures n == Obj(slot, NULL, []) && Good(m, n) && GoodSlot(m, slot) && Accounted(m, n, Ledger({}, {}, others))
  {
    n := Obj(slot, NULL, []);
    assert Good(m, n);
    assert Blocks(n) == {slot};
  }
}
