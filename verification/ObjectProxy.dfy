/**
 The bracket operators: a proxy is a slot and a name not yet looked up. Indexing a proxy ensures the
 nested object it names; assigning to it, removing or reading ends the chain.
 */
module ObjectProxy {
  import opened ObjectHeap
  import opened ObjectMemory
  import opened ObjectPaths
  import opened Trees

  datatype Proxy = Proxy(slot: nat, name: nat)

  /** `proxy[nested]` */
  method Index(h: Heap, p: Proxy, nested: nat) returns (aborted: bool, q: Proxy)
    requires h.Valid() && GoodSlot(h.memory, p.slot)
    modifies h.Repr
    ensures aborted <==> Resolve(old(h.memory), p.slot, [p.name]).Aborted?
    ensures !aborted ==> h.Valid() && fresh(h.Repr - old(h.Repr)) && q.name == nested
                         && Resolve(old(h.memory), p.slot, [p.name]) == Ok((h.memory, q.slot))
  {
    GoodSlotIsOk(h.memory, p.slot);
    assert [p.name][1..] == [];
    var inner;
    aborted, inner := h.Ensure(p.slot, p.name);
    q := Proxy(inner, nested);
  }

  /** `object[name][more[0]]...[more[|more| - 1]]` */
  method Chain(h: Heap, slot: nat, name: nat, more: seq<nat>) returns (aborted: bool, p: Proxy)
    requires h.Valid() && GoodSlot(h.memory, slot)
    modifies h.Repr
    ensures var path := ([name] + more)[..|more|];
            && (aborted <==> Resolve(old(h.memory), slot, path).Aborted?)
            && (!aborted ==> h.Valid() && fresh(h.Repr - old(h.Repr))
                             && Resolve(old(h.memory), slot, path) == Ok((h.memory, p.slot))
                             && p.name == ([name] + more)[|more|])
  {
    var names := [name] + more;
    ghost var path := names[..|more|];
    p := Proxy(slot, name);
    var i := 0;
    while i < |more|
      invariant i <= |more| && h.Valid() && fresh(h.Repr - old(h.Repr)) && GoodSlot(h.memory, p.slot)
      invariant p.name == names[i]
      invariant Resolve(old(h.memory), slot, path) == Resolve(h.memory, p.slot, path[i..])
    {
      NextName(names, i);
      ResolveInSteps(h.memory, p.slot, [names[i]], path[i + 1..]);
      aborted, p := Index(h, p, more[i]);
      if aborted {
        return;
      }
      i := i + 1;
    }
    assert path[i..] == [];
    aborted := false;
  }

  lemma NextName(names: seq<nat>, i: nat)
    requires i + 1 < |names|
    ensures var path := names[..|names| - 1]; path[i..] == [names[i]] + path[i + 1..]
  {
  }

  lemma {:induction false} ResolveInSteps(m: Memory, slot: nat, p: seq<nat>, q: seq<nat>)
    requires GoodSlot(m, slot)
    ensures Resolve(m, slot, p + q) == match Resolve(m, slot, p)
                                       case Aborted => Aborted
                                       case Ok(end) => Resolve(end.0, end.1, q)
    decreases |p|
  {
    if p == [] {
      assert p + q == q;
    } else {
      GoodSlotIsOk(m, slot);
      assert (p + q)[1..] == p[1..] + q;
      if EnsureObject(m, slot, p[0]).Ok? {
        EnsureKeepsGood(m, slot, p[0]);
        ResolveInSteps(EnsureObject(m, slot, p[0]).value.0, EnsureObject(m, slot, p[0]).value.1, p[1..], q);
      }
    }
  }

  /** `chain = value` */
  method AssignTo(h: Heap, p: Proxy, v: Value) returns (aborted: bool)
    requires h.Valid() && GoodSlot(h.memory, p.slot)
    modifies h.Repr
    ensures aborted <==> Perform(old(h.memory), p.slot, [], Assign(p.name, v)).Aborted?
    ensures !aborted ==> h.Valid() && fresh(h.Repr - old(h.Repr))
                         && Perform(old(h.memory), p.slot, [], Assign(p.name, v)) == Ok((h.memory, p.slot))
  {
    GoodSlotIsOk(h.memory, p.slot);
    aborted := h.SetField(p.slot, p.name, v);
  }

  /** `object[name][...] = value`: the whole statement is one Perform. */
  method SetPath(h: Heap, slot: nat, name: nat, more: seq<nat>, v: Value) returns (aborted: bool)
    requires h.Valid() && GoodSlot(h.memory, slot)
    modifies h.Repr
    ensures var path, key := ([name] + more)[..|more|], ([name] + more)[|more|];
            var r := Perform(old(h.memory), slot, path, Assign(key, v));
            && (aborted <==> r.Aborted?)
            && (!aborted ==> h.Valid() && fresh(h.Repr - old(h.Repr)) && h.memory == r.value.0)
  {
    var p;
    aborted, p := Chain(h, slot, name, more);
    if !aborted {
      aborted := AssignTo(h, p, v);
    }
  }
}
