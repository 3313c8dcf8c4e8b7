/**
 Several objects in one memory. Calls on them may come in any order: each object is what its own calls
 make of it, aborts are its own, and no block is shared, lost or rewritten behind another object's back.
 */
module ManyObjects {
  import opened ObjectMemory
  import opened ObjectPaths
  import opened ObjectTree
  import opened Trees

  /** An object with its books. */
  datatype Holding = Holding(node: Node, ledger: Ledger) {
    function Mine(): set<nat> { Blocks(node) + ledger.superseded + ledger.detached }
  }

  /** Every object is well-formed, its books balance, and no two have an address in common. */
  ghost predicate Apart(m: Memory, hs: seq<Holding>) {
    && (forall i :: 0 <= i < |hs| ==> hs[i].node.Obj? && Good(m, hs[i].node) && Accounted(m, hs[i].node, hs[i].ledger))
    && (forall i, j :: 0 <= i < |hs| && 0 <= j < |hs| && i != j ==> hs[i].Mine() !! hs[j].Mine())
  }

  ghost predicate StandAt(hs: seq<Holding>, slots: seq<nat>) {
    |hs| == |slots| && forall i :: 0 <= i < |hs| ==> hs[i].node.addr == slots[i]
  }

  ghost predicate GoodSlots(m: Memory, slots: seq<nat>) {
    exists hs: seq<Holding> :: StandAt(hs, slots) && Apart(m, hs)
  }

  /** A call, and which object it is made on. */
  type Made = (nat, Call)

  lemma EachSlotIsGood(m: Memory, hs: seq<Holding>, i: nat)
    requires Apart(m, hs) && i < |hs|
    ensures GoodSlot(m, hs[i].node.addr)
  {
  }

  /** The holdings after a call on object i. */
  ghost function After(hs: seq<Holding>, i: nat, n': Node, l': Ledger): (r: seq<Holding>)
    requires i < |hs|
    ensures |r| == |hs| && r[i] == Holding(n', l')
    ensures forall j :: 0 <= j < |hs| && j != i ==>
      r[j] == Holding(hs[j].node, Rebooked(n', l', hs[j].node, hs[j].ledger)) && r[j].Mine() == hs[j].Mine()
  {
    seq(|hs|, j requires 0 <= j < |hs| =>
      if j == i then Holding(n', l') else Holding(hs[j].node, Rebooked(n', l', hs[j].node, hs[j].ledger)))
  }

  lemma OthersAreElsewhere(m: Memory, hs: seq<Holding>, i: nat, j: nat)
    requires Apart(m, hs) && i < |hs| && j < |hs| && i != j
    ensures hs[j].Mine() <= hs[i].ledger.elsewhere
  {
    var one, two := hs[i], hs[j];
    forall a | a in two.Mine() ensures a in one.ledger.elsewhere {
      assert a in Blocks(two.node) || a in two.ledger.Outside();
      assert a !in one.Mine();
      assert a in Blocks(one.node) || a in one.ledger.Outside();
    }
  }

  lemma CallKeepsApart(m: Memory, hs: seq<Holding>, i: nat, m': Memory, n': Node, l': Ledger)
    requires Apart(m, hs) && i < |hs|
    requires n'.Obj? && Good(m', n') && Settled(m, m', n', hs[i].ledger, l')
    ensures Apart(m', After(hs, i, n', l'))
  {
    var hs' := After(hs, i, n', l');
    forall j | 0 <= j < |hs| && j != i
      ensures hs'[j].node.Obj? && Good(m', hs'[j].node) && Accounted(m', hs'[j].node, hs'[j].ledger)
      ensures hs'[j].Mine() !! hs'[i].Mine()
    {
      OthersAreElsewhere(m, hs, i, j);
      hide Good, Blocks, Accounted;
      OthersAreUntouched(m, m', n', hs[i].ledger, l', hs[j].node, hs[j].ledger);
      NewIsNotOthers(m', n', l', hs'[j].Mine());
    }
    hide Good, Blocks, Accounted, Settled;
  }

  lemma NewIsNotOthers(m: Memory, n: Node, l: Ledger, others: set<nat>)
    requires Accounted(m, n, l) && others <= l.elsewhere
    ensures others !! Holding(n, l).Mine()
  {
  }

  lemma FirstOfMany(m: Memory, hs: seq<Holding>, made: Made) returns (m1: Memory, hs1: seq<Holding>)
    requires Apart(m, hs) && made.0 < |hs| && GoodSlot(m, hs[made.0].node.addr)
    requires Perform(m, hs[made.0].node.addr, made.1.0, made.1.1).Ok?
    ensures m1 == Perform(m, hs[made.0].node.addr, made.1.0, made.1.1).value.0
    ensures Apart(m1, hs1) && |hs1| == |hs| && forall j :: 0 <= j < |hs| ==> hs1[j].node.addr == hs[j].node.addr
    ensures forall j :: 0 <= j < |hs| && j != made.0 ==> hs1[j].node == hs[j].node
    ensures Edited(Erase(hs[made.0].node), made.1.0, made.1.1) == Ok(Erase(hs1[made.0].node))
  {
    var h := hs[made.0];
    var n1, l1;
    m1, n1, l1 := FirstCall(m, h.node, made.1.0, made.1.1, h.ledger);
    CallKeepsApart(m, hs, made.0, m1, n1, l1);
    hs1 := After(hs, made.0, n1, l1);
  }

  lemma PerformKeepsGoodSlots(m: Memory, slots: seq<nat>, made: Made)
    requires GoodSlots(m, slots) && made.0 < |slots|
    ensures GoodSlot(m, slots[made.0])
    ensures Perform(m, slots[made.0], made.1.0, made.1.1).Ok? ==>
              GoodSlots(Perform(m, slots[made.0], made.1.0, made.1.1).value.0, slots)
  {
    var hs: seq<Holding> :| StandAt(hs, slots) && Apart(m, hs);
    EachSlotIsGood(m, hs, made.0);
    if Perform(m, slots[made.0], made.1.0, made.1.1).Ok? {
      var m1, hs1 := FirstOfMany(m, hs, made);
      assert StandAt(hs1, slots);
    }
  }

  ghost predicate InRange(slots: seq<nat>, calls: seq<Made>) {
    forall k :: 0 <= k < |calls| ==> calls[k].0 < |slots|
  }

  /** The calls in the order given, whichever objects they are made on. */
  ghost function PlayAmong(m: Memory, slots: seq<nat>, calls: seq<Made>): Outcome<Memory>
    requires GoodSlots(m, slots) && InRange(slots, calls)
    decreases |calls|
  {
    if calls == [] then Ok(m)
    else
      PerformKeepsGoodSlots(m, slots, calls[0]);
      match Perform(m, slots[calls[0].0], calls[0].1.0, calls[0].1.1)
      case Aborted => Aborted
      case Ok(end) => PlayAmong(end.0, slots, calls[1..])
  }

  /** The calls made on one of the objects. */
  function CallsOn(calls: seq<Made>, i: nat): seq<Call>
    decreases |calls|
  {
    if calls == [] then []
    else (if calls[0].0 == i then [calls[0].1] else []) + CallsOn(calls[1..], i)
  }

  /** What object i was and is, by its own calls alone. */
  ghost predicate Edits(hs: seq<Holding>, hs': seq<Holding>, calls: seq<Made>, i: nat)
    requires i < |hs| && i < |hs'|
  {
    hs'[i].node.addr == hs[i].node.addr
    && EditedAll(Erase(hs[i].node), CallsOn(calls, i)) == Ok(Erase(hs'[i].node))
  }

  lemma HeadCall(hs: seq<Holding>, hs1: seq<Holding>, calls: seq<Made>, i: nat)
    requires calls != [] && calls[0].0 < |hs| == |hs1| && i < |hs|
    requires forall j :: 0 <= j < |hs| && j != calls[0].0 ==> hs1[j].node == hs[j].node
    requires Edited(Erase(hs[calls[0].0].node), calls[0].1.0, calls[0].1.1) == Ok(Erase(hs1[calls[0].0].node))
    ensures EditedAll(Erase(hs[i].node), CallsOn(calls, i)) == EditedAll(Erase(hs1[i].node), CallsOn(calls[1..], i))
  {
    var rest := CallsOn(calls[1..], i);
    if i == calls[0].0 {
      assert CallsOn(calls, i)[0] == calls[0].1 && CallsOn(calls, i)[1..] == rest;
    } else {
      assert CallsOn(calls, i) == rest;
    }
  }

  lemma HeadAborts(m: Memory, hs: seq<Holding>, calls: seq<Made>)
    requires Apart(m, hs) && calls != [] && calls[0].0 < |hs| && GoodSlot(m, hs[calls[0].0].node.addr)
    requires Perform(m, hs[calls[0].0].node.addr, calls[0].1.0, calls[0].1.1).Aborted?
    ensures EditedAll(Erase(hs[calls[0].0].node), CallsOn(calls, calls[0].0)).Aborted?
  {
    hide Edited, Erase;
    var _ := PerformRefines(m, hs[calls[0].0].node, calls[0].1.0, calls[0].1.1);
    assert CallsOn(calls, calls[0].0)[0] == calls[0].1;
  }

  /**
   However the calls are interleaved, each object is edited by its own calls and no others, all keep their
   slots and their books, and the run aborts exactly when some object's own calls do.
   */
  lemma {:induction false} InterleavedRunRefines(m: Memory, slots: seq<nat>, hs: seq<Holding>, calls: seq<Made>)
    returns (hs': seq<Holding>)
    requires StandAt(hs, slots) && Apart(m, hs) && GoodSlots(m, slots) && InRange(slots, calls)
    ensures match PlayAmong(m, slots, calls)
            case Aborted => exists i :: 0 <= i < |hs| && EditedAll(Erase(hs[i].node), CallsOn(calls, i)).Aborted?
            case Ok(m') => StandAt(hs', slots) && Apart(m', hs') && forall i :: 0 <= i < |hs| ==> Edits(hs, hs', calls, i)
    decreases |calls|
  {
    hide Apart, EditedAll, Edited, Erase, Perform, CallsOn, GoodSlots, GoodSlot;
    hs' := hs;
    if calls == [] {
      NothingMade(hs, calls);
    } else {
      var i, call := calls[0].0, calls[0].1;
      PerformKeepsGoodSlots(m, slots, calls[0]);
      if Perform(m, slots[i], call.0, call.1).Ok? {
        var m1, hs1 := FirstOfMany(m, hs, calls[0]);
        hs' := InterleavedRunRefines(m1, slots, hs1, calls[1..]);
        forall j | 0 <= j < |hs|
          ensures EditedAll(Erase(hs[j].node), CallsOn(calls, j)) == EditedAll(Erase(hs1[j].node), CallsOn(calls[1..], j))
        {
          HeadCall(hs, hs1, calls, j);
        }
        if PlayAmong(m1, slots, calls[1..]).Ok? {
          forall j | 0 <= j < |hs| ensures Edits(hs, hs', calls, j) {
            assert Edits(hs1, hs', calls[1..], j);
          }
        }
      } else {
        HeadAborts(m, hs, calls);
      }
    }
  }

  lemma NothingMade(hs: seq<Holding>, calls: seq<Made>)
    requires calls == []
    ensures forall i :: 0 <= i < |hs| ==> Edits(hs, hs, calls, i)
  {
  }
}
