/**
 What every store of the writer keeps, array clears and in-place overwrites included: where there are
 messages, that only fresh allocations hold garbage, and that counts, pointers and references are sound.
 Nothing here speaks of views.
 */
module MemoryShape {
  import opened ReleaseAcquire

  predicate Allocated(m: Memory, l: Loc) {
    match l
    case Slot => true
    case Count(b) => b < |m.bufs|
    case Cell(b, i) => b < |m.bufs| && i < m.bufs[b].cells
  }

  ghost predicate MemoryOk(m: Memory) {
    && (forall l: Loc :: l in m.log <==> Allocated(m, l))
    && (forall l: Loc :: l in m.log ==> m.log[l] != [] && UpToDate(m, m.writer, l))
    && (forall l: Loc :: l in m.writer ==> l in m.log)
    && (forall l: Loc :: l in m.log && l != Slot ==> m.log[l][0].value == Garbage)
  }

  /** A message is initialised, and a reference leads to a sealed block. */
  ghost predicate ValueOk(m: Memory, l: Loc, k: nat)
    requires k < |Messages(m, l)|
  {
    var value := Messages(m, l)[k].value;
    && (k >= 1 ==> value != Garbage)
    && (l.Cell? && value.Ref? ==> value.buf < |m.bufs| && m.bufs[value.buf].sealed)
  }

  ghost predicate ValuesOk(m: Memory) {
    forall l: Loc, k: nat :: k < |Messages(m, l)| ==> ValueOk(m, l, k)
  }

  ghost predicate CountOk(m: Memory, b: nat, k: nat)
    requires b < |m.bufs| && k < |Messages(m, Count(b))|
  {
    Messages(m, Count(b))[k].value.Num? && Readable(m, CountAt(m, b, k)) <= m.bufs[b].cells
  }

  /** Some slot message refers to the buffer. */
  ghost predicate WasCurrent(m: Memory, b: nat) {
    exists k: nat :: k < |Messages(m, Slot)| && Messages(m, Slot)[k].value == Ref(b)
  }

  ghost predicate BufferOk(m: Memory, b: nat)
    requires b < |m.bufs|
  {
    var counts := Messages(m, Count(b));
    && (m.bufs[b].sealed ==> !m.bufs[b].published && Complete(m, b))
    && (!m.bufs[b].published ==> |counts| <= 2)
    && (m.bufs[b].published ==> |counts| >= 2 && Written(m, b, Readable(m, CountNow(m, b))) && WasCurrent(m, b))
    && (forall k: nat :: 1 <= k < |counts| ==> CountOk(m, b, k))
  }

  ghost predicate PointerOk(m: Memory, k: nat)
    requires k < |Messages(m, Slot)|
  {
    var value := Messages(m, Slot)[k].value;
    value == Num(0) || (value.Ref? && value.buf < |m.bufs| && m.bufs[value.buf].published)
  }

  /** The view has seen only messages there are. */
  ghost predicate Bounded(m: Memory, v: View) {
    forall l: Loc :: l in v ==> l in m.log && v[l] < |m.log[l]|
  }

  ghost predicate Shape(m: Memory) {
    && MemoryOk(m) && ValuesOk(m)
    && (forall b: nat :: b < |m.bufs| ==> BufferOk(m, b))
    && (forall k: nat :: k < |Messages(m, Slot)| ==> PointerOk(m, k))
  }

  // ---- What an action does -----------------------------------------------------------------

  lemma ReadableMonotone(m: Memory, n: nat, k: nat)
    requires n <= k
    ensures Readable(m, n) <= Readable(m, k)
  {
    assert k * m.rowCells == n * m.rowCells + (k - n) * m.rowCells;
  }

  /** The location an action stores to, and what it stores there. */
  function StoredTo(m: Memory, a: Action): Loc {
    match a
    case Alloc(_) => Slot
    case SetCount(b, _) => Count(b)
    case Write(b, i, _) => Cell(b, i)
    case Publish(_) => Slot
    case PublishNull => Slot
    case Commit(_) => Count(if Latest(m, Slot).Ref? then Latest(m, Slot).buf else 0)
    case Clear => Count(if Latest(m, Slot).Ref? then Latest(m, Slot).buf else 0)
    case Overwrite(b, i, _) => Cell(b, i)
  }

  function Stored(a: Action): Value {
    match a
    case Alloc(_) => Garbage
    case SetCount(_, n) => Num(n)
    case Write(_, _, v) => v
    case Publish(b) => Ref(b)
    case PublishNull => Num(0)
    case Commit(n) => Num(n)
    case Clear => Num(0)
    case Overwrite(_, _, n) => Num(n)
  }

  lemma StoresAreLegal(m: Memory, a: Action)
    requires MemoryOk(m) && Allowed(m, a) && !a.Alloc?
    ensures StoredTo(m, a) in m.log && Allocated(m, StoredTo(m, a))
  {
    assert Allocated(m, StoredTo(m, a));
  }

  lemma StoreEffect(m: Memory, a: Action)
    requires Allowed(m, a) && !a.Alloc? && StoredTo(m, a) in m.log
    ensures var m', l := Act(m, a), StoredTo(m, a);
            && m'.log.Keys == m.log.Keys
            && |m'.log[l]| == |m.log[l]| + 1 && m.log[l] == m'.log[l][..|m.log[l]|]
            && (forall k: Loc :: k in m.log && k != l ==> m'.log[k] == m.log[k])
            && m'.writer == m.writer[l := |m.log[l]|]
            && m'.rowCells == m.rowCells && m'.extraCells == m.extraCells && |m'.bufs| == |m.bufs|
    ensures var m' := Act(m, a); forall b: nat :: b < |m.bufs| ==>
            && m'.bufs[b].cells == m.bufs[b].cells
            && m'.bufs[b].published == (m.bufs[b].published || a == Publish(b))
            && m'.bufs[b].sealed == (m.bufs[b].sealed || (a.Write? && a.value == Ref(b)))
  {
  }

  lemma StoreLatest(m: Memory, a: Action)
    requires Allowed(m, a) && !a.Alloc? && StoredTo(m, a) in m.log
    ensures var m', l := Act(m, a), StoredTo(m, a);
            l in m'.log && |m'.log[l]| == |m.log[l]| + 1 && m'.log[l][|m.log[l]|].value == Stored(a)
    ensures Latest(Act(m, a), StoredTo(m, a)) == Stored(a)
    ensures forall l: Loc :: l != StoredTo(m, a) ==>
      Messages(Act(m, a), l) == Messages(m, l) && Latest(Act(m, a), l) == Latest(m, l)
  {
  }

  lemma AllocEffect(m: Memory, cells: nat, l: Loc)
    requires MemoryOk(m)
    ensures var m' := Act(m, Alloc(cells));
            && (l in m'.log <==> Allocated(m', l))
            && (l in m.log ==> l in m'.log && m'.log[l] == m.log[l])
            && (l in m'.log && l !in m.log ==> m'.log[l] == [Message(Garbage, map[])])
  {
    assert l in m.log <==> Allocated(m, l);
    assert l in m.log ==> l !in Fresh(|m.bufs|, cells);
  }

  /** Memory only ever gets more messages and more buffers. */
  ghost predicate Extends(m: Memory, m': Memory) {
    && m'.rowCells == m.rowCells && m'.extraCells == m.extraCells
    && |m.bufs| <= |m'.bufs| && m.rewritten <= m'.rewritten
    && (forall b: nat :: b < |m.bufs| ==>
          && m'.bufs[b].cells == m.bufs[b].cells
          && (m.bufs[b].published ==> m'.bufs[b].published)
          && (m.bufs[b].sealed ==> m'.bufs[b].sealed))
    && (forall l: Loc :: l in m.log ==> l in m'.log && m.log[l] <= m'.log[l])
    && (forall l: Loc :: l in m'.log && l !in m.log ==> m'.log[l] == [Message(Garbage, map[])])
  }

  lemma ActExtends(m: Memory, a: Action)
    requires MemoryOk(m) && Allowed(m, a)
    ensures Extends(m, Act(m, a))
  {
    if a.Alloc? {
      forall l: Loc {
        AllocEffect(m, a.cells, l);
      }
    } else {
      StoresAreLegal(m, a);
      StoreEffect(m, a);
    }
  }

  /** What an action adds to the record of rewritten cells. */
  lemma RewritesOnlyItsTarget(m: Memory, a: Action)
    ensures Act(m, a).rewritten
            == if (a.Write? || a.Overwrite?) && Reachable(m, StoredTo(m, a)) then m.rewritten + {StoredTo(m, a)} else m.rewritten
  {
  }

  /** What was covered or counted stays so. */
  lemma CoveredStays(m: Memory, m': Memory, b: nat, i: nat)
    requires Extends(m, m') && Covered(m, b, i)
    ensures Covered(m', b, i)
  {
    var j: nat :| 1 <= j < |Messages(m, Count(b))| && i < Readable(m, CountAt(m, b, j));
    assert m.log[Count(b)] <= m'.log[Count(b)];
    assert CountAt(m', b, j) == CountAt(m, b, j);
  }

  // ---- Every action keeps the shape --------------------------------------------------------

  lemma AllocKeepsMemoryOk(m: Memory, cells: nat)
    requires MemoryOk(m)
    ensures MemoryOk(Act(m, Alloc(cells)))
  {
    forall l: Loc {
      AllocEffect(m, cells, l);
    }
  }

  lemma StoreKeepsMemoryOk(m: Memory, a: Action)
    requires MemoryOk(m) && Allowed(m, a) && !a.Alloc?
    ensures MemoryOk(Act(m, a))
  {
    StoresAreLegal(m, a);
    StoreEffect(m, a);
    forall l: Loc ensures Allocated(Act(m, a), l) <==> Allocated(m, l) {
    }
  }

  lemma ActKeepsMemoryOk(m: Memory, a: Action)
    requires MemoryOk(m) && Allowed(m, a)
    ensures MemoryOk(Act(m, a))
  {
    if a.Alloc? {
      AllocKeepsMemoryOk(m, a.cells);
    } else {
      StoreKeepsMemoryOk(m, a);
    }
  }

  /** The one new message, if any. */
  lemma NewMessage(m: Memory, a: Action, l: Loc, k: nat)
    requires MemoryOk(m) && Allowed(m, a) && k < |Messages(Act(m, a), l)|
    ensures k < |Messages(m, l)| ==> Messages(Act(m, a), l)[k] == Messages(m, l)[k]
    ensures k >= |Messages(m, l)| && k >= 1 ==> !a.Alloc? && l == StoredTo(m, a) && Messages(Act(m, a), l)[k].value == Stored(a)
    ensures k >= |Messages(m, l)| && k == 0 ==> a.Alloc? && l != Slot && Messages(Act(m, a), l)[k].value == Garbage
  {
    if a.Alloc? {
      AllocEffect(m, a.cells, l);
      assert Allocated(m, Slot);
    } else {
      StoresAreLegal(m, a);
      StoreEffect(m, a);
      StoreLatest(m, a);
    }
  }

  lemma ActKeepsValuesOk(m: Memory, a: Action)
    requires MemoryOk(m) && ValuesOk(m) && Allowed(m, a)
    ensures ValuesOk(Act(m, a))
  {
    ActExtends(m, a);
    forall l: Loc, k: nat | k < |Messages(Act(m, a), l)| ensures ValueOk(Act(m, a), l, k) {
      NewMessage(m, a, l, k);
      if k < |Messages(m, l)| {
        assert ValueOk(m, l, k);
      } else if k >= 1 && !a.Alloc? {
        StoresAreLegal(m, a);
        StoreEffect(m, a);
      }
    }
  }

  lemma ActKeepsPointerOk(m: Memory, a: Action, k: nat)
    requires Shape(m) && Allowed(m, a) && k < |Messages(Act(m, a), Slot)|
    ensures PointerOk(Act(m, a), k)
  {
    ActExtends(m, a);
    NewMessage(m, a, Slot, k);
    if k < |Messages(m, Slot)| {
      assert PointerOk(m, k);
    }
  }

  lemma ActKeepsCountOk(m: Memory, a: Action, b: nat, k: nat)
    requires Shape(m) && Allowed(m, a) && b < |Act(m, a).bufs| && 1 <= k < |Messages(Act(m, a), Count(b))|
    ensures CountOk(Act(m, a), b, k)
  {
    ActExtends(m, a);
    NewMessage(m, a, Count(b), k);
    assert Allocated(m, Count(b)) <==> b < |m.bufs|;
    if k < |Messages(m, Count(b))| {
      assert BufferOk(m, b) && CountOk(m, b, k);
    } else if a.Clear? {
      CurrentIsPublished(m);
      ReadableMonotone(m, 0, CountNow(m, b));
      assert CountOk(m, b, |Messages(m, Count(b))| - 1);
    }
  }

  lemma CurrentIsPublished(m: Memory)
    requires Shape(m) && Latest(m, Slot).Ref?
    ensures var b := Latest(m, Slot).buf; b < |m.bufs| && m.bufs[b].published && Count(b) in m.log && BufferOk(m, b)
  {
    assert PointerOk(m, |Messages(m, Slot)| - 1);
    assert Allocated(m, Count(Latest(m, Slot).buf));
  }

  lemma LatestStays(m: Memory, a: Action, l: Loc)
    requires MemoryOk(m) && ValuesOk(m) && Allowed(m, a)
    ensures Latest(m, l) != Garbage ==> Latest(Act(m, a), l) != Garbage
    ensures (a.Alloc? ==> l in m.log) && (!a.Alloc? ==> l != StoredTo(m, a)) ==> Latest(Act(m, a), l) == Latest(m, l)
  {
    if a.Alloc? {
      AllocEffect(m, a.cells, l);
    } else {
      StoresAreLegal(m, a);
      StoreLatest(m, a);
    }
  }

  lemma WrittenStays(m: Memory, a: Action, b: nat, n: nat)
    requires MemoryOk(m) && ValuesOk(m) && Allowed(m, a) && Written(m, b, n)
    ensures Written(Act(m, a), b, n)
  {
    forall i: nat | i < n ensures Latest(Act(m, a), Cell(b, i)) != Garbage {
      LatestStays(m, a, Cell(b, i));
    }
  }

  lemma ActKeepsCompleteness(m: Memory, a: Action, b: nat)
    requires Shape(m) && Allowed(m, a) && b < |Act(m, a).bufs|
    ensures Act(m, a).bufs[b].sealed ==> !Act(m, a).bufs[b].published && Complete(Act(m, a), b)
  {
    if b < |m.bufs| {
      assert BufferOk(m, b);
      ActExtends(m, a);
      if Complete(m, b) {
        WrittenStays(m, a, b, m.bufs[b].cells);
      }
      if !a.Alloc? {
        StoresAreLegal(m, a);
        StoreEffect(m, a);
      }
    }
  }

  lemma CountAfter(m: Memory, a: Action, b: nat)
    requires MemoryOk(m) && Allowed(m, a) && b < |m.bufs|
    ensures CountNow(Act(m, a), b) == if a.Alloc? || StoredTo(m, a) != Count(b) then CountNow(m, b) else Stored(a).n
    ensures Act(m, a).bufs[b].published == (m.bufs[b].published || a == Publish(b))
  {
    assert Allocated(m, Count(b));
    if a.Alloc? {
      AllocEffect(m, a.cells, Count(b));
    } else {
      StoresAreLegal(m, a);
      StoreEffect(m, a);
      StoreLatest(m, a);
    }
  }

  /** Whatever happens to a published buffer's count, the rows it makes readable have been written. */
  lemma RowsWrittenBefore(m: Memory, a: Action, b: nat)
    requires Shape(m) && Allowed(m, a) && b < |m.bufs| && Act(m, a).bufs[b].published
    ensures Written(m, b, Readable(m, CountNow(Act(m, a), b)))
  {
    assert BufferOk(m, b);
    CountAfter(m, a, b);
    hide Act, Shape, CountNow, Latest;
    if a.Clear? {
      ReadableMonotone(m, 0, CountNow(m, b));
    }
  }

  lemma ActKeepsRowsWritten(m: Memory, a: Action, b: nat)
    requires Shape(m) && Allowed(m, a) && b < |Act(m, a).bufs| && Act(m, a).bufs[b].published
    ensures Written(Act(m, a), b, Readable(Act(m, a), CountNow(Act(m, a), b)))
  {
    assert b < |m.bufs|;
    RowsWrittenBefore(m, a, b);
    ActExtends(m, a);
    WrittenStays(m, a, b, Readable(m, CountNow(Act(m, a), b)));
    hide Shape, Allowed, Act, Written;
  }

  lemma ActKeepsCountNumbers(m: Memory, a: Action, b: nat)
    requires Shape(m) && Allowed(m, a) && b < |Act(m, a).bufs|
    ensures var m' := Act(m, a);
            if m'.bufs[b].published then |Messages(m', Count(b))| >= 2 else |Messages(m', Count(b))| <= 2
  {
    assert Allocated(m, Count(b)) <==> b < |m.bufs|;
    assert b < |m.bufs| ==> BufferOk(m, b);
    if a.Alloc? {
      AllocEffect(m, a.cells, Count(b));
    } else {
      StoresAreLegal(m, a);
      StoreEffect(m, a);
      if Latest(m, Slot).Ref? {
        CurrentIsPublished(m);
      }
    }
  }

  lemma ActKeepsWasCurrent(m: Memory, a: Action, b: nat)
    requires Shape(m) && Allowed(m, a) && b < |Act(m, a).bufs| && Act(m, a).bufs[b].published
    ensures WasCurrent(Act(m, a), b)
  {
    var m' := Act(m, a);
    assert b < |m.bufs| && BufferOk(m, b) && Allocated(m, Slot);
    ActExtends(m, a);
    if m.bufs[b].published {
      var k: nat :| k < |Messages(m, Slot)| && Messages(m, Slot)[k].value == Ref(b);
      assert m.log[Slot] <= m'.log[Slot] && Messages(m', Slot)[k].value == Ref(b);
    } else {
      StoresAreLegal(m, a);
      StoreEffect(m, a);
      StoreLatest(m, a);
      assert Messages(m', Slot)[|m.log[Slot]|].value == Ref(b);
    }
  }

  lemma ActKeepsShape(m: Memory, a: Action)
    requires Shape(m) && Allowed(m, a)
    ensures Shape(Act(m, a))
  {
    ActKeepsMemoryOk(m, a);
    ActKeepsValuesOk(m, a);
    forall b: nat | b < |Act(m, a).bufs| ensures BufferOk(Act(m, a), b) {
      ActKeepsCompleteness(m, a, b);
      if Act(m, a).bufs[b].published {
        ActKeepsRowsWritten(m, a, b);
        ActKeepsWasCurrent(m, a, b);
      }
      ActKeepsCountNumbers(m, a, b);
      forall k: nat | 1 <= k < |Messages(Act(m, a), Count(b))| ensures CountOk(Act(m, a), b, k) {
        ActKeepsCountOk(m, a, b, k);
      }
    }
    forall k: nat | k < |Messages(Act(m, a), Slot)| ensures PointerOk(Act(m, a), k) {
      ActKeepsPointerOk(m, a, k);
    }
  }
}
