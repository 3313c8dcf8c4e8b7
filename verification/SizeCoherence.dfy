/**
 Sizes under release/acquire. As long as the writer only grows (no clear, no removal), the sizes one
 reader sees never decrease, although the slot and the counts of different buffers are different
 locations and a load may return any message the reader's view does not rule out.
 */
module SizeCoherence {
  import opened ReleaseAcquire
  import opened MemoryShape
  import opened Initialisation
  import opened WriterPrograms

  predicate RefersTo(m: Memory, i: nat, b: nat) {
    i < |Messages(m, Slot)| && Messages(m, Slot)[i].value == Ref(b)
  }

  /** Grows and appends only: a published buffer counts at least what its predecessor counts. */
  predicate Growing(m: Memory, a: Action) {
    && !a.PublishNull? && !a.Clear?
    && (a.Publish? && Latest(m, Slot).Ref? ==> CountNow(m, Latest(m, Slot).buf) <= CountNow(m, a.buf))
  }

  /** Counts rise within a buffer and from one published buffer to the next; null comes first if at all. */
  ghost predicate CountsRise(m: Memory, b: nat) {
    forall j: nat, k: nat :: 1 <= j <= k < |Messages(m, Count(b))| ==> CountAt(m, b, j) <= CountAt(m, b, k)
  }

  ghost predicate SlotRises(m: Memory, i: nat, k: nat)
    requires i < k < |Messages(m, Slot)|
  {
    var one, two := Messages(m, Slot)[i].value, Messages(m, Slot)[k].value;
    one.Ref? ==> two.Ref? && one.buf != two.buf && CountNow(m, one.buf) <= CountAt(m, two.buf, 1)
  }

  ghost predicate Ordered(m: Memory) {
    && (forall b: nat :: CountsRise(m, b))
    && (forall i: nat, k: nat :: i < k < |Messages(m, Slot)| ==> SlotRises(m, i, k))
  }

  lemma SlotRefFacts(m: Memory, i: nat, b: nat)
    requires MemoryInv(m) && RefersTo(m, i, b)
    ensures b < |m.bufs| && m.bufs[b].published && Count(b) in m.log && |m.log[Count(b)]| >= 2
    ensures CountAt(m, b, |m.log[Count(b)]| - 1) == CountNow(m, b)
  {
    assert PointerOk(m, i);
    assert Allocated(m, Count(b)) && BufferOk(m, b);
    assert CountOk(m, b, |m.log[Count(b)]| - 1);
  }

  // ---- The writer keeps the order ----------------------------------------------------------

  lemma CountsAgree(m: Memory, m': Memory, b: nat, j: nat)
    requires Messages(m', Count(b)) == Messages(m, Count(b))
    ensures CountAt(m', b, j) == CountAt(m, b, j) && CountNow(m', b) == CountNow(m, b)
  {
  }

  lemma RiseStays(m: Memory, m': Memory, b: nat)
    requires Messages(m', Count(b)) == Messages(m, Count(b)) && CountsRise(m, b)
    ensures CountsRise(m', b)
  {
    forall j: nat, k: nat | 1 <= j <= k < |Messages(m', Count(b))| ensures CountAt(m', b, j) <= CountAt(m', b, k) {
      CountsAgree(m, m', b, j);
      CountsAgree(m, m', b, k);
    }
  }

  lemma SlotRisesStays(m: Memory, m': Memory, i: nat, k: nat)
    requires i < k < |Messages(m, Slot)| && SlotRises(m, i, k)
    requires k < |Messages(m', Slot)| && Messages(m', Slot)[i] == Messages(m, Slot)[i] && Messages(m', Slot)[k] == Messages(m, Slot)[k]
    requires var one, two := Messages(m, Slot)[i].value, Messages(m, Slot)[k].value;
      one.Ref? ==> Messages(m', Count(one.buf)) == Messages(m, Count(one.buf))
                   && (two.Ref? ==> CountAt(m', two.buf, 1) == CountAt(m, two.buf, 1))
    ensures SlotRises(m', i, k)
  {
    var one := Messages(m, Slot)[i].value;
    if one.Ref? {
      CountsAgree(m, m', one.buf, 0);
    }
  }

  lemma UnchangedKeepsOrdered(m: Memory, m': Memory)
    requires Ordered(m)
    requires Messages(m', Slot) == Messages(m, Slot)
    requires forall b: nat :: Messages(m', Count(b)) == Messages(m, Count(b)) || |Messages(m', Count(b))| <= 2
    requires forall i: nat, b: nat :: RefersTo(m, i, b) ==> Messages(m', Count(b)) == Messages(m, Count(b))
    ensures Ordered(m')
  {
    forall b: nat ensures CountsRise(m', b) {
      if Messages(m', Count(b)) == Messages(m, Count(b)) {
        assert CountsRise(m, b);
        RiseStays(m, m', b);
      }
    }
    forall i: nat, k: nat | i < k < |Messages(m', Slot)| ensures SlotRises(m', i, k) {
      assert SlotRises(m, i, k);
      SameCounts(m, m', i);
      SameCounts(m, m', k);
      SlotRisesStays(m, m', i, k);
    }
  }

  lemma SameCounts(m: Memory, m': Memory, i: nat)
    requires i < |Messages(m, Slot)|
    requires forall k: nat, b: nat :: RefersTo(m, k, b) ==> Messages(m', Count(b)) == Messages(m, Count(b))
    ensures var v := Messages(m, Slot)[i].value;
            v.Ref? ==> Messages(m', Count(v.buf)) == Messages(m, Count(v.buf)) && CountAt(m', v.buf, 1) == CountAt(m, v.buf, 1)
  {
    var v := Messages(m, Slot)[i].value;
    if v.Ref? {
      assert RefersTo(m, i, v.buf);
      CountsAgree(m, m', v.buf, 1);
    }
  }

  lemma ActKeepsOrdered(m: Memory, a: Action)
    requires MemoryInv(m) && Allowed(m, a) && Growing(m, a) && Ordered(m)
    ensures Ordered(Act(m, a))
  {
    match a
    case Alloc(cells) => AllocKeepsOrdered(m, cells);
    case SetCount(b, n) => SetCountKeepsOrdered(m, b, n);
    case Write(_, _, _) => PayloadKeepsOrdered(m, a);
    case Overwrite(_, _, _) => PayloadKeepsOrdered(m, a);
    case Publish(b) => PublishKeepsOrdered(m, b);
    case PublishNull =>
    case Clear =>
    case Commit(n) =>
      CommitAppends(m, n);
      AppendedKeepsOrdered(m, Act(m, a), Latest(m, Slot).buf, n);
  }

  lemma PayloadKeepsOrdered(m: Memory, a: Action)
    requires MemoryInv(m) && Allowed(m, a) && (a.Write? || a.Overwrite?) && Ordered(m)
    ensures Ordered(Act(m, a))
  {
    StoresAreLegal(m, a);
    StoreLatest(m, a);
    UnchangedKeepsOrdered(m, Act(m, a));
  }

  lemma AllocKeepsOrdered(m: Memory, cells: nat)
    requires MemoryInv(m) && Ordered(m)
    ensures Ordered(Act(m, Alloc(cells)))
  {
    var m' := Act(m, Alloc(cells));
    forall l: Loc ensures Messages(m', l) == Messages(m, l) || Messages(m', l) == [Message(Garbage, map[])] {
      AllocEffect(m, cells, l);
    }
    assert Allocated(m, Slot);
    AllocEffect(m, cells, Slot);
    forall i: nat, b: nat | RefersTo(m, i, b) ensures Messages(m', Count(b)) == Messages(m, Count(b)) {
      SlotRefFacts(m, i, b);
      AllocEffect(m, cells, Count(b));
    }
    UnchangedKeepsOrdered(m, m');
  }

  lemma SetCountKeepsOrdered(m: Memory, b: nat, n: nat)
    requires MemoryInv(m) && Allowed(m, SetCount(b, n)) && Ordered(m)
    ensures Ordered(Act(m, SetCount(b, n)))
  {
    var a := SetCount(b, n);
    var m' := Act(m, a);
    StoresAreLegal(m, a);
    StoreEffect(m, a);
    StoreLatest(m, a);
    forall i: nat, c: nat | RefersTo(m, i, c) ensures Messages(m', Count(c)) == Messages(m, Count(c)) {
      SlotRefFacts(m, i, c);
    }
    UnchangedKeepsOrdered(m, m');
  }

  lemma PublishKeepsOrdered(m: Memory, b: nat)
    requires MemoryInv(m) && Allowed(m, Publish(b)) && Growing(m, Publish(b)) && Ordered(m)
    ensures Ordered(Act(m, Publish(b)))
  {
    var a := Publish(b);
    var m', last := Act(m, a), |Messages(m, Slot)|;
    PublishEffect(m, b);
    forall c: nat ensures CountsRise(m', c) {
      assert CountsRise(m, c);
      RiseStays(m, m', c);
    }
    forall i: nat, k: nat | i < k < |Messages(m', Slot)| ensures SlotRises(m', i, k) {
      if k < last {
        assert SlotRises(m, i, k);
        var two := Messages(m, Slot)[k].value;
        CountsAgree(m, m', if two.Ref? then two.buf else 0, 1);
        SlotRisesStays(m, m', i, k);
      } else if Messages(m, Slot)[i].value.Ref? {
        NewBufferCountsMore(m, b, i);
        CountsAgree(m, m', Messages(m, Slot)[i].value.buf, 0);
        CountsAgree(m, m', b, 1);
      }
    }
  }

  lemma PublishEffect(m: Memory, b: nat)
    requires MemoryInv(m) && Allowed(m, Publish(b))
    ensures var m', last := Act(m, Publish(b)), |Messages(m, Slot)|;
            && |Messages(m', Slot)| == last + 1 && Messages(m', Slot)[last].value == Ref(b)
            && (forall i: nat :: i < last ==> Messages(m', Slot)[i] == Messages(m, Slot)[i])
            && (forall c: nat :: Messages(m', Count(c)) == Messages(m, Count(c)))
  {
    StoresAreLegal(m, Publish(b));
    StoreEffect(m, Publish(b));
    StoreLatest(m, Publish(b));
  }

  /** The buffer about to be published counts at least what any earlier one does. */
  lemma NewBufferCountsMore(m: Memory, b: nat, i: nat)
    requires MemoryInv(m) && Allowed(m, Publish(b)) && Growing(m, Publish(b)) && Ordered(m)
    requires i < |Messages(m, Slot)| && Messages(m, Slot)[i].value.Ref?
    ensures var was := Messages(m, Slot)[i].value.buf; was != b && CountNow(m, was) <= CountAt(m, b, 1)
  {
    var was, last := Messages(m, Slot)[i].value.buf, |Messages(m, Slot)| - 1;
    SlotRefFacts(m, i, was);
    PrivateCount(m, b);
    if i < last {
      assert SlotRises(m, i, last);
      var current := Messages(m, Slot)[last].value.buf;
      SlotRefFacts(m, last, current);
      assert CountsRise(m, current);
    }
  }

  /** A commit appends n to the counts of the current buffer b and changes no other count. */
  ghost predicate Appended(m: Memory, m': Memory, b: nat, n: nat) {
    && Messages(m', Slot) == Messages(m, Slot) != [] && RefersTo(m, |Messages(m, Slot)| - 1, b)
    && |Messages(m', Count(b))| == |Messages(m, Count(b))| + 1
    && Messages(m', Count(b))[..|Messages(m, Count(b))|] == Messages(m, Count(b))
    && CountAt(m', b, |Messages(m, Count(b))|) == n
    && (forall c: nat :: c != b ==> Messages(m', Count(c)) == Messages(m, Count(c)))
  }

  lemma CurrentIsLast(m: Memory)
    requires Shape(m) && Latest(m, Slot).Ref?
    ensures Messages(m, Slot) != [] && RefersTo(m, |Messages(m, Slot)| - 1, Latest(m, Slot).buf)
  {
  }

  lemma CommitAppends(m: Memory, n: nat)
    requires MemoryInv(m) && Allowed(m, Commit(n))
    ensures Appended(m, Act(m, Commit(n)), Latest(m, Slot).buf, n) && CountNow(m, Latest(m, Slot).buf) <= n
  {
    hide Shape, MemoryOk;
    var b, m' := Latest(m, Slot).buf, Act(m, Commit(n));
    CurrentIsPublished(m);
    CurrentIsLast(m);
    CommitEffect(m, n);
  }

  lemma CommitEffect(m: Memory, n: nat)
    requires Shape(m) && Allowed(m, Commit(n))
    ensures var b, m' := Latest(m, Slot).buf, Act(m, Commit(n));
            && (forall l: Loc :: l != Count(b) ==> Messages(m', l) == Messages(m, l))
            && |Messages(m', Count(b))| == |Messages(m, Count(b))| + 1
            && Messages(m', Count(b))[..|Messages(m, Count(b))|] == Messages(m, Count(b))
            && CountAt(m', b, |Messages(m, Count(b))|) == n
  {
    StoresAreLegal(m, Commit(n));
    StoreEffect(m, Commit(n));
    StoreLatest(m, Commit(n));
    hide Act, Allowed, Shape, MemoryOk, Latest;
  }

  lemma AppendedKeepsOrdered(m: Memory, m': Memory, b: nat, n: nat)
    requires MemoryInv(m) && Ordered(m) && Appended(m, m', b, n) && CountNow(m, b) <= n
    ensures Ordered(m')
  {
    var last := |Messages(m, Slot)| - 1;
    SlotRefFacts(m, last, b);
    forall c: nat ensures CountsRise(m', c) {
      assert CountsRise(m, c);
      if c == b {
        CommitKeepsRise(m, m', b, n);
      } else {
        RiseStays(m, m', c);
      }
    }
    forall i: nat, k: nat | i < k < |Messages(m', Slot)| ensures SlotRises(m', i, k) {
      assert SlotRises(m, i, k) && (i < last ==> SlotRises(m, i, last));
      var two := Messages(m, Slot)[k].value;
      if two.Ref? {
        SlotRefFacts(m, k, two.buf);
        FirstCountStays(m, m', b, n, two.buf);
      }
      SlotRisesStays(m, m', i, k);
    }
  }

  lemma FirstCountStays(m: Memory, m': Memory, b: nat, n: nat, c: nat)
    requires Appended(m, m', b, n) && |Messages(m, Count(c))| >= 2
    ensures CountAt(m', c, 1) == CountAt(m, c, 1)
  {
    if c == b {
      assert Messages(m', Count(b))[..|Messages(m, Count(b))|][1] == Messages(m, Count(b))[1];
    } else {
      CountsAgree(m, m', c, 1);
    }
  }

  lemma CommitKeepsRise(m: Memory, m': Memory, b: nat, n: nat)
    requires CountsRise(m, b) && CountNow(m, b) <= n && |Messages(m, Count(b))| >= 2
    requires CountAt(m, b, |Messages(m, Count(b))| - 1) == CountNow(m, b)
    requires |Messages(m', Count(b))| == |Messages(m, Count(b))| + 1
    requires Messages(m', Count(b))[..|Messages(m, Count(b))|] == Messages(m, Count(b))
    requires CountAt(m', b, |Messages(m, Count(b))|) == n
    ensures CountsRise(m', b)
  {
    var last := |Messages(m, Count(b))|;
    forall j: nat | j < last ensures CountAt(m', b, j) == CountAt(m, b, j) {
      assert Messages(m', Count(b))[..last][j] == Messages(m, Count(b))[j];
    }
    forall j: nat, k: nat | 1 <= j <= k < |Messages(m', Count(b))| ensures CountAt(m', b, j) <= CountAt(m', b, k) {
      if k == last && j < last {
        assert CountAt(m, b, j) <= CountAt(m, b, last - 1);
      }
    }
  }

  // ---- What a reader can still see ---------------------------------------------------------

  /** Every count of b that a view does not rule out is at least f. */
  ghost predicate AtLeast(m: Memory, v: View, b: nat, f: nat) {
    forall j: nat :: 1 <= j && Seen(v, Count(b)) <= j < |Messages(m, Count(b))| ==> f <= CountAt(m, b, j)
  }

  /** An acquired buffer is one the slot referred to at or before what the reader has seen of the slot. */
  ghost predicate Traced(m: Memory, t: Thread) {
    t.pc.Acquired? ==> exists i: nat :: i <= Seen(t.view, Slot) && RefersTo(m, i, t.pc.buf)
  }

  /** From now on the reader sees no null pointer and no count below f. */
  ghost predicate Floor(m: Memory, t: Thread, f: nat) {
    && (forall i: nat :: Seen(t.view, Slot) <= i < |Messages(m, Slot)| ==>
          Messages(m, Slot)[i].value.Ref? && AtLeast(m, t.view, Messages(m, Slot)[i].value.buf, f))
    && (t.pc.Acquired? ==> AtLeast(m, t.view, t.pc.buf, f))
  }

  lemma ReadKeepsTraced(m: Memory, t: Thread, a: ReadAction)
    requires MemoryInv(m) && ThreadOk(m, t) && MayRead(m, t, a) && Traced(m, t)
    ensures Traced(m, Read(m, t, a))
  {
    var t' := Read(m, t, a);
    if t'.pc.Acquired? && a.LoadSlot? {
      assert RefersTo(m, a.ts, t'.pc.buf);
    }
  }

  /** A count that was read is a floor for all that follows. */
  lemma CountIsFloor(m: Memory, t: Thread, ts: nat)
    requires MemoryInv(m) && Ordered(m) && ThreadOk(m, t) && Traced(m, t) && MayRead(m, t, LoadCount(ts))
    ensures Floor(m, Read(m, t, LoadCount(ts)), CountAt(m, t.pc.buf, ts))
  {
    var b, t', f := t.pc.buf, Read(m, t, LoadCount(ts)), CountAt(m, t.pc.buf, ts);
    var i0: nat :| i0 <= Seen(t.view, Slot) && RefersTo(m, i0, b);
    SlotRefFacts(m, i0, b);
    assert ts >= 1;
    forall i: nat | Seen(t'.view, Slot) <= i < |Messages(m, Slot)|
      ensures Messages(m, Slot)[i].value.Ref? && AtLeast(m, t'.view, Messages(m, Slot)[i].value.buf, f)
    {
      LaterBuffersCountMore(m, b, i0, i, ts, t'.view);
    }
  }

  lemma LaterBuffersCountMore(m: Memory, b: nat, i0: nat, i: nat, ts: nat, v: View)
    requires MemoryInv(m) && Ordered(m) && RefersTo(m, i0, b) && i0 <= i < |Messages(m, Slot)|
    requires 1 <= ts <= Seen(v, Count(b)) && ts < |Messages(m, Count(b))|
    ensures Messages(m, Slot)[i].value.Ref?
    ensures AtLeast(m, v, Messages(m, Slot)[i].value.buf, CountAt(m, b, ts))
  {
    SlotRefFacts(m, i0, b);
    assert CountsRise(m, b);
    if i0 < i {
      assert SlotRises(m, i0, i);
      var later := Messages(m, Slot)[i].value.buf;
      assert CountsRise(m, later);
      assert CountAt(m, b, ts) <= CountAt(m, b, |m.log[Count(b)]| - 1);
    }
  }

  lemma ViewGrows(m: Memory, v: View, w: View, b: nat, f: nat)
    requires AtLeast(m, v, b, f) && Seen(v, Count(b)) <= Seen(w, Count(b))
    ensures AtLeast(m, w, b, f)
  {
  }

  lemma ReadAdvances(m: Memory, t: Thread, a: ReadAction)
    requires MayRead(m, t, a)
    ensures var t' := Read(m, t, a);
            && (forall l: Loc :: Seen(t.view, l) <= Seen(t'.view, l))
            && (t'.pc.Acquired? ==> a.LoadSlot? && Seen(t.view, Slot) <= a.ts && RefersTo(m, a.ts, t'.pc.buf))
  {
  }

  lemma ReadKeepsFloor(m: Memory, t: Thread, a: ReadAction, f: nat)
    requires MemoryInv(m) && ThreadOk(m, t) && MayRead(m, t, a) && Floor(m, t, f)
    ensures Floor(m, Read(m, t, a), f)
  {
    hide Read, MayRead, MemoryInv, ThreadOk;
    var t' := Read(m, t, a);
    ReadAdvances(m, t, a);
    forall i: nat | Seen(t'.view, Slot) <= i < |Messages(m, Slot)|
      ensures Messages(m, Slot)[i].value.Ref? && AtLeast(m, t'.view, Messages(m, Slot)[i].value.buf, f)
    {
      ViewGrows(m, t.view, t'.view, Messages(m, Slot)[i].value.buf, f);
    }
    if t'.pc.Acquired? {
      ViewGrows(m, t.view, t'.view, t'.pc.buf, f);
    }
  }

  /** The current buffer counts at least f. */
  lemma FloorIsBelowCurrent(m: Memory, t: Thread, f: nat)
    requires MemoryInv(m) && ViewOk(m, t.view) && Floor(m, t, f)
    ensures Latest(m, Slot).Ref? && f <= CountNow(m, Latest(m, Slot).buf)
  {
    assert Allocated(m, Slot);
    var last := |Messages(m, Slot)| - 1;
    assert Seen(t.view, Slot) <= last;
    var b := Messages(m, Slot)[last].value.buf;
    SlotRefFacts(m, last, b);
    var newest := |m.log[Count(b)]| - 1;
    assert Seen(t.view, Count(b)) <= newest;
  }

  lemma ActKeepsTraced(m: Memory, a: Action, t: Thread)
    requires MemoryInv(m) && Allowed(m, a) && Traced(m, t)
    ensures Traced(Act(m, a), t)
  {
    ActExtends(m, a);
    if t.pc.Acquired? {
      assert Allocated(m, Slot);
      var i: nat :| i <= Seen(t.view, Slot) && RefersTo(m, i, t.pc.buf);
      assert RefersTo(Act(m, a), i, t.pc.buf);
    }
  }

  /** New counts of a published buffer are at least the old latest one. */
  lemma NewCountsAreHigh(m: Memory, a: Action, b: nat, j: nat)
    requires MemoryInv(m) && Allowed(m, a) && Growing(m, a) && b < |m.bufs| && m.bufs[b].published
    requires Count(b) in m.log && |m.log[Count(b)]| <= j < |Messages(Act(m, a), Count(b))|
    ensures CountNow(m, b) <= CountAt(Act(m, a), b, j) && Latest(m, Slot) == Ref(b)
  {
    if a.Alloc? {
      AllocEffect(m, a.cells, Count(b));
    } else {
      StoresAreLegal(m, a);
      StoreEffect(m, a);
    }
  }

  lemma OldCountsStay(m: Memory, a: Action, b: nat, j: nat)
    requires MemoryInv(m) && Allowed(m, a) && Count(b) in m.log && j < |m.log[Count(b)]|
    ensures CountAt(Act(m, a), b, j) == CountAt(m, b, j)
  {
    ActExtends(m, a);
    assert m.log[Count(b)] <= Act(m, a).log[Count(b)];
  }

  lemma ActKeepsAtLeast(m: Memory, a: Action, v: View, b: nat, f: nat)
    requires MemoryInv(m) && Allowed(m, a) && Growing(m, a) && b < |m.bufs| && m.bufs[b].published && Count(b) in m.log
    requires AtLeast(m, v, b, f) && (Latest(m, Slot) == Ref(b) ==> f <= CountNow(m, b))
    ensures AtLeast(Act(m, a), v, b, f)
  {
    forall j: nat | 1 <= j && Seen(v, Count(b)) <= j < |Messages(Act(m, a), Count(b))|
      ensures f <= CountAt(Act(m, a), b, j)
    {
      if j < |m.log[Count(b)]| {
        OldCountsStay(m, a, b, j);
      } else {
        NewCountsAreHigh(m, a, b, j);
      }
    }
  }

  lemma ActKeepsFloor(m: Memory, a: Action, t: Thread, f: nat)
    requires MemoryInv(m) && Allowed(m, a) && Growing(m, a) && ThreadOk(m, t) && Floor(m, t, f)
    ensures Floor(Act(m, a), t, f)
  {
    var m' := Act(m, a);
    FloorIsBelowCurrent(m, t, f);
    assert Allocated(m, Slot);
    ActExtends(m, a);
    forall i: nat | Seen(t.view, Slot) <= i < |Messages(m', Slot)|
      ensures Messages(m', Slot)[i].value.Ref? && AtLeast(m', t.view, Messages(m', Slot)[i].value.buf, f)
    {
      if i < |Messages(m, Slot)| {
        assert m'.log[Slot][i] == m.log[Slot][i];
        var b := Messages(m, Slot)[i].value.buf;
        SlotRefFacts(m, i, b);
        ActKeepsAtLeast(m, a, t.view, b, f);
      } else {
        NewSlotMessage(m, a, i, t.view, f);
      }
    }
    if t.pc.Acquired? {
      assert Allocated(m, Count(t.pc.buf));
      ActKeepsAtLeast(m, a, t.view, t.pc.buf, f);
    }
  }

  lemma NewSlotMessage(m: Memory, a: Action, i: nat, v: View, f: nat)
    requires MemoryInv(m) && Allowed(m, a) && Growing(m, a)
    requires Latest(m, Slot).Ref? && f <= CountNow(m, Latest(m, Slot).buf)
    requires |Messages(m, Slot)| <= i < |Messages(Act(m, a), Slot)|
    ensures var value := Messages(Act(m, a), Slot)[i].value; value.Ref? && AtLeast(Act(m, a), v, value.buf, f)
  {
    assert Allocated(m, Slot);
    if a.Alloc? {
      AllocEffect(m, a.cells, Slot);
    } else if a.Publish? {
      PublishedCountsMore(m, a.buf, v, f);
    } else {
      StoresAreLegal(m, a);
      StoreEffect(m, a);
    }
  }

  lemma PublishedCountsMore(m: Memory, b: nat, v: View, f: nat)
    requires MemoryInv(m) && Allowed(m, Publish(b)) && Growing(m, Publish(b))
    requires Latest(m, Slot).Ref? && f <= CountNow(m, Latest(m, Slot).buf)
    ensures var m', last := Act(m, Publish(b)), |Messages(m, Slot)|;
            |Messages(m', Slot)| == last + 1 && Messages(m', Slot)[last].value == Ref(b) && AtLeast(m', v, b, f)
  {
    PublishEffect(m, b);
    PrivateCount(m, b);
    OnlyCount(m, Act(m, Publish(b)), v, b, f);
  }

  lemma OnlyCount(m: Memory, m': Memory, v: View, b: nat, f: nat)
    requires Messages(m', Count(b)) == Messages(m, Count(b)) && |Messages(m, Count(b))| == 2 && f <= CountAt(m, b, 1)
    ensures AtLeast(m', v, b, f)
  {
    CountsAgree(m, m', b, 1);
  }

  lemma PrivateCount(m: Memory, b: nat)
    requires MemoryInv(m) && Allowed(m, Publish(b))
    ensures |Messages(m, Count(b))| == 2 && CountAt(m, b, 1) == CountNow(m, b)
  {
    assert Allocated(m, Count(b)) && BufferOk(m, b) && CountOk(m, b, 1);
  }

  // ---- Runs --------------------------------------------------------------------------------

  lemma LatestAgrees(m: Memory, m': Memory, l: Loc)
    requires Messages(m', l) == Messages(m, l)
    ensures Latest(m', l) == Latest(m, l)
  {
  }

  /** Publishing what a grow or reserve has built is a growing step. */
  lemma BuiltIsGrowing(m: Memory, m1: Memory, cells: nat, count: nat, contents: seq<Value>)
    requires Shape(m) && Built(m, m1, cells, count, contents)
    requires Latest(m, Slot).Ref? ==> CountNow(m, Latest(m, Slot).buf) <= count
    ensures Growing(m1, Publish(|m.bufs|))
  {
    KeepsGrowing(m, m1, cells, count);
  }

  lemma KeepsGrowing(m: Memory, m1: Memory, cells: nat, count: nat)
    requires Shape(m) && Private(m, m1, cells) && CountNow(m1, |m.bufs|) == count
    requires Latest(m, Slot).Ref? ==> CountNow(m, Latest(m, Slot).buf) <= count
    ensures Growing(m1, Publish(|m.bufs|))
  {
    assert Allocated(m, Slot);
    LatestAgrees(m, m1, Slot);
    if Latest(m, Slot).Ref? {
      var current := Latest(m, Slot).buf;
      CurrentIsPublished(m);
      CountsAgree(m, m1, current, 0);
    }
  }

  ghost predicate GrowingRun(run: seq<State>, steps: seq<Step>) {
    && IsRun(run, steps)
    && forall n :: 0 <= n < |steps| && steps[n].Writes? ==> Growing(run[n].memory, steps[n].action)
  }

  lemma {:induction false} RunStaysOrdered(run: seq<State>, steps: seq<Step>, n: nat, r: nat)
    requires GrowingRun(run, steps) && n <= |steps|
    ensures Inv(run[n]) && Ordered(run[n].memory)
    ensures ThreadOk(run[n].memory, ThreadAt(run[n], r)) && Traced(run[n].memory, ThreadAt(run[n], r))
  {
    RunKeepsInv(run, steps, n);
    SmallViewOk(run[n].memory, map[]);
    if n > 0 {
      RunStaysOrdered(run, steps, n - 1, r);
      var s, step := run[n - 1], steps[n - 1];
      if step.Writes? {
        ActKeepsOrdered(s.memory, step.action);
        ActKeepsTraced(s.memory, step.action, ThreadAt(s, r));
      } else if step.reader == r {
        ReadKeepsTraced(s.memory, ThreadAt(s, r), step.read);
      }
    }
  }

  lemma StepKeepsFloor(s: State, step: Step, r: nat, f: nat)
    requires Inv(s) && StepAllowed(s, step) && (step.Writes? ==> Growing(s.memory, step.action))
    requires ThreadOk(s.memory, ThreadAt(s, r)) && Floor(s.memory, ThreadAt(s, r), f)
    ensures Floor(Next(s, step).memory, ThreadAt(Next(s, step), r), f)
  {
    hide Floor, ThreadOk, Growing;
    if step.Writes? {
      ActKeepsFloor(s.memory, step.action, ThreadAt(s, r), f);
    } else if step.reader == r {
      ReadKeepsFloor(s.memory, ThreadAt(s, r), step.read, f);
    }
  }

  lemma {:induction false} FloorHolds(run: seq<State>, steps: seq<Step>, n: nat, k: nat, r: nat, f: nat)
    requires GrowingRun(run, steps) && n <= k <= |steps| && Floor(run[n].memory, ThreadAt(run[n], r), f)
    ensures Floor(run[k].memory, ThreadAt(run[k], r), f)
    decreases k
  {
    hide Floor, Inv, Ordered, ThreadOk, Traced, Next;
    if n < k {
      FloorHolds(run, steps, n, k - 1, r, f);
      RunStaysOrdered(run, steps, k - 1, r);
      StepKeepsFloor(run[k - 1], steps[k - 1], r, f);
    }
  }

  /** Reader r loads a count of n in this step. */
  ghost predicate Counts(s: State, step: Step, r: nat, n: nat)
    requires StepAllowed(s, step)
  {
    && step.Reads? && step.reader == r && step.read.LoadCount?
    && s.memory.log[Target(ThreadAt(s, r).pc, step.read)][step.read.ts].value == Num(n)
  }

  lemma CountReadIs(s: State, step: Step, r: nat, n: nat)
    requires Inv(s) && ThreadOk(s.memory, ThreadAt(s, r)) && StepAllowed(s, step) && Counts(s, step, r, n)
    ensures var t := ThreadAt(s, r);
            && t.pc.Acquired? && MayRead(s.memory, t, step.read) && Count(t.pc.buf) in s.memory.log
            && 1 <= Seen(t.view, Count(t.pc.buf)) <= step.read.ts < |s.memory.log[Count(t.pc.buf)]|
            && CountAt(s.memory, t.pc.buf, step.read.ts) == n
            && ThreadAt(Next(s, step), r) == Read(s.memory, t, step.read) && Next(s, step).memory == s.memory
  {
  }

  lemma CountSetsFloor(run: seq<State>, steps: seq<Step>, n: nat, r: nat, one: nat)
    requires GrowingRun(run, steps) && n < |steps| && Counts(run[n], steps[n], r, one)
    ensures Floor(run[n + 1].memory, ThreadAt(run[n + 1], r), one)
  {
    RunStaysOrdered(run, steps, n, r);
    CountReadIs(run[n], steps[n], r, one);
    CountIsFloor(run[n].memory, ThreadAt(run[n], r), steps[n].read.ts);
  }

  /** Sizes one reader loads, one after another, never decrease, whatever buffers they come from. */
  lemma SizesNeverDecrease(run: seq<State>, steps: seq<Step>, n: nat, k: nat, r: nat, one: nat, two: nat)
    requires GrowingRun(run, steps) && n < k < |steps|
    requires Counts(run[n], steps[n], r, one) && Counts(run[k], steps[k], r, two)
    ensures one <= two
  {
    CountSetsFloor(run, steps, n, r, one);
    FloorHolds(run, steps, n + 1, k, r, one);
    RunStaysOrdered(run, steps, k, r);
    CountReadIs(run[k], steps[k], r, two);
  }

  /** Nor does the reader see a null pointer again. */
  lemma NeverNullAgain(run: seq<State>, steps: seq<Step>, n: nat, k: nat, r: nat, one: nat)
    requires GrowingRun(run, steps) && n < k < |steps| && Counts(run[n], steps[n], r, one)
    requires steps[k].Reads? && steps[k].reader == r && steps[k].read.LoadSlot?
    ensures Slot in run[k].memory.log && steps[k].read.ts < |run[k].memory.log[Slot]|
    ensures run[k].memory.log[Slot][steps[k].read.ts].value.Ref?
  {
    CountSetsFloor(run, steps, n, r, one);
    FloorHolds(run, steps, n + 1, k, r, one);
    var m, t := run[k].memory, ThreadAt(run[k], r);
    assert MayRead(m, t, steps[k].read) && Messages(m, Slot) == m.log[Slot];
  }
}
