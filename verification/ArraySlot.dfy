/**
 The growing array, carried out in place by its one writer, and what it retains. A slot holds a pointer
 to a buffer with size and capacity in its header; growing builds a zeroed buffer of twice the capacity
 and keeps the old one.
 */
module ArraySlot {
  import opened ArrayBuffers
  import opened Wrappers

  /** The slot as data, with a record of what has been allocated and copied so far. */
  datatype Slot = Slot(
    buf: Buffer,       // the empty one without a buffer
    ready: bool,       // an element has been prepared and not yet committed
    caps: seq<nat>,    // capacities of all buffers ever allocated, oldest first
    copied: nat,       // elements copied by all grows
    peak: nat)         // largest size ever prepared
  {
    function Capacity(): nat { buf.Capacity() }

    predicate Valid() {
      && buf.size <= Capacity()
      && (ready ==> buf.size < Capacity())
    }

    function Contents(): seq<int> { buf.Committed() }
  }

  const NEW: Slot := Slot(EMPTY, false, [], 0, 0)

  // ---- The calls on data -------------------------------------------------------------------

  datatype Call = Reserve(cap: nat) | Prepare | Fill(value: int) | Commit | Clear

  /** One filled prepare before each commit and nothing else in between. */
  predicate Allowed(s: Slot, c: Call) {
    if c.Fill? || c.Commit? then s.ready else !s.ready
  }

  function Reserved(s: Slot, cap: nat): Slot {
    if cap <= s.Capacity() then s
    else s.(buf := Enlarged(s.buf, cap), caps := s.caps + [cap], copied := s.copied + s.buf.size)
  }

  function Room(s: Slot): Slot {
    if s.buf.size >= s.Capacity() then Reserved(s, GrownCapacity(s.Capacity())) else s
  }

  function Prepared(s: Slot): Slot {
    Room(s).(buf := Stored(Room(s).buf, 0), ready := true, peak := if s.buf.size + 1 > s.peak then s.buf.size + 1 else s.peak)
  }

  function Apply(s: Slot, c: Call): Slot {
    match c
    case Reserve(cap) => Reserved(s, cap)
    case Prepare => Prepared(s)
    case Fill(value) => s.(buf := Stored(s.buf, value))
    case Commit => s.(buf := s.buf.(size := s.buf.size + 1), ready := false)
    case Clear => s.(buf := s.buf.(size := 0))
  }

  ghost predicate IsRun(calls: seq<Call>) {
    forall k :: 0 <= k < |calls| ==> Allowed(After(calls[..k]), calls[k])
  }

  /** The slot after a run from scratch. */
  function After(calls: seq<Call>): Slot
    decreases |calls|
  {
    if calls == [] then NEW else Apply(After(calls[..|calls| - 1]), calls[|calls| - 1])
  }

  // ---- Meaning: a list ---------------------------------------------------------------------

  /** The list the calls amount to, and the value waiting to be committed. */
  datatype List = List(items: seq<int>, pending: int)

  function Listed(l: List, c: Call): List {
    match c
    case Reserve(_) => l
    case Prepare => l.(pending := 0)
    case Fill(value) => l.(pending := value)
    case Commit => l.(items := l.items + [l.pending])
    case Clear => l.(items := [])
  }

  function Meaning(calls: seq<Call>): List
    decreases |calls|
  {
    if calls == [] then List([], 0) else Listed(Meaning(calls[..|calls| - 1]), calls[|calls| - 1])
  }

  ghost predicate Represents(s: Slot, l: List) {
    && s.Valid() && s.Contents() == l.items
    && (s.ready ==> s.buf.elems[s.buf.size] == l.pending)
  }

  lemma CallRefines(s: Slot, l: List, c: Call)
    requires Represents(s, l) && Allowed(s, c)
    ensures Represents(Apply(s, c), Listed(l, c))
  {
    match c
    case Reserve(cap) => RoomKeepsContents(s, cap);
    case Prepare => RoomKeepsContents(s, GrownCapacity(s.Capacity()));
    case Fill(_) =>
    case Commit => assert Apply(s, c).Contents() == s.Contents() + [s.buf.elems[s.buf.size]];
    case Clear =>
  }

  lemma RoomKeepsContents(s: Slot, cap: nat)
    requires s.Valid()
    ensures var r := Reserved(s, cap);
            r.buf.size == s.buf.size && r.Capacity() == (if cap > s.Capacity() then cap else s.Capacity()) && r.Contents() == s.Contents()
  {
  }

  lemma RoomHasRoom(s: Slot)
    requires s.Valid()
    ensures Room(s).buf.size == s.buf.size < Room(s).Capacity()
  {
    RoomKeepsContents(s, GrownCapacity(s.Capacity()));
  }

  /** Whatever grows, reserves and clears happen, the array is the list. */
  lemma {:induction false} RunIsList(calls: seq<Call>)
    requires IsRun(calls)
    ensures Represents(After(calls), Meaning(calls))
    decreases |calls|
  {
    if calls != [] {
      var before := calls[..|calls| - 1];
      RunPrefix(calls);
      RunIsList(before);
      CallRefines(After(before), Meaning(before), calls[|calls| - 1]);
    }
  }

  lemma RunPrefix(calls: seq<Call>)
    requires IsRun(calls) && calls != []
    ensures IsRun(calls[..|calls| - 1])
    ensures Allowed(After(calls[..|calls| - 1]), calls[|calls| - 1])
  {
    var before := calls[..|calls| - 1];
    forall k | 0 <= k < |before| ensures Allowed(After(before[..k]), before[k]) {
      assert before[..k] == calls[..k] && Allowed(After(calls[..k]), calls[k]);
    }
  }

  // ---- Retention ---------------------------------------------------------------------------

  function Sum(xs: seq<nat>): nat {
    if xs == [] then 0 else Sum(xs[..|xs| - 1]) + xs[|xs| - 1]
  }

  function Doubled(k: nat): nat {
    if k == 0 then 4 else 2 * Doubled(k - 1)
  }

  /** Capacities 8, 16, 32, ...: the last buffer is as large as all the others together, and 8 more. */
  ghost predicate Geometric(s: Slot) {
    && s.Valid()
    && s.buf.size <= s.peak && (s.ready ==> s.buf.size < s.peak)
    && if s.Capacity() == 0 then s.caps == [] && s.copied == 0 && s.buf.size == 0
       else
         && s.caps != [] && s.caps[|s.caps| - 1] == s.Capacity() == Doubled(|s.caps|)
         && Sum(s.caps) == 2 * s.Capacity() - 8
         && s.copied == s.Capacity() - 8
         && s.Capacity() - 8 < 2 * s.peak
  }

  lemma CallKeepsGeometric(s: Slot, c: Call)
    requires Geometric(s) && Allowed(s, c) && !c.Reserve?
    ensures Geometric(Apply(s, c))
  {
    if c.Prepare? {
      RoomKeepsContents(s, GrownCapacity(s.Capacity()));
      var cap := GrownCapacity(s.Capacity());
      assert (s.caps + [cap])[..|s.caps|] == s.caps;
      if s.caps == [] {
        assert Doubled(1) == 2 * Doubled(0);
      }
    }
  }

  /**
   In every run without an explicit reserve the capacities of all buffers ever allocated sum to
   2 * cap - 8, those superseded and the elements copied to cap - 8, which is less than twice the
   largest size prepared.
   */
  lemma {:induction false} RetentionIsGeometric(calls: seq<Call>)
    requires IsRun(calls) && forall k :: 0 <= k < |calls| ==> !calls[k].Reserve?
    ensures Geometric(After(calls))
    ensures var s := After(calls);
            s.Capacity() > 0 ==> s.caps != [] && Sum(s.caps) == 2 * s.Capacity() - 8
                                 && Sum(s.caps[..|s.caps| - 1]) == s.copied == s.Capacity() - 8 < 2 * s.peak
    decreases |calls|
  {
    if calls != [] {
      RunPrefix(calls);
      RetentionIsGeometric(calls[..|calls| - 1]);
      CallKeepsGeometric(After(calls[..|calls| - 1]), calls[|calls| - 1]);
    }
  }

  /** In bytes, for elements of a given size: a header of 8 for each buffer. */
  function Bytes(caps: seq<nat>, itemSize: nat): nat {
    if caps == [] then 0 else Bytes(caps[..|caps| - 1], itemSize) + 8 + caps[|caps| - 1] * itemSize
  }

  lemma {:induction false} BytesAreHeadersAndElements(caps: seq<nat>, itemSize: nat, total: nat)
    requires total == Sum(caps)
    ensures Bytes(caps, itemSize) == 8 * |caps| + total * itemSize
  {
    if caps != [] {
      var rest, last := caps[..|caps| - 1], caps[|caps| - 1];
      BytesAreHeadersAndElements(rest, itemSize, Sum(rest));
      assert (Sum(rest) + last) * itemSize == Sum(rest) * itemSize + last * itemSize;
    }
  }

  /** What a run without an explicit reserve has allocated, in bytes, and what of it is superseded. */
  lemma RetainedBytes(calls: seq<Call>, itemSize: nat)
    requires IsRun(calls) && forall k :: 0 <= k < |calls| ==> !calls[k].Reserve?
    requires After(calls).Capacity() > 0
    ensures var s := After(calls); var n := |s.caps|;
            && n > 0 && s.Capacity() == Doubled(n)
            && Bytes(s.caps, itemSize) == 8 * n + (2 * s.Capacity() - 8) * itemSize
            && Bytes(s.caps[..n - 1], itemSize) == 8 * (n - 1) + (s.Capacity() - 8) * itemSize
            && s.Capacity() - 8 < 2 * s.peak
  {
    hide Bytes, Sum, After, IsRun;
    RetentionIsGeometric(calls);
    var caps, cap := After(calls).caps, After(calls).Capacity();
    BytesAreHeadersAndElements(caps, itemSize, 2 * cap - 8);
    BytesAreHeadersAndElements(caps[..|caps| - 1], itemSize, cap - 8);
  }

  // ---- In place ----------------------------------------------------------------------------

  class HeapBuffer {
    var size: nat
    const elems: array<int>

    constructor (capacity: nat)
      ensures fresh(elems) && elems.Length == capacity && size == 0
    {
      size := 0;
      elems := new int[capacity];
    }
  }

  class Array {
    var buf: HeapBuffer?
    ghost var ready: bool
    ghost var caps: seq<nat>
    ghost var copied: nat
    ghost var peak: nat

    ghost predicate Valid()
      reads this, buf
    {
      (buf != null ==> buf.size <= buf.elems.Length) && (ready ==> buf != null && buf.size < buf.elems.Length)
    }

    ghost function View(): Slot
      reads this, buf, if buf == null then {} else {buf.elems}
    {
      Slot(if buf == null then EMPTY else Buffer(buf.size, buf.elems[..]), ready, caps, copied, peak)
    }

    constructor ()
      ensures Valid() && View() == NEW && buf == null
    {
      buf, ready, caps, copied, peak := null, false, [], 0, 0;
    }

    method Size() returns (n: nat)
      ensures n == View().buf.size
    {
      n := if buf == null then 0 else buf.size;
    }

    method Capacity() returns (n: nat)
      ensures n == View().Capacity()
    {
      n := if buf == null then 0 else buf.elems.Length;
    }

    /** A zeroed private buffer of the new capacity with the elements copied over, then published. */
    method Reserve(newCap: nat)
      requires Valid()
      modifies this
      ensures Valid() && View() == Reserved(old(View()), newCap)
      ensures buf != old(buf) ==> fresh(buf) && fresh(buf.elems)
      ensures old(buf) != null ==> old(buf).elems[..] == old(if buf == null then [] else buf.elems[..])
    {
      var oldCap := Capacity();
      if newCap <= oldCap {
        return;
      }
      var oldSize := Size();
      ghost var was := View();
      var grown := new HeapBuffer(newCap);
      var i := 0;
      while i < newCap
        invariant i <= newCap && grown.size == 0
        invariant forall k :: 0 <= k < i ==> grown.elems[k] == 0
        modifies grown.elems
      {
        grown.elems[i] := 0;
        i := i + 1;
      }
      grown.size := oldSize;
      if buf != null && oldSize > 0 {
        forall k | 0 <= k < oldSize {
          grown.elems[k] := buf.elems[k];
        }
      }
      assert grown.elems[..] == Enlarged(was.buf, newCap).elems;
      buf, caps, copied := grown, caps + [newCap], copied + oldSize;
    }

    /** Make room and zero the next element; its index is the answer. The size stays. */
    method PreparePush() returns (at: nat)
      requires Valid() && !ready
      modifies this, buf, if buf == null then {} else {buf.elems}
      ensures Valid() && View() == Prepared(old(View())) && buf != null && at == buf.size
      ensures buf != old(buf) ==> fresh(buf) && fresh(buf.elems)
    {
      var size := Size();
      var cap := Capacity();
      ghost var was := View();
      if buf == null || size >= cap {
        Reserve(GrownCapacity(cap));
      }
      RoomHasRoom(was);
      assert View() == Room(was);
      buf.elems[size] := 0;
      at := size;
      ready, peak := true, if size + 1 > peak then size + 1 else peak;
    }

    /** The caller writes the prepared element. */
    method FillPrepared(value: int)
      requires Valid() && ready
      modifies buf.elems
      ensures Valid() && View() == Apply(old(View()), Fill(value))
    {
      buf.elems[buf.size] := value;
    }

    method CommitPush()
      requires Valid() && ready
      modifies this`ready, buf`size
      ensures Valid() && View() == Apply(old(View()), Commit)
    {
      buf.size := buf.size + 1;
      ready := false;
    }

    /** The single-threaded push: committed first, written through the returned index afterwards. */
    method PushBack(value: int)
      requires Valid() && !ready
      modifies this, buf, if buf == null then {} else {buf.elems}
      ensures Valid() && !ready
      ensures View() == Apply(Apply(Prepared(old(View())), Fill(value)), Commit)
      ensures View().Contents() == old(View().Contents()) + [value]
      ensures buf != old(buf) ==> fresh(buf) && fresh(buf.elems)
    {
      ghost var was := View();
      var at := PreparePush();
      RoomKeepsContents(was, GrownCapacity(was.Capacity()));
      assert View().Contents() == was.Contents();
      CommitPush();
      buf.elems[at] := value;
      assert View().Contents() == was.Contents() + [value];
    }

    /** The committed element at that index, or nothing where the source returns null. */
    method Get(index: nat) returns (element: Option<int>)
      requires Valid()
      ensures element == if index < |View().Contents()| then Some(View().Contents()[index]) else None
    {
      if buf == null || index >= buf.size {
        return None;
      }
      element := Some(buf.elems[index]);
    }

    method ClearAll()
      requires Valid() && !ready
      modifies buf
      ensures Valid() && View() == Apply(old(View()), Clear)
    {
      if buf != null {
        buf.size := 0;
      }
    }
  }
}
