/**
 What every step of the object protocol keeps: the shape of every buffer, the immutability of what
 is committed, and the fact that each operation takes effect in one store.
 */
module ObjectInvariants {
  import opened EntryBuffers
  import opened OrderedFields
  import opened ObjectProtocol
  import opened Pointers

  /** `owner[v]` is the entry for which value block v was allocated; copies of it never differ. */
  ghost predicate BufferOk(b: Buffer, owner: seq<Entry>) {
    && b.count <= b.Capacity()
    && DistinctHashes(b)
    && forall i :: 0 <= i < b.count ==> b.entries[i].val < |owner| && owner[b.entries[i].val] == b.entries[i]
  }

  ghost predicate KeyAbsent(b: Buffer, key: nat) {
    forall i :: 0 <= i < b.count && i < |b.entries| ==> b.entries[i].hash != key
  }

  /** The entry being filled holds the parts written so far. */
  ghost predicate PartlyFilled(e: Entry, w: Writer, s: State, owner: seq<Entry>)
    requires w.Filling?
  {
    && w.stage <= 4
    && (w.stage >= 1 ==> e.hash == w.key)
    && (w.stage >= 2 ==> e.typeId == w.typeId)
    && (w.stage >= 3 ==> e.size == BlockBytes(w.typeId))
    && (w.stage == 4 ==> e.val < |owner| && owner[e.val] == e && Word(s.blocks, e.val) == w.word)
  }

  ghost predicate WriterOk(s: State, owner: seq<Entry>) {
    var b := Current(s);
    match s.writer
    case Idle => true
    case Aborted => true
    case Overwriting(key, typeId, _, idx) =>
      idx < b.count && b.EntryAt(idx).hash == key && b.EntryAt(idx).typeId == typeId
    case Adding(key, _, _) => KeyAbsent(b, key)
    case GrowBuilt(key, _, _, addr) =>
      && addr == |s.bufs| - 1 && s.slot != At(addr)
      && b.count <= b.Capacity() && s.bufs[addr] == Grown(b) && KeyAbsent(b, key)
    case Filling(key, _, _, _) =>
      && s.slot.At? && b.count < b.Capacity() && KeyAbsent(b, key)
      && PartlyFilled(b.EntryAt(b.count), s.writer, s, owner)
    case RemoveBuilt(key, idx, addr) =>
      && addr == |s.bufs| - 1 && s.slot != At(addr)
      && 1 < b.count <= b.Capacity() && idx < b.count && b.EntryAt(idx).hash == key
      && s.bufs[addr] == Filtered(b, idx)
    case Emptying(key) => b.count == 1 && b.EntryAt(0).hash == key
  }

  ghost predicate Inv(s: State, owner: seq<Entry>) {
    && |owner| == |s.blocks|
    && (s.slot.At? ==> s.slot.addr < |s.bufs|)
    && (forall a :: 0 <= a < |s.bufs| ==> BufferOk(s.bufs[a], owner))
    && WriterOk(s, owner)
  }

  /** The proof-only record of which entry each block belongs to. */
  ghost function NextOwner(s: State, step: Step, owner: seq<Entry>): seq<Entry> {
    if step.WriterStep? && s.writer.Filling? && s.writer.stage == 3
    then owner + [Current(s).EntryAt(Current(s).count).(val := |owner|)]
    else owner
  }

  /** All buffers reachable by readers: everything but the one under construction. */
  ghost predicate Published(s: State, a: nat) {
    && a < |s.bufs|
    && !(s.writer.GrowBuilt? && s.writer.addr == a)
    && !(s.writer.RemoveBuilt? && s.writer.addr == a)
  }

  lemma GrownOk(b: Buffer, owner: seq<Entry>)
    requires BufferOk(b, owner)
    ensures BufferOk(Grown(b), owner) && Grown(b).Committed() == b.Committed()
    ensures b.Full() ==> Grown(b).count < Grown(b).Capacity()
  {
    assert forall i :: 0 <= i < b.count ==> Grown(b).entries[i] == b.entries[i];
  }

  lemma FilteredOk(b: Buffer, i: nat, owner: seq<Entry>)
    requires BufferOk(b, owner) && i < b.count
    ensures BufferOk(Filtered(b, i), owner)
    ensures forall j :: 0 <= j < b.count - 1 ==>
      Filtered(b, i).Committed()[j] == b.Committed()[if j < i then j else j + 1]
  {
    assert forall j :: 0 <= j < b.count - 1 ==>
      Filtered(b, i).entries[j] == b.entries[if j < i then j else j + 1];
    assert forall j :: 0 <= j < b.count ==> b.Committed()[j] == b.entries[j];
  }

  lemma LookupFinds(s: State, key: nat, owner: seq<Entry>)
    requires Inv(s, owner)
    ensures Lookup(s, key) <= Current(s).count <= Current(s).Capacity()
    ensures Lookup(s, key) < Current(s).count ==> Current(s).EntryAt(Lookup(s, key)).hash == key
    ensures Lookup(s, key) == Current(s).count ==> KeyAbsent(Current(s), key)
  {
  }

  lemma CommitKeepsBufferOk(b: Buffer, owner: seq<Entry>)
    requires BufferOk(b, owner) && b.count < b.Capacity()
    requires var e := b.entries[b.count]; e.val < |owner| && owner[e.val] == e && KeyAbsent(b, e.hash)
    ensures BufferOk(b.(count := b.count + 1), owner)
  {
    var c := b.(count := b.count + 1);
    assert c.Committed() == b.Committed() + [b.entries[b.count]];
    assert forall i :: 0 <= i < b.count ==> b.Committed()[i] == b.entries[i];
  }

  lemma FillKeepsInv(s: State, owner: seq<Entry>)
    requires Inv(s, owner) && s.writer.Filling? && s.writer.stage < 4
    ensures Inv(Next(s, WriterStep), NextOwner(s, WriterStep, owner))
  {
    var s', owner' := Next(s, WriterStep), NextOwner(s, WriterStep, owner);
    var b, b' := Current(s), Current(s');
    assert b'.Committed() == b.Committed();
    forall a | 0 <= a < |s'.bufs| ensures BufferOk(s'.bufs[a], owner') {
      assert BufferOk(s.bufs[a], owner);
      assert s'.bufs[a].Committed() == s.bufs[a].Committed();
    }
  }

  lemma GrowKeepsInv(s: State, owner: seq<Entry>)
    requires Inv(s, owner) && (s.writer.Adding? || s.writer.GrowBuilt?)
    ensures Inv(Next(s, WriterStep), NextOwner(s, WriterStep, owner))
  {
    GrownOk(Current(s), owner);
  }

  lemma CommitKeepsInv(s: State, owner: seq<Entry>)
    requires Inv(s, owner) && s.writer.Filling? && s.writer.stage == 4
    ensures Inv(Next(s, WriterStep), NextOwner(s, WriterStep, owner))
  {
    CommitKeepsBufferOk(Current(s), owner);
  }

  lemma WriterStepKeepsInv(s: State, owner: seq<Entry>)
    requires Inv(s, owner) && Enabled(s, WriterStep)
    ensures Inv(Next(s, WriterStep), NextOwner(s, WriterStep, owner))
  {
    match s.writer
    case Overwriting(_, _, _, _) =>
    case Adding(_, _, _) => GrowKeepsInv(s, owner);
    case GrowBuilt(_, _, _, _) => GrowKeepsInv(s, owner);
    case Filling(_, _, _, stage) =>
      if stage < 4 {
        FillKeepsInv(s, owner);
      } else {
        CommitKeepsInv(s, owner);
      }
    case RemoveBuilt(_, _, _) =>
    case Emptying(_) =>
  }

  lemma BeginningKeepsInv(s: State, step: Step, owner: seq<Entry>)
    requires Inv(s, owner) && Enabled(s, step) && (step.BeginSet? || step.BeginEnsureObject? || step.BeginRemove?)
    ensures Inv(Next(s, step), NextOwner(s, step, owner))
  {
    LookupFinds(s, step.key, owner);
    if step.BeginRemove? && Lookup(s, step.key) < Current(s).count {
      FilteredOk(Current(s), Lookup(s, step.key), owner);
    }
  }

  lemma StepKeepsInv(s: State, step: Step, owner: seq<Entry>)
    requires Inv(s, owner) && Enabled(s, step)
    ensures Inv(Next(s, step), NextOwner(s, step, owner))
  {
    match step
    case BeginSet(_, _, _) => BeginningKeepsInv(s, step, owner);
    case BeginEnsureObject(_) => BeginningKeepsInv(s, step, owner);
    case BeginRemove(_) => BeginningKeepsInv(s, step, owner);
    case WriterStep => WriterStepKeepsInv(s, owner);
    case Invoke(_, _) =>
    case ReaderStep(_) =>
  }

  // ---- What a step may change --------------------------------------------------------------

  lemma FillingIsStable(s: State, owner: seq<Entry>)
    requires Inv(s, owner) && s.writer.Filling?
    ensures var b, b' := Current(s), Current(Next(s, WriterStep));
            b'.Capacity() == b.Capacity() && b.Committed() <= b'.Committed()
  {
    var b := Current(s);
    if s.writer.stage < 4 {
      assert Current(Next(s, WriterStep)).Committed() == b.Committed();
    } else {
      assert b.(count := b.count + 1).Committed() == b.Committed() + [b.entries[b.count]];
    }
  }

  /** Only the current buffer can change, and only beyond its committed entries. */
  lemma BuffersAreStable(s: State, step: Step, owner: seq<Entry>, a: nat)
    requires Inv(s, owner) && Enabled(s, step) && a < |s.bufs|
    ensures var s' := Next(s, step);
            && a < |s'.bufs|
            && (s.slot != At(a) ==> s'.bufs[a] == s.bufs[a])
            && s'.bufs[a].Capacity() == s.bufs[a].Capacity()
            && s.bufs[a].Committed() <= s'.bufs[a].Committed()
            && (s'.slot != s.slot ==> s'.bufs == s.bufs && s'.blocks == s.blocks)
  {
    if step.WriterStep? && s.writer.Filling? {
      FillingIsStable(s, owner);
    }
  }

  /** A value block keeps its word unless it is the one being overwritten. */
  lemma BlocksAreStable(s: State, step: Step, v: nat)
    requires v < |s.blocks| && Enabled(s, step)
    ensures v < |Next(s, step).blocks|
    ensures Next(s, step).blocks[v] == s.blocks[v]
         || (step.WriterStep? && s.writer.Overwriting? && v == Current(s).EntryAt(s.writer.idx).val)
  {
  }

  // ---- Each operation takes effect in one store --------------------------------------------

  datatype Operation = Nothing | PutOp(key: nat, typeId: nat, word: int) | RemoveOp(key: nat)

  function Perform(fields: seq<Field<nat, int>>, op: Operation): seq<Field<nat, int>> {
    match op
    case Nothing => fields
    case PutOp(key, typeId, word) => Put(fields, key, typeId, word)
    case RemoveOp(key) => Without(fields, key)
  }

  /** The operation the writer has started and that has not taken effect yet. */
  function Pending(w: Writer): Operation {
    match w
    case Idle => Nothing
    case Aborted => Nothing
    case Overwriting(key, typeId, word, _) => PutOp(key, typeId, word)
    case Adding(key, typeId, word) => PutOp(key, typeId, word)
    case GrowBuilt(key, typeId, word, _) => PutOp(key, typeId, word)
    case Filling(key, typeId, word, _) => PutOp(key, typeId, word)
    case RemoveBuilt(key, _, _) => RemoveOp(key)
    case Emptying(key) => RemoveOp(key)
  }

  /** The operation whose effect becomes visible with this step. */
  function Visible(s: State, step: Step): Operation {
    if step.WriterStep? && Next(s, step).writer.Idle? then Pending(s.writer) else Nothing
  }

  lemma AbsFacts(s: State, owner: seq<Entry>)
    requires Inv(s, owner)
    ensures Distinct(Abs(s)) && |Abs(s)| == Current(s).count
    ensures forall i :: 0 <= i < |Abs(s)| ==> Abs(s)[i] == FieldOf(Current(s).entries[i], s.blocks)
    ensures forall key :: KeyAbsent(Current(s), key) <==> Absent(Abs(s), key)
  {
    assert BufferOk(Current(s), owner);
  }

  lemma OverwriteIsPut(s: State, owner: seq<Entry>)
    requires Inv(s, owner) && s.writer.Overwriting?
    ensures Abs(Next(s, WriterStep)) == Perform(Abs(s), Pending(s.writer))
  {
    var w, b, s' := s.writer, Current(s), Next(s, WriterStep);
    AbsFacts(s, owner);
    IndexIs(Abs(s), w.idx);
    forall i | 0 <= i < |Abs(s)| ensures Abs(s')[i] == Perform(Abs(s), Pending(w))[i] {
      assert Abs(s)[i] == FieldOf(b.entries[i], s.blocks);
      assert b.entries[i].val == b.entries[w.idx].val ==> b.entries[i] == b.entries[w.idx];
      assert i != w.idx ==> b.Committed()[i].hash != b.Committed()[w.idx].hash;
    }
  }

  lemma OneMoreField(b: Buffer, blocks: seq<int>)
    requires b.count < b.Capacity()
    ensures FieldsOf(b.(count := b.count + 1), blocks) == FieldsOf(b, blocks) + [FieldOf(b.entries[b.count], blocks)]
  {
    assert b.(count := b.count + 1).Committed() == b.Committed() + [b.entries[b.count]];
  }

  lemma CommitIsPut(s: State, owner: seq<Entry>)
    requires Inv(s, owner) && s.writer.Filling? && s.writer.stage == 4
    ensures Abs(Next(s, WriterStep)) == Perform(Abs(s), Pending(s.writer))
  {
    var w, b, s' := s.writer, Current(s), Next(s, WriterStep);
    AbsFacts(s, owner);
    AbsentIsNotHas(Abs(s), w.key);
    assert Current(s') == b.(count := b.count + 1) && s'.blocks == s.blocks && b.count < b.Capacity();
    assert FieldOf(b.entries[b.count], s.blocks) == Field(w.key, w.typeId, w.word);
    OneMoreField(b, s.blocks);
    hide Inv, Next, Current, FieldsOf;
  }

  lemma WithoutAt(fields: seq<Field<nat, int>>, key: nat, idx: nat)
    requires Distinct(fields) && idx < |fields| && fields[idx].key == key
    ensures Without(fields, key) == fields[..idx] + fields[idx + 1..]
  {
    IndexIs(fields, idx);
  }

  lemma FilteringPublishes(s: State, owner: seq<Entry>)
    requires Inv(s, owner) && s.writer.RemoveBuilt?
    ensures var b, w, s' := Current(s), s.writer, Next(s, WriterStep);
            && w.idx < b.count <= b.Capacity() && b.entries[w.idx].hash == w.key
            && Current(s') == Filtered(b, w.idx) && s'.blocks == s.blocks
  {
  }

  lemma FilteringIsWithout(s: State, owner: seq<Entry>)
    requires Inv(s, owner) && s.writer.RemoveBuilt?
    ensures Abs(Next(s, WriterStep)) == Without(Abs(s), s.writer.key)
  {
    hide Inv, Next, Filtered, Current, FieldsOf, Without, Distinct, IndexOf, KeyAbsent, Absent;
    var b, w := Current(s), s.writer;
    AbsFacts(s, owner);
    FilteringPublishes(s, owner);
    WithoutAt(Abs(s), w.key, w.idx);
    FieldsOfFiltered(b, w.idx, s.blocks);
  }

  lemma EmptyingIsWithout(s: State, owner: seq<Entry>)
    requires Inv(s, owner) && s.writer.Emptying?
    ensures Abs(Next(s, WriterStep)) == Without(Abs(s), s.writer.key)
  {
    AbsFacts(s, owner);
    WithoutAt(Abs(s), s.writer.key, 0);
    assert Current(Next(s, WriterStep)) == EMPTY;
  }

  lemma RemoveIsWithout(s: State, owner: seq<Entry>)
    requires Inv(s, owner) && (s.writer.RemoveBuilt? || s.writer.Emptying?)
    ensures Abs(Next(s, WriterStep)) == Perform(Abs(s), Pending(s.writer))
  {
    if s.writer.RemoveBuilt? {
      FilteringIsWithout(s, owner);
    } else {
      EmptyingIsWithout(s, owner);
    }
  }

  lemma OtherWriterStepsAreInvisible(s: State, owner: seq<Entry>)
    requires Inv(s, owner)
    requires s.writer.Adding? || s.writer.GrowBuilt? || (s.writer.Filling? && s.writer.stage < 4)
    ensures Abs(Next(s, WriterStep)) == Abs(s) && Visible(s, WriterStep) == Nothing
    ensures Pending(Next(s, WriterStep).writer) == Pending(s.writer)
  {
    var b, s' := Current(s), Next(s, WriterStep);
    if s.writer.GrowBuilt? {
      GrownOk(b, owner);
    }
    assert forall i :: 0 <= i < b.count ==> b.Committed()[i] == b.entries[i];
    SameFields(b, Current(s'), s.blocks, s'.blocks);
  }

  lemma BeginningsAreInvisible(s: State, step: Step, owner: seq<Entry>)
    requires Inv(s, owner) && Enabled(s, step) && !step.WriterStep?
    ensures Abs(Next(s, step)) == Abs(s)
  {
    SameFields(Current(s), Current(Next(s, step)), s.blocks, s.blocks);
  }

  /** Every step is invisible or performs one whole operation on the abstract value. */
  lemma StepRefines(s: State, step: Step, owner: seq<Entry>)
    requires Inv(s, owner) && Enabled(s, step)
    ensures Abs(Next(s, step)) == Perform(Abs(s), Visible(s, step))
  {
    if !step.WriterStep? {
      BeginningsAreInvisible(s, step, owner);
    } else if s.writer.Adding? || s.writer.GrowBuilt? || (s.writer.Filling? && s.writer.stage < 4) {
      OtherWriterStepsAreInvisible(s, owner);
    } else if s.writer.Overwriting? {
      OverwriteIsPut(s, owner);
    } else if s.writer.Filling? {
      CommitIsPut(s, owner);
    } else {
      RemoveIsWithout(s, owner);
    }
  }

  // ---- Whole runs --------------------------------------------------------------------------

  /** What a request does to an abstract value when nothing runs beside it. A set or ensure of a
      key that is present with another type terminates the process and changes nothing. */
  function Requested(fields: seq<Field<nat, int>>, step: Step): seq<Field<nat, int>> {
    match step
    case BeginSet(key, typeId, word) =>
      if Has(fields, key) && fields[IndexOf(fields, key)].typeId != typeId then fields
      else Put(fields, key, typeId, word)
    case BeginEnsureObject(key) => if Has(fields, key) then fields else Put(fields, key, TYPE_OBJECT, 0)
    case BeginRemove(key) => Without(fields, key)
    case WriterStep => fields
    case Invoke(_, _) => fields
    case ReaderStep(_) => fields
  }

  /** The abstract value after all requests among `steps`, performed one after the other. */
  function Sequential(steps: seq<Step>): seq<Field<nat, int>> {
    if steps == [] then [] else Requested(Sequential(steps[..|steps| - 1]), steps[|steps| - 1])
  }

  lemma {:induction false} RunKeepsInv(run: seq<State>, steps: seq<Step>) returns (owner: seq<Entry>)
    requires IsRun(run, steps)
    ensures Inv(run[|steps|], owner) && run[|steps|].now == |steps|
    decreases |steps|
  {
    if steps == [] {
      owner := [];
    } else {
      var n := |steps| - 1;
      var before := RunKeepsInv(run[..|run| - 1], steps[..n]);
      StepKeepsInv(run[n], steps[n], before);
      owner := NextOwner(run[n], steps[n], before);
    }
  }

  /** The writer's scan and the abstract lookup agree. */
  lemma LookupIsIndex(s: State, key: nat, owner: seq<Entry>)
    requires Inv(s, owner)
    ensures var i := Lookup(s, key);
            && (i < Current(s).count <==> Has(Abs(s), key))
            && (i < Current(s).count ==> i == IndexOf(Abs(s), key) && Abs(s)[i].typeId == Current(s).EntryAt(i).typeId)
  {
    var i := Lookup(s, key);
    LookupFinds(s, key, owner);
    AbsFacts(s, owner);
    AbsentIsNotHas(Abs(s), key);
    if i < |Abs(s)| {
      assert Abs(s)[i] == FieldOf(Current(s).EntryAt(i), s.blocks);
      IndexIs(Abs(s), i);
    }
  }

  lemma SetBecomesPending(s: State, key: nat, typeId: nat, word: int, owner: seq<Entry>)
    requires Inv(s, owner)
    ensures Perform(Abs(s), Pending(StartSet(s, key, typeId, word).writer)) == Requested(Abs(s), BeginSet(key, typeId, word))
  {
    LookupIsIndex(s, key, owner);
  }

  lemma EnsureBecomesPending(s: State, key: nat, owner: seq<Entry>)
    requires Inv(s, owner) && s.writer.Idle?
    ensures Perform(Abs(s), Pending(StartEnsureObject(s, key).writer)) == Requested(Abs(s), BeginEnsureObject(key))
  {
    LookupIsIndex(s, key, owner);
  }

  lemma RemoveBecomesPending(s: State, key: nat, owner: seq<Entry>)
    requires Inv(s, owner) && s.writer.Idle?
    ensures Perform(Abs(s), Pending(StartRemove(s, key).writer)) == Requested(Abs(s), BeginRemove(key))
  {
    LookupIsIndex(s, key, owner);
    LookupFinds(s, key, owner);
  }

  /** What has been done, plus what is pending, changes exactly as requested. */
  lemma StepTracksRequests(s: State, step: Step, owner: seq<Entry>)
    requires Inv(s, owner) && Enabled(s, step)
    ensures var s' := Next(s, step);
            Perform(Abs(s'), Pending(s'.writer)) == Requested(Perform(Abs(s), Pending(s.writer)), step)
  {
    match step
    case BeginSet(key, typeId, word) =>
      BeginningsAreInvisible(s, step, owner);
      SetBecomesPending(s, key, typeId, word, owner);
    case BeginEnsureObject(key) =>
      BeginningsAreInvisible(s, step, owner);
      EnsureBecomesPending(s, key, owner);
    case BeginRemove(key) =>
      BeginningsAreInvisible(s, step, owner);
      RemoveBecomesPending(s, key, owner);
    case WriterStep =>
      if Next(s, step).writer.Idle? {
        StepRefines(s, step, owner);
      } else {
        OtherWriterStepsAreInvisible(s, owner);
      }
    case Invoke(_, _) => BeginningsAreInvisible(s, step, owner);
    case ReaderStep(_) => BeginningsAreInvisible(s, step, owner);
  }

  /** In every interleaving the object is what the requests made so far, performed one at a time and
      in order, would leave, less the one operation that is still under way. */
  lemma {:induction false} WritesAreAtomic(run: seq<State>, steps: seq<Step>)
    requires IsRun(run, steps)
    ensures var s := run[|steps|]; Perform(Abs(s), Pending(s.writer)) == Sequential(steps)
    ensures run[|steps|].writer.Idle? ==> Abs(run[|steps|]) == Sequential(steps)
    decreases |steps|
  {
    if steps != [] {
      var n := |steps| - 1;
      WritesAreAtomic(run[..|run| - 1], steps[..n]);
      var owner := RunKeepsInv(run[..|run| - 1], steps[..n]);
      StepTracksRequests(run[n], steps[n], owner);
    }
  }
}
