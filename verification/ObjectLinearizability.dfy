/**
 Readers of an object beside its writer: every completed read returned the answer of the abstract
 value at some instant of the call, and needed only boundedly many of its own steps.
 */
module ObjectLinearizability {
  import opened EntryBuffers
  import opened OrderedFields
  import opened ObjectProtocol
  import opened Pointers
  import opened ObjectInvariants

  /**
   Proof-only history. `bufLast[a]` is the last instant at which buffer a was current (now, while it
   is), `blockLast[v]` the last instant at which value block v was part of the object.
   */
  datatype History = History(owner: seq<Entry>, bufLast: seq<nat>, blockLast: seq<nat>)

  ghost predicate Live(s: State, v: nat) {
    exists i :: 0 <= i < |Current(s).Committed()| && Current(s).Committed()[i].val == v
  }

  function Last(s: seq<nat>, i: nat): nat {
    if i < |s| then s[i] else 0
  }

  ghost function Advance(run: seq<State>, step: Step, h: History): History
    requires run != []
  {
    var s := run[|run| - 1];
    var s' := Next(s, step);
    History(NextOwner(s, step, h.owner),
            seq(|s'.bufs|, (a: nat) => if s'.slot == At(a) then |run| else Last(h.bufLast, a)),
            seq(|s'.blocks|, (v: nat) => if Live(s', v) then |run| else Last(h.blockLast, v)))
  }

  /** A buffer has not changed since it was last current. */
  ghost predicate BufferFrozen(run: seq<State>, h: History, a: nat)
    requires run != []
  {
    var s, k := run[|run| - 1], Last(h.bufLast, a);
    && a < |s.bufs|
    && k < |run|
    && run[k].slot == At(a)
    && BufferAt(run[k], a).Committed() == s.bufs[a].Committed()
    && (s.slot == At(a) ==> k == |run| - 1)
  }

  /** A committed entry of a published buffer shows what its field was when last in the object. */
  ghost predicate EntryFrozen(run: seq<State>, h: History, a: nat, e: Entry)
    requires run != []
  {
    var s, k := run[|run| - 1], Last(h.blockLast, e.val);
    && e.val < |s.blocks|
    && Last(h.bufLast, a) <= k < |run|
    && FieldOf(e, s.blocks) in Abs(run[k])
    && (Live(s, e.val) ==> k == |run| - 1)
  }

  /** Some instant since `since` had exactly these committed entries. */
  ghost predicate Snapshot(run: seq<State>, since: nat, es: seq<Entry>) {
    exists k :: since <= k < |run| && Current(run[k]).Committed() == es
  }

  ghost predicate AnsweredWithin(run: seq<State>, since: nat, q: Query, answer: int) {
    exists k :: since <= k < |run| && answer == Answer(Abs(run[k]), q)
  }

  ghost predicate HoldsEntry(s: State, q: Query, buf: nat, i: nat) {
    buf < |s.bufs| && i < |s.bufs[buf].Committed()| && s.bufs[buf].Committed()[i].hash == KeyOf(q)
  }

  ghost predicate ReaderOk(run: seq<State>, h: History, rd: Reader)
    requires run != []
  {
    var s := run[|run| - 1];
    match rd
    case Quiet => true
    case HaveBuffer(_, since, buf) => Published(s, buf) && since <= Last(h.bufLast, buf)
    case Scanning(q, since, buf, count, i) =>
      && Published(s, buf) && since <= Last(h.bufLast, buf)
      && i < count <= |s.bufs[buf].Committed()|
      && Snapshot(run, since, s.bufs[buf].Committed()[..count])
      && (forall j :: 0 <= j < i ==> s.bufs[buf].Committed()[j].hash != KeyOf(q))
      && !q.FieldCount?
    case Found(q, since, buf, i) =>
      && Published(s, buf) && since <= Last(h.bufLast, buf) && HoldsEntry(s, q, buf, i)
      && (q.TypeOf? || q.Get?)
    case Typed(q, since, buf, i) =>
      && Published(s, buf) && since <= Last(h.bufLast, buf) && HoldsEntry(s, q, buf, i)
      && q.Get? && s.bufs[buf].Committed()[i].typeId == q.typeId
    case HaveBlock(q, since, buf, i, val) =>
      && Published(s, buf) && since <= Last(h.bufLast, buf) && HoldsEntry(s, q, buf, i)
      && q.Get? && s.bufs[buf].Committed()[i].typeId == q.typeId && s.bufs[buf].Committed()[i].val == val
    case Done(q, since, answer) => AnsweredWithin(run, since, q, answer)
  }

  ghost predicate Good(run: seq<State>, h: History) {
    && run != []
    && var s := run[|run| - 1];
    && s.now == |run| - 1
    && Inv(s, h.owner)
    && (forall k :: 0 <= k < |run| ==> Distinct(Abs(run[k])))
    && |h.bufLast| == |s.bufs| && |h.blockLast| == |s.blocks|
    && (forall a: nat :: Published(s, a) ==> BufferFrozen(run, h, a))
    && (forall a: nat, i: nat :: Published(s, a) && i < |s.bufs[a].Committed()| ==> EntryFrozen(run, h, a, s.bufs[a].Committed()[i]))
    && (forall r :: r in s.readers ==> ReaderOk(run, h, s.readers[r]))
  }

  // ---- Answers -----------------------------------------------------------------------------

  /** A field of a value with distinct keys determines the answers about its key. */
  lemma FieldAnswers(fields: seq<Field<nat, int>>, f: Field<nat, int>, q: Query)
    requires Distinct(fields) && f in fields && KeyOf(q) == f.key
    ensures q.HasField? ==> Answer(fields, q) == 1
    ensures q.TypeOf? ==> Answer(fields, q) == f.typeId
    ensures q.Get? ==> Answer(fields, q) == if f.typeId == q.typeId then f.value else 0
  {
    var i :| 0 <= i < |fields| && fields[i] == f;
    IndexIs(fields, i);
  }

  /** An instant whose entries lack the key answers a lookup with nothing. */
  lemma SnapshotAnswersAbsent(run: seq<State>, since: nat, es: seq<Entry>, q: Query)
    requires Snapshot(run, since, es) && !q.FieldCount?
    requires forall j :: 0 <= j < |es| ==> es[j].hash != KeyOf(q)
    ensures AnsweredWithin(run, since, q, 0)
  {
    var k :| since <= k < |run| && Current(run[k]).Committed() == es;
    assert forall j :: 0 <= j < |Abs(run[k])| ==> Abs(run[k])[j] == FieldOf(es[j], run[k].blocks);
    AbsentIsNotHas(Abs(run[k]), KeyOf(q));
    assert 0 == Answer(Abs(run[k]), q);
  }

  ghost predicate Replies(f: Field<nat, int>, q: Query, answer: int) {
    match q
    case FieldCount => false
    case HasField(_) => answer == 1
    case TypeOf(_) => answer == f.typeId
    case Get(_, typeId) => answer == if f.typeId == typeId then f.value else 0
  }

  /** A committed entry answers lookups of its key at the last instant its block was live. */
  lemma EntryAnswers(run: seq<State>, h: History, a: nat, i: nat, since: nat, q: Query, answer: int)
    requires Good(run, h) && Published(run[|run| - 1], a) && since <= Last(h.bufLast, a)
    requires HoldsEntry(run[|run| - 1], q, a, i)
    requires Replies(FieldOf(run[|run| - 1].bufs[a].Committed()[i], run[|run| - 1].blocks), q, answer)
    ensures AnsweredWithin(run, since, q, answer)
  {
    var s := run[|run| - 1];
    var e := s.bufs[a].Committed()[i];
    assert EntryFrozen(run, h, a, e);
    var k := Last(h.blockLast, e.val);
    FieldAnswers(Abs(run[k]), FieldOf(e, s.blocks), q);
    assert since <= k < |run| && answer == Answer(Abs(run[k]), q);
  }

  // ---- One more step -----------------------------------------------------------------------

  ghost function Extend(run: seq<State>, step: Step): seq<State>
    requires run != []
  {
    run + [Next(run[|run| - 1], step)]
  }

  lemma PublishedGrows(s: State, step: Step, owner: seq<Entry>, a: nat)
    requires Inv(s, owner) && Enabled(s, step)
    ensures Published(s, a) ==> Published(Next(s, step), a)
    ensures Published(Next(s, step), a) ==> Published(s, a) || Next(s, step).slot == At(a)
    ensures s.slot == At(a) ==> Published(s, a)
  {
  }

  lemma BufferStaysFrozen(run: seq<State>, step: Step, h: History, a: nat)
    requires Good(run, h) && Enabled(run[|run| - 1], step)
    requires Published(Next(run[|run| - 1], step), a)
    ensures BufferFrozen(Extend(run, step), Advance(run, step, h), a)
  {
    var s := run[|run| - 1];
    PublishedGrows(s, step, h.owner, a);
    if Next(s, step).slot != At(a) {
      assert BufferFrozen(run, h, a);
      BuffersAreStable(s, step, h.owner, a);
    }
  }

  lemma LastGrows(run: seq<State>, step: Step, h: History, a: nat)
    requires Good(run, h) && Enabled(run[|run| - 1], step) && Published(run[|run| - 1], a)
    ensures Last(h.bufLast, a) <= Last(Advance(run, step, h).bufLast, a)
    ensures a < |Next(run[|run| - 1], step).bufs|
    ensures run[|run| - 1].bufs[a].Committed() <= Next(run[|run| - 1], step).bufs[a].Committed()
  {
    assert BufferFrozen(run, h, a);
    BuffersAreStable(run[|run| - 1], step, h.owner, a);
  }

  /** An entry whose block is live is the current buffer's own entry for that block. */
  lemma LiveEntryIsInAbs(s: State, owner: seq<Entry>, a: nat, i: nat)
    requires Inv(s, owner) && a < |s.bufs| && i < |s.bufs[a].Committed()|
    requires Live(s, s.bufs[a].Committed()[i].val)
    ensures FieldOf(s.bufs[a].Committed()[i], s.blocks) in Abs(s)
  {
    var e := s.bufs[a].Committed()[i];
    var j :| 0 <= j < |Current(s).Committed()| && Current(s).Committed()[j].val == e.val;
    assert BufferOk(s.bufs[a], owner) && BufferOk(Current(s), owner);
    assert Current(s).entries[j] == owner[e.val] == s.bufs[a].entries[i];
    assert Abs(s)[j] == FieldOf(e, s.blocks);
  }

  ghost predicate Prolongs(run: seq<State>, run': seq<State>) {
    run != [] && |run'| == |run| + 1 && forall k :: 0 <= k < |run| ==> run'[k] == run[k]
  }

  lemma LiveEntryIsFrozen(run: seq<State>, h: History, a: nat, i: nat)
    requires run != [] && var s := run[|run| - 1];
             && Inv(s, h.owner) && a < |s.bufs| && i < |s.bufs[a].Committed()|
             && Live(s, s.bufs[a].Committed()[i].val)
             && Last(h.bufLast, a) < |run|
             && Last(h.blockLast, s.bufs[a].Committed()[i].val) == |run| - 1
    ensures EntryFrozen(run, h, a, run[|run| - 1].bufs[a].Committed()[i])
  {
    var s := run[|run| - 1];
    assert BufferOk(s.bufs[a], h.owner);
    assert s.bufs[a].Committed()[i] == s.bufs[a].entries[i];
    LiveEntryIsInAbs(s, h.owner, a, i);
  }

  lemma DetachedEntryIsFrozen(run: seq<State>, run': seq<State>, h: History, h': History, a: nat, e: Entry)
    requires Prolongs(run, run') && EntryFrozen(run, h, a, e)
    requires var s' := run'[|run|];
             && e.val < |s'.blocks| && s'.blocks[e.val] == run[|run| - 1].blocks[e.val]
             && !Live(s', e.val)
             && Last(h'.bufLast, a) == Last(h.bufLast, a)
             && Last(h'.blockLast, e.val) == Last(h.blockLast, e.val)
    ensures EntryFrozen(run', h', a, e)
  {
  }

  lemma DetachedWordStays(s: State, step: Step, owner: seq<Entry>, v: nat)
    requires Inv(s, owner) && Enabled(s, step) && v < |s.blocks| && !Live(Next(s, step), v)
    ensures Next(s, step).blocks[v] == s.blocks[v]
  {
    BlocksAreStable(s, step, v);
    if step.WriterStep? && s.writer.Overwriting? {
      assert BufferOk(Current(s), owner);
      assert Current(Next(s, step)).Committed()[s.writer.idx] == Current(s).EntryAt(s.writer.idx);
    }
  }

  lemma EntryStaysFrozen(run: seq<State>, step: Step, h: History, a: nat, i: nat)
    requires Good(run, h) && Enabled(run[|run| - 1], step)
    requires Inv(Next(run[|run| - 1], step), Advance(run, step, h).owner)
    requires Published(Next(run[|run| - 1], step), a) && i < |Next(run[|run| - 1], step).bufs[a].Committed()|
    ensures EntryFrozen(Extend(run, step), Advance(run, step, h), a, Next(run[|run| - 1], step).bufs[a].Committed()[i])
  {
    hide Inv;
    var s, run', h' := run[|run| - 1], Extend(run, step), Advance(run, step, h);
    var s' := Next(s, step);
    var e := s'.bufs[a].Committed()[i];
    BufferStaysFrozen(run, step, h, a);
    CommittedVal(s', h'.owner, a, i);
    if Live(s', e.val) {
      LiveEntryIsFrozen(run', h', a, i);
    } else {
      OldEntry(run, step, h, a, i);
      DetachedWordStays(s, step, h.owner, e.val);
      DetachedEntryIsFrozen(run, run', h, h', a, e);
    }
  }

  lemma CommittedEntryAt(s: State, owner: seq<Entry>, a: nat, i: nat)
    requires Inv(s, owner) && a < |s.bufs| && i < |s.bufs[a].Committed()|
    ensures BufferAt(s, a).EntryAt(i) == s.bufs[a].Committed()[i]
  {
    assert BufferOk(s.bufs[a], owner);
  }

  lemma CommittedVal(s: State, owner: seq<Entry>, a: nat, i: nat)
    requires Inv(s, owner) && a < |s.bufs| && i < |s.bufs[a].Committed()|
    ensures s.bufs[a].Committed()[i].val < |s.blocks|
  {
    assert BufferOk(s.bufs[a], owner);
  }

  lemma CurrentEntryIsLive(s: State, a: nat, i: nat)
    requires a < |s.bufs| && i < |s.bufs[a].Committed()| && s.slot == At(a)
    ensures Live(s, s.bufs[a].Committed()[i].val)
  {
    assert Current(s).Committed()[i].val == s.bufs[a].Committed()[i].val;
  }

  lemma SupersededIsUnchanged(s: State, step: Step, owner: seq<Entry>, a: nat)
    requires Inv(s, owner) && Enabled(s, step)
    requires Published(Next(s, step), a) && Next(s, step).slot != At(a)
    ensures Published(s, a) && Next(s, step).bufs[a] == s.bufs[a]
  {
    PublishedGrows(s, step, owner, a);
    BuffersAreStable(s, step, owner, a);
  }

  /** An entry whose block is no longer live belongs to a superseded buffer, unchanged by the step. */
  lemma OldEntry(run: seq<State>, step: Step, h: History, a: nat, i: nat)
    requires Good(run, h) && Enabled(run[|run| - 1], step)
    requires Published(Next(run[|run| - 1], step), a) && i < |Next(run[|run| - 1], step).bufs[a].Committed()|
    requires !Live(Next(run[|run| - 1], step), Next(run[|run| - 1], step).bufs[a].Committed()[i].val)
    ensures Next(run[|run| - 1], step).slot != At(a)
    ensures EntryFrozen(run, h, a, Next(run[|run| - 1], step).bufs[a].Committed()[i])
  {
    var s' := Next(run[|run| - 1], step);
    if s'.slot == At(a) {
      CurrentEntryIsLive(s', a, i);
    }
    SupersededIsUnchanged(run[|run| - 1], step, h.owner, a);
  }

  lemma ScanningStays(run: seq<State>, run': seq<State>, h: History, h': History, rd: Reader)
    requires Prolongs(run, run') && rd.Scanning? && ReaderOk(run, h, rd)
    requires Published(run'[|run|], rd.buf) && Last(h.bufLast, rd.buf) <= Last(h'.bufLast, rd.buf)
    requires run[|run| - 1].bufs[rd.buf].Committed() <= run'[|run|].bufs[rd.buf].Committed()
    ensures ReaderOk(run', h', rd)
  {
    var es := run[|run| - 1].bufs[rd.buf].Committed()[..rd.count];
    var k :| rd.since <= k < |run| && Current(run[k]).Committed() == es;
    assert Current(run'[k]).Committed() == es;
    assert run'[|run|].bufs[rd.buf].Committed()[..rd.count] == es;
    assert forall j :: 0 <= j < rd.count ==> es[j] == run'[|run|].bufs[rd.buf].Committed()[j];
  }

  lemma BusyStays(run: seq<State>, run': seq<State>, h: History, h': History, rd: Reader)
    requires Prolongs(run, run') && Busy(rd) && ReaderOk(run, h, rd)
    requires Published(run'[|run|], rd.buf) && Last(h.bufLast, rd.buf) <= Last(h'.bufLast, rd.buf)
    requires run[|run| - 1].bufs[rd.buf].Committed() <= run'[|run|].bufs[rd.buf].Committed()
    ensures ReaderOk(run', h', rd)
  {
    if rd.Scanning? {
      ScanningStays(run, run', h, h', rd);
    }
  }

  lemma DoneStays(run: seq<State>, run': seq<State>, h: History, h': History, rd: Reader)
    requires Prolongs(run, run') && rd.Done? && ReaderOk(run, h, rd)
    ensures ReaderOk(run', h', rd)
  {
    var k :| rd.since <= k < |run| && rd.answer == Answer(Abs(run[k]), rd.q);
    assert rd.answer == Answer(Abs(run'[k]), rd.q);
  }

  lemma ReaderStays(run: seq<State>, step: Step, h: History, rd: Reader)
    requires Good(run, h) && Enabled(run[|run| - 1], step) && ReaderOk(run, h, rd)
    ensures ReaderOk(Extend(run, step), Advance(run, step, h), rd)
  {
    var run', h' := Extend(run, step), Advance(run, step, h);
    if Busy(rd) {
      PublishedGrows(run[|run| - 1], step, h.owner, rd.buf);
      LastGrows(run, step, h, rd.buf);
      BusyStays(run, run', h, h', rd);
    } else if rd.Done? {
      DoneStays(run, run', h, h', rd);
    }
  }

  lemma CountingReads(run: seq<State>, h: History, rd: Reader)
    requires Good(run, h) && rd.HaveBuffer? && ReaderOk(run, h, rd)
    ensures ReaderOk(run, h, ReaderNext(run[|run| - 1], rd))
  {
    var s := run[|run| - 1];
    assert BufferFrozen(run, h, rd.buf);
    assert BufferOk(s.bufs[rd.buf], h.owner);
    var k := Last(h.bufLast, rd.buf);
    var es := s.bufs[rd.buf].Committed();
    assert Current(run[k]).Committed() == es == es[..|es|];
    assert Snapshot(run, rd.since, es);
    assert |Abs(run[k])| == |es|;
    if rd.q.FieldCount? {
      assert |es| == Answer(Abs(run[k]), rd.q);
    } else if |es| == 0 {
      SnapshotAnswersAbsent(run, rd.since, es, rd.q);
    }
  }

  ghost predicate Mismatch(run: seq<State>, rd: Reader)
    requires run != [] && rd.Scanning?
  {
    var s := run[|run| - 1];
    rd.buf < |s.bufs| && rd.i < |s.bufs[rd.buf].Committed()| && s.bufs[rd.buf].Committed()[rd.i].hash != KeyOf(rd.q)
  }

  /** The scan passed the last counted entry without a match. */
  lemma ScanExhausted(run: seq<State>, h: History, rd: Reader)
    requires run != [] && rd.Scanning? && ReaderOk(run, h, rd) && Mismatch(run, rd) && rd.i + 1 == rd.count
    ensures ReaderOk(run, h, Done(rd.q, rd.since, 0))
  {
    var es := run[|run| - 1].bufs[rd.buf].Committed()[..rd.count];
    assert forall j :: 0 <= j < |es| ==> es[j].hash != KeyOf(rd.q);
    SnapshotAnswersAbsent(run, rd.since, es, rd.q);
  }

  lemma ScanAdvances(run: seq<State>, h: History, rd: Reader)
    requires run != [] && rd.Scanning? && ReaderOk(run, h, rd) && Mismatch(run, rd) && rd.i + 1 < rd.count
    ensures ReaderOk(run, h, Scanning(rd.q, rd.since, rd.buf, rd.count, rd.i + 1))
  {
  }

  lemma ScanHits(run: seq<State>, h: History, rd: Reader)
    requires Good(run, h) && rd.Scanning? && ReaderOk(run, h, rd) && !Mismatch(run, rd)
    ensures rd.q.HasField? ==> ReaderOk(run, h, Done(rd.q, rd.since, 1))
    ensures !rd.q.HasField? ==> ReaderOk(run, h, Found(rd.q, rd.since, rd.buf, rd.i))
  {
    if rd.q.HasField? {
      EntryAnswers(run, h, rd.buf, rd.i, rd.since, rd.q, 1);
    }
  }

  lemma ScanProgress(run: seq<State>, h: History, rd: Reader)
    requires Good(run, h) && rd.Scanning? && ReaderOk(run, h, rd)
    ensures ReaderOk(run, h, ReaderNext(run[|run| - 1], rd))
  {
    CommittedEntryAt(run[|run| - 1], h.owner, rd.buf, rd.i);
    if !Mismatch(run, rd) {
      ScanHits(run, h, rd);
    } else if rd.i + 1 < rd.count {
      ScanAdvances(run, h, rd);
    } else {
      ScanExhausted(run, h, rd);
    }
  }

  lemma FoundProgress(run: seq<State>, h: History, rd: Reader)
    requires Good(run, h) && rd.Found? && ReaderOk(run, h, rd)
    ensures ReaderOk(run, h, ReaderNext(run[|run| - 1], rd))
  {
    var s := run[|run| - 1];
    var e := s.bufs[rd.buf].Committed()[rd.i];
    CommittedEntryAt(s, h.owner, rd.buf, rd.i);
    if rd.q.TypeOf? {
      EntryAnswers(run, h, rd.buf, rd.i, rd.since, rd.q, e.typeId);
      assert ReaderNext(s, rd) == Done(rd.q, rd.since, e.typeId);
    } else if e.typeId != rd.q.typeId {
      EntryAnswers(run, h, rd.buf, rd.i, rd.since, rd.q, 0);
      assert ReaderNext(s, rd) == Done(rd.q, rd.since, 0);
    }
  }

  lemma ValueProgress(run: seq<State>, h: History, rd: Reader)
    requires Good(run, h) && (rd.Typed? || rd.HaveBlock?) && ReaderOk(run, h, rd)
    ensures ReaderOk(run, h, ReaderNext(run[|run| - 1], rd))
  {
    var s := run[|run| - 1];
    CommittedEntryAt(s, h.owner, rd.buf, rd.i);
    if rd.HaveBlock? {
      EntryAnswers(run, h, rd.buf, rd.i, rd.since, rd.q, Word(s.blocks, rd.val));
      assert ReaderNext(s, rd) == Done(rd.q, rd.since, Word(s.blocks, rd.val));
    }
  }

  lemma ReaderProgress(run: seq<State>, h: History, rd: Reader)
    requires Good(run, h) && Busy(rd) && ReaderOk(run, h, rd)
    ensures ReaderOk(run, h, ReaderNext(run[|run| - 1], rd))
  {
    if rd.HaveBuffer? {
      CountingReads(run, h, rd);
    } else if rd.Scanning? {
      ScanProgress(run, h, rd);
    } else if rd.Found? {
      FoundProgress(run, h, rd);
    } else {
      ValueProgress(run, h, rd);
    }
  }

  lemma InvokedOk(run: seq<State>, h: History, q: Query)
    requires Good(run, h)
    ensures ReaderOk(run, h, Invoked(run[|run| - 1], q))
  {
    var s := run[|run| - 1];
    if s.slot.Null? {
      assert 0 == Answer(Abs(s), q);
    } else {
      assert BufferFrozen(run, h, s.slot.addr);
    }
  }

  lemma NextReader(s: State, step: Step, r: nat)
    requires Enabled(s, step) && r in Next(s, step).readers
    ensures Next(s, step).readers[r] ==
            if step == ReaderStep(r) then ReaderNext(s, ReaderAt(s, r))
            else if step.Invoke? && step.reader == r then Invoked(s, step.query)
            else ReaderAt(s, r)
    ensures step == ReaderStep(r) ==> Busy(ReaderAt(s, r)) && r in s.readers
    ensures r in s.readers || (step.Invoke? && step.reader == r)
  {
  }

  lemma ReaderAfterStep(run: seq<State>, step: Step, h: History, r: nat)
    requires Good(run, h) && Enabled(run[|run| - 1], step) && r in Next(run[|run| - 1], step).readers
    ensures ReaderOk(run, h, Next(run[|run| - 1], step).readers[r])
  {
    var s := run[|run| - 1];
    NextReader(s, step, r);
    if step == ReaderStep(r) {
      ReaderProgress(run, h, s.readers[r]);
    } else if step.Invoke? && step.reader == r {
      InvokedOk(run, h, step.query);
    }
  }

  lemma ReadersStayOk(run: seq<State>, step: Step, h: History, r: nat)
    requires Good(run, h) && Enabled(run[|run| - 1], step) && r in Next(run[|run| - 1], step).readers
    ensures ReaderOk(Extend(run, step), Advance(run, step, h), Next(run[|run| - 1], step).readers[r])
  {
    ReaderAfterStep(run, step, h, r);
    ReaderStays(run, step, h, Next(run[|run| - 1], step).readers[r]);
  }

  lemma StepKeepsGood(run: seq<State>, step: Step, h: History)
    requires Good(run, h) && Enabled(run[|run| - 1], step)
    ensures Good(Extend(run, step), Advance(run, step, h))
  {
    hide Inv, BufferFrozen, EntryFrozen, ReaderOk, Enabled;
    var run', h' := Extend(run, step), Advance(run, step, h);
    var s' := run'[|run'| - 1];
    StepKeepsInv(run[|run| - 1], step, h.owner);
    AbsFacts(s', h'.owner);
    forall a: nat | Published(s', a) ensures BufferFrozen(run', h', a) {
      BufferStaysFrozen(run, step, h, a);
    }
    forall a: nat, i: nat | Published(s', a) && i < |s'.bufs[a].Committed()|
      ensures EntryFrozen(run', h', a, s'.bufs[a].Committed()[i])
    {
      EntryStaysFrozen(run, step, h, a, i);
    }
    forall r | r in s'.readers ensures ReaderOk(run', h', s'.readers[r]) {
      ReadersStayOk(run, step, h, r);
    }
  }

  lemma PrefixIsRun(run: seq<State>, steps: seq<Step>, j: nat)
    requires IsRun(run, steps) && j <= |steps|
    ensures IsRun(run[..j + 1], steps[..j])
  {
  }

  lemma LastStep(run: seq<State>, steps: seq<Step>)
    requires IsRun(run, steps) && steps != []
    ensures var n := |steps| - 1;
            IsRun(run[..n + 1], steps[..n]) && Enabled(run[..n + 1][n], steps[n]) && run == Extend(run[..n + 1], steps[n])
  {
    PrefixIsRun(run, steps, |steps| - 1);
  }

  lemma EmptyRunIsGood(run: seq<State>)
    requires IsRun(run, [])
    ensures Good(run, History([], [], []))
  {
    hide Next, Enabled, BufferFrozen, EntryFrozen, ReaderOk;
  }

  lemma {:induction false} RunIsGood(run: seq<State>, steps: seq<Step>) returns (h: History)
    requires IsRun(run, steps)
    ensures Good(run, h)
    decreases |steps|
  {
    if steps == [] {
      h := History([], [], []);
      EmptyRunIsGood(run);
    } else {
      var n := |steps| - 1;
      LastStep(run, steps);
      var before := RunIsGood(run[..n + 1], steps[..n]);
      StepKeepsGood(run[..n + 1], steps[n], before);
      h := Advance(run[..n + 1], steps[n], before);
    }
  }

  /** Linearizability: whatever the interleaving, a read that has returned at j answered what the
      abstract object answers at some instant between the call's first load and j. */
  lemma ReadsAreLinearizable(run: seq<State>, steps: seq<Step>, j: nat, r: nat)
    requires IsRun(run, steps) && j <= |steps|
    requires ReaderAt(run[j], r).Done?
    ensures exists k :: ReaderAt(run[j], r).since <= k <= j && Agrees(run, k, ReaderAt(run[j], r))
  {
    PrefixIsRun(run, steps, j);
    var h := RunIsGood(run[..j + 1], steps[..j]);
    var rd := ReaderAt(run[j], r);
    assert ReaderOk(run[..j + 1], h, rd);
    var k :| rd.since <= k < j + 1 && rd.answer == Answer(Abs(run[..j + 1][k]), rd.q);
    assert Agrees(run, k, rd);
  }

  /** The read answered what the abstract object answers after k steps. */
  ghost predicate Agrees(run: seq<State>, k: int, rd: Reader) {
    0 <= k < |run| && rd.Done? && rd.answer == Answer(Abs(run[k]), rd.q)
  }

  // ---- Fields the writer leaves alone ------------------------------------------------------

  /** What becomes visible with a step is nothing, or concerns another key. */
  predicate Spares(op: Operation, key: nat) {
    match op
    case Nothing => true
    case PutOp(k, _, _) => k != key
    case RemoveOp(k) => k != key
  }

  ghost predicate LeavesAlone(run: seq<State>, steps: seq<Step>, start: nat, end: nat, key: nat)
    requires end <= |steps| < |run|
  {
    forall k :: start <= k < end ==> Spares(Visible(run[k], steps[k]), key)
  }

  lemma SparedAnswer(fields: seq<Field<nat, int>>, op: Operation, q: Query)
    requires Distinct(fields) && !q.FieldCount? && Spares(op, KeyOf(q))
    ensures Answer(Perform(fields, op), q) == Answer(fields, q)
  {
    match op
    case Nothing =>
    case PutOp(key, typeId, word) =>
      IndexAfterPut(fields, key, typeId, word, KeyOf(q));
    case RemoveOp(key) =>
      LookupAfterWithout(fields, key, KeyOf(q));
  }

  /** The object answers the same before and after steps that do not concern the key. */
  lemma {:induction false} UntouchedAnswer(run: seq<State>, steps: seq<Step>, start: nat, end: nat, q: Query)
    requires IsRun(run, steps) && start <= end <= |steps| && !q.FieldCount?
    requires LeavesAlone(run, steps, start, end, KeyOf(q))
    ensures Answer(Abs(run[end]), q) == Answer(Abs(run[start]), q)
    decreases end
  {
    hide Abs, Answer, Visible, Perform, Spares, Next, Enabled;
    if start < end {
      UntouchedAnswer(run, steps, start, end - 1, q);
      DistinctThroughout(run, steps, end - 1);
      assert Spares(Visible(run[end - 1], steps[end - 1]), KeyOf(q));
      SparedAnswer(Abs(run[end - 1]), Visible(run[end - 1], steps[end - 1]), q);
    }
  }

  /** At every instant keys are distinct, and the step taken there performs what it makes visible. */
  lemma DistinctThroughout(run: seq<State>, steps: seq<Step>, k: nat)
    requires IsRun(run, steps) && k <= |steps|
    ensures Distinct(Abs(run[k]))
    ensures k < |steps| ==> Abs(run[k + 1]) == Perform(Abs(run[k]), Visible(run[k], steps[k]))
  {
    hide Abs, Visible, Perform, Next, Enabled, Inv;
    PrefixIsRun(run, steps, k);
    var owner := RunKeepsInv(run[..k + 1], steps[..k]);
    AbsFacts(run[k], owner);
    if k < |steps| {
      StepRefines(run[k], steps[k], owner);
    }
  }

  /** Whatever else the writer adds and removes meanwhile, a field it leaves alone reads as it stood. */
  lemma StableFieldsAreAlwaysSeen(run: seq<State>, steps: seq<Step>, j: nat, r: nat)
    requires IsRun(run, steps) && j <= |steps|
    requires ReaderAt(run[j], r).Done? && !ReaderAt(run[j], r).q.FieldCount?
    requires var rd := ReaderAt(run[j], r); LeavesAlone(run, steps, rd.since, j, KeyOf(rd.q))
    ensures var rd := ReaderAt(run[j], r); rd.since <= j && rd.answer == Answer(Abs(run[rd.since]), rd.q)
  {
    hide Abs, Answer, Next, Enabled;
    ReadsAreLinearizable(run, steps, j, r);
    var rd := ReaderAt(run[j], r);
    var k: nat :| rd.since <= k <= j && Agrees(run, k, rd);
    UntouchedAnswer(run, steps, rd.since, k, rd.q);
  }

  /** Only one field comes and goes. */
  ghost predicate OnlyTouches(run: seq<State>, steps: seq<Step>, start: nat, end: nat, marker: nat)
    requires end <= |steps| < |run|
  {
    forall k :: start <= k < end ==> forall other: nat :: other != marker ==> Spares(Visible(run[k], steps[k]), other)
  }

  /** The fields beside the one that comes and goes. */
  function Beside(fields: seq<Field<nat, int>>, marker: nat): nat {
    |fields| - if Has(fields, marker) then 1 else 0
  }

  lemma MarkerKeepsBeside(fields: seq<Field<nat, int>>, op: Operation, marker: nat)
    requires Distinct(fields) && forall other: nat :: other != marker ==> Spares(op, other)
    ensures Beside(Perform(fields, op), marker) == Beside(fields, marker)
  {
    match op
    case Nothing =>
    case PutOp(key, typeId, word) =>
      assert Spares(op, key) || key == marker;
      IndexAfterPut(fields, key, typeId, word, marker);
    case RemoveOp(key) =>
      assert Spares(op, key) || key == marker;
      WithoutKeepsDistinct(fields, key);
      AbsentIsNotHas(Without(fields, key), key);
  }

  lemma {:induction false} BesideIsConstant(run: seq<State>, steps: seq<Step>, start: nat, end: nat, marker: nat)
    requires IsRun(run, steps) && start <= end <= |steps| && OnlyTouches(run, steps, start, end, marker)
    ensures Beside(Abs(run[end]), marker) == Beside(Abs(run[start]), marker)
    decreases end
  {
    hide Abs, Visible, Perform, Spares, Next, Enabled, Beside;
    if start < end {
      BesideIsConstant(run, steps, start, end - 1, marker);
      DistinctThroughout(run, steps, end - 1);
      MarkerKeepsBeside(Abs(run[end - 1]), Visible(run[end - 1], steps[end - 1]), marker);
    }
  }

  /** While one field is added and removed beside n stable ones, every count read is n or n + 1. */
  lemma CountsStayWithinOne(run: seq<State>, steps: seq<Step>, j: nat, r: nat, marker: nat)
    requires IsRun(run, steps) && j <= |steps|
    requires ReaderAt(run[j], r).Done? && ReaderAt(run[j], r).q.FieldCount?
    requires OnlyTouches(run, steps, ReaderAt(run[j], r).since, j, marker)
    ensures var rd := ReaderAt(run[j], r);
            rd.since <= j && Beside(Abs(run[rd.since]), marker) <= rd.answer <= Beside(Abs(run[rd.since]), marker) + 1
  {
    hide Abs, Next, Enabled, Visible, Spares;
    ReadsAreLinearizable(run, steps, j, r);
    var rd := ReaderAt(run[j], r);
    var k: nat :| rd.since <= k <= j && Agrees(run, k, rd);
    BesideIsConstant(run, steps, rd.since, k, marker);
  }

  /** Reads that follow one another never see the object go back in time. */
  lemma ReadsDoNotGoBack(run: seq<State>, steps: seq<Step>, i: nat, r: nat, j: nat, r': nat)
    requires IsRun(run, steps) && i <= j <= |steps|
    requires ReaderAt(run[i], r).Done? && ReaderAt(run[j], r').Done? && i <= ReaderAt(run[j], r').since
    ensures exists k, k' :: ReaderAt(run[i], r).since <= k <= i && k <= k' <= j
                            && Agrees(run, k, ReaderAt(run[i], r)) && Agrees(run, k', ReaderAt(run[j], r'))
  {
    ReadsAreLinearizable(run, steps, i, r);
    ReadsAreLinearizable(run, steps, j, r');
    var k :| ReaderAt(run[i], r).since <= k <= i && Agrees(run, k, ReaderAt(run[i], r));
    var k' :| ReaderAt(run[j], r').since <= k' <= j && Agrees(run, k', ReaderAt(run[j], r'));
  }

  /** No removal becomes visible in these steps. */
  ghost predicate OnlyAdds(run: seq<State>, steps: seq<Step>, start: nat, end: nat)
    requires end <= |steps| < |run|
  {
    forall k :: start <= k < end ==> !Visible(run[k], steps[k]).RemoveOp?
  }

  lemma PutNeverLowers(fields: seq<Field<nat, int>>, op: Operation, q: Query)
    requires Distinct(fields) && !op.RemoveOp? && (q.FieldCount? || q.HasField?)
    ensures Answer(fields, q) <= Answer(Perform(fields, op), q)
  {
    if op.PutOp? && q.HasField? {
      IndexAfterPut(fields, op.key, op.typeId, op.word, q.key);
    }
  }

  lemma {:induction false} AnswersRise(run: seq<State>, steps: seq<Step>, start: nat, end: nat, q: Query)
    requires IsRun(run, steps) && start <= end <= |steps| && (q.FieldCount? || q.HasField?)
    requires OnlyAdds(run, steps, start, end)
    ensures Answer(Abs(run[start]), q) <= Answer(Abs(run[end]), q)
    decreases end
  {
    hide Abs, Answer, Visible, Perform, Next, Enabled;
    if start < end {
      AnswersRise(run, steps, start, end - 1, q);
      DistinctThroughout(run, steps, end - 1);
      PutNeverLowers(Abs(run[end - 1]), Visible(run[end - 1], steps[end - 1]), q);
    }
  }

  /** Of two reads that follow one another, by any two readers, the later one finds no fewer fields and
      every field the earlier one found, as long as nothing is removed meanwhile. */
  lemma NothingDisappears(run: seq<State>, steps: seq<Step>, i: nat, r: nat, j: nat, r': nat)
    requires IsRun(run, steps) && i <= j <= |steps|
    requires ReaderAt(run[i], r).Done? && ReaderAt(run[j], r').Done? && i <= ReaderAt(run[j], r').since
    requires ReaderAt(run[i], r).q == ReaderAt(run[j], r').q
    requires ReaderAt(run[i], r).q.FieldCount? || ReaderAt(run[i], r).q.HasField?
    requires OnlyAdds(run, steps, ReaderAt(run[i], r).since, j)
    ensures ReaderAt(run[i], r).answer <= ReaderAt(run[j], r').answer
  {
    ReadsDoNotGoBack(run, steps, i, r, j, r');
    var k, k' :| ReaderAt(run[i], r).since <= k <= i && k <= k' <= j
                 && Agrees(run, k, ReaderAt(run[i], r)) && Agrees(run, k', ReaderAt(run[j], r'));
    AnswersRise(run, steps, k, k', ReaderAt(run[i], r).q);
  }

  /** `since` is honest: it is the position of the call's own pointer load, and the reader has made no
      other call after it. */
  lemma {:induction false} CallBeganAt(run: seq<State>, steps: seq<Step>, r: nat)
    requires IsRun(run, steps)
    requires !ReaderAt(run[|steps|], r).Quiet?
    ensures var rd := ReaderAt(run[|steps|], r);
            && rd.since < |steps|
            && steps[rd.since] == Invoke(r, rd.q)
            && forall i :: rd.since < i < |steps| ==> !(steps[i].Invoke? && steps[i].reader == r)
    decreases |steps|
  {
    hide Inv, Next, Enabled;
    if steps != [] {
      var n := |steps| - 1;
      var owner := RunKeepsInv(run[..|run| - 1], steps[..n]);
      NextReader(run[n], steps[n], r);
      if !(steps[n].Invoke? && steps[n].reader == r) {
        CallBeganAt(run[..|run| - 1], steps[..n], r);
        var rd := ReaderAt(run[n], r);
        assert steps[..n][rd.since] == steps[rd.since];
        assert forall i :: rd.since < i < n ==> steps[..n][i] == steps[i];
      }
    }
  }

  // ---- Buffers over a whole run ------------------------------------------------------------

  /** What never changes again about a buffer once readers can reach it. */
  ghost predicate Preserved(s: State, t: State, a: nat)
    requires a < |s.bufs|
  {
    && Published(t, a)
    && t.bufs[a].count <= t.bufs[a].Capacity() == s.bufs[a].Capacity()
    && DistinctHashes(t.bufs[a])
    && s.bufs[a].Committed() <= t.bufs[a].Committed()
    && (s.slot != At(a) ==> t.slot != At(a) && t.bufs[a] == s.bufs[a])
  }

  lemma StepPreserves(s: State, step: Step, owner: seq<Entry>, a: nat)
    requires Inv(s, owner) && Enabled(s, step) && Published(s, a)
    ensures Preserved(s, Next(s, step), a)
  {
    StepKeepsInv(s, step, owner);
    PublishedGrows(s, step, owner, a);
    BuffersAreStable(s, step, owner, a);
    assert BufferOk(Next(s, step).bufs[a], NextOwner(s, step, owner));
  }

  /** Published buffers stay well-formed, keep their committed entries for good, and do not change at
      all once superseded. */
  lemma {:induction false} PublishedBuffersPersist(run: seq<State>, steps: seq<Step>, i: nat, a: nat)
    requires IsRun(run, steps) && i <= |steps| && Published(run[i], a)
    ensures Preserved(run[i], run[|steps|], a)
    decreases |steps|
  {
    if i == |steps| {
      var owner := RunKeepsInv(run, steps);
      assert BufferOk(run[i].bufs[a], owner);
    } else {
      var n := |steps| - 1;
      PublishedBuffersPersist(run[..|run| - 1], steps[..n], i, a);
      var owner := RunKeepsInv(run[..|run| - 1], steps[..n]);
      StepPreserves(run[n], steps[n], owner, a);
    }
  }

  ghost predicate Present(s: State, key: nat) {
    Has(Abs(s), key)
  }

  ghost function TypeIn(s: State, key: nat): nat
    requires Present(s, key)
  {
    Abs(s)[IndexOf(Abs(s), key)].typeId
  }

  lemma StepKeepsType(s: State, step: Step, owner: seq<Entry>, key: nat)
    requires Inv(s, owner) && Enabled(s, step) && Present(s, key) && Present(Next(s, step), key)
    ensures TypeIn(Next(s, step), key) == TypeIn(s, key)
  {
    StepRefines(s, step, owner);
    AbsFacts(s, owner);
    var op := Visible(s, step);
    if op.PutOp? {
      IndexAfterPut(Abs(s), op.key, op.typeId, op.word, key);
      if s.writer.Overwriting? {
        IndexIs(Abs(s), s.writer.idx);
      }
    } else if op.RemoveOp? {
      WithoutKeepsDistinct(Abs(s), op.key);
      AbsentIsNotHas(Without(Abs(s), op.key), op.key);
      if op.key != key {
        LookupAfterWithout(Abs(s), op.key, key);
      }
    }
  }

  /** A key keeps the type it was added with for as long as it stays in the object. */
  lemma {:induction false} TypeIsConstant(run: seq<State>, steps: seq<Step>, i: nat, key: nat)
    requires IsRun(run, steps) && i <= |steps|
    requires forall k :: i <= k <= |steps| ==> Present(run[k], key)
    ensures TypeIn(run[|steps|], key) == TypeIn(run[i], key)
    decreases |steps|
  {
    if i < |steps| {
      var n := |steps| - 1;
      assert run[n + 1] == Next(run[n], steps[n]);
      TypeIsConstant(run[..|run| - 1], steps[..n], i, key);
      var owner := RunKeepsInv(run[..|run| - 1], steps[..n]);
      StepKeepsType(run[n], steps[n], owner, key);
    }
  }

  // ---- Wait-freedom ------------------------------------------------------------------------

  /** How many of its own steps a call can still take, whatever the writer does. */
  function Remaining(s: State, rd: Reader): nat {
    match rd
    case Quiet => 0
    case Done(_, _, _) => 0
    case HaveBuffer(_, _, buf) => BufferAt(s, buf).Capacity() + 4
    case Scanning(_, _, _, count, i) => if i < count then count - i + 3 else 3
    case Found(_, _, _, _) => 3
    case Typed(_, _, _, _) => 2
    case HaveBlock(_, _, _, _, _) => 1
  }

  lemma OwnStepsCount(s: State, rd: Reader)
    requires Busy(rd)
    requires rd.HaveBuffer? ==> BufferAt(s, rd.buf).count <= BufferAt(s, rd.buf).Capacity()
    requires rd.Scanning? ==> rd.i < rd.count
    ensures Remaining(s, ReaderNext(s, rd)) < Remaining(s, rd)
  {
  }

  lemma OtherStepsDoNotCount(run: seq<State>, h: History, step: Step, rd: Reader)
    requires Good(run, h) && ReaderOk(run, h, rd) && Enabled(run[|run| - 1], step)
    ensures Remaining(Next(run[|run| - 1], step), rd) == Remaining(run[|run| - 1], rd)
  {
    if rd.HaveBuffer? {
      BuffersAreStable(run[|run| - 1], step, h.owner, rd.buf);
    }
  }

  /** Each reader step uses up at least one remaining step; no other step adds any. */
  lemma StepsRunOut(run: seq<State>, h: History, step: Step, r: nat)
    requires Good(run, h) && Enabled(run[|run| - 1], step)
    requires !(step.Invoke? && step.reader == r)
    ensures var s, s' := run[|run| - 1], Next(run[|run| - 1], step);
            Remaining(s', ReaderAt(s', r)) + (if step == ReaderStep(r) then 1 else 0) <= Remaining(s, ReaderAt(s, r))
  {
    var s := run[|run| - 1];
    if r in Next(s, step).readers {
      NextReader(s, step, r);
      if step == ReaderStep(r) {
        var rd := s.readers[r];
        assert ReaderOk(run, h, rd);
        assert BufferOk(s.bufs[rd.buf], h.owner);
        OwnStepsCount(s, rd);
      }
      ReaderAfterStep(run, step, h, r);
      OtherStepsDoNotCount(run, h, step, Next(s, step).readers[r]);
    }
  }

  function StepsOf(steps: seq<Step>, r: nat): nat {
    if steps == [] then 0
    else StepsOf(steps[..|steps| - 1], r) + (if steps[|steps| - 1] == ReaderStep(r) then 1 else 0)
  }

  /** Wait-freedom: from any instant of a call on, the reader takes at most `Remaining` steps of its
      own, that is count + 3 once the count is loaded, however long the run and whatever it contains. */
  lemma {:induction false} ReadsAreWaitFree(run: seq<State>, steps: seq<Step>, i: nat, r: nat)
    requires IsRun(run, steps) && i <= |steps|
    requires forall j :: i <= j < |steps| ==> !(steps[j].Invoke? && steps[j].reader == r)
    ensures var s := run[|steps|];
            StepsOf(steps[i..], r) + Remaining(s, ReaderAt(s, r)) <= Remaining(run[i], ReaderAt(run[i], r))
    decreases |steps|
  {
    hide Inv, Good, Next, Enabled, Remaining;
    if i < |steps| {
      var n := |steps| - 1;
      LastStep(run, steps);
      ReadsAreWaitFree(run[..n + 1], steps[..n], i, r);
      var h := RunIsGood(run[..n + 1], steps[..n]);
      StepsRunOut(run[..n + 1], h, steps[n], r);
      CountLast(steps, i, r);
    }
  }

  lemma CountLast(steps: seq<Step>, i: nat, r: nat)
    requires i < |steps|
    ensures StepsOf(steps[i..], r)
         == StepsOf(steps[..|steps| - 1][i..], r) + (if steps[|steps| - 1] == ReaderStep(r) then 1 else 0)
  {
    assert steps[i..][..|steps[i..]| - 1] == steps[..|steps| - 1][i..];
  }
}
