/**
 The single-writer/multi-reader string: every set publishes a new immutable buffer, or null for the
 empty string, with one release store. Superseded buffers stay.
 */
module StringProtocol {
  import opened Pointers
  import opened Wrappers

  type Byte = b: nat | b < 256

  /** [len | cap | data]: the data area holds the bytes and a terminating NUL. */
  datatype Buffer = Buffer(len: nat, data: seq<Byte>)

  datatype Writer = Idle | Built(addr: nat) | Emptying

  datatype Query = Get | Length

  /** What `get` hands out: the static empty literal or the data area of a buffer. */
  datatype Answer = Literal | Data(buf: nat) | Size(n: nat)

  datatype Reader = Quiet | HaveBuffer(q: Query, since: nat, buf: nat) | Done(q: Query, since: nat, answer: Answer)

  datatype State = State(now: nat, slot: Ptr, bufs: seq<Buffer>, writer: Writer, readers: map<nat, Reader>)

  const INITIAL: State := State(0, Null, [], Idle, map[])

  /** `Set(None)` passes a null source pointer. */
  datatype Step = Set(str: Option<seq<Byte>>) | Clear | Publish | Invoke(reader: nat, query: Query) | ReaderStep(reader: nat)

  function BufferAt(s: State, a: nat): Buffer {
    if a < |s.bufs| then s.bufs[a] else Buffer(0, [])
  }

  function Text(b: Buffer): seq<Byte> {
    if b.len <= |b.data| then b.data[..b.len] else b.data
  }

  /** The string currently stored. */
  function Abs(s: State): seq<Byte> {
    if s.slot.Null? then [] else Text(BufferAt(s, s.slot.addr))
  }

  /** The bytes an answer designates. */
  function Designated(s: State, answer: Answer): seq<Byte> {
    match answer
    case Literal => []
    case Data(buf) => Text(BufferAt(s, buf))
    case Size(_) => []
  }

  /** A NUL directly after the text, inside the buffer's own data area. */
  predicate Terminated(s: State, answer: Answer) {
    answer.Data? ==>
      && answer.buf < |s.bufs|
      && var b := s.bufs[answer.buf];
      && b.len < |b.data|
      && b.data[b.len] == 0
  }

  function StartSet(s: State, str: Option<seq<Byte>>): State {
    if str.None? || str.value == [] then s.(writer := Emptying)
    else s.(bufs := s.bufs + [Buffer(|str.value|, str.value + [0])], writer := Built(|s.bufs|))
  }

  function ReaderAt(s: State, r: nat): Reader {
    if r in s.readers then s.readers[r] else Quiet
  }

  function Invoked(s: State, q: Query): Reader {
    if s.slot.At? then HaveBuffer(q, s.now, s.slot.addr)
    else Done(q, s.now, if q.Get? then Literal else Size(0))
  }

  function ReaderNext(s: State, rd: Reader): Reader {
    match rd
    case Quiet => rd
    case Done(_, _, _) => rd
    case HaveBuffer(q, since, buf) =>
      var len := BufferAt(s, buf).len;
      Done(q, since, if q.Length? then Size(len) else if len == 0 then Literal else Data(buf))
  }

  predicate Enabled(s: State, step: Step) {
    match step
    case Set(_) => s.writer.Idle?
    case Clear => s.writer.Idle?
    case Publish => !s.writer.Idle?
    case Invoke(r, _) => !ReaderAt(s, r).HaveBuffer?
    case ReaderStep(r) => ReaderAt(s, r).HaveBuffer?
  }

  function Effect(s: State, step: Step): State {
    match step
    case Set(str) => StartSet(s, str)
    case Clear => s.(slot := Null)
    case Publish => s.(slot := if s.writer.Built? then At(s.writer.addr) else Null, writer := Idle)
    case Invoke(r, q) => s.(readers := s.readers[r := Invoked(s, q)])
    case ReaderStep(r) => s.(readers := s.readers[r := ReaderNext(s, ReaderAt(s, r))])
  }

  function Next(s: State, step: Step): State {
    Effect(s, step).(now := s.now + 1)
  }

  ghost predicate IsRun(run: seq<State>, steps: seq<Step>) {
    && |run| == |steps| + 1
    && run[0] == INITIAL
    && forall i :: 0 <= i < |steps| ==> Enabled(run[i], steps[i]) && run[i + 1] == Next(run[i], steps[i])
  }

  // ---- Invariant ---------------------------------------------------------------------------

  ghost predicate BufferOk(b: Buffer) {
    0 < b.len && |b.data| == b.len + 1 && b.data[b.len] == 0
  }

  /** The reader's buffer held the whole current string when the call loaded the pointer. */
  ghost predicate ReaderOk(run: seq<State>, rd: Reader)
    requires run != []
  {
    var s := run[|run| - 1];
    match rd
    case Quiet => true
    case HaveBuffer(_, since, buf) =>
      since < |run| && buf < |s.bufs| && run[since].slot == At(buf) && BufferAt(run[since], buf) == s.bufs[buf]
    case Done(q, since, answer) =>
      && since < |run|
      && (q.Get? <==> !answer.Size?)
      && (q.Get? ==> Terminated(s, answer) && Designated(s, answer) == Abs(run[since]))
      && (q.Length? ==> answer == Size(|Abs(run[since])|))
  }

  ghost predicate Good(run: seq<State>) {
    && run != []
    && var s := run[|run| - 1];
    && s.now == |run| - 1
    && (s.slot.At? ==> s.slot.addr < |s.bufs|)
    && (s.writer.Built? ==> s.writer.addr < |s.bufs|)
    && (forall a :: 0 <= a < |s.bufs| ==> BufferOk(s.bufs[a]))
    && (forall r :: r in s.readers ==> ReaderOk(run, s.readers[r]))
  }

  /** No step changes an existing buffer. */
  lemma BuffersNeverChange(s: State, step: Step, a: nat)
    requires Enabled(s, step) && a < |s.bufs|
    ensures a < |Next(s, step).bufs| && Next(s, step).bufs[a] == s.bufs[a]
  {
  }

  lemma ReaderStays(run: seq<State>, step: Step, rd: Reader)
    requires Good(run) && Enabled(run[|run| - 1], step) && ReaderOk(run, rd)
    ensures ReaderOk(run + [Next(run[|run| - 1], step)], rd)
  {
    if rd.HaveBuffer? {
      BuffersNeverChange(run[|run| - 1], step, rd.buf);
    } else if rd.Done? && rd.answer.Data? {
      BuffersNeverChange(run[|run| - 1], step, rd.answer.buf);
    }
  }

  lemma ReaderAfterStep(run: seq<State>, step: Step, r: nat)
    requires Good(run) && Enabled(run[|run| - 1], step) && r in Next(run[|run| - 1], step).readers
    ensures ReaderOk(run, Next(run[|run| - 1], step).readers[r])
  {
    var s := run[|run| - 1];
    if step == ReaderStep(r) {
      assert ReaderOk(run, s.readers[r]);
    } else if !(step.Invoke? && step.reader == r) {
      assert ReaderOk(run, s.readers[r]);
    }
  }

  lemma {:induction false} RunIsGood(run: seq<State>, steps: seq<Step>)
    requires IsRun(run, steps)
    ensures Good(run)
    decreases |steps|
  {
    if steps != [] {
      var n := |steps| - 1;
      var front := run[..n + 1];
      RunIsGood(front, steps[..n]);
      assert front[|front| - 1] == run[n] && run == front + [Next(run[n], steps[n])];
      var readers := run[n + 1].readers;
      forall r | r in readers ensures ReaderOk(run, readers[r]) {
        ReaderAfterStep(front, steps[n], r);
        ReaderStays(front, steps[n], readers[r]);
      }
    }
  }

  /** What is stored is what was set last. */
  function LastSet(steps: seq<Step>): seq<Byte> {
    if steps == [] then [] else
    match steps[|steps| - 1]
    case Set(str) => if str.None? then [] else str.value
    case Clear => []
    case _ => LastSet(steps[..|steps| - 1])
  }

  /** The stored or about to be stored string is this one. */
  predicate Stores(s: State, str: seq<Byte>) {
    match s.writer
    case Idle => Abs(s) == str
    case Built(addr) => Text(BufferAt(s, addr)) == str
    case Emptying => str == []
  }

  lemma StepStores(run: seq<State>, s: State, steps: seq<Step>)
    requires steps != [] && run != [] && s == run[|run| - 1] && Good(run)
    requires Enabled(s, steps[|steps| - 1]) && Stores(s, LastSet(steps[..|steps| - 1]))
    ensures Stores(Next(s, steps[|steps| - 1]), LastSet(steps))
  {
  }

  lemma {:induction false} StoredIsLastSet(run: seq<State>, steps: seq<Step>)
    requires IsRun(run, steps)
    ensures Stores(run[|steps|], LastSet(steps))
    decreases |steps|
  {
    if steps != [] {
      var n := |steps| - 1;
      StoredIsLastSet(run[..n + 1], steps[..n]);
      RunIsGood(run[..n + 1], steps[..n]);
      assert run[..n + 1][n] == run[n];
      hide Good, Stores, Next, Enabled, LastSet;
      StepStores(run[..n + 1], run[n], steps);
    }
  }

  lemma AnswerStays(s: State, step: Step, answer: Answer)
    requires Enabled(s, step) && Terminated(s, answer)
    ensures Terminated(Next(s, step), answer) && Designated(Next(s, step), answer) == Designated(s, answer)
  {
    if answer.Data? {
      BuffersNeverChange(s, step, answer.buf);
    }
  }

  /** A pointer handed out at instant j designates, at j and at every later instant, exactly the whole
      string that was stored when the call loaded the slot, NUL-terminated inside its own buffer; and a
      length is the length of that string. */
  lemma {:induction false} ReadsAreSnapshots(run: seq<State>, steps: seq<Step>, j: nat, r: nat)
    requires IsRun(run, steps) && j <= |steps| && ReaderAt(run[j], r).Done?
    ensures var rd := ReaderAt(run[j], r);
            && rd.since <= j
            && (rd.q.Get? ==> Designated(run[|steps|], rd.answer) == Abs(run[rd.since])
                              && Terminated(run[|steps|], rd.answer))
            && (rd.q.Length? ==> rd.answer == Size(|Abs(run[rd.since])|))
    decreases |steps|
  {
    hide Next, Enabled, Terminated, Designated, Good;
    var n := |steps|;
    if j == n {
      RunIsGood(run, steps);
      assert ReaderOk(run, ReaderAt(run[j], r));
    } else {
      ReadsAreSnapshots(run[..n], steps[..n - 1], j, r);
      assert run[..n][j] == run[j] && run[..n][n - 1] == run[n - 1];
      RunIsGood(run[..n], steps[..n - 1]);
      var rd := ReaderAt(run[j], r);
      if rd.q.Get? {
        AnswerStays(run[n - 1], steps[n - 1], rd.answer);
      }
    }
  }

  // ---- Nothing gets stuck ------------------------------------------------------------------

  lemma OneMore(run: seq<State>, steps: seq<Step>, step: Step) returns (run': seq<State>, steps': seq<Step>)
    requires IsRun(run, steps) && Enabled(run[|steps|], step)
    ensures run' == run + [Next(run[|steps|], step)] && steps' == steps + [step]
    ensures IsRun(run', steps') && run'[|steps'|] == Next(run[|steps|], step)
  {
    hide Enabled, Next;
    run', steps' := run + [Next(run[|steps|], step)], steps + [step];
  }

  /** A writer at rest can set any string, or clear; it then rests again, and that string is stored. */
  lemma SetIsServed(run: seq<State>, steps: seq<Step>, str: Option<seq<Byte>>) returns (run': seq<State>, steps': seq<Step>)
    requires IsRun(run, steps) && run[|steps|].writer.Idle?
    ensures IsRun(run', steps') && run <= run' && steps' == steps + [Set(str)] + [Publish]
    ensures run'[|steps'|].writer.Idle? && Abs(run'[|steps'|]) == if str.None? then [] else str.value
  {
    run', steps' := OneMore(run, steps, Set(str));
    run', steps' := OneMore(run', steps', Publish);
  }

  lemma ClearIsServed(run: seq<State>, steps: seq<Step>) returns (run': seq<State>, steps': seq<Step>)
    requires IsRun(run, steps) && run[|steps|].writer.Idle?
    ensures IsRun(run', steps') && run <= run' && steps' == steps + [Clear]
    ensures run'[|steps'|].writer.Idle? && Abs(run'[|steps'|]) == []
  {
    run', steps' := OneMore(run, steps, Clear);
  }

  /** A query that runs alone answers for the string as it is. */
  lemma QueryIsAnswered(run: seq<State>, steps: seq<Step>, r: nat, q: Query) returns (run': seq<State>, steps': seq<Step>)
    requires IsRun(run, steps) && !ReaderAt(run[|steps|], r).HaveBuffer?
    ensures IsRun(run', steps') && run <= run'
    ensures steps' == steps + [Invoke(r, q)] || steps' == steps + [Invoke(r, q)] + [ReaderStep(r)]
    ensures var rd := ReaderAt(run'[|steps'|], r);
            && rd.Done? && rd.q == q && rd.since == |steps|
            && match q
               case Get => Designated(run'[|steps'|], rd.answer) == Abs(run[|steps|])
               case Length => rd.answer == Size(|Abs(run[|steps|])|)
  {
    RunIsGood(run, steps);
    run', steps' := OneMore(run, steps, Invoke(r, q));
    if ReaderAt(run'[|steps'|], r).HaveBuffer? {
      run', steps' := OneMore(run', steps', ReaderStep(r));
    }
    ReadsAreSnapshots(run', steps', |steps'|, r);
  }
}
