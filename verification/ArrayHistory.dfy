/**
 Readers of an array beside its writer. The history is what the writer's steps say was pushed. In runs
 without clear, whatever a reader sees is a prefix of it; with clear, sizes are still linearizable and
 addresses still inside buffers.
 */
module ArrayHistory {
  import opened ArrayBuffers
  import opened ArrayProtocol
  import opened Pointers

  // ---- The history, from the steps alone ---------------------------------------------------

  /** The values committed since the last clear; the one the next commit would add: what the caller filled in
      last since the prepare, zero if nothing; and the capacity reserved or grown to so far. */
  datatype Log = Log(items: seq<int>, pending: int, capacity: nat)

  function Logged(l: Log, step: Step): Log {
    match step
    case Reserve(cap) => Log(l.items, l.pending, if cap > l.capacity then cap else l.capacity)
    case Prepare =>
      Log(l.items, 0, if |l.items| < l.capacity then l.capacity else if l.capacity == 0 then 8 else 2 * l.capacity)
    case Fill(value) => Log(l.items, value, l.capacity)
    case Commit => Log(l.items + [l.pending], 0, l.capacity)
    case Clear => Log([], l.pending, l.capacity)
    case _ => l
  }

  function LogOf(steps: seq<Step>): Log
    decreases |steps|
  {
    if steps == [] then Log([], 0, 0) else Logged(LogOf(steps[..|steps| - 1]), steps[|steps| - 1])
  }

  function History(steps: seq<Step>): seq<int> {
    LogOf(steps).items
  }

  /** The capacity of the current buffer, or of the one about to be published. */
  function ComingCapacity(s: State): nat {
    match s.writer
    case Reserving(addr) => BufferAt(s, addr).Capacity()
    case Growing(addr) => BufferAt(s, addr).Capacity()
    case _ => Current(s).Capacity()
  }

  ghost predicate Matches(s: State, l: Log) {
    && Inv(s) && Abs(s) == l.items && ComingCapacity(s) == l.capacity
    && (s.writer.Growing? || s.writer.Zeroing? ==> l.pending == 0)
    && (s.writer.Prepared? ==> Current(s).elems[Current(s).size] == l.pending)
  }

  lemma ReaderMatches(s: State, l: Log, step: Step)
    requires Matches(s, l) && Enabled(s, step) && (step.Invoke? || step.ReaderStep?)
    ensures Matches(Next(s, step), Logged(l, step))
  {
    StepKeepsInv(s, step);
    assert Current(Next(s, step)) == Current(s);
  }

  lemma RoomMatches(s: State, l: Log, step: Step)
    requires Matches(s, l) && Enabled(s, step) && (step.Reserve? || step.Prepare?)
    ensures Matches(Next(s, step), Logged(l, step))
  {
    StepKeepsInv(s, step);
  }

  lemma StoreMatches(s: State, l: Log, step: Step)
    requires Matches(s, l) && Enabled(s, step) && (step.WriterStep? || step.Fill? || step.Commit? || step.Clear?)
    ensures Matches(Next(s, step), Logged(l, step))
  {
    StepKeepsInv(s, step);
  }

  lemma StepMatches(s: State, l: Log, step: Step)
    requires Matches(s, l) && Enabled(s, step)
    ensures Matches(Next(s, step), Logged(l, step))
  {
    hide *;
    if step.Invoke? || step.ReaderStep? {
      ReaderMatches(s, l, step);
    } else if step.Reserve? || step.Prepare? {
      RoomMatches(s, l, step);
    } else {
      StoreMatches(s, l, step);
    }
  }

  /** In every run, with or without clear, the array is the list the writer's steps amount to, and so is its
      capacity. */
  lemma {:induction false} ArrayIsHistory(run: seq<State>, steps: seq<Step>, n: nat)
    requires IsRun(run, steps) && n <= |steps|
    ensures Abs(run[n]) == History(steps[..n])
    ensures run[n].writer.Idle? ==> Current(run[n]).Capacity() == LogOf(steps[..n]).capacity
    ensures Matches(run[n], LogOf(steps[..n]))
  {
    if n > 0 {
      ArrayIsHistory(run, steps, n - 1);
      StepMatches(run[n - 1], LogOf(steps[..n - 1]), steps[n - 1]);
      assert steps[..n][..n - 1] == steps[..n - 1];
    }
  }

  // ---- Runs without clear ------------------------------------------------------------------

  lemma {:induction false} InvThroughout(run: seq<State>, steps: seq<Step>, n: nat)
    requires IsRun(run, steps) && n <= |steps|
    ensures Inv(run[n])
  {
    if n > 0 {
      InvThroughout(run, steps, n - 1);
      StepKeepsInv(run[n - 1], steps[n - 1]);
    }
  }

  /** Readers never hold more than was there, nor less than was there when their call began. */
  ghost predicate ReaderFollows(run: seq<State>, rd: Reader)
    requires run != []
  {
    var s := run[|run| - 1];
    match rd
    case Quiet => true
    case HaveBuffer(_, since, buf) =>
      && since < |run| && Published(s, buf) && |Abs(run[since])| <= s.bufs[buf].size
    case Done(q, since, answer) =>
      && since < |run|
      && (q.Size? ==> answer.Count? && |Abs(run[since])| <= answer.n <= |Abs(s)|)
      && (q.Get? ==>
            match answer
            case Count(_) => false
            case NoElement => |Abs(run[since])| <= q.index
            case Element(buf, index) => index == q.index && Published(s, buf) && index < s.bufs[buf].size)
  }

  ghost predicate Follows(run: seq<State>) {
    && run != []
    && var s := run[|run| - 1];
    && s.now == |run| - 1
    && Inv(s)
    && (forall a: nat :: Published(s, a) ==> s.bufs[a].Committed() <= Abs(s))
    && (forall r :: r in s.readers ==> ReaderFollows(run, s.readers[r]))
  }

  lemma PublishedFollow(s: State, step: Step, a: nat)
    requires Inv(s) && Enabled(s, step) && !step.Clear?
    requires forall b: nat :: Published(s, b) ==> s.bufs[b].Committed() <= Abs(s)
    requires Published(Next(s, step), a)
    ensures Next(s, step).bufs[a].Committed() <= Abs(Next(s, step))
  {
    StepKeepsInv(s, step);
    PublishedGrows(s, step, a);
    if Next(s, step).slot != At(a) {
      BuffersAreStable(s, step, a);
      if s.slot == At(a) {
        assert Next(s, step).bufs[a] == s.bufs[a];
      }
    }
  }

  lemma SizesGrow(s: State, step: Step, a: nat)
    requires Inv(s) && Enabled(s, step) && !step.Clear? && Published(s, a)
    ensures Published(Next(s, step), a) && s.bufs[a].size <= Next(s, step).bufs[a].size
  {
    StepKeepsInv(s, step);
    PublishedGrows(s, step, a);
    BuffersAreStable(s, step, a);
  }

  lemma ReaderStays(run: seq<State>, step: Step, rd: Reader)
    requires Follows(run) && Enabled(run[|run| - 1], step) && !step.Clear? && ReaderFollows(run, rd)
    ensures ReaderFollows(run + [Next(run[|run| - 1], step)], rd)
  {
    hide Inv, Next, Enabled, Published, Current;
    var s, run' := run[|run| - 1], run + [Next(run[|run| - 1], step)];
    StepKeepsInv(s, step);
    if rd.HaveBuffer? {
      SizesGrow(s, step, rd.buf);
      assert run'[rd.since] == run[rd.since];
    } else if rd.Done? {
      assert run'[rd.since] == run[rd.since];
      if rd.answer.Element? {
        SizesGrow(s, step, rd.answer.buf);
      }
    }
  }

  lemma ReaderAfterStep(run: seq<State>, step: Step, r: nat)
    requires Follows(run) && Enabled(run[|run| - 1], step) && r in Next(run[|run| - 1], step).readers
    ensures ReaderFollows(run, Next(run[|run| - 1], step).readers[r])
  {
    var s := run[|run| - 1];
    if step == ReaderStep(r) {
      var rd := s.readers[r];
      assert ReaderFollows(run, rd);
      assert s.bufs[rd.buf].Committed() <= Abs(s);
    } else if !(step.Invoke? && step.reader == r) {
      assert ReaderFollows(run, s.readers[r]);
    }
  }

  lemma StepFollows(run: seq<State>, step: Step)
    requires Follows(run) && Enabled(run[|run| - 1], step) && !step.Clear?
    ensures Follows(run + [Next(run[|run| - 1], step)])
  {
    var s, s' := run[|run| - 1], Next(run[|run| - 1], step);
    StepKeepsInv(s, step);
    forall a: nat | Published(s', a) ensures s'.bufs[a].Committed() <= Abs(s') {
      PublishedFollow(s, step, a);
    }
    forall r | r in s'.readers ensures ReaderFollows(run + [s'], s'.readers[r]) {
      ReaderAfterStep(run, step, r);
      ReaderStays(run, step, s'.readers[r]);
    }
    hide Inv, Enabled, ReaderFollows, Current, Published;
  }

  lemma {:induction false} RunFollows(run: seq<State>, steps: seq<Step>)
    requires IsRun(run, steps) && ClearFree(steps)
    ensures Follows(run)
    decreases |steps|
  {
    if steps != [] {
      var n := |steps| - 1;
      RunFollows(run[..n + 1], steps[..n]);
      StepFollows(run[..n + 1], steps[n]);
      assert run == run[..n + 1] + [run[n + 1]];
    }
  }

  /** Histories only grow: what was committed stays, at the same index. */
  lemma {:induction false} HistoryGrows(run: seq<State>, steps: seq<Step>, i: nat, j: nat)
    requires IsRun(run, steps) && ClearFree(steps) && i <= j <= |steps|
    ensures Abs(run[i]) <= Abs(run[j])
    decreases j
  {
    if i < j {
      HistoryGrows(run, steps, i, j - 1);
      InvThroughout(run, steps, j - 1);
      StepKeepsInv(run[j - 1], steps[j - 1]);
    }
  }

  ghost predicate IsSizeAt(run: seq<State>, j: nat, r: nat, n: nat) {
    j < |run| && ReaderAt(run[j], r).Done? && ReaderAt(run[j], r).q.Size? && ReaderAt(run[j], r).answer == Count(n)
  }

  lemma SizeIsWithinHistory(run: seq<State>, steps: seq<Step>, j: nat, r: nat, n: nat)
    requires IsRun(run, steps) && ClearFree(steps) && IsSizeAt(run, j, r, n)
    ensures var since := ReaderAt(run[j], r).since;
            since <= j && |History(steps[..since])| <= n <= |History(steps[..j])|
  {
    RunFollows(run[..j + 1], steps[..j]);
    assert ReaderFollows(run[..j + 1], ReaderAt(run[j], r));
    ArrayIsHistory(run, steps, ReaderAt(run[j], r).since);
    ArrayIsHistory(run, steps, j);
  }

  /** Sizes are monotone, across readers too: a size call that begins after another has returned n
      returns at least n. */
  lemma SizesNeverDecrease(run: seq<State>, steps: seq<Step>, j: nat, r: nat, n: nat, r': nat, n': nat)
    requires IsRun(run, steps) && ClearFree(steps)
    requires IsSizeAt(run, j, r, n) && IsSizeAt(run, |steps|, r', n')
    requires j <= ReaderAt(run[|steps|], r').since
    ensures n <= n'
  {
    SizeIsWithinHistory(run, steps, j, r, n);
    SizeIsWithinHistory(run, steps, |steps|, r', n');
    var since := ReaderAt(run[|steps|], r').since;
    HistoryGrows(run, steps, j, since);
    ArrayIsHistory(run, steps, j);
    ArrayIsHistory(run, steps, since);
  }

  lemma {:induction false} ElementStays(run: seq<State>, steps: seq<Step>, j: nat, k: nat, a: nat, index: nat)
    requires IsRun(run, steps) && ClearFree(steps) && j <= k <= |steps|
    requires Published(run[j], a) && index < run[j].bufs[a].size
    ensures Published(run[k], a) && index < run[k].bufs[a].size
    decreases k
  {
    if j < k {
      ElementStays(run, steps, j, k - 1, a, index);
      InvThroughout(run, steps, k - 1);
      SizesGrow(run[k - 1], steps[k - 1], a);
    }
  }

  /** A get that returned an element has returned, for the rest of the run, the one committed at that
      index, whenever it began. */
  lemma EveryFoundElementIsHistory(run: seq<State>, steps: seq<Step>, j: nat, r: nat)
    requires IsRun(run, steps) && ClearFree(steps) && j <= |steps|
    requires ReaderAt(run[j], r).Done? && ReaderAt(run[j], r).q.Get? && ReaderAt(run[j], r).answer.Element?
    ensures var q, answer, s := ReaderAt(run[j], r).q, ReaderAt(run[j], r).answer, run[|steps|];
            && Published(s, answer.buf)
            && answer.index == q.index < s.bufs[answer.buf].size <= s.bufs[answer.buf].Capacity()
            && q.index < |History(steps)|
            && s.bufs[answer.buf].elems[q.index] == History(steps)[q.index]
  {
    var rd := ReaderAt(run[j], r);
    RunFollows(run[..j + 1], steps[..j]);
    assert ReaderFollows(run[..j + 1], rd);
    ElementStays(run, steps, j, |steps|, rd.answer.buf, rd.q.index);
    RunFollows(run, steps);
    ArrayIsHistory(run, steps, |steps|);
    assert steps[..|steps|] == steps;
    var b := run[|steps|].bufs[rd.answer.buf];
    assert b.Committed() <= Abs(run[|steps|]);
    assert b.elems[rd.q.index] == b.Committed()[rd.q.index];
  }

  /** A get that asks for an index committed before its call began returns an element, the one committed
      there by then. */
  lemma CommittedElementsAreFound(run: seq<State>, steps: seq<Step>, j: nat, r: nat)
    requires IsRun(run, steps) && ClearFree(steps) && j <= |steps|
    requires ReaderAt(run[j], r).Done? && ReaderAt(run[j], r).q.Get?
    requires var rd := ReaderAt(run[j], r); rd.since <= |steps| && rd.q.index < |History(steps[..rd.since])|
    ensures var rd := ReaderAt(run[j], r);
            && rd.answer.Element?
            && Published(run[|steps|], rd.answer.buf)
            && rd.q.index < run[|steps|].bufs[rd.answer.buf].size <= run[|steps|].bufs[rd.answer.buf].Capacity()
            && run[|steps|].bufs[rd.answer.buf].elems[rd.q.index] == History(steps[..rd.since])[rd.q.index]
  {
    hide Matches, LogOf, Current, Next, Enabled;
    var rd := ReaderAt(run[j], r);
    ArrayIsHistory(run, steps, rd.since);
    RunFollows(run[..j + 1], steps[..j]);
    assert ReaderFollows(run[..j + 1], rd);
    EveryFoundElementIsHistory(run, steps, j, r);
    HistoryGrows(run, steps, rd.since, |steps|);
    ArrayIsHistory(run, steps, |steps|);
    assert steps[..|steps|] == steps;
  }

  lemma BeganBefore(run: seq<State>, steps: seq<Step>, j: nat, r: nat)
    requires IsRun(run, steps) && ClearFree(steps) && j <= |steps| && ReaderAt(run[j], r).Done?
    ensures ReaderAt(run[j], r).since <= j
  {
    RunFollows(run[..j + 1], steps[..j]);
    assert ReaderFollows(run[..j + 1], ReaderAt(run[j], r));
  }

  /** Once some size call returned n, every later get(i) with i < n finds the i-th committed value, and
      keeps finding it, across any number of reallocations. */
  lemma GetAfterSize(run: seq<State>, steps: seq<Step>, j: nat, r: nat, n: nat, j': nat, r': nat)
    requires IsRun(run, steps) && ClearFree(steps) && IsSizeAt(run, j, r, n) && j' <= |steps|
    requires ReaderAt(run[j'], r').Done? && ReaderAt(run[j'], r').q.Get?
    requires j <= ReaderAt(run[j'], r').since && ReaderAt(run[j'], r').q.index < n
    ensures var rd := ReaderAt(run[j'], r');
            && rd.answer.Element?
            && Published(run[|steps|], rd.answer.buf)
            && rd.q.index < run[|steps|].bufs[rd.answer.buf].Capacity()
            && rd.q.index < |History(steps)|
            && run[|steps|].bufs[rd.answer.buf].elems[rd.q.index] == History(steps)[rd.q.index]
  {
    var rd := ReaderAt(run[j'], r');
    SizeIsWithinHistory(run, steps, j, r, n);
    BeganBefore(run, steps, j', r');
    HistoryGrows(run, steps, j, rd.since);
    ArrayIsHistory(run, steps, j);
    ArrayIsHistory(run, steps, rd.since);
    CommittedElementsAreFound(run, steps, j', r');
    EveryFoundElementIsHistory(run, steps, j', r');
  }

  // ---- Runs with clear ---------------------------------------------------------------------

  function Last(s: seq<nat>, i: nat): nat {
    if i < |s| then s[i] else 0
  }

  /** `bufLast[a]` is the last instant at which buffer a was current; its size has not moved since. */
  ghost predicate SizeFrozen(run: seq<State>, bufLast: seq<nat>, a: nat)
    requires run != []
  {
    var s, k := run[|run| - 1], Last(bufLast, a);
    && a < |s.bufs| && k < |run|
    && run[k].slot == At(a)
    && |Abs(run[k])| == s.bufs[a].size
    && (s.slot == At(a) ==> k == |run| - 1)
  }

  ghost predicate SizeWithin(run: seq<State>, since: nat, n: nat) {
    exists k :: since <= k < |run| && n == |Abs(run[k])|
  }

  ghost predicate ReaderOk(run: seq<State>, bufLast: seq<nat>, rd: Reader)
    requires run != []
  {
    var s := run[|run| - 1];
    match rd
    case Quiet => true
    case HaveBuffer(_, since, buf) => Published(s, buf) && since <= Last(bufLast, buf)
    case Done(q, since, answer) =>
      && (q.Size? ==> answer.Count? && SizeWithin(run, since, answer.n))
      && (q.Get? ==> !answer.Count?)
      && (answer.Element? ==> Published(s, answer.buf) && answer.index == q.index < s.bufs[answer.buf].Capacity())
  }

  ghost predicate Good(run: seq<State>, bufLast: seq<nat>) {
    && run != []
    && var s := run[|run| - 1];
    && s.now == |run| - 1
    && Inv(s)
    && |bufLast| == |s.bufs|
    && (forall a: nat :: Published(s, a) ==> SizeFrozen(run, bufLast, a))
    && (forall r :: r in s.readers ==> ReaderOk(run, bufLast, s.readers[r]))
  }

  ghost function Advance(run: seq<State>, step: Step, bufLast: seq<nat>): seq<nat>
    requires run != []
  {
    var s' := Next(run[|run| - 1], step);
    seq(|s'.bufs|, (a: nat) => if s'.slot == At(a) then |run| else Last(bufLast, a))
  }

  lemma SizeStaysFrozen(run: seq<State>, step: Step, bufLast: seq<nat>, a: nat)
    requires Good(run, bufLast) && Enabled(run[|run| - 1], step) && Published(Next(run[|run| - 1], step), a)
    ensures SizeFrozen(run + [Next(run[|run| - 1], step)], Advance(run, step, bufLast), a)
  {
    var s := run[|run| - 1];
    StepKeepsInv(s, step);
    PublishedGrows(s, step, a);
    if Next(s, step).slot != At(a) {
      assert SizeFrozen(run, bufLast, a);
      BuffersAreStable(s, step, a);
    }
  }

  lemma ReaderStaysOk(run: seq<State>, step: Step, bufLast: seq<nat>, rd: Reader)
    requires Good(run, bufLast) && Enabled(run[|run| - 1], step) && ReaderOk(run, bufLast, rd)
    ensures ReaderOk(run + [Next(run[|run| - 1], step)], Advance(run, step, bufLast), rd)
  {
    var s, run' := run[|run| - 1], run + [Next(run[|run| - 1], step)];
    if rd.HaveBuffer? {
      PublishedGrows(s, step, rd.buf);
      BuffersAreStable(s, step, rd.buf);
      assert SizeFrozen(run, bufLast, rd.buf);
    } else if rd.Done? {
      if rd.answer.Element? {
        PublishedGrows(s, step, rd.answer.buf);
        BuffersAreStable(s, step, rd.answer.buf);
      }
      if rd.q.Size? {
        var k :| rd.since <= k < |run| && rd.answer.n == |Abs(run[k])|;
        assert rd.answer.n == |Abs(run'[k])|;
      }
    }
  }

  lemma ReaderOkAfterStep(run: seq<State>, step: Step, bufLast: seq<nat>, r: nat)
    requires Good(run, bufLast) && Enabled(run[|run| - 1], step) && r in Next(run[|run| - 1], step).readers
    ensures ReaderOk(run, bufLast, Next(run[|run| - 1], step).readers[r])
  {
    var s := run[|run| - 1];
    if step == ReaderStep(r) {
      var rd := s.readers[r];
      assert ReaderOk(run, bufLast, rd);
      assert SizeFrozen(run, bufLast, rd.buf);
      assert s.bufs[rd.buf].size == |Abs(run[Last(bufLast, rd.buf)])|;
    } else if step.Invoke? && step.reader == r {
      if s.slot.At? {
        assert SizeFrozen(run, bufLast, s.slot.addr);
      } else {
        assert 0 == |Abs(s)|;
      }
    } else {
      assert ReaderOk(run, bufLast, s.readers[r]);
    }
  }

  lemma StepIsGood(run: seq<State>, step: Step, bufLast: seq<nat>)
    requires Good(run, bufLast) && Enabled(run[|run| - 1], step)
    ensures Good(run + [Next(run[|run| - 1], step)], Advance(run, step, bufLast))
  {
    var s', bufLast' := Next(run[|run| - 1], step), Advance(run, step, bufLast);
    var run' := run + [s'];
    StepKeepsInv(run[|run| - 1], step);
    forall a: nat | Published(s', a) ensures SizeFrozen(run', bufLast', a) {
      SizeStaysFrozen(run, step, bufLast, a);
    }
    forall r | r in s'.readers ensures ReaderOk(run', bufLast', s'.readers[r]) {
      ReaderOkAfterStep(run, step, bufLast, r);
      ReaderStaysOk(run, step, bufLast, s'.readers[r]);
    }
    hide Inv, Enabled, Published, SizeFrozen, ReaderOk;
  }

  lemma {:induction false} RunIsGood(run: seq<State>, steps: seq<Step>) returns (bufLast: seq<nat>)
    requires IsRun(run, steps)
    ensures Good(run, bufLast)
    decreases |steps|
  {
    if steps == [] {
      bufLast := [];
    } else {
      var n := |steps| - 1;
      var front := run[..n + 1];
      var before := RunIsGood(front, steps[..n]);
      StepIsGood(front, steps[n], before);
      assert run == front + [run[n + 1]];
      bufLast := Advance(front, steps[n], before);
    }
  }

  /** With or without clear, a returned size was the array's size at some instant of the call. */
  lemma SizesAreLinearizable(run: seq<State>, steps: seq<Step>, r: nat, n: nat)
    requires IsRun(run, steps) && IsSizeAt(run, |steps|, r, n)
    ensures exists k :: ReaderAt(run[|steps|], r).since <= k <= |steps| && n == |History(steps[..k])|
  {
    var bufLast := RunIsGood(run, steps);
    var rd := ReaderAt(run[|steps|], r);
    assert ReaderOk(run, bufLast, rd);
    var k :| rd.since <= k < |run| && n == |Abs(run[k])|;
    ArrayIsHistory(run, steps, k);
    assert n == |History(steps[..k])|;
  }

  /** With or without clear, an element address lies within the capacity of a published buffer. */
  lemma AddressesStayInside(run: seq<State>, steps: seq<Step>, r: nat)
    requires IsRun(run, steps) && ReaderAt(run[|steps|], r).Done? && ReaderAt(run[|steps|], r).answer.Element?
    ensures var rd, s := ReaderAt(run[|steps|], r), run[|steps|];
            rd.q == Get(rd.answer.index) && Published(s, rd.answer.buf)
            && rd.answer.index < s.bufs[rd.answer.buf].Capacity()
  {
    var bufLast := RunIsGood(run, steps);
    assert ReaderOk(run, bufLast, ReaderAt(run[|steps|], r));
  }

  // ---- Nothing gets stuck ------------------------------------------------------------------

  /** One more step at the end of a run. */
  lemma OneMore(run: seq<State>, steps: seq<Step>, step: Step) returns (run': seq<State>, steps': seq<Step>)
    requires IsRun(run, steps) && Enabled(run[|steps|], step)
    ensures run' == run + [Next(run[|steps|], step)] && steps' == steps + [step]
    ensures IsRun(run', steps') && run'[|steps'|] == Next(run[|steps|], step)
    ensures LogOf(steps') == Logged(LogOf(steps), step)
  {
    hide Enabled, Next;
    run', steps' := run + [Next(run[|steps|], step)], steps + [step];
    assert steps'[..|steps'| - 1] == steps;
  }

  predicate IsCall(step: Step) {
    step.Reserve? || step.Clear?
  }

  /** A writer at rest can reserve and clear; it then rests again. It builds a buffer exactly if more room is
      asked for than there is. */
  lemma CallIsServed(run: seq<State>, steps: seq<Step>, call: Step) returns (run': seq<State>, steps': seq<Step>)
    requires IsRun(run, steps) && run[|steps|].writer.Idle? && IsCall(call)
    ensures IsRun(run', steps') && run <= run' && run'[|steps'|].writer.Idle?
    ensures steps' == steps + [call] || steps' == steps + [call] + [WriterStep]
    ensures LogOf(steps') == Logged(LogOf(steps), call)
    ensures |run'[|steps'|].bufs| ==
            |run[|steps|].bufs| + (if call.Reserve? && call.cap > LogOf(steps).capacity then 1 else 0)
  {
    hide LogOf, Logged;
    ArrayIsHistory(run, steps, |steps|);
    assert steps[..|steps|] == steps;
    run', steps' := OneMore(run, steps, call);
    if !run'[|steps'|].writer.Idle? {
      run', steps' := OneMore(run', steps', WriterStep);
      WriterStepLogsNothing(LogOf(steps + [call]));
    }
  }

  lemma WriterStepLogsNothing(l: Log)
    ensures Logged(l, WriterStep) == l
  {
  }

  /** A writer at rest can push any value, in at most five steps; it then rests again. It builds a buffer
      exactly if the current one is full. */
  lemma PushIsServed(run: seq<State>, steps: seq<Step>, value: int) returns (run': seq<State>, steps': seq<Step>)
    requires IsRun(run, steps) && run[|steps|].writer.Idle?
    ensures IsRun(run', steps') && run <= run' && steps <= steps' && |steps'| <= |steps| + 5
    ensures run'[|steps'|].writer.Idle? && History(steps') == History(steps) + [value]
    ensures |run'[|steps'|].bufs| == |run[|steps|].bufs| + (if |History(steps)| < LogOf(steps).capacity then 0 else 1)
  {
    hide LogOf;
    ArrayIsHistory(run, steps, |steps|);
    assert steps[..|steps|] == steps;
    run', steps' := OneMore(run, steps, Prepare);
    if run'[|steps'|].writer.Growing? {
      run', steps' := OneMore(run', steps', WriterStep);
    }
    run', steps' := OneMore(run', steps', WriterStep);
    run', steps' := OneMore(run', steps', Fill(value));
    run', steps' := OneMore(run', steps', Commit);
  }

  /** A query that runs alone answers for the array as it is. */
  lemma QueryIsAnswered(run: seq<State>, steps: seq<Step>, r: nat, q: Query) returns (run': seq<State>, steps': seq<Step>)
    requires IsRun(run, steps) && !ReaderAt(run[|steps|], r).HaveBuffer?
    ensures IsRun(run', steps') && run <= run'
    ensures steps' == steps + [Invoke(r, q)] || steps' == steps + [Invoke(r, q)] + [ReaderStep(r)]
    ensures var rd, items, s := ReaderAt(run'[|steps'|], r), History(steps), run'[|steps'|];
            && rd.Done? && rd.q == q
            && match q
               case Size => rd.answer == Count(|items|)
               case Get(i) =>
                 if i < |items| then
                   rd.answer.Element? && rd.answer.index == i && i < BufferAt(s, rd.answer.buf).Capacity()
                   && BufferAt(s, rd.answer.buf).elems[i] == items[i]
                 else rd.answer == NoElement
  {
    hide LogOf;
    ArrayIsHistory(run, steps, |steps|);
    assert steps[..|steps|] == steps;
    run', steps' := OneMore(run, steps, Invoke(r, q));
    if ReaderAt(run'[|steps'|], r).HaveBuffer? {
      run', steps' := OneMore(run', steps', ReaderStep(r));
    }
  }
}
