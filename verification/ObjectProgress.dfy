/**
 Nothing in the object protocol ever gets stuck: from any instant of any run the writer finishes its call
 in at most seven steps of its own, every request can be served and has its effect or ends the process,
 and every query can be answered, exactly if nothing runs beside it.
 */
module ObjectProgress {
  import opened EntryBuffers
  import opened OrderedFields
  import opened ObjectProtocol
  import opened ObjectInvariants
  import opened ObjectLinearizability

  /** The writer's own steps until its call is done. */
  function StepsLeft(s: State): nat {
    match s.writer
    case Idle => 0
    case Aborted => 0
    case Overwriting(_, _, _, _) => 1
    case Adding(_, _, _) => if Current(s).Full() then 7 else 6
    case GrowBuilt(_, _, _, _) => 6
    case Filling(_, _, _, stage) => if stage < 4 then 5 - stage else 1
    case RemoveBuilt(_, _, _) => 1
    case Emptying(_) => 1
  }

  lemma WriterStepCounts(s: State, owner: seq<Entry>)
    requires Inv(s, owner) && Enabled(s, WriterStep)
    ensures StepsLeft(Next(s, WriterStep)) + 1 == StepsLeft(s) && !Next(s, WriterStep).writer.Aborted?
    ensures Next(s, WriterStep).readers == s.readers
  {
  }

  /** One more step at the end of a run. */
  lemma OneMore(run: seq<State>, steps: seq<Step>, step: Step)
    requires IsRun(run, steps) && Enabled(run[|steps|], step)
    ensures IsRun(run + [Next(run[|steps|], step)], steps + [step])
  {
    hide Enabled, Next;
  }

  /** The second run continues the first, from its n-th step on by steps like this one only. */
  ghost predicate Continues(run: seq<State>, steps: seq<Step>, run': seq<State>, steps': seq<Step>, step: Step) {
    && IsRun(run', steps') && |steps| < |run| && run <= run' && steps <= steps'
    && forall k :: |steps| <= k < |steps'| ==> steps'[k] == step
  }

  lemma ContinuesFurther(run: seq<State>, steps: seq<Step>, run1: seq<State>, steps1: seq<Step>, run2: seq<State>, steps2: seq<Step>, step: Step)
    requires Continues(run, steps, run1, steps1, step) && Continues(run1, steps1, run2, steps2, step)
    ensures Continues(run, steps, run2, steps2, step)
  {
  }

  lemma {:induction false} WriterFinishes(run: seq<State>, steps: seq<Step>) returns (run': seq<State>, steps': seq<Step>)
    requires IsRun(run, steps)
    ensures Continues(run, steps, run', steps', WriterStep) && |steps'| == |steps| + StepsLeft(run[|steps|])
    ensures var s, s' := run[|steps|], run'[|steps'|];
            && (if s.writer.Aborted? then s'.writer.Aborted? else s'.writer.Idle?)
            && Perform(Abs(s'), Pending(s'.writer)) == Perform(Abs(s), Pending(s.writer))
            && s'.readers == s.readers
    decreases StepsLeft(run[|steps|])
  {
    hide Inv, Next, Abs, Perform;
    var s := run[|steps|];
    run', steps' := run, steps;
    if !s.writer.Idle? && !s.writer.Aborted? {
      var owner := ObjectInvariants.RunKeepsInv(run, steps);
      WriterStepCounts(s, owner);
      StepTracksRequests(s, WriterStep, owner);
      OneMore(run, steps, WriterStep);
      var run1, steps1 := run + [Next(s, WriterStep)], steps + [WriterStep];
      run', steps' := WriterFinishes(run1, steps1);
      ContinuesFurther(run, steps, run1, steps1, run', steps', WriterStep);
    }
  }

  predicate IsRequest(step: Step) {
    step.BeginSet? || step.BeginEnsureObject? || step.BeginRemove?
  }

  /** The key is there with another type than the request needs. */
  predicate Clashes(fields: seq<Field<nat, int>>, request: Step) {
    match request
    case BeginSet(key, typeId, _) => Has(fields, key) && fields[IndexOf(fields, key)].typeId != typeId
    case BeginEnsureObject(key) => Has(fields, key) && fields[IndexOf(fields, key)].typeId != 8
    case _ => false
  }

  lemma RequestBegins(s: State, request: Step, owner: seq<Entry>)
    requires Inv(s, owner) && s.writer.Idle? && IsRequest(request)
    ensures Enabled(s, request) && Abs(Next(s, request)) == Abs(s) && StepsLeft(Next(s, request)) <= 7
    ensures Next(s, request).writer.Aborted? <==> Clashes(Abs(s), request)
    ensures Perform(Abs(s), Pending(Next(s, request).writer)) == Requested(Abs(s), request)
  {
    BeginningsAreInvisible(s, request, owner);
    StepTracksRequests(s, request, owner);
    LookupIsIndex(s, request.key, owner);
  }

  /** Whatever has happened before, a writer at rest can serve any request in eight steps: it then rests with
      exactly the requested change made, or the process has ended and nothing is changed, according to
      whether the types clash. */
  lemma RequestIsServed(run: seq<State>, steps: seq<Step>, request: Step) returns (run': seq<State>, steps': seq<Step>)
    requires IsRun(run, steps) && run[|steps|].writer.Idle? && IsRequest(request)
    ensures IsRun(run', steps') && run <= run' && steps + [request] <= steps' && |steps'| <= |steps| + 8
    ensures forall k :: |steps| < k < |steps'| ==> steps'[k] == WriterStep
    ensures var before, s' := Abs(run[|steps|]), run'[|steps'|];
            if Clashes(before, request) then s'.writer.Aborted? && Abs(s') == before
            else s'.writer.Idle? && Abs(s') == Requested(before, request)
  {
    hide Inv, Next, Abs, Enabled, StepsLeft, Requested, Clashes;
    var s := run[|steps|];
    var owner := ObjectInvariants.RunKeepsInv(run, steps);
    RequestBegins(s, request, owner);
    OneMore(run, steps, request);
    run', steps' := WriterFinishes(run + [Next(s, request)], steps + [request]);
    NothingPending(Abs(run'[|steps'|]), run'[|steps'|].writer);
    ClashChangesNothing(Abs(s), request);
  }

  lemma NothingPending(fields: seq<Field<nat, int>>, w: Writer)
    requires w.Idle? || w.Aborted?
    ensures Perform(fields, Pending(w)) == fields
  {
  }

  lemma ClashChangesNothing(fields: seq<Field<nat, int>>, request: Step)
    ensures Clashes(fields, request) ==> Requested(fields, request) == fields
  {
  }

  // ---- Queries -----------------------------------------------------------------------------

  lemma ReaderStepAlone(s: State, step: Step)
    requires Enabled(s, step) && (step.Invoke? || step.ReaderStep?)
    ensures Abs(Next(s, step)) == Abs(s) && Next(s, step).writer == s.writer
    ensures Next(s, step).bufs == s.bufs && Next(s, step).slot == s.slot
  {
  }

  lemma SameCall(s: State, rd: Reader)
    requires Busy(rd)
    ensures !ReaderNext(s, rd).Quiet? && ReaderNext(s, rd).q == rd.q && ReaderNext(s, rd).since == rd.since
  {
  }

  /** A reader left alone comes to an end. */
  lemma {:induction false} ReaderFinishes(run: seq<State>, steps: seq<Step>, r: nat) returns (run': seq<State>, steps': seq<Step>)
    requires IsRun(run, steps) && !ReaderAt(run[|steps|], r).Quiet?
    ensures Continues(run, steps, run', steps', ReaderStep(r))
    ensures |steps'| <= |steps| + Remaining(run[|steps|], ReaderAt(run[|steps|], r))
    ensures forall k :: |steps| <= k < |run'| ==> Abs(run'[k]) == Abs(run[|steps|])
    ensures var rd, rd' := ReaderAt(run[|steps|], r), ReaderAt(run'[|steps'|], r);
            rd'.Done? && rd'.q == rd.q && rd'.since == rd.since
    decreases Remaining(run[|steps|], ReaderAt(run[|steps|], r))
  {
    hide Next, Abs, Remaining, Good, Inv, ReaderNext;
    var s := run[|steps|];
    run', steps' := run, steps;
    if Busy(ReaderAt(s, r)) {
      var h := RunIsGood(run, steps);
      StepsRunOut(run, h, ReaderStep(r), r);
      OneMore(run, steps, ReaderStep(r));
      ReaderStepAlone(s, ReaderStep(r));
      OwnStep(s, r);
      SameCall(s, ReaderAt(s, r));
      var run1, steps1 := run + [Next(s, ReaderStep(r))], steps + [ReaderStep(r)];
      run', steps' := ReaderFinishes(run1, steps1, r);
      ContinuesFurther(run, steps, run1, steps1, run', steps', ReaderStep(r));
    }
  }

  lemma OwnStep(s: State, r: nat)
    requires Busy(ReaderAt(s, r))
    ensures Enabled(s, ReaderStep(r)) && ReaderAt(Next(s, ReaderStep(r)), r) == ReaderNext(s, ReaderAt(s, r))
  {
  }

  lemma QueryBegins(s: State, r: nat, q: Query)
    requires !Busy(ReaderAt(s, r))
    ensures Enabled(s, Invoke(r, q))
    ensures var rd := ReaderAt(Next(s, Invoke(r, q)), r); !rd.Quiet? && rd.q == q && rd.since == s.now
    ensures Remaining(Next(s, Invoke(r, q)), ReaderAt(Next(s, Invoke(r, q)), r)) <= Current(s).Capacity() + 4
  {
  }

  /** Whatever has happened before, a query that then runs alone returns what the abstract object answers. */
  lemma QueryIsAnswered(run: seq<State>, steps: seq<Step>, r: nat, q: Query) returns (run': seq<State>, steps': seq<Step>)
    requires IsRun(run, steps) && !Busy(ReaderAt(run[|steps|], r))
    ensures IsRun(run', steps') && run <= run' && steps + [Invoke(r, q)] <= steps'
    ensures forall k :: |steps| < k < |steps'| ==> steps'[k] == ReaderStep(r)
    ensures |steps'| <= |steps| + Current(run[|steps|]).Capacity() + 5
    ensures ReaderAt(run'[|steps'|], r) == Done(q, |steps|, Answer(Abs(run[|steps|]), q))
  {
    hide Next, Abs, Enabled, Remaining, Answer, Inv;
    var s := run[|steps|];
    var _ := ObjectInvariants.RunKeepsInv(run, steps);
    QueryBegins(s, r, q);
    OneMore(run, steps, Invoke(r, q));
    ReaderStepAlone(s, Invoke(r, q));
    var run1, steps1 := run + [Next(s, Invoke(r, q))], steps + [Invoke(r, q)];
    run', steps' := ReaderFinishes(run1, steps1, r);
    ReadsAreLinearizable(run', steps', |steps'|, r);
    var rd := ReaderAt(run'[|steps'|], r);
    var k: nat :| rd.since <= k <= |steps'| && Agrees(run', k, rd);
    assert Abs(run'[k]) == Abs(s);
  }
}
