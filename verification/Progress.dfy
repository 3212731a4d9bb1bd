/** No promise of the claim protocol rests on a stopped clock. The protocol lets time pass only when
    no handler is due; from every reachable state finitely many other steps bring that about. */
module Progress {
  import opened Wrappers
  import opened Claims
  import opened ClaimProtocol
  import Q = SendQueue

  /** Steps the tasks of a queue still have to take. */
  function Work(q: Q.Queue): nat
    requires Q.Chain(q)
  {
    if q.pending == 0 then 0
    else
      3 * (q.pending - 1) + match q.tasks[q.Head()].phase
                            case Waiting => 3
                            case Running => 2
                            case Finished => 1
                            case Released => 0
  }

  function PendingRows(rows: seq<Claim>): nat {
    if rows == [] then 0
    else PendingRows(rows[..|rows| - 1]) + if rows[|rows| - 1].status.Pending? then 1 else 0
  }

  lemma {:induction false} FewerPending(a: seq<Claim>, b: seq<Claim>, k: int)
    requires |a| == |b| && k < |a|
    requires forall i :: 0 <= i < |a| && b[i].status.Pending? ==> a[i].status.Pending?
    requires k >= 0 ==> a[k].status.Pending? && !b[k].status.Pending?
    ensures PendingRows(b) <= PendingRows(a) && (k >= 0 ==> PendingRows(b) < PendingRows(a))
  {
    if a != [] {
      var n := |a| - 1;
      FewerPending(a[..n], b[..n], if k < n then k else -1);
    }
  }

  /** The head of a queue with work in it always has a step to take, and takes it one step on. */
  function HeadStep(q: Q.Queue): Q.Event
    requires Q.Chain(q) && q.pending > 0
  {
    match q.tasks[q.Head()].phase
    case Waiting => Q.BeginTask(q.Head())
    case Running => Q.FinishTask(q.Head())
    case Finished => Q.ReleaseTask(q.Head())
    case Released => Q.Elapse(0)
  }

  lemma HeadMoves(q: Q.Queue, now: nat, residence: nat)
    requires Q.Inv(q, now, residence) && q.pending > 0
    ensures var e := HeadStep(q);
            && !e.Elapse? && Q.Possible(Q.World(q, now), e, residence)
            && var q' := Q.Next(Q.World(q, now), e, residence).queue;
               Q.Chain(q') && Work(q') < Work(q)
  {
    var h := q.Head();
    hide Q.Timed;
    match q.tasks[h].phase
    case Waiting => Q.BeginKeepsChain(q, h, now);
    case Running => Q.FinishKeepsChain(q, h, now);
    case Finished => Q.ReleaseKeepsChain(q, h);
    case Released => assert false;
  }

  /** One step that is not time passing. */
  ghost predicate QuietSteps(p: Policy, s: State, s': State) {
    exists step: Step :: !step.Wait? && Enabled(p, s, step) && s' == Do(p, s, step)
  }

  ghost predicate QuietPath(p: Policy, path: seq<State>) {
    |path| > 0 && forall k :: 0 <= k < |path| - 1 ==> QuietSteps(p, path[k], path[k + 1])
  }

  lemma PathFrom(p: Policy, s: State, step: Step, rest: seq<State>)
    requires !step.Wait? && Enabled(p, s, step) && QuietPath(p, rest) && rest[0] == Do(p, s, step)
    ensures QuietPath(p, [s] + rest)
  {
    var path := [s] + rest;
    forall k | 0 <= k < |path| - 1 ensures QuietSteps(p, path[k], path[k + 1]) {
      if k > 0 {
        assert QuietSteps(p, rest[k - 1], rest[k]);
      }
    }
  }

  function AllWork(p: Policy, s: State): nat
    requires QueuesOk(p, s)
  {
    Work(s.taz) + Work(s.ctaz)
  }

  lemma QueueMoves(p: Policy, s: State, n: Network) returns (step: Step)
    requires BasicInv(p, s) && s.QueueOf(n).pending > 0
    ensures !step.Wait? && Enabled(p, s, step)
    ensures var s' := Do(p, s, step);
            BasicInv(p, s') && s'.nowMs == s.nowMs && AllWork(p, s') < AllWork(p, s)
  {
    var e := HeadStep(s.QueueOf(n));
    HeadMoves(s.QueueOf(n), s.nowMs, p.sendResidenceMs);
    step := QueueStep(n, e);
    hide Work, Q.Possible, Q.Next, HeadStep;
    StepKeepsBasics(p, s, step);
  }

  predicate Due(s: State, id: nat) {
    s.HasTask(id) && s.history[id].status.Pending? && s.TaskOf(id).Answered()
  }

  lemma FinalisingLeavesFewer(s: State, id: nat)
    requires Due(s, id)
    requires forall i :: 0 <= i < |s.history| ==> s.history[i].id == i
    ensures PendingRows(Finalized(s.history, id, Sent, None)) < PendingRows(s.history)
  {
    FinalizedAt(s.history, id, Sent, None);
    FewerPending(s.history, Finalized(s.history, id, Sent, None), id);
  }

  lemma DueFinalises(p: Policy, s: State, id: nat) returns (step: Step)
    requires BasicInv(p, s) && Due(s, id)
    ensures !step.Wait? && Enabled(p, s, step)
    ensures var s' := Do(p, s, step);
            && BasicInv(p, s') && s'.nowMs == s.nowMs && AllWork(p, s') == AllWork(p, s)
            && PendingRows(s'.history) < PendingRows(s.history)
  {
    step := Finalise(id, Sent, None);
    assert forall i :: 0 <= i < |s.history| ==> s.history[i].id == i;
    assert Enabled(p, s, step);
    hide BasicInv, Enabled, PendingRows, Work, Finalized;
    StepKeepsBasics(p, s, step);
    FinalisingLeavesFewer(s, id);
  }

  lemma IdleQueueElapses(q: Q.Queue, until: nat, residence: nat)
    requires Q.Chain(q) && q.pending == 0
    ensures Q.CanElapse(q, until, residence)
  {
  }

  lemma IdleStateWaits(p: Policy, s: State, untilMs: nat)
    requires BasicInv(p, s) && s.taz.pending == 0 && s.ctaz.pending == 0 && s.nowMs <= untilMs
    requires forall id: nat :: !Due(s, id)
    ensures Enabled(p, s, Wait(untilMs))
  {
    IdleQueueElapses(s.taz, untilMs, p.sendResidenceMs);
    IdleQueueElapses(s.ctaz, untilMs, p.sendResidenceMs);
    forall id: nat | id < |s.history| ensures FinalisesBy(s, id, untilMs) {
      assert !Due(s, id);
    }
    hide Q.CanElapse, Q.Chain, FinalisesBy;
  }

  /** A step that leaves less to do, or none because nothing is due. */
  lemma OneStepCloser(p: Policy, s: State) returns (step: Option<Step>)
    requires BasicInv(p, s)
    ensures step.None? ==> s.taz.pending == 0 && s.ctaz.pending == 0 && forall id: nat :: !Due(s, id)
    ensures step.Some? ==>
              && !step.value.Wait? && Enabled(p, s, step.value)
              && var s' := Do(p, s, step.value);
                 && BasicInv(p, s') && s'.nowMs == s.nowMs
                 && (|| AllWork(p, s') < AllWork(p, s)
                     || (AllWork(p, s') == AllWork(p, s) && PendingRows(s'.history) < PendingRows(s.history)))
  {
    assert s.taz.pending >= 0 && s.ctaz.pending >= 0;
    hide BasicInv, Enabled, Do, Due, AllWork, PendingRows;
    step := None;
    if s.taz.pending > 0 {
      var move := QueueMoves(p, s, Taz);
      step := Some(move);
    } else if s.ctaz.pending > 0 {
      var move := QueueMoves(p, s, Ctaz);
      step := Some(move);
    } else if id: nat :| Due(s, id) {
      var finalise := DueFinalises(p, s, id);
      step := Some(finalise);
    }
  }

  lemma {:induction false} QuietPathToTime(p: Policy, s: State, untilMs: nat) returns (path: seq<State>)
    requires BasicInv(p, s) && s.nowMs <= untilMs
    ensures QuietPath(p, path) && path[0] == s && Enabled(p, path[|path| - 1], Wait(untilMs))
    decreases AllWork(p, s), PendingRows(s.history)
  {
    var step := OneStepCloser(p, s);
    if step.None? {
      IdleStateWaits(p, s, untilMs);
      path := [s];
    } else {
      hide BasicInv, Enabled, Do, AllWork, PendingRows, QuietPath;
      var rest := QuietPathToTime(p, Do(p, s, step.value), untilMs);
      PathFrom(p, s, step.value, rest);
      path := [s] + rest;
    }
  }

  /** Time can always go on, to any moment: from every state of every run there is a finite path of
      other steps to a state in which it does. */
  lemma TimeCanAlwaysPass(p: Policy, run: seq<State>, k: nat, untilMs: nat) returns (path: seq<State>)
    requires IsRun(p, run) && k < |run| && run[k].nowMs <= untilMs
    ensures QuietPath(p, path) && path[0] == run[k] && Enabled(p, path[|path| - 1], Wait(untilMs))
  {
    RunKeepsBasics(p, run, k);
    path := QuietPathToTime(p, run[k], untilMs);
  }
}
