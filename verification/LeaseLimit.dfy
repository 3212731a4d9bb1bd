/** The least safe lease. Below it there is a run that pays one address twice inside its cooldown:
    the lease of a claim that waited behind a full queue ends before its handler does. */
module LeaseLimit {
  import opened Wrappers
  import opened Claims
  import opened ClaimProtocol
  import opened ClaimSafety
  import opened Witnesses
  import Q = SendQueue

  ghost predicate NeverPaysTwice(p: Policy, drip: nat) {
    forall run: seq<State>, k: nat, i: nat, j: nat ::
      IsRun(p, run) && k < |run| && Drips(run[k], drip) && i < j && Payable(run[k], i) && Payable(run[k], j)
      && SameAddress(run[k].history[i], run[k].history[j])
      ==> run[k].history[j].createdAt >= run[k].history[i].createdAt + p.cooldownSeconds
  }

  // ---- a lease as long as the cooldown ----

  /** Claims of one address that did not fail were created a cooldown apart. */
  predicate Spaced(p: Policy, history: seq<Claim>) {
    forall i, j :: 0 <= i < j < |history| && SameAddress(history[i], history[j])
                   && !history[i].status.Failed? && !history[j].status.Failed?
                   ==> history[i].createdAt + p.cooldownSeconds <= history[j].createdAt
  }

  lemma ReserveKeepsSpaced(p: Policy, s: State, r: Request)
    requires p.leaseSeconds >= p.cooldownSeconds
    requires BasicInv(p, s) && Spaced(p, s.history) && Enabled(p, s, Reserve(r))
    ensures Spaced(p, Do(p, s, Reserve(r)).history)
  {
    if Accepts(s.table, r, p) {
      var x := NewRow(|s.history|, r);
      forall i | 0 <= i < |s.history| && SameAddress(s.history[i], x) && !s.history[i].status.Failed?
        ensures s.history[i].createdAt + p.cooldownSeconds <= x.createdAt
      {
        if i !in s.purged {
          KeptHolds(s.history, s.purged, i);
        }
      }
    }
  }

  /** Rows keep their address and creation time, and a failed row stays failed. */
  lemma ResolvingKeepsSpaced(p: Policy, a: seq<Claim>, b: seq<Claim>)
    requires Spaced(p, a) && |a| == |b|
    requires forall i :: 0 <= i < |a| ==>
               && b[i] == a[i].(status := b[i].status, txid := b[i].txid)
               && (a[i].status.Failed? ==> b[i].status.Failed?)
    ensures Spaced(p, b)
  {
    forall i, j | 0 <= i < j < |b| && SameAddress(b[i], b[j]) && !b[i].status.Failed? && !b[j].status.Failed?
      ensures b[i].createdAt + p.cooldownSeconds <= b[j].createdAt
    {
      assert SameAddress(a[i], a[j]);
    }
  }

  lemma FinaliseKeepsSpaced(p: Policy, s: State, id: nat, status: Status, txid: Option<string>)
    requires TableOk(p, s) && Spaced(p, s.history) && Enabled(p, s, Finalise(id, status, txid))
    ensures Spaced(p, Finalized(s.history, id, status, txid))
  {
    FinalizedAt(s.history, id, status, txid);
    assert s.history[id].id == id && s.history[id].status.Pending?;
    assert forall i :: 0 <= i < |s.history| ==> s.history[i].id == i;
    hide TableOk, Enabled, Finalized, Spaced;
    ResolvingKeepsSpaced(p, s.history, Finalized(s.history, id, status, txid));
  }

  lemma QuietStepKeepsHistory(p: Policy, s: State, step: Step)
    requires Enabled(p, s, step) && !step.Reserve? && !step.Finalise?
    ensures Do(p, s, step).history == s.history
  {
  }

  lemma StepKeepsSpaced(p: Policy, s: State, step: Step)
    requires p.leaseSeconds >= p.cooldownSeconds
    requires BasicInv(p, s) && Spaced(p, s.history) && Enabled(p, s, step)
    ensures Spaced(p, Do(p, s, step).history)
  {
    assert TableOk(p, s);
    hide BasicInv, Spaced, Enabled, TableOk;
    match step
    case Reserve(r) => ReserveKeepsSpaced(p, s, r);
    case Finalise(id, status, txid) =>
      hide Finalized;
      FinaliseKeepsSpaced(p, s, id, status, txid);
      assert Do(p, s, step).history == Finalized(s.history, id, status, txid);
    case _ =>
      hide Do;
      QuietStepKeepsHistory(p, s, step);
  }

  lemma MovingKeepsSpaced(p: Policy, s: State, s': State)
    requires p.leaseSeconds >= p.cooldownSeconds && BasicInv(p, s) && Spaced(p, s.history) && Steps(p, s, s')
    ensures Spaced(p, s'.history)
  {
    hide BasicInv, Spaced, Enabled, Do;
    var step :| Enabled(p, s, step) && s' == Do(p, s, step);
    StepKeepsSpaced(p, s, step);
  }

  lemma {:induction false} RunIsSpaced(p: Policy, run: seq<State>, k: nat)
    requires p.leaseSeconds >= p.cooldownSeconds && IsRun(p, run) && k < |run|
    ensures BasicInv(p, run[k]) && Spaced(p, run[k].history)
  {
    RunKeepsBasics(p, run, k);
    if k > 0 {
      assert Steps(p, run[k - 1], run[k]);
      hide *;
      RunIsSpaced(p, run, k - 1);
      MovingKeepsSpaced(p, run[k - 1], run[k]);
    }
  }

  /** Such a lease needs no bound on the queue at all. */
  lemma LongLeaseIsSafe(p: Policy, run: seq<State>, k: nat, i: nat, j: nat)
    requires p.leaseSeconds >= p.cooldownSeconds && IsRun(p, run) && k < |run|
    requires i < j && Payable(run[k], i) && Payable(run[k], j)
    requires SameAddress(run[k].history[i], run[k].history[j])
    ensures run[k].history[j].createdAt >= run[k].history[i].createdAt + p.cooldownSeconds
  {
    RunIsSpaced(p, run, k);
    assert HandlerOk(run[k], i) && HandlerOk(run[k], j);
  }

  // ---- steps of one queue ----

  /** The run goes on with one step of the TAZ queue. */
  lemma QueueGoesOn(p: Policy, run: seq<State>, e: Q.Event) returns (longer: seq<State>)
    requires IsRun(p, run) && BasicInv(p, Last(run)) && !e.Elapse?
    requires Q.Possible(Q.World(Last(run).taz, Last(run).nowMs), e, p.sendResidenceMs)
    ensures IsRun(p, longer) && BasicInv(p, Last(longer))
    ensures var s := Last(run);
            Last(longer) == s.(taz := Q.Next(Q.World(s.taz, s.nowMs), e, p.sendResidenceMs).queue)
  {
    assert |run| > 0;
    hide BasicInv, IsRun, Q.Possible, Q.Next;
    var step := QueueStep(Taz, e);
    StepKeepsBasics(p, Last(run), step);
    longer := RunGrows(p, run, step);
  }

  /** The run goes on with some time. */
  lemma TimePasses(p: Policy, run: seq<State>, untilMs: nat) returns (longer: seq<State>)
    requires IsRun(p, run) && BasicInv(p, Last(run)) && Enabled(p, Last(run), Wait(untilMs))
    ensures IsRun(p, longer) && BasicInv(p, Last(longer)) && Last(longer) == Last(run).(nowMs := untilMs)
  {
    assert |run| > 0;
    hide BasicInv, IsRun, Enabled;
    StepKeepsBasics(p, Last(run), Wait(untilMs));
    longer := RunGrows(p, run, Wait(untilMs));
  }

  /** `k` tasks of `n` have left, the rest wait. */
  predicate Line(q: Q.Queue, n: nat, k: nat) {
    && Q.Chain(q) && k <= n
    && |q.tasks| == n && q.pending == n - k
    && forall i :: k <= i < n ==> q.tasks[i].phase.Waiting?
  }

  /** As `Line`, but the task at the head is running since `at`. */
  predicate HeadRuns(q: Q.Queue, n: nat, k: nat, at: nat) {
    && Q.Chain(q) && k < n
    && |q.tasks| == n && q.pending == n - k
    && q.tasks[k].phase.Running? && !q.tasks[k].expired && q.tasks[k].startedAt == at
    && forall i :: k < i < n ==> q.tasks[i].phase.Waiting?
  }

  lemma LineGrows(q: Q.Queue, n: nat, now: nat)
    requires Line(q, n, 0) && Q.HasRoom(q)
    ensures Line(Q.Admit(q, 0, now), n + 1, 0)
  {
    Q.AdmitKeepsChain(q, 0, now);
  }

  lemma LineMoves(q: Q.Queue, n: nat, k: nat, now: nat)
    requires Line(q, n, k) && k < n
    ensures Q.CanBegin(q, k) && HeadRuns(Q.Begin(q, k, now), n, k, now)
  {
    Q.BeginKeepsChain(q, k, now);
  }

  lemma HeadTakesTime(q: Q.Queue, n: nat, k: nat, at: nat, tookMs: nat, residence: nat)
    requires HeadRuns(q, n, k, at) && tookMs <= residence
    ensures Q.CanElapse(q, at + tookMs, residence)
    ensures forall i :: k <= i < n ==> !q.tasks[i].Answered()
  {
  }

  lemma HeadLeaves(q: Q.Queue, n: nat, k: nat, at: nat, now: nat)
    requires HeadRuns(q, n, k, at)
    ensures var q' := Q.Finish(q, k, now);
            Q.CanFinish(q, k) && Q.CanRelease(q', k) && Line(Q.Release(q', k), n, k + 1)
  {
    Q.FinishKeepsChain(q, k, now);
    Q.ReleaseKeepsChain(Q.Finish(q, k, now), k);
  }

  // ---- the queue fills up ----

  /** The route as it should go: `others` tasks of other work are ahead of the claim and take a
      residence each, its own takes `ownMs`; it has been paid when the margin still reaches the
      end of its lease. Its claims ask for `drip` zatoshi each. */
  datatype Plan = Plan(others: nat, ownMs: nat, drip: nat)
  {
    predicate Fits(p: Policy) {
      && others < p.sendQueueMaxPending && ownMs <= p.sendResidenceMs && 2 * drip <= p.tazDailyCap
      && PaidAt(p) <= 1000 * p.leaseSeconds <= PaidAt(p) + MARGIN_MS
    }

    /** When `k` tasks have been served. */
    function Moment(p: Policy, k: nat): nat {
      ProductIsNatural(k, p.sendResidenceMs);
      k * p.sendResidenceMs
    }

    function PaidAt(p: Policy): nat { Moment(p, others) + ownMs }

    function Ask(now: int): Request { Request("a", "", "", drip, now, Taz) }

    function First(): Claim { NewRow(0, Ask(0)) }
  }

  lemma NextMoment(plan: Plan, p: Policy, k: nat)
    ensures plan.Moment(p, k + 1) == plan.Moment(p, k) + p.sendResidenceMs
  {
  }

  /** Any time up to a full queue of residences is some residences and a part of one. */
  lemma {:induction false} Divides(at: nat, n: nat, residence: nat) returns (k: nat, rest: nat)
    requires n >= 1 && at <= n * residence
    ensures k < n && rest <= residence && at == k * residence + rest
  {
    if at <= residence {
      k, rest := 0, at;
    } else {
      assert n * residence == (n - 1) * residence + residence;
      if n == 1 {
        assert false;
      }
      k, rest := Divides(at - residence, n - 1, residence);
      assert (k + 1) * residence == k * residence + residence;
      k := k + 1;
    }
  }

  lemma PlanExists(p: Policy, drip: nat) returns (plan: Plan)
    requires p.sendQueueMaxPending >= 1 && 2 * drip <= p.tazDailyCap && !p.LeaseCovers()
    ensures plan.Fits(p) && plan.drip == drip
  {
    ProductIsNatural(p.sendQueueMaxPending, p.sendResidenceMs);
    var at := if 1000 * p.leaseSeconds < MARGIN_MS then 0 else 1000 * p.leaseSeconds - MARGIN_MS;
    var k, rest := Divides(at, p.sendQueueMaxPending, p.sendResidenceMs);
    plan := Plan(k, rest, drip);
  }

  /** Claim 0 is still pending; nothing has been paid and the other queue is idle. */
  predicate OneClaim(p: Policy, plan: Plan, s: State) {
    && s.table == [plan.First()] && s.history == [plan.First()] && s.paid == {}
    && s.ctaz == Q.Empty(p.sendQueueMaxPending)
  }

  predicate Filling(p: Policy, plan: Plan, s: State, j: nat) {
    && BasicInv(p, s) && OneClaim(p, plan, s)
    && s.handlers == [Holding] && s.nowMs == 0
    && Line(s.taz, j, 0) && s.taz.maxPending == p.sendQueueMaxPending
  }

  lemma FirstIsAccepted(p: Policy, plan: Plan)
    requires plan.Fits(p)
    ensures Accepts([], plan.Ask(0), p)
  {
  }

  lemma ClaimWaits(p: Policy, plan: Plan) returns (run: seq<State>)
    requires plan.Fits(p)
    ensures IsRun(p, run) && Filling(p, plan, Last(run), 0)
  {
    run := RunStarts(p);
    assert BasicInv(p, Initial(p));
    FirstIsAccepted(p, plan);
    hide Accepts, IsRun, BasicInv;
    StepKeepsBasics(p, Last(run), Reserve(plan.Ask(0)));
    run := RunGrows(p, run, Reserve(plan.Ask(0)));
    assert Last(run).table == [plan.First()];
  }

  lemma {:induction false} QueueFills(p: Policy, plan: Plan, j: nat) returns (run: seq<State>)
    requires plan.Fits(p) && j <= plan.others
    ensures IsRun(p, run) && Filling(p, plan, Last(run), j)
  {
    if j == 0 {
      run := ClaimWaits(p, plan);
    } else {
      var shorter := QueueFills(p, plan, j - 1);
      LineGrows(Last(shorter).taz, j - 1, 0);
      hide BasicInv, IsRun, Line, Q.Admit;
      run := QueueGoesOn(p, shorter, Q.Arrive(0));
    }
  }

  // ---- and is served, a residence each ----

  /** `k` tasks have been served; the claim's own is the last. */
  predicate Serving(p: Policy, plan: Plan, s: State, k: nat) {
    && BasicInv(p, s) && OneClaim(p, plan, s)
    && s.handlers == [Joined(plan.others, 0)]
    && s.nowMs == plan.Moment(p, k)
    && Line(s.taz, plan.others + 1, k)
  }

  /** The task at the head has had its time and has not settled yet. */
  predicate Busy(p: Policy, plan: Plan, s: State, k: nat, tookMs: nat) {
    && BasicInv(p, s) && OneClaim(p, plan, s)
    && s.handlers == [Joined(plan.others, 0)]
    && s.nowMs == plan.Moment(p, k) + tookMs
    && HeadRuns(s.taz, plan.others + 1, k, plan.Moment(p, k))
  }

  lemma JoiningDoes(p: Policy, plan: Plan, s: State)
    requires plan.Fits(p) && Filling(p, plan, s, plan.others)
    ensures Enabled(p, s, Join(0, 0))
    ensures var s' := Do(p, s, Join(0, 0));
            s' == s.(taz := Q.Admit(s.taz, 0, 0), handlers := [Joined(plan.others, 0)])
    ensures Line(Q.Admit(s.taz, 0, 0), plan.others + 1, 0)
  {
    LineGrows(s.taz, plan.others, 0);
    hide BasicInv, Q.Admit;
  }

  lemma ClaimJoinsLast(p: Policy, plan: Plan) returns (run: seq<State>)
    requires plan.Fits(p)
    ensures IsRun(p, run) && Serving(p, plan, Last(run), 0)
  {
    var filled := QueueFills(p, plan, plan.others);
    JoiningDoes(p, plan, Last(filled));
    assert plan.Moment(p, 0) == 0;
    hide BasicInv, IsRun, Enabled, Do, Line, Q.Admit, Plan.Fits, Plan.Moment;
    StepKeepsBasics(p, Last(filled), Join(0, 0));
    run := RunGrows(p, filled, Join(0, 0));
  }

  lemma HeadBegins(p: Policy, run: seq<State>, n: nat, k: nat) returns (longer: seq<State>)
    requires IsRun(p, run) && BasicInv(p, Last(run)) && Line(Last(run).taz, n, k) && k < n
    ensures |longer| > 0 && IsRun(p, longer) && BasicInv(p, Last(longer))
    ensures var s := Last(run);
            && Last(longer) == s.(taz := Last(longer).taz)
            && HeadRuns(Last(longer).taz, n, k, s.nowMs)
  {
    var s := Last(run);
    LineMoves(s.taz, n, k, s.nowMs);
    hide BasicInv, IsRun, HeadRuns, Line, Q.Begin, Q.CanBegin;
    longer := QueueGoesOn(p, run, Q.BeginTask(k));
  }

  /** A handler that waits for a task which is not answered does not keep time from passing. */
  lemma TimeMayPass(p: Policy, plan: Plan, s: State, k: nat, tookMs: nat)
    requires OneClaim(p, plan, s) && s.handlers == [Joined(plan.others, 0)]
    requires HeadRuns(s.taz, plan.others + 1, k, s.nowMs) && tookMs <= p.sendResidenceMs
    ensures Enabled(p, s, Wait(s.nowMs + tookMs))
  {
    HeadTakesTime(s.taz, plan.others + 1, k, s.nowMs, tookMs, p.sendResidenceMs);
    assert |s.taz.tasks| == plan.others + 1;
    assert Q.CanElapse(s.ctaz, s.nowMs + tookMs, p.sendResidenceMs);
    hide HeadRuns, Q.CanElapse;
  }

  lemma HeadIsServed(p: Policy, plan: Plan, run: seq<State>, k: nat, tookMs: nat) returns (longer: seq<State>)
    requires IsRun(p, run) && Serving(p, plan, Last(run), k) && k <= plan.others && tookMs <= p.sendResidenceMs
    ensures IsRun(p, longer) && Busy(p, plan, Last(longer), k, tookMs)
  {
    hide BasicInv, IsRun, HeadRuns, Line, Plan.Moment, Enabled;
    var begun := HeadBegins(p, run, plan.others + 1, k);
    TimeMayPass(p, plan, Last(begun), k, tookMs);
    longer := TimePasses(p, begun, Last(begun).nowMs + tookMs);
  }

  lemma TaskSettles(p: Policy, run: seq<State>, n: nat, k: nat, at: nat) returns (longer: seq<State>)
    requires IsRun(p, run) && BasicInv(p, Last(run)) && HeadRuns(Last(run).taz, n, k, at)
    ensures IsRun(p, longer) && BasicInv(p, Last(longer))
    ensures var s := Last(run);
            Last(longer) == s.(taz := Last(longer).taz) && Line(Last(longer).taz, n, k + 1)
  {
    var s := Last(run);
    HeadLeaves(s.taz, n, k, at, s.nowMs);
    hide BasicInv, IsRun, HeadRuns, Line, Q.Finish, Q.Release, Q.CanFinish, Q.CanRelease;
    var finished := QueueGoesOn(p, run, Q.FinishTask(k));
    longer := QueueGoesOn(p, finished, Q.ReleaseTask(k));
  }

  lemma HeadGoes(p: Policy, plan: Plan, run: seq<State>, k: nat) returns (longer: seq<State>)
    requires IsRun(p, run) && Busy(p, plan, Last(run), k, p.sendResidenceMs) && k < plan.others
    ensures IsRun(p, longer) && Serving(p, plan, Last(longer), k + 1)
  {
    NextMoment(plan, p, k);
    hide BasicInv, IsRun, HeadRuns, Line, Plan.Moment;
    longer := TaskSettles(p, run, plan.others + 1, k, plan.Moment(p, k));
  }

  lemma {:induction false} ServedUpTo(p: Policy, plan: Plan, k: nat) returns (run: seq<State>)
    requires plan.Fits(p) && k <= plan.others
    ensures IsRun(p, run) && Serving(p, plan, Last(run), k)
  {
    hide IsRun, Serving, Busy;
    if k == 0 {
      run := ClaimJoinsLast(p, plan);
    } else {
      var shorter := ServedUpTo(p, plan, k - 1);
      var busy := HeadIsServed(p, plan, shorter, k - 1, p.sendResidenceMs);
      run := HeadGoes(p, plan, busy, k - 1);
    }
  }

  // ---- the claim is paid, and its lease runs out ----

  /** The claim's send has succeeded at `PaidAt`; its handler has not finalised. */
  predicate PaidOnce(p: Policy, plan: Plan, s: State) {
    && s.table == [plan.First()] && s.history == [plan.First()] && s.paid == {0}
    && s.ctaz == Q.Empty(p.sendQueueMaxPending)
    && Line(s.taz, plan.others + 1, plan.others + 1)
    && s.taz.tasks[plan.others].answeredAt == plan.PaidAt(p)
    && s.handlers == [Joined(plan.others, 0)]
  }

  lemma PaymentDoes(p: Policy, plan: Plan, s: State, task: nat)
    requires OneClaim(p, plan, s) && s.handlers == [Joined(task, 0)]
    requires task < |s.taz.tasks| && s.taz.tasks[task].phase.Running?
    ensures Enabled(p, s, Pay(0))
    ensures Do(p, s, Pay(0)) == s.(taz := Q.Finish(s.taz, task, s.nowMs), paid := {0})
  {
    hide Q.Finish;
  }

  lemma SendSucceeds(p: Policy, plan: Plan, run: seq<State>) returns (longer: seq<State>)
    requires IsRun(p, run) && Busy(p, plan, Last(run), plan.others, plan.ownMs)
    ensures IsRun(p, longer) && BasicInv(p, Last(longer))
    ensures var s := Last(run);
            Last(longer) == s.(taz := Q.Finish(s.taz, plan.others, s.nowMs), paid := {0})
  {
    var s := Last(run);
    PaymentDoes(p, plan, s, plan.others);
    hide BasicInv, IsRun, HeadRuns, Q.Finish, Plan.Moment, Enabled, Do, OneClaim;
    StepKeepsBasics(p, s, Pay(0));
    longer := RunGrows(p, run, Pay(0));
  }

  /** A head that ended without its deadline was answered when it ended. */
  lemma AnsweredAtTheEnd(q: Q.Queue, n: nat, k: nat, at: nat, now: nat)
    requires HeadRuns(q, n, k, at)
    ensures k < |Q.Release(Q.Finish(q, k, now), k).tasks|
    ensures Q.Release(Q.Finish(q, k, now), k).tasks[k].answeredAt == now
  {
  }

  /** What is left once the paid task has been released. */
  lemma PaidTaskLeaves(p: Policy, plan: Plan, s: State, q: Q.Queue)
    requires Busy(p, plan, s, plan.others, plan.ownMs)
    requires q == Q.Release(Q.Finish(s.taz, plan.others, s.nowMs), plan.others)
    ensures PaidOnce(p, plan, s.(taz := q, paid := {0}))
  {
    HeadLeaves(s.taz, plan.others + 1, plan.others, plan.Moment(p, plan.others), s.nowMs);
    AnsweredAtTheEnd(s.taz, plan.others + 1, plan.others, plan.Moment(p, plan.others), s.nowMs);
    hide BasicInv, Q.Finish, Q.Release, HeadRuns, Plan.Moment;
  }

  lemma PaidTaskIsReleased(p: Policy, plan: Plan, run: seq<State>) returns (longer: seq<State>)
    requires IsRun(p, run) && Busy(p, plan, Last(run), plan.others, plan.ownMs)
    ensures IsRun(p, longer) && BasicInv(p, Last(longer))
    ensures var s := Last(run);
            var q := Q.Release(Q.Finish(s.taz, plan.others, s.nowMs), plan.others);
            Last(longer) == s.(taz := q, paid := {0})
  {
    var s := Last(run);
    HeadLeaves(s.taz, plan.others + 1, plan.others, plan.Moment(p, plan.others), s.nowMs);
    hide BasicInv, IsRun, Busy, Line, Q.Finish, Q.Release, Q.CanRelease;
    var paid := SendSucceeds(p, plan, run);
    longer := QueueGoesOn(p, paid, Q.ReleaseTask(plan.others));
  }

  lemma ClaimIsPaid(p: Policy, plan: Plan) returns (run: seq<State>)
    requires plan.Fits(p)
    ensures IsRun(p, run) && BasicInv(p, Last(run)) && PaidOnce(p, plan, Last(run))
    ensures Last(run).nowMs == plan.PaidAt(p)
  {
    var n := plan.others;
    var served := ServedUpTo(p, plan, n);
    assert plan.ownMs <= p.sendResidenceMs;
    hide BasicInv, IsRun, Serving, HeadRuns, OneClaim, PaidOnce, Q.Finish, Q.Release, Plan.Moment, Plan.Fits;
    var busy := HeadIsServed(p, plan, served, n, plan.ownMs);
    run := PaidTaskIsReleased(p, plan, busy);
    PaidTaskLeaves(p, plan, Last(busy), Last(run).taz);
  }

  /** Nothing in the queues is due, and the handler may still take its time. */
  lemma LeaseMayRunOut(p: Policy, plan: Plan, s: State)
    requires plan.Fits(p) && PaidOnce(p, plan, s) && s.nowMs <= 1000 * p.leaseSeconds
    ensures Enabled(p, s, Wait(1000 * p.leaseSeconds))
  {
    hide BasicInv, Plan.Moment;
    assert Q.CanElapse(s.taz, 1000 * p.leaseSeconds, p.sendResidenceMs);
    assert Q.CanElapse(s.ctaz, 1000 * p.leaseSeconds, p.sendResidenceMs);
    hide Q.CanElapse, Line;
  }

  lemma LeaseRunsOut(p: Policy, plan: Plan) returns (run: seq<State>)
    requires plan.Fits(p)
    ensures IsRun(p, run) && BasicInv(p, Last(run)) && PaidOnce(p, plan, Last(run))
    ensures Last(run).nowMs == 1000 * p.leaseSeconds
  {
    var paid := ClaimIsPaid(p, plan);
    LeaseMayRunOut(p, plan, Last(paid));
    hide BasicInv, IsRun, Line, Enabled, Plan.Moment;
    run := TimePasses(p, paid, 1000 * p.leaseSeconds);
  }

  // ---- and its address is served again ----

  /** The claim's row no longer blocks its address, which has reserved again. */
  predicate ReservedAgain(p: Policy, plan: Plan, s: State) {
    && s.history == [plan.First(), NewRow(1, plan.Ask(p.leaseSeconds))] && 0 in s.paid
    && s.nowMs == 1000 * p.leaseSeconds
    && Line(s.taz, plan.others + 1, plan.others + 1)
    && |s.handlers| == 2 && s.handlers[1].Holding?
  }

  lemma SecondIsAccepted(p: Policy, plan: Plan)
    requires plan.Fits(p)
    ensures Accepts([plan.First()], plan.Ask(p.leaseSeconds), p)
  {
    OneRow(plan.First(), Clause(ByNetwork(Taz), DayCuts(p.leaseSeconds, p)), Zatoshi);
  }

  lemma ReservingDoes(p: Policy, plan: Plan, s: State)
    requires plan.Fits(p) && PaidOnce(p, plan, s) && s.nowMs == 1000 * p.leaseSeconds
    ensures Enabled(p, s, Reserve(plan.Ask(p.leaseSeconds)))
    ensures ReservedAgain(p, plan, Do(p, s, Reserve(plan.Ask(p.leaseSeconds))))
  {
    SecondIsAccepted(p, plan);
    hide BasicInv, Accepts, Line, Plan.Fits, Plan.Moment;
  }

  lemma AddressReservesAgain(p: Policy, plan: Plan) returns (run: seq<State>)
    requires plan.Fits(p)
    ensures IsRun(p, run) && BasicInv(p, Last(run)) && ReservedAgain(p, plan, Last(run))
  {
    var again := Reserve(plan.Ask(p.leaseSeconds));
    var waited := LeaseRunsOut(p, plan);
    assert BasicInv(p, Last(waited));
    hide BasicInv, IsRun, Accepts, Line, Enabled, Do, PaidOnce, ReservedAgain, Plan.Fits;
    ReservingDoes(p, plan, Last(waited));
    StepKeepsBasics(p, Last(waited), again);
    run := RunGrows(p, waited, again);
  }

  /** Claim 1 joins a queue with room at once and is paid at once. */
  lemma LateJoinerRuns(p: Policy, plan: Plan, run: seq<State>) returns (longer: seq<State>)
    requires plan.Fits(p) && IsRun(p, run) && BasicInv(p, Last(run)) && ReservedAgain(p, plan, Last(run))
    ensures IsRun(p, longer) && BasicInv(p, Last(longer))
    ensures var s, s' := Last(run), Last(longer);
            && s'.history == s.history && s'.paid == s.paid
            && s'.HasTask(1) && s'.TaskOf(1).phase.Running?
  {
    var s, n := Last(run), plan.others + 1;
    assert Enabled(p, s, Join(1, 0)) && Q.HasRoom(s.taz);
    Q.AdmitKeepsChain(s.taz, 0, s.nowMs);
    var q := Q.Admit(s.taz, 0, s.nowMs);
    assert Q.CanBegin(q, n);
    hide BasicInv, IsRun, Enabled, Q.Chain;
    StepKeepsBasics(p, s, Join(1, 0));
    var joined := RunGrows(p, run, Join(1, 0));
    assert Last(joined).taz == q;
    longer := QueueGoesOn(p, joined, Q.BeginTask(n));
  }

  /** Below the least lease an address is paid again when its first lease ends. */
  lemma AddressIsPaidAgain(p: Policy, drip: nat) returns (run: seq<State>)
    requires p.sendQueueMaxPending >= 1 && 2 * drip <= p.tazDailyCap && !p.LeaseCovers()
    ensures IsRun(p, run) && Payable(Last(run), 0) && Payable(Last(run), 1) && Drips(Last(run), drip)
    ensures |Last(run).history| == 2 && SameAddress(Last(run).history[0], Last(run).history[1])
    ensures Last(run).history[1].createdAt == Last(run).history[0].createdAt + p.leaseSeconds
  {
    var plan := PlanExists(p, drip);
    var reserved := AddressReservesAgain(p, plan);
    hide BasicInv, IsRun;
    var joined := LateJoinerRuns(p, plan, reserved);
    run := RunGrows(p, joined, Pay(1));
  }

  /** The least safe lease: when a queue admits anything at all and two drips fit under the cap, the
      faucet never pays an address twice inside its cooldown exactly when the lease is longer than
      a full queue of residences and the margin together, or as long as the cooldown. */
  lemma LeaseIsLeast(p: Policy, drip: nat)
    requires p.sendQueueMaxPending >= 1 && 2 * drip <= p.tazDailyCap
    ensures NeverPaysTwice(p, drip) <==>
              || p.sendQueueMaxPending * p.sendResidenceMs + 60_000 < 1000 * p.leaseSeconds
              || p.leaseSeconds >= p.cooldownSeconds
  {
    if p.LeaseCovers() || p.leaseSeconds >= p.cooldownSeconds {
      forall run: seq<State>, k: nat, i: nat, j: nat
        | IsRun(p, run) && k < |run| && Drips(run[k], drip) && i < j && Payable(run[k], i) && Payable(run[k], j)
          && SameAddress(run[k].history[i], run[k].history[j])
        ensures run[k].history[j].createdAt >= run[k].history[i].createdAt + p.cooldownSeconds
      {
        if p.LeaseCovers() {
          NoDoublePayment(p, run, k, i, j);
        } else {
          LongLeaseIsSafe(p, run, k, i, j);
        }
      }
    } else {
      var run := AddressIsPaidAgain(p, drip);
      hide IsRun;
      assert SameAddress(Last(run).history[0], Last(run).history[1]);
    }
  }
}
