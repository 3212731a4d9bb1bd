/** The claim protocol: ledger, send queues and request handlers as one transition system.

    A request reserves a pending row, joins its network's send queue, is answered by its own
    work or by its deadline, and then finalises its row. Any other work may share a queue, a
    handler may be lost before it joins, and a purge may run at any moment. A handler that has
    joined finalises within the margin of the lease once it is answered. `history` is the
    append-only table nobody purges; `paid` are the claims whose send succeeded. */
module ClaimProtocol {
  import opened Wrappers
  import opened Claims
  import Q = SendQueue

  /** Where a request's handler stands; its row says whether it has finalised. */
  datatype Handler =
    | Holding
    | TurnedAway
    | Joined(task: nat, lateMs: int)

  datatype State = State(
    nowMs: nat,
    table: seq<Claim>,
    history: seq<Claim>,
    purged: set<nat>,
    taz: Q.Queue,
    ctaz: Q.Queue,
    handlers: seq<Handler>,
    paid: set<nat>)
  {
    function NowSeconds(): nat { nowMs / 1000 }

    function QueueOf(network: Network): Q.Queue {
      if network.Taz? then taz else ctaz
    }

    function WithQueue(network: Network, q: Q.Queue): State {
      if network.Taz? then this.(taz := q) else this.(ctaz := q)
    }

    /** The queue entry of a claim whose handler has joined. */
    predicate HasTask(id: nat) {
      && id < |history| && id < |handlers| && handlers[id].Joined?
      && handlers[id].task < |QueueOf(history[id].network).tasks|
    }

    function TaskOf(id: nat): Q.Task
      requires HasTask(id)
    {
      QueueOf(history[id].network).tasks[handlers[id].task]
    }
  }

  function Initial(p: Policy): State {
    State(0, [], [], {}, Q.Empty(p.sendQueueMaxPending), Q.Empty(p.sendQueueMaxPending), [], {})
  }

  datatype Step =
    | Reserve(r: Request)
    | Join(id: nat, deadlineMs: nat)
    | QueueStep(network: Network, event: Q.Event)
    | Pay(id: nat)
    | Finalise(id: nat, status: Status, txid: Option<string>)
    | Purge(now: int)
    | Wait(untilMs: nat)

  const MARGIN_MS := 1000 * PENDING_LEASE_MARGIN_SECONDS

  /** A handler answered at time t finalises within what the margin leaves it. */
  predicate FinalisesBy(s: State, id: nat, untilMs: nat) {
    s.HasTask(id) && s.history[id].status.Pending? && s.TaskOf(id).Answered() ==>
      untilMs <= s.TaskOf(id).answeredAt + MARGIN_MS - s.handlers[id].lateMs
  }

  predicate Enabled(p: Policy, s: State, step: Step) {
    match step
    case Reserve(r) =>
      // the clock reading was taken when the request arrived
      s.NowSeconds() - RETENTION_GRACE <= r.now <= s.NowSeconds()
    case Join(id, _) =>
      && id < |s.history| && id < |s.handlers| && s.handlers[id].Holding?
      && s.nowMs - 1000 * s.history[id].createdAt <= MARGIN_MS
    case QueueStep(n, e) =>
      !e.Elapse? && Q.Possible(Q.World(s.QueueOf(n), s.nowMs), e, p.sendResidenceMs)
    case Pay(id) =>
      s.HasTask(id) && s.TaskOf(id).phase.Running?
    case Finalise(id, status, _) =>
      && id < |s.history| && id < |s.handlers| && s.history[id].status.Pending?
      && (s.handlers[id].TurnedAway? ==> status.Failed?)
      && (s.handlers[id].Joined? ==> s.HasTask(id) && s.TaskOf(id).Answered() && !status.Pending?)
      && (s.handlers[id].Joined? && status.Failed? ==> !s.TaskOf(id).expired && id !in s.paid)
      && !s.handlers[id].Holding?
    case Purge(now) =>
      now <= s.NowSeconds()
    case Wait(untilMs) =>
      && s.nowMs <= untilMs
      && Q.CanElapse(s.taz, untilMs, p.sendResidenceMs)
      && Q.CanElapse(s.ctaz, untilMs, p.sendResidenceMs)
      && forall id: nat :: id < |s.history| ==> FinalisesBy(s, id, untilMs)
  }

  function Do(p: Policy, s: State, step: Step): State
    requires Enabled(p, s, step)
  {
    match step
    case Reserve(r) =>
      if Accepts(s.table, r, p) then
        var row := NewRow(|s.history|, r);
        s.(table := s.table + [row], history := s.history + [row], handlers := s.handlers + [Holding])
      else s
    case Join(id, deadlineMs) =>
      var n := s.history[id].network;
      var q := s.QueueOf(n);
      if Q.HasRoom(q) then
        s.WithQueue(n, Q.Admit(q, deadlineMs, s.nowMs))
        .(handlers := s.handlers[id := Joined(|q.tasks|, s.nowMs - 1000 * s.history[id].createdAt)])
      else
        s.(handlers := s.handlers[id := TurnedAway])
    case QueueStep(n, e) =>
      s.WithQueue(n, Q.Next(Q.World(s.QueueOf(n), s.nowMs), e, p.sendResidenceMs).queue)
    case Pay(id) =>
      var n := s.history[id].network;
      s.WithQueue(n, Q.Finish(s.QueueOf(n), s.handlers[id].task, s.nowMs)).(paid := s.paid + {id})
    case Finalise(id, status, txid) =>
      s.(table := Finalized(s.table, id, status, txid), history := Finalized(s.history, id, status, txid))
    case Purge(now) =>
      var cut := RetentionCutoff(now, p);
      s.(table := Purged(s.table, cut),
         purged := s.purged + set i: nat | i < |s.history| && s.history[i].createdAt < cut)
    case Wait(untilMs) =>
      s.(nowMs := untilMs)
  }

  ghost predicate Steps(p: Policy, s: State, s': State) {
    exists step :: Enabled(p, s, step) && s' == Do(p, s, step)
  }

  ghost predicate IsRun(p: Policy, run: seq<State>) {
    && |run| > 0
    && run[0] == Initial(p)
    && forall k :: 0 <= k < |run| - 1 ==> Steps(p, run[k], run[k + 1])
  }

  // ---- queues and handlers ----

  predicate QueuesOk(p: Policy, s: State) {
    && Q.Inv(s.taz, s.nowMs, p.sendResidenceMs) && s.taz.maxPending == p.sendQueueMaxPending
    && Q.Inv(s.ctaz, s.nowMs, p.sendResidenceMs) && s.ctaz.maxPending == p.sendQueueMaxPending
  }

  predicate HandlerOk(s: State, id: nat)
    requires |s.handlers| == |s.history| && id < |s.history|
  {
    && 1000 * s.history[id].createdAt <= s.nowMs
    && FinalisesBy(s, id, s.nowMs)
    && (s.handlers[id].Joined? ==>
          && s.HasTask(id)
          && s.handlers[id].lateMs <= MARGIN_MS
          && s.TaskOf(id).admittedAt == 1000 * s.history[id].createdAt + s.handlers[id].lateMs)
    && (id in s.paid ==> s.HasTask(id) && s.TaskOf(id).Ended() && !s.history[id].status.Failed?)
    && (s.history[id].status.Failed? && s.HasTask(id) ==> s.TaskOf(id).Ended())
    && (s.handlers[id].Holding? ==> s.history[id].status.Pending?)
  }

  predicate HandlersOk(s: State) {
    && |s.handlers| == |s.history|
    && (forall id :: 0 <= id < |s.history| ==> HandlerOk(s, id))
    && (forall id <- s.paid :: id < |s.history|)
  }

  // ---- table and history ----

  /** The history with the purged rows left out. */
  function Kept(history: seq<Claim>, purged: set<nat>): seq<Claim> {
    if history == [] then []
    else
      var n := |history| - 1;
      var init := Kept(history[..n], purged);
      if n in purged then init else init + [history[n]]
  }

  predicate TableOk(p: Policy, s: State) {
    && (forall i :: 0 <= i < |s.history| ==> s.history[i].id == i)
    && s.table == Kept(s.history, s.purged)
    && (forall i <- s.purged :: i < |s.history| && s.history[i].createdAt < RetentionCutoff(s.NowSeconds(), p))
  }

  predicate BasicInv(p: Policy, s: State) {
    QueuesOk(p, s) && HandlersOk(s) && TableOk(p, s)
  }

  /** An answered handler that has not finalised is still within a full queue of residences and
      the margin, counted from the creation of its row. */
  lemma AnsweredHandlerIsYoung(p: Policy, s: State, id: nat)
    requires QueuesOk(p, s) && HandlersOk(s)
    requires s.HasTask(id) && s.history[id].status.Pending? && s.TaskOf(id).Answered()
    ensures s.nowMs <= 1000 * s.history[id].createdAt + p.AnswerAndFinaliseMs()
  {
    assert HandlerOk(s, id);
    Q.AnsweredSoon(s.QueueOf(s.history[id].network), s.nowMs, p.sendResidenceMs, s.handlers[id].task);
  }

  /** So it finalises inside its lease whenever the lease covers that. The lease the source derives
      does, with one whole residence to spare: the queue's bound already includes the send itself. */
  lemma FinaliseLandsInsideLease(p: Policy, s: State, id: nat)
    requires QueuesOk(p, s) && HandlersOk(s)
    requires s.HasTask(id) && s.history[id].status.Pending? && s.TaskOf(id).Answered()
    ensures p.LeaseCovers() ==> s.nowMs < 1000 * (s.history[id].createdAt + p.Lease())
    ensures p.LeaseDerived() ==> s.nowMs + p.sendResidenceMs <= 1000 * (s.history[id].createdAt + p.Lease())
  {
    AnsweredHandlerIsYoung(p, s, id);
    if p.LeaseDerived() {
      DerivedLeaseCovers(p);
    }
  }

  lemma NoRowFromTheFuture(s: State)
    requires HandlersOk(s)
    ensures forall i :: 0 <= i < |s.history| ==> 1000 * s.history[i].createdAt <= s.nowMs
  {
    forall i | 0 <= i < |s.history| ensures 1000 * s.history[i].createdAt <= s.nowMs {
      assert HandlerOk(s, i);
    }
  }

  // ---- the invariant over one step ----

  lemma HandlersSurviveQueueStep(s: State, s': State)
    requires HandlersOk(s)
    requires s' == s.(taz := s'.taz, ctaz := s'.ctaz)
    requires forall n :: Q.TasksAdvance(s.QueueOf(n).tasks, s'.QueueOf(n).tasks, s.nowMs)
    ensures HandlersOk(s')
  {
    forall id | 0 <= id < |s.history| ensures HandlerOk(s', id) {
      assert HandlerOk(s, id);
    }
  }

  lemma QueueStepKeepsQueues(p: Policy, s: State, n: Network, e: Q.Event)
    requires QueuesOk(p, s) && Enabled(p, s, QueueStep(n, e))
    ensures QueuesOk(p, Do(p, s, QueueStep(n, e)))
    ensures forall k :: Q.TasksAdvance(s.QueueOf(k).tasks, Do(p, s, QueueStep(n, e)).QueueOf(k).tasks, s.nowMs)
  {
    var w := Q.World(s.QueueOf(n), s.nowMs);
    var w' := Q.Next(w, e, p.sendResidenceMs);
    assert Q.Steps(w, w', p.sendResidenceMs);
    assert w'.now == w.now;
    hide Q.Next, Q.Possible, Q.Timed;
    Q.StepKeeps(w, w', p.sendResidenceMs);
    Q.StepAdvances(w, e, p.sendResidenceMs);
  }

  lemma QueueStepKeeps(p: Policy, s: State, n: Network, e: Q.Event)
    requires BasicInv(p, s) && Enabled(p, s, QueueStep(n, e))
    ensures BasicInv(p, Do(p, s, QueueStep(n, e)))
  {
    QueueStepKeepsQueues(p, s, n, e);
    HandlersSurviveQueueStep(s, Do(p, s, QueueStep(n, e)));
  }

  lemma PaidHandlersOk(s: State, id: nat)
    requires HandlersOk(s) && s.HasTask(id) && s.TaskOf(id).Ended() && !s.history[id].status.Failed?
    ensures HandlersOk(s.(paid := s.paid + {id}))
  {
    var s' := s.(paid := s.paid + {id});
    forall k | 0 <= k < |s.history| ensures HandlerOk(s', k) {
      assert HandlerOk(s, k);
    }
  }

  lemma PayKeeps(p: Policy, s: State, id: nat)
    requires BasicInv(p, s) && Enabled(p, s, Pay(id))
    ensures BasicInv(p, Do(p, s, Pay(id)))
  {
    assert HandlerOk(s, id);
    var finish := QueueStep(s.history[id].network, Q.FinishTask(s.handlers[id].task));
    assert Enabled(p, s, finish);
    QueueStepKeeps(p, s, s.history[id].network, Q.FinishTask(s.handlers[id].task));
    PaidHandlersOk(Do(p, s, finish), id);
  }

  lemma JoinKeepsHandlers(p: Policy, s: State, id: nat, deadlineMs: nat)
    requires HandlersOk(s) && Enabled(p, s, Join(id, deadlineMs))
    ensures HandlersOk(Do(p, s, Join(id, deadlineMs)))
  {
    var s' := Do(p, s, Join(id, deadlineMs));
    forall k: nat | k < |s.history| ensures HandlerOk(s', k) {
      assert HandlerOk(s, k);
      if k == id {
        assert s'.HasTask(k) ==> s'.TaskOf(k).phase.Waiting? && !s'.TaskOf(k).expired;
      } else if s.handlers[k].Joined? {
        assert s'.HasTask(k);
        assert s'.TaskOf(k) == s.TaskOf(k);
        assert FinalisesBy(s, k, s.nowMs);
        assert FinalisesBy(s', k, s.nowMs);
      } else {
        assert !s'.HasTask(k);
      }
    }
  }

  lemma JoinKeeps(p: Policy, s: State, id: nat, deadlineMs: nat)
    requires BasicInv(p, s) && Enabled(p, s, Join(id, deadlineMs))
    ensures BasicInv(p, Do(p, s, Join(id, deadlineMs)))
  {
    JoinKeepsHandlers(p, s, id, deadlineMs);
    var q := s.QueueOf(s.history[id].network);
    if Q.HasRoom(q) {
      Q.AdmitKeeps(q, deadlineMs, s.nowMs, p.sendResidenceMs);
    }
  }

  lemma WaitKeepsHandlers(p: Policy, s: State, untilMs: nat)
    requires HandlersOk(s) && Enabled(p, s, Wait(untilMs))
    ensures HandlersOk(Do(p, s, Wait(untilMs)))
  {
    var s' := Do(p, s, Wait(untilMs));
    forall k: nat | k < |s.history| ensures HandlerOk(s', k) {
      assert HandlerOk(s, k);
      assert FinalisesBy(s, k, untilMs);
      assert s'.HasTask(k) <==> s.HasTask(k);
      assert s'.HasTask(k) ==> s'.TaskOf(k) == s.TaskOf(k);
    }
  }

  lemma WaitKeeps(p: Policy, s: State, untilMs: nat)
    requires BasicInv(p, s) && Enabled(p, s, Wait(untilMs))
    ensures BasicInv(p, Do(p, s, Wait(untilMs)))
  {
    WaitKeepsHandlers(p, s, untilMs);
    Q.ElapseKeeps(s.taz, s.nowMs, untilMs, p.sendResidenceMs);
    Q.ElapseKeeps(s.ctaz, s.nowMs, untilMs, p.sendResidenceMs);
  }

  lemma KeptAppend(history: seq<Claim>, purged: set<nat>, x: Claim)
    requires |history| !in purged
    ensures Kept(history + [x], purged) == Kept(history, purged) + [x]
  {
    assert (history + [x])[..|history|] == history;
  }

  lemma ReserveKeeps(p: Policy, s: State, r: Request)
    requires BasicInv(p, s) && Enabled(p, s, Reserve(r))
    ensures BasicInv(p, Do(p, s, Reserve(r)))
  {
    var s' := Do(p, s, Reserve(r));
    if Accepts(s.table, r, p) {
      KeptAppend(s.history, s.purged, NewRow(|s.history|, r));
      forall k | 0 <= k < |s'.history| ensures HandlerOk(s', k) {
        if k < |s.history| { assert HandlerOk(s, k); }
      }
    }
  }

  lemma {:induction false} KeptFinalized(history: seq<Claim>, purged: set<nat>,
                                         id: nat, status: Status, txid: Option<string>)
    ensures Kept(Finalized(history, id, status, txid), purged) == Finalized(Kept(history, purged), id, status, txid)
  {
    if history != [] {
      var n := |history| - 1;
      var init, last := history[..n], history[n];
      KeptFinalized(init, purged, id, status, txid);
      FinalizedAt(init, id, status, txid);
      FinalizedAt(history, id, status, txid);
      assert Finalized(history, id, status, txid)[..n] == Finalized(init, id, status, txid);
      if n !in purged {
        assert (Kept(init, purged) + [last])[..|Kept(init, purged)|] == Kept(init, purged);
      }
    }
  }

  lemma FinalisedHandlerOk(p: Policy, s: State, s': State, id: nat, status: Status, txid: Option<string>, k: nat)
    requires HandlersOk(s) && |s'.history| == |s.history| && k < |s.history|
    requires s' == s.(table := s'.table, history := s'.history)
    requires Enabled(p, s, Finalise(id, status, txid)) && s.history[k].id == k
    requires s'.history[k] == if k == id then s.history[k].(status := status, txid := txid) else s.history[k]
    ensures HandlerOk(s', k)
  {
    assert HandlerOk(s, k);
    assert forall n :: s'.QueueOf(n) == s.QueueOf(n);
    hide HandlersOk;
  }

  lemma FinaliseKeepsHandlers(p: Policy, s: State, id: nat, status: Status, txid: Option<string>)
    requires BasicInv(p, s) && Enabled(p, s, Finalise(id, status, txid))
    ensures HandlersOk(Do(p, s, Finalise(id, status, txid)))
  {
    var s' := Do(p, s, Finalise(id, status, txid));
    FinalizedAt(s.history, id, status, txid);
    hide HandlerOk, Finalized, QueuesOk, Enabled;
    forall k | 0 <= k < |s.history| ensures HandlerOk(s', k) {
      FinalisedHandlerOk(p, s, s', id, status, txid, k);
    }
  }

  lemma FinaliseKeepsTable(p: Policy, s: State, id: nat, status: Status, txid: Option<string>)
    requires TableOk(p, s)
    ensures TableOk(p, s.(table := Finalized(s.table, id, status, txid),
                          history := Finalized(s.history, id, status, txid)))
  {
    KeptFinalized(s.history, s.purged, id, status, txid);
    FinalizedAt(s.history, id, status, txid);
    hide Finalized, Kept;
  }

  lemma FinaliseKeeps(p: Policy, s: State, id: nat, status: Status, txid: Option<string>)
    requires BasicInv(p, s) && Enabled(p, s, Finalise(id, status, txid))
    ensures BasicInv(p, Do(p, s, Finalise(id, status, txid)))
  {
    FinaliseKeepsHandlers(p, s, id, status, txid);
    FinaliseKeepsTable(p, s, id, status, txid);
    assert QueuesOk(p, Do(p, s, Finalise(id, status, txid)));
    hide HandlersOk, TableOk, Finalized, Enabled;
  }

  lemma {:induction false} KeptPurged(history: seq<Claim>, purged: set<nat>, purged': set<nat>, cut: int)
    requires forall i :: 0 <= i < |history| ==> (i in purged' <==> i in purged || history[i].createdAt < cut)
    ensures Purged(Kept(history, purged), cut) == Kept(history, purged')
  {
    if history != [] {
      var n := |history| - 1;
      var init, last := history[..n], history[n];
      KeptPurged(init, purged, purged', cut);
      if n !in purged {
        PurgedAppend(Kept(init, purged), last, cut);
      }
    }
  }

  lemma PurgeKeeps(p: Policy, s: State, now: int)
    requires BasicInv(p, s) && Enabled(p, s, Purge(now))
    ensures BasicInv(p, Do(p, s, Purge(now)))
  {
    var s' := Do(p, s, Purge(now));
    KeptPurged(s.history, s.purged, s'.purged, RetentionCutoff(now, p));
    forall k | 0 <= k < |s.history| ensures HandlerOk(s', k) {
      assert HandlerOk(s, k);
    }
  }

  lemma StepKeepsBasics(p: Policy, s: State, step: Step)
    requires BasicInv(p, s) && Enabled(p, s, step)
    ensures BasicInv(p, Do(p, s, step))
  {
    match step
    case Reserve(r) => ReserveKeeps(p, s, r);
    case Join(id, deadlineMs) => JoinKeeps(p, s, id, deadlineMs);
    case QueueStep(n, e) => QueueStepKeeps(p, s, n, e);
    case Pay(id) => PayKeeps(p, s, id);
    case Finalise(id, status, txid) => FinaliseKeeps(p, s, id, status, txid);
    case Purge(now) => PurgeKeeps(p, s, now);
    case Wait(untilMs) => WaitKeeps(p, s, untilMs);
  }

  lemma {:induction false} RunKeepsBasics(p: Policy, run: seq<State>, k: nat)
    requires IsRun(p, run) && k < |run|
    ensures BasicInv(p, run[k])
  {
    if k > 0 {
      RunKeepsBasics(p, run, k - 1);
      assert Steps(p, run[k - 1], run[k]);
      var step :| Enabled(p, run[k - 1], step) && run[k] == Do(p, run[k - 1], step);
      StepKeepsBasics(p, run[k - 1], step);
    }
  }
}
