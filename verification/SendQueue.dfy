/** The serial send queue: a FIFO chain of promises in front of one wallet.

    A task is a link of the chain. `prev` is the tail promise it was chained onto, and the
    tail a later task will chain onto resolves only when this task's settle handler has
    run. Nothing here says that tasks run one at a time or in order: that is proved. */
module SendQueue {
  import opened Wrappers

  /** `Finished` is "the work settled"; `Released` is "its settle handler ran". */
  datatype Phase = Waiting | Running | Finished | Released

  datatype Task = Task(
    prev: Option<nat>,
    phase: Phase,
    deadlineMs: nat,
    expired: bool,
    admittedAt: nat,
    startedAt: nat,
    finishedAt: nat,
    answeredAt: nat)
  {
    predicate Begun() { !phase.Waiting? }

    /** The work itself has settled. */
    predicate Ended() { phase.Finished? || phase.Released? }

    /** The caller's race is decided: by the work, or by the deadline. */
    predicate Answered() { expired || Ended() }
  }

  datatype Queue = Queue(maxPending: nat, pending: int, tail: Option<nat>, tasks: seq<Task>)
  {
    /** Index of the oldest task that has not been released. */
    function Head(): int { |tasks| - pending }
  }

  function Empty(maxPending: nat): Queue {
    Queue(maxPending, 0, None, [])
  }

  // ---- the steps ----

  predicate HasRoom(q: Queue) {
    q.pending < q.maxPending
  }

  function Admit(q: Queue, deadlineMs: nat, now: nat): Queue {
    q.(pending := q.pending + 1,
       tail := Some(|q.tasks|),
       tasks := q.tasks + [Task(q.tail, Waiting, deadlineMs, false, now, 0, 0, 0)])
  }

  /** The `tail.then` callback is due: the promise it was chained onto has resolved. */
  predicate CanBegin(q: Queue, i: nat) {
    && i < |q.tasks|
    && q.tasks[i].phase.Waiting?
    && match q.tasks[i].prev {
         case None => true
         case Some(j) => j < |q.tasks| && q.tasks[j].phase.Released?
       }
  }

  function Begin(q: Queue, i: nat, now: nat): Queue
    requires i < |q.tasks|
  {
    q.(tasks := q.tasks[i := q.tasks[i].(phase := Running, startedAt := now)])
  }

  predicate CanFinish(q: Queue, i: nat) {
    i < |q.tasks| && q.tasks[i].phase.Running?
  }

  /** The work settles, fulfilled or rejected alike. */
  function Finish(q: Queue, i: nat, now: nat): Queue
    requires i < |q.tasks|
  {
    var t := q.tasks[i];
    q.(tasks := q.tasks[i := t.(phase := Finished, finishedAt := now,
                                answeredAt := if t.expired then t.answeredAt else now)])
  }

  predicate CanRelease(q: Queue, i: nat) {
    i < |q.tasks| && q.tasks[i].phase.Finished?
  }

  /** The settle handler: the count drops and the tail this task handed out resolves. */
  function Release(q: Queue, i: nat): Queue
    requires i < |q.tasks|
  {
    q.(pending := q.pending - 1, tasks := q.tasks[i := q.tasks[i].(phase := Released)])
  }

  /** A deadline is armed when the task starts and cleared when its work settles. */
  predicate CanExpire(q: Queue, i: nat, now: nat) {
    && i < |q.tasks|
    && q.tasks[i].phase.Running?
    && !q.tasks[i].expired
    && q.tasks[i].deadlineMs > 0
    && now >= q.tasks[i].startedAt + q.tasks[i].deadlineMs
  }

  /** The deadline answers the caller and nothing else. */
  function Expire(q: Queue, i: nat, now: nat): Queue
    requires i < |q.tasks|
  {
    q.(tasks := q.tasks[i := q.tasks[i].(expired := true, answeredAt := now)])
  }

  /** Time passes only when no handler is due (promise callbacks run before timers), and a
      running task settles within the residence. */
  predicate CanElapse(q: Queue, until: nat, residence: nat) {
    && (forall i: nat :: i < |q.tasks| ==> !CanBegin(q, i) && !CanRelease(q, i))
    && (forall i: nat :: i < |q.tasks| && q.tasks[i].phase.Running? ==> until <= q.tasks[i].startedAt + residence)
  }

  // ---- what every step keeps ----

  /** The chain: released tasks, then the one at the head, then tasks still waiting. */
  predicate Chain(q: Queue) {
    && 0 <= q.pending <= q.maxPending && q.pending <= |q.tasks|
    && q.tail == (if q.tasks == [] then None else Some(|q.tasks| - 1))
    && (forall i :: 0 <= i < |q.tasks| ==> q.tasks[i].prev == if i == 0 then None else Some(i - 1))
    && (forall i :: 0 <= i < |q.tasks| ==> (q.tasks[i].phase.Released? <==> i < q.Head()))
    && (forall i :: q.Head() < i < |q.tasks| ==> q.tasks[i].phase.Waiting?)
    && (forall i :: 0 <= i < |q.tasks| && q.tasks[i].expired ==> q.tasks[i].Begun())
  }

  /** When the head task must have settled at the latest. */
  function HeadSettlesBy(q: Queue, now: nat, residence: nat): int
    requires Chain(q) && q.pending > 0
  {
    (if q.tasks[q.Head()].Begun() then q.tasks[q.Head()].startedAt else now) + residence
  }

  /** `k` tasks after the head, one residence each. */
  predicate InTime(q: Queue, i: int, now: nat, residence: nat)
    requires Chain(q) && q.Head() <= i < |q.tasks|
  {
    HeadSettlesBy(q, now, residence) + (i - q.Head()) * residence
    <= q.tasks[i].admittedAt + q.maxPending * residence
  }

  predicate Timed(q: Queue, now: nat, residence: nat)
    requires Chain(q)
  {
    && (forall i :: 0 <= i < |q.tasks| ==> TaskTimed(q.tasks[i], now, q.maxPending * residence))
    && (forall i, j :: 0 <= i < j < |q.tasks| && q.tasks[j].Begun() ==>
                         q.tasks[i].finishedAt <= q.tasks[j].startedAt)
    && (q.pending > 0 ==> now <= HeadSettlesBy(q, now, residence))
    && (forall i :: q.Head() <= i < |q.tasks| ==> InTime(q, i, now, residence))
  }

  /** The times of one task are in order, and it ends and is answered within `bound`. */
  predicate TaskTimed(t: Task, now: nat, bound: int) {
    && t.admittedAt <= now
    && (t.Begun() ==> t.admittedAt <= t.startedAt <= now)
    && (t.Ended() ==> t.startedAt <= t.answeredAt <= t.finishedAt <= now && t.finishedAt <= t.admittedAt + bound)
    && (t.Answered() ==> t.startedAt <= t.answeredAt <= now && t.answeredAt <= t.admittedAt + bound)
  }

  predicate Inv(q: Queue, now: nat, residence: nat) {
    Chain(q) && Timed(q, now, residence)
  }

  lemma AdmitKeepsChain(q: Queue, deadlineMs: nat, now: nat)
    requires Chain(q) && HasRoom(q)
    ensures Chain(Admit(q, deadlineMs, now))
    ensures Admit(q, deadlineMs, now).Head() == q.Head()
  {
  }

  lemma {:induction false} Residences(k: nat, max: nat, residence: nat)
    ensures k * residence >= 0
    ensures k < max ==> k * residence + residence <= max * residence
    decreases max
  {
    if k + 1 < max {
      Residences(k, max - 1, residence);
    }
  }

  /** The queue a task joins is at most `maxPending` residences long, the task included. */
  lemma AdmittedInTime(q: Queue, deadlineMs: nat, now: nat, residence: nat)
    requires Inv(q, now, residence) && HasRoom(q) && Chain(Admit(q, deadlineMs, now))
    ensures InTime(Admit(q, deadlineMs, now), |q.tasks|, now, residence)
  {
    Residences(q.pending, q.maxPending, residence);
    var q' := Admit(q, deadlineMs, now);
    assert |q.tasks| - q'.Head() == q.pending;
    assert HeadSettlesBy(q', now, residence) <= now + residence;
  }

  lemma AdmitKeeps(q: Queue, deadlineMs: nat, now: nat, residence: nat)
    requires Inv(q, now, residence) && HasRoom(q)
    ensures Inv(Admit(q, deadlineMs, now), now, residence)
  {
    var q' := Admit(q, deadlineMs, now);
    AdmitKeepsChain(q, deadlineMs, now);
    AdmittedInTime(q, deadlineMs, now, residence);
    forall i | q'.Head() <= i < |q'.tasks| ensures InTime(q', i, now, residence) {
      if i < |q.tasks| { assert InTime(q, i, now, residence); }
    }
  }

  lemma BeginsOnlyAtHead(q: Queue, i: nat)
    requires Chain(q) && CanBegin(q, i)
    ensures q.pending > 0 && i == q.Head()
  {
  }

  /** The head of a queue with work in it settles inside its own bound. */
  lemma HeadInTime(q: Queue, now: nat, residence: nat)
    requires Inv(q, now, residence) && q.pending > 0
    ensures now <= HeadSettlesBy(q, now, residence) <= q.tasks[q.Head()].admittedAt + q.maxPending * residence
  {
    assert InTime(q, q.Head(), now, residence);
  }

  lemma BeginKeepsChain(q: Queue, i: nat, now: nat)
    requires Chain(q) && CanBegin(q, i)
    ensures Chain(Begin(q, i, now)) && i == q.Head() == Begin(q, i, now).Head()
  {
    BeginsOnlyAtHead(q, i);
  }

  lemma BeginKeeps(q: Queue, i: nat, now: nat, residence: nat)
    requires Inv(q, now, residence) && CanBegin(q, i)
    ensures Inv(Begin(q, i, now), now, residence)
  {
    BeginKeepsChain(q, i, now);
    var q' := Begin(q, i, now);
    forall k | q'.Head() <= k < |q'.tasks| ensures InTime(q', k, now, residence) {
      assert InTime(q, k, now, residence);
    }
  }

  lemma FinishKeepsChain(q: Queue, i: nat, now: nat)
    requires Chain(q) && CanFinish(q, i)
    ensures Chain(Finish(q, i, now)) && q.pending > 0 && i == q.Head() == Finish(q, i, now).Head()
  {
  }

  lemma FinishKeeps(q: Queue, i: nat, now: nat, residence: nat)
    requires Inv(q, now, residence) && CanFinish(q, i)
    ensures Inv(Finish(q, i, now), now, residence)
  {
    FinishKeepsChain(q, i, now);
    HeadInTime(q, now, residence);
    var q' := Finish(q, i, now);
    forall k | q'.Head() <= k < |q'.tasks| ensures InTime(q', k, now, residence) {
      assert InTime(q, k, now, residence);
    }
  }

  lemma ReleaseKeepsChain(q: Queue, i: nat)
    requires Chain(q) && CanRelease(q, i)
    ensures Chain(Release(q, i)) && q.pending > 0 && i == q.Head() == Release(q, i).Head() - 1
  {
  }

  lemma OneResidenceLess(k: int, residence: nat)
    ensures k * residence == (k - 1) * residence + residence
  {
  }

  /** A task behind the head is one residence nearer to it, and the new head has not begun. */
  lemma ReleaseKeepsInTime(q: Queue, i: nat, now: nat, residence: nat, k: int)
    requires Inv(q, now, residence) && CanRelease(q, i) && Chain(Release(q, i))
    requires q.pending > 0 && i == q.Head() == Release(q, i).Head() - 1 && i < k < |q.tasks|
    ensures InTime(Release(q, i), k, now, residence)
  {
    assert InTime(q, k, now, residence);
    OneResidenceLess(k - i, residence);
  }

  lemma ReleaseKeeps(q: Queue, i: nat, now: nat, residence: nat)
    requires Inv(q, now, residence) && CanRelease(q, i)
    ensures Inv(Release(q, i), now, residence)
  {
    ReleaseKeepsChain(q, i);
    var q' := Release(q, i);
    forall k | q'.Head() <= k < |q'.tasks| ensures InTime(q', k, now, residence) {
      ReleaseKeepsInTime(q, i, now, residence, k);
    }
    hide InTime;
  }

  lemma ExpireKeepsChain(q: Queue, i: nat, now: nat)
    requires Chain(q) && CanExpire(q, i, now)
    ensures Chain(Expire(q, i, now)) && q.pending > 0 && i == q.Head() == Expire(q, i, now).Head()
  {
  }

  lemma ExpireKeeps(q: Queue, i: nat, now: nat, residence: nat)
    requires Inv(q, now, residence) && CanExpire(q, i, now)
    ensures Inv(Expire(q, i, now), now, residence)
  {
    ExpireKeepsChain(q, i, now);
    HeadInTime(q, now, residence);
    var q' := Expire(q, i, now);
    forall k | q'.Head() <= k < |q'.tasks| ensures InTime(q', k, now, residence) {
      assert InTime(q, k, now, residence);
    }
  }

  /** While time can pass, either nothing is admitted or the head is running. */
  lemma ElapseKeeps(q: Queue, now: nat, until: nat, residence: nat)
    requires Inv(q, now, residence) && now <= until && CanElapse(q, until, residence)
    ensures Inv(q, until, residence)
  {
    if q.pending > 0 {
      var h := q.Head();
      assert !CanBegin(q, h) && !CanRelease(q, h);
      assert q.tasks[h].phase.Running?;
      forall k | h <= k < |q.tasks| ensures InTime(q, k, until, residence) {
        assert InTime(q, k, now, residence);
      }
    }
  }

  /** A decided race was decided within `maxPending` residences of admission. */
  lemma AnsweredSoon(q: Queue, now: nat, residence: nat, i: nat)
    requires Inv(q, now, residence) && i < |q.tasks| && q.tasks[i].Answered()
    ensures q.tasks[i].answeredAt <= q.tasks[i].admittedAt + q.maxPending * residence
  {
  }

  // ---- whole runs ----

  datatype Event =
    | Arrive(deadlineMs: nat)
    | BeginTask(i: nat)
    | FinishTask(i: nat)
    | ReleaseTask(i: nat)
    | ExpireTask(i: nat)
    | Elapse(until: nat)

  datatype World = World(queue: Queue, now: nat)

  predicate Possible(w: World, e: Event, residence: nat) {
    match e
    case Arrive(_) => true
    case BeginTask(i) => CanBegin(w.queue, i)
    case FinishTask(i) => CanFinish(w.queue, i)
    case ReleaseTask(i) => CanRelease(w.queue, i)
    case ExpireTask(i) => CanExpire(w.queue, i, w.now)
    case Elapse(until) => w.now <= until && CanElapse(w.queue, until, residence)
  }

  /** An arrival at a full queue is rejected and leaves the queue as it was. */
  function Next(w: World, e: Event, residence: nat): World
    requires Possible(w, e, residence)
  {
    match e
    case Arrive(d) => if HasRoom(w.queue) then w.(queue := Admit(w.queue, d, w.now)) else w
    case BeginTask(i) => w.(queue := Begin(w.queue, i, w.now))
    case FinishTask(i) => w.(queue := Finish(w.queue, i, w.now))
    case ReleaseTask(i) => w.(queue := Release(w.queue, i))
    case ExpireTask(i) => w.(queue := Expire(w.queue, i, w.now))
    case Elapse(until) => w.(now := until)
  }

  /** `run` is a history of states, each one step after the last, from the empty queue. */
  ghost predicate IsRun(run: seq<World>, maxPending: nat, residence: nat) {
    && |run| > 0
    && run[0] == World(Empty(maxPending), 0)
    && forall k :: 0 <= k < |run| - 1 ==> Steps(run[k], run[k + 1], residence)
  }

  ghost predicate Steps(w: World, w': World, residence: nat) {
    exists e :: Possible(w, e, residence) && w' == Next(w, e, residence)
  }

  lemma StepKeeps(w: World, w': World, residence: nat)
    requires Inv(w.queue, w.now, residence) && Steps(w, w', residence)
    ensures Inv(w'.queue, w'.now, residence)
    ensures w'.queue.maxPending == w.queue.maxPending
  {
    var e :| Possible(w, e, residence) && w' == Next(w, e, residence);
    match e
    case Arrive(d) => if HasRoom(w.queue) { AdmitKeeps(w.queue, d, w.now, residence); }
    case BeginTask(i) => BeginKeeps(w.queue, i, w.now, residence);
    case FinishTask(i) => FinishKeeps(w.queue, i, w.now, residence);
    case ReleaseTask(i) => ReleaseKeeps(w.queue, i, w.now, residence);
    case ExpireTask(i) => ExpireKeeps(w.queue, i, w.now, residence);
    case Elapse(until) => ElapseKeeps(w.queue, w.now, until, residence);
  }

  /** Tasks only move forward: an entry keeps its admission time, and an answer is final. */
  predicate TasksAdvance(a: seq<Task>, b: seq<Task>, now: nat) {
    && |a| <= |b|
    && forall i :: 0 <= i < |a| ==>
         && b[i].admittedAt == a[i].admittedAt
         && (a[i].Ended() ==> b[i].Ended())
         && (a[i].Answered() ==> b[i].Answered() && b[i].answeredAt == a[i].answeredAt)
         && (b[i].Answered() && !a[i].Answered() ==> b[i].answeredAt == now)
  }

  lemma StepAdvances(w: World, e: Event, residence: nat)
    requires Possible(w, e, residence)
    requires forall i :: 0 <= i < |w.queue.tasks| && w.queue.tasks[i].expired ==> w.queue.tasks[i].Begun()
    ensures TasksAdvance(w.queue.tasks, Next(w, e, residence).queue.tasks, w.now)
  {
  }

  lemma {:induction false} RunKeeps(run: seq<World>, maxPending: nat, residence: nat, k: nat)
    requires IsRun(run, maxPending, residence) && k < |run|
    ensures Inv(run[k].queue, run[k].now, residence)
    ensures run[k].queue.maxPending == maxPending
  {
    if k > 0 {
      RunKeeps(run, maxPending, residence, k - 1);
      StepKeeps(run[k - 1], run[k], residence);
    }
  }

  /** The wallet is never shared: at most one task's work is running at any moment of any run,
      tasks start in admission order, and a task starts only after the settle handler of every
      earlier one, whatever deadlines expired or sends failed in between. */
  lemma OneSendAtATime(run: seq<World>, maxPending: nat, residence: nat, k: nat, i: nat, j: nat)
    requires IsRun(run, maxPending, residence) && k < |run|
    requires i < j < |run[k].queue.tasks|
    ensures !(run[k].queue.tasks[i].phase.Running? && run[k].queue.tasks[j].phase.Running?)
    ensures run[k].queue.tasks[j].Begun() ==>
              && run[k].queue.tasks[i].phase.Released?
              && run[k].queue.tasks[i].finishedAt <= run[k].queue.tasks[j].startedAt
  {
    RunKeeps(run, maxPending, residence, k);
  }

  function UnreleasedTasks(q: Queue): set<nat> {
    set i: nat | i < |q.tasks| && !q.tasks[i].phase.Released?
  }

  function Interval(lo: nat, hi: nat): (s: set<nat>)
    ensures forall i: nat :: i in s <==> lo <= i < hi
    ensures |s| == if lo <= hi then hi - lo else 0
  {
    if lo < hi then Interval(lo, hi - 1) + {hi - 1} else {}
  }

  lemma UnreleasedAreTheRest(q: Queue)
    requires Chain(q)
    ensures |UnreleasedTasks(q)| == q.pending
  {
    assert UnreleasedTasks(q) == Interval(q.Head(), |q.tasks|);
  }

  /** `depth` is the number of tasks admitted and not yet settled, and is bounded. */
  lemma DepthCountsUnsettled(run: seq<World>, maxPending: nat, residence: nat, k: nat)
    requires IsRun(run, maxPending, residence) && k < |run|
    ensures run[k].queue.pending == |UnreleasedTasks(run[k].queue)| <= maxPending
  {
    RunKeeps(run, maxPending, residence, k);
    UnreleasedAreTheRest(run[k].queue);
  }

  /** Every admitted task has settled within `maxPending` residences of its admission, and by
      then its caller has been answered. */
  lemma BoundedWait(run: seq<World>, maxPending: nat, residence: nat, k: nat, i: nat)
    requires IsRun(run, maxPending, residence) && k < |run| && i < |run[k].queue.tasks|
    ensures var t := run[k].queue.tasks[i];
            && (t.Ended() ==> t.finishedAt <= t.admittedAt + maxPending * residence)
            && (t.Answered() ==> t.answeredAt <= t.admittedAt + maxPending * residence)
            && (!t.Ended() ==> run[k].now <= t.admittedAt + maxPending * residence)
  {
    RunKeeps(run, maxPending, residence, k);
    var w := run[k];
    if !w.queue.tasks[i].Ended() {
      UnsettledIsYoung(w.queue, w.now, residence, i);
    }
  }

  lemma UnsettledIsYoung(q: Queue, now: nat, residence: nat, i: nat)
    requires Inv(q, now, residence) && i < |q.tasks| && !q.tasks[i].Ended()
    ensures now <= q.tasks[i].admittedAt + q.maxPending * residence
  {
    assert InTime(q, i, now, residence);
    Residences(i - q.Head(), 0, residence);
  }

  // ---- deadlines and arrivals ----

  /** What the deadline of a task may have done so far. */
  predicate DeadlineKept(t: Task, now: nat) {
    && (t.expired ==> t.deadlineMs > 0 && !t.phase.Waiting? && t.startedAt + t.deadlineMs <= t.answeredAt <= now)
    && (t.expired && (t.phase.Finished? || t.phase.Released?) ==> t.answeredAt <= t.finishedAt)
  }

  lemma StepKeepsDeadlines(w: World, w': World, residence: nat)
    requires Steps(w, w', residence)
    requires forall t <- w.queue.tasks :: DeadlineKept(t, w.now)
    ensures forall t <- w'.queue.tasks :: DeadlineKept(t, w'.now)
  {
    var e :| Possible(w, e, residence) && w' == Next(w, e, residence);
    forall t | t in w'.queue.tasks ensures DeadlineKept(t, w'.now) {
      var i :| 0 <= i < |w'.queue.tasks| && w'.queue.tasks[i] == t;
      assert i < |w.queue.tasks| ==> w.queue.tasks[i] in w.queue.tasks;
    }
  }

  lemma {:induction false} DeadlinesAreKept(run: seq<World>, maxPending: nat, residence: nat, k: nat)
    requires IsRun(run, maxPending, residence) && k < |run|
    ensures forall t <- run[k].queue.tasks :: DeadlineKept(t, run[k].now)
  {
    if k > 0 {
      DeadlinesAreKept(run, maxPending, residence, k - 1);
      StepKeepsDeadlines(run[k - 1], run[k], residence);
    }
  }

  /** A deadline runs from the start of the task and not from its admission: over every run, a caller
      answered by one had a task that started and had been running for all of it. No deadline, no
      such answer; and none once the work has settled. */
  lemma DeadlineRunsFromTheStart(run: seq<World>, maxPending: nat, residence: nat, k: nat, i: nat)
    requires IsRun(run, maxPending, residence) && k < |run| && i < |run[k].queue.tasks|
    ensures var t := run[k].queue.tasks[i];
            && (t.expired ==> t.deadlineMs > 0 && !t.phase.Waiting? && t.answeredAt >= t.startedAt + t.deadlineMs)
            && (t.deadlineMs == 0 ==> !t.expired)
            && (t.expired && (t.phase.Finished? || t.phase.Released?) ==> t.answeredAt <= t.finishedAt)
  {
    DeadlinesAreKept(run, maxPending, residence, k);
    assert run[k].queue.tasks[i] in run[k].queue.tasks;
  }

  /** And it does run: a task still at work, with its caller unanswered, is answered as soon as its
      deadline has passed, and not before. */
  lemma DeadlineMayAnswer(w: World, i: nat, residence: nat)
    requires i < |w.queue.tasks|
    ensures var t := w.queue.tasks[i];
            Possible(w, ExpireTask(i), residence) <==>
              t.phase == Running && !t.expired && t.deadlineMs > 0 && w.now - t.startedAt >= t.deadlineMs
  {
  }

  /** The ways a task moves on in one step. */
  predicate TaskMoves(t: Task, t': Task, now: nat) {
    || t' == t
    || (t.phase == Waiting && t' == t.(phase := Running, startedAt := now))
    || (t.phase == Running && !t.expired && t' == t.(phase := Finished, finishedAt := now, answeredAt := now))
    || (t.phase == Running && t.expired && t' == t.(phase := Finished, finishedAt := now))
    || (t.phase == Finished && t' == t.(phase := Released))
    || (t.phase == Running && !t.expired && 0 < t.deadlineMs <= now - t.startedAt
        && t' == t.(expired := true, answeredAt := now))
  }

  /** At most one task moves in a step, by one phase or by its deadline, and what it records is the
      time of the step; a new one waits, with the deadline it was given. */
  lemma StepsMoveOneTask(w: World, w': World, residence: nat, i: nat, j: nat)
    requires Steps(w, w', residence) && i < |w'.queue.tasks| && j < |w'.queue.tasks|
    ensures i < |w.queue.tasks| ==> TaskMoves(w.queue.tasks[i], w'.queue.tasks[i], w.now)
    ensures i != j && i < |w.queue.tasks| && j < |w.queue.tasks| ==>
              w'.queue.tasks[i] == w.queue.tasks[i] || w'.queue.tasks[j] == w.queue.tasks[j]
    ensures i >= |w.queue.tasks| ==>
              && w'.queue.tasks[i].phase == Waiting && !w'.queue.tasks[i].expired
              && w'.queue.tasks[i].admittedAt == w.now
  {
    var e :| Possible(w, e, residence) && w' == Next(w, e, residence);
  }

  /** In every run an arrival is admitted exactly when fewer tasks than the maximum are admitted and not
      yet released; it goes behind all others with its own deadline. */
  lemma ArrivalIsAdmitted(run: seq<World>, maxPending: nat, residence: nat, k: nat, deadlineMs: nat)
    requires IsRun(run, maxPending, residence) && k < |run|
    ensures var w, w' := run[k], Next(run[k], Arrive(deadlineMs), residence);
            var unreleased := set i: nat | i < |w.queue.tasks| && w.queue.tasks[i].phase != Released;
            if |unreleased| < maxPending then
              && |w'.queue.tasks| == |w.queue.tasks| + 1 && w'.queue.tasks[..|w.queue.tasks|] == w.queue.tasks
              && w'.queue.tasks[|w.queue.tasks|].deadlineMs == deadlineMs
              && w'.queue.tasks[|w.queue.tasks|].admittedAt == w.now
            else w' == w
  {
    DepthCountsUnsettled(run, maxPending, residence, k);
    RunKeeps(run, maxPending, residence, k);
    var w := run[k];
    assert UnreleasedTasks(w.queue) == set i: nat | i < |w.queue.tasks| && w.queue.tasks[i].phase != Released;
  }

  // ---- the object ----

  /** `SerialQueue` of the source: `tail` and `pending` updated in place; `tasks` are the
      promises it has handed out. */
  class SerialQueue {
    const maxPending: nat
    var pending: int
    var tail: Option<nat>
    var tasks: seq<Task>

    constructor (maxPending: nat)
      ensures Value() == Empty(maxPending)
    {
      this.maxPending := maxPending;
      pending, tail, tasks := 0, None, [];
    }

    function Value(): Queue
      reads this
    {
      Queue(maxPending, pending, tail, tasks)
    }

    /** Tasks currently waiting or running. */
    method Depth() returns (depth: int)
      ensures Chain(Value()) ==> depth == |UnreleasedTasks(Value())|
    {
      depth := pending;
      if Chain(Value()) {
        UnreleasedAreTheRest(Value());
      }
    }

    /** `None` is the immediate rejection of a full queue. */
    method Run(deadlineMs: nat, now: nat) returns (task: Option<nat>)
      modifies this
      ensures task.Some? <==> old(HasRoom(Value()))
      ensures task.None? ==> Value() == old(Value())
      ensures task.Some? ==>
                && Value() == Admit(old(Value()), deadlineMs, now)
                && task.value == old(|tasks|)
                && tasks[task.value].phase.Waiting?
    {
      if pending >= maxPending {
        return None;
      }
      pending := pending + 1;
      var link := Task(tail, Waiting, deadlineMs, false, now, 0, 0, 0);
      task := Some(|tasks|);
      tasks := tasks + [link];
      tail := task;
    }

    /** The callback chained onto the tail: arm the deadline and start the work. */
    method OnTurn(i: nat, now: nat)
      requires CanBegin(Value(), i)
      modifies this`tasks
      ensures Value() == Begin(old(Value()), i, now)
    {
      tasks := tasks[i := tasks[i].(phase := Running, startedAt := now)];
    }

    method OnWorkSettled(i: nat, now: nat)
      requires CanFinish(Value(), i)
      modifies this`tasks
      ensures Value() == Finish(old(Value()), i, now)
    {
      var t := tasks[i];
      tasks := tasks[i := t.(phase := Finished, finishedAt := now)];
      if !t.expired {
        tasks := tasks[i := tasks[i].(answeredAt := now)];
      }
    }

    /** The settle handler. */
    method OnSettle(i: nat)
      requires CanRelease(Value(), i)
      modifies this`pending, this`tasks
      ensures Value() == Release(old(Value()), i)
    {
      pending := pending - 1;
      tasks := tasks[i := tasks[i].(phase := Released)];
    }

    /** The timer, armed when the task starts. */
    method OnDeadline(i: nat, now: nat)
      requires i < |tasks| && tasks[i].phase == Running && !tasks[i].expired
      requires tasks[i].deadlineMs > 0 && now >= tasks[i].startedAt + tasks[i].deadlineMs
      modifies this`tasks
      ensures CanExpire(old(Value()), i, now) && Value() == Expire(old(Value()), i, now)
    {
      tasks := tasks[i := tasks[i].(expired := true, answeredAt := now)];
    }
  }
}
