/** Whole runs of the reserve loop: ticks, answers, deadlines and late steps in any order. */
module ReserveRuns {
  import opened Wrappers
  import opened RefillRules
  import opened Reconciler

  datatype Result = Pending | Refused | Moved | Fruitless | Thrown

  /** A step the loop started: when, whether as a harvest, whether by the backlog fast path. */
  datatype Attempt = Attempt(at: int, harvest: bool, fast: bool, result: Result)

  /** What a step answered, with the count it reported. */
  datatype Answer = Answer(result: Result, left: Option<int>)

  /** `answered` holds between a step's answer and its `finally`. `steps` are the loop's own
      tasks still on the send queue, `pile` the spendable coinbase outputs that exist, `answers`
      those of all steps so far. */
  datatype World = World(
    loop: Loop,
    answered: bool,
    steps: nat,
    pile: nat,
    log: seq<Attempt>,
    readings: seq<Option<int>>,
    eligible: nat,
    answers: seq<Answer>)

  /** `Throw` is the step's own throw or its queue deadline; a step that missed its deadline may
      have swept all the same. `Leave` is the real work leaving the queue. */
  datatype Event =
    | Tick(balance: Option<int>, now: int, traffic: nat)
    | Return(outcome: Outcome)
    | Throw(failure: Failure, swept: bool)
    | Settle
    | Leave

  function Start(pile: nat): World {
    World(FRESH, false, 0, pile, [], [], 0, [])
  }

  predicate Outstanding(w: World) {
    w.loop.stepInFlight && !w.answered
  }

  predicate Enabled(w: World, e: Event) {
    match e
    case Tick(_, _, _) => true
    case Return(_) => Outstanding(w)
    case Throw(_, _) => Outstanding(w)
    case Settle => w.loop.stepInFlight && w.answered
    case Leave => w.steps > 0
  }

  const SHIELD_UTXO_LIMIT := 50

  /** One sweep takes a bounded batch. */
  function Swept(pile: nat): nat {
    if pile > SHIELD_UTXO_LIMIT then pile - SHIELD_UTXO_LIMIT else 0
  }

  function ResultOf(o: Outcome): Result {
    if o.refused.Some? then Refused else if o.moved then Moved else Fruitless
  }

  function Recorded(log: seq<Attempt>, result: Result): seq<Attempt> {
    if log == [] then log else log[|log| - 1 := log[|log| - 1].(result := result)]
  }

  predicate StartsAt(w: World, e: Event, cfg: ReserveConfig) {
    e.Tick? && Starts(w.loop, e.balance, e.now, e.traffic + w.steps, cfg)
  }

  predicate EligibleAt(w: World, e: Event, cfg: ReserveConfig) {
    e.Tick? && Eligible(Observed(w.loop, e.balance, cfg), e.now, e.traffic + w.steps, cfg)
  }

  function NewAttempt(seen: Loop, now: int, cfg: ReserveConfig): Attempt {
    Attempt(now, Harvests(seen, now, cfg), Harvests(seen, now, cfg) && FastPath(seen, cfg), Pending)
  }

  function AfterTick(w: World, e: Event, cfg: ReserveConfig): World
    requires e.Tick?
  {
    var next := w.(loop := Ticked(w.loop, e.balance, e.now, e.traffic + w.steps, cfg),
                   readings := w.readings + [e.balance],
                   eligible := w.eligible + if EligibleAt(w, e, cfg) then 1 else 0);
    if StartsAt(w, e, cfg)
    then next.(steps := w.steps + 1, log := w.log + [NewAttempt(Observed(w.loop, e.balance, cfg), e.now, cfg)])
    else next
  }

  function Do(w: World, e: Event, cfg: ReserveConfig): World
    requires Enabled(w, e)
  {
    match e
    case Tick(_, _, _) => AfterTick(w, e, cfg)
    case Return(o) =>
      w.(loop := Returned(w.loop, o), answered := true, log := Recorded(w.log, ResultOf(o)),
         answers := w.answers + [Answer(ResultOf(o), o.remaining)],
         pile := if ResultOf(o) == Moved then Swept(w.pile) else w.pile)
    case Throw(failure, swept) =>
      w.(loop := Threw(w.loop, failure), answered := true, log := Recorded(w.log, Thrown),
         answers := w.answers + [Answer(Thrown, None)],
         pile := if swept then Swept(w.pile) else w.pile)
    case Settle => w.(loop := Settled(w.loop), answered := false)
    case Leave => w.(steps := w.steps - 1)
  }

  function After(w: World, es: seq<Event>, cfg: ReserveConfig): World
    requires IsRun(w, es, cfg)
    decreases |es|, 1
  {
    if es == [] then w else Do(After(w, es[..|es| - 1], cfg), es[|es| - 1], cfg)
  }

  predicate IsRun(w: World, es: seq<Event>, cfg: ReserveConfig)
    decreases |es|, 0
  {
    es == [] || (IsRun(w, es[..|es| - 1], cfg) && Enabled(After(w, es[..|es| - 1], cfg), es[|es| - 1]))
  }

  // ---- a tick, from outside ----

  /** What no tick changes. */
  lemma TickLeavesAnswersAlone(w: World, e: Event, cfg: ReserveConfig)
    requires e.Tick?
    ensures var w' := AfterTick(w, e, cfg);
            && w'.loop.lastSweepMoved == w.loop.lastSweepMoved
            && w'.loop.remaining == w.loop.remaining
            && w'.loop.failedSteps == w.loop.failedSteps
            && w'.pile == w.pile && w'.answered == w.answered
            && (!StartsAt(w, e, cfg) ==>
                  && w'.log == w.log && w'.steps == w.steps
                  && w'.loop.stepInFlight == w.loop.stepInFlight
                  && w'.loop.lastHarvestAt == w.loop.lastHarvestAt
                  && w'.loop.harvestClockBefore == w.loop.harvestClockBefore)
  {
    hide Eligible, ShouldAttempt, Harvests, Reread, NewAttempt;
  }

  /** A tick that starts a step: only a harvest stamps the clock, and a harvest is due by the
      fast path, by the interval, or because there has never been one. */
  lemma TickStarts(w: World, e: Event, cfg: ReserveConfig)
    requires StartsAt(w, e, cfg)
    ensures var w' := AfterTick(w, e, cfg);
            && !w.loop.stepInFlight && w.steps == 0
            && w'.loop.stepInFlight
            && w'.loop.harvestClockBefore == w.loop.lastHarvestAt
            && |w'.log| == |w.log| + 1 && w'.log[..|w.log|] == w.log
            && var a := w'.log[|w.log|];
               && a.at == e.now && a.result.Pending?
               && w'.loop.lastHarvestAt == (if a.harvest then Some(e.now) else w.loop.lastHarvestAt)
               && (a.harvest && !a.fast && w.loop.lastHarvestAt.Some? ==>
                     e.now - w.loop.lastHarvestAt.value >= cfg.intervalMs)
               && (a.fast ==> a.harvest && FastPath(w.loop, cfg))
               && (a.harvest ==> cfg.intervalMs > 0)
  {
    hide ShouldAttempt, Reread, Draining;
    var a := NewAttempt(Observed(w.loop, e.balance, cfg), e.now, cfg);
    assert (w.log + [a])[..|w.log|] == w.log;
  }

  /** The two counters the back-off is measured with. */
  lemma TickCounts(w: World, e: Event, cfg: ReserveConfig)
    requires e.Tick?
    ensures var w' := AfterTick(w, e, cfg);
            && StartsAt(w, e, cfg)
               == (EligibleAt(w, e, cfg) && ShouldAttempt(w.loop.failedSteps, w.loop.ticksSinceAttempt + 1))
            && w'.eligible == w.eligible + (if EligibleAt(w, e, cfg) then 1 else 0)
            && w'.loop.ticksSinceAttempt == (if StartsAt(w, e, cfg) then 0
                                             else if EligibleAt(w, e, cfg) then w.loop.ticksSinceAttempt + 1
                                             else w.loop.ticksSinceAttempt)
  {
    hide Eligible, ShouldAttempt, Harvests, Reread, NewAttempt;
  }

  // ---- what every event keeps ----

  ghost predicate Basics(w: World, cfg: ReserveConfig) {
    && (w.answered ==> w.loop.stepInFlight)
    && (Outstanding(w) <==> w.log != [] && w.log[|w.log| - 1].result.Pending?)
    && (forall i :: 0 <= i < |w.log| - 1 ==> !w.log[i].result.Pending?)
    && w.steps <= 1
    && w.loop.ticksSinceAttempt < MAX_BACKOFF_TICKS
    && (Outstanding(w) && w.log != [] && w.log[|w.log| - 1].fast ==> FastPath(w.loop, cfg))
    && w.loop.refilling == RefillingAfter(w.readings, cfg.levels)
  }

  lemma TickKeepsBasics(w: World, e: Event, cfg: ReserveConfig)
    requires Basics(w, cfg) && e.Tick?
    ensures Basics(AfterTick(w, e, cfg), cfg)
  {
    BackoffIsThePrice(w.loop.failedSteps);
    TickCounts(w, e, cfg);
    TickLeavesAnswersAlone(w, e, cfg);
    if StartsAt(w, e, cfg) {
      TickStarts(w, e, cfg);
    }
    hide Eligible, Harvests, Reread, BackoffTicks, NewAttempt;
    assert (w.readings + [e.balance])[..|w.readings|] == w.readings;
  }

  lemma EventKeepsBasics(w: World, e: Event, cfg: ReserveConfig)
    requires Basics(w, cfg) && Enabled(w, e)
    ensures Basics(Do(w, e, cfg), cfg)
  {
    hide Ticked, RefillingAfter;
    if e.Tick? {
      TickKeepsBasics(w, e, cfg);
    }
  }

  lemma {:induction false} RunKeepsBasics(w: World, es: seq<Event>, cfg: ReserveConfig)
    requires Basics(w, cfg) && IsRun(w, es, cfg)
    ensures Basics(After(w, es, cfg), cfg)
  {
    if es != [] {
      var init := es[..|es| - 1];
      RunKeepsBasics(w, init, cfg);
      hide Basics, Do;
      EventKeepsBasics(After(w, init, cfg), es[|es| - 1], cfg);
    }
  }

  /** A world some run of a fresh process reaches. */
  ghost predicate Reachable(w: World, cfg: ReserveConfig) {
    exists pile, es :: IsRun(Start(pile), es, cfg) && After(Start(pile), es, cfg) == w
  }

  lemma ReachableBasics(w: World, cfg: ReserveConfig)
    requires Reachable(w, cfg)
    ensures Basics(w, cfg)
  {
    var pile, es :| IsRun(Start(pile), es, cfg) && After(Start(pile), es, cfg) == w;
    RunKeepsBasics(Start(pile), es, cfg);
  }

  /** At most one step of the loop is ever on the send queue, a deadline that answered the loop
      early included, and at most one is unanswered; the refill decision is a function of the
      readings alone. */
  lemma OneStepAtATime(w: World, cfg: ReserveConfig)
    requires Reachable(w, cfg)
    ensures w.steps <= 1
    ensures forall i :: 0 <= i < |w.log| - 1 ==> !w.log[i].result.Pending?
    ensures w.loop.refilling == RefillingAfter(w.readings, cfg.levels)
  {
    ReachableBasics(w, cfg);
  }

  // ---- the counters an operator reads ----

  /** Answers with `result` at the end of the log; `ends` tells which other answers end the run
      and which are stepped over. An unanswered step counts for nothing. */
  function RunLength(log: seq<Attempt>, result: Result, ends: set<Result>): nat {
    if log == [] then 0
    else
      var init, last := log[..|log| - 1], log[|log| - 1].result;
      if last == result then 1 + RunLength(init, result, ends)
      else if last in ends then 0
      else RunLength(init, result, ends)
  }

  function BlindRun(readings: seq<Option<int>>): nat {
    if readings == [] || readings[|readings| - 1].Some? then 0 else 1 + BlindRun(readings[..|readings| - 1])
  }

  ghost predicate CountersTell(w: World) {
    && w.loop.failedSteps == RunLength(w.log, Thrown, {Moved, Fruitless, Refused})
    && w.loop.shieldRefusals == RunLength(w.log, Refused, {Moved, Fruitless})
    && w.loop.emptySweeps == RunLength(w.log, Fruitless, {Moved})
    && w.loop.blindTicks == BlindRun(w.readings)
  }

  lemma RunAppend(log: seq<Attempt>, a: Attempt, result: Result, ends: set<Result>)
    requires a.result.Pending? && !result.Pending? && Pending !in ends
    ensures RunLength(log + [a], result, ends) == RunLength(log, result, ends)
  {
    assert (log + [a])[..|log|] == log;
  }

  lemma RunRecorded(log: seq<Attempt>, answer: Result, result: Result, ends: set<Result>)
    requires log != [] && log[|log| - 1].result.Pending? && !result.Pending? && Pending !in ends
    ensures RunLength(Recorded(log, answer), result, ends)
            == if answer == result then 1 + RunLength(log, result, ends)
               else if answer in ends then 0 else RunLength(log, result, ends)
  {
    assert Recorded(log, answer)[..|log| - 1] == log[..|log| - 1];
  }

  lemma TickCountersShape(w: World, e: Event, cfg: ReserveConfig)
    requires e.Tick?
    ensures var l, l' := w.loop, AfterTick(w, e, cfg).loop;
            && l'.failedSteps == l.failedSteps && l'.shieldRefusals == l.shieldRefusals
            && l'.emptySweeps == l.emptySweeps
            && l'.blindTicks == if e.balance.None? then l.blindTicks + 1 else 0
    ensures AfterTick(w, e, cfg).readings == w.readings + [e.balance]
    ensures AfterTick(w, e, cfg).log
            == if StartsAt(w, e, cfg) then w.log + [NewAttempt(Observed(w.loop, e.balance, cfg), e.now, cfg)] else w.log
  {
    hide Eligible, ShouldAttempt, Harvests, Reread, FastPath, NewAttempt;
  }

  lemma TickKeepsCounters(w: World, e: Event, cfg: ReserveConfig)
    requires CountersTell(w) && e.Tick?
    ensures CountersTell(AfterTick(w, e, cfg))
  {
    TickCountersShape(w, e, cfg);
    var a := NewAttempt(Observed(w.loop, e.balance, cfg), e.now, cfg);
    RunAppend(w.log, a, Thrown, {Moved, Fruitless, Refused});
    RunAppend(w.log, a, Refused, {Moved, Fruitless});
    RunAppend(w.log, a, Fruitless, {Moved});
    assert (w.readings + [e.balance])[..|w.readings|] == w.readings;
    hide RunLength, AfterTick, StartsAt, NewAttempt;
  }

  lemma EventKeepsCounters(w: World, e: Event, cfg: ReserveConfig)
    requires CountersTell(w) && Basics(w, cfg) && Enabled(w, e)
    ensures CountersTell(Do(w, e, cfg))
  {
    if e.Tick? {
      TickKeepsCounters(w, e, cfg);
    } else if e.Return? || e.Throw? {
      var answer := if e.Throw? then Thrown else ResultOf(e.outcome);
      RunRecorded(w.log, answer, Thrown, {Moved, Fruitless, Refused});
      RunRecorded(w.log, answer, Refused, {Moved, Fruitless});
      RunRecorded(w.log, answer, Fruitless, {Moved});
    }
    hide RunLength, BlindRun, AfterTick, Basics;
  }

  lemma {:induction false} RunKeepsCounters(w: World, es: seq<Event>, cfg: ReserveConfig)
    requires CountersTell(w) && Basics(w, cfg) && IsRun(w, es, cfg)
    ensures CountersTell(After(w, es, cfg))
  {
    if es != [] {
      var init := es[..|es| - 1];
      RunKeepsCounters(w, init, cfg);
      RunKeepsBasics(w, init, cfg);
      hide Basics, CountersTell, Do;
      EventKeepsCounters(After(w, init, cfg), es[|es| - 1], cfg);
    }
  }

  /** The status counters are functions of what happened: throws since a step last returned,
      refusals since one last asked the wallet, fruitless sweeps since funds last moved, and
      blind ticks since a balance was last read. Refusals and throws never count as empty. */
  lemma StatusIsHistory(w: World, cfg: ReserveConfig)
    requires Reachable(w, cfg)
    ensures w.loop.failedSteps == RunLength(w.log, Thrown, {Moved, Fruitless, Refused})
    ensures w.loop.shieldRefusals == RunLength(w.log, Refused, {Moved, Fruitless})
    ensures w.loop.emptySweeps == RunLength(w.log, Fruitless, {Moved})
    ensures w.loop.blindTicks == BlindRun(w.readings)
  {
    var pile, es :| IsRun(Start(pile), es, cfg) && After(Start(pile), es, cfg) == w;
    RunKeepsCounters(Start(pile), es, cfg);
  }

  // ---- harvesting cannot spin ----

  /** A harvest that asked the wallet and moved nothing. */
  predicate Wasted(a: Attempt) {
    a.harvest && (a.result.Fruitless? || a.result.Thrown?)
  }

  /** No step moved funds from index `i` up to `j`. */
  predicate NoneMoved(log: seq<Attempt>, i: int, j: int)
    requires 0 <= i && j <= |log|
  {
    forall k :: i <= k < j ==> !log[k].result.Moved?
  }

  predicate NoSpin(log: seq<Attempt>, intervalMs: int) {
    forall i, j :: 0 <= i < j < |log| && Wasted(log[i]) && log[j].harvest && NoneMoved(log, i, j)
                   ==> log[j].at - log[i].at >= intervalMs
  }

  predicate Reaches(clock: Option<int>, t: int) {
    clock.Some? && clock.value >= t
  }

  /** While nothing has moved since a wasted harvest, the fast path is shut and the harvest
      clock, as well as the value a refusal would restore, has not gone back before it. */
  predicate Remembered(w: World, i: int)
    requires 0 <= i < |w.log|
  {
    Wasted(w.log[i]) && NoneMoved(w.log, i, |w.log|) ==>
      && !w.loop.lastSweepMoved
      && Reaches(w.loop.lastHarvestAt, w.log[i].at)
      && (Outstanding(w) ==> Reaches(w.loop.harvestClockBefore, w.log[i].at))
  }

  predicate Stamped(w: World) {
    Outstanding(w) && w.log != [] && w.log[|w.log| - 1].harvest ==> w.loop.lastHarvestAt == Some(w.log[|w.log| - 1].at)
  }

  ghost predicate Unspun(w: World, cfg: ReserveConfig) {
    && Stamped(w)
    && (forall i :: 0 <= i < |w.log| ==> Remembered(w, i))
    && NoSpin(w.log, cfg.intervalMs)
  }

  lemma TickKeepsUnspun(w: World, e: Event, cfg: ReserveConfig)
    requires Unspun(w, cfg) && Basics(w, cfg) && e.Tick?
    ensures Unspun(AfterTick(w, e, cfg), cfg)
  {
    var w' := AfterTick(w, e, cfg);
    TickLeavesAnswersAlone(w, e, cfg);
    if StartsAt(w, e, cfg) {
      TickStarts(w, e, cfg);
      hide AfterTick, StartsAt;
      var n := |w.log|;
      assert w'.log[n].result.Pending?;
      forall i | 0 <= i <= n ensures Remembered(w', i) {
        if i < n && Wasted(w'.log[i]) && NoneMoved(w'.log, i, n + 1) {
          assert NoneMoved(w.log, i, n);
          assert Remembered(w, i);
          assert !FastPath(w.loop, cfg);
        }
      }
      forall i, j | 0 <= i < j <= n && Wasted(w'.log[i]) && w'.log[j].harvest && NoneMoved(w'.log, i, j)
        ensures w'.log[j].at - w'.log[i].at >= cfg.intervalMs
      {
        assert NoneMoved(w.log, i, j);
        assert j == n ==> Remembered(w, i);
      }
    } else {
      hide AfterTick, StartsAt;
      assert forall i :: 0 <= i < |w.log| ==> Remembered(w, i) && w'.log[i] == w.log[i];
    }
  }

  /** An answer changes the result of the last attempt and nothing earlier. */
  lemma AnswerKeepsUnspun(w: World, w': World, result: Result, cfg: ReserveConfig)
    requires Unspun(w, cfg) && Basics(w, cfg) && Outstanding(w) && !result.Pending?
    requires w'.log == Recorded(w.log, result) && !Outstanding(w')
    requires result.Refused? ==>
               w'.loop.lastHarvestAt == w.loop.harvestClockBefore && w'.loop.lastSweepMoved == w.loop.lastSweepMoved
    requires !result.Refused? ==> w'.loop.lastHarvestAt == w.loop.lastHarvestAt
    requires result.Fruitless? || result.Thrown? ==> !w'.loop.lastSweepMoved
    ensures Unspun(w', cfg)
  {
    var n := |w.log| - 1;
    assert w.log[n].result.Pending?;
    hide Basics;
    assert w'.log[n].at == w.log[n].at && w'.log[n].harvest == w.log[n].harvest && w'.log[n].result == result;
    forall i | 0 <= i <= n ensures Remembered(w', i) {
      if i < n && Wasted(w'.log[i]) && NoneMoved(w'.log, i, n + 1) {
        assert w'.log[i] == w.log[i];
        assert NoneMoved(w.log, i, n + 1) by {
          assert forall k :: i <= k < n ==> w'.log[k] == w.log[k];
        }
        assert Remembered(w, i);
        assert !result.Moved?;
      }
    }
    forall i, j | 0 <= i < j <= n && Wasted(w'.log[i]) && w'.log[j].harvest && NoneMoved(w'.log, i, j)
      ensures w'.log[j].at - w'.log[i].at >= cfg.intervalMs
    {
      assert NoneMoved(w.log, i, j) by {
        assert forall k :: i <= k < j ==> w'.log[k] == w.log[k];
      }
    }
  }

  lemma QuietKeepsUnspun(w: World, w': World, cfg: ReserveConfig)
    requires Unspun(w, cfg) && w'.log == w.log && (Outstanding(w') ==> Outstanding(w))
    requires w'.loop.(stepInFlight := true) == w.loop.(stepInFlight := true)
    ensures Unspun(w', cfg)
  {
    forall i | 0 <= i < |w.log| ensures Remembered(w', i) {
      assert Remembered(w, i);
    }
  }

  lemma EventKeepsUnspun(w: World, e: Event, cfg: ReserveConfig)
    requires Unspun(w, cfg) && Basics(w, cfg) && Enabled(w, e)
    ensures Unspun(Do(w, e, cfg), cfg)
  {
    match e
    case Tick(_, _, _) => TickKeepsUnspun(w, e, cfg);
    case Return(o) => AnswerKeepsUnspun(w, Do(w, e, cfg), ResultOf(o), cfg);
    case Throw(_, _) => AnswerKeepsUnspun(w, Do(w, e, cfg), Thrown, cfg);
    case Settle => QuietKeepsUnspun(w, Do(w, e, cfg), cfg);
    case Leave => QuietKeepsUnspun(w, Do(w, e, cfg), cfg);
  }

  lemma {:induction false} RunKeepsUnspun(w: World, es: seq<Event>, cfg: ReserveConfig)
    requires Unspun(w, cfg) && Basics(w, cfg) && IsRun(w, es, cfg)
    ensures Unspun(After(w, es, cfg), cfg)
  {
    if es != [] {
      var init := es[..|es| - 1];
      RunKeepsUnspun(w, init, cfg);
      RunKeepsBasics(w, init, cfg);
      hide Basics, Unspun, Do;
      EventKeepsUnspun(After(w, init, cfg), es[|es| - 1], cfg);
    }
  }

  /** Harvesting cannot spin: after a harvest that moved nothing or threw, and as long as no
      step moves funds, no harvest starts sooner than the interval, however many refused,
      failed or refill steps and however many ticks lie between. */
  lemma HarvestingCannotSpin(w: World, i: int, j: int, cfg: ReserveConfig)
    requires Reachable(w, cfg) && 0 <= i < j < |w.log|
    requires Wasted(w.log[i]) && w.log[j].harvest && NoneMoved(w.log, i, j)
    ensures w.log[j].at - w.log[i].at >= cfg.intervalMs
  {
    var pile, es :| IsRun(Start(pile), es, cfg) && After(Start(pile), es, cfg) == w;
    RunKeepsUnspun(Start(pile), es, cfg);
  }

  // ---- a refused step leaves no trace ----

  predicate Unanswered(es: seq<Event>) {
    forall i :: 0 <= i < |es| ==> es[i].Tick? || es[i].Leave?
  }

  /** What the harvest rule reads. */
  predicate SameMemory(l: Loop, l': Loop) {
    l'.lastHarvestAt == l.lastHarvestAt && l'.remaining == l.remaining && l'.lastSweepMoved == l.lastSweepMoved
  }

  lemma {:induction false} StepInFlightFreezes(w: World, es: seq<Event>, cfg: ReserveConfig)
    requires IsRun(w, es, cfg) && Unanswered(es) && Outstanding(w)
    ensures var w' := After(w, es, cfg);
            Outstanding(w') && SameMemory(w.loop, w'.loop) && w'.loop.harvestClockBefore == w.loop.harvestClockBefore
  {
    if es != [] {
      var init, e := es[..|es| - 1], es[|es| - 1];
      StepInFlightFreezes(w, init, cfg);
      var mid := After(w, init, cfg);
      if e.Tick? {
        TickLeavesAnswersAlone(mid, e, cfg);
        if StartsAt(mid, e, cfg) {
          TickStarts(mid, e, cfg);
        }
        hide AfterTick, StartsAt;
      }
    }
  }

  /** However many ticks pass while it is in flight, a step that is refused leaves the harvest
      clock, the known count and `lastSweepMoved` as they were before it started. */
  lemma RefusalLeavesNoTrace(w: World, start: Event, es: seq<Event>, o: Outcome, cfg: ReserveConfig)
    requires Basics(w, cfg) && StartsAt(w, start, cfg) && o.refused.Some?
    requires Unanswered(es) && IsRun(Do(w, start, cfg), es, cfg)
    ensures var flying := After(Do(w, start, cfg), es, cfg);
            && Outstanding(flying)
            && SameMemory(w.loop, Do(flying, Return(o), cfg).loop)
  {
    TickLeavesAnswersAlone(w, start, cfg);
    TickStarts(w, start, cfg);
    hide AfterTick, StartsAt, Basics;
    StepInFlightFreezes(Do(w, start, cfg), es, cfg);
  }

  // ---- the backlog fast path ends ----

  /** The wallet tells the truth about what it did: a sweep that moved funds had some to move and,
      when it reports a count, reports what its batch left. Nothing is asked of a sweep that moved
      nothing: outputs it cannot spend yet, or cannot see, may well remain. */
  predicate Honest(w: World, e: Event) {
    e.Return? && ResultOf(e.outcome) == Moved ==>
      w.pile > 0 && (e.outcome.remaining.Some? ==> e.outcome.remaining == Some(Swept(w.pile)))
  }

  predicate HonestRun(w: World, es: seq<Event>, cfg: ReserveConfig) {
    es == [] || (&& IsRun(w, es, cfg)
                 && HonestRun(w, es[..|es| - 1], cfg)
                 && Honest(After(w, es[..|es| - 1], cfg), es[|es| - 1]))
  }

  /** Sweeps the fast path started that were not refused. */
  function FastSweeps(log: seq<Attempt>): nat {
    if log == [] then 0
    else
      var a := log[|log| - 1];
      FastSweeps(log[..|log| - 1]) + (if a.fast && !a.result.Pending? && !a.result.Refused? then 1 else 0)
  }

  /** Batches it takes to sweep a pile. */
  function Batches(pile: nat): nat {
    (pile + SHIELD_UTXO_LIMIT - 1) / SHIELD_UTXO_LIMIT
  }

  /** Fast sweeps the pile still allows: while the path is shut, one batch must first move by
      the interval to open it again. */
  function StillAllowed(pile: nat, open: bool): nat {
    if pile > 0 && !open then Batches(pile) - 1 else Batches(pile)
  }

  /** While the path is open, a count the loop knows is the pile there is. */
  predicate CountIsPile(w: World) {
    w.loop.lastSweepMoved && w.loop.remaining.Some? ==> w.loop.remaining.value == w.pile
  }

  ghost predicate Drains(w: World, most: nat) {
    && CountIsPile(w)
    && (Outstanding(w) && w.log != [] && w.log[|w.log| - 1].fast ==> w.loop.lastSweepMoved && w.pile > 0)
    && FastSweeps(w.log) + StillAllowed(w.pile, w.loop.lastSweepMoved) <= most
  }

  lemma TickKeepsDrains(w: World, e: Event, most: nat, cfg: ReserveConfig)
    requires Drains(w, most) && Basics(w, cfg) && e.Tick? && cfg.minUTXOs >= 1
    ensures Drains(AfterTick(w, e, cfg), most)
  {
    TickLeavesAnswersAlone(w, e, cfg);
    if StartsAt(w, e, cfg) {
      TickStarts(w, e, cfg);
    } else {
      assert Outstanding(AfterTick(w, e, cfg)) == Outstanding(w);
    }
    hide AfterTick, StartsAt, Basics, Batches;
  }

  lemma RecordedCounts(log: seq<Attempt>, result: Result)
    requires log != [] && log[|log| - 1].result.Pending? && !result.Pending?
    ensures FastSweeps(Recorded(log, result))
            == FastSweeps(log) + if log[|log| - 1].fast && !result.Refused? then 1 else 0
  {
    assert Recorded(log, result)[..|log| - 1] == log[..|log| - 1];
  }

  lemma SweptBatches(pile: nat)
    requires pile > 0
    ensures Batches(Swept(pile)) == Batches(pile) - 1
  {
  }

  lemma EventKeepsDrains(w: World, e: Event, most: nat, cfg: ReserveConfig)
    requires Drains(w, most) && Basics(w, cfg) && Enabled(w, e) && Honest(w, e) && cfg.minUTXOs >= 1
    ensures Drains(Do(w, e, cfg), most)
  {
    match e
    case Tick(_, _, _) => TickKeepsDrains(w, e, most, cfg);
    case Return(o) =>
      RecordedCounts(w.log, ResultOf(o));
      if w.pile > 0 { SweptBatches(w.pile); }
      hide FastSweeps, Batches, Swept;
    case Throw(_, _) =>
      RecordedCounts(w.log, Thrown);
      if w.pile > 0 { SweptBatches(w.pile); }
      hide FastSweeps, Batches, Swept;
    case Settle =>
    case Leave =>
  }

  lemma {:induction false} RunKeepsDrains(w: World, es: seq<Event>, most: nat, cfg: ReserveConfig)
    requires Drains(w, most) && Basics(w, cfg) && IsRun(w, es, cfg) && HonestRun(w, es, cfg) && cfg.minUTXOs >= 1
    ensures Drains(After(w, es, cfg), most)
  {
    if es != [] {
      var init := es[..|es| - 1];
      RunKeepsDrains(w, init, most, cfg);
      RunKeepsBasics(w, init, cfg);
      hide Basics, Drains, Do, Honest;
      EventKeepsDrains(After(w, init, cfg), es[|es| - 1], most, cfg);
    }
  }

  /** From any moment of any run at which the known count is the pile, and with nothing new mined
      from then on, the fast path makes at most ceil(pile/50) sweeps that are not refused, whatever
      throws, deadlines, refusals and fruitless sweeps come between. */
  lemma FastPathEnds(w: World, es: seq<Event>, cfg: ReserveConfig)
    requires cfg.minUTXOs >= 1 && Reachable(w, cfg) && CountIsPile(w)
    requires IsRun(w, es, cfg) && HonestRun(w, es, cfg)
    ensures FastSweeps(After(w, es, cfg).log) - FastSweeps(w.log)
            <= (w.pile + 49) / 50
  {
    ReachableBasics(w, cfg);
    RunKeepsDrains(w, es, FastSweeps(w.log) + Batches(w.pile), cfg);
  }

  // ---- the rate of attempts ----

  /** Failures an unanswered step will have added if it throws too. */
  function Failures(w: World): nat {
    w.loop.failedSteps + if Outstanding(w) then 1 else 0
  }

  /** Attempts keep pace with eligible ticks since `w0`, never slower than one in twenty. */
  predicate NotSlower(w0: World, w: World) {
    && |w.log| >= |w0.log| && w.eligible >= w0.eligible
    && (w.eligible - w0.eligible) + w0.loop.ticksSinceAttempt <= 20 * (|w.log| - |w0.log|) + w.loop.ticksSinceAttempt
  }

  /** With nothing but throws since `w0`, faster than one in twenty only by what the backoff
      had still to grow. */
  predicate NotFaster(w0: World, w: World) {
    20 * (|w.log| - |w0.log|) + Savings(Failures(w)) + w.loop.ticksSinceAttempt
    <= Savings(Failures(w0)) + (w.eligible - w0.eligible) + w0.loop.ticksSinceAttempt
  }

  predicate NoReturn(es: seq<Event>) {
    forall i :: 0 <= i < |es| ==> !es[i].Return?
  }

  lemma TickKeepsPace(w0: World, w: World, e: Event, cfg: ReserveConfig)
    requires NotSlower(w0, w) && Basics(w, cfg) && e.Tick?
    ensures NotSlower(w0, AfterTick(w, e, cfg))
    ensures NotFaster(w0, w) ==> NotFaster(w0, AfterTick(w, e, cfg))
  {
    BackoffIsThePrice(w.loop.failedSteps);
    TickCounts(w, e, cfg);
    TickLeavesAnswersAlone(w, e, cfg);
    if StartsAt(w, e, cfg) {
      TickStarts(w, e, cfg);
    }
    hide BackoffTicks, Price, Savings, AfterTick, StartsAt, EligibleAt;
  }

  lemma EventKeepsPace(w0: World, w: World, e: Event, cfg: ReserveConfig)
    requires NotSlower(w0, w) && Basics(w, cfg) && Enabled(w, e)
    ensures NotSlower(w0, Do(w, e, cfg))
    ensures NotFaster(w0, w) && !e.Return? ==> NotFaster(w0, Do(w, e, cfg))
  {
    if e.Tick? {
      TickKeepsPace(w0, w, e, cfg);
    }
    hide AfterTick, Basics, Savings;
  }

  lemma {:induction false} RunKeepsPace(w0: World, es: seq<Event>, cfg: ReserveConfig)
    requires Basics(w0, cfg) && IsRun(w0, es, cfg)
    ensures NotSlower(w0, After(w0, es, cfg))
    ensures NoReturn(es) ==> NotFaster(w0, After(w0, es, cfg))
  {
    if es != [] {
      var init, e := es[..|es| - 1], es[|es| - 1];
      RunKeepsPace(w0, init, cfg);
      RunKeepsBasics(w0, init, cfg);
      hide Do, Basics, NotSlower, NotFaster;
      EventKeepsPace(w0, After(w0, init, cfg), e, cfg);
    }
  }

  /** Never more than 20 eligible ticks between attempts: any stretch of a run holds at least
      one attempt in every 20. */
  lemma AttemptsAreNotStarved(w: World, es: seq<Event>, cfg: ReserveConfig)
    requires Reachable(w, cfg) && IsRun(w, es, cfg)
    ensures var w' := After(w, es, cfg);
            |w'.log| - |w.log| >= (w'.eligible - w.eligible) / 20
  {
    ReachableBasics(w, cfg);
    RunKeepsPace(w, es, cfg);
    RunKeepsBasics(w, es, cfg);
    hide After, IsRun, RefillingAfter, Reachable;
  }

  /** Back-off over throwing steps: N eligible ticks in which no step returns hold at most
      6 + N/20 attempts. */
  lemma ThrowingStepsAreRare(w: World, es: seq<Event>, cfg: ReserveConfig)
    requires Reachable(w, cfg) && IsRun(w, es, cfg) && NoReturn(es)
    ensures var w' := After(w, es, cfg);
            |w'.log| - |w.log| <= 6 + (w'.eligible - w.eligible) / 20
  {
    ReachableBasics(w, cfg);
    RunKeepsPace(w, es, cfg);
    hide After, IsRun, NoReturn, RefillingAfter, Reachable;
  }
}
