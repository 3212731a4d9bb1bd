/** The reserve reconciler: a tick-driven loop whose one step completes asynchronously.

    A tick is modelled from the moment its balance reading is back. The handlers of the step it
    may have started run later, between any two ticks. */
module Reconciler {
  import opened Wrappers
  import opened RefillRules

  /** What a step that returned reports. */
  datatype Outcome = Outcome(moved: bool, refused: Option<string>, remaining: Option<int>)

  /** A throw, as an opaque classifier of its message reads it. */
  datatype FailureKind = WaitingForCoinbase | Resyncing | Failed

  datatype Failure = Failure(kind: FailureKind, reason: string)

  /** The fields of the loop. `harvestClockBefore` is the value the handlers of the step in
      flight have captured. */
  datatype Loop = Loop(
    refilling: Option<bool>,
    spendable: Option<int>,
    stepInFlight: bool,
    harvesting: bool,
    blindTicks: nat,
    forbiddenTicks: nat,
    emptySweeps: nat,
    shieldRefusals: nat,
    movedWithoutCount: nat,
    failedSteps: nat,
    ticksSinceAttempt: nat,
    remaining: Option<int>,
    lastHarvestAt: Option<int>,
    lastSweepMoved: bool,
    lastRefusal: Option<string>,
    lastFailure: Option<Failure>,
    harvestClockBefore: Option<int>)

  const FRESH := Loop(None, None, false, false, 0, 0, 0, 0, 0, 0, 0, None, None, true, None, None, None)

  // ---- one tick ----

  /** The balance is read and the two counters it drives move. */
  function Observed(l: Loop, balance: Option<int>, cfg: ReserveConfig): Loop {
    var refilling := Reread(l.refilling, balance, cfg.levels);
    l.(spendable := balance,
       blindTicks := if balance.None? then l.blindTicks + 1 else 0,
       refilling := refilling,
       forbiddenTicks := if refilling == Some(true) && !cfg.shieldCoinbase then l.forbiddenTicks + 1 else 0)
  }

  predicate FastPath(l: Loop, cfg: ReserveConfig) {
    Draining(l.lastSweepMoved, l.remaining, cfg.minUTXOs)
  }

  predicate HarvestDue(l: Loop, now: int, cfg: ReserveConfig) {
    ShouldHarvest(l.spendable.Some?, FastPath(l, cfg),
                  match l.lastHarvestAt case None => None case Some(t) => Some(now - t),
                  cfg.intervalMs)
  }

  /** This tick may start a step: refilling or harvesting, permitted, none in flight, no traffic. */
  predicate Eligible(seen: Loop, now: int, depth: nat, cfg: ReserveConfig) {
    ShouldStartStep(seen.refilling == Some(true), HarvestDue(seen, now, cfg), cfg.shieldCoinbase,
                    seen.stepInFlight, depth)
  }

  predicate Harvests(seen: Loop, now: int, cfg: ReserveConfig) {
    HarvestDue(seen, now, cfg) && seen.refilling != Some(true)
  }

  /** An eligible tick starts a step unless it is backing off. */
  predicate StartsStep(seen: Loop, now: int, depth: nat, cfg: ReserveConfig) {
    Eligible(seen, now, depth, cfg) && ShouldAttempt(seen.failedSteps, seen.ticksSinceAttempt + 1)
  }

  /** The step is on its way. Only a harvest stamps the clock. */
  function Launched(seen: Loop, now: int, harvest: bool): Loop {
    seen.(harvesting := harvest,
          ticksSinceAttempt := 0,
          stepInFlight := true,
          harvestClockBefore := seen.lastHarvestAt,
          lastHarvestAt := if harvest then Some(now) else seen.lastHarvestAt)
  }

  function Acted(seen: Loop, now: int, depth: nat, cfg: ReserveConfig): Loop {
    if StartsStep(seen, now, depth, cfg) then
      Launched(seen, now, Harvests(seen, now, cfg))
    else if Eligible(seen, now, depth, cfg) then
      seen.(harvesting := false, ticksSinceAttempt := seen.ticksSinceAttempt + 1)
    else
      seen.(harvesting := seen.stepInFlight && seen.harvesting)
  }

  function Ticked(l: Loop, balance: Option<int>, now: int, depth: nat, cfg: ReserveConfig): Loop {
    Acted(Observed(l, balance, cfg), now, depth, cfg)
  }

  predicate Starts(l: Loop, balance: Option<int>, now: int, depth: nat, cfg: ReserveConfig) {
    StartsStep(Observed(l, balance, cfg), now, depth, cfg)
  }

  // ---- the handlers ----

  function Returned(l: Loop, o: Outcome): Loop {
    var told := l.(failedSteps := 0, lastFailure := None);
    if o.refused.Some? then
      told.(lastHarvestAt := l.harvestClockBefore, shieldRefusals := l.shieldRefusals + 1, lastRefusal := o.refused)
    else
      told.(remaining := o.remaining,
            lastSweepMoved := o.moved,
            shieldRefusals := 0,
            lastRefusal := None,
            emptySweeps := if o.moved then 0 else l.emptySweeps + 1,
            movedWithoutCount := if !o.moved then l.movedWithoutCount
                                 else if o.remaining.None? then l.movedWithoutCount + 1 else 0)
  }

  /** A throw of the step itself, or its queue deadline. */
  function Threw(l: Loop, failure: Failure): Loop {
    l.(failedSteps := l.failedSteps + 1, lastFailure := Some(failure), lastSweepMoved := false)
  }

  function Settled(l: Loop): Loop {
    l.(stepInFlight := false)
  }

  class ReserveReconciler {
    const cfg: ReserveConfig
    var refilling: Option<bool>
    var spendable: Option<int>
    var stepInFlight: bool
    var harvesting: bool
    var blindTicks: nat
    var forbiddenTicks: nat
    var emptySweeps: nat
    var shieldRefusals: nat
    var movedWithoutCount: nat
    var failedSteps: nat
    var ticksSinceAttempt: nat
    var remaining: Option<int>
    var lastHarvestAt: Option<int>
    var lastSweepMoved: bool
    var lastRefusal: Option<string>
    var lastFailure: Option<Failure>
    var harvestClockBefore: Option<int>

    ghost function Value(): Loop
      reads this
    {
      Loop(refilling, spendable, stepInFlight, harvesting, blindTicks, forbiddenTicks, emptySweeps, shieldRefusals,
           movedWithoutCount, failedSteps, ticksSinceAttempt, remaining, lastHarvestAt, lastSweepMoved,
           lastRefusal, lastFailure, harvestClockBefore)
    }

    constructor (cfg: ReserveConfig)
      ensures Value() == FRESH && this.cfg == cfg
    {
      this.cfg := cfg;
      refilling, spendable, stepInFlight, harvesting := None, None, false, false;
      blindTicks, forbiddenTicks, emptySweeps, shieldRefusals, movedWithoutCount := 0, 0, 0, 0, 0;
      failedSteps, ticksSinceAttempt := 0, 0;
      remaining, lastHarvestAt, lastSweepMoved := None, None, true;
      lastRefusal, lastFailure, harvestClockBefore := None, None, None;
    }

    /** The first half of a tick: what the reading alone decides. */
    method Observe(balance: Option<int>)
      modifies this
      ensures Value() == Observed(old(Value()), balance, cfg)
    {
      spendable := balance;
      if spendable.None? {
        blindTicks := blindTicks + 1;
      } else {
        blindTicks := 0;
      }
      if refilling.None? {
        refilling := InitialRefilling(spendable, cfg.levels);
      } else {
        refilling := Some(DecideRefilling(refilling.value, spendable, cfg.levels));
      }
      if refilling == Some(true) && !cfg.shieldCoinbase {
        forbiddenTicks := forbiddenTicks + 1;
      } else {
        forbiddenTicks := 0;
      }
    }

    /** The second half: start at most one step. */
    method Act(now: int, queueDepth: nat) returns (started: bool)
      modifies this
      ensures Value() == Acted(old(Value()), now, queueDepth, cfg)
      ensures started == StartsStep(old(Value()), now, queueDepth, cfg)
    {
      hide ShouldAttempt, ShouldStartStep, ShouldHarvest, Draining, Launched;
      ghost var seen := Value();
      var sinceLast := match lastHarvestAt case None => None case Some(t) => Some(now - t);
      var harvest := ShouldHarvest(spendable.Some?, Draining(lastSweepMoved, remaining, cfg.minUTXOs),
                                   sinceLast, cfg.intervalMs);
      var start := ShouldStartStep(refilling == Some(true), harvest, cfg.shieldCoinbase, stepInFlight, queueDepth);
      assert harvest == HarvestDue(seen, now, cfg) && start == Eligible(seen, now, queueDepth, cfg);
      hide HarvestDue, Eligible;
      if !start {
        if !stepInFlight {
          harvesting := false;
        }
        return false;
      }
      if !ShouldAttempt(failedSteps, ticksSinceAttempt + 1) {
        ticksSinceAttempt := ticksSinceAttempt + 1;
        harvesting := false;
        return false;
      }
      Launch(now, harvest && refilling != Some(true));
      return true;
    }

    method Launch(now: int, harvest: bool)
      modifies this
      ensures Value() == Launched(old(Value()), now, harvest)
    {
      harvesting := harvest;
      ticksSinceAttempt := 0;
      stepInFlight := true;
      harvestClockBefore := lastHarvestAt;
      if harvesting {
        lastHarvestAt := Some(now);
      }
    }

    /** One tick. It never leaves a harvest reported as in progress without a step behind it. */
    method Tick(balance: Option<int>, now: int, queueDepth: nat) returns (started: bool)
      modifies this
      ensures Value() == Ticked(old(Value()), balance, now, queueDepth, cfg)
      ensures started == Starts(old(Value()), balance, now, queueDepth, cfg)
      ensures harvesting ==> stepInFlight
    {
      hide Observed, Eligible, ShouldAttempt, Harvests;
      Observe(balance);
      started := Act(now, queueDepth);
    }

    method OnReturned(outcome: Outcome)
      modifies this
      ensures Value() == Returned(old(Value()), outcome)
    {
      failedSteps := 0;
      lastFailure := None;
      if outcome.refused.None? {
        remaining := outcome.remaining;
        lastSweepMoved := outcome.moved;
      }
      if outcome.refused.Some? {
        lastHarvestAt := harvestClockBefore;
        shieldRefusals := shieldRefusals + 1;
        lastRefusal := outcome.refused;
        return;
      }
      shieldRefusals := 0;
      lastRefusal := None;
      if outcome.moved {
        emptySweeps := 0;
        if outcome.remaining.None? {
          movedWithoutCount := movedWithoutCount + 1;
        } else {
          movedWithoutCount := 0;
        }
        return;
      }
      emptySweeps := emptySweeps + 1;
    }

    method OnThrown(failure: Failure)
      modifies this
      ensures Value() == Threw(old(Value()), failure)
    {
      failedSteps := failedSteps + 1;
      lastFailure := Some(failure);
      lastSweepMoved := false;
    }

    method OnSettled()
      modifies this
      ensures Value() == Settled(old(Value()))
    {
      stepInFlight := false;
    }
  }
}
