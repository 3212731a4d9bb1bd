/** The reserve loop as a function of its history: which tick starts a step, and of what kind, told by
    the readings, the log of attempts and the answers alone. */
module ReserveHistory {
  import opened Wrappers
  import opened RefillRules
  import opened Reconciler
  import opened ReserveRuns

  // ---- what the history says ----

  /** When the last harvest was started that was not refused. */
  function LastHarvest(log: seq<Attempt>): Option<int> {
    if log == [] then None
    else
      var a := log[|log| - 1];
      if a.harvest && a.result != Refused then Some(a.at) else LastHarvest(log[..|log| - 1])
  }

  /** The last step that asked the wallet. */
  function LastSweep(answers: seq<Answer>): Option<Answer> {
    if answers == [] then None
    else if answers[|answers| - 1].result != Refused then Some(answers[|answers| - 1])
    else LastSweep(answers[..|answers| - 1])
  }

  /** The last step that returned and asked the wallet. */
  function LastReport(answers: seq<Answer>): Option<int> {
    if answers == [] then None
    else
      var a := answers[|answers| - 1];
      if a.result == Moved || a.result == Fruitless then a.left else LastReport(answers[..|answers| - 1])
  }

  /** Steps that moved funds and reported no count, since one last did. */
  function UncountedRun(answers: seq<Answer>): nat {
    if answers == [] then 0
    else
      var a, rest := answers[|answers| - 1], UncountedRun(answers[..|answers| - 1]);
      if a.result != Moved then rest else if a.left.None? then rest + 1 else 0
  }

  /** Ticks at the end at which the decision was to refill. */
  function RefillingRun(readings: seq<Option<int>>, levels: Levels): nat {
    if readings == [] || RefillingAfter(readings, levels) != Some(true) then 0
    else 1 + RefillingRun(readings[..|readings| - 1], levels)
  }

  /** A step is on its way, or its `finally` is still to come. */
  predicate InFlight(w: World) {
    w.answered || (w.log != [] && w.log[|w.log| - 1].result == Pending)
  }

  ghost predicate Tells(w: World, cfg: ReserveConfig) {
    && (w.loop.stepInFlight <==> InFlight(w))
    && w.loop.lastHarvestAt == LastHarvest(w.log)
    && (w.log != [] && w.log[|w.log| - 1].result == Pending ==>
          w.loop.harvestClockBefore == LastHarvest(w.log[..|w.log| - 1]))
    && w.loop.lastSweepMoved == (LastSweep(w.answers).None? || LastSweep(w.answers).value.result == Moved)
    && w.loop.remaining == LastReport(w.answers)
    && w.loop.movedWithoutCount == UncountedRun(w.answers)
    && (w.loop.stepInFlight ==> w.log != [] && w.loop.harvesting == w.log[|w.log| - 1].harvest)
    && w.loop.forbiddenTicks == (if cfg.shieldCoinbase then 0 else RefillingRun(w.readings, cfg.levels))
  }

  // ---- every event keeps that ----

  lemma HarvestAppended(log: seq<Attempt>, a: Attempt)
    ensures LastHarvest(log + [a]) == (if a.harvest && a.result != Refused then Some(a.at) else LastHarvest(log))
    ensures (log + [a])[..|log|] == log
  {
    assert (log + [a])[..|log|] == log;
  }

  lemma HarvestRecorded(log: seq<Attempt>, result: Result)
    requires log != [] && log[|log| - 1].result.Pending?
    ensures LastHarvest(Recorded(log, result))
         == if result == Refused then LastHarvest(log[..|log| - 1]) else LastHarvest(log)
  {
    assert Recorded(log, result)[..|log| - 1] == log[..|log| - 1];
  }

  lemma AnswerAppended(answers: seq<Answer>, a: Answer)
    ensures LastSweep(answers + [a]) == if a.result != Refused then Some(a) else LastSweep(answers)
    ensures LastReport(answers + [a])
         == if a.result == Moved || a.result == Fruitless then a.left else LastReport(answers)
    ensures UncountedRun(answers + [a])
         == if a.result != Moved then UncountedRun(answers)
            else if a.left.None? then UncountedRun(answers) + 1 else 0
  {
    assert (answers + [a])[..|answers|] == answers;
  }

  /** What a tick leaves alone and what it does to the two flags told here. */
  lemma TickShape(w: World, e: Event, cfg: ReserveConfig)
    requires e.Tick?
    ensures var w' := AfterTick(w, e, cfg);
            && w'.answers == w.answers && w'.readings == w.readings + [e.balance]
            && w'.loop.movedWithoutCount == w.loop.movedWithoutCount
            && w'.loop.refilling == Reread(w.loop.refilling, e.balance, cfg.levels)
            && w'.loop.forbiddenTicks
               == (if w'.loop.refilling == Some(true) && !cfg.shieldCoinbase then w.loop.forbiddenTicks + 1 else 0)
            && (StartsAt(w, e, cfg) ==>
                  && w'.log == w.log + [NewAttempt(Observed(w.loop, e.balance, cfg), e.now, cfg)]
                  && w'.loop.harvesting == NewAttempt(Observed(w.loop, e.balance, cfg), e.now, cfg).harvest)
            && (!StartsAt(w, e, cfg) && w.loop.stepInFlight ==> w'.loop.harvesting == w.loop.harvesting)
  {
    hide ShouldAttempt, Reread, ShouldHarvest, FastPath;
  }

  lemma TickTells(w: World, e: Event, cfg: ReserveConfig)
    requires Tells(w, cfg) && Basics(w, cfg) && e.Tick?
    ensures Tells(AfterTick(w, e, cfg), cfg)
  {
    var w' := AfterTick(w, e, cfg);
    TickKeepsBasics(w, e, cfg);
    TickShape(w, e, cfg);
    TickLeavesAnswersAlone(w, e, cfg);
    assert (w.readings + [e.balance])[..|w.readings|] == w.readings;
    if StartsAt(w, e, cfg) {
      TickStarts(w, e, cfg);
      HarvestAppended(w.log, NewAttempt(Observed(w.loop, e.balance, cfg), e.now, cfg));
    }
    hide AfterTick, StartsAt, NewAttempt, LastHarvest, LastSweep, LastReport, UncountedRun;
  }

  lemma EventTells(w: World, e: Event, cfg: ReserveConfig)
    requires Tells(w, cfg) && Basics(w, cfg) && Enabled(w, e)
    ensures Tells(Do(w, e, cfg), cfg)
  {
    if e.Tick? {
      TickTells(w, e, cfg);
    } else if e.Return? {
      HarvestRecorded(w.log, ResultOf(e.outcome));
      AnswerAppended(w.answers, Answer(ResultOf(e.outcome), e.outcome.remaining));
    } else if e.Throw? {
      HarvestRecorded(w.log, Thrown);
      AnswerAppended(w.answers, Answer(Thrown, None));
    }
    hide AfterTick, LastHarvest, LastSweep, LastReport, UncountedRun, RefillingRun, RefillingAfter;
  }

  lemma {:induction false} RunTells(w: World, es: seq<Event>, cfg: ReserveConfig)
    requires Tells(w, cfg) && Basics(w, cfg) && IsRun(w, es, cfg)
    ensures Tells(After(w, es, cfg), cfg)
  {
    if es != [] {
      var init := es[..|es| - 1];
      RunTells(w, init, cfg);
      RunKeepsBasics(w, init, cfg);
      hide Basics, Tells, Do;
      EventTells(After(w, init, cfg), es[|es| - 1], cfg);
    }
  }

  /** Every field the loop decides by is told by its history. */
  lemma LoopIsHistory(w: World, cfg: ReserveConfig)
    requires Reachable(w, cfg)
    ensures Basics(w, cfg) && Tells(w, cfg)
    ensures w.loop.failedSteps == RunLength(w.log, Thrown, {Moved, Fruitless, Refused})
  {
    ReachableBasics(w, cfg);
    StatusIsHistory(w, cfg);
    var pile, es :| IsRun(Start(pile), es, cfg) && After(Start(pile), es, cfg) == w;
    hide Basics, Tells;
    assert Basics(Start(pile), cfg) && Tells(Start(pile), cfg) by { FreshTells(pile, cfg); }
    RunTells(Start(pile), es, cfg);
  }

  lemma FreshTells(pile: nat, cfg: ReserveConfig)
    ensures Basics(Start(pile), cfg) && Tells(Start(pile), cfg)
  {
  }

  // ---- which tick starts a step ----

  /** The readings say to refill: one was readable, and the last outside the band was not at or above
      the target. */
  predicate ToRefill(readings: seq<Option<int>>, levels: Levels) {
    && (exists i :: 0 <= i < |readings| && readings[i].Some?)
    && (LastOutOfBand(readings, levels).Some? ==> LastOutOfBand(readings, levels).value < levels.target)
  }

  /** A harvest is due: none was made that was not refused, the last is an interval old, or the last
      sweep moved funds and left enough. */
  predicate ToHarvest(w: World, balance: Option<int>, now: int, cfg: ReserveConfig) {
    && balance.Some? && cfg.intervalMs > 0
    && (|| LastHarvest(w.log) == None
        || now - LastHarvest(w.log).value >= cfg.intervalMs
        || Backlog(w, cfg))
  }

  predicate Backlog(w: World, cfg: ReserveConfig) {
    var last := LastSweep(w.answers);
    last.Some? && last.value.result == Moved && last.value.left.Some? && last.value.left.value >= cfg.minUTXOs
  }

  /** This tick wants a step and may have one. */
  predicate Wanted(w: World, e: Event, cfg: ReserveConfig)
    requires e.Tick?
  {
    && (ToRefill(w.readings + [e.balance], cfg.levels) || ToHarvest(w, e.balance, e.now, cfg))
    && cfg.shieldCoinbase && !InFlight(w) && e.traffic == 0 && w.steps == 0
  }

  /** Ticks an attempt waits for after so many throws in a row: none, none, 2, 4, 8, 16 and 20 from
      then on, itself included. */
  predicate WaitedOut(w: World) {
    w.loop.ticksSinceAttempt + 1 >= Price(RunLength(w.log, Thrown, {Moved, Fruitless, Refused}))
  }

  lemma {:induction false} ReadableIsDecided(readings: seq<Option<int>>, levels: Levels)
    requires levels.low < levels.target
    ensures RefillingAfter(readings, levels) == Some(true) <==> ToRefill(readings, levels)
  {
    RefillingIsHistory(readings, levels);
    if NeverReadable(readings) {
      NothingReadNothingOut(readings, levels);
    }
  }

  lemma {:induction false} MovedLastReports(answers: seq<Answer>)
    requires LastSweep(answers).Some? && LastSweep(answers).value.result == Moved
    ensures LastReport(answers) == LastSweep(answers).value.left
  {
    if answers[|answers| - 1].result == Refused {
      MovedLastReports(answers[..|answers| - 1]);
    }
  }

  lemma {:induction false} NoSweepNoReport(answers: seq<Answer>)
    requires LastSweep(answers).None?
    ensures LastReport(answers).None?
  {
    if answers != [] {
      NoSweepNoReport(answers[..|answers| - 1]);
    }
  }

  lemma FastPathIsBacklog(w: World, cfg: ReserveConfig)
    requires Tells(w, cfg)
    ensures FastPath(w.loop, cfg) <==> Backlog(w, cfg)
  {
    if LastSweep(w.answers).None? {
      NoSweepNoReport(w.answers);
    } else if LastSweep(w.answers).value.result == Moved {
      MovedLastReports(w.answers);
    }
    hide LastSweep, LastReport;
  }

  lemma HarvestDueIsTold(w: World, e: Event, cfg: ReserveConfig)
    requires Tells(w, cfg) && e.Tick?
    ensures HarvestDue(Observed(w.loop, e.balance, cfg), e.now, cfg) <==> ToHarvest(w, e.balance, e.now, cfg)
    ensures FastPath(Observed(w.loop, e.balance, cfg), cfg) <==> Backlog(w, cfg)
  {
    FastPathIsBacklog(w, cfg);
    hide Backlog, LastHarvest, LastSweep, LastReport, Reread, Draining;
  }

  lemma EligibleIsWanted(w: World, e: Event, cfg: ReserveConfig)
    requires Tells(w, cfg) && Basics(w, cfg) && e.Tick? && cfg.levels.low < cfg.levels.target
    ensures EligibleAt(w, e, cfg) <==> Wanted(w, e, cfg)
  {
    HarvestDueIsTold(w, e, cfg);
    ReadableIsDecided(w.readings + [e.balance], cfg.levels);
    assert (w.readings + [e.balance])[..|w.readings|] == w.readings;
    hide HarvestDue, ToHarvest, ToRefill, Reread;
  }

  lemma WaitIsBackoff(failures: nat, ticks: nat)
    ensures ShouldAttempt(failures, ticks + 1) <==> ticks + 1 >= Price(failures)
  {
    BackoffIsThePrice(failures);
  }

  /** Which tick starts a step, at any moment of any run: one that wants it, with permission, nothing
      in flight and nothing else on the queue, that has waited out the throws before it. It harvests
      when there is nothing to refill, and fast when the last sweep left a backlog. A wanted tick
      that has to wait counts, and no other does. */
  lemma TickDecides(w: World, e: Event, cfg: ReserveConfig)
    requires Reachable(w, cfg) && e.Tick? && cfg.levels.low < cfg.levels.target
    ensures var w' := Do(w, e, cfg);
            if Wanted(w, e, cfg) && WaitedOut(w) then
              && |w'.log| == |w.log| + 1 && w'.log[..|w.log|] == w.log
              && w'.log[|w.log|].at == e.now && w'.log[|w.log|].result == Pending
              && w'.log[|w.log|].harvest == !ToRefill(w.readings + [e.balance], cfg.levels)
              && w'.log[|w.log|].fast == (w'.log[|w.log|].harvest && Backlog(w, cfg))
              && w'.steps == 1 && w'.loop.stepInFlight && w'.loop.ticksSinceAttempt == 0
            else
              && w'.log == w.log && w'.steps == w.steps && w'.loop.stepInFlight == w.loop.stepInFlight
              && w'.loop.ticksSinceAttempt == w.loop.ticksSinceAttempt + if Wanted(w, e, cfg) then 1 else 0
  {
    LoopIsHistory(w, cfg);
    EligibleIsWanted(w, e, cfg);
    HarvestDueIsTold(w, e, cfg);
    WaitIsBackoff(w.loop.failedSteps, w.loop.ticksSinceAttempt);
    TickCounts(w, e, cfg);
    TickLeavesAnswersAlone(w, e, cfg);
    if StartsAt(w, e, cfg) {
      StartedAs(w, e, cfg);
    }
    hide AfterTick, StartsAt, EligibleAt, Basics, Tells, Wanted, ToRefill, ToHarvest, Backlog, RunLength, Price;
  }

  lemma StartedAs(w: World, e: Event, cfg: ReserveConfig)
    requires Basics(w, cfg) && Tells(w, cfg) && e.Tick? && StartsAt(w, e, cfg) && cfg.levels.low < cfg.levels.target
    ensures var w' := AfterTick(w, e, cfg);
            && |w'.log| == |w.log| + 1 && w'.log[..|w.log|] == w.log && w'.steps == 1 && w'.loop.stepInFlight
            && w'.log[|w.log|].at == e.now && w'.log[|w.log|].result == Pending
            && w'.log[|w.log|].harvest == !ToRefill(w.readings + [e.balance], cfg.levels)
            && w'.log[|w.log|].fast == (w'.log[|w.log|].harvest && Backlog(w, cfg))
  {
    TickStarts(w, e, cfg);
    HarvestDueIsTold(w, e, cfg);
    EligibleIsWanted(w, e, cfg);
    ReadableIsDecided(w.readings + [e.balance], cfg.levels);
    assert (w.readings + [e.balance])[..|w.readings|] == w.readings;
    hide HarvestDue, ToHarvest, ToRefill, Backlog, Reread, FastPath, ShouldAttempt, LastHarvest;
  }
}
