/** The rules of the reserve loop: when to refill, when to harvest, how long to back off. */
module RefillRules {
  import opened Wrappers
  import opened JsNumber

  datatype Levels = Levels(low: int, target: int)

  datatype ReserveConfig = ReserveConfig(levels: Levels, shieldCoinbase: bool, minUTXOs: nat, intervalMs: int)

  function DecideRefilling(refilling: bool, spendable: Option<int>, levels: Levels): bool {
    match spendable
    case None => refilling
    case Some(s) => if s < levels.low then true else if s >= levels.target then false else refilling
  }

  function InitialRefilling(spendable: Option<int>, levels: Levels): Option<bool> {
    match spendable
    case None => None
    case Some(s) => Some(s < levels.target)
  }

  /** One reading: undecided until a balance is readable, hysteresis ever after. */
  function Reread(refilling: Option<bool>, spendable: Option<int>, levels: Levels): Option<bool> {
    match refilling
    case None => InitialRefilling(spendable, levels)
    case Some(r) => Some(DecideRefilling(r, spendable, levels))
  }

  predicate ShouldStartStep(refilling: bool, harvesting: bool, canAct: bool, stepInFlight: bool, queueDepth: nat) {
    (refilling || harvesting) && canAct && !stepInFlight && queueDepth == 0
  }

  /** The last sweep moved funds and reported enough still there. */
  predicate Draining(lastSweepMoved: bool, remaining: Option<int>, minUTXOs: nat) {
    lastSweepMoved && remaining.Some? && remaining.value >= minUTXOs
  }

  predicate ShouldHarvest(spendableKnown: bool, draining: bool, sinceLast: Option<int>, intervalMs: int) {
    && intervalMs > 0
    && spendableKnown
    && (draining || sinceLast.None? || sinceLast.value >= intervalMs)
  }

  const MAX_BACKOFF_TICKS := 20

  function BackoffTicks(failures: nat): nat {
    if failures == 0 then 0
    else if Pow2(failures - 1) <= MAX_BACKOFF_TICKS then Pow2(failures - 1) else MAX_BACKOFF_TICKS
  }

  predicate ShouldAttempt(failures: nat, ticksSinceAttempt: nat) {
    ticksSinceAttempt >= BackoffTicks(failures)
  }

  // ---- hysteresis as a function of the readings ----

  function RefillingAfter(readings: seq<Option<int>>, levels: Levels): Option<bool> {
    if readings == [] then None
    else Reread(RefillingAfter(readings[..|readings| - 1], levels), readings[|readings| - 1], levels)
  }

  predicate OutOfBand(reading: Option<int>, levels: Levels) {
    reading.Some? && (reading.value < levels.low || reading.value >= levels.target)
  }

  /** The last reading outside the band, if there was one. */
  function LastOutOfBand(readings: seq<Option<int>>, levels: Levels): (last: Option<int>)
    ensures last.Some? ==> OutOfBand(last, levels)
  {
    if readings == [] then None
    else if OutOfBand(readings[|readings| - 1], levels) then readings[|readings| - 1]
    else LastOutOfBand(readings[..|readings| - 1], levels)
  }

  predicate NeverReadable(readings: seq<Option<int>>) {
    forall i :: 0 <= i < |readings| ==> readings[i] == None
  }

  /** Undecided exactly when nothing was ever readable; not refilling exactly when the last
      reading outside the band was at or above the target; refilling otherwise. */
  lemma {:induction false} RefillingIsHistory(readings: seq<Option<int>>, levels: Levels)
    requires levels.low < levels.target
    ensures RefillingAfter(readings, levels) == None <==> NeverReadable(readings)
    ensures RefillingAfter(readings, levels) == Some(false) <==>
              var last := LastOutOfBand(readings, levels);
              last.Some? && last.value >= levels.target
  {
    if readings != [] {
      var init, r := readings[..|readings| - 1], readings[|readings| - 1];
      RefillingIsHistory(init, levels);
      assert NeverReadable(readings) <==> NeverReadable(init) && r == None;
      if RefillingAfter(init, levels) == None {
        NothingReadNothingOut(init, levels);
      }
    }
  }

  lemma {:induction false} NothingReadNothingOut(readings: seq<Option<int>>, levels: Levels)
    requires NeverReadable(readings)
    ensures LastOutOfBand(readings, levels) == None
  {
    if readings != [] {
      NothingReadNothingOut(readings[..|readings| - 1], levels);
    }
  }

  /** The reading at index `i` turned a decided state over, to `to`. */
  predicate FlipsTo(readings: seq<Option<int>>, levels: Levels, i: nat, to: bool)
    requires i < |readings|
  {
    RefillingAfter(readings[..i], levels) == Some(!to) && RefillingAfter(readings[..i + 1], levels) == Some(to)
  }

  /** Two opposite flips have a crossing of the whole band between them. */
  lemma OppositeFlipsCrossTheBand(readings: seq<Option<int>>, levels: Levels, i: nat, j: nat, to: bool)
    requires i < |readings| && j < |readings|
    requires FlipsTo(readings, levels, i, to) && FlipsTo(readings, levels, j, !to)
    ensures readings[i].Some? && readings[j].Some?
    ensures var (up, down) := if to then (j, i) else (i, j);
            readings[down].value < levels.low && readings[up].value >= levels.target
  {
    assert readings[..i + 1][..i] == readings[..i];
    assert readings[..j + 1][..j] == readings[..j];
  }

  // ---- the price of an attempt ----

  /** Eligible ticks an attempt costs after so many failures. */
  function Price(failures: nat): nat {
    if failures <= 1 then 1
    else if failures == 2 then 2
    else if failures == 3 then 4
    else if failures == 4 then 8
    else if failures == 5 then 16
    else 20
  }

  /** Ticks saved against the cap by the attempts still to come before it is reached. */
  function Savings(failures: nat): nat {
    if failures == 0 then 88
    else if failures == 1 then 69
    else if failures == 2 then 50
    else if failures == 3 then 32
    else if failures == 4 then 16
    else if failures == 5 then 4
    else 0
  }

  lemma BackoffIsThePrice(failures: nat)
    ensures BackoffTicks(failures) <= Price(failures) <= MAX_BACKOFF_TICKS
    ensures Price(failures) > 1 ==> BackoffTicks(failures) == Price(failures)
    ensures Savings(failures) == Savings(failures + 1) + MAX_BACKOFF_TICKS - Price(failures)
  {
    if failures >= 6 {
      Pow2Monotone(5, failures - 1);
    }
  }
}
