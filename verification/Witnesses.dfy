/** Runs of the claim protocol that show where its promises end. */
module Witnesses {
  import opened Wrappers
  import opened Claims
  import opened ClaimProtocol
  import opened Diagnosis
  import Q = SendQueue

  function Last(run: seq<State>): State
    requires |run| > 0
  {
    run[|run| - 1]
  }

  lemma RunStarts(p: Policy) returns (run: seq<State>)
    ensures IsRun(p, run) && Last(run) == Initial(p)
  {
    run := [Initial(p)];
  }

  lemma RunGrows(p: Policy, run: seq<State>, step: Step) returns (longer: seq<State>)
    requires IsRun(p, run) && Enabled(p, Last(run), step)
    ensures IsRun(p, longer) && Last(longer) == Do(p, Last(run), step)
  {
    longer := run + [Do(p, Last(run), step)];
    forall k | 0 <= k < |longer| - 1 ensures Steps(p, longer[k], longer[k + 1]) {
      if k < |run| - 1 {
        assert Steps(p, run[k], run[k + 1]);
      }
    }
  }

  /** Every claim is of `drip` zatoshi. */
  predicate Drips(s: State, drip: nat) {
    forall c <- s.history :: c.amountZat == drip
  }

  // ---- a crowd of addresses behind one connection ----

  /** A different address for every number. */
  function Name(i: nat): string {
    seq(i, _ => 'a')
  }

  /** Claim 0 is made at time 0 and the others at `later`, each from an address of its own. */
  datatype Crowd = Crowd(connection: string, drip: nat, network: Network, later: nat)
  {
    function Asks(i: nat, now: int): Request {
      Request(Name(i), connection, "", drip, now, network)
    }

    function TimeOf(i: nat): nat { if i == 0 then 0 else later }

    function Table(n: nat): seq<Claim> {
      seq(n, i requires 0 <= i < n => NewRow(i, Asks(i, TimeOf(i))))
    }
  }

  lemma TableGrows(crowd: Crowd, n: nat)
    ensures crowd.Table(n + 1) == crowd.Table(n) + [NewRow(n, crowd.Asks(n, crowd.TimeOf(n)))]
  {
  }

  /** The claims made so far are all there is; none has joined a queue. */
  predicate Gathered(p: Policy, s: State, rows: seq<Claim>) {
    && s.table == rows && s.history == rows
    && s.taz == Q.Empty(p.sendQueueMaxPending) && s.ctaz == Q.Empty(p.sendQueueMaxPending)
    && s.handlers == seq(|rows|, _ => Holding)
  }

  lemma OneMore(p: Policy, run: seq<State>, rows: seq<Claim>, r: Request) returns (longer: seq<State>)
    requires IsRun(p, run) && Gathered(p, Last(run), rows)
    requires r.now == Last(run).NowSeconds() && Accepts(rows, r, p)
    ensures IsRun(p, longer) && Gathered(p, Last(longer), rows + [NewRow(|rows|, r)])
    ensures Last(longer).nowMs == Last(run).nowMs
  {
    hide IsRun, Accepts;
    longer := RunGrows(p, run, Reserve(r));
  }

  lemma TimePassesOver(p: Policy, run: seq<State>, rows: seq<Claim>, untilMs: nat) returns (longer: seq<State>)
    requires IsRun(p, run) && Gathered(p, Last(run), rows) && Last(run).nowMs <= untilMs
    ensures IsRun(p, longer) && Gathered(p, Last(longer), rows) && Last(longer).nowMs == untilMs
  {
    assert Enabled(p, Last(run), Wait(untilMs));
    hide IsRun;
    longer := RunGrows(p, run, Wait(untilMs));
  }

  lemma {:induction false} AtMostAll(rows: seq<Claim>, f: Filter, m: Measure, w: nat)
    requires forall c <- rows :: Weight(c, m) == w
    ensures Total(rows, f, m) <= |rows| * w
    ensures (forall c <- rows :: Counted(c, f)) ==> Total(rows, f, m) == |rows| * w
  {
    if rows != [] {
      var n := |rows| - 1;
      AtMostAll(rows[..n], f, m, w);
      assert rows[n] in rows;
      assert (n + 1) * w == n * w + w;
    }
  }

  lemma {:induction false} AllButTheFirst(rows: seq<Claim>, f: Filter)
    requires rows != [] && !Counted(rows[0], f)
    requires forall i :: 0 < i < |rows| ==> Counted(rows[i], f)
    ensures Total(rows, f, Rows) == |rows| - 1
  {
    if |rows| == 1 {
      assert rows == [rows[0]];
      OneRow(rows[0], f, Rows);
    } else {
      AllButTheFirst(rows[..|rows| - 1], f);
    }
  }

  /** A newcomer is accepted when the connection, if it is known, and the cap have room. */
  lemma NewcomerIsAccepted(p: Policy, crowd: Crowd, n: nat, now: int)
    requires n * crowd.drip + crowd.drip <= p.DailyCap(crowd.network)
    requires crowd.connection != "" ==>
               Total(crowd.Table(n), Clause(ByIp(crowd.connection, crowd.network), CooldownCuts(now, p)), Rows)
               < p.ipDailyMax
    ensures Accepts(crowd.Table(n), crowd.Asks(n, now), p)
  {
    var rows := crowd.Table(n);
    assert forall i :: 0 <= i < n ==> |rows[i].addressHash| == i;
    AtMostAll(rows, Clause(ByNetwork(crowd.network), DayCuts(now, p)), Zatoshi, crowd.drip);
    hide Total;
  }

  lemma FewFit(i: nat, n: nat, drip: nat)
    requires i < n
    ensures i * drip + drip <= n * drip
  {
    if i + 1 < n {
      FewFit(i, n - 1, drip);
    }
    assert n * drip == (n - 1) * drip + drip;
  }

  /** The first `n` claims of a crowd, all of them made at once but the very first. */
  lemma {:induction false} CrowdGathers(p: Policy, crowd: Crowd, n: nat) returns (run: seq<State>)
    requires n * crowd.drip <= p.DailyCap(crowd.network) && (crowd.connection != "" ==> n <= p.ipDailyMax)
    ensures IsRun(p, run) && Gathered(p, Last(run), crowd.Table(n))
    ensures Last(run).nowMs == if n == 0 then 0 else 1000 * crowd.TimeOf(n - 1)
  {
    if n == 0 {
      run := RunStarts(p);
    } else {
      var now := crowd.TimeOf(n - 1);
      FewFit(n - 1, n, crowd.drip);
      var shorter := CrowdGathers(p, crowd, n - 1);
      AtMostAll(crowd.Table(n - 1), Clause(ByIp(crowd.connection, crowd.network), CooldownCuts(now, p)), Rows, 1);
      NewcomerIsAccepted(p, crowd, n - 1, now);
      TableGrows(crowd, n - 1);
      hide IsRun, Accepts, Total, Gathered;
      var waited := TimePassesOver(p, shorter, crowd.Table(n - 1), 1000 * now);
      run := OneMore(p, waited, crowd.Table(n - 1), crowd.Asks(n - 1, now));
    }
  }

  // ---- refusals that report too early a time ----

  /** Nobody in the crowd has the address of a newcomer. */
  lemma NewcomerIsNew(rows: seq<Claim>, n: nat, cuts: Cuts, network: Network)
    requires forall c <- rows :: |c.addressHash| != n
    ensures LatestCounted(rows, Clause(ByAddress(Name(n), network), cuts)).None?
  {
    LatestCountedSpec(rows, Clause(ByAddress(Name(n), network), cuts));
  }

  lemma CapExpiry(p: Policy, crowd: Crowd, n: nat)
    requires crowd.later == 0 && n > 0
    ensures EarliestExpiry(crowd.Table(n), Clause(ByNetwork(crowd.network), DayCuts(0, p)), DAY, p.leaseSeconds)
            == Some(p.leaseSeconds)
  {
    var rows := crowd.Table(n);
    EarliestExpirySpec(rows, Clause(ByNetwork(crowd.network), DayCuts(0, p)), DAY, p.leaseSeconds);
    assert rows[0] in rows;
    hide EarliestExpiry;
  }

  /** A full cap: as many drips as fit were reserved at time 0. */
  lemma FullCap(p: Policy, crowd: Crowd, n: nat)
    requires crowd.connection == "" && crowd.later == 0 && n > 0 && p.leaseSeconds >= 1
    requires n * crowd.drip + crowd.drip > p.DailyCap(crowd.network)
    ensures var rows, r := crowd.Table(n), crowd.Asks(n, 0);
            && WhyBlocked(rows, r, p) == CapReached(Some(p.leaseSeconds))
            && CapBlocks(rows, r, p) && CapBlocks(rows, r.(now := p.leaseSeconds), p)
  {
    var rows := crowd.Table(n);
    NewcomerIsNew(rows, n, CooldownCuts(0, p), crowd.network);
    CapExpiry(p, crowd, n);
    AtMostAll(rows, Clause(ByNetwork(crowd.network), DayCuts(0, p)), Zatoshi, crowd.drip);
    AtMostAll(rows, Clause(ByNetwork(crowd.network), DayCuts(p.leaseSeconds, p)), Zatoshi, crowd.drip);
    hide Total, LatestCounted, EarliestExpiry;
  }

  /** Under any policy whose cap has room for a drip: the cap fills up, and a request that reads the
      clock of the moment is told a time at which the cap still blocks. */
  lemma CapRefusalIsEarly(p: Policy, drip: nat, network: Network) returns (run: seq<State>, r: Request)
    requires 1 <= drip <= p.DailyCap(network) && p.leaseSeconds >= 1
    ensures IsRun(p, run) && Current(Last(run), r) && Drips(Last(run), drip) && r.amountZat == drip
    ensures WhyBlocked(Last(run).table, r, p) == CapReached(Some(p.leaseSeconds))
    ensures CapBlocks(Last(run).table, r, p) && CapBlocks(Last(run).table, r.(now := r.now + p.leaseSeconds), p)
  {
    var crowd := Crowd("", drip, network, 0);
    var n := p.DailyCap(network) / drip;
    assert n * drip <= p.DailyCap(network) < n * drip + drip;
    FullCap(p, crowd, n);
    run := CrowdGathers(p, crowd, n);
    r := crowd.Asks(n, 0);
    hide WhyBlocked, CapBlocks, IsRun;
  }

  /** The rows of a full connection, one more since claim 0 expired, as a reading one second older
      than that one sees them. */
  lemma FullConnection(p: Policy, crowd: Crowd, rows: seq<Claim>)
    requires crowd.connection != "" && crowd.later == 1 && p.ipDailyMax >= 1 && p.leaseSeconds >= 2
    requires rows == crowd.Table(p.ipDailyMax) + [NewRow(p.ipDailyMax, crowd.Asks(p.ipDailyMax, p.leaseSeconds))]
    ensures var r := crowd.Asks(p.ipDailyMax + 1, p.leaseSeconds - 1);
            WhyBlocked(rows, r, p) == ConnectionFull(1) && IpBlocks(rows, r.(now := p.leaseSeconds), p)
  {
    var n, lease := p.ipDailyMax, p.leaseSeconds;
    var scope := ByIp(crowd.connection, crowd.network);
    NewcomerIsNew(rows, n + 1, CooldownCuts(lease - 1, p), crowd.network);
    EarliestExpirySpec(rows, Clause(scope, CooldownCuts(lease - 1, p)), p.cooldownSeconds, lease);
    assert rows[0] in rows;
    AtMostAll(rows, Clause(scope, CooldownCuts(lease - 1, p)), Rows, 1);
    AllButTheFirst(rows, Clause(scope, CooldownCuts(lease, p)));
    hide Total, LatestCounted, EarliestExpiry;
  }

  /** A connection claims all it may, and once more when its first claim has expired. */
  lemma ConnectionFills(p: Policy, crowd: Crowd) returns (run: seq<State>)
    requires crowd.connection != "" && crowd.later == 1 && p.ipDailyMax >= 1 && p.leaseSeconds >= 2
    requires p.ipDailyMax * crowd.drip + crowd.drip <= p.DailyCap(crowd.network)
    ensures IsRun(p, run) && Last(run).nowMs == 1000 * p.leaseSeconds
    ensures Gathered(p, Last(run), crowd.Table(p.ipDailyMax)
                                   + [NewRow(p.ipDailyMax, crowd.Asks(p.ipDailyMax, p.leaseSeconds))])
  {
    var n := p.ipDailyMax;
    var filled := CrowdGathers(p, crowd, n);
    AllButTheFirst(crowd.Table(n), Clause(ByIp(crowd.connection, crowd.network), CooldownCuts(p.leaseSeconds, p)));
    NewcomerIsAccepted(p, crowd, n, p.leaseSeconds);
    hide IsRun, Accepts, Total, Gathered;
    var waited := TimePassesOver(p, filled, crowd.Table(n), 1000 * p.leaseSeconds);
    run := OneMore(p, waited, crowd.Table(n), crowd.Asks(n, p.leaseSeconds));
  }

  /** Under any policy that lets a connection claim: a request that waited for one second is told a
      time at which its connection is still blocked, because it read the clock before the latest
      claim of the connection was made. */
  lemma StaleConnectionIsToldEarly(p: Policy, drip: nat, network: Network) returns (run: seq<State>, r: Request)
    requires p.ipDailyMax >= 1 && p.leaseSeconds >= 2
    requires p.ipDailyMax * drip + drip <= p.DailyCap(network)
    ensures IsRun(p, run) && Drips(Last(run), drip) && r.amountZat == drip
    ensures Enabled(p, Last(run), Reserve(r)) && r.now == Last(run).NowSeconds() - 1
    ensures WhyBlocked(Last(run).table, r, p) == ConnectionFull(1)
    ensures IpBlocks(Last(run).table, r.(now := r.now + 1), p)
  {
    var crowd, n := Crowd("x", drip, network, 1), p.ipDailyMax;
    run := ConnectionFills(p, crowd);
    r := crowd.Asks(n + 1, p.leaseSeconds - 1);
    FullConnection(p, crowd, Last(run).table);
    hide WhyBlocked, IpBlocks, IsRun;
  }

  // ---- claims that fail ----

  /** One claim, and a queue of its network with `j` tasks of other work in front of it. */
  predicate OneWaits(p: Policy, s: State, r: Request, j: nat) {
    && s.table == [NewRow(0, r)] && s.history == [NewRow(0, r)] && s.handlers == [Holding] && s.paid == {}
    && s.nowMs == 0 && r.now == 0
    && s.QueueOf(r.network).pending == j && s.QueueOf(r.network).maxPending == p.sendQueueMaxPending
    && (j == 0 ==> s.QueueOf(r.network).tasks == [] && s.QueueOf(r.network).tail == None)
  }

  lemma {:induction false} WorkArrives(p: Policy, r: Request, j: nat) returns (run: seq<State>)
    requires r.now == 0 && Accepts([], r, p) && j <= p.sendQueueMaxPending
    ensures IsRun(p, run) && OneWaits(p, Last(run), r, j)
  {
    hide IsRun, Accepts;
    if j == 0 {
      run := RunStarts(p);
      run := RunGrows(p, run, Reserve(r));
    } else {
      var shorter := WorkArrives(p, r, j - 1);
      run := RunGrows(p, shorter, QueueStep(r.network, Q.Arrive(0)));
    }
  }

  /** The only claim there is has failed, in the second it was made. */
  predicate OneFailed(s: State, r: Request) {
    s.table == [NewRow(0, r).(status := Failed)] && s.history == s.table && s.NowSeconds() == r.now
  }

  lemma FailedRow(r: Request)
    ensures Finalized([NewRow(0, r)], 0, Failed, None) == [NewRow(0, r).(status := Failed)]
  {
    FinalizedAt([NewRow(0, r)], 0, Failed, None);
  }

  /** A send that fails: its handler finalises the claim as failed. */
  lemma SendFails(p: Policy, r: Request) returns (run: seq<State>)
    requires r.now == 0 && Accepts([], r, p) && p.sendQueueMaxPending >= 1
    ensures IsRun(p, run) && OneFailed(Last(run), r)
  {
    var n := r.network;
    run := WorkArrives(p, r, 0);
    FailedRow(r);
    hide IsRun, Accepts, Finalized;
    run := RunGrows(p, run, Join(0, 0));
    run := RunGrows(p, run, QueueStep(n, Q.BeginTask(0)));
    run := RunGrows(p, run, QueueStep(n, Q.FinishTask(0)));
    run := RunGrows(p, run, Finalise(0, Failed, None));
  }

  /** A full queue: its handler is turned away and finalises the claim as failed. */
  lemma QueueIsFull(p: Policy, r: Request) returns (run: seq<State>)
    requires r.now == 0 && Accepts([], r, p)
    ensures IsRun(p, run) && OneFailed(Last(run), r)
  {
    run := WorkArrives(p, r, p.sendQueueMaxPending);
    FailedRow(r);
    hide IsRun, Accepts, Finalized;
    run := RunGrows(p, run, Join(0, 0));
    run := RunGrows(p, run, Finalise(0, Failed, None));
  }

  lemma NothingHeld(p: Policy, s: State, r: Request)
    requires OneFailed(s, r) && Accepts([], r, p)
    ensures Accepts(s.table, r, p)
  {
    var x := NewRow(0, r).(status := Failed);
    OneRow(x, Clause(ByIp(r.ipHash, r.network), CooldownCuts(r.now, p)), Rows);
    OneRow(x, Clause(BySubnet(r.subnetHash), DayCuts(r.now, p)), Rows);
    OneRow(x, Clause(ByNetwork(r.network), DayCuts(r.now, p)), Zatoshi);
    hide Total;
  }

  /** A claim that fails holds nothing: whether its send failed or the queue was full, the same request
      is accepted again at once. */
  lemma FailedClaimsHoldNothing(p: Policy, r: Request) returns (failed: seq<State>, turnedAway: seq<State>)
    requires r.now == 0 && Accepts([], r, p) && p.sendQueueMaxPending >= 1
    ensures IsRun(p, failed) && OneFailed(Last(failed), r) && Accepts(Last(failed).table, r, p)
    ensures IsRun(p, turnedAway) && OneFailed(Last(turnedAway), r) && Accepts(Last(turnedAway).table, r, p)
  {
    failed := SendFails(p, r);
    turnedAway := QueueIsFull(p, r);
    hide Accepts;
    NothingHeld(p, Last(failed), r);
    NothingHeld(p, Last(turnedAway), r);
  }
}
