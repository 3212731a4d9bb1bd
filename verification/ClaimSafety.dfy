/** What no run of the claim protocol can break: the faucet does not pay an address twice
    inside its cooldown, and its limits hold over every window of time. */
module ClaimSafety {
  import opened Wrappers
  import opened Claims
  import opened ClaimProtocol

  /** When a row stops blocking its address. */
  function ExpiresAt(c: Claim, p: Policy): int {
    c.createdAt + (if c.status.Sent? then p.cooldownSeconds else p.Lease())
  }

  predicate SameAddress(a: Claim, b: Claim) {
    a.addressHash == b.addressHash && a.network == b.network
  }

  /** Rows of one address follow one another: each was created after the last had expired. */
  predicate Separated(p: Policy, history: seq<Claim>) {
    forall i, j :: 0 <= i < j < |history| && SameAddress(history[i], history[j])
                   && !history[i].status.Failed? && !history[j].status.Failed?
                   ==> ExpiresAt(history[i], p) <= history[j].createdAt
  }

  function RuleWindow(rule: Rule, lo: int): Window {
    Window(lo, lo + rule.span, rule.strict)
  }

  function MayBeSent(p: Policy, s: State, rule: Rule, lo: int): Filter {
    ViableIn(rule.scope, RuleWindow(rule, lo), s.nowMs, p.Lease())
  }

  /** Every window of a rule's length has room for everything in it that may end as sent. */
  ghost predicate WindowsHold(p: Policy, s: State) {
    forall rule, lo :: IsRule(rule, p) ==> Total(s.history, MayBeSent(p, s, rule, lo), rule.measure) <= rule.limit
  }

  /** No rule is over its limit as the reserve statement counts it now. */
  ghost predicate LimitsHold(p: Policy, s: State) {
    forall rule :: IsRule(rule, p) ==> Total(s.history, RuleClause(rule, s.NowSeconds(), p), rule.measure) <= rule.limit
  }

  ghost predicate Safe(p: Policy, s: State) {
    && BasicInv(p, s)
    && Separated(p, s.history)
    && WindowsHold(p, s)
    && LimitsHold(p, s)
  }

  // ---- the table answers for the history ----

  lemma {:induction false} TableAnswersForHistory(h: seq<Claim>, purged: set<nat>, f: Filter, g: Filter, m: Measure)
    requires forall i :: 0 <= i < |h| && Counted(h[i], f) ==> i !in purged && Counted(h[i], g)
    ensures Total(h, f, m) <= Total(Kept(h, purged), g, m)
  {
    if h != [] {
      var n := |h| - 1;
      var init := h[..n];
      assert forall i :: 0 <= i < n ==> init[i] == h[i];
      TableAnswersForHistory(init, purged, f, g, m);
      if n !in purged {
        TotalAppend(Kept(init, purged), h[n], g, m);
      } else {
        assert !Counted(h[n], f);
      }
    }
  }

  /** What may be sent in a window reaching up to a request is what the statement counts. */
  lemma WindowIsCounted(p: Policy, s: State, r: Request, rule: Rule, lo: int)
    requires BasicInv(p, s) && Enabled(p, s, Reserve(r)) && IsRule(rule, p)
    requires Within(r.now, RuleWindow(rule, lo))
    ensures Total(s.history, MayBeSent(p, s, rule, lo), rule.measure)
         <= Total(s.table, RuleClause(rule, r.now, p), rule.measure)
  {
    TableAnswersForHistory(s.history, s.purged, MayBeSent(p, s, rule, lo), RuleClause(rule, r.now, p), rule.measure);
  }

  lemma LimitIsCounted(p: Policy, s: State, r: Request, rule: Rule)
    requires BasicInv(p, s) && Enabled(p, s, Reserve(r)) && IsRule(rule, p)
    ensures Total(s.history, RuleClause(rule, s.NowSeconds(), p), rule.measure)
         <= Total(s.table, RuleClause(rule, r.now, p), rule.measure)
  {
    TableAnswersForHistory(s.history, s.purged, RuleClause(rule, s.NowSeconds(), p), RuleClause(rule, r.now, p),
                           rule.measure);
  }

  // ---- reserve ----

  lemma {:induction false} KeptHolds(h: seq<Claim>, purged: set<nat>, i: nat)
    requires i < |h| && i !in purged
    ensures h[i] in Kept(h, purged)
  {
    var n := |h| - 1;
    if i < n {
      KeptHolds(h[..n], purged, i);
    }
  }

  lemma ReserveKeepsSeparated(p: Policy, s: State, r: Request)
    requires BasicInv(p, s) && Separated(p, s.history) && Enabled(p, s, Reserve(r))
    ensures Separated(p, Do(p, s, Reserve(r)).history)
  {
    if Accepts(s.table, r, p) {
      var x := NewRow(|s.history|, r);
      forall i | 0 <= i < |s.history| && SameAddress(s.history[i], x) && !s.history[i].status.Failed?
        ensures ExpiresAt(s.history[i], p) <= x.createdAt
      {
        if i !in s.purged {
          KeptHolds(s.history, s.purged, i);
        }
      }
    }
  }

  lemma ReserveKeepsWindows(p: Policy, s: State, r: Request)
    requires BasicInv(p, s) && WindowsHold(p, s) && Enabled(p, s, Reserve(r))
    ensures WindowsHold(p, Do(p, s, Reserve(r)))
  {
    if Accepts(s.table, r, p) {
      var s' := Do(p, s, Reserve(r));
      var x := NewRow(|s.history|, r);
      AcceptsIsRoomUnderEveryRule(s.table, |s.history|, r, p);
      forall rule, lo | IsRule(rule, p)
        ensures Total(s'.history, MayBeSent(p, s', rule, lo), rule.measure) <= rule.limit
      {
        TotalAppend(s.history, x, MayBeSent(p, s, rule, lo), rule.measure);
        if InScope(x, rule.scope) && Within(x.createdAt, RuleWindow(rule, lo)) {
          WindowIsCounted(p, s, r, rule, lo);
          assert RoomFor(s.table, x, rule, p);
        }
      }
    }
  }

  lemma ReserveKeepsLimits(p: Policy, s: State, r: Request)
    requires BasicInv(p, s) && LimitsHold(p, s) && Enabled(p, s, Reserve(r))
    ensures LimitsHold(p, Do(p, s, Reserve(r)))
  {
    if Accepts(s.table, r, p) {
      var s' := Do(p, s, Reserve(r));
      var x := NewRow(|s.history|, r);
      AcceptsIsRoomUnderEveryRule(s.table, |s.history|, r, p);
      forall rule | IsRule(rule, p)
        ensures Total(s'.history, RuleClause(rule, s'.NowSeconds(), p), rule.measure) <= rule.limit
      {
        TotalAppend(s.history, x, RuleClause(rule, s.NowSeconds(), p), rule.measure);
        if InScope(x, rule.scope) {
          LimitIsCounted(p, s, r, rule);
          assert RoomFor(s.table, x, rule, p);
        }
      }
    }
  }

  // ---- finalise and wait ----

  /** Finalising never adds a row to what may be sent: the lease it had was still running. */
  predicate OnlyResolves(p: Policy, nowMs: int, a: seq<Claim>, b: seq<Claim>) {
    && |a| == |b|
    && forall i :: 0 <= i < |a| ==>
         && b[i] == a[i].(status := b[i].status, txid := b[i].txid)
         && (b[i].status != a[i].status && !b[i].status.Failed? ==>
               b[i].status.Sent? && a[i].status.Pending? && nowMs < 1000 * (a[i].createdAt + p.Lease()))
         && (a[i].status.Failed? ==> b[i].status.Failed?)
  }

  lemma FinaliseOnlyResolves(p: Policy, s: State, id: nat, status: Status, txid: Option<string>)
    requires p.LeaseCovers()
    requires BasicInv(p, s) && Enabled(p, s, Finalise(id, status, txid))
    ensures OnlyResolves(p, s.nowMs, s.history, Do(p, s, Finalise(id, status, txid)).history)
  {
    FinalizedAt(s.history, id, status, txid);
    if s.handlers[id].Joined? {
      FinaliseLandsInsideLease(p, s, id);
    }
  }

  lemma ResolvingKeepsSeparated(p: Policy, nowMs: int, a: seq<Claim>, b: seq<Claim>)
    requires OnlyResolves(p, nowMs, a, b) && Separated(p, a)
    requires forall i :: 0 <= i < |a| ==> 1000 * a[i].createdAt <= nowMs
    ensures Separated(p, b)
  {
    forall i, j | 0 <= i < j < |b| && SameAddress(b[i], b[j]) && !b[i].status.Failed? && !b[j].status.Failed?
      ensures ExpiresAt(b[i], p) <= b[j].createdAt
    {
      assert SameAddress(a[i], a[j]);
      assert ExpiresAt(a[i], p) <= a[j].createdAt;
    }
  }

  /** Time passing and rows resolving only ever shrink what a window or a clause counts. */
  lemma TimeAndResolutionKeep(p: Policy, s: State, s': State)
    requires WindowsHold(p, s) && LimitsHold(p, s)
    requires s.nowMs <= s'.nowMs && OnlyResolves(p, s.nowMs, s.history, s'.history)
    ensures WindowsHold(p, s') && LimitsHold(p, s')
  {
    forall rule, lo | IsRule(rule, p)
      ensures Total(s'.history, MayBeSent(p, s', rule, lo), rule.measure) <= rule.limit
    {
      TotalMonotone(s'.history, s.history, MayBeSent(p, s', rule, lo), MayBeSent(p, s, rule, lo), rule.measure);
    }
    forall rule | IsRule(rule, p)
      ensures Total(s'.history, RuleClause(rule, s'.NowSeconds(), p), rule.measure) <= rule.limit
    {
      TotalMonotone(s'.history, s.history, RuleClause(rule, s'.NowSeconds(), p),
                    RuleClause(rule, s.NowSeconds(), p), rule.measure);
    }
  }

  lemma ReserveKeepsSafe(p: Policy, s: State, r: Request)
    requires Safe(p, s) && Enabled(p, s, Reserve(r))
    ensures Safe(p, Do(p, s, Reserve(r)))
  {
    StepKeepsBasics(p, s, Reserve(r));
    ReserveKeepsSeparated(p, s, r);
    ReserveKeepsWindows(p, s, r);
    ReserveKeepsLimits(p, s, r);
  }

  lemma FinaliseKeepsSafe(p: Policy, s: State, id: nat, status: Status, txid: Option<string>)
    requires p.LeaseCovers() && Safe(p, s) && Enabled(p, s, Finalise(id, status, txid))
    ensures Safe(p, Do(p, s, Finalise(id, status, txid)))
  {
    StepKeepsBasics(p, s, Finalise(id, status, txid));
    FinaliseOnlyResolves(p, s, id, status, txid);
    NoRowFromTheFuture(s);
    ResolvingKeepsSeparated(p, s.nowMs, s.history, Do(p, s, Finalise(id, status, txid)).history);
    TimeAndResolutionKeep(p, s, Do(p, s, Finalise(id, status, txid)));
  }

  /** The other steps leave the history alone. */
  lemma QuietStepKeepsSafe(p: Policy, s: State, step: Step)
    requires Safe(p, s) && Enabled(p, s, step) && !step.Reserve? && !step.Finalise?
    ensures Safe(p, Do(p, s, step))
  {
    StepKeepsBasics(p, s, step);
    var s' := Do(p, s, step);
    assert s'.history == s.history && s.nowMs <= s'.nowMs;
    TimeAndResolutionKeep(p, s, s');
  }

  lemma StepKeepsSafe(p: Policy, s: State, step: Step)
    requires p.LeaseCovers() && Safe(p, s) && Enabled(p, s, step)
    ensures Safe(p, Do(p, s, step))
  {
    match step
    case Reserve(r) => ReserveKeepsSafe(p, s, r);
    case Finalise(id, status, txid) => FinaliseKeepsSafe(p, s, id, status, txid);
    case _ => QuietStepKeepsSafe(p, s, step);
  }

  lemma {:induction false} RunIsSafe(p: Policy, run: seq<State>, k: nat)
    requires p.LeaseCovers() && IsRun(p, run) && k < |run|
    ensures Safe(p, run[k])
  {
    if k > 0 {
      RunIsSafe(p, run, k - 1);
      assert Steps(p, run[k - 1], run[k]);
      var step :| Enabled(p, run[k - 1], step) && run[k] == Do(p, run[k - 1], step);
      StepKeepsSafe(p, run[k - 1], step);
    }
  }

  // ---- what a run guarantees ----

  /** Claim `id` has been, or may have been, paid for. */
  predicate Payable(s: State, id: nat) {
    id < |s.history| && (id in s.paid || s.history[id].status.Sent?)
  }

  /** A send that succeeded is on a row that ended as sent, or is about to with its lease alive. */
  lemma PaidRowsHold(p: Policy, s: State, id: nat)
    requires p.LeaseCovers() && BasicInv(p, s) && Payable(s, id)
    ensures Viable(s.history[id], s.nowMs, p.Lease())
  {
    assert HandlerOk(s, id);
    if s.history[id].status.Pending? {
      FinaliseLandsInsideLease(p, s, id);
    }
  }

  /** No double payment: in every interleaving of reserving, queueing, deadlines, sends,
      finalising and purging, two claims of one address on one network that were both paid,
      or both ended as sent, were created at least a cooldown apart. */
  lemma NoDoublePayment(p: Policy, run: seq<State>, k: nat, i: nat, j: nat)
    requires p.LeaseCovers() && IsRun(p, run) && k < |run|
    requires i < j && Payable(run[k], i) && Payable(run[k], j)
    requires run[k].history[i].addressHash == run[k].history[j].addressHash
    requires run[k].history[i].network == run[k].history[j].network
    ensures run[k].history[j].createdAt >= run[k].history[i].createdAt + p.cooldownSeconds
  {
    RunIsSafe(p, run, k);
    var s := run[k];
    PaidRowsHold(p, s, i);
    PaidRowsHold(p, s, j);
    assert ExpiresAt(s.history[i], p) <= s.history[j].createdAt;
    assert HandlerOk(s, j);
  }

  /** The limits bound every window and not only the instants of reservation: whatever moment
      of whatever run, and wherever a window of the rule's length is laid, the sent rows in it
      weigh at most the limit. The daily cap, the per-connection and the per-subnet limit are
      the instances of `IsRule`. */
  lemma SentWindowsAreCapped(p: Policy, run: seq<State>, k: nat, rule: Rule, lo: int)
    requires p.LeaseCovers() && IsRun(p, run) && k < |run| && IsRule(rule, p)
    ensures Total(run[k].history, SentIn(rule.scope, RuleWindow(rule, lo)), rule.measure) <= rule.limit
  {
    RunIsSafe(p, run, k);
    var s := run[k];
    TotalMonotone(s.history, s.history, SentIn(rule.scope, RuleWindow(rule, lo)), MayBeSent(p, s, rule, lo),
                  rule.measure);
  }

  lemma DailyCapHolds(p: Policy, run: seq<State>, k: nat, n: Network, lo: int)
    requires p.LeaseCovers() && IsRun(p, run) && k < |run|
    ensures Total(run[k].history, SentIn(ByNetwork(n), Window(lo, lo + DAY, false)), Zatoshi) <= p.DailyCap(n)
  {
    SentWindowsAreCapped(p, run, k, Rule(ByNetwork(n), DAY, false, Zatoshi, p.DailyCap(n)), lo);
  }

  lemma ConnectionLimitHolds(p: Policy, run: seq<State>, k: nat, ipHash: string, n: Network, lo: int)
    requires p.LeaseCovers() && IsRun(p, run) && k < |run| && ipHash != ""
    ensures Total(run[k].history, SentIn(ByIp(ipHash, n), Window(lo, lo + p.cooldownSeconds, true)), Rows)
            <= p.ipDailyMax
  {
    SentWindowsAreCapped(p, run, k, Rule(ByIp(ipHash, n), p.cooldownSeconds, true, Rows, p.ipDailyMax), lo);
  }

  lemma SubnetLimitHolds(p: Policy, run: seq<State>, k: nat, subnetHash: string, lo: int)
    requires p.LeaseCovers() && IsRun(p, run) && k < |run| && subnetHash != ""
    ensures Total(run[k].history, SentIn(BySubnet(subnetHash), Window(lo, lo + DAY, false)), Rows) <= p.subnetDailyMax
  {
    SentWindowsAreCapped(p, run, k, Rule(BySubnet(subnetHash), DAY, false, Rows, p.subnetDailyMax), lo);
  }

  /** The weight of the claims of a window that were paid, or that ended as sent. */
  function PaidTotal(s: State, n: nat, scope: Scope, w: Window, m: Measure): nat
    requires n <= |s.history|
  {
    if n == 0 then 0
    else
      var c := s.history[n - 1];
      PaidTotal(s, n - 1, scope, w, m)
      + if Payable(s, n - 1) && InScope(c, scope) && Within(c.createdAt, w) then Weight(c, m) else 0
  }

  lemma {:induction false} PaidAreViable(p: Policy, s: State, n: nat, rule: Rule, lo: int)
    requires p.LeaseCovers() && BasicInv(p, s) && n <= |s.history|
    ensures PaidTotal(s, n, rule.scope, RuleWindow(rule, lo), rule.measure)
            <= Total(s.history[..n], MayBeSent(p, s, rule, lo), rule.measure)
  {
    if n > 0 {
      PaidAreViable(p, s, n - 1, rule, lo);
      assert s.history[..n] == s.history[..n - 1] + [s.history[n - 1]];
      TotalAppend(s.history[..n - 1], s.history[n - 1], MayBeSent(p, s, rule, lo), rule.measure);
      if Payable(s, n - 1) {
        PaidRowsHold(p, s, n - 1);
      }
    }
  }

  /** The drain guard: the same limits bound everything that was paid, also while its row is still
      pending, over every window of every run. */
  lemma PaidWindowsAreCapped(p: Policy, run: seq<State>, k: nat, rule: Rule, lo: int)
    requires p.LeaseCovers() && IsRun(p, run) && k < |run| && IsRule(rule, p)
    ensures PaidTotal(run[k], |run[k].history|, rule.scope, RuleWindow(rule, lo), rule.measure) <= rule.limit
  {
    RunIsSafe(p, run, k);
    var s := run[k];
    PaidAreViable(p, s, |s.history|, rule, lo);
    assert s.history[..|s.history|] == s.history;
  }

  // ---- the limits in the columns of the table ----

  /** Paid for, or ended as sent. */
  function PaidFor(s: State, c: Claim): bool {
    c.id in s.paid || c.status == Sent
  }

  /** Paid claims of a network in the 24 hours from `lo` on. */
  function PaidThatDay(s: State, network: Network, lo: int): Claim -> bool {
    (c: Claim) => PaidFor(s, c) && c.network == network && lo <= c.createdAt <= lo + 86_400
  }

  /** Paid claims of a connection on a network in the cooldown after `lo`. */
  function PaidToConnection(s: State, p: Policy, ipHash: string, network: Network, lo: int): Claim -> bool {
    (c: Claim) => && PaidFor(s, c) && c.ipHash == ipHash && c.network == network
         && lo < c.createdAt <= lo + p.cooldownSeconds
  }

  /** Paid claims of a subnet, on either network, in the 24 hours from `lo` on. */
  function PaidToSubnet(s: State, subnetHash: string, lo: int): Claim -> bool {
    (c: Claim) => PaidFor(s, c) && c.subnetHash == subnetHash && lo <= c.createdAt <= lo + 86_400
  }

  lemma {:induction false} PaidTotalInColumns(s: State, n: nat, scope: Scope, w: Window, which: Claim -> bool)
    requires n <= |s.history| && (forall i :: 0 <= i < |s.history| ==> s.history[i].id == i)
    requires forall c <- s.history :: which(c) <==> PaidFor(s, c) && InScope(c, scope) && Within(c.createdAt, w)
    ensures PaidTotal(s, n, scope, w, Rows) == CountOf(s.history[..n], which)
    ensures PaidTotal(s, n, scope, w, Zatoshi) == SumOf(s.history[..n], which)
  {
    if n > 0 {
      PaidTotalInColumns(s, n - 1, scope, w, which);
      assert s.history[..n][..n - 1] == s.history[..n - 1];
      assert s.history[n - 1] in s.history;
    }
  }

  /** What is paid in columns is what is paid under a rule. */
  lemma PaidUnderARule(p: Policy, run: seq<State>, k: nat, rule: Rule, lo: int, which: Claim -> bool)
    requires p.LeaseCovers() && IsRun(p, run) && k < |run| && IsRule(rule, p)
    requires forall c <- run[k].history ::
               which(c) <==> PaidFor(run[k], c) && InScope(c, rule.scope) && Within(c.createdAt, RuleWindow(rule, lo))
    ensures (if rule.measure.Rows? then CountOf(run[k].history, which) else SumOf(run[k].history, which)) <= rule.limit
  {
    var s := run[k];
    PaidWindowsAreCapped(p, run, k, rule, lo);
    RunKeepsBasics(p, run, k);
    PaidTotalInColumns(s, |s.history|, rule.scope, RuleWindow(rule, lo), which);
    assert s.history[..|s.history|] == s.history;
  }

  /** Each network keeps under its own cap: whatever was paid, or ended as sent, on it in any 24 hours
      of any run. */
  lemma CapsHoldByNetwork(p: Policy, run: seq<State>, k: nat, lo: int)
    requires p.LeaseCovers() && IsRun(p, run) && k < |run|
    ensures SumOf(run[k].history, PaidThatDay(run[k], Taz, lo)) <= p.tazDailyCap
    ensures SumOf(run[k].history, PaidThatDay(run[k], Ctaz, lo)) <= p.ctazDailyCap
  {
    PaidUnderARule(p, run, k, Rule(ByNetwork(Taz), DAY, false, Zatoshi, p.DailyCap(Taz)), lo,
                   PaidThatDay(run[k], Taz, lo));
    PaidUnderARule(p, run, k, Rule(ByNetwork(Ctaz), DAY, false, Zatoshi, p.DailyCap(Ctaz)), lo,
                   PaidThatDay(run[k], Ctaz, lo));
  }

  /** So do connections, by network, and subnets, across both. */
  lemma ClientLimitsHold(p: Policy, run: seq<State>, k: nat, hash: string, n: Network, lo: int)
    requires p.LeaseCovers() && IsRun(p, run) && k < |run| && hash != ""
    ensures CountOf(run[k].history, PaidToConnection(run[k], p, hash, n, lo)) <= p.ipDailyMax
    ensures CountOf(run[k].history, PaidToSubnet(run[k], hash, lo)) <= p.subnetDailyMax
  {
    PaidUnderARule(p, run, k, Rule(ByIp(hash, n), p.cooldownSeconds, true, Rows, p.ipDailyMax), lo,
                   PaidToConnection(run[k], p, hash, n, lo));
    PaidUnderARule(p, run, k, Rule(BySubnet(hash), DAY, false, Rows, p.subnetDailyMax), lo,
                   PaidToSubnet(run[k], hash, lo));
  }

  lemma RuleAnswersAlike(p: Policy, s: State, r: Request, rule: Rule)
    requires BasicInv(p, s) && IsRule(rule, p)
    requires r.now >= s.NowSeconds() - RETENTION_GRACE
    ensures Total(s.table, RuleClause(rule, r.now, p), rule.measure)
         == Total(s.history, RuleClause(rule, r.now, p), rule.measure)
  {
    TableAnswersForHistory(s.history, s.purged, RuleClause(rule, r.now, p), RuleClause(rule, r.now, p), rule.measure);
    TableWithinHistory(s.history, s.purged, RuleClause(rule, r.now, p), rule.measure);
  }

  lemma {:induction false} TableWithinHistory(h: seq<Claim>, purged: set<nat>, f: Filter, m: Measure)
    ensures Total(Kept(h, purged), f, m) <= Total(h, f, m)
  {
    if h != [] {
      var n := |h| - 1;
      TableWithinHistory(h[..n], purged, f, m);
      if n !in purged {
        TotalAppend(Kept(h[..n], purged), h[n], f, m);
      }
    }
  }

  /** Purging is invisible: at any moment of any run, however often the table was purged and
      whatever was finalised after its row had gone, a request whose clock reading is at most
      the grace old gets the answer the append-only history would give. */
  lemma PurgedLedgerAnswersAsHistory(p: Policy, run: seq<State>, k: nat, r: Request)
    requires IsRun(p, run) && k < |run|
    requires r.now >= run[k].NowSeconds() - RETENTION_GRACE
    ensures Accepts(run[k].table, r, p) == Accepts(run[k].history, r, p)
  {
    RunKeepsBasics(p, run, k);
    forall rule | IsRule(rule, p)
      ensures RoomFor(run[k].table, NewRow(0, r), rule, p) == RoomFor(run[k].history, NewRow(0, r), rule, p)
    {
      RuleAnswersAlike(p, run[k], r, rule);
    }
    AcceptsIsRoomUnderEveryRule(run[k].table, 0, r, p);
    AcceptsIsRoomUnderEveryRule(run[k].history, 0, r, p);
  }
}
