/** Why a reserve was refused and when the refusal lifts. */
module Diagnosis {
  import opened Wrappers
  import opened Claims
  import opened ClaimProtocol
  import opened ClaimSafety

  /** The refusals of the ledger with their `retryAfterSeconds`. */
  datatype Refusal =
    | AddressCooldown(retryAfter: int)
    | ConnectionFull(retryAfter: int)
    | SubnetFull(retryAfter: int)
    | CapReached(capRetryAfter: Option<int>)

  /** `ORDER BY created_at DESC LIMIT 1` over the counted rows. */
  function LatestCounted(rows: seq<Claim>, f: Filter): Option<Claim> {
    if rows == [] then None
    else
      var last := rows[|rows| - 1];
      var best := LatestCounted(rows[..|rows| - 1], f);
      if Counted(last, f) && (best.None? || last.createdAt >= best.value.createdAt) then Some(last) else best
  }

  /** `created_at + CASE status WHEN 'sent' THEN span ELSE lease END`. */
  function Expiry(c: Claim, span: int, lease: int): int {
    c.createdAt + (if c.status.Sent? then span else lease)
  }

  /** `MIN(...)` of the expiries of the counted rows; NULL when there are none. */
  function EarliestExpiry(rows: seq<Claim>, f: Filter, span: int, lease: int): Option<int> {
    if rows == [] then None
    else
      var last := rows[|rows| - 1];
      var best := EarliestExpiry(rows[..|rows| - 1], f, span, lease);
      if Counted(last, f) && (best.None? || Expiry(last, span, lease) < best.value)
      then Some(Expiry(last, span, lease))
      else best
  }

  function ConnectionRule(r: Request, p: Policy): Rule {
    Rule(ByIp(r.ipHash, r.network), p.cooldownSeconds, true, Rows, p.ipDailyMax)
  }

  function CapRule(r: Request, p: Policy): Rule {
    Rule(ByNetwork(r.network), DAY, false, Zatoshi, p.DailyCap(r.network))
  }

  // ---- the four questions ----

  function AddressAnswer(rows: seq<Claim>, r: Request, p: Policy): Option<Refusal> {
    var live := LatestCounted(rows, Clause(ByAddress(r.addressHash, r.network), CooldownCuts(r.now, p)));
    if live.Some? then
      var window := if live.value.status.Sent? then p.cooldownSeconds else p.Lease();
      Some(AddressCooldown(Max(1, window - (r.now - live.value.createdAt))))
    else None
  }

  function ConnectionAnswer(rows: seq<Claim>, r: Request, p: Policy): Option<Refusal> {
    var f := Clause(ByIp(r.ipHash, r.network), CooldownCuts(r.now, p));
    if r.ipHash != "" && p.ipDailyMax > 0 && Total(rows, f, Rows) >= p.ipDailyMax then
      var frees := EarliestExpiry(rows, f, p.cooldownSeconds, p.Lease());
      Some(ConnectionFull(Max(1, (if frees.Some? then frees.value else r.now) - r.now)))
    else None
  }

  function SubnetAnswer(rows: seq<Claim>, r: Request, p: Policy): Option<Refusal> {
    if r.subnetHash != ""
       && Total(rows, Clause(BySubnet(r.subnetHash), DayCuts(r.now, p)), Rows) >= p.subnetDailyMax
    then Some(SubnetFull(3600))
    else None
  }

  function CapAnswer(rows: seq<Claim>, r: Request, p: Policy): Refusal {
    var frees := EarliestExpiry(rows, Clause(ByNetwork(r.network), DayCuts(r.now, p)), DAY, p.Lease());
    CapReached(if frees.Some? then Some(Max(1, frees.value - r.now)) else None)
  }

  /** `whyBlocked`: the questions in the source's order, each asked of the table its own statement
      finds; the first answer is the refusal. */
  function Diagnose(addressRows: seq<Claim>, ipRows: seq<Claim>, subnetRows: seq<Claim>, capRows: seq<Claim>,
                    r: Request, p: Policy): Refusal {
    if AddressAnswer(addressRows, r, p).Some? then AddressAnswer(addressRows, r, p).value
    else if ConnectionAnswer(ipRows, r, p).Some? then ConnectionAnswer(ipRows, r, p).value
    else if SubnetAnswer(subnetRows, r, p).Some? then SubnetAnswer(subnetRows, r, p).value
    else CapAnswer(capRows, r, p)
  }

  /** How many questions were asked before the refusal was known. */
  function QuestionsAsked(refusal: Refusal): nat {
    match refusal
    case AddressCooldown(_) => 1
    case ConnectionFull(_) => 2
    case SubnetFull(_) => 3
    case CapReached(_) => 4
  }

  /** The diagnosis when nothing is written between the refusal and the last question. */
  function WhyBlocked(rows: seq<Claim>, r: Request, p: Policy): Refusal {
    Diagnose(rows, rows, rows, rows, r, p)
  }

  lemma {:induction false} LatestCountedSpec(rows: seq<Claim>, f: Filter)
    ensures LatestCounted(rows, f).Some? <==> exists c <- rows :: Counted(c, f)
    ensures LatestCounted(rows, f).Some? ==>
              var best := LatestCounted(rows, f).value;
              && best in rows && Counted(best, f)
              && forall c <- rows :: Counted(c, f) ==> c.createdAt <= best.createdAt
  {
    if rows != [] {
      LatestCountedSpec(rows[..|rows| - 1], f);
      assert rows == rows[..|rows| - 1] + [rows[|rows| - 1]];
    }
  }

  lemma {:induction false} EarliestExpirySpec(rows: seq<Claim>, f: Filter, span: int, lease: int)
    ensures var e := EarliestExpiry(rows, f, span, lease);
            && (e.None? <==> forall c <- rows :: !Counted(c, f))
            && (e.Some? ==>
                  && (exists i :: 0 <= i < |rows| && Counted(rows[i], f) && Expiry(rows[i], span, lease) == e.value)
                  && (forall c <- rows :: Counted(c, f) ==> Expiry(c, span, lease) >= e.value))
  {
    if rows != [] {
      var n := |rows| - 1;
      EarliestExpirySpec(rows[..n], f, span, lease);
      assert rows == rows[..n] + [rows[n]];
      assert forall i :: 0 <= i < n ==> rows[..n][i] == rows[i];
    }
  }

  /** A refusal is diagnosed by a rule that really blocks, and by the first such rule in the
      order address, connection, subnet; the fall-through to the cap is reached only when the
      sum and the drip together exceed the cap. */
  lemma DiagnosisNamesTheBlock(rows: seq<Claim>, r: Request, p: Policy)
    requires p.ipDailyMax >= 1 && !Accepts(rows, r, p)
    ensures match WhyBlocked(rows, r, p)
            case AddressCooldown(_) => AddressBlocks(rows, r, p)
            case ConnectionFull(_) => IpBlocks(rows, r, p) && !AddressBlocks(rows, r, p)
            case SubnetFull(_) => SubnetBlocks(rows, r, p) && !AddressBlocks(rows, r, p) && !IpBlocks(rows, r, p)
            case CapReached(_) =>
              && Total(rows, Clause(ByNetwork(r.network), DayCuts(r.now, p)), Zatoshi) + r.amountZat
                 > p.DailyCap(r.network)
              && !AddressBlocks(rows, r, p) && !IpBlocks(rows, r, p) && !SubnetBlocks(rows, r, p)
  {
    LatestCountedSpec(rows, Clause(ByAddress(r.addressHash, r.network), CooldownCuts(r.now, p)));
  }

  /** A full subnet is always told an hour. */
  lemma SubnetIsToldAnHour(addressRows: seq<Claim>, ipRows: seq<Claim>, subnetRows: seq<Claim>, capRows: seq<Claim>,
                           r: Request, p: Policy)
    requires Diagnose(addressRows, ipRows, subnetRows, capRows, r, p).SubnetFull?
    ensures Diagnose(addressRows, ipRows, subnetRows, capRows, r, p).retryAfter == 3_600
  {
  }

  // ---- writes between the refusal and the questions ----

  /** Each question is answered truly of the table it finds, and the cap is what is left. */
  lemma QuestionsAreAnsweredTruly(addressRows: seq<Claim>, ipRows: seq<Claim>, subnetRows: seq<Claim>,
                                  capRows: seq<Claim>, r: Request, p: Policy)
    requires p.ipDailyMax >= 1
    ensures var refusal := Diagnose(addressRows, ipRows, subnetRows, capRows, r, p);
            && (refusal.AddressCooldown? <==> AddressBlocks(addressRows, r, p))
            && (refusal.ConnectionFull? <==> !AddressBlocks(addressRows, r, p) && IpBlocks(ipRows, r, p))
            && (refusal.SubnetFull? <==>
                  && !AddressBlocks(addressRows, r, p) && !IpBlocks(ipRows, r, p)
                  && SubnetBlocks(subnetRows, r, p))
  {
    LatestCountedSpec(addressRows, Clause(ByAddress(r.addressHash, r.network), CooldownCuts(r.now, p)));
  }

  /** The rows and the id the next one gets. */
  datatype Rowset = Rowset(rows: seq<Claim>, nextId: nat)

  /** What other requests may write meanwhile. A claim is finalised as sent or as failed. */
  datatype Write =
    | Inserts(r: Request)
    | FinalisesSent(id: nat, txid: Option<string>)
    | FinalisesFailed(id: nat, txid: Option<string>)
    | Purges(now: int)

  function Written(t: Rowset, w: Write, p: Policy): Rowset {
    match w
    case Inserts(r) => Rowset(t.rows + [NewRow(t.nextId, r)], t.nextId + 1)
    case FinalisesSent(id, txid) => t.(rows := Finalized(t.rows, id, Sent, txid))
    case FinalisesFailed(id, txid) => t.(rows := Finalized(t.rows, id, Failed, txid))
    case Purges(now) => t.(rows := Purged(t.rows, RetentionCutoff(now, p)))
  }

  function AllWritten(t: Rowset, ws: seq<Write>, p: Policy): Rowset {
    if ws == [] then t else Written(AllWritten(t, ws[..|ws| - 1], p), ws[|ws| - 1], p)
  }

  /** Nothing fails, no row is sent under a lease longer than what a sent row blocks for, and no
      purge reads a clock more than the grace ahead of the request. */
  predicate Harmless(ws: seq<Write>, r: Request, p: Policy) {
    forall w <- ws ::
      && !w.FinalisesFailed?
      && (w.FinalisesSent? ==> p.Lease() <= Min(p.cooldownSeconds, DAY))
      && (w.Purges? ==> w.now <= r.now + RETENTION_GRACE)
  }

  /** A pending row still inside the lease weighs the same once it is sent. */
  lemma SendingReleasesNothing(rows: seq<Claim>, id: nat, txid: Option<string>, now: int, rule: Rule, p: Policy)
    requires p.Lease() <= rule.span
    ensures Total(rows, RuleClause(rule, now, p), rule.measure)
            <= Total(Finalized(rows, id, Sent, txid), RuleClause(rule, now, p), rule.measure)
  {
    FinalizedAt(rows, id, Sent, txid);
    hide Finalized;
    TotalMonotone(rows, Finalized(rows, id, Sent, txid), RuleClause(rule, now, p), RuleClause(rule, now, p),
                  rule.measure);
  }

  lemma HarmlessWriteReleasesNothing(t: Rowset, w: Write, r: Request, rule: Rule, p: Policy)
    requires Harmless([w], r, p) && IsRule(rule, p)
    ensures Total(t.rows, RuleClause(rule, r.now, p), rule.measure)
            <= Total(Written(t, w, p).rows, RuleClause(rule, r.now, p), rule.measure)
  {
    assert w in [w];
    var f := RuleClause(rule, r.now, p);
    match w
    case Inserts(x) => TotalAppend(t.rows, NewRow(t.nextId, x), f, rule.measure);
    case FinalisesSent(id, txid) => SendingReleasesNothing(t.rows, id, txid, r.now, rule, p);
    case FinalisesFailed(_, _) => assert false;
    case Purges(now) => PurgedTotal(t.rows, RetentionCutoff(now, p), f, rule.measure);
  }

  lemma {:induction false} HarmlessWritesReleaseNothing(t: Rowset, ws: seq<Write>, r: Request, rule: Rule, p: Policy)
    requires Harmless(ws, r, p) && IsRule(rule, p)
    ensures Total(t.rows, RuleClause(rule, r.now, p), rule.measure)
            <= Total(AllWritten(t, ws, p).rows, RuleClause(rule, r.now, p), rule.measure)
  {
    if ws != [] {
      var init, w := ws[..|ws| - 1], ws[|ws| - 1];
      assert w in ws && forall x <- init :: x in ws;
      HarmlessWritesReleaseNothing(t, init, r, rule, p);
      HarmlessWriteReleasesNothing(AllWritten(t, init, p), w, r, rule, p);
    }
  }

  /** No rule that blocked stops blocking through harmless writes. */
  lemma BlocksStand(t: Rowset, ws: seq<Write>, r: Request, p: Policy)
    requires Harmless(ws, r, p)
    ensures var rows := AllWritten(t, ws, p).rows;
            && (AddressBlocks(t.rows, r, p) ==> AddressBlocks(rows, r, p))
            && (IpBlocks(t.rows, r, p) ==> IpBlocks(rows, r, p))
            && (SubnetBlocks(t.rows, r, p) ==> SubnetBlocks(rows, r, p))
            && (CapBlocks(t.rows, r, p) ==> CapBlocks(rows, r, p))
  {
    hide Total, AllWritten, AddressBlocks, Harmless;
    var address := Rule(ByAddress(r.addressHash, r.network), p.cooldownSeconds, true, Rows, 1);
    AddressBlocksCounts(t.rows, r, p);
    AddressBlocksCounts(AllWritten(t, ws, p).rows, r, p);
    HarmlessWritesReleaseNothing(t, ws, r, address, p);
    if IpBlocks(t.rows, r, p) {
      HarmlessWritesReleaseNothing(t, ws, r, ConnectionRule(r, p), p);
    }
    if SubnetBlocks(t.rows, r, p) {
      HarmlessWritesReleaseNothing(t, ws, r, Rule(BySubnet(r.subnetHash), DAY, false, Rows, p.subnetDailyMax), p);
    }
    HarmlessWritesReleaseNothing(t, ws, r, CapRule(r, p), p);
  }

  /** The tables the four questions find when `gaps[i]` is written before question `i`. */
  function Stage(t: Rowset, gaps: seq<seq<Write>>, n: nat, p: Policy): Rowset
    requires n <= |gaps|
  {
    if n == 0 then t else AllWritten(Stage(t, gaps, n - 1, p), gaps[n - 1], p)
  }

  function DiagnoseAfter(t: Rowset, gaps: seq<seq<Write>>, r: Request, p: Policy): Refusal
    requires |gaps| == 4
  {
    Diagnose(Stage(t, gaps, 1, p).rows, Stage(t, gaps, 2, p).rows, Stage(t, gaps, 3, p).rows,
             Stage(t, gaps, 4, p).rows, r, p)
  }

  lemma {:induction false} BlocksStandUpTo(t: Rowset, gaps: seq<seq<Write>>, n: nat, r: Request, p: Policy)
    requires n <= |gaps| && (forall ws <- gaps :: Harmless(ws, r, p))
    ensures var rows := Stage(t, gaps, n, p).rows;
            && (AddressBlocks(t.rows, r, p) ==> AddressBlocks(rows, r, p))
            && (IpBlocks(t.rows, r, p) ==> IpBlocks(rows, r, p))
            && (SubnetBlocks(t.rows, r, p) ==> SubnetBlocks(rows, r, p))
            && (CapBlocks(t.rows, r, p) ==> CapBlocks(rows, r, p))
  {
    if n > 0 {
      assert gaps[n - 1] in gaps;
      hide AddressBlocks, IpBlocks, SubnetBlocks, CapBlocks, Harmless;
      BlocksStandUpTo(t, gaps, n - 1, r, p);
      BlocksStand(Stage(t, gaps, n - 1, p), gaps[n - 1], r, p);
    }
  }

  /** A refusal that blames the cap is right, of the table refused and of the one it asked, as long
      as nothing written in between fails a claim or purges an hour ahead. */
  lemma CapIsBlamedRightly(t: Rowset, gaps: seq<seq<Write>>, r: Request, p: Policy)
    requires |gaps| == 4 && (forall ws <- gaps :: Harmless(ws, r, p)) && p.ipDailyMax >= 1
    requires !Accepts(t.rows, r, p) && DiagnoseAfter(t, gaps, r, p).CapReached?
    ensures CapBlocks(t.rows, r, p) && CapBlocks(Stage(t, gaps, 4, p).rows, r, p)
  {
    hide AddressBlocks, IpBlocks, SubnetBlocks, CapBlocks, Harmless, Diagnose, Stage;
    BlocksStandUpTo(t, gaps, 1, r, p);
    BlocksStandUpTo(t, gaps, 2, r, p);
    BlocksStandUpTo(t, gaps, 3, r, p);
    BlocksStandUpTo(t, gaps, 4, r, p);
    QuestionsAreAnsweredTruly(Stage(t, gaps, 1, p).rows, Stage(t, gaps, 2, p).rows, Stage(t, gaps, 3, p).rows,
                              Stage(t, gaps, 4, p).rows, r, p);
  }

  /** The last gap that is written in decides every later question. */
  lemma StagesAfterOneWrite(t: Rowset, w: Write, n: nat, p: Policy)
    requires 1 <= n <= 4
    ensures Stage(t, [[w], [], [], []], n, p) == Written(t, w, p)
  {
    var gaps := [[w], [], [], []];
    if n == 1 {
      assert [w][..0] == [];
      assert AllWritten(t, [w], p) == Written(t, w, p);
    } else {
      StagesAfterOneWrite(t, w, n - 1, p);
      assert gaps[n - 1] == [];
    }
  }

  lemma NothingBlocks(rows: seq<Claim>, r: Request, p: Policy)
    requires forall c <- rows :: c.status.Failed?
    requires p.ipDailyMax >= 1 && (r.subnetHash != "" ==> p.subnetDailyMax >= 1) && r.amountZat <= p.DailyCap(r.network)
    ensures Accepts(rows, r, p) && WhyBlocked(rows, r, p) == CapReached(None)
  {
    NothingCountedWeighsNothing(rows, Clause(ByIp(r.ipHash, r.network), CooldownCuts(r.now, p)), Rows);
    NothingCountedWeighsNothing(rows, Clause(BySubnet(r.subnetHash), DayCuts(r.now, p)), Rows);
    NothingCountedWeighsNothing(rows, Clause(ByNetwork(r.network), DayCuts(r.now, p)), Zatoshi);
    LatestCountedSpec(rows, Clause(ByAddress(r.addressHash, r.network), CooldownCuts(r.now, p)));
    EarliestExpirySpec(rows, Clause(ByNetwork(r.network), DayCuts(r.now, p)), DAY, p.Lease());
    hide Total, LatestCounted, EarliestExpiry;
  }

  lemma LoneClaimGoes(x: Claim, w: Write, p: Policy)
    requires || (w.FinalisesFailed? && w.id == x.id)
             || (w.Purges? && w.now > x.createdAt + RetentionSeconds(p) + RETENTION_GRACE)
    ensures forall c <- Written(Rowset([x], 1), w, p).rows :: c.status.Failed?
  {
    assert [] + [x] == [x];
    if w.FinalisesFailed? {
      FinalizedAt([x], w.id, Failed, w.txid);
    } else {
      PurgedAppend([], x, RetentionCutoff(w.now, p));
    }
  }

  lemma LoneClaimBlocks(r: Request, p: Policy)
    requires p.Lease() >= 1 && 2 * r.amountZat <= p.DailyCap(r.network)
    ensures AddressBlocks([NewRow(0, r)], r, p) && !CapBlocks([NewRow(0, r)], r, p)
  {
    var x := NewRow(0, r);
    assert x in [x];
    OneRow(x, Clause(ByNetwork(r.network), DayCuts(r.now, p)), Zatoshi);
  }

  /** A failed claim, or a purge far enough ahead, that lands before the questions makes the refusal
      of an address with a single claim blame a cap that was never exceeded, and has room. */
  lemma CapIsBlamedWrongly(r: Request, w: Write, p: Policy)
    requires p.ipDailyMax >= 1 && (r.subnetHash != "" ==> p.subnetDailyMax >= 1)
    requires p.Lease() >= 1 && 2 * r.amountZat <= p.DailyCap(r.network)
    requires || (w.FinalisesFailed? && w.id == 0)
             || (w.Purges? && w.now > r.now + RetentionSeconds(p) + RETENTION_GRACE)
    ensures var t := Rowset([NewRow(0, r)], 1);
            && AddressBlocks(t.rows, r, p) && !CapBlocks(t.rows, r, p)
            && DiagnoseAfter(t, [[w], [], [], []], r, p) == CapReached(None)
            && Accepts(Written(t, w, p).rows, r, p)
  {
    var t := Rowset([NewRow(0, r)], 1);
    LoneClaimGoes(NewRow(0, r), w, p);
    hide Written, Stage, Diagnose, AddressBlocks, CapBlocks, Accepts;
    NothingBlocks(Written(t, w, p).rows, r, p);
    LoneClaimBlocks(r, p);
    StagesAfterOneWrite(t, w, 1, p);
    StagesAfterOneWrite(t, w, 2, p);
    StagesAfterOneWrite(t, w, 3, p);
    StagesAfterOneWrite(t, w, 4, p);
  }

  // ---- when a rule lets go ----

  /** A row a clause counts now is counted at a later time exactly up to its expiry, the
      expiry itself included only when the comparison is `>=`. */
  predicate HeldAt(expiry: int, t: int, strict: bool) {
    if strict then t < expiry else t <= expiry
  }

  lemma CountedLater(c: Claim, rule: Rule, now: int, t: int, p: Policy)
    requires now <= t
    ensures Counted(c, RuleClause(rule, t, p)) <==>
              Counted(c, RuleClause(rule, now, p)) && HeldAt(Expiry(c, rule.span, p.Lease()), t, rule.strict)
  {
  }

  /** Until the earliest expiry the counted total stands; after it at least one row is gone. */
  lemma RuleLapses(rows: seq<Claim>, rule: Rule, now: int, t: int, p: Policy)
    requires now <= t
    requires EarliestExpiry(rows, RuleClause(rule, now, p), rule.span, p.Lease()).Some?
    ensures var e := EarliestExpiry(rows, RuleClause(rule, now, p), rule.span, p.Lease()).value;
            && (HeldAt(e, t, rule.strict) ==>
                  Total(rows, RuleClause(rule, t, p), rule.measure)
                  == Total(rows, RuleClause(rule, now, p), rule.measure))
            && (!HeldAt(e, t, rule.strict) ==>
                  exists i :: 0 <= i < |rows| && Counted(rows[i], RuleClause(rule, now, p))
                    && Total(rows, RuleClause(rule, t, p), rule.measure) + Weight(rows[i], rule.measure)
                       <= Total(rows, RuleClause(rule, now, p), rule.measure))
  {
    var f, g := RuleClause(rule, now, p), RuleClause(rule, t, p);
    EarliestExpirySpec(rows, f, rule.span, p.Lease());
    var e := EarliestExpiry(rows, f, rule.span, p.Lease()).value;
    forall i | 0 <= i < |rows|
      ensures Counted(rows[i], g)
              <==> Counted(rows[i], f) && HeldAt(Expiry(rows[i], rule.span, p.Lease()), t, rule.strict)
    {
      CountedLater(rows[i], rule, now, t, p);
    }
    if HeldAt(e, t, rule.strict) {
      TotalMonotone(rows, rows, f, g, rule.measure);
      TotalMonotone(rows, rows, g, f, rule.measure);
    } else {
      var i :| 0 <= i < |rows| && Counted(rows[i], f) && Expiry(rows[i], rule.span, p.Lease()) == e;
      TotalDropsBy(rows, g, f, rule.measure, i);
    }
  }

  lemma {:induction false} KeptIsWithin(h: seq<Claim>, purged: set<nat>)
    ensures forall c <- Kept(h, purged) :: c in h
  {
    if h != [] {
      KeptIsWithin(h[..|h| - 1], purged);
    }
  }

  lemma {:induction false} KeptIsSeparated(p: Policy, h: seq<Claim>, purged: set<nat>)
    requires Separated(p, h)
    ensures Separated(p, Kept(h, purged))
  {
    if h != [] {
      var n := |h| - 1;
      KeptIsSeparated(p, h[..n], purged);
      KeptIsWithin(h[..n], purged);
      var init := Kept(h[..n], purged);
      forall i | 0 <= i < |init| && SameAddress(init[i], h[n]) && !init[i].status.Failed? && !h[n].status.Failed?
        ensures ExpiresAt(init[i], p) <= h[n].createdAt
      {
        assert init[i] in h[..n];
        var k :| 0 <= k < n && h[..n][k] == init[i];
        assert h[k] == init[i];
      }
    }
  }

  // ---- the times a refusal reports, in any reachable ledger ----

  /** The request reads the clock of this moment. */
  predicate Current(s: State, r: Request) {
    r.now == s.NowSeconds()
  }

  /** What reachability gives the table itself. */
  lemma ReachableTable(p: Policy, run: seq<State>, k: nat, r: Request)
    requires p.LeaseCovers() && IsRun(p, run) && k < |run| && Current(run[k], r)
    ensures Separated(p, run[k].table)
    ensures forall c <- run[k].table :: c.createdAt <= r.now
    ensures forall rule :: IsRule(rule, p) ==>
                             Total(run[k].table, RuleClause(rule, r.now, p), rule.measure) <= rule.limit
  {
    RunIsSafe(p, run, k);
    var s := run[k];
    KeptIsSeparated(p, s.history, s.purged);
    KeptIsWithin(s.history, s.purged);
    NoRowFromTheFuture(s);
    forall rule | IsRule(rule, p)
      ensures Total(s.table, RuleClause(rule, r.now, p), rule.measure) <= rule.limit
    {
      TableWithinHistory(s.history, s.purged, RuleClause(rule, r.now, p), rule.measure);
    }
  }

  /** ... and the row `LatestCounted` picks stands behind every other counted row as new as it. */
  lemma {:induction false} LatestStandsLast(rows: seq<Claim>, f: Filter) returns (j: nat)
    requires LatestCounted(rows, f).Some?
    ensures j < |rows| && rows[j] == LatestCounted(rows, f).value && Counted(rows[j], f)
    ensures forall k :: j < k < |rows| && Counted(rows[k], f) ==> rows[k].createdAt < rows[j].createdAt
  {
    var n := |rows| - 1;
    var best := LatestCounted(rows[..n], f);
    if Counted(rows[n], f) && (best.None? || rows[n].createdAt >= best.value.createdAt) {
      j := n;
    } else {
      j := LatestStandsLast(rows[..n], f);
      assert forall k :: j < k < n ==> rows[..n][k] == rows[k];
    }
  }

  /** A row of the address still held at `t` holds no longer than the latest one. */
  lemma LatestHoldsLongest(p: Policy, rows: seq<Claim>, rule: Rule, now: int, t: int, i: nat, j: nat)
    requires Separated(p, rows) && i < |rows| && j < |rows| && rule.scope.ByAddress?
    requires rule == Rule(rule.scope, p.cooldownSeconds, true, Rows, 1)
    requires Counted(rows[i], RuleClause(rule, now, p)) && Counted(rows[j], RuleClause(rule, now, p))
    requires forall k :: j < k < |rows| && Counted(rows[k], RuleClause(rule, now, p))
                         ==> rows[k].createdAt < rows[j].createdAt
    ensures Expiry(rows[i], rule.span, p.Lease()) <= Expiry(rows[j], rule.span, p.Lease())
  {
    assert SameAddress(rows[i], rows[j]) && SameAddress(rows[j], rows[i]);
    if i < j {
      assert ExpiresAt(rows[i], p) <= rows[j].createdAt;
    }
  }

  lemma AddressHeldByLatest(p: Policy, rows: seq<Claim>, r: Request, t: int)
    requires Separated(p, rows) && r.now <= t
    requires AddressBlocks(rows, r, p)
    ensures WhyBlocked(rows, r, p).AddressCooldown?
    ensures var reported := WhyBlocked(rows, r, p).retryAfter;
            reported >= 1 && (AddressBlocks(rows, r.(now := t), p) <==> t < r.now + reported)
  {
    var rule := Rule(ByAddress(r.addressHash, r.network), p.cooldownSeconds, true, Rows, 1);
    var f, g := RuleClause(rule, r.now, p), RuleClause(rule, t, p);
    LatestCountedSpec(rows, f);
    var j := LatestStandsLast(rows, f);
    var e := Expiry(rows[j], rule.span, p.Lease());
    assert e == r.now + WhyBlocked(rows, r, p).retryAfter && e > r.now;
    hide WhyBlocked, LatestCounted, Separated;
    if AddressBlocks(rows, r.(now := t), p) {
      var i :| 0 <= i < |rows| && Counted(rows[i], g);
      CountedLater(rows[i], rule, r.now, t, p);
      LatestHoldsLongest(p, rows, rule, r.now, t, i, j);
    }
    if t < e {
      CountedLater(rows[j], rule, r.now, t, p);
      assert rows[j] in rows;
    }
  }

  /** In every reachable ledger left unwritten, an address block lifts exactly when reported,
      whatever clock reading the request carries. */
  lemma AddressBlockLiftsOnTime(p: Policy, run: seq<State>, k: nat, r: Request, t: int)
    requires p.LeaseCovers() && IsRun(p, run) && k < |run| && r.now <= t
    requires AddressBlocks(run[k].table, r, p)
    ensures WhyBlocked(run[k].table, r, p).AddressCooldown?
    ensures AddressBlocks(run[k].table, r.(now := t), p) <==> t < r.now + WhyBlocked(run[k].table, r, p).retryAfter
  {
    RunIsSafe(p, run, k);
    KeptIsSeparated(p, run[k].history, run[k].purged);
    AddressHeldByLatest(p, run[k].table, r, t);
  }

  // ---- rules that count ----

  /** The weight of the counted rows that expire at `e`. */
  function ExpiringAt(rows: seq<Claim>, rule: Rule, now: int, e: int, p: Policy): nat {
    if rows == [] then 0
    else
      var last := rows[|rows| - 1];
      ExpiringAt(rows[..|rows| - 1], rule, now, e, p)
      + if Counted(last, RuleClause(rule, now, p)) && Expiry(last, rule.span, p.Lease()) == e
        then Weight(last, rule.measure) else 0
  }

  predicate NoneExpiresBefore(rows: seq<Claim>, rule: Rule, now: int, e: int, p: Policy) {
    forall i :: 0 <= i < |rows| && Counted(rows[i], RuleClause(rule, now, p))
                ==> Expiry(rows[i], rule.span, p.Lease()) >= e
  }

  /** The first moment at which a row that expires at `e` is not held. */
  function FirstWithout(e: int, strict: bool): int {
    if strict then e else e + 1
  }

  lemma {:induction false} TotalAtFirstExpiry(rows: seq<Claim>, rule: Rule, now: int, e: int, p: Policy)
    requires NoneExpiresBefore(rows, rule, now, e, p) && now <= FirstWithout(e, rule.strict)
    ensures Total(rows, RuleClause(rule, FirstWithout(e, rule.strict), p), rule.measure)
            == Total(rows, RuleClause(rule, now, p), rule.measure) - ExpiringAt(rows, rule, now, e, p)
  {
    if rows != [] {
      var n := |rows| - 1;
      assert forall i :: 0 <= i < n ==> rows[..n][i] == rows[i];
      TotalAtFirstExpiry(rows[..n], rule, now, e, p);
      CountedLater(rows[n], rule, now, FirstWithout(e, rule.strict), p);
      hide RuleClause;
    }
  }

  /** A row of this weight does not fit under the rule at `t`. */
  predicate Over(rows: seq<Claim>, rule: Rule, weight: nat, t: int, p: Policy) {
    Total(rows, RuleClause(rule, t, p), rule.measure) + weight > rule.limit
  }

  ghost predicate LiftsWith(rows: seq<Claim>, rule: Rule, weight: nat, now: int, e: int, p: Policy) {
    forall t :: now <= t ==> (Over(rows, rule, weight, t, p) <==> t < FirstWithout(e, rule.strict))
  }

  lemma TotalsFall(rows: seq<Claim>, rule: Rule, t: int, u: int, p: Policy)
    requires t <= u
    ensures Total(rows, RuleClause(rule, u, p), rule.measure) <= Total(rows, RuleClause(rule, t, p), rule.measure)
  {
    forall i | 0 <= i < |rows| && Counted(rows[i], RuleClause(rule, u, p))
      ensures Counted(rows[i], RuleClause(rule, t, p))
    {
      CountedLater(rows[i], rule, t, u, p);
    }
    TotalMonotone(rows, rows, RuleClause(rule, u, p), RuleClause(rule, t, p), rule.measure);
  }

  /** A block lifts with the earliest expiry exactly when the rows that expire then are enough to
      make room. */
  lemma LiftsWithTheEarliest(rows: seq<Claim>, rule: Rule, weight: nat, now: int, p: Policy)
    requires Over(rows, rule, weight, now, p)
    requires EarliestExpiry(rows, RuleClause(rule, now, p), rule.span, p.Lease()).Some?
    ensures var e := EarliestExpiry(rows, RuleClause(rule, now, p), rule.span, p.Lease()).value;
            && HeldAt(e, now, rule.strict)
            && (LiftsWith(rows, rule, weight, now, e, p) <==>
                  Total(rows, RuleClause(rule, now, p), rule.measure) - ExpiringAt(rows, rule, now, e, p) + weight
                  <= rule.limit)
  {
    EarliestExpirySpec(rows, RuleClause(rule, now, p), rule.span, p.Lease());
    var e := EarliestExpiry(rows, RuleClause(rule, now, p), rule.span, p.Lease()).value;
    var i :| && 0 <= i < |rows| && Counted(rows[i], RuleClause(rule, now, p))
             && Expiry(rows[i], rule.span, p.Lease()) == e;
    CountedLater(rows[i], rule, now, now, p);
    var first := FirstWithout(e, rule.strict);
    assert NoneExpiresBefore(rows, rule, now, e, p) by {
      forall k | 0 <= k < |rows| && Counted(rows[k], RuleClause(rule, now, p))
        ensures Expiry(rows[k], rule.span, p.Lease()) >= e
      {
        assert rows[k] in rows;
      }
    }
    TotalAtFirstExpiry(rows, rule, now, e, p);
    hide Total, RuleClause, EarliestExpiry, NoneExpiresBefore, ExpiringAt, Counted;
    forall t | now <= t
      ensures t < first ==> Over(rows, rule, weight, t, p)
      ensures t >= first && !Over(rows, rule, weight, first, p) ==> !Over(rows, rule, weight, t, p)
    {
      if t < first {
        RuleLapses(rows, rule, now, t, p);
      } else {
        TotalsFall(rows, rule, first, t, p);
      }
    }
    assert Over(rows, rule, weight, first, p) ==> !LiftsWith(rows, rule, weight, now, e, p);
  }

  /** The refused connection may claim again exactly at the time reported. */
  ghost predicate ConnectionLiftsAsReported(rows: seq<Claim>, r: Request, p: Policy)
    requires WhyBlocked(rows, r, p).ConnectionFull?
  {
    forall t :: r.now <= t ==> (IpBlocks(rows, r.(now := t), p) <==> t < r.now + WhyBlocked(rows, r, p).retryAfter)
  }

  /** Of the n claims counted for a connection, those that expire first make room exactly when
      they are at least n - ipDailyMax + 1; the time reported is right exactly then. */
  lemma ConnectionBlockLiftsOnTime(rows: seq<Claim>, r: Request, p: Policy)
    requires p.ipDailyMax >= 1 && WhyBlocked(rows, r, p).ConnectionFull?
    ensures var rule := ConnectionRule(r, p);
            var n := Total(rows, RuleClause(rule, r.now, p), Rows);
            var e := r.now + WhyBlocked(rows, r, p).retryAfter;
            ConnectionLiftsAsReported(rows, r, p) <==> ExpiringAt(rows, rule, r.now, e, p) >= n - p.ipDailyMax + 1
  {
    var rule := ConnectionRule(r, p);
    var f := RuleClause(rule, r.now, p);
    EarliestExpirySpec(rows, f, rule.span, p.Lease());
    if EarliestExpiry(rows, f, rule.span, p.Lease()).None? {
      NothingCountedWeighsNothing(rows, f, Rows);
    } else {
      LiftsWithTheEarliest(rows, rule, 1, r.now, p);
      var e := EarliestExpiry(rows, f, rule.span, p.Lease()).value;
      assert e == r.now + WhyBlocked(rows, r, p).retryAfter;
      OverIsIpBlocks(rows, r, p);
      hide WhyBlocked, Total, RuleClause, EarliestExpiry, IpBlocks, Over, Counted, ExpiringAt;
      assert ConnectionLiftsAsReported(rows, r, p) <==> LiftsWith(rows, rule, 1, r.now, e, p);
    }
  }

  lemma OverIsIpBlocks(rows: seq<Claim>, r: Request, p: Policy)
    requires r.ipHash != ""
    ensures forall t :: IpBlocks(rows, r.(now := t), p) <==> Over(rows, ConnectionRule(r, p), 1, t, p)
  {
  }

  lemma {:induction false} EarliestExpires(rows: seq<Claim>, rule: Rule, now: int, e: int, p: Policy, i: nat)
    requires i < |rows| && Counted(rows[i], RuleClause(rule, now, p)) && Expiry(rows[i], rule.span, p.Lease()) == e
    ensures ExpiringAt(rows, rule, now, e, p) >= Weight(rows[i], rule.measure)
  {
    if i < |rows| - 1 {
      EarliestExpires(rows[..|rows| - 1], rule, now, e, p, i);
    }
  }

  lemma ConnectionReportsTheEarliest(rows: seq<Claim>, r: Request, p: Policy)
    requires p.ipDailyMax >= 1 && WhyBlocked(rows, r, p).ConnectionFull?
    ensures r.ipHash != ""
    ensures EarliestExpiry(rows, RuleClause(ConnectionRule(r, p), r.now, p), p.cooldownSeconds, p.Lease())
            == Some(r.now + WhyBlocked(rows, r, p).retryAfter)
  {
    var rule := ConnectionRule(r, p);
    var f := RuleClause(rule, r.now, p);
    EarliestExpirySpec(rows, f, rule.span, p.Lease());
    if EarliestExpiry(rows, f, rule.span, p.Lease()).None? {
      NothingCountedWeighsNothing(rows, f, Rows);
    }
  }

  /** In every reachable ledger a request that reads the clock of the moment is told the right time. */
  lemma CurrentConnectionIsToldRight(p: Policy, run: seq<State>, k: nat, r: Request)
    requires p.LeaseCovers() && IsRun(p, run) && k < |run| && Current(run[k], r)
    requires p.ipDailyMax >= 1 && WhyBlocked(run[k].table, r, p).ConnectionFull?
    ensures ConnectionLiftsAsReported(run[k].table, r, p)
  {
    var rows, rule := run[k].table, ConnectionRule(r, p);
    var f := RuleClause(rule, r.now, p);
    EarliestExpirySpec(rows, f, rule.span, p.Lease());
    ConnectionReportsTheEarliest(rows, r, p);
    hide WhyBlocked, RuleClause, EarliestExpiry, Counted, ExpiringAt, Total, ConnectionLiftsAsReported, IsRun;
    ReachableTable(p, run, k, r);
    assert IsRule(rule, p);
    ConnectionBlockLiftsOnTime(rows, r, p);
    if EarliestExpiry(rows, f, rule.span, p.Lease()).Some? {
      var e := EarliestExpiry(rows, f, rule.span, p.Lease()).value;
      var i :| 0 <= i < |rows| && Counted(rows[i], f) && Expiry(rows[i], rule.span, p.Lease()) == e;
      EarliestExpires(rows, rule, r.now, e, p, i);
    }
  }

  // ---- the cap ----

  /** The cap makes room for the drip exactly one second after `e`. */
  ghost predicate CapLiftsOneSecondAfter(rows: seq<Claim>, r: Request, p: Policy, e: int) {
    forall t :: r.now <= t ==> (CapBlocks(rows, r.(now := t), p) <==> t < e + 1)
  }

  lemma OverIsCapBlocks(rows: seq<Claim>, r: Request, p: Policy)
    ensures forall t :: CapBlocks(rows, r.(now := t), p) <==> Over(rows, CapRule(r, p), r.amountZat, t, p)
  {
  }

  lemma NothingEverCounted(rows: seq<Claim>, rule: Rule, now: int, p: Policy)
    requires forall c <- rows :: !Counted(c, RuleClause(rule, now, p))
    ensures Total(rows, RuleClause(rule, now, p), rule.measure) == 0
    ensures forall t :: now <= t ==> Total(rows, RuleClause(rule, t, p), rule.measure) == 0
  {
    NothingCountedWeighsNothing(rows, RuleClause(rule, now, p), rule.measure);
    forall t | now <= t ensures Total(rows, RuleClause(rule, t, p), rule.measure) == 0 {
      TotalsFall(rows, rule, now, t, p);
    }
  }

  /** What a cap refusal reports. */
  lemma CapReportsTheEarliest(rows: seq<Claim>, r: Request, p: Policy)
    requires WhyBlocked(rows, r, p).CapReached?
    ensures WhyBlocked(rows, r, p).capRetryAfter
            == match EarliestExpiry(rows, RuleClause(CapRule(r, p), r.now, p), DAY, p.Lease())
               case None => None
               case Some(e) => Some(Max(1, e - r.now))
  {
  }

  /** A cap block lifts one second after the earliest expiry, because its comparison is `>=`,
      exactly when the claims that expire then make room for the drip. The refusal reports that
      expiry, so it is one second early unless the expiry is now. With nothing counted the drip is
      larger than the cap: it is refused for ever and no time is reported. */
  lemma CapBlockLiftsOneSecondLate(rows: seq<Claim>, r: Request, p: Policy)
    requires WhyBlocked(rows, r, p).CapReached? && CapBlocks(rows, r, p)
    ensures var rule := CapRule(r, p);
            match WhyBlocked(rows, r, p).capRetryAfter
            case None => forall t :: r.now <= t ==> CapBlocks(rows, r.(now := t), p)
            case Some(wait) =>
              exists e :: r.now <= e && wait == Max(1, e - r.now)
                && EarliestExpiry(rows, RuleClause(rule, r.now, p), DAY, p.Lease()) == Some(e)
                && (CapLiftsOneSecondAfter(rows, r, p, e) <==>
                      Total(rows, RuleClause(rule, r.now, p), Zatoshi) - ExpiringAt(rows, rule, r.now, e, p)
                      + r.amountZat <= p.DailyCap(r.network))
                && (e > r.now ==> CapBlocks(rows, r.(now := r.now + wait), p))
  {
    var rule := CapRule(r, p);
    var f := RuleClause(rule, r.now, p);
    hide WhyBlocked, RuleClause, EarliestExpiry, CapBlocks, Counted, ExpiringAt, Total;
    CapReportsTheEarliest(rows, r, p);
    EarliestExpirySpec(rows, f, rule.span, p.Lease());
    OverIsCapBlocks(rows, r, p);
    var frees := EarliestExpiry(rows, f, rule.span, p.Lease());
    assert r.(now := r.now) == r;
    if frees.None? {
      NothingEverCounted(rows, rule, r.now, p);
    } else {
      var e := frees.value;
      LiftsWithTheEarliest(rows, rule, r.amountZat, r.now, p);
      assert CapLiftsOneSecondAfter(rows, r, p, e) <==> LiftsWith(rows, rule, r.amountZat, r.now, e, p);
      if e > r.now {
        RuleLapses(rows, rule, r.now, e, p);
      }
    }
  }

  /** With equal drips, in every reachable ledger and for a request that reads the clock of the
      moment, it does lift then. */
  lemma CurrentCapLiftsOneSecondLate(p: Policy, run: seq<State>, k: nat, r: Request)
    requires p.LeaseCovers() && IsRun(p, run) && k < |run| && Current(run[k], r)
    requires CapBlocks(run[k].table, r, p)
    requires forall c <- run[k].table :: Counted(c, RuleClause(CapRule(r, p), r.now, p)) ==> c.amountZat == r.amountZat
    ensures var frees := EarliestExpiry(run[k].table, RuleClause(CapRule(r, p), r.now, p), DAY, p.Lease());
            frees.Some? ==> CapLiftsOneSecondAfter(run[k].table, r, p, frees.value)
  {
    var rows, rule := run[k].table, CapRule(r, p);
    ReachableTable(p, run, k, r);
    assert IsRule(rule, p);
    var f := RuleClause(rule, r.now, p);
    EarliestExpirySpec(rows, f, rule.span, p.Lease());
    OverIsCapBlocks(rows, r, p);
    if EarliestExpiry(rows, f, rule.span, p.Lease()).Some? {
      var e := EarliestExpiry(rows, f, rule.span, p.Lease()).value;
      LiftsWithTheEarliest(rows, rule, r.amountZat, r.now, p);
      var i :| 0 <= i < |rows| && Counted(rows[i], f) && Expiry(rows[i], rule.span, p.Lease()) == e;
      EarliestExpires(rows, rule, r.now, e, p, i);
      assert rows[i] in rows;
    }
  }
}
