/** The claims table of the ledger and the SQL statements that read and write it.

    A table is a sequence of rows in insertion order. Every statement is one atomic
    function of the table: the database executes a single statement at a time, so this is
    the whole of its concurrency contract. Hashes are opaque strings; the empty string is
    the source's "could not be derived". */
module Claims {
  import opened Wrappers

  datatype Network = Taz | Ctaz

  datatype Status = Pending | Sent | Failed

  datatype Claim = Claim(
    id: nat,
    addressHash: string,
    ipHash: string,
    subnetHash: string,
    amountZat: nat,
    status: Status,
    txid: Option<string>,
    createdAt: int,
    network: Network)

  /** What a visitor asks for. `now` is read when the request arrives, in whole seconds. */
  datatype Request = Request(
    addressHash: string,
    ipHash: string,
    subnetHash: string,
    amountZat: nat,
    now: int,
    network: Network)

  /** The limits of a run. `sendResidenceMs` is how long one queued send can hold the wallet, and
      `leaseSeconds` how long a pending row blocks. */
  datatype Policy = Policy(
    cooldownSeconds: nat,
    ipDailyMax: nat,
    subnetDailyMax: nat,
    tazDailyCap: nat,
    ctazDailyCap: nat,
    sendResidenceMs: nat,
    sendQueueMaxPending: nat,
    leaseSeconds: nat)
  {
    function DailyCap(network: Network): nat {
      if network.Taz? then tazDailyCap else ctazDailyCap
    }

    function Lease(): nat { leaseSeconds }

    /** The lease of the source. */
    predicate LeaseDerived() {
      leaseSeconds == PendingLeaseSeconds(sendResidenceMs, sendQueueMaxPending) && sendResidenceMs > 0
    }

    /** From the creation of a row: a full queue, its own send included, and the margin. */
    function AnswerAndFinaliseMs(): nat {
      ProductIsNatural(sendQueueMaxPending, sendResidenceMs);
      sendQueueMaxPending * sendResidenceMs + 1000 * PENDING_LEASE_MARGIN_SECONDS
    }

    /** The lease runs past that. */
    predicate LeaseCovers() { AnswerAndFinaliseMs() < 1000 * leaseSeconds }
  }

  lemma {:induction false} ProductIsNatural(a: nat, b: nat)
    ensures a * b >= 0
  {
    if a > 0 {
      ProductIsNatural(a - 1, b);
    }
  }

  lemma DerivedLeaseCovers(p: Policy)
    requires p.LeaseDerived()
    ensures p.LeaseCovers()
    ensures p.AnswerAndFinaliseMs() + p.sendResidenceMs <= 1000 * p.leaseSeconds
  {
    assert (p.sendQueueMaxPending + 1) * p.sendResidenceMs
        == p.sendQueueMaxPending * p.sendResidenceMs + p.sendResidenceMs;
  }

  const DAY := 86_400
  const PENDING_LEASE_MARGIN_SECONDS := 60
  const RETENTION_GRACE := 3_600

  /** How long a pending row blocks: a full queue, the send itself and a margin, rounded up. */
  function PendingLeaseSeconds(sendResidenceMs: nat, sendQueueMaxPending: nat): (seconds: nat)
    ensures 1000 * (seconds - 60) >= (sendQueueMaxPending + 1) * sendResidenceMs
    ensures 1000 * (seconds - 61) < (sendQueueMaxPending + 1) * sendResidenceMs
  {
    ((sendQueueMaxPending + 1) * sendResidenceMs + 999) / 1000 + PENDING_LEASE_MARGIN_SECONDS
  }

  /** Rows created before this can no longer matter to any rule. */
  function RetentionCutoff(now: int, p: Policy): int {
    now - RetentionSeconds(p) - RETENTION_GRACE
  }

  function RetentionSeconds(p: Policy): int {
    Max(p.cooldownSeconds, Max(DAY, p.Lease()))
  }

  // ---- which rows a clause looks at ----

  datatype Scope =
    | ByAddress(hash: string, network: Network)
    | ByIp(hash: string, network: Network)
    | BySubnet(hash: string)
    | ByNetwork(network: Network)

  predicate InScope(c: Claim, scope: Scope) {
    match scope
    case ByAddress(h, n) => c.addressHash == h && c.network == n
    case ByIp(h, n) => c.ipHash == h && c.network == n
    case BySubnet(h) => c.subnetHash == h
    case ByNetwork(n) => c.network == n
  }

  /** The two creation-time cuts of a clause; `strict` tells `>` from `>=`. */
  datatype Cuts = Cuts(sent: int, pending: int, strict: bool)

  predicate After(createdAt: int, cut: int, strict: bool) {
    if strict then createdAt > cut else createdAt >= cut
  }

  predicate Live(c: Claim, cuts: Cuts) {
    || (c.status.Sent? && After(c.createdAt, cuts.sent, cuts.strict))
    || (c.status.Pending? && After(c.createdAt, cuts.pending, cuts.strict))
  }

  /** A stretch of creation times, closed at `hi`, and open at `lo` exactly when `strict`. */
  datatype Window = Window(lo: int, hi: int, strict: bool)

  predicate Within(createdAt: int, w: Window) {
    After(createdAt, w.lo, w.strict) && createdAt <= w.hi
  }

  /** Sent, or pending with its lease still running at `nowMs`: the rows that may end as sent. */
  predicate Viable(c: Claim, nowMs: int, lease: nat) {
    c.status.Sent? || (c.status.Pending? && nowMs < 1000 * (c.createdAt + lease))
  }

  /** What a total counts: the rows of an SQL clause, the sent rows of a window, or the rows of
      a window that may end as sent. */
  datatype Filter =
    | Clause(scope: Scope, cuts: Cuts)
    | SentIn(scope: Scope, window: Window)
    | ViableIn(scope: Scope, window: Window, nowMs: int, lease: nat)

  predicate Counted(c: Claim, f: Filter) {
    && InScope(c, f.scope)
    && match f {
         case Clause(_, cuts) => Live(c, cuts)
         case SentIn(_, w) => c.status.Sent? && Within(c.createdAt, w)
         case ViableIn(_, w, nowMs, lease) => Viable(c, nowMs, lease) && Within(c.createdAt, w)
       }
  }

  datatype Measure = Rows | Zatoshi

  function Weight(c: Claim, m: Measure): nat {
    if m.Rows? then 1 else c.amountZat
  }

  /** `COUNT(*)` or `COALESCE(SUM(amount_zat), 0)` over the rows a filter counts. */
  function Total(rows: seq<Claim>, f: Filter, m: Measure): nat {
    if rows == [] then 0
    else
      var last := rows[|rows| - 1];
      Total(rows[..|rows| - 1], f, m) + (if Counted(last, f) then Weight(last, m) else 0)
  }

  // ---- the reserve statement ----

  function CooldownCuts(now: int, p: Policy): Cuts {
    Cuts(now - p.cooldownSeconds, now - p.Lease(), true)
  }

  function DayCuts(now: int, p: Policy): Cuts {
    Cuts(now - DAY, now - p.Lease(), false)
  }

  predicate AddressBlocks(rows: seq<Claim>, r: Request, p: Policy) {
    exists c <- rows :: Counted(c, Clause(ByAddress(r.addressHash, r.network), CooldownCuts(r.now, p)))
  }

  predicate IpBlocks(rows: seq<Claim>, r: Request, p: Policy) {
    r.ipHash != "" && Total(rows, Clause(ByIp(r.ipHash, r.network), CooldownCuts(r.now, p)), Rows) >= p.ipDailyMax
  }

  predicate SubnetBlocks(rows: seq<Claim>, r: Request, p: Policy) {
    r.subnetHash != "" && Total(rows, Clause(BySubnet(r.subnetHash), DayCuts(r.now, p)), Rows) >= p.subnetDailyMax
  }

  predicate CapBlocks(rows: seq<Claim>, r: Request, p: Policy) {
    Total(rows, Clause(ByNetwork(r.network), DayCuts(r.now, p)), Zatoshi) + r.amountZat > p.DailyCap(r.network)
  }

  /** The `WHERE` of the reserve statement. */
  predicate Accepts(rows: seq<Claim>, r: Request, p: Policy) {
    && !AddressBlocks(rows, r, p)
    && !IpBlocks(rows, r, p)
    && !SubnetBlocks(rows, r, p)
    && !CapBlocks(rows, r, p)
  }

  function NewRow(id: nat, r: Request): Claim {
    Claim(id, r.addressHash, r.ipHash, r.subnetHash, r.amountZat, Pending, None, r.now, r.network)
  }

  // ---- finalise and purge ----

  function Finalized(rows: seq<Claim>, id: nat, status: Status, txid: Option<string>): seq<Claim> {
    if rows == [] then []
    else
      var last := rows[|rows| - 1];
      Finalized(rows[..|rows| - 1], id, status, txid)
      + [if last.id == id then last.(status := status, txid := txid) else last]
  }

  function Purged(rows: seq<Claim>, cut: int): seq<Claim> {
    if rows == [] then []
    else
      var last := rows[|rows| - 1];
      var init := Purged(rows[..|rows| - 1], cut);
      if last.createdAt < cut then init else init + [last]
  }

  // ---- the four clauses seen as one kind of rule ----

  /** Rows in `scope` younger than `span` together weigh at most `limit`. */
  datatype Rule = Rule(scope: Scope, span: nat, strict: bool, measure: Measure, limit: nat)

  predicate IsRule(rule: Rule, p: Policy) {
    match rule.scope
    case ByAddress(_, _) => rule == Rule(rule.scope, p.cooldownSeconds, true, Rows, 1)
    case ByIp(h, _) => h != "" && rule == Rule(rule.scope, p.cooldownSeconds, true, Rows, p.ipDailyMax)
    case BySubnet(h) => h != "" && rule == Rule(rule.scope, DAY, false, Rows, p.subnetDailyMax)
    case ByNetwork(n) => rule == Rule(rule.scope, DAY, false, Zatoshi, p.DailyCap(n))
  }

  /** What the reserve statement counts for a rule when it runs with clock reading `now`. */
  function RuleClause(rule: Rule, now: int, p: Policy): Filter {
    Clause(rule.scope, Cuts(now - rule.span, now - p.Lease(), rule.strict))
  }

  predicate RoomFor(rows: seq<Claim>, x: Claim, rule: Rule, p: Policy) {
    Total(rows, RuleClause(rule, x.createdAt, p), rule.measure) + Weight(x, rule.measure) <= rule.limit
  }

  lemma {:induction false} CountedRowWeighs(rows: seq<Claim>, i: nat, f: Filter, m: Measure)
    requires i < |rows| && Counted(rows[i], f)
    ensures Total(rows, f, m) >= Weight(rows[i], m)
  {
    if i < |rows| - 1 {
      CountedRowWeighs(rows[..|rows| - 1], i, f, m);
    }
  }

  lemma {:induction false} NothingCountedWeighsNothing(rows: seq<Claim>, f: Filter, m: Measure)
    requires forall c <- rows :: !Counted(c, f)
    ensures Total(rows, f, m) == 0
  {
    if rows != [] {
      assert rows[|rows| - 1] in rows;
      NothingCountedWeighsNothing(rows[..|rows| - 1], f, m);
    }
  }

  lemma AddressBlocksCounts(rows: seq<Claim>, r: Request, p: Policy)
    ensures AddressBlocks(rows, r, p) <==>
              Total(rows, Clause(ByAddress(r.addressHash, r.network), CooldownCuts(r.now, p)), Rows) >= 1
  {
    var f := Clause(ByAddress(r.addressHash, r.network), CooldownCuts(r.now, p));
    if AddressBlocks(rows, r, p) {
      var i :| 0 <= i < |rows| && Counted(rows[i], f);
      CountedRowWeighs(rows, i, f, Rows);
    } else {
      NothingCountedWeighsNothing(rows, f, Rows);
    }
  }

  /** `NOT EXISTS`, the two counts and the sum are one inequality, one rule at a time: the
      statement inserts exactly when the new row fits under every rule it falls in. */
  lemma AcceptsIsRoomUnderEveryRule(rows: seq<Claim>, id: nat, r: Request, p: Policy)
    ensures Accepts(rows, r, p) <==>
            forall rule :: IsRule(rule, p) && InScope(NewRow(id, r), rule.scope) ==>
                             RoomFor(rows, NewRow(id, r), rule, p)
  {
    var x := NewRow(id, r);
    var address := Rule(ByAddress(r.addressHash, r.network), p.cooldownSeconds, true, Rows, 1);
    var ip := Rule(ByIp(r.ipHash, r.network), p.cooldownSeconds, true, Rows, p.ipDailyMax);
    var subnet := Rule(BySubnet(r.subnetHash), DAY, false, Rows, p.subnetDailyMax);
    var cap := Rule(ByNetwork(r.network), DAY, false, Zatoshi, p.DailyCap(r.network));
    AddressBlocksCounts(rows, r, p);
    assert AddressBlocks(rows, r, p) <==> Total(rows, RuleClause(address, r.now, p), Rows) >= 1;
    assert forall rule :: IsRule(rule, p) && InScope(x, rule.scope) ==> rule in {address, ip, subnet, cap};
    assert IsRule(address, p) && IsRule(cap, p);
    assert InScope(x, address.scope) && InScope(x, ip.scope) && InScope(x, subnet.scope) && InScope(x, cap.scope);
  }

  lemma OneRow(x: Claim, f: Filter, m: Measure)
    ensures Total([x], f, m) == (if Counted(x, f) then Weight(x, m) else 0) && Total([], f, m) == 0
  {
    assert [x][..0] == [];
  }

  // ---- the statement in the columns of the table ----

  function CountOf(rows: seq<Claim>, which: Claim -> bool): nat {
    if rows == [] then 0
    else CountOf(rows[..|rows| - 1], which) + if which(rows[|rows| - 1]) then 1 else 0
  }

  function SumOf(rows: seq<Claim>, which: Claim -> bool): nat {
    if rows == [] then 0
    else SumOf(rows[..|rows| - 1], which) + if which(rows[|rows| - 1]) then rows[|rows| - 1].amountZat else 0
  }

  lemma {:induction false} TotalsInColumns(rows: seq<Claim>, f: Filter, which: Claim -> bool)
    requires forall c <- rows :: Counted(c, f) <==> which(c)
    ensures Total(rows, f, Rows) == CountOf(rows, which) && Total(rows, f, Zatoshi) == SumOf(rows, which)
  {
    if rows != [] {
      assert rows[|rows| - 1] in rows;
      TotalsInColumns(rows[..|rows| - 1], f, which);
    }
  }

  /** Live claims of the address on the network. */
  function AddressRows(r: Request, p: Policy): Claim -> bool {
    (c: Claim) => && c.addressHash == r.addressHash && c.network == r.network
         && (|| (c.status == Sent && c.createdAt > r.now - p.cooldownSeconds)
             || (c.status == Pending && c.createdAt > r.now - p.leaseSeconds))
  }

  /** Live claims of the connection on the network. */
  function ConnectionRows(r: Request, p: Policy): Claim -> bool {
    (c: Claim) => && c.ipHash == r.ipHash && c.network == r.network
         && (|| (c.status == Sent && c.createdAt > r.now - p.cooldownSeconds)
             || (c.status == Pending && c.createdAt > r.now - p.leaseSeconds))
  }

  /** Live claims of the subnet on either network. */
  function SubnetRows(r: Request, p: Policy): Claim -> bool {
    (c: Claim) => && c.subnetHash == r.subnetHash
         && (|| (c.status == Sent && c.createdAt >= r.now - 86_400)
             || (c.status == Pending && c.createdAt >= r.now - p.leaseSeconds))
  }

  /** Live claims of a network. */
  function NetworkRows(network: Network, now: int, p: Policy): Claim -> bool {
    (c: Claim) => && c.network == network
         && (|| (c.status == Sent && c.createdAt >= now - 86_400)
             || (c.status == Pending && c.createdAt >= now - p.leaseSeconds))
  }

  /** Each network has a cap of its own. */
  lemma CapClauseInColumns(rows: seq<Claim>, r: Request, p: Policy)
    ensures r.network == Taz ==>
              (CapBlocks(rows, r, p) <==> SumOf(rows, NetworkRows(Taz, r.now, p)) + r.amountZat > p.tazDailyCap)
    ensures r.network == Ctaz ==>
              (CapBlocks(rows, r, p) <==> SumOf(rows, NetworkRows(Ctaz, r.now, p)) + r.amountZat > p.ctazDailyCap)
  {
    TotalsInColumns(rows, Clause(ByNetwork(r.network), DayCuts(r.now, p)), NetworkRows(r.network, r.now, p));
    hide Total, SumOf;
  }

  /** The reserve statement in the columns it reads: it inserts exactly when no live claim of the
      address is there, and connection, subnet and network have room. */
  lemma AcceptsInColumns(rows: seq<Claim>, r: Request, p: Policy)
    ensures Accepts(rows, r, p) <==>
              && CountOf(rows, AddressRows(r, p)) == 0
              && (r.ipHash != "" ==> CountOf(rows, ConnectionRows(r, p)) < p.ipDailyMax)
              && (r.subnetHash != "" ==> CountOf(rows, SubnetRows(r, p)) < p.subnetDailyMax)
              && SumOf(rows, NetworkRows(r.network, r.now, p)) + r.amountZat
                 <= (if r.network == Taz then p.tazDailyCap else p.ctazDailyCap)
  {
    var address := Clause(ByAddress(r.addressHash, r.network), CooldownCuts(r.now, p));
    TotalsInColumns(rows, address, AddressRows(r, p));
    TotalsInColumns(rows, Clause(ByIp(r.ipHash, r.network), CooldownCuts(r.now, p)), ConnectionRows(r, p));
    TotalsInColumns(rows, Clause(BySubnet(r.subnetHash), DayCuts(r.now, p)), SubnetRows(r, p));
    CapClauseInColumns(rows, r, p);
    AddressBlocksCounts(rows, r, p);
    hide Total, SumOf, CountOf, AddressBlocks;
  }

  /** What a purge at `now` deletes: rows older than every window and the lease, and an hour. */
  lemma {:induction false} PurgeInColumns(rows: seq<Claim>, now: int, p: Policy, c: Claim)
    ensures var kept := Purged(rows, RetentionCutoff(now, p));
            multiset(kept)[c]
            == if || c.createdAt >= now - p.cooldownSeconds - 3_600
                  || c.createdAt >= now - 86_400 - 3_600
                  || c.createdAt >= now - p.leaseSeconds - 3_600 then multiset(rows)[c] else 0
  {
    if rows != [] {
      var init, last := rows[..|rows| - 1], rows[|rows| - 1];
      PurgeInColumns(init, now, p, c);
      assert rows == init + [last];
    }
  }

  // ---- comparing totals row by row ----

  /** A table in which every counted row is counted, with the same weight, in another of the
      same length weighs no more. */
  lemma {:induction false} TotalMonotone(a: seq<Claim>, b: seq<Claim>, fa: Filter, fb: Filter, m: Measure)
    requires |a| == |b|
    requires forall i :: 0 <= i < |a| && Counted(a[i], fa) ==>
                           Counted(b[i], fb) && Weight(a[i], m) == Weight(b[i], m)
    ensures Total(a, fa, m) <= Total(b, fb, m)
  {
    if a != [] {
      TotalMonotone(a[..|a| - 1], b[..|b| - 1], fa, fb, m);
    }
  }

  /** ... and less by a row's weight when that row is counted only by the other. */
  lemma {:induction false} TotalDropsBy(a: seq<Claim>, fa: Filter, fb: Filter, m: Measure, k: nat)
    requires k < |a| && Counted(a[k], fb) && !Counted(a[k], fa)
    requires forall i :: 0 <= i < |a| && Counted(a[i], fa) ==> Counted(a[i], fb)
    ensures Total(a, fa, m) + Weight(a[k], m) <= Total(a, fb, m)
  {
    var init := a[..|a| - 1];
    if k < |a| - 1 {
      TotalDropsBy(init, fa, fb, m, k);
    } else {
      TotalMonotone(init, init, fa, fb, m);
    }
  }

  lemma TotalAppend(rows: seq<Claim>, x: Claim, f: Filter, m: Measure)
    ensures Total(rows + [x], f, m) == Total(rows, f, m) + (if Counted(x, f) then Weight(x, m) else 0)
  {
    assert (rows + [x])[..|rows|] == rows;
  }

  lemma {:induction false} FinalizedAt(rows: seq<Claim>, id: nat, status: Status, txid: Option<string>)
    ensures |Finalized(rows, id, status, txid)| == |rows|
    ensures forall i :: 0 <= i < |rows| ==>
                          Finalized(rows, id, status, txid)[i]
                          == if rows[i].id == id then rows[i].(status := status, txid := txid) else rows[i]
  {
    if rows != [] {
      FinalizedAt(rows[..|rows| - 1], id, status, txid);
    }
  }

  lemma PurgedAppend(rows: seq<Claim>, x: Claim, cut: int)
    ensures Purged(rows + [x], cut) == if x.createdAt < cut then Purged(rows, cut) else Purged(rows, cut) + [x]
  {
    assert (rows + [x])[..|rows|] == rows;
  }

  /** Deleting rows a filter does not count changes no total. */
  lemma {:induction false} PurgedTotal(rows: seq<Claim>, cut: int, f: Filter, m: Measure)
    requires forall c <- rows :: c.createdAt < cut ==> !Counted(c, f)
    ensures Total(Purged(rows, cut), f, m) == Total(rows, f, m)
  {
    if rows != [] {
      var init, last := rows[..|rows| - 1], rows[|rows| - 1];
      assert last in rows;
      assert forall c <- init :: c in rows;
      PurgedTotal(init, cut, f, m);
      if last.createdAt >= cut {
        TotalAppend(Purged(init, cut), last, f, m);
      }
    }
  }

  /** Purging is invisible to one request: as long as the clock reading of the purge is at
      most the grace ahead of the request's own, the purged and the full table answer alike. */
  lemma PurgeInvisible(rows: seq<Claim>, purgeNow: int, r: Request, p: Policy)
    requires r.now >= purgeNow - RETENTION_GRACE
    ensures Accepts(Purged(rows, RetentionCutoff(purgeNow, p)), r, p) == Accepts(rows, r, p)
  {
    var cut := RetentionCutoff(purgeNow, p);
    var kept := Purged(rows, cut);
    forall rule | IsRule(rule, p)
      ensures Total(kept, RuleClause(rule, r.now, p), rule.measure)
           == Total(rows, RuleClause(rule, r.now, p), rule.measure)
    {
      PurgedTotal(rows, cut, RuleClause(rule, r.now, p), rule.measure);
    }
    AcceptsIsRoomUnderEveryRule(rows, 0, r, p);
    AcceptsIsRoomUnderEveryRule(kept, 0, r, p);
  }
}
