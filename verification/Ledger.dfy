/** The ledger object: its tables, and the calls that run statements on them.

    Best-effort statements (the purges) are issued without being awaited; a flag says whether
    one landed before the statement that follows it. */
module Ledger {
  import opened Wrappers
  import opened Claims
  import opened Diagnosis

  datatype ReserveResult =
    | Reserved(claimId: nat)
    | Refused(refusal: Refusal)

  datatype FinaliseResult = Written | SentWithoutTxid

  /** The UTC day of a millisecond clock. */
  function UtcDay(nowMs: int): int { nowMs / 86_400_000 }

  /** `INSERT ... ON CONFLICT DO UPDATE SET sent = sent + 1`. */
  function Bumped(dripDays: map<(Network, int), nat>, network: Network, day: int): map<(Network, int), nat> {
    dripDays[(network, day) := 1 + if (network, day) in dripDays then dripDays[(network, day)] else 0]
  }

  function DripsOn(dripDays: map<(Network, int), nat>, network: Network, day: int): nat {
    if (network, day) in dripDays then dripDays[(network, day)] else 0
  }

  /** One drip more for the network on that day, and nothing else moves. */
  lemma BumpedCountsOne(dripDays: map<(Network, int), nat>, network: Network, day: int)
    ensures var after := Bumped(dripDays, network, day);
            && DripsOn(after, network, day) == DripsOn(dripDays, network, day) + 1
            && (forall n, d :: (n, d) != (network, day) ==>
                  && DripsOn(after, n, d) == DripsOn(dripDays, n, d)
                  && ((n, d) in after <==> (n, d) in dripDays))
  {
  }

  lemma DaysAreWhole(day: int, ms: int)
    requires 86_400_000 * day <= ms < 86_400_000 * day + 86_400_000
    ensures ms / 86_400_000 == day
  {
  }

  /** Two times share a day exactly when the same 86 400 000 milliseconds of the clock hold both. */
  lemma SameUtcDay(a: int, b: int)
    ensures UtcDay(a) == UtcDay(b) <==>
              exists day ::
                && 86_400_000 * day <= a < 86_400_000 * (day + 1)
                && 86_400_000 * day <= b < 86_400_000 * (day + 1)
  {
    if UtcDay(a) == UtcDay(b) {
      var day := a / 86_400_000;
      assert 86_400_000 * day <= a < 86_400_000 * (day + 1) && 86_400_000 * day <= b < 86_400_000 * (day + 1);
    }
    if day :| 86_400_000 * day <= a < 86_400_000 * (day + 1) && 86_400_000 * day <= b < 86_400_000 * (day + 1) {
      DaysAreWhole(day, a);
      DaysAreWhole(day, b);
    }
  }

  class ClaimsLedger {
    var claims: seq<Claim>
    /** AUTOINCREMENT: ids are never reused, whatever is deleted. */
    var nextId: nat
    /** Drips served by network and UTC day. */
    var dripDays: map<(Network, int), nat>

    constructor ()
      ensures claims == [] && nextId == 0 && dripDays == map[]
    {
      claims, nextId, dripDays := [], 0, map[];
    }

    /** The reserve statement; the result is the inserted id, or none when nothing changed. */
    method RunReserve(r: Request, p: Policy) returns (inserted: Option<nat>)
      modifies this`claims, this`nextId
      ensures inserted.Some? <==> Accepts(old(claims), r, p)
      ensures inserted.Some? ==>
                SumOf(old(claims), NetworkRows(r.network, r.now, p)) + r.amountZat
                <= (if r.network == Taz then p.tazDailyCap else p.ctazDailyCap)
      ensures inserted.None? ==> claims == old(claims) && nextId == old(nextId)
      ensures inserted.Some? ==>
                && inserted.value == old(nextId)
                && claims == old(claims) + [Claim(old(nextId), r.addressHash, r.ipHash, r.subnetHash, r.amountZat,
                                                  Pending, None, r.now, r.network)]
                && nextId == old(nextId) + 1
    {
      AcceptsInColumns(claims, r, p);
      if !Accepts(claims, r, p) {
        return None;
      }
      inserted := Some(nextId);
      claims := claims + [NewRow(nextId, r)];
      nextId := nextId + 1;
    }

    /** What other requests write while this one awaits its next statement. */
    method OthersWrite(ws: seq<Write>, p: Policy)
      modifies this`claims, this`nextId
      ensures Rowset(claims, nextId) == AllWritten(Rowset(old(claims), old(nextId)), ws, p)
    {
      var after := AllWritten(Rowset(claims, nextId), ws, p);
      claims, nextId := after.rows, after.nextId;
    }

    /** Purge, reserve, and explain a refusal; `gaps[i]` is what others write before question `i`.
        When the purge's clock reading is the request's own, whether it lands changes no answer. */
    method ReserveClaim(r: Request, p: Policy, purgeLands: bool, gaps: seq<seq<Write>>) returns (res: ReserveResult)
      requires p.ipDailyMax >= 1 && |gaps| == 4
      modifies this`claims, this`nextId
      ensures var before := if purgeLands then Purged(old(claims), RetentionCutoff(r.now, p)) else old(claims);
              var t := Rowset(before, old(nextId));
              if Accepts(old(claims), r, p) then
                && res == Reserved(old(nextId))
                && claims == before + [NewRow(old(nextId), r)]
                && nextId == old(nextId) + 1
              else
                && res == Refused(DiagnoseAfter(t, gaps, r, p))
                && Rowset(claims, nextId) == Stage(t, gaps, QuestionsAsked(res.refusal), p)
      ensures res.Refused? && res.refusal.CapReached? && (forall ws <- gaps :: Harmless(ws, r, p)) ==>
                CapBlocks(old(claims), r, p) && CapBlocks(claims, r, p)
    {
      PurgeInvisible(claims, r.now, r, p);
      PurgedTotal(claims, RetentionCutoff(r.now, p), Clause(ByNetwork(r.network), DayCuts(r.now, p)), Zatoshi);
      if purgeLands {
        claims := Purged(claims, RetentionCutoff(r.now, p));
      }
      ghost var t := Rowset(claims, nextId);
      var inserted := RunReserve(r, p);
      if inserted.Some? {
        return Reserved(inserted.value);
      }
      assert Stage(t, gaps, 0, p) == t;
      OthersWrite(gaps[0], p);
      assert Rowset(claims, nextId) == Stage(t, gaps, 1, p);
      var answer := AddressAnswer(claims, r, p);
      if answer.Some? {
        return Refused(answer.value);
      }
      OthersWrite(gaps[1], p);
      assert Rowset(claims, nextId) == Stage(t, gaps, 2, p);
      answer := ConnectionAnswer(claims, r, p);
      if answer.Some? {
        return Refused(answer.value);
      }
      OthersWrite(gaps[2], p);
      assert Rowset(claims, nextId) == Stage(t, gaps, 3, p);
      answer := SubnetAnswer(claims, r, p);
      if answer.Some? {
        return Refused(answer.value);
      }
      OthersWrite(gaps[3], p);
      assert Rowset(claims, nextId) == Stage(t, gaps, 4, p);
      if forall ws <- gaps :: Harmless(ws, r, p) {
        CapIsBlamedRightly(t, gaps, r, p);
      }
      return Refused(CapAnswer(claims, r, p));
    }

    /** Finalise a claim. A sent claim must carry a transaction id unless its network has none;
        an empty id is recorded as the absence it is. A sent claim counts as one drip of its
        network and day, best-effort: a bump that does not land changes nothing else. */
    method FinalizeClaim(id: nat, status: Status, txid: Option<string>, networkHasNoTxid: bool,
                         network: Network, nowMs: int, bumpLands: bool)
      returns (res: FinaliseResult)
      modifies this`claims, this`dripDays
      ensures dripDays == if res.Written? && status.Sent? && bumpLands
                          then Bumped(old(dripDays), network, UtcDay(nowMs)) else old(dripDays)
      ensures var recorded := if txid == Some("") then None else txid;
              if status.Sent? && recorded.None? && !networkHasNoTxid
              then res.SentWithoutTxid? && claims == old(claims)
              else res.Written? && claims == Finalized(old(claims), id, status, recorded)
      ensures res.Written? && status.Sent? && bumpLands ==>
                && DripsOn(dripDays, network, nowMs / 86_400_000)
                   == old(DripsOn(dripDays, network, nowMs / 86_400_000)) + 1
                && forall n, d :: (n, d) != (network, nowMs / 86_400_000) ==>
                     DripsOn(dripDays, n, d) == old(DripsOn(dripDays, n, d))
      ensures |claims| == |old(claims)|
      ensures forall i :: 0 <= i < |claims| && claims[i].id != id ==> claims[i] == old(claims)[i]
      ensures res.Written? ==>
                forall i :: 0 <= i < |claims| && claims[i].id == id ==>
                  && claims[i].status == status
                  && claims[i].txid != Some("")
                  && (status.Sent? && !networkHasNoTxid ==> claims[i].txid.Some?)
    {
      var recorded := if txid == Some("") then None else txid;
      if status.Sent? && recorded.None? && !networkHasNoTxid {
        return SentWithoutTxid;
      }
      FinalizedAt(claims, id, status, recorded);
      claims := Finalized(claims, id, status, recorded);
      if status.Sent? && bumpLands {
        BumpedCountsOne(dripDays, network, UtcDay(nowMs));
        dripDays := Bumped(dripDays, network, UtcDay(nowMs));
      }
      res := Written;
    }
  }
}
