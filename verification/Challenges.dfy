/** Replay protection: the table of spent proof-of-work challenges over a whole run.

    The verifier compares the bytes a signature is read as; the table is keyed by its text. A
    challenge is known by those bytes, its message authentication code, which covers the expiry.
    Purges are best-effort statements of their own, issued with each burn, and may land at any
    point. */
module Challenges {
  import opened JsNumber
  import opened Strings
  import opened Hex

  /** `sig` is the text of the signature as it was sent. */
  datatype Event =
    | Burn(sig: string, exp: int, at: int)
    | Purge(at: int)

  /** `DELETE ... WHERE exp < at` and `INSERT OR IGNORE`. */
  function PurgedBefore(used: map<string, int>, at: int): map<string, int> {
    map sig | sig in used && used[sig] >= at :: used[sig]
  }

  function Inserted(used: map<string, int>, sig: string, exp: int): map<string, int> {
    if sig in used then used else used[sig := exp]
  }

  function Done(used: map<string, int>, e: Event): map<string, int> {
    match e
    case Burn(sig, exp, _) => Inserted(used, sig, exp)
    case Purge(at) => PurgedBefore(used, at)
  }

  function Table(events: seq<Event>): map<string, int> {
    if events == [] then map[] else Done(Table(events[..|events| - 1]), events[|events| - 1])
  }

  /** One code, one expiry, however the code was written. */
  predicate Signed(events: seq<Event>) {
    forall i, j :: 0 <= i < j < |events| && events[i].Burn? && events[j].Burn?
                   && HexDecode(events[i].sig) == HexDecode(events[j].sig)
                   ==> events[i].exp == events[j].exp
  }

  predicate ClockMonotone(events: seq<Event>) {
    forall i, j :: 0 <= i < j < |events| ==> events[i].at <= events[j].at
  }

  /** The burn at index `j` inserted its row: the caller may go on. */
  predicate Wins(events: seq<Event>, j: nat)
    requires j < |events| && events[j].Burn?
  {
    events[j].sig !in Table(events[..j])
  }

  /** The burn at `i` and no later purge of its row. */
  predicate SurvivesFrom(events: seq<Event>, i: nat, sig: string, exp: int) {
    && i < |events| && events[i].Burn? && events[i].sig == sig && events[i].exp == exp
    && forall k :: i < k < |events| && events[k].Purge? ==> events[k].at <= exp
  }

  ghost predicate Survives(events: seq<Event>, sig: string, exp: int) {
    exists i: nat :: SurvivesFrom(events, i, sig, exp)
  }

  lemma SurvivesStep(init: seq<Event>, e: Event, sig: string, exp: int)
    ensures Survives(init + [e], sig, exp) <==>
              || (e.Burn? && e.sig == sig && e.exp == exp)
              || (Survives(init, sig, exp) && (e.Purge? ==> e.at <= exp))
  {
    var events := init + [e];
    assert events[|init|] == e && forall k :: 0 <= k < |init| ==> events[k] == init[k];
    if Survives(events, sig, exp) {
      var i: nat :| SurvivesFrom(events, i, sig, exp);
      if i < |init| {
        assert SurvivesFrom(init, i, sig, exp);
      }
    }
    if e.Burn? && e.sig == sig && e.exp == exp {
      assert SurvivesFrom(events, |init|, sig, exp);
    }
    if Survives(init, sig, exp) && (e.Purge? ==> e.at <= exp) {
      var i: nat :| SurvivesFrom(init, i, sig, exp);
      assert SurvivesFrom(events, i, sig, exp);
    }
  }

  /** What the table holds is exactly what some burn put there and no purge took away. */
  lemma {:induction false} TableIsSurvivors(events: seq<Event>, sig: string, exp: int)
    requires Signed(events)
    ensures sig in Table(events) && Table(events)[sig] == exp <==> Survives(events, sig, exp)
  {
    if events != [] {
      var n := |events| - 1;
      var init, e := events[..n], events[n];
      assert events == init + [e];
      TableIsSurvivors(init, sig, exp);
      SurvivesStep(init, e, sig, exp);
      if e.Burn? && e.sig == sig && sig in Table(init) {
        TableIsSurvivors(init, sig, Table(init)[sig]);
        var i: nat :| SurvivesFrom(init, i, sig, Table(init)[sig]);
        assert events[i].Burn? && events[i].sig == sig;
      }
    }
  }

  /** Exactly when a burn is refused: an earlier burn of the same text still stands, which is when no
      purge since then ran past its expiry. */
  lemma RefusedIffStillRecorded(events: seq<Event>, j: nat)
    requires Signed(events) && j < |events| && events[j].Burn?
    ensures !Wins(events, j) <==> Survives(events[..j], events[j].sig, events[j].exp)
  {
    var before, sig, exp := events[..j], events[j].sig, events[j].exp;
    assert Signed(before);
    TableIsSurvivors(before, sig, exp);
    if sig in Table(before) {
      TableIsSurvivors(before, sig, Table(before)[sig]);
      var i: nat :| SurvivesFrom(before, i, sig, Table(before)[sig]);
      assert events[i].Burn? && events[i].sig == sig;
    }
  }

  /** Over a whole run with any number of purges, one text is won at most once by burns made no later
      than its expiry: a second win is always after it. */
  lemma BurnedOnceWhileAlive(events: seq<Event>, i: nat, j: nat)
    requires Signed(events) && ClockMonotone(events)
    requires i < j < |events| && events[i].Burn? && events[j].Burn? && events[i].sig == events[j].sig
    requires Wins(events, j)
    ensures events[j].at > events[j].exp
  {
    if events[j].at <= events[j].exp {
      RefusedIffStillRecorded(events, j);
      assert SurvivesFrom(events[..j], i, events[j].sig, events[j].exp);
    }
  }

  /** The condition cannot be dropped. The burn does not look at the expiry again, so a text burned
      and then purged after its expiry is won a second time, by anyone, at any later moment. */
  lemma BurnedTwiceOnceExpired(sig: string, exp: int, first: int, second: int)
    requires first <= second && exp < second
    ensures var events := [Burn(sig, exp, first), Purge(second), Burn(sig, exp, second)];
            Signed(events) && ClockMonotone(events) && Wins(events, 0) && Wins(events, 2)
  {
    var events := [Burn(sig, exp, first), Purge(second), Burn(sig, exp, second)];
    assert events[..2] == [Burn(sig, exp, first), Purge(second)];
    assert events[..2][..1] == [Burn(sig, exp, first)];
    assert events[..2][..1][..0] == [];
    assert Table(events[..2][..1]) == map[sig := exp];
  }

  // ---- one challenge, many texts ----

  /** A burn of the challenge with code `mac`, no later than its expiry. */
  predicate BurnsAlive(e: Event, mac: seq<Byte>) {
    e.Burn? && HexDecode(e.sig) == mac && e.at <= e.exp
  }

  /** A burn made in time wins exactly when no earlier burn had its text, whatever was purged. */
  lemma FirstOfItsTextWins(events: seq<Event>, j: nat)
    requires Signed(events) && ClockMonotone(events)
    requires j < |events| && events[j].Burn? && events[j].at <= events[j].exp
    ensures Wins(events, j) <==> forall i :: 0 <= i < j && events[i].Burn? ==> events[i].sig != events[j].sig
  {
    RefusedIffStillRecorded(events, j);
    var before := events[..j];
    if Survives(before, events[j].sig, events[j].exp) {
      var i: nat :| SurvivesFrom(before, i, events[j].sig, events[j].exp);
      assert events[i] == before[i];
    }
    if i :| 0 <= i < j && events[i].Burn? && events[i].sig == events[j].sig {
      assert SurvivesFrom(before, i, events[j].sig, events[j].exp);
    }
  }

  /** How often a challenge was won before its expiry in the first `n` steps. */
  function WinsAlive(events: seq<Event>, mac: seq<Byte>, n: nat): nat
    requires n <= |events|
  {
    if n == 0 then 0
    else
      WinsAlive(events, mac, n - 1)
      + if BurnsAlive(events[n - 1], mac) && Wins(events, n - 1) then 1 else 0
  }

  /** The texts it was burned under before its expiry. */
  function TextsBurned(events: seq<Event>, mac: seq<Byte>, n: nat): set<string>
    requires n <= |events|
  {
    if n == 0 then {}
    else TextsBurned(events, mac, n - 1) + if BurnsAlive(events[n - 1], mac) then {events[n - 1].sig} else {}
  }

  lemma {:induction false} TextBurnedBefore(events: seq<Event>, mac: seq<Byte>, n: nat, sig: string)
    requires n <= |events|
    ensures sig in TextsBurned(events, mac, n) <==>
              exists i :: 0 <= i < n && BurnsAlive(events[i], mac) && events[i].sig == sig
  {
    if n > 0 {
      TextBurnedBefore(events, mac, n - 1, sig);
    }
  }

  lemma NewTextWins(events: seq<Event>, mac: seq<Byte>, j: nat)
    requires Signed(events) && ClockMonotone(events) && j < |events| && BurnsAlive(events[j], mac)
    ensures Wins(events, j) <==> events[j].sig !in TextsBurned(events, mac, j)
  {
    FirstOfItsTextWins(events, j);
    TextBurnedBefore(events, mac, j, events[j].sig);
    forall i | 0 <= i < j && events[i].Burn? && events[i].sig == events[j].sig
      ensures BurnsAlive(events[i], mac)
    {
      assert events[i].at <= events[j].at;
    }
    hide TextsBurned, Wins;
  }

  /** Over any run with any purges, a challenge is won before its expiry once for every text it was
      burned under. */
  lemma {:induction false} OneWinPerText(events: seq<Event>, mac: seq<Byte>, n: nat)
    requires Signed(events) && ClockMonotone(events) && n <= |events|
    ensures WinsAlive(events, mac, n) == |TextsBurned(events, mac, n)|
  {
    hide Signed, ClockMonotone, Wins, HexDecode;
    if n > 0 {
      OneWinPerText(events, mac, n - 1);
      var before := TextsBurned(events, mac, n - 1);
      if BurnsAlive(events[n - 1], mac) {
        NewTextWins(events, mac, n - 1);
        var sig := events[n - 1].sig;
        assert sig in before ==> before + {sig} == before;
      } else {
        assert before + {} == before;
      }
    }
  }

  lemma AtMostOneElement(s: set<string>)
    ensures |s| <= 1 <==> forall x, y :: x in s && y in s ==> x == y
  {
    forall x, y | x in s && y in s && x != y ensures |s| >= 2 {
      assert |s - {x}| == |s| - 1 && y in s - {x};
    }
    if |s| > 1 {
      var x :| x in s;
      assert |s - {x}| == |s| - 1;
      var y :| y in s - {x};
    }
  }

  /** So it is won at most once before its expiry exactly when every burn in time has the same text. */
  lemma WonOnceIffOneText(events: seq<Event>, mac: seq<Byte>)
    requires Signed(events) && ClockMonotone(events)
    ensures WinsAlive(events, mac, |events|) <= 1 <==>
              forall i, j :: 0 <= i < |events| && 0 <= j < |events|
                             && BurnsAlive(events[i], mac) && BurnsAlive(events[j], mac)
                             ==> events[i].sig == events[j].sig
  {
    var texts := TextsBurned(events, mac, |events|);
    OneWinPerText(events, mac, |events|);
    AtMostOneElement(texts);
    forall sig: string
      ensures sig in texts <==>
                exists i :: 0 <= i < |events| && BurnsAlive(events[i], mac) && events[i].sig == sig
    {
      TextBurnedBefore(events, mac, |events|, sig);
    }
    forall i | 0 <= i < |events| && BurnsAlive(events[i], mac) ensures events[i].sig in texts {
      TextBurnedBefore(events, mac, |events|, events[i].sig);
    }
    hide WinsAlive, TextsBurned, BurnsAlive, Signed, ClockMonotone;
  }

  /** A verifier that takes nothing but lower-case digits, two for every byte of a code, would see to
      that. */
  lemma CanonicalTextsAreWonOnce(events: seq<Event>, mac: seq<Byte>)
    requires Signed(events) && ClockMonotone(events)
    requires forall e <- events :: e.Burn? ==> CanonicalText(e.sig, |HexDecode(e.sig)|)
    ensures WinsAlive(events, mac, |events|) <= 1
  {
    forall i | 0 <= i < |events| && BurnsAlive(events[i], mac) ensures events[i].sig == HexText(mac) {
      assert events[i] in events;
      CanonicalTextIsUnique(events[i].sig, mac);
    }
    WonOnceIffOneText(events, mac);
  }

  /** The code written as it was issued, with `k` characters behind it that are no digits. */
  function Spelling(mac: seq<Byte>, k: nat): string {
    HexText(mac) + seq(k, _ => 'z')
  }

  lemma SpellingIsRead(mac: seq<Byte>, k: nat)
    ensures HexDecode(Spelling(mac, k)) == mac
  {
    assert Digit('z') == -1;
    HexRoundTrip(mac, seq(k, _ => 'z'));
  }

  function BurnsOf(mac: seq<Byte>, exp: int, at: int, n: nat): seq<Event> {
    seq(n, k requires 0 <= k < n => Burn(Spelling(mac, k), exp, at))
  }

  /** The verifier as it is does not: before its expiry any challenge is won as often as there are
      burns, when each is a spelling of its own. */
  lemma EverySpellingWins(mac: seq<Byte>, exp: int, at: int, n: nat)
    requires at <= exp
    ensures var events := BurnsOf(mac, exp, at, n);
            && Signed(events) && ClockMonotone(events)
            && (forall k :: 0 <= k < n ==> BurnsAlive(events[k], mac) && Wins(events, k))
  {
    var events := BurnsOf(mac, exp, at, n);
    forall k | 0 <= k < n ensures BurnsAlive(events[k], mac) {
      SpellingIsRead(mac, k);
    }
    forall k | 0 <= k < n ensures Wins(events, k) {
      assert forall i :: 0 <= i < |events| ==> |events[i].sig| == |HexText(mac)| + i;
      FirstOfItsTextWins(events, k);
    }
  }

  // ---- the table ----

  class SpentTable {
    var used: map<string, int>
    /** Every burn and purge that reached the table. */
    ghost var events: seq<Event>

    ghost predicate Valid()
      reads this
    {
      used == Table(events)
    }

    constructor ()
      ensures Valid() && used == map[] && events == []
    {
      used, events := map[], [];
    }

    /** Burn a text. With the purge landing first, as one process on one file runs them, a text
        already recorded is won again exactly when its expiry has passed. */
    method Spend(sig: string, exp: int, now: int, purgeLands: bool) returns (won: bool)
      requires Valid()
      modifies this
      ensures Valid()
      ensures events == old(events) + (if purgeLands then [Purge(now)] else []) + [Burn(sig, exp, now)]
      ensures won <==> Wins(events, |events| - 1)
      ensures var before := if purgeLands then PurgedBefore(old(used), now) else old(used);
              won == (sig !in before) && used == Inserted(before, sig, exp)
      ensures sig in used
      ensures purgeLands && sig in old(used) && old(used)[sig] == exp ==> (won <==> exp < now)
    {
      if purgeLands {
        TableGrows(events, Purge(now));
        used := PurgedBefore(used, now);
        events := events + [Purge(now)];
      }
      TableGrows(events, Burn(sig, exp, now));
      won := sig !in used;
      if won {
        used := used[sig := exp];
      }
      events := events + [Burn(sig, exp, now)];
    }
  }

  lemma TableGrows(events: seq<Event>, e: Event)
    ensures (events + [e])[..|events|] == events
    ensures Table(events + [e]) == Done(Table(events), e)
  {
    assert (events + [e])[..|events|] == events;
  }
}
