/** Adaptive difficulty: sliding windows kept as pruned lists of times, against the full
    history of attempts they stand for. */
module Difficulty {
  import opened Wrappers
  import opened JsNumber
  import opened PowBudget

  datatype Config = Config(baseBits: BaseBits, escalateBits: nat, maxBits: nat, ttlSeconds: nat, windowMs: nat)

  /** A verified attempt. An empty subnet is one that could not be derived. */
  datatype Attempt = Attempt(ip: string, subnet: string, at: int)

  datatype Who = Client(ip: string) | Range(subnet: string) | Everyone

  predicate By(a: Attempt, who: Who) {
    match who
    case Client(ip) => a.ip == ip
    case Range(subnet) => a.subnet == subnet
    case Everyone => true
  }

  /** When `who` made attempts, oldest first. */
  function Times(history: seq<Attempt>, who: Who): seq<int> {
    if history == [] then []
    else
      var n := |history| - 1;
      var before := Times(history[..n], who);
      if By(history[n], who) then before + [history[n].at] else before
  }

  /** All attempts ever recorded for `who` at or after `cut`. */
  function CountSince(history: seq<Attempt>, who: Who, cut: int): nat {
    if history == [] then 0
    else
      var n := |history| - 1;
      CountSince(history[..n], who, cut) + (if By(history[n], who) && history[n].at >= cut then 1 else 0)
  }

  // ---- the difficulty of a number of attempts ----

  /** A global-pressure threshold, scaled with the window and never below its floor. */
  function PerHour(n: nat, cfg: Config): nat {
    Max(n, RoundedRatio(n * cfg.windowMs, 600_000))
  }

  function Pressure(everyone: nat, cfg: Config): nat {
    if everyone >= PerHour(60, cfg) then 3
    else if everyone >= PerHour(25, cfg) then 2
    else if everyone >= PerHour(10, cfg) then 1
    else 0
  }

  function Ceiling(cfg: Config): nat {
    SolvableCeiling(cfg.baseBits, cfg.ttlSeconds, SLOW_BROWSER_HASHES_PER_SEC)
  }

  function DifficultyOf(mine: nat, range: nat, everyone: nat, cfg: Config): nat {
    ProductMonotone(0, Max(mine, range), cfg.escalateBits);
    Min(Min(cfg.maxBits, Ceiling(cfg)), cfg.baseBits + Max(mine, range) * cfg.escalateBits + Pressure(everyone, cfg))
  }

  /** The difficulty by counting every attempt ever recorded in the window. */
  function DifficultyFromHistory(history: seq<Attempt>, ip: string, subnet: string, now: int, cfg: Config): nat {
    var cut := now - cfg.windowMs;
    DifficultyOf(CountSince(history, Client(ip), cut),
                 if subnet == "" then 0 else CountSince(history, Range(subnet), cut),
                 CountSince(history, Everyone, cut),
                 cfg)
  }

  /** With time held fixed, more attempts never make the next challenge easier. */
  lemma MoreAttemptsNeverEasier(history: seq<Attempt>, extra: seq<Attempt>,
                                ip: string, subnet: string, now: int, cfg: Config)
    ensures DifficultyFromHistory(history, ip, subnet, now, cfg)
            <= DifficultyFromHistory(history + extra, ip, subnet, now, cfg)
  {
    var cut := now - cfg.windowMs;
    CountsOnlyGrow(history, extra, Client(ip), cut);
    CountsOnlyGrow(history, extra, Range(subnet), cut);
    CountsOnlyGrow(history, extra, Everyone, cut);
    var repeats := Max(CountSince(history, Client(ip), cut),
                       if subnet == "" then 0 else CountSince(history, Range(subnet), cut));
    var repeats' := Max(CountSince(history + extra, Client(ip), cut),
                        if subnet == "" then 0 else CountSince(history + extra, Range(subnet), cut));
    ProductMonotone(repeats, repeats', cfg.escalateBits);
    PressureGrows(CountSince(history, Everyone, cut), CountSince(history + extra, Everyone, cut), cfg);
  }

  lemma PressureGrows(a: nat, b: nat, cfg: Config)
    requires a <= b
    ensures Pressure(a, cfg) <= Pressure(b, cfg)
  {
    ThresholdsGrow(10, 25, cfg);
    ThresholdsGrow(25, 60, cfg);
  }

  lemma ThresholdsGrow(m: nat, n: nat, cfg: Config)
    requires m <= n
    ensures PerHour(m, cfg) <= PerHour(n, cfg)
  {
    ProductMonotone(m, n, cfg.windowMs);
  }

  lemma {:induction false} CountsOnlyGrow(history: seq<Attempt>, extra: seq<Attempt>, who: Who, cut: int)
    ensures CountSince(history, who, cut) <= CountSince(history + extra, who, cut)
  {
    if extra == [] {
      assert history + extra == history;
    } else {
      var n := |extra| - 1;
      CountsOnlyGrow(history, extra[..n], who, cut);
      assert (history + extra)[..|history| + n] == history + extra[..n];
    }
  }

  // ---- the difficulty in numbers ----

  /** Which attempts of the history a client, a range and everyone made since `from`. */
  function ByClient(history: seq<Attempt>, ip: string, from: int): set<nat> {
    set i: nat | i < |history| && history[i].ip == ip && history[i].at >= from
  }

  function ByRange(history: seq<Attempt>, subnet: string, from: int): set<nat> {
    set i: nat | i < |history| && history[i].subnet == subnet && history[i].at >= from
  }

  function ByAll(history: seq<Attempt>, from: int): set<nat> {
    set i: nat | i < |history| && history[i].at >= from
  }

  lemma OneMoreCounted(history: seq<Attempt>, who: Who, from: int)
    requires history != []
    ensures CountSince(history, who, from)
         == CountSince(history[..|history| - 1], who, from)
            + if By(history[|history| - 1], who) && history[|history| - 1].at >= from then 1 else 0
  {
  }

  lemma {:induction false} ClientInNumbers(history: seq<Attempt>, ip: string, from: int)
    ensures CountSince(history, Client(ip), from) == |ByClient(history, ip, from)|
  {
    if history == [] {
      assert ByClient(history, ip, from) == {};
    } else {
      var n := |history| - 1;
      ClientInNumbers(history[..n], ip, from);
      var before, now := ByClient(history[..n], ip, from), ByClient(history, ip, from);
      hide CountSince;
      assert forall i: nat :: i < n ==> history[..n][i] == history[i];
      if history[n].ip == ip && history[n].at >= from {
        assert now == before + {n};
      } else {
        assert now == before;
      }
      OneMoreCounted(history, Client(ip), from);
    }
  }

  lemma {:induction false} RangeInNumbers(history: seq<Attempt>, subnet: string, from: int)
    ensures CountSince(history, Range(subnet), from) == |ByRange(history, subnet, from)|
  {
    if history == [] {
      assert ByRange(history, subnet, from) == {};
    } else {
      var n := |history| - 1;
      RangeInNumbers(history[..n], subnet, from);
      var before, now := ByRange(history[..n], subnet, from), ByRange(history, subnet, from);
      hide CountSince;
      assert forall i: nat :: i < n ==> history[..n][i] == history[i];
      if history[n].subnet == subnet && history[n].at >= from {
        assert now == before + {n};
      } else {
        assert now == before;
      }
      OneMoreCounted(history, Range(subnet), from);
    }
  }

  lemma {:induction false} AllInNumbers(history: seq<Attempt>, from: int)
    ensures CountSince(history, Everyone, from) == |ByAll(history, from)|
  {
    if history == [] {
      assert ByAll(history, from) == {};
    } else {
      var n := |history| - 1;
      AllInNumbers(history[..n], from);
      var before := ByAll(history[..n], from);
      assert ByAll(history, from) == if history[n].at >= from then before + {n} else before;
    }
  }

  /** `n` attempts per ten minutes of window, to the nearest whole number and never under `n` itself. */
  predicate Reaches(everyone: nat, n: nat, windowMs: nat) {
    everyone >= n && 1_200_000 * everyone + 600_000 > 2 * (n * windowMs)
  }

  lemma ThresholdInNumbers(everyone: nat, n: nat, cfg: Config)
    ensures everyone >= PerHour(n, cfg) <==> Reaches(everyone, n, cfg.windowMs)
  {
    var work := n * cfg.windowMs;
    var rounded := (2 * work + 600_000) / 1_200_000;
    assert RoundedRatio(work, 600_000) == rounded;
    assert everyone >= rounded <==> 1_200_000 * everyone + 600_000 > 2 * work;
  }

  /** What pressure adds: one bit from 10 attempts per ten minutes of window on, two from 25 and three
      from 60. */
  lemma PressureInNumbers(everyone: nat, cfg: Config)
    ensures Pressure(everyone, cfg) <= 3
    ensures Pressure(everyone, cfg) >= 1 <==> Reaches(everyone, 10, cfg.windowMs)
    ensures Pressure(everyone, cfg) >= 2 <==> Reaches(everyone, 25, cfg.windowMs)
    ensures Pressure(everyone, cfg) == 3 <==> Reaches(everyone, 60, cfg.windowMs)
  {
    ThresholdInNumbers(everyone, 10, cfg);
    ThresholdInNumbers(everyone, 25, cfg);
    ThresholdInNumbers(everyone, 60, cfg);
    ThresholdsGrow(10, 25, cfg);
    ThresholdsGrow(25, 60, cfg);
  }

  /** The smallest of what the history asks for, the operator's maximum and the solvable ceiling. */
  predicate IsLeast(bits: int, asked: int, cfg: Config) {
    && bits <= asked && bits <= cfg.maxBits && bits <= Ceiling(cfg)
    && (bits == asked || bits == cfg.maxBits || bits == Ceiling(cfg))
  }

  /** What a client is asked for: the base, the escalation of its own attempts in the window or of its
      range's, whichever are more, and the pressure of everyone's. An attempt of a newcomer's range
      counts against it as its own would. */
  lemma DifficultyInNumbers(history: seq<Attempt>, ip: string, subnet: string, now: int, cfg: Config)
    ensures var from := now - cfg.windowMs;
            var mine, all := |ByClient(history, ip, from)|, |ByAll(history, from)|;
            var range := if subnet == "" then 0 else |ByRange(history, subnet, from)|;
            var bits, pressure := DifficultyFromHistory(history, ip, subnet, now, cfg), Pressure(all, cfg);
            && (mine >= range ==> IsLeast(bits, cfg.baseBits + mine * cfg.escalateBits + pressure, cfg))
            && (mine <= range ==> IsLeast(bits, cfg.baseBits + range * cfg.escalateBits + pressure, cfg))
  {
    ClientInNumbers(history, ip, now - cfg.windowMs);
    RangeInNumbers(history, subnet, now - cfg.windowMs);
    AllInNumbers(history, now - cfg.windowMs);
    hide Pressure, Ceiling, CountSince;
  }

  // ---- pruned lists ----

  predicate Sorted(times: seq<int>) {
    forall i, j :: 0 <= i < j < |times| ==> times[i] <= times[j]
  }

  /** `list` is `times` with some leading entries, all before `cut`, dropped. */
  predicate RecentTail(list: seq<int>, times: seq<int>, cut: int) {
    && |list| <= |times|
    && list == times[|times| - |list|..]
    && forall i :: 0 <= i < |times| - |list| ==> times[i] < cut
  }

  function CountFrom(times: seq<int>, cut: int): nat {
    if times == [] then 0
    else CountFrom(times[..|times| - 1], cut) + (if times[|times| - 1] >= cut then 1 else 0)
  }

  lemma {:induction false} TimesCount(history: seq<Attempt>, who: Who, cut: int)
    ensures CountFrom(Times(history, who), cut) == CountSince(history, who, cut)
  {
    if history != [] {
      var n := |history| - 1;
      TimesCount(history[..n], who, cut);
      var before := Times(history[..n], who);
      if By(history[n], who) {
        assert (before + [history[n].at])[..|before|] == before;
      }
    }
  }

  lemma {:induction false} CountOfSplit(times: seq<int>, k: nat, cut: int)
    requires k <= |times|
    requires forall i :: 0 <= i < k ==> times[i] < cut
    requires forall i :: k <= i < |times| ==> times[i] >= cut
    ensures CountFrom(times, cut) == |times| - k
  {
    if times != [] {
      var n := |times| - 1;
      CountOfSplit(times[..n], if k <= n then k else n, cut);
    }
  }

  /** `prune`: shift the list while its head is before the window. */
  method Prune(list: seq<int>, now: int, windowMs: nat, ghost times: seq<int>, ghost cut: int)
    returns (pruned: seq<int>)
    requires Sorted(times) && RecentTail(list, times, cut) && cut <= now - windowMs
    ensures RecentTail(pruned, times, now - windowMs)
    ensures |pruned| == CountFrom(times, now - windowMs)
  {
    pruned := list;
    while |pruned| > 0 && pruned[0] < now - windowMs
      invariant |pruned| <= |times| && pruned == times[|times| - |pruned|..]
      invariant forall i :: 0 <= i < |times| - |pruned| ==> times[i] < now - windowMs
    {
      pruned := pruned[1..];
    }
    CountOfSplit(times, |times| - |pruned|, now - windowMs);
  }

  function Get(m: map<string, seq<int>>, key: string): seq<int> {
    if key in m then m[key] else []
  }

  lemma {:induction false} TimesAreSorted(history: seq<Attempt>, who: Who)
    requires forall i, j :: 0 <= i < j < |history| ==> history[i].at <= history[j].at
    ensures Sorted(Times(history, who))
    ensures forall t <- Times(history, who) :: history != [] && t <= history[|history| - 1].at
  {
    if history != [] {
      var n := |history| - 1;
      TimesAreSorted(history[..n], who);
      var before := Times(history[..n], who);
      forall i | 0 <= i < |before| ensures before[i] <= history[n].at {
        assert before[i] in before;
      }
    }
  }

  lemma TimesAppend(history: seq<Attempt>, a: Attempt, who: Who)
    ensures Times(history + [a], who) == if By(a, who) then Times(history, who) + [a.at] else Times(history, who)
  {
    assert (history + [a])[..|history|] == history;
  }

  lemma LaterCut(list: seq<int>, times: seq<int>, cut: int, cut': int)
    requires RecentTail(list, times, cut) && cut <= cut'
    ensures RecentTail(list, times, cut')
  {
  }

  lemma RecordedTail(list: seq<int>, times: seq<int>, cut: int, at: int)
    requires RecentTail(list, times, cut)
    ensures RecentTail(list + [at], times + [at], cut)
  {
  }

  // ---- maps of pruned lists ----

  datatype Kind = Clients | Ranges

  function Key(kind: Kind, key: string): Who {
    if kind.Clients? then Client(key) else Range(key)
  }

  /** No list is kept for the subnet that could not be derived. */
  predicate Kept(kind: Kind, key: string) {
    kind.Clients? || key != ""
  }

  ghost predicate Stand(m: map<string, seq<int>>, history: seq<Attempt>, kind: Kind, cut: int) {
    forall key :: Kept(kind, key) ==> RecentTail(Get(m, key), Times(history, Key(kind, key)), cut)
  }

  lemma StandLater(m: map<string, seq<int>>, history: seq<Attempt>, kind: Kind, cut: int, cut': int)
    requires Stand(m, history, kind, cut) && cut <= cut'
    ensures Stand(m, history, kind, cut')
  {
    forall key | Kept(kind, key) ensures RecentTail(Get(m, key), Times(history, Key(kind, key)), cut') {
      LaterCut(Get(m, key), Times(history, Key(kind, key)), cut, cut');
    }
  }

  lemma StandUpdated(m: map<string, seq<int>>, history: seq<Attempt>, kind: Kind, cut: int, key: string, list: seq<int>)
    requires Stand(m, history, kind, cut) && RecentTail(list, Times(history, Key(kind, key)), cut)
    ensures Stand(m[key := list], history, kind, cut)
  {
    hide RecentTail, Times;
  }

  /** Dropping an empty list changes nothing: a missing list reads as the empty one. */
  lemma StandDropped(m: map<string, seq<int>>, history: seq<Attempt>, kind: Kind, cut: int, key: string)
    requires Stand(m, history, kind, cut) && RecentTail([], Times(history, Key(kind, key)), cut)
    ensures Stand(m - {key}, history, kind, cut)
  {
    hide RecentTail, Times;
  }

  /** An attempt goes onto its own list and no other. */
  lemma StandRecorded(m: map<string, seq<int>>, history: seq<Attempt>, kind: Kind, cut: int, a: Attempt, key: string)
    requires Stand(m, history, kind, cut) && By(a, Key(kind, key)) && Kept(kind, key)
    ensures Stand(m[key := Get(m, key) + [a.at]], history + [a], kind, cut)
  {
    hide RecentTail, Times;
    var m' := m[key := Get(m, key) + [a.at]];
    forall k | Kept(kind, k) ensures RecentTail(Get(m', k), Times(history + [a], Key(kind, k)), cut) {
      TimesAppend(history, a, Key(kind, k));
      if k == key {
        RecordedTail(Get(m, k), Times(history, Key(kind, k)), cut, a.at);
      } else {
        assert !By(a, Key(kind, k));
        assert RecentTail(Get(m, k), Times(history, Key(kind, k)), cut);
      }
    }
  }

  lemma StandUnrecorded(m: map<string, seq<int>>, history: seq<Attempt>, cut: int, a: Attempt)
    requires Stand(m, history, Ranges, cut) && a.subnet == ""
    ensures Stand(m, history + [a], Ranges, cut)
  {
    hide RecentTail, Times;
    forall k | Kept(Ranges, k) ensures RecentTail(Get(m, k), Times(history + [a], Key(Ranges, k)), cut) {
      TimesAppend(history, a, Key(Ranges, k));
      assert RecentTail(Get(m, k), Times(history, Key(Ranges, k)), cut);
    }
  }

  predicate Chronological(history: seq<Attempt>, clock: int) {
    && (forall i, j :: 0 <= i < j < |history| ==> history[i].at <= history[j].at)
    && (forall a <- history :: a.at <= clock)
  }

  lemma ChronologicalAppend(history: seq<Attempt>, clock: int, a: Attempt)
    requires Chronological(history, clock) && a.at == clock
    ensures Chronological(history + [a], clock)
  {
  }

  // ---- the object ----

  const GC_THRESHOLD := 5000

  class Escalation {
    const cfg: Config
    var perIp: map<string, seq<int>>
    var perSubnet: map<string, seq<int>>
    var globalReqs: seq<int>
    /** Every attempt ever recorded, and the latest clock reading seen. */
    ghost var history: seq<Attempt>
    ghost var clock: int

    ghost predicate Valid()
      reads this
    {
      && Chronological(history, clock)
      && Stand(perIp, history, Clients, clock - cfg.windowMs)
      && Stand(perSubnet, history, Ranges, clock - cfg.windowMs)
      && RecentTail(globalReqs, Times(history, Everyone), clock - cfg.windowMs)
    }

    constructor (cfg: Config, now: int)
      ensures Valid() && this.cfg == cfg && history == [] && clock == now
    {
      this.cfg := cfg;
      perIp, perSubnet, globalReqs := map[], map[], [];
      history, clock := [], now;
    }

    /** What every list stands for is unchanged by the clock moving on. */
    ghost method Advance(now: int)
      requires Valid() && clock <= now
      modifies this`clock
      ensures Valid() && clock == now
    {
      hide Stand, Times;
      StandLater(perIp, history, Clients, clock - cfg.windowMs, now - cfg.windowMs);
      StandLater(perSubnet, history, Ranges, clock - cfg.windowMs, now - cfg.windowMs);
      clock := now;
    }

    /** One stored list pruned: still a tail, and as long as the history says. */
    method Pruned(list: seq<int>, ghost who: Who, now: int) returns (pruned: seq<int>)
      requires Chronological(history, now) && RecentTail(list, Times(history, who), now - cfg.windowMs)
      ensures RecentTail(pruned, Times(history, who), now - cfg.windowMs)
      ensures |pruned| == CountSince(history, who, now - cfg.windowMs)
    {
      hide Times, CountSince, RecentTail;
      TimesAreSorted(history, who);
      TimesCount(history, who, now - cfg.windowMs);
      pruned := Prune(list, now, cfg.windowMs, Times(history, who), now - cfg.windowMs);
    }

    /** The next difficulty for a client. The lists it meets are pruned in place; the answer is
        the one the full history gives. */
    method DifficultyFor(ip: string, subnet: string, now: int) returns (bits: nat)
      requires Valid() && clock <= now
      modifies this`perIp, this`perSubnet, this`globalReqs, this`clock
      ensures Valid() && clock == now
      ensures bits == DifficultyFromHistory(history, ip, subnet, now, cfg)
    {
      hide Times, CountSince, RecentTail, DifficultyOf, Chronological;
      Advance(now);
      assert Kept(Clients, ip);
      var mine := Pruned(Get(perIp, ip), Key(Clients, ip), now);
      if ip in perIp {
        StandUpdated(perIp, history, Clients, now - cfg.windowMs, ip, mine);
        perIp := perIp[ip := mine];
      }
      globalReqs := Pruned(globalReqs, Everyone, now);
      var range := [];
      if subnet != "" {
        assert Kept(Ranges, subnet);
        range := Pruned(Get(perSubnet, subnet), Key(Ranges, subnet), now);
        if subnet in perSubnet {
          StandUpdated(perSubnet, history, Ranges, now - cfg.windowMs, subnet, range);
          perSubnet := perSubnet[subnet := range];
        }
      }
      bits := DifficultyOf(|mine|, |range|, |globalReqs|, cfg);
    }

    /** Record one verified attempt, dropping emptied client lists when there are many. */
    method RecordRequest(ip: string, subnet: string, now: int)
      requires Valid() && clock <= now
      modifies this
      ensures Valid() && clock == now
      ensures history == old(history) + [Attempt(ip, subnet, now)]
    {
      hide Times, CountSince, RecentTail, Stand, Chronological;
      Advance(now);
      ghost var a := Attempt(ip, subnet, now);
      ghost var cut := now - cfg.windowMs;
      if subnet != "" {
        StandAt(perSubnet, history, Ranges, cut, subnet);
        var range := Pruned(Get(perSubnet, subnet), Key(Ranges, subnet), now);
        StandUpdated(perSubnet, history, Ranges, cut, subnet, range);
        perSubnet := perSubnet[subnet := range];
        StandRecorded(perSubnet, history, Ranges, cut, a, subnet);
        perSubnet := perSubnet[subnet := range + [now]];
      } else {
        StandUnrecorded(perSubnet, history, cut, a);
      }
      StandRecorded(perIp, history, Clients, cut, a, ip);
      perIp := perIp[ip := Get(perIp, ip) + [now]];
      RecordedTail(globalReqs, Times(history, Everyone), cut, now);
      TimesAppend(history, a, Everyone);
      globalReqs := globalReqs + [now];
      ChronologicalAppend(history, now, a);
      history := history + [a];
      if |perIp| > GC_THRESHOLD {
        DropEmptied(now);
      }
    }

    method DropEmptied(now: int)
      requires Valid() && clock == now
      modifies this`perIp
      ensures Valid()
    {
      hide Times, CountSince, RecentTail, Stand, Chronological;
      var todo := perIp.Keys;
      while todo != {}
        invariant Valid() && todo <= perIp.Keys
      {
        var k :| k in todo;
        StandAt(perIp, history, Clients, now - cfg.windowMs, k);
        var v := Pruned(perIp[k], Key(Clients, k), now);
        if v == [] {
          StandDropped(perIp, history, Clients, now - cfg.windowMs, k);
          perIp := perIp - {k};
        } else {
          StandUpdated(perIp, history, Clients, now - cfg.windowMs, k, v);
          perIp := perIp[k := v];
        }
        todo := todo - {k};
      }
    }
  }

  lemma StandAt(m: map<string, seq<int>>, history: seq<Attempt>, kind: Kind, cut: int, key: string)
    requires Stand(m, history, kind, cut) && Kept(kind, key)
    ensures RecentTail(Get(m, key), Times(history, Key(kind, key)), cut)
  {
  }
}
