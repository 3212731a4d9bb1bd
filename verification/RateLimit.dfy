/** The fixed-window rate limiter: a bounded, lazily swept table, against a limiter that keeps
    every window for ever. */
module RateLimit {
  import opened Wrappers

  const MAX_TRACKED_KEYS := 20_000

  datatype Window = Window(startedAt: int, count: nat)

  datatype Verdict = Verdict(allowed: bool, retryAfterSeconds: int)

  datatype Limits = Limits(windowSeconds: int, max: int)
  {
    predicate Sane() { windowSeconds >= 1 && max >= 1 }
  }

  // ---- the limiter without a table ----

  /** One check and what it was told. */
  datatype Asked = Asked(key: string, at: int, allowed: bool)

  predicate RolledOver(w: Option<Window>, at: int, lim: Limits) {
    w.None? || at - w.value.startedAt >= lim.windowSeconds
  }

  function VerdictOn(w: Option<Window>, at: int, lim: Limits): Verdict {
    if RolledOver(w, at, lim) || w.value.count < lim.max then Verdict(true, 0)
    else
      var left := lim.windowSeconds - (at - w.value.startedAt);
      Verdict(false, if left > 1 then left else 1)
  }

  function Counted(w: Option<Window>, at: int, lim: Limits): (next: Option<Window>)
    ensures next.Some?
  {
    if RolledOver(w, at, lim) then Some(Window(at, 1))
    else if w.value.count < lim.max then Some(Window(w.value.startedAt, w.value.count + 1))
    else w
  }

  /** The window of `key` after a history of checks, every one of them remembered. */
  function WindowOf(log: seq<Asked>, key: string, lim: Limits): Option<Window> {
    if log == [] then None
    else
      var before := WindowOf(log[..|log| - 1], key, lim);
      var last := log[|log| - 1];
      if last.key == key then Counted(before, last.at, lim) else before
  }

  /** A refusal's `retryAfterSeconds` is exact: until then the key is refused, then allowed. */
  lemma RetryAfterIsExact(w: Option<Window>, at: int, later: int, lim: Limits)
    requires lim.Sane() && !VerdictOn(w, at, lim).allowed && later >= at
    ensures Counted(w, at, lim) == w
    ensures VerdictOn(w, later, lim).allowed <==> later >= at + VerdictOn(w, at, lim).retryAfterSeconds
  {
  }

  predicate Monotone(log: seq<Asked>) {
    forall i, j :: 0 <= i < j < |log| ==> log[i].at <= log[j].at
  }

  /** Every answer to `key` in the log is the one the remembered windows give. */
  predicate Faithful(log: seq<Asked>, key: string, lim: Limits) {
    forall n :: 0 <= n < |log| && log[n].key == key ==>
                  log[n].allowed == VerdictOn(WindowOf(log[..n], key, lim), log[n].at, lim).allowed
  }

  predicate Approves(c: Asked, key: string, from: int, until: int) {
    c.key == key && c.allowed && from <= c.at < until
  }

  function Approvals(log: seq<Asked>, key: string, from: int, until: int): nat {
    if log == [] then 0
    else
      Approvals(log[..|log| - 1], key, from, until)
      + if Approves(log[|log| - 1], key, from, until) then 1 else 0
  }

  /** With the clock still before `until`: approvals since the current window opened are its
      count, and one more window at most lies within a window's length before it. */
  lemma {:induction false} ApprovalsByWindow(log: seq<Asked>, key: string, from: int, until: int, lim: Limits)
    requires lim.Sane() && Monotone(log) && Faithful(log, key, lim)
    requires forall c <- log :: c.at < until
    ensures var w := WindowOf(log, key, lim);
            && (w.None? ==> Approvals(log, key, from, until) == 0)
            && (w.Some? ==>
                  && 1 <= w.value.count <= lim.max && (log != [] && w.value.startedAt <= log[|log| - 1].at)
                  && (from >= w.value.startedAt ==> Approvals(log, key, from, until) <= w.value.count)
                  && (from >= w.value.startedAt + lim.windowSeconds ==> Approvals(log, key, from, until) == 0)
                  && (from > w.value.startedAt - lim.windowSeconds ==>
                        Approvals(log, key, from, until) <= lim.max + w.value.count))
  {
    if log != [] {
      var init, last := log[..|log| - 1], log[|log| - 1];
      assert forall n :: 0 <= n < |init| ==> init[..n] == log[..n];
      ApprovalsByWindow(init, key, from, until, lim);
      assert log[..|log| - 1] == init;
    }
  }

  /** No key that is answered from its window gets more than twice the maximum in any interval
      as long as a window. */
  lemma {:induction false} AtMostTwiceTheMaximum(log: seq<Asked>, key: string, from: int, lim: Limits)
    requires lim.Sane() && Monotone(log) && Faithful(log, key, lim)
    ensures Approvals(log, key, from, from + lim.windowSeconds) <= 2 * lim.max
  {
    var until := from + lim.windowSeconds;
    if log != [] {
      var init, last := log[..|log| - 1], log[|log| - 1];
      if last.at >= until {
        assert forall n :: 0 <= n < |init| ==> init[..n] == log[..n];
        AtMostTwiceTheMaximum(init, key, from, lim);
      } else {
        forall c | c in log ensures c.at < until {
          var i :| 0 <= i < |log| && log[i] == c;
        }
        ApprovalsByWindow(log, key, from, until, lim);
      }
    }
  }

  /** The current window of a key has at least as many approvals in it as it has counted. */
  lemma {:induction false} WindowHasItsApprovals(log: seq<Asked>, key: string, from: int, until: int, lim: Limits)
    requires lim.Sane() && Monotone(log) && Faithful(log, key, lim)
    requires forall c <- log :: c.at < until
    ensures var w := WindowOf(log, key, lim);
            && (w.Some? ==> log != [] && w.value.startedAt <= log[|log| - 1].at)
            && (w.Some? && from <= w.value.startedAt ==> Approvals(log, key, from, until) >= w.value.count)
  {
    if log != [] {
      var init, last := log[..|log| - 1], log[|log| - 1];
      assert forall n :: 0 <= n < |init| ==> init[..n] == log[..n];
      WindowHasItsApprovals(init, key, from, until, lim);
      assert log[..|log| - 1] == init;
    }
  }

  /** A key answered from its windows is refused only when it has had the maximum in the window's length
      that ends with the refusal. */
  lemma RefusedOnlyWhenFull(log: seq<Asked>, key: string, n: nat, lim: Limits)
    requires lim.Sane() && Monotone(log) && Faithful(log, key, lim)
    requires n < |log| && log[n].key == key && !log[n].allowed
    ensures Approvals(log[..n], key, log[n].at - lim.windowSeconds + 1, log[n].at + 1) >= lim.max
  {
    var before := log[..n];
    assert forall i :: 0 <= i < n ==> before[..i] == log[..i];
    forall c | c in before ensures c.at < log[n].at + 1 {
      var i :| 0 <= i < n && before[i] == c;
    }
    WindowHasItsApprovals(before, key, log[n].at - lim.windowSeconds + 1, log[n].at + 1, lim);
    hide Approvals, WindowOf;
  }

  /** The table and the history agree on a key, or both would start a new window. */
  predicate Agrees(windows: map<string, Window>, log: seq<Asked>, key: string, clock: int, lim: Limits) {
    if key in windows then WindowOf(log, key, lim) == Some(windows[key])
    else RolledOver(WindowOf(log, key, lim), clock, lim)
  }

  // ---- the object ----

  class RateLimiter {
    const lim: Limits
    var windows: map<string, Window>
    var nextSweep: int
    /** Every check made, the keys that ever met a full table, and the last clock reading. */
    ghost var log: seq<Asked>
    ghost var met: set<string>
    ghost var clock: int

    ghost predicate Valid()
      reads this
    {
      && lim.Sane()
      && |windows| <= MAX_TRACKED_KEYS
      && AllAgree(windows, met, log, clock, lim)
    }

    constructor (windowSeconds: int, max: int, at: int)
      ensures Valid() && log == [] && met == {} && clock == at
      ensures lim == Limits(if windowSeconds > 1 then windowSeconds else 1, if max > 1 then max else 1)
    {
      lim := Limits(if windowSeconds > 1 then windowSeconds else 1, if max > 1 then max else 1);
      windows := map[];
      nextSweep := at + if windowSeconds > 1 then windowSeconds else 1;
      log, met, clock := [], {}, at;
    }

    /** Sweeping is invisible: only windows that have rolled over go, and they would be started
        afresh in any case. */
    method Sweep(at: int)
      requires Valid() && clock == at
      modifies this`windows, this`nextSweep
      ensures Valid() && nextSweep == at + lim.windowSeconds
      ensures windows.Keys == set key | key in old(windows) && at - old(windows)[key].startedAt < lim.windowSeconds
    {
      var kept := windows;
      var todo := windows.Keys;
      while todo != {}
        invariant kept.Keys <= windows.Keys
        invariant forall key :: key in kept ==> kept[key] == windows[key]
        invariant forall key :: key in kept
                                <==> key in windows && (key in todo || at - windows[key].startedAt < lim.windowSeconds)
        decreases |todo|
      {
        var key :| key in todo;
        if key in kept && at - kept[key].startedAt >= lim.windowSeconds {
          kept := kept - {key};
        }
        todo := todo - {key};
      }
      SmallerTable(kept, windows);
      assert forall key :: key !in met ==> Agrees(windows, log, key, at, lim);
      hide WindowOf, Faithful, Monotone;
      windows := kept;
      nextSweep := at + lim.windowSeconds;
    }

    /** Answer from the table: as its window for the key says, or, when there is none and no room
        for one, allowed without being counted. */
    method Answer(key: string, at: int) returns (v: Verdict)
      requires lim.Sane() && |windows| <= MAX_TRACKED_KEYS
      modifies this`windows, this`met
      ensures |windows| <= MAX_TRACKED_KEYS
      ensures FromTable(old(windows), old(met), windows, met, key, at, v, lim)
    {
      v := Verdict(true, 0);
      if key !in windows || at - windows[key].startedAt >= lim.windowSeconds {
        if key !in windows && |windows| >= MAX_TRACKED_KEYS {
          met := met + {key};
        } else {
          OneMore(windows, key, Window(at, 1));
          windows := windows[key := Window(at, 1)];
        }
      } else if windows[key].count < lim.max {
        OneMore(windows, key, Window(windows[key].startedAt, windows[key].count + 1));
        windows := windows[key := Window(windows[key].startedAt, windows[key].count + 1)];
      } else {
        assert windows == windows[key := windows[key]];
        var left := lim.windowSeconds - (at - windows[key].startedAt);
        v := Verdict(false, if left > 1 then left else 1);
      }
    }

    /** The verdict is the naive limiter's for every key that never met a full table, and a key
        meets a full table only by being allowed. */
    method Check(key: string, at: int) returns (v: Verdict)
      requires Valid() && clock <= at
      modifies this
      ensures Valid() && clock == at && log == old(log) + [Asked(key, at, v.allowed)]
      ensures met == old(met) || (met == old(met) + {key} && v == Verdict(true, 0) && |windows| == 20_000)
      ensures key !in met ==> v == VerdictOn(WindowOf(old(log), key, lim), at, lim)
    {
      hide AllAgree, WindowOf, VerdictOn, Counted, Lookup;
      Later(windows, met, log, clock, at, lim);
      clock := at;
      if at >= nextSweep || |windows| > MAX_TRACKED_KEYS {
        Sweep(at);
      }
      ghost var before, metBefore := windows, met;
      v := Answer(key, at);
      AnswerKeeps(before, metBefore, windows, met, log, Asked(key, at, v.allowed), v, lim);
      log := log + [Asked(key, at, v.allowed)];
    }

    /** Over the limiter's whole life, a key that never met a full table was allowed at most
        twice the maximum in any interval as long as a window. */
    lemma ApprovedAtMostTwiceTheMaximum(key: string, from: int)
      requires Valid() && key !in met
      ensures Approvals(log, key, from, from + lim.windowSeconds) <= 2 * lim.max
    {
      AtMostTwiceTheMaximum(log, key, from, lim);
    }

    /** ... and refused only when it had been allowed the maximum in the window's length before: a key
        that asks less often is never refused. */
    lemma FewAsksAreNeverRefused(key: string, n: nat)
      requires Valid() && key !in met && n < |log| && log[n].key == key && !log[n].allowed
      ensures Approvals(log[..n], key, log[n].at - lim.windowSeconds + 1, log[n].at + 1) >= lim.max
    {
      RefusedOnlyWhenFull(log, key, n, lim);
    }
  }

  function Lookup(windows: map<string, Window>, key: string): Option<Window> {
    if key in windows then Some(windows[key]) else None
  }

  /** A missing window and one that has rolled over are answered and replaced alike. */
  lemma SameAnswer(windows: map<string, Window>, log: seq<Asked>, key: string, at: int, lim: Limits)
    requires Agrees(windows, log, key, at, lim)
    ensures var w, w' := Lookup(windows, key), WindowOf(log, key, lim);
            VerdictOn(w, at, lim) == VerdictOn(w', at, lim) && Counted(w, at, lim) == Counted(w', at, lim)
  {
  }

  /** An answer: as the table's window says, or untracked because there was no room. */
  predicate FromTable(before: map<string, Window>, metBefore: set<string>,
                      windows: map<string, Window>, met: set<string>,
                      key: string, at: int, v: Verdict, lim: Limits) {
    var w := Lookup(before, key);
    || (met == metBefore && v == VerdictOn(w, at, lim) && windows == before[key := Counted(w, at, lim).value])
    || (met == metBefore + {key} && v == Verdict(true, 0) && windows == before && |windows| == MAX_TRACKED_KEYS)
  }

  ghost predicate AllAgree(windows: map<string, Window>, met: set<string>, log: seq<Asked>, clock: int, lim: Limits) {
    && Monotone(log) && (log != [] ==> log[|log| - 1].at <= clock)
    && forall key :: key !in met ==> Agrees(windows, log, key, clock, lim) && Faithful(log, key, lim)
  }

  lemma AnswerKeeps(before: map<string, Window>, metBefore: set<string>, windows: map<string, Window>, met: set<string>,
                    log: seq<Asked>, c: Asked, v: Verdict, lim: Limits)
    requires AllAgree(before, metBefore, log, c.at, lim) && c.allowed == v.allowed
    requires FromTable(before, metBefore, windows, met, c.key, c.at, v, lim)
    ensures AllAgree(windows, met, log + [c], c.at, lim)
    ensures c.key !in met ==> v == VerdictOn(WindowOf(log, c.key, lim), c.at, lim)
  {
    hide WindowOf, Faithful, Monotone, VerdictOn, Counted, Agrees;
    forall key | key !in met
      ensures Agrees(windows, log + [c], key, c.at, lim) && Faithful(log + [c], key, lim)
      ensures key == c.key ==> v == VerdictOn(WindowOf(log, c.key, lim), c.at, lim)
    {
      SameAnswer(before, log, key, c.at, lim);
      AgreesOn(before, windows, log, c, key, lim);
    }
    LogStep(log, c, c.key, lim);
  }

  lemma Later(windows: map<string, Window>, met: set<string>, log: seq<Asked>, clock: int, at: int, lim: Limits)
    requires AllAgree(windows, met, log, clock, lim) && clock <= at
    ensures AllAgree(windows, met, log, at, lim)
  {
    hide WindowOf, Faithful, Monotone;
    forall key | key !in met ensures Agrees(windows, log, key, at, lim) {
      assert Agrees(windows, log, key, clock, lim);
    }
  }

  lemma AgreesOn(before: map<string, Window>, windows: map<string, Window>,
                 log: seq<Asked>, c: Asked, key: string, lim: Limits)
    requires Agrees(before, log, key, c.at, lim) && Faithful(log, key, lim)
    requires key != c.key ==> Lookup(windows, key) == Lookup(before, key)
    requires key == c.key ==> Lookup(windows, key) == Counted(WindowOf(log, key, lim), c.at, lim)
                              && c.allowed == VerdictOn(WindowOf(log, key, lim), c.at, lim).allowed
    ensures Agrees(windows, log + [c], key, c.at, lim) && Faithful(log + [c], key, lim)
  {
    LogStep(log, c, key, lim);
    hide WindowOf, Faithful, Counted, VerdictOn;
  }

  lemma OneMore(windows: map<string, Window>, key: string, w: Window)
    ensures |windows[key := w]| == |windows| + if key in windows then 0 else 1
  {
    assert windows[key := w].Keys == windows.Keys + {key};
  }

  lemma SmallerTable(kept: map<string, Window>, table: map<string, Window>)
    requires kept.Keys <= table.Keys
    ensures |kept| <= |table|
  {
    SubsetIsSmaller(kept.Keys, table.Keys);
  }

  lemma {:induction false} SubsetIsSmaller(a: set<string>, b: set<string>)
    requires a <= b
    ensures |a| <= |b|
  {
    if a != {} {
      var x :| x in a;
      SubsetIsSmaller(a - {x}, b - {x});
    }
  }

  lemma LogStep(log: seq<Asked>, c: Asked, key: string, lim: Limits)
    ensures WindowOf(log + [c], key, lim)
            == if c.key == key then Counted(WindowOf(log, key, lim), c.at, lim) else WindowOf(log, key, lim)
    ensures Faithful(log, key, lim)
            && (c.key == key ==> c.allowed == VerdictOn(WindowOf(log, key, lim), c.at, lim).allowed)
            ==> Faithful(log + [c], key, lim)
    ensures Monotone(log) && (log != [] ==> log[|log| - 1].at <= c.at) ==> Monotone(log + [c])
  {
    assert (log + [c])[..|log|] == log;
    forall n | 0 <= n <= |log| ensures (log + [c])[..n] == log[..n] {}
  }
}
