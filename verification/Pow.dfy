/** The proof-of-work gate: challenges issued, solved by the browser and verified. */
module Pow {
  import opened Wrappers
  import opened JsNumber
  import opened LeadingZeros
  import opened PowBudget
  import opened Difficulty
  import opened Hex
  import opened Strings
  import opened Challenges
  import PowWorker
  import S = Sha256

  /** 32 bytes of HMAC-SHA256. */
  type Mac = m: seq<Byte> | |m| == 32 witness seq(32, _ => 0)

  /** The HMAC under the secret salt of what a challenge says and whom it is for. */
  type Signing = (seq<Byte>, nat, int, string) -> Mac

  /** `sig` is text, whatever was sent. */
  datatype Challenge = Challenge(seed: seq<Byte>, difficulty: nat, exp: int, sig: string)

  datatype Solution = Solution(challenge: Challenge, nonce: Option<seq<Byte>>)

  datatype Verdict = Accepted | Missing | Expired | BadDifficulty | BadSignature | NotMet | AlreadyUsed

  /** Unix seconds of a millisecond clock. */
  function Seconds(nowMs: int): int { nowMs / 1000 }

  function Issued(mac: Signing, bits: nat, seed: seq<Byte>, ip: string, nowMs: int, cfg: Config): Challenge {
    var exp := Seconds(nowMs) + TtlSecondsFor(bits, cfg.baseBits, cfg.ttlSeconds);
    Challenge(seed, bits, exp, HexText(mac(seed, bits, exp, ip)))
  }

  predicate InRange(difficulty: nat, cfg: Config) {
    cfg.baseBits - 1 <= difficulty <= cfg.maxBits
  }

  /** The bytes are compared, and not the text. */
  predicate Genuine(mac: Signing, c: Challenge, ip: string) {
    HexDecode(c.sig) == mac(c.seed, c.difficulty, c.exp, ip)
  }

  /** So a signature is taken in either case and with anything behind it that is no whole pair of
      digits. */
  lemma GenuineTexts(mac: Signing, c: Challenge, ip: string)
    ensures Genuine(mac, c, ip) <==>
              && 64 <= |c.sig| && Lower(c.sig[..64]) == HexText(mac(c.seed, c.difficulty, c.exp, ip))
              && !HasPair(c.sig[64..])
  {
    AcceptedTexts(c.sig, mac(c.seed, c.difficulty, c.exp, ip));
  }

  // ---- what reaches the table of burned challenges ----

  /** Every burn was of the code of a challenge with that expiry. */
  ghost predicate AllGenuine(mac: Signing, events: seq<Event>) {
    forall e <- events :: e.Burn? ==>
      exists seed, difficulty, ip :: HexDecode(e.sig) == mac(seed, difficulty, e.exp, ip)
  }

  /** What one burn of a text does to the table, when it has the purge before it. */
  function BurnSteps(c: Challenge, now: int, purgeLands: bool): seq<Event> {
    (if purgeLands then [Purge(now)] else []) + [Burn(c.sig, c.exp, now)]
  }

  lemma BurnStaysGenuine(mac: Signing, events: seq<Event>, c: Challenge, ip: string, now: int, purgeLands: bool)
    requires AllGenuine(mac, events) && Genuine(mac, c, ip)
    ensures AllGenuine(mac, events + BurnSteps(c, now, purgeLands))
  {
  }

  /** The server's own count of leading zero bits. */
  method LeadingZeroBits(buf: seq<Byte>) returns (bits: nat)
    ensures CountsZeros(buf, bits)
  {
    bits := 0;
    var i := 0;
    while i < |buf|
      invariant i <= |buf| && bits == 8 * i
      invariant forall j :: 0 <= j < i ==> buf[j] == 0
    {
      var byte := buf[i];
      if byte == 0 {
        bits := bits + 8;
        i := i + 1;
        continue;
      }
      var zeros := ZerosOfByte(byte);
      FirstByteCounts(buf, i, zeros);
      return bits + zeros;
    }
    AllZeroCounts(buf);
  }

  class Gate {
    const cfg: Config
    const mac: Signing
    const escalation: Escalation
    const spent: SpentTable

    ghost predicate Valid()
      reads this, escalation, spent
    {
      && escalation.Valid() && escalation.cfg == cfg
      && spent.Valid() && AllGenuine(mac, spent.events)
    }

    constructor (cfg: Config, mac: Signing, nowMs: int)
      ensures Valid() && fresh(escalation) && fresh(spent) && this.cfg == cfg && this.mac == mac
      ensures escalation.history == [] && escalation.clock == nowMs && spent.events == []
    {
      this.cfg, this.mac := cfg, mac;
      escalation := new Escalation(cfg, nowMs);
      spent := new SpentTable();
    }

    method IssueChallenge(ip: string, subnet: string, seed: seq<Byte>, nowMs: int) returns (c: Challenge)
      requires Valid() && escalation.clock <= nowMs
      modifies escalation
      ensures Valid() && escalation.clock == nowMs && escalation.history == old(escalation.history)
      ensures c == Issued(mac, DifficultyFromHistory(escalation.history, ip, subnet, nowMs, cfg), seed, ip, nowMs, cfg)
    {
      ghost var history := escalation.history;
      var difficulty := escalation.DifficultyFor(ip, subnet, nowMs);
      var exp := Seconds(nowMs) + TtlSecondsFor(difficulty, cfg.baseBits, cfg.ttlSeconds);
      return Challenge(seed, difficulty, exp, HexText(mac(seed, difficulty, exp, ip)));
    }

    /** Everything but the burn. */
    ghost predicate Passes(s: Solution, ip: string, nowMs: int) {
      var c := s.challenge;
      Counts(s, ip, nowMs) && PowWorker.Answers(c.seed, s.nonce.value, c.difficulty)
    }

    /** Alive, in range and one of ours for this client. */
    ghost predicate Counts(s: Solution, ip: string, nowMs: int) {
      var c := s.challenge;
      && s.nonce.Some? && c.seed != [] && c.exp >= Seconds(nowMs)
      && InRange(c.difficulty, cfg) && Genuine(mac, c, ip)
    }

    /** What passes, in the fields of the request. */
    lemma PassesInFields(s: Solution, ip: string, nowMs: int)
      ensures Passes(s, ip, nowMs) <==>
                var c := s.challenge;
                && s.nonce.Some? && c.seed != [] && c.exp >= nowMs / 1000
                && cfg.baseBits <= c.difficulty + 1 && c.difficulty <= cfg.maxBits
                && 64 <= |c.sig| && Lower(c.sig[..64]) == HexText(mac(c.seed, c.difficulty, c.exp, ip))
                && !HasPair(c.sig[64..])
                && c.difficulty <= 256
                && Value(S.Digest(c.seed + [0x3a] + s.nonce.value)) < Pow2(256 - c.difficulty)
    {
      hide PowWorker.Answers, Genuine, HasPair, Lower, HexText, S.Digest, Value, Pow2;
      GenuineTexts(mac, s.challenge, ip);
      if s.nonce.Some? {
        PowWorker.AnswerInNumbers(s.challenge.seed, s.nonce.value, s.challenge.difficulty);
      }
    }

    /** A solution passes however its signature is written. */
    lemma RespelledPasses(s: Solution, text: string, ip: string, nowMs: int)
      requires HexDecode(text) == HexDecode(s.challenge.sig)
      ensures Passes(s.(challenge := s.challenge.(sig := text)), ip, nowMs) == Passes(s, ip, nowMs)
    {
      assert Genuine(mac, s.challenge.(sig := text), ip) == Genuine(mac, s.challenge, ip);
      hide Genuine, PowWorker.Answers;
    }

    /** Burn a solution that was verified before, without a look at its expiry. */
    method SpendVerifiedSolution(s: Solution, ghost ip: string, nowMs: int, purgeLands: bool) returns (won: bool)
      requires Valid() && Genuine(mac, s.challenge, ip)
      modifies spent
      ensures Valid()
      ensures spent.events == old(spent.events) + BurnSteps(s.challenge, Seconds(nowMs), purgeLands)
      ensures won <==> Wins(spent.events, |spent.events| - 1)
    {
      BurnStaysGenuine(mac, spent.events, s.challenge, ip, Seconds(nowMs), purgeLands);
      hide *;
      won := spent.Spend(s.challenge.sig, s.challenge.exp, Seconds(nowMs), purgeLands);
    }

    /** The checks that write nothing to the ledger. An attempt is counted as soon as the signature
        shows the challenge is one of ours for this client, and never before. */
    method CheckSolution(s: Solution, ip: string, subnet: string, nowMs: int) returns (verdict: Verdict)
      requires Valid() && escalation.clock <= nowMs
      modifies escalation
      ensures Valid() && escalation.clock <= nowMs
      ensures escalation.history
           == old(escalation.history) + (if Counts(s, ip, nowMs) then [Attempt(ip, subnet, nowMs)] else [])
      ensures verdict.Accepted? <==> Passes(s, ip, nowMs)
      ensures verdict.Missing? <==> s.nonce.None? || s.challenge.seed == []
      ensures verdict.Expired? <==> !verdict.Missing? && s.challenge.exp < Seconds(nowMs)
      ensures verdict.BadDifficulty? <==>
                !verdict.Missing? && !verdict.Expired? && !InRange(s.challenge.difficulty, cfg)
      ensures verdict.NotMet? <==> Counts(s, ip, nowMs) && !Passes(s, ip, nowMs)
      ensures !verdict.AlreadyUsed?
    {
      hide AllGenuine, HexDecode, S.Digest, PowWorker.Message, SpentTable.Valid;
      var c := s.challenge;
      if s.nonce.None? || c.seed == [] { return Missing; }
      if c.exp < Seconds(nowMs) { return Expired; }
      if c.difficulty < cfg.baseBits - 1 || c.difficulty > cfg.maxBits { return BadDifficulty; }
      if HexDecode(c.sig) != mac(c.seed, c.difficulty, c.exp, ip) { return BadSignature; }
      escalation.RecordRequest(ip, subnet, nowMs);
      var digest := S.Digest(PowWorker.Message(c.seed, s.nonce.value));
      var bits := LeadingZeroBits(digest);
      if bits < c.difficulty { return NotMet; }
      return Accepted;
    }

    /** Verify a solution and, last of all and if asked, burn the text that was sent. */
    method VerifySolution(s: Solution, ip: string, subnet: string, nowMs: int, spend: bool, purgeLands: bool)
      returns (verdict: Verdict)
      requires Valid() && escalation.clock <= nowMs
      modifies escalation, spent
      ensures Valid() && escalation.clock <= nowMs
      ensures escalation.history
           == old(escalation.history) + (if Counts(s, ip, nowMs) then [Attempt(ip, subnet, nowMs)] else [])
      ensures spent.events
           == old(spent.events)
              + (if spend && Passes(s, ip, nowMs) then BurnSteps(s.challenge, Seconds(nowMs), purgeLands) else [])
      ensures verdict.Accepted? <==> Passes(s, ip, nowMs) && (spend ==> Wins(spent.events, |spent.events| - 1))
      ensures !spend ==> spent.used == old(spent.used)
      ensures verdict.AlreadyUsed? <==>
                spend && Passes(s, ip, nowMs) && !Wins(spent.events, |spent.events| - 1)
    {
      hide AllGenuine, Genuine, Wins, PowWorker.Answers, BurnSteps, SpentTable.Valid, Escalation.Valid, InRange;
      verdict := CheckSolution(s, ip, subnet, nowMs);
      if spend && verdict.Accepted? {
        var won := SpendVerifiedSolution(s, ip, nowMs, purgeLands);
        if !won { return AlreadyUsed; }
      }
    }

    /** Whatever was verified and burned, a challenge was won before its expiry once for every text it
        was burned under; at most once exactly when that was one text. `Signed` says that no two
        challenges that were burned share a code. */
    lemma ChallengesWonOncePerText(code: Mac)
      requires Valid() && Signed(spent.events) && ClockMonotone(spent.events)
      ensures WinsAlive(spent.events, code, |spent.events|) == |TextsBurned(spent.events, code, |spent.events|)|
      ensures WinsAlive(spent.events, code, |spent.events|) <= 1 <==>
                forall e, f :: e in spent.events && f in spent.events && BurnsAlive(e, code) && BurnsAlive(f, code)
                               ==> e.sig == f.sig
    {
      hide *;
      OneWinPerText(spent.events, code, |spent.events|);
      WonOnceIffOneText(spent.events, code);
    }
  }

  /** The clamps of an issued difficulty. */
  lemma IssuedDifficultyBounds(history: seq<Attempt>, ip: string, subnet: string, nowMs: int, cfg: Config)
    ensures var d := DifficultyFromHistory(history, ip, subnet, nowMs, cfg);
            && d <= cfg.maxBits && d <= Ceiling(cfg)
            && (cfg.maxBits >= cfg.baseBits ==> d >= cfg.baseBits)
            && (cfg.maxBits < cfg.baseBits ==> d == cfg.maxBits)
  {
    CeilingIsAtLeastBase(cfg.baseBits, cfg.ttlSeconds, SLOW_BROWSER_HASHES_PER_SEC);
    ProductMonotone(0, Max(CountSince(history, Client(ip), nowMs - cfg.windowMs),
                           if subnet == "" then 0 else CountSince(history, Range(subnet), nowMs - cfg.windowMs)),
                    cfg.escalateBits);
  }

  /** Every difficulty issued passes the verifier's own range check exactly when the operator's
      maximum is not more than one bit under the base; it does not depend on the history. */
  lemma IssuedPassesRangeCheck(history: seq<Attempt>, ip: string, subnet: string, nowMs: int, cfg: Config)
    ensures InRange(DifficultyFromHistory(history, ip, subnet, nowMs, cfg), cfg) <==> cfg.maxBits >= cfg.baseBits - 1
  {
    IssuedDifficultyBounds(history, ip, subnet, nowMs, cfg);
  }

  /** With a maximum not under the base, every difficulty issued is expected to be solved within
      half of its own life exactly when the base difficulty itself is. */
  lemma IssuedIsSolvable(cfg: Config)
    requires cfg.baseBits <= cfg.maxBits
    ensures (forall history, ip, subnet, nowMs :: SolvesInHalfItsLife(
               DifficultyFromHistory(history, ip, subnet, nowMs, cfg), cfg.baseBits, cfg.ttlSeconds,
               SLOW_BROWSER_HASHES_PER_SEC))
            <==> SolvesInHalfItsLife(cfg.baseBits, cfg.baseBits, cfg.ttlSeconds, SLOW_BROWSER_HASHES_PER_SEC)
  {
    var rate := SLOW_BROWSER_HASHES_PER_SEC;
    if SolvesInHalfItsLife(cfg.baseBits, cfg.baseBits, cfg.ttlSeconds, rate) {
      forall history, ip, subnet, nowMs
        ensures SolvesInHalfItsLife(DifficultyFromHistory(history, ip, subnet, nowMs, cfg),
                                    cfg.baseBits, cfg.ttlSeconds, rate)
      {
        IssuedWithinCeiling(history, ip, subnet, nowMs, cfg);
      }
    } else {
      IssuedDifficultyBounds([], "", "", 0, cfg);
      assert DifficultyFromHistory([], "", "", 0, cfg) == cfg.baseBits;
    }
  }

  lemma IssuedWithinCeiling(history: seq<Attempt>, ip: string, subnet: string, nowMs: int, cfg: Config)
    requires cfg.baseBits <= cfg.maxBits
    requires SolvesInHalfItsLife(cfg.baseBits, cfg.baseBits, cfg.ttlSeconds, SLOW_BROWSER_HASHES_PER_SEC)
    ensures SolvesInHalfItsLife(DifficultyFromHistory(history, ip, subnet, nowMs, cfg), cfg.baseBits, cfg.ttlSeconds,
                                SLOW_BROWSER_HASHES_PER_SEC)
  {
    var d := DifficultyFromHistory(history, ip, subnet, nowMs, cfg);
    IssuedDifficultyBounds(history, ip, subnet, nowMs, cfg);
    if cfg.baseBits <= 40 {
      LastSolvableSpec(cfg.baseBits, cfg.baseBits, cfg.ttlSeconds, SLOW_BROWSER_HASHES_PER_SEC);
      SolvableBelow(d, Ceiling(cfg), cfg.baseBits, cfg.ttlSeconds, SLOW_BROWSER_HASHES_PER_SEC);
    }
  }

  lemma IssuedIsGenuine(mac: Signing, bits: nat, seed: seq<Byte>, ip: string, nowMs: int, cfg: Config)
    ensures var c := Issued(mac, bits, seed, ip, nowMs, cfg);
            && c.seed == seed && c.difficulty == bits && Genuine(mac, c, ip)
            && c.exp == Seconds(nowMs) + TtlSecondsFor(bits, cfg.baseBits, cfg.ttlSeconds)
  {
    var c := Issued(mac, bits, seed, ip, nowMs, cfg);
    CanonicalTextIsUnique(c.sig, mac(seed, bits, c.exp, ip));
  }

  /** What is issued, in the fields of the answer: the signature is 64 lower-case digits of the code, and
      the expiry is the base life from now on, longer in proportion for a harder challenge. */
  lemma IssuedInFields(mac: Signing, bits: nat, seed: seq<Byte>, ip: string, nowMs: int, cfg: Config)
    ensures var c := Issued(mac, bits, seed, ip, nowMs, cfg);
            && c.seed == seed && c.difficulty == bits
            && c.exp == nowMs / 1000
                        + (if bits <= cfg.baseBits then cfg.ttlSeconds
                           else ((cfg.ttlSeconds * bits) as real / cfg.baseBits as real + 0.5).Floor)
            && |c.sig| == 64 && LowerDigits(c.sig) && HexDecode(c.sig) == mac(seed, bits, c.exp, ip)
  {
    IssuedIsGenuine(mac, bits, seed, ip, nowMs, cfg);
    BudgetInSeconds(bits, cfg.baseBits, cfg.ttlSeconds);
    TextIsLower(mac(seed, bits, Issued(mac, bits, seed, ip, nowMs, cfg).exp, ip));
    hide HexDecode, HexText, TtlSecondsFor, LowerDigits;
  }

  /** Solver and verifier agree end to end: the nonce the worker finds for a challenge this gate
      issued to a client is accepted from that client until the challenge expires. */
  method SolveAndVerify(gate: Gate, ip: string, subnet: string, seed: seq<Byte>,
                        issuedMs: int, answeredMs: int, ghost known: nat)
    returns (verdict: Verdict)
    requires gate.Valid() && gate.escalation.clock <= issuedMs <= answeredMs
    requires seed != [] && gate.cfg.maxBits >= gate.cfg.baseBits - 1
    requires var d := DifficultyFromHistory(gate.escalation.history, ip, subnet, issuedMs, gate.cfg);
             && PowWorker.Answers(seed, PowWorker.Decimal(known), d)
             && |PowWorker.Message(seed, PowWorker.Decimal(known))| + 8 < TWO31
             && Seconds(answeredMs) <= Seconds(issuedMs) + TtlSecondsFor(d, gate.cfg.baseBits, gate.cfg.ttlSeconds)
    modifies gate.escalation, gate.spent
    ensures verdict.Accepted?
  {
    hide *;
    ghost var d := DifficultyFromHistory(gate.escalation.history, ip, subnet, issuedMs, gate.cfg);
    IssuedPassesRangeCheck(gate.escalation.history, ip, subnet, issuedMs, gate.cfg);
    IssuedIsGenuine(gate.mac, d, seed, ip, issuedMs, gate.cfg);
    var c := gate.IssueChallenge(ip, subnet, seed, issuedMs);
    var nonce, _ := PowWorker.Search(c.seed, c.difficulty, known);
    var solution := Solution(c, Some(PowWorker.Decimal(nonce)));
    SolutionPasses(gate, solution, ip, answeredMs);
    verdict := gate.VerifySolution(solution, ip, subnet, answeredMs, false, false);
  }

  lemma SolutionPasses(gate: Gate, s: Solution, ip: string, nowMs: int)
    requires s.nonce.Some? && s.challenge.seed != [] && s.challenge.exp >= Seconds(nowMs)
    requires InRange(s.challenge.difficulty, gate.cfg) && Genuine(gate.mac, s.challenge, ip)
    requires PowWorker.Answers(s.challenge.seed, s.nonce.value, s.challenge.difficulty)
    ensures gate.Passes(s, ip, nowMs)
  {
  }
}
