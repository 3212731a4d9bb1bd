# The faucet, modelled and proved

This project models the parts of the Zcash testnet faucet that decide who gets paid, how often and
behind how much work, and proves what they promise over every input and every run:

- **The claim protocol** (`Claims`, `SendQueue`, `ClaimProtocol`, `ClaimSafety`, `LeaseLimit`, `Progress`,
  `Diagnosis`, `Witnesses`, `Ledger`). A request reserves a pending row with one SQL statement, waits
  in a promise chain in front of one wallet, is answered by its send or by a deadline that frees
  nothing, and finalises its row. Purges run at any moment. The main results are that the faucet never
  pays an address twice inside its cooldown, that every limit holds over every sliding window for all
  that was paid, that purging is invisible, and when a refusal is right. They need the queue's
  timing bound and the SQL predicates together: the queue is modelled through its `tail` links, and
  "one send at a time" is a theorem about those links. The lease is a parameter: the one the source
  derives is safe, and the least safe one is found exactly.
- **Proof of work** (`JsNumber`, `Sha256`, `LeadingZeros`, `PowWorker`, `PowBudget`, `Difficulty`, `Hex`,
  `Challenges`, `Pow`). The browser's SHA-256, written over JavaScript's signed 32-bit operators and
  byte arrays, is proved equal to FIPS 180-4; its search reports the least answer, which the gate
  accepts; the pruned in-memory windows give the difficulty the full history gives; every difficulty
  issued is answerable exactly when the base difficulty is. The verifier compares the bytes of a
  signature and the table of burned challenges holds its text: a challenge is won before its expiry
  once for every text it was burned under, over all runs and purges.
- **The reserve loop** (`RefillRules`, `Reconciler`, `ReserveRuns`, `ReserveHistory`). A tick-driven object
  whose one step completes asynchronously. Which tick starts a step is a function of readings, attempts
  and answers; harvesting cannot spin, the backlog fast path ends, a refusal leaves no trace, and
  attempts are paced.
- **The protobuf codec** (`Varints`, `BlockCodec`, `ReferenceCodec`, `LongTags`, `StrictCodec`), **the rate
  limiter** (`RateLimit`) and **subnet keys** (`Strings`, `Subnet`, `SubnetRanges`).

Objects of the source are classes whose methods are proved against value-level step functions;
the theorems over runs are about those functions. `dafny verify dfyconfig.toml` checks everything.

## Assumptions

- A queued send occupies the wallet for at most `sendResidenceMs`; a request joins the queue, and after
  its answer finalises its row, within the 60-second margin of the lease taken together. Promise
  callbacks run before timers, so no time passes while a callback is due. `Progress.TimeCanAlwaysPass`
  shows that these assumptions never stop the clock for good.
- The lease covers a full queue of residences and the margin (`Policy.LeaseCovers`). The derived lease does,
  for every `sendResidenceMs > 0` (`Claims.DerivedLeaseCovers`).
- The clock never decreases. A request may carry a clock reading up to an hour old, the grace of the
  retention cutoff, because the route reads the clock when the request arrives.
- `ipDailyMax >= 1`, the queue admits at least one send, the base difficulty is at least 1 (`config.ts`
  clamps it to 8 or more), the refill low mark is below the target and a harvest needs at least one
  output, as `config.ts` enforces. Each SQL statement is atomic.
- Fingerprints are opaque injective values. The HMAC is any function from what is signed to 32 bytes;
  the results on burned challenges take it that no two of them share a code (`Challenges.Signed`).
- `Buffer.from(text, "hex")` reads pairs of digits of either case up to the first pair that is none, as
  its documentation says.

## Where the code and its comments differ

The model follows the code in each case.

- The comments over the reserve statement and the live-block statement call the per-connection limit
  global (`src/lib/db/sql.ts:309-310`); the statements carry the network, so it is per network.
- The lease comment counts a full queue and then the send; the queue's own bound already contains the
  send, so one whole residence is to spare (`ClaimProtocol.FinaliseLandsInsideLease`).
- A cap refusal reports `frees_at - now`, but the cap compares with `>=`: it lifts one second after
  `frees_at` (`Diagnosis.CapBlockLiftsOneSecondLate`, `Witnesses.CapRefusalIsEarly`).
- A connection refusal reports when the first counted claim expires. That makes room exactly when enough
  claims expire then; a request that read the clock before a later claim was made can be told a time that
  is too early (`Diagnosis.ConnectionBlockLiftsOnTime`, `Witnesses.StaleConnectionIsToldEarly`).
- "Two requests racing the same solution cannot both win" (`src/lib/pow.ts:191-193`) holds of one text of
  the signature. The verifier takes it in either case and with anything behind it that is no pair of
  digits (`Pow.GenuineTexts`), and the table holds the text as sent, so the same challenge is won again
  under every other spelling (`Challenges.EverySpellingWins`). It is won at most once before its expiry
  exactly when all burns carry one text (`Challenges.WonOnceIffOneText`); a check for 64 lower-case
  digits would see to that (`Challenges.CanonicalTextsAreWonOnce`).
- "Expired challenges can never be replayed" holds for burns of one text made no later than the expiry. The
  burn does not look at the expiry again (`Challenges.BurnedTwiceOnceExpired`).
- A refusal that falls through to the cap takes it that the cap blocked (`src/lib/db/index.ts:167`). The
  questions that explain a refusal are asked after it, each of the table it finds: a claim that fails in
  between, or a purge an hour ahead, makes it blame a cap that has room (`Diagnosis.CapIsBlamedWrongly`).
  Without those, and with a lease no longer than what a sent row blocks for, the cap is blamed rightly
  (`Diagnosis.CapIsBlamedRightly`).
- Section 2.2 of RFC 4291 lets `::` stand for one or more groups; the parser also accepts it between eight
  written groups, where it stands for none (`Subnet.ParsesExactlyTheWrittenForms`).
- The same address written `::ffff:203.0.113.5` and `::ffff:cb00:7105` gets two keys, one of its IPv4
  range and one of the network of all mapped addresses (`SubnetRanges.MappedAddressHasTwoKeys`).
- `heightFromBlockID` promises null on anything malformed or truncated, never a fabricated number.
  - Truncation: on messages whose fields have one-byte tags and lengths below 2^31, a cut in front of the
    end of the height gives null and a cut behind it the height (`ReferenceCodec.TruncationNeverFabricates`).
    So a message cut short after its height has a height; nothing behind it is looked at
    (`StrictCodec.NothingBehindTheHeightIsRead`).
  - Lengths: they are accumulated in 32 signed bits, which is what was written exactly when that is below
    2^31 (`Varints.LengthExactBelow2To31`). No longer one is safe (`ReferenceCodec.ShortLengthIsNeeded`,
    `ShortLengthIsNeededForTheHash`, `HashLengthMayBeLong`): a length of 2^32 makes a truncated message give
    a height, and one that reads as -6 makes either loop run for ever.
  - Tags: one byte is taken for a tag, where field numbers from 16 on need two. No longer tag of a legal
    field number is safe in front of a field the parsers step over (`LongTags.OneByteTagIsNeeded`, and for
    tags of up to five bytes `OneByteTagIsNeededForTheHash`).
  - Malformed messages: on such fields a malformed one gets a number exactly when it has a height and a field
    up to it has number 0, or a varint of more than ten bytes or of 2^64 and more
    (`StrictCodec.MalformedGetsThrough`).

## Model

| member | source | states |
|---|---|---|
| Claims.PendingLeaseSeconds | src/lib/db/sql.ts:292-295 | the lease less its margin is the least whole number of seconds covering a full queue of residences and one more |
| Claims.AcceptsIsRoomUnderEveryRule | src/lib/db/sql.ts:322-372 | the NOT EXISTS, the two counts and the sum of the reserve statement accept exactly when the new row fits under every rule it falls in |
| Claims.AcceptsInColumns | src/lib/db/sql.ts:322-372 | read off the columns: the statement inserts exactly when no live claim of the address is there, and connection, subnet and the cap of the network asked for have room |
| Claims.CapClauseInColumns | src/app/api/faucet/route.ts:112-115 | a TAZ request is over the cap exactly when the live TAZ rows and its amount exceed the TAZ cap, a cTAZ request exactly when the live cTAZ rows and its amount exceed the cTAZ cap |
| Claims.PurgedTotal | src/lib/db/sql.ts:577 | deleting rows a filter does not count changes no count and no sum |
| Claims.PurgeInvisible | src/lib/db/index.ts:189-191 | a table purged with the retention cutoff answers every request at most an hour staler than the purge as the full table does |
| Claims.PurgeInColumns | src/lib/db/index.ts:189-191 | a purge deletes the rows older than cooldown, day and lease by more than an hour, and no other |
| Claims.FinalizedAt | src/lib/db/sql.ts:512 | finalising rewrites status and transaction id of the row with that id and nothing else |
| SendQueue.OneSendAtATime | src/lib/zcash/queue.ts:71-114 | in every run no two tasks run together, and a task starts only after every earlier one has settled and been released, whatever expired or failed |
| SendQueue.DepthCountsUnsettled | src/lib/zcash/queue.ts:59-62 | in every run the pending count is the number of admitted tasks not yet released, never above the bound |
| SendQueue.BoundedWait | src/lib/zcash/queue.ts:71-114 | in every run each admitted task ends, and its caller is answered, within maxPending residences of admission |
| SendQueue.DeadlineRunsFromTheStart | src/lib/zcash/queue.ts:77-96 | in every run a caller answered by a deadline has a task that started and had been at work for all of that deadline; without a deadline there is no such answer |
| SendQueue.DeadlineMayAnswer | src/lib/zcash/queue.ts:77-96 | a deadline may answer exactly when the task is at work, its caller unanswered, and the deadline has passed since the start |
| SendQueue.StepsMoveOneTask | src/lib/zcash/queue.ts:71-114 | a step moves one task, by one phase or by its deadline, and records the time of the step |
| SendQueue.ArrivalIsAdmitted | src/lib/zcash/queue.ts:71-73 | in every run an arrival is admitted exactly when fewer tasks than the maximum are unreleased, behind all others and with its own deadline |
| SendQueue.StepKeeps | src/lib/zcash/queue.ts:71-114 | every step of the queue keeps the chain of tail links and the timing invariant |
| SendQueue.SerialQueue.constructor | src/lib/zcash/queue.ts:48-57 | a new queue is the empty chain |
| SendQueue.SerialQueue.Depth | src/lib/zcash/queue.ts:59-62 | depth counts the tasks admitted and not yet released |
| SendQueue.SerialQueue.Run | src/lib/zcash/queue.ts:71-114 | a full queue rejects and is left as it was; otherwise the task is chained onto the tail and becomes the tail |
| SendQueue.SerialQueue.OnTurn | src/lib/zcash/queue.ts:93-96 | when its turn comes the deadline is armed and the work starts; nothing else changes |
| SendQueue.SerialQueue.OnWorkSettled | src/lib/zcash/queue.ts:93-113 | settling the work answers the caller unless the deadline already has |
| SendQueue.SerialQueue.OnSettle | src/lib/zcash/queue.ts:105-109 | the settle handler drops the count and resolves the tail, for success and failure alike |
| SendQueue.SerialQueue.OnDeadline | src/lib/zcash/queue.ts:77-88 | the deadline answers the caller and touches neither count nor tail |
| Claims.DerivedLeaseCovers | src/lib/db/sql.ts:292-295 | the derived lease is longer than a full queue of residences and the margin, by one whole residence |
| ClaimProtocol.AnsweredHandlerIsYoung | src/lib/zcash/queue.ts:71-114 | an answered handler that has not finalised is within a full queue of residences and the margin of the creation of its row |
| ClaimProtocol.FinaliseLandsInsideLease | src/lib/db/sql.ts:270-295 | from the moment a handler is answered to the moment it finalises, its row still holds a live lease whenever the lease covers that; with the derived lease one residence is to spare |
| LeaseLimit.LeaseIsLeast | src/lib/db/sql.ts:270-295 | for a queue that admits anything and a cap that holds two drips, runs of such drips never pay an address twice inside its cooldown exactly when the lease is longer than a full queue of residences and the margin, or as long as the cooldown |
| LeaseLimit.AddressIsPaidAgain | src/lib/db/sql.ts:270-295 | under every shorter lease there is a run that pays an address a second drip at the moment its first lease ends |
| LeaseLimit.LongLeaseIsSafe | src/lib/db/sql.ts:270-328 | a lease as long as the cooldown keeps paid claims of an address a cooldown apart, whatever the queue does |
| Progress.TimeCanAlwaysPass | src/lib/zcash/queue.ts:93-109 | from every state of every run finitely many steps other than waiting lead to one in which time passes, to any moment |
| ClaimProtocol.StepKeepsBasics | src/lib/db/index.ts:194-259 | reserve, join, queue steps, payment, finalise, purge and time passing all keep queues, handlers and table consistent with the append-only history |
| ClaimSafety.NoDoublePayment | src/lib/db/sql.ts:270-328 | in every interleaving, two claims of one address and network that were both paid or both ended as sent were created at least a cooldown apart |
| ClaimSafety.PaidRowsHold | src/app/api/faucet/route.ts:421-485 | a send that succeeded is on a row that is sent, or is still pending with its lease running |
| ClaimSafety.SentWindowsAreCapped | src/lib/db/sql.ts:329-371 | at every moment of every run, the sent rows in any window of a rule's length weigh at most its limit |
| ClaimSafety.PaidWindowsAreCapped | src/lib/db/sql.ts:329-371 | the same limits hold of everything that was paid, also while its row is still pending |
| ClaimSafety.DailyCapHolds | src/lib/db/sql.ts:366-371 | sent amounts of a network in any 24 hours sum to at most its daily cap |
| ClaimSafety.CapsHoldByNetwork | src/lib/db/sql.ts:366-371 | in every run, what was paid in any 24 hours is at most the TAZ cap on TAZ and at most the cTAZ cap on cTAZ |
| ClaimSafety.ConnectionLimitHolds | src/lib/db/sql.ts:355-359 | sent claims of one connection on one network in any cooldown window are at most ipDailyMax |
| ClaimSafety.SubnetLimitHolds | src/lib/db/sql.ts:360-365 | sent claims of one subnet across both networks in any 24 hours are at most subnetDailyMax |
| ClaimSafety.ClientLimitsHold | src/lib/db/sql.ts:355-365 | the same two limits read off the columns, for everything paid |
| ClaimSafety.PurgedLedgerAnswersAsHistory | src/lib/db/index.ts:189-191 | in every run, however often purged and whatever was finalised after its row had gone, the ledger answers each later request as the append-only history would |
| ClaimSafety.RunIsSafe | src/lib/db/sql.ts:322-372 | every state of every run keeps rows of an address separated, every window and every limit |
| Diagnosis.DiagnosisNamesTheBlock | src/lib/db/index.ts:75-184 | when nothing is written in between, the refusal names the first rule, in the order address, connection, subnet, that really blocks; the cap is blamed only when sum and drip exceed it |
| Diagnosis.QuestionsAreAnsweredTruly | src/lib/db/index.ts:75-184 | whatever is written between the questions, each rule named blocks on the table it was asked of, and no rule before it did on its own |
| Diagnosis.SubnetIsToldAnHour | src/lib/db/index.ts:152-164 | a full subnet is told an hour, whatever the tables |
| Diagnosis.CapIsBlamedRightly | src/lib/db/index.ts:194-259 | as long as between the refusal and the questions no claim fails, no purge runs an hour ahead and no row is sent under a lease longer than a sent row blocks for, a cap refusal is right of the table refused and of the table asked |
| Diagnosis.CapIsBlamedWrongly | src/lib/db/index.ts:194-259 | a claim that fails there, or such a purge, makes the refusal of an address with one claim blame a cap that has room |
| Diagnosis.RuleLapses | src/lib/db/sql.ts:490-510 | up to the earliest expiry a rule's total stands, and after it at least one counted row is gone |
| Diagnosis.LiftsWithTheEarliest | src/lib/db/sql.ts:490-510 | a counting rule makes room with the earliest expiry exactly when the rows that expire then weigh enough |
| Diagnosis.AddressBlockLiftsOnTime | src/lib/db/index.ts:91-115 | in every reachable ledger left unwritten, an address block lifts exactly at the time reported, whatever clock reading the request carries |
| Diagnosis.ConnectionBlockLiftsOnTime | src/lib/db/index.ts:116-142 | whatever the reading, a connection block lifts exactly when reported if and only if at least n - ipDailyMax + 1 of the n counted claims expire then |
| Diagnosis.CurrentConnectionIsToldRight | src/lib/db/index.ts:116-142 | in every reachable ledger that is so for a request that reads the clock of the moment |
| Diagnosis.CapBlockLiftsOneSecondLate | src/lib/db/index.ts:167-184 | whatever the reading, the cap refusal reports the earliest expiry; the block lifts one second after it exactly when the claims that expire then make room, and still stands at the reported time unless that expiry is now; with nothing counted it never lifts and no time is reported |
| Diagnosis.CurrentCapLiftsOneSecondLate | src/lib/db/index.ts:167-184 | with equal drips, in every reachable ledger and for a request that reads the clock of the moment, it does lift then |
| Witnesses.CapRefusalIsEarly | src/lib/db/index.ts:178-183 | under every policy whose cap holds a drip there is a run in which the cap still blocks at the time its refusal reports |
| Witnesses.StaleConnectionIsToldEarly | src/lib/db/index.ts:130-141 | under every policy whose cap holds one drip more than a connection may have there is a run in which a connection told to wait a second is still blocked after it, because its request read the clock before the connection's latest claim |
| Witnesses.FailedClaimsHoldNothing | src/lib/db/sql.ts:322-372 | there are runs in which a send fails and in which a full queue turns the handler away, after which the same request is accepted again at once |
| Ledger.ClaimsLedger.constructor | src/lib/db/sql.ts:13-29 | a new ledger is empty |
| Ledger.ClaimsLedger.RunReserve | src/lib/db/sql.ts:322-372 | inserts one pending row of the request's own columns exactly when the statement's conditions hold, and then under the cap of its own network, else changes nothing |
| Ledger.ClaimsLedger.ReserveClaim | src/lib/db/index.ts:194-259 | whether or not the purge lands first, the answer is that of the table before it; a refusal is the first answer of the four questions, each asked of what others have left in the table by then |
| Ledger.ClaimsLedger.FinalizeClaim | src/lib/db/index.ts:292-313 | a sent claim without a transaction id is refused unless its network has none; only the claim's own row changes; an empty id is never stored; a sent claim bumps the count of its network and day when that write lands |
| Ledger.BumpedCountsOne | src/lib/db/index.ts:316-324 | a bump adds one drip to its network and day, and moves no other count |
| Ledger.SameUtcDay | src/lib/db/index.ts:327-329 | two times share a day exactly when the same 86 400 000 milliseconds hold both |
| Challenges.SpentTable.Spend | src/lib/db/index.ts:491-495 | wins exactly when the text is not recorded after the purge, which is when the burn wins in the run so far, and afterwards it is recorded |
| Challenges.TableIsSurvivors | src/lib/db/sql.ts:244-251 | the table holds exactly the burns no later purge ran past |
| Challenges.RefusedIffStillRecorded | src/lib/db/index.ts:491-495 | a burn is refused exactly when an earlier burn of the same text still stands |
| Challenges.BurnedOnceWhileAlive | src/lib/db/index.ts:491-495 | over any run with any purges, a second win of one text comes after its expiry |
| Challenges.OneWinPerText | src/lib/pow.ts:191-196 | over any run with any purges, a challenge is won before its expiry once for every text of its signature it was burned under |
| Challenges.WonOnceIffOneText | src/lib/pow.ts:191-196 | so at most once exactly when all burns in time carry one text |
| Challenges.EverySpellingWins | src/lib/pow.ts:180-194 | any challenge is won before its expiry as often as there are burns that spell its signature differently |
| Challenges.CanonicalTextsAreWonOnce | src/lib/pow.ts:180-194 | if every text burned were lower-case digits, two a byte, each challenge would be won at most once before its expiry |
| Challenges.BurnedTwiceOnceExpired | src/lib/pow.ts:214-216 | the expiry condition cannot be dropped: after a purge past the expiry the same text is won again |
| Hex.AcceptedTexts | src/lib/pow.ts:180-181 | a text is read as given bytes exactly when it starts with their digits, in either case, and no whole pair of digits is behind them |
| Hex.CanonicalTextIsUnique | src/lib/pow.ts:38-40 | one text of lower-case digits is read as given bytes, the one that was issued |
| JsNumber.OrIsAddition | src/lib/zcash/externalTip.ts:82 | or-ing in bits above those already there is addition |
| JsNumber.ShiftWords | public/pow-worker.js:25 | the signed results of shifts read back as the shifted 32-bit word |
| JsNumber.BitwiseByPlace | public/pow-worker.js:51-56 | and, or and exclusive or, place by place |
| JsNumber.ShiftsDivide | public/pow-worker.js:25-33 | shifting right by n divides by 2^n and rounds down |
| JsNumber.SignedIsCongruent | public/pow-worker.js:47 | the signed reading is the number from -2^31 to 2^31 - 1 that differs by whole turns of 2^32 |
| JsNumber.NotIsMinusAndLess | public/pow-worker.js:52 | the complement of a is -a - 1 |
| Sha256.PaddingIsLeast | public/pow-worker.js:33 | the number of zero bits of section 5.1.1 of FIPS 180-4 is the least that leaves room for the length |
| Sha256.InitialHashIsSquareRoots | public/pow-worker.js:28-29 | the initial hash words are the first 32 fractional bits of the square roots of the first eight primes |
| Sha256.EarlyRoundConstantsAreCubeRoots | public/pow-worker.js:15-18 | the first 32 round constants are the first 32 fractional bits of the cube roots of the first primes |
| Sha256.LateRoundConstantsAreCubeRoots | public/pow-worker.js:19-22 | so are the other 32 |
| PowWorker.TableIsFips | public/pow-worker.js:14-23 | the worker's table is that of section 4.2.2 |
| PowWorker.WriteOutput | public/pow-worker.js:63-67 | the output loop writes the eight words most significant byte first |
| PowWorker.PaddedLengthIsFips | public/pow-worker.js:33 | the shift expression is the padded length of section 5.1.1, a multiple of 64, for every length below 2^31 - 8 |
| PowWorker.PadMessage | public/pow-worker.js:31-39 | the byte buffer holds the padded message |
| PowWorker.GetUint32 | public/pow-worker.js:43 | reads the four bytes back that big-endian writing of the word gives |
| PowWorker.FillSchedule | public/pow-worker.js:43-48 | the signed schedule loop fills in the message schedule of section 6.2.2 |
| PowWorker.RunRounds | public/pow-worker.js:49-58 | the 64 signed rounds are the rounds of section 6.2.2 |
| PowWorker.HashBlock | public/pow-worker.js:42-61 | one turn of the block loop is one intermediate hash |
| PowWorker.Sha256 | public/pow-worker.js:27-68 | the worker's digest is SHA-256 of FIPS 180-4 for every message under 2^31 - 8 bytes |
| PowWorker.LeadingZeroBits | public/pow-worker.js:70-82 | the count is at least k exactly when the big-endian value is below 2^(8n-k), for every k up to 8n |
| PowWorker.Search | public/pow-worker.js:84-101 | the nonce reported meets the difficulty and no smaller one does |
| PowWorker.DecimalReads | public/pow-worker.js:91 | the nonce is written in decimal digits without leading zeros |
| PowWorker.AnswerInNumbers | public/pow-worker.js:91 | a nonce answers exactly when the digest of seed, colon and nonce is below 2^(256 - difficulty) |
| LeadingZeros.ZerosOfByte | public/pow-worker.js:75-78 | walking the mask finds the highest set bit of a byte |
| LeadingZeros.FirstByteCounts | public/pow-worker.js:72-79 | zero bytes and the first other byte decide the count of the whole value |
| PowBudget.SolvableCeilingBits | src/lib/powBudget.ts:76-88 | the loop returns the last difficulty of the unbroken solvable stretch, or the base |
| PowBudget.TtlAtMostDoubles | src/lib/powBudget.ts:58-61 | rounding included, one more bit at most doubles the life of a challenge |
| PowBudget.BudgetInSeconds | src/lib/powBudget.ts:58-88 | the life of a challenge in whole seconds; from a solvable base, a difficulty up to 40 is under the ceiling exactly when 100 000 hashes a second are expected to find it in half its life |
| PowBudget.FirstFailureIsFinal | src/lib/powBudget.ts:82-86 | once a difficulty cannot be solved in half its life no harder one can |
| PowBudget.CeilingIsTheMaximum | src/lib/powBudget.ts:76-88 | from a solvable base, the solvable difficulties up to 40 are exactly those up to the ceiling |
| Difficulty.MoreAttemptsNeverEasier | src/lib/pow.ts:102-126 | with time held fixed, more attempts never lower the difficulty |
| Difficulty.DifficultyInNumbers | src/lib/pow.ts:102-126 | the difficulty is the base, the escalation of the client's attempts in the window or of its range's, whichever are more, and the pressure, cut at the maximum and the ceiling |
| Difficulty.PressureInNumbers | src/lib/pow.ts:112-119 | pressure adds one, two and three bits from 10, 25 and 60 attempts per ten minutes of window on, to the nearest whole number and never under the bare one |
| Difficulty.Prune | src/lib/pow.ts:98-100 | what is left of a sorted list is its tail inside the window, as long as the count of the full history |
| Difficulty.Escalation.constructor | src/lib/pow.ts:80-96 | a fresh process has an empty history |
| Difficulty.Escalation.DifficultyFor | src/lib/pow.ts:102-126 | the difficulty from the pruned lists is the one from counting every attempt ever recorded in the window |
| Difficulty.Escalation.RecordRequest | src/lib/pow.ts:140-153 | the attempt joins the history and every list still stands for it, emptied lists dropped or not |
| Difficulty.Escalation.DropEmptied | src/lib/pow.ts:151-152 | garbage collection changes no answer |
| Pow.LeadingZeroBits | src/lib/pow.ts:42-53 | the server's count means the same as the worker's: at least k exactly when the value is below 2^(8n-k) |
| Pow.Gate.constructor | src/lib/pow.ts:80-96 | a fresh gate has seen no attempt and burned nothing |
| Pow.Gate.IssueChallenge | src/lib/pow.ts:156-163 | the challenge carries the difficulty of the full history and a signature over its own fields; issuing counts no attempt |
| Pow.IssuedInFields | src/lib/pow.ts:156-163 | the second of expiry, and a signature of 64 lower-case digits that are read as the code of the challenge |
| Pow.Gate.CheckSolution | src/lib/pow.ts:174-189 | passes exactly when alive, in range, genuinely ours for this client and answered, and names what failed first; an attempt is counted exactly when the signature is genuine |
| Pow.Gate.PassesInFields | src/lib/pow.ts:174-189 | what passes, in the fields of the request: the second, the range, the 64 characters of the signature and the number of the digest |
| Pow.Gate.VerifySolution | src/lib/pow.ts:174-198 | accepted exactly when it passes and, if asked, the burn of the text that was sent wins; nothing is burned that does not pass |
| Pow.Gate.SpendVerifiedSolution | src/lib/pow.ts:214-216 | burns the text of a verified solution, without a look at its expiry |
| Pow.Gate.RespelledPasses | src/lib/pow.ts:180-182 | a solution passes however its signature is written |
| Pow.Gate.ChallengesWonOncePerText | src/lib/pow.ts:191-196 | whatever a gate verified and burned, a challenge was won in time once for every text it was burned under |
| Pow.GenuineTexts | src/lib/pow.ts:180-182 | a signature is taken exactly when its first 64 characters are the code's digits up to case and no whole pair of digits follows |
| Pow.IssuedPassesRangeCheck | src/lib/pow.ts:178 | every difficulty issued passes the verifier's range check exactly when the maximum is not more than one bit under the base |
| Pow.IssuedIsSolvable | src/lib/pow.ts:120-132 | every difficulty issued is expected to be solved within half its own life exactly when the base difficulty is |
| Pow.SolveAndVerify | src/lib/pow.ts:188-189 | the worker's nonce for an issued challenge is accepted from that client until the challenge expires |
| RefillRules.RefillingIsHistory | src/lib/reserve/decide.ts:25-64 | undecided exactly when nothing was ever readable, not refilling exactly when the last reading outside the band was at or above the target |
| RefillRules.OppositeFlipsCrossTheBand | src/lib/reserve/decide.ts:25-34 | two opposite flips are at readings on opposite sides of the band |
| RefillRules.BackoffIsThePrice | src/lib/reserve/stepFailure.ts:84-87 | doubling from one tick and capped at twenty, with what each failure still saves against the cap |
| Reconciler.ReserveReconciler.constructor | src/lib/reserve/reconciler.ts:126-168 | a fresh loop is undecided, with the fast path open |
| Reconciler.ReserveReconciler.Observe | src/lib/reserve/reconciler.ts:208-255 | the reading alone moves the refill decision and the blind and forbidden counters |
| Reconciler.ReserveReconciler.Act | src/lib/reserve/reconciler.ts:260-326 | at most one step starts, only a harvest stamps the clock, back-off ticks are counted |
| Reconciler.ReserveReconciler.Tick | src/lib/reserve/reconciler.ts:201-326 | the new state is the step function of the old, and a harvest is never reported without a step in flight |
| Reconciler.ReserveReconciler.OnReturned | src/lib/reserve/reconciler.ts:327-430 | a refusal restores the harvest clock and leaves count and progress; any other answer sets them |
| Reconciler.ReserveReconciler.OnThrown | src/lib/reserve/reconciler.ts:431-461 | a throw or a deadline counts a failure and shuts the fast path |
| Reconciler.ReserveReconciler.OnSettled | src/lib/reserve/reconciler.ts:462-464 | the step is no longer in flight |
| ReserveHistory.LoopIsHistory | src/lib/reserve/reconciler.ts:201-464 | in every run, harvest clock, count, progress, flags and counters are what readings, attempts and answers say |
| ReserveHistory.TickDecides | src/lib/reserve/decide.ts:68-175 | at every moment of every run a tick starts a step exactly when the readings say to refill or a harvest is due (none made that was not refused, the last an interval old, or a backlog left by the last sweep), with permission, nothing in flight, an empty queue and the back-off waited out; it harvests exactly when there is nothing to refill |
| ReserveRuns.OneStepAtATime | src/lib/reserve/reconciler.ts:271-277 | in every run at most one of the loop's steps is on the queue, deadlines included, and the refill decision is a function of the readings |
| ReserveRuns.StatusIsHistory | src/lib/reserve/reconciler.ts:331-434 | failed steps, refusals, empty sweeps and blind ticks are the lengths of the runs they claim to count |
| ReserveRuns.HarvestingCannotSpin | src/lib/reserve/reconciler.ts:260-360 | after a harvest that moved nothing or threw, no harvest starts sooner than the interval while no step moves funds |
| ReserveRuns.RefusalLeavesNoTrace | src/lib/reserve/reconciler.ts:333-360 | a refused step leaves clock, count and progress as they were before it started, whatever ticks came in between |
| ReserveRuns.FastPathEnds | src/lib/reserve/decide.ts:142-175 | from any moment of any run at which the known count is the n outputs there are, with nothing new mined, the fast path makes at most ceil(n/50) sweeps that are not refused, fruitless sweeps of outputs that cannot be spent yet included |
| ReserveRuns.AttemptsAreNotStarved | src/lib/reserve/stepFailure.ts:84-98 | any stretch of a run holds at least one attempt in every 20 eligible ticks |
| ReserveRuns.ThrowingStepsAreRare | src/lib/reserve/stepFailure.ts:84-98 | N eligible ticks in which no step returns hold at most 6 + N/20 attempts |
| Varints.ReadVarint | src/lib/zcash/externalTip.ts:77-86 | the or-and-shift loop reads the base-128 number at the cursor, or reports that it ran off the end |
| Varints.ReadLength | src/lib/zcash/externalTip.ts:90-98 | the 32-bit loop reads the accumulated length at the cursor |
| Varints.SkipVarint | src/lib/zcash/externalTip.ts:101-104 | skipping ends where reading would |
| Varints.LengthIsSigned32 | src/lib/zcash/externalBlock.ts:63-70 | a length of at most five bytes is its varint wrapped to a signed 32-bit number |
| Varints.LengthExactBelow2To31 | src/lib/zcash/externalBlock.ts:63-70 | for any number of bytes, the 32-bit loop reads the length that was written exactly when it is below 2^31 |
| Varints.VarintRoundTrip | src/lib/zcash/externalBlock.ts:34-44 | the encoding of a number is a varint of that value |
| BlockCodec.EncodeBlockIDHeight | src/lib/zcash/externalBlock.ts:34-44 | the loop emits field 1 and the varint of the height |
| BlockCodec.HeightFromBlockID | src/lib/zcash/externalTip.ts:70-110 | the cursor loop is the iteration of one field step |
| BlockCodec.HashFromCompactBlock | src/lib/zcash/externalBlock.ts:56-89 | the cursor loop is the iteration of one field step |
| BlockCodec.HeightRoundTrip | src/lib/zcash/externalTip.ts:70-110 | every encoded height is read back, behind any well-formed fields that are not the height and in front of any bytes |
| BlockCodec.TruncatedHeightIsNull | src/lib/zcash/externalTip.ts:65-69 | every strict prefix of such a message reads as null, never as a smaller height |
| BlockCodec.HashIsFirstField3 | src/lib/zcash/externalBlock.ts:56-89 | the hash is the reverse of the first length-delimited field 3 when that is 32 bytes long, else null |
| BlockCodec.HashIsTurnedRound | src/lib/zcash/externalBlock.ts:72-77 | the k-th byte of the hash is the (31 - k)-th of the first length-delimited field 3, which has to be 32 bytes long |
| BlockCodec.NoHashIsNull | src/lib/zcash/externalBlock.ts:88 | without such a field the answer is null |
| BlockCodec.TruncatedHashIsNull | src/lib/zcash/externalBlock.ts:62-79 | a message cut before the end of that field reads as null |
| BlockCodec.HeightLoopEnds | src/lib/zcash/externalTip.ts:70-110 | when every length the loop meets on its own way reads as non-negative it ends within as many turns as there are bytes |
| BlockCodec.HeightLoopMayNotEnd | src/lib/zcash/externalTip.ts:89-99 | on a length that reads as -6 it runs for ever |
| BlockCodec.HashLoopMayNotEnd | src/lib/zcash/externalBlock.ts:62-79 | so does the loop of the hash parser |
| ReferenceCodec.HeightStepIsTrue | src/lib/zcash/externalTip.ts:73-107 | behind a one-byte tag, one turn of the parser is one step of a reader of unbounded lengths exactly when the length is below 2^31 |
| ReferenceCodec.HeightIsTrue | src/lib/zcash/externalTip.ts:65-110 | on every buffer whose fields are plain as far as that reader goes, the parser ends with its answer |
| ReferenceCodec.TruncationNeverFabricates | src/lib/zcash/externalTip.ts:65-69 | cut such a buffer anywhere, and the parser gives the height of the whole if the cut is behind the height field and null if it is not |
| ReferenceCodec.HashIsTrue | src/lib/zcash/externalBlock.ts:56-89 | the hash parser ends with the reference reader's answer wherever the fields are plain |
| ReferenceCodec.TruncationNeverFabricatesAHash | src/lib/zcash/externalBlock.ts:56-89 | cut such a buffer anywhere, and the parser gives the hash of the whole if the cut is behind it and null if it is not |
| ReferenceCodec.ShortLengthIsNeeded | src/lib/zcash/externalTip.ts:89-99 | a length lets the parser read truly whatever plain fields follow it exactly when it is below 2^31 |
| ReferenceCodec.ShortLengthIsNeededForTheHash | src/lib/zcash/externalBlock.ts:62-79 | the same for the hash parser and every field that is not itself the hash |
| ReferenceCodec.HashLengthMayBeLong | src/lib/zcash/externalBlock.ts:62-79 | in front of the hash itself a length is safe exactly when it is below 2^31 or does not read as 32 |
| ReferenceCodec.LongLengthFabricates | src/lib/zcash/externalTip.ts:89-99 | a message truncated inside a field of length 2^32 reads as height 5 |
| LongTags.LongTagMisleads | src/lib/zcash/externalTip.ts:73-75 | behind every number with a tag of two or more bytes some value and plain fields make the parser fail |
| LongTags.LongBlobTagMisleads | src/lib/zcash/externalTip.ts:73-99 | so does some length behind such a tag of a length-delimited field |
| LongTags.OneByteTagIsNeeded | src/lib/zcash/externalTip.ts:73-107 | a tag lets the height parser read truly, whatever plain fields follow, exactly when it is one byte long or of a wire type that ends the message |
| LongTags.OneByteTagIsNeededForTheHash | src/lib/zcash/externalBlock.ts:58-86 | the same for the hash parser and every tag of up to five bytes, with its two fixed wire types |
| LongTags.LongTagFabricates | src/lib/zcash/externalTip.ts:73-75 | field 18 in front of height 5 reads as height 8 |
| StrictCodec.MalformedGetsThrough | src/lib/zcash/externalTip.ts:65-88 | on plain fields the parser differs from a reader that gives null at a field number 0 and at a varint of more than ten bytes or of 2^64 and more exactly when there is a height and such a field up to it |
| StrictCodec.FieldZeroGetsThrough | src/lib/zcash/externalTip.ts:73-75 | field 0 in front of height 5 reads as height 5 |
| StrictCodec.LongHeightsGetThrough | src/lib/zcash/externalTip.ts:76-86 | heights written in eleven and more bytes are read, whatever they come to |
| StrictCodec.NothingBehindTheHeightIsRead | src/lib/zcash/externalTip.ts:76-86 | any bytes behind the height, cut short or no field at all, leave the answer as it is |
| RateLimit.RetryAfterIsExact | src/lib/rateLimit.ts:86-94 | a refused key is refused until retryAfterSeconds have passed, then allowed |
| RateLimit.AtMostTwiceTheMaximum | src/lib/rateLimit.ts:10-12 | a key answered from its windows is allowed at most twice the maximum in any interval as long as a window |
| RateLimit.RefusedOnlyWhenFull | src/lib/rateLimit.ts:80-94 | a key answered from its windows is refused only when it was allowed the maximum in the window's length up to then |
| RateLimit.RateLimiter.constructor | src/lib/rateLimit.ts:41-51 | window and maximum are at least one |
| RateLimit.RateLimiter.Sweep | src/lib/rateLimit.ts:53-59 | only rolled-over windows go, and no verdict changes |
| RateLimit.RateLimiter.Answer | src/lib/rateLimit.ts:70-95 | answered from the key's window, or allowed untracked when the table is full; the table never outgrows its bound |
| RateLimit.RateLimiter.Check | src/lib/rateLimit.ts:66-95 | the verdict is that of a limiter that keeps every window for ever, for every key that never met a full table |
| RateLimit.RateLimiter.ApprovedAtMostTwiceTheMaximum | src/lib/rateLimit.ts:10-12 | over the limiter's life, such a key is allowed at most twice the maximum in any window-length interval |
| RateLimit.RateLimiter.FewAsksAreNeverRefused | src/lib/rateLimit.ts:80-94 | over the limiter's life, such a key is refused only when it was allowed the maximum in the window's length up to then |
| Strings.SplitJoin | src/lib/privacy.ts:119-122 | splitting at a separator no part contains undoes joining |
| Subnet.WrittenParses | src/lib/privacy.ts:118-131 | every written form of an address parses to the canonical texts of its own eight values |
| Subnet.CanonicalIsUnique | src/lib/privacy.ts:129-130 | two texts without leading zeros have one value only if they are the same text |
| Subnet.SameKeyIffSameNetwork | src/lib/privacy.ts:93-131 | two written addresses have the same key exactly when their first 48 bits agree |
| Subnet.ParsesExactlyTheWrittenForms | src/lib/privacy.ts:118-131 | the parser accepts a written form of some address and nothing else |
| SubnetRanges.SameKeyIffSameRange | src/lib/privacy.ts:97-103 | two dotted quads, plain or IPv4-mapped, have the same key exactly when their first three octets agree |
| SubnetRanges.HexFormHasAnotherKey | src/lib/privacy.ts:97-107 | a dotted quad and a form in hexadecimal groups never share a key |
| SubnetRanges.MappedAddressHasTwoKeys | src/lib/privacy.ts:97-107 | one IPv4-mapped address has two keys, by how it is written |

## Left out

- Process death in mid-send, a handler that never finalises, and a finalise write that fails: the lease then runs out on its own, as the source says.
- BlockCodec.HeightFromBlockID: this and the hash parser take a number of turns, because the source's loops have no bound; every result is for all large enough numbers of turns.
- BlockCodec.HeightLoopEnds: one direction only; a loop that goes backwards may still end.
- LongTags.OneByteTagIsNeededForTheHash: tags of more than five bytes, which no legal field needs, are not characterised for the hash parser, nor tags of 2^38 and more for the height parser; some of them read alike.
- Ledger.ClaimsLedger.ReserveClaim: what others write between two statements is any list of insertions, finalised rows and purges; that these are themselves reserve statements that succeeded is not demanded.
- Varints.LengthIsSigned32: which other number a length of six and more bytes reads as, once it is 2^31 or more, is modelled and not characterised.
- `Number(v)` of a height above 2^53 rounds; heights are exact natural numbers here.
- PowWorker.Search: the source's loop has no bound, so an answer is required to exist; progress messages and timings are not modelled, and seeds are bytes rather than UTF-8 text.
- PowBudget.TtlAtMostDoubles: the life of a challenge is computed in exact rationals, not in double precision.
- The sweep verdicts, log sampling and the classifier of failure messages: a reading of each settles them. The classifier's answer is a parameter.
- The reentrancy guard, timer and status getter of the reserve loop: ticks resume in any order here, which covers them. The two clock readings of one tick are one reading.
- ReserveRuns.FastPathEnds: a step that misses its deadline is taken to sweep, if it does, when the deadline answers; no other step can start before it has left the queue.
- Lower-casing is that of ASCII, addresses with an embedded dotted quad other than `::ffff:` have no key, and hex rendering of a hash is the byte sequence itself.
- SQL tie-breaking in `ORDER BY ... LIMIT 1`: among rows of one creation time the last inserted is taken.
- The null subnet of rows from before the migration: an empty hash stands for both.
- Reading and seeding the drip counters, farming signals, feedback, health probes, configuration parsing, Turnstile, transport, senders and everything drawn on a page.
