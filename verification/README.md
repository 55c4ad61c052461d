# Verification of the executor node's decision logic

A Dafny model of the parts of the executor node where an answer depends on more than one line of
code: the search that scores a traced curve, the two budgets that every validation request spends
and gets back, the challenge store behind single-use nonces, the bytes a wallet signs, the signed
scoring policy, the expiring stores, and the account layout that two programs parse. `dafny verify
dfyconfig.toml` checks the whole project.

## How the model is laid out

| files | part of the node |
|---|---|
| `OrderStatistics`, `Alignment`, `CurveTrace`, `Following`, `LongTraces` | curve-trace scoring |
| `Clock`, `WalletAttempts`, `IntegratorTracker`, `BudgetGuard` | the two budget stores, and the guard that holds a request's charges |
| `Replies`, `Admission`, `AdmissionInvariant`, `AdmissionProofs`, `AdmissionTheorems`, `AdmissionFates`, `AdmissionCap` | the admission ledger: all three billed handlers, interleaved |
| `ChallengeRegistry`, `RegistryRefinement`, `SingleUse` | the challenge nonce store and its use by the handler |
| `CrossWalletCooldown`, `CommitmentRegistry` | the other expiring stores |
| `Bytes`, `DigestEncoding`, `Encodability`, `DigestSample`, `DigestEncoder`, `WalletAuthorization` | the signed request |
| `ScoringPolicy`, `ScoringPayload`, `Splitting`, `ScoringResolution` | the scoring policy, its signer and its verifier |
| `SasCredential` | the credential account parser and its script mirror |

Each store is a class whose methods update a map in place. A method's contract gives the new map as
a function of the old one, and the histories and refinements are proved about those functions.
Handlers run concurrently, so the ledger and the single-use model are state machines: a request is
a program counter, one map-entry operation is one atomic step, and a theorem about a reachable
state is a theorem about every interleaving, with cancellation at every await. Time is a
nondecreasing count of nanoseconds, one reading per store call.

## Main results

- **The pruned search is exact.** Abandoning a candidate once more than half of its residuals
  exceed the best score never changes the minimum, for odd and even lengths
  (`Alignment.AlignmentResidual`). Half is not enough for even lengths, so the strict comparison
  matters (`OrderStatistics.HalfAboveDoesNotForceMedian`).
- **Following is free exactly when the window spans the start stride.** Among distinct reference
  points, every trace that follows the curve scores 0, if and only if the window is at least 3.
- **The ordering penalty is nonnegative for all traces of a length exactly up to 256 points.** This
  holds for every curve, issued anchor and window separately: longer traces are subsampled for the
  residual but not for the deviation it is compared with, and then over each curve some trace has a
  negative penalty.
- **Budgets are conserved over every interleaving.** Spent quota is always the number of requests
  holding a deduction; the slots held in a wallet's window are its counter plus an exactly tracked
  surplus, made only by refunds that arrive from earlier windows.
- **When the wallet cap holds is decided exactly.** In a live window no continuation exceeds it if
  and only if there is no surplus and no earlier attempt that may still come back.
- **Settlement is exact.** Quota stays spent for verdicts and the wallet slot for failures that are
  not a quality retry; a dropped request keeps what it took exactly if it was dropped late. Each
  decisive step fixes the outcome for every continuation (`AdmissionFates`): an accepted proof is
  billed and a failed submission refunded, and the forwarded reply alone decides the quota.
- **A nonce forwards once.** Under every interleaving, and for every request that names a nonce it
  was issued, with the phrase bound at issue.
- **One store, two specifications.** Runs of legacy calls see one overwritable slot per wallet,
  errors included; runs of all calls mixed see a flat table with a pointer per wallet.
- **A signature covers every bound field.** The hashed bytes decode in one way up to the sign of
  zero, the signed text is injective, and an accepted request is one the wallet's holder intended.
- **Signer and service agree** on which policies exist, on every byte, and on which bundles resolve.
- **Both credential parsers** accept exactly the accounts that begin with the documented layout.

## Where the code and its description differ

The model follows the code.

- `check` and `check_and_record_attempt` disagree when `max_attempts` is 0 and the wallet has no
  live window: the first allows, the second refuses (`WalletAttempts.CheckAgreesWithRecord`).
- The wallet store's header speaks of a sliding window; the window is anchored at its first attempt.
  A refund that arrives after the window turned over lowers the new window's counter, so more than
  `max_attempts` unrefunded attempts can exist in one window
  (`AdmissionTheorems.StraddlingRefundExceedsCap`). `AdmissionCap.CapHoldsExactly` says from which
  states that can happen.
- A policy with a friction threshold of 0 is accepted, and then no capture passes
  (`ScoringPolicy.OutcomesReachable`).
- The rule that whatever ends without a verdict returns its budgets has exactly two exceptions, both
  by cancellation: a `/validate-features` request dropped while the validator's body is read keeps
  both budgets spent (`AdmissionTheorems.DropWhileReadingKeepsBoth`), and a `/verify` request dropped
  while its proof is in flight keeps its quota spent (`AdmissionTheorems.DropInFlightKeepsQuota`).
  Every other drop returns everything (`AdmissionTheorems.ExactSettlement`).
- A reported wait is rounded down, so a retry at exactly that time can still be refused, for up to a
  second (`WalletAttempts.RetryValueIsTight`).
- Eviction changes which error a failed consume reports; `RegistryRefinement.EvictionChangesTheError`
  says exactly when.

## Model

| member | source | states |
|---|---|---|
| OrderStatistics.Nth | src/challenge/curve_trace.rs:245-260 | the k-th order statistic: at most k values lie strictly below it and more than k at or below it |
| OrderStatistics.RankIsUnique | src/challenge/curve_trace.rs:245-260 | at most one value has a given rank, so any selection that meets the rank condition computes the same median |
| OrderStatistics.SortedIsSorted | src/challenge/curve_trace.rs:245-260 | the reference ordering behind the median is an ascending permutation of its input |
| OrderStatistics.MedianDependsOnMultiset | src/challenge/curve_trace.rs:245-260 | the median is the same for every permutation of the values |
| OrderStatistics.MedianMonotone | src/challenge/curve_trace.rs:245-260 | raising values pointwise never lowers the median |
| OrderStatistics.MedianOfAscending | src/challenge/curve_trace.rs:245-260 | of ascending values the median is the middle one, or equally far from the two middle ones |
| OrderStatistics.MedianOfNegated | src/challenge/curve_trace.rs:245-260 | the median favours neither side: turning the signs of all values turns its sign |
| OrderStatistics.SelectNth | src/challenge/curve_trace.rs:251-256 | in-place selection permutes the array so that everything left of k is at most the k-th and everything right of it at least |
| OrderStatistics.LeftMaximumRank | src/challenge/curve_trace.rs:251-259 | after selection at the upper middle, the maximum of the left part is the lower middle |
| OrderStatistics.MedianInPlace | src/challenge/curve_trace.rs:245-260 | permutes the array and returns infinity for no values, otherwise the median of the original values for both parities |
| OrderStatistics.MajorityAboveForcesMedian | src/challenge/curve_trace.rs:376-379 | more than half of the values above a bound force the median above it, whatever the parity |
| OrderStatistics.HalfAboveDoesNotForceMedian | src/challenge/curve_trace.rs:376-379 | exactly half above a bound does not: for every even length there are values that show it |
| Alignment.SquaredDistanceIsEuclidean | src/challenge/curve_trace.rs:229-240 | the distance behind every search is Euclidean: the square of the difference for points that share a coordinate, the same for both coordinates, additive over the corner between two points, symmetric |
| Alignment.AdvanceStepByStep | src/challenge/curve_trace.rs:390-392 | the cursor moves one index on or back around the end, and k steps are k single ones |
| Alignment.NearestStep | src/challenge/curve_trace.rs:390-400 | the chosen step is within the window, minimises the distance over it, and is the first to do so |
| Alignment.SearchWindow | src/challenge/curve_trace.rs:388-400 | the window loop finds that first nearest step on the cyclic curve, and its distance |
| Alignment.ScanTrace | src/challenge/curve_trace.rs:384-412 | one walk either fills the buffer with the greedy residuals or is abandoned, and then its full median exceeds the best so far |
| Alignment.AbandonmentIsExact | src/challenge/curve_trace.rs:376-379 | once a prefix has more than half the length above a bound, the median of the whole sequence is above it |
| Alignment.ScoreCandidate | src/challenge/curve_trace.rs:383-416 | one start and direction lowers the best score exactly to the minimum of it and the candidate's full median |
| Alignment.AlignmentResidual | src/challenge/curve_trace.rs:364-419 | infinity exactly for an empty trace or curve; otherwise attained by some swept start and direction and at most the median of every other |
| CurveTrace.NearestSquared | src/challenge/curve_trace.rs:229-240 | the squared distance of some reference point, and at most that of every other |
| CurveTrace.NearestDistance | src/challenge/curve_trace.rs:229-240 | infinity for an empty curve, otherwise the root of the least squared distance |
| CurveTrace.FractionAt | src/challenge/curve_trace.rs:282-305 | in-band count and median nearest distance at one anchor |
| CurveTrace.InBandCounts | src/challenge/curve_trace.rs:282-296 | the in-band count is the number of points at most 25 units from the curve, the edge included |
| CurveTrace.ScoreRegion | src/challenge/curve_trace.rs:282-323 | the scores of one of the five anchors, with the greatest in-band count and, among the anchors that have it, the least median; and the issued anchor's scores whether or not it is one of the five |
| CurveTrace.Picks | src/challenge/curve_trace.rs:328-337 | 256 strictly increasing indices that begin with the first and end with the last point |
| CurveTrace.PicksAreEven | src/challenge/curve_trace.rs:328-337 | neighbouring picks are as far apart as whole indices allow: the quotient, or one more |
| CurveTrace.SubsampleForAlignment | src/challenge/curve_trace.rs:328-337 | the trace itself up to 256 points, otherwise its points at the picked indices |
| CurveTrace.ScoreCurveTrace | src/challenge/curve_trace.rs:486-535 | empty exactly below two points; otherwise one least residual per window of the sweep on the shifted subsample, none below the issued deviation for up to 256 points |
| CurveTrace.WalkDominatesNearest | src/challenge/curve_trace.rs:229-240 | every greedy walk is at every point at least as far as the nearest reference point |
| CurveTrace.OrderingPenaltyNonNegative | src/challenge/curve_trace.rs:146-153 | on the same points, the alignment residual is at least the median nearest distance |
| Following.SweptStartNearby | src/challenge/curve_trace.rs:382-383 | from some swept start every index is within 3 steps in either direction, including around the wrap |
| Following.FollowedWalkIsZero | src/challenge/curve_trace.rs:384-413 | a walk that can reach the first visited index has residual 0 at every point of a following trace |
| Following.FollowedTraceHasZeroResidual | src/challenge/curve_trace.rs:350-355 | with distinct points and a window of at least 3, a trace that pauses, wraps, starts anywhere or stops early scores exactly 0 |
| Following.FollowingTheDisplayedCurveIsFree | src/challenge/curve_trace.rs:355-356 | the same for a trace drawn over the curve where it is displayed, at the issued anchor |
| Following.FollowingIsFreeIffWindowSpansStride | src/challenge/curve_trace.rs:350-355 | all following traces score 0 if and only if the window is at least the start stride minus 1 |
| LongTraces.LongTraceMedians | src/challenge/curve_trace.rs:111-117 | above 256 points, over every curve, a trace of two points has a smaller median distance on its subsample than on itself |
| LongTraces.WalkStaysAtFirst | src/challenge/curve_trace.rs:384-413 | the walk over such a trace from the curve's first point is the sequence of nearest distances, for every window |
| LongTraces.NegativePenalty | src/challenge/curve_trace.rs:146-153 | for every curve, issued anchor, window and length above 256, a trace whose least residual is below its issued deviation |
| LongTraces.PenaltyNeverNegativeIffNotSubsampled | src/challenge/curve_trace.rs:146-153 | for every curve, issued anchor and window, the ordering penalty is nonnegative for all traces of a length if and only if the length is at most 256 |
| WalletAttempts.WalletAttemptTracker.CheckAndRecordAttempt | src/integrator/wallet_attempts.rs:89-112 | opens a window when none is live, then records one attempt below the cap or answers with the remaining seconds |
| WalletAttempts.WalletAttemptTracker.Check | src/integrator/wallet_attempts.rs:117-127 | answers from a live window only and changes nothing |
| WalletAttempts.WalletAttemptTracker.RefundOnSuccess | src/integrator/wallet_attempts.rs:131-135 | returns one attempt of a known wallet, never below zero |
| WalletAttempts.WalletAttemptTracker.EvictExpired | src/integrator/wallet_attempts.rs:144-151 | keeps exactly the entries with a live window or attempts on record, unchanged |
| WalletAttempts.CheckAgreesWithRecord | src/integrator/wallet_attempts.rs:89-127 | the two checks give the same answer and retry value if and only if the cap is at least 1 or the window is live |
| WalletAttempts.RetryValueIsTight | src/integrator/wallet_attempts.rs:89-112 | with no call in between, a refused wallet stays refused for the reported seconds and is admitted one second later, exactly when its window ends |
| WalletAttempts.SimilarStep | src/integrator/wallet_attempts.rs:89-151 | stores that differ only in idle wallets answer alike and stay so after any call; an eviction relates a store to itself |
| WalletAttempts.EvictionUnobservable | src/integrator/wallet_attempts.rs:144-151 | two runs that differ only by evictions anywhere give the same answers under a nondecreasing clock |
| IntegratorTracker.Tracker.CheckAndDeduct | src/integrator/tracker.rs:69-101 | deducts one unit exactly when the key is known and unlimited or below quota, and reports what then remains |
| IntegratorTracker.Tracker.Refund | src/integrator/tracker.rs:106-115 | returns one unit of a known key, never below zero |
| IntegratorTracker.Tracker.CurrentRemaining | src/integrator/tracker.rs:118-129 | what remains, all ones for an unlimited key and 0 for an unknown one |
| BudgetGuard.AdmitAttempt | src/validation/handler.rs:625-653 | both budgets are taken or neither: a capped wallet costs no quota, a key without quota leaves the wallet's attempts as they were, and each refusal is named |
| BudgetGuard.PreForwardBudgetGuard.RefundOnce | src/validation/handler.rs:425-430 | returns both charges if they are still pending and nothing otherwise |
| BudgetGuard.PreForwardBudgetGuard.Refund | src/validation/handler.rs:417-437 | an explicit refund followed by the drop returns the charges once |
| BudgetGuard.PreForwardBudgetGuard.ValidatorReached | src/validation/handler.rs:421-437 | after it, the drop returns nothing |
| BudgetGuard.AdmittedSpan | src/validation/handler.rs:924-1025 | from admission to the end of the guard: unless the validator was reached, quota and attempts end as they began; if it was, each is up by one |
| BudgetGuard.RefundUndoesAdmission | src/validation/handler.rs:1298-1301 | the refund is the exact inverse of the admission on both stores |
| ScoringPolicy.AcceptedExactly | src/validation/composite.rs:45-104 | a policy is accepted if and only if its weights sum to a million and friction is below rejection is below the scored share |
| ScoringPolicy.RefusalReasons | src/validation/composite.rs:45-104 | which reason a refused policy gets: exact conditions for all six, and the friction bound is named only below a rejection threshold that also passes the budget |
| ScoringPolicy.ScoreInRange | src/validation/composite.rs:84-94 | every score of an accepted policy lies between 0 and 1 minus the unallocated share, non-finite components included |
| ScoringPolicy.LoneRiskCostsItsShare | src/validation/composite.rs:150-156 | full risk in one component alone costs exactly that component's share, the temporal one nothing, and a non-finite component counts as full |
| ScoringPolicy.RaisingRiskIsNeverLenient | src/validation/composite.rs:150-165 | the score is monotone in each scored component and ignores the temporal one, and raising risk never moves the outcome toward pass |
| ScoringPolicy.OutcomeByScore | src/validation/composite.rs:150-165 | in parts per million: rejection exactly above its threshold, another capture exactly from the friction threshold up to and including the rejection one, a pass exactly below |
| ScoringPolicy.RejectionImpliesFriction | src/validation/composite.rs:158-165 | a score that rejects also meets the friction test |
| ScoringPolicy.OutcomesReachable | src/validation/composite.rs:84-94 | every accepted policy can flag and can reject, and can pass a capture if and only if its friction threshold is positive |
| ScoringPolicy.DevelopmentDefaultAlwaysPasses | src/validation/composite.rs:106-121 | the development default passes every capture and is no policy the constructor accepts |
| ScoringPolicy.DefaultIsNeutral | src/validation/composite.rs:110-119 | each of the four scored risks alone costs a fifth under the development default |
| Replies.SettlementMatchesVerdict | src/validation/handler.rs:1066-1201 | for every reply of either endpoint: quota stays spent exactly for a well-formed verdict, the slot exactly for a failure that is no quality retry, and only a standing pass is valid |
| Replies.OutcomesDiscloseOnlyListedReasons | src/paired/finalize.rs:56-82 | reasons come only from the endpoint's own list; the quality reason exactly for a quality retry, another capture exactly for a pass in the friction range, a protocol refusal exactly when the validator reported that listed reason without a verdict, the other two outcomes exactly as reported |
| Replies.RejectionReasonsArePassedOn | src/paired/finalize.rs:360-394 | every listed reason of a rejection but the quality one is passed on, the phrase mismatch by both endpoints, and no other is |
| Replies.RisksKeepTheirShare | src/validation/handler.rs:1202-1214 | each risk of the validator and of the service is weighed with its own share, the temporal one with none |
| Replies.StatusClasses | src/validation/handler.rs:1075-1077 | success statuses are the two hundreds and client errors the four hundreds |
| AdmissionProofs.EventKeepsInv | src/validation/handler.rs:400-437 | every step of every request, including drops, refunds, evictions and arrivals, keeps the ledger invariant |
| AdmissionProofs.DeductKeepsInv | src/validation/handler.rs:645-652 | a deduction or its refusal keeps the ledger invariant for both kinds of handler |
| AdmissionProofs.RecordKeepsInv | src/validation/handler.rs:631-638 | recording an attempt keeps the ledger invariant, also when it opens a window |
| AdmissionProofs.ReturnQuotaKeepsInv | src/validation/handler.rs:1298-1301 | the first half of a refund keeps the ledger invariant |
| AdmissionProofs.ReturnSlotKeepsInv | src/validation/handler.rs:1298-1301 | the second half keeps it, also when the attempt is of an earlier window |
| AdmissionTheorems.RunKeepsInv | src/validation/handler.rs:865-1211 | every run from a state that satisfies the invariant ends in one |
| AdmissionTheorems.WalletCap | src/integrator/wallet_attempts.rs:89-134 | in every reachable state a wallet's counter is at most the cap, the slots held in its window are the counter plus the surplus, the surplus is at most the straddling refunds, and the held slots are within the cap if and only if the surplus is within what the counter leaves |
| AdmissionTheorems.QuotaConservation | src/integrator/tracker.rs:69-115 | in every reachable state a key's spent quota is the number of requests holding a deduction, and with a limit, what remains and what is held add up to the quota |
| AdmissionTheorems.QuotaAdmitsExactlyBelowLimit | src/integrator/tracker.rs:69-129 | in every reachable state a key is admitted if and only if it is configured and fewer requests hold its quota than its configured limit, or that is unlimited; and what it is told is what is left |
| AdmissionTheorems.RefundsAreExact | src/validation/handler.rs:417-437 | no request returns a budget twice or one it still holds, and a quota refund always finds something to return |
| AdmissionTheorems.ExactSettlement | src/validation/handler.rs:1003-1211 | what a finished request keeps spent, for each way it can finish; a dropped one keeps its quota if and only if the drop was late and its slot if and only if it was late and no proof submission; a session is never dropped late and a proof submission always |
| AdmissionTheorems.DropWhileReadingKeepsBoth | src/validation/handler.rs:1044-1137 | for every key and wallet, a reachable request dropped while the body is read that keeps both budgets |
| AdmissionTheorems.DropInFlightKeepsQuota | src/relayer/handler.rs:156-168 | for every key, a reachable proof submission dropped in flight that keeps its quota |
| AdmissionFates.AttemptDecides | src/validation/handler.rs:631-638 | a validation request takes a slot of its wallet's current window if its attempt is allowed, and ends with nothing otherwise |
| AdmissionFates.EvictionOnlyForgets | src/integrator/wallet_attempts.rs:144-151 | an eviction in the middle of any run keeps exactly the wallets with a live window or attempts on record, and changes no answer |
| AdmissionFates.DeductionDecides | src/relayer/handler.rs:123 | a `/verify` request takes one unit of quota if its key has one, and ends with nothing otherwise |
| AdmissionFates.SubmissionDecides | src/relayer/handler.rs:156-168 | from a proof in flight, whatever happens next: a finished request holds its quota if and only if the submission was accepted, and it does if it was dropped |
| AdmissionFates.ClassificationDecides | src/relayer/handler.rs:125-152 | a first verification is registered and billed without a proof, an ill-shaped proof is refunded, and exactly the others are submitted |
| AdmissionFates.AdmissionDecides | src/validation/handler.rs:625-653 | a request refused its quota holds nothing when finished, an admitted one holds both budgets |
| AdmissionFates.IdentityDecides | src/validation/handler.rs:992-997 | a baseline write on /validate-features ends with both budgets returned, any other identity goes on |
| AdmissionFates.GuardedExitReturnsBoth | src/validation/handler.rs:400-437 | leaving or dropping while the guard is armed ends with both budgets returned, on every continuation |
| AdmissionFates.ForwardedReplyDecides | src/validation/handler.rs:1047-1137 | the forwarded reply decides: a finished request holds its quota if and only if that reply renders a verdict, unless it was dropped while that reply's body was read |
| AdmissionFates.SettledReplyDecides | src/validation/handler.rs:1075-1211 | with the service's own risks it decides the wallet slot as well |
| AdmissionFates.EndingIsFinal | src/validation/handler.rs:865-1211 | how a request ended never changes again, whatever the others do |
| AdmissionFates.EndedCanFinish | src/validation/handler.rs:1298-1301 | an ended request is done after the returns it still owes |
| AdmissionFates.BodyMattersExactly | src/validation/handler.rs:1075-1139 | the statuses whose body is read are exactly those on which two bodies can settle differently |
| AdmissionTheorems.QuotaBillsVerdicts | src/integrator/tracker.rs:69-115 | whenever all requests are finished, spent quota is the number of verdicts, accepted verifications and late drops |
| AdmissionTheorems.StraddlingRefundExceedsCap | src/integrator/wallet_attempts.rs:89-134 | a reachable state with cap 1 in which two slots of one window are held |
| AdmissionCap.SafeRunsStayWithinCap | src/integrator/wallet_attempts.rs:89-134 | from a live window without surplus and without an earlier attempt that may come back, or an ended one within the cap, every run inside the window stays within the cap |
| AdmissionCap.RunPastCap | src/integrator/wallet_attempts.rs:89-134 | from any other state, a run inside the window that exceeds it |
| AdmissionCap.CapHoldsExactly | src/integrator/wallet_attempts.rs:89-134 | in every reachable state, no continuation inside the window exceeds the cap if and only if, while it is live, there is no surplus and no earlier attempt that may still come back, and once it has ended, the cap is not exceeded already |
| ChallengeRegistry.ChallengeNonceRegistry.Issue | src/challenge/registry.rs:72-94 | prunes the wallet, stores the challenge under a nonce that is not live, and points the legacy pointer at it |
| ChallengeRegistry.IssueKeepsOnlyFresh | src/challenge/registry.rs:72-94 | after an issue the wallet holds the new challenge, current and fresh, and of its other nonces exactly the fresh ones; other wallets are as they were |
| ChallengeRegistry.ChallengeNonceRegistry.PeekChallenge | src/challenge/registry.rs:97-102 | the fresh challenge the legacy pointer names, if any, changing nothing |
| ChallengeRegistry.ChallengeNonceRegistry.PeekExactChallenge | src/challenge/registry.rs:105-113 | the fresh challenge under exactly this nonce, if any, changing nothing |
| ChallengeRegistry.ChallengeNonceRegistry.Consume | src/challenge/registry.rs:143-179 | the verdict in the order of the checks, and the removal of the nonce whenever it was found, expired or not, with pointer and empty wallet cleaned up |
| ChallengeRegistry.ChallengeNonceRegistry.EvictStale | src/challenge/registry.rs:182-199 | keeps exactly the fresh entries, the pointers to them and the wallets that have any |
| ChallengeRegistry.RunsStayWellFormed | src/challenge/registry.rs:143-199 | in every reachable state no wallet is empty and the pointer is empty or names an entry of its wallet |
| ChallengeRegistry.ConsumeSucceedsExactly | src/challenge/registry.rs:143-179 | a consume succeeds if and only if the nonce is held, less than ttl plus one seconds have passed, and a legacy call names the current one |
| ChallengeRegistry.ExactConsumeErrors | src/challenge/registry.rs:143-179 | why an exact consume fails: an unknown wallet, an unknown nonce of a known one, or an age of at least ttl plus one seconds |
| RegistryRefinement.FreshAfter | src/challenge/registry.rs:72-199 | what each call does to any fresh entry: issue adds one, consumes remove one, nothing else changes it |
| RegistryRefinement.EvictionHidesOnlyErrors | src/challenge/registry.rs:182-199 | runs that differ only by evictions give the same peeks and the same consume successes |
| RegistryRefinement.EvictionChangesTheError | src/challenge/registry.rs:143-199 | an eviction just before a consume changes its verdict if and only if the wallet is held and, for a legacy call, its pointer names a stale entry, for an exact one, the nonce is stale or is unknown and every entry is stale |
| RegistryRefinement.LegacyRunsSeeOneSlot | src/challenge/registry.rs:97-179 | runs of legacy calls answer, errors included, like one overwritable slot per wallet |
| RegistryRefinement.RunsSeeTableAndPointers | src/challenge/registry.rs:72-199 | runs of exact and legacy calls and evictions in any order issue, peek and consume like a table that prunes nothing, with one pointer a wallet that only issues move |
| RegistryRefinement.OthersLeaveEntryAlone | src/challenge/registry.rs:72-199 | in that table an entry survives every run that does not name it: later issues, other nonces, pointer moves |
| SingleUse.EventKeepsInv | src/validation/handler.rs:887-1003 | every step of every interleaving keeps used nonces out of the store and used by one request each, and each phrase the one bound at issue |
| SingleUse.NonceForwardsOnce | src/validation/handler.rs:998-1003 | two projection-2 forwards with the same wallet and nonce are the same forward |
| SingleUse.ForwardCarriesIssuedPhrase | src/validation/handler.rs:887-904 | a projection-2 forward names a nonce issued less than ttl plus one seconds before its consume, and carries the phrase bound to it if and only if the nonce was issued before the peek, which required challenges enforce |
| SingleUse.NamedNonceForwardsItsPhrase | src/validation/handler.rs:887-904 | every request that names a nonce issued before it arrived forwards, if at all, the phrase bound at issue, whether or not challenges are required |
| SingleUse.OrderlyRequestIsForwarded | src/validation/handler.rs:887-1047 | a request whose nonce the store holds fresh is forwarded, by peek, identity, consume and forward, with the phrase bound to it, and its nonce is used up |
| SingleUse.NonceNamedBeforeItsDraw | src/validation/handler.rs:887-904 | the condition has both sides: a run that names a nonce and peeks before the nonce is drawn forwards no phrase |
| SingleUse.OtherProjectionsForwardTheCurrentPhrase | src/validation/handler.rs:887-904 | a request of another projection forwards, if at all, the phrase of its wallet's current fresh nonce when it peeked, and none exactly if there was none, which required challenges refuse |
| CrossWalletCooldown.CrossWalletCooldownTracker.CheckCooldown | src/auth/cross_wallet_cooldown.rs:41-77 | lets untracked, same-wallet and cooled requests pass and tracks them, answers others with at least one second, and tracks nothing new at the cap |
| CrossWalletCooldown.CrossWalletCooldownTracker.EvictStale | src/auth/cross_wallet_cooldown.rs:80-85 | keeps exactly the entries younger than the cooldown, unchanged |
| CrossWalletCooldown.EvictionUnobservable | src/auth/cross_wallet_cooldown.rs:41-85 | below the cap, runs that differ only by evictions give the same answers |
| CrossWalletCooldown.EvictionSeenAtCap | src/auth/cross_wallet_cooldown.rs:41-85 | with a full store, an eviction just before a new fingerprint's two wallets changes their answers if and only if it evicts anything |
| CrossWalletCooldown.FullStoreIsReached | src/auth/cross_wallet_cooldown.rs:41-85 | a run that fills the store with entries that all can be evicted after the cooldown |
| CrossWalletCooldown.TrackedSince | src/auth/cross_wallet_cooldown.rs:41-85 | after an accepted request, and until the next, its fingerprint is tracked with its wallet and time or the cooldown has passed |
| CrossWalletCooldown.CooldownDecides | src/auth/cross_wallet_cooldown.rs:41-85 | the next request from a fingerprint is accepted if and only if its wallet is the same or a full cooldown has passed, whatever rejections and evictions lie between |
| CrossWalletCooldown.ReportedWaitIsTight | src/auth/cross_wallet_cooldown.rs:56-75 | the reported wait is what is left in whole seconds, at least one: a wait of two or more is refused until it is over, any wait is let through a second later, and exactly when the cooldown ends |
| CommitmentRegistry.Registry.CheckAndRecord | src/relayer/commitment_registry.rs:36-63 | reports whether the commitment was known, adds it, clears a full set first, and refreshes the activity time |
| CommitmentRegistry.Registry.EvictStale | src/relayer/commitment_registry.rs:66-70 | drops exactly the keys idle for an hour |
| CommitmentRegistry.EveryReachableSetWithinCap | src/relayer/commitment_registry.rs:36-63 | no reachable set exceeds ten thousand commitments |
| CommitmentRegistry.KnownUntilForgotten | src/relayer/commitment_registry.rs:36-70 | a recorded commitment is known until its key's full set is cleared or the key is evicted after 3600 idle seconds |
| CommitmentRegistry.ProofFreeRepliesAreSeparated | src/relayer/handler.rs:107-139 | between two proof-free registrations of one commitment under one key lies such a clear or eviction |
| CommitmentRegistry.KnownWhileFewAndActive | src/relayer/commitment_registry.rs:36-70 | counted from the run alone: while a key's calls have named at most ten thousand commitments and no eviction finds it idle for an hour, everything it recorded stays known |
| CommitmentRegistry.IdleKeysAreForgotten | src/relayer/commitment_registry.rs:66-70 | an eviction an hour after every call of a key drops all it has recorded |
| DigestEncoding.Canonical | src/validation/authorization.rs:73-82 | the hashed bits are the number's own, except that negative zero becomes positive zero |
| DigestEncoding.FiniteExactlyBelowInfinity | src/validation/authorization.rs:73-78 | a number is encodable if and only if its bits, the sign aside, are below those of infinity |
| Encodability.EncodableExactly | src/validation/authorization.rs:48-114 | a request has an encoding if and only if every number it holds is finite and every list and text is shorter than two to the 32nd |
| DigestEncoding.PreimageReadsBack | src/validation/authorization.rs:162-184 | equal hashed bytes come from requests that agree on every bound field up to the sign of zero |
| DigestEncoding.PreimageIsUniquelyDecodable | src/validation/authorization.rs:162-184 | two encodable requests have equal hashed bytes if and only if they agree up to the sign of zero and the unbound voice-isolation flag |
| DigestEncoding.CanonicalAllEqual | src/validation/authorization.rs:73-82 | agreeing up to the sign of zero means equal length and, at each index, equal bits or two zeros |
| DigestEncoding.VectorPeels | src/validation/authorization.rs:92-114 | a length-prefixed list in front of anything determines its elements and what follows |
| DigestEncoding.SignalsPeel | src/validation/authorization.rs:116-136 | so do the optional nested client signals |
| DigestEncoding.StudyPeels | src/validation/authorization.rs:138-155 | so does the study context |
| Bytes.FromLeConcat | src/validation/authorization.rs:40-52 | the first byte counts least: what follows a string of bytes counts 256 times as much per byte |
| Bytes.ToLePadded | src/validation/authorization.rs:40-52 | a wider integer only has more zero bytes at its end |
| Bytes.LeRoundTrip | src/validation/authorization.rs:40-52 | an integer that fits its width is read back from its bytes |
| DigestSample.SampleFeatures | src/validation/authorization.rs:162-171 | the bytes of the first section of a sample request, written out |
| DigestSample.SampleTraces | src/validation/authorization.rs:172-180 | the bytes of its contours and audio |
| DigestSample.SampleContext | src/validation/authorization.rs:116-155 | the bytes of its client signals and study context |
| DigestSample.SamplePreimage | src/validation/authorization.rs:162-184 | the whole byte string of the sample: the domain with its final NUL, and the three sections in this order |
| DigestEncoder.Encoder.F64Vector | src/validation/authorization.rs:92-98 | appends the encoding of the list, and refuses exactly lists that are too long or hold a non-finite number |
| DigestEncoder.Encoder.StringVector | src/validation/authorization.rs:108-114 | appends the encoding of the list, and refuses exactly lists or strings that are too long |
| DigestEncoder.Encoder.Signals | src/validation/authorization.rs:116-136 | appends the encoding of the client signals, and refuses exactly unencodable ones |
| DigestEncoder.Encoder.Study | src/validation/authorization.rs:138-155 | appends the encoding of the study context, and refuses exactly unencodable ones |
| DigestEncoder.RequestPreimage | src/validation/authorization.rs:162-184 | the encoder yields the specified bytes for exactly the encodable requests and nothing for the others, among them every request with a feature at or above the bits of infinity |
| WalletAuthorization.HexRoundTrip | src/validation/authorization.rs:234-268 | decoding the lowercase hex of any bytes gives them back |
| WalletAuthorization.UnhexRoundTrip | src/validation/authorization.rs:234-268 | rendering what an even-length lowercase hex text decodes to gives the text back |
| WalletAuthorization.HexReadsInOrder | src/validation/authorization.rs:260-268 | read as digits to base 16, the two characters of each byte are that byte, in the order of the bytes |
| WalletAuthorization.RenderLowerHex | src/validation/authorization.rs:260-268 | the rendering loop yields two lowercase digits per byte, high nibble first |
| WalletAuthorization.DecodeLowerSignature | src/validation/authorization.rs:234-250 | accepts exactly 128 lowercase hex characters and returns the 64 bytes that render to them |
| WalletAuthorization.DecimalInjective | src/validation/authorization.rs:186-197 | different projection versions print differently |
| WalletAuthorization.DecimalReadsBack | src/validation/authorization.rs:186-197 | the printed version consists of decimal digits, stands for the version, and has no leading zero |
| WalletAuthorization.MessageLines | src/validation/authorization.rs:186-197 | the signed text is five lines: the domain, and wallet, nonce, projection and digest behind their labels |
| WalletAuthorization.MessageBindsEverything | src/validation/authorization.rs:186-197 | equal signed texts have equal wallets, nonces, projections and digests |
| WalletAuthorization.VerifyWalletAuthorization | src/validation/authorization.rs:199-232 | returns a nonce exactly for a projection-2 request that names the key and carries its signature over this very request, nothing exactly for another projection without authorization, and each refusal in the order of the checks |
| WalletAuthorization.AcceptedRequestWasIntended | src/validation/authorization.rs:199-232 | if a key only ever signed the texts of certain intents and the hash does not collide, an accepted request equals one of them in wallet, nonce, projection and every bound field |
| ScoringPayload.SignerAcceptsExactly | scripts/sign-scoring-config.ts:208-247 | the signer accepts a policy over JavaScript numbers if and only if its shares are integers the service's constructor accepts and its revision and nonce are the demanded ones |
| ScoringPayload.AllZeroIsZero | scripts/sign-scoring-config.ts:208-247 | the refused nonce is the one that stands for 0 |
| ScoringPayload.EncodeScoringPayload | scripts/sign-scoring-config.ts:249-276 | refuses what the check refuses, otherwise yields the service's layout of the policy's fields |
| ScoringPayload.WriteFields | scripts/sign-scoring-config.ts:254-275 | writing at fixed offsets into a zeroed buffer equals writing the fields one after another |
| ScoringPayload.DeserializeSerialize | src/config.rs:91-106 | the service reads back every field of every well-formed payload |
| ScoringPayload.SerializeDeserialize | src/config.rs:91-106 | every 87-byte string is the encoding of the one payload it decodes to |
| ScoringPayload.SignedPolicyReadsBack | src/config.rs:91-106 | every policy the signer accepts reaches the service unchanged and passes the service's constructor |
| ScoringPayload.FieldOffsets | src/config.rs:91-106 | at which of the 87 bytes each field stands, and that integers stand there least significant byte first |
| ScoringPayload.PayloadStamps | scripts/sign-scoring-config.ts:249-276 | every signed payload carries version 1, the service's name, cluster 1, environment 2 for production and 1 for development, and revision 1 |
| ScoringPayload.FixtureBytes | src/config.rs:603-628 | the 87 bytes of the wire fixture that the signer and the service share |
| ScoringResolution.ResolvedPolicyWasSigned | src/config.rs:156-249 | whatever resolves is the development default without a bundle outside production, or the policy of a canonical ASCII bundle of at most 256 bytes, signed by the authority, that meets every demand of the release, its config ID being the base58 hash of domain and payload |
| ScoringResolution.NoBundleResolvesInDevelopmentOnly | src/config.rs:160-172 | without a bundle development resolves, to revision 0 and a policy that passes every capture, and production does not |
| ScoringResolution.SignedBundleIsRead | src/config.rs:177-219 | a bundle of base58 payload and valid signature passes every check up to the payload's fields |
| ScoringResolution.SignerAndServiceAgree | src/config.rs:263-293 | the signer's bundle resolves if and only if the release pins its environment and config ID, and then to the same weights and thresholds |
| Splitting.SplitInTwo | src/config.rs:184-194 | a text that splits into two pieces is those pieces around one separator |
| Splitting.SplitFirst | src/config.rs:184-194 | a text without a separator, in front of one, is the first piece, and the pieces of the rest follow |
| SasCredential.ParseCredentialAuthorizedSigners | src/attestation/sas.rs:251-288 | succeeds exactly on accounts that decode, with their signers; says so exactly when the discriminator is wrong or the count exceeds the data |
| SasCredential.DecodeCredential | scripts/rotate-sas-authority.ts:82-118 | succeeds on exactly the same accounts, shows their authority and signers as addresses and their name as text, and names the same two refusals |
| SasCredential.DecodedIsLaidOut | src/attestation/sas.rs:244-249 | what is decoded, written in the documented layout, is a prefix of the account |
| SasCredential.LaidOutIsDecoded | src/attestation/sas.rs:244-249 | a credential written in the documented layout, followed by anything, decodes to itself |
| SasCredential.OneSignerAccount | src/attestation/sas.rs:244-249 | an account byte by byte, with its lengths as literal bytes, decodes to its one-letter name and one signer, whatever follows |
| SasCredential.DecodesExactlyTheLayouts | src/attestation/sas.rs:244-249 | an account decodes if and only if it begins with the layout of some credential, and that credential is unique |
| SasCredential.CrossCheck | scripts/rotate-sas-authority.ts:74-81 | on the same account both parsers succeed together, exactly if it begins with a credential somebody wrote, with that credential's signers, as bytes in the service and as addresses in the script |

## Left out

- HTTP routing, JSON parsing, timeouts, body limits, padding and logging; a reply is a datatype.
- Solana RPC, Ed25519, SHA-256, base58 and the script's UTF-8 text decoder: parameters, with base58's round trip, alphabet and length bound as stated hypotheses of the agreement theorems.
- Random draws: the registry takes a sequence of drawn nonces of which one is not live; single use assumes that issued nonces are distinct.
- f64 rounding: distances, risks, weights and thresholds are reals, the square root any strictly increasing root with 0 at 0; only the signed encoding works on binary64 bits.
- The reported in-band fraction: kept as a count, which orders scores of one trace alike.
- The curve's trigonometry, `sanitize_trace` and the kinematic scores: the reference points are arbitrary.
- The library's selection algorithm: a selection loop with the same documented contract stands in for it.
- Development-mode registration of unknown integrators, and the wrap-around of the 64-bit counter of an unlimited key.
- Store calls that read a length or a clock outside their map lock are single atomic steps with one clock reading.
- Fingerprints: the subnet canonicalisation and the hash are an abstract key.
- The probing blocklist, client-signal screening and reputation reads, which take no budget.
- `derive_projection_intent`, the compatibility-evidence checks, `validate_proof_shape` and the paired request's bounds: case analysis without state; the ledger takes their results as inputs.
- The commitment registry's answer is an input of the ledger's `/verify` steps; its own history is proved separately.
- The paired round state machine, the rate limiter and the semaphores: they are not part of this repository.
- The JSON front of the signing tool: `requireChoice` and `requireExactKeys` are replaced by typed fields.
- The wording of errors: refusals that differ only in text may share a constructor, as do a too-long and a non-finite signed field.
- CrossWalletCooldown.EvictionUnobservable: says nothing once the tracking cap is reached, because answers then do change; `CrossWalletCooldown.EvictionSeenAtCap` says when.
- CrossWalletCooldown.CooldownDecides: does not cover a first request that was let through untracked at the cap.
- RegistryRefinement.EvictionHidesOnlyErrors: compares consume successes only, because the error kind does change; `RegistryRefinement.EvictionChangesTheError` says when.
- RegistryRefinement.RunsSeeTableAndPointers: compares consume successes only, for the same reason.
