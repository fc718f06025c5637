# StellarTrust: a verified model of its money paths

This project models the parts of StellarTrust on which the safety of money rests, and proves what
they guarantee: the idempotent money mutations from the mobile client to the server, the two Soroban
contracts, the validation of payout handles, the throttles and single-use challenges, and the textual
or cached computations that have to agree with a simple meaning.

Code that updates state step by step is a class or a method with loops, proved against a
specification function (`Apply`, `Validate`, `Flagged`, `Replaced`, ...). The theorems are then about
every run of that specification. Run `dafny verify dfyconfig.toml`.

## The files

| files | subject |
|---|---|
| `Idempotency`, `MobileClient` | the idempotency middleware as a step system; store, server, lossy network, retry loop, key per intent, escrow action |
| `RwaToken`, `RwaTokenRuns` | the real-world-asset token contract and its runs |
| `Escrow`, `EscrowRuns` | the escrow contract over a token ledger and its runs |
| `Normalization`, `Iban`, `IbanCountries`, `Payouts`, `PayoutTheorems`, `PayoutForms`, `Fingerprints` | normalisation, MOD 97-10 and its country tables, weighted checksums, validation, the forms it accepts, fingerprint text |
| `RateLimit` | the shared fixed-window counter with interleaved Redis commands |
| `AdminSignIn` | lockout, wallet challenges, the two sign-in handlers, and their runs |
| `Money`, `Cors`, `Metrics`, `SeriesKeys`, `Reconciliation` | fast or textual forms against their meaning |
| `Balances`, `Counting`, `Arithmetic`, `Text`, `Wrappers` | addresses, i128 and ledger sums, cardinalities, products and quotients, digit strings, `Option` |

## Conventions

* Time is a natural number that never decreases. A contract call is atomic: an error or a trap leaves
  the state unchanged. `overflow-checks = true` (contracts/Cargo.toml:19) makes an i128 overflow a trap.
* SHA-256 is injective on request payloads. Wallet signatures, password checks and Unicode tables
  beyond ASCII are parameters. Random ids and keys are fresh.
* A random choice of the environment (lost messages, other clients, other instances, handler answers,
  wallet decisions) is a nondeterministic choice in a method, so its contract holds for every choice.
* Nobody signs with the escrow contract's own address, and the escrow's token moves only by transfers.

## Where the code and its documentation differ

* README.md:673 promises that pro-rata payouts are "exact under rounding". The contract rounds every
  share down. `PayoutDust` gives the true bound, `PayoutIsExactWhen` the exact condition, and
  `ThreeHoldersFallShort` a token for which the promise fails.
* The idempotency middleware reserves nothing between lookup and store, so at-most-once needs the
  premise that requests with one key do not overlap. `LookupIsSafeExactlyWhen` gives the exact
  condition: a lookup keeps the guarantee if and only if no request with its key is being handled.
  `CompletionsBoundedByEarlyLookups` is what remains without the premise, and for one client at most one
  completion per copy it sent (`MobileClient.PostKeyed`). `TimedOutAttemptCompletesTwice` is a single
  client that reaches two.
* The request hash is over `req.path`, which is relative to the mount of the router, while one store
  serves all routers (backend/src/app.ts:755-785). A key is therefore not bound to the mount: a request
  with the same path below another one is given the remembered answer (`ReplayedExactlyWhen`).
* The escrow action falls through to the wallet route on any 409, also on an idempotency conflict.
  Because a key is bound to its path and body, a key that completed on one route can only be told 409
  on the other, for ever (`OtherRequestsConflictForever`).
* The IBAN check admits pairs that ISO 13616-1 does not prescribe. A second pair from 00 to 99 is
  accepted if and only if the prescribed one is 02, 97 or 98 (`SecondPairExactlyWhen`);
  AD02 0000 0000 0000 0000 0085 and AD99 0000 0000 0000 0000 0085 both pass (`TwoPairsAccepted`).
* The two implementations of the payment repository disagree on a mismatch that was resolved and comes
  back. In Postgres it is reported, and "matched" means that nothing was flagged
  (`RowsMatchedExactlyWhen`). In memory, the fallback when no persistent store is configured
  (backend/src/app.ts:601-603), a resolved record is never reopened: the run flags the mismatch and still
  reports "matched" (`ReturningMismatchIsHidden`). They agree if and only if nothing that was found had
  been resolved before (`RepositoriesAgreeExactlyWhen`).
* A series key in the metrics registry does not escape label values. For a metric with fixed label
  names a label set is the only one with its key if and only if no value spells `,name=` with the name
  of its own label or of the next (`FixedNamesIdentifyExactlyWhen`). Over all label names it shares its key
  if and only if it has two labels or more, or its only value spells a later label
  (`KeyIsSharedExactlyWhen`).
* backend/src/lib/cors.ts:10 says that `*` stands for exactly one host label. It stands for any
  dot-free text within a label: every wildcard entry allows its own text with the stars deleted
  (`StarsMayVanish`). A label can never be added.

## Model

| member | source | states |
|---|---|---|
| Idempotency.StepKeepsInv | backend/src/middleware/idempotency.ts:143-177 | under any interleaving a 2xx answer leaves a record for its key, and every record is a 2xx answer |
| Idempotency.ReachKeepsInv | backend/src/middleware/idempotency.ts:124-182 | the same over every run of lookups and answers |
| Idempotency.StoredKeyBlocks | backend/src/middleware/idempotency.ts:143-153 | once a key is stored no step starts another handler run for it |
| Idempotency.StoredKeyStaysBlocked | backend/src/middleware/idempotency.ts:124-182 | the same over every continuation: runs going on or completed later were already going on or completed |
| Idempotency.NoHandlerAfterSuccess | backend/src/middleware/idempotency.ts:124-182 | after any 2xx answer for a key was sent, no request that looks the key up later runs the handler |
| Idempotency.CompletionsBoundedByEarlyLookups | backend/src/middleware/idempotency.ts:30-40 | 2xx handler runs for a key number at most the requests that looked it up before the first store, even though a racing store may overwrite the entry |
| Idempotency.OverlapCompletesTwice | backend/src/middleware/idempotency.ts:143-177 | from the empty server, two overlapping copies of any keyed request both complete |
| Idempotency.StepKeepsOnce | backend/src/middleware/idempotency.ts:143-177 | without overlap: at most one run at a time, at most one completion, every 2xx answer repeats the stored one, and a stored entry is never replaced |
| Idempotency.ReachKeepsOnce | backend/src/middleware/idempotency.ts:124-182 | the same over every run without overlap |
| Idempotency.AtMostOnceWithoutOverlap | backend/src/middleware/idempotency.ts:124-182 | without overlap the handler completes at most once, exactly once as soon as any 2xx answer was sent, and all 2xx answers carry the same status and body |
| Idempotency.OnceMeansAtMostOnce | backend/src/middleware/idempotency.ts:124-182 | the invariant of non-overlapping runs implies the at-most-once guarantee in numbers |
| Idempotency.ReplayedExactlyWhen | backend/src/middleware/idempotency.ts:111-153 | a remembered answer is given to a later request with its key if and only if method, path below the router's mount and body agree, whatever the mount; any other is told 409 |
| Idempotency.EveryRequestIsToldRightly | backend/src/middleware/idempotency.ts:124-182 | over every run: an unguarded request gets its handler; a guarded one without a key of 8 to 200 characters is told 400; any other gets its handler, or the answer of a completed request under its key if method, path and body agree, or 409 |
| Idempotency.HandlerNeedsAKey | backend/src/middleware/idempotency.ts:130-140 | over every run the handler of a guarded request runs only for a key of 8 to 200 characters, and a request without one is told 400 without it |
| Idempotency.RememberedExactlyWhen | backend/src/middleware/idempotency.ts:165-177 | over every run a key is in the store if and only if the handler of a guarded request with it has ended with 200 to 299 |
| Idempotency.HandlerStartsExactlyWhen | backend/src/middleware/idempotency.ts:130-180 | taking a request in starts its handler if and only if it is unguarded, or carries a valid key under which no handler has completed; nothing is written |
| Idempotency.AnswersComeFromHandlers | backend/src/middleware/idempotency.ts:165-178 | over every run an answer given after the handler ran is exactly what that handler answered, to the request that was sent |
| Idempotency.LookupIsSafeExactlyWhen | backend/src/middleware/idempotency.ts:143-180 | in any state that kept the premise, taking in a request keeps every continuation at most once if and only if no request with its key is being handled |
| Idempotency.BothFinish | backend/src/middleware/idempotency.ts:143-177 | a lookup while another request with the key is being handled can end in two completions, whatever the two requests are |
| Idempotency.StoredAloneIsFinal | backend/src/middleware/idempotency.ts:30-40 | without overlap a stored answer stays as it is for ever |
| Idempotency.OtherRequestsConflictForever | backend/src/middleware/idempotency.ts:145-150 | a key stored for one request answers every different request with 409 for ever |
| IdempotencyServer.InMemoryIdempotencyStore.Get | backend/src/middleware/idempotency.ts:33-35 | the stored answer of the key, or none |
| IdempotencyServer.InMemoryIdempotencyStore.Set | backend/src/middleware/idempotency.ts:37-39 | replaces the entry of the key and no other |
| IdempotencyServer.IdempotentServer.OnRequest | backend/src/middleware/idempotency.ts:130-180 | header check, lookup, conflict, replay and handler start refine the lookup step; nothing is written to the store |
| IdempotencyServer.IdempotentServer.OnJson | backend/src/middleware/idempotency.ts:165-178 | the replaced `res.json` refines the answer step: only a 2xx answer of a guarded request is stored |
| MobileClient.Network.Environment | backend/src/middleware/idempotency.ts:124-182 | whatever requests arrive, overlapping or not, and whatever handlers answer: answers stay answered and nobody else sends this client's keys; if lookups of a key never overlap, the at-most-once invariant of every key is kept |
| MobileClient.Network.Fetch | app/src/api/http.ts:93-106 | one request goes out, and at most one more carries its key; if an answer comes back, the server really gave it to an equal request |
| MobileClient.ApiRequest | app/src/api/http.ts:64-150 | sends copies of one request, at most three and only one unless it is a GET or has a key, each further one only after 429, 502, 503, 504, a deadline or no connection; the result is the last outcome, every answer is one the server gave; a 401 expires the session; also with overlap no more requests carry the key than copies were sent |
| MobileClient.TimedOutAttemptCompletesTwice | app/src/api/http.ts:85-141 | for every keyed request, a first attempt that times out while being handled and its retry can both complete |
| MobileClient.CompletionsAreSent | backend/src/middleware/idempotency.ts:124-182 | in any state a key has at most as many completions as requests that carry it |
| MobileClient.IdempotencyKey.Next | app/src/lib/idempotency.ts:37-40 | the key minted first is returned until reset, and a new one differs from all earlier ones |
| MobileClient.IdempotencyKey.Reset | app/src/lib/idempotency.ts:42-44 | the key is given up and stays among the minted ones, so that the next differs |
| MobileClient.IdempotencyKey.Submit | app/src/lib/idempotency.ts:11-44 | a press posts its body to its path under the held key, and gives the key up exactly on success |
| MobileClient.IdempotencyKey.SubmitUntilDone | app/src/lib/idempotency.ts:31-46 | one intent over any number of presses and edits: one key that no earlier intent had and at most one completion per request sent; without overlap at most one, and exactly one with the body returned if the client was told so; only success gives the key up |
| MobileClient.PostKeyed | app/src/api/client.ts:168-180 | copies of this POST under this key go out and nothing else; it completes at most once per copy; without overlap, success means exactly one completion with the body returned |
| MobileClient.PostUnkeyed | app/src/api/client.ts:197-208 | this POST, without a key, goes out exactly once |
| MobileClient.SignAndSubmit | app/src/features/escrow/useEscrowAction.ts:88-109 | an unkeyed prepare, then, if the wallet signs what came back, copies of a keyed submit of the signed envelope, and nothing else; whichever came last decides |
| MobileClient.Attempt | app/src/features/escrow/useEscrowAction.ts:67-110 | unless the wallet is known to sign, first a keyed POST to the action itself, whose answer stands unless it is a 409; after a 409, or from the start, the wallet route under the same key; nothing else is sent |
| MobileClient.EscrowAction.KeyFor | app/src/features/escrow/useEscrowAction.ts:57-64 | one key per action, kept until given up; keys of different actions differ |
| MobileClient.EscrowAction.Perform | app/src/features/escrow/useEscrowAction.ts:66-123 | the requests of a press in order, with paths spelled out from order and action; the key is given up exactly on success, and then the handler completed exactly once with the body returned |
| MobileClient.EscrowAction.PressUntilDone | app/src/features/escrow/useEscrowAction.ts:46-123 | one intent over any number of presses, losses and route changes: requests only to the three routes of the action, one key held until success, and at most one completion per request sent; without overlap at most one, and exactly one if the client was told so |
| MobileClient.AnsweredIsCompleted | backend/src/middleware/idempotency.ts:145-177 | any 2xx answer to a keyed request is the answer of the only completion of its key |
| RwaToken.RwaTokenContract.Initialize | contracts/rwa_token/src/lib.rs:128-174 | checks in the contract's order, then records the token with all units at the issuer |
| RwaToken.RwaTokenContract.Transfer | contracts/rwa_token/src/lib.rs:177-208 | the whole new state and outcome, including self-transfers and the overflow trap |
| RwaToken.RwaTokenContract.CheckAuthorized | contracts/rwa_token/src/lib.rs:367-373 | true exactly for addresses the allowlist maps to true |
| RwaToken.RwaTokenContract.MarkDistributed | contracts/rwa_token/src/lib.rs:248-259 | sets the one-shot mark, with the issuer's authorization, and changes nothing else |
| RwaToken.RwaTokenContract.Freeze | contracts/rwa_token/src/lib.rs:262-270 | only the freeze mark changes, and only for the issuer |
| RwaToken.RwaTokenContract.Unfreeze | contracts/rwa_token/src/lib.rs:273-281 | only the freeze mark changes, and only for the issuer |
| RwaToken.RwaTokenContract.Authorize | contracts/rwa_token/src/lib.rs:284-296 | one allowlist entry becomes true; nothing changes if no authorization is required |
| RwaToken.RwaTokenContract.RevokeAuthorization | contracts/rwa_token/src/lib.rs:299-311 | one allowlist entry becomes false; nothing changes if no authorization is required |
| RwaToken.RwaTokenContract.GetHolders | contracts/rwa_token/src/lib.rs:327-336 | every holder with a positive balance, each once, and nobody else |
| RwaToken.RwaTokenContract.AllPayoutShares | contracts/rwa_token/src/lib.rs:230-245 | lists every positive holder once with that holder's own `payout_share`; traps exactly when one of those shares traps |
| RwaTokenRuns.StepKeepsLedger | contracts/rwa_token/src/lib.rs:128-208 | every call keeps balances non-negative and summing to the supply, and under required authorization every balance entry has an allowlist entry |
| RwaTokenRuns.RunKeepsLedger | contracts/rwa_token/src/lib.rs:128-311 | the same in every reachable state |
| RwaTokenRuns.OnlyMissingAuthorizationTraps | contracts/rwa_token/src/lib.rs:177-208 | in every reachable state a call aborts exactly when a required authorization is missing: the addition in `transfer` never overflows i128 |
| RwaTokenRuns.TransferMovesExactly | contracts/rwa_token/src/lib.rs:177-208 | in every reachable state a transfer succeeds if and only if it is positive, signed, unfrozen, permitted and covered; it then moves exactly its units and touches nobody else, otherwise nothing |
| RwaTokenRuns.InitializeIsExact | contracts/rwa_token/src/lib.rs:128-174 | in every reachable state `initialize` succeeds if and only if there is no token, the supply is positive and the issuer signed; the token then has exactly the given terms, all units at the issuer, no mark set, and under required authorization exactly the issuer allowed |
| RwaTokenRuns.TransferRefusedExactlyWhen | contracts/rwa_token/src/lib.rs:177-199 | which refusal a transfer meets in every reachable state, for each of them if and only if |
| RwaTokenRuns.AllowlistFollowsTheIssuer | contracts/rwa_token/src/lib.rs:284-311 | under required authorization an address is allowed after a call exactly by the issuer's own authorize and revoke |
| RwaTokenRuns.TermsAreFixed | contracts/rwa_token/src/lib.rs:128-311 | issuer, asset reference, type and description, supply and authorization mode never change after initialisation |
| RwaTokenRuns.FrozenRunMovesNothing | contracts/rwa_token/src/lib.rs:185-188 | a run from a frozen state without an authorized unfreeze leaves all balances unchanged |
| RwaTokenRuns.FreezeStopsTransfers | contracts/rwa_token/src/lib.rs:262-270 | from every reachable token a freeze the issuer signed succeeds, and in every continuation without an unfreeze the issuer signed no transfer succeeds and every balance stays |
| RwaTokenRuns.UnfreezeRestoresTransfers | contracts/rwa_token/src/lib.rs:273-281 | an unfreeze the issuer signed succeeds, and then a transfer succeeds if and only if it is positive, covered, signed and permitted |
| RwaTokenRuns.FrozenExactlyWhen | contracts/rwa_token/src/lib.rs:262-281 | over every run the token is frozen if and only if a freeze has succeeded and no unfreeze since |
| RwaTokenRuns.AllowedExactlyWhen | contracts/rwa_token/src/lib.rs:284-311 | over every run under required authorization an address is allowed if and only if its authorization stands unrevoked, or it is the issuer and was never revoked |
| RwaTokenRuns.DistributedExactlyWhen | contracts/rwa_token/src/lib.rs:248-259 | over every run the distribution mark is set if and only if a `mark_distributed` has succeeded |
| RwaTokenRuns.IssuerCallsSucceedExactlyWhen | contracts/rwa_token/src/lib.rs:248-311 | over every run the issuer's calls need the token and the issuer's signature and nothing else, except that only the first distribution mark succeeds; none touches a balance, and a refused one nothing |
| RwaTokenRuns.DistributedAtMostOnce | contracts/rwa_token/src/lib.rs:248-259 | of all `mark_distributed` calls of a run at most one succeeds |
| RwaTokenRuns.OnlyTheHolderSpends | contracts/rwa_token/src/lib.rs:177-208 | a balance falls only in a run in which its holder authorized a call |
| RwaTokenRuns.RevokedHoldingIsLocked | contracts/rwa_token/src/lib.rs:190-194 | while an address stays revoked under required authorization its balance cannot change |
| RwaTokenRuns.PayoutDust | contracts/rwa_token/src/lib.rs:230-245 | in every reachable state the shares of a payout that fits i128 sum to at most it, short by less than the number of positive holders |
| RwaTokenRuns.PayoutIsExactWhen | contracts/rwa_token/src/lib.rs:230-245 | the shares sum to the payout if and only if every holder's part is a whole number of units |
| RwaTokenRuns.ThreeHoldersFallShort | contracts/rwa_token/src/lib.rs:217-245 | three equal holders and a payout of 100: no list of shares sums to it |
| RwaTokenRuns.DustBoundIsReached | contracts/rwa_token/src/lib.rs:230-245 | the dust bound is sharp: for every n there is a reachable token with n holders whose shares fall short of a payout by n − 1 |
| RwaTokenRuns.FittingPayoutNeverTraps | contracts/rwa_token/src/lib.rs:217-228 | in every reachable state a payout whose product with the supply fits i128 gives every holder the exact entitlement rounded down |
| RwaTokenRuns.PayoutShareIsExact | contracts/rwa_token/src/lib.rs:217-228 | in every reachable state a share is refused, aborted for a product beyond i128, or the exact entitlement rounded down, each if and only if |
| RwaTokenRuns.SharesFloor | contracts/rwa_token/src/lib.rs:238-243 | the sum of floored shares lies within one unit per holder of the payout, in scaled terms |
| RwaTokenRuns.SplittingNeverGains | contracts/rwa_token/src/lib.rs:177-228 | a transfer changes the joint entitlement of two addresses by at most one unit, and splitting with an empty address never gains |
| Balances.TotalUpdate | contracts/rwa_token/src/lib.rs:200-203 | writing one entry changes the sum of a ledger by the difference of that entry |
| Balances.MovedKeepsTotal | contracts/rwa_token/src/lib.rs:196-203 | moving units conserves the sum, also when both addresses are the same |
| Balances.EntriesBelowTotal | contracts/rwa_token/src/lib.rs:196-203 | in a non-negative ledger no entry and no pair of entries exceeds the sum |
| Escrow.TokenLedger.Transfer | contracts/escrow/src/lib.rs:137-138 | the token pays exactly when funds and i128 allow it, and moves exactly the amount |
| Escrow.EscrowContract.Initialize | contracts/escrow/src/lib.rs:119-160 | whole new state and outcome: the buyer's amount enters custody together with the record |
| Escrow.EscrowContract.ConfirmDelivery | contracts/escrow/src/lib.rs:163-177 | marks a locked, unconfirmed deal confirmed for the buyer only |
| Escrow.EscrowContract.Release | contracts/escrow/src/lib.rs:182-207 | pays the seller from a disputed or confirmed deal with the arbiter's authorization |
| Escrow.EscrowContract.Refund | contracts/escrow/src/lib.rs:210-233 | pays the buyer from a locked or disputed deal with the arbiter's authorization |
| Escrow.EscrowContract.Dispute | contracts/escrow/src/lib.rs:242-256 | a party of a locked deal freezes it |
| EscrowRuns.StepKeepsCustody | contracts/escrow/src/lib.rs:119-256 | every call, and every outside transfer, leaves at least the amount in custody while the deal is open |
| EscrowRuns.RunKeepsCustody | contracts/escrow/src/lib.rs:119-256 | the same over every run |
| EscrowRuns.OpenDealIsPayable | contracts/escrow/src/lib.rs:191-196 | an open deal can be paid to any address: neither funds nor i128 can fail |
| EscrowRuns.SettlementOnlyNeedsTheArbiter | contracts/escrow/src/lib.rs:182-233 | in every reachable state release and refund succeed if and only if the state permits it and the arbiter signed; lack of funds is never a reason |
| EscrowRuns.SupplyIsConserved | contracts/escrow/src/lib.rs:119-233 | no run creates or destroys units of any token |
| EscrowRuns.CustodyLeavesOnlyBySettlement | contracts/escrow/src/lib.rs:191-223 | only a successful release or refund takes tokens from the contract, exactly the amount and to exactly its payee |
| EscrowRuns.DepositIsExact | contracts/escrow/src/lib.rs:119-160 | in every reachable state `initialize` succeeds if and only if there is no deal and a signed buyer can pay a positive amount; it records every argument in its own place and moves exactly the amount into custody, nothing else |
| EscrowRuns.OutsideTransferIsExact | contracts/escrow/src/lib.rs:137-138 | in every reachable state a transfer outside the escrow succeeds if and only if it is signed and covered, and moves its amount and nothing else |
| EscrowRuns.StateTellsHistory | contracts/escrow/src/lib.rs:163-256 | over every run the state and the confirmation mark say exactly which calls have succeeded |
| EscrowRuns.TermsAreTheArguments | contracts/escrow/src/lib.rs:140-149 | over every run the recorded parties, token, amount and reference are the arguments of the `initialize` that succeeded |
| EscrowRuns.CallsFollowTheDeposit | contracts/escrow/src/lib.rs:163-256 | after a successful `initialize` every confirmation, dispute, release and refund of every run is answered exactly as its arguments and the calls that have succeeded say; a release pays the seller argument, a refund the buyer argument, both signed by the arbiter argument, and nothing else moves a token |
| EscrowRuns.NothingBeforeTheDeposit | contracts/escrow/src/lib.rs:266-271 | before a successful `initialize` every other call is refused and changes nothing |
| EscrowRuns.SuccessUsesUp | contracts/escrow/src/lib.rs:163-256 | a measure falls on every successful call and stays on all others |
| EscrowRuns.BoundedSuccesses | contracts/escrow/src/lib.rs:163-256 | the successful calls of a run never exceed what the measure falls by |
| EscrowRuns.AtMostThreeAfterInitialize | contracts/escrow/src/lib.rs:163-256 | at most three calls succeed after `initialize`, none once the deal is settled |
| EscrowRuns.SettledIsFinal | contracts/escrow/src/lib.rs:163-256 | a released or refunded deal never changes again |
| EscrowRuns.PaidAtMostOnce | contracts/escrow/src/lib.rs:182-233 | of all releases and refunds of a run at most one succeeds: seller or buyer, never both |
| EscrowRuns.TermsAreFixed | contracts/escrow/src/lib.rs:140-149 | parties, token, amount and order reference never change |
| EscrowRuns.HistoryOfTheState | contracts/escrow/src/lib.rs:163-256 | a confirmed, disputed or released deal has the authorized call in its history that made it so |
| EscrowRuns.ReleasedOnlyWithTheArbiter | contracts/escrow/src/lib.rs:182-207 | a release was signed by the arbiter, after a confirmation signed by the buyer or a dispute signed by a party |
| Iban.IsValidIban | shared/src/payouts/index.ts:434-453 | accepts exactly the texts that normalise to a shape of published length whose whole expanded, rotated number is one modulo 97 |
| Iban.Remainder97 | shared/src/payouts/index.ts:440-451 | the digit-by-digit loop computes the full expanded number modulo 97 |
| Iban.ValueOfExpansion | shared/src/payouts/index.ts:443-451 | expanding letters and reading the digits is the same as shifting each character by its own width |
| Iban.LettersCountOn | shared/src/payouts/index.ts:443-447 | `A` is read as 10 and each further letter as one more up to 35, a digit as itself |
| Iban.OrderOfTen | shared/src/payouts/index.ts:449 | ten has order 96 modulo 97: no smaller positive power of it is one |
| Iban.CancelShift | shared/src/payouts/index.ts:449 | a power of ten can be cancelled modulo 97 |
| Iban.SubstitutionDetected | shared/src/payouts/index.ts:436-452 | in normalised text, one digit replaced by another digit, or one letter by another letter, anywhere: never both accepted |
| Iban.TranspositionDetected | shared/src/payouts/index.ts:436-452 | in normalised text, two distinct digits or two distinct letters exchanged at any two positions, adjacent or not: never both accepted |
| Iban.TypedSubstitutionDetected | shared/src/payouts/index.ts:434-453 | the same on the text as typed, with any spacing and with letters compared up to case |
| Iban.TypedTranspositionDetected | shared/src/payouts/index.ts:434-453 | the same on the text as typed, with any spacing and with letters compared up to case |
| Iban.PieceDecides | shared/src/payouts/index.ts:440-452 | a piece of the account part replaced by another of the same length and expanded width: accepted alike if the two are congruent modulo 97, never both otherwise |
| Iban.MixedSwapExactlyWhen | shared/src/payouts/index.ts:440-452 | a letter and a digit exchanged anywhere in the account part: accepted alike if the exchange moves the number by a multiple of 97, never both otherwise |
| Iban.AdjacentMixedSwapExactlyWhen | shared/src/payouts/index.ts:440-452 | side by side they are accepted alike exactly when the letter is worth eleven times the digit (`B1`, `M2`, `X3`), and never both otherwise |
| Iban.MixedSwapOutsideAccount | shared/src/payouts/index.ts:436 | a letter and a digit exchanged with at least one of them in the first four characters: never both accepted |
| Iban.ExactlyOneCheckPair | shared/src/payouts/index.ts:416-453 | for every country and account part of the published length exactly one pair in 02 to 98 is accepted, and it is 98 minus the remainder |
| Iban.AcceptedPairs | shared/src/payouts/index.ts:434-453 | of all pairs from 00 to 99 exactly the prescribed one and its twin 97 away, where there is one, are accepted |
| Iban.SecondPairExactlyWhen | shared/src/payouts/index.ts:434-453 | a second pair is accepted if and only if the prescribed one is 02, 97 or 98 |
| Iban.TwoPairsAccepted | shared/src/payouts/index.ts:434-453 | an Andorran account for which 02 and 99 are both accepted |
| Iban.PairsRepeatAfter97 | shared/src/payouts/index.ts:434-453 | 00, 01 and 02 are accepted exactly when 97, 98 and 99 are |
| IbanCountries.PublishedExactlyWhen | shared/src/payouts/index.ts:416-422 | the table of lengths read the other way round: which countries have IBANs of each length, and no others |
| IbanCountries.EuroExactlyWhen | shared/src/payouts/index.ts:425-428 | the euro area is exactly the countries with IBANs other than twelve |
| Normalization.TrimmedIsStable | shared/src/payouts/index.ts:409-410 | a trimmed field has no space at its ends and single blanks in between, and normalising it again changes nothing |
| Normalization.TrimmingKeepsText | shared/src/payouts/index.ts:409-410 | trimming and collapsing loses, adds and reorders no visible character |
| Normalization.UpperIsStable | shared/src/payouts/index.ts:405-406 | upper-casing leaves upper-case letters and digits alone |
| Normalization.CompactAround | shared/src/payouts/index.ts:405-406 | compacting works character by character: a digit or letter becomes one upper-case character between the compacted rest |
| Normalization.SeparatorsVanish | shared/src/payouts/index.ts:405-406 | spaces and hyphens leave no trace in a compacted field |
| Normalization.DigitsAreKept | shared/src/payouts/index.ts:407-408 | a number keeps its digits, in order, and nothing else |
| Payouts.ValidatePayoutDestination | shared/src/payouts/index.ts:539-637 | accepted fields or all issues in the program's order |
| Payouts.CheckShapes | shared/src/payouts/index.ts:558-580 | the loop collects the issues of the failing fields and the values of the others |
| Payouts.CheckSchemes | shared/src/payouts/index.ts:582-633 | the scheme checks add their issues in the program's order |
| Payouts.CheckIban | shared/src/payouts/index.ts:598-611 | the euro-area issue only for an IBAN that passes its check digits |
| PayoutTheorems.AcceptedExactlyWhen | shared/src/payouts/index.ts:539-637 | acceptance with given fields if and only if the rail is known, every field of the rail passes with exactly that normalised value, and no accepted field fails its scheme check |
| PayoutForms.AcceptedHandlesAreSound | shared/src/payouts/index.ts:558-633 | an accepted destination carries a holder of letters, marks, spaces, dots, apostrophes and hyphens and every handle of its rail in the scheme's form, with a valid euro-area IBAN, routing number or NUBAN where the rail has one |
| PayoutForms.AcceptedFormsExactly | shared/src/payouts/index.ts:539-637 | validation accepts a destination with given fields if and only if the rail is named, the fields are the normalised entries of exactly its fields, each has its form within its limit in UTF-16 units, and together they satisfy the scheme; forms, limits and check sums are spelled out in numbers, apart from the checks |
| PayoutForms.ReportSaysWhy | shared/src/payouts/index.ts:556-635 | on refusal the report lists exactly the problems there are: missing, too long for its limit or not of its form for each field, and for fields in form the check of the scheme they fail |
| PayoutForms.UnsupportedExactlyWhen | shared/src/payouts/index.ts:542-553 | a text that names no rail is refused with that one issue; every other is looked at field by field |
| PayoutForms.FieldPassesExactlyWhen | shared/src/payouts/index.ts:562-577 | the shape check of a field of a rail passes exactly for texts of its form within its limit |
| PayoutForms.UpiShapeExactly | shared/src/payouts/index.ts:158-168 | the pattern of UPI ids: a name and a provider of 2 to 64 characters each around one at sign |
| PayoutForms.EuroIbanExactlyWhen | shared/src/payouts/index.ts:434-458 | an IBAN in form is accepted for euro payouts if and only if it has its country's length, the country is in the euro area, and the check digits with account and country leave one modulo 97 |
| PayoutForms.AbaExactlyWhen | shared/src/payouts/index.ts:461-474 | a routing number passes if and only if its district is 00 to 12 or 21 to 32 and its 3-7-1 sum is divisible by ten |
| PayoutForms.NubanExactlyWhen | shared/src/payouts/index.ts:480-496 | an account and bank code pass if and only if their 3-7-3 sum with the last digit is divisible by ten |
| PayoutTheorems.ValidationIsAFixpoint | shared/src/payouts/index.ts:539-637 | validating the returned fields again accepts them unchanged |
| PayoutTheorems.ShapeReports | shared/src/payouts/index.ts:558-580 | the shape pass reports each field it does not accept exactly once, and only those |
| PayoutTheorems.SchemeReports | shared/src/payouts/index.ts:582-633 | the scheme pass reports each accepted field that fails its scheme exactly once, and only those |
| PayoutTheorems.RejectionReportsEachBadFieldOnce | shared/src/payouts/index.ts:534-537 | on rejection the reported fields are exactly the bad ones, each once |
| PayoutTheorems.AbaSubstitutionDetected | shared/src/payouts/index.ts:461-474 | a routing number and the same with one digit replaced are never both accepted |
| PayoutTheorems.NubanCheckDigitIsUnique | shared/src/payouts/index.ts:480-496 | for every bank and serial exactly one check digit is valid |
| PayoutTheorems.NubanSubstitutionDetected | shared/src/payouts/index.ts:480-496 | a replaced bank or serial digit is always caught |
| Fingerprints.AlphabeticalIsSorted | shared/src/payouts/index.ts:709-711 | the order of the parts is the lexicographic order of the field names |
| Fingerprints.FingerprintIsFaithful | shared/src/payouts/index.ts:705-714 | texts of fields without separators in their values are equal if and only if rail and fields are, apart from the holder's name |
| Fingerprints.AcceptedIsSeparable | shared/src/payouts/index.ts:558-580 | no accepted value but the holder's contains the separator |
| Fingerprints.AcceptedFingerprintsIdentify | shared/src/payouts/index.ts:705-714 | two accepted destinations have equal texts if and only if they have the same rail and the same handle |
| Fingerprints.UnvalidatedFingerprintsCollide | shared/src/payouts/index.ts:705-714 | why the fields have to be validated first, as the only caller does (backend/src/modules/settlement/settlement.service.ts:571-584): otherwise an account value could imitate a bank-code field |
| RateLimit.StepKeepsWindow | backend/src/middleware/rate-limit.ts:39-54 | each step of any instance keeps: one opener, one expiry per finished window, a window lives at least its length |
| RateLimit.StepKeepsHits | backend/src/middleware/rate-limit.ts:39-54 | hits of one window have distinct counts; hits two windows apart, and an opener and any later window's hit, are a window length apart |
| RateLimit.ReachKeepsInv | backend/src/middleware/rate-limit.ts:39-54 | both over every interleaving |
| RateLimit.EveryWindowExpiresOnce | backend/src/middleware/rate-limit.ts:43-49 | every counter generation that ended got exactly one expiry and lived at least one window; the live one has at most one |
| RateLimit.ExpiryIsOneWindowAhead | backend/src/middleware/rate-limit.ts:43-46 | in every state kept by the interleavings the call that opened a window meets it live and without an expiry, and gives it one a window from then |
| RateLimit.LessThanTwiceTheLimit | backend/src/middleware/rate-limit.ts:39-54 | in any interval of one window's length at most 2 × limit − 1 requests see a count within the limit, none for a limit of zero |
| RateLimit.BoundIsReached | backend/src/middleware/rate-limit.ts:39-54 | the bound is sharp: for every window and every positive limit some run admits 2 × limit − 1 in one window's length |
| RateLimit.RedisRateLimitStore.Increment | backend/src/middleware/rate-limit.ts:39-54 | with other instances running at every await: the answer is this call's own count, a call that opened a window has given it its expiry, the reset time is the expiry of the live window, or one window ahead if none is set and to come |
| RateLimit.RedisRateLimitStore.FinishIncrement | backend/src/middleware/rate-limit.ts:47-54 | after the awaits the call is over, the window it opened has its expiry, and the reset time is the live window's or one window ahead |
| AdminSignIn.AttemptThrottle.IsLockedOut | admin/src/lib/session.ts:137-142 | zero exactly when not locked out, otherwise the remaining time rounded up to seconds |
| AdminSignIn.AttemptThrottle.RecordFailure | admin/src/lib/session.ts:144-152 | one more failure of this address, or a lockout with the count back at zero |
| AdminSignIn.AttemptThrottle.ClearFailures | admin/src/lib/session.ts:154-156 | forgets this address and no other |
| AdminSignIn.WalletChallenges.Sweep | admin/src/lib/wallet.ts:72-77 | exactly the unexpired challenges remain |
| AdminSignIn.WalletChallenges.IssueChallenge | admin/src/lib/wallet.ts:121-136 | adds one challenge with its time to live to the unexpired ones |
| AdminSignIn.WalletChallenges.VerifyWalletProof | admin/src/lib/wallet.ts:147-216 | the challenge is gone whatever the outcome; success means it was unexpired and proved for its own nonce |
| AdminSignIn.AdminApp.Login | admin/src/app.ts:180-195 | up to the await: refused while locked out, otherwise a check in flight and nothing else |
| AdminSignIn.AdminApp.Checked | admin/src/app.ts:193-230 | after the await, whatever happened meanwhile: the handler's answer and the whole new state of throttle and challenges |
| AdminSignIn.AdminApp.Verify | admin/src/app.ts:243-277 | the handler's answer and the whole new state of throttle and challenges |
| SignInRuns.FailurePays | admin/src/lib/session.ts:144-152 | a failure of an open address uses one attempt of the allowance, and the lockout it may start pays for the batch and the checks in flight |
| SignInRuns.LateFailurePays | admin/src/app.ts:193-203 | a check that fails after the address was locked out was in flight, also when it starts another lockout |
| SignInRuns.OneEvent | admin/src/app.ts:180-277 | every step of the handlers costs the allowance what it fails |
| SignInRuns.FailuresWithinAllowance | admin/src/app.ts:180-277 | failures past the lock check never exceed the allowance of the starting state |
| SignInRuns.CrowdedLockoutBound | admin/src/app.ts:180-277 | in any span of length W of any run an address without a completed sign-in and with at most n requests at once gets at most (MAX + n − 1) × (1 + ⌊W / L⌋) failures past the lock check |
| SignInRuns.LockoutBound | admin/src/app.ts:180-277 | with one request of the address at a time: at most MAX × (1 + ⌊W / L⌋) |
| SignInRuns.LockoutBoundIsReached | admin/src/app.ts:180-277 | the bound is sharp: for every configuration, address and W some run has that many failures |
| SignInRuns.PasswordAloneKeepsCounts | admin/src/app.ts:180-277 | over any run in which an address neither fails nor completes a sign-in its attempt record stays what it was, however many correct passwords it gave |
| SignInRuns.PasswordAloneOpensNoSession | admin/src/app.ts:192-229 | with the wallet required, a correct password changes no count and opens no session |
| SignInRuns.SignInClearsItsAddress | admin/src/app.ts:205-270 | a completed sign-in, with or without the wallet, forgets the failures and the lock of its address and of no other |
| SignInRuns.PasswordDecides | admin/src/app.ts:193-230 | a correct password leads to a session exactly where no wallet is required, and otherwise to a challenge that runs for 300 000 ms; a wrong one to a failure |
| SignInRuns.OutstandingWasIssued | admin/src/lib/wallet.ts:121-136 | every outstanding challenge was handed out after a correct password, with that request's nonce and expiry |
| SignInRuns.SessionTracesToItsChallenge | admin/src/app.ts:243-277 | every session traces to an earlier challenge issued after a correct password, unexpired and proved with its own nonce |
| SignInRuns.SessionExactlyWhen | admin/src/app.ts:243-277 | over every run a verification signs in if and only if it is well-formed, its address is not locked out, and it is the first proof of a challenge issued after a correct password less than 300 000 ms before, with that challenge's nonce |
| SignInRuns.OutstandingUntilConsumed | admin/src/lib/wallet.ts:121-159 | over every run an issued challenge stays outstanding until a proof of it or the end of its time |
| SignInRuns.SpentStaysSpent | admin/src/lib/wallet.ts:153-155 | a used challenge that is gone never comes back |
| SignInRuns.ConsumedOnce | admin/src/lib/wallet.ts:140-159 | a challenge that reached a proof, successful or not, never succeeds later |
| SignInRuns.SessionsHaveDistinctChallenges | admin/src/app.ts:243-277 | two sessions never come from one challenge |
| SignInRuns.SessionsArePaidFor | admin/src/app.ts:180-277 | sessions plus outstanding challenges never exceed correct passwords plus earlier challenges |
| SignInRuns.SessionsNeverOutnumberPasswords | admin/src/app.ts:180-277 | over every run sessions never outnumber correct passwords |
| Money.MinorUnitsAreExact | app/src/lib/money.ts:18-30 | a result is the canonical digit string of exactly the entered value times ten to the decimals |
| Money.RefusedExactlyWhen | app/src/lib/money.ts:23-26 | an entry converts if and only if it reads, apart from surrounding space, as digits with perhaps a point and at most the currency's number of further digits |
| Money.CanonicalIsUnique | app/src/lib/money.ts:28-29 | two canonical strings of one value are equal |
| Money.EqualAmountsAgree | app/src/lib/money.ts:18-30 | amounts of equal value convert to the same string, however they were typed |
| Money.DecimalTextRoundTrips | app/src/lib/money.ts:33-39 | parsing the decimal text of any canonical minor-unit string gives it back |
| Reconciliation.ReconciliationJob.Run | backend/src/jobs/reconciliation.job.ts:48-106 | the whole pass over either repository: what is recorded and reported follows from the cacheless pass, and custody is read at most once per order |
| Reconciliation.ReconciliationJob.Check | backend/src/jobs/reconciliation.job.ts:57-73 | the cached loop flags exactly what the cacheless one does, in order and with the same reasons, and reads the custody of an order at most once |
| Reconciliation.CustodyReader.Read | backend/src/jobs/reconciliation.job.ts:157-169 | one read brings back what the books and the chain hold for the order, and is logged |
| Reconciliation.InMemoryPaymentRepository.ReplaceMismatches | backend/src/modules/payments/payment.repository.ts:156-169 | in memory: records no longer found are resolved and only unknown transitions are added |
| Reconciliation.PgPaymentRepository.ReplaceMismatches | backend/src/modules/payments/pg-payment.repository.ts:468-509 | in Postgres: open rows no longer found are resolved, and every found transition without an open row gets one |
| Reconciliation.PaymentRepository.ListUnresolvedMismatches | backend/src/modules/payments/payment.repository.ts:171-173 | a record is listed if and only if it is stored and open |
| ReconciliationTheorems.UnresolvedIds | backend/src/modules/payments/payment.repository.ts:171-173 | a transition is listed if and only if some record of it is open |
| ReconciliationTheorems.CleanExactlyWhen | backend/src/jobs/reconciliation.job.ts:114-221 | a transition passes if and only if its entries balance, the chain confirms it where it touches the chain, and the visible custody agrees with the books in order, state, amount, currency and confirmation |
| ReconciliationTheorems.ReasonExactlyWhen | backend/src/jobs/reconciliation.job.ts:114-221 | a transition is given a reason if and only if it is in the situation that reason stands for, for each of the nine reasons with what it reports |
| ReconciliationTheorems.FlaggedExactly | backend/src/jobs/reconciliation.job.ts:57-73 | exactly the transitions with a reason are flagged |
| ReconciliationTheorems.FlaggedRecords | backend/src/jobs/reconciliation.job.ts:57-73 | the flagged records are exactly those of transitions in such a situation, with their own order, id and reason |
| ReconciliationTheorems.FlaggedInOrder | backend/src/jobs/reconciliation.job.ts:57-73 | they come in the order of the transitions |
| ReconciliationTheorems.HistoryIsKept | backend/src/modules/payments/payment.repository.ts:156-169 | in both repositories a run loses no record and reopens none: it only marks those it did not find again as resolved |
| ReconciliationTheorems.ReportedExactly | backend/src/modules/payments/payment.repository.ts:156-173 | in memory a transition is reported if and only if it was flagged and never resolved before |
| ReconciliationTheorems.ReportedRecords | backend/src/modules/payments/payment.repository.ts:156-173 | in memory the records reported are exactly the open ones found again, as first recorded, and the ones found for transitions without a record |
| ReconciliationTheorems.MatchedExactlyWhen | backend/src/modules/payments/payment.repository.ts:156-173 | in memory the report says matched if and only if everything flagged had been resolved before |
| ReconciliationTheorems.ReturningMismatchIsHidden | backend/src/modules/payments/payment.repository.ts:156-173 | in memory a mismatch that went away and came back is not reported, whatever was stored before |
| ReconciliationTheorems.OneRecordEachIsKept | backend/src/modules/payments/payment.repository.ts:156-169 | in memory every run keeps at most one record per transition |
| ReconciliationTheorems.OneOpenEachIsKept | backend/src/modules/payments/pg-payment.repository.ts:477-500 | in Postgres every run keeps at most one open row per transition, whatever it found |
| ReconciliationTheorems.RowsReportExactly | backend/src/modules/payments/pg-payment.repository.ts:468-526 | in Postgres a transition is reported if and only if it was flagged |
| ReconciliationTheorems.ReportedRows | backend/src/modules/payments/pg-payment.repository.ts:468-526 | in Postgres exactly the open ones found again, as first recorded, and the ones found for transitions without an open row |
| ReconciliationTheorems.RowsMatchedExactlyWhen | backend/src/modules/payments/pg-payment.repository.ts:468-526 | in Postgres the report says matched if and only if every transition passes its checks |
| ReconciliationTheorems.ReturningMismatchIsReported | backend/src/modules/payments/pg-payment.repository.ts:468-526 | in Postgres a mismatch that went away and came back is reported, whatever was stored before |
| ReconciliationTheorems.RepositoriesAgreeExactlyWhen | backend/src/app.ts:601-603 | from the same records both implementations report the same transitions if and only if nothing found had been resolved before |
| Cors.IsAllowedOrigin | backend/src/lib/cors.ts:24-33 | true exactly when some entry allows the origin |
| Cors.ExpressionOfEntry | backend/src/lib/cors.ts:11-16 | the two textual replacements yield the intended expression, whatever special characters the entry contains |
| Cors.PatternTextIsTokenwise | backend/src/lib/cors.ts:12-15 | the second replacement finds exactly the stars the first one escaped |
| Cors.MatchesMeansFilled | backend/src/lib/cors.ts:13-15 | a match means the origin is the entry with dot-free texts put for its stars |
| Cors.AllowsItsFillings | backend/src/lib/cors.ts:11-33 | an entry allows exactly its own text with dot-free texts put for its stars; one without stars exactly itself |
| Cors.WildcardsMatchLabelByLabel | backend/src/lib/cors.ts:11-33 | a wildcard entry allows an origin if and only if both have equally many labels and each label is its own label of the entry with its stars filled |
| Cors.NoEntryAddsALabel | backend/src/lib/cors.ts:13-15 | no entry, with any number of wildcards, allows an origin with more or fewer labels |
| Cors.StarsMayVanish | backend/src/lib/cors.ts:10-15 | every wildcard entry allows its own text with the stars deleted |
| Metrics.ThreePassesAreOne | backend/src/lib/metrics.ts:20-23 | the three escaping passes do not disturb each other: they equal one pass over the characters |
| Metrics.EscapingIsReversible | backend/src/lib/metrics.ts:20-23 | reading an escaped value gives the value back |
| Metrics.QuotedValueReadsBack | backend/src/lib/metrics.ts:25-32 | an escaped value cannot end its own quotation: a reader gets the value and all that follows |
| Metrics.EscapedIsOneLine | backend/src/lib/metrics.ts:20-23 | no line feed is left in an escaped value |
| SeriesKeys.FixedNamesIdentifyExactlyWhen | backend/src/lib/metrics.ts:14-18 | for any number of fixed label names, a label set is the only one with its key if and only if no value spells `,name=` with the name of its own label or of the next one |
| SeriesKeys.TwoLabelsIdentifyExactlyWhen | backend/src/lib/metrics.ts:14-18 | for two fixed names: if and only if neither value spells the second label's mark |
| SeriesKeys.FixedNamesCollide | backend/src/lib/metrics.ts:14-18 | the collision such a metric can meet, for any names and values |
| SeriesKeys.KeyIsSharedExactlyWhen | backend/src/lib/metrics.ts:14-18 | over all label names, a sorted label set shares its key with another if and only if it has at least two labels, or its only value spells a label that sorts after its own |
| SeriesKeys.LabelKeysCollide | backend/src/lib/metrics.ts:14-18 | any two adjacent labels share their key with one label that spells the second out in its value |
| SeriesKeys.PlainKeysIdentify | backend/src/lib/metrics.ts:14-18 | label sets without commas in their values never share a series, whatever their names |
| Metrics.Counter.Inc | backend/src/lib/metrics.ts:44-52 | after any increments each series holds the sum of its own |
| Metrics.Histogram.Observe | backend/src/lib/metrics.ts:116-130 | after any observations each bucket of each series holds the number at or below its bound, with the exact sum and count |
| Metrics.AtMostCounts | backend/src/lib/metrics.ts:116-130 | what a bucket holds is the number of observations at or below its bound, those equal to it included |
| Metrics.RenderedBucketsAreCumulative | backend/src/lib/metrics.ts:132-154 | with sorted bounds the rendered buckets never decrease and end at the total count |

## Left out

- Exactly-once results for requests of one key that overlap: they are false, and the theorems without the premise bound the completions instead.
- The Redis idempotency store with its expiry and unparsable values, failing store writes, and handlers that answer by other means than `res.json`.
- Authentication, which comes before the middleware on guarded routes: a request whose session has expired is told 401 without a lookup, where the model looks it up.
- What the wallet makes of a prepared transition, which is a parameter of a press; a prepare answered without a body, on which the program throws, counts as not signed.
- Timers, backoff lengths and header contents of `apiRequest`; an unreadable 2xx body counts as a lost answer.
- Rate limiting under Redis errors, `decrement`, `resetKey`, and a Redis clock that differs from the application's; one key is modelled, as keys do not interact.
- The session cookie and its signature; scrypt, Ed25519 and transaction decoding, which are one predicate on nonce and envelope.
- Storage expiry and events of both contracts, the read-only getters, and token contracts that call back or charge fees.
- EscrowRuns.SupplyIsConserved: does not model mint, burn and clawback of the escrowed token, because they are the token issuer's and not the escrow's; a clawback from the contract would also break custody.
- The order of map iteration in `get_holders` and `all_payout_shares`: the methods allow every order.
- SHA-256 of the fingerprint text, masking of handles and holder names, message texts (kept as kinds), rail names taken from object prototypes, lone surrogates, and upper-casing that depends on neighbouring characters.
- Updates in place of the `issues` and `fields` objects of a validation, which nothing else can see; they are local sequences and maps.
- The closing `Number(...)` of `fromMinorUnits`, locale formatting, and frontend/src/lib/money.ts, which repeats the modelled file.
- The order of equally old rows in a Postgres listing (they are kept in insertion order), failing transactions, changes of books or chain during a reconciliation pass, its alerts and metrics; `isBalanced` and `touchesChain` are parameters, as their sources are other modules.
- Number rendering and the line layout of the metrics text, `Gauge`, and floating-point rounding of sums (real numbers are used); labels are given in sorted order, by code point.
- Screens, navigation, SQL, migrations, remote procedure calls, push notifications, scoring engines and transition tables: input and output, or finite tables that would add only easy members.
