# Proofs about the ERP's ledger, limiter, client and number handling

This project models the parts of the ERP whose correctness is a property of whole runs rather
than of one call, and proves those properties for every input and every interleaving.

- **The proof ledger** (`LedgerSpec`, `LedgerRuns`, `LedgerAuthority`, `LedgerExactlyOnce`,
  `LedgerHistory`, `ProofLedger`). `LedgerSpec` is the contract as an outsider may think of it: per organisation
  an administrator and a list of seals, with nothing cached. `ProofLedger` is the contract as it
  is stored, two maps with one book per organisation, and every entry point is proved to do to the
  abstract ledger what the specification says. Who signed and what the ledger clock reads are
  inputs of each call.
- **What a seal proves** (`BigEndian`, `Canonical`, `CanonicalLimit`, `Merkle`, `Authenticity`). The
  canonical bytes of a journal entry have one reading, the RFC 6962 tree commits to its batch, and together with
  the ledger's permanence an accepted proof bundle shows the entry that was sealed. The hash is a
  parameter: no collision freedom is assumed; the proofs hand over a colliding pair instead.
- **The seal outbox** (`SealOutbox`, `SealOnce`, `SealTotals`, `SealRecovery`, `SealGivingUp`,
  `SealService`).
  The worker prepares seals over the backlog, submits them to a ledger whose answers may be lost
  or late, and reconciles. Requests may be dropped, repeated, delayed and overtaken, and the ledger
  may move on between a reading of it and what the worker does about it.
- **The rate limiter** (`TokenBucket`, `BucketClock`, `RateLimit`, `RateLimitRuns`). The Lua script
  over real numbers, key expiry, and the middleware that spends from a tier bucket and an address
  bucket.
- **Single-flight refresh** (`SingleFlight`, `RefreshRotation`, `RequestLifecycle`, `RequestRetry`,
  `ApiClient`).
  Any number of requests and session restores, interleaved at every await, against a server that
  rotates its refresh cookie at each use.
- **Pagination** (`CursorWalk`, `OffsetPages`, `Uuid7`). A cursor walk over a table that changes
  arbitrarily between fetches, and the ids that make it chronological.
- **Decimal text** (`DecimalText`, `Sums`, `Money`, `MoneyOrder`, `MoneyExport`, `DecimalInput`,
  `TypedAmount`) and **redaction** (`Scrub`).

`dafny verify dfyconfig.toml` checks everything.

## Where the code and its documentation part

- A row given up after its request has left can block sealing for good. `submit` fails a row when
  sealing is switched off *before* it asks the ledger, and the comment on `release_from_seal` says
  the replacement "covers exactly the same range". It does so exactly when nothing was posted in
  the meantime or the batch was full (`SealOutbox.ReplacementCoversSameIff`). `SealGivingUp.SwitchingOffCanStick` is a concrete run,
  `SealRecovery.GoesOnUnlessStuck` is the exact condition, and
  `SealGivingUp.PatientNeverSticks` shows that giving up after sending is the only way in.
- The elapsed-time form of the rate limit can fail for a clock that steps back, because the
  bucket is stamped with `now` even when `now` went backwards
  (`BucketClock.ClockSteppingBackRefillsTwice`). `BucketClock.ElapsedLimitHoldsIff` says for which
  clocks it holds; a bound in the clock's own steps always does (`BucketClock.CappedBound`).
- A refused request costs its own bucket nothing, but a request that its tier refuses still spends
  from the address it shares: `RateLimitRuns.RequestLowersIff` says exactly when that shows later.
- `compareMoney` never reverses an order, and is the exact order exactly when the amounts are
  equal or differ when cut after six places (`MoneyOrder.ExactIffCutsDiffer`).
- A `history` client must stop at number 1 by itself: one below it is cursor 0, which means the
  head again (`LedgerHistory.CursorZeroStartsOver`).
- The tree is unambiguous only because leaves are hashed with their own prefix first; over bare
  digests it is not (`Merkle.BareDigestsAreAmbiguous`).
- An instant is encoded without a length in front of it. That is still unambiguous, because no
  instant a Python `datetime` can hold starts with the absent mark (`Canonical.InstantUnique`). A
  text of exactly 2^32 - 1 bytes is the one value that reads as an absent one, and with it two
  different entries share their bytes (`CanonicalLimit.TwoEntriesShareBytes`).
- One refresh at a time is not enough to keep the server from taking the client for a thief: a
  refresh that was given up after its fifteen seconds may still arrive. `RefreshRotation.BreachIff`
  says exactly which runs end that way, and `LostRotationIsTakenForBreach` and
  `OvertakenStrayIsTakenForBreach` show that both ways happen.

## Model

| member | source | states |
|---|---|---|
| `LedgerSpec.AppendVerdict` | contracts/proof_ledger/src/lib.rs:333-391 | the contract's ordered checks accept a seal exactly when it is the next number, links to the latest root, covers something, is not the sentinel and starts where the last window ended or later |
| `LedgerSpec.NextKeepsWellFormed` | contracts/proof_ledger/src/lib.rs:284-420 | every call, accepted or refused, keeps every organisation's chain numbered without holes, linked from the genesis value, free of empty and sentinel seals, and tiling |
| `LedgerSpec.RunKeepsWellFormed` | contracts/proof_ledger/src/lib.rs:284-420 | the same in every reachable state |
| `LedgerSpec.TotalCountBound` | contracts/proof_ledger/src/lib.rs:198-201 | the lifetime entry count is at most head times the largest 32-bit count |
| `LedgerSpec.ReachableCountNeverOverflows` | contracts/proof_ledger/src/lib.rs:399-403 | in every reachable state head fits 32 bits and the lifetime count stays below 2^64, so the checked addition never stops a seal |
| `LedgerRuns.RunOnlyAppends` | contracts/proof_ledger/src/lib.rs:393-408 | over any run a stored seal is never changed or removed and a book is never closed |
| `LedgerRuns.VerdictIsPermanent` | contracts/proof_ledger/src/lib.rs:470-479 | once `verify` confirms a root it confirms it after every continuation, and no other root at that number ever |
| `LedgerRuns.OthersNeverMatter` | contracts/proof_ledger/src/lib.rs:539-565 | the book of an organisation after a run is what it would be with every other organisation's calls deleted from the run |
| `LedgerRuns.ChainIsLogOfAccepted` | contracts/proof_ledger/src/lib.rs:393-420 | a chain holds exactly the accepted seals in order of acceptance, each stamped with the network's clock |
| `LedgerRuns.WindowsTile` | contracts/proof_ledger/src/lib.rs:361-391 | for any two seals of a chain the earlier window ends no later than the later one starts |
| `LedgerRuns.LinksRunFromGenesis` | contracts/proof_ledger/src/lib.rs:354-391 | each link is the root before it, the first one is the genesis value, and no root is |
| `LedgerRuns.TimeMovesForward` | contracts/proof_ledger/src/lib.rs:393-408 | with a ledger clock that never decreases, timestamps along a chain never decrease |
| `LedgerAuthority.SealNeedsAdmin` | contracts/proof_ledger/src/lib.rs:333-420 | a chain changes only by a seal for that organisation that its administrator has signed, and then by that seal alone |
| `LedgerAuthority.RotationNeedsBoth` | contracts/proof_ledger/src/lib.rs:539-565 | an administrator changes only in a rotation signed by the old and the new one, and then to the new one |
| `LedgerAuthority.OpeningNeedsAdmin` | contracts/proof_ledger/src/lib.rs:284-318 | a book is opened only by a registration its administrator has signed, and is empty |
| `LedgerAuthority.SignedCallsWork` | contracts/proof_ledger/src/lib.rs:284-318 | a signed registration of a new book and a doubly signed rotation always take effect, and an open book is never opened again |
| `LedgerAuthority.UnsignedIsUnauthorised` | contracts/proof_ledger/src/lib.rs:352-352 | without the administrator's signature the answer is that and nothing changes, whatever else is wrong |
| `LedgerAuthority.RefusalsAboutBooks` | contracts/proof_ledger/src/lib.rs:284-352 | which refusal a registration or a call on an unknown book gets |
| `LedgerAuthority.RepeatIsOutOfOrder` | contracts/proof_ledger/src/lib.rs:361-391 | a stored seal submitted again, signed, is answered with out of order, at any distance from the head |
| `LedgerAuthority.ForkIsChainBroken` | contracts/proof_ledger/src/lib.rs:354-391 | for a request that is well formed in itself, exactly when number, link and window are the reason of refusal |
| `LedgerAuthority.MalformedIsToldFirst` | contracts/proof_ledger/src/lib.rs:354-391 | a sentinel root, an empty seal and a backward window are reported before anything about the chain |
| `LedgerAuthority.EverySealWasSigned` | contracts/proof_ledger/src/lib.rs:333-420 | over any run, every seal added was carried by an invocation signed by whoever administered the book at that moment |
| `LedgerAuthority.AdministratorWasInstalled` | contracts/proof_ledger/src/lib.rs:539-565 | over any run, whoever administers a book did so before it or signed the call that made it so, together with the administrator before |
| `LedgerAuthority.ExactlyStoredRootsVerify` | contracts/proof_ledger/src/lib.rs:470-479 | exactly the stored roots verify, each at its own number |
| `LedgerAuthority.AcceptedSealVerifies` | contracts/proof_ledger/src/lib.rs:470-479 | an accepted seal verifies after every continuation |
| `LedgerExactlyOnce.ChainFollowsPlan` | contracts/proof_ledger/src/lib.rs:333-420 | however a plan of seals is dropped, repeated, reordered and interleaved with other calls, the chain is a prefix of the plan |
| `LedgerExactlyOnce.DueDeliveryLands` | contracts/proof_ledger/src/lib.rs:333-420 | a signed delivery of the request that is due is accepted: the chain grows by exactly that request, stamped with the clock |
| `LedgerExactlyOnce.PlanIsStoredExactlyOnce` | contracts/proof_ledger/src/lib.rs:333-420 | once the deliveries contain the plan in order, the chain is the whole plan, each request stored once |
| `LedgerHistory.PageIsUnbroken` | contracts/proof_ledger/src/lib.rs:488-526 | a page is a gapless newest-first stretch: each link is the next root, and the last link is the genesis value exactly when the page reaches the first seal |
| `LedgerHistory.PageIsWhatWasAsked` | contracts/proof_ledger/src/lib.rs:488-526 | a page holds as many seals as asked for, at most 24 and 24 when nothing was asked for, from the cursor or the head downwards, and ends early only at the first seal |
| `LedgerHistory.WalkFromCursor` | contracts/proof_ledger/src/lib.rs:488-526 | a walk from any cursor yields everything at or below it, newest first |
| `LedgerHistory.WalkYieldsWholeChain` | contracts/proof_ledger/src/lib.rs:488-526 | paging from the head with any page size yields the whole chain, each seal once |
| `LedgerHistory.CursorZeroStartsOver` | contracts/proof_ledger/src/lib.rs:500-506 | asking below number 1 returns the first page again |
| `ProofLedger.ViewIsUnique` | contracts/proof_ledger/src/lib.rs:180-226 | the two storage maps determine the ledger they represent |
| `ProofLedger.TotalCountIsSum` | contracts/proof_ledger/src/lib.rs:198-201 | the lifetime count is the sum of the seals' counts |
| `ProofLedger.BookSaysNewest` | contracts/proof_ledger/src/lib.rs:180-201 | a book that agrees with its chain tells the number of seals, the newest one's root, stamp and window end, and the sum of all counts |
| `ProofLedger.AppendRepresents` | contracts/proof_ledger/src/lib.rs:393-408 | writing a seal and its updated book overwrites no seal and represents the ledger one seal longer, with every cached field equal to a full scan |
| `ProofLedger.Contract.constructor` | contracts/proof_ledger/src/lib.rs:269-271 | an empty contract |
| `ProofLedger.Contract.Register` | contracts/proof_ledger/src/lib.rs:284-318 | new storage represents the abstract ledger after registration; refusals carry the contract's error and write nothing |
| `ProofLedger.Contract.CheckAppend` | contracts/proof_ledger/src/lib.rs:354-391 | the checks, made from the cached book alone, give the verdict of the abstract ledger on every chain that the book agrees with |
| `ProofLedger.Contract.Append` | contracts/proof_ledger/src/lib.rs:333-420 | new storage represents the abstract ledger after the call, the answer is the stored seal or the abstract verdict's error, and a refused call writes nothing; whose signature that verdict asks for is `LedgerAuthority.SealNeedsAdmin` |
| `ProofLedger.Contract.Rotate` | contracts/proof_ledger/src/lib.rs:539-565 | rotation changes the administrator and nothing else, and only with both signatures |
| `ProofLedger.Contract.Get` | contracts/proof_ledger/src/lib.rs:423-434 | the seal at that number of the chain, or not found |
| `ProofLedger.Contract.Latest` | contracts/proof_ledger/src/lib.rs:440-452 | the book, equal to a full scan of the chain, or not registered |
| `ProofLedger.Contract.IsRegistered` | contracts/proof_ledger/src/lib.rs:458-463 | whether the organisation is in the ledger |
| `ProofLedger.Contract.Verify` | contracts/proof_ledger/src/lib.rs:470-479 | true exactly when the chain holds that root at that number |
| `ProofLedger.Contract.CollectDown` | contracts/proof_ledger/src/lib.rs:512-525 | the loop collects the seals from a number downwards, without a gap |
| `ProofLedger.Contract.History` | contracts/proof_ledger/src/lib.rs:488-526 | the page of the chain, with an inclusive cursor, 0 for the head and at most 24 seals |
| `BigEndian.RoundTrip` | backend/app/modules/attestation/canonical.py:126-139 | decoding an encoded number gives it back, at every width it fits |
| `Canonical.U32ReadsBack` | backend/app/modules/attestation/canonical.py:126-139 | a number is four bytes, most significant first |
| `Canonical.TextReadsBack` | backend/app/modules/attestation/canonical.py:156-175 | a text is its length and its bytes, an absent one the mark alone |
| `Canonical.IntReadsBack` | backend/app/modules/attestation/canonical.py:140-154 | an amount is sixteen bytes in two's complement |
| `Canonical.DateReadsBack` | backend/app/modules/attestation/canonical.py:187-199 | a date is the number whose decimal digits are year, month and day |
| `Canonical.InstantReadsBack` | backend/app/modules/attestation/canonical.py:201-223 | an instant is its milliseconds in eight bytes, an absent one the four-byte mark |
| `Canonical.EntryLayout` | backend/app/modules/attestation/canonical.py:416-456 | version, kind behind its length, the fields, the number of lines, and the lines in the order of their numbers, each at its place |
| `Canonical.ValueUnique` | backend/app/modules/attestation/canonical.py:126-268 | two encodings that start a common byte string encode the same value of the kind and leave the same rest |
| `Canonical.InstantUnique` | backend/app/modules/attestation/canonical.py:201-223 | instants, present or absent, are self-delimiting although they carry no length |
| `Canonical.AbsentMarkIsAmbiguousExactlyAtItself` | backend/app/modules/attestation/canonical.py:156-175 | a present text has the bytes of an absent one followed by its content exactly when its length is the absent mark |
| `Canonical.RecordUnique` | backend/app/modules/attestation/canonical.py:271-340 | fields concatenated in their fixed order have one reading |
| `Canonical.OrderIsUnique` | backend/app/modules/attestation/canonical.py:416-456 | lines with distinct numbers have one sorted order |
| `Canonical.EncodingIsUnambiguous` | backend/app/modules/attestation/canonical.py:416-456 | two entries have the same canonical bytes exactly when they agree in every field and, in line order, in every line |
| `Canonical.LineOrderDoesNotMatter` | backend/app/modules/attestation/canonical.py:416-456 | the order in which a payload lists its lines does not change its bytes |
| `CanonicalLimit.LongTextIsAscii` | backend/app/modules/attestation/canonical.py:156-175 | there is an ASCII text of exactly the length that stands for an absent one |
| `CanonicalLimit.TwoEntriesShareBytes` | backend/app/modules/attestation/canonical.py:416-456 | with it, every entry gives two different entries of ASCII texts with the same canonical bytes, one of them clear: the condition of `Canonical.EncodingIsUnambiguous` is needed |
| `Merkle.Split` | backend/app/modules/attestation/merkle.py:66-74 | the split is below the count and at least half of it |
| `Merkle.SplitIsPow2` | backend/app/modules/attestation/merkle.py:66-74 | the split is a power of two |
| `Merkle.SplitOfTwice` | backend/app/modules/attestation/merkle.py:66-74 | twice a power of two is split in half |
| `Merkle.RootIsRfc6962` | backend/app/modules/attestation/merkle.py:61-117 | the recursion of section 2.1 of RFC 6962 with its two prefixes, split at the largest power of two below the count |
| `Merkle.StepMeans` | backend/app/modules/attestation/merkle.py:174-208 | a step's sibling stands on the side it names, and a step with another side or no digest breaks the proof |
| `Merkle.PairwiseFoldKeepsRoot` | backend/app/modules/attestation/merkle.py:120-130 | one level of pairwise folding keeps the RFC 6962 root when the count is a power of two |
| `Merkle.PerfectRoot` | backend/app/modules/attestation/merkle.py:120-130 | the folding loop computes the RFC 6962 root of a perfect tree |
| `Merkle.MerkleRoot` | backend/app/modules/attestation/merkle.py:91-117 | the root of section 2.1 of RFC 6962, or an error for an empty or misshapen batch |
| `Merkle.InclusionProof` | backend/app/modules/attestation/merkle.py:133-171 | the audit path of the index, or an error for an index outside the batch |
| `Merkle.VerifyInclusion` | backend/app/modules/attestation/merkle.py:174-208 | accepts exactly the paths whose fold is the root, malformed steps included |
| `Merkle.HonestProofVerifies` | backend/app/modules/attestation/merkle.py:133-208 | every generated proof verifies against the root of its batch |
| `Merkle.AcceptedProofIsExplained` | backend/app/modules/attestation/merkle.py:174-208 | whatever path is accepted, the entry is in the batch at the place the path names, or two colliding inputs are handed over |
| `Merkle.RootCommitsToBatch` | backend/app/modules/attestation/merkle.py:91-117 | equal roots mean equal batches in content, order and size, or a collision |
| `Merkle.BareDigestsAreAmbiguous` | backend/app/modules/attestation/merkle.py:91-117 | without leaf prefixes two different batches share a root |
| `Merkle.DepthIsLongestProof` | backend/app/modules/attestation/merkle.py:211-220 | no proof is longer than the displayed depth, and the first entry's is that long |
| `Authenticity.HonestBundleAcceptedForever` | backend/scripts/verify_proof.py:105-180 | the honest bundle of a sealed entry is accepted after every continuation of the ledger's run |
| `Authenticity.AcceptedBundleIsAuthentic` | backend/scripts/verify_proof.py:105-180 | a bundle accepted at any later time shows an entry of the sealed batch, field by field and line by line, with the very path of its place in the batch, or a hash collision is handed over |
| `SealOutbox.Window` | backend/app/modules/attestation/service.py:1004-1028 | whatever the posting clock did, the window starts at its first posting's time or where the previous one ended, whichever is later, and ends at its last posting's time but never before it starts |
| `SealOutbox.QueriesAgree` | backend/app/modules/attestation/repository.py:202-238 | with no row open, the newest confirmed row and the highest live number name the same row |
| `SealOutbox.CreateIsDraft` | backend/app/modules/attestation/service.py:900-970 | preparing a seal takes exactly the next postings in line, and its row continues the newest live row in number, link and window |
| `SealOutbox.SentExactlyInTurn` | backend/app/modules/attestation/service.py:1031-1109 | a request leaves exactly when sealing is on, the ledger answered, it is the row's turn, the ledger ends in the row's link and the row fits the contract; and the attempt is counted |
| `SealOutbox.WaitsOrFails` | backend/app/modules/attestation/service.py:1031-1109 | with sealing off the row fails unasked; an unreachable ledger or one that is behind changes nothing; one that ends in another root fails the row, and one that holds the row's number decides it by the root |
| `SealOutbox.FifthRejectionParks` | backend/app/modules/attestation/service.py:1111-1150 | the fifth rejected attempt fails a row and releases its postings, an earlier one leaves both waiting, and an unknown outcome stays submitted |
| `SealOutbox.ReconcileFollowsLedger` | backend/app/modules/attestation/service.py:1379-1410 | a row whose number the ledger holds is confirmed or failed by its root, and any other row is left alone |
| `SealOutbox.FailKeepsGood` | backend/app/modules/attestation/repository.py:180-194 | failing a row releases exactly its own postings and restores the state before it |
| `SealOutbox.ReplacementCoversSameIff` | backend/app/modules/attestation/repository.py:180-194 | the replacement of a failed row takes its number, link and first posting, and covers the same range exactly when nothing was posted past it or its batch was full |
| `SealOutbox.RunKeepsTables` | backend/app/modules/attestation/service.py:900-1300 | in every reachable state, whoever writes to the ledger, the live rows partition the postings in posting order, each posting sits at its place in the one row that covers it, and every confirmed row is on the ledger under its number and root |
| `SealOnce.RootDecides` | backend/app/modules/attestation/service.py:1152-1200 | comparing roots at the row's number decides whether the ledger holds this very request |
| `SealOnce.RunKeeps` | backend/app/modules/attestation/service.py:900-1300 | the joint invariant of tables, requests in flight and ledger over every run |
| `SealOnce.LedgerTilesPostings` | backend/app/modules/attestation/service.py:1031-1200 | over any lost, repeated, delayed or given-up submissions, and with the worker acting on readings of the ledger that may be old, the k-th seal on the ledger holds the root over, the sum of the debits of, and the window of exactly the postings that follow those of the seals before it: none twice, none passed over |
| `SealOnce.DebitsIsSum` | backend/app/modules/attestation/service.py:945-945 | a row's debit total is the sum of its postings' debits |
| `SealTotals.EveryRowCarriesItsSum` | backend/app/modules/attestation/service.py:900-1002 | in every reachable state every row, failed or not, carries the count and the sum of the debits of its own postings |
| `SealTotals.LedgerDebitsAddUp` | backend/app/modules/attestation/service.py:900-1002 | after any run the debits on the ledger add up to the debits of the postings sealed so far, which are the first ones in posting order |
| `SealTotals.WindowsAreTimes` | backend/app/modules/attestation/service.py:1004-1028 | if the posting clock never ran back, every seal's window is exactly the seconds of its first and last posting |
| `SealOnce.TurnIsAccepted` | backend/app/modules/attestation/service.py:1078-1109 | when it is a row's turn the ledger ends in the root the row links to and the contract accepts the row's request |
| `SealOnce.SeenHead` | backend/app/modules/attestation/service.py:1078-1090 | an earlier reading of the ledger at which it was the row's turn ended in the root the row links to, so the branch for a diverged ledger is not taken on it either |
| `SealRecovery.StuckForever` | backend/app/modules/attestation/service.py:1152-1200 | a stuck outbox stays stuck: no later seal is accepted and no row is confirmed |
| `SealRecovery.GoesOnUnlessStuck` | backend/app/modules/attestation/service.py:1273-1316 | under the invariant, with something to seal, some continuation confirms another seal exactly when the outbox is not stuck: not ahead by a seal over fewer postings than the next batch takes that no open row matches |
| `SealRecovery.ReachableGoesOnUnlessStuck` | backend/app/modules/attestation/service.py:1273-1316 | the same in every reachable state |
| `SealGivingUp.PatientNeverSticks` | backend/app/modules/attestation/service.py:1140-1150 | if no row is given up after it was sent, the outbox is never stuck and every seal on the ledger has a live row |
| `SealGivingUp.SwitchingOffCanStick` | backend/app/modules/attestation/service.py:1038-1040 | a concrete run in which switching sealing off after a landed submission leaves the outbox stuck |
| `SealGivingUp.RootsCollideOnlyWithTheHash` | backend/app/modules/attestation/merkle.py:91-117 | two batches of an organisation with one root hand over a collision of the hash |
| `SealGivingUp.LedgerTilesOrCollides` | backend/app/modules/attestation/service.py:1031-1200 | with the hash tree and nothing assumed of the hash, after any run the seals on the ledger cover the postings once each and in order, or a collision is handed over |
| `SealService.Service.RecordLeaf` | backend/app/modules/attestation/repository.py:58-96 | a posting gets the next number without a gap and is loose |
| `SealService.Service.AssignToSeal` | backend/app/modules/attestation/repository.py:167-178 | the batch's leaves are stamped with their row and their place in its tree, and no others |
| `SealService.Service.ReleaseFromSeal` | backend/app/modules/attestation/repository.py:180-194 | exactly the row's leaves become loose |
| `SealService.Service.CreateSeal` | backend/app/modules/attestation/service.py:900-1002 | the tables after the call are those of the specification; what its row then says of its postings is `SealOutbox.CreateIsDraft` and `SealTotals.EveryRowCarriesItsSum` |
| `SealService.Service.Fail` | backend/app/modules/attestation/service.py:1273-1316 | the row is failed and its leaves are released |
| `SealService.Service.ResolveAgainstChain` | backend/app/modules/attestation/service.py:1152-1225 | confirmed when the ledger holds the row's root at its number, failed otherwise |
| `SealService.Service.Submit` | backend/app/modules/attestation/service.py:1031-1109 | the tables and the request sent, if any, are those of the specification |
| `SealService.Service.ApplyOutcome` | backend/app/modules/attestation/service.py:1111-1150 | the tables after a confirmed, unknown, out-of-order or otherwise rejected outcome are those of the specification |
| `TokenBucket.BucketScript` | backend/app/core/ratelimit.py:230-269 | the script's new bucket and answer are those of the specification |
| `TokenBucket.RemainingIsWhatIsLeft` | backend/app/core/ratelimit.py:246-269 | the answer tells what the new bucket holds in whole tokens, allows exactly what the refilled bucket covers, and asks an allowed caller to wait for nothing |
| `TokenBucket.RunStaysInRange` | backend/app/core/ratelimit.py:246-265 | tokens stay between zero and the capacity over every run, however the clock moves |
| `TokenBucket.SpendingIsPaidFor` | backend/app/core/ratelimit.py:246-265 | what is spent and what is left never exceed what was there and what forward clock steps brought in |
| `TokenBucket.EveryStretchIsBounded` | backend/app/core/ratelimit.py:230-269 | over every contiguous stretch of every run the allowed cost is at most the capacity plus the refill of the stretch's forward clock steps |
| `TokenBucket.ElapsedBound` | backend/app/core/ratelimit.py:230-269 | for a clock that does not decrease the bound is capacity plus refill times elapsed time |
| `BucketClock.SpendingIsCapped` | backend/app/core/ratelimit.py:246-265 | for every clock, what is spent and what is left never exceed what was there and the inflow, where no clock step counts for more than the capacity |
| `BucketClock.CappedBound` | backend/app/core/ratelimit.py:230-269 | the allowed cost of any hits is at most the capacity plus the inflow, for every clock |
| `BucketClock.TakeAllFromNew` | backend/app/core/ratelimit.py:230-269 | that bound is attained by the caller who takes all there is every time |
| `BucketClock.ElapsedLimitHoldsIff` | backend/app/core/ratelimit.py:246-265 | capacity plus refill times elapsed time bounds what is let through at given instants, for all costs and all earlier states, exactly when the inflow of those instants is at most the refill of the elapsed time |
| `BucketClock.ClockSteppingBackRefillsTwice` | backend/app/core/ratelimit.py:246-265 | one clock that steps back and forth breaks the elapsed-time limit with requests that cost one each |
| `BucketClock.SteppingBackCanBeHarmless` | backend/app/core/ratelimit.py:246-265 | another clock that steps back keeps it |
| `TokenBucket.FullWhenDropped` | backend/app/core/ratelimit.py:265-266 | a bucket is full by the time its key may be dropped |
| `TokenBucket.KeyLivesOneFilling` | backend/app/core/ratelimit.py:265-266 | a key is kept for one filling of the bucket and a second from its last evaluation, and is gone from that instant on |
| `TokenBucket.DropIsInvisibleIffFull` | backend/app/core/ratelimit.py:241-244 | forgetting a bucket changes neither answer nor new state exactly when it would have been full |
| `TokenBucket.ExpiryIsInvisible` | backend/app/core/ratelimit.py:241-268 | for a clock that does not run back, and whenever Redis looks and deletes, every request of every sequence gets the answer it would have got had no key been dropped |
| `TokenBucket.LevelComposes` | backend/app/core/ratelimit.py:246-250 | refill over successive steps of a forward clock composes |
| `TokenBucket.HitLowersIff` | backend/app/core/ratelimit.py:246-265 | a hit leaves less at a later time exactly when it was allowed and the bucket is not full again by then |
| `TokenBucket.RefusalsNeverPostpone` | backend/app/core/ratelimit.py:248-265 | after any number of refused attempts the level at every later time is unchanged |
| `TokenBucket.RetryAfterIsExact` | backend/app/core/ratelimit.py:257-262 | for a cost the bucket can hold, the advertised wait suffices and no smaller whole number of seconds from one up does |
| `TokenBucket.OversizedCostNeverAdmitted` | backend/app/core/ratelimit.py:254-257 | a cost above the capacity is refused at every time |
| `RateLimit.KeysAreDistinct` | backend/app/core/redis.py:106-113 | different (scope, identity) pairs never share a key |
| `RateLimit.OtherBucketsUntouched` | backend/app/core/ratelimit.py:293-328 | evaluating one bucket leaves every other as it was |
| `RateLimit.Limiter.Check` | backend/app/core/ratelimit.py:293-328 | the store after one check and the decision are those of the specification |
| `RateLimit.WaitIsExact` | backend/app/core/ratelimit.py:257-266 | for a refusing bucket of the store, waiting k seconds gives room exactly when k is at least the advertised wait, expiry of the key included |
| `RateLimit.Limiter.Dispatch` | backend/app/core/middleware.py:642-705 | both buckets are charged even when the first refuses; a refusal carries the limit of the bucket that decided and the least whole number of seconds after which that bucket has room; a response carries the tier's limit and what the tier's bucket has left |
| `RateLimitRuns.ChargeStep` | backend/app/core/middleware.py:657-672 | a request charges the buckets it touches once each and no other, and a bucket has room in the store exactly when it would have had its key never been dropped |
| `RateLimitRuns.PassedIsAllowed` | backend/app/core/middleware.py:648-672 | projected to one bucket, all traffic is a run of that bucket alone, and at most what it alone would allow gets through |
| `RateLimitRuns.EveryStretchOfTrafficIsBounded` | backend/app/core/middleware.py:648-672 | over any stretch of interleaved traffic every identity obeys its tier bound and every address the address bound, all at once, with expiry |
| `RateLimitRuns.RequestLowersIff` | backend/app/core/middleware.py:657-672 | a request, passed or refused, leaves less in a bucket at a later time exactly when it touches the bucket, the bucket had room and it is not full again by then |
| `RateLimitRuns.RefusedByTierStillSpendsAddress` | backend/app/core/middleware.py:657-672 | a request its tier refuses leaves the tier's bucket alone and lowers the address's exactly when the address had room and does not fill up again |
| `RateLimitRuns.PeriodBound` | backend/app/core/ratelimit.py:69-84 | one period refills exactly the budget, and an idle key outlives its period by one second |
| `SingleFlight.NextKeepsShared` | frontend/src/lib/api.ts:316-400 | every event keeps the shared variable naming exactly the unresolved refresh |
| `SingleFlight.AtMostOneRefresh` | frontend/src/lib/api.ts:384-391 | in every interleaving at most one refresh is outstanding and all who wait for an unresolved one wait for it |
| `RefreshRotation.ServerNeverSeesOldCookie` | frontend/src/lib/api.ts:316-400 | if every rotation gets back to the client and nothing it has given up on arrives, no interleaving makes the server see a cookie it has rotated |
| `RefreshRotation.BreachIff` | backend/app/modules/auth/service.py:1191-1208 | over every run from a fresh page, timeouts included, the server sees a rotated cookie exactly when a rotation's cookie never gets to the client, lost on its way back or made for a refresh already given up, and any refresh reaches the server afterwards; or when a refresh that was given up reaches the server after a rotation made since |
| `RefreshRotation.LostRotationIsTakenForBreach` | frontend/src/lib/api.ts:328-341 | whenever a rotation is on its way back, losing its answer and restoring the session is such a run |
| `RefreshRotation.OvertakenStrayIsTakenForBreach` | frontend/src/lib/api.ts:328-341 | whenever a refresh is on its way to the server, giving it up, restoring the session with success and then letting it arrive is another, although no answer was lost |
| `RequestLifecycle.SentAtMostTwice` | frontend/src/lib/api.ts:356-398 | no interleaving sends a request a third time |
| `RequestLifecycle.EveryStepMakesProgress` | frontend/src/lib/api.ts:343-400 | every answer and every turn of the event loop lowers the work left |
| `RequestLifecycle.BusyRunIsBounded` | frontend/src/lib/api.ts:343-400 | no run without new requests is longer than the work left |
| `RequestLifecycle.QuiescentMeansSettled` | frontend/src/lib/api.ts:343-400 | when nothing more can happen, except that a refresh given up may still reach the server, every request has its answer and no refresh is left behind |
| `RequestLifecycle.SessionEndsOnlyForCause` | frontend/src/lib/api.ts:356-398 | the session ends only if a refresh failed or an already retried request got 401 again |
| `RequestRetry.NewRequestIsSent` | frontend/src/lib/api.ts:343-346 | a new request is sent once |
| `RequestRetry.AnswerIsTaken` | frontend/src/lib/api.ts:343-356 | a success settles a request, and a failure is looked at with its status and with whether it was a retry |
| `RequestRetry.FirstRejectionWaits` | frontend/src/lib/api.ts:360-391 | a first 401 waits for the refresh that is running, or for a new one sent with the page's cookie, and ends no session |
| `RequestRetry.OtherFailureIsHandedOn` | frontend/src/lib/api.ts:356-383 | any other failure is handed on as it is and the session goes on |
| `RequestRetry.SecondRejectionEndsSession` | frontend/src/lib/api.ts:356-383 | a 401 on a retried request ends the session and drops the token |
| `RequestRetry.DeliveredTokenIsStored` | frontend/src/lib/api.ts:328-341 | a delivered refresh gives the page its token and cookie and frees the shared variable before anyone is woken |
| `RequestRetry.WokenRequestIsSentAgain` | frontend/src/lib/api.ts:391-398 | whoever waited for it is sent once more |
| `RequestRetry.FailedRefreshEndsSession` | frontend/src/lib/api.ts:391-398 | whoever waited for a refresh that failed ends the session |
| `RequestRetry.RestoreReports` | frontend/src/lib/api.ts:562-580 | a restore reports whether its refresh succeeded, and ends no session either way |
| `RequestRetry.RejectedOnceIsRetried` | frontend/src/lib/api.ts:343-400 | under the invariant, in every interleaving after a first 401, once all is settled the request was sent again or the refresh it waited for has failed |
| `RequestRetry.ReachableRejectedIsRetried` | frontend/src/lib/api.ts:343-400 | the same in every state reached from a fresh page |
| `RequestRetry.CauseEndsSession` | frontend/src/lib/api.ts:343-400 | once a retried request was rejected, or a request waits for a refresh that failed, the session has ended by the time all is settled |
| `ApiClient.Client.constructor` | frontend/src/lib/api.ts:316-316 | a freshly loaded page |
| `ApiClient.Client.SharedRefresh` | frontend/src/lib/api.ts:387-389 | joins the running refresh or starts the only one |
| `ApiClient.Client.Request` | frontend/src/lib/api.ts:343-346 | a request goes out once |
| `ApiClient.Client.HandleError` | frontend/src/lib/api.ts:345-391 | the interceptor up to its await does what the step of the protocol says; what that step does to a first, a second and any other rejection is `RequestRetry` |
| `ApiClient.Client.ResumeRequest` | frontend/src/lib/api.ts:391-398 | after the await the request is sent once more or the session ends; a rejected retry does not reach the catch |
| `ApiClient.Client.RefreshArrives` | frontend/src/lib/api.ts:328-341 | the new token is stored before the promise resolves |
| `ApiClient.Client.RefreshGivenUp` | frontend/src/lib/api.ts:328-341 | a timeout or a broken connection fails the promise, and the request may still be on its way |
| `ApiClient.Client.ClearShared` | frontend/src/lib/api.ts:387-389 | the shared variable is cleared before anyone who waits resumes |
| `ApiClient.Client.BootstrapSession` | frontend/src/lib/api.ts:562-575 | a restore joins the same refresh |
| `ApiClient.Client.ResumeBootstrap` | frontend/src/lib/api.ts:575-580 | a failed restore clears the token and is not a session expiry |
| `CursorWalk.TopExists` | backend/app/db/repository.py:171-191 | the cursor query has an answer for every table, filter, cursor and limit |
| `CursorWalk.TopIsUnique` | backend/app/db/repository.py:171-191 | and only one |
| `CursorWalk.PageMeans` | backend/app/core/pagination.py:146-158 | from the over-fetched rows, the page is the top rows below the cursor, says that there is more exactly when some matching row below the cursor is not on it, and hands out its last id as cursor exactly then |
| `CursorWalk.WalkIsDescending` | backend/app/db/repository.py:171-191 | whatever happens to the table between fetches, a walk returns strictly descending ids, so none twice |
| `CursorWalk.ReturnedRowWasThere` | backend/app/db/repository.py:171-191 | every returned row was in the table, not deleted and matching the filter at the fetch that returned it |
| `CursorWalk.StableRowIsReturned` | backend/app/core/pagination.py:146-158 | a finished walk returns every row that matches throughout and lies below its start |
| `CursorWalk.StableRowIsReturnedExactlyOnce` | backend/app/modules/audit/router.py:119-122 | with the last kept row's id as the next cursor, such a row is returned exactly once |
| `CursorWalk.WalkIsShort` | backend/app/core/pagination.py:146-158 | every walk from a cursor ends within a number of fetches fixed by the cursor and the page size |
| `CursorWalk.WalkFromHeadIsShort` | backend/app/core/pagination.py:146-158 | a walk from the first page ends within a number of fetches fixed by the first page's own cursor |
| `OffsetPages.TotalPages` | backend/app/core/pagination.py:68-71 | the page count is the least that covers the rows, and at least one |
| `OffsetPages.PagesTileUnchangingTable` | backend/app/db/repository.py:143-169 | on an unchanging table the pages are the whole table, each row once |
| `OffsetPages.InsertRepeatsARow` | backend/app/db/repository.py:143-169 | an insert in front between two fetches repeats the last row of a full page |
| `OffsetPages.NextPageContinuesIff` | backend/app/core/pagination.py:41-47 | whatever happened to the table, the next page is the rows right behind the last one seen exactly when that row stands where the next offset counts on, or nothing is left behind it |
| `OffsetPages.LastRowComesAgainIff` | backend/app/core/pagination.py:41-47 | the last row seen comes again exactly when it now stands within the next page |
| `Uuid7.Assemble` | backend/app/db/base.py:52-61 | the successive ors give the fields at their places, for a clock reading of any size |
| `Uuid7.PackingIsInvertible` | backend/app/db/base.py:35-61 | every field, the version and the variant can be read back |
| `Uuid7.OrderFollowsTime` | backend/app/db/base.py:35-61 | ids are ordered by millisecond whatever the random bits |
| `Money.MoneyParses` | frontend/src/lib/format.ts:215-221 | a money string always parses, to its signed digits cut or filled at the scale |
| `Money.PrintThenParse` | frontend/src/lib/format.ts:202-221 | printing a total and parsing it at the same scale gives the total |
| `Money.SumMoney` | frontend/src/lib/format.ts:202-210 | the printed integer sum, or an error exactly when `BigInt` refuses some element; its white space, signs and base prefixes are accepted as JavaScript accepts them |
| `Money.SumReadsBack` | frontend/src/lib/format.ts:202-221 | the text of a sum, read back, is the integer sum of its parts |
| `Money.GroupingDoesNotShow` | frontend/src/lib/format.ts:202-210 | subtotals may be printed and summed again |
| `Money.OrderDoesNotShow` | frontend/src/lib/format.ts:202-210 | the printed sum is the same text for every order of the list |
| `TypedAmount.SumIsPrintedPlainly` | frontend/src/lib/format.ts:202-210 | a sum has exactly the asked places, no spare zero in front, and a minus exactly when it is negative |
| `TypedAmount.WrittenNumberIsRead` | frontend/src/lib/format.ts:215-221 | a number with a sign or none and white space around it is read as that number, cut or filled at the scale |
| `TypedAmount.EmptyAndPlusAreRead` | frontend/src/lib/format.ts:215-221 | an empty text is zero and a plus is allowed, as `BigInt` has it |
| `TypedAmount.HexIsRead` | frontend/src/lib/format.ts:215-221 | a base prefix is read in its base and takes no sign |
| `TypedAmount.OctalAndBinaryAreRead` | frontend/src/lib/format.ts:215-221 | the other two prefixes |
| `MoneyOrder.SignedBracket` | frontend/src/lib/format.ts:215-221 | parsing at a scale rounds the exact value towards zero |
| `MoneyOrder.ComparisonIsExact` | frontend/src/lib/format.ts:157-161 | with at most six decimal places the comparison is the exact order of the rationals |
| `MoneyOrder.NeverReverses` | frontend/src/lib/format.ts:157-161 | with any number of places, a greater answer means an exactly greater amount |
| `MoneyOrder.ExactIffCutsDiffer` | frontend/src/lib/format.ts:157-161 | for money strings of any length the comparison is the exact order exactly when the amounts are equal or differ when cut after six places |
| `MoneyOrder.SeventhPlaceIsLost` | frontend/src/lib/format.ts:157-161 | amounts that differ only in the seventh place compare equal |
| `MoneyExport.GroupDigits` | backend/app/modules/accounting/exports.py:111-129 | the loop gives the recursive Indian grouping |
| `MoneyExport.IndianShape` | backend/app/modules/accounting/exports.py:111-129 | over three digits: three digits last, pairs before them, one or two first, commas nowhere else |
| `MoneyExport.ThousandsShape` | backend/app/modules/accounting/exports.py:111-137 | elsewhere threes throughout, with a comma at every fourth place from the end and nowhere else |
| `MoneyExport.CentsAreNearest` | backend/app/modules/accounting/exports.py:131-134 | the printed hundredths are the nearest to the amount, a half going to the even neighbour |
| `MoneyExport.FormattedByCurrency` | backend/app/modules/accounting/exports.py:131-137 | which currency is grouped how and shown with which sign |
| `MoneyExport.GroupingKeepsDigits` | backend/app/modules/accounting/exports.py:111-137 | grouping only adds commas, in either style |
| `MoneyExport.RoundingIsNearest` | backend/app/modules/accounting/exports.py:131-134 | the two printed places are the nearest, a half going to the even neighbour |
| `MoneyExport.PastedMoneySurvives` | backend/app/modules/accounting/exports.py:131-137 | a formatted amount, pasted into a field, leaves its sign and digits |
| `MoneyExport.PastedAmountIsPrintedAmount` | frontend/src/lib/decimalInput.ts:36-55 | what the field then holds reads as the printed amount |
| `DecimalInput.OutputIsDecimal` | frontend/src/lib/decimalInput.ts:36-55 | whatever is typed, the result is empty, a lone allowed minus, or a number of the allowed places |
| `TypedAmount.TypedNumberIsRead` | frontend/src/lib/decimalInput.ts:36-55 | digits, a point and digits, with or without digits before the point, leave a money text whose amount is the one typed, cut at the field's places |
| `TypedAmount.TypedWholeIsKept` | frontend/src/lib/decimalInput.ts:36-55 | a whole number, or nothing, is left as it is |
| `TypedAmount.DigitsAreThoseTyped` | frontend/src/lib/decimalInput.ts:36-55 | whatever is typed, with any number of points, the digits are those typed, in order, cut after the places behind the first point, behind one zero when none stood before it |
| `TypedAmount.SignIsThatTyped` | frontend/src/lib/decimalInput.ts:36-55 | the result is negative exactly when that is allowed and a minus is the first thing typed that is not white space |
| `DecimalInput.DecimalIsKept` | frontend/src/lib/decimalInput.ts:36-55 | a number of the allowed form is left as it is |
| `DecimalInput.SanitiseIsIdempotent` | frontend/src/lib/decimalInput.ts:36-55 | sanitising twice is sanitising once |
| `Scrub.OutputIsClean` | backend/app/core/monitoring.py:90-116 | no value but the mark remains under a secret key at any depth, and nothing but the mark below the limit |
| `Scrub.UntouchedIffClean` | backend/app/core/monitoring.py:90-116 | exactly the clean, shallow values pass unchanged |
| `Scrub.ScrubIsIdempotent` | backend/app/core/monitoring.py:90-116 | scrubbing twice is scrubbing once |
| `Scrub.NestingIsBounded` | backend/app/core/monitoring.py:98-99 | at most thirteen containers lie inside one another in a report |
| `Scrub.TwelveLevelsAreReported` | backend/app/core/monitoring.py:90-116 | what lies inside at most twelve containers is reported, and nothing deeper |
| `Scrub.CaseDoesNotMatter` | backend/app/core/monitoring.py:101-108 | two spellings with one lower-case form are both secret or both not, and only texts are secret keys |
| `Scrub.ListedKeysAreRedacted` | backend/app/core/monitoring.py:47-80 | exactly the listed names are secret, and their value becomes the mark |
| `Scrub.OutputTellsOnlyWhatIsVisible` | backend/app/core/monitoring.py:90-116 | two events give the same report exactly when they look the same along every path of at most twelve steps that passes no secret key |
| `Scrub.CyclesAreCut` | backend/app/core/monitoring.py:90-99 | an event that contains itself is reported as any unrolling of it that reaches the limit |
| `Scrub.EveryReportIsSafe` | backend/app/core/monitoring.py:90-116 | the report on any event in memory, cyclic or not, is clean and bounded |
| `Scrub.ScrubObject` | backend/app/core/monitoring.py:90-116 | the recursion that fills the cleaned dictionary ends on every event and computes the report |
| `Scrub.ScrubDict` | backend/app/core/monitoring.py:101-108 | the loop that fills the cleaned dictionary key by key gives the report's entries |

## Left out

- Contract storage lifetimes, archival and published events: host behaviour without effect on the answers modelled.
- `LedgerTilesPostings` and the outbox theorems speak of an organisation whose administrator key only the worker uses, and of rows that are written while they are open; two workers that write over each other's row, database isolation levels and the daily schedule are not modelled.
- The outbox compares whole requests where the code reads the ledger's seal back; the transaction hash, the audit records and the texts of errors are not modelled, nor is a book that does not exist on the ledger.
- Recording of leaves when hashing an entry fails: such an entry has no leaf and is outside the backlog.
- The limiter's fail-open branch, request classification, budget parsing and the exempt tier's routes: the script is assumed to run.
- Floating point in Lua and the text form of its numbers: tokens and time are reals. Callers and Redis share one clock, and where expiry is called invisible it does not run back.
- Other browser tabs, which share the cookie but not the page's variables.
- Base64 and UUID text of cursors: a malformed cursor is no cursor.
- Sorting and filtering of pages: any filter, one order.
- `CompareMoney`: counts a text that does not parse as zero where the code throws; the theorems speak of money strings only.
- NaN and infinite decimals in the exporter.
- Canonical encoding from JSON payloads, where a missing amount and an amount of zero are the same, and Unicode normalisation of text: a field is its bytes.
- Lower-casing of keys in the scrubber is a parameter; the surgery on breadcrumbs and request data around it is not modelled.
- Stock valuation, tax, posting, payment allocation and the rest of the accounting services, the user interfaces, security headers and settings: easier, or foreign calls.
