# One-time codes through an off-chain worker: a verified model

The repository is a Substrate node whose users ask for garbled circuits. An extrinsic of `ocw-garble` or
`ocw-circuits` writes a job into a one-cell off-chain mailbox; an off-chain worker reads the cell, takes a storage
lock, clears the cell, calls a remote service over gRPC-Web, and sends one signed callback per local account. The
strip callback stores two digit strings (a two-digit message and a shuffled ten-digit pad) in `tx-validation` and
appends an entry to the account's bounded list; `check_input` later compares what the user typed with them.

This project models that pipeline and proves what every run of it keeps.

| file | what it holds |
|---|---|
| `Common`, `Utf8` | integer widths, how an extrinsic ends, UTF-8 (section 3 of RFC 3629) |
| `TxValidation`, `OneTimeCode` | the stored codes and the check; which inputs pass, and how many |
| `Scale`, `IndexingData` | the SCALE form of the two job records |
| `Base64`, `GrpcWeb` | the gRPC-Web framing and its text mode |
| `Shuffle` | the in-place Fisher-Yates shuffle of the pad |
| `Circuits`, `Garble`, `Runtime` | the pallets as classes over their storage, and dispatch with rollback |
| `Ledger` | theorems over any sequence of extrinsics |
| `Mailbox`, `Interleaving` | one mailbox with its lock and overlapping workers, and theorems over all its runs |
| `OffchainWorker` | one worker's `process_if_needed`, in place, tied to the mailbox steps |
| `Pipeline` | everything together: extrinsics, both pallets' workers, and the pool |
| `Settlement` | what becomes of each kind of job, from its request to what its callback does to a chain |
| `EndToEnd` | theorems over all runs of the pipeline |
| `Delivery` | what an undisturbed run achieves from any state |
| `MortalEra` | the era a worker's callback is signed with |

How the model is built:

- An extrinsic body is a method that writes the pallet's fields in the order the code does. Its contract ties the new
  fields and the way it ended to a function of the old ones; the theorems are about that function. A returned `Err`
  keeps what was written (pallets/tx-validation/src/tests.rs:82-88 relies on it); a panic makes
  `Runtime.Executive.ApplyExtrinsic` put the storage back.
- A run is any finite sequence of actions; an action that is not enabled changes nothing. Random draws, service
  replies, signing accounts, time, the interleaving of workers, crashes, and every user extrinsic, forged callbacks
  included, are free.
- The lock is one entry with a deadline of 10000 ms and 3 blocks. When a deadline counts as expired is an arbitrary
  predicate of deadline and clock, so the theorems hold for any. Dropping a guard empties the entry, and a panicking
  worker leaves it.
- Job ids, logs and counters in `Mailbox.State` and `Pipeline.State` are bookkeeping that no step reads to decide
  anything.

Where the code and its own words differ, the model follows the code. `append_or_replace_skcd_hash` and
`append_or_replace_verilog_hash` are described as appending to a bounded list (pallets/ocw-garble/src/lib.rs:501-502)
but overwrite one cell. docs/storage.md:8-10 and 79-81 present the lock as what makes overlapping workers safe, but the
cell is read before the lock is tried.

Four properties the code does not have in general, each with the exact condition under which it has them:

- *No job taken twice.* Two workers that both read before the first locks process one job twice
  (`Interleaving.ReadOutsideLockRepeatsJob`). With timely holders, no job is taken twice exactly when no worker clears
  the cell after locking it late, that is, when its job had already been taken (`Interleaving.AtMostOnceExactly`, and
  job by job `Interleaving.JobAtMostOnceExactly`); such a worker would find another job in the cell if it looked again
  under the lock (`Interleaving.LateLockFindsAnotherCell`). It is enough that no release or expiry falls between a worker's read and
  its lock (`Interleaving.AtMostOnce`). Without timely holders neither condition helps: a slow worker's lapsed lock can
  be taken over before it clears the cell (`Interleaving.StaleLockRepeatsJob`).
- *Erased is taken.* A job submitted between a worker's read and its clear is erased unread
  (`Interleaving.OverlappingSubmitIsLost`). In every run, and with no assumption on timing, the erased jobs are the
  taken ones, each taken once, exactly when every clear finds in the cell the job its worker had read
  (`Interleaving.TakenIsErasedExactly`). Then submitted = taken + overwritten + in the cell; serial runs are one case.
  What balances in every run is submitted = overwritten + erased + in the cell.
- *Every stored code is sound.* `store_metadata` and the strip callback are open to every account, and an account can
  spoil its own codes (`EndToEnd.DirectStoreEscapes`). In every run and for every key, the stored package is two digits
  and a rearranged pad exactly when the last store under that key was a pushed callback, or a call the account of the
  key sent by hand with such a package (`EndToEnd.StoredCodesExactly`): nobody else can spoil an account's codes.
- *Birth block among the last n.* Wherever an era starts, its birth block stays among the last n blocks to the end of
  the era exactly when n is at least 3: the smallest mortal era has four blocks. How the framework prunes hashes is not
  part of this model.

## Model

| member | source | states |
|---|---|---|
| Utf8.DecodesExactlyEncodings | pallets/tx-validation/src/lib.rs:238-239 | bytes pass `from_utf8` as characters cs exactly when they are the UTF-8 encoding of the scalar values cs |
| Utf8.CharLayout | pallets/tx-validation/src/lib.rs:238-239 | a character's encoding has the length its range demands, and its bytes spell its number (section 3 of RFC 3629) |
| TxValidation.Pallet.StoreMetadata | pallets/tx-validation/src/lib.rs:165-194 | the new storage and the way the call ends, including the event left before an oversized field panics |
| TxValidation.Pallet.CheckInputSigned | pallets/tx-validation/src/lib.rs:216-278 | only the events change, and as the check decides: pass, wrong code, or panic |
| OneTimeCode.CheckExactly | pallets/tx-validation/src/lib.rs:238-277 | for every input: it panics iff some byte is not a raw or ASCII digit on the pad, passes iff byte by byte it shows the message, and is a wrong code otherwise |
| OneTimeCode.AcceptedAreThose | pallets/tx-validation/src/lib.rs:238-277 | the set of accepted strings contains exactly the inputs that pass |
| OneTimeCode.AcceptedCount | pallets/tx-validation/src/lib.rs:254-270 | its size is the product over positions of twice the number of pad slots holding that digit, for any message and any storable pad |
| OneTimeCode.PermutationCount | pallets/tx-validation/src/lib.rs:254-270 | exactly 2^n strings pass for n digits on a permutation pad |
| OneTimeCode.PassIsInversePermutation | pallets/tx-validation/src/lib.rs:238-262 | on a permutation pad an input passes iff its normalised form is the inverse permutation applied to the message |
| OneTimeCode.PositionsPass | pallets/tx-validation/src/lib.rs:254-270 | those positions, typed as raw digits, pass, so a passing input always exists and is unique once normalised |
| OneTimeCode.SameKeysSameVerdict | pallets/tx-validation/src/lib.rs:240-243 | raw, ASCII and mixed inputs that mean the same keys get the same verdict, panics included |
| OneTimeCode.NormalisingTwice | pallets/tx-validation/src/lib.rs:240-243 | ASCII input always normalises, normalising again changes nothing, and the normalised input gets the same verdict |
| Scale.CompactExactly | pallets/ocw-garble/src/lib.rs:486-498 | each vector length decodes from its shortest compact mode and from nothing else |
| Scale.CompactLayout | pallets/ocw-garble/src/lib.rs:486-498 | the four compact modes byte by byte: one, two or four bytes spelling 4n and the mode, or 3 and n in four |
| Scale.BytesExactly | pallets/ocw-garble/src/lib.rs:486-498 | a `Vec<u8>` and any following bytes come back exactly from its encoding, and from nothing else |
| IndexingData.GarbleExactly | pallets/ocw-garble/src/lib.rs:486-498 | the same for the eight-field garble record: decode and encode are inverse, whatever follows |
| IndexingData.CircuitsExactly | pallets/ocw-circuits/src/lib.rs:356-364 | the same for the circuits record, whose fields come in another order |
| IndexingData.GarbleLayout | pallets/ocw-garble/src/lib.rs:486-498 | a garble record is four bytes of block number, a byte for the kind, and the six optional fields in declaration order |
| IndexingData.CircuitsLayout | pallets/ocw-circuits/src/lib.rs:356-364 | a circuits record is the optional hash, four bytes of block number, a byte for the kind |
| IndexingData.DefaultLayout | pallets/ocw-garble/src/lib.rs:580 | clearing writes eleven zero bytes for garble, six for circuits |
| IndexingData.GarbleReadsBack | pallets/ocw-garble/src/lib.rs:543-554 | a worker reads the job the extrinsic wrote, and the cleared cell as nothing to do |
| IndexingData.CircuitsReadsBack | pallets/ocw-circuits/src/lib.rs:395-407 | the same for the circuits mailbox |
| Base64.DecodesEncoding | ocw-common/src/lib.rs:48-52 | decoding the base64 of any bytes returns them |
| Base64.DecodesExactly | ocw-common/src/lib.rs:48-52 | and a padded text decodes to b only if it is the encoding of b |
| Base64.EncodesBits | ocw-common/src/lib.rs:48-52 | three bytes read as one number are four symbols of the standard table read as one; a rest is filled with zero bits and marked by padding |
| GrpcWeb.EncodeBody | ocw-common/src/lib.rs:17-34 | the buffer filled and patched in place is a zero byte, the length modulo 2^32 most significant byte first, and the payload |
| GrpcWeb.DecodeBody | ocw-common/src/lib.rs:44-62 | the cursor's reads amount to the decoding function, every short read a panic |
| GrpcWeb.UnframesExactly | ocw-common/src/lib.rs:54-61 | exactly which bodies decode, and into which message and trailers |
| GrpcWeb.FramingRoundTrip | ocw-common/src/lib.rs:26-33 | a framed payload with trailers comes back iff it is shorter than 2^32 bytes, with every byte of the body accounted for |
| GrpcWeb.MessageRoundTrip | ocw-common/src/lib.rs:17-61 | the same for any message under any payload codec that round-trips |
| GrpcWeb.FrameAloneIsTooShort | ocw-common/src/lib.rs:54-57 | what `encode_body` produces is refused by `decode_body`, exactly unless the payload has 2^32 bytes or more and the part its truncated length names parses |
| GrpcWeb.TextModeAgrees | ocw-common/src/lib.rs:48-52 | the base64 body in text mode decodes as the raw body does, and an unknown type is raw |
| Shuffle.Shuffle | pallets/ocw-garble/src/lib.rs:326-327 | the in-place swaps compute the shuffle of the draws |
| Shuffle.ShuffledIsPermutation | pallets/ocw-garble/src/lib.rs:330-331 | a shuffle only rearranges |
| Shuffle.ShuffleSteps | pallets/ocw-garble/src/lib.rs:326-327 | the result is reached by exchanging, from the back, each position with its draw |
| Shuffle.ShuffleIsBijective | pallets/ocw-garble/src/lib.rs:325-331 | every rearrangement of distinct elements comes from exactly one draw sequence |
| Circuits.Pallet.CallbackNewDisplayCircuitsPackageSigned | pallets/ocw-circuits/src/lib.rs:280-315 | new package and event, or a panic after the event on an oversized cid |
| Circuits.Pallet.SubmitConfigGenericSigned | pallets/ocw-circuits/src/lib.rs:232-246 | the mailbox write of a generic request |
| Circuits.Pallet.SubmitConfigDisplayCircuitsPackageSigned | pallets/ocw-circuits/src/lib.rs:249-261 | the mailbox write of a display request |
| Garble.Pallet.GetAndIncrementNonce | pallets/ocw-garble/src/lib.rs:234-238 | returns the nonce and advances it modulo 2^64 |
| Garble.Pallet.RequestStandard | pallets/ocw-garble/src/lib.rs:260-279 | the mailbox write of a standard request |
| Garble.Pallet.RequestStrip | pallets/ocw-garble/src/lib.rs:282-348 | package check, nonce, shuffle and draws, mailbox write |
| Garble.Pallet.CallbackNewGarbledAndStripSigned | pallets/ocw-garble/src/lib.rs:370-441 | events, metadata and list as the code writes them in order, partial writes at a panic included |
| Runtime.Executive.ApplyExtrinsic | pallets/ocw-garble/src/lib.rs:257-442 | running any extrinsic in place gives the committed state: everything it wrote, or nothing if it panicked |
| Ledger.StripCallbackExactly | pallets/ocw-garble/src/lib.rs:403-438 | accepted iff the fields fit and the list has room; then one package and one entry under the signer, else nothing changes |
| Ledger.PendingListIsAccepted | pallets/ocw-garble/src/lib.rs:136-153 | after any extrinsics an account's list is the entries of its accepted strip callbacks in order, at most 16 |
| Ledger.MetadataIsLastWrite | pallets/tx-validation/src/lib.rs:181-191 | after any extrinsics the stored package is the most recent accepted store for its key |
| Ledger.VerdictFromLastWrite | pallets/tx-validation/src/lib.rs:226-277 | the verdict is decided by the input and that store, checking leaves the map alone, and which event remains |
| Ledger.PendingAgreesWithMetadata | pallets/ocw-garble/src/lib.rs:403-438 | every pending cid has a stored package; unless a direct store came later the latest entry states its message length |
| Ledger.PackageIsLastDisplay | pallets/ocw-circuits/src/lib.rs:302-312 | the current package is that of the most recent accepted display callback |
| Ledger.PackageHasCallback | pallets/ocw-circuits/src/lib.rs:197-208 | a package with digits comes from an accepted display callback, the last one: before the first there is none |
| Ledger.StripRequestGated | pallets/ocw-garble/src/lib.rs:294-345 | a strip request succeeds iff signed, encodable, and the last display callback set both digit counts; its job reads back with the two cids of that one callback, the drawn digits, and the pad that the nine drawn swaps make of 0 to 9 |
| Ledger.EveryPadIsDrawn | pallets/ocw-garble/src/lib.rs:325-331 | every rearrangement of 0 to 9, with any two digits, is the pad of the job that some draws leave in the mailbox |
| Ledger.EqualPadsEqualSwaps | pallets/ocw-garble/src/lib.rs:325-331 | two requests that leave equal pads drew equal swaps |
| Ledger.RequestsReadBack | pallets/ocw-garble/src/lib.rs:268-278 | the standard, generic and display requests read back from the mailbox as what was asked |
| Ledger.OutcomeExactly | pallets/ocw-garble/src/lib.rs:257-442 | how each of the ten calls ends after any extrinsics, every acceptance, error and panic, from the history alone |
| Ledger.EventsExactly | pallets/tx-validation/src/lib.rs:165-278 | the three event logs after any extrinsics: each accepted call's own events, a wrong code's failure, nothing from a panic |
| Ledger.WritesBeforePanic | pallets/ocw-garble/src/lib.rs:389-438 | what each body has written when it panics: the event, the metadata although the list is full, the nonce |
| Ledger.NonceCountsRequests | pallets/ocw-garble/src/lib.rs:234-238 | the nonce is the number of accepted strip requests modulo 2^64 |
| Ledger.NoncesDistinct | pallets/ocw-garble/src/lib.rs:309-310 | two accepted requests fewer than 2^64 apart draw from different encoded nonces |
| Mailbox.ReachableInv | pallets/ocw-garble/src/lib.rs:533-604 | in every run the cell and each snapshot are a submitted job or nothing to do, and no job leaves the books |
| Mailbox.WorkExactly | pallets/ocw-circuits/src/lib.rs:395-411 | for both pallets there is work exactly when the cell begins with a record whose block number is not zero |
| Mailbox.Conservation | pallets/ocw-garble/src/lib.rs:514-601 | in every run submitted = overwritten + erased + in the cell, and taken = delivered + failed + in flight |
| Interleaving.TakenIsErasedExactly | pallets/ocw-garble/src/lib.rs:543-580 | in every run: the erased jobs are the taken ones, each taken once, iff each clear finds in the cell the job its worker read; then submitted = taken + overwritten + in the cell |
| Interleaving.SerialConservation | pallets/ocw-garble/src/lib.rs:543-601 | in serial runs, crashes included, submitted = taken + overwritten + in the cell, and no job is taken twice |
| Interleaving.OverlappingSubmitIsLost | pallets/ocw-garble/src/lib.rs:543-580 | a run with timely holders and no job taken twice that erases a job nobody read |
| Interleaving.MutualExclusion | pallets/ocw-garble/src/lib.rs:565-602 | with timely holders at most one worker is between `try_lock` and guard drop, the lock entry is then its own, and a set entry belongs to such a worker or to one that crashed holding this very entry |
| Interleaving.AtMostOnceExactly | pallets/ocw-garble/src/lib.rs:543-601 | with timely holders no job is taken twice iff no worker clears the cell after locking it for a job already taken |
| Interleaving.JobAtMostOnceExactly | pallets/ocw-garble/src/lib.rs:543-601 | the same job by job, whatever happens to the others: taken at most once iff no worker carrying it clears the cell after a late lock |
| Interleaving.LateLockFindsAnotherCell | pallets/ocw-garble/src/lib.rs:543-580 | in every run a worker that locks late would see it: the cell no longer holds its job |
| Interleaving.AtMostOnce | pallets/ocw-garble/src/lib.rs:543-601 | so with timely holders it is enough that no release or expiry falls between a worker's read and its lock |
| Interleaving.TakenAtMostAsRead | pallets/ocw-garble/src/lib.rs:543-580 | in every run a job is taken at most as often as workers snapshotted it |
| Interleaving.EachTakeEndsOnce | pallets/ocw-garble/src/lib.rs:580-602 | in every run, job by job: taken = delivered + failed + in flight, so a job taken at most once is delivered or fails at most once |
| Interleaving.ReadOutsideLockRepeatsJob | pallets/ocw-garble/src/lib.rs:543-580 | a run with timely holders that processes one job twice |
| Interleaving.StaleLockRepeatsJob | pallets/ocw-garble/src/lib.rs:565-580 | a run without timely holders that processes one job twice although nobody locked late and no release or expiry fell between read and lock |
| OffchainWorker.UninterruptedRun | pallets/ocw-garble/src/lib.rs:551-603 | what one undisturbed worker leaves for each way the calls can end: the cell zeroed, the lock free, or after a panic set for 10000 ms and 3 blocks |
| OffchainWorker.ExpectsExactly | pallets/ocw-garble/src/lib.rs:582-599 | the `expect("missing ...")` calls fire exactly on a record lacking a field of its kind |
| OffchainWorker.LocalStorage.ProcessIfNeeded | pallets/ocw-garble/src/lib.rs:533-604 | the in-place code leaves what the interleavable steps leave, and pushes the job's callback iff it got the lock and the service answered |
| Pipeline.MailboxRuns | pallets/ocw-circuits/src/lib.rs:385-445 | inside the pipeline each pallet's mailbox makes a run of its own, so all mailbox theorems apply to both |
| Pipeline.WorkerActions | pallets/ocw-garble/src/lib.rs:533-604 | a worker's action is its step on its own pallet's mailbox and none on the other; time passes for both |
| Pipeline.ChainRuns | pallets/ocw-garble/src/lib.rs:724-748 | the chain is the result of the executed extrinsics alone, so all ledger theorems apply |
| Pipeline.NoInvention | pallets/ocw-garble/src/lib.rs:582-599 | in every reachable state each cell and snapshot is a submitted job bit for bit with the fields of its kind, and no `expect("missing ...")` can fire, in either pallet |
| Pipeline.JobsAreRequests | pallets/ocw-garble/src/lib.rs:268-345 | in every run the jobs of the garble mailbox are, in order and one each, the encoded jobs of the accepted requests: that request's draws and the cids of the last display callback before it |
| Pipeline.CircuitsJobsAreRequests | pallets/ocw-circuits/src/lib.rs:232-261 | in every run the jobs of the circuits mailbox are, in order and one each, the encoded jobs of the accepted generic and display requests |
| EndToEnd.DeliveredUnchanged | pallets/ocw-garble/src/lib.rs:729-747 | in every run each pushed strip callback comes from one settled, taken job and carries unchanged what the one accepted request of that job drew |
| Settlement.StripRequestSettles | pallets/ocw-garble/src/lib.rs:645-748 | in every run a strip job that settles is that of one accepted request; iff its texts are UTF-8 and both calls were answered, each local account's callback enters the pool, and executed it stores that request's digits and pad and appends the reply's four cids; else the job fails, nothing is pushed and the lock entry is left as it was |
| Settlement.StandardRequestSettles | pallets/ocw-garble/src/lib.rs:606-733 | a settled standard job is that of one accepted request; its callback, executed anywhere, deposits exactly the event with the reply's cid; a fetch error is only logged, every other failure crashes the worker |
| Settlement.CircuitsRequestSettles | pallets/ocw-circuits/src/lib.rs:431-613 | the same for both circuits jobs: a display callback installs exactly the replies' package, a generic one announces the reply's cid, and each failed reply ends as named |
| EndToEnd.StoredCodesExactly | pallets/ocw-garble/src/lib.rs:403-409 | in every run and for every key the stored package is that of the last accepted store, signed by the account of the key; from the pool, one settled job, one accepted request and the reply's cid explain it, else the account sent it by hand; so it is a sound code iff from the pool or sent as one |
| EndToEnd.PooledCodesAreSound | pallets/ocw-garble/src/lib.rs:325-345 | if the last store under a key was a pushed callback, its package is what one accepted strip request drew, two digits and a permutation pad, and exactly four byte strings pass, whatever else the run does |
| EndToEnd.StoredCodesAreSound | pallets/tx-validation/src/lib.rs:181-191 | so it is enough that the account of the key stores nothing there by hand |
| EndToEnd.DirectStoreEscapes | pallets/tx-validation/src/lib.rs:204-211 | a run in which an account spoils its own code by a direct store |
| EndToEnd.JobsProcessedOnce | pallets/ocw-circuits/src/lib.rs:395-443 | for both pallets inside the pipeline: the exact conditions, over all jobs and job by job, at most one end for a job taken at most once, and takes bounded by reads |
| EndToEnd.StripCallbacksAreAccountedFor | pallets/ocw-garble/src/lib.rs:415-438 | over any run and for any account: list length + refused + waiting callbacks = one per time it is among the signers of a published strip reply, plus those it sent by hand |
| EndToEnd.StripRunsAreAccountedFor | pallets/ocw-garble/src/lib.rs:724-748 | so for an account that signs each published strip reply once and none by hand the sum is the number of successful strip runs |
| Delivery.JobIsServed | pallets/ocw-garble/src/lib.rs:551-603 | from any state a worker that nobody disturbs serves the job in the mailbox: its callbacks are pushed, the lock is free, the rest untouched |
| Delivery.CodeReachesItsUser | pallets/tx-validation/src/lib.rs:238-273 | from any state with both mailboxes ready, a display and a strip request served so leave a code that passes: the positions of the drawn digits on the drawn pad |
| MortalEra.PeriodBounds | runtime/src/lib.rs:339-343 | for counts from 2 to 2^31 the period is a power of two p with p < n <= 2p |
| MortalEra.PeriodAtTheEdges | runtime/src/lib.rs:339-343 | beyond 2^31 the next power of two overflows and the period is 2; below 2 it is 0 |
| MortalEra.BirthIsStable | runtime/src/lib.rs:344-349 | every block of the era resolves to one birth block: the signing block, or in a period over 4096 the start of its 4096th part of the period |
| MortalEra.AmongLastExactly | runtime/src/lib.rs:339-349 | wherever the era starts, its birth block is among the last n for every block of the era iff n is at least 3 |
| MortalEra.ShippedEra | runtime/src/lib.rs:145-349 | 2400 gives 2048, and a worker running for block n, which sees block number n + 1, signs an era that each of the 2048 blocks from n on resolves to n |

## Left out

- HTTP requests, headers, deadlines, endpoint URLs and environment variables: a reply is an arbitrary value or a failure.
- The protobuf encoding of messages: the `.proto` files are not part of this model; the payload codec is any pair that round-trips.
- Base64.DecodesExactly: only padded text is modelled; a text without full padding, which the library may accept, is refused.
- ChaCha, the randomness pallet, signatures and key stores: draws are arbitrary within their range, a signer is an account id.
- The internals of `StorageLock` and `Era`, and the pruning of block hashes: none of these is part of this model; the lock is an entry with a deadline, the era arithmetic that of the mortal era format.
- UTF-8 checks that occur only in arguments of log lines: they are evaluated only when logging is on.
- Off-chain index writes reach the mailbox after each extrinsic, not after each block; a write replaced within a block then counts as overwritten.
- The order of events across pallets: each pallet's own order is kept.
- Weights, fees, transaction validity and dropping of pool transactions: a pushed callback is included at any time or never.
- Pad and message bounding boxes in `ocw-circuits`: constant layout.
- `mobile-registry`, `node/` and runtime wiring: they would add only easy members.
- Forks and re-orgs of off-chain indexing.
