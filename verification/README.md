# Z-BACS: a verified model

Z-BACS seals files so that opening one needs the owner's approval. This project models the parts of
it that carry a guarantee, in Dafny, and proves the guarantees for every input and every run, and, for
the relay's handlers and the deferred bumps, for every interleaving:

- the sealed container: a chunked AEAD stream with a signed header, a padded name, a trailer and a
  chain of reseals, down to its offsets and up to who can open it (`Container`, `ContainerProofs`,
  `VersionChain`, `Layout`, `Recipients`);
- the relay that carries requests and answers, and its retrying client on a lossy network
  (`Proto`, `RelaySpec`, `RelayRuns`, `RelayStore`, `RelayThreads`, `RelayQuota`, `Answers`, `Client`,
  `Failover`, `Incidents`), and what each refusal means (`Refusals`);
- the session state machine, in what it never does and what it owes, and the loop that waits for an
  owner's answer (`Session`, `Duties`, `Asking`);
- the owner's ledger, version bumps that wait for a tap, the feed of chain events and the
  crash-tolerant record (`Ledger`, `Holdings`, `DeferredBumps`, `Feed`, `ChainLines`, `AuditLog`);
- folding the `s` of a P-256 signature into the lower half of the order (`LowS`);
- the confirmation policy over whole runs and the two encodings of a grant (`Confirming`, `GrantTerms`).

`dafny verify dfyconfig.toml` checks everything.

## How the model is built

Code that works in place is a class or a method with loops, proved against a specification function;
the theorems are about those functions and about runs of them. Files and streams are byte sequences.
The relay's specification is its full history of events: the class keeps the pruned maps and queues of
the original and every method is proved to decide exactly as the history says.

Cryptography, CBOR, JSON and UTF-8 are function values (`Suite`, `Wire`, `Codec`, `Json`, `Hashing`);
what is assumed of them stands in the `requires` of the lemma that uses it. For the AEAD the assumption
is that, under one file key, nothing decrypts except what that one seal encrypted
(`Sealing.Ideal`), and that this much does decrypt; `IdealExists` shows all of these assumptions
consistent by building such an AEAD and such a hash for every seal, and `LogAeadExists` builds one AEAD
for any number of seals under different keys. Hash collisions are either ruled out
for the one header hash at stake or appear as an explicit alternative in the conclusion. Randomness,
clocks, the network, the disk and the chain node are parameters, so every lemma holds for all of their
behaviours. A relay handler takes three readings of the clock (when it verifies, when it takes quota and
nonce, when it routes). `RelaySpec` and `RelayRuns` run whole handlers one after another; in
`RelayThreads` and `RelayQuota` any handler may run between two uses of the lock by another.

What a function computes is also said without it: by the bytes at an offset, by the step that brought an
event about, by the event that an effect or a line is due to, and by what comes back at the other end.

A call of the client is a run too: `Client.Call` names the bytes, the endpoints and what the network does
to each attempt, and `Life` is what a relay has then lived through, its own traffic included.

## What the proofs found

Where the code and its documentation disagree the model follows the code.

- A replay is impossible for all time only if a handler takes the nonce within 59 seconds of the clock
  reading it verified against (120 s of skew on both sides against a memory of 300 s). This holds however
  handlers interleave (`NoReplayInterleaved`). On any wire, `PromptBoundExact` makes two of any
  announcement that verifies, both accepted, with one nanosecond more.
- A refusal after authentication has already taken the nonce, so when its reply is lost the retry reads as
  `AlreadyDelivered` although nothing was queued. `DeliveredUnqueuedExactly` gives the condition: the
  message was not one the relay could route (it is about another device, names no owner, or answers no
  request under a day old). `UnaskedAnswerReadsDelivered` is a whole call of the client in which it
  happens. The reverse mistake is impossible: a submission turned away for its rate leaves no trace, and a
  call is told `AlreadyDelivered` only after an attempt whose reply was lost or garbled, unless somebody
  else's message was admitted with the same nonce (`DeliveredBefore`, `RetryTookItself`). The relay does not
  ask whose nonce it was: `SharedNonceReadsDelivered` is a run in which a device that was never admitted
  reads that it was delivered.
- The comment on announcing promises every endpoint; `submit` stops at the first relay that answers. In
  every network a successful announcement that nobody else makes is known to the endpoint that ended the
  call (`AnnounceReachesItsEnd`), and so success reaches every endpoint, whatever is lost, exactly if no
  more than one is configured (`AnnounceReachesAllExactly`). With several, each must have accepted an
  attempt whose reply was then lost or garbled, but for the last (`AnnounceReachesExactly`). A request that
  then fails over meets `UnknownDevice`, which is not retried (`UnknownDeviceEndsCall`, and
  `FailoverFindsStranger` for a whole run).
- A handler reads the clock before it asks for the lock, so the quota forgets by the newer reading and
  counts by the older one. If the lock is had within a delay d, an hour less d holds at most 300 calls of a
  device (`QuotaInterleaved`), and for d up to forty minutes a window one nanosecond longer can hold 301
  (`QuotaDelayExact`). The limit of 30 a minute holds for any delay up to 59 minutes.
- Two writes of the agent that overlap can leave the chain with an older version: the one that read the older
  bump may land last, after the newer one has left the queue (`OlderLandsLast`). The chain ends with what
  was newest when the write that landed last had read the queue (`EndsNewestExactly`); if writes take turns
  no newer version is overtaken (`NewestLandsLast`). And when a batch landed but could not be cleared, the
  next write that reads the queue is refused by the registry as a whole (`FailedClearBlocksWrite`).
- Sealing does not check that its own output can be read: `SealReadableIff` gives the exact condition
  (owner account of 1 to 64 bytes, at most 31 extra recipients, a previous version of at least 1).
- Low-s folding is right exactly for values up to the order; above it the subtraction wraps and the
  result is still high (`FoldLowIff`).
- A merge of the chain feed passes over an event for good exactly if the cursor could not be read and the
  event stands before the newest block, or its look-up or its append failed (`LosesExactly`;
  `UnreadCursorSkips` and `FailedLookupDrops` are inputs). In any run without such a merge nothing is
  skipped (`NothingSkipped`), and crashes and failed stores only repeat events (`EventsRecorded`); as long as
  the cursor can be read no event is written by two merges that ended well (`WrittenOnce`).
- Reading the record stops at a line cut inside a multi-byte character: every later entry is hidden for
  good (`TornCharacterHidesTheRest`, and `TornCharacterHappens` with a two-byte character).
- The burst count is cut to 32 bits before it is compared: after 2^32 grants in a window the next one is
  signed unasked (`TruncationExactly`, `TruncationFails`). What it counts is kept in memory, so each
  restart allows the limit once more (`BurstOverRestarts`, reached under every policy by `RestartResetsBurst`).
- The approval's expiry is a `u64` sum; the owner's answer is usable exactly if that sum does not wrap
  (`AnswerFitsRequest`).

## Model

| member | source | states |
|---|---|---|
| Container.WriteFrames | crates/zbacs-core/src/container.rs:250-273 | The writing loop emits exactly the frames of the plaintext cut into chunks, at least one even for an empty file; every counter stays a u64 and the loop ends on the chunk that ends the plaintext |
| Container.SealSigned | crates/zbacs-core/src/container.rs:165-279 | Sealing writes prelude, header, frames and trailer, and writes nothing when it refuses; `Layout` says where each field stands and `Recipients` who can open the result |
| Container.ReadFrames | crates/zbacs-core/src/container.rs:405-440 | The reading loop returns what the recursive reader returns and has written exactly what it says, also when it fails part-way |
| Container.OpenChunks | crates/zbacs-core/src/container.rs:392-440 | Opening checks the name before any chunk and the trailer after the last one |
| Container.Open | crates/zbacs-core/src/container.rs:379-390 | Opening reads the header, unwraps the file key from the device's own envelope and opens with it; what was written is what the specification says, failures included |
| Container.ChunkCount | crates/zbacs-core/src/container.rs:142-149 | The rounded-up division is the number of pieces that cutting off one chunk at a time leaves, and is at least one |
| ContainerProofs.UnpadExact | crates/zbacs-core/src/container.rs:111-139 | A name field reads as n exactly if it is the padding of n followed by whole zero blocks, at most 1088 bytes |
| ContainerProofs.NoNonceReuse | crates/zbacs-core/src/container.rs:95-108 | No two encryptions under one file key share a nonce, the name included, up to the largest plaintext a u64 admits |
| ContainerProofs.AuthenticChunk | crates/zbacs-core/src/container.rs:102-108 | A chunk that authenticates under any header is the sealed chunk of that index, with that last-flag, under the sealed header |
| ContainerProofs.StreamOpens | crates/zbacs-core/src/container.rs:392-440 | The sealed stream opens to the plaintext from any chunk on |
| ContainerProofs.StreamAuthentic | crates/zbacs-core/src/container.rs:392-440 | Any other stream fails, having written only whole sealed chunks |
| ContainerProofs.SealReadableIff | crates/zbacs-core/src/container.rs:165-279 | A sealed container is accepted by its own reader exactly when the options were in range |
| ContainerProofs.SealOpenRoundTrip | crates/zbacs-core/src/container.rs:95-279 | Opening a seal gives back the plaintext and the name, and its size is 12 + header + plaintext + 16 a chunk + 72 |
| ContainerProofs.OpenAuthentic | crates/zbacs-core/fuzz/fuzz_targets/open_mutated.rs:78-81 | For every input: opening with the file key of one seal succeeds exactly on that seal's bytes, up to the unchecked minor-version byte, with the sealed output and name; whatever was written is a prefix of whole sealed chunks |
| ContainerProofs.OpenForDeviceAuthentic | crates/zbacs-core/src/container.rs:379-440 | The same for a device that finds the file key in the container and may hold many files: over a log of seals whose keys are all it can unwrap, opening any input succeeds exactly on a logged seal that names the device, with that seal's output and name, and writes only whole chunks of one of them |
| ContainerProofs.MutantRejected | crates/zbacs-core/src/container.rs:323-440 | An input that is not the sealed container is refused, and what it made the reader write is a whole-chunk prefix of the plaintext |
| Layout.ContainerLayout | crates/zbacs-core/src/container.rs:237-277 | The bytes of a container by offset: magic, version, header length and header, frames, and a trailer of header hash, number of chunks and hash of the frames |
| Layout.FrameLayout | crates/zbacs-core/src/container.rs:250-273 | Frame i stands at i times the frame size and is the plaintext from i times the chunk size on, under nonce i, bound to header, index and being last |
| Layout.NonceSays | crates/zbacs-core/src/container.rs:95-100 | A nonce is the prefix and the index in eight bytes, lowest first |
| Layout.AadSays | crates/zbacs-core/src/container.rs:102-108 | Associated data is the header hash, the index in eight bytes and one byte for the last chunk |
| Layout.NameLayout | crates/zbacs-core/src/container.rs:111-123 | The name field is the length, the name and zeros to a multiple of 64, encrypted under the largest index with the word name |
| Bytes.LeDigit | crates/zbacs-core/src/container.rs:95-108 | Byte i of a little-endian number is its digit i |
| Layout.InspectSays | crates/zbacs-core/src/container.rs:551-554 | Reading a seal without a key gives the policy, account, owner key, chunk size, length, identity and place in the chain that were chosen, under a valid signature of the signer |
| Recipients.RecipientOpens | crates/zbacs-core/src/container.rs:213-217 | With a correct AEAD and keys that unwrap what was wrapped for them, the owner and every extra recipient open a seal with their own keys to its plaintext and name |
| Recipients.StrangerFindsNoEnvelope | crates/zbacs-core/src/container.rs:379-390 | A key id that was not named gets NoEnvelope and nothing is written |
| Recipients.EveryVersionOpensForOwner | crates/zbacs-core/src/container.rs:450-503 | Through any run of saves by the owner and by recipients the owner opens every version to what was saved in it, under the first name |
| Recipients.ResaveSays | crates/zbacs-core/src/container.rs:450-503 | The header of a resave names its writer, its policy and its length, and keeps account, chunk size and, when a recipient saves, the owner's key |
| Recipients.OldKeyStopsWorking | crates/zbacs-core/src/container.rs:443-447 | The key of one seal opens no container with another header, so a key handed out for one version fails on the next |
| Refusals.HeaderRefused | crates/zbacs-core/src/container.rs:323-345 | Each error of reading a header before it is decoded, exactly when it comes |
| Refusals.FieldsRefused | crates/zbacs-core/src/container.rs:347-377 | Which fields of a signed header are accepted, with their limits, and which error a bad one gives |
| Refusals.StreamRefused | crates/zbacs-core/src/container.rs:405-437 | A stream fails as ChunkAuth(i) exactly if frame i is there as a whole and is the first that does not open; every other failure is Truncated |
| Refusals.SealRefused | crates/zbacs-core/src/container.rs:165-235 | Why sealing refuses: chunk size, name or version number, a key that cannot be wrapped, or the size of the header |
| ContainerProofs.SameHeader | crates/zbacs-core/src/container.rs:323-345 | One chunk that authenticates pins every byte of the header |
| ContainerProofs.IdealExists | crates/zbacs-core/src/container.rs:165-279 | The assumptions on the AEAD and on the header hash, the absence of a second preimage included, can hold together for every seal |
| ContainerProofs.LogAeadExists | crates/zbacs-core/src/container.rs:165-279 | One AEAD meets the assumptions for any log of seals under different file keys |
| VersionChain.VerifyVersionChain | crates/zbacs-core/src/container.rs:506-533 | Accepts exactly the well-formed chains, of any length |
| VersionChain.AcceptedChain | crates/zbacs-core/src/container.rs:506-533 | Acceptance forces version i + 1 (as a u32) at place i, one file id and salt, and after the first entry each prev and each hash |
| VersionChain.ResealContinues | crates/zbacs-core/src/container.rs:450-503 | A reseal by owner or recipient continues the chain and keeps the name readable |
| VersionChain.SavesFormChain | crates/zbacs-core/src/container.rs:450-533 | Any sequence of owner and recipient saves from a first seal reads back as a chain that verification accepts |
| LowS.Half | crates/zbacs-auth/src/windows/mod.rs:66-74 | The carried byte shift halves the number |
| LowS.IsHigh | crates/zbacs-auth/src/windows/mod.rs:53-63 | The first differing byte decides as the numbers do |
| LowS.Subtract | crates/zbacs-auth/src/windows/mod.rs:33-50 | The borrowing loop subtracts, modulo 2^256, and returns the last borrow |
| LowS.NormalizeLowS | crates/zbacs-auth/src/windows/mod.rs:33-50 | For every 32-byte s the result is the fold of s; r is untouched and a low s unchanged |
| LowS.FoldLowIff | crates/zbacs-auth/src/windows/mod.rs:33-63 | The fold is low, is s or n - s, and is idempotent exactly for values up to the order |
| LowS.FirstDifferenceDecides | crates/zbacs-auth/src/windows/mod.rs:53-63 | Comparing bytes from the front is comparing big-endian numbers |
| Proto.SigningBytesInjective | crates/zbacs-proto/src/signed.rs:37-45 | Different kind, time, nonce or payload digest give different signed bytes, although the kind has no length in front |
| Proto.SigningBytesSay | crates/zbacs-proto/src/signed.rs:37-45 | What is signed, by offset: domain, name of the kind, time, nonce, digest |
| Proto.VerifiedWasSigned | crates/zbacs-proto/src/signed.rs:37-87 | What verifies under a key whose holder alone signs was signed by that holder as this kind, at this time, with this nonce and a payload of this digest |
| RelayStore.Relay.TakeQuota | apps/relay/src/state.rs:125-137 | The pruned deque decides as a count over all calls ever made, and a refused call is not recorded |
| RelayStore.Relay.TakeNonce | apps/relay/src/state.rs:140-148 | The pruned memory accepts a nonce exactly if it was not taken within the last 300 s |
| RelayStore.Relay.RememberRequest | apps/relay/src/state.rs:151-153 | The asker becomes the route of the request nonce |
| RelayStore.Relay.RememberInterest | apps/relay/src/state.rs:156-161 | The asker moves to the end of the file's list |
| RelayStore.Relay.InterestedIn | apps/relay/src/state.rs:164-172 | The pruned lists name the devices the full history names |
| RelayStore.Relay.RouteTo | apps/relay/src/state.rs:175-180 | The pruned routes give the latest request with that nonce if it is under a day old |
| RelayStore.Relay.Enqueue | apps/relay/src/state.rs:183-195 | One message is appended; dropping old ones first loses nothing that is still deliverable |
| RelayStore.Relay.Drain | apps/relay/src/state.rs:198-209 | A drain of the pruned inbox returns what the full log says is deliverable, and empties it |
| RelayStore.Relay.AdmitPost | apps/relay/src/routes.rs:71-127 | Shape, size, signer, quota and replay are checked in that order, with the effects of each |
| RelayStore.Relay.Submit | apps/relay/src/routes.rs:95-194 | What a handler stores and answers is what the history-based handler does |
| Refusals.AcceptedExactly | apps/relay/src/routes.rs:71-194 | A post is accepted exactly if it has the path's kind and an allowed size, is made by the device it names within two minutes of the relay's clock, is under quota with a fresh nonce, and can be routed |
| Refusals.RefusalBeforeRouting | apps/relay/src/routes.rs:71-126 | Each refusal before routing names what was wrong |
| Refusals.RefusalInRouting | apps/relay/src/routes.rs:135-178 | Each refusal after admission names what was wrong |
| RelayStore.Relay.Broadcast | apps/relay/src/routes.rs:181-194 | One copy for each interested device, in order |
| RelayRuns.NoReplayEver | apps/relay/src/routes.rs:71-127 | In every run of prompt handlers, one after another, no two accepted submissions carry the same time and nonce, however far apart |
| RelayThreads.NoReplayInterleaved | apps/relay/src/state.rs:125-148 | The same however the handlers interleave between their uses of the lock, with clock readings taken before the lock |
| RelayRuns.AdmittedWasSigned | apps/relay/src/routes.rs:71-86 | What a relay admits on any path but the announcements was signed so by the key that the device of the envelope's kid had registered |
| RelayRuns.PromptBoundExact | apps/relay/src/routes.rs:71-127 | The 59 s bound on a handler's own delay is exact: on any wire any announcement that verifies at its own time is accepted twice by handlers that may take one nanosecond longer |
| RelayRuns.AtMostOneCopy | apps/relay/src/routes.rs:71-194 | However often the same bytes are posted, on whatever path, no inbox gets a second copy |
| RelayThreads.OneCopyInterleaved | apps/relay/src/routes.rs:71-194 | The same for interleaved handlers, with routing decided and delivered under separate uses of the lock |
| RelayRuns.InterestedExact | apps/relay/src/state.rs:156-172 | A device is listed, once, exactly when its latest ask about the file is under a day old |
| RelayRuns.RevokeReachesExactly | apps/relay/src/routes.rs:181-194 | A revoke adds one copy to exactly the inboxes of those devices |
| Answers.RequestReachesOwner | apps/relay/src/routes.rs:130-147 | An accepted request puts one copy in the inbox of the owner it names and in no other, with the id the sender is told, and that is what is fetched there |
| Answers.VersionReachesOwner | apps/relay/src/routes.rs:164-178 | The same of a version notice |
| Answers.RouteByStep | apps/relay/src/routes.rs:143 | In any run a nonce has a route exactly if an accepted request carried it in its message, and then to the sender of the last one, from its time |
| Answers.InterestByStep | apps/relay/src/routes.rs:144 | In any run a device is remembered for a file exactly if an accepted request of it was about that file, from the time of the last one |
| Answers.AnswerReachesSender | apps/relay/src/routes.rs:150-161 | End to end: an admitted answer to nonce n lands in the inbox of the sender of the last accepted request that carried n, if under a day ago, and nowhere else; otherwise it is refused as not found and queued nowhere |
| Answers.RevokeReachesSenders | apps/relay/src/routes.rs:181-194 | End to end: an accepted revocation of f adds one copy to exactly the inboxes of the devices whose last accepted request about f was under a day ago |
| Answers.DeviceByStep | apps/relay/src/routes.rs:95-127 | In any run the keys a relay has for a device are those of its last accepted announcement |
| RelayRuns.AnswerReachesAsker | apps/relay/src/routes.rs:150-161 | An answer goes to the device that last asked with that nonce, if under a day ago, and to no other inbox; otherwise it is refused and queues nothing |
| RelayRuns.UnaskedAnswerRefused | apps/relay/src/state.rs:175-180 | An answer to a request nobody made is refused |
| RelayRuns.QuotaHolds | apps/relay/src/state.rs:125-137 | In every run of handlers one after another any closed minute holds at most 30 accepted calls of a device and any closed hour at most 300 |
| RelayQuota.QuotaInterleaved | apps/relay/src/state.rs:125-137 | However the handlers interleave, with the lock had within a delay d of the reading: any closed hour less d holds at most 300 accepted calls of a device, and any closed minute at most 30 while d is at most 59 minutes |
| RelayQuota.QuotaDelayExact | apps/relay/src/state.rs:125-137 | That bound is exact: for every d from one nanosecond to forty minutes a run within that delay has 301 accepted calls in an hour less d and one nanosecond |
| RelayRuns.RateLimitedLeavesNoTrace | apps/relay/src/routes.rs:71-86 | A submission over quota changes nothing, so it cannot make a later one look replayed |
| RelayRuns.DrainExact | apps/relay/src/state.rs:183-209 | A drain returns, in order, exactly the messages it is the first to drain within a day of their queueing |
| Client.SubmitOnce | crates/zbacs-relay-client/src/client.rs:201-223 | One exchange: what reaches the relay and how each kind of answer reads |
| Client.TakenByStep | apps/relay/src/routes.rs:71-127 | In any run a nonce is remembered as taken exactly if some step of it was admitted with that nonce |
| Client.Submit | crates/zbacs-relay-client/src/client.rs:181-199 | For any losses, traffic and clocks: every relay's life is its own traffic and these very bytes, once for each attempt that reached it; the last attempt and no earlier one is a success or a refusal not worth retrying, or all were spent; success on any path means that the relay that answered has taken the nonce; AlreadyDelivered means that an earlier step there took it; Queued means, on a path that queues one message, a copy in an inbox there, and for a revocation one copy in exactly the inboxes of the devices that asked about the file within a day |
| Client.GoesOnExactly | crates/zbacs-relay-client/src/error.rs:37-50 | While attempts are left, another follows exactly if the last was rate-limited, met an internal error, or got no answer that could be read |
| Client.QueuedExactly | apps/relay/src/routes.rs:130-178 | An admitted post on a path that queues one message is accepted, and one copy queued, exactly if it is about the device that signed it and names an owner, or answers a request under a day old; otherwise nothing is queued |
| Client.RevokeAccepted | apps/relay/src/routes.rs:181-194 | Over the whole handler an accepted revocation adds one copy to the inbox of each device whose latest ask about the file is under a day old and to no other inbox |
| Client.DeliveredUnqueuedExactly | apps/relay/src/routes.rs:130-178 | When its reply is lost and the same bytes are sent again within the nonce memory, the retry reads as delivered, and nothing was queued exactly if the post could not be routed |
| Client.RetryReadsAsDelivered | crates/zbacs-relay-client/src/client.rs:214-222 | A retry of an admitted post within the nonce memory reads as delivered and queues nothing itself |
| Failover.OwnOrForeign | crates/zbacs-relay-client/src/client.rs:180-199 | Every step a relay has lived through is the post of one attempt, at its place, or somebody else's |
| Failover.DeliveredBefore | crates/zbacs-relay-client/src/client.rs:180-222 | AlreadyDelivered always goes back to a step at that relay that was admitted with the nonce: an earlier attempt whose reply was lost or garbled, or somebody else's message |
| Failover.RetryTookItself | crates/zbacs-relay-client/src/client.rs:180-222 | If nobody else posts the nonce, AlreadyDelivered means that an earlier attempt at the same relay was admitted and its reply lost or garbled; an attempt that was answered, rate-limited or not, is never the reason |
| Failover.OneCopyOfCall | crates/zbacs-relay-client/src/client.rs:180-199 | However often a call posted its bytes, no inbox of a relay of prompt handlers has a second copy |
| Failover.ReachedBounded | crates/zbacs-relay-client/src/client.rs:183-197 | A relay gets the bytes at most the configured number of attempts for each time it is listed |
| Failover.LaterEndpointsGetNothing | crates/zbacs-relay-client/src/client.rs:183-199 | Endpoints listed after the one that ended a call have lived through their own traffic only |
| Failover.AnnounceReachesExactly | crates/zbacs-relay-client/src/client.rs:126-135 | A successful announcement is known to every endpoint exactly if every one accepted an attempt; the last endpoint then ended the call, and every accepted attempt but the last had its reply lost or garbled |
| Failover.AnnounceReachesItsEnd | crates/zbacs-relay-client/src/client.rs:126-135 | In every network, if nobody else posts its nonce, a successful announcement is known to the endpoint that ended the call |
| Incidents.AnnounceReachesAllExactly | crates/zbacs-relay-client/src/client.rs:126-135 | For any announcement that verifies at its own time: success reaches every endpoint in every network exactly if at most one endpoint is configured |
| Failover.LosslessAnnounceReachesOne | crates/zbacs-relay-client/src/client.rs:126-135 | With no reply lost a successful announcement is known to the endpoint that answered and to no other |
| Failover.KnownByStep | apps/relay/src/routes.rs:95-127 | In any run a relay knows a device exactly if some step of it was an accepted announcement of that device |
| Failover.UnknownDeviceEndsCall | apps/relay/src/routes.rs:79 | At a relay that does not know the device any other post is refused with UnknownDevice, and that ends the call |
| Incidents.FailoverFindsStranger | crates/zbacs-relay-client/src/client.rs:126-199 | A run: an announcement to two endpoints succeeds at the first, the second never hears of it, and a request that fails over ends there with UnknownDevice |
| Incidents.UnaskedAnswerReadsDelivered | crates/zbacs-relay-client/src/client.rs:214-222 | A run: an answer to a request nobody made is refused, its reply is lost, and the retry reads as delivered with no inbox holding a copy |
| Incidents.SharedNonceReadsDelivered | crates/zbacs-relay-client/src/client.rs:214-222 | A run, for any two announcements of different devices with one nonce: the second is refused as replayed, never admitted, reads as delivered, and its device stays unknown |
| Session.Session.constructor | crates/zbacs-session/src/state.rs:197-208 | A new session waits for its owner |
| Session.Session.Resumed | crates/zbacs-session/src/state.rs:215-226 | A resumed session holds the terms and the open count it is given |
| Session.Session.Apply | crates/zbacs-session/src/state.rs:260-366 | The method does what one step of the machine says; a rejected event changes nothing; `Duties` says which events are accepted and what each effect is due to |
| Session.EverySession | crates/zbacs-session/src/state.rs:260-366 | In every run the viewer launches at most once; if it launched and the session ended there was exactly one wipe, later, in the step that ended it; read-only never reseals; unsealed changes exist exactly while resealing; a read-only file is marked before its viewer starts, an open viewer is asked to close before a wipe from outside, and the terminal state and notice name the event that ended it |
| Session.RunHolds | crates/zbacs-session/src/state.rs:260-366 | The same from any session that is waiting or granted |
| Session.FieldsComeFromEvents | crates/zbacs-session/src/state.rs:260-366 | In every run the terms are those of one grant that arrived inside its own window, and the version that of the last accepted reseal |
| Session.RefusedNeverMaterialises | crates/zbacs-session/src/state.rs:264-286 | A request that was refused never had plaintext and never had terms |
| Duties.AcceptedExactly | crates/zbacs-session/src/state.rs:260-366 | Exactly when each event is accepted, by state, and which error it gets otherwise |
| Duties.LeadsExactly | crates/zbacs-session/src/state.rs:260-366 | Which state an accepted event leads to |
| Duties.DueExactly | crates/zbacs-session/src/state.rs:260-366 | In every run each effect is there exactly for the event that calls for it: a reseal for a save under Edit, a discard for any other save, a viewer for an opening inside the budget, and so on; a rejected event causes nothing |
| Duties.ToldExactly | crates/zbacs-session/src/state.rs:260-366 | In every run each entry of the record and each notice is there exactly for its event |
| Duties.EverySaveIsSealed | crates/zbacs-session/src/state.rs:306-327 | In every run there are as many reseals asked for as saves under Edit, and every one but the one under way has come back |
| Duties.EditorKeepsChanges | crates/zbacs-session/src/state.rs:306-318 | Under Edit nothing is ever discarded, and under any other permission nothing is ever resealed |
| Duties.SaveRoundTrip | crates/zbacs-session/src/state.rs:306-327 | From any run that has the file open for editing, a save and its reseal lead back there with the new version |
| Duties.EditingSession | crates/zbacs-session/src/state.rs:260-345 | A whole session with any number of saves: each is sealed as its version, in order, and closing wipes and ends it |
| Session.OpensCountLaunches | crates/zbacs-session/src/state.rs:289-304 | The open count moves with the launches and stays inside a budget |
| Session.BudgetHolds | crates/zbacs-session/src/state.rs:215-304 | Across any chain of restarts that carry the open count, launches never exceed a non-zero budget |
| Duties.BudgetIsReached | crates/zbacs-session/src/state.rs:289-304 | A budget can be used up over restarts, and the next opening shows nothing and wipes |
| Asking.ApprovalExactly | apps/agent/src-tauri/src/request.rs:215-258 | A message approves exactly if it carries terms naming this file, version, device, nonce and the permission it announces; it concerns the request exactly if it is a grant with the request's nonce |
| Asking.ApprovesOneRequest | apps/agent/src-tauri/src/request.rs:215-258 | No message approves two requests that differ in nonce, file, version or device |
| Asking.RefusalExactly | apps/agent/src-tauri/src/request.rs:215-258 | A message refuses exactly if it is a grant message with the request's nonce and decision 0; a mismatch names its flaw |
| Asking.AnswerFitsRequest | apps/agent/src-tauri/src/approve.rs:238-256 | The owner's terms answer the request they were made for; they are usable at once exactly if the expiry does not wrap, and then exactly in the chosen window |
| Asking.VerdictExactly | apps/agent/src-tauri/src/request.rs:370-488 | How the turn that ends the wait ends it, said of the messages: cancelled, expired, refused by decision 0, granted by terms for this request inside their window that the chain does not deny, or failed |
| Asking.AnswerKeepsBudget | apps/agent/src-tauri/src/approve.rs:238-256 | A session on the owner's answer shows the file at most as often as was chosen when it was locked, over any restarts |
| Asking.EachAnswerItsOwnGrant | apps/agent/src-tauri/src/approve.rs:238-256 | Answers under different nonces of the owner never share a grant id, or keccak collides |
| Asking.Request.Ask | apps/agent/src-tauri/src/request.rs:356-488 | The first turn that is not quiet decides; the kept session is granted exactly on a granted outcome, with matching terms inside their window, and over with nothing kept otherwise; what the user was shown is the reports in order, sent, at most one nudge in the turn that came due, and one final report; the deadline bounds the turns |
| Asking.Request.Settle | apps/agent/src-tauri/src/request.rs:422-488 | A message that concerns the request settles it; a grant is reported as checked only if the chain confirmed it, and one the chain denies is refused |
| Asking.Guard.Watch | apps/agent/src-tauri/src/request.rs:545-580 | A revocation that the chain or the relay shows ends the session in the turn that shows it, the expiry ends it at the latest, and only cancelling leaves it as it was |
| Ledger.Ledger.AdvanceVersion | apps/agent/src-tauri/src/ledger.rs:197-217 | The record moves exactly if the notice continues from the known header by one version, and which refusal applies otherwise |
| Ledger.Ledger.ApplyVersion | apps/agent/src-tauri/src/approve.rs:611-628 | A notice is taken only for a grant recorded for its file |
| Ledger.Ledger.MarkRevoked | apps/agent/src-tauri/src/ledger.rs:246-259 | The first time of revocation stays, a transaction is added |
| Ledger.Ledger.NextGrantNonce | apps/agent/src-tauri/src/ledger.rs:310-317 | The nonce is stored as used before it is handed out |
| Ledger.VersionsFollowLinks | apps/agent/src-tauri/src/ledger.rs:197-217 | For any stream of operations and notices the record follows the notices taken, one version at a time along prev links, each for a grant given for that file |
| Ledger.NoticeTakenOnce | apps/agent/src-tauri/src/ledger.rs:197-217 | The same notice is taken twice only a whole cycle of 2^32 versions apart |
| Ledger.NoncesConsecutive | apps/agent/src-tauri/src/ledger.rs:310-317 | In any run, failures included, the nonces handed out are consecutive and the stored one is past them |
| Ledger.FirstRevocationStays | apps/agent/src-tauri/src/ledger.rs:246-259 | No operation but recording the grant anew changes when it was revoked |
| Holdings.RevokedExactly | apps/agent/src-tauri/src/ledger.rs:246-259 | In any run a grant is on record exactly if it was recorded, as it was last; it counts as revoked exactly if a pull-back was stored since, from the first time and with the last transaction |
| Holdings.RefusedExactly | apps/agent/src-tauri/src/ledger.rs:149-317 | Exactly when an operation is refused, and that it then changes nothing |
| Holdings.EntryExactly | apps/agent/src-tauri/src/ledger.rs:166-217 | What the record says of a file is how it was last locked, moved on by the notices taken since |
| Holdings.KnownExactly | apps/agent/src-tauri/src/ledger.rs:166-180 | A file is on record exactly if its locking was stored |
| Holdings.QueueInOrder | apps/agent/src-tauri/src/ledger.rs:284-306 | In any run the queue holds each file's bump in the order in which they were last queued, oldest first |
| DeferredBumps.BumpsNeverLost | apps/agent/src-tauri/src/chain.rs:263-309 | In every interleaving of deferrals and writes on a failing disk each file has at most one queued bump, the newest, and the newest is queued or in a batch that landed |
| DeferredBumps.EndsNewestExactly | apps/agent/src-tauri/src/chain.rs:263-309 | In every interleaving the chain ends with the newest hash of a file exactly if that hash was the newest when the write that landed last for the file had read the queue |
| DeferredBumps.NewestLandsLast | apps/agent/src-tauri/src/chain.rs:263-309 | If writes take turns, each file's newest hash is queued or is what the chain ends with |
| DeferredBumps.OlderLandsLast | apps/agent/src-tauri/src/chain.rs:263-290 | A run of two overlapping writes after which the queue is empty and the chain holds the older hash |
| DeferredBumps.FailedClearBlocksWrite | contracts/src/FileRegistry.sol:53-63 | After a batch that landed but was not cleared, the next write that reads the queue carries the same bumps and the registry refuses it |
| DeferredBumps.QuietWriteEmptiesQueue | apps/agent/src-tauri/src/chain.rs:263-290 | An uninterrupted write sends the whole queue and leaves none of it |
| DeferredBumps.ChainLink.Write | apps/agent/src-tauri/src/chain.rs:263-290 | What was waiting goes out, bump for bump in order, in front of the call, and the ledger ends as the interleaved steps say |
| DeferredBumps.ChainLink.BumpNow | apps/agent/src-tauri/src/chain.rs:294-309 | A bump is queued exactly when this device cannot sign silently and the ledger takes it, sent otherwise |
| Ledger.Ledger.DeferBump | apps/agent/src-tauri/src/ledger.rs:286-292 | A later version of the same file replaces the queued one, at the end |
| Ledger.Ledger.ClearDeferredBumps | apps/agent/src-tauri/src/ledger.rs:301-306 | Exactly the landed bumps leave the queue |
| Feed.EventWatcher.Poll | crates/zbacs-chain/src/watcher.rs:73-118 | A successful poll returns the decodable events of the range and moves past it; a failed or empty one does not move |
| Feed.Merger.MergeEvents | apps/agent/src-tauri/src/chain.rs:349-384 | One merge, with every way it can fail or die part-way |
| Feed.EventsJoin | crates/zbacs-chain/src/watcher.rs:73-118 | Consecutive ranges hold the events of the whole range, in order |
| Feed.PlacesHold | crates/zbacs-chain/src/watcher.rs:73-118 | What a poll of a range returns is every decodable event of its blocks, each from one place and each place once, in order |
| Feed.EventsRecorded | apps/agent/src-tauri/src/chain.rs:349-384 | From a stored cursor on, through failures, crashes, restarts and files sealed again, each event of a recorded file is in the record exactly once plus what merges wrote whose cursor was not stored; with none of those, exactly once and in order |
| Feed.LosesExactly | apps/agent/src-tauri/src/chain.rs:349-384 | A merge that ends well passes an event of a recorded file without a line for it exactly if the cursor could not be read and the event stands before the newest block, or its look-up or its append failed |
| Feed.PieceIsWritten | apps/agent/src-tauri/src/chain.rs:364-382 | What a merge that ends well adds to the record is one line for each place it has written, with that event's kind and detail and the file's name |
| ChainLines.PieceTells | apps/agent/src-tauri/src/chain.rs:362-382 | Each line a merge adds tells of the event at its place: revoked without detail for a revocation, granted with edit exactly for permission 2, sealed with its version for a bump |
| ChainLines.LinesMatchEvents | apps/agent/src-tauri/src/chain.rs:349-384 | From a stored cursor on the record gains as many lines of each kind and detail about a file as there were such events of it, plus repeats |
| ChainLines.RevocationsRecorded | apps/agent/src-tauri/src/chain.rs:349-384 | With nothing repeated the record gains exactly one revoked line for each revocation of the file |
| ChainLines.ReadsToTheHead | apps/agent/src-tauri/src/chain.rs:350-383 | A merge that ends well read from the stored cursor, or from the newest block if there was none to read, up to the newest block |
| Feed.NothingSkipped | apps/agent/src-tauri/src/chain.rs:346-384 | In any run in which no merge loses an event, that event is written down once the cursor has passed it |
| Feed.WrittenOnce | apps/agent/src-tauri/src/chain.rs:346-384 | In any run in which the cursor can be read, no event is written by two merges that ended well, whatever look-ups and appends did |
| Feed.UnreadCursorSkips | apps/agent/src-tauri/src/chain.rs:350-355 | A cursor that cannot be read once loses a revocation although the merge succeeds |
| Feed.FailedLookupDrops | apps/agent/src-tauri/src/chain.rs:376-382 | A look-up that fails once loses a revocation although the merge succeeds and the cursor moves on |
| AuditLog.AppendAddsLine | apps/agent/src-tauri/src/audit.rs:155-179 | However an append is cut, it adds the text that was written as a line of its own |
| AuditLog.Log.Append | apps/agent/src-tauri/src/audit.rs:155-179 | The file grows by the cut line, which starts on a fresh line |
| AuditLog.Log.Read | apps/agent/src-tauri/src/audit.rs:183-196 | Reading collects decodable lines up to the first that is not UTF-8; entry i of the answer is the i-th last of them, up to the limit |
| AuditLog.SurvivorsOnDisk | apps/agent/src-tauri/src/audit.rs:155-196 | After any run of cut appends the readable entries are those whose whole text reached the disk, up to the first cut inside a character |
| AuditLog.CrashesLoseOnlyTornEntries | apps/agent/src-tauri/src/audit.rs:155-196 | With cuts at character boundaries, reading returns exactly the entries whose whole text reached the disk, newest first, to the limit |
| AuditLog.TornCharacterHidesTheRest | apps/agent/src-tauri/src/audit.rs:188-192 | A cut inside a character hides every later entry |
| AuditLog.TornCharacterHappens | apps/agent/src-tauri/src/audit.rs:155-196 | With a two-byte character, one cut append and one whole one leave nothing that can be read |
| Confirming.Signer.SignUserOp | apps/agent/src-tauri/src/chain.rs:443-475 | Each signature is made at the confirmation the policy asks for then, and only signed grants are remembered |
| Confirming.BurstHolds | crates/zbacs-auth/src/policy.rs:33-52 | In any life of the signer in which no window holds 2^32 grants, any closed window of the policy's length holds at most the limit of grants signed without asking, none on a device set to ask, and no Edit where the policy asks for edits |
| Confirming.AskedExactly | apps/agent/src-tauri/src/chain.rs:443-465 | In any run the system asks, on a device set to ask, for everything but a bump, and on any other for an Edit where the policy says so and for any grant once the limit was signed within the window |
| Confirming.NothingUnasked | apps/agent/src-tauri/src/chain.rs:443-465 | On a device set to ask only bumps are signed unasked |
| Confirming.DefaultAsksExactly | crates/zbacs-auth/src/policy.rs:23-52 | Under the default policy every Edit is asked for, and any other grant from the sixth in ten minutes on |
| Confirming.BurstOverRestarts | apps/agent/src-tauri/src/chain.rs:443-475 | Over several lives a window holds at most the limit for each |
| Confirming.RestartResetsBurst | apps/agent/src-tauri/src/chain.rs:443-475 | That bound is reached: under every policy any number of lives in one second sign that many times the limit unasked |
| Confirming.TruncationExactly | crates/zbacs-auth/src/policy.rs:46-50 | Exactly when the 32-bit count changes the decision |
| Confirming.TruncationFails | crates/zbacs-auth/src/policy.rs:46-50 | A run that follows the policy, for every policy: of 2^32 + m grants in one second the limit and m more are signed unasked |
| GrantTerms.WordsInjective | crates/zbacs-proto/src/grant.rs:59-88 | Different terms never share their nine words |
| GrantTerms.StructHashBinds | crates/zbacs-proto/src/grant.rs:75-88 | One struct hash names one set of terms, or keccak collides on the two preimages |
| GrantTerms.DigestBinds | crates/zbacs-proto/src/grant.rs:92-103 | One signed digest names one set of terms, chain and contract, or keccak collides on a named pair |
| GrantTerms.CalldataCarriesHashedWords | crates/zbacs-chain/src/calls.rs:59-76 | The words after the selector are the words that were hashed, and offset and length find the signature |
| GrantTerms.ContractReadsTerms | crates/zbacs-chain/src/calls.rs:59-76 | A decoder reads each field at its own place in the calldata and in the preimage of the struct hash: file, header, device, permission, window, budget, both nonces |
| GrantTerms.DigestReads | crates/zbacs-proto/src/grant.rs:92-103 | What is signed, by offset: prefix, domain hash, struct hash, and in the domain its type, name, version, chain and contract |
| Bytes.BeDigit | crates/zbacs-proto/src/grant.rs:59-63 | Byte i of a big-endian number is its digit of that place |
| GrantTerms.CalldataInjective | crates/zbacs-chain/src/calls.rs:59-76 | One calldata carries one set of terms and one signature |

## Left out

- NoReplayEver: assumes prompt handlers (59 s), because without that it is false; `PromptBoundExact` shows the bound exact. `NoReplayInterleaved` assumes the same of the moment the lock is had.
- AtMostOneCopy: assumes prompt handlers for the same reason; so do `OneCopyOfCall` and `OneCopyInterleaved`.
- PromptBoundExact: the announcement is dated 120 s or more after the Unix epoch, so that the first copy can come that much earlier.
- OpenForDeviceAuthentic: assumes that what the device unwraps are keys of logged seals; anyone may seal a file for it, and that seal is then in the log.
- AdmittedWasSigned: leaves out announcements, which carry the key they verify under; `VerifiedWasSigned` covers that key.
- AnnounceReachesExactly: assumes different endpoints and that nobody else announces the device meanwhile, since otherwise the device may be known for another reason; `AnnounceReachesItsEnd` needs only that nobody else posts the nonce.
- QuotaHolds: handlers one after another; `QuotaInterleaved` covers the others.
- RecipientOpens: assumes that what is wrapped for a public key its secret unwraps, that an envelope carries the key id of its recipient, and that no other recipient shares it.
- RevokedExactly: assumes that a grant is recorded as not yet pulled back, as the approval does.
- BumpsNeverLost: starts from an empty queue, so that every bump in it was deferred in the run.
- BurstHolds: assumes that no window holds 2^32 grants, because the count is cut to 32 bits; `TruncationExactly` says when that matters. It speaks of one life of the signer, because the times it counts are not stored, of one signature at a time and of a clock that does not go back.
- EventsRecorded: assumes that the cursor can be read and that look-ups and appends of the record work; `LosesExactly` and `NothingSkipped` say what happens when they do not. The time written into each line is left out, and the display name in it is not compared.
- Ask: assumes that each reply of the relay and the chain arrives, that time advances by the poll interval between turns, and a positive interval; that a grant may allow more than was asked for is accepted as the code accepts it.
- VerifyVersionChain: versions wrap at 2^32 as an unchecked build does; a checked build stops there.
- BudgetHolds: counts opens within the sessions of one grant; the store that carries the count between restarts is not part of this model.
- WriteFrames: models the second pass over the plaintext; the hashing pass before it and a file that changes in between are not modelled.
- Half: writes a byte shift as halving and the carried bit as 128.
- AdvanceVersion: the version number wraps at 2^32 as an unchecked build does; a checked build stops there.
- Apply: the open count wraps at 2^16 as an unchecked build does; with a budget it never gets there.
- Cryptographic primitives and the CBOR, JSON, hex and ABI libraries: function values with stated assumptions; text records have no line break and no proper prefix that decodes.
- Concurrency: `RelayThreads` and `RelayQuota` cover replay, copies and quota under every interleaving of the relay's handlers; routing, delivery and the client's view are proved for handlers that run one at a time, where one clock reading stands for those a handler takes while it routes. Agent commands run one at a time under the lock, except the deferred bumps, where every interleaving of steps is covered.
- Temporary files, renames and permissions of sealing to a path: a container is written whole or not at all.
- Expiry while a file is opened: the machine does not check it on that event, so nothing is claimed about it.
- Wiping after a failed save: the session is over by then, and the workspace is not part of this model.
- `revoke_now`, `accept_request` and `accept_version`: the loops and filters around the modelled core.
- Transport retries inside one exchange, back-off times, web sockets, HTTP status codes.
- Reorganisations of the chain, contract code (but for the registry's refusal of a header it already has), bundlers and paymasters: a batch lands whole or not at all, and a block's logs never change.
- The user interface, tray, notifications, command line, keychains and platform authenticators.
