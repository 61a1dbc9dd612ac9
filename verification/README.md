# A verified model of SkiMasque's core

SkiMasque is a MASQUE gateway: workloads tunnel TCP, UDP and IP through it, a policy decides
who may reach what, and every decision is audited. This project models the parts of it that
keep state, branch or calculate, and proves what they promise for every input, every run and
every interleaving.

- **Audit** (`AuditChain`, `AuditShipping`, `AuditRepeats`): hash-chained batches, and the protocol that ships
  them from a gateway through an unreliable network to a control plane, as a state machine
  whose runs are arbitrary sequences of steps, restarts included.
- **Release agent** (`ReleaseAgent`): a pass over `current`, `previous`, `verified`, the bad
  list and the release directories, which may be cut after any single write.
- **MASQUE codecs** (`Varint`, `Capsule`, `ConnectIp`, `Addresses`): section 16 of RFC 9000,
  section 3 of RFC 9297 and section 4.7 of RFC 9484, with the streaming decoder.
- **URI Templates** (`Template`, `TemplateSyntax`, `TemplateMatch`, `Encodings`,
  `TemplateQueries`, `TemplateCuts`, `TemplateRoundTrip`): the RFC 6570 profile of section 2 of RFC 9298, printer
  and backtracking matcher, and exactly when they undo each other.
- **Policy** (`Destination`, `Patterns`, `Policy`, `Learn`, `Units`): destinations and patterns, selection
  and evaluation, drafts learned from observations, units.
- **Tenants** (`Tenants`, `Audience`): the two-step swap of keys and table under concurrent
  verification, and the mapping from audience to tenant.

`Common`, `Text` and `Chars` hold what the other modules share. `dafny verify dfyconfig.toml`
checks the whole project.

Code that updates variables in place is a class or a method with a loop, proved against a
specification function; the theorems are about the specification functions and the state
machines built from them. Each loop, class and machine step is tied to them by its `ensures`.

What the model takes as given comes in as a parameter, with the assumption stated where it is
needed: the digest is any function (only its 32-byte width matters, and instead of assuming it
injective the chain theorem produces a collision); the standard library's IP text forms are a
parser and a printer satisfying `Destination.Faithful`; double arithmetic is any arithmetic
exact on whole numbers below 2^53 (`Units.ExactBelow53`); signatures are a relation between a
credential and a key; channel values, health results, directory listings and modification
times are inputs of each pass of the release agent.

The agent's documentation says that a run interrupted after the swap is health-checked again
by the next one (deploy/agent/README.md:23-26). The code skips that check when the `verified`
file still names the version from an earlier installation. `RerunConvergesExactlyWhen` gives
the exact condition, `RerunConvergesWhateverTheHealth` the one an operator can check
beforehand, and `StaleVerifiedIsReachable` a way to get there. Likewise a release
spelled `none` collides with the marker for "no previous release"; `InstallOutcome` says what
then happens.

Policy learning promises to allow exactly what was observed (crates/skimasque-policy/src/learn.rs:3-7).
It does so up to letter case of the application, and an observation whose application is
empty or `*` allows its destination to every application; `DraftIsExact` says so, and
`UnnamedApplicationAllowsAll` shows it at an input.

Matching is documented as the inverse of expansion (crates/skimasque-core/src/template.rs:252-257).
It is not for every template that parses; `RoundTripsExactlyWhen` says for which it is.

## Model

| member | source | states |
|---|---|---|
| AuditShipping.AtLeastOnceInOrder | crates/skimasque-cli/src/audit_ship.rs:70-148 | over every run, with requests lost, delayed, repeated, or accepted with the reply lost, and with restarts: the events received and filed are the acknowledged ones followed by `pending`; the first occurrences of this process's entries in the control plane's log are exactly a prefix of them that contains every acknowledged event; each entry carries its event's text |
| AuditShipping.Conservation | crates/skimasque-cli/src/audit_ship.rs:57-148 | in every reachable state each event handed to `record` is in exactly one of: refused by a full channel, queued, rejected for naming no organisation, pending, acknowledged; `pending` never exceeds MAX_PENDING, so the drop-oldest branch never drops |
| AuditShipping.LogIsAlwaysOneChain | crates/skimasque-cli/src/audit_ship.rs:70-148 | in every reachable state the control plane's log is one unbroken hash chain from genesis, and the shipper's base is a head the log once had, even after resuming from a stale chain file |
| AuditShipping.AcceptedExactlyWhenTheLogHasNotMoved | crates/skimasque-cli/src/audit_ship.rs:99-125 | an in-flight batch links to the log's head exactly when the log is as long as when the batch was based on it |
| AuditShipping.AcceptedAtMostOnce | crates/skimasque-cli/src/audit_ship.rs:99-125 | once a request has been accepted, no later repeat of that request can be accepted, in any continuation of the run |
| AuditShipping.RebasedBatchIsAccepted | crates/skimasque-cli/src/audit_ship.rs:117-125 | a batch rebuilt on a head just fetched can be accepted by a control plane whose log has not moved, and a single-organisation one cannot refuse it |
| AuditRepeats.RepeatsExactlyWhenDoubled | crates/skimasque-cli/src/audit_ship.rs:99-125 | over every run, the log holds an event of the running process twice if and only if two of its batches were accepted with no acknowledgement between them (a reply was lost, or a request that was given up arrived late) |
| AuditRepeats.RunOnce | crates/skimasque-cli/src/audit_ship.rs:99-125 | until then the log holds its events once each and in order: the acknowledged ones and those of the one accepted batch that is not yet acknowledged |
| AuditRepeats.SecondAcceptRepeats | crates/skimasque-cli/src/audit_ship.rs:117-125 | a batch accepted while another is unacknowledged starts with an event the log already holds |
| AuditRepeats.RepeatIsPossible | crates/skimasque-cli/src/audit_ship.rs:99-145 | a run that files an event twice: the reply is lost, the retry refused, and the re-based shipper sends the event again |
| AuditShipping.ResumesWhereItShould | crates/skimasque-cli/src/audit_ship.rs:161-186 | a starting shipper that is answered works from the log's head whatever its chain file says; one that is not, from the chain file, or from number 0 and 64 zeros |
| AuditShipping.RebasesWhereItShould | crates/skimasque-cli/src/audit_ship.rs:117-125 | after a conflict a shipper that is answered works from the log's head and keeps what is pending |
| AuditShipping.FirstBatchAfterAnAnswer | crates/skimasque-cli/src/audit_ship.rs:70-108 | over every run, the first batch after an answered start can be accepted while the log stands still, and a single-organisation control plane cannot refuse it |
| AuditShipping.PauseAfterFailures | crates/skimasque-cli/src/audit_ship.rs:126-127 | the pauses after failures in a row are 1, 2, 4, 8, 16, 32 and then 60 seconds |
| AuditShipping.ControlPlaneRule | crates/skimasque-protocol/src/lib.rs:441-442 | a request is accepted only if its entries follow on the log's head one by one; one that does may be refused by a platform control plane alone |
| AuditShipping.StopsWithNothingLeft | crates/skimasque-cli/src/audit_ship.rs:82-88 | a shipper stops when its channel is closed and nothing is left, and then every queued event it files has been acknowledged |
| AuditShipping.TakesUpToTheLimit | crates/skimasque-cli/src/audit_ship.rs:89-94 | events are taken up to a batch of 256, and after a failure up to a backlog of 10,000 |
| AuditShipping.LogOnlyGrows | crates/skimasque-cli/src/audit_ship.rs:70-148 | nothing any step does removes an entry from the log |
| AuditShipping.RunKeepsInv | crates/skimasque-cli/src/audit_ship.rs:70-148 | the invariant that ties pending, acknowledged, packets in flight, log and chain tail together holds after every run |
| AuditShipping.StepKeepsInv | crates/skimasque-cli/src/audit_ship.rs:70-148 | each of the seventeen kinds of step keeps that invariant |
| AuditShipping.DeliverKeepsInv | crates/skimasque-protocol/src/lib.rs:428-442 | an append by the control plane, of a fresh, delayed or repeated request, keeps the invariant |
| AuditShipping.ReplyOkKeepsInv | crates/skimasque-cli/src/audit_ship.rs:100-108 | acknowledging keeps the invariant whether the chain tail was written, kept or torn |
| AuditShipping.RestartKeepsInv | crates/skimasque-cli/src/audit_ship.rs:152-186 | a restart keeps the invariant: what earlier processes left in the log and on the network stays honest |
| AuditShipping.FirstOccurrencesOfRun | crates/skimasque-cli/src/audit_ship.rs:117-125 | re-shipping a run of events that starts no later than the first gap leaves the first occurrences gap-free and in order |
| AuditShipping.DrainingIsTaking | crates/skimasque-cli/src/audit_ship.rs:89-94 | the receiving loop is the machine's single take, repeated until the limit or an empty channel |
| AuditShipping.AuditShipper.constructor | crates/skimasque-cli/src/audit_ship.rs:76-80 | a starting shipper takes number and hash from the fetched head if there is one, else from the chain file, else 1 and 64 zeros; nothing is pending |
| AuditShipping.AuditShipper.Record | crates/skimasque-cli/src/audit_ship.rs:58-65 | never blocks; queues exactly when the channel has room |
| AuditShipping.AuditShipper.FillTo | crates/skimasque-cli/src/audit_ship.rs:89-94 | the loop moves events from the channel to `pending` in order, as the specification says |
| AuditShipping.AuditShipper.PrepareBatch | crates/skimasque-cli/src/audit_ship.rs:96-97 | the batch is the chain of the first events of `pending`, at most BATCH_MAX of them |
| AuditShipping.AuditShipper.OnAccepted | crates/skimasque-cli/src/audit_ship.rs:100-108 | sequence, hash, pending and back-off after an accepted batch are those of the machine's acknowledge step, and the chain file is the new head, the old one, or torn and unreadable, as the write went |
| AuditShipping.AuditShipper.OnConflict | crates/skimasque-cli/src/audit_ship.rs:117-125 | a conflict with a fetched head moves sequence and hash to it and leaves `pending` alone |
| AuditShipping.AuditShipper.OnFailure | crates/skimasque-cli/src/audit_ship.rs:126-145 | back-off doubles up to a minute, the channel drains into `pending` up to the cap, and nothing is dropped |
| AuditChain.ChainWith | crates/skimasque-cli/src/audit_ship.rs:212-231 | the chaining loop computes the recursive chain: batch and tail hash |
| AuditChain.ComputeAuditHash | crates/skimasque-protocol/src/lib.rs:443-454 | the hex loop computes the lowercase hex of the digest of number, previous hash and event text |
| AuditChain.PreimageLayout | crates/skimasque-protocol/src/lib.rs:443-447 | what is hashed, by position: eight bytes that hold the number, the previous hash, the event text |
| AuditChain.HexDigits | crates/skimasque-protocol/src/lib.rs:448-453 | the hash text digit by digit, each one of 0-9 and a-f |
| AuditChain.GenesisIs | crates/skimasque-protocol/src/lib.rs:410-417 | before the first event: number 0 and 64 zeros |
| AuditChain.FiledEvents | crates/skimasque-cli/src/platform.rs:723-741 | a platform shipper files exactly the events that name an organisation, a single-organisation one all |
| AuditChain.HexIsInjective | crates/skimasque-protocol/src/lib.rs:448-453 | the hex text determines the digest |
| AuditChain.ChainConcat | crates/skimasque-cli/src/audit_ship.rs:212-231 | chaining in two batches, the second from the first one's tail, is chaining once |
| AuditChain.BatchingDoesNotMatter | crates/skimasque-cli/src/audit_ship.rs:189-231 | any batching of an event list gives the chain of the whole list |
| AuditChain.SkippingLeavesNoTrace | crates/skimasque-cli/src/platform.rs:672-690 | a chain with skipped events is the chain of the filtered list: no sequence gap, no different hash |
| AuditChain.BatchCarriesItsEvents | crates/skimasque-cli/src/platform.rs:672-719 | entry i carries event i under the i-th number after the head, with its organisation on the platform |
| AuditChain.ChainLinks | crates/skimasque-cli/src/audit_ship.rs:212-231 | a batch built from a head always links to that head |
| AuditChain.LinksEntryByEntry | crates/skimasque-protocol/src/lib.rs:441-442 | a batch links if and only if every entry has the next number and carries the hash of the entry before it, the first that of the head |
| AuditChain.LinksConcat | crates/skimasque-protocol/src/lib.rs:441-442 | checking a concatenation is checking its parts, the second from where the first ends, both ways |
| AuditChain.ChainTailIsTheNewHead | crates/skimasque-cli/src/audit_ship.rs:212-231 | the tail a shipper computes is the head the control plane reaches |
| AuditChain.EqualHeadsMeanEqualHistories | crates/skimasque-protocol/src/lib.rs:443-454 | two histories from genesis with equal head number and hash are equal, or two different inputs with the same digest are exhibited |
| ReleaseAgent.RolledBackReleaseNeverReturns | deploy/agent/skimasque_deploy.py:446-537 | once a pass has taken `current` off the version it installed, that version never is `current` and is never installed again, over any later channel values, health results and crashes between writes |
| ReleaseAgent.RolledBackForever | deploy/agent/skimasque_deploy.py:446-537 | the invariant behind it: in the bad set, not `current`, not `previous`, kept by every cut pass |
| ReleaseAgent.LeavingTheChannelIsARollback | deploy/agent/skimasque_deploy.py:509-537 | the only way a pass takes `current` off the channel's version is a rollback, which establishes that invariant |
| ReleaseAgent.CurrentNeverDangles | deploy/agent/skimasque_deploy.py:400-537 | `current` never names a missing release directory, at any crash point of any sequence of passes |
| ReleaseAgent.OnlyVouchedReleasesAppear | deploy/agent/skimasque_deploy.py:446-506 | over every life of the machine, a release directory that was not there before was the channel value of a pass whose artifact matched its checksum, a valid version, and not bad |
| ReleaseAgent.RefusesWhatItCannotTrust | deploy/agent/skimasque_deploy.py:457-495 | no channel value, an invalid one, a bad one, a missing object or a checksum that does not match: nothing is written |
| ReleaseAgent.InstallsWhatItCanTrust | deploy/agent/skimasque_deploy.py:486-506 | a valid version that is neither live nor bad, with a matching artifact, goes live, whole |
| ReleaseAgent.VersionRule | deploy/agent/skimasque_deploy.py:40 | the version pattern, character by character |
| ReleaseAgent.HealthyPassKeepsTheNewest | deploy/agent/skimasque_deploy.py:429-443 | a healthy pass leaves the newest releases and the installed one as they were |
| ReleaseAgent.PrunedOneByOne | deploy/agent/skimasque_deploy.py:429-443 | what pruning does to each directory |
| ReleaseAgent.InstallOutcome | deploy/agent/skimasque_deploy.py:446-537 | an uninterrupted install ends on the new version, healthy and verified, or on exactly the one it replaced with the new one bad; without a replaceable predecessor the new one stays, marked bad |
| ReleaseAgent.VerifyOutcome | deploy/agent/skimasque_deploy.py:509-537 | the whole disk after the health check of an installed version, for each answer |
| ReleaseAgent.CutOfInstall | deploy/agent/skimasque_deploy.py:446-537 | the decisive files after a crash at each point of an installing pass |
| ReleaseAgent.RerunConverges | deploy/agent/skimasque_deploy.py:466-506 | cutting an install anywhere and running again reaches the same live release, unless a stale `verified` file names the version being installed |
| ReleaseAgent.RerunConvergesExactlyWhen | deploy/agent/skimasque_deploy.py:466-506 | that condition is exact: convergence from every cut holds if and only if the release is healthy, or `verified` does not already name it, or there is nothing to roll back to |
| ReleaseAgent.RerunConvergesWhateverTheHealth | deploy/agent/skimasque_deploy.py:466-506 | the same condition without the health answer, which nobody knows beforehand: a rerun is safe for both answers if and only if `verified` does not already name the version or there is nothing to roll back to |
| ReleaseAgent.StaleVerifiedSkipsTheHealthCheck | deploy/agent/skimasque_deploy.py:466-506 | otherwise a pass cut right after the swap leaves the unhealthy release live, and the next pass does nothing |
| ReleaseAgent.StaleVerifiedIsReachable | deploy/agent/skimasque_deploy.py:446-537 | a disk in that state is reachable from an empty machine |
| ReleaseAgent.PruneKeepsExactlyTheKeepers | deploy/agent/skimasque_deploy.py:429-443 | pruning leaves the current release, the newest ones and anything not listed as they were, and of the others exactly what could not be removed; nothing else on the disk changes |
| ReleaseAgent.Agent.Deploy | deploy/agent/skimasque_deploy.py:446-506 | a pass writes exactly the specified disk states, in order; its exit code is spelled out for every case, 1 without a write when it refuses; exit 0 on a promoted version means it is live and verified, or was already known bad |
| ReleaseAgent.Agent.InstallAndVerify | deploy/agent/skimasque_deploy.py:500-506 | the installing half writes exactly the specified disk states: install, previous, swap, health check |
| ReleaseAgent.Agent.VerifyInstalled | deploy/agent/skimasque_deploy.py:509-537 | the health-check half of a pass writes exactly the specified disk states |
| ReleaseAgent.Agent.InstallRelease | deploy/agent/skimasque_deploy.py:410-426 | an existing directory is removed first, then the whole new one appears at once |
| ReleaseAgent.Agent.PointCurrentAt | deploy/agent/skimasque_deploy.py:400-407 | the symlink changes in one write and nothing else does |
| ReleaseAgent.Agent.Prune | deploy/agent/skimasque_deploy.py:429-443 | the loop removes, one by one, what is not kept, going on past removals that fail |
| Varint.RoundTrip | crates/skimasque-core/src/varint.rs:31-75 | decoding undoes encoding for every value up to 2^62-1, whatever follows, consuming exactly the encoding |
| Varint.WideRoundTrip | crates/skimasque-core/src/varint.rs:62-75 | every spelling of a value, non-minimal ones included, decodes to it |
| Varint.ShortestLength | crates/skimasque-core/src/varint.rs:31-42 | the encoder uses the shortest of 1, 2, 4 and 8 bytes |
| Varint.Rfc9000Examples | crates/skimasque-core/src/varint.rs:62-75 | the decoding examples of appendix A.1 of RFC 9000 |
| Varint.Rfc9000Encodings | crates/skimasque-core/src/varint.rs:45-60 | and two of them encoded |
| Varint.DecodeSlice | crates/skimasque-core/src/varint.rs:62-75 | the decoding loop computes the big-endian value with the tag bits off, or reports an unexpected end exactly when bytes are missing |
| Varint.DecodedValuesFit | crates/skimasque-core/src/varint.rs:62-75 | every decoded value, from non-minimal forms too, can be encoded again and no longer than it was read |
| Varint.DecodeExtends | crates/skimasque-core/src/varint.rs:62-75 | more input never changes what was decoded |
| CapsuleProtocol.ChunkIndependence | crates/skimasque-core/src/capsule.rs:139-202 | for every byte stream and every way of cutting it, pushing and draining yields the capsules, the remaining bytes and the verdict of one-shot decoding |
| CapsuleProtocol.SameStreamSameCapsules | crates/skimasque-core/src/capsule.rs:139-202 | two ways of cutting one stream cannot be told apart |
| CapsuleProtocol.DrainSplits | crates/skimasque-core/src/capsule.rs:152-191 | draining can be split at any byte |
| CapsuleProtocol.NextExtends | crates/skimasque-core/src/capsule.rs:162-191 | a decision taken on the head of the buffer is not changed by later bytes |
| CapsuleProtocol.BufferIsBounded | crates/skimasque-core/src/capsule.rs:139-202 | after a drain without error at most max_value_len + 15 bytes stay buffered |
| CapsuleProtocol.BufferBoundIsTight | crates/skimasque-core/src/capsule.rs:139-202 | that bound is reached, for every limit up to 2^62-1 |
| CapsuleProtocol.DrainAccounts | crates/skimasque-core/src/capsule.rs:152-191 | what stays buffered is a suffix of the input holding no complete capsule; every emitted value is within the limit |
| CapsuleProtocol.EncodableIs | crates/skimasque-core/src/capsule.rs:116-119 | a capsule can be written exactly when its type and its length can |
| CapsuleProtocol.NextOfEncoded | crates/skimasque-core/src/capsule.rs:98-119 | an encoded capsule within the limit is the next one decoded, whatever follows |
| CapsuleProtocol.EncodedCapsulesDecode | crates/skimasque-core/src/capsule.rs:98-202 | the encoding of any list of capsules within the limit decodes to that list, and decoding goes on with what follows |
| CapsuleProtocol.RoundTripAcrossChunks | crates/skimasque-core/src/capsule.rs:98-202 | encode, cut anywhere, feed: the same capsules come out and the stream ends cleanly |
| CapsuleProtocol.ErrorEndsTheStream | crates/skimasque-core/src/capsule.rs:162-191 | once a prefix of the stream is in error, the stream is, with the same capsules and the same error |
| CapsuleProtocol.DecodeStream | crates/skimasque-core/src/capsule.rs:139-202 | feeding a fresh decoder chunk by chunk and closing it gives the outcome of the whole stream |
| CapsuleProtocol.CapsuleDecoder.Push | crates/skimasque-core/src/capsule.rs:152-154 | appends to the buffer, keeping the invariant that the decoder has emitted exactly the capsules of what was pushed |
| CapsuleProtocol.CapsuleDecoder.NextCapsule | crates/skimasque-core/src/capsule.rs:162-191 | pops the next complete capsule and nothing more; consumes nothing when incomplete or too large |
| CapsuleProtocol.CapsuleDecoder.DrainBuffer | crates/skimasque-core/src/capsule.rs:162-191 | all capsules emitted so far are those of all bytes pushed so far; the buffer is bounded |
| CapsuleProtocol.CapsuleDecoder.Finish | crates/skimasque-core/src/capsule.rs:193-201 | a clean end exactly when nothing is buffered |
| ConnectIp.RoundTrip | crates/skimasque-core/src/connect_ip.rs:212-302 | every valid ADDRESS_ASSIGN, ADDRESS_REQUEST and ROUTE_ADVERTISEMENT encodes, and decoding gives it back with no bytes left |
| ConnectIp.RoundTripsExactlyWhenValid | crates/skimasque-core/src/connect_ip.rs:212-302 | validity is exactly the condition for the round trip |
| ConnectIp.DecodedReencodes | crates/skimasque-core/src/connect_ip.rs:252-302 | whatever the decoder accepts, non-minimal varints included, is valid, encodes again and decodes to the same value |
| ConnectIp.AdjacentOrderIsGlobalDisjointness | crates/skimasque-core/src/connect_ip.rs:308-325 | the adjacent check holds exactly when every pair is ordered, and then no address is covered twice within one IP version and protocol number (section 4.7.3 of RFC 9484) |
| ConnectIp.AcceptedRoutesAreDisjoint | crates/skimasque-core/src/connect_ip.rs:252-325 | an accepted route advertisement covers no address twice under one protocol |
| ConnectIp.AcceptsExactlyTheSorted | crates/skimasque-core/src/connect_ip.rs:308-325 | for valid ranges the adjacent check accepts if and only if every range precedes every later one: by IP version, then protocol number, then address without overlap, on numbers |
| ConnectIp.SortedRoutesEncode | crates/skimasque-core/src/connect_ip.rs:235-245 | every list of ranges in that order encodes as capsule 3 and comes back |
| ConnectIp.NewRangeOutcome | crates/skimasque-core/src/connect_ip.rs:163-179 | a range needs one family and a start no greater than its end, as numbers |
| ConnectIp.NewPrefixOutcome | crates/skimasque-core/src/connect_ip.rs:65-74 | a prefix needs a length the family has and an address divisible by the size of the block |
| ConnectIp.RefusedCapsules | crates/skimasque-core/src/connect_ip.rs:212-246 | what the encoder refuses, and with which error |
| ConnectIp.RefusedInput | crates/skimasque-core/src/connect_ip.rs:252-302 | what the decoder refuses, and with which error |
| ConnectIp.WireNumbers | crates/skimasque-core/src/connect_ip.rs:203-209 | the capsule numbers on the wire are 1, 2 and 3; every other is left alone |
| ConnectIp.OrderedAcross | crates/skimasque-core/src/connect_ip.rs:308-325 | the order of neighbours extends to any two routes of valid ranges |
| ConnectIp.CheckRouteOrdering | crates/skimasque-core/src/connect_ip.rs:308-325 | the scan accepts exactly the lists whose neighbours are all ordered |
| ConnectIp.AppendEntries | crates/skimasque-core/src/connect_ip.rs:215-234 | the encoding loop appends each entry and stops with the error of the first bad request id |
| ConnectIp.EncodeIpCapsule | crates/skimasque-core/src/connect_ip.rs:212-246 | the buffer the encoder builds, or its error, is the specified one |
| ConnectIp.DecodeEntries | crates/skimasque-core/src/connect_ip.rs:256-281 | the cursor loop reads the specified list of entries or reports the specified error |
| ConnectIp.DecodeRanges | crates/skimasque-core/src/connect_ip.rs:283-292 | the cursor loop reads the specified list of ranges or reports the specified error |
| ConnectIp.DecodeIpCapsule | crates/skimasque-core/src/connect_ip.rs:252-302 | the decoder computes the specified outcome for every capsule type, unknown ones included |
| Addresses.CidrAgreesWithArithmetic | crates/skimasque-policy/src/destination.rs:294-313 | for both families and every legal prefix length a block contains an address exactly when the two integers are equal after dividing by 2^(bits-len), and exactly when `masked` gives the same for both |
| Addresses.BitsMatchIsSameNetwork | crates/skimasque-policy/src/destination.rs:302-313 | the byte-and-mask test is equality of network numbers; indexing stays in range |
| Addresses.SameNetworkSameMasked | crates/skimasque-core/src/connect_ip.rs:415-436 | two addresses have equal masks exactly when they have equal network numbers |
| Addresses.LexIsNumeric | crates/skimasque-core/src/connect_ip.rs:163-179 | octet order is numeric order |
| Template.PctRoundTrip | crates/skimasque-core/src/template.rs:415-444 | decoding undoes percent-encoding on every string |
| Template.EncodesByCode | crates/skimasque-core/src/template.rs:405-425 | a byte is written as it is if and only if it is a letter, a digit, or one of - . _ ~, and otherwise as % and its two upper-case hex digits |
| Template.EncodeConcat | crates/skimasque-core/src/template.rs:415-425 | a string is written byte by byte |
| Template.SafeByCode | crates/skimasque-core/src/template.rs:405-407 | a variable matches those bytes and % |
| Template.EscapeByCode | crates/skimasque-core/src/template.rs:428-444 | what each escape stands for, either letter case and the plus sign included, and which are errors |
| Text.ScalarIsRecognised | crates/skimasque-core/src/template.rs:443 | the UTF-8 check takes the form of every Unicode scalar value |
| Text.RecognisedIsScalar | crates/skimasque-core/src/template.rs:443 | and nothing else |
| Template.UnreservedIsVerbatim | crates/skimasque-core/src/template.rs:409-444 | unreserved text is its own encoding and decoding |
| Template.PctEncodeLoop | crates/skimasque-core/src/template.rs:415-425 | the encoding loop computes the byte-wise encoding |
| Template.PctDecodeLoop | crates/skimasque-core/src/template.rs:428-444 | the decoding loop computes the specified decoding, failing on a bad escape or invalid UTF-8 |
| Template.ParsePartsLoop | crates/skimasque-core/src/template.rs:264-297 | the scanning loop computes the specified parts or error |
| Template.ScanIsFaithful | crates/skimasque-core/src/template.rs:264-336 | writing the scanned parts out gives the input back, and every part is well formed |
| Template.ParseIsFaithful | crates/skimasque-core/src/template.rs:91-144 | writing a parsed template out gives the input back; variables are distinct, a query is last, no name is empty |
| TemplateSyntax.WrittenTemplateParses | crates/skimasque-core/src/template.rs:91-144 | every template that is written well parses to just what was written |
| TemplateSyntax.RefusedTemplates | crates/skimasque-core/src/template.rs:91-115 | which texts are refused before the path, and with which error |
| TemplateSyntax.RefusedParts | crates/skimasque-core/src/template.rs:117-131 | a variable used twice and a query that is not last are refused |
| TemplateSyntax.ScanOfSpelled | crates/skimasque-core/src/template.rs:264-297 | writing parts out and scanning them gives the parts back |
| TemplateSyntax.ExpressionParses | crates/skimasque-core/src/template.rs:299-336 | every expression that can be written parses to itself |
| TemplateSyntax.RefusedExpressions | crates/skimasque-core/src/template.rs:299-336 | the refused operators, empty names and lists outside a query |
| TemplateSyntax.ModifierIsRefused | crates/skimasque-core/src/template.rs:310-321 | a star or a colon in a name is refused and named |
| TemplateMatch.PartTexts | crates/skimasque-core/src/template.rs:196-255 | the text each kind of part expands to, by character |
| TemplateMatch.MissingValues | crates/skimasque-core/src/template.rs:221-235 | a variable without a value, or with an empty one, is an error that names it |
| TemplateRoundTrip.PlainSegment | crates/skimasque-core/src/template.rs:405-425 | plain text such as an IPv4 address stands in a path segment as it is and comes back |
| TemplateRoundTrip.RoundTripsExactlyWhen | crates/skimasque-core/src/template.rs:196-262 | for every parsed template in whose literals between variables each % starts an escape: all non-empty values come back from the expanded path if and only if between any two variables stands a literal that is not itself the expansion of a string, and no query name contains =, & or % |
| TemplateRoundTrip.UnescapedRoundTripsExactlyWhen | crates/skimasque-core/src/template.rs:196-262 | for literals without %: if and only if between any two variables lies a byte outside the expansion-safe set, and no query name contains =, & or % |
| TemplateRoundTrip.SeparatedRoundTrips | crates/skimasque-core/src/template.rs:196-262 | with such a byte between any two variables and such names, all values come back, whatever escapes the literals contain |
| TemplateRoundTrip.PartsRoundTrip | crates/skimasque-core/src/template.rs:338-401 | the sufficient half for lists of parts |
| TemplateRoundTrip.BlurredLosesValues | crates/skimasque-core/src/template.rs:338-401 | adjacent variables, or variables around a literal that a value could expand to, lose some values |
| TemplateRoundTrip.BlurredIsAmbiguous | crates/skimasque-core/src/template.rs:196-210 | because two different sets of values expand to the same path |
| TemplateRoundTrip.UnfindableNeverRoundTrips | crates/skimasque-core/src/template.rs:370-399 | one query name with =, & or % in it, and no values come back |
| TemplateRoundTrip.AdjacentVariablesDoNotRoundTrip | crates/skimasque-core/src/template.rs:338-401 | the template h://h/{a}{b} parses and loses the values x and yz |
| TemplateRoundTrip.ParsedTemplate | crates/skimasque-core/src/template.rs:91-144 | a parsed template starts with a literal starting with a slash, never has two literals in a row, and has distinct, non-empty, visible names |
| TemplateCuts.CutsAreUnique | crates/skimasque-core/src/template.rs:338-401 | where the condition holds, the only way to cut an expansion is the way it was put together |
| TemplateCuts.CutOfExpansion | crates/skimasque-core/src/template.rs:348-369 | no variable can swallow a literal with an escape the encoder would have written differently |
| Encodings.LiteralIsPinned | crates/skimasque-core/src/template.rs:415-444 | between two values, a literal that is not the expansion of a string can stand in one place only |
| Encodings.EncodingIs | crates/skimasque-core/src/template.rs:415-444 | a text is the expansion of a string exactly when it decodes and every escape is as the encoder writes it |
| TemplateQueries.QueryRoundTripsExactlyWhen | crates/skimasque-core/src/template.rs:237-255 | a query expression gives its values back if and only if none of its names contains =, & or %; otherwise it gives nothing back |
| TemplateQueries.QueryRoundTrip | crates/skimasque-core/src/template.rs:237-255 | the sufficient half |
| TemplateQueries.UnfindableIsNotFound | crates/skimasque-core/src/template.rs:370-399 | the longest name with % in it, or any with = or &, is never among the keys of the expanded query |
| TemplateMatch.MatchesExactlyWhenSplittable | crates/skimasque-core/src/template.rs:338-401 | for every template, ambiguous ones included, the backtracking search succeeds exactly when some split of the path into literals, decodable safe runs and a query exists |
| TemplateMatch.SearchIsSound | crates/skimasque-core/src/template.rs:338-401 | what the search finds is such a split |
| TemplateMatch.SearchIsComplete | crates/skimasque-core/src/template.rs:338-401 | if any split exists the search finds one, and none is greedier than the one found |
| TemplateMatch.BindingsCoverTheVariables | crates/skimasque-core/src/template.rs:338-401 | a match binds exactly the template's variables, each to something non-empty |
| TemplateMatch.Matcher.MatchParts | crates/skimasque-core/src/template.rs:338-401 | the recursion over the shared map succeeds exactly when the search does, touches no other key, and leaves each variable at its value in the split found, whatever failed branches inserted and removed |
| TemplateMatch.Matcher.MatchSimple | crates/skimasque-core/src/template.rs:348-369 | the shrinking loop with insert and remove finds the longest run that lets the rest match |
| TemplateMatch.Matcher.MatchQuery | crates/skimasque-core/src/template.rs:370-399 | a query expression is matched against the rest of the path, all its names present and non-empty |
| TemplateMatch.QueryReads | crates/skimasque-core/src/template.rs:375-386 | a query is read when every pair is readable; a key has the value of the last pair that names it, and text without an equals sign counts for nothing |
| TemplateMatch.QueryValuesAre | crates/skimasque-core/src/template.rs:387-394 | a query gives its names' values exactly when every pair is readable and every name has a last, non-empty value |
| TemplateMatch.CollectPairs | crates/skimasque-core/src/template.rs:375-386 | the pair loop collects what decodes, the last pair of a name winning, and gives up at the first that does not |
| TemplateMatch.MatchPath | crates/skimasque-core/src/template.rs:258-262 | a match from an empty map returns exactly the bindings of the split found, or nothing |
| TemplateMatch.ExpandPathLoop | crates/skimasque-core/src/template.rs:196-210 | the expansion loop computes the specified text or error |
| Tenants.SwapLooksAtomic | crates/skimasque-cli/src/platform.rs:118-145 | for every interleaving of applies and verifications, whenever no apply holds the lock the key map and the table come from the same list and hold the same organisations |
| Tenants.KeysAreAtMostOneListAhead | crates/skimasque-cli/src/platform.rs:135-145 | in between, the keys are at most one list ahead, and then an apply holds the lock |
| Tenants.OnlyOwnKeysAreTrusted | crates/skimasque-cli/src/platform.rs:441-459 | every accepted credential was in order and signed with a key that the Ed25519 key text of the very organisation it claims decodes to, in the list that was the latest when the keys were read |
| Tenants.DroppedMeansRefused | crates/skimasque-cli/src/platform.rs:118-150 | after a key swap that drops an organisation, nothing that reads the keys later is accepted as it until it is added again, even against the old table |
| Tenants.RunKeepsInv | crates/skimasque-cli/src/platform.rs:118-150 | the invariant over maps, lock, threads and accepted credentials holds after every interleaving |
| Tenants.DedupLoop | crates/skimasque-cli/src/platform.rs:288-310 | the loop with its two sets computes the de-duplicated list |
| Tenants.DroppedForAReason | crates/skimasque-cli/src/platform.rs:288-310 | an entry is missing only if its organisation is blank or an earlier kept one has its organisation or slug |
| Tenants.OneListOneView | crates/skimasque-cli/src/platform.rs:118-134 | key map and table of one list describe the same tenants, each with its own keys |
| Tenants.TableHoldsTheKept | crates/skimasque-cli/src/platform.rs:118-134 | the table of unambiguous tenants resolves each of them and nothing else |
| Tenants.PlatformTenants.Apply | crates/skimasque-cli/src/platform.rs:118-145 | replaces both maps by those of the new list |
| Tenants.PlatformTenants.VerifyNow | crates/skimasque-cli/src/platform.rs:441-459 | a credential gets in exactly when it is in order, the tenant it claims survived in the list, and a key decoded from that tenant's own Ed25519 key text signed it |
| Audience.AudienceNamesExactlyItsTenant | crates/skimasque-protocol/src/platform.rs:167-193 | an audience yields slug s exactly when s is valid and the audience is the tenant audience of s with at most one extra trailing slash |
| Audience.AudienceText | crates/skimasque-protocol/src/platform.rs:180-182 | the audience is the base URL up to its trailing slashes, /o/ and the slug |
| Audience.SlugRule | crates/skimasque-protocol/src/platform.rs:167-176 | a slug is 1 to 39 lower-case letters, digits and inner hyphens |
| Audience.OneAudienceOneTenant | crates/skimasque-protocol/src/platform.rs:180-193 | no two slugs share an audience |
| Audience.SlugOf | crates/skimasque-cli/src/platform.rs:537-566 | resolves exactly when the audiences that name any slug all name the same one, returning the first of them; unknown exactly when none names one |
| Audience.OrderDoesNotMatter | crates/skimasque-cli/src/platform.rs:537-566 | the slug does not depend on the order of the audiences |
| PolicyEngine.AllowedExactlyWhen | crates/skimasque-policy/src/eval.rs:177-242 | a request is allowed if and only if the earliest most specific matching non-baseline policy has an allow rule as the first that speaks, the pin names it, and no matching baseline deny speaks; the decision quotes that policy, rule and terms |
| PolicyEngine.RefusedBecause | crates/skimasque-policy/src/eval.rs:177-242 | for each reason a refusal can carry, the exact condition under which it is reported |
| PolicyEngine.FirstToSpeakDecides | crates/skimasque-policy/src/eval.rs:136-158 | the first rule that speaks to application, transport and destination decides; with none the request is denied |
| PolicyEngine.SelectsTheEarliestMostSpecific | crates/skimasque-policy/src/model.rs:344-351 | selection picks the earliest of the most specific matching policies, and none exactly when none matches |
| PolicyEngine.AcceptsRule | crates/skimasque-policy/src/model.rs:64-111 | what a match asks of an identity, field by field; a branch is the ref refs/heads/ with the branch behind it |
| PolicyEngine.RepositoryRule | crates/skimasque-policy/src/model.rs:73-79 | a repository written with an owner is matched by that owner's repository alone, one without by every repository of the name |
| PolicyEngine.EachFieldCountsOnce | crates/skimasque-policy/src/model.rs:115-129 | specificity counts each field that is set for one |
| PolicyEngine.SpeaksRule | crates/skimasque-policy/src/model.rs:251-253 | when a rule speaks about a request: application, transport, destination |
| PolicyEngine.RuleLabelText | crates/skimasque-policy/src/eval.rs:245-247 | a rule is called by its id, or by its place |
| PolicyEngine.NamedCheckIs | crates/skimasque-policy/src/eval.rs:204-209 | a check by name judges by the first policy of that name and lets the baselines object |
| PolicyEngine.SelectSnoc | crates/skimasque-policy/src/model.rs:344-351 | a later policy displaces the selected one only by being strictly more specific |
| PolicyEngine.ObjectionIsBlocked | crates/skimasque-policy/src/eval.rs:214-242 | the baseline scan objects exactly when some matching baseline has a deny rule that speaks |
| PolicyEngine.ObjectionQuotesTheFirst | crates/skimasque-policy/src/eval.rs:218-238 | a baseline refusal quotes the first baseline that objects and its first deny rule that speaks |
| PolicyEngine.BaselineNeverGrants | crates/skimasque-policy/src/eval.rs:211-242 | inserting a baseline anywhere allows exactly what was allowed and it does not object to, by the same policy, rule and terms |
| PolicyEngine.PinNeverGrants | crates/skimasque-policy/src/eval.rs:177-192 | a pin allows exactly what was allowed when it names the selected policy, and changes no such decision |
| PolicyEngine.NonMatchingPolicyIsInvisible | crates/skimasque-policy/src/eval.rs:177-242 | inserting a policy that does not match the identity, baseline or not, changes no decision |
| PolicyEngine.AppendedPolicyMustBeMoreSpecific | crates/skimasque-policy/src/model.rs:344-351 | appending a matching policy that is not strictly more specific changes no decision |
| PolicyEngine.NamedCheckAgrees | crates/skimasque-policy/src/eval.rs:204-209 | with unique names, checking against the selected policy by name gives the decision of the set |
| Destination.ParsedIsCanonical | crates/skimasque-policy/src/destination.rs:58-76 | a parsed destination has a port in 1..65535 and a non-empty lower-case name of legal characters that is no address literal |
| Destination.PrintedDestinationIsItsOwnPattern | crates/skimasque-policy/src/destination.rs:139-222 | a printed destination parses as a pattern, and the pattern matches that destination and no other |
| Patterns.PatternMeans | crates/skimasque-policy/src/destination.rs:139-222 | a pattern of a host (*.domain, a name, or *) and a port (one, a range, *, or none) matches exactly the destinations it should: under a domain is any name with a dot before the domain, and a range is exactly its ports |
| Patterns.BlockMeans | crates/skimasque-policy/src/destination.rs:156-175 | an address and a prefix length match exactly the addresses of the family with the same quotient by the size of the block; too long a length is refused |
| Patterns.AddressPatternMeans | crates/skimasque-policy/src/destination.rs:177-198 | an address, IPv6 in brackets, with a port form or alone matches exactly that address on those ports |
| Patterns.WildcardRule | crates/skimasque-policy/src/destination.rs:184-188 | a wildcard takes any suffix that is not empty and has no star, and matches exactly the names with a dot and that suffix at their end |
| Patterns.BracketsAreDropped | crates/skimasque-policy/src/destination.rs:276-291 | brackets around a host are dropped; nothing between them makes an empty name |
| Patterns.BadPortsAreRefused | crates/skimasque-policy/src/destination.rs:251-269 | a port out of range or an empty range of ports is refused |
| Patterns.PrintedDestinationReadsBack | crates/skimasque-policy/src/destination.rs:58-86 | a printed destination reads back as itself |
| Patterns.NameAndPortRead | crates/skimasque-policy/src/destination.rs:58-76 | a legal name and a port read as that name in lower case and that port |
| Patterns.NoPortNoDestination | crates/skimasque-policy/src/destination.rs:234-249 | without a port, and for a bare IPv6 address, there is no destination |
| Patterns.HostIsName | crates/skimasque-policy/src/destination.rs:272-291 | a host that is no address is a name if its characters allow, and otherwise an error |
| Patterns.LowerByCode | crates/skimasque-policy/src/destination.rs:290 | lower case touches the capital letters and nothing else |
| Destination.SomeTextIsFaithful | crates/skimasque-policy/src/destination.rs:58-86 | the assumptions made on address text can be met |
| Learn.SuggestPolicy | crates/skimasque-policy/src/learn.rs:54-122 | the draft allows a request exactly when some observation witnesses it, its match accepts the observed identity, it has the given name and no terms, and the unreadable observations are reported in order |
| Learn.GroupObservations | crates/skimasque-policy/src/learn.rs:59-78 | the loop's map of sets holds, under each application and transport, exactly the destinations seen, normalised; the rest are skipped with their error |
| Learn.DraftIsExact | crates/skimasque-policy/src/learn.rs:54-122 | the draft allows a request if and only if some parseable observation has that destination, a matching transport, and the same application ignoring case (or an empty or "*" application) |
| Learn.UnnamedApplicationAllowsAll | crates/skimasque-policy/src/learn.rs:80-87 | an input where the draft allows more than was seen: one sighting by an unnamed application allows every application |
| Learn.DraftAsASet | crates/skimasque-policy/src/learn.rs:109-121 | as a set of its own the draft allows exactly the witnessed requests of the identities its match accepts |
| Learn.PrintedReparses | crates/skimasque-policy/src/learn.rs:98-104 | parsing a printed destination as a pattern never fails, so the draft is always built |
| Learn.SkippedAre | crates/skimasque-policy/src/learn.rs:76 | skipped are exactly the observations that do not parse, with their errors |
| Learn.SkippedConcat | crates/skimasque-policy/src/learn.rs:65-78 | in the order they were observed |
| Learn.RuleIds | crates/skimasque-policy/src/learn.rs:88-92 | the ids of the draft's rules |
| Learn.DraftIsInOrder | crates/skimasque-policy/src/learn.rs:61-63 | the rules come in the order of their applications, and for one application any transport before TCP before UDP |
| Learn.DestinationsAreInOrder | crates/skimasque-policy/src/learn.rs:98-104 | each rule lists its destinations in order, each once |
| Learn.SameSightingsSameGroups | crates/skimasque-policy/src/learn.rs:61-78 | order, repetition and counts of observations do not matter |
| Learn.MatchAcceptsExactly | crates/skimasque-policy/src/learn.rs:124-141 | the match accepts exactly the identities that agree on every field the observed one carries; writing a branch ref as a branch loses nothing |
| Learn.MatchAcceptsTheObserved | crates/skimasque-policy/src/learn.rs:124-141 | the match accepts the observed identity |
| Units.DurationRoundTrip | crates/skimasque-policy/src/units.rs:209-226 | every duration prints to text that reads back without overflow as its whole milliseconds, the very duration exactly when it has no smaller part |
| Units.HumanizedParts | crates/skimasque-policy/src/units.rs:209-226 | a printed duration is days, hours below 24, minutes and seconds below 60 and milliseconds below 1000, without the zeros |
| Units.DurationUnits | crates/skimasque-policy/src/units.rs:69-77 | what ms, s, m, h and d are worth |
| Units.SecondsAreBounded | crates/skimasque-policy/src/units.rs:59-61 | 2^64-1 seconds read, one more does not |
| Units.NoDurations | crates/skimasque-policy/src/units.rs:43-76 | blank text, a number alone, a unit alone and an unknown unit are refused, each with its error |
| Units.ReadsExactlySums | crates/skimasque-policy/src/units.rs:42-86 | a text reads as t exactly when, trimmed, it is one or more numbers with units whose sum is t and fits |
| Units.ParseRendered | crates/skimasque-policy/src/units.rs:52-80 | any list of segments reads as its sum, or overflows exactly when the sum does |
| Units.ParseDurationLoop | crates/skimasque-policy/src/units.rs:42-86 | the parsing loop computes the specified outcome |
| Units.HumanizeLoop | crates/skimasque-policy/src/units.rs:209-226 | the printing loop computes the specified text |
| Units.ByteUnitsAre | crates/skimasque-policy/src/units.rs:94-109 | each decimal byte unit is a power of 1000 and each binary one a power of 1024; there are no others |
| Units.BitUnitsAre | crates/skimasque-policy/src/units.rs:122-131 | what the bit-rate units are worth; there are no others |
| Units.UnitsByText | crates/skimasque-policy/src/units.rs:94-137 | numbers with such units, as text |
| Units.ScaledIsNearest | crates/skimasque-policy/src/units.rs:110-115 | a scaled number is the nearest whole one, and refused from 2^64 on |
| Units.ScalarSplits | crates/skimasque-policy/src/units.rs:181-201 | a number and a unit split where the letters begin, blanks aside |
| Units.PrefixIsLargest | crates/skimasque-policy/src/units.rs:230-237 | the printer takes the largest prefix that leaves a whole number |
| Units.ExactArithmeticIsExact | crates/skimasque-policy/src/units.rs:94-137 | the assumption made on double arithmetic can be met |
| Units.BytesRoundTrip | crates/skimasque-policy/src/units.rs:94-115 | every byte count below 2^53 printed with its largest exact decimal prefix reads back |
| Units.BitrateRoundTrip | crates/skimasque-policy/src/units.rs:122-137 | every bit rate below 2^53 printed with its largest exact decimal prefix reads back |

## Left out

- HTTP, QUIC, SOCKS and proxy loops, signals and process control: input and output only.
- JWT, Ed25519, SHA-256, base64, TOML, YAML and JSON: library code; the model starts from parsed records.
- The rendering of policies back to TOML and YAML, the linter, reports, HTML and operations endpoints.
- Metrics and log lines, and the payload text of error values; the kind of each error is modelled.
- Wrap-around of the 64-bit audit sequence number: numbers are unbounded, and the digest input takes their low eight bytes.
- What happens to the audit channel while a gateway is down: a restart starts with an empty channel and an empty backlog.
- AuditShipping.RebasedBatchIsAccepted: rules refusal out for single-organisation control planes only, because a platform control plane may refuse a linking batch that names an unknown organisation.
- ReleaseAgent: secret synchronisation, service restarts, staging directories and the download itself; `current` naming a directory that is whole is not claimed, because an interrupted recursive removal can leave a partial one.
- ReleaseAgent: two agents running at once, and reordering of writes by the file system.
- Tenants: owners, owner ids, policies per tenant, the on-disk cache of the list and revocations; the table is a map replaced in one store.
- TemplateRoundTrip.RoundTripsExactlyWhen: leaves open templates with a literal of safe bytes between two variables in which a % does not start an escape, such as `{a}%{b}`; RFC 6570 has no such literals, but the parser takes them.
- PolicyEngine: the closest-destination hints and the suggested rule text of a denial, which are advice and decide nothing.
- ConnectIp: scope parsing (`target`, `ipproto`) and packet framing, which convert fields one by one.
- Varint: shifts and masks act on disjoint bit fields and are written as arithmetic; Addresses models shifts and masks bit by bit.
- Units: rates such as `10/s`, and quantities of 2^53 and more, where the rounding of doubles decides.
- ConnectIp.AdjacentOrderIsGlobalDisjointness: per protocol number; a range for protocol 0, which stands for every protocol, may overlap one for a specific protocol.
