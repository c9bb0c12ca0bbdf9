# DSH configuration service: a verified model

A Dafny 4.11 model of the parts of the configuration service whose correctness spans several functions:

- **Secrets.** `Crypto` is envelope encryption under a ring of master keys (KEKs) with generations; `RingLifecycle` the
  ring of one node through rotations, failed saves, crashes and restarts; `RingCluster` rotation through the Raft log;
  `RewrapJob` the job that re-wraps stored data keys, and `RewrapBranches` what it leaves of a branch.
- **Versions.** `Diff` is the snapshot diff algebra; `Wire` masking; `Versions` the storage of a branch as checkpoints
  and diffs, and its pruning; `BranchMachine` the commands that publish, roll back, cascade and release gray, with
  every run of them; `EndToEnd` what a watching client holds after such runs.
- **Watching.** `Watch` synthesises history for a reconnecting client, `Stream` adds the live events, `Sse` is
  the HTTP variant of both, and `Clients` holds the cursors of the SDK loops, composed with the server.
- **Storage.** `Store` is the ordered store with scans, pages, dumps and restores; `WriteBuffer` the buffer of a
  command; `Keys` the key layout; `CommandWrites` ties the commands on a branch to the rows that reach the store.
- **Codecs and small machines.** `Labels`, `Seeds`, `Throttle`, `Branches`; `Order`, `Text` and `Model` are what they
  share.

Code that works by changing things step by step is a method or a class whose contract ties its result or new state to a
specification function; the theorems are about those functions, over all inputs, runs and reachable states.

## Assumptions

- AES-GCM is symbolic: a sealed box opens under the key and nonce it was sealed with and no other. Base64 is the
  identity; stored nonces have the length the cipher asks for.
- The same file key is used at every start, ring-file writes are atomic, and the node has a ring file.
- One node's rotations are serialised where a theorem says so; without that, `RingLifecycle.RunSafeIff` gives the exact
  condition for the KEKs in use to stay what they are.
- Cluster theorems need every ring-file save that matters to succeed and no installed snapshot to pass over a rotation;
  `ClusterInSyncIff` shows that is exactly what they need.
- Nothing is published between reading the history and subscribing; `MissedInBetween` says what is lost otherwise.
- Floats are opaque with equality, so NaN is excluded. Strings are sequences of characters whose order is the byte order.
- Clock readings do not go backwards.

## Where code and documentation disagree

The model follows the code.

- `decrypt_secret` is said to try the KEKs from newest to oldest for an unknown generation
  (server/crates/dsh-crypto/src/lib.rs:208); it tries the newest only (`Crypto.FallbackIsNewest`), so such a ciphertext
  can stop decrypting at the next rotation (`Crypto.RotationKeepsIff`).
- `flush_pending` says several operations on a key are consistent because deletes precede puts
  (server/crates/dsh-core/src/state.rs:215); a delete after a put is undone (`WriteBuffer.FlushMeansInTurnIff`). No command on a branch's versions buffers one
  (`CommandWrites.CommandNeverResurrects`).
- `prune_versions` says it keeps the newest `keep` versions; it keeps at least one more (`Versions.PruneRetains`).
- `snapshot_of` falls back to full rows for versions written before there were diffs; where the checkpoint is there, it
  returns the row of the first version after it without a diff, whichever version was asked for (`Versions.ReadOldRows`).
- The shared numbering of gray and stable versions is meant to keep version numbers rising
  (server/crates/dsh-core/src/state.rs:1027-1032); it does (`BranchMachine.RunOrderly`), but a number that jumps over a
  gap cannot be read back and stops the branch for good (`BranchMachine.RunAlive`, `BranchMachine.WedgedForever`).
- A `snapshot_required` notice is meant to make the client refetch (server/crates/dsh-api/src/grpc.rs:329-331, 371-373);
  it carries the server's cursor, and the filtering SDK loops treat it as an old version. The Go and Python loops never
  pass it on (`Clients.NoticeNeverHeard`, `Sse.SseNoticeNeverHeard`); the TypeScript loops do only where no ordinary
  event brought their cursor up to it (`Clients.TsGrpcHearsNoticeIff`, `Sse.TsHttpHearsNoticeIff`).
- The HTTP watch is said to replay as the gRPC one does (server/crates/dsh-api/src/lib.rs:4845); it leaves unreadable
  versions out where gRPC fails, and replays before the notice where gRPC sends the notice alone (`Sse.SseStream`).
- A node installing a Raft snapshot does not run the rotation hook (server/crates/dsh-raft/src/store.rs:1685-1716), so
  rotations it passes over never reach its ring (`RingCluster.ActInSyncIff`).
- Branch and project deletion scan a prefix without a closing slash and delete rows of siblings whose names extend the
  name (`Keys.BranchDeleteIff`, `Keys.ProjectDeleteIff`).
- The re-wrapping scan is said to cover shared items and drafts (server/crates/dsh-core/src/state.rs:363-367); items named `snap` or `diff`, and drafts of a branch or
  project named `gray-snap`, are passed over (`Keys.SharedCoveredIff`, `Keys.DraftCoveredIff`).

## Model

| member | source | states |
|---|---|---|
| Crypto.FallbackIsNewest | server/crates/dsh-crypto/src/lib.rs:207-213 | an unknown generation is read with the newest KEK and no other |
| Crypto.RotationKeepsIff | server/crates/dsh-crypto/src/lib.rs:97-100 | a readable ciphertext stays readable through a rotation if and only if its generation was known or the KEK rotated in is the one already current |
| Crypto.RewrapExact | server/crates/dsh-crypto/src/lib.rs:103-121 | re-wrapping succeeds exactly when the data key opens under the named generation; sealed data, its nonce and the plaintext stay, the generation becomes the current one |
| Crypto.UnwrapMasterKey | server/crates/dsh-crypto/src/lib.rs:162-180 | unwrapping succeeds exactly on a payload sealed under this KEK with a 32-byte plaintext, and returns that plaintext |
| Crypto.Cipher.RotateMasterKey | server/crates/dsh-crypto/src/lib.rs:97-100 | appends the KEK; every plaintext held before is held after |
| Crypto.Cipher.EncryptSecret | server/crates/dsh-crypto/src/lib.rs:184-203 | the result is of the current generation and decrypts to the input, whatever the random keys and nonces |
| Crypto.Cipher.DecryptSecret | server/crates/dsh-crypto/src/lib.rs:206-222 | the search for a KEK gives the named generation, else the newest |
| Crypto.Cipher.RewrapDek | server/crates/dsh-crypto/src/lib.rs:103-121 | success condition, unchanged data and unchanged plaintexts of a re-wrap, for any nonce drawn |
| RingLifecycle.RebuildSaved | server/crates/dsh-cli/src/main.rs:767-787 | start-up gives back a saved ring that is distinct and headed by the file key, element for element |
| RingLifecycle.RebuildSavedIff | server/crates/dsh-cli/src/main.rs:782-787 | exactly the ring files headed by the file key and not repeating it are given back unchanged |
| RingLifecycle.StepSafeIff | server/crates/dsh-api/src/lib.rs:4356-4368 | a step of start, begin, save, switch, encrypt, re-wrap or crash keeps the invariant exactly when it is harmless, and otherwise leaves memory out of step with the ring file; the ring in use only grows |
| RingLifecycle.RunSafeIff | server/crates/dsh-api/src/lib.rs:4356-4368 | over every run of any interleaving: the KEK at each generation ever in use stays what every later start-up finds there, if and only if every successful save is from a copy memory has not moved past and every switch finds its KEK in the file at its place |
| RingLifecycle.NothingIsLost | server/crates/dsh-crypto/src/lib.rs:53-121 | over every such run: the KEK at a generation in use never changes, in memory or file, and every ciphertext ever produced decrypts to its plaintext, now and after a restart at any moment |
| RingLifecycle.SecretsRecorded | server/crates/dsh-crypto/src/lib.rs:103-121 | a secret encrypted or re-wrapped at a node that is up is of the current generation and reads as it should |
| RingLifecycle.SerialAlone | server/crates/dsh-api/src/lib.rs:4356-4368 | rotations that do not overlap are harmless throughout, and memory is the saved ring between them |
| RingLifecycle.SerialisedRotationsLoseNothing | server/crates/dsh-api/src/lib.rs:4356-4368 | with rotations one at a time nothing is lost whatever saves fail and wherever the process crashes; between rotations a restart rebuilds exactly the ring in memory |
| RingLifecycle.StaleSaveLosesIff | server/crates/dsh-api/src/lib.rs:4356-4368 | after a save from any copy and a restart, a secret of any generation stays readable if and only if its generation is within the copy or its KEK is the one the save puts last |
| RingLifecycle.OverlapReachesStaleSave | server/crates/dsh-api/src/lib.rs:4356-4368 | two overlapping rotations reach such a save from a new deployment |
| RingLifecycle.KeyServer.constructor | server/crates/dsh-cli/src/main.rs:763-787 | building the ring from key file and ring file is the Start step |
| RingLifecycle.KeyServer.RotateMasterKey | server/crates/dsh-api/src/lib.rs:4356-4380 | the handler is begin, save and switch in a row; a known key changes nothing, a failed save leaves file and memory alone, success reports the generation |
| RingCluster.ResolveExact | server/crates/dsh-cli/src/main.rs:646-659 | trying KEKs from newest to oldest finds the new key exactly when the wrapping KEK is on the ring |
| RingCluster.PushedTwice | server/crates/dsh-cli/src/main.rs:667-670 | replaying a rotation that a ring has seen changes nothing |
| RingCluster.ActInSyncIff | server/crates/dsh-raft/src/store.rs:1797-1873 | a node's ring equals what the log says up to its position after a boot, crash, replay, application or snapshot installation if and only if the deed skips no key |
| RingCluster.MovedInSyncIff | server/crates/dsh-api/src/lib.rs:4234-4256 | a move of the cluster (rotation submitted at any node, other entry, deed of a node) keeps all nodes in step if and only if it skips no key |
| RingCluster.ClusterInSyncIff | server/crates/dsh-cli/src/main.rs:632-682 | every run of the cluster is in step throughout if and only if no failed save and no installed snapshot in it skips a key |
| RingCluster.SubmittedKeyReaches | server/crates/dsh-api/src/lib.rs:4234-4256 | a rotation submitted at any node that is up takes a place on the log; in every clean continuation each node that has got there unwraps it to the new KEK, and each past it has the new KEK, at the next generation if it was not on the ring |
| RingCluster.ApplyProgress | server/crates/dsh-raft/src/store.rs:1797-1873 | an application that completes moves the node on with the key on its saved ring, one whose save fails moves it on without, one during which it dies leaves the position |
| RingCluster.RingsAgree | server/crates/dsh-cli/src/main.rs:632-682 | nodes in step have equal rings at equal positions, and otherwise one ring extends the other |
| RingCluster.EveryRotationUnwraps | server/crates/dsh-cli/src/main.rs:646-659 | every wrapped KEK on the log is unwrapped by every node that has got that far and is on the ring of every node past it |
| RingCluster.SecretsTravel | server/crates/dsh-crypto/src/lib.rs:206-222 | a secret readable on one node is readable on another exactly when the other's ring has reached its generation |
| RingCluster.KeyBackIff | server/crates/dsh-cli/src/main.rs:638-681 | through every further run of boots, crashes, applications, snapshot installations and replays a key off a node's ring is on it in the end if and only if an entry processed on the way resolved to it |
| RingCluster.LostKeysStayLost | server/crates/dsh-cli/src/main.rs:646-665 | keys off a ring, with every key the log carries only wrapped under one of them, stay off it through every further run that replays nothing before the node's position |
| RingCluster.FailedSaveSkips | server/crates/dsh-cli/src/main.rs:674-679 | so a failed save skips its key, and the keys later wrapped under it, while the applied position moves on, until an entry that carries the key is processed again |
| RingCluster.RotationHook.OnCommand | server/crates/dsh-cli/src/main.rs:638-681 | the hook appends the entry's key to memory and file together, or touches neither |
| RewrapJob.RewrapValue | server/crates/dsh-core/src/state.rs:467-478 | a secret of a generation below the current one is moved on or the call fails: afterwards it is of the current generation, its data untouched, and reads alike under every ring with the current KEK in its place; anything else is returned as it is |
| RewrapJob.RewrapSnapshot | server/crates/dsh-core/src/state.rs:452-465 | succeeds exactly when every stale secret of the snapshot can be opened; every value is renewed, and changed is reported exactly when one was stale |
| RewrapJob.RewrapDiff | server/crates/dsh-core/src/state.rs:387-410 | the same for a version diff, whose deletes are left alone |
| RewrapJob.RowRenewedFacts | server/crates/dsh-core/src/state.rs:368-450 | a renewed row shows its reader what it showed, holds no stale secret, and is unchanged if it held none |
| RewrapJob.SecretStore.RewrapDeks | server/crates/dsh-core/src/state.rs:368-450 | scanning all rows in key order: succeeds exactly when no covered row has a data key that cannot be opened; then every secret of a covered row is of the current generation or later, those that were behind have moved on, all others are untouched, and the rows rewritten are counted; on failure the rows before the first such key are done and the rest left |
| RewrapJob.RowStaleExact | server/crates/dsh-jobs/src/lib.rs:96-104 | the rows rewritten are those with, in some place, a secret of a generation below the current one |
| RewrapJob.RowFitExact | server/crates/dsh-core/src/state.rs:467-478 | a row lets the job through exactly when each such secret of it can be re-wrapped |
| RewrapJob.SweptShowsSame | server/crates/dsh-jobs/src/lib.rs:90-111 | however a run of the job ends, every row shows its reader what it showed |
| RewrapJob.SecondRunIdle | server/crates/dsh-jobs/src/lib.rs:76-77 | after a successful run a second one succeeds, counts nothing and changes nothing |
| RewrapJob.VersionsReadSame | server/crates/dsh-core/src/state.rs:500-568 | rewriting a branch's checkpoint and diff rows, wholly or in part, changes no version as its reader sees it |
| RewrapBranches.SweptBranchReadsSame | server/crates/dsh-core/src/state.rs:368-450 | however a run over the whole store ends, each branch whose rows lie in it under their keys still does, and every version of it reads as its reader saw it before |
| Diff.ComputeDiff | server/crates/dsh-core/src/diff.rs:7-37 | the nested loops compute Changes: upserts in the new snapshot's order, then deletes in the old one's |
| Diff.ApplyDiff | server/crates/dsh-core/src/diff.rs:40-60 | the in-place loop computes Apply, dropping a group when its last item goes |
| Diff.ChangesMembers | server/crates/dsh-core/src/diff.rs:7-37 | an entry is in the diff exactly when its item differs and it sets the new value, or deletes |
| Diff.ChangesMinimal | server/crates/dsh-core/src/diff.rs:7-37 | each item is named at most once, exactly when it differs; the diff is empty exactly when the contents are equal |
| Diff.ApplyEffect | server/crates/dsh-core/src/diff.rs:40-60 | what applying entries that agree on an item does to that item and to empty groups |
| Diff.ChangesEffect | server/crates/dsh-core/src/diff.rs:7-60 | applying a diff to any base moves exactly the items that differ to their new values |
| Diff.RoundTrip | server/crates/dsh-core/src/diff.rs:7-60 | applying the diff of two snapshots to the first gives the contents of the second, always |
| Diff.RoundTripLiteral | server/crates/dsh-core/src/diff.rs:7-60 | the round trip is literal if and only if every empty group of the new snapshot is one of the old and every empty group of the old is a group of the new |
| Diff.StepsEffect | server/crates/dsh-core/src/diff.rs:7-60 | folding the diffs along a chain over any base: items met along the chain get their newest value, others keep the base's |
| Wire.MapApply | server/crates/dsh-core/src/diff.rs:40-60 | rewriting every value commutes with applying a diff, for any rewriting |
| Wire.MaskingHomomorphism | server/crates/dsh-core/src/wire.rs:14-36 | masking the result of a diff equals applying the masked diff to the masked base; the diff of masked snapshots is a subsequence of the masked diff |
| Wire.MaskingExact | server/crates/dsh-core/src/wire.rs:14-36 | masking shows a secret as three stars and every other value, and every other field of an event, as it is |
| Wire.MaskedWatcherTracks | server/crates/dsh-core/src/wire.rs:32-36 | a watcher that sees only masked events holds, after each version, exactly its masked contents |
| Wire.ApplySecretPolicy | server/crates/dsh-api/src/lib.rs:2146-2165 | rewrites every secret in place: plaintext when revealing succeeds, the mask otherwise, nothing else changed |
| Versions.SnapshotOf | server/crates/dsh-core/src/state.rs:500-568 | the loop from checkpoint through diffs computes Read, with its fall-backs |
| Versions.ReadIff | server/crates/dsh-core/src/state.rs:500-568 | in every consistent branch a version can be read if and only if no number from its checkpoint to it is missing |
| Versions.ReadOldRows | server/crates/dsh-core/src/state.rs:520-566 | rows from before there were diffs: which full row a version is read from |
| Versions.ReadFrame | server/crates/dsh-core/src/state.rs:500-568 | reading a version depends only on the rows from its checkpoint to itself |
| Versions.WriteKeeps | server/crates/dsh-core/src/state.rs:594-612 | writing a version leaves every older one as it reads |
| Versions.WriteReads | server/crates/dsh-core/src/state.rs:594-612 | a version written on a readable active one can be read back, with the contents written, if and only if its number follows the active one directly or is a checkpoint |
| Versions.PruneKeeps | server/crates/dsh-core/src/state.rs:750-792 | pruning keeps every version from the cut on as it read, makes every older one unreadable, and keeps the active one |
| Versions.PruneRetains | server/crates/dsh-core/src/state.rs:764-775 | the `keep` newest records and the next older one survive: one more than the parameter says |
| Versions.PruneExact | server/crates/dsh-core/src/state.rs:764-790 | with h the newest record beyond the `keep` newest, a record survives if and only if it is the active one or no checkpoint up to h lies above it |
| Versions.PruneBounds | server/crates/dsh-core/src/state.rs:764-790 | on a history without gaps at most `keep` and one checkpoint interval of records remain |
| Versions.PruneVersions | server/crates/dsh-core/src/state.rs:750-792 | the deletion loop keeps exactly the surviving records, with everything they are read from, and returns the number it removed |
| Versions.ReadThrough | server/crates/dsh-core/src/state.rs:500-568 | rewriting rows in a way a reader cannot see changes no version it reads |
| Watch.BuildReplay | server/crates/dsh-api/src/grpc.rs:294-322 | the replay loop computes ReplayEvents of the wanted records, refusing a pruned start and failing on an unreadable version |
| Watch.ReplayExact | server/crates/dsh-api/src/grpc.rs:294-322 | folding the replayed changes over any client map gives the newest value of every item met in a replayed snapshot and leaves every other item as the client had it |
| Watch.ReplayExactIff | server/crates/dsh-api/src/grpc.rs:294-322 | so a client ends at the newest snapshot if and only if every item it holds occurs in a replayed snapshot |
| Watch.ReplayFromEmpty | server/crates/dsh-api/src/grpc.rs:294-322 | a client that starts empty ends at the newest snapshot |
| Watch.SeededReplayExact | server/crates/dsh-api/src/grpc.rs:294 | seeding the first diff with the snapshot the client holds would make the replay exact for it |
| Stream.WatchCall | server/crates/dsh-api/src/grpc.rs:274-388 | the call's two loops yield Served: replay, then live events through the cursor, a notice on lag; what that makes a client hold is WatcherHoldsContents |
| Stream.LiveTells | server/crates/dsh-api/src/grpc.rs:349-369 | every live event delivered is a received event of the project and the branch asked for, with all its fields |
| Stream.ServedRising | server/crates/dsh-api/src/grpc.rs:327-388 | for any history and any received events, ordinary versions rise strictly and are above the version asked from |
| Stream.LiveExact | server/crates/dsh-api/src/grpc.rs:347-388 | on an orderly branch the live part is exactly the events owed, then one notice if the receiver lagged |
| Stream.ExactlyOnce | server/crates/dsh-api/src/grpc.rs:274-388 | an unrefused client gets one event per version above its own with no gap, then every live event owed, in order; ordinary versions are delivered exactly once |
| Stream.RefusedOnce | server/crates/dsh-api/src/grpc.rs:285-342 | a start is refused exactly when the oldest retained version is above it, and then the stream is one notice |
| Stream.MissedInBetween | server/crates/dsh-api/src/grpc.rs:277-326 | whatever is published between reading the history and subscribing, the stream is the replay and what is owed of the later events; so it is complete if and only if nothing owed fell into the window, and complete in ordinary versions if and only if no owed ordinary version did |
| Clients.HttpWatch | sdk/go/configclient/client.go:190-240 | the Go HTTP loop, and the Python one, deliver Raising |
| Clients.PythonGrpcWatch | sdk/python/config_client.py:167-222 | the Python gRPC loop delivers Raising; its two cursors end equal, at the highest version met in a snapshot or an event |
| Clients.TsHttpWatch | sdk/ts/src/index.ts:233-290 | the TypeScript HTTP loop delivers Plain |
| Clients.TsGrpcWatch | sdk/ts/src/grpc.ts:144-160 | the TypeScript gRPC loop delivers Plain without anchors; its resume cursor ends at the highest version met, its emit cursor at the highest ordinary version |
| Clients.RaisingGuarantee | sdk/python/config_client.py:224-259 | for arbitrary inputs every gray event passes, and ordinary versions rise strictly above the start |
| Clients.RaisingNext | sdk/go/configclient/client.go:222-232 | the next event passes a raising loop if and only if it is gray or above every version met so far in an event or a snapshot |
| Clients.SeenExact | sdk/python/config_client.py:224-259 | the version it is compared with is the highest met so far |
| Clients.PlainGuarantee | sdk/ts/src/index.ts:240-274 | the same for the loops that gray events do not raise |
| Clients.PlainNext | sdk/ts/src/index.ts:271-274 | the next event passes a plain loop if and only if it is gray or above every ordinary version met so far, and, where the loop anchors, every snapshot version |
| Clients.PlainSeenExact | sdk/ts/src/grpc.ts:151-160 | the version it is compared with is the highest of those |
| Clients.PlainCoversRaising | sdk/ts/src/index.ts:240-274 | with the same inputs the TypeScript HTTP loop delivers everything the Go and Python HTTP loops do, in order |
| Clients.SameTraceIff | sdk/go/configclient/client.go:203-237 | the two deliver the same trace if and only if no gray version reaches or passes a later new ordinary one |
| Clients.NoticeNeverHeard | sdk/python/config_client.py:167-222 | composed with the gRPC server, a raising loop that asked from its cursor never passes a snapshot_required on |
| Clients.ServedEnds | server/crates/dsh-api/src/grpc.rs:327-388 | only the last event of a stream can be a notice; it is there exactly after a pruned start or a lag, and carries the highest version sent or asked from |
| Clients.TsGrpcHearsNoticeIff | sdk/ts/src/grpc.ts:144-160 | over all histories and receivers the TypeScript gRPC loop passes a notice on if and only if the stream ends with one whose version is above the last emitted one and was not sent as an ordinary event |
| Clients.GoGrpcWatch | sdk/go/configclient/grpc_client.go:170-236 | every event reaches the listener, and each round asks from the highest version seen |
| Clients.GoAskedExact | sdk/go/configclient/grpc_client.go:170-236 | each round asks from the highest version the client began with, fetched in a snapshot or heard |
| Clients.GoGrpcRising | sdk/go/configclient/grpc_client.go:170-236 | across any rounds, disconnects and anchors the ordinary events reaching the listener rise strictly |
| Sse.BuildSseReplay | server/crates/dsh-api/src/lib.rs:4847-4895 | the replay loop of the HTTP watch computes the replay of the versions that can be read, the others left out |
| Sse.SseStream | server/crates/dsh-watch/src/lib.rs:70-125 | the replay, then one notice after a pruned start, else the live events above the highest replayed version until lag or close; all masked |
| Sse.FrozenTells | server/crates/dsh-watch/src/lib.rs:99-117 | the same of every live event over HTTP |
| Sse.SseMatchesGrpc | server/crates/dsh-watch/src/lib.rs:70-125 | for a client that is not refused, on an orderly branch, the HTTP stream is the gRPC stream masked and without the notice of a lag |
| Sse.FrozenRepeats | server/crates/dsh-watch/src/lib.rs:99-117 | a duplicated live event is repeated over HTTP and filtered by gRPC |
| Sse.SseReplayExact | server/crates/dsh-api/src/lib.rs:4863-4891 | folding the masked replay over a masked client map gives the masked newest value of every item met in a readable version and leaves every other item alone |
| Sse.SseNoticeNeverHeard | sdk/go/configclient/client.go:222-232 | whatever the history and the live events, the Go and Python HTTP loops never pass the notice of a pruned start on |
| Sse.TsHttpHearsNoticeIff | sdk/ts/src/index.ts:271-274 | the TypeScript HTTP loop passes it on if and only if the newest version replayed is a gray promotion |
| BranchMachine.StateMachine.Publish | server/crates/dsh-core/src/state.rs:2004-2075 | one publish computes Exec: idempotent by request id, refused on an unreadable active version or draft, else one version and one event |
| BranchMachine.StateMachine.RollBack | server/crates/dsh-core/src/state.rs:2077-2141 | the same for a rollback to an older readable version |
| BranchMachine.StateMachine.CascadeShared | server/crates/dsh-core/src/state.rs:2441-2497 | a shared item reaching a branch that uses it: on success the active contents have that item set and every other item as before |
| BranchMachine.CascadeExact | server/crates/dsh-core/src/state.rs:2461-2465 | a cascade on a readable branch makes the next version, with its item set and nothing else changed, and changes nothing on an unreadable one |
| BranchMachine.StateMachine.PublishNewStructure | server/crates/dsh-core/src/state.rs:1675-1758 | the same for the branch part of a structure publish, which renumbers a gray release in progress |
| BranchMachine.StateMachine.PublishGray | server/crates/dsh-core/src/state.rs:2143-2209 | the same for a gray publish, which writes no version |
| BranchMachine.StateMachine.PromoteGray | server/crates/dsh-core/src/state.rs:2211-2278 | the same for a promotion, which takes the number after the larger of active version and gray sequence |
| BranchMachine.StateMachine.AbortGray | server/crates/dsh-core/src/state.rs:2280-2322 | the same for an abort |
| BranchMachine.StateMachine.PruneOld | server/crates/dsh-core/src/state.rs:750-792 | the retention job on the stored branch: exactly the surviving records stay, and the number removed is returned |
| BranchMachine.NextShape | server/crates/dsh-core/src/state.rs:1613-2497 | every command writes one version on top of the readable active one, or prunes, or leaves version rows alone; its events carry the version it ends at |
| BranchMachine.TakesEffectIff | server/crates/dsh-core/src/state.rs:2004-2322 | exactly when a command takes effect: not a repeat, the active version readable (an abort aside), the draft accepted, the rollback target an older readable version, a gray release under way; otherwise nothing changes |
| BranchMachine.RepeatIsIdle | server/crates/dsh-core/src/state.rs:2019-2022 | a request id remembered makes the command change and publish nothing, and a command that published is remembered |
| BranchMachine.EventAndRecord | server/crates/dsh-core/src/state.rs:2035-2075 | version, type, structure version, gray mark and request id of the event of each command, the number it took, and the record it left |
| BranchMachine.GrayLeavesStable | server/crates/dsh-core/src/state.rs:2143-2322 | a gray publish or abort leaves active version, rows and contents alone, and an abort removes the gray snapshot |
| BranchMachine.NextConsist | server/crates/dsh-core/src/state.rs:594-612 | every command keeps rows, records, active version and gray state consistent |
| BranchMachine.RunAlive | server/crates/dsh-core/src/state.rs:1030-1032 | in every run the active version is readable at the end if and only if every structure publish and promotion took the next number or a checkpoint number |
| BranchMachine.WedgedForever | server/crates/dsh-core/src/state.rs:500-568 | a branch whose active version is unreadable never moves again, in any further run |
| BranchMachine.GrayJumpWedges | server/crates/dsh-core/src/state.rs:2211-2278 | a concrete run that wedges: two gray publishes and a promotion |
| BranchMachine.StructurePublishThenPromote | server/crates/dsh-core/src/state.rs:1675-1758 | promoting after a structure publish during a gray release is never careful, unless the number is a checkpoint |
| BranchMachine.RunFaithful | server/crates/dsh-core/src/state.rs:500-568 | in every run no reader is given other contents than were published under the version it asked for; a promoted version holds what the last gray publish made, through structure publishes that renumber it |
| BranchMachine.RunOrderly | server/crates/dsh-core/src/state.rs:1030-1032 | in every run an ordinary event carries a version above that of every event before it |
| BranchMachine.EventCarriesChange | server/crates/dsh-core/src/state.rs:2040-2075 | the event of a command that moves the branch takes the old contents to the new |
| BranchMachine.GrayEventCarriesChange | server/crates/dsh-core/src/state.rs:2178-2206 | the event of a gray publish takes the stable contents to those of the gray snapshot |
| BranchMachine.FollowerTracks | server/crates/dsh-core/src/state.rs:2004-2322 | through every careful run a follower that applies the accepted events holds the active contents |
| BranchMachine.HistoryFacts | server/crates/dsh-core/src/state.rs:624-649 | the version history is the retained records ascending and ends at the active version |
| BranchMachine.WatchingABranch | server/crates/dsh-api/src/grpc.rs:274-388 | end to end: on a branch reached by any careful run, what an unrefused client receives is one replayed event for each retained version above its own, gray promotions included, and then every event owed of every further run; ordinary versions rise |
| EndToEnd.WatcherHoldsContents | server/crates/dsh-api/src/grpc.rs:274-388 | on a branch reached by any careful run, whatever careful run follows, a client that is not refused and folds the changes of what it is sent holds the contents of the final active version; it may start from anything whose items all occur in the versions it missed |
| EndToEnd.EmptyWatcherHoldsContents | server/crates/dsh-api/src/grpc.rs:274-388 | so a client that starts with nothing ends with everything |
| EndToEnd.HttpWatcherHoldsMasked | server/crates/dsh-watch/src/lib.rs:70-125 | the same over HTTP, with masked contents |
| EndToEnd.ReplayTellsWhatWas | server/crates/dsh-api/src/grpc.rs:304-321 | every replayed event has the version, type, structure version and gray mark of an event published when its version came to be |
| Store.InMemoryStore.GetPrefix | server/crates/dsh-core/src/store.rs:104-112 | starting at the prefix and taking while it matches gives exactly the entries whose key starts with it, ascending |
| Store.RangeIsScan | server/crates/dsh-core/src/store.rs:104-112 | the matching keys are contiguous from the prefix on, so the range misses none |
| Store.ScanAscending | server/crates/dsh-core/src/store.rs:104-112 | a scan is strictly ascending and holds exactly the entries with the prefix |
| Store.InMemoryStore.GetPrefixPage | server/crates/dsh-core/src/store.rs:38-61 | a page starts right after the given key, has an entry if any is left, was under budget before its last entry, and ends only at the budget or the end |
| Store.PageUnique | server/crates/dsh-core/src/store.rs:30-37 | that determines the page |
| Store.InMemoryStore.DumpBatches | server/crates/dsh-core/src/state.rs:117-153 | paging until empty ends and concatenates to the whole ordered store, no entry twice or missing, every page within budget |
| Store.InMemoryStore.WriteBatch | server/crates/dsh-core/src/store.rs:122-131 | deletes first, then puts |
| Store.ChunkPairs | server/crates/dsh-core/src/state.rs:3755-3774 | chunks concatenate to the pairs, none is empty, each is under budget before its last entry |
| Store.InMemoryStore.RestoreStream | server/crates/dsh-core/src/state.rs:700-732 | clears once and inserts the batches; an error leaves the batches before it, and nothing changed if it is the first |
| Store.InMemoryStore.RestoreAll | server/crates/dsh-core/src/state.rs:684-742 | the store is then exactly the pairs, whatever was in it |
| Store.DumpRebuilds | server/crates/dsh-core/src/state.rs:651-672 | writing a dump into an empty store gives back the dumped store |
| WriteBuffer.Buffer.GetMerged | server/crates/dsh-core/src/state.rs:178-187 | a read during a command sees the store as if the buffered operations had been carried out in turn |
| WriteBuffer.Buffer.GetPrefixMerged | server/crates/dsh-core/src/state.rs:190-208 | a scan during a command does too |
| WriteBuffer.Buffer.FlushPending | server/crates/dsh-core/src/state.rs:211-226 | the buffer reaches the store as one batch, deletes before puts |
| WriteBuffer.FlushMeansInTurnIff | server/crates/dsh-core/src/state.rs:211-226 | the batch equals the operations in turn if and only if no key's last operation is a delete after a put |
| WriteBuffer.PutThenDeleteResurrects | server/crates/dsh-core/src/state.rs:215-225 | such a key comes back with the value it was put with |
| CommandWrites.WritesGive | server/crates/dsh-core/src/state.rs:1675-1741 | the rows a command buffers, the last write deciding, turn each row of the branch into that of the branch the command leads to |
| CommandWrites.WritesShape | server/crates/dsh-core/src/state.rs:2143-2322 | a command writes rows of its own branch and drops at most the current gray snapshot, which it does not put |
| CommandWrites.CommandNeverResurrects | server/crates/dsh-core/src/state.rs:211-226 | no command puts a key and then deletes it, so the batch flushed is what the command meant |
| CommandWrites.CommandReachesStore | server/crates/dsh-core/src/state.rs:1047-1064 | flushed over a store that holds a branch, a command leaves a store that holds the branch it leads to, and every other key as it was |
| Keys.KeyParts | server/crates/dsh-core/src/keys.rs:5-143 | cutting a key at its slashes gives the parts it was formatted from |
| Keys.KeysInjective | server/crates/dsh-core/src/keys.rs:5-143 | for components without slash all key constructors are injective and pairwise disjoint |
| Keys.PaSessionPrefixExact | server/crates/dsh-core/src/keys.rs:118-125 | the prefix reaches exactly that user's sessions |
| Keys.GaSessionPrefixExact | server/crates/dsh-core/src/keys.rs:130-137 | the prefix reaches exactly that user's sessions |
| Keys.AdminSessionPrefixExact | server/crates/dsh-core/src/keys.rs:104-109 | the prefix reaches exactly the administrator's sessions: no other account's, not the single-session key, not the password |
| Keys.BranchPrefixExact | server/crates/dsh-core/src/keys.rs:90-92 | the branch prefix reaches exactly the rows of the project's branches whose names extend the given one |
| Keys.ProjectPrefixExact | server/crates/dsh-core/src/keys.rs:38-40 | the project key as a prefix reaches exactly the rows of projects whose ids extend the given one |
| Keys.BranchListPrefixExact | server/crates/dsh-core/src/state.rs:479-496 | the list prefix reaches exactly the project's branch rows |
| Keys.BranchDeleteIff | server/crates/dsh-core/src/state.rs:1558-1577 | deleting a branch deletes exactly its rows if and only if no other stored branch of the project has a name extending its name |
| Keys.ProjectDeleteIff | server/crates/dsh-core/src/state.rs:1458-1465 | deleting a project deletes exactly its rows under `p/` if and only if no other stored project's id extends its id |
| Keys.AuditOrder | server/crates/dsh-core/src/keys.rs:138-140 | for all u64 numbers audit keys have one length, sort as the numbers do, and sort before the counter key |
| Keys.VersionRowsCovered | server/crates/dsh-core/src/state.rs:377-427 | checkpoints, diffs and gray snapshots of every branch are found by the re-wrapping scan |
| Keys.SharedCoveredIff | server/crates/dsh-core/src/state.rs:411-418 | a shared item is found by it if and only if it is not named `snap` or `diff` |
| Keys.DraftCoveredIff | server/crates/dsh-core/src/state.rs:419-447 | a branch's drafts are found by it if and only if neither branch nor project is named `gray-snap` |
| Labels.ClientLabels | server/crates/dsh-api/src/lib.rs:2848-2882 | the parsing loop computes Parsed |
| Labels.IdentityHeader | sdk/go/configclient/client.go:109-130 | the Go client prints the labels with sorted keys, and no header for none |
| Labels.ParsedSendable | server/crates/dsh-api/src/lib.rs:2848-2882 | whatever the header, the labels read from it have non-empty trimmed keys and trimmed values of the sendable kind |
| Labels.SegmentMeans | server/crates/dsh-api/src/lib.rs:2861-2875 | one more segment does nothing if it is blank, has no `=` or an empty key, and otherwise sets its key, repeated or not |
| Labels.RoundTripIff | server/crates/dsh-api/src/lib.rs:2848-2882 | for any key order and any number of labels, parsing the printed header gives the labels back if and only if every key is non-empty, trimmed, visible ASCII without `,` and `=` and every value trimmed, visible ASCII without `,` |
| Labels.OrderIrrelevant | sdk/ts/src/index.ts:139-144 | headers that differ only in key order are read alike |
| Seeds.ValidateSeedAddr | server/crates/dsh-cli/src/main.rs:534-553 | accepts exactly host:port with a usable host and a port from 1 to 65535 |
| Seeds.ParseBootstrapPeers | server/crates/dsh-cli/src/main.rs:458-531 | accepts exactly the seed maps whose entries are well formed and pairwise free of shared ids, raft and HTTP addresses, and returns their table |
| Seeds.OrderIrrelevant | server/crates/dsh-cli/src/main.rs:458-531 | neither acceptance nor the table depends on the order of the entries |
| Seeds.ParsedValid | server/crates/dsh-cli/src/main.rs:458-531 | every accepted table has valid ids and addresses and no two nodes sharing a raft or an HTTP address |
| Seeds.AcceptedReachable | server/crates/dsh-cli/src/main.rs:534-553 | every node of an accepted map has a non-zero 64-bit id and addresses with a host that is no wildcard and a port from 1 to 65535 |
| Seeds.ExtraSegment | server/crates/dsh-cli/src/main.rs:464-468 | blanks around an entry and blank entries, as after a trailing comma, make no difference |
| Seeds.RoundTripIff | scripts/stress/leader_storm.py:2251 | parsing the printed form of a table gives it back, in any node order, if and only if the table is non-empty, valid and free of shared addresses |
| Seeds.MembershipDiff | server/crates/dsh-cli/src/main.rs:584-623 | reports exactly the differences there are, and none if and only if ids, raft and HTTP addresses all agree |
| Throttle.OpenersApart | server/crates/dsh-api/src/lib.rs:5077-5093 | windows of one key do not overlap: later failures do not move the window |
| Throttle.BlockedExact | server/crates/dsh-api/src/lib.rs:5060-5098 | for every time-ordered history of calls on any keys, blocked is answered exactly when the window opened by the key's failures since its last reset is young enough and full |
| Throttle.ResetForgets | server/crates/dsh-api/src/lib.rs:5095-5098 | a reset makes every failure before it not count |
| Throttle.FailuresCounted | server/crates/dsh-api/src/lib.rs:5077-5093 | without a reset every recorded failure of the key counts, and no other |
| Throttle.LookingIsHarmless | server/crates/dsh-api/src/lib.rs:5060-5074 | removing expired entries while looking changes no later answer |
| Throttle.LoginThrottle.BlockedNow | server/crates/dsh-api/src/lib.rs:5060-5074 | the answer, tied to the history that led to the state, and the removal of an expired entry |
| Throttle.LoginThrottle.RecordFailure | server/crates/dsh-api/src/lib.rs:5077-5093 | a failure is counted in its window or opens one |
| Branches.BranchDiff | server/crates/dsh-api/src/lib.rs:1620-1661 | the loop over the ordered union of keys computes Sides and Missing |
| Branches.ComparisonMatchesDiff | server/crates/dsh-api/src/lib.rs:1620-1661 | the comparison names exactly the items compute_diff names, each as difference or as missing, never both |
| Branches.SidesMembers | server/crates/dsh-api/src/lib.rs:1647-1656 | a difference shows the masked values of both branches, each on its side |
| Branches.ComparisonSymmetric | server/crates/dsh-api/src/lib.rs:1620-1661 | comparing the other way round gives the same items in the same order with sides swapped |
| Branches.ComparisonMasked | server/crates/dsh-api/src/lib.rs:1651-1656 | no ciphertext is shown |
| Branches.Promote | server/crates/dsh-api/src/lib.rs:1679-1759 | the loops over source items and request compute updates, applied, skipped and missing |
| Branches.PromotionPartitions | server/crates/dsh-api/src/lib.rs:1719-1759 | applied and skipped cover the selected source items and have none in common; skipped are references and, without force, edited items; missing are the requested items the source lacks |
| Branches.PromotionOnDraft | server/crates/dsh-api/src/lib.rs:1719-1747 | each applied item is updated once and takes the source's value; every other item of the draft stays; without force nothing edited is lost |
| Branches.RequestAnswered | server/crates/dsh-api/src/lib.rs:1688-1695 | a requested name is reported missing exactly when it has a slash and the source lacks it; one without a slash is reported nowhere |

## Left out

- AES-GCM, SHA-256, argon2, base64 and nonce lengths: primitives, taken symbolically or not at all.
- Torn ring-file writes and file permissions: writes are atomic, a ring file that does not parse is not modelled.
- The ring can change between the job reading the generation and re-wrapping a ciphertext; the job is modelled on one ring.
- Raft itself, leader forwarding and waiting for the local hook: a foreign library and retry loops; the log is given.
- Snapshot payload format and the crash marker around installation: only the position and the missed hook are modelled.
- The drafts, the structure, shared bindings and validation enter a publish only as a function of the active snapshot that may refuse.
- The buffered writes of pruning (it deletes in the store directly) and of commands other than those on a branch's versions.
- Comments, operators, request ids of replayed events and timestamps: carried along by the code, irrelevant to what is proved.
- A structure publish over all branches of a project: one branch at a time is modelled.
- Gray rules (matching of instances, labels, addresses, percentages) and the resolution of a client to the gray version.
- Conversion to protobuf, HTTP handlers, authorisation and audit appends: plumbing.
- Splitting an SSE response into lines, backoff and stop signals of the client loops: a session is the events it yields.
- A row whose JSON does not parse: rows are read as what they were written as, and skipped where the key says otherwise.
- The redb backend: only the in-memory store and the default paging are modelled.
- Version numbers and counters are unbounded: 64-bit overflow of versions and generations, and the 32-bit failure count of the throttle, are not modelled.
- Error texts: an error is a refusal with some message.
- Non-ASCII white space and case in branch, project and user names: only the absence of a slash is used.
- validate_bootstrap_peers, membership_retry, replication lag, the admin UI and dsh-render: easy or presentation.
- Crypto.Cipher.DecryptSecret: a stored nonce of the wrong length, on which the code panics, is an ordinary failure here.
- Branches.PromotionOnDraft: the size and type checks of the draft update, which may refuse it as a whole, are not modelled.
