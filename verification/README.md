# Verified model of the key store, the authenticator and their codecs

This project models four parts of the repository in Dafny and proves what they are for:

- **The tier-partitioned key store** (`go/keys/service.go`): a directory of sealed files, two cached
  master keys, two KEK providers, a latch, and the two procedures that migrate a directory from the
  time when there was one master. The class `Service` has the same steps, in the same order, over a
  `Disk` on which every read, write and removal may fail.
- **The Base64 codec and the Argon2id hash string** (`go/internal/corecompat/encode.go`,
  `go/crypt/hash.go`): the two loops over buffers, and the printer and parser built on them.
- **The authenticator** (`go/auth/auth.go`): challenges, sessions, users and revocation.
- **The two session stores** (`go/auth/session_store.go`, `go/auth/session_store_sqlite.go`).

`dfyconfig.toml` names the Dafny files of the project: all that lie beside it.

## How it is laid out

| file | what is in it |
|---|---|
| `KeyFiles.dfy` | file names, their readings, and the refs that `keyPath` accepts |
| `KeyDisk.dfy` | ideal sealing, KEK providers, the disk, and the single changes the service may make to it |
| `KeySpec.dfy` | what each operation does when nothing fails |
| `KeyService.dfy` | the service itself, proved against both |
| `KeyRuns.dfy` | masters are written once; no secret is lost at any write; what a migration leaves |
| `KeyOrder.dfy` | the order of wiring and reading does not matter; tier 1 asked too early |
| `KeyExact.dfy` | when masters can be had, when the migration completes, what a boot gets: conditions on files, KEKs and caches |
| `KeyMaps.dfy` | the store is two maps; the audit trail replays to what is on disk |
| `KeyTrace.dfy` | every answer follows from the calls and answers before it |
| `KeyDriver.dfy` | any sequence of calls on the service, so that the above holds of the methods |
| `KeyRace.dfy` | concurrent get-or-create |
| `Base64.dfy`, `HashString.dfy` | the codec and the hash string |
| `SessionStores.dfy` | the two stores and their one meaning |
| `AuthSpec.dfy`, `AuthService.dfy` | the authenticator's steps, and the class that takes them |
| `AuthRuns.dfy`, `AuthDriver.dfy` | sessions, cleanup and revocation over whole runs |
| `AuthCleanup.dfy` | when a cleanup can be noticed at all |
| `AuthUsers.dfy` | which password and which key let a user in, and what a failed rotation or deletion leaves |
| `AuthExact.dfy` | when each operation succeeds, by the user's files; that what is handed out is what is kept |
| `Challenges.dfy` | challenges under concurrency |

Two ideas carry the key store. Every write or removal is appended to a ghost history, and every method
proves that it only prolongs the history by allowed changes (`Grows`, `Step`), whatever fails and
whenever it stops; crash safety is an induction over such histories. And every method proves that, on
a disk that does not fail and with providers that keep their answer, it is one step of a relation
(`EnsuresMaster`, `Migrates`, `CleanStep`); order independence, preservation and the refinement to two
maps are inductions over runs of that relation. `KeyDriver.AnyRun` calls the methods in any order and
gives back both.

What is assumed: sealing is ideal (a blob opens under the sealing key only, and a sealed blob is 40
bytes longer than its plaintext); signatures, key pairs and stored password hashes are ideal; the
Argon2id derivation is any function with the length asked for; marshalling and unmarshalling a session
are inverse; `Stat` is exact; a failed write leaves the file as it was. KEK providers are sets of
possible answers; time, tokens, nonces, key pairs and failing files are inputs of each authenticator
call. Where a statement needs fresh nonces, a clock that does not go back, steady providers or a
reliable disk, it says so.

## What the code does that its comments do not say

- `go/keys/service.go:910-913` says that tier-1 reads fail closed until the migration succeeds. With a
  live tier-1 KEK they do not: a fresh `.master-tier1` is written beside `.master`, and the migration
  then refuses for good (`KeyOrder.FailsClosedExactly`, `KeyOrder.RefusedForGood`).
- A completed migration keeps every legacy ref readable exactly when none ends in `.t0` or `.t1` and
  `keyPath` accepts them all: Step 3f takes `REF.tN.aead` for a file of the new layout
  (`KeyOrder.CompletedReadableExactly`). The comment at `go/keys/service.go:1174-1176` says that dot-files
  are skipped too; they are moved, to names that `keyPath` refuses.
- A single-instance blob that the legacy master does not open leaves `.master-tier1` beside `.master`
  although nothing failed (`KeyRuns.HalfStateExactly`).
- A failed read under the get-or-create lock lets a second key replace the first
  (`KeyRace.AgreeExactly`).
- `VerifyPassword` looks at neither of the first two `$` fields, so the algorithm name may be anything
  (`HashString.AlgorithmNameIgnored`).
- `ValidateResponse` does not look at `.rev`, and a `.rev` that cannot be read counts as none
  (`AuthRuns.PendingChallengeExactly`, `AuthRuns.UnreadableRevocationExactly`).
- A key made with an empty password is stored unencrypted (`go/crypt/pgp/pgp.go:45`), and opening the
  metadata is the only use a rotation makes of the old password (`go/auth/auth.go:510`). So the keys of a
  user without a password are rotated with any old password, while `Login` and `RevokeKey` still ask for
  the empty one (`AuthUsers.RegisteredRotates`).
- A key rotation that has written the public key and not the private one leaves the user unable to answer
  any challenge until the next rotation (`AuthUsers.FailedRotationAnswers`).
- A key rotation whose metadata write fails has already replaced the private key: from then on no
  password decrypts the metadata, so the keys can never be rotated again (`AuthUsers.FailedRotation`,
  `AuthUsers.LockedOutForGood`).
- A deletion that fails half-way keeps the sessions. If `.pub` has gone the user cannot be deleted
  again before registering anew, yet can log in while a hash is left, and even after a revocation if `.rev` has gone
  (`AuthUsers.FailedDeletion`).
- Whether an expired session can still be revoked depends on whether a cleanup came after it expired;
  no other call is accepted or refused differently for it (`AuthCleanup.RevocationNoticesExactly`).

## Model

| member | source | states |
|---|---|---|
| KeyFiles.NameOfReading | go/keys/service.go:79-100 | every directory entry is the name of exactly its reading: legacy master, tier master, tier blob, legacy blob, or nothing of the service's |
| KeyFiles.ReadingOfName | go/keys/service.go:79-100 | and every reading is recovered from its name, so a directory may be described by readings without two files merging |
| KeyFiles.SuffixTestsByReading | go/keys/service.go:1173-1188 | the suffix tests of listing and of Step 3f pick out exactly the tier's blobs and exactly the legacy blobs but the single instance's, with the right ref, and the move's target is that ref's tier-1 file |
| KeyFiles.KeyPathDiscipline | go/keys/service.go:1250-1288 | no two accepted refs share a path, within a tier or across; no path is a master's, the legacy single instance's or one that Step 3f would move |
| KeyFiles.NamesSpelled | go/keys/service.go:79-100 | the names on disk, character by character |
| KeyFiles.AcceptedExactly | go/keys/service.go:1250-1288 | a ref is accepted if and only if it is not empty, holds no `/`, backslash or NUL, does not begin with a dot, and is not a stem with `.t`, a digit and `.aead` behind; and which refusal means what |
| KeyFiles.PathIsOneComponent | go/keys/service.go:1250-1268 | every path given out is the ref with its tier's suffix: one component, without separator and without leading dot |
| KeyService.Service.constructor | go/keys/service.go:411-425 | a new service has empty caches, no provider and an open latch |
| KeyService.Service.CurrentKEK | go/keys/service.go:605-630 | the wired provider is asked once: the result is one of its possible answers, a wrong-length KEK counting as none, and none without a provider |
| KeyService.Service.WriteMaster | go/keys/service.go:1228-1241 | the one write of a master: sealed under the tier's KEK, on an absent file only, nothing else touched, nothing on failure |
| KeyService.Service.EnsureMaster | go/keys/service.go:663-697 | a returned master is cached and is the plaintext of its file, the other tier's cache and files stay, and without failures each branch and refusal is the one specified |
| KeyService.Service.LoadMaster | go/keys/service.go:710-736 | the length, provider and opening refusals, in that order, else the sealed master |
| KeyService.Service.EnsureTier0 | go/keys/service.go:707-768 | load, migrate a raw legacy master, refuse a wrapped one until unlock, or generate; only the tier-0 master and the single instance's two files may change |
| KeyService.Service.EnsureTier1 | go/keys/service.go:856-903 | load or generate; no file but the tier-1 master changes |
| KeyService.Service.GenerateMaster | go/keys/service.go:773-788 | no master without a KEK; a drawn master is on disk, sealed, before it is returned |
| KeyService.Service.MigrateTier0FromRawLegacy | go/keys/service.go:798-851 | Step 0b: tier 0 moves alone, `.master` stays, every write of it harmless on its own, and the exact directory and cache when nothing fails |
| KeyService.Service.ResealSingleInstance | go/keys/service.go:1117-1157 | Step 3e (and 0b.iv): the old blob goes only after the resealed one holds the same plaintext under the stored tier-0 master |
| KeyService.Service.ReadLegacyMaster | go/keys/service.go:956-995 | Steps 3a and 3b: the raw bytes, or the wrapped master under the tier-1 KEK, or nothing |
| KeyService.Service.PrepareTier0 | go/keys/service.go:1041-1098 | Step 3c: a live tier-0 KEK leaves a tier-0 master cached that its file holds, or the call gives up before anything is taken over |
| KeyService.Service.PlanMigration | go/keys/service.go:947-1098 | nothing but a tier-0 master is written before all that Step 3e needs is at hand; without failures it gives up exactly on the deferral conditions, and then changes nothing |
| KeyService.Service.TakeOver | go/keys/service.go:1100-1106 | Step 3d: `.master-tier1` seals the very bytes of the legacy master |
| KeyService.Service.MoveBlobs | go/keys/service.go:1159-1207 | Step 3f: success, even amid failed removals, means that every legacy blob has its copy; without failures every blob is moved and nothing else is touched |
| KeyService.Service.MoveBlob | go/keys/service.go:1186-1206 | one turn of the loop: success means copied, a failed removal leaves the original as it was |
| KeyService.Service.RetireLegacyMaster | go/keys/service.go:1159-1214 | `.master` is removed only when nothing hangs on it any more |
| KeyService.Service.FinishMigration | go/keys/service.go:1108-1218 | Steps 3e to 3h; the latch is set only when `.master` is gone or nothing hangs on it |
| KeyService.Service.MigrateTier1 | go/keys/service.go:909-1219 | every write of the migration is harmless on its own; the latch is not set early; and without failures the outcome is the one its guards decide |
| KeyService.Service.SetKEKProviderTier0 | go/keys/service.go:527-536 | re-wiring forgets the tier-0 master and nothing else |
| KeyService.Service.SetKEKProvider | go/keys/service.go:574-592 | re-wiring forgets the tier-1 master, and migrates unless that is done or nothing is wired |
| KeyService.Service.ServiceShutdown | go/keys/service.go:1723-1729 | both masters are forgotten, wiring and latch stay |
| KeyService.Service.PutSealed | go/keys/service.go:1293-1311 | success leaves the plaintext sealed at the ref's own file; failure leaves the directory as it was |
| KeyService.Service.GetTier | go/keys/service.go:1314-1333 | what is returned is what the ref's file holds under the tier's cached master; each refusal is the one specified |
| KeyService.Service.HasTier | go/keys/service.go:1557-1564 | answers for accepted refs only, exactly whether the file is there, without asking for a master |
| KeyService.Service.ListTier | go/keys/service.go:1642-1665 | exactly the refs with a file in the tier, each once |
| KeyService.Service.StoreTier | go/keys/service.go:1493-1522 | the overwrite test tells whether the ref was there before the write, and the tier's refs gain the ref on success only |
| KeyService.Service.PutTier0 | go/keys/service.go:1356-1369 | a put, with exactly one row, Stored with its ref, source and code, and no broadcast; a failed put leaves the ref as it was |
| KeyService.Service.PutTier1 | go/keys/service.go:1493-1531 | a put, with exactly one row: Replaced if the ref was there before, else Stored, with its code; a broadcast exactly when an overwrite succeeded; a failed put leaves the ref as it was |
| KeyService.Service.RemoveTier | go/keys/service.go:1419-1437 | success means absent; a removal is reported exactly when there was one |
| KeyService.Service.DeleteTier | go/keys/service.go:1591-1610 | deleting what is absent leaves no row; a removal or a failure leaves exactly one, and a removal in tier 1 exactly one broadcast |
| KeyService.Service.GetOrCreate | go/keys/service.go:1672-1691 | read, read again, generate, store: without failures exactly so, hence a miss on an accepted ref of a live tier stores the generated secret and returns it; whatever fails, what comes back is what the store now holds, the blob is untouched or is the generated one, and at most one truthful row is left |
| KeyRuns.MasterWrittenOnce | go/keys/service.go:663-903 | over the whole life of a directory a `.master-tierN` file once written is never rewritten nor removed |
| KeyRuns.MastersAgree | go/keys/service.go:663-697 | so any two successful `ensureMaster` calls of a tier return the same bytes |
| KeyRuns.LegacyOnlyGoes | go/keys/service.go:909-1219 | a legacy master or blob is never changed, only removed |
| KeyRuns.OnlyAcceptedRefs | go/keys/service.go:1250-1288 | in every state reached from a directory without a legacy master, whatever failed, every blob on disk has a ref that `keyPath` accepts |
| KeyRuns.ListedExactlyWhenHas | go/keys/service.go:1642-1665 | so in every such state a ref is listed if and only if asking for it says it is there |
| KeyRuns.KeptByStep | go/keys/service.go:798-851 | each single write or removal keeps a legacy secret and the master that opens it; a caller may even overwrite its tier name while the old layout has it |
| KeyRuns.NoSecretLost | go/keys/service.go:909-1219 | crash safety: after every write or removal of any run from a legacy installation, a legacy secret opens where the old layout or where the new layout has it, never in between, unless by then a caller has overwritten or deleted it in the only place where it was |
| KeyRuns.HarmedExactly | go/keys/service.go:1293-1311 | that condition is needed: once a caller has done so, the secret can be recovered if and only if what the caller left opens to it |
| KeyRuns.RetiredMeansReadable | go/keys/service.go:1209-1218 | whatever failed or stopped before, once `.master` is gone every secret so spared answers in its own tier |
| KeyRuns.HalfStateExactly | go/keys/service.go:1013-1157 | without failures both masters are left side by side if and only if the guards pass and the single-instance blob does not open |
| KeyRuns.HalfStateReached | go/keys/service.go:1013-1157 | a directory and two KEKs for which that happens |
| KeyRuns.NoHalfState | go/keys/service.go:998-1021 | so with a well-formed single instance a migration changes nothing or completes |
| KeyRuns.GetAfterLoad | go/keys/service.go:1314-1333 | with the tier's KEK live, what a get answers depends on the directory alone |
| KeyRuns.MigrationPreservesContents | go/keys/service.go:1041-1218 | after a completed migration each accepted legacy ref answers its old plaintext, the single instance in tier 0 and the rest in tier 1; `.master` is gone, `.master-tier1` holds the legacy key, and no other file has changed but a `.master-tier0` that was absent |
| KeyRuns.DeadEnd | go/keys/service.go:1173-1185 | of the legacy refs that Step 3f mistakes for moved ones, some one is never reachable again, however they chain |
| KeyRuns.ReadableExactly | go/keys/service.go:1173-1206 | once every legacy blob has moved, all legacy refs are readable if and only if none ends in a tier mark and all are accepted |
| KeyRuns.MigrationReadableExactly | go/keys/service.go:1173-1206 | the same for one completed migration, also from a directory in which Step 0b has moved the single instance before |
| KeyRuns.MarkedRefStrays | go/keys/service.go:1173-1206 | a directory with a legacy ref `x.t1` for which it fails: the secret turns up as `x` |
| KeySpec.MigratesByStages | go/keys/service.go:1041-1218 | Steps 3c, 3d and 3e to 3h in sequence make up the migration as specified |
| KeyExact.UsableExactly | go/keys/service.go:605-630 | a KEK counts if and only if it has 32 bytes |
| KeyExact.MasterExactly | go/keys/service.go:663-903 | a master can be had if and only if it is cached, or its file is there and a live KEK opens it, or there is none and a KEK is live and, for tier 0, a legacy master is raw and opens the single instance; and which refusal means what |
| KeyExact.Step0bMoves | go/keys/service.go:738-851 | a raw legacy master and a live tier-0 KEK: tier 0 gets its own master and the single instance under it, the legacy master stays |
| KeyExact.MigratesExactly | go/keys/service.go:947-1218 | with a legacy master and no tier-1 master, the migration completes if and only if the tier-1 KEK yields the legacy master, the single instance is absent or opens with the tier-0 KEK live, and a `.master-tier0` that is there is cached, not asked for, or opened; it leaves both masters if and only if only the opening fails; and else changes nothing |
| KeyExact.NothingToMigrate | go/keys/service.go:925-945 | without a legacy master the latch is set and no more; with both masters nothing is done |
| KeyExact.WiringCompletesExactly | go/keys/service.go:574-592 | from any state of a waiting run, a wiring with a live tier-1 KEK completes if and only if no single instance waits or the tier-0 KEK is live, and else changes no file |
| KeyExact.BootGetsExactly | go/keys/service.go:707-763 | a tier-0 get of a legacy single instance answers its secret if and only if a master is cached, or the tier-0 KEK is live and the legacy master is raw or tier 0 has one; and the refusal in every other case |
| KeyExact.BootGetsOrCreatesExactly | go/keys/service.go:1672-1691 | the same of getting or creating it, which stores nothing in any case |
| KeyExact.BootsExactly | go/keys/service.go:1672-1691 | so at every boot of every waiting run |
| KeyExact.ForgottenWithoutKek | go/keys/service.go:1723-1729 | after a shutdown, a get without a live KEK is refused; after a restart, every get is, until a provider is wired |
| KeyOrder.Tier0ReadKeepsMigrating | go/keys/service.go:738-763 | a tier-0 read at any point of the migration, Step 0b included, stays on course |
| KeyOrder.WiringKeepsMigrating | go/keys/service.go:574-592 | so does every wiring, and with both KEKs live it completes the migration |
| KeyOrder.RunKeepsMigrating | go/keys/service.go:574-592 | after any run of wirings, tier-0 reads, boots that get or create a legacy single instance, shutdowns and restarts the directory is still wholly unmigrated, but for tier 0 by itself, or complete |
| KeyOrder.BootKeepsSingleInstance | go/keys/service.go:1672-1691 | where there is a legacy single instance, getting or creating it gets the legacy one or fails and changes nothing; it never creates another |
| KeyOrder.BootsGetLegacyKey | go/keys/service.go:1672-1691 | so at every boot of such a run |
| KeyOrder.OrderDoesNotMatter | go/keys/service.go:909-1219 | once `.master` is gone a legacy ref answers a function of the legacy directory alone, for raw and wrapped masters, whatever the order was |
| KeyOrder.CompletedReadableExactly | go/keys/service.go:909-1219 | over every such run that completes, from an old directory with blobs of any name: all legacy refs are readable if and only if none ends in a tier mark and all are accepted |
| KeyOrder.LiveWiringCompletes | go/keys/service.go:574-592 | from any state of such a run, one `SetKEKProvider` with a live tier-1 KEK completes, with the tier-0 KEK live if there is a single instance and in any case if there is none |
| KeyOrder.FailsClosedExactly | go/keys/service.go:885-902 | a tier-1 read while `.master` waits fails closed if no tier-1 KEK is live; if one is, it leaves both masters and a migration that refuses |
| KeyOrder.PutFailsClosedExactly | go/keys/service.go:885-902 | a tier-1 put does the same |
| KeyOrder.EarlyUseForestalls | go/keys/service.go:1013-1021 | and it happens: with a single instance to reseal and no tier-0 KEK yet, an unlock and the first tier-1 get or put leave an old directory with both masters |
| KeyOrder.RefusedForGood | go/keys/service.go:933-940 | two masters that differ stay side by side, unchanged, in every continuation |
| KeyMaps.EnsureKeepsMaps | go/keys/service.go:663-903 | asking for a master never changes what the tiers hold, and succeeds exactly when the tier's KEK is live |
| KeyMaps.StepRefines | go/keys/service.go:1345-1665 | each operation answers as two maps would and leaves what they would become |
| KeyMaps.StoreIsTwoMaps | go/keys/service.go:1345-1729 | from an empty directory every run of puts, gets, get-or-creates, has, deletes, lists, shutdowns, wirings and restarts answers exactly as two independent maps |
| KeyTrace.MapsAsTold | go/keys/service.go:1345-1729 | the maps hold what the calls and answers so far say was last put, created or deleted, and are live as last wired |
| KeyTrace.AnswersFollow | go/keys/service.go:1345-1729 | so a get answers what was last put, and every other call what the calls and answers before it require, with no state in between |
| KeyMaps.AuditReplay | go/keys/service.go:276-344 | folding the ok rows gives exactly the tier-1 refs on disk, and the messages are exactly the Replaced and Deleted ok rows in order |
| KeyDriver.Call | go/keys/service.go:1345-1729 | one call, get-or-create included, from inside or through the bindings: allowed changes only, a truthful row, and a clean step when nothing fails |
| KeyDriver.SoundIsSteps | go/keys/service.go:909-1219 | what any run of the methods does to a directory is a run of allowed changes under the KEKs it was wired with |
| KeyDriver.AnyRun | go/keys/service.go:574-1729 | the methods in any order, restarts included: sound changes, a truthful trail that ends in the service's own rows and messages, and a clean run on a reliable disk |
| KeyDriver.RunLosesNothing | go/keys/service.go:574-1219 | crash safety of the methods themselves, on a disk that may fail at any operation and with any calls, boots that get or create the single instance included |
| KeyDriver.RunThenList | go/keys/service.go:1557-1665 | after any run of the methods over a directory without legacy files, on a disk that may fail at any operation: a tier lists each ref once, a ref if and only if `HasTier` says it is there, and only accepted refs |
| KeyDriver.RunAudits | go/keys/service.go:276-344 | after any run of the methods over a directory with an empty tier 1 and no legacy master, on a disk that may fail at any operation: folding the ok rows the recorder has received gives exactly the tier-1 refs on disk, and the bus has received exactly the Replaced and Deleted ok rows in order |
| KeyDriver.RunAnswersAsMaps | go/keys/service.go:1345-1729 | the methods over an empty directory answer as the two maps do, hence as the calls and answers before each call require; and the service's own rows and messages tell the tier-1 refs |
| KeyRace.MoveKeepsAgreement | go/keys/service.go:1672-1691 | each move of any thread keeps one holder of the lock, no store while a whole blob is there, and equal results |
| KeyRace.RacersAgree | go/keys/service.go:1672-1691 | for any threads and interleaving at most one generate-and-store succeeds and all successful callers get the same bytes |
| KeyRace.FailsForReason | go/keys/service.go:1672-1691 | a caller comes back without bytes only when generating or storing has failed |
| KeyRace.MisreadForks | go/keys/service.go:1677-1689 | any two callers of any starting world can be forked: the moves are given by which one failed read under the lock leaves them with different keys |
| KeyRace.AgreeExactly | go/keys/service.go:1672-1691 | so when reads under the lock may fail, callers are sure to agree if and only if there are not two of them |
| KeyRace.AloneIsGetOrCreate | go/keys/service.go:1672-1691 | one caller's moves, undisturbed, return and leave what the get-or-create of the two maps does, which is what the service answers |
| Base64.SymbolIsAlphabet | go/internal/corecompat/encode.go:28-36 | the symbol of a value is its place in the alphabet of table 1 of RFC 4648 |
| Base64.AlphabetSpelled | go/internal/corecompat/encode.go:28-36 | the alphabet, character by character |
| Base64.SymbolValue | go/internal/corecompat/encode.go:125-140 | looking a symbol up gives its value back |
| Base64.ValueSymbol | go/internal/corecompat/encode.go:125-140 | and nothing else has a value |
| Base64.EncodedLength | go/internal/corecompat/encode.go:26-27 | the buffer length the encoder computes is the length it fills |
| Base64.EncodedGroup | go/internal/corecompat/encode.go:28-51 | section 4 of RFC 4648: the four symbols of a group spell its 24 bits, zeros for missing bytes, the character `=` exactly for whole missing bytes |
| Base64.Base64Encode | go/internal/corecompat/encode.go:21-54 | the loop and its three tails fill the buffer with the specified encoding, of which the laws here are proved |
| Base64.StoreWhileRoom | go/internal/corecompat/encode.go:107-119 | the three bounded writes store in order until the buffer is full, and disturb nothing before |
| Base64.ReadBlock | go/internal/corecompat/encode.go:76-107 | the checks on one quartet accept exactly the quartets of the specification |
| Base64.BlockByPadding | go/internal/corecompat/encode.go:85-105 | padding is accepted in the last quartet only, one or two symbols at its end |
| Base64.Base64Decode | go/internal/corecompat/encode.go:57-123 | the loop fills the whole buffer, each byte once, with the specified decoding, or rejects |
| Base64.RoundTrip | go/internal/corecompat/encode.go:21-123 | decoding an encoding gives the bytes back, for all byte sequences |
| Base64.AcceptsExactly | go/internal/corecompat/encode.go:57-105 | accepted are exactly the strings of whole quartets over the alphabet but for one or two final `=`; and the length of the result |
| Base64.AcceptsSpelled | go/internal/corecompat/encode.go:57-140 | the same with literal characters: whole quartets of letters, digits, `+` and `/`, but for at most two final `=` |
| Base64.ReencodesCanonically | go/internal/corecompat/encode.go:96-119 | re-encoding an accepted string gives it back with its unused trailing bits cleared (section 3.5 of RFC 4648) |
| Base64.ReencodesItself | go/internal/corecompat/encode.go:96-119 | so it gives the string itself if and only if those bits were zero |
| HashString.DecimalParses | go/crypt/hash.go:172-192 | a printed number parses back, whatever its size |
| HashString.SplitSix | go/crypt/hash.go:40-44 | splitting six joined fields gives the six fields |
| HashString.StripRepad | go/crypt/hash.go:194-213 | stripping the padding and restoring it is the identity on encodings, and no `$` appears |
| HashString.RawRoundTrip | go/crypt/hash.go:194-213 | raw Base64 round trip, for all bytes |
| HashString.ParamsRoundTrip | go/crypt/hash.go:151-192 | parsing the parameter field recovers every uint32 memory and time and uint8 parallelism |
| HashString.HashStringRoundTrip | go/crypt/hash.go:30-67 | parsing the printed string recovers every field |
| HashString.AcceptsHashExactly | go/crypt/hash.go:40-67 | accepted are exactly the strings of six fields with the version spelled in digits, perhaps signed or with leading zeros, three numbers within their widths, and two Base64 fields, padded or not |
| HashString.RefusalsExactly | go/crypt/hash.go:40-67 | which refusal means what, in the order of the checks |
| HashString.VerdictExactly | go/crypt/hash.go:59-71 | the verdict on every accepted string: the derivation with the string's own salt, time, memory and parallelism, to the length of its own hash, compared with that hash |
| HashString.HashPasswordSpelled | go/crypt/hash.go:19-35 | the string stored for a new password, character by character up to the salt, and the parameters it is derived with |
| HashString.RawReprintsExactly | go/crypt/hash.go:194-213 | a Base64 field is printed back if and only if it has no padding and no stray bits |
| HashString.ReprintsExactly | go/crypt/hash.go:30-67 | an accepted string is printed back if and only if its first fields are as printed, its numbers have no leading zeros, and its Base64 fields neither padding nor stray bits |
| HashString.VerifiesAgainstHashed | go/crypt/hash.go:19-72 | every password verifies against its own hash string, and another one if and only if the derivation cannot tell them apart |
| HashString.AlgorithmNameIgnored | go/crypt/hash.go:37-52 | the first two fields never influence the result |
| HashString.HashedHasPrefix | go/auth/auth.go:449-451 | a hash string passes the authenticator's prefix test |
| SessionStores.MemorySessionStore.Get | go/auth/session_store.go:42-54 | the session of the token, or not found |
| SessionStores.MemorySessionStore.Set | go/auth/session_store.go:58-66 | the session is stored under its token, the others stay |
| SessionStores.MemorySessionStore.Delete | go/auth/session_store.go:70-80 | not found and unchanged, or gone |
| SessionStores.MemorySessionStore.DeleteByUser | go/auth/session_store.go:84-92 | exactly the user's sessions go |
| SessionStores.MemorySessionStore.Cleanup | go/auth/session_store.go:96-110 | exactly the expired sessions go, and the count is theirs |
| SessionStores.SQLiteSessionStore.Get | go/auth/session_store_sqlite.go:36-56 | the parsed session, not found, or an error for a malformed row |
| SessionStores.SQLiteSessionStore.Set | go/auth/session_store_sqlite.go:60-74 | the row of the session's token is its serialisation |
| SessionStores.SQLiteSessionStore.Delete | go/auth/session_store_sqlite.go:78-95 | not found and unchanged, or gone |
| SessionStores.SQLiteSessionStore.DeleteByUser | go/auth/session_store_sqlite.go:99-123 | walking a snapshot and deleting by key drops exactly the user's rows and leaves malformed ones |
| SessionStores.SQLiteSessionStore.Cleanup | go/auth/session_store_sqlite.go:127-154 | exactly the expired rows go, malformed ones stay, and the count is of rows deleted |
| SessionStores.OnMemory | go/auth/session_store.go:42-110 | every operation of the memory store is the step of the shared meaning |
| SessionStores.OnSQLite | go/auth/session_store_sqlite.go:36-154 | so is every operation of the other, on the sessions its rows hold |
| SessionStores.Lockstep | go/auth/session_store_sqlite.go:36-154 | for every sequence of operations at the same clock readings both give the same answers, cleanup counts and not-found errors included, and hold the same sessions |
| AuthSpec.UserPathInjective | go/auth/auth.go:167-169 | no two artifacts of any users share a path |
| AuthService.Authenticator.constructor | go/auth/auth.go:149-164 | a new authenticator has neither challenges nor sessions |
| AuthService.Authenticator.WriteInOrder | go/auth/auth.go:551-563 | files are written in order up to the first failure, which leaves the earlier ones written |
| AuthService.Authenticator.RevokedNow | go/auth/auth.go:617-637 | revoked if and only if the user's record is there, can be read, and is a revocation with a time |
| AuthService.Authenticator.CreateChallenge | go/auth/auth.go:255-292 | succeeds if and only if the user is not revoked and the public key can be read and is one; then a new challenge supersedes the user's old one and no other |
| AuthService.Authenticator.ValidateResponse | go/auth/auth.go:298-329 | the user's challenge is used up on every path and no other; succeeds if and only if there was one, unexpired, and its nonce is signed with the current key; the session returned is the one stored |
| AuthService.Authenticator.NewSession | go/auth/auth.go:722-741 | a session under the drawn token, for this user, until now plus the TTL, and the session returned is that one |
| AuthService.Authenticator.ValidateSession | go/auth/auth.go:333-349 | succeeds if and only if the session is there and not expired, and returns it; an expired one is deleted |
| AuthService.Authenticator.RefreshSession | go/auth/auth.go:353-373 | succeeds if and only if the session is there and not expired; the session returned is the one stored, with now plus the TTL; an expired one is deleted |
| AuthService.Authenticator.RevokeSession | go/auth/auth.go:377-384 | the session goes, or not found |
| AuthService.Authenticator.CleanUp | go/auth/auth.go:746-767 | one cleanup tick: exactly the sessions that have not expired stay, and the count is of the others |
| AuthService.Authenticator.Register | go/auth/auth.go:176-249 | refused when the user exists; five files in order, stopping at a failed write |
| AuthService.Authenticator.DeleteUser | go/auth/auth.go:390-420 | the server is never deleted; six artifacts in order, stopping at a failed deletion; the user's sessions go only after all of them |
| AuthService.Authenticator.VerifyPassword | go/auth/auth.go:687-718 | succeeds if and only if the readable `.hash`, or without one the readable `.lthn`, is this password's; and which refusal means what |
| AuthService.Authenticator.Login | go/auth/auth.go:434-482 | succeeds if and only if the user is not revoked and the stored hash is the password's; the session returned is the one stored; a legacy login leaves the new hash, if it can be written, and any other login no file |
| AuthService.Authenticator.RotateKeyPair | go/auth/auth.go:490-571 | nothing changes before the metadata has been opened with the stored key and the old password, which an unencrypted key does not ask for; sessions go only when all four files are written |
| AuthService.Authenticator.RevokeKey | go/auth/auth.go:577-611 | succeeds if and only if the user is there, the stored hash is the password's and the record can be written; then the record carries the time and exactly the user's sessions go; else nothing changes |
| AuthService.Authenticator.Do | go/auth/auth.go:176-741 | every call on the object is the step that the run statements are about |
| AuthRuns.RunHolds | go/auth/auth.go:333-384 | after every prefix of a run the store holds what was granted, but perhaps for what has expired |
| AuthRuns.ValidExactly | go/auth/auth.go:333-384 | a token is accepted if and only if it was issued, nothing has ended it since, and the clock is not past its last issue or refresh plus the TTL; with that user and expiry |
| AuthRuns.DeadStaysDead | go/auth/auth.go:333-373 | an expired or ended token never becomes valid again unless issued anew |
| AuthRuns.StepSame | go/auth/auth.go:333-741 | two states equal but for expired sessions answer alike and stay so; only a revocation of an expired session and the count of a cleanup tell them apart, exactly when one still holds it |
| AuthRuns.CleanupInvisible | go/auth/session_store.go:96-110 | cleanups inserted anywhere in a run change no later verdict on a session and no other answer, but as the next rows say |
| AuthCleanup.StoredExactly | go/auth/auth.go:333-384 | after every prefix of a run with inserted cleanups the store holds a token if and only if it is granted and, since it was last renewed, has not been swept or cleaned after it expired; for any lifetime |
| AuthCleanup.RevocationNoticesExactly | go/auth/auth.go:377-384 | inserted cleanups change the answer to a revocation if and only if, since the session was last renewed, none of the run's own calls has swept it after its expiry and one of the cleanups came after it |
| AuthCleanup.CleanupNoticed | go/auth/auth.go:377-384 | a run of two calls in which that happens |
| AuthRuns.RevokedOnSuccess | go/auth/auth.go:577-611 | a successful revocation is on the medium and leaves the user no session |
| AuthRuns.RevocationKept | go/auth/auth.go:490-571 | nothing but deleting that user undoes it: not a rotation, not a registration, not another user's deletion |
| AuthRuns.RevokedIsShutOut | go/auth/auth.go:255-261 | a revoked user gets neither login nor challenge, and without a pending challenge no session by any operation |
| AuthRuns.RevocationPersists | go/auth/auth.go:434-440 | and that holds in every continuation that does not delete the user and can read `.rev` |
| AuthRuns.AfterRevokeKey | go/auth/auth.go:577-611 | the same from the moment `RevokeKey` returns without error |
| AuthRuns.PendingChallengeExactly | go/auth/auth.go:298-329 | some response gives a revoked user a session if and only if a challenge is pending, in time, and the key readable |
| AuthRuns.UnreadableRevocationExactly | go/auth/auth.go:617-621 | a revoked user's login succeeds if and only if `.rev` cannot be read and the password is right |
| AuthRuns.UnreadableRevocationChallenges | go/auth/auth.go:255-261 | and is given a challenge if and only if `.rev` cannot be read and the public key can and is one |
| AuthUsers.WriteAllAt | go/auth/auth.go:551-563 | of files written in order, one is written if and only if no write up to it fails; the rest keep their contents |
| AuthUsers.RegisteredFiles | go/auth/auth.go:198-246 | which of the five files a registration has written, for every combination of failing writes |
| AuthUsers.RegisteredAccepts | go/auth/auth.go:176-249 | a registered user's files hold the key pair, the metadata, the placeholder and the hash of the password |
| AuthUsers.RegisteredAnswers | go/auth/auth.go:176-329 | a registered user is given a challenge, answered in time by a signature of its nonce with the registered key and by nothing else |
| AuthUsers.OldPasswordAsked | go/auth/auth.go:499-517 | a rotation is refused for its old password if and only if the stored key has a password and it is another one |
| AuthUsers.RegisteredRotates | go/auth/auth.go:490-571 | so a registered user's keys are rotated by the registered password alone, or by any password if that was empty; and the new password then logs in |
| AuthUsers.RotatedFiles | go/auth/auth.go:551-563 | which of the four files a rotation has replaced, for every combination of failing writes |
| AuthUsers.AfterRotation | go/auth/auth.go:490-571 | after a completed rotation: no session of the user is left, the new password alone logs in, the new key alone answers a pending challenge, and the new password alone rotates again, unless it is empty: then any does |
| AuthUsers.FailedRotation | go/auth/auth.go:551-563 | a rotation stopped by a failed write ends no session and changes no password; it locks the user out of rotating if and only if the metadata is what could not be written |
| AuthUsers.FailedRotationAnswers | go/auth/auth.go:551-558 | once the public key has been replaced only the new pair answers a pending challenge; and the stored private key is of another pair if and only if it was what could not be written |
| AuthUsers.LockedOutExactly | go/auth/auth.go:490-526 | locked out means that no password rotates the keys; otherwise one does when nothing fails |
| AuthUsers.LockedOutForGood | go/auth/auth.go:490-571 | in every continuation that does not delete the user, every rotation then fails, whatever the password |
| AuthUsers.LegacyLoginKeepsPasswords | go/auth/auth.go:463-481 | the transparent move from `.lthn` to `.hash`, done or failed, changes nobody's password |
| AuthUsers.AcceptsKept | go/auth/auth.go:176-611 | no operation but a completed rotation or a deletion changes the password that lets a user in |
| AuthUsers.LoginExactly | go/auth/auth.go:434-482 | in every run since the password was set, a login succeeds if and only if it gives that password and the user is not revoked |
| AuthUsers.DeletedAt | go/auth/auth.go:402-412 | of artifacts deleted in order, one goes if and only if none up to it is stuck |
| AuthUsers.ArtifactsLeft | go/auth/auth.go:390-420 | which of the six artifacts a deletion leaves, for every combination that cannot be deleted |
| AuthUsers.AfterDeletion | go/auth/auth.go:390-420 | a deletion that succeeds leaves no file and no session of the user, and its password is unknown |
| AuthUsers.FailedDeletion | go/auth/auth.go:402-417 | a deletion that fails ends no session; when the user can be deleted again, and when and with which password the user can still log in |
| AuthExact.RegistersExactly | go/auth/auth.go:176-249 | a registration succeeds if and only if the user is not there and all five files can be written; no other file is touched |
| AuthExact.RotatesExactly | go/auth/auth.go:490-571 | a rotation succeeds if and only if the user is there, key and metadata can be read and belong together, the old password opens the key or it has none, and all four files can be written; no other file is touched |
| AuthExact.DeletesExactly | go/auth/auth.go:390-420 | a deletion succeeds if and only if the user is there, is not `server`, and no artifact is stuck; no other user's file is touched |
| AuthExact.RevokesExactly | go/auth/auth.go:577-611 | a revocation succeeds if and only if the user is there, the password fits and the record can be written; else nothing changes |
| AuthExact.RevokingExactly | go/auth/auth.go:577-611 | in every run since the password was set, exactly that password revokes |
| AuthExact.HandedOutIsGranted | go/auth/auth.go:722-741 | the session that a login, a response or a refresh returns is the one granted from then on, with its token, user and expiry |
| AuthExact.HandedOutValidates | go/auth/auth.go:333-349 | whoever shows the token of a returned session gets that very session back until it expires, unless it was renewed or ended in between |
| AuthDriver.RunCalls | go/auth/auth.go:176-741 | the object itself goes through the states and answers of the run statements |
| AuthDriver.RunValidates | go/auth/auth.go:333-349 | a fresh authenticator accepts tokens exactly as the run so far grants them |
| Challenges.MoveKeepsPlaces | go/auth/auth.go:287-310 | a challenge is pending, taken, superseded or used up, never two of these, whatever thread moves |
| Challenges.ChallengesAreSingleUse | go/auth/auth.go:281-329 | over any interleaving, also with key changes, successful responses answer distinct challenges, each created earlier for that user, unexpired, never superseded, whose nonce was signed with a key published for that user |
| Challenges.StoreIsCreateChallenge | go/auth/auth.go:281-291 | storing is the last step of the specified `CreateChallenge`, which leaves other users' challenges alone |
| Challenges.TakeThenCheckIsValidateResponse | go/auth/auth.go:298-329 | without interleaving, the two halves are the `ValidateResponse` of the sequential specification |

## Left out

- Directory resolution failures, directory permissions, sub-directories and non-files among the entries.
- A write that stops half-way and leaves a torn file; only the get-or-create race models one.
- The order of the locks, deadlock and progress: each locked section is one step.
- Two live services over one directory at the same time; a new one begins where the last one ended.
- KeyRuns.NoSecretLost: does not claim that a migration completes after a failure past Step 3d, because the code then refuses by design and leaves it to the operator.
- KeyOrder.OrderDoesNotMatter: does not cover a tier-1 get or put while `.master` waits, because it is then false (`KeyOrder.EarlyUseForestalls`), nor caller writes during the migration, other than getting or creating a single instance that is there.
- The stability of a single-instance key across a stop inside Step 0b: the service may generate a new one and later reseal the legacy one over it.
- KeyMaps.AuditReplay: needs a recorder whose failure code is never blank, and no legacy migration in the run, because Step 3f adds tier-1 refs without rows.
- The tier, timestamp and scope of audit rows, and an absent recorder or bus.
- Branches for an unwrapped master of the wrong length: a file of 72 bytes cannot hold one.
- Files are named by their readings in the service; `KeyFiles.NameOfReading` and `KeyFiles.ReadingOfName` are why nothing is lost by it.
- The two deletions, and what the two puts share, are one method each with the tier as a parameter.
- KeyRace.RacersAgree: assumes that masters are available, that nothing else writes the ref, and that a read under the lock of a whole blob succeeds (`KeyRace.AgreeExactly` says what happens otherwise).
- Hexadecimal encoding; bit operators, written as division and remainder on bounded numbers.
- The panic of the Argon2id library on zero time or parallelism, and the constant time of the comparison.
- The second, unused parameter parser at go/crypt/hash.go:74-118, and bcrypt.
- The key derivation, the ciphers, OpenPGP, RSA and the LTHN hash themselves.
- The authenticator reads the clock once per call; failures of randomness, of hashing, of key generation and of creating the users directory are not modelled; nor are the courier files, which wrap two of its operations.
- AuthRuns.ValidExactly: is about sequential runs, because `RefreshSession` reads and then writes the store without a lock around both.
- Failures of the SQLite backend, and closing it.
- `go/crypt/crypt.go`, `go/crypt/symmetric.go`, `go/trust`, the command line, actions and bindings: easy members only, or input and output.
