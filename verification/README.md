# A verified model of Jaybase

Jaybase keeps an append-only history of events. Every event is a content-addressed node that names its parent, a root
ref names the newest node, and an HTTP API in front of the store adds credentials, a catalog of event types and rate
limits. This project models the parts whose correctness depends on several functions, or on every possible run, and
proves what the repository promises about them.

`dafny verify dfyconfig.toml` checks everything.

## How it is built

| files | what they hold |
|---|---|
| `Outcomes`, `Text`, `Records` | results and error codes, string trimming, nodes and append options |
| `Chains` | reading a node, and walking parent links from a root |
| `Disks`, `Appends`, `Runs` | the crash model of a store directory, one append with every fault, and runs of opens, appends, closes and crashes |
| `Guarantees` | crash safety, exactly-once appends, no return of a root, index equals rebuild |
| `Durability` | what a client can tell from its answers: when appends, replayed answers and existing node files are safe, and when a store opens again |
| `Answers` | which appends succeed, how the others are answered, and what a committed node records |
| `Indexes`, `Paging`, `Payloads`, `Refs` | the in-memory indexes, event pages and scans, payload batches, named refs |
| `Stores` | the `Store` class: fields updated in place, each method proved against the functions above |
| `Migration` | rewriting a history under a new key |
| `WriterLock` | the fcntl writer lock as interleaved steps, and as objects updated in place |
| `Limiter`, `Patterns`, `Catalogs`, `Allows`, `Auth` | the server's limiter, catalog, write capabilities and credential file |
| `Server`, `Publishing`, `Handlers` | the append and event handlers, their answers in terms of the request, and what they guarantee when other requests run between their steps |

A class method says in its `ensures` what the new state is, as a function of the old one; the theorems are about those
functions, so they hold for the methods. For the main operations there are also theorems that never mention those
functions: they say in terms of the arguments when a call succeeds, what it answers otherwise, and what it leaves behind
(`Answers`, `Publishing`, and most members whose names end in `Exactly`).

**Disk.** A `Disk` separates what a reader sees from what a crash can take back: `synced` names the node entries that a
directory sync fixed, and `settled` holds every value that `refs/root` may have after a crash. `Fault` names each place
where an append can stop. An append interrupted by a crash leaves the disk of one of these faults, after which the crash
drops any unsynced entries and leaves any settled root.

**Hash.** The content hash is an arbitrary function. Nothing is assumed about it: theorems that need different contents
to have different hashes say "or here are two contents that collide". Encryption is assumed to be undone by decryption
under the same key, where a theorem says so.

**Concurrency.** Every public call of the store holds the store's mutex, so concurrent writers are appends in some order.
A handler makes several such calls, and the theorems in `Handlers` allow any appends between them. Payload reads happen
outside the lock, and each read may see a different, later directory.

## What the code does that its documentation does not say

- A failed directory sync after the rename of `refs/root` leaves the disk ahead of the store. The store then refuses
  appends until it is opened again. Once it is open again, a crash can take back more than the interrupted append, and an
  answer already given as `replayed` can be lost (`ReplayMayBeLost`); docs/architecture.md:43-46 promises the original
  node without a condition. A client can tell from its answers: an interrupted append loses at most itself exactly when
  the last append that moved `refs/root` was answered with success or a crash has come since (`InterruptedAppendExactly`,
  `HistorySurvivesCrashExactly`), and a replayed answer is durable exactly when a new append at or after its event was
  answered with success or a crash has left it (`ReplaySurvivesExactly`).
- An append whose node file already exists neither writes nor syncs it. Its root is safe exactly when that file is synced
  and holds this very node (`NewRootIsSafeExactly`), which a fresh nonce gives; `UnsyncedNodeFileBreaksSafety` is a run
  without it.
- `Append` and `AppendAt` accept a request ID that is already taken. Once such an append has moved `refs/root`, the store
  does not open again, whether the append was answered with success or failed at the directory sync
  (`TakenIDBlocksReopening`). After any append it opens exactly when the request IDs before it were unique and the append
  left `refs/root` alone, with a head that the key opens, or brought an ID that is empty or unused (`ReopensExactly`).
  When callers set only such IDs, it opens after every run and every crash (`RunReopensExactly`).
- `start + limit` in `eventPageAt` is not checked: the page panics exactly when the sum exceeds the largest int
  (`PagePanicsExactlyOnOverflow`). The scans assume that it does not.
- A walk also ends at a node whose only parent is the empty string (`IsEnd`).
- A wildcard pattern admits a type that trimming reduces to the bare namespace and dot. The stored type stays in the
  namespace (`ScopedTypeStaysInNamespace`) but need not match the pattern (`StoredTypeMatchesExactly`).
- A `commands` or `refs` list that is present but empty is dropped when the credential file is written again, for every
  record in the file, and the rights become wider (`WritingKeepsGrantsExactly`, `DroppedListWidensRights`).
- The limiter takes Go's zero time for "no window yet", so its bound needs a clock past it (`BurstIsLimitedExactly`).
- When the catalog file is replaced but its directory sync fails, the file is ahead of the catalog in memory, and loading
  it shows another view (`UnsyncedInstallReloadsDifferently`). It loads to the view in memory exactly when the last
  action that replaced or loaded it was a restart, was synced, or asked for what was already there
  (`CatalogRefinesMap`).
- A migrated node records the same event exactly when the original is `Faithful`. A leftover temporary file in
  `refs/named` is taken for a ref.

## Model

| member | source | states |
|---|---|---|
| Text.TrimDropsSpaces | storage.go:403-405 | trimming removes white space at both ends and nothing else, as every stored text relies on |
| Text.SpacesExactly | storage.go:403-405 | white space is what Unicode says it is, by code point |
| Records.PayloadsReadBack | storage.go:762-770 | a sealed payload reads back as what was sealed, a plain one as itself, and a node without either not at all |
| Records.HashesExactly | storage.go:847-856 | a hash is "sha256:" and 64 hexadecimal digits of either case |
| Chains.WalkSucceedsExactlyOnChains | storage.go:534-562 | on any directory, cyclic or corrupt, the walk succeeds exactly when verified single-parent nodes lead from the root to a parentless end without repetition; it returns that chain, oldest first |
| Chains.RootDeterminesHistory | storage.go:481-562 | two disks on which the same root walks give the same history, or two contents with one hash |
| Chains.NodesFromRoot | storage.go:534-562 | the loop with its seen set and in-place reversal returns exactly the specified walk |
| Chains.GrowthKeepsLinks | storage.go:924-951 | adding node files without replacing any keeps every chain readable and linked |
| Disks.Volume.AtomicCreateNode | storage.go:924-951 | a node entry is linked without overwriting and is durable only after the directory sync |
| Disks.Volume.AtomicWriteRoot | storage.go:895-922 | refs/root is renamed over and, until the directory sync, may be old or new after a crash |
| Appends.RequestsKnowsEveryID | storage.go:223-239 | the request index holds exactly the non-empty request IDs of the history |
| Appends.RequestsFindsItsNode | storage.go:223-239 | with unique request IDs, the index returns each node's own hash and request hash |
| Appends.NewHashOrCollision | storage.go:432-452 | an append's hash is new to the history, because equal content would force an equal parent |
| Runs.AppendKeepsInv | storage.go:402-474 | one append with any fault keeps the crash invariant, and the chain stays or grows by exactly its node |
| Runs.RenamingKeepsInv | storage.go:464-473 | moving refs/root keeps the invariant with and without the directory sync; with it no crash can go back |
| Runs.StepKeepsInv | storage.go:402-474 | every open, close, append and crash keeps the invariant, and keeps request IDs unique when those that callers set are empty or unused |
| Runs.RunKeepsInv | storage.go:153-239 | the invariant holds in every reachable state, and nothing committed before the run's floor is ever lost |
| Runs.EveryNodeFits | storage.go:402-474 | what every node that a run writes satisfies, every node of its history satisfies, whatever faults and crashes there were |
| Guarantees.CrashSafety | storage.go:895-951 | in every run refs/root is empty or names a whole verified chain on disk, and after any crash the walk gives a prefix of it |
| Durability.InterruptedAppendExactly | storage.go:464-466 | after any run, an interrupted append leaves the history before it or that history and its one node, whatever fault and crash, exactly when the last append that moved refs/root was answered with success or a crash has come since |
| Durability.HistorySurvivesCrashExactly | storage.go:918-921 | after any run, every crash keeps the whole history exactly under that condition on the answers |
| Durability.ReplaySurvivesExactly | storage.go:388-394 | after any run, every crash keeps the event of a replayed answer exactly when a new append at or after its position was answered with success, or a crash left it |
| Durability.LedgerIsAccurate | storage.go:464-474 | in every run the answers tell how much of the history no crash can take, and some crash can take the rest |
| Guarantees.ReplayMayBeLost | storage.go:379-400 | a run in which an answer given as replayed is lost in a crash |
| Durability.NewRootIsSafeExactly | storage.go:453-463 | an append that moves refs/root leaves a root whose whole history every crash keeps exactly when its node file was absent, or synced and holding this very node |
| Guarantees.UnsyncedNodeFileBreaksSafety | storage.go:453-463 | a run in which the existing-file branch breaks crash safety |
| Guarantees.CommitFixesTheChain | storage.go:464-474 | once an append committed, no later crash goes below it |
| Guarantees.RootNeverReturns | storage.go:409-422 | after a committed append refs/root never again has its earlier value, in any run |
| Guarantees.ExpectedRootIsConsumedOnce | storage.go:418-419 | among any interleaved writers each expected root is consumed by at most one new append of the whole run |
| Guarantees.ExactlyOnce | storage.go:379-400 | after a committed request, in every later state the same retry gets the original hash, another content conflicts, neither changes anything, and no request ID occurs twice |
| Guarantees.IndexEqualsRebuild | storage.go:213-239 | after every committed append the index is what a rebuild from disk gives, and opening again gives that index |
| Durability.RunReopensExactly | storage.go:185-239 | after any run with one key, crashes and failed appends included, the store opens exactly when no request ID occurs twice in the history at refs/root, and shows that history; with IDs that are empty or unused it always opens |
| Durability.ReopensExactly | storage.go:185-239 | after any append, whatever its fault and answer, the store opens exactly when the request IDs before it were unique and it left refs/root alone with a head that the key opens, or moved refs/root with an ID that is empty or unused |
| Durability.TakenIDBlocksReopening | storage.go:362-374 | two appends with one request ID, the second committed or failed at the directory sync, after which the store does not open |
| Guarantees.FailsClosed | storage.go:413-415 | with refs/root ahead of the index, no sequence of appends commits or changes anything |
| Guarantees.SessionOnlyGrows | storage.go:464-473 | while a store stays open its index and its node files only grow |
| Answers.AppendSucceedsExactly | storage.go:402-474 | without a fault an append succeeds exactly when it has a type and a payload, disk and index agree, and it expects nothing or the current root |
| Answers.OnceSucceedsExactly | storage.go:379-400 | a new request succeeds under the same conditions exactly when it has an ID and a hash and no event carries that ID |
| Answers.WrongRootIsRefused | storage.go:413-420 | another expected root is a conflict, a disk that differs from the index an integrity error, and neither changes anything |
| Answers.CommittedNode | storage.go:421-452 | a committed append adds one node that records the caller's trimmed type, entity and command, its actor and role, the time to the microsecond, the parent, the request, and a payload that opens to the caller's |
| Indexes.PositionsAreOccurrences | storage.go:223-228 | the position index knows exactly the hashes of the history, at a position where they occur |
| Indexes.PositionsPersist | storage.go:467-468 | a hash keeps its position when the history grows |
| Indexes.IndexIsReachability | storage.go:298-317 | membership in the index is reachability by parent links from the current root |
| Paging.AuditIsTheWalk | storage.go:564-583 | reading an intact history by its index gives the walk from its tip |
| Paging.StitchedReplay | storage.go:606-661 | bounded pages after any checkpoint, with any limits and any growth between calls, give exactly the events through the first page's root, once, in order and with everything but their payloads; enough calls finish the scan |
| Paging.BoundedScanIsExact | storage.go:635-661 | the same from any position, counted call by call |
| Paging.UnboundedReplay | docs/api.md:123-135 | unbounded pages stopped at the captured root give the same sequence, from any checkpoint and also when caught up |
| Paging.PagePanicsExactlyOnOverflow | storage.go:643-648 | a page with a valid cursor, with or without a root bound, fails exactly when start + limit overflows |
| Paging.PageShowsHistory | storage.go:606-661 | a page shows exactly the next events after its cursor up to its limit and bound, field by field without payloads or as whole nodes, names its root, and says that there is more exactly when it stops before the bound |
| Paging.PageRefusals | storage.go:607-637 | how a bad limit, a disk that differs from the index, a bound that is no hash or unknown, and an unknown cursor are answered |
| Paging.CursorBeyondBound | storage.go:636-638 | a cursor beyond the bound is a conflict |
| Payloads.BatchLinearizesAtSelection | storage.go:685-718 | a batch read after the lock is released gives what an atomic read at selection time gives |
| Payloads.BatchFitsExactly | storage.go:700-718 | a batch whose nodes authenticate is answered in request order exactly when its total size is within the limit |
| Payloads.SelectsExactly | storage.go:720-754 | a selection meets no objection exactly when the IDs are different hashes of events up to the observed root |
| Payloads.AnsweredBatchShowsHistory | storage.go:685-718 | an answered batch holds in request order the payload of each requested event, none beyond the observed root |
| Payloads.UnknownRootConflicts | storage.go:730-733 | an observed root that is not in the history is a conflict |
| Payloads.BatchRefusals | storage.go:685-695 | a batch without IDs or with a root that is no hash is a validation error, and one on a disk that differs from the index an integrity error |
| Refs.RefUpdateIsCompareAndSwap | storage.go:781-820 | a ref update happens exactly when the ref holds the expected value and the target reads back, and changes that ref alone |
| Refs.RefNamesExactly | storage.go:839-845 | a ref name is not empty after trimming, and has no slash and no two dots in a row |
| Stores.Store.RebuildIndexes | storage.go:213-239 | the loop fails exactly when the walk fails or a request ID repeats; otherwise the four fields shadow the history on disk |
| Stores.Store.OpenStore | storage.go:185-211 | opening gives the specified history, or the specified error when the key does not open the head |
| Stores.Store.Append | storage.go:402-474 | the method leaves the disk, the four indexes and the answer of the specified append |
| Stores.Store.IndexNode | storage.go:467-472 | the four indexes take up the committed node and agree with the longer history |
| Stores.Store.AppendIdempotent | storage.go:379-400 | the method answers from the request index or appends, as specified |
| Stores.Store.ContainsRoot | storage.go:298-317 | the answer is index membership and, on an intact disk, reachability by parent links |
| Stores.Store.AuditLog | storage.go:564-583 | on an intact disk the answer is the walk from the current root |
| Stores.Store.EventPageAt | storage.go:606-661 | the method returns the specified page, including each error and the overflow panic |
| Stores.Store.SelectPayloadEventIDs | storage.go:720-754 | the loop with its seen set returns the request order, or the first objection |
| Stores.Store.EventPayloadsWithReader | storage.go:685-718 | the method returns the specified batch, and with a limit its running total never overflows int64 |
| Stores.Store.WriteNamedRefAt | storage.go:781-820 | the method performs the specified compare-and-swap |
| Migration.MigrateDataKey | migration.go:32-151 | without write faults it succeeds exactly when the directory can be created, the key decodes, disk and index agree, every node can be carried and every ref translated; then every node has been rewritten in order; the source is unchanged; the cleanup flags leave the destination closed, in place when a result is returned, and removed otherwise unless removing fails |
| Migration.MigrateWrittenStore | migration.go:28-30 | migrating a store that any run of this code wrote, without write faults, succeeds exactly when the directory can be created, disk and index agree, and the refs have valid, differently trimmed names and targets in the history; it gives the same event at every position, a hash map that follows positions and parent links, and, unless two contents collide, a one-to-one map and a store that opens with the new key |
| Migration.WrittenHistoryIsOwn | storage.go:402-474 | every history that runs of this code write with one key, non-zero times and compact payloads is faithful throughout and starts without a parent |
| Migration.CarryHistory | migration.go:94-116 | the history loop succeeds exactly when every node reads back, opens and has a type, and rewrites each position on top of the one before it |
| Migration.TranslateRefs | migration.go:118-138 | the ref loop succeeds exactly when names are valid and stay different when trimmed and targets are known, and translates every ref through the hash map, adding none |
| Migration.MigrationIsIsomorphism | migration.go:94-138 | same length; each position is the same event exactly when the source node is faithful; the hash map is one to one and commutes with parent links; the new history is linked and durable; or two contents collide |
| Migration.CarriedIsSameExactly | migration.go:104-108 | type, entity, command, actor, role, time, request ID, request hash and payload agree exactly for faithful nodes |
| Migration.WrittenNodesAreFaithfulExactly | storage.go:424-445 | a node written by this code is faithful exactly when its time is not the zero time and its payload was compact |
| Migration.MigratedStoreOpens | migration.go:86-92 | the migrated store opens with its new key and shows the new history |
| Migration.TrimmedRefsTranslateExactly | migration.go:122-138 | with trimmed names the new refs are exactly the old ones with translated targets |
| WriterLock.AtMostOneHolder | lock_fcntl.go:24-88 | over any interleaving of any threads and processes at most one Store holds a directory, and its process still owns the kernel lock |
| WriterLock.StepKeepsInv | lock_fcntl.go:31-69 | every step keeps reservations owned by one attempt each, and kernel locks with their holders |
| WriterLock.NoReservationLeaks | lock_fcntl.go:38-45 | when every attempt on a path has ended, on whatever error path, any process can reserve it again |
| WriterLock.DeletingFirstBreaksExclusion | lock_fcntl.go:73-88 | with the map entry deleted before the file is closed, two Stores can hold one directory |
| WriterLock.LockTable.AcquireStoreLock | lock_fcntl.go:24-71 | the method takes the modelled steps in the source's order, and holds the directory exactly when the path is free in the process, no other process owns it and the system lets the file be opened, locked and written; otherwise it leaves no trace in the reservations |
| WriterLock.LockTable.Close | lock_fcntl.go:73-88 | the method unlocks, closes and only then deletes, and leaves no lock and no reservation |
| Limiter.FixedWindowLimiter.Allow | server/limiter.go:31-52 | the method answers, counts and prunes as specified |
| Limiter.PruningIsInvisible | server/limiter.go:43-50 | with a monotone clock the limiter answers exactly as one that never deletes an entry |
| Limiter.LimiterBound | server/limiter.go:36-51 | any half-open interval of k windows contains at most (k + 1) times limit accepted calls of a key |
| Limiter.RefusedOnlyAtLimit | server/limiter.go:36-51 | a call is refused only when at least limit calls of its key were accepted within the window that ends with it |
| Limiter.BurstIsLimitedExactly | server/limiter.go:38-41 | a burst is limited exactly when it does not happen at Go's zero time |
| Patterns.ExactTypesAreTrimmed | server/allow.go:15-15 | an exact type has no white space that storing could trim |
| Patterns.ExactTypesSplit | server/allow.go:15-15 | exact types are a namespace, a dot and a name |
| Patterns.WildTypesSplit | server/allow.go:16-16 | wildcards are a namespace, a dot and a star |
| Patterns.PatternsAdmitExactly | server/allow.go:135-141 | an exact pattern admits itself, and a wildcard every type that goes on behind its dot |
| Patterns.CommandsExactly | server/allow.go:17-17 | commands are 1 to 64 characters of their classes, letter by letter |
| Patterns.RefPatternsExactly | server/allow.go:116-125 | ref patterns are a one-element name without a star, or that and a star |
| Catalogs.NormalizeEntry | server/catalog.go:97-120 | the loop accepts exactly entries whose trimmed form is normal, and returns that form |
| Catalogs.DecodeCatalog | server/catalog.go:66-95 | the loop accepts exactly documents of at most 256 normal entries with different types, and returns them trimmed |
| Catalogs.DecodingStoredIsIdentity | server/catalog.go:66-120 | decoding what the catalog stores gives it back unchanged |
| Catalogs.InstallUpdatesSchema | server/catalog.go:131-160 | installing changes the map at one type and keeps the stored form |
| Catalogs.RemoveUpdatesSchema | server/catalog.go:164-188 | removing takes away one type and keeps the stored form |
| Catalogs.Catalog.Install | server/catalog.go:131-160 | the method leaves the specified memory and file, for every write fault |
| Catalogs.Catalog.Remove | server/catalog.go:164-188 | the method leaves the specified memory and file, or answers not found |
| Catalogs.Catalog.SetEnforced | server/catalog.go:193-201 | the switch changes only after the write |
| Catalogs.Catalog.Authorize | server/catalog.go:203-221 | the search is lookup in the map when the catalog is enforced |
| Catalogs.CatalogRefinesMap | server/catalog.go:44-221 | loaded from any file that decodes or from none, over any run of changes and restarts with any write faults, memory and file are those of the abstract catalog within its limits, and the file loads to memory exactly when the last action that replaced or loaded it was a restart, was synced, or asked for what was already there |
| Catalogs.EnforcementStays | server/catalog.go:131-188 | installing, removing and restarting never clear enforcement |
| Catalogs.InstallsExactly | server/catalog.go:97-150 | an installation goes on to write exactly with a namespaced type, 1 to 32 different valid commands, and room among 256 types or the type there already |
| Catalogs.ChangesSay | server/catalog.go:131-201 | an installation sets one type and enforces, a removal takes one type away, the switch is set, and nothing else changes |
| Catalogs.OtherChangesWrite | server/catalog.go:164-201 | a removal goes on to write exactly when the type is there, and the switch always does |
| Catalogs.Catalog.Load | server/catalog.go:44-64 | loading succeeds exactly on a missing or decodable file, and gives the view of that file |
| Catalogs.UnsyncedInstallReloadsDifferently | server/catalog.go:253-269 | an installation after which loading the file shows another view |
| Allows.ValidateAllow | server/allow.go:40-93 | the in-place loops accept exactly valid blocks and leave every element trimmed |
| Allows.ValidateTypes | server/allow.go:48-67 | the type loop accepts exactly different valid patterns of one namespace, and trims them in place |
| Allows.ValidTypesExactly | server/allow.go:46-67 | the types of a valid block are different patterns of one namespace |
| Allows.AuthorizeAppend | server/allow.go:151-174 | the searches answer whether some pattern admits the type and the command list, if present, has the command |
| Allows.AllowsExactly | server/allow.go:151-174 | a credential admits everything without a block, and otherwise a type that a pattern admits with a command of the list, if there is one |
| Allows.ScopedTypeStaysInNamespace | server/allow.go:135-174 | the stored, trimmed type lies in the namespace that all patterns share |
| Allows.StoredTypeMatchesExactly | server/allow.go:135-141 | the stored type matches the admitting wildcard exactly when trimming leaves something behind the dot |
| Allows.StoredTypeMayNotMatch | server/allow.go:135-141 | a concrete type for which it does not |
| Auth.CredentialFile.LoadAuthenticator | server/auth.go:87-148 | loading succeeds exactly on non-empty files of valid records with different IDs and digests, and returns their credentials |
| Auth.FoldComparesDigests | server/auth.go:220-223 | comparing hexadecimal texts without case is comparing the digests they encode |
| Auth.CredentialFile.AddToken | server/auth.go:188-233 | the method writes the file exactly when the addition is admissible, and then the old records and the new one |
| Auth.CredentialFile.RevokeToken | server/auth.go:236-270 | the method writes the file exactly when the ID exists and an active record remains |
| Auth.Authenticate | server/auth.go:164-183 | the loop over all credentials is lookup of the token's digest in what the file grants |
| Auth.GrantedExactly | server/auth.go:164-183 | a token of 32 to 512 bytes authenticates exactly when a record has its digest and no expiry, or one after now, and gets that record's credential |
| Auth.CredentialSays | server/auth.go:101-142 | a credential has the record's trimmed ID, named role, trimmed capability block, digest and expiry |
| Auth.RoleNames | server/auth.go:43-56 | the four role names, in any case and with white space around them |
| Auth.LowerByLetter | server/auth.go:43-56 | letters lose their case one by one |
| Auth.CredentialIDsExactly | server/auth.go:150-162 | credential IDs are 1 to 128 letters, digits and marks |
| Auth.GrantsKnows | server/auth.go:124-142 | the file grants exactly the digests of its records, each its own credential |
| Auth.GrantedIsValid | server/auth.go:102-142 | whoever authenticates has a valid ID, a valid capability block or none, and has not expired |
| Auth.AddingKeepsLoadable | server/auth.go:188-233 | after an addition the file loads and grants exactly the requested credential more, with every empty list dropped |
| Auth.RevokingKeepsLoadable | server/auth.go:236-270 | after a revocation the file loads, an active credential remains, and exactly that ID's grants are gone |
| Auth.EditsKeepGrants | server/auth.go:188-270 | over any run of additions and revocations with any write faults the file stays loadable, and what it grants is what the same edits make of the grants alone |
| Auth.AddableExactly | server/auth.go:188-223 | an addition is admitted exactly when its ID, role and block are valid, its token has 32 to 512 bytes, it does not expire or only after now, no granted credential has its ID and its digest is not granted |
| Auth.RevocableExactly | server/auth.go:241-265 | a revocation is admitted exactly when a granted credential has that ID and one that does not expire, or only after now, remains |
| Auth.WrittenGrantsExactly | server/allow.go:24-28 | rewriting leaves every grant alone exactly when none has a list that is present but empty, and leaves none behind |
| Auth.WritingKeepsRightsExactly | server/allow.go:24-28 | writing a record again keeps its ID and digest, and its rights exactly when no list is present but empty |
| Auth.WritingKeepsGrantsExactly | server/auth.go:292-329 | writing the file again keeps what it grants exactly when no list in it is present but empty |
| Auth.DroppedListWidensRights | server/allow.go:24-28 | a credential that may append nothing may append every command of its types once the file is written again |
| Server.API.MinimumRootPresent | server/server.go:570-575 | the answer is membership of the minimum root in the index, an error when disk and index disagree, and true without a minimum |
| Server.API.Authorize | server/catalog_http.go:73-87 | a request passes exactly when its credential admits it and the catalog, if any, authorizes it |
| Server.API.AppendEvent | server/server.go:167-225 | the handler's checks and store calls give the specified answer and leave the specified store |
| Server.API.PostEvent | server/server.go:559-568 | without the minimum root nothing happens; with it the request is the append handler's |
| Server.API.GetEvents | server/server.go:242-313 | the loops and the payload map give the specified page, each event with its own payload, and the last check bounds the encoded answer |
| Server.BatchHasOrder | server/server.go:265-281 | an answered batch has each requested event once, in order, so looking payloads up by hash loses none |
| Publishing.PublishesExactly | server/server.go:167-224 | without a write fault a request appends a new event exactly when its key, payload and permission are in order, it has a type, it expects the current root, disk and index agree, and no event carries its ID |
| Publishing.PublishedEvent | server/server.go:186-224 | a new event extends the root that the request expected, is the answer's hash and root, and records the request: type, entity, command, credential, role, time, request ID, digest and payload |
| Publishing.StaleRootConflicts | server/server.go:201-214 | a new, well-formed request that expects another root is a conflict and changes nothing |
| Publishing.MalformedRequestChangesNothing | server/server.go:172-198 | a request that is incomplete, not permitted or not JSON gets the corresponding error and changes nothing |
| Publishing.ReplayedAnswer | server/server.go:199-224 | a replayed answer names the event with the request's ID and digest and the current root, and changes nothing |
| Publishing.ReusedKeyConflicts | server/server.go:199-214 | a request whose ID an event carries is replayed when the digest agrees and is a conflict otherwise |
| Publishing.MinimumPresentExactly | server/server.go:570-575 | the minimum root is present exactly when there is none, or disk and index agree and parent links from the current root lead to it |
| Handlers.EventsShowHistory | server/server.go:242-313 | the events answer shows exactly the next events after the cursor, up to the bound and the limit with its defaults, and says that there is more exactly when it stops before the bound |
| Handlers.CheckThenActIsSound | server/server.go:559-575 | every new event extends a history that contains the minimum root, whatever happens between the check and the append |
| Handlers.AnsweredRootDescends | server/server.go:201-224 | the root in an append's answer is the answered event or descends from it, whatever appends come between the two reads |
| Handlers.PagePayloadsAreSelected | server/server.go:258-281 | an include_payload page never fails its selection with not found, conflict or duplicate |
| Handlers.PageComesWithItsPayloads | server/server.go:242-313 | when the page's events authenticate, each comes with the payload that its own node opens to, exactly when the payloads and the encoded answer are within the limit, whatever appends come between the steps and between the reads; an append that leaves refs/root ahead of the index makes the answer an integrity error |
| Handlers.AppendedEventIsPermitted | server/server.go:186-210 | the event that a permitted request appends carries the credential's ID, lies in its namespace, and under an enforced catalog is exactly an installed pair |
| Handlers.EnforcedPairsAreExact | server/catalog.go:203-221 | under an enforced catalog exactly the installed pairs pass, and trimming leaves them alone; without enforcement every pair passes |
| Handlers.RequestTextsAreDistinct | server/server.go:199-199 | request texts coincide exactly for the same credential and trimmed key |
| Handlers.RetriedRequestIsAnsweredOnce | server/server.go:199-210 | after a committed request the same credential and key get the original event, or a conflict when the request digest differs, and nothing changes |
| Handlers.ReplayIsOwnEvent | server/server.go:199-210 | in a run of API requests a replayed answer names an event of the caller's own credential with an equal request digest, or the text digest collides |
| Handlers.EventsAreSigned | server/server.go:199-210 | in such a run every event of the history carries a request ID of its own actor |
| Handlers.RequestsAreFromAPI | server/server.go:199-210 | what the append handler asks of the store is a step of such a run |
| Handlers.EventsStayInScope | server/allow.go:135-174 | in every run whose appends were admitted by their actors' credentials, every event of the history lies in the namespace that its actor's patterns share |
| Handlers.RequestsAreWithinScope | server/server.go:186-210 | what the append handler asks of the store was admitted by the credential of its actor |

## Left out

- SHA-256, AES-GCM, JSON, base64 and hexadecimal encoding of nodes and keys: the hash, sealing, opening and payload compaction are parameters, and records stand for encoded bytes, so an absent and an empty parent list are not told apart.
- Strings are sequences of Unicode characters, as `json.Marshal` makes them; lengths of keys and names count characters, which for the ASCII names that pass validation are bytes.
- The file system beyond create, link, rename, sync and crash: permissions, symbolic links, temporary-file names, directory creation, and errors of reading files outside an append.
- Durability of named refs: a crash may leave any refs, because the code promises only that one rename happens or does not.
- Key files and lock files that `openStore` creates before it builds the index (storage.go:153-184).
- `VerifyHead`, `VerifyAll`, snapshots and their retention: reads that follow from index and walk, or archive input and output.
- Stores.Store.EventPayloadsWithReader: an unbounded call's running byte total wraps around, and nothing reads it.
- Migration.MigrateDataKey: the comparison of the paths and the refusal of a destination that exists are reduced to whether the directory can be created; ref entries that are not regular files are not modelled.
- Migration.MigrationIsIsomorphism: takes the first node to have no parents rather than one empty parent; Migration.WrittenHistoryIsOwn proves that of histories this code writes.
- Auth.CredentialFile.LoadAuthenticator: validates capability blocks by their specification; the trimming in place is in Allows.ValidateAllow. Reading and decoding the file are not modelled.
- Handlers.EventsStayInScope: a credential ID keeps one capability block over the run.
- Limiter.FixedWindowLimiter.Allow: the call counter does not overflow.
- WriterLock.AtMostOneHolder: speaks of the fcntl lock only; lock_unix.go and lock_other.go rest on a single kernel or file-system primitive.
- Server.API.GetEvents: headers, status codes, logging and audit fields; the length of the encoded answer is a parameter.
- Server.API.AppendEvent: content type and JSON decoding; authentication, rate limiting and the role check run before it and are proved on their own.
- Ref handlers, catalog handlers, command-line handling, constant-time comparison and the role table: they would add only easy members.
- Use of a Store after `Close`, which the code documents as not allowed.
