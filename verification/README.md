# A verified model of kiwi-ci's stateful core

kiwi-ci is a CI control plane with runners. This project models, in Dafny, the
parts of it whose correctness is hardest to see by reading, and proves what they
promise. `dafny verify dfyconfig.toml` checks everything.

The five parts, and the files that hold them:

1. **Runner cache budget** (`Sums`, `Contexts`, `CacheLedger`,
   `CacheDirectory`, `CacheManager`). Every method of the cache manager runs under one lock, so
   `CacheLedger` describes the manager as a machine of small atomic steps and
   proves conservation and budget safety over all runs; `CacheManager` holds the
   classes with the manager's own fields and shows that each method performs such
   steps. `CacheDirectory` models listing, ranking, eviction and the retention
   pass over a directory any operation of which may fail.
2. **Transactional cache restore** (`CacheRestore`). A workspace and a staging
   tree, a file system whose operations fail at will, the walk over the staging
   tree, the publish loop and its rollback.
3. **Typed repository identity and authorization** (`Strings`, `Base64`, `Host`,
   `HostForms`, `HostValues`, `RepoGrant`, `RepoKeys`, `Rbac`, `Decisions`,
   `DecisionLaws`, `SaveKeys`, `Tokens`). Printers and parsers, host
   canonicalization, grant resolution, the rewriting of grant keys when tokens are
   saved, and the subject index. `HostValues` and `DecisionLaws` say what the
   definitions come to: which host an input stands for, and what every permission
   and every role allows.
4. **Content-addressed publication and its fence** (`Streams`, `BlobStore`,
   `Cas`, `Fence`). Readers stacked on a source that delivers, stalls and fails
   as it likes; the file system store; publication with deduplication and
   healing; the reference-counted fence in every interleaving and the
   publish/collect protocol it protects.
5. **Streaming and watchdogs** (`Multipart`, `RestoreStream`, `Guards`).

Failures are modelled in two ways. Where only the outcome matters, an operation
fails by a nondeterministic choice, so a contract holds for every pattern of
failures; a ghost counter of failures then says what happens when there are none.
A context is cancelled in the same way, at any moment. Where the exact condition matters (`BlobStore`, `Cas`), a record says
which operations fail. The hash is an arbitrary function parameter, clocks are
parameters, bytes are characters below 256, and a Go map is walked in any order.

## Where a promise does not hold as stated

The model follows the code. These are the places where a promise of the code, its
comments or its design fails. Each names the lemma or contract with the exact
condition and, after the dash, the one that shows the failure.

- Rewriting grant keys on save changes a decision for keys that do not survive
  respelling: `SaveKeys.RespellingParses`, `SaveKeys.SavePreservesDecisions` -
  `SaveKeys.SaveLosesARead`, `SaveKeys.SaveLosesACapability`, with two families of
  accepted keys of this kind: owner/name beginning with a tag
  (`SaveKeys.TaggedNameIsUnstable`) and https hosts on the http or ssh port
  (`SaveKeys.SchemedHostIsUnstable`).
- A saved token file is documented to reload always; one key whose respelling the
  strict parser refuses makes Load refuse the whole file:
  `SaveKeys.RespellingAcceptedExactlyWhen`, `Tokens.SavedStoreReloadsExactlyWhen` -
  `Tokens.SavedStoreDoesNotReload`, for the tagged names above and for hosts that
  canonicalizing again makes unusable (`SaveKeys.VanishingHostDoesNotReload`).
- Canonicalizing a host twice is not canonicalizing it once exactly when a host
  name comes with a port that is well known but not the default of its scheme:
  `HostForms.CanonicalTwiceExactlyWhen` - `HostForms.SchemedHostsDrift`. For
  strings outside the four forms of that lemma the condition on scheme, host and
  port is that of `HostForms.CanonicalTwiceForAll` - `HostForms.TwoDotsDrift`.
- The parsers of encoded identities and aliases are documented to reject parts
  with white space; they read them as if CR and LF were not there:
  `RepoGrant.WhiteSpaceAcceptedExactlyWhen` - `RepoGrant.BrokenAliasAccepted`.
- A rejected `AddToken` that would have moved an existing token to another
  subject makes that other subject unresolvable: `Tokens.TokenStore.AddToken` -
  `Tokens.RejectedMoveHidesASubject`.
- `PrincipalBySubject` is documented to detect any conflict put straight into the
  token map; it detects exactly those among the tokens its index lists:
  `Tokens.ResolvedSpeaksForAll` - `Tokens.InjectedConflictIsMissed`.
- Under an inactive policy the cache manager's count goes negative, and retaining
  a reservation under a path that is already pending loses a charge:
  `CacheLedger.LedgerConserved` - `CacheLedger.InactiveCountGoesNegative`,
  `CacheLedger.LostChargeStays`.
- A directory scan skips entries it cannot measure, so a grant decided on such a
  scan can exceed the budget, by at most what the scan missed:
  `CacheLedger.BudgetSafe`, `CacheLedger.BudgetKeptExactlyWhen` -
  `CacheLedger.IncompleteScanExceedsBudget`.
- The retention pass is documented as least-recently-used; an older small entry
  can outlive a newer large one: `CacheDirectory.EvictsOldestExactlyWhen` -
  `CacheDirectory.OldSmallEntryOutlivesNewer`.
- A file system put whose first stat fails over an existing object, and whose
  rename fails too, acknowledges that object unread: `Cas.PutStream` -
  `Cas.CorruptObjectAcknowledged`.
- A failed publication is meant to leave the store as it was; it has stored its
  verified content when only the directory sync behind the rename failed:
  `Cas.PutStream` - `Cas.RejectedAndPublished`.
- A put of unknown digest publishes a failing stream exactly when its one failure
  is reported together with the byte that overflows the memory buffer:
  `Cas.CAS.FailingStreamPublishable` - `Cas.CAS.SwallowedFaultPublishable`.
- A multipart upload completes a source that is longer than declared exactly when
  the source delivers nothing right behind the last declared byte:
  `Multipart.CompletesExactlyWhen` - `Multipart.LongerSourceCompletes`.
- After a lost answer to Complete, an object of the declared size is documented to
  be the completed upload; it can be an older one: `Multipart.Finish` -
  `Multipart.StaleObjectConfirms`.
- The bounded restore reader is documented to latch errors; a failure of the
  source below the bound is not latched: `RestoreStream.VerifyingReadCloser.Read` -
  `RestoreStream.FailureIsForgotten`.

## Model

| member | source | states |
|---|---|---|
| CacheLedger.StepDrift | internal/cache/manager.go:397-515 | each atomic step changes the gap between the ledger and what it should hold by nothing, except a charge overwritten at a pending path and an uncounted reservation |
| CacheLedger.LedgerDrift | internal/cache/manager.go:397-602 | over every run the bytes and the count differ from those of OPEN reservations and pending temps by exactly the overwritten charges and the uncounted reservations |
| CacheLedger.LedgerConserved | internal/cache/manager.go:279-283 | under an active policy the ledger equals the charges and the number of OPEN reservations and pending temps at the end of a run if and only if no retained path was already pending; for inactive policies the exact condition; neither counter is then negative |
| CacheLedger.RetainingTwiceLosesACharge | internal/cache/manager.go:397-439 | the same in every state with two OPEN reservations: the gap is exactly the overwritten charge |
| CacheLedger.LostChargeStays | internal/cache/manager.go:397-439 | from startup, two reservations retained under one path and cleaned leave the first one's charge in the ledger with nobody to return it |
| CacheLedger.InactiveCountGoesNegative | internal/cache/manager.go:534-536 | one reservation handed out and released under an inactive policy leaves the count at -1 |
| CacheLedger.EndsAtMostOnce | internal/cache/manager.go:381-421 | no run publishes, releases or retains one reservation twice, in any combination |
| CacheLedger.GrantIsWithin | internal/cache/manager.go:566-573 | a grant leaves bytes and entries within the caps, up to what its scan could not see, and within the caps themselves if and only if the charge fits beside the whole directory |
| CacheLedger.StepStaysWithin | internal/cache/manager.go:409-515 | publishing, releasing, retaining, cleaning and evicting keep bytes plus inflight and entries plus count within any bound they were within |
| CacheLedger.BudgetSafe | internal/cache/manager.go:68-73 | from the first grant on, in every run from any state, archive bytes plus inflight stay at most MaxBytes and entries plus inflightCount at most MaxEntries when scans are complete; otherwise the excess is at most what the last grant's scan missed |
| CacheLedger.BudgetKeptExactlyWhen | internal/cache/manager.go:68-73 | a run keeps the caps in every state from its first grant on if and only if every charge granted fits beside the whole directory of its moment |
| CacheLedger.IncompleteScanExceedsBudget | internal/cache/retention.go:160-163 | a grant decided on a scan that skipped an entry can exceed MaxBytes |
| CacheDirectory.Disk.List | internal/cache/retention.go:142-167 | the listing is the directory minus the entries that could not be measured; without a fault it is complete |
| CacheDirectory.Disk.Evict | internal/cache/retention.go:177-205 | exactly the re-checked entry goes and is counted, or the directory is unchanged and the failure is counted; an intact entry stays only through a fault |
| CacheDirectory.RankedListing | internal/cache/manager.go:609-616 | ranking keeps the listing and puts colder entries first, ties by key |
| CacheDirectory.RankedByTime | internal/cache/manager.go:609-616 | in the ranking modification times do not decrease, and equal times come in key order |
| CacheDirectory.SortNewestFirst | internal/cache/retention.go:116 | some order of the entries by descending age, whatever happens to ties |
| CacheDirectory.Expire | internal/cache/retention.go:96-112 | removed entries leave the accounting, all others stay in it; nothing unexpired goes; without faults nothing expired is kept |
| CacheDirectory.EvictOverCaps | internal/cache/retention.go:117-137 | every entry left fits the caps together with everything newer that is left, unless it is the newest or could not be removed; without faults exactly the greedy survivors are left |
| CacheDirectory.PruneLocalDir | internal/cache/retention.go:89-138 | the counters are exactly the entries and bytes that left; the accounting never ignores an entry that could not be removed; an undisturbed pass leaves exactly the greedy survivors of the unexpired entries, newest first |
| CacheDirectory.PruneMeetsPolicy | internal/cache/retention.go:22-26 | the survivors meet the byte and entry caps, except that the newest entry always stays |
| CacheDirectory.SurvivorsExactly | internal/cache/retention.go:117-137 | the caps written out: the entry behind the newer ones goes if and only if they are as many as the entry cap, or it exceeds the byte cap beside those of them that are kept |
| CacheDirectory.WithinCapsAllSurvive | internal/cache/retention.go:117-137 | entries that together meet the byte and entry caps all stay |
| CacheDirectory.UnexpiredExactly | internal/cache/retention.go:100 | an entry is unexpired unless there is an age limit and it is older than that |
| CacheDirectory.EvictsOldestExactlyWhen | internal/cache/retention.go:113-137 | the survivors are the newest entries if and only if, once an entry is over a cap, no older one fits into the room left |
| CacheDirectory.OldSmallEntryOutlivesNewer | internal/cache/retention.go:113-137 | a newer entry goes while an older, smaller one stays |
| CacheManager.Reservation.Release | internal/cache/manager.go:409-421 | an OPEN reservation is released once; on any other reservation nothing happens |
| CacheManager.Manager.ReclaimAbandonedTemps | internal/cache/manager.go:229-292 | temps that cannot be removed are charged at their size and pending ones are left alone; after a complete scan every file left is charged; it is incomplete only on a closed manager, after a cancellation or when the directory or a temp could not be read; the counts are the files and bytes that went; the ledger stays as balanced as it was |
| CacheManager.Manager.NewManager | internal/cache/manager.go:100-142 | a manager starts with a balanced ledger, no reservations and every temp file left charged; none starts only when the directory is owned elsewhere or could not be read completely |
| CacheManager.Manager.RetainTempCleanup | internal/cache/manager.go:397-439 | exactly an OPEN reservation of this open manager becomes cleanup debt under the path |
| CacheManager.Manager.RetryTempCleanupLocked | internal/cache/manager.go:461-483 | every file that could be removed returns its charge, one ledger step each; the number returned is their number; without a failure or cancellation no debt is left |
| CacheManager.Manager.RetryTempCleanup | internal/cache/manager.go:445-458 | the same, and nothing on a closed manager |
| CacheManager.Manager.Close | internal/cache/manager.go:181-206 | the manager is closed, success means the lock is released, a failed release can be retried, closing again changes nothing, and a close without failures leaves no debt |
| CacheManager.Manager.Publish | internal/cache/manager.go:496-515 | success retires exactly this manager's OPEN reservation, returns its charge and puts exactly the new archive into the directory; anything else changes nothing; an OPEN reservation of an open manager is refused only through a failure of the callback |
| CacheManager.Manager.Prune | internal/cache/manager.go:643-655 | a retention pass is a run of evictions with the counters and the survivors of the pass over the directory, and none on a closed manager |
| CacheManager.Manager.EvictAnyOldest | internal/cache/manager.go:622-638 | one entry goes, and everything modified before it, or at the same time with a smaller key, refused to go or was not seen; or nothing changes and every visible entry refused to go or the listing failed |
| CacheManager.Manager.Drain | internal/cache/manager.go:561-594 | entries go in ranked order until the charge fits; without faults the victims are a prefix of the ranking and as long as one of them was there the charge did not fit |
| CacheManager.Manager.MakeRoom | internal/cache/manager.go:546-602 | the eviction rounds end on every directory, with room made or with a reason; without faults room is made by the shortest prefix of the ranking; a budget refusal means the charge still does not fit and nothing visible could be removed |
| CacheManager.Manager.HandOut | internal/cache/manager.go:534-572 | a fresh OPEN reservation, charged and counted under an active policy, uncounted and without charge otherwise |
| CacheManager.Manager.ReserveEvicting | internal/cache/manager.go:546-602 | past the early checks: a run of evictions, without faults the shortest prefix of the ranking, followed by the grant, or by a refusal that leaves the ledger alone |
| CacheManager.Manager.Reserve | internal/cache/manager.go:522-602 | a run of evictions followed by the grant of the requested bytes or a refusal; without faults the victims are the shortest prefix of the ranking that makes room and none was modified after anything left, the request is admitted if and only if it fits beside what is in flight, and a refusal past the early checks has emptied the directory; with faults, a budget refusal means the caps are exceeded and no visible entry could be removed |
| CacheManager.ShortestOfTheRanking | internal/cache/manager.go:609-616 | what the shortest prefix is: for every ranking of the directory the victims are its first entries, room is there without them and not without fewer of them |
| CacheRestore.FileSystem.OpenBeneath | internal/safefs/archive.go:127-144 | when every component is a directory nothing is created and only a failure refuses; on success every component is one |
| CacheRestore.Walk | internal/cache/cache.go:1027-1071 | the entries are exactly the staging tree, each once, parents first; the walk gives up only on a fault or on something that is neither directory nor regular file |
| CacheRestore.PreCheck | internal/cache/cache.go:1108-1120 | passes only when every destination is free or a directory meeting a directory, and refuses such a workspace only when a probe failed |
| CacheRestore.RemoveCreated | internal/cache/cache.go:1129-1143 | what was there stays; every created path not removed is kept for the report, and none is when all removals work; nothing is left at or below a created directory that could be removed, even where a removal below it failed |
| CacheRestore.Rollback | internal/cache/cache.go:1122-1157 | what was there stays; everything left over is reported; at most as many names are reported wrongly as probes failed; nothing is reported when all removals work |
| CacheRestore.Fail | internal/cache/cache.go:1158-1164 | a failed publication is rolled back: the workspace is as it was, or a residue names everything left and is wrong about at most as many names as probes failed |
| CacheRestore.PublishStaged | internal/cache/cache.go:1104-1198 | success is exactly the old tree plus the staged one; every failure leaves what was there untouched; a plain failure leaves the workspace as it was; a residue names every created path still present and takes at least two failures; without failures it publishes if and only if nothing is in the way |
| CacheRestore.PublishRestore | internal/cache/cache.go:827-861 | for every workspace, staging tree and pattern of failures: the restore is complete, or the workspace is as it was, or every addition is reported as cleanup debt; only staged names are reported, at most as many wrongly as probes failed; undisturbed it succeeds if and only if the staged tree has no special file and no staged path meets anything but a directory meeting a directory |
| Strings.FoldRepoFullName | internal/auth/repoidentity.go:157-175 | the in-place rewrite is ASCII lower-casing of every byte |
| Strings.NumbersAre | internal/auth/host.go:162-166 | what counts as a port: digits with or without a sign, if and only if their value fits 64 bits, as it does for up to eighteen of them |
| Base64.DecodeUndoesEncode | internal/auth/repoidentity.go:288-312 | decoding undoes encoding on every byte string (base64url without padding, sections 3.2 and 5 of RFC 4648) |
| Base64.AlphabetIs | internal/auth/repoidentity.go:288-312 | the symbols are those of table 2 of RFC 4648, in order |
| Base64.EncodeWritesBits | internal/auth/repoidentity.go:288-312 | three bytes are four symbols for the same 24-bit number, one or two left over their bits followed by zeros (section 4 of RFC 4648) |
| Base64.DecodeReadsBits | internal/auth/repoidentity.go:420-474 | four symbols are three bytes for the same number, two or three left over are one or two bytes whatever their last bits, one left over is refused |
| Base64.EncodeInjective | internal/auth/repoidentity.go:288-312 | no two byte strings share an encoding |
| Base64.ForeignByteRejected | internal/auth/repoidentity.go:420-474 | any byte outside the alphabet other than CR and LF makes the decoder fail |
| Host.SplitPlain | internal/auth/host.go:151-168 | without brackets a host splits exactly at a single colon in front of a number |
| Host.FixedPointsAreCanonicalSpellings | internal/auth/host.go:25-184 | CanonicalHost leaves a string alone if and only if it is trimmed, lower case, without scheme, userinfo, path, trailing dot or closed bracket, with a single colon only before a port that is no default |
| HostForms.CanonicalHostIdempotent | internal/auth/host.go:25-184 | plain hosts, host and port, address literals with and without port, in any case, with white space, one trailing dot or a path: the result is canonical and canonicalizing again changes nothing |
| HostForms.CanonicalTwiceExactlyWhen | internal/auth/host.go:25-184 | for inputs of any shape (URL, user@host, plain) over hosts, host and port, address literals with and without port: twice differs from once if and only if a host name comes with a port that is well known but not the scheme's default |
| HostForms.CanonicalTwiceForAll | internal/auth/host.go:25-184 | for every string, a condition on the scheme, host and port it comes down to: without a kept port the host must be canonically spelled; with one, host and port must be trimmed, folded and free of delimiters, and a single colon must stand before a number that is no default |
| HostForms.SchemedHostsDrift | internal/auth/host.go:173-184 | every host addressed as https on port 80 or 22 keeps the port the first time and loses it the second |
| HostForms.TwoDotsDrift | internal/auth/host.go:129-149 | of two trailing dots each round takes one |
| HostValues.UrlValue | internal/auth/host.go:30-41 | the host of a URL is its host name in lower case without the trailing dot, with its port unless that is the default of the scheme, for every scheme |
| HostValues.UserinfoIgnored | internal/auth/host.go:36-39 | what stands before the last @ of a URL's authority, and behind its host, makes no difference |
| HostValues.PathIgnored | internal/auth/host.go:33-35 | neither does a path, query or fragment |
| HostValues.ScpPathValue | internal/auth/host.go:43-50 | user@host:path is the host |
| HostValues.ScpPortValue | internal/auth/host.go:43-52 | user@host:port is the host with its port, unless that is 443, 80 or 22 |
| HostValues.PlainValue | internal/auth/host.go:53-81 | the same for a host without a scheme, and a path behind it is ignored |
| HostValues.HostPathValue | internal/auth/host.go:73-80 | host:path without a user is the host when the path is no number |
| HostValues.LiteralValue | internal/auth/host.go:57-65 | an address literal loses its brackets and keeps its colons and its port |
| HostValues.ScpLiteralValue | internal/auth/host.go:44-53 | user@[address] is the address |
| HostValues.ScpLiteralPathValue | internal/auth/host.go:44-53 | user@[address]:path is the address; no colon inside the brackets separates |
| HostValues.ScpLiteralPortValue | internal/auth/host.go:44-53 | user@[address]:port is the address with its port, unless that is a well-known one |
| HostValues.TruncatedLiteralKept | internal/auth/host.go:57-65 | a literal whose bracket is never closed is kept, folded, with a user in front or without |
| RepoGrant.ParsedIsWellFormed | internal/auth/repoidentity.go:420-564 | everything either parser accepts is a folded, valid grant |
| RepoGrant.SpellingsAre | internal/auth/repoidentity.go:265-312 | the serialized and the storage spellings, written out; a value with a part missing has neither |
| RepoGrant.ValidNamesAre | internal/auth/repoidentity.go:397-414 | a name is valid if and only if no segment is empty, it holds no space, tab, CR, LF or NUL, no white space at its ends, and an owner where one is required |
| RepoGrant.ValidHostsAre | internal/auth/repoidentity.go:373-382 | a host is valid if and only if it holds none of the bytes that end one and, when it opens a bracket, something inside it |
| RepoGrant.UntaggedAre | internal/auth/repoidentity.go:518-564 | an untagged string that is no valid name is refused; a valid one of one or two segments is a bare name; one of more is ambiguous without the legacy mode |
| RepoGrant.LegacyAre | internal/auth/repoidentity.go:541-564 | in legacy mode a valid untagged name of more than two segments is the identity whose host is the first segment and whose name is the rest, if that host is valid and the rest does not begin with white space |
| RepoGrant.ParsePrintedIdentity | internal/auth/repoidentity.go:420-452 | both parsers read a printed identity as the same name over the host canonicalized once more, or refuse it |
| RepoGrant.IdentityRoundTrip | internal/auth/repoidentity.go:288-294 | parsing a printed identity returns it, strictly and legacy, if and only if its host is canonically spelled |
| RepoGrant.TaggedSlashRejected | internal/auth/repoidentity.go:518-535 | a one-slash name that begins with a tag is refused by both parsers |
| RepoGrant.TaggedForeignRejected | internal/auth/repoidentity.go:416-474 | any other byte outside the alphabet in a part makes both parsers refuse |
| RepoGrant.NewlinesIgnored | internal/auth/repoidentity.go:416-474 | a tagged string is read as if it held no CR and LF |
| RepoGrant.WhiteSpaceAcceptedExactlyWhen | internal/auth/repoidentity.go:416-474 | a tagged string holding white space is accepted if and only if all of it is CR or LF and the string without it is accepted |
| RepoGrant.BrokenAliasAccepted | internal/auth/repoidentity.go:454-474 | every printed alias with a line break anywhere in its encoded part is read as before |
| RepoGrant.AliasRoundTrip | internal/auth/repoidentity.go:303-312 | parsing a printed alias returns it if and only if it is not a one-slash name that begins with a tag |
| RepoGrant.GrantRoundTrip | internal/auth/repoidentity.go:265-312 | parsers undo printers on exactly the stable grants |
| RepoGrant.SerializedInjective | internal/auth/repoidentity.go:265-312 | no two well-formed grants share a serialized form |
| RepoGrant.IDInjective | internal/auth/repoidentity.go:279-284 | no two well-formed identities share a storage spelling |
| RepoGrant.MemoParser.Parse | internal/auth/repoidentity.go:504-512 | a memoized parser answers as the parser does, whatever was asked before, and remembers exactly that answer |
| RepoKeys.ParsePrintedID | internal/auth/repoidentity.go:518-585 | what the legacy parser makes of every storage spelling |
| RepoKeys.StoredIDRoundTrip | internal/auth/repoidentity.go:279-284 | ParseStoredRepoID reads a storage spelling back if and only if the host is canonically spelled, does not look like a tag and holds no NUL |
| RepoKeys.NormalizeRepoKeyIdempotent | internal/auth/host.go:111-126 | normalizing a key twice is normalizing it once, except exactly for keys whose parsed host is not canonically spelled but still readable |
| RepoKeys.NormalizeSettles | internal/auth/host.go:111-126 | keys over the hosts CanonicalHost is written for are normalized once and for all |
| RepoKeys.NormalizedKeysAre | internal/auth/host.go:111-126 | an identity however spelled becomes host/name; everything else stays as it is |
| RepoKeys.CanonicalRepoIDIdempotent | internal/auth/rbac.go:442-451 | for every host and name, CanonicalRepoID applied to its own output with the same host changes nothing if and only if the name has an owner and the host is canonically spelled, or there is no name or no host |
| RepoKeys.CanonicalRepoIDSettles | internal/auth/repoidentity.go:355-368 | the same for every host CanonicalHost is written for |
| RepoKeys.CanonicalRepoIDIs | internal/auth/rbac.go:442-451 | host/name, the name alone without a host, nothing without a name; a first segment naming the same host is not repeated when an owner and a name follow |
| Rbac.EquivalenceIsKernel | internal/auth/rbac.go:330-348 | every equivalence on values is equality of classes, so the results below hold for every equality that is one |
| Rbac.ResolutionIsUnique | internal/auth/rbac.go:330-424 | two resolutions of the same keys have the same result class and equal values |
| Rbac.BuildTables | internal/auth/rbac.go:335-366 | whatever order the map is walked in, the tables hold exactly the common values, the conflicts and the forges of the entries |
| Rbac.ResolveAliasToIdentity | internal/auth/rbac.go:376-408 | the result is what the identity entries presenting the name say together: nothing, one value, or a conflict |
| Rbac.ResolveRepoGrantEntries | internal/auth/rbac.go:330-424 | in every iteration order the result is what the entries at the first non-empty level of keys say |
| Decisions.AuthorizeGrantMode | internal/auth/rbac.go:100-133 | the decision procedure over the map, in any order, computes the decision defined on the entries alone |
| Decisions.AuthorizeString | internal/auth/rbac.go:58-79 | the same for repository strings, the blank and the unparseable included |
| Decisions.AuthorizeCapabilityString | internal/auth/capability.go:120-142 | the same for capabilities, which a repository entry can only add |
| Decisions.ConflictDenies | internal/auth/rbac.go:100-133 | disagreeing permission sets at the consulted level deny every action to everyone but an admin, whatever the roles |
| Decisions.TypedAliasIgnoresIdentities | internal/auth/rbac.go:92-94 | a typed bare lookup depends on no identity key |
| DecisionLaws.ConsultedExactly | internal/auth/rbac.go:316-330 | which keys decide a repository, read off the keys alone: those of the identity, else the bare ones of its name; for a bare name its bare keys, else, for a string of unknown host only, the identities of that name |
| DecisionLaws.CaseMakesNoDifference | internal/auth/rbac.go:410-424 | names that differ in case are decided by the same keys |
| DecisionLaws.EntriesDecide | internal/auth/rbac.go:100-133 | where entries speak alike, each action on the repository is allowed if and only if its own flag is set, whatever the roles; runner and policy management by their roles, admin and unknown actions not at all |
| DecisionLaws.GrantDecides | internal/auth/rbac.go:58-133 | for every accepted key, a principal with one permission set for it may do exactly what the flags say |
| DecisionLaws.RoleDecides | internal/auth/rbac.go:135-165 | which actions each role alone allows, on any repository or none; the run role never a trusted run |
| DecisionLaws.RolesAddUp | internal/auth/rbac.go:48-55 | roles allow together what one of them allows, and nothing on a malformed repository unless one is admin |
| DecisionLaws.CapabilitiesThereAre | internal/auth/capability.go:30-46 | the known capabilities are these five |
| DecisionLaws.CapabilityEntryDecides | internal/auth/capability.go:120-142 | for every accepted key, a repository entry gives exactly the capabilities it lists |
| DecisionLaws.GlobalCapabilityDecides | internal/auth/capability.go:102-119 | without entries exactly the capabilities of the principal itself count, on every repository and on none |
| SaveKeys.NormalizeKeys | internal/auth/token.go:298-325 | in any order: fails if and only if a key has no spelling or two keys meet on one with different values; otherwise holds exactly the respelled keys with values of the same class |
| SaveKeys.CanonicalCapabilities | internal/auth/capability.go:192-207 | the list without repetitions, ascending, with the same members |
| SaveKeys.CanonicalListsAreEqual | internal/auth/capability.go:192-207 | two lists are written alike if and only if they hold the same capabilities |
| SaveKeys.NormalizePrincipal | internal/auth/capability.go:239-268 | succeeds if and only if both maps can be respelled without a conflict, and then yields the saved form, every capability list ascending and without repetitions |
| SaveKeys.RespellingParses | internal/auth/token.go:303-311 | a key and its respelling parse alike, under the strict parser too, if and only if the key is stable |
| SaveKeys.RespellingAcceptedExactlyWhen | internal/auth/token.go:532-546 | Load's parser accepts what Save makes of a key if and only if the key's host stays valid when canonicalized again, or it is a bare name that is not an owner/name beginning with a tag |
| SaveKeys.SavePreservesDecisions | internal/auth/token.go:298-325 | when all keys are stable, saving changes no decision: Authorize, the typed decision and AuthorizeCapability answer as before for every action, capability, repository, grant and trust flag |
| SaveKeys.UnstableKeyChangesADecision | internal/auth/token.go:298-325 | any set of keys with one unstable key belongs to a principal that Save accepts and whose saved form is denied a read the original was allowed |
| SaveKeys.SaveLosesARead | internal/auth/token.go:298-325 | the same with the save carried out |
| SaveKeys.UnstableKeyLosesACapability | internal/auth/capability.go:239-268 | any set of capability keys with one unstable key belongs to a principal that Save accepts and whose saved form has lost a capability the original had |
| SaveKeys.SaveLosesACapability | internal/auth/capability.go:239-268 | the same with the save carried out |
| SaveKeys.TaggedNameIsUnstable | internal/auth/repoidentity.go:303-312 | every encoded owner/name that begins with a tag is accepted by both parsers, unstable, and not accepted once it is respelled |
| SaveKeys.SchemedHostIsUnstable | internal/auth/repoidentity.go:420-452 | every encoded repository over an https host on port 80 or 22 is unstable and reloads as the repository over the host without the port |
| SaveKeys.DriftingHostIsUnstable | internal/auth/repoidentity.go:420-452 | every encoded repository over a host that canonicalizing twice turns into another valid one is unstable and reloads as the repository over that one |
| SaveKeys.VanishingHostDoesNotReload | internal/auth/repoidentity.go:420-452 | every encoded repository over a host that is valid, and no longer is when canonicalized again, is accepted by both parsers and not accepted once it is respelled |
| Tokens.EffectiveEquality | internal/auth/token.go:97-148 | effectivePrincipalEqual is equality of subject, role set, permissions, capability set and capability sets per key, hence an equivalence |
| Tokens.EqualExactlyWhen | internal/auth/token.go:97-148 | two principals are equal if and only if subject, permissions and, order and repetition apart, roles and capabilities are the same |
| Tokens.EqualIdentitiesDecideAlike | internal/auth/token.go:77-96 | effectively equal principals get the same answer to every authorization question |
| Tokens.SaveKeepsIdentitiesEqual | internal/auth/token.go:514-558 | effectively equal principals stay so when saved |
| Tokens.SavedStoreDecidesAlike | internal/auth/token.go:434-558 | a consistent store over stable keys, saved, is accepted by Load and every token decides as before |
| Tokens.SavedStoreReloadsExactlyWhen | internal/auth/token.go:532-546 | a consistent store, saved, is accepted by Load if and only if its capabilities are known and every key of every token is accepted once respelled |
| Tokens.SavedStoreDoesNotReload | internal/auth/token.go:514-558 | a token file over any accepted key that does not reload: loaded, saved, and refused when loaded again |
| Tokens.Collect | internal/auth/token.go:184-210 | the tokens of a subject in any order: one of their principals and all their digests, or the finding that two disagree |
| Tokens.BuildSubjectIndex | internal/auth/token.go:156-180 | succeeds if and only if every subject's tokens agree, and then indexes every subject soundly |
| Tokens.TokenStore.IndexSubject | internal/auth/token.go:184-222 | refreshes exactly one subject's entry to what the tokens say |
| Tokens.TokenStore.AddToken | internal/auth/token.go:246-289 | registers exactly when the subject keeps one identity; a rejected call leaves the tokens as they were; no entry of another subject changes and those of the two subjects involved are what the tokens say, except that a rejected move leaves the new subject without one; the index stays sound; it stays complete after a rejection if and only if no existing token would have changed its subject |
| Tokens.RejectedMoveHidesASubject | internal/auth/token.go:246-289 | a store in which a rejected registration makes a subject unresolvable that a token carries throughout |
| Tokens.TokenStore.RemoveToken | internal/auth/token.go:333-355 | removes exactly that token, and every remaining subject resolves |
| Tokens.TokenStore.Load | internal/auth/token.go:434-482 | all of a file whose keys, capabilities and subjects are in order, or nothing changes |
| Tokens.LoadRefuses | internal/auth/token.go:434-482 | one unknown capability, or one untagged key of three or more segments, and the file is refused |
| Tokens.TokenStore.Save | internal/auth/token.go:514-546 | in any order: fails if and only if some principal cannot be respelled without a conflict; otherwise every principal is in its saved form |
| Tokens.TokenStore.PrincipalBySubject | internal/auth/token.go:378-404 | on any contents of the maps: the indexed principal if a listed token still carries the subject and all that do agree with it |
| Tokens.ResolvedSpeaksForAll | internal/auth/token.go:368-404 | on any contents of the maps a resolved principal agrees with all tokens of the subject if and only if it agrees with those the index does not list; a listed disagreement is refused |
| Tokens.InjectedConflictIsMissed | internal/auth/token.go:368-404 | in every well-kept store a disagreeing token put under a new digest leaves the answer as it was |
| Tokens.IndexAgreesWithScan | internal/auth/token.go:368-404 | in every reachable store a resolved principal is one a scan of all tokens finds; a complete index resolves every subject a token carries |
| Fence.OneHolder | internal/cas/fence.go:65-85 | two holders of one digest are the same thread |
| Fence.StepKeepsInv | internal/cas/fence.go:44-94 | entering, taking, cancelling, draining and dropping keep the invariant |
| Fence.FenceSafe | internal/cas/fence.go:24-94 | in every interleaving: one holder per digest; an entry with a waiter, holder or releaser is the one in the map; references and token are exact; at most maxKeys entries are kept idle, and the map is that small when everybody has left |
| Fence.WaitersCanProceed | internal/cas/fence.go:65-85 | in every interleaving a waiter can take its digest now, or the thread holding it can release it and then the waiter can; a holder can always release, a releaser leave, a waiter give up |
| Fence.StepMoves | internal/cas/fence.go:44-85 | what each step does for the thread that makes it, and that it moves no other thread |
| Fence.NoDanglingReference | internal/cas/fence.go:3-6 | writers that publish then commit and collectors that re-read then delete, each under the fence, never reach a committed reference to a missing object |
| Fence.ActsDo | internal/cas/fence.go:3-6 | publishing adds the object, deleting removes it, committing and dropping do so to references, and nothing else does |
| Fence.ProtocolProceeds | internal/cas/fence.go:3-6 | a writer may publish and then commit; a collector may delete if and only if its re-read finds no reference; a reference may be dropped at any time |
| Streams.CountingReader.Read | internal/cas/cas.go:164-205 | bytes pass in order, one past the bound at most and then with the error; every outcome is latched |
| Streams.CountingReader.CopyAll | internal/cas/cas.go:236 | a copy ends with the source, its failure or the bound, and accounts for every byte |
| Streams.CopyBounded | internal/cas/cas.go:164-205 | for every stream and chunking: the whole stream, or its bytes up to and including the one past the bound, or the bytes before a failure |
| Streams.VerifyingReader.Read | internal/cas/cas.go:542-562 | reaching the end judges the digest of everything read, once |
| Streams.VerifyingReader.Close | internal/cas/cas.go:584-590 | success if and only if what was read has the wanted digest and closing works |
| Streams.VerifyingReader.Drain | internal/cas/cas.go:447-453 | no error if and only if the source does not fail and its bytes have the wanted digest |
| BlobStore.FS.WriteObject | internal/blob/fs.go:127-174 | only verified bytes are renamed; a failed rename is an error when replacing and otherwise accepts what is there; a failed directory sync leaves the verified object published |
| BlobStore.FS.Put | internal/blob/fs.go:70-104 | an object that is there is neither read nor verified; otherwise as writing, with the exact condition under which an unseen object is accepted |
| BlobStore.FS.Replace | internal/blob/fs.go:113-119 | success means the verified bytes replaced the object; failure never acknowledges the old one |
| Cas.VerifyStoredObject | internal/cas/cas.go:435-455 | succeeds if and only if the object can be read and has the size and digest |
| Cas.HealStoredObject | internal/cas/cas.go:464-488 | success leaves verified content; failure leaves the store as it was, or with verified content when the directory sync failed; a genuine stream heals it, or is stored and rejected when only that sync fails |
| Cas.VerifyDedupHit | internal/cas/cas.go:413-427 | a deduplicated object is acknowledged only verified or healed, and a genuine stream heals it; every failure is the integrity error; what it leaves is as for healing |
| Cas.PutStream | internal/cas/cas.go:348-400 | acknowledged means the key holds the advertised size and digest, unless a first stat failed over an existing object and the rename failed too, when it is acknowledged unread; a rejection leaves the store as it was, or with verified content after a failed directory sync or for an empty object; no other key changes; a genuine untroubled stream is acknowledged; an intact stream that disagrees gets the size error or the digest error, and an existing object that cannot be proved or healed the integrity error |
| Cas.CorruptObjectAcknowledged | internal/cas/cas.go:348-400 | any other bytes under the digest are acknowledged as the content when the first stat and the rename fail |
| Cas.RejectedAndPublished | internal/cas/cas.go:348-400 | a publication that is rejected and has stored its content, of a new object and over a corrupt one |
| Cas.CAS.PutKnown | internal/cas/cas.go:319-330 | the same for a known digest and size; a malformed digest, a negative size and a size past the bound change nothing and get their own errors; disagreements are typed as above; a genuine untroubled stream is acknowledged |
| Cas.CAS.PutFile | internal/cas/cas.go:289-310 | the same for a staged file, whose length must be the advertised size, else the size error; a readable file with the advertised digest is acknowledged, one with another digest gets the digest error |
| Cas.DigestsAre | internal/cas/cas.go:215-223 | a digest is sixty-four hexadecimal digits in either case; the store's keys are the lower-case ones |
| Cas.SpoolFile | internal/staging/budget.go:955-1035 | the file holds the buffered bytes and the whole rest of the stream; there is one if and only if nothing fails, they fit the limit, and at the limit the stream ends without another empty read |
| Cas.CAS.Put | internal/cas/cas.go:231-281 | for every stream and chunking, what is published and its digest are those of the whole stream across the memory boundary; only publishable streams are acknowledged or change anything, and all of them are when nothing else fails; an intact stream past the bound is too large, one past the memory buffer without staging is refused |
| Cas.CAS.FailingStreamPublishable | internal/cas/cas.go:231-281 | a failing stream is publishable if and only if its one failure is reported together with the byte that overflows the buffer and the rest is in order |
| Cas.CAS.SwallowedFaultPublishable | internal/cas/cas.go:231-281 | any stream that fits, cut by a failure reported with the byte that overflows the buffer, is publishable |
| Cas.CAS.SteadyStreamPublishable | internal/cas/cas.go:231-281 | no stream past the bound is publishable; a steady stream is if and only if it is within the bound |
| RestoreStream.BoundedReader.Read | internal/cache/client.go:191-224 | never more than max bytes; at the bound one probe decides and its outcome is latched; below it a source failure is passed on unlatched |
| RestoreStream.VerifyingReadCloser.Read | internal/cache/client.go:244-263 | once latched nothing is delivered and the source is left alone; every error is latched except a source failure below the bound |
| RestoreStream.FailureIsForgotten | internal/cache/client.go:208-224 | a failure below the bound is reported once and the bytes behind it are delivered |
| RestoreStream.VerifyingReadCloser.Close | internal/cache/client.go:265-276 | after any reads, a nil Close means the whole source was consumed, is at most max bytes long and has the advertised digest; a latched error is reported again; a stream read to its verified end closes without error, and so does a source that is all this and does not fail |
| Multipart.PartCountIsCeiling | internal/blob/s3.go:868-873 | the number of parts is the size divided by the part size, rounded up |
| Multipart.UploadPart | internal/blob/s3.go:978-991 | one or two attempts with identical bytes, a second one only after a failure; giving up after one means that failure was final; success means the endpoint has the part |
| Multipart.ReadFull | internal/blob/s3.go:901-908 | whatever the chunks, a full read succeeds exactly when no failure or end comes before its last byte, and leaves exactly what is behind that byte |
| Multipart.SendPart | internal/blob/s3.go:896-914 | one part read in full and stored under its number; it fails only when the part cannot be read or is refused |
| Multipart.SendParts | internal/blob/s3.go:887-916 | parts 1 to n, all full except a non-empty last one, are the declared number of bytes of the stream, in order; unless a part is refused, it succeeds if and only if that many bytes can be read in parts |
| Multipart.CompletesExactlyWhen | internal/blob/s3.go:887-922 | a source that never fails completes if and only if it has the declared size, or is longer and stalls right behind the last declared byte |
| Multipart.LongerSourceCompletes | internal/blob/s3.go:917-922 | every source cut in two by a stall or a failure completes when the first half has the declared size |
| Multipart.Finish | internal/blob/s3.go:923-938 | exactly when the completion counts as done and what is visible then: an answered one always, a refused one never, one whose answer is lost when a HEAD finds an object of the size |
| Multipart.StreamParts | internal/blob/s3.go:887-939 | unless a part is refused, Complete is requested if and only if all parts can be read and the source then delivers nothing; then the endpoint has parts 1 to n of the right sizes that make up the declared bytes, and the result, the digest and the visible object are exactly determined by what becomes of Complete |
| Multipart.PutMultipart | internal/blob/s3.go:838-864 | more than 10000 parts never start; after Create the requests end in success without an abort or in exactly one abort; unless Create or a part is refused, Complete is requested if and only if the source completes; the parts, the result and the visible object as for streaming |
| Multipart.StaleObjectConfirms | internal/blob/s3.go:924-938 | an older object of the same size is taken for the upload when Complete was not executed and its answer lost |
| Guards.IdleGuard.OnIdle | internal/app/server_runner.go:181-197 | cancels if and only if it is not done and a full window has passed; re-arms for the rest; does nothing when done |
| Guards.IdleGuard.Reset | internal/app/server_runner.go:201-209 | progress moves the window unless the guard is done |
| Guards.IdleGuard.Release | internal/app/server_runner.go:212-220 | the guard is done and its timer is disarmed, unless it was done already |
| Guards.BodyGuard.OnIdle | internal/blob/s3.go:252-267 | as the idle guard's callback, with its exact cancellation |
| Guards.BodyGuard.Progress | internal/blob/s3.go:270-278 | as the idle guard's reset |
| Guards.BodyGuard.Stop | internal/blob/s3.go:281-286 | the guard is done and its timer is disarmed; a fired one stays fired |
| Guards.StallGuard.Check | internal/cache/cache.go:227-241 | cancels if and only if it is not stopped and a full window has passed; re-arms for the rest; does nothing when stopped |
| Guards.StallGuard.Progress | internal/cache/cache.go:244-248 | progress is recorded and the timer left alone |
| Guards.StallGuard.Stop | internal/cache/cache.go:252-263 | the guard is stopped and its timer is disarmed the first time; a fired one stays fired |
| Guards.Refines | internal/blob/s3.go:218-293 | every event of every guard, stale callbacks included, is a step of one abstract watch that may fire only after a full idle window |
| Guards.OverIsOver | internal/cache/cache.go:200-276 | fired and stopped are final in every run |
| Guards.ProgressRestarts | internal/app/server_runner.go:201-209 | progress while the guard is live restarts its window |
| Guards.StoppedNeverFires | internal/app/server_runner.go:212-220 | wherever in a run a live guard of any kind is stopped it never fires afterwards, whatever callbacks were dispatched before |
| Guards.FiresOnlyAfterSilence | internal/app/server_runner.go:158-220 | in every timed run a guard fires at least one idle window after the run's last progress |
| Guards.SilenceIsDetected | internal/app/server_runner.go:158-220 | in every run with prompt timers a live guard has seen progress within the window, and firing happens at exactly the last progress plus the window |
| Guards.GuardIsPunctual | internal/app/server_runner.go:158-220 | both for a guard of any kind from its start: it fires no earlier than a full window after the last progress and, with prompt timers, no later |

## Left out

- White space and case mapping outside ASCII: TrimSpace and ToLower are modelled on bytes.
- Integer width: sizes and counts are unbounded, so the MaxInt64 corner of countingReader and overflow of byte totals are not modelled.
- CacheManager.Manager.Publish: the publish callback is atomic and stores at most the reserved bytes; a callback that fails after storing something is not modelled.
- CacheManager.Manager.ReclaimAbandonedTemps: which file names are owned temps is an input, and calling it after startup is not part of a run.
- CacheManager.Manager.NewManager: taking the namespace lock, and giving it back when the scan fails, come down to whether there is a manager.
- CacheDirectory.Disk.Evict: the digest sidecar of an archive is not modelled, nor are writers other than the namespace owner.
- CacheRestore.Walk: visits children in any order, the source by name.
- CacheRestore.PublishStaged: file modes, open handles and durability are not modelled; the staging directory's removal is left out.
- BlobStore.FS.Put: a collector deleting the object between two stats of one put is not modelled.
- Fence.NoDanglingReference: objects and references are sets, so the bytes published and the storage of references are not part of the protocol layer.
- Multipart.PutMultipart: URLs, signing, timeouts, etags and the part size's validity range are left out; a part's answer is a nondeterministic success, retryable failure or failure.
- Tokens.TokenStore.Load: reading and decoding the JSON file is left out.
- Tokens.TokenStore.Save: encoding and writing the file is left out.
- Single-request S3 put, remote cache fetch and push, archive extraction, the staging budget's own accounting: not modelled.
- Job scheduling, leases, storage, the HTTP server, configuration loading and the command line: not modelled.
