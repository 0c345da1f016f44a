# Nebu gateway: protocols, caches and transformations

A Dafny model of the parts of the Nebu gateway whose correctness is a statement about many steps: keyset pagination of
rooms, agreement on a signing key, the four-eyes decision, archiving, the bootstrap transaction, the import lock, the
caches and the session guard, SCIM paging, and the layered TOML merge of the BMad scripts.

Code that updates state in place is a class or a method with loops, proved against a specification function. Code that
runs concurrently is also a state machine with one step per database statement, mutex section or atomic operation, so
that a theorem about every run is a theorem about every interleaving. `Runs` holds the two induction principles.

| files | subject |
|---|---|
| `Base64Url`, `Utf8`, `Json`, `Pagination`, `SignedCookie`, `Hex` | codecs: section 5 of RFC 4648, section 7 of RFC 8259 |
| `Rfc3339` | millisecond timestamps to text and back |
| `RoomTable`, `RoomQuery`, `RoomsRepo`, `RoomListing` | the rooms table, the assembled SQL, the repository and the list handler, and what a list request is answered |
| `RoomWalk`, `RoomWalkRooms`, `RoomWalkFixed` | whole cursor walks, over changing tables and over a fixed one |
| `RoomArchive` | concurrent archiving and unarchiving, by the gateway and by the core |
| `SigningKey`, `ComplianceDecision`, `BootstrapTx`, `BootstrapRuns`, `ImportLock` | database and lock protocols |
| `AdminSessions`, `OidcCache`, `RoleGate`, `ClaimLoader` | sessions and caches on a clock |
| `Scim` | paged user fetch (section 3.4.2.4 of RFC 7644) |
| `TomlMerge`, `TomlArrays`, `TomlLayers`, `TomlLookup` | the layered configuration merge |

## Where the code differs from what it says

- **A cursor walk can lose rooms.** `created_at` is kept in milliseconds, but the cursor carries it through
  `epochMsToISO8601`, which formats with `time.RFC3339`: whole seconds. The next page starts below the last row's
  *second*, so rows between the last row and its second are passed over. `RoomWalk.ReturnedExactly` says exactly which
  rooms a walk over a changing table returns, `RoomWalkRooms.LosslessExactly` for which rooms no walk loses any,
  `RoomWalkFixed.FixedTableWalk` when a fixed table is listed completely, and `RoomWalkFixed.TwoRoomsExactly` when two
  rooms are. No room is ever returned twice.
- **The refresh grace does not limit anything.** `sessionRefreshGrace` is meant to end refreshing thirty seconds after
  expiry, but a session past its expiry is also within the refresh window, so any session with a refresh token is
  refreshed however long ago it expired (`AdminSessions.GuardExactly`).
- **Archiving has two writers.** The repository's conditional UPDATEs are written as if nobody else changed a room's
  status, but the handler then asks the core to archive the room, and the core archives whatever it finds active
  (`core/apps/event_dispatcher/lib/nebu/admin/db.ex:252-287`); the admin pages archive through the core alone. If the
  core is late, a room that was unarchived in the meantime is archived again (`RoomArchive.CoreArchivesLate`).
  `RoomArchive.OwnUpdatesTakeTurns` says exactly when the repository's own updates still alternate.
- **An approver can be empty.** The admin pages refuse to decide for a caller without a subject; the API writes the same
  rows and does not (`ComplianceDecision.EmptyApproverExactly`, with a run in `ComplianceDecision.ApproverMayBeEmpty`).
- **Two builds share the signing key's rows.** `main` calls the sealed build and the migration of
  `gateway/internal/compliance/signing_key.go`; its own `ensureComplianceSigningKey` has no caller left. Run side by
  side they agree on the key, but a sealed private row is no hex for the plain build and a plain one is refused by the
  sealed build (`SigningKey.NeverBoth`): only one of the two can start.
- **A short SCIM page ends the import.** The header says that paging ends at an empty page; the code also stops at a page
  of fewer than a hundred users, which RFC 7644 allows a server to send at any time. `Scim.CompletePageSizes` gives the
  page sizes at which nothing is lost. The comment of `FetchUsers` also promises an empty list for an unreachable server;
  the code returns an error.
- **One array with both `code` and `id`** is enough to make the grouping of layers matter (`TomlLayers.FieldsMustAgree`),
  and a key that is a table or an array makes the merge raise `TypeError` (`TomlMerge.MergeByKey`).

## Model

| member | source | states |
|---|---|---|
| `Base64Url.RoundTrip` | gateway/internal/api/pagination.go:24-57 | unpadded base64url decoding inverts encoding for every byte string |
| `Base64Url.DigitsStandForBits` | gateway/internal/api/pagination.go:24-31 | each digit of an encoded text stands for its six bits of the bytes, in the order of the URL-safe alphabet, and there is no padding |
| `Utf8.RoundTrip` | gateway/internal/api/pagination.go:24-57 | decoding the UTF-8 of any text gives the text back, as the JSON strings of a cursor need |
| `Json.TwoMembersRead` | gateway/internal/api/pagination.go:24-57 | the two-member object that Go's encoder writes, with its escapes, is read back by the general JSON reader as those two members, for all texts |
| `Pagination.CursorRoundTrip` | gateway/internal/api/pagination.go:24-57 | decoding an encoded cursor gives both fields back for all texts, and the invalid-cursor error exactly if one is empty |
| `Pagination.DecodedExactly` | gateway/internal/api/pagination.go:37-57 | a cursor decodes to two texts if and only if it is base64url of a JSON object whose members under the two names, in any case, are texts or null and whose last texts are these, both non-empty; every other cursor is invalid |
| `Pagination.CursorReads` | gateway/internal/api/pagination.go:24-31 | the cursor of two texts without characters to escape is the object with `after_id` and then `after_created_at`, without white space |
| `Rfc3339.TextKeepsWholeSeconds` | gateway/internal/api/users_repo.go:101-110 | parsing a formatted timestamp gives the whole second, and fails for times at or before the epoch and from the year 10000 on |
| `Rfc3339.WrittenAs` | gateway/internal/api/users_repo.go:101-110 | a formatted timestamp is YYYY-MM-DDThh:mm:ssZ of its date and time of day |
| `Rfc3339.DaysAreCounted` | gateway/internal/api/users_repo.go:101-110 | the calendar counts days one by one over the ends of months and years, from 1 January 1970 |
| `SignedCookie.LastDotSplits` | gateway/internal/admin/auth.go:398-420 | the last dot always separates the text from its MAC, whatever dots the text holds |
| `SignedCookie.RoundTrip` | gateway/internal/admin/auth.go:398-420 | a signed payload verifies to itself, for every byte string |
| `SignedCookie.AcceptedCookies` | gateway/internal/admin/middleware.go:49-64 | a cookie is accepted with a payload if and only if it is some text that decodes to the payload, followed by a dot and that text's MAC |
| `SignedCookie.RefusedCookies` | gateway/internal/admin/middleware.go:49-64 | a cookie is malformed exactly without a dot, and its payload is refused exactly if its MAC fits and its text does not decode |
| `RoomQuery.WhereDenotes` | gateway/internal/api/rooms_repo.go:107-165 | every combination of search, status and cursor clauses, read with its arguments, denotes the intended rows |
| `RoomQuery.PlaceholdersMatch` | gateway/internal/api/rooms_repo.go:107-165 | the placeholders of the count query and of the page query number their arguments one by one |
| `RoomQuery.CountDenotes` | gateway/internal/api/rooms_repo.go:107-146 | the count query counts the rows that match the filter and leaves out the cursor only |
| `RoomQuery.SelectDenotes` | gateway/internal/api/rooms_repo.go:148-165 | the page query gives the first rows, in (created_at, room_id) descending order, of those that match below the cursor |
| `RoomTable.ListingDescends` | gateway/internal/api/rooms_repo.go:148-165 | the listing of a set of rows is in strictly descending (created_at, room_id) order |
| `RoomTable.DescendingUnique` | gateway/internal/api/rooms_repo.go:148-165 | that order leaves no choice: a set of rows has one descending listing |
| `RoomsRepo.RoomRepo.BuildListQuery` | gateway/internal/api/rooms_repo.go:108-140 | clauses, arguments and the next placeholder built step by step are those of the filter and the position, or the cursor's timestamp is refused |
| `RoomsRepo.RoomRepo.ScanRows` | gateway/internal/api/rooms_repo.go:171-205 | the row loop gives one entry per row in order, each with what is stored under its id, and remembers the last row |
| `RoomsRepo.RoomRepo.ListRooms` | gateway/internal/api/rooms_repo.go:107-217 | one page whose entries show the stored rows, the total of the filter, and a next cursor exactly if the page is full |
| `RoomsRepo.RoomRepo.ListAdminRooms` | gateway/internal/api/server.go:451-510 | limits, cursors and statuses are refused as coded, and a good request is answered with its page, whose entries show the stored rows |
| `RoomListing.RefusedExactly` | gateway/internal/api/server.go:451-510 | a list request is refused for its limit, its cursor, its status or its cursor's timestamp exactly when these are bad, in this order, with 20 as the default limit and 100 as the largest |
| `RoomListing.EntriesAreStored` | gateway/internal/api/rooms_repo.go:171-205 | each entry of an answer has name, topic, visibility, status and creator of the room stored under its id, nothing for NULL, and the whole second of its creation |
| `RoomListing.ListedExactly` | gateway/internal/api/rooms_repo.go:107-217 | a room is listed if and only if it matches search and status, lies below the cursor's position and is not below every entry of a full page |
| `RoomListing.AnswerIs` | gateway/internal/api/rooms_repo.go:148-217 | an answer keeps the limit and the descending order of (created_at, room_id), and carries the cursor of its last entry exactly if it is full |
| `RoomListing.TotalIs` | gateway/internal/api/rooms_repo.go:140-145 | the total counts the rooms that match search and status, at every position |
| `RoomsRepo.RoomRepo.ArchiveRoom` | gateway/internal/api/rooms_repo.go:291-318 | succeeds exactly on an active room and changes its status, time and reason and nothing else in the table; the error tells missing from wrong status |
| `RoomsRepo.RoomRepo.UnarchiveRoom` | gateway/internal/api/rooms_repo.go:328-353 | succeeds exactly on an archived room and changes its status and clears its time and nothing else in the table; the error tells missing from wrong status |
| `RoomsRepo.RoomRepo.BuildSet` | gateway/internal/api/rooms_repo.go:380-404 | for every patch the SET list, read with its arguments, moves each given field to its own column and leaves the others |
| `RoomsRepo.RoomRepo.UpdateRoom` | gateway/internal/api/rooms_repo.go:379-419 | each given field of a patch reaches its own column of the room and nothing else in the table changes; a missing room gives nothing; it is refused, changing nothing, exactly if max_members fits no INTEGER or an existing room would get a visibility other than public and private |
| `RoomWalk.CursorMeaning` | gateway/internal/api/rooms_repo.go:209-214 | the cursor of a row stands for its whole second and its id, or cannot be read back |
| `RoomWalk.NoRoomTwice` | gateway/internal/api/rooms_repo.go:107-217 | whatever is inserted, removed, archived or edited between the calls of a walk, no room is returned twice |
| `RoomWalk.ReturnedExactly` | gateway/internal/api/rooms_repo.go:107-217 | a room that matches throughout a finished walk is returned if and only if no page boundary leaves it between the last row and that row's whole second |
| `RoomWalk.WholeSecondsLoseNothing` | gateway/internal/api/rooms_repo.go:107-217 | where rooms are created on whole seconds, every room that matched throughout is returned |
| `RoomWalkRooms.CallsBounded` | gateway/internal/api/rooms_repo.go:107-217 | a walk over tables of n rooms takes at most floor(n/limit)+1 calls, and given that many ends by itself |
| `RoomWalkRooms.HiddenIsLost` | gateway/internal/api/users_repo.go:101-110 | of any two rooms where one lies below the other but not below its whole second, a walk with pages of one loses the lower |
| `RoomWalkRooms.LosslessExactly` | gateway/internal/api/rooms_repo.go:107-217 | over the rooms alone: every finished walk over tables of these rooms returns everything that matched throughout if and only if there are no two such rooms |
| `RoomWalkRooms.WalkFinishes` | gateway/internal/api/rooms_repo.go:107-217 | where every room has a readable cursor, a walk given floor(n/limit)+1 calls finishes, and then has lost nothing if no room hides another |
| `RoomWalkFixed.FixedTableWalk` | gateway/internal/api/rooms_repo.go:126-216 | on a fixed table of n rooms the concatenated pages are the sorted list if and only if every page end is safe; the walk then makes floor(n/limit)+1 calls that all report n |
| `RoomWalkFixed.EveryPageSize` | gateway/internal/api/rooms_repo.go:126-216 | a table is listed completely at every page size if and only if a page may end after each of its rows |
| `RoomWalkFixed.WholeSecondsAreComplete` | gateway/internal/api/rooms_repo.go:126-216 | rooms created on whole seconds are listed completely at every page size |
| `RoomWalkFixed.TwoRoomsExactly` | gateway/internal/api/users_repo.go:101-110 | any two rooms on pages of one are listed completely if and only if both cursors can be read back and the lower room lies below the upper one's whole second |
| `RoomArchive.ArchivingTakesTurns` | gateway/internal/api/rooms_repo.go:291-353 | in every interleaving of calls and of archivings by the core, archivings of a room by anyone and unarchivings alternate and the last one tells its status |
| `RoomArchive.SuccessIsOneUpdate` | gateway/internal/api/rooms_repo.go:291-353 | a call that reports success made an update, and no call makes two |
| `RoomArchive.UpdateIsReported` | gateway/internal/api/rooms_repo.go:291-353 | a call whose update took effect reports success, or its answer was lost and it reports a database error; it never reports a refusal |
| `RoomArchive.ArchivingBalances` | gateway/internal/api/rooms_repo.go:291-353 | archivings, with those of the core, less unarchivings are what the status of any room has gained since the start |
| `RoomArchive.OwnUpdatesTakeTurns` | gateway/internal/api/server.go:1341-1367 | the repository's own archivings and unarchivings of a room alternate if and only if no archiving by the core was followed by another change, and they also tell the status if and only if the core never archived the room |
| `RoomArchive.CoreArchivesLate` | gateway/internal/api/server.go:1341-1367 | a run in which the core's archiving lands after the room was unarchived: two successful unarchivings in a row |
| `Hex.HexRoundTrip` | gateway/cmd/gateway/main.go:1535-1646 | hex decoding inverts hex encoding |
| `Hex.HexDigits` | gateway/internal/compliance/signing_key.go:128-134 | each byte is written as two lower-case digits, the high one first |
| `Hex.HexReadsExactly` | gateway/internal/compliance/signing_key.go:177-182 | what can be read is any even number of hex digits, in either case |
| `SigningKey.ServerConfig.LoadKeys` | gateway/cmd/gateway/main.go:1535-1646 | the row loop reads exactly the stored halves, by the names of their rows |
| `SigningKey.ServerConfig.EnsureComplianceSigningKey` | gateway/cmd/gateway/main.go:1535-1646 | the plain build returns what both rows decode to, or installs the generated halves that are absent in hex, and never reports a missing key |
| `SigningKey.ServerConfig.EnsureSealedSigningKey` | gateway/internal/compliance/signing_key.go:98-149 | the sealed build returns what the private row opens to, each refusal exactly when it is due, or installs the generated pair with its private half sealed |
| `SigningKey.ServerConfig.MigrateLegacyPlaintextKey` | gateway/internal/compliance/signing_key.go:230-271 | a row of 128 hex digits is sealed with its key inside; a row in any other shape, and every other row, stays |
| `SigningKey.StatementsAre` | gateway/internal/compliance/signing_key.go:98-149 | what each statement of an instance of either build makes of the rows: when it inserts, what the insert adds, and what the last read returns |
| `SigningKey.NeverBoth` | gateway/internal/compliance/signing_key.go:161-197 | the rows never satisfy both builds |
| `SigningKey.StoredPairNeverChanges` | gateway/internal/compliance/signing_key.go:230-271 | in every interleaving of instances of both builds and of migrations, a stored public row never changes, and a private row keeps the key inside, as it is or sealed |
| `SigningKey.SettledRowsStay` | gateway/internal/compliance/signing_key.go:230-271 | a private row that is not plain changes no more, unless a migration that read it plain has still to rewrite it |
| `SigningKey.Agreement` | gateway/cmd/gateway/main.go:1535-1646 | all instances that return a pair, of either build and whenever they do, return the same private key, and those of one build the same pair |
| `SigningKey.BuildsAgree` | gateway/internal/compliance/signing_key.go:98-149 | from absent rows, instances of both builds return one and the same pair, which one instance of the run generated |
| `SigningKey.NeverMissing` | gateway/internal/compliance/signing_key.go:98-149 | no instance of either build ever reports the rows missing |
| `SigningKey.HalvesBelongTogether` | gateway/cmd/gateway/main.go:1535-1646 | the halves of a pair that a plain instance returns, if they were not there at the start, were generated by one instance of the run |
| `SigningKey.OneGeneration` | gateway/cmd/gateway/main.go:1535-1646 | the pair a plain instance returns is what one instance of the run generated if and only if neither row stood there before: a lone row is paired with a foreign half |
| `ComplianceDecision.ApprovalClient.Decide` | gateway/internal/admin/compliance_handler.go:100-159 | each outcome exactly when it is due; success writes the decision, its approver and the audit event, and everything else changes nothing |
| `ComplianceDecision.ApprovalClient.PostDecision` | gateway/internal/compliance/handler.go:310-417 | the same over the API, with its role gate and its bounds on the request's id and the note, and without a check for a subject |
| `ComplianceDecision.DecisionNeverChanges` | gateway/internal/admin/compliance_handler.go:100-159 | in every interleaving of decisions from the admin pages and over the API a request leaves pending at most once and its row never changes after |
| `ComplianceDecision.AtMostOneSucceeds` | gateway/internal/admin/compliance_handler.go:100-159 | no two calls on one request succeed, on whichever route |
| `ComplianceDecision.SuccessIsStored` | gateway/internal/admin/compliance_handler.go:100-159 | a successful call's decision and approver are stored for good; the approver is not the requester, and is not empty except over the API |
| `ComplianceDecision.DecidedByOneCall` | gateway/internal/compliance/handler.go:310-417 | a decided request was decided by exactly one call, on either route, with four eyes, even if that call's answer was lost |
| `ComplianceDecision.AuditMatchesDecision` | gateway/internal/admin/compliance_handler.go:100-159 | at most one audit event per request, whose actor, action and note are those of the stored decision |
| `ComplianceDecision.EmptyApproverExactly` | gateway/internal/compliance/handler.go:310-417 | a request decided in the run stores an empty approver if and only if the deciding call carried no subject, and that happens over the API alone |
| `ComplianceDecision.ApproverMayBeEmpty` | gateway/internal/compliance/handler.go:310-417 | a run in which the API stores an empty approver |
| `BootstrapTx.Tx.SaveRows` | gateway/internal/admin/bootstrap.go:557-580 | the upsert loop takes effect row by row and stops at the failing statement |
| `BootstrapTx.Tx.Complete` | gateway/internal/admin/auth.go:233-256 | the completion mark is inserted if absent, a second time is already completed, and the retention period keeps what it was |
| `BootstrapTx.Database.ClaimSelection` | gateway/internal/admin/auth.go:1009-1038 | with a failure at any statement or at COMMIT, either all statements take effect or none, and the result tells which case it was |
| `BootstrapTx.CommitInstalls` | gateway/internal/admin/auth.go:1009-1029 | a committed run stores its eight values, the mark and a retention period, changes no other key and empties the draft |
| `BootstrapTx.InstalledRows` | gateway/internal/admin/auth.go:1009-1029 | the ten rows an installation leaves, each with its value of the selection, and that every other row is as it was |
| `BootstrapTx.IsBootstrapActive` | gateway/internal/admin/bootstrap.go:489-529 | active if and only if not completed and either flagged active or without users |
| `BootstrapRuns.AllOrNothing` | gateway/internal/admin/auth.go:1009-1029 | in every interleaving of runs, draft saves and other writers, a step of a run changes nothing, or installs its whole selection and removes the draft rows it deleted |
| `BootstrapRuns.DraftAfterCommit` | gateway/internal/admin/auth.go:1009-1029 | what a commit leaves of the draft are the names saved between the run's DELETE and its COMMIT; the draft ends empty if and only if nothing was saved in between |
| `BootstrapRuns.AtMostOneCommit` | gateway/internal/admin/auth.go:233-256 | over a whole execution at most one run commits, and none if bootstrap was complete before |
| `BootstrapRuns.NeverActiveAgain` | gateway/internal/admin/bootstrap.go:489-529 | after a commit bootstrap is never active again and no other run commits |
| `BootstrapRuns.ReportsAreTrue` | gateway/internal/admin/auth.go:1009-1038 | a run that reports success is the one that committed; already completed is reported only if the mark stands and the run did not commit |
| `ImportLock.ImportState.Import` | gateway/internal/admin/bootstrap.go:385-468 | one import: the lock is given back on every path, the outcome is that of the first failing stage, and the counters are those of what was sent or untouched |
| `ImportLock.EndsExactly` | gateway/internal/admin/bootstrap.go:385-468 | which directory is asked, SCIM before OIDC, which failure ends the import, and that the core gets one claim per user with its Matrix id, display name and e-mail address |
| `ImportLock.OneImport` | gateway/internal/admin/bootstrap.go:385-468 | in every interleaving at most one import is past the compare-and-swap, and then the lock is taken |
| `ImportLock.AlwaysReleased` | gateway/internal/admin/bootstrap.go:385-468 | when no action is past the compare-and-swap the lock is free: every return path released it |
| `ImportLock.FreeMeansDone` | gateway/internal/admin/bootstrap_scim.go:33-51 | whenever the lock is free after an import got past fetching, done is set, total is the 32-bit number of users sent, and the other counters are the core's answer or zero |
| `AdminSessions.GuardExactly` | gateway/internal/admin/middleware.go:214-217 | exactly when a session is refreshed, served or redirected; the grace limit never decides |
| `AdminSessions.NewExpiry` | gateway/internal/admin/middleware.go:333-337 | the new expiry is the smaller of the token's and eight hours from now |
| `AdminSessions.SessionStore.Create` | gateway/internal/admin/session_store.go:20-31 | adds one unrevoked session with the given user, expiry and token; every other session stays as it is |
| `AdminSessions.SessionStore.RevokeSession` | gateway/internal/admin/session_store.go:20-31 | the session is revoked with its user, expiry and token as they were; no session appears or goes and no other changes |
| `AdminSessions.SessionStore.SlideExpiry` | gateway/internal/admin/session_store.go:20-31 | the session has the new expiry and token, its user, and is revoked exactly if it was; no session appears or goes and no other changes |
| `AdminSessions.SessionStore.CleanupExpired` | gateway/internal/db/admin_session_store.go:110-120 | exactly the sessions that expired more than seven days ago are deleted |
| `AdminSessions.SessionStore.GuardRequest` | gateway/internal/admin/middleware.go:179-283 | one request is served exactly if its session stands unrevoked and has time left or, when due, is refreshed; a refused refresh revokes it, a granted one stores the new expiry and a rotated token |
| `AdminSessions.ExpiryBounded` | gateway/internal/admin/middleware.go:287-353 | in every interleaving each stored expiry is at most eight hours after its write |
| `AdminSessions.HandlerJustified` | gateway/internal/admin/middleware.go:179-283 | the handler runs only on a session read unrevoked that had time left, or that was due and has been refreshed |
| `AdminSessions.NoHandlerAfterRevocation` | gateway/internal/admin/middleware.go:179-283 | a request whose store read follows a revocation never reaches the handler |
| `AdminSessions.RevocationKills` | gateway/internal/admin/auth.go:1108-1126 | a logout revokes for good, in the sense NoHandlerAfterRevocation needs |
| `AdminSessions.RefusalKills` | gateway/internal/admin/middleware.go:219-237 | so does the revocation after a refused refresh |
| `OidcCache.ProviderCache.LookUp` | gateway/internal/admin/oidc_cache.go:48-73 | a fresh entry answers, a stale one is dropped |
| `OidcCache.ProviderCache.Load` | gateway/internal/admin/oidc_cache.go:48-87 | an undisturbed load does not fetch again within the lifetime of a provider or of an error |
| `OidcCache.BuiltForIssuer` | gateway/internal/admin/oidc_cache.go:48-87 | in every overlap of loads, what is returned for an issuer came from a fetch for that issuer |
| `OidcCache.BoundedStaleness` | gateway/internal/admin/oidc_cache.go:48-87 | a cached provider comes from a fetch begun less than ten minutes before, a cached error from one begun less than thirty seconds before, even when a slow writer overwrites a newer entry |
| `RoleGate.CacheKeyInjective` | gateway/internal/api/middleware.go:46-65 | two users of one gate never share a cache entry |
| `RoleGate.UncachedExactly` | gateway/internal/api/middleware.go:68-109 | of the gate without a cache: who is let in, and which refusal everyone else gets |
| `RoleGate.RequireRole.CheckOverride` | gateway/internal/api/middleware.go:46-65 | a live entry answers without the database; otherwise the database does, an expired entry is evicted and only answers, not errors, are stored |
| `RoleGate.RequireRole.Handle` | gateway/internal/api/middleware.go:68-109 | the gate lets in exactly the callers whose role is its own or to whom a live entry of their own, or else the database, grants it, answers unavailable exactly on a failed lookup it needed, unauthorized without any role, and forbidden otherwise |
| `RoleGate.RefinesUncached` | gateway/internal/api/middleware.go:39-109 | under concurrent loads, evictions and stores every decision is the uncached one on the request's own lookup, or on an answer stored for the same user less than sixty seconds before its use |
| `RoleGate.AllowedExactly` | gateway/internal/api/middleware.go:39-109 | in every interleaving a request is let in if and only if its role is the gate's or the answer it was decided on grants it |
| `RoleGate.FailuresAreUnavailable` | gateway/internal/api/middleware.go:39-109 | the gate answers unavailable if and only if the request's own lookup failed: failures are never cached and never a grant |
| `ClaimLoader.Loader.Get` | gateway/cmd/gateway/main.go:103-117 | one call loads if nothing was loaded within sixty seconds, keeps the old value if loading fails, and returns what it holds |
| `ClaimLoader.ReturnsMostRecent` | gateway/cmd/gateway/main.go:103-117 | over any calls, each returns the result of the most recent successful load, or the empty string |
| `ClaimLoader.LoadsExactly` | gateway/cmd/gateway/main.go:103-117 | a call loads if and only if no load succeeded within the sixty seconds before it |
| `ClaimLoader.RecentUnlessLoadFails` | gateway/cmd/gateway/main.go:103-117 | a call returns a value less than sixty seconds old if and only if it did not have to load in vain |
| `Scim.PrimaryEmail` | gateway/internal/admin/scim_client.go:86-96 | the first primary address, else the first, else none |
| `Scim.FetchUsers` | gateway/internal/admin/scim_client.go:189-263 | at most 1001 requests against any server; each user has the user name or else the id as subject, the first primary or else the first address, and every text cut at 512 bytes, in the order of the pages; disabled gives none and a bad endpoint an error without any request |
| `Scim.FetchedExactly` | gateway/internal/admin/scim_client.go:189-263 | for every server: a fetch succeeds with exactly the users of its answers in order, full pages up to the first of fewer than a hundred, and fails with a request that fails; anything else is too many users |
| `Scim.CompleteExactly` | gateway/internal/admin/scim_client.go:189-263 | against a server of a fixed list, all users are fetched if and only if no page on the way is short and the cap is kept; beyond the cap full pages end in an error |
| `Scim.CompletePageSizes` | gateway/internal/admin/scim_client.go:189-263 | with pages of at most p users, nothing is lost if and only if p is at least a hundred or one page holds them all |
| `Scim.ExactRequests` | gateway/internal/admin/scim_client.go:189-263 | a server that honours the page size is asked floor(n/100)+1 times for n users |
| `Scim.SmallPagesLose` | gateway/internal/admin/scim_client.go:248-254 | against a server that serves fewer than a hundred users at a time, exactly the first page is imported, without an error |
| `TomlMerge.MergeByKey` | _bmad/scripts/resolve_config.py:80-100 | the loops with their index map are upserts one by one; an item whose key is a table or an array raises |
| `TomlMerge.Upserted` | _bmad/scripts/resolve_config.py:80-100 | index_by_key always points at the last item with its key, which is where an upsert goes |
| `TomlMerge.MergeArrays` | _bmad/scripts/resolve_config.py:103-109 | arrays merge by `code` if all items are tables that have it, else by `id` likewise, and raise exactly if one of these keys is a table or an array; all other arrays are appended |
| `TomlMerge.SameKeyExactly` | _bmad/scripts/resolve_config.py:80-100 | two values are one dictionary key exactly if they are equal or the same number, truth values counting as 1 and 0; tables and arrays are none |
| `TomlMerge.DeepMerge` | _bmad/scripts/resolve_config.py:112-123 | in whatever order the override's keys come, tables merge key by key, arrays as arrays, and otherwise the override wins; it raises exactly if the merge of some shared key does |
| `TomlArrays.MergeByKeyMeaning` | _bmad/scripts/resolve_config.py:80-100 | base items keep their places, overridden keys get their last override item, and new keys follow once each with their last item |
| `TomlArrays.MergedItems` | _bmad/scripts/resolve_config.py:80-100 | item by item: what is overridden by what, what is kept, and that exactly the last items of new keys are appended |
| `TomlArrays.NewKeysAre` | _bmad/scripts/resolve_config.py:80-100 | the appended keys are exactly those of the override that the base lacks |
| `TomlArrays.NewKeysInOrder` | _bmad/scripts/resolve_config.py:80-100 | they stand in the order of their first appearance |
| `TomlArrays.KeysStayUnique` | _bmad/scripts/resolve_config.py:80-100 | merged keys are unique if and only if the base's are |
| `TomlArrays.UpsertAllAssociative` | _bmad/scripts/resolve_config.py:80-100 | merging by one key is associative, whatever keys repeat |
| `TomlLayers.AgreeingNeverRaise` | _bmad/scripts/resolve_config.py:80-123 | layers that agree never raise |
| `TomlLayers.MergedAgrees` | _bmad/scripts/resolve_config.py:80-123 | a layer that agrees with two agreeing layers agrees with their merge |
| `TomlLayers.Associative` | _bmad/scripts/resolve_config.py:80-123 | the merge is associative on layers that agree in kind at every shared path and whose arrays are keyed alike |
| `TomlLayers.AnyGrouping` | _bmad/scripts/resolve_config.py:159-161 | all five groupings of four agreeing layers give the same configuration, and none of the merges in any of them raises |
| `TomlLayers.KindsMustAgree` | _bmad/scripts/resolve_customization.py:150-166 | a scalar between two tables: the grouping matters |
| `TomlLayers.FieldsMustAgree` | _bmad/scripts/resolve_customization.py:96-110 | an array keyed by `id` after two keyed by `code`: the grouping matters |
| `TomlLookup.PathLookup` | _bmad/scripts/resolve_config.py:112-134 | what every path leads to in a merge: the override's value merged onto the base's, the override's alone, or the base's unless the override holds a non-table on the way |
| `TomlLookup.LookupFollows` | _bmad/scripts/resolve_config.py:126-134 | a path has a value if and only if it leads to it entry by entry through tables |
| `TomlLookup.RaisesExactly` | _bmad/scripts/resolve_config.py:112-123 | a merge raises if and only if at some path both sides hold arrays that raise |
| `TomlLookup.SplitJoin` | _bmad/scripts/resolve_config.py:126-134 | every path of dotless keys can be asked for by one dotted key |
| `TomlLookup.ExtractKey` | _bmad/scripts/resolve_config.py:126-134 | the loop over the parts is path lookup |
| `TomlLookup.TopScalarWins` | _bmad/scripts/resolve_config.py:159-161 | a scalar at a path decides it if no layer above holds the path or has a non-table on the way, whatever the layers below hold |
| `TomlLookup.PresentExactly` | _bmad/scripts/resolve_config.py:159-161 | a path is in the result if and only if some layer holds it and no layer above the highest such one has a non-table on the way |
| `TomlLookup.FindProjectRoot` | _bmad/scripts/resolve_customization.py:56-64 | the nearest marked directory upwards, or that there is none |
| `TomlLookup.ResolveConfig` | _bmad/scripts/resolve_config.py:137-172 | four layers loaded in order and folded from the left; the output is the merged configuration, or a table of exactly the keys asked for that it has, each with its value; with every way in which the program ends early |
| `TomlLookup.ProgramExactly` | _bmad/scripts/resolve_config.py:45-68 | the program writes its answer if and only if the first file is parsed, no file fails to be UTF-8, no merge raises and no date or time is to be written; the answer is the merged contents or exactly the keys asked for that they have, a missing or broken layer counting as empty |
| `TomlLookup.FailsExactly` | _bmad/scripts/resolve_config.py:45-68 | which error ends a program that fails: an unusable first file, then a file that is not UTF-8, then the merge or the writing |
| `TomlLookup.LayeredRaisesExactly` | _bmad/scripts/resolve_config.py:159-161 | the fold raises if and only if some layer clashes with what the layers below it have become |
| `TomlLookup.HasMomentExactly` | _bmad/scripts/resolve_config.py:163-172 | a value cannot be written if and only if some way through its tables and arrays ends at a date or a time |
| `TomlLookup.ResolveCustomization` | _bmad/scripts/resolve_customization.py:180-226 | the same with three layers, of which the last two come from the project of the skill, or else of the working directory, or else are empty |

## Left out

- RoomArchive.ArchivingTakesTurns: one step stands for every way in which the core comes to archive a room (the gateway's request, the admin pages, a room upgrade); the core's processes and its audit events are not modelled.
- RoomWalk.NoRoomTwice: a room deleted and created anew under the same id with another timestamp counts as a change of `created_at`, which is assumed not to happen.
- RoomsRepo.RoomRepo.ListRooms: the count and the page query see one table; a change between the two statements can make the total differ. Member counts and statement failures by a lost connection are not modelled.
- RoomsRepo.RoomRepo.UpdateRoom: returns the row; `GetRoom`, whose join multiplies member and message counts, is not part of this model.
- RoomQuery.WhereDenotes: a clause's text is its constructor, `ILIKE` is a parameter, and the collation of `room_id` is any injective map into the reals, that is, any strict total order.
- Json.TwoMembersRead: the reader covers the JSON grammar as Go accepts it, but what it gives is characterised only for objects that the cursor encoder writes.
- SignedCookie.AcceptedCookies: HMAC-SHA256 is an arbitrary function of the text.
- SigningKey.Agreement: the two-row INSERT is one atomic step; Ed25519 generation is an arbitrary function per instance, and AES-GCM any cipher whose decryption inverts its encryptions.
- ComplianceDecision.AuditMatchesDecision: that an audit event is written at all is not promised; delivery to the core is best effort.
- BootstrapRuns.AllOrNothing: reading the draft before the transaction is an arbitrary choice of the selection, and progress (absence of lock waits without end) is not stated.
- ImportLock.AlwaysReleased: a panic between the compare-and-swap and the release would leave the lock taken; panics are not modelled.
- AdminSessions.HandlerJustified: the OIDC token exchange is a step that grants or refuses; encryption of the refresh token is not modelled.
- OidcCache.BoundedStaleness: provider construction is a step with an arbitrary result.
- RoleGate.RefinesUncached: the database's answer at the time of the lookup is arbitrary; sixty seconds count from the store, as in the code, not from the lookup.
- Scim.FetchUsers: HTTP, the 5 MB limit and JSON decoding are folded into a page request that fails; the URL check is a Boolean input.
- TomlMerge.DeepMerge: the order of keys within a table, NaN and infinite floats, and two spellings of one instant are not modelled; Python's shallow copies are values here.
- TomlLookup.ResolveConfig: parsing TOML text and writing JSON text; a file's state and content are inputs.
- `PatchAdminConfig`: it writes key by key and promises no atomicity.
- HTTP routing, cookies as headers, CSRF, templates, metrics, gRPC and rate limiting: plumbing without a protocol of its own.
- User, configuration and stub handlers that serve from memory: only easy claims.
