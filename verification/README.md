# healarr in Dafny

healarr watches a two-node media stack: a Pi that owns Sonarr, Radarr and Overseerr, and a NAS that owns
qBittorrent and the files. Each node runs checks, keeps their findings in SQLite, exchanges reports and
decisions with its peer, and removes things only behind an actions gate. This project models the parts of
it that hold real state, protocols, codecs and arithmetic, and proves what they promise.

- `Ledger`, `Store` - the findings table. `Ledger` says what each SQL statement, a saved report and a snooze
  do to the rows; `Store` is the store as a class whose loops and transaction are proved against it. SQL
  details are kept: SET reads the old row, a NULL snooze falls into ELSE, an error at any statement rolls
  everything back (`fuse` is how many statements succeed). Runs are sequences of saved reports and snoozes.
- `Runner`, `Ordering`, `Sorting` - the check runner, its stable sort, and the composition with the ledger.
- `Decisions`, `Protocol`, `Retry` - the two halves of a delete and everything between them. Each half is a
  class that appends to an event log; `Protocol` interleaves any number of both, event by event, with lost
  replies, late delivery and crashes. The outside world's answers are parameters.
- `Paths`, `Orphans`, `Cleanup` - lexical path cleaning, the containment test, orphan detection, planners
  and the host executor.
- `Timestamps`, `PeerMessages` - stored timestamps and the nightly prune.
- `Migrations`, `History`, `Docker`, `Quoting`, `Staleness` - resumable migrations, paged history, log
  demultiplexing, mountinfo and shell quoting, the staleness score.
- `Text`, `Findings` - strings, numerals and the value types shared by the rest.

Instants are integers in nanoseconds; storage keeps whole seconds (`Timestamps.Seconds`), and
`Timestamps.StoredOrder` is why comparing the stored strings is comparing those seconds.

## Where the code does less than its words

Each of these has its exact condition as a lemma, most of them next to one that gives the input:

- A snooze is documented to hold while a report is before `snooze_until`; it holds exactly while the report's
  *second* is before it (`Ledger.SubSecondSnoozeReopens`, `Ledger.SnoozeHeldByReport`).
- The active keys of a check that ran are those the report named, except that a finding carrying another node
  shields an active row of this node (`Ledger.RanKeysExact`, `Ledger.ForeignFindingShields`). `ReceiveReport`
  rewrites the report's node only, so a peer report can contain such findings; those built by `NewFinding` cannot.
- Severities other than the three declared ones tie with info in the runner but sort below it in the query
  (`Ordering.OrdersAgree`).
- Under a configured `/`, only `/` itself is admitted, so the planners' own items are refused
  (`Paths.UnderDirMeaning`, `Cleanup.RootRefusesItsOwnPlan`).
- Content three or more levels below a downloads directory, or spelled so that no real name stands behind its
  last slash (a trailing slash, `/.`, `/..`), does not protect the folder it is in. `Orphans.KeptExactly` is the
  exact condition for any list of torrents, `Orphans.ProtectedExactly` the one for a torrent by itself,
  `Orphans.AncestorAccounted` the one for a single path; `Orphans.DeepContentReported` and
  `Orphans.TrailingSlashReported` are the inputs.
- Migrations apply exactly once under every crash schedule if and only if the positive versions strictly
  increase in name order (`Migrations.ExactlyOnceIffIncreasing`); names without padding need not
  (`Migrations.UnpaddedNamesSkip`), those of the shipped scheme do (`Migrations.SchemeIncreases`).
- The history loop's early exit equals the plain filter if and only if no recent record follows an old one
  (`History.HistoryIsFilter`).
- Pruning is safe for a fresh peer if and only if `peer_stale_after` is below `peer_message_retention` plus one
  second (`PeerMessages.PruneSafeExactly`).
- The age weight may have any sign; only the day weight decides whether waiting can lower a score
  (`Staleness.AgeMonotone`, `Staleness.WaitingNeverHelps`).
- A stream cut inside a frame header keeps the partial header's bytes, and no other cut does (`Docker.DemultiplexCut`).
- Stored times sort by time up to year 9999 only (`Timestamps.StoredOrder`, `Timestamps.FiveDigitYearsSortFirst`).
- Decoding octal escapes inverts the escaping if and only if the backslash, or each of the digits 0 to 3, is escaped
  too (`Quoting.RoundTripExactly`).

## Model

| member | source | states |
|---|---|---|
| Ledger.ReachableInv | internal/store/findings.go:74-148 | after any run of reports and snoozes: one active row per key; open rows have no snooze, snoozed rows have one, resolved_at is set exactly on resolved rows |
| Ledger.ActiveAfterSave | internal/store/findings.go:31-64 | for every report and table, exactly which keys are active afterwards, with no assumption about the findings' nodes |
| Ledger.RanKeysExact | internal/store/findings.go:122-137 | for a check that ran, active keys equal named keys if and only if no active entity is named only by findings of another node |
| Ledger.ForeignFindingShields | internal/agent/handler.go:31-46 | for every finding, a report of its node that names the entity for another node only leaves its row active and unnamed |
| Ledger.RanKeysExactOnOwnNode | internal/store/findings.go:26-30 | when all findings carry the report's node, the active keys of a check that ran are exactly the named ones |
| Ledger.SaveFrame | internal/store/findings.go:81-89 | a row changes under a report if and only if it is active and is named or left out by a check that ran on its node |
| Ledger.OtherRowsUntouched | internal/store/findings.go:29-30 | rows of another node, or of a check neither run nor reported, are bit-for-bit unchanged |
| Ledger.OnlyOwnNodeResolves | internal/agent/handler.go:31-46 | a report of another node never resolves a row |
| Ledger.LastFindingWins | internal/store/findings.go:81-89 | a named row shows the last finding naming it, keeps tier and first_seen, is stamped with the report's second and counts each naming |
| Ledger.AddedRows | internal/store/findings.go:101-117 | an added row is open, unsnoozed, first and last seen at the report's second, counts the findings of its key, and had no active row before |
| Ledger.AddedRow | internal/store/findings.go:101-117 | an added row, whole: the last finding about it with the tier of the first |
| Ledger.NamedRow | internal/store/findings.go:74-99 | a named row, whole: the last finding about it with the row's tier, one more sighting each, snoozed still only until a later second |
| Ledger.UnnamedRow | internal/store/findings.go:122-148 | every other row: closed at the report's second when the check ran on its node without the entity, else bit-for-bit the same |
| Ledger.SnoozedRow | internal/store/decisions.go:154-164 | a snooze row by row: only active rows of the entity change, and only status and deadline |
| Ledger.SeenConserved | internal/store/findings.go:31-53 | over any run, seen counts sum to the number of findings ever saved |
| Ledger.UpsertAllSum | internal/store/findings.go:35-53 | one report adds its findings to the seen counts, and active rows grow by exactly the rows inserted, even with duplicate keys |
| Ledger.RowsPersist | internal/store/findings.go:122-126 | through any run rows keep key, tier and first_seen, counts never fall, resolved rows never change |
| Ledger.SnoozeHeldByReport | internal/store/findings.go:66-73 | a row stays snoozed until u under a report if and only if the report does not name it at or after u and does not leave it out |
| Ledger.SnoozeExpires | internal/store/findings.go:84-85 | the first report naming the key at or after u reopens the row and clears snooze_until |
| Ledger.SnoozeHeld | internal/store/decisions.go:148-164 | over any run of respectful steps the row keeps its snooze and deadline |
| Ledger.SubSecondSnoozeReopens | internal/store/findings.go:80-88 | a report earlier than snooze_until but in its second reopens the row |
| Ledger.SnoozedAbsentFromDigest | internal/agent/digest.go:175-193 | while a row is snoozed nothing of its key is in the staleness list |
| Ledger.KeepHidesFromDigest | internal/decision/execute.go:50-70 | in any history, keeping an entity snoozes its active row and hides its key from the digest through any steps that respect the snooze |
| Store.Store.UpdateOpenFinding | internal/store/findings.go:74-99 | the UPDATE touches exactly the active row of the key, and reports whether there was one |
| Store.Store.ResolveMissingFindings | internal/store/findings.go:122-148 | the UPDATE closes exactly the missing active rows and counts them |
| Store.Store.UpsertFindings | internal/store/findings.go:31-64 | both loops together compute Save; counters satisfy New+Updated = findings, rows + New, active + New - Resolved |
| Store.Store.SaveReport | internal/store/reports.go:22-53 | all statements complete and the table is Save of the old one, or nothing changed; exactly when which |
| Store.Store.SnoozeEntity | internal/store/decisions.go:154-164 | every active row of the entity is snoozed until the stored second and otherwise unchanged; resolved rows and rows of other entities are equal to the old ones |
| Store.Store.OpenFindings | internal/store/findings.go:150-183 | exactly the active rows of the node, sorted; on a reachable table strictly, so the order is determined |
| Store.OpenStalenessFindings | internal/agent/digest.go:184-193 | exactly the open staleness findings of the list |
| Store.CollectStaleness | internal/agent/digest.go:202-208 | own findings, then the peer's, stably sorted by falling score |
| Store.Store.DigestStaleness | internal/agent/digest.go:74-86 | the section is the open, unsnoozed staleness findings of the node, then of the peer once heard from, each as often as it has a row, stably sorted by falling score |
| Store.DigestUnique | internal/agent/digest.go:202-208 | on a reachable table the section is fully determined, ties in score included |
| Sorting.SortIsStable | internal/check/runner.go:89-102 | the sort is sorted and keeps each group of ties as it was |
| Sorting.StableSortUnique | internal/check/runner.go:92-101 | the stable sort of an input is unique, so the library's algorithm cannot matter |
| Ordering.SortFindings | internal/check/runner.go:89-102 | the result is the stable sorted permutation by severity, check id and entity key |
| Ordering.FindingOrder | internal/check/runner.go:92-113 | the comparison is a strict weak order |
| Ordering.SortedMeaning | internal/check/runner.go:89-113 | in the sorted list critical precedes warn precedes the rest, then by check, then by entity |
| Ordering.QueryOrderMeaning | internal/store/findings.go:158-160 | the query orders critical, warn, info and then the rest, then by check and entity |
| Ordering.OrdersAgree | internal/store/findings.go:158-160 | runner order and query order agree on two severities if and only if not info against an undeclared one |
| Runner.Run | internal/check/runner.go:17-39 | ran, skipped and errors in registry order, findings of completed checks only, stably sorted, later metrics win |
| Runner.RunOneMeaning | internal/check/runner.go:63-87 | a check completes, is skipped or fails by its own fields, and a completed one gives its own result |
| Runner.RunsConcatenate | internal/check/runner.go:17-35 | all lists of a run are in registry order, and a later metric wins |
| Runner.RunOfOne | internal/check/runner.go:22-34 | one check is reported in exactly one place, with what it returned or why it failed |
| Runner.EachCheckOnce | internal/check/runner.go:20-38 | with distinct ids every check is in exactly the list its own way of ending decides, and the two counters count those lists |
| Runner.RanInOrder | internal/check/runner.go:20-28 | a completed check stands in ran behind exactly the completed checks before it |
| Runner.UnfinishedIsSilent | internal/check/runner.go:63-87 | a check that does not come back in time without an error leaves no trace in the report |
| Runner.SilentCheckKeepsRows | internal/check/runner.go:12-13 | while a check cannot finish on a node, through any of its own reports and any of the peer's, even ones that ran that check, its rows of that node stay as they were and none is added |
| Runner.LeavesAloneExactly | internal/store/findings.go:31-64 | a report can change or add no row of a node and check, on any table, if and only if it neither ran the check for that node nor names anything of it there |
| Runner.CompletedCheckExact | internal/agent/cycle.go:43-48 | after a cycle a check that came back in time without an error has active exactly the entities it returned |
| Retry.DoWithRetry | internal/peer/client.go:154-195 | exact number of calls and outcome for every sequence of answers; unavailable and unauthorized exactly when |
| Decisions.EntityKeyRoundTrip | internal/decision/execute.go:124-136 | every key built from a 64-bit id parses back to the entity |
| Decisions.EntityKeyExactly | internal/decision/execute.go:124-136 | a key parses if and only if it is one of the two names, a colon and a 64-bit number |
| Decisions.CollectHashes | internal/decision/delete.go:194-218 | no hash twice, and exactly the upper-cased non-empty download ids of the entity |
| Decisions.DownloadHashesSnoc | internal/decision/delete.go:198-218 | the hashes in order of first occurrence |
| Decisions.Executor.DeclineOverseerrRequests | internal/decision/delete.go:137-172 | one decline for each matching request, in order, none without a client or an external id |
| Decisions.Executor.SendQbitDeleteHint | internal/decision/delete.go:177-192 | as many attempts of one message as the retry loop makes, none without a peer or hashes |
| Decisions.Executor.ExecuteDelete | internal/decision/delete.go:20-93 | the sequence of outside effects is the trace, gate first |
| Decisions.Executor.Execute | internal/decision/execute.go:23-45 | the sequence of outside effects of every kind of decision, and the answer: the executed decision, or an error naming every cause |
| Decisions.DeleteBookkeeping | internal/decision/delete.go:81-93 | one remediation attempt and one mark attempt with equal status, for every answer of every best-effort step |
| Decisions.DeleteComesSecond | internal/decision/delete.go:46-50 | an executed delete looks the entity up, deletes it right after, and deletes nothing else |
| Decisions.DeclinesMade | internal/decision/delete.go:131-172 | it declines exactly the requests of the media type under the external id of the first title with the entity's id; none without a client, a title, an id or an answer |
| Decisions.LookedUp | internal/decision/delete.go:95-129 | the external id is that of the first title with the id, and 0 when there is none |
| Decisions.DeclinesInOrder | internal/decision/delete.go:150-171 | one decline for each matching request, in the order listed |
| Decisions.DeleteStory | internal/decision/delete.go:41-58 | the whole order of an executed delete: lookup, delete, requests, history, messages, bookkeeping |
| Decisions.UnexecutedStory | internal/decision/delete.go:20-50 | the whole trace of a delete that is not executed, and none for a decision not found |
| Decisions.DeleteOutcome | internal/decision/delete.go:20-45 | a delete is blocked exactly behind a closed gate, and executed exactly with a key, its client and a working delete |
| Decisions.CausesExactly | internal/decision/execute.go:72-97 | for each cause, when Execute's error names it |
| Decisions.HintSent | internal/decision/delete.go:174-192 | it sends exactly the history's hashes, and does so unless there is no peer, no hash or no attempt |
| Decisions.BestEffortCannotInterfere | internal/decision/delete.go:15-19 | executions that agree on the *arr answer record the same |
| Decisions.OtherKindsBookkeeping | internal/decision/execute.go:32-70 | keep snoozes the entity and makes one mark, nothing else; an unknown kind only fails |
| Decisions.MarkComesLast | internal/decision/execute.go:50-96 | the last effect of every Execute of a found decision is its one mark, with the status its kind and answers determine |
| Decisions.WritesNeedGate | internal/decision/execute.go:72-75 | every write of an Execute happens with the actions gate on |
| Decisions.HashesFromPayload | internal/agent/handler.go:161-176 | the strings of the payload, in order, other items dropped |
| Decisions.HashesRead | internal/agent/handler.go:161-176 | what counts as hashes, for every list of items and every other payload |
| Decisions.HashesSurviveWire | internal/agent/handler.go:152-160 | after the JSON trip the receiver reads exactly the hashes sent |
| Decisions.Receiver.ReceiveDecision | internal/agent/handler.go:81-130 | the message is recorded first; only a recorded qbit_delete is acted on |
| Decisions.ReceiveStory | internal/agent/handler.go:81-130 | the whole trace of one received message: when torrents are deleted and which outcome is recorded |
| Protocol.ReachableInv | internal/agent/handler.go:81-90 | in every interleaving each thread's log is a prefix of its trace, each delivery has its own earlier attempt |
| Protocol.TorrentDeletesAreJustified | internal/decision/delete.go:41-58 | every torrent deletion: gate on, its delivery recorded before, and earlier one gated Pi execution deleted the entity and read a history all the hashes come from |
| Protocol.EveryWriteIsGated | internal/agent/handler.go:97-103 | in every run every write was made by a thread whose gate is on |
| Protocol.DeliveriesBounded | internal/peer/client.go:132-141 | in every run one Execute's message is handled at most 1 + retries times |
| Protocol.HashesReachNas | internal/agent/handler.go:97-130 | when everything works there is a run in which the NAS deletes exactly the hashes of the deleted entity's history |
| Protocol.Drive | internal/agent/handler.go:81-90 | in every reachable state every started thread can be driven to the end of its trace |
| Protocol.SendsPerExecute | internal/decision/delete.go:177-192 | one Execute makes at most 1 + retries delivery attempts |
| Paths.CleanIdempotent | internal/cleanup/hostremove.go:34-38 | cleaning keeps what a path denotes and is idempotent |
| Paths.CleanLeadsThere | internal/cleanup/hostremove.go:34-38 | in a tree without links a cleaned path leads where the written one does, from every directory |
| Paths.DotDotCancels | internal/cleanup/hostremove.go:73-79 | anywhere in any path a name and the .. behind it cancel |
| Paths.DotDotIsParent | internal/cleanup/hostremove.go:73-79 | the .. of an entry is its directory |
| Paths.DotDotAtRoot | internal/cleanup/hostremove.go:73-79 | the root is its own parent |
| Paths.DotDotStaysInFront | internal/cleanup/hostremove.go:73-79 | at the front of a relative path .. stays |
| Paths.ParseRender | internal/cleanup/hostremove.go:77-79 | rendering and parsing are inverse on canonical paths |
| Paths.UnderDirMeaning | internal/cleanup/hostremove.go:73-84 | the string test, for all strings, in terms of path elements |
| Paths.LeavingAndReturning | internal/cleanup/hostremove.go:73-84 | a key that leaves a directory by .. is under it if and only if what follows leads back into it by its name |
| Paths.SiblingRefused | internal/cleanup/hostremove_test.go:78-96 | a key that goes through .. to a sibling is refused |
| Paths.JoinedEntry | internal/cleanup/recycle.go:41 | joining an entry name appends one element |
| Paths.JoinOneEmpty | internal/cleanup/recycle.go:41 | joining with an empty element cleans the other; joining nothing gives nothing |
| Paths.ParsePushesLast | internal/checks/disk/orphans.go:105 | for every spelling, a rooted path is what stands behind its last slash pushed onto its directory |
| Cleanup.ExecuteHostRemove | internal/cleanup/hostremove.go:19-47 | what is attempted, Executed + errors = items, Bytes is the sum over removed items |
| Cleanup.AttemptOfOne | internal/cleanup/hostremove.go:31-46 | an item is tried, cleaned, exactly when a configured directory has it under it |
| Cleanup.FailuresSnoc | internal/cleanup/hostremove.go:31-46 | each item not removed has one line, in order, that says whether it was refused or failed |
| Cleanup.RemovedSnoc | internal/cleanup/hostremove.go:31-46 | an item is counted, in order and once, exactly when it was tried and the host agreed |
| Cleanup.Execute | internal/cleanup/cleanup.go:83-102 | nothing is attempted unless actions are on and dry run is off; then a host plan is removed as executeHostRemove does, counts included |
| Cleanup.RemovalsContained | internal/cleanup/hostremove.go:13-18 | every path handed to Remove is clean and has a configured directory's elements as a prefix |
| Cleanup.PlannedAdmitted | internal/cleanup/hostremove.go:62-71 | a planned item is admitted if and only if a configured directory other than the root is above it; its own is, unless it is the root |
| Cleanup.RootRefusesItsOwnPlan | internal/cleanup/hostremove.go:80-83 | with only the root configured, the planner's items are refused |
| Cleanup.PlansFullyAttempted | internal/cleanup/recycle.go:25-55 | from absolute non-root directories every planned item is attempted, as planned |
| Cleanup.RecyclePlan | internal/cleanup/recycle.go:25-69 | the planned items in order, Bytes their sum, no plan on a failed listing or measurement |
| Cleanup.DirItemsSnoc | internal/cleanup/recycle.go:37-55 | each old enough entry becomes an item in listing order, a directory with its measured size, and a failed measurement fails the plan |
| Cleanup.RecycleItemsPlanned | internal/cleanup/recycle.go:37-41 | every recycle item is an old enough entry of a configured directory |
| Cleanup.RecyclePlanFullyAttempted | internal/cleanup/recycle.go:25-55 | from absolute non-root directories every path of a recycle plan is tried, as planned |
| Cleanup.OrphansPlan | internal/cleanup/orphans.go:25-44 | no plan when orphan detection fails; otherwise exactly the old enough orphans, in order, Bytes the sum |
| Cleanup.OrphanItemsSnoc | internal/cleanup/orphans.go:31-43 | each old enough orphan becomes an item, in order, no other does |
| Cleanup.OrphanPlanPlanned | internal/cleanup/orphans.go:25-44 | every planned orphan is an entry of a downloads directory that no torrent accounts for |
| Cleanup.OrphanPlanFullyAttempted | internal/cleanup/orphans.go:25-44 | from absolute non-root directories every path of an orphan plan is tried, as planned |
| Cleanup.OrphanRemovalSafe | internal/cleanup/orphans.go:25-44 | no path tried for an orphan plan is the content of a torrent whose content is Kept, an ancestor of it, or SavePath/Name of any |
| Orphans.TrackedPaths | internal/checks/disk/orphans.go:99-112 | the two sets are the union of what each torrent contributes |
| Orphans.FindOrphans | internal/checks/disk/orphans.go:71-92 | all unaccounted entries in listing order, or nothing when anything failed |
| Orphans.OrphanMembers | internal/checks/disk/orphans.go:117-127 | an entry is reported if and only if no torrent accounts for it |
| Orphans.UnaccountedSnoc | internal/checks/disk/orphans.go:117-127 | entries are reported in listing order with their own size, kind and age |
| Orphans.DirectoriesInOrder | internal/checks/disk/orphans.go:84-92 | directories are reported in configured order, and one failed listing fails all |
| Orphans.OrphanSafety | internal/checks/disk/orphans.go:94-98 | of a torrent whose content is Kept neither the content nor an ancestor is reported; SavePath/Name of any torrent never is |
| Orphans.KeptExactly | internal/checks/disk/orphans.go:71-127 | for any torrents and any content path, no listing makes the content or anything above it reported if and only if in every configured directory above it some torrent keeps the entry on the way |
| Orphans.ProtectedExactly | internal/checks/disk/orphans.go:99-112 | for one torrent with all three fields, in any spelling, nothing at or above its content is ever reported if and only if it is Protected; a Protected torrent is Kept in any list |
| Orphans.AncestorAccounted | internal/checks/disk/orphans.go:103-106 | over every rooted spelling, a path at or above the content is accounted for if and only if it is the content, or its parent and a real name stands behind the last slash |
| Orphans.DeepContentReported | internal/checks/disk/orphans.go:103-106 | in canonical spelling, the listed ancestor of a torrent's content is reported if and only if the content lies two or more levels below it |
| Orphans.TrailingSlashReported | internal/checks/disk/orphans.go:105 | content spelled with a trailing slash does not protect its parent |
| Timestamps.StoredOrder | internal/store/reports.go:158-161 | byte order of stored times is chronological order of seconds for years 0000 to 9999 (RFC 3339, section 5.1) |
| Timestamps.StoredEquality | internal/store/reports.go:158-161 | stored times are equal exactly for equal seconds |
| Timestamps.DateRendered | internal/store/reports.go:158-161 | every date of the Gregorian calendar, its day number in closed form, renders as itself |
| Timestamps.EveryDayIsADate | internal/store/reports.go:158-161 | every day is the day of some valid date |
| Timestamps.TimeRendered | internal/store/reports.go:158-161 | every instant renders as its day, hour, minute and second (RFC 3339, section 5.6) |
| Timestamps.FiveDigitYearsSortFirst | internal/store/reports.go:158-161 | a stored time of year 9999 or earlier sorts before one of years 10000 to 99999 if and only if its year is at most a tenth of the other |
| PeerMessages.Table.PrunePeerMessages | internal/store/peer.go:86-107 | exactly the rows before the cutoff's second go, and are counted |
| PeerMessages.Table.LastPeerMessageAt | internal/store/peer.go:59-84 | the newest inbound message of the kind from the peer; none is newer |
| PeerMessages.PruneKeepsNewest | internal/agent/schedule.go:248-257 | pruning can only change the newest message when it is older than the protected seconds |
| PeerMessages.KeptConcat | internal/store/peer.go:86-107 | a prune keeps exactly the messages at or after the cutoff, in order |
| PeerMessages.VerdictMeaning | internal/agent/digest.go:124-158 | the verdict by the messages themselves: the newest report received from the peer decides |
| PeerMessages.FreshSurvivesPruning | internal/agent/digest.go:124-158 | no schedule of prunes changes the verdict on a fresh peer |
| PeerMessages.PruneSafeExactly | internal/agent/schedule.go:248-257 | that holds for all schedules in order of time if and only if stale-after is below retention plus one second |
| Migrations.Migrate | internal/store/migrate.go:25-68 | the commits made, in sorted name order, before an error or crash, and when there is none |
| Migrations.CompletedRun | internal/store/migrate.go:20-24 | after any crashes a completed run ends with every wanted migration applied in order at the top version, and rerunning is a no-op |
| Migrations.ExactlyOnceIffIncreasing | internal/store/migrate.go:36-47 | exactly once in order for all crash schedules if and only if positive versions strictly increase |
| Migrations.PaddedVersion | internal/store/migrate.go:70-82 | a zero-padded prefix reads back as its number |
| Migrations.SchemeIncreases | internal/store/migrate.go:51-68 | files numbered in one width with distinct positive numbers sort into strictly increasing versions, all wanted |
| Migrations.SchemeAppliedOnce | internal/store/migrate.go:20-49 | such files are applied exactly once and in order under every crash schedule, ending at the top version |
| Migrations.UnpaddedNamesSkip | internal/store/migrate.go:51-68 | files named 9_ and 10_ sort the wrong way round, and after a crash between the two the run that completes leaves the ninth unapplied |
| History.HistoryLoop | internal/clients/sonarr/client.go:142-174 | the loop computes the page-wise fetch, stopping at an old record, an error, the total or an empty page, and asks for consecutive pages from the first, each once, with this query |
| History.RequestsMeaning | internal/clients/sonarr/client.go:165-172 | another page is asked for exactly after one with records, all recent, while fewer have come than there are |
| History.HistoryIsFilter | internal/clients/radarr/client.go:119-151 | however the server pages what it lists for an event type, the result is the fake's filter if and only if no recent record listed follows an old one |
| History.DescendingHistory | internal/clients/sonarr/fake.go:39-47 | over a date-descending list the paged loop and the fake agree for every since and event type |
| History.FakeConcat | internal/clients/sonarr/fake.go:39-47 | the fake filters record by record, in order |
| History.FakeOfOne | internal/clients/radarr/fake.go:39-47 | a record is returned exactly when it is not before since and of the event type |
| Docker.Demultiplex | internal/clients/docker/client.go:177-200 | terminates, never grows the data, returns an input without a whole header of a known stream unchanged |
| Docker.DemultiplexInverse | internal/clients/docker/client.go:182-200 | demultiplexing the encoding of any frames gives the concatenated payloads |
| Docker.ChunkStripped | internal/clients/docker/client.go:186-198 | whatever a later header says in its first four bytes, its length decides what is stripped |
| Docker.ChunkCutShort | internal/clients/docker/client.go:188-193 | a payload cut short keeps what is there |
| Docker.DemultiplexCut | internal/clients/docker/client.go:188-199 | for every cut of every stream the exact result; it is the payload bytes received if and only if the cut is not inside a header |
| Quoting.UnescapeOctal | internal/clients/hostfs/mounts.go:141-160 | the index loop and its shortcut compute the decoder |
| Quoting.OctalExactly | internal/clients/hostfs/mounts.go:150-152 | three bytes are digits of an escape exactly when each is 0 to 7 and the value fits a byte |
| Quoting.UnescapeInvertsEscape | internal/clients/hostfs/mounts.go:141-142 | decoding inverts octal escaping on all byte strings, for every escaped set with the backslash (as mountinfo's) or with the digits 0 to 3 |
| Quoting.RoundTripExactly | internal/clients/hostfs/mounts.go:141-160 | the round trip holds on all byte strings for those escaped sets and for no others |
| Quoting.QuotedIsLiteral | internal/checks/mounts/mount_race.go:138-144 | wherever a quoted string stands, a POSIX reader takes exactly its characters into the current word |
| Quoting.QuoteRoundTrip | internal/checks/mounts/mount_race.go:142-144 | a quoted string reads back as the single word it was made from |
| Quoting.ProbeTokens | internal/checks/mounts/mount_race.go:88-91 | for every path the probe command has the same tokens, a redirected file descriptor included, with the path as one word in two places |
| Staleness.AgeMonotone | internal/staleness/score.go:191-200 | the age component never falls with time, whatever its weights |
| Staleness.WaitingNeverHelps | internal/staleness/score.go:103-132 | the sum never falls with time for all items if and only if the day weight is not negative |
| Staleness.BandOnlyRises | internal/staleness/score.go:70-82 | the total stays in [0,100] and does not fall, so the band only moves towards candidate, for any two thresholds |
| Staleness.BandMeaning | internal/staleness/score.go:70-82 | the bands by their two thresholds |
| Staleness.TotalRules | internal/staleness/score.go:57-68 | the total is the sum cut off at 0 and 100 |
| Staleness.WatchedRules | internal/staleness/score.go:96-118 | the days component grows evenly over the horizon and is full behind it |
| Staleness.NeverWatchedRules | internal/staleness/score.go:119-132 | a title never watched has all points past the limit and none before |
| Staleness.SizeRules | internal/staleness/score.go:160-169 | size counts in proportion up to its most |
| Staleness.AgeRules | internal/staleness/score.go:187-200 | time in the library counts in proportion up to its most |
| Staleness.FixedRules | internal/staleness/score.go:134-185 | which of the fixed points apply |
| Staleness.DefaultBounds | internal/config/defaults.go:50-67 | with the shipped weights the unclamped sum is in [-30, 90] |
| Staleness.DefaultBoundsReached | internal/config/defaults.go:50-67 | both bounds are attained |

## Left out

- SQLite itself, WAL checkpointing, JSON encoding of Data, Metrics and the tables: statements are atomic, values round-trip, and the bound-variable limit of one statement is not modelled.
- Row ids: a finding's identity is its position in the table.
- The decisions table: CreateDecision, MarkDecision's argument checks, PendingDecisions and SnoozedUntil are single statements; MarkDecision appears as an event, and terminal statuses are not claimed immutable because its WHERE clause has no status guard.
- Sorting in place: SortFindings works on sequence values, so aliasing of the findings slice is not captured.
- Goroutines and contexts: a check is a choice between a result, a panic and a hang, and a race lost to the deadline.
- Wrapped errors and log lines: only which error is returned is modelled, not its text beyond that.
- Protocol.DeliveriesBounded: the client's answer to an attempt and its delivery are independent here, which allows more runs than the network does.
- Message senders other than the Pi's Execute: the peer channel is authenticated and carries no other decisions.
- Decisions.CollectHashes: strings.ToUpper is modelled on ASCII only; download ids are hexadecimal hashes.
- Instants before year 0000, and formatTime's inverse time.Parse.
- Duration saturation and floating-point rounding: Staleness is over the reals.
- Server lists that change between page requests.
- Store.Store.DigestStaleness: reading the score out of a finding's Data is a parameter.
- A 32-bit int in demultiplex: Size assumes it holds 2^32 - 1.
- Shell operators of two characters, double quotes, comments and expansions: the reader in Quoting refuses them.
- Cleanup.Execute: the docker and seeded executors are one opaque outcome; they remove no host path.
- Remove's own refusal of "/" and the file system behind it: its answer is a parameter.
- LatestReport, LatestOwnReport, heartbeats, the outbox, web sessions, CLI verbs, digest rendering and all other clients: input/output or single statements.
- Config loading: validated ranges appear only as preconditions.
- Single-threshold checks: each is settled by reading one branch.
