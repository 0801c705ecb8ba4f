# Verified models of the node, store and repository protocols

Dafny models of the parts of this repository whose correctness rests on more than one
function at a time, with proofs about whole runs, every input and every point of failure.

- **Automation runs.** Workers list due runs and claim them with timed leases. The in-memory
  store (`RunStore.dfy`) and the SQL store (`RunSql.dfy`) are modelled separately.
  `LeaseProtocol.dfy` runs any number of workers against either store on one clock,
  `RunQueue.dfy` sweeps the queue until it is empty.
- **Flow versions and deliveries.** `FlowVersions.dfy`: versions are frozen and decided once.
  `DeliveryLog.dfy`: the trimmed webhook log against the log that never forgets.
- **Notifications.** `Notifications.dfy` and `NotificationHistory.dfy`: the newest 500 of each
  person, maintained while notes arrive, against the full history.
- **Backup repository relocation.** `Paths.dfy` (paths as strings and as components),
  `Trees.dfy` and `CopyTree.dfy` (file trees, single system calls and the trails they leave, the
  lexical walk, the copy through `.copy` files), `RepoStates.dfy` (what the pointer file names),
  `HostCalls.dfy` (backupHost as anybody may call it), `RepoCleanup.dfy` (removal),
  `RepoSwitch.dfy` (copy, switch, keep or take back), `Relocation.dfy` (the handler),
  `RelocationRuns.dfy` (runs that break the promise, and when they do not) and
  `RelocationExamples.dfy` (those runs on small disks). Each I/O step asks an
  oracle whether it succeeds. A trail records every system call that changes the disk and the
  state it leaves, from the first state to the last (`Trees.IsTrail`), so a claim about all of them
  covers a stop anywhere. Another oracle says which calls of backupHost other requests make in between.
- **File transfer.** `Transfer.dfy`: upload, part file, download and reassembly, for every way
  the readers split the data and every send, write or read that fails.
- **Stores and the watchdog.** `Operations.dfy`, `GpuClaims.dfy`, `Stacks.dfy`,
  `Deployments.dfy`, `Preferences.dfy`, `NodeDeletion.dfy` and `Watchdog.dfy`.

Objects whose methods update fields are classes. Each method is proved against a function on
the stored value, and the lemmas about whole runs are about that function. What each such function
does is stated once more, column by column and without it, by a lemma whose name ends in
`Exactly`. Maps are ranged over
in arbitrary order; `sort.Slice` promises only a permutation in order; times are integers with
0 for Go's zero time; nullable values are options; JSON columns are opaque text; contents of
files are text (bytes in `Transfer.dfy`). The clock, the I/O oracle, the hash and `json.Valid`
are parameters.

## Where a promise needs a condition

The code is modelled as it is. These promises hold exactly under a condition that a caller can
check beforehand:

- Leases exclude exactly when the empty name is not one of several owners
  (`LeaseProtocol.SafeOwnerNames`): a lease under the empty name reads as no lease.
- The two run stores list the same runs exactly when a limit is given or at most 32 runs are
  due (`RunSql.ListingsAgree`); they store the same run after a create exactly when it carries
  no lease, and after an update exactly when the columns SQL leaves out are unchanged.
- Under a given `keep`, listing one flow's deliveries of one cluster agrees with the full history
  for all limits up to `keep` exactly when no delivery of that cluster was forgotten, or all that
  are remembered are of that cluster (`DeliveryLog.ListingAgrees`): trimming counts a flow's
  entries across clusters.
- A listing of notifications agrees with the full history exactly when the newest 500 fill its
  limit or nothing older would be shown (`NotificationHistory.AnyListingAgrees`): without the
  unread filter, for limits from 1 to 500 or when there never were more than 500. The unread count
  agrees exactly when everything older is read (`NotificationHistory.CountsAgree`).
- A relocation keeps its promises under conditions on the two paths (`RelocationRuns.EndsAsPromised`).
  A request that is refused needs none. For a move that is tried the promises are proved when the
  pointer files lie outside the new directory (`RepoStates.Guarded`). Then an error before the
  switch always leaves the old repository named and intact. After a switch that was taken back it
  is named exactly when its own path does not end in white space, and then intact exactly when a
  pointer file that it holds itself was rewritten as it was. A success that keeps the pointer file
  names the copy exactly when the path of the copy does not end in white space, because the pointer
  file is trimmed when it is read (`Paths.PointerReadBack`).
- A success keeps the repository exactly when the directory named once the old one is freed is the
  copy or held the same files already (`RelocationRuns.FreedSuccess`; a success frees the old
  directory when it has restore points or files). Three kinds of requests lose it. With the
  repository at `/pool`, the request `/pool /` copies it to a directory whose name ends in a blank;
  the pointer file reads back as `/pool`; so the repository that is reopened, with all its restore
  points, is the old one, and it is then removed (`RelocationRuns.LosesRepository`,
  `RelocationExamples.PoolIsLost`). With no restore points any other path that ends in a blank does
  the same: `/pond /` leaves the empty `/pond` named (`RelocationRuns.LosesToBlank`,
  `RelocationExamples.PondIsLost`). And when the pointer file names a directory it lies in itself,
  a move to anywhere takes it along, and the default directory is named
  (`RelocationRuns.LosesPointer`, `RelocationExamples.AgentDirIsLost`); only an edited pointer file
  says so, since the agent keeps files in that directory and a non-empty destination is refused.
- Other requests are refused while the repository is copied, and afterwards the handler serves the
  directory that is named, exactly unless one of them opens the copy after the relocation closed it
  or failed to open it and before the old directory is named again (`RepoSwitch.Hosted`,
  `RepoSwitch.Stale`). Then the old directory is named and the handler goes on serving the copy,
  whose folders are removed (`RelocationRuns.ServesDroppedCopy`, `RelocationExamples.PondIsServed`). The comment above
  `relocateBackupRepo` mentions none of these cases; the model follows the code.
- An upsert keeps idempotency keys unique exactly when it does not find its id before its key
  (`Operations.UpsertKeepsKeys`), which consistent use of ids rules out.
- Preference merges of disjoint keys commute exactly when the record exists, the users differ
  or the clusters agree (`Preferences.MergesCommute`).
- A deployment stays in the cluster of its project exactly when no put names another cluster and no
  project is written for another cluster than its deployments (`Deployments.ClustersKeptExactlyWhen`).
- Replacing a stack under a used id keeps members in their stack's cluster exactly when the
  cluster is the same or it has no members (`Stacks.ReplacingAStackKeepsClusters`).

## Model

| member | source | states |
|---|---|---|
| RunStore.Memory.CreateAutomationRun | internal/appdb/automation_memory.go:377-391 | a new id is stored with its times filled in, a used id is refused and nothing changes |
| RunStore.Memory.UpdateAutomationRun | internal/appdb/automation_memory.go:403-417 | replaces the run but keeps creation time and lease; unknown id or wrong cluster is refused |
| RunStore.Memory.ClaimAutomationRun | internal/appdb/automation_memory.go:489-504 | takes the lease unless another owner holds an unexpired one |
| RunStore.Memory.ReleaseAutomationRun | internal/appdb/automation_memory.go:506-517 | clears the lease only for its owner |
| RunStore.Memory.ListDueAutomationRuns | internal/appdb/automation_memory.go:460-474 | the first `limit` of some oldest-first enumeration of exactly the due runs |
| RunStore.DueExactly | internal/appdb/automation_memory.go:476-487 | due is unfinished, under no unexpired lease, and awake |
| RunStore.CreateExactly | internal/appdb/automation_memory.go:377-391 | a create stores the given run column by column, only its times filled in |
| RunStore.UpdateExactly | internal/appdb/automation_memory.go:403-417 | an update takes every column but the lease and the creation time |
| RunStore.ClaimExactly | internal/appdb/automation_memory.go:489-504 | a granted claim sets the two lease columns and nothing else; when it is granted |
| RunStore.ReleaseExactly | internal/appdb/automation_memory.go:506-517 | a release clears the two lease columns of the owner's run and nothing else |
| RunStore.ClaimedIsDueAgain | internal/appdb/automation_memory.go:476-504 | a run due when claimed is due again once the lease has run out |
| RunStore.ListedOldestFirst | internal/appdb/automation_memory.go:460-474 | the listing is in order of creation, and what the limit cuts off is no older |
| LeaseProtocol.StepKeepsBeliefs | internal/appdb/automation_memory.go:403-517 | inductive invariant: after any step an unexpired belief equals the stored owner and expiry |
| LeaseProtocol.LeaseSafety | internal/appdb/automation_memory.go:403-517 | over every interleaving of create, update, claim, release and ticks no two workers believe they hold the same run |
| LeaseProtocol.LeaseIsALock | internal/appdb/automation_memory.go:489-517 | while held every other claim is refused without effect, also after an update; the holder may renew; an expired lease can be claimed |
| LeaseProtocol.EmptyOwnerIsRobbed | internal/appdb/automation_memory.go:497-499 | two claims, the first under the empty name, after which both workers believe they hold the run |
| LeaseProtocol.SafeOwnerNames | internal/appdb/automation_memory.go:489-504 | leases exclude in every run exactly when the empty name is not one of several owners |
| RunQueue.ListedIsClaimable | internal/appdb/automation_memory.go:460-504 | a listed run can be claimed by anybody at that time and carries no unexpired lease |
| RunQueue.DueIsMonotone | internal/appdb/automation_memory.go:476-487 | an unchanged run stays due |
| RunQueue.SweepLeavesTheRest | internal/appdb/automation_memory.go:460-504 | claiming the first n due runs succeeds n times and leaves exactly the others due |
| RunQueue.QueueDrains | internal/appdb/automation_memory.go:460-504 | m sweeps of at most k claim min(n, m*k) of n due runs, each once, and nothing is left exactly when m*k >= n |
| RunSql.ExecUpdate | internal/appdb/automation_postgres.go:524-533 | a conditional UPDATE changes exactly the rows whose WHERE is true and counts them |
| RunSql.ExecClaim | internal/appdb/automation_postgres.go:521-534 | the statement in three-valued logic, with RowsAffected == 1 as the answer, is a claim of that one row |
| RunSql.SelectDue | internal/appdb/automation_postgres.go:498-505 | selects each row whose WHERE is true once, oldest first |
| RunSql.Postgres.CreateAutomationRun | internal/appdb/automation_postgres.go:413-426 | inserts without lease columns; a used id fails |
| RunSql.Postgres.UpdateAutomationRun | internal/appdb/automation_postgres.go:442-450 | sets only the named columns of the matching row |
| RunSql.Postgres.ClaimAutomationRun | internal/appdb/automation_postgres.go:521-534 | sets the lease of the row when it is free, expired or already the owner's |
| RunSql.Postgres.ReleaseAutomationRun | internal/appdb/automation_postgres.go:536-540 | clears the lease of the owner's row |
| RunSql.Postgres.ListDueAutomationRuns | internal/appdb/automation_postgres.go:498-519 | the first `limit` due rows, 32 without a limit |
| RunSql.ClaimCommutes | internal/appdb/automation_postgres.go:523-534 | both stores give the same answer to a claim and stay equal |
| RunSql.ReleaseCommutes | internal/appdb/automation_postgres.go:536-540 | both stores stay equal under a release |
| RunSql.CreateCommutes | internal/appdb/automation_postgres.go:413-426 | the creates agree exactly on runs without a lease |
| RunSql.UpdateCommutes | internal/appdb/automation_postgres.go:442-450 | the updates agree exactly when the columns SQL leaves out are unchanged |
| RunSql.StoresSimulate | internal/appdb/automation_postgres.go:413-540 | driven by the same fitting steps the stores stay equal over every run, with the same beliefs, so the same claim answers |
| RunSql.SqlLeaseSafety | internal/appdb/automation_postgres.go:442-540 | lease safety of the SQL store over every interleaving, without any condition on updates |
| RunSql.DueAgrees | internal/appdb/automation_postgres.go:502-505 | the WHERE clause with nulls selects exactly what autoRunDue accepts |
| RunSql.ListingsAgree | internal/appdb/automation_postgres.go:498-519 | with distinct creation times the listings are equal exactly when a limit is given or at most 32 runs are due |
| RunSql.ListingsAgreeOnInstants | internal/appdb/automation_postgres.go:498-519 | whatever ties there are, under a limit both listings show the same creation times in the same places |
| RunSql.SqlCreateExactly | internal/appdb/automation_postgres.go:413-426 | the row a create inserts, column by column, without a lease |
| RunSql.SqlUpdateExactly | internal/appdb/automation_postgres.go:442-450 | the columns an update sets and those it leaves alone |
| RunSql.SqlClaimExactly | internal/appdb/automation_postgres.go:521-534 | a granted claim sets the two lease columns of the row and nothing else; when it is granted |
| RunSql.SqlReleaseExactly | internal/appdb/automation_postgres.go:536-540 | a release clears the two lease columns of the owner's row and nothing else |
| RunSql.SelectedExactly | internal/appdb/automation_postgres.go:502-505 | a selected row is unfinished, under no unexpired lease, and awake, whatever is null |
| RunSql.ClaimedRowIsDueAgain | internal/appdb/automation_postgres.go:498-534 | a row selected when claimed is selected again once the lease has run out |
| RunSql.SelectedOldestFirst | internal/appdb/automation_postgres.go:498-519 | the rows are in order of creation, 32 of them without a limit, and what is cut off is no older |
| FlowVersions.VersionKeyInjective | internal/appdb/automation_memory.go:137 | no two pairs of flow id and version share a key, whatever the id contains |
| FlowVersions.FlowMemory.CreateAutomationFlowVersion | internal/appdb/automation_memory.go:139-155 | a version is written once; an empty status becomes approved |
| FlowVersions.FlowMemory.DecideAutomationFlowVersion | internal/appdb/automation_memory.go:157-170 | only a pending version of that cluster is decided |
| FlowVersions.FlowMemory.DeleteAutomationFlow | internal/appdb/automation_memory.go:118-135 | removes the flow, its webhook, schedule and versions, or nothing |
| FlowVersions.PurgeVersions | internal/appdb/automation_memory.go:129-133 | deleting while ranging leaves exactly the other flows' versions |
| FlowVersions.VersionRun | internal/appdb/automation_memory.go:139-170 | in every run that keeps the flow a version's content never changes and it is pending exactly until the first settling decision |
| FlowVersions.CreateExactly | internal/appdb/automation_memory.go:139-155 | a create stores the given record: its own status or approved, its own creation time or now, every other version unchanged |
| FlowVersions.DecideExactly | internal/appdb/automation_memory.go:157-170 | a decision on a pending version sets the four decision fields and nothing else |
| FlowVersions.SubmittedForApproval | internal/appdb/automation_memory.go:139-170 | from its create on a version submitted as pending is pending until the first settling decision, which succeeds, and later ones are refused |
| FlowVersions.DeleteMisses | internal/appdb/automation_memory.go:118-123 | a flow in another cluster is not deleted |
| FlowVersions.FirstDecisionWins | internal/appdb/automation_memory.go:157-170 | of any number of settling decisions exactly the first succeeds |
| FlowVersions.FirstDecisionStays | internal/appdb/automation_memory.go:157-170 | the first settling decision is the one carried at the end of every run |
| FlowVersions.DeleteIsExact | internal/appdb/automation_memory.go:118-137 | by any key a caller can look up, the flow's versions are gone and all others unchanged |
| DeliveryLog.DeliveryStore.AddAutomationWebhookDelivery | internal/appdb/automation_memory.go:307-325 | the backward in-place loop drops exactly the entries of the flow with `keep` newer ones |
| DeliveryLog.NewestMatching | internal/appdb/automation_memory.go:330-341 | the backward scan that stops at the limit finds the newest matching entries of the whole log, newest first |
| DeliveryLog.DeliveryStore.ListAutomationWebhookDeliveries | internal/appdb/automation_memory.go:327-342 | the newest matching entries, newest first, up to the limit |
| DeliveryLog.SurvivorsOfFlow | internal/appdb/automation_memory.go:307-325 | each flow's stored entries are the last k of its full history, in order |
| DeliveryLog.ListedNewestFirst | internal/appdb/automation_memory.go:327-342 | a listing goes back through the log from the newest entry, and leaves out only older ones, when the limit is reached |
| DeliveryLog.SurvivorsInOrder | internal/appdb/automation_memory.go:307-325 | what is remembered is in the order of the history |
| DeliveryLog.UnboundedKeepsAll | internal/appdb/automation_memory.go:307-325 | without a bound nothing is dropped |
| DeliveryLog.TrimOfOther | internal/appdb/automation_memory.go:316-323 | trimming one flow leaves every other flow's entries and their order |
| DeliveryLog.AddKeepsSurvivors | internal/appdb/automation_memory.go:307-325 | an add to the trimmed log equals trimming after an add to the full log |
| DeliveryLog.LogIsSurvivors | internal/appdb/automation_memory.go:307-325 | after any sequence of adds the log is exactly the entries with fewer than k newer ones of their flow |
| DeliveryLog.ListingAgrees | internal/appdb/automation_memory.go:307-342 | for the given keep a flow's listings for one cluster agree with the full history for all limits up to keep exactly when nothing of that cluster was forgotten or only that cluster is remembered |
| Notifications.IamMemory.CreateNotification | internal/appdb/iam_settings.go:95-110 | adds the note and drops whatever the person has beyond the newest 500 |
| Notifications.ListNotes | internal/appdb/iam_settings.go:113-127 | collects in map order and sorts: exactly the person's notes, strictly newest first |
| Notifications.IamMemory.NotesOf | internal/appdb/iam_settings.go:113-127 | returns the one listing of the person |
| Notifications.ShowNotes | internal/appdb/iam_settings.go:132-142 | the unread filter and the limit applied to a listing |
| Notifications.IamMemory.ListNotifications | internal/appdb/iam_settings.go:129-143 | shows the person's listing, filtered and limited |
| Notifications.IamMemory.CountUnreadNotifications | internal/appdb/iam_settings.go:145-155 | counts what the unread listing without limit would show |
| Notifications.IamMemory.MarkNotificationsRead | internal/appdb/iam_settings.go:157-173 | marks exactly the person's unread notes among the ids, all of them for no ids |
| Notifications.NewerIsStrict | internal/appdb/iam_settings.go:120-125 | the comparison orders any two notes with different ids |
| Notifications.CreateDropsTheOldest | internal/appdb/iam_settings.go:95-110 | after a create the person has the 500 notes with the latest creation times, by id at the same instant, and everybody else theirs |
| Notifications.ShownExactly | internal/appdb/iam_settings.go:120-143 | shown are the latest notes by creation time, unread ones on request, as many as the limit allows |
| Notifications.MarkExactly | internal/appdb/iam_settings.go:157-173 | marking sets one column of the unread notes it is for |
| Common.StringLessExactly | internal/appdb/iam_settings.go:124 | strings are ordered by their first difference |
| Notifications.ListingUnique | internal/appdb/iam_settings.go:113-127 | a person has one listing, so the sort leaves no freedom |
| NotificationHistory.InsertKept | internal/appdb/iam_settings.go:104-108 | dropping past the 500th before an insertion changes nothing after it |
| NotificationHistory.CreateKeepsNewest | internal/appdb/iam_settings.go:95-110 | a create under a fresh id keeps exactly the newest 500 of everybody |
| NotificationHistory.MarkKeepsNewest | internal/appdb/iam_settings.go:157-173 | marking the bounded and the full history keeps them in step |
| NotificationHistory.StoreKeepsNewest | internal/appdb/iam_settings.go:95-173 | after any run the store holds exactly the newest 500 of each person's whole history, read marks included |
| NotificationHistory.AnyListingAgrees | internal/appdb/iam_settings.go:129-143 | a listing, filtered or not, answers as the full history exactly when the newest 500 fill the limit or nothing older would be shown |
| NotificationHistory.ListingsAgree | internal/appdb/iam_settings.go:129-143 | a listing answers as the full history exactly for limits 1 to 500 or at most 500 notes ever |
| NotificationHistory.CountsAgree | internal/appdb/iam_settings.go:145-155 | the unread count is that of the full history exactly when everything past the 500th is read |
| Paths.IsUnderIsPrefix | internal/agentrpc/backup_v2.go:279-282 | on cleaned absolute paths isUnder is exactly the component prefix |
| Paths.IsUnderPartialOrder | internal/agentrpc/backup_v2.go:279-282 | reflexive, antisymmetric and transitive |
| Paths.GuardSeparates | internal/agentrpc/backup_v2.go:111-113 | two paths that pass the guard have no path in common below them |
| Paths.CleanAbsIsClean | internal/agentrpc/backup_v2.go:91 | cleaning yields real component names only |
| Paths.CleanOfRender | internal/agentrpc/backup_v2.go:30-34 | cleaning a rendered path gives it back |
| Paths.CleanAppend | internal/agentrpc/backup_v2.go:28-36 | cleaning drops empty components and dots, two dots take one component away, names are kept |
| Paths.TrimSpaceExactly | internal/agentrpc/backup_v2.go:31-32 | white space goes from both ends, all of it and nothing else |
| Paths.SpaceExactly | internal/agentrpc/backup_v2.go:31-32 | the code points that are white space |
| Paths.PointerReadBack | internal/agentrpc/backup_v2.go:30-34 | what is written to the pointer file reads back exactly when the path does not end in white space; otherwise a directory outside the one written is named |
| Paths.BlankedReadsBack | internal/agentrpc/backup_v2.go:30-34 | a directory whose name ends in a blank reads back as the one without it |
| Paths.BlankSurvivesCleaning | internal/agentrpc/backup_v2.go:87-91 | for every directory there is a request that names it with a blank at the end |
| Trees.WalkDir | internal/agentrpc/backup_v2.go:205-206 | every entry below the root once, in lexical order of components |
| Trees.CopyWalkedLater | internal/agentrpc/backup_v2.go:245 | x is walked before x.copy |
| Trees.PrefixWalkedFirst | internal/agentrpc/backup_v2.go:206 | a directory is walked before what it contains |
| Trees.Perform | internal/agentrpc/backup_v2.go:153-191 | a system call changes the disk in one step; the call and the state it leaves join the trail |
| CopyTree.CopyThrough | internal/agentrpc/backup_v2.go:239-262 | the states a copy passes through differ only at the target and its temporary, and a success passes exactly through empty temporary, written temporary, renamed |
| CopyTree.CopyFile | internal/agentrpc/backup_v2.go:239-262 | in every state of the trail only the destination tree is touched; on success the target has the bytes and the temporary is gone |
| CopyTree.TempIsFree | internal/agentrpc/backup_v2.go:205-262 | the temporary name of a file never hits a finished copy |
| CopyTree.NothingInTheWay | internal/agentrpc/backup_v2.go:205-262 | in a destination that started empty every directory and file of the walk can be written |
| CopyTree.VisitEntry | internal/agentrpc/backup_v2.go:206-235 | one visit keeps all finished copies and the counts |
| CopyTree.CopyTree | internal/agentrpc/backup_v2.go:202-237 | faithful copy with its counts; nothing outside touched in any state from the first to the last; succeeds into an empty directory when nothing fails and leaves no other file |
| CopyTree.HoldsExactly | internal/agentrpc/backup_v2.go:202-237 | to hold the repository is to hold every regular file at any depth whose name does not end in .tmp, at its place and with its bytes |
| CopyTree.TreeSize | internal/agentrpc/backup_v2.go:264-277 | number and size of the readable regular files |
| CopyTree.CopyMeasures | internal/agentrpc/backup_v2.go:157-160 | the destination never measures less than was copied, and just that when it started empty |
| RepoStates.RepoRootIsClean | internal/agentrpc/backup_v2.go:28-36 | the named directory is a cleaned path |
| RepoStates.RepoRootExactly | internal/agentrpc/backup_v2.go:22-36 | the named directory is the trimmed text of the pointer file if that is absolute, else the default |
| RepoStates.DefaultReadsBack | internal/agentrpc/backup_v2.go:28-36 | a repository moved to the default directory is named there |
| RepoStates.OldAfterTouch | internal/agentrpc/backup_v2.go:153-160 | with the two directories apart and the pointer file outside the new one, whatever happens below the destination the old repository stays named and untouched |
| RepoStates.UntouchedAfterCleanup | internal/agentrpc/backup_v2.go:145-151 | removing folders of the failed copy touches nothing of the old repository |
| RepoStates.CopyAfterRemoval | internal/agentrpc/backup_v2.go:188-191 | removing any part of the old tree touches nothing of the copy |
| HostCalls.CallsAre | internal/agentrpc/backup_v2.go:43-72 | any number of calls at one moment: the first that opens is cached, a cached host is left alone |
| HostCalls.CallsServe | internal/agentrpc/backup_v2.go:43-72 | calls make at most directories and keep serving the directory that is named |
| RepoCleanup.RemoveAll | internal/agentrpc/backup_v2.go:190 | entries below the root go one at a time in any order while others call backupHost; what stays cannot be removed; what is named and served stays |
| RepoCleanup.RemoveParts | internal/agentrpc/backup_v2.go:146-150 | the four repository folders go, but for what cannot be removed, and nothing else does |
| RepoSwitch.SwitchPointer | internal/agentrpc/backup_v2.go:161-170 | the states of the switch are exactly directory made, temporary written, temporary renamed, up to where it stops |
| RepoSwitch.SwitchState | internal/agentrpc/backup_v2.go:161-170 | up to the rename the old repository is named and untouched, after it the copy is named and the old tree still there |
| RepoSwitch.CopyAndSwitch | internal/agentrpc/backup_v2.go:153-170 | in every state from the first to the last the old repository is named and untouched or the complete copy is named; counts the files; succeeds with nothing in the way |
| RepoSwitch.Abandon | internal/agentrpc/backup_v2.go:145-151 | after a failed copy the four folders are gone, the old repository is named and untouched in every state, and a host opened meanwhile serves it |
| RepoSwitch.Reopened | internal/agentrpc/backup_v2.go:171-174 | opening the new repository keeps it named and complete and the way back open |
| RepoSwitch.Revert | internal/agentrpc/backup_v2.go:145-185 | the old repository is untouched in every state and named as it reads back; of the copy the four folders are gone; a host cached before stays cached |
| RepoSwitch.TakeBack | internal/agentrpc/backup_v2.go:175-185 | the handler then serves the named directory exactly when no call opened the copy in between |
| RepoSwitch.FreeOld | internal/agentrpc/backup_v2.go:187-191 | the copy stays complete and named in every state while the old tree goes |
| RepoSwitch.Settle | internal/agentrpc/backup_v2.go:174-191 | the restore points and the reopening decide; either end with its states and its host; a success frees the old tree when there are restore points or files |
| Relocation.Handler.BackupHost | internal/agentrpc/backup_v2.go:43-72 | refuses while moving, else serves the cached host or one opened on the named directory |
| Relocation.Handler.OtherCalls | internal/agentrpc/vm.go:112-116 | calls of other requests change nothing while the repository is moving |
| Relocation.Handler.CheckDestination | internal/agentrpc/backup_v2.go:92-102 | accepts only a path that is not the root, not below a system directory and has a parent |
| Relocation.AllowedExactly | internal/agentrpc/backup_v2.go:92-99 | a destination is allowed unless it is the root or its first component is one of ten |
| Relocation.ReportedCopy | internal/agentrpc/backup_v2.go:82-200 | after a success every regular file of the old repository that is not temporary is at its place below the new directory |
| Relocation.Handler.MakeDestination | internal/agentrpc/backup_v2.go:119-133 | makes the destination or changes nothing; accepts a non-empty one only if it looks like a repository and there are no restore points; accepts an empty one when nothing fails |
| Relocation.Handler.MoveTo | internal/agentrpc/backup_v2.go:134-200 | every end, every state and the cached host, for all calls of others, from the moment the host is closed |
| Relocation.Handler.RelocateBackupRepo | internal/agentrpc/backup_v2.go:82-200 | a refusal leaves the old repository named, untouched and served whatever the request; a move that is tried ends as `MoveReport` says, in every state of the trail; nothing else on the disk changes; an unobstructed request without failures succeeds unless restore points are missing |
| RelocationRuns.EndsAsPromised | internal/agentrpc/backup_v2.go:82-200 | with the pointer files outside the new directory: an early error leaves the old repository named and intact in every state; after taking back, named exactly when its path reads back and then intact exactly when a pointer file it holds was rewritten alike; a success names the complete copy exactly when its path reads back |
| RelocationRuns.FreedSuccess | internal/agentrpc/backup_v2.go:161-191 | a success, with restore points or without, keeps the repository exactly when the directory named is the copy or held the same files already |
| RelocationRuns.BlankIsLost | internal/agentrpc/backup_v2.go:164-191 | a success for a path that ends in white space names another directory, and the repository is gone unless it was there already |
| RelocationRuns.LosesToBlank | internal/agentrpc/backup_v2.go:82-200 | the run: any unobstructed request for such a path, no failing step, a success, and the repository is lost |
| RelocationRuns.LosesRepository | internal/agentrpc/backup_v2.go:82-200 | the run for the own path with a blank, restore points and all |
| RelocationExamples.PoolIsLost | internal/agentrpc/backup_v2.go:82-200 | that run for the request `/pool /` |
| RelocationExamples.PondIsLost | internal/agentrpc/backup_v2.go:82-200 | the run from `/pool` for the request `/pond /` with no restore points |
| RelocationRuns.PointerIsLost | internal/agentrpc/backup_v2.go:187-191 | a success that moves a repository holding the agent's own directory takes the pointer file along and names the default directory |
| RelocationRuns.LosesPointer | internal/agentrpc/backup_v2.go:82-200 | the run: any unobstructed request, no failing step, a success, and the repository is lost |
| RelocationExamples.AgentDirIsLost | internal/agentrpc/backup_v2.go:82-200 | that run for a pointer file that names its own directory and the request `/pond` |
| RelocationRuns.ServesDroppedCopy | internal/agentrpc/backup_v2.go:179-185 | the run: a call between closing the copy and naming the old directory leaves the emptied copy served |
| RelocationExamples.PondIsServed | internal/agentrpc/backup_v2.go:82-200 | that run from `/pool` to `/pond`, with one call in between |
| Transfer.SendFile | internal/agentrpc/client_io.go:77-104 | the chunks sent are a prefix of what was read, and all of it exactly when begin, every chunk and finish get through and the reader completes |
| Transfer.FilesPut | internal/agentrpc/client_io.go:77-111 | succeeds exactly when all of that happens and the answer comes back |
| Transfer.ReceivePart | internal/agentrpc/files.go:302-334 | the part file gets exactly what was read and never more than a positive limit |
| Transfer.WritePartThenRename | internal/agentrpc/files.go:293-356 | on any error only the part file may differ; on success the target is what was read, within the limit and with the expected hash; succeeds exactly then when no I/O fails |
| Transfer.ExpectedExactly | internal/agentrpc/files.go:346-350 | an expected hash is compared letter by letter, whatever the case |
| Transfer.PayloadAppend | internal/agentrpc/files.go:302-334 | what was read is the data of the reads in order |
| Transfer.EmitChunks | internal/agentrpc/files.go:373-384 | what was sent and the chunk held back are what was read |
| Transfer.ReadFileSha | internal/agentrpc/files.go:358-396 | the messages concatenate to the file and only the last carries its hash |
| Transfer.FilesGetBuffer | internal/agentrpc/client_io.go:140-163 | all chunks in order and the last hash received; nothing when the stream does not open or ends in an error |
| Transfer.LastShaExactly | internal/agentrpc/client_io.go:150-158 | the hash returned is that of the last message that carries one |
| Transfer.PutThenGet | internal/agentrpc/client_io.go:77-163 | for all bytes, every split by three readers, and every failing read, send, receive and part-file step: a stored upload is exactly the local bytes, a rejected one leaves the old file, and a get that succeeds returns what is stored with its hash; without faults it is stored exactly when the limit allows it |
| Watchdog.Watch | cmd/ndl-network-rollback/main.go:12-57 | decides at the first poll that allows it and restores at most once, exactly when that poll calls for it |
| Watchdog.RestoresAtFirstFailure | cmd/ndl-network-rollback/main.go:32-46 | restores at the first failing probe not preceded by a sighting of the confirm file |
| Watchdog.StandsDownOnlyWhen | cmd/ndl-network-rollback/main.go:32-53 | no restore means the file was seen or a probe past the deadline passed |
| Watchdog.PollsAreBounded | cmd/ndl-network-rollback/main.go:32-45 | the polls before the decision fit between the first clock reading and the deadline |
| Operations.OperationStore.UpsertOperation | internal/appdb/phase2_memory.go:50-73 | overwrites the first operation that answers by key or id, keeping id and creation time for a key, or appends |
| Operations.UpsertExactly | internal/appdb/phase2_memory.go:50-73 | the given operation is stored field by field, a match by key keeping the first id and creation time, and nothing else changes |
| Operations.StampedExactly | internal/appdb/phase2_memory.go:50-58 | missing times are filled in |
| Operations.UpsertKeepsIds | internal/appdb/phase2_memory.go:59-71 | any upsert keeps ids unique |
| Operations.IdsStayUnique | internal/appdb/phase2_memory.go:50-73 | ids are unique after every sequence of calls |
| Operations.UpsertKeepsKeys | internal/appdb/phase2_memory.go:59-71 | keys stay unique exactly when the id is not found before the key |
| Operations.ReusedIdBreaksKeys | internal/appdb/phase2_memory.go:66-69 | a call that makes a key ambiguous |
| Operations.FirstCallNamesTheKey | internal/appdb/phase2_memory.go:50-73 | under consistent use there is one operation per key, with the id of the first call |
| GpuClaims.GpuMemory.CreateGpuAssignment | internal/appdb/phase14.go:26-48 | stores the claim exactly when no stored claim blocks it, reused ids included |
| GpuClaims.GpuMemory.DeleteGpuAssignment | internal/appdb/phase14.go:86-95 | removes just that claim |
| GpuClaims.GpuMemory.UpdateGpuAssignmentDeviceNodes | internal/appdb/phase14.go:97-109 | changes just the device nodes |
| GpuClaims.GpuMemory.ListGpuAssignmentsForGpu | internal/appdb/phase14.go:63-73 | exactly the claims on the GPU; a list with an exclusive claim has length one |
| GpuClaims.RefusedExactlyWhenUnsafe | internal/appdb/phase14.go:35-45 | storing a claim is safe exactly when no other claim blocks it; the check refuses exactly the unsafe ones and those their predecessor under the same id blocks |
| GpuClaims.ExclusiveExactly | internal/appdb/phase14.go:35-45 | claims of a cluster that share a GPU or a non-empty group are not exclusive |
| GpuClaims.ApplyExactly | internal/appdb/phase14.go:26-109 | what each operation does to the records |
| GpuClaims.AlwaysExclusive | internal/appdb/phase14.go:26-109 | in every reachable state claims that share a GPU or group are not exclusive |
| Stacks.StackMemory.CreateStack | internal/appdb/phase22.go:55-78 | refuses a name taken in the cluster |
| Stacks.StackMemory.UpdateStack | internal/appdb/phase22.go:104-131 | patches the fields given and refuses a name another stack has |
| Stacks.StackMemory.DeleteStack | internal/appdb/phase22.go:133-147 | removes the stack and exactly its members |
| Stacks.StackMemory.CreateStackMember | internal/appdb/phase22.go:149-176 | needs its stack in its cluster and a free service name |
| Stacks.StackMemory.UpdateStackMember | internal/appdb/phase22.go:219-239 | patches a member without moving it |
| Stacks.UpdateStackIsSound | internal/appdb/phase22.go:104-131 | a rename keeps names unique |
| Stacks.StackCreatedExactly | internal/appdb/phase22.go:55-78 | the stored stack field by field, and when a create is refused |
| Stacks.StackUpdatedExactly | internal/appdb/phase22.go:104-131 | which fields a patch sets, and when it is refused |
| Stacks.StackDeletedExactly | internal/appdb/phase22.go:133-147 | the stack and its members go, and nothing else |
| Stacks.MemberCreatedExactly | internal/appdb/phase22.go:149-176 | the stored member field by field, and when a create is refused |
| Stacks.MemberUpdatedExactly | internal/appdb/phase22.go:219-239 | which fields a patch of a member sets |
| Stacks.AlwaysSound | internal/appdb/phase22.go:55-239 | over every run members have their stack, names and services are unique |
| Stacks.ReplacingAStackKeepsClusters | internal/appdb/phase22.go:55-78 | when members stay in the cluster of a stack created under a used id |
| Deployments.DeployMemory.PutDeployProject | internal/appdb/deploy.go:236-254 | refuses a folder another project has; keeps the creation time |
| Deployments.DeployMemory.UpdateDeployProjectState | internal/appdb/deploy.go:256-267 | sets the state of that project only |
| Deployments.DeployMemory.DeleteDeployProject | internal/appdb/deploy.go:269-283 | removes the project, its secrets and exactly its deployments |
| Deployments.DeployMemory.PutDeployProjectSecrets | internal/appdb/deploy.go:298-308 | needs the project in the cluster |
| Deployments.DeployMemory.PutDeployment | internal/appdb/deploy.go:337-345 | needs the project |
| Deployments.DeployMemory.DeleteDeployments | internal/appdb/deploy.go:347-356 | removes exactly the listed deployments of the cluster |
| Deployments.RefusedExactlyWhenAmbiguous | internal/appdb/deploy.go:240-244 | a project is refused exactly when it would make a folder ambiguous |
| Deployments.PutProjectExactly | internal/appdb/deploy.go:236-254 | the stored project field by field, and when it is refused |
| Deployments.ApplyExactly | internal/appdb/deploy.go:256-356 | what every other operation does to the records, which secret is which included |
| Deployments.AlwaysSound | internal/appdb/deploy.go:236-356 | over every run deployments and secrets belong to existing projects and folders are unique |
| Deployments.ClustersKeptExactlyWhen | internal/appdb/deploy.go:236-356 | which operations keep every deployment in the cluster of its project |
| Preferences.PrefsMemory.UpsertUserPrefs | internal/appdb/phase17.go:47-61 | replaces everything but the interface preferences |
| Preferences.PrefsMemory.MergeUserUiPrefs | internal/appdb/phase17.go:63-87 | sets, then removes keys, and touches nothing else; an unknown user gets a guided record |
| Preferences.CopyUi | internal/appdb/phase17.go:89-98 | an equal map, none for none |
| Preferences.UpsertExactly | internal/appdb/phase17.go:47-61 | the given preferences are stored, with the interface preferences stored before |
| Preferences.MergeExactly | internal/appdb/phase17.go:63-87 | what a merge makes of each key, and that it touches nothing else |
| Preferences.MergesCommute | internal/appdb/phase17.go:63-87 | merges of disjoint keys commute up to the update time exactly when the record exists, users differ or clusters agree |
| Preferences.MergeCommutesWithUpsert | internal/appdb/phase17.go:47-87 | a merge and an upsert commute up to the update time, whatever clusters they carry |
| Preferences.UntouchedKeyStays | internal/appdb/phase17.go:47-87 | a key no merge concerns keeps its value over every run |
| Preferences.LastMergeWins | internal/appdb/phase17.go:47-87 | after every run a key has what the last merge that concerns it said |
| NodeDeletion.Compact | internal/appdb/node_delete.go:38-44 | compaction in the same storage keeps exactly the wanted elements in order |
| NodeDeletion.LeaveGroups | internal/appdb/node_delete.go:91-99 | every group keeps its other members in order |
| NodeDeletion.PurgeTables | internal/appdb/node_delete.go:37-100 | each table loses exactly the records of the node |
| NodeDeletion.FramedForgets | internal/appdb/node_delete.go:37-100 | afterwards no table mentions the node |
| NodeDeletion.FramedExactly | internal/appdb/node_delete.go:37-100 | every record that does not mention the node is kept, unchanged and in order |
| NodeDeletion.ForgottenWorkloads | internal/appdb/node_delete.go:21-36 | a node is free when no workload has it as node, owner or desired node |
| NodeDeletion.HistoryKeeps | internal/appdb/node_delete.go:45-54 | events and operations keep every entry and lose only the reference |
| NodeDeletion.Memory.DeleteNode | internal/appdb/node_delete.go:21-102 | not found, refused with the number of workloads, or a complete and framed purge; a refusal changes nothing |

## Left out

- RunSql.StoresSimulate: JSON columns are compared as stored text; the whitespace and key order that jsonb normalises, and the uuid and foreign-key checks of the table, are not modelled.
- RunSql.ListingsAgree: creation times of due runs are distinct; with equal times both stores may list ties in any order, and RunSql.ListingsAgreeOnInstants says what still agrees.
- Relocation.Handler.RelocateBackupRepo: each backupHost call is one step; an open outside the mutex that straddles the move, two overlapping relocations, and what requests write to an open repository are not modelled.
- RelocationRuns.EndsAsPromised: a new directory that holds the pointer files is not described; it is never empty, so it is accepted only when it looks like a repository and there are no restore points.
- RepoSwitch.Hosted: for a copy whose path ends in white space a host opened between closing and naming is not described; without one the named directory is served.
- RepoSwitch.Revert: the pointer write that restores the old directory is assumed to succeed, because the code ignores its error.
- Relocation.Handler.BackupHost: opening creates the directory and otherwise leaves files alone; the key files, the stale restore folders and the clean-up of the repository engine are not modelled. Restore points are inputs.
- CopyTree.CopyFile: single file writes are atomic; modes, syncs and a missing parent directory are among the failures the oracle may report; symbolic links are entries that are skipped, never followed.
- RepoCleanup.RemoveParts: a destination that already held an empty-looking repository is not claimed to be restored after a failure; its folders are removed.
- Decoding of the relocate request, context time-outs and the status returned after a success.
- Transfer.PutThenGet: the streaming handler's own hash check after the rename (internal/agentrpc/io.go) and its deletion of the target are not modelled; readers are assumed to end.
- Watchdog.Watch: what RestoreActive does to the network, and the reading of the rollback file beyond present, absent or unreadable.
- The SQL statements of the other stores, and their transactions.
- Plain get and put stores (settings, registries, guest observations): one map write each.
- RPC forwarding, command-line tools, TLS, terminals and the engines behind the agent: foreign calls.
