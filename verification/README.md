# Woolwire, modelled and proved

Woolwire is a peer-to-peer room in which members share language models. This
project models the parts of it that keep state under concurrency or replicate it
between nodes, and proves what they promise over every run and every input.

- **Admission queue** (`FairQueue`, `FairQueueInvariant`, `FairQueueTheorems`,
  `FairQueueCancellation`, `FairQueueAdmission`, `Scheduler`). Each section under the queue's lock is one
  step, each Submit call a small machine, and timers and contexts are free choices. `Scheduler.FairQueue`
  is the object as the program updates it; each of its methods is proved equal to
  the step it implements.
- **Community log** (`EventLog`, `EventSync`, `EventSyncLaws`, `EventSyncLimits`,
  `Materialize`, `MaterializeTheorems`, `MaterializeChannels`, `MaterializeOrder`,
  `Convergence`). Cursors, gaps and
  paging refine set difference; the view is a function of the event set; together,
  two nodes that sync with each other show the same room.
- **Membership** (`Membership`, `MembershipWorld`, `MembershipStale`, `MembershipLaws`,
  `RosterStore`).
  The creator's handlers issue records and any number of nodes exchange them, in
  single reads and writes that may interleave; signed means issued.
- **Storage budget** (`Budget`, `BudgetLaws`, `ArtifactManager`) and **engine lifecycle**
  (`IdleUnload`, `IdleLaws`, `ManagedService`), both as interleavings of locked sections.
- **Conversations** (`ChatTree`, `ChatBranch`, `ChatLaws`, `ChatMigration`), **leaderboard** (`Leaderboard`).
- **Codecs**: the GGUF header reader (`Gguf`, `GgufReader`, `GgufLaws`),
  server-sent events (`Sse`, `SseLaws`) and signing payloads (`Payload`, `Decimals`).

`Basics`, `Ordering` and `Sums` hold what several of these share.

Where a method changes an object, its contract gives the whole new state as a
function of the old one, and the theorems are about that function.

## Where the code falls short of a promise

Each of these is stated exactly, for all inputs.

- No lock spans a handler of the creator: joining, approving and removing read the
  room record, sign one version above it, save the row and then store the whole
  record (internal/peerapi/server.go:211-312, internal/localapi/server.go:1055-1086
  and 1123-1176); owner settings and the membership sync store a record read earlier
  too (internal/localapi/server.go:980-1007 and 1092-1107,
  internal/localapi/background.go:132-164 and 243-247). About versions:
  `VersionsDistinctExactly` says over every run when one is issued twice, and
  `StaleWriteExactly` when a write of the room version leads to it. About removals:
  `SaveRowExactly` shows that a row that is not current breaks what finality rests
  on, and `RemovalUndoableExactly` says when a room version written back too low makes
  a removal undoable. `OverlapUndoesRemoval`, `SlowRemovalUndoesNext` and
  `StaleSyncUndoesRemoval` are runs that fail.
- No lock spans a sync either: it tests an update against the row held and saves it
  later, and several syncs of a node may overlap
  (internal/localapi/background.go:215-220); a joining node saves the roster it was
  answered without any test (internal/localapi/server.go:912-930). A removal saved in
  between is overwritten. `SaveUpdateExactly` gives the exact condition of each write,
  which repeating the version test at the write would ensure; `RemovalIsFinal` holds
  over every run whose writes at the node meet it; `OverlappingSyncsUndo`,
  `OverlappingSyncsRun` and `LateWriteUndoes` are runs that fail. Finality lasts as
  long as the node stays: `RejoiningForgets` shows what leaving and coming back allows.
- A pull stops at a page that brings nothing acceptable. `PullFetchesExactly`:
  an acceptable event arrives if and only if fewer than 500 refused events come
  before it; `RefusedPageBlocks` is a family of stores that fails.
- A roster request without any known version falls back to the room version,
  since an empty map is not sent (internal/peerapi/server.go:335-351).
  `RoundJoins` gives the exact condition under which the round is still a join,
  `EmptyRosterMissesRecord` a round that is not.
- Weights that no manifest names are not counted. Errors from saving a manifest are
  dropped (internal/hosting/artifacts.go:392-395 and 772), and a download whose bytes
  reached the cache but could not be linked stays there without one
  (internal/hosting/hfcache.go:255-275, internal/hosting/artifacts.go:405-417). With
  everything placed named by a manifest the whole disk stays within the budget
  (`DiskWithinBudget`); `ImportEscapesExactly` and `CommitEscapesExactly` say that one
  exception is enough for the disk to hold more than is counted, and `UnrecordedWeightsEscape` is
  a run that puts twice the budget on disk.
- An event whose sequence is zero or negative and lies below its author's cursor
  is in no gap. `NewOrGapExactly` covers all integers and says which events pass;
  no stored event is of this kind, since verification refuses such sequences
  (internal/community/event.go:81-84), and the convergence theorems assume so.

## Model

| member | source | states |
|---|---|---|
| FairQueueInvariant.ExecKeeps | internal/inference/queue.go:113-382 | Every run of submits, wakes, timeouts, cancels, completions, limit changes and a close, in any interleaving of the locked sections, keeps the whole consistency invariant |
| FairQueueTheorems.CountersAgree | internal/inference/queue.go:82-93 | In every reachable state `activeCount`, `totalQueued` and `memberQueued` equal the sizes of the tables they summarise, and `rotation` lists exactly the members with waiting items, each once |
| FairQueueTheorems.RequestKeysUnique | internal/inference/queue.go:125-135 | No two active or queued items share a member and request id |
| FairQueueTheorems.SlotsBalance | internal/inference/queue.go:192-233 | Each item is charged a slot at most once and released at most once, and the charged but unreleased items are exactly the active table, even when a timeout or cancel races with dispatch |
| FairQueueTheorems.ClampsNeverFire | internal/inference/queue.go:209-271 | A call about to release holds a slot; a waiter about to leave, an item about to be cancelled and each item in turn of a member being cancelled is in its queue with both counters positive; so no below-zero guard acts on any path |
| FairQueueTheorems.NothingLeaks | internal/inference/queue.go:171-233 | When every Submit has returned, no slot, queue entry, counter or rotation entry is left |
| FairQueueTheorems.StartedExactlyWhenRun | internal/inference/queue.go:171-190 | A returned Submit was started if and only if it ran; one that timed out or was cancelled never held a slot |
| FairQueueTheorems.MemberStartsInOrder | internal/inference/queue.go:235-316 | The items of one member start in submission order |
| FairQueueTheorems.WorkConserved | internal/inference/queue.go:283-316 | After every step, waiting work implies that the active limit is used up and that a holder of a slot has yet to return |
| FairQueueTheorems.StartsWithinLimit | internal/inference/queue.go:156-162 | A step that starts work leaves `activeCount` within the limit in force after it; the log of starts only grows |
| FairQueueTheorems.EnqueuesWithinLimits | internal/inference/queue.go:137-164 | Only Submit adds waiting work, and both queue depths are then within their limits |
| FairQueueTheorems.BoundedBypass | internal/inference/queue.go:283-316 | From any reachable state, a member at rotation index p that keeps waiting sees at most p starts of other members before its own next start, through any mix of steps |
| FairQueueCancellation.NoWaiterStranded | internal/inference/queue.go:171-207 | In every reachable state a waiting call is in its queue, holds a slot or has its context cancelled; after a close every call that has not returned has its context cancelled |
| FairQueueCancellation.RemovedNeverStarts | internal/inference/queue.go:244-271 | Work taken out of its queue without a slot is never started in any continuation |
| FairQueueCancellation.CancelMemberStops | internal/inference/queue.go:342-362 | Cancelling a member leaves it nothing waiting, cancels exactly its active and waiting items, and none of what was waiting ever starts |
| FairQueueAdmission.AnswerExactly | internal/inference/queue.go:113-144 | In any reachable state which of the four refusals a Submit gets, or that it is taken in, in terms of the tables |
| FairQueueAdmission.SubmitAcceptsExactly | internal/inference/queue.go:113-166 | A Submit adds a call if and only if the queue is open, no active or waiting item has that member and request, and both queues have room; it runs at once exactly when nothing waits and a slot is free, and waits last in its queue otherwise; a refusal changes nothing |
| FairQueueAdmission.CancelHitsExactly | internal/inference/queue.go:320-340 | Cancel acts on exactly the item of that member and request: an active one is cancelled and nothing else changes, a waiting one leaves its queue, is cancelled and never starts while every other waits on or has started, and without one nothing changes |
| FairQueueAdmission.LimitsInForce | internal/inference/queue.go:36-53 | The limits in force are those given last, each positive one kept and each other replaced by its default |
| FairQueueAdmission.ClosedExactly | internal/inference/queue.go:370-382 | The queue is closed exactly when the run closed it, and then for good |
| Scheduler.FairQueue.EnqueueLocked | internal/inference/queue.go:235-242 | The object becomes the abstract queue with the item appended |
| Scheduler.FairQueue.RemoveLocked | internal/inference/queue.go:244-271 | Idempotent removal from queue, counters and rotation, as in the abstract step |
| Scheduler.FairQueue.DropFromRotationLocked | internal/inference/queue.go:273-280 | The first occurrence of the member leaves the rotation, the order of the others is kept |
| Scheduler.FairQueue.DispatchNextLocked | internal/inference/queue.go:283-316 | The loop ends and equals repeated single dispatches in rotation order |
| Scheduler.FairQueue.SetLimits | internal/inference/queue.go:106-111 | New limits are normalised and free slots handed out at once |
| Scheduler.FairQueue.IsDuplicateLocked | internal/inference/queue.go:125-135 | True exactly when the member already has an active or queued item of that request id |
| Scheduler.FairQueue.Admit | internal/inference/queue.go:113-166 | Which of the four rejections, the immediate run or the wait applies, and the state after it; `SubmitAcceptsExactly` says when |
| Scheduler.FairQueue.ClaimAbort | internal/inference/queue.go:195-207 | A waiter may leave exactly when its item was not dispatched |
| Scheduler.FairQueue.CloseExecution | internal/inference/queue.go:219-231 | The slot is released once, and the next items start |
| Scheduler.FairQueue.Cancel | internal/inference/queue.go:320-340 | Finds exactly the active or queued requests of that member |
| Scheduler.FairQueue.CancelMember | internal/inference/queue.go:344-362 | Every queued item of the member is removed, its active ones are cancelled, free slots are handed out |
| Scheduler.FairQueue.Close | internal/inference/queue.go:370-382 | Every active and queued item is cancelled and further submits are refused |
| EventLog.AuthorCursors | internal/store/queries.go:52-77 | The largest sequence held of each author |
| EventLog.AuthorGaps | internal/store/queries.go:80-116 | Sorted disjoint ranges covering exactly the positive sequences below each author's cursor that are not held, repeated sequences included |
| EventLog.InGapsLoop | internal/store/queries.go:140-147 | Membership in some range |
| EventSync.MultiSeqs | internal/store/queries.go:164-184 | Exactly the (author, seq) pairs stored more than once |
| EventSync.ListEventsAfterCursor | internal/store/queries.go:153-232 | The first rows in row order that pass the known-id, cursor, gap and conflict filter, up to the limit |
| EventSync.NewOrGapExactly | internal/store/queries.go:209-225 | The cursor and gap tests pass exactly for unheld sequences that are positive or above everything held of that author, for any integer sequences |
| EventSync.WantedExactlyMissing | internal/store/queries.go:209-225 | Without reused sequences the filter is exactly set difference by id |
| EventSync.PageOfRequest | internal/localapi/community.go:675-689 | The answer to the request built from a store is that store's page |
| EventSync.PageIsMissing | internal/store/queries.go:199-232 | A page is the first 500 missing rows in order |
| EventSync.PageAdds | internal/localapi/community.go:698-706 | After a page exactly the accepted ones among the first 500 missing rows are no longer missing |
| EventSync.PageFetches | internal/localapi/community.go:698-712 | With everything accepted a page adds min(500, missing) events, and the loop stops exactly when nothing is missing |
| EventSync.PullConverges | internal/localapi/community.go:663-714 | n pages leave exactly the missing events beyond the first 500n |
| EventSync.PullFetchesExactly | internal/localapi/community.go:698-712 | When some events are refused, a pull that stops by itself has fetched an acceptable event if and only if fewer than 500 refused missing events precede it |
| EventSyncLaws.PageIsFirst | internal/store/queries.go:186-231 | A page holds min(500, missing) missing events, ascending by author, sequence and id, and every missing event left out comes after all of them |
| EventSyncLaws.ArrivesExactly | internal/localapi/community.go:698-712 | The condition of `PullFetchesExactly` on the fields: fewer than 500 refused missing events precede it by author, sequence and id |
| EventSyncLaws.PullKeepsStored | internal/store/store.go:989-999 | Whatever a peer sends in however many pages, a stored event keeps everything but its status |
| EventSyncLaws.SaveKeeps | internal/store/store.go:977-1001 | A known id takes only the status, a new one is stored as it is, local when it says nothing |
| EventSyncLaws.WantedWhenFew | internal/store/queries.go:209-225 | A requester with at most 500 events is sent exactly what it lacks by id, reused sequences included |
| EventSyncLaws.SmallRoomsConverge | internal/localapi/community.go:675-713 | With at most 500 events on each side one page with everything accepted leaves all ids of both, even when authors reused sequences |
| EventSyncLimits.RefusedPageBlocks | internal/localapi/community.go:698-712 | A failing input for every size: with the first 500 events of an author refused and all later ones acceptable, a requester that holds nothing fetches nothing, however many pages |
| EventSync.EventStore.SaveEvent | internal/store/store.go:977-1001 | A known id only takes the new status; a new id is inserted |
| EventSync.EventStore.BuildRequest | internal/localapi/community.go:675-686 | Cursors, gaps and, when at most 500, the held ids |
| EventSync.EventStore.HandleSync | internal/peerapi/replication.go:135-173 | Accepted pushed events are stored, then a page is answered from the new store |
| EventSync.EventStore.ApplyAll | internal/localapi/community.go:698-706 | Exactly the accepted events are stored and counted |
| EventSync.EventStore.SyncWithPeer | internal/localapi/community.go:663-714 | The paging loop, with a request that may fail at any page before or after the peer handled it, leaves the requester with the abstract pull of the answered pages and the peer with the accepted pushes |
| EventSync.EventStore.PendingLocalEvents | internal/localapi/community.go:648-658 | Exactly the stored events whose status is local |
| EventSync.EventStore.MarkReplicated | internal/localapi/community.go:635-641 | Exactly the named events become replicated, nothing else changes |
| EventSync.EventStore.SyncCommunityEvents | internal/localapi/community.go:600-646 | Against one peer: the peer gets the accepted pending events, this node the pull, statuses aside |
| Materialize.SeqKeyInjective | internal/community/materialize.go:80-80 | The text key of author and sequence is injective, colons in author names included |
| Materialize.ResolveConflicts | internal/community/materialize.go:70-93 | Holds, per author and sequence, the event with the smallest id, and the set of conflicted authors |
| Materialize.SortWinners | internal/community/materialize.go:95-109 | The winners in (timestamp, seq, id) order whatever order the table yields them in |
| Materialize.FoldEvents | internal/community/materialize.go:112-198 | The loop over events with its table of messages by id equals the abstract fold |
| Materialize.LiveChannels | internal/community/materialize.go:200-206 | Announced channels in order, without the withdrawn ones |
| Materialize.Materialize | internal/community/materialize.go:62-220 | The result is a function of the set of events, hence the same for every permutation and repetition |
| MaterializeTheorems.SlotHasOneWinner | internal/community/materialize.go:67-93 | Every (author, seq) in use has exactly one winner, its smallest id |
| MaterializeTheorems.ConflictedExactly | internal/community/materialize.go:89-92 | `ConflictedAuthors` is exactly the authors with two distinct ids at one sequence |
| MaterializeTheorems.MessagesAreTranscript | internal/community/materialize.go:150-198 | The messages are the winning message events in order, each with the later amendments that name it |
| MaterializeTheorems.AmendmentsMean | internal/community/materialize.go:168-192 | Moderation is final; short of it a message is deleted exactly when its author deleted it; short of both it shows its author's last edit |
| MaterializeOrder.MessagesExactly | internal/community/materialize.go:95-198 | Messages ascend by timestamp, sequence and id; each carries the fields of a winning message event; it is moderated exactly when a later winning tombstone names it, short of that deleted exactly when a later winning deletion of its author does, and short of both shows the latest winning edit of its author or its own text; every winning message event is shown |
| MaterializeChannels.ChannelsExactly | internal/community/materialize.go:120-148 | A channel is listed once, as its earliest winning announcement gives it, exactly when no winning event withdraws it, before or after; the withdrawn channels are exactly those some winning event withdraws |
| MaterializeOrder.ChannelsListed | internal/community/materialize.go:118-148 | On the fields: an announcement is listed exactly when it is the earliest winning one of its channel and no winning event withdraws it; withdrawn channels and conflicted authors are listed in ascending order |
| Ordering.StrLessExactly | internal/community/materialize.go:90-108 | One string is less than another exactly when it is a proper prefix of it or has the smaller character where they first differ |
| MaterializeTheorems.StatusOnlyShows | internal/community/materialize.go:151-154 | Replication status reaches nothing but the status shown beside a message |
| MaterializeTheorems.SameEventsSameView | internal/community/materialize.go:62-220 | Equal event sets up to status give equal views up to status |
| Convergence.BothSyncsAgree | internal/localapi/community.go:600-714 | One sync from each side, each pushing rows of its own and pulling the other's: both stores hold the union of the ids and equal events up to replication status |
| Convergence.SyncBothWays | internal/localapi/community.go:600-714 | The same for the two objects as they run it, pushes and status changes included, and both then compute the same view of the room up to status |
| Membership.WatermarkIsLargest | internal/localapi/background.go:230-241 | The computed watermark is the largest k with versions 1 to k all present |
| Membership.JoinUnique | internal/localapi/background.go:206-228 | A per-member maximum is determined by its candidate records |
| Membership.ApplyIsJoin | internal/localapi/background.go:206-228 | Applying updates yields the per-member maximum over rows and verified updates, whatever their order and repetition |
| Membership.RoundJoins | internal/peerapi/server.go:335-351 | One round gives the requester the pointwise maximum of both rosters if and only if it had rows to report or every responder row lies above the room version it reported |
| Membership.EmptyRosterMissesRecord | internal/peerapi/server.go:335-351 | A failing input: a node without rows that reports version 1 is not told of the record issued under it |
| MembershipWorld.VersionsDistinctExactly | internal/peerapi/server.go:281-312 | Over every run at all, issued versions are distinct if and only if no row was saved under a version already issued, other than the very record issued before |
| MembershipWorld.SaveRowExactly | internal/localapi/server.go:1071-1086 | Saving a row keeps versions distinct and the creator holding the newest record of every member if and only if nothing was issued since the handler read the room version, or it repeats the row held |
| MembershipWorld.SaveUpdateExactly | internal/localapi/background.go:215-220 | A row a sync or joining node decided on earlier leaves the node with the newest of all it saved if and only if the row held at the write is not above it |
| MembershipWorld.NodeHoldsNewest | internal/localapi/background.go:206-228 | Over every run whose writes at a node are such, the node holds of each member the newest record it ever saved |
| MembershipWorld.ExecKeeps | internal/peerapi/server.go:211-312 | The separate steps of every handler, of syncs, joins and departures and of owner settings in any interleaving keep the invariant as long as each row a handler saves is the next version or repeats the row held; what syncs and joining nodes save, and when, does not matter to it |
| MembershipWorld.IssuedRecordsSound | internal/localapi/server.go:1055-1086 | Over every such run issued versions are distinct, records of one member carry one device key, and nothing is issued above a removal except removals |
| MembershipWorld.RemovalIsFinal | internal/localapi/background.go:206-228 | Over every such run, for as long as a node stays in the room and each row it saves is not below the row held at the write, a member it holds as removed is never again pending or admitted there |
| MembershipWorld.CreatorWritesNothing | internal/localapi/background.go:215-218 | At the creator no update ever passes the test while handlers are orderly, so its syncs save nothing |
| MembershipWorld.ReplyCarriesRemoval | internal/peerapi/server.go:335-351 | What the creator answers a joining node after a removal carries that removal or a later one |
| MembershipLaws.JoinDoes | internal/peerapi/server.go:242-312 | A join nothing overlaps is refused exactly without a key, a name, or when a row for the device is held; otherwise the device becomes pending or admitted under the next version |
| MembershipLaws.ApproveDoes | internal/localapi/server.go:1060-1086 | An approval nothing overlaps is refused exactly for a member not pending; otherwise that device is admitted under the next version |
| MembershipLaws.RemoveDoes | internal/localapi/server.go:1128-1176 | A removal nothing overlaps is refused exactly for a member not held; otherwise that device is removed under the next version |
| MembershipLaws.OnlyIssuedApplied | internal/localapi/background.go:206-220 | A row changes only to a complete record of this room that the authority issued |
| MembershipLaws.UpdateDoes | internal/localapi/background.go:205-233 | One update changes its member's row exactly when issued, complete, of this room and above the version held; a row held keeps its device, no other row changes |
| MembershipLaws.SentExactly | internal/peerapi/server.go:335-351 | Which rows a responder sends, from the versions or the room version reported |
| MembershipStale.NextAdmissionExactly | internal/peerapi/server.go:281-312 | The next admission repeats an issued version if and only if the room version is below the highest issued |
| MembershipStale.LowersExactly | internal/store/store.go:242-273 | A sync, a handler's last write or an owner setting leaves the room version below the highest issued if and only if it writes a lower version than the one stored |
| MembershipStale.StaleWriteExactly | internal/localapi/background.go:243-247 | After such a write the next admission repeats an issued version if and only if the write lowered the room version |
| MembershipStale.RemovalUndoableExactly | internal/localapi/server.go:1123-1176 | From any state orderly handlers reach, with no overlap from then on, some continuation readmits a removed member if and only if an issued record other than a removal lies above the next version |
| MembershipStale.StaleSyncUndoesRemoval | internal/localapi/background.go:132-164 | A run in which a stale sync makes the next removal undoable |
| MembershipStale.OverlapUndoesRemoval | internal/localapi/server.go:1055-1086 | A run in which an overlapping approval readmits a member just removed |
| MembershipStale.SlowRemovalUndoesNext | internal/localapi/server.go:1123-1176 | A run in which a slow removal stores an old room version and makes the next removal undoable |
| MembershipStale.OverlappingSyncsUndo | internal/localapi/background.go:215-220 | At any node whose row is below both, two overlapping syncs save a removal and then the older admission over it |
| MembershipStale.OverlappingSyncsRun | internal/localapi/background.go:215-220 | Such a run from a new room, with every handler orderly |
| MembershipStale.LateWriteUndoes | internal/localapi/server.go:912-930 | Any row decided on before a removal was saved, roster rows of a joining node included, undoes it when saved after, and the row held at the write is then above it |
| MembershipStale.RejoiningForgets | internal/localapi/server.go:912-930 | From any state, a node that leaves and comes back can take a stale record for news before it has saved the roster, with every write passing the version test |
| RosterStore.Roster.Apply | internal/room/roster.go:31-50 | A verified newer record replaces the one held; the result says whether the record belongs and verifies |
| RosterStore.Roster.ApplyEach | internal/room/roster.go:31-50 | Over the same records the in-memory roster agrees with the stored one |
| RosterStore.Roster.IsAdmitted | internal/room/roster.go:69-77 | The newest of all verified records ever applied for the member admits this very device |
| RosterStore.Roster.IsRemoved | internal/room/roster.go:79-87 | The newest of all verified records ever applied for the member is a removal |
| RosterStore.RemovedStaysRemoved | internal/room/roster.go:31-50 | Once held as removed, a member stays removed through any updates, as long as nothing is issued above a removal |
| RosterStore.MemberStore.Save | internal/store/store.go:311-336 | A known member keeps its device and room and takes name, status and version |
| RosterStore.MemberStore.ContiguousVersion | internal/localapi/background.go:230-241 | The counting loop computes the watermark |
| RosterStore.MemberStore.ApplyMembershipUpdates | internal/localapi/background.go:206-247 | Rows become the abstract merge; the room version becomes the watermark when above the version the sync began with |
| RosterStore.MemberStore.HandleRequest | internal/peerapi/server.go:242-312 | A join, approval or removal that nothing overlaps: refused exactly when not allowed, otherwise the signed record is the row and its version the room's |
| RosterStore.MemberStore.RosterSnapshot | internal/peerapi/server.go:335-351 | Exactly the rows newer than what the requester reported |
| Budget.StepBounded | internal/hosting/artifacts.go:435-545 | No step raises the committed total above the budget in force |
| Budget.WithinBudget | internal/hosting/artifacts.go:435-545 | Through every interleaving the total stays within a budget that is never set below it |
| Budget.NeverGrowsAboveBudget | internal/hosting/artifacts.go:245-253 | With the budget at or below the total, no interleaving makes the total grow |
| Budget.RecordedWithinTotal | internal/hosting/artifacts.go:509-545 | Recorded weights plus staging files never exceed the committed total |
| Budget.DiskWithinBudget | internal/hosting/artifacts.go:303-396 | From an empty disk the recorded bytes stay within the total and the total within the budget; when manifests name everything placed, so does everything on the disk |
| Budget.ImportEscapesExactly | internal/hosting/artifacts.go:714-774 | On an idle disk with all weights named by manifests, an admitted import leaves the disk within the total if and only if a manifest names it afterwards or it is empty |
| Budget.CommitEscapesExactly | internal/hosting/artifacts.go:392-395 | The same for committing the last running download |
| Budget.UnrecordedWeightsEscape | internal/hosting/artifacts.go:772-773 | A concrete run in which ignored manifest errors put twice the budget on disk |
| BudgetLaws.ChargeRefusedExactly | internal/hosting/artifacts.go:458-497 | A charge within the file limit is refused exactly when it would raise the total above the budget |
| BudgetLaws.ReservedNeverRefused | internal/hosting/artifacts.go:475-492 | A transfer can always stage what it reserved, whatever else holds the budget |
| BudgetLaws.StartRefusedExactly | internal/hosting/artifacts.go:439-448 | A transfer of known size is refused exactly when it would raise the total above the budget, one of unknown size exactly when none is left |
| BudgetLaws.ImportRefusedExactly | internal/hosting/artifacts.go:714-737 | An import to a new place is refused exactly when it would raise the total above the budget |
| BudgetLaws.BudgetInForce | internal/hosting/artifacts.go:245-253 | A positive budget decides the next admission, any other is refused |
| BudgetLaws.TotalIsPromised | internal/hosting/artifacts.go:509-545 | The total is what is on disk under a manifest or in staging and what transfers are still owed |
| BudgetLaws.BytesConserved | internal/hosting/artifacts.go:336-396 | Each step but an import changes the bytes on disk by exactly what it writes, removes or replaces |
| BudgetLaws.ImportBytes | internal/hosting/artifacts.go:739-773 | An import adds its size less what was at its place |
| BudgetLaws.TransferEnds | internal/hosting/artifacts.go:392-396 | A finished or committed transfer is forgotten, its file moved, the others as they were |
| ArtifactManager.Manager.TotalCommittedLocked | internal/hosting/artifacts.go:509-545 | The loops compute installed plus orphaned plus committed bytes |
| ArtifactManager.Manager.StartTransfer | internal/hosting/artifacts.go:435-456 | Admitted exactly when the total with the reservation is within the budget, or, for an unknown size, when some budget is left |
| ArtifactManager.Manager.ChargeTransfer | internal/hosting/artifacts.go:458-497 | A charge to a known transfer within the file limit succeeds exactly when the total with those bytes staged is no larger than before or within the budget; an empty charge always succeeds |
| ArtifactManager.Manager.FinishTransfer | internal/hosting/artifacts.go:499-507 | The transfer is forgotten |
| ArtifactManager.Manager.CommitDownload | internal/hosting/artifacts.go:372-396 | Move, manifest and release of the transfer are one step |
| ArtifactManager.Manager.ImportLocalArtifact | internal/hosting/artifacts.go:714-774 | Admitted exactly when the file fits beside the committed total |
| ArtifactManager.Manager.SetBudget | internal/hosting/artifacts.go:245-253 | Positive budgets only |
| IdleUnload.ExecKeeps | internal/inference/service.go:188-409 | Every interleaving of requests, explicit loads and unloads, timer callbacks, policy changes and shutdown keeps the lifecycle invariant |
| IdleUnload.NeverPinnedAndDemandLoaded | internal/inference/service.go:188-224 | `manualPinned` and `demandLoaded` are never both true |
| IdleUnload.IdleUnloadAlone | internal/inference/service.go:367-409 | While an idle unload is in progress it holds the gate, the engine is unpinned and demand-loaded, and no stream, load or other unload is under way |
| IdleUnload.StaleTimerNeverUnloads | internal/inference/service.go:304-323 | A timer of an outdated generation never unloads, however late it fires |
| IdleUnload.StreamUndisturbed | internal/inference/service.go:586-604 | Until a stream ends the gate and the engine flags stay as they are, whatever else happens |
| IdleLaws.PinnedExactly | internal/inference/service.go:188-246 | In every run the engine is pinned exactly when an explicit load pinned it and no failed load, successful unload or successful switch has come since; a switch under way remembers it |
| IdleLaws.StreamEndArms | internal/inference/service.go:596-603 | When a stream ends on an open, unpinned service with a policy and a runner, a timer of the current generation is running and the engine is marked for release |
| IdleLaws.FailedSwitchRestores | internal/inference/service.go:489-504 | A failed switch restores the pin, or leaves a timer running for an engine that is or was loaded on demand |
| IdleLaws.FailedLoadWatches | internal/inference/service.go:207-222 | A failed explicit load drops the pin and leaves a timer running for such an engine |
| IdleLaws.UnloadClears | internal/inference/service.go:238-245 | A successful explicit unload clears both flags |
| IdleLaws.CurrentTimerReleases | internal/inference/service.go:355-407 | A current timer that fires on an open, idle service with a free gate releases the engine |
| IdleLaws.BusyTimerLooksAgain | internal/inference/service.go:376-401 | A timer that finds the queue busy, or whose unload fails, looks again under the same generation |
| IdleLaws.TimersOutdated | internal/inference/service.go:304-330 | Every load, unload and stream that begins, every policy change and the shutdown outdate a running timer |
| IdleLaws.ClosedExactly | internal/inference/service.go:250-265 | The service is closed exactly when the run closed it, and then for good |
| IdleLaws.ClosedRefuses | internal/inference/service.go:181-207 | On a closed service nothing gets the gate, an explicit load that has it leaves, and no timer is armed or unloads |
| ManagedService.ManagedService.StopIdleTimerLocked | internal/inference/service.go:304-310 | A new generation, no timer |
| ManagedService.ManagedService.ScheduleIdleUnloadLocked | internal/inference/service.go:312-321 | A timer is armed exactly for an open, unpinned, demand-loaded engine with a runner and a policy |
| ManagedService.ManagedService.SetIdleUnload | internal/inference/service.go:325-330 | The policy changes and the timer is re-evaluated |
| ManagedService.ManagedService.Close | internal/inference/service.go:250-265 | The first close invalidates every timer |
| ManagedService.ManagedService.BeginLoad | internal/inference/service.go:197-207 | An explicit load pins the engine unless the service is closed |
| ManagedService.ManagedService.LoadFailed | internal/inference/service.go:208-222 | A failed load drops the pin and keeps track of a resident engine |
| ManagedService.ManagedService.UnloadReturned | internal/inference/service.go:241-246 | A successful unload clears both flags |
| ManagedService.ManagedService.ReconcileLoaded | internal/inference/service.go:468-479 | An engine already holding the model counts as demand-loaded unless pinned |
| ManagedService.ManagedService.BeginSwitch | internal/inference/service.go:480-488 | Both flags are cleared and remembered for the time of the switch |
| ManagedService.ManagedService.EndSwitch | internal/inference/service.go:489-510 | The flags after a switch that succeeded or failed |
| ManagedService.ManagedService.EndStream | internal/inference/service.go:596-603 | The idle period starts over when a stream ends |
| ManagedService.ManagedService.IdleCheck | internal/inference/service.go:367-385 | The callback unloads only with a current generation on an unpinned, demand-loaded engine and an idle queue |
| ManagedService.ManagedService.IdleUnloadReturned | internal/inference/service.go:387-407 | A failed unload is retried under the same generation, a successful one clears the flag |
| Gguf.NumberOfLittleEndian | internal/hosting/gguf.go:124-138 | Reading a little-endian number gives back the number written |
| Gguf.LittleEndianOfNumber | internal/hosting/gguf.go:124-138 | Writing the number read gives back its bytes |
| Gguf.TextExactly | internal/hosting/gguf.go:140-153 | A string is read exactly where an in-limit length-prefixed string stands |
| Gguf.ValueExactly | internal/hosting/gguf.go:171-221 | A value of a given tag is read exactly where the wire form of an in-limit value of that tag stands |
| Gguf.HeaderExactly | internal/hosting/gguf.go:249-353 | A header is read exactly when the bytes begin with the wire form of a flat in-limits version 2 or 3 header, and reading stops at its last byte |
| Gguf.ReadsExactly | internal/hosting/gguf.go:94-122 | With the scan budget: read exactly when the wire form is at most 512 MiB |
| Gguf.HeaderUnique | internal/hosting/gguf.go:249-353 | No file begins with the wire forms of two different headers |
| GgufReader.LastWins | internal/hosting/gguf.go:288-347 | Each metadata field is what the last entry that gives it says, blank when none does; a tokenizer is present exactly when some entry names one |
| GgufReader.ChatTemplateSupportsThinking | internal/hosting/gguf.go:79-87 | True exactly when some marker occurs in the lowered template |
| GgufReader.Reader.Bytes | internal/hosting/gguf.go:102-111 | The next n bytes within file and budget |
| GgufReader.Reader.Skip | internal/hosting/gguf.go:113-122 | Succeeds exactly when n bytes are there |
| GgufReader.Reader.Str | internal/hosting/gguf.go:140-153 | The string of the tree reader |
| GgufReader.Reader.SkipValue | internal/hosting/gguf.go:171-221 | Succeeds and stops exactly where the tree reader does; count times size stays within 512 Mi, the counter within twice that |
| GgufReader.Reader.ReadUintValue | internal/hosting/gguf.go:224-245 | The unsigned value of an integer of any width, 0 for other types |
| GgufReader.ReadMetadata | internal/hosting/gguf.go:249-353 | On any input it ends with the meaning of the tree the file reads as, and success has charged exactly the header's bytes |
| GgufReader.OutcomeOfHeader | internal/hosting/gguf.go:249-353 | For any in-limits header followed by any bytes the outcome is the last-wins fold, a language model exactly when an entry names a tokenizer |
| GgufReader.MalformedExactly | internal/hosting/gguf.go:249-353 | A file is refused if and only if it begins with no such header |
| GgufLaws.TagsAre | internal/hosting/gguf.go:21-47 | The magic, the tags of strings and arrays, and the width of every scalar type |
| GgufLaws.LimitsAre | internal/hosting/gguf.go:24-30 | The limits on versions, counts and lengths, each included |
| GgufLaws.IntegersRead | internal/hosting/gguf.go:223-245 | An integer of any width reads as the number encoded, every other value as zero |
| GgufLaws.ContextLengthRead | internal/hosting/gguf.go:331-338 | The context length is the number the last entry of that suffix encodes, in any integer type |
| GgufLaws.PrefixMeans | internal/hosting/gguf.go:340-342 | The prefix test holds exactly for the prefix followed by anything |
| GgufLaws.SuffixMeans | internal/hosting/gguf.go:331-331 | The suffix test holds exactly for anything followed by the suffix |
| GgufLaws.ContainsMeans | internal/hosting/gguf.go:82-83 | The marker test holds exactly for a text around the marker |
| GgufLaws.ThinksExactly | internal/hosting/gguf.go:67-87 | The five markers, one of which the lowered template contains |
| GgufLaws.EntriesByKey | internal/hosting/gguf.go:298-346 | The key and type each field is taken from |
| ChatTree.RunKeepsTree | internal/store/store.go:545-603 | After any saves and activations parents exist, ids are distinct and every non-empty sibling group has exactly one active message |
| ChatTree.SwitchAndBack | internal/store/store.go:576-603 | Activating a sibling and then the original restores the table exactly |
| ChatTree.MessageStore.Save | internal/store/store.go:545-572 | The new message becomes the active one of its group; a reused id changes nothing |
| ChatTree.MessageStore.Activate | internal/store/store.go:576-603 | The message becomes the active one of its group; an unknown id changes nothing |
| ChatBranch.ActiveBranchIsTranscript | internal/localapi/chatbranch.go:61-116 | In any reachable conversation the visible transcript is a root-to-leaf path along active children, with variant positions |
| ChatBranch.BranchThroughLast | internal/localapi/chatbranch.go:118-167 | The transcript through its own last message is the visible transcript, view for view |
| ChatLaws.ListedInOrder | internal/store/store.go:608-660 | Messages are listed by creation time and, when equal, in stored order |
| ChatLaws.PickedExactly | internal/localapi/chatbranch.go:49-59 | The first active message of a group is picked, the last when none is |
| ChatLaws.BranchCounts | internal/localapi/chatbranch.go:99-112 | Every message shown is counted right among its alternatives, from one on, and they are exactly the messages under its parent |
| ChatLaws.SavedIsShown | internal/store/store.go:541-572 | A message saved below a shown one is the last one shown, as it was saved, after the transcript up to its parent |
| ChatLaws.SavedRootIsShown | internal/store/store.go:541-572 | A message saved at the root is all that is shown |
| ChatLaws.ActivatedIsShown | internal/store/store.go:574-603 | An alternative chosen below a shown message is shown there, after the same messages |
| ChatBranch.TreeHasNoOrphans | internal/localapi/chatbranch.go:73-80 | In a reachable conversation no message needs adopting |
| ChatBranch.ChildrenByParent | internal/localapi/chatbranch.go:31-44 | Each group in creation order, ties in stored order |
| ChatBranch.PickActiveLoop | internal/localapi/chatbranch.go:49-59 | The first active message, or the newest |
| ChatBranch.ActiveBranchLoop | internal/localapi/chatbranch.go:64-116 | On any list the walk ends, shows no message twice, starts in the group of roots and orphans and follows picked children as far as it can; without orphans it is the walk along active children |
| ChatBranch.BranchThroughLoop | internal/localapi/chatbranch.go:122-167 | The ancestor walk, cycles included, shown forwards |
| ChatMigration.MigrateTable | internal/store/migrations.go:201-214 | Every row is active and names the latest earlier row as its parent |
| ChatMigration.MigrationPreservesTranscript | internal/store/migrations.go:196-216 | For any linear conversation the visible transcript is all messages in (created_at, rowid) order, each one of one |
| ChatMigration.MigratedStaysReadable | internal/store/migrations.go:196-216 | A migrated conversation extended by any saves and activations stays a tree whose visible transcript is a root-to-leaf path and equals the transcript through its last message, whatever order its rows are stored in |
| Sse.SSEParser.Feed | web/src/sse.ts:18-29 | Feeding a chunk equals pushing its characters one by one |
| Sse.SSEParser.Flush | web/src/sse.ts:31-41 | A pending line is parsed and a pending event dispatched |
| Sse.SSEParser.ParseOne | web/src/sse.ts:43-61 | One line as event, data, comment or blank |
| Sse.ChunkingInvisible | web/src/sse.ts:18-29 | However a stream is cut, the parser ends in the same state with the same events |
| Sse.FramesRoundTrip | web/src/sse.ts:18-72 | Parsing any frames with one-line data and trimmed event names, interleaved with keepalives, emits exactly what was sent, in order |
| Sse.StreamRoundTrip | web/src/sse.ts:18-72 | End to end: server frames read in any chunks and flushed give back the sent events |
| SseLaws.LinesMean | web/src/sse.ts:43-61 | A name is trimmed, a value loses one leading space and no more, comments and unknown fields change nothing |
| SseLaws.TrimExactly | web/src/sse.ts:53-55 | Trimming takes off exactly the white space around a text |
| SseLaws.CarriageReturnDropped | web/src/sse.ts:24-26 | A carriage return before the newline is no part of the line |
| SseLaws.JoinMore | web/src/sse.ts:63-67 | Data lines are joined with a newline between each two |
| SseLaws.BlankLineEmits | web/src/sse.ts:63-72 | A blank line emits an event that has a name or data lines, these joined, and nothing else |
| SseLaws.FlushEnds | web/src/sse.ts:31-41 | Flushing does what a newline and a blank line at the end of the stream would do |
| Sse.Stream.SendRaw | internal/sse/sse.go:91-106 | A frame is written whole, and not at all once the stream is closed |
| Sse.Stream.SendJSON | internal/sse/sse.go:79-88 | The rendering of one frame, named or not |
| Sse.Stream.SendKeepalive | internal/sse/sse.go:63-76 | A comment frame, which carries no event |
| Sse.Stream.Stop | internal/sse/sse.go:109-116 | The stream is closed and its text kept |
| Payload.SigningPayload | internal/identity/canonical.go:19-27 | The buffer loop writes version, domain and fields, each with its length |
| Payload.FieldsRoundTrip | internal/identity/canonical.go:49-54 | Reading the length-prefixed fields gives back the fields written |
| Payload.PayloadInjective | internal/identity/canonical.go:19-54 | Equal payloads have equal version, domain and fields |
| Payload.RecordsSignedApart | internal/room/membership.go:33-42 | Payloads of memberships, events and receipts coincide only for the same record: kind, version and every signed field, decimals and booleans included |
| Payload.RecordReads | internal/community/event.go:55-57 | A payload of each kind reads back as its version, domain and fields in the order signed |
| Decimals.FormatIntInjective | internal/identity/canonical.go:35-38 | The decimal form of an integer determines it |
| Leaderboard.CalculateLeaderboard | internal/contributions/receipt.go:107-200 | The output is the ranking of the set of receipts, whatever their order, repetition and map order: higher scores first, then more members helped, then the smaller id, each entry telling what counts for its host |
| Leaderboard.ScorePlus | internal/contributions/receipt.go:159-165 | A new receipt adds one point unless its pair already has twenty on that day |
| Leaderboard.ScoreBound | internal/contributions/receipt.go:107-170 | A score is at most 640 for each distinct member helped |
| Leaderboard.RankingOrdered | internal/contributions/receipt.go:186-194 | On the fields: higher scores first, then more members helped, then the smaller id; one entry for each host something counts for, with its score, members helped and name |
| Leaderboard.ReceiptMoves | internal/contributions/receipt.go:130-169 | A new receipt that is not completed, for the host itself, outside the window or for a host that opted out changes no ranking; any other adds a point to its host unless twenty of that requester and day are there, and nothing elsewhere |

## Left out

- HTTP handlers, TLS, the Tailcat transport, SQLite, file and process I/O, the React UI: tables are maps or sequences, the clock and the network are inputs or free choices.
- Ed25519, SHA-256, JSON and content sanitising: a signature verifies exactly when the record was issued; the sanitiser, the channel payload parser and Unicode lower-casing are arbitrary functions.
- Integer widths: int64 counters, sizes and versions are mathematical integers, except in the GGUF reader, whose bounds are proved, and in payload lengths, which are eight bytes.
- Strings are compared character by character; the program compares bytes, which is the same order for valid UTF-8.
- Scheduler.FairQueue: an item is named by its submission number, and its `dispatched`, `removed` and cancelled flags are sets of numbers, instead of fields of a shared record.
- FairQueueTheorems.NothingLeaks: work that panics is not a step; its slot would be kept, since execute releases without defer (internal/inference/queue.go:209-233).
- FairQueueTheorems.SlotsBalance: the same.
- FairQueueTheorems.BoundedBypass: bounds how many starts come first, not how long they take; timeouts are free choices.
- Convergence.SyncBothWays: assumes that no author reuses a sequence across the two stores, since with reuse and more than 500 known ids conflicts may be resent or missed (`SmallRoomsConverge` covers smaller stores without that), that no more is missing than 200 pages of 500 carry, and that every request is answered.
- EventSync.EventStore.SyncWithPeer: the peer's store changes only by the events pushed to it while the loop runs.
- EventSync.EventStore.HandleSync: does not model the channel row saved beside a pushed channel event.
- Retention and the byte cap, read state, and receipt paging, which does not reach every receipt beyond one page of known ids.
- MembershipWorld.ExecKeeps: rows written by a node while it is in no room, and rooms beside this one, are not considered.
- Queue cancellation and address changes that follow a removal.
- Budget.DiskWithinBudget: transfer ids and staging paths are new when a transfer starts, as their nanosecond names intend, an imported file keeps its size while it is copied, and two manifests never name one blob.
- IdleUnload.StreamUndisturbed: safety only; that an idle engine is eventually released is not claimed, since a failed explicit unload leaves no timer.
- IdleUnload.ExecKeeps: acquiring the gate and finding the service closed is one step; whether the runner really holds a model is its own answer.
- ChatBranch.ActiveBranchLoop: with orphans the order of equally old messages in the first group follows the table, and how often a message listed twice stands there is not stated.
- ChatTree.RunKeepsTree: one conversation, and a parent that is empty or exists, as the callers ensure.
- Payload.RecordsSignedApart: the colon-joined payloads of signature version 0 are ambiguous by design and not modelled.
- Leaderboard.CalculateLeaderboard: assumes that equal request ids mean equal receipts; otherwise the first one met would decide.
- Materialize.Materialize: assumes that equal ids mean equal events, which ids derived from the signed content provide.
- GgufReader.ReadMetadata: the kinds of malformed header are one outcome, and the metadata collected before an error is not reported.
- Destination policy, path cleaning, catalog staleness, setup backoff and the supervision of the runner process: single checks, or not invariants of this program.
