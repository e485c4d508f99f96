# A verified model of the agent chat server's state machines

This project models, in Dafny, the parts of the server that keep state over long and interleaved histories, and
proves what they promise:

- **Chat-list replication** (`SyncToken`, `ChatListDelta`, `ChatListSync`, `ChatListAnswer`, `ChatListClient`,
  `ChatListReplica`). The server observes catalog snapshots, diffs them, keeps a bounded ring of changes, and answers a
  client position with a delta, a noop or a resync. The main result is convergence: for every history of observations, every scope and
  every token, an applied delta makes the scoped rows of any observation since the token equal to the current ones.
- **The catalog** (`ChatCatalog`): filters, the plain list, cursors and keyset pages. Following the cursors gives
  exactly the plain list, and the `archived=tree` list is exactly the list a replica is compared with.
- **The chat forest** (`ParentGraph`, `ChatTree`, `ChatTreeLayout`): parent-link graphs with cycles and missing
  parents; fork subtrees, the one-pass blocked set, the nesting guard, the archived-ancestor walk, the split of
  live from archived rows and the explicit-stack preorder.
- **Family archiving** (`ChatArchivePolicy`, `ChatAutoArchive`): the recursive family collector, the children-first
  writer over a store that cascades and fails, and a whole sweep under every failure pattern.
- **Code review phases** (`CodeReviewPhase`, `CodeReviewClosure`, `CodeReviewRecord`, `PoolRoundHistory`): audit and
  closure counters, epochs, dedup keys, the closure cap, the phase a leaf is in over every run, and two-member pool rounds under
  every interleaving of starts and finishes.
- **Delivery and locks** (`DelegationMailbox`, `PromiseLock`, `StoreQueue`): mailbox delivery as a transition system
  with crashes, timeouts, retries and redirects; the promise-chain mutex; the serial store queue.
- **Presence fan-out** (`AgentPresenceBus`): sequence numbers, debt for sockets whose send failed, and the client's
  gap test.
- **Cycle accounting** (`CycleWallTime`, `QualityCycles`, `CycleUsage`): the interval-union sweep, the partition of
  jobs into cycles, and the indexed usage reader.
- **Delegation pages** (`DelegationPages`): newest-first keyset pages over rows that change between two requests.

`Wrappers`, `Sets`, `Sublists`, `Decimal` and `Sorting` hold what several modules share. A loop of the program is a method with
invariants, proved equal to a specification; an object with mutable fields is a class; a protocol with
concurrent callers is a transition system whose runs are sequences of steps.

## Assumptions

- Chat ids are trimmed and unique where a forest is involved. The tree functions index rows last-wins and the
  catalog first-wins, so with duplicates they would not see the same row.
- A catalog revision together with the worktree ids determines the observed content, a client keeps one scope, and
  a scope matcher reads only the five scope fields.
- A digest is the DTO itself (the program serializes it). The byte length of an answer is a parameter of the request
  and can only add a resync.
- Times are parsed milliseconds and costs are integers. An absent string is the empty string.
- A material revision does not begin with a colon, so a material key never looks like a degenerate slot `0::n`.

## Where the code does less than it promises

Each of these is proved: a concrete failing input, and the exact condition under which the promise holds.

- *Delta state equals a resync in tree mode* (docs/architecture-list-sync-contract.md, line 99). It does not when an
  archived row moves under an archived ancestor that the client did not keep: only live upserts bring their
  ancestors (`TreeParityFails`). It holds if and only if no ancestor is stranded (`TreeParityExact`), and always when
  no changed row is archived (`TreeParityWithoutArchivedChanges`). Over a run of deltas a replica equals a resync after every
  one if and only if none strands an ancestor (`RunParityExactly`); after a loss it holds all live rows and nothing wrong
  (`RunHoldsLive`), lists exactly what live rows reach over held rows (`ListedExactly`), and is restored by
  exactly the deltas that bring everything missing (`ParityRestoredExactly`).
- *Existing archive timestamps are preserved* (lib/chat-archive-policy.js, line 198). The store's cascade restamps
  archived descendants: an idle chat with one archived fork loses the fork's time (`ArchivedForkLosesTime`, `ArchivedForkWritten`). A list of
  writes keeps all times if and only if the last write at or above each archived chat carries the same time
  (`TimesKeptExactly`); while the clock shows no stored time, a family write keeps them if and only if no member it still has
  to write has a fork descendant with a time (`FamilyKeepsTimes`), and a sweep likewise (`SweepKeepsTimes`;
  `WholeSweepKeepsTimes` states it before the call).
- *A delegation child is not archived while its parent's row for it is active* (lib/chat-auto-archive.js, line 177).
  The guard looks at the candidate alone (`GuardMissesSharedChild`); `GuardExact` says which delegation rows it leaves open, and
  `FamilyGuarded` that none is while delegation children are fork children of their controller.
- *A pool round is approved only by two distinct identities* (lib/delegation-pool-round.js, line 6). A second
  closure round on a row without round and material opens two records, because the first start clears the slot the
  second one computes its key from (`SiblingJoinsExactly`). The member left behind is then finished by the
  single-review branch: its PASS alone approves, and two failures exceed the closure cap, if and only if the row replayed
  the previous slot (`LonePassApproves`, `CapExceeded`). A new row gets there by one failed audit and one failed closure
  round (`SecondClosureSplits`). The same start delivered twice opens two records under the same condition
  (`RepeatedStartExactly`).
- *A message keeps its request id and is never accepted twice*. A redirect while a delivery is publishing its history card
  gives it two request ids and two runs (`RedirectWhilePublishing`). In a run of the system the id changes if and only if a
  delivery that saw none dispatches after another has issued one (`RequestStableExactly`); with the recovery store open there
  are at most as many accepted runs as that issues ids (`RecoveryBoundsRuns`). Without the store two more runs exist
  (`RedirectAfterNamelessRun`, `FailedRowRestarts`).
- *`delivered` is absorbing*. A delivery that entered on a failed row fails it again after a retry has delivered it
  (`DeliveredRowFails`: the store open, no redirect, a truthful lookup). A delivered row is delivered in every future if and only
  if nobody is publishing (`StaysDeliveredExactly`), and always when no redirect comes in the publishing window and
  no delivery enters on a failed row (`DeliveredIsFinal`).
- *A cursor the server issued is accepted at its own revision*: exactly when the revision is a single line
  (`CursorRoundTrip`).
- *Reviews never attach to a foreign opener*: true exactly of the queries without a chat and those with a chat and a leaf
  (`StaysInCohortExactly`); with a chat and no leaf they do (`ChatQueryMixesLeaves`).

## Model

| member | source | states |
|---|---|---|
| SyncToken.ParseExact | lib/chat-list-sync.js:35-42 | A position text is accepted if and only if it is an epoch, a dot and at most 15 digits, and the parts are read as written |
| SyncToken.FormatParse | lib/chat-list-sync.js:35-46 | Every position the server formats below 10^15 is read back unchanged |
| SyncToken.PlainFormatParse | lib/chat-list-sync.js:35-46 | Stated on the characters: every position below 10^15 under an epoch of 1 to 64 ASCII letters, digits and dashes is read back unchanged |
| SyncToken.ParsedIsPlain | lib/chat-list-sync.js:35-42 | An accepted text has 3 to 80 characters, all of them ASCII letters, digits, dashes or dots, and its position is below 10^15 |
| Decimal.ReadPrint | lib/chat-list-sync.js:44-46 | A number printed in decimal is read back as the same number |
| ChatListDelta.LookupAgrees | lib/chat-catalog.js:131-132 | The catalog's lookup by id and the observation index the same (first) row of an id, projected to the same DTO |
| ChatListDelta.ObservationExact | lib/chat-list-sync.js:105-117 | An observation has one DTO per id, of the first row with it, with the listed fields of that row and no others, marked as on a worktree exactly when its todo has one |
| ChatListDelta.ScopeExact | lib/chat-catalog.js:82-87 | A row is in scope exactly when it carries the widget id of the scope, if one is set, and satisfies the matcher, if the scope names anything |
| ChatListDelta.UntouchedSame | lib/chat-list-sync.js:120-134 | A row that no ring entry since a position lists is identical in every observation since |
| ChatListDelta.GoneWasVisible | lib/chat-list-sync.js:172-178 | A row a replica could see and that the scope no longer sees was visible in some recorded change, so its removal is reported |
| ChatListDelta.DeltaConverges | lib/chat-list-sync.js:166-208 | A delta applied to the scoped rows of the token's observation, or of any later one, gives exactly the current scoped rows |
| ChatListDelta.DeltaShape | lib/chat-list-sync.js:184-208 | No id is both upserted and removed, every touched live row brings its whole unbroken chain of archived in-scope ancestors, and an untouched upsert is such an ancestor |
| ChatListSync.SyncState.Observe | lib/chat-list-sync.js:100-140 | One observation advances the position by one and pushes one entry, which describes exactly the changed rows and overflows if and only if more rows changed than the cap allows; the same key again changes nothing |
| ChatListSync.PushKeepsRing | lib/chat-list-sync.js:134-136 | The ring always holds consecutive entries up to the position, each overflowing exactly past the row cap and otherwise describing its step, under eviction |
| ChatListSync.DiffChanges | lib/chat-list-sync.js:120-132 | Both halves together list exactly the changed rows, and overflow if and only if there are more of them than the row cap |
| ChatListSync.DiffUpserts | lib/chat-list-sync.js:118-126 | The upsert half of the diff lists new and changed rows with their scope fields before and after, and overflows exactly past the row cap |
| ChatListSync.DiffRemovals | lib/chat-list-sync.js:127-132 | The removal half lists exactly the rows that disappeared, and overflows exactly past the row cap |
| ChatListAnswer.GapExactly | lib/chat-list-sync.js:166-167 | The entries newer than a token are incomplete if and only if the token is older than the ring; otherwise they are its last entries |
| ChatListAnswer.NewerDescribes | lib/chat-list-sync.js:166-168 | Complete entries without overflow describe every step from the token's observation to the present |
| ChatListAnswer.OverflowExactly | lib/chat-list-sync.js:171 | A token within the ring is answered too large by its entries if and only if some step since then changed more rows than the cap |
| ChatListAnswer.DeltaReachesNow | lib/chat-list-sync.js:166-208 | The computed delta carries every observation since the token to the present scoped rows |
| ChatListAnswer.TouchRows | lib/chat-list-sync.js:171-179 | The touched map holds exactly the changed ids, each with whether any observed state was visible to the scope |
| ChatListAnswer.SplitTouched | lib/chat-list-sync.js:187-193 | Touched rows in scope now are upserted with their current DTO, and only ids once visible are removed |
| ChatListAnswer.AddAncestors | lib/chat-list-sync.js:196-207 | The upward walks add exactly the archived in-scope ancestors on unbroken chains above live upserts, also on cyclic parent chains |
| ChatListAnswer.CollectedIsDelta | lib/chat-list-sync.js:171-207 | The loops together produce exactly the delta the convergence law is about |
| ChatListAnswer.AnswerToken | lib/chat-list-sync.js:163-212 | Other epoch, ahead, equal, older than the ring, overflowed and deliverable tokens each get their own answer, and every delta and noop converges |
| ChatListAnswer.BuildChatListSyncResponse | lib/chat-list-sync.js:155-212 | The whole entry point: a missing or malformed position, the observation it makes, the exact answer, and convergence over the unbounded history; a delta upserts only current rows that carry the widget id of the scope and satisfy its matcher, upserts every changed one of them with its current content, and removes exactly the rows of which a state since the token could be shown and the current one cannot |
| ChatListAnswer.DeltaServes | lib/chat-list-sync.js:171-207 | The same of every delta, stated on the widget id, the matcher and the observed history alone |
| ChatListClient.ChatListSyncClient.ApplyDelta | app_front/features/chat/chatListSyncClient.js:178-192 | A delta is applied exactly when it is of the held epoch, from the held position or before, to a later one; it is stale exactly when it leads to the held position or before, and a gap otherwise; only an applied one changes rows and position |
| ChatListClient.PruneArchivedWithoutLiveDescendants | app_front/features/chat/chatListSyncClient.js:54-78 | Pruning keeps exactly the live rows and the archived rows with a live descendant under an unbroken archived chain |
| ChatListClient.TreeOfPart | app_front/features/chat/chatListSyncClient.js:54-78 | Rows outside the tree list never influence the tree list |
| ChatListClient.TreeParityExact | docs/architecture-list-sync-contract.md:99-101 | Delta state equals a resync in tree mode if and only if no archived row became a kept ancestor without being touched or travelling with a touched live row |
| ChatListClient.TreeParityWithoutArchivedChanges | docs/architecture-list-sync-contract.md:99-101 | Delta state equals a resync whenever no changed row is archived in scope now |
| ChatListClient.TreeParityFails | docs/architecture-list-sync-contract.md:99-101 | Three rows on which a delta and a resync differ |
| ChatListReplica.RunHoldsLive | app_front/features/chat/chatListSyncClient.js:178-192 | In every run of deltas after a resync, a replica holds all live rows of the current list and nothing that a resync would not list |
| ChatListReplica.JudgedToApply | app_front/features/chat/chatListSyncClient.js:178-192 | The client applies exactly the deltas for which convergence is proved |
| ChatListReplica.RunParityExactly | app_front/features/chat/chatListSyncClient.js:54-76 | A replica equals the list of a resync after every delta of a run if and only if no delta strands an ancestor |
| ChatListReplica.ParityRestoredExactly | app_front/features/chat/chatListSyncClient.js:178-192 | After any earlier losses, a delta leaves exactly the resync list if and only if it brings every archived ancestor of a live row that the replica lacks |
| ChatListReplica.ListedExactly | app_front/features/chat/chatListSyncClient.js:54-76 | After a delta a replica lists exactly the live rows and the archived rows that a live row reaches over rows that were held or brought, so a missing ancestor takes those above it along |
| ChatListReplica.MissingUntilDelivered | app_front/features/chat/chatListSyncClient.js:178-192 | A row a replica misses stays missing until a delta touches it or a live row below it |
| ChatCatalog.List | lib/chat-catalog.js:179-188 | The list is exactly the rows that pass the archive filter and the scope, in store order: all of them, the live ones, the archived ones, or the live ones with the archived ancestors they need within the scope |
| ChatCatalog.SelectedAskedFor | lib/chat-catalog.js:140-188 | The selected rows are a sublist of the rows, at increasing positions, of exactly those whose archive field and scope the query asks for |
| ChatCatalog.CursorExact | lib/chat-catalog.js:217-225 | Every text is read in exactly one way: an empty cursor starts at 0, digits, an at sign and a single line give a position at this revision and are stale at another, and anything else is malformed |
| ChatCatalog.ClampNearest | lib/chat-catalog.js:240-243 | The limit is the one from 1 to 500 nearest to the requested one, and 100 if none is requested |
| ChatCatalog.CursorRoundTrip | lib/chat-catalog.js:217-225 | A cursor is read back at its own revision if and only if the revision is a single line, and is stale at every other revision |
| ChatCatalog.Scan | lib/chat-catalog.js:246-257 | A page from a position is either the rest of the wanted rows or exactly `limit` of them and the position of the next wanted row |
| ChatCatalog.GetPage | lib/chat-catalog.js:236-258 | A page request fails exactly when its cursor does, else its rows are exactly the rows asked for between the position of the cursor and the next one, at most the clamped limit, and a next cursor comes exactly with a further row |
| ChatCatalog.WalkIsList | lib/chat-catalog.js:236-258 | Following the cursors to the end concatenates to exactly the plain list, and every page but the last has exactly `limit` rows |
| ChatCatalog.WalkEnds | lib/chat-catalog.js:236-258 | An unfinished walk of n pages has more than n times `limit` rows to fetch, so every walk ends |
| ChatCatalog.WalkContinues | lib/chat-catalog.js:217-225 | The next request of a walk resumes where it stopped, or is refused as malformed, by whether the revision is a single line |
| ChatCatalog.ScopedDtos | lib/chat-catalog.js:179-188 | Scoping the rows and scoping their DTOs give the same mirror |
| ChatCatalog.DtosSameForest | lib/chat-list-dto.js:57-66 | The DTOs have the same parents, live and archived ids as the rows they were projected from |
| ChatCatalog.TreeListIsTreeRows | lib/chat-catalog.js:149-188 | The `archived=tree` list, as DTOs by id, is exactly the tree list of the scoped mirror that client parity is about |
| ParentGraph.WalkAbove | lib/chat-tree.js:255-275 | The guarded upward walk collects exactly the proper ancestors, on any graph, cycles included |
| ParentGraph.ClimbInto | lib/chat-tree.js:74-104 | A walk that stops at the first mark keeps marks closed under parents and costs one step per new mark |
| ParentGraph.ReparentKeepsAcyclic | lib/chat-tree.js:347-365 | Nesting a node under one that is not below it keeps an acyclic graph acyclic |
| ParentGraph.ReparentUnderDescendantCloses | lib/chat-tree.js:347-365 | Nesting a node under itself or a descendant always closes a cycle |
| ChatTree.CollectForkSubtreeIds | lib/chat-tree.js:43-63 | The fixpoint closure is exactly the root and all fork descendants |
| ChatTree.IsForkSubtreeBusy | lib/chat-tree.js:125-134 | The quadratic test is true exactly when the chat or a fork descendant is busy |
| ChatTree.BuildForkArchiveBlockedIds | lib/chat-tree.js:74-104 | The one-pass blocked set has exactly the ids whose fork subtree is busy, on cyclic graphs and missing parents too, in at most two steps per chat |
| ChatTree.WouldCreateChatParentCycle | lib/chat-tree.js:347-365 | The guard is true exactly when the new parent is the chat itself or lies below it |
| ChatTree.NestingGuardExact | lib/chat-tree.js:347-365 | In an acyclic forest nesting keeps it acyclic if and only if the guard allows it |
| ChatTree.CollectArchivedAncestorIds | lib/chat-tree.js:255-275 | The walk collects exactly the archived rows with a live descendant under an unbroken archived chain |
| ChatTreeLayout.FlattenChatsTree | lib/chat-tree.js:373-416 | The explicit-stack walk equals recursive preorder: every chat reachable from a root once, parent first, level equal to depth, rows on or below a cycle absent; of two rows under one parent, or two roots, the earlier in the input comes first, and a row is marked as last child exactly when it is no root and no later row of the input is under its parent |
| ChatTreeLayout.LastHasNoneAfter | lib/chat-tree.js:406-413 | A child is marked last if and only if no later row of the input lies under the same parent |
| ChatTreeLayout.PreorderIgnores | lib/chat-tree.js:373-416 | Rows already visited do not change the preorder of the others |
| ChatTreeLayout.PartitionChatsByArchive | lib/chat-tree.js:305-318 | Live gets the non-archived rows and the archived ancestors they need, archived the rest, in input order |
| ChatTreeLayout.SplitIsExact | lib/chat-tree.js:305-318 | Live and archived together are an exact split of the input |
| ChatTreeLayout.LiveClosedUnderParents | lib/chat-tree.js:305-318 | The parent of a live row, when it exists, is live as well |
| ChatTreeLayout.SplitKeepsPlaces | lib/chat-tree.js:305-318 | Taking the archived rows out changes neither level nor parent of any row that stays |
| ChatArchivePolicy.ChildrenExact | lib/chat-archive-policy.js:140-181 | The chats the collector visits next are exactly the direct forks and the existing delegation children |
| ChatArchivePolicy.FindsLast | lib/chat-archive-policy.js:133-150 | Of several rows with one id the last one is found |
| ChatArchivePolicy.FamilyCollector.Collect | lib/chat-archive-policy.js:152-190 | The recursive collector terminates on any graph, leaves `visiting` as it found it, and computes the family function |
| ChatArchivePolicy.FamilyCollector.CollectDelegates | lib/chat-archive-policy.js:166-187 | The delegation loop fails on an unsettled row or a failing child and else concatenates the children's families |
| ChatArchivePolicy.CollectExact | lib/chat-archive-policy.js:152-193 | A family is returned if and only if every chat reachable by fork or delegation edges passes the gate with settled rows and no cycle is reachable; its members are then exactly the reachable chats |
| ChatArchivePolicy.FamilyFollows | lib/chat-archive-policy.js:152-193 | Every child of a member comes after it |
| ChatArchivePolicy.SubtreeFollows | lib/chat-archive-policy.js:195-233 | The whole fork subtree of a member lies in the list from that member on |
| ChatAutoArchive.CascadeArchives | lib/persist/chats-persist.js:918-937 | An archive write changes no id and no parent and archives exactly the fork subtree |
| ChatAutoArchive.RowAfterExact | lib/persist/chats-persist.js:932-937 | The whole frame of a list of writes: a row with no write at or above it is unchanged in every field, any other differs by the time of the last such write |
| ChatAutoArchive.AfterOneMore | lib/persist/chats-persist.js:918-937 | One more cascade of the store is one more write of the list |
| ChatAutoArchive.TimesKeptExactly | lib/persist/chats-persist.js:932-937 | A list of writes, each with its own clock reading, keeps the archive times if and only if the last write at or above each archived chat carries that time |
| ChatAutoArchive.TimesKeptThroughout | lib/persist/chats-persist.js:932-937 | They survive every one of the writes if and only if no write has a chat with another archive time at or below it |
| ChatAutoArchive.FamilyKeepsTimes | lib/chat-archive-policy.js:195-233 | While the clock shows no stored time, a finished family write keeps the archive times if and only if no member it still has to write has a fork descendant with a time |
| ChatAutoArchive.SweepKeepsTimes | lib/chat-auto-archive.js:205-235 | Likewise for everything a sweep archives |
| ChatAutoArchive.WholeSweepKeepsTimes | lib/chat-auto-archive.js:205-235 | Before the call: a sweep without write failures keeps the archive times if and only if no live member of the family of a sweepable chat has a fork descendant with a time |
| ChatAutoArchive.ArchivedForkLosesTime | lib/chat-archive-policy.js:195-233 | An idle chat with an archived fork: every finished write of the collected family loses the archive time of the fork |
| ChatAutoArchive.ArchivedForkWritten | lib/chat-archive-policy.js:214-233 | And such a write exists, at every time the clock may show |
| ChatAutoArchive.ChatStore.UpdateChat | lib/persist/chats-persist.js:762-960 | A write that throws changes nothing, one on a missing chat changes nothing, and any other cascades over the fork subtree |
| ChatAutoArchive.ArchiveFamilyMembers | lib/chat-archive-policy.js:214-233 | Whatever write fails, the store is the snapshot after one write per chat in `archived`, row by row; the chats hidden are exactly those, each with its whole fork subtree archived, and without a failure every member ends archived |
| ChatAutoArchive.HasActiveParentDelegation | lib/chat-auto-archive.js:186-203 | The guard is true exactly when the parent's registry is unreadable or holds an unsettled row for the chat |
| ChatAutoArchive.SweepChat | lib/chat-auto-archive.js:205-232 | One candidate is ignored, refused or written, and what is written may be hidden |
| ChatAutoArchive.SweepIdleChats | lib/chat-auto-archive.js:88-235 | Over a whole sweep with any failures, every chat hidden is live, not pinned, of readable activity at least the idle time ago and with a confirming probe, as is all that is forked or delegated below it, none of it a protected favorite, and has its fork subtree archived; nothing but archive and update times changes; without failures it archives exactly these chats, and every chat left has a reason |
| ChatAutoArchive.GateIsIdle | lib/chat-archive-policy.js:79-95 | The gate passes a chat exactly when it is not pinned, its activity is readable and old enough, the probe says yes, and, unless archived chats are let in, it is live |
| ChatAutoArchive.GoesIsTarget | lib/chat-auto-archive.js:205-235 | A live chat at or below a chat under which everything is idle, settled, acyclic and unprotected is a target of the sweep |
| ChatAutoArchive.TargetGoes | lib/chat-auto-archive.js:205-235 | And every target is such a chat |
| ChatAutoArchive.LoneChatGoes | lib/chat-auto-archive.js:205-235 | A live idle chat with no parent, nothing forked or delegated from it and no favorite is one of them |
| ChatAutoArchive.FamilyGuarded | lib/chat-archive-policy.js:201-205 | When delegation children are forks of their controller, the guard on the candidate protects its whole family |
| ChatAutoArchive.GuardExact | lib/chat-auto-archive.js:177-203 | A collected family has no active parent delegation if and only if, for every delegation row of a member whose child is a fork of a chat outside the family, that chat's own rows for the child are readable and settled |
| ChatAutoArchive.GuardMissesSharedChild | lib/chat-auto-archive.js:177-203 | Three chats on which the guard lets through a chat whose fork parent still delegates to it |
| CodeReviewPhase.CountsReviewers | lib/delegation-code-review-phase.js:350-359 | Counting distinct identities of eligible PASS results reaches two exactly when two results come from different identities |
| CodeReviewPhase.StartOpens | lib/delegation-code-review-phase.js:268-303 | A start that does not join opens an unresolved record at the current epoch with only itself |
| CodeReviewPhase.PoolRoundSafe | lib/delegation-code-review-phase.js:239-414 | Over every interleaving of sibling starts and member finishes a round resolves PASS only with no other verdict and two distinct eligible identities, and the audit flag, counter, epoch and stop take exactly one effect |
| CodeReviewPhase.ApprovalNeedsTwoFinishes | lib/delegation-code-review-phase.js:331-400 | Seen from the events: approval only after two members, neither outside the pool, finished with PASS under two distinct identities; failure only after another verdict; pending only while every finish was a PASS |
| CodeReviewPhase.ResolutionIsFinal | lib/delegation-code-review-phase.js:331-333 | Once set, the resolution of a round never changes |
| CodeReviewPhase.PoolRoundWithinCap | lib/delegation-code-review-phase.js:402-412 | A round the gate allowed stays within the closure cap |
| CodeReviewPhase.SiblingJoinsExactly | lib/delegation-code-review-phase.js:152-160 | The second start joins the first one's record unless a closure start still saw the previous slot |
| CodeReviewPhase.LonePassApproves | lib/delegation-code-review-phase.js:626-635 | After two pool reviewers have started a closure round, the PASS of the first alone approves if and only if the row replayed the previous slot; otherwise the round stays pending |
| CodeReviewPhase.CapExceeded | lib/delegation-code-review-phase.js:644-651 | With one closure left, two FAILs of such a round count two and exceed the cap if and only if the row replayed the previous slot |
| CodeReviewPhase.SecondClosureSplits | lib/delegation-code-review-phase.js:146-160 | From a new row, one failed audit and one failed closure round lead to a row whose next closure round splits, is approved by one PASS, and with two FAILs passes the cap of two |
| CodeReviewRecord.TwoPassesDecide | lib/delegation-code-review-phase.js:344-390 | When both members pass, the round is approved if and only if neither is outside the pool and both are known as two different reviewers; if both are inside but not known to differ the leaf is stopped, and otherwise the round stays pending |
| CodeReviewRecord.ResolvesLikeSingle | lib/delegation-code-review-phase.js:381-414 | A finish that resolves a pool round changes the row as the same finish outside a pool does, but for the record and the key a failed closure is counted under |
| CodeReviewRecord.LateSiblingCounts | lib/delegation-code-review-phase.js:255-274 | A sibling that starts after the first member failed the closure round joins the resolved record and counts nothing if round or material is known, and counts a second round otherwise |
| CodeReviewRecord.RepeatedStartExactly | lib/delegation-code-review-phase.js:253-254 | A start delivered twice changes nothing the second time, unless the first was a closure start that opened a record while it still saw the previous slot |
| CodeReviewRecord.StartOpensWindow | lib/delegation-code-review-phase.js:239-304 | A start changes the last closure key and the record at most, and clears the key exactly when it is a closure start that continues no record |
| CodeReviewRecord.StartIsRecorded | lib/delegation-code-review-phase.js:255-304 | After a start its member is in the record with its reviewer, a continued record keeps its results, an opened one supersedes the newest eight members before, and without a pool no record stays |
| CodeReviewRecord.PassedRecordStays | lib/delegation-code-review-phase.js:221-227 | Once the epoch has passed a record, no later start joins it and no later finish is recorded in it, in every sequence of starts and finishes |
| CodeReviewRecord.ParentPassClosesRound | lib/delegation-workflow.js:439-446 | After a PASS of the parent no finish belongs to a pool round, and the next record supersedes nobody |
| CodeReviewRecord.KeysTellRoundsApart | lib/delegation-code-review-phase.js:167-178 | With a known round or material two closure keys are equal exactly when round and judged material are |
| CodeReviewRecord.FinishKeysTellApart | lib/delegation-code-review-phase.js:185-197 | Pool finishes and audits have one idempotency key per review and share none |
| CodeReviewRecord.CountedOncePerMaterial | lib/delegation-code-review-phase.js:645-651 | After a closure finish outside a pool has counted, another counts if and only if it judged another material |
| CodeReviewClosure.ClosureRoundsBounded | lib/delegation-code-review-phase.js:567-663 | Without pool, round, material and resume, the closure count never exceeds the cap in any run, and counted rounds have strictly increasing epoch and count, so their idempotency keys differ; which rounds there are is stated by `ClosurePhaseExactly` and `MayStartExactly` |
| CodeReviewClosure.ClosureFinishExact | lib/delegation-code-review-phase.js:185-197 | In an open window a failing finish counts under a fresh key, and stops the leaf exactly when it is a FAIL that reaches the cap, and a PASS resets; in a counted window every sibling gets the counted key and changes nothing |
| CodeReviewClosure.AuditFinishExact | lib/delegation-code-review-phase.js:626-643 | An audit finish is applied once; one that does not pass sets the audit flag, clears the count and the last key, raises the epoch by one and keeps the reviewer it names; a PASS resets |
| CodeReviewClosure.ClosurePhaseExactly | lib/delegation-code-review-phase.js:545-554 | In every run the next review is a closure review if and only if a failed audit was applied and nothing has approved since |
| CodeReviewClosure.StartsInPhase | lib/delegation-code-review-phase.js:545-602 | So a started review is a closure review exactly in that phase, and an audit outside it |
| CodeReviewClosure.MayStartExactly | lib/delegation-code-review-phase.js:567-602 | In every run a fresh review may start if and only if the leaf is not stopped and, while a failed audit is open, fewer closure rounds than the cap were counted since |
| CodeReviewClosure.CountIsRounds | lib/delegation-code-review-phase.js:652-655 | The count on the row is the number of closure rounds counted under the current epoch |
| CodeReviewClosure.FirstFailureCounts | lib/delegation-code-review-phase.js:205-210 | The first failing closure review after the start of one is counted, whatever else happens between |
| CodeReviewClosure.StopStep | lib/delegation-code-review-phase.js:656-661 | A step leaves the leaf stopped if and only if it is a counted FAIL that reaches the cap, or the leaf was stopped and the parent does not clear it |
| CodeReviewClosure.StoppedUntilCleared | lib/delegation-code-review-phase.js:571-589 | A stopped leaf starts no review until the parent clears the stop, whatever finishes or is approved |
| CodeReviewClosure.CapCloses | lib/delegation-code-review-phase.js:590-600 | At the cap no closure review can start |
| CodeReviewClosure.RunKeepsInv | lib/delegation-code-review-phase.js:199-210 | Every run keeps the last counted slot on the row until the next closure start, and all used keys behind the current epoch and count |
| PoolRoundHistory.NormalizeHistory | lib/delegation-pool-round.js:166-178 | Normalizing keeps each round at its last occurrence, in order, bounded to the newest twenty |
| PoolRoundHistory.NormalizedKeepsNewest | lib/delegation-pool-round.js:152-178 | Stated on positions: the history reads the list at increasing positions, each the last of its key, epoch and members, and a last position it leaves out is older than all twenty it keeps |
| PoolRoundHistory.NewestValueWins | lib/delegation-pool-round.js:158-178 | An entry is kept exactly when no later one is the same round |
| PoolRoundHistory.ArchivePoolRound | lib/delegation-pool-round.js:188-196 | Archiving rounds one at a time gives the same history as normalizing them all at once |
| PoolRoundHistory.NormalizeTwice | lib/delegation-pool-round.js:166-178 | A normalized history has distinct rounds, at most twenty, and normalizing it again changes nothing |
| DelegationMailbox.RequestAcceptedOnce | lib/chat-run/chat-run-recovery.ts:110-155 | With the recovery store open every accepted run has a durable launch record and no request is accepted twice, in every run of the system and whatever lookups answer |
| DelegationMailbox.RequestStableExactly | lib/delegation-mailbox.js:409-420 | In a run of the system the request id, once set, never changes if and only if no delivery that saw none dispatches after another has issued one |
| DelegationMailbox.IssuesCounted | lib/delegation-mailbox.js:409-420 | In every run the request ids issued are the first one and one for every dispatch that issues again |
| DelegationMailbox.RequestNeverChanges | lib/delegation-mailbox.js:386-420 | So it survives crashes, retries, timeouts and redirects in every run without a redirect in the publishing window |
| DelegationMailbox.RecoveryBoundsRuns | lib/chat-run-service.js:315-377 | With the recovery store open a message has, in every run of the system, at most one accepted run and one more for every dispatch that issues a request id again |
| DelegationMailbox.RecoveryGivesOneRun | lib/chat-run-service.js:315-377 | So it has at most one in every run without a redirect in the publishing window |
| DelegationMailbox.AtMostOneRun | lib/delegation-mailbox.js:372-559 | With a truthful lookup and redirects only before a request id exists, a message has at most one accepted run, also without the store and with explicit retries |
| DelegationMailbox.AutomaticNeverRestarts | lib/delegation-mailbox.js:491-559 | Automatic steps never start a second run, even when the lookup does not know the accepted one |
| DelegationMailbox.DeliveredRanOrSkipped | lib/delegation-mailbox.js:372-559 | In every run a delivered row stores the run id of an accepted run, or some delivery found that the report was delivered elsewhere or that the cycle is closed |
| DelegationMailbox.StatusHasCause | lib/delegation-mailbox.js:372-559 | Every status but the first has a step that gave it, by these causes and no others, and none has changed it since |
| DelegationMailbox.StepGives | lib/delegation-mailbox.js:372-559 | Each of these causes gives its status, and no other step changes the status |
| DelegationMailbox.RestartDecides | lib/delegation-mailbox.js:514-559 | A restart leaves no delivery and no dispatching row: a dispatching one is delivered if and only if its run id is stored or found, queued if and only if the lookup denies the run, and uncertain otherwise; other rows stay |
| DelegationMailbox.DispatchingIsAttended | lib/delegation-mailbox.js:409-420 | In every run a dispatching row belongs to the living process and a delivery works under its lease |
| DelegationMailbox.LateResultIsDropped | lib/delegation-mailbox.js:426-452 | A start that comes back after its lease was lost changes nothing on the row |
| DelegationMailbox.AcceptedMeansRun | lib/delegation-mailbox.js:434-479 | A delivery that is told its start was accepted has an accepted run of its recipient |
| DelegationMailbox.RecipientKept | lib/delegation-mailbox.js:1148-1157 | Only a queued message changes its recipient |
| DelegationMailbox.MayRecordExactly | lib/chat-run/chat-run-recovery.ts:110-155 | With the recovery store open, in every run a launch of a request may be recorded if and only if each one recorded so far was refused as busy afterwards |
| DelegationMailbox.RunKeepsPlace | lib/delegation-mailbox.js:1166-1182 | Every delivery that holds a lock works on the row's recipient and request, and there is only one |
| DelegationMailbox.StaysDeliveredExactly | lib/delegation-mailbox.js:372-407 | A delivered row is delivered in every future, over crashes, retries and late deliveries, if and only if no delivery is publishing |
| DelegationMailbox.DeliveredIsFinal | lib/delegation-mailbox.js:372-407 | Delivered is absorbing in every run without a redirect in the publishing window and without an entry on a failed row |
| DelegationMailbox.DeliveredRowFails | lib/delegation-mailbox.js:788-811 | Ten steps, with the store open, no redirect and a truthful lookup, in which a retry delivers the row and a delivery that had entered on the failed row fails it |
| DelegationMailbox.RedirectWhilePublishing | lib/delegation-mailbox.js:386-420 | Eleven steps that give one message two request ids and two accepted runs |
| DelegationMailbox.RedirectAfterNamelessRun | lib/delegation-mailbox.js:798-823 | Without the store, an accepted run without run id is started again after a retry and a redirect |
| DelegationMailbox.FailedRowRestarts | lib/delegation-mailbox.js:372-375 | Without the store, a waiting delivery restarts a failed row whose start had been accepted |
| PromiseLock.AtMostOneRuns | lib/delegation-mailbox.js:46-77 | In every schedule at most one task of a key runs |
| PromiseLock.TasksRunInOrder | lib/delegation-mailbox.js:46-77 | When a task starts, every earlier caller has finished or given up, whatever timed out and whenever the entry was removed |
| PromiseLock.EndedStaysEnded | lib/delegation-mailbox.js:56-72 | A caller that gave up never runs |
| PromiseLock.EndedExactly | lib/delegation-mailbox.js:56-77 | A caller is done exactly when its task has run to the end, and timed out exactly when it gave up waiting |
| PromiseLock.SchedulesEnd | lib/delegation-mailbox.js:46-77 | A schedule has at most four steps per caller, so it ends once nobody arrives any more |
| PromiseLock.SomebodyCanProceed | lib/chat-run-service.js:103-120 | While somebody waits, a task is running or the first waiting caller may run |
| PromiseLock.RunKeepsInv | lib/delegation-mailbox.js:73-75 | The entry is the last caller's chain, and is gone only when everybody has ended |
| StoreQueue.JobsExclude | lib/delegation-store-lock.js:25-43 | In every schedule, also with failing jobs, at most one job is busy and jobs begin in the order of their calls, although each waits for its predecessor only |
| StoreQueue.DelegationStoreQueue.Begin | lib/delegation-store-lock.js:25-34 | A job whose predecessor has ended begins with nothing in flight and every earlier job ended |
| StoreQueue.DelegationStoreQueue.End | lib/delegation-store-lock.js:33-42 | A failed job frees the queue like a successful one |
| StoreQueue.DelegationStoreQueue.IsDelegationStoreWorkBusy | lib/delegation-store-lock.js:14-16 | The counter answers exactly whether a job is running |
| StoreQueue.QueueProgresses | lib/delegation-store-lock.js:25-43 | While a job is pending, one is running or the next may begin |
| AgentPresenceBus.PresenceBus.Flush | lib/agent-presence-bus.js:289-331 | A flush takes a new position exactly when a fingerprint or the watchers changed, sends at most one frame per socket (a snapshot to debtors, a delta to others), no delivered frame is a gap, and every open subscribed socket ends up to date or in debt with the retry armed |
| AgentPresenceBus.PresenceBus.RetryFired | lib/agent-presence-bus.js:226-230 | The retry serves every debt or arms itself again |
| AgentPresenceBus.PresenceBus.Deliver | lib/agent-presence-bus.js:238-245 | A delivered frame pays the debt, a failed send to an open socket leaves it in debt with the retry armed, and inboxes stay free of gaps |
| AgentPresenceBus.PresenceBus.MarkDebt | lib/agent-presence-bus.js:218-231 | Only an open socket enters debt, and then the retry is armed |
| AgentPresenceBus.PresenceBus.Subscribe | lib/chat-list-updates.js:63-74 | A new subscription gets a snapshot at the current position or enters debt; a known socket only changes scope |
| AgentPresenceBus.PresenceBus.DiffPresence | lib/agent-presence-bus.js:141-171 | A refresh reports exactly the changed and the cleared chats among those it looked at, and leaves all others untouched |
| AgentPresenceBus.DiffMaps | lib/agent-presence-bus.js:156-168 | The difference loop computes exactly the changed and cleared chats and the new fingerprints |
| AgentPresenceBus.DeltaCarriesMirror | lib/agent-presence-bus.js:152-171 | Applying a delta to a mirror of the fingerprints before gives the fingerprints after |
| AgentPresenceBus.DiffIffChanged | lib/agent-presence-bus.js:294-300 | A refresh has something to send exactly when it changed a fingerprint |
| AgentPresenceBus.RefreshedIsAs | lib/agent-presence-bus.js:141-171 | After a refresh the chats asked for, or all, and those summarized are as the summary says, and all others as before |
| AgentPresenceBus.GapIsMissedFrame | lib/agent-presence-policy.js:44-51 | The gap test is true exactly when a delta has no valid number or some position lies between the last one and its own |
| CycleWallTime.UnionWallMs | lib/delegation-cycle-outcomes.js:44-65 | The sweep returns the number of milliseconds in which some job with readable times runs, from its start until before its end |
| CycleWallTime.CoveredExact | lib/delegation-cycle-outcomes.js:34-43 | A millisecond is covered exactly when it lies in some half-open interval |
| CycleWallTime.CoveredIsBusy | lib/delegation-cycle-outcomes.js:27-43 | The covered milliseconds are those between the start and the end times of the rows |
| CycleWallTime.IntervalsPermute | lib/delegation-cycle-outcomes.js:44-65 | The wall time does not depend on the order of the rows |
| CycleWallTime.WallAtMostSum | lib/delegation-cycle-outcomes.js:34-43 | The union is at most the sum of the lengths, with equality exactly when no two jobs overlap |
| CycleWallTime.NoOverlapPairwise | lib/delegation-cycle-outcomes.js:34-43 | No interval meets the union of those before it exactly when no two share a millisecond |
| CycleWallTime.WallBetween | lib/delegation-cycle-outcomes.js:34-43 | The union is at least every single job and at most the span from first start to last end |
| QualityCycles.BuildCyclesForRows | lib/delegation-cycle-outcomes.js:94-136 | The pass with an open cycle computes the simple form and drops unclosed cycles unless asked for |
| QualityCycles.OneCyclePerOpener | lib/delegation-cycle-outcomes.js:121-134 | Each opener starts exactly one cycle, in order |
| QualityCycles.CyclesConserve | lib/delegation-cycle-outcomes.js:121-134 | Read in order, the cycles are exactly the openers and the reviews after the first opener: no row lost or duplicated |
| QualityCycles.ReviewsJoinLatestOpener | lib/delegation-cycle-outcomes.js:138-149 | The reviews of an opener's cycle are exactly the reviews between it and the next opener |
| QualityCycles.CyclesGrow | lib/delegation-cycle-outcomes.js:121-134 | Later rows never change the cycles before an opener |
| QualityCycles.PartitionByCohort | lib/delegation-cycle-outcomes.js:175-184 | The partition has one group per chat and leaf, and each group holds exactly its rows in order |
| QualityCycles.CohortsConserve | lib/delegation-cycle-outcomes.js:175-184 | The groups together are a permutation of the rows |
| QualityCycles.BuildQualityCycles | lib/delegation-cycle-outcomes.js:160-192 | With a chat its rows are one cohort; otherwise the cycles are those of each cohort, sorted by creation; every cycle of the answer opens with an implement or fix job asked for and holds reviews created between it and the next such job |
| QualityCycles.AnswerKeepsRules | lib/delegation-cycle-outcomes.js:121-134 | Stated on roles, times and states of the jobs: openers and reviews are asked-for rows of their roles, no other opener of the cohort was created between the opener of a cycle and a review in it, with `includeOpen` every opener asked for has its cycle and every review created after an opener is in one, and without it the cycles have ended |
| QualityCycles.ClosedAreShown | lib/delegation-cycle-outcomes.js:104-136 | Without `includeOpen` the answer for a chat is the ended cycles of the full answer, in the same order |
| QualityCycles.ReviewsStayInCohort | lib/delegation-cycle-outcomes.js:147-149 | In the result of a query without a chat, or with a chat and a leaf, every review is of the chat and leaf of its opener |
| QualityCycles.StaysInCohortExactly | lib/delegation-cycle-outcomes.js:171-173 | Over all rows these are exactly the queries that keep reviews in their cohort |
| QualityCycles.ChatQueryMixesLeaves | lib/delegation-cycle-outcomes.js:171-173 | With a chat and no leaf a review of one leaf joins the opener of another |
| CycleUsage.SharedUsageReader.Select | lib/delegation-cycle-outcomes.js:342-369 | Selecting through the indexes gives a permutation of exactly the matching events, each once, with one ledger read per span |
| CycleUsage.SharedUsageReader.Read | lib/delegation-cycle-outcomes.js:325-340 | A span is read once, and a failed read is remembered |
| CycleUsage.TallyPermutes | lib/delegation-cycle-outcomes.js:509-539 | The tally does not depend on the order of the events |
| CycleUsage.TallyExact | lib/delegation-cycle-outcomes.js:509-539 | Every figure is a count of events: matching ones that are not runs, those of unknown and subscription billing, and those with a positive price, whose prices add up to the cost |
| CycleUsage.PricedCyclesExact | lib/delegation-cycle-outcomes.js:478-538 | The priced cycles are exactly those of the events with a positive price |
| CycleUsage.PricedCyclesOf | lib/delegation-cycle-outcomes.js:478-538 | Stated on the ids: a cycle is priced exactly when a positively priced event is of a job it is the last to hold, or of no job of the cohort and of a chat it is the last to hold |
| CycleUsage.MatchesBelongs | lib/delegation-cycle-outcomes.js:515-523 | An event counts for a cohort exactly when its non-empty job or chat id is one of some cycle |
| CycleUsage.IndexIds | lib/delegation-cycle-outcomes.js:479-492 | The id index holds every id of the cohort, each with the last cycle that has it |
| CycleUsage.PickedMatching | lib/delegation-cycle-outcomes.js:361-368 | Positions that are exactly the matching ones, each once, pick a permutation of the matching events |
| CycleUsage.TallyOfMatching | lib/delegation-cycle-outcomes.js:515-523 | Events that match nothing do not count |
| CycleUsage.SumCycleCohortUsage | lib/delegation-cycle-outcomes.js:465-560 | Whether the reader selects or only reads, the usage is the tally of a full scan; a failed read or a cohort without ids is empty |
| DelegationPages.PageDelegationRows | lib/delegation-query.js:223-252 | A page is the newest rows older than its cursor, at most `limit`, skipping nothing newer than its last row |
| DelegationPages.PageHoldsNewest | lib/delegation-query.js:223-252 | Stated on times and ids: the page is in order, older than the cursor, and what it leaves out is older than all of it, which then is full |
| DelegationPages.NoRowTwice | lib/delegation-query.js:223-252 | A walk never delivers a row twice, whatever rows are inserted or deleted between its requests |
| DelegationPages.NothingSkipped | lib/delegation-query.js:223-252 | A finished walk delivers every row that existed throughout, whatever happens to the others |
| Sorting.SortSorts | lib/delegation-cycle-outcomes.js:71-75 | Rows come out in order of the key |
| Sorting.SortPermutes | lib/delegation-cycle-outcomes.js:71-75 | Sorting loses and duplicates nothing |
| Sorting.SortStable | lib/delegation-cycle-outcomes.js:71-75 | Rows with the same key keep their order |

## Left out

- Files, sockets, processes, timers as wall clock, push, HTTP and WebSocket plumbing, settings and environment reads: abstract stores, nondeterministic failures and explicit steps stand for them.
- Report and verdict parsing (lib/delegation-code-review-phase.js:433-513): a finish carries its credible verdict.
- lib/delegation-owner-lock.js and lib/child-process-registry.js: their guarantees rest on the file system and signals.
- The rest of lib/delegation-query.js and the chat order of lib/chat-tree.js:426-500: descriptions, text pages and order merging are easier than what is modelled. Oldest-first pages order equal times by another rule than their cursor uses.
- DelegationPages.PageDelegationRows: times and ids are integers, so there is one order for sorting and for the cursor; a limit that rounds down to 0 gives an empty page without a cursor, and walks have a positive limit.
- The content of presence frames, and one browser that counts positions over several sockets: the model is one connection's sequence and debt.
- The default workspace matcher (path resolution) and the trimming of strings: the matcher is a parameter and strings come trimmed.
- Resume of a stopped workflow, and closure runs with a round number or material revision: the closure results are about rows without both.
- CodeReviewPhase.PoolRoundSafe: is about rounds of at most eight started members, where the stored lists are not truncated.
- DelegationMailbox.AutomaticNeverRestarts: leaves out deliveries that enter on a failed row, because for those it is false (`FailedRowRestarts`).
- DelegationMailbox.MayRecordExactly: the limit of eight refused launches is not modelled.
- The cancellation of a run that was accepted after its delivery lost the lease.
- DelegationMailbox.RequestAcceptedOnce: the executor's proof of refusal is taken as true, and the limit of eight refused launches is not modelled.
- ChatAutoArchive.FamilyKeepsTimes: is about a clock that shows no stored time; `TimesKeptExactly` has no such premise. One write has one clock reading for all its update times, where the store reads the clock per row.
- DelegationMailbox.DeliveredIsFinal: goes one way over whole runs; per state `StaysDeliveredExactly` goes both ways.
- DelegationMailbox.RecoveryBoundsRuns: is a bound, because a request id need not lead to an accepted run; it is reached by `RedirectWhilePublishing`.
- ChatAutoArchive.FamilyGuarded: goes one way; the other direction is `GuardExact`.
- Quality outcomes, verify policy and manual acceptance of a cycle (lib/delegation-cycle-outcomes.js:200-304), and shares and rounding of costs.
- The resync walk, persistence and channel of the list client: the model starts at a held position and rows.
- Takeover, reply fences and the enqueueing of mailbox messages: a message starts as a queued row.
