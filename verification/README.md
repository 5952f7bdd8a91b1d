# A verified model of Chronotope's core

Chronotope is a spatiotemporal knowledge base. This Dafny project models the parts of it whose
correctness is an argument rather than a matter of plumbing, and proves that argument. The
names in parentheses are the files, each of which holds one module:

- **Temporal order** (`Allen`, `Feasible`, `Order*`). Allen's interval algebra with its composition
  table, the difference-constraint closure that decides whether fuzzy intervals can stand in a
  relation, and the order graph: events as pairs of points, `<` edges in a Pearce–Kelly incremental
  topological order, `=` merges by union-find followed by a Kahn re-sort, and a closure over four
  points that decides contradictions. Everything is proved exact against integer timelines: a conflict
  is reported if and only if no timeline satisfies the accepted relations and the new one. In a graph with
  more points than the search budget of 200,000 a conflict is still never reported wrongly, but one may be
  overlooked.
- **Branches and identities** (`Branches`, `BranchProofs`, `BranchIsolation`, `BranchWrites`,
  `BranchStatus`, `BranchPast`, `Identity`, `MergeDecisions`, `CanonicalStore`). Copy-on-write branches seen
  through chains with fork limits: after any run of writes every view shows exactly one member of each
  override family, with the status that the writes of its branch gave it, and no view notices what other
  branches do. Redirects between merged resources form a forest while no chain exceeds 16 hops, and come from
  approved proposals only.
- **Durability** (`RevisionLog`, `Replay`, `Durability`, `HistoryStore`, `KnowledgeBase`). The log under
  crashes at any byte, snapshots stored before they are referred to, keys that are shredded, and the
  replay that rebuilds the conversation history, even if replays are themselves cut short.
- **Projection** (`TemporalIndex`, `Projection`, `Materializer`). The bucket index over intervals, the
  rows with their envelopes and stale marks, which rows a time filter can miss, and the invalidation queue.
- **Time** (`Civil`, `Clock`, `Dates`, `Calendar`, `IsoText`, `IsoDates`, `TimeRange`, `Ranges`, `Resolver`,
  `Tightness`, `Recurrence`). Civil dates, the windows of dates and days, ISO 8601 text, four-point ranges as an
  abstract domain, the resolver of temporal expressions, which loses no allowed interval and offers no other
  bounds, and recurring events.
- **Text and pages** (`Text`, `TextIndex`, `Paging`, `Utf8`, `RecordEvents`). Normalised text with its way back
  to the raw text, the bigram prefilter, pages of content and of hits, and batches of events.

State that the program updates in place is a class whose methods are proved equal to a function of the old
state (or directly against a property); the laws are then lemmas about those functions. Integers are
mathematical, and 64-bit limits are written out where they decide something (`IsoText`, `Recurrences`,
`Resolver`, `TemporalIndexes`, `Ranges`, `Paging`): a computation that leaves 64 bits fails in the model,
where the code stops or, without overflow checks, goes on with a wrong value. Serialisation, the content hash,
the cipher and the Unicode tables are function-valued parameters with stated laws: a serialised revision is
one line that reads back and of which no proper part does; decryption under the key of the encryption gives
back the plain text (section 2.8 of RFC 8439); lowercasing twice changes nothing and makes no white space.

Where the code misses what it aims at on some inputs, the model follows the code, lemmas show inputs, and
another one states the exact condition:

| property | inputs on which it fails | exactly when it holds |
|---|---|---|
| a later change leaves alone what a branch shows as it was known before | `BranchPast.PastRewritten` | `BranchPast.PastKept`: the assertion is of the branch itself, or was not known by then, or still has the status it had |
| resolving a redirect ends at the root | `Identity.SeventeenMerges` | `Identity.MergeShallow`: the chains that end in the merged root have a hop to spare |
| redirects form no cycle | `Identity.CycleAfterLadder` | `Identity.RedirectExact`: the target does not lead to the redirected resource |
| the group of a resource is listed whole | `Identity.GroupCut` | `Identity.GroupListed`: in breadth-first order fewer than 256 resources come before the members of any resource |
| resources declared distinct are not merged | `Identity.DistinctMerged` | `Identity.SeparateExact`: no declaration connects the two groups |
| no row that the time filter accepts is missing from the candidates | `Projections.OtherAxisMissed`, `Projections.RecurringAlternativeMissed`, `Projections.InstantMissed` | `Projections.NoCandidateLost`: the row recurs, or its own time and the alternatives left out of the envelope lie within the indexed span |
| a recurring event matches every window that one of its occurrences overlaps | `Recurrences.WholeAxisMissed` | `Recurrences.ResolvedSearchExact`: unless the window is the whole axis and the calendar is ahead of UTC; `Recurrences.SearchExact` for windows at the ends of the axis |
| a printed tick parses back to itself | `IsoText.EdgeTicksLost`: the first finite tick and the last whole second | `IsoText.IsoRoundTrip`: it is infinite, or its day begins and what is printed ends within 64 bits |
| "after these and before those" is refused when it allows no interval | `Resolver.EdgeNotRefused` | `Resolver.ContradictionExact`: not just the first or the last tick of the axis is left |
| a new event is in a conversation with the visibility it asked for | `Recording.MixedVisibilityTaken` | `Recording.VisibilityHonoured`: no earlier event of the same batch began the conversation with another one, of which no source was registered |

## Model

| member | source | states |
|---|---|---|
| Allen.ConstraintsCharacteriseOf | crates/chronotope-core/src/time/allen.rs:79-124 | the listed endpoint constraints of a relation hold of two intervals exactly when it is the relation between them |
| Allen.OfInverse | crates/chronotope-core/src/time/allen.rs:48-50 | exchanging the intervals gives the inverse relation |
| Allen.CompositionTable | crates/chronotope-core/src/time/allen.rs:203-225 | the table built from intervals over 0..5 holds a relation exactly when some three integer intervals, of any size, realise it |
| Allen.RankCompression | crates/chronotope-core/src/time/allen.rs:203-225 | any three intervals have the relations of three intervals over 0..5 |
| Allen.Compose | crates/chronotope-core/src/time/allen.rs:180-189 | a relation is in the composition of two sets if and only if members of the sets can meet in it |
| Allen.InverseOfComposition | crates/chronotope-core/src/time/allen.rs:166-189 | inversion distributes over composition with the operands exchanged |
| Feasible.ClosedHasModel | crates/chronotope-core/src/time/allen.rs:272-290 | a closed system of difference constraints without a negative cycle has an integer solution |
| Feasible.Close | crates/chronotope-core/src/time/allen.rs:272-290 | the three nested loops report success exactly when the constraints have a solution |
| Feasible.FeasibleRelation | crates/chronotope-core/src/time/allen.rs:239-290 | a relation is feasible if and only if two intervals within the four-point bounds realise it |
| Feasible.PossibleRelations | crates/chronotope-core/src/time/allen.rs:229-236 | the set is exactly the relations that intervals within the bounds can have |
| OrderClosure.ClosedHasModel | crates/chronotope-core/src/time/order.rs:136-166 | a closed 4-point system with no strict loop has an integer model |
| OrderClosure.Consistent | crates/chronotope-core/src/time/order.rs:136-166 | the answer is true exactly when some integers satisfy what is known of the four points and the extra constraints |
| OrderModels.ReachIncreases | crates/chronotope-core/src/time/order.rs:86-110 | along a path of `<` edges the values of every model increase |
| OrderModels.PruningExact | crates/chronotope-core/src/time/order.rs:86-110 | a search that drops points whose order is beyond the goal, and does not meet it, proves that there is no path |
| OrderModels.Extension | crates/chronotope-core/src/time/order.rs:136-166 | values for four points that respect reachability extend to a model of the whole graph |
| OrderSearch.SearchReach | crates/chronotope-core/src/time/order.rs:86-110 | within the budget the pruned search decides reachability |
| OrderRenumber.RenumberingIncreases | crates/chronotope-core/src/time/order.rs:195-249 | handing the sorted old numbers to the points behind and then to those ahead makes every edge increase |
| OrderRenumber.RenumberingDistinct | crates/chronotope-core/src/time/order.rs:195-249 | the new numbers are distinct again |
| OrderInsert.InsertTopological | crates/chronotope-core/src/time/order.rs:195-249 | inserting an edge that closes no cycle leaves a topological order of the larger graph |
| OrderInsert.Reorder | crates/chronotope-core/src/time/order.rs:207-247 | if some model has the edge, the Pearce–Kelly sweep makes the order topological with it and never reports a cycle |
| OrderInsert.InsertEdge | crates/chronotope-core/src/time/order.rs:195-249 | an edge that some model of the graph allows is added and all invariants hold again; on an error nothing changes |
| OrderMerge.FindRoot | crates/chronotope-core/src/time/order.rs:78-83 | following parents ends at the representative |
| OrderMerge.MergeModels | crates/chronotope-core/src/time/order.rs:252-283 | the models after a merge are exactly the models before it in which the two points are equal |
| OrderMerge.MergePoints | crates/chronotope-core/src/time/order.rs:252-283 | merging keeps the forest, the mirrored edge lists and their restriction to representatives |
| OrderKahn.AllProcessed | crates/chronotope-core/src/time/order.rs:286-328 | if the graph has a model, the queue reaches every representative |
| OrderKahn.Resort | crates/chronotope-core/src/time/order.rs:286-328 | after merges that keep the graph acyclic the re-sort gives a topological order again, with edges between representatives and without repetition |
| OrderFacts.FreshNeverConflicts | crates/chronotope-core/src/time/order.rs:169-193 | a relation with an event of which nothing is known can always be satisfied |
| OrderKnowledge.KnownExact | crates/chronotope-core/src/time/order.rs:112-133 | what is known of four points, with further constraints on them, has a solution exactly when the whole graph has a model with those constraints |
| OrderKnowledge.ModelIsTimeline | crates/chronotope-core/src/time/order.rs:169-193 | models of the graph and timelines of the accepted relations are the same thing |
| OrderKnowledge.ClosureDecides | crates/chronotope-core/src/time/order.rs:169-193 | the 4-point closure decides whether the accepted relations and the new one can be satisfied together; over a part of what is known it never rules out what can be |
| OrderKnowledge.OrdersFollowStarts | crates/chronotope-core/src/time/order.rs:351-361 | an entailed order of starts shows in the order numbers |
| OrderKnowledge.LabelsFollowPoints | crates/chronotope-core/src/time/order.rs:351-354 | an entailed order of any two ends, of one event or of two, shows in their labels; a label starts before it ends |
| OrderGraph.TemporalOrderGraph.EnsureEvent | crates/chronotope-core/src/time/order.rs:56-76 | an event gets two fresh points with an edge from start to end, or keeps those it has |
| OrderGraph.TemporalOrderGraph.AddLt | crates/chronotope-core/src/time/order.rs:195-249 | an edge that some model of the graph allows is added, and the order is restored |
| OrderGraph.TemporalOrderGraph.Merge | crates/chronotope-core/src/time/order.rs:252-283 | two points that some model makes equal become one; the structure holds though the order numbers may not |
| OrderGraph.TemporalOrderGraph.ReorderAll | crates/chronotope-core/src/time/order.rs:286-328 | the order numbers are topological again |
| OrderGraph.TemporalOrderGraph.KnownMatrix | crates/chronotope-core/src/time/order.rs:123-133 | within the search budget every entry says exactly what merges and paths tell of its two points; beyond it an entry may be missing but is never wrong |
| OrderGraph.TemporalOrderGraph.AddRelation | crates/chronotope-core/src/time/order.rs:169-193 | conflict if and only if no timeline satisfies the accepted relations and the new one; a conflict changes nothing; the cycle error never comes out; relations that can be satisfied are accepted in graphs of every size |
| OrderGraph.TemporalOrderGraph.Relation | crates/chronotope-core/src/time/order.rs:332-344 | the set holds every relation that some timeline of the accepted relations realises, in graphs of every size, and within the search budget no other |
| OrderGraph.TemporalOrderGraph.DefinitelyPrecedes | crates/chronotope-core/src/time/order.rs:346-349 | true only if the first ends no later than the second starts in every timeline, and within the search budget always then |
| OrderGraph.TemporalOrderGraph.LinearExtension | crates/chronotope-core/src/time/order.rs:357-361 | the list holds every event once, sorted, and agrees with every entailed order of starts |
| BranchProofs.PositionClipped | crates/chronotope-engine/src/view.rs:87-104 | a new branch finds an older branch at the place where its parent finds it |
| BranchProofs.OnlyOwnBranch | crates/chronotope-engine/src/view.rs:87-92 | what is made after every fork is in range in its own branch alone |
| BranchProofs.OriginalKeeps | crates/chronotope-engine/src/canonical.rs:305-325 | adding an original keeps the rule that each view shows one member of each family |
| BranchProofs.CopyHides | crates/chronotope-engine/src/write.rs:803-812 | in its own branch a copy is shown and what it was copied from is not |
| BranchProofs.CopyKeeps | crates/chronotope-engine/src/write.rs:803-812 | adding a copy of the shown member keeps that rule in every view |
| BranchProofs.ChangeKeeps | crates/chronotope-engine/src/canonical.rs:326-332 | a change in place keeps that rule, and the changes of an assertion still follow one another |
| BranchProofs.BranchChain | crates/chronotope-engine/src/canonical.rs:162-176 | the chain of a new branch is itself and its parent's chain cut at the fork |
| BranchProofs.CreateKeeps | crates/chronotope-engine/src/write.rs:1125-1143 | a new branch shows what its parent shows, and the rule holds for it too |
| BranchIsolation.ChangeUnnoticed | crates/chronotope-engine/src/view.rs:110-122 | a status change in another branch leaves the replayed status as it was |
| BranchIsolation.AddUnnoticed | crates/chronotope-engine/src/view.rs:87-104 | an assertion or copy added in another branch is not seen and hides nothing |
| BranchWrites.OwnStatus | crates/chronotope-engine/src/write.rs:795-801 | in an assertion's own branch the effective status is the stored one, so changes link up |
| BranchWrites.AcceptKeeps | crates/chronotope-engine/src/write.rs:885-893 | accepting one assertion and superseding another in one revision do not disturb each other |
| BranchWrites.ReplaceKeeps | crates/chronotope-engine/src/write.rs:894-910 | an accepted replacement is added, linked, and supersedes the old one, in place or by a copy |
| BranchWrites.WriteKeeps | crates/chronotope-engine/src/write.rs:852-910 | every request keeps the invariant, keeps the families, and is unnoticed by the views of other branches |
| BranchWrites.EveryViewShowsOne | crates/chronotope-engine/src/view.rs:87-104 | after any run of requests every branch view shows exactly one member of the family of each original in its chain and limits, and none of other families |
| BranchWrites.BranchesAreIsolated | crates/chronotope-engine/src/view.rs:87-136 | after any run, a view of a branch gives every assertion the same effective status before and after any further run on other branches, and shows none of what they add |
| BranchStatus.PermittedSee | crates/chronotope-core/src/model/security.rs:76-87 | an unrestricted view gives a status to exactly the shown assertions that the principal may see: public ones, those of a group of theirs, those of an owner they are or act for, and all for the system |
| BranchStatus.StatusWritten | crates/chronotope-engine/src/write.rs:784-816 | after a change of status the member of the family that the branch shows has the status asked for, the same content and a history that ends with the change, in place or in a copy, and every other family has the status it had |
| BranchStatus.StatusRefused | crates/chronotope-engine/src/write.rs:795-797 | a change of what the principal does not see in the branch changes nothing |
| BranchStatus.AcceptWritten | crates/chronotope-engine/src/write.rs:885-893 | after an acceptance the branch shows the family accepted and that of the assertion it replaces superseded, and every other family keeps its status |
| BranchStatus.AcceptRefused | crates/chronotope-engine/src/write.rs:885-893 | an acceptance is refused as a whole if the assertion or the one it replaces is not seen in the branch |
| BranchStatus.ProposeWritten | crates/chronotope-engine/src/write.rs:852-865 | a new assertion is stored as given and shown with its own status to those who may see it, and no other status changes |
| BranchStatus.ReplaceWritten | crates/chronotope-engine/src/write.rs:894-910 | a replacement is stored with its link and shown with its own status; accepted at once, the family of the replaced assertion is shown superseded, and no other status changes |
| BranchStatus.ReplaceRefused | crates/chronotope-engine/src/write.rs:894-910 | a replacement is refused as a whole if its branch or what it replaces is unknown, or if it is accepted at once and what it replaces is not seen |
| BranchStatus.BranchWritten | crates/chronotope-engine/src/write.rs:1125-1142 | a new branch gives every assertion, to every principal, the status that its parent gives it, and the parent notices nothing |
| BranchPast.KnownAfter | crates/chronotope-engine/src/view.rs:105-122 | the status as known at an earlier time after a change: the one asked for once the change is known; before, what it was in place, but for a copy the status of the moment of the change |
| BranchPast.PastKept | crates/chronotope-engine/src/view.rs:105-122 | a change that is not known at a time leaves the status as known at that time alone if and only if the assertion is of the branch itself, or not known either, or still has that status |
| BranchPast.PastRewritten | crates/chronotope-engine/src/write.rs:801-813 | a run after which a change in a branch makes a retraction at time 10 look known at time 5 |
| Identity.ResolveIsRoot | crates/chronotope-engine/src/canonical.rs:96-105 | when no chain exceeds 16 hops, resolving gives the root and resolving again changes nothing |
| Identity.MergeShallow | crates/chronotope-engine/src/write.rs:962-982 | a merge keeps all chains within 16 hops if and only if the chains that end in the merged root have a hop to spare |
| Identity.RedirectExact | crates/chronotope-engine/src/canonical.rs:388-399 | redirecting a resource, redirected before or not, keeps the redirects a forest if and only if the target does not lead to it |
| Identity.CycleAfterLadder | crates/chronotope-engine/src/write.rs:962-982 | after 33 merges in a row, merging the last resource into the first closes a cycle, since both ends are followed 16 hops at a time |
| Identity.SeparateExact | crates/chronotope-engine/src/write.rs:927-982 | a merge keeps resources apart that were declared distinct if and only if no declaration holds between a member of the one group and a member of the other |
| Identity.DistinctMerged | crates/chronotope-engine/src/write.rs:933-943 | two resources declared distinct become one when both are merged into a third, since only declarations between the two roots block a proposal |
| MergeDecisions.ProposalExact | crates/chronotope-engine/src/write.rs:927-961 | a proposal about what its resources resolve to is kept if and only if these are known, differ and are not declared distinct, and merges nothing |
| MergeDecisions.DeclaredBlocks | crates/chronotope-engine/src/write.rs:933-943 | what is declared distinct blocks proposals both ways until it is retracted |
| MergeDecisions.RejectionMergesNothing | crates/chronotope-engine/src/write.rs:962-982 | a rejection is marked and leaves redirects and members as they were, and a decision about anything but an open proposal changes nothing |
| MergeDecisions.ApprovalMerges | crates/chronotope-engine/src/canonical.rs:388-399 | an approval sends what resolved to the one resource to the other and leaves all else; it is refused if and only if the two are one already |
| MergeDecisions.RedirectsApproved | crates/chronotope-engine/src/canonical.rs:388-399 | after any run every redirect was made by an approval of an open proposal, from and to what its resources resolved to by then, and every such approval made one |
| MergeDecisions.ApprovedExact | crates/chronotope-engine/src/write.rs:962-982 | after any run a proposal counts as approved if and only if an approval of the run merged its resources, so rejected and open ones contribute no redirect |
| Identity.RunKeeps | crates/chronotope-engine/src/canonical.rs:388-399 | over any run of merges within 16 hops the redirects are a forest and the member lists its reverse, without repetition |
| Identity.GroupOfRoot | crates/chronotope-engine/src/canonical.rs:183-193 | the group of a root is exactly the resources that resolve to it |
| Identity.CollectedResult | crates/chronotope-engine/src/canonical.rs:183-193 | when the loop stops the list has no repetition, stays in the group, and is the whole group if and only if the elements that were not expanded have no members; it is shorter than 256 if and only if the group is |
| Identity.GroupExact | crates/chronotope-engine/src/canonical.rs:183-193 | so for the list that the loop gives for any resource of a forest; groups of fewer than 256 are listed whole |
| Identity.BreadthFirst | crates/chronotope-engine/src/canonical.rs:183-193 | without the limit the loop would list every resource of the group once, each after the one it was merged into, and the list of the limited loop is a beginning of that |
| Identity.GroupListed | crates/chronotope-engine/src/canonical.rs:183-193 | the group is listed whole if and only if in that breadth-first order fewer than 256 resources come before the members of every resource that has some |
| Identity.GroupCut | crates/chronotope-engine/src/canonical.rs:183-193 | a root with 255 members, one of which has a member, is listed without the last |
| Identity.SeventeenMerges | crates/chronotope-engine/src/canonical.rs:96-105 | after 17 merges in a row resolving stops short of the root, is not idempotent, and disagrees with the group |
| Canonical.CanonicalStore.BranchChain | crates/chronotope-engine/src/canonical.rs:162-176 | the loop gives the declarative chain, and fails for unknown branches and beyond 64 links |
| Canonical.CanonicalStore.Status | crates/chronotope-engine/src/view.rs:87-136 | the loops over copies and over changes agree with the declarative status on which the run theorems rest |
| Canonical.CanonicalStore.ResolveId | crates/chronotope-engine/src/canonical.rs:96-105 | the loop follows at most 16 redirects |
| Canonical.CanonicalStore.IdentityGroup | crates/chronotope-engine/src/canonical.rs:183-193 | the loop gives the list of the lemmas: no repetition, within the group, whole if and only if the elements beyond those that were expanded have no members |
| Canonical.CanonicalStore.CommitPrepared | crates/chronotope-engine/src/kb.rs:215-232 | a revision gets the next sequence number and its commands are applied in order |
| Canonical.CanonicalStore.StatusCmds | crates/chronotope-engine/src/write.rs:784-816 | the command is the one that the theorems on written statuses are about: in place in the own branch, and a copy elsewhere |
| Canonical.CanonicalStore.Execute | crates/chronotope-engine/src/write.rs:820-910 | a refused request changes nothing; an accepted one takes the step that the run theorems are about |
| Canonical.CanonicalStore.ProposeMerge | crates/chronotope-engine/src/write.rs:927-961 | a proposal is kept for two different resolved resources between which no live, affirmed assertion of the store says that they are distinct, and refused otherwise |
| Canonical.CanonicalStore.DecideMerge | crates/chronotope-engine/src/write.rs:962-982 | a proposal is decided once; an approval redirects in place as the theorems on decisions say, and a rejection redirects nothing |
| RevisionLog.ReadEncoded | crates/chronotope-engine/src/store/log.rs:69-102 | reading gives back exactly the appended revisions |
| RevisionLog.ReadExact | crates/chronotope-engine/src/store/log.rs:81-102 | reading succeeds if and only if every line that is not blank decodes, and otherwise names a line that does not |
| RevisionLog.CrashRecovers | crates/chronotope-engine/src/store/log.rs:45-66 | after a crash at any byte of an append the recovered log holds the revision if its text was complete and no trace of it otherwise |
| RevisionLog.RecoverWhole | crates/chronotope-engine/src/store/log.rs:45-66 | recovery leaves a whole log alone |
| RevisionLog.RecoverTwice | crates/chronotope-engine/src/store/log.rs:45-66 | recovering a recovered log changes nothing, so that a recovery that was cut short can be made again |
| RevisionLog.LogSurvives | crates/chronotope-engine/src/store/log.rs:45-102 | after any run of appends and crashes the log reads back as all acknowledged revisions in order, with at most the one in flight of each crash between them |
| RevisionLog.JsonlLog.RecoverTail | crates/chronotope-engine/src/store/log.rs:45-66 | the in-place recovery takes the step that the crash theorems are about |
| RevisionLog.JsonlLog.Append | crates/chronotope-engine/src/store/log.rs:69-79 | the file grows by the text of the revision and a newline |
| RevisionLog.JsonlLog.ReadAll | crates/chronotope-engine/src/store/log.rs:81-102 | the loop over lines gives the declarative reading |
| ConversationHistory.InsertFinds | crates/chronotope-engine/src/history.rs:113-137 | a new event is found by its identifier and at its place, its text or the reason for having none is kept, and every other place stays as it was |
| ConversationHistory.InsertJoins | crates/chronotope-engine/src/history.rs:117-128 | a new event joins exactly the groups that it names: its owner, its call, what it corrects, and its key |
| ConversationHistory.HistoryStore.InsertEvent | crates/chronotope-engine/src/history.rs:113-137 | the maps and the index of normalised texts are updated in place to the state of the lemmas about insertions and runs |
| ConversationHistory.HistoryStore.ShredKey | crates/chronotope-engine/src/history.rs:140-145 | exactly the texts under the key leave the index and are marked as shredded |
| ConversationHistory.HistoryStore.AtSequence | crates/chronotope-engine/src/history.rs:76-82 | the event at a place of the recorded order, if there is one |
| ConversationHistory.RunKeyed | crates/chronotope-engine/src/history.rs:113-145 | after any run of insertions and shredded keys the events are numbered in the order of their insertion and found under the key of their text |
| ConversationHistory.RunIndexed | crates/chronotope-engine/src/history.rs:129-145 | after any run the index holds exactly the readable events whose key was not shredded since, each under the pairs and single characters of its normalised raw text |
| ConversationHistory.HistoryStore.TextCandidates | crates/chronotope-engine/src/query/history.rs:252-258 | after any run no such event whose raw text matches the search is missing from the candidates |
| Replay.RunKeys | crates/chronotope-engine/src/crypto.rs:46-59 | during a run the keys are those of the file or created so far, less the shredded ones, and keep their values |
| Replay.RecordedContent | crates/chronotope-engine/src/kb.rs:174-181 | an event is recorded with its final text unless its key is going to be shredded |
| Replay.RunMeans | crates/chronotope-engine/src/kb.rs:225-280 | whatever keys a session starts with and makes up for shredded ones, running the commands gives the same history |
| Replay.ShreddedSettled | crates/chronotope-engine/src/history.rs:140-145 | in that history no event whose key was ever shredded has a text |
| Replay.RecordedRaw | crates/chronotope-engine/src/kb.rs:247-262 | a recorded event is searched by its final text, under the number of the events recorded before it |
| Durability.PutReads | crates/chronotope-engine/src/kb.rs:156-181 | a stored snapshot reads back as its plain text as long as its key is there, and is withheld once the key is gone |
| Durability.ReplayGives | crates/chronotope-engine/src/kb.rs:104-120 | replaying the log from the key file gives the memory of the running system |
| Durability.StepKeeps | crates/chronotope-engine/src/kb.rs:104-232 | every put, commit, crash and restart, with any number of openings that died during the replay in between, leaves a system that opens, whose log has grown by the revision unless the crash cut its text |
| Durability.RunKeeps | crates/chronotope-engine/src/kb.rs:104-280 | after any run of such steps the log holds every committed revision in order, every snapshot referred to is stored, and the history is what the log means |
| Durability.RestartSame | crates/chronotope-engine/src/kb.rs:104-120 | a restart at any time gives back the same history, index and keys, even when keys were shredded before and openings were cut short |
| Durability.ReopenSame | crates/chronotope-engine/src/kb.rs:104-120 | opening gives the memory of the log from every key file that failed openings can leave, in which shredded keys may have been made once more |
| KnowledgeBases.KeyVault.EnsureKey | crates/chronotope-engine/src/crypto.rs:46-53 | a key that is there is kept and a shredded one is not made again |
| KnowledgeBases.KeyVault.Shred | crates/chronotope-engine/src/crypto.rs:55-59 | the key is gone from memory and from the key file |
| KnowledgeBases.KnowledgeBase.PutSnapshot | crates/chronotope-engine/src/kb.rs:156-171 | the snapshot is stored under its hash, encrypted if asked, and nothing is stored for a key that is not there |
| KnowledgeBases.KnowledgeBase.ReadObject | crates/chronotope-engine/src/kb.rs:174-181 | the text, or why there is none |
| KnowledgeBases.KnowledgeBase.ApplyCommand | crates/chronotope-engine/src/kb.rs:234-280 | keys, snapshots and history are updated in place by the step that the replay theorems are about |
| KnowledgeBases.KnowledgeBase.CommitPrepared | crates/chronotope-engine/src/kb.rs:215-232 | the revision is in the log before it is applied |
| KnowledgeBases.KnowledgeBase.TextCandidates | crates/chronotope-engine/src/query/history.rs:252-258 | after any run of commands, replayed or not, a text search leaves out no recorded event whose final text matches |
| KnowledgeBases.OpenKnowledgeBase | crates/chronotope-engine/src/kb.rs:104-120 | recovering, reading and replaying gives the system that the durability theorems are about |
| TemporalIndexes.BucketReached | crates/chronotope-engine/src/index/temporal.rs:65-82 | an interval that overlaps the window lies in one of the buckets looked into at its level |
| TemporalIndexes.KeysSuffice | crates/chronotope-engine/src/index/temporal.rs:65-92 | the buckets looked into hold every document of the level that overlaps |
| TemporalIndexes.TemporalIndex.Insert | crates/chronotope-engine/src/index/temporal.rs:44-51 | the document has the given span, an earlier one is gone, and all others stay |
| TemporalIndexes.TemporalIndex.Remove | crates/chronotope-engine/src/index/temporal.rs:53-62 | the document is gone from its bucket and all others stay |
| TemporalIndexes.TemporalIndex.Overlapping | crates/chronotope-engine/src/index/temporal.rs:65-93 | the result is that of scanning all spans for start before the end of the window and end after its start |
| Projections.MarkStaleOk | crates/chronotope-engine/src/projection.rs:191-198 | marking keeps the sets and the index in step with the rows and touches one row |
| Projections.UpsertOk | crates/chronotope-engine/src/projection.rs:222-271 | the new row replaces the old one of its resource, fresh and indexed by its envelope, and no other row changes |
| Projections.RemoveOk | crates/chronotope-engine/src/projection.rs:273-281 | the row and everything indexed for it are gone, and no other row changes |
| Projections.NoCandidateLost | crates/chronotope-engine/src/query/search.rs:211-343 | in every mode and on every axis, no row that the time filter accepts is missing from the candidates of the window if and only if the row is undated, recurs, or its own time and all that its alternatives outside the envelope can be lie within the indexed span; a recurring alternative can be anything unless its rule matches no day |
| Projections.ModesExact | crates/chronotope-engine/src/query/search.rs:25-36 | the modes of the time filter for a time that does not recur: some interval that it may be meets the window, every one meets it, or every one lies within it |
| Projections.CertainByOwnTime | crates/chronotope-engine/src/query/search.rs:316-330 | a row is certainly accepted if and only if every interval of its own time, on the axis of the window, meets it; an alternative only makes a row possible |
| Projections.KeptExact | crates/chronotope-core/src/time/range.rs:222-234 | every window that possibly accepts a time meets a span if and only if the time's range lies within, or, for a recurring time, the span is the whole axis or the rule matches no day |
| Projections.RecurringMatches | crates/chronotope-core/src/time/range.rs:222-234 | a recurring time matches a window if and only if some occurrence overlaps it and the search stays within 64 bits, which, away from the ends of the axis, it does unless the window is the whole axis and the calendar ahead of UTC |
| Projections.OrderedKept | crates/chronotope-engine/src/query/search.rs:27-33 | the own time of a row is never the reason that it is lost, in any mode, if its range is ordered and not an instant |
| Projections.CandidatesAreRows | crates/chronotope-engine/src/query/search.rs:211-218 | a candidate is a row whose envelope overlaps the window or that recurs, or an undated one if those are wanted |
| Projections.OtherAxisMissed | crates/chronotope-engine/src/query/search.rs:324-326 | a row accepted through an alternative on another axis is not among the candidates |
| Projections.RecurringAlternativeMissed | crates/chronotope-engine/src/projection.rs:252-260 | nor is a row accepted through a recurring alternative on its own axis |
| Projections.InstantMissed | crates/chronotope-engine/src/query/search.rs:27-33 | nor is a row whose time is an instant at the start of a window that it has to lie within |
| Projections.ProjectionSet.UpsertRow | crates/chronotope-engine/src/projection.rs:222-271 | rows, sets and time index are updated in place to the state that the lemmas are about |
| Projections.ProjectionSet.RemoveRow | crates/chronotope-engine/src/projection.rs:273-281 | likewise for removal |
| Materializers.ClosedHasAll | crates/chronotope-engine/src/materialize.rs:70-86 | a set closed under direct dependents holds all transitive ones |
| Materializers.TouchedSound | crates/chronotope-engine/src/materialize.rs:70-86 | invalidating keeps every stale row queued and the queue without repetition |
| Materializers.ConsistentMeansFresh | crates/chronotope-engine/src/kb.rs:391-403 | when the report says consistent, no row is stale |
| Materializers.BranchState.Invalidate | crates/chronotope-engine/src/materialize.rs:70-86 | exactly the resource and its transitive time dependents leave the cache, are queued, and have their rows marked stale |
| Materializers.BranchState.InvalidateAll | crates/chronotope-engine/src/materialize.rs:88-96 | every resource is queued, its row stale and the time cache empty, and exactly the resources and what depends on them are touched |
| Materializers.BranchState.InvalidateName | crates/chronotope-engine/src/materialize.rs:98-104 | exactly what depends on the name, and what depends on that, is dropped, queued and marked |
| Materializers.BranchState.ProcessOne | crates/chronotope-engine/src/materialize.rs:163-208 | the row is rebuilt or dropped; if there was none or its time or the reason for having none changed, everything that depends on it is queued with a stale row and no cached time, and otherwise no other row changes |
| Materializers.BranchState.Process | crates/chronotope-engine/src/materialize.rs:153-215 | every stale row is queued afterwards; whatever was queued, or had the row computed for it, is queued or has the row computed for it; when nothing remains no row is stale and the state is that of the head revision |
| Civil.CivilOfDays | crates/chronotope-core/src/time/mod.rs:109-132 | the day number of every valid date leads back to the date |
| Civil.DaysOfCivil | crates/chronotope-core/src/time/mod.rs:109-132 | every integer is the day number of a valid date |
| Civil.NextDayIsOneMore | crates/chronotope-core/src/time/mod.rs:109-152 | day numbers count the days of the Gregorian calendar: one more for each next day, 0 on 1970-01-01 |
| Civil.YearOfEraCorrect | crates/chronotope-core/src/time/mod.rs:121-127 | the division formula finds the year of the 400-year era in which the day lies |
| IsoText.TickFields | crates/chronotope-core/src/time/mod.rs:166-180 | the fields of a tick are a valid date and time and add up to the tick |
| IsoText.YearTaken | crates/chronotope-core/src/time/parse.rs:823-842 | a printed year, negative and expanded years included, is read with its sign and value |
| IsoText.ClockParsed | crates/chronotope-core/src/time/parse.rs:363-455 | the printed time of day, with or without milliseconds, is read as its fields |
| IsoDates.ClockInRange | crates/chronotope-core/src/time/parse.rs:363-455 | what is read as a time of day has an hour below 48, a minute below 60 and a second up to 60 |
| IsoDates.MinutesOnly | crates/chronotope-core/src/time/parse.rs:363-455 | an hour up to 47 and a minute, with nothing behind but a zone, are read as a time precise to the minute |
| IsoText.IsoRoundTrip | crates/chronotope-core/src/time/mod.rs:72-99 | what is printed for a tick parses back to the tick if and only if it is infinite or the 64-bit computation of its bounds does not overflow |
| IsoText.EdgeTicksLost | crates/chronotope-core/src/time/mod.rs:72-99 | the first finite tick and the last whole second do not parse back, and the last finite tick does |
| IsoDates.DateParsed | crates/chronotope-core/src/time/parse.rs:823-861 | a year, a year and a month, or a year, a month and a day, with any of the separators, are read as these fields, the numbers modulo 2 to the 32 |
| Dates.ValidDatesExact | crates/chronotope-core/src/time/expr.rs:344-365 | a date is valid if and only if it is one of the calendar, and a day alone if and only if some month has it |
| IsoDates.ZoneRead | crates/chronotope-core/src/time/parse.rs:474-494 | a zone of hours and minutes, with or without a colon, is read with its sign |
| IsoDates.NamedZones | crates/chronotope-core/src/time/parse.rs:474-481 | the zones known by name are UTC under three names and Japan, nine hours ahead |
| IsoDates.LocalRoundTrip | crates/chronotope-core/src/time/parse.rs:460-494 | a tick written as a local time with its zone parses back to the tick, unless 64 bits overflow |
| IsoDates.BlanksIgnored | crates/chronotope-core/src/time/mod.rs:83-99 | blanks around a text change nothing |
| Ranges.Normalize | crates/chronotope-core/src/time/range.rs:41-55 | swapping and clamping in place gives the sorted bounds cut to what intervals reach |
| Ranges.NormalizedOrdered | crates/chronotope-core/src/time/range.rs:40-55 | the stated invariant is reached exactly when the least start is no later than the greatest end |
| Ranges.NormalizedKeeps | crates/chronotope-core/src/time/range.rs:41-55 | normalising loses no interval of the sorted bounds and adds none |
| Ranges.ShiftSound | crates/chronotope-core/src/time/range.rs:98-106 | an interval moved by anything between the offsets lies in the shifted range |
| Ranges.WidenSound | crates/chronotope-core/src/time/range.rs:109-117 | an interval whose ends move by up to the fuzz lies in the widened range |
| Ranges.HullSound | crates/chronotope-core/src/time/range.rs:87-95 | the hull holds the intervals of both ranges |
| Ranges.HullLeast | crates/chronotope-core/src/time/range.rs:87-95 | a range holds the hull if and only if it holds both ranges |
| Ranges.OverlapsExact | crates/chronotope-core/src/time/range.rs:68-75 | possibly means for some interval of the range, certainly means for all |
| Ranges.OrderedInhabited | crates/chronotope-core/src/time/range.rs:7-18 | an ordered finite range holds an interval unless it ends where it starts |
| Resolver.ResolvedOrdered | crates/chronotope-core/src/time/resolve.rs:141-256 | every resolved range satisfies the order of its four points |
| Resolver.ResolveSound | crates/chronotope-core/src/time/resolve.rs:141-256 | every concrete interval that an expression allows lies in the resolved range |
| Tightness.ResolveTight | crates/chronotope-core/src/time/resolve.rs:141-256 | every start, every end and every time in between that the resolved range offers is that of an interval which the expression allows, but for the distance that the expression moves at the ends of the axis |
| Tightness.WindowExact | crates/chronotope-core/src/time/resolve.rs:146-153 | the range of a window holds exactly the intervals that the window allows |
| Tightness.BetweenExact | crates/chronotope-core/src/time/resolve.rs:239-254 | the range between anchors holds exactly the intervals that may lie after the ones and before the others |
| Tightness.AllowedResolves | crates/chronotope-core/src/time/resolve.rs:141-256 | an expression that allows an interval is resolved, unless its offsets leave 64 bits |
| Tightness.FuzzMeans | crates/chronotope-core/src/time/resolve.rs:258-267 | "about" reaches as far as the time is wide, but half an hour, in the measure of the day, for an hour or less |
| Tightness.UnitMeans | crates/chronotope-core/src/time/resolve.rs:269-273 | a unit is to the day of the calendar as it is to a day of 24 hours, rounded down |
| Resolver.ContradictionExact | crates/chronotope-core/src/time/resolve.rs:239-254 | for anchors of every kind, open-ended ones included, "after these and before those" allows no interval if and only if it is refused as contradictory or only the first or last tick of the axis is left |
| Resolver.EdgeNotRefused | crates/chronotope-core/src/time/resolve.rs:239-254 | before an event that starts at the second tick of the axis there is no interval, but the resolver does not refuse it |
| Resolver.ContradictionSound | crates/chronotope-core/src/time/resolve.rs:239-254 | whatever the ranges of the anchors, what is refused as contradictory allows no interval |
| Resolver.ResolvedOpen | crates/chronotope-core/src/time/resolve.rs:141-256 | a resolved range can always start later than minus infinity and end before plus infinity, as the exact statement asks of anchors |
| Calendars.DaysExact | crates/chronotope-core/src/time/expr.rs:368-390 | the days of a period are exactly those whose date has the given year, month, day and part of the month |
| Calendars.BoundsExact | crates/chronotope-core/src/time/expr.rs:344-402 | the window of a valid date is not empty and holds exactly the ticks whose local date matches, or those within the length of the clock after its offset into the day |
| Calendars.DayWindowOrdered | crates/chronotope-core/src/time/resolve.rs:108-119 | a window of days, with or without a clock, is finite and not backwards |
| Calendars.DayWindowExact | crates/chronotope-core/src/time/calendar.rs:117-126 | a window of days holds exactly the ticks of these days, whatever the length of the day and its origin |
| Calendars.MonthWindowExact | crates/chronotope-core/src/time/calendar.rs:199-211 | the window of a month or a year holds exactly the ticks of the days with a date in it |
| Calendars.ClockBoundsExact | crates/chronotope-core/src/time/calendar.rs:212-220 | a clock begins and lasts in proportion to the day of the calendar, rounded down, and at least a tick |
| Calendars.ShiftedOrdered | crates/chronotope-core/src/time/resolve.rs:185-204 | a window from a shifted month or year to a later one is finite and not backwards |
| Calendars.ShiftMonthExact | crates/chronotope-core/src/time/calendar.rs:192-198 | months are counted on through the years, forwards and backwards |
| Calendars.CalendarResolvesOrdered | crates/chronotope-core/src/time/resolve.rs:142-150 | every valid date within 64 bits and every window of days resolves to an ordered range, and every other date is refused |
| Resolver.IntervalContradiction | crates/chronotope-core/src/time/resolve.rs:158-176 | an interval refused because it starts after its end allows nothing |
| Resolver.Narrow | crates/chronotope-core/src/time/resolve.rs:239-254 | the loops over the anchors find the span, or the first failure |
| Recurrences.AnyOccurrenceIn | crates/chronotope-core/src/time/range.rs:237-260 | the loop over the days gives the search of the theorems: nothing when 64 bits overflow, and otherwise whether some day of the calendar has an occurrence that overlaps |
| Recurrences.MarginExact | crates/chronotope-core/src/time/range.rs:247-252 | the range of days misses no occurrence, whatever the rule and the window, if and only if clock and length fit three days and the whole days of the length |
| Recurrences.SearchExact | crates/chronotope-core/src/time/range.rs:237-260 | for a clock and length that fit and every window, the search overflows 64 bits at an end of the window or on a day before which it finds nothing, or it finds something if and only if some day of the calendar has an occurrence that overlaps |
| Recurrences.ResolvedSearchExact | crates/chronotope-core/src/time/range.rs:237-260 | for every recurrence that an expression resolves to and every window whose finite ends are ten thousand years from the ends of the axis, the search is right if and only if the window is not the whole axis or the offset is not ahead of UTC |
| Recurrences.OverflowExact | crates/chronotope-core/src/time/range.rs:242-252 | for the same windows the search overflows only on the whole axis with an offset ahead of UTC |
| Recurrences.WholeAxisMissed | crates/chronotope-core/src/time/range.rs:242-252 | a daily event nine hours ahead of UTC is not found on the whole axis, which is the window of a filter without bounds |
| Recurrences.RuleRepeats | crates/chronotope-core/src/time/range.rs:244-246 | every rule repeats after 400 years, so cutting an infinite window to 400 times 366 days loses nothing |
| Recurrences.RuleByDates | crates/chronotope-core/src/time/expr.rs:272-283 | a monthly rule picks the dates with its day, and a yearly one those with its month and day |
| Recurrences.RuleByWeekday | crates/chronotope-core/src/time/mod.rs:135-138 | every day has exactly one weekday, the next day has the next one, and 1970-01-01 was a Thursday |
| Recurrences.ClockWithinTwoDays | crates/chronotope-core/src/time/expr.rs:155-166 | a clock of up to 48 hours fits with every length |
| Recurrences.ResolvedHaveMargin | crates/chronotope-core/src/time/resolve.rs:232-238 | clock and length of every recurrence resolved from an expression fit |
| Recurrences.LateClockMissed | crates/chronotope-core/src/time/range.rs:193-201 | a spec put together by hand, which resolving never gives, with a clock of 47:59:60.999 and a length just short of a day, would not be found |
| Text.MappedIsNormal | crates/chronotope-engine/src/text.rs:28-51 | the mapped text is the normalised label, with a raw span for every character |
| Text.WideNormal | crates/chronotope-engine/src/text.rs:9-26 | a text in full-width forms has the normal form that it has in ASCII |
| Text.MapText | crates/chronotope-engine/src/text.rs:28-51 | the loop builds the scan that the lemmas are about |
| Text.RawSpanCovers | crates/chronotope-engine/src/text.rs:54-58 | the raw span of a match that neither begins nor ends with a space normalises to text that contains the match |
| TextSearch.GramTokens | crates/chronotope-engine/src/text.rs:121-135 | the tokens are the adjacent alphanumeric pairs and the alphanumerics that stand alone |
| TextSearch.GramQueryTokens | crates/chronotope-engine/src/text.rs:139-150 | a query asks for its pairs and for nothing else |
| TextSearch.ExactQueryFound | crates/chronotope-engine/src/text.rs:121-150 | if the raw query occurs in the raw text, the text has every token asked for |
| TextSearch.TermFound | crates/chronotope-engine/src/text.rs:121-150 | if a term occurs in the normalised text, the text has every token asked for |
| TextSearch.FindAll | crates/chronotope-engine/src/text.rs:61-70 | a match needs every term, and its span is that of the first occurrence of the first term |
| TextSearch.FoundCovers | crates/chronotope-engine/src/text.rs:53-70 | the part of the raw text that is found normalises to text that contains the first term |
| TextSearch.TextIndex.SetTokens | crates/chronotope-engine/src/text.rs:165-173 | the document has exactly these tokens in both directions, and all others stay |
| TextSearch.TextIndex.Remove | crates/chronotope-engine/src/text.rs:175-183 | the document is gone from every posting |
| TextSearch.TextIndex.SearchTokens | crates/chronotope-engine/src/text.rs:190-203 | exactly the documents with all tokens, and no filter without tokens |
| TextSearch.Candidates | crates/chronotope-engine/src/query/history.rs:252-258 | no indexed event whose text matches the query, exactly or term by term, is missing from the candidates |
| Paging.MakePage | crates/chronotope-engine/src/query/history.rs:35-66 | moving the end back step by step finds the last boundary |
| Paging.PageAdvances | crates/chronotope-engine/src/query/history.rs:35-66 | a page is not empty before the end, has the length asked for, between 1 and 1048576 bytes and 65536 if none is, if that much is left, and as text is cut at character boundaries, up to three bytes shorter or one character long |
| Utf8.ValidExact | crates/chronotope-engine/src/query/history.rs:41-51 | bytes count as text if and only if they are the encoding of some Unicode characters, by section 3 of RFC 3629 |
| Paging.PagesAreWhole | crates/chronotope-engine/src/query/history.rs:35-66 | following the next offsets from the start, with any lengths, ends and gives exactly the stored bytes |
| Paging.SearchPage | crates/chronotope-engine/src/query/history.rs:270-319 | a page holds the next hits up to the limit and the cursor of the last key looked at |
| Paging.PageFilled | crates/chronotope-engine/src/query/history.rs:270-319 | a page has as many hits as it has room for, or all that are left |
| Paging.HitsAreWhole | crates/chronotope-engine/src/query/history.rs:265-319 | following the cursors, with any limits, visits every hit exactly once and in order |
| Paging.CursorRoundTrip | crates/chronotope-engine/src/query/history.rs:198-207 | a cursor reads back as its key for its own order and is refused for another |
| Paging.CursorExact | crates/chronotope-engine/src/query/history.rs:198-207 | what is read as a cursor is the tag of the order, a 64-bit integer and a 32-bit one with colons between, and nothing else |
| Recording.Recorder.RecordEvents | crates/chronotope-engine/src/write.rs:1317-1510 | a batch is recorded as a whole, with the visibility of the conversations that it begins, or, when any event is refused, not at all |
| Recording.AcceptedExactly | crates/chronotope-engine/src/write.rs:1317-1432 | a batch is accepted if and only if every event is well formed, its events agree with one another and with the log in identifier, place and content, what was recorded under a resent identifier can still be compared, what is new can be stored, and no new event asks for a visibility that is refused for its conversation |
| Recording.BatchKeeps | crates/chronotope-engine/src/write.rs:1373-1398 | identifiers and places stay unique, and every event of an accepted batch is recorded |
| Recording.RecordTwice | crates/chronotope-engine/src/write.rs:1373-1390 | sending an accepted batch again, perhaps after keys were shredded, changes nothing: all are duplicates if and only if every content can still be compared, and otherwise the batch is refused for that reason |
| Recording.VisibilityHonoured | crates/chronotope-engine/src/write.rs:1400-1451 | a new event of an accepted batch that asked for a visibility is in a conversation with that visibility if and only if no earlier event of the batch began the conversation with another one of which no source was registered |
| Recording.MixedVisibilityTaken | crates/chronotope-engine/src/write.rs:1400-1411 | an event that asks for a private conversation is taken into a public one that the same batch begins, and refused when sent on its own |
| Recording.PrivateByDefault | crates/chronotope-engine/src/write.rs:1418-1419 | a conversation begun by events that ask for no visibility is seen by its owner, by who acts for the owner and by the system, and by no one else |
| Recording.MayCreateExact | crates/chronotope-engine/src/write.rs:501-510 | who may create data of a visibility: anyone public data, an owner and who acts for one private data, a member data of a group, and no one data of no group |
| Recording.Resend | crates/chronotope-engine/src/write.rs:1373-1390 | likewise for any recorded events |

## Left out

- OrderGraph.TemporalOrderGraph.AddRelation: says nothing of a relation that contradicts the accepted ones in a graph whose points, and four more, exceed the search budget of 200,000; there the code takes an unfinished search for the absence of a constraint.
- OrderGraph.TemporalOrderGraph.Relation: beyond the search budget relations that are not possible may be listed too.
- OrderGraph.TemporalOrderGraph.KnownMatrix: beyond the search budget what is known may be missing.
- OrderGraph.TemporalOrderGraph.DefinitelyPrecedes: beyond the search budget it may be false though the order is entailed.
- Feasible.FeasibleRelation: the 128-bit sums are mathematical integers; relation sets are sets instead of bit masks.
- Text.RawSpanCovers: positions count characters where the code counts bytes; both only use positions of character boundaries.
- TextSearch.GramTokens: tokens are a set where the code sorts and removes repetitions.
- IsoText.IsoRoundTrip: the natural-language recognisers that the parser tries before and after the ISO form are not part of this model, nor are kanji numerals; white space is ASCII; 64-bit overflow counts as failure, as it does with overflow detection on.
- Resolver.ResolveSound: dates, weekdays and offsets from the reference enter as windows, of which `Calendars` proves the Gregorian ones; a unit scaled to a day so long that it exceeds 64 bits, which the code cuts off, stays whole.
- Tightness.ResolveTight: anchors and windows hold intervals and keep off the ends of the axis by twice the distance that the expression moves them and a tick; nearer to the ends the bounds are cut off.
- Resolver.ResolvedOrdered: likewise takes windows that are finite and not backwards, as `Calendars` proves of dates, of windows of days and of shifted months and years; missing years are filled in before.
- Calendars.BoundsExact: Julian dates; 64 bits are looked at in `Dates.Bounds`.
- Calendars.ShiftedOrdered: month and year numbers are mathematical integers.
- Materializers.BranchState.ProcessOne: the row, the time cache and the dependencies that a computation yields are a parameter; the code's branch for facts without a resource cannot be taken, because the facts are only computed for a known resource; the order graph of the branch is not rebuilt here.
- Materializers.BranchState.Process: likewise; the order graph and its pending relations are a model of their own.
- Projections.NoCandidateLost: searches that see another state than the projection, and therefore recompute the facts of each candidate, are left out; bounds are 64-bit ticks and recurrences are as resolved. For rows with recurring alternatives whose indexed span ends less than twenty thousand years before an end of the axis, but not there, only the one direction is stated: covered rows are not lost.
- Recurrences.ResolvedSearchExact: windows with a finite end less than ten thousand years from the ends of the axis, for which `Recurrences.SearchExact` says on which days the search overflows.
- Durability.RunKeeps: write errors short of a crash, lost writes without fsync, and clocks; commands that touch neither keys nor acquisitions nor events are not listed in revisions.
- RevisionLog.LogSurvives: a write error after which the process goes on is not modelled.
- BranchWrites.EveryViewShowsOne: runs consist of branch creation, new assertions, status changes, acceptance and replacement; evidence, verification flags and branch names are not modelled, and new identifiers are assumed to be new.
- BranchPast.KnownAfter: changes of status; the first time at which an assertion was known is given, as computed from its evidence.
- BranchWrites.BranchesAreIsolated: views without a limit on what was known; such views can change when evidence is added in another branch.
- Canonical.CanonicalStore.Execute: the reports on what a command touched, curator rights and warnings are left out; the earliest acquisition of an assertion's evidence is part of the given assertion.
- Canonical.CanonicalStore.ProposeMerge: all assertions are looked at where the code has an index by subject.
- Identity.SeparateExact: in the model of merges alone, declarations are a set of pairs with requests of their own.
- Paging.HitsAreWhole: the time budget that can end a page early is left out; the sorted keys and the filter are given.
- Recording.AcceptedExactly: whether an event is well formed (identifiers, content, hash, time), whether a recorded content can still be compared, and whether a new one can be stored are parameters.
- Recording.Recorder.RecordEvents: the acquisition and the snapshot that a new event brings, and the other data of a conversation's source.
- The dates, months and years of calendars other than the Gregorian one: straight-line arithmetic over given unit lengths.
- Julian dates: validated with Gregorian month lengths in the code.
- The lineage of timelines and the lists of claims about a resource: plain searches over the maps.
- Evidence ranking, contested flags and the values of recomputed rows: they depend on cache order and depth limits.
- Geometry, vectors, similarity and rank scores: floating point.
- HTTP server, command line, SQL and RDF export, rule-based extraction.
