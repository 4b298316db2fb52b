# Verified model of the platform's algorithms and state machines

This project models the parts of the learning platform in which behaviour is decided by an algorithm
or by state that changes over time, and proves what those parts promise: on every input, every graph,
every run. Each Dafny module follows one component of the repository.

| module | what it models |
|---|---|
| `Graphs`, `CallOrder`, `CycleDetection`, `Redundancy`, `RedundancyOrder`, `ParallelGroups` | the dependency scanner: depth-first cycle search, redundant dependencies, groups that may run in parallel |
| `Presence`, `PresenceBlocks`, `PresenceMeasure`, `PresenceCover`, `PresenceOverlap`, `PresenceMeaning`, `PresenceChange`, `PresenceOrder`, `Reports` | attendance from join/leave segments with a reconnection tolerance, and the two reports computed from it |
| `Ordering`, `ContentStore`, `ContentEffects` | trails, modules and lessons: guarded creation, cascading soft delete, transactional reorder |
| `CsvExport` | the audit CSV, read back by an independent reader of RFC 4180, section 2 |
| `AuthTokens`, `TokenEffects`, `TokenRuns`, `UserRuns`, `RateLimit` | registration, e-mail verification and password recovery: single-use tokens with a lifetime, behind a counter with a window |
| `DocumentGroups`, `DocumentPlacing`, `DocumentOrder` | grouping documents with their companions by file name |
| `ContrastTokens` | resolving colour tokens with a bounded depth |
| `ConfigMerge`, `ResultTemplates`, `HelpMerge` | merging a module into the shared configuration and the shared help table |
| `ConsentHistory` | the consent index against a replay of the consent log |
| `Memberships` | the last-administrator guard and the plan limits of groups |
| `Collections`, `Options`, `Sorting` | shared vocabulary |

Code that works by changing state is a class or a method with loops, tied by its postconditions to a
function of its input or of the state before; the lemmas are about those functions. Code made of
expressions is a function. Times are integer milliseconds, seconds and ratios are exact reals, and
`Math.round(x)` is the floor of `x + 1/2`.

## What the proofs found

Where the code and its comments or its purpose part ways, the model follows the code. Each point names
the lemma that states exactly when.

- **Redundant dependencies.** Dropping every reported dependency at once keeps reachability exactly if
  nodes on a cycle have one dependency only, and two dependencies of a node that need each other have
  another one of it above them (`Redundancy.PruningKeepsExactly`). Acyclic graphs meet this. A node whose
  only two dependencies need each other loses both, and a node that depends on itself loses its exits.
- **Attendance.** A gap exactly as long as the tolerance still counts as a reconnection, although the
  comment in presence.ts says less than the tolerance (`PresenceBlocks.ReconnectionsExactly`). `ausente` is
  exactly whose unrounded total is below half a second (`PresenceMeaning.AbsentExactly`). Segments that leave
  before they join are accepted; with them the order of the input can matter, in exactly the cases of
  `PresenceOrder.OrderExactly`, and the reported leave is the latest of all exactly as
  `PresenceMeaning.AttendanceMeaning` says. A negative tolerance is accepted too. The total then counts time
  twice exactly if a block that is not empty begins before an earlier segment leaves
  (`PresenceMeaning.TotalIsCoveredLessTolerance`). That the total measures presence, and that a longer
  tolerance or one more segment lowers nothing, holds exactly from a tolerance of minus a millisecond on
  (`PresenceChange.MeasureExactly`, `PresenceChange.RaisingExactly`, `PresenceChange.AddingExactly`).
- **Order numbers.** A new module is numbered by the count of live modules, which keeps 0..n-1 dense exactly
  if it was dense (`Ordering.AppendDense`). Deleting a module keeps it dense exactly if the module was the
  last (`Ordering.DeleteDense`). A lesson is always created with order 0, although the comment promises a
  later update, so the lessons are dense exactly if the others count from 1 (`Ordering.ZeroDense`).
- **Deleting a lesson** does not look at the trail named in the request, which makes a difference exactly if
  the lesson is found and its module is not a live one of that trail (`ContentStore.DeleteIgnoresTrail`).
- **CSV.** The file determines its events up to one thing: an absent user, resource or state reads as an
  empty text (`CsvExport.ExportDeterminesEvents`).
- **Tokens.** `confirm` burns the token of a user who is missing, `resetPassword` keeps it; with that,
  each succeeds exactly as `TokenRuns.ConfirmSucceedsExactly` and `TokenRuns.RecoverySucceedsExactly` say.
  The limiter counts in fixed windows, so a stretch of time can see more than three tokens an hour; the bound
  of `RateLimit.RequestsAreLimited` is attained for every length of time (`RateLimit.BoundIsAttained`).
- **Registration.** Exactly an address that the platform knows but the identity provider does not ends up
  with an identity and without a token, and cannot be registered again (`AuthTokens.NotStoredExactly`).
- **Grouping.** Every file stands in the groups as often as it is listed exactly if every repeated file name
  stands alone: no pattern matches it and nothing is placed as its companion
  (`DocumentPlacing.FilesKeptExactly`). Otherwise a file can vanish (`DocumentPlacing.RepeatedBaseIsLost`).
  A companion that is a base itself lands with its own base exactly if no companion of it comes earlier
  that is placed as one (`DocumentPlacing.CompanionLands`, `DocumentPlacing.OrderDecidesChain`).
- **Configuration.** Merging twice equals merging once exactly if the merge leaves no core section behind, or
  one whose entries are at the root already (`ConfigMerge.MergeTwice`). Core defaults taken from an older
  installation survive a later merge, the module's do not (`ConfigMerge.LegacyCoreStays`).
- **Help table.** Merging twice equals merging once exactly if every source row carries a module code;
  rows without a code are appended again each time (`HelpMerge.MergeTwice`).
- **Consent.** The version shown is the same for every order of the rows exactly if the acceptances at the
  latest time carry one version (`ConsentHistory.VersionOrderExactly`); status and times never depend on it.
- **Last administrator.** The guard protects users only from themselves. A tenant loses its last
  administrator exactly when somebody else takes the role from the only one
  (`Memberships.LastAdminLost`), which cannot happen while every actor is an administrator.

## Model

| member | source | states |
|---|---|---|
| CycleDetection.DetectCycles | _bmad/bmb/bmad-agent-builder/scripts/prepass-execution-deps.py:33-58 | every reported list is a closed walk along edges without a repeated node; the reported closing edges meet every closed walk; the list is empty exactly if the graph is acyclic; each node is expanded once and dfs is called once per key and once per edge that leaves a key; and the list holds the cycle of each call for a node that is being searched, in the order of the calls, which SearchIsDetermined says the graph determines |
| CallOrder.SearchIsDetermined | _bmad/bmb/bmad-agent-builder/scripts/prepass-execution-deps.py:40-56 | one call for each key and, after the first call for a node, one for each of its dependencies, under the call and in their order: there is only one such list of calls |
| CycleDetection.CycleFromExactly | _bmad/bmb/bmad-agent-builder/scripts/prepass-execution-deps.py:42-43 | a reported cycle is the path from where the node stands on it, closed by the node |
| CycleDetection.Search.Dfs | _bmad/bmb/bmad-agent-builder/scripts/prepass-execution-deps.py:40-53 | a call restores the path, deals with its node for good (searched to the end or recorded as closing a cycle) and pays for itself in calls |
| CycleDetection.Search.Expand | _bmad/bmb/bmad-agent-builder/scripts/prepass-execution-deps.py:47-53 | a new node is entered, searched and left with the path as it was, and the calls it leads to are listed under it |
| CycleDetection.Search.Explore | _bmad/bmb/bmad-agent-builder/scripts/prepass-execution-deps.py:50-51 | the loop deals with every dependency of the node and leaves the path as it was |
| CycleDetection.Search.Report | _bmad/bmb/bmad-agent-builder/scripts/prepass-execution-deps.py:41-44 | appends exactly the cycle cut out of the path, and it is a simple cycle |
| CycleDetection.PathDescends | _bmad/bmb/bmad-agent-builder/scripts/prepass-execution-deps.py:33-58 | a path that avoids the closing edges visits nodes in decreasing finishing position |
| CycleDetection.OrderBreaksCycles | _bmad/bmb/bmad-agent-builder/scripts/prepass-execution-deps.py:33-58 | hence every closed walk uses one of the closing edges |
| Redundancy.GetTransitive | _bmad/bmb/bmad-agent-builder/scripts/prepass-execution-deps.py:65-72 | the shared set is filled so that every node added has its dependencies in it, and only nodes that can be reached are added |
| Redundancy.Transitive | _bmad/bmb/bmad-agent-builder/scripts/prepass-execution-deps.py:65-80 | the set filled from empty is exactly the set of nodes reachable along at least one edge |
| Redundancy.FindTransitiveRedundancy | _bmad/bmb/bmad-agent-builder/scripts/prepass-execution-deps.py:61-88 | returns the report, whose findings and their order ReportInOrder gives |
| Redundancy.ReportExact | _bmad/bmb/bmad-agent-builder/scripts/prepass-execution-deps.py:74-88 | the report holds exactly the triples of a key, a dependency of it and another dependency of it from which the first can be reached |
| RedundancyOrder.ReportInOrder | _bmad/bmb/bmad-agent-builder/scripts/prepass-execution-deps.py:74-88 | the report names every pair of positions in a dependency list of which the one implies the other, each once, in the order of keys, implied dependency and other dependency |
| Redundancy.PruningKeepsExactly | _bmad/bmb/bmad-agent-builder/scripts/prepass-execution-deps.py:61-88 | on any graph, dropping all reported dependencies at once keeps reachability exactly if nodes on a cycle have one dependency and mutually dependent dependencies of a node have another one above them |
| Redundancy.PruningKeepsReachability | _bmad/bmb/bmad-agent-builder/scripts/prepass-execution-deps.py:61-88 | on an acyclic graph, dropping all reported dependencies at once leaves reachability as it is |
| Redundancy.KeptIsEssential | _bmad/bmb/bmad-agent-builder/scripts/prepass-execution-deps.py:61-88 | and a dependency that is kept is the only path from its node to it |
| Redundancy.MutualDependenciesAreLost | _bmad/bmb/bmad-agent-builder/scripts/prepass-execution-deps.py:61-88 | with a cycle between two dependencies both are reported and the node loses everything it reached |
| Redundancy.MutualDependenciesAreNotEntered | _bmad/bmb/bmad-agent-builder/scripts/prepass-execution-deps.py:61-88 | that pair fails the condition, so reachability is not kept |
| Redundancy.SelfLoopDropsExits | _bmad/bmb/bmad-agent-builder/scripts/prepass-execution-deps.py:61-88 | a self-loop drops every other dependency; one that does not lead back is lost for good |
| ParallelGroups.FindParallelGroups | _bmad/bmb/bmad-agent-builder/scripts/prepass-execution-deps.py:91-110 | the groups are the sorted listings of the longest-path levels, in order, without the levels of one node; left at the break are the nodes with a dependency path of as many edges as there are nodes |
| ParallelGroups.EmittedExactly | _bmad/bmb/bmad-agent-builder/scripts/prepass-execution-deps.py:95-110 | those levels are exactly the ones with two different nodes, each once, by rising depth |
| Sorting.LessExactly | _bmad/bmb/bmad-agent-builder/scripts/prepass-execution-deps.py:107 | the order of a listing: after a common beginning the one text ends, or goes on with the smaller character |
| ParallelGroups.RoundTakesLevel | _bmad/bmb/bmad-agent-builder/scripts/prepass-execution-deps.py:99-103 | the nodes that depend on nothing that remains are exactly the next level |
| ParallelGroups.DependenciesRunEarlier | _bmad/bmb/bmad-agent-builder/scripts/prepass-execution-deps.py:91-110 | a dependency of a scheduled node lies in a strictly earlier level |
| ParallelGroups.LevelsAreIndependent | _bmad/bmb/bmad-agent-builder/scripts/prepass-execution-deps.py:91-110 | no dependency path inside the nodes joins two members of a level |
| ParallelGroups.LevelsAreDisjoint | _bmad/bmb/bmad-agent-builder/scripts/prepass-execution-deps.py:91-110 | different levels share no node |
| ParallelGroups.LeftReachesCycle | _bmad/bmb/bmad-agent-builder/scripts/prepass-execution-deps.py:97-110 | the nodes left over are exactly those that can reach a cycle, and exactly those of no level |
| Presence.SweepSegments | packages/types/src/presence.ts:101-127 | the loop computes the fold of the sweep step over the segments, with the last stretch flushed |
| Presence.ComputeAttendance | packages/types/src/presence.ts:86-149 | returns the attendance that the rows below describe field by field, and nothing if no segment is usable |
| Presence.UsableExactly | packages/types/src/presence.ts:89-90 | exactly the segments with a join, and a leave unless still connected, are used, in their order and with their times |
| Presence.SortIsSorted | packages/types/src/presence.ts:89-91 | the sort orders by join time and permutes |
| Presence.SortIsStable | packages/types/src/presence.ts:91 | segments that join at one moment keep their order |
| PresenceMeaning.AttendanceMeaning | packages/types/src/presence.ts:86-149 | for any segments and tolerance: no result exactly without usable segments; join is the earliest join; a later leave than the one reported lies out of reach before a block, and it is the latest of all exactly if a segment with the latest leave has no block begin after it; reconnections and blocks add up to the segments; the class is that of the total; from minus a millisecond on the total is the rounded measure of presence |
| PresenceMeaning.WellFormedMeaning | packages/types/src/presence.ts:86-149 | if no segment leaves before it joins, the leave is the latest of all from a tolerance of minus a millisecond on, and reconnections and the moments at which a block begins add up to the segments from zero on |
| PresenceMeaning.TotalIsCoveredLessTolerance | packages/types/src/presence.ts:109-127 | for any segments and tolerance: from zero on the unrounded total is at least the measure of the union of all [join, leave + tolerance) less the tolerance once per block, and equal exactly without tolerance or if every block lasts, so if no segment leaves before it joins; below zero it is at least the measure of the union of all [join, leave), and equal exactly if no block that is not empty begins before an earlier segment leaves |
| PresenceOverlap.OverlapExactly | packages/types/src/presence.ts:109-127 | the negative half of that, for sorted segments: the total is at least the measure of the union, and equal exactly if no block that is not empty begins before an earlier segment leaves |
| PresenceMeasure.TotalIsMeasure | packages/types/src/presence.ts:109-127 | from a tolerance of minus a millisecond on, the sweep of sorted segments of any kind totals the measure of the moments between a join and a leave with no block beginning in between |
| PresenceBlocks.PresentIsConnected | packages/types/src/presence.ts:109-120 | for any tolerance, moments that one segment spans or that the tolerance connects are such moments, and there are no others if no segment leaves before it joins |
| PresenceBlocks.ReconnectionsExactly | packages/types/src/presence.ts:115-125 | for any segments and tolerance, reconnections are the segments that an earlier one reaches |
| PresenceMeaning.AbsentExactly | packages/types/src/presence.ts:129-140 | absent is exactly whose unrounded total is below half a second; from minus a millisecond on, who was present for less |
| PresenceMeaning.SecondsExactly | packages/types/src/presence.ts:129-133 | the seconds are the whole number nearest to the unrounded total and, from a tolerance of minus a millisecond on, to the measure of presence |
| PresenceMeaning.ClassExactly | packages/types/src/presence.ts:131-140 | absent exactly with 0 seconds; integral exactly with some, for a meeting with a duration, if they are at least the given share of it, by default 0.8; partial otherwise; the default tolerance is 120 s |
| PresenceOrder.OrderExactly | packages/types/src/presence.ts:86-149 | for any segments and tolerance, all orders of the input give one result exactly if no two segments that join when a block begins differ in reaching their join, and no two that join last as blocks of their own leave at different times |
| PresenceOrder.OrderIrrelevant | packages/types/src/presence.ts:89-91 | under that condition permuting the input does not change the result |
| PresenceOrder.OrderlySegments | packages/types/src/presence.ts:89-91 | the condition holds if no segment leaves before it joins, and if no two join at one moment |
| PresenceChange.RaisingToleranceNeverLowers | packages/types/src/presence.ts:95-140 | from a tolerance of minus a millisecond on, a longer one never lowers total, reconnections or class, for segments of any kind |
| PresenceChange.AddingSegmentNeverLowers | packages/types/src/presence.ts:86-149 | from a tolerance of minus a millisecond on, one more segment of any kind never lowers total, reconnections or class |
| PresenceChange.MeasureExactly | packages/types/src/presence.ts:109-127 | the total is the measure of presence for all segments exactly from a tolerance of minus a millisecond on |
| PresenceChange.RaisingExactly | packages/types/src/presence.ts:95-140 | a longer tolerance lowers nothing, for all inputs, exactly from a tolerance of minus a millisecond on |
| PresenceChange.AddingExactly | packages/types/src/presence.ts:86-149 | one more segment lowers nothing, for all inputs, exactly from a tolerance of minus a millisecond on |
| PresenceChange.NegativeToleranceCountsTwice | packages/types/src/presence.ts:115-125 | for instance, with minus ten seconds an overlap of five seconds counts twice, and without tolerance it does not |
| Reports.ComputeReportSummary | packages/types/src/meeting-report.ts:74-122 | attendees row by row, whole minutes to the nearest, the three totals, and the average of the row scores, absent without rows or duration |
| Reports.AttendeeExactly | packages/types/src/meeting-report.ts:78-85 | an attendee has the presence and focus of the row and its times to the nearest second, not below zero |
| Reports.RowScoreExactly | packages/types/src/meeting-report.ts:99-110 | the score is half the share of the meeting, a quarter of the share with camera of at least one second of presence, and a quarter of the focus, one half if unknown, each cut off at 0 and 1 |
| Reports.AverageExactly | packages/types/src/meeting-report.ts:97-112 | the average is the mean of the scores to the nearest hundredth |
| Reports.SumShifts | packages/types/src/meeting-report.ts:98-110 | changing one score changes their sum by as much |
| Reports.CountExactly | packages/types/src/meeting-report.ts:87-94 | a total is the number of attendees with that presence |
| Reports.TotalsAddUp | packages/types/src/meeting-report.ts:87-94 | the three totals account for every row |
| Reports.EngagementExactly | packages/types/src/meeting-report-fr63.ts:74-101 | the leader report shows the share to the nearest thousandth, high from 0.750 and medium from 0.500 on, and nothing for a meeting without length |
| Reports.AverageInUnit | packages/types/src/meeting-report.ts:96-112 | the rounded average lies in [0, 1] |
| Reports.IntegralIsHigh | packages/types/src/meeting-report-fr63.ts:74-101 | attendance classified integral with the default threshold is high engagement in the leader report |
| Reports.IntegralRowScore | packages/types/src/meeting-report.ts:99-110 | an integral row scores at least 0.4 |
| Reports.AllIntegralAverage | packages/types/src/meeting-report.ts:96-112 | a meeting of integral rows averages at least 0.40 after rounding, and all are counted present |
| Ordering.List | apps/api/src/content/content.repository.ts:183-190 | lists exactly the live rows, once each, by rising order |
| ContentEffects.ListingExactly | apps/api/src/content/content.repository.ts:183-190 | a listing holds exactly the rows of the parent without deletion time, each once, by rising order |
| Ordering.Reorder | apps/api/src/content/content.repository.ts:219-249 | succeeds exactly if the request is a permutation of the live ids, then numbers each row by its place and leaves the rest; the kind of rejection is determined |
| Ordering.ListingAfterReorder | apps/api/src/content/content.repository.ts:240-248 | after a reorder the only possible listing is the request |
| Ordering.DenseListing | apps/api/src/content/content.repository.ts:183-190 | with dense numbers position i lists the row numbered i |
| Ordering.AppendDense | apps/api/src/content/content.service.ts:106-124 | creation with the live count as number is dense exactly if the numbers were dense before |
| Ordering.CreatedIsListedLast | apps/api/src/content/content.service.ts:106-124 | with dense numbers a new module is listed last and the others keep their places |
| Ordering.ZeroDense | apps/api/src/content/content.service.ts:178-201 | with a lesson created with number 0 the numbers are dense exactly if the others count from 1; if they were dense, exactly if it is the first |
| Ordering.DeleteDense | apps/api/src/content/content.repository.ts:206-217 | deleting a row keeps the numbers dense exactly if it had the last number |
| ContentStore.ContentRepository.SoftDeleteTrail | apps/api/src/content/content.repository.ts:133-152 | a live trail goes with its live modules and their live lessons, at one time; otherwise nothing changes |
| ContentStore.ContentRepository.CreateModule | apps/api/src/content/content.repository.ts:156-175 | creates under a live trail only, as ModuleCreatedExactly says; otherwise nothing changes |
| ContentStore.ContentRepository.SoftDeleteModule | apps/api/src/content/content.repository.ts:206-217 | a live module of the trail goes with its live lessons; otherwise nothing changes |
| ContentStore.ContentRepository.CreateLesson | apps/api/src/content/content.repository.ts:253-273 | creates under a live module of the named trail only; otherwise nothing changes |
| ContentStore.ContentRepository.SoftDeleteLesson | apps/api/src/content/content.repository.ts:305-311 | deletes a live lesson of the module and nothing else |
| ContentStore.ContentRepository.DeleteLesson | apps/api/src/content/content.service.ts:243-246 | does what the repository does whatever trail is named, and agrees with a check of the trail exactly if the lesson is not found or its module is a live one of the trail |
| ContentStore.DeleteIgnoresTrail | apps/api/src/content/content.service.ts:243-246 | when not checking the trail makes a difference |
| ContentStore.ContentRepository.ReorderModules | apps/api/src/content/content.service.ts:153-174 | not found without a live trail, rejected and unchanged unless a permutation, else the list is the request |
| ContentStore.ContentRepository.ReorderLessons | apps/api/src/content/content.service.ts:248-270 | the same for the lessons of a live module of a live trail |
| ContentStore.TrailDeletionExact | apps/api/src/content/content.repository.ts:133-152 | deleting a trail changes exactly the live rows that hang under it, at any depth |
| ContentEffects.TrailCreatedExactly | apps/api/src/content/content.repository.ts:80-94 | a trail with a new id is added with its name and no deletion time, and nothing else changes |
| ContentEffects.TrailDeletedExactly | apps/api/src/content/content.repository.ts:133-152 | row by row: the trail, its modules that are not deleted and the lessons of those get one deletion time, all other rows and fields stay |
| ContentEffects.ModuleCreatedExactly | apps/api/src/content/content.service.ts:106-124 | one row is added, with its trail, name, no deletion time and the number of modules of the trail that are not deleted as order |
| ContentEffects.ModuleDeletedExactly | apps/api/src/content/content.repository.ts:206-217 | row by row: a module that is not deleted, of that trail, and its lessons get one deletion time |
| ContentEffects.LessonCreatedExactly | apps/api/src/content/content.service.ts:178-201 | one row is added, with its module, name, order 0 and no deletion time, if the module is not deleted and of that trail |
| ContentEffects.LessonDeletedExactly | apps/api/src/content/content.repository.ts:305-311 | row by row: only a lesson that is not deleted, of that module, gets a deletion time |
| ContentEffects.ModulesReorderedExactly | apps/api/src/content/content.repository.ts:219-249 | if the request names all modules of a trail that are not deleted once, each gets its place as order and keeps all else; otherwise nothing changes |
| ContentEffects.LessonsReorderedExactly | apps/api/src/content/content.service.ts:248-270 | the same for the lessons of a module that is not deleted and of that trail |
| ContentStore.RunKeepsHierarchy | apps/api/src/content/content.repository.ts:133-175 | in every run every live lesson sits under a live module and every live module under a live trail |
| ContentStore.RunRevivesNothing | apps/api/src/content/content.repository.ts:206-217 | in every run rows stay, keep their parent, and a deletion time once written stays |
| ContentStore.RunKeepsDense | apps/api/src/content/content.service.ts:106-174 | in every run without a deletion of one of its modules a trail's dense numbering stays dense |
| CsvExport.RoundTrip | apps/api/src/audit/audit-export.processor.ts:86-89 | reading the encoded text of any matrix of non-empty rows returns that matrix, whatever quotes, commas and line ends the cells hold |
| CsvExport.ExportRoundTrip | apps/api/src/audit/audit-export.processor.ts:64-89 | the exported file reads back as the header and one row per event |
| CsvExport.ExportByHeader | apps/api/src/audit/audit-export.processor.ts:64-85 | the file reads back as the twelve names and one line per event, in which the cell under each name is the value of that name, empty if absent |
| CsvExport.RowsAreJoined | apps/api/src/audit/audit-export.processor.ts:86-89 | the text is the mark and the lines with line feeds between them, a line its quoted cells with commas between them, quotes doubled |
| CsvExport.ExportDeterminesEvents | apps/api/src/audit/audit-export.processor.ts:70-89 | two exports are equal exactly if their events are, absent and empty values aside |
| AuthTokens.KeysNeverClash | apps/api/src/auth/email-verification.service.ts:18-20 | the four kinds of Redis key never share a text |
| AuthTokens.AuthServices.Register | apps/api/src/auth/register.service.ts:37-90 | does what RegisterEffect says |
| AuthTokens.NotStoredExactly | apps/api/src/auth/register.service.ts:37-90 | exactly when a registration leaves an identity without a user row; then no token is stored or issued, and the address is refused from then on |
| AuthTokens.AuthServices.Resend | apps/api/src/auth/email-verification.service.ts:113-132 | does what RequestEffect says for a verification |
| AuthTokens.AuthServices.RequestRecovery | apps/api/src/auth/password-recovery.service.ts:53-90 | does what RequestEffect says for a recovery |
| AuthTokens.AuthServices.Confirm | apps/api/src/auth/email-verification.service.ts:70-107 | does what ConfirmEffect says |
| AuthTokens.AuthServices.ResetPassword | apps/api/src/auth/password-recovery.service.ts:110-138 | does what ResetEffect says |
| TokenEffects.RegisterEffect | apps/api/src/auth/register.service.ts:37-90 | refuses a known identity and changes nothing; else adds an unverified identity with the password and, unless the platform knows the address, a pending user and a token for a day; every other user and key stays |
| TokenEffects.RequestEffect | apps/api/src/auth/email-verification.service.ts:113-132 | counts the request in its hour, whatever the answer; refuses more than three; sends a token, for a day or a quarter of an hour, to a known identity, for a verification only to one not verified; changes no user |
| TokenEffects.ConfirmEffect | apps/api/src/auth/email-verification.service.ts:70-107 | without a live token nothing changes; without its user the token is removed; else the identity is verified with its password, a pending status becomes active and any other stays, the token is spent, and no other user or key changes |
| TokenEffects.ResetEffect | apps/api/src/auth/password-recovery.service.ts:110-138 | without a live token or its user nothing changes; else that user has the new password, the token is spent, and no other user, status or key changes |
| TokenRuns.SuccessAtMostOnce | apps/api/src/auth/email-verification.service.ts:70-107 | in every run a token succeeds at most once, for either service |
| TokenRuns.SuccessIsTimely | apps/api/src/auth/password-recovery.service.ts:110-138 | in every run a token that succeeds does so for the address it was issued to, less than 24 hours before for a verification and less than 15 minutes before for a recovery |
| TokenRuns.RecoverySucceedsExactly | apps/api/src/auth/password-recovery.service.ts:110-138 | after every run a reset succeeds for an address exactly while the token was issued to it, is unused and in time, and its user exists |
| TokenRuns.ConfirmSucceedsExactly | apps/api/src/auth/email-verification.service.ts:70-107 | after every run a confirmation succeeds for an address exactly while the token was issued to it, is neither used nor burnt, and in time, and its user exists |
| UserRuns.ConfirmedIsLeftAlone | apps/api/src/auth/email-verification.service.ts:70-132 | in every run a confirmed address stays verified and not pending, and neither a request nor a registration sends a verification token to it, until the user is changed by other means |
| UserRuns.ConfirmedIsActive | apps/api/src/auth/email-verification.service.ts:70-107 | in every run a user who was pending is active from the confirmation on, a user of another status keeps that one, and one unknown to the platform stays unknown, until changed by other means |
| UserRuns.LatestResetHolds | apps/api/src/auth/password-recovery.service.ts:110-138 | in every run the password of an address is that of its latest successful reset, until the user is changed by other means |
| RateLimit.RunKeepsLimits | apps/api/src/auth/email-verification.service.ts:113-122 | in every run at most three tokens belong to a window, and windows of one address do not overlap |
| RateLimit.RequestsAreLimited | apps/api/src/auth/email-verification.service.ts:113-132 | in every run a stretch of time sees at most 3 * (whole hours + 1) tokens sent to an address on request by a service, and two more if it is not a whole number of hours; this is within 3 * (ceil(stretch / 1 h) + 1) |
| RateLimit.BoundIsAttained | apps/api/src/auth/password-recovery.service.ts:53-90 | for every length of time and either service some run sends that many |
| RateLimit.CounterIsRequests | apps/api/src/auth/password-recovery.service.ts:53-63 | in every run the stored counter is the number of requests of its window |
| RateLimit.AnswerExact | apps/api/src/auth/password-recovery.service.ts:53-90 | a request is refused exactly if its window is open and has seen three requests; otherwise the answer depends on the user alone |
| RateLimit.SparingIsServed | apps/api/src/auth/email-verification.service.ts:113-132 | an address that asked less than three times in the last hour is never refused |
| DocumentGroups.SuggestGroups | _bmad/core/bmad-distillator/scripts/analyze_sources.py:122-183 | the result of the pass as a function; exactly the file names occur; with distinct names each exactly once and no two groups share a key; two groups of one key are both lone files; a companion occurs once in any case; a group is one lone file, or at most one primary followed by companions of its key |
| DocumentGroups.PlaceFiles | _bmad/core/bmad-distillator/scripts/analyze_sources.py:131-168 | the pass equals its fold, file by file; every file is placed or set aside; the branch for a base already added is dead |
| DocumentGroups.AddCompanion | _bmad/core/bmad-distillator/scripts/analyze_sources.py:138-159 | places the companion in the group of its base, opening it with the free base file if need be |
| DocumentGroups.BaseExactly | _bmad/core/bmad-distillator/scripts/analyze_sources.py:135-141 | the base is that of the first pattern that matches, and there is none exactly if none matches |
| DocumentGroups.FileNamed | _bmad/core/bmad-distillator/scripts/analyze_sources.py:127 | of several files of one name the last listed stands for it |
| DocumentOrder.OrderExactly | _bmad/core/bmad-distillator/scripts/analyze_sources.py:122-183 | first the groups in the order in which their first companions are listed, each with its companions in the order of the files after at most one primary; then, in the order of the files, each that stands alone |
| DocumentPlacing.GroupingExactly | _bmad/core/bmad-distillator/scripts/analyze_sources.py:122-183 | how often any member, with path, name and role, stands in the result, from the input alone: a companion with the first listed path, a primary with the last, a lone file as often as it is listed |
| DocumentPlacing.FilesKeptExactly | _bmad/core/bmad-distillator/scripts/analyze_sources.py:122-183 | every file stands in the groups as often as it is listed exactly if every repeated name stands alone |
| DocumentPlacing.FilesOnceExactly | _bmad/core/bmad-distillator/scripts/analyze_sources.py:122-183 | for files listed once: each stands in the groups exactly once under the same condition |
| DocumentPlacing.LoneExactly | _bmad/core/bmad-distillator/scripts/analyze_sources.py:161-168 | a name stands alone exactly if no pattern matches it and nothing is placed as its companion |
| DocumentPlacing.LoneWithoutChains | _bmad/core/bmad-distillator/scripts/analyze_sources.py:161-168 | if no companion is a base: exactly if no pattern matches it and no file has it as base |
| DocumentPlacing.CompanionLands | _bmad/core/bmad-distillator/scripts/analyze_sources.py:131-159 | a file that a pattern matches is a companion in the group of its base exactly if no companion of it comes earlier that is placed as one, and otherwise the primary of its own group; it is nothing else |
| DocumentPlacing.BaseLands | _bmad/core/bmad-distillator/scripts/analyze_sources.py:142-151 | a base that is no companion is the primary of its group exactly if something is placed as its companion |
| DocumentPlacing.CompanionJoinsBase | _bmad/core/bmad-distillator/scripts/analyze_sources.py:122-183 | a file placed as a companion sits in the group of its base, headed by the base file if that is there and no companion itself |
| DocumentPlacing.RepeatedBaseIsLost | _bmad/core/bmad-distillator/scripts/analyze_sources.py:126-151 | of two files of one name with a companion, the first is in no group |
| DocumentPlacing.RepeatedStandsTwice | _bmad/core/bmad-distillator/scripts/analyze_sources.py:161-181 | two files of a name without a pattern stand alone twice |
| DocumentPlacing.OrderDecidesChain | _bmad/core/bmad-distillator/scripts/analyze_sources.py:131-159 | in a chain the middle file is a companion or a primary by the order of the files |
| ContrastTokens.ResolvedIsReachable | scripts/check-contrast.ts:73-126 | a returned colour ends a walk along references within the depth, and every other such walk parts from it by going to a fallback where it goes to the token |
| ContrastTokens.ResolvesExactly | scripts/check-contrast.ts:73-126 | a colour is found exactly if some colour can be reached within the depth |
| ContrastTokens.TokenExactly | scripts/check-contrast.ts:73-126 | a token has a colour exactly if a walk from its value ends in it that costs nine at most, two for each token and one for each other hop, and every other such walk parts from it by going to a fallback where it goes to the token |
| ContrastTokens.ChainFromToken | scripts/check-contrast.ts:73-126 | a chain of v var hops and o relative-colour hops without fallback resolves exactly if 2v + o <= 9 |
| ContrastTokens.NoColourNoResult | scripts/check-contrast.ts:73-126 | without a reachable colour, as in a pure cycle, nothing is returned |
| ConfigMerge.MergeConfig | _bmad/bmb/bmad-bmb-setup/scripts/merge-config.py:224-295 | stops without a code, or if a template that is needed is no text; else returns the merge that RootExactly, SectionAnswers and SectionMetadata give key by key |
| ConfigMerge.RootExactly | _bmad/bmb/bmad-bmb-setup/scripts/merge-config.py:248-269 | key by key: no user_name or communication_language, else the core answer, else the entry of a core section, which is gone itself, else what was there |
| ConfigMerge.SectionAnswers | _bmad/bmb/bmad-bmb-setup/scripts/merge-config.py:281-293 | an answered key holds the answer or, if its variable has a template and the answer does not name {project-root}, the text of the template with the answer filled in |
| ConfigMerge.SectionMetadata | _bmad/bmb/bmad-bmb-setup/scripts/merge-config.py:182-191 | an unanswered name, description or default_selected holds what module.yaml says, if it does; version holds module_version or null; there is no other key |
| ConfigMerge.StopsExactly | _bmad/bmb/bmad-bmb-setup/scripts/merge-config.py:206-213 | it stops at exactly an answer whose variable has a template it needs that is no text |
| ConfigMerge.AnswersWin | _bmad/bmb/bmad-bmb-setup/scripts/merge-config.py:141-161 | answers go before values of an older installation, which fill in the rest |
| ConfigMerge.ApplyResultTemplates | _bmad/bmb/bmad-bmb-setup/scripts/merge-config.py:194-221 | every answer, printed as text, is filled into the template of its variable unless it names the project root; stops at a template that is no text |
| ConfigMerge.TextAnswer | _bmad/bmb/bmad-bmb-setup/scripts/merge-config.py:206-214 | for a text answer this is the template applied once |
| ConfigMerge.MergeTwice | _bmad/bmb/bmad-bmb-setup/scripts/merge-config.py:224-295 | for every code and all answers, merging twice equals merging once exactly if the core section left behind, if any, brings nothing new to the root |
| ConfigMerge.MergeFrame | _bmad/bmb/bmad-bmb-setup/scripts/merge-config.py:224-295 | a key outside answers, migrated core, user keys and the module's own keeps its value or absence |
| ConfigMerge.UserKeysDropped | _bmad/bmb/bmad-bmb-setup/scripts/merge-config.py:254-269 | no user-only key is left at the root |
| ConfigMerge.SectionReplaced | _bmad/bmb/bmad-bmb-setup/scripts/merge-config.py:271-293 | no trace of the module's earlier section is left |
| ConfigMerge.LegacyCoreStays | _bmad/bmb/bmad-bmb-setup/scripts/merge-config.py:141-161 | a core default of an older installation survives a later merge without it, the module section holds the answers alone |
| ResultTemplates.RootedTemplateOnce | _bmad/bmb/bmad-bmb-setup/scripts/merge-config.py:194-221 | a template that names the project root is never applied on top of itself |
| ResultTemplates.FillExactly | _bmad/bmb/bmad-bmb-setup/scripts/merge-config.py:212-213 | the filled template is its parts between the places {value}, with the answer in those places |
| ResultTemplates.ContainsExactly | _bmad/bmb/bmad-bmb-setup/scripts/merge-config.py:210 | a text names another exactly if that stands at some place of it |
| ResultTemplates.ApplyTwice | _bmad/bmb/bmad-bmb-setup/scripts/merge-config.py:194-221 | exactly when applying a template to its own result changes nothing |
| HelpMerge.ExtractModuleCodes | _bmad/bmb/bmad-bmb-setup/scripts/merge-help-csv.py:95-101 | the non-empty codes of the rows, without the white space around them, and no others |
| HelpMerge.Merge | _bmad/bmb/bmad-bmb-setup/scripts/merge-help-csv.py:145-185 | stops exactly if no source row is coded; else the rows that carry no source code, in order, then the source, in whatever order codes are removed; and the number removed |
| HelpMerge.MergedExactly | _bmad/bmb/bmad-bmb-setup/scripts/merge-help-csv.py:165-185 | a row of the table stays, in its order, exactly if no source row has its code; the source rows follow as they are |
| HelpMerge.CodesExactly | _bmad/bmb/bmad-bmb-setup/scripts/merge-help-csv.py:95-101 | a code is among those of the rows exactly if some row has it in its first cell, trimmed and not empty |
| HelpMerge.StripExactly | _bmad/bmb/bmad-bmb-setup/scripts/merge-help-csv.py:99-100 | a stripped text is the text without white space at its ends, and nothing inside is touched |
| HelpMerge.SpaceExactly | _bmad/bmb/bmad-bmb-setup/scripts/merge-help-csv.py:99-100 | the white space of Python, code point by code point |
| HelpMerge.OthersStay | _bmad/bmb/bmad-bmb-setup/scripts/merge-help-csv.py:173-185 | rows of other modules stay as they were, in order |
| HelpMerge.NoZombies | _bmad/bmb/bmad-bmb-setup/scripts/merge-help-csv.py:173-185 | of a merged module exactly the source rows remain |
| HelpMerge.MergeTwice | _bmad/bmb/bmad-bmb-setup/scripts/merge-help-csv.py:173-185 | merging twice equals merging once exactly if every source row is coded |
| ConsentHistory.IndexAcceptances | apps/api/src/consent/consent.service.ts:85-92 | the index holds, per document, the first row among those with the latest time |
| ConsentHistory.IndexWithdrawals | apps/api/src/consent/consent.service.ts:94-101 | the index holds, per type, the latest withdrawal |
| ConsentHistory.GetHistory | apps/api/src/consent/consent.service.ts:79-135 | three items, for terms, privacy policy and focus monitoring in this order, each as ItemExactly says |
| ConsentHistory.ItemExactly | apps/api/src/consent/consent.service.ts:34-131 | terms and privacy policy are mandatory and show the first of the latest acceptances of their own document; focus monitoring is not and shows none; withdrawal is the latest of the type; withdrawn exactly if that is later than the acceptance or there is none, pending exactly with neither |
| ConsentHistory.HistoryIsReplay | apps/api/src/consent/consent.service.ts:103-131 | the status is that of replaying the events in time order, acceptance last among equals |
| ConsentHistory.LogExists | apps/api/src/consent/consent.service.ts:79-135 | every pair of tables has such a log |
| ConsentHistory.RowOrderIrrelevant | apps/api/src/consent/consent.service.ts:85-131 | status and times do not depend on the order of the rows |
| ConsentHistory.VersionOrderExactly | apps/api/src/consent/consent.service.ts:85-92 | the version shown is the same for every order of the rows exactly if the acceptances at the latest time carry one version |
| ConsentHistory.VersionDependsOnOrder | apps/api/src/consent/consent.service.ts:85-92 | for instance not for two acceptances at one time with different versions: the first read is shown |
| ConsentHistory.ConsentService.WithdrawConsent | apps/api/src/consent/consent.service.ts:143-175 | records exactly a withdrawal of focus monitoring, as one row at the end; changes nothing else |
| ConsentHistory.ConsentService.Accept | apps/api/src/consent/consent.service.ts:177-215 | appends one row with document, version and time as given, and changes no withdrawal |
| ConsentHistory.MandatoryNeverWithdrawn | apps/api/src/consent/consent.service.ts:143-215 | in every run a mandatory type is never shown withdrawn, and once accepted stays accepted |
| Memberships.AdminUsers.UpdateRole | apps/api/src/admin-users/admin-users.service.ts:41-73 | not found; refused exactly to the only administrator giving up the role themself; else that user has the role, and nobody else changes |
| Memberships.AdminUsers.RemoveFromTenant | apps/api/src/admin-users/admin-users.service.ts:75-92 | not found; refused exactly to the only administrator acting on themself; else that row goes, and no other |
| Memberships.SoleAdminExactly | apps/api/src/admin-users/admin-users.service.ts:47-64 | counting at most one administrator means that the user who is one is the only one |
| Memberships.LastAdminLost | apps/api/src/admin-users/admin-users.service.ts:41-92 | a tenant loses its last administrator exactly when somebody else takes the role from the only one |
| Memberships.AdminRemains | apps/api/src/admin-users/admin-users.service.ts:41-92 | in every run whose actors are administrators at the time an administrator remains |
| Memberships.GroupMembers.AddMember | apps/api/src/group-members/group-members.service.ts:69-101 | does what AddExactly says |
| Memberships.GroupMembers.ChangeRole | apps/api/src/group-members/group-members.service.ts:103-124 | does what ChangeRoleExactly says |
| Memberships.GroupMembers.RemoveMember | apps/api/src/group-members/group-members.service.ts:126-134 | does what RemoveExactly says |
| Memberships.AddExactly | apps/api/src/group-members/group-members.service.ts:69-101 | which of the checks refuses, in order; accepted exactly if the group and the user exist, the user is no member, the group has room, and for a leader the tenant has; then the row has the role given, and no other row changes |
| Memberships.ChangeRoleExactly | apps/api/src/group-members/group-members.service.ts:103-124 | refused by the limit exactly when a participant becomes a leader while the leaders are at theirs; else the row has the role given |
| Memberships.RemoveExactly | apps/api/src/group-members/group-members.service.ts:126-134 | removes exactly the row of the user in the group, if both are found |
| Memberships.StepKeepsMemberLimit | apps/api/src/group-members/group-members.service.ts:69-173 | no request grows a group's member count past the limit |
| Memberships.StepKeepsLeaderLimit | apps/api/src/group-members/group-members.service.ts:69-173 | no request grows the tenant's leader count past the limit |
| Memberships.LimitsHold | apps/api/src/group-members/group-members.service.ts:69-173 | in every run counts within fixed limits stay within them |

## Left out

- Redis, Keycloak, the database, queues, object storage and HTTP are maps and tables with atomic steps; INCR with its first EXPIRE is one step; fresh ids and tokens are unique because the caller supplies them.
- Two requests at once: counting and then acting is not locked in the last-administrator guard, the plan limits, the module number and the token redemption, so those results are about requests one after another.
- Floating-point rounding: seconds, ratios and scores are exact reals, so NaN does not occur.
- Date strings are integers or blank; the sort of join times as texts is taken to agree with their order in time.
- PresenceMeasure.TotalIsMeasure: from a tolerance of minus a millisecond on; below, it is false, by PresenceChange.MeasureExactly, and PresenceMeaning.TotalIsCoveredLessTolerance takes its place.
- PresenceChange.RaisingToleranceNeverLowers: from a tolerance of minus a millisecond on, by PresenceChange.RaisingExactly.
- PresenceChange.AddingSegmentNeverLowers: from a tolerance of minus a millisecond on, by PresenceChange.AddingExactly.
- Regular expressions: a naming pattern is a function to a shorter base name, and a CSS value is a datatype of the shapes that the resolver tells apart.
- DocumentGroups.SuggestGroups: the type of a document and its heading are not read.
- Python's recursion limit in the depth-first searches.
- ConfigMerge.MergeConfig: how str() prints a mapping is a parameter; reading, writing and deleting files is left out, and so is the separate file of user settings.
- HelpMerge.Merge: reading and writing the CSV files and the choice of the header.
- Listing pages, updating names, access modes, content bodies and signed addresses of trails, modules and lessons; row-level security, so the store is that of one tenant.
- ContentStore.ContentRepository.ReorderLessons: the answer is one of the listings by order, which after a reorder is the request.
- AuthTokens.AuthServices.Register: the check for leaked passwords, which refuses before anything is stored, and the consent row.
- AuthTokens.AuthServices.ResetPassword: the login and the session that follow a reset; the delay for unknown users when a recovery is requested.
- The names and addresses in the e-mails, and masking.
- ConsentHistory.GetHistory: the pending-documents status endpoint only reads and is left out, as are ids and request metadata.
- The contrast ratio itself, suggestions of other colours and the command line.
- Encoding of lone surrogates when the CSV text is written as UTF-8.
- Controllers, schemas, user interface, seed data, report generators and linters: wiring or fixed data without a property of their own.
