# Infra-hub: a verified model of its core algorithms and protocols

This Dafny project models the parts of Infra-hub that are algorithms or protocols rather than Django
plumbing, and proves what each of them is for. `dafny verify dfyconfig.toml` checks all of it.

| file | models |
|---|---|
| `Debounce.dfy` | delayed calls that merge their arguments (`apps/common/decorators.py`) |
| `Batches.dfy`, `BackgroundJobs.dfy`, `FanIn.dfy` | cutting an import into batches, the shared result list, and all interleavings of the workers (`apps/common/core/modelset.py`, `apps/common/tasks.py`, `apps/common/cache/redis.py`) |
| `QueryObjects.dfy`, `PermissionFilter.dfy` | data permissions compiled to a query condition (`apps/common/core/filter.py`) |
| `PermissionReading.dfy` | the documented reading of data permissions, rule by rule, against the compiled one |
| `Departments.dfy` | the department closure and the guard on its parent links (`apps/system/models/department.py`, `apps/system/serializers/department.py`) |
| `Inventory.dfy` | reconciling a vSphere inventory with the database (`apps/virt_center/tasks.py`, `apps/virt_center/utils/sync_data.py`) |
| `InventoryRuns.dfy` | when such a run fails nowhere, once, repeated, or in the end |
| `TopologicalSort.dfy` | ordering import rows by their parents (`apps/common/core/utils.py`) |
| `MenuTree.dfy` | linking menu records into a forest in place (`apps/common/base/utils.py`) |
| `ParentLinks.dfy`, `Lists.dfy`, `Wrappers.dfy` | the theory of parent links, duplicate-free lists, Option and Result |

State that the source updates in place is a class (`DebounceCaches`, `CacheList`, `DeptStore`,
`DeptList`, `MenuNode`, `InventoryTable`); its methods are tied to functions on the state, and the
lemmas are about those functions and about whole runs of them.

## Assumptions

- One delay call, the start of a call, and the three cache removals at the end of a call are single
  steps. `Debounce.SplitRemovalLoses` shows that the last of these is needed: with a delay call
  between the removals an argument can be lost.
- The latency bound is for runs whose clock does not go back and in which a sleeping call is started at
  most `slack` after it is due, for any `slack`. The other debounce results assume nothing about the clock.
- Every list command of a background worker is a step of its own; only failing a check and leaving the
  locked section are one step. The lock is not lost before it is released, the list does not expire,
  and a worker that takes part reaches its push.
- A query condition is Django's tree with its squashing combination; a row is the set of elementary
  conditions it meets, and no row has id 0. So `&` is taken row by row; of two conditions on one
  many-to-many field in a single `filter()` call, Django asks that one related row meets both.
- The conditions that a rule resolves to are data and may be anything, also the empty condition (from a
  wildcard value) and its negation (from a rule that excludes a wildcard). A blank condition inside a
  larger one does not arise, since combining drops it.
- One department request, and one upsert of an inventory item, is one step. Table rows are listed in
  a fixed order; the inventory columns that a synchronisation does not write are not shown.

## Where the code departs from what it promises

- Calls submitted within ttl of each other are not always merged into one. A call escapes the next delay
  call when a call of its key ends between them (`Debounce.EndSplitsBurst`), and when it was itself
  submitted at once, being too late after the first one (`SubmittedAtOnceIsSplit`). `EscapesIff` says that
  it escapes in no other way, and `BurstRunsOnce` what holds without either.
- A delay call that raises can still have its values delivered (`Debounce.RefusedIsDelivered`);
  `RefusedIsDeliveredIff` says exactly which.
- Data permissions are documented rule by rule, but compiled from the pooled conditions of all rules of a
  permission. A rule that asks for all of several related ids shows a row that has any of them
  (`PermissionReading.AllOfIsAnyOf`), a rule that resolves to no condition shows every row alone and
  nothing next to another rule (`RuleWithoutConditionIsDropped`), and a rule that excludes every value
  shows every row (`ExcludingAllShowsAll`). `CompiledAsReadIff` says, for plain tests,
  exactly which permissions are compiled as documented, and `CompiledAsRead` that these always are; among
  them are those with one testing condition for each rule (`OneTestPerRuleAsRead`).
- Between permissions, too, what tests nothing drops out next to what does: a wildcard permission of a
  user without a department (`WildcardIsDropped`), and a department that excludes every value
  (`DepartmentDropsOut`). `ListAsReadOnAllRowsIff`, `PermissionFilter.SeesEitherPartIff` and `MonotoneIff`
  say exactly when, and when one more personal permission can hide a row.
- With more than 1024 batches, or with none, a background job can end without any report
  (`FanIn.ExactlyOnceIff`, `Batches.ReportedIff`): the list is pushed at the front and trimmed at the
  front, so it drops the newest results.
- A row of the virtual machine table that is itself marked as a template is not deactivated
  (`Inventory.FlaggedRowStaysActive`, `Inventory.KindsAreSeparated`); runs never create one
  (`Inventory.RunsSetNoFlags`).
- Two hosts that exchange their names are never synchronised again
  (`InventoryRuns.ExchangedNamesNeverSync`). `CleanIff` says exactly when a run fails nowhere, and
  `EventuallyCleanIff` when repeated runs get there: exactly if no renames wait for each other in a cycle.
- A uuid listed twice can make a clean run fail when it is repeated
  (`InventoryRuns.RepeatedUuidIsNotFinal`; `RerunCleanIff` says exactly when).
- A department cannot be updated by a user, whatever parent is sent, exactly if it is the only one without
  a parent and the user belongs to a department (`Departments.OnlyRootIsFrozen`);
  `Departments.OneDepartmentIsFrozen` is an organisation where this is so.

## Model

| member | source | states |
|---|---|---|
| Debounce.CancelIsFinal | apps/common/decorators.py:77-84 | after the cancellation the cached call never starts, whatever follows, unless it has started before, and then it goes on; all other calls are as they were |
| Debounce.DebounceCaches.RunDebouncerFunc | apps/common/decorators.py:87-112 | one call is scheduled: after ttl in the caches, or at once when the first call is more than ttl ago, and then arguments and first time are dropped |
| Debounce.DebounceCaches.MergeKwargs | apps/common/decorators.py:201-210 | merging stops at the first value that is no collection, and what was merged into a cached dictionary stays |
| Debounce.DebounceCaches.DelayCall | apps/common/decorators.py:194-212 | the whole new state of a delay call; it fails exactly if some argument is no collection |
| Debounce.RunsAtMostOnce | apps/common/decorators.py:125-130 | in every run each scheduled call is started at most once |
| Debounce.NotBeforeDue | apps/common/decorators.py:125-130 | in every run a call that no longer waits was started by an event at or after its due time, when it was waiting and not cancelled |
| Debounce.EndForgets | apps/common/decorators.py:155-157 | after the end of a call the next burst of its key carries its own arguments only |
| Debounce.MergedExactly | apps/common/decorators.py:203-210 | merged arguments are the cached ones and the new ones, and nothing else |
| Debounce.RefusedFrom | apps/common/decorators.py:203-210 | from the first refused value on nothing more is merged, whatever follows it |
| Debounce.AcceptedIffCollections | apps/common/decorators.py:204-205 | a delay call raises exactly if some value is not a tuple, list or set |
| Debounce.DelayTouches | apps/common/decorators.py:77-112 | a delay call cancels at most the cached call of its key and leaves every other scheduled call as it is |
| Debounce.DelayCaches | apps/common/decorators.py:87-112 | what an accepted delay call leaves in the three caches and when the new call is due, asleep or submitted at once |
| Debounce.DelayLeaves | apps/common/decorators.py:194-212 | the cache entries of other keys are independent of a delay call |
| Debounce.NextKeepsMerged | apps/common/decorators.py:194-212 | every step keeps the invariant that all arguments of a sleeping cached call are among the merged arguments |
| Debounce.NextKeepsCover | apps/common/decorators.py:87-112 | a covered argument stays covered, by the same call or by the one that replaces it |
| Debounce.NoArgumentLost | apps/common/decorators.py:186-212 | in every run, every value submitted is carried by a call scheduled since then that has run, is running or will run |
| Debounce.AllDeliveredWhenQuiet | apps/common/decorators.py:141-157 | when nothing sleeps or runs any more, every submission was part of a call that ran after it |
| Debounce.BoundedLatency | apps/common/decorators.py:91-133 | if calls start at most slack after they are due, what is submitted at t is carried by a call due in t to t + 2 * maxTtl + slack, however often it is rescheduled |
| Debounce.StartedInTime | apps/common/decorators.py:91-133 | once the clock has passed t + 2 * maxTtl + 2 * slack, a call carrying it has been started |
| Debounce.BurstRunsOnce | apps/common/decorators.py:186-192 | from any state, among any other events: delay calls within ttl of the first one, with no end of a call of the key, leave of the calls since then and the one cached before only the last to run, with exactly the cached and the submitted arguments; older calls that are not cached are left as they are |
| Debounce.CachedUntilEnd | apps/common/decorators.py:155-157 | a sleeping call stays cached until a call of its key ends, and is never cached again after that |
| Debounce.EscapesIff | apps/common/decorators.py:77-106 | a call that still waits survives a later accepted delay call on its key if and only if it was submitted at once or a call of the key ended in between |
| Debounce.EndSplitsBurst | apps/common/decorators.py:155-157 | a timely run in which two calls of one key, submitted at the same time, are both left to run |
| Debounce.SubmittedAtOnceIsSplit | apps/common/decorators.py:97-106 | a timely run without any start or end in which two calls of one key, submitted at the same time, are both left to run |
| Debounce.NothingInvented | apps/common/decorators.py:186-212 | in every run a call carries only what was passed to a delay call on its key |
| Debounce.MergedIff | apps/common/decorators.py:203-210 | accepted or not, merged are the cached arguments and those that no refused one precedes |
| Debounce.RefusedIsDeliveredIff | apps/common/decorators.py:201-210 | a value passed to a delay call that raises is carried by the last call of the next burst exactly if the key was cached and no refused argument precedes the value, or if it is cached or passed anyway |
| Debounce.RefusedIsDelivered | apps/common/decorators.py:201-210 | such a value, passed to no other delay call |
| Debounce.DroppedForGood | apps/common/decorators.py:83-84 | a call cancelled before it started never runs, whatever follows |
| Debounce.SplitRemovalLoses | apps/common/decorators.py:155-157 | with a delay call between the first two removals, an argument is lost |
| Batches.RunViewByCeleryTask | apps/common/core/modelset.py:78-97 | the batches concatenate to the data, all but the last are full, none is empty, indices are 0..k-1, and the announced count is k |
| Batches.TaskIdsShareList | apps/common/core/modelset.py:91-92 | task identifiers of one job are distinct and name the same list |
| Batches.DecimalRoundTrip | apps/common/core/modelset.py:91 | the index can be read back from its decimal form |
| Batches.DecimalIsShortest | apps/common/core/modelset.py:91 | the decimal form has no leading zero |
| Batches.ReportedIff | apps/common/tasks.py:152-189 | from dispatch to report: every interleaving that ends publishes exactly one complete report, successful exactly if no batch failed, if and only if the data are not empty and fit into 1024 batches |
| BackgroundJobs.CacheList.AutoLTrim | apps/common/cache/redis.py:53-57 | a list of at most 1024 elements is left alone; of a longer one exactly the last 1024 stay, so the newest are dropped |
| BackgroundJobs.StaleTrimKeepsOneMore | apps/common/cache/redis.py:53-57 | a trim by a length that others have outgrown leaves 1025 elements |
| BackgroundJobs.CacheList.Push | apps/common/cache/redis.py:59-63 | the list after a push that nothing interrupts |
| BackgroundJobs.PushedAlone | apps/common/cache/redis.py:53-63 | an undisturbed push puts the result in front while the list is not full; once it holds 1024, the pushed result is the one that is lost |
| BackgroundJobs.BackgroundTaskViewSetJob | apps/common/tasks.py:172-189 | an undisturbed job reports and empties the list exactly if its push made the count |
| BackgroundJobs.SortIsSorted | apps/common/tasks.py:183 | sorting by index is ascending and keeps the elements |
| BackgroundJobs.SortIsStable | apps/common/tasks.py:183 | any results, also with equal indices, are sorted without descent and stably |
| BackgroundJobs.ReportIsComplete | apps/common/tasks.py:175-184 | whatever the arrival order, the report has each batch once, by index, and is successful exactly if no batch failed |
| FanIn.StepKeepsSafe | apps/common/tasks.py:172-176 | each step of each worker keeps mutual exclusion, a duplicate-free list, and an empty list once it was taken |
| FanIn.CompleteOnlyAfterAllPushes | apps/common/tasks.py:174-176 | no worker finds the list complete before all have pushed |
| FanIn.AtMostOneReport | apps/common/tasks.py:173-189 | for any number of batches and any interleaving, no two workers publish |
| FanIn.StepIsLossless | apps/common/cache/redis.py:53-57 | up to 1024 batches no result is trimmed away, and until one worker takes the list some worker still has to look |
| FanIn.SmallJobsReport | apps/common/tasks.py:172-189 | for 1 to 1024 batches, every interleaving in which all workers end publishes exactly one report, the complete one |
| FanIn.StepLowersWork | apps/common/tasks.py:172-189 | every step that changes anything brings the job closer to its end |
| FanIn.SomeStepChanges | apps/common/tasks.py:172-189 | no deadlock: in every safe state with a worker left, some worker can take a step |
| FanIn.FairSchedulesEnd | apps/common/tasks.py:172-189 | every schedule that gives each worker nine turns for every batch ends with all workers done, and a job that fits has then reported |
| FanIn.RunAlone | apps/common/tasks.py:172-189 | nine steps of one worker alone are the undisturbed job |
| FanIn.OneByOneNeverReports | apps/common/cache/redis.py:53-57 | with more than 1024 batches, workers one after the other all end silently |
| FanIn.ExactlyOnceIff | apps/common/tasks.py:172-189 | every complete interleaving publishes exactly one complete report if and only if there are 1 to 1024 batches |
| QueryObjects.CombineMeans | apps/common/core/filter.py:122-139 | combining non-empty conditions is conjunction or disjunction of what they accept; an empty one is dropped |
| QueryObjects.NegationMeans | apps/common/core/db/utils.py:104-105 | negating a condition that tests something accepts exactly the other rows |
| PermissionFilter.SelectRules | apps/common/core/filter.py:34-48 | one rule makes a permission OR; a rule for all rows stands alone in OR mode and is ignored in AND mode; nothing is left exactly if the permission does not apply |
| PermissionReading.OneRuleEitherMode | apps/common/core/filter.py:36-37 | a permission with exactly one rule compiles to the same in both modes |
| PermissionReading.OneRuleForAllRows | apps/common/core/filter.py:36-43 | a rule for all rows alone shows everything in either mode, except in an AND department |
| PermissionReading.OrKeepsRuleForAllRows | apps/common/core/filter.py:40-45 | an OR permission with a rule for all rows shows everything, whatever its other rules say, except in an AND department |
| PermissionReading.AndIgnoresRulesForAllRows | apps/common/core/filter.py:40-46 | an AND permission with several rules asks for all conditions of those that are not for all rows |
| PermissionFilter.JoinConditions | apps/common/core/filter.py:116-128 | in any order of iteration: in AND mode a row is accepted if all conditions accept it, in OR mode if one of those that test something does; blank exactly if nothing is tested, and when it is recognised as empty |
| PermissionFilter.JoinPermissions | apps/common/core/filter.py:130-145 | the same for several permissions, for each department mode; in AND mode nothing left means denied |
| PermissionFilter.GetFilterQBase | apps/common/core/filter.py:32-147 | for every list of permissions: which rows the compiled condition accepts, when it tests nothing, and when it is recognised as empty, in terms of the permissions |
| PermissionReading.CompiledAsRead | apps/common/core/filter.py:116-128 | a permission whose conditions may be pooled grants a row exactly if some rule (in AND mode: every rule) has all its conditions met |
| PermissionReading.CompiledAsReadIff | apps/common/core/filter.py:116-128 | for plain tests, that is exactly when the compiled permission and its rules agree on all rows |
| PermissionReading.ListAsReadIff | apps/common/core/filter.py:154-162 | row by row, exactly when the compiled list agrees with the documented reading of such permissions |
| PermissionReading.ListAsReadOnAllRowsIff | apps/common/core/filter.py:130-145 | for plain tests, agreement on all rows if and only if no permission that tests nothing drops out |
| PermissionReading.OneTestPerRuleAsRead | apps/common/core/filter.py:154-162 | with one testing condition for each rule, the documented reading holds for every list, department mode and row |
| PermissionReading.FilterAsDocumented | apps/common/core/filter.py:163-202 | and so is the whole filter: what all active departments on the chain show, read by the mode of the user's own department, and what the personal permissions show |
| PermissionReading.WildcardIsDropped | apps/common/core/filter.py:131-133 | a wildcard permission shows every row alone and nothing next to a test |
| PermissionReading.AllOfIsAnyOf | apps/common/core/db/utils.py:87-90 | a rule that asks for two related ids shows a row that has one of them |
| PermissionReading.RuleWithoutConditionIsDropped | apps/common/core/db/utils.py:63-64 | a rule without field or value shows every row alone and nothing next to another rule of its permission |
| PermissionReading.ExcludingAllShowsAll | apps/common/core/db/utils.py:99-105 | a rule that excludes every value shows every row |
| PermissionFilter.ActiveAncestors | apps/common/core/filter.py:176-177 | exactly the active departments on the user's parent chain |
| PermissionFilter.AndDepartments | apps/common/core/filter.py:171-182 | the conjunction over the departments; what is recognised as empty depends on the last one listed |
| PermissionFilter.GetFilterQueryset | apps/common/core/filter.py:163-202 | exactly which rows a user sees, for every hierarchy, every grant and any order of the departments |
| PermissionFilter.SeesEitherPartIff | apps/common/core/filter.py:185-201 | row by row, exactly when that is what all active ancestor departments show together with what the personal permissions show |
| PermissionFilter.SeesEitherPart | apps/common/core/filter.py:171-201 | it always is where no rule excludes a wildcard |
| PermissionReading.DepartmentDropsOut | apps/common/core/filter.py:197-200 | a department that excludes every value shows every row until its member gets a personal test |
| PermissionFilter.PersonalGrantsMonotone | apps/common/core/filter.py:187-202 | outside AND departments more personal permissions hide no row, unless they take a blank part away |
| PermissionFilter.MonotoneIff | apps/common/core/filter.py:187-202 | for plain tests, that exception is exact |
| Departments.Collect | apps/system/models/department.py:52-56 | one recursion adds to the shared list exactly what is reached from its department, and ends |
| Departments.RecursionDeptInfo | apps/system/models/department.py:43-57 | the department with exactly all its descendants, or exactly all its ancestors |
| Departments.DownAndUp | apps/system/models/department.py:45-47 | d is in the descendants of a exactly if a is in the ancestors of d |
| Departments.ApplyKeepsValid | apps/system/serializers/department.py:67-82 | every accepted request keeps foreign keys and acyclicity |
| Departments.AcceptedIff | apps/system/serializers/department.py:67-82 | exactly when each request is accepted, in terms of the table and the request |
| Departments.StoresParent | apps/system/serializers/department.py:73-76 | what an accepted request stores: the parent that is named, else the stored one of an update that sends none, else the user's department; all other rows and columns are kept |
| Departments.GuardIsExact | apps/system/serializers/department.py:78-82 | an update is refused exactly if it would close a cycle, also for the parent that is filled in from the user's department |
| Departments.RunsStayForest | apps/system/serializers/department.py:67-82 | no sequence of create, update, delete and user moves makes a department its own ancestor |
| Departments.DeptStore.Serve | apps/system/serializers/department.py:67-82 | the effect of one request on the stored table, or its error and no effect |
| Departments.NoNewRoots | apps/system/serializers/department.py:73-76 | in every sequence of requests, users who belong to a department leave no department without a parent that had one or is new |
| Departments.OnlyRootIsFrozen | apps/system/serializers/department.py:67-82 | no update of a department by a user is accepted if and only if it is the only one without a parent and the user belongs to a department |
| Departments.OneDepartmentIsFrozen | apps/system/serializers/department.py:67-82 | an organisation of one department, which its member cannot update |
| Departments.DeptStore.UpdateInstance | apps/system/serializers/department.py:78-82 | refusal exactly for the department itself and its descendants |
| Inventory.RefusedIff | apps/virt_center/utils/sync_data.py:75-107 | an item is refused exactly if a column refuses it or writing it would break a uniqueness constraint |
| Inventory.EveryRun | apps/virt_center/tasks.py:158-198 | after any run both constraints hold, active rows were seen, written items are active, other platforms are untouched, and every item is counted |
| InventoryRuns.RowOfRun | apps/virt_center/tasks.py:168-188 | every row after any run: as the last item written under its uuid, or as it was, but deactivated if it was active and not listed (and not spared) |
| InventoryRuns.StaysActiveIff | apps/virt_center/tasks.py:172-188 | an active row stays active exactly if its uuid was listed, also if the item was refused, or if it is spared; an inactive one becomes active exactly if it was written |
| InventoryRuns.RefusedStaysActive | apps/virt_center/tasks.py:172-186 | a host that a column refuses fails and stays active |
| InventoryRuns.CleanIff | apps/virt_center/tasks.py:168-188 | a run over any list fails nowhere if and only if each item can be read and stored, no other platform has its uuid, nothing read before ended with its name, and only its own row or rows read before had its name |
| InventoryRuns.RerunCleanIff | apps/virt_center/tasks.py:168-188 | a clean run, repeated, is clean again if and only if no item takes a name that a uuid first listed later ends with |
| InventoryRuns.DistinctStaysClean | apps/virt_center/tasks.py:168-188 | which always holds of distinct uuids that a run got through |
| InventoryRuns.CleanRunIsFinal | apps/virt_center/tasks.py:168-188 | and then the repeated run changes timestamps only |
| InventoryRuns.EventuallyCleanIff | apps/virt_center/tasks.py:168-188 | over distinct uuids, repeated runs end clean if and only if nothing but renames is in the way and they do not wait for each other in a cycle; as many runs as there are renames pending are enough |
| InventoryRuns.RunSettlesOne | apps/virt_center/tasks.py:168-188 | each run over renames without a cycle settles at least one of them |
| InventoryRuns.StuckForever | apps/virt_center/tasks.py:168-188 | items that wait for each other do so after any number of runs |
| InventoryRuns.RepeatedUuidIsNotFinal | apps/virt_center/tasks.py:168-188 | a list with a repeated uuid that is clean once and not again |
| InventoryRuns.ExchangeNeverSyncs | apps/virt_center/models/host.py:134 | in any table and list, two items that are to get each other's name make every run fail |
| InventoryRuns.ExchangedNamesNeverSync | apps/virt_center/models/host.py:134 | a table of two rows for which no number of runs helps |
| Inventory.ActiveAfterCleanRun | apps/virt_center/tasks.py:268-271 | after a clean run exactly what was read is active, besides rows the update spares |
| Inventory.KindsAreSeparated | apps/virt_center/tasks.py:246-271 | after clean runs an entry is active in the template table iff it is a template, and in the other iff it is not or had an active row marked as template there |
| InventoryRuns.EntryIsStored | apps/virt_center/tasks.py:246-261 | an entry that is written to a table is of its kind and is stored with the attributes of that kind, whatever else fails |
| InventoryRuns.CleanVmsNeedConfig | apps/virt_center/tasks.py:246-251 | an entry without configuration fails as a virtual machine and is passed over as a template |
| Inventory.FlaggedRowStaysActive | apps/virt_center/tasks.py:268-271 | a table with such a row: the template stays active on both sides |
| Inventory.RunsSetNoFlags | apps/virt_center/utils/sync_data.py:176 | runs never mark a row of the virtual machine table as a template |
| Inventory.ExactlyOneKind | apps/virt_center/tasks.py:407-431 | so in a table filled by runs every entry is active on exactly one side, the one its flag names |
| Inventory.InventoryTable.UpdateOrCreate | apps/virt_center/utils/sync_data.py:74-116 | an item is written under its platform and uuid, or refused without a trace |
| Inventory.InventoryTable.Sync | apps/virt_center/tasks.py:158-198 | the loop with its counters and the final deactivation |
| Inventory.InventoryTable.SyncHosts | apps/virt_center/tasks.py:138-198 | both constraints survive, and synced and failed add up to the inventory |
| Inventory.InventoryTable.SyncVms | apps/virt_center/tasks.py:216-281 | the same for virtual machines, templates being passed over |
| Inventory.InventoryTable.SyncTemplates | apps/virt_center/tasks.py:377-440 | the same for templates, everything else being passed over |
| TopologicalSort.BuildGraph | apps/common/core/utils.py:182-196 | successor lists, in-degrees and last rows by key |
| TopologicalSort.InitialQueue | apps/common/core/utils.py:199 | exactly the keys that wait for nothing, in any order |
| TopologicalSort.FinishingReleases | apps/common/core/utils.py:205-206 | finishing a key lowers each in-degree by exactly the number of rows it was blocking |
| TopologicalSort.Release | apps/common/core/utils.py:205-208 | each key enters the queue exactly when its in-degree reaches zero |
| TopologicalSort.WorkLoop | apps/common/core/utils.py:202-208 | the loop ends, respects every edge, and misses a key exactly if there is a cycle |
| TopologicalSort.StuckMeansCycle | apps/common/core/utils.py:210-212 | keys that all wait for one another contain a cycle |
| TopologicalSort.OrderedMeansNoCycle | apps/common/core/utils.py:210-212 | an order that respects all edges leaves no room for a cycle |
| TopologicalSort.TopologicalSort | apps/common/core/utils.py:180-214 | raises exactly if no order puts every row after the row it names, plainly or in a nested object, which is exactly if there is a cycle; otherwise a permutation (for distinct keys) in such an order, also for repeated keys |
| MenuTree.MenuListToTree | apps/common/base/utils.py:115-138 | every record gains exactly the records that name it, in list order, whatever the order; the count is the number of children; roots are returned |
| MenuTree.ParentIsNamed | apps/common/base/utils.py:125-130 | the parent is the last record with the key that is named, plainly or in a nested object |
| MenuTree.KidsNameTheirParent | apps/common/base/utils.py:124-137 | who is a child of whom, and who is a root, in terms of the raw references |
| MenuTree.ChildrenAreListed | apps/common/base/utils.py:124-136 | children and roots are in list order, each as often as it is listed |
| MenuTree.ParentIsUp | apps/common/base/utils.py:119-130 | with distinct keys the record found through the key table is the declared parent |
| MenuTree.LinkedShowsTree | apps/common/base/utils.py:132-137 | the linked records unfold to the forest defined recursively from the parent links, with its counts |
| MenuTree.EachGroundedRecordOnce | apps/common/base/utils.py:124-138 | the forest has each record whose parent chain leaves the list exactly once, and no other |
| MenuTree.CompleteIffAcyclic | apps/common/base/utils.py:124-138 | no record is missing if and only if the parent links are acyclic |
| MenuTree.FormatMenuData | apps/common/base/utils.py:148-161 | one route per root, around the same record; wrapped exactly if the count is missing or below one |
| MenuTree.UserRoutes | apps/system/views/routes.py:45-55 | the routes lead to the whole forest, and exactly the childless roots are wrapped |
| ParentLinks.GroundedIffNoCycleAbove | apps/system/models/department.py:22-29 | a parent chain ends exactly if there is no cycle above, and then within as many steps as there are records |
| ParentLinks.AcyclicIffNoCycle | apps/system/models/department.py:22-29 | all chains end exactly if no record is its own ancestor |
| ParentLinks.RegraftIff | apps/system/serializers/department.py:80-82 | a new parent keeps the relation acyclic exactly if it is neither the record nor below it |
| ParentLinks.SiblingsApart | apps/common/base/utils.py:132-137 | nothing lies under two siblings or two roots |

## Left out

- Celery, Redis, asyncio and thread internals, lock timeouts and key expiry; the pool of ten executor threads.
- `delay_run`, which is the debounce protocol without arguments, and the memoizing `cached_method`.
- Positional arguments of a delay call, which are passed on but not merged.
- How a rule resolves its value to conditions (dates, JSON, related ids, `apps/common/core/db/utils.py:54-107`).
- The menu filter and the active flag on permissions: the permissions of a department and of a user are given.
- A missing queryset (`None`), which is returned as it is, and logging.
- `sync_datastores` and `sync_platform_info`: the same loop keyed by the name alone, where no constraint can be in the way.
- The host that a virtual machine row refers to, and field-by-field parsing of vSphere objects: a parsed item is its uuid, name and remaining columns, and parsing may fail.
- A uuid that is null in the inventory: inventory uuids are strings, while table rows may lack one.
- Sending the report as a message, and what the view does with a batch.
- The Django admin (`apps/system/admin.py:8`) and the loading of initial data (`apps/system/management/commands/load_init_json.py`), which write departments without the serializer: a parent that is set there passes no guard, so `RunsStayForest` does not speak of it.
- Interleavings of two department requests, or of two synchronisations of one platform.
- Converting department ids to strings, and the DEPARTMENTS rule type, which passes a list of ids to the closure.
- Batch lengths below one, which `itertools.batched` refuses and no caller passes.
- Serializers, views, schemas, middleware, settings, captcha, mail, WebSocket plumbing, encryption and login blocking.
