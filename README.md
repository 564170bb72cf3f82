# java-kanban task manager, modelled in Dafny

This project models the core of a small task tracker ("kanban"). There are three kinds
of entity:

- a **task**;
- an **epic**, which groups subtasks;
- a **subtask**, which belongs to exactly one epic.

Each entity has an id, a name, a description, a status (`NEW`, `IN_PROGRESS`, `DONE`), a
start time, a duration and an end time. The project models these parts:

- **Entities** (`Model`, `types.dfy`, `model.dfy`): `Task`, `Epic` and `SubTask`.
  - The class `Model.Task` has the objects' fields and setters. The three Java classes
    are one class with a `kind`.
  - The value `Model.Entry` holds an object's fields at one moment. Managers store
    these values, the history records them and a save-file line describes them.
- **Schedule** (`Schedule`): the prioritized set of the in-memory manager.
  - It is a `TreeSet` whose comparator looks at the start time only.
  - Here it is a map from start time to entry, with the time-conflict check
    `checkTaskTime`.
- **Epic aggregation** (`Aggregation`, `Stores`): the fold that derives an epic's
  status, start, duration and end from its subtasks. `Stores` also holds:
  - the store invariants. Ids are filed under their own kind. Each subtask is
    listed by exactly its epic. Each epic is settled, meaning its fields are the
    aggregation of its subtasks;
  - the lemmas showing that each manager operation keeps them.
- **History** (`History`): the history manager.
  - A class over a doubly linked list of nodes, plus a map from id to node.
  - `add` moves a task to the end of the history and `remove` unlinks it.
- **In-memory manager** (`Memory`): the current manager, with
  create/get/update/delete/clear for the three kinds, the subtask lists of epics, the
  schedule and the history.
- **Legacy manager** (`Legacy`): the older manager.
  - It has no schedule and no not-found exceptions.
  - Its status rule is "all subtasks the same status, else `IN_PROGRESS`".
- **Line converter** (`Converter`): `TaskConverter.toString`, one comma-separated line
  per entry.
- **File-backed manager** (`FileBacked`): reading the save file back.
  - `fromString` parses a line.
  - `add`, `addEpic` and `addSubTask` file the result.
  - `readFromFile` runs the restore loop, which raises the id counter to the
    largest id read.

The managers store entries by value, in `map<int, Entry>` fields of a class. Their
methods reassign those maps. The history is a class with `Node` objects whose
`prev` and `next` pointers the methods update in place. Every state-changing method
states the manager's whole new state in terms of the old one, and keeps the class
invariant `Valid()`.

## Model

| member | source | states |
|---|---|---|
| Types.Wrap32 | src/model/Task.java:54-57 | Java `int` arithmetic: the result is in the 32-bit range, congruent to the exact value modulo 2^32, and equal to it when it already fits (used by `hashCode`) |
| Model.CrossesIffShareMinute | src/model/Task.java:141-143 | for non-empty windows, `isCrossed` holds exactly when the two half-open windows [start, end) share a minute |
| Model.CrossesSymmetricAndBoundary | src/model/Task.java:141-143 | `isCrossed` is symmetric; a window ending where the other starts does not cross it; two non-empty windows with the same start cross |
| Model.EmptyWindowInsideCrosses | src/model/Task.java:141-143 | a zero-length window strictly inside another counts as crossing although they share no minute |
| Model.SettersKeepEnd | src/model/Task.java:123-135 | `setDuration`/`setStartTime` on a task or subtask recompute the end as start plus duration; on an epic (overrides in Epic.java:35-43) they change only their own field; both change nothing else |
| Model.InKeyOrder | src/service/memory/InMemoryTaskManager.java:197-199 | `new ArrayList<>(map.values())`: one element per stored entry, and exactly the stored entries |
| Model.Task.constructor | src/model/Task.java:16-24 | a new task has no id, the given fields, type TASK, epic id 0 and end == start + duration |
| Model.Task.WithId | src/model/Task.java:26-34 | as the plain constructor, with the given id |
| Model.Task.Copy | src/model/Task.java:36-44 | the copy has every field of the original, is a `Task`, and `compareAllFields` with the original holds exactly when the original is a plain task |
| Model.Task.Epic | src/model/Epic.java:11-13 | a new epic is NEW, lasts 0 minutes, starts and ends at `LocalDateTime.MIN.plusYears(1)` and has no subtasks |
| Model.Task.SubTask | src/model/SubTask.java:9-13 | a new subtask has the given epic id and fields, type SUBTASK, and end == start + duration |
| Model.Task.SetId | src/model/Task.java:76-78 | sets the id and nothing else |
| Model.Task.SetName | src/model/Task.java:84-86 | sets the name and nothing else |
| Model.Task.SetDescription | src/model/Task.java:92-94 | sets the description and nothing else |
| Model.Task.SetTaskStatus | src/model/Task.java:100-102 | sets the status and nothing else |
| Model.Task.SetDuration | src/model/Task.java:123-126 | the object's new fields are `WithDuration` of its old fields (end recomputed except on an epic, Epic.java:40-43) |
| Model.Task.SetStartTime | src/model/Task.java:132-135 | the object's new fields are `WithStartTime` of its old fields (end recomputed except on an epic, Epic.java:35-38) |
| Model.Task.SetEndTime | src/model/Epic.java:45-47 | an epic's end time is set directly and nothing else changes |
| Model.EqualsIsIdentityById | src/model/Task.java:46-57 | `equals` holds for the same class and id, implies the same id and the same `hashCode`, and fails across classes |
| Schedule.Add | src/service/memory/InMemoryTaskManager.java:28 | `TreeSet.add` with a start-time comparator: the start is filed afterwards; an entry with an equal start already there is kept; otherwise exactly the new entry is added |
| Schedule.Remove | src/service/memory/InMemoryTaskManager.java:116 | `TreeSet.remove(t)`: drops exactly the entry filed under t's start and keeps every other entry unchanged |
| Schedule.AddRemoveInverse | src/service/memory/InMemoryTaskManager.java:28 | removing an entry just added under a new start restores the set; adding twice is adding once |
| Schedule.RemoveAsWritten | src/service/memory/InMemoryTaskManager.java:164-169 | `prioritizedTasks.remove(removed)` with a possibly null argument: a null succeeds only on an empty set, otherwise it throws NullPointerException |
| Schedule.RemoveIfPresent | src/service/memory/InMemoryTaskManager.java:185-194 | the corrected removal: null removes nothing, an entry is removed as by `TreeSet.remove` |
| Schedule.RemoveNullThrows | src/service/memory/InMemoryTaskManager.java:164-169 | on any non-empty schedule, removing null throws as written and is a no-op when corrected |
| Schedule.RemoveAsWrittenAgrees | src/service/memory/InMemoryTaskManager.java:185-194 | whenever the written removal does not throw, it agrees with the corrected one |
| Schedule.CheckTaskTime | src/service/memory/InMemoryTaskManager.java:317-327 | passes exactly when every prioritized entry that crosses the task `equals` it; otherwise fails with a time conflict |
| Schedule.EqualEntryNeverConflicts | src/service/memory/InMemoryTaskManager.java:321-322 | an entry equal to the task (the stored copy of the task being updated) never makes it conflict |
| Schedule.BoundaryNeverConflicts | src/service/memory/InMemoryTaskManager.java:317-327 | a task that only touches the other windows at their ends passes the check |
| Schedule.CheckKeepsDisjoint | src/service/memory/InMemoryTaskManager.java:43-50 | if the prioritized windows are pairwise disjoint and the check passes, they stay disjoint after `add`, and after `remove` |
| Schedule.InStartOrder | src/service/memory/InMemoryTaskManager.java:212-216 | `getPrioritizedTasks`: exactly the prioritized entries, one per start |
| Schedule.InStartOrderSorted | src/service/memory/InMemoryTaskManager.java:212-216 | the returned entries are in strictly increasing start order |
| Aggregation.Statuses | src/service/memory/InMemoryTaskManager.java:300-304 | the subtask statuses, in list order |
| Aggregation.MinStartIsEarliest | src/service/memory/InMemoryTaskManager.java:280-292 | the epic start the loop computes is at most `LocalDateTime.MAX`, no later than any subtask's start, and is `MAX` or some subtask's start |
| Aggregation.MaxEndIsLatest | src/service/memory/InMemoryTaskManager.java:281-296 | the epic end is at least `MIN.plusYears(1)`, no earlier than any subtask's end, and is that floor or some subtask's end |
| Aggregation.TotalDurationNonNegative | src/service/memory/InMemoryTaskManager.java:282-298 | the summed duration is non-negative when every subtask's is |
| Aggregation.FoldStep | src/service/memory/InMemoryTaskManager.java:286-298 | one more loop iteration updates the minimum start, maximum end and total duration exactly as the loop body does |
| Aggregation.TotalDurationAppend | src/service/memory/InMemoryTaskManager.java:298 | the total duration of two lists is the sum of their totals |
| Aggregation.FirstLastStatus | src/service/memory/InMemoryTaskManager.java:300-314 | the status rule as written: the first subtask's status when the first and last agree, otherwise IN_PROGRESS |
| Aggregation.AllSameStatus | src/service/InMemoryTaskManager.java:183-210 | the legacy status rule: NEW without subtasks, the common status when all agree, otherwise IN_PROGRESS |
| Aggregation.StatusRulesAgree | src/service/memory/InMemoryTaskManager.java:300-314 | the two rules agree when all statuses are the same or there are at most two subtasks |
| Aggregation.StatusRulesDisagreement | src/service/memory/InMemoryTaskManager.java:300-314 | whenever the rules disagree there are at least three subtasks, not all equal, whose first and last agree; the current rule then reports that status and the legacy one IN_PROGRESS |
| Aggregation.FirstLastIgnoresMiddle | src/service/memory/InMemoryTaskManager.java:300-305 | the current rule ignores every subtask between the first and the last |
| Aggregation.NewDoneNewExample | src/service/memory/InMemoryTaskManager.java:300-314 | illustration (the general properties are `StatusRulesAgree` and `StatusRulesDisagreement`): for statuses [NEW, DONE, NEW] the current rule says NEW and the legacy rule IN_PROGRESS |
| Converter.NatText | src/service/converter/TaskConverter.java:9-13 | decimal text of a natural number: non-empty, all digits, leading zero only for 0 |
| Converter.IntText | src/service/converter/TaskConverter.java:9-13 | `String.valueOf(int)`: non-empty, comma-free, starting with '-' exactly for a negative number |
| Converter.IdText | src/service/converter/TaskConverter.java:10 | the id as concatenation writes it ("null" when unset), comma-free |
| Converter.TimeText | src/service/converter/TaskConverter.java:12 | the start time's text is non-empty and comma-free |
| Converter.LineFields | src/service/converter/TaskConverter.java:9-13 | the eight field texts of a line |
| Converter.ToLine | src/service/converter/TaskConverter.java:9-13 | the line opens with the id text and a comma and closes with the start-time text |
| Converter.JoinSnoc | src/service/converter/TaskConverter.java:9-13 | joining one more field appends a comma and the field |
| Converter.ToLineJoinsFields | src/service/converter/TaskConverter.java:9-13 | the line is the eight field texts joined by commas; the epic field is 0 for a task or an epic and the epic id for a subtask; the duration field is the minute count |
| Converter.ConverterTaskExample | test/service/converter/TaskConverterTest.java:21-32 | illustration (the general property is `FileBacked.LineRoundTrip`): the task of the test writes "1,TASK,Task1,IN_PROGRESS,Desc task 1,0,15," followed by its start |
| Converter.ConverterEpicExample | test/service/converter/TaskConverterTest.java:24-33 | illustration (the general property is `FileBacked.LineRoundTrip`): the epic of the test writes "2,EPIC,Epic1,NEW,Desc epic 1,0,77," followed by its start |
| Converter.ConverterSubTaskExample | test/service/converter/TaskConverterTest.java:28-34 | illustration (the general property is `FileBacked.LineRoundTrip`): the subtask of the test writes "3,SUBTASK,Sub1,DONE,Desc subtask 1,2,200," followed by its start |
| Stores.Elems | src/service/memory/InMemoryTaskManager.java:177-180 | the set of ids a list holds |
| Stores.RemoveFirst | src/service/memory/InMemoryTaskManager.java:331 | `List.remove(Integer)`: nothing new appears, and the list is one shorter exactly when the id occurs |
| Stores.Unlink | src/service/memory/InMemoryTaskManager.java:330-331 | the epic's list loses one occurrence of the id and gains nothing; no other field changes |
| Stores.AppendNew | src/service/memory/InMemoryTaskManager.java:347-348 | the id is listed afterwards, the old list is kept as a prefix, and at most one id is added |
| Stores.Link | src/service/memory/InMemoryTaskManager.java:342-348 | the epic lists the id afterwards, keeps its old list as a prefix, and no other field changes |
| Stores.RemoveFirstSpec | src/service/memory/InMemoryTaskManager.java:330-333 | `List.remove(Integer)` removes the first occurrence only: nothing new appears, every other id stays, an absent id leaves the list unchanged, a present one shortens it by one, and a repeat-free list loses the id and stays repeat-free |
| Stores.AppendNewSpec | src/service/memory/InMemoryTaskManager.java:345-348 | adding an id only when absent: the id is listed afterwards, nothing else is added, repeat-freedom is kept, and an absent id is appended at the end |
| Stores.ViewsOf | src/service/memory/InMemoryTaskManager.java:286-288 | the loop reads each listed subtask, in list order |
| Stores.Aggregate | src/service/memory/InMemoryTaskManager.java:265-315 | `updateEpicStatus` changes only the epic's status, start, duration and end, never its id, name, description or subtask list |
| Stores.AggregateTimes | src/service/memory/InMemoryTaskManager.java:279-309 | the epic's start is no later and its end no earlier than any subtask's, and each is attained by a subtask or is the loop's initial bound |
| Stores.ViewTimes | src/service/memory/InMemoryTaskManager.java:286-296 | the folded start and end bound every listed subtask and are attained by one unless they are the initial bounds |
| Stores.StartAttained | src/service/memory/InMemoryTaskManager.java:290-292 | a start attained by some view is attained by some listed subtask |
| Stores.EndAttained | src/service/memory/InMemoryTaskManager.java:294-296 | an end attained by some view is attained by some listed subtask |
| Stores.AggregateStatus | src/service/memory/InMemoryTaskManager.java:265-277 | with no subtasks the epic becomes NEW, 0 minutes, starting at `LocalDateTime.MIN`, end untouched; otherwise the first/last status rule; the duration is non-negative when the subtasks' are |
| Stores.AggregateIdempotent | src/service/memory/InMemoryTaskManager.java:265-277 | recomputing an epic twice gives the same epic as once |
| Stores.AggregateFrame | src/service/memory/InMemoryTaskManager.java:265-315 | the recomputed epic depends only on the subtasks it lists |
| Stores.FiledAt | src/service/memory/InMemoryTaskManager.java:21-25 | an entry in a store is of that store's kind |
| Stores.ScheduledAdd | src/service/memory/InMemoryTaskManager.java:47-48 | adding a task or subtask keeps the schedule filed by start and free of epics |
| Stores.ScheduledMinus | src/service/memory/InMemoryTaskManager.java:232-235 | removing starts keeps the schedule filed by start |
| Stores.OwnedOnce | src/service/memory/InMemoryTaskManager.java:342-351 | each stored subtask's epic exists, lists it, lists nothing twice, and is the only epic listing it |
| Stores.NewEpicOwns | src/service/memory/InMemoryTaskManager.java:53-58 | filing a new epic with no subtasks keeps the ownership invariant |
| Stores.NewEpicConsistent | src/service/memory/InMemoryTaskManager.java:53-58 | filing a new, recomputed epic keeps every epic settled |
| Stores.LinkOwns | src/service/memory/InMemoryTaskManager.java:69-72 | filing a new subtask and appending its id to its epic keeps ownership; the id was not listed before |
| Stores.LinkConsistent | src/service/memory/InMemoryTaskManager.java:69-73 | after filing a new subtask and recomputing its epic, every epic is settled |
| Stores.LinkKeeps | src/service/memory/InMemoryTaskManager.java:61-75 | `createSubTask` appends the new id at the end of its epic's list and keeps ownership and settledness |
| Stores.ReplaceOwns | src/service/memory/InMemoryTaskManager.java:150-154 | replacing a subtask's fields without moving it keeps ownership |
| Stores.ReplaceKeeps | src/service/memory/InMemoryTaskManager.java:141-161 | `updateSubTask` followed by recomputing the subtask's epic keeps ownership and settledness |
| Stores.ReplaceConsistent | src/service/memory/InMemoryTaskManager.java:158 | recomputing the one epic that lists the changed subtask settles every epic again |
| Stores.RenameConsistent | src/service/memory/InMemoryTaskManager.java:130-138 | renaming an epic keeps every epic settled |
| Stores.RenameOwns | src/service/memory/InMemoryTaskManager.java:130-138 | changing an epic without touching its list keeps ownership |
| Stores.ListedOnlyByOwner | src/service/memory/InMemoryTaskManager.java:177-180 | every id an epic lists is listed by no other epic |
| Stores.Lookup | src/service/memory/InMemoryTaskManager.java:225-227 | `map(subTasks::get)`: one element per listed id, the subtask where it is stored and null where not |
| Stores.LookupOwned | src/service/memory/InMemoryTaskManager.java:219-228 | an epic's subtask list holds no null, only its own subtasks, no duplicates, and every subtask of the epic |
| Stores.UnlinkOwns | src/service/memory/InMemoryTaskManager.java:186-191 | removing a subtask and its id from its epic keeps ownership |
| Stores.RemoveFirstListed | src/service/memory/InMemoryTaskManager.java:331 | the shortened list names only stored subtasks |
| Stores.SettledElsewhere | src/service/memory/InMemoryTaskManager.java:185-194 | an epic not listing a removed subtask stays settled |
| Stores.UnlinkConsistent | src/service/memory/InMemoryTaskManager.java:191-192 | recomputing the owner epic after the removal settles every epic |
| Stores.UnlinkKeeps | src/service/memory/InMemoryTaskManager.java:185-194 | `deleteSubTask` takes the id off its epic's list and keeps ownership and settledness |
| Stores.RemoveEpicOwns | src/service/memory/InMemoryTaskManager.java:172-182 | deleting an epic with the subtasks it lists deletes exactly the subtasks of that epic and keeps ownership |
| Stores.RemoveEpicConsistent | src/service/memory/InMemoryTaskManager.java:172-182 | deleting an epic and only subtasks it lists keeps the others settled |
| Stores.RemoveEpicKeeps | src/service/memory/InMemoryTaskManager.java:172-182 | `deleteEpic` leaves exactly the subtasks of other epics and keeps both invariants |
| Stores.Reset | src/service/memory/InMemoryTaskManager.java:336-339 | `removeAllSubtasksFromEpic`: empty list, NEW, 0 minutes, start `LocalDateTime.MIN`; id, kind and end kept |
| Stores.ResetIsAggregate | src/service/memory/InMemoryTaskManager.java:336-339 | clearing the list is recomputing the epic with an empty list, and is idempotent |
| Stores.ResetKeeps | src/service/memory/InMemoryTaskManager.java:254-263 | after `clearSubTasks` every epic owns nothing and is settled |
| History.Node.constructor | src/service/InMemoryHistoryManager.java:15-19 | a node holds the given neighbours and task |
| History.KeysOf | src/service/InMemoryHistoryManager.java:22 | the ids of the listed nodes, in list order |
| History.ItemsOf | src/service/InMemoryHistoryManager.java:42-50 | the tasks of the listed nodes, in list order |
| History.WithoutMembers | src/service/InMemoryHistoryManager.java:53-68 | removing ids from the history keeps exactly the nodes with other ids |
| History.WithoutAppend | src/service/InMemoryHistoryManager.java:53-68 | removal distributes over concatenation |
| History.WithoutTwice | src/service/InMemoryHistoryManager.java:53-68 | removing one set of ids and then another is removing their union |
| History.AddedTwice | src/service/InMemoryHistoryManager.java:28-39 | viewing a task twice leaves one node for it, at the end |
| History.WithoutDistinct | src/service/InMemoryHistoryManager.java:53-68 | removal keeps ids distinct |
| History.WithoutKeyed | src/service/InMemoryHistoryManager.java:53-68 | removal keeps every node filed under its task's id |
| History.WithoutNoneRemoved | src/service/InMemoryHistoryManager.java:55-56 | removing ids the history does not hold changes nothing |
| History.WithoutAt | src/service/InMemoryHistoryManager.java:57-67 | removing the id of the i-th node cuts out exactly that node |
| History.MapOfWithout | src/service/InMemoryHistoryManager.java:54 | the id-to-node map after removal is the old map without those ids |
| History.MapOfSnoc | src/service/InMemoryHistoryManager.java:31-32 | appending a node with a new id adds exactly that id to the map |
| History.MapOfSize | src/service/InMemoryHistoryManager.java:43 | the map has one entry per listed node |
| History.HistoryManager.constructor | src/service/InMemoryHistoryManager.java:22-25 | a new history is empty |
| History.HistoryManager.Unlink | src/service/InMemoryHistoryManager.java:57-67 | the pointer updates of `remove` leave the list without the node, linked both ways, with correct first and last |
| History.HistoryManager.Bypass | src/service/InMemoryHistoryManager.java:57-67 | the neighbours of the node point past it, and `first`/`last` move off it when it was at an end |
| History.HistoryManager.Remove | src/service/InMemoryHistoryManager.java:53-68 | the id is gone from the map and the list, every other node keeps its order; an absent id changes nothing |
| History.HistoryManager.LinkLast | src/service/InMemoryHistoryManager.java:30-38 | a new node linked after the old last becomes the last, and the first when the list was empty |
| History.HistoryManager.Append | src/service/InMemoryHistoryManager.java:30-38 | a fresh node with the task is appended and filed under its id |
| History.HistoryManager.Add | src/service/InMemoryHistoryManager.java:28-39 | the task's old node (if any) is dropped and the task becomes the last item |
| History.HistoryManager.GetHistory | src/service/InMemoryHistoryManager.java:42-50 | the walk from `first` returns the tasks in list order, one per filed id, no two with the same id |
| Memory.CopyFields | src/service/memory/InMemoryTaskManager.java:117-121 | an update copies name, description, status, duration and start; id, kind, epic and list are kept; a non-epic's end is recomputed |
| Memory.DroppedStarts | src/service/memory/InMemoryTaskManager.java:232-235 | dropping entries one by one from the schedule drops the set of their starts |
| Memory.ForgottenAll | src/service/memory/InMemoryTaskManager.java:232-233 | removing ids from the history one by one removes the set of them |
| Memory.PrunedAll | src/service/memory/InMemoryTaskManager.java:177-178 | removing ids from a store one by one removes the set of them |
| Memory.ForgottenKeys | src/service/memory/InMemoryTaskManager.java:241-243 | removing the ids of a key list removes the key set |
| Memory.DroppedAll | src/service/memory/InMemoryTaskManager.java:244-247 | dropping every entry of a store drops the starts of the whole store |
| Memory.TaskManager.constructor | src/service/memory/InMemoryTaskManager.java:34-36 | empty stores and schedule, counter 0, the given history |
| Memory.TaskManager.GenerateId | src/service/memory/InMemoryTaskManager.java:38-40 | the counter is incremented and returned; the new id is in no store |
| Memory.TaskManager.Create | src/service/memory/InMemoryTaskManager.java:43-50 | on a time conflict nothing changes; otherwise the task gets the next id, is filed and scheduled |
| Memory.TaskManager.CreateEpic | src/service/memory/InMemoryTaskManager.java:53-58 | the epic gets the next id and is filed aggregated over the subtasks it lists; a listed id with no stored subtask throws NullPointer after the epic is filed as given; an epic listing nothing becomes NEW, 0 minutes, start `MIN`, and the manager stays valid |
| Memory.TaskManager.CreateSubTask | src/service/memory/InMemoryTaskManager.java:61-75 | unknown epic: NotFound; conflict: TimeConflict; otherwise the subtask gets the next id, is filed, scheduled and appended to its epic, which is recomputed |
| Memory.TaskManager.FileSubTask | src/service/memory/InMemoryTaskManager.java:69-73 | filing, scheduling and linking a subtask, then recomputing its epic |
| Memory.TaskManager.Get | src/service/memory/InMemoryTaskManager.java:78-85 | an absent id is NotFound and leaves the history; a present one is returned and becomes the last history item |
| Memory.TaskManager.GetEpic | src/service/memory/InMemoryTaskManager.java:88-95 | as `get`, on epics |
| Memory.TaskManager.GetSubTask | src/service/memory/InMemoryTaskManager.java:98-105 | as `get`, on subtasks |
| Memory.TaskManager.Update | src/service/memory/InMemoryTaskManager.java:108-127 | the conflict check comes first, then NotFound; the stored task takes the new fields and is rescheduled under its new start |
| Memory.TaskManager.UpdateEpic | src/service/memory/InMemoryTaskManager.java:130-138 | NotFound for an unknown epic; otherwise only name and description change |
| Memory.TaskManager.UpdateSubTask | src/service/memory/InMemoryTaskManager.java:141-161 | conflict first, then NotFound; the subtask takes the new fields; the argument (not the stored copy) is scheduled; the epic is viewed and recomputed |
| Memory.TaskManager.Delete | src/service/memory/InMemoryTaskManager.java:164-169 | the id leaves the history and the store; a present task is returned and unscheduled; an absent id changes no store |
| Memory.TaskManager.DeleteEpic | src/service/memory/InMemoryTaskManager.java:172-182 | the epic and exactly its subtasks leave the stores and the history; an absent id returns null |
| Memory.TaskManager.DropSubtasksOf | src/service/memory/InMemoryTaskManager.java:177-180 | the epic's subtasks leave the store and the history |
| Memory.TaskManager.ForgetSubTask | src/service/memory/InMemoryTaskManager.java:178-179 | one subtask leaves the store and the history |
| Memory.TaskManager.ForgetListed | src/service/memory/InMemoryTaskManager.java:177-180 | the loop removes each listed subtask from the store and the history |
| Memory.TaskManager.DeleteSubTask | src/service/memory/InMemoryTaskManager.java:185-194 | the subtask leaves store, schedule and history; its epic drops the id, is recomputed and becomes the last history item; an absent id returns null and changes no store |
| Memory.TaskManager.DetachSubTask | src/service/memory/InMemoryTaskManager.java:191-192 | the epic drops the id, is recomputed and is viewed |
| Memory.TaskManager.RecomputeViewed | src/service/memory/InMemoryTaskManager.java:158 | the epic is recomputed and the epic is added to the history |
| Memory.TaskManager.GetTasks | src/service/memory/InMemoryTaskManager.java:197-199 | exactly the stored tasks, one element each |
| Memory.TaskManager.GetEpics | src/service/memory/InMemoryTaskManager.java:202-204 | exactly the stored epics, one element each |
| Memory.TaskManager.GetSubtasks | src/service/memory/InMemoryTaskManager.java:207-209 | exactly the stored subtasks, one element each |
| Memory.TaskManager.GetPrioritizedTasks | src/service/memory/InMemoryTaskManager.java:212-216 | exactly the scheduled entries, one per start |
| Memory.TaskManager.GetEpicSubtasks | src/service/memory/InMemoryTaskManager.java:219-228 | NotFound exactly for an unknown epic; otherwise the lookup of its listed ids |
| Memory.TaskManager.ForgetAll | src/service/memory/InMemoryTaskManager.java:232-235 | every entry of a store leaves the history and the schedule |
| Memory.TaskManager.ForgetHistory | src/service/memory/InMemoryTaskManager.java:241-243 | every key leaves the history |
| Memory.TaskManager.ForgetEach | src/service/memory/InMemoryTaskManager.java:232-235 | the loop removes each entry's id from the history and its start from the schedule |
| Memory.TaskManager.ForgetIds | src/service/memory/InMemoryTaskManager.java:241-243 | the loop removes each id from the history |
| Memory.TaskManager.ClearTasks | src/service/memory/InMemoryTaskManager.java:231-237 | no task is left; their ids leave the history and their starts the schedule |
| Memory.TaskManager.ClearEpics | src/service/memory/InMemoryTaskManager.java:240-251 | no epic or subtask is left; all their ids leave the history and the subtasks' starts the schedule |
| Memory.TaskManager.ForgetEpicsAndSubtasks | src/service/memory/InMemoryTaskManager.java:241-247 | the two loops of `clearEpics` |
| Memory.TaskManager.ClearSubTasks | src/service/memory/InMemoryTaskManager.java:254-263 | no subtask is left; every epic is reset; the subtasks leave the history and the schedule |
| Memory.TaskManager.ResetAll | src/service/memory/InMemoryTaskManager.java:260-262 | every epic is reset, and the same epics remain |
| Memory.TaskManager.UpdateEpicStatus | src/service/memory/InMemoryTaskManager.java:265-277 | the epic is replaced by its aggregation over its subtasks |
| Memory.TaskManager.UpdateEpicWithSubtasks | src/service/memory/InMemoryTaskManager.java:279-315 | for a non-empty list, the epic is replaced by its aggregation |
| Memory.TaskManager.ScanSubtasks | src/service/memory/InMemoryTaskManager.java:280-305 | the loop yields the minimum start, maximum end, total duration, the first status, and whether the first and last statuses agree |
| Memory.TaskManager.RemoveSubTaskFromEpic | src/service/memory/InMemoryTaskManager.java:330-333 | the first occurrence of the id leaves the epic's list and the epic is recomputed |
| Memory.TaskManager.RemoveAllSubtasksFromEpic | src/service/memory/InMemoryTaskManager.java:336-339 | the epic is reset |
| Memory.TaskManager.AddSubTaskToEpic | src/service/memory/InMemoryTaskManager.java:342-351 | null epic: null and nothing changes; otherwise the id is appended if absent, the epic recomputed and the subtask returned |
| Memory.TaskManager.GetHistory | src/service/memory/InMemoryTaskManager.java:354-356 | the history's items, in order |
| Legacy.StatusesOf | src/service/InMemoryTaskManager.java:193-198 | the statuses of the listed subtasks, in order |
| Legacy.RecomputedSettled | src/service/InMemoryTaskManager.java:183-210 | the legacy recomputation settles the epic, is idempotent, and agrees with the current rule where the two rules agree |
| Legacy.Recomputed | src/service/InMemoryTaskManager.java:183-210 | only the status changes, and the epic is then settled by the legacy rule |
| Legacy.StatusFrame | src/service/InMemoryTaskManager.java:183-210 | an epic's status depends only on its subtasks' statuses |
| Legacy.SettledApart | src/service/InMemoryTaskManager.java:129-134 | an epic not listing a changed subtask stays settled |
| Legacy.OthersKept | src/service/InMemoryTaskManager.java:103-134 | changing one subtask keeps the other epics listing stored subtasks and settled |
| Legacy.PutKept | src/service/InMemoryTaskManager.java:183-210 | filing a settled epic keeps the invariants |
| Legacy.NotListed | src/service/InMemoryTaskManager.java:52-58 | an id not stored is listed by no epic |
| Legacy.AddLinkedKept | src/service/InMemoryTaskManager.java:52-58 | creating a subtask of an existing epic appends it and keeps the invariants |
| Legacy.AddKept | src/service/InMemoryTaskManager.java:52-58 | creating a subtask, with or without an existing epic, keeps the invariants |
| Legacy.ReplaceKept | src/service/InMemoryTaskManager.java:103-112 | updating a subtask and recomputing its epic keeps the invariants |
| Legacy.RemoveKept | src/service/InMemoryTaskManager.java:129-134 | deleting a subtask and recomputing its epic keeps the invariants |
| Legacy.RemoveEpicKept | src/service/InMemoryTaskManager.java:120-126 | deleting an epic with its listed subtasks keeps the invariants |
| Legacy.ListedStored | src/service/InMemoryTaskManager.java:152-162 | every id an epic lists is a stored subtask of that epic |
| Legacy.NewEpicKept | src/service/InMemoryTaskManager.java:44-49 | filing a new NEW epic keeps the invariants |
| Legacy.ClearedKept | src/service/InMemoryTaskManager.java:176-181 | after `clearSubTasks` the cleared epics satisfy the invariants |
| Legacy.LegacyManager.constructor | src/service/InMemoryTaskManager.java:28-30 | empty stores, counter 0, the given history |
| Legacy.LegacyManager.GenerateId | src/service/InMemoryTaskManager.java:32-34 | the counter is incremented and returned; the new id is in no store |
| Legacy.LegacyManager.Create | src/service/InMemoryTaskManager.java:37-41 | the task gets the next id and is filed; nothing else changes |
| Legacy.LegacyManager.CreateEpic | src/service/InMemoryTaskManager.java:44-49 | the epic gets the next id and is filed with the status the legacy loop computes over its list; NullPointer, after filing it as given, exactly when the loop reaches an id with no stored subtask; an epic listing nothing becomes NEW and the manager stays valid |
| Legacy.LegacyManager.CreateSubTask | src/service/InMemoryTaskManager.java:52-58 | the subtask gets the next id and is filed; its epic, if stored, lists it and is recomputed, otherwise no epic changes |
| Legacy.LegacyManager.Get | src/service/InMemoryTaskManager.java:61-65 | a stored task is returned and becomes the last history item; an absent id throws NullPointerException in the history |
| Legacy.LegacyManager.GetEpic | src/service/InMemoryTaskManager.java:68-72 | as `get`, on epics |
| Legacy.LegacyManager.GetSubTask | src/service/InMemoryTaskManager.java:75-79 | as `get`, on subtasks |
| Legacy.LegacyManager.Update | src/service/InMemoryTaskManager.java:82-90 | null exactly for an unknown id; otherwise only description, name and status change |
| Legacy.LegacyManager.UpdateEpic | src/service/InMemoryTaskManager.java:93-100 | null exactly for an unknown id; otherwise only name and description change |
| Legacy.LegacyManager.UpdateSubTask | src/service/InMemoryTaskManager.java:103-112 | null exactly for an unknown id; otherwise description, name and status change and the epic, if stored, is recomputed |
| Legacy.LegacyManager.Delete | src/service/InMemoryTaskManager.java:115-117 | the id leaves the store; the removed task or null is returned |
| Legacy.LegacyManager.DeleteEpic | src/service/InMemoryTaskManager.java:120-126 | an unknown epic throws NullPointerException; otherwise the epic and its listed subtasks are removed |
| Legacy.LegacyManager.RemoveEach | src/service/InMemoryTaskManager.java:122-124 | the loop removes each listed id from the subtask store |
| Legacy.LegacyManager.DeleteSubTask | src/service/InMemoryTaskManager.java:129-134 | an unknown id, or an unstored epic, throws NullPointerException; otherwise the subtask leaves its epic, which is recomputed |
| Legacy.LegacyManager.GetTasks | src/service/InMemoryTaskManager.java:137-139 | exactly the stored tasks, one element each |
| Legacy.LegacyManager.GetEpics | src/service/InMemoryTaskManager.java:142-144 | exactly the stored epics, one element each |
| Legacy.LegacyManager.GetSubtasks | src/service/InMemoryTaskManager.java:147-149 | exactly the stored subtasks, one element each |
| Legacy.LegacyManager.GetEpicSubtasks | src/service/InMemoryTaskManager.java:152-162 | null exactly for an unknown epic; otherwise its listed subtasks, all stored and all of that epic |
| Legacy.LegacyManager.ClearTasks | src/service/InMemoryTaskManager.java:165-167 | no task is left |
| Legacy.LegacyManager.ClearEpics | src/service/InMemoryTaskManager.java:170-173 | no epic or subtask is left |
| Legacy.LegacyManager.ClearSubTasks | src/service/InMemoryTaskManager.java:176-181 | no subtask is left; every epic keeps its fields but has an empty list and status NEW |
| Legacy.LegacyManager.ResetAll | src/service/InMemoryTaskManager.java:178-180 | every epic gets an empty list and status NEW |
| Legacy.LegacyManager.ListStatus | src/service/InMemoryTaskManager.java:187-209 | the loop with its early exit: NullPointer exactly when it reaches an unstored id before a differing status; over stored subtasks the all-same status rule; IN_PROGRESS when it stops early at a differing status |
| Legacy.LegacyManager.UpdateEpicStatus | src/service/InMemoryTaskManager.java:183-210 | null changes nothing; otherwise the epic gets the status the legacy rule derives |
| Legacy.LegacyManager.RemoveSubTaskFromEpic | src/service/InMemoryTaskManager.java:213-216 | the first occurrence of the id leaves the list and the status is recomputed |
| Legacy.LegacyManager.RemoveAllSubtasksFromEpic | src/service/InMemoryTaskManager.java:219-222 | empty list and status NEW |
| Legacy.LegacyManager.AddSubTaskToEpic | src/service/InMemoryTaskManager.java:225-234 | null epic: null and nothing changes; otherwise the id is appended if absent and the status recomputed |
| Legacy.LegacyManager.GetHistory | src/service/InMemoryTaskManager.java:237-239 | the history's items, in order |
| FileBacked.Fields | src/service/file/FileBackedTaskManager.java:92 | the comma-free pieces of a text; a text without a comma is one piece |
| FileBacked.FieldsJoin | src/service/file/FileBackedTaskManager.java:92 | joining the pieces with commas gives back the text |
| FileBacked.FieldsCons | src/service/file/FileBackedTaskManager.java:92 | a comma-free prefix is the first piece |
| FileBacked.JoinFields | src/service/file/FileBackedTaskManager.java:92 | splitting comma-free texts joined by commas gives back the texts |
| FileBacked.DropTrailingEmpty | src/service/file/FileBackedTaskManager.java:92 | `split` drops every trailing empty piece and only those |
| FileBacked.Split | src/service/file/FileBackedTaskManager.java:92 | `split(",")`: every piece is comma-free, and a text with a comma never ends in an empty piece |
| FileBacked.SplitLine | src/service/file/FileBackedTaskManager.java:92 | a written line with comma-free name and description splits into its eight field texts |
| FileBacked.ParseInt | src/service/file/FileBackedTaskManager.java:103-113 | `Integer.parseInt`: the decimal value when it fits in `int`, Malformed otherwise |
| FileBacked.ParseTime | src/service/file/FileBackedTaskManager.java:105 | `LocalDateTime.parse`: an instant between `MIN` and `MAX`, Malformed otherwise |
| FileBacked.NatTextValue | src/service/file/FileBackedTaskManager.java:103-113 | reading the written digits of a number gives the number |
| FileBacked.DecimalDigits | src/service/file/FileBackedTaskManager.java:113 | an unsigned digit run reads as its value |
| FileBacked.DecimalMinusDigits | src/service/file/FileBackedTaskManager.java:113 | a '-' and a digit run reads as the negated value |
| FileBacked.IntTextDecimal | src/service/file/FileBackedTaskManager.java:113 | the text of any integer reads back as that integer |
| FileBacked.ParseIntText | src/service/file/FileBackedTaskManager.java:113 | `parseInt(String.valueOf(n)) == n` for every `int` n |
| FileBacked.ParseTimeText | src/service/file/FileBackedTaskManager.java:105 | parsing a written instant in range gives it back |
| FileBacked.TypeOf | src/service/file/FileBackedTaskManager.java:95-99 | the type whose name the text is, exactly; NotFound otherwise |
| FileBacked.StatusOf | src/service/file/FileBackedTaskManager.java:104 | the status whose name the text is, exactly; Malformed otherwise |
| FileBacked.FromFieldsMeaning | src/service/file/FileBackedTaskManager.java:91-116 | which lines fail and how; an epic line yields a fresh epic with the name, description and id; a task or subtask line yields all eight fields, end == start + duration |
| FileBacked.FromFields | src/service/file/FileBackedTaskManager.java:93-115 | only NotFound or Malformed can fail a line; an entry read has an id and no subtask list, from at least five fields |
| FileBacked.FromString | src/service/file/FileBackedTaskManager.java:91-116 | a line fails only with NotFound or Malformed; an entry read has an id and no subtask list |
| FileBacked.ReadFields | src/service/file/FileBackedTaskManager.java:103-113 | eight well-formed task or subtask fields give the entry they describe |
| FileBacked.LineRead | src/service/file/FileBackedTaskManager.java:91-116 | reading the line of a task or subtask gives its fields, with end recomputed |
| FileBacked.ReadLineFields | src/service/file/FileBackedTaskManager.java:101-113 | reading the written field texts gives the entry back |
| FileBacked.LineFieldsParse | src/service/file/FileBackedTaskManager.java:96-113 | each written field parses back to the value written |
| FileBacked.LineRoundTrip | src/service/file/FileBackedTaskManager.java:91-116 | `fromString(toString(t))` compares all fields equal to t, and equals t for an unlinked task or subtask |
| FileBacked.EpicLineRoundTrip | src/service/file/FileBackedTaskManager.java:102 | an epic's line reads back as a fresh epic with its id, name and description |
| FileBacked.ReadEpicLineFields | src/service/file/FileBackedTaskManager.java:102 | the written fields of an epic read back as a fresh epic |
| FileBacked.ReadEpicFields | src/service/file/FileBackedTaskManager.java:102 | an epic line with a valid id reads as a fresh epic |
| FileBacked.ReadAll | src/service/file/FileBackedTaskManager.java:70-72 | a successful read yields one entry per line |
| FileBacked.ParseAll | src/service/file/FileBackedTaskManager.java:70-72 | parsing every data line yields one entry per line |
| FileBacked.ReadAllStep | src/service/file/FileBackedTaskManager.java:70-72 | reading one more line appends its entry |
| FileBacked.DataLines | src/service/file/FileBackedTaskManager.java:70 | the lines after the header, in order: one fewer than the file has |
| FileBacked.MaxIdStep | src/service/file/FileBackedTaskManager.java:74-76 | one more entry raises the counter to its id when larger |
| FileBacked.MaxId | src/service/file/FileBackedTaskManager.java:69-76 | the counter the restore reaches is at least 0 and at least every id read |
| FileBacked.IdsOf | src/service/file/FileBackedTaskManager.java:78-82 | the ids of the entries of one class: every such id, and only those |
| FileBacked.KeysReadStep | src/service/file/FileBackedTaskManager.java:72-82 | restoring one more entry keeps each store's ids those of the entries read |
| FileBacked.AddOutcome | src/service/file/FileBackedTaskManager.java:118-151 | an id taken in its own class's store is AlreadyExists; an epic succeeds exactly when its id is free; a success never conflicts, and a subtask's epic is filed |
| FileBacked.Replay | src/service/file/FileBackedTaskManager.java:69-82 | the restore line by line: one entry per line on success; a failure is a parse error or a refusal |
| FileBacked.ReplayStep | src/service/file/FileBackedTaskManager.java:72-82 | one more line: its parse error, its refusal, or its entry filed and scheduled |
| FileBacked.ReplayStops | src/service/file/FileBackedTaskManager.java:70-82 | the first failing line decides the outcome; later lines are never read |
| FileBacked.ReplayParses | src/service/file/FileBackedTaskManager.java:70-72 | a successful replay parsed every line into the entries it filed; a parse failure fails the replay |
| FileBacked.MaxIdIsLargest | src/service/file/FileBackedTaskManager.java:69-76 | the restored counter is at least 0 and every id read, and is 0 or one of them |
| FileBacked.RestoredGrown | src/service/file/FileBackedTaskManager.java:78-82 | an entry once restored stays restored while later lines are filed |
| FileBacked.GrownByAdd | src/service/file/FileBackedTaskManager.java:118-151 | filing a new task, epic or subtask only grows the stores |
| FileBacked.FileBackedManager.constructor | src/service/file/FileBackedTaskManager.java:33-35 | the base manager starts empty with the given history |
| FileBacked.FileBackedManager.Add | src/service/file/FileBackedTaskManager.java:118-128 | an existing id: AlreadyExists; a conflict: TimeConflict; otherwise the task is filed as read and scheduled |
| FileBacked.FileBackedManager.AddEpic | src/service/file/FileBackedTaskManager.java:130-137 | an existing id: AlreadyExists; otherwise the epic is filed recomputed (NEW, 0 minutes, start `MIN`) |
| FileBacked.FileBackedManager.AddSubTask | src/service/file/FileBackedTaskManager.java:139-151 | AlreadyExists, then TimeConflict; otherwise the subtask is filed and scheduled; an unknown epic then fails NotFound; a known one lists it, is recomputed and is viewed |
| FileBacked.FileBackedManager.LinkSubTask | src/service/file/FileBackedTaskManager.java:144-150 | filing, scheduling and linking the subtask, recomputing its epic and viewing it |
| FileBacked.FileBackedManager.PutSubTask | src/service/file/FileBackedTaskManager.java:144-148 | the subtask is filed and scheduled, and linking it keeps the invariants |
| FileBacked.FileBackedManager.LinkViewed | src/service/file/FileBackedTaskManager.java:149-150 | the epic lists the subtask, is recomputed and becomes the last history item |
| FileBacked.FileBackedManager.Restore | src/service/file/FileBackedTaskManager.java:74-82 | the counter is raised to the id; the outcome is exactly `AddOutcome` of the stores before it (AlreadyExists, TimeConflict, NotFound or success, by class); on success the entry is restored, exactly its id is added to the store of its class, and a task or subtask is scheduled |
| FileBacked.FileBackedManager.RestoreNext | src/service/file/FileBackedTaskManager.java:72-82 | the outcome is exactly `AddOutcome`; on success entries restored earlier stay restored, the new one is restored too, and only its id is added |
| FileBacked.FileBackedManager.Raise | src/service/file/FileBackedTaskManager.java:74-76 | the counter becomes the larger of itself and the id |
| FileBacked.FileBackedManager.RestoreTask | src/service/file/FileBackedTaskManager.java:81 | a task line is filed by `add`: AlreadyExists when its id is a stored task, then TimeConflict, otherwise success adding exactly its id and scheduling it |
| FileBacked.FileBackedManager.RestoreEpic | src/service/file/FileBackedTaskManager.java:79 | an epic line is filed by `addEpic`: AlreadyExists when its id is a stored epic, otherwise success adding exactly its id |
| FileBacked.FileBackedManager.RestoreSubTask | src/service/file/FileBackedTaskManager.java:80 | a subtask line is filed by `addSubTask`: AlreadyExists, then TimeConflict, then NotFound for a missing epic, otherwise success adding exactly its id and scheduling it |
| FileBacked.FileBackedManager.ReadFromFile | src/service/file/FileBackedTaskManager.java:61-85 | succeeds exactly when `Replay` of the data lines does, and otherwise fails with the error of the first line that does not parse or is refused; on success each entry is restored in its store, each store holds exactly the ids read of its class, and the counter is the largest id read |

## Left out

- Reading and writing the file (`Files.readAllLines`, `save`, `ManagerIOException`). The restore starts from the file's lines. `save` and the overriding manager methods that call it are not modelled.
- The HTTP server, `Managers` and `Main` are not part of this model.
- `LocalDateTime` text. Instants are whole minutes, and their text is the decimal minute count. It is injective and round-trips like ISO-8601, but the characters differ from the real format. Seconds and nanoseconds are not modelled.
- `Integer.parseInt` accepts non-ASCII Unicode digits. The model reads ASCII digits only.
- Null start times. The code guards `getStartTime() != null`, but no constructor can produce a null start, so every entry has one.
- Object identity and aliasing. Stores, schedule and history hold field values, not shared objects. In the source, the history and the schedule see later changes to a stored object; in the model they keep the value they were given. For example, `updateSubTask` views the epic before recomputing it.
- `HashMap` iteration order. `getTasks`, `getEpics`, `getSubtasks` and the clearing loops are modelled in ascending key order. Their contracts promise only the set of elements.
- `FileBackedTaskManager` extends the in-memory manager. The model composes one (`base`) instead.
- Memory.TaskManager.GenerateId: the counter does not wrap around at 2^31. An overflow needs 2^31 creations.
- Legacy.LegacyManager.GenerateId: does not model the same wrap-around.
- FileBacked.FileBackedManager.Add: requires the id to be at most the counter. `readFromFile` raises the counter before it calls `add`, which is the only caller. The same holds for `AddEpic` and `AddSubTask`.
- FileBacked.FileBackedManager.AddSubTask: on the NotFound path, the subtask stays filed without an epic, as in the source. `Valid()` is therefore not promised there.
- FileBacked.FileBackedManager.ReadFromFile: requires empty stores, as in the constructor, the only caller. It states which error a failed line gives, but not the state the manager is left in. The source throws there, and the manager is never returned.
- FileBacked.FileBackedManager.Restore: on failure it promises the error and the raised counter, but not the rest of the state, as the source throws.
- History.HistoryManager.Add: requires a task with an id. `remove(task.getId())` unboxes it, so a null id throws NullPointerException.
- Memory.TaskManager.UpdateEpicStatus: requires the epic's subtasks to be stored. A missing one would throw NullPointerException in the loop, and the manager invariant rules it out. The same applies to `UpdateEpicWithSubtasks`, `RemoveSubTaskFromEpic` and `AddSubTaskToEpic`.
- Legacy.LegacyManager.UpdateEpicStatus: requires the listed subtasks to be stored, as above. `RemoveSubTaskFromEpic` and `AddSubTaskToEpic` do too.
- Legacy.LegacyManager.CreateSubTask: `SubTask.getEpic()` is not part of this model. It is read as the lookup of the epic id in the epic store.
- Model.Entry.WithDuration: the end time `startTime.plus(duration)` is unbounded minute arithmetic. `LocalDateTime.plus` throws DateTimeException when the end leaves the range from `MIN` to `MAX`, and that exception is not modelled. The same holds for `Model.Entry.WithStartTime`, `Model.Task.SetDuration`, `Model.Task.SetStartTime` and the `Model.Task` constructors.
- Memory.CopyFields: does not model the DateTimeException of an out-of-range end, for the same reason.
- Memory.TaskManager.Update: does not model a DateTimeException thrown by the setters. In the source such a throw leaves the task already removed from the schedule (src/service/memory/InMemoryTaskManager.java:116).
- Memory.TaskManager.UpdateSubTask: does not model a DateTimeException thrown by the setters, as for `Update`.
- Memory.TaskManager.CreateEpic: `Valid()` is promised only for an epic that lists no subtasks, as every new epic does. An epic that arrives with a list is filed as the source files it, which can break the ownership invariant.
- Legacy.LegacyManager.CreateEpic: `Valid()` is promised only for an epic that lists no subtasks, as above.
- Memory.TaskManager.Delete: uses the corrected removal from the schedule. See Findings.
- Memory.TaskManager.DeleteSubTask: uses the corrected removal from the schedule. See Findings.

## Findings

| source | as written | input that shows it | evidently intended | confidence | as-written member | corrected member |
|---|---|---|---|---|---|---|
| src/service/memory/InMemoryTaskManager.java:164-169 | `delete` passes the result of `tasks.remove(id)` to `prioritizedTasks.remove`. For an absent id that is null. The start-time comparator dereferences it whenever the set is non-empty. | `delete(99)` with no task 99 while one task with a start time is prioritized | deleting an absent id returns null and changes nothing | not executed | Schedule.RemoveNullThrows | Schedule.RemoveIfPresent |
| src/service/memory/InMemoryTaskManager.java:185-194 | `deleteSubTask` passes the null result of `subTasks.remove(id)` for an absent id to `prioritizedTasks.remove` in the same way (line 187) | `deleteSubTask(99)` with no subtask 99 while one task is prioritized | deleting an absent subtask returns null and changes nothing | not executed | Schedule.RemoveAsWritten | Schedule.RemoveIfPresent |
