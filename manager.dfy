/** `InMemoryTaskManager` (package `service.memory`): three id-keyed stores, an id
    counter, the start-ordered schedule and a history manager. The stores hold
    entry values; an operation that the source performs through setters on a
    stored object replaces the stored value by the updated one. */
module Memory {
  import opened Types
  import opened Model
  import opened History
  import opened Aggregation
  import opened Stores
  import Schedule

  /** The five setters `update` and `updateSubTask` apply to the stored entry:
      name, description, status, duration and start are taken from `from`, the
      identity, class, epic and subtask list stay those of `saved`, and for a task
      or subtask the end is recomputed from the new start and duration. */
  function CopyFields(saved: Entry, from: Entry): (r: Entry)
    ensures r.id == saved.id && r.kind == saved.kind && r.epicId == saved.epicId
    ensures r.subTasksIds == saved.subTasksIds
    ensures r.name == from.name && r.description == from.description && r.taskStatus == from.taskStatus
    ensures r.duration == from.duration && r.startTime == from.startTime
    ensures saved.kind != EPIC ==> r.endTime == from.startTime + from.duration
  {
    saved.(description := from.description).(name := from.name).(taskStatus := from.taskStatus)
      .WithDuration(from.duration).WithStartTime(from.startTime)
  }

  /** The start times of the entries of `store` listed in `ids`. */
  ghost function StartsOf(store: map<int, Entry>, ids: set<int>): set<Minutes>
  {
    set x | x in ids && x in store :: store[x].startTime
  }

  /** The schedule after removing the entries of `store` listed in `ids`, one
      after the other. */
  function Dropped(p: map<Minutes, Entry>, store: map<int, Entry>, ids: seq<int>): map<Minutes, Entry>
    requires forall j :: 0 <= j < |ids| ==> ids[j] in store
  {
    if ids == [] then p else Schedule.Remove(Dropped(p, store, ids[..|ids| - 1]), store[ids[|ids| - 1]])
  }

  /** Removing the listed entries one by one removes exactly their start times
      and keeps the schedule's other entries. */
  lemma {:induction false} DroppedStarts(p: map<Minutes, Entry>, store: map<int, Entry>, ids: seq<int>)
    requires forall j :: 0 <= j < |ids| ==> ids[j] in store
    ensures Dropped(p, store, ids) == p - StartsOf(store, Elems(ids))
  {
    if ids != [] {
      var init := ids[..|ids| - 1];
      DroppedStarts(p, store, init);
      var last := ids[|ids| - 1];
      assert ids == init + [last];
      assert Elems(ids) == Elems(init) + {last};
      assert StartsOf(store, Elems(ids)) == StartsOf(store, Elems(init)) + {store[last].startTime};
    }
  }

  /** The history after removing the listed ids one by one. */
  ghost function Forgotten(ns: seq<Node>, ids: seq<int>): seq<Node>
  {
    if ids == [] then ns else Without(Forgotten(ns, ids[..|ids| - 1]), {ids[|ids| - 1]})
  }

  /** Removing the listed ids one by one removes all of them at once. */
  lemma {:induction false} ForgottenAll(ns: seq<Node>, ids: seq<int>)
    ensures Forgotten(ns, ids) == Without(ns, Elems(ids))
  {
    if ids == [] {
      WithoutMembers(ns, {});
      assert Elems(ids) == {};
    } else {
      var init := ids[..|ids| - 1];
      ForgottenAll(ns, init);
      WithoutTwice(ns, Elems(init), {ids[|ids| - 1]});
      assert ids == init + [ids[|ids| - 1]];
      assert Elems(ids) == Elems(init) + {ids[|ids| - 1]};
    }
  }

  /** The store after removing the listed ids one by one. */
  function Pruned(store: map<int, Entry>, ids: seq<int>): map<int, Entry>
  {
    if ids == [] then store else Pruned(store, ids[..|ids| - 1]) - {ids[|ids| - 1]}
  }

  /** Removing the listed ids one by one removes all of them at once. */
  lemma {:induction false} PrunedAll(store: map<int, Entry>, ids: seq<int>)
    ensures Pruned(store, ids) == store - Elems(ids)
  {
    if ids != [] {
      var init := ids[..|ids| - 1];
      PrunedAll(store, init);
      assert ids == init + [ids[|ids| - 1]];
      assert Elems(ids) == Elems(init) + {ids[|ids| - 1]};
    }
  }

  /** Removing, one by one, ids that are exactly the members of `keys`. */
  lemma ForgottenKeys(ns: seq<Node>, ids: seq<int>, keys: set<int>)
    requires forall x :: x in keys <==> x in ids
    ensures Forgotten(ns, ids) == Without(ns, keys)
  {
    ForgottenAll(ns, ids);
    forall x | x in keys ensures x in Elems(ids) {
      assert x in ids;
    }
    forall x | x in Elems(ids) ensures x in keys {
      assert x in ids;
    }
    assert Elems(ids) == keys;
  }

  /** Removing, one by one, the entries of all of a store's keys drops exactly
      their start times. */
  lemma DroppedAll(p: map<Minutes, Entry>, store: map<int, Entry>, ids: seq<int>)
    requires forall j :: 0 <= j < |ids| ==> ids[j] in store
    requires forall x :: x in store ==> x in ids
    ensures Dropped(p, store, ids) == p - StartsOf(store, store.Keys)
  {
    DroppedStarts(p, store, ids);
    forall x | x in Elems(ids) ensures x in store {
      var j :| 0 <= j < |ids| && ids[j] == x;
    }
    forall x | x in store.Keys ensures x in Elems(ids) {
      assert x in ids;
    }
    assert Elems(ids) == store.Keys;
  }

  class TaskManager {
    var newTaskId: int
    var tasks: map<int, Entry>
    var epics: map<int, Entry>
    var subTasks: map<int, Entry>
    var prioritized: map<Minutes, Entry>
    const historyManager: HistoryManager

    /** Each store holds its own class of entry under the entry's id, no id is
        above the counter, the schedule is keyed by start and holds no epic, each
        epic lists exactly its stored subtasks, and each epic is as its
        recomputation leaves it. */
    ghost predicate Valid()
      reads this
    {
      && Filed(tasks, TASK, newTaskId)
      && Filed(epics, EPIC, newTaskId)
      && Filed(subTasks, SUBTASK, newTaskId)
      && Scheduled(prioritized)
      && Owns(epics, subTasks)
      && Consistent(epics, subTasks)
    }

    /** `new InMemoryTaskManager(historyManager)`. */
    constructor (historyManager: HistoryManager)
      ensures Valid() && this.historyManager == historyManager
      ensures newTaskId == 0 && tasks == map[] && epics == map[] && subTasks == map[]
      ensures prioritized == map[]
    {
      newTaskId := 0;
      tasks := map[];
      epics := map[];
      subTasks := map[];
      prioritized := map[];
      this.historyManager := historyManager;
    }

    /** `generateId()`: the pre-incremented counter, an id no store uses yet. */
    method GenerateId() returns (id: int)
      requires Valid()
      modifies this`newTaskId
      ensures Valid()
      ensures id == newTaskId == old(newTaskId) + 1
      ensures id !in tasks && id !in epics && id !in subTasks
    {
      newTaskId := newTaskId + 1;
      id := newTaskId;
    }

    /** `create(task)`: refused when its window crosses a prioritized entry;
        otherwise filed under a new id and prioritized. */
    method Create(task: Entry) returns (r: Result<Entry>)
      requires Valid() && task.kind == TASK
      modifies this`newTaskId, this`tasks, this`prioritized
      ensures Valid()
      ensures Schedule.Conflicts(old(prioritized), task) ==> r == Err(TimeConflict) && unchanged(this)
      ensures !Schedule.Conflicts(old(prioritized), task) ==>
        && newTaskId == old(newTaskId) + 1
        && newTaskId !in old(tasks) && newTaskId !in epics && newTaskId !in subTasks
        && r == Ok(task.(id := Some(newTaskId)))
        && tasks == old(tasks)[newTaskId := r.value]
        && epics == old(epics) && subTasks == old(subTasks)
        && prioritized == Schedule.Add(old(prioritized), r.value)
    {
      if Schedule.CheckTaskTime(prioritized, task).Fail? {
        return Err(TimeConflict);
      }
      var id := GenerateId();
      var t := task.(id := Some(id));
      tasks := tasks[id := t];
      ScheduledAdd(prioritized, t);
      prioritized := Schedule.Add(prioritized, t);
      r := Ok(t);
    }

    /** `createEpic(epic)`: filed under a new id, then recomputed. A new epic
        lists no subtasks, which makes it NEW, of zero duration, starting at
        `LocalDateTime.MIN`. An epic that arrives with a list is aggregated
        over it; a listed id with no stored subtask throws a
        NullPointerException in the loop, after the epic is filed as given.
        Only an epic that lists nothing is sure to keep the manager valid. */
    method CreateEpic(epic: Entry) returns (r: Result<Entry>)
      requires Valid() && epic.kind == EPIC
      modifies this`newTaskId, this`epics
      ensures newTaskId == old(newTaskId) + 1 && newTaskId !in old(epics)
      ensures ListedIn(epic.subTasksIds, subTasks) ==>
        && r == Ok(Aggregate(epic.(id := Some(newTaskId)), subTasks))
        && epics == old(epics)[newTaskId := r.value]
      ensures !ListedIn(epic.subTasksIds, subTasks) ==>
        r == Err(NullPointer) && epics == old(epics)[newTaskId := epic.(id := Some(newTaskId))]
      ensures epic.subTasksIds == [] ==>
        && Valid() && r.Ok?
        && r.value.taskStatus == NEW && r.value.duration == 0 && r.value.startTime == MIN_TIME
        && r.value.endTime == epic.endTime
    {
      var id := GenerateId();
      var e := epic.(id := Some(id));
      if !ListedIn(e.subTasksIds, subTasks) {
        epics := epics[id := e];
        return Err(NullPointer);
      }
      if e.subTasksIds == [] {
        NewEpicOwns(epics, subTasks, id, Aggregate(e, subTasks));
        NewEpicConsistent(epics, subTasks, id, e);
        AggregateStatus(e, subTasks);
      }
      epics := epics[id := e];
      UpdateEpicStatus(id);
      r := Ok(epics[id]);
    }

    /** `createSubTask(subTask)`: NotFound when its epic is not stored,
        refused on a time conflict; otherwise filed under a new id, prioritized,
        appended to its epic's list and the epic recomputed. */
    method CreateSubTask(subTask: Entry) returns (r: Result<Entry>)
      requires Valid() && subTask.kind == SUBTASK
      modifies this`newTaskId, this`subTasks, this`prioritized, this`epics
      ensures Valid()
      ensures subTask.epicId !in old(epics) ==> r == Err(NotFound) && unchanged(this)
      ensures subTask.epicId in old(epics) && Schedule.Conflicts(old(prioritized), subTask) ==>
        r == Err(TimeConflict) && unchanged(this)
      ensures subTask.epicId in old(epics) && !Schedule.Conflicts(old(prioritized), subTask) ==>
        var e := subTask.epicId;
        && newTaskId == old(newTaskId) + 1 && newTaskId !in old(subTasks)
        && r == Ok(subTask.(id := Some(newTaskId)))
        && subTasks == old(subTasks)[newTaskId := r.value]
        && prioritized == Schedule.Add(old(prioritized), r.value)
        && Link(old(epics[e]), newTaskId).subTasksIds == old(epics[e].subTasksIds) + [newTaskId]
        && ListedIn(Link(old(epics[e]), newTaskId).subTasksIds, subTasks)
        && epics == old(epics)[e := Aggregate(Link(old(epics[e]), newTaskId), subTasks)]
    {
      if subTask.epicId !in epics {
        return Err(NotFound);
      }
      if Schedule.CheckTaskTime(prioritized, subTask).Fail? {
        return Err(TimeConflict);
      }
      var id := GenerateId();
      var st := subTask.(id := Some(id));
      FileSubTask(st);
      r := Ok(st);
    }

    /** The part of `createSubTask` after the id is assigned: the subtask is
        filed, prioritized, appended to its epic's list and the epic recomputed
        (once by `addSubTaskToEpic`, once more by `createSubTask` itself). */
    method FileSubTask(st: Entry)
      requires Valid() && st.kind == SUBTASK && st.id == Some(newTaskId)
      requires st.epicId in epics && newTaskId !in subTasks
      modifies this`subTasks, this`prioritized, this`epics
      ensures Valid()
      ensures subTasks == old(subTasks)[newTaskId := st]
      ensures prioritized == Schedule.Add(old(prioritized), st)
      ensures Link(old(epics[st.epicId]), newTaskId).subTasksIds == old(epics[st.epicId].subTasksIds) + [newTaskId]
      ensures ListedIn(Link(old(epics[st.epicId]), newTaskId).subTasksIds, subTasks)
      ensures epics == old(epics)[st.epicId := Aggregate(Link(old(epics[st.epicId]), newTaskId), subTasks)]
    {
      LinkKeeps(epics, subTasks, newTaskId, st);
      subTasks := subTasks[newTaskId := st];
      ScheduledAdd(prioritized, st);
      prioritized := Schedule.Add(prioritized, st);
      var _ := AddSubTaskToEpic(Some(st.epicId), st);
      UpdateEpicStatus(st.epicId);
    }

    /** `get(id)`: NotFound when absent; otherwise the task, which the history
        records as the most recent view. */
    method Get(id: int) returns (r: Result<Entry>)
      requires historyManager.Valid() && Filed(tasks, TASK, newTaskId)
      modifies historyManager, historyManager.Spine
      ensures historyManager.Valid()
      ensures id !in tasks ==> r == Err(NotFound) && unchanged(historyManager)
      ensures id in tasks ==> r == Ok(tasks[id]) && historyManager.AddedLast(id, tasks[id])
    {
      if id !in tasks {
        return Err(NotFound);
      }
      historyManager.Add(tasks[id]);
      r := Ok(tasks[id]);
    }

    /** `getEpic(id)`, as `get` over the epics. */
    method GetEpic(id: int) returns (r: Result<Entry>)
      requires historyManager.Valid() && Filed(epics, EPIC, newTaskId)
      modifies historyManager, historyManager.Spine
      ensures historyManager.Valid()
      ensures id !in epics ==> r == Err(NotFound) && unchanged(historyManager)
      ensures id in epics ==> r == Ok(epics[id]) && historyManager.AddedLast(id, epics[id])
      ensures fresh(historyManager.Spine - old(historyManager.Spine)) && old(historyManager.Spine) <= historyManager.Spine
    {
      if id !in epics {
        return Err(NotFound);
      }
      historyManager.Add(epics[id]);
      r := Ok(epics[id]);
    }

    /** `getSubTask(id)`, as `get` over the subtasks. */
    method GetSubTask(id: int) returns (r: Result<Entry>)
      requires historyManager.Valid() && Filed(subTasks, SUBTASK, newTaskId)
      modifies historyManager, historyManager.Spine
      ensures historyManager.Valid()
      ensures id !in subTasks ==> r == Err(NotFound) && unchanged(historyManager)
      ensures id in subTasks ==> r == Ok(subTasks[id]) && historyManager.AddedLast(id, subTasks[id])
    {
      if id !in subTasks {
        return Err(NotFound);
      }
      historyManager.Add(subTasks[id]);
      r := Ok(subTasks[id]);
    }

    /** `update(task)`: refused on a time conflict with an entry other than the
        task itself, NotFound when no task has its id; otherwise the stored task
        takes the new fields and is rescheduled under its new start. */
    method Update(task: Entry) returns (r: Result<Entry>)
      requires Valid()
      modifies this`tasks, this`prioritized
      ensures Valid()
      ensures Schedule.Conflicts(old(prioritized), task) ==> r == Err(TimeConflict) && unchanged(this)
      ensures !Schedule.Conflicts(old(prioritized), task) && (task.id.None? || task.id.value !in old(tasks)) ==>
        r == Err(NotFound) && unchanged(this)
      ensures !Schedule.Conflicts(old(prioritized), task) && task.id.Some? && task.id.value in old(tasks) ==>
        var saved := old(tasks[task.id.value]);
        && r == Ok(CopyFields(saved, task))
        && tasks == old(tasks)[task.id.value := r.value]
        && prioritized == Schedule.Add(Schedule.Remove(old(prioritized), saved), r.value)
    {
      if Schedule.CheckTaskTime(prioritized, task).Fail? {
        return Err(TimeConflict);
      }
      if task.id.None? || task.id.value !in tasks {
        return Err(NotFound);
      }
      var saved := tasks[task.id.value];
      FiledAt(tasks, TASK, newTaskId, task.id.value);
      ScheduledMinus(prioritized, {saved.startTime});
      prioritized := Schedule.Remove(prioritized, saved);
      saved := CopyFields(saved, task);
      tasks := tasks[task.id.value := saved];
      ScheduledAdd(prioritized, saved);
      prioritized := Schedule.Add(prioritized, saved);
      r := Ok(saved);
    }

    /** `updateEpic(epic)`: NotFound when no epic has its id; otherwise only the
        stored epic's name and description change. */
    method UpdateEpic(epic: Entry) returns (r: Result<Entry>)
      requires Valid()
      modifies this`epics
      ensures Valid()
      ensures epic.id.None? || epic.id.value !in old(epics) ==> r == Err(NotFound) && unchanged(this)
      ensures epic.id.Some? && epic.id.value in old(epics) ==>
        && r == Ok(old(epics[epic.id.value]).(name := epic.name, description := epic.description))
        && epics == old(epics)[epic.id.value := r.value]
    {
      if epic.id.None? || epic.id.value !in epics {
        return Err(NotFound);
      }
      var id := epic.id.value;
      RenameConsistent(epics, subTasks, id, epic.name, epic.description);
      var saved := epics[id].(name := epic.name, description := epic.description);
      RenameOwns(epics, subTasks, id, saved);
      epics := epics[id := saved];
      r := Ok(saved);
    }

    /** `updateSubTask(subTask)`: refused on a time conflict, NotFound when no
        subtask has its id; otherwise the stored subtask takes the new fields and
        leaves the schedule, the argument itself is scheduled, the epic is looked
        up through `getEpic` (so the history records it) and recomputed. */
    method UpdateSubTask(subTask: Entry) returns (r: Result<Entry>)
      requires Valid() && historyManager.Valid() && subTask.kind == SUBTASK
      modifies this`subTasks, this`prioritized, this`epics, historyManager, historyManager.Spine
      ensures Valid() && historyManager.Valid()
      ensures Schedule.Conflicts(old(prioritized), subTask) ==>
        r == Err(TimeConflict) && unchanged(this) && unchanged(historyManager)
      ensures !Schedule.Conflicts(old(prioritized), subTask) && (subTask.id.None? || subTask.id.value !in old(subTasks)) ==>
        r == Err(NotFound) && unchanged(this) && unchanged(historyManager)
      ensures !Schedule.Conflicts(old(prioritized), subTask) && subTask.id.Some? && subTask.id.value in old(subTasks) ==>
        var saved := old(subTasks[subTask.id.value]);
        var e := saved.epicId;
        && r == Ok(CopyFields(saved, subTask))
        && subTasks == old(subTasks)[subTask.id.value := r.value]
        && prioritized == Schedule.Add(Schedule.Remove(old(prioritized), saved), subTask)
        && e in old(epics) && ListedIn(old(epics[e]).subTasksIds, subTasks)
        && epics == old(epics)[e := Aggregate(old(epics[e]), subTasks)]
        && historyManager.AddedLast(e, old(epics[e]))
    {
      if Schedule.CheckTaskTime(prioritized, subTask).Fail? {
        return Err(TimeConflict);
      }
      if subTask.id.None? || subTask.id.value !in subTasks {
        return Err(NotFound);
      }
      var id := subTask.id.value;
      var saved := subTasks[id];
      ReplaceKeeps(epics, subTasks, id, CopyFields(saved, subTask));
      prioritized := Schedule.Remove(prioritized, saved);
      saved := CopyFields(saved, subTask);
      subTasks := subTasks[id := saved];
      ScheduledAdd(prioritized, subTask);
      prioritized := Schedule.Add(prioritized, subTask);
      RecomputeViewed(saved.epicId);
      r := Ok(saved);
    }

    /** `delete(id)`: the id leaves the history and the task store; the removed
        task, if there was one, leaves the schedule. */
    method Delete(id: int) returns (r: Option<Entry>)
      requires Valid() && historyManager.Valid()
      modifies this`tasks, this`prioritized, historyManager, historyManager.Spine
      ensures Valid() && historyManager.Valid()
      ensures historyManager.Nodes == Without(old(historyManager.Nodes), {id})
      ensures id !in tasks
      ensures id in old(tasks) ==>
        r == Some(old(tasks[id])) && tasks == old(tasks) - {id}
        && prioritized == Schedule.Remove(old(prioritized), old(tasks[id]))
      ensures id !in old(tasks) ==> r == None && tasks == old(tasks) && prioritized == old(prioritized)
    {
      historyManager.Remove(id);
      var removed := if id in tasks then Some(tasks[id]) else None;
      tasks := tasks - {id};
      prioritized := Schedule.RemoveIfPresent(prioritized, removed);
      r := removed;
    }

    /** `deleteEpic(id)`: the epic leaves its store and the history; if it was
        stored, every subtask it lists leaves the subtask store and the history,
        which removes exactly the subtasks naming it. The schedule is left as it
        is. */
    method DeleteEpic(id: int) returns (r: Option<Entry>)
      requires Valid() && historyManager.Valid()
      modifies this`epics, this`subTasks, historyManager, historyManager.Spine
      ensures Valid() && historyManager.Valid()
      ensures id !in epics
      ensures id !in old(epics) ==>
        && r == None && epics == old(epics) && subTasks == old(subTasks)
        && historyManager.Nodes == Without(old(historyManager.Nodes), {id})
      ensures id in old(epics) ==>
        && r == Some(old(epics[id])) && epics == old(epics) - {id}
        && subTasks == old(subTasks) - Elems(old(epics[id].subTasksIds))
        && (forall s :: s in subTasks <==> s in old(subTasks) && old(subTasks[s]).epicId != id)
        && historyManager.Nodes == Without(old(historyManager.Nodes), {id} + Elems(old(epics[id].subTasksIds)))
    {
      var epic := if id in epics then Some(epics[id]) else None;
      epics := epics - {id};
      historyManager.Remove(id);
      if epic.None? {
        assert epics == old(epics);
        return None;
      }
      DropSubtasksOf(epic.value, old(epics));
      WithoutTwice(old(historyManager.Nodes), {id}, Elems(epic.value.subTasksIds));
      r := epic;
    }

    /** The loop of `deleteEpic` over the removed epic's list: each listed
        subtask leaves its store and the history. */
    method DropSubtasksOf(epic: Entry, ghost e0: map<int, Entry>)
      requires historyManager.Valid()
      requires Filed(tasks, TASK, newTaskId) && Filed(e0, EPIC, newTaskId) && Filed(subTasks, SUBTASK, newTaskId)
      requires Scheduled(prioritized) && Owns(e0, subTasks) && Consistent(e0, subTasks)
      requires epic.id.Some? && epic.id.value in e0 && e0[epic.id.value] == epic && epics == e0 - {epic.id.value}
      modifies this`subTasks, historyManager, historyManager.Spine
      ensures Valid() && historyManager.Valid()
      ensures subTasks == old(subTasks) - Elems(epic.subTasksIds)
      ensures forall s :: s in subTasks <==> s in old(subTasks) && old(subTasks[s]).epicId != epic.id.value
      ensures historyManager.Nodes == Without(old(historyManager.Nodes), Elems(epic.subTasksIds))
    {
      RemoveEpicKeeps(e0, subTasks, epic.id.value);
      ForgetListed(epic.subTasksIds);
      PrunedAll(old(subTasks), epic.subTasksIds);
      ForgottenAll(old(historyManager.Nodes), epic.subTasksIds);
    }

    /** One step of that loop: the subtask leaves its store and the history. */
    method ForgetSubTask(id: int)
      requires historyManager.Valid()
      modifies this`subTasks, historyManager, historyManager.Spine
      ensures historyManager.Valid() && historyManager.Spine == old(historyManager.Spine)
      ensures subTasks == old(subTasks) - {id}
      ensures historyManager.Nodes == Without(old(historyManager.Nodes), {id})
    {
      subTasks := subTasks - {id};
      historyManager.Remove(id);
    }

    /** The loop itself, over the list in order. */
    method ForgetListed(ids: seq<int>)
      requires historyManager.Valid()
      modifies this`subTasks, historyManager, historyManager.Spine
      ensures historyManager.Valid() && historyManager.Spine == old(historyManager.Spine)
      ensures subTasks == Pruned(old(subTasks), ids)
      ensures historyManager.Nodes == Forgotten(old(historyManager.Nodes), ids)
    {
      var k := 0;
      while k < |ids|
        invariant 0 <= k <= |ids|
        invariant historyManager.Valid() && historyManager.Spine == old(historyManager.Spine)
        invariant subTasks == Pruned(old(subTasks), ids[..k])
        invariant historyManager.Nodes == Forgotten(old(historyManager.Nodes), ids[..k])
      {
        ForgetSubTask(ids[k]);
        assert ids[..k + 1][..k] == ids[..k];
        k := k + 1;
      }
      assert ids[..k] == ids;
    }

    /** `deleteSubTask(id)`: the subtask leaves its store, the schedule (when it
        was stored) and the history; if it was stored, it is dropped from its
        epic's list and the epic, looked up twice through `getEpic`, is
        recomputed. */
    method DeleteSubTask(id: int) returns (r: Option<Entry>)
      requires Valid() && historyManager.Valid()
      modifies this`subTasks, this`prioritized, this`epics, historyManager, historyManager.Spine
      ensures Valid() && historyManager.Valid()
      ensures id !in subTasks
      ensures id !in old(subTasks) ==>
        && r == None && subTasks == old(subTasks) && epics == old(epics) && prioritized == old(prioritized)
        && historyManager.Nodes == Without(old(historyManager.Nodes), {id})
      ensures id in old(subTasks) ==>
        var st := old(subTasks[id]);
        var e := st.epicId;
        var ns := historyManager.Nodes;
        && r == Some(st) && subTasks == old(subTasks) - {id}
        && prioritized == Schedule.Remove(old(prioritized), st)
        && e in old(epics) && id !in Unlink(old(epics[e]), id).subTasksIds
        && ListedIn(Unlink(old(epics[e]), id).subTasksIds, subTasks)
        && epics == old(epics)[e := Aggregate(Unlink(old(epics[e]), id), subTasks)]
        && |ns| > 0 && ns == Without(old(historyManager.Nodes), {id, e}) + [ns[|ns| - 1]]
        && ns[|ns| - 1].key == e && ns[|ns| - 1].data == epics[e]
    {
      var subTask := if id in subTasks then Some(subTasks[id]) else None;
      subTasks := subTasks - {id};
      prioritized := Schedule.RemoveIfPresent(prioritized, subTask);
      historyManager.Remove(id);
      if subTask.None? {
        assert subTasks == old(subTasks);
        return None;
      }
      DetachSubTask(id, subTask.value.epicId, old(subTasks));
      WithoutTwice(old(historyManager.Nodes), {id}, {subTask.value.epicId});
      assert {id} + {subTask.value.epicId} == {id, subTask.value.epicId};
      r := subTask;
    }

    /** The rest of `deleteSubTask` once the subtask has left its store, the
        schedule and the history: the epic is looked up, the id dropped from its
        list and the epic recomputed, then looked up and recomputed again. The
        second lookup replaces the first in the history. */
    method DetachSubTask(id: int, e: int, ghost s0: map<int, Entry>)
      requires historyManager.Valid()
      requires Filed(tasks, TASK, newTaskId) && Filed(epics, EPIC, newTaskId) && Filed(s0, SUBTASK, newTaskId)
      requires Scheduled(prioritized) && Owns(epics, s0) && Consistent(epics, s0)
      requires id in s0 && s0[id].epicId == e && subTasks == s0 - {id}
      modifies this`epics, historyManager, historyManager.Spine
      ensures Valid() && historyManager.Valid()
      ensures e in old(epics) && id !in Unlink(old(epics[e]), id).subTasksIds
      ensures ListedIn(Unlink(old(epics[e]), id).subTasksIds, subTasks)
      ensures epics == old(epics)[e := Aggregate(Unlink(old(epics[e]), id), subTasks)]
      ensures var ns := historyManager.Nodes;
        && |ns| > 0 && ns == Without(old(historyManager.Nodes), {e}) + [ns[|ns| - 1]]
        && ns[|ns| - 1].key == e && ns[|ns| - 1].data == epics[e]
    {
      UnlinkKeeps(epics, s0, id);
      var epic := GetEpic(e);
      if epic.Err? {
        assert false;
      }
      ghost var h1 := historyManager.Nodes;
      RemoveSubTaskFromEpic(e, id);
      assert epics[e := Aggregate(epics[e], subTasks)] == epics;
      RecomputeViewed(e);
      AddedTwice(old(historyManager.Nodes), h1[|h1| - 1], historyManager.Nodes[|historyManager.Nodes| - 1], e);
    }

    /** `updateEpicStatus(getEpic(e))`, as `updateSubTask` and `deleteSubTask`
        end: the epic is recorded in the history as it is before the
        recomputation, then recomputed, which restores consistency. */
    method RecomputeViewed(e: int)
      requires historyManager.Valid()
      requires Filed(tasks, TASK, newTaskId) && Filed(epics, EPIC, newTaskId) && Filed(subTasks, SUBTASK, newTaskId)
      requires Scheduled(prioritized) && e in epics && ListedIn(epics[e].subTasksIds, subTasks)
      requires Owns(epics[e := Aggregate(epics[e], subTasks)], subTasks)
      requires Consistent(epics[e := Aggregate(epics[e], subTasks)], subTasks)
      modifies this`epics, historyManager, historyManager.Spine
      ensures Valid() && historyManager.Valid()
      ensures fresh(historyManager.Spine - old(historyManager.Spine)) && old(historyManager.Spine) <= historyManager.Spine
      ensures epics == old(epics)[e := Aggregate(old(epics[e]), subTasks)]
      ensures historyManager.AddedLast(e, old(epics[e]))
    {
      var epic := GetEpic(e);
      if epic.Err? {
        assert false;
      }
      UpdateEpicStatus(e);
    }

    /** `getTasks()`: the stored tasks, in increasing id order. */
    function GetTasks(): (r: seq<Entry>)
      reads this
      ensures |r| == |tasks| && forall t :: t in r <==> t in tasks.Values
    {
      InKeyOrder(tasks)
    }

    /** `getEpics()`: the stored epics, in increasing id order. */
    function GetEpics(): (r: seq<Entry>)
      reads this
      ensures |r| == |epics| && forall t :: t in r <==> t in epics.Values
    {
      InKeyOrder(epics)
    }

    /** `getSubtasks()`: the stored subtasks, in increasing id order. */
    function GetSubtasks(): (r: seq<Entry>)
      reads this
      ensures |r| == |subTasks| && forall t :: t in r <==> t in subTasks.Values
    {
      InKeyOrder(subTasks)
    }

    /** `getPrioritizedTasks()`: the schedule in start order. */
    function GetPrioritizedTasks(): (r: seq<Entry>)
      reads this
      ensures |r| == |prioritized| && forall t :: t in r <==> t in prioritized.Values
    {
      Schedule.InStartOrder(prioritized)
    }

    /** `getEpicSubtasks(id)`: NotFound when the epic is absent; otherwise the
        lookup of every listed id, in list order. */
    function GetEpicSubtasks(id: int): (r: Result<seq<Option<Entry>>>)
      reads this
      ensures id !in epics <==> r == Err(NotFound)
      ensures r.Ok? ==> r.value == Lookup(epics[id].subTasksIds, subTasks)
    {
      if id !in epics then Err(NotFound) else Ok(Lookup(epics[id].subTasksIds, subTasks))
    }

    /** The loop that `clearTasks`, `clearEpics` and `clearSubTasks` run over a
        store's values: each entry leaves the history by its id and the schedule
        by its start. */
    method ForgetAll(store: map<int, Entry>)
      requires historyManager.Valid() && Scheduled(prioritized)
      requires forall x :: x in store ==> store[x].id == Some(x)
      modifies this`prioritized, historyManager, historyManager.Spine
      ensures historyManager.Valid() && historyManager.Spine == old(historyManager.Spine)
      ensures Scheduled(prioritized)
      ensures prioritized == old(prioritized) - StartsOf(store, store.Keys)
      ensures historyManager.Nodes == Without(old(historyManager.Nodes), store.Keys)
    {
      var ids := KeyList(store.Keys);
      ForgetEach(store, ids);
      DroppedAll(old(prioritized), store, ids);
      ForgottenKeys(old(historyManager.Nodes), ids, store.Keys);
      ScheduledMinus(old(prioritized), StartsOf(store, store.Keys));
    }

    /** The loop of `clearEpics()` over the epics: each id leaves the history. */
    method ForgetHistory(keys: set<int>)
      requires historyManager.Valid()
      modifies historyManager, historyManager.Spine
      ensures historyManager.Valid() && historyManager.Spine == old(historyManager.Spine)
      ensures historyManager.Nodes == Without(old(historyManager.Nodes), keys)
    {
      var ids := KeyList(keys);
      ForgetIds(ids);
      ForgottenKeys(old(historyManager.Nodes), ids, keys);
    }

    /** The loop itself, over the keys in visiting order. */
    method ForgetEach(store: map<int, Entry>, ids: seq<int>)
      requires historyManager.Valid()
      requires forall j :: 0 <= j < |ids| ==> ids[j] in store && store[ids[j]].id == Some(ids[j])
      modifies this`prioritized, historyManager, historyManager.Spine
      ensures historyManager.Valid() && historyManager.Spine == old(historyManager.Spine)
      ensures prioritized == Dropped(old(prioritized), store, ids)
      ensures historyManager.Nodes == Forgotten(old(historyManager.Nodes), ids)
    {
      var k := 0;
      while k < |ids|
        invariant 0 <= k <= |ids|
        invariant historyManager.Valid() && historyManager.Spine == old(historyManager.Spine)
        invariant prioritized == Dropped(old(prioritized), store, ids[..k])
        invariant historyManager.Nodes == Forgotten(old(historyManager.Nodes), ids[..k])
      {
        var t := store[ids[k]];
        historyManager.Remove(t.id.value);
        prioritized := Schedule.Remove(prioritized, t);
        assert ids[..k + 1][..k] == ids[..k];
        k := k + 1;
      }
      assert ids[..k] == ids;
    }

    /** The loop of `clearEpics()` itself, over the keys in visiting order. */
    method ForgetIds(ids: seq<int>)
      requires historyManager.Valid()
      modifies historyManager, historyManager.Spine
      ensures historyManager.Valid() && historyManager.Spine == old(historyManager.Spine)
      ensures historyManager.Nodes == Forgotten(old(historyManager.Nodes), ids)
    {
      var k := 0;
      while k < |ids|
        invariant 0 <= k <= |ids|
        invariant historyManager.Valid() && historyManager.Spine == old(historyManager.Spine)
        invariant historyManager.Nodes == Forgotten(old(historyManager.Nodes), ids[..k])
      {
        historyManager.Remove(ids[k]);
        assert ids[..k + 1][..k] == ids[..k];
        k := k + 1;
      }
      assert ids[..k] == ids;
    }

    /** `clearTasks()`: every task leaves the history and the schedule (the
        schedule drops whatever is filed under each task's start), then the store
        is emptied. */
    method ClearTasks()
      requires Valid() && historyManager.Valid()
      modifies this`tasks, this`prioritized, historyManager, historyManager.Spine
      ensures Valid() && historyManager.Valid()
      ensures tasks == map[]
      ensures prioritized == old(prioritized) - StartsOf(old(tasks), old(tasks).Keys)
      ensures historyManager.Nodes == Without(old(historyManager.Nodes), old(tasks).Keys)
    {
      ForgetAll(tasks);
      tasks := map[];
    }

    /** `clearEpics()`: every epic and every subtask leaves the history, every
        subtask the schedule, then both stores are emptied. */
    method ClearEpics()
      requires Valid() && historyManager.Valid()
      modifies this`epics, this`subTasks, this`prioritized, historyManager, historyManager.Spine
      ensures Valid() && historyManager.Valid()
      ensures epics == map[] && subTasks == map[]
      ensures prioritized == old(prioritized) - StartsOf(old(subTasks), old(subTasks).Keys)
      ensures historyManager.Nodes == Without(old(historyManager.Nodes), old(epics).Keys + old(subTasks).Keys)
    {
      ForgetEpicsAndSubtasks();
      epics := map[];
      subTasks := map[];
    }

    /** The two loops of `clearEpics()`: every epic leaves the history, then every
        subtask leaves the history and the schedule. */
    method ForgetEpicsAndSubtasks()
      requires historyManager.Valid() && Scheduled(prioritized)
      requires forall x :: x in subTasks ==> subTasks[x].id == Some(x)
      modifies this`prioritized, historyManager, historyManager.Spine
      ensures historyManager.Valid() && Scheduled(prioritized)
      ensures prioritized == old(prioritized) - StartsOf(subTasks, subTasks.Keys)
      ensures historyManager.Nodes == Without(old(historyManager.Nodes), epics.Keys + subTasks.Keys)
    {
      ForgetHistory(epics.Keys);
      ForgetAll(subTasks);
      WithoutTwice(old(historyManager.Nodes), epics.Keys, subTasks.Keys);
    }

    /** `clearSubTasks()`: every subtask leaves the history and the schedule, the
        store is emptied, then every epic's list is cleared and the epic
        recomputed, which leaves it NEW, of zero duration, starting at
        `LocalDateTime.MIN`. */
    method ClearSubTasks()
      requires Valid() && historyManager.Valid()
      modifies this`subTasks, this`prioritized, this`epics, historyManager, historyManager.Spine
      ensures Valid() && historyManager.Valid()
      ensures subTasks == map[] && epics.Keys == old(epics).Keys
      ensures forall e :: e in epics ==> epics[e] == Reset(old(epics[e]))
      ensures prioritized == old(prioritized) - StartsOf(old(subTasks), old(subTasks).Keys)
      ensures historyManager.Nodes == Without(old(historyManager.Nodes), old(subTasks).Keys)
    {
      ForgetAll(subTasks);
      subTasks := map[];
      ResetAll();
      ResetKeeps(epics);
    }

    /** The loop of `clearSubTasks()` over the epics, once the subtask store is
        empty: every epic is reset. */
    method ResetAll()
      requires forall e :: e in epics ==> epics[e].kind == EPIC
      modifies this`epics
      ensures epics.Keys == old(epics).Keys
      ensures forall e :: e in epics ==> epics[e] == Reset(old(epics[e]))
    {
      var rest := epics.Keys;
      while rest != {}
        invariant rest <= epics.Keys == old(epics).Keys
        invariant forall e :: e in epics ==> epics[e].kind == EPIC
        invariant forall e :: e in epics ==> epics[e] == if e in rest then old(epics[e]) else Reset(old(epics[e]))
        decreases |rest|
      {
        Inhabited(rest);
        var e :| e in rest;
        RemoveAllSubtasksFromEpic(e);
        rest := rest - {e};
      }
    }

    /** `updateEpicStatus(epic)` on a stored epic whose listed subtasks are all
        stored: the epic becomes its recomputation. */
    method UpdateEpicStatus(id: int)
      requires id in epics && epics[id].kind == EPIC && ListedIn(epics[id].subTasksIds, subTasks)
      modifies this`epics
      ensures epics == old(epics)[id := Aggregate(old(epics[id]), subTasks)]
    {
      var epic := epics[id];
      if epic.subTasksIds == [] {
        epic := epic.(taskStatus := NEW).WithDuration(0).WithStartTime(MIN_TIME);
        epics := epics[id := epic];
      } else {
        UpdateEpicWithSubtasks(id);
      }
    }

    /** `updateEpicWithSubtasks(epic, subTasksIds)`: one pass over the listed
        subtasks, then the epic's start, duration, end and status are set from
        it. */
    method UpdateEpicWithSubtasks(id: int)
      requires id in epics && epics[id].kind == EPIC && epics[id].subTasksIds != []
      requires ListedIn(epics[id].subTasksIds, subTasks)
      modifies this`epics
      ensures epics == old(epics)[id := Aggregate(old(epics[id]), subTasks)]
    {
      var epic := epics[id];
      var vs := ViewsOf(epic.subTasksIds, subTasks);
      var minStartTime, maxEndTime, duration, firstStatus, isAllSame := ScanSubtasks(epic.subTasksIds);
      var status := if isAllSame then firstStatus.value else IN_PROGRESS;
      assert status == FirstLastStatus(Statuses(vs));
      epic := epic.WithStartTime(minStartTime).WithDuration(duration).(endTime := maxEndTime).(taskStatus := status);
      epics := epics[id := epic];
    }

    /** The loop of `updateEpicWithSubtasks`: the earliest start, the latest end,
        the summed durations, the first status, and whether the last status
        equals the first. */
    method ScanSubtasks(ids: seq<int>)
      returns (minStartTime: Minutes, maxEndTime: Minutes, duration: int, firstStatus: Option<Status>, isAllSame: bool)
      requires ids != [] && ListedIn(ids, subTasks)
      ensures var vs := ViewsOf(ids, subTasks);
        && minStartTime == MinStart(vs) && maxEndTime == MaxEnd(vs) && duration == TotalDuration(vs)
        && firstStatus == Some(vs[0].status)
        && isAllSame == (vs[0].status == vs[|vs| - 1].status || |vs| == 1)
    {
      ghost var vs := ViewsOf(ids, subTasks);
      minStartTime, maxEndTime, duration := MAX_TIME, MIN_PLUS_YEAR, 0;
      firstStatus, isAllSame := None, true;
      var k := 0;
      while k < |ids|
        invariant 0 <= k <= |ids|
        invariant minStartTime == MinStart(vs[..k]) && maxEndTime == MaxEnd(vs[..k])
        invariant duration == TotalDuration(vs[..k])
        invariant k == 0 <==> firstStatus.None?
        invariant k > 0 ==> firstStatus == Some(vs[0].status)
        invariant k <= 1 ==> isAllSame
        invariant k > 1 ==> (isAllSame <==> vs[0].status == vs[k - 1].status)
      {
        var subTask := subTasks[ids[k]];
        FoldStep(vs, k);
        if subTask.startTime < minStartTime {
          minStartTime := subTask.startTime;
        }
        if subTask.endTime > maxEndTime {
          maxEndTime := subTask.endTime;
        }
        duration := duration + subTask.duration;
        if firstStatus.None? {
          firstStatus := Some(subTask.taskStatus);
        } else {
          isAllSame := firstStatus.value == subTask.taskStatus;
        }
        k := k + 1;
      }
      assert vs[..k] == vs;
    }

    /** `removeSubTaskFromEpic(epic, subTaskId)`: the first occurrence of the id
        leaves the epic's list, and the epic is recomputed. */
    method RemoveSubTaskFromEpic(epicId: int, subTaskId: int)
      requires epicId in epics && epics[epicId].kind == EPIC
      requires ListedIn(RemoveFirst(epics[epicId].subTasksIds, subTaskId), subTasks)
      modifies this`epics
      ensures epics == old(epics)[epicId :=
        Aggregate(old(epics[epicId]).(subTasksIds := RemoveFirst(old(epics[epicId].subTasksIds), subTaskId)), subTasks)]
    {
      epics := epics[epicId := epics[epicId].(subTasksIds := RemoveFirst(epics[epicId].subTasksIds, subTaskId))];
      UpdateEpicStatus(epicId);
    }

    /** `removeAllSubtasksFromEpic(epic)`: the list is cleared and the epic
        recomputed. */
    method RemoveAllSubtasksFromEpic(epicId: int)
      requires epicId in epics && epics[epicId].kind == EPIC
      modifies this`epics
      ensures epics == old(epics)[epicId := Reset(old(epics[epicId]))]
    {
      ResetIsAggregate(epics[epicId], subTasks);
      epics := epics[epicId := epics[epicId].(subTasksIds := [])];
      UpdateEpicStatus(epicId);
    }

    /** `addSubTaskToEpic(epic, subTask)`: with a null epic nothing happens and
        null is returned; otherwise the subtask's id is appended unless the list
        has it already, and the epic is recomputed. */
    method AddSubTaskToEpic(epicId: Option<int>, subTask: Entry) returns (r: Option<Entry>)
      requires subTask.id.Some?
      requires epicId.Some? ==>
        && epicId.value in epics && epics[epicId.value].kind == EPIC
        && ListedIn(AppendNew(epics[epicId.value].subTasksIds, subTask.id.value), subTasks)
      modifies this`epics
      ensures epicId.None? ==> r == None && epics == old(epics)
      ensures epicId.Some? ==> r == Some(subTask) && epics == old(epics)[epicId.value :=
        Aggregate(Link(old(epics[epicId.value]), subTask.id.value), subTasks)]
    {
      if epicId.None? {
        return None;
      }
      var e := epicId.value;
      epics := epics[e := Link(epics[e], subTask.id.value)];
      UpdateEpicStatus(e);
      r := Some(subTask);
    }

    /** `getHistory()`. */
    method GetHistory() returns (r: seq<Entry>)
      requires historyManager.Valid()
      ensures r == historyManager.Items()
    {
      r := historyManager.GetHistory();
    }
  }
}
