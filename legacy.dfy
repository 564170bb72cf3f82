/** The earlier `InMemoryTaskManager` (package `service`): the same three id-keyed
    stores and id counter, but no schedule and no time-conflict check, updates
    that copy only the descriptive fields, null returns instead of exceptions,
    and an epic status recomputed by a loop that stops at the first subtask whose
    status differs. `subTask.getEpic()`, which the shown `SubTask` does not
    declare, is read as the lookup of the subtask's epic id among the stored
    epics, null when there is none. */
module Legacy {
  import opened Types
  import opened Model
  import opened History
  import opened Aggregation
  import opened Stores
  import Memory

  /** The statuses of the subtasks with the given ids, in list order. */
  function StatusesOf(ids: seq<int>, subTasks: map<int, Entry>): (ss: seq<Status>)
    requires ListedIn(ids, subTasks)
    ensures |ss| == |ids| && forall j :: 0 <= j < |ids| ==> ss[j] == subTasks[ids[j]].taskStatus
  {
    Statuses(ViewsOf(ids, subTasks))
  }

  /** The first `k` listed ids are stored subtasks that share the first one's
      status. */
  ghost predicate SameStoredPrefix(ids: seq<int>, subTasks: map<int, Entry>, k: int)
  {
    forall i :: 0 <= i < k && i < |ids| ==>
      ids[i] in subTasks && ids[0] in subTasks && subTasks[ids[i]].taskStatus == subTasks[ids[0]].taskStatus
  }

  /** The legacy status loop reaches a listed id with no stored subtask before
      it meets a status that differs from the first. */
  ghost predicate ScanMeetsMissing(ids: seq<int>, subTasks: map<int, Entry>)
  {
    exists k :: 0 <= k < |ids| && ids[k] !in subTasks && SameStoredPrefix(ids, subTasks, k)
  }

  /** The epic after the legacy `updateEpicStatus`: only its status changes. */
  function Recomputed(epic: Entry, subTasks: map<int, Entry>): (r: Entry)
    requires ListedIn(epic.subTasksIds, subTasks)
    ensures r.(taskStatus := epic.taskStatus) == epic
    ensures StatusSettled(r, subTasks)
  {
    epic.(taskStatus := AllSameStatus(StatusesOf(epic.subTasksIds, subTasks)))
  }

  /** The epic lists only stored subtasks and has the status the legacy rule
      gives them. */
  ghost predicate StatusSettled(epic: Entry, subTasks: map<int, Entry>)
  {
    ListedIn(epic.subTasksIds, subTasks) && epic.taskStatus == AllSameStatus(StatusesOf(epic.subTasksIds, subTasks))
  }

  /** Every epic is as the legacy `updateEpicStatus` leaves it. */
  ghost predicate StatusesKept(epics: map<int, Entry>, subTasks: map<int, Entry>)
  {
    forall e {:trigger StatusSettled(epics[e], subTasks)} :: e in epics ==> StatusSettled(epics[e], subTasks)
  }

  /** Every id an epic lists is a stored subtask naming that epic, and no list
      repeats an id. Unlike the memory manager, a stored subtask need not be
      listed: `createSubTask` stores a subtask whose epic is absent. */
  ghost predicate Lists(epics: map<int, Entry>, subTasks: map<int, Entry>)
  {
    && (forall e, x {:trigger x in epics[e].subTasksIds} ::
          e in epics && x in epics[e].subTasksIds ==> x in subTasks && subTasks[x].epicId == e)
    && (forall e {:trigger NoRepeats(epics[e].subTasksIds)} :: e in epics ==> NoRepeats(epics[e].subTasksIds))
  }

  /** A recomputed epic is settled, and the legacy rule agrees with the memory
      manager's first-versus-last rule whenever the subtasks share one status or
      there are at most two of them. */
  lemma RecomputedSettled(epic: Entry, subTasks: map<int, Entry>)
    requires ListedIn(epic.subTasksIds, subTasks)
    ensures StatusSettled(Recomputed(epic, subTasks), subTasks)
    ensures Recomputed(Recomputed(epic, subTasks), subTasks) == Recomputed(epic, subTasks)
    ensures var ss := StatusesOf(epic.subTasksIds, subTasks);
      ss != [] && (AllSame(ss) || |ss| <= 2) ==>
        Recomputed(epic, subTasks).taskStatus == Aggregate(epic, subTasks).taskStatus
  {
    var ss := StatusesOf(epic.subTasksIds, subTasks);
    if ss != [] && (AllSame(ss) || |ss| <= 2) {
      StatusRulesAgree(ss);
    }
  }

  /** The legacy status reads only the statuses of the listed subtasks. */
  lemma StatusFrame(epic: Entry, s1: map<int, Entry>, s2: map<int, Entry>)
    requires StatusSettled(epic, s1)
    requires forall j :: 0 <= j < |epic.subTasksIds| ==>
      epic.subTasksIds[j] in s2 && s2[epic.subTasksIds[j]].taskStatus == s1[epic.subTasksIds[j]].taskStatus
    ensures StatusSettled(epic, s2)
  {
    assert StatusesOf(epic.subTasksIds, s2) == StatusesOf(epic.subTasksIds, s1);
  }

  /** An epic that does not list `id` stays settled whatever happens to `id`. */
  lemma SettledApart(epic: Entry, s1: map<int, Entry>, s2: map<int, Entry>, id: int)
    requires StatusSettled(epic, s1) && id !in epic.subTasksIds && s1 - {id} == s2 - {id}
    ensures StatusSettled(epic, s2)
  {
    var ids := epic.subTasksIds;
    forall j | 0 <= j < |ids| ensures ids[j] in s2 && s2[ids[j]].taskStatus == s1[ids[j]].taskStatus {
      assert ids[j] in ids && ids[j] in s1 - {id};
      assert (s1 - {id})[ids[j]] == s1[ids[j]] && (s2 - {id})[ids[j]] == s2[ids[j]];
    }
    StatusFrame(epic, s1, s2);
  }

  /** The epics other than `e`, when none of them lists `id`, keep their lists
      and their statuses against a store that differs from `s1` only at `id`;
      when `e` is not an epic at all, that is every epic. */
  lemma OthersKept(epics: map<int, Entry>, s1: map<int, Entry>, s2: map<int, Entry>, id: int, e: int)
    requires Lists(epics, s1) && StatusesKept(epics, s1) && s1 - {id} == s2 - {id}
    requires forall e' :: e' in epics && e' != e ==> id !in epics[e'].subTasksIds
    ensures forall e', x :: e' in epics && e' != e && x in epics[e'].subTasksIds ==> x in s2 && s2[x].epicId == e'
    ensures forall e' :: e' in epics && e' != e ==> StatusSettled(epics[e'], s2)
    ensures e !in epics ==> Lists(epics, s2) && StatusesKept(epics, s2)
  {
    forall e', x | e' in epics && e' != e && x in epics[e'].subTasksIds ensures x in s2 && s2[x].epicId == e' {
      assert x in s1 - {id};
      assert (s1 - {id})[x] == s1[x] && (s2 - {id})[x] == s2[x];
    }
    forall e' | e' in epics && e' != e ensures StatusSettled(epics[e'], s2) {
      assert StatusSettled(epics[e'], s1);
      SettledApart(epics[e'], s1, s2, id);
    }
  }

  /** Putting `epic` in place of epic `e` keeps the invariants when the other
      epics keep theirs and `epic` lists, once each, stored subtasks naming `e`
      and is settled. */
  lemma PutKept(epics: map<int, Entry>, s2: map<int, Entry>, e: int, epic: Entry)
    requires forall e', x :: e' in epics && e' != e && x in epics[e'].subTasksIds ==> x in s2 && s2[x].epicId == e'
    requires forall e' :: e' in epics && e' != e ==> NoRepeats(epics[e'].subTasksIds)
    requires forall e' :: e' in epics && e' != e ==> StatusSettled(epics[e'], s2)
    requires forall x :: x in epic.subTasksIds ==> x in s2 && s2[x].epicId == e
    requires NoRepeats(epic.subTasksIds) && StatusSettled(epic, s2)
    ensures Lists(epics[e := epic], s2) && StatusesKept(epics[e := epic], s2)
  {
    var e2 := epics[e := epic];
    forall e' | e' in e2 ensures StatusSettled(e2[e'], s2) {
    }
  }

  /** No epic lists an id that is not a stored subtask. */
  lemma NotListed(epics: map<int, Entry>, subTasks: map<int, Entry>, id: int)
    requires Lists(epics, subTasks) && id !in subTasks
    ensures forall e :: e in epics ==> id !in epics[e].subTasksIds
  {
    forall e | e in epics ensures id !in epics[e].subTasksIds {
      if id in epics[e].subTasksIds {
        assert false;
      }
    }
  }

  /** Storing a new subtask `st` under a fresh id, with its epic `e` stored:
      appending the id to `e`'s list, which did not hold it, and recomputing `e`
      keeps the invariants. */
  lemma AddLinkedKept(epics: map<int, Entry>, subTasks: map<int, Entry>, id: int, st: Entry)
    requires Lists(epics, subTasks) && StatusesKept(epics, subTasks) && id !in subTasks && st.epicId in epics
    ensures var s2, e := subTasks[id := st], st.epicId;
      var linked := Link(epics[e], id);
      && linked.subTasksIds == epics[e].subTasksIds + [id]
      && ListedIn(linked.subTasksIds, s2)
      && Lists(epics[e := Recomputed(linked, s2)], s2)
      && StatusesKept(epics[e := Recomputed(linked, s2)], s2)
  {
    var s2, e := subTasks[id := st], st.epicId;
    NotListed(epics, subTasks, id);
    OthersKept(epics, subTasks, s2, id, e);
    var ids := epics[e].subTasksIds;
    assert NoRepeats(ids);
    AppendNewSpec(ids, id);
    var linked := Link(epics[e], id);
    forall x | x in linked.subTasksIds ensures x in s2 && s2[x].epicId == e {
      if x != id {
        assert x in ids;
      }
    }
    forall j | 0 <= j < |linked.subTasksIds| ensures linked.subTasksIds[j] in s2 {
      assert linked.subTasksIds[j] in linked.subTasksIds;
    }
    RecomputedSettled(linked, s2);
    PutKept(epics, s2, e, Recomputed(linked, s2));
  }

  /** Storing a new subtask `st` under a fresh id: when its epic is stored, the
      id is appended to that epic's list exactly once and the epic recomputed;
      otherwise no epic changes. Either way the invariants hold. */
  lemma AddKept(epics: map<int, Entry>, subTasks: map<int, Entry>, id: int, st: Entry)
    requires Lists(epics, subTasks) && StatusesKept(epics, subTasks) && id !in subTasks
    ensures var s2, e := subTasks[id := st], st.epicId;
      && (e !in epics ==> Lists(epics, s2) && StatusesKept(epics, s2))
      && (e in epics ==>
            var linked := Link(epics[e], id);
            && linked.subTasksIds == epics[e].subTasksIds + [id]
            && ListedIn(linked.subTasksIds, s2)
            && Lists(epics[e := Recomputed(linked, s2)], s2)
            && StatusesKept(epics[e := Recomputed(linked, s2)], s2))
  {
    if st.epicId in epics {
      AddLinkedKept(epics, subTasks, id, st);
    } else {
      NotListed(epics, subTasks, id);
      OthersKept(epics, subTasks, subTasks[id := st], id, st.epicId);
    }
  }

  /** Replacing stored subtask `id` by `st`, which keeps its epic id: the
      recomputation of its epic, when stored, keeps the invariants. */
  lemma ReplaceKept(epics: map<int, Entry>, subTasks: map<int, Entry>, id: int, st: Entry)
    requires Lists(epics, subTasks) && StatusesKept(epics, subTasks)
    requires id in subTasks && st.epicId == subTasks[id].epicId
    ensures var s2, e := subTasks[id := st], st.epicId;
      && (e !in epics ==> Lists(epics, s2) && StatusesKept(epics, s2))
      && (e in epics ==>
            && ListedIn(epics[e].subTasksIds, s2)
            && Lists(epics[e := Recomputed(epics[e], s2)], s2)
            && StatusesKept(epics[e := Recomputed(epics[e], s2)], s2))
  {
    var s2, e := subTasks[id := st], st.epicId;
    forall e' | e' in epics && e' != e ensures id !in epics[e'].subTasksIds {
      if id in epics[e'].subTasksIds {
        assert false;
      }
    }
    OthersKept(epics, subTasks, s2, id, e);
    if e in epics {
      var ids := epics[e].subTasksIds;
      assert NoRepeats(ids);
      forall x | x in ids ensures x in s2 && s2[x].epicId == e {
      }
      forall j | 0 <= j < |ids| ensures ids[j] in s2 {
        assert ids[j] in ids;
      }
      RecomputedSettled(epics[e], s2);
      PutKept(epics, s2, e, Recomputed(epics[e], s2));
    }
  }

  /** Removing stored subtask `id`: when its epic is stored, dropping the id from
      that epic's list and recomputing the epic keeps the invariants; otherwise
      no epic lists the id and removing it keeps them. */
  lemma RemoveKept(epics: map<int, Entry>, subTasks: map<int, Entry>, id: int)
    requires Lists(epics, subTasks) && StatusesKept(epics, subTasks) && id in subTasks
    ensures var s2, e := subTasks - {id}, subTasks[id].epicId;
      && (e !in epics ==> Lists(epics, s2) && StatusesKept(epics, s2))
      && (e in epics ==>
            var unlinked := Unlink(epics[e], id);
            && id !in unlinked.subTasksIds
            && ListedIn(unlinked.subTasksIds, s2)
            && Lists(epics[e := Recomputed(unlinked, s2)], s2)
            && StatusesKept(epics[e := Recomputed(unlinked, s2)], s2))
  {
    var s2, e := subTasks - {id}, subTasks[id].epicId;
    forall e' | e' in epics && e' != e ensures id !in epics[e'].subTasksIds {
      if id in epics[e'].subTasksIds {
        assert false;
      }
    }
    OthersKept(epics, subTasks, s2, id, e);
    if e in epics {
      var ids := epics[e].subTasksIds;
      assert NoRepeats(ids);
      RemoveFirstSpec(ids, id);
      var unlinked := Unlink(epics[e], id);
      forall x | x in unlinked.subTasksIds ensures x in s2 && s2[x].epicId == e {
        assert x in ids;
      }
      forall j | 0 <= j < |unlinked.subTasksIds| ensures unlinked.subTasksIds[j] in s2 {
        assert unlinked.subTasksIds[j] in unlinked.subTasksIds;
      }
      RecomputedSettled(unlinked, s2);
      PutKept(epics, s2, e, Recomputed(unlinked, s2));
    }
  }

  /** Removing epic `id` and every subtask it lists keeps the invariants: no
      other epic lists those subtasks. */
  lemma RemoveEpicKept(epics: map<int, Entry>, subTasks: map<int, Entry>, id: int)
    requires Lists(epics, subTasks) && StatusesKept(epics, subTasks) && id in epics
    ensures var s2 := subTasks - Elems(epics[id].subTasksIds);
      Lists(epics - {id}, s2) && StatusesKept(epics - {id}, s2)
  {
    var gone := Elems(epics[id].subTasksIds);
    var s2 := subTasks - gone;
    forall e', x | e' in epics - {id} && x in (epics - {id})[e'].subTasksIds ensures x in s2 && s2[x].epicId == e' {
      assert x in epics[e'].subTasksIds;
      assert x !in epics[id].subTasksIds;
    }
    forall e' | e' in epics - {id} ensures StatusSettled(epics[e'], s2) {
      var ids := epics[e'].subTasksIds;
      assert StatusSettled(epics[e'], subTasks);
      forall j | 0 <= j < |ids| ensures ids[j] in s2 && s2[ids[j]] == subTasks[ids[j]] {
        assert ids[j] in epics[e'].subTasksIds;
        assert ids[j] !in epics[id].subTasksIds;
      }
      StatusFrame(epics[e'], subTasks, s2);
    }
  }

  /** Every subtask an epic lists is stored and names the epic. */
  lemma ListedStored(epics: map<int, Entry>, subTasks: map<int, Entry>, id: int)
    requires Lists(epics, subTasks) && id in epics
    ensures forall j :: 0 <= j < |epics[id].subTasksIds| ==>
      epics[id].subTasksIds[j] in subTasks && subTasks[epics[id].subTasksIds[j]].epicId == id
  {
    var ids := epics[id].subTasksIds;
    forall j | 0 <= j < |ids| ensures ids[j] in subTasks && subTasks[ids[j]].epicId == id {
      var x := ids[j];
      assert x in epics[id].subTasksIds;
    }
  }

  /** Adding a new epic that lists nothing and has status NEW keeps the
      invariants. */
  lemma NewEpicKept(epics: map<int, Entry>, subTasks: map<int, Entry>, id: int, epic: Entry)
    requires Lists(epics, subTasks) && StatusesKept(epics, subTasks)
    requires epic.subTasksIds == [] && epic.taskStatus == NEW
    ensures Lists(epics[id := epic], subTasks) && StatusesKept(epics[id := epic], subTasks)
  {
    assert StatusesOf([], subTasks) == [];
    PutKept(epics, subTasks, id, epic);
  }

  /** Emptying every list, setting every status to NEW and dropping every
      subtask keeps the invariants. */
  lemma ClearedKept(epics: map<int, Entry>, cleared: map<int, Entry>, counter: int)
    requires Filed(epics, EPIC, counter) && cleared.Keys == epics.Keys
    requires forall e :: e in cleared ==> cleared[e] == epics[e].(subTasksIds := [], taskStatus := NEW)
    ensures Filed(cleared, EPIC, counter) && Lists(cleared, map[]) && StatusesKept(cleared, map[])
  {
    forall e | e in cleared ensures StatusSettled(cleared[e], map[]) {
      assert StatusesOf([], map[]) == [];
    }
    forall e | e in cleared ensures cleared[e].kind == EPIC && cleared[e].id == Some(e) && e <= counter {
      assert e in epics;
    }
  }

  class LegacyManager {
    var newTaskId: int
    var tasks: map<int, Entry>
    var epics: map<int, Entry>
    var subTasks: map<int, Entry>
    const historyManager: HistoryManager

    /** Each store holds its own class of entry under the entry's id, no id is
        above the counter, every listed subtask is stored and names its epic, and
        every epic has the status the legacy rule gives its subtasks. */
    ghost predicate Valid()
      reads this
    {
      && Filed(tasks, TASK, newTaskId)
      && Filed(epics, EPIC, newTaskId)
      && Filed(subTasks, SUBTASK, newTaskId)
      && Lists(epics, subTasks)
      && StatusesKept(epics, subTasks)
    }

    /** `new InMemoryTaskManager(historyManager)`. */
    constructor (historyManager: HistoryManager)
      ensures Valid() && this.historyManager == historyManager
      ensures newTaskId == 0 && tasks == map[] && epics == map[] && subTasks == map[]
    {
      newTaskId := 0;
      tasks := map[];
      epics := map[];
      subTasks := map[];
      this.historyManager := historyManager;
    }

    /** `generateId()`: the pre-incremented counter, an id no store uses yet. */
    method GenerateId() returns (id: int)
      requires Valid()
      modifies this`newTaskId
      ensures Valid()
      ensures id == newTaskId == old(newTaskId) + 1
      ensures id !in tasks && id !in epics && id !in subTasks
    {
      newTaskId := newTaskId + 1;
      id := newTaskId;
    }

    /** `create(task)`: filed under a new id, with no time check. */
    method Create(task: Entry) returns (r: Entry)
      requires Valid() && task.kind == TASK
      modifies this`newTaskId, this`tasks
      ensures Valid()
      ensures newTaskId == old(newTaskId) + 1 && newTaskId !in old(tasks) && newTaskId !in epics && newTaskId !in subTasks
      ensures r == task.(id := Some(newTaskId)) && tasks == old(tasks)[newTaskId := r]
      ensures epics == old(epics) && subTasks == old(subTasks)
    {
      var id := GenerateId();
      r := task.(id := Some(id));
      tasks := tasks[id := r];
    }

    /** `createEpic(epic)`: filed under a new id, then its status recomputed.
        A new epic lists no subtasks, which makes it NEW. An epic that arrives
        with a list gets the status the legacy loop computes over it, or, when
        the loop reaches an id with no stored subtask, a NullPointerException
        after the epic is filed as given. Only an epic that lists nothing is
        sure to keep the manager valid. */
    method CreateEpic(epic: Entry) returns (r: Result<Entry>)
      requires Valid() && epic.kind == EPIC
      modifies this`newTaskId, this`epics
      ensures newTaskId == old(newTaskId) + 1 && newTaskId !in old(epics) && newTaskId !in tasks && newTaskId !in subTasks
      ensures tasks == old(tasks) && subTasks == old(subTasks)
      ensures ScanMeetsMissing(epic.subTasksIds, subTasks) ==>
        r == Err(NullPointer) && epics == old(epics)[newTaskId := epic.(id := Some(newTaskId))]
      ensures !ScanMeetsMissing(epic.subTasksIds, subTasks) ==>
        && r.Ok? && epics == old(epics)[newTaskId := r.value]
        && r.value == epic.(id := Some(newTaskId), taskStatus := r.value.taskStatus)
      ensures ListedIn(epic.subTasksIds, subTasks) ==> r == Ok(Recomputed(epic.(id := Some(newTaskId)), subTasks))
      ensures r.Ok? && !ListedIn(epic.subTasksIds, subTasks) ==> r.value.taskStatus == IN_PROGRESS
      ensures epic.subTasksIds == [] ==>
        Valid() && r == Ok(epic.(id := Some(newTaskId), taskStatus := NEW))
    {
      var id := GenerateId();
      var e := epic.(id := Some(id));
      if e.subTasksIds == [] {
        NewEpicKept(epics, subTasks, id, e.(taskStatus := NEW));
        assert StatusesOf([], subTasks) == [];
      }
      epics := epics[id := e];
      var status := ListStatus(e.subTasksIds);
      if status.Err? {
        return Err(NullPointer);
      }
      epics := epics[id := e.(taskStatus := status.value)];
      r := Ok(epics[id]);
    }

    /** `createSubTask(subTask)`: filed under a new id whether or not its epic is
        stored; a stored epic gets the id appended and is recomputed (twice, with
        the same result). */
    method CreateSubTask(subTask: Entry) returns (r: Entry)
      requires Valid() && subTask.kind == SUBTASK
      modifies this`newTaskId, this`subTasks, this`epics
      ensures Valid()
      ensures newTaskId == old(newTaskId) + 1 && newTaskId !in old(subTasks) && newTaskId !in tasks && newTaskId !in old(epics)
      ensures r == subTask.(id := Some(newTaskId)) && subTasks == old(subTasks)[newTaskId := r]
      ensures tasks == old(tasks)
      ensures r.epicId !in old(epics) ==> epics == old(epics)
      ensures r.epicId in old(epics) ==>
        && Link(old(epics)[r.epicId], newTaskId).subTasksIds == old(epics)[r.epicId].subTasksIds + [newTaskId]
        && ListedIn(Link(old(epics)[r.epicId], newTaskId).subTasksIds, subTasks)
        && epics == old(epics)[r.epicId := Recomputed(Link(old(epics)[r.epicId], newTaskId), subTasks)]
    {
      var id := GenerateId();
      r := subTask.(id := Some(id));
      AddKept(epics, subTasks, id, r);
      subTasks := subTasks[id := r];
      var epic := if r.epicId in epics then Some(r.epicId) else None;
      var _ := AddSubTaskToEpic(epic, r);
      UpdateEpicStatus(epic);
      if epic.Some? {
        RecomputedSettled(Link(old(epics)[r.epicId], id), subTasks);
      }
    }

    /** `get(id)`: the stored task, recorded in the history. An absent id gives
        null, and `historyManager.add(null)` then throws NullPointerException. */
    method Get(id: int) returns (r: Result<Entry>)
      requires Valid() && historyManager.Valid()
      modifies historyManager, historyManager.Spine
      ensures historyManager.Valid() && fresh(historyManager.Spine - old(historyManager.Spine))
      ensures id !in tasks <==> r == Err(NullPointer)
      ensures r.Err? ==> historyManager.Nodes == old(historyManager.Nodes)
      ensures r.Ok? ==> r.value == tasks[id] && historyManager.AddedLast(id, r.value)
    {
      if id !in tasks {
        return Err(NullPointer);
      }
      FiledAt(tasks, TASK, newTaskId, id);
      historyManager.Add(tasks[id]);
      r := Ok(tasks[id]);
    }

    /** `getEpic(id)`, as `get`. */
    method GetEpic(id: int) returns (r: Result<Entry>)
      requires Valid() && historyManager.Valid()
      modifies historyManager, historyManager.Spine
      ensures historyManager.Valid() && fresh(historyManager.Spine - old(historyManager.Spine))
      ensures id !in epics <==> r == Err(NullPointer)
      ensures r.Err? ==> historyManager.Nodes == old(historyManager.Nodes)
      ensures r.Ok? ==> r.value == epics[id] && historyManager.AddedLast(id, r.value)
    {
      if id !in epics {
        return Err(NullPointer);
      }
      FiledAt(epics, EPIC, newTaskId, id);
      historyManager.Add(epics[id]);
      r := Ok(epics[id]);
    }

    /** `getSubTask(id)`, as `get`. */
    method GetSubTask(id: int) returns (r: Result<Entry>)
      requires Valid() && historyManager.Valid()
      modifies historyManager, historyManager.Spine
      ensures historyManager.Valid() && fresh(historyManager.Spine - old(historyManager.Spine))
      ensures id !in subTasks <==> r == Err(NullPointer)
      ensures r.Err? ==> historyManager.Nodes == old(historyManager.Nodes)
      ensures r.Ok? ==> r.value == subTasks[id] && historyManager.AddedLast(id, r.value)
    {
      if id !in subTasks {
        return Err(NullPointer);
      }
      FiledAt(subTasks, SUBTASK, newTaskId, id);
      historyManager.Add(subTasks[id]);
      r := Ok(subTasks[id]);
    }

    /** `update(task)`: null for a missing or unknown id; otherwise the stored
        task takes the description, name and status of `task` and keeps its
        times. */
    method Update(task: Entry) returns (r: Option<Entry>)
      requires Valid()
      modifies this`tasks
      ensures Valid()
      ensures r.None? <==> task.id.None? || task.id.value !in old(tasks)
      ensures r.None? ==> tasks == old(tasks)
      ensures r.Some? ==>
        var id := task.id.value;
        && r.value == old(tasks)[id].(description := task.description, name := task.name, taskStatus := task.taskStatus)
        && tasks == old(tasks)[id := r.value]
    {
      if task.id.None? || task.id.value !in tasks {
        return None;
      }
      var saved := tasks[task.id.value];
      saved := saved.(description := task.description).(name := task.name).(taskStatus := task.taskStatus);
      tasks := tasks[task.id.value := saved];
      r := Some(saved);
    }

    /** `updateEpic(epic)`: null for a missing or unknown id; otherwise the stored
        epic takes the name and description of `epic` and nothing else. */
    method UpdateEpic(epic: Entry) returns (r: Option<Entry>)
      requires Valid()
      modifies this`epics
      ensures Valid()
      ensures r.None? <==> epic.id.None? || epic.id.value !in old(epics)
      ensures r.None? ==> epics == old(epics)
      ensures r.Some? ==>
        var id := epic.id.value;
        && r.value == old(epics)[id].(name := epic.name, description := epic.description)
        && epics == old(epics)[id := r.value]
    {
      if epic.id.None? || epic.id.value !in epics {
        return None;
      }
      var id := epic.id.value;
      var saved := epics[id];
      assert StatusSettled(saved, subTasks);
      saved := saved.(name := epic.name).(description := epic.description);
      epics := epics[id := saved];
      forall e | e in epics ensures StatusSettled(epics[e], subTasks) {
        assert StatusSettled(old(epics)[e], subTasks);
      }
      r := Some(saved);
    }

    /** `updateSubTask(subTask)`: null for a missing or unknown id; otherwise the
        stored subtask takes the description, name and status of `subTask`, and
        its epic, when stored, is recomputed. */
    method UpdateSubTask(subTask: Entry) returns (r: Option<Entry>)
      requires Valid()
      modifies this`subTasks, this`epics
      ensures Valid()
      ensures r.None? <==> subTask.id.None? || subTask.id.value !in old(subTasks)
      ensures r.None? ==> subTasks == old(subTasks) && epics == old(epics)
      ensures r.Some? ==>
        var id := subTask.id.value;
        var e := r.value.epicId;
        && r.value == old(subTasks)[id].(description := subTask.description, name := subTask.name,
                                          taskStatus := subTask.taskStatus)
        && subTasks == old(subTasks)[id := r.value]
        && (e !in old(epics) ==> epics == old(epics))
        && (e in old(epics) ==>
              && ListedIn(old(epics)[e].subTasksIds, subTasks)
              && epics == old(epics)[e := Recomputed(old(epics)[e], subTasks)])
    {
      if subTask.id.None? || subTask.id.value !in subTasks {
        return None;
      }
      var id := subTask.id.value;
      var saved := subTasks[id];
      saved := saved.(description := subTask.description).(name := subTask.name).(taskStatus := subTask.taskStatus);
      ReplaceKept(epics, subTasks, id, saved);
      subTasks := subTasks[id := saved];
      UpdateEpicStatus(if saved.epicId in epics then Some(saved.epicId) else None);
      r := Some(saved);
    }

    /** `delete(id)`: the removed task, null when there was none. The history is
        not touched. */
    method Delete(id: int) returns (r: Option<Entry>)
      requires Valid()
      modifies this`tasks
      ensures Valid()
      ensures id in old(tasks) ==> r == Some(old(tasks)[id])
      ensures id !in old(tasks) ==> r == None
      ensures tasks == old(tasks) - {id}
    {
      r := if id in tasks then Some(tasks[id]) else None;
      tasks := tasks - {id};
    }

    /** `deleteEpic(id)`: the removed epic, whose listed subtasks are removed with
        it. An absent id gives null, and reading its subtask list throws
        NullPointerException. The history is not touched. */
    method DeleteEpic(id: int) returns (r: Result<Entry>)
      requires Valid()
      modifies this`epics, this`subTasks
      ensures Valid()
      ensures id !in old(epics) <==> r == Err(NullPointer)
      ensures r.Err? ==> epics == old(epics) && subTasks == old(subTasks)
      ensures r.Ok? ==>
        && r.value == old(epics)[id]
        && epics == old(epics) - {id}
        && subTasks == old(subTasks) - Elems(r.value.subTasksIds)
    {
      if id !in epics {
        return Err(NullPointer);
      }
      var epic := epics[id];
      RemoveEpicKept(epics, subTasks, id);
      epics := epics - {id};
      RemoveEach(epic.subTasksIds);
      r := Ok(epic);
    }

    /** The loop of `deleteEpic`: each listed id is removed from the subtasks. */
    method RemoveEach(ids: seq<int>)
      modifies this`subTasks
      ensures subTasks == old(subTasks) - Elems(ids)
    {
      for k := 0 to |ids|
        invariant subTasks == Memory.Pruned(old(subTasks), ids[..k])
      {
        assert ids[..k + 1][..k] == ids[..k];
        subTasks := subTasks - {ids[k]};
      }
      assert ids[..|ids|] == ids;
      Memory.PrunedAll(old(subTasks), ids);
    }

    /** `deleteSubTask(id)`: the removed subtask, dropped from its epic's list,
        and the epic recomputed (twice, with the same result). An absent id gives
        null and `subTask.getEpic()` throws NullPointerException before anything
        changes; a subtask whose epic is not stored is removed, and then
        `epic.getSubTasksIds()` on the null epic throws. The history is not
        touched. */
    method DeleteSubTask(id: int) returns (r: Result<Entry>)
      requires Valid()
      modifies this`epics, this`subTasks
      ensures Valid()
      ensures id !in old(subTasks) ==> r == Err(NullPointer) && subTasks == old(subTasks) && epics == old(epics)
      ensures id in old(subTasks) ==>
        var e := old(subTasks)[id].epicId;
        && subTasks == old(subTasks) - {id}
        && (e !in old(epics) ==> r == Err(NullPointer) && epics == old(epics))
        && (e in old(epics) ==>
              && r == Ok(old(subTasks)[id])
              && id !in Unlink(old(epics)[e], id).subTasksIds
              && ListedIn(Unlink(old(epics)[e], id).subTasksIds, subTasks)
              && epics == old(epics)[e := Recomputed(Unlink(old(epics)[e], id), subTasks)])
    {
      if id !in subTasks {
        return Err(NullPointer);
      }
      var subTask := subTasks[id];
      RemoveKept(epics, subTasks, id);
      subTasks := subTasks - {id};
      var e := subTask.epicId;
      if e !in epics {
        return Err(NullPointer);
      }
      RemoveSubTaskFromEpic(e, id);
      UpdateEpicStatus(Some(e));
      RecomputedSettled(Unlink(old(epics)[e], id), subTasks);
      r := Ok(subTask);
    }

    /** `getTasks()`: a copy of the stored tasks. */
    function GetTasks(): (r: seq<Entry>)
      reads this
      ensures |r| == |tasks| && forall t :: t in tasks.Values <==> t in r
    {
      InKeyOrder(tasks)
    }

    /** `getEpics()`: a copy of the stored epics. */
    function GetEpics(): (r: seq<Entry>)
      reads this
      ensures |r| == |epics| && forall t :: t in epics.Values <==> t in r
    {
      InKeyOrder(epics)
    }

    /** `getSubtasks()`: a copy of the stored subtasks. */
    function GetSubtasks(): (r: seq<Entry>)
      reads this
      ensures |r| == |subTasks| && forall t :: t in subTasks.Values <==> t in r
    {
      InKeyOrder(subTasks)
    }

    /** `getEpicSubtasks(id)`: null for an absent epic; otherwise the subtasks the
        epic lists, looked up one by one in list order, each of them stored and
        naming the epic. */
    method GetEpicSubtasks(id: int) returns (r: Option<seq<Option<Entry>>>)
      requires Valid()
      ensures id !in epics <==> r.None?
      ensures r.Some? ==> r.value == Lookup(epics[id].subTasksIds, subTasks)
      ensures r.Some? ==> forall j :: 0 <= j < |r.value| ==> r.value[j].Some? && r.value[j].value.epicId == id
    {
      if id !in epics {
        return None;
      }
      var ids := epics[id].subTasksIds;
      ListedStored(epics, subTasks, id);
      var result: seq<Option<Entry>> := [];
      for k := 0 to |ids|
        invariant result == Lookup(ids[..k], subTasks)
      {
        result := result + [if ids[k] in subTasks then Some(subTasks[ids[k]]) else None];
      }
      assert ids[..|ids|] == ids;
      r := Some(result);
    }

    /** `clearTasks()`. The history is not touched. */
    method ClearTasks()
      requires Valid()
      modifies this`tasks
      ensures Valid() && tasks == map[]
    {
      tasks := map[];
    }

    /** `clearEpics()`: both the epics and the subtasks go. */
    method ClearEpics()
      requires Valid()
      modifies this`epics, this`subTasks
      ensures Valid() && epics == map[] && subTasks == map[]
    {
      epics := map[];
      subTasks := map[];
    }

    /** `clearSubTasks()`: no subtask is left, and every epic keeps its other
        fields with an empty list and status NEW. */
    method ClearSubTasks()
      requires Valid()
      modifies this`subTasks, this`epics
      ensures Valid()
      ensures subTasks == map[] && epics.Keys == old(epics).Keys
      ensures forall e :: e in epics ==> epics[e] == old(epics)[e].(subTasksIds := [], taskStatus := NEW)
    {
      subTasks := map[];
      ResetAll();
      ClearedKept(old(epics), epics, newTaskId);
    }

    /** The loop of `clearSubTasks` over the epics: each has its list cleared and
        its status set to NEW. */
    method ResetAll()
      modifies this`epics
      ensures epics.Keys == old(epics).Keys
      ensures forall e :: e in epics ==> epics[e] == old(epics)[e].(subTasksIds := [], taskStatus := NEW)
    {
      var rest := epics.Keys;
      while rest != {}
        invariant rest <= epics.Keys == old(epics).Keys
        invariant forall e :: e in epics ==>
          epics[e] == if e in rest then old(epics)[e] else old(epics)[e].(subTasksIds := [], taskStatus := NEW)
        decreases |rest|
      {
        Inhabited(rest);
        var e :| e in rest;
        RemoveAllSubtasksFromEpic(e);
        rest := rest - {e};
      }
    }

    /** The loop of the legacy `updateEpicStatus`: the first subtask's status,
        then each later one compared with it, stopping at the first that
        differs. It yields the common status when all are equal and IN_PROGRESS
        otherwise. A listed id with no stored subtask throws a
        NullPointerException when the loop reaches it, and only then. */
    method ListStatus(ids: seq<int>) returns (r: Result<Status>)
      ensures r.Err? <==> ScanMeetsMissing(ids, subTasks)
      ensures r.Err? ==> r.error == NullPointer
      ensures ListedIn(ids, subTasks) ==> r == Ok(AllSameStatus(StatusesOf(ids, subTasks)))
      ensures r.Ok? && !ListedIn(ids, subTasks) ==> r == Ok(IN_PROGRESS)
    {
      if ids == [] {
        return Ok(NEW);
      }
      var current: Option<Status> := None;
      var isAllSame := true;
      var k := 0;
      while k < |ids|
        invariant 0 <= k <= |ids|
        invariant current.None? <==> k == 0
        invariant k > 0 ==> ids[0] in subTasks && current.value == subTasks[ids[0]].taskStatus
        invariant isAllSame
        invariant SameStoredPrefix(ids, subTasks, k)
      {
        if ids[k] !in subTasks {
          assert ids[k] !in subTasks && SameStoredPrefix(ids, subTasks, k);
          return Err(NullPointer);
        }
        if current.None? {
          current := Some(subTasks[ids[k]].taskStatus);
        } else {
          isAllSame := current.value == subTasks[ids[k]].taskStatus;
        }
        if !isAllSame {
          break;
        }
        k := k + 1;
      }
      if isAllSame {
        assert ListedIn(ids, subTasks);
        assert AllSame(StatusesOf(ids, subTasks));
        r := Ok(current.value);
      } else {
        forall m | 0 <= m < |ids| && ids[m] !in subTasks
          ensures !SameStoredPrefix(ids, subTasks, m)
        {
          assert m > k;
        }
        if ListedIn(ids, subTasks) {
          assert StatusesOf(ids, subTasks)[k] != StatusesOf(ids, subTasks)[0];
        }
        r := Ok(IN_PROGRESS);
      }
    }

    /** `updateEpicStatus(epic)`: nothing for a null epic; otherwise the epic's
        status follows the legacy rule and nothing else changes. */
    method UpdateEpicStatus(epic: Option<int>)
      requires epic.Some? ==> epic.value in epics && ListedIn(epics[epic.value].subTasksIds, subTasks)
      modifies this`epics
      ensures epic.None? ==> epics == old(epics)
      ensures epic.Some? ==> epics == old(epics)[epic.value := Recomputed(old(epics)[epic.value], subTasks)]
    {
      if epic.None? {
        return;
      }
      var e := epic.value;
      var status := ListStatus(epics[e].subTasksIds);
      epics := epics[e := epics[e].(taskStatus := status.value)];
    }

    /** `removeSubTaskFromEpic(epic, subTaskId)` on a stored epic: the first
        occurrence of the id leaves its list and the epic is recomputed. */
    method RemoveSubTaskFromEpic(e: int, subTaskId: int)
      requires e in epics && ListedIn(RemoveFirst(epics[e].subTasksIds, subTaskId), subTasks)
      modifies this`epics
      ensures epics == old(epics)[e := Recomputed(Unlink(old(epics)[e], subTaskId), subTasks)]
    {
      epics := epics[e := Unlink(epics[e], subTaskId)];
      UpdateEpicStatus(Some(e));
    }

    /** `removeAllSubtasksFromEpic(epic)` on a stored epic: its list is cleared
        and its status becomes NEW. */
    method RemoveAllSubtasksFromEpic(e: int)
      requires e in epics
      modifies this`epics
      ensures epics == old(epics)[e := old(epics)[e].(subTasksIds := [], taskStatus := NEW)]
    {
      epics := epics[e := epics[e].(subTasksIds := [])];
      UpdateEpicStatus(Some(e));
      assert StatusesOf([], subTasks) == [];
    }

    /** `addSubTaskToEpic(epic, subTask)`: null and no change for a null epic;
        otherwise the subtask's id is appended unless already listed, the epic
        is recomputed, and the subtask is returned. */
    method AddSubTaskToEpic(epic: Option<int>, subTask: Entry) returns (r: Option<Entry>)
      requires subTask.id.Some?
      requires epic.Some? ==> epic.value in epics && ListedIn(Link(epics[epic.value], subTask.id.value).subTasksIds, subTasks)
      modifies this`epics
      ensures epic.None? ==> r == None && epics == old(epics)
      ensures epic.Some? ==>
        && r == Some(subTask)
        && epics == old(epics)[epic.value := Recomputed(Link(old(epics)[epic.value], subTask.id.value), subTasks)]
    {
      if epic.None? {
        return None;
      }
      var e := epic.value;
      epics := epics[e := Link(epics[e], subTask.id.value)];
      UpdateEpicStatus(epic);
      r := Some(subTask);
    }

    /** `getHistory()`. */
    method GetHistory() returns (list: seq<Entry>)
      requires historyManager.Valid()
      ensures list == historyManager.Items()
    {
      list := historyManager.GetHistory();
    }
  }
}
