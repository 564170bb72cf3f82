/** The three id-keyed stores of the task managers, as values: the invariants they
    keep, how an epic is recomputed from its subtasks, and why each kind of change
    the managers make keeps the invariants. */
module Stores {
  import opened Types
  import opened Model
  import opened Aggregation
  import Schedule

  /** No id occurs twice. */
  predicate NoRepeats(xs: seq<int>)
  {
    forall i, j :: 0 <= i < j < |xs| ==> xs[i] != xs[j]
  }

  /** The ids of a list, as a set. */
  function Elems(xs: seq<int>): (s: set<int>)
    ensures forall x :: x in s <==> x in xs
  {
    set x | x in xs
  }

  /** The epic with `id` appended to its list unless already there, as
      `addSubTaskToEpic` leaves it before the recomputation. */
  function Link(epic: Entry, id: int): (r: Entry)
    ensures id in r.subTasksIds && epic.subTasksIds <= r.subTasksIds
    ensures r.(subTasksIds := epic.subTasksIds) == epic
  {
    epic.(subTasksIds := AppendNew(epic.subTasksIds, id))
  }

  /** The epic with the first occurrence of `id` dropped from its list, as
      `removeSubTaskFromEpic` leaves it before the recomputation. */
  function Unlink(epic: Entry, id: int): (r: Entry)
    ensures forall y :: y in r.subTasksIds ==> y in epic.subTasksIds
    ensures |r.subTasksIds| == if id in epic.subTasksIds then |epic.subTasksIds| - 1 else |epic.subTasksIds|
    ensures r.(subTasksIds := epic.subTasksIds) == epic
  {
    epic.(subTasksIds := RemoveFirst(epic.subTasksIds, id))
  }

  /** `List.remove(Object)`: drops the first occurrence of `x`, if any. */
  function RemoveFirst(xs: seq<int>, x: int): (r: seq<int>)
    ensures forall y :: y in r ==> y in xs
    ensures |r| == if x in xs then |xs| - 1 else |xs|
  {
    if xs == [] then []
    else
      assert xs == [xs[0]] + xs[1..];
      if xs[0] == x then xs[1..]
      else [xs[0]] + RemoveFirst(xs[1..], x)
  }

  /** Removing the first occurrence keeps every other element, adds nothing,
      shortens the list by one exactly when `x` occurs, and in a list without
      repeats removes `x` completely and keeps the list free of repeats. */
  lemma {:induction false} RemoveFirstSpec(xs: seq<int>, x: int)
    ensures forall y :: y in RemoveFirst(xs, x) ==> y in xs
    ensures forall y :: y in xs && y != x ==> y in RemoveFirst(xs, x)
    ensures x !in xs ==> RemoveFirst(xs, x) == xs
    ensures x in xs ==> |RemoveFirst(xs, x)| == |xs| - 1
    ensures NoRepeats(xs) ==> x !in RemoveFirst(xs, x) && NoRepeats(RemoveFirst(xs, x))
  {
    if xs != [] {
      var tail := xs[1..];
      RemoveFirstSpec(tail, x);
      assert xs == [xs[0]] + tail;
      if NoRepeats(xs) {
        assert NoRepeats(tail) by {
          forall i, j | 0 <= i < j < |tail| ensures tail[i] != tail[j] {
            assert tail[i] == xs[i + 1] && tail[j] == xs[j + 1];
          }
        }
        assert xs[0] !in tail by {
          forall j | 0 <= j < |tail| ensures tail[j] != xs[0] {
            assert tail[j] == xs[j + 1];
          }
        }
        if xs[0] != x {
          var r := [xs[0]] + RemoveFirst(tail, x);
          forall i, j | 0 <= i < j < |r| ensures r[i] != r[j] {
            if i == 0 {
              assert r[j] in RemoveFirst(tail, x);
            } else {
              assert r[i] == RemoveFirst(tail, x)[i - 1] && r[j] == RemoveFirst(tail, x)[j - 1];
            }
          }
        }
      }
    }
  }

  /** `if (!list.contains(x)) list.add(x)`. */
  function AppendNew(xs: seq<int>, x: int): (r: seq<int>)
    ensures x in r && xs <= r && |r| <= |xs| + 1
  {
    if x in xs then xs else xs + [x]
  }

  /** Appending only what is missing lists `x` exactly once in a list without
      repeats, and keeps every other element. */
  lemma AppendNewSpec(xs: seq<int>, x: int)
    ensures x in AppendNew(xs, x)
    ensures forall y :: y in AppendNew(xs, x) <==> y in xs || y == x
    ensures NoRepeats(xs) ==> NoRepeats(AppendNew(xs, x))
    ensures x !in xs ==> AppendNew(xs, x) == xs + [x]
  {
    if x !in xs && NoRepeats(xs) {
      var r := xs + [x];
      forall i, j | 0 <= i < j < |r| ensures r[i] != r[j] {
        if j == |xs| {
          assert r[i] in xs;
        } else {
          assert r[i] == xs[i] && r[j] == xs[j];
        }
      }
    }
  }

  /** Every id in `ids` is a key of `subTasks`. */
  predicate ListedIn(ids: seq<int>, subTasks: map<int, Entry>)
  {
    forall j :: 0 <= j < |ids| ==> ids[j] in subTasks
  }

  /** What the aggregation reads from one subtask. */
  function ViewOf(e: Entry): SubView
  {
    SubView(e.taskStatus, e.startTime, e.duration, e.endTime)
  }

  /** The aggregation views of the subtasks with the given ids, in order. */
  function ViewsOf(ids: seq<int>, subTasks: map<int, Entry>): (vs: seq<SubView>)
    requires ListedIn(ids, subTasks)
    ensures |vs| == |ids|
    ensures forall j :: 0 <= j < |ids| ==> vs[j] == ViewOf(subTasks[ids[j]])
  {
    seq(|ids|, j requires 0 <= j < |ids| => ViewOf(subTasks[ids[j]]))
  }

  /** `updateEpicStatus` on a stored epic, as a function of the epic and the
      subtask store. Without subtasks the status becomes NEW, the duration zero
      and the start `LocalDateTime.MIN`; otherwise the status follows the
      first-versus-last rule, the start, duration and end are the earliest start,
      the summed durations and the latest end. `Epic`'s setters assign only their
      own field, so the end is left as it was in the first case. Only the status
      and the three times change. */
  function Aggregate(epic: Entry, subTasks: map<int, Entry>): (r: Entry)
    requires ListedIn(epic.subTasksIds, subTasks)
    ensures r.id == epic.id && r.name == epic.name && r.description == epic.description
    ensures r.kind == epic.kind && r.epicId == epic.epicId && r.subTasksIds == epic.subTasksIds
  {
    var vs := ViewsOf(epic.subTasksIds, subTasks);
    if vs == [] then epic.(taskStatus := NEW, duration := 0, startTime := MIN_TIME)
    else epic.(taskStatus := FirstLastStatus(Statuses(vs)), startTime := MinStart(vs),
               duration := TotalDuration(vs), endTime := MaxEnd(vs))
  }

  /** The times of a recomputed epic against the subtasks it lists: its start is
      at most every subtask start, and is one of them unless it is
      `LocalDateTime.MAX`; its end is at least every subtask end, and is one of
      them unless it is `MIN.plusYears(1)`. */
  lemma AggregateTimes(epic: Entry, subTasks: map<int, Entry>)
    requires ListedIn(epic.subTasksIds, subTasks)
    ensures var r, ids := Aggregate(epic, subTasks), epic.subTasksIds;
      && (forall x :: x in ids ==> r.startTime <= subTasks[x].startTime && subTasks[x].endTime <= r.endTime)
      && (ids != [] ==> r.startTime == MAX_TIME || exists x :: x in ids && subTasks[x].startTime == r.startTime)
      && (ids != [] ==> r.endTime == MIN_PLUS_YEAR || exists x :: x in ids && subTasks[x].endTime == r.endTime)
  {
    var ids := epic.subTasksIds;
    if ids != [] {
      var vs := ViewsOf(ids, subTasks);
      ViewTimes(ids, subTasks);
      var r := Aggregate(epic, subTasks);
      assert r.startTime == MinStart(vs) && r.endTime == MaxEnd(vs);
    }
  }

  /** The earliest start and latest end over the views of `ids` bound every
      subtask the ids name, and each is one of theirs unless it is still its
      initial value. */
  lemma ViewTimes(ids: seq<int>, subTasks: map<int, Entry>)
    requires ListedIn(ids, subTasks)
    ensures var vs := ViewsOf(ids, subTasks);
      && (forall x :: x in ids ==> MinStart(vs) <= subTasks[x].startTime && subTasks[x].endTime <= MaxEnd(vs))
      && (MinStart(vs) == MAX_TIME || exists x :: x in ids && subTasks[x].startTime == MinStart(vs))
      && (MaxEnd(vs) == MIN_PLUS_YEAR || exists x :: x in ids && subTasks[x].endTime == MaxEnd(vs))
  {
    var vs := ViewsOf(ids, subTasks);
    MinStartIsEarliest(vs);
    MaxEndIsLatest(vs);
    forall x | x in ids
      ensures MinStart(vs) <= subTasks[x].startTime && subTasks[x].endTime <= MaxEnd(vs)
    {
      var j :| 0 <= j < |ids| && ids[j] == x;
      assert vs[j] == ViewOf(subTasks[x]);
    }
    StartAttained(ids, subTasks, vs);
    EndAttained(ids, subTasks, vs);
  }

  /** A start attained by a view is attained by the subtask it was read from. */
  lemma StartAttained(ids: seq<int>, subTasks: map<int, Entry>, vs: seq<SubView>)
    requires ListedIn(ids, subTasks) && vs == ViewsOf(ids, subTasks)
    requires MinStart(vs) == MAX_TIME || exists j :: 0 <= j < |vs| && vs[j].start == MinStart(vs)
    ensures MinStart(vs) == MAX_TIME || exists x :: x in ids && subTasks[x].startTime == MinStart(vs)
  {
    if MinStart(vs) != MAX_TIME {
      var j :| 0 <= j < |vs| && vs[j].start == MinStart(vs);
      var x := ids[j];
      assert vs[j] == ViewOf(subTasks[x]);
      assert x in ids && subTasks[x].startTime == MinStart(vs);
    }
  }

  /** An end attained by a view is attained by the subtask it was read from. */
  lemma EndAttained(ids: seq<int>, subTasks: map<int, Entry>, vs: seq<SubView>)
    requires ListedIn(ids, subTasks) && vs == ViewsOf(ids, subTasks)
    requires MaxEnd(vs) == MIN_PLUS_YEAR || exists j :: 0 <= j < |vs| && vs[j].end == MaxEnd(vs)
    ensures MaxEnd(vs) == MIN_PLUS_YEAR || exists x :: x in ids && subTasks[x].endTime == MaxEnd(vs)
  {
    if MaxEnd(vs) != MIN_PLUS_YEAR {
      var j :| 0 <= j < |vs| && vs[j].end == MaxEnd(vs);
      var x := ids[j];
      assert vs[j] == ViewOf(subTasks[x]);
      assert x in ids && subTasks[x].endTime == MaxEnd(vs);
    }
  }

  /** The status and duration of a recomputed epic: without subtasks NEW, zero,
      and the start `LocalDateTime.MIN` with the end kept; otherwise the first
      subtask's status when the last one has the same status and IN_PROGRESS when
      it has not, and a duration that is not negative when no subtask's is. */
  lemma AggregateStatus(epic: Entry, subTasks: map<int, Entry>)
    requires ListedIn(epic.subTasksIds, subTasks)
    ensures var r, ids := Aggregate(epic, subTasks), epic.subTasksIds;
      && (ids == [] ==> r.taskStatus == NEW && r.duration == 0 && r.startTime == MIN_TIME && r.endTime == epic.endTime)
      && (ids != [] && subTasks[ids[0]].taskStatus == subTasks[ids[|ids| - 1]].taskStatus ==>
            r.taskStatus == subTasks[ids[0]].taskStatus)
      && (ids != [] && subTasks[ids[0]].taskStatus != subTasks[ids[|ids| - 1]].taskStatus ==>
            r.taskStatus == IN_PROGRESS)
      && ((forall x :: x in ids ==> subTasks[x].duration >= 0) ==> r.duration >= 0)
  {
    var ids := epic.subTasksIds;
    var vs := ViewsOf(ids, subTasks);
    if ids != [] {
      assert vs[0] == ViewOf(subTasks[ids[0]]) && vs[|vs| - 1] == ViewOf(subTasks[ids[|ids| - 1]]);
      if forall x :: x in ids ==> subTasks[x].duration >= 0 {
        forall j | 0 <= j < |vs| ensures vs[j].duration >= 0 {
          assert ids[j] in ids;
        }
        TotalDurationNonNegative(vs);
      }
    }
  }

  /** Recomputing a recomputed epic changes nothing. */
  lemma AggregateIdempotent(epic: Entry, subTasks: map<int, Entry>)
    requires ListedIn(epic.subTasksIds, subTasks)
    ensures Aggregate(Aggregate(epic, subTasks), subTasks) == Aggregate(epic, subTasks)
  {
  }

  /** The recomputation reads only the subtasks the epic lists. */
  lemma AggregateFrame(epic: Entry, s1: map<int, Entry>, s2: map<int, Entry>)
    requires ListedIn(epic.subTasksIds, s1)
    requires forall j :: 0 <= j < |epic.subTasksIds| ==>
      epic.subTasksIds[j] in s2 && s2[epic.subTasksIds[j]] == s1[epic.subTasksIds[j]]
    ensures ListedIn(epic.subTasksIds, s2)
    ensures Aggregate(epic, s2) == Aggregate(epic, s1)
  {
    assert ViewsOf(epic.subTasksIds, s1) == ViewsOf(epic.subTasksIds, s2);
  }

  /** Every entry of `store` is of class `kind`, filed under its own id, and no id
      exceeds the counter. */
  ghost predicate Filed(store: map<int, Entry>, kind: TaskType, counter: int)
  {
    forall k {:trigger k in store} :: k in store ==> store[k].kind == kind && store[k].id == Some(k) && k <= counter
  }

  lemma FiledAt(store: map<int, Entry>, kind: TaskType, counter: int, k: int)
    requires Filed(store, kind, counter) && k in store
    ensures store[k].kind == kind
  {
  }

  /** Every prioritized entry is filed under its own start time, and no epic is
      prioritized. */
  ghost predicate Scheduled(p: map<Minutes, Entry>)
  {
    forall s :: s in p ==> p[s].startTime == s && p[s].kind != EPIC
  }

  /** Adding an entry that is not an epic, and dropping start times, keep every
      prioritized entry filed under its own start. */
  lemma ScheduledAdd(p: map<Minutes, Entry>, t: Entry)
    requires Scheduled(p) && t.kind != EPIC
    ensures Scheduled(Schedule.Add(p, t))
  {
    var r := Schedule.Add(p, t);
    forall s | s in r ensures r[s].startTime == s && r[s].kind != EPIC {
      if s != t.startTime {
        assert s in r - {t.startTime};
      }
    }
  }

  /** Dropping start times keeps every remaining entry filed under its start. */
  lemma ScheduledMinus(p: map<Minutes, Entry>, starts: set<Minutes>)
    requires Scheduled(p)
    ensures Scheduled(p - starts)
  {
  }

  /** Each epic lists, without repeats, exactly the stored subtasks that name it as
      their epic. */
  ghost predicate Owns(epics: map<int, Entry>, subTasks: map<int, Entry>)
  {
    && (forall e, x {:trigger x in epics[e].subTasksIds} ::
          e in epics && x in epics[e].subTasksIds ==> x in subTasks && subTasks[x].epicId == e)
    && (forall e {:trigger NoRepeats(epics[e].subTasksIds)} :: e in epics ==> NoRepeats(epics[e].subTasksIds))
    && (forall s {:trigger s in subTasks} ::
          s in subTasks ==> subTasks[s].epicId in epics && s in epics[subTasks[s].epicId].subTasksIds)
  }

  /** The epic lists only stored subtasks and recomputing it changes nothing. */
  ghost predicate Settled(epic: Entry, subTasks: map<int, Entry>)
  {
    ListedIn(epic.subTasksIds, subTasks) && epic == Aggregate(epic, subTasks)
  }

  /** Every epic is as `updateEpicStatus` leaves it. */
  ghost predicate Consistent(epics: map<int, Entry>, subTasks: map<int, Entry>)
  {
    forall e {:trigger Settled(epics[e], subTasks)} :: e in epics ==> Settled(epics[e], subTasks)
  }

  /** `x` is listed by no epic other than `e`. */
  ghost predicate ListedOnlyBy(epics: map<int, Entry>, x: int, e: int)
  {
    forall e' {:trigger x in epics[e'].subTasksIds} :: e' in epics && e' != e ==> x !in epics[e'].subTasksIds
  }

  /** Under ownership a stored subtask is listed, once, by its own epic and by no
      other. */
  lemma OwnedOnce(epics: map<int, Entry>, subTasks: map<int, Entry>, x: int)
    requires Owns(epics, subTasks) && x in subTasks
    ensures subTasks[x].epicId in epics && x in epics[subTasks[x].epicId].subTasksIds
    ensures NoRepeats(epics[subTasks[x].epicId].subTasksIds)
    ensures ListedOnlyBy(epics, x, subTasks[x].epicId)
  {
  }

  /** A new epic that lists nothing, filed under an id no subtask names, keeps
      ownership. */
  lemma NewEpicOwns(epics: map<int, Entry>, subTasks: map<int, Entry>, id: int, epic: Entry)
    requires Owns(epics, subTasks) && id !in epics && epic.subTasksIds == []
    ensures Owns(epics[id := epic], subTasks)
  {
  }

  /** A new epic, recomputed and filed under a new id, keeps consistency. */
  lemma NewEpicConsistent(epics: map<int, Entry>, subTasks: map<int, Entry>, id: int, epic: Entry)
    requires Consistent(epics, subTasks) && epic.subTasksIds == []
    ensures Consistent(epics[id := Aggregate(epic, subTasks)], subTasks)
  {
    var e2 := epics[id := Aggregate(epic, subTasks)];
    forall e' | e' in e2
      ensures Settled(e2[e'], subTasks)
    {
      if e' == id {
        AggregateIdempotent(epic, subTasks);
      } else {
        assert Settled(epics[e'], subTasks);
      }
    }
  }

  /** A new subtask filed under a fresh id and appended to its stored epic's list
      keeps ownership. */
  lemma LinkOwns(epics: map<int, Entry>, subTasks: map<int, Entry>, id: int, st: Entry, linked: Entry)
    requires Owns(epics, subTasks) && id !in subTasks && st.epicId in epics
    requires linked.subTasksIds == AppendNew(epics[st.epicId].subTasksIds, id)
    ensures id !in epics[st.epicId].subTasksIds
    ensures Owns(epics[st.epicId := linked], subTasks[id := st])
  {
    AppendNewSpec(epics[st.epicId].subTasksIds, id);
  }

  /** A new subtask filed under a fresh id and appended to its epic's list, with
      that epic recomputed, keeps consistency: no other epic lists the new id. */
  lemma LinkConsistent(epics: map<int, Entry>, subTasks: map<int, Entry>, id: int, st: Entry)
    requires Consistent(epics, subTasks) && id !in subTasks && st.epicId in epics
    ensures var s2, e := subTasks[id := st], st.epicId;
      var linked := Link(epics[e], id);
      && ListedIn(linked.subTasksIds, s2)
      && Consistent(epics[e := Aggregate(linked, s2)], s2)
  {
    var s2, e := subTasks[id := st], st.epicId;
    AppendNewSpec(epics[e].subTasksIds, id);
    var linked := Link(epics[e], id);
    assert Settled(epics[e], subTasks);
    var e2 := epics[e := Aggregate(linked, s2)];
    forall e' | e' in e2
      ensures Settled(e2[e'], s2)
    {
      if e' == e {
        AggregateIdempotent(linked, s2);
      } else {
        assert Settled(epics[e'], subTasks);
        SettledElsewhere(epics[e'], subTasks, s2, id);
      }
    }
  }
  /** Filing a new subtask, appending it to its epic's list and recomputing that
      epic keeps ownership and consistency; recomputing the epic once more
      changes nothing. */
  lemma LinkKeeps(epics: map<int, Entry>, subTasks: map<int, Entry>, id: int, st: Entry)
    requires Owns(epics, subTasks) && Consistent(epics, subTasks)
    requires id !in subTasks && st.epicId in epics
    ensures id !in epics[st.epicId].subTasksIds
    ensures Link(epics[st.epicId], id).subTasksIds == epics[st.epicId].subTasksIds + [id]
    ensures var s2, e := subTasks[id := st], st.epicId;
      var linked := Link(epics[e], id);
      && ListedIn(linked.subTasksIds, s2)
      && Aggregate(Aggregate(linked, s2), s2) == Aggregate(linked, s2)
      && Owns(epics[e := Aggregate(linked, s2)], s2)
      && Consistent(epics[e := Aggregate(linked, s2)], s2)
  {
    var s2, e := subTasks[id := st], st.epicId;
    LinkConsistent(epics, subTasks, id, st);
    var linked := Link(epics[e], id);
    LinkOwns(epics, subTasks, id, st, Aggregate(linked, s2));
    AggregateIdempotent(linked, s2);
    AppendNewSpec(epics[e].subTasksIds, id);
  }


  /** Replacing a stored subtask by an entry naming the same epic keeps
      ownership. */
  lemma ReplaceOwns(epics: map<int, Entry>, subTasks: map<int, Entry>, id: int, st: Entry, e2: map<int, Entry>)
    requires Owns(epics, subTasks) && id in subTasks && st.epicId == subTasks[id].epicId
    requires e2.Keys == epics.Keys && forall e :: e in epics ==> e2[e].subTasksIds == epics[e].subTasksIds
    ensures Owns(e2, subTasks[id := st])
  {
  }

  /** Replacing a stored subtask by one naming the same epic and recomputing that
      epic keeps ownership and consistency. */
  lemma ReplaceKeeps(epics: map<int, Entry>, subTasks: map<int, Entry>, id: int, st: Entry)
    requires Owns(epics, subTasks) && Consistent(epics, subTasks)
    requires id in subTasks && st.epicId == subTasks[id].epicId
    ensures st.epicId in epics
    ensures var s2, e := subTasks[id := st], st.epicId;
      && ListedIn(epics[e].subTasksIds, s2)
      && Owns(epics[e := Aggregate(epics[e], s2)], s2)
      && Consistent(epics[e := Aggregate(epics[e], s2)], s2)
  {
    var s2, e := subTasks[id := st], st.epicId;
    OwnedOnce(epics, subTasks, id);
    ReplaceConsistent(epics, subTasks, id, st, e);
    ReplaceOwns(epics, subTasks, id, st, epics[e := Aggregate(epics[e], s2)]);
  }

  /** Replacing a subtask listed only by epic `e` and recomputing `e` keeps
      consistency. */
  lemma ReplaceConsistent(epics: map<int, Entry>, subTasks: map<int, Entry>, id: int, st: Entry, e: int)
    requires Consistent(epics, subTasks) && id in subTasks && e in epics
    requires ListedOnlyBy(epics, id, e)
    ensures var s2 := subTasks[id := st];
      && ListedIn(epics[e].subTasksIds, s2)
      && Consistent(epics[e := Aggregate(epics[e], s2)], s2)
  {
    var s2 := subTasks[id := st];
    assert Settled(epics[e], subTasks);
    var e2 := epics[e := Aggregate(epics[e], s2)];
    forall e' | e' in e2
      ensures Settled(e2[e'], s2)
    {
      if e' == e {
        AggregateIdempotent(epics[e], s2);
      } else {
        assert Settled(epics[e'], subTasks);
        SettledElsewhere(epics[e'], subTasks, s2, id);
      }
    }
  }

  /** Changing an epic's name and description keeps ownership and consistency. */
  lemma RenameConsistent(epics: map<int, Entry>, subTasks: map<int, Entry>, id: int, name: string, description: string)
    requires Consistent(epics, subTasks) && id in epics
    ensures Consistent(epics[id := epics[id].(name := name, description := description)], subTasks)
  {
    var e2 := epics[id := epics[id].(name := name, description := description)];
    forall e' | e' in e2
      ensures Settled(e2[e'], subTasks)
    {
      assert Settled(epics[e'], subTasks);
    }
  }

  /** Changing an epic's name and description keeps ownership. */
  lemma RenameOwns(epics: map<int, Entry>, subTasks: map<int, Entry>, id: int, renamed: Entry)
    requires Owns(epics, subTasks) && id in epics && renamed.subTasksIds == epics[id].subTasksIds
    ensures Owns(epics[id := renamed], subTasks)
  {
  }

  /** Under ownership no epic other than `id` lists a subtask that `id` lists. */
  lemma ListedOnlyByOwner(epics: map<int, Entry>, subTasks: map<int, Entry>, id: int)
    requires Owns(epics, subTasks) && id in epics
    ensures forall x :: x in Elems(epics[id].subTasksIds) ==> ListedOnlyBy(epics, x, id)
  {
  }

  /** The lookup `getEpicSubtasks` performs: each listed id mapped through the
      store, null where it is not stored. */
  function Lookup(ids: seq<int>, subTasks: map<int, Entry>): (r: seq<Option<Entry>>)
    ensures |r| == |ids|
    ensures forall j :: 0 <= j < |ids| ==> (r[j].Some? <==> ids[j] in subTasks)
    ensures forall j :: 0 <= j < |ids| && ids[j] in subTasks ==> r[j] == Some(subTasks[ids[j]])
  {
    seq(|ids|, j requires 0 <= j < |ids| => if ids[j] in subTasks then Some(subTasks[ids[j]]) else None)
  }

  /** Under ownership the lookup of an epic's list finds every subtask once:
      all stored, all naming the epic, no two alike, and every stored subtask
      naming the epic among them. */
  lemma LookupOwned(epics: map<int, Entry>, subTasks: map<int, Entry>, counter: int, id: int)
    requires Owns(epics, subTasks) && Filed(subTasks, SUBTASK, counter) && id in epics
    ensures var r := Lookup(epics[id].subTasksIds, subTasks);
      && (forall j :: 0 <= j < |r| ==> r[j].Some? && r[j].value.epicId == id && r[j].value.kind == SUBTASK)
      && (forall j, k :: 0 <= j < k < |r| ==> r[j] != r[k])
      && (forall s :: s in subTasks && subTasks[s].epicId == id ==> Some(subTasks[s]) in r)
  {
    var ids := epics[id].subTasksIds;
    var r := Lookup(ids, subTasks);
    forall j | 0 <= j < |r| ensures r[j].Some? && r[j].value.epicId == id && r[j].value.kind == SUBTASK {
      assert ids[j] in ids;
      FiledAt(subTasks, SUBTASK, counter, ids[j]);
    }
    assert NoRepeats(ids);
    forall j, k | 0 <= j < k < |r| ensures r[j] != r[k] {
      assert ids[j] in ids && ids[k] in ids;
      assert r[j].value.id == Some(ids[j]) && r[k].value.id == Some(ids[k]);
    }
    forall s | s in subTasks && subTasks[s].epicId == id ensures Some(subTasks[s]) in r {
      var j :| 0 <= j < |ids| && ids[j] == s;
      assert r[j] == Some(subTasks[s]);
    }
  }

  /** Removing a stored subtask and dropping it from its epic's list keeps
      ownership. */
  lemma UnlinkOwns(epics: map<int, Entry>, subTasks: map<int, Entry>, id: int, unlinked: Entry)
    requires Owns(epics, subTasks) && id in subTasks
    requires var e := subTasks[id].epicId;
      unlinked == Unlink(epics[e], id)
    ensures Owns(epics[subTasks[id].epicId := unlinked], subTasks - {id})
  {
    OwnedOnce(epics, subTasks, id);
    RemoveFirstSpec(epics[subTasks[id].epicId].subTasksIds, id);
  }

  /** Dropping the only occurrence of `id` from a list of stored ids leaves a
      list of ids stored once `id` is removed. */
  lemma RemoveFirstListed(ids: seq<int>, id: int, subTasks: map<int, Entry>)
    requires ListedIn(ids, subTasks) && NoRepeats(ids)
    ensures ListedIn(RemoveFirst(ids, id), subTasks - {id})
  {
    RemoveFirstSpec(ids, id);
    var rest := RemoveFirst(ids, id);
    forall j | 0 <= j < |rest| ensures rest[j] in subTasks - {id} {
      assert rest[j] in rest;
      var i :| 0 <= i < |ids| && ids[i] == rest[j];
    }
  }

  /** An epic that does not list `id` stays settled whatever happens to `id`. */
  lemma SettledElsewhere(epic: Entry, s1: map<int, Entry>, s2: map<int, Entry>, id: int)
    requires Settled(epic, s1) && id !in epic.subTasksIds && s1 - {id} == s2 - {id}
    ensures Settled(epic, s2)
  {
    var ids := epic.subTasksIds;
    forall j | 0 <= j < |ids| ensures ids[j] in s2 && s2[ids[j]] == s1[ids[j]] {
      assert ids[j] in ids && ids[j] in s1 - {id};
      assert (s1 - {id})[ids[j]] == s1[ids[j]] && (s2 - {id})[ids[j]] == s2[ids[j]];
    }
    AggregateFrame(epic, s1, s2);
  }

  /** Removing a subtask that only epic `e` lists, and only once, dropping it from
      the list and recomputing `e` keeps consistency. */
  lemma UnlinkConsistent(epics: map<int, Entry>, subTasks: map<int, Entry>, id: int, e: int)
    requires Consistent(epics, subTasks) && e in epics
    requires ListedOnlyBy(epics, id, e) && NoRepeats(epics[e].subTasksIds)
    ensures var s2 := subTasks - {id};
      var unlinked := Unlink(epics[e], id);
      && ListedIn(unlinked.subTasksIds, s2)
      && Consistent(epics[e := Aggregate(unlinked, s2)], s2)
  {
    var s2 := subTasks - {id};
    var ids := epics[e].subTasksIds;
    assert Settled(epics[e], subTasks);
    var unlinked := Unlink(epics[e], id);
    RemoveFirstListed(ids, id, subTasks);
    var e2 := epics[e := Aggregate(unlinked, s2)];
    forall e' | e' in e2
      ensures Settled(e2[e'], s2)
    {
      if e' == e {
        AggregateIdempotent(unlinked, s2);
      } else {
        assert Settled(epics[e'], subTasks);
        SettledElsewhere(epics[e'], subTasks, s2, id);
      }
    }
  }

  /** Removing a stored subtask, dropping it from its epic's list and recomputing
      that epic keeps ownership and consistency; the id is gone from the list,
      and recomputing the epic once more changes nothing. */
  lemma UnlinkKeeps(epics: map<int, Entry>, subTasks: map<int, Entry>, id: int)
    requires Owns(epics, subTasks) && Consistent(epics, subTasks) && id in subTasks
    ensures subTasks[id].epicId in epics
    ensures var s2, e := subTasks - {id}, subTasks[id].epicId;
      var unlinked := Unlink(epics[e], id);
      && id !in unlinked.subTasksIds
      && ListedIn(unlinked.subTasksIds, s2)
      && Aggregate(Aggregate(unlinked, s2), s2) == Aggregate(unlinked, s2)
      && Owns(epics[e := Aggregate(unlinked, s2)], s2)
      && Consistent(epics[e := Aggregate(unlinked, s2)], s2)
  {
    var s2, e := subTasks - {id}, subTasks[id].epicId;
    OwnedOnce(epics, subTasks, id);
    var unlinked := Unlink(epics[e], id);
    RemoveFirstSpec(epics[e].subTasksIds, id);
    UnlinkOwns(epics, subTasks, id, unlinked);
    UnlinkConsistent(epics, subTasks, id, e);
    RenameOwns(epics[e := unlinked], s2, e, Aggregate(unlinked, s2));
    assert epics[e := unlinked][e := Aggregate(unlinked, s2)] == epics[e := Aggregate(unlinked, s2)];
    AggregateIdempotent(unlinked, s2);
  }

  /** Removing a stored epic together with the subtasks it lists removes exactly
      the subtasks that name it, and keeps ownership. */
  lemma RemoveEpicOwns(epics: map<int, Entry>, subTasks: map<int, Entry>, id: int)
    requires Owns(epics, subTasks) && id in epics
    ensures var s2 := subTasks - Elems(epics[id].subTasksIds);
      && (forall s :: s in s2 <==> s in subTasks && subTasks[s].epicId != id)
      && Owns(epics - {id}, s2)
  {
  }

  /** Removing an epic and only subtasks that no other epic lists keeps
      consistency. */
  lemma RemoveEpicConsistent(epics: map<int, Entry>, subTasks: map<int, Entry>, id: int, gone: set<int>)
    requires Consistent(epics, subTasks)
    requires forall x :: x in gone ==> ListedOnlyBy(epics, x, id)
    ensures Consistent(epics - {id}, subTasks - gone)
  {
    var s2 := subTasks - gone;
    var e2 := epics - {id};
    forall e' | e' in e2
      ensures Settled(e2[e'], s2)
    {
      var ids := epics[e'].subTasksIds;
      assert Settled(epics[e'], subTasks);
      forall j | 0 <= j < |ids| ensures ids[j] !in gone {
        assert ids[j] in gone ==> ListedOnlyBy(epics, ids[j], id);
        assert ids[j] in epics[e'].subTasksIds;
      }
      AggregateFrame(epics[e'], subTasks, s2);
    }
  }
  /** Removing a stored epic together with the subtasks it lists keeps ownership
      and consistency, and removes exactly the subtasks that name the epic. */
  lemma RemoveEpicKeeps(epics: map<int, Entry>, subTasks: map<int, Entry>, id: int)
    requires Owns(epics, subTasks) && Consistent(epics, subTasks) && id in epics
    ensures var s2 := subTasks - Elems(epics[id].subTasksIds);
      && (forall s :: s in s2 <==> s in subTasks && subTasks[s].epicId != id)
      && Owns(epics - {id}, s2)
      && Consistent(epics - {id}, s2)
  {
    RemoveEpicOwns(epics, subTasks, id);
    ListedOnlyByOwner(epics, subTasks, id);
    RemoveEpicConsistent(epics, subTasks, id, Elems(epics[id].subTasksIds));
  }


  /** An epic whose list has been emptied and which has been recomputed. */
  function Reset(epic: Entry): (r: Entry)
    ensures r.subTasksIds == [] && r.taskStatus == NEW && r.duration == 0 && r.startTime == MIN_TIME
    ensures r.id == epic.id && r.kind == epic.kind && r.endTime == epic.endTime
  {
    epic.(subTasksIds := [], taskStatus := NEW, duration := 0, startTime := MIN_TIME)
  }

  /** A reset epic is the recomputation of the epic with an empty list, whatever
      the subtask store holds, and resetting twice changes nothing more. */
  lemma ResetIsAggregate(epic: Entry, subTasks: map<int, Entry>)
    ensures ListedIn([], subTasks)
    ensures Reset(epic) == Aggregate(epic.(subTasksIds := []), subTasks)
    ensures Reset(Reset(epic)) == Reset(epic)
  {
    assert ViewsOf([], subTasks) == [];
  }

  /** With every subtask removed and every epic reset, ownership and consistency
      hold. */
  lemma ResetKeeps(epics: map<int, Entry>)
    requires forall e :: e in epics ==> epics[e].subTasksIds == [] && epics[e] == Reset(epics[e])
    ensures Owns(epics, map[]) && Consistent(epics, map[])
  {
  }
}
