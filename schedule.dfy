/** `prioritizedTasks`, a `TreeSet` ordered by `Comparator.comparing(Task::getStartTime)`,
    and the time-conflict check run against it. Because the comparator looks at the
    start time only, the set behaves as a map from start time to the one entry
    kept for it: `add` keeps the entry already filed under an equal start, and
    `remove(o)` drops whatever entry is filed under `o`'s start. */
module Schedule {
  import opened Types
  import opened Model

  /** `TreeSet.add(t)`. */
  function Add(p: map<Minutes, Entry>, t: Entry): (r: map<Minutes, Entry>)
    ensures t.startTime in r
    ensures t.startTime in p ==> r == p
    ensures t.startTime !in p ==> r[t.startTime] == t && r - {t.startTime} == p
  {
    if t.startTime in p then p else p[t.startTime := t]
  }

  /** `TreeSet.remove(t)` for a non-null `t`. */
  function Remove(p: map<Minutes, Entry>, t: Entry): (r: map<Minutes, Entry>)
    ensures t.startTime !in r
    ensures forall s :: s in r <==> s in p && s != t.startTime
    ensures forall s :: s in r ==> r[s] == p[s]
  {
    p - {t.startTime}
  }

  /** Adding an entry whose start is not yet filed and removing it again gives back
      the set; adding is idempotent. */
  lemma AddRemoveInverse(p: map<Minutes, Entry>, t: Entry)
    ensures t.startTime !in p ==> Remove(Add(p, t), t) == p
    ensures Add(Add(p, t), t) == Add(p, t)
  {
  }

  /** `TreeSet.remove(o)` as the code calls it, where `o` may be null (the value a
      `HashMap.remove` of an absent id returns). With a null argument the
      comparator dereferences it as soon as there is an entry to compare with, so
      the call throws NullPointerException unless the set is empty. */
  function RemoveAsWritten(p: map<Minutes, Entry>, o: Option<Entry>): (r: Result<map<Minutes, Entry>>)
    ensures o.Some? ==> r == Ok(Remove(p, o.value))
    ensures o.None? ==> (r.Ok? <==> p == map[])
    ensures r.Ok? ==> r.value.Keys <= p.Keys
  {
    if o.Some? then Ok(Remove(p, o.value))
    else if p == map[] then Ok(p)
    else Err(NullPointer)
  }

  /** The removal the managers need: a null argument removes nothing. */
  function RemoveIfPresent(p: map<Minutes, Entry>, o: Option<Entry>): (r: map<Minutes, Entry>)
    ensures o.None? ==> r == p
    ensures o.Some? ==> r == Remove(p, o.value)
  {
    if o.None? then p else Remove(p, o.value)
  }

  /** Deleting an absent id with a non-empty schedule: the code as written throws,
      the corrected removal leaves the schedule as it is. */
  lemma RemoveNullThrows(p: map<Minutes, Entry>)
    requires p != map[]
    ensures RemoveAsWritten(p, None) == Err(NullPointer)
    ensures RemoveIfPresent(p, None) == p
  {
  }

  /** Where the code as written does not throw, it agrees with the corrected
      removal. */
  lemma RemoveAsWrittenAgrees(p: map<Minutes, Entry>, o: Option<Entry>)
    requires RemoveAsWritten(p, o).Ok?
    ensures RemoveAsWritten(p, o).value == RemoveIfPresent(p, o)
  {
  }

  /** The stream filter of `checkTaskTime`: some prioritized entry that is not
      `equals` to the candidate crosses its window. */
  predicate Conflicts(p: map<Minutes, Entry>, task: Entry)
  {
    exists s :: s in p && !p[s].Equals(task) && p[s].IsCrossed(task)
  }

  /** `checkTaskTime`: TaskTimeValidateException exactly when there is a conflict. */
  function CheckTaskTime(p: map<Minutes, Entry>, task: Entry): (r: Outcome)
    ensures r.Fail? ==> r.error == TimeConflict
    ensures r == Pass <==> forall s :: s in p && p[s].IsCrossed(task) ==> p[s].Equals(task)
  {
    if Conflicts(p, task) then Fail(TimeConflict) else Pass
  }

  /** An entry `equals` to the candidate (same class and id, as when a stored task
      is updated through a new object carrying its id) never decides the check:
      whatever its window, dropping it does not change the verdict. */
  lemma {:induction false} EqualEntryNeverConflicts(p: map<Minutes, Entry>, s: Minutes, task: Entry)
    requires s in p && p[s].Equals(task)
    ensures Conflicts(p, task) <==> Conflicts(p - {s}, task)
  {
    if Conflicts(p, task) {
      var s' :| s' in p && !p[s'].Equals(task) && p[s'].IsCrossed(task);
      assert s' != s;
      assert s' in p - {s} && (p - {s})[s'] == p[s'];
    }
  }

  /** A window touching the candidate's only at a boundary never conflicts. */
  lemma BoundaryNeverConflicts(p: map<Minutes, Entry>, task: Entry)
    requires forall s :: s in p ==> p[s].endTime <= task.startTime || task.endTime <= p[s].startTime
    ensures !Conflicts(p, task)
  {
  }

  /** No two entries of `p` cross, except entries that are `equals` to each other. */
  predicate Disjoint(p: map<Minutes, Entry>)
  {
    forall s1, s2 :: s1 in p && s2 in p && s1 != s2 && !p[s1].Equals(p[s2]) ==> !p[s1].IsCrossed(p[s2])
  }

  /** The check keeps the schedule free of crossings: a candidate that passed it
      can be added, and removals never create a crossing. */
  lemma {:induction false} CheckKeepsDisjoint(p: map<Minutes, Entry>, t: Entry)
    requires Disjoint(p) && !Conflicts(p, t)
    ensures Disjoint(Add(p, t))
    ensures Disjoint(Remove(p, t))
  {
    var q := Add(p, t);
    forall s1, s2 | s1 in q && s2 in q && s1 != s2 && !q[s1].Equals(q[s2])
      ensures !q[s1].IsCrossed(q[s2])
    {
      if q[s1] == t && s1 !in p {
        assert s2 in p && !p[s2].Equals(t);
        CrossesSymmetricAndBoundary(t.startTime, t.endTime, p[s2].startTime, p[s2].endTime);
      } else if q[s2] == t && s2 !in p {
        assert s1 in p;
        assert !p[s1].Equals(t) ==> !p[s1].IsCrossed(t);
      }
    }
  }

  /** `getPrioritizedTasks()`: a copy of the set, as the entries in start order. */
  function InStartOrder(p: map<Minutes, Entry>): (r: seq<Entry>)
    ensures |r| == |p|
    ensures forall i :: 0 <= i < |r| ==> r[i] in p.Values
    ensures forall t :: t in p.Values ==> t in r
  {
    InKeyOrder(p)
  }

  /** In a set where every entry is filed under its own start, the copy lists the
      entries by strictly increasing start time. */
  lemma InStartOrderSorted(p: map<Minutes, Entry>)
    requires forall s :: s in p ==> p[s].startTime == s
    ensures var r := InStartOrder(p);
      forall i, j :: 0 <= i < j < |r| ==> r[i].startTime < r[j].startTime
  {
  }
}
