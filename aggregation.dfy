/** How an epic's status, start, duration and end follow from its subtasks. The
    functions here are the specifications the managers' aggregation loops are
    proved against; each folds over the subtasks in list order, as the loops do. */
module Aggregation {
  import opened Types

  /** What the aggregation reads from one subtask. */
  datatype SubView = SubView(status: Status, start: Minutes, duration: Minutes, end: Minutes)

  /** The statuses of `vs`, in order. */
  function Statuses(vs: seq<SubView>): (ss: seq<Status>)
    ensures |ss| == |vs|
    ensures forall i :: 0 <= i < |vs| ==> ss[i] == vs[i].status
  {
    if vs == [] then [] else Statuses(vs[..|vs| - 1]) + [vs[|vs| - 1].status]
  }

  /** The epic start of `updateEpicWithSubtasks`: begins at `LocalDateTime.MAX` and
      is replaced by every strictly earlier subtask start. */
  function MinStart(vs: seq<SubView>): Minutes
  {
    if vs == [] then MAX_TIME
    else
      var m := MinStart(vs[..|vs| - 1]);
      if vs[|vs| - 1].start < m then vs[|vs| - 1].start else m
  }

  /** The epic end of `updateEpicWithSubtasks`: begins one year after
      `LocalDateTime.MIN` and is replaced by every strictly later subtask end. */
  function MaxEnd(vs: seq<SubView>): Minutes
  {
    if vs == [] then MIN_PLUS_YEAR
    else
      var m := MaxEnd(vs[..|vs| - 1]);
      if vs[|vs| - 1].end > m then vs[|vs| - 1].end else m
  }

  /** The epic duration: the sum of the subtask durations in minutes. */
  function TotalDuration(vs: seq<SubView>): Minutes
  {
    if vs == [] then 0 else TotalDuration(vs[..|vs| - 1]) + vs[|vs| - 1].duration
  }

  /** The epic start is a lower bound of all subtask starts, at most
      `LocalDateTime.MAX`, and, unless it is still that initial value, the start of
      one of the subtasks. */
  lemma {:induction false} MinStartIsEarliest(vs: seq<SubView>)
    ensures MinStart(vs) <= MAX_TIME
    ensures forall i :: 0 <= i < |vs| ==> MinStart(vs) <= vs[i].start
    ensures MinStart(vs) == MAX_TIME || exists i :: 0 <= i < |vs| && vs[i].start == MinStart(vs)
  {
    if vs != [] {
      var init := vs[..|vs| - 1];
      MinStartIsEarliest(init);
      assert forall i :: 0 <= i < |init| ==> init[i] == vs[i];
      if MinStart(vs) != MAX_TIME && MinStart(vs) == MinStart(init) {
        var i :| 0 <= i < |init| && init[i].start == MinStart(init);
        assert vs[i].start == MinStart(vs);
      }
    }
  }

  /** The epic end is an upper bound of all subtask ends, at least one year after
      `LocalDateTime.MIN`, and, unless it is still that initial value, the end of
      one of the subtasks. */
  lemma {:induction false} MaxEndIsLatest(vs: seq<SubView>)
    ensures MIN_PLUS_YEAR <= MaxEnd(vs)
    ensures forall i :: 0 <= i < |vs| ==> vs[i].end <= MaxEnd(vs)
    ensures MaxEnd(vs) == MIN_PLUS_YEAR || exists i :: 0 <= i < |vs| && vs[i].end == MaxEnd(vs)
  {
    if vs != [] {
      var init := vs[..|vs| - 1];
      MaxEndIsLatest(init);
      assert forall i :: 0 <= i < |init| ==> init[i] == vs[i];
      if MaxEnd(vs) != MIN_PLUS_YEAR && MaxEnd(vs) == MaxEnd(init) {
        var i :| 0 <= i < |init| && init[i].end == MaxEnd(init);
        assert vs[i].end == MaxEnd(vs);
      }
    }
  }

  /** With no negative subtask duration, the epic duration is not negative. */
  lemma {:induction false} TotalDurationNonNegative(vs: seq<SubView>)
    requires forall i :: 0 <= i < |vs| ==> vs[i].duration >= 0
    ensures TotalDuration(vs) >= 0
  {
    if vs != [] {
      var init := vs[..|vs| - 1];
      assert forall i :: 0 <= i < |init| ==> init[i] == vs[i];
      TotalDurationNonNegative(init);
    }
  }

  /** One step of the aggregation loop: extending the prefix `vs[..k]` by `vs[k]`
      updates the earliest start, the latest end and the total as the loop body
      does. */
  lemma FoldStep(vs: seq<SubView>, k: nat)
    requires k < |vs|
    ensures MinStart(vs[..k + 1]) == if vs[k].start < MinStart(vs[..k]) then vs[k].start else MinStart(vs[..k])
    ensures MaxEnd(vs[..k + 1]) == if vs[k].end > MaxEnd(vs[..k]) then vs[k].end else MaxEnd(vs[..k])
    ensures TotalDuration(vs[..k + 1]) == TotalDuration(vs[..k]) + vs[k].duration
  {
    assert vs[..k + 1][..k] == vs[..k];
  }

  /** The duration of a concatenation is the sum of the two durations, so the
      epic duration does not depend on how the list is split. */
  lemma {:induction false} TotalDurationAppend(a: seq<SubView>, b: seq<SubView>)
    ensures TotalDuration(a + b) == TotalDuration(a) + TotalDuration(b)
    decreases |b|
  {
    if b == [] {
      assert a + b == a;
    } else {
      var b' := b[..|b| - 1];
      assert (a + b)[..|a + b| - 1] == a + b';
      TotalDurationAppend(a, b');
    }
  }

  /** The status rule of `updateEpicWithSubtasks` (memory manager). `isAllSame` is
      overwritten on every step rather than accumulated, so only the first and the
      last status are compared: the epic takes the first status when the last one
      equals it, and IN_PROGRESS otherwise. */
  function FirstLastStatus(ss: seq<Status>): (r: Status)
    requires ss != []
    ensures r == ss[0] || r == IN_PROGRESS
    ensures ss[0] == ss[|ss| - 1] ==> r == ss[0]
    ensures ss[0] != ss[|ss| - 1] ==> r == IN_PROGRESS
  {
    if ss[0] == ss[|ss| - 1] then ss[0] else IN_PROGRESS
  }

  /** Every status in `ss` equals the first one. */
  predicate AllSame(ss: seq<Status>)
  {
    forall i :: 0 <= i < |ss| ==> ss[i] == ss[0]
  }

  /** The status rule of the legacy manager's `updateEpicStatus`: NEW without
      subtasks, the common status when all subtasks share one, IN_PROGRESS as soon
      as one differs from the first. */
  function AllSameStatus(ss: seq<Status>): (r: Status)
    ensures ss == [] ==> r == NEW
    ensures ss != [] && AllSame(ss) ==> r == ss[0]
    ensures ss != [] && !AllSame(ss) ==> r == IN_PROGRESS
  {
    if ss == [] then NEW else if AllSame(ss) then ss[0] else IN_PROGRESS
  }

  /** The two rules agree whenever the subtasks share one status, and whenever
      there are at most two subtasks (then the first and the last are all of
      them). */
  lemma StatusRulesAgree(ss: seq<Status>)
    requires ss != []
    requires AllSame(ss) || |ss| <= 2
    ensures FirstLastStatus(ss) == AllSameStatus(ss)
  {
    if |ss| == 2 && ss[0] == ss[1] {
      assert AllSame(ss);
    }
  }

  /** Wherever the two rules disagree, the memory manager reports the first
      status although not all subtasks share it, and the legacy manager reports
      IN_PROGRESS. */
  lemma StatusRulesDisagreement(ss: seq<Status>)
    requires ss != []
    requires FirstLastStatus(ss) != AllSameStatus(ss)
    ensures |ss| >= 3 && !AllSame(ss) && ss[0] == ss[|ss| - 1]
    ensures FirstLastStatus(ss) == ss[0] != IN_PROGRESS
    ensures AllSameStatus(ss) == IN_PROGRESS
  {
    if |ss| <= 2 {
      StatusRulesAgree(ss);
    }
  }

  /** The memory manager's status depends on the first and the last subtask only:
      any middle part can be replaced without changing it. */
  lemma FirstLastIgnoresMiddle(first: Status, middle1: seq<Status>, middle2: seq<Status>, last: Status)
    ensures FirstLastStatus([first] + middle1 + [last]) == FirstLastStatus([first] + middle2 + [last])
  {
    var a, b := [first] + middle1 + [last], [first] + middle2 + [last];
    assert a[0] == b[0] == first && a[|a| - 1] == b[|b| - 1] == last;
  }

  /** NEW, DONE, NEW: the memory manager calls such an epic NEW, the legacy manager
      IN_PROGRESS. */
  lemma NewDoneNewExample()
    ensures FirstLastStatus([NEW, DONE, NEW]) == NEW
    ensures AllSameStatus([NEW, DONE, NEW]) == IN_PROGRESS
  {
    assert [NEW, DONE, NEW][1] != [NEW, DONE, NEW][0];
  }
}
