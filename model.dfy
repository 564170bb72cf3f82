/** The entity classes `Task`, `Epic` and `SubTask`. Dafny has no subclassing here,
    so one class carries all three: `kind` records which constructor made the
    object, and the members that `Epic` and `SubTask` override dispatch on it. */
module Model {
  import opened Types

  /** Whether the half-open windows [start1, end1) and [start2, end2) cross in the
      sense of `isCrossed`: the first starts before the second ends and ends after
      the second starts. */
  predicate Crosses(start1: Minutes, end1: Minutes, start2: Minutes, end2: Minutes)
  {
    start1 < end2 && end1 > start2
  }

  /** Minute `m` lies in the half-open window [start, end). */
  predicate InWindow(m: Minutes, start: Minutes, end: Minutes)
  {
    start <= m < end
  }

  /** For windows of positive length, crossing is exactly sharing a minute. */
  lemma CrossesIffShareMinute(start1: Minutes, end1: Minutes, start2: Minutes, end2: Minutes)
    requires start1 < end1 && start2 < end2
    ensures Crosses(start1, end1, start2, end2) <==>
            exists m :: InWindow(m, start1, end1) && InWindow(m, start2, end2)
  {
    if Crosses(start1, end1, start2, end2) {
      var m := if start1 < start2 then start2 else start1;
      assert InWindow(m, start1, end1) && InWindow(m, start2, end2);
    }
  }

  /** Crossing is symmetric, and windows that only touch at a boundary do not cross. */
  lemma CrossesSymmetricAndBoundary(start1: Minutes, end1: Minutes, start2: Minutes, end2: Minutes)
    ensures Crosses(start1, end1, start2, end2) == Crosses(start2, end2, start1, end1)
    ensures end1 == start2 ==> !Crosses(start1, end1, start2, end2)
    ensures start1 == start2 && start1 < end1 && start2 < end2 ==> Crosses(start1, end1, start2, end2)
  {
  }

  /** A window of length zero strictly inside another one still crosses it, although
      it shares no minute with it. */
  lemma EmptyWindowInsideCrosses()
    ensures Crosses(5, 5, 0, 10)
    ensures !exists m :: InWindow(m, 5, 5) && InWindow(m, 0, 10)
  {
  }

  /** The fields of a task object at one moment: what the managers store, what the
      history records and what a line of the save file describes. */
  datatype Entry = Entry(id: Option<int>, name: string, description: string, taskStatus: Status,
                         duration: Minutes, startTime: Minutes, endTime: Minutes,
                         kind: TaskType, epicId: int, subTasksIds: seq<int>)
  {
    /** `getEpicId()`: the epic of a `SubTask`, 0 for the other classes. */
    function GetEpicId(): int
    {
      if kind == SUBTASK then epicId else 0
    }

    /** `equals` between objects holding these fields: the same class and the same
        id. (The identity case of `equals` is covered, as one object holds one
        class and one id.) */
    predicate Equals(other: Entry)
    {
      kind == other.kind && id == other.id
    }

    /** `isCrossed`. */
    predicate IsCrossed(other: Entry)
    {
      Crosses(startTime, endTime, other.startTime, other.endTime)
    }

    /** `compareAllFields`: every field of `Task` agrees, and for a `SubTask`
        receiver also the epic id. */
    predicate CompareAllFields(other: Entry)
    {
      && id == other.id && name == other.name && description == other.description
      && taskStatus == other.taskStatus && kind == other.kind
      && duration == other.duration && startTime == other.startTime && endTime == other.endTime
      && (kind == SUBTASK ==> epicId == other.GetEpicId())
    }

    /** `setDuration`: `Task`'s recomputes the end time, `Epic`'s override does not. */
    function WithDuration(d: Minutes): Entry
    {
      if kind == EPIC then this.(duration := d) else this.(duration := d, endTime := startTime + d)
    }

    /** `setStartTime`: `Task`'s recomputes the end time, `Epic`'s override does not. */
    function WithStartTime(s: Minutes): Entry
    {
      if kind == EPIC then this.(startTime := s) else this.(startTime := s, endTime := s + duration)
    }
  }

  /** `setDuration` and `setStartTime` on a `Task` or `SubTask` restore
      `endTime == startTime + duration` whatever it was before, and on an epic
      change only their own field. */
  lemma SettersKeepEnd(e: Entry, d: Minutes, s: Minutes)
    ensures e.kind != EPIC ==> e.WithDuration(d).endTime == e.startTime + d
    ensures e.kind != EPIC ==> e.WithStartTime(s).endTime == s + e.duration
    ensures e.kind == EPIC ==> e.WithDuration(d) == e.(duration := d) && e.WithStartTime(s) == e.(startTime := s)
    ensures e.WithDuration(d).(duration := e.duration, endTime := e.endTime) == e
    ensures e.WithStartTime(s).(startTime := e.startTime, endTime := e.endTime) == e
  {
  }

  /** The values of `p` listed by increasing key: the order in which the stores,
      keyed by small ids, and the prioritized set, keyed by start, are walked. */
  function InKeyOrder(p: map<int, Entry>): (r: seq<Entry>)
    ensures |r| == |p|
    ensures forall i :: 0 <= i < |r| ==> r[i] in p.Values
    ensures forall t :: t in p.Values ==> t in r
  {
    var ks := SortedKeys(p.Keys);
    var r := seq(|ks|, i requires 0 <= i < |ks| => p[ks[i]]);
    assert forall t :: t in p.Values ==> t in r by {
      forall t | t in p.Values
        ensures t in r
      {
        var k :| k in p && p[k] == t;
        var i :| 0 <= i < |ks| && ks[i] == k;
        assert r[i] == t;
      }
    }
    r
  }

  class Task {
    /** Null until the manager assigns one. */
    var id: Option<int>
    var name: string
    var description: string
    var taskStatus: Status
    var duration: Minutes
    var startTime: Minutes
    var endTime: Minutes
    /** Which of `Task`, `Epic`, `SubTask` was constructed. */
    const kind: TaskType
    /** `SubTask`'s final `epicId`; 0 for the other variants. */
    const epicId: int
    /** `Epic`'s `subTasksIds`. `getSubTasksIds()` hands out this live list and the
        managers change it in place, which the model writes as assignments to this
        field. It stays empty for the other variants. */
    var subTasksIds: seq<int>

    /** The object's fields as a value. */
    function Value(): Entry
      reads this
    {
      Entry(id, name, description, taskStatus, duration, startTime, endTime, kind, epicId, subTasksIds)
    }

    /** `endTime == startTime + duration`: the constructors of `Task` and `SubTask`
        and their setters keep it; `Epic`'s setters bypass it. */
    predicate EndConsistent()
      reads this
    {
      endTime == startTime + duration
    }

    /** `Task(name, description, taskStatus, startTime, duration)`. */
    constructor (name: string, description: string, taskStatus: Status, startTime: Minutes, duration: Minutes)
      ensures kind == TASK && GetType() == TASK && GetEpicId() == 0 && id == None
      ensures this.name == name && this.description == description && this.taskStatus == taskStatus
      ensures this.startTime == startTime && this.duration == duration
      ensures EndConsistent() && subTasksIds == []
    {
      this.kind := TASK;
      this.epicId := 0;
      this.id := None;
      this.name := name;
      this.description := description;
      this.taskStatus := taskStatus;
      this.startTime := startTime;
      this.duration := duration;
      this.endTime := startTime + duration;
      this.subTasksIds := [];
    }

    /** `Task(id, name, description, taskStatus, startTime, duration)`. */
    constructor WithId(id: Option<int>, name: string, description: string, taskStatus: Status,
                       startTime: Minutes, duration: Minutes)
      ensures kind == TASK && GetType() == TASK && GetEpicId() == 0 && this.id == id
      ensures this.name == name && this.description == description && this.taskStatus == taskStatus
      ensures this.startTime == startTime && this.duration == duration
      ensures EndConsistent() && subTasksIds == []
    {
      this.kind := TASK;
      this.epicId := 0;
      this.id := id;
      this.name := name;
      this.description := description;
      this.taskStatus := taskStatus;
      this.startTime := startTime;
      this.duration := duration;
      this.endTime := startTime + duration;
      this.subTasksIds := [];
    }

    /** The copy constructor `Task(Task task)`: always a plain `Task`, with every
        field of `task` including its end time. It compares equal on all fields to
        `task` exactly when `task` is itself a plain `Task`. */
    constructor Copy(task: Task)
      ensures kind == TASK && GetEpicId() == 0 && subTasksIds == []
      ensures id == task.id && name == task.name && description == task.description
      ensures taskStatus == task.taskStatus && startTime == task.startTime
      ensures duration == task.duration && endTime == task.endTime
      ensures CompareAllFields(task) <==> task.kind == TASK
    {
      this.kind := TASK;
      this.epicId := 0;
      this.id := task.id;
      this.name := task.name;
      this.description := task.description;
      this.taskStatus := task.taskStatus;
      this.startTime := task.startTime;
      this.duration := task.duration;
      this.endTime := task.endTime;
      this.subTasksIds := [];
    }

    /** `Epic(name, description)`: status NEW, duration zero, start one year after
        `LocalDateTime.MIN`, end equal to the start, no subtasks. */
    constructor Epic(name: string, description: string)
      ensures kind == EPIC && GetType() == EPIC && GetEpicId() == 0 && id == None
      ensures this.name == name && this.description == description
      ensures taskStatus == NEW && duration == 0 && startTime == MIN_PLUS_YEAR
      ensures endTime == startTime && subTasksIds == []
    {
      this.kind := EPIC;
      this.epicId := 0;
      this.id := None;
      this.name := name;
      this.description := description;
      this.taskStatus := NEW;
      this.startTime := MIN_PLUS_YEAR;
      this.duration := 0;
      this.endTime := MIN_PLUS_YEAR + 0;
      this.subTasksIds := [];
    }

    /** `SubTask(epicId, name, description, status, startTime, duration)`. */
    constructor SubTask(epicId: int, name: string, description: string, taskStatus: Status,
                        startTime: Minutes, duration: Minutes)
      ensures kind == SUBTASK && GetType() == SUBTASK && GetEpicId() == epicId && id == None
      ensures this.name == name && this.description == description && this.taskStatus == taskStatus
      ensures this.startTime == startTime && this.duration == duration
      ensures EndConsistent() && subTasksIds == []
    {
      this.kind := SUBTASK;
      this.epicId := epicId;
      this.id := None;
      this.name := name;
      this.description := description;
      this.taskStatus := taskStatus;
      this.startTime := startTime;
      this.duration := duration;
      this.endTime := startTime + duration;
      this.subTasksIds := [];
    }

    /** `getType()`, overridden by `Epic` and `SubTask`. */
    function GetType(): TaskType
    {
      kind
    }

    /** `getEpicId()`: 0 in `Task` (and so in `Epic`), the final field in `SubTask`. */
    function GetEpicId(): int
    {
      if kind == SUBTASK then epicId else 0
    }

    /** `equals`: the same object, or the same class and the same id. */
    predicate Equals(other: Task)
      reads this, other
    {
      this == other || Value().Equals(other.Value())
    }

    /** `hashCode()`, `Objects.hash(id)`: 31 + id in `int` arithmetic, 31 for a null id. */
    function HashCode(): int
      reads this
    {
      Wrap32(31 + (if id.Some? then id.value else 0))
    }

    /** `compareAllFields`: every field of `Task` agrees, and for a `SubTask`
        receiver also the epic id. */
    predicate CompareAllFields(other: Task)
      reads this, other
    {
      Value().CompareAllFields(other.Value())
    }

    /** `isCrossed`. */
    predicate IsCrossed(other: Task)
      reads this, other
    {
      Value().IsCrossed(other.Value())
    }

    method SetId(id: Option<int>)
      modifies this`id
      ensures this.id == id
    {
      this.id := id;
    }

    method SetName(name: string)
      modifies this`name
      ensures this.name == name
    {
      this.name := name;
    }

    method SetDescription(description: string)
      modifies this`description
      ensures this.description == description
    {
      this.description := description;
    }

    method SetTaskStatus(taskStatus: Status)
      modifies this`taskStatus
      ensures this.taskStatus == taskStatus
    {
      this.taskStatus := taskStatus;
    }

    /** `setDuration`: `Task`'s recomputes the end time, `Epic`'s override does not. */
    method SetDuration(duration: Minutes)
      modifies this`duration, this`endTime
      ensures Value() == old(Value()).WithDuration(duration)
    {
      this.duration := duration;
      if kind != EPIC {
        this.endTime := startTime + this.duration;
      }
    }

    /** `setStartTime`: `Task`'s recomputes the end time, `Epic`'s override does not. */
    method SetStartTime(startTime: Minutes)
      modifies this`startTime, this`endTime
      ensures Value() == old(Value()).WithStartTime(startTime)
    {
      this.startTime := startTime;
      if kind != EPIC {
        this.endTime := this.startTime + duration;
      }
    }

    /** `Epic.setEndTime`, which exists only on epics. */
    method SetEndTime(endTime: Minutes)
      requires kind == EPIC
      modifies this`endTime
      ensures this.endTime == endTime
    {
      this.endTime := endTime;
    }
  }

  /** Equality depends on the class and the id only, so two objects that differ in
      every other field are equal once they share class and id, and equal objects
      have equal hash codes. */
  lemma EqualsIsIdentityById(a: Task, b: Task)
    ensures a.kind == b.kind && a.id == b.id ==> a.Equals(b)
    ensures a.Equals(b) ==> a.id == b.id && a.HashCode() == b.HashCode()
    ensures a.kind != b.kind ==> !a.Equals(b)
  {
  }
}
