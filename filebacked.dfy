/** `FileBackedTaskManager`: the in-memory manager restored from the lines of a
    comma-separated file. Each data line is parsed by `fromString` and filed by
    `add`, `addEpic` or `addSubTask`, and the id counter is raised to the
    largest id read. Reading and writing the file are not modelled: the
    restore starts from the file's lines. */
module FileBacked {
  import opened Types
  import opened Model
  import opened History
  import opened Stores
  import opened Converter
  import Schedule
  import Memory

  // ---------------------------------------------------------------------------
  // Splitting a line

  /** The pieces of `s` between commas, empty pieces included. */
  function Fields(s: string): (fs: seq<string>)
    ensures |fs| >= 1
    ensures forall i :: 0 <= i < |fs| ==> ',' !in fs[i]
    ensures ',' !in s ==> fs == [s]
    decreases |s|
  {
    if s == [] then [""]
    else if s[0] == ',' then [""] + Fields(s[1..])
    else
      var rest := Fields(s[1..]);
      assert [s[0]] + s[1..] == s;
      [[s[0]] + rest[0]] + rest[1..]
  }

  /** Joining the pieces with commas gives back the text. */
  lemma {:induction false} FieldsJoin(s: string)
    ensures Join(Fields(s)) == s
    decreases |s|
  {
    if s != [] {
      var rs := Fields(s[1..]);
      FieldsJoin(s[1..]);
      if s[0] == ',' {
        assert ([""] + rs)[1..] == rs;
      } else {
        var fs := [[s[0]] + rs[0]] + rs[1..];
        if |rs| > 1 {
          assert fs[1..] == rs[1..];
          assert Join(rs) == rs[0] + "," + Join(rs[1..]);
        }
        assert Join(fs) == [s[0]] + Join(rs);
      }
    }
  }

  /** A comma-free first piece is split off at the first comma. */
  lemma {:induction false} FieldsCons(a: string, b: string)
    requires ',' !in a
    ensures Fields(a + "," + b) == [a] + Fields(b)
    decreases |a|
  {
    var s := a + "," + b;
    if a == [] {
      assert s == [','] + b;
      assert s[1..] == b;
    } else {
      assert s[0] == a[0];
      assert s[1..] == a[1..] + "," + b;
      FieldsCons(a[1..], b);
      assert [a[0]] + a[1..] == a;
    }
  }

  /** Splitting the comma-joined text of comma-free pieces gives back the
      pieces. */
  lemma {:induction false} JoinFields(fs: seq<string>)
    requires |fs| >= 1 && forall i :: 0 <= i < |fs| ==> ',' !in fs[i]
    ensures Fields(Join(fs)) == fs
    decreases |fs|
  {
    if |fs| > 1 {
      JoinFields(fs[1..]);
      FieldsCons(fs[0], Join(fs[1..]));
      assert [fs[0]] + fs[1..] == fs;
    }
  }

  /** The pieces with every trailing empty piece removed. */
  function DropTrailingEmpty(fs: seq<string>): (r: seq<string>)
    ensures |r| <= |fs| && r == fs[..|r|]
    ensures r != [] ==> r[|r| - 1] != ""
    ensures forall i :: |r| <= i < |fs| ==> fs[i] == ""
  {
    if fs != [] && fs[|fs| - 1] == "" then DropTrailingEmpty(fs[..|fs| - 1]) else fs
  }

  /** `String.split(",")`: a text without a comma is its own single piece;
      otherwise the pieces between commas, trailing empty pieces removed. */
  function Split(s: string): (r: seq<string>)
    ensures forall i :: 0 <= i < |r| ==> ',' !in r[i]
    ensures ',' in s && r != [] ==> r[|r| - 1] != ""
  {
    if ',' !in s then [s] else DropTrailingEmpty(Fields(s))
  }

  /** With a comma-free name and description, a line splits into exactly the
      eight field texts it was written from, at the indices `FIELD_ID` (0) to
      `FIELD_START_TIME` (7). */
  lemma SplitLine(e: Entry)
    requires ',' !in e.name && ',' !in e.description
    ensures Split(ToLine(e)) == LineFields(e)
  {
    var fs := LineFields(e);
    assert ',' !in TypeName(e.kind) && ',' !in StatusName(e.taskStatus);
    ToLineJoinsFields(e);
    JoinFields(fs);
    if ',' !in ToLine(e) {
      assert false;
    }
    assert fs[7] != "";
  }

  // ---------------------------------------------------------------------------
  // Parsing the fields

  /** The value of a run of decimal digits. */
  function DigitsValue(s: string): nat
    requires AllDigits(s)
  {
    if s == [] then 0 else DigitsValue(s[..|s| - 1]) * 10 + (s[|s| - 1] as int - '0' as int)
  }

  /** The number `Integer.parseInt` and `Long.parseLong` read, before the range
      check: an optional '-' or '+' and then at least one ASCII digit. */
  function Decimal(s: string): Option<int>
  {
    var signed := |s| > 0 && (s[0] == '-' || s[0] == '+');
    var digits := if signed then s[1..] else s;
    if digits == [] || !AllDigits(digits) then None
    else
      var v: int := DigitsValue(digits);
      if signed && s[0] == '-' then Some(-v) else Some(v)
  }

  /** `Integer.parseInt`: NumberFormatException (here `Malformed`) for a text
      that is no decimal number or whose value is outside the `int` range. */
  function ParseInt(s: string): (r: Result<int>)
    ensures r.Ok? ==> IsInt32(r.value) && Decimal(s) == Some(r.value)
    ensures r.Err? ==> r.error == Malformed && (Decimal(s).None? || !IsInt32(Decimal(s).value))
  {
    match Decimal(s)
    case None => Err(Malformed)
    case Some(n) => if IsInt32(n) then Ok(n) else Err(Malformed)
  }

  /** `LocalDateTime.parse`, in the decimal-minute encoding of `TimeText`:
      `Malformed` for a text that is no number or an instant outside
      `LocalDateTime.MIN`..`LocalDateTime.MAX`. */
  function ParseTime(s: string): (r: Result<Minutes>)
    ensures r.Ok? ==> MIN_TIME <= r.value <= MAX_TIME && Decimal(s) == Some(r.value)
    ensures r.Err? ==> r.error == Malformed
  {
    match Decimal(s)
    case None => Err(Malformed)
    case Some(m) => if MIN_TIME <= m <= MAX_TIME then Ok(m) else Err(Malformed)
  }

  /** The digits of a natural number read back as that number. */
  lemma {:induction false} NatTextValue(n: nat)
    ensures DigitsValue(NatText(n)) == n
  {
    var s := NatText(n);
    if n >= 10 {
      NatTextValue(n / 10);
      assert s[..|s| - 1] == NatText(n / 10);
      assert s[|s| - 1] == DigitChar(n % 10);
    }
  }

  /** A run of digits reads as its value. */
  lemma DecimalDigits(t: string, v: int)
    requires |t| >= 1 && AllDigits(t) && DigitsValue(t) == v
    ensures Decimal(t) == Some(v)
  {
    assert t[0] != '-' && t[0] != '+';
  }

  /** A minus sign and a run of digits read as the negated value. */
  lemma DecimalMinusDigits(t: string, v: int)
    requires |t| >= 1 && AllDigits(t) && DigitsValue(t) == v
    ensures Decimal("-" + t) == Some(-v)
  {
    assert ("-" + t)[1..] == t;
  }

  /** Any integer's text reads back as that integer. */
  lemma IntTextDecimal(n: int)
    ensures Decimal(IntText(n)) == Some(n)
  {
    if n < 0 {
      var t := NatText(-n);
      NatTextValue(-n);
      DecimalMinusDigits(t, -n);
      assert IntText(n) == "-" + t;
    } else {
      var t := NatText(n);
      NatTextValue(n);
      DecimalDigits(t, n);
      assert IntText(n) == t;
    }
  }

  /** `Integer.parseInt` reads back the text of every `int`. */
  lemma ParseIntText(n: int)
    requires IsInt32(n)
    ensures ParseInt(IntText(n)) == Ok(n)
  {
    IntTextDecimal(n);
  }

  /** `LocalDateTime.parse` reads back the text of every instant in range. */
  lemma ParseTimeText(m: Minutes)
    requires MIN_TIME <= m <= MAX_TIME
    ensures ParseTime(TimeText(m)) == Ok(m)
  {
    IntTextDecimal(m);
  }

  /** `TaskType.valueOf`: the constant whose name the text is, and
      NotFoundException when there is none. */
  function TypeOf(s: string): (r: Result<TaskType>)
    ensures r.Err? ==> r.error == NotFound
    ensures forall k :: r == Ok(k) <==> s == TypeName(k)
  {
    if s == "TASK" then Ok(TASK)
    else if s == "EPIC" then Ok(EPIC)
    else if s == "SUBTASK" then Ok(SUBTASK)
    else Err(NotFound)
  }

  /** `TaskStatus.valueOf`: the constant whose name the text is, and
      IllegalArgumentException (here `Malformed`) when there is none. */
  function StatusOf(s: string): (r: Result<Status>)
    ensures r.Err? ==> r.error == Malformed
    ensures forall t :: r == Ok(t) <==> s == StatusName(t)
  {
    if s == "NEW" then Ok(NEW)
    else if s == "IN_PROGRESS" then Ok(IN_PROGRESS)
    else if s == "DONE" then Ok(DONE)
    else Err(Malformed)
  }

  // ---------------------------------------------------------------------------
  // One line

  /** The entry `new Epic(name, description)` makes once `setId` has given it
      its id. */
  function FreshEpic(id: int, name: string, description: string): Entry
  {
    Entry(Some(id), name, description, NEW, 0, MIN_PLUS_YEAR, MIN_PLUS_YEAR, EPIC, 0, [])
  }

  /** `fromString` once the line is split into `f`: the type from field 1,
      then for an epic a new epic from the name and description fields, for a
      task or subtask the entry its eight fields describe, and last the id
      from field 0. */
  function FromFields(f: seq<string>): (r: Result<Entry>)
    ensures r.Err? ==> r.error == NotFound || r.error == Malformed
    ensures r.Ok? ==> |f| >= 5 && r.value.id.Some? && r.value.subTasksIds == []
  {
    if |f| < 2 then Err(Malformed)
    else
      match TypeOf(f[1])
      case Err(err) => Err(err)
      case Ok(kind) =>
        if kind == EPIC then
          if |f| < 5 then Err(Malformed)
          else
            match ParseInt(f[0])
            case Err(err) => Err(err)
            case Ok(id) => Ok(FreshEpic(id, f[2], f[4]))
        else if |f| < 8 then Err(Malformed)
        else
          var epicId := if kind == SUBTASK then ParseInt(f[5]) else Ok(0);
          var status, start, duration, id := StatusOf(f[3]), ParseTime(f[7]), ParseInt(f[6]), ParseInt(f[0]);
          if epicId.Err? || status.Err? || start.Err? || duration.Err? || id.Err? then Err(Malformed)
          else if !(MIN_TIME <= start.value + duration.value <= MAX_TIME) then Err(Malformed)
          else Ok(Entry(Some(id.value), f[2], f[4], status.value, duration.value, start.value,
                        start.value + duration.value, kind, epicId.value, []))
  }

  /** `fromString(line)`: the line split at its commas, then read field by
      field. */
  function FromString(line: string): (r: Result<Entry>)
    ensures r.Err? ==> r.error == NotFound || r.error == Malformed
    ensures r.Ok? ==> r.value.id.Some? && r.value.subTasksIds == []
  {
    FromFields(Split(line))
  }

  /** What `fromString` makes of the fields `f` of a line. Fewer than two
      fields fail on the index (`Malformed`); an unknown type name is
      NotFoundException; an epic line reads only its name, description and
      id; a task or subtask line needs all eight fields, each parsing, and an
      end (start plus duration) inside the range of `LocalDateTime`. The id
      is read last, from field 0. */
  lemma FromFieldsMeaning(f: seq<string>)
    ensures |f| < 2 ==> FromFields(f) == Err(Malformed)
    ensures FromFields(f) == Err(NotFound) <==> |f| >= 2 && TypeOf(f[1]).Err?
    ensures FromFields(f).Err? ==> FromFields(f).error == NotFound || FromFields(f).error == Malformed
    ensures FromFields(f).Ok? ==>
      var e := FromFields(f).value;
      && e.id.Some? && ParseInt(f[0]) == Ok(e.id.value)
      && |f| >= 5 && TypeOf(f[1]) == Ok(e.kind) && e.name == f[2] && e.description == f[4] && e.subTasksIds == []
      && (e.kind == EPIC ==> e == FreshEpic(e.id.value, f[2], f[4]))
      && (e.kind != EPIC ==>
            && |f| >= 8 && StatusOf(f[3]) == Ok(e.taskStatus)
            && ParseInt(f[6]) == Ok(e.duration) && ParseTime(f[7]) == Ok(e.startTime)
            && e.endTime == e.startTime + e.duration && MIN_TIME <= e.endTime <= MAX_TIME
            && (e.kind == SUBTASK ==> ParseInt(f[5]) == Ok(e.epicId))
            && (e.kind == TASK ==> e.epicId == 0))
  {
  }

  /** A task or subtask line whose eight fields each parse is read as the
      entry those fields describe. */
  lemma ReadFields(f: seq<string>, id: int, kind: TaskType, status: Status, epicId: int,
                   duration: Minutes, start: Minutes)
    requires |f| == 8 && kind != EPIC && TypeOf(f[1]) == Ok(kind) && StatusOf(f[3]) == Ok(status)
    requires ParseInt(f[0]) == Ok(id) && ParseInt(f[6]) == Ok(duration) && ParseTime(f[7]) == Ok(start)
    requires kind == SUBTASK ==> ParseInt(f[5]) == Ok(epicId)
    requires kind == TASK ==> epicId == 0
    requires MIN_TIME <= start + duration <= MAX_TIME
    ensures FromFields(f) == Ok(Entry(Some(id), f[2], f[4], status, duration, start, start + duration, kind, epicId, []))
  {
  }

  /** A task or subtask whose name and description hold no comma, whose id,
      epic and duration fit an `int` and whose start and end lie in range is
      read back from its line with its id, class, name, status, description,
      duration, start and epic field, an end of start plus duration, and no
      subtask list. */
  lemma LineRead(e: Entry)
    requires e.kind != EPIC && ',' !in e.name && ',' !in e.description
    requires e.id.Some? && IsInt32(e.id.value) && IsInt32(e.duration) && IsInt32(e.GetEpicId())
    requires MIN_TIME <= e.startTime <= MAX_TIME && MIN_TIME <= e.startTime + e.duration <= MAX_TIME
    ensures FromString(ToLine(e)) == Ok(Entry(e.id, e.name, e.description, e.taskStatus, e.duration,
                                              e.startTime, e.startTime + e.duration, e.kind, e.GetEpicId(), []))
  {
    SplitLine(e);
    ReadLineFields(e);
  }

  /** The field texts of such an entry are read as the entry `LineRead`
      describes. */
  lemma ReadLineFields(e: Entry)
    requires e.kind != EPIC
    requires e.id.Some? && IsInt32(e.id.value) && IsInt32(e.duration) && IsInt32(e.GetEpicId())
    requires MIN_TIME <= e.startTime <= MAX_TIME && MIN_TIME <= e.startTime + e.duration <= MAX_TIME
    ensures FromFields(LineFields(e)) == Ok(Entry(e.id, e.name, e.description, e.taskStatus, e.duration,
                                                  e.startTime, e.startTime + e.duration, e.kind, e.GetEpicId(), []))
  {
    LineFieldsParse(e);
    ReadFields(LineFields(e), e.id.value, e.kind, e.taskStatus, e.GetEpicId(), e.duration, e.startTime);
  }

  /** Each field text of a line parses back to the field it was written from. */
  lemma LineFieldsParse(e: Entry)
    requires e.id.Some? && IsInt32(e.id.value) && IsInt32(e.duration) && IsInt32(e.GetEpicId())
    requires MIN_TIME <= e.startTime <= MAX_TIME
    ensures var f := LineFields(e);
      && ParseInt(f[0]) == Ok(e.id.value) && TypeOf(f[1]) == Ok(e.kind) && StatusOf(f[3]) == Ok(e.taskStatus)
      && ParseInt(f[5]) == Ok(e.GetEpicId()) && ParseInt(f[6]) == Ok(e.duration) && ParseTime(f[7]) == Ok(e.startTime)
  {
    var f := LineFields(e);
    assert f[0] == IntText(e.id.value) && f[1] == TypeName(e.kind) && f[3] == StatusName(e.taskStatus);
    assert f[5] == IntText(e.GetEpicId()) && f[6] == IntText(e.duration) && f[7] == TimeText(e.startTime);
    ParseIntText(e.id.value);
    ParseIntText(e.duration);
    ParseIntText(e.GetEpicId());
    ParseTimeText(e.startTime);
  }

  /** The round trip `fromString(TaskConverter.toString(t))`: such a task or
      subtask, whose end is its start plus its duration, comes back with every
      field `compareAllFields` compares; with no subtask list, and a task's
      epic field 0, it comes back exactly. */
  lemma LineRoundTrip(e: Entry)
    requires e.kind != EPIC && ',' !in e.name && ',' !in e.description
    requires e.id.Some? && IsInt32(e.id.value) && IsInt32(e.duration) && IsInt32(e.GetEpicId())
    requires MIN_TIME <= e.startTime <= MAX_TIME && MIN_TIME <= e.startTime + e.duration <= MAX_TIME
    requires e.endTime == e.startTime + e.duration
    ensures FromString(ToLine(e)).Ok? && FromString(ToLine(e)).value.CompareAllFields(e)
    ensures e.subTasksIds == [] && (e.kind == TASK ==> e.epicId == 0) ==> FromString(ToLine(e)) == Ok(e)
  {
    LineRead(e);
    var read := Entry(e.id, e.name, e.description, e.taskStatus, e.duration,
                      e.startTime, e.startTime + e.duration, e.kind, e.GetEpicId(), []);
    assert read.CompareAllFields(e);
  }

  /** An epic's line is read back as a new epic with the same id, name and
      description: its status, epic, duration and start fields are ignored. */
  lemma EpicLineRoundTrip(e: Entry)
    requires e.kind == EPIC && ',' !in e.name && ',' !in e.description
    requires e.id.Some? && IsInt32(e.id.value)
    ensures FromString(ToLine(e)) == Ok(FreshEpic(e.id.value, e.name, e.description))
  {
    SplitLine(e);
    ReadEpicLineFields(e);
  }

  /** The field texts of an epic's line are read as a new epic. */
  lemma ReadEpicLineFields(e: Entry)
    requires e.kind == EPIC && e.id.Some? && IsInt32(e.id.value)
    ensures FromFields(LineFields(e)) == Ok(FreshEpic(e.id.value, e.name, e.description))
  {
    var f := LineFields(e);
    assert f[0] == IntText(e.id.value) && f[1] == TypeName(EPIC);
    ParseIntText(e.id.value);
    ReadEpicFields(f, e.id.value);
  }

  /** Fields naming the class EPIC with a readable id are read as a new epic
      with the name and description fields. */
  lemma ReadEpicFields(f: seq<string>, id: int)
    requires |f| >= 5 && TypeOf(f[1]) == Ok(EPIC) && ParseInt(f[0]) == Ok(id)
    ensures FromFields(f) == Ok(FreshEpic(id, f[2], f[4]))
  {
  }

  /** The lines after the header. */
  function DataLines(lines: seq<string>): (r: seq<string>)
    ensures |r| == if lines == [] then 0 else |lines| - 1
    ensures forall i :: 0 <= i < |r| ==> r[i] == lines[i + 1]
  {
    if lines == [] then [] else lines[1..]
  }

  /** Every line read in turn by `read`, stopping at the first that fails. */
  function ReadAll(read: string -> Result<Entry>, lines: seq<string>): (r: Result<seq<Entry>>)
    ensures r.Ok? ==> |r.value| == |lines|
  {
    if lines == [] then Ok([])
    else
      match ReadAll(read, lines[..|lines| - 1])
      case Err(err) => Err(err)
      case Ok(ps) =>
        match read(lines[|lines| - 1])
        case Err(err) => Err(err)
        case Ok(p) => Ok(ps + [p])
  }

  /** Every line parsed by `fromString` in turn, stopping at the first that
      fails. */
  function ParseAll(lines: seq<string>): (r: Result<seq<Entry>>)
    ensures r.Ok? ==> |r.value| == |lines|
  {
    ReadAll(FromString, lines)
  }

  /** Reading one more line extends the entries read by its entry. */
  lemma ReadAllStep(read: string -> Result<Entry>, lines: seq<string>, i: int, ps: seq<Entry>, p: Entry)
    requires 0 <= i < |lines| && ReadAll(read, lines[..i]) == Ok(ps) && read(lines[i]) == Ok(p)
    ensures ReadAll(read, lines[..i + 1]) == Ok(ps + [p])
  {
    var l2 := lines[..i + 1];
    assert l2[..|l2| - 1] == lines[..i];
    assert l2[|l2| - 1] == lines[i];
  }

  /** The counter `readFromFile` reaches: starting from 0, raised to each
      entry's id that is larger. */
  function MaxId(ps: seq<Entry>): (r: int)
    ensures r >= 0
    ensures forall j :: 0 <= j < |ps| && ps[j].id.Some? ==> ps[j].id.value <= r
  {
    if ps == [] then 0
    else
      var m, last := MaxId(ps[..|ps| - 1]), ps[|ps| - 1];
      if last.id.Some? && last.id.value > m then last.id.value else m
  }

  /** One more entry raises the counter to its id when that is larger. */
  lemma MaxIdStep(ps: seq<Entry>, p: Entry)
    ensures MaxId(ps + [p]) == if p.id.Some? && p.id.value > MaxId(ps) then p.id.value else MaxId(ps)
  {
    assert (ps + [p])[..|ps|] == ps;
  }

  /** The counter is the largest id read, or 0 when no id is positive: it is at
      least 0 and every id, and it is 0 or one of the ids. */
  lemma {:induction false} MaxIdIsLargest(ps: seq<Entry>)
    requires forall j :: 0 <= j < |ps| ==> ps[j].id.Some?
    ensures MaxId(ps) >= 0
    ensures forall j :: 0 <= j < |ps| ==> ps[j].id.value <= MaxId(ps)
    ensures MaxId(ps) == 0 || exists j :: 0 <= j < |ps| && ps[j].id.value == MaxId(ps)
  {
    if ps != [] {
      var init := ps[..|ps| - 1];
      MaxIdIsLargest(init);
      forall j | 0 <= j < |ps|
        ensures ps[j].id.value <= MaxId(ps)
      {
        if j < |ps| - 1 {
          assert ps[j] == init[j];
        }
      }
      if MaxId(ps) != 0 && MaxId(ps) == MaxId(init) {
        var j :| 0 <= j < |init| && init[j].id.value == MaxId(init);
        assert ps[j] == init[j];
      }
    }
  }

  // ---------------------------------------------------------------------------
  // Restoring the manager

  /** The entry read from a line is in the store of its class: a task or a
      subtask as read, an epic under its id with its name and description
      (its other fields are recomputed from its subtasks). */
  ghost predicate Restored(tasks: map<int, Entry>, epics: map<int, Entry>, subTasks: map<int, Entry>, p: Entry)
  {
    && p.id.Some?
    && match p.kind
       case TASK => p.id.value in tasks && tasks[p.id.value] == p
       case SUBTASK => p.id.value in subTasks && subTasks[p.id.value] == p
       case EPIC =>
         && p.id.value in epics
         && epics[p.id.value].name == p.name && epics[p.id.value].description == p.description
  }

  /** The stores grew: every task and subtask is still filed as it was, and
      every epic is still filed with its name and description. */
  ghost predicate Grown(t0: map<int, Entry>, e0: map<int, Entry>, s0: map<int, Entry>,
                        t1: map<int, Entry>, e1: map<int, Entry>, s1: map<int, Entry>)
  {
    && (forall k :: k in t0 ==> k in t1 && t1[k] == t0[k])
    && (forall k :: k in s0 ==> k in s1 && s1[k] == s0[k])
    && (forall k :: k in e0 ==> k in e1 && e1[k].name == e0[k].name && e1[k].description == e0[k].description)
  }

  /** `p`'s id when `p` is of class `kind`, nothing otherwise. */
  ghost function KeyOf(p: Entry, kind: TaskType): (r: set<int>)
    ensures r != {} <==> p.kind == kind && p.id.Some?
  {
    if p.kind == kind && p.id.Some? then {p.id.value} else {}
  }

  /** The ids of the entries of class `kind` among `ps`. */
  ghost function IdsOf(ps: seq<Entry>, kind: TaskType): (r: set<int>)
    ensures forall j :: 0 <= j < |ps| && ps[j].kind == kind && ps[j].id.Some? ==> ps[j].id.value in r
    ensures forall k :: k in r ==> exists j :: 0 <= j < |ps| && ps[j].kind == kind && ps[j].id == Some(k)
  {
    if ps == [] then {}
    else
      var init := ps[..|ps| - 1];
      var r := IdsOf(init, kind) + KeyOf(ps[|ps| - 1], kind);
      assert forall j :: 0 <= j < |init| ==> init[j] == ps[j];
      r
  }

  /** The stores hold exactly the ids of `ps`, each in the store of its class. */
  ghost predicate KeysRead(t: map<int, Entry>, e: map<int, Entry>, s: map<int, Entry>, ps: seq<Entry>)
  {
    t.Keys == IdsOf(ps, TASK) && e.Keys == IdsOf(ps, EPIC) && s.Keys == IdsOf(ps, SUBTASK)
  }

  /** The stores gained `p`'s id in the store of its class, and no other id. */
  ghost predicate KeyAdded(t0: map<int, Entry>, e0: map<int, Entry>, s0: map<int, Entry>,
                           t1: map<int, Entry>, e1: map<int, Entry>, s1: map<int, Entry>, p: Entry)
  {
    && t1.Keys == t0.Keys + KeyOf(p, TASK)
    && e1.Keys == e0.Keys + KeyOf(p, EPIC)
    && s1.Keys == s0.Keys + KeyOf(p, SUBTASK)
  }

  /** Restoring one more entry keeps the stores' ids those of the entries read. */
  lemma KeysReadStep(t0: map<int, Entry>, e0: map<int, Entry>, s0: map<int, Entry>,
                     t1: map<int, Entry>, e1: map<int, Entry>, s1: map<int, Entry>, ps: seq<Entry>, p: Entry)
    requires KeysRead(t0, e0, s0, ps) && KeyAdded(t0, e0, s0, t1, e1, s1, p)
    ensures KeysRead(t1, e1, s1, ps + [p])
  {
    assert (ps + [p])[..|ps|] == ps;
  }

  /** What `add`, `addEpic` or `addSubTask` does with `p`, given the ids
      already filed in each store and the schedule: AlreadyExistException when
      the id is taken in the store of `p`'s own class, then for a task or a
      subtask TaskTimeValidateException on a conflict, then for a subtask
      NotFoundException when its epic is not filed. */
  ghost function AddOutcome(tk: set<int>, ek: set<int>, sk: set<int>, sched: map<Minutes, Entry>, p: Entry): (r: Outcome)
    requires p.id.Some?
    ensures p.id.value in (match p.kind case TASK => tk case EPIC => ek case SUBTASK => sk) ==> r == Fail(AlreadyExists)
    ensures p.kind == EPIC ==> (r == Pass <==> p.id.value !in ek)
    ensures r == Pass ==> p.kind == EPIC || !Schedule.Conflicts(sched, p)
    ensures r == Pass && p.kind == SUBTASK ==> p.epicId in ek
  {
    match p.kind
    case TASK =>
      if p.id.value in tk then Fail(AlreadyExists)
      else if Schedule.Conflicts(sched, p) then Fail(TimeConflict)
      else Pass
    case EPIC =>
      if p.id.value in ek then Fail(AlreadyExists) else Pass
    case SUBTASK =>
      if p.id.value in sk then Fail(AlreadyExists)
      else if Schedule.Conflicts(sched, p) then Fail(TimeConflict)
      else if p.epicId !in ek then Fail(NotFound)
      else Pass
  }

  /** The schedule after `p` is filed: tasks and subtasks are prioritized,
      epics are not. */
  ghost function ScheduleAfter(sched: map<Minutes, Entry>, p: Entry): map<Minutes, Entry>
  {
    if p.kind == EPIC then sched else Schedule.Add(sched, p)
  }

  /** The entries filed so far and the schedule they leave. */
  datatype Replayed = Replayed(entries: seq<Entry>, schedule: map<Minutes, Entry>)

  /** `readFromFile` over the data lines, from the schedule `sched0` and empty
      stores: each line is parsed and then filed, and the first line that
      fails to parse or is refused ends the restore with that error. */
  ghost function Replay(sched0: map<Minutes, Entry>, lines: seq<string>): (r: Result<Replayed>)
    ensures r.Ok? ==> |r.value.entries| == |lines|
    ensures r.Err? ==> r.error in {NotFound, Malformed, AlreadyExists, TimeConflict}
  {
    if lines == [] then Ok(Replayed([], sched0))
    else
      match Replay(sched0, lines[..|lines| - 1])
      case Err(err) => Err(err)
      case Ok(done) =>
        match FromString(lines[|lines| - 1])
        case Err(err) => Err(err)
        case Ok(p) =>
          var ps := done.entries;
          match AddOutcome(IdsOf(ps, TASK), IdsOf(ps, EPIC), IdsOf(ps, SUBTASK), done.schedule, p)
          case Fail(err) => Err(err)
          case Pass => Ok(Replayed(ps + [p], ScheduleAfter(done.schedule, p)))
  }

  /** Replaying one more line: its parse error, its refusal, or its entry
      filed. */
  lemma ReplayStep(sched0: map<Minutes, Entry>, lines: seq<string>, i: int, done: Replayed)
    requires 0 <= i < |lines| && Replay(sched0, lines[..i]) == Ok(done)
    ensures FromString(lines[i]).Err? ==> Replay(sched0, lines[..i + 1]) == Err(FromString(lines[i]).error)
    ensures FromString(lines[i]).Ok? ==>
      var p, ps := FromString(lines[i]).value, done.entries;
      var o := AddOutcome(IdsOf(ps, TASK), IdsOf(ps, EPIC), IdsOf(ps, SUBTASK), done.schedule, p);
      Replay(sched0, lines[..i + 1]) ==
        if o.Fail? then Err(o.error) else Ok(Replayed(ps + [p], ScheduleAfter(done.schedule, p)))
  {
    var l2 := lines[..i + 1];
    assert l2[..|l2| - 1] == lines[..i];
    assert l2[|l2| - 1] == lines[i];
  }

  /** Once a prefix of the lines fails, the whole replay fails with the same
      error: later lines are never read. */
  lemma {:induction false} ReplayStops(sched0: map<Minutes, Entry>, lines: seq<string>, i: int)
    requires 0 <= i <= |lines| && Replay(sched0, lines[..i]).Err?
    ensures Replay(sched0, lines) == Replay(sched0, lines[..i])
    decreases |lines| - i
  {
    if i < |lines| {
      var l2 := lines[..i + 1];
      assert l2[..|l2| - 1] == lines[..i];
      ReplayStops(sched0, lines, i + 1);
    } else {
      assert lines[..i] == lines;
    }
  }

  /** A replay that files every line has parsed every line, into the entries
      it filed; a line that does not parse makes the replay fail. */
  lemma {:induction false} ReplayParses(sched0: map<Minutes, Entry>, lines: seq<string>)
    ensures Replay(sched0, lines).Ok? ==> ParseAll(lines) == Ok(Replay(sched0, lines).value.entries)
    ensures ParseAll(lines).Err? ==> Replay(sched0, lines).Err?
  {
    if lines != [] {
      var init := lines[..|lines| - 1];
      ReplayParses(sched0, init);
    }
  }

  /** What was restored stays restored while the stores grow. */
  lemma RestoredGrown(t0: map<int, Entry>, e0: map<int, Entry>, s0: map<int, Entry>,
                      t1: map<int, Entry>, e1: map<int, Entry>, s1: map<int, Entry>, p: Entry)
    requires Grown(t0, e0, s0, t1, e1, s1) && Restored(t0, e0, s0, p)
    ensures Restored(t1, e1, s1, p)
  {
    var k := p.id.value;
    match p.kind
    case TASK =>
      assert k in t0;
    case SUBTASK =>
      assert k in s0;
    case EPIC =>
      assert k in e0;
  }

  /** Filing a new task, a new epic, or a new subtask together with the
      update of its epic that keeps the epic's name and description, grows
      the stores. */
  lemma GrownByAdd(t0: map<int, Entry>, e0: map<int, Entry>, s0: map<int, Entry>, id: int, p: Entry)
    ensures id !in t0 ==> Grown(t0, e0, s0, t0[id := p], e0, s0)
    ensures id !in e0 ==> Grown(t0, e0, s0, t0, e0[id := p], s0)
    ensures forall e: int, x: Entry :: id !in s0 && e in e0 && x.name == e0[e].name && x.description == e0[e].description ==>
      Grown(t0, e0, s0, t0, e0[e := x], s0[id := p])
  {
  }

  /** The file-backed manager. It extends the in-memory manager; here the
      inherited state is the manager `base`, whose stores, counter, schedule
      and history the private `add` methods and `readFromFile` update. */
  class FileBackedManager {
    const base: Memory.TaskManager

    /** The manager before `readFromFile`: `super(historyManager)`. */
    constructor (historyManager: HistoryManager)
      ensures base.Valid() && base.historyManager == historyManager
      ensures base.newTaskId == 0 && base.tasks == map[] && base.epics == map[] && base.subTasks == map[]
      ensures base.prioritized == map[]
    {
      base := new Memory.TaskManager(historyManager);
    }

    /** `add(task)`: AlreadyExistException when the id is taken among the
        tasks, TaskTimeValidateException on a conflict; otherwise the task is
        filed under its id and prioritized. The caller has raised the counter
        to the id. */
    method Add(task: Entry) returns (r: Outcome)
      requires base.Valid() && task.kind == TASK && task.id.Some? && task.id.value <= base.newTaskId
      modifies base`tasks, base`prioritized
      ensures base.Valid()
      ensures task.id.value in old(base.tasks) ==> r == Fail(AlreadyExists) && unchanged(base)
      ensures task.id.value !in old(base.tasks) && Schedule.Conflicts(old(base.prioritized), task) ==>
        r == Fail(TimeConflict) && unchanged(base)
      ensures task.id.value !in old(base.tasks) && !Schedule.Conflicts(old(base.prioritized), task) ==>
        && r == Pass
        && base.tasks == old(base.tasks)[task.id.value := task]
        && base.prioritized == Schedule.Add(old(base.prioritized), task)
    {
      var id := task.id.value;
      if id in base.tasks {
        return Fail(AlreadyExists);
      }
      if Schedule.CheckTaskTime(base.prioritized, task).Fail? {
        return Fail(TimeConflict);
      }
      ScheduledAdd(base.prioritized, task);
      base.tasks := base.tasks[id := task];
      base.prioritized := Schedule.Add(base.prioritized, task);
      r := Pass;
    }

    /** `addEpic(epic)`: AlreadyExistException when the id is taken among the
        epics; otherwise the epic is filed under its id and recomputed, which
        with no subtasks makes it NEW, of zero duration, starting at
        `LocalDateTime.MIN`. Epics are not prioritized. */
    method AddEpic(epic: Entry) returns (r: Outcome)
      requires base.Valid() && epic.kind == EPIC && epic.id.Some? && epic.id.value <= base.newTaskId
      requires epic.subTasksIds == []
      modifies base`epics
      ensures base.Valid()
      ensures epic.id.value in old(base.epics) ==> r == Fail(AlreadyExists) && unchanged(base)
      ensures epic.id.value !in old(base.epics) ==>
        && r == Pass
        && base.epics == old(base.epics)[epic.id.value := Aggregate(epic, base.subTasks)]
        && base.epics[epic.id.value].taskStatus == NEW && base.epics[epic.id.value].duration == 0
        && base.epics[epic.id.value].startTime == MIN_TIME
    {
      var id := epic.id.value;
      if id in base.epics {
        return Fail(AlreadyExists);
      }
      NewEpicOwns(base.epics, base.subTasks, id, Aggregate(epic, base.subTasks));
      NewEpicConsistent(base.epics, base.subTasks, id, epic);
      base.epics := base.epics[id := epic];
      base.UpdateEpicStatus(id);
      AggregateStatus(epic, base.subTasks);
      r := Pass;
    }

    /** `addSubTask(subTask)`: AlreadyExistException when the id is taken among
        the subtasks, TaskTimeValidateException on a conflict. Otherwise the
        subtask is filed and prioritized first; then `getEpic` of its epic
        throws NotFoundException when there is none, leaving the subtask filed
        but listed by no epic. With its epic present, the subtask is appended
        to the epic's list, the epic recomputed, looked up again and
        recomputed once more; the second lookup replaces the first in the
        history. */
    method AddSubTask(st: Entry) returns (r: Outcome)
      requires base.Valid() && base.historyManager.Valid()
      requires st.kind == SUBTASK && st.id.Some? && st.id.value <= base.newTaskId
      modifies base`subTasks, base`prioritized, base`epics, base.historyManager, base.historyManager.Spine
      ensures base.historyManager.Valid()
      ensures st.id.value in old(base.subTasks) ==>
        r == Fail(AlreadyExists) && unchanged(base) && unchanged(base.historyManager)
      ensures st.id.value !in old(base.subTasks) && Schedule.Conflicts(old(base.prioritized), st) ==>
        r == Fail(TimeConflict) && unchanged(base) && unchanged(base.historyManager)
      ensures st.id.value !in old(base.subTasks) && !Schedule.Conflicts(old(base.prioritized), st) ==>
        && base.subTasks == old(base.subTasks)[st.id.value := st]
        && base.prioritized == Schedule.Add(old(base.prioritized), st)
      ensures st.id.value !in old(base.subTasks) && !Schedule.Conflicts(old(base.prioritized), st)
              && st.epicId !in old(base.epics) ==>
        r == Fail(NotFound) && base.epics == old(base.epics) && unchanged(base.historyManager)
      ensures st.id.value !in old(base.subTasks) && !Schedule.Conflicts(old(base.prioritized), st)
              && st.epicId in old(base.epics) ==>
        var e, id, ns := st.epicId, st.id.value, base.historyManager.Nodes;
        && r == Pass && base.Valid()
        && Link(old(base.epics[e]), id).subTasksIds == old(base.epics[e].subTasksIds) + [id]
        && ListedIn(Link(old(base.epics[e]), id).subTasksIds, base.subTasks)
        && base.epics == old(base.epics)[e := Aggregate(Link(old(base.epics[e]), id), base.subTasks)]
        && |ns| > 0 && ns == Without(old(base.historyManager.Nodes), {e}) + [ns[|ns| - 1]]
        && ns[|ns| - 1].key == e && ns[|ns| - 1].data == base.epics[e]
      ensures fresh(base.historyManager.Spine - old(base.historyManager.Spine))
    {
      var id := st.id.value;
      if id in base.subTasks {
        return Fail(AlreadyExists);
      }
      if Schedule.CheckTaskTime(base.prioritized, st).Fail? {
        return Fail(TimeConflict);
      }
      if st.epicId !in base.epics {
        base.subTasks := base.subTasks[id := st];
        base.prioritized := Schedule.Add(base.prioritized, st);
        var epic := base.GetEpic(st.epicId);
        return Fail(NotFound);
      }
      LinkSubTask(st);
      r := Pass;
    }

    /** The part of `addSubTask` after the checks, when the epic is stored. */
    method LinkSubTask(st: Entry)
      requires base.Valid() && base.historyManager.Valid()
      requires st.kind == SUBTASK && st.id.Some? && st.id.value <= base.newTaskId
      requires st.id.value !in base.subTasks && st.epicId in base.epics
      modifies base`subTasks, base`prioritized, base`epics, base.historyManager, base.historyManager.Spine
      ensures base.Valid() && base.historyManager.Valid()
      ensures base.subTasks == old(base.subTasks)[st.id.value := st]
      ensures base.prioritized == Schedule.Add(old(base.prioritized), st)
      ensures var e, id, ns := st.epicId, st.id.value, base.historyManager.Nodes;
        && Link(old(base.epics[e]), id).subTasksIds == old(base.epics[e].subTasksIds) + [id]
        && ListedIn(Link(old(base.epics[e]), id).subTasksIds, base.subTasks)
        && base.epics == old(base.epics)[e := Aggregate(Link(old(base.epics[e]), id), base.subTasks)]
        && |ns| > 0 && ns == Without(old(base.historyManager.Nodes), {e}) + [ns[|ns| - 1]]
        && ns[|ns| - 1].key == e && ns[|ns| - 1].data == base.epics[e]
      ensures fresh(base.historyManager.Spine - old(base.historyManager.Spine))
    {
      var id, e := st.id.value, st.epicId;
      PutSubTask(st);
      var epic := base.GetEpic(e);
      if epic.Err? {
        assert false;
      }
      ghost var h1 := base.historyManager.Nodes;
      LinkViewed(st);
      AddedTwice(old(base.historyManager.Nodes), h1[|h1| - 1],
                 base.historyManager.Nodes[|base.historyManager.Nodes| - 1], e);
    }

    /** The subtask filed under its id and prioritized, before its epic lists
        it: everything but the epic's list and recomputation is as `Valid`
        requires, and linking and recomputing the epic restores the rest. */
    method PutSubTask(st: Entry)
      requires base.Valid()
      requires st.kind == SUBTASK && st.id.Some? && st.id.value <= base.newTaskId
      requires st.id.value !in base.subTasks && st.epicId in base.epics
      modifies base`subTasks, base`prioritized
      ensures base.subTasks == old(base.subTasks)[st.id.value := st]
      ensures base.prioritized == Schedule.Add(old(base.prioritized), st)
      ensures Filed(base.tasks, TASK, base.newTaskId) && Filed(base.epics, EPIC, base.newTaskId)
      ensures Filed(base.subTasks, SUBTASK, base.newTaskId) && Scheduled(base.prioritized)
      ensures var e, id := st.epicId, st.id.value;
        var linked := Link(base.epics[e], id);
        && base.epics[e].kind == EPIC
        && linked.subTasksIds == base.epics[e].subTasksIds + [id]
        && ListedIn(linked.subTasksIds, base.subTasks)
        && Aggregate(Aggregate(linked, base.subTasks), base.subTasks) == Aggregate(linked, base.subTasks)
        && Owns(base.epics[e := Aggregate(linked, base.subTasks)], base.subTasks)
        && Consistent(base.epics[e := Aggregate(linked, base.subTasks)], base.subTasks)
    {
      var id := st.id.value;
      LinkKeeps(base.epics, base.subTasks, id, st);
      ScheduledAdd(base.prioritized, st);
      FiledAt(base.epics, EPIC, base.newTaskId, st.epicId);
      base.subTasks := base.subTasks[id := st];
      base.prioritized := Schedule.Add(base.prioritized, st);
    }

    /** `addSubTaskToEpic(getEpic(id), subTask)` once `getEpic` has returned,
        then `updateEpicStatus(getEpic(id))`: the subtask is appended to its
        epic's list, the epic recomputed, recorded in the history and
        recomputed again, which leaves it as it was. */
    method LinkViewed(st: Entry)
      requires base.historyManager.Valid()
      requires st.kind == SUBTASK && st.id.Some? && st.id.value in base.subTasks && st.epicId in base.epics
      requires Filed(base.tasks, TASK, base.newTaskId) && Filed(base.epics, EPIC, base.newTaskId)
      requires Filed(base.subTasks, SUBTASK, base.newTaskId) && Scheduled(base.prioritized)
      requires var e, id := st.epicId, st.id.value;
        var linked := Link(base.epics[e], id);
        && base.epics[e].kind == EPIC
        && ListedIn(linked.subTasksIds, base.subTasks)
        && Aggregate(Aggregate(linked, base.subTasks), base.subTasks) == Aggregate(linked, base.subTasks)
        && Owns(base.epics[e := Aggregate(linked, base.subTasks)], base.subTasks)
        && Consistent(base.epics[e := Aggregate(linked, base.subTasks)], base.subTasks)
      modifies base`epics, base.historyManager, base.historyManager.Spine
      ensures base.Valid() && base.historyManager.Valid()
      ensures base.epics == old(base.epics)[st.epicId := Aggregate(Link(old(base.epics[st.epicId]), st.id.value), base.subTasks)]
      ensures base.historyManager.AddedLast(st.epicId, base.epics[st.epicId])
      ensures fresh(base.historyManager.Spine - old(base.historyManager.Spine))
    {
      var e := st.epicId;
      var _ := base.AddSubTaskToEpic(Some(e), st);
      assert base.epics[e := Aggregate(base.epics[e], base.subTasks)] == base.epics;
      base.RecomputeViewed(e);
    }

    /** One iteration of `readFromFile` for the entry `p` read from a line:
        the counter is raised to `p`'s id when that is larger, then `p` is
        filed by `addEpic`, `addSubTask` or `add` according to its class.
        When that succeeds, `p` and every entry restored before it are in
        their stores. */
    method Restore(p: Entry) returns (r: Outcome)
      requires base.Valid() && base.historyManager.Valid()
      requires p.id.Some? && p.subTasksIds == []
      modifies base`newTaskId, base`tasks, base`epics, base`subTasks, base`prioritized
      modifies base.historyManager, base.historyManager.Spine
      ensures base.newTaskId == if p.id.value > old(base.newTaskId) then p.id.value else old(base.newTaskId)
      ensures r == Pass ==> base.Valid() && base.historyManager.Valid()
      ensures r == Pass ==> Restored(base.tasks, base.epics, base.subTasks, p)
      ensures r == Pass ==> Grown(old(base.tasks), old(base.epics), old(base.subTasks), base.tasks, base.epics, base.subTasks)
      ensures r == Pass ==> KeyAdded(old(base.tasks), old(base.epics), old(base.subTasks), base.tasks, base.epics, base.subTasks, p)
      ensures r == AddOutcome(old(base.tasks).Keys, old(base.epics).Keys, old(base.subTasks).Keys, old(base.prioritized), p)
      ensures r == Pass ==> base.prioritized == ScheduleAfter(old(base.prioritized), p)
      ensures fresh(base.historyManager.Spine - old(base.historyManager.Spine))
    {
      Raise(p.id.value);
      match p.kind
      case EPIC =>
        r := RestoreEpic(p);
      case SUBTASK =>
        r := RestoreSubTask(p);
      case TASK =>
        r := RestoreTask(p);
    }

    /** `Restore` after the entries `before`, which it keeps restored. */
    method RestoreNext(ghost before: seq<Entry>, p: Entry) returns (r: Outcome)
      requires base.Valid() && base.historyManager.Valid()
      requires p.id.Some? && p.subTasksIds == []
      requires forall j :: 0 <= j < |before| ==> Restored(base.tasks, base.epics, base.subTasks, before[j])
      modifies base`newTaskId, base`tasks, base`epics, base`subTasks, base`prioritized
      modifies base.historyManager, base.historyManager.Spine
      ensures base.newTaskId == if p.id.value > old(base.newTaskId) then p.id.value else old(base.newTaskId)
      ensures r == Pass ==> base.Valid() && base.historyManager.Valid()
      ensures r == Pass ==>
        forall j :: 0 <= j < |before + [p]| ==> Restored(base.tasks, base.epics, base.subTasks, (before + [p])[j])
      ensures r == Pass ==> KeyAdded(old(base.tasks), old(base.epics), old(base.subTasks), base.tasks, base.epics, base.subTasks, p)
      ensures r == AddOutcome(old(base.tasks).Keys, old(base.epics).Keys, old(base.subTasks).Keys, old(base.prioritized), p)
      ensures r == Pass ==> base.prioritized == ScheduleAfter(old(base.prioritized), p)
      ensures fresh(base.historyManager.Spine - old(base.historyManager.Spine))
    {
      ghost var t0, e0, s0 := base.tasks, base.epics, base.subTasks;
      r := Restore(p);
      if r == Pass {
        forall j | 0 <= j < |before + [p]|
          ensures Restored(base.tasks, base.epics, base.subTasks, (before + [p])[j])
        {
          if j < |before| {
            RestoredGrown(t0, e0, s0, base.tasks, base.epics, base.subTasks, before[j]);
          }
        }
      }
    }

    /** The counter raised to `id` when that is larger. */
    method Raise(id: int)
      requires base.Valid()
      modifies base`newTaskId
      ensures base.Valid()
      ensures base.newTaskId == if id > old(base.newTaskId) then id else old(base.newTaskId)
    {
      if id > base.newTaskId {
        base.newTaskId := id;
      }
    }

    /** Restoring a task: `add`. */
    method RestoreTask(p: Entry) returns (r: Outcome)
      requires base.Valid() && p.kind == TASK && p.id.Some? && p.id.value <= base.newTaskId
      modifies base`tasks, base`prioritized
      ensures r == Pass ==> base.Valid() && Restored(base.tasks, base.epics, base.subTasks, p)
      ensures r == Pass ==> Grown(old(base.tasks), old(base.epics), old(base.subTasks), base.tasks, base.epics, base.subTasks)
      ensures r == Pass ==> KeyAdded(old(base.tasks), old(base.epics), old(base.subTasks), base.tasks, base.epics, base.subTasks, p)
      ensures r == AddOutcome(old(base.tasks).Keys, old(base.epics).Keys, old(base.subTasks).Keys, old(base.prioritized), p)
      ensures r == Pass ==> base.prioritized == ScheduleAfter(old(base.prioritized), p)
    {
      GrownByAdd(base.tasks, base.epics, base.subTasks, p.id.value, p);
      r := Add(p);
    }

    /** Restoring an epic: `addEpic`, which keeps its name and description. */
    method RestoreEpic(p: Entry) returns (r: Outcome)
      requires base.Valid() && p.kind == EPIC && p.id.Some? && p.id.value <= base.newTaskId
      requires p.subTasksIds == []
      modifies base`epics
      ensures r == Pass ==> base.Valid() && Restored(base.tasks, base.epics, base.subTasks, p)
      ensures r == Pass ==> Grown(old(base.tasks), old(base.epics), old(base.subTasks), base.tasks, base.epics, base.subTasks)
      ensures r == Pass ==> KeyAdded(old(base.tasks), old(base.epics), old(base.subTasks), base.tasks, base.epics, base.subTasks, p)
      ensures r == AddOutcome(old(base.tasks).Keys, old(base.epics).Keys, old(base.subTasks).Keys, old(base.prioritized), p)
      ensures r == Pass ==> base.prioritized == ScheduleAfter(old(base.prioritized), p)
    {
      GrownByAdd(base.tasks, base.epics, base.subTasks, p.id.value, Aggregate(p, base.subTasks));
      r := AddEpic(p);
    }

    /** Restoring a subtask: `addSubTask`, which relinks its epic and keeps
        the epic's name and description. */
    method RestoreSubTask(p: Entry) returns (r: Outcome)
      requires base.Valid() && base.historyManager.Valid()
      requires p.kind == SUBTASK && p.id.Some? && p.id.value <= base.newTaskId
      modifies base`subTasks, base`prioritized, base`epics, base.historyManager, base.historyManager.Spine
      ensures base.historyManager.Valid()
      ensures r == Pass ==> base.Valid() && Restored(base.tasks, base.epics, base.subTasks, p)
      ensures r == Pass ==> Grown(old(base.tasks), old(base.epics), old(base.subTasks), base.tasks, base.epics, base.subTasks)
      ensures r == Pass ==> KeyAdded(old(base.tasks), old(base.epics), old(base.subTasks), base.tasks, base.epics, base.subTasks, p)
      ensures r == AddOutcome(old(base.tasks).Keys, old(base.epics).Keys, old(base.subTasks).Keys, old(base.prioritized), p)
      ensures r == Pass ==> base.prioritized == ScheduleAfter(old(base.prioritized), p)
      ensures fresh(base.historyManager.Spine - old(base.historyManager.Spine))
    {
      GrownByAdd(base.tasks, base.epics, base.subTasks, p.id.value, p);
      r := AddSubTask(p);
    }

    /** `readFromFile()` over the lines of the file, the first being the
        header: the counter starts at 0 and each data line is read and
        restored in turn; the first line that fails to read or to file ends
        the restore with its exception. When every line is restored, the
        manager is valid, every entry read is in its store, and the counter
        is the largest id read, or 0 when there is none above 0, so that the
        next id generated exceeds every id read. */
    method ReadFromFile(lines: seq<string>) returns (r: Outcome)
      requires base.Valid() && base.historyManager.Valid()
      requires base.tasks == map[] && base.epics == map[] && base.subTasks == map[]
      modifies base, base.historyManager, base.historyManager.Spine
      ensures r == Pass ==>
        && ParseAll(DataLines(lines)).Ok?
        && base.Valid() && base.historyManager.Valid()
        && var ps := ParseAll(DataLines(lines)).value;
           && base.newTaskId == MaxId(ps)
           && (forall j :: 0 <= j < |ps| ==>
                 Restored(base.tasks, base.epics, base.subTasks, ps[j]) && ps[j].id.value <= base.newTaskId)
           && KeysRead(base.tasks, base.epics, base.subTasks, ps)
      ensures var replay := Replay(old(base.prioritized), DataLines(lines));
        r == if replay.Ok? then Pass else Fail(replay.error)
    {
      base.newTaskId := 0;
      var data := DataLines(lines);
      ghost var parsed: seq<Entry> := [];
      ghost var sched0 := base.prioritized;
      for i := 0 to |data|
        invariant base.Valid() && base.historyManager.Valid()
        invariant ParseAll(data[..i]) == Ok(parsed)
        invariant base.newTaskId == MaxId(parsed)
        invariant forall j :: 0 <= j < |parsed| ==> Restored(base.tasks, base.epics, base.subTasks, parsed[j])
        invariant KeysRead(base.tasks, base.epics, base.subTasks, parsed)
        invariant Replay(sched0, data[..i]) == Ok(Replayed(parsed, base.prioritized))
        invariant fresh(base.historyManager.Spine - old(base.historyManager.Spine))
      {
        var t := FromString(data[i]);
        ReplayStep(sched0, data, i, Replayed(parsed, base.prioritized));
        if t.Err? {
          ReplayStops(sched0, data, i + 1);
          return Fail(t.error);
        }
        ghost var t0, e0, s0 := base.tasks, base.epics, base.subTasks;
        r := RestoreNext(parsed, t.value);
        if r.Fail? {
          ReplayStops(sched0, data, i + 1);
          return;
        }
        KeysReadStep(t0, e0, s0, base.tasks, base.epics, base.subTasks, parsed, t.value);
        ReadAllStep(FromString, data, i, parsed, t.value);
        MaxIdStep(parsed, t.value);
        parsed := parsed + [t.value];
      }
      assert data[..|data|] == data;
      MaxIdIsLargest(parsed);
      r := Pass;
    }
  }
}
