/** `TaskConverter.toString`: one comma-separated line per entry, in the order
    id, type, name, status, description, epic, duration in minutes, start time. */
module Converter {
  import opened Types
  import opened Model

  /** The character of one decimal digit. */
  function DigitChar(d: nat): (c: char)
    requires d < 10
    ensures '0' <= c <= '9' && c as int - '0' as int == d
  {
    ('0' as int + d) as char
  }

  predicate AllDigits(s: string)
  {
    forall i :: 0 <= i < |s| ==> '0' <= s[i] <= '9'
  }

  /** The decimal text of a natural number: at least one digit, and no leading
      zero unless the number is zero. */
  function NatText(n: nat): (s: string)
    ensures 1 <= |s| && AllDigits(s)
    ensures s[0] == '0' <==> n == 0
    ensures n == 0 ==> s == "0"
  {
    if n < 10 then [DigitChar(n)] else NatText(n / 10) + [DigitChar(n % 10)]
  }

  /** `String.valueOf` of an `int` or a `long`: a minus sign for a negative
      number, then the digits of its magnitude. */
  function IntText(n: int): (s: string)
    ensures 1 <= |s| && ',' !in s
    ensures n < 0 <==> s[0] == '-'
  {
    if n < 0 then "-" + NatText(-n) else NatText(n)
  }

  /** The id as string concatenation writes an `Integer`: "null" when unset. */
  function IdText(id: Option<int>): (s: string)
    ensures ',' !in s
  {
    if id.None? then "null" else IntText(id.value)
  }

  /** `TaskType.toString()`, the constant's name. */
  function TypeName(k: TaskType): string
  {
    match k
    case TASK => "TASK"
    case EPIC => "EPIC"
    case SUBTASK => "SUBTASK"
  }

  /** `TaskStatus.toString()`, the constant's name. */
  function StatusName(s: Status): string
  {
    match s
    case NEW => "NEW"
    case IN_PROGRESS => "IN_PROGRESS"
    case DONE => "DONE"
  }

  /** `LocalDateTime.toString()`. The ISO-8601 calendar text is not modelled; an
      instant is written as the decimal count of its minutes, an encoding that
      is injective like the original and that the line parser reads back. */
  function TimeText(m: Minutes): (s: string)
    ensures 1 <= |s| && ',' !in s
  {
    IntText(m)
  }

  /** `TaskConverter.toString(task)`: the eight fields joined by commas. The
      epic field is `getEpicId()`, which is 0 for a task and an epic. */
  function ToLine(e: Entry): (r: string)
    ensures IdText(e.id) + "," <= r
    ensures |r| > |TimeText(e.startTime)| && r[|r| - |TimeText(e.startTime)|..] == TimeText(e.startTime)
  {
    IdText(e.id) + "," + TypeName(e.kind) + "," + e.name + "," + StatusName(e.taskStatus) + "," +
    e.description + "," + IntText(e.GetEpicId()) + "," + IntText(e.duration) + "," + TimeText(e.startTime)
  }

  /** The eight field texts of an entry's line, in the order they are written. */
  function LineFields(e: Entry): (fs: seq<string>)
    ensures |fs| == 8
  {
    [IdText(e.id), TypeName(e.kind), e.name, StatusName(e.taskStatus), e.description,
     IntText(e.GetEpicId()), IntText(e.duration), TimeText(e.startTime)]
  }

  /** Joining field texts with a comma between neighbours. */
  function Join(fs: seq<string>): string
    requires |fs| >= 1
  {
    if |fs| == 1 then fs[0] else fs[0] + "," + Join(fs[1..])
  }

  /** Joining one more field appends a comma and the field. */
  lemma {:induction false} JoinSnoc(fs: seq<string>, x: string)
    requires |fs| >= 1
    ensures Join(fs + [x]) == Join(fs) + "," + x
    decreases |fs|
  {
    if |fs| == 1 {
      assert (fs + [x])[1..] == [x];
    } else {
      assert (fs + [x])[1..] == fs[1..] + [x];
      JoinSnoc(fs[1..], x);
    }
  }

  /** The line is the eight field texts joined by commas, in the order id,
      type, name, status, description, epic, duration, start. */
  lemma ToLineJoinsFields(e: Entry)
    ensures ToLine(e) == Join(LineFields(e))
    ensures LineFields(e)[5] == IntText(e.GetEpicId())
    ensures e.kind != SUBTASK ==> LineFields(e)[5] == "0"
    ensures e.kind == SUBTASK ==> LineFields(e)[5] == IntText(e.epicId)
    ensures LineFields(e)[6] == IntText(e.duration)
  {
    var fs := LineFields(e);
    JoinSnoc(fs[..1], fs[1]);
    assert fs[..1] + [fs[1]] == fs[..2];
    JoinSnoc(fs[..2], fs[2]);
    assert fs[..2] + [fs[2]] == fs[..3];
    JoinSnoc(fs[..3], fs[3]);
    assert fs[..3] + [fs[3]] == fs[..4];
    JoinSnoc(fs[..4], fs[4]);
    assert fs[..4] + [fs[4]] == fs[..5];
    JoinSnoc(fs[..5], fs[5]);
    assert fs[..5] + [fs[5]] == fs[..6];
    JoinSnoc(fs[..6], fs[6]);
    assert fs[..6] + [fs[6]] == fs[..7];
    JoinSnoc(fs[..7], fs[7]);
    assert fs[..7] + [fs[7]] == fs;
    assert IntText(0) == "0";
  }

  /** The decimal texts the converter's example writes. */
  lemma SmallTexts()
    ensures IntText(0) == "0" && IntText(1) == "1" && IntText(2) == "2" && IntText(3) == "3"
    ensures IntText(15) == "15" && IntText(77) == "77" && IntText(200) == "200"
  {
    assert NatText(15) == NatText(1) + [DigitChar(5)];
    assert NatText(77) == NatText(7) + [DigitChar(7)];
    assert NatText(20) == NatText(2) + [DigitChar(0)];
    assert NatText(200) == NatText(20) + [DigitChar(0)];
  }

  /** The task line of the converter's example, a task with id 1 that is in
      progress, lasts 15 minutes and starts at 2024-04-01T12:12 (minute
      28532892), with its start written by `TimeText`. */
  lemma ConverterTaskExample()
    ensures ToLine(Entry(Some(1), "Task1", "Desc task 1", IN_PROGRESS, 15, 28532892, 28532907, TASK, 0, []))
      == "1" + "," + "TASK" + "," + "Task1" + "," + "IN_PROGRESS" + "," + "Desc task 1" + "," + "0" + "," + "15" + "," +
         TimeText(28532892)
  {
    SmallTexts();
  }

  /** The epic line of the example: id 2, 77 minutes, start 2024-03-15T22:05
      (minute 28509005); its epic field is 0. */
  lemma ConverterEpicExample()
    ensures ToLine(Entry(Some(2), "Epic1", "Desc epic 1", NEW, 77, 28509005, MIN_PLUS_YEAR, EPIC, 0, []))
      == "2" + "," + "EPIC" + "," + "Epic1" + "," + "NEW" + "," + "Desc epic 1" + "," + "0" + "," + "77" + "," +
         TimeText(28509005)
  {
    SmallTexts();
    var e := Entry(Some(2), "Epic1", "Desc epic 1", NEW, 77, 28509005, MIN_PLUS_YEAR, EPIC, 0, []);
    assert IdText(e.id) == "2" && IntText(e.GetEpicId()) == "0" && IntText(e.duration) == "77";
  }

  /** The subtask line of the example: id 3 in epic 2, done, 200 minutes,
      start 2024-02-03T02:01 (minute 28448761); its epic field is 2. */
  lemma ConverterSubTaskExample()
    ensures ToLine(Entry(Some(3), "Sub1", "Desc subtask 1", DONE, 200, 28448761, 28448961, SUBTASK, 2, []))
      == "3" + "," + "SUBTASK" + "," + "Sub1" + "," + "DONE" + "," + "Desc subtask 1" + "," + "2" + "," + "200" + "," +
         TimeText(28448761)
  {
    SmallTexts();
    var e := Entry(Some(3), "Sub1", "Desc subtask 1", DONE, 200, 28448761, 28448961, SUBTASK, 2, []);
    assert IdText(e.id) == "3" && IntText(e.GetEpicId()) == "2" && IntText(e.duration) == "200";
  }
}
