/** Values shared by every part of the task manager: the status and type enums,
    the error kinds the managers raise, optional values, and the time scale. */
module Types {

  /** The three statuses a task can be in (the `TaskStatus` enum). */
  datatype Status = NEW | IN_PROGRESS | DONE

  /** The three entity variants (the `TaskType` enum, reported by `getType()`). */
  datatype TaskType = TASK | EPIC | SUBTASK

  /** A Java reference that may be null, or a value that may be absent. */
  datatype Option<T> = None | Some(value: T)

  /** The exceptions the core raises, as distinguishable values:
      `NotFound` (NotFoundException), `AlreadyExists` (AlreadyExistException),
      `TimeConflict` (TaskTimeValidateException), `Malformed` (the runtime
      exceptions a bad line raises while it is parsed: index out of bounds,
      NumberFormatException, an unknown status name, an unparsable time) and
      `NullPointer` (a NullPointerException the code does not guard against). */
  datatype Error = NotFound | AlreadyExists | TimeConflict | Malformed | NullPointer

  datatype Result<T> = Ok(value: T) | Err(error: Error)

  /** A `void` operation that either completes or throws. */
  datatype Outcome = Pass | Fail(error: Error)

  /** Instants (`LocalDateTime`) are whole minutes since 1970-01-01T00:00 and
      durations (`Duration`) are whole minutes. */
  type Minutes = int

  /** `LocalDateTime.MIN`, -999999999-01-01T00:00. */
  const MIN_TIME: Minutes := -525950235593280
  /** `LocalDateTime.MIN.plusYears(1)`, -999999998-01-01T00:00: the start given to
      a new epic and the floor of an epic's end time. */
  const MIN_PLUS_YEAR: Minutes := -525950235067680
  /** `LocalDateTime.MAX`, +999999999-12-31T23:59 (seconds are not modelled). */
  const MAX_TIME: Minutes := 525948163879679

  /** The range of a Java `int`. */
  const INT_MIN: int := -0x8000_0000
  const INT_MAX: int := 0x7fff_ffff

  predicate IsInt32(n: int) { INT_MIN <= n <= INT_MAX }

  /** Java `int` addition, which wraps around modulo 2^32. */
  function Wrap32(n: int): (r: int)
    ensures IsInt32(r)
    ensures (r - n) % 0x1_0000_0000 == 0
    ensures IsInt32(n) ==> r == n
  {
    (n - INT_MIN) % 0x1_0000_0000 + INT_MIN
  }

  /** A non-empty set of ids or instants has an element to pick. */
  lemma Inhabited(s: set<int>)
    requires s != {}
    ensures exists k :: k in s
  {
    if forall k :: k !in s {
      assert false;
    }
  }

  /** The elements of `keys` in increasing order. */
  function SortedKeys(keys: set<int>): (ks: seq<int>)
    ensures |ks| == |keys|
    ensures forall s :: s in keys <==> s in ks
    ensures forall i, j :: 0 <= i < j < |ks| ==> ks[i] < ks[j]
    decreases |keys|
  {
    if keys == {} then []
    else
      var m := Least(keys);
      [m] + SortedKeys(keys - {m})
  }

  /** The keys a `HashMap` loop visits, modelled as `SortedKeys`; the loops that
      use it depend only on which keys are visited. */
  function KeyList(keys: set<int>): (ks: seq<int>)
    ensures forall s :: s in keys <==> s in ks
  {
    SortedKeys(keys)
  }

  /** The least element of a non-empty set. */
  function Least(keys: set<int>): (m: int)
    requires keys != {}
    ensures m in keys && forall s :: s in keys ==> m <= s
  {
    LeastExists(keys);
    var m :| m in keys && forall s :: s in keys ==> m <= s; m
  }

  lemma LeastExists(keys: set<int>)
    requires keys != {}
    ensures exists m :: m in keys && forall s :: s in keys ==> m <= s
  {
    var m := LeastOf(keys);
  }

  /** A least element, found by removing any element and comparing it with
      the least of the rest. */
  lemma {:induction false} LeastOf(keys: set<int>) returns (m: int)
    requires keys != {}
    ensures m in keys && forall s :: s in keys ==> m <= s
    decreases |keys|
  {
    Inhabited(keys);
    var x :| x in keys;
    var rest := keys - {x};
    if rest == {} {
      m := x;
      forall s | s in keys
        ensures m <= s
      {
        assert s !in rest;
      }
    } else {
      var y := LeastOf(rest);
      m := if x < y then x else y;
      forall s | s in keys
        ensures m <= s
      {
        if s != x {
          assert s in rest;
        }
      }
    }
  }
}
