/**
 * The placement behind schedule_script.js's grid: one row per main task
 * (`메인업무`), one column per day of the fixed range, and in each cell the
 * tasks of that row whose date is that day.
 *
 * Days are ordinals (days since 1970-01-01); turning the `날짜` text into a day
 * is the parameter `parseDay`, which gives `None` where `new Date` gives an
 * invalid date.
 */
module Schedule {
  import opened Prelude
  import opened Csv
  import opened Engine

  /** 2025-08-13, the first day of the grid. */
  const StartDay := 20313
  /** 2025-08-17, the last day of the grid. */
  const EndDay := 20317

  /**
   * The loop that starts `d` at the first day, pushes a copy of `d` while it
   * is not past the last day, and advances it by one day.
   */
  method DayRange(first: int, last: int) returns (days: seq<int>)
    ensures |days| == if first <= last then last - first + 1 else 0
    ensures forall i :: 0 <= i < |days| ==> days[i] == first + i
  {
    days := [];
    var d := first;
    while d <= last
      invariant first <= d <= if first <= last then last + 1 else first
      invariant |days| == d - first
      invariant forall i :: 0 <= i < |days| ==> days[i] == first + i
      decreases last - d
    {
      days := days + [d];
      d := d + 1;
    }
  }

  /** The grid's columns: the five days from 2025-08-13 to 2025-08-17, ascending. */
  method ScheduleDays() returns (days: seq<int>)
    ensures days == [StartDay, StartDay + 1, StartDay + 2, StartDay + 3, EndDay]
  {
    days := DayRange(StartDay, EndDay);
  }

  /** `new Date(task['날짜'])` as a day; a missing cell is an invalid date. */
  function TaskDay(task: Row, parseDay: string -> Option<int>): Option<int> {
    match Get(task, DateColumn)
    case Some(text) => parseDay(text)
    case None => None
  }

  /**
   * The reference meaning of a cell's content: the tasks of `group` whose
   * date is `day`, in the group's order.
   */
  function OnDay(group: seq<Row>, parseDay: string -> Option<int>, day: int): (cell: seq<Row>)
    ensures forall i :: 0 <= i < |cell| ==> TaskDay(cell[i], parseDay) == Some(day)
  {
    if group == [] then []
    else
      var init, last := group[..|group| - 1], group[|group| - 1];
      if TaskDay(last, parseDay) == Some(day) then OnDay(init, parseDay, day) + [last]
      else OnDay(init, parseDay, day)
  }

  /** A cell holds every copy of each task of its group dated on its day, and nothing else. */
  lemma {:induction false} OnDayCount(group: seq<Row>, parseDay: string -> Option<int>, day: int, t: Row)
    ensures multiset(OnDay(group, parseDay, day))[t] ==
      if TaskDay(t, parseDay) == Some(day) then multiset(group)[t] else 0
    ensures t in OnDay(group, parseDay, day) <==> t in group && TaskDay(t, parseDay) == Some(day)
  {
    if group != [] {
      var init := group[..|group| - 1];
      assert group == init + [group[|group| - 1]];
      OnDayCount(init, parseDay, day, t);
    }
  }

  lemma {:induction false} OnDaySubsequence(group: seq<Row>, parseDay: string -> Option<int>, day: int)
    ensures Subsequence(OnDay(group, parseDay, day), group)
    decreases |group|
  {
    if group != [] {
      var init := group[..|group| - 1];
      var cell := OnDay(init, parseDay, day);
      OnDaySubsequence(init, parseDay, day);
      assert (cell + [group[|group| - 1]])[..|cell|] == cell;
    }
  }

  /** The cell of the grid at main task `key` and day `day`. */
  function Cell(tasks: seq<Row>, parseDay: string -> Option<int>, key: string, day: int): seq<Row> {
    OnDay(Group(tasks, MainTaskColumn, key), parseDay, day)
  }

  /** One row of the grid: the main task's name and its cells, one per day. */
  datatype Lane = Lane(mainTask: string, cells: seq<seq<Row>>)

  /** `groupedByMainTask[mainTaskName].forEach(...)` for one day: the tasks dated that day. */
  method PlaceCell(group: seq<Row>, parseDay: string -> Option<int>, day: int) returns (cell: seq<Row>)
    ensures cell == OnDay(group, parseDay, day)
  {
    cell := [];
    var k := 0;
    while k < |group|
      invariant 0 <= k <= |group|
      invariant cell == OnDay(group[..k], parseDay, day)
    {
      assert group[..k + 1][..k] == group[..k];
      if TaskDay(group[k], parseDay) == Some(day) {
        cell := cell + [group[k]];
      }
      k := k + 1;
    }
    assert group[..k] == group;
  }

  /** `days.forEach(...)` for one main task: a cell per day. */
  method PlaceLane(group: seq<Row>, key: string, days: seq<int>, parseDay: string -> Option<int>) returns (lane: Lane)
    ensures lane.mainTask == key && |lane.cells| == |days|
    ensures forall j :: 0 <= j < |days| ==> lane.cells[j] == OnDay(group, parseDay, days[j])
  {
    var cells: seq<seq<Row>> := [];
    var j := 0;
    while j < |days|
      invariant 0 <= j <= |days| && |cells| == j
      invariant forall j' :: 0 <= j' < j ==> cells[j'] == OnDay(group, parseDay, days[j'])
    {
      var cell := PlaceCell(group, parseDay, days[j]);
      cells := cells + [cell];
      j := j + 1;
    }
    lane := Lane(key, cells);
  }

  /** `lane` is the grid row of main task `key`: its name, and each day's cell. */
  ghost predicate IsLane(lane: Lane, tasks: seq<Row>, days: seq<int>, parseDay: string -> Option<int>, key: string) {
    && lane.mainTask == key
    && |lane.cells| == |days|
    && forall j :: 0 <= j < |days| ==> lane.cells[j] == Cell(tasks, parseDay, key, days[j])
  }

  /**
   * `renderSchedule` after the day list: group the tasks by main task, then
   * for each group in first-seen order fill one cell per day.
   */
  method PlaceTasks(tasks: seq<Row>, days: seq<int>, parseDay: string -> Option<int>) returns (lanes: seq<Lane>)
    ensures var names := Distinct(Keys(tasks, MainTaskColumn));
      |lanes| == |names| && forall i :: 0 <= i < |lanes| ==> IsLane(lanes[i], tasks, days, parseDay, names[i])
  {
    var keys, groups := GroupBy(tasks, MainTaskColumn);
    lanes := [];
    var i := 0;
    while i < |keys|
      invariant 0 <= i <= |keys| && |lanes| == i
      invariant forall i' :: 0 <= i' < i ==> IsLane(lanes[i'], tasks, days, parseDay, keys[i'])
    {
      var key := keys[i];
      assert key in groups;
      var lane := PlaceLane(groups[key], key, days, parseDay);
      assert IsLane(lane, tasks, days, parseDay, key);
      lanes := lanes + [lane];
      i := i + 1;
    }
  }

  /**
   * A task is in the cell at (`key`, `day`) exactly when it is a task of the
   * sheet, its main task is `key` and its date is `day`.
   */
  lemma CellExactly(tasks: seq<Row>, parseDay: string -> Option<int>, key: string, day: int, t: Row)
    ensures t in Cell(tasks, parseDay, key, day) <==>
      t in tasks && KeyOf(t, MainTaskColumn) == key && TaskDay(t, parseDay) == Some(day)
    ensures Subsequence(Cell(tasks, parseDay, key, day), Group(tasks, MainTaskColumn, key))
  {
    OnDayCount(Group(tasks, MainTaskColumn, key), parseDay, day, t);
    GroupCount(tasks, MainTaskColumn, key, t);
    OnDaySubsequence(Group(tasks, MainTaskColumn, key), parseDay, day);
  }

  /** A task shows up in at most one cell of the grid. */
  lemma AtMostOneCell(tasks: seq<Row>, parseDay: string -> Option<int>, t: Row,
                      key1: string, day1: int, key2: string, day2: int)
    requires t in Cell(tasks, parseDay, key1, day1) && t in Cell(tasks, parseDay, key2, day2)
    ensures key1 == key2 && day1 == day2
  {
    CellExactly(tasks, parseDay, key1, day1, t);
    CellExactly(tasks, parseDay, key2, day2, t);
  }

  /**
   * A task without a date cell is placed nowhere: `new Date(undefined)` is an
   * invalid date, whose day string matches no day of the grid.
   */
  lemma UndatedUnplaced(tasks: seq<Row>, parseDay: string -> Option<int>, t: Row)
    requires Get(t, DateColumn) == None
    ensures TaskDay(t, parseDay) == None
    ensures forall key, day :: t !in Cell(tasks, parseDay, key, day)
  {
    forall key, day
      ensures t !in Cell(tasks, parseDay, key, day)
    {
      CellExactly(tasks, parseDay, key, day, t);
    }
  }

  /** A task whose date is not one of the grid's days, or is invalid, is in no cell. */
  lemma OutOfRangeUnplaced(tasks: seq<Row>, days: seq<int>, parseDay: string -> Option<int>, t: Row)
    requires forall j :: 0 <= j < |days| ==> TaskDay(t, parseDay) != Some(days[j])
    ensures forall key, j :: 0 <= j < |days| ==> t !in Cell(tasks, parseDay, key, days[j])
  {
    forall key, j | 0 <= j < |days|
      ensures t !in Cell(tasks, parseDay, key, days[j])
    {
      CellExactly(tasks, parseDay, key, days[j], t);
    }
  }

  /** A task dated on a day of the grid lands in its own main task's row, in that day's cell. */
  lemma InRangePlaced(tasks: seq<Row>, days: seq<int>, parseDay: string -> Option<int>, t: Row, j: nat)
    requires t in tasks && j < |days| && TaskDay(t, parseDay) == Some(days[j])
    ensures KeyOf(t, MainTaskColumn) in Distinct(Keys(tasks, MainTaskColumn))
    ensures t in Cell(tasks, parseDay, KeyOf(t, MainTaskColumn), days[j])
  {
    GroupPartition(tasks, MainTaskColumn, t, KeyOf(t, MainTaskColumn));
    CellExactly(tasks, parseDay, KeyOf(t, MainTaskColumn), days[j], t);
  }
}
