/** Spreads: two facing pages, each showing one day. The service builds
    today's spread, pages forward and back two days at a time, and sorts a task
    list onto the two pages. */
module Spreads {

  import opened Optional
  import opened Calendar
  import opened Decimal
  import opened DayId
  import opened Dates
  import opened Filters
  import opened Tasks

  datatype Spread = Spread(leftDate: string, rightDate: string)

  datatype SpreadTasks = SpreadTasks(leftTasks: seq<Task>, rightTasks: seq<Task>)

  /** Days from the left page to the right page. */
  function Gap(s: Spread): Option<int> {
    GetDaysDifference(s.leftDate, s.rightDate)
  }

  /** Yesterday on the left page, today on the right page. */
  function GetTodaySpread(today: Day): (r: Option<Spread>)
    requires Valid(today)
    ensures r.Some? <==> Representable(today) && Representable(PreviousDay(today))
    ensures r.Some? ==> GetToday(today) == Some(r.value.rightDate)
    ensures r.Some? ==> GetRelativeDate(r.value.rightDate, -1) == Some(r.value.leftDate)
    ensures r.Some? ==> Gap(r.value) == Some(1)
  {
    ShiftMinusOneIsPreviousDay(today);
    match (GetYesterday(today), GetToday(today))
    case (Some(yesterday), Some(id)) =>
      YesterdayAndTomorrow(today, id);
      Some(Spread(yesterday, id))
    case _ => None
  }

  /** Both pages parse, and both stay within four-digit years when moved by
      `offset` days. */
  predicate Turnable(s: Spread, offset: int) {
    && Parse(s.leftDate).Some? && Parse(s.rightDate).Some?
    && Representable(Shift(Parse(s.leftDate).value, offset))
    && Representable(Shift(Parse(s.rightDate).value, offset))
  }

  /** Both pages moved by the same number of days. */
  function MoveSpread(s: Spread, offset: int): (r: Option<Spread>)
    ensures r.Some? <==> Turnable(s, offset)
    ensures r.Some? ==> GetDaysDifference(s.leftDate, r.value.leftDate) == Some(offset)
    ensures r.Some? ==> GetDaysDifference(s.rightDate, r.value.rightDate) == Some(offset)
  {
    var left := GetRelativeDate(s.leftDate, offset);
    var right := GetRelativeDate(s.rightDate, offset);
    if left.Some? && right.Some? then Some(Spread(left.value, right.value)) else None
  }

  /** Both pages two days later. */
  function GetNextSpread(s: Spread): (r: Option<Spread>)
    ensures r.Some? <==> Turnable(s, 2)
    ensures r.Some? ==> GetDaysDifference(s.leftDate, r.value.leftDate) == Some(2)
    ensures r.Some? ==> GetDaysDifference(s.rightDate, r.value.rightDate) == Some(2)
  {
    MoveSpread(s, 2)
  }

  /** Both pages two days earlier. */
  function GetPreviousSpread(s: Spread): (r: Option<Spread>)
    ensures r.Some? <==> Turnable(s, -2)
    ensures r.Some? ==> GetDaysDifference(s.leftDate, r.value.leftDate) == Some(-2)
    ensures r.Some? ==> GetDaysDifference(s.rightDate, r.value.rightDate) == Some(-2)
  {
    MoveSpread(s, -2)
  }

  /** Moving a spread of formatted days moves each page's day. */
  lemma MoveSpreadOfFormat(left: Day, right: Day, offset: int)
    requires Representable(left) && Representable(right)
    requires Representable(Shift(left, offset)) && Representable(Shift(right, offset))
    ensures MoveSpread(Spread(Format(left), Format(right)), offset)
         == Some(Spread(Format(Shift(left, offset)), Format(Shift(right, offset))))
  {
    RelativeDateOfFormat(left, offset);
    RelativeDateOfFormat(right, offset);
  }

  /** Moving back by the same number of days undoes a move. */
  lemma MoveSpreadInverse(s: Spread, offset: int, t: Spread)
    requires MoveSpread(s, offset) == Some(t)
    ensures MoveSpread(t, -offset) == Some(s)
  {
    MovedPages(s, offset, t);
    RelativeDateInverse(s.leftDate, offset, t.leftDate);
    RelativeDateInverse(s.rightDate, offset, t.rightDate);
  }

  lemma MovedPages(s: Spread, offset: int, t: Spread)
    requires MoveSpread(s, offset) == Some(t)
    ensures GetRelativeDate(s.leftDate, offset) == Some(t.leftDate)
    ensures GetRelativeDate(s.rightDate, offset) == Some(t.rightDate)
  {
  }

  /** A move keeps the distance between the two pages. */
  lemma MoveSpreadKeepsGap(s: Spread, offset: int, t: Spread)
    requires MoveSpread(s, offset) == Some(t)
    ensures Gap(t) == Gap(s)
  {
    MovedPages(s, offset, t);
    ShiftKeepsDifference(s.leftDate, s.rightDate, offset, t.leftDate, t.rightDate);
  }

  lemma PreviousUndoesNext(s: Spread, t: Spread)
    requires GetNextSpread(s) == Some(t)
    ensures GetPreviousSpread(t) == Some(s)
  {
    MoveSpreadInverse(s, 2, t);
  }

  lemma NextUndoesPrevious(s: Spread, t: Spread)
    requires GetPreviousSpread(s) == Some(t)
    ensures GetNextSpread(t) == Some(s)
  {
    MoveSpreadInverse(s, -2, t);
  }

  datatype Step = Next | Previous

  /** The spread reached from s by paging through `steps`; None as soon as a
      step fails. */
  function Navigate(s: Spread, steps: seq<Step>): Option<Spread>
    decreases |steps|
  {
    if steps == [] then Some(s)
    else
      var moved := if steps[0] == Next then GetNextSpread(s) else GetPreviousSpread(s);
      match moved
      case None => None
      case Some(t) => Navigate(t, steps[1..])
  }

  lemma {:induction false} NavigateKeepsGap(s: Spread, steps: seq<Step>, t: Spread)
    requires Navigate(s, steps) == Some(t)
    ensures Gap(t) == Gap(s)
    decreases |steps|
  {
    if steps != [] {
      var moved := if steps[0] == Next then GetNextSpread(s) else GetPreviousSpread(s);
      MoveSpreadKeepsGap(s, if steps[0] == Next then 2 else -2, moved.value);
      NavigateKeepsGap(moved.value, steps[1..], t);
    }
  }

  /** Every spread reached from today's spread has its right page exactly one
      day after its left page. */
  lemma ReachableSpreadsAreAdjacentDays(today: Day, steps: seq<Step>, t: Spread)
    requires Valid(today) && GetTodaySpread(today).Some?
    requires Navigate(GetTodaySpread(today).value, steps) == Some(t)
    ensures Gap(t) == Some(1)
  {
    NavigateKeepsGap(GetTodaySpread(today).value, steps, t);
  }

  /** A task belongs on a page when it carries that page's day and is not deleted. */
  predicate OnPage(t: Task, date: string) {
    t.date == date && !t.deleted
  }

  /** The live tasks of each page, in list order; a deleted task, or one dated
      for neither page, is on neither page. */
  function GetTasksForSpread(s: Spread, tasks: seq<Task>): (r: SpreadTasks)
    ensures IsSubsequence(r.leftTasks, tasks) && IsSubsequence(r.rightTasks, tasks)
    ensures forall t :: t in r.leftTasks <==> t in tasks && OnPage(t, s.leftDate)
    ensures forall t :: t in r.rightTasks <==> t in tasks && OnPage(t, s.rightDate)
    ensures forall t :: multiset(r.leftTasks)[t] == if OnPage(t, s.leftDate) then multiset(tasks)[t] else 0
    ensures forall t :: multiset(r.rightTasks)[t] == if OnPage(t, s.rightDate) then multiset(tasks)[t] else 0
    ensures s.leftDate != s.rightDate ==> forall t :: !(t in r.leftTasks && t in r.rightTasks)
  {
    SpreadTasks(Filter(tasks, (t: Task) => OnPage(t, s.leftDate)),
                Filter(tasks, (t: Task) => OnPage(t, s.rightDate)))
  }

  /** Each page shows the day's tasks, as the task list reports them, minus
      the deleted ones. */
  lemma PagesAreLiveTasksForDate(s: Spread, tasks: seq<Task>)
    ensures GetTasksForSpread(s, tasks).leftTasks
         == Filter(GetTasksForDate(tasks, s.leftDate), (t: Task) => !t.deleted)
    ensures GetTasksForSpread(s, tasks).rightTasks
         == Filter(GetTasksForDate(tasks, s.rightDate), (t: Task) => !t.deleted)
  {
    FilterCompose(tasks, (t: Task) => t.date == s.leftDate, (t: Task) => !t.deleted,
                  (t: Task) => OnPage(t, s.leftDate));
    FilterCompose(tasks, (t: Task) => t.date == s.rightDate, (t: Task) => !t.deleted,
                  (t: Task) => OnPage(t, s.rightDate));
  }

  /** A live task dated today lands on the right page of today's spread, alone,
      and the left page stays empty. */
  lemma TodaysTaskOnRightPage(today: Day, task: Task)
    requires Valid(today) && GetTodaySpread(today).Some?
    requires GetToday(today) == Some(task.date) && !task.deleted
    ensures GetTasksForSpread(GetTodaySpread(today).value, [task]) == SpreadTasks([], [task])
  {
    var s := GetTodaySpread(today).value;
    ShiftedIsNotReference(s.rightDate, -1, s.leftDate);
    assert [task][1..] == [];
  }

  /** A task dated 2025-01-23 shows on the right page of the 2025-01-22 /
      2025-01-23 spread only. */
  lemma FixedSpreadPlacement(createdAt: int)
    ensures var task := Task("1", "test task", false, "2025-01-23", createdAt, false);
      GetTasksForSpread(Spread("2025-01-22", "2025-01-23"), [task]) == SpreadTasks([], [task])
  {
    var task := Task("1", "test task", false, "2025-01-23", createdAt, false);
    assert [task][1..] == [];
    assert "2025-01-22" != "2025-01-23";
  }

  /** Moving a live task to today puts it on the right page of today's spread
      and not on the left page. */
  lemma MovedToTodayShowsOnRightPage(today: Day, tasks: seq<Task>, id: string)
    requires Valid(today) && GetTodaySpread(today).Some?
    requires Find(tasks, id).Some? && !Find(tasks, id).value.deleted
    ensures var s := GetTodaySpread(today).value;
      var moved := MoveTask(tasks, id, s.rightDate);
      var pages := GetTasksForSpread(s, moved);
      && Find(moved, id).Some?
      && Find(moved, id).value in pages.rightTasks
      && Find(moved, id).value !in pages.leftTasks
  {
    var s := GetTodaySpread(today).value;
    MoveTaskResult(tasks, id, s.rightDate);
    ShiftedIsNotReference(s.rightDate, -1, s.leftDate);
  }

  /** A task moved to today's identifier carries that identifier and is
      described as "today". */
  lemma MovedToTodayIsDescribedToday(today: Day, tasks: seq<Task>, id: string, todayId: string)
    requires Valid(today) && GetToday(today) == Some(todayId) && Find(tasks, id).Some?
    ensures var moved := Find(MoveTask(tasks, id, todayId), id);
      && moved.Some? && moved.value.date == todayId
      && GetRelativeDayDescription(moved.value.date, today) == Some("today")
  {
    MoveTaskResult(tasks, id, todayId);
    DescribeToday(today, todayId);
  }
}
