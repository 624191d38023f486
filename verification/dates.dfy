/** The date service: every operation takes and returns day identifiers.
    The wall clock is replaced by a `today` parameter, the calendar day the
    clock reads in the local timezone; an identifier that does not parse, and a
    result day without a four-digit year, are reported as None. */
module Dates {

  import opened Optional
  import opened Calendar
  import opened Decimal
  import opened DayId

  /** The identifier of a local calendar day. */
  function GetDateString(d: Day): (r: Option<string>)
    requires Valid(d)
    ensures r.Some? <==> Representable(d)
    ensures r.Some? ==> Parse(r.value) == Some(d)
  {
    if Representable(d) then
      FormatRoundTrip(d);
      Some(Format(d))
    else None
  }

  function GetToday(today: Day): (r: Option<string>)
    requires Valid(today)
    ensures r.Some? <==> Representable(today)
    ensures r.Some? ==> Parse(r.value) == Some(today)
  {
    GetDateString(today)
  }

  function GetYesterday(today: Day): (r: Option<string>)
    requires Valid(today)
    ensures r.Some? <==> Representable(PreviousDay(today))
    ensures r.Some? ==> Parse(r.value) == Some(PreviousDay(today))
  {
    ShiftMinusOneIsPreviousDay(today);
    GetDateString(Shift(today, -1))
  }

  function GetTomorrow(today: Day): (r: Option<string>)
    requires Valid(today)
    ensures r.Some? <==> Representable(NextDay(today))
    ensures r.Some? ==> Parse(r.value) == Some(NextDay(today))
  {
    ShiftOneIsNextDay(today);
    GetDateString(Shift(today, 1))
  }

  /** The identifier `offset` days after `reference`. */
  function GetRelativeDate(reference: string, offset: int): (r: Option<string>)
    ensures r.Some? <==> Parse(reference).Some? && Representable(Shift(Parse(reference).value, offset))
    ensures r.Some? ==> Parse(reference).Some? && Parse(r.value) == Some(Shift(Parse(reference).value, offset))
    ensures r.Some? ==> DaysBetween(Parse(reference).value, Parse(r.value).value) == offset
  {
    match Parse(reference)
    case None => None
    case Some(d) => GetDateString(Shift(d, offset))
  }

  /** Signed number of days from `first` to `second`. */
  function GetDaysDifference(first: string, second: string): (r: Option<int>)
    ensures r.Some? <==> Parse(first).Some? && Parse(second).Some?
  {
    var a, b := Parse(first), Parse(second);
    if a.Some? && b.Some? then Some(DaysBetween(a.value, b.value)) else None
  }

  lemma DifferenceOfParsed(first: string, second: string, a: Day, b: Day)
    requires Parse(first) == Some(a) && Parse(second) == Some(b)
    ensures GetDaysDifference(first, second) == Some(DaysBetween(a, b))
  {
  }

  /** A zero offset gives back the reference identifier itself. */
  lemma RelativeDateZero(reference: string)
    requires Parse(reference).Some?
    ensures GetRelativeDate(reference, 0) == Some(reference)
  {
    var d := Parse(reference).value;
    ShiftZero(d);
    ParseFormat(reference, d);
  }

  /** Offsets compose. */
  lemma RelativeDateCompose(reference: string, a: int, b: int, mid: string)
    requires GetRelativeDate(reference, a) == Some(mid)
    ensures GetRelativeDate(mid, b) == GetRelativeDate(reference, a + b)
  {
    var d := Parse(reference).value;
    ParseFormat(mid, Shift(d, a));
    ShiftCompose(d, a, b);
  }

  /** Shifting back by the same offset returns to the reference. */
  lemma RelativeDateInverse(reference: string, n: int, target: string)
    requires GetRelativeDate(reference, n) == Some(target)
    ensures GetRelativeDate(target, -n) == Some(reference)
  {
    var d := Parse(reference).value;
    ShiftCompose(d, n, -n);
    ShiftZero(d);
    assert Shift(Shift(d, n), -n) == d;
    ParseFormat(reference, d);
  }

  /** Shifting two identifiers by the same offset keeps their difference. */
  lemma ShiftKeepsDifference(first: string, second: string, n: int, first': string, second': string)
    requires GetRelativeDate(first, n) == Some(first')
    requires GetRelativeDate(second, n) == Some(second')
    ensures GetDaysDifference(first', second') == GetDaysDifference(first, second)
  {
    var a, b := Parse(first).value, Parse(second).value;
    DifferenceOfParsed(first, second, a, b);
    DifferenceOfParsed(first', second', Shift(a, n), Shift(b, n));
    ShiftKeepsDaysBetween(a, b, n);
  }

  /** The difference inverts the shift, for every offset. */
  lemma DifferenceInvertsRelativeDate(reference: string, n: int, target: string)
    requires GetRelativeDate(reference, n) == Some(target)
    ensures GetDaysDifference(reference, target) == Some(n)
  {
  }

  /** Shifting by the difference reaches the second identifier. */
  lemma RelativeDateByDifference(first: string, second: string, n: int)
    requires GetDaysDifference(first, second) == Some(n)
    ensures GetRelativeDate(first, n) == Some(second)
  {
    var a, b := Parse(first).value, Parse(second).value;
    assert Shift(a, DaysBetween(a, b)) == b;
    ParseFormat(second, b);
  }

  lemma DifferenceProperties(first: string, second: string)
    requires Parse(first).Some? && Parse(second).Some?
    ensures GetDaysDifference(first, first) == Some(0)
    ensures GetDaysDifference(second, first).value == -GetDaysDifference(first, second).value
    ensures GetDaysDifference(first, second) == Some(0) <==> first == second
    ensures GetDaysDifference(first, second).value > 0 <==> LexLess(first, second)
  {
    var a, b := Parse(first).value, Parse(second).value;
    DaysBetweenProperties(a, b);
    ParseFormat(first, a);
    ParseFormat(second, b);
    FormatOrder(a, b);
  }

  /** Yesterday and tomorrow are the -1 and +1 shifts of today's identifier. */
  lemma YesterdayAndTomorrow(today: Day, id: string)
    requires Valid(today) && GetToday(today) == Some(id)
    ensures GetYesterday(today) == GetRelativeDate(id, -1)
    ensures GetTomorrow(today) == GetRelativeDate(id, 1)
  {
  }

  /** Seen from tomorrow's identifier, offset -1 is today and offset 0 is
      tomorrow itself. */
  lemma TomorrowPageOffsets(today: Day, id: string, tomorrow: string)
    requires Valid(today) && GetToday(today) == Some(id) && GetTomorrow(today) == Some(tomorrow)
    ensures GetRelativeDate(tomorrow, -1) == Some(id)
    ensures GetRelativeDate(tomorrow, 0) == Some(tomorrow)
  {
    YesterdayAndTomorrow(today, id);
    RelativeDateInverse(id, 1, tomorrow);
    RelativeDateZero(tomorrow);
  }

  /** A non-zero offset never gives back the reference identifier. */
  lemma ShiftedIsNotReference(reference: string, n: int, target: string)
    requires GetRelativeDate(reference, n) == Some(target) && n != 0
    ensures target != reference
  {
    DifferenceInvertsRelativeDate(reference, n, target);
    DifferenceProperties(reference, reference);
  }

  /** At the identifier level, the day after February 28th is February 29th
      in a leap year and March 1st otherwise (2024-02-28 is followed by
      2024-02-29, 2025-02-28 by 2025-03-01). */
  lemma FebruaryRollover(d: Day)
    requires Representable(d) && d.month == 2 && d.day == 28
    ensures GetRelativeDate(Format(d), 1).Some?
    ensures Parse(GetRelativeDate(Format(d), 1).value)
         == Some(if IsLeapYear(d.year) then Day(d.year, 2, 29) else Day(d.year, 3, 1))
  {
    AfterFebruary28(d.year);
    RelativeDateOfFormat(d, 1);
    FormatRoundTrip(Shift(d, 1));
  }

  /** The day after December 31st is January 1st of the next year. */
  lemma YearEndRollover(d: Day)
    requires Representable(d) && d.month == 12 && d.day == 31 && d.year < 9999
    ensures GetRelativeDate(Format(d), 1).Some?
    ensures Parse(GetRelativeDate(Format(d), 1).value) == Some(Day(d.year + 1, 1, 1))
  {
    var next := Day(d.year + 1, 1, 1);
    ShiftOneIsNextDay(d);
    assert Shift(d, 1) == next;
    RelativeDateOfFormat(d, 1);
    FormatRoundTrip(next);
  }

  /** The day before January 1st is December 31st of the previous year. */
  lemma YearStartRollback(d: Day)
    requires Representable(d) && d.month == 1 && d.day == 1 && d.year > 0
    ensures GetRelativeDate(Format(d), -1).Some?
    ensures Parse(GetRelativeDate(Format(d), -1).value) == Some(Day(d.year - 1, 12, 31))
  {
    ShiftMinusOneIsPreviousDay(d);
    RelativeDateOfFormat(d, -1);
    FormatRoundTrip(Shift(d, -1));
  }

  /** Shifting an identifier is shifting the day it names. */
  lemma RelativeDateOfFormat(d: Day, n: int)
    requires Representable(d) && Representable(Shift(d, n))
    ensures GetRelativeDate(Format(d), n) == Some(Format(Shift(d, n)))
  {
    FormatRoundTrip(d);
  }

  /** How a signed day difference from today is put in words. Reading the
      words back gives the difference, so no two differences share them. */
  function Describe(diff: int): (s: string)
    ensures ReadDescription(s) == Some(diff)
  {
    if diff == 0 then "today"
    else if diff == -1 then "yesterday"
    else if diff == 1 then "tomorrow"
    else if diff < 0 then
      ReadDaysAgo(-diff);
      Natural(-diff) + " days ago"
    else
      ReadInDays(diff);
      "in " + Natural(diff) + " days"
  }

  /** Recovers the day difference from its description; None for any other
      text. */
  function ReadDescription(s: string): Option<int>
  {
    if s == "today" then Some(0)
    else if s == "yesterday" then Some(-1)
    else if s == "tomorrow" then Some(1)
    else if |s| > 9 && s[|s| - 9..] == " days ago" then
      match ReadNatural(s[..|s| - 9])
      case Some(k) => if k >= 2 then Some(0 - k as int) else None
      case None => None
    else if |s| > 8 && s[..3] == "in " && s[|s| - 5..] == " days" then
      match ReadNatural(s[3..|s| - 5])
      case Some(k) => if k >= 2 then Some(k) else None
      case None => None
    else None
  }

  /** Whatever difference a text is read as, describing that difference gives
      the text back: the reader accepts nothing but descriptions. */
  lemma ReadDescriptionSound(s: string)
    ensures ReadDescription(s).Some? ==> Describe(ReadDescription(s).value) == s
  {
    if s == "today" || s == "yesterday" || s == "tomorrow" {
    } else if |s| > 9 && s[|s| - 9..] == " days ago" {
      assert s == s[..|s| - 9] + " days ago";
    } else if |s| > 8 && s[..3] == "in " && s[|s| - 5..] == " days" {
      assert s == "in " + s[3..|s| - 5] + " days";
    }
  }

  lemma ReadDaysAgo(k: nat)
    requires k >= 2
    ensures ReadDescription(Natural(k) + " days ago") == Some(0 - k as int)
  {
    var s := Natural(k) + " days ago";
    assert s[|s| - 9..] == " days ago" && s[..|s| - 9] == Natural(k);
    NaturalRoundTrip(k);
  }

  lemma ReadInDays(k: nat)
    requires k >= 2
    ensures ReadDescription("in " + Natural(k) + " days") == Some(k)
  {
    var s := "in " + Natural(k) + " days";
    assert s[0] == 'i' && s[|s| - 1] == 's';
    assert s[..3] == "in " && s[|s| - 5..] == " days" && s[3..|s| - 5] == Natural(k);
    NaturalRoundTrip(k);
  }

  /** The five phrasings are exclusive and cover every difference. */
  lemma DescribeCases(diff: int)
    ensures Describe(diff) == "today" <==> diff == 0
    ensures Describe(diff) == "yesterday" <==> diff == -1
    ensures Describe(diff) == "tomorrow" <==> diff == 1
    ensures diff < 0 ==> (Describe(diff) == Natural(-diff) + " days ago" <==> diff <= -2)
    ensures diff >= 0 ==> (Describe(diff) == "in " + Natural(diff) + " days" <==> diff >= 2)
  {
    if diff == -1 {
      assert |Natural(1) + " days ago"| >= 10;
    }
    if diff == 0 || diff == 1 {
      var s := "in " + Natural(diff) + " days";
      assert |s| == 9 && s[0] == 'i';
    }
  }

  lemma DescribeInjective(a: int, b: int)
    requires Describe(a) == Describe(b)
    ensures a == b
  {
  }

  /** The description of `date` relative to the local day `today`. */
  function GetRelativeDayDescription(date: string, today: Day): (r: Option<string>)
    requires Valid(today)
    ensures r.Some? <==> Parse(date).Some? && Representable(today)
    ensures r.Some? ==> ReadDescription(r.value) == Some(DaysBetween(today, Parse(date).value))
  {
    match GetToday(today)
    case None => None
    case Some(id) =>
      match GetDaysDifference(id, date)
      case None => None
      case Some(diff) =>
        Some(Describe(diff))
  }

  /** Today's own identifier is described as "today". */
  lemma DescribeToday(today: Day, id: string)
    requires Valid(today) && GetToday(today) == Some(id)
    ensures GetRelativeDayDescription(id, today) == Some("today")
  {
  }

  /** The identifier k days from today is described by the phrasing for k. */
  lemma DescribeRelativeDate(today: Day, id: string, k: int, date: string)
    requires Valid(today) && GetToday(today) == Some(id)
    requires GetRelativeDate(id, k) == Some(date)
    ensures GetRelativeDayDescription(date, today) == Some(Describe(k))
  {
  }

  lemma DescribeExamples()
    ensures Describe(-1) == "yesterday"
    ensures Describe(-7) == "7 days ago"
    ensures Describe(3) == "in 3 days"
  {
    assert Natural(7) == "7";
    assert Natural(3) == "3";
  }
}
