/** Day identifiers: the zero-padded `YYYY-MM-DD` strings that name calendar
    days (the full-date form of section 5.6 of RFC 3339, with the month-length
    limits of section 5.7). Only four-digit years have an identifier. */
module DayId {

  import opened Optional
  import opened Calendar
  import opened Decimal

  /** A calendar day that has a four-digit-year identifier. */
  predicate Representable(d: Day) {
    Valid(d) && 0 <= d.year <= 9999
  }

  lemma Widths()
    ensures Pow10(2) == 100 && Pow10(4) == 10000
  {
  }

  /** The identifier of a day: year, month and day zero-padded to 4, 2 and 2
      digits, separated by hyphens. */
  function Format(d: Day): (s: string)
    requires Representable(d)
    ensures |s| == 10 && s[4] == '-' && s[7] == '-'
  {
    Widths();
    Pad(d.year, 4) + (['-'] + (Pad(d.month, 2) + (['-'] + Pad(d.day, 2))))
  }

  /** Reads an identifier back; None for anything that is not ten characters
      of the form digits-digits-digits naming a real calendar day. */
  function Parse(s: string): (r: Option<Day>)
    ensures r.Some? ==> Representable(r.value)
  {
    if |s| == 10 && s[4] == '-' && s[7] == '-'
       && AllDigits(s[..4]) && AllDigits(s[5..7]) && AllDigits(s[8..])
    then
      var d := Day(DigitsValue(s[..4]), DigitsValue(s[5..7]), DigitsValue(s[8..]));
      if Valid(d) then Some(d) else None
    else None
  }

  /** Parsing accepts exactly the formatted identifiers, and gives back the day
      they were formatted from. */
  lemma ParseFormat(s: string, d: Day)
    ensures Parse(s) == Some(d) <==> Representable(d) && Format(d) == s
  {
    Widths();
    if Representable(d) && Format(d) == s {
      assert s[..4] == Pad(d.year, 4);
      assert s[5..7] == Pad(d.month, 2);
      assert s[8..] == Pad(d.day, 2);
    }
    if Parse(s) == Some(d) {
      PadDigitsValue(s[..4]);
      PadDigitsValue(s[5..7]);
      PadDigitsValue(s[8..]);
      assert s == s[..4] + (['-'] + (s[5..7] + (['-'] + s[8..])));
    }
  }

  lemma FormatRoundTrip(d: Day)
    requires Representable(d)
    ensures Parse(Format(d)) == Some(d)
  {
    ParseFormat(Format(d), d);
  }

  /** Two identifiers are equal exactly when they name the same day, and string
      order of identifiers is chronological order. */
  lemma FormatOrder(a: Day, b: Day)
    requires Representable(a) && Representable(b)
    ensures Format(a) == Format(b) <==> a == b
    ensures LexLess(Format(a), Format(b)) <==> Before(a, b)
    ensures LexLess(Format(a), Format(b)) <==> ToDays(a) < ToDays(b)
  {
    Widths();
    var ya, ma, da := Pad(a.year, 4), Pad(a.month, 2), Pad(a.day, 2);
    var yb, mb, db := Pad(b.year, 4), Pad(b.month, 2), Pad(b.day, 2);
    assert ya == yb <==> a.year == b.year;
    assert ma == mb <==> a.month == b.month;
    assert da == db <==> a.day == b.day;
    PadOrder(a.year, b.year, 4);
    PadOrder(a.month, b.month, 2);
    PadOrder(a.day, b.day, 2);
    LexLessAppend(ya, ['-'] + (ma + (['-'] + da)), yb, ['-'] + (mb + (['-'] + db)));
    LexLessAppend(['-'], ma + (['-'] + da), ['-'], mb + (['-'] + db));
    LexLessAppend(ma, ['-'] + da, mb, ['-'] + db);
    LexLessAppend(['-'], da, ['-'], db);
    assert !LexLess(['-'], ['-']) by {
      assert ['-'][1..] == [];
    }
    ConcatInjective(ya, ['-'] + (ma + (['-'] + da)), yb, ['-'] + (mb + (['-'] + db)));
    ConcatInjective(['-'], ma + (['-'] + da), ['-'], mb + (['-'] + db));
    ConcatInjective(ma, ['-'] + da, mb, ['-'] + db);
    ConcatInjective(['-'], da, ['-'], db);
    OrderAgreesWithDays(a, b);
  }

  lemma ConcatInjective(a: string, c: string, b: string, d: string)
    requires |a| == |b|
    ensures a + c == b + d <==> a == b && c == d
  {
    if a + c == b + d {
      assert (a + c)[..|a|] == a && (b + d)[..|b|] == b;
      assert (a + c)[|a|..] == c && (b + d)[|b|..] == d;
    }
  }
}
