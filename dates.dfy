/** The calendar arithmetic behind the text message's date line: reading
    `YYYY-MM-DD` out of a feed title the way `new Date('YYYY-MM-DDT00:00:00Z')`
    does, stepping back one day from the clock, and printing
    `${year}年${MM}月${DD}日`. Dates are read in UTC, the zone the scheduled job
    runs in. */
module Dates {
  import opened Wrappers
  import opened Text

  /** A day of the proleptic Gregorian calendar. */
  datatype Date = Date(year: int, month: int, day: int)

  /** The value of a `Date` object: a day, or the invalid time value (NaN). */
  datatype Moment = Day(date: Date) | Invalid

  predicate IsLeapYear(y: int)
  {
    (y % 4 == 0 && y % 100 != 0) || y % 400 == 0
  }

  function DaysInMonth(y: int, m: int): (n: int)
    requires 1 <= m <= 12
    ensures 28 <= n <= 31
  {
    if m == 2 then (if IsLeapYear(y) then 29 else 28)
    else if m == 4 || m == 6 || m == 9 || m == 11 then 30
    else 31
  }

  predicate ValidDate(d: Date)
  {
    1 <= d.month <= 12 && 1 <= d.day <= DaysInMonth(d.year, d.month)
  }

  /** The day after `d`. */
  function NextDay(d: Date): (r: Date)
    requires ValidDate(d)
    ensures ValidDate(r)
  {
    if d.day < DaysInMonth(d.year, d.month) then Date(d.year, d.month, d.day + 1)
    else if d.month < 12 then Date(d.year, d.month + 1, 1)
    else Date(d.year + 1, 1, 1)
  }

  /** `setDate(getDate() - 1)`: the day before `d`. */
  function PrevDay(d: Date): (r: Date)
    requires ValidDate(d)
    ensures ValidDate(r)
  {
    if d.day > 1 then Date(d.year, d.month, d.day - 1)
    else if d.month > 1 then Date(d.year, d.month - 1, DaysInMonth(d.year, d.month - 1))
    else Date(d.year - 1, 12, 31)
  }

  /** Stepping back a day and then forward again returns to the same day, and
      so does the reverse: the two steps are inverse bijections on valid dates. */
  lemma PrevNextInverse(d: Date)
    requires ValidDate(d)
    ensures NextDay(PrevDay(d)) == d
    ensures PrevDay(NextDay(d)) == d
  {
  }

  /** The day `day` of month `month` of `year` as `Date.UTC` computes it for a
      day number between 1 and 31: a day past the end of the month rolls over
      into the next month. */
  function MakeDay(year: int, month: int, day: int): (r: Date)
    requires 1 <= month <= 12 && 1 <= day <= 31
    ensures ValidDate(r)
  {
    var n := DaysInMonth(year, month);
    if day <= n then Date(year, month, day)
    else if month < 12 then Date(year, month + 1, day - n)
    else Date(year + 1, 1, day - n)
  }

  /** A day that exists is kept; a day past the end of the month lands on the
      day it overshoots by, counted from the first of the next month. */
  lemma MakeDayRollover(year: int, month: int, day: int)
    requires 1 <= month <= 12 && 1 <= day <= 31
    ensures day <= DaysInMonth(year, month) ==> MakeDay(year, month, day) == Date(year, month, day)
    ensures day > DaysInMonth(year, month) ==>
              var r := MakeDay(year, month, day);
              r.day == day - DaysInMonth(year, month) && NextDay(Date(year, month, DaysInMonth(year, month))) == Date(r.year, r.month, 1)
  {
  }

  /** `new Date(`${y}-${m}-${d}T00:00:00Z`)` for the numeric values of the four-
      and two-digit fields: a month outside 1..12 or a day outside 1..31 gives an
      invalid date; otherwise the day is made up with rollover. */
  function IsoMoment(year: nat, month: nat, day: nat): (r: Moment)
    ensures r.Invalid? <==> !(1 <= month <= 12 && 1 <= day <= 31)
    ensures r.Day? && day <= DaysInMonth(year, month) ==> r.date == Date(year, month, day)
  {
    if 1 <= month <= 12 && 1 <= day <= 31 then Day(MakeDay(year, month, day)) else Invalid
  }

  // ---------------------------------------------------------------------------
  // /(\d{4})-(\d{2})-(\d{2})/

  /** The date pattern matches `s` at `k`. */
  predicate DatePatternAt(s: string, k: nat)
  {
    && k + 10 <= |s|
    && AllDigits(s[k..k + 4]) && s[k + 4] == '-'
    && AllDigits(s[k + 5..k + 7]) && s[k + 7] == '-'
    && AllDigits(s[k + 8..k + 10])
  }

  /** The leftmost index at or after `from` where the date pattern matches. */
  function FindDatePattern(s: string, from: nat): (r: Option<nat>)
    requires from <= |s|
    ensures r.Some? ==> from <= r.value && DatePatternAt(s, r.value)
    ensures r.Some? ==> forall k :: from <= k < r.value ==> !DatePatternAt(s, k)
    ensures r.None? ==> forall k :: from <= k <= |s| ==> !DatePatternAt(s, k)
    decreases |s| - from
  {
    if DatePatternAt(s, from) then Some(from)
    else if from == |s| then None
    else FindDatePattern(s, from + 1)
  }

  /** `extractDateFromTitle(title)` with `today` the clock's date: the first
      `YYYY-MM-DD` of the title, at midnight UTC, or else the day before today. */
  function DateFromTitle(title: string, today: Date): (r: Moment)
    requires ValidDate(today)
  {
    match FindDatePattern(title, 0)
    case Some(k) =>
      IsoMoment(DigitsValue(title[k..k + 4]), DigitsValue(title[k + 5..k + 7]), DigitsValue(title[k + 8..k + 10]))
    case None => Day(PrevDay(today))
  }

  /** A title without the pattern resolves to yesterday; a title with it never
      depends on the clock. */
  lemma DateFromTitleSources(title: string, today: Date, other: Date)
    requires ValidDate(today) && ValidDate(other)
    ensures (forall k :: 0 <= k <= |title| ==> !DatePatternAt(title, k)) ==> DateFromTitle(title, today) == Day(PrevDay(today))
    ensures (exists k :: 0 <= k <= |title| && DatePatternAt(title, k)) ==> DateFromTitle(title, today) == DateFromTitle(title, other)
  {
  }

  // ---------------------------------------------------------------------------
  // Printing

  /** `String(n)` for an integer. */
  function IntToString(n: int): string
  {
    if n < 0 then "-" + NatToString(-n) else NatToString(n)
  }

  /** `${year}年${month}月${day}日AI简讯`, with `month` and `day` padded to two
      digits; every field of an invalid date prints as `NaN`. */
  function HeaderLine(m: Moment): string
  {
    match m
    case Invalid => "NaN年NaN月NaN日AI简讯"
    case Day(d) =>
      IntToString(d.year) + "年" + PadStart2(IntToString(d.month)) + "月" + PadStart2(IntToString(d.day)) + "日AI简讯"
  }

  /** A title carrying a real calendar date whose year has no leading zero
      gives back that date's very characters in the header line:
      `2026-02-06日刊` heads the message with `2026年02月06日AI简讯`. */
  lemma HeaderEchoesTitleDate(title: string, today: Date, k: nat)
    requires ValidDate(today)
    requires FindDatePattern(title, 0) == Some(k)
    requires title[k] != '0'
    requires ValidDate(Date(DigitsValue(title[k..k + 4]), DigitsValue(title[k + 5..k + 7]), DigitsValue(title[k + 8..k + 10])))
    ensures HeaderLine(DateFromTitle(title, today))
         == title[k..k + 4] + "年" + title[k + 5..k + 7] + "月" + title[k + 8..k + 10] + "日AI简讯"
  {
    var y, mo, d := title[k..k + 4], title[k + 5..k + 7], title[k + 8..k + 10];
    assert y[0] == title[k];
    DigitsRoundTrip(y);
    TwoDigitsRoundTrip(mo);
    TwoDigitsRoundTrip(d);
  }

  /** A month or day field out of range makes every field of the header `NaN`. */
  lemma HeaderOfInvalidDate(title: string, today: Date, k: nat)
    requires ValidDate(today)
    requires FindDatePattern(title, 0) == Some(k)
    requires var mo, d := DigitsValue(title[k + 5..k + 7]), DigitsValue(title[k + 8..k + 10]);
               !(1 <= mo <= 12 && 1 <= d <= 31)
    ensures HeaderLine(DateFromTitle(title, today)) == "NaN年NaN月NaN日AI简讯"
  {
    assert DateFromTitle(title, today) == Invalid;
  }

  /** A day with a month in 1..12 and a day in 1..31 (every valid day has
      both) prints as the year, then a two-digit month and a two-digit day
      whose values are the date's. */
  lemma HeaderLineDigits(d: Date)
    requires 1 <= d.month <= 12 && 1 <= d.day <= 31 && d.year >= 0
    ensures var h := HeaderLine(Day(d));
      var ys := NatToString(d.year);
      && h[..|ys|] == ys && h[|ys|] == '年'
      && AllDigits(h[|ys| + 1..|ys| + 3]) && DigitsValue(h[|ys| + 1..|ys| + 3]) == d.month && h[|ys| + 3] == '月'
      && AllDigits(h[|ys| + 4..|ys| + 6]) && DigitsValue(h[|ys| + 4..|ys| + 6]) == d.day && h[|ys| + 6] == '日'
  {
    var ys, ms, ds := NatToString(d.year), PadStart2(NatToString(d.month)), PadStart2(NatToString(d.day));
    HeaderLineOfDay(d);
    PaddedValue(d.month);
    PaddedValue(d.day);
    HeaderFields(HeaderLine(Day(d)), ys, ms, ds, d.month, d.day);
  }

  /** The header line of a day in a year written without a sign. */
  lemma HeaderLineOfDay(d: Date)
    requires d.month >= 0 && d.day >= 0 && d.year >= 0
    ensures HeaderLine(Day(d)) == NatToString(d.year) + "年" + PadStart2(NatToString(d.month)) + "月"
                                  + PadStart2(NatToString(d.day)) + "日AI简讯"
  {
  }

  /** The year, month and day fields of a header line, read back. */
  lemma HeaderFields(h: string, ys: string, ms: string, ds: string, month: nat, day: nat)
    requires |ms| == 2 && AllDigits(ms) && DigitsValue(ms) == month
    requires |ds| == 2 && AllDigits(ds) && DigitsValue(ds) == day
    requires h == ys + "年" + ms + "月" + ds + "日AI简讯"
    ensures && h[..|ys|] == ys && h[|ys|] == '年'
      && AllDigits(h[|ys| + 1..|ys| + 3]) && DigitsValue(h[|ys| + 1..|ys| + 3]) == month && h[|ys| + 3] == '月'
      && AllDigits(h[|ys| + 4..|ys| + 6]) && DigitsValue(h[|ys| + 4..|ys| + 6]) == day && h[|ys| + 6] == '日'
  {
    HeaderParts(h, ys, ms, ds);
    DigitsOfEqual(h[|ys| + 1..|ys| + 3], ms);
    DigitsOfEqual(h[|ys| + 4..|ys| + 6], ds);
  }

  /** A string equal to a digit string is one, with the same value. */
  lemma DigitsOfEqual(x: string, digits: string)
    requires x == digits && AllDigits(digits)
    ensures AllDigits(x) && DigitsValue(x) == DigitsValue(digits)
  {
  }

  /** Where the three fields sit in a header line. */
  lemma HeaderParts(h: string, ys: string, ms: string, ds: string)
    requires |ms| == 2 && |ds| == 2
    requires h == ys + "年" + ms + "月" + ds + "日AI简讯"
    ensures && h[..|ys|] == ys && h[|ys|] == '年'
      && h[|ys| + 1..|ys| + 3] == ms && h[|ys| + 3] == '月'
      && h[|ys| + 4..|ys| + 6] == ds && h[|ys| + 6] == '日'
  {
    var a := ys + "年";
    var b := a + ms + "月";
    var c := b + ds + "日";
    assert h == c + "AI简讯";
    assert h[..|c|] == c;
    assert c[..|b|] == b;
    assert b[..|a|] == a;
    assert h[|ys| + 1..|ys| + 3] == b[|a|..|a| + 2] == ms;
    assert h[|ys| + 4..|ys| + 6] == c[|b|..|b| + 2] == ds;
  }

  /** A number below a hundred padded to two digits reads back as itself. */
  lemma PaddedValue(n: nat)
    requires n < 100
    ensures |PadStart2(NatToString(n))| == 2 && AllDigits(PadStart2(NatToString(n)))
    ensures DigitsValue(PadStart2(NatToString(n))) == n
  {
    var s := NatToString(n);
    NatToStringRoundTrip(n);
    if n < 10 {
      assert s == [DigitChar(n)];
      var p := PadStart2(s);
      assert p == ['0', DigitChar(n)];
      assert p[..1] == ['0'];
      assert p[..1][..0] == [];
    } else {
      assert NatToString(n / 10) == [DigitChar(n / 10)];
      assert s == [DigitChar(n / 10), DigitChar(n % 10)];
      assert s[..1] == [DigitChar(n / 10)];
      assert s[..1][..0] == [];
    }
  }
}
