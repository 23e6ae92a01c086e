/**
 * Local wall-clock date-times as the event form handles them: the
 * `YYYY-MM-DDTHH:mm` text of a `datetime-local` input, the fields a `Date`
 * exposes (`getFullYear`, `getMonth() + 1`, `getDate`, `getHours`,
 * `getMinutes`), adding one hour with calendar rollover, and an ordinal
 * (minutes since 0000-01-01T00:00, proleptic Gregorian) that orders them.
 */
module Calendar {
  import opened Wrappers
  import Text

  datatype DateTime = DateTime(year: nat, month: nat, day: nat, hour: nat, minute: nat)

  predicate IsLeapYear(y: nat) {
    y % 4 == 0 && (y % 100 != 0 || y % 400 == 0)
  }

  function DaysInYear(y: nat): nat {
    if IsLeapYear(y) then 366 else 365
  }

  function DaysInMonth(y: nat, m: nat): nat {
    if m == 2 then (if IsLeapYear(y) then 29 else 28)
    else if m == 4 || m == 6 || m == 9 || m == 11 then 30
    else 31
  }

  /** A date-time a `Date` can show: real month, day within its month, hour and minute on the clock. */
  predicate Valid(d: DateTime) {
    1 <= d.month <= 12 && 1 <= d.day <= DaysInMonth(d.year, d.month) && d.hour < 24 && d.minute < 60
  }

  function DaysBeforeYear(y: nat): nat {
    if y == 0 then 0 else DaysBeforeYear(y - 1) + DaysInYear(y - 1)
  }

  function DaysBeforeMonth(y: nat, m: nat): nat
    requires 1 <= m <= 13
  {
    if m == 1 then 0 else DaysBeforeMonth(y, m - 1) + DaysInMonth(y, m - 1)
  }

  /** Days from 0000-01-01 to the date of `d`. */
  function DayIndex(d: DateTime): nat
    requires Valid(d)
  {
    DaysBeforeYear(d.year) + DaysBeforeMonth(d.year, d.month) + d.day - 1
  }

  /** Minutes from 0000-01-01T00:00 to `d`. */
  function Minutes(d: DateTime): nat
    requires Valid(d)
  {
    (DayIndex(d) * 24 + d.hour) * 60 + d.minute
  }

  /** Milliseconds from 0000-01-01T00:00 to the Unix epoch 1970-01-01T00:00 (719528 days). */
  const EpochMillis: nat := 62167219200000

  /**
   * The millisecond value `getTime()` gives, counted from the Unix epoch on
   * the local wall clock (no time-zone offset); negative before 1970.
   */
  function Millis(d: DateTime): int
    requires Valid(d)
  {
    Minutes(d) * 60000 - EpochMillis
  }

  /** Leap years before year `y`: multiples of 4, less multiples of 100, plus multiples of 400. */
  function LeapYearsBefore(y: nat): nat {
    (y + 3) / 4 - (y + 99) / 100 + (y + 399) / 400
  }

  /** The days before a year in closed form: 365 per year plus one per leap year. */
  lemma {:induction false} DaysBeforeYearClosedForm(y: nat)
    ensures DaysBeforeYear(y) == 365 * y + LeapYearsBefore(y)
    decreases y
  {
    if y > 0 {
      DaysBeforeYearClosedForm(y - 1);
      LeapStep(y - 1);
    }
  }

  /** Going past year `y` adds one leap year exactly when `y` is a leap year. */
  lemma LeapStep(y: nat)
    ensures LeapYearsBefore(y + 1) == LeapYearsBefore(y) + (if IsLeapYear(y) then 1 else 0)
  {
    MultiplesStep4(y);
    MultiplesStep100(y);
    MultiplesStep400(y);
    if y % 100 == 0 {
      CenturyDivisibleBy4(y);
    }
    if y % 400 == 0 {
      QuadricentennialIsCentury(y);
    }
  }

  lemma CenturyDivisibleBy4(y: nat)
    requires y % 100 == 0
    ensures y % 4 == 0
  {
    var k := y / 100;
    assert y == 100 * k;
    var m := 25 * k;
    assert y == 4 * m;
    assert y / 4 == m;
  }

  lemma QuadricentennialIsCentury(y: nat)
    requires y % 400 == 0
    ensures y % 100 == 0
  {
    var k := y / 400;
    assert y == 400 * k;
    var m := 4 * k;
    assert y == 100 * m;
    assert y / 100 == m;
  }

  lemma MultiplesStep4(y: nat)
    ensures (y + 4) / 4 == (y + 3) / 4 + (if y % 4 == 0 then 1 else 0)
  {
  }

  lemma MultiplesStep100(y: nat)
    ensures (y + 100) / 100 == (y + 99) / 100 + (if y % 100 == 0 then 1 else 0)
  {
  }

  lemma MultiplesStep400(y: nat)
    ensures (y + 400) / 400 == (y + 399) / 400 + (if y % 400 == 0 then 1 else 0)
  {
  }

  /** `EpochMillis` is the start of 1970, so the Unix epoch itself is 0. */
  lemma MillisOfUnixEpoch()
    ensures Valid(DateTime(1970, 1, 1, 0, 0)) && Millis(DateTime(1970, 1, 1, 0, 0)) == 0
  {
    DaysBeforeYearClosedForm(1970);
    assert LeapYearsBefore(1970) == 478;
    assert DaysBeforeYear(1970) == 719528;
    assert DayIndex(DateTime(1970, 1, 1, 0, 0)) == 719528;
  }

  // ---------------------------------------------------------------- calendar facts

  lemma MonthsFillYear(y: nat)
    ensures DaysBeforeMonth(y, 13) == DaysInYear(y)
  {
    var feb := DaysInMonth(y, 2);
    assert DaysBeforeMonth(y, 2) == 31;
    assert DaysBeforeMonth(y, 3) == 31 + feb;
    assert DaysBeforeMonth(y, 4) == 62 + feb;
    assert DaysBeforeMonth(y, 5) == 92 + feb;
    assert DaysBeforeMonth(y, 6) == 123 + feb;
    assert DaysBeforeMonth(y, 7) == 153 + feb;
    assert DaysBeforeMonth(y, 8) == 184 + feb;
    assert DaysBeforeMonth(y, 9) == 215 + feb;
    assert DaysBeforeMonth(y, 10) == 245 + feb;
    assert DaysBeforeMonth(y, 11) == 276 + feb;
    assert DaysBeforeMonth(y, 12) == 306 + feb;
    assert DaysBeforeMonth(y, 13) == 337 + feb;
  }

  lemma {:induction false} DaysBeforeMonthGrows(y: nat, m1: nat, m2: nat)
    requires 1 <= m1 < m2 <= 13
    ensures DaysBeforeMonth(y, m1) + DaysInMonth(y, m1) <= DaysBeforeMonth(y, m2)
    decreases m2
  {
    if m1 + 1 < m2 {
      DaysBeforeMonthGrows(y, m1, m2 - 1);
    }
  }

  lemma {:induction false} DaysBeforeYearGrows(y1: nat, y2: nat)
    requires y1 < y2
    ensures DaysBeforeYear(y1) + DaysInYear(y1) <= DaysBeforeYear(y2)
    decreases y2
  {
    if y1 + 1 < y2 {
      DaysBeforeYearGrows(y1, y2 - 1);
    }
  }

  /** Every day of year `y` comes before the first day of year `y + 1`. */
  lemma DayIndexWithinYear(d: DateTime)
    requires Valid(d)
    ensures DaysBeforeYear(d.year) <= DayIndex(d) < DaysBeforeYear(d.year) + DaysInYear(d.year)
  {
    DaysBeforeMonthGrows(d.year, d.month, 13);
    MonthsFillYear(d.year);
  }

  // ---------------------------------------------------------------- adding one hour

  function NextDay(d: DateTime): (r: DateTime)
    requires Valid(d)
    ensures Valid(r) && r.hour == d.hour && r.minute == d.minute
    ensures DayIndex(r) == DayIndex(d) + 1
  {
    if d.day < DaysInMonth(d.year, d.month) then d.(day := d.day + 1)
    else if d.month < 12 then d.(month := d.month + 1, day := 1)
    else
      MonthsFillYear(d.year);
      d.(year := d.year + 1, month := 1, day := 1)
  }

  /** `setHours(getHours() + 1)`: the clock moves forward sixty minutes, rolling over day, month and year. */
  function AddHour(d: DateTime): (r: DateTime)
    requires Valid(d)
    ensures Valid(r)
    ensures Minutes(r) == Minutes(d) + 60
  {
    if d.hour < 23 then d.(hour := d.hour + 1)
    else NextDay(d).(hour := 0)
  }

  // ---------------------------------------------------------------- chronological order

  /** Field-by-field order: year, then month, day, hour and minute. */
  predicate FieldsBefore(a: DateTime, b: DateTime) {
    a.year < b.year
    || (a.year == b.year && (a.month < b.month
    || (a.month == b.month && (a.day < b.day
    || (a.day == b.day && (a.hour < b.hour
    || (a.hour == b.hour && a.minute < b.minute)))))))
  }

  lemma FieldsBeforeMeansEarlier(a: DateTime, b: DateTime)
    requires Valid(a) && Valid(b) && FieldsBefore(a, b)
    ensures Minutes(a) < Minutes(b)
  {
    if a.year < b.year {
      DayIndexWithinYear(a);
      DayIndexWithinYear(b);
      DaysBeforeYearGrows(a.year, b.year);
    } else if a.month < b.month {
      DaysBeforeMonthGrows(a.year, a.month, b.month);
    }
  }

  /** Field order and the minute ordinal agree on valid date-times. */
  lemma FieldsBeforeIffEarlier(a: DateTime, b: DateTime)
    requires Valid(a) && Valid(b)
    ensures FieldsBefore(a, b) <==> Minutes(a) < Minutes(b)
  {
    if FieldsBefore(a, b) {
      FieldsBeforeMeansEarlier(a, b);
    } else if FieldsBefore(b, a) {
      FieldsBeforeMeansEarlier(b, a);
    } else {
      assert a == b;
    }
  }

  // ---------------------------------------------------------------- decimal text

  predicate IsDigit(c: char) {
    '0' <= c <= '9'
  }

  predicate AllDigits(s: string) {
    forall k :: 0 <= k < |s| ==> IsDigit(s[k])
  }

  function Digit(n: nat): (c: char)
    requires n < 10
    ensures IsDigit(c)
  {
    ('0' as int + n) as char
  }

  function DigitValue(c: char): nat
    requires IsDigit(c)
  {
    c as int - '0' as int
  }

  /** `String(n)` for a non-negative integer: its decimal digits, no leading zero. */
  function NatToString(n: nat): (r: string)
    ensures |r| >= 1 && AllDigits(r)
    ensures n >= 10 ==> |r| >= 2
    ensures r[0] == '0' <==> n == 0
  {
    if n < 10 then [Digit(n)] else NatToString(n / 10) + [Digit(n % 10)]
  }

  /** The number a string of decimal digits denotes. */
  function DigitsValue(s: string): nat
    requires AllDigits(s)
  {
    if |s| == 0 then 0 else DigitsValue(s[..|s| - 1]) * 10 + DigitValue(s[|s| - 1])
  }

  lemma {:induction false} NatToStringRoundTrip(n: nat)
    ensures DigitsValue(NatToString(n)) == n
    decreases n
  {
    var s := NatToString(n);
    if n >= 10 {
      NatToStringRoundTrip(n / 10);
      assert s[..|s| - 1] == NatToString(n / 10);
    } else {
      assert s[..0] == [];
    }
  }

  lemma NatToStringInjective(a: nat, b: nat)
    ensures NatToString(a) == NatToString(b) <==> a == b
  {
    NatToStringRoundTrip(a);
    NatToStringRoundTrip(b);
  }

  /** Between numbers with the same count of digits, string order is numeric order. */
  lemma {:induction false} NatToStringOrder(a: nat, b: nat)
    requires |NatToString(a)| == |NatToString(b)|
    ensures Text.Less(NatToString(a), NatToString(b)) <==> a < b
    decreases a
  {
    if a < 10 {
      assert b < 10;
    } else {
      assert b >= 10;
      Text.LessConcat(NatToString(a / 10), [Digit(a % 10)], NatToString(b / 10), [Digit(b % 10)]);
      NatToStringOrder(a / 10, b / 10);
      NatToStringInjective(a / 10, b / 10);
    }
  }

  /** `String(n).padStart(2, '0')`. */
  function Pad2(n: nat): (r: string)
    ensures AllDigits(r)
    ensures n < 100 ==> r == [Digit(n / 10), Digit(n % 10)]
  {
    var s := NatToString(n);
    assert 10 <= n < 100 ==> NatToString(n / 10) == [Digit(n / 10)];
    if |s| < 2 then "0" + s else s
  }

  lemma Pad2RoundTrip(n: nat)
    requires n < 100
    ensures DigitsValue(Pad2(n)) == n
  {
    var r := Pad2(n);
    assert DigitValue(r[0]) == n / 10 && DigitValue(r[1]) == n % 10;
    assert r[..1][..0] == [];
    assert DigitsValue(r[..1]) == n / 10;
    assert r[..|r| - 1] == r[..1];
  }

  lemma Pad2Order(a: nat, b: nat)
    requires a < 100 && b < 100
    ensures Text.Less(Pad2(a), Pad2(b)) <==> a < b
  {
    var x, y := Pad2(a), Pad2(b);
    assert x == [x[0]] + [x[1]] && y == [y[0]] + [y[1]];
    Text.LessConcat([x[0]], [x[1]], [y[0]], [y[1]]);
    assert Text.Less([x[0]], [y[0]]) <==> a / 10 < b / 10;
    assert Text.Less([x[1]], [y[1]]) <==> a % 10 < b % 10;
  }

  // ---------------------------------------------------------------- text form

  /**
   * `${year}-${MM}-${DD}T${HH}:${mm}`: how `getMinDateTime` renders the current
   * time and how the start-time handler renders the adjusted end time.
   */
  function Format(d: DateTime): string {
    NatToString(d.year) + Tail(d)
  }

  /** The part after the year: `-MM-DDTHH:mm`. */
  function Tail(d: DateTime): string {
    "-" + (Pad2(d.month) + ("-" + (Pad2(d.day) + ("T" + (Pad2(d.hour) + (":" + Pad2(d.minute)))))))
  }

  /** What the handler produces when the start text is not a date: every field renders as `NaN`. */
  const InvalidDateText: string := "NaN-NaN-NaNTNaN:NaN"

  /** Reads `YYYY-MM-DDTHH:mm` (a year of one or more digits); anything else, or an impossible date, is `None`. */
  function Parse(s: string): (r: Option<DateTime>)
    ensures r.Some? ==> Valid(r.value)
  {
    if |s| < 13 then None
    else
      var n := |s| - 12;
      if AllDigits(s[..n]) && s[n] == '-' && AllDigits(s[n + 1..n + 3]) && s[n + 3] == '-'
         && AllDigits(s[n + 4..n + 6]) && s[n + 6] == 'T' && AllDigits(s[n + 7..n + 9])
         && s[n + 9] == ':' && AllDigits(s[n + 10..])
      then
        var d := DateTime(DigitsValue(s[..n]), DigitsValue(s[n + 1..n + 3]), DigitsValue(s[n + 4..n + 6]),
                          DigitsValue(s[n + 7..n + 9]), DigitsValue(s[n + 10..]));
        if Valid(d) then Some(d) else None
      else None
  }

  /** `new Date(text).getTime()` for the input's text, or `None` for an invalid date. */
  function ParseMillis(s: string): (r: Option<int>)
    ensures r.Some? <==> Parse(s).Some?
  {
    match Parse(s)
    case Some(d) => Some(Millis(d))
    case None => None
  }

  /** Two decimal digits are the `padStart(2, '0')` rendering of the number they denote. */
  lemma TwoDigits(t: string)
    requires |t| == 2 && AllDigits(t)
    ensures DigitsValue(t) < 100 && Pad2(DigitsValue(t)) == t
  {
    assert t[..1][..0] == [];
    assert DigitsValue(t[..1]) == DigitValue(t[0]);
    var v := DigitsValue(t);
    assert v == DigitValue(t[0]) * 10 + DigitValue(t[1]);
    assert v / 10 == DigitValue(t[0]) && v % 10 == DigitValue(t[1]);
    assert t == [t[0], t[1]];
  }

  /** A twelve-character text with the separators of `-MM-DDTHH:mm` is the join of its four fields. */
  lemma TailFields(u: string)
    requires |u| == 12 && u[0] == '-' && u[3] == '-' && u[6] == 'T' && u[9] == ':'
    ensures u == "-" + (u[1..3] + ("-" + (u[4..6] + ("T" + (u[7..9] + (":" + u[10..]))))))
  {
    var t := "-" + (u[1..3] + ("-" + (u[4..6] + ("T" + (u[7..9] + (":" + u[10..]))))));
    assert t == ['-', u[1], u[2], '-', u[4], u[5], 'T', u[7], u[8], ':', u[10], u[11]];
    assert u == [u[0], u[1], u[2], u[3], u[4], u[5], u[6], u[7], u[8], u[9], u[10], u[11]];
  }

  /** A text that reads as `d` spells `d`: its leading digits denote the year and the rest is `-MM-DDTHH:mm`. */
  lemma ParseReadsFields(s: string, d: DateTime)
    requires Parse(s) == Some(d)
    ensures Valid(d) && |s| >= 13
    ensures var n := |s| - 12;
      AllDigits(s[..n]) && DigitsValue(s[..n]) == d.year && s[n..] == Tail(d)
  {
    var n := |s| - 12;
    var u := s[n..];
    assert u[1..3] == s[n + 1..n + 3] && u[4..6] == s[n + 4..n + 6];
    assert u[7..9] == s[n + 7..n + 9] && u[10..] == s[n + 10..];
    TwoDigits(u[1..3]);
    TwoDigits(u[4..6]);
    TwoDigits(u[7..9]);
    TwoDigits(u[10..]);
    TailFields(u);
  }

  /** Any digits denoting the year, zero-padded or not, followed by `-MM-DDTHH:mm`, read as the date-time. */
  lemma ParseOfDigitsAndTail(y: string, d: DateTime)
    requires Valid(d) && |y| >= 1 && AllDigits(y) && DigitsValue(y) == d.year
    ensures Parse(y + Tail(d)) == Some(d)
  {
    TailLayout(d);
    ConcatLayout(y, Tail(d));
    Pad2RoundTrip(d.month);
    Pad2RoundTrip(d.day);
    Pad2RoundTrip(d.hour);
    Pad2RoundTrip(d.minute);
  }

  /** The zero-padded year a `datetime-local` input gives for year 999 reads as year 999. */
  lemma PaddedYearReads()
    ensures Parse("0999-05-05T10:00") == Some(DateTime(999, 5, 5, 10, 0))
  {
    var d := DateTime(999, 5, 5, 10, 0);
    PaddedYearDigits();
    ExampleTail();
    assert "0999-05-05T10:00" == "0999" + Tail(d);
    ParseOfDigitsAndTail("0999", d);
  }

  lemma PaddedYearDigits()
    ensures AllDigits("0999") && DigitsValue("0999") == 999
  {
    var y := "0999";
    assert y[..3] == "099" && "099"[..2] == "09" && "09"[..1] == "0" && "0"[..0] == [];
    assert DigitsValue("0") == 0;
    assert DigitsValue("09") == 9;
    assert DigitsValue("099") == 99;
  }

  lemma ExampleTail()
    ensures Tail(DateTime(999, 5, 5, 10, 0)) == "-05-05T10:00"
  {
    assert Pad2(5) == "05" && Pad2(10) == "10" && Pad2(0) == "00";
  }

  /** Reading back a rendered date-time gives the date-time. */
  lemma FormatParseRoundTrip(d: DateTime)
    requires Valid(d)
    ensures Parse(Format(d)) == Some(d)
  {
    FormatLayout(d);
    NatToStringRoundTrip(d.year);
    Pad2RoundTrip(d.month);
    Pad2RoundTrip(d.day);
    Pad2RoundTrip(d.hour);
    Pad2RoundTrip(d.minute);
  }

  /** Where the year, the separators and the two-digit fields sit in the rendered text. */
  lemma FormatLayout(d: DateTime)
    requires Valid(d)
    ensures var s := Format(d); var n := |NatToString(d.year)|;
      && |s| == n + 12 && s[..n] == NatToString(d.year)
      && s[n] == '-' && s[n + 3] == '-' && s[n + 6] == 'T' && s[n + 9] == ':'
      && s[n + 1..n + 3] == Pad2(d.month) && s[n + 4..n + 6] == Pad2(d.day)
      && s[n + 7..n + 9] == Pad2(d.hour) && s[n + 10..] == Pad2(d.minute)
  {
    TailLayout(d);
    ConcatLayout(NatToString(d.year), Tail(d));
  }

  /**
   * The rendering of the date-time one hour after the one `start` reads as:
   * it reads back as a time 3600000 ms later, and is the rendering of what it reads as.
   */
  lemma RenderedHourLater(start: string, d: DateTime)
    requires Parse(start) == Some(d)
    ensures var r := Format(AddHour(d));
      && ParseMillis(r) == Some(ParseMillis(start).value + 3600000)
      && Parse(r).Some? && r == Format(Parse(r).value)
  {
    var e := AddHour(d);
    var r := Format(e);
    FormatParseRoundTrip(e);
    ParseMillisOf(start, d);
    ParseMillisOf(r, e);
    HourLaterMillis(d, e);
  }

  /** A text that reads as `d` has `getTime()` equal to `Millis(d)`. */
  lemma ParseMillisOf(s: string, d: DateTime)
    requires Parse(s) == Some(d)
    ensures Valid(d) && ParseMillis(s) == Some(Millis(d))
  {
  }

  lemma HourLaterMillis(d: DateTime, e: DateTime)
    requires Valid(d) && Valid(e) && Minutes(e) == Minutes(d) + 60
    ensures Millis(e) == Millis(d) + 3600000
  {
  }

  /** Positions in a year text followed by a twelve-character tail. */
  lemma ConcatLayout(y: string, t: string)
    requires |t| == 12
    ensures var s := y + t; var n := |y|;
      && |s| == n + 12 && s[..n] == y
      && s[n] == t[0] && s[n + 3] == t[3] && s[n + 6] == t[6] && s[n + 9] == t[9]
      && s[n + 1..n + 3] == t[1..3] && s[n + 4..n + 6] == t[4..6]
      && s[n + 7..n + 9] == t[7..9] && s[n + 10..] == t[10..]
  {
    var s, n := y + t, |y|;
    assert s[..n] == y;
    assert s[n + 1..n + 3] == t[1..3];
    assert s[n + 4..n + 6] == t[4..6];
    assert s[n + 7..n + 9] == t[7..9];
    assert s[n + 10..] == t[10..];
  }

  /** Where the separators and the two-digit fields sit in the text after the year. */
  lemma TailLayout(d: DateTime)
    requires d.month < 100 && d.day < 100 && d.hour < 100 && d.minute < 100
    ensures var t := Tail(d);
      && |t| == 12 && t[0] == '-' && t[3] == '-' && t[6] == 'T' && t[9] == ':'
      && t[1..3] == Pad2(d.month) && t[4..6] == Pad2(d.day)
      && t[7..9] == Pad2(d.hour) && t[10..] == Pad2(d.minute)
  {
    TailShape(Pad2(d.month), Pad2(d.day), Pad2(d.hour), Pad2(d.minute));
  }

  /** The `-MM-DDTHH:mm` layout for any four two-character fields. */
  lemma TailShape(mo: string, da: string, ho: string, mi: string)
    requires |mo| == 2 && |da| == 2 && |ho| == 2 && |mi| == 2
    ensures var t := "-" + (mo + ("-" + (da + ("T" + (ho + (":" + mi))))));
      && |t| == 12 && t[0] == '-' && t[3] == '-' && t[6] == 'T' && t[9] == ':'
      && t[1..3] == mo && t[4..6] == da && t[7..9] == ho && t[10..] == mi
  {
    var t := "-" + (mo + ("-" + (da + ("T" + (ho + (":" + mi))))));
    assert t == ['-', mo[0], mo[1], '-', da[0], da[1], 'T', ho[0], ho[1], ':', mi[0], mi[1]];
  }

  /**
   * Comparing two rendered date-times as strings (what the handler's `>=`
   * does) agrees with comparing the times, provided both years have the same
   * number of digits.
   */
  lemma FormatOrderIsTimeOrder(a: DateTime, b: DateTime)
    requires Valid(a) && Valid(b)
    requires |NatToString(a.year)| == |NatToString(b.year)|
    ensures Text.Less(Format(a), Format(b)) <==> Minutes(a) < Minutes(b)
  {
    FieldsBeforeIffEarlier(a, b);
    Text.LessConcat(NatToString(a.year), Tail(a), NatToString(b.year), Tail(b));
    NatToStringOrder(a.year, b.year);
    NatToStringInjective(a.year, b.year);
    TailOrder(a, b);
  }

  /** The text after the year compares like month, day, hour and minute in turn. */
  lemma TailOrder(a: DateTime, b: DateTime)
    requires a.month < 100 && a.day < 100 && a.hour < 100 && a.minute < 100
    requires b.month < 100 && b.day < 100 && b.hour < 100 && b.minute < 100
    ensures Text.Less(Tail(a), Tail(b)) <==> FieldsBefore(a.(year := 0), b.(year := 0))
  {
    var ma := ":" + Pad2(a.minute);
    var mb := ":" + Pad2(b.minute);
    var ha := "T" + (Pad2(a.hour) + ma);
    var hb := "T" + (Pad2(b.hour) + mb);
    var da := "-" + (Pad2(a.day) + ha);
    var db := "-" + (Pad2(b.day) + hb);
    // the month block
    Text.LessAfterCommonPrefix("-", Pad2(a.month) + da, Pad2(b.month) + db);
    Text.LessConcat(Pad2(a.month), da, Pad2(b.month), db);
    Pad2Order(a.month, b.month);
    // the day block
    Text.LessAfterCommonPrefix("-", Pad2(a.day) + ha, Pad2(b.day) + hb);
    Text.LessConcat(Pad2(a.day), ha, Pad2(b.day), hb);
    Pad2Order(a.day, b.day);
    // the hour block
    Text.LessAfterCommonPrefix("T", Pad2(a.hour) + ma, Pad2(b.hour) + mb);
    Text.LessConcat(Pad2(a.hour), ma, Pad2(b.hour), mb);
    Pad2Order(a.hour, b.hour);
    // the minute block
    Text.LessAfterCommonPrefix(":", Pad2(a.minute), Pad2(b.minute));
    Pad2Order(a.minute, b.minute);
  }
}
