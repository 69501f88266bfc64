/** Versions made from timestamps: RFC 3339 in UTC with nine fraction digits. */
module Timestamps {
  import opened Text

  // Nanoseconds since the start of year 0, UTC.
  type Instant = nat

  datatype Civil = Civil(year: nat, month: nat, day: nat, hour: nat, minute: nat, second: nat, nano: nat) {
    predicate Valid() {
      && 1 <= month <= 12 && 1 <= day <= MonthLength(year, month)
      && hour < 24 && minute < 60 && second < 60 && nano < 1_000_000_000
    }
  }

  // ---- the calendar ------------------------------------------------------

  predicate Leap(y: nat) {
    y % 4 == 0 && (y % 100 != 0 || y % 400 == 0)
  }

  function MonthLength(y: nat, m: nat): nat {
    if m == 2 then (if Leap(y) then 29 else 28)
    else if m == 4 || m == 6 || m == 9 || m == 11 then 30
    else 31
  }

  // Days of year y before its month m.
  function MonthStart(y: nat, m: nat): nat {
    if m <= 1 then 0 else MonthStart(y, m - 1) + MonthLength(y, m - 1)
  }

  // Days before year y.
  function YearStart(y: nat): nat {
    if y == 0 then 0 else YearStart(y - 1) + MonthStart(y - 1, 13)
  }

  function DayNumber(c: Civil): nat
    requires c.Valid()
  {
    YearStart(c.year) + MonthStart(c.year, c.month) + (c.day - 1)
  }

  function Radix(high: nat, base: nat, low: nat): nat {
    high * base + low
  }

  function InstantOf(c: Civil): Instant
    requires c.Valid()
  {
    Radix(Radix(Radix(Radix(DayNumber(c), 24, c.hour), 60, c.minute), 60, c.second), 1_000_000_000, c.nano)
  }

  // ---- the text ----------------------------------------------------------

  // n in exactly w digits.
  function Digits(n: nat, w: nat): (s: string)
    ensures |s| == w
  {
    if w == 0 then "" else Digits(n / 10, w - 1) + [Digit(n % 10)]
  }

  // At least four digits.
  function YearText(y: nat): string {
    if y < 10_000 then Digits(y, 4) else Decimal(y)
  }

  function SecondText(c: Civil): string {
    Digits(c.second, 2) + ("." + (Digits(c.nano, 9) + ("Z" + "")))
  }

  function TimeText(c: Civil): string {
    Digits(c.hour, 2) + (":" + (Digits(c.minute, 2) + (":" + SecondText(c))))
  }

  function DateText(c: Civil): string {
    Digits(c.month, 2) + ("-" + (Digits(c.day, 2) + ("T" + TimeText(c))))
  }

  function TextOf(c: Civil): string {
    YearText(c.year) + ("-" + DateText(c))
  }

  // ---- the calendar is the Gregorian one ---------------------------------

  // The rule of 153 days in five months, from March on.
  function MarchRule(m: nat): nat
    requires m >= 3
  {
    (153 * (m - 3) + 2) / 5
  }

  lemma MarchRuleStep(m: nat)
    requires 3 <= m <= 12
    ensures MarchRule(3) == 0 && MarchRule(13) == 306
    ensures MarchRule(m + 1) == MarchRule(m) + if m == 4 || m == 6 || m == 9 || m == 11 then 30 else 31
  {}

  lemma {:induction false} MonthStartCounts(y: nat, m: nat)
    requires 3 <= m <= 13
    ensures MonthStart(y, m) == MonthStart(y, 3) + MarchRule(m)
  {
    MarchRuleStep(if m == 3 then 3 else m - 1);
    if m > 3 {
      MonthStartCounts(y, m - 1);
    }
  }

  // Gregorian leap years.
  predicate LongYear(y: nat) {
    y % 400 == 0 || (y % 4 == 0 && y % 100 != 0)
  }

  lemma YearLength(y: nat)
    ensures MonthStart(y, 3) == if LongYear(y) then 60 else 59
    ensures MonthStart(y, 13) == if LongYear(y) then 366 else 365
  {
    assert MonthStart(y, 2) == 31;
    MonthStartCounts(y, 13);
    MarchRuleStep(12);
  }

  lemma Fourths(y: nat)
    ensures (y + 4) / 4 == (y + 3) / 4 + if y % 4 == 0 then 1 else 0
    ensures (y + 403) / 4 == (y + 3) / 4 + 100
  {}

  lemma Hundredths(y: nat)
    ensures (y + 100) / 100 == (y + 99) / 100 + if y % 100 == 0 then 1 else 0
    ensures (y + 499) / 100 == (y + 99) / 100 + 4
  {}

  lemma FourHundredths(y: nat)
    ensures (y + 400) / 400 == (y + 399) / 400 + if y % 400 == 0 then 1 else 0
    ensures (y + 799) / 400 == (y + 399) / 400 + 1
  {}

  lemma OfHundred(y: nat)
    ensures y % 100 == 0 ==> y % 4 == 0
  {
    assert y == 4 * (25 * (y / 100)) + y % 100;
  }

  lemma OfFourHundred(y: nat)
    ensures y % 400 == 0 ==> y % 100 == 0
  {
    assert y == 100 * (4 * (y / 400)) + y % 400;
  }

  // Every fourth year is a day longer, but not every hundredth, but every
  // four hundredth.
  function DaysBefore(y: nat): int {
    365 * y + (y + 3) / 4 - (y + 99) / 100 + (y + 399) / 400
  }

  lemma DaysGrow(y: nat)
    ensures DaysBefore(y + 1) == DaysBefore(y) + if LongYear(y) then 366 else 365
  {
    Fourths(y);
    Hundredths(y);
    FourHundredths(y);
    OfHundred(y);
    OfFourHundred(y);
  }

  lemma YearGrows(y: nat)
    ensures YearStart(y + 1) - YearStart(y) == DaysBefore(y + 1) - DaysBefore(y)
  {
    DaysGrow(y);
    YearLength(y);
  }

  // The days before a year.
  lemma {:induction false} YearStartCounts(y: nat)
    ensures YearStart(y) == DaysBefore(y)
  {
    if y > 0 {
      YearStartCounts(y - 1);
      YearGrows(y - 1);
    }
  }

  // So 400 years are 146097 days.
  lemma CalendarRepeats(y: nat, z: nat)
    requires z == y + 400
    ensures YearStart(z) == YearStart(y) + 146_097
  {
    YearStartCounts(y);
    YearStartCounts(z);
    Fourths(y);
    Hundredths(y);
    FourHundredths(y);
  }

  lemma GlueTime()
    ensures "05" + ("." + ("000000000" + ("Z" + ""))) == "05.000000000Z"
    ensures "15" + (":" + ("04" + (":" + "05.000000000Z"))) == "15:04:05.000000000Z"
  {}

  lemma GlueDate()
    ensures "01" + ("-" + ("02" + ("T" + "15:04:05.000000000Z"))) == "01-02T15:04:05.000000000Z"
    ensures "2006" + ("-" + "01-02T15:04:05.000000000Z") == "2006-01-02T15:04:05.000000000Z"
  {}

  lemma ShortDigits()
    ensures Digits(15, 2) == "15" && Digits(4, 2) == "04" && Digits(5, 2) == "05"
    ensures Digits(1, 2) == "01" && Digits(2, 2) == "02"
  {}

  lemma TimeExample(c: Civil)
    requires c.hour == 15 && c.minute == 4 && c.second == 5 && c.nano == 0
    ensures TimeText(c) == "15:04:05.000000000Z"
  {
    ShortDigits();
    ZeroDigits(9);
    TimesNine();
    GlueTime();
  }

  lemma {:induction false} ZeroDigits(w: nat)
    ensures Digits(0, w) == Times("0", w)
  {
    if w > 0 {
      ZeroDigits(w - 1);
      TimesAdds("0", w - 1, 1);
      assert Times("0", 1) == "0";
    }
  }

  lemma TimesNine()
    ensures Times("0", 9) == "000000000"
  {
    TimesOfChar('0', 9);
  }

  lemma LongDigits()
    ensures Digits(2006, 4) == "2006"
  {
    assert Digits(20, 2) == "20";
    assert Digits(200, 3) == "20" + "0";
  }

  // The layout, shown on its own reference time.
  lemma LayoutExample(c: Civil)
    requires c == Civil(2006, 1, 2, 15, 4, 5, 0)
    ensures TextOf(c) == "2006-01-02T15:04:05.000000000Z"
  {
    TimeExample(c);
    ShortDigits();
    LongDigits();
    GlueDate();
  }

  // ---- every instant has its civil time ----------------------------------

  lemma {:induction false} MonthsGrow(y: nat, m: nat, n: nat)
    requires m < n
    ensures MonthStart(y, m) + (if m >= 1 then MonthLength(y, m) else 0) <= MonthStart(y, n)
  {
    if m + 1 < n {
      MonthsGrow(y, m, n - 1);
    }
  }

  lemma {:induction false} YearsGrow(y: nat, z: nat)
    requires y < z
    ensures YearStart(y) + MonthStart(y, 13) <= YearStart(z)
  {
    if y + 1 < z {
      YearsGrow(y, z - 1);
    }
  }

  function MonthOf(y: nat, d: nat, m: nat): (r: nat)
    requires 1 <= m <= 12 && MonthStart(y, m) <= d < MonthStart(y, 13)
    ensures 1 <= r <= 12 && MonthStart(y, r) <= d < MonthStart(y, r + 1)
    decreases 12 - m
  {
    if d < MonthStart(y, m + 1) then m else MonthOf(y, d, m + 1)
  }

  function YearOf(d: nat, y: nat): (r: nat)
    requires YearStart(y) <= d
    ensures YearStart(r) <= d < YearStart(r + 1)
    decreases d - YearStart(y)
  {
    MonthsGrow(y, 1, 13);
    if d < YearStart(y + 1) then y else YearOf(d, y + 1)
  }

  function CivilOf(t: Instant): (c: Civil) {
    var seconds := t / 1_000_000_000;
    var minutes := seconds / 60;
    var hours := minutes / 60;
    var days := hours / 24;
    var year := YearOf(days, 0);
    var d := days - YearStart(year);
    var month := MonthOf(year, d, 1);
    Civil(year, month, d - MonthStart(year, month) + 1, hours % 24, minutes % 60, seconds % 60, t % 1_000_000_000)
  }

  // Every instant has a civil time, which denotes it.
  lemma {:induction false} CivilDenotes(t: Instant)
    ensures CivilOf(t).Valid() && InstantOf(CivilOf(t)) == t
  {
    var c := CivilOf(t);
    var seconds := t / 1_000_000_000;
    var minutes := seconds / 60;
    var hours := minutes / 60;
    assert DayNumber(c) == hours / 24;
    assert Radix(DayNumber(c), 24, c.hour) == hours;
    assert Radix(hours, 60, c.minute) == minutes;
    assert Radix(minutes, 60, c.second) == seconds;
  }

  // The version of a secret last updated at t.
  function VersionText(t: Instant): string {
    TextOf(CivilOf(t))
  }

  // ---- order of instants and order of texts ------------------------------

  lemma NextMultiple(a: nat, b: nat, base: nat)
    requires a < b
    ensures a * base + base <= b * base
  {
    assert b * base == a * base + base + (b - a - 1) * base;
    assert (b - a - 1) * base >= 0;
  }

  lemma RadixOrder(a: nat, b: nat, base: nat, x: nat, y: nat)
    requires x < base && y < base
    ensures Radix(a, base, x) < Radix(b, base, y) <==> a < b || (a == b && x < y)
  {
    if a < b {
      NextMultiple(a, b, base);
    } else if b < a {
      NextMultiple(b, a, base);
    }
  }

  // Calendar dates, compared field by field.
  predicate EarlierDate(a: Civil, b: Civil) {
    a.year < b.year || (a.year == b.year && (a.month < b.month || (a.month == b.month && a.day < b.day)))
  }

  lemma EarlierDateCounts(a: Civil, b: Civil)
    requires a.Valid() && b.Valid() && EarlierDate(a, b)
    ensures DayNumber(a) < DayNumber(b)
  {
    MonthsGrow(a.year, a.month, 13);
    if a.year < b.year {
      YearsGrow(a.year, b.year);
    } else if a.month < b.month {
      MonthsGrow(a.year, a.month, b.month);
    }
  }

  lemma DateOrder(a: Civil, b: Civil)
    requires a.Valid() && b.Valid()
    ensures DayNumber(a) < DayNumber(b) <==> EarlierDate(a, b)
    ensures DayNumber(a) == DayNumber(b) <==> a.year == b.year && a.month == b.month && a.day == b.day
  {
    if EarlierDate(a, b) {
      EarlierDateCounts(a, b);
    } else if EarlierDate(b, a) {
      EarlierDateCounts(b, a);
    }
  }

  predicate EarlierSecond(a: Civil, b: Civil) {
    a.second < b.second || (a.second == b.second && a.nano < b.nano)
  }

  predicate EarlierTime(a: Civil, b: Civil) {
    a.hour < b.hour || (a.hour == b.hour && (a.minute < b.minute || (a.minute == b.minute && EarlierSecond(a, b))))
  }

  predicate Earlier(a: Civil, b: Civil) {
    EarlierDate(a, b) || (a.year == b.year && a.month == b.month && a.day == b.day && EarlierTime(a, b))
  }

  lemma InstantOrder(a: Civil, b: Civil)
    requires a.Valid() && b.Valid()
    ensures InstantOf(a) < InstantOf(b) <==> Earlier(a, b)
  {
    DateOrder(a, b);
    var (d, e) := (DayNumber(a), DayNumber(b));
    RadixOrder(d, e, 24, a.hour, b.hour);
    RadixOrder(e, d, 24, b.hour, a.hour);
    var (h, i) := (Radix(d, 24, a.hour), Radix(e, 24, b.hour));
    RadixOrder(h, i, 60, a.minute, b.minute);
    RadixOrder(i, h, 60, b.minute, a.minute);
    var (m, n) := (Radix(h, 60, a.minute), Radix(i, 60, b.minute));
    RadixOrder(m, n, 60, a.second, b.second);
    RadixOrder(n, m, 60, b.second, a.second);
    RadixOrder(Radix(m, 60, a.second), Radix(n, 60, b.second), 1_000_000_000, a.nano, b.nano);
  }

  function Pow10(w: nat): nat {
    if w == 0 then 1 else 10 * Pow10(w - 1)
  }

  lemma {:induction false} DigitsOrder(m: nat, n: nat, w: nat)
    requires m < Pow10(w) && n < Pow10(w)
    ensures Less(Digits(m, w), Digits(n, w)) <==> m < n
    ensures Digits(m, w) == Digits(n, w) <==> m == n
  {
    if w > 0 {
      DigitsOrder(m / 10, n / 10, w - 1);
      var (p, q) := (Digits(m / 10, w - 1), Digits(n / 10, w - 1));
      assert Digits(m, w)[w - 1] == Digit(m % 10) && Digits(n, w)[w - 1] == Digit(n % 10);
      if p == q {
        LessAfterPrefix(p, [Digit(m % 10)], [Digit(n % 10)]);
      } else {
        LessByPrefix(p, q, [Digit(m % 10)], [Digit(n % 10)]);
        assert Digits(m, w)[..w - 1] == p && Digits(n, w)[..w - 1] == q;
      }
    }
  }

  // One field, its separator and what follows.
  lemma FieldOrder(m: nat, n: nat, w: nat, sep: string, r: string, s: string)
    requires m < Pow10(w) && n < Pow10(w)
    ensures Less(Digits(m, w) + (sep + r), Digits(n, w) + (sep + s)) <==> m < n || (m == n && Less(r, s))
  {
    DigitsOrder(m, n, w);
    if m == n {
      LessAfterPrefix(Digits(m, w), sep + r, sep + s);
      LessAfterPrefix(sep, r, s);
    } else {
      LessByPrefix(Digits(m, w), Digits(n, w), sep + r, sep + s);
    }
  }

  lemma SecondTextOrder(a: Civil, b: Civil)
    requires a.Valid() && b.Valid()
    ensures Less(SecondText(a), SecondText(b)) <==> EarlierSecond(a, b)
  {
    assert Pow10(2) == 100 && Pow10(9) == 1_000_000_000;
    FieldOrder(a.nano, b.nano, 9, "Z", "", "");
    FieldOrder(a.second, b.second, 2, ".", Digits(a.nano, 9) + ("Z" + ""), Digits(b.nano, 9) + ("Z" + ""));
  }

  lemma TimeTextOrder(a: Civil, b: Civil)
    requires a.Valid() && b.Valid()
    ensures Less(TimeText(a), TimeText(b)) <==> EarlierTime(a, b)
  {
    assert Pow10(2) == 100;
    SecondTextOrder(a, b);
    FieldOrder(a.minute, b.minute, 2, ":", SecondText(a), SecondText(b));
    FieldOrder(a.hour, b.hour, 2, ":",
               Digits(a.minute, 2) + (":" + SecondText(a)),
               Digits(b.minute, 2) + (":" + SecondText(b)));
  }

  lemma TextOrder(a: Civil, b: Civil)
    requires a.Valid() && b.Valid() && a.year < 10_000 && b.year < 10_000
    ensures Less(TextOf(a), TextOf(b)) <==> Earlier(a, b)
  {
    assert Pow10(2) == 100 && Pow10(4) == 10_000;
    TimeTextOrder(a, b);
    FieldOrder(a.day, b.day, 2, "T", TimeText(a), TimeText(b));
    FieldOrder(a.month, b.month, 2, "-",
               Digits(a.day, 2) + ("T" + TimeText(a)),
               Digits(b.day, 2) + ("T" + TimeText(b)));
    FieldOrder(a.year, b.year, 4, "-", DateText(a), DateText(b));
  }

  lemma TextWidth(c: Civil)
    ensures |DateText(c)| == 25
    ensures c.year < 10_000 ==> |TextOf(c)| == 30
  {}

  // Up to year 9999, texts have one width, and their order as strings is the
  // order of the instants.
  lemma {:induction false} VersionOrder(t: Instant, u: Instant)
    requires CivilOf(t).year < 10_000 && CivilOf(u).year < 10_000
    ensures |VersionText(t)| == 30
    ensures Less(VersionText(t), VersionText(u)) <==> t < u
  {
    CivilDenotes(t);
    CivilDenotes(u);
    TextWidth(CivilOf(t));
    InstantOrder(CivilOf(t), CivilOf(u));
    TextOrder(CivilOf(t), CivilOf(u));
  }

  // The first instant after year y.
  function YearEnd(y: nat): Instant {
    YearStart(y + 1) * 86_400_000_000_000
  }

  lemma DayWithin(c: Civil, y: nat)
    requires c.Valid()
    ensures DayNumber(c) < YearStart(y + 1) <==> c.year <= y
  {
    MonthsGrow(c.year, c.month, 13);
    if c.year <= y {
      YearsGrow(c.year, y + 1);
    } else if c.year > y + 1 {
      YearsGrow(y + 1, c.year);
    }
  }

  // The instants of year y and before are those before its end.
  lemma YearWithin(t: Instant, y: nat)
    ensures t < YearEnd(y) <==> CivilOf(t).year <= y
  {
    CivilDenotes(t);
    DayWithin(CivilOf(t), y);
    DayBounds(CivilOf(t));
  }

  lemma DayBounds(c: Civil)
    requires c.Valid()
    ensures DayNumber(c) * 86_400_000_000_000 <= InstantOf(c) < (DayNumber(c) + 1) * 86_400_000_000_000
  {
    var h := Radix(DayNumber(c), 24, c.hour);
    var m := Radix(h, 60, c.minute);
    var s := Radix(m, 60, c.second);
    assert InstantOf(c) == s * 1_000_000_000 + c.nano;
  }

  // ---- versions tell every two instants apart, in any year ---------------

  lemma SplitText(p: string, q: string, r: string, s: string)
    requires p + r == q + s && |r| == |s|
    ensures p == q && r == s
  {
    assert |p| == |q|;
    assert (p + r)[..|p|] == p && (q + s)[..|q|] == q;
    assert (p + r)[|p|..] == r && (q + s)[|q|..] == s;
  }

  lemma YearTextInjective(y: nat, z: nat)
    requires YearText(y) == YearText(z)
    ensures y == z
  {
    assert Pow10(4) == 10_000;
    if y < 10_000 && z < 10_000 {
      DigitsOrder(y, z, 4);
    } else if y >= 10_000 && z >= 10_000 {
      DecimalInjective(y, z);
    } else {
      LongDecimal(if y < z then z else y);
    }
  }

  lemma LongDecimal(y: nat)
    requires y >= 10_000
    ensures |Decimal(y)| >= 5
  {
    assert |Decimal(y / 10_000)| >= 1;
    assert y / 10 / 10 / 10 / 10 == y / 10_000;
    assert |Decimal(y / 10 / 10 / 10)| >= 2 && |Decimal(y / 10 / 10)| >= 3 && |Decimal(y / 10)| >= 4;
  }

  lemma FieldInjective(m: nat, n: nat, w: nat, sep: string, r: string, s: string)
    requires m < Pow10(w) && n < Pow10(w) && |r| == |s|
    requires Digits(m, w) + (sep + r) == Digits(n, w) + (sep + s)
    ensures m == n && r == s
  {
    SplitText(Digits(m, w), Digits(n, w), sep + r, sep + s);
    SplitText(sep, sep, r, s);
    DigitsOrder(m, n, w);
  }

  lemma TextInjective(a: Civil, b: Civil)
    requires a.Valid() && b.Valid() && TextOf(a) == TextOf(b)
    ensures a == b
  {
    TextWidth(a);
    TextWidth(b);
    SplitText(YearText(a.year), YearText(b.year), "-" + DateText(a), "-" + DateText(b));
    SplitText("-", "-", DateText(a), DateText(b));
    YearTextInjective(a.year, b.year);
    DateTextInjective(a, b);
  }

  lemma DateTextInjective(a: Civil, b: Civil)
    requires a.Valid() && b.Valid() && DateText(a) == DateText(b)
    ensures a.month == b.month && a.day == b.day && a.hour == b.hour && a.minute == b.minute
    ensures a.second == b.second && a.nano == b.nano
  {
    assert Pow10(2) == 100;
    FieldInjective(a.month, b.month, 2, "-",
               Digits(a.day, 2) + ("T" + TimeText(a)),
               Digits(b.day, 2) + ("T" + TimeText(b)));
    FieldInjective(a.day, b.day, 2, "T", TimeText(a), TimeText(b));
    FieldInjective(a.hour, b.hour, 2, ":",
               Digits(a.minute, 2) + (":" + SecondText(a)),
               Digits(b.minute, 2) + (":" + SecondText(b)));
    FieldInjective(a.minute, b.minute, 2, ":", SecondText(a), SecondText(b));
    SecondTextInjective(a, b);
  }

  lemma SecondTextInjective(a: Civil, b: Civil)
    requires a.Valid() && b.Valid() && SecondText(a) == SecondText(b)
    ensures a.second == b.second && a.nano == b.nano
  {
    assert Pow10(2) == 100 && Pow10(9) == 1_000_000_000;
    FieldInjective(a.second, b.second, 2, ".", Digits(a.nano, 9) + ("Z" + ""), Digits(b.nano, 9) + ("Z" + ""));
    FieldInjective(a.nano, b.nano, 9, "Z", "", "");
  }

  // A poll comparing versions notices every change of the update time.
  lemma VersionsTellApart(t: Instant, u: Instant)
    ensures VersionText(t) == VersionText(u) <==> t == u
  {
    if VersionText(t) == VersionText(u) {
      CivilDenotes(t);
      CivilDenotes(u);
      TextInjective(CivilOf(t), CivilOf(u));
    }
  }

  // ---- how far the order of texts is the order of times -------------------

  lemma YearsLead()
    ensures YearText(9_999)[0] == '9' && YearText(10_000)[0] == '1'
  {
    assert Digits(9999, 4)[0] == '9' by {
      assert Digits(999, 3)[0] == '9' by {
        assert Digits(99, 2)[0] == '9';
      }
    }
    assert Decimal(10) == "1" + "0" && Decimal(100)[0] == '1' && Decimal(1000)[0] == '1' && Decimal(10_000)[0] == '1';
  }

  // The first instants of two years y and y + 1.
  lemma YearBegins(y: nat)
    requires y > 0
    ensures YearEnd(y - 1) < YearEnd(y)
    ensures CivilOf(YearEnd(y - 1)).year == y && CivilOf(YearEnd(y)).year == y + 1
  {
    YearsGrow(y, y + 1);
    YearsGrow(y + 1, y + 2);
    MonthsGrow(y, 1, 13);
    MonthsGrow(y + 1, 1, 13);
    YearWithin(YearEnd(y - 1), y - 1);
    YearWithin(YearEnd(y - 1), y);
    YearWithin(YearEnd(y), y);
    YearWithin(YearEnd(y), y + 1);
  }

  // Of the instants before n, version texts sort as the times do.
  ghost predicate SortsAsTimes(n: Instant) {
    forall t: Instant, u: Instant :: t < n && u < n ==> SortAlike(t, u)
  }

  predicate SortAlike(t: Instant, u: Instant) {
    Less(VersionText(t), VersionText(u)) <==> t < u
  }

  lemma YearLeads(t: Instant)
    ensures YearText(CivilOf(t).year) != "" && VersionText(t) != ""
    ensures VersionText(t)[0] == YearText(CivilOf(t).year)[0]
  {
    assert YearText(CivilOf(t).year) != "";
  }

  lemma Misordered(t: Instant, u: Instant)
    requires CivilOf(t).year == 9_999 && CivilOf(u).year == 10_000 && t < u
    ensures !SortAlike(t, u)
  {
    YearsLead();
    YearLeads(t);
    YearLeads(u);
  }

  lemma SortedEarly(t: Instant, u: Instant, y: nat)
    requires y < 10_000 && t < YearEnd(y) && u < YearEnd(y)
    ensures SortAlike(t, u)
  {
    YearWithin(t, y);
    YearWithin(u, y);
    VersionOrder(t, u);
  }

  lemma SortedUntil(n: Instant, y: nat)
    requires y < 10_000 && n <= YearEnd(y)
    ensures SortsAsTimes(n)
  {
    forall t: Instant, u: Instant | t < n && u < n ensures SortAlike(t, u) {
      SortedEarly(t, u, y);
    }
  }

  lemma UnsortedAfter(n: Instant, t: Instant, u: Instant)
    requires t < u < n && !SortAlike(t, u)
    ensures !SortsAsTimes(n)
  {}

  lemma YearsTurn(y: nat) returns (t: Instant, u: Instant)
    requires y < 10_000 <= y + 1
    ensures t < u == YearEnd(y) && !SortAlike(t, u)
  {
    YearBegins(y);
    t, u := YearEnd(y - 1), YearEnd(y);
    Misordered(t, u);
  }

  // They do exactly up to the end of year 9999; the next instant sorts before
  // the first of that year.
  lemma OrderEndsWithYear9999(n: Instant, y: nat)
    requires y < 10_000 <= y + 1
    ensures SortsAsTimes(n) <==> n <= YearEnd(y)
  {
    if n <= YearEnd(y) {
      SortedUntil(n, y);
    } else {
      var t, u := YearsTurn(y);
      UnsortedAfter(n, t, u);
    }
  }
}
