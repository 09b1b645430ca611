/** Timestamps written back to `MCPServer` status: the conversion from Unix seconds to a
    Gregorian date and time, proved equal to a calendar that walks one day at a time. */
module Calendar {
  import opened Common

  datatype Civil = Civil(year: nat, month: nat, day: nat)
  datatype Timestamp = Timestamp(date: Civil, hour: nat, minute: nat, second: nat)

  // ---------- The reference calendar ----------

  predicate IsLeap(y: nat) {
    y % 4 == 0 && (y % 100 != 0 || y % 400 == 0)
  }

  function DaysInMonth(y: nat, m: nat): nat
    requires 1 <= m <= 12
  {
    if m == 2 then (if IsLeap(y) then 29 else 28)
    else if m == 4 || m == 6 || m == 9 || m == 11 then 30
    else 31
  }

  predicate ValidDate(c: Civil) {
    1 <= c.month <= 12 && 1 <= c.day <= DaysInMonth(c.year, c.month)
  }

  function NextDay(c: Civil): (r: Civil)
    requires ValidDate(c)
    ensures ValidDate(r)
  {
    if c.day < DaysInMonth(c.year, c.month) then c.(day := c.day + 1)
    else if c.month < 12 then Civil(c.year, c.month + 1, 1)
    else Civil(c.year + 1, 1, 1)
  }

  /** The date `n` days after 1970-01-01. */
  function Walk(n: nat): (c: Civil)
    ensures ValidDate(c)
  {
    if n == 0 then Civil(1970, 1, 1) else NextDay(Walk(n - 1))
  }

  // ---------- The conversion the controller performs ----------

  /** Division as the source language performs it: towards zero. */
  function TruncDiv(a: int, b: nat): int
    requires b > 0
  {
    if a >= 0 then a / b else -(-a / b)
  }

  /** Year of a 400-year era, for a day of the era that starts on 1 March. */
  function YearOfEra(doe: nat): nat {
    (doe - doe / 1_460 + doe / 36_524 - doe / 146_096) / 365
  }

  /** First day of each March-based year within its era, leap days included. */
  function YearStart(yoe: nat): nat {
    365 * yoe + yoe / 4 - yoe / 100 + yoe / 400
  }

  function MonthFromMarch(doy: nat): nat {
    (5 * doy + 2) / 153
  }

  function MonthStart(mp: nat): nat {
    (153 * mp + 2) / 5
  }

  /** The date of day `doy` of the year that starts on 1 March of year `y`. */
  function FromMarchYear(y: nat, doy: nat): Civil
    requires doy <= 365
  {
    MonthBounds(doy);
    var mp := MonthFromMarch(doy);
    var day: nat := doy - MonthStart(mp) + 1;
    var month: nat := if mp < 10 then mp + 3 else mp - 9;
    Civil(if month <= 2 then y + 1 else y, month, day)
  }

  /** The date of day `doe` of era `era`. The subtractions are on unsigned words: each
      difference here is typed `nat`. */
  function FromEraDay(era: nat, doe: nat): Civil
    requires doe < 146_097
  {
    YearOfEraBounds(doe);
    var yoe := YearOfEra(doe);
    var doy: nat := doe - (365 * yoe + yoe / 4 - yoe / 100);
    YearSpan(yoe, era);
    FromMarchYear(yoe + era * 400, doy)
  }

  function CivilFromDays(days: nat): Civil {
    var z := days + 719_468;
    var era := TruncDiv(if z >= 0 then z else z - 146_096, 146_097);
    var doe: nat := z - era * 146_097;
    FromEraDay(era, doe)
  }

  function FromUnix(secs: nat): Timestamp {
    var sod := secs % 86_400;
    Timestamp(CivilFromDays(secs / 86_400), sod / 3_600, sod % 3_600 / 60, sod % 60)
  }

  // ---------- The division formulas ----------

  /** A day of the era written as centuries, four-year blocks, years and days. The last
      century, block and year of each kind absorb the leap day. */
  ghost predicate EraParts(doe: nat, c: nat, q: nat, a: nat, b: nat) {
    && doe == 36_524 * c + 1_461 * q + 365 * a + b
    && c <= 3 && q <= 24 && a <= 3 && b <= 365
    && (b == 365 ==> a == 3 && (q == 24 ==> c == 3))
  }

  lemma EraPartsGiveYear(doe: nat, c: nat, q: nat, a: nat, b: nat)
    requires EraParts(doe, c, q, a, b)
    ensures YearOfEra(doe) == 100 * c + 4 * q + a
  {
    var e := (24 * c + q + 365 * a + b) / 1_460;
    var leap := if doe == 146_096 then 1 else 0;
    assert doe / 1_460 == 25 * c + q + e by {
      assert doe == 1_460 * (25 * c + q) + (24 * c + q + 365 * a + b);
    }
    assert e <= 1 && (e == 1 ==> b >= 1) && (b == 365 ==> e == 1);
    assert doe / 36_524 == c + leap;
    assert doe / 146_096 == leap;
    assert doe - doe / 1_460 + doe / 36_524 - doe / 146_096 == 365 * (100 * c + 4 * q + a) + b - e;
  }

  lemma YearStartByParts(c: nat, q: nat, a: nat)
    requires c <= 3 && q <= 24 && a <= 3
    ensures YearStart(100 * c + 4 * q + a) == 36_524 * c + 1_461 * q + 365 * a
    ensures var long := a == 3 && (q == 24 ==> c == 3);
            YearStart(100 * c + 4 * q + a + 1)
            == 36_524 * c + 1_461 * q + 365 * a + (if long then 366 else 365)
  {
    var y := 100 * c + 4 * q + a;
    assert y / 4 == 25 * c + q && y / 100 == c && y / 400 == 0;
    assert (y + 1) / 4 == 25 * c + q + (if a == 3 then 1 else 0);
    assert (y + 1) / 100 == c + (if a == 3 && q == 24 then 1 else 0);
  }

  /** The quotient formula picks exactly the year whose span holds the day. */
  lemma YearOfEraBounds(doe: nat)
    requires doe < 146_097
    ensures YearOfEra(doe) < 400
    ensures YearStart(YearOfEra(doe)) <= doe < YearStart(YearOfEra(doe) + 1)
  {
    var c := if doe / 36_524 < 4 then doe / 36_524 else 3;
    var r := doe - 36_524 * c;
    var q, s := r / 1_461, r % 1_461;
    var a := if s / 365 < 4 then s / 365 else 3;
    EraPartsGiveYear(doe, c, q, a, s - 365 * a);
    YearStartByParts(c, q, a);
  }

  lemma YearStartIsMonotone(m: nat, n: nat)
    requires m <= n <= 400
    ensures YearStart(m) <= YearStart(n)
    ensures m < n ==> YearStart(m + 1) <= YearStart(n)
  {
  }

  /** Exactly one year's span holds a given day of the era. */
  lemma YearOfEraIs(doe: nat, yoe: nat)
    requires doe < 146_097 && yoe < 400
    requires YearStart(yoe) <= doe < YearStart(yoe + 1)
    ensures YearOfEra(doe) == yoe
  {
    YearOfEraBounds(doe);
    var k := YearOfEra(doe);
    if k < yoe { YearStartIsMonotone(k, yoe); }
    if yoe < k { YearStartIsMonotone(yoe, k); }
  }

  /** The month formula picks exactly the month whose span holds the day of the year. */
  lemma MonthBounds(doy: nat)
    requires doy <= 365
    ensures MonthFromMarch(doy) < 12
    ensures MonthStart(MonthFromMarch(doy)) <= doy < MonthStart(MonthFromMarch(doy) + 1)
  {
  }

  // ---------- Leap years and year spans ----------

  lemma {:induction false} LeapCycle(y: nat, era: nat)
    ensures IsLeap(y + era * 400) == IsLeap(y)
    decreases era
  {
    if era > 0 {
      LeapCycle(y, era - 1);
      LeapAgain(y + (era - 1) * 400);
    }
  }

  lemma LeapAgain(y: nat)
    ensures IsLeap(y + 400) == IsLeap(y)
  {
    assert (y + 400) % 4 == y % 4;
    assert (y + 400) % 100 == y % 100;
    assert (y + 400) % 400 == y % 400;
  }

  lemma LeapByParts(c: nat, q: nat, a: nat)
    requires c <= 3 && q <= 24 && a <= 3
    ensures IsLeap(100 * c + 4 * q + a + 1) <==> a == 3 && (q == 24 ==> c == 3)
  {
    var y := 100 * c + 4 * q + a + 1;
    assert y % 4 == (a + 1) % 4;
    assert y % 100 == 0 <==> a == 3 && q == 24;
    assert y % 400 == 0 <==> a == 3 && q == 24 && c == 3;
  }

  /** A March-based year has 366 days exactly when the February inside it is a leap one. */
  lemma YearSpan(yoe: nat, era: nat)
    requires yoe < 400
    ensures YearStart(yoe + 1) - YearStart(yoe) == if IsLeap(yoe + era * 400 + 1) then 366 else 365
    ensures YearStart(yoe + 1) <= 146_097
  {
    var c, q, a := yoe / 100, yoe % 100 / 4, yoe % 4;
    assert yoe == 100 * c + 4 * q + a;
    YearStartByParts(c, q, a);
    LeapByParts(c, q, a);
    LeapCycle(yoe + 1, era);
    YearStartIsMonotone(yoe + 1, 400);
  }

  // ---------- The conversion walks the calendar ----------

  /** The next day is in the same month, or is the first of the next. */
  lemma MonthAdvance(doy: nat)
    requires doy < 365
    ensures var mp := MonthFromMarch(doy);
            MonthFromMarch(doy + 1) == if doy + 1 < MonthStart(mp + 1) then mp else mp + 1
  {
    MonthBounds(doy);
    MonthBounds(doy + 1);
  }

  lemma MonthLength(mp: nat)
    requires mp < 11
    ensures MonthStart(mp + 1) - MonthStart(mp)
            == if mp == 1 || mp == 3 || mp == 6 || mp == 8 then 30 else 31
  {
    assert mp == 0 || mp == 1 || mp == 2 || mp == 3 || mp == 4 || mp == 5 || mp == 6 || mp == 7 ||
           mp == 8 || mp == 9 || mp == 10;
  }

  lemma MonthStep(y: nat, doy: nat)
    requires doy + 1 < if IsLeap(y + 1) then 366 else 365
    ensures ValidDate(FromMarchYear(y, doy))
    ensures FromMarchYear(y, doy + 1) == NextDay(FromMarchYear(y, doy))
  {
    MonthBounds(doy);
    MonthAdvance(doy);
    if MonthFromMarch(doy) < 11 {
      MonthLength(MonthFromMarch(doy));
    }
  }

  lemma YearStep(y: nat)
    ensures var last := if IsLeap(y + 1) then 365 else 364;
            ValidDate(FromMarchYear(y, last)) && FromMarchYear(y + 1, 0) == NextDay(FromMarchYear(y, last))
  {
  }

  lemma EraDay(era: nat, yoe: nat, doy: nat)
    requires yoe < 400 && doy < YearStart(yoe + 1) - YearStart(yoe)
    ensures doy <= 365 && YearStart(yoe) + doy < 146_097
    ensures FromEraDay(era, YearStart(yoe) + doy) == FromMarchYear(yoe + era * 400, doy)
  {
    YearSpan(yoe, era);
    YearOfEraIs(YearStart(yoe) + doy, yoe);
    assert yoe / 400 == 0;
  }

  lemma EraOf(era: nat, doe: nat)
    requires doe < 146_097
    ensures (146_097 * era + doe) / 146_097 == era
  {
  }

  /** The conversion of day `doy` of year `yoe` of an era. */
  lemma InEra(days: nat, yoe: nat, era: nat, doy: nat)
    requires yoe < 400 && doy < YearStart(yoe + 1) - YearStart(yoe)
    requires days + 719_468 == 146_097 * era + (YearStart(yoe) + doy)
    ensures doy <= 365 && CivilFromDays(days) == FromMarchYear(yoe + era * 400, doy)
  {
    EraDay(era, yoe, doy);
    EraOf(era, YearStart(yoe) + doy);
    assert CivilFromDays(days) == FromEraDay(era, YearStart(yoe) + doy);
  }

  lemma SameYearStep(days: nat, yoe: nat, era: nat, doy: nat)
    requires yoe < 400 && doy + 1 < YearStart(yoe + 1) - YearStart(yoe)
    requires days + 719_468 == 146_097 * era + (YearStart(yoe) + doy)
    ensures doy + 1 < if IsLeap(yoe + era * 400 + 1) then 366 else 365
    ensures CivilFromDays(days) == FromMarchYear(yoe + era * 400, doy)
    ensures CivilFromDays(days + 1) == FromMarchYear(yoe + era * 400, doy + 1)
  {
    YearSpan(yoe, era);
    InEra(days, yoe, era, doy);
    InEra(days + 1, yoe, era, doy + 1);
  }

  lemma FirstOfYear(days: nat, yoe: nat, era: nat)
    requires yoe < 400 && days + 719_468 == 146_097 * era + YearStart(yoe)
    ensures CivilFromDays(days) == FromMarchYear(yoe + era * 400, 0)
  {
    YearSpan(yoe, era);
    InEra(days, yoe, era, 0);
  }

  lemma LastOfYear(days: nat, yoe: nat, era: nat, doy: nat)
    requires yoe < 400 && doy + 1 == YearStart(yoe + 1) - YearStart(yoe)
    requires days + 719_468 == 146_097 * era + (YearStart(yoe) + doy)
    ensures doy == if IsLeap(yoe + era * 400 + 1) then 365 else 364
    ensures CivilFromDays(days) == FromMarchYear(yoe + era * 400, doy)
  {
    YearSpan(yoe, era);
    InEra(days, yoe, era, doy);
  }

  lemma AfterNewYear(days: nat, yoe: nat, era: nat)
    requires yoe < 400 && days + 719_468 == 146_097 * era + YearStart(yoe + 1)
    ensures CivilFromDays(days) == FromMarchYear(yoe + era * 400 + 1, 0)
  {
    if yoe == 399 {
      assert YearStart(400) == 146_097 && YearStart(0) == 0;
      FirstOfYear(days, 0, era + 1);
    } else {
      FirstOfYear(days, yoe + 1, era);
    }
  }

  /** Where a day and its successor fall among the March-based years. */
  lemma LocateInEra(days: nat, era: nat, doe: nat) returns (y: nat, doy: nat)
    requires doe < 146_097 && days + 719_468 == 146_097 * era + doe
    ensures doy < if IsLeap(y + 1) then 366 else 365
    ensures CivilFromDays(days) == FromMarchYear(y, doy)
    ensures CivilFromDays(days + 1) ==
            if doy + 1 < (if IsLeap(y + 1) then 366 else 365) then FromMarchYear(y, doy + 1)
            else FromMarchYear(y + 1, 0)
  {
    YearOfEraBounds(doe);
    var yoe := YearOfEra(doe);
    y, doy := yoe + era * 400, doe - YearStart(yoe);
    if doy + 1 < YearStart(yoe + 1) - YearStart(yoe) {
      SameYearStep(days, yoe, era, doy);
    } else {
      LastOfYear(days, yoe, era, doy);
      AfterNewYear(days + 1, yoe, era);
    }
  }

  /** One more day since the epoch is one step of the calendar. */
  lemma ConversionStep(days: nat)
    ensures ValidDate(CivilFromDays(days))
    ensures CivilFromDays(days + 1) == NextDay(CivilFromDays(days))
  {
    var y, doy := LocateInEra(days, (days + 719_468) / 146_097, (days + 719_468) % 146_097);
    if doy + 1 < if IsLeap(y + 1) then 366 else 365 {
      MonthStep(y, doy);
    } else {
      YearStep(y);
    }
  }

  lemma Epoch(days: nat)
    requires days == 0
    ensures CivilFromDays(days) == Civil(1970, 1, 1)
  {
    assert YearStart(369) == 134_774 && YearStart(370) == 135_139;
    InEra(days, 369, 4, 306);
  }

  lemma AgreementStep(n: nat)
    ensures CivilFromDays(n) == Walk(n) ==> CivilFromDays(n + 1) == Walk(n + 1)
  {
    ConversionStep(n);
  }

  /** Theorem: the conversion is the calendar walked one day at a time from 1970-01-01. */
  lemma ConversionWalksCalendar(days: nat)
    ensures CivilFromDays(days) == Walk(days)
  {
    var n: nat := 0;
    Epoch(n);
    while n < days
      invariant n <= days && CivilFromDays(n) == Walk(n)
    {
      AgreementStep(n);
      n := n + 1;
    }
  }

  // ---------- Inverse ----------

  function DaysBeforeMonth(y: nat, m: nat): nat
    requires 1 <= m <= 12
  {
    if m == 1 then 0 else DaysBeforeMonth(y, m - 1) + DaysInMonth(y, m - 1)
  }

  function DaysBeforeYear(y: nat): nat
    requires y >= 1970
  {
    if y == 1970 then 0 else DaysBeforeYear(y - 1) + DaysBeforeMonth(y - 1, 12) + 31
  }

  /** Days from 1970-01-01 to a date, counted by whole years, whole months and days. */
  function DayNumber(c: Civil): nat
    requires ValidDate(c) && c.year >= 1970
  {
    DaysBeforeYear(c.year) + DaysBeforeMonth(c.year, c.month) + (c.day - 1)
  }

  function PreviousDay(c: Civil): (p: Civil)
    requires ValidDate(c) && c.year >= 1970 && c != Civil(1970, 1, 1)
    ensures ValidDate(p) && p.year >= 1970 && NextDay(p) == c
    ensures DayNumber(c) == DayNumber(p) + 1
  {
    if c.day > 1 then c.(day := c.day - 1)
    else if c.month > 1 then Civil(c.year, c.month - 1, DaysInMonth(c.year, c.month - 1))
    else Civil(c.year - 1, 12, 31)
  }

  lemma {:induction false} WalkInvertsDayNumber(c: Civil)
    requires ValidDate(c) && c.year >= 1970
    ensures Walk(DayNumber(c)) == c
    decreases DayNumber(c)
  {
    if c != Civil(1970, 1, 1) {
      WalkInvertsDayNumber(PreviousDay(c));
    } else {
      assert DayNumber(c) == 0;
    }
  }

  lemma {:induction false} DayNumberInvertsWalk(n: nat)
    ensures Walk(n).year >= 1970 && DayNumber(Walk(n)) == n
  {
    if n > 0 {
      DayNumberInvertsWalk(n - 1);
      assert PreviousDay(NextDay(Walk(n - 1))) == Walk(n - 1);
    } else {
      assert DaysBeforeYear(1970) == 0 && DaysBeforeMonth(1970, 1) == 0;
    }
  }

  predicate ValidTimestamp(t: Timestamp) {
    ValidDate(t.date) && t.date.year >= 1970 && t.hour < 24 && t.minute < 60 && t.second < 60
  }

  function ToUnix(t: Timestamp): nat
    requires ValidTimestamp(t)
  {
    DayNumber(t.date) * 86_400 + t.hour * 3_600 + t.minute * 60 + t.second
  }

  /** Theorem: re-encoding the computed date and time gives back the number of seconds. */
  lemma UnixRoundTrip(secs: nat)
    ensures ValidTimestamp(FromUnix(secs)) && ToUnix(FromUnix(secs)) == secs
  {
    DayRoundTrip(secs / 86_400);
    SplitSeconds(secs % 86_400);
    assert secs == secs / 86_400 * 86_400 + secs % 86_400;
  }

  lemma DayRoundTrip(days: nat)
    ensures ValidDate(CivilFromDays(days)) && CivilFromDays(days).year >= 1970
    ensures DayNumber(CivilFromDays(days)) == days
  {
    ConversionWalksCalendar(days);
    DayNumberInvertsWalk(days);
  }

  lemma SplitSeconds(sod: nat)
    requires sod < 86_400
    ensures sod / 3_600 < 24 && sod % 3_600 / 60 < 60 && sod % 60 < 60
    ensures sod == sod / 3_600 * 3_600 + sod % 3_600 / 60 * 60 + sod % 60
  {
  }

  /** Theorem: every timestamp from 1970 on is the conversion of its own number of seconds. */
  lemma TimestampRoundTrip(t: Timestamp)
    requires ValidTimestamp(t)
    ensures FromUnix(ToUnix(t)) == t
  {
    var sod := t.hour * 3_600 + t.minute * 60 + t.second;
    var days := DayNumber(t.date);
    assert ToUnix(t) == 86_400 * days + sod;
    assert ToUnix(t) / 86_400 == days && ToUnix(t) % 86_400 == sod;
    assert sod / 3_600 == t.hour && sod % 3_600 / 60 == t.minute && sod % 60 == t.second;
    ConversionWalksCalendar(days);
    WalkInvertsDayNumber(t.date);
  }

  /** Not negative, and within a signed 64-bit word. */
  predicate Fits(x: int) {
    0 <= x < 0x8000_0000_0000_0000
  }

  /** On a 64-bit number of seconds every intermediate value of the conversion fits: no difference underflows, and
      nothing leaves the range of a signed 64-bit word. */
  lemma WordsSuffice(secs: nat, z: nat, era: nat, doe: nat, yoe: nat, doy: int, mp: int)
    requires secs < 0x1_0000_0000_0000_0000
    requires z == secs / 86_400 + 719_468 && era == z / 146_097 && doe == z - era * 146_097
    requires yoe == YearOfEra(doe) && doy == doe - (365 * yoe + yoe / 4 - yoe / 100)
    requires mp == (5 * doy + 2) / 153
    ensures Fits(secs / 86_400) && Fits(z) && Fits(era * 146_097) && Fits(doe)
    ensures Fits(doe - doe / 1_460) && Fits(doe - doe / 1_460 + doe / 36_524)
    ensures Fits(doe - doe / 1_460 + doe / 36_524 - doe / 146_096)
    ensures Fits(365 * yoe + yoe / 4) && Fits(365 * yoe + yoe / 4 - yoe / 100) && Fits(doy)
    ensures Fits(era * 400) && Fits(yoe + era * 400 + 1)
    ensures Fits(5 * doy + 2) && Fits(153 * mp + 2) && Fits(doy - (153 * mp + 2) / 5) && 0 <= mp < 12
  {
    YearOfEraBounds(doe);
    YearSpan(yoe, era);
    assert 0 <= doy <= 365 by { assert yoe / 400 == 0; }
    MonthBounds(doy);
    assert era * 400 <= era * 146_097 <= z;
  }

  // ---------- Text ----------

  /** The day number of 9999-12-31. */
  const LAST_DAY: nat := 2_932_896

  predicate DateLess(a: Civil, b: Civil) {
    a.year < b.year || (a.year == b.year && (a.month < b.month || (a.month == b.month && a.day < b.day)))
  }

  lemma {:induction false} WalkIncreases(m: nat, n: nat)
    requires m < n
    ensures DateLess(Walk(m), Walk(n))
  {
    if m < n - 1 { WalkIncreases(m, n - 1); }
  }

  /** Decimal digits of `n`, zero-padded on the left to at least `width`. */
  function PadDec(n: nat, width: nat): string {
    if n == 0 && width == 0 then ""
    else PadDec(n / 10, if width == 0 then 0 else width - 1) + [('0' as int + n % 10) as char]
  }

  function Pow10(k: nat): nat {
    if k == 0 then 1 else 10 * Pow10(k - 1)
  }

  function TimeText(t: Timestamp): string {
    PadDec(t.hour, 2) + (":" + (PadDec(t.minute, 2) + (":" + (PadDec(t.second, 2) + "Z"))))
  }

  function Rfc3339Text(t: Timestamp): string {
    PadDec(t.date.year, 4) + ("-" + (PadDec(t.date.month, 2) + ("-" + (PadDec(t.date.day, 2) + ("T" + TimeText(t))))))
  }

  function Rfc3339FromUnix(secs: nat): string {
    Rfc3339Text(FromUnix(secs))
  }

  predicate LexLess(a: string, b: string) {
    b != [] && (a == [] || a[0] < b[0] || (a[0] == b[0] && LexLess(a[1..], b[1..])))
  }

  lemma {:induction false} LexLessIsAsymmetric(a: string, b: string)
    requires LexLess(a, b)
    ensures !LexLess(b, a) && a != b
  {
    if a != [] && a[0] == b[0] { LexLessIsAsymmetric(a[1..], b[1..]); }
  }

  lemma {:induction false} LexExtend(a: string, b: string, c: string, d: string)
    requires |a| == |b|
    requires LexLess(a, b) || (a == b && LexLess(c, d))
    ensures LexLess(a + c, b + d)
  {
    if a == [] {
      assert a + c == c && b + d == d;
    } else {
      assert (a + c)[1..] == a[1..] + c && (b + d)[1..] == b[1..] + d;
      if a[0] == b[0] {
        assert a == [a[0]] + a[1..] && b == [b[0]] + b[1..];
        LexExtend(a[1..], b[1..], c, d);
      }
    }
  }

  lemma {:induction false} PadDecOrder(m: nat, n: nat, width: nat)
    requires m <= n < Pow10(width)
    ensures |PadDec(m, width)| == |PadDec(n, width)| == width
    ensures m < n ==> LexLess(PadDec(m, width), PadDec(n, width))
  {
    if width > 0 {
      PadDecOrder(m / 10, n / 10, width - 1);
      if m < n {
        var c, d := [('0' as int + m % 10) as char], [('0' as int + n % 10) as char];
        LexExtend(PadDec(m / 10, width - 1), PadDec(n / 10, width - 1), c, d);
      }
    }
  }

  /** A field of fixed width decides the order, or leaves it to what follows. */
  lemma FieldOrder(m: nat, n: nat, width: nat, mark: char, c: string, d: string)
    requires m < n < Pow10(width) || (m == n < Pow10(width) && LexLess(c, d))
    ensures LexLess(PadDec(m, width) + ([mark] + c), PadDec(n, width) + ([mark] + d))
  {
    PadDecOrder(m, n, width);
    if m == n { LexExtend([mark], [mark], c, d); }
    LexExtend(PadDec(m, width), PadDec(n, width), [mark] + c, [mark] + d);
  }

  /** Text order of two times of day. */
  lemma TimeTextOrder(s: Timestamp, t: Timestamp)
    requires s.hour < 24 && s.minute < 60 && s.second < 60 && t.hour < 24 && t.minute < 60 && t.second < 60
    requires s.hour * 3_600 + s.minute * 60 + s.second < t.hour * 3_600 + t.minute * 60 + t.second
    ensures LexLess(TimeText(s), TimeText(t))
  {
    assert Pow10(2) == 100 by { assert Pow10(1) == 10; }
    if s.hour == t.hour {
      if s.minute == t.minute {
        FieldOrder(s.second, t.second, 2, 'Z', "", "");
        assert "Z" + "" == "Z";
      }
      FieldOrder(s.minute, t.minute, 2, ':', PadDec(s.second, 2) + "Z", PadDec(t.second, 2) + "Z");
    }
    FieldOrder(s.hour, t.hour, 2, ':', PadDec(s.minute, 2) + (":" + (PadDec(s.second, 2) + "Z")),
               PadDec(t.minute, 2) + (":" + (PadDec(t.second, 2) + "Z")));
  }

  lemma DateTextOrder(s: Timestamp, t: Timestamp)
    requires ValidTimestamp(s) && ValidTimestamp(t) && t.date.year <= 9999
    requires DateLess(s.date, t.date) || (s.date == t.date && LexLess(TimeText(s), TimeText(t)))
    ensures LexLess(Rfc3339Text(s), Rfc3339Text(t))
  {
    assert Pow10(2) == 100 && Pow10(4) == 10_000 by { assert Pow10(1) == 10; assert Pow10(3) == 1_000; }
    if s.date.year == t.date.year {
      if s.date.month == t.date.month {
        FieldOrder(s.date.day, t.date.day, 2, 'T', TimeText(s), TimeText(t));
      }
      FieldOrder(s.date.month, t.date.month, 2, '-', PadDec(s.date.day, 2) + ("T" + TimeText(s)),
                 PadDec(t.date.day, 2) + ("T" + TimeText(t)));
    }
    FieldOrder(s.date.year, t.date.year, 4, '-',
               PadDec(s.date.month, 2) + ("-" + (PadDec(s.date.day, 2) + ("T" + TimeText(s)))),
               PadDec(t.date.month, 2) + ("-" + (PadDec(t.date.day, 2) + ("T" + TimeText(t)))));
  }

  lemma EarlierTextIsLess(s: nat, t: nat)
    requires s < t && FromUnix(t).date.year <= 9999
    ensures LexLess(Rfc3339FromUnix(s), Rfc3339FromUnix(t))
  {
    UnixRoundTrip(s);
    UnixRoundTrip(t);
    var a, b := s / 86_400, t / 86_400;
    ConversionWalksCalendar(a);
    ConversionWalksCalendar(b);
    if a < b {
      WalkIncreases(a, b);
    } else {
      assert a == b;
      TimeTextOrder(FromUnix(s), FromUnix(t));
    }
    DateTextOrder(FromUnix(s), FromUnix(t));
  }

  /** The last day of year 9999, and the first of year 10000. */
  lemma LastDays(last: nat)
    requires last == LAST_DAY
    ensures CivilFromDays(last) == Civil(9_999, 12, 31) && CivilFromDays(last + 1) == Civil(10_000, 1, 1)
  {
    assert YearStart(399) == 145_731 && YearStart(400) == 146_097;
    InEra(last, 399, 24, 305);
    InEra(last + 1, 399, 24, 306);
  }

  lemma YearsAreOrdered(m: nat, n: nat)
    requires m <= n
    ensures CivilFromDays(m).year <= CivilFromDays(n).year
  {
    ConversionWalksCalendar(m);
    ConversionWalksCalendar(n);
    if m < n { WalkIncreases(m, n); }
  }

  /** Years have four digits up to this day, and no longer. */
  lemma FourDigitYears(days: nat, last: nat)
    requires last == LAST_DAY
    ensures CivilFromDays(days).year <= 9999 <==> days <= last
  {
    LastDays(last);
    if days <= last {
      YearsAreOrdered(days, last);
    } else {
      YearsAreOrdered(last + 1, days);
    }
  }

  lemma LaterTextIsNotLess(s: nat, t: nat)
    requires s <= t && FromUnix(t).date.year <= 9999
    ensures !LexLess(Rfc3339FromUnix(t), Rfc3339FromUnix(s))
  {
    var a, b := Rfc3339FromUnix(s), Rfc3339FromUnix(t);
    if s < t {
      EarlierTextIsLess(s, t);
      LexLessIsAsymmetric(a, b);
    } else {
      LexLessIsIrreflexive(a);
    }
  }

  lemma {:induction false} LexLessIsIrreflexive(a: string)
    ensures !LexLess(a, a)
  {
    if LexLess(a, a) { LexLessIsAsymmetric(a, a); }
  }

  /** Theorem: as long as years have four digits, the printed timestamps sort in time order. */
  lemma TextSortsInTimeOrder(s: nat, t: nat)
    requires s / 86_400 <= LAST_DAY && t / 86_400 <= LAST_DAY
    ensures s < t <==> LexLess(Rfc3339FromUnix(s), Rfc3339FromUnix(t))
  {
    var last := LAST_DAY;
    if s < t {
      FourDigitYears(t / 86_400, last);
      EarlierTextIsLess(s, t);
    } else {
      FourDigitYears(s / 86_400, last);
      LaterTextIsNotLess(t, s);
    }
  }

  lemma {:induction false} PadDecDigits(n: nat, width: nat)
    requires n < Pow10(width)
    ensures |PadDec(n, width)| == width && forall k :: 0 <= k < width ==> '0' <= PadDec(n, width)[k] <= '9'
  {
    if width > 0 { PadDecDigits(n / 10, width - 1); }
  }

  predicate IsMark(k: nat) {
    k == 4 || k == 7 || k == 10 || k == 13 || k == 16 || k == 19
  }

  lemma TimeTextShape(t: Timestamp)
    requires t.hour < 24 && t.minute < 60 && t.second < 60
    ensures var r := TimeText(t);
            && |r| == 9 && r[2] == r[5] == ':' && r[8] == 'Z'
            && forall k :: 0 <= k < 9 && !IsMark(k + 11) ==> '0' <= r[k] <= '9'
  {
    assert Pow10(2) == 100 by { assert Pow10(1) == 10; }
    PadDecDigits(t.hour, 2);
    PadDecDigits(t.minute, 2);
    PadDecDigits(t.second, 2);
  }

  /** Up to year 9999 the text is the 20-character date-time of RFC 3339, section 5.6, in UTC. */
  lemma TextShape(secs: nat)
    requires secs / 86_400 <= LAST_DAY
    ensures var r := Rfc3339FromUnix(secs);
            && |r| == 20
            && r[4] == r[7] == '-' && r[10] == 'T' && r[13] == r[16] == ':' && r[19] == 'Z'
            && forall k :: 0 <= k < 20 && !IsMark(k) ==> '0' <= r[k] <= '9'
  {
    FourDigitYears(secs / 86_400, LAST_DAY);
    UnixRoundTrip(secs);
    DateTimeShape(FromUnix(secs));
  }

  lemma DateTimeShape(t: Timestamp)
    requires ValidTimestamp(t) && t.date.year <= 9999
    ensures var r := Rfc3339Text(t);
            && |r| == 20
            && r[4] == r[7] == '-' && r[10] == 'T' && r[13] == r[16] == ':' && r[19] == 'Z'
            && forall k :: 0 <= k < 20 && !IsMark(k) ==> '0' <= r[k] <= '9'
  {
    assert Pow10(2) == 100 && Pow10(4) == 10_000 by { assert Pow10(1) == 10; assert Pow10(3) == 1_000; }
    PadDecDigits(t.date.year, 4);
    PadDecDigits(t.date.month, 2);
    PadDecDigits(t.date.day, 2);
    TimeTextShape(t);
    FieldsInPlace(PadDec(t.date.year, 4), PadDec(t.date.month, 2), PadDec(t.date.day, 2), TimeText(t));
  }

  predicate AllDigits(s: string) {
    forall k :: 0 <= k < |s| ==> '0' <= s[k] <= '9'
  }

  lemma FieldsInPlace(year: string, month: string, day: string, time: string)
    requires |year| == 4 && |month| == |day| == 2 && |time| == 9
    requires AllDigits(year) && AllDigits(month) && AllDigits(day)
    requires forall k :: 0 <= k < 9 && !IsMark(k + 11) ==> '0' <= time[k] <= '9'
    ensures var r := year + ("-" + (month + ("-" + (day + ("T" + time)))));
            && |r| == 20 && r[4] == r[7] == '-' && r[10] == 'T'
            && r[13] == time[2] && r[16] == time[5] && r[19] == time[8]
            && forall k :: 0 <= k < 20 && !IsMark(k) ==> '0' <= r[k] <= '9'
  {
    var r := year + ("-" + (month + ("-" + (day + ("T" + time)))));
    forall k | 0 <= k < 20 && !IsMark(k)
      ensures '0' <= r[k] <= '9'
    {
      if k < 4 { assert r[k] == year[k]; }
      else if k < 7 { assert r[k] == month[k - 5]; }
      else if k < 10 { assert r[k] == day[k - 8]; }
      else { assert r[k] == time[k - 11] && IsMark(k - 11 + 11) == IsMark(k); }
    }
  }

  lemma {:induction false} PadDecReadsBack(n: nat, width: nat)
    requires n < Pow10(width)
    ensures AllDigits(PadDec(n, width)) && |PadDec(n, width)| == width && Number(PadDec(n, width)) == n
  {
    PadDecDigits(n, width);
    if width > 0 {
      PadDecReadsBack(n / 10, width - 1);
      assert PadDec(n, width)[..width - 1] == PadDec(n / 10, width - 1);
    }
  }

  /** The number printed at these places. */
  predicate Prints(text: string, lo: nat, hi: nat, n: nat) {
    lo <= hi <= |text| && AllDigits(text[lo..hi]) && Number(text[lo..hi]) == n
  }

  lemma TimeReadsBack(t: Timestamp)
    requires t.hour < 24 && t.minute < 60 && t.second < 60
    ensures var r := TimeText(t);
            |r| == 9 && Prints(r, 0, 2, t.hour) && Prints(r, 3, 5, t.minute) && Prints(r, 6, 8, t.second)
  {
    assert Pow10(2) == 100 by { assert Pow10(1) == 10; }
    PadDecReadsBack(t.hour, 2);
    PadDecReadsBack(t.minute, 2);
    PadDecReadsBack(t.second, 2);
    TimeFields(PadDec(t.hour, 2), PadDec(t.minute, 2), PadDec(t.second, 2));
  }

  lemma TimeFields(hour: string, minute: string, second: string)
    requires |hour| == |minute| == |second| == 2
    ensures var r := hour + (":" + (minute + (":" + (second + "Z"))));
            |r| == 9 && r[0..2] == hour && r[3..5] == minute && r[6..8] == second
  {
  }

  lemma DateFields(year: string, month: string, day: string, time: string)
    requires |year| == 4 && |month| == |day| == 2 && |time| == 9
    ensures var r := year + ("-" + (month + ("-" + (day + ("T" + time)))));
            |r| == 20 && r[0..4] == year && r[5..7] == month && r[8..10] == day && r[11..] == time
  {
  }

  /** Theorem: up to year 9999 the digits of the text read back as year, month, day, hour, minute and second. */
  lemma TextReadsBack(secs: nat)
    requires secs / 86_400 <= LAST_DAY
    ensures var r, t := Rfc3339FromUnix(secs), FromUnix(secs);
            && Prints(r, 0, 4, t.date.year) && Prints(r, 5, 7, t.date.month) && Prints(r, 8, 10, t.date.day)
            && Prints(r, 11, 13, t.hour) && Prints(r, 14, 16, t.minute) && Prints(r, 17, 19, t.second)
  {
    FourDigitYears(secs / 86_400, LAST_DAY);
    UnixRoundTrip(secs);
    TimestampReadsBack(FromUnix(secs));
  }

  lemma DateReadsBack(t: Timestamp)
    requires ValidTimestamp(t) && t.date.year <= 9999
    ensures |PadDec(t.date.year, 4)| == 4 && |PadDec(t.date.month, 2)| == |PadDec(t.date.day, 2)| == 2
    ensures AllDigits(PadDec(t.date.year, 4)) && Number(PadDec(t.date.year, 4)) == t.date.year
    ensures AllDigits(PadDec(t.date.month, 2)) && Number(PadDec(t.date.month, 2)) == t.date.month
    ensures AllDigits(PadDec(t.date.day, 2)) && Number(PadDec(t.date.day, 2)) == t.date.day
  {
    assert Pow10(2) == 100 && Pow10(4) == 10_000 by { assert Pow10(1) == 10; assert Pow10(3) == 1_000; }
    PadDecReadsBack(t.date.year, 4);
    PadDecReadsBack(t.date.month, 2);
    PadDecReadsBack(t.date.day, 2);
  }

  lemma TimestampReadsBack(t: Timestamp)
    requires ValidTimestamp(t) && t.date.year <= 9999
    ensures var r := Rfc3339Text(t);
            && Prints(r, 0, 4, t.date.year) && Prints(r, 5, 7, t.date.month) && Prints(r, 8, 10, t.date.day)
            && Prints(r, 11, 13, t.hour) && Prints(r, 14, 16, t.minute) && Prints(r, 17, 19, t.second)
  {
    DateReadsBack(t);
    TimeReadsBack(t);
    FieldsRead(PadDec(t.date.year, 4), PadDec(t.date.month, 2), PadDec(t.date.day, 2), TimeText(t), t);
  }

  lemma FieldsRead(year: string, month: string, day: string, time: string, t: Timestamp)
    requires |year| == 4 && |month| == |day| == 2 && |time| == 9
    requires AllDigits(year) && Number(year) == t.date.year
    requires AllDigits(month) && Number(month) == t.date.month
    requires AllDigits(day) && Number(day) == t.date.day
    requires Prints(time, 0, 2, t.hour) && Prints(time, 3, 5, t.minute) && Prints(time, 6, 8, t.second)
    ensures var r := year + ("-" + (month + ("-" + (day + ("T" + time)))));
            && Prints(r, 0, 4, t.date.year) && Prints(r, 5, 7, t.date.month) && Prints(r, 8, 10, t.date.day)
            && Prints(r, 11, 13, t.hour) && Prints(r, 14, 16, t.minute) && Prints(r, 17, 19, t.second)
  {
    var r := year + ("-" + (month + ("-" + (day + ("T" + time)))));
    DateFields(year, month, day, time);
    TailFields(r, time, 0, 2);
    TailFields(r, time, 3, 5);
    TailFields(r, time, 6, 8);
  }

  lemma TailFields(r: string, time: string, lo: nat, hi: nat)
    requires |r| == 20 && r[11..] == time && lo <= hi <= |time|
    ensures r[11 + lo..11 + hi] == time[lo..hi]
  {
  }

  /** Past year 9999 the texts stop sorting, because the year takes a fifth digit: every second
      of the first day of 10000 prints before every second of the last day of 9999. */
  lemma TextOrderFailsPast9999(s: nat, t: nat)
    requires s / 86_400 == LAST_DAY && t / 86_400 == LAST_DAY + 1
    ensures s < t && FromUnix(s).date == Civil(9_999, 12, 31)
    ensures LexLess(Rfc3339FromUnix(t), Rfc3339FromUnix(s))
  {
    LastDays(s / 86_400);
    FirstDigits(9_999);
    FirstDigits(10_000);
    DifferentFirst(FromUnix(t), FromUnix(s));
  }

  /** All timestamps of the days up to this one sort in time order. */
  ghost predicate SortsUpTo(day: nat) {
    forall s: nat, t: nat :: s / 86_400 <= day && t / 86_400 <= day ==>
      (s < t <==> LexLess(Rfc3339FromUnix(s), Rfc3339FromUnix(t)))
  }

  /** Theorem: the end of year 9999 is exactly how far the texts sort in time order. */
  lemma SortsExactlyUpTo(day: nat)
    ensures SortsUpTo(day) <==> day <= LAST_DAY
  {
    if day <= LAST_DAY {
      forall s: nat, t: nat | s / 86_400 <= day && t / 86_400 <= day
        ensures s < t <==> LexLess(Rfc3339FromUnix(s), Rfc3339FromUnix(t))
      {
        TextSortsInTimeOrder(s, t);
      }
    } else {
      FirstFailure(LAST_DAY * 86_400, (LAST_DAY + 1) * 86_400, day);
    }
  }

  lemma FirstFailure(s: nat, t: nat, day: nat)
    requires s == LAST_DAY * 86_400 && t == (LAST_DAY + 1) * 86_400 && day > LAST_DAY
    ensures !SortsUpTo(day)
  {
    TextOrderFailsPast9999(s, t);
    LexLessIsAsymmetric(Rfc3339FromUnix(t), Rfc3339FromUnix(s));
  }

  lemma DifferentFirst(u: Timestamp, t: Timestamp)
    requires PadDec(u.date.year, 4) == "10000" && PadDec(t.date.year, 4) == "9999"
    ensures LexLess(Rfc3339Text(u), Rfc3339Text(t))
  {
    assert Rfc3339Text(u)[0] == '1' && Rfc3339Text(t)[0] == '9';
  }

  lemma FirstDigits(n: nat)
    requires n == 9_999 || n == 10_000
    ensures PadDec(n, 4) == if n == 9_999 then "9999" else "10000"
  {
    assert PadDec(99, 2) == "99" && PadDec(9, 1) == "9" by { assert PadDec(0, 0) == ""; }
    assert PadDec(10, 1) == "10" by { assert PadDec(1, 0) == "1"; }
    assert PadDec(999, 3) == "999";
    assert PadDec(100, 2) == "100";
    assert PadDec(1_000, 3) == "1000";
  }
}
