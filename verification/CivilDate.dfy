// Epoch seconds as calendar dates: the civil-from-days algorithm against the plain Gregorian calendar.
module CivilDate {
  import opened Numbers
  import opened Text

  // ---------------------------------------------------------------- the calendar

  predicate IsLeap(year: int) {
    year % 4 == 0 && (year % 100 != 0 || year % 400 == 0)
  }

  function YearLength(year: int): nat {
    if IsLeap(year) then 366 else 365
  }

  function MonthLength(year: int, month: int): nat {
    if month == 2 then if IsLeap(year) then 29 else 28
    else if month == 4 || month == 6 || month == 9 || month == 11 then 30
    else 31
  }

  datatype Date = Date(year: int, month: int, day: int) {
    predicate Valid() {
      1 <= month <= 12 && 1 <= day <= MonthLength(year, month)
    }
  }

  /** Days from the first of January 1970 to the first of January of a year, counted year by year. */
  function DaysBeforeYear(year: int): int
    decreases if year >= 1970 then year - 1970 else 1970 - year
  {
    if year == 1970 then 0
    else if year > 1970 then DaysBeforeYear(year - 1) + YearLength(year - 1)
    else DaysBeforeYear(year + 1) - YearLength(year)
  }

  /** Days of a year before a month, counted month by month. */
  function DaysBeforeMonth(year: int, month: int): nat
    decreases month
  {
    if month <= 1 then 0 else DaysBeforeMonth(year, month - 1) + MonthLength(year, month - 1)
  }

  function DayNumber(date: Date): int {
    DaysBeforeYear(date.year) + DaysBeforeMonth(date.year, date.month) + date.day - 1
  }

  function NextDay(date: Date): Date {
    if date.day < MonthLength(date.year, date.month) then Date(date.year, date.month, date.day + 1)
    else if date.month < 12 then Date(date.year, date.month + 1, 1)
    else Date(date.year + 1, 1, 1)
  }

  // ---------------------------------------------------------------- the algorithm

  const I64_MIN: int := -0x8000_0000_0000_0000
  const I64_MAX: int := 0x7fff_ffff_ffff_ffff

  function Era(z: int): int {
    Truncated(if z >= 0 then z else z - 146_096, 146_097)
  }

  function YearOfEra(doe: int): int {
    (doe - doe / 1460 + doe / 36_524 - doe / 146_096) / 365
  }

  function EraYearStart(yoe: int): int {
    365 * yoe + yoe / 4 - yoe / 100
  }

  function CivilFromDays(days: int): Date {
    var z := days + 719_468;
    var era := Era(z);
    var doe := z - era * 146_097;
    var yoe := YearOfEra(doe);
    var y := yoe + era * 400;
    var doy := doe - EraYearStart(yoe);
    var mp := (5 * doy + 2) / 153;
    var d := doy - (153 * mp + 2) / 5 + 1;
    var m := if mp < 10 then mp + 3 else mp - 9;
    Date(if m <= 2 then y + 1 else y, m, d)
  }

  datatype Clock = Clock(date: Date, hour: int, minute: int, second: int)

  function FromSeconds(secs: int): Clock {
    var rest := secs % 86_400;
    Clock(CivilFromDays(secs / 86_400), rest / 3600, (rest % 3600) / 60, rest % 60)
  }

  // ---------------------------------------------------------------- correctness of the date

  lemma EraExact(z: int)
    ensures 0 <= z - Era(z) * 146_097 <= 146_096
  {
  }

  lemma YearOfEraExact(doe: int)
    requires 0 <= doe <= 146_096
    ensures 0 <= YearOfEra(doe) <= 399
    ensures var yoe := YearOfEra(doe);
      var doy := doe - EraYearStart(yoe);
      && 0 <= doy <= 365
      && (doy == 365 ==> (yoe + 1) % 4 == 0 && ((yoe + 1) % 100 != 0 || yoe == 399))
  {
    if doe < 146_096 {
      var century := doe / 36_524;
      CenturyExact(doe, century, doe / 1460, doe % 1460, YearOfEra(doe));
    }
  }

  lemma CenturyExact(doe: int, century: int, a: int, b: int, yoe: int)
    requires 0 <= doe < 146_096 && 0 <= century <= 3 && 36_524 * century <= doe < 36_524 * (century + 1)
    requires doe == 1460 * a + b && 0 <= b < 1460
    requires 365 * yoe <= doe - a + century < 365 * yoe + 365
    ensures 100 * century <= yoe < 100 * century + 100
    ensures 0 <= doe - (365 * yoe + yoe / 4 - century) <= 365
    ensures doe - (365 * yoe + yoe / 4 - century) == 365 ==> yoe % 4 == 3 && (yoe + 1) % 100 != 0
  {
  }

  /** Leap days up to and including a year. */
  function Leaps(year: int): int {
    year / 4 - year / 100 + year / 400
  }

  lemma LeapStep(year: int)
    ensures Leaps(year) - Leaps(year - 1) == if IsLeap(year) then 1 else 0
  {
    StepBy4(year);
    StepBy100(year);
    StepBy400(year);
  }

  lemma StepBy4(year: int)
    ensures year / 4 - (year - 1) / 4 == if year % 4 == 0 then 1 else 0
  {
  }

  lemma StepBy100(year: int)
    ensures year / 100 - (year - 1) / 100 == if year % 100 == 0 then 1 else 0
  {
  }

  lemma StepBy400(year: int)
    ensures year / 400 - (year - 1) / 400 == if year % 400 == 0 then 1 else 0
  {
  }

  lemma {:induction false} DaysBeforeYearClosed(year: int)
    ensures DaysBeforeYear(year) == 365 * (year - 1970) + Leaps(year - 1) - Leaps(1969)
    decreases if year >= 1970 then year - 1970 else 1970 - year
  {
    if year > 1970 {
      DaysBeforeYearClosed(year - 1);
      LeapStep(year - 1);
    } else if year < 1970 {
      DaysBeforeYearClosed(year + 1);
      LeapStep(year);
    }
  }

  /** A March-based day of the year as month and day. */
  lemma MonthExact(year: int, doy: int)
    requires 0 <= doy <= 365 && (doy == 365 ==> IsLeap(year + 1))
    ensures var mp := (5 * doy + 2) / 153;
      var d := doy - (153 * mp + 2) / 5 + 1;
      if mp < 10 then
        && Date(year, mp + 3, d).Valid()
        && DaysBeforeMonth(year, mp + 3) + d - 1 == doy + 59 + (if IsLeap(year) then 1 else 0)
      else
        && Date(year + 1, mp - 9, d).Valid()
        && DaysBeforeMonth(year + 1, mp - 9) + d - 1 == doy - 306
  {
    var mp := (5 * doy + 2) / 153;
    assert 0 <= mp <= 11;
    MonthTable(year);
    MonthTable(year + 1);
    var start := (153 * mp + 2) / 5;
    assert start <= doy < (153 * (mp + 1) + 2) / 5;
  }

  lemma MonthTable(year: int)
    ensures DaysBeforeMonth(year, 1) == 0 && DaysBeforeMonth(year, 2) == 31
    ensures var leap := if IsLeap(year) then 1 else 0;
      && DaysBeforeMonth(year, 3) == 59 + leap && DaysBeforeMonth(year, 4) == 90 + leap
      && DaysBeforeMonth(year, 5) == 120 + leap && DaysBeforeMonth(year, 6) == 151 + leap
      && DaysBeforeMonth(year, 7) == 181 + leap && DaysBeforeMonth(year, 8) == 212 + leap
      && DaysBeforeMonth(year, 9) == 243 + leap && DaysBeforeMonth(year, 10) == 273 + leap
      && DaysBeforeMonth(year, 11) == 304 + leap && DaysBeforeMonth(year, 12) == 334 + leap
  {
    var february := DaysBeforeMonth(year, 2);
    assert february == 31;
    var march := DaysBeforeMonth(year, 3);
    var april := DaysBeforeMonth(year, 4);
    var may := DaysBeforeMonth(year, 5);
    var june := DaysBeforeMonth(year, 6);
    var july := DaysBeforeMonth(year, 7);
    var august := DaysBeforeMonth(year, 8);
    var september := DaysBeforeMonth(year, 9);
    var october := DaysBeforeMonth(year, 10);
    var november := DaysBeforeMonth(year, 11);
    var december := DaysBeforeMonth(year, 12);
  }

  /** Day number of the first of March, from both of the years it can be counted in. */
  lemma MarchStart(year: int)
    ensures var march := 365 * year + Leaps(year) - 719_468;
      && DaysBeforeYear(year) + 59 + (if IsLeap(year) then 1 else 0) == march
      && DaysBeforeYear(year + 1) - 306 == march
  {
    hide DaysBeforeYear, IsLeap;
    DaysBeforeYearClosed(year);
    DaysBeforeYearClosed(year + 1);
    LeapStep(year);
    assert Leaps(1969) == 477;
  }

  lemma EraShift(yoe: int, era: int)
    requires 0 <= yoe <= 399
    ensures var y := yoe + era * 400;
      && 365 * y + Leaps(y) == EraYearStart(yoe) + 146_097 * era
      && ((yoe + 1) % 4 == 0 && ((yoe + 1) % 100 != 0 || yoe == 399) ==> IsLeap(y + 1))
  {
    ShiftBy4(yoe, 100 * era);
    ShiftBy100(yoe, 4 * era);
    ShiftBy400(yoe, era);
    ShiftBy4(yoe + 1, 100 * era);
    ShiftBy100(yoe + 1, 4 * era);
    ShiftBy400(yoe + 1, era);
  }

  lemma ShiftBy4(a: int, k: int)
    ensures (a + 4 * k) / 4 == a / 4 + k && (a + 4 * k) % 4 == a % 4
  {
  }

  lemma ShiftBy100(a: int, k: int)
    ensures (a + 100 * k) / 100 == a / 100 + k && (a + 100 * k) % 100 == a % 100
  {
  }

  lemma ShiftBy400(a: int, k: int)
    ensures (a + 400 * k) / 400 == a / 400 + k && (a + 400 * k) % 400 == a % 400
  {
  }

  /** For every day number the algorithm yields a valid date with that day number. */
  lemma CivilExact(days: int)
    ensures CivilFromDays(days).Valid() && DayNumber(CivilFromDays(days)) == days
  {
    hide DaysBeforeYear, DaysBeforeMonth, IsLeap, Leaps, Era, YearOfEra, EraYearStart, MonthLength;
    var z := days + 719_468;
    var era := Era(z);
    var doe := z - era * 146_097;
    EraExact(z);
    YearOfEraExact(doe);
    var yoe := YearOfEra(doe);
    EraShift(yoe, era);
    MarchStart(yoe + era * 400);
    MonthExact(yoe + era * 400, doe - EraYearStart(yoe));
  }

  // ---------------------------------------------------------------- uniqueness

  lemma DayWithinYear(date: Date)
    requires date.Valid()
    ensures DaysBeforeYear(date.year) <= DayNumber(date) < DaysBeforeYear(date.year + 1)
  {
    MonthTable(date.year);
    DaysBeforeYearClosed(date.year);
    DaysBeforeYearClosed(date.year + 1);
    LeapStep(date.year);
  }

  lemma {:induction false} YearsAscend(a: int, b: int)
    requires a <= b
    ensures DaysBeforeYear(a) <= DaysBeforeYear(b)
  {
    DaysBeforeYearClosed(a);
    DaysBeforeYearClosed(b);
  }

  lemma {:induction false} MonthsAscend(year: int, a: int, b: int)
    requires 1 <= a < b <= 12
    ensures DaysBeforeMonth(year, a) + MonthLength(year, a) <= DaysBeforeMonth(year, b)
    decreases b
  {
    if a < b - 1 {
      MonthsAscend(year, a, b - 1);
    }
  }

  /** No two valid dates share a day number. */
  lemma DayNumberInjective(a: Date, b: Date)
    requires a.Valid() && b.Valid() && DayNumber(a) == DayNumber(b)
    ensures a == b
  {
    hide DaysBeforeYear, DaysBeforeMonth, MonthLength;
    DayWithinYear(a);
    DayWithinYear(b);
    if a.year < b.year {
      YearsAscend(a.year + 1, b.year);
    } else if b.year < a.year {
      YearsAscend(b.year + 1, a.year);
    } else if a.month < b.month {
      MonthsAscend(a.year, a.month, b.month);
    } else if b.month < a.month {
      MonthsAscend(a.year, b.month, a.month);
    }
  }

  lemma YearStep(year: int)
    ensures DaysBeforeYear(year + 1) == DaysBeforeYear(year) + YearLength(year)
    ensures DaysBeforeMonth(year, 12) + 31 == YearLength(year)
  {
    hide DaysBeforeMonth;
    MonthTable(year);
  }

  lemma NextDayNumber(date: Date)
    requires date.Valid()
    ensures NextDay(date).Valid() && DayNumber(NextDay(date)) == DayNumber(date) + 1
  {
    hide DaysBeforeYear, IsLeap;
    YearStep(date.year);
  }

  /** So day numbers walk through the calendar one date at a time. */
  lemma CivilStep(days: int)
    ensures CivilFromDays(days + 1) == NextDay(CivilFromDays(days))
  {
    hide CivilFromDays, DayNumber, NextDay;
    CivilExact(days);
    CivilExact(days + 1);
    NextDayNumber(CivilFromDays(days));
    DayNumberInjective(CivilFromDays(days + 1), NextDay(CivilFromDays(days)));
  }

  /** Date and time together are the seconds they came from, before and after 1970. */
  lemma SecondsExact(secs: int)
    ensures var c := FromSeconds(secs);
      && c.date.Valid() && 0 <= c.hour < 24 && 0 <= c.minute < 60 && 0 <= c.second < 60
      && DayNumber(c.date) * 86_400 + c.hour * 3600 + c.minute * 60 + c.second == secs
  {
    hide CivilFromDays, DayNumber;
    CivilExact(secs / 86_400);
  }

  /** On 64-bit seconds nothing overflows, and no unsigned difference goes below zero. */
  lemma NoOverflow(secs: int)
    requires I64_MIN <= secs <= I64_MAX
    ensures var z := secs / 86_400 + 719_468;
      var era := Era(z);
      var doe := z - era * 146_097;
      var yoe := YearOfEra(doe);
      && I64_MIN < z - 146_096 && z < I64_MAX && I64_MIN < era * 146_097 < I64_MAX && I64_MIN < era * 400 + yoe + 1 < I64_MAX
      && 0 <= doe && doe / 1460 <= doe && doe / 146_096 <= doe - doe / 1460 + doe / 36_524
      && yoe / 100 <= 365 * yoe + yoe / 4 && EraYearStart(yoe) <= doe
      && (153 * ((5 * (doe - EraYearStart(yoe)) + 2) / 153) + 2) / 5 <= doe - EraYearStart(yoe)
  {
    var z := secs / 86_400 + 719_468;
    EraExact(z);
    YearOfEraExact(z - Era(z) * 146_097);
  }

  // ---------------------------------------------------------------- text

  /** Zero-padded to a width that includes the sign. */
  function Padded(n: int, width: nat): string {
    if n >= 0 then Zeros(width - |Decimal(n)|) + Decimal(n)
    else "-" + Zeros(width - 1 - |Decimal(-n)|) + Decimal(-n)
  }

  function Rfc3339(secs: int): string {
    var c := FromSeconds(secs);
    Padded(c.date.year, 4) + "-" + Padded(c.date.month, 2) + "-" + Padded(c.date.day, 2) + "T"
      + Padded(c.hour, 2) + ":" + Padded(c.minute, 2) + ":" + Padded(c.second, 2) + "Z"
  }

  /** Digits where the profile of RFC 3339 section 5.6 wants them, in UTC. */
  predicate IsRfc3339(text: string) {
    && |text| == 20 && AllDigits(text[..4]) && text[4] == '-' && AllDigits(text[5..7]) && text[7] == '-'
    && AllDigits(text[8..10]) && text[10] == 'T' && AllDigits(text[11..13]) && text[13] == ':'
    && AllDigits(text[14..16]) && text[16] == ':' && AllDigits(text[17..19]) && text[19] == 'Z'
  }

  lemma {:induction false} DecimalLength(n: nat, width: nat)
    requires 1 <= width
    ensures |Decimal(n)| <= width <==> n < Power(10, width)
    decreases width
  {
    if width == 1 {
      assert Power(10, 1) == 10;
    } else {
      DecimalLength(n / 10, width - 1);
      assert n / 10 < Power(10, width - 1) <==> n < 10 * Power(10, width - 1);
    }
  }

  /** A number that fits is padded to the width and reads back; any other text is not that many digits. */
  lemma PaddedReads(n: int, width: nat)
    requires width >= 1
    ensures n >= 0 ==> AllDigits(Padded(n, width)) && DecimalValue(Padded(n, width)) == n && |Padded(n, width)| >= width
    ensures 0 <= n < Power(10, width) <==> |Padded(n, width)| == width && AllDigits(Padded(n, width))
    ensures n < 0 ==> Padded(n, width)[0] == '-'
  {
    hide Decimal, DecimalValue, Power;
    if n >= 0 {
      DecimalReads(n);
      DecimalLength(n, width);
      ZerosRead(width - |Decimal(n)|, Decimal(n));
    }
  }

  lemma Tens()
    ensures Power(10, 4) == 10_000 && Power(10, 2) == 100
  {
  }

  /** The text has the profile's shape exactly for years with four digits. */
  lemma Rfc3339Shape(secs: int)
    ensures IsRfc3339(Rfc3339(secs)) <==> 0 <= FromSeconds(secs).date.year <= 9999
    // year, month and day, hour, minute and second can be read where section 5.6 puts them
    ensures IsRfc3339(Rfc3339(secs)) ==>
      var text, c := Rfc3339(secs), FromSeconds(secs);
      && DecimalValue(text[..4]) == c.date.year && DecimalValue(text[5..7]) == c.date.month && DecimalValue(text[8..10]) == c.date.day
      && DecimalValue(text[11..13]) == c.hour && DecimalValue(text[14..16]) == c.minute && DecimalValue(text[17..19]) == c.second
  {
    hide FromSeconds, Padded, DayNumber, MonthLength, DecimalValue, Power;
    var c := FromSeconds(secs);
    SecondsExact(secs);
    DaysAtMost31(c.date);
    Tens();
    PaddedReads(c.date.year, 4);
    PaddedReads(c.date.month, 2);
    PaddedReads(c.date.day, 2);
    PaddedReads(c.hour, 2);
    PaddedReads(c.minute, 2);
    PaddedReads(c.second, 2);
    var year, text := Padded(c.date.year, 4), Rfc3339(secs);
    assert |text| == |year| + 16;
    if |year| == 4 {
      assert text[..4] == year;
      assert text[5..7] == Padded(c.date.month, 2) && text[8..10] == Padded(c.date.day, 2);
      assert text[11..13] == Padded(c.hour, 2) && text[14..16] == Padded(c.minute, 2) && text[17..19] == Padded(c.second, 2);
      assert text[4] == '-' && text[7] == '-' && text[10] == 'T' && text[13] == ':' && text[16] == ':' && text[19] == 'Z';
    }
  }

  lemma DaysAtMost31(date: Date)
    requires date.Valid()
    ensures 1 <= date.month <= 12 && 1 <= date.day <= 31
  {
  }

  /** That is the time from the start of year 0 to the end of year 9999. */
  lemma FourDigitYears(secs: int)
    ensures 0 <= FromSeconds(secs).date.year <= 9999 <==> -62_167_219_200 <= secs <= 253_402_300_799
  {
    hide FromSeconds, DaysBeforeYear, DayNumber;
    SecondsExact(secs);
    var date := FromSeconds(secs).date;
    DayWithinYear(date);
    DaysBeforeYearClosed(0);
    DaysBeforeYearClosed(10_000);
    assert DaysBeforeYear(0) == -719_528 && DaysBeforeYear(10_000) == 2_932_897;
    if date.year < 0 {
      YearsAscend(date.year + 1, 0);
    } else {
      YearsAscend(0, date.year);
    }
    if date.year >= 10_000 {
      YearsAscend(10_000, date.year);
    } else {
      YearsAscend(date.year + 1, 10_000);
    }
  }
}
