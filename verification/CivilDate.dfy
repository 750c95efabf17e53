/** The calendar code of the request signer (`plugins/io.su3.aws-sigv4.c`): division arithmetic that
    turns a millisecond timestamp into a UTC date and time. The reference is the Gregorian calendar
    itself: the leap year rule, the lengths of the months, and what the day after a date is. */
module CivilDate {
  import opened Bytes

  // ---------------------------------------------------------------- the Gregorian calendar

  datatype Date = Date(year: int, month: int, day: int)

  predicate Leap(y: int) {
    y % 4 == 0 && (y % 100 != 0 || y % 400 == 0)
  }

  function DaysInMonth(y: int, m: int): (n: int) {
    if m == 2 then (if Leap(y) then 29 else 28)
    else if m == 4 || m == 6 || m == 9 || m == 11 then 30
    else 31
  }

  predicate ValidDate(d: Date) {
    1 <= d.month <= 12 && 1 <= d.day <= DaysInMonth(d.year, d.month)
  }

  function NextDay(d: Date): (r: Date) {
    if d.day < DaysInMonth(d.year, d.month) then d.(day := d.day + 1)
    else if d.month < 12 then Date(d.year, d.month + 1, 1)
    else Date(d.year + 1, 1, 1)
  }

  /** The date `n` days after 1 January 1970, one day at a time. */
  function DaysLater(n: nat): (d: Date) {
    if n == 0 then Date(1970, 1, 1) else NextDay(DaysLater(n - 1))
  }

  // ---------------------------------------------------------------- the program

  /** Year of the 400-year era, from the day of the era. */
  function YearOfEra(doe: int): (yoe: int) {
    (doe - doe / 1460 + doe / 36524 - doe / 146096) / 365
  }

  function CivilFromDays(days: nat): (d: Date) {
    var z := days + 719468;
    var era := z / 146097;
    CivilInEra(era, z - era * 146097)
  }

  function CivilInEra(era: int, doe: int): (d: Date) {
    var yoe := YearOfEra(doe);
    var year := yoe + era * 400;
    var doy := doe - (365 * yoe + yoe / 4 - yoe / 100);
    MarchDate(year, doy)
  }

  /** The date of day `doy` of the year that begins on 1 March `year`. */
  function MarchDate(year: int, doy: int): (d: Date) {
    var mp := (5 * doy + 2) / 153;
    var day := doy - (153 * mp + 2) / 5 + 1;
    var month := if mp < 10 then mp + 3 else mp - 9;
    Date(if month <= 2 then year + 1 else year, month, day)
  }

  // ---------------------------------------------------------------- days within an era

  /** A day of an era as century, four-year cycle, year and day; years start in March, so a leap day
      comes last. */
  predicate InEra(c: int, q: int, y: int, d: int) {
    && 0 <= c <= 3 && 0 <= q <= 24 && 0 <= y <= 3 && 0 <= d <= 365
    && (d == 365 ==> y == 3 && (q == 24 ==> c == 3))
  }

  function DayOfEra(c: int, q: int, y: int, d: int): (doe: int) {
    36524 * c + 1461 * q + 365 * y + d
  }

  lemma EraSplits(doe: int) returns (c: int, q: int, y: int, d: int)
    requires 0 <= doe < 146097
    ensures InEra(c, q, y, d) && doe == DayOfEra(c, q, y, d)
  {
    c := if doe / 36524 == 4 then 3 else doe / 36524;
    var r := doe - 36524 * c;
    q := r / 1461;
    var s := r - 1461 * q;
    y := if s / 365 == 4 then 3 else s / 365;
    d := s - 365 * y;
  }

  lemma EraBounds(c: int, q: int, y: int, d: int)
    requires InEra(c, q, y, d)
    ensures 0 <= DayOfEra(c, q, y, d) < 146097
  {
  }

  lemma YearOfEraExact(c: int, q: int, y: int, d: int)
    requires InEra(c, q, y, d)
    ensures YearOfEra(DayOfEra(c, q, y, d)) == 100 * c + 4 * q + y
  {
    var doe := DayOfEra(c, q, y, d);
    var s := 365 * y + d;
    // Which of the two rounding corrections apply.
    var e := if 24 * c + q + s >= 1460 then 1 else 0;
    var f := if doe == 146096 then 1 else 0;
    assert doe / 1460 == 25 * c + q + e by {
      assert doe == 1460 * (25 * c + q + e) + (24 * c + q + s - 1460 * e);
    }
    assert doe / 36524 == c + f by {
      assert doe == 36524 * (c + f) + (1461 * q + s - 36524 * f);
    }
    assert doe / 146096 == f;
    assert doe - doe / 1460 + doe / 36524 - doe / 146096 == 365 * (100 * c + 4 * q + y) + (d - e);
    assert 0 <= d - e < 365;
  }

  lemma DaysBeforeYear(c: int, q: int, y: int, d: int)
    requires InEra(c, q, y, d)
    ensures var yoe := 100 * c + 4 * q + y; DayOfEra(c, q, y, d) == 365 * yoe + yoe / 4 - yoe / 100 + d
  {
    var yoe := 100 * c + 4 * q + y;
    assert yoe / 4 == 25 * c + q && yoe / 100 == c;
  }

  // ---------------------------------------------------------------- months of a March year

  /** The day of the March year on which month `mp` (0 is March) begins. */
  function MonthStart(mp: int): (doy: int) { (153 * mp + 2) / 5 }

  /** The length of month `mp`, with February at its longest. */
  function MarchLength(mp: int): (n: int) {
    if mp == 11 then 29 else if mp == 1 || mp == 3 || mp == 6 || mp == 8 then 30 else 31
  }

  lemma MonthStarts(mp: int)
    requires 0 <= mp < 11
    ensures MonthStart(mp + 1) == MonthStart(mp) + MarchLength(mp)
  {
  }

  lemma MonthOfDay(doy: int)
    requires 0 <= doy <= 365
    ensures var mp := (5 * doy + 2) / 153;
            0 <= mp < 12 && 0 <= doy - MonthStart(mp) < MarchLength(mp)
  {
    var mp := (5 * doy + 2) / 153;
    assert 0 <= mp < 12;
    assert 153 * mp <= 5 * doy + 2 < 153 * mp + 153;
  }

  lemma MonthIsUnique(mp: int, k: int)
    requires 0 <= mp < 12 && 0 <= k < MarchLength(mp)
    ensures (5 * (MonthStart(mp) + k) + 2) / 153 == mp
  {
    var m := 5 * (MonthStart(mp) + k) + 2;
    assert 153 * mp <= m < 153 * mp + 153;
  }

  // ---------------------------------------------------------------- the inverse

  /** The days before March of March year `y`, counted from March of year 0. */
  function YearStart(y: int): (n: int) {
    365 * y + y / 4 - y / 100 + y / 400
  }

  /** January and February belong to the March year before. */
  function MarchYear(d: Date): (y: int) { if d.month <= 2 then d.year - 1 else d.year }

  function MarchMonth(d: Date): (mp: int) { if d.month <= 2 then d.month + 9 else d.month - 3 }

  /** Days from civil: the day number of a date, 1 January 1970 being day 0. */
  function DaysFromCivil(d: Date): (n: int) {
    YearStart(MarchYear(d)) + MonthStart(MarchMonth(d)) + d.day - 1 - 719468
  }

  lemma YearStartSplits(era: int, yoe: int)
    requires 0 <= yoe < 400
    ensures YearStart(400 * era + yoe) == 146097 * era + 365 * yoe + yoe / 4 - yoe / 100
  {
    var y := 400 * era + yoe;
    assert y / 4 == 100 * era + yoe / 4;
    assert y / 100 == 4 * era + yoe / 100;
    assert y / 400 == era;
  }

  /** A March year has a 366th day exactly when the February at its end is in a leap year. */
  lemma LeapDayExists(era: int, c: int, q: int, y: int, d: int)
    requires InEra(c, q, y, d)
    ensures d == 365 ==> Leap(400 * era + 100 * c + 4 * q + y + 1)
  {
    var year := 400 * era + 100 * c + 4 * q + y + 1;
    if d == 365 {
      DivModUnique(year, 4, 100 * era + 25 * c + q + 1, 0);
      if q == 24 {
        DivModUnique(year, 400, era + 1, 0);
      } else {
        DivModUnique(year, 100, 4 * era + c, 4 * (q + 1));
      }
    }
  }

  /** What the program computes, in terms of the era decomposition. */
  lemma CivilParts(days: nat, era: int, c: int, q: int, y: int, d: int)
    requires InEra(c, q, y, d) && days + 719468 == 146097 * era + DayOfEra(c, q, y, d)
    ensures CivilFromDays(days) == MarchDate(400 * era + 100 * c + 4 * q + y, d)
  {
    hide DayOfEra, MarchDate, InEra, CivilInEra;
    var doe := DayOfEra(c, q, y, d);
    EraBounds(c, q, y, d);
    InEraParts(era, c, q, y, d);
    var z := days + 719468;
    DivModUnique(z, 146097, era, doe);
    assert z - z / 146097 * 146097 == doe;
  }

  lemma InEraParts(era: int, c: int, q: int, y: int, d: int)
    requires InEra(c, q, y, d)
    ensures CivilInEra(era, DayOfEra(c, q, y, d)) == MarchDate(400 * era + 100 * c + 4 * q + y, d)
  {
    hide YearOfEra, DayOfEra, MarchDate, InEra;
    YearOfEraExact(c, q, y, d);
    DaysBeforeYear(c, q, y, d);
    var yoe := 100 * c + 4 * q + y;
    assert DayOfEra(c, q, y, d) - (365 * yoe + yoe / 4 - yoe / 100) == d;
  }

  /** The day number of a March date. */
  lemma MarchDateNumber(era: int, c: int, q: int, y: int, d: int)
    requires InEra(c, q, y, d)
    ensures var date := MarchDate(400 * era + 100 * c + 4 * q + y, d);
            ValidDate(date) && DaysFromCivil(date) == 146097 * era + DayOfEra(c, q, y, d) - 719468
  {
    var yoe := 100 * c + 4 * q + y;
    var date := MarchDate(400 * era + yoe, d);
    MonthOfDay(d);
    LeapDayExists(era, c, q, y, d);
    FebruaryFits(400 * era + yoe, d);
    YearStartSplits(era, yoe);
    DaysBeforeYear(c, q, y, d);
    hide YearStart, DayOfEra, DaysInMonth, Leap;
    assert MarchYear(date) == 400 * era + yoe && MarchMonth(date) == (5 * d + 2) / 153;
  }

  /** Every date the program gives is a date of the calendar, and its day number is the input. */
  lemma CivilIsExact(days: nat)
    ensures ValidDate(CivilFromDays(days))
    ensures DaysFromCivil(CivilFromDays(days)) == days
  {
    hide CivilFromDays, DaysFromCivil, ValidDate, InEra, DayOfEra, MarchDate;
    var z := days + 719468;
    var era := z / 146097;
    var c, q, y, d := EraSplits(z - 146097 * era);
    CivilParts(days, era, c, q, y, d);
    MarchDateNumber(era, c, q, y, d);
  }

  /** Day `d` of March year `my` lies within its civil month. */
  lemma FebruaryFits(my: int, d: int)
    requires 0 <= d <= 365 && (d == 365 ==> Leap(my + 1))
    ensures var mp := (5 * d + 2) / 153;
            var month := if mp < 10 then mp + 3 else mp - 9;
            1 <= d - MonthStart(mp) + 1 <= DaysInMonth(if month <= 2 then my + 1 else my, month)
  {
    MonthOfDay(d);
    var mp := (5 * d + 2) / 153;
    assert mp == 11 ==> MonthStart(mp) == 337;
  }

  /** The program inverts the day number: it finds any date of 1970 or later again. */
  lemma CivilInverts(date: Date)
    requires ValidDate(date) && DaysFromCivil(date) >= 0
    ensures CivilFromDays(DaysFromCivil(date)) == date
  {
    hide CivilFromDays, YearStart, MarchDate, MonthStart, ValidDate, Leap, DayOfEra, InEra;
    var my, mp := MarchYear(date), MarchMonth(date);
    var doy := MonthStart(mp) + date.day - 1;
    MarchDayBounds(date);
    MarchDateIs(date);
    var era, c, q, y := YearSplits(my);
    LeapDayFits(era, c, q, y, doy);
    YearStartSplits(era, 100 * c + 4 * q + y);
    DaysBeforeYear(c, q, y, doy);
    CivilParts(DaysFromCivil(date), era, c, q, y, doy);
  }

  lemma YearSplits(my: int) returns (era: int, c: int, q: int, y: int)
    ensures my == 400 * era + 100 * c + 4 * q + y && 0 <= c <= 3 && 0 <= q <= 24 && 0 <= y <= 3
  {
    era, c, q, y := my / 400, my % 400 / 100, my % 100 / 4, my % 4;
    var yoe := my % 400;
    assert yoe % 100 == my % 100 && my % 100 % 4 == my % 4;
  }

  lemma MarchDateIs(date: Date)
    requires ValidDate(date)
    ensures MarchDate(MarchYear(date), MonthStart(MarchMonth(date)) + date.day - 1) == date
  {
    MarchDayBounds(date);
    MonthIsUnique(MarchMonth(date), date.day - 1);
  }

  lemma MarchDayBounds(date: Date)
    requires ValidDate(date)
    ensures var mp := MarchMonth(date);
            var doy := MonthStart(mp) + date.day - 1;
            && 0 <= mp < 12 && date.day <= MarchLength(mp) && 0 <= doy <= 365
            && (doy == 365 ==> Leap(MarchYear(date) + 1))
  {
    var mp := MarchMonth(date);
    assert mp == 11 ==> MonthStart(mp) == 337;
    assert mp < 11 ==> MonthStart(mp) <= 306;
  }

  lemma LeapDayFits(era: int, c: int, q: int, y: int, doy: int)
    requires 0 <= c <= 3 && 0 <= q <= 24 && 0 <= y <= 3 && 0 <= doy <= 365
    requires doy == 365 ==> Leap(400 * era + 100 * c + 4 * q + y + 1)
    ensures InEra(c, q, y, doy)
  {
  }

  /** The day number of the next day is one more. */
  lemma NextDayNumber(d: Date)
    requires ValidDate(d)
    ensures ValidDate(NextDay(d)) && DaysFromCivil(NextDay(d)) == DaysFromCivil(d) + 1
  {
    hide YearStart, MonthStart, Leap;
    assert MonthStart(11) == 337 && MonthStart(0) == 0 by { MonthEnds(); }
    YearLength(d.year);
    if MarchMonth(d) < 11 { MonthStarts(MarchMonth(d)); }
  }

  lemma MonthEnds()
    ensures MonthStart(11) == 337 && MonthStart(0) == 0
  {
  }

  lemma YearLength(y: int)
    ensures YearStart(y) - YearStart(y - 1) == if Leap(y) then 366 else 365
  {
    QuotientStep(y, 4);
    QuotientStep(y, 100);
    QuotientStep(y, 400);
    Multiples(y);
  }

  lemma QuotientStep(y: int, d: int)
    requires d > 1
    ensures y / d - (y - 1) / d == if y % d == 0 then 1 else 0
  {
    var q, r := y / d, y % d;
    if r == 0 {
      assert y - 1 == (q - 1) * d + (d - 1);
      DivModUnique(y - 1, d, q - 1, d - 1);
    } else {
      DivModUnique(y - 1, d, q, r - 1);
    }
  }

  lemma Multiples(y: int)
    ensures (y % 100 == 0 ==> y % 4 == 0) && (y % 400 == 0 ==> y % 100 == 0)
  {
    if y % 100 == 0 { DivModUnique(y, 4, 25 * (y / 100), 0); }
    if y % 400 == 0 { DivModUnique(y, 100, 4 * (y / 400), 0); }
  }

  /** The program is the Gregorian calendar: day `n` is the date `n` days after 1 January 1970. */
  lemma {:induction false} CivilIsTheCalendar(n: nat)
    ensures CivilFromDays(n) == DaysLater(n)
  {
    hide CivilFromDays, DaysFromCivil, ValidDate;
    if n == 0 {
      EpochDay();
    } else {
      var before := CivilFromDays(n - 1);
      CivilIsTheCalendar(n - 1);
      CivilIsExact(n - 1);
      NextDayNumber(before);
      CivilInverts(NextDay(before));
    }
  }

  lemma EpochDay()
    ensures CivilFromDays(0) == Date(1970, 1, 1)
  {
    CivilParts(0, 4, 3, 17, 1, 306);
    hide CivilFromDays;
  }

  /** In 64-bit unsigned arithmetic nothing wraps: no difference is negative and no value is too
      large, for every 64-bit timestamp. */
  lemma NothingWraps(timestampMs: nat)
    requires timestampMs < 0x1_0000_0000_0000_0000
    ensures var z := timestampMs / 1000 / 86400 + 719468;
            var era := z / 146097;
            var doe := z - era * 146097;
            var yoe := YearOfEra(doe);
            var before := 365 * yoe + yoe / 4 - yoe / 100;
            var doy := doe - before;
            var mp := (5 * doy + 2) / 153;
            && 0 <= era * 146097 <= z < 0x1_0000_0000_0000_0000
            && doe / 1460 <= doe <= 146096 && doe / 146096 <= doe - doe / 1460 + doe / 36524
            && 0 <= yoe / 100 <= 365 * yoe + yoe / 4 && before <= doe
            && 0 <= doy <= 365 && 0 <= mp <= 11 && (153 * mp + 2) / 5 <= doy
            && 0 <= yoe + era * 400 < 0x1_0000_0000_0000_0000
  {
    var z := timestampMs / 1000 / 86400 + 719468;
    var doe := z - z / 146097 * 146097;
    var c, q, y, d := EraSplits(doe);
    YearOfEraExact(c, q, y, d);
    DaysBeforeYear(c, q, y, d);
    MonthOfDay(d);
    hide YearOfEra, DayOfEra;
    var yoe := 100 * c + 4 * q + y;
    assert doe - (365 * yoe + yoe / 4 - yoe / 100) == d;
    assert doe >= 2 ==> doe / 1460 + doe / 146096 <= doe;
  }

  // ---------------------------------------------------------------- years as ranges of days

  /** The day number of 1 January. */
  function JanuaryFirst(y: int): (n: int) { DaysFromCivil(Date(y, 1, 1)) }

  lemma {:induction false} YearStartGrows(a: int, b: int)
    requires a <= b
    ensures YearStart(a) <= YearStart(b)
    decreases b - a
  {
    if a < b {
      YearStartGrows(a, b - 1);
      YearLength(b);
      hide YearStart;
    }
  }

  /** Every day of a year lies between its 1 January and the next. */
  lemma WithinYear(d: Date)
    requires ValidDate(d)
    ensures JanuaryFirst(d.year) <= DaysFromCivil(d) < JanuaryFirst(d.year + 1)
  {
    MarchDayBounds(d);
    YearLength(d.year);
    hide YearStart, Leap;
    assert MonthStart(10) == 306;
    assert d.month > 2 ==> MonthStart(MarchMonth(d)) + d.day - 1 < 306;
    assert d.month <= 2 ==> MonthStart(MarchMonth(d)) + d.day - 1 >= 306;
  }

  /** A date is before a year exactly when its day number is before that of its 1 January. */
  lemma YearOrder(d: Date, y: int)
    requires ValidDate(d)
    ensures d.year < y <==> DaysFromCivil(d) < JanuaryFirst(y)
  {
    hide JanuaryFirst, DaysFromCivil, YearStart, ValidDate;
    WithinYear(d);
    if d.year < y { JanuaryOrder(d.year + 1, y); } else { JanuaryOrder(y, d.year); }
  }

  lemma JanuaryOrder(a: int, b: int)
    requires a <= b
    ensures JanuaryFirst(a) <= JanuaryFirst(b)
  {
    YearStartGrows(a - 1, b - 1);
    hide YearStart;
  }

  lemma JanuaryFirsts()
    ensures JanuaryFirst(1970) == 0 && JanuaryFirst(10000) == 2932897
  {
  }

  // ---------------------------------------------------------------- the time stamp

  datatype Stamp = Stamp(date: Date, hour: int, minute: int, second: int)

  function StampOf(timestampMs: nat): (s: Stamp) {
    var seconds := timestampMs / 1000;
    var sod := seconds % 86400;
    Stamp(CivilFromDays(seconds / 86400), sod / 3600, sod / 60 % 60, sod % 60)
  }

  /** The fields say the same second as the timestamp. */
  lemma StampIsExact(timestampMs: nat)
    ensures var s := StampOf(timestampMs);
            && ValidDate(s.date) && 0 <= s.hour < 24 && 0 <= s.minute < 60 && 0 <= s.second < 60
            && timestampMs / 1000 == 86400 * DaysFromCivil(s.date) + 3600 * s.hour + 60 * s.minute + s.second
  {
    hide CivilFromDays, DaysFromCivil, ValidDate;
    var seconds := timestampMs / 1000;
    CivilIsExact(seconds / 86400);
    var sod := seconds % 86400;
    assert sod / 60 / 60 == sod / 3600;
  }

  const ZERO: byte := '0' as int

  function Digit(v: nat): (b: byte) { ZERO + v % 10 }

  /** The number a run of digits spells. */
  function ReadNumber(b: seq<byte>): (v: int) {
    if b == [] then 0 else 10 * ReadNumber(b[..|b| - 1]) + (b[|b| - 1] - ZERO)
  }

  /** The low digits of a number, one digit more. */
  lemma LowDigits(v: nat, m: nat)
    requires m == 10 || m == 100 || m == 1000
    ensures v % (10 * m) == v / m % 10 * m + v % m
  {
    if m == 10 { DivModUnique(v, 100, v / 10 / 10, v / 10 % 10 * 10 + v % 10); }
    else if m == 100 { DivModUnique(v, 1000, v / 100 / 10, v / 100 % 10 * 100 + v % 100); }
    else { DivModUnique(v, 10000, v / 1000 / 10, v / 1000 % 10 * 1000 + v % 1000); }
  }

  lemma TwoDigits(text: seq<byte>, at: nat, v: nat)
    requires at + 2 <= |text| && text[at] == Digit(v / 10) && text[at + 1] == Digit(v)
    ensures ReadNumber(text[at..at + 2]) == v % 100
  {
    var b1 := [text[at]];
    var b := b1 + [text[at + 1]];
    assert text[at..at + 2] == b && b[..1] == b1 && b1[..0] == [];
    assert ReadNumber(b1) == v / 10 % 10;
    LowDigits(v, 10);
  }

  lemma FourDigits(text: seq<byte>, at: nat, v: nat)
    requires at + 4 <= |text| && text[at] == Digit(v / 1000) && text[at + 1] == Digit(v / 100)
    requires text[at + 2] == Digit(v / 10) && text[at + 3] == Digit(v)
    ensures ReadNumber(text[at..at + 4]) == v % 10000
  {
    var b1 := [text[at]];
    var b2 := b1 + [text[at + 1]];
    var b3 := b2 + [text[at + 2]];
    var b := b3 + [text[at + 3]];
    assert text[at..at + 4] == b && b[..3] == b3 && b3[..2] == b2 && b2[..1] == b1 && b1[..0] == [];
    assert ReadNumber(b1) == v / 1000 % 10;
    assert ReadNumber(b2) == 10 * ReadNumber(b1) + v / 100 % 10;
    assert ReadNumber(b3) == 10 * ReadNumber(b2) + v / 10 % 10;
    assert ReadNumber(b) == 10 * ReadNumber(b3) + v % 10;
    hide ReadNumber;
    LowDigits(v, 10); LowDigits(v, 100); LowDigits(v, 1000);
  }

  method Write2(out: array<byte>, at: nat, value: nat)
    requires at + 2 <= out.Length
    modifies out
    ensures out[at] == Digit(value / 10) && out[at + 1] == Digit(value)
    ensures forall k :: 0 <= k < out.Length && !(at <= k < at + 2) ==> out[k] == old(out[k])
  {
    out[at] := ZERO + value / 10 % 10;
    out[at + 1] := ZERO + value % 10;
  }

  method Write4(out: array<byte>, at: nat, value: nat)
    requires at + 4 <= out.Length
    modifies out
    ensures out[at] == Digit(value / 1000) && out[at + 1] == Digit(value / 100)
    ensures out[at + 2] == Digit(value / 10) && out[at + 3] == Digit(value)
    ensures forall k :: 0 <= k < out.Length && !(at <= k < at + 4) ==> out[k] == old(out[k])
  {
    out[at] := ZERO + value / 1000 % 10;
    out[at + 1] := ZERO + value / 100 % 10;
    out[at + 2] := ZERO + value / 10 % 10;
    out[at + 3] := ZERO + value % 10;
  }

  /** Writes `YYYYMMDDThhmmssZ` and a NUL. */
  method AwsDate(timestampMs: nat, out: array<byte>)
    requires out.Length == 17
    modifies out
    ensures ReadsBack(StampOf(timestampMs), out[..])
    ensures ReadNumber(out[..][0..4]) == StampOf(timestampMs).date.year <==> timestampMs < YEAR_10000
  {
    hide CivilFromDays, DaysFromCivil, DaysInMonth, Digit, ReadNumber, ReadsBack, Spells;
    StampIsExact(timestampMs);
    var s := StampOf(timestampMs);
    StampYear(timestampMs);
    MonthFits(s.date);
    hide StampOf;
    WriteStamp(s, out);
    TextReadsBack(s, out[..]);
    YearReadableIff(timestampMs, out[..]);
  }

  method WriteStamp(s: Stamp, out: array<byte>)
    requires out.Length == 17 && s.date.year >= 0 && s.date.month >= 0 && s.date.day >= 0
    requires s.hour >= 0 && s.minute >= 0 && s.second >= 0
    modifies out
    ensures Spells(s, out[..])
  {
    hide Digit;
    Write4(out, 0, s.date.year);
    Write2(out, 4, s.date.month);
    Write2(out, 6, s.date.day);
    out[8] := 'T' as int;
    Write2(out, 9, s.hour);
    Write2(out, 11, s.minute);
    Write2(out, 13, s.second);
    out[15] := 'Z' as int;
    out[16] := 0;
  }

  lemma YearIsNat(days: nat)
    ensures CivilFromDays(days).year >= 1970
  {
    hide CivilFromDays, DaysFromCivil, ValidDate;
    CivilIsExact(days);
    YearOrder(CivilFromDays(days), 1970);
    JanuaryFirsts();
  }

  /** The written text spells the stamp: all fields, and the year modulo 10000. */
  predicate ReadsBack(s: Stamp, text: seq<byte>) {
    && |text| == 17
    && ReadNumber(text[0..4]) == s.date.year % 10000
    && ReadNumber(text[4..6]) == s.date.month && ReadNumber(text[6..8]) == s.date.day
    && text[8] == 'T' as int
    && ReadNumber(text[9..11]) == s.hour && ReadNumber(text[11..13]) == s.minute && ReadNumber(text[13..15]) == s.second
    && text[15] == 'Z' as int && text[16] == 0
  }

  /** The seventeen bytes of a stamp, digit by digit. */
  predicate Spells(s: Stamp, t: seq<byte>)
    requires s.date.year >= 0 && s.date.month >= 0 && s.date.day >= 0 && s.hour >= 0 && s.minute >= 0 && s.second >= 0
  {
    && |t| == 17
    && t[0] == Digit(s.date.year / 1000) && t[1] == Digit(s.date.year / 100)
    && t[2] == Digit(s.date.year / 10) && t[3] == Digit(s.date.year)
    && t[4] == Digit(s.date.month / 10) && t[5] == Digit(s.date.month)
    && t[6] == Digit(s.date.day / 10) && t[7] == Digit(s.date.day)
    && t[8] == 'T' as int
    && t[9] == Digit(s.hour / 10) && t[10] == Digit(s.hour)
    && t[11] == Digit(s.minute / 10) && t[12] == Digit(s.minute)
    && t[13] == Digit(s.second / 10) && t[14] == Digit(s.second)
    && t[15] == 'Z' as int && t[16] == 0
  }

  lemma TextReadsBack(s: Stamp, t: seq<byte>)
    requires s.date.year >= 0 && 1 <= s.date.month <= 12 && 1 <= s.date.day <= 31
    requires 0 <= s.hour < 24 && 0 <= s.minute < 60 && 0 <= s.second < 60
    requires Spells(s, t)
    ensures ReadsBack(s, t)
  {
    hide ReadNumber, Digit;
    FourDigits(t, 0, s.date.year);
    TwoDigits(t, 4, s.date.month); TwoDigits(t, 6, s.date.day);
    TwoDigits(t, 9, s.hour); TwoDigits(t, 11, s.minute); TwoDigits(t, 13, s.second);
  }

  lemma MonthFits(d: Date)
    requires ValidDate(d)
    ensures d.day <= 31
  {
  }

  /** The timestamp of 1 January 10000. */
  const YEAR_10000: nat := 253402300800000

  /** The timestamps of the years up to 9999. */
  lemma YearBound(timestampMs: nat)
    ensures StampOf(timestampMs).date.year <= 9999 <==> timestampMs < YEAR_10000
  {
    hide CivilFromDays, DaysFromCivil, ValidDate;
    var days := timestampMs / 1000 / 86400;
    CivilIsExact(days);
    YearOrder(CivilFromDays(days), 10000);
    JanuaryFirsts();
    assert days < 2932897 <==> timestampMs < YEAR_10000;
  }

  /** The written year reads back exactly for timestamps before the year 10000. */
  lemma YearReadableIff(timestampMs: nat, text: seq<byte>)
    requires |text| == 17 && ReadsBack(StampOf(timestampMs), text)
    ensures ReadNumber(text[0..4]) == StampOf(timestampMs).date.year <==> timestampMs < YEAR_10000
  {
    hide ReadNumber, CivilFromDays, ReadsBack, StampOf;
    YearBound(timestampMs);
    YearWritten(StampOf(timestampMs), text);
    assert StampOf(timestampMs).date.year >= 1970 by { StampYear(timestampMs); }
  }

  /** The first timestamp of the year 10000 is written with the year 0000. */
  lemma Year10000Example(text: seq<byte>)
    requires |text| == 17 && ReadsBack(StampOf(YEAR_10000), text)
    ensures StampOf(YEAR_10000).date == Date(10000, 1, 1) && ReadNumber(text[0..4]) == 0
  {
    hide ReadNumber, ReadsBack, CivilFromDays, DaysFromCivil;
    JanuaryFirsts();
    CivilInverts(Date(10000, 1, 1));
    YearWritten(StampOf(YEAR_10000), text);
  }

  lemma YearWritten(s: Stamp, text: seq<byte>)
    requires |text| == 17 && ReadsBack(s, text)
    ensures ReadNumber(text[0..4]) == s.date.year % 10000
  {
    hide ReadNumber;
  }

  lemma StampYear(timestampMs: nat)
    ensures StampOf(timestampMs).date.year >= 1970
  {
    YearIsNat(timestampMs / 1000 / 86400);
    hide CivilFromDays;
  }
}
