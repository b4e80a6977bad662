/** Civil dates and FAT timestamps (kernel/core/timer.c, kernel/fs/fat32.c). The kernel divides with truncation but shifts a
    negative year by 399 first, which is the Euclidean division by 400 used here; its other divisions are of non-negative numbers. */
module Dates {

  const ERA := 146097
  const SHIFT := 719468

  /** `days_from_civil`: days since 1970-01-01, in the proleptic Gregorian calendar. */
  function DaysFromCivil(year: int, month: int, day: int): int {
    var y := if month <= 2 then year - 1 else year;
    var era := y / 400;
    var yoe := y - era * 400;
    var doy := (153 * (month + (if month > 2 then -3 else 9)) + 2) / 5 + day - 1;
    var doe := yoe * 365 + yoe / 4 - yoe / 100 + doy;
    era * ERA + doe - SHIFT
  }

  function EpochOf(year: int, month: int, day: int, hour: int, min: int, sec: int): int { DaysFromCivil(year, month, day) * 86400 + hour * 3600 + min * 60 + sec }

  datatype Civil = Civil(year: int, month: int, day: int)

  /** The year of an era a day belongs to, days counted from 1 March. */
  function YearOfEra(doe: int): int { (doe - doe / 1460 + doe / 36524 - doe / 146096) / 365 }

  /** Days before year `yoe` of an era. */
  function Before(yoe: int): int { 365 * yoe + yoe / 4 - yoe / 100 }

  /** Month `mp` from March on, as a month of the year, and the day in it of day `doy` from 1 March on. */
  function MonthOf(mp: int): int { mp + (if mp < 10 then 3 else -9) }

  function DayIn(doy: int, mp: int): int { doy - (153 * mp + 2) / 5 + 1 }

  /** The inverse in the stamping code: the era, then the date of a day of it. */
  function CivilFromDays(days: nat): Civil {
    var z := days + SHIFT;
    var era := z / ERA;
    CivilInEra(era, z - era * ERA)
  }

  function CivilInEra(era: int, doe: int): Civil {
    var yoe := YearOfEra(doe);
    var y := yoe + era * 400;
    var doy := doe - Before(yoe);
    var mp := (5 * doy + 2) / 153;
    var m := MonthOf(mp);
    Civil(y + (if m <= 2 then 1 else 0), m, DayIn(doy, mp))
  }

  lemma DivIs(n: int, d: int, q: int)
    requires d > 0 && q * d <= n < q * d + d
    ensures n / d == q
  {
    var (r, m) := (n / d, n % d);
    assert n == r * d + m && 0 <= m < d;
    if r < q { MulLe(r + 1, q, d); }
    if q < r { MulLe(q + 1, r, d); }
  }

  lemma MulLe(a: int, b: int, d: int)
    requires a <= b && d >= 0
    ensures a * d <= b * d && (a - 1) * d == a * d - d
  {
  }

  /** A day of an era: century `c`, four-year cycle `k` of it, year `j` of that, day of the year. */
  ghost predicate IsDay(c: int, k: int, j: int, doy: int) {
    0 <= c < 4 && 0 <= k < 25 && 0 <= j < 4 && 0 <= doy <= 365 && (doy == 365 ==> j == 3 && (k < 24 || c == 3))
  }

  function DayOf(c: int, k: int, j: int, doy: int): int { 36524 * c + 1461 * k + 365 * j + doy }

  /** The year formula finds the year. */
  lemma YearOfDay(c: int, k: int, j: int, doy: int)
    requires IsDay(c, k, j, doy)
    ensures YearOfEra(DayOf(c, k, j, doy)) == 100 * c + 4 * k + j
  {
    var doe := DayOf(c, k, j, doy);
    var last := if doe == 146096 then 1 else 0;
    DivIs(doe, 36524, c + last);
    DivIs(doe, 146096, last);
    var e := if 24 * c + k + 365 * j + doy >= 1460 then 1 else 0;
    DivIs(doe, 1460, 25 * c + k + e);
    DivIs(doe - doe / 1460 + doe / 36524 - doe / 146096, 365, 100 * c + 4 * k + j);
  }

  lemma DaySplits(doe: int) returns (c: int, k: int, j: int, doy: int)
    requires 0 <= doe < ERA
    ensures IsDay(c, k, j, doy) && doe == DayOf(c, k, j, doy)
  {
    c := if doe / 36524 > 3 then 3 else doe / 36524;
    var r := doe - 36524 * c;
    k := if r / 1461 > 24 then 24 else r / 1461;
    var s := r - 1461 * k;
    j := if s / 365 > 3 then 3 else s / 365;
    doy := s - 365 * j;
  }

  /** Months counted from March, and the day in them. */
  lemma MonthIsRight(doy: int)
    requires 0 <= doy <= 365
    ensures var mp := (5 * doy + 2) / 153; 0 <= mp <= 11 && 1 <= doy - (153 * mp + 2) / 5 + 1 <= 31
  {
  }

  lemma InEra(days: nat)
    ensures var z := days + SHIFT; 0 <= z - z / ERA * ERA < ERA
  {
  }

  /** Putting the parts of a date together again. */
  lemma Compose(era: int, yoe: int, doy: int, mp: int)
    requires 0 <= yoe < 400 && 0 <= mp <= 11
    ensures var (m, y) := (MonthOf(mp), yoe + era * 400);
            var year := y + (if m <= 2 then 1 else 0);
            1 <= m <= 12 && DaysFromCivil(year, m, DayIn(doy, mp)) == era * ERA + Before(yoe) + doy - SHIFT
  {
    DivIs(yoe + era * 400, 400, era);
  }

  predicate Leap(year: int) { year % 4 == 0 && (year % 100 != 0 || year % 400 == 0) }

  function DaysInMonth(year: int, month: int): int {
    if month == 2 then (if Leap(year) then 29 else 28) else if month == 4 || month == 6 || month == 9 || month == 11 then 30 else 31
  }

  predicate IsDate(c: Civil) { 1 <= c.month <= 12 && 1 <= c.day <= DaysInMonth(c.year, c.month) }

  /** The years that have a 29 February, counted from March. */
  lemma LeapDay(era: int, c: int, k: int, j: int)
    requires 0 <= c < 4 && 0 <= k < 25 && 0 <= j < 4
    ensures Leap(era * 400 + 100 * c + 4 * k + j + 1) <==> j == 3 && (k < 24 || c == 3)
  {
    var y := era * 400 + 100 * c + 4 * k + j + 1;
    DivIs(y, 4, era * 100 + 25 * c + k + (if j == 3 then 1 else 0));
    var up := if k == 24 && j == 3 then 1 else 0;
    DivIs(y, 100, era * 4 + c + up);
    DivIs(y, 400, era + (if c == 3 then up else 0));
  }

  /** Months but the last have fixed lengths. */
  lemma MonthLength(doy: int, year: int)
    requires 0 <= doy <= 365
    ensures var mp := (5 * doy + 2) / 153;
            && (mp < 11 ==> 1 <= DayIn(doy, mp) <= DaysInMonth(year, MonthOf(mp)))
            && (mp == 11 ==> DayIn(doy, mp) == doy - 336)
  {
  }

  /** Where a year's day falls, as a date. */
  lemma DateOfDay(era: int, c: int, k: int, j: int, doy: int)
    requires IsDay(c, k, j, doy)
    ensures var (mp, y) := ((5 * doy + 2) / 153, era * 400 + 100 * c + 4 * k + j);
            0 <= mp <= 11 && IsDate(Civil(y + (if MonthOf(mp) <= 2 then 1 else 0), MonthOf(mp), DayIn(doy, mp)))
  {
    var (mp, y) := ((5 * doy + 2) / 153, era * 400 + 100 * c + 4 * k + j);
    MonthIsRight(doy);
    MonthLength(doy, y + (if MonthOf(mp) <= 2 then 1 else 0));
    LeapDay(era, c, k, j);
    hide Leap;
  }

  lemma EraOf(era: int, doe: int)
    requires 0 <= doe < ERA && era * ERA + doe >= SHIFT
    ensures CivilFromDays(era * ERA + doe - SHIFT) == CivilInEra(era, doe)
  {
    hide CivilInEra;
    DivIs(era * ERA + doe, ERA, era);
  }

  /** `CivilFromDays` in terms of the parts of a day. */
  lemma CivilOfParts(era: int, c: int, k: int, j: int, doy: int)
    requires IsDay(c, k, j, doy) && era * ERA + DayOf(c, k, j, doy) >= SHIFT
    ensures var (mp, y) := ((5 * doy + 2) / 153, era * 400 + 100 * c + 4 * k + j);
            CivilFromDays(era * ERA + DayOf(c, k, j, doy) - SHIFT)
            == Civil(y + (if MonthOf(mp) <= 2 then 1 else 0), MonthOf(mp), DayIn(doy, mp))
  {
    hide YearOfEra, Before, DayOf, MonthOf, DayIn, CivilFromDays;
    BeforeYear(c, k, j, doy);
    EraOf(era, DayOf(c, k, j, doy));
    YearOfDay(c, k, j, doy);
  }

  /** A day of an era is its year's first and the day of the year. */
  lemma BeforeYear(c: int, k: int, j: int, doy: int)
    requires IsDay(c, k, j, doy)
    ensures 0 <= DayOf(c, k, j, doy) < ERA && DayOf(c, k, j, doy) == Before(100 * c + 4 * k + j) + doy
  {
    var y := 100 * c + 4 * k + j;
    DivIs(y, 4, 25 * c + k);
    DivIs(y, 100, c);
  }

  /** The stamping code's civil date is a date of the calendar and, read back, the day it came from. */
  lemma CivilRoundTrip(days: nat)
    ensures IsDate(CivilFromDays(days)) && 1 <= CivilFromDays(days).day <= 31
    ensures var c := CivilFromDays(days); DaysFromCivil(c.year, c.month, c.day) == days
  {
    InEra(days);
    var era := (days + SHIFT) / ERA;
    var doe := days + SHIFT - era * ERA;
    var c, k, j, doy := DaySplits(doe);
    hide YearOfEra, Before, DaysFromCivil, CivilFromDays, MonthOf, DayIn, Leap;
    CivilOfParts(era, c, k, j, doy);
    DateOfDay(era, c, k, j, doy);
    BeforeYear(c, k, j, doy);
    Compose(era, 100 * c + 4 * k + j, doy, (5 * doy + 2) / 153);
  }

  /** The day of the year a date falls on, counted from 1 March, determines its month and day. */
  lemma MonthBack(mp: int, day: int)
    requires 0 <= mp <= 11 && 1 <= day <= (if mp == 11 then 29 else DaysInMonth(1, MonthOf(mp)))
    ensures var doy := (153 * mp + 2) / 5 + day - 1;
            0 <= doy <= 365 && (5 * doy + 2) / 153 == mp && DayIn(doy, mp) == day && (doy == 365 <==> mp == 11 && day == 29)
  {
  }

  /** The century, cycle and year of an era a March-based year is. */
  lemma YearSplits(y: int) returns (era: int, c: int, k: int, j: int)
    ensures 0 <= c < 4 && 0 <= k < 25 && 0 <= j < 4 && y == era * 400 + 100 * c + 4 * k + j
  {
    var yoe := y % 400;
    era, c, k, j := y / 400, yoe / 100, yoe % 100 / 4, yoe % 4;
  }

  lemma DateParts(d: Civil) returns (era: int, c: int, k: int, j: int, doy: int)
    requires IsDate(d)
    ensures IsDay(c, k, j, doy)
    ensures var (mp, y) := ((5 * doy + 2) / 153, era * 400 + 100 * c + 4 * k + j);
            && 0 <= mp <= 11 && d == Civil(y + (if MonthOf(mp) <= 2 then 1 else 0), MonthOf(mp), DayIn(doy, mp))
  {
    era, c, k, j := YearSplits(if d.month <= 2 then d.year - 1 else d.year);
    var mp := if d.month > 2 then d.month - 3 else d.month + 9;
    LeapDay(era, c, k, j);
    hide Leap;
    MonthBack(mp, d.day);
    doy := (153 * mp + 2) / 5 + d.day - 1;
  }

  /** A date of the calendar on or after 1970, turned to days and back, is that date. */
  lemma DaysRoundTrip(d: Civil)
    requires IsDate(d) && DaysFromCivil(d.year, d.month, d.day) >= 0
    ensures CivilFromDays(DaysFromCivil(d.year, d.month, d.day)) == d
  {
    hide CivilFromDays, DaysFromCivil, Before, IsDate;
    var era, c, k, j, doy := DateParts(d);
    BeforeYear(c, k, j, doy);
    Compose(era, 100 * c + 4 * k + j, doy, (5 * doy + 2) / 153);
    CivilOfParts(era, c, k, j, doy);
  }

  // ---------------------------------------------------------------- stamps

  datatype Stamp = Stamp(date: nat, time: nat)

  function Hour(rem: int): int { rem / 3600 }
  function Minute(rem: int): int { rem % 3600 / 60 }
  function Second(rem: int): int { rem % 60 }

  /** `fat32_stamp_entry`: shifts and ors as sums, stored in sixteen bits each. */
  function StampOf(secs: nat): Stamp {
    var c := CivilFromDays(secs / 86400);
    var rem := secs % 86400;
    var y := if c.year < 1980 then 1980 else c.year;
    Stamp(((y - 1980) * 512 + c.month * 32 + c.day) % 0x1_0000, (Hour(rem) * 2048 + Minute(rem) * 32 + Second(rem) / 2) % 0x1_0000)
  }

  /** `fat32_decode_time`. */
  function Decode(s: Stamp): int {
    var (year, month, day) := (1980 + s.date / 512, s.date / 32 % 16, s.date % 32);
    if s.date == 0 || month < 1 || month > 12 || day < 1 then 0
    else EpochOf(year, month, day, s.time / 2048, s.time / 32 % 64, s.time % 32 * 2)
  }

  lemma TimeFields(h: int, m: int, s: int)
    requires 0 <= h < 24 && 0 <= m < 60 && 0 <= s < 30
    ensures var t := h * 2048 + m * 32 + s; t < 0x1_0000 && t / 2048 == h && t / 32 % 64 == m && t % 32 == s
  {
    var t := h * 2048 + m * 32 + s;
    DivIs(t, 2048, h);
    DivIs(t, 32, h * 64 + m);
  }

  lemma DateFields(y: int, m: int, d: int)
    requires 0 <= y < 128 && 1 <= m <= 12 && 1 <= d <= 31
    ensures var t := y * 512 + m * 32 + d; t < 0x1_0000 && t / 512 == y && t / 32 % 16 == m && t % 32 == d
  {
    var t := y * 512 + m * 32 + d;
    DivIs(t, 512, y);
    DivIs(t, 32, y * 16 + m);
  }

  lemma DayTime(rem: int)
    requires 0 <= rem < 86400
    ensures 0 <= Hour(rem) < 24 && 0 <= Minute(rem) < 60 && 0 <= Second(rem) < 60
    ensures Hour(rem) * 3600 + Minute(rem) * 60 + Second(rem) == rem
  {
  }

  /** The year a stamp keeps: clamped below, seven bits above 1980. */
  function KeptYear(year: int): int { if year < 1980 then 1980 else 1980 + (year - 1980) % 128 }

  lemma KeptIff(year: int)
    ensures 1980 <= KeptYear(year) <= 2107 && (KeptYear(year) == year <==> 1980 <= year <= 2107)
  {
  }

  /** The sixteen bits of a date. */
  lemma DateBits(year: int, month: int, day: int)
    requires 1 <= month <= 12 && 1 <= day <= 31
    ensures var y := if year < 1980 then 1980 else year;
            var t := ((y - 1980) * 512 + month * 32 + day) % 0x1_0000;
            t != 0 && 1980 + t / 512 == KeptYear(year) && t / 32 % 16 == month && t % 32 == day
  {
    KeptIff(year);
    DateFields(KeptYear(year) - 1980, month, day);
    WrapYear(if year < 1980 then 0 else year - 1980, month * 32 + day);
  }

  /** The fields of a stamp, read back. */
  lemma StampFields(secs: nat)
    ensures var (c, rem, t) := (CivilFromDays(secs / 86400), secs % 86400, StampOf(secs));
            && t.date != 0 && 1980 + t.date / 512 == KeptYear(c.year) && t.date / 32 % 16 == c.month && t.date % 32 == c.day
            && t.time / 2048 == Hour(rem) && t.time / 32 % 64 == Minute(rem) && t.time % 32 == Second(rem) / 2
  {
    hide CivilFromDays, DaysFromCivil, Hour, Minute, Second, KeptYear;
    var rem := secs % 86400;
    CivilRoundTrip(secs / 86400);
    DayTime(rem);
    var c := CivilFromDays(secs / 86400);
    TimeFields(Hour(rem), Minute(rem), Second(rem) / 2);
    DateBits(c.year, c.month, c.day);
  }

  lemma DecodeKept(secs: nat)
    ensures var c := CivilFromDays(secs / 86400);
            Decode(StampOf(secs)) == DaysFromCivil(KeptYear(c.year), c.month, c.day) * 86400 + secs % 86400 - secs % 2
  {
    var (days, rem) := (secs / 86400, secs % 86400);
    CivilRoundTrip(days);
    DayTime(rem);
    StampFields(secs);
    var (h, m, s) := (Hour(rem), Minute(rem), Second(rem));
    EvenParts(secs, days, rem, h, m, s);
    hide CivilFromDays, DaysFromCivil, Hour, Minute, Second, StampOf, KeptYear;
    assert s / 2 * 2 == s - s % 2;
  }

  /** What decoding a stamp gives, for every instant: the second rounded down to even, on the same date of the year clamped
      below to 1980 and kept to seven bits above it. */
  lemma DecodeStamp(secs: nat)
    ensures var c := CivilFromDays(secs / 86400);
            var year := if c.year < 1980 then 1980 else 1980 + (c.year - 1980) % 128;
            Decode(StampOf(secs)) == DaysFromCivil(year, c.month, c.day) * 86400 + secs % 86400 - secs % 2
  {
    hide CivilFromDays, DaysFromCivil, StampOf, Decode;
    DecodeKept(secs);
  }

  lemma WrapYear(y: nat, rest: nat)
    requires rest < 512
    ensures (y * 512 + rest) % 0x1_0000 == (y % 128) * 512 + rest
  {
    var q := y / 128;
    DivIs(y * 512 + rest, 0x1_0000, q);
  }

  lemma EvenParts(secs: nat, days: nat, rem: int, h: int, m: int, s: int)
    requires secs == days * 86400 + rem && rem == h * 3600 + m * 60 + s && 0 <= s < 60
    ensures secs % 2 == rem % 2 == s % 2
  {
    SameParity(secs, days * 43200, rem);
    SameParity(rem, h * 1800 + m * 30, s);
  }

  lemma SameParity(a: int, k: int, b: int)
    requires a == 2 * k + b
    ensures a % 2 == b % 2
  {
  }

  /** Dates grow with the year. */
  lemma DaysGrow(a: int, b: int, month: int, day: int)
    requires a < b
    ensures DaysFromCivil(a, month, day) < DaysFromCivil(b, month, day)
  {
    var (x, y) := (if month <= 2 then a - 1 else a, if month <= 2 then b - 1 else b);
    YearDays(x);
    YearDays(y);
  }

  /** A year's first day, era by era or all at once. */
  lemma YearDays(y: int)
    ensures var (era, yoe) := (y / 400, y - y / 400 * 400);
            era * ERA + yoe * 365 + yoe / 4 - yoe / 100 == 365 * y + y / 4 - y / 100 + y / 400
  {
    var (era, yoe) := (y / 400, y - y / 400 * 400);
    DivIs(y, 4, era * 100 + yoe / 4);
    DivIs(y, 100, era * 4 + yoe / 100);
  }

  /** A date falls between its year's first day and the next year's. */
  lemma WithinYear(year: int, month: int, day: int)
    requires 1 <= month <= 12 && 1 <= day <= 31
    ensures DaysFromCivil(year, 1, 1) <= DaysFromCivil(year, month, day) < DaysFromCivil(year + 1, 1, 1)
  {
    YearDays(year - 1);
    YearDays(year);
  }

  /** The day after, by the calendar alone. */
  function DayAfter(c: Civil): Civil {
    if c.day < DaysInMonth(c.year, c.month) then c.(day := c.day + 1)
    else if c.month < 12 then Civil(c.year, c.month + 1, 1)
    else Civil(c.year + 1, 1, 1)
  }

  /** A leap year counts a day more than the others. */
  lemma LeapCounts(y: int)
    ensures (y + 1) / 4 - (y + 1) / 100 + (y + 1) / 400 == y / 4 - y / 100 + y / 400 + if Leap(y + 1) then 1 else 0
  {
    StepDiv(y, 4);
    StepDiv(y, 100);
    StepDiv(y, 400);
    assert (y + 1) % 400 == 0 ==> (y + 1) % 100 == 0;
    assert (y + 1) % 100 == 0 ==> (y + 1) % 4 == 0;
  }

  lemma StepDiv(y: int, d: int)
    requires d > 1
    ensures (y + 1) / d == y / d + if (y + 1) % d == 0 then 1 else 0
  {
    var (q, r) := (y / d, y % d);
    assert y == q * d + r;
    if r + 1 == d {
      assert y + 1 == (q + 1) * d;
      DivIs(y + 1, d, q + 1);
      assert (y + 1) % d == y + 1 - (y + 1) / d * d;
    } else {
      DivIs(y + 1, d, q);
      assert (y + 1) % d == y + 1 - (y + 1) / d * d;
    }
  }

  /** Days before 1 March of a year, and from there before the first of a month. */
  function MarchFirst(y: int): int { 365 * y + y / 4 - y / 100 + y / 400 }

  function MonthStart(month: int): int { (153 * (month + (if month > 2 then -3 else 9)) + 2) / 5 }

  lemma DaysAre(year: int, month: int, day: int)
    ensures DaysFromCivil(year, month, day)
            == MarchFirst(if month <= 2 then year - 1 else year) + MonthStart(month) + day - 1 - SHIFT
  {
    YearDays(if month <= 2 then year - 1 else year);
  }

  lemma MonthsFollow(year: int, month: int)
    requires 1 <= month <= 12 && month != 2
    ensures MonthStart(if month < 12 then month + 1 else 1) == MonthStart(month) + DaysInMonth(year, month)
  {
  }

  /** Day numbers count days: 1 January 1970 is day 0, and each day's successor in the calendar has the next number. */
  lemma DaysCount(c: Civil)
    requires IsDate(c)
    ensures var n := DayAfter(c); IsDate(n) && DaysFromCivil(n.year, n.month, n.day) == DaysFromCivil(c.year, c.month, c.day) + 1
    ensures DaysFromCivil(1970, 1, 1) == 0
  {
    hide DaysFromCivil, MonthStart, MarchFirst, Leap;
    var n := DayAfter(c);
    DayZero();
    DaysAre(c.year, c.month, c.day);
    DaysAre(n.year, n.month, n.day);
    if c.day == DaysInMonth(c.year, c.month) {
      if c.month == 2 { FebruaryEnds(c.year); } else { MonthsFollow(c.year, c.month); }
    }
  }

  lemma DayZero()
    ensures DaysFromCivil(1970, 1, 1) == 0
  {
  }

  lemma FebruaryEnds(year: int)
    ensures MarchFirst(year) + MonthStart(3) == MarchFirst(year - 1) + MonthStart(2) + DaysInMonth(year, 2)
  {
    LeapCounts(year - 1);
  }

  lemma FirstDays()
    ensures DaysFromCivil(1980, 1, 1) == 3652 && DaysFromCivil(2108, 1, 1) == 50403
  {
  }

  /** The years 1980 through 2107 are the days from 3652 on, before 50403. */
  lemma YearsAreDays(days: nat)
    ensures 1980 <= CivilFromDays(days).year <= 2107 <==> 3652 <= days < 50403
  {
    hide CivilFromDays, DaysFromCivil;
    CivilRoundTrip(days);
    var c := CivilFromDays(days);
    WithinYear(c.year, c.month, c.day);
    FirstDays();
    if c.year + 1 < 1980 { DaysGrow(c.year + 1, 1980, 1, 1); }
    if 1980 < c.year { DaysGrow(1980, c.year, 1, 1); }
    if c.year + 1 < 2108 { DaysGrow(c.year + 1, 2108, 1, 1); }
    if 2108 < c.year { DaysGrow(2108, c.year, 1, 1); }
  }

  /** A stamp decodes to its instant, rounded down to even, exactly on the days of the years 1980 through 2107. */
  lemma StampRoundTrip(secs: nat)
    ensures Decode(StampOf(secs)) == secs - secs % 2 <==> 3652 <= secs / 86400 < 50403
    ensures 3652 <= secs / 86400 < 50403 <==> 1980 <= CivilFromDays(secs / 86400).year <= 2107
  {
    hide CivilFromDays, StampOf, Decode, DaysFromCivil, KeptYear;
    DecodeKept(secs);
    YearsAreDays(secs / 86400);
    CivilRoundTrip(secs / 86400);
    var c := CivilFromDays(secs / 86400);
    KeptIff(c.year);
    if c.year < KeptYear(c.year) { DaysGrow(c.year, KeptYear(c.year), c.month, c.day); }
    if KeptYear(c.year) < c.year { DaysGrow(KeptYear(c.year), c.year, c.month, c.day); }
  }

  /** The first instant of 1970 and the first of 2108 do not survive. */
  lemma StampsThatMove()
    ensures Decode(StampOf(0)) != 0 && Decode(StampOf(50403 * 86400)) != 50403 * 86400
  {
    hide StampOf, Decode, CivilFromDays;
    StampRoundTrip(0);
    StampRoundTrip(50403 * 86400);
  }

  /** A stamp whose fields are a date of the calendar and a time of the day. */
  predicate IsStamp(s: Stamp) {
    && s.date < 0x1_0000 && s.time < 0x1_0000 && IsDate(Civil(1980 + s.date / 512, s.date / 32 % 16, s.date % 32))
    && s.time / 2048 < 24 && s.time / 32 % 64 < 60 && s.time % 32 < 30
  }

  lemma StampedDays(year: int, month: int, day: int)
    requires year >= 1980 && 1 <= month <= 12 && 1 <= day <= 31
    ensures DaysFromCivil(year, month, day) >= 3652
  {
    hide DaysFromCivil;
    WithinYear(year, month, day);
    FirstDays();
    if year > 1980 { DaysGrow(1980, year, 1, 1); }
  }

  lemma SplitSeconds(days: nat, h: nat, m: nat, s: nat)
    requires h < 24 && m < 60 && s < 60
    ensures var secs := days * 86400 + h * 3600 + m * 60 + s;
            secs / 86400 == days && Hour(secs % 86400) == h && Minute(secs % 86400) == m && Second(secs % 86400) == s
  {
    var rem := h * 3600 + m * 60 + s;
    DivIs(days * 86400 + rem, 86400, days);
    DivIs(rem, 3600, h);
    DivIs(m * 60 + s, 60, m);
    DivIs(rem, 60, h * 60 + m);
    assert (days * 86400 + rem) % 86400 == days * 86400 + rem - days * 86400;
  }

  lemma JoinFields(b: nat)
    ensures b == b / 512 * 512 + b / 32 % 16 * 32 + b % 32 && b == b / 2048 * 2048 + b / 32 % 64 * 32 + b % 32
  {
    var (x, y) := (b / 32, b % 32);
    var (p, q, r, t) := (x / 16, x % 16, x / 64, x % 64);
    assert b == x * 32 + y && x == p * 16 + q && x == r * 64 + t;
    DivIs(b, 512, p);
    DivIs(b, 2048, r);
  }

  /** The stamp of an instant given by its parts. */
  lemma StampOfParts(secs: nat, c: Civil, h: nat, m: nat, half: nat)
    requires CivilFromDays(secs / 86400) == c && 1980 <= c.year <= 2107 && 1 <= c.month <= 12 && 1 <= c.day <= 31
    requires Hour(secs % 86400) == h < 24 && Minute(secs % 86400) == m < 60 && Second(secs % 86400) == half * 2 < 60
    ensures StampOf(secs) == Stamp((c.year - 1980) * 512 + c.month * 32 + c.day, h * 2048 + m * 32 + half)
  {
    hide CivilFromDays, Hour, Minute, Second;
    DateFields(c.year - 1980, c.month, c.day);
    TimeFields(h, m, half);
    SmallMod((c.year - 1980) * 512 + c.month * 32 + c.day);
    SmallMod(h * 2048 + m * 32 + half);
  }

  lemma SmallMod(x: int)
    requires 0 <= x < 0x1_0000
    ensures x % 0x1_0000 == x
  {
  }

  lemma StampOfInstant(days: nat, c: Civil, h: nat, m: nat, half: nat)
    requires CivilFromDays(days) == c && 1980 <= c.year <= 2107 && 1 <= c.month <= 12 && 1 <= c.day <= 31
    requires h < 24 && m < 60 && half < 30
    ensures StampOf(days * 86400 + h * 3600 + m * 60 + half * 2)
            == Stamp((c.year - 1980) * 512 + c.month * 32 + c.day, h * 2048 + m * 32 + half)
  {
    hide CivilFromDays, StampOf, Hour, Minute, Second;
    SplitSeconds(days, h, m, half * 2);
    StampOfParts(days * 86400 + h * 3600 + m * 60 + half * 2, c, h, m, half);
  }

  lemma DecodeParts(s: Stamp)
    requires IsStamp(s)
    ensures Decode(s) == DaysFromCivil(1980 + s.date / 512, s.date / 32 % 16, s.date % 32) * 86400
                         + s.time / 2048 * 3600 + s.time / 32 % 64 * 60 + s.time % 32 * 2
  {
    hide DaysFromCivil, Leap;
  }

  lemma FieldsOf(s: Stamp) returns (c: Civil, h: nat, m: nat, half: nat)
    requires IsStamp(s)
    ensures IsDate(c) && 1980 <= c.year <= 2107 && c.day <= 31 && h < 24 && m < 60 && half < 30
    ensures s == Stamp((c.year - 1980) * 512 + c.month * 32 + c.day, h * 2048 + m * 32 + half)
    ensures Decode(s) == DaysFromCivil(c.year, c.month, c.day) * 86400 + h * 3600 + m * 60 + half * 2
  {
    hide DaysFromCivil, Leap, Decode;
    c := Civil(1980 + s.date / 512, s.date / 32 % 16, s.date % 32);
    h, m, half := s.time / 2048, s.time / 32 % 64, s.time % 32;
    DecodeParts(s);
    JoinFields(s.date);
    JoinFields(s.time);
    FieldsInRange(s.date);
  }

  /** The converse trip: every proper stamp is the stamp of the instant it decodes to. */
  lemma StampBack(s: Stamp)
    requires IsStamp(s)
    ensures Decode(s) >= 0 && StampOf(Decode(s)) == s
  {
    hide *;
    var c, h, m, half := FieldsOf(s);
    BackParts(c, h, m, half);
  }

  lemma FieldsInRange(date: nat)
    requires date < 0x1_0000
    ensures 1980 <= 1980 + date / 512 <= 2107 && date % 32 <= 31
  {
  }

  lemma BackParts(c: Civil, h: nat, m: nat, half: nat)
    requires IsDate(c) && 1980 <= c.year <= 2107 && c.day <= 31 && h < 24 && m < 60 && half < 30
    ensures var t := DaysFromCivil(c.year, c.month, c.day) * 86400 + h * 3600 + m * 60 + half * 2;
            t >= 0 && StampOf(t) == Stamp((c.year - 1980) * 512 + c.month * 32 + c.day, h * 2048 + m * 32 + half)
  {
    assert 1 <= c.month <= 12 && 1 <= c.day;
    hide DaysFromCivil, CivilFromDays, StampOf, IsDate;
    StampedDays(c.year, c.month, c.day);
    DaysRoundTrip(c);
    StampOfInstant(DaysFromCivil(c.year, c.month, c.day), c, h, m, half);
  }

  /** A stamp without a proper month or day decodes to 0. */
  lemma RefusedStamp(s: Stamp)
    requires s.date == 0 || s.date / 32 % 16 == 0 || s.date / 32 % 16 > 12 || s.date % 32 == 0
    ensures Decode(s) == 0
  {
  }
}
