/**
 * Calendar arithmetic: the day counts and epochs of include/esdtime.h, and the timezone
 * shift of drivers/rtc.c that carries days through a table of month lengths.
 */
module Calendar {
  import opened Common

  /** Division as C does it, towards zero. */
  function Truncated(a: int, b: int): int
    requires b > 0
  {
    if a >= 0 then a / b else -(-a / b)
  }

  predicate IsLeap(y: int) { (y % 4 == 0 && y % 100 != 0) || y % 400 == 0 }

  function DaysInMonth(m: int, y: int): int {
    if m == 2 then (if IsLeap(y) then 29 else 28)
    else if m == 4 || m == 6 || m == 9 || m == 11 then 30
    else 31
  }

  predicate ValidDate(y: int, m: int, d: int) { 1 <= m <= 12 && 1 <= d <= DaysInMonth(m, y) }

  // ---- Days and dates, as the code computes them ---------------------------------------------

  /** Days before a year of an era, both starting in March. */
  function EraStart(yoe: int): int { yoe * 365 + yoe / 4 - yoe / 100 }

  /** Days before a month of a year that starts in March. */
  function MonthStart(mp: int): int { (153 * mp + 2) / 5 }

  function DaysFromCivil(y: int, m: int, d: int): int {
    var y1 := if m <= 2 then y - 1 else y;
    var era := Truncated(if y1 >= 0 then y1 else y1 - 399, 400);
    var yoe := y1 - era * 400;
    var doy := MonthStart(m + (if m > 2 then -3 else 9)) + d - 1;
    era * 146097 + (EraStart(yoe) + doy) - 719468
  }

  function YearOfEra(doe: int): int { (doe - doe / 1460 + doe / 36524 - doe / 146096) / 365 }

  function CivilFromDays(days: int): (int, int, int) {
    var z := days + 719468;
    var era := Truncated(if z >= 0 then z else z - 146096, 146097);
    var doe := z - era * 146097;
    var yoe := YearOfEra(doe);
    var doy := doe - EraStart(yoe);
    var mp := (5 * doy + 2) / 153;
    var m := mp + (if mp < 10 then 3 else -9);
    (yoe + era * 400 + (if m <= 2 then 1 else 0), m, doy - MonthStart(mp) + 1)
  }

  // ---- Years -----------------------------------------------------------------------------------

  lemma ErasAreFloors(y: int, z: int)
    ensures Truncated(if y >= 0 then y else y - 399, 400) == y / 400
    ensures Truncated(if z >= 0 then z else z - 146096, 146097) == z / 146097
  {
  }

  /** The length of a year of an era that starts in March: its February belongs to the next civil year. */
  function YearLength(yoe: int): int { if IsLeap(yoe + 1) then 366 else 365 }

  /** A day of an era as a century, a four-year cycle in it, and a day in that. */
  predicate InEra(c: int, q: int, v: int) {
    0 <= c < 4 && 0 <= q < 25 && 0 <= v < 1461 && (q == 24 && c < 3 ==> v < 1460)
  }

  lemma CyclesOf(doe: int) returns (c: int, q: int, v: int)
    requires 0 <= doe < 146097
    ensures InEra(c, q, v) && doe == c * 36524 + q * 1461 + v
  {
    c := if doe == 146096 then 3 else doe / 36524;
    q := (doe - c * 36524) / 1461;
    v := (doe - c * 36524) % 1461;
  }

  /** The quotients in the year formula count those cycles, give or take one. */
  lemma Quotients(c: int, q: int, v: int)
    requires InEra(c, q, v)
    ensures var doe := c * 36524 + q * 1461 + v;
            && doe / 1460 == 25 * c + q + (if 24 * c + q + v >= 1460 then 1 else 0)
            && doe / 36524 - doe / 146096 == c
  {
  }

  lemma YearInCycles(c: int, q: int, v: int)
    requires InEra(c, q, v)
    ensures var t := if v / 365 > 3 then 3 else v / 365;
            YearOfEra(c * 36524 + q * 1461 + v) == 100 * c + 4 * q + t
  {
    Quotients(c, q, v);
  }

  lemma StartInCycles(c: int, q: int, t: int)
    requires 0 <= c < 4 && 0 <= q < 25 && 0 <= t < 4
    ensures EraStart(100 * c + 4 * q + t) == c * 36524 + q * 1461 + t * 365
  {
  }

  /** The year found for a day of an era is the one the day falls in. */
  lemma YearOfEraBrackets(doe: int)
    requires 0 <= doe < 146097
    ensures 0 <= YearOfEra(doe) < 400
    ensures EraStart(YearOfEra(doe)) <= doe < EraStart(YearOfEra(doe)) + YearLength(YearOfEra(doe))
  {
    var c, q, v := CyclesOf(doe);
    var t := if v / 365 > 3 then 3 else v / 365;
    YearInCycles(c, q, v);
    StartInCycles(c, q, t);
    hide YearOfEra, EraStart, IsLeap;
    if v == 1460 {
      LastOfCycle(c, q);
    }
  }

  lemma LastOfCycle(c: int, q: int)
    requires 0 <= c < 4 && 0 <= q < 25 && (c == 3 || q < 24)
    ensures IsLeap(100 * c + 4 * q + 4)
  {
  }

  lemma MonthOfYear(doy: int)
    requires 0 <= doy < 366
    ensures var mp := (5 * doy + 2) / 153;
            0 <= mp < 12 && MonthStart(mp) <= doy && (mp < 11 ==> doy < MonthStart(mp + 1))
  {
  }

  // ---- In terms of March years -----------------------------------------------------------------

  /** Days before a year that starts in March, over all eras. */
  function YearStart(y: int): int { y * 365 + y / 4 - y / 100 + y / 400 }

  lemma YearStartByEra(y: int)
    ensures y / 400 * 146097 + EraStart(y - y / 400 * 400) == YearStart(y)
  {
    var e, r := y / 400, y - y / 400 * 400;
    Quarters(e, r);
    Hundredths(e, r);
  }

  lemma Quarters(e: int, r: int)
    ensures (400 * e + r) / 4 == 100 * e + r / 4
  {
    assert 400 * e + r == 4 * (100 * e + r / 4) + r % 4;
  }

  lemma Hundredths(e: int, r: int)
    ensures (400 * e + r) / 100 == 4 * e + r / 100
  {
    assert 400 * e + r == 100 * (4 * e + r / 100) + r % 100;
  }

  lemma YearStartStep(y: int)
    ensures YearStart(y + 1) == YearStart(y) + YearLength(y)
  {
    QuotientSteps(y);
    LeapYearsNest(y + 1);
  }

  lemma QuotientSteps(y: int)
    ensures (y + 1) / 4 == y / 4 + (if (y + 1) % 4 == 0 then 1 else 0)
    ensures (y + 1) / 100 == y / 100 + (if (y + 1) % 100 == 0 then 1 else 0)
    ensures (y + 1) / 400 == y / 400 + (if (y + 1) % 400 == 0 then 1 else 0)
  {
  }

  lemma LeapYearsNest(y: int)
    ensures y % 400 == 0 ==> y % 100 == 0
    ensures y % 100 == 0 ==> y % 4 == 0
  {
  }

  function March(y: int, m: int): int { if m <= 2 then y - 1 else y }

  function MarchMonth(m: int): int { if m > 2 then m - 3 else m + 9 }

  /** The day count, without eras. */
  lemma DaysAre(y: int, m: int, d: int)
    ensures DaysFromCivil(y, m, d) == YearStart(March(y, m)) + MonthStart(MarchMonth(m)) + d - 1 - 719468
  {
    ErasAreFloors(March(y, m), 0);
    YearStartByEra(March(y, m));
    hide Truncated, EraStart, YearStart, MonthStart;
  }

  /** A date by its era, its year in it, and its day in a year that starts in March. */
  function CivilOf(era: int, yoe: int, doy: int): (int, int, int) {
    var mp := (5 * doy + 2) / 153;
    var m := mp + (if mp < 10 then 3 else -9);
    (yoe + era * 400 + (if m <= 2 then 1 else 0), m, doy - MonthStart(mp) + 1)
  }

  lemma CivilParts(days: int) returns (era: int, yoe: int, doy: int)
    ensures 0 <= yoe < 400 && 0 <= doy < YearLength(yoe)
    ensures days + 719468 == era * 146097 + EraStart(yoe) + doy
    ensures CivilFromDays(days) == CivilOf(era, yoe, doy)
  {
    hide Truncated, YearOfEra, EraStart, MonthStart, YearLength;
    var z := days + 719468;
    ErasAreFloors(0, z);
    era := z / 146097;
    YearOfEraBrackets(z - era * 146097);
    yoe := YearOfEra(z - era * 146097);
    doy := z - era * 146097 - EraStart(yoe);
  }

  lemma CivilOfIsValid(era: int, yoe: int, doy: int)
    requires 0 <= yoe < 400 && 0 <= doy < YearLength(yoe)
    ensures var (y, m, d) := CivilOf(era, yoe, doy);
            && ValidDate(y, m, d) && March(y, m) == yoe + era * 400 && MonthStart(MarchMonth(m)) + d - 1 == doy
  {
    MonthOfYear(doy);
    MonthLengths((5 * doy + 2) / 153, doy, YearLength(yoe));
    YearLengths(yoe + 1, era);
    hide MonthStart, IsLeap;
  }

  lemma YearLengths(x: int, era: int)
    ensures IsLeap(x + era * 400) == IsLeap(x)
  {
    SameIn400(x, era);
    SameIn100(x, 4 * era);
    SameIn4(x, 100 * era);
  }

  lemma SameIn400(x: int, k: int)
    ensures (x + k * 400) % 400 == x % 400
  {
  }

  lemma SameIn100(x: int, k: int)
    ensures (x + k * 100) % 100 == x % 100
  {
  }

  lemma SameIn4(x: int, k: int)
    ensures (x + k * 4) % 4 == x % 4
  {
  }

  lemma YearStartInEra(yoe: int, era: int)
    requires 0 <= yoe < 400
    ensures YearStart(yoe + era * 400) == era * 146097 + EraStart(yoe)
  {
    assert (yoe + era * 400) / 400 == era;
    hide YearStart, EraStart;
    YearStartByEra(yoe + era * 400);
  }

  /** Day counts are taken to dates that are valid and count the same. */
  lemma DaysOfCivil(days: int)
    ensures var (y, m, d) := CivilFromDays(days);
            ValidDate(y, m, d) && DaysFromCivil(y, m, d) == days
  {
    hide *;
    var era, yoe, doy := CivilParts(days);
    CivilOfIsValid(era, yoe, doy);
    YearStartInEra(yoe, era);
    var (y, m, d) := CivilFromDays(days);
    DaysAre(y, m, d);
  }

  /** A day of a year falls inside its month. */
  lemma MonthLengths(mp: int, doy: int, length: int)
    requires 0 <= mp < 12 && MonthStart(mp) <= doy < length && (length == 365 || length == 366)
    requires mp < 11 ==> doy < MonthStart(mp + 1)
    ensures var d := doy - MonthStart(mp) + 1;
            1 <= d <= if mp == 11 then length - 337 else if mp == 1 || mp == 3 || mp == 6 || mp == 8 then 30 else 31
  {
  }

  // ---- Dates and back ----------------------------------------------------------------------------

  lemma {:induction false} YearStartRises(a: int, b: int)
    requires a < b
    ensures YearStart(a) + YearLength(a) <= YearStart(b)
    decreases b - a
  {
    YearStartStep(b - 1);
    hide YearStart;
    if a < b - 1 {
      YearStartRises(a, b - 1);
    }
  }

  /** The day of a March year that a valid date is. */
  lemma DayOfYear(y: int, m: int, d: int)
    requires ValidDate(y, m, d)
    ensures var doy := MonthStart(MarchMonth(m)) + d - 1;
            0 <= doy < YearLength(March(y, m)) && (m != 2 ==> doy < MonthStart(MarchMonth(m) + 1))
  {
    hide IsLeap;
  }

  lemma MonthsApart(a: int, b: int)
    requires 0 <= a < b < 12
    ensures MonthStart(a + 1) <= MonthStart(b)
  {
  }

  lemma SameDay(y: int, m: int, d: int, y': int, m': int, d': int)
    requires ValidDate(y, m, d) && ValidDate(y', m', d') && DaysFromCivil(y, m, d) == DaysFromCivil(y', m', d')
    ensures (y, m, d) == (y', m', d')
  {
    hide DaysFromCivil, YearStart, YearLength, MonthStart, DaysInMonth;
    DaysAre(y, m, d);
    DaysAre(y', m', d');
    DayOfYear(y, m, d);
    DayOfYear(y', m', d');
    var a, b := March(y, m), March(y', m');
    if a < b {
      YearStartRises(a, b);
    } else if b < a {
      YearStartRises(b, a);
    }
    var p, q := MarchMonth(m), MarchMonth(m');
    if p < q {
      MonthsApart(p, q);
    } else if q < p {
      MonthsApart(q, p);
    }
  }

  /** A valid date is taken back from its day count. */
  lemma CivilOfDays(y: int, m: int, d: int)
    requires ValidDate(y, m, d)
    ensures CivilFromDays(DaysFromCivil(y, m, d)) == (y, m, d)
  {
    hide *;
    var n := DaysFromCivil(y, m, d);
    var (y', m', d') := CivilFromDays(n);
    DaysOfCivil(n);
    SameDay(y, m, d, y', m', d');
  }

  // ---- One day on, one day back --------------------------------------------------------------------

  /** The day after, by the table of month lengths. */
  function NextDay(y: int, m: int, d: int): (int, int, int) {
    if d + 1 <= DaysInMonth(m, y) then (y, m, d + 1)
    else if m < 12 then (y, m + 1, 1)
    else (y + 1, 1, 1)
  }

  function PreviousDay(y: int, m: int, d: int): (int, int, int) {
    if d > 1 then (y, m, d - 1)
    else if m > 1 then (y, m - 1, DaysInMonth(m - 1, y))
    else (y - 1, 12, DaysInMonth(12, y - 1))
  }

  /** The count starts at zero on the first of January 1970; with one more each day, that fixes it. */
  lemma EpochDay()
    ensures DaysFromCivil(1970, 1, 1) == 0 && CivilFromDays(0) == (1970, 1, 1)
  {
    assert YearStart(1969) == 719162 && MonthStart(10) == 306;
    hide DaysFromCivil, CivilFromDays, YearStart, MonthStart;
    DaysAre(1970, 1, 1);
    CivilOfDays(1970, 1, 1);
  }

  lemma NextDayCounts(y: int, m: int, d: int)
    requires ValidDate(y, m, d)
    ensures var (y', m', d') := NextDay(y, m, d);
            ValidDate(y', m', d') && DaysFromCivil(y', m', d') == DaysFromCivil(y, m, d) + 1
  {
    var (y', m', d') := NextDay(y, m, d);
    DaysAre(y, m, d);
    DaysAre(y', m', d');
    YearStartStep(y - 1);
    hide DaysFromCivil, YearStart, IsLeap;
  }

  lemma PreviousDayCounts(y: int, m: int, d: int)
    requires ValidDate(y, m, d)
    ensures var (y', m', d') := PreviousDay(y, m, d);
            ValidDate(y', m', d') && DaysFromCivil(y', m', d') == DaysFromCivil(y, m, d) - 1
  {
    var (y', m', d') := PreviousDay(y, m, d);
    assert NextDay(y', m', d') == (y, m, d);
    NextDayCounts(y', m', d');
  }

  // ---- Wall-clock times and epochs -----------------------------------------------------------------

  /** Broken-down time, `tz` hours ahead of UTC. */
  datatype Time = Time(year: nat, month: nat, day: nat, hour: nat, minute: nat, second: nat, tz: int)

  predicate ValidTime(t: Time) {
    ValidDate(t.year, t.month, t.day) && t.year < 65536 && t.hour < 24 && t.minute < 60 && t.second < 60 && -128 <= t.tz < 128
  }

  /** Seconds since 1970 in UTC, before it negative. */
  function Instant(t: Time): int {
    DaysFromCivil(t.year, t.month, t.day) * 86400 + t.hour * 3600 + t.minute * 60 + t.second - t.tz * 3600
  }

  /** The instant in 32 bits, or zero before 1970. */
  function Epoch(t: Time): U32 { if t.year < 1970 || Instant(t) < 0 then 0 else Instant(t) % TWO32 }

  method ToEpoch(t: Time) returns (e: U32)
    ensures e == Epoch(t)
  {
    hide DaysFromCivil;
    if t.year < 1970 {
      return 0;
    }
    var days := DaysFromCivil(t.year, t.month, t.day);
    var secs := t.hour * 3600 + t.minute * 60 + t.second - t.tz * 3600;
    while secs < 0
      invariant days * 86400 + secs == Instant(t)
      decreases -secs
    {
      secs := secs + 86400;
      days := days - 1;
    }
    while secs >= 86400
      invariant secs >= 0 && days * 86400 + secs == Instant(t)
    {
      secs := secs - 86400;
      days := days + 1;
    }
    if days < 0 {
      return 0;
    }
    e := (days * 86400 % TWO32 + secs) % TWO32;
  }

  function FromEpoch(e: U32): Time {
    var (y, m, d) := CivilFromDays(e / 86400);
    var rem := e % 86400;
    Time(y % 65536, m % 256, d % 256, rem / 3600, rem % 3600 / 60, rem % 60, 0)
  }

  /** Day counts of the years an epoch can reach. */
  lemma EpochYears(y: int, m: int, d: int)
    requires ValidDate(y, m, d) && 0 <= DaysFromCivil(y, m, d) <= 49710
    ensures 1970 <= y <= 2106
  {
    DaysAre(y, m, d);
    DayOfYear(y, m, d);
    assert YearStart(1969) == 719162 && YearStart(2106) == 769200;
    hide DaysFromCivil, YearStart, YearLength, IsLeap;
    var a := March(y, m);
    if a < 1969 {
      YearStartRises(a, 1969);
    }
    if a > 2106 {
      YearStartRises(2106, a);
      LengthPositive(2106);
    }
  }

  lemma LengthPositive(y: int)
    ensures YearLength(y) >= 365
  {
  }

  /** Every 32-bit epoch survives being broken down and put together again. */
  lemma EpochRoundTrip(e: U32)
    ensures ValidTime(FromEpoch(e)) && Epoch(FromEpoch(e)) == e
  {
    var (y, m, d) := CivilFromDays(e / 86400);
    DaysOfCivil(e / 86400);
    EpochYears(y, m, d);
    SecondsOfDay(e % 86400);
    FieldsFit(e);
    hide FromEpoch, DaysFromCivil, CivilFromDays, DaysInMonth;
    EpochOf(FromEpoch(e), e / 86400, e % 86400);
  }

  lemma FieldsFit(e: U32)
    requires var (y, m, d) := CivilFromDays(e / 86400); 1970 <= y <= 2106 && ValidDate(y, m, d)
    ensures var t, rem := FromEpoch(e), e % 86400;
            && (t.year, t.month, t.day) == CivilFromDays(e / 86400)
            && (t.hour, t.minute, t.second, t.tz) == (rem / 3600, rem % 3600 / 60, rem % 60, 0)
  {
    hide CivilFromDays, IsLeap;
  }

  lemma EpochOf(t: Time, days: nat, secs: nat)
    requires t.year >= 1970 && t.tz == 0 && DaysFromCivil(t.year, t.month, t.day) == days
    requires t.hour * 3600 + t.minute * 60 + t.second == secs && days * 86400 + secs < TWO32
    ensures Epoch(t) == days * 86400 + secs
  {
    hide DaysFromCivil;
  }

  lemma SecondsOfDay(s: nat)
    requires s < 86400
    ensures s / 3600 * 3600 + s % 3600 / 60 * 60 + s % 60 == s && s / 3600 < 24 && s % 3600 / 60 < 60
  {
    var r := s % 3600;
    assert s % 60 == r % 60 by {
      assert s == s / 3600 * 60 * 60 + r;
    }
  }

  // ---- Timezones -----------------------------------------------------------------------------------

  /** A number stored in sixteen bits. */
  function Uint16(x: int): nat { x % 65536 }

  lemma Uint16Exact(x: int)
    ensures Uint16(x) == x <==> 0 <= x < 65536
  {
  }

  /** A number stored in eight signed bits. */
  function Int8(x: int): int { (x + 128) % 256 - 128 }

  /** Hours since 1970 on the time's own clock. */
  function Hours(t: Time): int { DaysFromCivil(t.year, t.month, t.day) * 24 + t.hour }

  /** The date and hour some hours later, as the fields store them. */
  function Shifted(t: Time, offset: int): Time {
    var (y, m, d) := CivilFromDays((Hours(t) + offset) / 24);
    Time(Uint16(y), if m < 0 then 0 else m, if d < 0 then 0 else d, (Hours(t) + offset) % 24, t.minute, t.second, Int8(t.tz + offset))
  }

  /** The carry loops arrive at that date and hour, however far the offset takes them. */
  method ApplyTimezone(t: Time, offset: int) returns (r: Time)
    requires ValidDate(t.year, t.month, t.day)
    ensures r == Shifted(t, offset)
  {
    hide DaysFromCivil, CivilFromDays, IsLeap;
    var hour, day, month, year := t.hour + offset, t.day as int, t.month as int, t.year as int;
    while hour >= 24
      invariant ValidDate(year, month, day) && DaysFromCivil(year, month, day) * 24 + hour == Hours(t) + offset
    {
      NextDayCounts(year, month, day);
      hour := hour - 24;
      day := day + 1;
      if day > DaysInMonth(month, year) {
        day := 1;
        month := month + 1;
        if month > 12 {
          month := 1;
          year := year + 1;
        }
      }
    }
    while hour < 0
      invariant hour < 24 && ValidDate(year, month, day) && DaysFromCivil(year, month, day) * 24 + hour == Hours(t) + offset
      decreases -hour
    {
      PreviousDayCounts(year, month, day);
      hour := hour + 24;
      day := day - 1;
      if day < 1 {
        month := month - 1;
        if month < 1 {
          month := 12;
          year := year - 1;
        }
        day := DaysInMonth(month, year);
      }
    }
    CivilOfDays(year, month, day);
    r := Time(Uint16(year), month, day, hour, t.minute, t.second, Int8(t.tz + offset));
  }

  /** The year of the shifted date fits its sixteen bits. */
  predicate YearFits(t: Time, offset: int) { 0 <= CivilFromDays((Hours(t) + offset) / 24).0 < 65536 }

  /** How many days the stored date lies from the true one. */
  function DateSlip(t: Time, offset: int): int {
    var (y, m, d) := CivilFromDays((Hours(t) + offset) / 24);
    DaysFromCivil(Uint16(y), m, d) - (Hours(t) + offset) / 24
  }

  /**
   * The shift moves the instant by what its narrow fields lose: whole multiples of 256 hours
   * from the offset, and days from the year. Each on its own keeps it exactly when it fits.
   */
  lemma ShiftKeepsInstant(t: Time, offset: int)
    requires ValidTime(t)
    ensures Instant(Shifted(t, offset)) ==
            Instant(t) + (t.tz + offset - Int8(t.tz + offset)) * 3600 + DateSlip(t, offset) * 86400
    ensures DateSlip(t, offset) == 0 <==> YearFits(t, offset)
    ensures YearFits(t, offset) ==> (Instant(Shifted(t, offset)) == Instant(t) <==> -128 <= t.tz + offset < 128)
    ensures -128 <= t.tz + offset < 128 ==> (Instant(Shifted(t, offset)) == Instant(t) <==> YearFits(t, offset))
  {
    hide DaysFromCivil, CivilFromDays, Int8, Shifted, ValidTime, DateSlip, YearFits;
    ShiftedDate(t, offset);
    SlipExact(t, offset);
    HoursSplit(Hours(t) + offset);
    Int8Exact(t.tz + offset);
  }

  /** The shifted fields. */
  lemma ShiftedDate(t: Time, offset: int)
    ensures var r := Shifted(t, offset);
            && DaysFromCivil(r.year, r.month, r.day) == (Hours(t) + offset) / 24 + DateSlip(t, offset)
            && r.hour == (Hours(t) + offset) % 24
            && r.minute == t.minute && r.second == t.second && r.tz == Int8(t.tz + offset)
  {
    hide DaysFromCivil, CivilFromDays, DaysInMonth, Hours, Int8, Uint16;
    DaysOfCivil((Hours(t) + offset) / 24);
  }

  lemma SlipExact(t: Time, offset: int)
    ensures DateSlip(t, offset) == 0 <==> YearFits(t, offset)
  {
    hide DaysFromCivil, CivilFromDays, Hours, ValidDate;
    var n := (Hours(t) + offset) / 24;
    DaysOfCivil(n);
    var (y, m, d) := CivilFromDays(n);
    Uint16Exact(y);
    hide Uint16;
    YearsDiffer(y, Uint16(y), m, d);
  }

  /** The same day of different years is a different day. */
  lemma YearsDiffer(y: int, y': int, m: int, d: int)
    ensures DaysFromCivil(y, m, d) == DaysFromCivil(y', m, d) <==> y == y'
  {
    hide DaysFromCivil, YearStart, YearLength, MonthStart;
    DaysAre(y, m, d);
    DaysAre(y', m, d);
    var a, b := March(y, m), March(y', m);
    LengthPositive(a);
    LengthPositive(b);
    if a < b {
      YearStartRises(a, b);
    } else if b < a {
      YearStartRises(b, a);
    }
  }

  /** An hour more for a clock already 127 hours ahead: the instant moves by 256 hours. */
  lemma OffsetWraps(t: Time)
    requires ValidTime(t) && t.tz == 127 && t.hour < 23
    ensures Instant(Shifted(t, 1)) == Instant(t) + 256 * 3600
  {
    hide DaysFromCivil, CivilFromDays, Shifted, Instant, DaysInMonth;
    CivilOfDays(t.year, t.month, t.day);
    OneMoreHour(DaysFromCivil(t.year, t.month, t.day), t.hour);
    ShiftKeepsInstant(t, 1);
  }

  lemma OneMoreHour(n: int, hour: nat)
    requires hour < 23
    ensures (n * 24 + hour + 1) / 24 == n
  {
  }

  lemma HoursSplit(total: int)
    ensures total / 24 * 86400 + total % 24 * 3600 == total * 3600
  {
  }

  lemma Int8Exact(x: int)
    ensures Int8(x) == x <==> -128 <= x < 128
  {
  }

  /** What the narrow fields of a shifted time lose, in seconds. */
  function Moved(t: Time, offset: int): int {
    (t.tz + offset - Int8(t.tz + offset)) * 3600 + DateSlip(t, offset) * 86400
  }

  /** The time has an epoch of its own, rather than the zero that stands for every earlier one. */
  predicate Counts(t: Time) { t.year >= 1970 && Instant(t) >= 0 }

  /**
   * When a file's timestamp does not depend on the zone it was written in: of two times that
   * count, exactly when what the shift loses is a multiple of 2^32 seconds; of two that do not,
   * always; of one that counts and one that does not, exactly when the one that does is at zero.
   */
  lemma ShiftKeepsEpoch(t: Time, offset: int)
    requires ValidTime(t)
    ensures var s := Shifted(t, offset);
            Epoch(s) == Epoch(t) <==>
              if Counts(t) && Counts(s) then Moved(t, offset) % TWO32 == 0
              else if Counts(t) then Instant(t) % TWO32 == 0
              else if Counts(s) then Instant(s) % TWO32 == 0
              else true
    ensures YearFits(t, offset) && -128 <= t.tz + offset < 128 ==>
              (Epoch(Shifted(t, offset)) == Epoch(t) <==> Counts(t) == Counts(Shifted(t, offset)) || Instant(t) % TWO32 == 0)
  {
    hide Shifted, Instant, Moved, YearFits, ValidTime, CivilFromDays, DaysFromCivil;
    MovedBy(t, offset);
    SameRemainder(Instant(t), Moved(t, offset));
  }

  /**
   * So, where nothing is lost, a time since 1970 keeps its epoch exactly when the shift does not
   * take the local clock back before 1970, unless the epoch is zero anyway.
   */
  lemma EpochKeptExactly(t: Time, offset: int)
    requires ValidTime(t) && Counts(t) && YearFits(t, offset) && -128 <= t.tz + offset < 128
    ensures Epoch(Shifted(t, offset)) == Epoch(t) <==> Hours(t) + offset >= 0 || Epoch(t) == 0
  {
    hide *;
    ShiftedSince(t, offset);
    MovedBy(t, offset);
    ShiftKeepsEpoch(t, offset);
    CountsMeans(t);
    CountsMeans(Shifted(t, offset));
  }

  lemma CountsMeans(t: Time)
    ensures Counts(t) <==> t.year >= 1970 && Instant(t) >= 0
    ensures Epoch(t) == if Counts(t) then Instant(t) % TWO32 else 0
  {
    hide Instant;
  }

  lemma ShiftedSince(t: Time, offset: int)
    requires YearFits(t, offset)
    ensures Shifted(t, offset).year >= 1970 <==> Hours(t) + offset >= 0
  {
    hide CivilFromDays, Hours, Shifted;
    var h := Hours(t) + offset;
    YearOfDays(h / 24);
    ShiftedYear(t, offset, CivilFromDays(h / 24).0);
    assert h / 24 >= 0 <==> h >= 0;
  }

  lemma YearOfDays(days: int)
    ensures CivilFromDays(days).0 >= 1970 <==> days >= 0
  {
    var (y, m, d) := CivilFromDays(days);
    hide *;
    DaysOfCivil(days);
    DayOfYear(y, m, d);
    DaysAre(y, m, d);
    StartOf1970(y, m, d, MonthStart(MarchMonth(m)) + d - 1);
  }

  /** A year starting in March, and a day in it, against the first of January 1970. */
  lemma StartOf1970(y: int, m: int, d: int, doy: int)
    requires ValidDate(y, m, d) && doy == MonthStart(MarchMonth(m)) + d - 1 && 0 <= doy < YearLength(March(y, m))
    requires m != 2 ==> doy < MonthStart(MarchMonth(m) + 1)
    ensures y >= 1970 <==> YearStart(March(y, m)) + doy >= 719468
  {
    assert YearStart(1969) == 719162 && YearLength(1969) == 365;
    assert m > 2 ==> doy < 306;
    assert m <= 2 ==> doy >= 306;
    hide MonthStart, DaysInMonth, YearStart, YearLength;
    if March(y, m) < 1969 {
      YearStartRises(March(y, m), 1969);
    } else if March(y, m) > 1969 {
      YearStartRises(1969, March(y, m));
    }
  }

  /** The first hour there is, shifted an hour to the west: the instant is the same, and its epoch is lost. */
  lemma FirstHourLost(t: Time)
    requires ValidTime(t) && t.year == 1970 && t.month == 1 && t.day == 1 && t.hour == 0 && t.tz == 0
    ensures Epoch(t) == t.minute * 60 + t.second
    ensures Instant(Shifted(t, -1)) == Instant(t) && Epoch(Shifted(t, -1)) == 0
  {
    hide *;
    FirstHour(t);
    DayBefore();
    ShiftedYear(t, -1, 1969);
    MovedBy(t, -1);
    CountsMeans(t);
    CountsMeans(Shifted(t, -1));
  }

  lemma FirstHour(t: Time)
    requires ValidTime(t) && t.year == 1970 && t.month == 1 && t.day == 1 && t.hour == 0 && t.tz == 0
    ensures Hours(t) == 0 && Instant(t) == t.minute * 60 + t.second == Instant(t) % TWO32
  {
    hide DaysFromCivil, ValidDate, CivilFromDays;
    EpochDay();
    FewSeconds(t.minute * 60 + t.second);
  }

  lemma FewSeconds(s: nat)
    ensures s < 3600 ==> s % TWO32 == s
  {
  }

  lemma ShiftedYear(t: Time, offset: int, year: nat)
    requires CivilFromDays((Hours(t) + offset) / 24).0 == year < 65536
    ensures Shifted(t, offset).year == year && YearFits(t, offset)
  {
    hide CivilFromDays, Hours, Int8, Uint16;
    Uint16Exact(year);
  }

  lemma DayBefore()
    ensures CivilFromDays(-1) == (1969, 12, 31)
  {
    EpochDay();
    PreviousDayCounts(1970, 1, 1);
    hide DaysFromCivil, CivilFromDays;
    CivilOfDays(1969, 12, 31);
  }

  lemma MovedBy(t: Time, offset: int)
    requires ValidTime(t)
    ensures Instant(Shifted(t, offset)) == Instant(t) + Moved(t, offset)
    ensures YearFits(t, offset) && -128 <= t.tz + offset < 128 ==> Moved(t, offset) == 0
  {
    hide Shifted, Instant, YearFits, ValidTime, DateSlip, Int8;
    ShiftKeepsInstant(t, offset);
  }

  lemma SameRemainder(a: int, b: int)
    ensures (a + b) % TWO32 == a % TWO32 <==> b % TWO32 == 0
  {
  }
}
