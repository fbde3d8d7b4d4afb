/** Time as the application's `Date` values see it: an integer number of
    milliseconds since 1970-01-01 00:00 UTC. Day boundaries, weekdays and
    calendar dates are computed in UTC. */
module Clock {

  const HourMs: int := 3600000
  const DayMs: int := 86400000
  const WeekMs: int := 7 * DayMs

  /** Days since 1970-01-01 of the day containing `t`. */
  function DayOf(t: int): int
  {
    t / DayMs
  }

  /** `getDay()` of a day number: 0 is Sunday, 6 is Saturday
      (1970-01-01 was a Thursday). */
  function Weekday(day: int): (w: int)
    ensures 0 <= w < 7
  {
    (day + 4) % 7
  }

  /** `setDate(getDate() + n)`: the same time of day, `n` days later. */
  function AddDays(t: int, n: int): (r: int)
    ensures DayOf(r) == DayOf(t) + n && r % DayMs == t % DayMs
    ensures n > 0 ==> r > t
  {
    t + n * DayMs
  }

  /** Moving `n` days on moves the weekday `n` places on. */
  lemma WeekdayAddDays(t: int, n: int)
    ensures Weekday(DayOf(AddDays(t, n))) == (Weekday(DayOf(t)) + n) % 7
  {
    var d := DayOf(t);
    assert (d + n + 4) % 7 == ((d + 4) % 7 + n) % 7 by {
      var q := (d + 4) / 7;
      assert d + 4 == 7 * q + (d + 4) % 7;
      assert d + n + 4 == 7 * q + ((d + 4) % 7 + n);
    }
  }

  /** 00:00 of the Sunday on or before `now`: `now` with `setDate(getDate()
      - getDay())` and `setHours(0, 0, 0, 0)`. */
  function StartOfWeek(now: int): (s: int)
    ensures s <= now < s + WeekMs
    ensures s % DayMs == 0 && Weekday(DayOf(s)) == 0
    ensures DayOf(now) - DayOf(s) == Weekday(DayOf(now))
  {
    var d := DayOf(now);
    var w := Weekday(d);
    var s := (d - w) * DayMs;
    assert DayOf(s) == d - w;
    assert (d - w + 4) % 7 == 0 by {
      var q := (d + 4) / 7;
      assert d + 4 == 7 * q + w;
      assert d - w + 4 == 7 * q;
    }
    s
  }

  // ---- Civil calendar (proleptic Gregorian) ----

  /** Day number of year `y`, month index `monthIndex` (0 is January) and
      day of month `d`, as `Date` computes it (MakeDay of section 21.4.1 of
      ECMA-262): a month index outside 0 to 11 moves the year, and a day
      past the end of the month runs on into the next month. */
  function MakeDay(y: int, monthIndex: int, d: int): int
  {
    var yy := y + monthIndex / 12;
    var m := monthIndex % 12 + 1;
    var y' := if m <= 2 then yy - 1 else yy;
    var mp := if m > 2 then m - 3 else m + 9;
    var doy := (153 * mp + 2) / 5 + d - 1;
    365 * y' + y' / 4 - y' / 100 + y' / 400 + doy - 719468
  }

  datatype Civil = Civil(year: int, monthIndex: int, day: int)

  /** Year, month index and day of month of a day number. */
  function CivilFromDays(z: int): Civil
  {
    var z' := z + 719468;
    var era := z' / 146097;
    var doe := z' - era * 146097;
    var yoe := (doe - doe / 1460 + doe / 36524 - doe / 146096) / 365;
    var doy := doe - (365 * yoe + yoe / 4 - yoe / 100);
    var mp := (5 * doy + 2) / 153;
    var d := doy - (153 * mp + 2) / 5 + 1;
    var m := if mp < 10 then mp + 3 else mp - 9;
    Civil(if m <= 2 then yoe + era * 400 + 1 else yoe + era * 400, m - 1, d)
  }

  /** `getFullYear()`. */
  function FullYear(t: int): int
  {
    CivilFromDays(DayOf(t)).year
  }

  /** `new Date(y, monthIndex, day)`: midnight of that date. */
  function MakeDate(y: int, monthIndex: int, day: int): int
  {
    MakeDay(y, monthIndex, day) * DayMs
  }

  /** `setFullYear(getFullYear() + 1)`: same month, day and time of day one
      year on (29 February runs on to 1 March). */
  function AddOneYear(t: int): int
  {
    var c := CivilFromDays(DayOf(t));
    MakeDay(c.year + 1, c.monthIndex, c.day) * DayMs + t % DayMs
  }

  /** `setMonth(getMonth() + 1)`: same day and time of day one month on
      (a day the next month lacks runs on into the month after). */
  function AddOneMonth(t: int): int
  {
    var c := CivilFromDays(DayOf(t));
    MakeDay(c.year, c.monthIndex + 1, c.day) * DayMs + t % DayMs
  }

  /** Day numbers of some known dates: the epoch, the leap day of 2024 and
      a month index past December. */
  lemma CalendarAnchors()
    ensures MakeDay(1970, 0, 1) == 0
    ensures MakeDay(2024, 1, 30) == MakeDay(2024, 2, 1) == 19783
    ensures MakeDay(2025, 12, 1) == MakeDay(2026, 0, 1) == 20454
  {
    assert MakeDay(1970, 0, 1) == 365 * 1969 + 1969 / 4 - 1969 / 100 + 1969 / 400 + 306 - 719468 == 0;
    assert MakeDay(2024, 1, 30) == 365 * 2023 + 2023 / 4 - 2023 / 100 + 2023 / 400 + 366 - 719468 == 19783;
    assert MakeDay(2024, 2, 1) == 365 * 2024 + 2024 / 4 - 2024 / 100 + 2024 / 400 - 719468 == 19783;
    assert MakeDay(2025, 12, 1) == 365 * 2025 + 2025 / 4 - 2025 / 100 + 2025 / 400 + 306 - 719468 == 20454;
    assert MakeDay(2026, 0, 1) == 20454;
  }

  lemma EpochCivil()
    ensures CivilFromDays(0) == Civil(1970, 0, 1)
  {
    assert 719468 / 146097 == 4;
    assert (135080 - 135080 / 1460 + 135080 / 36524 - 135080 / 146096) / 365 == 369;
    assert 135080 - (365 * 369 + 369 / 4 - 369 / 100) == 306;
    assert (5 * 306 + 2) / 153 == 10;
    assert 306 - (153 * 10 + 2) / 5 + 1 == 1;
  }
}
