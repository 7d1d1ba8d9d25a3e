/** Calendar arithmetic of the debugger wrapper (bin/GDBWrapper/out/Time.js):
    `TimeData` moves one field of a time by a whole amount and carries into
    the larger fields, and `Parse`/`Stringify` convert a time to and from
    its `year/month/date|hour:minute:second|region` text. The clock itself
    (`GetTimeStamp`, `GetTimeInfo`, `GetDateString`) is not modelled.

    The arithmetic is modelled as written, defects included:
    - a month count that lands on a multiple of 12 above 12 becomes month 0;
    - a negative borrow from the hour, minute or second sets the field to
      23 or 59 plus the (non-positive) remainder, one unit short.
    `DayNumber` is an independent count of days; it is what the steps of
    `AddDate` and `ReduceDate` are checked against. */
module Time {
  import opened JsText

  /** `TimeFieldType`. Any other number handed to `Increase` behaves like
      `Region`: nothing changes. */
  datatype TimeField = Year | Month | Date | Hour | Minute | Second | Region

  /** `TimeInfo`: the numeric fields hold whole numbers. */
  datatype TimeInfo = TimeInfo(year: int, month: int, date: int, hour: int, minute: int, second: int, region: string)

  /** `parseInt((a / b).toString())` on whole numbers: the quotient truncated
      toward zero. */
  function Quot(a: int, b: int): int
    requires b > 0
  {
    if a >= 0 then a / b else -((-a) / b)
  }

  /** JavaScript's `a % b`: the remainder takes the sign of `a`. */
  function Rem(a: int, b: int): int
    requires b > 0
  {
    if a >= 0 then a % b else -((-a) % b)
  }

  // ---------------------------------------------------------------------------
  // The calendar

  /** `GetDateOfYear`: every year divisible by 4 is a leap year (the sign of
      the remainder does not matter for the test against 0). */
  function DaysInYear(year: int): int {
    if year % 4 == 0 then 366 else 365
  }

  /** `GetDateOfMonth`: any month number other than 2, 4, 6, 9 and 11 has 31
      days, month 0 and month 13 included. */
  function MonthLength(year: int, month: int): (r: int)
    ensures 28 <= r <= 31
  {
    if month == 4 || month == 6 || month == 9 || month == 11 then 30
    else if month == 2 then (if DaysInYear(year) == 366 then 29 else 28)
    else 31
  }

  /** A date of the calendar `MonthLength` describes. */
  predicate ValidDate(t: TimeInfo) {
    1 <= t.month <= 12 && 1 <= t.date <= MonthLength(t.year, t.month)
  }

  /** A time of day within its ranges. */
  predicate ValidClock(t: TimeInfo) {
    0 <= t.hour <= 23 && 0 <= t.minute <= 59 && 0 <= t.second <= 59
  }

  /** The days of the months of `year` before `month`. */
  function DaysBefore(year: int, month: int): (r: int)
    ensures r >= 0
    decreases month
  {
    if month <= 1 then 0 else DaysBefore(year, month - 1) + MonthLength(year, month - 1)
  }

  /** The days before the first of January of `year`, counted from year 0. */
  function YearStart(year: int): int {
    365 * year + (year + 3) / 4
  }

  /** The number of a day, counted from the first of January of year 0. */
  function DayNumber(t: TimeInfo): int {
    YearStart(t.year) + DaysBefore(t.year, t.month) + t.date
  }

  /** The twelve month lengths add up to the year length. */
  lemma {:induction false} YearOfMonths(year: int)
    ensures DaysBefore(year, 12) + 31 == DaysInYear(year)
  {
    var feb := MonthLength(year, 2);
    assert DaysBefore(year, 2) == 31;
    assert DaysBefore(year, 3) == 31 + feb;
    assert DaysBefore(year, 4) == 62 + feb;
    assert DaysBefore(year, 5) == 92 + feb;
    assert DaysBefore(year, 6) == 123 + feb;
    assert DaysBefore(year, 7) == 153 + feb;
    assert DaysBefore(year, 8) == 184 + feb;
    assert DaysBefore(year, 9) == 215 + feb;
    assert DaysBefore(year, 10) == 245 + feb;
    assert DaysBefore(year, 11) == 276 + feb;
    assert DaysBefore(year, 12) == 306 + feb;
  }

  /** Consecutive years are as far apart as the first one is long. */
  lemma {:induction false} YearStartStep(year: int)
    ensures YearStart(year + 1) == YearStart(year) + DaysInYear(year)
  {
    var q, r := year / 4, year % 4;
    assert year == 4 * q + r && 0 <= r < 4;
    assert (year + 4) / 4 == q + 1;
    assert (year + 3) / 4 == if r == 0 then q else q + 1;
  }

  // ---------------------------------------------------------------------------
  // Moving the month and the date

  /** `IncreaseMonth` as written. The count of months since year 0 moves by
      exactly `n`, but a sum that is a multiple of 12 above 12 is left as
      month 0 of the following year instead of month 12. */
  function MonthShifted(t: TimeInfo, n: int): (r: TimeInfo)
    ensures r == t.(year := r.year, month := r.month)
    ensures 12 * r.year + r.month == 12 * t.year + t.month + n
    ensures 0 <= r.month <= 12
    ensures r.month == 0 <==> t.month + n > 12 && (t.month + n) % 12 == 0
  {
    var m := t.month + n;
    if m > 12 then t.(year := t.year + Quot(m, 12), month := Rem(m, 12))
    else if m < 1 then t.(year := t.year + Quot(m, 12) - 1, month := 12 + Rem(m, 12))
    else t.(month := m)
  }

  /** `AddDate`: the last day of a month moves to the first of the next. */
  function NextDay(t: TimeInfo): (r: TimeInfo)
    ensures r == t.(year := r.year, month := r.month, date := r.date)
  {
    if MonthLength(t.year, t.month) == t.date then MonthShifted(t.(date := 1), 1)
    else t.(date := t.date + 1)
  }

  /** `ReduceDate`: the first of a month moves to the last day of the
      previous one. */
  function PrevDay(t: TimeInfo): (r: TimeInfo)
    ensures r == t.(year := r.year, month := r.month, date := r.date)
  {
    if t.date == 1 then
      var s := MonthShifted(t, -1);
      s.(date := MonthLength(s.year, s.month))
    else t.(date := t.date - 1)
  }

  /** On a valid date `AddDate` moves to the valid date of the next day
      number, and `ReduceDate` undoes it. */
  lemma {:induction false} NextDayStep(t: TimeInfo)
    requires ValidDate(t)
    ensures ValidDate(NextDay(t)) && DayNumber(NextDay(t)) == DayNumber(t) + 1
    ensures PrevDay(NextDay(t)) == t
  {
    if t.date != MonthLength(t.year, t.month) {
      assert NextDay(t) == t.(date := t.date + 1);
    } else if t.month != 12 {
      assert NextDay(t) == t.(month := t.month + 1, date := 1);
    } else {
      var n := t.(year := t.year + 1, month := 1, date := 1);
      assert NextDay(t) == n;
      YearOfMonths(t.year);
      YearStartStep(t.year);
      assert DayNumber(t) == YearStart(t.year) + DaysInYear(t.year);
      assert DayNumber(n) == YearStart(t.year + 1) + 1;
      assert PrevDay(n) == t;
    }
  }

  /** On a valid date `ReduceDate` moves to the valid date of the previous
      day number, and `AddDate` undoes it. */
  lemma {:induction false} PrevDayStep(t: TimeInfo)
    requires ValidDate(t)
    ensures ValidDate(PrevDay(t)) && DayNumber(PrevDay(t)) == DayNumber(t) - 1
    ensures NextDay(PrevDay(t)) == t
  {
    if t.date != 1 {
      assert PrevDay(t) == t.(date := t.date - 1);
    } else if t.month != 1 {
      var p := t.(month := t.month - 1, date := MonthLength(t.year, t.month - 1));
      assert PrevDay(t) == p;
      assert DaysBefore(t.year, t.month) == DaysBefore(t.year, t.month - 1) + MonthLength(t.year, t.month - 1);
    } else {
      var p := t.(year := t.year - 1, month := 12, date := 31);
      assert PrevDay(t) == p;
      YearOfMonths(t.year - 1);
      YearStartStep(t.year - 1);
      assert DayNumber(p) == YearStart(t.year - 1) + DaysInYear(t.year - 1);
      assert DayNumber(t) == YearStart(t.year) + 1;
      assert NextDay(p) == t;
    }
  }

  /** `k` calls of `AddDate`. */
  function Forward(t: TimeInfo, k: nat): (r: TimeInfo)
    ensures r == t.(year := r.year, month := r.month, date := r.date)
  {
    if k == 0 then t else NextDay(Forward(t, k - 1))
  }

  /** `k` calls of `ReduceDate`. */
  function Backward(t: TimeInfo, k: nat): (r: TimeInfo)
    ensures r == t.(year := r.year, month := r.month, date := r.date)
  {
    if k == 0 then t else PrevDay(Backward(t, k - 1))
  }

  /** `IncreaseDate`: `AddDate` `n` times, or `ReduceDate` `-n` times. */
  function DaysShifted(t: TimeInfo, n: int): (r: TimeInfo)
    ensures r == t.(year := r.year, month := r.month, date := r.date)
  {
    if n >= 0 then Forward(t, n) else Backward(t, -n)
  }

  lemma {:induction false} ForwardValid(t: TimeInfo, k: nat)
    requires ValidDate(t)
    ensures ValidDate(Forward(t, k)) && DayNumber(Forward(t, k)) == DayNumber(t) + k
  {
    if k > 0 {
      ForwardValid(t, k - 1);
      NextDayStep(Forward(t, k - 1));
    }
  }

  lemma {:induction false} BackwardValid(t: TimeInfo, k: nat)
    requires ValidDate(t)
    ensures ValidDate(Backward(t, k)) && DayNumber(Backward(t, k)) == DayNumber(t) - k
  {
    if k > 0 {
      BackwardValid(t, k - 1);
      PrevDayStep(Backward(t, k - 1));
    }
  }

  /** On a valid date, `IncreaseDate(n)` moves the day number by exactly `n`
      and keeps the date valid. */
  lemma {:induction false} DaysShiftedValid(t: TimeInfo, n: int)
    requires ValidDate(t)
    ensures ValidDate(DaysShifted(t, n)) && DayNumber(DaysShifted(t, n)) == DayNumber(t) + n
  {
    if n >= 0 { ForwardValid(t, n); } else { BackwardValid(t, -n); }
  }

  /** The first of `k` steps forward can be taken before the others. */
  lemma {:induction false} ForwardFirst(t: TimeInfo, k: nat)
    requires k >= 1
    ensures Forward(t, k) == Forward(NextDay(t), k - 1)
  {
    if k > 1 {
      ForwardFirst(t, k - 1);
    }
  }

  lemma {:induction false} BackwardFirst(t: TimeInfo, k: nat)
    requires k >= 1
    ensures Backward(t, k) == Backward(PrevDay(t), k - 1)
  {
    if k > 1 {
      BackwardFirst(t, k - 1);
    }
  }

  lemma {:induction false} BackwardForward(t: TimeInfo, k: nat)
    requires ValidDate(t)
    ensures Backward(Forward(t, k), k) == t
  {
    if k > 0 {
      var f := Forward(t, k - 1);
      ForwardValid(t, k - 1);
      NextDayStep(f);
      BackwardFirst(NextDay(f), k);
      BackwardForward(t, k - 1);
    }
  }

  lemma {:induction false} ForwardBackward(t: TimeInfo, k: nat)
    requires ValidDate(t)
    ensures Forward(Backward(t, k), k) == t
  {
    if k > 0 {
      var b := Backward(t, k - 1);
      BackwardValid(t, k - 1);
      PrevDayStep(b);
      ForwardFirst(PrevDay(b), k);
      ForwardBackward(t, k - 1);
    }
  }

  /** From a valid date, `IncreaseDate(n)` followed by `IncreaseDate(-n)`
      gives the time back. */
  lemma {:induction false} DaysShiftedRestores(t: TimeInfo, n: int)
    requires ValidDate(t)
    ensures DaysShifted(DaysShifted(t, n), -n) == t
  {
    if n > 0 {
      BackwardForward(t, n);
    } else if n < 0 {
      ForwardBackward(t, -n);
    }
  }

  // ---------------------------------------------------------------------------
  // Moving the hour, the minute and the second

  /** `IncreaseHour` as written: a carry goes to `IncreaseDate`. */
  function HoursShifted(t: TimeInfo, n: int): (r: TimeInfo)
    ensures r == t.(year := r.year, month := r.month, date := r.date, hour := r.hour)
    ensures 0 <= r.hour <= 23
  {
    var h := t.hour + n;
    var u := t.(hour := h);
    if h > 23 then DaysShifted(u, Quot(h, 24)).(hour := Rem(h, 24))
    else if h < 0 then DaysShifted(u, Quot(h, 24) - 1).(hour := 23 + Rem(h, 24))
    else u
  }

  /** `IncreaseMinute` as written: a carry goes to `IncreaseHour`. */
  function MinutesShifted(t: TimeInfo, n: int): (r: TimeInfo)
    ensures r == t.(year := r.year, month := r.month, date := r.date, hour := r.hour, minute := r.minute)
    ensures 0 <= r.minute <= 59
  {
    var m := t.minute + n;
    var u := t.(minute := m);
    if m > 59 then HoursShifted(u, Quot(m, 60)).(minute := Rem(m, 60))
    else if m < 0 then HoursShifted(u, Quot(m, 60) - 1).(minute := 59 + Rem(m, 60))
    else u
  }

  /** `IncreaseSecond` as written: a carry goes to `IncreaseMinute`. */
  function SecondsShifted(t: TimeInfo, n: int): (r: TimeInfo)
    ensures r == t.(year := r.year, month := r.month, date := r.date, hour := r.hour, minute := r.minute, second := r.second)
    ensures 0 <= r.second <= 59
  {
    var s := t.second + n;
    var u := t.(second := s);
    if s > 59 then MinutesShifted(u, Quot(s, 60)).(second := Rem(s, 60))
    else if s < 0 then MinutesShifted(u, Quot(s, 60) - 1).(second := 59 + Rem(s, 60))
    else u
  }

  function TotalHours(t: TimeInfo): int { 24 * DayNumber(t) + t.hour }

  function TotalMinutes(t: TimeInfo): int { 60 * TotalHours(t) + t.minute }

  function TotalSeconds(t: TimeInfo): int { 60 * TotalMinutes(t) + t.second }

  /** A non-negative `IncreaseHour` moves the time by exactly `n` hours: the
      hour ends in 0..23 and the truncated quotient by 24 is carried into
      the date. */
  lemma {:induction false} HoursForward(t: TimeInfo, n: int)
    requires ValidDate(t) && 0 <= t.hour && n >= 0
    ensures ValidDate(HoursShifted(t, n))
    ensures TotalHours(HoursShifted(t, n)) == TotalHours(t) + n
  {
    var h := t.hour + n;
    if h > 23 {
      DaysShiftedValid(t.(hour := h), Quot(h, 24));
    }
  }

  /** A borrow of `IncreaseHour` loses one hour: the time moves by `n - 1`
      hours instead of `n`. */
  lemma {:induction false} HoursBorrowShort(t: TimeInfo, n: int)
    requires ValidDate(t) && t.hour + n < 0
    ensures ValidDate(HoursShifted(t, n))
    ensures TotalHours(HoursShifted(t, n)) == TotalHours(t) + n - 1
  {
    var h := t.hour + n;
    DaysShiftedValid(t.(hour := h), Quot(h, 24) - 1);
    assert 24 * Quot(h, 24) + Rem(h, 24) == h;
  }

  /** A non-negative `IncreaseMinute` moves the time by exactly `n` minutes:
      the minute ends in 0..59 and the truncated quotient by 60 is carried
      into the hour. */
  lemma {:induction false} MinutesForward(t: TimeInfo, n: int)
    requires ValidDate(t) && 0 <= t.hour <= 23 && 0 <= t.minute && n >= 0
    ensures ValidDate(MinutesShifted(t, n)) && 0 <= MinutesShifted(t, n).hour <= 23
    ensures TotalMinutes(MinutesShifted(t, n)) == TotalMinutes(t) + n
  {
    var m := t.minute + n;
    var u := t.(minute := m);
    if m > 59 {
      var q := m / 60;
      var h := HoursShifted(u, q);
      HoursForward(u, q);
      assert MinutesShifted(t, n) == h.(minute := m % 60);
      assert TotalMinutes(h.(minute := m % 60)) == 60 * TotalHours(h) + m % 60;
      assert TotalHours(h) == TotalHours(t) + q;
      assert 60 * q + m % 60 == m;
    } else {
      assert MinutesShifted(t, n) == u;
    }
  }

  /** A non-negative `IncreaseSecond` moves the time by exactly `n` seconds
      and leaves a valid date and clock: each field ends in its range and
      the truncated quotient by 60 is carried into the next. */
  lemma {:induction false} SecondsForward(t: TimeInfo, n: int)
    requires ValidDate(t) && ValidClock(t) && n >= 0
    ensures ValidDate(SecondsShifted(t, n)) && ValidClock(SecondsShifted(t, n))
    ensures TotalSeconds(SecondsShifted(t, n)) == TotalSeconds(t) + n
  {
    var s := t.second + n;
    var u := t.(second := s);
    if s > 59 {
      var q := s / 60;
      var m := MinutesShifted(u, q);
      MinutesForward(u, q);
      assert SecondsShifted(t, n) == m.(second := s % 60);
      assert TotalSeconds(m.(second := s % 60)) == 60 * TotalMinutes(m) + s % 60;
      assert TotalMinutes(m) == TotalMinutes(t) + q;
      assert 60 * q + s % 60 == s;
    } else {
      assert SecondsShifted(t, n) == u;
    }
  }

  /** One second before midnight of the first of March 2000, as the code
      computes it: both borrows lose a unit, giving 22:58:58 on the 29th of
      February instead of 23:59:59. */
  lemma {:induction false} SecondBorrowExample(region: string)
    ensures SecondsShifted(TimeInfo(2000, 3, 1, 0, 0, 0, region), -1) == TimeInfo(2000, 2, 29, 22, 58, 58, region)
  {
    var t := TimeInfo(2000, 3, 1, 0, 0, 0, region);
    var u := t.(second := -1, minute := -1, hour := -1);
    assert Quot(-1, 60) == 0 && Rem(-1, 60) == -1 && Quot(-1, 24) == 0 && Rem(-1, 24) == -1;
    assert Backward(u, 1) == PrevDay(u);
    assert PrevDay(u) == u.(month := 2, date := 29);
    assert HoursShifted(u.(hour := 0), -1) == u.(month := 2, date := 29, hour := 22);
    assert MinutesShifted(u.(hour := 0, minute := 0), -1) == u.(month := 2, date := 29, hour := 22, minute := 58);
  }

  /** The `switch` of `Increase` on a whole amount `k`. */
  function Increased(t: TimeInfo, fieldType: TimeField, k: int): TimeInfo {
    match fieldType
    case Year => t.(year := t.year + k)
    case Month => MonthShifted(t, k)
    case Date => DaysShifted(t, k)
    case Hour => HoursShifted(t, k)
    case Minute => MinutesShifted(t, k)
    case Second => SecondsShifted(t, k)
    case Region => t
  }

  // ---------------------------------------------------------------------------
  // TimeData

  /** `TimeData`: the time it was built with, moved in place. (The source
      keeps the caller's object and changes it; here the time is a value.) */
  class TimeData {
    var time: TimeInfo

    constructor (timeInfo: TimeInfo)
      ensures time == timeInfo
    {
      time := timeInfo;
    }

    /** `Increase`: a number that is not whole throws and changes nothing. */
    method Increase(fieldType: TimeField, number: real) returns (r: Outcome<()>)
      modifies this
      ensures !IsInteger(number) ==> r == Thrown("The increase number of time must be integer") && time == old(time)
      ensures IsInteger(number) ==> r == Ok(()) && time == Increased(old(time), fieldType, number.Floor)
    {
      if !IsInteger(number) {
        return Thrown("The increase number of time must be integer");
      }
      r := Ok(());
      var n := number.Floor;
      match fieldType
      case Year => time := time.(year := time.year + n);
      case Month => IncreaseMonth(n);
      case Date => IncreaseDate(n);
      case Hour => IncreaseHour(n);
      case Minute => IncreaseMinute(n);
      case Second => IncreaseSecond(n);
      case Region =>
    }

    method IncreaseMonth(n: int)
      modifies this
      ensures time == MonthShifted(old(time), n)
    {
      time := time.(month := time.month + n);
      if time.month > 12 {
        time := time.(year := time.year + Quot(time.month, 12));
        time := time.(month := Rem(time.month, 12));
      } else if time.month < 1 {
        time := time.(year := time.year + Quot(time.month, 12) - 1);
        time := time.(month := 12 + Rem(time.month, 12));
      }
    }

    method IncreaseDate(n: int)
      modifies this
      ensures time == DaysShifted(old(time), n)
    {
      if n >= 0 {
        var i := 0;
        while i < n
          invariant 0 <= i <= n
          invariant time == Forward(old(time), i)
        {
          AddDate();
          i := i + 1;
        }
      } else {
        var i := 0;
        while i < -n
          invariant 0 <= i <= -n
          invariant time == Backward(old(time), i)
        {
          ReduceDate();
          i := i + 1;
        }
      }
    }

    method IncreaseHour(n: int)
      modifies this
      ensures time == HoursShifted(old(time), n)
    {
      time := time.(hour := time.hour + n);
      if time.hour > 23 {
        IncreaseDate(Quot(time.hour, 24));
        time := time.(hour := Rem(time.hour, 24));
      } else if time.hour < 0 {
        IncreaseDate(Quot(time.hour, 24) - 1);
        time := time.(hour := 23 + Rem(time.hour, 24));
      }
    }

    method IncreaseMinute(n: int)
      modifies this
      ensures time == MinutesShifted(old(time), n)
    {
      time := time.(minute := time.minute + n);
      if time.minute > 59 {
        IncreaseHour(Quot(time.minute, 60));
        time := time.(minute := Rem(time.minute, 60));
      } else if time.minute < 0 {
        IncreaseHour(Quot(time.minute, 60) - 1);
        time := time.(minute := 59 + Rem(time.minute, 60));
      }
    }

    method IncreaseSecond(n: int)
      modifies this
      ensures time == SecondsShifted(old(time), n)
    {
      time := time.(second := time.second + n);
      if time.second > 59 {
        IncreaseMinute(Quot(time.second, 60));
        time := time.(second := Rem(time.second, 60));
      } else if time.second < 0 {
        IncreaseMinute(Quot(time.second, 60) - 1);
        time := time.(second := 59 + Rem(time.second, 60));
      }
    }

    method AddDate()
      modifies this
      ensures time == NextDay(old(time))
    {
      if MonthLength(time.year, time.month) == time.date {
        time := time.(date := 1);
        IncreaseMonth(1);
      } else {
        time := time.(date := time.date + 1);
      }
    }

    method ReduceDate()
      modifies this
      ensures time == PrevDay(old(time))
    {
      if time.date == 1 {
        IncreaseMonth(-1);
        time := time.(date := MonthLength(time.year, time.month));
      } else {
        time := time.(date := time.date - 1);
      }
    }
  }

  // ---------------------------------------------------------------------------
  // Compare

  /** The fields `Compare` looks at, most significant first. */
  function Fields(t: TimeInfo): seq<int> {
    [t.year, t.month, t.date, t.hour, t.minute, t.second]
  }

  /** Lexicographic order on sequences of equal length. */
  predicate LexLess(a: seq<int>, b: seq<int>) {
    |a| > 0 && |b| > 0 && (a[0] < b[0] || (a[0] == b[0] && LexLess(a[1..], b[1..])))
  }

  /** `Compare` of the object's time `current` with `timeInfo`: zero exactly
      when the six numeric fields agree (the region is not compared),
      otherwise the sign of the first field that differs. */
  function Compare(current: TimeInfo, timeInfo: TimeInfo): (r: int)
    ensures r == 0 <==> Fields(current) == Fields(timeInfo)
    ensures r < 0 <==> LexLess(Fields(current), Fields(timeInfo))
    ensures r > 0 <==> LexLess(Fields(timeInfo), Fields(current))
  {
    LexFields(current, timeInfo);
    LexFields(timeInfo, current);
    if current.year != timeInfo.year then current.year - timeInfo.year
    else if current.month != timeInfo.month then current.month - timeInfo.month
    else if current.date != timeInfo.date then current.date - timeInfo.date
    else if current.hour != timeInfo.hour then current.hour - timeInfo.hour
    else if current.minute != timeInfo.minute then current.minute - timeInfo.minute
    else if current.second != timeInfo.second then current.second - timeInfo.second
    else 0
  }

  /** `LexLess` on the fields of two times, unfolded. */
  lemma {:induction false} LexFields(a: TimeInfo, b: TimeInfo)
    ensures LexLess(Fields(a), Fields(b)) <==>
      a.year < b.year || (a.year == b.year &&
      (a.month < b.month || (a.month == b.month &&
      (a.date < b.date || (a.date == b.date &&
      (a.hour < b.hour || (a.hour == b.hour &&
      (a.minute < b.minute || (a.minute == b.minute && a.second < b.second)))))))))
  {
    var x, y := Fields(a), Fields(b);
    assert !LexLess(x[6..], y[6..]);
    assert x[5..][1..] == x[6..] && y[5..][1..] == y[6..];
    assert LexLess(x[5..], y[5..]) <==> a.second < b.second;
    assert x[4..][1..] == x[5..] && y[4..][1..] == y[5..];
    assert LexLess(x[4..], y[4..]) <==> a.minute < b.minute || (a.minute == b.minute && LexLess(x[5..], y[5..]));
    assert x[3..][1..] == x[4..] && y[3..][1..] == y[4..];
    assert LexLess(x[3..], y[3..]) <==> a.hour < b.hour || (a.hour == b.hour && LexLess(x[4..], y[4..]));
    assert x[2..][1..] == x[3..] && y[2..][1..] == y[3..];
    assert LexLess(x[2..], y[2..]) <==> a.date < b.date || (a.date == b.date && LexLess(x[3..], y[3..]));
    assert x[1..][1..] == x[2..] && y[1..][1..] == y[2..];
    assert LexLess(x[1..], y[1..]) <==> a.month < b.month || (a.month == b.month && LexLess(x[2..], y[2..]));
  }

  /** A month and the ones before it fit before any later month. */
  lemma {:induction false} DaysBeforeGrows(year: int, m1: int, m2: int)
    requires 1 <= m1 < m2
    ensures DaysBefore(year, m1) + MonthLength(year, m1) <= DaysBefore(year, m2)
    decreases m2
  {
    if m2 > m1 + 1 {
      DaysBeforeGrows(year, m1, m2 - 1);
    }
  }

  /** Later years start later. */
  lemma {:induction false} YearStartGrows(y1: int, y2: int)
    requires y1 < y2
    ensures YearStart(y1) + DaysInYear(y1) <= YearStart(y2)
  {
    YearStartStep(y1);
    assert (y1 + 4) / 4 <= (y2 + 3) / 4;
  }

  /** Day numbers follow the order of (year, month, date) on valid dates. */
  lemma {:induction false} DayNumberOrder(a: TimeInfo, b: TimeInfo)
    requires ValidDate(a) && ValidDate(b)
    requires a.year < b.year || (a.year == b.year && (a.month < b.month || (a.month == b.month && a.date < b.date)))
    ensures DayNumber(a) < DayNumber(b)
  {
    if a.year < b.year {
      DaysBeforeGrows(a.year, a.month, 13);
      YearOfMonths(a.year);
      YearStartGrows(a.year, b.year);
    } else if a.month < b.month {
      DaysBeforeGrows(a.year, a.month, b.month);
    }
  }

  /** On valid dates and clocks `Compare` orders times as the seconds
      elapsed since the start of year 0 do. */
  lemma {:induction false} CompareBySeconds(a: TimeInfo, b: TimeInfo)
    requires ValidDate(a) && ValidClock(a) && ValidDate(b) && ValidClock(b)
    ensures Compare(a, b) < 0 <==> TotalSeconds(a) < TotalSeconds(b)
    ensures Compare(a, b) == 0 <==> TotalSeconds(a) == TotalSeconds(b)
  {
    LexFields(a, b);
    LexFields(b, a);
    var da, db := (a.year, a.month, a.date), (b.year, b.month, b.date);
    if da == db {
      assert DayNumber(a) == DayNumber(b);
    } else if a.year < b.year || (a.year == b.year && (a.month < b.month || (a.month == b.month && a.date < b.date))) {
      DayNumberOrder(a, b);
    } else {
      DayNumberOrder(b, a);
    }
  }

  // ---------------------------------------------------------------------------
  // Parse and Stringify

  /** What `Parse` returns: a field whose text is missing or does not start
      with a number is `NaN`; a missing region is `undefined`. */
  datatype ParsedTime = ParsedTime(
    year: Num, month: Num, date: Num, hour: Num, minute: Num, second: Num, region: Option<string>)

  /** `Stringify`: the date, the time of day and the region, separated by
      `'|'`. */
  function Stringify(t: TimeInfo): string {
    DateText(t) + "|" + ClockText(t) + "|" + t.region
  }

  function DateText(t: TimeInfo): string {
    IntToString(t.year) + "/" + IntToString(t.month) + "/" + IntToString(t.date)
  }

  function ClockText(t: TimeInfo): string {
    IntToString(t.hour) + ":" + IntToString(t.minute) + ":" + IntToString(t.second)
  }

  /** `parts[i]`, `undefined` past the end. */
  function Part(parts: seq<string>, i: nat): Option<string> {
    if i < |parts| then Some(parts[i]) else None
  }

  /** `Number.parseInt` of a part that may be `undefined`. */
  function ParsePart(part: Option<string>): Num {
    match part
    case None => NaN
    case Some(s) => ParseInt(s, 0)
  }

  /** `Parse`: a stamp without a `'|'` has no second field to split, which
      throws. */
  function Parse(timeStamp: string): (r: Outcome<ParsedTime>)
    ensures r.Thrown? <==> forall i :: 0 <= i < |timeStamp| ==> timeStamp[i] != '|'
  {
    var fieldList := Split(timeStamp, "|");
    if |fieldList| < 2 then
      SplitFindsSeparator(timeStamp, "|");
      Thrown("Cannot read properties of undefined (reading 'split')")
    else
      SplitNoSeparatorBack(timeStamp, "|");
      var yearField := Split(fieldList[0], "/");
      var timeField := Split(fieldList[1], ":");
      Ok(ParsedTime(
        ParsePart(Part(yearField, 0)), ParsePart(Part(yearField, 1)), ParsePart(Part(yearField, 2)),
        ParsePart(Part(timeField, 0)), ParsePart(Part(timeField, 1)), ParsePart(Part(timeField, 2)),
        Part(fieldList, 2)))
  }

  /** A text with the separator character splits into at least two parts. */
  lemma {:induction false} SplitFindsSeparator(s: string, sep: string)
    requires |sep| == 1 && |Split(s, sep)| < 2
    ensures forall i :: 0 <= i < |s| ==> s[i] != sep[0]
    decreases |s|
  {
    if |s| >= 1 {
      assert s[..1] != sep;
      SplitFindsSeparator(s[1..], sep);
      forall i | 0 <= i < |s| ensures s[i] != sep[0] {
        if i > 0 { assert s[i] == s[1..][i - 1]; }
      }
    }
  }

  lemma {:induction false} SplitNoSeparatorBack(s: string, sep: string)
    requires |sep| == 1 && |Split(s, sep)| >= 2
    ensures exists i :: 0 <= i < |s| && s[i] == sep[0]
  {
    if forall i :: 0 <= i < |s| ==> s[i] != sep[0] {
      SplitNoSeparator(s, sep);
    }
  }

  /** The text of a whole number holds only digits and `'-'`. */
  lemma {:induction false} IntTextChars(i: int)
    ensures forall k :: 0 <= k < |IntToString(i)| ==> IsDigit(IntToString(i)[k]) || IntToString(i)[k] == '-'
  {
    if i < 0 {
      var d := NatToString(-i);
      assert forall k :: 1 <= k < |"-" + d| ==> ("-" + d)[k] == d[k - 1];
    }
  }

  /** Three whole numbers joined by `sep` split back into their texts. */
  lemma {:induction false} SplitThree(a: int, b: int, c: int, sep: string)
    requires sep == "/" || sep == ":"
    ensures Split(IntToString(a) + sep + IntToString(b) + sep + IntToString(c), sep)
      == [IntToString(a), IntToString(b), IntToString(c)]
  {
    var x, y, z := IntToString(a), IntToString(b), IntToString(c);
    IntTextChars(a);
    IntTextChars(b);
    IntTextChars(c);
    assert x + sep + y + sep + z == x + sep + (y + sep + z);
    SplitAtSeparator(x, sep, y + sep + z);
    SplitAtSeparator(y, sep, z);
    SplitNoSeparator(z, sep);
  }

  /** The three `'|'`-separated parts of a stamp whose region has no `'|'`. */
  lemma {:induction false} SplitStamp(t: TimeInfo)
    requires forall i :: 0 <= i < |t.region| ==> t.region[i] != '|'
    ensures Split(Stringify(t), "|") == [DateText(t), ClockText(t), t.region]
  {
    var d, c := DateText(t), ClockText(t);
    IntTextChars(t.year);
    IntTextChars(t.month);
    IntTextChars(t.date);
    IntTextChars(t.hour);
    IntTextChars(t.minute);
    IntTextChars(t.second);
    assert forall i :: 0 <= i < |d| ==> d[i] != '|';
    assert forall i :: 0 <= i < |c| ==> c[i] != '|';
    assert Stringify(t) == d + "|" + (c + "|" + t.region);
    SplitAtSeparator(d, "|", c + "|" + t.region);
    SplitAtSeparator(c, "|", t.region);
    SplitNoSeparator(t.region, "|");
  }

  /** `Parse` reads back what `Stringify` wrote, when the region has no
      `'|'`. */
  lemma {:induction false} ParseStringify(t: TimeInfo)
    requires forall i :: 0 <= i < |t.region| ==> t.region[i] != '|'
    ensures Parse(Stringify(t)) == Ok(ParsedTime(
      Finite(t.year), Finite(t.month), Finite(t.date), Finite(t.hour), Finite(t.minute), Finite(t.second),
      Some(t.region)))
  {
    SplitStamp(t);
    SplitThree(t.year, t.month, t.date, "/");
    SplitThree(t.hour, t.minute, t.second, ":");
    ParseIntOfIntToString(t.year);
    ParseIntOfIntToString(t.month);
    ParseIntOfIntToString(t.date);
    ParseIntOfIntToString(t.hour);
    ParseIntOfIntToString(t.minute);
    ParseIntOfIntToString(t.second);
  }
}
