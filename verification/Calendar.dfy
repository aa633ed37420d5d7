/** The proleptic Gregorian calendar of src/time.rs: Hinnant's closed forms,
    proved against the calendar counted one day at a time. */
module Calendar {

  datatype Date = Date(year: int, month: int, day: int)

  const EPOCH := Date(1970, 1, 1)

  /** Rust's `/` on signed integers. */
  function Quotient(a: int, b: int): int
    requires b > 0
  {
    if a >= 0 then a / b else -(-a / b)
  }

  predicate IsLeapYear(y: int) {
    (y % 4 == 0 && y % 100 != 0) || y % 400 == 0
  }

  function DaysInMonth(y: int, m: int): int {
    if m in {1, 3, 5, 7, 8, 10, 12} then 31
    else if m in {4, 6, 9, 11} then 30
    else if m == 2 then (if IsLeapYear(y) then 29 else 28)
    else 0
  }

  predicate Valid(d: Date) {
    1 <= d.month <= 12 && 1 <= d.day <= DaysInMonth(d.year, d.month)
  }

  /** `days_from_civil`. The year is counted from March; `yoe` is the year
      of the 400-year era, `doy` the day of that year. */
  function DaysFromCivil(d: Date): int {
    var y := if d.month <= 2 then d.year - 1 else d.year;
    var era := Quotient(if y >= 0 then y else y - 399, 400);
    var yoe := y - era * 400;
    var mp := if d.month > 2 then d.month - 3 else d.month + 9;
    var doy := Quotient(153 * mp + 2, 5) + d.day - 1;
    var doe := yoe * 365 + Quotient(yoe, 4) - Quotient(yoe, 100) + doy;
    era * 146_097 + doe - 719_468
  }

  /** `civil_from_days`. */
  function CivilFromDays(days: int): Date {
    var z := days + 719_468;
    var era := Quotient(if z >= 0 then z else z - 146_096, 146_097);
    CivilInEra(era, z - era * 146_097)
  }

  /** The rest of `civil_from_days`: the date of day `doe` of an era. */
  function CivilInEra(era: int, doe: int): Date {
    var yoe := YearOfEra(doe);
    CivilInYear(yoe + era * 400, doe - (365 * yoe + Quotient(yoe, 4) - Quotient(yoe, 100)))
  }

  function YearOfEra(doe: int): int {
    Quotient(doe - Quotient(doe, 1_460) + Quotient(doe, 36_524) - Quotient(doe, 146_096), 365)
  }

  function CivilInYear(y: int, doy: int): Date {
    var mp := Quotient(5 * doy + 2, 153);
    var d := doy - Quotient(153 * mp + 2, 5) + 1;
    var m := if mp < 10 then mp + 3 else mp - 9;
    Date(if m <= 2 then y + 1 else y, m, d)
  }

  /** The calendar itself: the day after. */
  function Next(d: Date): Date {
    if d.day < DaysInMonth(d.year, d.month) then Date(d.year, d.month, d.day + 1)
    else if d.month < 12 then Date(d.year, d.month + 1, 1)
    else Date(d.year + 1, 1, 1)
  }

  /** The calendar itself: the day before. */
  function Previous(d: Date): Date {
    if d.day > 1 then Date(d.year, d.month, d.day - 1)
    else if d.month > 1 then Date(d.year, d.month - 1, DaysInMonth(d.year, d.month - 1))
    else Date(d.year - 1, 12, 31)
  }

  /** The date reached from 1970-01-01 by counting `n` days, forwards or
      backwards, one at a time. */
  function Counted(n: int): Date
    decreases if n < 0 then -n else n
  {
    if n == 0 then EPOCH
    else if n > 0 then Next(Counted(n - 1))
    else Previous(Counted(n + 1))
  }

  predicate Before(a: Date, b: Date) {
    || a.year < b.year
    || (a.year == b.year && (a.month < b.month || (a.month == b.month && a.day < b.day)))
  }

  // ---------------------------------------------------------------------
  // March-based years and months
  // ---------------------------------------------------------------------

  /** The days of an era before its March-based year `yoe`. */
  function YearStart(yoe: int): int {
    yoe * 365 + yoe / 4 - yoe / 100
  }

  /** The days of a March-based year before its month `mp`. */
  function MonthStart(mp: int): int {
    (153 * mp + 2) / 5
  }

  predicate LongYear(yoe: int) {
    (yoe + 1) % 4 == 0 && ((yoe + 1) % 100 != 0 || yoe == 399)
  }

  lemma FloorEra(y: int)
    ensures Quotient(if y >= 0 then y else y - 399, 400) == y / 400
  {
  }

  lemma FloorDayEra(z: int)
    ensures Quotient(if z >= 0 then z else z - 146_096, 146_097) == z / 146_097
  {
  }

  lemma Multiples(b: int, k: int)
    requires b > 0
    ensures k == 0 || b * k >= b || b * k <= -b
  {
    if k >= 1 {
      assert b * k == b * (k - 1) + b;
    } else if k <= -1 {
      assert b * k == b * (k + 1) - b;
    }
  }

  /** Division with remainder is unique. */
  lemma Divided(a: int, b: int, quotient: int, rest: int)
    requires b > 0 && 0 <= rest < b && a == b * quotient + rest
    ensures a / b == quotient && a % b == rest
  {
    var q, r := a / b, a % b;
    assert a == b * q + r;
    assert b * (quotient - q) == b * quotient - b * q;
    Multiples(b, quotient - q);
  }

  lemma QuotientIs(a: int, b: int, quotient: int, rest: int)
    requires b > 0 && quotient >= 0 && 0 <= rest < b && a == b * quotient + rest
    ensures Quotient(a, b) == quotient
  {
    Divided(a, b, quotient, rest);
    assert b * quotient >= 0;
  }

  lemma ModuloShift(n: int, k: int, x: int)
    requires n > 0
    ensures (n * k + x) % n == x % n
  {
    Divided(n * k + x, n, k + x / n, x % n);
  }

  lemma LongYearIsLeap(era: int, yoe: int)
    requires 0 <= yoe < 400
    ensures LongYear(yoe) <==> IsLeapYear(era * 400 + yoe + 1)
  {
    ModuloShift(4, 100 * era, yoe + 1);
    ModuloShift(100, 4 * era, yoe + 1);
    ModuloShift(400, era, yoe + 1);
  }

  /** The year formula finds the March-based year that a day lies in. The
      year is `100 * c + 4 * q + r`: a century, a four-year cycle, a year. */
  lemma YearOfDay(yoe: int, doy: int)
    requires 0 <= yoe < 400
    requires 0 <= doy <= 364 || (doy == 365 && LongYear(yoe))
    ensures 0 <= YearStart(yoe) + doy < 146_097
    ensures YearOfEra(YearStart(yoe) + doy) == yoe
  {
    var c, q, r := yoe / 100, yoe % 100 / 4, yoe % 4;
    assert yoe == 100 * c + 4 * q + r && 0 <= c <= 3 && 0 <= q <= 24 && 0 <= r <= 3;
    assert doy == 365 ==> r == 3 && (q < 24 || c == 3);
    assert yoe / 4 == 25 * c + q;
    var doe := YearStart(yoe) + doy;
    assert doe == 36_524 * c + 1_461 * q + 365 * r + doy;
    YearInCentury(c, q, r, doy, doe);
  }

  lemma YearInCentury(c: int, q: int, r: int, doy: int, doe: int)
    requires 0 <= c <= 3 && 0 <= q <= 24 && 0 <= r <= 3
    requires 0 <= doy <= 364 || (doy == 365 && r == 3 && (q < 24 || c == 3))
    requires doe == 36_524 * c + 1_461 * q + 365 * r + doy
    ensures 0 <= doe < 146_097 && YearOfEra(doe) == 100 * c + 4 * q + r
  {
    hide Quotient;
    var inCentury := 1_461 * q + 365 * r + doy;
    assert 0 <= inCentury <= 36_524;
    assert inCentury == 36_524 ==> c == 3;
    var last := if inCentury == 36_524 then 1 else 0;
    QuotientIs(doe, 36_524, c + last, inCentury - last * 36_524);
    QuotientIs(doe, 146_096, last, doe - last * 146_096);
    var inCycle := 24 * c + q + 365 * r + doy;
    var late := if inCycle >= 1_460 then 1 else 0;
    QuotientIs(doe, 1_460, 25 * c + q + late, inCycle - late * 1_460);
    QuotientIs(365 * (100 * c + 4 * q + r) + doy - late, 365, 100 * c + 4 * q + r, doy - late);
  }

  /** Every day of an era lies in exactly one March-based year. */
  lemma DayOfYear(doe: int) returns (yoe: int, doy: int)
    requires 0 <= doe < 146_097
    ensures 0 <= yoe < 400 && doe == YearStart(yoe) + doy
    ensures 0 <= doy <= 364 || (doy == 365 && LongYear(yoe))
  {
    hide LongYear;
    var c := if doe == 146_096 then 3 else doe / 36_524;
    var inCentury := doe - 36_524 * c;
    assert 0 <= c <= 3 && 0 <= inCentury <= 36_524 && (inCentury == 36_524 ==> c == 3);
    var q := inCentury / 1_461;
    var inCycle := inCentury - 1_461 * q;
    assert 0 <= q <= 24 && 0 <= inCycle <= 1_460 && (inCycle == 1_460 && q == 24 ==> c == 3);
    var r := if inCycle == 1_460 then 3 else inCycle / 365;
    assert 0 <= r <= 3;
    yoe, doy := 100 * c + 4 * q + r, inCycle - 365 * r;
    YearParts(c, q, r);
    assert doy == 365 ==> r == 3 && (q < 24 || c == 3);
  }

  lemma YearParts(c: int, q: int, r: int)
    requires 0 <= c <= 3 && 0 <= q <= 24 && 0 <= r <= 3
    ensures YearStart(100 * c + 4 * q + r) == 36_524 * c + 1_461 * q + 365 * r
    ensures LongYear(100 * c + 4 * q + r) <==> r == 3 && (q < 24 || c == 3)
  {
    var yoe := 100 * c + 4 * q + r;
    assert yoe / 4 == 25 * c + q && yoe / 100 == c;
  }

  lemma MonthOfDay(mp: int, d: int)
    requires 0 <= mp <= 11 && 1 <= d <= 31
    requires mp in {1, 3, 6, 8} ==> d <= 30
    requires mp == 11 ==> d <= 29
    ensures 0 <= MonthStart(mp) + d - 1 <= 365
    ensures (5 * (MonthStart(mp) + d - 1) + 2) / 153 == mp
    ensures mp == 11 && d == 29 <==> MonthStart(mp) + d - 1 == 365
  {
  }

  /** Every day of a March-based year lies in one month. */
  lemma DayOfMonth(doy: int)
    requires 0 <= doy <= 365
    ensures var mp := (5 * doy + 2) / 153;
            var d := doy - MonthStart(mp) + 1;
      && 0 <= mp <= 11 && 1 <= d <= 31
      && (mp in {1, 3, 6, 8} ==> d <= 30)
      && (mp == 11 ==> d <= 29 && (d == 29 <==> doy == 365))
  {
  }

  // ---------------------------------------------------------------------
  // March form: what both closed forms compute with
  // ---------------------------------------------------------------------

  datatype March = March(era: int, yoe: int, mp: int, day: int) {
    predicate Valid() {
      && 0 <= yoe < 400 && 0 <= mp <= 11 && 1 <= day <= 31
      && (mp in {1, 3, 6, 8} ==> day <= 30)
      && (mp == 11 ==> day <= 29 && (day == 29 ==> LongYear(yoe)))
    }

    function ToDate(): Date {
      Date(era * 400 + yoe + (if mp < 10 then 0 else 1), if mp < 10 then mp + 3 else mp - 9, day)
    }

    function OfEra(): int {
      YearStart(yoe) + MonthStart(mp) + day - 1
    }

    function Number(): int {
      era * 146_097 + OfEra() - 719_468
    }
  }

  function ToMarch(d: Date): March {
    var y := if d.month <= 2 then d.year - 1 else d.year;
    March(y / 400, y % 400, if d.month > 2 then d.month - 3 else d.month + 9, d.day)
  }

  lemma MarchOfDate(d: Date)
    requires Valid(d)
    ensures ToMarch(d).Valid() && ToMarch(d).ToDate() == d
    ensures DaysFromCivil(d) == ToMarch(d).Number()
  {
    hide DaysFromCivil, March.Number, LongYear, IsLeapYear;
    var m := ToMarch(d);
    var y := if d.month <= 2 then d.year - 1 else d.year;
    MarchNumber(d);
    LongYearIsLeap(m.era, m.yoe);
    assert y == m.era * 400 + m.yoe;
  }

  lemma MarchNumber(d: Date)
    requires 1 <= d.month <= 12
    ensures DaysFromCivil(d) == ToMarch(d).Number()
  {
    var y := if d.month <= 2 then d.year - 1 else d.year;
    FloorEra(y);
    YearStartIs(y % 400);
    hide YearStart;
    assert y - y / 400 * 400 == y % 400;
  }

  lemma DateOfMarch(m: March)
    requires m.Valid()
    ensures Valid(m.ToDate()) && ToMarch(m.ToDate()) == m
  {
    LongYearIsLeap(m.era, m.yoe);
    var y := m.era * 400 + m.yoe;
    assert y / 400 == m.era && y % 400 == m.yoe;
  }

  lemma CivilOfYearDay(mp: int, d: int, y: int)
    requires 0 <= mp <= 11 && 1 <= d <= 31
    requires mp in {1, 3, 6, 8} ==> d <= 30
    requires mp == 11 ==> d <= 29
    ensures CivilInYear(y, MonthStart(mp) + d - 1)
         == Date(y + (if mp < 10 then 0 else 1), if mp < 10 then mp + 3 else mp - 9, d)
  {
    MonthOfDay(mp, d);
  }

  lemma CivilOfEraDay(m: March)
    requires m.Valid()
    ensures 0 <= m.OfEra() < 146_097
    ensures CivilInEra(m.era, m.OfEra()) == m.ToDate()
  {
    hide MonthStart, YearStart, YearOfEra, CivilInYear, LongYear, Quotient;
    var doy := MonthStart(m.mp) + m.day - 1;
    MonthOfDay(m.mp, m.day);
    YearOfDay(m.yoe, doy);
    CivilOfYearDay(m.mp, m.day, m.yoe + m.era * 400);
    YearStartIs(m.yoe);
  }

  lemma YearStartIs(yoe: int)
    requires 0 <= yoe
    ensures YearStart(yoe) == 365 * yoe + Quotient(yoe, 4) - Quotient(yoe, 100)
  {
  }

  lemma CivilOfMarch(m: March)
    requires m.Valid()
    ensures 0 <= m.OfEra() < 146_097
    ensures CivilFromDays(m.Number()) == m.ToDate()
  {
    hide CivilInEra, March.OfEra, MonthStart, YearStart;
    CivilOfEraDay(m);
    var doe := m.OfEra();
    var z := m.era * 146_097 + doe;
    FloorDayEra(z);
    assert z / 146_097 == m.era;
  }

  lemma MarchOfDay(n: int) returns (m: March)
    ensures m.Valid() && m.Number() == n && CivilFromDays(n) == m.ToDate()
  {
    var z := n + 719_468;
    var yoe, doy := DayOfYear(z % 146_097);
    DayOfMonth(doy);
    var mp := (5 * doy + 2) / 153;
    m := March(z / 146_097, yoe, mp, doy - MonthStart(mp) + 1);
    CivilOfMarch(m);
  }

  // ---------------------------------------------------------------------
  // The bijection between days and dates
  // ---------------------------------------------------------------------

  /** Every valid date survives the trip through its day number. */
  lemma DateRoundTrip(d: Date)
    requires Valid(d)
    ensures CivilFromDays(DaysFromCivil(d)) == d
  {
    MarchOfDate(d);
    CivilOfMarch(ToMarch(d));
  }

  /** Every day number, negative eras included, denotes a valid date and is
      that date's day number. */
  lemma DayRoundTrip(n: int)
    ensures Valid(CivilFromDays(n))
    ensures DaysFromCivil(CivilFromDays(n)) == n
  {
    var m := MarchOfDay(n);
    DateOfMarch(m);
    MarchOfDate(m.ToDate());
  }

  lemma NextYearStart(yoe: int)
    requires 0 <= yoe < 400
    ensures YearStart(yoe + 1) == YearStart(yoe) + (if LongYear(yoe) then 366 else 365) - if yoe == 399 then 1 else 0
  {
  }

  function NextMarch(m: March): March {
    var last := if m.mp in {1, 3, 6, 8} then 30 else if m.mp < 11 then 31 else if LongYear(m.yoe) then 29 else 28;
    if m.day < last then m.(day := m.day + 1)
    else if m.mp < 11 then m.(mp := m.mp + 1, day := 1)
    else if m.yoe < 399 then March(m.era, m.yoe + 1, 0, 1)
    else March(m.era + 1, 0, 0, 1)
  }

  lemma NextMarchIsOneMore(m: March)
    requires m.Valid()
    ensures NextMarch(m).Valid() && NextMarch(m).Number() == m.Number() + 1
  {
    hide MonthStart, YearStart, LongYear;
    MonthLengths(m.mp);
    NextYearStart(m.yoe);
    EraEnds();
  }

  lemma MonthLengths(mp: int)
    requires 0 <= mp <= 11
    ensures MonthStart(0) == 0 && MonthStart(11) == 337
    ensures mp < 11 ==> MonthStart(mp + 1) == MonthStart(mp) + if mp in {1, 3, 6, 8} then 30 else 31
  {
  }

  lemma EraEnds()
    ensures YearStart(0) == 0 && YearStart(400) == 146_096 && LongYear(399)
  {
  }

  lemma NextMarchIsNext(m: March)
    requires m.Valid()
    ensures NextMarch(m).ToDate() == Next(m.ToDate())
  {
    LongYearIsLeap(m.era, m.yoe);
  }

  /** `days_from_civil` advances by one from each date to its successor. */
  lemma NextIsOneMore(d: Date)
    requires Valid(d)
    ensures Valid(Next(d)) && DaysFromCivil(Next(d)) == DaysFromCivil(d) + 1
  {
    var m := ToMarch(d);
    MarchOfDate(d);
    NextMarchIsOneMore(m);
    NextMarchIsNext(m);
    DateOfMarch(NextMarch(m));
    MarchOfDate(NextMarch(m).ToDate());
  }

  lemma CivilOfNext(n: int)
    ensures CivilFromDays(n + 1) == Next(CivilFromDays(n))
  {
    hide CivilFromDays, March.Number;
    var m := MarchOfDay(n);
    NextMarchIsOneMore(m);
    NextMarchIsNext(m);
    CivilOfMarch(NextMarch(m));
  }

  lemma CivilOfPrevious(n: int)
    ensures CivilFromDays(n) == Previous(CivilFromDays(n + 1))
  {
    DayRoundTrip(n);
    CivilOfNext(n);
    NextThenPrevious(CivilFromDays(n));
  }

  lemma NextThenPrevious(d: Date)
    requires Valid(d)
    ensures Previous(Next(d)) == d
  {
  }

  lemma CivilOfEpoch()
    ensures CivilFromDays(0) == EPOCH
  {
    hide CivilFromDays;
    assert DaysFromCivil(EPOCH) == 0;
    DateRoundTrip(EPOCH);
  }

  /** The closed form is the calendar: `civil_from_days(n)` is the date that
      counting `n` days from the epoch reaches, for every integer `n`. */
  lemma {:induction false} CivilFromDaysCounts(n: int)
    ensures Counted(n) == CivilFromDays(n)
    decreases if n < 0 then -n else n
  {
    hide CivilFromDays;
    if n > 0 {
      CivilFromDaysCounts(n - 1);
      CivilOfNext(n - 1);
    } else if n < 0 {
      CivilFromDaysCounts(n + 1);
      CivilOfPrevious(n);
    } else {
      CivilOfEpoch();
    }
  }

  lemma {:induction false} YearStartGrows(a: int, b: int)
    requires 0 <= a <= b < 400
    ensures YearStart(a) <= YearStart(b)
    decreases b - a
  {
    if a < b {
      NextYearStart(a);
      YearStartGrows(a + 1, b);
    }
  }

  predicate Earlier(m: March, n: March) {
    || m.era < n.era
    || (m.era == n.era
        && (m.yoe < n.yoe || (m.yoe == n.yoe && (m.mp < n.mp || (m.mp == n.mp && m.day < n.day)))))
  }

  lemma MarchOrder(m: March, n: March)
    requires m.Valid() && n.Valid() && Earlier(m, n)
    ensures m.Number() < n.Number()
  {
    hide YearStart, LongYear, MonthStart, CivilInEra;
    CivilOfEraDay(m);
    CivilOfEraDay(n);
    MonthOfDay(n.mp, n.day);
    if m.era < n.era {
      hide March.OfEra;
    } else if m.yoe < n.yoe {
      NextYearStart(m.yoe);
      YearStartGrows(m.yoe + 1, n.yoe);
      DayOfYearBound(m);
    } else if m.mp < n.mp {
      MonthStartGrows(m, n.mp);
    }
  }

  lemma DayOfYearBound(m: March)
    requires m.Valid()
    ensures MonthStart(m.mp) + m.day - 1 < if LongYear(m.yoe) then 366 else 365
    ensures m.yoe == 399 ==> LongYear(399)
  {
    MonthOfDay(m.mp, m.day);
  }

  lemma MonthStartGrows(m: March, mp: int)
    requires m.Valid() && m.mp < mp <= 11
    ensures MonthStart(m.mp) + m.day - 1 < MonthStart(mp)
  {
  }

  /** Day numbers and dates are ordered alike. */
  lemma OrderAgrees(a: Date, b: Date)
    requires Valid(a) && Valid(b)
    ensures Before(a, b) <==> DaysFromCivil(a) < DaysFromCivil(b)
  {
    hide DaysFromCivil, March.Number;
    MarchOfDate(a);
    MarchOfDate(b);
    if Before(a, b) {
      MarchBefore(a, b);
      MarchOrder(ToMarch(a), ToMarch(b));
    } else if Before(b, a) {
      MarchBefore(b, a);
      MarchOrder(ToMarch(b), ToMarch(a));
    }
  }

  lemma MarchBefore(a: Date, b: Date)
    requires Valid(a) && Valid(b) && Before(a, b)
    ensures Earlier(ToMarch(a), ToMarch(b))
  {
  }
}
