/** chronicle/src/time.rs: Gregorian dates from day counts. */
module CivilTime {

  // ------------------------------------------------------------------------------- calendar

  datatype Date = Date(year: int, month: int, day: int)

  /** Leap years as in Appendix C of RFC 3339. */
  predicate IsLeap(year: int) {
    year % 4 == 0 && (year % 100 != 0 || year % 400 == 0)
  }

  /** Section 5.7 of RFC 3339. */
  function DaysInMonth(year: int, month: int): int {
    if month == 2 then (if IsLeap(year) then 29 else 28)
    else if month == 4 || month == 6 || month == 9 || month == 11 then 30
    else 31
  }

  predicate ValidDate(d: Date) {
    1 <= d.month <= 12 && 1 <= d.day <= DaysInMonth(d.year, d.month)
  }

  function NextDate(d: Date): Date {
    if d.day < DaysInMonth(d.year, d.month) then d.(day := d.day + 1)
    else if d.month < 12 then Date(d.year, d.month + 1, 1)
    else Date(d.year + 1, 1, 1)
  }

  // ------------------------------------------------------------------------- the conversion

  /** Integer division of the source truncates toward zero. */
  function TruncDiv(a: int, b: int): int
    requires b > 0
  {
    if a >= 0 then a / b else -((-a) / b)
  }

  function CivilFromDays(daysSinceEpoch: int): Date {
    var z := daysSinceEpoch + 719_468;
    CivilFromEra(EraOfDay(z), z - EraOfDay(z) * 146_097)
  }

  function EraOfDay(z: int): int {
    TruncDiv(if z >= 0 then z else z - 146_096, 146_097)
  }

  function CivilFromEra(era: int, dayOfEra: int): Date {
    DateInEra(era, YearOfDay(dayOfEra), DayOfYear(dayOfEra, YearOfDay(dayOfEra)))
  }

  function DayOfYear(dayOfEra: int, yearOfEra: int): int {
    dayOfEra - (365 * yearOfEra + TruncDiv(yearOfEra, 4) - TruncDiv(yearOfEra, 100))
  }

  function YearOfDay(dayOfEra: int): int {
    TruncDiv(dayOfEra - TruncDiv(dayOfEra, 1_460) + TruncDiv(dayOfEra, 36_524) - TruncDiv(dayOfEra, 146_096), 365)
  }

  function DateInEra(era: int, yearOfEra: int, dayOfYear: int): Date {
    MarchDate(yearOfEra + era * 400, MonthPrime(dayOfYear), MonthDay(dayOfYear))
  }

  /** Months counted from March, from the day of a year that starts on March 1. */
  function MonthPrime(dayOfYear: int): int {
    TruncDiv(5 * dayOfYear + 2, 153)
  }

  function MonthDay(dayOfYear: int): int {
    dayOfYear - TruncDiv(153 * MonthPrime(dayOfYear) + 2, 5) + 1
  }

  /** Months 10 and 11 after March belong to the next calendar year. */
  function MarchDate(year: int, monthPrime: int, day: int): Date {
    var month := monthPrime + if monthPrime < 10 then 3 else -9;
    Date(year + if month <= 2 then 1 else 0, month, day)
  }

  // ---------------------------------------------- eras of 400 years, years starting in March

  /** A day of an era as century, four-year group, year and day of a year that starts on March 1. */
  datatype EraDay = EraDay(century: int, group: int, year: int, day: int)

  /** The March-based years of 366 days. */
  predicate LongYear(e: EraDay) {
    e.year == 3 && (e.group != 24 || e.century == 3)
  }

  predicate ValidEraDay(e: EraDay) {
    && 0 <= e.century <= 3 && 0 <= e.group <= 24 && 0 <= e.year <= 3
    && 0 <= e.day <= if LongYear(e) then 365 else 364
  }

  function EraDayNumber(e: EraDay): int {
    36_524 * e.century + 1_461 * e.group + 365 * e.year + e.day
  }

  function YearOfEra(e: EraDay): int {
    100 * e.century + 4 * e.group + e.year
  }

  function SplitEraDay(n: int): EraDay
    requires 0 <= n <= 146_096
  {
    var century := if n / 36_524 > 3 then 3 else n / 36_524;
    var n1 := n - 36_524 * century;
    var group := n1 / 1_461;
    var n2 := n1 - 1_461 * group;
    var year := if n2 / 365 > 3 then 3 else n2 / 365;
    EraDay(century, group, year, n2 - 365 * year)
  }

  lemma SplitIsInverse(n: int)
    requires 0 <= n <= 146_096
    ensures ValidEraDay(SplitEraDay(n)) && EraDayNumber(SplitEraDay(n)) == n
  {
  }

  /** The year formula of the source, for each century separately. */
  lemma YearFormula(e: EraDay)
    requires ValidEraDay(e)
    ensures var n := EraDayNumber(e);
            && 0 <= n <= 146_096
            && (n - n / 1_460 + n / 36_524 - n / 146_096) / 365 == YearOfEra(e)
  {
    var n := EraDayNumber(e);
    var rest := 24 * e.century + e.group + 365 * e.year + e.day;
    var late := if rest >= 1_460 then 1 else 0;
    QuotientIs(n, 1_460, 25 * e.century + e.group + late, rest - 1_460 * late);
    var inCentury := 1_461 * e.group + 365 * e.year + e.day;
    var end := if inCentury == 36_524 then 1 else 0;
    QuotientIs(n, 36_524, e.century + end, inCentury - 36_524 * end);
    var last := if n == 146_096 then 1 else 0;
    QuotientIs(n, 146_096, last, n - 146_096 * last);
    QuotientIs(n - n / 1_460 + n / 36_524 - n / 146_096, 365, YearOfEra(e), e.day - late + end - last);
  }

  lemma QuotientIs(n: int, d: int, q: int, r: int)
    requires d > 0 && n == d * q + r && 0 <= r < d
    ensures n / d == q
  {
    var k, m := n / d, n % d;
    assert n == d * k + m;
    assert d * (q - k) == d * q - d * k;
    SmallMultiple(d, q - k, m - r);
  }

  lemma SmallMultiple(d: int, x: int, y: int)
    requires d > 0 && d * x == y && -d < y < d
    ensures x == 0
  {
    MultipleGrows(d, x);
    MultipleGrows(d, -x);
  }

  lemma MultipleGrows(d: int, x: int)
    requires d > 0
    ensures x >= 1 ==> d * x >= d
  {
    if x >= 1 {
      assert d * (x - 1) >= 0;
    }
  }

  lemma YearStart(e: EraDay)
    requires ValidEraDay(e)
    ensures var y := YearOfEra(e);
            EraDayNumber(e) - (365 * y + y / 4 - y / 100) == e.day
  {
  }

  // ----------------------------------------------------------------- months counted from March

  function DateOf(era: int, e: EraDay): Date {
    DateInEra(era, YearOfEra(e), e.day)
  }

  lemma EraQuotient(q: int, r: int)
    requires 0 <= r < 146_097
    ensures (146_097 * q + r) / 146_097 == q
  {
  }

  lemma EraFormula(d: int, era: int, n: int)
    requires d + 719_468 == 146_097 * era + n && 0 <= n <= 146_096
    ensures CivilFromDays(d) == CivilFromEra(era, n)
  {
    EraIs(d + 719_468, era, n);
  }

  lemma EraIs(z: int, era: int, n: int)
    requires z == 146_097 * era + n && 0 <= n <= 146_096
    ensures EraOfDay(z) == era
  {
    EraQuotient(era, n);
    EraQuotient(-era, 146_096 - n);
    assert -(z - 146_096) == 146_097 * (-era) + (146_096 - n);
  }

  lemma EraIsDateOf(era: int, n: int)
    requires 0 <= n <= 146_096
    ensures CivilFromEra(era, n) == DateOf(era, SplitEraDay(n))
  {
    var e := SplitEraDay(n);
    SplitIsInverse(n);
    YearFormula(e);
    YearStart(e);
    YearIs(n, YearOfEra(e));
    DayIs(n, YearOfEra(e), e.day);
  }

  lemma YearIs(n: int, year: int)
    requires 0 <= n && 0 <= n - n / 1_460 + n / 36_524 - n / 146_096
    requires year == (n - n / 1_460 + n / 36_524 - n / 146_096) / 365
    ensures YearOfDay(n) == year
  {
  }

  lemma DayIs(n: int, year: int, day: int)
    requires 0 <= year && day == n - (365 * year + year / 4 - year / 100)
    ensures DayOfYear(n, year) == day
  {
  }

  lemma ShiftBy4(q: int, k: int)
    ensures (4 * q + k) % 4 == k % 4
  {
  }

  lemma ShiftBy100(q: int, k: int)
    ensures (100 * q + k) % 100 == k % 100
  {
  }

  lemma ShiftBy400(q: int, k: int)
    ensures (400 * q + k) % 400 == k % 400
  {
  }

  lemma LeapWithinEra(era: int, k: int)
    ensures IsLeap(400 * era + k) <==> IsLeap(k)
  {
    var y := 400 * era + k;
    assert y == 4 * (100 * era) + k && y == 100 * (4 * era) + k;
    ShiftBy4(100 * era, k);
    ShiftBy100(4 * era, k);
    ShiftBy400(era, k);
  }

  lemma MultipleAtEnd(k: int, m: int)
    requires 1 <= k <= m
    ensures k % m == 0 <==> k == m
  {
    if k < m {
      assert k % m == k;
    }
  }

  lemma LeapInFirstEra(e: EraDay)
    requires ValidEraDay(e)
    ensures IsLeap(YearOfEra(e) + 1) <==> LongYear(e)
  {
    var k, inCentury, inGroup := YearOfEra(e) + 1, 4 * e.group + e.year + 1, e.year + 1;
    assert k == 4 * (25 * e.century + e.group) + inGroup && k == 100 * e.century + inCentury;
    ShiftBy4(25 * e.century + e.group, inGroup);
    ShiftBy100(e.century, inCentury);
    MultipleAtEnd(inGroup, 4);
    MultipleAtEnd(inCentury, 100);
    MultipleAtEnd(k, 400);
  }

  /** February 29 closes a March-based year exactly when the next calendar year is a leap year. */
  lemma LeapAtYearEnd(era: int, e: EraDay)
    requires ValidEraDay(e)
    ensures IsLeap(400 * era + YearOfEra(e) + 1) <==> LongYear(e)
  {
    LeapWithinEra(era, YearOfEra(e) + 1);
    LeapInFirstEra(e);
  }

  function MarchLength(year: int, monthPrime: int): int {
    if monthPrime == 11 then (if IsLeap(year + 1) then 29 else 28)
    else if monthPrime == 1 || monthPrime == 3 || monthPrime == 6 || monthPrime == 8 then 30
    else 31
  }

  lemma MarchNext(year: int, mp: int, day: int)
    requires 0 <= mp <= 11 && 1 <= day <= MarchLength(year, mp)
    ensures ValidDate(MarchDate(year, mp, day))
    ensures NextDate(MarchDate(year, mp, day))
         == if day < MarchLength(year, mp) then MarchDate(year, mp, day + 1)
            else if mp < 11 then MarchDate(year, mp + 1, 1)
            else MarchDate(year + 1, 0, 1)
  {
    assert mp == 0 || mp == 1 || mp == 2 || mp == 3 || mp == 4 || mp == 5 || mp == 6 || mp == 7 || mp == 8 || mp == 9
        || mp == 10 || mp == 11;
  }

  /** How many days of the March-based year precede the month; February may run to day 366. */
  function MonthStart(mp: int): int {
    if mp <= 0 then 0 else if mp == 1 then 31 else if mp == 2 then 61 else if mp == 3 then 92
    else if mp == 4 then 122 else if mp == 5 then 153 else if mp == 6 then 184 else if mp == 7 then 214
    else if mp == 8 then 245 else if mp == 9 then 275 else if mp == 10 then 306 else if mp == 11 then 337
    else 366
  }

  lemma MonthOfDay(day: int)
    requires 0 <= day <= 365
    ensures 0 <= MonthPrime(day) <= 11
    ensures MonthStart(MonthPrime(day)) <= day < MonthStart(MonthPrime(day) + 1)
    ensures MonthDay(day) == day - MonthStart(MonthPrime(day)) + 1
  {
  }

  lemma MonthsTile(mp: int)
    requires 0 <= mp <= 10
    ensures MonthStart(mp + 1) - MonthStart(mp) == MarchLength(0, mp)
  {
  }

  lemma NextInTable(day: int, mp: int, mp': int)
    requires 0 <= mp <= 11 && 0 <= mp' <= 11
    requires MonthStart(mp) <= day < MonthStart(mp + 1) && MonthStart(mp') <= day + 1 < MonthStart(mp' + 1)
    ensures if mp == 11 || day - MonthStart(mp) + 1 < MarchLength(0, mp) then mp' == mp
            else mp' == mp + 1 && day + 1 == MonthStart(mp')
  {
  }

  /** Within a March-based year the next day is the next day of the month, or a first of a month. */
  lemma MonthStep(day: int)
    requires 0 <= day < 365
    ensures var mp := MonthPrime(day);
            if mp == 11 || MonthDay(day) < MarchLength(0, mp)
            then MonthPrime(day + 1) == mp && MonthDay(day + 1) == MonthDay(day) + 1
            else MonthPrime(day + 1) == mp + 1 && MonthDay(day + 1) == 1
  {
    MonthOfDay(day);
    MonthOfDay(day + 1);
    NextInTable(day, MonthPrime(day), MonthPrime(day + 1));
  }

  /** The first day of the following March-based year. */
  function NextYear(era: int, e: EraDay): (int, EraDay) {
    if e.year < 3 then (era, EraDay(e.century, e.group, e.year + 1, 0))
    else if e.group < 24 then (era, EraDay(e.century, e.group + 1, 0, 0))
    else if e.century < 3 then (era, EraDay(e.century + 1, 0, 0, 0))
    else (era + 1, EraDay(0, 0, 0, 0))
  }

  function Successor(era: int, e: EraDay): (int, EraDay) {
    if e.day < (if LongYear(e) then 365 else 364) then (era, e.(day := e.day + 1)) else NextYear(era, e)
  }

  lemma SuccessorNumber(era: int, e: EraDay)
    requires ValidEraDay(e)
    ensures var (era', e') := Successor(era, e);
            && ValidEraDay(e')
            && 146_097 * era' + EraDayNumber(e') == 146_097 * era + EraDayNumber(e) + 1
  {
  }

  lemma SplitIsUnique(e: EraDay)
    requires ValidEraDay(e)
    ensures 0 <= EraDayNumber(e) <= 146_096 && SplitEraDay(EraDayNumber(e)) == e
  {
    var n := EraDayNumber(e);
    var n1 := 1_461 * e.group + 365 * e.year + e.day;
    var end := if n1 == 36_524 then 1 else 0;
    assert 0 <= n1 <= 36_524 && (end == 1 ==> e.century == 3);
    QuotientIs(n, 36_524, e.century + end, n1 - 36_524 * end);
    var n2 := 365 * e.year + e.day;
    QuotientIs(n1, 1_461, e.group, n2);
    var long := if e.day == 365 then 1 else 0;
    QuotientIs(n2, 365, e.year + long, e.day - 365 * long);
  }

  lemma DayFits(year: int, day: int, mp: int)
    requires 0 <= mp <= 11 && MonthStart(mp) <= day < MonthStart(mp + 1)
    requires day <= if IsLeap(year + 1) then 365 else 364
    ensures 1 <= day - MonthStart(mp) + 1 <= MarchLength(year, mp)
    ensures mp == 11 ==> MonthStart(mp) == 337
  {
    if mp < 11 {
      MonthsTile(mp);
    }
  }

  lemma DayFitsMonth(era: int, e: EraDay)
    requires ValidEraDay(e)
    ensures var y := YearOfEra(e) + era * 400;
            && 0 <= MonthPrime(e.day) <= 11
            && 1 <= MonthDay(e.day) <= MarchLength(y, MonthPrime(e.day))
            && (MonthPrime(e.day) == 11 ==> MonthDay(e.day) == e.day - 336)
            && (IsLeap(y + 1) <==> LongYear(e))
  {
    MonthOfDay(e.day);
    LeapAtYearEnd(era, e);
    DayFits(YearOfEra(e) + era * 400, e.day, MonthPrime(e.day));
  }

  lemma DateOfNextDay(era: int, e: EraDay)
    requires ValidEraDay(e) && ValidEraDay(e.(day := e.day + 1))
    ensures DateOf(era, e.(day := e.day + 1)) == NextDate(DateOf(era, e))
  {
    DayFitsMonth(era, e);
    MarchNext(YearOfEra(e) + era * 400, MonthPrime(e.day), MonthDay(e.day));
    MonthStep(e.day);
  }

  lemma DateOfNextYear(era: int, e: EraDay)
    requires ValidEraDay(e) && e.day == if LongYear(e) then 365 else 364
    ensures var (era', e') := NextYear(era, e); DateOf(era', e') == NextDate(DateOf(era, e))
  {
    var y := YearOfEra(e) + era * 400;
    LastDayOfYear(era, e, y);
    MarchNext(y, 11, MonthDay(e.day));
    YearAfter(era, e);
    FirstDayOfYear();
  }

  lemma LastDayOfYear(era: int, e: EraDay, y: int)
    requires ValidEraDay(e) && e.day == (if LongYear(e) then 365 else 364) && y == YearOfEra(e) + era * 400
    ensures MonthPrime(e.day) == 11 && 1 <= MonthDay(e.day) == MarchLength(y, 11)
  {
    DayFitsMonth(era, e);
    LastMonth(e.day);
  }

  lemma YearAfter(era: int, e: EraDay)
    requires ValidEraDay(e)
    ensures var (era', e') := NextYear(era, e);
            e'.day == 0 && YearOfEra(e') + era' * 400 == YearOfEra(e) + era * 400 + 1
  {
  }

  lemma FirstDayOfYear()
    ensures MonthPrime(0) == 0 && MonthDay(0) == 1
  {
  }

  lemma DateOfIsValid(era: int, e: EraDay)
    requires ValidEraDay(e)
    ensures ValidDate(DateOf(era, e))
  {
    DayFitsMonth(era, e);
    MarchNext(YearOfEra(e) + era * 400, MonthPrime(e.day), MonthDay(e.day));
  }

  lemma DateOfSuccessor(era: int, e: EraDay)
    requires ValidEraDay(e)
    ensures var (era', e') := Successor(era, e); DateOf(era', e') == NextDate(DateOf(era, e))
  {
    if e.day < (if LongYear(e) then 365 else 364) {
      DateOfNextDay(era, e);
    } else {
      DateOfNextYear(era, e);
    }
  }

  lemma LastMonth(day: int)
    requires 337 <= day <= 365
    ensures MonthPrime(day) == 11
  {
  }

  /** Every result is a date of the calendar, and the next day's result is the calendar's next date. */
  lemma CivilStep(d: int)
    ensures ValidDate(CivilFromDays(d))
    ensures CivilFromDays(d + 1) == NextDate(CivilFromDays(d))
  {
    var z := d + 719_468;
    SplitIsInverse(z % 146_097);
    CivilStepAt(d, z / 146_097, SplitEraDay(z % 146_097));
  }

  lemma CivilIsDateOf(d: int, era: int, e: EraDay)
    requires ValidEraDay(e) && d + 719_468 == 146_097 * era + EraDayNumber(e)
    ensures CivilFromDays(d) == DateOf(era, e)
  {
    SplitIsUnique(e);
    EraFormula(d, era, EraDayNumber(e));
    EraIsDateOf(era, EraDayNumber(e));
  }

  lemma CivilStepAt(d: int, era: int, e: EraDay)
    requires ValidEraDay(e) && d + 719_468 == 146_097 * era + EraDayNumber(e)
    ensures ValidDate(CivilFromDays(d)) && CivilFromDays(d + 1) == NextDate(CivilFromDays(d))
  {
    SuccessorNumber(era, e);
    var (era', e') := Successor(era, e);
    CivilIsDateOf(d, era, e);
    CivilIsDateOf(d + 1, era', e');
    DateOfIsValid(era, e);
    DateOfSuccessor(era, e);
  }

  lemma CivilEpoch()
    ensures CivilFromDays(0) == Date(1970, 1, 1)
  {
  }

  // ------------------------------------------------------------- counting days the plain way

  function YearLength(year: int): int {
    if IsLeap(year) then 366 else 365
  }

  /** Days from 1970-01-01 to January 1 of `year`, year by year. */
  function DaysBeforeYear(year: int): int
    decreases if year >= 1970 then year - 1970 else 1970 - year
  {
    if year == 1970 then 0
    else if year > 1970 then DaysBeforeYear(year - 1) + YearLength(year - 1)
    else DaysBeforeYear(year + 1) - YearLength(year)
  }

  function DaysBeforeMonth(year: int, month: int): int
    requires 1 <= month <= 12
    decreases month
  {
    if month == 1 then 0 else DaysBeforeMonth(year, month - 1) + DaysInMonth(year, month - 1)
  }

  function DayNumber(d: Date): int
    requires ValidDate(d)
  {
    DaysBeforeYear(d.year) + DaysBeforeMonth(d.year, d.month) + d.day - 1
  }

  lemma MonthTotals(year: int)
    ensures DaysBeforeMonth(year, 1) == 0
    ensures forall m :: 1 <= m < 12 ==> DaysBeforeMonth(year, m + 1) == DaysBeforeMonth(year, m) + DaysInMonth(year, m)
    ensures DaysBeforeMonth(year, 12) + 31 == YearLength(year)
  {
    assert DaysBeforeMonth(year, 3) == 31 + DaysInMonth(year, 2);
    assert DaysBeforeMonth(year, 5) == DaysBeforeMonth(year, 3) + 61;
    assert DaysBeforeMonth(year, 7) == DaysBeforeMonth(year, 5) + 61;
    assert DaysBeforeMonth(year, 9) == DaysBeforeMonth(year, 7) + 62;
    assert DaysBeforeMonth(year, 11) == DaysBeforeMonth(year, 9) + 61;
  }

  lemma YearTotals(year: int)
    ensures DaysBeforeYear(year + 1) == DaysBeforeYear(year) + YearLength(year)
  {
  }

  lemma NextDateNumber(d: Date)
    requires ValidDate(d)
    ensures ValidDate(NextDate(d)) && DayNumber(NextDate(d)) == DayNumber(d) + 1
  {
    if d.day == DaysInMonth(d.year, d.month) {
      if d.month < 12 {
        NextMonthNumber(d.year, d.month);
      } else {
        NextYearNumber(d.year);
      }
    }
  }

  lemma NextMonthNumber(year: int, month: int)
    requires 1 <= month < 12
    ensures ValidDate(Date(year, month + 1, 1))
    ensures DayNumber(Date(year, month + 1, 1)) == DayNumber(Date(year, month, DaysInMonth(year, month))) + 1
  {
  }

  lemma NextYearNumber(year: int)
    ensures DayNumber(Date(year + 1, 1, 1)) == DayNumber(Date(year, 12, 31)) + 1
  {
    MonthTotals(year);
    YearTotals(year);
  }

  /** `f` walks through the calendar day by day, from 1970-01-01 at day 0. */
  ghost predicate StepAt(f: int -> Date, d: int) {
    ValidDate(f(d)) && f(d + 1) == NextDate(f(d))
  }

  ghost predicate WalksCalendar(f: int -> Date) {
    f(0) == Date(1970, 1, 1) && forall d :: StepAt(f, d)
  }

  lemma CivilWalksCalendar()
    ensures WalksCalendar(CivilFromDays)
  {
    CivilEpoch();
    forall d ensures StepAt(CivilFromDays, d) {
      CivilStep(d);
    }
  }

  lemma {:induction false} CountingBackAlong(f: int -> Date, d: int)
    requires WalksCalendar(f)
    ensures ValidDate(f(d)) && DayNumber(f(d)) == d
    decreases if d >= 0 then d else -d
  {
    assert StepAt(f, d);
    if d == 0 {
      assert DaysBeforeYear(1970) == 0 && DaysBeforeMonth(1970, 1) == 0;
    } else if d > 0 {
      CountingBackAlong(f, d - 1);
      assert StepAt(f, d - 1);
      NextDateNumber(f(d - 1));
    } else {
      CountingBackAlong(f, d + 1);
      NextDateNumber(f(d));
    }
  }

  /** Counting back from 1970-01-01 recovers the day count. */
  lemma CountingBack(d: int)
    ensures ValidDate(CivilFromDays(d)) && DayNumber(CivilFromDays(d)) == d
  {
    CivilWalksCalendar();
    CountingBackAlong(CivilFromDays, d);
  }

  predicate Before(a: Date, b: Date) {
    a.year < b.year || (a.year == b.year && (a.month < b.month || (a.month == b.month && a.day < b.day)))
  }

  lemma {:induction false} YearsGrow(y1: int, y2: int)
    requires y1 < y2
    ensures DaysBeforeYear(y1) + YearLength(y1) <= DaysBeforeYear(y2)
    decreases y2 - y1
  {
    YearTotals(y1);
    if y1 + 1 < y2 {
      YearsGrow(y1 + 1, y2);
    }
  }

  lemma {:induction false} MonthsGrow(year: int, m1: int, m2: int)
    requires 1 <= m1 < m2 <= 12
    ensures DaysBeforeMonth(year, m1) + DaysInMonth(year, m1) <= DaysBeforeMonth(year, m2)
    decreases m2 - m1
  {
    if m1 + 1 < m2 {
      MonthsGrow(year, m1, m2 - 1);
    }
  }

  lemma DayWithinYear(d: Date)
    requires ValidDate(d)
    ensures 0 <= DaysBeforeMonth(d.year, d.month) + d.day - 1 < YearLength(d.year)
  {
    MonthTotals(d.year);
    if d.month > 1 {
      MonthsGrow(d.year, 1, d.month);
    }
    if d.month < 12 {
      MonthsGrow(d.year, d.month, 12);
    }
  }

  lemma NumberFollowsOrder(a: Date, b: Date)
    requires ValidDate(a) && ValidDate(b) && Before(a, b)
    ensures DayNumber(a) < DayNumber(b)
  {
    DayWithinYear(a);
    DayWithinYear(b);
    if a.year < b.year {
      YearsGrow(a.year, b.year);
    } else if a.month < b.month {
      MonthsGrow(a.year, a.month, b.month);
    }
  }

  lemma SameNumberSameDate(a: Date, b: Date)
    requires ValidDate(a) && ValidDate(b)
    ensures DayNumber(a) == DayNumber(b) <==> a == b
    ensures DayNumber(a) < DayNumber(b) <==> Before(a, b)
  {
    if Before(a, b) {
      NumberFollowsOrder(a, b);
    } else if Before(b, a) {
      NumberFollowsOrder(b, a);
    }
  }

  /** With `CountingBack`: the conversion is a bijection between day counts and calendar dates. */
  lemma CivilIsOntoDates(t: Date)
    requires ValidDate(t)
    ensures CivilFromDays(DayNumber(t)) == t
  {
    var n := DayNumber(t);
    CountingBack(n);
    SameNumberSameDate(CivilFromDays(n), t);
  }

  lemma CivilFollowsTime(d1: int, d2: int)
    ensures d1 < d2 <==> Before(CivilFromDays(d1), CivilFromDays(d2))
  {
    CountingBack(d1);
    CountingBack(d2);
    SameNumberSameDate(CivilFromDays(d1), CivilFromDays(d2));
  }
}
