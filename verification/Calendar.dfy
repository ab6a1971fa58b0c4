/** The proleptic Gregorian calendar and the day count from 1970-01-01. */
module Calendar {

  // ----- the calendar, by its rules -----

  predicate Leap(y: int)
  {
    y % 4 == 0 && (y % 100 != 0 || y % 400 == 0)
  }

  function MonthLength(y: int, m: int): int
  {
    if m == 2 then (if Leap(y) then 29 else 28)
    else if m == 4 || m == 6 || m == 9 || m == 11 then 30
    else 31
  }

  datatype Date = Date(year: int, month: int, day: int)

  predicate Real(t: Date)
  {
    1 <= t.month <= 12 && 1 <= t.day <= MonthLength(t.year, t.month)
  }

  function Tomorrow(t: Date): Date
  {
    if t.day < MonthLength(t.year, t.month) then t.(day := t.day + 1)
    else if t.month < 12 then Date(t.year, t.month + 1, 1)
    else Date(t.year + 1, 1, 1)
  }

  // ----- Rust's integer operators on negative operands -----

  /** `a / b` truncates toward zero. */
  function Quotient(a: int, b: int): int
    requires b > 0
  {
    if a >= 0 then a / b else -(-a / b)
  }

  /** `a % b` takes the sign of `a`. */
  function Remainder(a: int, b: int): int
    requires b > 0
  {
    if a >= 0 then a % b else -(-a % b)
  }

  // ----- the two conversions -----

  function DaysFromCivil(t: Date): int
  {
    var year := if t.month <= 2 then t.year - 1 else t.year;
    var era, yearOfEra := year / 400, year % 400;
    var dayOfYear := Quotient(153 * Remainder(t.month + 9, 12) + 2, 5) + t.day - 1;
    var dayOfEra := yearOfEra * 365 + Quotient(yearOfEra, 4) - Quotient(yearOfEra, 100) + dayOfYear;
    era * 146_097 + dayOfEra - 719_468
  }

  function CivilFromDays(days: int): Date
  {
    var z := days + 719_468;
    var era, dayOfEra := z / 146_097, z % 146_097;
    var yearOfEra := YearOfEra(dayOfEra);
    var dayOfYear := dayOfEra - (365 * yearOfEra + yearOfEra / 4 - yearOfEra / 100);
    var shifted := Quotient(5 * dayOfYear + 2, 153);
    var day := dayOfYear - Quotient(153 * shifted + 2, 5) + 1;
    var month := if shifted < 10 then shifted + 3 else shifted - 9;
    Date(yearOfEra + era * 400 + if month <= 2 then 1 else 0, month, day)
  }

  function YearOfEra(dayOfEra: int): int
    requires 0 <= dayOfEra < 146_097
  {
    Quotient(dayOfEra - dayOfEra / 1460 + dayOfEra / 36_524 - dayOfEra / 146_096, 365)
  }

  // ----- years that begin in March -----

  /** The day of the era on which its `y`-th March year begins. */
  function YearStart(y: nat): int
  {
    365 * y + y / 4 - y / 100
  }

  /** How many days the `y`-th March year of an era has. */
  function YearLength(y: nat): int
  {
    if y % 4 == 3 && (y % 100 != 99 || y == 399) then 366 else 365
  }

  lemma Steps(b: int, x: int, y: int)
    requires b > 0 && x > y
    ensures b * x >= b * y + b
  {
    assert b * (x - y - 1) >= 0;
    assert b * (x - y - 1) == b * x - b * y - b;
  }

  lemma QuotientIs(a: int, b: int, q: int)
    requires b > 0 && b * q <= a < b * q + b
    ensures a / b == q && a % b == a - b * q
  {
    var r := a / b;
    assert a == b * r + a % b;
    if r > q {
      Steps(b, r, q);
    } else if r < q {
      Steps(b, q, r);
    }
  }

  /** The century, the four-year cycle and the year in it. */
  lemma YearDigits(y: nat) returns (c: nat, q: nat, r: nat)
    requires y < 400
    ensures c < 4 && q < 25 && r < 4 && y == 100 * c + 4 * q + r
    ensures YearStart(y) == 36_524 * c + 1461 * q + 365 * r
    ensures YearLength(y) == if r == 3 && (q < 24 || c == 3) then 366 else 365
  {
    c, q, r := y / 100, y % 100 / 4, y % 4;
  }

  /** The centuries and the last day that the formula takes out, for day `d` of an era. */
  lemma CenturiesOf(dayOfYear: nat, c: nat, q: nat, r: nat, d: nat)
    requires c < 4 && q < 25 && r < 4 && dayOfYear < (if r == 3 && (q < 24 || c == 3) then 366 else 365)
    requires d == 36_524 * c + 1461 * q + 365 * r + dayOfYear
    ensures d < 146_097
    ensures d / 146_096 == (if d == 146_096 then 1 else 0)
    ensures d / 36_524 == c + (if d == 146_096 then 1 else 0)
  {
    var last := if d == 146_096 then 1 else 0;
    QuotientIs(d, 36_524, c + last);
    QuotientIs(d, 146_096, last);
  }

  /** The leap days that it takes out. */
  lemma LeapDaysOf(dayOfYear: nat, c: nat, q: nat, r: nat, d: nat)
    requires c < 4 && q < 25 && r < 4 && dayOfYear < (if r == 3 && (q < 24 || c == 3) then 366 else 365)
    requires d == 36_524 * c + 1461 * q + 365 * r + dayOfYear
    ensures d / 1460 == 25 * c + q + if 24 * c + q + 365 * r + dayOfYear >= 1460 then 1 else 0
  {
    QuotientIs(d, 1460, 25 * c + q + if 24 * c + q + 365 * r + dayOfYear >= 1460 then 1 else 0);
  }

  lemma YearOfEraFound(y: nat, dayOfYear: nat)
    requires y < 400 && dayOfYear < YearLength(y)
    ensures 0 <= YearStart(y) + dayOfYear < 146_097
    ensures YearOfEra(YearStart(y) + dayOfYear) == y
  {
    var c, q, r := YearDigits(y);
    var d := YearStart(y) + dayOfYear;
    CenturiesOf(dayOfYear, c, q, r, d);
    LeapDaysOf(dayOfYear, c, q, r, d);
    var spill := if 24 * c + q + 365 * r + dayOfYear >= 1460 then 1 else 0;
    QuotientIs(365 * y + dayOfYear - spill, 365, y);
  }

  /** A March year starts where the one before it ends; the last ends with the era. */
  lemma YearFollows(y: nat)
    requires y < 400
    ensures YearStart(y) + YearLength(y) == if y == 399 then 146_097 else YearStart(y + 1)
  {
    var c, q, r := YearDigits(y);
    if y < 399 {
      var c', q', r' := YearDigits(y + 1);
    }
  }

  /** Every day of an era lies in one of its March years. */
  lemma {:induction false} YearExists(dayOfEra: nat, upTo: nat) returns (y: nat)
    requires upTo <= 400 && dayOfEra < (if upTo == 400 then 146_097 else YearStart(upTo))
    ensures y < upTo && YearStart(y) <= dayOfEra < YearStart(y) + YearLength(y)
  {
    YearFollows(upTo - 1);
    if dayOfEra >= YearStart(upTo - 1) {
      y := upTo - 1;
    } else {
      y := YearExists(dayOfEra, upTo - 1);
    }
  }

  lemma YearOfEraSplits(dayOfEra: nat)
    requires dayOfEra < 146_097
    ensures var y := YearOfEra(dayOfEra);
      0 <= y < 400 && 0 <= dayOfEra - YearStart(y) < YearLength(y)
  {
    var y := YearExists(dayOfEra, 400);
    YearOfEraFound(y, dayOfEra - YearStart(y));
  }

  // ----- months counted from March -----

  /** The day of the March year on which its `m`-th month begins. */
  function MonthStart(m: nat): int
  {
    (153 * m + 2) / 5
  }

  lemma MonthOfDay(dayOfYear: nat)
    requires dayOfYear < 366
    ensures var m := (5 * dayOfYear + 2) / 153;
      0 <= m < 12 && MonthStart(m) <= dayOfYear && (m < 11 ==> dayOfYear < MonthStart(m + 1))
  {
  }

  lemma DayOfMonth(m: nat, day: nat)
    requires m < 12 && 1 <= day && MonthStart(m) + day - 1 < (if m < 11 then MonthStart(m + 1) else 366)
    ensures (5 * (MonthStart(m) + day - 1) + 2) / 153 == m
  {
    QuotientIs(5 * (MonthStart(m) + day - 1) + 2, 153, m);
  }

  /** A March year has a 29th of February exactly when the calendar year it ends in is leap. */
  lemma MarchYearLength(era: int, y: nat)
    requires y < 400
    ensures YearLength(y) == 366 <==> Leap(era * 400 + y + 1)
  {
    var n, k := era * 400 + y + 1, y + 1;
    QuotientIs(n, 4, 100 * era + k / 4);
    QuotientIs(n, 100, 4 * era + k / 100);
    QuotientIs(n, 400, era + k / 400);
  }

  lemma MonthStartTable()
    ensures MonthStart(0) == 0 && MonthStart(1) == 31 && MonthStart(2) == 61 && MonthStart(3) == 92
    ensures MonthStart(4) == 122 && MonthStart(5) == 153 && MonthStart(6) == 184 && MonthStart(7) == 214
    ensures MonthStart(8) == 245 && MonthStart(9) == 275 && MonthStart(10) == 306 && MonthStart(11) == 337
  {
  }

  /** A date by era, March year and day of that year. */
  function DateAt(era: int, y: nat, dayOfYear: nat): Date
  {
    var m := (5 * dayOfYear + 2) / 153;
    var month := if m < 10 then m + 3 else m - 9;
    Date(era * 400 + y + if month <= 2 then 1 else 0, month, dayOfYear - MonthStart(m) + 1)
  }

  lemma DateAtIsReal(era: int, y: nat, dayOfYear: nat)
    requires y < 400 && dayOfYear < YearLength(y)
    ensures Real(DateAt(era, y, dayOfYear))
  {
    MonthOfDay(dayOfYear);
    MarchYearLength(era, y);
    MonthStartTable();
  }

  lemma CountOfDateAt(era: int, y: nat, dayOfYear: nat)
    requires y < 400 && dayOfYear < YearLength(y)
    ensures DaysFromCivil(DateAt(era, y, dayOfYear)) == era * 146_097 + YearStart(y) + dayOfYear - 719_468
  {
    var t := DateAt(era, y, dayOfYear);
    MonthOfDay(dayOfYear);
    var m := (5 * dayOfYear + 2) / 153;
    QuotientIs(era * 400 + y, 400, era);
    assert Remainder(t.month + 9, 12) == m;
  }

  lemma CivilIsDateAt(days: int) returns (era: int, y: nat, dayOfYear: nat)
    ensures y < 400 && dayOfYear < YearLength(y)
    ensures CivilFromDays(days) == DateAt(era, y, dayOfYear)
    ensures days == era * 146_097 + YearStart(y) + dayOfYear - 719_468
  {
    var z := days + 719_468;
    var dayOfEra := z % 146_097;
    era := z / 146_097;
    YearOfEraSplits(dayOfEra);
    y := YearOfEra(dayOfEra);
    dayOfYear := dayOfEra - YearStart(y);
  }

  /** Every day number is a real date, and the date counts back to that day. */
  lemma CivilIsReal(days: int)
    ensures Real(CivilFromDays(days))
    ensures DaysFromCivil(CivilFromDays(days)) == days
  {
    var era, y, dayOfYear := CivilIsDateAt(days);
    DateAtIsReal(era, y, dayOfYear);
    CountOfDateAt(era, y, dayOfYear);
  }

  lemma RealIsDateAt(t: Date) returns (era: int, y: nat, dayOfYear: nat)
    requires Real(t)
    ensures y < 400 && dayOfYear < YearLength(y)
    ensures t == DateAt(era, y, dayOfYear)
  {
    var year := if t.month <= 2 then t.year - 1 else t.year;
    era, y := year / 400, year % 400;
    MarchYearLength(era, y);
    MonthStartTable();
    var m := if t.month > 2 then t.month - 3 else t.month + 9;
    dayOfYear := MonthStart(m) + t.day - 1;
    DayOfMonth(m, t.day);
  }

  lemma CivilOfCount(era: int, y: nat, dayOfYear: nat)
    requires y < 400 && dayOfYear < YearLength(y)
    ensures CivilFromDays(era * 146_097 + YearStart(y) + dayOfYear - 719_468) == DateAt(era, y, dayOfYear)
  {
    YearOfEraFound(y, dayOfYear);
    QuotientIs(era * 146_097 + YearStart(y) + dayOfYear, 146_097, era);
  }

  /** Every real date survives the trip through its day number. */
  lemma RealSurvives(t: Date)
    requires Real(t)
    ensures CivilFromDays(DaysFromCivil(t)) == t
  {
    var era, y, dayOfYear := RealIsDateAt(t);
    CountOfDateAt(era, y, dayOfYear);
    CivilOfCount(era, y, dayOfYear);
  }

  lemma NextInYear(era: int, y: nat, dayOfYear: nat)
    requires y < 400 && dayOfYear + 1 < YearLength(y)
    ensures Tomorrow(DateAt(era, y, dayOfYear)) == DateAt(era, y, dayOfYear + 1)
  {
    MonthOfDay(dayOfYear);
    MonthOfDay(dayOfYear + 1);
    MarchYearLength(era, y);
    MonthStartTable();
  }

  /** The count is the calendar's: day 0 is 1970-01-01 and the next date is the next day. */
  lemma CountsDays(t: Date)
    requires Real(t)
    ensures DaysFromCivil(Date(1970, 1, 1)) == 0
    ensures Real(Tomorrow(t)) && DaysFromCivil(Tomorrow(t)) == DaysFromCivil(t) + 1
  {
    var era, y, dayOfYear := RealIsDateAt(t);
    EpochIsZero();
    if dayOfYear + 1 < YearLength(y) {
      NextInYear(era, y, dayOfYear);
      Consecutive(era, y, dayOfYear, era, y, dayOfYear + 1);
    } else {
      LastOfYear(era, y);
      NextStart(era, y);
      Consecutive(era, y, dayOfYear, if y == 399 then era + 1 else era, if y == 399 then 0 else y + 1, 0);
    }
  }

  lemma EpochIsZero()
    ensures DaysFromCivil(Date(1970, 1, 1)) == 0
  {
    assert DateAt(4, 369, 306) == Date(1970, 1, 1);
    CountOfDateAt(4, 369, 306);
  }

  lemma Consecutive(era: int, y: nat, dayOfYear: nat, era': int, y': nat, dayOfYear': nat)
    requires y < 400 && dayOfYear < YearLength(y) && y' < 400 && dayOfYear' < YearLength(y')
    requires era' * 146_097 + YearStart(y') + dayOfYear' == era * 146_097 + YearStart(y) + dayOfYear + 1
    ensures Real(DateAt(era', y', dayOfYear'))
    ensures DaysFromCivil(DateAt(era', y', dayOfYear')) == DaysFromCivil(DateAt(era, y, dayOfYear)) + 1
  {
    CountOfDateAt(era, y, dayOfYear);
    CountOfDateAt(era', y', dayOfYear');
    DateAtIsReal(era', y', dayOfYear');
  }

  lemma NextStart(era: int, y: nat)
    requires y < 400
    ensures era * 146_097 + YearStart(y) + YearLength(y)
         == if y == 399 then (era + 1) * 146_097 + YearStart(0) else era * 146_097 + YearStart(y + 1)
  {
    YearFollows(y);
  }

  lemma LastOfYear(era: int, y: nat)
    requires y < 400
    ensures Tomorrow(DateAt(era, y, YearLength(y) - 1))
         == DateAt(if y == 399 then era + 1 else era, if y == 399 then 0 else y + 1, 0)
  {
    MarchYearLength(era, y);
    MonthStartTable();
  }

  /** The epoch, and both sides of the first five-digit year. */
  lemma Anchors()
    ensures CivilFromDays(0) == Date(1970, 1, 1)
    ensures CivilFromDays(2_932_896) == Date(9999, 12, 31)
    ensures CivilFromDays(2_932_897) == Date(10_000, 1, 1)
  {
    assert DateAt(4, 369, 306) == Date(1970, 1, 1);
    CivilOfCount(4, 369, 306);
    assert DateAt(24, 399, 305) == Date(9999, 12, 31);
    CivilOfCount(24, 399, 305);
    assert DateAt(24, 399, 306) == Date(10_000, 1, 1);
    CivilOfCount(24, 399, 306);
  }
}
