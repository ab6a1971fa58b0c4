/** RFC 3339 timestamps of the session layer: the printer, the parser, and the order of the text. */
module Timestamps {
  import opened Calendar
  import opened Decimal
  import opened Order
  import opened Results
  import opened Text

  // ----- printing -----

  function PrintDate(t: Date): string
  {
    Padded(t.year, 4) + "-" + Padded(t.month, 2) + "-" + Padded(t.day, 2)
  }

  function PrintClock(secondsOfDay: nat): string
  {
    Padded(secondsOfDay / 3600, 2) + ":" + Padded(secondsOfDay % 3600 / 60, 2) + ":" + Padded(secondsOfDay % 60, 2)
  }

  function Print(t: Date, secondsOfDay: nat, nanos: nat): string
  {
    PrintDate(t) + "T" + PrintClock(secondsOfDay) + "." + Padded(nanos, 9) + "Z"
  }

  /** `rfc3339_from_parts`. */
  function FromParts(secs: int, nanos: nat): string
  {
    Print(CivilFromDays(secs / 86_400), secs % 86_400, nanos)
  }

  // ----- parsing -----

  /** Year, month and day, or hours, minutes and seconds. */
  type Numbers = (int, int, int)

  function ThreeNumbers(text: string, separator: char): Option<Numbers>
  {
    var parts := Split(text, separator);
    if |parts| != 3 then None
    else
      var a, b, c := ParseI64(parts[0]), ParseI64(parts[1]), ParseI64(parts[2]);
      if a.Some? && b.Some? && c.Some? then Some((a.value, b.value, c.value)) else None
  }

  /** The date and the clock of a timestamp, the fraction dropped. */
  function Halves(text: string): Option<(string, string)>
  {
    if !EndsWith(text, "Z") then None
    else
      var halves := SplitOnce(text[..|text| - 1], 'T');
      if halves.None? then None else Some((halves.value.0, Split(halves.value.1, '.')[0]))
  }

  /** The seconds of a date and a clock. */
  function Combine(date: Option<Numbers>, clock: Option<Numbers>): Option<int>
  {
    if date.None? || clock.None? then None
    else
      var (year, month, day), (hours, minutes, seconds) := date.value, clock.value;
      Some(DaysFromCivil(Date(year, month, day)) * 86_400 + hours * 3600 + minutes * 60 + seconds)
  }

  /** `epoch_secs_from_rfc3339`. */
  function EpochSecs(text: string): Option<int>
  {
    var halves := Halves(text);
    if halves.None? then None
    else Combine(ThreeNumbers(halves.value.0, '-'), ThreeNumbers(halves.value.1, ':'))
  }

  /** The instants whose year has four digits. */
  ghost predicate FourDigitYear(secs: int)
  {
    0 <= CivilFromDays(secs / 86_400).year <= 9999
  }

  // ----- a timestamp as fixed-width fields -----

  /** What a timestamp prints: a real date with a four-digit year, a second of the day, nanoseconds. */
  ghost predicate Printable(t: Date, s: nat, nanos: nat)
  {
    Real(t) && 0 <= t.year <= 9999 && s < 86_400 && nanos < 1_000_000_000
  }

  lemma PrintedDate(t: Date)
    requires Real(t) && 0 <= t.year <= 9999
    ensures PrintDate(t) == Fixed(t.year, 4) + "-" + Fixed(t.month, 2) + "-" + Fixed(t.day, 2)
  {
    PowTable();
    PaddedIsFixed(t.year, 4);
    PaddedIsFixed(t.month, 2);
    PaddedIsFixed(t.day, 2);
  }

  lemma PrintedClock(s: nat)
    requires s < 86_400
    ensures PrintClock(s) == Fixed(s / 3600, 2) + ":" + Fixed(s % 3600 / 60, 2) + ":" + Fixed(s % 60, 2)
  {
    PowTable();
    PaddedIsFixed(s / 3600, 2);
    PaddedIsFixed(s % 3600 / 60, 2);
    PaddedIsFixed(s % 60, 2);
  }

  ghost function ClockFields(s: nat, nanos: nat): string
  {
    Fixed(s / 3600, 2) + ":" + (Fixed(s % 3600 / 60, 2) + ":" + (Fixed(s % 60, 2) + "." + (Fixed(nanos, 9) + "Z")))
  }

  ghost function DateFields(t: Date, rest: string): string
    requires Real(t) && 0 <= t.year
  {
    Fixed(t.year, 4) + "-" + (Fixed(t.month, 2) + "-" + (Fixed(t.day, 2) + "T" + rest))
  }

  lemma Regroup(a: string, b: string, c: string, p: string, q: string, r: string, rest: string)
    ensures a + p + b + q + c + r + rest == a + p + (b + q + (c + r + rest))
  {
  }

  lemma PrintedFields(t: Date, s: nat, nanos: nat)
    requires Printable(t, s, nanos)
    ensures Print(t, s, nanos) == DateFields(t, ClockFields(s, nanos))
  {
    PowTable();
    PrintedDate(t);
    PrintedClock(s);
    PaddedIsFixed(nanos, 9);
    var nano := Fixed(nanos, 9) + "Z";
    Regroup(Fixed(s / 3600, 2), Fixed(s % 3600 / 60, 2), Fixed(s % 60, 2), ":", ":", ".", nano);
    Regroup(Fixed(t.year, 4), Fixed(t.month, 2), Fixed(t.day, 2), "-", "-", "T", ClockFields(s, nanos));
    assert PrintClock(s) + "." + Padded(nanos, 9) + "Z" == PrintClock(s) + "." + nano;
    Concat5(PrintDate(t), "T", PrintClock(s), ".", Padded(nanos, 9), "Z");
  }

  lemma Concat5(a: string, b: string, c: string, d: string, e: string, f: string)
    ensures a + b + c + d + e + f == a + b + (c + d + (e + f))
  {
  }

  /** A fixed-width field decides, or else what follows it does. */
  lemma FieldOrder(a: nat, b: nat, w: nat, sep: string, x: string, y: string)
    requires a < Pow10(w) && b < Pow10(w)
    ensures Before(Fixed(a, w) + sep + x, Fixed(b, w) + sep + y) <==> a < b || (a == b && Before(x, y))
  {
    FixedOrder(a, b, w);
    assert Fixed(a, w) + sep + x == Fixed(a, w) + (sep + x) && Fixed(b, w) + sep + y == Fixed(b, w) + (sep + y);
    BeforeConcat(Fixed(a, w), Fixed(b, w), sep + x, sep + y);
    BeforeConcat(sep, sep, x, y);
    Irreflexive(sep);
  }

  // ----- text order is time order -----

  ghost predicate Earlier(a: Date, b: Date)
  {
    a.year < b.year || (a.year == b.year && (a.month < b.month || (a.month == b.month && a.day < b.day)))
  }

  lemma TomorrowIsLater(t: Date)
    requires Real(t)
    ensures Earlier(t, Tomorrow(t))
  {
  }

  lemma EarlierTransitive(a: Date, b: Date, c: Date)
    requires Earlier(a, b) && Earlier(b, c)
    ensures Earlier(a, c)
  {
  }

  lemma NextDay(n: int)
    ensures CivilFromDays(n + 1) == Tomorrow(CivilFromDays(n))
  {
    var t := CivilFromDays(n);
    CivilIsReal(n);
    CountsDays(t);
    RealSurvives(Tomorrow(t));
  }

  lemma NextDayIsLater(n: int)
    ensures Earlier(CivilFromDays(n), CivilFromDays(n + 1))
  {
    CivilIsReal(n);
    NextDay(n);
    TomorrowIsLater(CivilFromDays(n));
  }

  lemma {:induction false} ChainOfDays(day: int -> Date, m: int, n: int)
    requires m < n && forall k :: Earlier(day(k), day(k + 1))
    ensures Earlier(day(m), day(n))
    decreases n - m
  {
    assert Earlier(day(n - 1), day(n - 1 + 1));
    if m < n - 1 {
      ChainOfDays(day, m, n - 1);
      EarlierTransitive(day(m), day(n - 1), day(n));
    }
  }

  lemma LaterDaysAreLater(m: int, n: int)
    requires m < n
    ensures Earlier(CivilFromDays(m), CivilFromDays(n))
  {
    var day: int -> Date := k => CivilFromDays(k);
    forall k ensures Earlier(day(k), day(k + 1)) {
      NextDayIsLater(k);
    }
    ChainOfDays(day, m, n);
  }

  lemma SecondsOrder(s1: nat, s2: nat)
    requires s1 < 86_400 && s2 < 86_400
    ensures var h1, m1, z1, h2, m2, z2 := s1 / 3600, s1 % 3600 / 60, s1 % 60, s2 / 3600, s2 % 3600 / 60, s2 % 60;
      && h1 < 100 && m1 < 100 && h2 < 100 && m2 < 100
      && (s1 < s2 <==> h1 < h2 || (h1 == h2 && (m1 < m2 || (m1 == m2 && z1 < z2))))
      && (s1 == s2 <==> h1 == h2 && m1 == m2 && z1 == z2)
  {
    assert s1 == 3600 * (s1 / 3600) + 60 * (s1 % 3600 / 60) + s1 % 60;
    assert s2 == 3600 * (s2 / 3600) + 60 * (s2 % 3600 / 60) + s2 % 60;
  }

  lemma ClockOrder(s1: nat, n1: nat, s2: nat, n2: nat)
    requires s1 < 86_400 && s2 < 86_400 && n1 < 1_000_000_000 && n2 < 1_000_000_000
    ensures Before(ClockFields(s1, n1), ClockFields(s2, n2)) <==> s1 < s2 || (s1 == s2 && n1 < n2)
  {
    PowTable();
    SecondsOrder(s1, s2);
    var nano1, nano2 := Fixed(n1, 9) + "Z", Fixed(n2, 9) + "Z";
    var sec1, sec2 := Fixed(s1 % 60, 2) + "." + nano1, Fixed(s2 % 60, 2) + "." + nano2;
    var min1, min2 := Fixed(s1 % 3600 / 60, 2) + ":" + sec1, Fixed(s2 % 3600 / 60, 2) + ":" + sec2;
    assert nano1 == nano1 + "" && nano2 == nano2 + "";
    FieldOrder(n1, n2, 9, "Z", "", "");
    FieldOrder(s1 % 60, s2 % 60, 2, ".", nano1, nano2);
    FieldOrder(s1 % 3600 / 60, s2 % 3600 / 60, 2, ":", sec1, sec2);
    FieldOrder(s1 / 3600, s2 / 3600, 2, ":", min1, min2);
  }

  lemma DateOrder(t1: Date, x: string, t2: Date, y: string)
    requires Real(t1) && Real(t2) && 0 <= t1.year <= 9999 && 0 <= t2.year <= 9999
    ensures Before(DateFields(t1, x), DateFields(t2, y)) <==> Earlier(t1, t2) || (t1 == t2 && Before(x, y))
  {
    PowTable();
    var day1, day2 := Fixed(t1.day, 2) + "T" + x, Fixed(t2.day, 2) + "T" + y;
    var month1, month2 := Fixed(t1.month, 2) + "-" + day1, Fixed(t2.month, 2) + "-" + day2;
    FieldOrder(t1.day, t2.day, 2, "T", x, y);
    FieldOrder(t1.month, t2.month, 2, "-", day1, day2);
    FieldOrder(t1.year, t2.year, 4, "-", month1, month2);
  }

  lemma PrintOrder(d1: int, t1: Date, s1: nat, n1: nat, d2: int, t2: Date, s2: nat, n2: nat)
    requires Printable(t1, s1, n1) && Printable(t2, s2, n2)
    requires d1 < d2 ==> Earlier(t1, t2)
    requires d2 < d1 ==> Earlier(t2, t1)
    requires d1 == d2 ==> t1 == t2
    ensures Before(Print(t1, s1, n1), Print(t2, s2, n2)) <==> d1 < d2 || (d1 == d2 && (s1 < s2 || (s1 == s2 && n1 < n2)))
  {
    PrintedFields(t1, s1, n1);
    PrintedFields(t2, s2, n2);
    ClockOrder(s1, n1, s2, n2);
    DateOrder(t1, ClockFields(s1, n1), t2, ClockFields(s2, n2));
  }

  /** Two printed timestamps compare as strings exactly as their instants do. */
  lemma TextOrderIsTimeOrder(secs1: int, n1: nat, secs2: int, n2: nat)
    requires FourDigitYear(secs1) && FourDigitYear(secs2) && n1 < 1_000_000_000 && n2 < 1_000_000_000
    ensures Before(FromParts(secs1, n1), FromParts(secs2, n2)) <==> secs1 < secs2 || (secs1 == secs2 && n1 < n2)
  {
    var d1, d2, s1, s2 := secs1 / 86_400, secs2 / 86_400, secs1 % 86_400, secs2 % 86_400;
    assert secs1 == 86_400 * d1 + s1 && secs2 == 86_400 * d2 + s2;
    CivilIsReal(d1);
    CivilIsReal(d2);
    if d1 < d2 {
      LaterDaysAreLater(d1, d2);
    } else if d2 < d1 {
      LaterDaysAreLater(d2, d1);
    }
    PrintOrder(d1, CivilFromDays(d1), s1, n1, d2, CivilFromDays(d2), s2, n2);
  }

  lemma YearsAscend(m: int, n: int)
    requires m <= n
    ensures CivilFromDays(m).year <= CivilFromDays(n).year
  {
    if m < n {
      LaterDaysAreLater(m, n);
    }
  }

  lemma YearsGrow(secs: nat, limit: nat)
    requires secs <= limit && FourDigitYear(limit)
    ensures FourDigitYear(secs)
  {
    Anchors();
    YearsAscend(0, secs / 86_400);
    YearsAscend(secs / 86_400, limit / 86_400);
  }

  ghost predicate OrderedUpTo(limit: nat)
  {
    forall a: nat, m: nat, b: nat, n: nat :: a <= limit && b <= limit && m < 1_000_000_000 && n < 1_000_000_000 ==>
      (Before(FromParts(a, m), FromParts(b, n)) <==> a < b || (a == b && m < n))
  }

  const LAST_SECOND_OF_9999 := 253_402_300_799

  lemma LeadingDigits()
    ensures Numeral(10_000)[0] == '1' && Numeral(9999)[0] == '9'
  {
    assert Numeral(1) == "1" && Numeral(9) == "9";
    assert Numeral(10)[0] == Numeral(1)[0] && Numeral(99)[0] == Numeral(9)[0];
    assert Numeral(100)[0] == Numeral(10)[0] && Numeral(999)[0] == Numeral(99)[0];
    assert Numeral(1000)[0] == Numeral(100)[0];
  }

  lemma DaysOfTurn()
    ensures (LAST_SECOND_OF_9999 + 1) / 86_400 == 2_932_897 && (LAST_SECOND_OF_9999 + 1) % 86_400 == 0
    ensures LAST_SECOND_OF_9999 / 86_400 == 2_932_896 && LAST_SECOND_OF_9999 % 86_400 == 86_399
  {
  }

  /** The first instant of the year 10000 prints before the last of 9999. */
  lemma FiveDigitsSortFirst()
    ensures Before(FromParts(LAST_SECOND_OF_9999 + 1, 0), FromParts(LAST_SECOND_OF_9999, 0))
    ensures !FourDigitYear(LAST_SECOND_OF_9999 + 1) && FourDigitYear(LAST_SECOND_OF_9999)
  {
    DaysOfTurn();
    Anchors();
    LeadingDigits();
    FirstOfPrint(Date(10_000, 1, 1), 0, 0, '1');
    FirstOfPrint(Date(9999, 12, 31), 86_399, 0, '9');
  }

  lemma FirstOfPrint(t: Date, s: nat, nanos: nat, c: char)
    requires t.year >= 1000 && Numeral(t.year)[0] == c
    ensures Print(t, s, nanos) != "" && Print(t, s, nanos)[0] == c
  {
    assert Pow10(1) == 10 && Pow10(2) == 100 && Pow10(3) == 1000;
    NumeralFits(t.year, 3);
    assert Padded(t.year, 4) == Numeral(t.year);
    assert Print(t, s, nanos)[0] == PrintDate(t)[0] == Padded(t.year, 4)[0];
  }

  /** Text order is time order on every instant up to a limit exactly while its year has four digits. */
  lemma OrderedWhileFourDigits(limit: nat)
    ensures OrderedUpTo(limit) <==> FourDigitYear(limit)
  {
    if FourDigitYear(limit) {
      forall a: nat, m: nat, b: nat, n: nat | a <= limit && b <= limit && m < 1_000_000_000 && n < 1_000_000_000
        ensures Before(FromParts(a, m), FromParts(b, n)) <==> a < b || (a == b && m < n)
      {
        YearsGrow(a, limit);
        YearsGrow(b, limit);
        TextOrderIsTimeOrder(a, m, b, n);
      }
    } else {
      FiveDigitsSortFirst();
      if limit <= LAST_SECOND_OF_9999 {
        YearsGrow(limit, LAST_SECOND_OF_9999);
      }
    }
  }

  // ----- parsing what was printed -----

  lemma SplitThree(a: string, b: string, c: string, sep: char)
    requires sep !in a && sep !in b && sep !in c
    ensures Split(a + [sep] + b + [sep] + c, sep) == [a, b, c]
  {
    var parts := [a, b, c];
    assert parts[1..] == [b, c] && [b, c][1..] == [c];
    assert Join([c], [sep]) == c;
    assert Join([b, c], [sep]) == b + [sep] + c;
    assert Join(parts, [sep]) == a + [sep] + (b + [sep] + c) == a + [sep] + b + [sep] + c;
    SplitJoin(parts, sep);
  }

  lemma ThreeFixed(a: nat, b: nat, c: nat, w: nat, sep: char)
    requires 0 < w <= 4 && a < Pow10(w) && a < 10_000 && b < 100 && c < 100 && !IsDigit(sep)
    ensures ThreeNumbers(Fixed(a, w) + [sep] + Fixed(b, 2) + [sep] + Fixed(c, 2), sep) == Some((a, b, c))
  {
    PowTable();
    SplitThree(Fixed(a, w), Fixed(b, 2), Fixed(c, 2), sep);
    ParseFixed(a, w);
    ParseFixed(b, 2);
    ParseFixed(c, 2);
  }

  lemma HalvesOf(date: string, clock: string, fraction: string)
    requires 'T' !in date && '.' !in clock && (fraction == "" || fraction[0] == '.')
    ensures Halves(date + "T" + (clock + fraction) + "Z") == Some((date, clock))
  {
    var text := date + "T" + (clock + fraction) + "Z";
    assert text[..|text| - 1] == date + ['T'] + (clock + fraction);
    SplitOnceAt(date, 'T', clock + fraction);
    FirstPart(clock, fraction);
  }

  lemma EpochOf(text: string, date: string, clock: string)
    requires Halves(text) == Some((date, clock))
    ensures EpochSecs(text) == Combine(ThreeNumbers(date, '-'), ThreeNumbers(clock, ':'))
  {
  }

  lemma NotInThree(a: string, b: string, c: string, sep: char, x: char)
    requires AllDigits(a) && AllDigits(b) && AllDigits(c) && !IsDigit(x) && x != sep
    ensures x !in a + [sep] + b + [sep] + c
  {
  }

  lemma PrintedNumbers(t: Date, s: nat)
    requires Real(t) && 0 <= t.year <= 9999 && s < 86_400
    ensures 'T' !in PrintDate(t) && '.' !in PrintClock(s)
    ensures ThreeNumbers(PrintDate(t), '-') == Some((t.year, t.month, t.day))
    ensures ThreeNumbers(PrintClock(s), ':') == Some((s / 3600, s % 3600 / 60, s % 60))
  {
    var h, m, z := s / 3600, s % 3600 / 60, s % 60;
    PowTable();
    PrintedDate(t);
    PrintedClock(s);
    SecondsOrder(s, s);
    ThreeFixed(t.year, t.month, t.day, 4, '-');
    ThreeFixed(h, m, z, 2, ':');
    NotInThree(Fixed(t.year, 4), Fixed(t.month, 2), Fixed(t.day, 2), '-', 'T');
    NotInThree(Fixed(h, 2), Fixed(m, 2), Fixed(z, 2), ':', '.');
  }

  lemma FirstPart(clock: string, fraction: string)
    requires '.' !in clock && (fraction == "" || fraction[0] == '.')
    ensures Split(clock + fraction, '.')[0] == clock
  {
    var s := clock + fraction;
    assert s[..|clock|] == clock;
    FindIs(s, '.', |clock|);
  }

  /** Reading a printed date and clock, with or without a fraction, gives the instant of both. */
  lemma ReadPrinted(t: Date, s: nat, fraction: string)
    requires Real(t) && 0 <= t.year <= 9999 && s < 86_400
    requires fraction == "" || fraction[0] == '.'
    ensures EpochSecs(PrintDate(t) + "T" + (PrintClock(s) + fraction) + "Z") == Some(DaysFromCivil(t) * 86_400 + s)
  {
    PrintedNumbers(t, s);
    HalvesOf(PrintDate(t), PrintClock(s), fraction);
    EpochOf(PrintDate(t) + "T" + (PrintClock(s) + fraction) + "Z", PrintDate(t), PrintClock(s));
    CombineParts(t, s);
  }

  lemma CombineParts(t: Date, s: nat)
    requires s < 86_400
    ensures Combine(Some((t.year, t.month, t.day)), Some((s / 3600, s % 3600 / 60, s % 60)))
         == Some(DaysFromCivil(t) * 86_400 + s)
  {
    var h, m, z := s / 3600, s % 3600 / 60, s % 60;
    assert s == 3600 * h + 60 * m + z;
    assert Date(t.year, t.month, t.day) == t;
  }

  /** Parsing a printed timestamp gives back its whole seconds. */
  lemma ParsePrinted(secs: int, nanos: nat)
    requires FourDigitYear(secs) && nanos < 1_000_000_000
    ensures EpochSecs(FromParts(secs, nanos)) == Some(secs)
  {
    InstantOf(secs);
    PrintedInstant(secs, CivilFromDays(secs / 86_400), secs % 86_400, nanos);
  }

  lemma InstantOf(secs: int)
    ensures Real(CivilFromDays(secs / 86_400))
    ensures DaysFromCivil(CivilFromDays(secs / 86_400)) * 86_400 + secs % 86_400 == secs
  {
    CivilIsReal(secs / 86_400);
  }

  lemma PrintedInstant(secs: int, t: Date, s: nat, nanos: nat)
    requires Printable(t, s, nanos) && DaysFromCivil(t) * 86_400 + s == secs
    ensures EpochSecs(Print(t, s, nanos)) == Some(secs)
  {
    ReadPrinted(t, s, "." + Padded(nanos, 9));
    RegroupPrint(PrintDate(t), PrintClock(s), Padded(nanos, 9));
  }

  lemma RegroupPrint(date: string, clock: string, nano: string)
    ensures date + "T" + clock + "." + nano + "Z" == date + "T" + (clock + ("." + nano)) + "Z"
  {
  }

  // ----- calendar days -----

  /** `is_day`'s first test: ten characters shaped `dddd-dd-dd`. */
  predicate DayShaped(text: string)
  {
    |text| == 10 && forall i :: 0 <= i < 10 ==> if i == 4 || i == 7 then text[i] == '-' else IsDigit(text[i])
  }

  /** `utc_day`: the first ten characters of the timestamp of a whole second. */
  function UtcDay(secs: nat): string
  {
    TenOf(FromParts(secs, 0))
  }

  predicate IsDay(text: string)
  {
    DayShaped(text)
    && var secs := EpochSecs(text + "T00:00:00Z");
    secs.Some? && secs.value >= 0 && UtcDay(secs.value) == text
  }

  lemma SmallNumber(s: string)
    requires 0 < |s| <= 4 && AllDigits(s)
    ensures ParseI64(s).Some?
  {
    var n := |s|;
    assert Value(s[..0]) == 0;
    if n > 1 { assert s[..n][..n - 1] == s[..n - 1]; SmallPrefix(s[..n - 1]); }
    SmallPrefix(s);
  }

  lemma {:induction false} SmallPrefix(s: string)
    requires |s| <= 4 && AllDigits(s)
    ensures Value(s) < Pow10(|s|) && Pow10(|s|) <= 10_000
  {
    PowTable();
    assert Pow10(1) == 10 && Pow10(3) == 1000 && Pow10(0) == 1;
    if s != "" {
      SmallPrefix(s[..|s| - 1]);
    }
  }

  lemma ShapedParts(text: string)
    requires DayShaped(text)
    ensures text == text[..4] + ['-'] + text[5..7] + ['-'] + text[8..]
  {
    assert text[4] == '-' && text[7] == '-';
  }

  lemma ShapedNumbers(text: string)
    requires DayShaped(text)
    ensures 'T' !in text && ThreeNumbers(text, '-').Some?
  {
    var a, b, c := text[..4], text[5..7], text[8..];
    ShapedParts(text);
    SplitThree(a, b, c, '-');
    SmallNumber(a);
    SmallNumber(b);
    SmallNumber(c);
  }

  lemma ZeroClock()
    ensures Fixed(0, 2) == "00" && Fixed(0, 2) + [':'] + Fixed(0, 2) + [':'] + Fixed(0, 2) == "00:00:00"
  {
    FixedZeros(2);
  }

  lemma Midnight()
    ensures ThreeNumbers("00:00:00", ':') == Some((0, 0, 0))
    ensures '.' !in "00:00:00"
  {
    ZeroClock();
    PowTable();
    ThreeFixed(0, 0, 0, 2, ':');
  }

  lemma RegroupMidnight(text: string, clock: string)
    ensures text + ("T" + clock + "Z") == text + "T" + (clock + "") + "Z"
  {
  }

  lemma EpochWhole(text: string, clock: string)
    requires 'T' !in text && '.' !in clock
    ensures EpochSecs(text + ("T" + clock + "Z")) == Combine(ThreeNumbers(text, '-'), ThreeNumbers(clock, ':'))
  {
    HalvesOf(text, clock, "");
    EpochOf(text + "T" + (clock + "") + "Z", text, clock);
    RegroupMidnight(text, clock);
  }

  lemma MidnightSuffix()
    ensures "T" + "00:00:00" + "Z" == "T00:00:00Z"
  {
  }

  lemma MidnightOf(text: string)
    requires 'T' !in text
    ensures EpochSecs(text + "T00:00:00Z") == Combine(ThreeNumbers(text, '-'), Some((0, 0, 0)))
  {
    Midnight();
    EpochWhole(text, "00:00:00");
    MidnightSuffix();
  }

  lemma CombineMidnight(date: Numbers)
    ensures Combine(Some(date), Some((0, 0, 0))) == Some(DaysFromCivil(Date(date.0, date.1, date.2)) * 86_400)
  {
  }

  /** A `dddd-dd-dd` text is read as midnight of some day number, real date or not. */
  lemma ShapedReadsMidnight(text: string) returns (d: int)
    requires DayShaped(text)
    ensures EpochSecs(text + "T00:00:00Z") == Some(d * 86_400)
  {
    ShapedNumbers(text);
    MidnightOf(text);
    var date := ThreeNumbers(text, '-').value;
    CombineMidnight(date);
    d := DaysFromCivil(Date(date.0, date.1, date.2));
  }

  lemma PrintedShape(t: Date)
    requires Real(t) && 0 <= t.year <= 9999
    ensures DayShaped(PrintDate(t))
  {
    PrintedDate(t);
    FieldsAreDayShaped(Fixed(t.year, 4), Fixed(t.month, 2), Fixed(t.day, 2));
  }

  lemma FieldsAreDayShaped(y: string, m: string, d: string)
    requires |y| == 4 && |m| == 2 && |d| == 2 && forall i :: 0 <= i < 4 ==> IsDigit(y[i])
    requires forall i :: 0 <= i < 2 ==> IsDigit(m[i]) && IsDigit(d[i])
    ensures DayShaped(y + "-" + m + "-" + d)
  {
    var text := y + "-" + m + "-" + d;
    assert forall i :: 0 <= i < 4 ==> text[i] == y[i];
    assert forall i :: 5 <= i < 7 ==> text[i] == m[i - 5];
    assert forall i :: 8 <= i < 10 ==> text[i] == d[i - 8];
  }

  lemma UtcDayOf(t: Date, secs: nat)
    requires t == CivilFromDays(secs / 86_400)
    ensures UtcDay(secs) == TenOf(Print(t, secs % 86_400, 0))
  {
  }

  function TenOf(text: string): string
  {
    if |text| >= 10 then text[..10] else text
  }

  lemma TenOfPrint(t: Date, s: nat)
    requires Real(t) && 0 <= t.year <= 9999
    ensures TenOf(Print(t, s, 0)) == PrintDate(t)
  {
    PrintedDate(t);
    PrintStarts(t, s);
  }

  lemma PrintStarts(t: Date, s: nat)
    ensures PrintDate(t) <= Print(t, s, 0)
  {
    var tail := "T" + PrintClock(s) + "." + Padded(0, 9) + "Z";
    assert Print(t, s, 0) == PrintDate(t) + tail;
  }

  /** A longer year pushes a digit into the place of the first dash. */
  lemma LongYearMisshapes(t: Date, s: nat)
    requires t.year > 9999
    ensures !DayShaped(TenOf(Print(t, s, 0)))
  {
    PowTable();
    NumeralFits(t.year, 4);
    PrintStarts(t, s);
    var y := Numeral(t.year);
    assert Padded(t.year, 4) == y;
    assert PrintDate(t)[4] == y[4];
    assert IsDigit(y[4]);
  }

  ghost predicate DayOf(text: string, t: Date)
  {
    Real(t) && 1970 <= t.year <= 9999 && text == PrintDate(t)
  }

  lemma DayIsAccepted(t: Date)
    requires Real(t) && 1970 <= t.year <= 9999
    ensures IsDay(PrintDate(t))
  {
    PrintedShape(t);
    PrintedNumbers(t, 0);
    MidnightOf(PrintDate(t));
    CombineMidnight((t.year, t.month, t.day));
    assert Date(t.year, t.month, t.day) == t;
    SinceEpoch(t);
    DayRoundTrip(t, DaysFromCivil(t));
  }

  lemma DayRoundTrip(t: Date, d: nat)
    requires Real(t) && 0 <= t.year <= 9999 && DaysFromCivil(t) == d
    ensures UtcDay(d * 86_400) == PrintDate(t)
  {
    RealSurvives(t);
    QuotientIs(d * 86_400, 86_400, d);
    UtcDayOf(t, d * 86_400);
    TenOfPrint(t, 0);
  }

  lemma SinceEpoch(t: Date)
    requires Real(t)
    ensures DaysFromCivil(t) >= 0 <==> t.year >= 1970
  {
    var d := DaysFromCivil(t);
    RealSurvives(t);
    Anchors();
    if d < 0 {
      LaterDaysAreLater(d, 0);
    } else {
      YearsAscend(0, d);
    }
  }

  lemma AcceptedIsDay(text: string)
    requires IsDay(text)
    ensures exists t :: DayOf(text, t)
  {
    var d := ShapedReadsMidnight(text);
    assert d >= 0;
    var t := CivilFromDays(d);
    QuotientIs(d * 86_400, 86_400, d);
    UtcDayOf(t, d * 86_400);
    assert Real(t) && t.year >= 1970 by {
      CivilIsReal(d);
      SinceEpoch(t);
    }
    if t.year > 9999 {
      LongYearMisshapes(t, 0);
    } else {
      TenOfPrint(t, 0);
      assert DayOf(text, t);
    }
  }

  /** `is_day` accepts exactly the real dates from 1970-01-01 to 9999-12-31, written `YYYY-MM-DD`. */
  lemma IsDayExact(text: string)
    ensures IsDay(text) <==> exists t :: DayOf(text, t)
  {
    if IsDay(text) {
      AcceptedIsDay(text);
    }
    if t :| DayOf(text, t) {
      DayIsAccepted(t);
    }
  }
}
