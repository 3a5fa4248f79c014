/**
 The oracle's timestamp parser: a closed-form day number for proleptic
 Gregorian dates, and the strict timestamp grammar around it.
 */
module CivilDate {
  import opened Basics

  predicate IsLeapYear(year: int) {
    (year % 4 == 0 && year % 100 != 0) || year % 400 == 0
  }

  function DaysInMonth(year: int, month: int): int {
    if month in {1, 3, 5, 7, 8, 10, 12} then 31
    else if month in {4, 6, 9, 11} then 30
    else if month == 2 then (if IsLeapYear(year) then 29 else 28)
    else 0
  }

  /** Division of the source's signed integers, truncating toward zero. */
  function TruncDiv(a: int, d: int): int
    requires d > 0
  {
    if a >= 0 then a / d else -((-a) / d)
  }

  /** Days since 1970-01-01 in closed form. */
  function DaysFromCivil(year: int, month: int, day: int): int {
    var y := if month <= 2 then year - 1 else year;
    var era := TruncDiv(if y >= 0 then y else y - 399, 400);
    var yearOfEra := y - era * 400;
    var dayOfYear := TruncDiv(153 * (month + if month > 2 then -3 else 9) + 2, 5) + day - 1;
    var dayOfEra := yearOfEra * 365 + TruncDiv(yearOfEra, 4) - TruncDiv(yearOfEra, 100) + dayOfYear;
    era * 146_097 + dayOfEra - 719_468
  }

  // ------------------------------------------------------- counting by hand

  function YearLength(year: int): int {
    if IsLeapYear(year) then 366 else 365
  }

  /** Days from 1970-01-01 to the first of January, adding year lengths. */
  function DaysBeforeYear(year: int): int
    decreases if year >= 1970 then year - 1970 else 1970 - year
  {
    if year == 1970 then 0
    else if year > 1970 then DaysBeforeYear(year - 1) + YearLength(year - 1)
    else DaysBeforeYear(year + 1) - YearLength(year)
  }

  /** Days of the year before a month, adding month lengths. */
  function DaysBeforeMonth(year: int, month: int): int
    requires 1 <= month
    decreases month
  {
    if month == 1 then 0 else DaysBeforeMonth(year, month - 1) + DaysInMonth(year, month - 1)
  }

  function DayCount(year: int, month: int, day: int): int
    requires 1 <= month
  {
    DaysBeforeYear(year) + DaysBeforeMonth(year, month) + day - 1
  }

  // -------------------------------------------------------------- agreement

  /** Days before the March-based year `y`, counted in 400-year eras. */
  function MarchDays(y: int): int {
    var r := y % 400;
    (y / 400) * 146_097 + r * 365 + r / 4 - r / 100
  }

  /** Days of the March-based year before a month. */
  function MarchMonth(month: int): int
    requires 1 <= month <= 12
  {
    (153 * (month + if month > 2 then -3 else 9) + 2) / 5
  }

  lemma EraIsFloor(y: int)
    ensures TruncDiv(if y >= 0 then y else y - 399, 400) == y / 400
  {
  }

  lemma ClosedFormParts(year: int, month: int, day: int)
    requires 1 <= month <= 12
    ensures DaysFromCivil(year, month, day) ==
            MarchDays(if month <= 2 then year - 1 else year) + MarchMonth(month) + day - 1 - 719_468
  {
    var y := if month <= 2 then year - 1 else year;
    EraIsFloor(y);
    assert y - (y / 400) * 400 == y % 400;
  }

  lemma ModOfSum(e: int, k: int)
    ensures (400 * e + k) % 4 == k % 4 && (400 * e + k) % 100 == k % 100 && (400 * e + k) % 400 == k % 400
  {
    assert 400 * e + k == 4 * (100 * e + k / 4) + k % 4;
    assert 400 * e + k == 100 * (4 * e + k / 100) + k % 100;
    assert 400 * e + k == 400 * (e + k / 400) + k % 400;
    Remainders(100 * e + k / 4, 4 * e + k / 100, e + k / 400, k % 4, k % 100, k % 400);
  }

  lemma Remainders(a: int, b: int, c: int, r4: int, r100: int, r400: int)
    requires 0 <= r4 < 4 && 0 <= r100 < 100 && 0 <= r400 < 400
    ensures (4 * a + r4) % 4 == r4 && (100 * b + r100) % 100 == r100 && (400 * c + r400) % 400 == r400
  {
  }

  lemma MarchStep(y: int)
    ensures MarchDays(y + 1) == MarchDays(y) + YearLength(y + 1)
  {
    var e, r := y / 400, y % 400;
    assert y == 400 * e + r;
    ModOfSum(e, r + 1);
    FloorStep(r, 4);
    FloorStep(r, 100);
    NextOfEra(y);
  }

  lemma NextOfEra(y: int)
    ensures y % 400 == 399 ==> (y + 1) / 400 == y / 400 + 1 && (y + 1) % 400 == 0
    ensures y % 400 < 399 ==> (y + 1) / 400 == y / 400 && (y + 1) % 400 == y % 400 + 1
  {
  }

  lemma FloorStep(r: int, d: int)
    requires d == 4 || d == 100
    ensures (r + 1) / d == r / d + (if (r + 1) % d == 0 then 1 else 0)
  {
  }

  lemma NewYearStep(year: int)
    ensures DaysFromCivil(year + 1, 1, 1) == DaysFromCivil(year, 1, 1) + YearLength(year)
  {
    hide DaysFromCivil, MarchDays, YearLength;
    ClosedFormParts(year, 1, 1);
    ClosedFormParts(year + 1, 1, 1);
    MarchStep(year - 1);
  }

  lemma {:induction false} NewYear(year: int)
    ensures DaysFromCivil(year, 1, 1) == DaysBeforeYear(year)
    decreases if year >= 1970 then year - 1970 else 1970 - year
  {
    hide DaysFromCivil;
    if year == 1970 {
      Epoch();
    } else if year > 1970 {
      NewYear(year - 1);
      NewYearStep(year - 1);
    } else {
      NewYear(year + 1);
      NewYearStep(year);
    }
  }

  lemma Epoch()
    ensures DaysFromCivil(1970, 1, 1) == 0
  {
  }

  lemma MonthStep(year: int, month: int, day: int)
    requires 1 <= month < 12
    ensures DaysFromCivil(year, month + 1, day) == DaysFromCivil(year, month, day) + DaysInMonth(year, month)
  {
    hide DaysFromCivil, MarchDays, IsLeapYear;
    ClosedFormParts(year, month, day);
    ClosedFormParts(year, month + 1, day);
    MarchStep(year - 1);
  }

  lemma {:induction false} MonthStart(year: int, month: int, day: int)
    requires 1 <= month <= 12
    ensures DaysFromCivil(year, month, day) == DaysFromCivil(year, 1, day) + DaysBeforeMonth(year, month)
    decreases month
  {
    hide DaysFromCivil;
    if month > 1 {
      MonthStart(year, month - 1, day);
      MonthStep(year, month - 1, day);
    }
  }

  /** For every year, positive or negative, and every month and day, the closed
      form is the count of days by year and month lengths. */
  lemma ClosedFormCounts(year: int, month: int, day: int)
    requires 1 <= month <= 12
    ensures DaysFromCivil(year, month, day) == DayCount(year, month, day)
  {
    MonthStart(year, month, day);
    NewYear(year);
    assert DaysFromCivil(year, 1, day) == DaysFromCivil(year, 1, 1) + day - 1;
  }

  // ---------------------------------------------------------------- grammar

  predicate IsDigit(c: char) {
    '0' <= c <= '9'
  }

  function Digits(s: string): int {
    if s == [] then 0 else 10 * Digits(s[..|s| - 1]) + (s[|s| - 1] as int - '0' as int)
  }

  predicate SeparatorsOk(s: string)
    requires |s| >= 19
  {
    forall i :: 0 <= i < 19 ==>
      if i == 4 || i == 7 then s[i] == '-'
      else if i == 10 then s[i] == 'T' || s[i] == 't'
      else if i == 13 || i == 16 then s[i] == ':'
      else IsDigit(s[i])
  }

  function SkipDigits(s: string): string {
    if s != [] && IsDigit(s[0]) then SkipDigits(s[1..]) else s
  }

  /** An optional fraction of at least one digit, then exactly the zone `Z`. */
  predicate TailOk(rest: string) {
    if rest != [] && rest[0] == '.' then
      var frac := rest[1..];
      frac != [] && IsDigit(frac[0]) && SkipDigits(frac) in ["Z", "z"]
    else rest in ["Z", "z"]
  }

  datatype Fields = Fields(year: int, month: int, day: int, hour: int, minute: int, second: int)

  function FieldsOf(s: string): Fields
    requires |s| >= 19
  {
    Fields(Digits(s[0..4]), Digits(s[5..7]), Digits(s[8..10]), Digits(s[11..13]), Digits(s[14..16]), Digits(s[17..19]))
  }

  predicate FieldsOk(f: Fields) {
    && 1 <= f.month <= 12 && 1 <= f.day <= DaysInMonth(f.year, f.month)
    && f.hour <= 23 && f.minute <= 59 && f.second <= 60
  }

  function ParseRfc3339Utc(s: string): Option<int> {
    if |s| < 19 then None
    else if !SeparatorsOk(s) then None
    else
      var f := FieldsOf(s);
      if !FieldsOk(f) then None
      else if !TailOk(s[19..]) then None
      else Some(DaysFromCivil(f.year, f.month, f.day) * 86_400 + f.hour * 3_600 + f.minute * 60 + f.second)
  }

  // ------------------------------------------------------------ order of time

  predicate Earlier(a: Fields, b: Fields) {
    a.year < b.year || (a.year == b.year &&
    (a.month < b.month || (a.month == b.month &&
    (a.day < b.day || (a.day == b.day &&
    (a.hour < b.hour || (a.hour == b.hour &&
    (a.minute < b.minute || (a.minute == b.minute && a.second < b.second)))))))))
  }

  lemma {:induction false} YearsGrow(a: int, b: int)
    requires a < b
    ensures DaysBeforeYear(a) + YearLength(a) <= DaysBeforeYear(b)
    decreases b - a
  {
    YearNext(b - 1);
    if a < b - 1 { YearsGrow(a, b - 1); }
  }

  lemma YearNext(y: int)
    ensures DaysBeforeYear(y + 1) == DaysBeforeYear(y) + YearLength(y)
  {
  }

  lemma {:induction false} MonthsGrow(year: int, a: int, b: int)
    requires 1 <= a < b <= 13
    ensures DaysBeforeMonth(year, a) + DaysInMonth(year, a) <= DaysBeforeMonth(year, b)
    decreases b
  {
    if a < b - 1 { MonthsGrow(year, a, b - 1); }
  }

  lemma WholeYear(year: int)
    ensures DaysBeforeMonth(year, 13) == YearLength(year)
  {
    assert DaysBeforeMonth(year, 3) == 31 + DaysInMonth(year, 2);
    assert DaysBeforeMonth(year, 5) == DaysBeforeMonth(year, 3) + 61;
    assert DaysBeforeMonth(year, 7) == DaysBeforeMonth(year, 5) + 61;
    assert DaysBeforeMonth(year, 9) == DaysBeforeMonth(year, 7) + 62;
    assert DaysBeforeMonth(year, 11) == DaysBeforeMonth(year, 9) + 61;
  }

  lemma DaysGrow(a: Fields, b: Fields)
    requires FieldsOk(a) && FieldsOk(b)
    requires a.year < b.year || (a.year == b.year && (a.month < b.month || (a.month == b.month && a.day < b.day)))
    ensures DayCount(a.year, a.month, a.day) < DayCount(b.year, b.month, b.day)
  {
    if a.year < b.year {
      YearsGrow(a.year, b.year);
      MonthsGrow(a.year, a.month, 13);
      WholeYear(a.year);
      if b.month > 1 { MonthsGrow(b.year, 1, b.month); }
    } else if a.month < b.month {
      MonthsGrow(a.year, a.month, b.month);
    }
  }

  function Instant(f: Fields): int
    requires FieldsOk(f)
  {
    DayCount(f.year, f.month, f.day) * 86_400 + f.hour * 3_600 + f.minute * 60 + f.second
  }

  lemma EarlierIsSmaller(a: Fields, b: Fields)
    requires FieldsOk(a) && FieldsOk(b)
    requires a.hour >= 0 && a.minute >= 0 && a.second >= 0 && b.hour >= 0 && b.minute >= 0 && b.second >= 0
    requires Earlier(a, b)
    ensures Instant(a) < Instant(b) || (Instant(a) == Instant(b) && a.second == 60 && b.second == 0)
  {
    hide DayCount, DaysInMonth;
    if !(a.year == b.year && a.month == b.month && a.day == b.day) { DaysGrow(a, b); }
  }

  lemma {:induction false} DigitsNonNegative(s: string)
    requires forall i :: 0 <= i < |s| ==> IsDigit(s[i])
    ensures Digits(s) >= 0
  {
    if s != [] { DigitsNonNegative(s[..|s| - 1]); }
  }

  lemma ParsedIsInstant(s: string)
    requires ParseRfc3339Utc(s).Some?
    ensures |s| >= 19 && FieldsOk(FieldsOf(s)) && ParseRfc3339Utc(s).value == Instant(FieldsOf(s))
    ensures var f := FieldsOf(s); f.hour >= 0 && f.minute >= 0 && f.second >= 0
  {
    hide DaysFromCivil, DayCount, Digits;
    var f := FieldsOf(s);
    ClosedFormCounts(f.year, f.month, f.day);
    DigitsNonNegative(s[11..13]);
    DigitsNonNegative(s[14..16]);
    DigitsNonNegative(s[17..19]);
  }

  /** On accepted timestamps parsing follows the order of the fields. The only
      tie between different fields is a leap second with the second after it,
      so without leap seconds the orders are the same. */
  lemma ParsingIsMonotone(s: string, t: string)
    requires ParseRfc3339Utc(s).Some? && ParseRfc3339Utc(t).Some?
    ensures var a, b, p, q := FieldsOf(s), FieldsOf(t), ParseRfc3339Utc(s).value, ParseRfc3339Utc(t).value;
            (Earlier(a, b) ==> p < q || (p == q && a.second == 60 && b.second == 0)) &&
            (a.second <= 59 && b.second <= 59 ==> (p < q <==> Earlier(a, b)) && (p == q <==> a == b))
  {
    hide ParseRfc3339Utc, FieldsOf, Instant;
    ParsedIsInstant(s);
    ParsedIsInstant(t);
    var a, b := FieldsOf(s), FieldsOf(t);
    if Earlier(a, b) { EarlierIsSmaller(a, b); }
    if Earlier(b, a) { EarlierIsSmaller(b, a); }
    assert Earlier(a, b) || Earlier(b, a) || a == b;
  }

  /** Second 60 reads as the second after second 59. */
  lemma LeapSecondIsNextSecond(f: Fields)
    requires FieldsOk(f) && f.second == 60
    ensures Instant(f) == Instant(f.(second := 59)) + 1
  {
    hide DayCount;
  }

  // -------------------------------------------------------------- round trip

  function Pad(v: nat, width: nat): (r: string)
    ensures |r| == width
  {
    if width == 0 then "" else Pad(v / 10, width - 1) + ['0' + (v % 10) as char]
  }

  function Pow10(k: nat): nat {
    if k == 0 then 1 else 10 * Pow10(k - 1)
  }

  /** The written form of the fields, up to and including the seconds. */
  function Render(f: Fields): string
    requires 0 <= f.year && 0 <= f.month && 0 <= f.day && 0 <= f.hour && 0 <= f.minute && 0 <= f.second
  {
    Pad(f.year, 4) + "-" + Pad(f.month, 2) + "-" + Pad(f.day, 2) + "T" +
    Pad(f.hour, 2) + ":" + Pad(f.minute, 2) + ":" + Pad(f.second, 2)
  }

  lemma {:induction false} PadRoundTrip(v: nat, width: nat)
    requires v < Pow10(width)
    ensures Digits(Pad(v, width)) == v
    ensures forall i :: 0 <= i < width ==> IsDigit(Pad(v, width)[i])
  {
    if width > 0 {
      PadRoundTrip(v / 10, width - 1);
      var r := Pad(v, width);
      assert r[..|r| - 1] == Pad(v / 10, width - 1);
    }
  }

  lemma {:induction false} DigitsRoundTrip(s: string)
    requires forall i :: 0 <= i < |s| ==> IsDigit(s[i])
    ensures 0 <= Digits(s) < Pow10(|s|) && Pad(Digits(s), |s|) == s
  {
    if s != [] {
      var front, last := s[..|s| - 1], s[|s| - 1] as int - '0' as int;
      DigitsRoundTrip(front);
      assert (10 * Digits(front) + last) / 10 == Digits(front) && (10 * Digits(front) + last) % 10 == last;
      assert s == front + [s[|s| - 1]];
    }
  }

  lemma TensAndThousands()
    ensures Pow10(2) == 100 && Pow10(4) == 10_000
  {
    assert Pow10(1) == 10 && Pow10(3) == 1_000;
  }

  /** The tails the grammar allows, spelled out: the zone alone, or a dot, at
      least one digit and the zone. */
  lemma TailForms(rest: string)
    ensures TailOk(rest) <==>
            rest == "Z" || rest == "z" ||
            (|rest| >= 3 && rest[0] == '.' && (forall i :: 1 <= i < |rest| - 1 ==> IsDigit(rest[i])) && rest[|rest| - 1] in "Zz")
  {
    if rest != [] && rest[0] == '.' { SkipForms(rest[1..]); }
  }

  lemma {:induction false} SkipForms(s: string)
    ensures SkipDigits(s) in ["Z", "z"] <==>
            |s| >= 1 && (forall i :: 0 <= i < |s| - 1 ==> IsDigit(s[i])) && s[|s| - 1] in "Zz"
  {
    if s != [] && IsDigit(s[0]) {
      SkipForms(s[1..]);
      if |s| >= 2 {
        assert s[|s| - 1] == s[1..][|s| - 2];
        assert forall i :: 1 <= i < |s| - 1 ==> s[i] == s[1..][i - 1];
      }
    } else if |s| == 1 {
      assert s == [s[0]] && SkipDigits(s) == s;
    }
  }

  /** A calendar date and a time of day, a leap second included. */
  predicate RealTime(f: Fields) {
    && 0 <= f.year <= 9999 && 1 <= f.month <= 12 && 1 <= f.day <= DaysInMonth(f.year, f.month)
    && 0 <= f.hour < 24 && 0 <= f.minute < 60 && 0 <= f.second <= 60
  }

  /** Any written valid date and time, with an optional fraction and the zone,
      is accepted and reads back as its count of days and seconds. */
  lemma ParseUndoesRender(f: Fields, tail: string)
    requires RealTime(f) && TailOk(tail)
    ensures FieldsOk(f) && ParseRfc3339Utc(Render(f) + tail) == Some(Instant(f))
  {
    hide DaysFromCivil, DayCount, Digits, Pad, TailOk;
    TensAndThousands();
    PadRoundTrip(f.year, 4); PadRoundTrip(f.month, 2); PadRoundTrip(f.day, 2);
    PadRoundTrip(f.hour, 2); PadRoundTrip(f.minute, 2); PadRoundTrip(f.second, 2);
    var s := Render(f) + tail;
    assert s[0..4] == Pad(f.year, 4) && s[5..7] == Pad(f.month, 2) && s[8..10] == Pad(f.day, 2);
    assert s[11..13] == Pad(f.hour, 2) && s[14..16] == Pad(f.minute, 2) && s[17..19] == Pad(f.second, 2);
    assert s[19..] == tail;
    ClosedFormCounts(f.year, f.month, f.day);
  }

  /** And nothing else is accepted: an accepted string is the written form of
      its own fields, with either case of the date-time separator. */
  lemma AcceptedIsRendered(s: string)
    requires ParseRfc3339Utc(s).Some?
    ensures var f := FieldsOf(s);
            RealTime(f) && FieldsOk(f) &&
            TailOk(s[19..]) && s[10] in "Tt" && s[10 := 'T'] == Render(f) + s[19..]
  {
    hide DaysFromCivil, Digits, Pad, TailOk;
    TensAndThousands();
    DigitsRoundTrip(s[0..4]); DigitsRoundTrip(s[5..7]); DigitsRoundTrip(s[8..10]);
    DigitsRoundTrip(s[11..13]); DigitsRoundTrip(s[14..16]); DigitsRoundTrip(s[17..19]);
    var f := FieldsOf(s);
    assert Render(f) == s[0..4] + "-" + s[5..7] + "-" + s[8..10] + "T" + s[11..13] + ":" + s[14..16] + ":" + s[17..19];
  }
}
