/** Proleptic Gregorian calendar arithmetic: dates to day numbers and back, the Monday of a
    week, and the day count of a `YYYYMMDD` string. */
module Calendar {
  import opened Options

  datatype Date = Date(year: int, month: nat, day: nat)

  /** Integer division that rounds toward zero. */
  function TruncDiv(a: int, b: nat): int
    requires b > 0
  {
    if a >= 0 then a / b else -((-a) / b)
  }

  predicate IsLeapYear(year: int) {
    (year % 4 == 0 && year % 100 != 0) || year % 400 == 0
  }

  function DaysInMonth(year: int, month: nat): Option<nat> {
    if month in {1, 3, 5, 7, 8, 10, 12} then Some(31)
    else if month in {4, 6, 9, 11} then Some(30)
    else if month == 2 then Some(if IsLeapYear(year) then 29 else 28)
    else None
  }

  predicate ValidDate(date: Date) {
    1 <= date.month <= 12 && 1 <= date.day <= DaysInMonth(date.year, date.month).value
  }

  // Days before the `yoe`-th year, counted from March, of a 400-year era.
  function YearStart(yoe: int): int {
    yoe * 365 + yoe / 4 - yoe / 100
  }

  function YearOfEra(doe: int): int {
    (doe - doe / 1460 + doe / 36524 - doe / 146096) / 365
  }

  // Days before the `mp`-th month counted from March.
  function MonthStart(mp: int): int {
    (153 * mp + 2) / 5
  }

  /** Days since 1970-01-01. */
  function DaysFromCivil(date: Date): int {
    var m, d := date.month, date.day;
    var y := if m <= 2 then date.year - 1 else date.year;
    var era := TruncDiv(if y >= 0 then y else y - 399, 400);
    var yoe := y - era * 400;
    var doy := MonthStart(if m > 2 then m - 3 else m + 9) + d - 1;
    var doe := YearStart(yoe) + doy;
    era * 146097 + doe - 719468
  }

  function CivilFromDays(z: int): Date {
    var z := z + 719468;
    var era := TruncDiv(if z >= 0 then z else z - 146096, 146097);
    var doe := z - era * 146097;
    var yoe := YearOfEra(doe);
    var y := yoe + era * 400;
    var doy := doe - YearStart(yoe);
    var mp := (5 * doy + 2) / 153;
    var d := doy - MonthStart(mp) + 1;
    var m := if mp < 10 then mp + 3 else mp - 9;
    var d' := if d < 0 then 0 else d;
    var m' := if m < 0 then 0 else m;
    Date(if m <= 2 then y + 1 else y, m', d')
  }

  // Years of an era, by centuries (`c`), four-year groups (`q`) and years (`r`)

  lemma Div1460(x: nat, q: nat, r: nat)
    requires r < 1460 && x == 1460 * q + r
    ensures x / 1460 == q
  {
  }

  lemma Div36524(x: nat, q: nat, r: nat)
    requires r < 36524 && x == 36524 * q + r
    ensures x / 36524 == q
  {
  }

  lemma Div365(x: nat, q: nat, r: nat)
    requires r < 365 && x == 365 * q + r
    ensures x / 365 == q
  {
  }

  lemma YearStartSplit(c: nat, q: nat, r: nat)
    requires c < 4 && q < 25 && r < 4
    ensures YearStart(100 * c + 4 * q + r) == 36524 * c + 1461 * q + 365 * r
  {
  }

  lemma LeapSplit(c: nat, q: nat, r: nat)
    requires c < 4 && q < 25 && r < 4
    ensures IsLeapYear(100 * c + 4 * q + r + 1) <==> r == 3 && (q < 24 || c == 3)
  {
  }

  /** A day of the era belongs to the year it is counted from. */
  lemma YearOfDay(c: nat, q: nat, r: nat, doy: nat)
    requires c < 4 && q < 25 && r < 4 && doy <= 365 && (doy == 365 ==> r == 3 && (q < 24 || c == 3))
    ensures YearOfEra(36524 * c + 1461 * q + 365 * r + doy) == 100 * c + 4 * q + r
  {
    var doe := 36524 * c + 1461 * q + 365 * r + doy;
    var extra := 24 * c + q + 365 * r + doy;
    var b := if extra >= 1460 then 1 else 0;
    Div1460(doe, 25 * c + q + b, extra - 1460 * b);
    if doe == 146096 {
      Div36524(doe, 4, 0);
    } else {
      Div36524(doe, c, 1461 * q + 365 * r + doy);
    }
    assert doe / 36524 - doe / 146096 == c;
    Div365(doe - doe / 1460 + c, 100 * c + 4 * q + r, doy - b);
  }

  lemma YearRecovered(yoe: nat, doy: nat)
    requires yoe < 400 && doy <= 365 && (doy == 365 ==> IsLeapYear(yoe + 1))
    ensures YearOfEra(YearStart(yoe) + doy) == yoe
  {
    var c, q, r := yoe / 100, yoe % 100 / 4, yoe % 4;
    assert yoe == 100 * c + 4 * q + r;
    LeapSplit(c, q, r);
    YearStartSplit(c, q, r);
    YearOfDay(c, q, r, doy);
  }

  lemma YearFound(doe: nat)
    requires doe < 146097
    ensures var yoe := YearOfEra(doe);
      && 0 <= yoe < 400
      && 0 <= doe - YearStart(yoe) <= 365
      && (doe - YearStart(yoe) == 365 ==> IsLeapYear(yoe + 1))
  {
    var c := if doe == 146096 then 3 else doe / 36524;
    var e := doe - 36524 * c;
    var q := e / 1461;
    var f := e - 1461 * q;
    var r := if f == 1460 then 3 else f / 365;
    LeapSplit(c, q, r);
    YearStartSplit(c, q, r);
    YearOfDay(c, q, r, f - 365 * r);
  }

  // Months of a year counted from March

  function MonthIndex(month: nat): nat
    requires 1 <= month <= 12
  {
    if month > 2 then month - 3 else month + 9
  }

  /** The first of month 0 to 11 from March, on the days before it in the year. */
  lemma MonthStarts(mp: nat)
    requires mp < 12
    ensures MonthStart(mp) == [0, 31, 61, 92, 122, 153, 184, 214, 245, 275, 306, 337][mp]
  {
  }

  /** Months are shorter than the gap to the next one allows, so the division finds them. */
  lemma MonthFound(mp: nat, d: nat)
    requires mp < 12 && d < (if mp == 11 then 29 else MonthStart(mp + 1) - MonthStart(mp))
    ensures (5 * (MonthStart(mp) + d) + 2) / 153 == mp
  {
  }

  lemma MonthOfDay(doy: nat)
    requires doy <= 365
    ensures var mp := (5 * doy + 2) / 153;
      && mp < 12 && MonthStart(mp) <= doy
      && doy - MonthStart(mp) < (if mp == 11 then 29 else MonthStart(mp + 1) - MonthStart(mp))
  {
  }

  /** The length of a month is the gap between month starts; February ends the year. */
  lemma MonthLength(year: int, month: nat)
    requires 1 <= month <= 12
    ensures var mp := MonthIndex(month);
      var days := if mp == 11 then (if IsLeapYear(year) then 29 else 28) else MonthStart(mp + 1) - MonthStart(mp);
      days >= 0 && DaysInMonth(year, month) == Some(days)
  {
    var mp := MonthIndex(month);
    MonthStarts(mp);
    if mp < 11 {
      MonthStarts(mp + 1);
    }
  }

  // Eras

  lemma EraOfYear(y: int, era: int, yoe: nat)
    requires yoe < 400 && y == 400 * era + yoe
    ensures TruncDiv(if y >= 0 then y else y - 399, 400) == era
  {
  }

  lemma EraOfDay(z: int, era: int, doe: nat)
    requires doe < 146097 && z == 146097 * era + doe
    ensures TruncDiv(if z >= 0 then z else z - 146096, 146097) == era
  {
  }

  /** Days from 0000-03-01 to the first of March that starts year `y` counted from March. */
  function MarchDays(y: int): int {
    365 * y + y / 4 - y / 100 + y / 400
  }

  lemma Shift4(x: int, k: int)
    ensures (x + 4 * k) / 4 == x / 4 + k && (x + 4 * k) % 4 == x % 4
  {
  }

  lemma Shift100(x: int, k: int)
    ensures (x + 100 * k) / 100 == x / 100 + k && (x + 100 * k) % 100 == x % 100
  {
  }

  lemma Shift400(x: int, k: int)
    ensures (x + 400 * k) / 400 == x / 400 + k && (x + 400 * k) % 400 == x % 400
  {
  }

  lemma MarchDaysByEra(era: int, yoe: nat)
    requires yoe < 400
    ensures MarchDays(400 * era + yoe) == 146097 * era + YearStart(yoe)
  {
    Shift4(yoe, 100 * era);
    Shift100(yoe, 4 * era);
    Shift400(yoe, era);
  }

  function MarchYear(date: Date): int {
    if date.month <= 2 then date.year - 1 else date.year
  }

  /** The day number, by closed form; the day may lie past the end of its month. */
  lemma DaysClosed(date: Date)
    requires 1 <= date.month <= 12
    ensures DaysFromCivil(date)
         == MarchDays(MarchYear(date)) + MonthStart(MonthIndex(date.month)) + date.day - 1 - 719468
  {
    hide YearStart, MarchDays;
    var y := MarchYear(date);
    var era, yoe := y / 400, y % 400;
    EraOfYear(y, era, yoe);
    MarchDaysByEra(era, yoe);
    YearStartIs(yoe);
  }

  lemma YearStartIs(yoe: nat)
    ensures YearStart(yoe) == yoe * 365 + yoe / 4 - yoe / 100
  {
  }

  lemma DayOfYear(date: Date)
    requires ValidDate(date)
    ensures 0 <= MonthStart(MonthIndex(date.month)) + date.day - 1 <= 365
    ensures MonthStart(MonthIndex(date.month)) + date.day - 1 == 365 ==> IsLeapYear(MarchYear(date) + 1)
    ensures (5 * (MonthStart(MonthIndex(date.month)) + date.day - 1) + 2) / 153 == MonthIndex(date.month)
  {
    hide IsLeapYear;
    var mp := MonthIndex(date.month);
    MonthLength(date.year, date.month);
    MonthStarts(mp);
    MonthFound(mp, date.day - 1);
    if mp < 11 {
      MonthStarts(mp + 1);
    }
  }

  lemma LeapByEra(era: int, yoe: nat)
    requires yoe < 400
    ensures IsLeapYear(400 * era + yoe + 1) <==> IsLeapYear(yoe + 1)
  {
    Shift4(yoe + 1, 100 * era);
    Shift100(yoe + 1, 4 * era);
    Shift400(yoe + 1, era);
  }

  /** `civil_from_days` on a day given by its era, year, and day of the year. */
  lemma CivilOf(era: int, yoe: nat, doy: nat)
    requires yoe < 400 && doy <= 365 && (doy == 365 ==> IsLeapYear(yoe + 1))
    ensures YearStart(yoe) + doy < 146097
    ensures var mp := (5 * doy + 2) / 153;
      var m := if mp < 10 then mp + 3 else mp - 9;
      CivilFromDays(146097 * era + YearStart(yoe) + doy - 719468)
        == Date(400 * era + yoe + if m <= 2 then 1 else 0, m, doy - MonthStart(mp) + 1)
  {
    hide TruncDiv, IsLeapYear, YearOfEra, YearStart, MonthStart;
    YearRecovered(yoe, doy);
    EraBound(yoe, doy);
    EraOfDay(146097 * era + YearStart(yoe) + doy, era, YearStart(yoe) + doy);
    MonthOfDay(doy);
  }

  lemma EraBound(yoe: nat, doy: nat)
    requires yoe < 400 && doy <= 365 && (doy == 365 ==> IsLeapYear(yoe + 1))
    ensures 0 <= YearStart(yoe) + doy < 146097
  {
  }

  /** From a date to its day number and back. */
  lemma DateRoundTrip(date: Date)
    requires ValidDate(date)
    ensures CivilFromDays(DaysFromCivil(date)) == date
  {
    hide CivilFromDays, DaysFromCivil, IsLeapYear, MarchDays, YearStart;
    var y, mp := MarchYear(date), MonthIndex(date.month);
    var era, yoe := y / 400, y % 400;
    var doy := MonthStart(mp) + date.day - 1;
    DaysClosed(date);
    DayOfYear(date);
    MarchDaysByEra(era, yoe);
    LeapByEra(era, yoe);
    CivilOf(era, yoe, doy);
  }

  /** From any integer to a valid date and back. */
  lemma DayRoundTrip(z: int)
    ensures ValidDate(CivilFromDays(z))
    ensures DaysFromCivil(CivilFromDays(z)) == z
  {
    hide CivilFromDays, DaysFromCivil, IsLeapYear, MarchDays, YearStart, YearOfEra;
    var era, doe := (z + 719468) / 146097, (z + 719468) % 146097;
    YearFound(doe);
    var yoe := YearOfEra(doe);
    var doy := doe - YearStart(yoe);
    CivilOf(era, yoe, doy);
    var date := CivilFromDays(z);
    MonthOfDay(doy);
    LeapByEra(era, yoe);
    MonthLength(date.year, date.month);
    MonthStarts((5 * doy + 2) / 153);
    DaysClosed(date);
    MarchDaysByEra(era, yoe);
  }

  // An independent reference: one day after another

  /** The day after a date. */
  function NextDay(date: Date): Date
    requires ValidDate(date)
  {
    if date.day < DaysInMonth(date.year, date.month).value then date.(day := date.day + 1)
    else if date.month < 12 then Date(date.year, date.month + 1, 1)
    else Date(date.year + 1, 1, 1)
  }

  lemma Step4(x: int)
    ensures (x + 1) / 4 == x / 4 + if (x + 1) % 4 == 0 then 1 else 0
  {
  }

  lemma Step100(x: int)
    ensures (x + 1) / 100 == x / 100 + if (x + 1) % 100 == 0 then 1 else 0
    ensures x % 100 == 0 ==> x % 4 == 0
  {
  }

  lemma Step400(x: int)
    ensures (x + 1) / 400 == x / 400 + if (x + 1) % 400 == 0 then 1 else 0
    ensures x % 400 == 0 ==> x % 100 == 0
  {
  }

  lemma MarchYearStep(y: int)
    ensures MarchDays(y + 1) == MarchDays(y) + if IsLeapYear(y + 1) then 366 else 365
  {
    Step4(y);
    Step100(y);
    Step100(y + 1);
    Step400(y);
    Step400(y + 1);
  }

  /** The first of a month is as many days after the first of the one before as that one has. */
  lemma MonthStep(year: int, month: nat)
    requires 1 <= month <= 12
    ensures var next := if month == 12 then Date(year + 1, 1, 1) else Date(year, month + 1, 1);
      DaysFromCivil(next) == DaysFromCivil(Date(year, month, 1)) + DaysInMonth(year, month).value
  {
    hide DaysFromCivil, IsLeapYear, MarchDays;
    var next := if month == 12 then Date(year + 1, 1, 1) else Date(year, month + 1, 1);
    DaysClosed(Date(year, month, 1));
    DaysClosed(next);
    MonthLength(year, month);
    MonthStarts(MonthIndex(month));
    MonthStarts(MonthIndex(next.month));
    MarchYearStep(year - 1);
  }

  lemma YearStep(year: int)
    ensures DaysFromCivil(Date(year + 1, 1, 1))
         == DaysFromCivil(Date(year, 1, 1)) + if IsLeapYear(year) then 366 else 365
  {
    hide DaysFromCivil, IsLeapYear, MarchDays;
    DaysClosed(Date(year, 1, 1));
    DaysClosed(Date(year + 1, 1, 1));
    MarchYearStep(year - 1);
  }

  /** Day numbers count days: 1970-01-01 is day 0, and the next date is the next number. */
  lemma DaysCount(date: Date)
    requires ValidDate(date)
    ensures DaysFromCivil(Date(1970, 1, 1)) == 0
    ensures ValidDate(NextDay(date)) && DaysFromCivil(NextDay(date)) == DaysFromCivil(date) + 1
  {
    hide DaysFromCivil, MarchDays, IsLeapYear;
    Epoch();
    DaysClosed(date);
    NextDayValid(date);
    DaysClosed(NextDay(date));
    DaysClosed(Date(date.year, date.month, 1));
    MonthStep(date.year, date.month);
  }

  lemma Epoch()
    ensures DaysFromCivil(Date(1970, 1, 1)) == 0
  {
  }

  lemma NextDayValid(date: Date)
    requires ValidDate(date)
    ensures ValidDate(NextDay(date))
  {
    hide IsLeapYear;
  }

  // The Monday of a week

  /** 0 for Monday to 6 for Sunday; day 0 was a Thursday. */
  function Weekday(z: int): nat {
    (z + 3) % 7
  }

  function WeekAnchorMonday(date: Date): Date {
    var z := DaysFromCivil(date);
    CivilFromDays(z - Weekday(z))
  }

  /** A day past the end of its month counts on into the next: histogram buckets take any day
      from 1 to 31 of any month. */
  lemma LateDaysCountOn(date: Date)
    requires 1 <= date.month <= 12
    ensures DaysFromCivil(date) == DaysFromCivil(date.(day := 1)) + date.day - 1
  {
    hide DaysFromCivil, MarchDays, MonthStart;
    DaysClosed(date);
    DaysClosed(date.(day := 1));
  }

  /** The anchor is the one Monday in the seven days that end at the date, or at the day a late
      date counts on to. */
  lemma AnchorIsTheMonday(date: Date, other: Date)
    requires ValidDate(other)
    ensures var z := DaysFromCivil(date);
      && ValidDate(WeekAnchorMonday(date))
      && (other == WeekAnchorMonday(date)
          <==> (Weekday(DaysFromCivil(other)) == 0 && z - 6 <= DaysFromCivil(other) <= z))
  {
    hide DaysFromCivil, CivilFromDays, IsLeapYear;
    var z := DaysFromCivil(date);
    DayRoundTrip(z - Weekday(z));
    DateRoundTrip(other);
  }

  // `YYYYMMDD`

  predicate AllDigits(text: seq<char>) {
    forall i :: 0 <= i < |text| ==> '0' <= text[i] <= '9'
  }

  function Digits(text: seq<char>): nat
    requires AllDigits(text)
  {
    if text == [] then 0
    else 10 * Digits(text[..|text| - 1]) + (text[|text| - 1] as nat - '0' as nat)
  }

  function ParsedDate(text: seq<char>): Date
    requires |text| == 8 && AllDigits(text)
  {
    Date(Digits(text[..4]), Digits(text[4..6]), Digits(text[6..]))
  }

  /** The accumulation: whole years from year 1, whole months, then days. */
  method CountDays(date: Date) returns (days: int)
    requires ValidDate(date) && date.year >= 0
    ensures days == DaysFromCivil(date) + 719162 + if date.year == 0 then 366 else 0
  {
    hide DaysFromCivil, IsLeapYear;
    FirstDays();
    days := 0;
    var y := 1;
    while y < date.year
      invariant 1 <= y && (y <= date.year || y == 1)
      invariant days == DaysFromCivil(Date(y, 1, 1)) + 719162
    {
      YearStep(y);
      days := days + if IsLeapYear(y) then 366 else 365;
      y := y + 1;
    }
    for m := 1 to date.month
      invariant days == DaysFromCivil(Date(date.year, m, 1)) + 719162 + if date.year == 0 then 366 else 0
    {
      MonthStep(date.year, m);
      days := days + DaysInMonth(date.year, m).value;
    }
    DaysClosed(date.(day := 1));
    DaysClosed(date);
    days := days + date.day - 1;
  }

  /** Days since 0001-01-01 of a `YYYYMMDD` text: it answers exactly for the eight-digit valid
      dates, and agrees with `days_from_civil` exactly from year 1 on. */
  method ParseYyyymmddToDays(text: seq<char>) returns (r: Option<int>)
    ensures r.Some? <==> (|text| == 8 && AllDigits(text) && ValidDate(ParsedDate(text)))
    ensures r.Some? ==> (r.value == DaysFromCivil(ParsedDate(text)) + 719162 <==> ParsedDate(text).year >= 1)
    ensures r.Some? && ParsedDate(text).year == 0 ==> r.value == DaysFromCivil(ParsedDate(text)) + 719162 + 366
  {
    if |text| != 8 || !AllDigits(text) {
      return None;
    }
    hide DaysFromCivil, IsLeapYear, Digits;
    var year, month, day := Digits(text[0..4]), Digits(text[4..6]), Digits(text[6..8]);
    assert text[0..4] == text[..4] && text[6..8] == text[6..];
    if !(1 <= month <= 12) || day == 0 {
      return None;
    }
    var maxDay := DaysInMonth(year, month).value;
    if day > maxDay {
      return None;
    }
    var days := CountDays(Date(year, month, day));
    r := Some(days);
  }

  /** A text on which the two counts differ: year 0 is not counted from year 1. */
  method YearZero() returns (r: Option<int>)
    ensures AllDigits("00000101") && ParsedDate("00000101") == Date(0, 1, 1)
    ensures r == Some(0) && r.value != DaysFromCivil(ParsedDate("00000101")) + 719162
  {
    YearZeroText();
    FirstDays();
    r := ParseYyyymmddToDays("00000101");
  }

  lemma DigitsSnoc(text: seq<char>, c: char)
    requires AllDigits(text) && '0' <= c <= '9'
    ensures Digits(text + [c]) == 10 * Digits(text) + Digit(c)
  {
    assert (text + [c])[..|text|] == text;
  }

  function Digit(c: char): nat
    requires '0' <= c <= '9'
  {
    c as nat - '0' as nat
  }

  lemma TwoDigits(a: char, b: char)
    requires '0' <= a <= '9' && '0' <= b <= '9'
    ensures AllDigits([a, b]) && Digits([a, b]) == 10 * Digit(a) + Digit(b)
  {
    assert Digits([]) == 0;
    hide Digits;
    DigitsSnoc([], a);
    DigitsSnoc([a], b);
    assert [] + [a] == [a] && [a] + [b] == [a, b];
  }

  lemma FourZeros()
    ensures AllDigits(['0', '0', '0', '0']) && Digits(['0', '0', '0', '0']) == 0
  {
    hide Digits;
    TwoDigits('0', '0');
    DigitsSnoc(['0', '0'], '0');
    DigitsSnoc(['0', '0', '0'], '0');
    assert ['0', '0'] + ['0'] == ['0', '0', '0'] && ['0', '0', '0'] + ['0'] == ['0', '0', '0', '0'];
  }

  lemma YearZeroText()
    ensures AllDigits("00000101") && ParsedDate("00000101") == Date(0, 1, 1) && ValidDate(Date(0, 1, 1))
  {
    hide Digits;
    var text := "00000101";
    FourZeros();
    TwoDigits('0', '1');
    assert text[..4] == ['0', '0', '0', '0'];
    assert text[4..6] == ['0', '1'];
    assert text[6..] == ['0', '1'];
  }

  lemma FirstDays()
    ensures DaysFromCivil(Date(1, 1, 1)) == -719162 && DaysFromCivil(Date(0, 1, 1)) == -719162 - 366
  {
  }
}
