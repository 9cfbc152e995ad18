/** Dates as text: the eight digits a date is written in, and the histogram bucket such a text
    falls into. */
module CalendarText {
  import opened Options
  import opened Calendar

  function DigitChar(d: nat): char
    requires d < 10
  {
    '0' + d as char
  }

  /** The last two, or four, digits of a number. */
  function Two(n: nat): seq<char> {
    [DigitChar(n / 10 % 10), DigitChar(n % 10)]
  }

  function Four(n: nat): seq<char> {
    Two(n / 100) + Two(n % 100)
  }

  /** A date in digits, for years that four digits hold. */
  function Written(date: Date): seq<char>
    requires 0 <= date.year
  {
    Four(date.year) + Two(date.month) + Two(date.day)
  }

  lemma TwoReads(n: nat)
    requires n < 100
    ensures AllDigits(Two(n)) && Digits(Two(n)) == n
  {
    TwoDigits(DigitChar(n / 10 % 10), DigitChar(n % 10));
  }

  lemma TwoWrites(a: char, b: char)
    requires '0' <= a <= '9' && '0' <= b <= '9'
    ensures Digits([a, b]) < 100 && Two(Digits([a, b])) == [a, b]
  {
    TwoDigits(a, b);
    hide Digits;
  }

  lemma {:induction false} DigitsConcat(a: seq<char>, b: seq<char>)
    requires AllDigits(a) && AllDigits(b) && |b| == 2
    ensures Digits(a + b) == 100 * Digits(a) + Digits(b)
  {
    hide Digits;
    assert b == [b[0], b[1]] && a + b == a + [b[0]] + [b[1]];
    TwoDigits(b[0], b[1]);
    DigitsSnoc(a, b[0]);
    DigitsSnoc(a + [b[0]], b[1]);
  }

  lemma FourReads(n: nat)
    requires n < 10000
    ensures AllDigits(Four(n)) && Digits(Four(n)) == n
  {
    hide Digits;
    TwoReads(n / 100);
    TwoReads(n % 100);
    DigitsConcat(Two(n / 100), Two(n % 100));
  }

  lemma FourWrites(text: seq<char>)
    requires |text| == 4 && AllDigits(text)
    ensures Digits(text) < 10000 && Four(Digits(text)) == text
  {
    hide Digits, Two;
    var a, b := text[..2], text[2..];
    assert a == [text[0], text[1]] && b == [text[2], text[3]] && text == a + b;
    TwoWrites(text[0], text[1]);
    TwoWrites(text[2], text[3]);
    DigitsConcat(a, b);
    Hundreds(Digits(a), Digits(b));
  }

  lemma Hundreds(a: nat, b: nat)
    requires b < 100
    ensures (100 * a + b) / 100 == a && (100 * a + b) % 100 == b
  {
  }

  /** The written form of a date parses back to it. */
  lemma WrittenParses(date: Date)
    requires 0 <= date.year < 10000 && date.month < 100 && date.day < 100
    ensures |Written(date)| == 8 && AllDigits(Written(date)) && ParsedDate(Written(date)) == date
  {
    hide Digits;
    FourReads(date.year);
    TwoReads(date.month);
    TwoReads(date.day);
    var text := Written(date);
    assert text[..4] == Four(date.year) && text[4..6] == Two(date.month) && text[6..] == Two(date.day);
  }

  /** And eight digits are the written form of what they parse to. */
  lemma ParsedWrites(text: seq<char>)
    requires |text| == 8 && AllDigits(text)
    ensures var date := ParsedDate(text);
      0 <= date.year < 10000 && date.month < 100 && date.day < 100 && Written(date) == text
  {
    hide Digits;
    FourWrites(text[..4]);
    TwoWrites(text[4], text[5]);
    TwoWrites(text[6], text[7]);
    assert text[4..6] == [text[4], text[5]] && text[6..] == [text[6], text[7]];
    assert text == text[..4] + text[4..6] + text[6..];
  }

  /** Days since 0001-01-01 of the written form of every valid date from year 1 on. */
  method DaysOfWritten(date: Date) returns (r: Option<int>)
    requires ValidDate(date) && 0 <= date.year < 10000
    ensures r == Some(DaysFromCivil(date) + 719162 + if date.year == 0 then 366 else 0)
  {
    hide Written, DaysFromCivil, IsLeapYear, ParsedDate;
    assert date.day < 100;
    WrittenParses(date);
    r := ParseYyyymmddToDays(Written(date));
  }

  // Weekdays

  /** 1 January 2024 was a Monday, and weekdays follow each other. */
  lemma WeekdaysCycle(date: Date)
    requires ValidDate(date)
    ensures Weekday(DaysFromCivil(Date(2024, 1, 1))) == 0
    ensures ValidDate(NextDay(date))
    ensures var today := Weekday(DaysFromCivil(date));
      Weekday(DaysFromCivil(NextDay(date))) == if today == 6 then 0 else today + 1
  {
    hide DaysFromCivil, NextDay;
    NewYear2024();
    DaysCount(date);
    hide ValidDate;
  }

  lemma NewYear2024()
    ensures DaysFromCivil(Date(2024, 1, 1)) == 19723
  {
    hide DaysFromCivil;
    DaysClosed(Date(2024, 1, 1));
  }

  // Histogram buckets

  datatype CalendarInterval = Day | Week | Month | Year

  /** A year in at least four characters, the sign included. */
  function YearText(year: int): seq<char>
    requires -1000 < year
  {
    if year >= 0 then Four(year) else ['-', DigitChar(-year / 100 % 10)] + Two(-year % 100)
  }

  function DateText(date: Date): seq<char>
    requires -1000 < date.year
  {
    YearText(date.year) + Two(date.month) + Two(date.day)
  }

  predicate Datelike(text: seq<char>) {
    |text| == 8 && AllDigits(text) && 1 <= ParsedDate(text).month <= 12 && 1 <= ParsedDate(text).day <= 31
  }

  lemma AnchorYear(date: Date)
    requires 0 <= date.year && 1 <= date.month <= 12 && 1 <= date.day <= 31
    ensures -1 <= WeekAnchorMonday(date).year <= date.year && ValidDate(WeekAnchorMonday(date))
  {
    hide DaysFromCivil, CivilFromDays, IsLeapYear, MarchDays, YearStart;
    var z := DaysFromCivil(date);
    var anchor := WeekAnchorMonday(date);
    DayRoundTrip(z - Weekday(z));
    YearOrder(anchor, date);
  }

  lemma {:induction false} MarchDaysGrow(a: int, b: int)
    requires a <= b
    ensures MarchDays(b) - MarchDays(a) >= 365 * (b - a)
    decreases b - a
  {
    hide MarchDays, IsLeapYear;
    if a < b {
      MarchYearStep(b - 1);
      MarchDaysGrow(a, b - 1);
    }
  }

  /** A day of the week before lies in the same year or the one before. */
  lemma YearOrder(a: Date, b: Date)
    requires ValidDate(a) && 1 <= b.month <= 12 && 1 <= b.day <= 31
    requires DaysFromCivil(b) - 6 <= DaysFromCivil(a) <= DaysFromCivil(b)
    ensures b.year - 1 <= a.year <= b.year
  {
    hide DaysFromCivil, MarchDays, IsLeapYear;
    DaysClosed(a);
    DaysClosed(b);
    MonthStarts(MonthIndex(a.month));
    MonthStarts(MonthIndex(b.month));
    var p, q := MarchYear(a), MarchYear(b);
    if p < q {
      MarchDaysGrow(p, q);
    } else {
      MarchDaysGrow(q, p);
    }
  }

  /** The key of the bucket a text falls into. */
  function BucketKey(text: seq<char>, interval: CalendarInterval): Option<seq<char>> {
    if !Datelike(text) then None
    else
      var date := ParsedDate(text);
      AnchorYear(date);
      Some(
        match interval
        case Day => DateText(date)
        case Month => YearText(date.year) + Two(date.month) + ['0', '1']
        case Year => YearText(date.year) + ['0', '1', '0', '1']
        case Week => DateText(WeekAnchorMonday(date)))
  }

  /** A day bucket is the date, a month and a year bucket its first day. */
  lemma KeysTruncate(text: seq<char>)
    requires Datelike(text)
    ensures BucketKey(text, Day) == Some(text)
    ensures BucketKey(text, Month) == Some(text[..6] + ['0', '1'])
    ensures BucketKey(text, Year) == Some(text[..4] + ['0', '1', '0', '1'])
  {
    hide Digits, Two, Four, WeekAnchorMonday, AllDigits;
    var date := ParsedDate(text);
    ParsedWrites(text);
    FourLong(date.year);
    TwoLong(date.month);
    assert text[..4] == Four(date.year) && text[..6] == Four(date.year) + Two(date.month);
  }

  lemma FourLong(n: nat)
    ensures |Four(n)| == 4
  {
  }

  lemma TwoLong(n: nat)
    ensures |Two(n)| == 2
  {
  }

  /** Dates are told apart by their text. */
  lemma DateTextInjective(a: Date, b: Date)
    requires -1 <= a.year < 10000 && a.month < 100 && a.day < 100
    requires -1 <= b.year < 10000 && b.month < 100 && b.day < 100
    requires DateText(a) == DateText(b)
    ensures a == b
  {
    hide Digits, Two, Four, ParsedDate;
    if a.year >= 0 && b.year >= 0 {
      WrittenParses(a);
      WrittenParses(b);
    } else {
      SignedTexts(a, b);
    }
  }

  lemma SignedTexts(a: Date, b: Date)
    requires -1 <= a.year < 10000 && a.month < 100 && a.day < 100
    requires -1 <= b.year < 10000 && b.month < 100 && b.day < 100
    requires DateText(a) == DateText(b) && (a.year < 0 || b.year < 0)
    ensures a == b
  {
    SignShows(a);
    SignShows(b);
    hide YearText;
    TwoReads(a.month);
    TwoReads(b.month);
    TwoReads(a.day);
    TwoReads(b.day);
    hide Two, Digits;
    DateParts(a);
    DateParts(b);
  }

  lemma SignShows(date: Date)
    requires -1 <= date.year
    ensures |YearText(date.year)| == 4 && (DateText(date)[0] == '-' <==> date.year < 0)
  {
  }

  lemma DateParts(date: Date)
    requires -1 <= date.year && |YearText(date.year)| == 4
    ensures DateText(date)[4..6] == Two(date.month) && DateText(date)[6..8] == Two(date.day)
  {
    hide YearText;
  }

  /** Two texts fall into one week bucket exactly if as many Mondays have passed by the one day
      as by the other. */
  lemma WeekBuckets(a: seq<char>, b: seq<char>)
    requires Datelike(a) && Datelike(b)
    ensures BucketKey(a, Week) == BucketKey(b, Week)
      <==> (DaysFromCivil(ParsedDate(a)) + 3) / 7 == (DaysFromCivil(ParsedDate(b)) + 3) / 7
  {
    hide DaysFromCivil, CivilFromDays, IsLeapYear, DateText, Digits, AllDigits, Datelike;
    DatelikeFacts(a);
    DatelikeFacts(b);
    var p, q := ParsedDate(a), ParsedDate(b);
    AnchorYear(p);
    AnchorYear(q);
    SameAnchor(p, q);
    if DateText(WeekAnchorMonday(p)) == DateText(WeekAnchorMonday(q)) {
      DateTextInjective(WeekAnchorMonday(p), WeekAnchorMonday(q));
    }
  }

  lemma DatelikeFacts(text: seq<char>)
    requires Datelike(text)
    ensures |text| == 8 && AllDigits(text)
    ensures var date := ParsedDate(text);
      0 <= date.year < 10000 && 1 <= date.month <= 12 && 1 <= date.day <= 31
  {
    ParsedWrites(text);
  }

  lemma SameAnchor(p: Date, q: Date)
    ensures WeekAnchorMonday(p) == WeekAnchorMonday(q) <==> (DaysFromCivil(p) + 3) / 7 == (DaysFromCivil(q) + 3) / 7
  {
    hide DaysFromCivil, CivilFromDays;
    var x, y := DaysFromCivil(p), DaysFromCivil(q);
    DayRoundTrip(x - Weekday(x));
    DayRoundTrip(y - Weekday(y));
    assert x - Weekday(x) == 7 * ((x + 3) / 7) - 3 && y - Weekday(y) == 7 * ((y + 3) / 7) - 3;
  }
}
