/**
 `valid_date`, `getDateDifference` and the fourteen-day filter that uses them, against a Gregorian
 calendar that counts days month after month.
 */
module Calendar {
  import opened Bytes
  import Decimal

  // ---------------------------------------------------------------- the calendar

  predicate IsLeap(year: int) {
    (year % 4 == 0 && year % 100 != 0) || year % 400 == 0
  }

  /** Months are counted from January of year 0. */
  function MonthLength(month: nat): (n: int)
    ensures 28 <= n <= 31
  {
    match month % 12
    case 1 => if IsLeap(month / 12) then 29 else 28
    case 3 => 30
    case 5 => 30
    case 8 => 30
    case 10 => 30
    case _ => 31
  }

  /** Days before the first of a month. */
  function MonthStart(month: nat): int {
    if month == 0 then 0 else MonthStart(month - 1) + MonthLength(month - 1)
  }

  datatype Date = Date(day: int, mon: int, year: int) {
    predicate HasMonth() {
      1 <= mon <= 12 && year >= 0
    }

    function Month(): nat
      requires HasMonth()
    {
      12 * year + mon - 1
    }

    /** A day below 1 stands for one of a month before. */
    function DayNumber(): int
      requires HasMonth()
    {
      MonthStart(Month()) + day
    }

    /** What `valid_date` accepts; it puts no lower bound on the day. */
    predicate Valid() {
      1800 <= year <= 9999 && 1 <= mon <= 12 && day <= MonthLength(Month())
    }
  }

  /** Years have 365 days, and a leap day every 4 years except in 3 of 4 centuries' first years. */
  lemma {:induction false} YearStart(year: nat)
    ensures MonthStart(12 * year) == 365 * year + (year + 3) / 4 - (year + 99) / 100 + (year + 399) / 400
  {
    if year == 0 {
      assert MonthStart(0) == 0;
    } else {
      hide MonthStart, MonthLength, IsLeap;
      YearStart(year - 1);
      YearLength(year - 1);
      LeapDays(year - 1);
    }
  }

  /** The leap days before a year, counted one year further. */
  lemma LeapDays(year: nat)
    ensures (year + 4) / 4 - (year + 100) / 100 + (year + 400) / 400
            == (year + 3) / 4 - (year + 99) / 100 + (year + 399) / 400 + if IsLeap(year) then 1 else 0
  {
    assert (year + 4) / 4 == (year + 3) / 4 + if year % 4 == 0 then 1 else 0;
    assert (year + 100) / 100 == (year + 99) / 100 + if year % 100 == 0 then 1 else 0;
    assert (year + 400) / 400 == (year + 399) / 400 + if year % 400 == 0 then 1 else 0;
    assert year % 400 == 0 ==> year % 100 == 0;
  }

  lemma MonthStep(year: nat, k: nat)
    requires k < 12
    ensures MonthStart(12 * year + k + 1) == MonthStart(12 * year + k) + MonthLength(12 * year + k)
    ensures MonthLength(12 * year + k) ==
            if k == 1 then if IsLeap(year) then 29 else 28
            else if k in {3, 5, 8, 10} then 30 else 31
  {
    assert (12 * year + k) % 12 == k && (12 * year + k) / 12 == year;
  }

  lemma {:induction false} YearLength(year: nat)
    ensures MonthStart(12 * year + 12) == MonthStart(12 * year) + if IsLeap(year) then 366 else 365
  {
    hide MonthStart, MonthLength;
    MonthStep(year, 0);
    MonthStep(year, 1);
    MonthStep(year, 2);
    MonthStep(year, 3);
    MonthStep(year, 4);
    MonthStep(year, 5);
    MonthStep(year, 6);
    MonthStep(year, 7);
    MonthStep(year, 8);
    MonthStep(year, 9);
    MonthStep(year, 10);
    MonthStep(year, 11);
  }

  lemma {:induction false} MonthsApart(a: nat, b: nat)
    requires a <= b
    ensures MonthStart(b) >= MonthStart(a) + 28 * (b - a)
  {
    if a == b {
    } else {
      MonthsApart(a, b - 1);
    }
  }

  // ---------------------------------------------------------------- valid_date

  method ValidDate(day: int, mon: int, year: int) returns (isValid: bool)
    ensures isValid <==> Date(day, mon, year).Valid()
  {
    isValid := true;
    var isLeap := false;
    if year >= 1800 && year <= 9999 {
      if (year % 4 == 0 && year % 100 != 0) || year % 400 == 0 {
        isLeap := true;
      }
      if mon >= 1 && mon <= 12 {
        assert (12 * year + mon - 1) % 12 == mon - 1 && (12 * year + mon - 1) / 12 == year;
        if mon == 2 {
          if isLeap && day == 29 {
            isValid := true;
          } else if day > 28 {
            isValid := false;
          }
        } else if mon == 4 || mon == 6 || mon == 9 || mon == 11 {
          if day > 30 {
            isValid := false;
          }
        } else if day > 31 {
          isValid := false;
        }
      } else {
        isValid := false;
      }
    } else {
      isValid := false;
    }
  }

  /** The lengths of the months in a common year. */
  const COMMON_YEAR: seq<int> := [31, 28, 31, 30, 31, 30, 31, 31, 30, 31, 30, 31]

  /** The valid dates, month by month. */
  lemma ValidExactly(date: Date)
    ensures date.Valid() <==>
            && 1800 <= date.year && date.year <= 9999 && 1 <= date.mon && date.mon <= 12
            && date.day <= COMMON_YEAR[date.mon - 1]
                           + if date.mon == 2 && date.year % 4 == 0 && (date.year % 100 != 0 || date.year % 400 == 0)
                             then 1 else 0
  {
    if date.HasMonth() {
      hide MonthStart, MonthLength;
      MonthStep(date.year, date.mon - 1);
    }
  }

  // ---------------------------------------------------------------- reading a date

  /**
   `substr`. The characters up to `n` or the first NUL go to a new block; the result points `n - m` bytes before
   the end of what was copied, which is the start of the block only if no NUL cut the copy short, and in front of
   it by the number of missing characters if one did.
   */
  method Substr(src: seq<byte>, m: nat, n: nat) returns (block: array<byte>, start: int)
    requires m <= n && (n <= |src| || exists k :: m <= k < |src| && src[k] == 0)
    ensures fresh(block) && block.Length == n - m + 1
    ensures start == 0 <==> n <= |src| && forall k :: m <= k < n ==> src[k] != 0
    ensures start == 0 ==> block[..] == src[m..n] + [0]
    ensures m - n <= start <= 0 && (start < 0 ==> n + start < |src| && src[n + start] == 0)
    ensures n + start <= |src| && forall k :: m <= k < n + start ==> src[k] != 0
    ensures block[..n + start - m + 1] == src[m..n + start] + [0]
  {
    var len := n - m;
    block := new byte[len + 1](_ => 0);
    var dest := 0;
    var i := m;
    while i < n && src[i] != 0
      invariant m <= i <= n && i <= |src| && dest == i - m
      invariant n <= |src| || exists k :: i <= k < |src| && src[k] == 0
      invariant forall k :: m <= k < i ==> src[k] != 0
      invariant block[..dest] == src[m..i]
    {
      block[dest] := src[i];
      dest := dest + 1;
      i := i + 1;
    }
    block[dest] := 0;
    assert block[..dest + 1] == src[m..i] + [0];
    start := dest - len;
  }

  /** Where the pointer to the year of a date lies that has at least its first separators. */
  method YearPointer(text: Text) returns (start: int)
    requires |text| >= 6
    ensures start == if |text| < 10 then |text| - 10 else 0
  {
    var src: seq<byte> := text + [NUL];
    var block;
    assert src[|text|] == NUL && forall k :: 0 <= k < |text| ==> src[k] == text[k];
    block, start := Substr(src, 6, 10);
  }

  /** Of the date 1/1/2023, written without leading zeros, it lies two bytes in front of the block. */
  method ShortDatePointsInFront() returns (start: int)
    ensures start == -2
  {
    start := YearPointer([49, 47, 49, 47, 50, 48, 50, 51]);
  }

  predicate IsSpace(b: byte) { b == 32 || 9 <= b <= 13 }

  /** The value of the digits at the start of a text, after those read so far. */
  function LeadingDigits(text: seq<byte>, value: nat): nat {
    if text == [] || !Decimal.IsDigit(text[0]) then value
    else LeadingDigits(text[1..], 10 * value + text[0] as int - 48)
  }

  /** `atoi` on the few characters it is given here, where no value overflows. */
  function Atoi(text: seq<byte>): int {
    if text == [] then 0
    else if IsSpace(text[0]) then Atoi(text[1..])
    else if text[0] == 45 then 0 - LeadingDigits(text[1..], 0)
    else if text[0] == 43 then LeadingDigits(text[1..], 0)
    else LeadingDigits(text, 0)
  }

  /** The date in a text of the form dd/mm/yyyy; the separators are never looked at. */
  function ReadDate(text: Text): Date
    requires |text| >= 10
  {
    Date(Atoi(text[0..2]), Atoi(text[3..5]), Atoi(text[6..10]))
  }

  function Digit(n: nat): byte { (48 + n % 10) as byte }

  function DateText(date: Date): (text: Text)
    requires 0 <= date.day <= 99 && 0 <= date.mon <= 99 && 0 <= date.year <= 9999
    ensures |text| == 10
  {
    [Digit(date.day / 10), Digit(date.day), 47, Digit(date.mon / 10), Digit(date.mon), 47,
     Digit(date.year / 1000), Digit(date.year / 100), Digit(date.year / 10), Digit(date.year)]
  }

  function DigitValue(b: byte): int { b as int - 48 }

  lemma {:induction false} DigitsRead(text: Text, value: nat)
    requires |text| <= 4 && forall k :: 0 <= k < |text| ==> Decimal.IsDigit(text[k])
    ensures LeadingDigits(text, value) ==
            match |text|
            case 0 => value
            case 1 => 10 * value + DigitValue(text[0])
            case 2 => 100 * value + 10 * DigitValue(text[0]) + DigitValue(text[1])
            case 3 => 1000 * value + 100 * DigitValue(text[0]) + 10 * DigitValue(text[1]) + DigitValue(text[2])
            case _ =>
              10000 * value + 1000 * DigitValue(text[0]) + 100 * DigitValue(text[1]) + 10 * DigitValue(text[2])
                + DigitValue(text[3])
  {
    if text == [] {
    } else {
      DigitsRead(text[1..], 10 * value + DigitValue(text[0]));
    }
  }

  lemma LastDigit(n: nat)
    ensures n == 10 * (n / 10) + DigitValue(Digit(n)) && Decimal.IsDigit(Digit(n))
  {
  }

  lemma LastFourDigits(n: nat)
    requires n <= 9999
    ensures n == 1000 * DigitValue(Digit(n / 1000)) + 100 * DigitValue(Digit(n / 100))
            + 10 * DigitValue(Digit(n / 10)) + DigitValue(Digit(n))
  {
    var q := n / 10;
    var r := q / 10;
    assert q == n / 10 && r == n / 100 && r / 10 == n / 1000;
    assert r / 10 / 10 == 0;
    hide Digit, DigitValue;
    LastDigit(n);
    LastDigit(q);
    LastDigit(r);
    LastDigit(r / 10);
  }

  lemma {:induction false} AtoiOfDigits(text: Text)
    requires text != [] && Decimal.IsDigit(text[0])
    ensures Atoi(text) == LeadingDigits(text, 0)
  {
  }

  /** A number of two or four digits, written out, is read back. */
  lemma {:induction false} TwoDigits(n: nat, text: Text)
    requires n <= 99 && text == [Digit(n / 10), Digit(n)]
    ensures Atoi(text) == n
  {
    assert n / 10 / 10 == 0;
    hide Digit, DigitValue, Atoi, LeadingDigits;
    LastDigit(n);
    LastDigit(n / 10);
    DigitsRead(text, 0);
    AtoiOfDigits(text);
  }

  lemma {:induction false} FourDigits(n: nat, text: Text)
    requires n <= 9999 && text == [Digit(n / 1000), Digit(n / 100), Digit(n / 10), Digit(n)]
    ensures Atoi(text) == n
  {
    hide Digit, DigitValue, Atoi, LeadingDigits;
    LastDigit(n / 1000);
    LastDigit(n / 100);
    LastDigit(n / 10);
    LastDigit(n);
    LastFourDigits(n);
    DigitsRead(text, 0);
    AtoiOfDigits(text);
  }

  /** A date written out is read back. */
  lemma ReadsBack(date: Date)
    requires 0 <= date.day <= 99 && 0 <= date.mon <= 99 && 0 <= date.year <= 9999
    ensures ReadDate(DateText(date)) == date
  {
    hide Atoi, Digit;
    var text := DateText(date);
    TwoDigits(date.day, text[0..2]);
    TwoDigits(date.mon, text[3..5]);
    FourDigits(date.year, text[6..10]);
  }

  /** The text "31/12/2022". */
  lemma {:induction false} DateIsRead(text: Text)
    requires text == [51, 49, 47, 49, 50, 47, 50, 48, 50, 50]
    ensures ReadDate(text) == Date(31, 12, 2022)
  {
    assert text[0..2] == [51, 49] && text[3..5] == [49, 50] && text[6..10] == [50, 48, 50, 50];
    assert Atoi([51, 49]) == 31 && Atoi([49, 50]) == 12;
    DigitsRead([50, 48, 50, 50], 0);
    AtoiOfDigits([50, 48, 50, 50]);
  }

  /** The text " 7x+1x202x", with a blank, a sign, other separators and a year of three digits. */
  lemma {:induction false} OddDateIsRead(text: Text)
    requires text == [32, 55, 120, 43, 49, 120, 50, 48, 50, 120]
    ensures ReadDate(text) == Date(7, 1, 202)
  {
    var day: Text, mon: Text, year: Text := [32, 55], [43, 49], [50, 48, 50, 120];
    assert text[0..2] == day && text[3..5] == mon && text[6..10] == year;
    assert Atoi([32, 55]) == 7 && Atoi([43, 49]) == 1;
    assert LeadingDigits([50, 120], 20) == 202;
    assert LeadingDigits([50, 48, 50, 120], 0) == 202;
  }

  /** `atoi` passes over blanks, takes one sign, and reads up to the first byte that is no digit. */
  lemma {:induction false} AtoiIsRead()
    ensures Atoi([9, 10, 13, 32, 45, 52]) == -4 && Atoi([52, 58]) == 4 && Atoi([52, 32, 50]) == 4
    ensures Atoi([]) == 0 && Atoi([120, 52]) == 0 && Atoi([45, 43, 52]) == 0 && Atoi([45, 32, 52]) == 0
    ensures Atoi([8, 52]) == 0 && Atoi([14, 52]) == 0 && Atoi([11, 52]) == Atoi([12, 43, 52]) == 4
  {
  }

  // ---------------------------------------------------------------- getDateDifference

  datatype Difference = Difference(days: int, months: int, years: int)

  /**
   Going `years` and `months` on from the month of the first date and then to its day plus `days` leads to
   the second date; whole months are counted up to the last that begins before or with the second date's.
   */
  ghost predicate Leads(date1: Date, date2: Date, x: Difference)
    requires date1.Valid() && date2.Valid()
  {
    var month := date1.Month() + 12 * x.years + x.months;
    && 0 <= x.months <= 11
    && month == date2.Month() - (if date2.day < date1.day then 1 else 0)
    && month >= 0 && MonthStart(month) + date1.day + x.days == date2.DayNumber()
  }

  /** There is one difference only. */
  lemma OneDifference(date1: Date, date2: Date, x: Difference, y: Difference)
    requires date1.Valid() && date2.Valid() && Leads(date1, date2, x) && Leads(date1, date2, y)
    ensures x == y
  {
    hide MonthStart, MonthLength;
  }

  /** From 15/1/2020 to 20/3/2022; and from 31/12/2020 to 1/3/2023, where February is too short for the 31st. */
  lemma SomeDifferences()
    ensures Leads(Date(15, 1, 2020), Date(20, 3, 2022), Difference(5, 2, 2))
    ensures Leads(Date(31, 12, 2020), Date(1, 3, 2023), Difference(-2, 2, 2))
  {
    assert 12 * 2023 + 1 == 24277 && 24277 % 12 == 1 && 24277 / 12 == 2023;
    assert MonthStart(24278) == MonthStart(24277) + MonthLength(24277);
  }

  /** The length of the month before. */
  lemma BorrowedLength(date: Date)
    requires date.Valid()
    ensures MonthStart(date.Month()) == MonthStart(date.Month() - 1) +
            if date.mon == 3 then if IsLeap(date.year) then 29 else 28
            else if date.mon in {5, 7, 10, 12} then 30 else 31
  {
    hide MonthStart, MonthLength;
    if date.mon == 1 {
      MonthStep(date.year - 1, 11);
    } else {
      MonthStep(date.year, date.mon - 2);
    }
  }

  method DateDifference(date1: Date, date2: Date) returns (r: Option<Difference>)
    ensures r.Some? <==> date1.Valid() && date2.Valid()
    ensures r.Some? ==> Leads(date1, date2, r.value)
  {
    var valid1 := ValidDate(date1.day, date1.mon, date1.year);
    if !valid1 {
      return None;
    }
    var valid2 := ValidDate(date2.day, date2.mon, date2.year);
    if !valid2 {
      return None;
    }
    var day2, mon2, year2 := date2.day, date2.mon, date2.year;
    BorrowedLength(date2);
    hide MonthStart, MonthLength;
    if day2 < date1.day {
      if mon2 == 3 {
        if (year2 % 4 == 0 && year2 % 100 != 0) || year2 % 400 == 0 {
          day2 := day2 + 29;
        } else {
          day2 := day2 + 28;
        }
      } else if mon2 == 5 || mon2 == 7 || mon2 == 10 || mon2 == 12 {
        day2 := day2 + 30;
      } else {
        day2 := day2 + 31;
      }
      mon2 := mon2 - 1;
    }
    if mon2 < date1.mon {
      mon2 := mon2 + 12;
      year2 := year2 - 1;
    }
    return Some(Difference(day2 - date1.day, mon2 - date1.mon, year2 - date1.year));
  }

  /** `atoi(substr(text, m, n))` on a text that reaches to `n`. */
  method ReadNumber(text: Text, m: nat, n: nat) returns (value: int)
    requires m <= n <= |text|
    ensures value == Atoi(text[m..n])
  {
    var block, start := Substr(text + [NUL], m, n);
    assert (text + [NUL])[m..n] == text[m..n];
    value := Atoi(block[start..n - m]);
    assert block[start..n - m] == text[m..n];
  }

  /** `getDateDifference`; `None` is its return value 1, which leaves the results unwritten. */
  method GetDateDifference(date1: Text, date2: Text) returns (r: Option<Difference>)
    requires |date1| >= 10 && |date2| >= 10
    ensures r.Some? <==> ReadDate(date1).Valid() && ReadDate(date2).Valid()
    ensures r.Some? ==> Leads(ReadDate(date1), ReadDate(date2), r.value)
  {
    var day1 := ReadNumber(date1, 0, 2);
    var mon1 := ReadNumber(date1, 3, 5);
    var year1 := ReadNumber(date1, 6, 10);
    var day2 := ReadNumber(date2, 0, 2);
    var mon2 := ReadNumber(date2, 3, 5);
    var year2 := ReadNumber(date2, 6, 10);
    r := DateDifference(Date(day1, mon1, year1), Date(day2, mon2, year2));
  }

  // ---------------------------------------------------------------- the last fourteen days

  /** The test on a difference under which a pothole is reported. */
  predicate Recent(x: Difference) {
    x.days <= 14 && x.months == 0 && x.years == 0
  }

  /** The second date is 0 to 14 days after the first. */
  ghost predicate InWindow(date1: Date, date2: Date)
    requires date1.Valid() && date2.Valid()
  {
    0 <= date2.DayNumber() - date1.DayNumber() <= 14
  }

  /** A borrowed month is not long enough to reach the first date's day. */
  predicate BorrowFallsShort(date1: Date, date2: Date)
    requires date1.Valid() && date2.Valid()
  {
    date2.Month() == date1.Month() + 1 && date1.day > date2.day + MonthLength(date1.Month())
  }

  /** The first date, by a day below 1, lies within the month before the one it names. */
  predicate NamesTheNextMonth(date1: Date, date2: Date)
    requires date1.Valid() && date2.Valid()
  {
    date1.Month() == date2.Month() + 1
      && MonthLength(date2.Month()) <= date2.day - date1.day <= MonthLength(date2.Month()) + 14
  }

  /**
   On dates whose days have at most two characters, the test on their difference is the window of fourteen days
   except in the two cases that days below 1 make possible.
   */
  lemma FilterExactly(date1: Date, date2: Date)
    requires date1.Valid() && date2.Valid() && date1.day >= -9 && date2.day >= -9
    ensures forall x :: Leads(date1, date2, x) ==>
              ((Recent(x) <==> InWindow(date1, date2))
               <==> !BorrowFallsShort(date1, date2) && !NamesTheNextMonth(date1, date2))
  {
    hide MonthLength, MonthStart, Leads, Recent;
    var m1, m2 := date1.Month(), date2.Month();
    NextMonth(m1);
    NextMonth(m2);
    if m2 > m1 + 1 {
      MonthsApart(m1 + 1, m2);
    } else if m2 + 1 < m1 {
      MonthsApart(m2 + 1, m1);
    }
    forall x | Leads(date1, date2, x)
      ensures (Recent(x) <==> InWindow(date1, date2))
              <==> !BorrowFallsShort(date1, date2) && !NamesTheNextMonth(date1, date2)
    {
      RecentByMonth(date1, date2, x);
    }
  }

  /** The test in terms of months: the second date names the first's month, or borrows from it. */
  lemma RecentByMonth(date1: Date, date2: Date, x: Difference)
    requires date1.Valid() && date2.Valid() && Leads(date1, date2, x)
    ensures Recent(x) <==>
            && date2.Month() == date1.Month() + (if date2.day < date1.day then 1 else 0)
            && date2.DayNumber() <= date1.DayNumber() + 14
  {
    hide MonthStart, MonthLength;
  }

  lemma NextMonth(month: nat)
    ensures MonthStart(month + 1) == MonthStart(month) + MonthLength(month)
  {
  }

  /** With days from 1 on, the test is the window. */
  lemma FilterIsWindow(date1: Date, date2: Date)
    requires date1.Valid() && date2.Valid() && date1.day >= 1 && date2.day >= 1
    ensures forall x :: Leads(date1, date2, x) ==> (Recent(x) <==> InWindow(date1, date2))
  {
    hide Leads, Recent, InWindow;
    FilterExactly(date1, date2);
  }

  /** The text "-3/02/2023" is read as day -3 of a valid date. */
  lemma NegativeDayIsRead()
    ensures var text: Text := [45, 51, 47, 48, 50, 47, 50, 48, 50, 51];
            ReadDate(text) == Date(-3, 2, 2023) && Date(-3, 2, 2023).Valid()
  {
    var text: Text := [45, 51, 47, 48, 50, 47, 50, 48, 50, 51];
    var day: Text, mon: Text, year: Text := [45, 51], [48, 50], [50, 48, 50, 51];
    assert text[0..2] == day && text[3..5] == mon && text[6..10] == year && day[1..] == [51];
    assert Atoi(day) == -3 by {
      DigitsRead([51], 0);
    }
    AtoiOfDigits(mon);
    DigitsRead(mon, 0);
    AtoiOfDigits(year);
    DigitsRead(year, 0);
  }

  /** Three days before the first date, and reported all the same. */
  lemma NegativeDayPasses(x: Difference)
    requires Leads(Date(31, 1, 2023), Date(-3, 2, 2023), x)
    ensures Recent(x) && !InWindow(Date(31, 1, 2023), Date(-3, 2, 2023))
  {
    NextMonth(Date(31, 1, 2023).Month());
  }

  /** And a date nine days after a first date with day -9 is passed over. */
  lemma NegativeDayMisses(x: Difference)
    requires Leads(Date(-9, 2, 2023), Date(31, 1, 2023), x)
    ensures InWindow(Date(-9, 2, 2023), Date(31, 1, 2023)) && !Recent(x)
  {
    NextMonth(Date(31, 1, 2023).Month());
  }

  lemma {:induction false} DigitsBound(text: Text, value: nat)
    requires |text| <= 2
    ensures LeadingDigits(text, value)
            <= if |text| == 2 then 100 * value + 99 else if |text| == 1 then 10 * value + 9 else value
  {
    if text == [] || !Decimal.IsDigit(text[0]) {
    } else {
      DigitsBound(text[1..], 10 * value + DigitValue(text[0]));
    }
  }

  /** The day of a text is at least -9: there is room for one digit behind a sign. */
  lemma {:induction false} TwoCharacters(text: Text)
    requires |text| <= 2
    ensures -9 <= Atoi(text) <= 99
  {
    DigitsBound(text, 0);
    if text == [] {
    } else {
      DigitsBound(text[1..], 0);
      TwoCharacters(text[1..]);
    }
  }

  /**
   Whether a pothole is reported; `None` where a date is not valid. The answer is right, that is, the window of
   fourteen days, except in the two cases that days below 1 make possible.
   */
  method ReportsPothole(timestamp: Text, today: Text) returns (reported: Option<bool>)
    requires |timestamp| >= 10 && |today| >= 10
    ensures reported.Some? <==> ReadDate(timestamp).Valid() && ReadDate(today).Valid()
    ensures reported.Some? ==>
              var date1, date2 := ReadDate(timestamp), ReadDate(today);
              && ((reported.value <==> InWindow(date1, date2))
                  <==> !BorrowFallsShort(date1, date2) && !NamesTheNextMonth(date1, date2))
              && (date1.day >= 1 && date2.day >= 1 ==> (reported.value <==> InWindow(date1, date2)))
  {
    hide Atoi, MonthStart, MonthLength;
    var r := GetDateDifference(timestamp, today);
    if r.None? {
      return None;
    }
    var x := r.value;
    TwoCharacters(timestamp[0..2]);
    TwoCharacters(today[0..2]);
    FilterExactly(ReadDate(timestamp), ReadDate(today));
    return Some(x.days <= 14 && x.months == 0 && x.years == 0);
  }
}
