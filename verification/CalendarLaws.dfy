// Which date formats the calendar can read back: exactly those with all three codes, where at most
// one year comes before the first month and before the first day.

module CalendarLaws {
  import opened Options
  import opened CalendarField

  // ---------------------------------------------------------------- numbers survive

  lemma {:induction false} NatStringValue(n: nat, t: string)
    ensures ValueOf(NatString(n) + t, 10, 0) == ValueOf(t, 10, n)
  {
    var last := [DigitChar(n % 10)];
    assert DigitValue(last[0]) == n % 10;
    if n < 10 {
      assert NatString(n) == last && (last + t)[1..] == t;
    } else {
      assert NatString(n) + t == NatString(n / 10) + (last + t);
      NatStringValue(n / 10, last + t);
      assert (last + t)[1..] == t;
    }
  }

  lemma {:induction false} FirstDigit(n: nat)
    ensures '0' <= NatString(n)[0] <= '9' && (n >= 1 ==> NatString(n)[0] != '0')
  {
    if n >= 10 { FirstDigit(n / 10); }
  }

  lemma {:induction false} DigitsOf(n: nat)
    requires n < 10000
    ensures |NatString(n)| == if n < 10 then 1 else if n < 100 then 2 else if n < 1000 then 3 else 4
  {
    if n >= 10 { DigitsOf(n / 10); }
  }

  lemma NumberIsRead(n: nat)
    requires n >= 1
    ensures ParseInt(NatString(n)) == Some(n)
  {
    hide NatString, ValueOf;
    var s := NatString(n);
    FirstDigit(n);
    NatStringValue(n, "");
    assert s + "" == s && ValueOf("", 10, n) == n by { NoDigits(n); }
  }

  lemma NoDigits(n: nat)
    ensures ValueOf("", 10, n) == n
  {
  }

  lemma TwoDigitString(n: nat)
    requires n < 100
    ensures NatString(n) == if n < 10 then ['0' + n as char] else ['0' + (n / 10) as char, '0' + (n % 10) as char]
  {
  }

  lemma TwoDigits(n: nat)
    requires 1 <= n < 100
    ensures MakeTwoDigit(n) == ['0' + (n / 10) as char, '0' + (n % 10) as char]
    ensures ParseInt(WithoutZero(MakeTwoDigit(n))) == Some(n)
  {
    hide NatString, ParseInt;
    DigitsOf(n);
    FirstDigit(n);
    NumberIsRead(n);
    TwoDigitString(n);
    assert n < 10 ==> ("0" + NatString(n))[1..] == NatString(n);
  }

  // ---------------------------------------------------------------- where the codes come out

  // How often a code occurs.
  function Count(f: string, c: char): nat {
    if |f| < 2 then 0
    else if f[0] == '%' && f[1] == c then 1 + Count(f[2..], c)
    else Count(f[1..], c)
  }

  lemma {:induction false} CountsWhatOccurs(f: string, c: char)
    ensures Count(f, c) > 0 <==> IndexOf(f, ['%', c]) >= 0
  {
    var find := ['%', c];
    if |f| >= 2 {
      assert f[0..2] == [f[0], f[1]];
      assert OccursAt(f, find, 0) <==> f[0] == '%' && f[1] == c;
      if !OccursAt(f, find, 0) { CountsWhatOccurs(f[1..], c); }
    }
  }

  // A date in the years that have four digits.
  predicate Printable(date: Date) { IsDate(date) && 1000 <= date.year <= 9999 }

  lemma {:induction false} PrintedLength(f: string, date: Date)
    requires Printable(date)
    ensures |PrintDate(f, date)| == |f| + 2 * Count(f, 'Y')
  {
    hide MakeTwoDigit, NatString;
    DigitsOf(date.year);
    TwoDigits(date.month);
    TwoDigits(date.day);
    if f != "" {
      PrintedLength(f[1..], date);
      if |f| >= 2 { PrintedLength(f[2..], date); }
    }
  }

  // What is printed for a text does not depend on a code that does not occur in it.
  lemma {:induction false} PrintedWithout(f: string, c: char, v: Values, w: Values)
    requires IndexOf(f, ['%', c]) < 0 && v.Keys == w.Keys && (forall k :: k in v && k != c ==> v[k] == w[k])
    ensures Fill(f, v) == Fill(f, w)
  {
    if f != "" {
      assert !OccursAt(f, ['%', c], 0);
      if |f| >= 2 { assert f[0..2] == [f[0], f[1]]; }
      StillNowhere(f, ['%', c], 1);
      PrintedWithout(f[1..], c, v, w);
      if |f| >= 2 {
        StillNowhere(f, ['%', c], 2);
        PrintedWithout(f[2..], c, v, w);
      }
    }
  }

  // A year is printed before the code exactly when the reader thinks so.
  lemma YearBefore(f: string, c: char)
    requires c != 'Y' && c != '%' && IndexOf(f, ['%', c]) >= 0 && IndexOf(f, "%Y") >= 0
    ensures var i := IndexOf(f, ['%', c]); Count(f[..i], 'Y') > 0 <==> IndexOf(f, "%Y") < i
  {
    hide IndexOf;
    var i, y := IndexOf(f, ['%', c]), IndexOf(f, "%Y");
    var code: string := "%Y";
    CountsWhatOccurs(f[..i], 'Y');
    assert code == ['%', 'Y'];
    assert f[i] == f[i..i + 2][0] && f[i + 1] == f[i..i + 2][1];
    assert f[y] == f[y..y + 2][0] && f[y + 1] == f[y..y + 2][1];
    OccursInPrefix(f, code, i, y);
    var k := IndexOf(f[..i], code);
    if k >= 0 { OccursInPrefix(f, code, i, k); }
  }

  // ---------------------------------------------------------------- which formats survive

  // The code occurs, with no more than one year before it.
  predicate Placed(f: string, c: char) {
    var i := IndexOf(f, ['%', c]);
    i >= 0 && Count(f[..i], 'Y') <= 1
  }

  predicate Recoverable(f: string) { IndexOf(f, "%Y") >= 0 && Placed(f, 'm') && Placed(f, 'd') }

  // What the reader makes of the two characters where it expects the code's value.
  function ReadTwo(f: string, c: char, text: string): Option<int> {
    ParseInt(WithoutZero(Substr(text, Position(f, ['%', c]), 2)))
  }

  lemma SubstrOfMiddle(a: string, b: string, c: string)
    ensures Substr(a + b + c, |a|, |b|) == b
  {
    assert (a + b + c)[|a|..|a| + |b|] == b;
    assert b == "" ==> Substr(a + b + c, |a|, 0) == "";
  }

  lemma SubstrOfFront(a: string, b: string, from: nat, n: nat)
    requires from + n <= |a|
    ensures Substr(a + b, from, n) == Substr(a, from, n)
  {
    if from < |a| { assert (a + b)[from..from + n] == a[from..from + n]; }
  }

  lemma YearIsRead(f: string, date: Date)
    requires Printable(date) && IndexOf(f, "%Y") >= 0
    ensures ReadDate(f, PrintDate(f, date)).year == Some(date.year)
  {
    hide Fill, IndexOf, Substr, ParseInt, NatString, Count;
    var i, code := IndexOf(f, "%Y"), "%Y";
    assert code == ['%', 'Y'];
    FillFirst(f, 'Y', Parts(date));
    PrintedLength(f[..i], date);
    NotBefore(f, code, i);
    CountsWhatOccurs(f[..i], 'Y');
    DigitsOf(date.year);
    NumberIsRead(date.year);
    SubstrOfMiddle(Fill(f[..i], Parts(date)), NatString(date.year), Fill(f[i + 2..], Parts(date)));
  }

  lemma TwoAreRead(f: string, c: char, date: Date, n: nat)
    requires Printable(date) && IndexOf(f, "%Y") >= 0 && Placed(f, c)
    requires c == 'm' || c == 'd'
    requires n == if c == 'm' then date.month else date.day
    ensures ReadTwo(f, c, PrintDate(f, date)) == Some(n)
  {
    hide Fill, IndexOf, Substr, ParseInt, MakeTwoDigit, WithoutZero, Count;
    var i := IndexOf(f, ['%', c]);
    FillFirst(f, c, Parts(date));
    PrintedLength(f[..i], date);
    YearBefore(f, c);
    TwoDigits(n);
    assert Parts(date)[c] == MakeTwoDigit(n);
    SubstrOfMiddle(Fill(f[..i], Parts(date)), MakeTwoDigit(n), Fill(f[i + 2..], Parts(date)));
  }

  // Where more years are printed before the code, or the code is missing, what is read does not depend on
  // the code's value.
  lemma TwoAreLost(f: string, c: char, date: Date, other: Date)
    requires Printable(date) && Printable(other) && IndexOf(f, "%Y") >= 0 && !Placed(f, c)
    requires (c == 'm' && other == date.(month := other.month)) || (c == 'd' && other == date.(day := other.day))
    ensures ReadTwo(f, c, PrintDate(f, date)) == ReadTwo(f, c, PrintDate(f, other))
  {
    hide Fill, IndexOf, Substr, ParseInt, MakeTwoDigit, WithoutZero, Count;
    var v, w, i := Parts(date), Parts(other), IndexOf(f, ['%', c]);
    assert v.Keys == w.Keys == {'Y', 'm', 'd'} && forall k :: k in v && k != c ==> v[k] == w[k];
    if i < 0 {
      PrintedWithout(f, c, v, w);
    } else {
      NotBefore(f, ['%', c], i);
      PrintedWithout(f[..i], c, v, w);
      PrintedLength(f[..i], date);
      YearBefore(f, c);
      FillFirst(f, c, v);
      FillFirst(f, c, w);
      var a := Fill(f[..i], v);
      assert Fill(f, v) == a + (v[c] + Fill(f[i + 2..], v)) && Fill(f, w) == a + (w[c] + Fill(f[i + 2..], w));
      SubstrOfFront(a, v[c] + Fill(f[i + 2..], v), i + 2, 2);
      SubstrOfFront(a, w[c] + Fill(f[i + 2..], w), i + 2, 2);
    }
  }

  lemma YearIsLost(f: string, date: Date, other: Date)
    requires Printable(date) && Printable(other) && IndexOf(f, "%Y") < 0 && other == date.(year := other.year)
    ensures PrintDate(f, date) == PrintDate(f, other)
  {
    hide Fill, IndexOf, NatString;
    var code := "%Y";
    assert code == ['%', 'Y'];
    PrintedWithout(f, 'Y', Parts(date), Parts(other));
  }

  ghost predicate Survives(f: string, date: Date)
    requires IsDate(date)
  {
    ReadDate(f, PrintDate(f, date)) == Reading(Some(date.year), Some(date.month), Some(date.day))
  }

  // Every date of the years 1000 to 9999 is read back from the field as it was printed, if and only if the
  // format has all three codes, and at most one year before the first month and before the first day.
  lemma DatesSurvive(f: string)
    ensures (forall date :: Printable(date) ==> Survives(f, date)) <==> Recoverable(f)
  {
    hide IndexOf, Placed, PrintDate, ParseInt, Substr, Position, WithoutZero;
    var m, d := ['%', 'm'], ['%', 'd'];
    assert m == "%m" && d == "%d";
    if Recoverable(f) {
      forall date | Printable(date) ensures Survives(f, date) {
        YearIsRead(f, date);
        TwoAreRead(f, 'm', date, date.month);
        TwoAreRead(f, 'd', date, date.day);
      }
    } else {
      var date := Date(2000, 1, 1);
      var nextYear, nextMonth, nextDay := date.(year := 2001), date.(month := 2), date.(day := 2);
      assert Printable(date) && Printable(nextYear) && Printable(nextMonth) && Printable(nextDay);
      if IndexOf(f, "%Y") < 0 {
        YearIsLost(f, date, nextYear);
      } else if !Placed(f, 'm') {
        TwoAreLost(f, 'm', date, nextMonth);
      } else {
        TwoAreLost(f, 'd', date, nextDay);
      }
      assert !(Survives(f, date) && Survives(f, nextYear) && Survives(f, nextMonth) && Survives(f, nextDay));
    }
  }

  // ---------------------------------------------------------------- dates that do not exist

  // One in leap years, by how often 4, 100 and 400 go into the year.
  function LeapDay(year: int): int { LeapDays(year) - LeapDays(year - 1) }

  // The days of the year before a month; from March on five months have 153 days.
  function DaysBefore(year: int, month: int): int {
    if month == 1 then 0 else if month == 2 then 31 else 59 + LeapDay(year) + (153 * (month - 3) + 2) / 5
  }

  // The number of a day in the Gregorian calendar, counted without a gap.
  function DayNumber(year: int, month: int, day: int): int
    requires 1 <= month <= 12
  {
    365 * year + LeapDays(year - 1) + DaysBefore(year, month) + day
  }

  // The same for month numbers beyond the year.
  function FirstOfMonth(year: int, month: int): int {
    DayNumber(year + (month - 1) / 12, (month - 1) % 12 + 1, 1)
  }

  lemma Quotients(n: int)
    ensures n / 4 == (n - 1) / 4 + if n % 4 == 0 then 1 else 0
    ensures n / 100 == (n - 1) / 100 + if n % 100 == 0 then 1 else 0
    ensures n / 400 == (n - 1) / 400 + if n % 400 == 0 then 1 else 0
  {
    Quotient4(n);
    Quotient100(n);
    Quotient400(n);
  }

  lemma Quotient4(n: int)
    ensures n / 4 == (n - 1) / 4 + if n % 4 == 0 then 1 else 0
  {
  }

  lemma Quotient100(n: int)
    ensures n / 100 == (n - 1) / 100 + if n % 100 == 0 then 1 else 0
  {
  }

  lemma Quotient400(n: int)
    ensures n / 400 == (n - 1) / 400 + if n % 400 == 0 then 1 else 0
  {
  }

  lemma Divisibility(n: int)
    ensures n % 400 == 0 ==> n % 100 == 0
    ensures n % 100 == 0 ==> n % 4 == 0
  {
    Multiple100(4 * (n / 400));
    Multiple4(25 * (n / 100));
    QuotientAndRest(n);
  }

  lemma QuotientAndRest(n: int)
    ensures n == 400 * (n / 400) + n % 400 && n == 100 * (n / 100) + n % 100
  {
  }

  lemma Multiple100(k: int)
    ensures 100 * k % 100 == 0
  {
  }

  lemma Multiple4(k: int)
    ensures 4 * k % 4 == 0
  {
  }

  function LeapDays(year: int): int { year / 4 - year / 100 + year / 400 }

  lemma LeapRule(year: int)
    ensures LeapDay(year) == if (year % 4 == 0 && year % 100 != 0) || year % 400 == 0 then 1 else 0
  {
    Quotients(year);
    Divisibility(year);
  }

  lemma NewYear(year: int)
    ensures DayNumber(year + 1, 1, 1) == DayNumber(year, 12, 31) + 1
  {
    hide LeapDays;
  }

  lemma SameYear(month: int)
    requires 1 <= month <= 12
    ensures (month - 1) / 12 == 0 && (month - 1) % 12 == month - 1
  {
  }

  lemma DayOfMonth(year: int, month: int, day: int)
    requires 1 <= month <= 12
    ensures FirstOfMonth(year, month) == DayNumber(year, month, 1)
    ensures DayNumber(year, month, day) == FirstOfMonth(year, month) + day - 1
  {
    SameYear(month);
    hide LeapDays;
  }

  // Months follow each other without a gap, across the end of the year, too.
  lemma NextMonth(year: int, month: int)
    requires 1 <= month <= 12
    ensures FirstOfMonth(year, month + 1) == FirstOfMonth(year, month) + DaysInMonth(year, month)
  {
    hide LeapDays;
    SameYear(month);
    LeapRule(year);
    if month == 12 {
      NewYear(year);
      DayOfMonth(year, 12, 31);
    } else {
      SameYear(month + 1);
    }
  }

  lemma YearBefore12(year: int)
    ensures FirstOfMonth(year, 1) == FirstOfMonth(year - 1, 13)
  {
    hide LeapDays;
  }

  lemma MonthAgain(year: int, month: int)
    ensures FirstOfMonth(year, month) == FirstOfMonth(year + (month - 1) / 12, (month - 1) % 12 + 1)
  {
    hide DayNumber;
    SameYear((month - 1) % 12 + 1);
  }

  // A day that is none of its month is carried over by the right number of days: the date lies day - 1 days
  // behind the first of the month, however far off month and day are.
  lemma {:induction false} CarriedByDays(year: int, month: int, day: int)
    ensures var date := Carried(year, month, day);
            DayNumber(date.year, date.month, date.day) == FirstOfMonth(year, month) + day - 1
    decreases if day < 1 then 100 - day else day
  {
    hide DayNumber, FirstOfMonth, DaysInMonth;
    var y, m := year + (month - 1) / 12, (month - 1) % 12 + 1;
    MonthAgain(year, month);
    DayOfMonth(y, m, day);
    if day < 1 {
      DecemberHas31(y - 1);
      if m == 1 {
        YearBefore12(y);
        NextMonth(y - 1, 12);
        CarriedByDays(y - 1, 12, day + 31);
      } else {
        NextMonth(y, m - 1);
        MonthLength(y, m - 1);
        CarriedByDays(y, m - 1, day + DaysInMonth(y, m - 1));
      }
    } else if day > DaysInMonth(y, m) {
      NextMonth(y, m);
      MonthLength(y, m);
      CarriedByDays(y, m + 1, day - DaysInMonth(y, m));
    }
  }

  lemma DecemberHas31(year: int)
    ensures DaysInMonth(year, 12) == 31
  {
  }

  lemma MonthLength(year: int, month: int)
    ensures 28 <= DaysInMonth(year, month) <= 31
  {
  }

  // ---------------------------------------------------------------- days follow each other

  lemma {:induction false} LaterMonth(year: int, m: int, n: int)
    requires 1 <= m < n <= 13
    ensures FirstOfMonth(year, m) + DaysInMonth(year, m) <= FirstOfMonth(year, n)
    decreases n - m
  {
    hide FirstOfMonth, DaysInMonth;
    NextMonth(year, m);
    if m + 1 < n {
      LaterMonth(year, m + 1, n);
      MonthLength(year, m + 1);
    }
  }

  lemma {:induction false} LaterYear(y: int, z: int)
    requires y < z
    ensures FirstOfMonth(y, 13) <= FirstOfMonth(z, 1)
    decreases z - y
  {
    hide FirstOfMonth;
    YearBefore12(y + 1);
    if y + 1 < z {
      LaterMonth(y + 1, 1, 13);
      MonthLength(y + 1, 1);
      LaterYear(y + 1, z);
    }
  }

  predicate Earlier(a: Date, b: Date) {
    a.year < b.year || (a.year == b.year && (a.month < b.month || (a.month == b.month && a.day < b.day)))
  }

  function Number(date: Date): int
    requires IsDate(date)
  {
    DayNumber(date.year, date.month, date.day)
  }

  lemma InItsMonth(date: Date)
    requires IsDate(date)
    ensures FirstOfMonth(date.year, date.month) <= Number(date) < FirstOfMonth(date.year, date.month + 1)
    ensures FirstOfMonth(date.year, 1) <= Number(date) < FirstOfMonth(date.year, 13)
  {
    hide FirstOfMonth, DayNumber, DaysInMonth;
    DayOfMonth(date.year, date.month, date.day);
    NextMonth(date.year, date.month);
    if date.month > 1 {
      LaterMonth(date.year, 1, date.month);
      MonthLength(date.year, 1);
    }
    if date.month < 12 {
      LaterMonth(date.year, date.month + 1, 13);
      MonthLength(date.year, date.month + 1);
    }
  }

  // The numbers of dates grow from each date to every later one.
  lemma NumbersGrow(a: Date, b: Date)
    requires IsDate(a) && IsDate(b) && Earlier(a, b)
    ensures Number(a) < Number(b)
  {
    hide FirstOfMonth, IsDate;
    InItsMonth(a);
    InItsMonth(b);
    if a.year < b.year {
      LaterYear(a.year, b.year);
    } else if a.month < b.month {
      MonthRange(a);
      MonthRange(b);
      if a.month + 1 < b.month {
        LaterMonth(a.year, a.month + 1, b.month);
        MonthLength(a.year, a.month + 1);
      }
    }
  }

  lemma MonthRange(date: Date)
    requires IsDate(date)
    ensures 1 <= date.month <= 12
  {
  }

  // So a date is carried to exactly the one that lies day - 1 days behind the first of the month.
  lemma CarriedExactly(year: int, month: int, day: int, date: Date)
    requires IsDate(date)
    ensures Carried(year, month, day) == date <==> Number(date) == FirstOfMonth(year, month) + day - 1
  {
    hide FirstOfMonth, DayNumber, Carried, IsDate;
    CarriedByDays(year, month, day);
    var carried := Carried(year, month, day);
    if Earlier(carried, date) { NumbersGrow(carried, date); }
    if Earlier(date, carried) { NumbersGrow(date, carried); }
  }

  // ---------------------------------------------------------------- what the calendar opens at

  lemma RealDatesStay(date: Date)
    requires IsDate(date)
    ensures Carried(date.year, date.month, date.day) == date
  {
    hide FirstOfMonth, DayNumber, Carried;
    CarriedExactly(date.year, date.month, date.day, date);
    DayOfMonth(date.year, date.month, date.day);
  }

  // Where a number is missing or zero it opens at today's date; else at the date with the three numbers, if it
  // exists, and if not at the one that many days behind the first of the month. Years below 100 are taken for
  // those of the last century.
  lemma OpensAtDate(r: Reading, today: Date)
    ensures r.year in {None, Some(0)} || r.month in {None, Some(0)} || r.day in {None, Some(0)} ==> Opened(r, today) == today
    ensures r.year.Some? && r.month.Some? && r.day.Some? && r.year.value != 0 && r.month.value != 0 && r.day.value != 0 ==>
              var y := if 1 <= r.year.value <= 99 then 1900 + r.year.value else r.year.value;
              var date := Date(y, r.month.value, r.day.value);
              var shown := Opened(r, today);
              && IsDate(shown) && Number(shown) == FirstOfMonth(y, r.month.value) + r.day.value - 1
              && (IsDate(date) ==> shown == date)
  {
    hide FirstOfMonth, DayNumber, Carried, IsDate;
    if r.year.Some? && r.month.Some? && r.day.Some? {
      var y := if 0 <= r.year.value <= 99 then 1900 + r.year.value else r.year.value;
      CarriedByDays(y, r.month.value, r.day.value);
      if IsDate(Date(y, r.month.value, r.day.value)) { RealDatesStay(Date(y, r.month.value, r.day.value)); }
    }
  }

  // ---------------------------------------------------------------- other texts in the field

  predicate AreBlanks(s: string) { forall i :: 0 <= i < |s| ==> s[i] in {' ', '\t', '\n', '\r', 11 as char, 12 as char} }

  lemma BlanksAreSkipped(blanks: string, t: string)
    requires AreBlanks(blanks)
    ensures ParseInt(blanks + t) == ParseInt(t)
  {
    if blanks == "" {
      assert blanks + t == t;
    } else {
      assert (blanks + t)[1..] == blanks[1..] + t;
      BlanksAreSkipped(blanks[1..], t);
    }
  }

  predicate IsDigitChar(c: char) { '0' <= c <= '9' }

  // parseInt reads a number behind blanks and a sign, up to the first other character.
  lemma SignedNumberIsRead(blanks: string, sign: string, n: nat, rest: string)
    requires AreBlanks(blanks) && sign in {"", "-", "+"}
    requires rest != "" ==> !IsDigitChar(rest[0]) && (n == 0 ==> rest[0] != 'x' && rest[0] != 'X')
    ensures ParseInt(blanks + sign + NatString(n) + rest) == Some(if sign == "-" then -(n as int) else n)
  {
    hide NatString, ParseUnsigned, ParseInt;
    var t := NatString(n) + rest;
    assert blanks + sign + NatString(n) + rest == blanks + (sign + t);
    BlanksAreSkipped(blanks, sign + t);
    UnsignedNumberIsRead(n, rest);
    SignIsRead(sign, t);
  }

  lemma UnsignedNumberIsRead(n: nat, rest: string)
    requires rest != "" ==> !IsDigitChar(rest[0]) && (n == 0 ==> rest[0] != 'x' && rest[0] != 'X')
    ensures var t := NatString(n) + rest; t != "" && IsDigitChar(t[0]) && ParseUnsigned(t) == Some(n)
  {
    hide NatString, ValueOf;
    var t := NatString(n) + rest;
    FirstDigit(n);
    NatStringValue(n, rest);
    StopsAt(rest, n);
    ZeroIsAlone(n);
    assert t[0] == NatString(n)[0];
    assert n == 0 && rest != "" ==> t[1] == rest[0];
  }

  lemma SignIsRead(sign: string, t: string)
    requires sign in {"", "-", "+"} && t != "" && IsDigitChar(t[0]) && ParseUnsigned(t).Some?
    ensures ParseInt(sign + t) == Some(if sign == "-" then -(ParseUnsigned(t).value as int) else ParseUnsigned(t).value)
  {
    hide ParseUnsigned;
    assert sign != "" ==> (sign + t)[0] == sign[0] && (sign + t)[1..] == t;
    assert sign == "" ==> sign + t == t;
  }

  lemma ZeroIsAlone(n: nat)
    ensures n == 0 ==> |NatString(n)| == 1
  {
  }

  lemma StopsAt(rest: string, n: nat)
    requires rest != "" ==> !IsDigitChar(rest[0])
    ensures ValueOf(rest, 10, n) == n
  {
  }

  // Where no number starts there is none.
  lemma NoNumberIsRead(blanks: string, sign: string, rest: string)
    requires AreBlanks(blanks) && sign in {"", "-", "+"}
    requires rest != "" ==> !IsDigitChar(rest[0]) && (sign == "" ==> !AreBlanks([rest[0]]) && rest[0] != '-' && rest[0] != '+')
    ensures ParseInt(blanks + sign + rest) == None
  {
    BlanksAreSkipped(blanks, sign + rest);
    assert blanks + sign + rest == blanks + (sign + rest);
    assert sign != "" ==> (sign + rest)[0] == sign[0] && (sign + rest)[1..] == rest;
    assert sign == "" ==> sign + rest == rest;
    assert rest != "" ==> [rest[0]][0] == rest[0];
  }

  predicate IsHexDigit(c: char, i: nat) {
    if i < 10 then c == '0' + i as char else i < 16 && (c == 'a' + (i - 10) as char || c == 'A' + (i - 10) as char)
  }

  lemma HexDigitIsRead(c: char, i: nat)
    requires IsHexDigit(c, i)
    ensures DigitValue(c) == i < 16
  {
  }

  // A hexadecimal number of the two digits there is room for in a year.
  lemma HexadecimalIsRead(x: char, a: char, b: char, i: nat, j: nat)
    requires (x == 'x' || x == 'X') && IsHexDigit(a, i) && IsHexDigit(b, j)
    ensures ParseInt(['0', x, a, b]) == Some(16 * i + j)
  {
    HexDigitIsRead(a, i);
    HexDigitIsRead(b, j);
    hide DigitValue, IsHexDigit;
    var s := ['0', x, a, b];
    assert s[2..] == [a, b] && [a, b][1..] == [b] && [b][1..] == "";
    assert ValueOf([b], 16, i) == 16 * i + j by { LastDigit(b, i); }
    assert ValueOf([a, b], 16, 0) == ValueOf([b], 16, i);
  }

  lemma LastDigit(b: char, value: nat)
    requires DigitValue(b) < 16
    ensures ValueOf([b], 16, value) == 16 * value + DigitValue(b)
  {
    assert [b][1..] == "";
  }

  // Without a code in the format the value is looked for one character before the end.
  lemma SubstrFromEnd(a: string, b: string, n: nat)
    requires b != ""
    ensures Substr(a + b, -|b|, n) == if n <= |b| then b[..n] else b
  {
    assert (a + b)[|a|..] == b;
    assert n <= |b| ==> (a + b)[|a|..|a| + n] == b[..n];
  }
}
