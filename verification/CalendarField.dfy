// The date field of the calendar: printing the chosen date in the field's format, and reading it
// back when the calendar is opened again.

module CalendarField {
  import opened Options

  // ---------------------------------------------------------------- strings of the script language

  predicate OccursAt(s: string, find: string, k: nat) { k + |find| <= |s| && s[k..k + |find|] == find }

  // indexOf: the first place where find occurs, or -1.
  function IndexOf(s: string, find: string): (r: int)
    ensures -1 <= r
    ensures r >= 0 ==> OccursAt(s, find, r)
    ensures forall k :: 0 <= k && (r < 0 || k < r) ==> !OccursAt(s, find, k)
  {
    if OccursAt(s, find, 0) then 0
    else if s == "" then -1
    else
      var r := IndexOf(s[1..], find);
      assert forall k :: 1 <= k ==> (OccursAt(s, find, k) <==> OccursAt(s[1..], find, k - 1)) by {
        forall k | 1 <= k ensures OccursAt(s, find, k) <==> OccursAt(s[1..], find, k - 1) { OccursInSuffix(s, find, 1, k - 1); }
      }
      if r < 0 then -1 else r + 1
  }

  lemma OccursInSuffix(s: string, find: string, n: nat, k: nat)
    requires n <= |s|
    ensures OccursAt(s[n..], find, k) <==> OccursAt(s, find, n + k)
  {
    if n + k + |find| <= |s| { assert s[n + k..n + k + |find|] == s[n..][k..k + |find|]; }
  }

  lemma OccursInPrefix(s: string, find: string, n: nat, k: nat)
    requires n <= |s|
    ensures OccursAt(s[..n], find, k) <==> k + |find| <= n && OccursAt(s, find, k)
  {
    if k + |find| <= n { assert s[k..k + |find|] == s[..n][k..k + |find|]; }
  }

  // substr; a negative start counts from the end.
  function Substr(s: string, start: int, n: nat): string {
    var from := if start >= 0 then start else if |s| + start >= 0 then |s| + start else 0;
    if from >= |s| then "" else if from + n <= |s| then s[from..from + n] else s[from..]
  }

  function Split(s: string, find: string): (parts: seq<string>)
    requires find != ""
    ensures parts != []
  {
    var i := IndexOf(s, find);
    if i < 0 then [s] else [s[..i]] + Split(s[i + |find|..], find)
  }

  function Join(parts: seq<string>, separator: string): string
    requires parts != []
  {
    if |parts| == 1 then parts[0] else parts[0] + separator + Join(parts[1..], separator)
  }

  function DigitValue(c: char): nat {
    if '0' <= c <= '9' then (c - '0') as nat
    else if 'a' <= c <= 'z' then (c - 'a') as nat + 10
    else if 'A' <= c <= 'Z' then (c - 'A') as nat + 10
    else 36
  }

  // The number that the leading digits of s continue.
  function ValueOf(s: string, base: nat, value: nat): nat {
    if s == "" || DigitValue(s[0]) >= base then value else ValueOf(s[1..], base, base * value + DigitValue(s[0]))
  }

  function ParseUnsigned(s: string): Option<nat> {
    if |s| >= 2 && s[0] == '0' && (s[1] == 'x' || s[1] == 'X') then
      if |s| == 2 || DigitValue(s[2]) >= 16 then None else Some(ValueOf(s[2..], 16, 0))
    else if s == "" || DigitValue(s[0]) >= 10 then None
    else Some(ValueOf(s, 10, 0))
  }

  predicate IsBlank(c: char) { c == ' ' || '\t' <= c <= '\r' }

  // parseInt; NaN is None.
  function ParseInt(s: string): Option<int> {
    if s == "" then None
    else if IsBlank(s[0]) then ParseInt(s[1..])
    else if s[0] == '-' then
      match ParseUnsigned(s[1..])
      case None => None
      case Some(n) => Some(-(n as int))
    else
      match ParseUnsigned(if s[0] == '+' then s[1..] else s)
      case None => None
      case Some(n) => Some(n)
  }

  function DigitChar(n: nat): char
    requires n < 10
  {
    '0' + n as char
  }

  // String(n)
  function NatString(n: nat): (s: string)
    ensures s != ""
  {
    if n < 10 then [DigitChar(n)] else NatString(n / 10) + [DigitChar(n % 10)]
  }

  function IntString(n: int): string {
    if n < 0 then "-" + NatString(-n) else NatString(n)
  }

  // ---------------------------------------------------------------- dates

  predicate IsLeapYear(year: int) { (year % 4 == 0 && year % 100 != 0) || year % 400 == 0 }

  // getDaysInMonth
  function DaysInMonth(year: int, month: int): nat {
    if month == 2 then (if IsLeapYear(year) then 29 else 28)
    else if month == 4 || month == 6 || month == 9 || month == 11 then 30
    else 31
  }

  datatype Date = Date(year: int, month: int, day: int)

  predicate IsDate(date: Date) {
    1 <= date.month <= 12 && 1 <= date.day <= DaysInMonth(date.year, date.month)
  }

  // new Date(year, month - 1, day): what is no day of the month is carried over.
  function Carried(year: int, month: int, day: int): (date: Date)
    ensures IsDate(date)
    decreases if day < 1 then 100 - day else day
  {
    var y, m := year + (month - 1) / 12, (month - 1) % 12 + 1;
    if day < 1 then
      if m == 1 then Carried(y - 1, 12, day + 31) else Carried(y, m - 1, day + DaysInMonth(y, m - 1))
    else if day > DaysInMonth(y, m) then Carried(y, m + 1, day - DaysInMonth(y, m))
    else Date(y, m, day)
  }

  function NewDate(year: int, month: int, day: int): Date {
    Carried(if 0 <= year <= 99 then 1900 + year else year, month, day)
  }

  // makeTwoDigit
  function MakeTwoDigit(n: nat): string { if n < 10 then "0" + NatString(n) else NatString(n) }

  // jsReplace
  function JsReplace(inString: string, find: string, replace: string): string
    requires find != ""
  {
    if inString == "" then ""
    else if IndexOf(inString, find) != -1 then Join(Split(inString, find), replace)
    else inString
  }

  // ---------------------------------------------------------------- a format, filled in

  type Values = map<char, string>

  // Whether a code to be replaced starts f.
  predicate Starts(f: string, values: Values) { |f| >= 2 && f[0] == '%' && f[1] in values }

  // f with all its codes replaced in one pass.
  function Fill(f: string, values: Values): string {
    if f == "" then ""
    else if Starts(f, values) then values[f[1]] + Fill(f[2..], values)
    else [f[0]] + Fill(f[1..], values)
  }

  function Parts(date: Date): Values
    requires IsDate(date)
  {
    map['Y' := IntString(date.year), 'm' := MakeTwoDigit(date.month), 'd' := MakeTwoDigit(date.day)]
  }

  function PrintDate(dateFormat: string, date: Date): string
    requires IsDate(date)
  {
    Fill(dateFormat, Parts(date))
  }

  // ---------------------------------------------------------------- reading

  // Where the value of the code for month or day should be: a year before it is two longer than its code.
  function Position(dateFormat: string, code: string): int {
    var pos := IndexOf(dateFormat, code);
    if IndexOf(dateFormat, "%Y") < pos then pos + 2 else pos
  }

  function WithoutZero(s: string): string { if s != "" && s[0] == '0' then s[1..] else s }

  datatype Reading = Reading(year: Option<int>, month: Option<int>, day: Option<int>)

  function ReadDate(dateFormat: string, inDate: string): Reading {
    Reading(ParseInt(Substr(inDate, IndexOf(dateFormat, "%Y"), 4)),
            ParseInt(WithoutZero(Substr(inDate, Position(dateFormat, "%m"), 2))),
            ParseInt(WithoutZero(Substr(inDate, Position(dateFormat, "%d"), 2))))
  }

  // Neither NaN nor zero.
  predicate Counts(n: Option<int>) { n.Some? && n.value != 0 }

  // The date the calendar opens at.
  function Opened(r: Reading, today: Date): Date {
    if Counts(r.year) && Counts(r.month) && Counts(r.day) then NewDate(r.year.value, r.month.value, r.day.value) else today
  }

  // ---------------------------------------------------------------- the calendar

  class Calendar {
    var dateFormat: string
    var field: string         // the value of the field the calendar belongs to
    var inYear: Option<int>
    var inMonth: Option<int>
    var inDay: Option<int>
    var calDate: Date
    var calDay: int
    var outDate: string

    constructor (dateFormat: string, field: string, today: Date)
      ensures this.dateFormat == dateFormat && this.field == field && calDate == today
    {
      this.dateFormat, this.field, calDate := dateFormat, field, today;
      inYear, inMonth, inDay, calDay, outDate := None, None, None, today.day, "";
    }

    // setInitialDate: the calendar opens at the field's date, or else at today's.
    method SetInitialDate(today: Date)
      requires IsDate(today)
      modifies this`inYear, this`inMonth, this`inDay, this`calDate, this`calDay
      ensures Reading(inYear, inMonth, inDay) == ReadDate(dateFormat, field)
      ensures var date := Opened(Reading(inYear, inMonth, inDay), today);
              calDay == date.day && calDate == Date(date.year, date.month, 1)
    {
      hide IndexOf, Substr, ParseInt, NewDate, OccursAt, IsDate, WithoutZero, Position;
      var ypos := IndexOf(dateFormat, "%Y");
      inYear := ParseInt(Substr(field, ypos, 4));
      inMonth := ReadTwoDigits("%m", ypos);
      inDay := ReadTwoDigits("%d", ypos);
      if Counts(inYear) && Counts(inMonth) && Counts(inDay) {
        calDate := NewDate(inYear.value, inMonth.value, inDay.value);
      } else {
        calDate := today;
      }
      calDay := calDate.day;
      calDate := calDate.(day := 1);
    }

    // The lines for the month, and again for the day.
    method ReadTwoDigits(code: string, ypos: int) returns (n: Option<int>)
      requires ypos == IndexOf(dateFormat, "%Y")
      ensures n == ParseInt(WithoutZero(Substr(field, Position(dateFormat, code), 2)))
    {
      hide IndexOf, Substr, ParseInt;
      var pos := IndexOf(dateFormat, code);
      if ypos < pos { pos := pos + 2; }
      var digits := Substr(field, pos, 2);
      if digits != "" && digits[0] == '0' { digits := digits[1..]; }
      n := ParseInt(digits);
    }

    // returnDate: the chosen day goes to the field.
    method ReturnDate(inDay: int)
      modifies this`calDate, this`outDate, this`field
      ensures calDate == Carried(old(calDate).year, old(calDate).month, inDay)
      ensures field == PrintDate(dateFormat, calDate)
    {
      calDate := Carried(calDate.year, calDate.month, inDay);
      outDate := JsReplace(dateFormat, "%Y", IntString(calDate.year));
      outDate := JsReplace(outDate, "%m", MakeTwoDigit(calDate.month));
      outDate := JsReplace(outDate, "%d", MakeTwoDigit(calDate.day));
      ReplacedIsFilled(dateFormat, calDate);
      field := outDate;
    }
  }

  // ---------------------------------------------------------------- replacing one code after the other

  lemma {:induction false} FillCut(a: string, b: string, values: Values)
    requires b != "" ==> b[0] !in values
    ensures Fill(a + b, values) == Fill(a, values) + Fill(b, values)
  {
    hide Fill, Starts;
    FillStep(a, values);
    if a == "" {
      assert a + b == b;
    } else {
      StartsAcross(a, b, values);
      FillStep(a + b, values);
      FillCut(if Starts(a, values) then a[2..] else a[1..], b, values);
    }
  }

  lemma StartsAcross(a: string, b: string, values: Values)
    requires a != "" && (b != "" ==> b[0] !in values)
    ensures (Starts(a + b, values) <==> Starts(a, values)) && (Starts(a, values) ==> |a| >= 2 && a[1] in values)
    ensures Starts(a, values) ==> (a + b)[1] == a[1] && (a + b)[2..] == a[2..] + b
    ensures !Starts(a, values) ==> (a + b)[0] == a[0] && (a + b)[1..] == a[1..] + b
  {
  }

  lemma FillStep(f: string, values: Values)
    ensures Fill(f, values) == if f == "" then ""
                               else if Starts(f, values) then values[f[1]] + Fill(f[2..], values)
                               else [f[0]] + Fill(f[1..], values)
  {
  }

  // Text without the only code is not changed.
  lemma {:induction false} FillPlain(s: string, c: char, value: string)
    requires IndexOf(s, ['%', c]) < 0
    ensures Fill(s, map[c := value]) == s
  {
    if s != "" {
      assert !OccursAt(s, ['%', c], 0);
      if |s| >= 2 { assert s[0..2] == [s[0], s[1]]; }
      StillNowhere(s, ['%', c], 1);
      FillPlain(s[1..], c, value);
    }
  }

  lemma StillNowhere(s: string, find: string, n: nat)
    requires IndexOf(s, find) < 0 && n <= |s|
    ensures IndexOf(s[n..], find) < 0
  {
    var k := IndexOf(s[n..], find);
    if k >= 0 { OccursInSuffix(s, find, n, k); }
  }

  lemma {:induction false} JoinIsFill(s: string, c: char, value: string)
    requires c != '%'
    ensures Join(Split(s, ['%', c]), value) == Fill(s, map[c := value])
  {
    hide IndexOf, Fill;
    var find := ['%', c];
    var i := IndexOf(s, find);
    if i < 0 {
      FillPlain(s, c, value);
    } else {
      var a, rest := s[..i], s[i + 2..];
      FillFirst(s, c, map[c := value]);
      NotBefore(s, find, i);
      FillPlain(a, c, value);
      JoinIsFill(rest, c, value);
      assert Split(s, find)[1..] == Split(rest, find);
    }
  }

  // The first place of a code splits the filled text.
  lemma FillFirst(f: string, c: char, values: Values)
    requires c in values && '%' !in values && IndexOf(f, ['%', c]) >= 0
    ensures var i := IndexOf(f, ['%', c]);
            i + 2 <= |f| && Fill(f, values) == Fill(f[..i], values) + values[c] + Fill(f[i + 2..], values)
  {
    hide IndexOf, Fill;
    var i := IndexOf(f, ['%', c]);
    var b := f[i..];
    assert b[0] == f[i..i + 2][0] && b[1] == f[i..i + 2][1] && b[2..] == f[i + 2..];
    assert f == f[..i] + b;
    FillCut(f[..i], b, values);
    FillStep(b, values);
  }

  lemma NotBefore(s: string, find: string, n: nat)
    requires n <= |s| && find != "" && (IndexOf(s, find) < 0 || n <= IndexOf(s, find))
    ensures IndexOf(s[..n], find) < 0
  {
    var k := IndexOf(s[..n], find);
    if k >= 0 { OccursInPrefix(s, find, n, k); }
  }

  lemma JsReplaceIsFill(s: string, c: char, value: string)
    requires c != '%'
    ensures JsReplace(s, ['%', c], value) == Fill(s, map[c := value])
  {
    if s != "" {
      if IndexOf(s, ['%', c]) != -1 { JoinIsFill(s, c, value); } else { FillPlain(s, c, value); }
    }
  }

  predicate IsPlain(value: string) { value != "" && forall i :: 0 <= i < |value| ==> value[i] == '-' || '0' <= value[i] <= '9' }

  ghost predicate ArePlain(values: Values) { forall k :: k in values ==> IsPlain(values[k]) }

  lemma {:induction false} FillSkips(value: string, t: string, values: Values)
    requires forall i :: 0 <= i < |value| ==> value[i] != '%'
    ensures Fill(value + t, values) == value + Fill(t, values)
  {
    if value == "" {
      assert value + t == t;
    } else {
      assert (value + t)[1..] == value[1..] + t;
      FillSkips(value[1..], t, values);
    }
  }

  // Replacing one more code afterwards is replacing it in the same pass, since no value makes a new code.
  lemma {:induction false} FillTwice(f: string, values: Values, c: char, value: string)
    requires ArePlain(values) && c !in values && c != '%' && !(c == '-' || '0' <= c <= '9')
    ensures Fill(Fill(f, values), map[c := value]) == Fill(f, values[c := value])
  {
    var one, both := map[c := value], values[c := value];
    if f == "" {
    } else if Starts(f, values) {
      FillTwice(f[2..], values, c, value);
      FillSkips(values[f[1]], Fill(f[2..], values), one);
    } else {
      var t := Fill(f[1..], values);
      FillTwice(f[1..], values, c, value);
      FirstOfFill(f[1..], values, c);
      if |f| >= 2 && f[0] == '%' && f[1] == c {
        FillTwice(f[2..], values, c, value);
        assert !Starts(f[1..], values) && f[1..][1..] == f[2..];
        assert ([f[0]] + t)[2..] == Fill(f[2..], values);
      } else {
        assert ([f[0]] + t)[1..] == t;
      }
    }
  }

  lemma FirstOfFill(f: string, values: Values, c: char)
    requires ArePlain(values) && !(c == '-' || '0' <= c <= '9')
    ensures Fill(f, values) != "" && Fill(f, values)[0] == c ==> f != "" && f[0] == c
  {
    if Starts(f, values) { assert IsPlain(values[f[1]]); }
  }

  lemma {:induction false} NatStringIsPlain(n: nat)
    ensures IsPlain(NatString(n))
  {
    if n >= 10 { NatStringIsPlain(n / 10); }
  }

  lemma PartsArePlain(date: Date)
    requires IsDate(date)
    ensures ArePlain(Parts(date))
  {
    NatStringIsPlain(if date.year < 0 then -date.year else date.year);
    NatStringIsPlain(date.month);
    NatStringIsPlain(date.day);
  }

  // The three replacements of returnDate amount to filling the format in one pass.
  lemma ReplacedIsFilled(f: string, date: Date)
    requires IsDate(date)
    ensures JsReplace(JsReplace(JsReplace(f, "%Y", IntString(date.year)), "%m", MakeTwoDigit(date.month)),
                      "%d", MakeTwoDigit(date.day))
         == PrintDate(f, date)
  {
    hide Fill, JsReplace, IntString, MakeTwoDigit, IsPlain;
    var y, m, d := IntString(date.year), MakeTwoDigit(date.month), MakeTwoDigit(date.day);
    PartsArePlain(date);
    assert y == Parts(date)['Y'] && m == Parts(date)['m'];
    JsReplaceIsFill(f, 'Y', y);
    JsReplaceIsFill(Fill(f, map['Y' := y]), 'm', m);
    FillTwice(f, map['Y' := y], 'm', m);
    JsReplaceIsFill(Fill(f, map['Y' := y, 'm' := m]), 'd', d);
    FillTwice(f, map['Y' := y, 'm' := m], 'd', d);
    assert map['Y' := y]['m' := m] == map['Y' := y, 'm' := m];
    assert map['Y' := y, 'm' := m]['d' := d] == Parts(date);
  }
}
