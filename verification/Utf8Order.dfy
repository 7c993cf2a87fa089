// UTF-8 keeps the order of the characters, and no encoding is the beginning of another one.

module Utf8Order {
  import opened Sequences
  import opened Unicode
  import opened CvtUtf
  import opened Utf8Laws

  // a and b differ at a place both have, and a is smaller there.
  predicate StrictlyBefore(a: seq<UTF8>, b: seq<UTF8>) {
    a != [] && b != [] && (a[0] < b[0] || (a[0] == b[0] && StrictlyBefore(a[1..], b[1..])))
  }

  lemma {:induction false} BeforeMore(a: seq<UTF8>, b: seq<UTF8>, x: seq<UTF8>, y: seq<UTF8>)
    requires StrictlyBefore(a, b)
    ensures StrictlyBefore(a + x, b + y)
    ensures !(a <= b) && !(b <= a)
  {
    if a[0] == b[0] {
      BeforeMore(a[1..], b[1..], x, y);
      assert (a + x)[1..] == a[1..] + x && (b + y)[1..] == b[1..] + y;
    }
  }

  lemma {:induction false} BeforeLast(p: seq<UTF8>, x: UTF8, y: UTF8)
    requires x < y
    ensures StrictlyBefore(p + [x], p + [y])
  {
    if p != [] {
      BeforeLast(p[1..], x, y);
      assert (p + [x])[1..] == p[1..] + [x] && (p + [y])[1..] == p[1..] + [y];
    }
  }

  lemma {:induction false} BeforeIsLess(a: seq<UTF8>, b: seq<UTF8>)
    requires StrictlyBefore(a, b)
    ensures BytesLess(a, b) && !BytesLess(b, a)
  {
    if a[0] == b[0] { BeforeIsLess(a[1..], b[1..]); }
  }

  lemma {:induction false} LessBehindPrefix(p: seq<UTF8>, a: seq<UTF8>, b: seq<UTF8>)
    ensures BytesLess(p + a, p + b) <==> BytesLess(a, b)
  {
    if p == [] {
      assert p + a == a && p + b == b;
    } else {
      LessBehindPrefix(p[1..], a, b);
      assert (p + a)[1..] == p[1..] + a && (p + b)[1..] == p[1..] + b;
    }
  }

  // ---------------------------------------------------------------- rows of the same length

  // What is left of c for the lead byte of n bytes.
  function Top(c: UCS4, n: nat): UCS4
    requires 1 <= n <= 6
  {
    match n
    case 1 => c
    case 2 => c >> 6
    case 3 => c >> 12
    case 4 => c >> 18
    case 5 => c >> 24
    case 6 => c >> 30
  }

  lemma TopShift(c: UCS4, n: nat)
    requires 2 <= n <= 6
    ensures Top(c >> 6, n - 1) == Top(c, n)
  {
    assert (c >> 6) >> 6 == c >> 12 && (c >> 6) >> 12 == c >> 18;
    assert (c >> 6) >> 18 == c >> 24 && (c >> 6) >> 24 == c >> 30;
  }

  lemma TopStep(c: UCS4, n: nat)
    requires 2 <= n <= 6
    ensures Top(Down6(c), n - 1) == Top(c, n)
  {
    hide *;
    DownIsShift(c);
    TopShift(c, n);
  }

  // The bits of c leave the lead mark alone.
  predicate FitsMark(c: UCS4, mark: UTF8) { c & Lift(mark) == 0 && c | Lift(mark) <= 0xFF }

  lemma LeadOrder(c: UCS4, d: UCS4, mark: UTF8)
    requires Less(c, d) && FitsMark(c, mark) && FitsMark(d, mark)
    ensures LeadByte(c, mark) < LeadByte(d, mark)
  {
  }

  // c has at most n groups of six bits.
  predicate Groups(c: UCS4, n: nat) {
    match n
    case 1 => c < 0x40
    case 2 => c < 0x1000
    case 3 => c < 0x40000
    case 4 => c < 0x1000000
    case 5 => c < 0x40000000
    case _ => n == 6
  }

  function Low6(c: UCS4): UCS4 { c & 0x3F }

  lemma HighGroupDecides(c: UCS4, d: UCS4)
    requires Less(Down6(c), Down6(d))
    ensures Less(c, d)
  {
  }

  lemma LowGroupDecides(c: UCS4, d: UCS4)
    requires Down6(c) == Down6(d)
    ensures Less(Low6(c), Low6(d)) ==> Less(c, d)
    ensures Low6(c) == Low6(d) ==> c == d
    ensures Less(Low6(c), Low6(d)) || Low6(c) == Low6(d) || Less(Low6(d), Low6(c))
  {
  }

  lemma GroupsStep(c: UCS4, n: nat)
    requires 2 <= n <= 6 && Groups(c, n)
    ensures Groups(Down6(c), n - 1)
  {
  }

  lemma LastGroup(c: UCS4, d: UCS4)
    requires Groups(c, 1) && Groups(d, 1)
    ensures Less(c, d) || c == d || Less(d, c)
  {
  }

  lemma Asymmetry(c: UCS4, d: UCS4)
    ensures !(Less(c, d) && Less(d, c)) && !Less(c, c)
  {
  }

  // Two characters are comparable: six bits at a time, which is how the encoding sees them.
  lemma {:induction false} Trichotomy(c: UCS4, d: UCS4, n: nat)
    requires 1 <= n <= 6 && Groups(c, n) && Groups(d, n)
    ensures Less(c, d) || c == d || Less(d, c)
    decreases n
  {
    hide *;
    if n == 1 {
      LastGroup(c, d);
    } else {
      GroupsStep(c, n);
      GroupsStep(d, n);
      Trichotomy(Down6(c), Down6(d), n - 1);
      if Less(Down6(c), Down6(d)) { HighGroupDecides(c, d); }
      else if Less(Down6(d), Down6(c)) { HighGroupDecides(d, c); }
      else {
        LowGroupDecides(c, d);
        LowGroupDecides(d, c);
      }
    }
  }

  lemma Comparable(c: UCS4, d: UCS4)
    ensures Less(c, d) || c == d || Less(d, c)
  {
    assert Groups(c, 6) && Groups(d, 6);
    hide Less, Groups;
    Trichotomy(c, d, 6);
  }

  lemma BitOrder(c: UCS4, d: UCS4)
    requires Less(c, d)
    ensures Less(Down6(c), Down6(d)) || (Down6(c) == Down6(d) && Less(Low6(c), Low6(d)))
  {
    hide *;
    Asymmetry(c, d);
    Comparable(Down6(c), Down6(d));
    if Less(Down6(d), Down6(c)) { HighGroupDecides(d, c); }
    if Down6(c) == Down6(d) {
      LowGroupDecides(c, d);
      LowGroupDecides(d, c);
      Asymmetry(c, c);
    }
  }

  lemma TrailOrder(c: UCS4, d: UCS4)
    requires Less(Low6(c), Low6(d))
    ensures TrailByte(c) < TrailByte(d)
  {
  }

  lemma RowOfOne(c: UCS4, mark: UTF8)
    ensures Row(c, 1, mark) == [] + [LeadByte(c, mark)] && Top(c, 1) == c
  {
  }

  lemma {:induction false} RowOrder(c: UCS4, d: UCS4, n: nat, mark: UTF8)
    requires 1 <= n <= 6 && Less(c, d) && FitsMark(Top(c, n), mark) && FitsMark(Top(d, n), mark)
    ensures StrictlyBefore(Row(c, n, mark), Row(d, n, mark))
    decreases n
  {
    hide *;
    if n == 1 {
      RowOfOne(c, mark);
      RowOfOne(d, mark);
      LeadOrder(c, d, mark);
      BeforeLast([], LeadByte(c, mark), LeadByte(d, mark));
    } else {
      RowStep(c, n, mark);
      RowStep(d, n, mark);
      TopStep(c, n);
      TopStep(d, n);
      BitOrder(c, d);
      if Less(Down6(c), Down6(d)) {
        RowOrder(Down6(c), Down6(d), n - 1, mark);
        BeforeMore(Row(Down6(c), n - 1, mark), Row(Down6(d), n - 1, mark), [TrailByte(c)], [TrailByte(d)]);
      } else {
        TrailOrder(c, d);
        BeforeLast(Row(Down6(c), n - 1, mark), TrailByte(c), TrailByte(d));
      }
    }
  }

  lemma RowFitsMark(c: UCS4)
    requires c <= MAXIMUM_UCS4
    ensures FitsMark(Top(c, Utf8Length(c)), FIRST_BYTE_MARK[Utf8Length(c)])
  {
  }

  // ---------------------------------------------------------------- characters

  // The lead bytes of n bytes end where those of n + 1 bytes start.
  function LeadsFrom(n: nat): UTF8
    requires 1 <= n <= 7
  {
    match n case 1 => 0 case 2 => 0xC0 case 3 => 0xE0 case 4 => 0xF0 case 5 => 0xF8 case 6 => 0xFC case 7 => 0xFE
  }

  lemma LeadRange(c: UCS4)
    requires c <= MAXIMUM_UCS4
    ensures LeadsFrom(Utf8Length(c)) <= Utf8Of(c)[0] < LeadsFrom(Utf8Length(c) + 1)
  {
    hide Trail;
  }

  lemma LeadsGrow(m: nat, n: nat)
    requires 1 <= m <= n <= 7
    ensures LeadsFrom(m) <= LeadsFrom(n)
  {
  }

  lemma LengthGrows(c: UCS4, d: UCS4)
    requires Less(c, d)
    ensures Utf8Length(c) <= Utf8Length(d)
  {
  }

  lemma ShorterLeadIsLess(c: UCS4, d: UCS4)
    requires Less(c, d) && d <= MAXIMUM_UCS4 && Utf8Length(c) != Utf8Length(d)
    ensures Utf8Of(c)[0] < Utf8Of(d)[0]
  {
    hide Less, Utf8Of, Utf8Length, LeadsFrom;
    LengthGrows(c, d);
    LessThanLimit(c, d);
    LeadRange(c);
    LeadRange(d);
    LeadsGrow(Utf8Length(c) + 1, Utf8Length(d));
  }

  lemma LessThanLimit(c: UCS4, d: UCS4)
    requires Less(c, d) && d <= MAXIMUM_UCS4
    ensures c <= MAXIMUM_UCS4
  {
  }

  lemma Utf8IsRow(c: UCS4)
    requires c <= MAXIMUM_UCS4
    ensures Utf8Of(c) == Row(c, Utf8Length(c), FIRST_BYTE_MARK[Utf8Length(c)])
  {
    SwitchIsRow(c, Utf8Length(c), FIRST_BYTE_MARK[Utf8Length(c)]);
    SwitchIsUtf8(c);
  }

  // A smaller character has a smaller encoding, whatever follows either; so neither begins with the other.
  lemma CharacterOrder(c: UCS4, d: UCS4)
    requires Less(c, d) && d <= MAXIMUM_UCS4
    ensures StrictlyBefore(Utf8Of(c), Utf8Of(d))
    ensures !(Utf8Of(c) <= Utf8Of(d)) && !(Utf8Of(d) <= Utf8Of(c))
  {
    if Utf8Length(c) == Utf8Length(d) {
      Utf8IsRow(c);
      Utf8IsRow(d);
      RowFitsMark(c);
      RowFitsMark(d);
      RowOrder(c, d, Utf8Length(c), FIRST_BYTE_MARK[Utf8Length(c)]);
    } else {
      ShorterLeadIsLess(c, d);
    }
    BeforeMore(Utf8Of(c), Utf8Of(d), [], []);
  }

  // ---------------------------------------------------------------- texts

  // Comparing encoded texts byte by byte orders them as comparing their characters does.
  lemma {:induction false} EncodingKeepsOrder(x: seq<UCS4>, y: seq<UCS4>)
    requires AtMost(x, MAXIMUM_UCS4) && AtMost(y, MAXIMUM_UCS4)
    ensures BytesLess(FlatMap(EmitUtf8, x), FlatMap(EmitUtf8, y)) <==> CharsLess(x, y)
  {
    hide Utf8Of, EmitUtf8, FlatMap, StrictlyBefore, Less;
    EncodingSplits(x);
    EncodingSplits(y);
    if x != [] && y != [] {
      var p, q := FlatMap(EmitUtf8, x[1..]), FlatMap(EmitUtf8, y[1..]);
      var a, b := Utf8Of(x[0]), Utf8Of(y[0]);
      WithinUcs4(x[0]);
      WithinUcs4(y[0]);
      if x[0] == y[0] {
        EncodingKeepsOrder(x[1..], y[1..]);
        LessBehindPrefix(a, p, q);
      } else if Less(x[0], y[0]) {
        CharacterOrder(x[0], y[0]);
        BeforeMore(a, b, p, q);
        BeforeIsLess(a + p, b + q);
      } else {
        Comparable(x[0], y[0]);
        CharacterOrder(y[0], x[0]);
        BeforeMore(b, a, q, p);
        BeforeIsLess(b + q, a + p);
      }
    }
  }
}
