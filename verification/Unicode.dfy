// The reference codecs: UTF-16 (RFC 2781, sections 2.1 and 2.2) and UTF-8 (RFC 3629,
// sections 3 and 4, with the 5- and 6-byte rows of RFC 2279, section 2), stated on values.

module Unicode {
  import opened Sequences

  type UTF8 = bv8
  type UTF16 = bv16
  type UCS4 = bv32

  const REPLACEMENT_CHARACTER: UCS4 := 0xFFFD
  const MAXIMUM_UCS2: UCS4 := 0xFFFF
  const MAXIMUM_UTF16: UCS4 := 0x10FFFF
  const MAXIMUM_UCS4: UCS4 := 0x7FFFFFFF

  // ---------------------------------------------------------------- surrogates

  predicate IsHigh(c: UCS4) { 0xD800 <= c <= 0xDBFF }

  predicate IsLow(c: UCS4) { 0xDC00 <= c <= 0xDFFF }

  // A Unicode scalar value: what RFC 3629 lets UTF-8 represent.
  predicate IsScalar(c: UCS4) { c <= 0x10FFFF && !IsHigh(c) && !IsLow(c) }

  // A cell is a UCS4 element holding a UTF-16 code unit.
  predicate AreCells(cells: seq<UCS4>) { forall i :: 0 <= i < |cells| ==> cells[i] <= 0xFFFF }

  predicate AtMost(cs: seq<UCS4>, max: UCS4) { forall i :: 0 <= i < |cs| ==> cs[i] <= max }

  predicate AllScalar(cs: seq<UCS4>) { forall i :: 0 <= i < |cs| ==> IsScalar(cs[i]) }

  // No high-surrogate value is directly followed by a low-surrogate value.
  predicate NoHighLow(cs: seq<UCS4>) {
    forall i {:trigger IsHigh(cs[i])} :: 0 <= i < |cs| - 1 ==> !(IsHigh(cs[i]) && IsLow(cs[i + 1]))
  }

  // Cutting cells at i does not cut a surrogate pair.
  predicate CleanCut(a: seq<UCS4>, b: seq<UCS4>) {
    a == [] || b == [] || !IsHigh(a[|a| - 1]) || !IsLow(b[0])
  }

  // A code unit as a UCS4 element.
  function Cell(u: UTF16): UCS4 { u as UCS4 }

  function Widen(us: seq<UTF16>): (r: seq<UCS4>)
    ensures |r| == |us|
    ensures forall i :: 0 <= i < |us| ==> r[i] == Cell(us[i])
    ensures AreCells(r)
  {
    seq(|us|, i requires 0 <= i < |us| => Cell(us[i]))
  }

  lemma WidenConcat(a: seq<UTF16>, b: seq<UTF16>)
    ensures Widen(a + b) == Widen(a) + Widen(b)
  {
  }

  lemma WidenSlice(us: seq<UTF16>, i: nat, j: nat)
    requires i <= j <= |us|
    ensures Widen(us[i..j]) == Widen(us)[i..j]
  {
  }

  lemma CellInjective(u: UTF16, v: UTF16)
    requires Cell(u) == Cell(v)
    ensures u == v
  {
  }

  lemma WidenInjective(a: seq<UTF16>, b: seq<UTF16>)
    requires Widen(a) == Widen(b)
    ensures a == b
  {
    hide Widen, Cell;
    assert |a| == |Widen(a)| == |Widen(b)| == |b|;
    forall i | 0 <= i < |a| ensures a[i] == b[i] {
      assert Widen(a)[i] == Widen(b)[i];
      CellInjective(a[i], b[i]);
    }
  }

  lemma WidenOne(u: UTF16)
    ensures Widen([u]) == [Cell(u)]
  {
    hide Cell;
  }

  lemma WidenTwo(u: UTF16, v: UTF16)
    ensures Widen([u, v]) == [Cell(u), Cell(v)]
  {
    hide Cell;
  }

  // ---------------------------------------------------------------- UTF-16

  // RFC 2781, section 2.2: the value a surrogate pair stands for.
  function Combine(high: UCS4, low: UCS4): UCS4 {
    (((high & 0x3FF) << 10) | (low & 0x3FF)) + 0x10000
  }

  predicate StartsWithPair(cells: seq<UCS4>) {
    |cells| >= 2 && IsHigh(cells[0]) && IsLow(cells[1])
  }

  // The characters of a sequence of cells; an unpaired surrogate stands for itself.
  function Pair(cells: seq<UCS4>): seq<UCS4> {
    if cells == [] then []
    else if StartsWithPair(cells) then [Combine(cells[0], cells[1])] + Pair(cells[2..])
    else [cells[0]] + Pair(cells[1..])
  }

  // The characters of a UTF-16 text.
  function Chars(us: seq<UTF16>): seq<UCS4> { Pair(Widen(us)) }

  // RFC 2781, section 2.1: the one or two code units of a character, as cells.
  function CellsOf(c: UCS4): seq<UCS4> {
    if c < 0x10000 then [c]
    else [0xD800 + ((c - 0x10000) >> 10), 0xDC00 + ((c - 0x10000) & 0x3FF)]
  }

  function UnitsOf(c: UCS4): seq<UTF16>
    requires c <= MAXIMUM_UTF16
  {
    if c < 0x10000 then [c as UTF16]
    else [(0xD800 | ((c - 0x10000) >> 10)) as UTF16, (0xDC00 | ((c - 0x10000) & 0x3FF)) as UTF16]
  }

  lemma SurrogateUnits(c: UCS4)
    requires 0x10000 <= c <= MAXIMUM_UTF16
    ensures (0xD800 | ((c - 0x10000) >> 10)) == 0xD800 + ((c - 0x10000) >> 10) <= 0xDBFF
    ensures (0xDC00 | ((c - 0x10000) & 0x3FF)) == 0xDC00 + ((c - 0x10000) & 0x3FF) <= 0xDFFF
  {
  }

  lemma NarrowWiden(c: UCS4)
    requires c <= MAXIMUM_UCS2
    ensures Cell(c as UTF16) == c
  {
  }

  lemma OneUnit(c: UCS4)
    requires c < 0x10000
    ensures UnitsOf(c) == [c as UTF16] && CellsOf(c) == [c]
  {
  }

  lemma TwoUnits(c: UCS4)
    requires 0x10000 <= c <= MAXIMUM_UTF16
    ensures exists u, v :: UnitsOf(c) == [u, v] && CellsOf(c) == [Cell(u), Cell(v)]
  {
    var high, low := 0xD800 | ((c - 0x10000) >> 10), 0xDC00 | ((c - 0x10000) & 0x3FF);
    SurrogateUnits(c);
    NarrowWiden(high);
    NarrowWiden(low);
    hide Cell;
    assert UnitsOf(c) == [high as UTF16, low as UTF16];
  }

  lemma UnitsAreCells(c: UCS4)
    requires c <= MAXIMUM_UTF16
    ensures Widen(UnitsOf(c)) == CellsOf(c)
  {
    hide Widen, UnitsOf, CellsOf, Cell;
    if c < 0x10000 {
      OneUnit(c);
      WidenOne(c as UTF16);
      NarrowWiden(c);
    } else {
      TwoUnits(c);
      var u, v :| UnitsOf(c) == [u, v] && CellsOf(c) == [Cell(u), Cell(v)];
      WidenTwo(u, v);
    }
  }

  // ---------------------------------------------------------------- UTF-8

  // The byte sequence of a character number, one row of the table in RFC 2279, section 2, per length.
  function Utf8Of(c: UCS4): (bs: seq<UTF8>)
    requires c <= MAXIMUM_UCS4
    ensures |bs| == Utf8Length(c)
  {
    if c < 0x80 then [c as UTF8]
    else if c < 0x800 then [(0xC0 | (c >> 6)) as UTF8, Trail(c)]
    else if c < 0x10000 then [(0xE0 | (c >> 12)) as UTF8, Trail(c >> 6), Trail(c)]
    else if c < 0x200000 then [(0xF0 | (c >> 18)) as UTF8, Trail(c >> 12), Trail(c >> 6), Trail(c)]
    else if c < 0x4000000 then [(0xF8 | (c >> 24)) as UTF8, Trail(c >> 18), Trail(c >> 12), Trail(c >> 6), Trail(c)]
    else [(0xFC | (c >> 30)) as UTF8, Trail(c >> 24), Trail(c >> 18), Trail(c >> 12), Trail(c >> 6), Trail(c)]
  }

  // A continuation byte: the two marker bits 10 and the six low bits of c.
  function Trail(c: UCS4): UTF8 { (0x80 | (c & 0x3F)) as UTF8 }

  function Utf8Length(c: UCS4): (n: nat)
    ensures 1 <= n <= 6
  {
    if c < 0x80 then 1 else if c < 0x800 then 2 else if c < 0x10000 then 3
    else if c < 0x200000 then 4 else if c < 0x4000000 then 5 else 6
  }

  // RFC 3629, section 4: the ABNF rule UTF8-char.
  predicate IsTail(b: UTF8) { 0x80 <= b <= 0xBF }

  predicate IsUtf8Char(s: seq<UTF8>) {
    match |s|
    case 1 => s[0] <= 0x7F
    case 2 => 0xC2 <= s[0] <= 0xDF && IsTail(s[1])
    case 3 => IsLead3(s[0], s[1]) && IsTail(s[2])
    case 4 => IsLead4(s[0], s[1]) && IsTail(s[2]) && IsTail(s[3])
    case _ => false
  }

  predicate IsLead3(b0: UTF8, b1: UTF8) {
    || (b0 == 0xE0 && 0xA0 <= b1 <= 0xBF)
    || (0xE1 <= b0 <= 0xEC && IsTail(b1))
    || (b0 == 0xED && 0x80 <= b1 <= 0x9F)
    || (0xEE <= b0 <= 0xEF && IsTail(b1))
  }

  predicate IsLead4(b0: UTF8, b1: UTF8) {
    || (b0 == 0xF0 && 0x90 <= b1 <= 0xBF)
    || (0xF1 <= b0 <= 0xF3 && IsTail(b1))
    || (b0 == 0xF4 && 0x80 <= b1 <= 0x8F)
  }

  // RFC 3629, section 4: the ABNF rule UTF8-octets.
  predicate IsUtf8(s: seq<UTF8>)
    decreases |s|
  {
    s == [] || exists n {:trigger s[..n]} :: 1 <= n <= 4 && n <= |s| && IsUtf8Char(s[..n]) && IsUtf8(s[n..])
  }

  // Lexicographic order, on bytes and on character numbers.
  predicate BytesLess(a: seq<UTF8>, b: seq<UTF8>) {
    if b == [] then false else if a == [] then true
    else if a[0] != b[0] then a[0] < b[0] else BytesLess(a[1..], b[1..])
  }

  predicate Less(c: UCS4, d: UCS4) { c < d }

  predicate CharsLess(a: seq<UCS4>, b: seq<UCS4>) {
    if b == [] then false else if a == [] then true
    else if a[0] != b[0] then Less(a[0], b[0]) else CharsLess(a[1..], b[1..])
  }
}
