// HTTP heads as byte strings: what the header printer prints and what the scanners accept.

module HttpSyntax {
  import opened Bytes
  import opened Sequences
  import opened Options

  // ---------------------------------------------------------------- tables

  datatype Entry = Entry(key: seq<byte>, val: seq<byte>)

  // An APR table: an ordered list with keys compared regardless of case.
  type Table = seq<Entry>

  predicate SameKey(a: seq<byte>, b: seq<byte>) {
    |a| == |b| && forall i :: 0 <= i < |a| ==> Lower(a[i]) == Lower(b[i])
  }

  function Without(t: Table, key: seq<byte>): Table {
    if t == [] then []
    else if SameKey(t[0].key, key) then Without(t[1..], key)
    else [t[0]] + Without(t[1..], key)
  }

  // apr_table_set: the first entry with the key gets the value, further ones go; without one it is appended.
  function TableSet(t: Table, key: seq<byte>, val: seq<byte>): Table {
    if t == [] then [Entry(key, val)]
    else if SameKey(t[0].key, key) then [Entry(t[0].key, val)] + Without(t[1..], key)
    else [t[0]] + TableSet(t[1..], key, val)
  }

  // apr_table_get: the value of the first entry with the key.
  function TableGet(t: Table, key: seq<byte>): Option<seq<byte>> {
    if t == [] then None
    else if SameKey(t[0].key, key) then Some(t[0].val)
    else TableGet(t[1..], key)
  }

  function SetAll(t: Table, entries: Table): Table
    decreases |entries|
  {
    if entries == [] then t else SetAll(TableSet(t, entries[0].key, entries[0].val), entries[1..])
  }

  // ---------------------------------------------------------------- printing

  // sprintf("%%%02i"): a percent sign and the byte in decimal.
  function Code(b: byte): seq<byte>
    requires b < 100
  {
    [PERCENT, 48 + b / 10, 48 + b % 10]
  }

  function EscapeByte(b: byte): seq<byte> {
    if b == PERCENT || b == CR || b == LF then Code(b) else [b]
  }

  // A value with a line break in it goes out escaped, any other value as it is.
  function Escape(value: seq<byte>): seq<byte> {
    if CR in value || LF in value then FlatMap(EscapeByte, value) else value
  }

  function PrintHeader(key: seq<byte>, value: seq<byte>): seq<byte> {
    key + [COLON, SPACE] + Escape(value) + CRLF
  }

  function PrintEntry(e: Entry): seq<byte> { PrintHeader(e.key, e.val) }

  // ---------------------------------------------------------------- scanning

  predicate NameByte(b: byte) { b != NUL && b != COLON }

  predicate SpaceByte(b: byte) { IsSpace(b) }

  predicate ValueByte(b: byte) { b != NUL && b != CR }

  predicate WordByte(b: byte) { b != NUL && !IsSpace(b) }

  predicate LineByte(b: byte) { b != NUL && b != LF }

  // Where at most max bytes of a kind end that start at m.
  function WordEnd(s: seq<byte>, m: nat, max: nat): (e: nat)
    requires m <= |s|
    ensures m <= e <= |s| && e <= m + max
  {
    m + Span(s[m..], WordByte, max)
  }

  function SpaceEnd(s: seq<byte>, m: nat): (e: nat)
    requires m <= |s|
    ensures m <= e <= |s|
  {
    m + Span(s[m..], SpaceByte, |s|)
  }

  // Behind skipped spaces comes no space.
  lemma SpaceShape(s: seq<byte>, m: nat)
    requires m <= |s|
    ensures SpaceEnd(s, m) < |s| ==> !IsSpace(s[SpaceEnd(s, m)])
  {
    var n := Span(s[m..], SpaceByte, |s|);
    assert m + n < |s| ==> !SpaceByte(s[m..][n]);
  }

  function LineEnd(s: seq<byte>, m: nat): (e: nat)
    requires m <= |s|
    ensures m <= e <= |s|
  {
    m + Span(s[m..], LineByte, |s|)
  }

  function NameEnd(s: seq<byte>, m: nat): (e: nat)
    requires m <= |s|
    ensures m <= e <= |s| && e <= m + 255
  {
    m + Span(s[m..], NameByte, 255)
  }

  function ValueEnd(s: seq<byte>, m: nat): (e: nat)
    requires m <= |s|
    ensures m <= e <= |s| && e <= m + 7999
  {
    m + Span(s[m..], ValueByte, 7999)
  }

  datatype Item = Header(name: seq<byte>, value: seq<byte>, rest: seq<byte>) | Stop(rest: seq<byte>)

  // One turn of the header loop: a header, or the end of the head, which is also where
  // anything malformed ends it.
  function ScanHeader(s: seq<byte>): (item: Item)
    ensures item.Header? ==> |item.rest| < |s|
  {
    if s == [] then Stop([])
    else if s[0] == NUL || s[0] == LF then Stop(s[1..])
    else if s[0] == CR then Stop(Drop(s, 2))
    else
      var i := NameEnd(s, 0);
      if i < 1 || i == |s| || s[i] != COLON then Stop(Drop(s, i + 1))
      else ScanValue(s, i, SpaceEnd(s, i + 1))
  }

  // The header with the name s[..i], whose value starts at v.
  function ScanValue(s: seq<byte>, i: nat, v: nat): (item: Item)
    requires i < v <= |s|
    ensures item.Header? ==> |item.rest| < |s|
  {
    var e := ValueEnd(s, v);
    if e == v then Stop(Drop(s, v + 1))
    else if e < |s| && s[e] == LF then Header(s[..i], s[v..e], s[e + 1..])
    else if e < |s| && s[e] == CR then
      if e + 1 < |s| && s[e + 1] == LF then Header(s[..i], s[v..e], s[e + 2..]) else Stop(Drop(s, e + 2))
    else Stop(Drop(s, e + 1))
  }

  datatype Head = Head(table: Table, rest: seq<byte>)

  // NGScanHeaders on the whole stream.
  function ScanHeaders(s: seq<byte>, t: Table): Head
    decreases |s|
  {
    match ScanHeader(s)
    case Stop(rest) => Head(t, rest)
    case Header(name, value, rest) => ScanHeaders(rest, TableSet(t, name, value))
  }

  datatype Line = Line(version: seq<byte>, status: int, text: seq<byte>, rest: seq<byte>) | BadLine(rest: seq<byte>)

  // NGScanResponseLine on the whole stream. Each step needs a byte behind it that is no NUL.
  function ScanLine(s: seq<byte>): Line {
    var v := WordEnd(s, 0, 16);
    if !Goes(s, v) then BadLine(Drop(s, v + 1)) else ScanCode(s, v, SpaceEnd(s, v))
  }

  function ScanCode(s: seq<byte>, v: nat, a: nat): Line
    requires v <= a <= |s|
  {
    if !Goes(s, a) then BadLine(Drop(s, a + 1)) else
    var b := WordEnd(s, a, 6);
    ScanReason(s, v, Atoi(s[a..b]), SpaceEnd(s, b))
  }

  function ScanReason(s: seq<byte>, v: nat, status: int, e: nat): Line
    requires v <= e <= |s|
  {
    if !Goes(s, e) then BadLine(Drop(s, e + 1)) else
    var f := WordEnd(s, e, 6);
    if !Goes(s, f) then BadLine(Drop(s, f + 1)) else
    var g := LineEnd(s, f);
    if !Goes(s, g) then BadLine(Drop(s, g + 1)) else
    Line(s[..v], status, s[e..f], s[g + 1..])
  }

  predicate Goes(s: seq<byte>, i: nat) { i < |s| && s[i] != NUL }
}
