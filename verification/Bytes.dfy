// Bytes of the proxied stream, and the C library functions the proxy applies to them.

module Bytes {

  type byte = b: int | 0 <= b < 256

  const NUL: byte := 0
  const LF: byte := 10
  const CR: byte := 13
  const SPACE: byte := 32
  const PERCENT: byte := 37
  const PLUS: byte := 43
  const MINUS: byte := 45
  const COLON: byte := 58
  const CRLF: seq<byte> := [13, 10]

  // isspace in the C locale: blank, \t, \n, \v, \f and \r.
  predicate IsSpace(c: int) { c == 32 || 9 <= c <= 13 }

  predicate IsDigit(c: int) { 48 <= c <= 57 }

  function Lower(c: byte): byte { if 65 <= c <= 90 then c + 32 else c }

  // The bytes of a string of the source.
  function Ascii(s: string): (r: seq<byte>)
    ensures |r| == |s| && forall i :: 0 <= i < |s| ==> r[i] == s[i] as int % 256
  {
    seq(|s|, i requires 0 <= i < |s| => s[i] as int % 256)
  }

  // A C string: no byte of it is the terminating NUL.
  predicate IsCString(s: seq<byte>) { NUL !in s }

  // How many of the first max bytes of s, at most, satisfy p without a gap.
  function Span(s: seq<byte>, p: byte -> bool, max: nat): (n: nat)
    ensures n <= |s| && n <= max
    ensures forall i :: 0 <= i < n ==> p(s[i])
    ensures n < |s| && n < max ==> !p(s[n])
  {
    if s == [] || max == 0 || !p(s[0]) then 0 else 1 + Span(s[1..], p, max - 1)
  }

  lemma SpanIs(s: seq<byte>, p: byte -> bool, max: nat, n: nat)
    requires n <= |s| && n <= max && (forall i :: 0 <= i < n ==> p(s[i])) && (n < |s| && n < max ==> !p(s[n]))
    ensures Span(s, p, max) == n
  {
    var k := Span(s, p, max);
    if k < |s| { var atEnd := p(s[k]); }
    if n < |s| { var atEnd := p(s[n]); }
  }

  // s without its first n bytes, or nothing.
  function Drop(s: seq<byte>, n: nat): seq<byte> { if n <= |s| then s[n..] else [] }

  // atoi: leading spaces, a sign, digits up to the first other byte.
  function Atoi(s: seq<byte>): int {
    if s != [] && IsSpace(s[0]) then Atoi(s[1..])
    else if s != [] && s[0] == MINUS then -(Digits(s[1..], 0) as int)
    else if s != [] && s[0] == PLUS then Digits(s[1..], 0)
    else Digits(s, 0)
  }

  function Digits(s: seq<byte>, value: nat): nat {
    if s != [] && IsDigit(s[0]) then Digits(s[1..], 10 * value + (s[0] - 48)) else value
  }
}
