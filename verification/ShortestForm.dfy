// The encodings of scalar values are exactly the valid UTF-8 of section 4 of RFC 3629.

module ShortestForm {
  import opened Sequences
  import opened Unicode
  import opened CvtUtf
  import opened Utf8Laws

  // ---------------------------------------------------------------- one character

  lemma ScalarIsUtf8Char(c: UCS4)
    requires IsScalar(c)
    ensures IsUtf8Char(Utf8Of(c))
  {
  }

  // What valid bytes decode to, as the bits that are left without the markers.
  lemma Value2(a: UTF8, b: UTF8)
    requires 0xC2 <= a <= 0xDF && IsTail(b)
    ensures TakeOff(Sum2(a, b), 1) == (((a & 0x1F) as UCS4) << 6) | ((b & 0x3F) as UCS4)
  {
  }

  lemma Value3(a: UTF8, b: UTF8, c: UTF8)
    requires 0xE0 <= a <= 0xEF && IsTail(b) && IsTail(c)
    ensures TakeOff(Sum3(a, b, c), 2) == (((a & 0xF) as UCS4) << 12) | (((b & 0x3F) as UCS4) << 6) | ((c & 0x3F) as UCS4)
  {
  }

  lemma Value4(a: UTF8, b: UTF8, c: UTF8, d: UTF8)
    requires 0xF0 <= a <= 0xF7 && IsTail(b) && IsTail(c) && IsTail(d)
    ensures TakeOff(Sum4(a, b, c, d), 3)
         == (((a & 0x7) as UCS4) << 18) | (((b & 0x3F) as UCS4) << 12) | (((c & 0x3F) as UCS4) << 6) | ((d & 0x3F) as UCS4)
  {
  }

  lemma Back2(a: UTF8, b: UTF8)
    requires 0xC2 <= a <= 0xDF && IsTail(b)
    ensures var v := (((a & 0x1F) as UCS4) << 6) | ((b & 0x3F) as UCS4); IsScalar(v) && Utf8Of(v) == [a, b]
  {
  }

  lemma Bits3(v: UCS4, a: UTF8, b: UTF8, c: UTF8)
    requires IsLead3(a, b) && IsTail(c)
    requires v == (((a & 0xF) as UCS4) << 12) | (((b & 0x3F) as UCS4) << 6) | ((c & 0x3F) as UCS4)
    ensures IsScalar(v) && 0x800 <= v < 0x10000
    ensures (0xE0 | (v >> 12)) as UTF8 == a && Trail(v >> 6) == b && Trail(v) == c
  {
  }

  lemma Back3(a: UTF8, b: UTF8, c: UTF8)
    requires IsLead3(a, b) && IsTail(c)
    ensures var v := (((a & 0xF) as UCS4) << 12) | (((b & 0x3F) as UCS4) << 6) | ((c & 0x3F) as UCS4);
            IsScalar(v) && Utf8Of(v) == [a, b, c]
  {
    hide Trail, IsScalar, IsLead3, IsTail;
    Bits3((((a & 0xF) as UCS4) << 12) | (((b & 0x3F) as UCS4) << 6) | ((c & 0x3F) as UCS4), a, b, c);
  }

  lemma Bits4(v: UCS4, a: UTF8, b: UTF8, c: UTF8, d: UTF8)
    requires IsLead4(a, b) && IsTail(c) && IsTail(d)
    requires v == (((a & 0x7) as UCS4) << 18) | (((b & 0x3F) as UCS4) << 12) | (((c & 0x3F) as UCS4) << 6)
                | ((d & 0x3F) as UCS4)
    ensures IsScalar(v) && 0x10000 <= v < 0x200000
    ensures (0xF0 | (v >> 18)) as UTF8 == a && Trail(v >> 12) == b && Trail(v >> 6) == c && Trail(v) == d
  {
  }

  lemma Back4(a: UTF8, b: UTF8, c: UTF8, d: UTF8)
    requires IsLead4(a, b) && IsTail(c) && IsTail(d)
    ensures var v := (((a & 0x7) as UCS4) << 18) | (((b & 0x3F) as UCS4) << 12) | (((c & 0x3F) as UCS4) << 6)
                   | ((d & 0x3F) as UCS4);
            IsScalar(v) && Utf8Of(v) == [a, b, c, d]
  {
    hide Trail, IsScalar, IsLead4, IsTail;
    Bits4((((a & 0x7) as UCS4) << 18) | (((b & 0x3F) as UCS4) << 12) | (((c & 0x3F) as UCS4) << 6) | ((d & 0x3F) as UCS4),
          a, b, c, d);
  }

  lemma Utf8CharIsSequence(s: seq<UTF8>)
    requires IsUtf8Char(s)
    ensures IsSequence(s) && 1 <= |s| <= 4
  {
  }

  // A valid character decodes to a scalar value, and only that value's shortest form is valid.
  lemma Utf8CharDecodes(s: seq<UTF8>)
    requires IsUtf8Char(s)
    ensures IsSequence(s) && IsScalar(DecodeSequence(s)) && Utf8Of(DecodeSequence(s)) == s
  {
    Utf8CharIsSequence(s);
    RawRows(s);
    match |s|
    case 1 => Char1(s[0]);
    case 2 => Char2(s[0], s[1]);
    case 3 => Char3(s[0], s[1], s[2]);
    case 4 => Char4(s[0], s[1], s[2], s[3]);
  }

  lemma Char1(a: UTF8)
    requires a <= 0x7F
    ensures IsScalar(TakeOff(Sum1(a), 0)) && Utf8Of(TakeOff(Sum1(a), 0)) == [a]
  {
  }

  lemma Char2(a: UTF8, b: UTF8)
    requires 0xC2 <= a <= 0xDF && IsTail(b)
    ensures IsScalar(TakeOff(Sum2(a, b), 1)) && Utf8Of(TakeOff(Sum2(a, b), 1)) == [a, b]
  {
    hide Sum2, TakeOff, Utf8Of, IsScalar, IsTail;
    Value2(a, b);
    Back2(a, b);
  }

  lemma Char3(a: UTF8, b: UTF8, c: UTF8)
    requires IsLead3(a, b) && IsTail(c)
    ensures IsScalar(TakeOff(Sum3(a, b, c), 2)) && Utf8Of(TakeOff(Sum3(a, b, c), 2)) == [a, b, c]
  {
    hide Sum3, TakeOff, Utf8Of, IsScalar;
    Value3(a, b, c);
    Back3(a, b, c);
  }

  lemma Char4(a: UTF8, b: UTF8, c: UTF8, d: UTF8)
    requires IsLead4(a, b) && IsTail(c) && IsTail(d)
    ensures IsScalar(TakeOff(Sum4(a, b, c, d), 3)) && Utf8Of(TakeOff(Sum4(a, b, c, d), 3)) == [a, b, c, d]
  {
    hide Sum4, TakeOff, Utf8Of, IsScalar;
    Value4(a, b, c, d);
    Back4(a, b, c, d);
  }

  // ---------------------------------------------------------------- whole texts

  lemma {:induction false} EncodingIsValid(cs: seq<UCS4>)
    requires AllScalar(cs)
    ensures IsUtf8(FlatMap(EmitUtf8, cs))
  {
    if cs != [] {
      EncodingIsValid(cs[1..]);
      ScalarIsUtf8Char(cs[0]);
      var bytes, n := FlatMap(EmitUtf8, cs), |EmitUtf8(cs[0])|;
      assert bytes[..n] == Utf8Of(cs[0]) && bytes[n..] == FlatMap(EmitUtf8, cs[1..]);
      hide Utf8Of, IsScalar;
    }
  }

  lemma EncodingOfOne(c: UCS4, cs: seq<UCS4>)
    requires IsScalar(c)
    ensures FlatMap(EmitUtf8, [c] + cs) == Utf8Of(c) + FlatMap(EmitUtf8, cs)
    ensures AllScalar(cs) ==> AllScalar([c] + cs)
  {
    hide Utf8Of;
    assert ([c] + cs)[1..] == cs;
    ScalarIsInRange(c);
  }

  lemma ScalarIsInRange(c: UCS4)
    requires IsScalar(c)
    ensures c <= MAXIMUM_UCS4
  {
  }

  // On every valid byte string the decoder yields the scalar values it is the encoding of.
  lemma {:induction false} ValidIsEncoding(s: seq<UTF8>)
    requires IsUtf8(s)
    ensures Complete(s) == |s| && AllScalar(Decode(s)) && FlatMap(EmitUtf8, Decode(s)) == s
    decreases |s|
  {
    hide IsUtf8Char, Utf8Of, IsScalar, DecodeSequence, Complete, Decode;
    NothingComplete(s);
    if s != [] {
      var n :| 1 <= n <= 4 && n <= |s| && IsUtf8Char(s[..n]) && IsUtf8(s[n..]);
      Utf8CharDecodes(s[..n]);
      ValidIsEncoding(s[n..]);
      DecodeOne(s[..n]);
      DecodeConcat(s[..n], s[n..]);
      Cut(s, n);
      EncodingOfOne(DecodeSequence(s[..n]), Decode(s[n..]));
    }
  }

  // A UTF-16 text encodes to valid shortest-form UTF-8 exactly when no surrogate in it is unpaired.
  lemma ValidUnlessUnpaired(us: seq<UTF16>)
    ensures IsUtf8(FlatMap(EmitUtf8, Chars(us))) <==> AllScalar(Chars(us))
  {
    if AllScalar(Chars(us)) { EncodingIsValid(Chars(us)); }
    if IsUtf8(FlatMap(EmitUtf8, Chars(us))) {
      ValidIsEncoding(FlatMap(EmitUtf8, Chars(us)));
      CharsAreUtf16(us);
      DecodeOfEncoding(Chars(us));
    }
  }
}
