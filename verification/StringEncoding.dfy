// The string methods around the converters: buffer growth on the way out, an appended NUL on the way in.

module StringEncoding {
  import opened Sequences
  import opened Unicode
  import opened CvtUtf
  import opened SurrogateLaws
  import opened Utf8Laws
  import opened ShortestForm
  import opened TextLaws

  datatype Result<T> = Success(value: T) | Failure(error: ConversionResult)

  // -[NSConcreteUTF16String dataUsingUTF8EncodingAllowLossyConversion:]
  method DataUsingUtf8(chars: array<UTF16>) returns (data: seq<UTF8>)
    ensures data == FlatMap(EmitUtf8, Chars(chars[..]))
  {
    hide *;
    var len := chars.Length;
    ghost var units := chars[..];
    NothingToEncode(units);
    if len == 0 {
      return [];
    }
    EncodingFits(Widen(units));
    CharsOfPrefix(units, len);
    assert chars[0..len] == units;
    var bufLen := len + len / 2;
    while true
      invariant bufLen >= 1
      decreases 3 * len - bufLen
    {
      var buf := new UTF8[bufLen + 1];
      ghost var was := buf[..];
      var result, source, target;
      ghost var out;
      BuffersAreFine(len, chars.Length, bufLen, buf.Length);
      result, source, target, out := NSConvertUTF16toUTF8(chars, 0, len, buf, 0, bufLen);
      ExhaustedExactly(EmitUtf8, Chars(units), Chars(units[..source]), out, bufLen, result == TargetExhausted);
      if result == TargetExhausted {
        bufLen := bufLen * 2;
      } else {
        SpliceRead(was, 0, out);
        return buf[..target];
      }
    }
  }

  lemma NothingToEncode(units: seq<UTF16>)
    ensures units == [] ==> FlatMap(EmitUtf8, Chars(units)) == []
  {
  }

  lemma BuffersAreFine(len: nat, sourceLength: nat, bufLen: nat, targetLength: nat)
    requires len <= sourceLength && bufLen <= targetLength
    ensures InBuffers(0, len, sourceLength, 0, bufLen, targetLength)
  {
  }

  // What NSInitStringWithData decodes: the data, and its appended NUL where the last sequence lacks one byte.
  function DecodedText(data: seq<UTF8>): seq<UTF8> {
    if LacksOneByte(data) then data + [0] else data
  }

  // NSInitStringWithData, case NSUTF8StringEncoding. Room for one unit per byte always suffices;
  // so the only exception is the one for a source that ends inside a sequence.
  method InitStringWithUtf8(data: seq<UTF8>) returns (r: Result<seq<UTF16>>)
    ensures r == Decoding(data)
  {
    hide *;
    var len := |data|;
    var buf := new UTF8[len + 1](i => if 0 <= i < len then data[i] else 0);
    var buf16 := new UTF16[len + 1];
    ghost var was := buf16[..];
    TextOfData(buf[..], data);
    BuffersAreFine(len, buf.Length, len, buf16.Length);
    var result, source, target;
    ghost var read, out;
    result, source, target, read, out := NSConvertUTF8toUTF16(buf, 0, len, buf16, 0, len);
    Outcome(data, source, read, out, result);
    if result == TargetExhausted {
      return Failure(TargetExhausted);
    } else if result == SourceExhausted {
      return Failure(SourceExhausted);
    } else {
      SpliceRead(was, 0, out);
      return Success(buf16[..target]);
    }
  }

  // The outcome as a function of the data alone.
  function Decoding(data: seq<UTF8>): Result<seq<UTF16>> {
    var text := DecodedText(data);
    if Complete(text) == |text| then Success(FlatMap(EmitUtf16, Decode(text))) else Failure(SourceExhausted)
  }

  lemma TextOfData(mem: seq<UTF8>, data: seq<UTF8>)
    requires |mem| == |data| + 1 && mem[..|data|] == data && mem[|data|] == 0
    ensures mem[0..|data|] == data && TextOf(mem, 0, |data|) == DecodedText(data) && IsText(DecodedText(data), data)
  {
  }

  lemma Outcome(data: seq<UTF8>, i: int, read: seq<UCS4>, out: seq<UTF16>, result: ConversionResult)
    requires IsText(DecodedText(data), data)
    requires Decoded(EmitUtf16, DecodedText(data), i, read, out, |data|, result)
    ensures result != TargetExhausted && |out| <= |data|
    ensures Decoding(data) == if result == Ok then Success(out) else Failure(SourceExhausted)
  {
    TextFits(DecodedText(data), data);
    ExhaustedExactly(EmitUtf16, Decode(DecodedText(data)), read, out, |data|, result == TargetExhausted);
  }

  // ---------------------------------------------------------------- through both methods

  // Every string comes back from its UTF-8 data, unpaired surrogates included.
  lemma StringsSurvive(us: seq<UTF16>)
    ensures Decoding(FlatMap(EmitUtf8, Chars(us))) == Success(us)
  {
    UnitsSurviveUtf8(us);
  }

  // Data comes back from the string it makes if and only if it is the encoding of UTF-16 characters, unpaired
  // surrogates included, but none that would pair with the next one.
  lemma ExactlyEncodingsSurvive(data: seq<UTF8>)
    ensures Decoding(data).Success? && FlatMap(EmitUtf8, Chars(Decoding(data).value)) == data
       <==> exists cs :: AtMost(cs, MAXIMUM_UTF16) && NoHighLow(cs) && data == FlatMap(EmitUtf8, cs)
  {
    hide EmitUtf8, EmitUtf16, Chars, Decode, Complete, NoHighLow;
    if Decoding(data).Success? && FlatMap(EmitUtf8, Chars(Decoding(data).value)) == data {
      CharsAreUtf16(Decoding(data).value);
    }
    if cs :| AtMost(cs, MAXIMUM_UTF16) && NoHighLow(cs) && data == FlatMap(EmitUtf8, cs) {
      Utf16IsUcs4(cs);
      DecodeOfEncoding(cs);
      Ucs4SurvivesUnits(cs);
      NothingMissing(data);
    }
  }

  lemma Utf16IsUcs4(cs: seq<UCS4>)
    requires AtMost(cs, MAXIMUM_UTF16)
    ensures AtMost(cs, MAXIMUM_UCS4)
  {
  }

  lemma NothingMissing(data: seq<UTF8>)
    requires Complete(data) == |data|
    ensures DecodedText(data) == data
  {
  }

  // So data of valid UTF-8 comes back from the string it makes.
  lemma ValidDataSurvives(data: seq<UTF8>)
    requires IsUtf8(data)
    ensures Decoding(data).Success? && FlatMap(EmitUtf8, Chars(Decoding(data).value)) == data
  {
    ValidIsEncoding(data);
    ScalarsHaveNoFalsePair(Decode(data));
    ExactlyEncodingsSurvive(data);
  }

  lemma ScalarsHaveNoFalsePair(cs: seq<UCS4>)
    requires AllScalar(cs)
    ensures AtMost(cs, MAXIMUM_UTF16) && NoHighLow(cs)
  {
  }

  // Data cut inside its last character is refused exactly when two or more bytes are missing.
  lemma CutInsideCharacter(cs: seq<UCS4>, c: UCS4, k: nat)
    requires AtMost(cs, MAXIMUM_UCS4) && c <= MAXIMUM_UCS4 && 0 < k < |Utf8Of(c)|
    ensures Decoding(FlatMap(EmitUtf8, cs) + Utf8Of(c)[..k]).Failure? <==> k + 1 < |Utf8Of(c)|
  {
    var whole, part := FlatMap(EmitUtf8, cs), Utf8Of(c)[..k];
    DecodeOfEncoding(cs);
    DecodeOfUtf8(c);
    assert part[0] == Utf8Of(c)[0];
    UnfinishedConcat(whole, part);
    DecodeConcat(whole, part);
    assert Complete(part) == 0 && Unfinished(part) == part;
    hide Utf8Of, DecodeSequence;
    if k + 1 == |Utf8Of(c)| {
      TextIsFinished((whole + part) + [0], whole + part);
    }
  }

  // So a two byte character that has lost its second byte turns into another character.
  lemma LostByteGoesUnnoticed()
    ensures Utf8Of(0xE9) == [0xC3, 0xA9] && Decoding([0xC3]) == Success([0x40])
  {
    var data: seq<UTF8> := [0xC3];
    assert Unfinished(data) == data && LacksOneByte(data);
    var text: seq<UTF8> := [0xC3, 0];
    assert DecodedText(data) == text;
    RawRows(text);
    assert DecodeSequence(text) == 0x40;
    DecodeOne(text);
    FlatMapOne(EmitUtf16, 0x40);
  }
}
