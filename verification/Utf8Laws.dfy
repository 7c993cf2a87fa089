// The UTF-8 encoder and decoder undo each other, on exactly the character numbers of 31 bits.

module Utf8Laws {
  import opened Sequences
  import opened Unicode
  import opened CvtUtf
  import opened SurrogateLaws

  // ---------------------------------------------------------------- one character

  // The drop-through sums of one to six bytes.
  function Sum1(a: UTF8): UCS4 {
    AddTo(0, a)
  }

  function Sum2(a: UTF8, b: UTF8): UCS4 {
    AddTo(Shift6(AddTo(0, a)), b)
  }

  function Sum3(a: UTF8, b: UTF8, c: UTF8): UCS4 {
    AddTo(Shift6(AddTo(Shift6(AddTo(0, a)), b)), c)
  }

  function Sum4(a: UTF8, b: UTF8, c: UTF8, d: UTF8): UCS4 {
    AddTo(Shift6(AddTo(Shift6(AddTo(Shift6(AddTo(0, a)), b)), c)), d)
  }

  function Sum5(a: UTF8, b: UTF8, c: UTF8, d: UTF8, e: UTF8): UCS4 {
    AddTo(Shift6(AddTo(Shift6(AddTo(Shift6(AddTo(Shift6(AddTo(0, a)), b)), c)), d)), e)
  }

  function Sum6(a: UTF8, b: UTF8, c: UTF8, d: UTF8, e: UTF8, f: UTF8): UCS4 {
    AddTo(Shift6(AddTo(Shift6(AddTo(Shift6(AddTo(Shift6(AddTo(Shift6(AddTo(0, a)), b)), c)), d)), e)), f)
  }

  lemma RawRows(bs: seq<UTF8>)
    ensures |bs| == 1 ==> Raw(bs) == Sum1(bs[0])
    ensures |bs| == 2 ==> Raw(bs) == Sum2(bs[0], bs[1])
    ensures |bs| == 3 ==> Raw(bs) == Sum3(bs[0], bs[1], bs[2])
    ensures |bs| == 4 ==> Raw(bs) == Sum4(bs[0], bs[1], bs[2], bs[3])
    ensures |bs| == 5 ==> Raw(bs) == Sum5(bs[0], bs[1], bs[2], bs[3], bs[4])
    ensures |bs| == 6 ==> Raw(bs) == Sum6(bs[0], bs[1], bs[2], bs[3], bs[4], bs[5])
  {
    RawEmpty([]);
    hide AddTo, Shift6;
    if bs != [] { RawRows(bs[..|bs| - 1]); }
  }

  // The table, row by row of 32 bytes.
  lemma LengthsByRow(b: UTF8)
    ensures b >> 5 <= 5 ==> BytesFromUTF8(b) == 0
    ensures b >> 5 == 6 ==> BytesFromUTF8(b) == 1
    ensures b >> 5 == 7 ==> BytesFromUTF8(b) == if b & 0x10 == 0 then 2 else if b & 8 == 0 then 3 else if b & 4 == 0 then 4 else 5
  {
  }

  // A check of the table: each offset is what the marker bits of its length add up to; the last one only
  // modulo 2^32. The decoding lemmas below compute with the offsets themselves.
  lemma OffsetsAreMarkers(markers: seq<UTF8>)
    requires 1 <= |markers| <= 6 && markers[0] == FIRST_BYTE_MARK[|markers|]
    requires forall i :: 1 <= i < |markers| ==> markers[i] == 0x80
    ensures TakeOff(Raw(markers), |markers| - 1) == 0
  {
    RawRows(markers);
  }

  lemma Decode1(c: UCS4)
    requires c < 0x80
    ensures TakeOff(Sum1(c as UTF8), 0) == c
  {
  }

  lemma Decode2(c: UCS4)
    requires 0x80 <= c < 0x800
    ensures TakeOff(Sum2((0xC0 | (c >> 6)) as UTF8, Trail(c)), 1) == c
  {
  }

  lemma Decode3(c: UCS4)
    requires 0x800 <= c < 0x10000
    ensures TakeOff(Sum3((0xE0 | (c >> 12)) as UTF8, Trail(c >> 6), Trail(c)), 2) == c
  {
  }

  lemma Decode4(c: UCS4)
    requires 0x10000 <= c < 0x200000
    ensures TakeOff(Sum4((0xF0 | (c >> 18)) as UTF8, Trail(c >> 12), Trail(c >> 6), Trail(c)), 3) == c
  {
  }

  // The longer rows with the sums written out.
  lemma Row5(c: UCS4)
    requires 0x200000 <= c < 0x4000000
    ensures AddTo(Shift6(AddTo(Shift6(AddTo(Shift6(AddTo(Shift6(AddTo(0, (0xF8 | (c >> 24)) as UTF8)), Trail(c >> 18))),
                  Trail(c >> 12))), Trail(c >> 6))), Trail(c)) - 0xFA082080 == c
  {
  }

  lemma Row6(c: UCS4)
    requires 0x4000000 <= c <= MAXIMUM_UCS4
    ensures AddTo(Shift6(AddTo(Shift6(AddTo(Shift6(AddTo(Shift6(AddTo(Shift6(AddTo(0, (0xFC | (c >> 30)) as UTF8)),
                  Trail(c >> 24))), Trail(c >> 18))), Trail(c >> 12))), Trail(c >> 6))), Trail(c)) - 0x82082080 == c
  {
  }

  lemma Decode5(c: UCS4)
    requires 0x200000 <= c < 0x4000000
    ensures TakeOff(Sum5((0xF8 | (c >> 24)) as UTF8, Trail(c >> 18), Trail(c >> 12), Trail(c >> 6), Trail(c)), 4) == c
  {
    hide AddTo, Shift6, Trail;
    Row5(c);
  }

  lemma Decode6(c: UCS4)
    requires 0x4000000 <= c <= MAXIMUM_UCS4
    ensures TakeOff(Sum6((0xFC | (c >> 30)) as UTF8, Trail(c >> 24), Trail(c >> 18), Trail(c >> 12), Trail(c >> 6), Trail(c)),
                    5) == c
  {
    hide AddTo, Shift6, Trail;
    Row6(c);
  }

  lemma LeadGivesLength(c: UCS4)
    requires c <= MAXIMUM_UCS4
    ensures IsSequence(Utf8Of(c))
  {
  }

  // The shift-and-subtract decoder gives back the character of every row of the table.
  lemma DecodeOfUtf8(c: UCS4)
    requires c <= MAXIMUM_UCS4
    ensures IsSequence(Utf8Of(c)) && DecodeSequence(Utf8Of(c)) == c
  {
    hide Sum1, Sum2, Sum3, Sum4, Sum5, Sum6, Trail, Raw, TakeOff, BytesFromUTF8, SequenceLength;
    LeadGivesLength(c);
    RawRows(Utf8Of(c));
    if c < 0x80 { Decode1(c); }
    else if c < 0x800 { Decode2(c); }
    else if c < 0x10000 { Decode3(c); }
    else if c < 0x200000 { Decode4(c); }
    else if c < 0x4000000 { Decode5(c); }
    else { Decode6(c); }
  }

  // Decoding undoes encoding, for every sequence of character numbers of the UCS-4 range.
  lemma {:induction false} DecodeOfEncoding(cs: seq<UCS4>)
    requires AtMost(cs, MAXIMUM_UCS4)
    ensures Decode(FlatMap(EmitUtf8, cs)) == cs
    ensures Complete(FlatMap(EmitUtf8, cs)) == |FlatMap(EmitUtf8, cs)|
  {
    hide Utf8Of, DecodeSequence;
    if cs != [] {
      DecodeOfEncoding(cs[1..]);
      DecodeOfUtf8(cs[0]);
      DecodeOne(EmitUtf8(cs[0]));
      DecodeConcat(EmitUtf8(cs[0]), FlatMap(EmitUtf8, cs[1..]));
      hide Decode, Complete;
    }
  }

  // Only the lead byte of a character is no continuation byte.
  lemma EmittedBytes(c: UCS4)
    ensures |EmitUtf8(c)| <= 6 && !IsTail(EmitUtf8(c)[0])
    ensures forall i :: 1 <= i < |EmitUtf8(c)| ==> IsTail(EmitUtf8(c)[i])
  {
    if c <= MAXIMUM_UCS4 { EncodedBytes(c); }
  }

  lemma EncodedBytes(c: UCS4)
    requires c <= MAXIMUM_UCS4
    ensures !IsTail(Utf8Of(c)[0]) && forall i :: 1 <= i < |Utf8Of(c)| ==> IsTail(Utf8Of(c)[i])
  {
    hide Trail;
    TrailIsTail(c);
    TrailIsTail(c >> 6);
    TrailIsTail(c >> 12);
    TrailIsTail(c >> 18);
    TrailIsTail(c >> 24);
  }

  lemma TrailIsTail(c: UCS4)
    ensures IsTail(Trail(c))
  {
  }

  lemma SixBytes(c: UCS4)
    requires c > MAXIMUM_UCS4
    ensures SequenceLength(EmitUtf8(c)[0]) == 6
  {
  }

  // So a byte of a text that is none starts the encoding of one of its characters.
  lemma {:induction false} LeadStartsCharacter(cs: seq<UCS4>, k: nat)
    requires k < |FlatMap(EmitUtf8, cs)| && !IsTail(FlatMap(EmitUtf8, cs)[k])
    ensures exists c :: EmitUtf8(c) <= FlatMap(EmitUtf8, cs)[k..]
  {
    hide EmitUtf8, IsTail;
    var bytes, rest := EmitUtf8(cs[0]), FlatMap(EmitUtf8, cs[1..]);
    EmittedBytes(cs[0]);
    if k == 0 {
      assert EmitUtf8(cs[0]) <= (bytes + rest)[0..];
    } else {
      assert k >= |bytes|;
      LeadStartsCharacter(cs[1..], k - |bytes|);
      assert (bytes + rest)[k..] == rest[k - |bytes|..];
    }
  }

  // The first character of a text read from within: one byte, or a whole encoding, or six bytes.
  lemma FirstFromWithin(cs: seq<UCS4>, k: nat)
    requires k < |FlatMap(EmitUtf8, cs)|
    requires StartsWithSequence(FlatMap(EmitUtf8, cs)[k..])
    ensures var t := FlatMap(EmitUtf8, cs)[k..];
            var n := SequenceLength(t[0]);
            var c := DecodeSequence(t[..n]);
            && (IsTail(t[0]) ==> n == 1 && |EmitUtf8(c)| == 2)
            && (!IsTail(t[0]) ==> |EmitUtf8(c)| <= n)
  {
    hide EmitUtf8, FlatMap, DecodeSequence, SequenceLength, Utf8Of;
    var t := FlatMap(EmitUtf8, cs)[k..];
    if t[0] < 0xC0 {
      LoneByte(t);
    } else {
      LeadStartsCharacter(cs, k);
      var c :| EmitUtf8(c) <= t;
      EmittedBytes(c);
      EmittedBytes(DecodeSequence(t[..SequenceLength(t[0])]));
      if c <= MAXIMUM_UCS4 {
        DecodeOfUtf8(c);
        assert t[..|EmitUtf8(c)|] == EmitUtf8(c) == Utf8Of(c) by { WithinUcs4(c); }
      } else {
        SixBytes(c);
      }
    }
  }

  lemma WithinUcs4(c: UCS4)
    requires c <= MAXIMUM_UCS4
    ensures EmitUtf8(c) == Utf8Of(c)
  {
  }

  lemma LoneByte(t: seq<UTF8>)
    requires t != [] && t[0] < 0xC0
    ensures SequenceLength(t[0]) == 1
    ensures |EmitUtf8(DecodeSequence(t[..1]))| == if IsTail(t[0]) then 2 else 1
  {
    RawRows(t[..1]);
  }

  // A text read from its third byte on, or further behind, never reads as the text itself: the reader
  // would have to catch up byte by byte, and the last two bytes cannot be caught up with.
  lemma {:induction false} NeverCatchesUp(cs: seq<UCS4>, k: nat)
    requires 2 <= k <= |FlatMap(EmitUtf8, cs)|
    ensures Decode(FlatMap(EmitUtf8, cs)[k..]) != cs
  {
    hide EmitUtf8, Decode, DecodeSequence, SequenceLength, IsTail, StartsWithSequence, FlatMap;
    var s := FlatMap(EmitUtf8, cs);
    var t := s[k..];
    Unfold(t);
    NothingComplete(t);
    EncodingSplits(cs);
    if StartsWithSequence(t) {
      var n, c := SequenceLength(t[0]), DecodeSequence(t[..SequenceLength(t[0])]);
      var more, bytes := FlatMap(EmitUtf8, cs[1..]), EmitUtf8(cs[0]);
      FirstFromWithin(cs, k);
      if c == cs[0] {
        assert k == |bytes| ==> t[0] == more[0];
        if k == 2 && IsTail(t[0]) {
          NextStarts(cs[1..]);
        } else {
          NeverCatchesUp(cs[1..], k + n - |bytes|);
          DropDrop(bytes, more, k, n);
        }
      }
    }
  }

  lemma EncodingSplits(cs: seq<UCS4>)
    ensures cs == [] ==> FlatMap(EmitUtf8, cs) == []
    ensures cs != [] ==> FlatMap(EmitUtf8, cs) == EmitUtf8(cs[0]) + FlatMap(EmitUtf8, cs[1..])
  {
    hide EmitUtf8;
  }

  lemma NextStarts(cs: seq<UCS4>)
    ensures FlatMap(EmitUtf8, cs) != [] ==> !IsTail(FlatMap(EmitUtf8, cs)[0])
  {
    hide IsTail, EmitUtf8;
    if cs != [] { EmittedBytes(cs[0]); }
  }

  // Decoding undoes encoding on exactly the character numbers of 31 bits: once the two bytes 0xFF 0xBD
  // stand for a character, they swallow the next four, and the rest never makes up for these.
  lemma {:induction false} DecodingUndoesEncoding(cs: seq<UCS4>)
    ensures Decode(FlatMap(EmitUtf8, cs)) == cs <==> AtMost(cs, MAXIMUM_UCS4)
  {
    if AtMost(cs, MAXIMUM_UCS4) {
      DecodeOfEncoding(cs);
    } else {
      var c, more := cs[0], FlatMap(EmitUtf8, cs[1..]);
      if c <= MAXIMUM_UCS4 {
        OneBeyond(cs);
        DecodingUndoesEncoding(cs[1..]);
        DecodeOfUtf8(c);
        DecodeOne(Utf8Of(c));
        DecodeConcat(Utf8Of(c), more);
        WithinUcs4(c);
        hide Decode, Complete, EmitUtf8, AtMost, Utf8Of, DecodeSequence;
      } else {
        SwallowsFour(c, more);
        if |more| >= 4 { NeverCatchesUp(cs[1..], 4); }
      }
    }
  }

  lemma OneBeyond(cs: seq<UCS4>)
    requires cs != [] && !AtMost(cs, MAXIMUM_UCS4) && cs[0] <= MAXIMUM_UCS4
    ensures !AtMost(cs[1..], MAXIMUM_UCS4)
  {
    var i :| 0 <= i < |cs| && !(cs[i] <= MAXIMUM_UCS4);
    assert cs[1..][i - 1] == cs[i];
  }

  lemma SwallowsFour(c: UCS4, more: seq<UTF8>)
    requires c > MAXIMUM_UCS4
    ensures |more| < 4 ==> Decode(EmitUtf8(c) + more) == []
    ensures |more| >= 4 ==> exists x :: Decode(EmitUtf8(c) + more) == [x] + Decode(more[4..])
  {
    hide Decode, DecodeSequence;
    var t := EmitUtf8(c) + more;
    assert t[0] == 0xFF;
    Unfold(t);
    if |more| >= 4 { assert t[6..] == more[4..]; }
  }

  // Beyond it the two bytes written in place of a character are not even a complete sequence.
  lemma EncodingBeyondUcs4(c: UCS4)
    ensures Decode(EmitUtf8(c)) == [c] <==> c <= MAXIMUM_UCS4
    ensures c > 0x7FFFFFFF ==> EmitUtf8(c) == [0xFF, 0xBD] && Unfinished(EmitUtf8(c)) == EmitUtf8(c)
    ensures EmitUtf8(0xFFFD) == [0xEF, 0xBF, 0xBD]
  {
    if c <= MAXIMUM_UCS4 {
      DecodeOfUtf8(c);
      DecodeOne(EmitUtf8(c));
    } else {
      assert EmitUtf8(c) == [0xFF, 0xBD] && !StartsWithSequence(EmitUtf8(c));
    }
  }

  // ---------------------------------------------------------------- UTF-16 to UTF-8 and back

  lemma CharsAreUtf16(us: seq<UTF16>)
    ensures AtMost(Chars(us), MAXIMUM_UTF16) && AtMost(Chars(us), MAXIMUM_UCS4) && NoHighLow(Chars(us))
  {
    PairImage(Widen(us));
  }

  // NSConvertUTF16toUTF8 and NSConvertUTF8toUTF16 give every unit sequence back, unpaired surrogates included.
  lemma UnitsSurviveUtf8(us: seq<UTF16>)
    ensures var bytes := FlatMap(EmitUtf8, Chars(us));
            Complete(bytes) == |bytes| && FlatMap(EmitUtf16, Decode(bytes)) == us
  {
    CharsAreUtf16(us);
    DecodeOfEncoding(Chars(us));
    UnitsSurviveUcs4(us);
    FlatMapEmitOne(Chars(us));
  }

  // ---------------------------------------------------------------- surrogate cells

  lemma {:induction false} CellsOfUtf16(cs: seq<UCS4>)
    requires AtMost(cs, MAXIMUM_UTF16)
    ensures FlatMap(EmitCells, cs) == FlatMap(CellsOf, cs)
  {
    if cs != [] { CellsOfUtf16(cs[1..]); }
  }

  // ConvertUTF8toUCS4 on encoder output yields the original units as cells,
  // and ConvertUCS4toUTF8 on those yields the same bytes again.
  lemma SurrogateCellsCancel(us: seq<UTF16>)
    ensures var bytes := FlatMap(EmitUtf8, Chars(us));
            FlatMap(EmitCells, Decode(bytes)) == Widen(us) && FlatMap(EmitUtf8, Pair(Widen(us))) == bytes
  {
    CharsAreUtf16(us);
    DecodeOfEncoding(Chars(us));
    CellsOfUtf16(Chars(us));
    SplitUndoesPair(Widen(us));
  }

  // Through UTF-8, the elements of a UCS-4 text come back from ConvertUTF8toUCS4 exactly where all of them
  // are cells: any other of the range comes back as two.
  lemma ExactlyCellsSurvive(cs: seq<UCS4>)
    requires AtMost(cs, MAXIMUM_UCS4)
    ensures FlatMap(EmitCells, Decode(FlatMap(EmitUtf8, Pair(cs)))) == cs <==> AreCells(cs)
  {
    hide Pair, EmitCells, EmitUtf8, Decode;
    PairKeepsRange(cs);
    DecodeOfEncoding(Pair(cs));
    CellsGrow(cs);
    if AreCells(cs) {
      PairImage(cs);
      CellsOfUtf16(Pair(cs));
      SplitUndoesPair(cs);
    }
  }

  lemma PairedRange(high: UCS4, low: UCS4)
    requires IsHigh(high) && IsLow(low)
    ensures 0x10000 <= Combine(high, low) <= MAXIMUM_UTF16 && |EmitCells(Combine(high, low))| == 2
  {
    CombineThenSplit(high, low);
  }

  lemma {:induction false} PairKeepsRange(cs: seq<UCS4>)
    requires AtMost(cs, MAXIMUM_UCS4)
    ensures AtMost(Pair(cs), MAXIMUM_UCS4)
  {
    hide Combine, EmitCells, IsHigh, IsLow;
    if StartsWithPair(cs) {
      PairedRange(cs[0], cs[1]);
      PairKeepsRange(cs[2..]);
    } else if cs != [] {
      PairKeepsRange(cs[1..]);
    }
  }

  lemma {:induction false} CellsGrow(cs: seq<UCS4>)
    requires AtMost(cs, MAXIMUM_UCS4)
    ensures |FlatMap(EmitCells, Pair(cs))| >= |cs|
    ensures |FlatMap(EmitCells, Pair(cs))| == |cs| ==> AreCells(cs)
  {
    hide Combine, EmitCells, IsHigh, IsLow;
    if StartsWithPair(cs) {
      PairedRange(cs[0], cs[1]);
      CellsGrow(cs[2..]);
      SurrogatesAreCells(cs[0], cs[1]);
    } else if cs != [] {
      OneOrTwoCells(cs[0]);
      CellsGrow(cs[1..]);
    }
  }

  lemma SurrogatesAreCells(high: UCS4, low: UCS4)
    requires IsHigh(high) && IsLow(low)
    ensures high <= 0xFFFF && low <= 0xFFFF
  {
  }

  lemma OneOrTwoCells(c: UCS4)
    requires c <= MAXIMUM_UCS4
    ensures |EmitCells(c)| == if c <= 0xFFFF then 1 else 2
  {
  }
}
