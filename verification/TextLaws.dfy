// Laws of whole texts: where encoding splits over concatenation, which texts have unpaired
// surrogates, and how much room the conversions need.

module TextLaws {
  import opened Sequences
  import opened Unicode
  import opened CvtUtf
  import opened SurrogateLaws
  import opened Utf8Laws
  import opened ShortestForm

  // ---------------------------------------------------------------- concatenation

  lemma PairKeepsHighEnd(cells: seq<UCS4>)
    requires cells != [] && IsHigh(cells[|cells| - 1])
    ensures Pair(cells) != [] && Pair(cells)[|Pair(cells)| - 1] == cells[|cells| - 1]
  {
    var p, h := cells[..|cells| - 1], cells[|cells| - 1];
    assert cells == p + [h] && [h][1..] == [];
    PairConcat(p, [h]);
  }

  lemma PairKeepsLowStart(cells: seq<UCS4>)
    requires cells != [] && IsLow(cells[0])
    ensures Pair(cells) != [] && Pair(cells)[0] == cells[0]
  {
  }

  // Encoding splits over a + b exactly when the cut does not go through a surrogate pair.
  lemma EncodingOfConcat(a: seq<UTF16>, b: seq<UTF16>)
    ensures FlatMap(EmitUtf8, Chars(a + b)) == FlatMap(EmitUtf8, Chars(a)) + FlatMap(EmitUtf8, Chars(b))
       <==> CleanCut(Widen(a), Widen(b))
  {
    var split := Chars(a) + Chars(b);
    FlatMapConcat(EmitUtf8, Chars(a), Chars(b));
    if CleanCut(Widen(a), Widen(b)) {
      WidenConcat(a, b);
      PairConcat(Widen(a), Widen(b));
    } else {
      PairKeepsHighEnd(Widen(a));
      PairKeepsLowStart(Widen(b));
      CharsAreUtf16(a);
      CharsAreUtf16(b);
      CharsAreUtf16(a + b);
      assert AtMost(split, MAXIMUM_UCS4);
      DecodeOfEncoding(split);
      DecodeOfEncoding(Chars(a + b));
      var i := |Chars(a)| - 1;
      assert IsHigh(split[i]) && IsLow(split[i + 1]);
      assert split != Chars(a + b);
    }
  }

  // ---------------------------------------------------------------- unpaired surrogates

  predicate PairedAt(cells: seq<UCS4>, i: nat)
    requires i < |cells|
  {
    && (IsHigh(cells[i]) ==> i + 1 < |cells| && IsLow(cells[i + 1]))
    && (IsLow(cells[i]) ==> i > 0 && IsHigh(cells[i - 1]))
  }

  // Every high surrogate is directly followed by a low one, and every low one directly follows a high one.
  predicate NoneUnpaired(cells: seq<UCS4>) { forall i :: 0 <= i < |cells| ==> PairedAt(cells, i) }

  lemma {:induction false} ScalarsAreNoneUnpaired(cells: seq<UCS4>)
    requires AreCells(cells)
    ensures AllScalar(Pair(cells)) <==> NoneUnpaired(cells)
    decreases |cells|
  {
    if cells != [] {
      var w := Width(cells);
      var rest := cells[w..];
      ScalarsAreNoneUnpaired(rest);
      var c := First(cells);
      assert Pair(cells) == [c] + Pair(rest);
      if StartsWithPair(cells) { CombineThenSplit(cells[0], cells[1]); }
      AllScalarCons(c, Pair(rest));
      hide Combine, Pair;
      UnpairedStep(cells);
    }
  }

  lemma AllScalarCons(c: UCS4, cs: seq<UCS4>)
    ensures AllScalar([c] + cs) <==> IsScalar(c) && AllScalar(cs)
  {
    assert ([c] + cs)[0] == c;
    if AllScalar([c] + cs) {
      forall i | 0 <= i < |cs| ensures IsScalar(cs[i]) { assert cs[i] == ([c] + cs)[i + 1]; }
    }
  }

  lemma UnpairedStep(cells: seq<UCS4>)
    requires cells != []
    ensures NoneUnpaired(cells) <==>
              (StartsWithPair(cells) || (!IsHigh(cells[0]) && !IsLow(cells[0]))) && NoneUnpaired(cells[Width(cells)..])
  {
    var w := Width(cells);
    var rest := cells[w..];
    if NoneUnpaired(cells) {
      assert PairedAt(cells, 0);
      forall i | 0 <= i < |rest| ensures PairedAt(rest, i) {
        assert PairedAt(cells, i + w) && PairedAt(cells, w - 1);
      }
    }
    if (StartsWithPair(cells) || (!IsHigh(cells[0]) && !IsLow(cells[0]))) && NoneUnpaired(rest) {
      forall i | 0 <= i < |cells| ensures PairedAt(cells, i) {
        if i >= w { assert PairedAt(rest, i - w); }
        if rest != [] { assert PairedAt(rest, 0); }
      }
    }
  }

  // A UTF-16 text encodes to valid shortest-form UTF-8 exactly when none of its surrogates is unpaired.
  lemma ValidWithoutUnpaired(us: seq<UTF16>)
    ensures IsUtf8(FlatMap(EmitUtf8, Chars(us))) <==> NoneUnpaired(Widen(us))
  {
    ValidUnlessUnpaired(us);
    ScalarsAreNoneUnpaired(Widen(us));
  }

  // ---------------------------------------------------------------- capacity

  // Three bytes per unit are always enough.
  lemma {:induction false} EncodingFits(cells: seq<UCS4>)
    requires AreCells(cells)
    ensures |FlatMap(EmitUtf8, Pair(cells))| <= 3 * |cells|
    decreases |cells|
  {
    hide Combine;
    if StartsWithPair(cells) {
      CombineThenSplit(cells[0], cells[1]);
      EncodingFits(cells[2..]);
    } else if cells != [] {
      EncodingFits(cells[1..]);
    }
  }

  lemma SmallSequences(bs: seq<UTF8>)
    requires IsSequence(bs)
    ensures |EmitUtf16(DecodeSequence(bs))| <= if |bs| <= 2 then 1 else 2
  {
    RawRows(bs);
    if |bs| == 1 { OneByte(bs[0]); }
    if |bs| == 2 { TwoBytes(bs[0], bs[1]); }
  }

  lemma OneByte(a: UTF8)
    ensures TakeOff(Sum1(a), 0) <= MAXIMUM_UCS2
  {
  }

  lemma TwoBytes(a: UTF8, b: UTF8)
    requires 0xC0 <= a < 0xE0
    ensures TakeOff(Sum2(a, b), 1) <= MAXIMUM_UCS2 || TakeOff(Sum2(a, b), 1) > MAXIMUM_UTF16
  {
  }

  // One unit per byte is always enough, malformed sequences included.
  lemma {:induction false} DecodingFits(t: seq<UTF8>)
    ensures |FlatMap(EmitUtf16, Decode(t))| <= Complete(t)
    decreases |t|
  {
    if StartsWithSequence(t) {
      var n := SequenceLength(t[0]);
      SmallSequences(t[..n]);
      DecodingFits(t[n..]);
    }
  }

  // That holds for the source alone even when the byte behind it is decoded, too.
  lemma TextFits(text: seq<UTF8>, source: seq<UTF8>)
    requires IsText(text, source)
    ensures |FlatMap(EmitUtf16, Decode(text))| <= |source|
  {
    DecodingFits(source);
    if LacksOneByte(source) {
      TextIsFinished(text, source);
      var last := Unfinished(source) + [text[|source|]];
      SmallSequences(last);
      FlatMapSnoc(EmitUtf16, Decode(source), DecodeSequence(last));
    }
  }
}
