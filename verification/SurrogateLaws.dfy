// Pairing and splitting surrogates undo each other, on exactly the texts where they can.

module SurrogateLaws {
  import opened Sequences
  import opened Unicode
  import opened CvtUtf

  lemma CombineThenSplit(high: UCS4, low: UCS4)
    requires IsHigh(high) && IsLow(low)
    ensures 0x10000 <= Combine(high, low) <= MAXIMUM_UTF16 && CellsOf(Combine(high, low)) == [high, low]
  {
  }

  lemma HalvesCombine(c: UCS4)
    requires 0x10000 <= c <= MAXIMUM_UTF16
    ensures IsHigh(0xD800 + ((c - 0x10000) >> 10)) && IsLow(0xDC00 + ((c - 0x10000) & 0x3FF))
    ensures Combine(0xD800 + ((c - 0x10000) >> 10), 0xDC00 + ((c - 0x10000) & 0x3FF)) == c
  {
  }

  lemma SplitThenCombine(c: UCS4)
    requires 0x10000 <= c <= MAXIMUM_UTF16
    ensures StartsWithPair(CellsOf(c)) && |CellsOf(c)| == 2 && Combine(CellsOf(c)[0], CellsOf(c)[1]) == c
  {
    hide Combine;
    HalvesCombine(c);
  }

  // Splitting undoes pairing: no cell is lost, unpaired surrogates included.
  lemma {:induction false} SplitUndoesPair(cells: seq<UCS4>)
    requires AreCells(cells)
    ensures FlatMap(CellsOf, Pair(cells)) == cells
    decreases |cells|
  {
    hide Combine;
    if StartsWithPair(cells) {
      SplitUndoesPair(cells[2..]);
      CombineThenSplit(cells[0], cells[1]);
      assert cells == [cells[0], cells[1]] + cells[2..];
    } else if cells != [] {
      SplitUndoesPair(cells[1..]);
    }
  }

  // A low surrogate opens the paired text only if it opened the cells.
  lemma PairKeepsFirst(cells: seq<UCS4>)
    requires AreCells(cells) && cells != []
    ensures Pair(cells) != [] && (IsLow(Pair(cells)[0]) ==> IsLow(cells[0]))
  {
    hide Combine;
    if StartsWithPair(cells) { CombineThenSplit(cells[0], cells[1]); }
  }

  // What pairing yields: UTF-16 characters without a high surrogate in front of a low one.
  lemma {:induction false} PairImage(cells: seq<UCS4>)
    requires AreCells(cells)
    ensures AtMost(Pair(cells), MAXIMUM_UTF16) && NoHighLow(Pair(cells))
    decreases |cells|
  {
    hide Combine;
    if cells != [] {
      var rest := cells[Width(cells)..];
      PairImage(rest);
      var c := First(cells);
      assert Pair(cells) == [c] + Pair(rest);
      if StartsWithPair(cells) { CombineThenSplit(cells[0], cells[1]); }
      if rest != [] { PairKeepsFirst(rest); }
      PrependKeepsNoHighLow(c, Pair(rest));
    }
  }

  lemma PrependKeepsNoHighLow(c: UCS4, cs: seq<UCS4>)
    requires NoHighLow(cs) && (cs == [] || !IsHigh(c) || !IsLow(cs[0]))
    ensures NoHighLow([c] + cs)
  {
    forall i | 0 <= i < |[c] + cs| - 1 ensures !(IsHigh(([c] + cs)[i]) && IsLow(([c] + cs)[i + 1])) {
      if i > 0 { assert ([c] + cs)[i] == cs[i - 1] && ([c] + cs)[i + 1] == cs[i]; }
    }
  }

  lemma DropKeepsNoHighLow(cs: seq<UCS4>)
    requires cs != [] && NoHighLow(cs)
    ensures NoHighLow(cs[1..])
    ensures |cs| > 1 ==> !(IsHigh(cs[0]) && IsLow(cs[1]))
  {
    forall i | 0 <= i < |cs[1..]| - 1 ensures !(IsHigh(cs[1..][i]) && IsLow(cs[1..][i + 1])) {
      assert cs[1..][i] == cs[i + 1];
    }
    if |cs| > 1 { assert !(IsHigh(cs[0]) && IsLow(cs[0 + 1])); }
  }

  // Pairing undoes splitting, where the characters leave no false pair behind.
  lemma {:induction false} PairUndoesSplit(cs: seq<UCS4>)
    requires AtMost(cs, MAXIMUM_UTF16) && NoHighLow(cs)
    ensures Pair(FlatMap(CellsOf, cs)) == cs
  {
    if cs != [] {
      DropKeepsNoHighLow(cs);
      PairUndoesSplit(cs[1..]);
      PairOfCells(cs[0]);
      SplitCutsCleanly(cs);
      PairConcat(CellsOf(cs[0]), FlatMap(CellsOf, cs[1..]));
    }
  }

  lemma PairOfCells(c: UCS4)
    requires c <= MAXIMUM_UTF16
    ensures Pair(CellsOf(c)) == [c]
  {
    hide Combine;
    if c < 0x10000 {
      assert CellsOf(c)[1..] == [];
    } else {
      SplitThenCombine(c);
      assert CellsOf(c)[2..] == [];
    }
  }

  lemma SplitCutsCleanly(cs: seq<UCS4>)
    requires cs != [] && AtMost(cs, MAXIMUM_UTF16) && NoHighLow(cs)
    ensures CleanCut(CellsOf(cs[0]), FlatMap(CellsOf, cs[1..]))
  {
    if |cs| > 1 {
      DropKeepsNoHighLow(cs);
      assert cs[1..][0] == cs[1];
      if 0x10000 <= cs[0] { SplitThenCombine(cs[0]); }
      if 0x10000 <= cs[1] { SplitThenCombine(cs[1]); }
    }
  }

  // ---------------------------------------------------------------- UTF-16 output

  lemma {:induction false} WidenedUnits(cs: seq<UCS4>)
    requires AtMost(cs, MAXIMUM_UTF16)
    ensures Widen(FlatMap(EmitUtf16, cs)) == FlatMap(CellsOf, cs)
  {
    if cs == [] {
      assert Widen([]) == [];
    } else {
      WidenedUnits(cs[1..]);
      UnitsAreCells(cs[0]);
      WidenConcat(EmitUtf16(cs[0]), FlatMap(EmitUtf16, cs[1..]));
    }
  }

  // ConvertUTF16toUCS4 and ConvertUCS4toUTF16, in this order, give every unit sequence back.
  lemma UnitsSurviveUcs4(us: seq<UTF16>)
    ensures FlatMap(EmitUtf16, FlatMap(EmitOne, Chars(us))) == us
  {
    FlatMapEmitOne(Chars(us));
    PairImage(Widen(us));
    WidenedUnits(Chars(us));
    SplitUndoesPair(Widen(us));
    WidenInjective(FlatMap(EmitUtf16, Chars(us)), us);
  }

  // In the other order exactly the sequences of UTF-16 characters without a false pair come back.
  lemma Ucs4SurvivesUnits(cs: seq<UCS4>)
    ensures Chars(FlatMap(EmitUtf16, cs)) == cs <==> AtMost(cs, MAXIMUM_UTF16) && NoHighLow(cs)
  {
    if AtMost(cs, MAXIMUM_UTF16) && NoHighLow(cs) {
      WidenedUnits(cs);
      PairUndoesSplit(cs);
    }
    PairImage(Widen(FlatMap(EmitUtf16, cs)));
  }

  // ---------------------------------------------------------------- beyond UTF-16

  // The character that comes out for one that UTF-16 cannot represent.
  function Replaced(cs: seq<UCS4>): (r: seq<UCS4>)
    ensures |r| == |cs|
  {
    seq(|cs|, i requires 0 <= i < |cs| => ReplacedOne(cs[i]))
  }

  function ReplacedOne(c: UCS4): UCS4 { if c <= 0x10FFFF then c else 0xFFFD }

  lemma ReplacedIsEmitted(c: UCS4)
    ensures EmitUtf16(c) == EmitUtf16(ReplacedOne(c)) && ReplacedOne(c) <= MAXIMUM_UTF16
    ensures (IsHigh(ReplacedOne(c)) ==> IsHigh(c)) && (IsLow(ReplacedOne(c)) ==> IsLow(c))
  {
  }

  lemma {:induction false} ReplacedAreEmitted(cs: seq<UCS4>)
    ensures FlatMap(EmitUtf16, cs) == FlatMap(EmitUtf16, Replaced(cs))
  {
    hide EmitUtf16, ReplacedOne;
    if cs != [] {
      ReplacedAreEmitted(cs[1..]);
      ReplacedIsEmitted(cs[0]);
      assert Replaced(cs)[1..] == Replaced(cs[1..]);
    }
  }

  // Every UCS-4 text comes back from UTF-16 with U+FFFD in place of exactly the values above 0x10FFFF, if it
  // has no false pair.
  lemma BeyondRangeIsReplaced(cs: seq<UCS4>)
    requires NoHighLow(cs)
    ensures Chars(FlatMap(EmitUtf16, cs)) == Replaced(cs)
  {
    hide EmitUtf16, Chars, ReplacedOne, IsHigh, IsLow;
    ReplacedAreEmitted(cs);
    forall i | 0 <= i < |cs| ensures Replaced(cs)[i] == ReplacedOne(cs[i]) <= MAXIMUM_UTF16 { ReplacedIsEmitted(cs[i]); }
    forall i | 0 <= i < |cs| - 1 ensures !(IsHigh(Replaced(cs)[i]) && IsLow(Replaced(cs)[i + 1])) {
      ReplacedIsEmitted(cs[i]);
      ReplacedIsEmitted(cs[i + 1]);
      assert !(IsHigh(cs[i]) && IsLow(cs[i + 1]));
    }
    Ucs4SurvivesUnits(Replaced(cs));
  }

  // What ConvertUTF8toUCS4 makes of a character: itself, two cells that it can be computed from, the second
  // always a low surrogate, or U+FFFD.
  lemma CellsRejoin(c: UCS4)
    ensures c <= 0xFFFF ==> EmitCells(c) == [c]
    ensures 0xFFFF < c <= 0x7FFFFFFF ==>
              && |EmitCells(c)| == 2 && IsLow(EmitCells(c)[1])
              && ((EmitCells(c)[0] - 0xD800) << 10) + (EmitCells(c)[1] - 0xDC00) + 0x10000 == c
    ensures c > 0x7FFFFFFF ==> EmitCells(c) == [0xFFFD]
  {
  }
}
