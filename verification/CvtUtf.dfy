// The six buffer converters, as loops over arrays, and the functions that specify them.

module CvtUtf {
  import opened Sequences
  import opened Unicode

  datatype ConversionResult = Ok | SourceExhausted | TargetExhausted

  // ---------------------------------------------------------------- tables

  // bytesFromUTF8, by range of the lead byte; a stray continuation byte counts as a lone byte.
  function BytesFromUTF8(b: UTF8): nat {
    if b < 0xC0 then 0 else if b < 0xE0 then 1 else if b < 0xF0 then 2
    else if b < 0xF8 then 3 else if b < 0xFC then 4 else 5
  }

  // ch -= offsetsFromUTF8[extra]
  function TakeOff(ch: UCS4, extra: nat): UCS4
    requires extra <= 5
  {
    match extra
    case 0 => ch
    case 1 => ch - 0x00003080
    case 2 => ch - 0x000E2080
    case 3 => ch - 0x03C82080
    case 4 => ch - 0xFA082080
    case 5 => ch - 0x82082080
  }

  const FIRST_BYTE_MARK: seq<UTF8> := [0, 0, 0xC0, 0xE0, 0xF0, 0xF8, 0xFC]

  // ---------------------------------------------------------------- what one character becomes

  // UTF-8 output. Beyond the UCS-4 range the code squeezes the replacement character into two bytes.
  function EmitUtf8(c: UCS4): (bs: seq<UTF8>)
    ensures bs != []
  {
    if c <= MAXIMUM_UCS4 then Utf8Of(c) else [0xFF, 0xBD]
  }

  function EmitUtf16(c: UCS4): (us: seq<UTF16>)
    ensures us != []
  {
    if c <= MAXIMUM_UTF16 then UnitsOf(c) else [0xFFFD]
  }

  // ConvertUTF8toUCS4 stores what lies beyond the basic plane as two cells.
  function EmitCells(c: UCS4): (cells: seq<UCS4>)
    ensures cells != []
  {
    if c <= MAXIMUM_UCS4 then CellsOf(c) else [REPLACEMENT_CHARACTER]
  }

  function EmitOne(c: UCS4): (cells: seq<UCS4>)
    ensures |cells| == 1
  {
    [c]
  }

  // ---------------------------------------------------------------- reading UTF-8

  // The number of bytes the decoder takes for a sequence with lead byte b.
  function SequenceLength(b: UTF8): (n: nat)
    ensures 1 <= n <= 6
  {
    BytesFromUTF8(b) + 1
  }

  function Lift(b: UTF8): UCS4 { b as UCS4 }

  // ch += b
  function AddTo(ch: UCS4, b: UTF8): UCS4 { ch + b as UCS4 }

  // ch <<= 6
  function Shift6(ch: UCS4): UCS4 { ch << 6 }

  // Raw bytes added up, six bits apart, marker bits included.
  function Raw(bs: seq<UTF8>): UCS4 {
    if bs == [] then 0 else AddTo(Shift6(Raw(bs[..|bs| - 1])), bs[|bs| - 1])
  }

  predicate IsSequence(bs: seq<UTF8>) { bs != [] && |bs| == SequenceLength(bs[0]) }

  function DecodeSequence(bs: seq<UTF8>): UCS4
    requires IsSequence(bs)
  {
    TakeOff(Raw(bs), |bs| - 1)
  }

  predicate StartsWithSequence(t: seq<UTF8>) { t != [] && SequenceLength(t[0]) <= |t| }

  // The characters of the complete sequences of t, malformed ones included ...
  function Decode(t: seq<UTF8>): seq<UCS4> {
    if !StartsWithSequence(t) then []
    else [DecodeSequence(t[..SequenceLength(t[0])])] + Decode(t[SequenceLength(t[0])..])
  }

  // ... how many bytes these take, and the unfinished sequence behind them.
  function Complete(t: seq<UTF8>): (k: nat)
    ensures k <= |t|
  {
    if !StartsWithSequence(t) then 0 else SequenceLength(t[0]) + Complete(t[SequenceLength(t[0])..])
  }

  function Unfinished(t: seq<UTF8>): seq<UTF8> { t[Complete(t)..] }

  // The decoders' guard lets a sequence through that lacks exactly one byte,
  // and then reads the byte behind the end of the source.
  predicate LacksOneByte(t: seq<UTF8>) {
    var r := Unfinished(t);
    r != [] && |r| + 1 == SequenceLength(r[0])
  }

  // ---------------------------------------------------------------- the contract of a conversion

  // Characters all are to be converted into room elements; read of them were taken from the source.
  // Without exhaustion everything is delivered. With it the output is exactly the conversion of
  // what was read, but for the last character, which would not have fitted.
  ghost predicate Converted<B>(emit: UCS4 -> seq<B>, all: seq<UCS4>, read: seq<UCS4>, out: seq<B>,
                               room: nat, exhausted: bool)
  {
    if exhausted then
      && read != [] && read <= all
      && out == FlatMap(emit, read[..|read| - 1])
      && |out| <= room < |FlatMap(emit, read)|
    else
      read == all && out == FlatMap(emit, all) && |out| <= room
  }

  // Two conversions of the same characters into the same room agree.
  lemma ConvertedIsExact<B>(emit: UCS4 -> seq<B>, all: seq<UCS4>, room: nat,
                            read: seq<UCS4>, out: seq<B>, exhausted: bool,
                            read': seq<UCS4>, out': seq<B>, exhausted': bool)
    requires Converted(emit, all, read, out, room, exhausted) && Converted(emit, all, read', out', room, exhausted')
    ensures read == read' && out == out' && exhausted == exhausted'
  {
    hide FlatMap;
    ExhaustedExactly(emit, all, read, out, room, exhausted);
    ExhaustedExactly(emit, all, read', out', room, exhausted');
    if exhausted {
      if |read| < |read'| { FlatMapPrefix(emit, read, read'[..|read'| - 1]); }
      if |read'| < |read| { FlatMapPrefix(emit, read', read[..|read| - 1]); }
    }
  }

  // Exhaustion is reported exactly when the complete conversion does not fit.
  lemma ExhaustedExactly<B>(emit: UCS4 -> seq<B>, all: seq<UCS4>, read: seq<UCS4>, out: seq<B>,
                            room: nat, exhausted: bool)
    requires Converted(emit, all, read, out, room, exhausted)
    ensures exhausted <==> room < |FlatMap(emit, all)|
    ensures out <= FlatMap(emit, all) && (!exhausted ==> out == FlatMap(emit, all))
  {
    if exhausted {
      FlatMapPrefix(emit, read, all);
      FlatMapPrefix(emit, read[..|read| - 1], all);
    }
  }

  // ---------------------------------------------------------------- pairing, one step at a time

  lemma {:induction false} PairConcat(a: seq<UCS4>, b: seq<UCS4>)
    requires CleanCut(a, b)
    ensures Pair(a + b) == Pair(a) + Pair(b)
    decreases |a|
  {
    hide Pair, Combine, IsHigh, IsLow;
    if a == [] {
      assert a + b == b && Pair(a) == [] by { NothingToPair(); }
    } else {
      hide CleanCut, StartsWithPair;
      UnfoldPair(a);
      UnfoldPair(a + b);
      PairAcross(a, b);
      PairConcat(if StartsWithPair(a) then a[2..] else a[1..], b);
    }
  }

  // Behind a clean cut there is nothing the first character of a pairs with.
  lemma PairAcross(a: seq<UCS4>, b: seq<UCS4>)
    requires a != [] && CleanCut(a, b)
    ensures (StartsWithPair(a + b) <==> StartsWithPair(a)) && (StartsWithPair(a) ==> |a| >= 2)
    ensures StartsWithPair(a) ==>
              (a + b)[0] == a[0] && (a + b)[1] == a[1] && (a + b)[2..] == a[2..] + b && CleanCut(a[2..], b)
    ensures !StartsWithPair(a) ==> (a + b)[0] == a[0] && (a + b)[1..] == a[1..] + b && CleanCut(a[1..], b)
  {
    hide IsHigh, IsLow;
  }

  lemma NothingToPair()
    ensures Pair([]) == []
  {
  }

  lemma UnfoldPair(cells: seq<UCS4>)
    requires cells != []
    ensures Pair(cells) == if StartsWithPair(cells) then [Combine(cells[0], cells[1])] + Pair(cells[2..])
                           else [cells[0]] + Pair(cells[1..])
  {
  }

  // How many cells the next character takes, and that character.
  function Width(cells: seq<UCS4>): (w: nat)
    ensures 1 <= w <= 2
  {
    if StartsWithPair(cells) then 2 else 1
  }

  function First(cells: seq<UCS4>): UCS4
    requires cells != []
  {
    if StartsWithPair(cells) then Combine(cells[0], cells[1]) else cells[0]
  }

  lemma PairOfStep(b: seq<UCS4>)
    requires b != []
    ensures Width(b) <= |b|
    ensures Pair(b[..Width(b)]) == [First(b)]
  {
    assert b[..Width(b)][Width(b)..] == [];
  }

  lemma StepCutsCleanly(b: seq<UCS4>)
    requires b != []
    ensures CleanCut(b[..Width(b)], b[Width(b)..])
  {
  }

  lemma PairAppend(a: seq<UCS4>, b: seq<UCS4>)
    requires b != [] && CleanCut(a, b)
    ensures Width(b) <= |b|
    ensures Pair(a + b[..Width(b)]) == Pair(a) + [First(b)]
    ensures CleanCut(a + b[..Width(b)], b[Width(b)..])
  {
    PairOfStep(b);
    StepCutsCleanly(b);
    PairConcat(a, b[..Width(b)]);
  }

  lemma PairNext(cells: seq<UCS4>, i: nat)
    requires i < |cells| && CleanCut(cells[..i], cells[i..])
    ensures i + Width(cells[i..]) <= |cells|
    ensures Pair(cells[..i + Width(cells[i..])]) == Pair(cells[..i]) + [First(cells[i..])]
    ensures CleanCut(cells[..i + Width(cells[i..])], cells[i + Width(cells[i..])..])
  {
    PairAppend(cells[..i], cells[i..]);
    assert cells[..i + Width(cells[i..])] == cells[..i] + cells[i..][..Width(cells[i..])];
    assert cells[i + Width(cells[i..])..] == cells[i..][Width(cells[i..])..];
  }

  lemma PairPrefix(cells: seq<UCS4>, i: nat)
    requires i <= |cells| && CleanCut(cells[..i], cells[i..])
    ensures Pair(cells[..i]) <= Pair(cells)
  {
    assert cells == cells[..i] + cells[i..];
    PairConcat(cells[..i], cells[i..]);
  }

  // ---------------------------------------------------------------- the converters

  predicate InBuffers(sourceStart: nat, sourceEnd: nat, sourceLength: nat,
                      targetStart: nat, targetEnd: nat, targetLength: nat)
  {
    sourceStart <= sourceEnd <= sourceLength && targetStart <= targetEnd <= targetLength
  }

  // The bytes the drop-through switch leaves for ch: the last one is written first, then six bits are dropped.
  function SwitchBytes(ch: UCS4, n: nat, mark: UTF8): (bs: seq<UTF8>)
    requires n >= 1
    ensures |bs| == n
  {
    if n == 1 then [LeadByte(ch, mark)] else SwitchBytes(Down6(ch), n - 1, mark) + [TrailByte(ch)]
  }

  // ch | firstByteMark[bytesToWrite], stored in a byte
  function LeadByte(ch: UCS4, mark: UTF8): UTF8 { ((ch | Lift(mark)) & 0xFF) as UTF8 }

  // ch >>= 6
  function Down6(ch: UCS4): UCS4 { ch >> 6 }

  // (ch | byteMark) & byteMask
  function TrailByte(ch: UCS4): UTF8 { ((ch | 0x80) & 0xBF) as UTF8 }

  lemma TrailsAgree(c: UCS4)
    ensures TrailByte(c) == Trail(c)
  {
  }

  lemma LeadsAgree(c: UCS4)
    ensures c < 0x80 ==> LeadByte(c, 0) == c as UTF8
    ensures c < 0x800 ==> LeadByte(c >> 6, 0xC0) == (0xC0 | (c >> 6)) as UTF8
    ensures c < 0x10000 ==> LeadByte(c >> 12, 0xE0) == (0xE0 | (c >> 12)) as UTF8
    ensures c < 0x200000 ==> LeadByte(c >> 18, 0xF0) == (0xF0 | (c >> 18)) as UTF8
    ensures c < 0x4000000 ==> LeadByte(c >> 24, 0xF8) == (0xF8 | (c >> 24)) as UTF8
    ensures c <= MAXIMUM_UCS4 ==> LeadByte(c >> 30, 0xFC) == (0xFC | (c >> 30)) as UTF8
  {
  }

  // The same bytes, written out per length.
  function Row(ch: UCS4, n: nat, mark: UTF8): seq<UTF8>
    requires 1 <= n <= 6
  {
    match n
    case 1 => [LeadByte(ch, mark)]
    case 2 => [LeadByte(ch >> 6, mark), TrailByte(ch)]
    case 3 => [LeadByte(ch >> 12, mark), TrailByte(ch >> 6), TrailByte(ch)]
    case 4 => [LeadByte(ch >> 18, mark), TrailByte(ch >> 12), TrailByte(ch >> 6), TrailByte(ch)]
    case 5 => [LeadByte(ch >> 24, mark), TrailByte(ch >> 18), TrailByte(ch >> 12), TrailByte(ch >> 6), TrailByte(ch)]
    case 6 => [LeadByte(ch >> 30, mark), TrailByte(ch >> 24), TrailByte(ch >> 18), TrailByte(ch >> 12),
               TrailByte(ch >> 6), TrailByte(ch)]
  }

  lemma RowShift(ch: UCS4, n: nat, mark: UTF8)
    requires 2 <= n <= 6
    ensures Row(ch, n, mark) == Row(ch >> 6, n - 1, mark) + [TrailByte(ch)]
  {
    assert (ch >> 6) >> 6 == ch >> 12 && (ch >> 6) >> 12 == ch >> 18;
    assert (ch >> 6) >> 18 == ch >> 24 && (ch >> 6) >> 24 == ch >> 30;
  }

  lemma DownIsShift(ch: UCS4)
    ensures Down6(ch) == ch >> 6
  {
  }

  lemma RowStep(ch: UCS4, n: nat, mark: UTF8)
    requires 2 <= n <= 6
    ensures Row(ch, n, mark) == Row(Down6(ch), n - 1, mark) + [TrailByte(ch)]
  {
    hide *;
    DownIsShift(ch);
    RowShift(ch, n, mark);
  }

  lemma {:induction false} SwitchIsRow(ch: UCS4, n: nat, mark: UTF8)
    requires 1 <= n <= 6
    ensures SwitchBytes(ch, n, mark) == Row(ch, n, mark)
  {
    if n > 1 {
      SwitchIsRow(Down6(ch), n - 1, mark);
      RowStep(ch, n, mark);
      hide Row, TrailByte, LeadByte;
    }
  }

  // What the switch writes for a character of the range is its row of the reference table.
  lemma SwitchIsUtf8(c: UCS4)
    requires c <= MAXIMUM_UCS4
    ensures SwitchBytes(c, Utf8Length(c), FIRST_BYTE_MARK[Utf8Length(c)]) == Utf8Of(c)
  {
    hide LeadByte, TrailByte, Trail, SwitchBytes;
    LeadsAgree(c);
    TrailsAgree(c);
    TrailsAgree(c >> 6);
    TrailsAgree(c >> 12);
    TrailsAgree(c >> 18);
    TrailsAgree(c >> 24);
    SwitchIsRow(c, Utf8Length(c), FIRST_BYTE_MARK[Utf8Length(c)]);
  }

  // Of the bytes for target, only left is still to be written.
  ghost predicate Pending(now: seq<UTF8>, was: seq<UTF8>, bytes: seq<UTF8>, target: nat, left: seq<UTF8>)
    requires |left| <= |bytes| && target + |bytes| <= |was|
  {
    && |now| == |was|
    && now[..target + |left|] == was[..target + |left|]
    && bytes == left + now[target + |left|..target + |bytes|]
    && now[target + |bytes|..] == was[target + |bytes|..]
  }

  lemma PendingStep(now: seq<UTF8>, was: seq<UTF8>, bytes: seq<UTF8>, target: nat, left: seq<UTF8>, b: UTF8)
    requires |left| < |bytes| && target + |bytes| <= |was|
    requires Pending(now, was, bytes, target, left + [b])
    ensures Pending(now[target + |left| := b], was, bytes, target, left)
  {
    var t := target + |left|;
    var now' := now[t := b];
    assert now'[t..target + |bytes|] == [b] + now[t + 1..target + |bytes|];
    assert now'[..t] == now[..t + 1][..t];
  }

  // Nothing left: the target holds the bytes, everything around them is as it was.
  lemma PendingDone(now: seq<UTF8>, was: seq<UTF8>, bytes: seq<UTF8>, target: nat)
    requires target + |bytes| <= |was| && Pending(now, was, bytes, target, [])
    ensures now == Splice(was, target, bytes)
  {
    assert now == now[..target] + now[target..target + |bytes|] + now[target + |bytes|..];
  }

  lemma PendingStart(was: seq<UTF8>, bytes: seq<UTF8>, target: nat)
    requires target + |bytes| <= |was|
    ensures Pending(was, was, bytes, target, bytes)
  {
  }

  // Case k of the switch, entered when n is at least k: step back, write a continuation byte, drop six bits.
  method PutTrail(dst: array<UTF8>, n: nat, k: nat, t: nat, ch: UCS4,
                  ghost was: seq<UTF8>, ghost bytes: seq<UTF8>, ghost mark: UTF8, ghost target: nat)
    returns (t': nat, rest: UCS4)
    requires 2 <= k <= 6 && 1 <= n == |bytes| <= 6 && target + n <= |was|
    requires |was| == dst.Length && t == target + Min(n, k)
    requires Pending(dst[..], was, bytes, target, SwitchBytes(ch, Min(n, k), mark))
    modifies dst
    ensures t' == target + Min(n, k - 1)
    ensures Pending(dst[..], was, bytes, target, SwitchBytes(rest, Min(n, k - 1), mark))
  {
    hide TrailByte, Pending, Down6;
    if n < k { return t, ch; }
    t' := t - 1;
    PendingStep(dst[..], was, bytes, target, SwitchBytes(Down6(ch), k - 1, mark), TrailByte(ch));
    dst[t'] := TrailByte(ch);
    rest := Down6(ch);
  }

  // Case 1: the lead byte.
  method PutLead(dst: array<UTF8>, n: nat, t: nat, ch: UCS4,
                 ghost was: seq<UTF8>, ghost bytes: seq<UTF8>, ghost target: nat)
    requires 1 <= n == |bytes| <= 6 && target + n <= |was| == dst.Length && t == target + 1
    requires Pending(dst[..], was, bytes, target, [] + [LeadByte(ch, FIRST_BYTE_MARK[n])])
    modifies dst
    ensures dst[..] == Splice(was, target, bytes)
  {
    hide LeadByte, Pending, Splice;
    PendingStep(dst[..], was, bytes, target, [], LeadByte(ch, FIRST_BYTE_MARK[n]));
    dst[t - 1] := LeadByte(ch, FIRST_BYTE_MARK[n]);
    PendingDone(dst[..], was, bytes, target);
  }

  lemma BuffersFit(sourceStart: nat, sourceEnd: nat, sourceLength: nat,
                   targetStart: nat, targetEnd: nat, targetLength: nat)
    requires InBuffers(sourceStart, sourceEnd, sourceLength, targetStart, targetEnd, targetLength)
    ensures sourceStart <= sourceEnd <= sourceLength && targetStart <= targetEnd <= targetLength
  {
  }

  // The drop-through switch of the encoders: n bytes, written backwards from target + n.
  method WriteUtf8(ch0: UCS4, n: nat, dst: array<UTF8>, target: nat)
    requires 1 <= n <= 6 && target + n <= dst.Length
    modifies dst
    ensures dst[..] == Splice(old(dst[..]), target, SwitchBytes(ch0, n, FIRST_BYTE_MARK[n]))
  {
    hide LeadByte, TrailByte, Pending, Splice;
    ghost var was, mark := dst[..], FIRST_BYTE_MARK[n];
    ghost var bytes := SwitchBytes(ch0, n, mark);
    PendingStart(was, bytes, target);
    var t, ch := PutTrail(dst, n, 6, target + n, ch0, was, bytes, mark, target);
    t, ch := PutTrail(dst, n, 5, t, ch, was, bytes, mark, target);
    t, ch := PutTrail(dst, n, 4, t, ch, was, bytes, mark, target);
    t, ch := PutTrail(dst, n, 3, t, ch, was, bytes, mark, target);
    t, ch := PutTrail(dst, n, 2, t, ch, was, bytes, mark, target);
    assert SwitchBytes(ch, 1, mark) == [] + [LeadByte(ch, mark)];
    PutLead(dst, n, t, ch, was, bytes, target);
  }

  // Choosing the length, the room check and the switch, as both encoders have them.
  method AppendUtf8(ch0: UCS4, dst: array<UTF8>, target0: nat, targetEnd: nat) returns (fits: bool, target: nat)
    requires target0 <= targetEnd <= dst.Length
    modifies dst
    ensures fits <==> target0 + |EmitUtf8(ch0)| <= targetEnd
    ensures fits ==> target == target0 + |EmitUtf8(ch0)| && dst[..] == Splice(old(dst[..]), target0, EmitUtf8(ch0))
    ensures !fits ==> target == target0 && dst[..] == old(dst[..])
  {
    var ch, bytesToWrite := ch0, 0;
    if ch < 0x80 { bytesToWrite := 1; }
    else if ch < 0x800 { bytesToWrite := 2; }
    else if ch < 0x10000 { bytesToWrite := 3; }
    else if ch < 0x200000 { bytesToWrite := 4; }
    else if ch < 0x4000000 { bytesToWrite := 5; }
    else if ch <= MAXIMUM_UCS4 { bytesToWrite := 6; }
    else { bytesToWrite := 2; ch := REPLACEMENT_CHARACTER; }
    assert SwitchBytes(ch, bytesToWrite, FIRST_BYTE_MARK[bytesToWrite]) == EmitUtf8(ch0) by {
      if ch0 <= MAXIMUM_UCS4 { SwitchIsUtf8(ch0); }
    }
    target := target0 + bytesToWrite;
    if target > targetEnd {
      target := target - bytesToWrite;
      return false, target;
    }
    WriteUtf8(ch, bytesToWrite, dst, target0);
    return true, target;
  }

  lemma CombineByShift(ch: UCS4, ch2: UCS4)
    requires IsHigh(ch) && IsLow(ch2)
    ensures ((ch - 0xD800) << 10) + (ch2 - 0xDC00) + 0x10000 == Combine(ch, ch2)
    ensures 0x10000 <= Combine(ch, ch2) <= MAXIMUM_UTF16
  {
  }

  // The loop state of a converter with a paired source: i cells read, out written for them.
  ghost predicate Reading<B>(emit: UCS4 -> seq<B>, cells: seq<UCS4>, i: nat, out: seq<B>) {
    i <= |cells| && CleanCut(cells[..i], cells[i..]) && out == FlatMap(emit, Pair(cells[..i]))
  }

  lemma ReadingStarts<B>(emit: UCS4 -> seq<B>, cells: seq<UCS4>)
    ensures Reading(emit, cells, 0, [])
  {
    assert cells[..0] == [];
  }

  lemma ReadingStep<B>(emit: UCS4 -> seq<B>, cells: seq<UCS4>, i: nat, out: seq<B>)
    requires i < |cells| && Reading(emit, cells, i, out)
    ensures Reading(emit, cells, i + Width(cells[i..]), out + emit(First(cells[i..])))
  {
    PairNext(cells, i);
    FlatMapSnoc(emit, Pair(cells[..i]), First(cells[i..]));
  }

  // The next character does not fit: the source has moved past it, the target has not.
  lemma ReadingStops<B>(emit: UCS4 -> seq<B>, cells: seq<UCS4>, i: nat, out: seq<B>, room: nat)
    requires i < |cells| && Reading(emit, cells, i, out)
    requires |out| <= room < |out| + |emit(First(cells[i..]))|
    ensures i + Width(cells[i..]) <= |cells|
    ensures Converted(emit, Pair(cells), Pair(cells[..i + Width(cells[i..])]), out, room, true)
  {
    PairNext(cells, i);
    PairPrefix(cells, i + Width(cells[i..]));
    FlatMapSnoc(emit, Pair(cells[..i]), First(cells[i..]));
    var read := Pair(cells[..i + Width(cells[i..])]);
    assert read[..|read| - 1] == Pair(cells[..i]);
  }

  lemma ReadingEnds<B>(emit: UCS4 -> seq<B>, cells: seq<UCS4>, out: seq<B>, room: nat)
    requires Reading(emit, cells, |cells|, out) && |out| <= room
    ensures Converted(emit, Pair(cells), Pair(cells[..|cells|]), out, room, false)
  {
    assert cells[..|cells|] == cells;
  }

  // Reading one character of a UTF-16 source, with the look-ahead for the second half of a pair.
  method ReadUtf16(src: array<UTF16>, source0: nat, sourceEnd: nat, ghost cells: seq<UCS4>, ghost i: nat)
    returns (ch: UCS4, source: nat)
    requires source0 < sourceEnd <= src.Length && i <= source0 && i <= |cells|
    requires cells == Widen(src[source0 - i..sourceEnd])
    ensures source == source0 + Width(cells[i..]) <= sourceEnd
    ensures ch == First(cells[i..])
  {
    source := source0;
    ch := Cell(src[source]);
    assert cells[i..][0] == ch;
    source := source + 1;
    hide Combine, IsHigh, IsLow, Cell;
    if IsHigh(ch) && source < sourceEnd {
      var ch2 := Cell(src[source]);
      assert cells[i..][1] == ch2;
      if IsLow(ch2) {
        CombineByShift(ch, ch2);
        ch := ((ch - 0xD800) << 10) + (ch2 - 0xDC00) + 0x10000;
        source := source + 1;
      }
    }
  }

  lemma CharsOfPrefix(units: seq<UTF16>, i: nat)
    requires i <= |units|
    ensures Chars(units[..i]) == Pair(Widen(units)[..i]) && Chars(units) == Pair(Widen(units))
  {
    WidenSlice(units, 0, i);
    assert units[0..i] == units[..i] && Widen(units)[0..i] == Widen(units)[..i];
  }

  method NSConvertUTF16toUTF8(src: array<UTF16>, sourceStart: nat, sourceEnd: nat,
                              dst: array<UTF8>, targetStart: nat, targetEnd: nat)
    returns (result: ConversionResult, source: nat, target: nat, ghost out: seq<UTF8>)
    requires InBuffers(sourceStart, sourceEnd, src.Length, targetStart, targetEnd, dst.Length)
    modifies dst
    ensures sourceStart <= source <= sourceEnd && target == targetStart + |out| <= targetEnd
    ensures Converted(EmitUtf8, Chars(src[sourceStart..sourceEnd]), Chars(src[sourceStart..sourceEnd][..source - sourceStart]),
                      out, targetEnd - targetStart, result == TargetExhausted)
    ensures result == TargetExhausted || (result == Ok && source == sourceEnd)
    ensures dst[..] == Splice(old(dst[..]), targetStart, out)
  {
    hide *;
    result, source, target, out := Ok, sourceStart, targetStart, [];
    BuffersFit(sourceStart, sourceEnd, src.Length, targetStart, targetEnd, dst.Length);
    ghost var was, cells := dst[..], Widen(src[sourceStart..sourceEnd]);
    SpliceNothing(was, targetStart);
    ReadingStarts(EmitUtf8, cells);
    while source < sourceEnd
      invariant sourceStart <= source <= sourceEnd && target == targetStart + |out| <= targetEnd
      invariant Reading(EmitUtf8, cells, source - sourceStart, out)
      invariant dst[..] == Splice(was, targetStart, out)
    {
      ghost var i := source - sourceStart;
      ReadingStep(EmitUtf8, cells, i, out);
      var ch, fits;
      ch, source := ReadUtf16(src, source, sourceEnd, cells, i);
      fits, target := AppendUtf8(ch, dst, target, targetEnd);
      if !fits {
        ReadingStops(EmitUtf8, cells, i, out, targetEnd - targetStart);
        result := TargetExhausted;
        break;
      }
      SpliceAppend(was, targetStart, out, EmitUtf8(ch));
      out := out + EmitUtf8(ch);
    }
    CharsOfPrefix(src[sourceStart..sourceEnd], source - sourceStart);
    if result == Ok { ReadingEnds(EmitUtf8, cells, out, targetEnd - targetStart); }
  }

  lemma {:induction false} FlatMapEmitOne(cs: seq<UCS4>)
    ensures FlatMap(EmitOne, cs) == cs
  {
    if cs != [] {
      FlatMapEmitOne(cs[1..]);
    }
  }

  // *target = ch
  method PutCell(dst: array<UCS4>, target: nat, ch: UCS4)
    requires target < dst.Length
    modifies dst
    ensures dst[..] == Splice(old(dst[..]), target, EmitOne(ch))
  {
    dst[target] := ch;
  }

  method ConvertUTF16toUCS4(src: array<UTF16>, sourceStart: nat, sourceEnd: nat,
                            dst: array<UCS4>, targetStart: nat, targetEnd: nat)
    returns (result: ConversionResult, source: nat, target: nat, ghost out: seq<UCS4>)
    requires InBuffers(sourceStart, sourceEnd, src.Length, targetStart, targetEnd, dst.Length)
    modifies dst
    ensures sourceStart <= source <= sourceEnd && target == targetStart + |out| <= targetEnd
    ensures Converted(EmitOne, Chars(src[sourceStart..sourceEnd]), Chars(src[sourceStart..sourceEnd][..source - sourceStart]),
                      out, targetEnd - targetStart, result == TargetExhausted)
    ensures result == TargetExhausted || (result == Ok && source == sourceEnd)
    ensures dst[..] == Splice(old(dst[..]), targetStart, out)
  {
    hide *;
    result, source, target, out := Ok, sourceStart, targetStart, [];
    BuffersFit(sourceStart, sourceEnd, src.Length, targetStart, targetEnd, dst.Length);
    ghost var was, cells := dst[..], Widen(src[sourceStart..sourceEnd]);
    SpliceNothing(was, targetStart);
    ReadingStarts(EmitOne, cells);
    while source < sourceEnd
      invariant sourceStart <= source <= sourceEnd && target == targetStart + |out| <= targetEnd
      invariant Reading(EmitOne, cells, source - sourceStart, out)
      invariant dst[..] == Splice(was, targetStart, out)
    {
      ghost var i := source - sourceStart;
      ReadingStep(EmitOne, cells, i, out);
      var ch;
      ch, source := ReadUtf16(src, source, sourceEnd, cells, i);
      if target >= targetEnd {
        ReadingStops(EmitOne, cells, i, out, targetEnd - targetStart);
        result := TargetExhausted;
        break;
      }
      SpliceAppend(was, targetStart, out, EmitOne(ch));
      PutCell(dst, target, ch);
      target := target + 1;
      out := out + EmitOne(ch);
    }
    CharsOfPrefix(src[sourceStart..sourceEnd], source - sourceStart);
    if result == Ok { ReadingEnds(EmitOne, cells, out, targetEnd - targetStart); }
  }

  // Reading one character of a UCS-4 source, where surrogate cells are paired, too.
  method ReadCells(src: array<UCS4>, source0: nat, sourceEnd: nat, ghost cells: seq<UCS4>, ghost i: nat)
    returns (ch: UCS4, source: nat)
    requires source0 < sourceEnd <= src.Length && i <= source0 && i <= |cells|
    requires cells == src[source0 - i..sourceEnd]
    ensures source == source0 + Width(cells[i..]) <= sourceEnd
    ensures ch == First(cells[i..])
  {
    source := source0;
    ch := src[source];
    assert cells[i..][0] == ch;
    source := source + 1;
    hide Combine, IsHigh, IsLow;
    if IsHigh(ch) && source < sourceEnd {
      var ch2 := src[source];
      assert cells[i..][1] == ch2;
      if IsLow(ch2) {
        CombineByShift(ch, ch2);
        ch := ((ch - 0xD800) << 10) + (ch2 - 0xDC00) + 0x10000;
        source := source + 1;
      }
    }
  }

  method ConvertUCS4toUTF8(src: array<UCS4>, sourceStart: nat, sourceEnd: nat,
                           dst: array<UTF8>, targetStart: nat, targetEnd: nat)
    returns (result: ConversionResult, source: nat, target: nat, ghost out: seq<UTF8>)
    requires InBuffers(sourceStart, sourceEnd, src.Length, targetStart, targetEnd, dst.Length)
    modifies dst
    ensures sourceStart <= source <= sourceEnd && target == targetStart + |out| <= targetEnd
    ensures Converted(EmitUtf8, Pair(src[sourceStart..sourceEnd]), Pair(src[sourceStart..sourceEnd][..source - sourceStart]),
                      out, targetEnd - targetStart, result == TargetExhausted)
    ensures result == TargetExhausted || (result == Ok && source == sourceEnd)
    ensures dst[..] == Splice(old(dst[..]), targetStart, out)
  {
    hide *;
    result, source, target, out := Ok, sourceStart, targetStart, [];
    BuffersFit(sourceStart, sourceEnd, src.Length, targetStart, targetEnd, dst.Length);
    ghost var was, cells := dst[..], src[sourceStart..sourceEnd];
    SpliceNothing(was, targetStart);
    ReadingStarts(EmitUtf8, cells);
    while source < sourceEnd
      invariant sourceStart <= source <= sourceEnd && target == targetStart + |out| <= targetEnd
      invariant Reading(EmitUtf8, cells, source - sourceStart, out)
      invariant dst[..] == Splice(was, targetStart, out)
    {
      ghost var i := source - sourceStart;
      ReadingStep(EmitUtf8, cells, i, out);
      var ch, fits;
      ch, source := ReadCells(src, source, sourceEnd, cells, i);
      fits, target := AppendUtf8(ch, dst, target, targetEnd);
      if !fits {
        ReadingStops(EmitUtf8, cells, i, out, targetEnd - targetStart);
        result := TargetExhausted;
        break;
      }
      SpliceAppend(was, targetStart, out, EmitUtf8(ch));
      out := out + EmitUtf8(ch);
    }
    if result == Ok { ReadingEnds(EmitUtf8, cells, out, targetEnd - targetStart); }
  }

  // The halves of a pair as the converters compute them, truncated to a unit.
  function HighUnit(ch: UCS4): UTF16 { ((((ch - 0x10000) >> 10) + 0xD800) & 0xFFFF) as UTF16 }

  function LowUnit(ch: UCS4): UTF16 { ((((ch - 0x10000) & 0x3FF) + 0xDC00) & 0xFFFF) as UTF16 }

  lemma PairUnits(ch: UCS4)
    requires 0x10000 <= ch <= MAXIMUM_UTF16
    ensures EmitUtf16(ch) == [HighUnit(ch)] + [LowUnit(ch)]
  {
    SurrogateUnits(ch);
  }

  lemma SingleUnit(ch: UCS4)
    requires ch <= MAXIMUM_UCS2
    ensures EmitUtf16(ch) == [ch as UTF16]
  {
  }

  lemma ReplacementUnit(ch: UCS4)
    requires ch > MAXIMUM_UTF16
    ensures EmitUtf16(ch) == [REPLACEMENT_CHARACTER as UTF16]
  {
  }

  // A character beyond the basic plane: both halves of the pair or nothing.
  method AppendPair(ch0: UCS4, dst: array<UTF16>, target0: nat, targetEnd: nat) returns (fits: bool, target: nat)
    requires 0x10000 <= ch0 <= MAXIMUM_UTF16
    requires target0 < targetEnd <= dst.Length
    modifies dst
    ensures fits <==> target0 + |EmitUtf16(ch0)| <= targetEnd
    ensures fits ==> target == target0 + |EmitUtf16(ch0)| && dst[..] == Splice(old(dst[..]), target0, EmitUtf16(ch0))
    ensures !fits ==> target == target0 && dst[..] == old(dst[..])
  {
    PairUnits(ch0);
    target := target0;
    if target + 1 >= targetEnd { return false, target; }
    SpliceAppend(dst[..], target0, [HighUnit(ch0)], [LowUnit(ch0)]);
    hide *;
    PutUnit(dst, target, HighUnit(ch0));
    target := target + 1;
    PutUnit(dst, target, LowUnit(ch0));
    target := target + 1;
    fits := true;
  }

  // What both converters to UTF-16 do with a character once one unit of room is certain.
  method AppendUtf16(ch: UCS4, dst: array<UTF16>, target0: nat, targetEnd: nat) returns (fits: bool, target: nat)
    requires target0 < targetEnd <= dst.Length
    modifies dst
    ensures fits <==> target0 + |EmitUtf16(ch)| <= targetEnd
    ensures fits ==> target == target0 + |EmitUtf16(ch)| && dst[..] == Splice(old(dst[..]), target0, EmitUtf16(ch))
    ensures !fits ==> target == target0 && dst[..] == old(dst[..])
  {
    hide Splice, EmitUtf16;
    if ch <= MAXIMUM_UCS2 {
      SingleUnit(ch);
      PutUnit(dst, target0, ch as UTF16);
      return true, target0 + 1;
    } else if ch > MAXIMUM_UTF16 {
      ReplacementUnit(ch);
      PutUnit(dst, target0, REPLACEMENT_CHARACTER as UTF16);
      return true, target0 + 1;
    } else {
      fits, target := AppendPair(ch, dst, target0, targetEnd);
    }
  }

  // The same behind the check for a full target.
  method AppendChecked(ch: UCS4, dst: array<UTF16>, target0: nat, targetEnd: nat) returns (fits: bool, target: nat)
    requires target0 <= targetEnd <= dst.Length
    modifies dst
    ensures fits <==> target0 + |EmitUtf16(ch)| <= targetEnd
    ensures fits ==> target == target0 + |EmitUtf16(ch)| && dst[..] == Splice(old(dst[..]), target0, EmitUtf16(ch))
    ensures !fits ==> target == target0 && dst[..] == old(dst[..])
  {
    if target0 >= targetEnd { return false, target0; }
    fits, target := AppendUtf16(ch, dst, target0, targetEnd);
  }

  // *target = u
  method PutUnit(dst: array<UTF16>, target: nat, u: UTF16)
    requires target < dst.Length
    modifies dst
    ensures dst[..] == Splice(old(dst[..]), target, [u])
  {
    dst[target] := u;
  }

  // The source elements are characters of their own: none is paired with another.
  method ConvertUCS4toUTF16(src: array<UCS4>, sourceStart: nat, sourceEnd: nat,
                            dst: array<UTF16>, targetStart: nat, targetEnd: nat)
    returns (result: ConversionResult, source: nat, target: nat, ghost out: seq<UTF16>)
    requires InBuffers(sourceStart, sourceEnd, src.Length, targetStart, targetEnd, dst.Length)
    modifies dst
    ensures sourceStart <= source <= sourceEnd && target == targetStart + |out| <= targetEnd
    // a full target is noticed before the next element is taken, a half pair of room only afterwards
    ensures result == TargetExhausted && target == targetEnd ==>
              source < sourceEnd && out == FlatMap(EmitUtf16, src[sourceStart..source])
    ensures !(result == TargetExhausted && target == targetEnd) ==>
              Converted(EmitUtf16, src[sourceStart..sourceEnd], src[sourceStart..source],
                        out, targetEnd - targetStart, result == TargetExhausted)
    ensures result == TargetExhausted || (result == Ok && source == sourceEnd)
    ensures dst[..] == Splice(old(dst[..]), targetStart, out)
  {
    hide Splice, EmitUtf16;
    result, source, target, out := Ok, sourceStart, targetStart, [];
    ghost var was := dst[..];
    SpliceNothing(was, targetStart);
    while source < sourceEnd
      invariant sourceStart <= source <= sourceEnd && target == targetStart + |out| <= targetEnd
      invariant out == FlatMap(EmitUtf16, src[sourceStart..source])
      invariant dst[..] == Splice(was, targetStart, out)
    {
      if target >= targetEnd {
        result := TargetExhausted;
        break;
      }
      ghost var read := src[sourceStart..source];
      var ch := src[source];
      source := source + 1;
      assert src[sourceStart..source] == read + [ch];
      FlatMapSnoc(EmitUtf16, read, ch);
      var fits;
      fits, target := AppendUtf16(ch, dst, target, targetEnd);
      if !fits {
        result := TargetExhausted;
        break;
      }
      SpliceAppend(was, targetStart, out, EmitUtf16(ch));
      out := out + EmitUtf16(ch);
    }
  }

  // ---------------------------------------------------------------- decoders

  lemma Unfold(t: seq<UTF8>)
    ensures !StartsWithSequence(t) ==> Decode(t) == [] && Complete(t) == 0
    ensures StartsWithSequence(t) ==>
      && 1 <= SequenceLength(t[0]) <= |t|
      && Decode(t) == [DecodeSequence(t[..SequenceLength(t[0])])] + Decode(t[SequenceLength(t[0])..])
      && Complete(t) == SequenceLength(t[0]) + Complete(t[SequenceLength(t[0])..])
  {
  }

  lemma StartBehind(a: seq<UTF8>, b: seq<UTF8>)
    requires StartsWithSequence(a)
    ensures var n := SequenceLength(a[0]);
            StartsWithSequence(a + b) && (a + b)[0] == a[0] && (a + b)[..n] == a[..n] && (a + b)[n..] == a[n..] + b
  {
  }

  lemma NothingComplete(t: seq<UTF8>)
    ensures StartsWithSequence(t) ==> t != []
    ensures t == [] ==> Complete(t) == 0 && Decode(t) == []
  {
  }

  lemma {:induction false} DecodeConcat(a: seq<UTF8>, b: seq<UTF8>)
    requires Complete(a) == |a|
    ensures Decode(a + b) == Decode(a) + Decode(b)
    ensures Complete(a + b) == |a| + Complete(b)
    decreases |a|
  {
    hide *;
    NothingComplete(a);
    Unfold(a);
    if a == [] {
      assert a + b == b;
    } else {
      StartBehind(a, b);
      Unfold(a + b);
      DecodeConcat(a[SequenceLength(a[0])..], b);
    }
  }

  lemma UnfinishedConcat(a: seq<UTF8>, b: seq<UTF8>)
    requires Complete(a) == |a|
    ensures Unfinished(a + b) == Unfinished(b)
  {
    hide Complete, Decode;
    DecodeConcat(a, b);
    DropBehind(a, b, Complete(b));
  }

  lemma DecodeOne(bs: seq<UTF8>)
    requires IsSequence(bs)
    ensures Decode(bs) == [DecodeSequence(bs)] && Complete(bs) == |bs|
  {
    hide BytesFromUTF8, SequenceLength, DecodeSequence, Raw;
    assert bs[..|bs|] == bs && bs[|bs|..] == [];
  }

  // What a decoder works on: the source, and the byte behind it where the guard lets it be read.
  ghost predicate IsText(text: seq<UTF8>, source: seq<UTF8>) {
    if LacksOneByte(source) then |text| == |source| + 1 && text[..|source|] == source
    else text == source
  }

  function TextOf(src: seq<UTF8>, sourceStart: nat, sourceEnd: nat): (text: seq<UTF8>)
    requires sourceStart <= sourceEnd <= |src|
    requires LacksOneByte(src[sourceStart..sourceEnd]) ==> sourceEnd < |src|
    ensures IsText(text, src[sourceStart..sourceEnd])
  {
    if LacksOneByte(src[sourceStart..sourceEnd]) then src[sourceStart..sourceEnd + 1] else src[sourceStart..sourceEnd]
  }

  lemma {:induction false} CompletePart(t: seq<UTF8>)
    ensures Complete(t[..Complete(t)]) == Complete(t)
    ensures Decode(t[..Complete(t)]) == Decode(t)
    ensures !StartsWithSequence(t[Complete(t)..])
    decreases |t|
  {
    hide *;
    Unfold(t);
    if StartsWithSequence(t) {
      var n := SequenceLength(t[0]);
      CompletePart(t[n..]);
      var front := t[n..][..Complete(t[n..])];
      assert t[Complete(t)..] == t[n..][Complete(t[n..])..];
      assert t[..Complete(t)] == t[..n] + front;
      FirstSequence(t);
      DecodeOne(t[..n]);
      DecodeConcat(t[..n], front);
    } else {
      assert t[..0] == [] && t[0..] == t;
      NothingComplete([]);
    }
  }

  lemma FirstSequence(t: seq<UTF8>)
    requires StartsWithSequence(t)
    ensures IsSequence(t[..SequenceLength(t[0])])
  {
  }

  lemma OneMoreByte(text: seq<UTF8>, source: seq<UTF8>, k: nat)
    requires |text| == |source| + 1 && text[..|source|] == source && k <= |source|
    ensures text == source[..k] + (source[k..] + [text[|source|]])
  {
  }

  // With the byte behind the source added the text ends on a sequence boundary.
  lemma TextIsFinished(text: seq<UTF8>, source: seq<UTF8>)
    requires IsText(text, source) && LacksOneByte(source)
    ensures Complete(text) == |text|
    ensures Decode(text) == Decode(source) + [DecodeSequence(Unfinished(source) + [text[|source|]])]
  {
    hide Decode, Complete, DecodeSequence, SequenceLength;
    var whole, last := source[..Complete(source)], Unfinished(source) + [text[|source|]];
    CompletePart(source);
    OneMoreByte(text, source, Complete(source));
    DecodeConcat(whole, last);
    DecodeOne(last);
  }

  // i is a sequence boundary of t: the bytes before it are complete sequences.
  ghost predicate AtBoundary(t: seq<UTF8>, i: nat) {
    i <= |t| && Complete(t[..i]) == i
  }

  // What lies before a boundary does not change how the rest is cut.
  lemma BoundarySplits(t: seq<UTF8>, i: nat)
    requires AtBoundary(t, i)
    ensures Complete(t) == i + Complete(t[i..]) && Unfinished(t) == Unfinished(t[i..])
    ensures Decode(t) == Decode(t[..i]) + Decode(t[i..])
  {
    hide Complete, Decode, Unfinished;
    Cut(t, i);
    DecodeConcat(t[..i], t[i..]);
    UnfinishedConcat(t[..i], t[i..]);
  }

  lemma NextBoundary(t: seq<UTF8>, i: nat)
    requires AtBoundary(t, i) && StartsWithSequence(t[i..])
    ensures t[i..][0] == t[i] && i + SequenceLength(t[i]) <= |t| && AtBoundary(t, i + SequenceLength(t[i]))
    ensures IsSequence(t[i..][..SequenceLength(t[i])])
    ensures Decode(t[..i + SequenceLength(t[i])]) == Decode(t[..i]) + [DecodeSequence(t[i..][..SequenceLength(t[i])])]
  {
    hide Complete, Decode, SequenceLength, DecodeSequence;
    assert t[i..][0] == t[i];
    var n := SequenceLength(t[i]);
    var first := t[i..][..n];
    FirstSequence(t[i..]);
    DecodeOne(first);
    DecodeConcat(t[..i], first);
    GoOn(t, i, n);
  }

  // The decoders' guard, at a sequence boundary: it passes exactly the sequences the text completes.
  lemma GuardPasses(text: seq<UTF8>, source: seq<UTF8>, i: nat)
    requires IsText(text, source) && i < |source| && AtBoundary(text, i) && AtBoundary(source, i)
    ensures SequenceLength(source[i]) == BytesFromUTF8(source[i]) + 1 && text[i..][0] == text[i] == source[i]
    ensures i + BytesFromUTF8(source[i]) <= |source| <==> StartsWithSequence(text[i..])
    ensures StartsWithSequence(text[i..]) ==> IsSequence(text[i..][..SequenceLength(text[i])])
    ensures i + SequenceLength(source[i]) <= |source| ==> AtBoundary(source, i + SequenceLength(source[i]))
    ensures !StartsWithSequence(text[i..]) ==> text == source && Unfinished(text) == text[i..] && Decode(text[i..]) == []
  {
    hide BytesFromUTF8, DecodeSequence, Decode, Complete;
    assert text[i..][0] == source[i] && source[i..][0] == source[i];
    BoundarySplits(text, i);
    BoundarySplits(source, i);
    Unfold(text[i..]);
    Unfold(source[i..]);
    if LacksOneByte(source) { TextIsFinished(text, source); }
    if StartsWithSequence(source[i..]) { NextBoundary(source, i); }
  }

  lemma RawSnoc(bs: seq<UTF8>, b: UTF8)
    ensures Raw(bs + [b]) == AddTo(Shift6(Raw(bs)), b)
  {
    hide AddTo, Shift6;
    assert (bs + [b])[..|bs|] == bs;
  }

  lemma RawEmpty(bs: seq<UTF8>)
    requires bs == []
    ensures Shift6(Raw(bs)) == 0
  {
  }

  // Case k of the decoders' switch, entered when extra is at least k: add a byte, make room for six bits.
  method AddByte(src: array<UTF8>, source0: nat, extra: nat, k: nat, source: nat, ch: UCS4)
    returns (source': nat, ch': UCS4)
    requires 1 <= k <= 5 && extra <= 5 && source0 + extra < src.Length
    requires source == source0 + extra - Min(extra, k)
    requires ch == Shift6(Raw(src[source0..source]))
    ensures source' == source0 + extra - Min(extra, k - 1)
    ensures ch' == Shift6(Raw(src[source0..source']))
  {
    hide AddTo, Shift6, Raw;
    if extra < k { return source, ch; }
    RawSnoc(src[source0..source], src[source]);
    source' := source + 1;
    assert src[source0..source'] == src[source0..source] + [src[source]];
    ch' := AddTo(ch, src[source]);
    ch' := Shift6(ch');
  }

  // The decoders' drop-through switch and the subtraction behind it.
  method ReadUtf8(src: array<UTF8>, source0: nat, extra: nat) returns (source: nat, ch: UCS4)
    requires extra <= 5 && source0 + extra < src.Length && extra + 1 == SequenceLength(src[source0])
    ensures source == source0 + extra + 1
    ensures ch == DecodeSequence(src[source0..source])
  {
    RawEmpty(src[source0..source0]);
    hide AddTo, Shift6, Raw, TakeOff, SequenceLength;
    source, ch := AddByte(src, source0, extra, 5, source0, 0);
    source, ch := AddByte(src, source0, extra, 4, source, ch);
    source, ch := AddByte(src, source0, extra, 3, source, ch);
    source, ch := AddByte(src, source0, extra, 2, source, ch);
    source, ch := AddByte(src, source0, extra, 1, source, ch);
    RawSnoc(src[source0..source], src[source]);
    assert src[source0..source + 1] == src[source0..source] + [src[source]];
    ch := AddTo(ch, src[source]);
    source := source + 1;
    ch := TakeOff(ch, extra);
  }

  // text and bytes lie in memory from start on.
  ghost predicate LiesIn(mem: seq<UTF8>, start: nat, end: nat, text: seq<UTF8>, bytes: seq<UTF8>) {
    && start <= end <= start + |text| <= |mem| && bytes == mem[start..end] && text == mem[start..start + |text|]
    && IsText(text, bytes)
  }

  lemma TextLies(mem: seq<UTF8>, start: nat, end: nat)
    requires start <= end <= |mem|
    requires LacksOneByte(mem[start..end]) ==> end < |mem|
    ensures LiesIn(mem, start, end, TextOf(mem, start, end), mem[start..end])
  {
  }

  // What lies at position source of the memory, where the text has a sequence boundary.
  lemma TextStep(mem: seq<UTF8>, start: nat, end: nat, text: seq<UTF8>, bytes: seq<UTF8>, source: nat)
    requires LiesIn(mem, start, end, text, bytes) && start <= source < end
    requires AtBoundary(text, source - start) && AtBoundary(bytes, source - start)
    ensures end <= |mem| && source - start < |text| && text[source - start] == mem[source]
    ensures text[source - start..] != [] && text[source - start..][0] == mem[source]
    ensures var n := BytesFromUTF8(mem[source]) + 1;
            && n == SequenceLength(mem[source])
            && (source + n <= end + 1 <==> StartsWithSequence(text[source - start..]))
            && (source + n <= end + 1 ==>
                  source + n <= |mem| && n <= |text[source - start..]| && mem[source..source + n] == text[source - start..][..n])
            && (source + n <= end ==> AtBoundary(bytes, source + n - start))
    ensures !StartsWithSequence(text[source - start..]) ==>
              Unfinished(text) == text[source - start..] && Decode(text[source - start..]) == []
  {
    hide BytesFromUTF8, Decode, Complete, Unfinished, DecodeSequence;
    GuardPasses(text, bytes, source - start);
    var n := SequenceLength(mem[source]);
    if n <= |text[source - start..]| { SliceOfSlice(mem, start, start + |text|, source, source + n); }
  }

  // The guard and the switch of a decoder.
  method NextUtf8(src: array<UTF8>, source0: nat, sourceEnd: nat, ghost start: nat, ghost text: seq<UTF8>, ghost bytes: seq<UTF8>)
    returns (more: bool, source: nat, ch: UCS4)
    requires LiesIn(src[..], start, sourceEnd, text, bytes) && start <= source0 < sourceEnd
    requires AtBoundary(text, source0 - start) && AtBoundary(bytes, source0 - start)
    ensures source0 - start < |text|
    ensures more <==> StartsWithSequence(text[source0 - start..])
    ensures !more ==> source == source0 && Unfinished(text) == text[source0 - start..] && Decode(text[source0 - start..]) == []
    ensures more ==>
      && source == source0 + SequenceLength(text[source0 - start])
      && ch == DecodeSequence(text[source0 - start..][..SequenceLength(text[source0 - start..][0])])
      && (source <= sourceEnd ==> AtBoundary(bytes, source - start))
  {
    hide *;
    TextStep(src[..], start, sourceEnd, text, bytes, source0);
    source, ch := source0, 0;
    var extraBytesToWrite := BytesFromUTF8(src[source]);
    if source + extraBytesToWrite > sourceEnd { return false, source, ch; }
    source, ch := ReadUtf8(src, source, extraBytesToWrite);
    more := true;
  }

  // The loop state of a decoder: i bytes of the text read, as the characters read, out written for them.
  ghost predicate Scanning<B>(emit: UCS4 -> seq<B>, text: seq<UTF8>, i: nat, read: seq<UCS4>, out: seq<B>) {
    AtBoundary(text, i) && Decode(text[..i]) == read && out == FlatMap(emit, read)
  }

  lemma ScanningStarts<B>(emit: UCS4 -> seq<B>, text: seq<UTF8>)
    ensures AtBoundary(text, 0) && Scanning(emit, text, 0, [], [])
  {
    assert text[..0] == [];
  }

  lemma ScanningStep<B>(emit: UCS4 -> seq<B>, text: seq<UTF8>, i: nat, read: seq<UCS4>, out: seq<B>, ch: UCS4)
    requires Scanning(emit, text, i, read, out)
    requires StartsWithSequence(text[i..]) && ch == DecodeSequence(text[i..][..SequenceLength(text[i..][0])])
    ensures Scanning(emit, text, i + SequenceLength(text[i]), read + [ch], out + emit(ch))
    ensures AtBoundary(text, i + SequenceLength(text[i])) && out == FlatMap(emit, read)
  {
    hide DecodeSequence, SequenceLength, Decode, Complete, FlatMap, AtBoundary;
    NextBoundary(text, i);
    FlatMapSnoc(emit, read, ch);
  }

  // What a decoder promises: the first i bytes of the text are complete sequences, read are their characters.
  ghost predicate Decoded<B>(emit: UCS4 -> seq<B>, text: seq<UTF8>, i: int, read: seq<UCS4>, out: seq<B>,
                             room: nat, result: ConversionResult)
  {
    && 0 <= i <= |text|
    && AtBoundary(text, i) && Decode(text[..i]) == read
    && Converted(emit, Decode(text), read, out, room, result == TargetExhausted)
    && (result == Ok ==> i == |text| == Complete(text))
    && (result == SourceExhausted ==> text[i..] == Unfinished(text) != [])
  }

  // The promise leaves no choice: text and room determine the result, the output and how far the source is read.
  lemma DecodedIsExact<B>(emit: UCS4 -> seq<B>, text: seq<UTF8>, room: nat,
                          i: int, read: seq<UCS4>, out: seq<B>, result: ConversionResult,
                          i': int, read': seq<UCS4>, out': seq<B>, result': ConversionResult)
    requires Decoded(emit, text, i, read, out, room, result) && Decoded(emit, text, i', read', out', room, result')
    ensures i == i' && read == read' && out == out' && result == result'
  {
    hide Complete, Decode, AtBoundary, Converted;
    ConvertedIsExact(emit, Decode(text), room, read, out, result == TargetExhausted, read', out', result' == TargetExhausted);
    SameBoundary(text, i, i');
  }

  lemma SameBoundary(t: seq<UTF8>, i: nat, j: nat)
    requires AtBoundary(t, i) && AtBoundary(t, j) && Decode(t[..i]) == Decode(t[..j])
    ensures i == j
  {
    hide Complete, Decode;
    if i > j { SameBoundary(t, j, i); }
    if i < j {
      assert t[..j][..i] == t[..i];
      BoundarySplits(t[..j], i);
      Unfold(t[..j][i..]);
    }
  }

  // The next character does not fit: the source has moved past it, the target has not.
  lemma ScanningStops<B>(emit: UCS4 -> seq<B>, text: seq<UTF8>, i: nat, read: seq<UCS4>, out: seq<B>, ch: UCS4, room: nat)
    requires Scanning(emit, text, i, read + [ch], out + emit(ch)) && out == FlatMap(emit, read)
    requires |out| <= room < |out| + |emit(ch)|
    ensures Decoded(emit, text, i, read + [ch], out, room, TargetExhausted)
  {
    BoundarySplits(text, i);
    assert (read + [ch])[..|read + [ch]| - 1] == read;
  }

  // The next sequence is cut off.
  lemma ScanningCutOff<B>(emit: UCS4 -> seq<B>, text: seq<UTF8>, i: nat, read: seq<UCS4>, out: seq<B>, room: nat)
    requires Scanning(emit, text, i, read, out) && |out| <= room
    requires i < |text| && Unfinished(text) == text[i..] && Decode(text[i..]) == []
    ensures Decoded(emit, text, i, read, out, room, SourceExhausted)
  {
    BoundarySplits(text, i);
    assert text[i..] != [];
  }

  // The source is used up.
  lemma ScanningEnds<B>(emit: UCS4 -> seq<B>, mem: seq<UTF8>, start: nat, end: nat, text: seq<UTF8>, source: seq<UTF8>,
                        i: nat, read: seq<UCS4>, out: seq<B>, room: nat)
    requires Scanning(emit, text, i, read, out) && |out| <= room
    requires LiesIn(mem, start, end, text, source) && end - start <= i && (i <= end - start ==> AtBoundary(source, i))
    ensures Decoded(emit, text, i, read, out, room, Ok)
  {
    hide Decode, Complete;
    if i <= end - start {
      assert source[..i] == source;
      NothingComplete(source[i..]);
      BoundarySplits(source, i);
    }
    assert i == |text|;
    assert text[..i] == text;
  }

  method NSConvertUTF8toUTF16(src: array<UTF8>, sourceStart: nat, sourceEnd: nat,
                              dst: array<UTF16>, targetStart: nat, targetEnd: nat)
    returns (result: ConversionResult, source: nat, target: nat, ghost read: seq<UCS4>, ghost out: seq<UTF16>)
    requires InBuffers(sourceStart, sourceEnd, src.Length, targetStart, targetEnd, dst.Length)
    // the guard may let the byte behind the source be read
    requires LacksOneByte(src[sourceStart..sourceEnd]) ==> sourceEnd < src.Length
    modifies dst
    ensures Decoded(EmitUtf16, TextOf(src[..], sourceStart, sourceEnd), source - sourceStart,
                    read, out, targetEnd - targetStart, result)
    ensures target == targetStart + |out| && dst[..] == Splice(old(dst[..]), targetStart, out)
  {
    hide *;
    result, source, target, read, out := Ok, sourceStart, targetStart, [], [];
    BuffersFit(sourceStart, sourceEnd, src.Length, targetStart, targetEnd, dst.Length);
    ghost var was, text, bytes := dst[..], TextOf(src[..], sourceStart, sourceEnd), src[sourceStart..sourceEnd];
    SpliceNothing(was, targetStart);
    TextLies(src[..], sourceStart, sourceEnd);
    ScanningStarts(EmitUtf16, text);
    ScanningStarts(EmitUtf16, bytes);
    while source < sourceEnd
      invariant sourceStart <= source && target == targetStart + |out| <= targetEnd
      invariant source <= sourceEnd ==> AtBoundary(bytes, source - sourceStart)
      invariant AtBoundary(text, source - sourceStart) && Scanning(EmitUtf16, text, source - sourceStart, read, out)
      invariant dst[..] == Splice(was, targetStart, out)
    {
      ghost var i := source - sourceStart;
      var more, ch, fits;
      more, source, ch := NextUtf8(src, source, sourceEnd, sourceStart, text, bytes);
      if !more {
        ScanningCutOff(EmitUtf16, text, i, read, out, targetEnd - targetStart);
        result := SourceExhausted;
        return;
      }
      ScanningStep(EmitUtf16, text, i, read, out, ch);
      fits, target := AppendChecked(ch, dst, target, targetEnd);
      if !fits {
        ScanningStops(EmitUtf16, text, source - sourceStart, read, out, ch, targetEnd - targetStart);
        result, read := TargetExhausted, read + [ch];
        return;
      }
      SpliceAppend(was, targetStart, out, EmitUtf16(ch));
      read, out := read + [ch], out + EmitUtf16(ch);
    }
    ScanningEnds(EmitUtf16, src[..], sourceStart, sourceEnd, text, bytes, source - sourceStart, read, out, targetEnd - targetStart);
  }

  // The halves as cells: nothing is truncated, and beyond the UTF-16 range they are no surrogates.
  function HighCell(ch: UCS4): UCS4 { ((ch - 0x10000) >> 10) + 0xD800 }

  function LowCell(ch: UCS4): UCS4 { ((ch - 0x10000) & 0x3FF) + 0xDC00 }

  lemma CellRows(ch: UCS4)
    ensures ch <= MAXIMUM_UCS2 ==> EmitCells(ch) == EmitOne(ch)
    ensures ch > MAXIMUM_UCS4 ==> EmitCells(ch) == EmitOne(REPLACEMENT_CHARACTER)
    ensures MAXIMUM_UCS2 < ch <= MAXIMUM_UCS4 ==> EmitCells(ch) == EmitOne(HighCell(ch)) + EmitOne(LowCell(ch))
  {
    assert HighCell(ch) == 0xD800 + ((ch - 0x10000) >> 10);
    assert LowCell(ch) == 0xDC00 + ((ch - 0x10000) & 0x3FF);
    hide HighCell, LowCell;
  }

  // What ConvertUTF8toUCS4 does with a character.
  method AppendCells(ch: UCS4, dst: array<UCS4>, target0: nat, targetEnd: nat) returns (fits: bool, target: nat)
    requires target0 <= targetEnd <= dst.Length
    modifies dst
    ensures fits <==> target0 + |EmitCells(ch)| <= targetEnd
    ensures fits ==> target == target0 + |EmitCells(ch)| && dst[..] == Splice(old(dst[..]), target0, EmitCells(ch))
    ensures !fits ==> target == target0 && dst[..] == old(dst[..])
  {
    hide Splice, EmitCells, EmitOne, HighCell, LowCell;
    CellRows(ch);
    target := target0;
    if target >= targetEnd { return false, target; }
    if ch <= MAXIMUM_UCS2 {
      PutCell(dst, target, ch);
      return true, target + 1;
    } else if ch > MAXIMUM_UCS4 {
      PutCell(dst, target, REPLACEMENT_CHARACTER);
      return true, target + 1;
    } else {
      if target + 1 >= targetEnd { return false, target; }
      SpliceAppend(dst[..], target, EmitOne(HighCell(ch)), EmitOne(LowCell(ch)));
      PutCell(dst, target, HighCell(ch));
      PutCell(dst, target + 1, LowCell(ch));
      return true, target + 2;
    }
  }

  method ConvertUTF8toUCS4(src: array<UTF8>, sourceStart: nat, sourceEnd: nat,
                           dst: array<UCS4>, targetStart: nat, targetEnd: nat)
    returns (result: ConversionResult, source: nat, target: nat, ghost read: seq<UCS4>, ghost out: seq<UCS4>)
    requires InBuffers(sourceStart, sourceEnd, src.Length, targetStart, targetEnd, dst.Length)
    // the guard may let the byte behind the source be read
    requires LacksOneByte(src[sourceStart..sourceEnd]) ==> sourceEnd < src.Length
    modifies dst
    ensures Decoded(EmitCells, TextOf(src[..], sourceStart, sourceEnd), source - sourceStart,
                    read, out, targetEnd - targetStart, result)
    ensures target == targetStart + |out| && dst[..] == Splice(old(dst[..]), targetStart, out)
  {
    hide *;
    result, source, target, read, out := Ok, sourceStart, targetStart, [], [];
    BuffersFit(sourceStart, sourceEnd, src.Length, targetStart, targetEnd, dst.Length);
    ghost var was, text, bytes := dst[..], TextOf(src[..], sourceStart, sourceEnd), src[sourceStart..sourceEnd];
    SpliceNothing(was, targetStart);
    TextLies(src[..], sourceStart, sourceEnd);
    ScanningStarts(EmitCells, text);
    ScanningStarts(EmitCells, bytes);
    while source < sourceEnd
      invariant sourceStart <= source && target == targetStart + |out| <= targetEnd
      invariant source <= sourceEnd ==> AtBoundary(bytes, source - sourceStart)
      invariant AtBoundary(text, source - sourceStart) && Scanning(EmitCells, text, source - sourceStart, read, out)
      invariant dst[..] == Splice(was, targetStart, out)
    {
      ghost var i := source - sourceStart;
      var more, ch, fits;
      more, source, ch := NextUtf8(src, source, sourceEnd, sourceStart, text, bytes);
      if !more {
        ScanningCutOff(EmitCells, text, i, read, out, targetEnd - targetStart);
        result := SourceExhausted;
        return;
      }
      ScanningStep(EmitCells, text, i, read, out, ch);
      fits, target := AppendCells(ch, dst, target, targetEnd);
      if !fits {
        ScanningStops(EmitCells, text, source - sourceStart, read, out, ch, targetEnd - targetStart);
        result, read := TargetExhausted, read + [ch];
        return;
      }
      SpliceAppend(was, targetStart, out, EmitCells(ch));
      read, out := read + [ch], out + EmitCells(ch);
    }
    ScanningEnds(EmitCells, src[..], sourceStart, sourceEnd, text, bytes, source - sourceStart, read, out,
                 targetEnd - targetStart);
  }
}
