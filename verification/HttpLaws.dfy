// Printing and scanning heads undo each other, on exactly the headers and status lines where they can.

module HttpLaws {
  import opened Bytes
  import opened Sequences
  import opened Options
  import opened HttpSyntax

  // ---------------------------------------------------------------- escaping

  lemma {:induction false} EscapedHasNoBreak(value: seq<byte>)
    ensures CR !in FlatMap(EscapeByte, value) && LF !in FlatMap(EscapeByte, value)
    ensures IsCString(value) ==> IsCString(FlatMap(EscapeByte, value))
  {
    if value != [] { EscapedHasNoBreak(value[1..]); }
  }

  lemma EscapeIsOneLine(value: seq<byte>)
    requires IsCString(value)
    ensures CR !in Escape(value) && LF !in Escape(value) && IsCString(Escape(value))
  {
    EscapedHasNoBreak(value);
  }

  // The number that two decimal digits stand for.
  function TwoDigits(a: byte, b: byte): int { 10 * (a - 48) + (b - 48) }

  // A percent sign with the decimal number of a line feed, a carriage return or a percent sign.
  predicate StartsWithCode(s: seq<byte>) {
    |s| >= 3 && s[0] == PERCENT && IsDigit(s[1]) && IsDigit(s[2]) && TwoDigits(s[1], s[2]) in {10, 13, 37}
  }

  function Decoded(s: seq<byte>): byte
    requires StartsWithCode(s)
  {
    TwoDigits(s[1], s[2])
  }

  // What a reader of the codes makes of a value.
  function Unescape(s: seq<byte>): seq<byte> {
    if s == [] then []
    else if StartsWithCode(s) then [Decoded(s)] + Unescape(s[3..])
    else [s[0]] + Unescape(s[1..])
  }

  lemma {:induction false} UnescapeOfEscaped(value: seq<byte>)
    ensures Unescape(FlatMap(EscapeByte, value)) == value
  {
    if value != [] {
      hide EscapeByte, Unescape;
      UnescapeOfEscaped(value[1..]);
      UnescapeOfByte(value[0], FlatMap(EscapeByte, value[1..]));
    } else {
      assert Unescape([]) == [] by { UnescapeOfNothing(); }
    }
  }

  lemma UnescapeOfNothing()
    ensures Unescape([]) == []
  {
  }

  lemma UnescapeOfByte(b: byte, rest: seq<byte>)
    ensures Unescape(EscapeByte(b) + rest) == [b] + Unescape(rest)
  {
    hide Code, Unescape;
    if b == PERCENT || b == CR || b == LF {
      CodeIsDecimal(b);
      CodeIsRead(Code(b), b, rest);
    } else {
      PlainIsRead(b, rest);
    }
  }

  lemma CodeIsRead(code: seq<byte>, b: byte, rest: seq<byte>)
    requires |code| == 3 && code[0] == PERCENT && IsDigit(code[1]) && IsDigit(code[2])
    requires TwoDigits(code[1], code[2]) == b && b in {10, 13, 37}
    ensures Unescape(code + rest) == [b] + Unescape(rest)
  {
    hide TwoDigits;
    assert (code + rest)[3..] == rest;
  }

  lemma PlainIsRead(b: byte, rest: seq<byte>)
    requires b != PERCENT
    ensures Unescape([b] + rest) == [b] + Unescape(rest)
  {
    assert ([b] + rest)[1..] == rest;
  }

  // The code of a byte: a percent sign and the decimal digits of its number.
  lemma CodeIsDecimal(b: byte)
    requires b < 100
    ensures |Code(b)| == 3 && Code(b)[0] == PERCENT && IsDigit(Code(b)[1]) && IsDigit(Code(b)[2])
    ensures TwoDigits(Code(b)[1], Code(b)[2]) == b
  {
  }

  predicate NoCodeIn(s: seq<byte>) { forall i {:trigger s[i..]} :: 0 <= i <= |s| ==> !StartsWithCode(s[i..]) }

  lemma {:induction false} UnescapeLeavesPlain(s: seq<byte>)
    ensures |Unescape(s)| <= |s|
    ensures Unescape(s) == s <==> NoCodeIn(s)
    decreases |s|
  {
    if s == [] {
      assert NoCodeIn(s);
    } else if StartsWithCode(s) {
      UnescapeLeavesPlain(s[3..]);
      assert s[0..] == s;
    } else {
      UnescapeLeavesPlain(s[1..]);
      forall i | 0 <= i < |s| ensures s[1..][i..] == s[i + 1..] { }
      if NoCodeIn(s[1..]) {
        forall i | 0 <= i <= |s| ensures !StartsWithCode(s[i..]) {
          if i == 0 { assert s[0..] == s; } else { assert s[1..][i - 1..] == s[i..]; }
        }
      }
      if NoCodeIn(s) {
        forall i | 0 <= i <= |s[1..]| ensures !StartsWithCode(s[1..][i..]) { assert s[1..][i..] == s[i + 1..]; }
      }
    }
  }

  // The receiver can get a value back by decoding exactly when it had a line break in it, so that its
  // percent signs were escaped, too, or when it contains nothing that looks like a code.
  lemma EscapeIsReversible(value: seq<byte>)
    ensures Unescape(Escape(value)) == value <==> CR in value || LF in value || NoCodeIn(value)
  {
    UnescapeOfEscaped(value);
    UnescapeLeavesPlain(value);
  }

  // ---------------------------------------------------------------- one header

  // What NGScanHeaders can read back.
  predicate Readable(key: seq<byte>, value: seq<byte>) {
    && 1 <= |key| <= 255 && COLON !in key && key[0] != CR && key[0] != LF
    && 1 <= |value| <= 7999 && !IsSpace(value[0])
  }

  // What it reads has this shape, whatever the stream.
  lemma ScannedIsReadable(s: seq<byte>)
    requires ScanHeader(s).Header?
    ensures Readable(ScanHeader(s).name, ScanHeader(s).value)
  {
    hide NameEnd, SpaceEnd, ValueEnd, IsSpace;
    var i := NameEnd(s, 0);
    var v := SpaceEnd(s, i + 1);
    NameShape(s);
    SpaceShape(s, i + 1);
    assert ScanHeader(s) == ScanValue(s, i, v);
    assert v < |s| && s[v..ValueEnd(s, v)][0] == s[v];
  }

  lemma NameShape(s: seq<byte>)
    ensures COLON !in s[..NameEnd(s, 0)] && NUL !in s[..NameEnd(s, 0)]
  {
    assert s[0..] == s;
    forall k | 0 <= k < NameEnd(s, 0) ensures NameByte(s[k]) { assert NameByte(s[0..][k]); }
  }

  // A header as anyone may send it: any spaces, or none, between colon and value.
  datatype Field = Field(key: seq<byte>, spaces: seq<byte>, value: seq<byte>)

  predicate AreSpaces(s: seq<byte>) { forall i :: 0 <= i < |s| ==> IsSpace(s[i]) }

  predicate IsField(f: Field) {
    IsCString(f.key) && IsCString(f.value) && CR !in f.value && Readable(f.key, f.value) && AreSpaces(f.spaces)
  }

  function PrintField(f: Field): seq<byte> { f.key + [COLON] + f.spaces + f.value + CRLF }

  // word + space + next, in s at m.
  lemma Lies(s: seq<byte>, m: nat, word: seq<byte>, space: seq<byte>, next: seq<byte>)
    requires m <= |s| && s[m..] == word + space + next
    ensures var e := m + |word|; var f := e + |space|;
            && f <= |s| && s[m..e] == word && s[e..f] == space && s[f..] == next
            && (space != [] ==> s[e] == space[0]) && (next != [] ==> f < |s| && s[f] == next[0])
            && (word != [] ==> s[m] == word[0])
  {
    var e, f := m + |word|, m + |word| + |space|;
    assert |s[m..]| == |s| - m;
    assert s[m..e] == s[m..][..|word|] && s[e..f] == s[m..][|word|..|word| + |space|] && s[f..] == s[m..][|word| + |space|..];
    assert space != [] ==> s[e] == s[m..][|word|];
    assert next != [] ==> s[f] == s[m..][|word| + |space|];
    assert word != [] ==> s[m] == s[m..][0];
  }

  predicate IsStart(key: seq<byte>, spaces: seq<byte>) {
    1 <= |key| <= 255 && COLON !in key && IsCString(key) && key[0] != CR && key[0] != LF && AreSpaces(spaces)
  }

  // Name, colon and spaces are passed, whatever byte that is no space follows.
  lemma StartIsPassed(key: seq<byte>, spaces: seq<byte>, next: seq<byte>)
    requires IsStart(key, spaces) && next != [] && !IsSpace(next[0])
    ensures var s := key + [COLON] + spaces + next;
            var v := |key| + 1 + |spaces|;
            && v < |s| && ScanHeader(s) == ScanValue(s, |key|, v) && s[v..] == next && s[..|key|] == key
  {
    hide NameEnd, SpaceEnd, ScanValue, IsSpace, AreSpaces;
    var s := key + [COLON] + spaces + next;
    var i, v := |key|, |key| + 1 + |spaces|;
    assert s[..i] == key && s[i] == COLON && s[i + 1..v] == spaces && s[v..] == next && s[v] == next[0];
    assert s[0] == key[0] && key[0] in key;
    NameEndIs(s, i);
    SpacesEnd(s, i + 1, v);
  }

  // A value of this length, and what comes behind it.
  lemma ValueIsPassed(s: seq<byte>, v: nat, value: seq<byte>, x: byte, rest: seq<byte>)
    requires v <= |s| && s[v..] == value + [x] + rest && CR !in value && IsCString(value) && |value| <= 7999
    requires x == NUL || x == CR || |value| == 7999
    ensures var e := v + |value|;
            e < |s| && ValueEnd(s, v) == e && s[v..e] == value && s[e] == x && s[e + 1..] == rest && Drop(s, e + 1) == rest
  {
    var e := v + |value|;
    Lies(s, v, value, [x], rest);
    forall i | 0 <= i < |value| ensures ValueByte(s[v..][i]) { assert s[v..][i] == value[i] && value[i] in value; }
    assert s[v..][|value|] == x;
    SpanIs(s[v..], ValueByte, 7999, |value|);
  }

  lemma SpacesEnd(s: seq<byte>, m: nat, e: nat)
    requires m <= e < |s| && AreSpaces(s[m..e]) && !IsSpace(s[e])
    ensures SpaceEnd(s, m) == e
  {
    hide SpaceEnd;
    forall i | m <= i < e ensures IsSpace(s[i]) { assert s[i] == s[m..e][i - m]; }
    SpaceEndIs(s, m, e);
  }

  // Such a header is scanned as its key and value, up to exactly the bytes behind it.
  lemma FieldIsScanned(f: Field, tail: seq<byte>)
    requires IsField(f)
    ensures ScanHeader(PrintField(f) + tail) == Header(f.key, f.value, tail)
  {
    hide ScanHeader, ScanValue, ValueEnd, IsSpace, AreSpaces, PrintField;
    var next := f.value + [CR] + ([LF] + tail);
    var s := f.key + [COLON] + f.spaces + next;
    var v := |f.key| + 1 + |f.spaces|;
    var e := v + |f.value|;
    FieldIsNested(f, tail);
    StartIsPassed(f.key, f.spaces, next);
    ValueIsPassed(s, v, f.value, CR, [LF] + tail);
    NextByte(s, e + 1, LF, tail);
    ScanGoodValue(s, |f.key|, v, e);
  }

  lemma NextByte(s: seq<byte>, i: nat, x: byte, rest: seq<byte>)
    requires i <= |s| && s[i..] == [x] + rest
    ensures i < |s| && s[i] == x && s[i + 1..] == rest
  {
    assert s[i] == s[i..][0] && s[i + 1..] == s[i..][1..];
  }

  lemma ScanGoodValue(s: seq<byte>, i: nat, v: nat, e: nat)
    requires i < v < e && e + 1 < |s| && ValueEnd(s, v) == e && s[e] == CR && s[e + 1] == LF
    ensures ScanValue(s, i, v) == Header(s[..i], s[v..e], s[e + 2..])
  {
    hide ValueEnd;
  }

  lemma FieldIsNested(f: Field, tail: seq<byte>)
    ensures PrintField(f) + tail == f.key + [COLON] + f.spaces + (f.value + [CR] + ([LF] + tail))
  {
  }

  // A header as the proxy prints it.
  function Printed(e: Entry): Field { Field(e.key, [SPACE], Escape(e.val)) }

  lemma PrintedIsField(key: seq<byte>, value: seq<byte>)
    requires IsCString(key) && IsCString(value)
    ensures PrintHeader(key, value) == PrintField(Printed(Entry(key, value)))
    ensures IsField(Printed(Entry(key, value))) <==> Readable(key, Escape(value))
  {
    hide Escape;
    EscapeIsOneLine(value);
    assert key + [COLON, SPACE] + Escape(value) + CRLF == key + [COLON] + [SPACE] + Escape(value) + CRLF;
  }

  // The characters of the protocol.
  lemma Punctuation()
    ensures [COLON] == Ascii(":") && [SPACE] == Ascii(" ") && CRLF == Ascii("\r\n") && [CR] + [LF] == CRLF
    ensures [PERCENT] == Ascii("%") && [PLUS] == Ascii("+") && [MINUS] == Ascii("-") && NUL == 0
  {
    hide Ascii;
  }

  lemma PrintedLiterally(key: seq<byte>, value: seq<byte>)
    ensures PrintHeader(key, value) == key + Ascii(": ") + Escape(value) + Ascii("\r\n")
  {
    hide Ascii, Escape;
    assert Ascii(": ") == [58, 32] && Ascii("\r\n") == [13, 10];
  }

  // A printed header is scanned as what was printed, up to exactly the bytes behind it,
  // if and only if it is readable.
  lemma HeaderRoundTrip(key: seq<byte>, value: seq<byte>, tail: seq<byte>)
    requires IsCString(key) && IsCString(value)
    ensures ScanHeader(PrintHeader(key, value) + tail) == Header(key, Escape(value), tail)
       <==> Readable(key, Escape(value))
  {
    hide Escape, PrintHeader, PrintField, ScanHeader, IsField, Readable;
    var s := PrintHeader(key, value) + tail;
    PrintedIsField(key, value);
    if ScanHeader(s) == Header(key, Escape(value), tail) { ScannedIsReadable(s); }
    if Readable(key, Escape(value)) { FieldIsScanned(Printed(Entry(key, value)), tail); }
  }

  lemma NameEndIs(s: seq<byte>, e: nat)
    requires e < |s| && e <= 255 && s[e] == COLON && COLON !in s[..e] && NUL !in s[..e]
    ensures NameEnd(s, 0) == e
  {
    assert s[0..] == s;
    forall i | 0 <= i < e ensures NameByte(s[0..][i]) { assert s[i] in s[..e]; }
    SpanIs(s[0..], NameByte, 255, e);
  }

  lemma SpaceEndIs(s: seq<byte>, m: nat, e: nat)
    requires m <= e < |s| && !IsSpace(s[e]) && (forall i :: m <= i < e ==> IsSpace(s[i]))
    ensures SpaceEnd(s, m) == e
  {
    SpanIs(s[m..], SpaceByte, |s|, e - m);
  }

  // ---------------------------------------------------------------- whole heads

  predicate AllReadable(entries: Table) {
    forall i :: 0 <= i < |entries| ==>
      && IsCString(entries[i].key) && IsCString(entries[i].val)
      && Readable(entries[i].key, Escape(entries[i].val))
  }

  // The entries as the receiver sees them.
  function Received(entries: Table): Table {
    seq(|entries|, i requires 0 <= i < |entries| => Entry(entries[i].key, Escape(entries[i].val)))
  }

  // The empty line that ends a head: a line feed, or a carriage return with any byte.
  predicate IsEmptyLine(blank: seq<byte>) { blank == [LF] || (|blank| == 2 && blank[0] == CR) }

  lemma EmptyLineEnds(blank: seq<byte>, rest: seq<byte>)
    requires IsEmptyLine(blank)
    ensures ScanHeader(blank + rest) == Stop(rest)
  {
    var s := blank + rest;
    assert s[0] == blank[0] && s[|blank|..] == rest;
    assert Drop(s, |blank|) == rest;
  }

  predicate AreFields(fs: seq<Field>) { forall f :: f in fs ==> IsField(f) }

  function Contents(fs: seq<Field>): (t: Table)
    ensures |t| == |fs|
  {
    seq(|fs|, i requires 0 <= i < |fs| => Entry(fs[i].key, fs[i].value))
  }

  // Headers from anyone, up to whatever ends the head, are scanned as their contents set one after the other.
  lemma {:induction false} FieldsUpTo(fs: seq<Field>, t: Table, tail: seq<byte>)
    requires AreFields(fs) && ScanHeader(tail).Stop?
    ensures ScanHeaders(FlatMap(PrintField, fs) + tail, t) == Head(SetAll(t, Contents(fs)), ScanHeader(tail).rest)
    decreases |fs|
  {
    hide ScanHeader, PrintField, IsField, TableSet;
    if fs == [] {
      assert FlatMap(PrintField, fs) + tail == tail;
    } else {
      var f, more := fs[0], fs[1..];
      assert FlatMap(PrintField, fs) + tail == PrintField(f) + (FlatMap(PrintField, more) + tail);
      assert Contents(fs)[1..] == Contents(more);
      FieldIsScanned(f, FlatMap(PrintField, more) + tail);
      FieldsUpTo(more, TableSet(t, f.key, f.value), tail);
    }
  }

  // Either empty line ends them, and exactly the bytes behind it are left.
  lemma FieldsRoundTrip(fs: seq<Field>, t: Table, blank: seq<byte>, rest: seq<byte>)
    requires AreFields(fs) && IsEmptyLine(blank)
    ensures ScanHeaders(FlatMap(PrintField, fs) + blank + rest, t) == Head(SetAll(t, Contents(fs)), rest)
  {
    hide ScanHeader, ScanHeaders, FlatMap, AreFields, IsEmptyLine, Contents, SetAll;
    EmptyLineEnds(blank, rest);
    FieldsUpTo(fs, t, blank + rest);
    assert FlatMap(PrintField, fs) + blank + rest == FlatMap(PrintField, fs) + (blank + rest);
  }

  function AllPrinted(entries: Table): (fs: seq<Field>)
    ensures |fs| == |entries|
  {
    seq(|entries|, i requires 0 <= i < |entries| => Printed(entries[i]))
  }

  lemma {:induction false} PrintedAreFields(entries: Table)
    requires AllReadable(entries)
    ensures FlatMap(PrintEntry, entries) == FlatMap(PrintField, AllPrinted(entries))
    ensures AreFields(AllPrinted(entries)) && Contents(AllPrinted(entries)) == Received(entries)
  {
    hide IsField, PrintField, PrintHeader, Escape, Readable;
    if entries != [] {
      PrintedAreFields(entries[1..]);
      PrintedIsField(entries[0].key, entries[0].val);
      assert AllPrinted(entries) == [Printed(entries[0])] + AllPrinted(entries[1..]);
    }
  }

  // Printed headers, ended by an empty line, are scanned as the entries set one after the other,
  // leaving exactly the bytes behind the empty line.
  lemma HeadRoundTrip(entries: Table, t: Table, blank: seq<byte>, rest: seq<byte>)
    requires AllReadable(entries) && IsEmptyLine(blank)
    ensures ScanHeaders(FlatMap(PrintEntry, entries) + blank + rest, t) == Head(SetAll(t, Received(entries)), rest)
  {
    hide FlatMap, AllReadable, IsEmptyLine, ScanHeaders, SetAll, AllPrinted, Received, AreFields;
    PrintedAreFields(entries);
    FieldsRoundTrip(AllPrinted(entries), t, blank, rest);
  }

  // ---------------------------------------------------------------- tables

  // The value of the last entry with the key.
  function LastValue(entries: Table, key: seq<byte>, before: Option<seq<byte>>): Option<seq<byte>>
    decreases |entries|
  {
    if entries == [] then before
    else LastValue(entries[1..], key, if SameKey(entries[0].key, key) then Some(entries[0].val) else before)
  }

  lemma {:induction false} GetAfterWithout(t: Table, key: seq<byte>, k: seq<byte>)
    ensures TableGet(Without(t, key), k) == if SameKey(key, k) then None else TableGet(t, k)
  {
    if t != [] {
      GetAfterWithout(t[1..], key, k);
      if SameKey(t[0].key, key) { SameKeyIsTransitive(t[0].key, key, k); }
      else if SameKey(key, k) { SameKeyIsTransitive(t[0].key, k, key); }
    }
  }

  lemma SameKeyIsTransitive(a: seq<byte>, b: seq<byte>, c: seq<byte>)
    requires SameKey(a, b) || SameKey(b, c)
    ensures SameKey(a, b) ==> (SameKey(a, c) <==> SameKey(b, c))
    ensures SameKey(b, c) ==> (SameKey(a, c) <==> SameKey(a, b))
    ensures SameKey(b, c) <==> SameKey(c, b)
  {
  }

  lemma {:induction false} GetAfterSet(t: Table, key: seq<byte>, val: seq<byte>, k: seq<byte>)
    ensures TableGet(TableSet(t, key, val), k) == if SameKey(key, k) then Some(val) else TableGet(t, k)
  {
    if t != [] {
      GetAfterSet(t[1..], key, val, k);
      GetAfterWithout(t[1..], key, k);
      if SameKey(t[0].key, key) { SameKeyIsTransitive(t[0].key, key, k); }
      else if SameKey(key, k) { SameKeyIsTransitive(t[0].key, k, key); }
    }
  }

  // Keys are the same if they differ in nothing but upper and lower case letters.
  lemma KeysAreCaseless(a: seq<byte>, b: seq<byte>)
    ensures SameKey(a, b) <==> |a| == |b| && forall i :: 0 <= i < |a| ==>
              a[i] == b[i] || ('A' as int <= a[i] <= 'Z' as int && b[i] == a[i] + 32)
                           || ('A' as int <= b[i] <= 'Z' as int && a[i] == b[i] + 32)
  {
  }

  lemma SixSpaces(c: byte)
    ensures IsSpace(c) <==> c in Ascii(" \t\n\r") + [11, 12]
  {
    var few := Ascii(" \t\n\r");
    assert few[0] == 32 && few[1] == 9 && few[2] == 10 && few[3] == 13;
    assert few == [32, 9, 10, 13];
  }

  // Looking a key up after setting many entries finds the last one with that key.
  lemma {:induction false} LastEntryWins(t: Table, entries: Table, k: seq<byte>)
    ensures TableGet(SetAll(t, entries), k) == LastValue(entries, k, TableGet(t, k))
    decreases |entries|
  {
    if entries != [] {
      GetAfterSet(t, entries[0].key, entries[0].val, k);
      LastEntryWins(TableSet(t, entries[0].key, entries[0].val), entries[1..], k);
    }
  }

  // ---------------------------------------------------------------- status lines

  predicate IsWord(w: seq<byte>) { forall i :: 0 <= i < |w| ==> w[i] != NUL && !IsSpace(w[i]) }

  // A status line: what follows the code is nothing, or starts with a space.
  function PrintLine(version: seq<byte>, code: seq<byte>, tail: seq<byte>): seq<byte> {
    version + [SPACE] + code + tail + CRLF
  }

  predicate IsLine(version: seq<byte>, code: seq<byte>, tail: seq<byte>) {
    && |version| <= 16 && IsWord(version) && 1 <= |code| <= 6 && IsWord(code)
    && NUL !in tail && LF !in tail && (tail == [] || IsSpace(tail[0]))
  }

  // The line has a reason phrase: something other than spaces behind the code.
  predicate HasReason(tail: seq<byte>) { exists i :: 0 <= i < |tail| && !IsSpace(tail[i]) }

  lemma WordEndIs(s: seq<byte>, m: nat, max: nat, e: nat)
    requires m <= e < |s| && e - m <= max && IsWord(s[m..e]) && (e - m < max ==> !WordByte(s[e]))
    ensures WordEnd(s, m, max) == e
  {
    forall i | 0 <= i < e - m ensures WordByte(s[m..][i]) { assert s[m..][i] == s[m..e][i]; }
    SpanIs(s[m..], WordByte, max, e - m);
  }

  lemma LineEndIs(s: seq<byte>, m: nat, e: nat)
    requires m <= e < |s| && s[e] == LF && NUL !in s[m..e] && LF !in s[m..e]
    ensures LineEnd(s, m) == e
  {
    forall i | 0 <= i < e - m ensures LineByte(s[m..][i]) { assert s[m + i] == s[m..e][i]; }
    SpanIs(s[m..], LineByte, |s|, e - m);
  }

  lemma LineLayout(version: seq<byte>, code: seq<byte>, tail: seq<byte>, rest: seq<byte>)
    ensures var s := PrintLine(version, code, tail) + rest;
            var b := |version| + 1 + |code|;
            && |s| == b + |tail| + 2 + |rest| && s[0..|version|] == s[..|version|] == version && s[|version|] == SPACE
            && s[|version| + 1..b] == code && s[b..b + |tail|] == tail
            && s[b + |tail|] == CR && s[b + |tail| + 1] == LF && s[b + |tail| + 2..] == rest
  {
  }

  // Up to the code the line is scanned as printed.
  lemma CodeIsScanned(version: seq<byte>, code: seq<byte>, tail: seq<byte>, rest: seq<byte>)
    requires IsLine(version, code, tail)
    ensures var s := PrintLine(version, code, tail) + rest;
            var b := |version| + 1 + |code|;
            b <= |s| && ScanLine(s) == ScanReason(s, |version|, Atoi(code), SpaceEnd(s, b))
  {
    hide WordEnd, SpaceEnd, Atoi, PrintLine, ScanReason;
    var s := PrintLine(version, code, tail) + rest;
    var v := |version|;
    var b := v + 1 + |code|;
    LineLayout(version, code, tail, rest);
    assert tail != [] ==> s[b] == s[b..b + |tail|][0];
    assert s[v + 1] == s[v + 1..b][0] == code[0];
    WordEndIs(s, 0, 16, v);
    SpaceEndIs(s, v, v + 1);
    WordEndIs(s, v + 1, 6, b);
  }

  // With a reason the scan ends exactly behind the line.
  lemma ReasonIsScanned(version: seq<byte>, code: seq<byte>, tail: seq<byte>, rest: seq<byte>)
    requires IsLine(version, code, tail) && HasReason(tail)
    ensures var p := SpaceEnd(tail, 0);
            ScanLine(PrintLine(version, code, tail) + rest) == Line(version, Atoi(code), tail[p..WordEnd(tail, p, 6)], rest)
  {
    hide WordEnd, SpaceEnd, LineEnd, Atoi, PrintLine, ScanLine, ScanReason, Goes, HasReason, IsWord;
    var s, b := PrintLine(version, code, tail) + rest, |version| + 1 + |code|;
    CodeIsScanned(version, code, tail, rest);
    LineLayout(version, code, tail, rest);
    ReasonInPlace(s, tail, b);
    ReasonStep(s, |version|, Atoi(code), SpaceEnd(s, b));
  }

  lemma ReasonStep(s: seq<byte>, v: nat, status: int, e: nat)
    requires v <= e && Goes(s, e) && Goes(s, WordEnd(s, e, 6)) && Goes(s, LineEnd(s, WordEnd(s, e, 6)))
    ensures ScanReason(s, v, status, e)
         == Line(s[..v], status, s[e..WordEnd(s, e, 6)], s[LineEnd(s, WordEnd(s, e, 6)) + 1..])
  {
    hide WordEnd, LineEnd;
  }

  // The reason of a tail that lies in s at b, up to the line end behind it.
  lemma ReasonInPlace(s: seq<byte>, tail: seq<byte>, b: nat)
    requires b + |tail| + 2 <= |s| && s[b..b + |tail|] == tail && s[b + |tail|] == CR && s[b + |tail| + 1] == LF
    requires NUL !in tail && LF !in tail && HasReason(tail)
    ensures var p := SpaceEnd(tail, 0);
            && p < |tail| && SpaceEnd(s, b) == b + p
            && WordEnd(s, b + p, 6) == b + WordEnd(tail, p, 6)
            && LineEnd(s, b + WordEnd(tail, p, 6)) == b + |tail| + 1
            && s[b + p..b + WordEnd(tail, p, 6)] == tail[p..WordEnd(tail, p, 6)]
            && Goes(s, b + p) && Goes(s, b + WordEnd(tail, p, 6)) && Goes(s, b + |tail| + 1)
  {
    hide WordEnd, SpaceEnd, LineEnd, IsWord, HasReason;
    FirstReason(tail);
    var p := SpaceEnd(tail, 0);
    var q := WordEnd(tail, p, 6);
    Embedded(s, tail, b, p);
    Embedded(s, tail, b, q);
    SpacesInPlace(s, tail, b);
    WordInPlace(s, tail, b);
    LineInPlace(s, tail, b, q);
  }

  lemma Embedded(s: seq<byte>, tail: seq<byte>, b: nat, i: nat)
    requires b + |tail| <= |s| && s[b..b + |tail|] == tail && i <= |tail|
    ensures i < |tail| ==> s[b + i] == tail[i] && tail[i] in tail
  {
  }

  lemma SpacesInPlace(s: seq<byte>, tail: seq<byte>, b: nat)
    requires b + |tail| + 2 <= |s| && s[b..b + |tail|] == tail && HasReason(tail)
    ensures SpaceEnd(s, b) == b + SpaceEnd(tail, 0)
  {
    hide WordEnd, SpaceEnd, LineEnd, IsSpace;
    FirstReason(tail);
    var p := SpaceEnd(tail, 0);
    Embedded(s, tail, b, p);
    forall i | b <= i < b + p ensures IsSpace(s[i]) { Embedded(s, tail, b, i - b); }
    SpaceEndIs(s, b, b + p);
  }

  lemma WordInPlace(s: seq<byte>, tail: seq<byte>, b: nat)
    requires b + |tail| + 2 <= |s| && s[b..b + |tail|] == tail && s[b + |tail|] == CR && HasReason(tail)
    ensures var p := SpaceEnd(tail, 0);
            WordEnd(s, b + p, 6) == b + WordEnd(tail, p, 6) && s[b + p..b + WordEnd(tail, p, 6)] == tail[p..WordEnd(tail, p, 6)]
  {
    hide WordEnd, SpaceEnd, LineEnd, IsWord;
    FirstReason(tail);
    var p := SpaceEnd(tail, 0);
    var q := WordEnd(tail, p, 6);
    Embedded(s, tail, b, q);
    SliceWithin(s, tail, b, p, q);
    WordEndIs(s, b + p, 6, b + q);
  }

  lemma LineInPlace(s: seq<byte>, tail: seq<byte>, b: nat, q: nat)
    requires b + |tail| + 2 <= |s| && s[b..b + |tail|] == tail && s[b + |tail|] == CR && s[b + |tail| + 1] == LF
    requires NUL !in tail && LF !in tail && q <= |tail|
    ensures LineEnd(s, b + q) == b + |tail| + 1
  {
    hide LineEnd;
    var g := b + |tail| + 1;
    forall i | b + q <= i < g ensures s[i] != LF && s[i] != NUL {
      if i < b + |tail| { Embedded(s, tail, b, i - b); }
    }
    LineEndIs(s, b + q, g);
  }

  lemma FirstReason(tail: seq<byte>)
    requires HasReason(tail)
    ensures var p := SpaceEnd(tail, 0);
            && p < |tail| && !IsSpace(tail[p]) && (forall i :: 0 <= i < p ==> IsSpace(tail[i]))
            && IsWord(tail[p..WordEnd(tail, p, 6)])
            && (WordEnd(tail, p, 6) < |tail| && WordEnd(tail, p, 6) < p + 6 ==> !WordByte(tail[WordEnd(tail, p, 6)]))
  {
    hide WordEnd, IsWord, WordByte;
    assert tail[0..] == tail;
    var p := SpaceEnd(tail, 0);
    var k :| 0 <= k < |tail| && !IsSpace(tail[k]);
    forall i | 0 <= i < p ensures IsSpace(tail[i]) { assert SpaceByte(tail[0..][i]); }
    SpaceShape(tail, 0);
    WordShape(tail, p, 6);
  }

  lemma WordShape(s: seq<byte>, m: nat, max: nat)
    requires m <= |s|
    ensures var e := WordEnd(s, m, max); IsWord(s[m..e]) && (e < |s| && e < m + max ==> !WordByte(s[e]))
  {
    var n := WordEnd(s, m, max) - m;
    forall b | b in s[m..m + n] ensures WordByte(b) {
      var i :| 0 <= i < n && s[m..m + n][i] == b;
      assert WordByte(s[m..][i]);
    }
    assert m + n < |s| && n < max ==> !WordByte(s[m..][n]);
  }

  // Without one the spaces skipped behind the code include the line end, so that
  // bytes behind the line are consumed, too.
  lemma NoReasonEatsOn(version: seq<byte>, code: seq<byte>, tail: seq<byte>, rest: seq<byte>)
    requires IsLine(version, code, tail) && !HasReason(tail)
    ensures var r := ScanLine(PrintLine(version, code, tail) + rest); r.Line? ==> |r.rest| < |rest|
  {
    hide WordEnd, SpaceEnd, LineEnd, Atoi, PrintLine, ScanLine;
    CodeIsScanned(version, code, tail, rest);
    LineLayout(version, code, tail, rest);
    var s := PrintLine(version, code, tail) + rest;
    var b := |version| + 1 + |code|;
    var k := b + |tail| + 2;
    forall i | b <= i < k ensures IsSpace(s[i]) {
      if i < b + |tail| { assert s[i] == s[b..b + |tail|][i - b] == tail[i - b]; }
      else { assert s[i] == CR || s[i] == LF; }
    }
    SpacesReach(s, b, k);
  }

  lemma SpacesReach(s: seq<byte>, m: nat, k: nat)
    requires m <= k <= |s| && (forall i :: m <= i < k ==> IsSpace(s[i]))
    ensures SpaceEnd(s, m) >= k
  {
    var n := Span(s[m..], SpaceByte, |s|);
    assert m + n < k ==> SpaceByte(s[m..][n]);
  }

  // A status line is scanned up to exactly the bytes behind it if and only if it has a reason phrase.
  lemma StatusLineRoundTrip(version: seq<byte>, code: seq<byte>, tail: seq<byte>, rest: seq<byte>)
    requires IsLine(version, code, tail)
    ensures var r := ScanLine(PrintLine(version, code, tail) + rest);
            && (r.Line? && r.rest == rest <==> HasReason(tail))
            && (HasReason(tail) ==> r.version == version && r.status == Atoi(code))
  {
    if HasReason(tail) { ReasonIsScanned(version, code, tail, rest); }
    else { NoReasonEatsOn(version, code, tail, rest); }
  }
}
