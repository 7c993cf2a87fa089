// The forms of status lines and headers, declared byte by byte, and what the scanners make of each of them.

module HttpForms {
  import opened Bytes
  import opened Sequences
  import opened HttpSyntax
  import opened HttpLaws

  // ---------------------------------------------------------------- status lines

  // Words of limited length with spaces between them; no space is needed behind a word of full length.
  datatype StatusLine = StatusLine(version: seq<byte>, gap: seq<byte>, code: seq<byte>, space: seq<byte>,
                                   reason: seq<byte>, more: seq<byte>)

  // A word at the start of a longer text: it ends before a space, or because it is full.
  predicate IsWordOf(word: seq<byte>, max: nat, space: seq<byte>) {
    IsWord(word) && |word| <= max && (|word| < max ==> space != [])
  }

  predicate IsStatusLine(l: StatusLine) {
    && IsWordOf(l.version, 16, l.gap) && AreSpaces(l.gap)
    && l.code != [] && IsWordOf(l.code, 6, l.space) && AreSpaces(l.space)
    && l.reason != [] && IsWord(l.reason) && |l.reason| <= 6
    && NUL !in l.more && LF !in l.more && (|l.reason| < 6 && l.more != [] ==> IsSpace(l.more[0]))
  }

  function PrintStatusLine(l: StatusLine): seq<byte> {
    l.version + l.gap + (l.code + l.space + (l.reason + l.more + [LF]))
  }

  predicate Parts(text: seq<byte>, word: seq<byte>, space: seq<byte>, next: seq<byte>) { text == word + space + next }

  // Scanning a word and the spaces behind it.
  lemma WordIsScanned(s: seq<byte>, m: nat, word: seq<byte>, max: nat, space: seq<byte>, next: seq<byte>)
    requires m <= |s| && Parts(s[m..], word, space, next)
    requires IsWordOf(word, max, space) && AreSpaces(space) && next != [] && WordByte(next[0])
    ensures var e := m + |word|; var f := e + |space|;
            && f < |s| && WordEnd(s, m, max) == e && SpaceEnd(s, e) == f && s[m..e] == word && s[f..] == next
            && Goes(s, e) && Goes(s, f)
  {
    hide WordEnd, SpaceEnd, IsWord;
    var e := m + |word|;
    Lies(s, m, word, space, next);
    assert space != [] ==> IsSpace(space[0]);
    WordEndIs(s, m, max, e);
    SpacesEnd(s, e, e + |space|);
  }

  lemma ReasonLineIsScanned(s: seq<byte>, m: nat, reason: seq<byte>, more: seq<byte>, rest: seq<byte>)
    requires m <= |s| && Parts(s[m..], reason, more, [LF] + rest) && IsWord(reason) && |reason| <= 6
    requires NUL !in more && LF !in more && (|reason| < 6 && more != [] ==> IsSpace(more[0]))
    ensures var f := m + |reason|; var g := f + |more|;
            && g < |s| && WordEnd(s, m, 6) == f && LineEnd(s, f) == g && s[m..f] == reason && s[g + 1..] == rest
            && Goes(s, f) && Goes(s, g)
  {
    hide WordEnd, LineEnd, IsWord;
    var f := m + |reason|;
    var g := f + |more|;
    Lies(s, m, reason, more, [LF] + rest);
    assert more != [] ==> more[0] in more;
    assert s[g + 1..] == s[g..][1..] == rest;
    WordEndIs(s, m, 6, f);
    LineEndIs(s, f, g);
  }

  // Up to the reason.
  lemma CodeOfLine(s: seq<byte>, version: seq<byte>, gap: seq<byte>, middle: seq<byte>,
                   code: seq<byte>, space: seq<byte>, tail: seq<byte>)
    requires Parts(s[0..], version, gap, middle) && Parts(middle, code, space, tail)
    requires IsWordOf(version, 16, gap) && AreSpaces(gap) && IsWordOf(code, 6, space) && AreSpaces(space)
    requires code != [] && tail != [] && WordByte(tail[0])
    ensures var c := |version| + |gap| + |code| + |space|;
            c < |s| && s[c..] == tail && Goes(s, c) && ScanLine(s) == ScanReason(s, |version|, Atoi(code), c)
  {
    hide ScanLine, WordEnd, SpaceEnd, Atoi, IsWord, IsWordOf, Goes, AreSpaces, ScanReason, WordByte, Parts;
    var a := |version| + |gap|;
    WordOfIsWord(code, 6, space);
    StartsWithWord(middle, code, space, tail);
    WordIsScanned(s, 0, version, 16, gap, middle);
    WordIsScanned(s, a, code, 6, space, tail);
    CodeStep(s, |version|, a, a + |code|, a + |code| + |space|);
  }

  // Every status line is scanned as its parts, up to exactly the bytes behind it.
  lemma StatusLineIsScanned(l: StatusLine, rest: seq<byte>)
    requires IsStatusLine(l)
    ensures ScanLine(PrintStatusLine(l) + rest) == Line(l.version, Atoi(l.code), l.reason, rest)
  {
    hide ScanLine, WordEnd, SpaceEnd, LineEnd, Atoi, IsWord, IsWordOf, Goes, AreSpaces, PrintStatusLine, ScanReason, WordByte, Parts;
    var s := PrintStatusLine(l) + rest;
    var c := |l.version| + |l.gap| + |l.code| + |l.space|;
    var tail := l.reason + l.more + ([LF] + rest);
    var middle := l.code + l.space + tail;
    Nested(l, rest, middle, tail);
    StartsWithWord(tail, l.reason, l.more, [LF] + rest);
    CodeOfLine(s, l.version, l.gap, middle, l.code, l.space, tail);
    ReasonLineIsScanned(s, c, l.reason, l.more, rest);
    ReasonStep(s, |l.version|, Atoi(l.code), c);
  }

  lemma CodeStep(s: seq<byte>, v: nat, a: nat, b: nat, e: nat)
    requires v <= a <= b <= |s| && WordEnd(s, 0, 16) == v && SpaceEnd(s, v) == a && WordEnd(s, a, 6) == b && SpaceEnd(s, b) == e
    requires Goes(s, v) && Goes(s, a)
    ensures ScanLine(s) == ScanReason(s, v, Atoi(s[a..b]), e)
  {
    hide WordEnd, SpaceEnd, Atoi, ScanReason;
  }

  lemma WordOfIsWord(word: seq<byte>, max: nat, space: seq<byte>)
    requires IsWordOf(word, max, space)
    ensures IsWord(word)
  {
  }

  lemma Nested(l: StatusLine, rest: seq<byte>, middle: seq<byte>, tail: seq<byte>)
    requires tail == l.reason + l.more + ([LF] + rest) && middle == l.code + l.space + tail
    ensures var s := PrintStatusLine(l) + rest;
            && Parts(s[0..], l.version, l.gap, middle) && Parts(middle, l.code, l.space, tail)
            && Parts(tail, l.reason, l.more, [LF] + rest)
  {
  }

  lemma StartsWithWord(text: seq<byte>, word: seq<byte>, space: seq<byte>, behind: seq<byte>)
    requires word != [] && IsWord(word) && Parts(text, word, space, behind)
    ensures text != [] && WordByte(text[0])
  {
    assert text[0] == word[0];
  }

  // The parts of whatever is accepted.
  function FormOf(s: seq<byte>): StatusLine
  {
    var v := WordEnd(s, 0, 16);
    var a := SpaceEnd(s, v);
    var b := WordEnd(s, a, 6);
    var e := SpaceEnd(s, b);
    var f := WordEnd(s, e, 6);
    var g := LineEnd(s, f);
    StatusLine(s[0..v], s[v..a], s[a..b], s[b..e], s[e..f], s[f..g])
  }

  lemma SpacesShape(s: seq<byte>, m: nat)
    requires m <= |s|
    ensures AreSpaces(s[m..SpaceEnd(s, m)])
  {
    var n := Span(s[m..], SpaceByte, |s|);
    forall b | b in s[m..m + n] ensures IsSpace(b) {
      var i :| 0 <= i < n && s[m..m + n][i] == b;
      assert SpaceByte(s[m..][i]);
    }
  }

  lemma LineShape(s: seq<byte>, m: nat)
    requires m <= |s|
    ensures NUL !in s[m..LineEnd(s, m)] && LF !in s[m..LineEnd(s, m)]
    ensures Goes(s, LineEnd(s, m)) ==> s[LineEnd(s, m)] == LF
  {
    var n := Span(s[m..], LineByte, |s|);
    forall b | b in s[m..m + n] ensures LineByte(b) {
      var i :| 0 <= i < n && s[m..m + n][i] == b;
      assert LineByte(s[m..][i]);
    }
    assert m + n < |s| ==> !LineByte(s[m..][n]);
  }

  // A word and the spaces behind it, where something goes on behind both.
  lemma WordAndSpaces(s: seq<byte>, m: nat, max: nat)
    requires m <= |s|
    ensures var e := WordEnd(s, m, max); var f := SpaceEnd(s, e);
            Goes(s, e) && Goes(s, f) ==> IsWordOf(s[m..e], max, s[e..f]) && AreSpaces(s[e..f]) && WordByte(s[f])
  {
    hide WordEnd, SpaceEnd, IsWord, AreSpaces;
    var e := WordEnd(s, m, max);
    var f := SpaceEnd(s, e);
    WordShape(s, m, max);
    SpacesShape(s, e);
    SpaceShape(s, e);
  }

  lemma FirstOfWord(s: seq<byte>, m: nat, max: nat)
    requires m < |s| && WordByte(s[m]) && max > 0
    ensures WordEnd(s, m, max) > m
  {
    var n := Span(s[m..], WordByte, max);
    assert n < |s[m..]| && n < max ==> !WordByte(s[m..][n]);
  }

  // Only status lines are accepted.
  lemma ScannedIsStatusLine(s: seq<byte>)
    requires ScanLine(s).Line?
    ensures var l := FormOf(s);
            && IsStatusLine(l) && s == PrintStatusLine(l) + ScanLine(s).rest
            && ScanLine(s) == Line(l.version, Atoi(l.code), l.reason, ScanLine(s).rest)
  {
    hide WordEnd, SpaceEnd, LineEnd, Atoi, IsWord, AreSpaces;
    var v := WordEnd(s, 0, 16);
    var a := SpaceEnd(s, v);
    var b := WordEnd(s, a, 6);
    var e := SpaceEnd(s, b);
    var f := WordEnd(s, e, 6);
    var g := LineEnd(s, f);
    WordAndSpaces(s, 0, 16);
    FirstOfWord(s, a, 6);
    CodeGoesOn(s, b);
    WordAndSpaces(s, a, 6);
    FirstOfWord(s, e, 6);
    WordShape(s, e, 6);
    LineShape(s, f);
    MoreStarts(s, e, f, g);
    assert s[..v] == s[0..v];
    Reassemble(s, v, a, b, e, f, g);
  }

  // The byte behind the code, if the one behind the spaces is no NUL, is none, either.
  lemma CodeGoesOn(s: seq<byte>, b: nat)
    requires b <= |s|
    ensures Goes(s, SpaceEnd(s, b)) ==> Goes(s, b)
  {
    var n := Span(s[b..], SpaceByte, |s|);
    if n > 0 { assert SpaceByte(s[b..][0]); }
  }

  lemma MoreStarts(s: seq<byte>, e: nat, f: nat, g: nat)
    requires e <= f <= g < |s| && (f < e + 6 ==> !WordByte(s[f])) && NUL !in s[f..g]
    ensures |s[e..f]| < 6 && s[f..g] != [] ==> IsSpace(s[f..g][0])
  {
    assert f < g ==> s[f..g][0] == s[f] && s[f..g][0] in s[f..g];
  }

  lemma Reassemble(s: seq<byte>, v: nat, a: nat, b: nat, e: nat, f: nat, g: nat)
    requires v <= a <= b <= e <= f <= g < |s| && s[g] == LF
    ensures s == s[0..v] + s[v..a] + (s[a..b] + s[b..e] + (s[e..f] + s[f..g] + [LF])) + s[g + 1..]
  {
  }

  // ---------------------------------------------------------------- headers that end the head

  // A name that is too long, ends with a NUL, or is missing: the byte at fault is consumed with it.
  lemma BadNameStops(key: seq<byte>, x: byte, rest: seq<byte>)
    requires COLON !in key && IsCString(key) && |key| <= 255
    requires if key == [] then x == NUL || x == COLON
             else key[0] != CR && key[0] != LF && (x == NUL || (|key| == 255 && x != COLON))
    ensures ScanHeader(key + [x] + rest) == Stop(rest)
  {
    hide NameEnd;
    var s := key + [x] + rest;
    var i := |key|;
    assert s[..i] == key && s[i] == x && s[i + 1..] == rest && Drop(s, i + 1) == rest;
    assert key != [] ==> s[0] == key[0] && key[0] in key;
    NameStopsAt(s, i);
  }

  lemma NameStopsAt(s: seq<byte>, e: nat)
    requires e < |s| && e <= 255 && COLON !in s[..e] && NUL !in s[..e] && (s[e] == COLON || s[e] == NUL || e == 255)
    ensures NameEnd(s, 0) == e
  {
    assert s[0..] == s;
    forall i | 0 <= i < e ensures NameByte(s[0..][i]) { assert s[i] in s[..e]; }
    SpanIs(s[0..], NameByte, 255, e);
  }

  // A value that is missing, too long, or ended by a NUL ends the head behind the byte at fault.
  lemma BadValueStops(key: seq<byte>, spaces: seq<byte>, value: seq<byte>, x: byte, rest: seq<byte>)
    requires IsStart(key, spaces) && CR !in value && IsCString(value) && |value| <= 7999
    requires value != [] ==> !IsSpace(value[0])
    requires x == NUL || (|value| == 7999 && x != LF && x != CR)
    ensures ScanHeader(key + [COLON] + spaces + (value + [x] + rest)) == Stop(rest)
  {
    hide ScanHeader, ScanValue, ValueEnd, AreSpaces, IsSpace;
    var next := value + [x] + rest;
    var s, v := key + [COLON] + spaces + next, |key| + 1 + |spaces|;
    NulIsNoSpace();
    StartIsPassed(key, spaces, next);
    ValueIsPassed(s, v, value, x, rest);
    ScanBadValue(s, |key|, v);
  }

  lemma NulIsNoSpace()
    ensures !IsSpace(NUL)
  {
  }

  lemma ScanBadValue(s: seq<byte>, i: nat, v: nat)
    requires i < v <= |s| && ValueEnd(s, v) < |s| && s[ValueEnd(s, v)] != CR && s[ValueEnd(s, v)] != LF
    ensures ScanValue(s, i, v) == Stop(Drop(s, ValueEnd(s, v) + 1))
  {
    hide ValueEnd;
  }

  // A value of full length may be ended by a line feed alone; a shorter one goes on behind it.
  lemma FullValueEndsWithLine(key: seq<byte>, spaces: seq<byte>, value: seq<byte>, rest: seq<byte>)
    requires IsStart(key, spaces) && CR !in value && IsCString(value) && |value| == 7999 && !IsSpace(value[0])
    ensures ScanHeader(key + [COLON] + spaces + (value + [LF] + rest)) == Header(key, value, rest)
  {
    hide ScanHeader, ValueEnd;
    var next := value + [LF] + rest;
    StartIsPassed(key, spaces, next);
    ValueIsPassed(key + [COLON] + spaces + next, |key| + 1 + |spaces|, value, LF, rest);
  }

  // A carriage return with another byte than a line feed ends the head behind that byte.
  lemma BadEndStops(key: seq<byte>, spaces: seq<byte>, value: seq<byte>, x: byte, rest: seq<byte>)
    requires IsStart(key, spaces) && CR !in value && IsCString(value) && 1 <= |value| <= 7999 && !IsSpace(value[0])
    requires x != LF
    ensures ScanHeader(key + [COLON] + spaces + (value + [CR] + ([x] + rest))) == Stop(rest)
  {
    hide ScanHeader, ScanValue, ValueEnd, AreSpaces, IsSpace;
    var next := value + [CR] + ([x] + rest);
    var s := key + [COLON] + spaces + next;
    var v := |key| + 1 + |spaces|;
    var e := v + |value|;
    StartIsPassed(key, spaces, next);
    ValueIsPassed(s, v, value, CR, [x] + rest);
    NextByte(s, e + 1, x, rest);
    ScanBadEnd(s, |key|, v, e);
  }

  lemma ScanBadEnd(s: seq<byte>, i: nat, v: nat, e: nat)
    requires i < v < e && e + 1 < |s| && ValueEnd(s, v) == e && s[e] == CR && s[e + 1] != LF
    ensures ScanValue(s, i, v) == Stop(s[e + 2..])
  {
    hide ValueEnd;
  }

  // A header that the stream ends in ends the head, too.
  lemma CutHeaderStops(f: Field, k: nat)
    requires IsField(f) && k < |PrintField(f)|
    ensures ScanHeader(PrintField(f)[..k]) == Stop([])
  {
    hide ScanHeader, PrintField, AreSpaces, IsSpace;
    var i := |f.key|;
    var v := i + 1 + |f.spaces|;
    CutIs(f, k);
    if k <= i {
      CutInName(f.key[..k]);
    } else if k <= v {
      FrontOfSpaces(f.spaces, k - i - 1);
      CutInSpaces(f.key, f.spaces[..k - i - 1]);
    } else if k <= v + |f.value| {
      CutInValue(f.key, f.spaces, f.value[..k - v]);
    } else {
      CutInEnd(f.key, f.spaces, f.value);
    }
  }

  lemma CutIs(f: Field, k: nat)
    requires k < |PrintField(f)|
    ensures var i := |f.key|; var v := i + 1 + |f.spaces|; var e := v + |f.value|;
            && |PrintField(f)| == e + 2
            && (k <= i ==> PrintField(f)[..k] == f.key[..k])
            && (i < k <= v ==> PrintField(f)[..k] == f.key + [COLON] + f.spaces[..k - i - 1])
            && (v < k <= e ==> PrintField(f)[..k] == f.key + [COLON] + f.spaces + f.value[..k - v])
            && (e < k ==> PrintField(f)[..k] == f.key + [COLON] + f.spaces + (f.value + [CR] + []))
  {
  }

  lemma FrontOfSpaces(spaces: seq<byte>, n: nat)
    requires AreSpaces(spaces) && n <= |spaces|
    ensures AreSpaces(spaces[..n])
  {
  }

  lemma CutInName(key: seq<byte>)
    requires COLON !in key && IsCString(key) && |key| <= 255 && (key != [] ==> key[0] != CR && key[0] != LF)
    ensures ScanHeader(key) == Stop([])
  {
    hide NameEnd;
    assert key != [] ==> key[0] in key;
    NameFills(key);
  }

  lemma CutInSpaces(key: seq<byte>, spaces: seq<byte>)
    requires IsStart(key, spaces)
    ensures ScanHeader(key + [COLON] + spaces) == Stop([])
  {
    hide NameEnd, SpaceEnd, ScanValue, AreSpaces;
    var s := key + [COLON] + spaces;
    var i := |key|;
    assert s[..i] == key && s[i] == COLON && s[i + 1..] == spaces;
    assert s[0] == key[0] && key[0] in key;
    NameEndIs(s, i);
    SpacesFill(s, i + 1);
    NoValue(s, i);
  }

  lemma CutInValue(key: seq<byte>, spaces: seq<byte>, value: seq<byte>)
    requires IsStart(key, spaces) && CR !in value && IsCString(value) && 1 <= |value| <= 7999 && !IsSpace(value[0])
    ensures ScanHeader(key + [COLON] + spaces + value) == Stop([])
  {
    hide ScanHeader, ValueEnd, AreSpaces;
    StartIsPassed(key, spaces, value);
    ValueFills(key + [COLON] + spaces + value, |key| + 1 + |spaces|);
  }

  lemma CutInEnd(key: seq<byte>, spaces: seq<byte>, value: seq<byte>)
    requires IsStart(key, spaces) && CR !in value && IsCString(value) && 1 <= |value| <= 7999 && !IsSpace(value[0])
    ensures ScanHeader(key + [COLON] + spaces + (value + [CR] + [])) == Stop([])
  {
    hide ScanHeader, ValueEnd, AreSpaces;
    var next := value + [CR] + [];
    StartIsPassed(key, spaces, next);
    ValueIsPassed(key + [COLON] + spaces + next, |key| + 1 + |spaces|, value, CR, []);
  }

  lemma NameFills(s: seq<byte>)
    requires COLON !in s && NUL !in s && |s| <= 255
    ensures NameEnd(s, 0) == |s|
  {
    assert s[0..] == s;
    forall i | 0 <= i < |s| ensures NameByte(s[0..][i]) { assert s[i] in s; }
    SpanIs(s[0..], NameByte, 255, |s|);
  }

  lemma SpacesFill(s: seq<byte>, m: nat)
    requires m <= |s| && AreSpaces(s[m..])
    ensures SpaceEnd(s, m) == |s|
  {
    SpanIs(s[m..], SpaceByte, |s|, |s| - m);
  }

  lemma ValueFills(s: seq<byte>, m: nat)
    requires m <= |s| <= m + 7999 && CR !in s[m..] && NUL !in s[m..]
    ensures ValueEnd(s, m) == |s|
  {
    forall i | 0 <= i < |s| - m ensures ValueByte(s[m..][i]) { assert s[m..][i] in s[m..]; }
    SpanIs(s[m..], ValueByte, 7999, |s| - m);
  }

  lemma NoValue(s: seq<byte>, i: nat)
    requires i < |s|
    ensures ScanValue(s, i, |s|) == Stop([])
  {
  }
}
