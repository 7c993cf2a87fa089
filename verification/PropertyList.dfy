// Strings in property lists: the quoter, and the parser's two passes over a quoted string.

module PropertyList {
  import opened Bytes
  import opened Sequences
  import opened Options
  import opened PlistComments

  const QUOTE: byte := 34
  const BACKSLASH: byte := 92
  const LETTER_N: byte := 110

  // isalnum in the C locale.
  predicate IsAlnum(c: byte) { 48 <= c <= 57 || 65 <= c <= 90 || 97 <= c <= 122 }

  // lf_isPlistBreakChar; the characters it lists beside are no letters or digits anyway.
  predicate IsPlistBreakChar(c: byte) { !IsAlnum(c) }

  // _isUnquotedStringEndChar: blank, \t, \n, \r and = ; , " ) } >
  predicate IsUnquotedStringEndChar(c: byte) {
    c == 32 || c == 9 || c == 10 || c == 13 || c == 61 || c == 59 || c == 44 || c == 34 || c == 41 || c == 125 || c == 62
  }

  // What may follow an unquoted string.
  ghost const EndCharacters: seq<byte> := Ascii(" \t\n\r=;,\")}>")

  lemma EndCharactersEnd(c: byte)
    ensures IsUnquotedStringEndChar(c) <==> c in EndCharacters
  {
    var e := Ascii(" \t\n\r=;,\")}>");
    hide Ascii;
    assert e == [32, 9, 10, 13, 61, 59, 44, 34, 41, 125, 62];
  }

  predicate GoesOn(c: byte) { !IsUnquotedStringEndChar(c) }

  // ---------------------------------------------------------------- quoting

  function QuoteByte(c: byte): seq<byte> {
    if c == QUOTE then [BACKSLASH, QUOTE]
    else if c == LF then [BACKSLASH, LETTER_N]
    else if c == BACKSLASH then [BACKSLASH, BACKSLASH]
    else [c]
  }

  function Quote(s: seq<byte>): seq<byte> { [QUOTE] + FlatMap(QuoteByte, s) + [QUOTE] }

  lemma {:induction false} QuotedBytesFit(s: seq<byte>)
    ensures |s| <= |FlatMap(QuoteByte, s)| <= 2 * |s|
  {
    if s != [] { QuotedBytesFit(s[1..]); }
  }

  // The size of the quoter's buffer is always enough, also for the NUL behind the string.
  lemma QuoteFits(s: seq<byte>)
    ensures |Quote(s)| + 1 < 2 * |s| + 4
  {
    QuotedBytesFit(s);
  }

  lemma QuotedNext(s: seq<byte>, i: nat)
    requires i < |s|
    ensures FlatMap(QuoteByte, s[..i + 1]) == FlatMap(QuoteByte, s[..i]) + QuoteByte(s[i])
    ensures |FlatMap(QuoteByte, s[..i])| <= 2 * i
  {
    hide FlatMap, QuoteByte;
    assert s[..i + 1] == s[..i] + [s[i]];
    FlatMapSnoc(QuoteByte, s[..i], s[i]);
    QuotedBytesFit(s[..i]);
  }

  // The switch of the quoting loop.
  method PutQuoted(buf: array<byte>, j0: nat, c: byte) returns (j: nat)
    requires j0 + 1 < buf.Length
    modifies buf
    ensures j == j0 + |QuoteByte(c)| && j0 < j <= j0 + 2
    ensures buf[..j] == old(buf[..j0]) + QuoteByte(c)
  {
    j := j0;
    if c == QUOTE {
      buf[j] := BACKSLASH;
      j := j + 1;
      buf[j] := c;
    } else if c == LF {
      buf[j] := BACKSLASH;
      j := j + 1;
      buf[j] := LETTER_N;
    } else if c == BACKSLASH {
      buf[j] := BACKSLASH;
      j := j + 1;
      buf[j] := BACKSLASH;
    } else {
      buf[j] := c;
    }
    j := j + 1;
  }

  // lf_quoteString
  method QuoteString(cString: seq<byte>) returns (quoted: seq<byte>)
    ensures quoted == Quote(cString)
  {
    hide FlatMap, QuoteByte;
    var length := |cString|;
    var buf := new byte[length * 2 + 4];
    buf[0] := QUOTE;
    var i, j := 0, 1;
    assert FlatMap(QuoteByte, cString[..0]) == [] by { QuoteNothing(); }
    while i < length
      invariant 0 <= i <= length && 1 <= j <= 2 * i + 1
      invariant buf[..j] == [QUOTE] + FlatMap(QuoteByte, cString[..i])
    {
      j := PutQuoted(buf, j, cString[i]);
      QuotedNext(cString, i);
      i := i + 1;
    }
    assert cString[..length] == cString;
    buf[j] := QUOTE;
    j := j + 1;
    buf[j] := NUL;
    quoted := buf[..j];
  }

  lemma QuoteNothing()
    ensures FlatMap(QuoteByte, []) == []
  {
  }

  // What stringRepresentation returns.
  function Representation(s: seq<byte>): seq<byte> {
    if s == [] || s[0] == NUL then [QUOTE, QUOTE]
    else if IsToken(s) then s
    else Quote(s)
  }

  predicate IsToken(s: seq<byte>) { forall i :: 0 <= i < |s| ==> !IsPlistBreakChar(s[i]) }

  method StringRepresentation(cString: seq<byte>) returns (r: seq<byte>)
    ensures r == Representation(cString)
  {
    hide Quote;
    var length := |cString|;
    if length == 0 { return [QUOTE, QUOTE]; }
    if cString[0] == NUL { return [QUOTE, QUOTE]; }
    if IsPlistBreakChar(cString[0]) {
      r := QuoteString(cString);
      return;
    }
    var i := 1;
    while i < length
      invariant 1 <= i <= length && forall k :: 0 <= k < i ==> !IsPlistBreakChar(cString[k])
    {
      if IsPlistBreakChar(cString[i]) {
        r := QuoteString(cString);
        return;
      }
      i := i + 1;
    }
    r := cString;
  }

  // ---------------------------------------------------------------- parsing

  function EscapedByte(c: byte): byte {
    if c == 97 then 7         // a
    else if c == 98 then 8    // b
    else if c == 102 then 12  // f
    else if c == 110 then 10  // n
    else if c == 114 then 13  // r
    else if c == 116 then 9   // t
    else if c == 118 then 11  // v
    else c
  }

  // A string up to its closing quote, and the bytes used with the quote; or the end comes before
  // the quote, or right behind a backslash.
  datatype Quoted = Closed(value: seq<byte>, used: nat) | NotClosed | EscapeNotFinished

  function After(c: byte, n: nat, q: Quoted): Quoted {
    match q
    case Closed(value, used) => Closed([c] + value, n + used)
    case _ => q
  }

  // From left to right, behind the opening quote.
  function ReadQuoted(s: seq<byte>): (q: Quoted)
    ensures q.Closed? ==> 1 <= q.used <= |s| && s[q.used - 1] == QUOTE && |q.value| < q.used
  {
    if s == [] then NotClosed
    else if s[0] == QUOTE then Closed([], 1)
    else if s[0] == BACKSLASH then
      if |s| == 1 then EscapeNotFinished else After(EscapedByte(s[1]), 2, ReadQuoted(s[2..]))
    else After(s[0], 1, ReadQuoted(s[1..]))
  }

  lemma PlainIsNext(s: seq<byte>)
    requires s != [] && s[0] != QUOTE && s[0] != BACKSLASH
    ensures ReadQuoted(s) == After(s[0], 1, ReadQuoted(s[1..]))
  {
  }

  lemma EscapedIsNext(s: seq<byte>)
    requires s != [] && s[0] == BACKSLASH
    ensures ReadQuoted(s) == if |s| == 1 then EscapeNotFinished else After(EscapedByte(s[1]), 2, ReadQuoted(s[2..]))
  {
  }

  lemma QuoteIsLast(s: seq<byte>)
    ensures s == [] ==> ReadQuoted(s) == NotClosed
    ensures s != [] && s[0] == QUOTE ==> ReadQuoted(s) == Closed([], 1)
  {
  }

  // The string at the start of s, and how far the parser's index moves.
  datatype Parsed = Parsed(value: Option<seq<byte>>, used: nat)

  function ParseHere(s: seq<byte>): Parsed
    requires s != []
  {
    if s[0] == QUOTE then
      match ReadQuoted(s[1..])
      case Closed(value, used) => Parsed(Some(value), 1 + used)
      case NotClosed => Parsed(None, |s|)
      case EscapeNotFinished => Parsed(None, 0)
    else
      var n := Span(s, GoesOn, |s|);
      if n == 0 then Parsed(None, 0) else Parsed(Some(s[..n]), n)
  }

  // The same behind spaces and comments.
  function Parse(s: seq<byte>): Parsed {
    match Skip(s, true)
    case CommentNotClosed => Parsed(None, 0)
    case Skipped(n) =>
      if n == |s| then Parsed(None, n)
      else var here := ParseHere(s[n..]); Parsed(here.value, n + here.used)
  }

  // What is known of a quoted string after some of it was passed: n characters, in the bytes before.
  ghost predicate Passed(all: Quoted, n: nat, before: seq<byte>, escaped: bool, q: Quoted) {
    match q
    case Closed(value, more) =>
      && all.Closed? && |all.value| == n + |value| && all.used == |before| + more
      && (!escaped ==> all.value == before + value)
    case _ => all == q
  }

  lemma PassStarts(q: Quoted)
    ensures Passed(q, 0, [], false, q)
  {
  }

  lemma PassPlain(all: Quoted, n: nat, before: seq<byte>, escaped: bool, s: seq<byte>)
    requires s != [] && s[0] != QUOTE && s[0] != BACKSLASH && Passed(all, n, before, escaped, ReadQuoted(s))
    ensures Passed(all, n + 1, before + [s[0]], escaped, ReadQuoted(s[1..]))
  {
    hide ReadQuoted;
    PlainIsNext(s);
    var later := ReadQuoted(s[1..]);
    assert later.Closed? ==> before + ([s[0]] + later.value) == before + [s[0]] + later.value;
  }

  lemma PassEscaped(all: Quoted, n: nat, before: seq<byte>, escaped: bool, s: seq<byte>)
    requires s != [] && s[0] == BACKSLASH && Passed(all, n, before, escaped, ReadQuoted(s))
    ensures if |s| == 1 then all == EscapeNotFinished
            else Passed(all, n + 1, before + s[..2], true, ReadQuoted(s[2..]))
  {
    hide ReadQuoted, EscapedByte;
    EscapedIsNext(s);
  }

  lemma PassEnds(all: Quoted, n: nat, before: seq<byte>, escaped: bool, s: seq<byte>)
    requires (s == [] || s[0] == QUOTE) && Passed(all, n, before, escaped, ReadQuoted(s))
    ensures if s == [] then all == NotClosed
            else all.Closed? && |all.value| == n && all.used == |before| + 1 && (!escaped ==> all.value == before)
  {
    hide ReadQuoted;
    QuoteIsLast(s);
    assert before + [] == before;
  }

  // The first pass: where the closing quote is, and how long the string will be. A pass over the bytes
  // reads the byte behind the last one, too.
  method FindQuote(buffer: array<byte>, start: nat, end: nat)
    returns (pos: nat, len: nat, containsEscaped: bool, finished: bool)
    requires start <= end < buffer.Length
    ensures start <= pos <= end
    ensures var q := ReadQuoted(buffer[start..end]);
            match q
            case EscapeNotFinished => !finished
            case NotClosed => finished && pos == end
            case Closed(value, used) =>
              && finished && start + used == pos + 1 && len == |value|
              && (!containsEscaped ==> value == buffer[start..pos])
  {
    hide ReadQuoted, Passed;
    pos, len, containsEscaped, finished := start, 0, false, true;
    ghost var all := ReadQuoted(buffer[start..end]);
    PassStarts(all);
    assert buffer[start..start] == [];
    while buffer[pos] != QUOTE && pos < end
      invariant start <= pos <= end && finished
      invariant Passed(all, len, buffer[start..pos], containsEscaped, ReadQuoted(buffer[pos..end]))
      decreases end - pos
    {
      ghost var s, before := buffer[pos..end], buffer[start..pos];
      if buffer[pos] == BACKSLASH {
        PassEscaped(all, len, before, containsEscaped, s);
        containsEscaped := true;
        pos := pos + 1;
        if pos == end {
          finished := false;
          return;
        }
        assert s[2..] == buffer[pos + 1..end] && before + s[..2] == buffer[start..pos + 1];
      } else {
        PassPlain(all, len, before, containsEscaped, s);
        assert s[1..] == buffer[pos + 1..end] && before + [s[0]] == buffer[start..pos + 1];
      }
      pos, len := pos + 1, len + 1;
    }
    PassEnds(all, len, buffer[start..pos], containsEscaped, buffer[pos..end]);
  }

  // The characters before are done, those of s are still to be resolved.
  ghost predicate Resolving(value: seq<byte>, before: seq<byte>, s: seq<byte>) {
    s != [] && ReadQuoted(s).Closed? && value == before + ReadQuoted(s).value
  }

  lemma OneMore(s: seq<byte>, before: seq<byte>, value: seq<byte>)
    requires s != [] && s[0] != QUOTE && Resolving(value, before, s)
    ensures var k := if s[0] == BACKSLASH then 2 else 1;
            var c := if s[0] == BACKSLASH then EscapedByte(s[1]) else s[0];
            && k < |s| && |before| < |value| && Resolving(value, before + [c], s[k..])
  {
    hide ReadQuoted, EscapedByte;
    if s[0] == BACKSLASH { EscapedIsNext(s); } else { PlainIsNext(s); }
  }

  lemma NoneMore(s: seq<byte>, before: seq<byte>, value: seq<byte>)
    requires s != [] && s[0] == QUOTE && Resolving(value, before, s)
    ensures value == before
  {
    hide ReadQuoted;
    QuoteIsLast(s);
  }

  // The same where the rest starts at i.
  lemma OneMoreAt(text: seq<byte>, i: nat, before: seq<byte>, value: seq<byte>)
    requires i < |text| && text[i] != QUOTE && Resolving(value, before, text[i..])
    ensures var k := if text[i] == BACKSLASH then 2 else 1;
            && i + k < |text| && |before| < |value|
            && Resolving(value, before + [if text[i] == BACKSLASH then EscapedByte(text[i + 1]) else text[i]], text[i + k..])
  {
    hide ReadQuoted, EscapedByte, Resolving;
    var s := text[i..];
    assert s[0] == text[i] && (|s| > 1 ==> s[1] == text[i + 1] && s[2..] == text[i + 2..]) && s[1..] == text[i + 1..];
    OneMore(s, before, value);
  }

  lemma NoneMoreAt(text: seq<byte>, i: nat, before: seq<byte>, value: seq<byte>)
    requires i < |text| && text[i] == QUOTE && Resolving(value, before, text[i..])
    ensures value == before
  {
    hide ReadQuoted, Resolving;
    NoneMore(text[i..], before, value);
  }

  lemma ResolvingStartsAt(text: seq<byte>)
    requires ReadQuoted(text).Closed?
    ensures text != [] && Resolving(ReadQuoted(text).value, [], text[0..])
  {
    hide ReadQuoted;
    QuoteIsLast(text);
    assert text[0..] == text;
  }

  // The second pass: the characters, with escapes resolved.
  method Unescape(buffer: array<byte>, start: nat, end: nat, len: nat) returns (value: seq<byte>)
    requires start <= end <= buffer.Length && ReadQuoted(buffer[start..end]).Closed?
    requires len == |ReadQuoted(buffer[start..end]).value|
    ensures value == ReadQuoted(buffer[start..end]).value
  {
    hide ReadQuoted, EscapedByte, Resolving;
    var str := new byte[len + 1];
    ghost var text, done := buffer[start..end], [];
    ghost var all := ReadQuoted(text).value;
    var pos, pos2 := start, 0;
    ResolvingStartsAt(text);
    while buffer[pos] != QUOTE
      invariant start <= pos < end && pos2 == |done| <= len && str[..pos2] == done
      invariant forall i :: start <= i < end ==> buffer[i] == text[i - start]
      invariant Resolving(all, done, text[pos - start..])
      decreases end - pos
    {
      OneMoreAt(text, pos - start, done, all);
      var c;
      if buffer[pos] == BACKSLASH {
        pos := pos + 1;
        c := EscapedByte(buffer[pos]);
      } else {
        c := buffer[pos];
      }
      str[pos2] := c;
      done := done + [c];
      pos, pos2 := pos + 1, pos2 + 1;
    }
    NoneMoreAt(text, pos - start, done, all);
    str[pos2] := NUL;
    value := str[..len];
  }

  // Where an unquoted string ends.
  method FindBreak(buffer: array<byte>, start: nat, end: nat) returns (pos: nat, len: nat)
    requires start <= end < buffer.Length
    ensures pos == start + len <= end && len == Span(buffer[start..end], GoesOn, end - start)
  {
    ghost var s := buffer[start..end];
    pos, len := start, 0;
    while !IsUnquotedStringEndChar(buffer[pos]) && pos < end
      invariant start <= pos <= end && len == pos - start
      invariant forall i :: 0 <= i < len ==> GoesOn(s[i])
    {
      pos, len := pos + 1, len + 1;
    }
    SpanIs(s, GoesOn, |s|, len);
  }

  // The part of _parseString behind comments and spaces.
  method ParseStringHere(buffer: array<byte>, idx: nat, end: nat) returns (result: Option<seq<byte>>, next: nat)
    requires idx < end < buffer.Length
    ensures idx <= next <= end && Parsed(result, next - idx) == ParseHere(buffer[idx..end])
  {
    hide ReadQuoted, Span;
    ghost var s := buffer[idx..end];
    if buffer[idx] == QUOTE {
      assert s[1..] == buffer[idx + 1..end];
      var pos, len, containsEscaped, finished := FindQuote(buffer, idx + 1, end);
      if !finished { return None, idx; }
      if pos == end { return None, pos; }
      next := pos + 1;
      if len == 0 {
        result := Some([]);
      } else if containsEscaped {
        var value := Unescape(buffer, idx + 1, end, len);
        result := Some(value);
      } else {
        result := Some(buffer[idx + 1..idx + 1 + len]);
      }
    } else {
      var pos, len := FindBreak(buffer, idx, end);
      if len == 0 { return None, idx; }
      assert s[..len] == buffer[idx..idx + len];
      return Some(buffer[idx..idx + len]), pos;
    }
  }

  // _parseString
  method ParseString(buffer: array<byte>, idx: nat, end: nat) returns (result: Option<seq<byte>>, next: nat)
    requires idx <= end < buffer.Length
    ensures idx <= next <= end && Parsed(result, next - idx) == Parse(buffer[idx..end])
  {
    hide ParseHere, Skip;
    var found, pos, closed := SkipComments(buffer, idx, end, true);
    if !found { return None, pos; }
    assert buffer[idx..end][pos - idx..] == buffer[pos..end];
    result, next := ParseStringHere(buffer, pos, end);
  }

  // ---------------------------------------------------------------- round trips

  lemma QuotedByteIsRead(c: byte, more: seq<byte>)
    ensures ReadQuoted(QuoteByte(c) + more) == After(c, |QuoteByte(c)|, ReadQuoted(more))
  {
    hide ReadQuoted;
    var text := QuoteByte(c) + more;
    if c == QUOTE || c == LF || c == BACKSLASH {
      EscapedIsNext(text);
      assert text[2..] == more;
    } else {
      PlainIsNext(text);
      assert text[1..] == more;
    }
  }

  lemma {:induction false} QuotedIsRead(s: seq<byte>, rest: seq<byte>)
    ensures ReadQuoted(FlatMap(QuoteByte, s) + [QUOTE] + rest) == Closed(s, |FlatMap(QuoteByte, s)| + 1)
  {
    hide ReadQuoted, QuoteByte;
    var text := FlatMap(QuoteByte, s) + [QUOTE] + rest;
    if s == [] {
      QuoteIsLast(text);
    } else {
      QuotedIsRead(s[1..], rest);
      QuotedByteIsRead(s[0], FlatMap(QuoteByte, s[1..]) + [QUOTE] + rest);
      assert text == QuoteByte(s[0]) + (FlatMap(QuoteByte, s[1..]) + [QUOTE] + rest);
    }
  }

  lemma QuoteIsRead(s: seq<byte>, rest: seq<byte>)
    ensures ParseHere(Quote(s) + rest) == Parsed(Some(s), |Quote(s)|)
  {
    QuotedIsRead(s, rest);
    assert (Quote(s) + rest)[1..] == FlatMap(QuoteByte, s) + [QUOTE] + rest;
  }

  lemma TokenIsRead(s: seq<byte>, rest: seq<byte>)
    requires s != [] && IsToken(s)
    ensures ParseHere(s + rest) == Parsed(Some(s), |s|) <==> rest == [] || rest[0] in EndCharacters
  {
    if rest != [] { EndCharactersEnd(rest[0]); }
    hide EndCharacters;
    var text := s + rest;
    var n := Span(text, GoesOn, |text|);
    assert text[0] == s[0] && !IsPlistBreakChar(s[0]);
    forall i | 0 <= i < |s| ensures GoesOn(text[i]) { assert text[i] == s[i] && !IsPlistBreakChar(s[i]); }
    if rest == [] || IsUnquotedStringEndChar(rest[0]) {
      SpanIs(text, GoesOn, |text|, |s|);
      assert text[..|s|] == s;
    } else {
      forall i | 0 <= i < |s| + 1 ensures GoesOn(text[i]) { assert i < |s| ==> text[i] == s[i]; }
      SpanReaches(text, GoesOn, |s| + 1);
    }
  }

  lemma SpanReaches(s: seq<byte>, p: byte -> bool, n: nat)
    requires n <= |s| && forall i :: 0 <= i < n ==> p(s[i])
    ensures Span(s, p, |s|) >= n
  {
    var k := Span(s, p, |s|);
    if k < |s| { var atEnd := p(s[k]); }
  }

  lemma RepresentationIsRead(s: seq<byte>, rest: seq<byte>)
    ensures ParseHere(Representation(s) + rest) == Parsed(Some(s), |Representation(s)|)
       <==> (s == [] || s[0] != NUL)
            && (s != [] && IsToken(s) ==> rest == [] || rest[0] in EndCharacters)
  {
    hide ParseHere, Quote, IsToken, EndCharacters;
    if s == [] || s[0] == NUL {
      EmptyIsQuoted();
      QuoteIsRead([], rest);
    } else if IsToken(s) {
      TokenIsRead(s, rest);
    } else {
      QuoteIsRead(s, rest);
    }
  }

  lemma EmptyIsQuoted()
    ensures Quote([]) == [QUOTE, QUOTE]
  {
  }

  // ---------------------------------------------------------------- behind spaces and comments

  // Fillers in front of a value make no difference to it.
  lemma FillersMakeNoDifference(fs: seq<Filler>, text: seq<byte>)
    requires (forall f :: f in fs ==> IsFiller(f)) && text != [] && text[0] != SLASH && !IsSpace(text[0])
    ensures var n := |FlatMap(Print, fs)|;
            Parse(FlatMap(Print, fs) + text) == Parsed(ParseHere(text).value, n + ParseHere(text).used)
  {
    hide ParseHere, Skip, FlatMap, IsFiller, IsSpace;
    FillersAreSkipped(fs, text, true);
    NothingElseIsSkipped(text, true);
    assert (FlatMap(Print, fs) + text)[|FlatMap(Print, fs)|..] == text;
  }

  // Quoted strings delimit themselves: whatever fillers come before and whatever follows, the parser gets
  // the string back, and stops right behind it.
  lemma QuoteRoundTrip(fs: seq<Filler>, s: seq<byte>, rest: seq<byte>)
    requires forall f :: f in fs ==> IsFiller(f)
    ensures Parse(FlatMap(Print, fs) + Quote(s) + rest) == Parsed(Some(s), |FlatMap(Print, fs)| + |Quote(s)|)
  {
    hide ParseHere, Parse, FlatMap, IsFiller;
    FillersMakeNoDifference(fs, Quote(s) + rest);
    QuoteIsRead(s, rest);
    assert FlatMap(Print, fs) + Quote(s) + rest == FlatMap(Print, fs) + (Quote(s) + rest);
  }

  // What stringRepresentation returns is parsed as the string, up to exactly what follows, if and only
  // if the string does not start with a NUL, and what follows a string that needs no quotes ends it.
  lemma RepresentationRoundTrip(fs: seq<Filler>, s: seq<byte>, rest: seq<byte>)
    requires forall f :: f in fs ==> IsFiller(f)
    ensures Parse(FlatMap(Print, fs) + Representation(s) + rest) == Parsed(Some(s), |FlatMap(Print, fs)| + |Representation(s)|)
       <==> (s == [] || s[0] != NUL)
            && (s != [] && IsToken(s) ==> rest == [] || rest[0] in EndCharacters)
  {
    hide ParseHere, Parse, FlatMap, IsFiller, Representation, IsToken, EndCharacters;
    RepresentationStart(s);
    FillersMakeNoDifference(fs, Representation(s) + rest);
    RepresentationIsRead(s, rest);
    assert FlatMap(Print, fs) + Representation(s) + rest == FlatMap(Print, fs) + (Representation(s) + rest);
  }

  lemma RepresentationStart(s: seq<byte>)
    ensures Representation(s) != [] && Representation(s)[0] != SLASH && !IsSpace(Representation(s)[0])
  {
    if s != [] && IsToken(s) { assert !IsPlistBreakChar(s[0]); }
  }
}
