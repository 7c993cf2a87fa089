// The text of strings in property lists, character by character, and what the parser makes of every text.

module PlistForms {
  import opened Bytes
  import opened Sequences
  import opened Options
  import opened PlistComments
  import opened PropertyList

  // ---------------------------------------------------------------- inside quotes

  // A character as it is, behind a backslash, or as one of the letters C has for the bytes 7 to 13.
  datatype Char = Plain(c: byte) | Marked(c: byte) | Letter(c: byte)

  ghost const Letters: seq<byte> := Ascii("abtnvfr")

  ghost predicate IsChar(ch: Char) {
    match ch
    case Plain(c) => c !in Ascii("\"\\")
    case Marked(c) => c !in Letters
    case Letter(c) => 7 <= c <= 13
  }

  ghost predicate AreChars(cs: seq<Char>) { forall ch :: ch in cs ==> IsChar(ch) }

  ghost function PrintChar(ch: Char): (bs: seq<byte>)
    ensures bs != []
  {
    match ch
    case Plain(c) => [c]
    case Marked(c) => Ascii("\\") + [c]
    case Letter(c) => Ascii("\\") + [if 7 <= c <= 13 then Letters[c - 7] else c]
  }

  ghost function PrintChars(cs: seq<Char>): seq<byte> {
    if cs == [] then [] else PrintChar(cs[0]) + PrintChars(cs[1..])
  }

  ghost function Meaning(cs: seq<Char>): seq<byte> {
    if cs == [] then [] else [cs[0].c] + Meaning(cs[1..])
  }

  lemma LetterBytes()
    ensures Letters == [97, 98, 116, 110, 118, 102, 114]
    ensures Ascii("\"\\") == [34, 92] && Ascii("\\") == [92] && Ascii("\"") == [34]
  {
    hide Ascii;
  }

  lemma CharIsRead(ch: Char, more: seq<byte>)
    requires IsChar(ch)
    ensures ReadQuoted(PrintChar(ch) + more) == After(ch.c, |PrintChar(ch)|, ReadQuoted(more))
  {
    hide ReadQuoted;
    if ch.Plain? {
      PlainCharIsRead(ch.c, more);
    } else {
      EscapedCharIsRead(ch, more);
    }
  }

  lemma PlainCharIsRead(c: byte, more: seq<byte>)
    requires IsChar(Plain(c))
    ensures ReadQuoted([c] + more) == After(c, 1, ReadQuoted(more))
  {
    LetterBytes();
    hide ReadQuoted, Ascii, Letters;
    PlainIsNext([c] + more);
    assert ([c] + more)[1..] == more;
  }

  lemma EscapedCharIsRead(ch: Char, more: seq<byte>)
    requires IsChar(ch) && !ch.Plain?
    ensures ReadQuoted(PrintChar(ch) + more) == After(ch.c, 2, ReadQuoted(more)) && |PrintChar(ch)| == 2
  {
    hide ReadQuoted, EscapedByte, Ascii, Letters, After;
    EscapeMeans(ch);
    var text := PrintChar(ch) + more;
    EscapedIsNext(text);
    assert text[0] == PrintChar(ch)[0] && text[1] == PrintChar(ch)[1] && text[2..] == more;
  }

  lemma EscapeMeans(ch: Char)
    requires IsChar(ch) && !ch.Plain?
    ensures |PrintChar(ch)| == 2 && PrintChar(ch)[0] == BACKSLASH && EscapedByte(PrintChar(ch)[1]) == ch.c
  {
    LetterBytes();
    hide Ascii, Letters;
    assert ch.Marked? ==> ch.c !in [97, 98, 116, 110, 118, 102, 114];
    NoLetter(ch.c);
  }

  lemma NoLetter(c: byte)
    ensures c !in [97, 98, 116, 110, 118, 102, 114] ==> EscapedByte(c) == c
  {
    var l: seq<byte> := [97, 98, 116, 110, 118, 102, 114];
    assert l[0] in l && l[1] in l && l[2] in l && l[3] in l && l[4] in l && l[5] in l && l[6] in l;
  }

  // What the text goes on with: its closing quote, nothing, or a backslash with nothing behind it.
  lemma {:induction false} CharsAreRead(cs: seq<Char>, rest: seq<byte>)
    requires AreChars(cs)
    ensures var q := ReadQuoted(PrintChars(cs) + rest);
            && (rest == [] ==> q == NotClosed)
            && (rest == Ascii("\\") ==> q == EscapeNotFinished)
            && (Ascii("\"") <= rest ==> q == Closed(Meaning(cs), |PrintChars(cs)| + 1))
  {
    LetterBytes();
    hide ReadQuoted, PrintChar, IsChar, Ascii;
    if cs == [] {
      assert PrintChars(cs) + rest == rest;
      QuoteIsLast(rest);
      if rest == [BACKSLASH] { EscapedIsNext(rest); }
    } else {
      CharsAreRead(cs[1..], rest);
      CharIsRead(cs[0], PrintChars(cs[1..]) + rest);
      assert PrintChars(cs) + rest == PrintChar(cs[0]) + (PrintChars(cs[1..]) + rest);
    }
  }

  // Every text has one of these forms.
  lemma {:induction false} EveryTextHasForm(s: seq<byte>) returns (cs: seq<Char>, rest: seq<byte>)
    ensures AreChars(cs) && s == PrintChars(cs) + rest
    ensures rest == [] || rest == Ascii("\\") || Ascii("\"") <= rest
    decreases |s|
  {
    LetterBytes();
    hide Ascii, PrintChar, IsChar, Letters;
    if s == [] || s[0] == QUOTE || s == [BACKSLASH] {
      assert PrintChars([]) + s == s;
      return [], s;
    }
    var ch := FirstChar(s);
    var n := |PrintChar(ch)|;
    FirstCharFits(s);
    cs, rest := EveryTextHasForm(s[n..]);
    assert s == s[..n] + s[n..];
    ConsChar(ch, cs);
    cs := [ch] + cs;
  }

  // The first character of a text that goes on with one.
  ghost function FirstChar(s: seq<byte>): Char
    requires s != []
  {
    if s[0] != BACKSLASH || |s| == 1 then Plain(s[0])
    else if s[1] !in Letters then Marked(s[1])
    else var i :| 0 <= i < |Letters| && Letters[i] == s[1]; Letter(7 + i)
  }

  lemma FirstCharFits(s: seq<byte>)
    requires s != [] && s[0] != QUOTE && s != [BACKSLASH]
    ensures var ch := FirstChar(s); IsChar(ch) && |PrintChar(ch)| <= |s| && PrintChar(ch) == s[..|PrintChar(ch)|]
  {
    LetterBytes();
    hide Ascii, Letters;
  }

  lemma ConsChar(ch: Char, cs: seq<Char>)
    requires IsChar(ch) && AreChars(cs)
    ensures AreChars([ch] + cs) && PrintChars([ch] + cs) == PrintChar(ch) + PrintChars(cs)
  {
    hide IsChar, PrintChar;
    assert ([ch] + cs)[1..] == cs;
  }

  // ---------------------------------------------------------------- whole strings

  // Behind any fillers, any text in quotes is parsed as what its characters mean, up to exactly what follows.
  lemma QuotedTextIsRead(fs: seq<Filler>, cs: seq<Char>, rest: seq<byte>)
    requires (forall f :: f in fs ==> IsFiller(f)) && AreChars(cs)
    ensures var n := |FlatMap(Print, fs)|;
            var text := Ascii("\"") + PrintChars(cs) + Ascii("\"");
            Parse(FlatMap(Print, fs) + (text + rest)) == Parsed(Some(Meaning(cs)), n + |text|)
  {
    LetterBytes();
    hide ReadQuoted, Parse, FlatMap, Print, IsFiller, AreChars, PrintChars, Meaning, Ascii;
    var text := [QUOTE] + PrintChars(cs) + [QUOTE];
    CharsAreRead(cs, [QUOTE] + rest);
    assert (text + rest)[1..] == PrintChars(cs) + ([QUOTE] + rest) && (text + rest)[0] == QUOTE;
    FillersMakeNoDifference(fs, text + rest);
  }

  // A text without its closing quote is refused, with the index at its end, or at its start where it ends in
  // the middle of an escape.
  lemma OpenTextIsRefused(fs: seq<Filler>, cs: seq<Char>, escape: bool)
    requires (forall f :: f in fs ==> IsFiller(f)) && AreChars(cs)
    ensures var n := |FlatMap(Print, fs)|;
            var text := Ascii("\"") + PrintChars(cs) + (if escape then Ascii("\\") else []);
            Parse(FlatMap(Print, fs) + text) == Parsed(None, if escape then n else n + |text|)
  {
    LetterBytes();
    hide ReadQuoted, Parse, FlatMap, Print, IsFiller, AreChars, PrintChars, Ascii;
    var end := if escape then [BACKSLASH] else [];
    var text := [QUOTE] + PrintChars(cs) + end;
    CharsAreRead(cs, end);
    assert text[1..] == PrintChars(cs) + end && text[0] == QUOTE;
    FillersMakeNoDifference(fs, text);
  }

  // Where only fillers are left, or one of them is a comment without end, there is no string.
  lemma NothingIsNoString(fs: seq<Filler>, comment: seq<byte>)
    requires (forall f :: f in fs ==> IsFiller(f)) && IsFiller(BlockComment(comment))
    ensures Parse(FlatMap(Print, fs)) == Parsed(None, |FlatMap(Print, fs)|)
    ensures Parse(FlatMap(Print, fs) + Ascii("/*") + comment) == Parsed(None, 0)
  {
    hide Skip, FlatMap, Print, IsFiller, ParseHere;
    FillersAreSkipped(fs, [], true);
    NothingElseIsSkipped([], true);
    assert FlatMap(Print, fs) + [] == FlatMap(Print, fs);
    var open := [SLASH, STAR] + comment;
    OpenCommentIsRefused(comment, true);
    FillersAreSkipped(fs, open, true);
    assert Ascii("/*") == [SLASH, STAR];
    assert FlatMap(Print, fs) + Ascii("/*") + comment == FlatMap(Print, fs) + open;
  }

  // ---------------------------------------------------------------- what is quoted, and how

  function Occurrences(s: seq<byte>, c: int): nat {
    if s == [] then 0 else (if s[0] == c then 1 else 0) + Occurrences(s[1..], c)
  }

  lemma QuotedByteGrows(c: byte)
    ensures |QuoteByte(c)| == if c == '"' as int || c == '\n' as int || c == '\\' as int then 2 else 1
    ensures '\n' as int !in QuoteByte(c)
  {
  }

  lemma {:induction false} QuotedBytesGrow(s: seq<byte>)
    ensures |FlatMap(QuoteByte, s)|
         == |s| + Occurrences(s, '"' as int) + Occurrences(s, '\n' as int) + Occurrences(s, '\\' as int)
    ensures '\n' as int !in FlatMap(QuoteByte, s)
  {
    hide QuoteByte;
    if s != [] {
      QuotedBytesGrow(s[1..]);
      QuotedByteGrows(s[0]);
    }
  }

  // Quotes, line feeds and backslashes take one byte more, no other byte does; and no line feed is left.
  lemma QuotedLength(s: seq<byte>)
    ensures |Quote(s)|
         == |s| + 2 + Occurrences(s, '"' as int) + Occurrences(s, '\n' as int) + Occurrences(s, '\\' as int)
    ensures '\n' as int !in Quote(s)
  {
    hide FlatMap, QuoteByte, Occurrences;
    QuotedBytesGrow(s);
  }

  // A string is left as it is if and only if it consists of letters and digits.
  lemma OnlyAlnumStays(s: seq<byte>)
    ensures Representation(s) == s <==> s != [] && forall i :: 0 <= i < |s| ==>
              '0' as int <= s[i] <= '9' as int || 'A' as int <= s[i] <= 'Z' as int || 'a' as int <= s[i] <= 'z' as int
  {
    hide Quote;
    QuotedLength(s);
    assert s != [] && s[0] == NUL ==> [QUOTE, QUOTE][0] != s[0];
  }
}
