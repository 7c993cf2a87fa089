// What the property list parser skips in front of a value: spaces, and comments of both kinds.

module PlistComments {
  import opened Bytes
  import opened Sequences
  import opened Options

  const SLASH: byte := 47
  const STAR: byte := 42

  predicate StartsComment(s: seq<byte>, kind: byte) { |s| >= 2 && s[0] == SLASH && s[1] == kind }

  predicate InLine(c: byte) { c != LF }

  // Behind the first asterisk with a slash.
  function CommentEnd(s: seq<byte>): (n: Option<nat>)
    ensures n.Some? ==> 2 <= n.value <= |s|
  {
    if |s| < 2 then None
    else if s[0] == STAR && s[1] == SLASH then Some(2)
    else match CommentEnd(s[1..])
      case None => None
      case Some(n) => Some(1 + n)
  }

  datatype Skipped = Skipped(n: nat) | CommentNotClosed

  function Behind(n: nat, rest: Skipped): Skipped {
    match rest
    case Skipped(m) => Skipped(n + m)
    case CommentNotClosed => CommentNotClosed
  }

  // How much of s is skipped.
  function Skip(s: seq<byte>, spaces: bool): (r: Skipped)
    ensures r.Skipped? ==> r.n <= |s|
    decreases |s|
  {
    if StartsComment(s, SLASH) then
      var n := Span(s[2..], InLine, |s|);
      if 2 + n < |s| then Behind(3 + n, Skip(s[3 + n..], spaces)) else Skipped(|s|)
    else if StartsComment(s, STAR) then
      match CommentEnd(s[2..])
      case None => CommentNotClosed
      case Some(n) => Behind(2 + n, Skip(s[2 + n..], spaces))
    else if s != [] && spaces && IsSpace(s[0]) then Behind(1, Skip(s[1..], spaces))
    else Skipped(0)
  }

  // ---------------------------------------------------------------- the loops

  // The rest of a comment up to the end of the line.
  method SkipLineComment(buffer: array<byte>, start: nat, end: nat) returns (pos: nat)
    requires start <= end <= buffer.Length
    ensures pos == start + Span(buffer[start..end], InLine, end - start)
  {
    ghost var s := buffer[start..end];
    pos := start;
    while pos < end && buffer[pos] != LF
      invariant start <= pos <= end && forall i :: 0 <= i < pos - start ==> InLine(s[i])
    {
      pos := pos + 1;
    }
    SpanIs(s, InLine, |s|, pos - start);
  }

  // The rest of a comment up to its end mark.
  method SkipBlockComment(buffer: array<byte>, start: nat, end: nat) returns (pos: nat, commentIsClosed: bool)
    requires start <= end <= buffer.Length
    ensures start <= pos <= end
    ensures CommentEnd(buffer[start..end]) == if commentIsClosed then Some(pos - start) else None
  {
    hide CommentEnd;
    pos, commentIsClosed := start, false;
    ghost var all := CommentEnd(buffer[start..end]);
    Shifted(all, buffer[start..end]);
    while true
      invariant start <= pos <= end && Still(all, pos - start, buffer[pos..end])
      decreases end - pos
    {
      ghost var was := pos;
      while pos < end && buffer[pos] != STAR
        invariant was <= pos <= end && Still(all, pos - start, buffer[pos..end])
      {
        NoEndHere(all, pos - start, buffer[pos..end]);
        assert buffer[pos..end][1..] == buffer[pos + 1..end];
        pos := pos + 1;
      }
      NoEndInNothing(all, pos - start, buffer[pos..end]);
      if pos < end {
        NoEndHere(all, pos - start, buffer[pos..end]);
        assert buffer[pos..end][1..] == buffer[pos + 1..end];
        pos := pos + 1;
        if pos < end && buffer[pos] == SLASH {
          commentIsClosed := true;
          pos := pos + 1;
          break;
        }
      }
      NoEndInNothing(all, pos - start, buffer[pos..end]);
      if !(pos < end) { break; }
    }
  }

  // The end mark, if there is one, is still to come: n bytes were passed, s is left.
  ghost predicate Still(all: Option<nat>, n: nat, s: seq<byte>) {
    all == match CommentEnd(s) case None => None case Some(m) => Some(n + m)
  }

  lemma Shifted(all: Option<nat>, s: seq<byte>)
    requires all == CommentEnd(s)
    ensures Still(all, 0, s)
  {
  }

  lemma NoEndHere(all: Option<nat>, n: nat, s: seq<byte>)
    requires s != [] && Still(all, n, s)
    ensures s[0] == STAR && |s| >= 2 && s[1] == SLASH ==> all == Some(n + 2)
    ensures !(s[0] == STAR && |s| >= 2 && s[1] == SLASH) ==> Still(all, n + 1, s[1..])
  {
  }

  lemma NoEndInNothing(all: Option<nat>, n: nat, s: seq<byte>)
    requires Still(all, n, s)
    ensures s == [] ==> all == None
  {
  }

  // _skipComments
  method SkipComments(buffer: array<byte>, idx: nat, end: nat, skipSpaces: bool)
    returns (found: bool, next: nat, closed: bool)
    requires end <= buffer.Length && idx <= end
    ensures idx <= next <= end && found == (closed && next < end)
    ensures match Skip(buffer[idx..end], skipSpaces)
            case CommentNotClosed => !closed && next == idx
            case Skipped(n) => closed && next == idx + n
  {
    hide Skip, IsSpace;
    ghost var all := Skip(buffer[idx..end], skipSpaces);
    SkipNothing(skipSpaces);
    if idx >= end {
      assert buffer[idx..end] == [];
      return false, idx, true;
    }
    var pos, lookAgain := idx, true;
    while lookAgain && pos < end
      invariant idx <= pos <= end
      invariant if lookAgain then all == Behind(pos - idx, Skip(buffer[pos..end], skipSpaces)) else all == Skipped(pos - idx)
      decreases end - pos, lookAgain
    {
      pos, lookAgain, closed := SkipOne(buffer, pos, end, skipSpaces);
      if !closed { return false, idx, false; }
    }
    assert pos == end ==> buffer[pos..end] == [];
    found, next, closed := pos < end, pos, true;
  }

  // One turn of the loop.
  method SkipOne(buffer: array<byte>, start: nat, end: nat, skipSpaces: bool)
    returns (pos: nat, lookAgain: bool, closed: bool)
    requires start < end <= buffer.Length
    ensures start <= pos <= end && (lookAgain ==> start < pos)
    ensures var all := Skip(buffer[start..end], skipSpaces);
            if !closed then all == CommentNotClosed
            else if lookAgain then all == Behind(pos - start, Skip(buffer[pos..end], skipSpaces))
            else all == Skipped(pos - start)
  {
    hide Skip, Span, CommentEnd, IsSpace;
    ghost var s := buffer[start..end];
    pos, lookAgain, closed := start, false, true;
    if buffer[pos] == SLASH && pos + 1 < end {
      if buffer[pos + 1] == SLASH {
        pos, lookAgain := SkipLine(buffer, pos, end, skipSpaces);
      } else if buffer[pos + 1] == STAR {
        pos, closed := SkipBlock(buffer, pos, end, skipSpaces);
        lookAgain := closed;
      } else {
        SkipCases(s, skipSpaces);
      }
    } else {
      SkipCases(s, skipSpaces);
      if skipSpaces && IsSpace(buffer[pos]) {
        pos := pos + 1;
        lookAgain := true;
        assert s[1..] == buffer[pos..end];
      }
    }
  }

  // A comment that ends with the line, and the line feed, if there is one.
  method SkipLine(buffer: array<byte>, start: nat, end: nat, ghost spaces: bool) returns (pos: nat, lookAgain: bool)
    requires start + 2 <= end <= buffer.Length && buffer[start] == buffer[start + 1] == SLASH
    ensures start < pos <= end
    ensures Skip(buffer[start..end], spaces)
         == if lookAgain then Behind(pos - start, Skip(buffer[pos..end], spaces)) else Skipped(pos - start)
  {
    hide Skip, Span;
    ghost var s := buffer[start..end];
    assert s[2..] == buffer[start + 2..end];
    LineCase(s, spaces);
    SpanEnough(s[2..], |s|);
    pos := SkipLineComment(buffer, start + 2, end);
    lookAgain := false;
    if pos < end && buffer[pos] == LF {
      pos := pos + 1;
      lookAgain := true;
      assert s[pos - start..] == buffer[pos..end];
    }
  }

  method SkipBlock(buffer: array<byte>, start: nat, end: nat, ghost spaces: bool) returns (pos: nat, closed: bool)
    requires start + 2 <= end <= buffer.Length && buffer[start] == SLASH && buffer[start + 1] == STAR
    ensures start < pos <= end
    ensures Skip(buffer[start..end], spaces)
         == if closed then Behind(pos - start, Skip(buffer[pos..end], spaces)) else CommentNotClosed
  {
    hide Skip, CommentEnd;
    ghost var s := buffer[start..end];
    assert s[2..] == buffer[start + 2..end];
    BlockCase(s, spaces);
    pos, closed := SkipBlockComment(buffer, start + 2, end);
    assert s[pos - start..] == buffer[pos..end];
  }

  lemma SkipNothing(spaces: bool)
    ensures Skip([], spaces) == Skipped(0)
  {
  }

  // A slash is no space, so that the order of the tests does not matter.
  lemma SkipCases(s: seq<byte>, spaces: bool)
    ensures s == [] ==> Skip(s, spaces) == Skipped(0)
    ensures StartsComment(s, SLASH) ==>
              var n := Span(s[2..], InLine, |s|);
              Skip(s, spaces) == if 2 + n < |s| then Behind(3 + n, Skip(s[3 + n..], spaces)) else Skipped(|s|)
    ensures StartsComment(s, STAR) ==>
              Skip(s, spaces) == match CommentEnd(s[2..])
                                 case None => CommentNotClosed
                                 case Some(n) => Behind(2 + n, Skip(s[2 + n..], spaces))
    ensures !StartsComment(s, SLASH) && !StartsComment(s, STAR) && s != [] ==>
              Skip(s, spaces) == if spaces && IsSpace(s[0]) then Behind(1, Skip(s[1..], spaces)) else Skipped(0)
    ensures s != [] && s[0] == SLASH ==> !IsSpace(s[0])
  {
    hide Span, CommentEnd, Skip;
    if StartsComment(s, SLASH) { LineCase(s, spaces); }
    else if StartsComment(s, STAR) { BlockCase(s, spaces); }
    else { OtherCase(s, spaces); }
  }

  lemma LineCase(s: seq<byte>, spaces: bool)
    requires StartsComment(s, SLASH)
    ensures var n := Span(s[2..], InLine, |s|);
            Skip(s, spaces) == if 2 + n < |s| then Behind(3 + n, Skip(s[3 + n..], spaces)) else Skipped(|s|)
  {
    hide Span, CommentEnd;
  }

  lemma BlockCase(s: seq<byte>, spaces: bool)
    requires StartsComment(s, STAR)
    ensures Skip(s, spaces) == match CommentEnd(s[2..])
                               case None => CommentNotClosed
                               case Some(n) => Behind(2 + n, Skip(s[2 + n..], spaces))
  {
    hide Span, CommentEnd;
  }

  lemma OtherCase(s: seq<byte>, spaces: bool)
    requires !StartsComment(s, SLASH) && !StartsComment(s, STAR)
    ensures Skip(s, spaces) == if s != [] && spaces && IsSpace(s[0]) then Behind(1, Skip(s[1..], spaces)) else Skipped(0)
  {
    hide Span, CommentEnd;
  }

  lemma SpanEnough(s: seq<byte>, max: nat)
    requires |s| <= max
    ensures Span(s, InLine, max) == Span(s, InLine, |s|)
    ensures Span(s, InLine, |s|) < |s| ==> s[Span(s, InLine, |s|)] == LF
  {
    SpanIs(s, InLine, max, Span(s, InLine, |s|));
  }

  // ---------------------------------------------------------------- what may stand in front of a value

  datatype Filler = Space(c: byte) | LineComment(text: seq<byte>) | BlockComment(text: seq<byte>)

  predicate IsFiller(f: Filler) {
    match f
    case Space(c) => IsSpace(c)
    case LineComment(text) => LF !in text
    case BlockComment(text) => forall i :: 0 <= i < |text| - 1 ==> !(text[i] == STAR && text[i + 1] == SLASH)
  }

  function Print(f: Filler): seq<byte> {
    match f
    case Space(c) => [c]
    case LineComment(text) => [SLASH, SLASH] + text + [LF]
    case BlockComment(text) => [SLASH, STAR] + text + [STAR, SLASH]
  }

  lemma {:induction false} EndIsFound(text: seq<byte>, rest: seq<byte>)
    requires IsFiller(BlockComment(text))
    ensures CommentEnd(text + [STAR, SLASH] + rest) == Some(|text| + 2)
  {
    var s := text + [STAR, SLASH] + rest;
    if text == [] {
      assert s[0] == STAR && s[1] == SLASH;
    } else {
      assert s[1..] == text[1..] + [STAR, SLASH] + rest;
      forall i | 0 <= i < |text[1..]| - 1 ensures !(text[1..][i] == STAR && text[1..][i + 1] == SLASH) {
        assert text[1..][i] == text[i + 1] && text[1..][i + 1] == text[i + 1 + 1];
      }
      EndIsFound(text[1..], rest);
      assert |text| >= 2 ==> !(text[0] == STAR && text[0 + 1] == SLASH);
    }
  }

  lemma LineIsSkipped(text: seq<byte>, rest: seq<byte>, spaces: bool)
    requires IsFiller(LineComment(text))
    ensures var n := |text| + 3; Skip(Print(LineComment(text)) + rest, spaces) == Behind(n, Skip(rest, spaces))
  {
    hide Skip, Span, CommentEnd, IsSpace;
    var s := Print(LineComment(text)) + rest;
    SkipCases(s, spaces);
    assert s[2..] == text + [LF] + rest && s[3 + |text|..] == rest;
    forall i | 0 <= i < |text| ensures InLine(s[2..][i]) { assert s[2..][i] == text[i]; }
    SpanIs(s[2..], InLine, |s|, |text|);
  }

  lemma BlockIsSkipped(text: seq<byte>, rest: seq<byte>, spaces: bool)
    requires IsFiller(BlockComment(text))
    ensures var n := |text| + 4; Skip(Print(BlockComment(text)) + rest, spaces) == Behind(n, Skip(rest, spaces))
  {
    hide Skip, Span, CommentEnd, IsSpace, IsFiller;
    var s := Print(BlockComment(text)) + rest;
    SkipCases(s, spaces);
    assert s[2..] == text + [STAR, SLASH] + rest;
    EndIsFound(text, rest);
    assert s[2 + (|text| + 2)..] == rest;
  }

  lemma FillerIsSkipped(f: Filler, rest: seq<byte>, spaces: bool)
    requires IsFiller(f) && (f.Space? ==> spaces)
    ensures Skip(Print(f) + rest, spaces) == Behind(|Print(f)|, Skip(rest, spaces))
  {
    hide Skip;
    match f
    case Space(c) => SkipCases([c] + rest, spaces);
    case LineComment(text) => LineIsSkipped(text, rest, spaces);
    case BlockComment(text) => BlockIsSkipped(text, rest, spaces);
  }

  // Fillers of any number and kind are skipped, whatever follows them; spaces only where they are to be.
  lemma {:induction false} FillersAreSkipped(fs: seq<Filler>, rest: seq<byte>, spaces: bool)
    requires forall f :: f in fs ==> IsFiller(f) && (f.Space? ==> spaces)
    ensures Skip(FlatMap(Print, fs) + rest, spaces) == Behind(|FlatMap(Print, fs)|, Skip(rest, spaces))
  {
    hide Skip, IsSpace, IsFiller, Print;
    if fs == [] {
      assert FlatMap(Print, fs) + rest == rest;
    } else {
      var more := FlatMap(Print, fs[1..]) + rest;
      FillersAreSkipped(fs[1..], rest, spaces);
      FillerIsSkipped(fs[0], more, spaces);
      assert FlatMap(Print, fs) + rest == Print(fs[0]) + more;
    }
  }

  // Behind them: a comment without its end mark is refused, a last line without its end is skipped, and
  // nothing else is: not a space that is to stay, not a slash that starts no comment.
  lemma OpenCommentIsRefused(text: seq<byte>, spaces: bool)
    requires IsFiller(BlockComment(text))
    ensures Skip([SLASH, STAR] + text, spaces) == CommentNotClosed
  {
    hide Skip, CommentEnd, Span;
    var s := [SLASH, STAR] + text;
    SkipCases(s, spaces);
    assert s[2..] == text;
    NoEndIsFound(text);
  }

  lemma {:induction false} NoEndIsFound(text: seq<byte>)
    requires IsFiller(BlockComment(text))
    ensures CommentEnd(text) == None
  {
    if |text| >= 2 {
      assert !(text[0] == STAR && text[0 + 1] == SLASH);
      forall i | 0 <= i < |text[1..]| - 1 ensures !(text[1..][i] == STAR && text[1..][i + 1] == SLASH) {
        assert text[1..][i] == text[i + 1] && text[1..][i + 1] == text[i + 1 + 1];
      }
      NoEndIsFound(text[1..]);
    }
  }

  lemma LastLineIsSkipped(text: seq<byte>, spaces: bool)
    requires LF !in text
    ensures Skip([SLASH, SLASH] + text, spaces) == Skipped(2 + |text|)
  {
    hide Skip, Span;
    var s := [SLASH, SLASH] + text;
    SkipCases(s, spaces);
    assert s[2..] == text;
    forall i | 0 <= i < |text| ensures InLine(s[2..][i]) { assert s[2..][i] == text[i]; }
    SpanIs(s[2..], InLine, |s|, |text|);
  }

  lemma NothingElseIsSkipped(s: seq<byte>, spaces: bool)
    requires s != [] ==> if s[0] == SLASH then |s| == 1 || (s[1] != SLASH && s[1] != STAR) else !(spaces && IsSpace(s[0]))
    ensures Skip(s, spaces) == Skipped(0)
  {
    hide Skip;
    SkipCases(s, spaces);
  }
}
