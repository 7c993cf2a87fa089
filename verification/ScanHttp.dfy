// The character-at-a-time scanners for a response line and for headers.

module ScanHttp {
  import opened Bytes
  import opened BufferedDescriptor
  import opened HttpSyntax

  // The scanners read one character ahead: c is the byte at m, what is unread comes behind it.
  ghost predicate At(s: seq<byte>, m: nat, c: int, unread: seq<byte>) {
    if m < |s| then c == s[m] && unread == s[m + 1..] else m == |s| && c == -1 && unread == []
  }

  lemma AtEnd(s: seq<byte>, m: nat, c: int, unread: seq<byte>)
    requires At(s, m, c, unread)
    ensures m <= |s| && (if m < |s| then c == s[m] else c == -1)
    ensures unread == Drop(s, m + 1) && (c > 0 <==> Goes(s, m))
  {
  }

  lemma AtNext(s: seq<byte>, m: nat, c: int, unread: seq<byte>)
    requires At(s, m, c, unread) && c >= 0
    ensures m < |s| && c == s[m]
    ensures At(s, m + 1, if unread == [] then -1 else unread[0], if unread == [] then [] else unread[1..])
  {
  }

  // The n bytes from m on are of the kind p.
  ghost predicate Run(s: seq<byte>, m: nat, n: nat, p: byte -> bool) {
    m + n <= |s| && forall i :: 0 <= i < n ==> p(s[m..][i])
  }

  // while ((c > 0) && p(c)) c = readChar
  method SkipWhile(d: NGBufferedDescriptor, c0: int, p: byte -> bool, ghost s: seq<byte>, ghost m: nat) returns (c: int)
    requires d.Valid() && -1 <= c0 < 256 && At(s, m, c0, d.Remaining()) && !p(NUL)
    modifies d`readBufferPos, d`readBufferFillSize, d`delivered, d.fd`incoming, d.readBuffer
    ensures d.Valid() && -1 <= c < 256 && m <= |s| && At(s, m + Span(s[m..], p, |s|), c, d.Remaining())
  {
    hide *;
    c := c0;
    ghost var n := 0;
    PassStart(s, m, c, d.Remaining(), p);
    while c > 0 && p(c)
      invariant d.Valid() && -1 <= c < 256 && n <= |s| && Passed(s, m, n, p, c, d.Remaining())
      decreases |s| - n
    {
      ghost var last, unread := c, d.Remaining();
      c := d.ReadChar();
      PassNext(s, m, n, p, last, unread, c, d.Remaining());
      n := n + 1;
    }
    PassEnd(s, m, n, p, |s|, c, d.Remaining());
  }

  ghost predicate Passed(s: seq<byte>, m: nat, n: nat, p: byte -> bool, c: int, unread: seq<byte>) {
    Run(s, m, n, p) && At(s, m + n, c, unread)
  }

  lemma PassStart(s: seq<byte>, m: nat, c: int, unread: seq<byte>, p: byte -> bool)
    requires At(s, m, c, unread)
    ensures m <= |s| && Passed(s, m, 0, p, c, unread)
  {
  }

  lemma PassByte(s: seq<byte>, m: nat, n: nat, p: byte -> bool, c: int, unread: seq<byte>)
    requires Passed(s, m, n, p, c, unread) && c > 0
    ensures m + n < |s| && s[m..m + n + 1] == s[m..m + n] + [s[m + n]] && s[m + n] == c
  {
    hide Run;
  }

  lemma PassNext(s: seq<byte>, m: nat, n: nat, p: byte -> bool, last: int, unread: seq<byte>, c: int, left: seq<byte>)
    requires Passed(s, m, n, p, last, unread) && 0 < last < 256 && p(last)
    requires if unread == [] then c == -1 && left == [] else c == unread[0] && left == unread[1..]
    ensures m + n < |s| && Passed(s, m, n + 1, p, c, left)
  {
    AtEnd(s, m + n, last, unread);
    AtNext(s, m + n, last, unread);
  }

  // A loop that has stopped at n has seen the whole span.
  lemma PassEnd(s: seq<byte>, m: nat, n: nat, p: byte -> bool, max: nat, c: int, unread: seq<byte>)
    requires Passed(s, m, n, p, c, unread) && n <= max && -1 <= c < 256 && !p(NUL) && (c > 0 ==> n == max || !p(c))
    ensures m <= |s| && n == Span(s[m..], p, max) && At(s, m + n, c, unread)
  {
    hide At;
    AtEnd(s, m + n, c, unread);
    SpanIs(s[m..], p, max, n);
  }

  // The same for at most max characters, which go to buf, with a terminating NUL.
  method ScanInto(d: NGBufferedDescriptor, c0: int, p: byte -> bool, max: nat, buf: array<byte>,
                  ghost s: seq<byte>, ghost m: nat)
    returns (n: nat, c: int)
    requires d.Valid() && -1 <= c0 < 256 && At(s, m, c0, d.Remaining()) && !p(NUL)
    requires max < buf.Length && buf != d.readBuffer && buf != d.writeBuffer
    modifies d`readBufferPos, d`readBufferFillSize, d`delivered, d.fd`incoming, d.readBuffer, buf
    ensures d.Valid() && -1 <= c < 256 && m <= |s| && n == Span(s[m..], p, max) && At(s, m + n, c, d.Remaining())
    ensures n <= max && m + n <= |s| && buf[..n] == s[m..m + n] && buf[n] == NUL
  {
    hide *;
    n, c := 0, c0;
    PassStart(s, m, c, d.Remaining(), p);
    assert buf[..0] == s[m..m];
    while c > 0 && p(c) && n < max
      invariant d.Valid() && -1 <= c < 256 && n <= max && m + n <= |s| && Passed(s, m, n, p, c, d.Remaining())
      invariant buf[..n] == s[m..m + n]
      decreases |s| - n
    {
      ghost var last, unread, before := c, d.Remaining(), buf[..n];
      PassByte(s, m, n, p, last, unread);
      buf[n] := c;
      assert buf[..n + 1] == before + [last];
      n := n + 1;
      c := d.ReadChar();
      PassNext(s, m, n - 1, p, last, unread, c, d.Remaining());
    }
    PassEnd(s, m, n, p, max, c, d.Remaining());
    buf[n] := NUL;
  }

  lemma AtStart(s: seq<byte>)
    ensures At(s, 0, if s == [] then -1 else s[0], if s == [] then [] else s[1..])
  {
  }

  method SkipSpaces(d: NGBufferedDescriptor, c0: int, ghost s: seq<byte>, ghost m: nat) returns (c: int)
    requires d.Valid() && -1 <= c0 < 256 && m <= |s| && At(s, m, c0, d.Remaining())
    modifies d`readBufferPos, d`readBufferFillSize, d`delivered, d.fd`incoming, d.readBuffer
    ensures d.Valid() && -1 <= c < 256 && At(s, SpaceEnd(s, m), c, d.Remaining())
  {
    hide At, Span, NGBufferedDescriptor.Valid, NGBufferedDescriptor.Remaining;
    c := SkipWhile(d, c0, SpaceByte, s, m);
  }

  method SkipLine(d: NGBufferedDescriptor, c0: int, ghost s: seq<byte>, ghost m: nat) returns (c: int)
    requires d.Valid() && -1 <= c0 < 256 && m <= |s| && At(s, m, c0, d.Remaining())
    modifies d`readBufferPos, d`readBufferFillSize, d`delivered, d.fd`incoming, d.readBuffer
    ensures d.Valid() && -1 <= c < 256 && At(s, LineEnd(s, m), c, d.Remaining())
  {
    hide At, Span, NGBufferedDescriptor.Valid, NGBufferedDescriptor.Remaining;
    c := SkipWhile(d, c0, LineByte, s, m);
  }

  method ReadWord(d: NGBufferedDescriptor, c0: int, max: nat, buf: array<byte>, ghost s: seq<byte>, ghost m: nat)
    returns (word: seq<byte>, c: int)
    requires d.Valid() && -1 <= c0 < 256 && m <= |s| && At(s, m, c0, d.Remaining())
    requires max < buf.Length && buf != d.readBuffer && buf != d.writeBuffer
    modifies d`readBufferPos, d`readBufferFillSize, d`delivered, d.fd`incoming, d.readBuffer, buf
    ensures d.Valid() && -1 <= c < 256 && At(s, WordEnd(s, m, max), c, d.Remaining())
    ensures word == s[m..WordEnd(s, m, max)]
  {
    hide At, Span, NGBufferedDescriptor.Valid, NGBufferedDescriptor.Remaining;
    var n;
    n, c := ScanInto(d, c0, WordByte, max, buf, s, m);
    word := buf[..n];
  }

  ghost predicate LineScanned(line: Line, ok: bool, version: seq<byte>, status: int, text: seq<byte>, unread: seq<byte>) {
    match line
    case Line(v, st, t, rest) => ok && version == v && status == st && text == t && unread == rest
    case BadLine(rest) => !ok && unread == rest
  }

  // The result and the bytes left unread depend on the stream alone, on no buffer size and no chunking.
  method NGScanResponseLine(d: NGBufferedDescriptor)
    returns (ok: bool, version: seq<byte>, status: int, text: seq<byte>)
    requires d.Valid()
    modifies d`readBufferPos, d`readBufferFillSize, d`delivered, d.fd`incoming, d.readBuffer
    ensures d.Valid()
    ensures LineScanned(ScanLine(old(d.Remaining())), ok, version, status, text, d.Remaining())
  {
    hide At, WordEnd, SpaceEnd, LineEnd, Atoi, Goes, Drop, NGBufferedDescriptor.Valid, NGBufferedDescriptor.Remaining;
    ghost var s := d.Remaining();
    AtStart(s);
    ok, version, status, text := false, [], 0, [];
    var c := d.ReadChar();
    var versionBuf, buf, textBuf := new byte[17], new byte[10], new byte[7];
    var code;
    // version
    version, c := ReadWord(d, c, 16, versionBuf, s, 0);
    ghost var v := WordEnd(s, 0, 16);
    AtEnd(s, v, c, d.Remaining());
    if c < 1 { return; }
    c := SkipSpaces(d, c, s, v);
    ghost var a := SpaceEnd(s, v);
    AtEnd(s, a, c, d.Remaining());
    if c < 1 { return; }
    // code
    code, c := ReadWord(d, c, 6, buf, s, a);
    status := Atoi(code);
    ghost var b := WordEnd(s, a, 6);
    c := SkipSpaces(d, c, s, b);
    ghost var e := SpaceEnd(s, b);
    AtEnd(s, e, c, d.Remaining());
    if c < 1 { return; }
    ok, text := ScanReasonAndEnd(d, c, textBuf, version, status, s, v, b);
  }

  // The part behind the code and the spaces: reason and line end.
  method ScanReasonAndEnd(d: NGBufferedDescriptor, c0: int, textBuf: array<byte>, version: seq<byte>, status: int,
                          ghost s: seq<byte>, ghost v: nat, ghost b: nat)
    returns (ok: bool, text: seq<byte>)
    requires d.Valid() && textBuf.Length == 7 && textBuf != d.readBuffer && textBuf != d.writeBuffer
    requires 0 < c0 < 256 && v <= b <= |s| && At(s, SpaceEnd(s, b), c0, d.Remaining()) && version == s[..v]
    modifies d`readBufferPos, d`readBufferFillSize, d`delivered, d.fd`incoming, d.readBuffer, textBuf
    ensures d.Valid()
    ensures LineScanned(ScanReason(s, v, status, SpaceEnd(s, b)), ok, version, status, text, d.Remaining())
  {
    hide At, WordEnd, SpaceEnd, LineEnd, Goes, Drop, NGBufferedDescriptor.Valid, NGBufferedDescriptor.Remaining;
    ghost var e := SpaceEnd(s, b);
    ok, text := false, [];
    var c := c0;
    AtEnd(s, e, c, d.Remaining());
    // The branches for a response without reason, taken on a line end, cannot be reached from here.
    SpaceShape(s, b);
    assert c != LF && c != CR;
    // reason
    text, c := ReadWord(d, c, 6, textBuf, s, e);
    ghost var f := WordEnd(s, e, 6);
    AtEnd(s, f, c, d.Remaining());
    if c < 1 { return; }
    // rest of the line
    c := SkipLine(d, c, s, f);
    ghost var g := LineEnd(s, f);
    AtEnd(s, g, c, d.Remaining());
    if c < 1 { return; }
    DropIs(s, g);
    ok := true;
  }

  lemma DropIs(s: seq<byte>, g: nat)
    requires Goes(s, g)
    ensures g < |s| && Drop(s, g + 1) == s[g + 1..]
  {
  }

  ghost predicate ItemScanned(item: Item, more: bool, name: seq<byte>, value: seq<byte>, unread: seq<byte>) {
    match item
    case Header(n, v, rest) => more && name == n && value == v && unread == rest
    case Stop(rest) => !more && unread == rest
  }

  method ReadName(d: NGBufferedDescriptor, c0: int, buf: array<byte>, ghost s: seq<byte>)
    returns (i: nat, name: seq<byte>, c: int)
    requires d.Valid() && -1 <= c0 < 256 && At(s, 0, c0, d.Remaining())
    requires buf.Length == 256 && buf != d.readBuffer && buf != d.writeBuffer
    modifies d`readBufferPos, d`readBufferFillSize, d`delivered, d.fd`incoming, d.readBuffer, buf
    ensures d.Valid() && -1 <= c < 256 && i == NameEnd(s, 0) && At(s, i, c, d.Remaining()) && name == s[..i]
  {
    hide At, Span, NGBufferedDescriptor.Valid, NGBufferedDescriptor.Remaining;
    i, c := ScanInto(d, c0, NameByte, 255, buf, s, 0);
    assert s[0..] == s && s[0..i] == s[..i];
    name := buf[..i];
  }

  method ReadValue(d: NGBufferedDescriptor, c0: int, buf: array<byte>, ghost s: seq<byte>, ghost m: nat)
    returns (j: nat, value: seq<byte>, c: int)
    requires d.Valid() && -1 <= c0 < 256 && m <= |s| && At(s, m, c0, d.Remaining())
    requires buf.Length == 8000 && buf != d.readBuffer && buf != d.writeBuffer
    modifies d`readBufferPos, d`readBufferFillSize, d`delivered, d.fd`incoming, d.readBuffer, buf
    ensures d.Valid() && -1 <= c < 256 && m + j == ValueEnd(s, m) && At(s, m + j, c, d.Remaining()) && value == s[m..m + j]
  {
    hide At, Span, NGBufferedDescriptor.Valid, NGBufferedDescriptor.Remaining;
    j, c := ScanInto(d, c0, ValueByte, 7999, buf, s, m);
    value := buf[..j];
  }

  // One turn of the header loop.
  method ScanOneHeader(d: NGBufferedDescriptor, nameBuf: array<byte>, valueBuf: array<byte>)
    returns (more: bool, name: seq<byte>, value: seq<byte>)
    requires d.Valid() && nameBuf.Length == 256 && valueBuf.Length == 8000 && nameBuf != valueBuf
    requires nameBuf != d.readBuffer && nameBuf != d.writeBuffer && valueBuf != d.readBuffer && valueBuf != d.writeBuffer
    modifies d`readBufferPos, d`readBufferFillSize, d`delivered, d.fd`incoming, d.readBuffer, nameBuf, valueBuf
    ensures d.Valid()
    ensures ItemScanned(ScanHeader(old(d.Remaining())), more, name, value, d.Remaining())
  {
    hide At, NameEnd, SpaceEnd, ValueEnd, NGBufferedDescriptor.Valid, NGBufferedDescriptor.Remaining;
    ghost var s := d.Remaining();
    AtStart(s);
    more, name, value := false, [], [];
    var c := d.ReadChar();
    AtEnd(s, 0, c, d.Remaining());
    if c <= 0 { return; }
    if c == LF { return; }
    if c == CR {
      c := d.ReadChar();
      return;
    }
    var i;
    i, name, c := ReadName(d, c, nameBuf, s);
    AtEnd(s, i, c, d.Remaining());
    if i < 1 { return; }
    if c != COLON { return; }
    AtNext(s, i, c, d.Remaining());
    c := d.ReadChar();
    c := SkipSpaces(d, c, s, i + 1);
    more, value := ScanValueAndEnd(d, c, valueBuf, name, s, i);
  }

  // The part behind the separator: the value and the line end.
  method ScanValueAndEnd(d: NGBufferedDescriptor, c0: int, valueBuf: array<byte>, name: seq<byte>, ghost s: seq<byte>, ghost i: nat)
    returns (more: bool, value: seq<byte>)
    requires d.Valid() && valueBuf.Length == 8000 && valueBuf != d.readBuffer && valueBuf != d.writeBuffer
    requires -1 <= c0 < 256 && i + 1 <= |s| && At(s, SpaceEnd(s, i + 1), c0, d.Remaining()) && name == s[..i]
    modifies d`readBufferPos, d`readBufferFillSize, d`delivered, d.fd`incoming, d.readBuffer, valueBuf
    ensures d.Valid()
    ensures ItemScanned(ScanValue(s, i, SpaceEnd(s, i + 1)), more, name, value, d.Remaining())
  {
    hide At, SpaceEnd, ValueEnd, Goes, NGBufferedDescriptor.Valid, NGBufferedDescriptor.Remaining;
    ghost var v := SpaceEnd(s, i + 1);
    var j, c;
    j, value, c := ReadValue(d, c0, valueBuf, s, v);
    ghost var e := v + j;
    AtEnd(s, e, c, d.Remaining());
    more := false;
    if j < 1 { return; }
    if c == LF {
      // only reached when the value fills its buffer
    } else if c == CR {
      AtNext(s, e, c, d.Remaining());
      c := d.ReadChar();
      AtEnd(s, e + 1, c, d.Remaining());
      if c != LF { return; }
    } else {
      return;
    }
    more := true;
  }

  // The table and the bytes left unread depend on the stream alone, on no buffer size and no chunking.
  method NGScanHeaders(d: NGBufferedDescriptor) returns (headers: Table)
    requires d.Valid()
    modifies d`readBufferPos, d`readBufferFillSize, d`delivered, d.fd`incoming, d.readBuffer
    ensures d.Valid()
    ensures Head(headers, d.Remaining()) == ScanHeaders(old(d.Remaining()), [])
  {
    hide NGBufferedDescriptor.Valid, NGBufferedDescriptor.Remaining, ScanHeader, TableSet;
    headers := [];
    var nameBuf, valueBuf := new byte[256], new byte[8000];
    ghost var s := d.Remaining();
    while true
      invariant d.Valid() && ScanHeaders(d.Remaining(), headers) == ScanHeaders(s, [])
      decreases |d.Remaining()|
    {
      var more, name, value := ScanOneHeader(d, nameBuf, valueBuf);
      if !more { break; }
      headers := TableSet(headers, name, value);
    }
  }
}
