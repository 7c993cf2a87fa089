// The header printer on top of the buffered descriptor, and the request that the proxy sends.

module HttpWriter {
  import opened Bytes
  import opened Sequences
  import opened BufferedDescriptor
  import opened HttpSyntax
  import opened HttpLaws

  lemma LongerPrefix(w: seq<byte>, x: seq<byte>, y: seq<byte>)
    requires x <= y
    ensures w + x <= w + y
  {
  }

  // Sends data as a further part of what is to be sent in all.
  method Send(d: NGBufferedDescriptor, data: seq<byte>, ghost base: seq<byte>, ghost done: seq<byte>, ghost all: seq<byte>)
    returns (ok: bool)
    requires d.Valid() && d.writeBufferSize > 0
    requires d.Written() == base + done && done + data <= all
    modifies d`writeBufferFillSize, d`accepted, d.fd`wire, d.fd`failed, d.fd`wireAtFailure, d.writeBuffer
    ensures d.Valid() && d.Remaining() == old(d.Remaining()) && d.fd.failed == (old(d.fd.failed) || !ok)
    ensures ok ==> d.Written() == base + (done + data)
    ensures !ok ==> d.fd.wire <= base + all
  {
    hide NGBufferedDescriptor.Valid, NGBufferedDescriptor.Written, NGBufferedDescriptor.Remaining;
    ok := d.SafeWrite(data);
    assert base + done + data == base + (done + data);
    LongerPrefix(base, done + data, all);
  }

  // NGBufferedDescriptor_writeHttpHeader
  method WriteHttpHeader(d: NGBufferedDescriptor, key: seq<byte>, value: seq<byte>) returns (ok: bool)
    requires d.Valid() && d.writeBufferSize > 0 && IsCString(key) && IsCString(value)
    modifies d`writeBufferFillSize, d`accepted, d.fd`wire, d.fd`failed, d.fd`wireAtFailure, d.writeBuffer
    ensures d.Valid() && d.Remaining() == old(d.Remaining()) && d.fd.failed == (old(d.fd.failed) || !ok)
    ensures ok ==> d.Written() == old(d.Written()) + PrintHeader(key, value)
    ensures !ok ==> d.fd.wire <= old(d.Written()) + PrintHeader(key, value)
  {
    hide NGBufferedDescriptor.Valid, NGBufferedDescriptor.Written, NGBufferedDescriptor.Remaining, Escape;
    ghost var base, all := d.Written(), PrintHeader(key, value);
    ok := Send(d, key, base, [], all);
    if !ok { return; }
    ok := Send(d, [COLON, SPACE], base, key, all);
    if !ok { return; }
    ok := WriteValue(d, value, base, key + [COLON, SPACE], all);
    if !ok { return; }
    ok := Send(d, CRLF, base, key + [COLON, SPACE] + Escape(value), all);
  }

  // The value, byte by byte where some of them are to be escaped.
  method WriteValue(d: NGBufferedDescriptor, value: seq<byte>, ghost base: seq<byte>, ghost done: seq<byte>, ghost all: seq<byte>)
    returns (ok: bool)
    requires d.Valid() && d.writeBufferSize > 0
    requires d.Written() == base + done && done + Escape(value) <= all
    modifies d`writeBufferFillSize, d`accepted, d.fd`wire, d.fd`failed, d.fd`wireAtFailure, d.writeBuffer
    ensures d.Valid() && d.Remaining() == old(d.Remaining()) && d.fd.failed == (old(d.fd.failed) || !ok)
    ensures ok ==> d.Written() == base + (done + Escape(value))
    ensures !ok ==> d.fd.wire <= base + all
  {
    hide NGBufferedDescriptor.Valid, NGBufferedDescriptor.Written, NGBufferedDescriptor.Remaining;
    if |value| > 0 && (LF in value || CR in value) {
      ok := WriteEscaped(d, value, base, done, all);
    } else {
      ok := Send(d, value, base, done, all);
    }
  }

  method WriteEscaped(d: NGBufferedDescriptor, value: seq<byte>, ghost base: seq<byte>, ghost done: seq<byte>, ghost all: seq<byte>)
    returns (ok: bool)
    requires d.Valid() && d.writeBufferSize > 0
    requires d.Written() == base + done && done + FlatMap(EscapeByte, value) <= all
    modifies d`writeBufferFillSize, d`accepted, d.fd`wire, d.fd`failed, d.fd`wireAtFailure, d.writeBuffer
    ensures d.Valid() && d.Remaining() == old(d.Remaining()) && d.fd.failed == (old(d.fd.failed) || !ok)
    ensures ok ==> d.Written() == base + (done + FlatMap(EscapeByte, value))
    ensures !ok ==> d.fd.wire <= base + all
  {
    hide NGBufferedDescriptor.Valid, NGBufferedDescriptor.Written, NGBufferedDescriptor.Remaining, FlatMap;
    EscapedNothing();
    var len := 0;
    ghost var out: seq<byte> := [];
    assert done + [] == done;
    while len < |value|
      invariant 0 <= len <= |value| && out == FlatMap(EscapeByte, value[..len])
      invariant d.Valid() && d.Remaining() == old(d.Remaining()) && d.fd.failed == old(d.fd.failed)
      invariant d.Written() == base + (done + out)
    {
      var b := value[len];
      EscapedOne(value, len);
      LongerPrefix(done, out + EscapeByte(b), FlatMap(EscapeByte, value));
      assert done + out + EscapeByte(b) == done + (out + EscapeByte(b));
      ghost var soFar := done + out;
      var r;
      if b == PERCENT || b == CR || b == LF {
        r := d.Write(Code(b));
      } else {
        r := d.Write([b]);
      }
      if r <= 0 {
        assert base + soFar + EscapeByte(b) == base + (soFar + EscapeByte(b));
        LongerPrefix(base, soFar + EscapeByte(b), all);
        return false;
      }
      assert base + soFar + EscapeByte(b) == base + (done + (out + EscapeByte(b)));
      out := out + EscapeByte(b);
      len := len + 1;
    }
    assert value[..|value|] == value;
    ok := true;
  }

  lemma EscapedNothing()
    ensures FlatMap(EscapeByte, []) == []
  {
  }

  lemma EscapedOne(value: seq<byte>, i: nat)
    requires i < |value|
    ensures FlatMap(EscapeByte, value[..i + 1]) == FlatMap(EscapeByte, value[..i]) + EscapeByte(value[i])
    ensures FlatMap(EscapeByte, value[..i]) + EscapeByte(value[i]) <= FlatMap(EscapeByte, value)
  {
    hide *;
    var before, upTo := value[..i], value[..i + 1];
    TakeNext(value, 0, i);
    FlatMapPrefix(EscapeByte, upTo, value);
    EscapedNext(before, value[i], upTo);
  }

  lemma EscapedNext(before: seq<byte>, b: byte, upTo: seq<byte>)
    requires upTo == before + [b]
    ensures FlatMap(EscapeByte, upTo) == FlatMap(EscapeByte, before) + EscapeByte(b)
  {
    hide *;
    FlatMapSnoc(EscapeByte, before, b);
  }

  lemma PrintedOne(entries: Table, i: nat)
    requires i < |entries|
    ensures FlatMap(PrintEntry, entries[..i + 1])
         == FlatMap(PrintEntry, entries[..i]) + PrintHeader(entries[i].key, entries[i].val)
    ensures FlatMap(PrintEntry, entries[..i + 1]) <= FlatMap(PrintEntry, entries)
  {
    hide *;
    var before, e, upTo := entries[..i], entries[i], entries[..i + 1];
    TakeNext(entries, 0, i);
    FlatMapPrefix(PrintEntry, upTo, entries);
    PrintedNext(before, e, upTo);
  }

  lemma PrintedNext(before: Table, e: Entry, upTo: Table)
    requires upTo == before + [e]
    ensures FlatMap(PrintEntry, upTo) == FlatMap(PrintEntry, before) + PrintHeader(e.key, e.val)
  {
    hide *;
    FlatMapSnoc(PrintEntry, before, e);
    PrintedAs(e);
  }

  lemma PrintedAs(e: Entry)
    ensures PrintEntry(e) == PrintHeader(e.key, e.val)
  {
    hide PrintHeader;
  }

  predicate AllCStrings(entries: Table) {
    forall i :: 0 <= i < |entries| ==> IsCString(entries[i].key) && IsCString(entries[i].val)
  }

  // _writeInHeaders: every entry of a table, in order.
  method WriteInHeaders(d: NGBufferedDescriptor, entries: Table, ghost base: seq<byte>, ghost done: seq<byte>, ghost all: seq<byte>)
    returns (ok: bool)
    requires d.Valid() && d.writeBufferSize > 0 && AllCStrings(entries)
    requires d.Written() == base + done && done + FlatMap(PrintEntry, entries) <= all
    modifies d`writeBufferFillSize, d`accepted, d.fd`wire, d.fd`failed, d.fd`wireAtFailure, d.writeBuffer
    ensures d.Valid() && d.Remaining() == old(d.Remaining()) && d.fd.failed == (old(d.fd.failed) || !ok)
    ensures ok ==> d.Written() == base + (done + FlatMap(PrintEntry, entries))
    ensures !ok ==> d.fd.wire <= base + all
  {
    hide NGBufferedDescriptor.Valid, NGBufferedDescriptor.Written, NGBufferedDescriptor.Remaining, FlatMap, PrintHeader;
    PrintedNothing();
    ghost var out: seq<byte> := [];
    assert done + [] == done;
    for i := 0 to |entries|
      invariant out == FlatMap(PrintEntry, entries[..i])
      invariant d.Valid() && d.Remaining() == old(d.Remaining()) && d.fd.failed == old(d.fd.failed)
      invariant d.Written() == base + (done + out)
    {
      var entry := entries[i];
      ghost var header := PrintHeader(entry.key, entry.val);
      PrintedOne(entries, i);
      LongerPrefix(done, out + header, FlatMap(PrintEntry, entries));
      assert base + (done + out) + header == base + (done + (out + header));
      LongerPrefix(base, done + (out + header), all);
      ok := WriteHttpHeader(d, entry.key, entry.val);
      if !ok { return; }
      out := out + header;
    }
    assert entries[..|entries|] == entries;
    ok := true;
  }

  lemma PrintedNothing()
    ensures FlatMap(PrintEntry, []) == []
  {
  }

  // ---------------------------------------------------------------- the request

  // The request line, the headers of the adaptor and of the client, and the empty line.
  function RequestHead(line: seq<byte>, adaptor: Table, headersIn: Table): seq<byte> {
    line + CRLF + FlatMap(PrintEntry, adaptor) + FlatMap(PrintEntry, headersIn) + CRLF
  }

  // The part of ngobjweb_handler that writes the head of the request and flushes it.
  method WriteRequestHead(d: NGBufferedDescriptor, line: seq<byte>, adaptor: Table, headersIn: Table) returns (ok: bool)
    requires d.Valid() && d.writeBufferSize > 0 && AllCStrings(adaptor) && AllCStrings(headersIn)
    modifies d`writeBufferFillSize, d`accepted, d.fd`wire, d.fd`failed, d.fd`wireAtFailure, d.writeBuffer
    ensures d.Valid() && d.Remaining() == old(d.Remaining()) && d.fd.failed == (old(d.fd.failed) || !ok)
    ensures ok ==> d.fd.wire == d.Written() == old(d.Written()) + RequestHead(line, adaptor, headersIn) && d.Pending() == []
    ensures !ok ==> d.fd.wire <= old(d.Written()) + RequestHead(line, adaptor, headersIn)
  {
    hide NGBufferedDescriptor.Valid, NGBufferedDescriptor.Written, NGBufferedDescriptor.Remaining, FlatMap;
    ghost var base, all := d.Written(), RequestHead(line, adaptor, headersIn);
    ghost var done := line + CRLF + FlatMap(PrintEntry, adaptor);
    ok := Send(d, line, base, [], all);
    if !ok { return; }
    ok := Send(d, CRLF, base, line, all);
    if !ok { return; }
    ok := WriteInHeaders(d, adaptor, base, line + CRLF, all);
    if !ok { return; }
    ok := WriteInHeaders(d, headersIn, base, done, all);
    if !ok { return; }
    ok := Send(d, CRLF, base, done + FlatMap(PrintEntry, headersIn), all);
    if !ok { return; }
    ok := d.Flush();
  }

  // The whole request. The flush behind the body is not checked: so success is reported even when that
  // flush fails, and then only the head is certain to be on the wire.
  method WriteRequest(d: NGBufferedDescriptor, line: seq<byte>, adaptor: Table, headersIn: Table, body: seq<byte>)
    returns (ok: bool)
    requires d.Valid() && d.writeBufferSize > 0 && AllCStrings(adaptor) && AllCStrings(headersIn)
    modifies d`writeBufferFillSize, d`accepted, d.fd`wire, d.fd`failed, d.fd`wireAtFailure, d.writeBuffer
    ensures d.Valid() && d.Remaining() == old(d.Remaining())
    ensures d.fd.wire <= old(d.Written()) + RequestHead(line, adaptor, headersIn) + body
    ensures ok ==> old(d.Written()) + RequestHead(line, adaptor, headersIn) <= d.fd.wire
    ensures !ok ==> d.fd.failed
    ensures ok && !d.fd.failed ==> d.fd.wire == old(d.Written()) + RequestHead(line, adaptor, headersIn) + body && d.Pending() == []
  {
    hide NGBufferedDescriptor.Valid, NGBufferedDescriptor.Written, NGBufferedDescriptor.Remaining, RequestHead;
    ghost var head := d.Written() + RequestHead(line, adaptor, headersIn);
    ok := WriteRequestHead(d, line, adaptor, headersIn);
    if !ok { return; }
    if |body| > 0 {
      ok := d.SafeWrite(body);
      if !ok { return; }
      var flushed := d.Flush();
    }
  }

  // The application can read back all headers as they were printed, the proxy's before the client's,
  // and finds the body behind them.
  lemma RequestIsReadBack(line: seq<byte>, adaptor: Table, headersIn: Table, body: seq<byte>)
    requires AllReadable(adaptor + headersIn)
    ensures var s, n := RequestHead(line, adaptor, headersIn) + body, |line| + 2;
            && n <= |s| && s[..n] == line + CRLF
            && ScanHeaders(s[n..], []) == Head(SetAll([], Received(adaptor + headersIn)), body)
  {
    hide ScanHeaders, SetAll, Received, FlatMap, AllReadable;
    var s, n := RequestHead(line, adaptor, headersIn) + body, |line| + 2;
    FlatMapConcat(PrintEntry, adaptor, headersIn);
    assert s == line + CRLF + (FlatMap(PrintEntry, adaptor + headersIn) + CRLF + body);
    assert s[n..] == FlatMap(PrintEntry, adaptor + headersIn) + CRLF + body;
    HeadRoundTrip(adaptor + headersIn, [], CRLF, body);
  }
}
