// The response: the application's head is copied to the client's response, and its body is relayed.

module Relay {
  import opened Bytes
  import opened Sequences
  import opened Options
  import opened FileDescriptor
  import opened BufferedDescriptor
  import opened HttpSyntax
  import opened ScanHttp
  import opened HttpWriter

  const CONTENT_TYPE: seq<byte> := Ascii("content-type")
  const CONTENT_ENCODING: seq<byte> := Ascii("content-encoding")
  const CONTENT_LENGTH: seq<byte> := Ascii("content-length")

  // What of the server's record changes.
  datatype State = State(status: int, contentType: Option<seq<byte>>, contentEncoding: Option<seq<byte>>,
                         headersOut: Table, client: seq<byte>)

  // The server's record of the client's request and its response.
  class Request {
    const headerOnly: bool            // a HEAD request
    var status: int
    var contentType: Option<seq<byte>>
    var contentEncoding: Option<seq<byte>>
    var headersOut: Table
    var client: seq<byte>             // the body as sent to the client

    function Now(): State
      reads this
    {
      State(status, contentType, contentEncoding, headersOut, client)
    }

    constructor (headerOnly: bool)
      ensures this.headerOnly == headerOnly && Now() == State(200, None, None, [], [])
    {
      this.headerOnly, status, contentType, contentEncoding := headerOnly, 200, None, None;
      headersOut, client := [], [];
    }
  }

  // What the handler returns. A body that ends before its announced length ends the model's run: there
  // the source goes on with the buffered descriptor it has just freed.
  datatype Outcome = Ok | ServerError | ShortBody

  // The length the response announces; zero without the header, too.
  function LengthOf(headers: Table): int {
    match TableGet(headers, CONTENT_LENGTH)
    case None => 0
    case Some(value) => Atoi(value)
  }

  // _copyHeadersToRequest
  method CopyHeadersToRequest(r: Request, headers: Table) returns (contentLength: int)
    modifies r`contentType, r`contentEncoding, r`headersOut
    ensures r.headersOut == SetAll(old(r.headersOut), headers)
    ensures r.contentType == OrElse(TableGet(headers, CONTENT_TYPE), old(r.contentType))
    ensures r.contentEncoding == OrElse(TableGet(headers, CONTENT_ENCODING), old(r.contentEncoding))
    ensures contentLength == LengthOf(headers)
  {
    hide TableGet, TableSet, SameKey, Atoi;
    var value := TableGet(headers, CONTENT_TYPE);
    if value.Some? { r.contentType := value; }
    value := TableGet(headers, CONTENT_ENCODING);
    if value.Some? { r.contentEncoding := value; }
    value := TableGet(headers, CONTENT_LENGTH);
    contentLength := if value.Some? then Atoi(value.value) else 0;
    assert headers[0..] == headers;
    for i := 0 to |headers|
      invariant SetAll(r.headersOut, headers[i..]) == SetAll(old(r.headersOut), headers)
      invariant r.contentType == OrElse(TableGet(headers, CONTENT_TYPE), old(r.contentType))
      invariant r.contentEncoding == OrElse(TableGet(headers, CONTENT_ENCODING), old(r.contentEncoding))
    {
      r.headersOut := TableSet(r.headersOut, headers[i].key, headers[i].val);
      assert headers[i..][1..] == headers[i + 1..];
    }
  }

  // ---------------------------------------------------------------- what is to be relayed

  datatype Delivery = Body(bytes: seq<byte>) | Incomplete

  datatype Response = Refused | Answer(status: int, headers: Table, delivery: Delivery)

  // The part of the bytes behind the head that goes to the client.
  function Deliver(n: int, headerOnly: bool, rest: seq<byte>): Delivery {
    if headerOnly || n < 0 then Body([])
    else if n == 0 then Body(rest)
    else if n <= |rest| then Body(rest[..n])
    else Incomplete
  }

  // The response in the application's whole stream.
  function ReadResponse(s: seq<byte>, headerOnly: bool): Response {
    match ScanLine(s)
    case BadLine(_) => Refused
    case Line(_, status, _, afterLine) =>
      var head := ScanHeaders(afterLine, []);
      Answer(status, head.table, Deliver(LengthOf(head.table), headerOnly, head.rest))
  }

  // What the handler makes of a response.
  function AfterRelay(response: Response, before: State): (Outcome, State) {
    match response
    case Refused => (ServerError, before)
    case Answer(status, headers, delivery) =>
      var answered := before.(
        status := status,
        contentType := OrElse(TableGet(headers, CONTENT_TYPE), before.contentType),
        contentEncoding := OrElse(TableGet(headers, CONTENT_ENCODING), before.contentEncoding),
        headersOut := SetAll(before.headersOut, headers));
      match delivery
      case Incomplete => (ShortBody, answered)
      case Body(bytes) => (Ok, answered.(client := before.client + bytes))
  }

  // ---------------------------------------------------------------- relaying it

  // Reads until the end of the stream.
  method RelayUntilEnd(d: NGBufferedDescriptor, r: Request)
    requires d.Valid()
    modifies r`client, d`readBufferPos, d`readBufferFillSize, d`delivered, d.fd`incoming, d.readBuffer
    ensures d.Valid() && d.Remaining() == []
    ensures r.client == old(r.client) + old(d.Remaining())
  {
    hide NGBufferedDescriptor.Valid, NGBufferedDescriptor.Remaining, Splice;
    var buffer := new byte[4096];
    ghost var s, got := d.Remaining(), 0;
    assert s[0..] == s && s[..0] == [];
    while true
      invariant d.Valid() && got <= |s| && d.Remaining() == s[got..]
      invariant r.client == old(r.client) + s[..got]
      decreases |s| - got
    {
      ghost var was := buffer[..];
      var result := d.Read(buffer, 0, 4096);
      if result == 0 { break; }
      SpliceRead(was, 0, s[got..][..result]);
      GoOn(s, got, result);
      r.client := r.client + buffer[..result];
      got := got + result;
    }
    assert s[..|s|] == s;
  }

  // Reads the announced length, then sends it.
  method RelayLength(d: NGBufferedDescriptor, r: Request, contentLength: nat) returns (ok: bool)
    requires d.Valid()
    modifies r`client, d`readBufferPos, d`readBufferFillSize, d`delivered, d.fd`incoming, d.readBuffer
    ensures d.Valid()
    ensures ok <==> contentLength <= |old(d.Remaining())|
    ensures r.client == old(r.client) + if ok then old(d.Remaining())[..contentLength] else []
  {
    hide NGBufferedDescriptor.Valid, NGBufferedDescriptor.Remaining, Splice;
    var buffer := new byte[contentLength + 1];
    ghost var was, s := buffer[..], d.Remaining();
    ok := d.SafeRead(buffer, 0, contentLength);
    if ok {
      SpliceRead(was, 0, s[..contentLength]);
      assert buffer[..][0..contentLength] == buffer[..contentLength];
      r.client := r.client + buffer[..contentLength];
    }
  }

  // Status line, headers and body of the response.
  method RelayResponse(d: NGBufferedDescriptor, r: Request) returns (outcome: Outcome)
    requires d.Valid()
    modifies r, d`readBufferPos, d`readBufferFillSize, d`delivered, d.fd`incoming, d.readBuffer
    modifies d`writeBufferFillSize, d.fd`wire, d.fd`failed, d.fd`wireAtFailure
    ensures d.Valid() && old(d.fd.wire) <= d.fd.wire
    ensures old(d.Pending()) == [] ==> d.fd.wire == old(d.fd.wire) && d.fd.failed == old(d.fd.failed)
    ensures old(d.fd.failed) ==> d.fd.failed && d.fd.wireAtFailure == old(d.fd.wireAtFailure)
    ensures (outcome, r.Now()) == AfterRelay(ReadResponse(old(d.Remaining()), r.headerOnly), old(r.Now()))
  {
    hide NGBufferedDescriptor.ReadSide, NGBufferedDescriptor.WriteSide, NGBufferedDescriptor.Remaining,
         ScanLine, ScanHeaders, SetAll, LengthOf, TableGet;
    var ok, _, statusCode, _ := NGScanResponseLine(d);
    if !ok {
      var freed := d.Flush();
      return ServerError;
    }
    r.status := statusCode;
    var headers := NGScanHeaders(d);
    var contentLength := CopyHeadersToRequest(r, headers);
    outcome := Ok;
    assert r.client + [] == r.client;
    if !r.headerOnly {
      if contentLength > 0 {
        ok := RelayLength(d, r, contentLength);
        var freed := d.Flush();
        outcome := if ok then Ok else ShortBody;
      } else if contentLength == 0 {
        RelayUntilEnd(d, r);
      }
    }
  }

  // ngobjweb_handler, from the connection to the application on: either the request did not get through
  // and nothing is passed on, or the head of the request is on the wire and the response in the
  // application's stream, whatever its chunking, is relayed. At the first failed write the wire holds a
  // beginning of the request, and without one the whole request.
  method NgobjwebHandler(fd: Descriptor, line: seq<byte>, adaptor: Table, headersIn: Table, body: seq<byte>, r: Request)
    returns (outcome: Outcome)
    requires fd.Valid() && !fd.failed && AllCStrings(adaptor) && AllCStrings(headersIn)
    modifies r, fd
    ensures fd.Valid()
    ensures var request := RequestHead(line, adaptor, headersIn) + body;
            if fd.failed then fd.wireAtFailure <= old(fd.wire) + request else fd.wire == old(fd.wire) + request
    ensures || (fd.failed && outcome == ServerError && r.Now() == old(r.Now()))
            || (old(fd.wire) + RequestHead(line, adaptor, headersIn) <= fd.wire
                && (outcome, r.Now()) == AfterRelay(ReadResponse(old(fd.incoming), r.headerOnly), old(r.Now())))
  {
    hide ReadResponse, RequestHead, AfterRelay, NGBufferedDescriptor.Remaining, NGBufferedDescriptor.Written,
         NGBufferedDescriptor.ReadSide, NGBufferedDescriptor.WriteSide, NGBufferedDescriptor.Separate;
    var toApp := new NGBufferedDescriptor(fd, 512);
    var ok := WriteRequest(toApp, line, adaptor, headersIn, body);
    if !ok {
      toApp.FailureIsOnWire();
      var freed := toApp.Flush();
      return ServerError;
    }
    toApp.FailureIsOnWire();
    outcome := RelayResponse(toApp, r);
  }
}
