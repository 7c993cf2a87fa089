// What the client gets of a well-formed response, compared with the message framing
// of section 3.3.3 of RFC 7230.

module ResponseLaws {
  import opened Bytes
  import opened Sequences
  import opened Options
  import opened HttpSyntax
  import opened HttpLaws
  import opened HttpForms
  import opened Relay

  // ---------------------------------------------------------------- numbers

  predicate IsDecimal(v: seq<byte>) { forall i :: 0 <= i < |v| ==> IsDigit(v[i]) }

  function Decimal(v: seq<byte>): nat
    requires IsDecimal(v)
  {
    if v == [] then 0 else 10 * Decimal(v[..|v| - 1]) + (v[|v| - 1] - 48)
  }

  lemma {:induction false} DigitsGoOn(v: seq<byte>, rest: seq<byte>, k: nat)
    requires IsDecimal(v) && k <= |v| && (rest == [] || !IsDigit(rest[0]))
    ensures Digits(v[k..] + rest, Decimal(v[..k])) == Decimal(v)
    decreases |v| - k
  {
    var s := v[k..] + rest;
    if k == |v| {
      assert v[..k] == v && s == rest;
    } else {
      assert v[..k + 1][..k] == v[..k] && s[0] == v[k] && s[1..] == v[k + 1..] + rest;
      DigitsGoOn(v, rest, k + 1);
    }
  }

  // What atoi makes of any text: spaces, a sign, the decimal number, and whatever ends it.
  lemma {:induction false} AtoiReads(spaces: seq<byte>, sign: seq<byte>, v: seq<byte>, rest: seq<byte>)
    requires AreSpaces(spaces) && sign in {[], Ascii("-"), Ascii("+")} && IsDecimal(v)
    requires rest != [] ==> !IsDigit(rest[0])
    requires rest != [] && v == [] && sign == [] ==> !IsSpace(rest[0]) && rest[0] !in Ascii("+-")
    ensures Atoi(spaces + sign + v + rest) == if sign == Ascii("-") then -(Decimal(v) as int) else Decimal(v)
  {
    var s := spaces + sign + v + rest;
    if spaces != [] {
      assert s[0] == spaces[0] && s[1..] == spaces[1..] + sign + v + rest;
      AtoiReads(spaces[1..], sign, v, rest);
    } else {
      DigitsGoOn(v, rest, 0);
      assert v[0..] == v && Decimal(v[..0]) == 0;
      if sign != [] {
        assert s[0] == sign[0] && s[1..] == v + rest;
      } else {
        assert s == v + rest;
        assert v != [] ==> s[0] == v[0];
        assert v == [] && rest != [] ==> s[0] == rest[0] && Ascii("+-")[0] == PLUS && Ascii("+-")[1] == MINUS;
      }
    }
  }

  // atoi reads decimal numbers as such.
  lemma AtoiIsDecimal(v: seq<byte>)
    requires IsDecimal(v)
    ensures Atoi(v) == Decimal(v)
  {
    hide Atoi, Decimal;
    AtoiReads([], [], v, []);
    assert [] + [] + v + [] == v;
  }

  // ---------------------------------------------------------------- lookup in copied headers

  // No key occurs twice.
  predicate Unique(t: Table) {
    t == [] || (TableGet(t[1..], t[0].key).None? && Unique(t[1..]))
  }

  lemma {:induction false} WithoutKeepsUnique(t: Table, key: seq<byte>)
    requires Unique(t)
    ensures Unique(Without(t, key))
  {
    if t != [] {
      WithoutKeepsUnique(t[1..], key);
      GetAfterWithout(t[1..], key, t[0].key);
    }
  }

  // Setting never makes a key occur twice.
  lemma {:induction false} SetKeepsUnique(t: Table, key: seq<byte>, val: seq<byte>)
    requires Unique(t)
    ensures Unique(TableSet(t, key, val))
  {
    if t != [] {
      SetKeepsUnique(t[1..], key, val);
      WithoutKeepsUnique(t[1..], key);
      GetAfterWithout(t[1..], key, t[0].key);
      GetAfterSet(t[1..], key, val, t[0].key);
    }
  }

  function Keys(t: Table): (ks: seq<seq<byte>>)
    ensures |ks| == |t|
  {
    if t == [] then [] else [t[0].key] + Keys(t[1..])
  }

  lemma {:induction false} WithoutNothing(t: Table, key: seq<byte>)
    requires TableGet(t, key).None?
    ensures Without(t, key) == t
  {
    if t != [] { WithoutNothing(t[1..], key); }
  }

  // Setting keeps the order of the keys; a new one comes last.
  lemma {:induction false} SetKeepsOrder(t: Table, key: seq<byte>, val: seq<byte>)
    requires Unique(t)
    ensures Keys(TableSet(t, key, val)) == if TableGet(t, key).Some? then Keys(t) else Keys(t) + [key]
  {
    if t == [] {
      assert [Entry(key, val)][1..] == [];
    } else if SameKey(t[0].key, key) {
      SameKeySameValue(t[1..], t[0].key, key);
      WithoutNothing(t[1..], key);
      assert TableSet(t, key, val)[1..] == t[1..];
    } else {
      SetKeepsOrder(t[1..], key, val);
      assert TableSet(t, key, val)[1..] == TableSet(t[1..], key, val);
    }
  }

  lemma {:induction false} SetAllKeepsUnique(t: Table, entries: Table)
    requires Unique(t)
    ensures Unique(SetAll(t, entries))
    decreases |entries|
  {
    if entries != [] {
      SetKeepsUnique(t, entries[0].key, entries[0].val);
      SetAllKeepsUnique(TableSet(t, entries[0].key, entries[0].val), entries[1..]);
    }
  }

  lemma {:induction false} SameKeySameValue(t: Table, a: seq<byte>, b: seq<byte>)
    requires SameKey(a, b)
    ensures TableGet(t, a) == TableGet(t, b)
  {
    if t != [] {
      SameKeySameValue(t[1..], a, b);
      SameKeyIsTransitive(t[0].key, a, b);
    }
  }

  lemma {:induction false} OnlyValueIsLast(t: Table, k: seq<byte>, before: Option<seq<byte>>)
    requires Unique(t)
    ensures LastValue(t, k, before) == OrElse(TableGet(t, k), before)
  {
    if t != [] {
      var now := if SameKey(t[0].key, k) then Some(t[0].val) else before;
      OnlyValueIsLast(t[1..], k, now);
      if SameKey(t[0].key, k) { SameKeySameValue(t[1..], t[0].key, k); }
    }
  }

  // Whatever header the client looks up in the response: it finds the last value the application
  // gave it, or else what the server had set before. Scanning into a table first changes nothing.
  lemma HeadersReachClient(before: Table, entries: Table, k: seq<byte>)
    ensures TableGet(SetAll(before, SetAll([], entries)), k) == LastValue(entries, k, TableGet(before, k))
  {
    var scanned := SetAll([], entries);
    SetAllKeepsUnique([], entries);
    LastEntryWins(before, scanned, k);
    OnlyValueIsLast(scanned, k, TableGet(before, k));
    LastEntryWins([], entries, k);
    LastValueOrElse(entries, k, TableGet(before, k));
  }

  lemma {:induction false} LastValueOrElse(entries: Table, k: seq<byte>, before: Option<seq<byte>>)
    ensures LastValue(entries, k, before) == OrElse(LastValue(entries, k, None), before)
    decreases |entries|
  {
    if entries != [] {
      LastValueOrElse(entries[1..], k, before);
      if SameKey(entries[0].key, k) { LastValueOrElse(entries[1..], k, Some(entries[0].val)); }
    }
  }

  // ---------------------------------------------------------------- framing

  // The entries declare this length, or none. Where they repeat it they agree.
  ghost predicate Declares(entries: Table, length: Option<seq<byte>>) {
    match length
    case None => forall i :: 0 <= i < |entries| ==> !SameKey(entries[i].key, Ascii("content-length"))
    case Some(v) =>
      && v != [] && IsDecimal(v)
      && (exists i :: 0 <= i < |entries| && SameKey(entries[i].key, Ascii("content-length")))
      && (forall i :: 0 <= i < |entries| && SameKey(entries[i].key, Ascii("content-length")) ==> entries[i].val == v)
  }

  lemma {:induction false} LastIsDeclared(entries: Table, k: seq<byte>, length: Option<seq<byte>>, before: Option<seq<byte>>)
    requires forall i :: 0 <= i < |entries| && SameKey(entries[i].key, k) ==> Some(entries[i].val) == length
    ensures LastValue(entries, k, before)
         == if exists i :: 0 <= i < |entries| && SameKey(entries[i].key, k) then length else before
    decreases |entries|
  {
    hide SameKey;
    if entries != [] {
      var more := entries[1..];
      var now := if SameKey(entries[0].key, k) then Some(entries[0].val) else before;
      forall i | 0 <= i < |more| ensures more[i] == entries[i + 1] { }
      LastIsDeclared(more, k, length, now);
      if i :| 0 <= i < |entries| && SameKey(entries[i].key, k) {
        assert i > 0 ==> SameKey(more[i - 1].key, k);
      }
    }
  }

  // The length the proxy takes from the headers it scanned is the declared one.
  lemma LengthIsDeclared(entries: Table, length: Option<seq<byte>>)
    requires Declares(entries, length)
    ensures LengthOf(SetAll([], entries)) == if length.Some? then Decimal(length.value) else 0
  {
    hide SameKey, SetAll, TableGet, Atoi, Decimal, LastValue;
    if length.Some? { AtoiIsDecimal(length.value); }
    LastIsDeclared(entries, CONTENT_LENGTH, length, None);
    LastEntryWins([], entries, CONTENT_LENGTH);
    NothingInEmpty(CONTENT_LENGTH);
  }

  lemma NothingInEmpty(k: seq<byte>)
    ensures TableGet([], k) == None
  {
  }

  // Statuses that never have a body.
  predicate Bodyless(status: int) { 100 <= status < 200 || status == 204 || status == 304 }

  // The body as the standard frames it, where there is no transfer coding: nothing after HEAD and for
  // some statuses, then what a declared length says, else all up to the end of the stream.
  function Framed(headRequest: bool, status: int, length: Option<seq<byte>>, rest: seq<byte>): Delivery
    requires length.Some? ==> IsDecimal(length.value)
  {
    if headRequest || Bodyless(status) then Body([])
    else match length
      case None => Body(rest)
      case Some(v) => if Decimal(v) <= |rest| then Body(rest[..Decimal(v)]) else Incomplete
  }

  // Where the proxy, which does not look at the status and takes a zero for no length, agrees.
  predicate Agrees(headRequest: bool, status: int, length: Option<seq<byte>>, rest: seq<byte>)
    requires length.Some? ==> IsDecimal(length.value)
  {
    || headRequest
    || (if Bodyless(status) then rest == [] && (length.Some? ==> Decimal(length.value) == 0)
        else length.Some? && Decimal(length.value) == 0 ==> rest == [])
  }

  lemma DeliversWhatIsFramed(headRequest: bool, status: int, length: Option<seq<byte>>, rest: seq<byte>)
    requires length.Some? ==> IsDecimal(length.value)
    ensures Deliver(if length.Some? then Decimal(length.value) else 0, headRequest, rest)
              == Framed(headRequest, status, length, rest)
       <==> Agrees(headRequest, status, length, rest)
  {
    hide Decimal;
  }

  // ---------------------------------------------------------------- whole responses

  // A response: status line, headers, empty line, and what follows.
  function PrintResponse(line: StatusLine, fs: seq<Field>, blank: seq<byte>, rest: seq<byte>): seq<byte> {
    PrintStatusLine(line) + (FlatMap(PrintField, fs) + blank + rest)
  }

  // A well-formed response is relayed with its status and headers; and the client gets exactly the body
  // that the standard frames, or is denied an incomplete one, if and only if Agrees.
  lemma ResponseIsRelayed(headRequest: bool, line: StatusLine, fs: seq<Field>, blank: seq<byte>,
                          length: Option<seq<byte>>, rest: seq<byte>)
    requires IsStatusLine(line) && AreFields(fs) && IsEmptyLine(blank) && Declares(Contents(fs), length)
    ensures var a := ReadResponse(PrintResponse(line, fs, blank, rest), headRequest);
            && a.Answer? && a.status == Atoi(line.code) && a.headers == SetAll([], Contents(fs))
            && (a.delivery == Framed(headRequest, Atoi(line.code), length, rest)
                <==> Agrees(headRequest, Atoi(line.code), length, rest))
  {
    hide ScanLine, ScanHeaders, SetAll, LengthOf, Atoi, Decimal, PrintStatusLine, FlatMap, Contents, Deliver, Framed, Agrees,
         IsStatusLine, AreFields, IsEmptyLine;
    StatusLineIsScanned(line, FlatMap(PrintField, fs) + blank + rest);
    FieldsRoundTrip(fs, [], blank, rest);
    LengthIsDeclared(Contents(fs), length);
    DeliversWhatIsFramed(headRequest, Atoi(line.code), length, rest);
  }

  // What the client's record holds after a well-formed response: the status the application sent, for every
  // header the last value it sent or else what was there before, the same for type and encoding, and the
  // framed body behind what was sent before.
  lemma ResponseReachesClient(headRequest: bool, line: StatusLine, fs: seq<Field>, blank: seq<byte>,
                              length: Option<seq<byte>>, rest: seq<byte>, before: State)
    requires IsStatusLine(line) && AreFields(fs) && IsEmptyLine(blank) && Declares(Contents(fs), length)
    ensures var (outcome, after) := AfterRelay(ReadResponse(PrintResponse(line, fs, blank, rest), headRequest), before);
            && after.status == Atoi(line.code)
            && after.contentType == LastValue(Contents(fs), Ascii("content-type"), before.contentType)
            && after.contentEncoding == LastValue(Contents(fs), Ascii("content-encoding"), before.contentEncoding)
            && (forall k :: TableGet(after.headersOut, k) == LastValue(Contents(fs), k, TableGet(before.headersOut, k)))
            && (Agrees(headRequest, Atoi(line.code), length, rest) ==>
                  match Framed(headRequest, Atoi(line.code), length, rest)
                  case Body(bytes) => outcome == Ok && after.client == before.client + bytes
                  case Incomplete => outcome == ShortBody && after.client == before.client)
  {
    hide ReadResponse, PrintResponse, SetAll, LastValue, TableGet, Atoi, Decimal, Framed, Agrees, IsStatusLine, AreFields,
         IsEmptyLine, Declares, Contents, OrElse, Ascii;
    var entries := Contents(fs);
    ResponseIsRelayed(headRequest, line, fs, blank, length, rest);
    LastOrElse(entries, CONTENT_TYPE, before.contentType);
    LastOrElse(entries, CONTENT_ENCODING, before.contentEncoding);
    forall k ensures TableGet(SetAll(before.headersOut, SetAll([], entries)), k)
                  == LastValue(entries, k, TableGet(before.headersOut, k)) {
      HeadersReachClient(before.headersOut, entries, k);
    }
  }

  lemma LastOrElse(entries: Table, k: seq<byte>, before: Option<seq<byte>>)
    ensures OrElse(TableGet(SetAll([], entries), k), before) == LastValue(entries, k, before)
  {
    hide SetAll, TableGet, LastValue;
    LastEntryWins([], entries, k);
    NothingInEmpty(k);
    LastValueOrElse(entries, k, before);
  }

  // A stream that does not start with a status line, and no other, is refused; and then nothing of the
  // client's record changes.
  lemma OnlyStatusLinesAreAnswered(s: seq<byte>, headRequest: bool, before: State)
    ensures ReadResponse(s, headRequest).Refused?
       <==> !exists line, rest :: IsStatusLine(line) && s == PrintStatusLine(line) + rest
    ensures ReadResponse(s, headRequest).Refused? ==>
              AfterRelay(ReadResponse(s, headRequest), before) == (ServerError, before)
  {
    hide ScanLine, ScanHeaders, IsStatusLine, PrintStatusLine, Deliver, LengthOf;
    if ScanLine(s).Line? { ScannedIsStatusLine(s); }
    if line, rest :| IsStatusLine(line) && s == PrintStatusLine(line) + rest {
      StatusLineIsScanned(line, rest);
    }
  }

  // With a negative length nothing is relayed but the head.
  lemma NegativeLengthRelaysNothing(line: StatusLine, fs: seq<Field>, blank: seq<byte>, d: seq<byte>, rest: seq<byte>, before: State)
    requires IsStatusLine(line) && AreFields(fs) && IsEmptyLine(blank) && IsDecimal(d) && Decimal(d) > 0
    requires LastValue(Contents(fs), Ascii("content-length"), None) == Some(Ascii("-") + d)
    ensures var (outcome, after) := AfterRelay(ReadResponse(PrintResponse(line, fs, blank, rest), false), before);
            outcome == Ok && after.status == Atoi(line.code) && after.client == before.client
  {
    hide ScanLine, ScanHeaders, SetAll, TableGet, LastValue, Atoi, Decimal, PrintStatusLine, FlatMap, Contents, IsStatusLine,
         AreFields, IsEmptyLine, OrElse, Ascii;
    StatusLineIsScanned(line, FlatMap(PrintField, fs) + blank + rest);
    FieldsRoundTrip(fs, [], blank, rest);
    LastEntryWins([], Contents(fs), CONTENT_LENGTH);
    NothingInEmpty(CONTENT_LENGTH);
    AtoiReads([], Ascii("-"), d, []);
    assert [] + Ascii("-") + d + [] == Ascii("-") + d;
    assert before.client + [] == before.client;
  }
}
