# Verified models of SOPE's text converters and of its Apache proxy

Two parts of the repository carry most of its low-level logic, and both are written as C loops over
buffers. This project models them in Dafny, loop by loop, and proves what they are for.

**Text.** The six converters between UTF-16, UTF-8 and UCS-4 move two indices through caller's buffers
and stop on a result. Each is proved against a reference: characters by RFC 2781, bytes by the table of
RFC 3629 (with the five- and six-byte rows of section 2 of RFC 2279). On top of the references stand
round trips, validity, order and capacity laws, and the two string methods that use the converters.
A property list string quoter with the parser that reads it back belongs here, too.

**Proxy.** The buffered descriptor turns a file descriptor, which moves data in any portions it likes, into
a plain stream of bytes. The header printer, the scanners of status line and headers, and the relay of the
response are proved on top of that stream, so that no buffer size and no chunking can be seen in their
results. A small date field, which prints and parses by the same format, completes the round trips.

Each imperative method is tied by its `ensures` to functions of its inputs; the laws are lemmas about these.

| modules | content |
|---|---|
| `Options`, `Sequences`, `Bytes` | shared data types and sequence idiom |
| `Unicode`, `CvtUtf` | the references and the six converters |
| `SurrogateLaws`, `Utf8Laws`, `ShortestForm`, `TextLaws`, `Utf8Order` | the laws of the converters |
| `StringEncoding` | strings to data and back |
| `FileDescriptor`, `BufferedDescriptor` | the stream below the proxy |
| `HttpSyntax`, `HttpWriter`, `ScanHttp`, `HttpLaws`, `HttpForms` | heads of messages: printing, scanning, round trips, all forms of lines |
| `Relay`, `ResponseLaws` | the handler's response side, and the framing of RFC 7230 |
| `PropertyList`, `PlistComments`, `PlistForms` | quoting and parsing strings, all forms of them, and what may stand in front |
| `CalendarField`, `CalendarLaws` | the date field |

## Where code and documentation differ

The models follow the code.

- `cvtutf.h:74-76` promises that after an exhausted target the source points behind the last converted
  character. Most converters have already stepped past the one that did not fit. The contracts fix the position:
  `DecodedIsExact` for the decoders.
- The decoders' guard (`cvtutf.c:210`, `:307`) misses a sequence that lacks one byte. `NSInitStringWithData`
  appends a NUL, which is then decoded; `CutInsideCharacter` gives the exact condition.
- A UCS-4 value beyond the range is meant to become the replacement character, but its byte count does not
  fit: the bytes written are 0xFF 0xBD (`cvtutf.c:173-174`).
- The comment in `NGBufferedDescriptor.c:320-324` says that a percent sign is sent as `%25`. It is sent in
  decimal, as `%37`, and only in values with a line break.
- The branches for a status line without reason (`scanhttp.c:76-81`) are never reached: the loop above them
  skips the line end. `NoReasonEatsOn` and `StatusLineRoundTrip` give the consequence.
- A failed flush (`NGBufferedDescriptor.c:244-251`) keeps the buffer as if nothing had been written.
- The handler takes a content-length of zero for none (`handler.c:719`). `Agrees` is the exact condition
  under which the body relayed is the one that RFC 7230 frames.
- The calendar promises to read its own format. It does so for exactly the formats that `Recoverable` names.

## Model

| member | source | states |
|---|---|---|
| CvtUtf.NSConvertUTF16toUTF8 | libFoundation/Foundation/cvtutf.c:144-195 | on any part of any array and any room the loop delivers the RFC 3629 encoding of the RFC 2781 characters; when the target is exhausted it holds exactly the encoding of what was read but for the last character, that character would not have fitted, and nothing outside the target range changes |
| CvtUtf.NSConvertUTF8toUTF16 | libFoundation/Foundation/cvtutf.c:199-243 | delivers the UTF-16 form of the characters of the sequences read, malformed ones included; the source is left at the end of exactly these; says when it counts as exhausted (two or more bytes missing), when the byte behind it is decoded, too, and what an exhausted target holds |
| CvtUtf.ConvertUTF16toUCS4 | libFoundation/Foundation/cvtutf.c:84-111 | delivers the characters of the units, unpaired surrogates as themselves; an exhausted target holds them up to the one that did not fit |
| CvtUtf.ConvertUCS4toUTF16 | libFoundation/Foundation/cvtutf.c:51-80 | delivers every element as one unit, a pair or the replacement character; tells apart the full target, noticed before an element is taken, and the single unit of room, noticed afterwards |
| CvtUtf.ConvertUCS4toUTF8 | libFoundation/Foundation/cvtutf.c:246-294 | pairs surrogate cells before it encodes, for all 32-bit elements; the same clean prefix on exhaustion |
| CvtUtf.ConvertUTF8toUCS4 | libFoundation/Foundation/cvtutf.c:298-339 | as the decoder to UTF-16, the position of the source included, but characters beyond 16 bits become two cells |
| CvtUtf.WriteUtf8 | libFoundation/Foundation/cvtutf.c:181-188 | the backwards drop-through switch leaves its n bytes at the target, and changes no other byte |
| CvtUtf.SwitchIsUtf8 | libFoundation/Foundation/cvtutf.c:167-188 | the bytes of the switch are those of the UTF-8 table for every character number of 31 bits |
| CvtUtf.ReadUtf8 | libFoundation/Foundation/cvtutf.c:213-221 | the drop-through sum and the subtraction compute the decoded value of one sequence |
| CvtUtf.ReadUtf16 | libFoundation/Foundation/cvtutf.c:157-166 | look-ahead pairing reads exactly the first character of what is left |
| CvtUtf.GuardPasses | libFoundation/Foundation/cvtutf.c:208-212 | the guard passes a sequence if and only if no more than one byte of it is missing |
| CvtUtf.TextIsFinished | libFoundation/Foundation/cvtutf.c:210-219 | when it lets a short sequence through, the byte behind the source completes it, as one more character |
| CvtUtf.ExhaustedExactly | libFoundation/Foundation/cvtutf.c:177-180 | the contract of the encoders implies: exhaustion is reported if and only if the whole conversion does not fit, and the output is always a prefix of it |
| CvtUtf.ConvertedIsExact | libFoundation/Foundation/cvtutf.c:152-192 | the encoders' contract leaves no choice: characters and room determine what is read, what is written and whether the target is exhausted |
| CvtUtf.DecodedIsExact | libFoundation/Foundation/cvtutf.c:206-242 | the decoders' contract leaves no choice: bytes and room determine the result, the output and the position of the source |
| CvtUtf.PairConcat | libFoundation/Foundation/cvtutf.c:158-166 | pairing splits over every cut that does not go through a pair |
| CvtUtf.DecodeConcat | libFoundation/Foundation/cvtutf.c:206-238 | decoding splits at every sequence boundary, whatever follows |
| SurrogateLaws.SplitUndoesPair | libFoundation/Foundation/cvtutf.c:93-102 | splitting the paired characters gives back every sequence of units, unpaired surrogates included |
| SurrogateLaws.UnitsSurviveUcs4 | libFoundation/Foundation/cvtutf.c:51-111 | UTF-16 to UCS-4 and back is the identity on all unit sequences |
| SurrogateLaws.Ucs4SurvivesUnits | libFoundation/Foundation/cvtutf.c:51-111 | UCS-4 to UTF-16 and back is the identity if and only if all values are at most 0x10FFFF and no high surrogate is directly followed by a low one |
| SurrogateLaws.PairImage | libFoundation/Foundation/cvtutf.c:93-102 | what pairing yields never has a high surrogate in front of a low one |
| SurrogateLaws.BeyondRangeIsReplaced | libFoundation/Foundation/cvtutf.c:64-75 | UCS-4 to UTF-16 and back puts U+FFFD in place of exactly the values above 0x10FFFF, in every text without a false pair |
| SurrogateLaws.CellsRejoin | libFoundation/Foundation/cvtutf.c:323-334 | a character beyond 16 bits becomes two cells it can be computed from, one beyond 31 bits becomes U+FFFD |
| Utf8Laws.LengthsByRow | libFoundation/Foundation/cvtutf.c:119-128 | the length table, row by row |
| Utf8Laws.OffsetsAreMarkers | libFoundation/Foundation/cvtutf.c:115-118 | a check of the table: each of the six offsets is the sum of the marker bits of its length, modulo 2^32 |
| Utf8Laws.DecodeOfUtf8 | libFoundation/Foundation/cvtutf.c:213-221 | shift-and-subtract gives back the character of every row of the UTF-8 table |
| Utf8Laws.DecodeOfEncoding | libFoundation/Foundation/cvtutf.c:144-243 | decoding undoes encoding on all sequences of 31-bit numbers |
| Utf8Laws.DecodingUndoesEncoding | libFoundation/Foundation/cvtutf.c:144-243 | decoding the encoding gives a sequence of 32-bit numbers back if and only if all of them have 31 bits; no later bytes ever make up for the four that 0xFF 0xBD swallows |
| Utf8Laws.NeverCatchesUp | libFoundation/Foundation/cvtutf.c:206-238 | an encoded text read from its third byte on, or further behind, never decodes to the text itself |
| Utf8Laws.EncodingBeyondUcs4 | libFoundation/Foundation/cvtutf.c:172-174 | a character survives if and only if it is at most 0x7FFFFFFF; beyond that the bytes written are 0xFF 0xBD, not those of the replacement character, and no complete sequence |
| Utf8Laws.UnitsSurviveUtf8 | libFoundation/Foundation/cvtutf.c:144-243 | UTF-16 to UTF-8 and back is the identity on every sequence of 16-bit units, unpaired surrogates included |
| Utf8Laws.SurrogateCellsCancel | libFoundation/Foundation/cvtutf.c:246-339 | UTF-8 to UCS-4 of encoder output gives the units as cells, and encoding those gives the same bytes |
| Utf8Laws.ExactlyCellsSurvive | libFoundation/Foundation/cvtutf.c:246-339 | UCS-4 to UTF-8 and back is the identity on numbers of 31 bits if and only if all of them have 16, surrogate pairs included |
| ShortestForm.ScalarIsUtf8Char | libFoundation/Foundation/cvtutf.c:167-188 | every scalar value is encoded as the grammar of section 4 of RFC 3629 wants it |
| ShortestForm.Utf8CharDecodes | libFoundation/Foundation/cvtutf.c:206-222 | every valid character decodes to the scalar value whose shortest form it is |
| ShortestForm.EncodingIsValid | libFoundation/Foundation/cvtutf.c:158-189 | encodings of scalar values are valid UTF-8 |
| ShortestForm.ValidIsEncoding | libFoundation/Foundation/cvtutf.c:206-238 | every valid byte string decodes to scalar values that it is the encoding of |
| ShortestForm.ValidUnlessUnpaired | libFoundation/Foundation/cvtutf.c:158-189 | the output is valid UTF-8 if and only if all characters are scalar values |
| TextLaws.EncodingOfConcat | libFoundation/Foundation/cvtutf.c:158-189 | encode(a+b) is encode(a)+encode(b) if and only if the cut does not part a high surrogate from a low one |
| TextLaws.ScalarsAreNoneUnpaired | libFoundation/Foundation/cvtutf.c:158-166 | the characters are scalar values if and only if every high surrogate is followed by a low one and every low one follows a high one |
| TextLaws.ValidWithoutUnpaired | libFoundation/Foundation/cvtutf.c:158-189 | the output is valid shortest-form UTF-8 if and only if the units have no unpaired surrogate |
| TextLaws.EncodingFits | libFoundation/Foundation/cvtutf.c:177-180 | three bytes per unit are always enough |
| TextLaws.DecodingFits | libFoundation/Foundation/cvtutf.c:223-237 | one unit per byte of complete sequences is always enough, malformed ones included |
| TextLaws.TextFits | libFoundation/Foundation/cvtutf.c:206-238 | the same for the whole source, even when the byte behind it is decoded, too |
| Utf8Order.CharacterOrder | libFoundation/Foundation/cvtutf.c:167-188 | a smaller character has the smaller encoding, and neither encoding is a prefix of the other |
| Utf8Order.EncodingKeepsOrder | libFoundation/Foundation/cvtutf.c:167-188 | two encodings compare as bytes exactly as the texts compare as character numbers |
| StringEncoding.DataUsingUtf8 | libFoundation/Foundation/NSConcreteUTF16String.m:215-256 | the grow-and-retry loop ends, and returns the complete encoding for every string |
| StringEncoding.InitStringWithUtf8 | libFoundation/Foundation/NSString+StringEncoding.m:617-1063 | the buffers suffice for all data, so that only a source that ends inside a sequence raises the exception |
| StringEncoding.StringsSurvive | libFoundation/Foundation/NSConcreteUTF16String.m:215-256 | every string comes back from its UTF-8 data, unpaired surrogates included |
| StringEncoding.ExactlyEncodingsSurvive | libFoundation/Foundation/NSString+StringEncoding.m:1010-1063 | data comes back from the string it makes if and only if it encodes UTF-16 characters, unpaired surrogates included, of which none pairs with the next |
| StringEncoding.ValidDataSurvives | libFoundation/Foundation/NSString+StringEncoding.m:1010-1063 | valid UTF-8 data comes back from the string it makes |
| StringEncoding.CutInsideCharacter | libFoundation/Foundation/NSString+StringEncoding.m:1010-1047 | data cut inside its last character is refused if and only if two or more bytes are missing |
| StringEncoding.LostByteGoesUnnoticed | libFoundation/Foundation/cvtutf.c:210-221 | an input that shows it: the first byte of an e acute alone is accepted, as an at sign |
| FileDescriptor.Descriptor.Read | sope-appserver/mod_ngobjweb/NGBufferedDescriptor.c:121-121 | the system call: any positive part of what is left up to the length, zero only at the end of the stream |
| FileDescriptor.Descriptor.Write | sope-appserver/mod_ngobjweb/NGBufferedDescriptor.c:204-208 | the system call: any positive part is appended to the wire, or the call fails; the wire at the first failure is remembered |
| BufferedDescriptor.NGBufferedDescriptor.constructor | sope-appserver/mod_ngobjweb/NGBufferedDescriptor.c:45-61 | a new descriptor has lost and invented nothing, for every buffer size |
| BufferedDescriptor.NGBufferedDescriptor.NothingLost | sope-appserver/mod_ngobjweb/NGBufferedDescriptor.c:28-41 | at every point of a run, bytes handed out followed by bytes buffered are the bytes taken from the descriptor |
| BufferedDescriptor.NGBufferedDescriptor.CheckReadBufferFillState | sope-appserver/mod_ngobjweb/NGBufferedDescriptor.c:37-41 | a consumed buffer starts over, any other is left alone |
| BufferedDescriptor.NGBufferedDescriptor.ReadSome | sope-appserver/mod_ngobjweb/NGBufferedDescriptor.c:114-177 | cached, partial, bypassed and refilled reads all are one read of the plain stream |
| BufferedDescriptor.NGBufferedDescriptor.Read | sope-appserver/mod_ngobjweb/NGBufferedDescriptor.c:114-177 | hands out exactly the next bytes of the stream, none only at its end, buffered bytes before new ones, and keeps all invariants |
| BufferedDescriptor.NGBufferedDescriptor.SafeRead | sope-appserver/mod_ngobjweb/NGBufferedDescriptor.c:260-278 | succeeds if and only if that many bytes are left, and then delivers exactly the next ones; otherwise it has consumed all |
| BufferedDescriptor.NGBufferedDescriptor.ReadChar | sope-appserver/mod_ngobjweb/NGBufferedDescriptor.c:301-304 | the next byte of the stream, or -1 at its end |
| BufferedDescriptor.NGBufferedDescriptor.Drain | sope-appserver/mod_ngobjweb/NGBufferedDescriptor.c:198-213 | a full buffer goes to the wire in order; what is not accepted is lost, and the wire is a beginning of it |
| BufferedDescriptor.NGBufferedDescriptor.Accept | sope-appserver/mod_ngobjweb/NGBufferedDescriptor.c:189-213 | one turn: wire followed by buffer grows by the part, or the buffer is lost and the wire ends inside it |
| BufferedDescriptor.NGBufferedDescriptor.WriteAll | sope-appserver/mod_ngobjweb/NGBufferedDescriptor.c:188-214 | wire followed by buffer grows by exactly the data, or the wire ends inside it |
| BufferedDescriptor.NGBufferedDescriptor.Write | sope-appserver/mod_ngobjweb/NGBufferedDescriptor.c:179-235 | until a write fails, wire followed by buffer is all that was accepted, in order; at the first failed write (lines 204-209) the wire is a prefix of that, and the buffer is lost |
| BufferedDescriptor.NGBufferedDescriptor.Flush | sope-appserver/mod_ngobjweb/NGBufferedDescriptor.c:237-258 | on success the wire is all that was accepted; on failure the buffer keeps its content and the wire has grown by a proper part of it; the wire at the first failure stays on record |
| BufferedDescriptor.NGBufferedDescriptor.WriteOut | sope-appserver/mod_ngobjweb/NGBufferedDescriptor.c:241-254 | the loop puts everything pending on the wire in order, or a proper part of it |
| BufferedDescriptor.NGBufferedDescriptor.SafeWrite | sope-appserver/mod_ngobjweb/NGBufferedDescriptor.c:279-299 | takes all of the data, or a descriptor write failed |
| HttpWriter.WriteHttpHeader | sope-appserver/mod_ngobjweb/NGBufferedDescriptor.c:306-354 | the wire gains key, colon, blank, escaped value and line end, or a beginning of that when a write fails |
| HttpWriter.WriteEscaped | sope-appserver/mod_ngobjweb/NGBufferedDescriptor.c:327-343 | the byte-wise loop writes the escaped form of the whole value |
| HttpWriter.WriteInHeaders | sope-appserver/mod_ngobjweb/handler.c:229-248 | prints every entry of the table in order, or a write failed |
| HttpWriter.WriteRequestHead | sope-appserver/mod_ngobjweb/handler.c:410-628 | after success the wire has grown by request line, adaptor headers, client headers and empty line; after failure by a beginning of these |
| HttpWriter.WriteRequest | sope-appserver/mod_ngobjweb/handler.c:410-659 | success means the head is on the wire, and the body, too, unless the flush behind it, whose result is not looked at, fails |
| HttpWriter.RequestIsReadBack | sope-appserver/mod_ngobjweb/handler.c:410-659 | a reader of the request gets both groups of headers in order, and finds the body behind them |
| HttpLaws.EscapeIsOneLine | sope-appserver/mod_ngobjweb/NGBufferedDescriptor.c:325-344 | an escaped value has no line break |
| HttpLaws.EscapeIsReversible | sope-appserver/mod_ngobjweb/NGBufferedDescriptor.c:325-344 | a reader that takes a percent sign and two decimal digits for the byte of that number, if it is 10, 13 or 37, gets the value back if and only if it had a line break, or contains no such code |
| HttpLaws.ScannedIsReadable | sope-appserver/mod_ngobjweb/scanhttp.c:112-175 | on any bytes, a header that is accepted has a name of 1 to 255 bytes without colon and a value of 1 to 7999 bytes not starting with a space |
| HttpLaws.HeaderRoundTrip | sope-appserver/mod_ngobjweb/scanhttp.c:134-174 | a printed header is read back, up to exactly the bytes behind it, if and only if it is of that shape |
| HttpLaws.FieldIsScanned | sope-appserver/mod_ngobjweb/scanhttp.c:134-174 | a header with any spaces, or none, behind its colon is read as key and value, up to exactly the bytes behind it |
| HttpLaws.EmptyLineEnds | sope-appserver/mod_ngobjweb/scanhttp.c:119-132 | a line feed, or a carriage return with any byte, ends the head right behind it |
| HttpLaws.FieldsRoundTrip | sope-appserver/mod_ngobjweb/scanhttp.c:105-178 | any list of such headers and either empty line are read back as the headers set one after the other, leaving exactly the bytes behind |
| HttpLaws.FieldsUpTo | sope-appserver/mod_ngobjweb/scanhttp.c:105-178 | the same up to whatever else ends the head |
| HttpLaws.HeadRoundTrip | sope-appserver/mod_ngobjweb/scanhttp.c:105-178 | a list of headers printed by the proxy and either empty line are read back as the entries set one after the other, leaving exactly the bytes behind |
| HttpLaws.PrintedLiterally | sope-appserver/mod_ngobjweb/NGBufferedDescriptor.c:312-351 | a printed header, character by character |
| HttpLaws.Punctuation | sope-appserver/mod_ngobjweb/scanhttp.c:123-169 | the characters the protocol is made of |
| HttpLaws.CodeIsDecimal | sope-appserver/mod_ngobjweb/NGBufferedDescriptor.c:331-334 | the code of a byte is a percent sign and the two decimal digits of its number |
| HttpLaws.KeysAreCaseless | sope-appserver/mod_ngobjweb/handler.c:133-147 | table keys are the same if they differ in nothing but upper and lower case letters |
| HttpLaws.SixSpaces | sope-appserver/mod_ngobjweb/scanhttp.c:52-73 | the six space characters |
| HttpLaws.LastEntryWins | sope-appserver/mod_ngobjweb/handler.c:143-147 | looking up a key after all entries were set finds the last value given to it, or what was there before |
| HttpLaws.StatusLineRoundTrip | sope-appserver/mod_ngobjweb/scanhttp.c:25-103 | a status line is consumed up to exactly its end if and only if it has a reason phrase, and then with its version and code |
| HttpLaws.NoReasonEatsOn | sope-appserver/mod_ngobjweb/scanhttp.c:71-81 | without a reason phrase bytes behind the line are consumed, or the line is refused |
| HttpForms.StatusLineIsScanned | sope-appserver/mod_ngobjweb/scanhttp.c:25-103 | every status line, with any spaces between its words, is read as version, code and reason, up to exactly the bytes behind its line feed |
| HttpForms.ScannedIsStatusLine | sope-appserver/mod_ngobjweb/scanhttp.c:25-103 | nothing else is accepted: what is read is the parts of such a line at the start of the stream |
| HttpForms.BadNameStops | sope-appserver/mod_ngobjweb/scanhttp.c:134-145 | a name that is missing, too long, or ended by a NUL ends the head right behind the byte at fault |
| HttpForms.BadValueStops | sope-appserver/mod_ngobjweb/scanhttp.c:147-171 | so does a value that is missing, too long, or ended by a NUL |
| HttpForms.FullValueEndsWithLine | sope-appserver/mod_ngobjweb/scanhttp.c:152-165 | a value of 7999 bytes, and no shorter one, may be ended by a line feed alone |
| HttpForms.BadEndStops | sope-appserver/mod_ngobjweb/scanhttp.c:164-171 | a carriage return with another byte than a line feed ends the head behind that byte |
| HttpForms.CutHeaderStops | sope-appserver/mod_ngobjweb/scanhttp.c:116-171 | a header that the stream ends in, wherever that is, ends the head and leaves nothing |
| ScanHttp.NGScanResponseLine | sope-appserver/mod_ngobjweb/scanhttp.c:25-103 | result and unread bytes are those of a pure parser on the whole stream, for every buffer size and chunking |
| ScanHttp.ScanReasonAndEnd | sope-appserver/mod_ngobjweb/scanhttp.c:75-101 | from the reason on, result and unread bytes are those of the pure parser |
| ScanHttp.NGScanHeaders | sope-appserver/mod_ngobjweb/scanhttp.c:105-178 | ends on every stream, and table and unread bytes are those of the pure parser, for every buffer size and chunking |
| ScanHttp.ScanInto | sope-appserver/mod_ngobjweb/scanhttp.c:135-142 | a bounded scan stays inside its array, with the NUL behind, and stops where the pure scan does |
| ScanHttp.ScanOneHeader | sope-appserver/mod_ngobjweb/scanhttp.c:116-174 | one turn of the loop takes exactly one header, or ends where the pure parser ends |
| Relay.CopyHeadersToRequest | sope-appserver/mod_ngobjweb/handler.c:123-149 | all headers are set on the response in order, type, encoding and announced length are taken from them |
| Relay.RelayUntilEnd | sope-appserver/mod_ngobjweb/handler.c:719-740 | the client gets all that is left of the stream |
| Relay.RelayLength | sope-appserver/mod_ngobjweb/handler.c:692-718 | the client gets exactly the announced bytes, if and only if so many are left |
| Relay.RelayResponse | sope-appserver/mod_ngobjweb/handler.c:660-741 | outcome, status, headers and client bytes are those of the pure reading of the whole stream, for every chunking |
| Relay.NgobjwebHandler | sope-appserver/mod_ngobjweb/handler.c:394-741 | from the connection on: a write failed and nothing is passed on, or the request head is on the wire and the response is relayed as read from the whole stream; without a failed write the wire holds exactly the request, and at the first failure a beginning of it |
| ResponseLaws.AtoiIsDecimal | sope-appserver/mod_ngobjweb/handler.c:137-138 | decimal numbers are read as such |
| ResponseLaws.AtoiReads | sope-appserver/mod_ngobjweb/handler.c:137-138 | what atoi makes of spaces, a sign, decimal digits and whatever ends them |
| ResponseLaws.SetKeepsOrder | sope-appserver/mod_ngobjweb/handler.c:143-147 | setting a header keeps the order of the keys, and a new one comes last |
| ResponseLaws.LengthIsDeclared | sope-appserver/mod_ngobjweb/handler.c:137-138 | the length the proxy uses is the one the printed headers declare, zero without one |
| ResponseLaws.HeadersReachClient | sope-appserver/mod_ngobjweb/handler.c:140-147 | each lookup by the client finds the application's last value for the key, or the server's own |
| ResponseLaws.DeliversWhatIsFramed | sope-appserver/mod_ngobjweb/handler.c:691-741 | what is delivered is the body as section 3.3.3 of RFC 7230 frames it if and only if the request was HEAD, or the status has no body and neither bytes nor a length announce one, or no declared zero is followed by bytes |
| ResponseLaws.ResponseIsRelayed | sope-appserver/mod_ngobjweb/handler.c:660-741 | a well-formed response, with any spacing and either empty line, is read with its status, its headers and, under exactly that condition, its framed body |
| ResponseLaws.ResponseReachesClient | sope-appserver/mod_ngobjweb/handler.c:660-741 | after it the client's record has the application's status; each header lookup, the type and the encoding give the last value it sent or what was there before; and, under that condition, the framed body stands behind what was sent before |
| ResponseLaws.NegativeLengthRelaysNothing | sope-appserver/mod_ngobjweb/handler.c:691-741 | with a negative length the client gets the head and no body |
| ResponseLaws.OnlyStatusLinesAreAnswered | sope-appserver/mod_ngobjweb/handler.c:662-667 | a stream is refused if and only if it does not start with a status line, and then nothing of the client's record changes |
| PropertyList.QuoteString | libFoundation/Foundation/common.h:292-327 | fills its buffer, inside its bounds, with the quoted form |
| PropertyList.QuoteFits | libFoundation/Foundation/common.h:294-294 | quoted string and NUL need less than 2*length+4 bytes |
| PropertyList.StringRepresentation | libFoundation/Foundation/NSConcreteString.m:674-699 | quotes exactly the strings that are no plain tokens |
| PropertyList.FindQuote | libFoundation/Foundation/PropertyListParser.m:742-772 | the first pass finds the quote, length and escapes that a left-to-right reading finds, or tells the two errors apart |
| PropertyList.Unescape | libFoundation/Foundation/PropertyListParser.m:788-818 | the second pass stays inside the bytes and the length of the first, and resolves the escapes |
| PropertyList.ParseStringHere | libFoundation/Foundation/PropertyListParser.m:742-848 | result and new index are those of one reading from left to right, errors included |
| PlistComments.SkipLineComment | libFoundation/Foundation/PropertyListParser.m:664-675 | a line comment ends at the first line feed or at the end |
| PlistComments.SkipBlockComment | libFoundation/Foundation/PropertyListParser.m:676-711 | the nested loops find exactly the first asterisk followed by a slash, or that there is none |
| PlistComments.SkipComments | libFoundation/Foundation/PropertyListParser.m:650-726 | skips spaces and comments as one recursive reading does, or reports the end or an open comment |
| PlistComments.FillersAreSkipped | libFoundation/Foundation/PropertyListParser.m:650-726 | any sequence of spaces and comments is skipped, whatever follows; spaces only where they are to be |
| PlistComments.OpenCommentIsRefused | libFoundation/Foundation/PropertyListParser.m:704-711 | a comment without its end mark is refused |
| PlistComments.LastLineIsSkipped | libFoundation/Foundation/PropertyListParser.m:664-675 | a last line comment needs no line feed |
| PlistComments.NothingElseIsSkipped | libFoundation/Foundation/PropertyListParser.m:663-726 | nothing else is skipped, not even a slash that starts no comment |
| PropertyList.ParseString | libFoundation/Foundation/PropertyListParser.m:728-848 | result and new index are those of skipping and then reading from left to right, all errors included |
| PropertyList.FillersMakeNoDifference | libFoundation/Foundation/PropertyListParser.m:728-740 | spaces and comments in front change nothing but the index |
| PropertyList.QuoteRoundTrip | libFoundation/Foundation/PropertyListParser.m:728-826 | quoted strings are self-delimiting: behind any spaces and comments, and with any rest, the parser returns the string and stops in front of the rest |
| PropertyList.EndCharactersEnd | libFoundation/Foundation/PropertyListParser.m:516-526 | the characters that end an unquoted string |
| PropertyList.TokenIsRead | libFoundation/Foundation/PropertyListParser.m:827-848 | an unquoted token is read back if and only if one of these or the end follows |
| PlistForms.EveryTextHasForm | libFoundation/Foundation/PropertyListParser.m:751-764 | every text consists of characters as they are, behind a backslash, or as letters of C's escapes, followed by a quote, a lone backslash or nothing |
| PlistForms.QuotedTextIsRead | libFoundation/Foundation/PropertyListParser.m:728-826 | behind any spaces and comments every such text in quotes is parsed as what its characters mean in C, and the parser stops in front of the rest |
| PlistForms.OpenTextIsRefused | libFoundation/Foundation/PropertyListParser.m:751-772 | without its closing quote, or with a lone backslash at its end, it is refused, with the index the source leaves |
| PlistForms.NothingIsNoString | libFoundation/Foundation/PropertyListParser.m:734-740 | where only spaces and comments are left, or a comment has no end, there is no string |
| PlistForms.QuotedLength | libFoundation/Foundation/common.h:297-327 | quoting costs one byte for every quote, line feed and backslash, and leaves no line feed |
| PlistForms.OnlyAlnumStays | libFoundation/Foundation/NSConcreteString.m:687-698 | a string is left unquoted if and only if it consists of letters and digits |
| PropertyList.RepresentationRoundTrip | libFoundation/Foundation/NSConcreteString.m:674-699 | behind any spaces and comments a string's representation is parsed as the string if and only if it does not start with a NUL and, where it is not quoted, what follows ends it |
| CalendarField.Calendar.SetInitialDate | sope-appserver/WEExtensions/calendar.js:61-100 | reads three numbers from the places the format gives, and opens at that date, or at today's if one is missing or zero |
| CalendarField.Calendar.ReturnDate | sope-appserver/WEExtensions/calendar.js:588-605 | the field holds the format with all codes filled in |
| CalendarField.ReplacedIsFilled | sope-appserver/WEExtensions/calendar.js:598-601 | the three replacements, one after the other, amount to one pass over the format |
| CalendarField.JsReplaceIsFill | sope-appserver/WEExtensions/calendar.js:543-562 | split and join replaces every place of a code and nothing else |
| CalendarField.Calendar.ReadTwoDigits | sope-appserver/WEExtensions/calendar.js:70-82 | reads the number where the format and a year before it put the code |
| CalendarLaws.NumberIsRead | sope-appserver/WEExtensions/calendar.js:68-68 | parsing a printed number gives the number |
| CalendarLaws.TwoDigits | sope-appserver/WEExtensions/calendar.js:571-584 | a number from 1 to 99 is printed as its two digits and, without its leading zero, read back |
| CalendarLaws.PrintedLength | sope-appserver/WEExtensions/calendar.js:598-601 | what is printed is two longer than the format for every year, and no other code changes the length |
| CalendarLaws.DatesSurvive | sope-appserver/WEExtensions/calendar.js:61-92 | for every format: all dates of the years 1000 to 9999 are read back if and only if the three codes occur, with at most one year before the first month and before the first day |
| CalendarLaws.OpensAtDate | sope-appserver/WEExtensions/calendar.js:84-91 | with a number missing or zero the calendar opens at today's date, else at the date with these numbers if it exists, and if not at the one that many days behind the first of the month; years below 100 are taken for those of the last century |
| CalendarLaws.RealDatesStay | sope-appserver/WEExtensions/calendar.js:86-86 | a date that exists is not carried |
| CalendarLaws.CarriedExactly | sope-appserver/WEExtensions/calendar.js:86-86 | a date is carried to exactly the one whose day number is day - 1 more than that of the first of the month |
| CalendarLaws.NumbersGrow | sope-appserver/WEExtensions/calendar.js:437-475 | with the month lengths of the source later dates have larger day numbers |
| CalendarLaws.LeapRule | sope-appserver/WEExtensions/calendar.js:467-475 | the leap years are those by which the quotients by 4, 100 and 400 grow |
| CalendarLaws.SignedNumberIsRead | sope-appserver/WEExtensions/calendar.js:68-82 | parsing reads a number behind blanks and a sign, up to the first other character |
| CalendarLaws.NoNumberIsRead | sope-appserver/WEExtensions/calendar.js:68-82 | where no digit stands there is no number |
| CalendarLaws.HexadecimalIsRead | sope-appserver/WEExtensions/calendar.js:68-68 | a year field may hold a hexadecimal number |
| CalendarLaws.SubstrFromEnd | sope-appserver/WEExtensions/calendar.js:67-68 | without its code in the format a number is read from the end of the text |
| CalendarLaws.CarriedByDays | sope-appserver/WEExtensions/calendar.js:86-86 | a date that does not exist is carried to the one that lies day - 1 days behind the first of its month, for all years, months and days |
| CalendarLaws.NextMonth | sope-appserver/WEExtensions/calendar.js:437-475 | the month lengths of the source are those of a day number in closed form, 153 days for five months from March on, leap years and century years included |

## Left out

- UCS4: is `unsigned long` in the source; modelled with 32 bits, on which all 32-bit targets agree. The six-byte offset is right only modulo 2^32.
- Pointers: a converter's pointer pairs are indices into one array each; source and target do not overlap.
- CvtUtf.NSConvertUTF8toUTF16: requires that the byte behind the source exists where the guard lets it be read, since the source reads it.
- CvtUtf.ConvertUTF8toUCS4: the same.
- StringEncoding.InitStringWithUtf8: the many other encodings of the same function are not modelled, nor is the class the new string gets.
- StringEncoding.DataUsingUtf8: the growing buffer length is a natural number, so no wrap-around at 2^32.
- FileDescriptor.Descriptor.Read: does not return -1; after a read error the source would copy that many bytes, which has no defined result.
- BufferedDescriptor.NGBufferedDescriptor.Write: needs a write buffer of at least one byte, since the source's loop does not end without one; the proxy uses 512.
- Descriptor life time: closing, freeing and NULL descriptors are left out; a free is the flush it starts with.
- Relay.RelayLength: after a short read it sends nothing; the source goes on with memory it has freed, so that what it sends is not defined.
- Relay.RelayResponse: after a body shorter than announced the source goes on with a descriptor it has freed; the model stops there with the outcome `ShortBody`.
- HttpWriter.WriteRequestHead: which adaptor headers there are depends on the server's configuration and on SSL; they are a parameter, written in the place and order in which they are given.
- HttpWriter.WriteRequest: the same.
- Relay.NgobjwebHandler: stops at a short body, as above; name lookup, sockets, connecting, logging and reading the client's request body are not modelled, and the adaptor headers are a parameter.
- Client writes: sending to the client is taken to succeed.
- ResponseLaws.ResponseIsRelayed: transfer codings, which the source passes on undecoded, are not part of the framing.
- Atoi: numbers are unbounded; what the C library does on overflow is not modelled.
- APR tables: their behaviour (keys regardless of case, a set replaces the first and removes further ones) is that of the Apache runtime, which is not part of this model.
- C locale: character classes are those of the C locale.
- PropertyList.ParseString: the texts of its exceptions are left out; arrays, dictionaries and data are other functions of the parser.
- CalendarField.Calendar.SetInitialDate: blanks in front of a number are the ASCII ones, and a leading zero does not mean octal; the page, its buttons and other months are left out.
- Other Objective-C classes, `_extractAppName`, `_connectInstance` and the configuration tables: short case splits that would add only easy members.
