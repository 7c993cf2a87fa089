// The buffered descriptor: a read buffer and a write buffer over a file descriptor.

module BufferedDescriptor {
  import opened Bytes
  import opened Sequences
  import opened FileDescriptor

  class NGBufferedDescriptor {
    const fd: Descriptor
    const readBuffer: array<byte>
    const readBufferSize: nat
    var readBufferPos: nat         // offset of the next byte to hand out
    var readBufferFillSize: nat    // bytes of the buffer filled from the descriptor
    const writeBuffer: array<byte>
    const writeBufferSize: nat
    var writeBufferFillSize: nat

    // History of the whole run.
    ghost const takenBefore: seq<byte>
    ghost const wireBefore: seq<byte>
    ghost var delivered: seq<byte>      // handed to callers of the read functions
    ghost var accepted: seq<byte>       // taken from callers of the write functions

    ghost predicate Valid()
      reads this, fd, readBuffer, writeBuffer
    {
      Separate() && fd.Valid() && ReadSide() && WriteSide()
    }

    ghost predicate Separate()
    {
      readBuffer != writeBuffer && readBuffer.Length == readBufferSize && writeBuffer.Length == writeBufferSize
    }

    // A consumed buffer starts over, and reading loses and invents nothing.
    ghost predicate ReadSide()
      requires Separate()
      reads this`readBufferPos, this`readBufferFillSize, this`delivered, fd`incoming, readBuffer
    {
      && readBufferFillSize <= readBufferSize
      && (readBufferPos < readBufferFillSize || readBufferPos == readBufferFillSize == 0)
      && takenBefore + delivered + Unread() == fd.stream
    }

    // A full buffer has been written, and writing loses and invents nothing until a descriptor write
    // fails; and at that point the wire is still a beginning of what was accepted.
    ghost predicate WriteSide()
      requires Separate()
      reads this`writeBufferFillSize, this`accepted, fd`wire, fd`failed, fd`wireAtFailure, writeBuffer
    {
      && (writeBufferFillSize < writeBufferSize || writeBufferFillSize == 0)
      && (if fd.failed then fd.wireAtFailure <= fd.wire && fd.wireAtFailure <= wireBefore + accepted
          else Sent() == wireBefore + accepted)
    }

    // Read from the descriptor, not yet handed out.
    ghost function Buffered(): seq<byte>
      requires Separate() && readBufferPos <= readBufferFillSize <= readBufferSize
      reads this`readBufferPos, this`readBufferFillSize, readBuffer
    {
      readBuffer[readBufferPos..readBufferFillSize]
    }

    // Everything a caller can still read.
    ghost function Unread(): seq<byte>
      requires Separate() && readBufferPos <= readBufferFillSize <= readBufferSize
      reads this`readBufferPos, this`readBufferFillSize, fd`incoming, readBuffer
    {
      Buffered() + fd.incoming
    }

    // The same for callers, who know the descriptor to be valid.
    ghost function Remaining(): seq<byte>
      requires Valid()
      reads this, fd, readBuffer, writeBuffer
    {
      Unread()
    }

    // Whatever was taken from the descriptor was handed out or is still buffered.
    lemma NothingLost()
      requires Valid()
      ensures takenBefore + delivered + Buffered() == fd.Taken()
    {
      var taken := takenBefore + delivered + Buffered();
      assert taken + fd.incoming == fd.stream;
    }

    // What was on the wire at the first failure stays there.
    lemma FailureIsOnWire()
      requires Valid()
      ensures fd.failed ==> fd.wireAtFailure <= fd.wire && fd.wireAtFailure <= wireBefore + accepted
    {
    }

    // Accepted, not yet on the wire.
    ghost function Pending(): seq<byte>
      requires Separate() && writeBufferFillSize <= writeBufferSize
      reads this`writeBufferFillSize, writeBuffer
    {
      writeBuffer[..writeBufferFillSize]
    }

    // The wire, were everything pending written.
    ghost function Sent(): (s: seq<byte>)
      requires Separate() && writeBufferFillSize <= writeBufferSize
      reads this`writeBufferFillSize, fd`wire, writeBuffer
      ensures fd.wire <= s
    {
      fd.wire + Pending()
    }

    // The same for callers, who know the descriptor to be valid.
    ghost function Written(): seq<byte>
      requires Valid()
      reads this, fd, readBuffer, writeBuffer
    {
      Sent()
    }

    // NGBufferedDescriptor_newWithDescriptorAndSize
    constructor (fd: Descriptor, size: nat)
      requires fd.Valid() && !fd.failed
      ensures Valid() && this.fd == fd && fresh(readBuffer) && fresh(writeBuffer)
      ensures readBufferSize == size && writeBufferSize == size
      ensures Remaining() == fd.incoming && Written() == fd.wire
      ensures delivered == [] && accepted == [] && takenBefore == fd.Taken() && wireBefore == fd.wire
    {
      this.fd := fd;
      readBuffer := new byte[size](_ => 0);
      readBufferSize := size;
      readBufferPos := 0;
      readBufferFillSize := 0;
      writeBuffer := new byte[size](_ => 0);
      writeBufferSize := size;
      writeBufferFillSize := 0;
      takenBefore, wireBefore := fd.Taken(), fd.wire;
      delivered, accepted := [], [];
      new;
      assert Unread() == fd.incoming;
      assert Sent() == wireBefore + accepted;
    }

    // A buffer that is completely consumed starts over.
    method CheckReadBufferFillState()
      requires Separate() && readBufferPos <= readBufferFillSize <= readBufferSize
      modifies this`readBufferPos, this`readBufferFillSize
      ensures readBufferPos < readBufferFillSize <= readBufferSize || readBufferPos == readBufferFillSize == 0
      ensures Buffered() == old(Buffered())
    {
      if readBufferFillSize - readBufferPos == 0 {
        readBufferPos := 0;
        readBufferFillSize := 0;
      }
    }

    // memcpy(buf + off, readBufferPos, n)
    method CopyOut(buf: array<byte>, off: nat, n: nat)
      requires Separate() && readBufferPos + n <= readBufferSize && off + n <= buf.Length && buf != readBuffer
      modifies buf
      ensures buf[..] == Splice(old(buf[..]), off, readBuffer[readBufferPos..readBufferPos + n])
    {
      forall i | 0 <= i < n {
        buf[off + i] := readBuffer[readBufferPos + i];
      }
    }

    // Hands out len of the buffered bytes, or all there are.
    method TakeBuffered(buf: array<byte>, off: nat, len: nat) returns (n: nat)
      requires Separate() && readBufferPos <= readBufferFillSize <= readBufferSize
      requires off + len <= buf.Length && buf != readBuffer
      modifies this`readBufferPos, this`readBufferFillSize, buf
      ensures readBufferPos < readBufferFillSize <= readBufferSize || readBufferPos == readBufferFillSize == 0
      ensures n == if len <= |old(Buffered())| then len else |old(Buffered())|
      ensures Buffered() == old(Buffered())[n..]
      ensures buf[..] == Splice(old(buf[..]), off, old(Buffered())[..n])
    {
      hide Splice;
      var availBytes := readBufferFillSize - readBufferPos;
      n := if availBytes >= len then len else availBytes;
      assert Buffered()[..n] == readBuffer[readBufferPos..readBufferPos + n];
      CopyOut(buf, off, n);
      readBufferPos := readBufferPos + n;
      CheckReadBufferFillState();
    }

    // Reads the next block of input into the empty buffer.
    method Refill()
      requires Separate() && fd.Valid() && readBufferPos == readBufferFillSize == 0
      modifies this`readBufferFillSize, fd`incoming, readBuffer
      ensures fd.Valid() && readBufferFillSize <= readBufferSize
      ensures Unread() == old(fd.incoming)
      ensures Buffered() == [] ==> readBufferSize == 0 || old(fd.incoming) == []
    {
      readBufferFillSize := fd.Read(readBuffer, 0, readBufferSize);
      SpliceRead(old(readBuffer[..]), 0, old(fd.incoming)[..readBufferFillSize]);
      Cut(old(fd.incoming), readBufferFillSize);
    }

    // The branches of the read, as one step of the plain stream.
    method ReadSome(buf: array<byte>, off: nat, len: nat) returns (n: nat)
      requires Separate() && fd.Valid() && readBufferFillSize <= readBufferSize
      requires readBufferPos < readBufferFillSize || readBufferPos == readBufferFillSize == 0
      requires off + len <= buf.Length && buf != readBuffer && buf != writeBuffer
      modifies this`readBufferPos, this`readBufferFillSize, fd`incoming, readBuffer, buf
      ensures fd.Valid()
      ensures readBufferPos < readBufferFillSize <= readBufferSize || readBufferPos == readBufferFillSize == 0
      ensures n <= len && n <= |old(Unread())|
      ensures n == 0 <==> len == 0 || old(Unread()) == []
      ensures Unread() == old(Unread())[n..]
      ensures buf[..] == Splice(old(buf[..]), off, old(Unread())[..n])
      ensures old(Buffered()) != [] ==>
                fd.incoming == old(fd.incoming) && n == if |old(Buffered())| < len then |old(Buffered())| else len
    {
      hide Splice;
      ghost var behind := fd.incoming;
      var availBytes := readBufferFillSize - readBufferPos;
      assert availBytes == 0 ==> Unread() == behind;
      if readBufferSize == 0 {
        n := fd.Read(buf, off, len);
      } else if availBytes >= len || availBytes > 0 {
        TakeFront(Buffered(), behind, Min(len, |Buffered()|));
        n := TakeBuffered(buf, off, len);
      } else if len > readBufferSize {
        n := fd.Read(buf, off, len);
      } else {
        Refill();
        TakeFront(Buffered(), fd.incoming, Min(len, |Buffered()|));
        n := TakeBuffered(buf, off, len);
      }
    }

    // Hands over the next bytes of the stream, in whatever portion is convenient.
    method Read(buf: array<byte>, off: nat, len: nat) returns (n: nat)
      requires Valid()
      requires off + len <= buf.Length && buf != readBuffer && buf != writeBuffer
      modifies this`readBufferPos, this`readBufferFillSize, this`delivered, fd`incoming, readBuffer, buf
      ensures Valid()
      ensures n <= len && n <= |old(Remaining())|
      ensures n == 0 <==> len == 0 || old(Remaining()) == []
      ensures Remaining() == old(Remaining())[n..] && delivered == old(delivered) + old(Remaining())[..n]
      ensures buf[..] == Splice(old(buf[..]), off, old(Remaining())[..n])
      // buffered bytes are used up before the descriptor is asked again
      ensures old(Buffered()) != [] ==>
                fd.incoming == old(fd.incoming) && n == if |old(Buffered())| < len then |old(Buffered())| else len
    {
      hide Splice, WriteSide;
      ghost var unread := Unread();
      n := ReadSome(buf, off, len);
      Cut(unread, n);
      assert takenBefore + (delivered + unread[..n]) + unread[n..] == takenBefore + delivered + unread;
      delivered := delivered + unread[..n];
    }

    // Writes out the full buffer; what the descriptor does not accept is lost.
    method Drain() returns (r: int)
      requires Separate() && writeBufferFillSize <= writeBufferSize
      modifies this`writeBufferFillSize, fd`wire, fd`failed, fd`wireAtFailure
      ensures fd.failed == (old(fd.failed) || r <= 0)
      ensures fd.wireAtFailure == if r <= 0 && !old(fd.failed) then fd.wire else old(fd.wireAtFailure)
      ensures writeBufferFillSize == 0 && old(fd.wire) <= fd.wire <= old(Sent())
      ensures r > 0 ==> fd.wire == Sent() == old(Sent())
      ensures Pending() == []
      ensures old(writeBufferFillSize) == 0 ==> r > 0
    {
      var pos := 0;
      ghost var all := Pending();
      while writeBufferFillSize > 0
        invariant pos + writeBufferFillSize == |all|
        invariant fd.wire == old(fd.wire) + all[..pos]
        invariant fd.failed == old(fd.failed) && fd.wireAtFailure == old(fd.wireAtFailure)
      {
        var result := fd.Write(writeBuffer[pos..pos + writeBufferFillSize]);
        if result <= 0 {
          writeBufferFillSize := 0;
          return result;
        }
        assert all[..pos + result] == all[..pos] + writeBuffer[pos..pos + writeBufferFillSize][..result];
        writeBufferFillSize := writeBufferFillSize - result;
        pos := pos + result;
      }
      r := 1;
    }

    // memcpy(writeBuffer + writeBufferFillSize, track, tmp)
    method CopyIn(data: seq<byte>)
      requires Separate() && writeBufferFillSize + |data| <= writeBufferSize
      modifies this`writeBufferFillSize, writeBuffer
      ensures writeBufferFillSize == old(writeBufferFillSize) + |data|
      ensures Sent() == old(Sent()) + data
    {
      forall i | 0 <= i < |data| {
        writeBuffer[writeBufferFillSize + i] := data[i];
      }
      assert writeBuffer[..writeBufferFillSize + |data|] == old(Pending()) + data;
      writeBufferFillSize := writeBufferFillSize + |data|;
    }

    // One turn of the write: a part that fits goes to the buffer, and a full buffer to the wire.
    method Accept(part: seq<byte>) returns (r: int)
      requires Separate() && writeBufferFillSize + |part| <= writeBufferSize
      modifies this`writeBufferFillSize, fd`wire, fd`failed, fd`wireAtFailure, writeBuffer
      ensures fd.failed == (old(fd.failed) || r <= 0)
      ensures fd.wireAtFailure == if r <= 0 && !old(fd.failed) then fd.wire else old(fd.wireAtFailure)
      ensures writeBufferFillSize < writeBufferSize || writeBufferFillSize == 0
      ensures old(fd.wire) <= fd.wire <= old(Sent()) + part
      ensures if r > 0 then Sent() == old(Sent()) + part else Pending() == []
    {
      hide Sent, Pending;
      CopyIn(part);
      r := 1;
      if writeBufferFillSize == writeBufferSize {
        r := Drain();
      }
    }

    // The loop of the write: fill the buffer, write it out when it is full, until all data is in.
    method WriteAll(data: seq<byte>) returns (r: int)
      requires Separate() && (writeBufferFillSize < writeBufferSize || writeBufferFillSize == 0)
      requires data != [] ==> writeBufferSize > 0
      modifies this`writeBufferFillSize, fd`wire, fd`failed, fd`wireAtFailure, writeBuffer
      ensures fd.failed == (old(fd.failed) || (data != [] && r <= 0))
      ensures fd.wireAtFailure == if data != [] && r <= 0 && !old(fd.failed) then fd.wire else old(fd.wireAtFailure)
      ensures writeBufferFillSize < writeBufferSize || writeBufferFillSize == 0
      ensures old(fd.wire) <= fd.wire <= old(Sent()) + data
      ensures r <= 0 || r == |data|
      ensures data == [] || r > 0 ==> Sent() == old(Sent()) + data
      ensures data != [] && r <= 0 ==> Pending() == []
    {
      hide Sent, Pending;
      var remaining := |data|;
      while remaining > 0
        invariant 0 <= remaining <= |data|
        invariant writeBufferFillSize < writeBufferSize || writeBufferFillSize == 0
        invariant old(fd.wire) <= fd.wire && Sent() == old(Sent()) + data[..|data| - remaining]
        invariant fd.failed == old(fd.failed) && fd.wireAtFailure == old(fd.wireAtFailure)
      {
        var track := |data| - remaining;
        var tmp := Min(writeBufferSize - writeBufferFillSize, remaining);
        PartFollows(old(Sent()), data, track, track + tmp);
        var result := Accept(data[track..track + tmp]);
        remaining := remaining - tmp;
        if result <= 0 { return result; }
      }
      assert data[..|data|] == data;
      r := |data|;
    }

    // Takes the data in, or reports the failed write of a full buffer.
    method Write(data: seq<byte>) returns (r: int)
      requires Valid() && (data != [] ==> writeBufferSize > 0)
      modifies this`writeBufferFillSize, this`accepted, fd`wire, fd`failed, fd`wireAtFailure, writeBuffer
      ensures Valid() && accepted == old(accepted) + data
      ensures Remaining() == old(Remaining())
      ensures (r <= 0 || r == |data|) && old(fd.wire) <= fd.wire
      ensures data == [] || r > 0 ==> Written() == old(Written()) + data && fd.failed == old(fd.failed)
      ensures data != [] && r <= 0 ==> fd.failed && fd.wire <= old(Written()) + data && Pending() == []
    {
      hide ReadSide;
      ghost var sent := Sent();
      r := WriteAll(data);
      assert wireBefore + accepted + data == wireBefore + (accepted + data);
      accepted := accepted + data;
    }

    // Writes out what is pending. A failure leaves the fill size as it was, so that a later flush
    // would send the part already on the wire again.
    method Flush() returns (ok: bool)
      requires Valid()
      modifies this`writeBufferFillSize, fd`wire, fd`failed, fd`wireAtFailure
      ensures Valid() && fd.failed == (old(fd.failed) || !ok)
      ensures Remaining() == old(Remaining())
      ensures ok ==> fd.wire == Written() == old(Written()) && Pending() == []
      ensures !ok ==> Pending() == old(Pending()) != [] && fd.wire < old(Written())
      ensures old(Pending()) == [] ==> ok && fd.wire == old(fd.wire)
      ensures old(fd.wire) <= fd.wire && (old(fd.failed) ==> fd.wireAtFailure == old(fd.wireAtFailure))
    {
      hide ReadSide;
      ghost var sent := Sent();
      if writeBufferFillSize > 0 {
        ok := WriteOut();
        if !ok { return; }
        writeBufferFillSize := 0;
      }
      ok := true;
    }

    // The loop of the flush: everything pending goes to the wire, or a proper part of it.
    method WriteOut() returns (ok: bool)
      requires Separate() && writeBufferFillSize <= writeBufferSize
      modifies fd`wire, fd`failed, fd`wireAtFailure
      ensures fd.failed == (old(fd.failed) || !ok)
      ensures fd.wireAtFailure == if !ok && !old(fd.failed) then fd.wire else old(fd.wireAtFailure)
      ensures old(fd.wire) <= fd.wire && (if ok then fd.wire == old(Sent()) else fd.wire < old(Sent()))
    {
      ghost var all := Pending();
      var toGo, pos := writeBufferFillSize, 0;
      assert all[..0] == [];
      while toGo > 0
        invariant 0 <= toGo && pos + toGo == |all|
        invariant fd.failed == old(fd.failed) && fd.wireAtFailure == old(fd.wireAtFailure)
        invariant fd.wire == old(fd.wire) + all[..pos]
      {
        var result := fd.Write(writeBuffer[pos..pos + toGo]);
        if result <= 0 {
          return false;
        }
        GoOn(all, pos, result);
        toGo := toGo - result;
        pos := pos + result;
      }
      assert all[..|all|] == all;
      ok := true;
    }

    // Reads exactly len bytes, or reports that the stream ends before.
    method SafeRead(buf: array<byte>, off: nat, len: nat) returns (ok: bool)
      requires Valid()
      requires off + len <= buf.Length && buf != readBuffer && buf != writeBuffer
      modifies this`readBufferPos, this`readBufferFillSize, this`delivered, fd`incoming, readBuffer, buf
      ensures Valid()
      ensures ok <==> len <= |old(Remaining())|
      ensures var n := Min(len, |old(Remaining())|);
              && Remaining() == old(Remaining())[n..] && delivered == old(delivered) + old(Remaining())[..n]
              && buf[..] == Splice(old(buf[..]), off, old(Remaining())[..n])
    {
      hide Valid, Remaining, Splice;
      ghost var unread, was := Remaining(), buf[..];
      assert unread[0..] == unread;
      SpliceNothing(was, off);
      var n := 0;
      while n < len
        invariant n <= len && n <= |unread| && Valid()
        invariant Remaining() == unread[n..] && delivered == old(delivered) + unread[..n]
        invariant buf[..] == Splice(was, off, unread[..n])
      {
        SpliceNothing(buf[..], off + n);
        ghost var front := unread[..n];
        assert |front| == n;
        var result := Read(buf, off + n, len - n);
        GoOn(unread, n, result);
        if result == 0 {
          assert unread[n..][..0] == [];
          return false;
        }
        assert buf[..] == Splice(Splice(was, off, front), off + |front|, unread[n..n + result]);
        SpliceAppend(was, off, front, unread[n..n + result]);
        n := n + result;
      }
      ok := true;
    }

    // Writes exactly the data, or reports that a descriptor write failed.
    method SafeWrite(data: seq<byte>) returns (ok: bool)
      requires Valid() && (data != [] ==> writeBufferSize > 0)
      modifies this`writeBufferFillSize, this`accepted, fd`wire, fd`failed, fd`wireAtFailure, writeBuffer
      ensures Valid() && fd.failed == (old(fd.failed) || !ok) && accepted == old(accepted) + data
      ensures Remaining() == old(Remaining()) && old(fd.wire) <= fd.wire
      ensures ok ==> Written() == old(Written()) + data
      ensures !ok ==> fd.wire <= old(Written()) + data && Pending() == []
    {
      var rest := data;
      while rest != []
        invariant Valid() && (rest == data || rest == [])
        invariant rest == data ==> accepted == old(accepted) && Sent() == old(Sent()) && fd.failed == old(fd.failed) && fd.wire == old(fd.wire)
        invariant rest == [] ==> accepted == old(accepted) + data && Sent() == old(Sent()) + data && fd.failed == old(fd.failed)
        invariant old(fd.wire) <= fd.wire
        decreases |rest|
      {
        var result := Write(rest);
        if result <= 0 { return false; }
        rest := rest[result..];
      }
      ok := true;
    }

    // The next byte, or -1 at the end of the stream.
    method ReadChar() returns (c: int)
      requires Valid()
      modifies this`readBufferPos, this`readBufferFillSize, this`delivered, fd`incoming, readBuffer
      ensures Valid() && -1 <= c < 256
      ensures if old(Remaining()) == [] then c == -1 && Remaining() == []
              else c == old(Remaining())[0] && Remaining() == old(Remaining())[1..]
    {
      hide Valid, Remaining;
      var one := new byte[1];
      var ok := SafeRead(one, 0, 1);
      if ok { assert one[..][0] == old(Remaining())[0]; }
      c := if ok then one[0] else -1;
    }
  }
}
