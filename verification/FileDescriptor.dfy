// The file descriptor below the proxy, with the operating system's freedom in how much
// a single read or write moves.

module FileDescriptor {
  import opened Bytes
  import opened Sequences

  class Descriptor {
    ghost const stream: seq<byte> // everything the peer sends before the stream ends
    var incoming: seq<byte>       // what of it was not read yet
    var wire: seq<byte>           // what was written so far
    ghost var failed: bool              // a write has failed
    ghost var wireAtFailure: seq<byte>  // the wire when that happened first

    ghost predicate Valid()
      reads this
    {
      |incoming| <= |stream| && incoming == stream[|stream| - |incoming|..]
    }

    // What was read so far.
    ghost function Taken(): seq<byte>
      requires Valid()
      reads this
    {
      stream[..|stream| - |incoming|]
    }

    constructor (stream: seq<byte>)
      ensures Valid() && this.stream == stream && Taken() == [] && wire == [] && !failed
    {
      this.stream, incoming, wire, failed := stream, stream, [], false;
    }

    // Delivers some positive part of what is left, in any chunking; zero only at the end of the stream.
    method Read(buf: array<byte>, off: nat, len: nat) returns (n: nat)
      requires Valid() && off + len <= buf.Length
      modifies this`incoming, buf
      ensures Valid() && n <= len && n <= |old(incoming)|
      ensures n == 0 <==> len == 0 || old(incoming) == []
      ensures incoming == old(incoming)[n..]
      ensures buf[..] == Splice(old(buf[..]), off, old(incoming)[..n])
    {
      n := 0;
      if len > 0 && incoming != [] {
        n :| 1 <= n <= len && n <= |incoming|;
      }
      forall i | 0 <= i < n {
        buf[off + i] := incoming[i];
      }
      incoming := incoming[n..];
    }

    // Accepts some positive part of the data, or fails with zero or -1.
    method Write(data: seq<byte>) returns (n: int)
      modifies this`wire, this`failed, this`wireAtFailure
      ensures -1 <= n <= |data|
      ensures wire == old(wire) + (if n > 0 then data[..n] else [])
      ensures failed == (old(failed) || n <= 0)
      ensures wireAtFailure == if n <= 0 && !old(failed) then wire else old(wireAtFailure)
    {
      n :| -1 <= n <= |data|;
      if n > 0 {
        wire := wire + data[..n];
      } else if !failed {
        failed, wireAtFailure := true, wire;
      }
    }
  }
}
