/** The buffered reader over a socket.  A socket delivers what its peer sends, in pieces of
    any size; the buffered reader must neither lose nor repeat a byte. */
module SocketStreams {

  const SSIZE_MAX := 0x7fff_ffff_ffff_ffff
  const BUFFER_SIZE := 4096

  /** `incoming` is what the peer has still to deliver before it closes.  A healthy socket
      reports neither timeouts nor errors. */
  class Socket {
    const healthy: bool
    var incoming: string

    constructor (incoming: string, healthy: bool)
      ensures this.incoming == incoming && this.healthy == healthy
    {
      this.incoming, this.healthy := incoming, healthy;
    }

    method IsReadable() returns (yes: bool)
      ensures healthy ==> yes
    {
      var ready: bool := *;
      yes := healthy || ready;
    }

    /** Takes between one byte and `size` bytes, or none at the end; -1 for an error. */
    method Receive(size: nat) returns (n: int, data: string)
      modifies this
      ensures old(incoming) == data + incoming && |data| <= size
      ensures n == |data| || (n == -1 && data == "" && !healthy)
      ensures n >= 0 && size > 0 && old(incoming) != "" ==> n > 0
    {
      var fault: bool := *;
      if fault && !healthy {
        return -1, "";
      }
      var most := if size < |incoming| then size else |incoming|;
      var k :| 0 <= k <= most && (most > 0 ==> k > 0);
      data := incoming[..k];
      incoming := incoming[k..];
      n := k;
    }
  }

  class SocketStream {
    const sock: Socket
    const readBuff: array<char>
    var readBuffOff: nat
    var readBuffContentSize: nat

    ghost predicate Valid()
      reads this
    {
      readBuff.Length == BUFFER_SIZE && readBuffOff <= BUFFER_SIZE && readBuffContentSize <= BUFFER_SIZE
    }

    /** Received and not yet handed on. */
    function Window(): string
      requires Valid()
      reads this, readBuff
    {
      if readBuffOff < readBuffContentSize then readBuff[readBuffOff..readBuffContentSize] else ""
    }

    /** Everything a caller has still to read. */
    function Pending(): string
      requires Valid()
      reads this, readBuff, sock
    {
      Window() + sock.incoming
    }

    constructor (sock: Socket)
      ensures Valid() && fresh(readBuff) && this.sock == sock && Pending() == sock.incoming
    {
      this.sock := sock;
      readBuff := new char[BUFFER_SIZE];
      readBuffOff, readBuffContentSize := 0, 0;
    }

    /** Hands on the next bytes of the stream: some, if there are any, and never more than
        asked for. */
    method Read(wanted: nat) returns (n: int, data: string)
      requires Valid()
      modifies this, readBuff, sock
      ensures Valid()
      ensures old(Pending()) == data + Pending() && |data| <= wanted
      ensures n == |data| || (n == -1 && data == "" && !sock.healthy)
      ensures n >= 0 && wanted > 0 && old(Pending()) != "" ==> n > 0
    {
      var size := if wanted < SSIZE_MAX then wanted else SSIZE_MAX;
      if readBuffOff < readBuffContentSize {
        n, data := TakeBuffered(size);
        return;
      }
      var readable := sock.IsReadable();
      if !readable {
        return -1, "";
      }
      readBuffOff := 0;
      readBuffContentSize := 0;
      if size < BUFFER_SIZE {
        n, data := Refill(size);
      } else {
        n, data := sock.Receive(size);
      }
    }

    method TakeBuffered(size: nat) returns (n: nat, data: string)
      requires Valid() && readBuffOff < readBuffContentSize
      modifies this`readBuffOff
      ensures Valid() && n == |data| <= size && old(Window()) == data + Window()
      ensures size > 0 ==> n > 0
    {
      var remaining := readBuffContentSize - readBuffOff;
      if size <= remaining {
        data := readBuff[readBuffOff..readBuffOff + size];
        readBuffOff := readBuffOff + size;
        n := size;
      } else {
        data := readBuff[readBuffOff..readBuffOff + remaining];
        readBuffOff := readBuffOff + remaining;
        n := remaining;
      }
    }

    /** Receives a buffer full and hands on its beginning. */
    method Refill(size: nat) returns (n: int, data: string)
      requires Valid() && readBuffOff == 0 && readBuffContentSize == 0 && size < BUFFER_SIZE
      modifies this, readBuff, sock
      ensures Valid()
      ensures old(sock.incoming) == data + Pending() && |data| <= size
      ensures n == |data| || (n == -1 && data == "" && !sock.healthy)
      ensures n >= 0 && size > 0 && old(sock.incoming) != "" ==> n > 0
    {
      var received: string;
      n, received := sock.Receive(BUFFER_SIZE);
      if n <= 0 {
        return n, "";
      }
      forall i | 0 <= i < |received| {
        readBuff[i] := received[i];
      }
      assert readBuff[..n] == received;
      if n <= size {
        data := readBuff[..n];
      } else {
        data := readBuff[..size];
        readBuffOff := size;
        readBuffContentSize := n;
        assert received == data + Window();
        n := size;
      }
    }

    /** Any sequence of reads refines the raw stream: what was delivered, followed by what
        is still to come, is what there was. */
    method ReadMany(sizes: seq<nat>) returns (delivered: string)
      requires Valid()
      modifies this, readBuff, sock
      ensures Valid() && delivered + Pending() == old(Pending())
    {
      hide Pending, Window;
      delivered := "";
      var i := 0;
      while i < |sizes|
        invariant 0 <= i <= |sizes| && Valid() && delivered + Pending() == old(Pending())
      {
        var n, data := Read(sizes[i]);
        assert delivered + (data + Pending()) == delivered + data + Pending();
        delivered := delivered + data;
        i := i + 1;
      }
    }
  }
}
