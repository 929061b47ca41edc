/**
 * HubStreamAdapter (ArduinoCoreTestDevice.h): an Arduino-style Stream over
 * the hub's serial port, with a one-byte lookahead buffer because the host's
 * serial API has no peek.
 */
module HubStream {

  import opened Bytes

  // std::numeric_limits<int>::max() for a 32-bit int
  const INT_MAX: int := 0x7FFF_FFFF

  /**
   * The hub's serial port as the adapter sees it (ReadFromComPort and
   * WriteToComPort).  incoming holds the bytes the port has received;
   * writeStatus is what the next WriteToComPort reports (0 for success);
   * outgoing is what the port has accepted.
   */
  class ComPort {
    var incoming: seq<byte>
    var writeStatus: int
    ghost var outgoing: seq<byte>

    constructor (incoming: seq<byte>, writeStatus: int)
      ensures this.incoming == incoming && this.writeStatus == writeStatus && outgoing == []
    {
      this.incoming := incoming;
      this.writeStatus := writeStatus;
      outgoing := [];
    }

    /** Reads up to maxLen received bytes; bytesRead is |answer|. */
    method ReadFromComPort(maxLen: nat) returns (answer: seq<byte>)
      modifies this
      ensures |answer| <= maxLen && old(incoming) == answer + incoming
      ensures |answer| < maxLen ==> incoming == []
      ensures writeStatus == old(writeStatus) && outgoing == old(outgoing)
    {
      if |incoming| <= maxLen {
        answer := incoming;
      } else {
        answer := incoming[..maxLen];
      }
      incoming := incoming[|answer|..];
    }

    method WriteToComPort(command: seq<byte>) returns (status: int)
      modifies this
      ensures status == writeStatus
      ensures outgoing == old(outgoing) + (if status == 0 then command else [])
      ensures incoming == old(incoming) && writeStatus == old(writeStatus)
    {
      status := writeStatus;
      if status == 0 {
        outgoing := outgoing + command;
      }
    }
  }

  /** The lookahead buffer after getNextChar: refilled with one byte only when it was empty. */
  function Refilled(rdbuf: seq<byte>, incoming: seq<byte>): seq<byte> {
    if rdbuf == [] && incoming != [] then [incoming[0]] else rdbuf
  }

  /** The port input after getNextChar. */
  function Drained(rdbuf: seq<byte>, incoming: seq<byte>): seq<byte> {
    if rdbuf == [] && incoming != [] then incoming[1..] else incoming
  }

  /** getNextChar never grows the buffer past one byte, and never loses or reorders a byte. */
  lemma RefillKeepsOneByte(rdbuf: seq<byte>, incoming: seq<byte>)
    requires |rdbuf| <= 1
    ensures |Refilled(rdbuf, incoming)| <= 1
    ensures rdbuf != [] ==> Refilled(rdbuf, incoming) == rdbuf && Drained(rdbuf, incoming) == incoming
    ensures Refilled(rdbuf, incoming) + Drained(rdbuf, incoming) == rdbuf + incoming
  {
    if rdbuf == [] && incoming != [] {
      assert [incoming[0]] + incoming[1..] == incoming;
    }
  }

  /**
   * A refill after a refill fetches nothing: so once peek has seen a byte,
   * the next read returns that same byte.
   */
  lemma RefillIdempotent(rdbuf: seq<byte>, incoming: seq<byte>)
    ensures var b := Refilled(rdbuf, incoming);
            var i := Drained(rdbuf, incoming);
            b != [] ==> Refilled(b, i) == b && Drained(b, i) == i
  {
  }

  class HubStreamAdapter {
    const hub: ComPort
    var rdbuf: seq<byte>

    ghost predicate Valid()
      reads this
    {
      |rdbuf| <= 1
    }

    // private in the source (ArduinoCoreTestDevice.h:48)
    constructor (hub: ComPort)
      ensures this.hub == hub && rdbuf == [] && Valid()
    {
      this.hub := hub;
      rdbuf := [];
    }

    /** getNextChar: fetch at most one byte from the port, and only into an empty buffer. */
    method GetNextChar()
      requires Valid()
      modifies this, hub
      ensures Valid()
      ensures rdbuf == Refilled(old(rdbuf), old(hub.incoming))
      ensures hub.incoming == Drained(old(rdbuf), old(hub.incoming))
      ensures hub.writeStatus == old(hub.writeStatus) && hub.outgoing == old(hub.outgoing)
    {
      if rdbuf == [] {
        var buf := hub.ReadFromComPort(1);
        if |buf| > 0 {
          rdbuf := rdbuf + [buf[0]];
        }
      }
    }

    /** read: -1 when nothing could be buffered, otherwise the front byte, which is removed. */
    method Read() returns (c: int)
      requires Valid()
      modifies this, hub
      ensures Valid()
      ensures var b := Refilled(old(rdbuf), old(hub.incoming));
              (c == -1 <==> b == []) && (b != [] ==> c == b[0] && rdbuf == b[1..]) && (b == [] ==> rdbuf == [])
      ensures hub.incoming == Drained(old(rdbuf), old(hub.incoming))
      ensures hub.writeStatus == old(hub.writeStatus) && hub.outgoing == old(hub.outgoing)
    {
      GetNextChar();
      if rdbuf == [] {
        return -1;
      }
      c := rdbuf[0];
      rdbuf := rdbuf[1..];   // pop_front
    }

    /** peek: like read, but the byte stays in the buffer. */
    method Peek() returns (c: int)
      requires Valid()
      modifies this, hub
      ensures Valid()
      ensures var b := Refilled(old(rdbuf), old(hub.incoming));
              rdbuf == b && (c == -1 <==> b == []) && (b != [] ==> c == b[0])
      ensures hub.incoming == Drained(old(rdbuf), old(hub.incoming))
      ensures hub.writeStatus == old(hub.writeStatus) && hub.outgoing == old(hub.outgoing)
    {
      GetNextChar();
      c := if rdbuf == [] then -1 else rdbuf[0];
    }

    /** available: the buffer size after a refill attempt, so 0 or 1. */
    method Available() returns (n: int)
      requires Valid()
      modifies this, hub
      ensures Valid() && (n == 0 || n == 1)
      ensures var b := Refilled(old(rdbuf), old(hub.incoming));
              rdbuf == b && n == |b| && (n == 1 <==> old(rdbuf) != [] || old(hub.incoming) != [])
      ensures hub.incoming == Drained(old(rdbuf), old(hub.incoming))
      ensures hub.writeStatus == old(hub.writeStatus) && hub.outgoing == old(hub.outgoing)
    {
      GetNextChar();
      n := |rdbuf|;
    }

    method TimedRead() returns (c: int)
      requires Valid()
      modifies this, hub
      ensures Valid()
      ensures var b := Refilled(old(rdbuf), old(hub.incoming));
              (c == -1 <==> b == []) && (b != [] ==> c == b[0] && rdbuf == b[1..]) && (b == [] ==> rdbuf == [])
      ensures hub.incoming == Drained(old(rdbuf), old(hub.incoming))
      ensures hub.writeStatus == old(hub.writeStatus) && hub.outgoing == old(hub.outgoing)
    {
      c := Read();
    }

    method TimedPeek() returns (c: int)
      requires Valid()
      modifies this, hub
      ensures Valid()
      ensures var b := Refilled(old(rdbuf), old(hub.incoming));
              rdbuf == b && (c == -1 <==> b == []) && (b != [] ==> c == b[0])
      ensures hub.incoming == Drained(old(rdbuf), old(hub.incoming))
      ensures hub.writeStatus == old(hub.writeStatus) && hub.outgoing == old(hub.outgoing)
    {
      c := Peek();
    }

    /** write(str, n): all or nothing, n when the port reports success and 0 otherwise. */
    method Write(str: seq<byte>, n: nat) returns (written: nat)
      requires n <= |str|
      modifies hub
      ensures written == (if old(hub.writeStatus) == 0 then n else 0)
      ensures hub.outgoing == old(hub.outgoing) + (if old(hub.writeStatus) == 0 then str[..n] else [])
      ensures hub.incoming == old(hub.incoming) && hub.writeStatus == old(hub.writeStatus)
    {
      var status := hub.WriteToComPort(str[..n]);
      written := if status == 0 then n else 0;
    }

    /** write(byte): a one-byte write. */
    method WriteByte(b: byte) returns (written: nat)
      modifies hub
      ensures written == (if old(hub.writeStatus) == 0 then 1 else 0)
      ensures hub.outgoing == old(hub.outgoing) + (if old(hub.writeStatus) == 0 then [b] else [])
      ensures hub.incoming == old(hub.incoming) && hub.writeStatus == old(hub.writeStatus)
    {
      written := Write([b], 1);
    }

    method AvailableForWrite() returns (n: int)
      ensures n == INT_MAX
    {
      n := INT_MAX;
    }
  }

  /** peek followed by read: a byte that peek shows is the byte read then returns. */
  method PeekThenRead(s: HubStreamAdapter) returns (p: int, c: int)
    requires s.Valid()
    modifies s, s.hub
    ensures s.Valid()
    ensures c == p
    ensures var b := Refilled(old(s.rdbuf), old(s.hub.incoming));
            (p == -1 <==> b == []) && (b != [] ==> p == b[0] && s.rdbuf == [])
  {
    p := s.Peek();
    c := s.Read();
  }
}
