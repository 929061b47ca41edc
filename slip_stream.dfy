/**
 * The stream side of slipstream.h: the transport the SlipStream mixin
 * forwards to, the SlipStream object with writeSlipEscaped and
 * readSlipEscaped, and the unescaping loop as its documentation intends it.
 */
module SlipStream {
  import opened Bytes
  import opened SlipCodec

  function Min(a: nat, b: nat): nat {
    if a <= b then a else b
  }

  /** Index of the first occurrence of b in s, or |s| when there is none. */
  function IndexOf(s: seq<byte>, b: byte): (k: nat)
    ensures k <= |s|
    ensures k < |s| ==> s[k] == b
    ensures forall i :: 0 <= i < k ==> s[i] != b
  {
    if s == [] then 0
    else if s[0] == b then 0
    else 1 + IndexOf(s[1..], b)
  }

  lemma {:induction false} IndexOfAfterRun(a: seq<byte>, b: byte, rest: seq<byte>)
    requires forall i :: 0 <= i < |a| ==> a[i] != b
    ensures IndexOf(a + [b] + rest, b) == |a|
  {
    if a != [] {
      assert (a + [b] + rest)[1..] == a[1..] + [b] + rest;
      IndexOfAfterRun(a[1..], b, rest);
    }
  }

  /**
   * How many bytes a write of len bytes gets through, when quota lists what
   * the transport's coming writes accept; past the list writes go through
   * in full.
   */
  function Accept(len: nat, quota: seq<nat>): (n: nat)
    ensures n <= len
    ensures (quota == [] || len <= quota[0]) ==> n == len
  {
    if quota == [] then len else Min(len, quota[0])
  }

  /** The quota left after k writes. */
  function Skip(quota: seq<nat>, k: nat): seq<nat> {
    if k >= |quota| then [] else quota[k..]
  }

  lemma SkipSkip(quota: seq<nat>, a: nat, b: nat)
    ensures Skip(Skip(quota, a), b) == Skip(quota, a + b)
  {
  }

  /** What reaches the wire when the writes cs are issued in order: the accepted front of each. */
  function Delivered(cs: seq<seq<byte>>, quota: seq<nat>): seq<byte> {
    if cs == [] then []
    else cs[0][..Accept(|cs[0]|, quota)] + Delivered(cs[1..], Skip(quota, 1))
  }

  /** What writeSlipEscaped adds to its count for a write c that went through with n bytes. */
  function Credit(c: seq<byte>, n: nat): nat {
    if IsEscapePair(c) then (if n == 2 then 1 else 0) else n
  }

  /** The count writeSlipEscaped returns for the writes cs. */
  function Credited(cs: seq<seq<byte>>, quota: seq<nat>): nat {
    if cs == [] then 0
    else Credit(cs[0], Accept(|cs[0]|, quota)) + Credited(cs[1..], Skip(quota, 1))
  }

  /** Every one of the writes cs goes through in full. */
  predicate InFull(cs: seq<seq<byte>>, quota: seq<nat>) {
    forall i :: 0 <= i < |cs| && i < |quota| ==> |cs[i]| <= quota[i]
  }

  lemma {:induction false} DeliveredAppend(cs: seq<seq<byte>>, c: seq<byte>, quota: seq<nat>)
    ensures Delivered(cs + [c], quota) == Delivered(cs, quota) + c[..Accept(|c|, Skip(quota, |cs|))]
    ensures Credited(cs + [c], quota) == Credited(cs, quota) + Credit(c, Accept(|c|, Skip(quota, |cs|)))
  {
    if cs == [] {
      assert cs + [c] == [c];
      assert Skip(quota, 0) == quota;
    } else {
      assert (cs + [c])[1..] == cs[1..] + [c];
      DeliveredAppend(cs[1..], c, Skip(quota, 1));
      SkipSkip(quota, 1, |cs| - 1);
    }
  }

  /** Writes that all go through in full put exactly their bytes on the wire. */
  lemma {:induction false} DeliveredInFull(cs: seq<seq<byte>>, quota: seq<nat>)
    requires InFull(cs, quota)
    ensures Delivered(cs, quota) == Flatten(cs)
  {
    if cs != [] {
      assert cs[0][..Accept(|cs[0]|, quota)] == cs[0];
      assert forall i :: 0 <= i < |cs[1..]| && i < |Skip(quota, 1)| ==> Skip(quota, 1)[i] == quota[i + 1];
      DeliveredInFull(cs[1..], Skip(quota, 1));
    }
  }

  /** The count over runs and escapes never exceeds the payload bytes they stand for, and equals it when all go through. */
  lemma {:induction false} CreditedBound(cs: seq<seq<byte>>, quota: seq<nat>)
    requires forall i :: 0 <= i < |cs| ==> IsRun(cs[i]) || IsEscapePair(cs[i])
    ensures Credited(cs, quota) <= SourceCount(cs)
    ensures InFull(cs, quota) ==> Credited(cs, quota) == SourceCount(cs)
  {
    if cs != [] {
      assert IsRun(cs[0]) ==> cs[0][0] != ESC;
      assert forall i :: 0 <= i < |cs[1..]| && i < |Skip(quota, 1)| ==> Skip(quota, 1)[i] == quota[i + 1];
      CreditedBound(cs[1..], Skip(quota, 1));
    }
  }

  /**
   * When every write of writeSlipEscaped goes through in full, the wire
   * carries exactly the packet and the count is the payload length.
   */
  lemma WireInFull(src: seq<byte>, quota: seq<nat>)
    requires InFull(Chunks(src) + [[END]], quota)
    ensures Delivered(Chunks(src) + [[END]], quota) == Frame(src)
    ensures Credited(Chunks(src), quota) == |src|
  {
    DeliveredInFull(Chunks(src) + [[END]], quota);
    FlattenAppend(Chunks(src), [[END]]);
    assert Flatten([[END]]) == [END] + Flatten([]);
    ChunksFlatten(src);
    ChunksShape(src);
    var cs := Chunks(src);
    assert forall i :: 0 <= i < |cs| ==> cs[i] == (cs + [[END]])[i];
    CreditedBound(cs, quota);
    ChunksSourceCount(src);
  }

  /** Whatever the transport accepts, the count never exceeds the payload length. */
  lemma CreditedAtMostPayload(src: seq<byte>, quota: seq<nat>)
    ensures Credited(Chunks(src), quota) <= |src|
  {
    ChunksShape(src);
    CreditedBound(Chunks(src), quota);
    ChunksSourceCount(src);
  }

  /**
   * A short write leaves a hole in the packet: with the payload 1,END,2 and
   * a first write that takes nothing, the later writes still go out, so the
   * wire carries ESC,'X',2,END and the count is 2 of 3.
   */
  lemma ShortWriteLeavesHole()
    ensures Chunks([1, END, 2]) == [[1], [ESC, ESC_END], [2]]
    ensures Delivered(Chunks([1, END, 2]) + [[END]], [0]) == [ESC, ESC_END, 2, END]
    ensures Credited(Chunks([1, END, 2]), [0]) == 2
  {
    ChunksOfRunThen([1], END);
    assert [1] + [END] == [1, END];
    assert [1, END, 2] == [1, END] + [2];
    ChunksAppend([1, END], [2]);
    assert FirstReserved([2]) == 1;
    assert Chunks([2]) == [[2]];
    assert Chunks([1, END, 2]) == [[1], [ESC, ESC_END], [2]];
    var cs: seq<seq<byte>> := [[1], [ESC, ESC_END], [2], [END]];
    assert Delivered(cs[3..], []) == [END];
    assert Delivered(cs[2..], []) == [2, END];
    assert Delivered(cs[1..], []) == [ESC, ESC_END, 2, END];
    assert cs == Chunks([1, END, 2]) + [[END]];
    assert Skip([0], 1) == [];
    assert Delivered(cs, [0]) == cs[0][..0] + Delivered(cs[1..], []);
    assert Credited([[2]], []) == 1;
    assert Credited([[ESC, ESC_END], [2]], []) == 2;
  }

  /** What readBytesUntil delivers from the pending input. */
  datatype Capture = Captured(bytes: seq<byte>, rest: seq<byte>) | CaptureFailed(err: int)

  /**
   * The reference transport's readBytesUntil: the bytes in front of the
   * first terminator, provided at most size of them precede it; ERROR_BUFFER
   * when more do, ERROR_TIMEOUT when no terminator has arrived.
   */
  function CaptureUntil(input: seq<byte>, size: nat, terminator: byte): (c: Capture)
    ensures c.Captured? ==> |c.bytes| <= size && input == c.bytes + [terminator] + c.rest
    ensures c.Captured? ==> forall i :: 0 <= i < |c.bytes| ==> c.bytes[i] != terminator
    ensures c.CaptureFailed? ==> c.err == ERROR_TIMEOUT || c.err == ERROR_BUFFER
    ensures c == CaptureFailed(ERROR_TIMEOUT) <==> forall i :: 0 <= i < |input| ==> input[i] != terminator
    ensures c == CaptureFailed(ERROR_BUFFER) <==>
              (exists i :: 0 <= i < |input| && input[i] == terminator)
              && forall i :: 0 <= i < |input| && i <= size ==> input[i] != terminator
    ensures c.Captured? <==> exists i :: 0 <= i < |input| && i <= size && input[i] == terminator
  {
    var k := IndexOf(input, terminator);
    if k == |input| then CaptureFailed(ERROR_TIMEOUT)
    else if k > size then CaptureFailed(ERROR_BUFFER)
    else
      assert input == input[..k] + [terminator] + input[k + 1..];
      Captured(input[..k], input[k + 1..])
  }

  /** A packet followed by anything is captured up to its END, and decodes back to its payload. */
  lemma FrameRoundTrip(p: seq<byte>, rest: seq<byte>, size: nat)
    requires |Escape(p)| <= size
    ensures CaptureUntil(Frame(p) + rest, size, END) == Captured(Escape(p), rest)
    ensures Unescape(CaptureUntil(Frame(p) + rest, size, END).bytes) == Scanned(p, false)
  {
    EscapeHasNoEnd(p);
    IndexOfAfterRun(Escape(p), END, rest);
    assert Frame(p) + rest == Escape(p) + [END] + rest;
    UnescapeEscape(p);
  }

  /**
   * The transport behind the SlipStream mixin (the derived class's
   * *_impl methods).  quota lists how many bytes each coming write accepts
   * (any write may be short, and a later one may go through again); past
   * the list writes go through in full.  Sent is everything written.
   * Input is the bytes already received.
   */
  class Transport {
    var ready: bool
    var quota: seq<nat>
    ghost var Sent: seq<byte>
    var pending: seq<byte>

    constructor (ready: bool, quota: seq<nat>, pending: seq<byte>)
      ensures this.ready == ready && this.quota == quota && this.pending == pending && Sent == []
    {
      this.ready := ready;
      this.quota := quota;
      this.pending := pending;
      Sent := [];
    }

    method WriteBytes(buffer: seq<byte>) returns (n: nat)
      modifies this
      ensures n == Accept(|buffer|, old(quota))
      ensures Sent == old(Sent) + buffer[..n] && quota == Skip(old(quota), 1)
      ensures ready == old(ready) && pending == old(pending)
    {
      n := Accept(|buffer|, quota);
      Sent := Sent + buffer[..n];
      quota := Skip(quota, 1);
    }

    method ReadBytesUntil(buffer: array<byte>, size: nat, terminator: byte) returns (err: int, nread: nat)
      requires size <= buffer.Length
      modifies this, buffer
      ensures ready == old(ready) && quota == old(quota) && Sent == old(Sent)
      ensures var c := CaptureUntil(old(pending), size, terminator);
              if c.Captured? then
                err == NO_ERROR && nread == |c.bytes| && pending == c.rest
                && buffer[..nread] == c.bytes && buffer[nread..] == old(buffer[nread..])
              else
                err == c.err && nread == 0 && pending == old(pending) && buffer[..] == old(buffer[..])
    {
      var c := CaptureUntil(pending, size, terminator);
      if c.CaptureFailed? {
        return c.err, 0;
      }
      nread := |c.bytes|;
      for i := 0 to nread
        modifies buffer
        invariant forall j :: 0 <= j < i ==> buffer[j] == c.bytes[j]
        invariant forall j :: i <= j < buffer.Length ==> buffer[j] == old(buffer[j])
      {
        buffer[i] := c.bytes[i];
      }
      pending := c.rest;
      err := NO_ERROR;
    }

    method HasBytes() returns (b: bool)
      ensures b <==> pending != []
    {
      b := pending != [];
    }

    /** Nothing is held back in the sink, so flushing changes nothing. */
    method WriteNow()
    {
    }

    method ClearInput()
      modifies this
      ensures pending == [] && ready == old(ready) && quota == old(quota) && Sent == old(Sent)
    {
      pending := [];
    }

    method IsStreamReady() returns (b: bool)
      ensures b == ready
    {
      b := ready;
    }
  }

  /** What readSlipEscaped returns: its error_t and nread, or a read outside dest. */
  datatype ReadResult = Status(err: int, nread: nat) | UndefinedRead

  /** The SlipStream mixin, bound to its transport. */
  class SlipStream {
    const io: Transport

    constructor (io: Transport)
      ensures this.io == io
    {
      this.io := io;
    }

    method WriteBytes(buffer: seq<byte>) returns (n: nat)
      modifies io
      ensures n == Accept(|buffer|, old(io.quota))
      ensures io.Sent == old(io.Sent) + buffer[..n] && io.quota == Skip(old(io.quota), 1)
      ensures io.ready == old(io.ready) && io.pending == old(io.pending)
    {
      n := io.WriteBytes(buffer);
    }

    method ReadBytesUntil(buffer: array<byte>, size: nat, terminator: byte) returns (err: int, nread: nat)
      requires size <= buffer.Length
      modifies io, buffer
      ensures io.ready == old(io.ready) && io.quota == old(io.quota) && io.Sent == old(io.Sent)
      ensures var c := CaptureUntil(old(io.pending), size, terminator);
              if c.Captured? then
                err == NO_ERROR && nread == |c.bytes| && io.pending == c.rest
                && buffer[..nread] == c.bytes && buffer[nread..] == old(buffer[nread..])
              else
                err == c.err && nread == 0 && io.pending == old(io.pending) && buffer[..] == old(buffer[..])
    {
      err, nread := io.ReadBytesUntil(buffer, size, terminator);
    }

    method HasBytes() returns (b: bool)
      ensures b <==> io.pending != []
    {
      b := io.HasBytes();
    }

    method WriteNow()
    {
      io.WriteNow();
    }

    method ClearInput()
      modifies io
      ensures io.pending == [] && io.ready == old(io.ready) && io.quota == old(io.quota) && io.Sent == old(io.Sent)
    {
      io.ClearInput();
    }

    method IsStreamReady() returns (b: bool)
      ensures b == io.ready
    {
      b := io.IsStreamReady();
    }

    /**
     * writeBytes as writeSlipEscaped uses it: with issued the writes made
     * before for this packet, the wire and the quota then account for
     * issued + [chunk].
     */
    method Emit(chunk: seq<byte>, ghost issued: seq<seq<byte>>, ghost q0: seq<nat>, ghost sent0: seq<byte>)
      returns (n: nat)
      requires io.Sent == sent0 + Delivered(issued, q0) && io.quota == Skip(q0, |issued|)
      modifies io
      ensures io.Sent == sent0 + Delivered(issued + [chunk], q0) && io.quota == Skip(q0, |issued + [chunk]|)
      ensures n == Accept(|chunk|, Skip(q0, |issued|))
      ensures Credited(issued + [chunk], q0) == Credited(issued, q0) + Credit(chunk, n)
      ensures io.ready == old(io.ready) && io.pending == old(io.pending)
    {
      DeliveredAppend(issued, chunk, q0);
      SkipSkip(q0, |issued|, 1);
      n := WriteBytes(chunk);
    }

    /** Writes a run of ordinary bytes, when there is one; k is what it adds to the count. */
    method FlushRun(run: seq<byte>, ghost issued: seq<seq<byte>>, ghost q0: seq<nat>, ghost sent0: seq<byte>)
      returns (k: nat, ghost issued': seq<seq<byte>>)
      requires forall i :: 0 <= i < |run| ==> !Reserved(run[i])
      requires io.Sent == sent0 + Delivered(issued, q0) && io.quota == Skip(q0, |issued|)
      modifies io
      ensures issued' == issued + (if 0 < |run| then [run] else [])
      ensures io.Sent == sent0 + Delivered(issued', q0) && io.quota == Skip(q0, |issued'|)
      ensures Credited(issued', q0) == Credited(issued, q0) + k
      ensures io.ready == old(io.ready) && io.pending == old(io.pending)
    {
      if 0 < |run| {
        assert !IsEscapePair(run) by { assert !Reserved(run[0]); }
        k := Emit(run, issued, q0, sent0);
        issued' := issued + [run];
      } else {
        k, issued' := 0, issued;
      }
    }

    /** Writes the escape of a reserved byte; k is 1 when both bytes went out, else 0. */
    method WriteEscape(b: byte, ghost issued: seq<seq<byte>>, ghost q0: seq<nat>, ghost sent0: seq<byte>)
      returns (k: nat, ghost issued': seq<seq<byte>>)
      requires Reserved(b)
      requires io.Sent == sent0 + Delivered(issued, q0) && io.quota == Skip(q0, |issued|)
      modifies io
      ensures issued' == issued + [EscapeByte(b)]
      ensures io.Sent == sent0 + Delivered(issued', q0) && io.quota == Skip(q0, |issued'|)
      ensures Credited(issued', q0) == Credited(issued, q0) + k
      ensures io.ready == old(io.ready) && io.pending == old(io.pending)
    {
      var n;
      if b == END {
        n := Emit([ESC, ESC_END], issued, q0, sent0);
      } else {
        n := Emit([ESC, ESC_ESC], issued, q0, sent0);
      }
      k := if n == 2 then 1 else 0;
      issued' := issued + [EscapeByte(b)];
    }

    /**
     * writeSlipEscaped: transmit src as one packet, as the writes
     * Chunks(src) followed by END.  The wire receives the accepted front of
     * each write, and the result is the count Credited gives: the bytes
     * each run write took, and one for each escape written in full.
     */
    method WriteSlipEscaped(src: seq<byte>) returns (ntx: nat)
      modifies io
      ensures io.ready == old(io.ready) && io.pending == old(io.pending)
      ensures !old(io.ready) ==> ntx == 0 && io.Sent == old(io.Sent) && io.quota == old(io.quota)
      ensures old(io.ready) ==>
                io.Sent == old(io.Sent) + Delivered(Chunks(src) + [[END]], old(io.quota))
                && io.quota == Skip(old(io.quota), |Chunks(src)| + 1)
                && ntx == Credited(Chunks(src), old(io.quota))
                && ntx <= |src|
                && (InFull(Chunks(src) + [[END]], old(io.quota)) ==> io.Sent == old(io.Sent) + Frame(src) && ntx == |src|)
    {
      var ready := IsStreamReady();
      if !ready {
        return 0;
      }
      ghost var q0, sent0 := io.quota, io.Sent;
      ghost var issued: seq<seq<byte>> := [];   // the writes made so far for this packet
      var start: nat, end: nat, remaining: nat := 0, 0, |src|;
      ntx := 0;
      while remaining > 0
        invariant start <= end && end + remaining == |src|
        invariant start == 0 || Reserved(src[start - 1])
        invariant forall i :: start <= i < end ==> !Reserved(src[i])
        invariant issued == Chunks(src[..start])
        invariant io.Sent == sent0 + Delivered(issued, q0) && io.quota == Skip(q0, |issued|)
        invariant ntx == Credited(issued, q0)
        invariant io.ready == old(io.ready) && io.pending == old(io.pending)
        decreases remaining
      {
        remaining := remaining - 1;
        if src[end] == END || src[end] == ESC {
          var k;
          k, issued := WriteThrough(src, start, end, issued, q0, sent0);
          ntx := ntx + k;
          end := end + 1;
          start := end;
        } else {
          end := end + 1;
        }
      }
      // write any remaining bytes
      var k := Finish(src, start, issued, q0, sent0);
      ntx := ntx + k;
      CreditedAtMostPayload(src, q0);
      if InFull(Chunks(src) + [[END]], q0) {
        WireInFull(src, q0);
      }
    }

    /**
     * One reserved byte src[end] of writeSlipEscaped: the run before it,
     * then its escape; afterwards the writes issued are those of
     * src[..end + 1].
     */
    method WriteThrough(src: seq<byte>, start: nat, end: nat, ghost issued: seq<seq<byte>>,
                        ghost q0: seq<nat>, ghost sent0: seq<byte>)
      returns (k: nat, ghost issued': seq<seq<byte>>)
      requires start <= end < |src| && (start == 0 || Reserved(src[start - 1]))
      requires (forall i :: start <= i < end ==> !Reserved(src[i])) && Reserved(src[end])
      requires issued == Chunks(src[..start])
      requires io.Sent == sent0 + Delivered(issued, q0) && io.quota == Skip(q0, |issued|)
      modifies io
      ensures issued' == Chunks(src[..end + 1])
      ensures io.Sent == sent0 + Delivered(issued', q0) && io.quota == Skip(q0, |issued'|)
      ensures Credited(issued', q0) == Credited(issued, q0) + k
      ensures io.ready == old(io.ready) && io.pending == old(io.pending)
    {
      ChunksStep(src, start, end);
      var k1, k2;
      ghost var mid;
      k1, mid := FlushRun(src[start..end], issued, q0, sent0);
      k2, issued' := WriteEscape(src[end], mid, q0, sent0);
      k := k1 + k2;
    }

    /** The end of writeSlipEscaped: the last run, then END; k is what the run adds to the count. */
    /** The bytes from start on, none of them reserved, form a plain run. */
    static lemma PlainTail(src: seq<byte>, start: nat)
      requires start <= |src|
      requires forall i :: start <= i < |src| ==> !Reserved(src[i])
      ensures forall i :: 0 <= i < |src[start..]| ==> !Reserved(src[start..][i])
    {
      forall i | 0 <= i < |src[start..]| ensures !Reserved(src[start..][i]) {
        assert src[start..][i] == src[start + i];
      }
    }

    method Finish(src: seq<byte>, start: nat, ghost issued: seq<seq<byte>>, ghost q0: seq<nat>, ghost sent0: seq<byte>)
      returns (k: nat)
      requires start <= |src| && (start == 0 || Reserved(src[start - 1]))
      requires forall i :: start <= i < |src| ==> !Reserved(src[i])
      requires issued == Chunks(src[..start])
      requires io.Sent == sent0 + Delivered(issued, q0) && io.quota == Skip(q0, |issued|)
      modifies io
      ensures io.Sent == sent0 + Delivered(Chunks(src) + [[END]], q0) && io.quota == Skip(q0, |Chunks(src)| + 1)
      ensures Credited(Chunks(src), q0) == Credited(issued, q0) + k
      ensures io.ready == old(io.ready) && io.pending == old(io.pending)
    {
      ChunksTail(src, start);
      var run := src[start..];
      PlainTail(src, start);
      ghost var all;
      k, all := FlushRun(run, issued, q0, sent0);
      assert all == Chunks(src);
      var _ := Emit([END], all, q0, sent0);
    }

    /**
     * readSlipEscaped: capture up to END with capacity dest_size - 1, then
     * collapse escape pairs in place with the loop as written
     * (CollapseEscapes).  UndefinedRead stands for a read past dest.
     */
    method ReadSlipEscaped(dest: array<byte>, nread0: nat) returns (res: ReadResult)
      requires 0 < dest.Length <= SIZE_MAX
      modifies io, dest
      ensures io.ready == old(io.ready) && io.quota == old(io.quota) && io.Sent == old(io.Sent)
      ensures !old(io.ready) ==>
                res == Status(ERROR_STREAM, nread0) && io.pending == old(io.pending) && dest[..] == old(dest[..])
      ensures old(io.ready) ==>
                var c := CaptureUntil(old(io.pending), dest.Length - 1, END);
                (c.CaptureFailed? ==>
                   res == Status(c.err, 0) && io.pending == old(io.pending) && dest[..] == old(dest[..]))
                && (c.Captured? ==>
                      io.pending == c.rest
                      && (c.bytes == [] ==> res == Status(ERROR_TIMEOUT, 0) && dest[..] == old(dest[..]))
                      && (c.bytes != [] ==>
                            var n := |c.bytes|;
                            var d := DecodeFrom(c.bytes + old(dest[n..]), 0, n);
                            (d.Overrun? <==> res.UndefinedRead?)
                            && (d.Scanned? ==>
                                  res == Status(if d.misread then ERROR_ENCODING else NO_ERROR, n)
                                  && dest[..n] == d.out && dest[n..] == old(dest[n..]))))
    {
      var ready := IsStreamReady();
      if !ready {
        return Status(ERROR_STREAM, nread0);
      }
      // leave room for END at the end of the buffer
      var err, nread := ReadBytesUntil(dest, CaptureCapacity(dest.Length), END);
      if err != NO_ERROR {
        return Status(err, nread);
      }
      if nread == 0 {
        return Status(ERROR_TIMEOUT, nread);
      }
      assert dest[..] == dest[..nread] + dest[nread..];
      var nrx, misread, overrun := CollapseEscapes(dest, nread);
      if overrun {
        return UndefinedRead;
      }
      nread := nrx;
      if nrx == 0 || misread {
        return Status(ERROR_ENCODING, nread);
      }
      return Status(NO_ERROR, nread);
    }
  }

  /**
   * The in-place loop of readSlipEscaped (slipstream.h:178-203) as written:
   * read index r (src), write index w (dest), counter remaining, and nrx.
   * The write index never passes the read index, so the pass reads the
   * buffer as it was; overrun reports a read outside dest, where the
   * source has undefined behaviour.
   */
  method CollapseEscapes(dest: array<byte>, nread: nat) returns (nrx: nat, misread: bool, overrun: bool)
    requires nread <= dest.Length
    modifies dest
    ensures var d := DecodeFrom(old(dest[..]), 0, nread);
            overrun == d.Overrun?
            && (d.Scanned? ==>
                  nrx == nread && misread == d.misread
                  && dest[..nread] == d.out && dest[nread..] == old(dest[nread..]))
  {
    ghost var buf := dest[..];
    DecodeKeepsCount(buf, 0, nread);
    var r: nat, w: nat, remaining: nat := 0, 0, nread;
    nrx, misread, overrun := 0, false, false;
    while remaining > 0
      invariant w == nrx && w <= r && w + remaining == nread
      invariant forall i :: w <= i < dest.Length ==> dest[i] == buf[i]
      invariant DecodeFrom(buf, 0, nread) == Then(dest[..w], misread, DecodeFrom(buf, r, remaining))
      decreases remaining
    {
      remaining := remaining - 1;
      if r >= dest.Length {
        return nrx, misread, true;
      }
      ghost var m0, stepMisread, rest := misread, false, DecodeFrom(buf, r + 1, remaining);
      if dest[r] == ESC {
        if remaining > 0 && r + 1 >= dest.Length {
          return nrx, misread, true;
        }
        if remaining > 0 && dest[r + 1] == ESC_END {
          dest[w] := END;
          r := r + 1;
          rest := DecodeFrom(buf, r + 1, remaining);
        } else if remaining > 0 && dest[r + 1] == ESC_ESC {
          dest[w] := ESC;
          r := r + 1;
          rest := DecodeFrom(buf, r + 1, remaining);
        } else {
          dest[w] := ESC;
          misread := true;
          stepMisread := true;
        }
      } else {
        dest[w] := dest[r];
      }
      ThenThen(dest[..w], m0, [dest[w]], stepMisread, rest);
      assert dest[..w + 1] == dest[..w] + [dest[w]];
      r := r + 1;
      w := w + 1;
      nrx := nrx + 1;
    }
    assert dest[nread..] == buf[nread..];
  }

  /**
   * The unescaping loop of readSlipEscaped as its documentation intends it:
   * the counter drops once per consumed input byte, so an escape pair uses
   * up two, the pass stays inside the captured run and its result is
   * Unescape of that run.
   */
  method UnescapeInPlace(dest: array<byte>, nread: nat) returns (nrx: nat, misread: bool)
    requires nread <= dest.Length
    modifies dest
    ensures nrx <= nread
    ensures Unescape(old(dest[..nread])) == Scanned(dest[..nrx], misread)
    ensures dest[nread..] == old(dest[nread..])
  {
    ghost var s := dest[..nread];
    var r: nat, w: nat, remaining: nat := 0, 0, nread;
    nrx, misread := 0, false;
    while remaining > 0
      invariant w == nrx <= r && r + remaining == nread
      invariant forall i :: r <= i < nread ==> dest[i] == s[i]
      invariant dest[nread..] == old(dest[nread..])
      invariant Unescape(s) == Then(dest[..w], misread, Unescape(s[r..]))
      decreases remaining
    {
      var used;
      used, misread := UnescapeOne(dest, r, w, nread, misread, s);
      r := r + used;
      remaining := remaining - used;
      w := w + 1;
      nrx := nrx + 1;
    }
    assert s[r..] == [];
  }

  /**
   * One step of UnescapeInPlace: decodes the byte or escape pair at r of the
   * captured run s (still in dest from r on) into dest[w], says how many
   * input bytes it used, and keeps the loop's account of Unescape(s).
   */
  method UnescapeOne(dest: array<byte>, r: nat, w: nat, nread: nat, misread: bool, ghost s: seq<byte>)
    returns (used: nat, misread': bool)
    requires w <= r < nread <= dest.Length && |s| == nread
    requires forall i :: r <= i < nread ==> dest[i] == s[i]
    requires Unescape(s) == Then(dest[..w], misread, Unescape(s[r..]))
    modifies dest
    ensures 1 <= used <= nread - r
    ensures Unescape(s) == Then(dest[..w + 1], misread', Unescape(s[r + used..]))
    ensures forall i :: r + used <= i < nread ==> dest[i] == s[i]
    ensures dest[nread..] == old(dest[nread..])
  {
    ghost var pre := dest[..w];
    UnescapeAt(s, r);
    var step := false;
    used := 1;
    if dest[r] == ESC {
      if r + 1 < nread && dest[r + 1] == ESC_END {
        dest[w] := END;
        used := 2;
      } else if r + 1 < nread && dest[r + 1] == ESC_ESC {
        dest[w] := ESC;
        used := 2;
      } else {
        dest[w] := ESC;
        step := true;
      }
    } else {
      dest[w] := dest[r];
    }
    misread' := misread || step;
    ThenThen(pre, misread, [dest[w]], step, Unescape(s[r + used..]));
    assert dest[..w + 1] == pre + [dest[w]];
  }
}
