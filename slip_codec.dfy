/**
 * The byte-stuffing scheme of the serial framing layer (slipstream.h): the
 * reserved bytes, the error codes, the escaping of a payload, the decoding
 * loop of readSlipEscaped exactly as it is written, and the decoding the
 * documentation promises.  Everything here is pure; the stateful stream
 * operations live in module SlipStream.
 */
module SlipCodec {

  import opened Bytes

  // Reserved bytes: printable stand-ins for the classic SLIP octets
  // 0300, 0333, 0334 and 0335 of RFC 1055.
  const END: byte := 35       // '#'  end of packet
  const ESC: byte := 92       // '\\' escape
  const ESC_END: byte := 88   // 'X'  escaped end
  const ESC_ESC: byte := 69   // 'E'  escaped escape

  // error_t values
  const NO_ERROR: int := 0
  const ERROR_TIMEOUT: int := -1
  const ERROR_BUFFER: int := -2
  const ERROR_STREAM: int := -3
  const ERROR_ENCODING: int := -4

  // Largest value of the 64-bit size_t.
  const SIZE_MAX: nat := 0xFFFF_FFFF_FFFF_FFFF

  /** The reserved bytes are the printable characters the header names, and all four differ. */
  lemma ReservedBytes()
    ensures END as char == '#' && ESC as char == '\\' && ESC_END as char == 'X' && ESC_ESC as char == 'E'
    ensures END != ESC && END != ESC_END && END != ESC_ESC
    ensures ESC != ESC_END && ESC != ESC_ESC && ESC_END != ESC_ESC
  {
  }

  /** The capacity readSlipEscaped hands to readBytesUntil: dest_size - 1 in size_t arithmetic. */
  function CaptureCapacity(destSize: nat): (c: nat)
    requires destSize <= SIZE_MAX
    ensures c <= SIZE_MAX
    ensures 0 < destSize ==> c + 1 == destSize
    ensures destSize == 0 ==> c == SIZE_MAX
  {
    (destSize - 1) % (SIZE_MAX + 1)
  }

  predicate Reserved(b: byte) {
    b == END || b == ESC
  }

  /** What writeSlipEscaped transmits for one source byte. */
  function EscapeByte(b: byte): seq<byte> {
    if b == END then [ESC, ESC_END]
    else if b == ESC then [ESC, ESC_ESC]
    else [b]
  }

  /** The escaped payload: every END and ESC replaced by its two-byte escape. */
  function Escape(s: seq<byte>): seq<byte> {
    if s == [] then [] else EscapeByte(s[0]) + Escape(s[1..])
  }

  /** A whole packet on the wire: the escaped payload and one END. */
  function Frame(s: seq<byte>): seq<byte> {
    Escape(s) + [END]
  }

  lemma {:induction false} EscapeAppend(a: seq<byte>, b: seq<byte>)
    ensures Escape(a + b) == Escape(a) + Escape(b)
  {
    if a == [] {
      assert a + b == b;
    } else {
      assert (a + b)[1..] == a[1..] + b;
      EscapeAppend(a[1..], b);
    }
  }

  /** A run with no reserved byte is transmitted unchanged. */
  lemma {:induction false} EscapePlain(s: seq<byte>)
    requires forall i :: 0 <= i < |s| ==> !Reserved(s[i])
    ensures Escape(s) == s
  {
    if s != [] {
      EscapePlain(s[1..]);
    }
  }

  /** Escaping at least keeps, at most doubles, the length. */
  lemma {:induction false} EscapeLength(s: seq<byte>)
    ensures |s| <= |Escape(s)| <= 2 * |s|
    ensures |Escape(s)| == |s| <==> forall i :: 0 <= i < |s| ==> !Reserved(s[i])
  {
    if s != [] {
      EscapeLength(s[1..]);
      assert forall i :: 1 <= i < |s| ==> s[i] == s[1..][i - 1];
    }
  }

  /** The escaped payload never contains END. */
  lemma {:induction false} EscapeHasNoEnd(s: seq<byte>)
    ensures forall i :: 0 <= i < |Escape(s)| ==> Escape(s)[i] != END
  {
    if s != [] {
      EscapeHasNoEnd(s[1..]);
      var h := EscapeByte(s[0]);
      assert Escape(s) == h + Escape(s[1..]);
      forall i | 0 <= i < |Escape(s)| ensures Escape(s)[i] != END {
        if i >= |h| {
          assert Escape(s)[i] == Escape(s[1..])[i - |h|];
        }
      }
    }
  }

  /** The escaped form of a longer prefix, once a run of ordinary bytes is added. */
  lemma EscapeRun(src: seq<byte>, start: nat, end: nat)
    requires start <= end <= |src|
    requires forall i :: start <= i < end ==> !Reserved(src[i])
    ensures Escape(src[..end]) == Escape(src[..start]) + src[start..end]
  {
    assert src[..end] == src[..start] + src[start..end];
    assert forall i :: 0 <= i < end - start ==> src[start..end][i] == src[start + i];
    EscapePlain(src[start..end]);
    EscapeAppend(src[..start], src[start..end]);
  }

  /** The escaped form of a longer prefix, once one more byte is added. */
  lemma EscapeNext(src: seq<byte>, i: nat)
    requires i < |src|
    ensures Escape(src[..i + 1]) == Escape(src[..i]) + EscapeByte(src[i])
  {
    assert src[..i + 1] == src[..i] + [src[i]];
    EscapeAppend(src[..i], [src[i]]);
    assert Escape([src[i]]) == EscapeByte(src[i]) + Escape([]);
  }

  /** In a packet END is the last byte and appears nowhere else. */
  lemma FrameEndOnlyAtTail(s: seq<byte>)
    ensures |Frame(s)| > 0 && Frame(s)[|Frame(s)| - 1] == END
    ensures forall i :: 0 <= i < |Frame(s)| - 1 ==> Frame(s)[i] != END
  {
    EscapeHasNoEnd(s);
    assert forall i :: 0 <= i < |Frame(s)| - 1 ==> Frame(s)[i] == Escape(s)[i];
  }

  // ---------------------------------------------------------------------
  // The writes of writeSlipEscaped

  /** Index of the first END or ESC in s, or |s| when there is none. */
  function FirstReserved(s: seq<byte>): (k: nat)
    ensures k <= |s|
    ensures k < |s| ==> Reserved(s[k])
    ensures forall i :: 0 <= i < k ==> !Reserved(s[i])
  {
    if s == [] then 0
    else if Reserved(s[0]) then 0
    else 1 + FirstReserved(s[1..])
  }

  /**
   * The writes writeSlipEscaped issues for a payload before its final END:
   * each maximal run of ordinary bytes, and the two-byte escape of each
   * reserved byte, in order.
   */
  function Chunks(s: seq<byte>): seq<seq<byte>>
    decreases |s|
  {
    var k := FirstReserved(s);
    if k == |s| then (if s == [] then [] else [s])
    else (if 0 < k then [s[..k]] else []) + [EscapeByte(s[k])] + Chunks(s[k + 1..])
  }

  function Flatten(cs: seq<seq<byte>>): seq<byte> {
    if cs == [] then [] else cs[0] + Flatten(cs[1..])
  }

  predicate IsEscapePair(c: seq<byte>) {
    c == [ESC, ESC_END] || c == [ESC, ESC_ESC]
  }

  predicate IsRun(c: seq<byte>) {
    c != [] && forall i :: 0 <= i < |c| ==> !Reserved(c[i])
  }

  /** How many payload bytes the writes cs stand for: a run its length, an escape one byte. */
  function SourceCount(cs: seq<seq<byte>>): nat {
    if cs == [] then 0
    else (if IsEscapePair(cs[0]) then 1 else |cs[0]|) + SourceCount(cs[1..])
  }

  lemma {:induction false} FlattenAppend(xs: seq<seq<byte>>, ys: seq<seq<byte>>)
    ensures Flatten(xs + ys) == Flatten(xs) + Flatten(ys)
  {
    if xs == [] {
      assert xs + ys == ys;
    } else {
      assert (xs + ys)[1..] == xs[1..] + ys;
      FlattenAppend(xs[1..], ys);
    }
  }

  lemma {:induction false} SourceCountAppend(xs: seq<seq<byte>>, ys: seq<seq<byte>>)
    ensures SourceCount(xs + ys) == SourceCount(xs) + SourceCount(ys)
  {
    if xs == [] {
      assert xs + ys == ys;
    } else {
      assert (xs + ys)[1..] == xs[1..] + ys;
      SourceCountAppend(xs[1..], ys);
    }
  }

  /** The writes, put together, are the escaped payload. */
  lemma {:induction false} ChunksFlatten(s: seq<byte>)
    ensures Flatten(Chunks(s)) == Escape(s)
    decreases |s|
  {
    var k := FirstReserved(s);
    if k == |s| {
      EscapePlain(s);
      if s != [] {
        assert Flatten([s]) == s + Flatten([]);
      }
    } else {
      var pre: seq<seq<byte>> := if 0 < k then [s[..k]] else [];
      var e, tail := EscapeByte(s[k]), s[k + 1..];
      ChunksAt(s, k);
      ChunksFlatten(tail);
      EscapeAtReserved(s, k);
      FlattenFront(pre, e, Chunks(tail), s[..k]);
    }
  }

  /** Escaping splits at the first reserved byte k of s. */
  lemma EscapeAtReserved(s: seq<byte>, k: nat)
    requires k == FirstReserved(s) && k < |s|
    ensures Escape(s) == s[..k] + EscapeByte(s[k]) + Escape(s[k + 1..])
  {
    SplitAt(s, k);
    EscapeAppend(s[..k], s[k..]);
    PlainSlice(s, 0, k);
    assert s[0..k] == s[..k];
    EscapePlain(s[..k]);
  }

  lemma SplitAt(s: seq<byte>, k: nat)
    requires k < |s|
    ensures s == s[..k] + s[k..] && s[k..][0] == s[k] && s[k..][1..] == s[k + 1..]
  {
  }

  lemma FlattenFront(pre: seq<seq<byte>>, e: seq<byte>, rest: seq<seq<byte>>, run: seq<byte>)
    requires pre == (if 0 < |run| then [run] else [])
    ensures Flatten(pre + [e] + rest) == run + e + Flatten(rest)
  {
    FlattenAppend(pre + [e], rest);
    FlattenAppend(pre, [e]);
    assert Flatten([e]) == e + Flatten([]);
    if 0 < |run| {
      assert Flatten(pre) == run + Flatten([]);
    }
  }

  /** Every write is a run of ordinary bytes or an escape pair. */
  lemma {:induction false} ChunksShape(s: seq<byte>)
    ensures forall i :: 0 <= i < |Chunks(s)| ==> IsRun(Chunks(s)[i]) || IsEscapePair(Chunks(s)[i])
    decreases |s|
  {
    var k := FirstReserved(s);
    if k < |s| {
      ChunksShape(s[k + 1..]);
      var pre: seq<seq<byte>> := if 0 < k then [s[..k]] else [];
      assert Chunks(s) == pre + [EscapeByte(s[k])] + Chunks(s[k + 1..]);
      forall i | 0 <= i < |Chunks(s)| ensures IsRun(Chunks(s)[i]) || IsEscapePair(Chunks(s)[i]) {
        if i >= |pre| + 1 {
          assert Chunks(s)[i] == Chunks(s[k + 1..])[i - |pre| - 1];
        }
      }
    }
  }

  /** The writes stand for the whole payload, one source byte per escape. */
  lemma {:induction false} ChunksSourceCount(s: seq<byte>)
    ensures SourceCount(Chunks(s)) == |s|
    decreases |s|
  {
    var k := FirstReserved(s);
    if k == |s| {
      if s != [] {
        assert SourceCount([s]) == |s| + SourceCount([]);
      }
    } else {
      var pre: seq<seq<byte>> := if 0 < k then [s[..k]] else [];
      assert SourceCount(pre) == k by {
        if 0 < k {
          assert s[..k][0] == s[0];
          assert SourceCount(pre) == k + SourceCount([]);
        }
      }
      assert SourceCount([EscapeByte(s[k])]) == 1 + SourceCount([]);
      ChunksSourceCount(s[k + 1..]);
      SourceCountAppend(pre + [EscapeByte(s[k])], Chunks(s[k + 1..]));
      SourceCountAppend(pre, [EscapeByte(s[k])]);
    }
  }

  lemma FirstReservedAppend(a: seq<byte>, b: seq<byte>)
    requires FirstReserved(a) < |a|
    ensures FirstReserved(a + b) == FirstReserved(a)
  {
    var k, m := FirstReserved(a), FirstReserved(a + b);
    assert (a + b)[k] == a[k];
    if m < k {
      assert (a + b)[m] == a[m];
    }
  }

  /** One step of Chunks, at the first reserved byte k of s. */
  lemma ChunksAt(s: seq<byte>, k: nat)
    requires k == FirstReserved(s) && k < |s|
    ensures Chunks(s) == (if 0 < k then [s[..k]] else []) + [EscapeByte(s[k])] + Chunks(s[k + 1..])
  {
  }

  /** The writes of a payload split after a reserved byte are the writes of each part. */
  lemma {:induction false} ChunksAppend(a: seq<byte>, b: seq<byte>)
    requires a == [] || Reserved(a[|a| - 1])
    ensures Chunks(a + b) == Chunks(a) + Chunks(b)
    decreases |a|
  {
    if a == [] {
      assert a + b == b;
    } else {
      var k := FirstReserved(a);
      var tail := a[k + 1..];
      var P: seq<seq<byte>> := (if 0 < k then [a[..k]] else []) + [EscapeByte(a[k])];
      assert tail == [] || Reserved(tail[|tail| - 1]);
      ChunksAppend(tail, b);
      ChunksAt(a, k);
      ChunksAtAppend(a, b, k);
      Rejoin(Chunks(a + b), Chunks(a), P, Chunks(tail), Chunks(tail + b), Chunks(b));
    }
  }

  /** Concatenation regrouped: if x == p + (t + r) and y == p + t, then x == y + r. */
  lemma Rejoin<T>(x: seq<T>, y: seq<T>, p: seq<T>, t: seq<T>, tr: seq<T>, r: seq<T>)
    requires x == p + tr && tr == t + r && y == p + t
    ensures x == y + r
  {
  }

  /** Where a holds a reserved byte, a + b starts with the same writes as a. */
  lemma ChunksAtAppend(a: seq<byte>, b: seq<byte>, k: nat)
    requires k == FirstReserved(a) && k < |a|
    ensures Chunks(a + b) == (if 0 < k then [a[..k]] else []) + [EscapeByte(a[k])] + Chunks(a[k + 1..] + b)
  {
    FirstReservedAppend(a, b);
    var ab := a + b;
    assert ab[..k] == a[..k] && ab[k] == a[k];
    assert ab[k + 1..] == a[k + 1..] + b;
    ChunksAt(ab, k);
  }

  /** The writes for a run of ordinary bytes followed by one reserved byte. */
  lemma ChunksOfRunThen(run: seq<byte>, x: byte)
    requires (forall i :: 0 <= i < |run| ==> !Reserved(run[i])) && Reserved(x)
    ensures Chunks(run + [x]) == (if 0 < |run| then [run] else []) + [EscapeByte(x)]
  {
    RunThenShape(run, x);
    ChunksAt(run + [x], |run|);
  }

  lemma RunThenShape(run: seq<byte>, x: byte)
    requires (forall i :: 0 <= i < |run| ==> !Reserved(run[i])) && Reserved(x)
    ensures FirstReserved(run + [x]) == |run|
    ensures (run + [x])[..|run|] == run && (run + [x])[|run|] == x && (run + [x])[|run| + 1..] == []
  {
    var s := run + [x];
    assert s[|run|] == x;
    assert forall i :: 0 <= i < |run| ==> s[i] == run[i];
    assert s[..|run|] == run;
  }

  /** The writes of a longer prefix, after the run src[start..end] and the reserved byte src[end]. */
  lemma ChunksStep(src: seq<byte>, start: nat, end: nat)
    requires start <= end < |src| && (start == 0 || Reserved(src[start - 1]))
    requires (forall i :: start <= i < end ==> !Reserved(src[i])) && Reserved(src[end])
    ensures Chunks(src[..end + 1]) ==
              Chunks(src[..start]) + (if start < end then [src[start..end]] else []) + [EscapeByte(src[end])]
  {
    var head, run := src[..start], src[start..end];
    PrefixThrough(src, start, end);
    PlainSlice(src, start, end);
    ChunksAppend(head, run + [src[end]]);
    ChunksOfRunThen(run, src[end]);
  }

  lemma PrefixThrough(src: seq<byte>, start: nat, end: nat)
    requires start <= end < |src|
    ensures src[..end + 1] == src[..start] + (src[start..end] + [src[end]])
  {
  }

  lemma PlainSlice(src: seq<byte>, start: nat, end: nat)
    requires start <= end <= |src| && forall i :: start <= i < end ==> !Reserved(src[i])
    ensures forall i :: 0 <= i < |src[start..end]| ==> !Reserved(src[start..end][i])
  {
  }

  /** The writes of the whole payload, once the last run src[start..] holds no reserved byte. */
  lemma ChunksTail(src: seq<byte>, start: nat)
    requires start <= |src| && (start == 0 || Reserved(src[start - 1]))
    requires forall i :: start <= i < |src| ==> !Reserved(src[i])
    ensures Chunks(src) == Chunks(src[..start]) + (if start < |src| then [src[start..]] else [])
  {
    assert src == src[..start] + src[start..];
    ChunksAppend(src[..start], src[start..]);
    var run := src[start..];
    assert forall i :: 0 <= i < |run| ==> !Reserved(run[i]);
    assert FirstReserved(run) == |run|;
  }

  // ---------------------------------------------------------------------
  // Decoding

  /**
   * The outcome of a decoding pass over a captured run: the bytes written
   * to the front of dest and the misread flag, or Overrun when the pass
   * reads a byte outside dest (undefined behaviour in the source).
   */
  datatype Scan = Scanned(out: seq<byte>, misread: bool) | Overrun

  /** Put one step's output in front of the rest of a pass. */
  function Then(prefix: seq<byte>, misread: bool, rest: Scan): Scan {
    match rest
    case Overrun => Overrun
    case Scanned(out, m) => Scanned(prefix + out, misread || m)
  }

  lemma ThenThen(a: seq<byte>, ma: bool, b: seq<byte>, mb: bool, rest: Scan)
    ensures Then(a, ma, Then(b, mb, rest)) == Then(a + b, ma || mb, rest)
  {
    if rest.Scanned? {
      assert a + (b + rest.out) == (a + b) + rest.out;
    }
  }

  /**
   * The loop of readSlipEscaped (slipstream.h:178-203) as written, over the
   * contents buf of the whole dest buffer: r is the read index (src),
   * remaining the loop counter.  The counter drops once per output byte,
   * while an escape pair moves r by two.
   */
  function DecodeFrom(buf: seq<byte>, r: nat, remaining: nat): Scan
    decreases remaining
  {
    if remaining == 0 then Scanned([], false)
    else if r >= |buf| then Overrun
    else if buf[r] != ESC then Then([buf[r]], false, DecodeFrom(buf, r + 1, remaining - 1))
    else if remaining - 1 > 0 && r + 1 >= |buf| then Overrun
    else if remaining - 1 > 0 && buf[r + 1] == ESC_END then Then([END], false, DecodeFrom(buf, r + 2, remaining - 1))
    else if remaining - 1 > 0 && buf[r + 1] == ESC_ESC then Then([ESC], false, DecodeFrom(buf, r + 2, remaining - 1))
    else Then([ESC], true, DecodeFrom(buf, r + 1, remaining - 1))
  }

  /** The pass writes exactly one byte per iteration, so nread comes back unchanged. */
  lemma {:induction false} DecodeKeepsCount(buf: seq<byte>, r: nat, remaining: nat)
    ensures DecodeFrom(buf, r, remaining).Scanned? ==> |DecodeFrom(buf, r, remaining).out| == remaining
    decreases remaining
  {
    if remaining > 0 && r < |buf| {
      DecodeKeepsCount(buf, r + 1, remaining - 1);
      DecodeKeepsCount(buf, r + 2, remaining - 1);
    }
  }

  predicate NoEsc(s: seq<byte>) {
    forall i :: 0 <= i < |s| ==> s[i] != ESC
  }

  /** An escape-free captured run decodes to itself without a misread. */
  lemma {:induction false} DecodePlain(buf: seq<byte>, r: nat, remaining: nat)
    requires r + remaining <= |buf|
    requires NoEsc(buf[r..r + remaining])
    ensures DecodeFrom(buf, r, remaining) == Scanned(buf[r..r + remaining], false)
    decreases remaining
  {
    if remaining > 0 {
      assert buf[r] == buf[r..r + remaining][0];
      assert buf[r + 1..r + remaining] == buf[r..r + remaining][1..];
      DecodePlain(buf, r + 1, remaining - 1);
      assert [buf[r]] + buf[r + 1..r + remaining] == buf[r..r + remaining];
    }
  }

  /**
   * An ESC that is the last captured byte (after an escape-free run) is a
   * misread, and is kept literally in the output.
   */
  lemma DecodeDanglingEscape(buf: seq<byte>, n: nat)
    requires 0 < n <= |buf|
    requires NoEsc(buf[..n - 1]) && buf[n - 1] == ESC
    ensures DecodeFrom(buf, 0, n) == Scanned(buf[..n - 1] + [ESC], true)
  {
    DecodePrefix(buf, 0, n - 1, n);
    assert DecodeFrom(buf, n - 1, 1) == Then([ESC], true, DecodeFrom(buf, n, 0));
    assert buf[0..n - 1] == buf[..n - 1];
  }

  /** An escape-free run of j bytes at r is copied unchanged in front of the rest of the pass. */
  lemma {:induction false} DecodePrefix(buf: seq<byte>, r: nat, j: nat, remaining: nat)
    requires j <= remaining && r + j <= |buf|
    requires NoEsc(buf[r..r + j])
    ensures DecodeFrom(buf, r, remaining) == Then(buf[r..r + j], false, DecodeFrom(buf, r + j, remaining - j))
    decreases j
  {
    if j == 0 {
      var rest := DecodeFrom(buf, r, remaining);
      assert rest.Scanned? ==> [] + rest.out == rest.out;
    } else {
      assert buf[r] == buf[r..r + j][0];
      assert buf[r + 1..r + j] == buf[r..r + j][1..];
      DecodePrefix(buf, r + 1, j - 1, remaining - 1);
      ThenThen([buf[r]], false, buf[r + 1..r + j], false, DecodeFrom(buf, r + j, remaining - j));
      assert [buf[r]] + buf[r + 1..r + j] == buf[r..r + j];
    }
  }

  /**
   * A correctly escaped stretch Escape(q) at r decodes to q in front of the
   * rest of the pass, provided the counter outlasts it: each of its |q|
   * output bytes costs one count, and at least one count is left when the
   * stretch ends, so its last pair still passes the remaining > 0 guard.
   */
  lemma DecodeEscaped(buf: seq<byte>, r: nat, q: seq<byte>, remaining: nat)
    requires |q| < remaining && r + |Escape(q)| <= |buf|
    requires buf[r..r + |Escape(q)|] == Escape(q)
    ensures DecodeFrom(buf, r, remaining) == Then(q, false, DecodeFrom(buf, r + |Escape(q)|, remaining - |q|))
  {
    EscapedAtSlice(buf, r, q);
    DecodeEscapedAt(buf, r, q, remaining);
  }

  /** buf holds Escape(q) from r on, one escaped byte after the other. */
  predicate EscapedAt(buf: seq<byte>, r: nat, q: seq<byte>)
    decreases q
  {
    q == [] ||
    (r + |EscapeByte(q[0])| <= |buf| && buf[r..r + |EscapeByte(q[0])|] == EscapeByte(q[0])
     && EscapedAt(buf, r + |EscapeByte(q[0])|, q[1..]))
  }

  lemma {:induction false} EscapedAtSlice(buf: seq<byte>, r: nat, q: seq<byte>)
    requires r + |Escape(q)| <= |buf| && buf[r..r + |Escape(q)|] == Escape(q)
    ensures EscapedAt(buf, r, q)
    decreases q
  {
    if q != [] {
      SliceSplit(buf, r, Escape(q), EscapeByte(q[0]), Escape(q[1..]));
      EscapedAtSlice(buf, r + |EscapeByte(q[0])|, q[1..]);
    }
  }

  lemma {:induction false} DecodeEscapedAt(buf: seq<byte>, r: nat, q: seq<byte>, remaining: nat)
    requires |q| < remaining && EscapedAt(buf, r, q)
    ensures DecodeFrom(buf, r, remaining) == Then(q, false, DecodeFrom(buf, r + |Escape(q)|, remaining - |q|))
    decreases q
  {
    if q == [] {
      var rest := DecodeFrom(buf, r, remaining);
      assert rest.Scanned? ==> [] + rest.out == rest.out;
    } else {
      var r1 := r + |EscapeByte(q[0])|;
      DecodeEscapedAt(buf, r1, q[1..], remaining - 1);
      DecodeEscapedStep(buf, r, q, remaining);
    }
  }

  /** DecodeEscapedAt for q, from its result for q[1..] one escaped byte further on. */
  lemma DecodeEscapedStep(buf: seq<byte>, r: nat, q: seq<byte>, remaining: nat)
    requires q != [] && |q| < remaining && EscapedAt(buf, r, q)
    requires var r1 := r + |EscapeByte(q[0])|;
             DecodeFrom(buf, r1, remaining - 1) ==
             Then(q[1..], false, DecodeFrom(buf, r1 + |Escape(q[1..])|, remaining - 1 - |q[1..]|))
    ensures DecodeFrom(buf, r, remaining) == Then(q, false, DecodeFrom(buf, r + |Escape(q)|, remaining - |q|))
  {
    var q1 := q[1..];
    var r1 := r + |EscapeByte(q[0])|;
    var r2, m := r1 + |Escape(q1)|, remaining - 1 - |q1|;
    DecodeOneEscaped(buf, r, q[0], remaining);
    ThenChain(DecodeFrom(buf, r, remaining), DecodeFrom(buf, r1, remaining - 1), DecodeFrom(buf, r2, m), [q[0]], q1);
    assert [q[0]] + q1 == q;
    assert r2 == r + |Escape(q)| && m == remaining - |q|;
  }

  lemma ThenChain(d0: Scan, d1: Scan, d2: Scan, x: seq<byte>, y: seq<byte>)
    requires d0 == Then(x, false, d1) && d1 == Then(y, false, d2)
    ensures d0 == Then(x + y, false, d2)
  {
    ThenThen(x, false, y, false, d2);
  }

  /** A slice of buf holding x + y holds x, and y right after it. */
  lemma SliceSplit(buf: seq<byte>, r: nat, z: seq<byte>, x: seq<byte>, y: seq<byte>)
    requires z == x + y && r + |z| <= |buf| && buf[r..r + |z|] == z
    ensures buf[r..r + |x|] == x && buf[r + |x|..r + |x| + |y|] == y
  {
    assert buf[r..r + |x|] == z[..|x|];
    assert buf[r + |x|..r + |x| + |y|] == z[|x|..];
  }

  /** One correctly escaped byte x at r costs one count and is read back as x. */
  lemma DecodeOneEscaped(buf: seq<byte>, r: nat, x: byte, remaining: nat)
    requires 1 < remaining && r + |EscapeByte(x)| <= |buf|
    requires buf[r..r + |EscapeByte(x)|] == EscapeByte(x)
    ensures DecodeFrom(buf, r, remaining) == Then([x], false, DecodeFrom(buf, r + |EscapeByte(x)|, remaining - 1))
  {
    var h := EscapeByte(x);
    assert buf[r] == h[0];
    if |h| == 2 {
      assert buf[r + 1] == h[1];
    }
  }

  /**
   * An ESC followed by a byte that is neither ESC_END nor ESC_ESC, after a
   * correctly escaped prefix Escape(q), makes the pass a misread (or an
   * overrun); the output starts with q and the literal ESC.
   */
  lemma DecodeBadEscape(buf: seq<byte>, q: seq<byte>, n: nat)
    requires |Escape(q)| + 1 < n && |Escape(q)| + 1 < |buf|
    requires buf[..|Escape(q)|] == Escape(q) && buf[|Escape(q)|] == ESC
    requires buf[|Escape(q)| + 1] != ESC_END && buf[|Escape(q)| + 1] != ESC_ESC
    ensures DecodeFrom(buf, 0, n).Scanned? ==> DecodeFrom(buf, 0, n).misread
    ensures DecodeFrom(buf, 0, n).Scanned? ==>
              |DecodeFrom(buf, 0, n).out| > |q| && DecodeFrom(buf, 0, n).out[..|q| + 1] == q + [ESC]
  {
    var j := |Escape(q)|;
    EscapeLength(q);
    assert buf[0..j] == buf[..j];
    DecodeEscaped(buf, 0, q, n);
    var rest := DecodeFrom(buf, j + 1, n - |q| - 1);
    assert DecodeFrom(buf, j, n - |q|) == Then([ESC], true, rest);
    ThenThen(q, false, [ESC], true, rest);
    if rest.Scanned? {
      assert (q + [ESC] + rest.out)[..|q| + 1] == q + [ESC];
    }
  }

  /**
   * The guard remaining > 0 does not make a dangling ESC a misread once an
   * escape pair precedes it: the packet ESC,'X',ESC,END is captured as
   * ESC,'X',ESC (nread 3), the counter still holds one count at the last
   * ESC, and a stale 'X' behind the capture completes it into a second END.
   * The pass yields END,END,0 with NO_ERROR; a stale ordinary byte there
   * gives the misread instead.
   */
  lemma DecodeDanglingAfterPair()
    ensures DecodeFrom([ESC, ESC_END, ESC, ESC_END, 0], 0, 3) == Scanned([END, END, 0], false)
    ensures DecodeFrom([ESC, ESC_END, ESC, 0, 0], 0, 3) == Scanned([END, ESC, 0], true)
  {
    var b := [ESC, ESC_END, ESC, ESC_END, 0];
    assert DecodeFrom(b, 4, 1) == Then([0], false, DecodeFrom(b, 5, 0));
    assert DecodeFrom(b, 2, 2) == Then([END], false, DecodeFrom(b, 4, 1));
    var c := [ESC, ESC_END, ESC, 0, 0];
    assert DecodeFrom(c, 3, 1) == Then([0], false, DecodeFrom(c, 4, 0));
    assert DecodeFrom(c, 2, 2) == Then([ESC], true, DecodeFrom(c, 3, 1));
  }

  /**
   * The doc-comment's "remove escapes" fails as written.  The frame of the
   * payload "#" is ESC, ESC_END; once captured into a three-byte dest whose
   * last byte holds a stale 0, the pass consumes the pair, runs a second
   * iteration over the stale byte and yields the two bytes "#", 0 with
   * NO_ERROR; a stale ESC there turns the same valid packet into a misread;
   * with two escape pairs the pass reads past a five-byte dest.
   */
  lemma DecodeOverrunsCapture()
    ensures Escape([END]) == [ESC, ESC_END]
    ensures DecodeFrom([ESC, ESC_END, 0], 0, 2) == Scanned([END, 0], false)
    ensures DecodeFrom([ESC, ESC_END, ESC], 0, 2) == Scanned([END, ESC], true)
    ensures Escape([END, END]) == [ESC, ESC_END, ESC, ESC_END]
    ensures DecodeFrom([ESC, ESC_END, ESC, ESC_END, ESC], 0, 4) == Overrun
  {
    assert DecodeFrom([ESC, ESC_END, 0], 2, 1) == Then([0], false, DecodeFrom([ESC, ESC_END, 0], 3, 0));
    assert DecodeFrom([ESC, ESC_END, ESC], 2, 1) == Then([ESC], true, DecodeFrom([ESC, ESC_END, ESC], 3, 0));
    var b := [ESC, ESC_END, ESC, ESC_END, ESC];
    assert DecodeFrom(b, 4, 2) == Overrun;
    assert DecodeFrom(b, 2, 3) == Then([END], false, DecodeFrom(b, 4, 2));
  }

  /**
   * The decoding the documentation promises: walk the captured run once,
   * collapsing each escape pair into the reserved byte it stands for; an
   * ESC not followed by ESC_END or ESC_ESC is kept and flagged.
   */
  function Unescape(s: seq<byte>): (d: Scan)
    ensures d.Scanned? && |d.out| <= |s|
  {
    if s == [] then Scanned([], false)
    else if s[0] != ESC then Then([s[0]], false, Unescape(s[1..]))
    else if |s| > 1 && s[1] == ESC_END then Then([END], false, Unescape(s[2..]))
    else if |s| > 1 && s[1] == ESC_ESC then Then([ESC], false, Unescape(s[2..]))
    else Then([ESC], true, Unescape(s[1..]))
  }

  /** One step of Unescape at position r of s. */
  lemma UnescapeAt(s: seq<byte>, r: nat)
    requires r < |s|
    ensures s[r] != ESC ==> Unescape(s[r..]) == Then([s[r]], false, Unescape(s[r + 1..]))
    ensures s[r] == ESC && r + 1 < |s| && s[r + 1] == ESC_END ==>
              Unescape(s[r..]) == Then([END], false, Unescape(s[r + 2..]))
    ensures s[r] == ESC && r + 1 < |s| && s[r + 1] == ESC_ESC ==>
              Unescape(s[r..]) == Then([ESC], false, Unescape(s[r + 2..]))
    ensures s[r] == ESC && !(r + 1 < |s| && (s[r + 1] == ESC_END || s[r + 1] == ESC_ESC)) ==>
              Unescape(s[r..]) == Then([ESC], true, Unescape(s[r + 1..]))
  {
    assert s[r..][0] == s[r];
    assert s[r..][1..] == s[r + 1..];
    if r + 1 < |s| {
      assert s[r..][1] == s[r + 1];
      assert s[r..][2..] == s[r + 2..];
    }
  }

  /** Decoding an escaped payload gives the payload back, without a misread. */
  lemma {:induction false} UnescapeEscape(p: seq<byte>)
    ensures Unescape(Escape(p)) == Scanned(p, false)
  {
    if p != [] {
      UnescapeByte(p[0], Escape(p[1..]));
      UnescapeEscape(p[1..]);
      assert [p[0]] + p[1..] == p;
    }
  }

  /** One escaped byte in front of t decodes to that byte, then t's decoding. */
  lemma UnescapeByte(x: byte, t: seq<byte>)
    ensures Unescape(EscapeByte(x) + t) == Then([x], false, Unescape(t))
  {
    var h := EscapeByte(x);
    var s := h + t;
    assert s[0] == h[0] && s[|h|..] == t;
    if |h| == 2 {
      assert s[1] == h[1];
    }
  }

  /** Two payloads with the same escaped form are equal. */
  lemma EscapeInjective(p: seq<byte>, q: seq<byte>)
    ensures Escape(p) == Escape(q) ==> p == q
  {
    UnescapeEscape(p);
    UnescapeEscape(q);
  }

  /** A correctly escaped stretch decodes to its payload in front of whatever follows it. */
  lemma {:induction false} UnescapeAfterEscaped(q: seq<byte>, t: seq<byte>)
    ensures Unescape(Escape(q) + t) == Then(q, false, Unescape(t))
  {
    if q == [] {
      assert Escape(q) + t == t;
      assert [] + Unescape(t).out == Unescape(t).out;
    } else {
      var q1 := q[1..];
      AppendAssoc(EscapeByte(q[0]), Escape(q1), t);
      UnescapeByte(q[0], Escape(q1) + t);
      UnescapeAfterEscaped(q1, t);
      ThenChain(Unescape(Escape(q) + t), Unescape(Escape(q1) + t), Unescape(t), [q[0]], q1);
      assert [q[0]] + q1 == q;
    }
  }

  lemma AppendAssoc(a: seq<byte>, b: seq<byte>, c: seq<byte>)
    ensures a + b + c == a + (b + c)
  {
  }

  /** The documented decoding flags a bad escape after any correctly escaped prefix, keeping the ESC. */
  lemma UnescapeBadEscape(q: seq<byte>, x: byte, t: seq<byte>)
    requires x != ESC_END && x != ESC_ESC
    ensures Unescape(Escape(q) + [ESC, x] + t).misread
    ensures |Unescape(Escape(q) + [ESC, x] + t).out| > |q|
            && Unescape(Escape(q) + [ESC, x] + t).out[..|q| + 1] == q + [ESC]
  {
    AppendAssoc(Escape(q), [ESC, x], t);
    UnescapeAfterEscaped(q, [ESC, x] + t);
    UnescapeBadPair(x, t);
    var rest := Unescape([x] + t);
    ThenThen(q, false, [ESC], true, rest);
    PrefixOf(q + [ESC], rest.out);
  }

  lemma UnescapeBadPair(x: byte, t: seq<byte>)
    requires x != ESC_END && x != ESC_ESC
    ensures Unescape([ESC, x] + t) == Then([ESC], true, Unescape([x] + t))
  {
    var s := [ESC, x] + t;
    assert s[0] == ESC && s[1] == x && s[1..] == [x] + t;
  }

  lemma PrefixOf(a: seq<byte>, b: seq<byte>)
    ensures |a + b| >= |a| && (a + b)[..|a|] == a
  {
  }

  /** The documented decoding flags a dangling ESC after any correctly escaped prefix. */
  lemma UnescapeDanglingEscape(q: seq<byte>)
    ensures Unescape(Escape(q) + [ESC]) == Scanned(q + [ESC], true)
  {
    UnescapeAfterEscaped(q, [ESC]);
    assert Unescape([ESC]) == Then([ESC], true, Unescape([]));
  }

  /** An escape-free run decodes to itself. */
  lemma {:induction false} UnescapePlain(s: seq<byte>)
    requires NoEsc(s)
    ensures Unescape(s) == Scanned(s, false)
  {
    if s != [] {
      UnescapePlain(s[1..]);
      assert [s[0]] + s[1..] == s;
    }
  }

  /** On escape-free input the loop as written and the promised decoding agree. */
  lemma DecodeAgreesOnPlain(buf: seq<byte>, n: nat)
    requires n <= |buf| && NoEsc(buf[..n])
    ensures DecodeFrom(buf, 0, n) == Unescape(buf[..n])
  {
    assert buf[0..n] == buf[..n];
    DecodePlain(buf, 0, n);
    UnescapePlain(buf[..n]);
  }
}
