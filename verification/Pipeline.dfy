/** The double-buffered object reader: it reads into one buffer while the other is being
    written out. It does what a plain read-then-write copy does. */
module Pipeline {
  import opened MtpTypes
  import opened Buses
  import opened Wire

  const CHUNK: nat := 16384

  // ---- The plain copy ----

  /** What a copy passed on, where it left the link, and whether it came to an end. */
  datatype Copy = Copy(chunks: seq<seq<uint8>>, link: Link, ok: bool)

  /** Reads and passes on one piece at a time until `remaining` bytes have come. */
  function Sequential(l: Link, packet: nat, remaining: nat): Copy
    requires 0 < packet
    decreases l.Fuel()
  {
    if remaining == 0 then Copy([], l, true)
    else
      var max := Min(remaining, CHUNK);
      ReadsProgress(l, packet, max);
      match l.Bytes(packet, max)
      case None => Copy([], l.After(packet, max), false)
      case Some(bytes) =>
        var rest := Sequential(l.After(packet, max), packet, remaining - |bytes|);
        if bytes == [] then rest else rest.(chunks := [bytes] + rest.chunks)
  }

  /** A copy that comes to an end passes on exactly the bytes asked for, in nonempty pieces
      of at most one chunk. */
  lemma {:induction false} SequentialLength(l: Link, packet: nat, remaining: nat)
    requires 0 < packet
    ensures Sequential(l, packet, remaining).ok ==> |Concat(Sequential(l, packet, remaining).chunks)| == remaining
    ensures forall c :: c in Sequential(l, packet, remaining).chunks ==> 0 < |c| <= CHUNK
    decreases l.Fuel()
  {
    if remaining > 0 {
      var max := Min(remaining, CHUNK);
      ReadsProgress(l, packet, max);
      if l.Bytes(packet, max).Some? {
        SequentialLength(l.After(packet, max), packet, remaining - |l.Bytes(packet, max).value|);
      }
    }
  }

  /** When the front container has exactly the bytes asked for left, a copy passes on those
      bytes, however the bus splits them, and leaves the next container at the front. On a
      link without failures it always comes to an end. */
  lemma {:induction false} SequentialDelivers(l: Link, packet: nat)
    requires 0 < packet && l.wire != [] && l.wire[0] != []
    ensures var copy := Sequential(l, packet, |l.wire[0]|);
            && (copy.ok ==> Concat(copy.chunks) == l.wire[0] && copy.link.wire == l.wire[1..])
            && (l.Unfailing() ==> copy.ok && copy.link.Reliable())
    decreases l.Fuel()
  {
    var c := l.wire[0];
    var max := Min(|c|, CHUNK);
    ReadsProgress(l, packet, max);
    var l' := l.After(packet, max);
    match l.Bytes(packet, max) {
      case None =>
      case Some(bytes) =>
        if bytes == c {
          CopyLast(l, packet);
        } else {
          assert l'.wire == [c[|bytes|..]] + l.wire[1..];
          SequentialDelivers(l', packet);
          CopyMore(l, packet, bytes, l');
        }
    }
  }

  /** A copy that reads all of a container at once is at its end. */
  lemma CopyLast(l: Link, packet: nat)
    requires 0 < packet && l.wire != [] && l.wire[0] != []
    requires l.Bytes(packet, Min(|l.wire[0]|, CHUNK)) == Some(l.wire[0])
    ensures var copy := Sequential(l, packet, |l.wire[0]|);
            copy.ok && Concat(copy.chunks) == l.wire[0] && copy.link == l.After(packet, Min(|l.wire[0]|, CHUNK))
  {
    var c, l' := l.wire[0], l.After(packet, Min(|l.wire[0]|, CHUNK));
    ReadsProgress(l, packet, Min(|c|, CHUNK));
    assert Sequential(l', packet, 0) == Copy([], l', true);
    assert [c] + [] == [c] && Concat([c]) == c + Concat([]);
  }

  /** A copy continues behind the piece just read. */
  lemma CopyMore(l: Link, packet: nat, bytes: seq<uint8>, l': Link)
    requires 0 < packet && l.wire != [] && l.wire[0] != [] && bytes < l.wire[0]
    requires var max := Min(|l.wire[0]|, CHUNK); l.Bytes(packet, max) == Some(bytes) && l' == l.After(packet, max)
    ensures var rest, copy := Sequential(l', packet, |l.wire[0]| - |bytes|), Sequential(l, packet, |l.wire[0]|);
            copy.ok == rest.ok && copy.link == rest.link && Concat(copy.chunks) == bytes + Concat(rest.chunks)
    ensures bytes + l.wire[0][|bytes|..] == l.wire[0]
  {
    ReadsProgress(l, packet, Min(|l.wire[0]|, CHUNK));
    var rest := Sequential(l', packet, |l.wire[0]| - |bytes|);
    if bytes != [] {
      assert ([bytes] + rest.chunks)[1..] == rest.chunks;
    }
  }

  // ---- Where the pieces go ----

  /** A piece as it is handed on: where it belongs, and its bytes. */
  type Piece = (int32, seq<uint8>)

  /** The calls a copy makes: each piece with the number of bytes before it, as a signed 32-bit
      integer. */
  function Calls(offset: nat, chunks: seq<seq<uint8>>): seq<Piece>
    decreases chunks
  {
    if chunks == [] then [] else [(ToInt32(offset), chunks[0])] + Calls(offset + |chunks[0]|, chunks[1..])
  }

  lemma {:induction false} CallsSnoc(offset: nat, chunks: seq<seq<uint8>>, c: seq<uint8>)
    ensures Calls(offset, chunks + [c]) == Calls(offset, chunks) + [(ToInt32(offset + |Concat(chunks)|), c)]
    decreases chunks
  {
    if chunks == [] {
      assert chunks + [c] == [c];
    } else {
      assert (chunks + [c])[1..] == chunks[1..] + [c];
      CallsSnoc(offset + |chunks[0]|, chunks[1..], c);
      Assoc([(ToInt32(offset), chunks[0])], Calls(offset + |chunks[0]|, chunks[1..]),
            [(ToInt32(offset + |Concat(chunks)|), c)]);
    }
  }

  /** The bytes of the pieces handed on, in order: what a file is left with. */
  function Bytes(calls: seq<Piece>): seq<uint8> {
    if calls == [] then [] else calls[0].1 + Bytes(calls[1..])
  }

  lemma {:induction false} BytesOfCalls(offset: nat, chunks: seq<seq<uint8>>)
    ensures Bytes(Calls(offset, chunks)) == Concat(chunks)
    decreases chunks
  {
    if chunks != [] {
      BytesOfCalls(offset + |chunks[0]|, chunks[1..]);
      assert Calls(offset, chunks)[1..] == Calls(offset + |chunks[0]|, chunks[1..]);
    }
  }

  /** Calls up to some point hand on the bytes up to some point. */
  lemma PrefixBytes(calls: seq<Piece>, chunks: seq<seq<uint8>>)
    requires PrefixOfCalls(calls, 0, chunks)
    ensures Bytes(calls) <= Concat(chunks)
  {
    var k :| 0 <= k <= |chunks| && calls == Calls(0, chunks[..k]);
    BytesOfCalls(0, chunks[..k]);
    assert chunks[..k] + chunks[k..] == chunks;
    ConcatTwo(chunks[..k], chunks[k..]);
  }

  // ---- Offsets ----

  /** Each call's offset is the number of bytes before its piece. */
  ghost predicate RightOffsets(chunks: seq<seq<uint8>>) {
    forall k :: 0 <= k < |chunks| ==> OffsetAt(chunks, k) == |Concat(chunks[..k])|
  }

  /** The offset that the `k`th call gets. */
  ghost function OffsetAt(chunks: seq<seq<uint8>>, k: nat): (r: int)
    requires k < |chunks|
  {
    CallsLength(0, chunks);
    Calls(0, chunks)[k].0
  }

  lemma {:induction false} CallsLength(offset: nat, chunks: seq<seq<uint8>>)
    ensures |Calls(offset, chunks)| == |chunks|
    decreases chunks
  {
    if chunks != [] {
      CallsLength(offset + |chunks[0]|, chunks[1..]);
    }
  }

  lemma {:induction false} CallAt(offset: nat, chunks: seq<seq<uint8>>, k: nat)
    requires k < |chunks|
    ensures |Calls(offset, chunks)| == |chunks|
    ensures Calls(offset, chunks)[k] == (ToInt32(offset + |Concat(chunks[..k])|), chunks[k])
    decreases chunks
  {
    CallsLength(offset, chunks);
    if k > 0 {
      CallAt(offset + |chunks[0]|, chunks[1..], k - 1);
      assert chunks[..k][0] == chunks[0] && chunks[..k][1..] == chunks[1..][..k - 1];
    }
  }

  lemma {:induction false} PrefixShorter(chunks: seq<seq<uint8>>, k: nat)
    requires k < |chunks|
    ensures |Concat(chunks[..k])| + |chunks[k]| <= |Concat(chunks)|
  {
    if k == 0 {
    } else {
      PrefixShorter(chunks[1..], k - 1);
      assert chunks[..k][0] == chunks[0] && chunks[..k][1..] == chunks[1..][..k - 1];
    }
  }

  /** For one split of an object: the offsets are right exactly if every piece starts below 2^31. */
  lemma OffsetsExactly(chunks: seq<seq<uint8>>)
    ensures RightOffsets(chunks) <==> forall k :: 0 <= k < |chunks| ==> |Concat(chunks[..k])| < 0x8000_0000
  {
    forall k | 0 <= k < |chunks|
      ensures OffsetAt(chunks, k) == |Concat(chunks[..k])| <==> |Concat(chunks[..k])| < 0x8000_0000
    {
      CallAt(0, chunks, k);
      ToInt32Exactly(|Concat(chunks[..k])|);
    }
  }

  /** Nonempty pieces of at most one chunk that make up `n` bytes. */
  ghost predicate Splits(chunks: seq<seq<uint8>>, n: nat) {
    |Concat(chunks)| == n && forall c :: c in chunks ==> 0 < |c| <= CHUNK
  }

  /** The offsets are right for every way to split an object exactly if it has at most 2^31
      bytes. */
  lemma AllOffsetsExactly(n: nat)
    ensures (forall chunks :: Splits(chunks, n) ==> RightOffsets(chunks)) <==> n <= 0x8000_0000
  {
    if n <= 0x8000_0000 {
      forall chunks | Splits(chunks, n)
        ensures RightOffsets(chunks)
      {
        SmallOffsets(chunks);
      }
    } else {
      RemainderSplits(n - 0x8000_0000);
      FullThen(0x2_0000, Remainder(n - 0x8000_0000), n - 0x8000_0000);
    }
  }

  lemma SmallOffsets(chunks: seq<seq<uint8>>)
    requires |Concat(chunks)| <= 0x8000_0000 && forall c :: c in chunks ==> 0 < |c|
    ensures RightOffsets(chunks)
  {
    forall k | 0 <= k < |chunks|
      ensures |Concat(chunks[..k])| < 0x8000_0000
    {
      PrefixShorter(chunks, k);
      assert chunks[k] in chunks;
    }
    OffsetsExactly(chunks);
  }

  /** An object of 2^31 bytes and one more, in pieces of a full chunk and one byte: the last
      call gets the offset -2^31. */
  lemma OffsetsFail()
    ensures var chunks := FullChunks(0x2_0000) + [[0]];
            Splits(chunks, 0x8000_0001) && OffsetAt(chunks, 0x2_0000) == -0x8000_0000
  {
    assert [[0]] == [[0]] + [] && Concat([[0]]) == [0] + Concat([]);
    FullThen(0x2_0000, [[0]], 1);
  }

  /** Behind `k` full chunks the next piece gets their length, converted. */
  lemma FullThen(k: nat, rest: seq<seq<uint8>>, n: nat)
    requires Splits(rest, n) && rest != []
    ensures var chunks := FullChunks(k) + rest;
            && Splits(chunks, k * CHUNK + n) && k < |chunks| && OffsetAt(chunks, k) == ToInt32(k * CHUNK)
            && (k * CHUNK >= 0x8000_0000 ==> !RightOffsets(chunks))
  {
    var chunks := FullChunks(k) + rest;
    FullLength(k);
    ConcatTwo(FullChunks(k), rest);
    assert chunks[..k] == FullChunks(k);
    CallAt(0, chunks, k);
    ToInt32Exactly(k * CHUNK);
  }

  ghost function FullChunks(n: nat): (chunks: seq<seq<uint8>>)
    ensures |chunks| == n && forall c :: c in chunks ==> |c| == CHUNK
  {
    if n == 0 then [] else FullChunks(n - 1) + [seq(CHUNK, i => 0)]
  }

  lemma {:induction false} FullLength(n: nat)
    ensures |Concat(FullChunks(n))| == n * CHUNK
  {
    if n > 0 {
      FullLength(n - 1);
      ConcatSnoc(FullChunks(n - 1), seq(CHUNK, i => 0));
    }
  }

  ghost function Remainder(n: nat): seq<seq<uint8>> {
    if n == 0 then [] else [seq(Min(n, CHUNK), i => 0)] + Remainder(n - Min(n, CHUNK))
  }

  lemma {:induction false} RemainderSplits(n: nat)
    ensures Splits(Remainder(n), n) && (n > 0 ==> Remainder(n) != [])
  {
    if n > 0 {
      RemainderSplits(n - Min(n, CHUNK));
    }
  }

  lemma {:induction false} ConcatTwo(a: seq<seq<uint8>>, b: seq<seq<uint8>>)
    ensures Concat(a + b) == Concat(a) + Concat(b)
  {
    if a == [] {
      assert a + b == b;
    } else {
      assert (a + b)[1..] == a[1..] + b;
      ConcatTwo(a[1..], b);
      Assoc(a[0], Concat(a[1..]), Concat(b));
    }
  }

  // ---- The sink ----

  /** The caller's callback, or the file written to: it records every call and may refuse. */
  class Sink {
    var calls: seq<Piece>
    var answers: seq<bool>
    var refused: bool

    constructor (answers: seq<bool>)
      ensures calls == [] && !refused
    {
      calls, this.answers, refused := [], answers, false;
    }

    method Accept(data: seq<uint8>, offset: int32) returns (ok: bool)
      modifies this
      ensures calls == old(calls) + [(offset, data)] && refused == (old(refused) || !ok)
    {
      calls := calls + [(offset, data)];
      ok := answers == [] || answers[0];
      if answers != [] {
        answers := answers[1..];
      }
      refused := refused || !ok;
    }
  }

  // ---- The pipelined copy ----

  /** The calls are those of a plain copy, up to some point. */
  ghost predicate PrefixOfCalls(calls: seq<Piece>, start: nat, chunks: seq<seq<uint8>>) {
    exists k :: 0 <= k <= |chunks| && calls == Calls(start, chunks[..k])
  }

  /** A copy seen half-way: `written` is passed on, `held` waits in a buffer, the rest is to come. */
  ghost predicate Halfway(copy: Copy, start: nat, calls: seq<Piece>, written: seq<seq<uint8>>,
                          held: seq<seq<uint8>>, rest: Copy) {
    && copy == Copy(written + held + rest.chunks, rest.link, rest.ok)
    && calls == Calls(start, written)
  }

  lemma HalfwayWrite(copy: Copy, start: nat, calls: seq<Piece>, written: seq<seq<uint8>>, c: seq<uint8>,
                     rest: Copy)
    requires Halfway(copy, start, calls, written, [c], rest)
    ensures var calls' := calls + [(ToInt32(start + |Concat(written)|), c)];
            Halfway(copy, start, calls', written + [c], [], rest) && PrefixOfCalls(calls', start, copy.chunks)
    ensures |Concat(written + [c])| == |Concat(written)| + |c|
  {
    CallsSnoc(start, written, c);
    ConcatSnoc(written, c);
    assert written + [c] + [] + rest.chunks == written + [c] + rest.chunks;
    assert copy.chunks[..|written| + 1] == written + [c];
  }

  lemma HalfwayPrefix(copy: Copy, start: nat, calls: seq<Piece>, written: seq<seq<uint8>>,
                      held: seq<seq<uint8>>, rest: Copy)
    requires Halfway(copy, start, calls, written, held, rest)
    ensures PrefixOfCalls(calls, start, copy.chunks)
  {
    assert copy.chunks[..|written|] == written;
  }

  lemma HalfwayDone(copy: Copy, start: nat, calls: seq<Piece>, written: seq<seq<uint8>>, rest: Copy,
                    l: Link)
    requires Halfway(copy, start, calls, written, [], rest) && rest == Copy([], l, true)
    ensures copy.ok && copy.link == l && calls == Calls(start, copy.chunks) && PrefixOfCalls(calls, start, copy.chunks)
  {
    assert written + [] + [] == written;
    assert copy.chunks[..|copy.chunks|] == copy.chunks;
  }

  lemma HalfwayRead(copy: Copy, start: nat, calls: seq<Piece>, written: seq<seq<uint8>>, bytes: seq<uint8>,
                    rest: Copy, rest': Copy)
    requires Halfway(copy, start, calls, written, [], rest)
    requires rest == if bytes == [] then rest' else rest'.(chunks := [bytes] + rest'.chunks)
    ensures Halfway(copy, start, calls, written, if bytes == [] then [] else [bytes], rest')
  {
    if bytes != [] {
      assert written + [] + ([bytes] + rest'.chunks) == written + [bytes] + rest'.chunks;
    }
  }

  /** A copy of the next `n` bytes would come to `rest`. (The quantifier keeps the copy folded until
      it is named.) */
  ghost predicate Remains(rest: Copy, l: Link, packet: nat, n: nat) {
    0 < packet && forall m: nat {:trigger Sequential(l, packet, m)} :: m == n ==> rest == Sequential(l, packet, m)
  }

  lemma Copying(l: Link, packet: nat, n: nat) returns (rest: Copy)
    requires 0 < packet
    ensures Remains(rest, l, packet, n)
  {
    rest := Sequential(l, packet, n);
  }

  /** Passes the held piece on. */
  method WriteHeld(sink: Sink, data: seq<uint8>, offset: int32, ghost copy: Copy, ghost start: nat,
                   ghost written: seq<seq<uint8>>, ghost rest: Copy)
    returns (ok: bool)
    requires Halfway(copy, start, sink.calls, written, [data], rest) && offset == ToInt32(start + |Concat(written)|)
    modifies sink
    ensures Halfway(copy, start, sink.calls, written + [data], [], rest)
    ensures PrefixOfCalls(sink.calls, start, copy.chunks)
    ensures ToInt32(offset + |data|) == ToInt32(start + |Concat(written + [data])|)
    ensures sink.refused == (old(sink.refused) || !ok)
  {
    ToInt32Adds(start + |Concat(written)|, |data|);
    HalfwayWrite(copy, start, sink.calls, written, data, rest);
    ok := sink.Accept(data, offset);
  }

  /** Waits for the read in flight; what it brings is the next piece of the plain copy. */
  method WaitNext(bus: Bus, remaining: nat, ghost copy: Copy, ghost start: nat, ghost calls: seq<Piece>,
                  ghost written: seq<seq<uint8>>, ghost rest: Copy) returns (read: int, ghost rest': Copy)
    requires bus.pending != null && bus.pending.bufferLength <= bus.pending.buffer.Length
    requires 0 < bus.packet && 0 < remaining && bus.pending.bufferLength == Min(remaining, CHUNK)
    requires rest == Sequential(bus.link, bus.packet, remaining)
    requires Halfway(copy, start, calls, written, [], rest)
    modifies bus`link, bus`pending, bus`waitFailed, bus.pending.buffer
    ensures read < 0 ==> !copy.ok && bus.waitFailed && PrefixOfCalls(calls, start, copy.chunks)
    ensures read >= 0 ==>
      && read <= Min(remaining, CHUNK) && bus.pending == null
      && rest' == Sequential(bus.link, bus.packet, remaining - read)
      && Halfway(copy, start, calls, written, if read == 0 then [] else [old(bus.pending).buffer[..read]], rest')
      && bus.link.Fuel() < old(bus.link.Fuel())
  {
    ReadsProgress(bus.link, bus.packet, bus.pending.bufferLength);
    HalfwayPrefix(copy, start, calls, written, [], rest);
    ghost var buffer := bus.pending.buffer;
    read := bus.Wait();
    rest' := rest;
    if read >= 0 {
      rest' := Sequential(bus.link, bus.packet, remaining - read);
      HalfwayRead(copy, start, calls, written, buffer[..read], rest, rest');
    }
  }

  /** First half of a round: queues the next read, if one is needed, and while it is in
      flight passes the held piece on, if there is one. */
  method QueueAndWrite(bus: Bus, sink: Sink, req: UsbRequest?, writeBuffer: array?<uint8>, writeLength: nat,
                       remaining: nat, offset: int32,
                       ghost copy: Copy, ghost start: nat, ghost written: seq<seq<uint8>>, ghost rest: Copy)
    returns (ok: bool, offset': int32)
    requires bus.pending == null && !bus.queueRefused && !sink.refused
    requires remaining > 0 ==> req != null && req.buffer.Length == CHUNK && req.buffer != writeBuffer
    requires writeBuffer != null ==> writeLength <= writeBuffer.Length
    requires offset == ToInt32(start + |Concat(written)|)
    requires Halfway(copy, start, sink.calls, written, Held(writeBuffer, writeLength), rest)
    modifies bus, sink, req, if req != null then {req.buffer} else {}
    ensures bus.link == old(bus.link) || (!ok && sink.refused)
    ensures ok ==>
      && !bus.queueRefused && !sink.refused
      && (if remaining > 0 then bus.pending == req && req.bufferLength == Min(remaining, CHUNK)
          else bus.pending == null)
      && Halfway(copy, start, sink.calls, written + old(Held(writeBuffer, writeLength)), [], rest)
      && offset' == ToInt32(start + |Concat(written + old(Held(writeBuffer, writeLength)))|)
    ensures !ok ==> (sink.refused || bus.queueRefused) && PrefixOfCalls(sink.calls, start, copy.chunks)
    ensures !ok ==> bus.pending == null || bus.waitFailed
  {
    offset' := offset;
    HalfwayPrefix(copy, start, sink.calls, written, Held(writeBuffer, writeLength), rest);
    if remaining > 0 {
      req.bufferLength := if remaining > CHUNK then CHUNK else remaining;
      var queued := bus.Queue(req);
      if !queued {
        return false, offset;
      }
    }
    if writeBuffer != null {
      ok := WriteHeld(sink, writeBuffer[..writeLength], offset, copy, start, written, rest);
      if !ok {
        if remaining > 0 {
          var _ := bus.Wait();
        }
        return false, offset;
      }
      offset' := ToInt32(offset + writeLength);
      ConcatSnoc(written, old(writeBuffer[..writeLength]));
    } else {
      assert written + [] == written;
    }
    ok := true;
  }

  ghost function Held(writeBuffer: array?<uint8>, writeLength: nat): seq<seq<uint8>>
    requires writeBuffer != null ==> writeLength <= writeBuffer.Length
    reads writeBuffer
  {
    if writeBuffer != null then [writeBuffer[..writeLength]] else []
  }

  /** Second half of a round: waits for the read in flight and holds what it brought, to be
      passed on in the next round while the other request reads. */
  method WaitAndSwap(bus: Bus, in1: UsbRequest, in2: UsbRequest, req: UsbRequest, remaining: nat,
                     ghost copy: Copy, ghost start: nat, ghost calls: seq<Piece>,
                     ghost written: seq<seq<uint8>>, ghost rest: Copy)
    returns (ok: bool, writeBuffer: array?<uint8>, writeLength: nat, remaining': nat, req': UsbRequest,
             ghost rest': Copy)
    requires 0 < bus.packet && 0 < remaining && bus.pending == req
    requires req.bufferLength == Min(remaining, CHUNK) <= req.buffer.Length
    requires in1.buffer != in2.buffer && (req == in1 || req == in2)
    requires Remains(rest, bus.link, bus.packet, remaining) && Halfway(copy, start, calls, written, [], rest)
    modifies bus`link, bus`pending, bus`waitFailed, req.buffer
    ensures !ok ==> !copy.ok && bus.waitFailed && PrefixOfCalls(calls, start, copy.chunks)
    ensures ok ==>
      && bus.pending == null && (req' == in1 || req' == in2)
      && (writeBuffer == null || writeBuffer == req.buffer) && writeBuffer != req'.buffer
      && (writeBuffer != null ==> 0 < writeLength <= Min(CHUNK, writeBuffer.Length))
      && remaining' + (if writeBuffer != null then writeLength else 0) == remaining
      && Remains(rest', bus.link, bus.packet, remaining')
      && Halfway(copy, start, calls, written, Held(writeBuffer, writeLength), rest')
      && bus.link.Fuel() < old(bus.link.Fuel())
  {
    writeBuffer, writeLength, remaining', req' := null, 0, remaining, req;
    assert rest == Sequential(bus.link, bus.packet, remaining);
    var read;
    read, rest' := WaitNext(bus, remaining, copy, start, calls, written, rest);
    ok := read >= 0;
    if read > 0 {
      writeBuffer := req.buffer;
      writeLength := read;
      remaining' := remaining - read;
      req' := if req == in1 then in2 else in1;
    }
  }

  /** Copies `length` bytes from the bus to the sink, one read ahead of the writes. The plain
      copy that this refines may have passed on some pieces already. */
  method Pump(bus: Bus, sink: Sink, length: nat, begin: int32, ghost copy: Copy, ghost start: nat,
              ghost already: seq<seq<uint8>>) returns (done: bool)
    requires 0 < bus.packet && bus.pending == null && !bus.queueRefused && !sink.refused
    requires begin == ToInt32(start + |Concat(already)|)
    requires Halfway(copy, start, sink.calls, already, [], Sequential(bus.link, bus.packet, length))
    modifies bus, sink
    ensures PrefixOfCalls(sink.calls, start, copy.chunks)
    ensures done ==> copy.ok && bus.link == copy.link && sink.calls == Calls(start, copy.chunks)
    ensures !done ==> sink.refused || bus.queueRefused || !copy.ok
    ensures bus.pending == null || bus.waitFailed
    ensures length == 0 ==> done
  {
    var in1 := new UsbRequest(CHUNK);
    var in2 := new UsbRequest(CHUNK);
    var req: UsbRequest? := in1;
    var remaining: nat, offset: int32, writeLength: nat := length, begin, 0;
    var writeBuffer: array?<uint8> := null;

    ghost var rest := Sequential(bus.link, bus.packet, length);
    ghost var written := already;
    while remaining > 0 || writeBuffer != null
      invariant bus.pending == null && !bus.queueRefused && !sink.refused
      invariant req == in1 || req == in2 || (req == null && remaining == 0)
      invariant writeBuffer == null || writeBuffer == in1.buffer || writeBuffer == in2.buffer
      invariant writeBuffer != null && req != null ==> writeBuffer != req.buffer
      invariant writeBuffer != null ==> 0 < writeLength <= CHUNK
      invariant offset == ToInt32(start + |Concat(written)|)
      invariant Remains(rest, bus.link, bus.packet, remaining)
      invariant length == 0 ==> remaining == 0 && writeBuffer == null
      invariant Halfway(copy, start, sink.calls, written, Held(writeBuffer, writeLength), rest)
      decreases bus.link.Fuel(), remaining, writeBuffer != null
    {
      ghost var held := Held(writeBuffer, writeLength);
      if remaining == 0 {
        req := null;
      }
      var ok;
      ok, offset := QueueAndWrite(bus, sink, req, writeBuffer, writeLength, remaining, offset, copy, start, written,
                                  rest);
      if !ok {
        return false;
      }
      writeBuffer := null;
      written := written + held;
      assert offset == ToInt32(start + |Concat(written)|) && Halfway(copy, start, sink.calls, written, [], rest);

      if req != null {
        ok, writeBuffer, writeLength, remaining, req, rest :=
          WaitAndSwap(bus, in1, in2, req, remaining, copy, start, sink.calls, written, rest);
        if !ok {
          return false;
        }
      }
    }
    assert rest == Sequential(bus.link, bus.packet, 0);
    HalfwayDone(copy, start, sink.calls, written, rest, bus.link);
    return true;
  }
}
