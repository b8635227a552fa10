/** Whole containers over the bus: the device sends one from its data packet, the host
    assembles one in its own from as many reads as it takes. */
module Transfers {
  import opened MtpTypes
  import opened Wire
  import opened Packets
  import opened Buses

  /** The wire once `length` bytes of its front container `c` are read. */
  function Beyond(c: seq<uint8>, length: nat, tail: seq<seq<uint8>>): seq<seq<uint8>>
    requires length <= |c|
  {
    if length == |c| then tail else [c[length..]] + tail
  }

  lemma FragmentRead(l: Link, packet: nat, c: seq<uint8>, length: nat, tail: seq<seq<uint8>>, max: nat)
    requires length < |c| && l.wire == Beyond(c, length, tail)
    ensures match l.Bytes(packet, max)
            case None => true
            case Some(bytes) =>
              && length + |bytes| <= |c| && bytes == c[length..length + |bytes|]
              && l.After(packet, max).wire == Beyond(c, length + |bytes|, tail)
              && (length + |bytes| == |c| ==> !l.After(packet, max).begun)
  {
    assert l.wire[0] == c[length..] && l.wire[1..] == tail;
    if l.Bytes(packet, max).Some? {
      var n := |l.Bytes(packet, max).value|;
      assert c[length..][n..] == c[length + n..];
    }
  }

  /** One read of at most `max` bytes behind the `length` already assembled. */
  method ReadMore(buffer: array<uint8>, bus: Bus, length: nat, max: nat, ghost c: seq<uint8>,
                  ghost tail: seq<seq<uint8>>) returns (n: int)
    requires length + max <= buffer.Length && 0 < max && 0 < bus.packet
    modifies buffer, bus`link
    ensures -1 <= n <= max
    ensures n >= 0 ==> bus.link.Fuel() < old(bus.link.Fuel())
    ensures old(bus.link.Unfailing()) ==> bus.link.Unfailing()
    ensures length < |c| && old(bus.link.wire) == Beyond(c, length, tail) && old(buffer[..length]) == c[..length] ==>
      && (n >= 0 ==>
            && length + n <= |c| && bus.link.wire == Beyond(c, length + n, tail)
            && buffer[..length + n] == c[..length + n] && (length + n == |c| ==> !bus.link.begun))
      && (old(bus.link.Unfailing()) ==> n >= 0)
      && (old(bus.link.Reliable()) && length == 0 ==> Min(|c|, Min(max, bus.packet)) <= n)
  {
    ReadsProgress(bus.link, bus.packet, max);
    if length < |c| && bus.link.wire == Beyond(c, length, tail) {
      FragmentRead(bus.link, bus.packet, c, length, tail, max);
    }
    ghost var was := buffer[..];
    n := bus.Transfer(buffer, length, max);
    assert n >= 0 ==> buffer[..][..length + n] == was[..length] + buffer[..][length..length + n];
  }

  lemma LengthWithin(b: seq<uint8>, c: seq<uint8>, n: nat)
    requires HEADER_SIZE <= n <= |b| && n <= |c| && b[..n] == c[..n] && Announced(c)
    ensures U32At(b, LENGTH_OFFSET) == |c|
  {
    assert forall i :: 0 <= i < 4 ==> b[i] == b[..n][i] == c[..n][i];
  }

  // ---- Room for a container ----

  /** How reading a container's rest ends: back at the caller, behind the end of the buffer, or
      with the process. */
  datatype Fate = Returned | Overrun | Aborted

  /** What becomes of a container of `total` bytes in a buffer of `size` bytes. The length is asked
      for as a signed integer: from 2^31 on it is negative and no room is made, and just below 2^31
      the new size overflows. */
  function FateOf(total: nat, size: nat, increment: nat): Fate {
    if total <= size || total + increment < 0x8000_0000 then Returned
    else if 0x8000_0000 <= total then Overrun
    else Aborted
  }

  /** A container of 2^31 bytes is announced like any other, and runs over the end of a new packet's
      buffer. */
  lemma LongContainerOverruns(kind: uint16, code: uint16, transaction: uint32, payload: seq<uint8>)
    requires |payload| == 0x8000_0000 - HEADER_SIZE
    ensures var c := Container(kind, code, transaction, payload);
            Announced(c) && FateOf(|c|, DATA_BUFFER_SIZE, DATA_BUFFER_SIZE) == Overrun
  {
    ContainerParts(kind, code, transaction, payload);
  }

  lemma SameFront(was: seq<uint8>, now: seq<uint8>)
    requires |was| <= |now| && forall i :: 0 <= i < |was| ==> now[i] == was[i]
    ensures now[..|was|] == was
  {
  }

  /** Makes room for the announced length. */
  method MakeRoom(packet: MtpPacket, total: uint32) returns (fate: Fate)
    requires packet.Valid() && packet.fields == [] && packet.ahead == []
    modifies packet, packet.buffer
    ensures packet.Valid() && packet.fields == [] && packet.ahead == []
    ensures packet.buffer == old(packet.buffer) || fresh(packet.buffer)
    ensures old(packet.buffer.Length) <= packet.buffer.Length
    ensures packet.buffer[..][..old(packet.buffer.Length)] == old(packet.buffer[..])
    ensures fate == FateOf(total, old(packet.buffer.Length), packet.increment)
    ensures fate == Returned ==> total <= packet.buffer.Length
  {
    ghost var was := packet.buffer[..];
    var alive := packet.Allocate(Signed(total));
    SameFront(was, packet.buffer[..]);
    fate := if !alive then Aborted else if total <= packet.buffer.Length then Returned else Overrun;
  }

  // ---- Assembling ----

  /** Assembles the next container; `length` is its length, or negative when a read failed.
      However the bus splits a container, it arrives whole, exactly if there is room for it. */
  method ReadData(packet: MtpPacket, bus: Bus) returns (length: int, fate: Fate)
    requires packet.Valid() && packet.fields == [] && packet.ahead == []
    requires HEADER_SIZE <= bus.packet
    modifies packet, packet.buffer, bus`link
    ensures packet.Valid() && packet.fields == [] && packet.ahead == []
    ensures packet.buffer == old(packet.buffer) || fresh(packet.buffer)
    ensures old(packet.buffer.Length) <= packet.buffer.Length
    ensures old(bus.link.wire) != [] && Announced(old(bus.link.wire[0])) ==>
      && (fate == Returned && HEADER_SIZE <= length ==>
            packet.Content() == old(bus.link.wire[0]) && length == packet.packetSize
              && bus.link.wire == old(bus.link.wire)[1..])
      && (old(bus.link.Reliable()) ==>
            && fate == FateOf(|old(bus.link.wire[0])|, old(packet.buffer.Length), packet.increment)
            && (fate == Returned ==> length == |old(bus.link.wire[0])| && bus.link.Reliable()))
  {
    ghost var whole := bus.link.wire != [] && Announced(bus.link.wire[0]);
    ghost var c := if whole then bus.link.wire[0] else [];
    ghost var tail := if whole then bus.link.wire[1..] else [];
    assert whole ==> c[0..] == c && bus.link.wire == Beyond(c, 0, tail);
    length, fate := Assemble(packet, bus, c, tail, whole, bus.link.Reliable());
  }

  /** Reads the container `c`, if that is what lies whole at the front of the wire. */
  method Assemble(packet: MtpPacket, bus: Bus, ghost c: seq<uint8>, ghost tail: seq<seq<uint8>>, ghost whole: bool,
                  ghost reliable: bool)
    returns (length: int, fate: Fate)
    requires packet.Valid() && packet.fields == [] && packet.ahead == [] && HEADER_SIZE <= bus.packet
    requires whole ==> Announced(c) && bus.link.wire == Beyond(c, 0, tail)
    requires reliable ==> bus.link.Reliable()
    modifies packet, packet.buffer, bus`link
    ensures packet.Valid() && packet.fields == [] && packet.ahead == []
    ensures packet.buffer == old(packet.buffer) || fresh(packet.buffer)
    ensures old(packet.buffer.Length) <= packet.buffer.Length
    ensures whole && fate == Returned && HEADER_SIZE <= length ==>
      packet.Content() == c && length == packet.packetSize && bus.link.wire == tail
    ensures whole && reliable ==> fate == FateOf(|c|, old(packet.buffer.Length), packet.increment)
    ensures whole && reliable && fate == Returned ==> length == |c| && bus.link.Reliable()
  {
    assert packet.offset == HEADER_SIZE;
    fate := Returned;
    length := ReadMore(packet.buffer, bus, 0, packet.buffer.Length, c, tail);
    if HEADER_SIZE <= length {
      ghost var first := packet.buffer[..];
      var total := U32At(packet.buffer[..], LENGTH_OFFSET);
      if whole {
        LengthWithin(packet.buffer[..], c, length);
      }
      fate := MakeRoom(packet, total);
      if fate != Returned {
        return;
      }
      assert packet.buffer[..length] == first[..length];
      length := ReadRest(packet.buffer, bus, length, total, c, tail, whole, reliable);
    }
    if length >= 0 {
      packet.packetSize := length;
    }
  }

  /** Reads on until `total` bytes are there. */
  method ReadRest(buffer: array<uint8>, bus: Bus, length: nat, total: nat, ghost c: seq<uint8>,
                  ghost tail: seq<seq<uint8>>,
                  ghost whole: bool, ghost reliable: bool) returns (r: int)
    requires length <= buffer.Length && total <= buffer.Length && 0 < bus.packet
    requires whole ==>
      total == |c| && length <= |c| && buffer[..length] == c[..length] && bus.link.wire == Beyond(c, length, tail)
    requires whole && length == |c| ==> !bus.link.begun
    requires reliable ==> bus.link.Unfailing()
    modifies buffer, bus`link
    ensures -1 <= r <= buffer.Length
    ensures whole && r >= 0 ==> r == |c| && buffer[..r] == c && bus.link.wire == tail
    ensures whole && reliable ==> r == |c|
    ensures whole && reliable ==> bus.link.Reliable()
  {
    r := length;
    while total > r
      invariant 0 <= r <= buffer.Length
      invariant whole ==> r <= |c| && buffer[..r] == c[..r] && bus.link.wire == Beyond(c, r, tail)
      invariant whole && r == |c| ==> !bus.link.begun
      invariant reliable ==> bus.link.Unfailing()
      decreases bus.link.Fuel()
    {
      var n := ReadMore(buffer, bus, r, total - r, c, tail);
      if n >= 0 {
        r := r + n;
      } else {
        return n;
      }
    }
  }
}
