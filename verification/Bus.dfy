/** The bulk pipe from the device to the host. It holds whole containers and hands them out
    in pieces that an outside plan chooses. A read never runs past the end of a container. The
    first piece of one is at least a USB packet, if that much is there; a later piece can be of
    any positive length. */
module Buses {
  import opened MtpTypes

  /** What the bus does with one read: fail, return nothing, or return what is there, cut to
      `bytes` when that is possible and less than what is there. */
  datatype Outcome = Fail | Idle | UpTo(bytes: nat)

  /** The containers still to be read, the outcomes of the next reads, and whether the front
      container is `begun`, that is, has been read in part. Once the outcomes run out every read
      returns what is there. */
  datatype Link = Link(wire: seq<seq<uint8>>, plan: seq<Outcome>, begun: bool) {

    function Next(): Outcome { if plan == [] then UpTo(0) else plan[0] }

    function Rest(): seq<Outcome> { if plan == [] then [] else plan[1..] }

    function Amount(packet: nat, max: nat): nat
      requires wire != []
    {
      var there := Min(max, |wire[0]|);
      var least := if begun then 1 else packet;
      if Next().UpTo? && least <= Next().bytes < there then Next().bytes else there
    }

    /** The bytes that one read of at most `max` returns; None when it fails. */
    function Bytes(packet: nat, max: nat): (r: Option<seq<uint8>>)
      ensures r.Some? ==> |r.value| <= max
    {
      if Next().Fail? || wire == [] then None
      else if Next().Idle? then Some([])
      else Some(wire[0][..Amount(packet, max)])
    }

    function After(packet: nat, max: nat): Link {
      if Next().Fail? || wire == [] || Next().Idle? then Link(wire, Rest(), begun)
      else
        var n := Amount(packet, max);
        if n == |wire[0]| then Link(wire[1..], Rest(), false) else Link([wire[0][n..]] + wire[1..], Rest(), true)
    }

    /** Reads that can still happen, and bytes that can still come. */
    function Fuel(): nat { |plan| + Total(wire) }

    /** Every read returns something, as long as there is something. */
    ghost predicate Unfailing() { forall o :: o in plan ==> o.UpTo? }

    /** Nothing will fail, and the link stands at the start of a container. */
    ghost predicate Reliable() { Unfailing() && !begun }
  }

  function Total(wire: seq<seq<uint8>>): nat {
    if wire == [] then 0 else 1 + |wire[0]| + Total(wire[1..])
  }

  lemma ReadsProgress(l: Link, packet: nat, max: nat)
    requires 0 < max && 0 < packet
    ensures l.Bytes(packet, max).Some? ==> l.After(packet, max).Fuel() < l.Fuel()
    ensures l.Unfailing() ==> l.After(packet, max).Unfailing()
    ensures l.Unfailing() && l.wire != [] && l.wire[0] != [] ==>
      l.Bytes(packet, max).Some? && l.Bytes(packet, max).value != []
  {
    var n := if l.wire == [] then 0 else l.Amount(packet, max);
    if l.wire != [] && n != |l.wire[0]| {
      assert ([l.wire[0][n..]] + l.wire[1..])[1..] == l.wire[1..];
    }
    assert l.plan != [] ==> l.plan[0] in l.plan;
    assert forall o :: o in l.Rest() ==> o in l.plan;
  }

  /** A read request: the buffer it fills and how much of it. */
  class UsbRequest {
    const buffer: array<uint8>
    var bufferLength: nat

    constructor (size: nat)
      ensures fresh(buffer) && buffer.Length == size && bufferLength == 0
    {
      buffer := new uint8[size];
      bufferLength := 0;
    }
  }

  class Bus {
    var link: Link
    const packet: nat
    /** The request that is queued and not yet waited for. */
    var pending: UsbRequest?
    /** Outcomes of the next queue calls; once they run out, queueing succeeds. */
    var queueing: seq<bool>
    /** Whether a queue call has failed so far. */
    var queueRefused: bool
    /** Whether the last wait failed. */
    var waitFailed: bool

    constructor (packet: nat, plan: seq<Outcome>, queueing: seq<bool>)
      ensures link == Link([], plan, false) && this.packet == packet && pending == null && !queueRefused && !waitFailed
    {
      link, this.packet, pending := Link([], plan, false), packet, null;
      this.queueing, queueRefused, waitFailed := queueing, false, false;
    }

    /** A synchronous read into `buffer[at..at + max]`: its length, or -1. */
    method Transfer(buffer: array<uint8>, at: nat, max: nat) returns (n: int)
      requires at + max <= buffer.Length
      modifies this`link, buffer
      ensures link == old(link).After(packet, max)
      ensures match old(link).Bytes(packet, max)
              case None => n == -1 && buffer[..] == old(buffer[..])
              case Some(bytes) => n == |bytes| && buffer[..] == old(buffer[..at]) + bytes + old(buffer[at + |bytes|..])
    {
      var bytes := link.Bytes(packet, max);
      link := link.After(packet, max);
      if bytes.None? {
        return -1;
      }
      n := |bytes.value|;
      forall i | 0 <= i < n {
        buffer[at + i] := bytes.value[i];
      }
      assert buffer[at..at + n] == bytes.value;
      assert buffer[..at] == old(buffer[..at]) && buffer[at + n..] == old(buffer[at + n..]);
      assert buffer[..] == buffer[..at] + buffer[at..at + n] + buffer[at + n..];
    }

    /** Queues a read. The bus owns the request's buffer until the read has been waited for,
        so nothing is known of its contents meanwhile. Only one read may be in flight. */
    method Queue(req: UsbRequest) returns (ok: bool)
      requires pending == null && req.bufferLength <= req.buffer.Length
      modifies this`pending, this`queueing, this`queueRefused, req.buffer
      ensures pending == (if ok then req else null) && queueRefused == (old(queueRefused) || !ok)
    {
      ok := queueing == [] || queueing[0];
      if queueing != [] {
        queueing := queueing[1..];
      }
      queueRefused := queueRefused || !ok;
      if ok {
        pending := req;
        forall i | 0 <= i < req.bufferLength {
          req.buffer[i] := 0;
        }
      }
    }

    /** Waits for the queued read: its length, or -1, in which case it stays queued. */
    method Wait() returns (n: int)
      requires pending != null && pending.bufferLength <= pending.buffer.Length
      modifies this`link, this`pending, this`waitFailed, pending.buffer
      ensures link == old(link).After(packet, old(pending.bufferLength))
      ensures match old(link).Bytes(packet, old(pending.bufferLength))
              case None => n == -1 && waitFailed && pending == old(pending)
              case Some(bytes) =>
                && n == |bytes| && !waitFailed && pending == null
                && old(pending).buffer[..n] == bytes
    {
      var max := pending.bufferLength;
      var bytes := link.Bytes(packet, max);
      link := link.After(packet, max);
      if bytes.None? {
        waitFailed := true;
        return -1;
      }
      n := |bytes.value|;
      var buffer := pending.buffer;
      forall i | 0 <= i < n {
        buffer[i] := bytes.value[i];
      }
      assert buffer[..n] == bytes.value;
      pending, waitFailed := null, false;
    }
  }
}
