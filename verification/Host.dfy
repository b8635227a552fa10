/** The host: its requests, and what it makes of the containers that come back. It talks to a
    device over the link, so that both ends of every transaction are in view. */
module Host {
  import opened MtpTypes
  import opened Wire
  import opened Packets
  import opened Strings
  import opened Buses
  import opened Pipeline
  import opened Transfers
  import opened Tables
  import opened Database
  import opened Datasets
  import opened Properties
  import opened Requests
  import opened Intake
  import PropList
  import opened Sends
  import opened Turns
  import opened Runs
  import Laws
  import Queries
  import opened Server

  /** What the link does with one command: whether it is sent at all, and whether a packet of
      length zero follows the data; and the world around the device. */
  datatype Delivery = Delivery(sent: bool, zeroPacket: bool, env: Env)

  /** Nothing goes wrong on the way. */
  predicate Smooth(d: Delivery) { d.sent && d.env.dataEnding.Done? && d.env.responseEnding.Done? }

  /** The containers of one transaction as they lie on the link. */
  function Carried(written: seq<seq<uint8>>, zeroPacket: bool): seq<seq<uint8>> {
    if |written| == 2 && zeroPacket then [written[0], [], written[1]] else written
  }

  function Nth(q: Request, i: nat): uint32 {
    if i == 0 then q.p1 else if i == 1 then q.p2 else if i == 2 then q.p3 else if i == 3 then q.p4 else q.p5
  }

  /** A request with this operation, transaction and these first parameters. */
  ghost predicate IsRequest(q: Request, operation: uint16, transaction: uint32, words: seq<uint32>) {
    q.operation == operation && q.transaction == transaction && forall i :: 0 <= i < |words| ==> Nth(q, i) == words[i]
  }

  lemma U16Prefix(b: seq<uint8>, c: seq<uint8>, at: nat)
    requires c <= b && at + 2 <= |c|
    ensures U16At(b, at) == U16At(c, at)
  {
  }

  lemma U32Prefix(b: seq<uint8>, c: seq<uint8>, at: nat)
    requires c <= b && at + 4 <= |c|
    ensures U32At(b, at) == U32At(c, at)
  {
  }

  /** The device finds in its buffer the request that the host sent, whatever lies behind it. */
  lemma CommandArrives(b: seq<uint8>, operation: uint16, transaction: uint32, words: seq<uint32>)
    requires PARAMETERS_END <= |b| && |words| <= 5
    requires Container(TYPE_COMMAND, operation, transaction, Encode(U32s(words))) <= b
    ensures IsRequest(RequestIn(b), operation, transaction, words)
  {
    var c := Container(TYPE_COMMAND, operation, transaction, Encode(U32s(words)));
    ContainerParts(TYPE_COMMAND, operation, transaction, Encode(U32s(words)));
    U16Prefix(b, c, CODE_OFFSET);
    U32Prefix(b, c, TRANSACTION_OFFSET);
    EncodeWords(words);
    assert b[HEADER_SIZE..HEADER_SIZE + 4 * |words|] == c[HEADER_SIZE..];
    forall i | 0 <= i < |words|
      ensures Nth(RequestIn(b), i) == words[i]
    {
      PayloadWords(b, words, i);
    }
  }

  /** A read that is offered all of a short container takes all of it. */
  lemma ReadWhole(l: Link, packet: nat, max: nat)
    requires l.Reliable() && l.wire != [] && |l.wire[0]| <= packet && |l.wire[0]| <= max
    ensures l.Bytes(packet, max) == Some(l.wire[0]) && l.After(packet, max).wire == l.wire[1..]
    ensures l.After(packet, max).Reliable()
  {
    assert l.Next().UpTo?;
    assert l.wire[0][..|l.wire[0]|] == l.wire[0];
  }

  /** The packet is none of the device's. */
  ghost predicate Foreign(p: MtpPacket, peer: MtpServer)
    reads p, peer.request, peer.response, peer.data
  {
    && p != peer.request && p != peer.response && p != peer.data
    && p.buffer != peer.request.buffer && p.buffer != peer.response.buffer && p.buffer != peer.data.buffer
  }

  // ---- What a query puts on the link ----

  /** The host can make room for the transaction's data container, however big its packet is. */
  predicate Small(e: Entry) { SmallPayload(|e.payload|) }

  predicate SmallPayload(n: nat) { HEADER_SIZE + n + DATA_BUFFER_SIZE < 0x8000_0000 }

  lemma ResponseShort(e: Entry)
    requires Protocol(e) && e.outcome.Respond?
    ensures HEADER_SIZE <= |Response(e)| <= PARAMETERS_END && Announced(Response(e))
    ensures U16At(Response(e), TYPE_OFFSET) == TYPE_RESPONSE && U16At(Response(e), CODE_OFFSET) == e.outcome.code
    ensures Response(e)[HEADER_SIZE..] == Encode(U32s(e.params)) && |e.params| <= 5
  {
    assert Lawful(e);
    EncodeWords(e.params);
    ContainerParts(TYPE_RESPONSE, e.outcome.code, e.q.transaction, Encode(U32s(e.params)));
  }

  /** A query is answered with its data and the response if it is OK and has data, and with
      the response alone otherwise. */
  lemma QueryOnLink(e: Entry)
    requires Protocol(e) && IsQuery(e.q.operation) && e.q.operation != GET_OBJECT_REFERENCES && !DataIn(e.q.operation)
    requires e.env.dataEnding.Done? && e.env.responseEnding.Done?
    ensures !Throws(e.v, e.q)
    ensures var a := QueryAnswer(e.v, e.q, e.env);
            && e.outcome == Respond(a.code) && e.payload == Encode(a.fields) && e.params == a.params
            && (a.fields != [] ==> a.code == RESPONSE_OK)
            && Written(e) == if a.fields == [] then [Response(e)]
                             else [Container(TYPE_DATA, e.q.operation, e.q.transaction, Encode(a.fields)), Response(e)]
  {
    assert Lawful(e);
    ErrorsAreEmpty(e.v, e.q, e.env);
    EncodeNonempty(QueryAnswer(e.v, e.q, e.env).fields);
  }

  /** The device took `e` to be this query, and answered it as its state demands. */
  ghost predicate AnsweredAs(e: Entry, operation: uint16, v: View, d: Delivery, words: seq<uint32>) {
    && e.v == v && e.q.operation == operation && IsQuery(operation) && !Throws(v, e.q)
    && (forall i :: 0 <= i < |words| ==> Nth(e.q, i) == words[i])
    && e.payload == Encode(QueryAnswer(v, e.q, d.env).fields)
  }

  /** The containers of a query on the link: the first one, what follows it, and the response. */
  datatype Arrival = Arrival(first: seq<uint8>, rest: seq<seq<uint8>>, r: seq<uint8>)

  /** Data, perhaps a packet of length zero, and a response; or a response alone. */
  ghost predicate Shaped(a: Arrival) {
    && Announced(a.first) && SmallPayload(|a.first| - HEADER_SIZE) && HEADER_SIZE <= |a.r| <= PARAMETERS_END
    && (a.rest == [] || a.rest == [a.r] || a.rest == [[], a.r])
    && (a.rest == [] <==> U16At(a.first, TYPE_OFFSET) == TYPE_RESPONSE)
  }

  /** A query's containers arrive in that shape, its payload behind the first header. */
  lemma QueryArrives(e: Entry, zeroPacket: bool) returns (a: Arrival)
    requires Queried(e)
    ensures Shaped(a) && Carried(Written(e), zeroPacket) == [a.first] + a.rest
    ensures a.rest != [] <==> e.payload != []
    ensures a.rest != [] ==> U16At(a.r, CODE_OFFSET) == RESPONSE_OK && a.first[HEADER_SIZE..] == e.payload
  {
    QueryOnLink(e);
    ResponseShort(e);
    EncodeNonempty(QueryAnswer(e.v, e.q, e.env).fields);
    a := ArrivalOf(Written(e), e.q.operation, e.q.transaction, e.payload, Response(e), zeroPacket);
  }

  lemma ArrivalOf(w: seq<seq<uint8>>, operation: uint16, transaction: uint32, payload: seq<uint8>, r: seq<uint8>,
                  zeroPacket: bool)
    returns (a: Arrival)
    requires w == if payload == [] then [r] else [Container(TYPE_DATA, operation, transaction, payload), r]
    requires HEADER_SIZE <= |r| <= PARAMETERS_END && Announced(r) && U16At(r, TYPE_OFFSET) == TYPE_RESPONSE
    requires SmallPayload(|payload|)
    ensures Shaped(a) && Carried(w, zeroPacket) == [a.first] + a.rest && a.r == r
    ensures a.rest != [] <==> payload != []
    ensures a.rest != [] ==> a.first[HEADER_SIZE..] == payload
  {
    ContainerParts(TYPE_DATA, operation, transaction, payload);
    a := Arrival(w[0], if |w| == 1 then [] else if zeroPacket then [[], r] else [r], r);
  }

  /** A query that nothing went wrong with. */
  ghost predicate Queried(e: Entry) {
    && Protocol(e) && IsQuery(e.q.operation) && e.q.operation != GET_OBJECT_REFERENCES && !DataIn(e.q.operation)
    && e.env.dataEnding.Done? && e.env.responseEnding.Done? && Small(e)
  }

  ghost predicate Steady(h: MtpDevice)
    reads h.request, h.request.buffer, h.response, h.response.buffer, h.data, h.data.buffer
    reads h.peer, h.peer.db, h.peer.request, h.peer.request.buffer, h.peer.response
    reads h.peer.response.buffer, h.peer.data, h.peer.data.buffer
  {
    h.Own() && h.Apart() && h.peer.Ready()
  }

  class MtpDevice {
    const peer: MtpServer
    const bus: Bus
    const request: MtpPacket
    const response: MtpPacket
    const data: MtpPacket
    var sessionID: uint32
    var transactionID: uint32
    var receivedResponse: bool

    /** The host's own packets are sound and do not share buffers. */
    ghost predicate Own()
      reads request, request.buffer, response, response.buffer, data, data.buffer
    {
      && request != response && request != data && response != data
      && request.buffer != response.buffer && request.buffer != data.buffer && response.buffer != data.buffer
      && request.Valid() && request.Plain() && COMMAND_SIZE <= request.buffer.Length
      && response.Valid() && response.Plain() && COMMAND_SIZE <= response.buffer.Length
      && data.Valid() && data.increment == DATA_BUFFER_SIZE
      && 64 <= bus.packet <= DATA_BUFFER_SIZE <= data.buffer.Length
    }

    /** The two ends share no packets. */
    ghost predicate Apart()
      reads request, response, data, peer.request, peer.response, peer.data
    {
      && Foreign(request, peer) && Foreign(response, peer) && Foreign(data, peer)
    }

    /** Both ends are sound and apart. (The quantifier keeps Steady folded until it is named.) */
    ghost predicate Ready()
      reads request, request.buffer, response, response.buffer, data, data.buffer
      reads peer, peer.db, peer.request, peer.request.buffer
      reads peer.response, peer.response.buffer, peer.data, peer.data.buffer
    {
      forall h: MtpDevice {:trigger Steady(h)} :: h == this ==> Steady(h)
    }

    /** All buffers, of both ends, are the same or new ones. */
    twostate predicate BuffersKept()
      reads request, response, data, peer.request, peer.response, peer.data
    {
      && request.buffer == old(request.buffer) && (response.buffer == old(response.buffer) || fresh(response.buffer))
      && (data.buffer == old(data.buffer) || fresh(data.buffer)) && PeerBuffersKept()
    }

    /** The device's buffers are the same, or new ones. */
    twostate predicate PeerBuffersKept()
      reads peer.request, peer.response, peer.data
    {
      && peer.request.buffer == old(peer.request.buffer) && peer.response.buffer == old(peer.response.buffer)
      && (peer.data.buffer == old(peer.data.buffer) || fresh(peer.data.buffer))
    }

    constructor (peer: MtpServer, bus: Bus)
      requires peer.Ready() && 64 <= bus.packet <= DATA_BUFFER_SIZE
      ensures this.peer == peer && this.bus == bus && Ready() && transactionID == 0
      ensures fresh(request) && fresh(response) && fresh(data) && fresh(request.buffer) && fresh(response.buffer)
      ensures fresh(data.buffer)
    {
      this.peer, this.bus := peer, bus;
      request := new MtpPacket(512);
      response := new MtpPacket(512);
      data := new MtpPacket(DATA_BUFFER_SIZE);
      sessionID, transactionID, receivedResponse := 0, 0, false;
      new;
      assert Steady(this);
    }

    // ---- Sending ----

    /** Sends the command; the device handles it and puts its containers on the link. */
    method SendRequest(operation: uint16, d: Delivery, ghost words: seq<uint32>)
      returns (ok: bool, ghost step: Option<Step>)
      requires Ready() && Prepared(words)
      modifies this`receivedResponse, this`transactionID, bus`link, request.buffer
      modifies peer, peer.db, peer.request`packetSize, peer.request.buffer
      modifies peer.data, peer.data.buffer, peer.response, peer.response.buffer
      ensures 64 <= bus.packet <= CHUNK
      ensures Ready() && BuffersKept() && !receivedResponse && ok == d.sent
      ensures transactionID == (if old(transactionID) == 0 then 0 else (old(transactionID) + 1) % 0x1_0000_0000)
      ensures d.sent && (!DataIn(operation) || HEADER_SIZE <= |d.env.incoming|) ==> step.Some?
      ensures match step
              case None => bus.link == old(bus.link)
              case Some(s) =>
                && IsRequest(s.e.q, operation, if old(transactionID) > 0 then old(transactionID) else 0, words)
                && s.e.env == d.env && StepOk(s) && s.d0 == old(peer.Now()) && s.d1 == peer.Now()
                && bus.link == old(bus.link).(wire := old(bus.link.wire) + Carried(Written(s.e), d.zeroPacket))
    {
      ghost var d0 := peer.Now();
      assert Steady(this);
      ok, step := Deliver(d0, operation, d, words);
      assert Steady(this);
    }

    method Deliver(ghost d0: Device, operation: uint16, d: Delivery, ghost words: seq<uint32>)
      returns (ok: bool, ghost step: Option<Step>)
      requires request.Valid() && request.Plain() && Foreign(request, peer) && peer.Ready() && Prepared(words)
      requires d0 == peer.Now()
      modifies this`receivedResponse, this`transactionID, bus`link, request.buffer
      modifies peer, peer.db, peer.request`packetSize, peer.request.buffer
      modifies peer.data, peer.data.buffer, peer.response, peer.response.buffer
      ensures peer.Ready() && PeerBuffersKept() && request.Valid() && request.Plain() && !receivedResponse
      ensures ok == d.sent
      ensures transactionID == (if old(transactionID) == 0 then 0 else (old(transactionID) + 1) % 0x1_0000_0000)
      ensures d.sent && (!DataIn(operation) || HEADER_SIZE <= |d.env.incoming|) ==> step.Some?
      ensures match step
              case None => bus.link == old(bus.link)
              case Some(s) =>
                && IsRequest(s.e.q, operation, if old(transactionID) > 0 then old(transactionID) else 0, words)
                && s.e.env == d.env && StepOk(s) && s.d0 == d0 && s.d1 == peer.Now()
                && bus.link == old(bus.link).(wire := old(bus.link.wire) + Carried(Written(s.e), d.zeroPacket))
    {
      receivedResponse := false;
      var bytes := MakeCommand(operation, words);
      ok, step := d.sent, None;
      if d.sent {
        assert this as object != peer;
        step := Exchange(d0, bytes, d, operation, U32At(bytes, TRANSACTION_OFFSET), words);
      }
    }

    /** Numbers the transaction, once a session is open, and completes the command. */
    method MakeCommand(operation: uint16, ghost words: seq<uint32>) returns (bytes: CommandBytes)
      requires request.Valid() && request.Plain() && COMMAND_SIZE <= request.buffer.Length && |words| <= 5
      requires request.packetSize == HEADER_SIZE + 4 * |words| && request.Words()[..|words|] == words
      modifies this`transactionID, request.buffer
      ensures request.Valid() && request.Plain()
      ensures transactionID == (if old(transactionID) == 0 then 0 else (old(transactionID) + 1) % 0x1_0000_0000)
      ensures var transaction := if old(transactionID) > 0 then old(transactionID)
              else old(U32At(request.buffer[..], TRANSACTION_OFFSET));
              bytes == Container(TYPE_COMMAND, operation, transaction, Encode(U32s(words)))
                && U32At(bytes, TRANSACTION_OFFSET) == transaction
    {
      var transaction := U32At(request.buffer[..], TRANSACTION_OFFSET);
      if transactionID > 0 {
        transaction := transactionID;
        transactionID := (transactionID + 1) % 0x1_0000_0000;
      }
      WordsPayload(request.buffer[..], request.Words(), |words|);
      ContainerParts(TYPE_COMMAND, operation, transaction, Encode(U32s(words)));
      bytes := request.Transmit(TYPE_COMMAND, operation, transaction);
    }

    /** The device's turn; what it writes goes on the link. */
    method Exchange(ghost d0: Device, bytes: CommandBytes, d: Delivery, ghost operation: uint16,
                    ghost transaction: uint32, ghost words: seq<uint32>)
      returns (ghost step: Option<Step>)
      requires peer.Ready() && d0 == peer.Now()
      requires |words| <= 5 && bytes == Container(TYPE_COMMAND, operation, transaction, Encode(U32s(words)))
      modifies bus`link
      modifies peer, peer.db, peer.request`packetSize, peer.request.buffer
      modifies peer.data, peer.data.buffer, peer.response, peer.response.buffer
      ensures peer.Ready() && PeerBuffersKept()
      ensures step.None? ==> DataIn(operation) && |d.env.incoming| < HEADER_SIZE && bus.link == old(bus.link)
      ensures step.Some? ==>
        var s := step.value;
        && IsRequest(s.e.q, operation, transaction, words)
        && s.e.env == d.env && StepOk(s) && s.d0 == d0 && s.d1 == peer.Now()
        && bus.link == old(bus.link).(wire := old(bus.link.wire) + Carried(Written(s.e), d.zeroPacket))
    {
      var written;
      written, step := Hear(d0, bytes, d, operation, transaction, words);
      Put(Carried(written, d.zeroPacket));
    }

    /** The device finds the request in what it read, and answers it. */
    method Hear(ghost d0: Device, bytes: CommandBytes, d: Delivery, ghost operation: uint16, ghost transaction: uint32,
                ghost words: seq<uint32>)
      returns (written: seq<seq<uint8>>, ghost step: Option<Step>)
      requires peer.Ready() && d0 == peer.Now()
      requires |words| <= 5 && bytes == Container(TYPE_COMMAND, operation, transaction, Encode(U32s(words)))
      modifies peer, peer.db, peer.request`packetSize, peer.request.buffer
      modifies peer.data, peer.data.buffer, peer.response, peer.response.buffer
      ensures peer.Ready() && PeerBuffersKept()
      ensures step.None? ==> DataIn(operation) && |d.env.incoming| < HEADER_SIZE && written == []
      ensures step.Some? ==>
        var s := step.value;
        && IsRequest(s.e.q, operation, transaction, words)
        && s.e.env == d.env && StepOk(s) && s.d0 == d0 && s.d1 == peer.Now()
        && written == Written(s.e)
    {
      var flow;
      written, flow, step := peer.Answer(bytes, d.env);
      CommandArrives(peer.request.buffer[..], operation, transaction, words);
    }

    /** Puts containers on the link. */
    method Put(containers: seq<seq<uint8>>)
      modifies bus`link
      ensures bus.link == old(bus.link).(wire := old(bus.link.wire) + containers)
      ensures containers == [] ==> bus.link == old(bus.link)
    {
      bus.link := bus.link.(wire := bus.link.wire + containers);
    }

    // ---- Reading ----

    /** Reads one container in the place of the data. A response there is kept for later. */
    method ReadDataPhase(ghost c: seq<uint8>, ghost rest: seq<seq<uint8>>) returns (ok: bool)
      requires Own()
      modifies this`receivedResponse, bus`link, data, data.buffer, response, response.buffer
      ensures Own() && (data.buffer == old(data.buffer) || fresh(data.buffer))
      ensures response.buffer == old(response.buffer) || fresh(response.buffer)
      ensures old(bus.link.Reliable()) && old(bus.link.wire) == [c] + rest && Announced(c)
              && FateOf(|c|, old(data.buffer.Length), DATA_BUFFER_SIZE) == Returned ==>
        && bus.link.wire == rest && bus.link.Reliable()
        && (if U16At(c, TYPE_OFFSET) == TYPE_RESPONSE then !ok && receivedResponse && response.Content() == c
            else ok && receivedResponse == old(receivedResponse) && data.Plain() && data.Content() == c)
    {
      data.Reset();
      var n, fate := Transfers.ReadData(data, bus);
      ok := false;
      if fate == Returned && HEADER_SIZE <= n {
        ok := KeepResponse(c);
      }
    }

    /** Sets a response aside that has come in the place of the data. */
    method KeepResponse(ghost c: seq<uint8>) returns (ok: bool)
      requires Own() && data.Plain()
      modifies this`receivedResponse, response, response.buffer
      ensures Own() && (response.buffer == old(response.buffer) || fresh(response.buffer))
      ensures old(data.Content()) == c && Announced(c) ==>
        if U16At(c, TYPE_OFFSET) == TYPE_RESPONSE then !ok && receivedResponse && response.Content() == c
        else ok && receivedResponse == old(receivedResponse)
    {
      ok := true;
      if data.Content() == c && Announced(c) {
        U16Prefix(data.buffer[..], c, TYPE_OFFSET);
      }
      if U16At(data.buffer[..], TYPE_OFFSET) == TYPE_RESPONSE {
        response.CopyFrom(data);
        receivedResponse := true;
        ok := false;
      }
    }

    /** Reads the response, unless it has come in the place of the data. Tries again after a
        packet of length zero. */
    method ReadResponse(ghost r: seq<uint8>, ghost zero: bool) returns (code: uint16)
      requires Own()
      modifies this`receivedResponse, bus`link, response`packetSize, response.buffer
      ensures Own() && !receivedResponse
      ensures old(receivedResponse) ==>
        && code == U16At(response.buffer[..], CODE_OFFSET) && bus.link == old(bus.link)
        && response.packetSize == old(response.packetSize) && response.buffer[..] == old(response.buffer[..])
      ensures !old(receivedResponse) && old(bus.link.Reliable()) && HEADER_SIZE <= |r| <= PARAMETERS_END
              && old(bus.link.wire) == (if zero then [[], r] else [r]) ==>
        code == U16At(r, CODE_OFFSET) && response.Content() == r && bus.link.wire == [] && bus.link.Reliable()
      ensures !old(receivedResponse) && old(bus.link.Reliable()) && old(bus.link.wire) == [] ==>
        code == 0xFFFF && bus.link.wire == [] && bus.link.Reliable()
    {
      if receivedResponse {
        receivedResponse := false;
        return U16At(response.buffer[..], CODE_OFFSET);
      }
      var n := NextResponse(r, zero);
      if HEADER_SIZE <= n {
        if HEADER_SIZE <= |r| && response.Content() == r {
          U16Prefix(response.buffer[..], r, CODE_OFFSET);
        }
        code := U16At(response.buffer[..], CODE_OFFSET);
      } else {
        code := 0xFFFF;
      }
    }

    /** Reads the response, behind a packet of length zero if there is one. */
    method NextResponse(ghost r: seq<uint8>, ghost zero: bool) returns (n: int)
      requires Own()
      modifies bus`link, response`packetSize, response.buffer
      ensures Own() && (n >= 0 ==> response.packetSize == n)
      ensures old(bus.link.Reliable()) && HEADER_SIZE <= |r| <= PARAMETERS_END
              && old(bus.link.wire) == (if zero then [[], r] else [r]) ==>
        n == |r| && response.Content() == r && bus.link.wire == [] && bus.link.Reliable()
      ensures old(bus.link.Reliable()) && old(bus.link.wire) == [] ==>
        n < HEADER_SIZE && bus.link.wire == [] && bus.link.Reliable()
    {
      ghost var good := bus.link.Reliable() && HEADER_SIZE <= |r| <= PARAMETERS_END
        && bus.link.wire == (if zero then [[], r] else [r]);
      if good {
        ReadWhole(bus.link, bus.packet, response.buffer.Length);
      }
      n := TransferResponse();
      if n == 0 {
        if good {
          ReadWhole(bus.link, bus.packet, response.buffer.Length);
        }
        n := TransferResponse();
      }
    }

    /** One read into the response packet. */
    method TransferResponse() returns (n: int)
      requires Own()
      modifies bus`link, response`packetSize, response.buffer
      ensures Own() && bus.link == old(bus.link).After(bus.packet, response.buffer.Length)
      ensures match old(bus.link).Bytes(bus.packet, response.buffer.Length)
              case None => n == -1
              case Some(bytes) => n == |bytes| && response.Content() == bytes
    {
      n := bus.Transfer(response.buffer, 0, response.buffer.Length);
      response.packetSize := if n >= 0 then n else 0;
      if n >= 0 {
        assert response.buffer[..n] == old(bus.link).Bytes(bus.packet, response.buffer.Length).value;
      }
    }

    // ---- Queries ----

    /** A request for data: the command, then the data or a response in its place, then the
        response. When nothing goes wrong, the link is empty again afterwards, and the data
        packet holds the device's answer if and only if there is one. */
    method Query(operation: uint16, d: Delivery, ghost words: seq<uint32>) returns (got: bool, ghost step: Option<Step>)
      requires Ready() && Prepared(words)
      requires IsQuery(operation) && operation != GET_OBJECT_REFERENCES
      modifies this`receivedResponse, this`transactionID, bus`link
      modifies request.buffer, data, data.buffer, response, response.buffer
      modifies peer, peer.db, peer.request`packetSize, peer.request.buffer
      modifies peer.data, peer.data.buffer, peer.response, peer.response.buffer
      ensures BuffersKept()
      ensures Ready()
      ensures Smooth(d) ==> step.Some? && AnsweredAs(step.value.e, operation, old(peer.ViewNow()), d, words)
      ensures Smooth(d) ==> StepOk(step.value) && step.value.d0 == old(peer.Now()) && step.value.d1 == peer.Now()
      ensures Smooth(d) && old(Calm()) && Small(step.value.e) ==> Calm() && Holds(got, step.value.e)
    {
      var ok;
      ok, step := SendQuery(operation, d, words);
      got := false;
      if ok {
        got := TakeAnswer(step.value.e, d);
      }
    }

    /** Reads the data of a query, and its response. */
    method TakeAnswer(ghost e: Entry, d: Delivery) returns (got: bool)
      requires Ready() && !receivedResponse
      modifies this`receivedResponse, bus`link, data, data.buffer, response, response.buffer
      ensures BuffersKept()
      ensures Ready() && peer.Now() == old(peer.Now())
      ensures Smooth(d) && old(bus.link.Reliable()) && old(bus.link.wire) == Carried(Written(e), d.zeroPacket)
              && Queried(e) ==>
        Calm() && Holds(got, e)
    {
      ghost var a := Arrival([], [], []);
      if Queried(e) {
        a := QueryArrives(e, d.zeroPacket);
      }
      got := TakeArrival(a);
    }

    /** Takes the containers of a query off the link; the device is not concerned. */
    method TakeArrival(ghost a: Arrival) returns (got: bool)
      requires Ready() && !receivedResponse
      modifies this`receivedResponse, bus`link, data, data.buffer, response, response.buffer
      ensures BuffersKept() && Ready() && peer.Now() == old(peer.Now())
      ensures old(bus.link.Reliable()) && old(bus.link.wire) == [a.first] + a.rest && Shaped(a) ==> Collected(a, got)
    {
      assert Steady(this);
      got := Collect(a);
      assert Steady(this);
    }

    /** What lies in the data packet, behind the header. */
    ghost predicate DataIs(payload: seq<uint8>)
      reads data, data.buffer
    {
      && data.Plain() && HEADER_SIZE <= data.packetSize <= data.buffer.Length
      && data.buffer[HEADER_SIZE..data.packetSize] == payload
    }

    /** The data packet holds what arrived, if it is data with an OK response. */
    ghost predicate Collected(a: Arrival, got: bool)
      requires Shaped(a)
      reads bus, data, data.buffer
    {
      && Calm()
      && (got <==> a.rest != [] && U16At(a.r, CODE_OFFSET) == RESPONSE_OK)
      && (got ==> DataIs(a.first[HEADER_SIZE..]))
    }

    /** Sends a request for data. */
    method SendQuery(operation: uint16, d: Delivery, ghost words: seq<uint32>)
      returns (ok: bool, ghost step: Option<Step>)
      requires Ready() && Prepared(words)
      requires IsQuery(operation) && operation != GET_OBJECT_REFERENCES
      modifies this`receivedResponse, this`transactionID, bus`link, request.buffer
      modifies peer, peer.db, peer.request`packetSize, peer.request.buffer
      modifies peer.data, peer.data.buffer, peer.response, peer.response.buffer
      ensures BuffersKept()
      ensures Ready() && !receivedResponse && ok == d.sent && (ok ==> step.Some?)
      ensures Smooth(d) ==> AnsweredAs(step.value.e, operation, old(peer.ViewNow()), d, words)
      ensures Smooth(d) ==> StepOk(step.value) && step.value.d0 == old(peer.Now()) && step.value.d1 == peer.Now()
      ensures Smooth(d) && old(Calm()) ==>
        bus.link.Reliable() && bus.link.wire == Carried(Written(step.value.e), d.zeroPacket)
      ensures Smooth(d) && Small(step.value.e) ==> Queried(step.value.e)
    {
      QueryNotDataIn(operation);
      ok, step := SendRequest(operation, d, words);
      if Smooth(d) {
        ghost var e := step.value.e;
        QueryOnLink(e);
        NothingBefore(Carried(Written(e), d.zeroPacket));
      }
    }

    /** Takes the containers of a query off the link. */
    method Collect(ghost a: Arrival) returns (got: bool)
      requires Own() && !receivedResponse
      modifies this`receivedResponse, bus`link, data, data.buffer, response, response.buffer
      ensures Own() && (data.buffer == old(data.buffer) || fresh(data.buffer))
      ensures response.buffer == old(response.buffer) || fresh(response.buffer)
      ensures old(bus.link.Reliable()) && old(bus.link.wire) == [a.first] + a.rest && Shaped(a) ==> Collected(a, got)
    {
      got := ReadDataPhase(a.first, a.rest);
      assert HEADER_SIZE <= data.packetSize <= data.buffer.Length ==>
        data.buffer[HEADER_SIZE..data.packetSize] == data.Content()[HEADER_SIZE..];
      if got {
        var code := ReadResponse(a.r, |a.rest| == 2);
        got := code == RESPONSE_OK;
      }
    }

    /** The data packet holds the data of a query, if there is any. */
    ghost predicate Holds(got: bool, e: Entry)
      reads data, data.buffer
    {
      && (got <==> e.payload != [])
      && (got ==> DataIs(e.payload))
    }

    // ---- Preparing commands and reading answers ----

    /** The command has these parameters and no transaction yet. */
    ghost predicate Prepared(words: seq<uint32>)
      reads request, request.buffer
    {
      && COMMAND_SIZE <= request.buffer.Length && |words| <= 5 && request.packetSize == HEADER_SIZE + 4 * |words|
      && request.Words()[..|words|] == words && U32At(request.buffer[..], TRANSACTION_OFFSET) == 0
    }

    /** Resets the command and sets its parameters, one after the other. */
    method Prepare(words: seq<uint32>)
      requires Ready() && |words| <= 5
      modifies request, request.buffer
      ensures Ready() && Prepared(words) && request.buffer == old(request.buffer)
      ensures peer.Now() == old(peer.Now()) && bus.link == old(bus.link)
    {
      assert Steady(this);
      request.Reset();
      for i := 0 to |words|
        invariant request.Valid() && request.Plain() && request.buffer == old(request.buffer) && Prepared(words[..i])
      {
        SetNext(i, words[i], words[..i]);
        TakeMore(words, i);
      }
      assert words[..|words|] == words;
      assert Steady(this);
    }

    method SetNext(i: nat, value: uint32, ghost before: seq<uint32>)
      requires request.Valid() && request.Plain() && Prepared(before) && i == |before| < 5
      modifies request`packetSize, request.buffer
      ensures request.Valid() && request.Plain() && Prepared(before + [value])
    {
      ghost var was := request.buffer[..];
      request.SetParameter(i + 1, value);
      SameTransaction(was, request.buffer[..]);
      assert request.Words()[..i + 1] == before + [value];
    }

    // ---- The calls ----

    /** Nothing is on the link, and it loses nothing. */
    ghost predicate Calm()
      reads bus
    {
      bus.link.wire == [] && bus.link.Reliable()
    }

    /** Prepares and sends a request for data, and takes what comes back. */
    method AskFor(operation: uint16, words: seq<uint32>, d: Delivery) returns (got: bool, ghost step: Step)
      requires Ready() && Smooth(d) && |words| <= 5 && IsQuery(operation) && operation != GET_OBJECT_REFERENCES
      modifies this`receivedResponse, this`transactionID, bus`link, request
      modifies request.buffer, data, data.buffer, response, response.buffer
      modifies peer, peer.db, peer.request`packetSize, peer.request.buffer
      modifies peer.data, peer.data.buffer, peer.response, peer.response.buffer
      ensures BuffersKept()
      ensures Ready() && StepOk(step) && step.d0 == old(peer.Now()) && step.d1 == peer.Now()
      ensures AnsweredAs(step.e, operation, old(peer.ViewNow()), d, words)
      ensures old(Calm()) && Small(step.e) ==> Calm() && Holds(got, step.e)
    {
      Prepare(words);
      ghost var s;
      got, s := Query(operation, d, words);
      step := s.value;
    }

    /** The integers that lie in the data packet are those of `fs`. */
    ghost method ExpectData(fs: seq<Field>)
      requires Own() && DataIs(Encode(fs))
      modifies data`ahead
      ensures Own() && data.ahead == fs && data.End() == data.packetSize
    {
      assert data.buffer[HEADER_SIZE..][..data.packetSize - HEADER_SIZE] == data.buffer[HEADER_SIZE..data.packetSize];
      data.Expect(fs);
    }

    /** The object's description as the device has it, or nothing when the device refuses. The
        cursor ends up at the end of the data. */
    method GetObjectInfo(handle: uint32, d: Delivery) returns (info: Option<ObjectInfo>)
      requires Ready() && Calm() && Smooth(d) && (handle in peer.db.db ==> ShortEntry(peer.db.db[handle]))
      modifies this`receivedResponse, this`transactionID, bus`link, request
      modifies request.buffer, data, data.buffer, response, response.buffer
      modifies peer, peer.db, peer.request`packetSize, peer.request.buffer
      modifies peer.data, peer.data.buffer, peer.response, peer.response.buffer
      ensures Ready() && Calm()
      ensures info == InfoSeen(old(peer.ViewNow()), handle)
      ensures var v := old(peer.ViewNow());
              && (info.Some? <==> v.storages != [] && Laws.Known(v.db, handle))
              && (info.Some? ==> Queries.Tells(v, handle, info.value))
      ensures info.Some? ==> data.offset == data.packetSize
    {
      ghost var v := peer.ViewNow();
      InfoSeenTells(handle);
      var got;
      ghost var step;
      got, step := AskFor(GET_OBJECT_INFO, [handle], d);
      ghost var e := step.e;
      assert Nth(e.q, 0) == [handle][0];
      InfoAnswered(v, e, handle, d.env);
      info := None;
      if got {
        var read := ReadObjectInfo(ServedInfo(v, handle));
        info := Some(read);
      }
    }

    lemma InfoSeenTells(handle: uint32)
      requires Ready()
      ensures var (v, info) := (peer.ViewNow(), InfoSeen(peer.ViewNow(), handle));
              && (info.Some? <==> v.storages != [] && Laws.Known(v.db, handle))
              && (info.Some? ==> Queries.Tells(v, handle, info.value))
    {
      assert Steady(this);
      peer.HealthyNow();
      assert Sane(peer.Now());
      Laws.EditFound(peer.edits, handle);
    }

    method ReadObjectInfo(ghost s: ObjectInfo) returns (info: ObjectInfo)
      requires Ready() && DataIs(Encode(InfoFields(s))) && ShortInfo(s)
      modifies data`offset, data`fields, data`ahead
      ensures Ready() && info == s && data.offset == data.packetSize
    {
      assert Steady(this);
      info := ParseObjectInfo(s);
      assert Steady(this);
    }

    method ParseObjectInfo(ghost s: ObjectInfo) returns (info: ObjectInfo)
      requires Own() && DataIs(Encode(InfoFields(s))) && ShortInfo(s)
      modifies data`offset, data`fields, data`ahead
      ensures Own() && info == s && data.offset == data.packetSize
    {
      ExpectData(InfoFields(s));
      SentIsReceived(Units(s.name));
      SentIsReceived(Units(s.created));
      SentIsReceived(Units(s.modified));
      SentIsReceived(Units(s.keywords));
      TextOfName(s.name);
      TextOfName(s.created);
      TextOfName(s.modified);
      TextOfName(s.keywords);
      var o := new MtpObjectInfo(BlankInfo());
      o.Read(data, s, Terminated(Units(s.name)), Terminated(Units(s.created)), Terminated(Units(s.modified)),
             Terminated(Units(s.keywords)));
      info := o.data;
    }

    method GetStorageInfo(id: uint32, d: Delivery) returns (info: Option<StorageInfo>)
      requires Ready() && Calm() && Smooth(d)
      requires forall s :: s in peer.storages ==> |Units(s.info.description)| <= 254
      modifies this`receivedResponse, this`transactionID, bus`link, request
      modifies request.buffer, data, data.buffer, response, response.buffer
      modifies peer, peer.db, peer.request`packetSize, peer.request.buffer
      modifies peer.data, peer.data.buffer, peer.response, peer.response.buffer
      ensures Ready() && Calm()
      ensures info == StorageSeen(old(peer.ViewNow()), id, d.env)
      ensures info.Some? <==> old(peer.sessionOpen) && exists i: nat :: Laws.StorageAt(old(peer.storages), id, i)
      ensures info.Some? ==>
        && info.value.maxCapacity == d.env.info.maxCapacity && info.value.freeSpace == d.env.info.freeSpace
        && forall i: nat :: Laws.StorageAt(old(peer.storages), id, i) ==>
             info.value.description == old(peer.storages)[i].info.description
      ensures info.Some? ==> data.offset == data.packetSize
    {
      ghost var v := peer.ViewNow();
      var got;
      ghost var step;
      got, step := AskFor(GET_STORAGE_INFO, [id], d);
      ghost var e := step.e;
      assert Nth(e.q, 0) == [id][0];
      StorageAnswered(v, e, id, d.env);
      Queries.StorageExactly(v.storages, id);
      info := None;
      if got {
        var read := ReadStorageInfo(StorageSeen(v, id, d.env).value);
        info := Some(read);
      }
    }

    method ReadStorageInfo(ghost s: StorageInfo) returns (info: StorageInfo)
      requires Ready() && DataIs(Encode(StorageFields(s))) && ShortStorage(s)
      modifies data`offset, data`fields, data`ahead
      ensures Ready() && info == s && data.offset == data.packetSize
    {
      assert Steady(this);
      info := ParseStorageInfo(s);
      assert Steady(this);
    }

    method ParseStorageInfo(ghost s: StorageInfo) returns (info: StorageInfo)
      requires Own() && DataIs(Encode(StorageFields(s))) && ShortStorage(s)
      modifies data`offset, data`fields, data`ahead
      ensures Own() && info == s && data.offset == data.packetSize
    {
      ExpectData(StorageFields(s));
      SentIsReceived(Units(s.description));
      SentIsReceived(Units(s.volume));
      TextOfName(s.description);
      TextOfName(s.volume);
      var o := new MtpStorageInfo(StorageInfo(0, 0, 0, 0, 0, 0, [], []));
      o.Read(data, s, Terminated(Units(s.description)), Terminated(Units(s.volume)));
      info := o.data;
    }

    method GetDeviceInfo(d: Delivery) returns (info: Option<DeviceInfo>)
      requires Ready() && Calm() && Smooth(d) && ShortDevice(d.env.device)
      modifies this`receivedResponse, this`transactionID, bus`link, request
      modifies request.buffer, data, data.buffer, response, response.buffer
      modifies peer, peer.db, peer.request`packetSize, peer.request.buffer
      modifies peer.data, peer.data.buffer, peer.response, peer.response.buffer
      ensures Ready() && Calm()
      ensures info == Some(ServedDeviceInfo(peer.ptp, d.env.device)) && data.offset == data.packetSize
    {
      ghost var s := ServedDeviceInfo(peer.ptp, d.env.device);
      var got := AskForDevice(d, s);
      info := None;
      if got {
        var read := ReadDeviceInfo(s);
        info := Some(read);
      }
    }

    method AskForDevice(d: Delivery, ghost s: DeviceInfo) returns (got: bool)
      requires Ready() && Calm() && Smooth(d) && ShortDevice(d.env.device)
      requires s == ServedDeviceInfo(peer.ptp, d.env.device)
      modifies this`receivedResponse, this`transactionID, bus`link, request
      modifies request.buffer, data, data.buffer, response, response.buffer
      modifies peer, peer.db, peer.request`packetSize, peer.request.buffer
      modifies peer.data, peer.data.buffer, peer.response, peer.response.buffer
      ensures Ready() && Calm() && got && BuffersKept()
      ensures DataIs(Encode(DeviceFields(s))) && ShortDevice(s)
    {
      ghost var v := peer.ViewNow();
      ghost var step;
      got, step := AskFor(GET_DEVICE_INFO, [], d);
      DeviceAnswered(v, step.e, d, s);
    }

    method ReadDeviceInfo(ghost s: DeviceInfo) returns (info: DeviceInfo)
      requires Ready() && DataIs(Encode(DeviceFields(s))) && ShortDevice(s)
      modifies data`offset, data`fields, data`ahead
      ensures Ready() && info == s && data.offset == data.packetSize
    {
      assert Steady(this);
      info := ParseDeviceInfo(s);
      assert Steady(this);
    }

    method ParseDeviceInfo(ghost s: DeviceInfo) returns (info: DeviceInfo)
      requires Own() && DataIs(Encode(DeviceFields(s))) && ShortDevice(s)
      modifies data`offset, data`fields, data`ahead
      ensures Own() && info == s && data.offset == data.packetSize
    {
      ExpectData(DeviceFields(s));
      SentIsReceived(Units(s.extensions));
      SentIsReceived(Units(s.manufacturer));
      SentIsReceived(Units(s.model));
      SentIsReceived(Units(s.deviceVersion));
      SentIsReceived(Units(s.serial));
      TextOfName(s.extensions);
      TextOfName(s.manufacturer);
      TextOfName(s.model);
      TextOfName(s.deviceVersion);
      TextOfName(s.serial);
      var o := new MtpDeviceInfo(BlankDevice());
      o.Read(data, s, Terminated(Units(s.extensions)), Terminated(Units(s.manufacturer)), Terminated(Units(s.model)),
             Terminated(Units(s.deviceVersion)), Terminated(Units(s.serial)));
      info := o.data;
    }

    /** The handles that the device lists, in its order. */
    method GetObjectHandles(storage: uint32, format: uint16, parent: uint32, d: Delivery)
      returns (list: Option<seq<uint32>>)
      requires Ready() && Calm() && Smooth(d) && |peer.db.db| < 0x1000_0000
      modifies this`receivedResponse, this`transactionID, bus`link, request
      modifies request.buffer, data, data.buffer, response, response.buffer
      modifies peer, peer.db, peer.request`packetSize, peer.request.buffer
      modifies peer.data, peer.data.buffer, peer.response, peer.response.buffer
      ensures Ready() && Calm()
      ensures list == HandlesSeen(old(peer.ViewNow()), storage, format, parent)
      ensures list.Some? ==>
        && (forall i, j :: 0 <= i < j < |list.value| ==> list.value[i] < list.value[j])
        && forall h :: h in list.value <==>
             && h in old(peer.db.db) && old(peer.db.db)[h].storage == storage
             && old(peer.db.db)[h].parent == (if parent == PARENT_ROOT then 0 else parent)
             && (format == 0 || old(peer.db.db)[h].format == format)
      ensures list.Some? ==> data.offset == data.packetSize
    {
      ghost var v := peer.ViewNow();
      var got;
      ghost var step;
      got, step := AskFor(GET_OBJECT_HANDLES, [storage, format as uint32, parent], d);
      ghost var e := step.e;
      assert Nth(e.q, 0) == [storage, format as uint32, parent][0]
        && Nth(e.q, 1) == [storage, format as uint32, parent][1];
      assert Nth(e.q, 2) == [storage, format as uint32, parent][2];
      HandlesAnswered(v, e, storage, format, parent);
      ListingSelects(v.db, storage, format, parent);
      list := None;
      if got {
        var read := ReadList(HandlesSeen(v, storage, format, parent).value);
        list := Some(read);
      }
    }

    method ReadList(ghost list: seq<uint32>) returns (r: seq<uint32>)
      requires Ready() && DataIs(Encode(Array32(list))) && |list| < 0x1_0000_0000
      modifies data`offset, data`fields, data`ahead
      ensures Ready() && r == list && data.offset == data.packetSize
    {
      assert Steady(this);
      r := ParseList(list);
      assert Steady(this);
    }

    method ParseList(ghost list: seq<uint32>) returns (r: seq<uint32>)
      requires Own() && DataIs(Encode(Array32(list))) && |list| < 0x1_0000_0000
      modifies data`offset, data`fields, data`ahead
      ensures Own() && r == list && data.offset == data.packetSize
    {
      ExpectData(Array32(list));
      assert Array32(list) + [] == Array32(list);
      r := data.GetAUInt32(list, []);
    }

    method GetStorageIDs(d: Delivery) returns (ids: Option<seq<uint32>>)
      requires Ready() && Calm() && Smooth(d) && |peer.storages| < 0x1000_0000
      modifies this`receivedResponse, this`transactionID, bus`link, request
      modifies request.buffer, data, data.buffer, response, response.buffer
      modifies peer, peer.db, peer.request`packetSize, peer.request.buffer
      modifies peer.data, peer.data.buffer, peer.response, peer.response.buffer
      ensures Ready() && Calm()
      ensures ids == (if old(peer.sessionOpen) then Some(StorageIDs(old(peer.storages))) else None)
    {
      ghost var v := peer.ViewNow();
      var got;
      ghost var step;
      got, step := AskFor(GET_STORAGE_IDS, [], d);
      ghost var e := step.e;
      ListAnswered(e, if v.sessionOpen then Some(StorageIDs(v.storages)) else None, StorageIDsAnswer(v).fields);
      ids := None;
      if got {
        var read := ReadList(StorageIDs(v.storages));
        ids := Some(read);
      }
    }

    /** The description of an object property as the device makes it, read back. */
    method GetObjectPropDesc(property: uint16, format: uint16, d: Delivery) returns (p: Option<Property>)
      requires Ready() && Calm() && Smooth(d)
      modifies this`receivedResponse, this`transactionID, bus`link, request
      modifies request.buffer, data, data.buffer, response, response.buffer
      modifies peer, peer.db, peer.request`packetSize, peer.request.buffer
      modifies peer.data, peer.data.buffer, peer.response, peer.response.buffer
      ensures Ready() && Calm()
      ensures p == if DescribedKind(property).None? then None else Some(ComesBack(Description(property)))
      ensures p.Some? ==> data.offset == data.packetSize
    {
      ghost var v := peer.ViewNow();
      var got;
      ghost var step;
      got, step := AskFor(GET_OBJECT_PROP_DESC, [property as uint32, format as uint32], d);
      ghost var e := step.e;
      assert Nth(e.q, 0) == [property as uint32, format as uint32][0];
      DescAnswered(e, property);
      p := None;
      if got {
        var read := ReadPropDesc(property);
        p := Some(read);
      }
    }

    method ReadPropDesc(ghost property: uint16) returns (p: Property)
      requires WellFormed(Description(property)) && !IsDevice(property)
      requires Ready() && DataIs(Encode(WrittenFields(Description(property))))
      modifies data`offset, data`fields, data`ahead
      ensures Ready() && p == ComesBack(Description(property)) && data.offset == data.packetSize
    {
      assert Steady(this);
      p := ParsePropDesc(property);
      assert Steady(this);
    }

    method ParsePropDesc(ghost property: uint16) returns (p: Property)
      requires WellFormed(Description(property)) && !IsDevice(property)
      requires Own() && DataIs(Encode(WrittenFields(Description(property))))
      modifies data`offset, data`fields, data`ahead
      ensures Own() && p == ComesBack(Description(property)) && data.offset == data.packetSize
    {
      ghost var s := Description(property);
      ExpectData(WrittenFields(s));
      var o := new MtpProperty(BLANK);
      o.Read(data, s);
      p := o.data;
    }

    // ---- Calls without data ----

    /** The response's parameters are these. */
    ghost predicate ParametersRead(params: seq<uint32>)
      reads response, response.buffer
    {
      PARAMETERS_END <= response.buffer.Length && forall i :: 0 <= i < |params| <= 5 ==>
        response.Parameter(i + 1) == params[i]
    }

    /** A command that is answered by a response alone. */
    method Order(operation: uint16, words: seq<uint32>, d: Delivery) returns (code: uint16, ghost step: Step)
      requires Ready() && Smooth(d) && |words| <= 5 && CanOrder(operation, d)
      modifies this`receivedResponse, this`transactionID, bus`link, request, request.buffer
      modifies response`packetSize, response.buffer
      modifies peer, peer.db, peer.request`packetSize, peer.request.buffer
      modifies peer.data, peer.data.buffer, peer.response, peer.response.buffer
      ensures BuffersKept() && PARAMETERS_END <= response.buffer.Length
      ensures Ready() && StepOk(step) && step.d0 == old(peer.Now()) && step.d1 == peer.Now() && step.e.env == d.env
      ensures OrderedAs(step.e, operation, words)
      ensures old(Calm()) ==> Calm() && code == step.e.outcome.code && ParametersRead(step.e.params)
    {
      step := SendOrder(operation, words, d);
      code := TakeCode(step.e);
    }

    method SendOrder(operation: uint16, words: seq<uint32>, d: Delivery) returns (ghost step: Step)
      requires Ready() && Smooth(d) && |words| <= 5 && CanOrder(operation, d)
      modifies this`receivedResponse, this`transactionID, bus`link, request, request.buffer
      modifies peer, peer.db, peer.request`packetSize, peer.request.buffer
      modifies peer.data, peer.data.buffer, peer.response, peer.response.buffer
      ensures Ready() && !receivedResponse && BuffersKept()
      ensures StepOk(step) && step.d0 == old(peer.Now()) && step.d1 == peer.Now() && Orderly(step.e)
      ensures step.e.env == d.env && OrderedAs(step.e, operation, words)
      ensures old(Calm()) ==> bus.link.Reliable() && bus.link.wire == [Response(step.e)]
    {
      Prepare(words);
      step := SendPrepared(operation, words, d);
    }

    method SendPrepared(operation: uint16, ghost words: seq<uint32>, d: Delivery) returns (ghost step: Step)
      requires Ready() && Smooth(d) && Prepared(words) && CanOrder(operation, d)
      modifies this`receivedResponse, this`transactionID, bus`link, request.buffer
      modifies peer, peer.db, peer.request`packetSize, peer.request.buffer
      modifies peer.data, peer.data.buffer, peer.response, peer.response.buffer
      ensures Ready() && !receivedResponse && BuffersKept()
      ensures StepOk(step) && step.d0 == old(peer.Now()) && step.d1 == peer.Now() && Orderly(step.e)
      ensures step.e.env == d.env && OrderedAs(step.e, operation, words)
      ensures old(Calm()) ==> bus.link.Reliable() && bus.link.wire == [Response(step.e)]
    {
      var ok;
      ghost var s;
      ok, s := SendRequest(operation, d, words);
      step := s.value;
      OrderOnLink(step.e, operation, step.e.q.transaction, words);
      NothingBefore([Response(step.e)]);
    }

    /** Reads the response of a command that has no data. */
    method TakeCode(ghost e: Entry) returns (code: uint16)
      requires Ready() && !receivedResponse && Orderly(e)
      modifies this`receivedResponse, bus`link, response`packetSize, response.buffer
      ensures Ready() && PARAMETERS_END <= response.buffer.Length && peer.Now() == old(peer.Now())
      ensures old(bus.link.Reliable()) && old(bus.link.wire) == [Response(e)] ==>
        Calm() && code == e.outcome.code && ParametersRead(e.params)
    {
      assert Steady(this);
      code := ReadCode(e);
      assert Steady(this);
    }

    method ReadCode(ghost e: Entry) returns (code: uint16)
      requires Own() && !receivedResponse && Orderly(e)
      modifies this`receivedResponse, bus`link, response`packetSize, response.buffer
      ensures Own() && !receivedResponse
      ensures old(bus.link.Reliable()) && old(bus.link.wire) == [Response(e)] ==>
        && bus.link.wire == [] && bus.link.Reliable() && code == e.outcome.code
        && ParametersRead(e.params)
    {
      ResponseShort(e);
      ghost var r := Response(e);
      code := ReadResponse(r, false);
      if r <= response.buffer[..] {
        AllParameters(response.buffer[..], e);
      }
      assert response.packetSize <= response.buffer.Length && response.Content() == r ==> r <= response.buffer[..];
    }

    /** Opens a session, or joins the one that is open. */
    method OpenSession(d: Delivery) returns (ok: bool, ghost step: Step)
      requires Ready() && Smooth(d)
      modifies this`receivedResponse, this`transactionID, this`sessionID, bus`link
      modifies request, request.buffer, response`packetSize, response.buffer
      modifies peer, peer.db, peer.request`packetSize, peer.request.buffer
      modifies peer.data, peer.data.buffer, peer.response, peer.response.buffer
      ensures BuffersKept()
      ensures Ready() && StepOk(step) && step.d0 == old(peer.Now()) && step.d1 == peer.Now()
      ensures OrderedAs(step.e, OPEN_SESSION, [1]) && peer.sessionOpen
      ensures old(Calm()) ==> Calm() && ok && transactionID == 1 && sessionID == peer.sessionID
      ensures peer.sessionID == if old(peer.sessionOpen) then old(peer.sessionID) else 1
    {
      sessionID := 0;
      transactionID := 0;
      var newSession: uint32 := 1;
      var code;
      code, step := AskToOpen(newSession, d);
      ok := JoinSession(code, newSession);
    }

    method AskToOpen(newSession: uint32, d: Delivery) returns (code: uint16, ghost step: Step)
      requires Ready() && Smooth(d) && newSession == 1
      modifies this`receivedResponse, this`transactionID, bus`link, request, request.buffer
      modifies response`packetSize, response.buffer
      modifies peer, peer.db, peer.request`packetSize, peer.request.buffer
      modifies peer.data, peer.data.buffer, peer.response, peer.response.buffer
      ensures BuffersKept() && PARAMETERS_END <= response.buffer.Length
      ensures Ready() && StepOk(step) && step.d0 == old(peer.Now()) && step.d1 == peer.Now()
      ensures OrderedAs(step.e, OPEN_SESSION, [1]) && peer.sessionOpen
      ensures peer.sessionID == if old(peer.sessionOpen) then old(peer.sessionID) else 1
      ensures old(Calm()) ==>
        Calm() && if old(peer.sessionOpen) then
                    code == RESPONSE_SESSION_ALREADY_OPEN && response.Parameter(1) == old(peer.sessionID)
                  else code == RESPONSE_OK
    {
      code, step := Order(OPEN_SESSION, [newSession], d);
      OpenReply(step);
      assert step.d0.v.sessionOpen ==> step.e.params[0] == step.d0.v.sessionID;
    }

    method JoinSession(code: uint16, newSession: uint32) returns (ok: bool)
      requires Ready() && PARAMETERS_END <= response.buffer.Length
      modifies this`sessionID, this`transactionID
      ensures Ready() && ok == (code == RESPONSE_OK || code == RESPONSE_SESSION_ALREADY_OPEN)
      ensures peer.Now() == old(peer.Now())
      ensures if ok then transactionID == 1
              && sessionID == (if code == RESPONSE_OK then newSession else response.Parameter(1))
              else transactionID == old(transactionID) && sessionID == old(sessionID)
    {
      var session := newSession;
      if code == RESPONSE_SESSION_ALREADY_OPEN {
        session := response.Parameter(1);
      } else if code != RESPONSE_OK {
        return false;
      }
      sessionID := session;
      transactionID := 1;
      ok := true;
    }

    /** Deletes an object; the device's table loses it and its direct children. */
    method DeleteObject(handle: uint32, d: Delivery) returns (ok: bool, ghost step: Step)
      requires Ready() && Smooth(d)
      modifies this`receivedResponse, this`transactionID, bus`link, request, request.buffer
      modifies response`packetSize, response.buffer
      modifies peer, peer.db, peer.request`packetSize, peer.request.buffer
      modifies peer.data, peer.data.buffer, peer.response, peer.response.buffer
      ensures BuffersKept()
      ensures Ready() && StepOk(step) && step.d0 == old(peer.Now()) && step.d1 == peer.Now()
      ensures OrderedAs(step.e, DELETE_OBJECT, [handle])
      ensures old(Calm()) ==> Calm() && ok == (DeleteCode(step.e.v, step.e.q) == RESPONSE_OK)
      ensures old(Calm()) && ok ==> old(peer.storages) != [] && Sends.Lookup(old(peer.db.db), handle) == RESPONSE_OK
      ensures old(Calm()) && !ok ==>
        old(peer.storages) == [] || Sends.Lookup(old(peer.db.db), handle) != RESPONSE_OK || |old(peer.db.db)| == 1
      ensures peer.db.db == if old(peer.storages) == [] then old(peer.db.db) else Deleted(old(peer.db.db), handle)
      ensures var (was, now) := (old(peer.db.db), peer.db.db);
              if old(peer.storages) != [] && handle != 0 && handle != PARENT_ROOT && handle in was then
                && (forall k :: k in now <==> k in was && k != handle && was[k].parent != handle)
                && (forall k :: k in now ==> now[k] == was[k])
              else now == was
    {
      var code;
      code, step := Order(DELETE_OBJECT, [handle], d);
      DeleteReply(step, handle);
      ok := code == RESPONSE_OK;
    }

    /** Announces an object. Nothing resets the data packet first: only from the start of the
        payload does the device find what was put, and then it goes by the announcement's storage,
        parent, size, format and name. It answers, but the host never looks: the data never counts
        as sent, so the result is always the invalid handle, and the response stays on the link. */
    method SendObjectInfo(info: ObjectInfo, d: Delivery)
      returns (handle: uint32, accepted: ObjectInfo, ghost step: Step)
      requires Ready() && Smooth(d)
      modifies this`receivedResponse, this`transactionID, bus`link, request, request.buffer
      modifies data, data.buffer, response`packetSize, response.buffer
      modifies peer, peer.db, peer.request`packetSize, peer.request.buffer
      modifies peer.data, peer.data.buffer, peer.response, peer.response.buffer
      ensures BuffersKept()
      ensures Ready() && StepOk(step) && step.d0 == old(peer.Now()) && step.d1 == peer.Now()
      ensures handle == 0xFFFF_FFFF && accepted == info
      ensures OrderedAs(step.e, SEND_OBJECT_INFO, [info.storage, info.parent])
      ensures old(Calm()) ==> bus.link.Reliable() && bus.link.wire == [Response(step.e)]
      ensures step.e.outcome == Respond(RESPONSE_OK) ==>
        step.e.params == [info.storage, if info.parent == PARENT_ROOT then 0 else info.parent, step.e.v.counter]
      ensures old(data.offset) == HEADER_SIZE && ShortInfo(info) ==>
        && WentBy(GivenUp(step.d0, step.e.q), step.e.q, step.e.env, step.e.outcome, step.d1, SentIncoming(info))
        && Text(SentIncoming(info).name) == info.name
        && Laws.WentAs(GivenUp(step.d0, step.e.q), step.e.q, step.e.env, step.e.outcome, step.d1,
                       info.size, info.format, info.name)
    {
      ghost var start := data.offset;
      var incoming := PutInfo(info);
      step := SendOrder(SEND_OBJECT_INFO, [info.storage, info.parent], d.(env := d.env.(incoming := incoming)));
      ReplyOfInfo(step.e, info);
      if start == HEADER_SIZE && ShortInfo(info) {
        InfoConsidered(step, info);
      }
      DataNeverCountsAsSent(|incoming|);
      handle, accepted := TakeInfoReply(CountsAsSent(|incoming|), info, step.e);
    }

    /** Once its data counts as sent, an announcement's response is read, and gives the handle. */
    method TakeInfoReply(sent: bool, info: ObjectInfo, ghost e: Entry) returns (handle: uint32, accepted: ObjectInfo)
      requires Ready() && !receivedResponse && Orderly(e)
      modifies this`receivedResponse, bus`link, response`packetSize, response.buffer
      ensures Ready() && peer.Now() == old(peer.Now())
      ensures !sent ==> handle == 0xFFFF_FFFF && accepted == info && bus.link == old(bus.link)
      ensures sent && old(bus.link.Reliable()) && old(bus.link.wire) == [Response(e)] ==> Calm()
      ensures sent && old(bus.link.Reliable()) && old(bus.link.wire) == [Response(e)] && |e.params| == 3 ==>
        if e.outcome.code == RESPONSE_OK then
          handle == e.params[2] && accepted == info.(storage := e.params[0], parent := e.params[1])
        else handle == 0xFFFF_FFFF && accepted == info
    {
      handle, accepted := 0xFFFF_FFFF, info;
      if sent {
        var code := TakeCode(e);
        if code == RESPONSE_OK {
          accepted := info.(storage := response.Parameter(1), parent := response.Parameter(2));
          handle := response.Parameter(3);
        }
      }
    }

    /** Writes an announcement; the device's one read takes what fits its buffer. */
    method PutInfo(info: ObjectInfo) returns (incoming: Burst)
      requires Ready()
      modifies data, data.buffer
      ensures Ready() && BuffersKept() && HEADER_SIZE <= |incoming|
      ensures old(data.offset) == HEADER_SIZE && ShortInfo(info) ==>
        Encode(IncomingFields(SentIncoming(info))) <= incoming[HEADER_SIZE..]
    {
      assert Steady(this);
      incoming := WriteInfo(info);
      assert Steady(this);
    }

    method WriteInfo(info: ObjectInfo) returns (incoming: Burst)
      requires Own()
      modifies data, data.buffer
      ensures Own() && (data.buffer == old(data.buffer) || fresh(data.buffer)) && HEADER_SIZE <= |incoming|
      ensures old(data.offset) == HEADER_SIZE && ShortInfo(info) ==>
        Encode(IncomingFields(SentIncoming(info))) <= incoming[HEADER_SIZE..]
    {
      ghost var start, before := data.offset, data.fields;
      EncodeNonempty(before);
      assert start == HEADER_SIZE ==> before == [];
      WriteSendObjectInfo(data, info);
      ghost var b := data.buffer[HEADER_SIZE..data.packetSize];
      if start == HEADER_SIZE {
        NothingBefore(InfoFields(info));
        FrontOf(data.buffer[..], HEADER_SIZE, data.offset, data.packetSize);
      }
      incoming := Take(info, b);
    }

    /** Completes the container; `b` is its payload. */
    method Take(ghost info: ObjectInfo, ghost b: seq<uint8>) returns (incoming: Burst)
      requires data.Valid() && HEADER_SIZE <= data.packetSize && b == data.buffer[HEADER_SIZE..data.packetSize]
      modifies data.buffer
      ensures data.Valid() && HEADER_SIZE <= |incoming|
      ensures ShortInfo(info) && Encode(InfoFields(info)) <= b ==>
        Encode(IncomingFields(SentIncoming(info))) <= incoming[HEADER_SIZE..]
    {
      var c := data.Transmit(TYPE_DATA, SEND_OBJECT_INFO, transactionID);
      ContainerParts(TYPE_DATA, SEND_OBJECT_INFO, transactionID, b);
      incoming := if |c| <= DATA_BUFFER_SIZE then c else c[..DATA_BUFFER_SIZE];
      if ShortInfo(info) && Encode(InfoFields(info)) <= b {
        InfoOnTheWay(info, c, b);
      }
    }

    // ---- Objects ----

    /** Reads the first packet of what comes back. The cursor, which nothing looks at before the
        next reset, is put back here. */
    method ReadDataHeader() returns (n: int)
      requires Own()
      modifies bus`link, data`packetSize, data`offset, data`fields, data`ahead, data.buffer
      ensures Own() && data.Plain() && bus.link == old(bus.link).After(bus.packet, bus.packet)
      ensures match old(bus.link).Bytes(bus.packet, bus.packet)
              case None => n == -1
              case Some(bytes) => n == |bytes| && data.packetSize == n && data.Content() == bytes
    {
      ghost var bytes := bus.link.Bytes(bus.packet, bus.packet);
      n := bus.Transfer(data.buffer, 0, bus.packet);
      assert n >= 0 ==> data.buffer[..n] == bytes.value;
      data.offset, data.fields, data.ahead := HEADER_SIZE, [], [];
      if n >= 0 {
        data.packetSize := n;
      }
    }

    /** What came with the header. */
    function InitialData(): seq<uint8>
      reads data, data.buffer
    {
      if HEADER_SIZE < data.packetSize <= data.buffer.Length then data.buffer[HEADER_SIZE..data.packetSize] else []
    }

    /** Passes on what came with the header and then the rest, `length` bytes in all. */
    method ReceiveBody(length: uint32, sink: Sink, ghost already: seq<seq<uint8>>, ghost rest: Copy)
      returns (done: bool)
      requires 0 < bus.packet && bus.pending == null && !bus.queueRefused && !sink.refused && sink.calls == []
      requires already == (if InitialData() == [] then [] else [InitialData()])
      requires Remains(rest, bus.link, bus.packet, Left(length, |InitialData()|))
      modifies bus, sink
      ensures PrefixOfCalls(sink.calls, 0, already + rest.chunks)
      ensures done ==> rest.ok && bus.link == rest.link && sink.calls == Calls(0, already + rest.chunks)
      ensures !done ==> sink.refused || bus.queueRefused || !rest.ok
      ensures bus.pending == null || bus.waitFailed
      ensures length == 0 && old(InitialData()) == [] ==> done && bus.link == old(bus.link) && sink.calls == []
    {
      var initial := InitialData();
      var left: nat := length;
      if initial != [] {
        left := Left(length, |initial|);
      }
      ghost var copy := rest.(chunks := already + rest.chunks);
      done := PassFirst(initial, sink, copy, already, rest);
      if done {
        assert rest == Sequential(bus.link, bus.packet, left);
        done := Pump(bus, sink, left, ToInt32(|initial|), copy, 0, already);
      }
    }

    /** Passes on what came with the header, if anything did. */
    method PassFirst(initial: seq<uint8>, sink: Sink, ghost copy: Copy, ghost already: seq<seq<uint8>>,
                     ghost rest: Copy)
      returns (ok: bool)
      requires !sink.refused && sink.calls == []
      requires already == (if initial == [] then [] else [initial]) && copy == rest.(chunks := already + rest.chunks)
      modifies sink
      ensures PrefixOfCalls(sink.calls, 0, copy.chunks) && sink.refused == !ok
      ensures initial == [] ==> ok && sink.calls == []
      ensures Halfway(copy, 0, sink.calls, already, [], rest) && |Concat(already)| == |initial|
    {
      ok := true;
      if initial != [] {
        FirstCall(copy, rest, initial);
        ok := sink.Accept(initial, 0);
      } else {
        NoCall(copy, rest);
        HalfwayPrefix(copy, 0, [], [], [], rest);
      }
    }

    /** Receives the body of an object and the response. Whatever the link does to `o`, the
        calls pass on the payload in order, and all of it when nothing refuses. */
    method ReceiveObject(length: uint32, sink: Sink, ghost o: Coming)
      returns (result: bool, ghost chunks: seq<seq<uint8>>)
      requires Ready() && !receivedResponse
      requires bus.pending == null && !bus.queueRefused && !sink.refused && sink.calls == []
      modifies this`receivedResponse, bus, sink, response`packetSize, response.buffer
      ensures Ready()
      ensures old(Arriving(o)) && length == |o.c| - HEADER_SIZE ==>
        && PassedOn(sink.calls, chunks, o.c[HEADER_SIZE..], result)
        && (result ==> Calm())
        && (!sink.refused && !bus.queueRefused ==> result)
      ensures length == 0 && old(InitialData()) == [] && old(Calm()) ==> !result && Calm() && sink.calls == []
    {
      assert Steady(this);
      var done;
      done, chunks := PassBody(length, sink, o);
      result := false;
      if done {
        var code := ReadResponse(o.r, o.zero);
        result := code == RESPONSE_OK;
      }
      assert Steady(this);
    }

    /** Receives the body of an object. */
    method PassBody(length: uint32, sink: Sink, ghost o: Coming) returns (done: bool, ghost chunks: seq<seq<uint8>>)
      requires 0 < bus.packet && bus.pending == null && !bus.queueRefused && !sink.refused && sink.calls == []
      modifies bus, sink
      ensures old(Arriving(o)) && length == |o.c| - HEADER_SIZE ==>
        && PassedOn(sink.calls, chunks, o.c[HEADER_SIZE..], done)
        && (done ==> bus.link.wire == Following(o) && bus.link.Reliable())
        && (!sink.refused && !bus.queueRefused ==> done)
      ensures length == 0 && old(InitialData()) == [] ==> done && bus.link == old(bus.link) && sink.calls == []
    {
      ghost var already := if InitialData() == [] then [] else [InitialData()];
      ghost var rest := Copying(bus.link, bus.packet, Left(length, |InitialData()|));
      if Arriving(o) && length == |o.c| - HEADER_SIZE {
        BodyComes(o, already, rest);
      }
      chunks := already + rest.chunks;
      done := ReceiveBody(length, sink, already, rest);
    }

    /** The first packet of `o` has been read, the rest is on the link. */
    ghost predicate Arriving(o: Coming)
      reads bus, data, data.buffer
    {
      && WellFormedObject(o) && AtBody(bus.link, o)
      && data.packetSize <= data.buffer.Length && data.Content() == o.c[..o.n]
    }

    lemma BodyComes(o: Coming, already: seq<seq<uint8>>, rest: Copy)
      requires 0 < bus.packet && Arriving(o)
      requires already == if InitialData() == [] then [] else [InitialData()]
      requires Remains(rest, bus.link, bus.packet, Left(|o.c| - HEADER_SIZE, |InitialData()|))
      ensures rest.ok && rest.link.wire == Following(o) && rest.link.Reliable()
      ensures Concat(already + rest.chunks) == o.c[HEADER_SIZE..]
      ensures Splits(already + rest.chunks, |o.c| - HEADER_SIZE)
    {
      InitialIs(o);
      LeftToRead(|o.c|, o.n);
      BodyDelivers(bus.link, bus.packet, o, already, rest);
    }

    lemma InitialIs(o: Coming)
      requires Arriving(o)
      ensures InitialData() == o.c[HEADER_SIZE..o.n]
    {
      assert data.packetSize == o.n;
      assert HEADER_SIZE < o.n ==> data.buffer[HEADER_SIZE..o.n] == data.Content()[HEADER_SIZE..];
    }

    /** Asks for an object and reads the first packet. */
    method StartObject(handle: uint32, d: Delivery) returns (n: int, length: uint32, ghost o: Coming)
      requires Ready() && Calm() && Smooth(d) && !d.env.transfer.Cancelled?
      modifies this`receivedResponse, this`transactionID, bus`link, request, request.buffer
      modifies data`packetSize, data`offset, data`fields, data`ahead, data.buffer
      modifies peer, peer.db, peer.request`packetSize, peer.request.buffer
      modifies peer.data, peer.data.buffer, peer.response, peer.response.buffer
      ensures BuffersKept()
      ensures Ready() && !receivedResponse
      ensures match ObjectSeen(old(peer.ViewNow()), handle, d.env)
              case None => Calm() && n == HEADER_SIZE && InitialData() == [] && length == n
              case Some(payload) =>
                HEADER_SIZE + |payload| < 0x1_0000_0000 ==>
                  Arriving(o) && o.c[HEADER_SIZE..] == payload && n == o.n && length == |o.c|
    {
      o := RequestObject(handle, d);
      HeaderRead(bus.link, bus.packet);
      n, length := ReadHeader(o);
    }

    method ReadHeader(ghost o: Coming) returns (n: int, length: uint32)
      requires Ready()
      modifies bus`link, data`packetSize, data`offset, data`fields, data`ahead, data.buffer
      ensures Ready() && BuffersKept() && bus.link == old(bus.link).After(bus.packet, bus.packet)
      ensures match old(bus.link).Bytes(bus.packet, bus.packet)
              case None => true
              case Some(bytes) =>
                && n == |bytes| && data.packetSize == n <= data.buffer.Length && data.Content() == bytes
                && (HEADER_SIZE <= n && bytes <= o.c && Announced(o.c) ==> length == |o.c|)
    {
      assert Steady(this);
      ghost var bytes := bus.link.Bytes(bus.packet, bus.packet);
      n := ReadDataHeader();
      length := U32At(data.buffer[..], LENGTH_OFFSET);
      if bytes.Some? {
        assert data.buffer[..][..n] == data.buffer[..n];
        FirstLength(data.buffer[..], o, n);
      }
      assert Steady(this);
    }

    /** What was asked for is on the link: the object and an OK response, or an error alone. */
    ghost predicate OnLink(seen: Option<seq<uint8>>, o: Coming)
      reads bus
    {
      match seen
      case None => bus.link.wire == [o.c] && |o.c| == HEADER_SIZE && Announced(o.c) && o.n == HEADER_SIZE
      case Some(payload) =>
        && bus.link.wire == [o.c] + Following(o) && HEADER_SIZE <= |o.c| && o.c[HEADER_SIZE..] == payload
        && o.n == Min(bus.packet, |o.c|)
        && (HEADER_SIZE + |payload| < 0x1_0000_0000 ==> WellFormedObject(o))
    }

    method RequestObject(handle: uint32, d: Delivery) returns (ghost o: Coming)
      requires Ready() && Calm() && Smooth(d) && !d.env.transfer.Cancelled?
      modifies this`receivedResponse, this`transactionID, bus`link, request, request.buffer
      modifies peer, peer.db, peer.request`packetSize, peer.request.buffer
      modifies peer.data, peer.data.buffer, peer.response, peer.response.buffer
      ensures BuffersKept() && 64 <= bus.packet <= CHUNK
      ensures Ready() && !receivedResponse && bus.link.Reliable()
      ensures OnLink(ObjectSeen(old(peer.ViewNow()), handle, d.env), o)
    {
      ghost var v := peer.ViewNow();
      Prepare([handle]);
      o := RequestPrepared(v, handle, d);
    }

    method RequestPrepared(ghost v: View, ghost handle: uint32, d: Delivery) returns (ghost o: Coming)
      requires Ready() && Calm() && Smooth(d) && !d.env.transfer.Cancelled?
      requires v == peer.ViewNow() && Prepared([handle])
      modifies this`receivedResponse, this`transactionID, bus`link, request.buffer
      modifies peer, peer.db, peer.request`packetSize, peer.request.buffer
      modifies peer.data, peer.data.buffer, peer.response, peer.response.buffer
      ensures BuffersKept() && 64 <= bus.packet <= CHUNK
      ensures Ready() && !receivedResponse && bus.link.Reliable()
      ensures OnLink(ObjectSeen(v, handle, d.env), o)
    {
      var ok;
      ghost var s;
      ok, s := SendRequest(GET_OBJECT, d, [handle]);
      ghost var e := s.value.e;
      assert Nth(e.q, 0) == [handle][0];
      o := ObjectArrives(e, handle, d.zeroPacket, bus.packet);
    }

    /** Reads an object of a size that the caller knows, and passes it to the callback: in
        order, and all of it if nothing refuses. When the size, as an unsigned integer, is not what
        the device announces, nothing is passed on. The offsets are signed: they are right for up
        to 2^31 bytes, and beyond that exactly for the splits that start no piece from there on. */
    method ReadObject(handle: uint32, sink: Sink, objectSize: int32, d: Delivery)
      returns (result: bool, ghost chunks: seq<seq<uint8>>)
      requires Ready() && Calm() && Smooth(d) && !d.env.transfer.Cancelled?
      requires bus.pending == null && !bus.queueRefused && !sink.refused && sink.calls == []
      modifies this`receivedResponse, this`transactionID, bus, sink, request
      modifies request.buffer, data, data.buffer, response`packetSize, response.buffer
      modifies peer, peer.db, peer.request`packetSize, peer.request.buffer
      modifies peer.data, peer.data.buffer, peer.response, peer.response.buffer
      ensures Ready()
      ensures match ObjectSeen(old(peer.ViewNow()), handle, d.env)
              case None => !result && sink.calls == [] && Calm()
              case Some(payload) =>
                HEADER_SIZE + |payload| < 0x1_0000_0000 ==>
                  if |payload| != objectSize % 0x1_0000_0000 then !result && sink.calls == []
                  else
                    && PassedOn(sink.calls, chunks, payload, result)
                    && (|payload| <= 0x8000_0000 ==> RightOffsets(chunks))
                    && (RightOffsets(chunks) <==>
                          forall k :: 0 <= k < |chunks| ==> |Concat(chunks[..k])| < 0x8000_0000)
                    && (result ==> Calm())
                    && (!sink.refused && !bus.queueRefused ==> result)
    {
      var n, length;
      ghost var o;
      n, length, o := StartObject(handle, d);
      if n == 0 {
        return false, [];
      }
      if (length - HEADER_SIZE) % 0x1_0000_0000 != objectSize % 0x1_0000_0000 {
        return false, [];
      }
      result, chunks := ReceiveObject((length - HEADER_SIZE) % 0x1_0000_0000, sink, o);
      OffsetsExactly(chunks);
      if Splits(chunks, |Concat(chunks)|) && |Concat(chunks)| <= 0x8000_0000 {
        SmallOffsets(chunks);
      }
    }

    /** Reads an object to a file, which takes no notice of the offsets. */
    method ReadObjectToFile(handle: uint32, file: Sink, d: Delivery)
      returns (result: bool, ghost chunks: seq<seq<uint8>>)
      requires Ready() && Calm() && Smooth(d) && !d.env.transfer.Cancelled?
      requires bus.pending == null && !bus.queueRefused && !file.refused && file.calls == []
      modifies this`receivedResponse, this`transactionID, bus, file, request
      modifies request.buffer, data, data.buffer, response`packetSize, response.buffer
      modifies peer, peer.db, peer.request`packetSize, peer.request.buffer
      modifies peer.data, peer.data.buffer, peer.response, peer.response.buffer
      ensures Ready()
      ensures match ObjectSeen(old(peer.ViewNow()), handle, d.env)
              case None => !result && file.calls == [] && Calm()
              case Some(payload) =>
                HEADER_SIZE + |payload| < 0x1_0000_0000 ==>
                  && PassedOn(file.calls, chunks, payload, result)
                  && Bytes(file.calls) <= payload && (result ==> Bytes(file.calls) == payload && Calm())
                  && (!file.refused && !bus.queueRefused ==> result)
    {
      var n, length;
      ghost var o;
      n, length, o := StartObject(handle, d);
      if n == 0 {
        return false, [];
      }
      if length < HEADER_SIZE {
        return false, [];
      }
      result, chunks := ReceiveObject(length - HEADER_SIZE, file, o);
      if PassedOn(file.calls, chunks, Concat(chunks), result) {
        PassedOnBytes(file.calls, chunks, Concat(chunks), result);
      }
    }
  }

  /** The bytes of an object that the device can send. */
  function ObjectSeen(v: View, handle: uint32, env: Env): Option<seq<uint8>> {
    if v.storages == [] || Sends.Lookup(v.db, handle) != RESPONSE_OK || !env.openSucceeds || !env.transfer.Done?
      || v.db[handle].size > |env.file|
    then None else Some(env.file[..v.db[handle].size])
  }

  /** An object's container and the response, or an error response alone, is on the link. */
  lemma ObjectArrives(e: Entry, handle: uint32, zero: bool, packet: nat) returns (o: Coming)
    requires Protocol(e) && e.q.operation == GET_OBJECT && e.q.p1 == handle && 64 <= packet <= CHUNK
    requires e.env.dataEnding.Done? && e.env.responseEnding.Done? && !e.env.transfer.Cancelled?
    ensures match ObjectSeen(e.v, handle, e.env)
            case None => Carried(Written(e), zero) == [o.c] && |o.c| == HEADER_SIZE && Announced(o.c)
              && o.n == HEADER_SIZE
            case Some(payload) =>
              && Carried(Written(e), zero) == [o.c] + Following(o) && HEADER_SIZE <= |o.c|
              && o.c[HEADER_SIZE..] == payload && o.n == Min(packet, |o.c|)
              && (HEADER_SIZE + |payload| < 0x1_0000_0000 ==> WellFormedObject(o))
  {
    assert Lawful(e);
    ResponseShort(e);
    o := Coming(Written(e)[0], Min(packet, |Written(e)[0]|), Response(e), zero);
    if ObjectSeen(e.v, handle, e.env).Some? {
      ContainerParts(TYPE_DATA, e.q.operation, e.q.transaction, ObjectSeen(e.v, handle, e.env).value);
    }
  }

  /** The first packet of a container is read whole. */
  lemma HeaderRead(l: Link, packet: nat)
    requires l.Reliable() && l.wire != [] && 0 < packet
    ensures var n := Min(packet, |l.wire[0]|);
            && l.Bytes(packet, packet) == Some(l.wire[0][..n])
            && l.After(packet, packet).wire == Beyond(l.wire[0], n, l.wire[1..]) && l.After(packet, packet).Unfailing()
            && (n == |l.wire[0]| ==> l.After(packet, packet).Reliable())
  {
    assert l.Next().UpTo?;
  }

  lemma FirstLength(b: seq<uint8>, o: Coming, n: int)
    ensures HEADER_SIZE <= n <= |b| && n <= |o.c| && b[..n] == o.c[..n] && Announced(o.c) ==>
      U32At(b, LENGTH_OFFSET) == |o.c|
  {
    if HEADER_SIZE <= n <= |b| && n <= |o.c| && b[..n] == o.c[..n] && Announced(o.c) {
      LengthWithin(b, o.c, n);
    }
  }

  /** An object's container on the link, the length of its first packet, and the response
      behind it, perhaps after a packet of length zero. */
  datatype Coming = Coming(c: seq<uint8>, n: nat, r: seq<uint8>, zero: bool)

  function Following(o: Coming): seq<seq<uint8>> { if o.zero then [[], o.r] else [o.r] }

  /** The first packet of `o` has been read. */
  ghost predicate AtBody(l: Link, o: Coming)
    requires o.n <= |o.c|
  {
    l.Unfailing() && l.wire == Beyond(o.c, o.n, Following(o)) && (o.n == |o.c| ==> l.Reliable())
  }

  ghost predicate WellFormedObject(o: Coming) {
    && Announced(o.c) && HEADER_SIZE <= o.n <= |o.c| && o.n <= CHUNK
    && HEADER_SIZE <= |o.r| <= PARAMETERS_END && U16At(o.r, CODE_OFFSET) == RESPONSE_OK
  }

  /** The calls pass on the pieces of `payload` in order, each at its place, up to some point,
      or, if `all`, to the end. */
  ghost predicate PassedOn(calls: seq<Piece>, chunks: seq<seq<uint8>>, payload: seq<uint8>, all: bool) {
    && Concat(chunks) == payload && Splits(chunks, |payload|)
    && PrefixOfCalls(calls, 0, chunks) && (all ==> calls == Calls(0, chunks))
  }

  /** What was passed on, put together: the payload up to some point, or all of it. */
  lemma PassedOnBytes(calls: seq<Piece>, chunks: seq<seq<uint8>>, payload: seq<uint8>, all: bool)
    requires PassedOn(calls, chunks, payload, all)
    ensures Bytes(calls) <= payload && (all ==> Bytes(calls) == payload)
  {
    PrefixBytes(calls, chunks);
    if all {
      BytesOfCalls(0, chunks);
    }
  }

  /** The plain copy of what is left of an object ends, behind the first packet's bytes it
      gives exactly the payload, and the response is next on the link. */
  lemma BodyDelivers(l: Link, packet: nat, o: Coming, already: seq<seq<uint8>>, rest: Copy)
    requires 0 < packet && WellFormedObject(o) && AtBody(l, o)
    requires already == if o.n == HEADER_SIZE then [] else [o.c[HEADER_SIZE..o.n]]
    requires Remains(rest, l, packet, |o.c| - o.n)
    ensures rest.ok && rest.link.wire == Following(o) && rest.link.Reliable()
    ensures Concat(already + rest.chunks) == o.c[HEADER_SIZE..]
    ensures Splits(already + rest.chunks, |o.c| - HEADER_SIZE)
  {
    var initial := o.c[HEADER_SIZE..o.n];
    TailDelivers(l, packet, o, rest);
    assert initial + o.c[o.n..] == o.c[HEADER_SIZE..];
    ConcatFirst(initial, rest.chunks);
  }

  lemma LeftToRead(whole: nat, n: nat)
    requires HEADER_SIZE <= n <= whole < 0x1_0000_0000
    ensures Left(whole - HEADER_SIZE, n - HEADER_SIZE) == whole - n
  {
  }

  lemma TailDelivers(l: Link, packet: nat, o: Coming, rest: Copy)
    requires 0 < packet && WellFormedObject(o) && AtBody(l, o) && Remains(rest, l, packet, |o.c| - o.n)
    ensures rest.ok && rest.link.wire == Following(o) && rest.link.Reliable() && Concat(rest.chunks) == o.c[o.n..]
    ensures forall c :: c in rest.chunks ==> 0 < |c| <= CHUNK
  {
    SequentialLength(l, packet, |o.c| - o.n);
    if o.n < |o.c| {
      assert l.wire[0] == o.c[o.n..] && l.wire[1..] == Following(o);
      SequentialDelivers(l, packet);
    } else {
      assert Sequential(l, packet, 0) == Copy([], l, true);
    }
  }

  /** What came first, and the pieces after it. */
  lemma ConcatFirst(c: seq<uint8>, chunks: seq<seq<uint8>>)
    ensures var all := (if c == [] then [] else [c]) + chunks;
            && Concat(all) == c + Concat(chunks)
            && (|c| <= CHUNK && (forall x :: x in chunks ==> 0 < |x| <= CHUNK) ==> Splits(all, |c| + |Concat(chunks)|))
  {
    if c == [] {
      assert [] + chunks == chunks;
    } else {
      assert ([c] + chunks)[1..] == chunks;
    }
  }

  lemma FirstCall(copy: Copy, rest: Copy, c: seq<uint8>)
    requires copy == rest.(chunks := [c] + rest.chunks)
    ensures Halfway(copy, 0, [(0, c)], [c], [], rest) && PrefixOfCalls([(0, c)], 0, copy.chunks)
    ensures |Concat([c])| == |c| && [] + [(0 as int32, c)] == [(0, c)]
  {
    assert [c] + [] + rest.chunks == [c] + rest.chunks;
    assert [c][1..] == [];
    assert Calls(0, [c]) == [(0, c)] + Calls(0 + |c|, []);
    assert copy.chunks[..1] == [c];
    assert Concat([c]) == c + Concat([]);
  }

  lemma NoCall(copy: Copy, rest: Copy)
    requires copy == rest.(chunks := [] + rest.chunks)
    ensures Halfway(copy, 0, [], [], [], rest) && |Concat([])| == 0
  {
    assert [] + [] + rest.chunks == rest.chunks && [] + rest.chunks == rest.chunks;
  }

  /** The device took `e` to be this command and answered it. */
  ghost predicate OrderedAs(e: Entry, operation: uint16, words: seq<uint32>) {
    && e.q.operation == operation && e.outcome.Respond? && Answers(e.v, e.q, e.env, e.outcome.code, e.params)
    && forall i :: 0 <= i < |words| ==> Nth(e.q, i) == words[i]
  }

  lemma NothingBefore<T>(s: seq<T>)
    ensures [] + s == s
  {
  }

  lemma FrontOf(b: seq<uint8>, from: nat, to: nat, end: nat)
    requires from <= to <= end <= |b|
    ensures b[from..to] <= b[from..end]
  {
    assert b[from..to] == b[from..end][..to - from];
  }

  ghost predicate Orderly(e: Entry) { Protocol(e) && e.outcome.Respond? }

  lemma OrderOnLink(e: Entry, operation: uint16, transaction: uint32, words: seq<uint32>)
    requires Protocol(e) && IsOrder(operation) && IsRequest(e.q, operation, transaction, words)
    requires e.env.dataEnding.Done? && e.env.responseEnding.Done?
    ensures Orderly(e) && OrderedAs(e, operation, words) && Written(e) == [Response(e)]
    ensures forall zero :: Carried(Written(e), zero) == [Response(e)]
  {
    assert Lawful(e);
    if e.outcome.Skip? {
      SilentOnlyWhenCancelled(e);
    }
  }

  lemma AllParameters(b: seq<uint8>, e: Entry)
    requires PARAMETERS_END <= |b| && e.outcome.Respond? && |e.params| <= 5 && Response(e) <= b
    ensures forall i :: 0 <= i < |e.params| ==> U32At(b, PARAMETER_OFFSET + 4 * i) == e.params[i]
  {
    var c := Response(e);
    EncodeWords(e.params);
    assert b[HEADER_SIZE..HEADER_SIZE + 4 * |e.params|] == c[HEADER_SIZE..];
    forall i | 0 <= i < |e.params|
      ensures U32At(b, PARAMETER_OFFSET + 4 * i) == e.params[i]
    {
      PayloadWords(b, e.params, i);
    }
  }

  /** Commands that are answered by a response alone. */
  predicate IsOrder(operation: uint16) {
    operation == OPEN_SESSION || operation == DELETE_OBJECT || operation == SEND_OBJECT_INFO
  }

  /** Such a command, with its data if it brings any. */
  predicate CanOrder(operation: uint16, d: Delivery) {
    IsOrder(operation) && (DataIn(operation) ==> HEADER_SIZE <= |d.env.incoming|)
  }

  /** What is at the front of a container's payload is read even if the container is cut. */
  lemma InfoOnTheWay(info: ObjectInfo, c: seq<uint8>, b: seq<uint8>)
    requires ShortInfo(info) && Encode(InfoFields(info)) <= b && HEADER_SIZE <= |c| && c[HEADER_SIZE..] == b
    ensures var n := Min(|c|, DATA_BUFFER_SIZE); Encode(IncomingFields(SentIncoming(info))) <= c[..n][HEADER_SIZE..]
  {
    SentIsReceived(Units(info.name));
    SentIsReceived(Units(info.created));
    SentIsReceived(Units(info.modified));
    var keywords := Sent(Units(info.keywords));
    Regroup4(InfoIntegers(info), Sent(Units(info.name)), Sent(Units(info.created)), Sent(Units(info.modified)),
             keywords);
    PrefixParts(IncomingFields(SentIncoming(info)), keywords, b);
    InfoLength(info);
    EncodeConcat(IncomingFields(SentIncoming(info)), keywords);
  }

  /** The result of writing a data packet, `ret` being that of the last transfer. */
  function WriteResult(ret: int): int { if ret < 0 then ret else 0 }

  /** Whether the data counts as sent. */
  predicate CountsAsSent(ret: int) { WriteResult(ret) > 0 }

  /** The host reads a response to an announcement only if the data counts as sent. */
  lemma DataNeverCountsAsSent(ret: int)
    ensures !CountsAsSent(ret)
  {
  }

  lemma ReplyOfInfo(e: Entry, info: ObjectInfo)
    requires OrderedAs(e, SEND_OBJECT_INFO, [info.storage, info.parent])
    ensures e.outcome == Respond(RESPONSE_OK) ==>
      e.params == [info.storage, if info.parent == PARENT_ROOT then 0 else info.parent, e.v.counter]
  {
    assert ReplyRule(Said(e.v, e.q, e.env, e.outcome.code, e.params));
    assert Nth(e.q, 0) == [info.storage, info.parent][0] && Nth(e.q, 1) == [info.storage, info.parent][1];
  }

  lemma InfoConsidered(s: Step, info: ObjectInfo)
    requires StepOk(s) && s.e.q.operation == SEND_OBJECT_INFO && ShortInfo(info)
    requires HEADER_SIZE <= |s.e.env.incoming|
    requires Encode(IncomingFields(SentIncoming(info))) <= s.e.env.incoming[HEADER_SIZE..]
    ensures WentBy(GivenUp(s.d0, s.e.q), s.e.q, s.e.env, s.e.outcome, s.d1, SentIncoming(info))
    ensures Text(SentIncoming(info).name) == info.name
    ensures Laws.WentAs(GivenUp(s.d0, s.e.q), s.e.q, s.e.env, s.e.outcome, s.d1, info.size, info.format, info.name)
  {
    assert MoveRule(Turn(GivenUp(s.d0, s.e.q), s.e.q, s.e.env, s.e.outcome, s.d1));
    TextOfName(info.name);
    Laws.InfoGoes(GivenUp(s.d0, s.e.q), s.e.q, s.e.env, s.e.outcome, s.d1, SentIncoming(info));
  }

  /** An announcement below parent 0 is always refused: the host works out the reserved root
      value for it but sends the 0. */
  lemma TopIsAlwaysRefused(d: Device, q: Request, env: Env, o: Turns.Outcome, d1: Device, info: ObjectInfo)
    requires ShortInfo(info) && q.p2 == 0 && WentBy(d, q, env, o, d1, SentIncoming(info))
    ensures o != Respond(RESPONSE_OK) && d1 == d
  {
  }

  lemma OpenReply(s: Step)
    requires StepOk(s) && OrderedAs(s.e, OPEN_SESSION, [1])
    ensures s.e.v == s.d0.v && s.d1.v.sessionOpen
    ensures s.d1.v.sessionID == if s.d0.v.sessionOpen then s.d0.v.sessionID else 1
    ensures if s.d0.v.sessionOpen then
              s.e.outcome.code == RESPONSE_SESSION_ALREADY_OPEN && s.e.params == [s.d0.v.sessionID]
            else s.e.outcome.code == RESPONSE_OK
  {
    var e := s.e;
    assert ReplyRule(Said(e.v, e.q, e.env, e.outcome.code, e.params));
    assert MoveRule(Turn(GivenUp(s.d0, e.q), e.q, e.env, e.outcome, s.d1));
    assert Nth(e.q, 0) == [1][0];
  }

  lemma DeleteReply(s: Step, handle: uint32)
    requires StepOk(s) && OrderedAs(s.e, DELETE_OBJECT, [handle])
    ensures s.e.v == s.d0.v && s.e.q.p1 == handle && s.e.outcome.code == DeleteCode(s.e.v, s.e.q)
    ensures s.d1.v.db == if s.d0.v.storages == [] then s.d0.v.db else Deleted(s.d0.v.db, handle)
  {
    var e := s.e;
    assert ReplyRule(Said(e.v, e.q, e.env, e.outcome.code, e.params));
    assert MoveRule(Turn(GivenUp(s.d0, e.q), e.q, e.env, e.outcome, s.d1));
    assert Nth(e.q, 0) == [handle][0];
  }

  // ---- What the calls should see ----

  function BlankInfo(): ObjectInfo { ObjectInfo(0, 0, 0, 0, 0, 0, 0, 0, 0, 0, 0, 0, 0, 0, 0, [], [], [], []) }

  /** The strings of an entry fit their count bytes. */
  ghost predicate ShortEntry(e: DbEntry) { |Units(e.name)| <= 254 && |Units(e.modified)| <= 254 }

  ghost predicate ShortInfo(s: ObjectInfo) {
    |Units(s.name)| <= 254 && |Units(s.created)| <= 254 && |Units(s.modified)| <= 254 && |Units(s.keywords)| <= 254
  }

  /** What a host should see of an object. */
  function InfoSeen(v: View, handle: uint32): Option<ObjectInfo> {
    if v.storages == [] || Sends.Lookup(v.db, handle) != RESPONSE_OK then None else Some(ServedInfo(v, handle))
  }

  lemma InfoAnswered(v: View, e: Entry, handle: uint32, env: Env)
    requires e.v == v && e.q.operation == GET_OBJECT_INFO && e.q.p1 == handle
    requires e.payload == Encode(ObjectInfoAnswer(v, e.q).fields)
    requires handle in v.db ==> ShortEntry(v.db[handle])
    ensures Small(e)
    ensures e.payload != [] <==> InfoSeen(v, handle).Some?
    ensures InfoSeen(v, handle).Some? ==>
      ShortInfo(ServedInfo(v, handle)) && e.payload == Encode(InfoFields(ServedInfo(v, handle)))
  {
    EncodeNonempty(ObjectInfoAnswer(v, e.q).fields);
    if InfoSeen(v, handle).Some? {
      InfoLength(ServedInfo(v, handle));
    }
  }

  lemma InfoLength(s: ObjectInfo)
    requires ShortInfo(s)
    ensures |Encode(InfoFields(s))| <= 52 + 4 * 511
  {
    var a, b, c, f := Sent(Units(s.name)), Sent(Units(s.created)), Sent(Units(s.modified)), Sent(Units(s.keywords));
    PropList.SentLength(Units(s.name));
    PropList.SentLength(Units(s.created));
    PropList.SentLength(Units(s.modified));
    PropList.SentLength(Units(s.keywords));
    EncodeConcat(c, f);
    EncodeConcat(b, c + f);
    EncodeConcat(a, b + (c + f));
    EncodeConcat(InfoIntegers(s), a + (b + (c + f)));
    IntegersLength(s);
  }

  ghost predicate ShortStorage(s: StorageInfo) { |Units(s.description)| <= 254 && |Units(s.volume)| <= 254 }

  function StorageSeen(v: View, id: uint32, env: Env): Option<StorageInfo> {
    if !v.sessionOpen || FindStorage(v.storages, id).None? then None
    else Some(ServedStorageInfo(FindStorage(v.storages, id).value, env.info))
  }

  lemma {:induction false} FoundIsStorage(storages: seq<Storage>, id: uint32)
    requires FindStorage(storages, id).Some?
    ensures FindStorage(storages, id).value in storages
  {
    if !(id == 0 || storages[0].id == id) {
      FoundIsStorage(storages[1..], id);
    }
  }

  lemma StorageAnswered(v: View, e: Entry, id: uint32, env: Env)
    requires e.v == v && e.q.p1 == id && e.payload == Encode(StorageInfoAnswer(v, e.q, env).fields)
    requires forall s :: s in v.storages ==> |Units(s.info.description)| <= 254
    ensures Small(e)
    ensures e.payload != [] <==> StorageSeen(v, id, env).Some?
    ensures StorageSeen(v, id, env).Some? ==>
      ShortStorage(StorageSeen(v, id, env).value) && e.payload == Encode(StorageFields(StorageSeen(v, id, env).value))
  {
    EncodeNonempty(StorageInfoAnswer(v, e.q, env).fields);
    if StorageSeen(v, id, env).Some? {
      FoundIsStorage(v.storages, id);
      StorageLength(StorageSeen(v, id, env).value);
    }
  }

  lemma StorageLength(s: StorageInfo)
    requires ShortStorage(s)
    ensures |Encode(StorageFields(s))| <= 48 + 2 * 511
  {
    PropList.SentLength(Units(s.description));
    PropList.SentLength(Units(s.volume));
    EncodeConcat(Sent(Units(s.description)), Sent(Units(s.volume)));
    EncodeConcat(StorageIntegers(s), Sent(Units(s.description)) + Sent(Units(s.volume)));
    EncodeAtMost(StorageIntegers(s));
  }

  lemma {:induction false} EncodeAtMost(fs: seq<Field>)
    ensures |Encode(fs)| <= 8 * |fs|
  {
    if fs != [] {
      EncodeAtMost(fs[1..]);
    }
  }

  function BlankDevice(): DeviceInfo { DeviceInfo(0, 0, 0, [], 0, DeviceLists([], [], [], [], []), [], [], [], []) }

  ghost predicate ShortDevice(s: DeviceInfo) {
    && |Units(s.extensions)| <= 254 && |Units(s.manufacturer)| <= 254 && |Units(s.model)| <= 254
    && |Units(s.deviceVersion)| <= 254 && |Units(s.serial)| <= 254
  }

  lemma DeviceAnswered(v: View, e: Entry, d: Delivery, s: DeviceInfo)
    requires AnsweredAs(e, GET_DEVICE_INFO, v, d, []) && ShortDevice(d.env.device)
    requires s == ServedDeviceInfo(v.ptp, d.env.device)
    ensures Small(e) && e.payload != [] && e.payload == Encode(DeviceFields(s)) && ShortDevice(s)
  {
    LettersAreText(Extension(v.ptp));
    LettersAreText("1.0");
    EncodeNonempty(DeviceFields(s));
    DeviceLength(s);
  }

  lemma DeviceLength(s: DeviceInfo)
    requires ShortDevice(s)
    requires |s.lists.operations| <= 100 && |s.lists.events| <= 100 && |s.lists.properties| <= 100
    requires |s.lists.captureFormats| <= 100 && |s.lists.playbackFormats| <= 100
    ensures |Encode(DeviceFields(s))| <= 100000
  {
    assert |ListFields(s.lists)| <= 505;
    assert |IdentityFields(s)| <= 4 * 256;
    assert |DeviceFields(s)| <= 3 + 256 + 1 + 505 + 4 * 256;
    EncodeAtMost(DeviceFields(s));
  }

  function HandlesSeen(v: View, storage: uint32, format: uint16, parent: uint32): Option<seq<uint32>> {
    if !v.sessionOpen || !HasStorage(v.storages, storage) then None else Some(Listing(v.db, storage, format, parent))
  }

  lemma {:induction false} PickLength(t: Table, keys: seq<uint32>, storage: uint32, format: uint16, parent: uint32)
    requires forall k :: k in keys ==> k in t
    ensures |Pick(t, keys, storage, format, parent)| <= |keys|
  {
    if keys != [] {
      PickLength(t, keys[..|keys| - 1], storage, format, parent);
    }
  }

  lemma {:induction false} KeysLength(s: set<uint32>)
    ensures |AscendingKeys(s)| == |s|
  {
    if s != {} {
      KeysLength(s - {Least(s)});
    }
  }

  /** A query whose answer is an array, or none. */
  lemma ListAnswered(e: Entry, list: Option<seq<uint32>>, fields: seq<Field>)
    requires e.payload == Encode(fields) && fields == (if list.Some? then Array32(list.value) else [])
    requires list.Some? ==> |list.value| < 0x1000_0000
    ensures Small(e) && (e.payload != [] <==> list.Some?)
    ensures list.Some? ==> e.payload == Encode(Array32(list.value))
  {
    EncodeNonempty(fields);
    if list.Some? {
      EncodeWords(list.value);
      assert fields[1..] == U32s(list.value);
    }
  }

  lemma HandlesAnswered(v: View, e: Entry, storage: uint32, format: uint16, parent: uint32)
    requires e.q.p1 == storage && e.q.p2 == format as uint32 && e.q.p3 == parent && |v.db| < 0x1000_0000
    requires e.payload == Encode(HandlesAnswer(v, e.q).fields)
    ensures var list := HandlesSeen(v, storage, format, parent);
            && Small(e) && (e.payload != [] <==> list.Some?)
            && (list.Some? ==> |list.value| < 0x1000_0000 && e.payload == Encode(Array32(list.value)))
  {
    var list := HandlesSeen(v, storage, format, parent);
    ListingLength(v.db, storage, format, parent);
    assert e.q.p2 % 0x1_0000 == format as uint32;
    ListAnswered(e, list, HandlesAnswer(v, e.q).fields);
  }

  lemma ListingLength(t: Table, storage: uint32, format: uint16, parent: uint32)
    ensures |Listing(t, storage, format, parent)| <= |t|
  {
    assert forall k :: k in AscendingKeys(t.Keys) ==> k in t.Keys;
    PickLength(t, AscendingKeys(t.Keys), storage, format, Effective(parent));
    KeysLength(t.Keys);
    assert |t.Keys| == |t|;
  }

  lemma NotDevice(property: uint16)
    requires DescribedKind(property).Some?
    ensures !IsDevice(property)
  {
    assert property / 0x1000 == 0xD && property / 0x800 == 0x1B;
  }

  lemma DescriptionServed(q: Request, property: uint16)
    requires q.p1 == property as uint32
    ensures DescribedKind(property).None? ==> PropDescAnswer(q).fields == []
    ensures DescribedKind(property).Some? ==>
      && WellFormed(Description(property)) && PropDescAnswer(q).fields == WrittenFields(Description(property))
      && 0 < |WrittenFields(Description(property))| <= 20
  {
    PropDescOf(q, property);
    if DescribedKind(property).Some? {
      PropList.KindIsNumber(property);
      NotDevice(property);
      DescLength(property, DescribedKind(property).value, IsWriteable(property));
    }
  }

  lemma DescAnswered(e: Entry, property: uint16)
    requires e.q.p1 == property as uint32 && e.payload == Encode(PropDescAnswer(e.q).fields)
    ensures Small(e) && (e.payload != [] <==> DescribedKind(property).Some?)
    ensures DescribedKind(property).Some? ==>
      WellFormed(Description(property)) && !IsDevice(property)
        && e.payload == Encode(WrittenFields(Description(property)))
  {
    var fields := PropDescAnswer(e.q).fields;
    DescriptionServed(e.q, property);
    EncodeNonempty(fields);
    EncodeAtMost(fields);
    if DescribedKind(property).Some? {
      NotDevice(property);
    }
  }

  lemma DescLength(property: uint16, kind: uint16, writeable: bool)
    requires WellFormed(Described(property, kind, writeable)) && !IsDevice(property)
    requires kind == PropList.KIND_UINT16 || kind == PropList.KIND_UINT32 || kind == PropList.KIND_UINT128
             || kind == PropList.KIND_STR
    ensures 0 < |WrittenFields(Described(property, kind, writeable))| <= 20
  {
    var p := Described(property, kind, writeable);
    assert |DataFields(p)| <= 4;
    assert FormFields(p) == [] && |HeadFields(p)| == 3;
  }

  lemma SameTransaction(a: seq<uint8>, b: seq<uint8>)
    requires HEADER_SIZE <= |a| && HEADER_SIZE <= |b| && a[..HEADER_SIZE] == b[..HEADER_SIZE]
    ensures U32At(a, TRANSACTION_OFFSET) == U32At(b, TRANSACTION_OFFSET)
  {
    assert forall k :: 0 <= k < HEADER_SIZE ==> a[k] == a[..HEADER_SIZE][k] == b[..HEADER_SIZE][k] == b[k];
  }

  lemma QueryNotDataIn(operation: uint16)
    requires IsQuery(operation)
    ensures !DataIn(operation)
  {
  }

  // ---- Any sequence of calls ----

  /** A call of the host: to open a session, to delete an object, or any that asks for data. */
  datatype Call = OpenCall | DeleteCall(handle: uint32) | QueryCall(operation: uint16, words: seq<uint32>)

  predicate Callable(c: Call) {
    c.QueryCall? ==> IsQuery(c.operation) && c.operation != GET_OBJECT_REFERENCES && |c.words| <= 5
  }

  function OperationOf(c: Call): uint16 {
    match c
    case OpenCall => OPEN_SESSION
    case DeleteCall(_) => DELETE_OBJECT
    case QueryCall(operation, _) => operation
  }

  /** One call. What the device sends for it is what the host takes off the link. */
  method Make(host: MtpDevice, c: Call, d: Delivery) returns (ghost step: Step)
    requires host.Ready() && Callable(c) && Smooth(d)
    modifies host, host.bus`link, host.request, host.request.buffer, host.data
    modifies host.data.buffer, host.response, host.response.buffer
    modifies host.peer, host.peer.db, host.peer.request`packetSize, host.peer.request.buffer
    modifies host.peer.data, host.peer.data.buffer, host.peer.response, host.peer.response.buffer
    ensures host.Ready() && host.BuffersKept() && step.e.q.operation == OperationOf(c)
    ensures StepOk(step) && step.d0 == old(host.peer.Now()) && step.d1 == host.peer.Now()
    ensures old(host.Calm()) && Small(step.e) ==> host.Calm()
  {
    var ok;
    match c
    case OpenCall =>
      ok, step := host.OpenSession(d);
    case DeleteCall(handle) =>
      ok, step := host.DeleteObject(handle, d);
    case QueryCall(operation, words) =>
      ok, step := host.AskFor(operation, words, d);
  }

  /** Host and device stay in step: whatever is called, in whatever order, as long as nothing
      goes wrong on the way and no dataset outgrows a packet, the link is empty after every call, so
      that no call ever sees a container of another. The device handles one request for each call,
      and each finds it as the one before left it. */
  method MakeAll(host: MtpDevice, calls: seq<Call>, deliveries: seq<Delivery>) returns (ghost log: seq<Step>)
    requires host.Ready() && host.Calm() && |deliveries| == |calls|
    requires forall i :: 0 <= i < |calls| ==> Callable(calls[i]) && Smooth(deliveries[i])
    modifies host, host.bus`link, host.request, host.request.buffer, host.data
    modifies host.data.buffer, host.response, host.response.buffer
    modifies host.peer, host.peer.db, host.peer.request`packetSize, host.peer.request.buffer
    modifies host.peer.data, host.peer.data.buffer, host.peer.response, host.peer.response.buffer
    ensures host.Ready() && |log| == |calls|
    ensures forall i :: 0 <= i < |calls| ==> MadeAs(log[i], calls[i])
    ensures InStep(log, old(host.peer.Now()), host.peer.Now())
    ensures (forall i :: 0 <= i < |log| ==> Small(log[i].e)) ==> host.Calm()
  {
    ghost var start := host.peer.Now();
    log := [];
    for i := 0 to |calls|
      invariant host.Ready() && host.BuffersKept() && |log| == i
      invariant MadeSoFar(log, calls, start, host.peer.Now())
      invariant (forall k :: 0 <= k < i ==> Small(log[k].e)) ==> host.Calm()
    {
      ghost var step := Make(host, calls[i], deliveries[i]);
      MakesMore(log, calls, start, step);
      log := log + [step];
    }
  }

  /** The first calls were made, one after the other. */
  ghost predicate MadeSoFar(log: seq<Step>, calls: seq<Call>, start: Device, now: Device) {
    && |log| <= |calls| && (forall k :: 0 <= k < |log| ==> MadeAs(log[k], calls[k]))
    && InStep(log, start, now)
  }

  lemma MakesMore(log: seq<Step>, calls: seq<Call>, start: Device, step: Step)
    requires MadeSoFar(log, calls, start, step.d0) && |log| < |calls| && MadeAs(step, calls[|log|])
    ensures MadeSoFar(log + [step], calls, start, step.d1)
  {
  }

  ghost predicate MadeAs(s: Step, c: Call) { StepOk(s) && s.e.q.operation == OperationOf(c) }

  /** The steps lead from one device to the other. */
  ghost predicate InStep(log: seq<Step>, start: Device, last: Device) {
    if log == [] then last == start
    else
      && log[0].d0 == start && log[|log| - 1].d1 == last
      && forall i :: 0 <= i < |log| - 1 ==> log[i].d1 == log[i + 1].d0
  }
}
