/** One turn of the device's loop: what it answers, what it writes, and what becomes of the
    device's state. */
module Turns {
  import opened MtpTypes
  import opened Wire
  import opened Packets
  import opened Strings
  import opened Tables
  import opened Database
  import opened Datasets
  import opened Properties
  import opened PropList
  import opened Requests
  import opened Intake
  import opened Sends
  import Scans
  import Edits

  const COMMAND_SIZE: nat := 512

  /** What one read of a command can bring. */
  type CommandBytes = s: seq<uint8> | |s| <= COMMAND_SIZE

  // ---- Which requests only ask ----

  predicate IsQuery(operation: uint16) {
    || operation == GET_DEVICE_INFO || operation == GET_STORAGE_IDS || operation == GET_STORAGE_INFO
    || operation == GET_OBJECT_PROPS_SUPPORTED || operation == GET_OBJECT_HANDLES || operation == GET_NUM_OBJECTS
    || operation == GET_OBJECT_REFERENCES || IsLaterQuery(operation)
  }

  predicate IsLaterQuery(operation: uint16) {
    || operation == GET_OBJECT_PROP_VALUE || operation == GET_DEVICE_PROP_VALUE
    || operation == GET_OBJECT_PROP_LIST || IsLastQuery(operation)
  }

  predicate IsLastQuery(operation: uint16) {
    || operation == RESET_DEVICE_PROP_VALUE || operation == GET_OBJECT_INFO
    || operation == GET_OBJECT_PROP_DESC || operation == GET_DEVICE_PROP_DESC
  }

  predicate Throws(v: View, q: Request) { q.operation == GET_OBJECT_REFERENCES && ReferencesThrow(v, q) }

  function QueryAnswer(v: View, q: Request, env: Env): Answer
    requires IsQuery(q.operation) && !Throws(v, q)
  {
    if q.operation == GET_DEVICE_INFO then Answer(RESPONSE_OK, DeviceFields(ServedDeviceInfo(v.ptp, env.device)), [])
    else if q.operation == GET_STORAGE_IDS then StorageIDsAnswer(v)
    else if q.operation == GET_STORAGE_INFO then StorageInfoAnswer(v, q, env)
    else if q.operation == GET_OBJECT_PROPS_SUPPORTED then PropsSupportedAnswer(v)
    else if q.operation == GET_OBJECT_HANDLES then HandlesAnswer(v, q)
    else if q.operation == GET_NUM_OBJECTS then NumObjectsAnswer(v, q)
    else if q.operation == GET_OBJECT_REFERENCES then ReferencesAnswer(v, q)
    else if q.operation == GET_OBJECT_PROP_VALUE then PropValueAnswer(v, q, env)
    else if q.operation == GET_DEVICE_PROP_VALUE then DevicePropValueAnswer(q)
    else if q.operation == GET_OBJECT_PROP_LIST then PropListAnswer(v, q, env)
    else LastAnswer(v, q)
  }

  function LastAnswer(v: View, q: Request): Answer
    requires IsLastQuery(q.operation)
  {
    if q.operation == GET_OBJECT_INFO then ObjectInfoAnswer(v, q)
    else if q.operation == GET_OBJECT_PROP_DESC then PropDescAnswer(q)
    else if q.operation == GET_DEVICE_PROP_DESC then DevicePropDescAnswer(q)
    else Just(RESPONSE_DEVICE_PROP_NOT_SUPPORTED)
  }

  /** What becomes of a request: a response, silence after a cancellation, or an exception that
      leaves the loop. */
  datatype Outcome = Respond(code: uint16) | Skip | Threw

  function OutcomeOf(code: uint16): Outcome {
    if code == RESPONSE_TRANSACTION_CANCELLED then Skip else Respond(code)
  }

  /** The code behind an outcome. */
  function CodeOf(o: Outcome): uint16 { if o.Respond? then o.code else RESPONSE_TRANSACTION_CANCELLED }

  predicate Fetches(operation: uint16) {
    operation == GET_OBJECT || operation == GET_THUMB || IsPartial(operation)
  }

  lemma ReadsOnly(operation: uint16)
    requires IsQuery(operation) || Fetches(operation)
    ensures !DataIn(operation) && operation != SEND_OBJECT && operation != SET_OBJECT_PROP_VALUE && !Changes(operation)
  {
  }

  /** A handled request: what it saw, how it ended, the response's parameters, the bytes left
      in the data packet, and the container that was sent for it directly. */
  datatype Entry = Entry(v: View, q: Request, env: Env, outcome: Outcome, params: seq<uint32>, payload: seq<uint8>,
                         sent: Option<seq<uint8>>)

  /** Every entry obeys Lawful. (The quantifier keeps that definition folded until it is named.) */
  ghost predicate Protocol(e: Entry) {
    forall x {:trigger Lawful(x)} :: x == e ==> Lawful(x)
  }

  /** What a handler may leave behind. */
  ghost predicate Lawful(e: Entry) {
    var (v, q, env) := (e.v, e.q, e.env);
    && (e.outcome.Respond? ==> |e.params| <= 5)
    && (e.outcome.Threw? <==> Throws(v, q))
    && (IsQuery(q.operation) && !Throws(v, q) ==>
          var a := QueryAnswer(v, q, env);
          e.outcome == OutcomeOf(a.code) && e.params == a.params && e.sent == None && e.payload == Encode(a.fields))
    && (Fetches(q.operation) ==>
          var f := FetchAnswer(v, q, env);
          e.outcome == OutcomeOf(f.code) && e.params == f.params && e.sent == f.sent && e.payload == [])
    && (!IsQuery(q.operation) && !Fetches(q.operation) ==>
          && e.sent == None
          && !e.outcome.Threw?
          && Answers(v, q, env, CodeOf(e.outcome), e.params)
          && (e.outcome.Respond? ==> e.outcome.code != RESPONSE_TRANSACTION_CANCELLED)
          && (e.outcome.Respond? && !DataIn(q.operation) ==> e.payload == EchoOf(v, q, env)))
  }

  /** The data container that the loop itself sends: none for a request that brought data. */
  function OwnData(e: Entry): Option<seq<uint8>> {
    if e.outcome.Respond? && !DataIn(e.q.operation) && e.payload != [] then
      Some(Container(TYPE_DATA, e.q.operation, e.q.transaction, e.payload))
    else None
  }

  function Response(e: Entry): seq<uint8>
    requires e.outcome.Respond?
  {
    Container(TYPE_RESPONSE, e.outcome.code, e.q.transaction, Encode(U32s(e.params)))
  }

  /** What the loop writes once the request is handled. */
  function Replies(e: Entry): seq<seq<uint8>> {
    if !e.outcome.Respond? then []
    else if OwnData(e).None? then (if e.env.responseEnding.Done? then [Response(e)] else [])
    else if !e.env.dataEnding.Done? then []
    else [OwnData(e).value] + if e.env.responseEnding.Done? then [Response(e)] else []
  }

  /** What was written for a request while it was handled. */
  function Directly(e: Entry): seq<seq<uint8>> {
    if e.sent.Some? then [e.sent.value] else []
  }

  /** Every container that is written for a request. */
  function Written(e: Entry): seq<seq<uint8>> {
    Directly(e) + Replies(e)
  }

  /** How the loop goes on: to the next request, to the shutdown, or out of the loop. */
  datatype Flow = Continue | Stop | Escape

  function After(ending: Ending): Flow { if ending.Failed? then Stop else Continue }

  function FlowOf(e: Entry): Flow {
    if e.outcome.Threw? then Escape
    else if e.outcome.Skip? then Continue
    else if OwnData(e).Some? && !e.env.dataEnding.Done? then After(e.env.dataEnding)
    else After(e.env.responseEnding)
  }

  /** Nothing goes wrong on the link, no transfer is cancelled, and no exception escapes. */
  predicate Quiet(e: Entry) {
    !Throws(e.v, e.q) && !e.env.transfer.Cancelled? && e.env.dataEnding.Done? && e.env.responseEnding.Done?
  }

  /** The device keeps silent about a request only when its transfer was cancelled. */
  lemma SilentOnlyWhenCancelled(e: Entry)
    requires Protocol(e) && e.outcome.Skip?
    ensures e.env.transfer.Cancelled?
    ensures Fetches(e.q.operation) || e.q.operation == SEND_OBJECT || e.q.operation == SEND_PARTIAL_OBJECT
  {
    assert Lawful(e);
    if IsQuery(e.q.operation) {
      if !Throws(e.v, e.q) {
        ErrorsAreEmpty(e.v, e.q, e.env);
      }
    } else if Fetches(e.q.operation) {
      LookupNeverCancels(e.v.db, e.q.p1);
    } else {
      var r := Said(e.v, e.q, e.env, RESPONSE_TRANSACTION_CANCELLED, e.params);
      assert ReplyRule(r);
      CancelledOnlyByTransfer(r);
    }
  }

  /** With nothing wrong on the link, a request gets exactly one response, at the end, and at
      most one data container before it, all of them its own: of its transaction and, for the
      data, of its operation. */
  lemma OneResponse(e: Entry)
    requires Protocol(e) && Quiet(e)
    ensures e.outcome.Respond?
    ensures var w := Written(e);
            && 1 <= |w| <= 2 && w[|w| - 1] == Response(e)
            && (|w| == 2 ==> exists payload :: w[0] == Container(TYPE_DATA, e.q.operation, e.q.transaction, payload))
  {
    assert Lawful(e);
    if e.outcome.Skip? {
      SilentOnlyWhenCancelled(e);
    }
    assert e.sent.Some? ==> OwnData(e).None?;
    if e.sent.Some? {
      assert Fetches(e.q.operation);
      SentIsData(e.v, e.q, e.env);
    }
  }

  lemma SentIsData(v: View, q: Request, env: Env)
    requires FetchAnswer(v, q, env).sent.Some?
    ensures exists payload ::
              FetchAnswer(v, q, env).sent.value == Container(TYPE_DATA, q.operation, q.transaction, payload)
  {
  }

  /** The loop's own data container goes out exactly for a query that has data to show, which is
      then answered OK, and for a partial write that failed after its data had been read: that
      data is sent back. */
  lemma OwnDataExactly(e: Entry)
    requires Protocol(e)
    ensures OwnData(e).Some? <==>
      || (IsQuery(e.q.operation) && !Throws(e.v, e.q) && QueryAnswer(e.v, e.q, e.env).fields != [])
      || (Echoes(e.v, e.q, e.env) && |e.env.incoming| > HEADER_SIZE)
    ensures OwnData(e).Some? && IsQuery(e.q.operation) ==>
      e.outcome == Respond(RESPONSE_OK) && e.payload == Encode(QueryAnswer(e.v, e.q, e.env).fields)
    ensures OwnData(e).Some? && !IsQuery(e.q.operation) ==>
      e.outcome == Respond(RESPONSE_GENERAL_ERROR) && e.payload == e.env.incoming[HEADER_SIZE..]
  {
    assert Lawful(e);
    Exclusive(e.q.operation);
    if IsQuery(e.q.operation) {
      ReadsOnly(e.q.operation);
      if !Throws(e.v, e.q) {
        ErrorsAreEmpty(e.v, e.q, e.env);
        EncodeNonempty(QueryAnswer(e.v, e.q, e.env).fields);
      }
    } else if Echoes(e.v, e.q, e.env) {
      assert ReplyRule(Said(e.v, e.q, e.env, CodeOf(e.outcome), e.params));
    }
  }

  /** Only an OK answer has data. */
  lemma ErrorsAreEmpty(v: View, q: Request, env: Env)
    requires IsQuery(q.operation) && !Throws(v, q)
    ensures QueryAnswer(v, q, env).code != RESPONSE_OK ==> QueryAnswer(v, q, env).fields == []
    ensures QueryAnswer(v, q, env).code != RESPONSE_TRANSACTION_CANCELLED
  {
  }

  /** A failed partial write sends its data back exactly when there was data behind the header. */
  lemma EchoExactly(e: Entry)
    requires Protocol(e) && e.q.operation == SEND_PARTIAL_OBJECT && e.outcome.Respond?
    ensures OwnData(e).Some? <==> Echoes(e.v, e.q, e.env) && |e.env.incoming| > HEADER_SIZE
  {
    assert Lawful(e);
  }

  /** One byte for an object that is open for editing, which cannot be written: the device answers
      with an error, and sends the byte back first. */
  lemma OneByteEchoed(v: View, q: Request, env: Env, b: uint8)
    requires v.storages != [] && v.edits == [Edits.Edit(1, [], 0, 0x3000, 5)]
    requires q == Request(SEND_PARTIAL_OBJECT, 9, 1, 0, 0, 1, 0)
    requires |env.incoming| == HEADER_SIZE + 1 && env.incoming[HEADER_SIZE..] == [b] && !env.written
    ensures var e := Entry(v, q, env, Respond(RESPONSE_GENERAL_ERROR), [0], [b], None);
            Protocol(e) && OwnData(e) == Some(Container(TYPE_DATA, SEND_PARTIAL_OBJECT, 9, [b]))
  {
    assert ReplyRule(Said(v, q, env, RESPONSE_GENERAL_ERROR, [0]));
    ChangeProtocol(v, q, env, RESPONSE_GENERAL_ERROR, [0]);
  }

  lemma Exclusive(operation: uint16)
    ensures !(IsQuery(operation) && Fetches(operation))
  {
  }

  lemma QueryProtocol(v: View, q: Request, env: Env, a: Answer)
    requires IsQuery(q.operation) && !Throws(v, q) && a == QueryAnswer(v, q, env) && |a.params| <= 5
    ensures Protocol(Entry(v, q, env, OutcomeOf(a.code), a.params, Encode(a.fields), None))
  {
    Exclusive(q.operation);
    assert Lawful(Entry(v, q, env, OutcomeOf(a.code), a.params, Encode(a.fields), None)) by {
      ErrorsAreEmpty(v, q, env);
    }
  }

  lemma FetchProtocol(v: View, q: Request, env: Env)
    requires Fetches(q.operation)
    ensures var f := FetchAnswer(v, q, env); Protocol(Entry(v, q, env, OutcomeOf(f.code), f.params, [], f.sent))
  {
    Exclusive(q.operation);
    assert Lawful(Entry(v, q, env, OutcomeOf(FetchAnswer(v, q, env).code), FetchAnswer(v, q, env).params, [],
                        FetchAnswer(v, q, env).sent));
  }

  lemma ChangeProtocol(v: View, q: Request, env: Env, code: uint16, params: seq<uint32>)
    requires !IsQuery(q.operation) && !Fetches(q.operation) && |params| <= 5 && Answers(v, q, env, code, params)
    ensures Protocol(Entry(v, q, env, OutcomeOf(code), params, EchoOf(v, q, env), None))
  {
    assert Lawful(Entry(v, q, env, OutcomeOf(code), params, EchoOf(v, q, env), None));
  }

  // ---- What a request does to the device ----

  /** The device between two inputs: what its answers depend on, the handle and the object that
      were announced, how many handles were taken, the books of its edits with their histories,
      and whether an object was ever moved. */
  datatype Device = Device(
    v: View, announced: uint32, pending: Option<Pending>, issued: nat,
    books: Edits.Books, work: map<uint32, Work>, moved: bool)

  /** Every handle in the table was taken from the counter, while that has not wrapped. */
  ghost predicate CounterOk(d: Device) {
    && d.v.counter == HandleNumber(d.issued)
    && (d.issued < PARENT_ROOT ==> forall h :: h in d.v.db ==> 0 < h <= d.issued)
  }

  /** An announced object passed the checks, is in the table as announced, and is the only change
      since it was announced. */
  ghost predicate AnnouncedOk(d: Device) {
    match d.pending
    case None => d.announced == INVALID_HANDLE
    case Some(p) =>
      && d.announced != INVALID_HANDLE && p.entry.format != FORMAT_ASSOCIATION
      && p.entry.size < 0x1_0000_0000 && Fitting(p.entry.size, p.free, p.limit)
      && (d.issued < PARENT_ROOT ==> d.announced !in p.before && d.v.db == p.before[d.announced := p.entry])
  }

  /** What holds of the device between any two inputs. */
  ghost predicate Sane(d: Device) {
    && CounterOk(d) && AnnouncedOk(d) && EditsSound(d.books, d.v.edits, d.work)
    && (!d.moved && d.issued < PARENT_ROOT ==> Ordered(d.v.db))
  }

  /** The device is sane. (Folded, like Protocol.) */
  ghost predicate Healthy(d: Device) {
    forall x {:trigger Sane(x)} :: x == d ==> Sane(x)
  }

  /** Every request but SendObject first gives up an announcement. */
  function GivenUp(d: Device, q: Request): Device {
    if q.operation == SEND_OBJECT then d else d.(announced := INVALID_HANDLE, pending := None)
  }

  function AfterOpen(d: Device, q: Request): Device {
    if d.v.sessionOpen then d else d.(v := d.v.(sessionOpen := true, sessionID := q.p1))
  }

  function AfterClose(d: Device): Device {
    if d.v.sessionOpen then d.(v := d.v.(sessionOpen := false, sessionID := 0)) else d
  }

  function AfterDelete(d: Device, q: Request): Device {
    if d.v.storages == [] then d else d.(v := d.v.(db := Deleted(d.v.db, q.p1)))
  }

  function AfterMove(d: Device, q: Request): Device {
    if MoveCode(d.v, q) == RESPONSE_OK then
      d.(v := d.v.(db := d.v.db[q.p1 := d.v.db[q.p1].(parent := q.p3)]), moved := true)
    else d
  }

  /** The edit that a BeginEditObject opens. */
  function NewEdit(v: View, q: Request, env: Env): Edits.Edit
    requires q.p1 in v.db
  {
    Edits.Edit(q.p1, v.db[q.p1].path, v.db[q.p1].size % Edits.TWO64, v.db[q.p1].format, env.fd)
  }

  function Opened(d: Device, e: Edits.Edit): Device {
    d.(v := d.v.(edits := d.v.edits + [e]), work := d.work[e.handle := Work(e.size, [])],
       books := Edits.BeginOne(d.books, e))
  }

  lemma OpenedIs(d: Device, e: Edits.Edit)
    ensures var v := d.v;
            Opened(d, e) == Device(View(v.db, v.counter, v.storages, v.edits + [e], v.sessionOpen, v.sessionID, v.ptp),
                                   d.announced, d.pending, d.issued, Edits.BeginOne(d.books, e),
                                   d.work[e.handle := Work(e.size, [])], d.moved)
  {
  }

  function AfterBegin(d: Device, q: Request, env: Env): Device {
    if BeginEditCode(d.v, q, env) == RESPONSE_OK then Opened(d, NewEdit(d.v, q, env)) else d
  }

  /** An operation on an open edit resizes it and enters its history. */
  function AfterEdit(d: Device, i: nat, op: Edits.EditOp): Device
    requires i < |d.v.edits|
  {
    var e := d.v.edits[i];
    d.(v := d.v.(edits := d.v.edits[i := e.(size := Edits.Resized(e.size, op))]),
       work := d.work[e.handle := MoreWork(HistoryOf(d.work, e.handle), op)])
  }

  function AfterTruncate(d: Device, q: Request, env: Env): Device {
    if TruncateCode(d.v, q, env) == RESPONSE_OK then
      AfterEdit(d, Edits.Find(d.v.edits, q.p1).value, Edits.Truncate(Edits.Offset64(q.p2, q.p3)))
    else d
  }

  function AfterPartial(d: Device, q: Request, env: Env): Device {
    if PartialVerdict(d.v, q, env) == RESPONSE_OK then
      AfterEdit(d, Edits.Find(d.v.edits, q.p1).value, WriteOp(q, env))
    else d
  }

  function AfterEnd(d: Device, q: Request, env: Env): Device {
    match Edits.Find(d.v.edits, q.p1)
    case None => d
    case Some(i) =>
      d.(v := d.v.(db := Committed(d.v.db, d.v.edits[i], env.fileSize), edits := Edits.Without(d.v.edits, i)),
         books := Edits.CommitOne(d.books, d.v.edits[i]))
  }

  /** The end of a SendObject: the announcement is over, unless there is no storage. */
  function AfterSend(d: Device, env: Env): Device {
    if d.v.storages == [] then d
    else
      d.(v := d.v.(db := Finished(d.v.db, d.announced, SendCode(d.v, d.pending, env), env.fileSize)),
         announced := INVALID_HANDLE, pending := None)
  }

  /** The device after any operation that changes it by what the request alone says. */
  function AfterOther(d: Device, q: Request, env: Env): Device {
    if q.operation == OPEN_SESSION then AfterOpen(d, q)
    else if q.operation == CLOSE_SESSION then AfterClose(d)
    else if q.operation == DELETE_OBJECT then AfterDelete(d, q)
    else if q.operation == MOVE_OBJECT then AfterMove(d, q)
    else if q.operation == BEGIN_EDIT_OBJECT then AfterBegin(d, q, env)
    else if q.operation == TRUNCATE_OBJECT then AfterTruncate(d, q, env)
    else if q.operation == SEND_PARTIAL_OBJECT then AfterPartial(d, q, env)
    else if q.operation == END_EDIT_OBJECT then AfterEnd(d, q, env)
    else d
  }

  /** Operations that may change the device, other than by giving up an announcement. */
  predicate Changes(operation: uint16) {
    || operation == OPEN_SESSION || operation == CLOSE_SESSION || operation == DELETE_OBJECT || operation == MOVE_OBJECT
    || operation == BEGIN_EDIT_OBJECT || operation == TRUNCATE_OBJECT || operation == SEND_PARTIAL_OBJECT
    || operation == END_EDIT_OBJECT || operation == SEND_OBJECT_INFO || operation == SEND_OBJECT
    || operation == SET_OBJECT_PROP_VALUE
  }

  lemma EditingMoves(d: Device, q: Request, env: Env)
    ensures q.operation == TRUNCATE_OBJECT ==> AfterOther(d, q, env) == AfterTruncate(d, q, env)
    ensures q.operation == BEGIN_EDIT_OBJECT ==> AfterOther(d, q, env) == AfterBegin(d, q, env)
    ensures q.operation == END_EDIT_OBJECT ==> AfterOther(d, q, env) == AfterEnd(d, q, env)
  {
  }

  lemma PlainMoves(d: Device, q: Request, env: Env)
    ensures q.operation == CLOSE_SESSION ==> AfterOther(d, q, env) == AfterClose(d)
    ensures q.operation == DELETE_OBJECT ==> AfterOther(d, q, env) == AfterDelete(d, q)
    ensures q.operation == MOVE_OBJECT ==> AfterOther(d, q, env) == AfterMove(d, q)
    ensures !Changes(q.operation) ==> AfterOther(d, q, env) == d
  {
  }

  lemma OthersChangeNothing(d: Device, q: Request, env: Env)
    requires !Changes(q.operation)
    ensures AfterOther(d, q, env) == d
  {
  }

  // ---- Announcements ----

  lemma AdmittedIsNamed(v: View, q: Request, free: uint64, size: uint32, name: Name)
    ensures CheckInfo(v, q, free, size, name).Admitted? ==> IsName(BaseName(CheckInfo(v, q, free, size, name).path))
  {
    var check := CheckInfo(v, q, free, size, name);
    if check.Admitted? {
      JoinedIsNamed(FolderPath(v.db, FindStorage(v.storages, q.p1).value, q.p2), name);
    }
  }

  /** The entry of an admitted announcement. */
  ghost function EntryOf(q: Request, env: Env, path: seq<uint8>, parent: uint32, size: uint32, format: uint16): DbEntry
    requires IsName(BaseName(path))
  {
    DbEntry(q.p1, format, parent, size, BaseName(path), path, -1, env.modified)
  }

  /** An entry goes in under the next handle, whatever happens then: a folder is made at once, and
      an object is pending until its data comes. */
  function Entered(d: Device, env: Env, entry: DbEntry, limit: nat): (uint16, Device) {
    var taken := d.(v := d.v.(db := Insert(d.v.db, d.v.counter, entry), counter := Scans.Succ(d.v.counter)),
                    issued := d.issued + 1);
    if d.v.counter == INVALID_HANDLE then (RESPONSE_GENERAL_ERROR, taken)
    else if entry.format == FORMAT_ASSOCIATION then
      (if env.mkdirSucceeds then RESPONSE_OK else RESPONSE_GENERAL_ERROR, taken)
    else
      (RESPONSE_OK,
       taken.(announced := d.v.counter, pending := Some(Pending(d.v.db, entry, env.info.freeSpace, limit))))
  }

  /** What an announcement comes to. An admitted one is refused after all at the top of the fixed
      storage. */
  ghost function InfoTurn(d: Device, q: Request, env: Env, size: uint32, format: uint16, name: Name): (uint16, Device) {
    match CheckInfo(d.v, q, env.info.freeSpace, size, name)
    case Refused(code, _) => (code, d)
    case Admitted(path, parent, limit) =>
      if q.p1 == STORAGE_FIXED_RAM && parent == 0 then (RESPONSE_GENERAL_ERROR, d)
      else
        AdmittedIsNamed(d.v, q, env.info.freeSpace, size, name);
        Entered(d, env, EntryOf(q, env, path, parent, size, format), limit)
  }

  /** The device went by what it read: size, format and name. */
  ghost predicate WentBy(d: Device, q: Request, env: Env, o: Outcome, d1: Device, g: Incoming) {
    var turn := InfoTurn(d, q, env, g.d.size, g.d.format, Text(g.name));
    o == OutcomeOf(turn.0) && d1 == turn.1
  }

  /** It went by the announcement that can be read from the data phase, and by some other if none
      can be. */
  ghost predicate Considered(d: Device, q: Request, env: Env, o: Outcome, d1: Device) {
    && (exists g {:trigger IncomingFields(g)} :: WentBy(d, q, env, o, d1, g))
    && (forall g {:trigger IncomingFields(g)} ::
          HEADER_SIZE <= |env.incoming| && Encode(IncomingFields(g)) <= env.incoming[HEADER_SIZE..] ==>
            WentBy(d, q, env, o, d1, g))
  }

  lemma ConsidersIncoming(d: Device, q: Request, env: Env, o: Outcome, d1: Device, g: Incoming, b: seq<uint8>)
    requires HEADER_SIZE <= |env.incoming| && env.incoming <= b && Encode(IncomingFields(g)) <= b[HEADER_SIZE..]
    requires WentBy(d, q, env, o, d1, g)
    ensures Considered(d, q, env, o, d1)
  {
    assert IncomingFields(g) == IncomingFields(g);
    forall h | Encode(IncomingFields(h)) <= env.incoming[HEADER_SIZE..]
      ensures WentBy(d, q, env, o, d1, h)
    {
      assert env.incoming[HEADER_SIZE..] <= b[HEADER_SIZE..];
      IncomingUnique(g, h, b[HEADER_SIZE..]);
      assert InfoIntegers(g.d)[3] == U32(g.d.size) && InfoIntegers(g.d)[1] == U16(g.d.format);
    }
  }

  lemma RefusalsAnswer(v: View, q: Request, env: Env, size: uint32, name: Name)
    ensures CheckInfo(v, q, env.info.freeSpace, size, name).Refused? ==>
      CheckInfo(v, q, env.info.freeSpace, size, name).code != RESPONSE_TRANSACTION_CANCELLED
  {
  }

  lemma InfoNeverCancels(d: Device, q: Request, env: Env, size: uint32, format: uint16, name: Name)
    ensures InfoTurn(d, q, env, size, format, name).0 != RESPONSE_TRANSACTION_CANCELLED
  {
    RefusalsAnswer(d.v, q, env, size, name);
  }

  /** A failed announcement leaves an entry behind exactly when the checks admitted it and it was
      not for the top of the fixed storage: its folder could not be made, or the counter stood at
      the invalid handle. */
  lemma FailedInfoLeavesEntryExactly(d: Device, q: Request, env: Env, size: uint32, format: uint16, name: Name)
    requires d.v.counter !in d.v.db && InfoTurn(d, q, env, size, format, name).0 != RESPONSE_OK
    ensures var check := CheckInfo(d.v, q, env.info.freeSpace, size, name);
            InfoTurn(d, q, env, size, format, name).1.v.db != d.v.db <==>
              check.Admitted? && !(q.p1 == STORAGE_FIXED_RAM && check.parent == 0)
  {
    var after := InfoTurn(d, q, env, size, format, name).1;
    if after.v.db == d.v.db {
      assert d.v.counter !in after.v.db;
    }
  }

  /** A folder announced for the top of an empty storage: when it cannot be made, the device answers
      with an error and keeps its entry. */
  lemma FolderNotMadeStays(d: Device, q: Request, env: Env, s: Storage, name: Name)
    requires d.v.storages == [s] && s.maxFileSize == 0 && d.v.db == map[] && d.v.counter == 1
    requires q.p1 == s.id && s.id != STORAGE_FIXED_RAM && q.p2 == PARENT_ROOT && !env.mkdirSucceeds
    ensures var turn := InfoTurn(d, q, env, 0, FORMAT_ASSOCIATION, name);
            turn.0 == RESPONSE_GENERAL_ERROR && turn.1.v.db.Keys == {1} && turn.1.pending == d.pending
  {
    assert FindStorage(d.v.storages, q.p1) == Some(s);
    AdmittedIsNamed(d.v, q, env.info.freeSpace, 0, name);
  }

  // ---- Renames ----

  ghost function AfterRename(d: Device, q: Request, env: Env, r: Raw): Device {
    d.(v := d.v.(db := Renamed(d.v, q, env, r)))
  }

  /** A rename is to the string that can be read from the data phase, and to some string if none
      can be. */
  ghost predicate Renames(d: Device, q: Request, env: Env, d1: Device) {
    && (exists r {:trigger Received(r)} :: d1 == AfterRename(d, q, env, r))
    && (forall r {:trigger Received(r)} ::
          HEADER_SIZE <= |env.incoming| && Encode(Received(r)) <= env.incoming[HEADER_SIZE..] ==>
            d1 == AfterRename(d, q, env, r))
  }

  lemma RenamesTo(d: Device, q: Request, env: Env, r: Raw, b: seq<uint8>)
    requires HEADER_SIZE <= |env.incoming| && env.incoming <= b && Encode(Received(r)) <= b[HEADER_SIZE..]
    ensures Renames(d, q, env, AfterRename(d, q, env, r))
  {
    assert Received(r) == Received(r);
    forall s | Encode(Received(s)) <= env.incoming[HEADER_SIZE..]
      ensures s == r
    {
      assert env.incoming[HEADER_SIZE..] <= b[HEADER_SIZE..];
      RawUnique(s, r, b[HEADER_SIZE..]);
    }
  }

  // ---- Turns ----

  /** A request that met the device `d`, its outcome, and the device after it. */
  datatype Turn = Turn(d: Device, q: Request, env: Env, o: Outcome, d1: Device)

  /** Every turn obeys MoveRule. (Folded, like Protocol.) */
  ghost predicate Moves(d: Device, q: Request, env: Env, o: Outcome, d1: Device) {
    forall x {:trigger MoveRule(x)} :: x == Turn(d, q, env, o, d1) ==> MoveRule(x)
  }

  /** What a request does to the device: to all of it. */
  ghost predicate MoveRule(t: Turn) {
    var Turn(d, q, env, o, d1) := t;
    if q.operation == SEND_OBJECT_INFO then Considered(d, q, env, o, d1)
    else if q.operation == SEND_OBJECT then
      o == OutcomeOf(SendCode(d.v, d.pending, env)) && d1 == AfterSend(d, env)
    else if q.operation == SET_OBJECT_PROP_VALUE then Renames(d, q, env, d1)
    else d1 == AfterOther(d, q, env)
  }

  /** A handled request, with the device before and after it. */
  datatype Step = Step(e: Entry, d0: Device, d1: Device)

  ghost predicate StepOk(s: Step) {
    && Protocol(s.e) && s.e.v == s.d0.v
    && Moves(GivenUp(s.d0, s.e.q), s.e.q, s.e.env, s.e.outcome, s.d1)
  }

  lemma InfoMoves(d: Device, q: Request, env: Env, code: uint16, d1: Device)
    requires q.operation == SEND_OBJECT_INFO && Considered(d, q, env, OutcomeOf(code), d1)
    ensures Moves(d, q, env, OutcomeOf(code), d1)
  {
    assert MoveRule(Turn(d, q, env, OutcomeOf(code), d1));
  }

  lemma SendMoves(d: Device, q: Request, env: Env, code: uint16)
    requires q.operation == SEND_OBJECT && code == SendCode(d.v, d.pending, env)
    ensures Moves(d, q, env, OutcomeOf(code), AfterSend(d, env))
  {
    assert MoveRule(Turn(d, q, env, OutcomeOf(code), AfterSend(d, env)));
  }

  lemma RenameMoves(d: Device, q: Request, env: Env, o: Outcome, d1: Device)
    requires q.operation == SET_OBJECT_PROP_VALUE && Renames(d, q, env, d1)
    ensures Moves(d, q, env, o, d1)
  {
    assert MoveRule(Turn(d, q, env, o, d1));
  }

  lemma OtherMoves(d: Device, q: Request, env: Env, o: Outcome, d1: Device)
    requires q.operation != SEND_OBJECT && q.operation != SEND_OBJECT_INFO && q.operation != SET_OBJECT_PROP_VALUE
    requires d1 == AfterOther(d, q, env)
    ensures Moves(d, q, env, o, d1)
  {
    assert MoveRule(Turn(d, q, env, o, d1));
  }
}
