/** The device: its session, its storages, the hand-over from SendObjectInfo to SendObject,
    the open edits, and the loop that answers one request after the other. */
module Server {
  import opened MtpTypes
  import opened Wire
  import opened Packets
  import opened Strings
  import opened Tables
  import opened Database
  import opened Datasets
  import opened Properties
  import opened PropList
  import opened Requests
  import opened Intake
  import opened Sends
  import opened Turns
  import opened Runs
  import Laws
  import Scans
  import Edits

  ghost predicate Working(s: MtpServer)
    reads s, s.db, s.request, s.request.buffer, s.response, s.response.buffer, s.data, s.data.buffer
  {
    s.PacketsOk() && s.StateOk()
  }

  class MtpServer {
    const db: UbuntuMtpDatabase
    const request: MtpPacket
    const response: MtpPacket
    const data: MtpPacket
    const ptp: bool
    var storages: seq<Storage>
    var sessionOpen: bool
    var sessionID: uint32
    var edits: seq<Edits.Edit>
    /** The object that SendObjectInfo announced, for the SendObject that should follow. */
    var send: Send
    /** Every container written to the host so far. */
    var out: seq<seq<uint8>>
    /** What is known of the announced object, while there is one. */
    ghost var pending: Option<Pending>
    ghost var books: Edits.Books
    ghost var work: map<uint32, Work>
    /** Whether an object was ever moved. */
    ghost var moved: bool

    constructor (db: UbuntuMtpDatabase, ptp: bool)
      requires db.Valid() && !db.localServer && (db.issued < PARENT_ROOT ==> Ordered(db.db))
      ensures this.db == db && this.ptp == ptp && storages == [] && !sessionOpen && edits == [] && out == [] && !moved
      ensures pending == None && books == Edits.Books(multiset{}, multiset{}, multiset{}, multiset{})
      ensures Ready() && fresh(request) && fresh(response) && fresh(data)
      ensures fresh(request.buffer) && fresh(response.buffer) && fresh(data.buffer)
    {
      edits, send, out := [], Send(INVALID_HANDLE, 0, [], 0), [];
      pending, work, moved := None, map[], false;
      books := Edits.Books(multiset{}, multiset{}, multiset{}, multiset{});
      this.db, this.ptp := db, ptp;
      request := new MtpPacket(512);
      response := new MtpPacket(512);
      data := new MtpPacket(DATA_BUFFER_SIZE);
      storages, sessionOpen, sessionID := [], false, 0;
      new;
      assert Working(this);
    }

    /** An announced object passed the checks, is in the table as announced, and is the only
        change since it was announced. */
    ghost predicate PendingOk()
      reads this`pending, this`send, db
    {
      match pending
      case None => send.handle == INVALID_HANDLE
      case Some(p) =>
        && send.handle != INVALID_HANDLE && send.format != FORMAT_ASSOCIATION
        && send.path == p.entry.path && send.format == p.entry.format && send.size as nat == p.entry.size
        && Fitting(send.size, p.free, p.limit)
        && (db.issued < PARENT_ROOT ==> send.handle !in p.before && db.db == p.before[send.handle := p.entry])
    }

    ghost predicate StateOk()
      reads this`sessionOpen, this`edits, this`books, this`work, this`pending, this`send, this`moved, db
    {
      && db.Valid() && db.localServer == sessionOpen
      && EditsSound(books, edits, work) && PendingOk()
      && (!moved && db.issued < PARENT_ROOT ==> Ordered(db.db))
    }

    /** The device is in order. (The quantifier keeps Working folded until it is named.) */
    ghost predicate Ready()
      reads this, db, request, request.buffer, response, response.buffer, data, data.buffer
    {
      forall s: MtpServer {:trigger Working(s)} :: s == this ==> Working(s)
    }

    function ViewNow(): View
      reads this`storages, this`edits, this`sessionOpen, this`sessionID, db
    {
      View(db.db, db.counter, storages, edits, sessionOpen, sessionID, ptp)
    }

    /** The device as a value. */
    ghost function Now(): Device
      reads this`storages, this`edits, this`sessionOpen, this`sessionID
      reads this`send, this`pending, this`books, this`work, this`moved, db
    {
      Device(ViewNow(), send.handle, pending, db.issued, books, work, moved)
    }

    lemma HealthyNow()
      requires Ready()
      ensures Healthy(Now())
    {
      assert Working(this);
      assert Sane(Now());
    }

    /** The packets are sound and do not share buffers. */
    ghost predicate PacketsOk()
      reads request, request.buffer, response, response.buffer, data, data.buffer
    {
      && request != response && request != data && response != data
      && request.buffer != response.buffer && request.buffer != data.buffer && response.buffer != data.buffer
      && request.Valid() && request.Plain() && COMMAND_SIZE <= request.buffer.Length
      && response.Valid() && response.Plain() && PARAMETERS_END <= response.buffer.Length
      && data.Valid() && DATA_BUFFER_SIZE <= data.buffer.Length
    }

    /** The data packet holds `fields`, and the response `params`. */
    ghost predicate Holding(fields: seq<Field>, params: seq<uint32>)
      reads response, response.buffer, data
    {
      data.offset == data.packetSize && data.fields == fields && data.ahead == [] && Params(params)
    }

    ghost predicate Params(params: seq<uint32>)
      reads response, response.buffer
    {
      PARAMETERS_END <= response.buffer.Length && |params| <= 5
        && response.packetSize == HEADER_SIZE + 4 * |params| && response.Words()[..|params|] == params
    }

    // ---- Storages ----

    static method GetStorage(storages: seq<Storage>, id: uint32) returns (found: Option<Storage>)
      ensures found == FindStorage(storages, id)
    {
      if id == 0 {
        return if storages == [] then None else Some(storages[0]);
      }
      for i := 0 to |storages|
        invariant FindStorage(storages, id) == FindStorage(storages[i..], id)
      {
        assert storages[i..][1..] == storages[i + 1..];
        if storages[i].id == id {
          return Some(storages[i]);
        }
      }
      found := None;
    }

    /** The data packet holds what a request brought, or is empty. */
    ghost predicate Loaded(q: Request, env: Env)
      reads data, data.buffer
    {
      && data.Plain() && data.packetSize <= data.buffer.Length
      && if DataIn(q.operation) then HEADER_SIZE <= |env.incoming| && data.Content() == env.incoming
        else data.packetSize == HEADER_SIZE
    }

    // ---- Queries ----

    method DoGetDeviceInfo(d: DeviceInfo) returns (code: uint16)
      requires PacketsOk() && Holding([], [])
      modifies data, data.buffer
      ensures data.buffer == old(data.buffer) || fresh(data.buffer)
      ensures PacketsOk() && Holding(DeviceFields(d), []) && code == RESPONSE_OK
    {
      WriteDeviceInfo(data, d);
      assert [] + DeviceFields(d) == DeviceFields(d);
      code := RESPONSE_OK;
    }

    method DoGetStorageIDs(v: View) returns (code: uint16)
      requires PacketsOk() && Holding([], [])
      modifies data, data.buffer
      ensures data.buffer == old(data.buffer) || fresh(data.buffer)
      ensures PacketsOk() && Holding(StorageIDsAnswer(v).fields, []) && code == StorageIDsAnswer(v).code
    {
      if !v.sessionOpen {
        return RESPONSE_SESSION_NOT_OPEN;
      }
      data.PutUInt32(|v.storages| % 0x1_0000_0000);
      var ids := StorageIDs(v.storages);
      for i := 0 to |v.storages|
        invariant PacketsOk() && Holding([U32(|ids| % 0x1_0000_0000)] + U32s(ids[..i]), [])
        invariant data.buffer == old(data.buffer) || fresh(data.buffer)
      {
        data.Put(U32(v.storages[i].id));
        U32sSnoc(ids, i);
        Assoc([U32(|ids| % 0x1_0000_0000)], U32s(ids[..i]), [U32(ids[i])]);
      }
      assert ids[..|ids|] == ids;
      code := RESPONSE_OK;
    }

    method DoGetStorageInfo(v: View, q: Request, env: Env) returns (code: uint16)
      requires PacketsOk() && Holding([], [])
      modifies data, data.buffer
      ensures data.buffer == old(data.buffer) || fresh(data.buffer)
      ensures PacketsOk() && Holding(StorageInfoAnswer(v, q, env).fields, [])
      ensures code == StorageInfoAnswer(v, q, env).code
    {
      if !v.sessionOpen {
        return RESPONSE_SESSION_NOT_OPEN;
      }
      var storage := GetStorage(v.storages, q.p1);
      if storage.None? {
        return RESPONSE_INVALID_STORAGE_ID;
      }
      WriteStorageInfo(data, ServedStorageInfo(storage.value, env.info));
      code := RESPONSE_OK;
    }

    method DoGetObjectPropsSupported(v: View) returns (code: uint16)
      requires PacketsOk() && Holding([], [])
      modifies data, data.buffer
      ensures data.buffer == old(data.buffer) || fresh(data.buffer)
      ensures PacketsOk() && Holding(PropsSupportedAnswer(v).fields, []) && code == PropsSupportedAnswer(v).code
    {
      if !v.sessionOpen {
        return RESPONSE_SESSION_NOT_OPEN;
      }
      data.PutAUInt16(CodesIn(ObjectProperties));
      assert [] + Array16(CodesIn(ObjectProperties)) == Array16(CodesIn(ObjectProperties));
      code := RESPONSE_OK;
    }

    method HasStorageId(storages: seq<Storage>, id: uint32) returns (has: bool)
      ensures has == HasStorage(storages, id)
    {
      if id == 0 || id == 0xFFFF_FFFF {
        return storages != [];
      }
      var found := GetStorage(storages, id);
      has := found.Some?;
    }

    method DoGetObjectHandles(v: View, q: Request) returns (code: uint16)
      requires PacketsOk() && Holding([], []) && v.db == db.db
      modifies data, data.buffer
      ensures data.buffer == old(data.buffer) || fresh(data.buffer)
      ensures PacketsOk() && Holding(HandlesAnswer(v, q).fields, []) && code == HandlesAnswer(v, q).code
    {
      if !v.sessionOpen {
        return RESPONSE_SESSION_NOT_OPEN;
      }
      var has := HasStorageId(v.storages, q.p1);
      if !has {
        return RESPONSE_INVALID_STORAGE_ID;
      }
      var list := db.GetObjectList(q.p1, q.p2 % 0x1_0000, q.p3);
      PutList(list);
      code := RESPONSE_OK;
    }

    /** Sets the response's first parameter. */
    method SetFirst(value: uint32)
      requires PacketsOk() && Holding([], [])
      modifies response`packetSize, response.buffer
      ensures PacketsOk() && Holding([], [value])
    {
      response.SetParameter(1, value);
      assert response.Words()[..1] == [value];
    }

    /** Puts an array of handles. */
    method PutList(list: seq<uint32>)
      requires PacketsOk() && Holding([], [])
      modifies data, data.buffer
      ensures data.buffer == old(data.buffer) || fresh(data.buffer)
      ensures PacketsOk() && Holding(Array32(list), [])
    {
      data.PutAUInt32(list);
      assert [] + Array32(list) == Array32(list);
    }

    method PutInfo(d: ObjectInfo)
      requires PacketsOk() && Holding([], []) && d.created == [] && d.keywords == []
      modifies data, data.buffer
      ensures data.buffer == old(data.buffer) || fresh(data.buffer)
      ensures PacketsOk() && Holding(InfoFields(d), [])
    {
      assert d.(created := [], keywords := []) == d;
      WriteObjectInfo(data, d);
      assert [] + InfoFields(d) == InfoFields(d);
    }

    method DoGetNumObjects(v: View, q: Request) returns (code: uint16)
      requires PacketsOk() && Holding([], []) && v.db == db.db
      modifies response`packetSize, response.buffer
      ensures PacketsOk() && Holding([], NumObjectsAnswer(v, q).params) && code == NumObjectsAnswer(v, q).code
    {
      if !v.sessionOpen {
        return RESPONSE_SESSION_NOT_OPEN;
      }
      var has := HasStorageId(v.storages, q.p1);
      if !has {
        return RESPONSE_INVALID_STORAGE_ID;
      }
      var list := db.GetObjectList(q.p1, q.p2 % 0x1_0000, q.p3);
      var count := |list| % 0x1_0000_0000;
      if count < 0x8000_0000 {
        SetFirst(count);
        code := RESPONSE_OK;
      } else {
        SetFirst(0);
        code := RESPONSE_INVALID_OBJECT_HANDLE;
      }
    }

    method DoGetObjectReferences(v: View, q: Request) returns (code: uint16)
      requires PacketsOk() && Holding([], []) && v.db == db.db && !ReferencesThrow(v, q)
      modifies data, data.buffer
      ensures data.buffer == old(data.buffer) || fresh(data.buffer)
      ensures PacketsOk() && Holding(ReferencesAnswer(v, q).fields, []) && code == ReferencesAnswer(v, q).code
    {
      if !v.sessionOpen {
        return RESPONSE_SESSION_NOT_OPEN;
      }
      if v.storages == [] {
        return RESPONSE_INVALID_OBJECT_HANDLE;
      }
      if q.p1 == 0 || q.p1 == PARENT_ROOT {
        data.PutUInt32(0);
      } else {
        var list := db.GetObjectList(db.db[q.p1].storage, q.p1 % 0x1_0000, db.db[q.p1].format as uint32);
        PutList(list);
      }
      code := RESPONSE_OK;
    }

    method DoGetObjectPropValue(v: View, q: Request, env: Env) returns (code: uint16)
      requires PacketsOk() && Holding([], [])
      modifies data, data.buffer
      ensures data.buffer == old(data.buffer) || fresh(data.buffer)
      ensures PacketsOk() && Holding(PropValueAnswer(v, q, env).fields, []) && code == PropValueAnswer(v, q, env).code
    {
      var property: uint16 := q.p2 % 0x1_0000;
      if v.storages == [] || q.p1 == 0 || q.p1 == PARENT_ROOT {
        return RESPONSE_INVALID_OBJECT_HANDLE;
      }
      if property == PROPERTY_NON_CONSUMABLE {
        return RESPONSE_OK;
      }
      if !Supported(property) || (!IsConstant(property) && q.p1 !in v.db) {
        return RESPONSE_GENERAL_ERROR;
      }
      PutValue(q.p1, if IsConstant(property) then NO_ENTRY else v.db[q.p1], env.epoch, property);
      code := RESPONSE_OK;
    }

    method PutValue(h: uint32, e: DbEntry, epoch: Name, property: uint16)
      requires PacketsOk() && Holding([], [])
      modifies data, data.buffer
      ensures data.buffer == old(data.buffer) || fresh(data.buffer)
      ensures PacketsOk() && Holding(ValueOf(h, e, epoch, property), [])
    {
      if Kind(property) == KIND_STR {
        PutString(data, TextOf(e, epoch, property));
      } else if Kind(property) == KIND_UINT128 {
        data.PutFields([U64(h), U64(0)]);
      } else {
        data.PutFields([NumberOf(e, property)]);
      }
      assert [] + ValueOf(h, e, epoch, property) == ValueOf(h, e, epoch, property);
    }

    method DoGetDevicePropValue(q: Request) returns (code: uint16)
      requires PacketsOk() && Holding([], [])
      modifies data, data.buffer
      ensures data.buffer == old(data.buffer) || fresh(data.buffer)
      ensures PacketsOk() && Holding(DevicePropValueAnswer(q).fields, []) && code == DevicePropValueAnswer(q).code
    {
      if !IsDeviceProperty(q.p1 % 0x1_0000) {
        return RESPONSE_OPERATION_NOT_SUPPORTED;
      }
      data.PutUInt8(0);
      code := RESPONSE_OK;
    }

    method DoGetObjectPropList(v: View, q: Request, env: Env) returns (code: uint16)
      requires PacketsOk() && Holding([], [])
      modifies data, data.buffer
      ensures data.buffer == old(data.buffer) || fresh(data.buffer)
      ensures PacketsOk() && Holding(PropListAnswer(v, q, env).fields, []) && code == PropListAnswer(v, q, env).code
    {
      if v.storages == [] {
        return RESPONSE_INVALID_OBJECT_HANDLE;
      }
      code := GetObjectPropertyList(data, v.db, ListRequestOf(q), env.epoch);
      ghost var fields := PropListFields(v.db, Verdict(v.db, ListRequestOf(q)).1, q.p3, env.epoch);
      assert [] + fields == fields;
    }

    method GetEditObject(edits: seq<Edits.Edit>, h: uint32) returns (found: Option<nat>)
      ensures found == Edits.Find(edits, h)
    {
      for i := 0 to |edits|
        invariant forall j :: 0 <= j < i ==> edits[j].handle != h
      {
        if edits[i].handle == h {
          Edits.FindAt(edits, i);
          return Some(i);
        }
      }
      found := None;
    }

    /** The size of an object that is being edited is that of the edit. */
    method DoGetObjectInfo(v: View, q: Request) returns (code: uint16)
      requires PacketsOk() && Holding([], [])
      modifies data, data.buffer
      ensures data.buffer == old(data.buffer) || fresh(data.buffer)
      ensures PacketsOk() && Holding(ObjectInfoAnswer(v, q).fields, []) && code == ObjectInfoAnswer(v, q).code
    {
      if v.storages == [] || q.p1 == 0 || q.p1 == PARENT_ROOT {
        return RESPONSE_INVALID_OBJECT_HANDLE;
      }
      if q.p1 !in v.db {
        return RESPONSE_GENERAL_ERROR;
      }
      var e := v.db[q.p1];
      var size: uint32 := e.size % 0x1_0000_0000;
      var edit := GetEditObject(v.edits, q.p1);
      if edit.Some? {
        size := Saturated(v.edits[edit.value].size);
      }
      var d := ObjectInfo(e.storage, e.format, 0, size, 0, 0, 0, 0, 0, 0, 0, e.parent,
                          if e.format == FORMAT_ASSOCIATION then 1 else 0, 0, 0, e.name, [], e.modified, []);
      assert d == ServedInfo(v, q.p1);
      PutInfo(d);
      code := RESPONSE_OK;
    }

    method PutDescription(p: Property)
      requires PacketsOk() && Holding([], []) && WellFormed(p)
      modifies data, data.buffer
      ensures data.buffer == old(data.buffer) || fresh(data.buffer)
      ensures PacketsOk() && Holding(WrittenFields(p), [])
    {
      var property := new MtpProperty(p);
      property.Write(data);
      assert [] + WrittenFields(p) == WrittenFields(p);
    }

    method DoGetObjectPropDesc(q: Request) returns (code: uint16)
      requires PacketsOk() && Holding([], [])
      modifies data, data.buffer
      ensures data.buffer == old(data.buffer) || fresh(data.buffer)
      ensures PacketsOk() && Holding(PropDescAnswer(q).fields, []) && code == PropDescAnswer(q).code
    {
      var property: uint16 := q.p1 % 0x1_0000;
      var kind := DescribedKind(property);
      if kind.None? {
        return RESPONSE_OBJECT_PROP_NOT_SUPPORTED;
      }
      DescriptionIsWellFormed(property);
      PutDescription(Description(property));
      code := RESPONSE_OK;
    }

    method DoGetDevicePropDesc(q: Request) returns (code: uint16)
      requires PacketsOk() && Holding([], [])
      modifies data, data.buffer
      ensures data.buffer == old(data.buffer) || fresh(data.buffer)
      ensures PacketsOk() && Holding(DevicePropDescAnswer(q).fields, []) && code == DevicePropDescAnswer(q).code
    {
      var property: uint16 := q.p1 % 0x1_0000;
      if !IsDeviceProperty(property) {
        return RESPONSE_DEVICE_PROP_NOT_SUPPORTED;
      }
      DescribedIsWellFormed(property, KIND_STR, false);
      PutDescription(Described(property, KIND_STR, false));
      code := RESPONSE_OK;
    }

    /** Answers a request that only asks. */
    method Ask(q: Request, env: Env) returns (code: uint16)
      requires PacketsOk() && Holding([], []) && IsQuery(q.operation) && !Throws(ViewNow(), q)
      modifies data, data.buffer, response`packetSize, response.buffer
      ensures data.buffer == old(data.buffer) || fresh(data.buffer)
      ensures PacketsOk() && code == QueryAnswer(old(ViewNow()), q, env).code
      ensures Holding(QueryAnswer(old(ViewNow()), q, env).fields, QueryAnswer(old(ViewNow()), q, env).params)
    {
      var v := ViewNow();
      if q.operation == GET_DEVICE_INFO {
        code := DoGetDeviceInfo(ServedDeviceInfo(ptp, env.device));
      } else if q.operation == GET_STORAGE_IDS {
        code := DoGetStorageIDs(v);
      } else if q.operation == GET_STORAGE_INFO {
        code := DoGetStorageInfo(v, q, env);
      } else if q.operation == GET_OBJECT_PROPS_SUPPORTED {
        code := DoGetObjectPropsSupported(v);
      } else if q.operation == GET_OBJECT_HANDLES {
        code := DoGetObjectHandles(v, q);
      } else if q.operation == GET_NUM_OBJECTS {
        code := DoGetNumObjects(v, q);
      } else if q.operation == GET_OBJECT_REFERENCES {
        code := DoGetObjectReferences(v, q);
      } else {
        code := AskMore(v, q, env);
      }
    }

    method AskMore(v: View, q: Request, env: Env) returns (code: uint16)
      requires PacketsOk() && Holding([], []) && IsQuery(q.operation) && IsLaterQuery(q.operation)
      modifies data, data.buffer
      ensures data.buffer == old(data.buffer) || fresh(data.buffer)
      ensures PacketsOk() && code == QueryAnswer(v, q, env).code
      ensures Holding(QueryAnswer(v, q, env).fields, []) && QueryAnswer(v, q, env).params == []
    {
      if q.operation == GET_OBJECT_PROP_VALUE {
        code := DoGetObjectPropValue(v, q, env);
      } else if q.operation == GET_DEVICE_PROP_VALUE {
        code := DoGetDevicePropValue(q);
      } else if q.operation == GET_OBJECT_PROP_LIST {
        code := DoGetObjectPropList(v, q, env);
      } else {
        code := AskLast(v, q);
      }
    }

    method AskLast(v: View, q: Request) returns (code: uint16)
      requires PacketsOk() && Holding([], []) && IsLastQuery(q.operation)
      modifies data, data.buffer
      ensures data.buffer == old(data.buffer) || fresh(data.buffer)
      ensures PacketsOk() && code == LastAnswer(v, q).code
      ensures Holding(LastAnswer(v, q).fields, []) && LastAnswer(v, q).params == []
    {
      if q.operation == GET_OBJECT_INFO {
        code := DoGetObjectInfo(v, q);
      } else if q.operation == GET_OBJECT_PROP_DESC {
        code := DoGetObjectPropDesc(q);
      } else if q.operation == GET_DEVICE_PROP_DESC {
        code := DoGetDevicePropDesc(q);
      } else {
        code := RESPONSE_DEVICE_PROP_NOT_SUPPORTED;
      }
    }

    // ---- Sessions ----

    method DoOpenSession(ghost d: Device, q: Request) returns (code: uint16)
      requires PacketsOk() && Holding([], []) && StateOk() && d == Now()
      modifies this`sessionOpen, this`sessionID, db`localServer, response`packetSize, response.buffer
      ensures PacketsOk() && StateOk() && Now() == AfterOpen(d, q)
      ensures code == (if d.v.sessionOpen then RESPONSE_SESSION_ALREADY_OPEN else RESPONSE_OK)
      ensures Params(if d.v.sessionOpen then [d.v.sessionID] else [])
    {
      if sessionOpen {
        SetFirst(sessionID);
        return RESPONSE_SESSION_ALREADY_OPEN;
      }
      sessionID := q.p1;
      sessionOpen := true;
      db.SetSession(true);
      code := RESPONSE_OK;
    }

    method DoCloseSession(ghost d: Device) returns (code: uint16)
      requires StateOk() && d == Now()
      modifies this`sessionOpen, this`sessionID, db`localServer
      ensures StateOk() && code == (if d.v.sessionOpen then RESPONSE_OK else RESPONSE_SESSION_NOT_OPEN)
      ensures Now() == AfterClose(d)
    {
      if !sessionOpen {
        return RESPONSE_SESSION_NOT_OPEN;
      }
      sessionID := 0;
      sessionOpen := false;
      db.SetSession(false);
      code := RESPONSE_OK;
    }

    // ---- Sending ----

    /** The response to an announcement that was accepted: storage, parent and new handle. */
    method SetThree(a: uint32, b: uint32, c: uint32)
      requires PacketsOk() && Params([])
      modifies response`packetSize, response.buffer
      ensures PacketsOk() && Params([a, b, c])
    {
      response.SetParameter(1, a);
      response.SetParameter(2, b);
      response.SetParameter(3, c);
      assert response.Words()[..3] == [a, b, c];
    }

    /** Reads the fields that are needed. */
    static method ReadAnnouncement(packet: MtpPacket, ghost g: Incoming)
      returns (size: uint32, format: uint16, name: Name)
      requires packet.Valid() && packet.ahead == IncomingFields(g)
      modifies packet`offset, packet`fields, packet`ahead
      ensures packet.Valid() && size == g.d.size && format == g.d.format && name == Text(g.name)
    {
      ghost var strings := Received(g.name) + (Received(g.created) + Received(g.modified));
      var d := GetInfoIntegers(packet, g.d, strings);
      name := GetString(packet, g.name, Received(g.created) + Received(g.modified));
      var _ := GetString(packet, g.created, Received(g.modified));
      assert Received(g.modified) + [] == Received(g.modified);
      var _ := GetString(packet, g.modified, []);
      size, format := d.size, d.format;
    }

    method ReadFields(ghost g: Incoming) returns (size: uint32, format: uint16, name: Name)
      requires PacketsOk() && data.ahead == IncomingFields(g)
      modifies data`offset, data`fields, data`ahead
      ensures PacketsOk() && size == g.d.size && format == g.d.format && name == Text(g.name)
    {
      size, format, name := ReadAnnouncement(data, g);
    }

    /** The storage and the folder that an announcement names: the refusal, if one is missing. */
    method CheckTarget(q: Request) returns (code: uint16, storage: Option<Storage>)
      ensures storage == FindStorage(storages, q.p1)
      ensures code == if storage.None? then RESPONSE_INVALID_STORAGE_ID
                      else if q.p2 == PARENT_ROOT then RESPONSE_OK
                      else if Sends.Lookup(db.db, q.p2) != RESPONSE_OK then Sends.Lookup(db.db, q.p2)
                      else if db.db[q.p2].format != FORMAT_ASSOCIATION then RESPONSE_INVALID_PARENT_OBJECT
                      else RESPONSE_OK
    {
      storage := GetStorage(storages, q.p1);
      if storage.None? {
        return RESPONSE_INVALID_STORAGE_ID, storage;
      }
      code := RESPONSE_OK;
      if q.p2 != PARENT_ROOT {
        code := Sends.Lookup(db.db, q.p2);
        if code == RESPONSE_OK && db.db[q.p2].format != FORMAT_ASSOCIATION {
          code := RESPONSE_INVALID_PARENT_OBJECT;
        }
      }
    }

    method DoSendObjectInfo(ghost d: Device, q: Request, env: Env, ghost g: Incoming) returns (code: uint16)
      requires PacketsOk() && Params([]) && StateOk() && pending == None && d == Now()
      requires data.ahead == IncomingFields(g)
      modifies this`send, this`pending, db`db, db`counter, db`issued
      modifies data`offset, data`fields, data`ahead, response`packetSize, response.buffer
      ensures PacketsOk() && StateOk()
      ensures (code, Now()) == InfoTurn(d, q, env, g.d.size, g.d.format, Text(g.name))
      ensures Laws.WentAs(d, q, env, OutcomeOf(code), Now(), g.d.size, g.d.format, Text(g.name))
      ensures Params(if code == RESPONSE_OK then InfoParams(d.v, q) else [])
    {
      var storage;
      code, storage := CheckTarget(q);
      if code == RESPONSE_OK {
        var size, format, name := ReadFields(g);
        code := Consider(d, q, env, storage.value, size, format, name);
      }
      Laws.InfoGoes(d, q, env, OutcomeOf(code), Now(), g);
    }

    /** Admits an announcement, or does not, and answers with the new handle if it does. */
    method Consider(ghost d: Device, q: Request, env: Env, storage: Storage, size: uint32, format: uint16, name: Name)
      returns (code: uint16)
      requires PacketsOk() && Params([])
      requires StateOk() && pending == None && FindStorage(storages, q.p1) == Some(storage) && d == Now()
      requires q.p2 == PARENT_ROOT
               || (Sends.Lookup(db.db, q.p2) == RESPONSE_OK && db.db[q.p2].format == FORMAT_ASSOCIATION)
      modifies this`send, this`pending, db`db, db`counter, db`issued, response`packetSize, response.buffer
      ensures PacketsOk() && StateOk() && (code, Now()) == InfoTurn(d, q, env, size, format, name)
      ensures Params(if code == RESPONSE_OK then InfoParams(d.v, q) else [])
    {
      var handle := db.counter;
      code := Admit(d, q, env, storage, size, format, name);
      if code == RESPONSE_OK {
        SetThree(q.p1, if q.p2 == PARENT_ROOT then 0 else q.p2, handle);
      }
    }

    /** Checks the size of an announcement whose storage and folder are known. */
    method Admit(ghost d: Device, q: Request, env: Env, storage: Storage, size: uint32, format: uint16, name: Name)
      returns (code: uint16)
      requires StateOk() && pending == None && FindStorage(storages, q.p1) == Some(storage) && d == Now()
      requires q.p2 == PARENT_ROOT
               || (Sends.Lookup(db.db, q.p2) == RESPONSE_OK && db.db[q.p2].format == FORMAT_ASSOCIATION)
      modifies this`send, this`pending, db`db, db`counter, db`issued
      ensures StateOk()
      ensures (code, Now()) == InfoTurn(d, q, env, size, format, name)
    {
      code := CheckSize(size, env.info.freeSpace, storage.maxFileSize);
      if code != RESPONSE_OK {
        send := send.(size := size);
        return;
      }
      var folder := FolderPath(db.db, storage, q.p2);
      JoinedIsNamed(folder, name);
      code := Announce(d, q, env, Joined(folder, name), format, if q.p2 == PARENT_ROOT then 0 else q.p2, size,
                       storage.maxFileSize);
    }

    method Announce(ghost d: Device, q: Request, env: Env, path: seq<uint8>, format: uint16, parent: uint32,
                    size: uint32, limit: uint64) returns (code: uint16)
      requires StateOk() && pending == None && d == Now()
      requires IsName(BaseName(path)) && Fitting(size, env.info.freeSpace, limit) && (parent == 0 || parent in db.db)
      modifies this`send, this`pending, db`db, db`counter, db`issued
      ensures StateOk()
      ensures if q.p1 == STORAGE_FIXED_RAM && parent == 0 then code == RESPONSE_GENERAL_ERROR && Now() == d
              else (code, Now()) == Entered(d, env, EntryOf(q, env, path, parent, size, format), limit)
    {
      var handle := Reserve(q, env, path, format, parent, size);
      send := send.(size := size);
      if handle == INVALID_HANDLE {
        return RESPONSE_GENERAL_ERROR;
      }
      code := Accept(d, EntryOf(q, env, path, parent, size, format), env, handle, path, format, size, limit);
    }

    /** Makes the folder, or notes the announced object, whose entry is in the table. */
    method Accept(ghost d: Device, ghost entry: DbEntry, env: Env, handle: uint32, path: seq<uint8>, format: uint16,
                  size: uint32, ghost limit: uint64)
      returns (code: uint16)
      requires StateOk() && pending == None && d.pending == None && handle == d.v.counter && handle != INVALID_HANDLE
      requires entry.path == path && entry.format == format && entry.size == size as nat
      requires Fitting(size, env.info.freeSpace, limit) && send.size == size
      requires Now() == d.(v := d.v.(db := Insert(d.v.db, handle, entry), counter := Scans.Succ(handle)),
                           issued := d.issued + 1)
      requires db.issued < PARENT_ROOT ==> handle !in d.v.db
      modifies this`send, this`pending, db`db
      ensures StateOk() && (code, Now()) == Entered(d, env, entry, limit)
    {
      if format == FORMAT_ASSOCIATION {
        if !env.mkdirSucceeds {
          return RESPONSE_GENERAL_ERROR;
        }
        db.EndSendObject(handle, FORMAT_ASSOCIATION, true, env.fileSize);
      } else {
        send := Send(handle, format, path, size);
        pending := Some(Pending(d.v.db, entry, env.info.freeSpace, limit));
      }
      code := RESPONSE_OK;
    }

    /** Reserves the table's entry. */
    method Reserve(q: Request, env: Env, path: seq<uint8>, format: uint16, parent: uint32, size: uint32)
      returns (handle: uint32)
      requires StateOk() && pending == None && IsName(BaseName(path)) && (parent == 0 || parent in db.db)
      modifies db`db, db`counter, db`issued
      ensures StateOk()
      ensures if q.p1 == STORAGE_FIXED_RAM && parent == 0 then
                && handle == INVALID_HANDLE && db.db == old(db.db)
                && db.counter == old(db.counter) && db.issued == old(db.issued)
              else
                && handle == old(db.counter) && db.issued == old(db.issued) + 1 && db.counter == Scans.Succ(handle)
                && db.db == Insert(old(db.db), handle, EntryOf(q, env, path, parent, size, format))
                && (db.issued < PARENT_ROOT ==> handle !in old(db.db))
    {
      assert db.issued + 1 < PARENT_ROOT ==> db.KnownParent(parent);
      handle := db.BeginSendObject(path, format, parent, q.p1, size, env.modified);
    }

    /** Takes over the data of the announced object. Whatever goes wrong, the announcement is
        over, and the entry is gone. */
    method DoSendObject(ghost d: Device, q: Request, env: Env) returns (code: uint16)
      requires PacketsOk() && Holding([], []) && StateOk() && d == Now()
      modifies this`send, this`pending, db`db, data, data.buffer
      ensures data.buffer == old(data.buffer) || fresh(data.buffer)
      ensures PacketsOk() && Holding([], []) && StateOk()
      ensures code == SendCode(d.v, d.pending, env) && Now() == AfterSend(d, env)
      ensures storages != [] && d.pending.Some? ==>
        (code == RESPONSE_OK <==>
         HEADER_SIZE <= |env.incoming| && env.openSucceeds && Laws.CameWhole(d.pending.value.entry.size, env))
    {
      if storages == [] {
        code := RESPONSE_GENERAL_ERROR;
      } else {
        code := TakeObject(d, env);
        FinishSend(d, code, env);
      }
    }

    /** The part of SendObject that reads; it empties the packet, so that nothing is sent back. */
    method TakeObject(ghost d: Device, env: Env) returns (code: uint16)
      requires PacketsOk() && Holding([], []) && d == Now() && PendingOk() && storages != []
      modifies data, data.buffer
      ensures data.buffer == old(data.buffer) || fresh(data.buffer)
      ensures PacketsOk() && Holding([], []) && code == SendCode(d.v, d.pending, env)
    {
      code := RESPONSE_NO_VALID_OBJECT_INFO;
      if send.handle != INVALID_HANDLE {
        code := ReceiveObject(env);
      }
      data.Reset();
    }

    /** Closes the announcement; with anything but success its entry is taken back. */
    method FinishSend(ghost d: Device, code: uint16, env: Env)
      requires StateOk() && d == Now() && storages != [] && code == SendCode(d.v, d.pending, env)
      modifies this`send, this`pending, db`db
      ensures StateOk() && pending == None && Now() == AfterSend(d, env)
    {
      db.EndSendObject(send.handle, send.format, code == RESPONSE_OK, env.fileSize);
      send := send.(handle := INVALID_HANDLE, format := 0);
      pending := None;
    }

    /** Reads the header and the first bytes, writes them to the file, and has the kernel
        receive the rest. */
    method ReceiveObject(env: Env) returns (code: uint16)
      requires PacketsOk() && Holding([], [])
      modifies data`packetSize, data.buffer
      ensures PacketsOk() && Params([]) && code == SendVerdict(send.size, env)
    {
      if |env.incoming| < HEADER_SIZE {
        return RESPONSE_GENERAL_ERROR;
      }
      data.Receive(env.incoming);
      var initial := |env.incoming| - HEADER_SIZE;
      if !env.openSucceeds {
        return RESPONSE_GENERAL_ERROR;
      }
      var ending := Done;
      if initial > 0 && !env.written {
        ending := Failed;
      }
      if send.size != initial {
        ending := env.transfer;
      }
      code := match ending
              case Done => RESPONSE_OK
              case Failed => RESPONSE_GENERAL_ERROR
              case Cancelled => RESPONSE_TRANSACTION_CANCELLED;
    }

    // ---- Fetching ----

    /** Lets the kernel send a range of the opened file, as a data container of its own. */
    method TransferRange(q: Request, env: Env, offset: nat, length: nat) returns (code: uint16)
      modifies this`out
      ensures var f := SendRange(q, env, offset, length, []);
              code == f.code && out == old(out) + (if f.sent.Some? then [f.sent.value] else [])
    {
      if env.transfer.Cancelled? {
        return RESPONSE_TRANSACTION_CANCELLED;
      }
      if env.transfer.Failed? || offset + length > |env.file| {
        return RESPONSE_GENERAL_ERROR;
      }
      out := out + [Container(TYPE_DATA, q.operation, q.transaction, env.file[offset..offset + length])];
      code := RESPONSE_OK;
    }

    method DoGetThumb(q: Request, env: Env) returns (code: uint16)
      modifies this`out
      ensures code == if env.thumb.Some? then RESPONSE_OK else RESPONSE_GENERAL_ERROR
      ensures out == old(out) + if env.thumb.Some? then
              [Container(TYPE_DATA, q.operation, q.transaction, env.thumb.value)] else []
    {
      if env.thumb.None? {
        return RESPONSE_GENERAL_ERROR;
      }
      out := out + [Container(TYPE_DATA, q.operation, q.transaction, env.thumb.value)];
      code := RESPONSE_OK;
    }

    /** Sends a file, a part of one, or a thumbnail: always in a container that the kernel or
        the handler writes itself. */
    method Fetch(q: Request, env: Env) returns (code: uint16)
      requires PacketsOk() && Holding([], [])
      modifies this`out, response`packetSize, response.buffer
      ensures var f := FetchAnswer(old(ViewNow()), q, env);
              && code == f.code && out == old(out) + (if f.sent.Some? then [f.sent.value] else [])
              && PacketsOk() && Holding([], f.params)
    {
      if q.operation == GET_THUMB {
        code := DoGetThumb(q, env);
      } else if storages == [] {
        code := RESPONSE_INVALID_OBJECT_HANDLE;
      } else {
        code := Sends.Lookup(db.db, q.p1);
        if code == RESPONSE_OK {
          if !env.openSucceeds {
            code := RESPONSE_GENERAL_ERROR;
          } else if IsPartial(q.operation) {
            var length := RangeLength(q, db.db[q.p1].size);
            SetFirst(length);
            code := TransferRange(q, env, RangeOffset(q), length);
          } else {
            code := TransferRange(q, env, 0, db.db[q.p1].size);
          }
        }
      }
    }

    // ---- Deleting, moving, renaming ----

    method DoDeleteObject(ghost d: Device, q: Request) returns (code: uint16)
      requires StateOk() && pending == None && d == Now()
      modifies db`db
      ensures StateOk() && code == DeleteCode(d.v, q) && Now() == AfterDelete(d, q)
      ensures if storages != [] && Laws.Known(d.v.db, q.p1) then
                && (forall k :: k in db.db <==> k in d.v.db && k != q.p1 && d.v.db[k].parent != q.p1)
                && (forall k :: k in db.db ==> db.db[k] == d.v.db[k])
              else db.db == d.v.db
    {
      if storages == [] {
        code := RESPONSE_INVALID_OBJECT_HANDLE;
      } else {
        code := Sends.Lookup(db.db, q.p1);
        if code == RESPONSE_OK {
          code := db.DeleteFile(q.p1);
        }
      }
    }

    method DoMoveObject(ghost d: Device, q: Request) returns (code: uint16)
      requires StateOk() && pending == None && d == Now()
      modifies db`db, this`moved
      ensures StateOk() && code == MoveCode(d.v, q) && Now() == AfterMove(d, q)
    {
      if storages == [] {
        code := RESPONSE_INVALID_OBJECT_HANDLE;
      } else {
        code := Sends.Lookup(db.db, q.p1);
        if code == RESPONSE_OK {
          moved := true;
          code := db.MoveFile(q.p1, q.p3);
        }
      }
    }

    /** Renames an object. Every other property is refused, the parent only after a look at the
        table. */
    method DoSetObjectPropValue(ghost v: View, q: Request, env: Env, ghost r: Raw) returns (code: uint16)
      requires PacketsOk() && StateOk() && pending == None && data.ahead == Received(r) && v == ViewNow()
      modifies db`db, data`offset, data`fields, data`ahead
      ensures PacketsOk() && StateOk()
      ensures code == RenameCode(v, q, env)
      ensures db.db == Renamed(v, q, env, r)
    {
      if storages == [] || q.p1 == 0 || q.p1 == PARENT_ROOT {
        code := RESPONSE_INVALID_OBJECT_HANDLE;
      } else {
        var property: uint16 := q.p2 % 0x1_0000;
        if property != PROPERTY_OBJECT_FILE_NAME && property != PROPERTY_PARENT_OBJECT {
          code := RESPONSE_OPERATION_NOT_SUPPORTED;
        } else if q.p1 !in db.db {
          code := RESPONSE_GENERAL_ERROR;
        } else if property == PROPERTY_PARENT_OBJECT {
          code := RESPONSE_OPERATION_NOT_SUPPORTED;
        } else {
          code := RenameTo(q.p1, env, r);
        }
      }
    }

    /** Renames an object of the table to the string in the data. */
    method RenameTo(handle: uint32, env: Env, ghost r: Raw) returns (code: uint16)
      requires PacketsOk() && StateOk() && pending == None && data.ahead == Received(r) && Laws.Known(db.db, handle)
      modifies db`db, data`offset, data`fields, data`ahead
      ensures PacketsOk() && StateOk()
      ensures if env.renamed.None? then code == RESPONSE_DEVICE_BUSY && db.db == old(db.db)
              else
                && code == RESPONSE_OK
                && db.db == old(db.db)[handle := old(db.db)[handle].(name := Text(r), path := env.renamed.value)]
    {
      assert Received(r) + [] == Received(r);
      var name := GetString(data, r, []);
      code := db.SetFileName(handle, name, env.renamed);
    }

    // ---- Editing ----

    method DoBeginEditObject(ghost d: Device, q: Request, env: Env) returns (code: uint16)
      requires StateOk() && d == Now()
      modifies this`edits, this`work, this`books
      ensures StateOk() && code == BeginEditCode(d.v, q, env) && Now() == AfterBegin(d, q, env)
      ensures code == RESPONSE_OK ==>
        && q.p1 in db.db && work == d.work[q.p1 := Work(db.db[q.p1].size % Edits.TWO64, [])]
        && edits == d.v.edits + [Edits.Edit(q.p1, db.db[q.p1].path, db.db[q.p1].size % Edits.TWO64, db.db[q.p1].format,
                                            env.fd)]
    {
      var found := GetEditObject(edits, q.p1);
      if found.Some? {
        code := RESPONSE_GENERAL_ERROR;
      } else {
        code := Sends.Lookup(db.db, q.p1);
        if code == RESPONSE_OK {
          if !env.openSucceeds {
            code := RESPONSE_GENERAL_ERROR;
          } else {
            var entry := db.db[q.p1];
            AddEditObject(d, Edits.Edit(q.p1, entry.path, entry.size % Edits.TWO64, entry.format, env.fd));
          }
        }
      }
    }

    method AddEditObject(ghost d: Device, e: Edits.Edit)
      requires StateOk() && Edits.Find(edits, e.handle).None? && d == Now()
      modifies this`edits, this`work, this`books
      ensures StateOk() && Now() == Opened(d, e)
    {
      AddSound(books, edits, work, e);
      ghost var after := Opened(d, e);
      OpenedIs(d, e);
      edits := edits + [e];
      work, books := after.work, after.books;
      assert after.v == ViewNow();
    }

    /** Reports an edit to the table, which takes over the size on disk. */
    method CommitEdit(e: Edits.Edit, fileSize: Option<nat>)
      requires db.Valid() && (!moved && db.issued < PARENT_ROOT ==> Ordered(db.db))
      modifies db`db, this`books
      ensures db.Valid() && (!moved && db.issued < PARENT_ROOT ==> Ordered(db.db))
      ensures db.db == Committed(old(db.db), e, fileSize)
      ensures books == old(books).(committed := old(books).committed + multiset{e.handle})
    {
      db.EndSendObject(e.handle, e.format, true, fileSize);
      books := books.(committed := books.committed + multiset{e.handle});
    }

    method DoEndEditObject(ghost d: Device, q: Request, env: Env) returns (code: uint16)
      requires StateOk() && pending == None && d == Now()
      modifies db`db, this`edits, this`books
      ensures StateOk() && code == EndEditCode(d.v, q) && Now() == AfterEnd(d, q, env)
    {
      var found := GetEditObject(edits, q.p1);
      if found.None? {
        code := RESPONSE_GENERAL_ERROR;
      } else {
        var i := found.value;
        EndSound(books, edits, work, i);
        CommitAndClose(edits[i], env.fileSize);
        edits := edits[..i] + edits[i + 1..];
        assert edits == Edits.Without(d.v.edits, i);
        code := RESPONSE_OK;
      }
    }

    /** Resizes an open edit. */
    method Resize(ghost d: Device, i: nat, ghost op: Edits.EditOp, size: uint64)
      requires StateOk() && d == Now() && i < |edits| && size == Edits.Resized(edits[i].size, op)
      requires op.Write? ==> op.offset <= edits[i].size && op.initial < Edits.TWO32
      modifies this`edits, this`work
      ensures StateOk() && Now() == AfterEdit(d, i, op)
    {
      ResizeSound(books, edits, work, i, op);
      work := work[edits[i].handle := MoreWork(work[edits[i].handle], op)];
      edits := edits[i := edits[i].(size := size)];
    }

    method DoTruncateObject(ghost d: Device, q: Request, env: Env) returns (code: uint16)
      requires StateOk() && d == Now()
      modifies this`edits, this`work
      ensures StateOk() && code == TruncateCode(d.v, q, env) && Now() == AfterTruncate(d, q, env)
    {
      var found := GetEditObject(edits, q.p1);
      if found.None? || !env.truncateSucceeds {
        code := RESPONSE_GENERAL_ERROR;
      } else {
        var to := Edits.Offset64(q.p2, q.p3);
        Resize(d, found.value, Edits.Truncate(to), to);
        code := RESPONSE_OK;
      }
    }

    /** The data phase of a partial write, once the edit is found and the offset accepted. */
    method TakePartial(q: Request, env: Env) returns (code: uint16)
      requires PacketsOk() && Holding([], []) && HEADER_SIZE <= |env.incoming|
      modifies data, data.buffer, response`packetSize, response.buffer
      ensures data.buffer == old(data.buffer) || fresh(data.buffer)
      ensures PacketsOk()
      ensures match WriteEnding(q, env)
              case Done => code == RESPONSE_OK && Params([Left(q.p4, |env.incoming| - HEADER_SIZE)]) && Payload([])
              case Failed => code == RESPONSE_GENERAL_ERROR && Params([0]) && Payload(env.incoming[HEADER_SIZE..])
              case Cancelled => code == RESPONSE_TRANSACTION_CANCELLED
    {
      data.Receive(env.incoming);
      var initial := |env.incoming| - HEADER_SIZE;
      var ending := Done;
      if initial > 0 && !env.written {
        ending := Failed;
      }
      if Left(q.p4, initial) > 0 {
        ending := env.transfer;
      }
      SetFirst2(if ending == Done then Left(q.p4, initial) else 0);
      match ending {
        case Done =>
          data.Reset();
          code := RESPONSE_OK;
        case Failed =>
          assert data.Content()[HEADER_SIZE..] == env.incoming[HEADER_SIZE..];
          code := RESPONSE_GENERAL_ERROR;
        case Cancelled => code := RESPONSE_TRANSACTION_CANCELLED;
      }
    }

    method SetFirst2(value: uint32)
      requires PacketsOk() && Params([])
      modifies response`packetSize, response.buffer
      ensures PacketsOk() && Params([value])
    {
      response.SetParameter(1, value);
      assert response.Words()[..1] == [value];
    }

    /** What a partial write leaves in the packets. */
    ghost predicate PartialHolds(v: View, q: Request, env: Env, code: uint16)
      reads response, response.buffer, data, data.buffer
    {
      code != RESPONSE_TRANSACTION_CANCELLED ==> Params(PartialParams(v, q, env)) && Payload(EchoOf(v, q, env))
    }

    /** Finds the edit, checks the offset, and reads and writes the data. */
    method WritePartial(ghost v: View, q: Request, env: Env, found: Option<nat>) returns (code: uint16)
      requires PacketsOk() && Holding([], []) && found == Edits.Find(edits, q.p1) && q.operation == SEND_PARTIAL_OBJECT
      requires v == ViewNow()
      modifies data, data.buffer, response`packetSize, response.buffer
      ensures data.buffer == old(data.buffer) || fresh(data.buffer)
      ensures PacketsOk() && code == PartialVerdict(v, q, env) && PartialHolds(v, q, env, code)
    {
      assert data.buffer[HEADER_SIZE..data.packetSize] == [];
      if storages == [] {
        code := RESPONSE_INVALID_OBJECT_HANDLE;
      } else if found.None? || Edits.Offset64(q.p2, q.p3) > edits[found.value].size || |env.incoming| < HEADER_SIZE {
        code := RESPONSE_GENERAL_ERROR;
      } else {
        code := TakePartial(q, env);
      }
    }

    method DoSendPartialObject(ghost d: Device, q: Request, env: Env) returns (code: uint16)
      requires PacketsOk() && Holding([], []) && StateOk() && d == Now() && q.operation == SEND_PARTIAL_OBJECT
      modifies this`edits, this`work, data, data.buffer, response`packetSize, response.buffer
      ensures data.buffer == old(data.buffer) || fresh(data.buffer)
      ensures PacketsOk() && StateOk()
      ensures code == PartialVerdict(d.v, q, env) && PartialHolds(d.v, q, env, code) && Now() == AfterPartial(d, q, env)
    {
      var found := GetEditObject(edits, q.p1);
      code := WritePartial(d.v, q, env, found);
      RecordPartial(d, q, env, found, code);
    }

    /** Extends the size of the edit to the end of a write that succeeded. */
    method RecordPartial(ghost d: Device, q: Request, env: Env, found: Option<nat>, code: uint16)
      requires StateOk() && d == Now() && found == Edits.Find(edits, q.p1) && code == PartialVerdict(d.v, q, env)
      modifies this`edits, this`work
      ensures StateOk() && Now() == AfterPartial(d, q, env)
    {
      if code == RESPONSE_OK {
        var end := Edits.WriteEnd(Edits.Offset64(q.p2, q.p3), q.p4, |env.incoming| - HEADER_SIZE);
        var size := edits[found.value].size;
        Resize(d, found.value, WriteOp(q, env), if end > size then end else size);
      }
    }

    // ---- Handling ----

    /** The bytes behind the header in the data packet. */
    ghost predicate Payload(payload: seq<uint8>)
      reads data, data.buffer
    {
      HEADER_SIZE <= data.packetSize <= data.buffer.Length && data.buffer[HEADER_SIZE..data.packetSize] == payload
    }

    /** Beginning, truncating and ending an edit. */
    method HandleEditing(ghost d: Device, q: Request, env: Env) returns (code: uint16)
      requires d == Now() && StateOk() && pending == None && IsEditing(q.operation)
      modifies this`edits, this`work, this`books, db`db
      ensures StateOk() && code == StateCode(d.v, q, env) && Now() == AfterOther(d, q, env)
    {
      EditingSpec(d.v, q, env);
      EditingMoves(d, q, env);
      if q.operation == TRUNCATE_OBJECT {
        code := DoTruncateObject(d, q, env);
      } else if q.operation == BEGIN_EDIT_OBJECT {
        code := DoBeginEditObject(d, q, env);
      } else {
        code := DoEndEditObject(d, q, env);
      }
    }

    /** Requests that touch neither the data packet nor the response's parameters. */
    method HandleState(ghost d: Device, q: Request, env: Env) returns (code: uint16)
      requires d == Now() && StateOk() && pending == None && !IsMixed(q.operation)
      requires q.operation != SEND_OBJECT && q.operation != SEND_OBJECT_INFO
      modifies this`sessionOpen, this`sessionID, this`edits, this`work, this`books, this`moved, db`localServer, db`db
      ensures StateOk() && code == StateCode(d.v, q, env) && Now() == AfterOther(d, q, env)
    {
      PlainMoves(d, q, env);
      if IsEditing(q.operation) {
        code := HandleEditing(d, q, env);
      } else if q.operation == CLOSE_SESSION {
        code := DoCloseSession(d);
      } else if q.operation == DELETE_OBJECT {
        code := DoDeleteObject(d, q);
      } else if q.operation == MOVE_OBJECT {
        code := DoMoveObject(d, q);
      } else {
        code := Decline(d.v, q, env);
      }
    }

    /** Operations that are not supported, or pretended. */
    method Decline(ghost v: View, q: Request, env: Env) returns (code: uint16)
      requires v == ViewNow() && !IsMixed(q.operation) && !Changes(q.operation)
      ensures code == StateCode(v, q, env)
    {
      if q.operation == SET_OBJECT_REFERENCES {
        code := if !sessionOpen then RESPONSE_SESSION_NOT_OPEN
                else if storages == [] then RESPONSE_INVALID_OBJECT_HANDLE
                else RESPONSE_OK;
      } else if q.operation == SET_DEVICE_PROP_VALUE {
        code := RESPONSE_DEVICE_PROP_NOT_SUPPORTED;
      } else {
        code := RESPONSE_OPERATION_NOT_SUPPORTED;
      }
    }

    method HandleInfo(ghost d: Device, q: Request, env: Env) returns (code: uint16, ghost params: seq<uint32>)
      requires PacketsOk() && StateOk() && d == Now() && Loaded(q, env) && Params([])
      requires q.operation == SEND_OBJECT_INFO && pending == None
      modifies this`send, this`pending, db`db, db`counter, db`issued
      modifies data`offset, data`fields, data`ahead, response`packetSize, response.buffer
      ensures PacketsOk() && StateOk() && Params(params)
      ensures Moves(d, q, env, OutcomeOf(code), Now()) && Answers(d.v, q, env, code, params)
    {
      ghost var g, r := LookAhead(data.buffer[HEADER_SIZE..]);
      data.Expect(IncomingFields(g));
      ghost var b := data.buffer[..];
      assert env.incoming <= b;
      code := DoSendObjectInfo(d, q, env, g);
      params := if code == RESPONSE_OK then InfoParams(d.v, q) else [];
      InfoLaw(d, q, env, code, params, Now(), g, b);
    }

    method HandleObject(ghost d: Device, q: Request, env: Env) returns (code: uint16)
      requires PacketsOk() && StateOk() && d == Now() && Holding([], []) && q.operation == SEND_OBJECT
      modifies this`send, this`pending, db`db, data, data.buffer
      ensures data.buffer == old(data.buffer) || fresh(data.buffer)
      ensures PacketsOk() && StateOk() && Params([]) && Payload([])
      ensures Moves(d, q, env, OutcomeOf(code), Now()) && Answers(d.v, q, env, code, [])
    {
      code := DoSendObject(d, q, env);
      SendMoves(d, q, env, code);
      assert ReplyRule(Said(d.v, q, env, code, []));
    }

    method HandleRename(ghost d: Device, q: Request, env: Env) returns (code: uint16)
      requires PacketsOk() && StateOk() && d == Now() && Loaded(q, env) && pending == None
      requires q.operation == SET_OBJECT_PROP_VALUE
      modifies db`db, data`offset, data`fields, data`ahead
      ensures PacketsOk() && StateOk() && code == RenameCode(d.v, q, env)
      ensures Moves(d, q, env, OutcomeOf(code), Now())
    {
      ghost var b := data.buffer[..];
      ghost var g, r := LookAhead(data.buffer[HEADER_SIZE..]);
      data.Expect(Received(r));
      code := DoSetObjectPropValue(d.v, q, env, r);
      RenamesTo(d, q, env, r, b);
      RenameMoves(d, q, env, OutcomeOf(code), Now());
    }

    /** The two halves of a send. */
    method HandleSend(ghost d: Device, q: Request, env: Env) returns (code: uint16, ghost params: seq<uint32>)
      requires PacketsOk() && StateOk() && d == Now() && Loaded(q, env) && Params([])
      requires q.operation == SEND_OBJECT || (q.operation == SEND_OBJECT_INFO && pending == None)
      modifies this`send, this`pending, db`db, db`counter, db`issued, data, data.buffer
      modifies response`packetSize, response.buffer
      ensures data.buffer == old(data.buffer) || fresh(data.buffer)
      ensures PacketsOk() && StateOk()
      ensures Params(params) && (q.operation == SEND_OBJECT ==> Payload([]))
      ensures Moves(d, q, env, OutcomeOf(code), Now()) && Answers(d.v, q, env, code, params)
    {
      params := [];
      if q.operation == SEND_OBJECT_INFO {
        code, params := HandleInfo(d, q, env);
      } else {
        code := HandleObject(d, q, env);
      }
    }

    /** The other requests that read data or answer with parameters, and change the state. */
    method HandleMixed(ghost d: Device, q: Request, env: Env)
      returns (code: uint16, ghost params: seq<uint32>, ghost payload: seq<uint8>)
      requires PacketsOk() && StateOk() && d == Now() && IsMixed(q.operation) && Loaded(q, env) && Params([])
      requires pending == None
      modifies this`sessionOpen, this`sessionID, this`edits, this`work
      modifies db`db, db`localServer, data, data.buffer, response`packetSize, response.buffer
      ensures data.buffer == old(data.buffer) || fresh(data.buffer)
      ensures PacketsOk() && StateOk() && |params| <= 5 && Answers(d.v, q, env, code, params)
      ensures Moves(d, q, env, OutcomeOf(code), Now())
      ensures code != RESPONSE_TRANSACTION_CANCELLED ==> Params(params) && (!DataIn(q.operation) ==> Payload(payload))
      ensures payload == EchoOf(d.v, q, env)
    {
      params, payload := [], [];
      assert !DataIn(q.operation) ==> Payload([]);
      if q.operation == OPEN_SESSION {
        code, params := HandleSession(d, q, env);
      } else if q.operation == SEND_PARTIAL_OBJECT {
        params, payload := PartialParams(d.v, q, env), EchoOf(d.v, q, env);
        code := HandlePartial(d, q, env);
      } else {
        code := HandleRename(d, q, env);
        assert ReplyRule(Said(d.v, q, env, code, []));
      }
    }

    method HandlePartial(ghost d: Device, q: Request, env: Env) returns (code: uint16)
      requires PacketsOk() && Holding([], []) && StateOk() && d == Now() && q.operation == SEND_PARTIAL_OBJECT
      modifies this`edits, this`work, data, data.buffer, response`packetSize, response.buffer
      ensures data.buffer == old(data.buffer) || fresh(data.buffer)
      ensures PacketsOk() && StateOk() && |PartialParams(d.v, q, env)| <= 5
      ensures Answers(d.v, q, env, code, PartialParams(d.v, q, env)) && PartialHolds(d.v, q, env, code)
      ensures Moves(d, q, env, OutcomeOf(code), Now())
    {
      code := DoSendPartialObject(d, q, env);
      assert ReplyRule(Said(d.v, q, env, code, PartialParams(d.v, q, env)));
      OtherMoves(d, q, env, OutcomeOf(code), Now());
    }

    method HandleSession(ghost d: Device, q: Request, env: Env) returns (code: uint16, ghost params: seq<uint32>)
      requires PacketsOk() && StateOk() && d == Now() && Holding([], []) && q.operation == OPEN_SESSION
      modifies this`sessionOpen, this`sessionID, db`localServer, response`packetSize, response.buffer
      ensures PacketsOk() && StateOk() && |params| <= 5 && Answers(d.v, q, env, code, params) && Params(params)
      ensures Moves(d, q, env, OutcomeOf(code), Now())
    {
      code := DoOpenSession(d, q);
      params := if d.v.sessionOpen then [d.v.sessionID] else [];
      assert ReplyRule(Said(d.v, q, env, code, params));
      OtherMoves(d, q, env, OutcomeOf(code), Now());
    }

    method HandleOther(ghost d: Device, q: Request, env: Env)
      returns (code: uint16, ghost params: seq<uint32>, ghost payload: seq<uint8>)
      requires PacketsOk() && StateOk() && d == Now() && Loaded(q, env) && Params([])
      requires q.operation != SEND_OBJECT_INFO && q.operation != SEND_OBJECT && pending == None
      modifies this`sessionOpen, this`sessionID, this`edits, this`work, this`books, this`moved
      modifies db, data, data.buffer, response`packetSize, response.buffer
      ensures data.buffer == old(data.buffer) || fresh(data.buffer)
      ensures PacketsOk() && StateOk() && |params| <= 5 && Answers(d.v, q, env, code, params)
      ensures code != RESPONSE_TRANSACTION_CANCELLED ==> Params(params) && (!DataIn(q.operation) ==> Payload(payload))
      ensures payload == EchoOf(d.v, q, env)
      ensures Moves(d, q, env, OutcomeOf(code), Now())
    {
      if IsMixed(q.operation) {
        code, params, payload := HandleMixed(d, q, env);
      } else {
        code := HandlePlain(d, q, env);
        params, payload := [], [];
      }
    }

    /** Requests whose response has neither data nor parameters. */
    method HandlePlain(ghost d: Device, q: Request, env: Env) returns (code: uint16)
      requires PacketsOk() && StateOk() && d == Now() && Loaded(q, env) && Params([]) && !IsMixed(q.operation)
      requires q.operation != SEND_OBJECT_INFO && q.operation != SEND_OBJECT && pending == None
      modifies this`sessionOpen, this`sessionID, this`edits, this`work, this`books, this`moved, db`localServer, db`db
      ensures PacketsOk() && StateOk() && Answers(d.v, q, env, code, [])
      ensures Moves(d, q, env, OutcomeOf(code), Now())
      ensures Params([]) && (!DataIn(q.operation) ==> Payload([])) && EchoOf(d.v, q, env) == []
    {
      assert !DataIn(q.operation) ==> Payload([]);
      code := HandleState(d, q, env);
      assert ReplyRule(Said(d.v, q, env, code, []));
      OtherMoves(d, q, env, OutcomeOf(code), Now());
    }

    /** Requests that may change the state. */
    method HandleChange(ghost d: Device, q: Request, env: Env)
      returns (code: uint16, ghost params: seq<uint32>, ghost payload: seq<uint8>)
      requires PacketsOk() && StateOk() && d == Now() && Loaded(q, env) && Params([])
      requires q.operation != SEND_OBJECT ==> pending == None
      modifies this`sessionOpen, this`sessionID, this`send, this`pending, this`edits, this`work, this`books, this`moved
      modifies db, data, data.buffer, response`packetSize, response.buffer
      ensures data.buffer == old(data.buffer) || fresh(data.buffer)
      ensures PacketsOk() && StateOk() && |params| <= 5 && Answers(d.v, q, env, code, params)
      ensures code != RESPONSE_TRANSACTION_CANCELLED ==> Params(params) && (!DataIn(q.operation) ==> Payload(payload))
      ensures payload == EchoOf(d.v, q, env)
      ensures Moves(d, q, env, OutcomeOf(code), Now())
    {
      params, payload := [], [];
      assert !DataIn(q.operation) ==> Payload([]);
      if q.operation == SEND_OBJECT_INFO || q.operation == SEND_OBJECT {
        code, params := HandleSend(d, q, env);
      } else {
        code, params, payload := HandleOther(d, q, env);
      }
    }

    /** Requests that leave the state alone. */
    method HandleQuery(ghost v: View, q: Request, env: Env) returns (outcome: Outcome, ghost e: Entry)
      requires PacketsOk() && Holding([], []) && v == ViewNow() && !Throws(v, q)
      requires IsQuery(q.operation) || Fetches(q.operation)
      modifies this`out, data, data.buffer, response`packetSize, response.buffer
      ensures data.buffer == old(data.buffer) || fresh(data.buffer)
      ensures PacketsOk() && Params(e.params) && Payload(e.payload)
      ensures e.v == v && e.q == q && e.env == env && e.outcome == outcome && Protocol(e)
      ensures out == old(out) + Directly(e)
    {
      var code;
      if IsQuery(q.operation) {
        code := Ask(q, env);
        ghost var a := QueryAnswer(v, q, env);
        e := Entry(v, q, env, OutcomeOf(code), a.params, Encode(a.fields), None);
        QueryProtocol(v, q, env, a);
      } else {
        code := Fetch(q, env);
        ghost var f := FetchAnswer(v, q, env);
        e := Entry(v, q, env, OutcomeOf(code), f.params, [], f.sent);
        FetchProtocol(v, q, env);
      }
      outcome := OutcomeOf(code);
    }

    /** A query, seen as a turn of the state machine: nothing changes. */
    method TurnQuery(ghost d: Device, q: Request, env: Env) returns (outcome: Outcome, ghost e: Entry)
      requires Ready() && Loaded(q, env) && Params([]) && d == Now() && !Throws(d.v, q)
      requires (IsQuery(q.operation) || Fetches(q.operation)) && pending == None
      modifies this`out, data, data.buffer, response`packetSize, response.buffer
      ensures data.buffer == old(data.buffer) || fresh(data.buffer)
      ensures Ready()
      ensures e.v == d.v && e.q == q && e.env == env && e.outcome == outcome && Protocol(e)
      ensures outcome.Respond? ==> Params(e.params) && (!DataIn(q.operation) ==> Payload(e.payload))
      ensures out == old(out) + Directly(e)
      ensures Moves(d, q, env, outcome, Now())
    {
      assert Working(this);
      ReadsOnly(q.operation);
      outcome, e := HandleQuery(d.v, q, env);
      OthersChangeNothing(d, q, env);
      OtherMoves(d, q, env, outcome, Now());
      assert Working(this);
    }

    method TurnChange(ghost d: Device, q: Request, env: Env) returns (outcome: Outcome, ghost e: Entry)
      requires Ready() && Loaded(q, env) && Params([]) && d == Now()
      requires !IsQuery(q.operation) && !Fetches(q.operation)
      requires q.operation != SEND_OBJECT ==> pending == None
      modifies this`sessionOpen, this`sessionID, this`send, this`pending, this`edits, this`work, this`books, this`moved
      modifies db, data, data.buffer, response`packetSize, response.buffer
      ensures data.buffer == old(data.buffer) || fresh(data.buffer)
      ensures Ready()
      ensures e.v == d.v && e.q == q && e.env == env && e.outcome == outcome && Protocol(e)
      ensures outcome.Respond? ==> Params(e.params) && (!DataIn(q.operation) ==> Payload(e.payload))
      ensures out == old(out) + Directly(e)
      ensures Moves(d, q, env, outcome, Now())
    {
      assert Working(this);
      var code;
      ghost var params, payload;
      code, params, payload := HandleChange(d, q, env);
      outcome := OutcomeOf(code);
      e := Entry(d.v, q, env, outcome, params, payload, None);
      ChangeProtocol(d.v, q, env, code, params);
      assert Working(this);
    }

    /** Handles a request once the response is reset. */
    method Handle(ghost d: Device, q: Request, env: Env) returns (outcome: Outcome, ghost e: Entry)
      requires Ready() && Loaded(q, env) && Params([]) && d == Now() && !Throws(d.v, q)
      requires q.operation != SEND_OBJECT ==> pending == None
      modifies this`sessionOpen, this`sessionID, this`send, this`pending
      modifies this`edits, this`work, this`books, this`moved, this`out
      modifies db, data, data.buffer, response`packetSize, response.buffer
      ensures data.buffer == old(data.buffer) || fresh(data.buffer)
      ensures Ready()
      ensures e.v == d.v && e.q == q && e.env == env && e.outcome == outcome && Protocol(e)
      ensures outcome.Respond? ==> Params(e.params) && (!DataIn(q.operation) ==> Payload(e.payload))
      ensures out == old(out) + Directly(e)
      ensures Moves(d, q, env, outcome, Now())
    {
      if IsQuery(q.operation) || Fetches(q.operation) {
        outcome, e := TurnQuery(d, q, env);
      } else {
        outcome, e := TurnChange(d, q, env);
      }
    }

    /** Handles one request. Anything but SendObject gives up an announcement first, and leaves
        its entry behind. */
    method HandleRequest(ghost d0: Device, q: Request, env: Env) returns (outcome: Outcome, ghost e: Entry)
      requires Ready() && Loaded(q, env) && d0 == Now()
      modifies this`sessionOpen, this`sessionID, this`send, this`pending
      modifies this`edits, this`work, this`books, this`moved, this`out
      modifies db, data, data.buffer, response, response.buffer
      ensures response.buffer == old(response.buffer) && (data.buffer == old(data.buffer) || fresh(data.buffer))
      ensures Ready()
      ensures e.v == d0.v && e.q == q && e.env == env && e.outcome == outcome && Protocol(e)
      ensures outcome.Respond? ==> Params(e.params) && (!DataIn(q.operation) ==> Payload(e.payload))
      ensures out == old(out) + Directly(e)
      ensures Moves(GivenUp(d0, q), q, env, outcome, Now())
    {
      Begin(d0, q, env);
      if Throws(ViewNow(), q) {
        outcome := Threw;
        e := Entry(d0.v, q, env, Threw, [], [], None);
        assert Lawful(e);
        OthersChangeNothing(GivenUp(d0, q), q, env);
        OtherMoves(GivenUp(d0, q), q, env, Threw, Now());
      } else {
        outcome, e := Handle(GivenUp(d0, q), q, env);
      }
    }

    method Begin(ghost d0: Device, q: Request, env: Env)
      requires Ready() && Loaded(q, env) && d0 == Now()
      modifies this`send, this`pending, response, response.buffer
      ensures Ready() && Params([]) && Loaded(q, env) && response != data && response.buffer == old(response.buffer)
      ensures Now() == GivenUp(d0, q) && (q.operation != SEND_OBJECT ==> pending == None)
    {
      assert Working(this);
      response.Reset();
      if q.operation != SEND_OBJECT {
        GiveUp(d0, q);
      }
      assert Working(this);
    }

    /** Forgets an announcement that was not followed by its SendObject. */
    method GiveUp(ghost d0: Device, q: Request)
      requires StateOk() && d0 == Now() && q.operation != SEND_OBJECT
      modifies this`send, this`pending
      ensures StateOk() && pending == None && Now() == GivenUp(d0, q)
    {
      if send.handle != INVALID_HANDLE {
        send := send.(handle := INVALID_HANDLE);
      }
      pending := None;
    }

    // ---- The loop ----

    /** Reads the data phase of a request that brings data; empties the packet for others. */
    method ReadData(q: Request, env: Env) returns (ok: bool)
      requires PacketsOk()
      modifies data, data.buffer
      ensures PacketsOk() && data.buffer == old(data.buffer)
      ensures ok == (!DataIn(q.operation) || HEADER_SIZE <= |env.incoming|)
      ensures ok ==> Loaded(q, env)
    {
      ok := true;
      if DataIn(q.operation) {
        if |env.incoming| < HEADER_SIZE {
          ok := false;
        } else {
          data.Read(env.incoming);
        }
      } else {
        data.Reset();
      }
    }

    /** Sends what is left to send, and the response. */
    method Reply(q: Request, env: Env, outcome: Outcome, ghost e: Entry) returns (flow: Flow)
      requires Ready() && e.q == q && e.env == env && e.outcome == outcome
      requires outcome.Respond? ==> Params(e.params) && (!DataIn(q.operation) ==> Payload(e.payload))
      modifies this`out, data.buffer, response.buffer
      ensures Ready() && Now() == old(Now()) && out == old(out) + Replies(e) && flow == FlowOf(e)
    {
      match outcome {
        case Threw => return Escape;
        case Skip => return Continue;
        case Respond(code) =>
          assert Working(this);
          flow := Finish(q, env, code, e);
          assert Working(this);
      }
    }

    /** The data that is left to send, if any, and then the response. */
    method Finish(q: Request, env: Env, code: uint16, ghost e: Entry) returns (flow: Flow)
      requires PacketsOk() && e.q == q && e.env == env && e.outcome == Respond(code)
      requires Params(e.params) && (!DataIn(q.operation) ==> Payload(e.payload))
      modifies this`out, data.buffer, response.buffer
      ensures PacketsOk() && out == old(out) + Replies(e) && flow == FlowOf(e)
    {
      assert OwnData(e).Some? <==> !DataIn(q.operation) && data.packetSize > HEADER_SIZE;
      if !DataIn(q.operation) && data.packetSize > HEADER_SIZE {
        var c := SendData(q, e);
        if env.dataEnding != Done {
          return After(env.dataEnding);
        }
        out := out + [c];
      }
      flow := Conclude(q, env, code, e);
      assert flow == FlowOf(e);
    }

    /** The response. */
    method Conclude(q: Request, env: Env, code: uint16, ghost e: Entry) returns (flow: Flow)
      requires PacketsOk() && e.q == q && e.outcome == Respond(code) && Params(e.params)
      modifies this`out, response.buffer
      ensures PacketsOk() && flow == After(env.responseEnding)
      ensures out == old(out) + if env.responseEnding.Done? then [Response(e)] else []
    {
      var c := SendResponse(q, code, e.params);
      if env.responseEnding != Done {
        return After(env.responseEnding);
      }
      out := out + [c];
      flow := Continue;
    }

    method SendData(q: Request, ghost e: Entry) returns (c: seq<uint8>)
      requires PacketsOk() && Params(e.params) && Payload(e.payload) && data.packetSize > HEADER_SIZE
      requires e.q == q && e.outcome.Respond? && !DataIn(q.operation)
      modifies data.buffer
      ensures PacketsOk() && Params(e.params) && OwnData(e) == Some(c)
    {
      c := data.Transmit(TYPE_DATA, q.operation, q.transaction);
    }

    method SendResponse(q: Request, code: uint16, ghost params: seq<uint32>) returns (c: seq<uint8>)
      requires PacketsOk() && Params(params)
      modifies response.buffer
      ensures PacketsOk() && c == Container(TYPE_RESPONSE, code, q.transaction, Encode(U32s(params)))
    {
      WordsPayload(response.buffer[..], response.Words(), |params|);
      c := response.Transmit(TYPE_RESPONSE, code, q.transaction);
    }

    /** One turn of the loop, for a command that was read. */
    method Transact(bytes: CommandBytes, env: Env) returns (flow: Flow, ghost step: Option<Step>)
      requires Ready()
      modifies this`sessionOpen, this`sessionID, this`send, this`pending
      modifies this`edits, this`work, this`books, this`moved, this`out
      modifies db, request`packetSize, request.buffer, data, data.buffer, response, response.buffer
      ensures response.buffer == old(response.buffer) && (data.buffer == old(data.buffer) || fresh(data.buffer))
      ensures Ready()
      ensures request.buffer == old(request.buffer) && PARAMETERS_END <= request.buffer.Length
      ensures bytes <= request.buffer[..]
      ensures match step
              case None =>
                && DataIn(RequestIn(request.buffer[..]).operation) && |env.incoming| < HEADER_SIZE
                && flow == After(if env.readEnding.Cancelled? then Cancelled else Failed)
                && out == old(out) && Now() == old(Now())
              case Some(s) =>
                && s.d0 == old(Now()) && s.d1 == Now() && StepOk(s)
                && s.e.q == RequestIn(request.buffer[..]) && s.e.env == env
                && out == old(out) + Written(s.e) && flow == FlowOf(s.e)
    {
      ghost var d0 := Now();
      var q, ok := Arrive(bytes, env);
      if !ok {
        return After(if env.readEnding.Cancelled? then Cancelled else Failed), None;
      }
      flow, step := Serve(d0, q, env);
    }

    /** Takes the command in, and its data phase. */
    method Arrive(bytes: CommandBytes, env: Env) returns (q: Request, ok: bool)
      requires Ready()
      modifies request`packetSize, request.buffer, data, data.buffer
      ensures Ready() && Now() == old(Now())
      ensures request.buffer == old(request.buffer) && data.buffer == old(data.buffer)
      ensures request != data && request != response && request.buffer != data.buffer
      ensures request.buffer != response.buffer
      ensures PARAMETERS_END <= request.buffer.Length && bytes <= request.buffer[..]
      ensures q == RequestIn(request.buffer[..])
      ensures ok == (!DataIn(q.operation) || HEADER_SIZE <= |env.incoming|)
      ensures ok ==> Loaded(q, env)
    {
      assert Working(this);
      request.Receive(bytes);
      q := RequestIn(request.buffer[..]);
      ok := ReadData(q, env);
      assert Working(this);
    }

    /** Handles a request whose data is there, and replies. */
    method Serve(ghost d0: Device, q: Request, env: Env) returns (flow: Flow, ghost step: Option<Step>)
      requires Ready() && Loaded(q, env) && d0 == Now()
      modifies this`sessionOpen, this`sessionID, this`send, this`pending
      modifies this`edits, this`work, this`books, this`moved, this`out
      modifies db, data, data.buffer, response, response.buffer
      ensures response.buffer == old(response.buffer) && (data.buffer == old(data.buffer) || fresh(data.buffer))
      ensures Ready()
      ensures step.Some? && step.value.d0 == d0 && step.value.d1 == Now() && StepOk(step.value)
      ensures step.value.e.q == q && step.value.e.env == env
      ensures out == old(out) + Written(step.value.e) && flow == FlowOf(step.value.e)
    {
      ghost var before := out;
      var outcome;
      ghost var e;
      outcome, e := HandleRequest(d0, q, env);
      flow := Reply(q, env, outcome, e);
      Assoc(before, Directly(e), Replies(e));
      step := Some(Step(e, d0, Now()));
    }

    /** One turn of the loop, with what it writes. */
    method Answer(bytes: CommandBytes, env: Env)
      returns (written: seq<seq<uint8>>, flow: Flow, ghost step: Option<Step>)
      requires Ready()
      modifies this, db, request`packetSize, request.buffer, data, data.buffer, response, response.buffer
      ensures Ready()
      ensures response.buffer == old(response.buffer) && (data.buffer == old(data.buffer) || fresh(data.buffer))
      ensures request.buffer == old(request.buffer) && PARAMETERS_END <= request.buffer.Length
      ensures bytes <= request.buffer[..]
      ensures out == old(out) + written && written == WrittenBy(step)
      ensures match step
              case None =>
                && DataIn(RequestIn(request.buffer[..]).operation) && |env.incoming| < HEADER_SIZE
                && flow == After(if env.readEnding.Cancelled? then Cancelled else Failed) && Now() == old(Now())
              case Some(s) =>
                && s.d0 == old(Now()) && s.d1 == Now() && StepOk(s)
                && s.e.q == RequestIn(request.buffer[..]) && s.e.env == env && flow == FlowOf(s.e)
    {
      var before := |out|;
      flow, step := Transact(bytes, env);
      written := out[before..];
    }

    method AddStorage(s: Storage)
      requires Ready()
      modifies this`storages
      ensures Ready() && storages == old(storages) + [s]
    {
      assert Working(this);
      storages := storages + [s];
      assert Working(this);
    }

    /** Removes the first storage that is `s`. */
    method RemoveStorage(s: Storage)
      requires Ready()
      modifies this`storages
      ensures Ready() && storages == WithoutFirst(old(storages), s)
    {
      assert Working(this);
      storages := Erased(storages, s);
      assert Working(this);
    }

    static method Erased(storages: seq<Storage>, s: Storage) returns (rest: seq<Storage>)
      ensures rest == WithoutFirst(storages, s)
    {
      for i := 0 to |storages|
        invariant WithoutFirst(storages, s) == storages[..i] + WithoutFirst(storages[i..], s)
      {
        assert storages[i..][0] == storages[i] && storages[i..][1..] == storages[i + 1..];
        if storages[i] == s {
          return storages[..i] + storages[i + 1..];
        }
        assert storages[..i] + [storages[i]] == storages[..i + 1];
        Assoc(storages[..i], [storages[i]], WithoutFirst(storages[i + 1..], s));
      }
      rest := storages;
    }

    method CommitAndClose(e: Edits.Edit, fileSize: Option<nat>)
      requires db.Valid() && (!moved && db.issued < PARENT_ROOT ==> Ordered(db.db))
      modifies db`db, this`books
      ensures db.Valid() && (!moved && db.issued < PARENT_ROOT ==> Ordered(db.db))
      ensures books == Edits.CommitOne(old(books), e) && db.db == Committed(old(db.db), e, fileSize)
    {
      CommitEdit(e, fileSize);
      books := books.(closedFiles := books.closedFiles + multiset{e.fd});
    }

    /** Commits and closes every edit that is still open. */
    method CommitOpenEdits(sizes: uint32 -> Option<nat>)
      requires StateOk()
      modifies this`edits, this`books, db`db
      ensures edits == [] && db.Valid()
      ensures db.db == CommittedAll(old(db.db), old(edits), sizes) && books == Edits.CommitAll(old(books), old(edits))
    {
      ghost var start, table := books, db.db;
      CloseNone(books, db.db, edits, sizes);
      for i := 0 to |edits|
        invariant edits == old(edits) && db.Valid() && (!moved && db.issued < PARENT_ROOT ==> Ordered(db.db))
        invariant ClosedSoFar(Closing(start, table, edits[..i], books, db.db), sizes)
      {
        CloseNext(Closing(start, table, edits[..i], books, db.db), edits, sizes, i);
        CommitAndClose(edits[i], sizes(edits[i].handle));
      }
      ClosedAll(Closing(start, table, edits[..|edits|], books, db.db), edits, sizes);
      edits := [];
    }

    /** One command, entered into the log. */
    method TakeCommand(bytes: CommandBytes, env: Env) returns (flow: Flow, ghost t: Taken)
      requires Ready()
      modifies this, db, request`packetSize, request.buffer, data, data.buffer, response, response.buffer
      ensures Ready() && TakenOk(t) && t.input == CommandRead(bytes, env) && t.flow == flow
      ensures t.d0 == old(Now()) && t.d1 == Now() && out == old(out) + WrittenBy(t.step)
      ensures data.buffer == old(data.buffer) || fresh(data.buffer)
      ensures request.buffer == old(request.buffer) && response.buffer == old(response.buffer)
    {
      HealthyNow();
      ghost var d0 := Now();
      var written;
      ghost var step;
      written, flow, step := Answer(bytes, env);
      HealthyNow();
      CommandTaken(bytes, env, d0, Now(), step, flow, request.buffer[..]);
      t := Taken(CommandRead(bytes, env), d0, Now(), step, flow);
    }

    /** One input of the loop. */
    method TakeInput(input: Input) returns (flow: Flow, ghost t: Taken)
      requires Ready()
      modifies this, db, request`packetSize, request.buffer, data, data.buffer, response, response.buffer
      ensures Ready() && TakenOk(t) && t.input == input && t.flow == flow
      ensures t.d0 == old(Now()) && t.d1 == Now() && out == old(out) + WrittenBy(t.step)
      ensures data.buffer == old(data.buffer) || fresh(data.buffer)
      ensures request.buffer == old(request.buffer) && response.buffer == old(response.buffer)
    {
      HealthyNow();
      ghost var d0 := Now();
      match input
      case StorageAdded(s) =>
        AddStorage(s);
        flow := Continue;
        HealthyNow();
        t := Taken(input, d0, Now(), None, flow);
        assert TakenRule(t);
      case StorageRemoved(s) =>
        RemoveStorage(s);
        flow := Continue;
        HealthyNow();
        t := Taken(input, d0, Now(), None, flow);
        assert TakenRule(t);
      case LinkError(cancelled) =>
        flow := if cancelled then Continue else Stop;
        t := Taken(input, d0, Now(), None, flow);
        assert TakenRule(t);
      case CommandRead(bytes, env) =>
        flow, t := TakeCommand(bytes, env);
    }

    /** Runs over everything the link and the owner of the device bring. The loop ends with the
        inputs or when the link breaks, and then closes every open edit; only an exception
        leaves them open. The log says what was done for each input: it leads from the device as it
        was to the device as it is, what was written is what its steps wrote, and every edit that
        its requests began is committed once in the end, and its file closed once. */
    method Run(inputs: seq<Input>, sizes: uint32 -> Option<nat>) returns (threw: bool, ghost log: seq<Taken>)
      requires Ready()
      modifies this, db, request`packetSize, request.buffer, data, data.buffer, response, response.buffer
      ensures Logged(log, inputs, old(Now())) && (|log| < |inputs| ==> FlowAfter(log) != Continue)
      ensures out == old(out) + AllWritten(log) && threw == FlowAfter(log).Escape?
      ensures Now() == if threw then End(log, old(Now())) else ShutDown(End(log, old(Now())), sizes)
      ensures db.Valid() && (!threw && sessionOpen ==> !db.localServer)
      ensures !threw ==> edits == [] && Edits.Settled(books)
      ensures !threw ==>
        && books.begun == old(books).begun + LedgerOf(log).begun
        && books.openFiles == old(books).openFiles + LedgerOf(log).openFiles
    {
      log := [];
      ghost var start, out0 := Now(), out;
      var flow, i := Continue, 0;
      HealthyNow();
      NothingYet(inputs, start, out);
      while i < |inputs| && flow.Continue?
        invariant Ready() && |log| == i && OnTrack(Progress(inputs, start, log, flow, Now(), out0, out))
        invariant data.buffer == old(data.buffer) || fresh(data.buffer)
        invariant request.buffer == old(request.buffer) && response.buffer == old(response.buffer)
        decreases |inputs| - i
      {
        flow, log := TakeNext(inputs[i], Progress(inputs, start, log, flow, Now(), out0, out));
        i := i + 1;
      }
      InTheEnd(Progress(inputs, start, log, flow, Now(), out0, out));
      threw := flow.Escape?;
      if !threw {
        SettledInTheEnd(log, inputs, start, sizes);
        Shutdown(sizes);
      } else {
        assert Working(this);
      }
    }

    /** The next input, entered into the log. */
    method TakeNext(input: Input, ghost g: Progress) returns (flow: Flow, ghost log: seq<Taken>)
      requires Ready() && OnTrack(g) && g.flow.Continue? && |g.log| < |g.inputs| && input == g.inputs[|g.log|]
      requires Now() == g.now && out == g.out
      modifies this, db, request`packetSize, request.buffer, data, data.buffer, response, response.buffer
      ensures Ready() && |log| == |g.log| + 1
      ensures OnTrack(Progress(g.inputs, g.start, log, flow, Now(), g.out0, out))
      ensures data.buffer == old(data.buffer) || fresh(data.buffer)
      ensures request.buffer == old(request.buffer) && response.buffer == old(response.buffer)
    {
      ghost var t;
      flow, t := TakeInput(input);
      log := g.log + [t];
      KeepsGoing(g, t);
    }

    /** What the loop does on its way out. */
    method Shutdown(sizes: uint32 -> Option<nat>)
      requires Ready()
      modifies this`edits, this`books, db
      ensures db.Valid() && Now() == ShutDown(old(Now()), sizes) && (sessionOpen ==> !db.localServer)
    {
      assert Working(this);
      CommitOpenEdits(sizes);
      if sessionOpen {
        db.SetSession(false);
      }
    }
  }

  predicate IsEditing(operation: uint16) {
    operation == TRUNCATE_OBJECT || operation == BEGIN_EDIT_OBJECT || operation == END_EDIT_OBJECT
  }

  predicate IsMixed(operation: uint16) {
    operation == OPEN_SESSION || operation == SEND_PARTIAL_OBJECT || operation == SET_OBJECT_PROP_VALUE
  }

  /** The response to an announcement, and what it comes to, as the data phase demands. */
  lemma InfoLaw(d: Device, q: Request, env: Env, code: uint16, params: seq<uint32>, d1: Device, g: Incoming,
                b: seq<uint8>)
    requires q.operation == SEND_OBJECT_INFO
    requires HEADER_SIZE <= |env.incoming| && env.incoming <= b && Encode(IncomingFields(g)) <= b[HEADER_SIZE..]
    requires code == InfoTurn(d, q, env, g.d.size, g.d.format, Text(g.name)).0
    requires d1 == InfoTurn(d, q, env, g.d.size, g.d.format, Text(g.name)).1
    requires params == if code == RESPONSE_OK then InfoParams(d.v, q) else []
    ensures Moves(d, q, env, OutcomeOf(code), d1) && Answers(d.v, q, env, code, params)
  {
    InfoNeverCancels(d, q, env, g.d.size, g.d.format, Text(g.name));
    assert WentBy(d, q, env, OutcomeOf(code), d1, g);
    ConsidersIncoming(d, q, env, OutcomeOf(code), d1, g, b);
    InfoMoves(d, q, env, code, d1);
    assert ReplyRule(Said(d.v, q, env, code, params));
  }

  /** What the data phase can be read as: an announcement, or a single string. */
  lemma LookAhead(b: seq<uint8>) returns (g: Incoming, r: Raw)
    requires DATA_BUFFER_SIZE - HEADER_SIZE <= |b|
    ensures Encode(IncomingFields(g)) <= b && Encode(Received(r)) <= b
  {
    g := EveryBufferIsIncoming(b);
    r := RawAt(b);
  }
}
