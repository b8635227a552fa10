/** What each request for data is answered, over every step of every run: said of the device, the
    request and the world, field by field. */
module Queries {
  import opened MtpTypes
  import opened Wire
  import opened Packets
  import opened Strings
  import opened Tables
  import opened Database
  import opened Datasets
  import opened Properties
  import opened PropList
  import opened Requests
  import opened Sends
  import opened Turns
  import opened Runs
  import opened Laws
  import Edits

  // ---- Answers ----

  /** The request was answered with this code, data and parameters. */
  ghost predicate Answered(t: Taken, code: uint16, fields: seq<Field>, params: seq<uint32>) {
    && t.step.Some? && t.step.value.e.outcome == Respond(code)
    && t.step.value.e.payload == Encode(fields) && t.step.value.e.params == params
  }

  /** The request was refused with this code alone. */
  ghost predicate Refused(t: Taken, code: uint16) { Answered(t, code, [], []) }

  lemma QueryStep(t: Taken)
    requires TakenOk(t) && t.step.Some? && IsQuery(t.step.value.e.q.operation)
    requires !Throws(t.d0.v, t.step.value.e.q)
    ensures var (e, a) := (t.step.value.e, QueryAnswer(t.d0.v, t.step.value.e.q, t.step.value.e.env));
            Answered(t, a.code, a.fields, a.params)
  {
    StepMoves(t);
    var e := t.step.value.e;
    assert Lawful(e);
    ErrorsAreEmpty(e.v, e.q, e.env);
  }

  // ---- Storages ----

  lemma StorageIDsLaw(t: Taken) returns (ids: seq<uint32>)
    requires TakenOk(t) && Did(t, GET_STORAGE_IDS)
    ensures |ids| == |t.d0.v.storages| && forall i :: 0 <= i < |ids| ==> ids[i] == t.d0.v.storages[i].id
    ensures if t.d0.v.sessionOpen then Answered(t, RESPONSE_OK, Array32(ids), [])
            else Refused(t, RESPONSE_SESSION_NOT_OPEN)
  {
    QueryStep(t);
    ids := StorageIDs(t.d0.v.storages);
  }

  /** A storage is described by what is fixed of it and by its present capacity and free space. */
  lemma StorageInfoLaw(t: Taken) returns (s: StorageInfo)
    requires TakenOk(t) && Did(t, GET_STORAGE_INFO)
    ensures var (v, e) := (t.d0.v, t.step.value.e);
            if !v.sessionOpen then Refused(t, RESPONSE_SESSION_NOT_OPEN)
            else if forall i: nat :: !StorageAt(v.storages, e.q.p1, i) then Refused(t, RESPONSE_INVALID_STORAGE_ID)
            else
              && Answered(t, RESPONSE_OK, StorageFields(s), [])
              && s.maxCapacity == e.env.info.maxCapacity && s.freeSpace == e.env.info.freeSpace
              && s.freeObjects == 0x4000_0000 && s.volume == []
              && forall i: nat :: StorageAt(v.storages, e.q.p1, i) ==>
                   && s.kind == v.storages[i].info.kind && s.fileSystem == v.storages[i].info.fileSystem
                   && s.access == v.storages[i].info.access && s.description == v.storages[i].info.description
  {
    var (v, q) := (t.d0.v, t.step.value.e.q);
    QueryStep(t);
    StorageExactly(v.storages, q.p1);
    s := if FindStorage(v.storages, q.p1).Some?
         then ServedStorageInfo(FindStorage(v.storages, q.p1).value, t.step.value.e.env.info)
         else t.step.value.e.env.info;
  }

  lemma StorageExactly(storages: seq<Storage>, id: uint32)
    ensures FindStorage(storages, id).None? <==> forall i: nat :: !StorageAt(storages, id, i)
    ensures forall i: nat :: StorageAt(storages, id, i) ==> FindStorage(storages, id) == Some(storages[i])
  {
    if FindStorage(storages, id).Some? {
      var i := StorageFound(storages, id);
      assert StorageAt(storages, id, i);
    }
    forall i: nat | StorageAt(storages, id, i)
      ensures FindStorage(storages, id) == Some(storages[i])
    {
      StorageIsFound(storages, id, i);
    }
  }

  // ---- Listings ----

  /** The storage asked for is there; the two reserved identifiers stand for any. */
  ghost predicate StorageKnown(storages: seq<Storage>, id: uint32) {
    if id == 0 || id == 0xFFFF_FFFF then storages != [] else exists i: nat :: StorageAt(storages, id, i)
  }

  lemma HasStorageExactly(storages: seq<Storage>, id: uint32)
    ensures HasStorage(storages, id) <==> StorageKnown(storages, id)
  {
    StorageExactly(storages, id);
  }

  /** The handles of the storage, the first parameter, with the format, the second, cut to 16 bits and
      0 for any, and the parent, the third, with the reserved root value for the top. */
  ghost predicate Lists(t: Table, q: Request, list: seq<uint32>) {
    && (forall i, j :: 0 <= i < j < |list| ==> list[i] < list[j])
    && forall h :: h in list <==>
         && h in t && t[h].storage == q.p1 && t[h].parent == (if q.p3 == PARENT_ROOT then 0 else q.p3)
         && (q.p2 % 0x1_0000 == 0 || t[h].format == q.p2 % 0x1_0000)
  }

  lemma AskedLists(v: View, q: Request)
    ensures Lists(v.db, q, Asked(v, q))
  {
    ListingSelects(v.db, q.p1, q.p2 % 0x1_0000, q.p3);
  }

  lemma HandlesLaw(t: Taken) returns (list: seq<uint32>)
    requires TakenOk(t) && Did(t, GET_OBJECT_HANDLES)
    ensures Lists(t.d0.v.db, t.step.value.e.q, list)
    ensures if !t.d0.v.sessionOpen then Refused(t, RESPONSE_SESSION_NOT_OPEN)
            else if !StorageKnown(t.d0.v.storages, t.step.value.e.q.p1) then Refused(t, RESPONSE_INVALID_STORAGE_ID)
            else Answered(t, RESPONSE_OK, Array32(list), [])
  {
    QueryStep(t);
    HasStorageExactly(t.d0.v.storages, t.step.value.e.q.p1);
    AskedLists(t.d0.v, t.step.value.e.q);
    list := Asked(t.d0.v, t.step.value.e.q);
  }

  /** The number of the same handles, in 32 bits; what is negative then counts as an error. */
  lemma NumObjectsLaw(t: Taken) returns (list: seq<uint32>)
    requires TakenOk(t) && Did(t, GET_NUM_OBJECTS)
    ensures Lists(t.d0.v.db, t.step.value.e.q, list)
    ensures var n := |list| % 0x1_0000_0000;
            if !t.d0.v.sessionOpen then Refused(t, RESPONSE_SESSION_NOT_OPEN)
            else if !StorageKnown(t.d0.v.storages, t.step.value.e.q.p1) then Refused(t, RESPONSE_INVALID_STORAGE_ID)
            else if n < 0x8000_0000 then Answered(t, RESPONSE_OK, [], [n])
            else Answered(t, RESPONSE_INVALID_OBJECT_HANDLE, [], [0])
  {
    QueryStep(t);
    HasStorageExactly(t.d0.v.storages, t.step.value.e.q.p1);
    AskedLists(t.d0.v, t.step.value.e.q);
    list := Asked(t.d0.v, t.step.value.e.q);
  }

  // ---- Objects ----

  /** An object is described as the table has it, with the size of its open edit, if it has one, as far
      as 32 bits can say it; what the device does not know is 0. */
  ghost predicate Tells(v: View, h: uint32, s: ObjectInfo)
    requires h in v.db
  {
    var e := v.db[h];
    && s.storage == e.storage && s.format == e.format && s.parent == e.parent
    && s.name == e.name && s.modified == e.modified && s.created == [] && s.keywords == []
    && s.associationType == (if e.format == FORMAT_ASSOCIATION then 1 else 0) && s.associationDesc == 0
    && s.protection == 0 && s.sequence == 0
    && s.thumbFormat == 0 && s.thumbSize == 0 && s.thumbWidth == 0 && s.thumbHeight == 0
    && s.width == 0 && s.height == 0 && s.depth == 0
    && (NoEdit(v.edits, h) ==> s.size == e.size % 0x1_0000_0000)
    && (forall i: nat :: EditAt(v.edits, h, i) ==> s.size == Min(v.edits[i].size, 0xFFFF_FFFF))
  }

  lemma ObjectInfoLaw(t: Taken) returns (s: ObjectInfo)
    requires TakenOk(t) && Did(t, GET_OBJECT_INFO)
    ensures var (v, h) := (t.d0.v, t.step.value.e.q.p1);
            if v.storages == [] || h == 0 || h == PARENT_ROOT then Refused(t, RESPONSE_INVALID_OBJECT_HANDLE)
            else if h !in v.db then Refused(t, RESPONSE_GENERAL_ERROR)
            else Answered(t, RESPONSE_OK, InfoFields(s), []) && Tells(v, h, s)
  {
    var (v, h) := (t.d0.v, t.step.value.e.q.p1);
    QueryStep(t);
    EditsDistinct(t);
    EditFound(v.edits, h);
    s := if h in v.db then ServedInfo(v, h)
         else ObjectInfo(0, 0, 0, 0, 0, 0, 0, 0, 0, 0, 0, 0, 0, 0, 0, [], [], [], []);
  }

  // ---- Properties ----

  /** The value of each property of an object. The date of creation is the same for all of them. */
  ghost predicate HasValue(h: uint32, e: DbEntry, epoch: Name, property: uint16, value: seq<Field>) {
    value ==
      if property == PROPERTY_PERSISTENT_UID then [U64(h), U64(0)]
      else if property == PROPERTY_STORAGE_ID then [U32(e.storage)]
      else if property == PROPERTY_PARENT_OBJECT then [U32(e.parent)]
      else if property == PROPERTY_OBJECT_FORMAT then [U16(e.format)]
      else if property == PROPERTY_OBJECT_SIZE then [U32(e.size % 0x1_0000_0000)]
      else if property == PROPERTY_OBJECT_FILE_NAME || property == PROPERTY_DISPLAY_NAME then Sent(Units(e.name))
      else if property == PROPERTY_DATE_CREATED then Sent(Units(epoch))
      else if property == PROPERTY_DATE_MODIFIED then Sent(Units(e.modified))
      else if property == PROPERTY_ASSOCIATION_TYPE then [U16(if e.format == FORMAT_ASSOCIATION then 1 else 0)]
      else if property == PROPERTY_ASSOCIATION_DESC then [U32(0)]
      else if property == PROPERTY_NON_CONSUMABLE then [U16(if e.format == FORMAT_ASSOCIATION then 0 else 1)]
      else [U16(0)]
  }

  lemma ValuesLaw(h: uint32, e: DbEntry, epoch: Name, property: uint16)
    requires Supported(property)
    ensures HasValue(h, e, epoch, property, ValueOf(h, e, epoch, property))
  {
  }

  /** The data type that is sent with a value is that of the value. */
  lemma KindsLaw(h: uint32, e: DbEntry, epoch: Name, property: uint16)
    requires Supported(property)
    ensures var value := ValueOf(h, e, epoch, property);
            match Kind(property)
            case 4 => |value| == 1 && value[0].U16?
            case 6 => |value| == 1 && value[0].U32?
            case 10 => |value| == 2 && value[0].U64? && value[1].U64?
            case _ => Kind(property) == 0xFFFF && exists text: Name :: value == Sent(Units(text))
  {
    KindIsNumber(property);
    if Kind(property) == KIND_STR {
      assert ValueOf(h, e, epoch, property) == Sent(Units(TextOf(e, epoch, property)));
    }
  }

  /** The properties that a request can be about. */
  lemma SupportedExactly(property: uint32)
    ensures Supported(property) <==> property < 0x1_0000 && property as uint16 in CodesIn(ObjectProperties)
  {
  }

  /** A single property is answered with its value; the constant ones also for handles that the table
      does not have, and the non-consumable one with no data at all. */
  lemma PropValueLaw(t: Taken) returns (value: seq<Field>)
    requires TakenOk(t) && Did(t, GET_OBJECT_PROP_VALUE)
    ensures var (v, e, h, property) := (t.d0.v, t.step.value.e, t.step.value.e.q.p1, t.step.value.e.q.p2 % 0x1_0000);
            if v.storages == [] || h == 0 || h == PARENT_ROOT then Refused(t, RESPONSE_INVALID_OBJECT_HANDLE)
            else if property == PROPERTY_NON_CONSUMABLE then Answered(t, RESPONSE_OK, [], [])
            else if !Supported(property) || (h !in v.db && !SameForAll(property)) then
              Refused(t, RESPONSE_GENERAL_ERROR)
            else
              && Answered(t, RESPONSE_OK, value, [])
              && forall entry: DbEntry :: (h in v.db ==> entry == v.db[h]) ==>
                   HasValue(h, entry, e.env.epoch, property, value)
  {
    var (v, e) := (t.d0.v, t.step.value.e);
    var property: uint16 := e.q.p2 % 0x1_0000;
    QueryStep(t);
    value := PropValueAnswer(v, e.q, e.env).fields;
    if value != [] {
      forall entry: DbEntry | SameForAll(property) || (e.q.p1 in v.db && entry == v.db[e.q.p1])
        ensures HasValue(e.q.p1, entry, e.env.epoch, property, value)
      {
        ValuesLaw(e.q.p1, entry, e.env.epoch, property);
      }
    }
  }

  /** The properties whose values do not depend on the object's entry. */
  predicate SameForAll(property: uint16) {
    || property == PROPERTY_PERSISTENT_UID || property == PROPERTY_DATE_CREATED
    || property == PROPERTY_ASSOCIATION_DESC || property == PROPERTY_PROTECTION_STATUS || property == PROPERTY_HIDDEN
  }

  /** A property list is of the object itself at depth 0, and of its children, ascending, at depth 1 or
      at what is a negative depth. The object is the first parameter, the property the third, the group
      the fourth and the depth the fifth. */
  lemma PropListLaw(t: Taken) returns (handles: seq<uint32>)
    requires TakenOk(t) && Did(t, GET_OBJECT_PROP_LIST)
    ensures var (v, e, q) := (t.d0.v, t.step.value.e, t.step.value.e.q);
            if v.storages == [] then Refused(t, RESPONSE_INVALID_OBJECT_HANDLE)
            else if q.p1 == INVALID_HANDLE || (q.p3 == 0 && q.p4 == 0) then Refused(t, RESPONSE_PARAMETER_NOT_SUPPORTED)
            else if q.p4 != 0 then Refused(t, RESPONSE_SPECIFICATION_BY_GROUP_UNSUPPORTED)
            else if 1 < q.p5 < 0x8000_0000 then Refused(t, RESPONSE_SPECIFICATION_BY_DEPTH_UNSUPPORTED)
            else if q.p5 == 0 && q.p1 !in v.db then Refused(t, RESPONSE_INVALID_OBJECT_HANDLE)
            else
              && Answered(t, RESPONSE_OK, PropListFields(v.db, handles, q.p3, e.env.epoch), [])
              && if q.p5 == 0 then handles == [q.p1]
                 else
                   && (forall i, j :: 0 <= i < j < |handles| ==> handles[i] < handles[j])
                   && forall h :: h in handles <==> h in v.db && v.db[h].parent == q.p1
  {
    var (v, q) := (t.d0.v, t.step.value.e.q);
    QueryStep(t);
    AllChildren(v.db, q.p1);
    handles := Verdict(v.db, ListRequestOf(q)).1;
  }

  /** A property is described by its code, its type, which is that of its value, whether it can be set,
      and an empty default; three sizes of pictures are described though no object has them. */
  lemma PropDescLaw(t: Taken) returns (p: Property)
    requires TakenOk(t) && Did(t, GET_OBJECT_PROP_DESC)
    ensures WellFormed(p)
    ensures var property: uint16 := t.step.value.e.q.p1 % 0x1_0000;
            if Supported(property) || property in [0xDC87, 0xDC88, 0xDCD3] then
              && Answered(t, RESPONSE_OK, WrittenFields(p), [])
              && p.code == property && p.kind == (if Supported(property) then Kind(property) else KIND_UINT32)
              && (p.writeable <==>
                  property in [PROPERTY_PARENT_OBJECT, PROPERTY_OBJECT_FILE_NAME, PROPERTY_DISPLAY_NAME])
              && p.group == 0 && p.form == FORM_NONE
              && p.defaultValue == if p.kind == KIND_STR then Str(None)
                                   else if p.kind == KIND_UINT128 then Words(0, 0, 0, 0) else Int(0)
            else Refused(t, RESPONSE_OBJECT_PROP_NOT_SUPPORTED)
  {
    var property: uint16 := t.step.value.e.q.p1 % 0x1_0000;
    QueryStep(t);
    p := DescribedAs(t.step.value.e.q, property);
  }

  lemma DescribedAs(q: Request, property: uint16) returns (p: Property)
    requires q.p1 % 0x1_0000 == property
    ensures WellFormed(p)
    ensures if Supported(property) || property in [0xDC87, 0xDC88, 0xDCD3] then
              && PropDescAnswer(q) == Answer(RESPONSE_OK, WrittenFields(p), [])
              && p.code == property && p.kind == (if Supported(property) then Kind(property) else KIND_UINT32)
              && (p.writeable <==>
                  property in [PROPERTY_PARENT_OBJECT, PROPERTY_OBJECT_FILE_NAME, PROPERTY_DISPLAY_NAME])
              && p.group == 0 && p.form == FORM_NONE
              && p.defaultValue == if p.kind == KIND_STR then Str(None)
                                   else if p.kind == KIND_UINT128 then Words(0, 0, 0, 0) else Int(0)
            else PropDescAnswer(q) == Just(RESPONSE_OBJECT_PROP_NOT_SUPPORTED)
  {
    if DescribedKind(property).Some? {
      DescriptionIsWellFormed(property);
      p := Description(property);
    } else {
      DescribedIsWellFormed(property, KIND_UINT16, false);
      p := Described(property, KIND_UINT16, false);
    }
  }

  /** The device's own two properties: a value of 0, and a description as strings that cannot be set. */
  lemma DevicePropertiesLaw(t: Taken) returns (p: Property)
    requires TakenOk(t)
    requires Did(t, GET_DEVICE_PROP_VALUE) || Did(t, GET_DEVICE_PROP_DESC) || Did(t, RESET_DEVICE_PROP_VALUE)
    ensures WellFormed(p)
    ensures var property: uint16 := t.step.value.e.q.p1 % 0x1_0000;
            if Did(t, RESET_DEVICE_PROP_VALUE) then Refused(t, RESPONSE_DEVICE_PROP_NOT_SUPPORTED)
            else if property != 0xD401 && property != 0xD402 then
              Refused(t, if Did(t, GET_DEVICE_PROP_VALUE) then RESPONSE_OPERATION_NOT_SUPPORTED
                         else RESPONSE_DEVICE_PROP_NOT_SUPPORTED)
            else if Did(t, GET_DEVICE_PROP_VALUE) then Answered(t, RESPONSE_OK, [U8(0)], [])
            else
              && Answered(t, RESPONSE_OK, WrittenFields(p), [])
              && p.code == property && p.kind == TYPE_STR && !p.writeable && p.defaultValue == Str(None)
              && p.currentValue == Str(None) && p.group == 0 && p.form == FORM_NONE
  {
    var property: uint16 := t.step.value.e.q.p1 % 0x1_0000;
    QueryStep(t);
    DescribedIsWellFormed(property, KIND_STR, false);
    p := Described(property, KIND_STR, false);
  }

  // ---- The device ----

  /** The device announces exactly the operations that it handles. */
  lemma OperationsLaw(operation: uint16)
    ensures operation in CodesIn(Operations) <==>
            || IsQuery(operation) || Fetches(operation) || Changes(operation)
            || operation == SET_OBJECT_REFERENCES || operation == SET_DEVICE_PROP_VALUE
  {
  }

  lemma DeviceInfoLaw(t: Taken) returns (s: DeviceInfo)
    requires TakenOk(t) && Did(t, GET_DEVICE_INFO)
    ensures Answered(t, RESPONSE_OK, DeviceFields(s), [])
    ensures s.version == 100 && s.vendorVersion == 100 && s.mode == 0
    ensures s.vendor == (if t.d0.v.ptp then 0 else 6) && (t.d0.v.ptp ==> s.extensions == [])
    ensures s.manufacturer == t.step.value.e.env.device.manufacturer && s.model == t.step.value.e.env.device.model
    ensures s.serial == t.step.value.e.env.device.serial
    ensures s.lists.operations == CodesIn(Operations) && s.lists.events == CodesIn(Events)
    ensures s.lists.properties == CodesIn(DeviceProperties) && s.lists.captureFormats == CodesIn(CaptureFormats)
    ensures s.lists.playbackFormats == CodesIn(PlaybackFormats)
  {
    QueryStep(t);
    s := ServedDeviceInfo(t.d0.v.ptp, t.step.value.e.env.device);
  }

  lemma PropsSupportedLaw(t: Taken)
    requires TakenOk(t) && Did(t, GET_OBJECT_PROPS_SUPPORTED)
    ensures if t.d0.v.sessionOpen then Answered(t, RESPONSE_OK, Array16(CodesIn(ObjectProperties)), [])
            else Refused(t, RESPONSE_SESSION_NOT_OPEN)
  {
    QueryStep(t);
  }

  // ---- References ----

  /** The references of an object are what lies, on its storage, below the handle that is its format
      code, with the format that is its handle cut to 16 bits. */
  lemma ReferencesLaw(t: Taken) returns (list: seq<uint32>)
    requires TakenOk(t) && Did(t, GET_OBJECT_REFERENCES)
    ensures var (v, h) := (t.d0.v, t.step.value.e.q.p1);
            if !v.sessionOpen then Refused(t, RESPONSE_SESSION_NOT_OPEN)
            else if v.storages == [] then Refused(t, RESPONSE_INVALID_OBJECT_HANDLE)
            else if h == 0 || h == PARENT_ROOT then Answered(t, RESPONSE_OK, [U32(0)], [])
            else if h !in v.db then t.step.value.e.outcome == Threw && t.flow == Escape
            else
              && Answered(t, RESPONSE_OK, Array32(list), [])
              && (forall i, j :: 0 <= i < j < |list| ==> list[i] < list[j])
              && forall k :: k in list <==>
                   && k in v.db && v.db[k].storage == v.db[h].storage && v.db[k].parent == v.db[h].format as uint32
                   && (h % 0x1_0000 == 0 || v.db[k].format == h % 0x1_0000)
  {
    var (v, e) := (t.d0.v, t.step.value.e);
    list := [];
    if Throws(v, e.q) {
      ReferencesThrown(t);
    } else {
      QueryStep(t);
      if e.q.p1 in v.db {
        list := References(v.db, e.q.p1);
        ReferencesListed(v.db, e.q.p1);
      }
    }
  }

  lemma ReferencesThrown(t: Taken)
    requires TakenOk(t) && t.step.Some? && Throws(t.d0.v, t.step.value.e.q)
    ensures t.step.value.e.outcome == Threw && t.flow == Escape
  {
    StepMoves(t);
    assert Lawful(t.step.value.e);
    assert TakenRule(t);
  }

  lemma ReferencesListed(t: Table, h: uint32)
    requires h in t
    ensures var list := References(t, h);
            && (forall i, j :: 0 <= i < j < |list| ==> list[i] < list[j])
            && forall k :: k in list <==>
                 && k in t && t[k].storage == t[h].storage && t[k].parent == t[h].format as uint32
                 && (h % 0x1_0000 == 0 || t[k].format == h % 0x1_0000)
  {
    ListingSelects(t, t[h].storage, h % 0x1_0000, t[h].format as uint32);
  }

  // ---- Fetching ----

  /** The data went out as one container with these bytes. */
  ghost predicate SentBytes(t: Taken, bytes: seq<uint8>) {
    && t.step.Some?
    && t.step.value.e.sent ==
       Some(Container(TYPE_DATA, t.step.value.e.q.operation, t.step.value.e.q.transaction, bytes))
  }

  /** What a read of `n` bytes at an offset of the object's file comes to. */
  ghost predicate Read(t: Taken, offset: nat, n: nat, params: seq<uint32>)
    requires t.step.Some?
  {
    var (v, e, h) := (t.d0.v, t.step.value.e, t.step.value.e.q.p1);
    if v.storages == [] || h == 0 || h == PARENT_ROOT then
      e.outcome == Respond(RESPONSE_INVALID_OBJECT_HANDLE) && e.sent == None && e.params == []
    else if h !in v.db || !e.env.openSucceeds then
      e.outcome == Respond(RESPONSE_GENERAL_ERROR) && e.sent == None && e.params == []
    else
      && e.params == params
      && if e.env.transfer.Done? && offset + n <= |e.env.file| then
           e.outcome == Respond(RESPONSE_OK) && SentBytes(t, e.env.file[offset..offset + n])
         else
           && e.sent == None
           && e.outcome == if e.env.transfer.Cancelled? then Skip else Respond(RESPONSE_GENERAL_ERROR)
  }

  lemma FetchStep(t: Taken)
    requires TakenOk(t) && t.step.Some? && Fetches(t.step.value.e.q.operation)
    ensures var (e, f) := (t.step.value.e, FetchAnswer(t.d0.v, t.step.value.e.q, t.step.value.e.env));
            e.outcome == OutcomeOf(f.code) && e.params == f.params && e.sent == f.sent && e.payload == []
  {
    StepMoves(t);
    assert Lawful(t.step.value.e);
  }

  /** An object is sent as the first bytes of its file, as many as the table says. */
  lemma GetObjectLaw(t: Taken)
    requires TakenOk(t) && Did(t, GET_OBJECT)
    ensures var (v, h) := (t.d0.v, t.step.value.e.q.p1); Read(t, 0, if h in v.db then v.db[h].size else 0, [])
  {
    FetchStep(t);
  }

  /** The offset of a partial read is the second parameter, and with 64 bits the third is its high half;
      the length is the next parameter. */
  function OffsetOf(q: Request): nat {
    if q.operation == GET_PARTIAL_OBJECT_64 then q.p2 + q.p3 * 0x1_0000_0000 else q.p2
  }

  function LengthOf(q: Request): nat { if q.operation == GET_PARTIAL_OBJECT_64 then q.p4 else q.p3 }

  /** The bytes that a partial read asks for: those within the object, if it starts within it; one that
      starts behind it gets what the subtraction gives in 32 bits, if its end, in 64 bits, is behind the
      object as well, and its length otherwise. */
  ghost predicate InRange(n: nat, size: nat, offset: nat, length: nat) {
    var distance: int := size - offset;
    && (0 <= distance && size < 0x8000_0000_0000_0000 ==> n == Min(length, distance))
    && (distance < 0 ==>
          n == if (offset + length) % 0x1_0000_0000_0000_0000 > size then distance % 0x1_0000_0000 else length)
  }

  lemma RangeLaw(q: Request, size: nat)
    requires IsPartial(q.operation)
    ensures RangeOffset(q) == OffsetOf(q) && InRange(RangeLength(q, size), size, OffsetOf(q), LengthOf(q))
  {
    if OffsetOf(q) <= size < 0x8000_0000_0000_0000 {
      assert OffsetOf(q) + LengthOf(q) < 0x1_0000_0000_0000_0000;
    }
  }

  lemma PartialReadLaw(t: Taken) returns (n: nat)
    requires TakenOk(t) && (Did(t, GET_PARTIAL_OBJECT) || Did(t, GET_PARTIAL_OBJECT_64))
    ensures n < 0x1_0000_0000 && Read(t, OffsetOf(t.step.value.e.q), n, [n])
    ensures var (q, v) := (t.step.value.e.q, t.d0.v);
            q.p1 in v.db ==> InRange(n, v.db[q.p1].size, OffsetOf(q), LengthOf(q))
  {
    var (q, v) := (t.step.value.e.q, t.d0.v);
    FetchStep(t);
    n := 0;
    if q.p1 in v.db {
      RangeLaw(q, v.db[q.p1].size);
      n := RangeLength(q, v.db[q.p1].size);
    }
  }

  lemma ThumbLaw(t: Taken)
    requires TakenOk(t) && Did(t, GET_THUMB)
    ensures var e := t.step.value.e;
            && e.params == []
            && match e.env.thumb
               case None => e.outcome == Respond(RESPONSE_GENERAL_ERROR) && e.sent == None
               case Some(thumb) => e.outcome == Respond(RESPONSE_OK) && SentBytes(t, thumb)
  {
    FetchStep(t);
  }
}
