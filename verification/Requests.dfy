/** Requests to the device, and what it answers to those that only ask. */
module Requests {
  import opened MtpTypes
  import opened Wire
  import opened Packets
  import opened Strings
  import opened Tables
  import opened Database
  import opened Datasets
  import opened Properties
  import opened PropList
  import Edits

  const GET_DEVICE_INFO: uint16 := 0x1001
  const OPEN_SESSION: uint16 := 0x1002
  const CLOSE_SESSION: uint16 := 0x1003
  const GET_STORAGE_IDS: uint16 := 0x1004
  const GET_STORAGE_INFO: uint16 := 0x1005
  const GET_NUM_OBJECTS: uint16 := 0x1006
  const GET_OBJECT_HANDLES: uint16 := 0x1007
  const GET_OBJECT_INFO: uint16 := 0x1008
  const GET_OBJECT: uint16 := 0x1009
  const GET_THUMB: uint16 := 0x100A
  const DELETE_OBJECT: uint16 := 0x100B
  const SEND_OBJECT_INFO: uint16 := 0x100C
  const SEND_OBJECT: uint16 := 0x100D
  const GET_DEVICE_PROP_DESC: uint16 := 0x1014
  const GET_DEVICE_PROP_VALUE: uint16 := 0x1015
  const SET_DEVICE_PROP_VALUE: uint16 := 0x1016
  const RESET_DEVICE_PROP_VALUE: uint16 := 0x1017
  const MOVE_OBJECT: uint16 := 0x1019
  const GET_PARTIAL_OBJECT: uint16 := 0x101B
  const GET_OBJECT_PROPS_SUPPORTED: uint16 := 0x9801
  const GET_OBJECT_PROP_DESC: uint16 := 0x9802
  const GET_OBJECT_PROP_VALUE: uint16 := 0x9803
  const SET_OBJECT_PROP_VALUE: uint16 := 0x9804
  const GET_OBJECT_PROP_LIST: uint16 := 0x9805
  const GET_OBJECT_REFERENCES: uint16 := 0x9810
  const SET_OBJECT_REFERENCES: uint16 := 0x9811
  const GET_PARTIAL_OBJECT_64: uint16 := 0x95C1
  const SEND_PARTIAL_OBJECT: uint16 := 0x95C2
  const TRUNCATE_OBJECT: uint16 := 0x95C3
  const BEGIN_EDIT_OBJECT: uint16 := 0x95C4
  const END_EDIT_OBJECT: uint16 := 0x95C5

  const RESPONSE_SESSION_NOT_OPEN: uint16 := 0x2003
  const RESPONSE_OPERATION_NOT_SUPPORTED: uint16 := 0x2005
  const RESPONSE_INVALID_STORAGE_ID: uint16 := 0x2008
  const RESPONSE_DEVICE_PROP_NOT_SUPPORTED: uint16 := 0x200A
  const RESPONSE_STORAGE_FULL: uint16 := 0x200C
  const RESPONSE_NO_VALID_OBJECT_INFO: uint16 := 0x2015
  const RESPONSE_INVALID_PARENT_OBJECT: uint16 := 0x201A
  const RESPONSE_SESSION_ALREADY_OPEN: uint16 := 0x201E
  const RESPONSE_TRANSACTION_CANCELLED: uint16 := 0x201F
  const RESPONSE_OBJECT_TOO_LARGE: uint16 := 0xA809
  const RESPONSE_OBJECT_PROP_NOT_SUPPORTED: uint16 := 0xA80A


  /** The lists of codes that the device announces. */
  datatype CodeList = Operations | Events | DeviceProperties | CaptureFormats | PlaybackFormats | ObjectProperties

  function CodesIn(list: CodeList): (codes: seq<uint16>)
    ensures |codes| <= 31
  {
    match list
    case Operations =>
      [GET_DEVICE_INFO, OPEN_SESSION, CLOSE_SESSION, GET_STORAGE_IDS, GET_STORAGE_INFO, GET_NUM_OBJECTS,
       GET_OBJECT_HANDLES, GET_OBJECT_INFO, GET_OBJECT, GET_THUMB, DELETE_OBJECT, SEND_OBJECT_INFO, SEND_OBJECT,
       GET_DEVICE_PROP_DESC, GET_DEVICE_PROP_VALUE, SET_DEVICE_PROP_VALUE, RESET_DEVICE_PROP_VALUE, MOVE_OBJECT,
       GET_PARTIAL_OBJECT, GET_OBJECT_PROPS_SUPPORTED, GET_OBJECT_PROP_DESC, GET_OBJECT_PROP_VALUE,
       SET_OBJECT_PROP_VALUE, GET_OBJECT_PROP_LIST, GET_OBJECT_REFERENCES, SET_OBJECT_REFERENCES,
       GET_PARTIAL_OBJECT_64, SEND_PARTIAL_OBJECT, TRUNCATE_OBJECT, BEGIN_EDIT_OBJECT, END_EDIT_OBJECT]
    case Events => [0x4002, 0x4003, 0x4004, 0x4005, 0x4007, 0xC801]
    case DeviceProperties => [0xD402, 0xD401]
    case CaptureFormats => [0x3001, 0x380B]
    case PlaybackFormats =>
      [0x3000, 0x3001, 0x3004, 0x3005, 0x3800, 0x3801, 0x3802, 0x3804, 0x3807, 0x3808, 0x380B, 0x380D, 0x380E,
       0x380F, 0x3810, 0xB902, 0x3009, 0x3008, 0xB901, 0xB903, 0xB906, 0xBA03, 0xBA05]
    case ObjectProperties =>
      [PROPERTY_STORAGE_ID, PROPERTY_PARENT_OBJECT, PROPERTY_OBJECT_FORMAT, PROPERTY_OBJECT_SIZE,
       PROPERTY_OBJECT_FILE_NAME, PROPERTY_DISPLAY_NAME, PROPERTY_PERSISTENT_UID, PROPERTY_ASSOCIATION_TYPE,
       PROPERTY_ASSOCIATION_DESC, PROPERTY_PROTECTION_STATUS, PROPERTY_DATE_CREATED, PROPERTY_DATE_MODIFIED,
       PROPERTY_HIDDEN, PROPERTY_NON_CONSUMABLE]
  }

  // ---- Requests and the world around them ----

  datatype Request = Request(operation: uint16, transaction: uint32, p1: uint32, p2: uint32, p3: uint32, p4: uint32,
                             p5: uint32)

  /** The request that lies in a buffer. */
  function RequestIn(b: seq<uint8>): Request
    requires PARAMETERS_END <= |b|
  {
    var w := WordsIn(b);
    Request(U16At(b, CODE_OFFSET), U32At(b, TRANSACTION_OFFSET), w[0], w[1], w[2], w[3], w[4])
  }

  /** Operations whose data phase is read before they are handled. */
  predicate DataIn(operation: uint16) {
    || operation == SEND_OBJECT_INFO || operation == SET_OBJECT_REFERENCES
    || operation == SET_OBJECT_PROP_VALUE || operation == SET_DEVICE_PROP_VALUE
  }

  datatype Storage = Storage(id: uint32, path: seq<uint8>, maxFileSize: uint64, info: StorageInfo)

  /** How a call that can be cancelled ends. */
  datatype Ending = Done | Failed | Cancelled

  /** What one read of the data phase can bring. */
  type Burst = s: seq<uint8> | |s| <= DATA_BUFFER_SIZE

  /** What the operating system, the file system and the link do around one request. */
  datatype Env = Env(
    incoming: Burst,            // what a read of the data phase brings; too little when it fails
    readEnding: Ending,         // why it brings too little
    info: StorageInfo,          // the storage's present capacity and free space, and fixed texts
    device: DeviceInfo,         // manufacturer, model and serial number
    file: seq<uint8>,           // the file that is opened for reading
    thumb: Option<seq<uint8>>,
    openSucceeds: bool, fd: int,
    transfer: Ending,           // how the kernel's own file transfer ends
    written: bool,              // whether the first bytes could be written to the file
    mkdirSucceeds: bool, truncateSucceeds: bool,
    fileSize: Option<nat>,      // the size on disk after a send or an edit
    renamed: Option<seq<uint8>>,
    modified: Name, epoch: Name,
    dataEnding: Ending, responseEnding: Ending)

  /** What an answer can depend on. */
  datatype View = View(
    db: Table, counter: uint32, storages: seq<Storage>, edits: seq<Edits.Edit>,
    sessionOpen: bool, sessionID: uint32, ptp: bool)

  /** The response code, the integers of the data phase, and the parameters of the response. */
  datatype Answer = Answer(code: uint16, fields: seq<Field>, params: seq<uint32>)

  function Just(code: uint16): Answer { Answer(code, [], []) }

  function FindStorage(storages: seq<Storage>, id: uint32): Option<Storage> {
    if storages == [] then None
    else if id == 0 || storages[0].id == id then Some(storages[0])
    else FindStorage(storages[1..], id)
  }

  predicate HasStorage(storages: seq<Storage>, id: uint32) {
    if id == 0 || id == 0xFFFF_FFFF then storages != [] else FindStorage(storages, id).Some?
  }

  // ---- Answers ----

  /** The ASCII characters of `s`, as bytes. */
  function Letters(s: string): (b: seq<uint8>)
    ensures |b| <= |s|
  {
    if s == [] then []
    else if 0 < s[0] as int < 0x80 then [s[0] as int] + Letters(s[1..])
    else Letters(s[1..])
  }

  lemma {:induction false} LettersAreText(s: string)
    ensures NoZero(Letters(s)) && |Units(Letters(s))| <= |s| && Utf8(Units(Letters(s))) == Letters(s)
  {
    if s != [] {
      LettersAreText(s[1..]);
      if 0 < s[0] as int < 0x80 {
        LetterFirst(s[0] as int, Letters(s[1..]));
      }
    }
  }

  lemma LetterFirst(c: uint8, rest: seq<uint8>)
    requires 0 < c < 0x80
    ensures Units([c] + rest) == [c] + Units(rest)
    ensures Utf8([c] + Units(rest)) == [c] + Utf8(Units(rest))
  {
    var b := [c] + rest;
    assert b[0] == c && b[1..] == rest;
    assert ([c] + Units(rest))[1..] == Units(rest);
  }

  function Text255(s: string): Name
    requires |s| <= 255
  {
    LettersAreText(s);
    Letters(s)
  }

  function Extension(ptp: bool): string { if ptp then "" else "microsoft.com: 1.0; android.com: 1.0;" }

  function ServedDeviceInfo(ptp: bool, device: DeviceInfo): DeviceInfo {
    DeviceInfo(100, if ptp then 0 else 6, 100, Text255(Extension(ptp)), 0,
               DeviceLists(CodesIn(Operations), CodesIn(Events), CodesIn(DeviceProperties), CodesIn(CaptureFormats),
                           CodesIn(PlaybackFormats)),
               device.manufacturer, device.model, Text255("1.0"), device.serial)
  }

  function StorageIDs(storages: seq<Storage>): (ids: seq<uint32>)
    ensures |ids| == |storages|
  {
    seq(|storages|, i requires 0 <= i < |storages| => storages[i].id)
  }

  function StorageIDsAnswer(v: View): Answer {
    if !v.sessionOpen then Just(RESPONSE_SESSION_NOT_OPEN)
    else Answer(RESPONSE_OK, Array32(StorageIDs(v.storages)), [])
  }

  function ServedStorageInfo(s: Storage, now: StorageInfo): StorageInfo {
    s.info.(maxCapacity := now.maxCapacity, freeSpace := now.freeSpace, freeObjects := 0x4000_0000, volume := [])
  }

  function StorageInfoAnswer(v: View, q: Request, env: Env): Answer {
    if !v.sessionOpen then Just(RESPONSE_SESSION_NOT_OPEN)
    else
      match FindStorage(v.storages, q.p1)
      case None => Just(RESPONSE_INVALID_STORAGE_ID)
      case Some(s) => Answer(RESPONSE_OK, StorageFields(ServedStorageInfo(s, env.info)), [])
  }

  function PropsSupportedAnswer(v: View): Answer {
    if !v.sessionOpen then Just(RESPONSE_SESSION_NOT_OPEN)
    else Answer(RESPONSE_OK, Array16(CodesIn(ObjectProperties)), [])
  }

  /** The handles that a request asks for; the format is cut to 16 bits. */
  function Asked(v: View, q: Request): seq<uint32> { Listing(v.db, q.p1, q.p2 % 0x1_0000, q.p3) }

  function HandlesAnswer(v: View, q: Request): Answer {
    if !v.sessionOpen then Just(RESPONSE_SESSION_NOT_OPEN)
    else if !HasStorage(v.storages, q.p1) then Just(RESPONSE_INVALID_STORAGE_ID)
    else Answer(RESPONSE_OK, Array32(Asked(v, q)), [])
  }

  /** The count is a signed 32-bit number; a negative one is reported as an error. */
  function NumObjectsAnswer(v: View, q: Request): Answer {
    if !v.sessionOpen then Just(RESPONSE_SESSION_NOT_OPEN)
    else if !HasStorage(v.storages, q.p1) then Just(RESPONSE_INVALID_STORAGE_ID)
    else
      var count := |Asked(v, q)| % 0x1_0000_0000;
      if count < 0x8000_0000 then Answer(RESPONSE_OK, [], [count]) else Answer(RESPONSE_INVALID_OBJECT_HANDLE, [], [0])
  }

  /** Asking for the references of a handle that the table does not have ends in an exception
      that nothing catches. */
  predicate ReferencesThrow(v: View, q: Request) {
    v.sessionOpen && v.storages != [] && q.p1 != 0 && q.p1 != PARENT_ROOT && q.p1 !in v.db
  }

  /** The handle is passed where a format is expected, and the format as the parent. */
  function ReferencesAnswer(v: View, q: Request): Answer
    requires !ReferencesThrow(v, q)
  {
    if !v.sessionOpen then Just(RESPONSE_SESSION_NOT_OPEN)
    else if v.storages == [] then Just(RESPONSE_INVALID_OBJECT_HANDLE)
    else if q.p1 == 0 || q.p1 == PARENT_ROOT then Answer(RESPONSE_OK, [U32(0)], [])
    else Answer(RESPONSE_OK, Array32(References(v.db, q.p1)), [])
  }

  /** What is served as the references of `h`. */
  function References(t: Table, h: uint32): seq<uint32>
    requires h in t
  {
    Listing(t, t[h].storage, h % 0x1_0000, t[h].format as uint32)
  }

  /** The object's children on its storage. */
  function ChildrenOf(t: Table, h: uint32): seq<uint32>
    requires h in t
  {
    Listing(t, t[h].storage, 0, h)
  }

  /** The references served are the object's children exactly in two cases. If its handle is its
      format code, every child must have that format too. Otherwise it must have no children, and
      nothing must lie below the handle that is its format code with the format that is its handle
      cut to 16 bits. */
  lemma ReferencesExactly(t: Table, h: uint32)
    requires h in t && h != 0 && h != PARENT_ROOT
    ensures var e := t[h];
            References(t, h) == ChildrenOf(t, h) <==>
              if h == e.format as uint32 then
                forall k :: k in t && Selected(t[k], e.storage, 0, h) ==> t[k].format == e.format
              else
                && (forall k :: k in t ==> !Selected(t[k], e.storage, 0, h))
                && (forall k :: k in t ==> !Selected(t[k], e.storage, h % 0x1_0000, e.format as uint32))
  {
    var e := t[h];
    var served, children := References(t, h), ChildrenOf(t, h);
    ListingSelects(t, e.storage, h % 0x1_0000, e.format as uint32);
    ListingSelects(t, e.storage, 0, h);
    if forall k :: k in served <==> k in children {
      AscendingUnique(served, children);
    }
    assert forall k :: k in served <==> k in t && Selected(t[k], e.storage, h % 0x1_0000, e.format as uint32);
    assert forall k :: k in children <==> k in t && Selected(t[k], e.storage, 0, h);
  }

  /** A folder with one object in it: the object is its child, and no references are served. */
  lemma ReferencesMissChild(folder: DbEntry, inside: DbEntry)
    requires folder.format == FORMAT_ASSOCIATION && folder.parent == 0
    requires inside.storage == folder.storage && inside.parent == 1
    ensures var t := map[1 := folder, 2 := inside]; ChildrenOf(t, 1) == [2] && References(t, 1) == []
  {
    OneChild(map[1 := folder, 2 := inside], 1, 2);
  }

  lemma OneChild(t: Table, h: uint32, k: uint32)
    requires h in t && k in t && h != k && (forall x :: x in t ==> x == h || x == k) && h != 0 && h != PARENT_ROOT
    requires t[h].parent == 0 && t[k].parent == h && t[k].storage == t[h].storage
    requires h != t[h].format as uint32 && t[h].format != 0
    ensures ChildrenOf(t, h) == [k] && References(t, h) == []
  {
    ListingSelects(t, t[h].storage, h % 0x1_0000, t[h].format as uint32);
    ListingSelects(t, t[h].storage, 0, h);
    assert k in [k];
    AscendingUnique(ChildrenOf(t, h), [k]);
    AscendingUnique(References(t, h), []);
  }

  /** Values that do not depend on the entry. */
  predicate IsConstant(property: uint16) {
    || property == PROPERTY_PERSISTENT_UID || property == PROPERTY_ASSOCIATION_DESC
    || property == PROPERTY_PROTECTION_STATUS
    || property == PROPERTY_DATE_CREATED || property == PROPERTY_HIDDEN || property == PROPERTY_NON_CONSUMABLE
  }

  const NO_ENTRY: DbEntry := DbEntry(0, 0, 0, 0, [], [], 0, [])

  /** A single property of an object. The non-consumable one is answered with no data. */
  function PropValueAnswer(v: View, q: Request, env: Env): Answer {
    var property: uint16 := q.p2 % 0x1_0000;
    if v.storages == [] || q.p1 == 0 || q.p1 == PARENT_ROOT then Just(RESPONSE_INVALID_OBJECT_HANDLE)
    else if property == PROPERTY_NON_CONSUMABLE then Just(RESPONSE_OK)
    else if !Supported(property) then Just(RESPONSE_GENERAL_ERROR)
    else if IsConstant(property) then Answer(RESPONSE_OK, ValueOf(q.p1, NO_ENTRY, env.epoch, property), [])
    else if q.p1 !in v.db then Just(RESPONSE_GENERAL_ERROR)
    else Answer(RESPONSE_OK, ValueOf(q.p1, v.db[q.p1], env.epoch, property), [])
  }

  predicate IsDeviceProperty(property: uint16) { property == 0xD401 || property == 0xD402 }

  function DevicePropValueAnswer(q: Request): Answer {
    if IsDeviceProperty(q.p1 % 0x1_0000) then Answer(RESPONSE_OK, [U8(0)], [])
      else Just(RESPONSE_OPERATION_NOT_SUPPORTED)
  }

  function ListRequestOf(q: Request): ListRequest { ListRequest(q.p1, q.p3, q.p4, q.p5) }

  function PropListAnswer(v: View, q: Request, env: Env): Answer {
    if v.storages == [] then Just(RESPONSE_INVALID_OBJECT_HANDLE)
    else
      var (code, handles) := Verdict(v.db, ListRequestOf(q));
      if code == RESPONSE_OK then Answer(code, PropListFields(v.db, handles, q.p3, env.epoch), []) else Just(code)
  }

  /** The size of an object that is being edited, as far as 32 bits can say it. */
  function Saturated(size: uint64): uint32 { if size > 0xFFFF_FFFF then 0xFFFF_FFFF else size }

  function ServedSize(v: View, h: uint32): uint32
    requires h in v.db
  {
    match Edits.Find(v.edits, h)
    case Some(i) => Saturated(v.edits[i].size)
    case None => v.db[h].size % 0x1_0000_0000
  }

  function ServedInfo(v: View, h: uint32): ObjectInfo
    requires h in v.db
  {
    var e := v.db[h];
    ObjectInfo(e.storage, e.format, 0, ServedSize(v, h), 0, 0, 0, 0, 0, 0, 0, e.parent,
               if e.format == FORMAT_ASSOCIATION then 1 else 0, 0, 0, e.name, [], e.modified, [])
  }

  function ObjectInfoAnswer(v: View, q: Request): Answer {
    if v.storages == [] || q.p1 == 0 || q.p1 == PARENT_ROOT then Just(RESPONSE_INVALID_OBJECT_HANDLE)
    else if q.p1 !in v.db then Just(RESPONSE_GENERAL_ERROR)
    else Answer(RESPONSE_OK, InfoFields(ServedInfo(v, q.p1)), [])
  }

  /** The descriptions of the supported properties: a code, a type, and whether it can be set. */
  function Described(code: uint16, kind: uint16, writeable: bool): Property {
    var initial := if kind == TYPE_STR then Str(None) else if kind == TYPE_UINT128 then Words(0, 0, 0, 0) else Int(0);
    BLANK.(code := code, kind := kind, writeable := writeable, defaultValue := initial, currentValue := initial)
  }

  predicate IsPictureProperty(property: uint16) { property == 0xDC87 || property == 0xDC88 || property == 0xDCD3 }

  /** The kinds with a description: those of the listed properties, and of a picture's size. */
  function DescribedKind(property: uint16): Option<uint16> {
    if Supported(property) then Some(Kind(property)) else if IsPictureProperty(property) then Some(KIND_UINT32)
      else None
  }

  predicate IsWriteable(property: uint16) {
    property == PROPERTY_PARENT_OBJECT || property == PROPERTY_DISPLAY_NAME || property == PROPERTY_OBJECT_FILE_NAME
  }

  lemma DescribedIsWellFormed(property: uint16, kind: uint16, writeable: bool)
    requires kind == KIND_UINT16 || kind == KIND_UINT32 || kind == KIND_UINT128 || kind == KIND_STR
    ensures WellFormed(Described(property, kind, writeable))
  {
  }

  /** The description that the device makes of a property. */
  function Description(property: uint16): Property {
    Described(property, if DescribedKind(property).Some? then DescribedKind(property).value else 0,
              IsWriteable(property))
  }

  lemma DescriptionIsWellFormed(property: uint16)
    requires DescribedKind(property).Some?
    ensures WellFormed(Description(property))
  {
    KindIsNumber(property);
    DescribedIsWellFormed(property, DescribedKind(property).value, IsWriteable(property));
  }

  function PropDescAnswer(q: Request): Answer {
    var property: uint16 := q.p1 % 0x1_0000;
    match DescribedKind(property)
    case None => Just(RESPONSE_OBJECT_PROP_NOT_SUPPORTED)
    case Some(_) =>
      DescriptionIsWellFormed(property);
      Answer(RESPONSE_OK, WrittenFields(Description(property)), [])
  }

  lemma PropDescOf(q: Request, property: uint16)
    requires q.p1 % 0x1_0000 == property
    ensures DescribedKind(property).None? ==> PropDescAnswer(q).fields == []
    ensures DescribedKind(property).Some? ==>
      WellFormed(Description(property)) && PropDescAnswer(q).fields == WrittenFields(Description(property))
  {
    if DescribedKind(property).Some? {
      DescriptionIsWellFormed(property);
    }
  }

  function DevicePropDescAnswer(q: Request): Answer {
    var property: uint16 := q.p1 % 0x1_0000;
    if !IsDeviceProperty(property) then Just(RESPONSE_DEVICE_PROP_NOT_SUPPORTED)
    else
      DescribedIsWellFormed(property, KIND_STR, false);
      Answer(RESPONSE_OK, WrittenFields(Described(property, KIND_STR, false)), [])
  }
}
