/** What the device decides about requests that bring, fetch or edit objects. */
module Sends {
  import opened MtpTypes
  import opened Wire
  import opened Packets
  import opened Strings
  import opened Tables
  import opened Database
  import opened Datasets
  import opened PropList
  import opened Requests
  import Edits

  // ---- SendObjectInfo ----

  /** The announced object that the next SendObject brings. */
  datatype Send = Send(handle: uint32, format: uint16, path: seq<uint8>, size: uint32)

  /** What is known of an announced object: the table before it was announced, its entry, and
      the storage's free space and file size limit when it was admitted. */
  datatype Pending = Pending(before: Table, entry: DbEntry, free: nat, limit: nat)

  /** The verdict on an announcement: refused, before or after its size was taken over, or
      admitted below a parent. */
  datatype Check = Refused(code: uint16, sizeRead: bool) | Admitted(path: seq<uint8>, parent: uint32, limit: nat)

  predicate Fitting(size: uint32, free: nat, limit: nat) {
    size <= free && (limit == 0 || (size <= limit && size != 0xFFFF_FFFF))
  }

  /** The response to a size alone: OK if and only if it fits. A size of 0xFFFFFFFF stands for
      all larger ones. */
  function CheckSize(size: uint32, free: nat, limit: nat): (code: uint16)
    ensures code == RESPONSE_OK <==> Fitting(size, free, limit)
  {
    if size > free then RESPONSE_STORAGE_FULL
    else if limit != 0 && (size > limit || size == 0xFFFF_FFFF) then RESPONSE_OBJECT_TOO_LARGE
    else RESPONSE_OK
  }

  function FolderPath(t: Table, s: Storage, parent: uint32): seq<uint8>
    requires parent == PARENT_ROOT || parent in t
  {
    if parent == PARENT_ROOT then s.path else t[parent].path
  }

  function Joined(folder: seq<uint8>, name: seq<uint8>): seq<uint8> {
    (if folder != [] && folder[|folder| - 1] == 0x2F then folder else folder + [0x2F]) + name
  }

  function CheckInfo(v: View, q: Request, free: uint64, size: uint32, name: Name): Check {
    match FindStorage(v.storages, q.p1)
    case None => Refused(RESPONSE_INVALID_STORAGE_ID, false)
    case Some(s) =>
      if q.p2 == 0 then Refused(RESPONSE_INVALID_OBJECT_HANDLE, false)
      else if q.p2 != PARENT_ROOT && q.p2 !in v.db then Refused(RESPONSE_GENERAL_ERROR, false)
      else if q.p2 != PARENT_ROOT && v.db[q.p2].format != FORMAT_ASSOCIATION then
        Refused(RESPONSE_INVALID_PARENT_OBJECT, false)
      else if CheckSize(size, free, s.maxFileSize) != RESPONSE_OK then
        Refused(CheckSize(size, free, s.maxFileSize), true)
      else Admitted(Joined(FolderPath(v.db, s, q.p2), name), if q.p2 == PARENT_ROOT then 0 else q.p2, s.maxFileSize)
  }

  lemma {:induction false} BaseNameAppend(a: seq<uint8>, b: seq<uint8>)
    requires 0x2F !in b
    ensures BaseName(a + b) == BaseName(a) + b
  {
    if b == [] {
      assert a + b == a;
    } else {
      var n := |b| - 1;
      assert (a + b)[..|a + b| - 1] == a + b[..n] && (a + b)[|a + b| - 1] == b[n];
      BaseNameAppend(a, b[..n]);
      assert BaseName(a) + b[..n] + [b[n]] == BaseName(a) + b;
    }
  }

  lemma BaseNameSlash(a: seq<uint8>, b: seq<uint8>)
    ensures BaseName(a + [0x2F] + b) == BaseName(b)
    decreases b
  {
    if b == [] {
      assert a + [0x2F] + b == a + [0x2F];
    } else {
      var n := |b| - 1;
      var s := a + [0x2F] + b;
      assert s[..|s| - 1] == a + [0x2F] + b[..n] && s[|s| - 1] == b[n];
      BaseNameSlash(a, b[..n]);
    }
  }

  /** The units behind the last slash. */
  function LastUnits(units: seq<uint16>): (r: seq<uint16>)
    ensures |r| <= |units|
  {
    if units == [] || units[|units| - 1] == 0x2F then []
    else LastUnits(units[..|units| - 1]) + [units[|units| - 1]]
  }

  lemma {:induction false} BaseNameOfUnits(units: seq<uint16>)
    requires NoZero(units)
    ensures BaseName(Utf8(units)) == Utf8(LastUnits(units)) && NoZero(LastUnits(units))
  {
    if units != [] {
      var n := |units| - 1;
      Utf8Snoc(units, n);
      assert units[..n + 1] == units;
      BaseNameOfUnits(units[..n]);
      var w := UnitBytes(units[n]);
      if units[n] == 0x2F {
        assert w == [0x2F];
        assert Utf8(units)[|Utf8(units)| - 1] == 0x2F;
      } else {
        assert 0x2F !in w;
        BaseNameAppend(Utf8(units[..n]), w);
        Utf8Concat(LastUnits(units[..n]), [units[n]]);
        assert Utf8([units[n]]) == w;
      }
    }
  }

  /** The last component of a path made from a folder and a name is a name. */
  lemma JoinedIsNamed(folder: seq<uint8>, name: Name)
    ensures IsName(BaseName(Joined(folder, name)))
  {
    if folder != [] && folder[|folder| - 1] == 0x2F {
      assert folder == folder[..|folder| - 1] + [0x2F];
      BaseNameSlash(folder[..|folder| - 1], name);
    } else {
      BaseNameSlash(folder, name);
    }
    NameUnits(name);
    Utf8NoZero(Units(name));
    BaseNameOfUnits(Units(name));
    NameOfUnits(LastUnits(Units(name)));
  }

  // ---- SendObject ----

  /** How the data phase of SendObject ends: what came with the header is written first, and
      if that is not all that was announced, the kernel is told to receive the rest. */
  function SendVerdict(size: nat, env: Env): uint16 {
    if |env.incoming| < HEADER_SIZE || !env.openSucceeds then RESPONSE_GENERAL_ERROR
    else
      var initial := |env.incoming| - HEADER_SIZE;
      if size != initial then
        match env.transfer
        case Done => RESPONSE_OK
        case Failed => RESPONSE_GENERAL_ERROR
        case Cancelled => RESPONSE_TRANSACTION_CANCELLED
      else if initial > 0 && !env.written then RESPONSE_GENERAL_ERROR
      else RESPONSE_OK
  }

  /** What the end of a send leaves in the table: with anything but success, the table as it
      was before the announcement. */
  function Ended(t: Table, pending: Option<Pending>, announced: uint32, code: uint16, fileSize: Option<nat>): Table {
    match pending
    case None => t
    case Some(p) =>
      if code != RESPONSE_OK then p.before
      else p.before[announced := if fileSize.Some? then p.entry.(size := fileSize.value) else p.entry]
  }

  // ---- Fetching ----

  /** The code, the container that the kernel sends itself, and the response's parameters. */
  datatype Fetched = Fetched(code: uint16, sent: Option<seq<uint8>>, params: seq<uint32>)

  /** The kernel's transfer of a range of the opened file. */
  function SendRange(q: Request, env: Env, offset: nat, length: nat, params: seq<uint32>): Fetched {
    if env.transfer.Cancelled? then Fetched(RESPONSE_TRANSACTION_CANCELLED, None, params)
    else if env.transfer.Failed? || offset + length > |env.file| then Fetched(RESPONSE_GENERAL_ERROR, None, params)
    else Fetched(RESPONSE_OK,
                 Some(Container(TYPE_DATA, q.operation, q.transaction, env.file[offset..offset + length])), params)
  }

  function Lookup(t: Table, h: uint32): uint16 {
    if h == 0 || h == PARENT_ROOT then RESPONSE_INVALID_OBJECT_HANDLE
    else if h !in t then RESPONSE_GENERAL_ERROR
    else RESPONSE_OK
  }

  predicate IsPartial(operation: uint16) { operation == GET_PARTIAL_OBJECT || operation == GET_PARTIAL_OBJECT_64 }

  function RangeOffset(q: Request): uint64 {
    if q.operation == GET_PARTIAL_OBJECT_64 then Edits.Offset64(q.p2, q.p3) else q.p2
  }

  function RangeLength(q: Request, fileLength: nat): uint32 {
    Edits.PartialLength(fileLength, RangeOffset(q), if q.operation == GET_PARTIAL_OBJECT_64 then q.p4 else q.p3)
  }

  function FetchAnswer(v: View, q: Request, env: Env): Fetched {
    if q.operation == GET_THUMB then
      match env.thumb
      case None => Fetched(RESPONSE_GENERAL_ERROR, None, [])
      case Some(thumb) => Fetched(RESPONSE_OK, Some(Container(TYPE_DATA, q.operation, q.transaction, thumb)), [])
    else if v.storages == [] then Fetched(RESPONSE_INVALID_OBJECT_HANDLE, None, [])
    else if Lookup(v.db, q.p1) != RESPONSE_OK then Fetched(Lookup(v.db, q.p1), None, [])
    else if !env.openSucceeds then Fetched(RESPONSE_GENERAL_ERROR, None, [])
    else
      var size := v.db[q.p1].size;
      if IsPartial(q.operation) then SendRange(q, env, RangeOffset(q), RangeLength(q, size), [RangeLength(q, size)])
      else SendRange(q, env, 0, size, [])
  }

  // ---- Renaming ----

  function RenameCode(v: View, q: Request, env: Env): uint16 {
    var property: uint16 := q.p2 % 0x1_0000;
    if v.storages == [] || q.p1 == 0 || q.p1 == PARENT_ROOT then RESPONSE_INVALID_OBJECT_HANDLE
    else if property != PROPERTY_OBJECT_FILE_NAME && property != PROPERTY_PARENT_OBJECT then
      RESPONSE_OPERATION_NOT_SUPPORTED
    else if q.p1 !in v.db then RESPONSE_GENERAL_ERROR
    else if property == PROPERTY_PARENT_OBJECT then RESPONSE_OPERATION_NOT_SUPPORTED
    else if env.renamed.None? then RESPONSE_DEVICE_BUSY
    else RESPONSE_OK
  }

  /** The table after a rename to the string `r`, if it goes through. */
  ghost function Renamed(v: View, q: Request, env: Env, r: Raw): Table {
    if RenameCode(v, q, env) == RESPONSE_OK then v.db[q.p1 := v.db[q.p1].(name := Text(r), path := env.renamed.value)]
    else v.db
  }

  // ---- Editing ----

  /** What the end of an edit leaves in the table. */
  function Committed(t: Table, e: Edits.Edit, fileSize: Option<nat>): Table {
    if e.format != FORMAT_ASSOCIATION && e.handle in t && fileSize.Some? then
      t[e.handle := t[e.handle].(size := fileSize.value)] else t
  }

  function WriteOp(q: Request, env: Env): Edits.EditOp
    requires HEADER_SIZE <= |env.incoming|
  {
    Edits.Write(Edits.Offset64(q.p2, q.p3), q.p4, |env.incoming| - HEADER_SIZE)
  }

  /** How many bytes are left for the kernel once the initial ones are written. */
  function Left(length: uint32, initial: nat): uint32 { (length - initial) % 0x1_0000_0000 }

  /** Whether a partial write gets as far as reading its data. */
  predicate Begins(v: View, q: Request, env: Env) {
    && v.storages != [] && Edits.Find(v.edits, q.p1).Some?
    && Edits.Offset64(q.p2, q.p3) <= v.edits[Edits.Find(v.edits, q.p1).value].size
    && HEADER_SIZE <= |env.incoming|
  }

  /** How the write and the kernel's transfer end: the transfer decides if there is one. */
  function WriteEnding(q: Request, env: Env): Ending
    requires HEADER_SIZE <= |env.incoming|
  {
    var initial := |env.incoming| - HEADER_SIZE;
    if Left(q.p4, initial) > 0 then env.transfer
    else if initial > 0 && !env.written then Failed
    else Done
  }

  function PartialVerdict(v: View, q: Request, env: Env): uint16 {
    if v.storages == [] then RESPONSE_INVALID_OBJECT_HANDLE
    else if !Begins(v, q, env) then RESPONSE_GENERAL_ERROR
    else
      match WriteEnding(q, env)
      case Done => RESPONSE_OK
      case Failed => RESPONSE_GENERAL_ERROR
      case Cancelled => RESPONSE_TRANSACTION_CANCELLED
  }

  /** A partial write that fails after reading its data leaves the data in the packet. */
  predicate Echoes(v: View, q: Request, env: Env) {
    q.operation == SEND_PARTIAL_OBJECT && Begins(v, q, env) && WriteEnding(q, env).Failed?
  }

  /** The data that is left in the packet. */
  function EchoOf(v: View, q: Request, env: Env): seq<uint8> {
    if Echoes(v, q, env) then env.incoming[HEADER_SIZE..] else []
  }

  /** The parameters of a partial write's response. */
  function PartialParams(v: View, q: Request, env: Env): seq<uint32> {
    if !Begins(v, q, env) then []
    else if WriteEnding(q, env).Done? then [Left(q.p4, |env.incoming| - HEADER_SIZE)]
    else [0]
  }

  // ---- What every state-changing operation answers ----

  function DeleteCode(v: View, q: Request): uint16 {
    if v.storages == [] then RESPONSE_INVALID_OBJECT_HANDLE
    else if Lookup(v.db, q.p1) != RESPONSE_OK then Lookup(v.db, q.p1)
    else if |v.db| == 1 then RESPONSE_GENERAL_ERROR
    else RESPONSE_OK
  }

  /** A deletion that goes through is reported as an error exactly when it empties the table. */
  lemma DeleteReportedExactly(v: View, q: Request)
    requires v.storages != [] && Lookup(v.db, q.p1) == RESPONSE_OK
    ensures q.p1 !in Deleted(v.db, q.p1)
    ensures DeleteCode(v, q) != RESPONSE_OK <==> v.db.Keys == {q.p1}
  {
    if |v.db| == 1 {
      OnlyEntry(v.db, q.p1);
      forall k | k in v.db
        ensures k == q.p1
      {
        if k != q.p1 {
          assert {q.p1, k} <= v.db.Keys && |{q.p1, k}| == 2;
          SubsetSize({q.p1, k}, v.db.Keys);
        }
      }
    }
  }

  /** The only object of a device, deleted: the answer is an error, and the table is empty. */
  lemma OnlyObjectDeleted(v: View, q: Request, e: DbEntry)
    requires v.storages != [] && v.db == map[1 := e] && q.p1 == 1
    ensures DeleteCode(v, q) == RESPONSE_GENERAL_ERROR && Deleted(v.db, q.p1) == map[]
  {
    DeleteReportedExactly(v, q);
    assert v.db.Keys == {1};
    assert Deleted(v.db, 1).Keys == {};
  }

  function MoveCode(v: View, q: Request): uint16 {
    if v.storages == [] then RESPONSE_INVALID_OBJECT_HANDLE else Lookup(v.db, q.p1)
  }

  function BeginEditCode(v: View, q: Request, env: Env): uint16 {
    if Edits.Find(v.edits, q.p1).Some? then RESPONSE_GENERAL_ERROR
    else if Lookup(v.db, q.p1) != RESPONSE_OK then Lookup(v.db, q.p1)
    else if !env.openSucceeds then RESPONSE_GENERAL_ERROR
    else RESPONSE_OK
  }

  function TruncateCode(v: View, q: Request, env: Env): uint16 {
    if Edits.Find(v.edits, q.p1).None? || !env.truncateSucceeds then RESPONSE_GENERAL_ERROR else RESPONSE_OK
  }

  function EndEditCode(v: View, q: Request): uint16 {
    if Edits.Find(v.edits, q.p1).None? then RESPONSE_GENERAL_ERROR else RESPONSE_OK
  }

  /** The table after the end of an edit. */
  function TableAfterEdit(v: View, q: Request, env: Env): Table {
    match Edits.Find(v.edits, q.p1)
    case None => v.db
    case Some(i) => Committed(v.db, v.edits[i], env.fileSize)
  }

  /** The code of an operation that neither reads data nor answers with parameters. */
  function StateCode(v: View, q: Request, env: Env): uint16 {
    if q.operation == CLOSE_SESSION then (if v.sessionOpen then RESPONSE_OK else RESPONSE_SESSION_NOT_OPEN)
    else if q.operation == DELETE_OBJECT then DeleteCode(v, q)
    else if q.operation == MOVE_OBJECT then MoveCode(v, q)
    else if q.operation == TRUNCATE_OBJECT then TruncateCode(v, q, env)
    else if q.operation == BEGIN_EDIT_OBJECT then BeginEditCode(v, q, env)
    else if q.operation == END_EDIT_OBJECT then EndEditCode(v, q)
    else if q.operation == SET_OBJECT_REFERENCES then
      if !v.sessionOpen then RESPONSE_SESSION_NOT_OPEN
      else if v.storages == [] then RESPONSE_INVALID_OBJECT_HANDLE
      else RESPONSE_OK
    else if q.operation == SET_DEVICE_PROP_VALUE then RESPONSE_DEVICE_PROP_NOT_SUPPORTED
    else RESPONSE_OPERATION_NOT_SUPPORTED
  }

  /** The table after any operation but a rename and the two halves of a send. */
  function TableAfter(v: View, q: Request, env: Env): Table {
    if q.operation == DELETE_OBJECT then (if v.storages == [] then v.db else Deleted(v.db, q.p1))
    else if q.operation == MOVE_OBJECT then
      if MoveCode(v, q) == RESPONSE_OK then v.db[q.p1 := v.db[q.p1].(parent := q.p3)] else v.db
    else if q.operation == END_EDIT_OBJECT then TableAfterEdit(v, q, env)
    else v.db
  }

  lemma EditingSpec(v: View, q: Request, env: Env)
    ensures q.operation == TRUNCATE_OBJECT ==>
      StateCode(v, q, env) == TruncateCode(v, q, env) && TableAfter(v, q, env) == v.db
    ensures q.operation == BEGIN_EDIT_OBJECT ==>
      StateCode(v, q, env) == BeginEditCode(v, q, env) && TableAfter(v, q, env) == v.db
    ensures q.operation == END_EDIT_OBJECT ==>
      StateCode(v, q, env) == EndEditCode(v, q) && TableAfter(v, q, env) == TableAfterEdit(v, q, env)
  {
  }

  /** The code of a SendObject: it hangs on what was announced. */
  function SendCode(v: View, pending: Option<Pending>, env: Env): uint16 {
    if v.storages == [] then RESPONSE_GENERAL_ERROR
    else
      match pending
      case None => RESPONSE_NO_VALID_OBJECT_INFO
      case Some(p) => SendVerdict(p.entry.size, env)
  }

  /** The parameters that accept an announcement: storage, parent and the new handle. */
  function InfoParams(v: View, q: Request): seq<uint32> { [q.p1, if q.p2 == PARENT_ROOT then 0 else q.p2, v.counter] }

  /** A response to a state-changing operation. */
  datatype Said = Said(v: View, q: Request, env: Env, code: uint16, params: seq<uint32>)

  /** The response is the one that the device's state and the world around it demand. A
      cancelled transfer is the only reason for a cancellation. */
  ghost predicate ReplyRule(r: Said) {
    var Said(v, q, env, code, params) := r;
    if q.operation == OPEN_SESSION then
      if v.sessionOpen then code == RESPONSE_SESSION_ALREADY_OPEN && params == [v.sessionID]
      else code == RESPONSE_OK && params == []
    else if q.operation == SEND_PARTIAL_OBJECT then
      code == PartialVerdict(v, q, env) && params == PartialParams(v, q, env)
    else if q.operation == SET_OBJECT_PROP_VALUE then code == RenameCode(v, q, env) && params == []
    else if q.operation == SEND_OBJECT_INFO then
      code != RESPONSE_TRANSACTION_CANCELLED && params == if code == RESPONSE_OK then InfoParams(v, q) else []
    else if q.operation == SEND_OBJECT then
      (code == RESPONSE_TRANSACTION_CANCELLED ==> env.transfer.Cancelled?) && params == []
    else code == StateCode(v, q, env) && params == []
  }

  /** Every response obeys ReplyRule. (Folded: naming ReplyRule unfolds it.) */
  ghost predicate Answers(v: View, q: Request, env: Env, code: uint16, params: seq<uint32>) {
    forall r {:trigger ReplyRule(r)} :: r == Said(v, q, env, code, params) ==> ReplyRule(r)
  }

  lemma LookupNeverCancels(t: Table, h: uint32)
    ensures Lookup(t, h) != RESPONSE_TRANSACTION_CANCELLED
  {
  }

  /** Only a cancelled transfer makes the device keep silent. */
  lemma CancelledOnlyByTransfer(r: Said)
    requires ReplyRule(r) && r.code == RESPONSE_TRANSACTION_CANCELLED
    ensures r.env.transfer.Cancelled? && (r.q.operation == SEND_OBJECT || r.q.operation == SEND_PARTIAL_OBJECT)
  {
    LookupNeverCancels(r.v.db, r.q.p1);
  }

  /** What the end of a send does to the entry under the announced handle: with anything but
      success it goes; a success takes over the size on disk, if that can be read. */
  function Finished(t: Table, h: uint32, code: uint16, fileSize: Option<nat>): Table {
    if code != RESPONSE_OK then t - {h}
    else if h in t && fileSize.Some? then t[h := t[h].(size := fileSize.value)]
    else t
  }

  /** While the announced object is the only change since it was announced, that is the table as
      it was before, or with the object in it. */
  lemma FinishedIsEnded(t: Table, p: Pending, h: uint32, code: uint16, fileSize: Option<nat>)
    requires h !in p.before && t == p.before[h := p.entry]
    ensures Finished(t, h, code, fileSize) == Ended(t, Some(p), h, code, fileSize)
  {
    assert p.before[h := p.entry] - {h} == p.before;
    if fileSize.Some? {
      assert t[h := t[h].(size := fileSize.value)] == p.before[h := p.entry.(size := fileSize.value)];
    }
  }

  /** The history of an open edit: its first size and what has changed it. */
  datatype Work = Work(start: uint64, ops: seq<Edits.EditOp>)

  ghost predicate Tracked(e: Edits.Edit, work: map<uint32, Work>) {
    && e.handle in work
    && Edits.Accepted(work[e.handle].start, work[e.handle].ops)
    && e.size == Edits.SizeAfter(work[e.handle].start, work[e.handle].ops)
  }

  ghost predicate AllTracked(edits: seq<Edits.Edit>, work: map<uint32, Work>) {
    forall i :: 0 <= i < |edits| ==> Tracked(edits[i], work)
  }

  /** The history so far; there is one for every open edit. */
  function HistoryOf(work: map<uint32, Work>, h: uint32): Work { if h in work then work[h] else Work(0, []) }

  function MoreWork(w: Work, op: Edits.EditOp): Work { Work(w.start, w.ops + [op]) }

  /** An accepted operation on one edit keeps every edit's size that of its history. */
  lemma TrackMore(edits: seq<Edits.Edit>, work: map<uint32, Work>, i: nat, op: Edits.EditOp)
    requires i < |edits| && AllTracked(edits, work) && Edits.Distinct(edits)
    requires op.Write? ==> op.offset <= edits[i].size && op.initial < Edits.TWO32
    ensures var h := edits[i].handle;
            h in work && AllTracked(edits[i := edits[i].(size := Edits.Resized(edits[i].size, op))],
                                    work[h := MoreWork(work[h], op)])
    ensures Edits.Distinct(edits[i := edits[i].(size := Edits.Resized(edits[i].size, op))])
  {
    var e := edits[i];
    assert Tracked(e, work);
    var w := work[e.handle];
    var after := edits[i := e.(size := Edits.Resized(e.size, op))];
    assert (w.ops + [op])[..|w.ops + [op]| - 1] == w.ops;
    forall j | 0 <= j < |edits|
      ensures Tracked(after[j], work[e.handle := MoreWork(w, op)])
    {
      assert Tracked(edits[j], work);
      if j != i {
        assert edits[j].handle != e.handle;
      }
    }
  }

  lemma TrackNew(edits: seq<Edits.Edit>, work: map<uint32, Work>, e: Edits.Edit)
    requires AllTracked(edits, work) && Edits.Distinct(edits) && Edits.Find(edits, e.handle).None?
    ensures AllTracked(edits + [e], work[e.handle := Work(e.size, [])]) && Edits.Distinct(edits + [e])
  {
    forall j | 0 <= j < |edits|
      ensures edits[j].handle != e.handle && Tracked(edits[j], work[e.handle := Work(e.size, [])])
    {
      assert edits[j] in edits && Tracked(edits[j], work);
    }
  }

  lemma TrackLess(edits: seq<Edits.Edit>, work: map<uint32, Work>, i: nat)
    requires i < |edits| && AllTracked(edits, work) && Edits.Distinct(edits)
    ensures AllTracked(Edits.Without(edits, i), work) && Edits.Distinct(Edits.Without(edits, i))
  {
    Edits.WithoutDistinct(edits, i);
    forall j | 0 <= j < |edits| - 1
      ensures Tracked(Edits.Without(edits, i)[j], work)
    {
      assert Tracked(edits[if j < i then j else j + 1], work);
    }
  }

  /** Open edits are of different objects, their sizes follow from their histories, and the
      books balance. */
  ghost predicate EditsSound(books: Edits.Books, edits: seq<Edits.Edit>, work: map<uint32, Work>) {
    Edits.Distinct(edits) && Edits.Balanced(books, edits) && AllTracked(edits, work)
  }

  lemma ResizeSound(books: Edits.Books, edits: seq<Edits.Edit>, work: map<uint32, Work>, i: nat, op: Edits.EditOp)
    requires i < |edits| && EditsSound(books, edits, work)
    requires op.Write? ==> op.offset <= edits[i].size && op.initial < Edits.TWO32
    ensures var h := edits[i].handle;
            h in work && EditsSound(books, edits[i := edits[i].(size := Edits.Resized(edits[i].size, op))],
                                    work[h := MoreWork(work[h], op)])
  {
    TrackMore(edits, work, i, op);
    Edits.SameHandles(edits, edits[i := edits[i].(size := Edits.Resized(edits[i].size, op))]);
  }

  lemma AddSound(books: Edits.Books, edits: seq<Edits.Edit>, work: map<uint32, Work>, e: Edits.Edit)
    requires EditsSound(books, edits, work) && Edits.Find(edits, e.handle).None?
    ensures EditsSound(Edits.BeginOne(books, e), edits + [e], work[e.handle := Work(e.size, [])])
  {
    TrackNew(edits, work, e);
    Edits.AddBalanced(books, edits, e);
  }

  lemma EndSound(books: Edits.Books, edits: seq<Edits.Edit>, work: map<uint32, Work>, i: nat)
    requires i < |edits| && EditsSound(books, edits, work)
    ensures EditsSound(Edits.CommitOne(books, edits[i]), Edits.Without(edits, i), work)
  {
    Edits.EndBalanced(books, edits, i);
    TrackLess(edits, work, i);
  }

  /** While an object is open for editing, its description shows the size that its operations
      lead to, as far as 32 bits can say it; when all of them were regular, that is the size
      that truncations set and writes extend. */
  lemma EditedSizeServed(v: View, books: Edits.Books, work: map<uint32, Work>, h: uint32)
    requires EditsSound(books, v.edits, work) && h in v.db && Edits.Find(v.edits, h).Some?
    ensures h in work && var w := work[h];
            && ServedInfo(v, h).size == Min(Edits.SizeAfter(w.start, w.ops), 0xFFFF_FFFF)
            && (Edits.AllRegular(w.start, w.ops) ==>
                ServedInfo(v, h).size == Min(Edits.IdealAfter(w.start, w.ops), 0xFFFF_FFFF))
  {
    assert Tracked(v.edits[Edits.Find(v.edits, h).value], work);
    if Edits.AllRegular(work[h].start, work[h].ops) {
      Edits.SizeIsFold(work[h].start, work[h].ops);
    }
  }
}
