/** The device's object database: a table filled by scans, sends and file-system events. */
module Database {
  import opened MtpTypes
  import opened Strings
  import opened Tables
  import opened Scans
  import opened Wire
  import opened Packets

  const STORAGE_FIXED_RAM: uint32 := 3

  const RESPONSE_OK: uint16 := 0x2001
  const RESPONSE_GENERAL_ERROR: uint16 := 0x2002
  const RESPONSE_INVALID_OBJECT_HANDLE: uint16 := 0x2009
  const RESPONSE_DEVICE_BUSY: uint16 := 0x2019

  datatype Event = Added(handle: uint32) | Removed(handle: uint32)

  function AddedAll(rows: seq<Row>): (r: seq<Event>)
    ensures |r| == |rows|
  {
    seq(|rows|, i requires 0 <= i < |rows| => Added(rows[i].handle))
  }

  lemma AddedConcat(before: seq<Event>, a: seq<Row>, b: seq<Row>)
    ensures before + AddedAll(a) + AddedAll(b) == before + AddedAll(a + b)
  {
  }

  /** The scan of the first `i` nodes, done one after the other up to an error. */
  function FirstOf(v: seq<Tree>, i: nat, parent: uint32, storage: uint32, start: uint32): Scan
    requires i <= |v|
  {
    if i == 0 then Scan([], 0, start, false)
    else
      var done := FirstOf(v, i - 1, parent, storage, start);
      if done.threw then done
      else
        var next := ScanTree(v[i - 1], parent, storage, done.next);
        Scan(done.rows + next.rows, done.taken + next.taken, next.next, next.threw)
  }

  /** The entry of a storage's top folder. */
  function TopEntry(top: Tree, display: Name, hidden: bool, storage: uint32): DbEntry
    requires top.Folder?
  {
    FolderEntry(top, if hidden then PARENT_ROOT else 0, storage).(name := if display == [] then top.name else display)
  }

  /** The scan below a storage's top folder, whose own handle is `handle`. */
  function BelowTop(top: Tree, hidden: bool, storage: uint32, handle: uint32): Scan
    requires top.Folder?
  {
    if top.listable then ScanAll(top.children, if hidden then 0 else handle, storage, Succ(handle))
    else Scan([], 0, Succ(handle), true)
  }

  /** Up to the first error, or to the end, that is the whole scan. */
  lemma FirstOfAll(v: seq<Tree>, i: nat, parent: uint32, storage: uint32, start: uint32)
    requires i <= |v|
    ensures FirstOf(v, i, parent, storage, start).threw || i == |v| ==>
      FirstOf(v, i, parent, storage, start) == ScanAll(v, parent, storage, start)
  {
    FirstOfRest(v, i, parent, storage, start);
    if i == |v| {
      assert v[i..] == [];
    }
  }

  lemma {:induction false} FirstOfRest(v: seq<Tree>, i: nat, parent: uint32, storage: uint32, start: uint32)
    requires i <= |v|
    ensures var done := FirstOf(v, i, parent, storage, start);
            ScanAll(v, parent, storage, start) ==
            if done.threw then done
            else var rest := ScanAll(v[i..], parent, storage, done.next);
                 rest.(rows := done.rows + rest.rows, taken := done.taken + rest.taken)
  {
    if i == 0 {
      assert v[0..] == v;
    } else {
      FirstOfRest(v, i - 1, parent, storage, start);
      var done := FirstOf(v, i - 1, parent, storage, start);
      var next := ScanTree(v[i - 1], parent, storage, done.next);
      assert v[i - 1..][0] == v[i - 1] && v[i - 1..][1..] == v[i..];
      assert done.threw || FirstOf(v, i, parent, storage, start) ==
        Scan(done.rows + next.rows, done.taken + next.taken, next.next, next.threw);
      Assoc(done.rows, next.rows, ScanAll(v[i..], parent, storage, next.next).rows);
    }
  }

  class UbuntuMtpDatabase {
    var db: Table
    var counter: uint32
    /** Whether a session is open, so that events have somewhere to go. */
    var localServer: bool
    /** The events sent so far. */
    var events: seq<Event>
    /** How many handles have been taken from the counter. */
    ghost var issued: nat

    /** The table is consistent with the counter, for as long as the counter has not wrapped. */
    ghost predicate Valid()
      reads this
    {
      && counter == (1 + issued) % 0x1_0000_0000
      && (issued < PARENT_ROOT ==> forall h :: h in db ==> 0 < h <= issued)
    }

    constructor ()
      ensures Valid() && db == map[] && issued == 0 && !localServer && events == []
    {
      db, counter, localServer, events, issued := map[], 1, false, [], 0;
    }

    // ---- Scanning ----

    /** What a scan does to the database. */
    twostate predicate Scanned(s: Scan)
      reads this
    {
      && db == InsertAll(old(db), s.rows)
      && counter == s.next && issued == old(issued) + s.taken
      && localServer == old(localServer)
      && events == old(events) + (if localServer then AddedAll(s.rows) else [])
    }

    /** Takes the next handle. */
    method TakeHandle() returns (handle: uint32)
      requires Valid()
      modifies this`counter, this`issued
      ensures handle == old(counter) && counter == Succ(old(counter)) && issued == old(issued) + 1
      ensures old(Valid()) ==> counter == (1 + issued) % 0x1_0000_0000
      ensures Valid() && (issued < PARENT_ROOT ==> handle == issued && handle !in db)
    {
      handle := counter;
      counter := (counter + 1) % 0x1_0000_0000;
      issued := issued + 1;
    }

    /** Reports to the open session, if there is one. */
    method Notify(e: Event)
      requires Valid()
      modifies this`events
      ensures Valid() && events == old(events) + (if localServer then [e] else [])
    {
      if localServer {
        events := events + [e];
      }
    }

    /** Inserts an entry under a handle just taken and reports it to an open session. */
    method AddRow(handle: uint32, entry: DbEntry)
      requires Valid() && (issued < PARENT_ROOT ==> 0 < handle <= issued)
      modifies this`db, this`events
      ensures Valid() && db == Insert(old(db), handle, entry)
      ensures events == old(events) + (if localServer then [Added(handle)] else [])
    {
      db := Insert(db, handle, entry);
      Notify(Added(handle));
    }

    /** A new parent link leads to a reserved handle or to one already taken. */
    ghost predicate KnownParent(parent: uint32)
      reads this
    {
      parent == 0 || parent == PARENT_ROOT || parent < counter
    }

    /** Parents stay smaller than their children while the counter has not wrapped. */
    twostate predicate OrderKept(parent: uint32)
      reads this
    {
      old(Ordered(db) && KnownParent(parent)) && issued < PARENT_ROOT ==> Ordered(db)
    }

    /** While the counter has not wrapped, a handle that is new in the table was not taken
        before. */
    twostate predicate OnlyNewKeys()
      reads this
    {
      old(issued) <= issued && (issued < PARENT_ROOT ==> forall h :: h in db ==> h in old(db) || old(issued) < h)
    }

    method AddFileEntry(p: Tree, parent: uint32, storage: uint32) returns (threw: bool)
      requires Valid()
      modifies this
      ensures Valid()
      ensures Scanned(ScanTree(p, parent, storage, old(counter)))
      ensures p.File? ==>
        db == if p.readable && old(counter) !in old(db) then
                old(db)[old(counter) := DbEntry(storage, p.format, parent, p.size, p.name, p.path, -1, p.modified)]
              else old(db)
      ensures p.Folder? && old(counter) !in old(db) ==>
        && old(counter) in db
        && db[old(counter)] == DbEntry(storage, FORMAT_ASSOCIATION, parent, 0, p.name, p.path, p.watch, p.modified)
      ensures threw == ScanTree(p, parent, storage, old(counter)).threw
      decreases p, 1
    {
      if p.Folder? {
        threw := AddFolder(p, parent, storage);
      } else {
        threw := false;
        var handle := TakeHandle();
        if p.readable {
          AddRow(handle, FileEntry(p, parent, storage));
          assert InsertAll(old(db), [Row(handle, FileEntry(p, parent, storage))]) == db;
        }
      }
    }

    method AddFolder(p: Tree, parent: uint32, storage: uint32) returns (threw: bool)
      requires Valid() && p.Folder?
      modifies this
      ensures Valid()
      ensures Scanned(ScanTree(p, parent, storage, old(counter)))
      ensures threw == ScanTree(p, parent, storage, old(counter)).threw
      ensures old(counter) !in old(db) ==>
        && old(counter) in db
        && db[old(counter)] == DbEntry(storage, FORMAT_ASSOCIATION, parent, 0, p.name, p.path, p.watch, p.modified)
      decreases p, 0
    {
      var handle := TakeHandle();
      ghost var me := Row(handle, FolderEntry(p, parent, storage));
      AddRow(handle, FolderEntry(p, parent, storage));
      ghost var below := if p.listable then ScanAll(p.children, handle, storage, counter)
        else Scan([], 0, counter, true);
      InsertAllConcat(old(db), [me], below.rows);
      AddedConcat(old(events), [me], below.rows);
      assert InsertAll(old(db), [me]) == db;
      InsertAllKeeps(db, below.rows);
      threw := ParseDirectory(p.children, p.listable, handle, storage);
    }

    method ParseDirectory(v: seq<Tree>, listable: bool, parent: uint32, storage: uint32) returns (threw: bool)
      requires Valid()
      modifies this
      ensures Valid()
      ensures var s := if listable then ScanAll(v, parent, storage, old(counter)) else Scan([], 0, old(counter), true);
              threw == s.threw && Scanned(s)
      decreases v
    {
      if !listable {
        return true;
      }
      threw := false;
      ghost var start := counter;
      for i := 0 to |v|
        invariant Valid() && !threw && Scanned(FirstOf(v, i, parent, storage, start))
        invariant !FirstOf(v, i, parent, storage, start).threw
        invariant counter == FirstOf(v, i, parent, storage, start).next
      {
        ghost var done, next := FirstOf(v, i, parent, storage, start), ScanTree(v[i], parent, storage, counter);
        InsertAllConcat(old(db), done.rows, next.rows);
        AddedConcat(old(events), done.rows, next.rows);
        threw := AddFileEntry(v[i], parent, storage);
        if threw {
          FirstOfAll(v, i + 1, parent, storage, start);
          return;
        }
      }
      FirstOfAll(v, |v|, parent, storage, start);
    }

    /** Scans a storage's top folder. Its own entry is added without an event, and a hidden
        one stands outside the tree that it opens. */
    method ReadFiles(root: Option<Tree>, display: Name, storage: uint32, hidden: bool)
      requires Valid()
      modifies this
      ensures Valid()
      ensures if root.None? || root.value.File? then db == old(db) && issued == old(issued) + 1 && events == old(events)
              else
                var s := BelowTop(root.value, hidden, storage, old(counter));
                && db == InsertAll(Insert(old(db), old(counter), TopEntry(root.value, display, hidden, storage)),
                                   s.rows)
                && issued == old(issued) + 1 + s.taken
                && events == old(events) + (if localServer then AddedAll(s.rows) else [])
                && (issued < PARENT_ROOT ==>
                      TopRead(old(db), db, root.value, display, storage, hidden, old(counter)))
      ensures localServer == old(localServer)
      ensures OnlyNewKeys()
      ensures issued < PARENT_ROOT && old(Ordered(db)) ==> Ordered(db)
    {
      var handle := TakeHandle();
      if root.Some? && root.value.Folder? {
        AddTop(handle, TopEntry(root.value, display, hidden, storage));
        ghost var begun := db;
        ReadTop(root.value, hidden, storage, handle);
        if issued < PARENT_ROOT {
          TopIsRead(old(db), begun, db, root.value, display, storage, hidden, handle);
        }
      }
    }

    method AddTop(handle: uint32, entry: DbEntry)
      requires Valid() && (issued < PARENT_ROOT ==> 0 < handle <= issued) && AtTop(entry.parent)
      modifies this`db
      ensures Valid() && db == Insert(old(db), handle, entry)
      ensures old(Ordered(db)) ==> Ordered(db)
    {
      db := Insert(db, handle, entry);
    }

    method ReadTop(top: Tree, hidden: bool, storage: uint32, handle: uint32)
      requires Valid() && top.Folder? && handle in db && counter == Succ(handle)
      modifies this
      ensures Valid() && OnlyNewKeys() && Scanned(BelowTop(top, hidden, storage, handle))
      ensures issued < PARENT_ROOT ==> GrewBelow(old(db), db, if hidden then 0 else handle, storage, handle + 1)
      ensures issued < PARENT_ROOT && old(Ordered(db)) ==> Ordered(db)
    {
      ReadBelow(top.children, top.listable, if hidden then 0 else handle, storage);
    }

    /** Parses a folder whose parent handle is known. */
    method ReadBelow(v: seq<Tree>, listable: bool, parent: uint32, storage: uint32)
      requires Valid() && (parent == 0 || parent in db)
      modifies this
      ensures Valid()
      ensures Scanned(if listable then ScanAll(v, parent, storage, old(counter)) else Scan([], 0, old(counter), true))
      ensures OnlyNewKeys()
      ensures issued < PARENT_ROOT ==> GrewBelow(old(db), db, parent, storage, old(counter))
      ensures issued < PARENT_ROOT && old(Ordered(db)) ==> Ordered(db)
    {
      ghost var s := ScanAll(v, parent, storage, counter);
      if listable && issued + s.taken < PARENT_ROOT {
        ScanAllOrder(db, v, parent, storage, counter);
      }
      var _ := ParseDirectory(v, listable, parent, storage);
    }

    // ---- Sending ----

    /** Reserves an entry for an incoming object; refused at the top of the fixed storage. */
    method BeginSendObject(path: seq<uint8>, format: uint16, parent: uint32, storage: uint32, size: nat, modified: Name)
      returns (handle: uint32)
      requires Valid() && IsName(BaseName(path))
      modifies this`db, this`counter, this`issued
      ensures Valid()
      ensures if storage == STORAGE_FIXED_RAM && parent == 0 then
                handle == INVALID_HANDLE && db == old(db) && counter == old(counter) && issued == old(issued)
              else
                && handle == old(counter) && issued == old(issued) + 1 && counter == Succ(handle)
                && db == Insert(old(db), handle,
                                DbEntry(storage, format, parent, size, BaseName(path), path, -1, modified))
                && (issued < PARENT_ROOT ==>
                    handle == issued && handle !in old(db) && handle != INVALID_HANDLE && handle != 0)
      ensures OrderKept(parent)
    {
      if storage == STORAGE_FIXED_RAM && parent == 0 {
        return INVALID_HANDLE;
      }
      handle := counter;
      db := Insert(db, handle, DbEntry(storage, format, parent, size, BaseName(path), path, -1, modified));
      counter := (counter + 1) % 0x1_0000_0000;
      issued := issued + 1;
    }

    /** Ends a send or an edit: a failure takes the entry back, a success of a file takes over
        the size on disk, if that can be read. */
    method EndSendObject(handle: uint32, format: uint16, succeeded: bool, fileSize: Option<nat>)
      requires Valid()
      modifies this`db
      ensures Valid()
      ensures db == if !succeeded then old(db) - {handle}
                    else if format != FORMAT_ASSOCIATION && handle in old(db) && fileSize.Some? then
                      old(db)[handle := old(db)[handle].(size := fileSize.value)]
                    else old(db)
      ensures old(Ordered(db)) ==> Ordered(db)
    {
      if !succeeded {
        db := db - {handle};
      } else if format != FORMAT_ASSOCIATION && handle in db && fileSize.Some? {
        db := db[handle := db[handle].(size := fileSize.value)];
      }
    }

    // ---- Removing and moving ----

    /** Removes an entry and its direct children. The response is an error also when the entry
        was the only one. */
    method DeleteFile(handle: uint32) returns (code: uint16)
      requires Valid()
      modifies this`db
      ensures Valid()
      ensures db == Deleted(old(db), handle)
      ensures if handle == 0 || handle == PARENT_ROOT || handle !in old(db) then db == old(db)
              else
                && (forall k :: k in db <==> k in old(db) && k != handle && old(db)[k].parent != handle)
                && (forall k :: k in db ==> db[k] == old(db)[k])
      ensures issued < PARENT_ROOT && handle in old(db) ==>
        forall x :: Reachable(db, x) <==> exists chain :: IsChain(old(db), chain) && chain[0] == x && handle !in chain
      ensures code == if handle == 0 || handle == PARENT_ROOT then RESPONSE_INVALID_OBJECT_HANDLE
                      else if handle !in old(db) || |old(db)| == 1 then RESPONSE_GENERAL_ERROR
                      else RESPONSE_OK
      ensures old(Ordered(db)) ==> Ordered(db)
    {
      var before := |db|;
      if handle == 0 || handle == PARENT_ROOT {
        return RESPONSE_INVALID_OBJECT_HANDLE;
      }
      if handle !in db {
        return RESPONSE_GENERAL_ERROR;
      }
      ghost var start := db;
      db := db - {handle};
      if before > 1 {
        EraseWhere(0, handle);
        WithoutErased(start, handle);
        code := RESPONSE_OK;
      } else {
        OnlyEntry(start, handle);
        code := RESPONSE_GENERAL_ERROR;
      }
      if issued < PARENT_ROOT {
        DeletionCuts(start, db, handle);
      }
    }

    /** Walks the table and erases what lies below a parent or, if `parent` is 0, on a storage. */
    method EraseWhere(storage: uint32, parent: uint32)
      modifies this`db
      ensures db == old(db) - Doomed(old(db), storage, parent)
    {
      ghost var start := db;
      ghost var doomed := Doomed(db, storage, parent);
      var keys := AscendingKeys(db.Keys);
      assert KeysOf(db, keys) by {
        assert forall k :: k in keys <==> k in db.Keys;
      }
      for i := 0 to |keys|
        invariant db == Erase(start, keys[..i], doomed)
      {
        EraseStep(start, keys, i, doomed);
        if if parent == 0 then db[keys[i]].storage == storage else db[keys[i]].parent == parent {
          db := db - {keys[i]};
        }
      }
      assert keys[..|keys|] == keys;
      EraseEnds(start, keys, doomed);
    }

    /** Changes an entry's name and path, when the file could be renamed. */
    method SetFileName(handle: uint32, name: Name, renamed: Option<seq<uint8>>) returns (code: uint16)
      requires Valid()
      modifies this`db
      ensures Valid()
      ensures if handle == 0 || handle == PARENT_ROOT then code == RESPONSE_INVALID_OBJECT_HANDLE && db == old(db)
              else if handle !in old(db) then code == RESPONSE_GENERAL_ERROR && db == old(db)
              else if renamed.None? then code == RESPONSE_DEVICE_BUSY && db == old(db)
              else code == RESPONSE_OK && db == old(db)[handle := old(db)[handle].(name := name, path := renamed.value)]
      ensures old(Ordered(db)) ==> Ordered(db)
    {
      if handle == 0 || handle == PARENT_ROOT {
        return RESPONSE_INVALID_OBJECT_HANDLE;
      }
      if handle !in db {
        return RESPONSE_GENERAL_ERROR;
      }
      if renamed.None? {
        return RESPONSE_DEVICE_BUSY;
      }
      db := db[handle := db[handle].(name := name, path := renamed.value)];
      code := RESPONSE_OK;
    }

    method MoveFile(handle: uint32, newParent: uint32) returns (code: uint16)
      requires Valid()
      modifies this`db
      ensures Valid()
      ensures if handle == 0 || handle == PARENT_ROOT || handle !in old(db) then
                code == RESPONSE_INVALID_OBJECT_HANDLE && db == old(db)
              else code == RESPONSE_OK && db == old(db)[handle := old(db)[handle].(parent := newParent)]
    {
      if handle == 0 || handle == PARENT_ROOT || handle !in db {
        return RESPONSE_INVALID_OBJECT_HANDLE;
      }
      db := db[handle := db[handle].(parent := newParent)];
      code := RESPONSE_OK;
    }

    method RemoveStorage(storage: uint32)
      requires Valid()
      modifies this`db
      ensures Valid()
      ensures forall h :: h in db <==> h in old(db) && old(db)[h].storage != storage
      ensures forall h :: h in db ==> db[h] == old(db)[h]
      ensures old(Ordered(db)) ==> Ordered(db)
    {
      EraseWhere(storage, 0);
    }

    // ---- Sessions and file-system events ----

    method SetSession(open: bool)
      requires Valid()
      modifies this`localServer
      ensures Valid() && localServer == open
    {
      localServer := open;
    }

    /** The first entry, in ascending order, whose watch is `watch`. */
    method FindWatch(watch: int) returns (found: Option<uint32>)
      ensures found == FirstWatch(db, watch)
      ensures match found
              case None => forall k :: k in db ==> db[k].watch != watch
              case Some(h) => h in db && db[h].watch == watch && forall k :: k in db && db[k].watch == watch ==> h <= k
    {
      FirstWatchExactly(db, watch);
      var keys := AscendingKeys(db.Keys);
      for i := 0 to |keys|
        invariant FirstWatchIn(db, keys, watch) == FirstWatchIn(db, keys[i..], watch)
      {
        assert keys[i] in keys && keys[i] in db.Keys;
        assert keys[i..][1..] == keys[i + 1..];
        if db[keys[i]].watch == watch {
          return Some(keys[i]);
        }
      }
      found := None;
    }

    method FindPath(path: seq<uint8>) returns (found: Option<uint32>)
      ensures found == FirstPath(db, path)
      ensures match found
              case None => forall k :: k in db ==> db[k].path != path
              case Some(h) => h in db && db[h].path == path && forall k :: k in db && db[k].path == path ==> h <= k
    {
      FirstPathExactly(db, path);
      var keys := AscendingKeys(db.Keys);
      for i := 0 to |keys|
        invariant FirstPathIn(db, keys, path) == FirstPathIn(db, keys[i..], path)
      {
        assert keys[i] in keys && keys[i] in db.Keys;
        assert keys[i..][1..] == keys[i + 1..];
        if db[keys[i]].path == path {
          return Some(keys[i]);
        }
      }
      found := None;
    }

    /** Something was created at `p.path`, in the folder under watch `watch`. It is scanned
        unless the table has an entry with its path; a folder whose parent is the reserved
        root value stands for the top of its storage. */
    method OnCreate(watch: int, p: Tree) returns (threw: bool)
      requires Valid()
      modifies this
      ensures Valid()
      ensures var parent := FirstWatch(old(db), watch);
              if parent.None? || FirstPath(old(db), p.path).Some? then
                !threw && Scanned(Scan([], 0, old(counter), false))
              else var s := ScanTree(p, BelowWatched(old(db), parent.value), old(db)[parent.value].storage,
                                     old(counter));
                   && Scanned(s) && threw == s.threw
                   && (issued < PARENT_ROOT ==>
                         GrewBelow(old(db), db,
                                   if old(db)[parent.value].parent == PARENT_ROOT then 0 else parent.value,
                                   old(db)[parent.value].storage, old(counter)))
      ensures OnlyNewKeys()
      ensures issued < PARENT_ROOT && old(Ordered(db)) ==> Ordered(db)
    {
      threw := false;
      var parent := FindWatch(watch);
      if parent.None? {
        return;
      }
      var known := FindPath(p.path);
      if known.None? {
        threw := AddBelow(p, BelowWatched(db, parent.value), db[parent.value].storage);
      }
    }

    method AddBelow(p: Tree, parent: uint32, storage: uint32) returns (threw: bool)
      requires Valid() && (parent == 0 || parent in db)
      modifies this
      ensures Valid()
      ensures Scanned(ScanTree(p, parent, storage, old(counter)))
      ensures threw == ScanTree(p, parent, storage, old(counter)).threw
      ensures OnlyNewKeys()
      ensures issued < PARENT_ROOT ==> GrewBelow(old(db), db, parent, storage, old(counter))
      ensures issued < PARENT_ROOT && old(Ordered(db)) ==> Ordered(db)
    {
      if issued + ScanTree(p, parent, storage, counter).taken < PARENT_ROOT {
        ScanOrder(db, p, parent, storage, counter);
      }
      threw := AddFileEntry(p, parent, storage);
    }

    /** Something with this path was written to: every entry with the path takes the size that the
        file has now, unless it cannot be told. */
    method OnModify(watch: int, path: seq<uint8>, fileSize: Option<nat>)
      requires Valid()
      modifies `db
      ensures Valid()
      ensures if FirstWatch(old(db), watch).None? then db == old(db) else WroteTo(old(db), db, path, fileSize)
      ensures old(Ordered(db)) ==> Ordered(db)
    {
      var parent := FindWatch(watch);
      if parent.None? {
        return;
      }
      TakeSize(path, fileSize, AscendingKeys(db.Keys));
      WroteKeepsOrder(old(db), db, path, fileSize);
    }

    method TakeSize(path: seq<uint8>, fileSize: Option<nat>, keys: seq<uint32>)
      requires forall k :: k in keys <==> k in db
      modifies `db
      ensures WroteTo(old(db), db, path, fileSize)
    {
      for i := 0 to |keys|
        invariant db == Resize(old(db), keys[..i], path, fileSize)
      {
        ResizeStep(old(db), keys, i, path, fileSize);
        if db[keys[i]].path == path && fileSize.Some? {
          db := db[keys[i] := db[keys[i]].(size := fileSize.value)];
        }
      }
      assert keys[..|keys|] == keys;
      ResizeAll(old(db), keys, path, fileSize);
    }

    /** Something with this path was deleted: its first entry goes, with a notice to an open
        session. */
    method OnDelete(watch: int, path: seq<uint8>)
      requires Valid()
      modifies this`db, this`events
      ensures Valid()
      ensures var found := FirstPath(old(db), path);
              if FirstWatch(old(db), watch).None? || found.None? then db == old(db) && events == old(events)
              else
                && db == Deleted(old(db), found.value)
                && (found.value != PARENT_ROOT && found.value != 0 ==>
                      forall k :: k in db <==> k in old(db) && k != found.value && old(db)[k].parent != found.value)
                && (forall k :: k in db ==> k in old(db) && db[k] == old(db)[k])
                && events == old(events) + (if localServer then [Removed(found.value)] else [])
      ensures old(Ordered(db)) ==> Ordered(db)
    {
      var parent := FindWatch(watch);
      if parent.None? {
        return;
      }
      var found := FindPath(path);
      if found.Some? {
        var _ := DeleteFile(found.value);
        Notify(Removed(found.value));
      }
    }

    // ---- Queries ----

    /** The handles of a storage below one parent, in ascending order. */
    method GetObjectList(storage: uint32, format: uint16, parent: uint32) returns (list: seq<uint32>)
      ensures list == Listing(db, storage, format, parent) && IsListing(db, storage, format, parent, list)
    {
      var effective := if parent == PARENT_ROOT then 0 else parent;
      list := [];
      var keys := AscendingKeys(db.Keys);
      assert forall h :: h in keys ==> h in db.Keys;
      for i := 0 to |keys|
        invariant list == Pick(db, keys[..i], storage, format, effective)
      {
        PickStep(db, keys, i, storage, format, effective);
        if db[keys[i]].storage == storage && db[keys[i]].parent == effective {
          if format == 0 || db[keys[i]].format == format {
            list := list + [keys[i]];
          }
        }
      }
      assert keys[..|keys|] == keys;
      ListingSelects(db, storage, format, parent);
    }
  }

  /** A scan below a known parent adds handles from `next` on, and keeps an ordered table so. */
  /** The entries that were there stay; the new ones have handles from `from` on, are on the storage,
      and stand each below `parent` or below an earlier new one. */
  ghost predicate GrewBelow(was: Table, now: Table, parent: uint32, storage: uint32, from: nat) {
    && (forall h :: h in was ==> h in now && now[h] == was[h])
    && (forall h :: h in now && h !in was ==>
          from <= h && now[h].storage == storage && (now[h].parent == parent || from <= now[h].parent < h))
  }

  /** A storage's top folder was read under the handle `top`: its entry stands at the top of the tree,
      or outside it if it is hidden, and what is in it below the entry, or at the top. */
  ghost predicate TopRead(was: Table, now: Table, root: Tree, display: Name, storage: uint32, hidden: bool,
                          top: uint32)
    requires root.Folder?
  {
    && top in now
    && now[top] == DbEntry(storage, FORMAT_ASSOCIATION, if hidden then PARENT_ROOT else 0, 0,
                           if display == [] then root.name else display, root.path, root.watch, root.modified)
    && (forall h :: h in was ==> h in now && now[h] == was[h])
    && (forall h :: h in now && h !in was && h != top ==>
          && top < h && now[h].storage == storage
          && (now[h].parent == (if hidden then 0 else top) || top < now[h].parent < h))
  }

  lemma TopIsRead(was: Table, begun: Table, now: Table, root: Tree, display: Name, storage: uint32, hidden: bool,
                  top: uint32)
    requires root.Folder? && top !in was && begun == was[top := TopEntry(root, display, hidden, storage)]
    requires GrewBelow(begun, now, if hidden then 0 else top, storage, top + 1)
    ensures TopRead(was, now, root, display, storage, hidden, top)
  {
  }

  lemma ScanOrder(t: Table, p: Tree, parent: uint32, storage: uint32, next: uint32)
    requires (forall h :: h in t ==> h < next) && (parent == 0 || parent in t) && 0 < next
    requires next + ScanTree(p, parent, storage, next).taken <= PARENT_ROOT
    ensures var t' := InsertAll(t, ScanTree(p, parent, storage, next).rows);
            GrewBelow(t, t', parent, storage, next) && (Ordered(t) ==> Ordered(t'))
  {
    var s := ScanTree(p, parent, storage, next);
    ScanTreeNumbers(p, parent, storage, next);
    RowsKeepOrder(t, s.rows, parent, storage, next, s.next);
  }

  lemma ScanAllOrder(t: Table, ts: seq<Tree>, parent: uint32, storage: uint32, next: uint32)
    requires (forall h :: h in t ==> h < next) && (parent == 0 || parent in t) && 0 < next
    requires next + ScanAll(ts, parent, storage, next).taken <= PARENT_ROOT
    ensures var t' := InsertAll(t, ScanAll(ts, parent, storage, next).rows);
            GrewBelow(t, t', parent, storage, next) && (Ordered(t) ==> Ordered(t'))
  {
    var s := ScanAll(ts, parent, storage, next);
    ScanAllNumbers(ts, parent, storage, next);
    RowsKeepOrder(t, s.rows, parent, storage, next, s.next);
  }

  lemma RowsKeepOrder(t: Table, rows: seq<Row>, parent: uint32, storage: uint32, next: uint32, to: nat)
    requires (forall h :: h in t ==> h < next) && (parent == 0 || parent in t) && 0 < next
    requires Numbered(rows, parent, next, to) && forall r :: r in rows ==> r.entry.storage == storage
    ensures var t' := InsertAll(t, rows); GrewBelow(t, t', parent, storage, next) && (Ordered(t) ==> Ordered(t'))
  {
    InsertFresh(t, rows, next - 1);
    if Ordered(t) {
      ScanKeepsOrder(t, rows, parent, next, to);
    }
  }

  /** What deleting a handle leaves; the reserved ones cannot be deleted. */
  function Deleted(t: Table, h: uint32): Table {
    if h == 0 || h == PARENT_ROOT || h !in t then t else Without(t, h)
  }

  lemma DeletionCuts(t: Table, t': Table, h: uint32)
    requires Proper(t) && h != 0 && h != PARENT_ROOT
    requires forall k :: k in t' <==> k in t && k != h && t[k].parent != h
    requires forall k :: k in t' ==> t'[k] == t[k]
    ensures forall x :: Reachable(t', x) <==> exists chain :: IsChain(t, chain) && chain[0] == x && h !in chain
  {
    forall x
      ensures Reachable(t', x) <==> exists chain :: IsChain(t, chain) && chain[0] == x && h !in chain
    {
      DeleteCutsSubtree(t, t', h, x);
    }
  }

  function FirstWatchIn(t: Table, keys: seq<uint32>, watch: int): (r: Option<uint32>)
    ensures r.Some? ==> r.value in t
  {
    if keys == [] then None
    else if keys[0] in t && t[keys[0]].watch == watch then Some(keys[0])
    else FirstWatchIn(t, keys[1..], watch)
  }

  /** The first of the keys whose entry has this watch; of all keys in order, the smallest. */
  lemma {:induction false} FirstWatchIsFirst(t: Table, keys: seq<uint32>, watch: int)
    requires Ascending(keys) && forall k :: k in keys ==> k in t
    ensures match FirstWatchIn(t, keys, watch)
            case None => forall k :: k in keys ==> t[k].watch != watch
            case Some(h) => h in keys && t[h].watch == watch && forall k :: k in keys && t[k].watch == watch ==> h <= k
  {
    if keys != [] && t[keys[0]].watch != watch {
      FirstWatchIsFirst(t, keys[1..], watch);
    }
  }

  function FirstWatch(t: Table, watch: int): Option<uint32> { FirstWatchIn(t, AscendingKeys(t.Keys), watch) }

  lemma FirstWatchExactly(t: Table, watch: int)
    ensures match FirstWatch(t, watch)
            case None => forall k :: k in t ==> t[k].watch != watch
            case Some(h) => h in t && t[h].watch == watch && forall k :: k in t && t[k].watch == watch ==> h <= k
  {
    var keys := AscendingKeys(t.Keys);
    assert forall k :: k in keys <==> k in t.Keys;
    FirstWatchIsFirst(t, keys, watch);
  }

  function FirstPathIn(t: Table, keys: seq<uint32>, path: seq<uint8>): (r: Option<uint32>)
    ensures r.Some? ==> r.value in t
  {
    if keys == [] then None
    else if keys[0] in t && t[keys[0]].path == path then Some(keys[0])
    else FirstPathIn(t, keys[1..], path)
  }

  /** The first of the keys whose entry has this path; of all keys in order, the smallest. */
  lemma {:induction false} FirstPathIsFirst(t: Table, keys: seq<uint32>, path: seq<uint8>)
    requires Ascending(keys) && forall k :: k in keys ==> k in t
    ensures match FirstPathIn(t, keys, path)
            case None => forall k :: k in keys ==> t[k].path != path
            case Some(h) => h in keys && t[h].path == path && forall k :: k in keys && t[k].path == path ==> h <= k
  {
    if keys != [] && t[keys[0]].path != path {
      FirstPathIsFirst(t, keys[1..], path);
    }
  }

  function FirstPath(t: Table, path: seq<uint8>): Option<uint32> { FirstPathIn(t, AscendingKeys(t.Keys), path) }

  lemma FirstPathExactly(t: Table, path: seq<uint8>)
    ensures match FirstPath(t, path)
            case None => forall k :: k in t ==> t[k].path != path
            case Some(h) => h in t && t[h].path == path && forall k :: k in t && t[k].path == path ==> h <= k
  {
    var keys := AscendingKeys(t.Keys);
    assert forall k :: k in keys <==> k in t.Keys;
    FirstPathIsFirst(t, keys, path);
  }

  /** The parent of what appears in a watched folder. */
  function BelowWatched(t: Table, h: uint32): uint32
    requires h in t
  {
    if t[h].parent == PARENT_ROOT then 0 else h
  }

  /** The handles that a listing shows. */
  function Listing(t: Table, storage: uint32, format: uint16, parent: uint32): seq<uint32> {
    assert forall k :: k in AscendingKeys(t.Keys) ==> k in t.Keys;
    Pick(t, AscendingKeys(t.Keys), storage, format, Effective(parent))
  }

  /** A listing shows exactly the entries selected. */
  lemma ListingSelects(t: Table, storage: uint32, format: uint16, parent: uint32)
    ensures IsListing(t, storage, format, parent, Listing(t, storage, format, parent))
  {
    var keys := AscendingKeys(t.Keys);
    assert forall k :: k in keys <==> k in t.Keys;
    PickSelects(t, keys, storage, format, Effective(parent));
  }

  /** Every entry with this path has the new size, if it is known, and all else is as it was. */
  ghost predicate WroteTo(was: Table, now: Table, path: seq<uint8>, fileSize: Option<nat>) {
    && now.Keys == was.Keys
    && forall h :: h in was ==>
         now[h] == if was[h].path == path && fileSize.Some? then was[h].(size := fileSize.value) else was[h]
  }

  lemma WroteKeepsOrder(was: Table, now: Table, path: seq<uint8>, fileSize: Option<nat>)
    requires WroteTo(was, now, path, fileSize)
    ensures Ordered(was) ==> Ordered(now)
    ensures forall h :: h in now <==> h in was
  {
    forall h | h in now && Ordered(was)
      ensures AtTop(now[h].parent) || now[h].parent < h
    {
      assert h in was && now[h].parent == was[h].parent;
    }
  }

  /** One entry after the other takes the new size, if it has the path. */
  function Resize(t: Table, keys: seq<uint32>, path: seq<uint8>, fileSize: Option<nat>): Table {
    if keys == [] then t
    else
      var h := keys[|keys| - 1];
      var rest := Resize(t, keys[..|keys| - 1], path, fileSize);
      if h in rest && rest[h].path == path && fileSize.Some? then rest[h := rest[h].(size := fileSize.value)] else rest
  }

  lemma {:induction false} ResizeKeeps(t: Table, keys: seq<uint32>, path: seq<uint8>, fileSize: Option<nat>)
    ensures var now := Resize(t, keys, path, fileSize);
            && now.Keys == t.Keys
            && forall h :: h in t ==>
                 now[h] == if h in keys && t[h].path == path && fileSize.Some?
                           then t[h].(size := fileSize.value) else t[h]
  {
    if keys != [] {
      var last := |keys| - 1;
      ResizeKeeps(t, keys[..last], path, fileSize);
      assert keys == keys[..last] + [keys[last]];
    }
  }

  lemma ResizeStep(t: Table, keys: seq<uint32>, i: nat, path: seq<uint8>, fileSize: Option<nat>)
    requires i < |keys| && forall k :: k in keys ==> k in t
    ensures var now, h := Resize(t, keys[..i], path, fileSize), keys[i];
            && h in now
            && Resize(t, keys[..i + 1], path, fileSize) ==
               if now[h].path == path && fileSize.Some? then now[h := now[h].(size := fileSize.value)] else now
  {
    ResizeKeeps(t, keys[..i], path, fileSize);
    assert keys[i] in keys && keys[..i + 1][..i] == keys[..i];
  }

  lemma ResizeAll(t: Table, keys: seq<uint32>, path: seq<uint8>, fileSize: Option<nat>)
    requires forall k :: k in keys <==> k in t
    ensures WroteTo(t, Resize(t, keys, path, fileSize), path, fileSize)
  {
    ResizeKeeps(t, keys, path, fileSize);
  }

  ghost predicate KeysOf(t: Table, keys: seq<uint32>) {
    Ascending(keys) && forall k :: k in keys <==> k in t
  }

  function Doomed(t: Table, storage: uint32, parent: uint32): set<uint32> {
    set k | k in t && if parent == 0 then t[k].storage == storage else t[k].parent == parent
  }

  function Erase(t: Table, keys: seq<uint32>, doomed: set<uint32>): Table {
    if keys == [] then t
    else
      var last := |keys| - 1;
      var rest := Erase(t, keys[..last], doomed);
      if keys[last] in doomed then rest - {keys[last]} else rest
  }

  lemma {:induction false} EraseKeeps(t: Table, keys: seq<uint32>, doomed: set<uint32>, k: uint32)
    ensures k in Erase(t, keys, doomed) <==> k in t && !(k in keys && k in doomed)
    ensures k in Erase(t, keys, doomed) ==> Erase(t, keys, doomed)[k] == t[k]
  {
    if keys != [] {
      var last := |keys| - 1;
      EraseKeeps(t, keys[..last], doomed, k);
      assert keys == keys[..last] + [keys[last]];
    }
  }

  lemma EraseStep(t: Table, keys: seq<uint32>, i: nat, doomed: set<uint32>)
    requires i < |keys| && KeysOf(t, keys)
    ensures var rest := Erase(t, keys[..i], doomed);
            && keys[i] in t && keys[i] in rest && rest[keys[i]] == t[keys[i]]
            && Erase(t, keys[..i + 1], doomed) == if keys[i] in doomed then rest - {keys[i]} else rest
  {
    assert keys[i] in keys;
    EraseKeeps(t, keys[..i], doomed, keys[i]);
    assert keys[..i + 1][..i] == keys[..i];
  }

  lemma EraseEnds(t: Table, keys: seq<uint32>, doomed: set<uint32>)
    requires KeysOf(t, keys)
    ensures Erase(t, keys, doomed) == t - doomed
  {
    forall k
      ensures k in Erase(t, keys, doomed) <==> k in t && k !in doomed
      ensures k in Erase(t, keys, doomed) ==> Erase(t, keys, doomed)[k] == t[k]
    {
      EraseKeeps(t, keys, doomed, k);
    }
  }

  lemma WithoutErased(t: Table, h: uint32)
    requires h != 0
    ensures (t - {h}) - Doomed(t - {h}, 0, h) == Without(t, h)
  {
  }

  /** Those of `keys` that a listing selects, in order. */
  function Pick(t: Table, keys: seq<uint32>, storage: uint32, format: uint16, parent: uint32): seq<uint32>
    requires forall k :: k in keys ==> k in t
  {
    if keys == [] then []
    else
      var last := |keys| - 1;
      Pick(t, keys[..last], storage, format, parent) +
      if Selected(t[keys[last]], storage, format, parent) then [keys[last]] else []
  }

  lemma PickStep(t: Table, keys: seq<uint32>, i: nat, storage: uint32, format: uint16, parent: uint32)
    requires i < |keys| && forall k :: k in keys ==> k in t
    ensures (forall k :: k in keys[..i] ==> k in t) && (forall k :: k in keys[..i + 1] ==> k in t)
    ensures Pick(t, keys[..i + 1], storage, format, parent) ==
            Pick(t, keys[..i], storage, format, parent) + if Selected(t[keys[i]], storage, format, parent) then
              [keys[i]] else []
  {
    assert keys[..i + 1][..i] == keys[..i];
  }

  lemma PickSelects(t: Table, keys: seq<uint32>, storage: uint32, format: uint16, parent: uint32)
    requires Ascending(keys) && forall k :: k in keys ==> k in t
    ensures var list := Pick(t, keys, storage, format, parent);
            Ascending(list) && forall h :: h in list <==> h in keys && Selected(t[h], storage, format, parent)
  {
    forall h
      ensures h in Pick(t, keys, storage, format, parent) <==> h in keys && Selected(t[h], storage, format, parent)
    {
      PickedExactly(t, keys, storage, format, parent, h);
    }
    PickedInOrder(t, keys, storage, format, parent);
  }

  lemma {:induction false} PickedExactly(t: Table, keys: seq<uint32>, storage: uint32, format: uint16, parent: uint32,
                                         h: uint32)
    requires forall k :: k in keys ==> k in t
    ensures h in Pick(t, keys, storage, format, parent) <==> h in keys && Selected(t[h], storage, format, parent)
  {
    if keys != [] {
      var last := |keys| - 1;
      PickedExactly(t, keys[..last], storage, format, parent, h);
      assert keys == keys[..last] + [keys[last]];
    }
  }

  lemma {:induction false} PickedInOrder(t: Table, keys: seq<uint32>, storage: uint32, format: uint16, parent: uint32)
    requires Ascending(keys) && forall k :: k in keys ==> k in t
    ensures Ascending(Pick(t, keys, storage, format, parent))
  {
    if keys != [] {
      var last := |keys| - 1;
      var list := Pick(t, keys[..last], storage, format, parent);
      PickedInOrder(t, keys[..last], storage, format, parent);
      forall i | 0 <= i < |list|
        ensures list[i] < keys[last]
      {
        PickedExactly(t, keys[..last], storage, format, parent, list[i]);
      }
    }
  }

  lemma OnlyEntry(t: Table, h: uint32)
    requires h in t && |t| <= 1
    ensures t - {h} == Without(t, h)
  {
    assert |t.Keys| <= 1;
    forall k | k in t
      ensures k == h
    {
      if k != h {
        assert {h, k} <= t.Keys && |{h, k}| == 2;
        SubsetSize({h, k}, t.Keys);
      }
    }
  }

  lemma {:induction false} SubsetSize<T>(a: set<T>, b: set<T>)
    requires a <= b
    ensures |a| <= |b|
  {
    if a != {} {
      var x :| x in a;
      SubsetSize(a - {x}, b - {x});
    }
  }

  /** The last component of a path. */
  function BaseName(path: seq<uint8>): seq<uint8> {
    if path == [] then []
    else if path[|path| - 1] == 0x2F then []
    else BaseName(path[..|path| - 1]) + [path[|path| - 1]]
  }

  // ---- Whole runs ----

  /** A path whose last component is a name. */
  type NamedPath = p: seq<uint8> | IsName(BaseName(p)) witness []

  /** What can happen to the database. */
  datatype Action =
    | AddStorage(root: Option<Tree>, display: Name, storage: uint32, hidden: bool)
    | RemoveStorage(storage: uint32)
    | Create(watch: int, found: Tree)
    | Vanish(watch: int, path: seq<uint8>)
    | Modify(watch: int, path: seq<uint8>, fileSize: Option<nat>)
    | BeginSend(target: NamedPath, format: uint16, parent: uint32, storage: uint32, size: nat, modified: Name)
    | EndSend(handle: uint32, format: uint16, succeeded: bool, fileSize: Option<nat>)
    | Rename(handle: uint32, name: Name, renamed: Option<seq<uint8>>)
    | Move(handle: uint32, newParent: uint32)
    | Delete(handle: uint32)
    | Session(open: bool)

  method Perform(d: UbuntuMtpDatabase, a: Action)
    requires d.Valid()
    modifies d
    ensures d.Valid() && d.OnlyNewKeys()
    ensures !a.Move? && d.issued < PARENT_ROOT && old(Ordered(d.db)) ==> Ordered(d.db)
  {
    match a
    case AddStorage(root, display, storage, hidden) => d.ReadFiles(root, display, storage, hidden);
    case RemoveStorage(storage) => d.RemoveStorage(storage);
    case Create(watch, found) => var _ := d.OnCreate(watch, found);
    case Vanish(watch, path) => d.OnDelete(watch, path);
    case Modify(watch, path, fileSize) => d.OnModify(watch, path, fileSize);
    case BeginSend(target, format, parent, storage, size, modified) =>
      if parent == 0 || parent in d.db {
        assert d.issued < PARENT_ROOT - 1 ==> d.KnownParent(parent);
        var _ := d.BeginSendObject(target, format, parent, storage, size, modified);
      }
    case EndSend(handle, format, succeeded, fileSize) => d.EndSendObject(handle, format, succeeded, fileSize);
    case Rename(handle, name, renamed) => var _ := d.SetFileName(handle, name, renamed);
    case Move(handle, newParent) => var _ := d.MoveFile(handle, newParent);
    case Delete(handle) => var _ := d.DeleteFile(handle);
    case Session(open) => d.SetSession(open);
  }

  /** The handle that the counter gives after `issued` others. */
  function HandleNumber(issued: nat): uint32 { (1 + issued) % 0x1_0000_0000 }

  /** The next handle is a new one exactly up to the 2^32nd, and none is reserved exactly while
      fewer than 2^32 - 1 have been taken. */
  lemma NextHandleIsNewExactly(issued: nat)
    ensures (forall i: nat :: i < issued ==> HandleNumber(i) != HandleNumber(issued)) <==> issued < 0x1_0000_0000
    ensures (forall i: nat :: i < issued ==> !AtTop(HandleNumber(i))) <==> issued < PARENT_ROOT
  {
    if issued >= 0x1_0000_0000 {
      assert HandleNumber(issued - 0x1_0000_0000) == HandleNumber(issued);
    }
    if issued >= PARENT_ROOT {
      assert AtTop(HandleNumber(PARENT_ROOT as nat - 1));
    }
  }

  /** The table at one point of a run, and how many handles were taken by then. */
  datatype Moment = Moment(db: Table, issued: nat)

  /** From one moment to a later one only handles taken in between are new. */
  ghost predicate Succeeds(was: Moment, now: Moment) {
    was.issued <= now.issued && (now.issued < PARENT_ROOT ==> forall h :: h in now.db ==> h in was.db || was.issued < h)
  }

  /** Each moment of a run follows from the one before. */
  ghost predicate History(log: seq<Moment>) {
    forall i :: 0 <= i < |log| - 1 ==> Succeeds(log[i], log[i + 1])
  }

  /** Handles are never reused: one that was taken and is not in the table at some moment is
      in it at no later moment, for as long as the counter has not wrapped. */
  lemma {:induction false} GoneForGood(log: seq<Moment>, i: nat, j: nat, h: uint32)
    requires History(log) && i <= j < |log| && log[j].issued < PARENT_ROOT
    requires h <= log[i].issued && h !in log[i].db
    ensures h !in log[j].db && log[i].issued <= log[j].issued
    decreases j
  {
    if i < j {
      assert Succeeds(log[j - 1], log[j]);
      GoneForGood(log, i, j - 1, h);
    }
  }

  ghost predicate HandlesUnique(log: seq<Moment>) {
    forall i, j, h: uint32 :: 0 <= i <= j < |log| && h <= log[i].issued && h !in log[i].db ==> h !in log[j].db
  }

  /** Over every run in which the counter does not wrap, every handle in the table has been
      taken from the counter and none is reserved, and a handle that is gone never returns. In a
      run without a move every walk towards the root ends. */
  method PerformAll(d: UbuntuMtpDatabase, actions: seq<Action>) returns (ghost log: seq<Moment>)
    requires d.Valid() && d.db == map[]
    modifies d
    ensures d.Valid() && |log| == |actions| + 1
    ensures log[0] == Moment(map[], old(d.issued)) && log[|actions|] == Moment(d.db, d.issued) && History(log)
    ensures d.issued < PARENT_ROOT ==> Proper(d.db) && (forall h :: h in d.db ==> h < d.counter) && HandlesUnique(log)
    ensures d.issued < PARENT_ROOT && (forall a :: a in actions ==> !a.Move?) ==> Sound(d.db, d.counter)
  {
    log := [Moment(d.db, d.issued)];
    for i := 0 to |actions|
      invariant d.Valid() && |log| == i + 1 && log[0] == Moment(map[], old(d.issued))
      invariant log[i] == Moment(d.db, d.issued)
      invariant History(log)
      invariant d.issued < PARENT_ROOT && (forall a :: a in actions ==> !a.Move?) ==> Ordered(d.db)
    {
      assert actions[i] in actions;
      Perform(d, actions[i]);
      assert Succeeds(log[i], Moment(d.db, d.issued));
      log := log + [Moment(d.db, d.issued)];
    }
    if d.issued < PARENT_ROOT {
      AllUnique(log);
      if Ordered(d.db) {
        OrderedIsSound(d.db, d.counter, d.issued);
      }
    }
  }

  lemma AllUnique(log: seq<Moment>)
    requires History(log) && log != [] && log[|log| - 1].issued < PARENT_ROOT
    ensures HandlesUnique(log)
  {
    forall i, j, h: uint32 | 0 <= i <= j < |log| && h <= log[i].issued && h !in log[i].db
      ensures h !in log[j].db
    {
      IssuedGrows(log, j, |log| - 1);
      GoneForGood(log, i, j, h);
    }
  }

  lemma {:induction false} IssuedGrows(log: seq<Moment>, i: nat, j: nat)
    requires History(log) && i <= j < |log|
    ensures log[i].issued <= log[j].issued
    decreases j
  {
    if i < j {
      assert Succeeds(log[j - 1], log[j]);
      IssuedGrows(log, i, j - 1);
    }
  }

  /** Every handle has been taken from the counter, and every walk towards the root ends. */
  ghost predicate Sound(t: Table, counter: uint32) {
    && Ordered(t) && Proper(t)
    && forall h :: h in t ==> h < counter && WalkIsChain(t, h, Ancestors(t, h))
  }

  lemma OrderedIsSound(t: Table, counter: uint32, issued: nat)
    requires Ordered(t) && issued < PARENT_ROOT && counter == (1 + issued) % 0x1_0000_0000
    requires forall h :: h in t ==> 0 < h <= issued
    ensures Sound(t, counter)
  {
    assert counter == 1 + issued;
    forall h | h in t
      ensures WalkIsChain(t, h, Ancestors(t, h))
    {
      WalkEnds(t, h);
    }
  }
}
