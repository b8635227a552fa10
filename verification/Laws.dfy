/** What each operation does, over every step of every run: said of the request, its data, the world,
    and the device before and after, and of nothing else. */
module Laws {
  import opened MtpTypes
  import opened Wire
  import opened Packets
  import opened Strings
  import opened Tables
  import opened Database
  import opened Datasets
  import opened Requests
  import opened Intake
  import opened Sends
  import opened Turns
  import opened Runs
  import Edits
  import PropList

  // ---- Where things are ----

  /** The first storage with this identifier; identifier 0 stands for the first of all. */
  predicate StorageAt(storages: seq<Storage>, id: uint32, i: nat) {
    && i < |storages|
    && if id == 0 then i == 0 else storages[i].id == id && forall j :: 0 <= j < i ==> storages[j].id != id
  }

  lemma {:induction false} StorageFound(storages: seq<Storage>, id: uint32) returns (i: nat)
    requires FindStorage(storages, id).Some?
    ensures StorageAt(storages, id, i) && storages[i] == FindStorage(storages, id).value
  {
    if id == 0 || storages[0].id == id {
      i := 0;
    } else {
      i := StorageFound(storages[1..], id);
      i := i + 1;
    }
  }

  lemma {:induction false} StorageIsFound(storages: seq<Storage>, id: uint32, i: nat)
    requires StorageAt(storages, id, i)
    ensures FindStorage(storages, id) == Some(storages[i])
  {
    if i > 0 {
      assert storages[0].id != id;
      StorageIsFound(storages[1..], id, i - 1);
    }
  }

  /** A path in a folder: one slash stands between the folder and the name. */
  predicate InFolder(path: seq<uint8>, folder: seq<uint8>, name: seq<uint8>) {
    path == folder + (if folder != [] && folder[|folder| - 1] == 0x2F then [] else [0x2F]) + name
  }

  /** `name` is what follows the last slash of the path. */
  ghost predicate LastPart(name: seq<uint8>, path: seq<uint8>) {
    0x2F !in name && exists n :: 0 <= n <= |path| && path[n..] == name && (n == 0 || path[n - 1] == 0x2F)
  }

  lemma BaseNameIsLast(path: seq<uint8>)
    ensures LastPart(BaseName(path), path)
  {
    var n := BaseNameAt(path);
    assert path[n..] == BaseName(path);
  }

  lemma FromThere(path: seq<uint8>, rest: seq<uint8>, last: uint8, n: nat)
    requires path == rest + [last] && n <= |rest|
    ensures path[n..] == rest[n..] + [last]
  {
  }

  lemma {:induction false} BaseNameAt(path: seq<uint8>) returns (n: nat)
    ensures n <= |path| && path[n..] == BaseName(path) && (n == 0 || path[n - 1] == 0x2F) && 0x2F !in BaseName(path)
  {
    n := |path|;
    if path != [] && path[n - 1] != 0x2F {
      var rest, last := path[..n - 1], path[n - 1];
      n := BaseNameAt(rest);
      assert BaseName(path) == BaseName(rest) + [last];
      FromThere(path, rest, last, n);
    }
  }

  /** An object that the device could be asked about. */
  predicate Known(t: Table, h: uint32) { h != 0 && h != PARENT_ROOT && h in t }

  /** The edits of an object: none, or the one at `i`. */
  predicate NoEdit(edits: seq<Edits.Edit>, h: uint32) { forall i :: 0 <= i < |edits| ==> edits[i].handle != h }

  predicate EditAt(edits: seq<Edits.Edit>, h: uint32, i: nat) { i < |edits| && edits[i].handle == h }

  lemma EditFound(edits: seq<Edits.Edit>, h: uint32)
    requires Edits.Distinct(edits)
    ensures Edits.Find(edits, h).None? <==> NoEdit(edits, h)
    ensures forall i: nat :: EditAt(edits, h, i) <==> Edits.Find(edits, h) == Some(i)
  {
    if Edits.Find(edits, h).Some? {
      var i := Edits.Find(edits, h).value;
      assert edits[i].handle == h;
    }
  }

  lemma EditsDistinct(t: Taken)
    requires TakenOk(t)
    ensures Edits.Distinct(t.d0.v.edits) && EditsSound(t.d0.books, t.d0.v.edits, t.d0.work)
  {
    assert TakenRule(t) && Sane(t.d0);
  }

  // ---- SendObject ----

  /** The object came whole: all of it with the header, and written, or by the kernel's transfer. */
  predicate CameWhole(size: nat, env: Env) {
    var initial := |env.incoming| - HEADER_SIZE;
    if initial == size then initial == 0 || env.written else env.transfer.Done?
  }

  /** A SendObject for a pending announcement succeeds exactly if its header arrives, the file opens,
      and the object comes whole. Then the object stays, with the size on disk if that is known;
      otherwise the table is as it was before the announcement. Only a cancelled transfer keeps the
      device silent. */
  lemma SendLaw(t: Taken, p: Pending)
    requires TakenOk(t) && Did(t, SEND_OBJECT) && t.d0.v.storages != [] && t.d0.pending == Some(p)
    ensures var (e, size) := (t.step.value.e, p.entry.size);
            && (Succeeded(t, SEND_OBJECT) <==>
                HEADER_SIZE <= |e.env.incoming| && e.env.openSucceeds && CameWhole(size, e.env))
            && (e.outcome == Skip <==>
                && HEADER_SIZE <= |e.env.incoming| && e.env.openSucceeds
                && |e.env.incoming| - HEADER_SIZE != size && e.env.transfer.Cancelled?)
            && (e.outcome != Skip && !Succeeded(t, SEND_OBJECT) ==> e.outcome == Respond(RESPONSE_GENERAL_ERROR))
    ensures t.d0.issued < PARENT_ROOT ==>
      t.d1.v.db == if !Succeeded(t, SEND_OBJECT) then p.before
                   else if t.step.value.e.env.fileSize.Some? then
                     p.before[t.d0.announced := p.entry.(size := t.step.value.e.env.fileSize.value)]
                   else p.before[t.d0.announced := p.entry]
    ensures t.d1 == t.d0.(v := t.d0.v.(db := t.d1.v.db), announced := INVALID_HANDLE, pending := None)
  {
    SendStepMoves(t);
    assert TakenRule(t) && Sane(t.d0);
    if t.d0.issued < PARENT_ROOT {
      SendStep(t);
    }
  }

  /** Without a storage, or without an announcement, a SendObject is refused and leaves the table
      alone. */
  lemma SendRefused(t: Taken)
    requires TakenOk(t) && Did(t, SEND_OBJECT) && (t.d0.v.storages == [] || t.d0.pending == None)
    ensures t.step.value.e.outcome ==
            Respond(if t.d0.v.storages == [] then RESPONSE_GENERAL_ERROR else RESPONSE_NO_VALID_OBJECT_INFO)
    ensures t.d0.v.storages == [] ==> t.d1 == t.d0
    ensures t.d1.v.storages == t.d0.v.storages && t.d1.v.edits == t.d0.v.edits
    ensures t.d0.pending == None && t.d0.issued < PARENT_ROOT ==> t.d1.v.db == t.d0.v.db
  {
    SendStepMoves(t);
    assert TakenRule(t) && Sane(t.d0) && AnnouncedOk(t.d0);
  }

  // ---- SendObjectInfo ----

  predicate Fits(size: uint32, free: nat, limit: nat) {
    size <= free && (limit == 0 || (size <= limit && size != 0xFFFF_FFFF))
  }

  /** There is a storage for the announced object with room for it, and its parent is a folder of the
      table, or the top of a storage other than the fixed one. */
  ghost predicate Admissible(v: View, q: Request, env: Env, size: uint32) {
    && (exists i: nat :: StorageAt(v.storages, q.p1, i) && Fits(size, env.info.freeSpace, v.storages[i].maxFileSize))
    && (q.p2 == PARENT_ROOT || (Known(v.db, q.p2) && v.db[q.p2].format == FORMAT_ASSOCIATION))
    && !(q.p1 == STORAGE_FIXED_RAM && q.p2 == PARENT_ROOT)
  }

  /** The object is in the table under the next handle, where and as it was announced, and nothing
      else in the table changes. */
  ghost predicate Placed(v: View, v1: View, q: Request, env: Env, name: Name, format: uint16, size: uint32) {
    && (forall k :: k in v1.db <==> k in v.db || k == v.counter)
    && (forall k :: k in v.db ==> v1.db[k] == v.db[k])
    && (v.counter !in v.db ==> PlacedAs(v, v1.db[v.counter], q, env, name, format, size))
  }

  ghost predicate PlacedAs(v: View, e: DbEntry, q: Request, env: Env, name: Name, format: uint16, size: uint32) {
    && e.storage == q.p1 && e.format == format && e.size == size && e.modified == env.modified && e.watch == -1
    && LastPart(e.name, e.path)
    && if q.p2 == PARENT_ROOT then
         e.parent == 0 && exists i: nat :: StorageAt(v.storages, q.p1, i) && InFolder(e.path, v.storages[i].path, name)
       else
         && e.parent == q.p2 && q.p2 in v.db && v.db[q.p2].format == FORMAT_ASSOCIATION
         && InFolder(e.path, v.db[q.p2].path, name)
  }

  lemma CheckAdmits(v: View, q: Request, env: Env, size: uint32, name: Name)
    ensures Admissible(v, q, env, size) <==>
            var check := CheckInfo(v, q, env.info.freeSpace, size, name);
            check.Admitted? && !(q.p1 == STORAGE_FIXED_RAM && check.parent == 0)
  {
    if FindStorage(v.storages, q.p1).Some? {
      var i := StorageFound(v.storages, q.p1);
      assert StorageAt(v.storages, q.p1, i);
    }
    forall i: nat | StorageAt(v.storages, q.p1, i)
      ensures FindStorage(v.storages, q.p1) == Some(v.storages[i])
    {
      StorageIsFound(v.storages, q.p1, i);
    }
  }

  /** An admitted path lies in the announced folder. */
  lemma AdmittedPath(v: View, q: Request, env: Env, size: uint32, name: Name)
    requires CheckInfo(v, q, env.info.freeSpace, size, name).Admitted?
    ensures var check := CheckInfo(v, q, env.info.freeSpace, size, name);
            if q.p2 == PARENT_ROOT then
              && check.parent == 0
              && exists i: nat :: StorageAt(v.storages, q.p1, i) && InFolder(check.path, v.storages[i].path, name)
            else
              && check.parent == q.p2 && q.p2 in v.db && v.db[q.p2].format == FORMAT_ASSOCIATION
              && InFolder(check.path, v.db[q.p2].path, name)
  {
    var i := StorageFound(v.storages, q.p1);
    assert StorageAt(v.storages, q.p1, i);
  }

  lemma InfoTurnPlaces(d: Device, q: Request, env: Env, size: uint32, format: uint16, name: Name)
    requires var check := CheckInfo(d.v, q, env.info.freeSpace, size, name);
             check.Admitted? && !(q.p1 == STORAGE_FIXED_RAM && check.parent == 0)
    ensures var after := InfoTurn(d, q, env, size, format, name);
            && Placed(d.v, after.1.v, q, env, name, format, size)
            && (after.0 == RESPONSE_OK <==>
                d.v.counter != INVALID_HANDLE && (format == FORMAT_ASSOCIATION ==> env.mkdirSucceeds))
  {
    var check := CheckInfo(d.v, q, env.info.freeSpace, size, name);
    AdmittedPath(d.v, q, env, size, name);
    AdmittedIsNamed(d.v, q, env.info.freeSpace, size, name);
    var e := EntryOf(q, env, check.path, check.parent, size, format);
    BaseNameIsLast(check.path);
    assert PlacedAs(d.v, e, q, env, name, format, size);
    var after := InfoTurn(d, q, env, size, format, name);
    assert after == Entered(d, env, e, check.limit);
    assert after.1.v.db == Insert(d.v.db, d.v.counter, e);
  }

  /** The response that refuses an announcement, or that it fails with. */
  ghost predicate RefusedWith(v: View, q: Request, env: Env, size: uint32, code: uint16) {
    if forall i: nat :: !StorageAt(v.storages, q.p1, i) then code == RESPONSE_INVALID_STORAGE_ID
    else if q.p2 == 0 then code == RESPONSE_INVALID_OBJECT_HANDLE
    else if q.p2 != PARENT_ROOT && q.p2 !in v.db then code == RESPONSE_GENERAL_ERROR
    else if q.p2 != PARENT_ROOT && v.db[q.p2].format != FORMAT_ASSOCIATION then
      code == RESPONSE_INVALID_PARENT_OBJECT
    else if size > env.info.freeSpace then code == RESPONSE_STORAGE_FULL
    else if forall i: nat :: StorageAt(v.storages, q.p1, i) ==>
                               !Fits(size, env.info.freeSpace, v.storages[i].maxFileSize)
    then code == RESPONSE_OBJECT_TOO_LARGE
    else code == RESPONSE_GENERAL_ERROR
  }

  lemma InfoRefusedWith(d: Device, q: Request, env: Env, size: uint32, format: uint16, name: Name)
    requires InfoTurn(d, q, env, size, format, name).0 != RESPONSE_OK
    ensures RefusedWith(d.v, q, env, size, InfoTurn(d, q, env, size, format, name).0)
  {
    if FindStorage(d.v.storages, q.p1).Some? {
      var i := StorageFound(d.v.storages, q.p1);
      assert StorageAt(d.v.storages, q.p1, i);
    }
    forall i: nat | StorageAt(d.v.storages, q.p1, i)
      ensures FindStorage(d.v.storages, q.p1) == Some(d.v.storages[i])
    {
      StorageIsFound(d.v.storages, q.p1, i);
    }
  }

  /** What an announcement of this size, format and name comes to. */
  ghost predicate WentAs(d: Device, q: Request, env: Env, o: Outcome, d1: Device, size: uint32, format: uint16,
                         name: Name) {
    && (o == Respond(RESPONSE_OK) <==>
        && Admissible(d.v, q, env, size) && d.v.counter != INVALID_HANDLE
        && (format == FORMAT_ASSOCIATION ==> env.mkdirSucceeds))
    && (o != Respond(RESPONSE_OK) ==> o.Respond? && RefusedWith(d.v, q, env, size, o.code))
    && (if Admissible(d.v, q, env, size) then
          && Placed(d.v, d1.v, q, env, name, format, size) && d1.issued == d.issued + 1
          && d1.v.counter == (d.v.counter + 1) % 0x1_0000_0000
        else d1 == d)
    && (d1.pending.Some? <==> o == Respond(RESPONSE_OK) && format != FORMAT_ASSOCIATION)
    && (d1.pending.Some? ==>
          && d1.announced == d.v.counter && d1.pending.value.before == d.v.db
          && PlacedAs(d.v, d1.pending.value.entry, q, env, name, format, size))
    && d1 == d.(v := d.v.(db := d1.v.db, counter := d1.v.counter), announced := d1.announced, pending := d1.pending,
                issued := d1.issued)
  }

  lemma InfoGoes(d: Device, q: Request, env: Env, o: Outcome, d1: Device, g: Incoming)
    requires WentBy(d, q, env, o, d1, g) && d.pending == None
    ensures WentAs(d, q, env, o, d1, g.d.size, g.d.format, Text(g.name))
  {
    var (size, format, name) := (g.d.size, g.d.format, Text(g.name));
    CheckAdmits(d.v, q, env, size, name);
    InfoNeverCancels(d, q, env, size, format, name);
    if o != Respond(RESPONSE_OK) {
      InfoRefusedWith(d, q, env, size, format, name);
    }
    var check := CheckInfo(d.v, q, env.info.freeSpace, size, name);
    if check.Admitted? && !(q.p1 == STORAGE_FIXED_RAM && check.parent == 0) {
      InfoTurnPlaces(d, q, env, size, format, name);
      PendingPlaced(d, q, env, size, format, name);
    }
  }

  lemma PendingPlaced(d: Device, q: Request, env: Env, size: uint32, format: uint16, name: Name)
    requires d.pending == None
    ensures var d1 := InfoTurn(d, q, env, size, format, name).1;
            d1.pending.Some? ==>
              && d1.announced == d.v.counter && d1.pending.value.before == d.v.db
              && PlacedAs(d.v, d1.pending.value.entry, q, env, name, format, size)
  {
    var check := CheckInfo(d.v, q, env.info.freeSpace, size, name);
    if check.Admitted? {
      AdmittedPath(d.v, q, env, size, name);
      BaseNameIsLast(check.path);
    }
  }

  /** Every announcement goes by what can be read from its data: it succeeds exactly if it is
      admissible, a handle is left, and its folder can be made; then the object is in the table where
      and as it was announced, under the handle that is answered, and a file is pending. */
  lemma AnnouncementLaw(t: Taken) returns (g: Incoming)
    requires TakenOk(t) && Did(t, SEND_OBJECT_INFO)
    ensures var e := t.step.value.e;
            && WentAs(GivenUp(t.d0, e.q), e.q, e.env, e.outcome, t.d1, g.d.size, g.d.format, Text(g.name))
            && (HEADER_SIZE <= |e.env.incoming| ==>
                  forall h {:trigger IncomingFields(h)} ::
                    Encode(IncomingFields(h)) <= e.env.incoming[HEADER_SIZE..] ==>
                      h.d.size == g.d.size && h.d.format == g.d.format && h.name == g.name)
            && e.params == if e.outcome == Respond(RESPONSE_OK)
                           then [e.q.p1, if e.q.p2 == PARENT_ROOT then 0 else e.q.p2, t.d0.v.counter] else []
  {
    var e := t.step.value.e;
    var d := GivenUp(t.d0, e.q);
    InfoStep(t);
    StepReplies(t);
    g := ReadAs(d, e.q, e.env, e.outcome, t.d1);
    InfoGoes(d, e.q, e.env, e.outcome, t.d1, g);
  }

  lemma SameReading(a: Incoming, c: Incoming, b: seq<uint8>)
    requires Encode(IncomingFields(a)) <= b && Encode(IncomingFields(c)) <= b
    ensures a.d.size == c.d.size && a.d.format == c.d.format && a.name == c.name
  {
    IncomingUnique(a, c, b);
    SameIntegers(a.d, c.d);
  }

  lemma SameIntegers(a: ObjectInfo, c: ObjectInfo)
    requires InfoIntegers(a) == InfoIntegers(c)
    ensures a.size == c.size && a.format == c.format
  {
    assert InfoIntegers(a)[3] == U32(a.size) && InfoIntegers(a)[1] == U16(a.format);
    assert InfoIntegers(c)[3] == U32(c.size) && InfoIntegers(c)[1] == U16(c.format);
  }

  lemma ReadAs(d: Device, q: Request, env: Env, o: Outcome, d1: Device) returns (g: Incoming)
    requires Considered(d, q, env, o, d1)
    ensures WentBy(d, q, env, o, d1, g)
    ensures HEADER_SIZE <= |env.incoming| ==>
      forall h {:trigger IncomingFields(h)} :: Encode(IncomingFields(h)) <= env.incoming[HEADER_SIZE..] ==>
        h.d.size == g.d.size && h.d.format == g.d.format && h.name == g.name
  {
    g :| WentBy(d, q, env, o, d1, g);
    if h: Incoming {:trigger IncomingFields(h)} :|
      HEADER_SIZE <= |env.incoming| && Encode(IncomingFields(h)) <= env.incoming[HEADER_SIZE..] {
      g := h;
      forall i: Incoming {:trigger IncomingFields(i)} | Encode(IncomingFields(i)) <= env.incoming[HEADER_SIZE..]
        ensures i.d.size == g.d.size && i.d.format == g.d.format && i.name == g.name
      {
        SameReading(i, g, env.incoming[HEADER_SIZE..]);
      }
    }
  }

  /** The two phases together: an object that a SendObject brings whole was announced before, and is
      in the table where and as it was announced, under the handle that was answered then, as the only
      change since, with the size on disk if that is known. */
  lemma TwoPhases(log: seq<Taken>, inputs: seq<Input>, start: Device, k: nat) returns (j: nat, g: Incoming)
    requires Logged(log, inputs, start) && start.pending == None && k < |log| && log[k].d0.issued < PARENT_ROOT
    requires Succeeded(log[k], SEND_OBJECT)
    ensures j < k && Succeeded(log[j], SEND_OBJECT_INFO)
    ensures var e := log[j].step.value.e;
            e.params == [e.q.p1, if e.q.p2 == PARENT_ROOT then 0 else e.q.p2, log[j].d0.v.counter]
    ensures forall i :: j < i < k && log[i].step.Some? ==> Deferred(log[i])
    ensures var (e, was, now, h) := (log[j].step.value.e, log[j].d0.v, log[k].d1.v.db, log[j].d0.v.counter);
            && h in now && now == was.db[h := now[h]]
            && PlacedAs(was, now[h].(size := g.d.size), e.q, e.env, Text(g.name), g.d.format, g.d.size)
            && (log[k].step.value.e.env.fileSize.Some? ==> now[h].size == log[k].step.value.e.env.fileSize.value)
            && (log[k].step.value.e.env.fileSize.None? ==> now[h].size == g.d.size)
  {
    SentWasAnnounced(log[k]) by {
      assert LoggedAt(log, inputs[k], start, k);
    }
    j := SendEnds(log, inputs, start, k);
    assert LoggedAt(log, inputs[j], start, j) && LoggedAt(log, inputs[k], start, k);
    g := AnnouncementLaw(log[j]);
    SendLaw(log[k], log[k].d0.pending.value);
  }

  // ---- Deleting, moving, renaming ----

  /** A deletion takes the object and its direct children out of the table, and keeps every other
      entry as it is; exactly what could be reached without the object can still be reached. It is
      reported as an error if the object was unknown or was the only one. */
  lemma DeletionLaw(t: Taken)
    requires TakenOk(t) && Did(t, DELETE_OBJECT)
    ensures var (h, was, now) := (t.step.value.e.q.p1, t.d0.v.db, t.d1.v.db);
            && (if t.d0.v.storages != [] && Known(was, h) then
                  && (forall k :: k in now <==> k in was && k != h && was[k].parent != h)
                  && (forall k :: k in now ==> now[k] == was[k])
                else now == was)
            && (t.d0.v.storages != [] && Known(was, h) && t.d0.issued < PARENT_ROOT ==>
                  forall x :: Reachable(now, x) <==>
                                exists chain :: IsChain(was, chain) && chain[0] == x && h !in chain)
    ensures var (h, was) := (t.step.value.e.q.p1, t.d0.v.db);
            t.step.value.e.outcome == Respond(
              if t.d0.v.storages == [] || h == 0 || h == PARENT_ROOT then RESPONSE_INVALID_OBJECT_HANDLE
              else if h !in was || |was| == 1 then RESPONSE_GENERAL_ERROR
              else RESPONSE_OK)
    ensures t.d1 == t.d0.(v := t.d0.v.(db := t.d1.v.db), announced := INVALID_HANDLE, pending := None)
  {
    var e := t.step.value.e;
    OtherStep(t);
    StepReplies(t);
    PlainMoves(GivenUp(t.d0, e.q), e.q, e.env);
    if t.d0.v.storages != [] && Known(t.d0.v.db, e.q.p1) && t.d0.issued < PARENT_ROOT {
      assert TakenRule(t) && Sane(t.d0);
      DeletionCuts(t.d0.v.db, t.d1.v.db, e.q.p1);
    }
  }

  /** A move gives the object its third parameter as parent, whatever that is, and changes nothing
      else. */
  lemma MoveLaw(t: Taken)
    requires TakenOk(t) && Did(t, MOVE_OBJECT)
    ensures var (q, was, now) := (t.step.value.e.q, t.d0.v.db, t.d1.v.db);
            && now.Keys == was.Keys && (forall k :: k in was && k != q.p1 ==> now[k] == was[k])
            && (q.p1 in was ==>
                  now[q.p1] == if Succeeded(t, MOVE_OBJECT) then was[q.p1].(parent := q.p3) else was[q.p1])
            && (Succeeded(t, MOVE_OBJECT) <==> t.d0.v.storages != [] && Known(was, q.p1))
            && (!Succeeded(t, MOVE_OBJECT) ==>
                  t.step.value.e.outcome == Respond(
                    if t.d0.v.storages == [] || q.p1 == 0 || q.p1 == PARENT_ROOT then RESPONSE_INVALID_OBJECT_HANDLE
                    else RESPONSE_GENERAL_ERROR))
    ensures t.d1 == t.d0.(v := t.d0.v.(db := t.d1.v.db), announced := INVALID_HANDLE, pending := None,
                          moved := t.d0.moved || Succeeded(t, MOVE_OBJECT))
  {
    var e := t.step.value.e;
    OtherStep(t);
    StepReplies(t);
    PlainMoves(GivenUp(t.d0, e.q), e.q, e.env);
  }

  /** A rename gives the object the name that can be read from the data, and the path that the file
      then has, and changes nothing else. */
  lemma RenameLaw(t: Taken) returns (r: Raw)
    requires TakenOk(t) && Did(t, SET_OBJECT_PROP_VALUE)
    ensures var e := t.step.value.e;
            HEADER_SIZE <= |e.env.incoming| ==>
              forall s {:trigger Received(s)} :: Encode(Received(s)) <= e.env.incoming[HEADER_SIZE..] ==> s == r
    ensures var (e, was, now) := (t.step.value.e, t.d0.v.db, t.d1.v.db);
            && now.Keys == was.Keys && (forall k :: k in was && k != e.q.p1 ==> now[k] == was[k])
            && (e.q.p1 in was ==>
                  now[e.q.p1] == if Succeeded(t, SET_OBJECT_PROP_VALUE) && e.env.renamed.Some?
                                 then was[e.q.p1].(name := Text(r), path := e.env.renamed.value) else was[e.q.p1])
            && (Succeeded(t, SET_OBJECT_PROP_VALUE) <==>
                && t.d0.v.storages != [] && Known(was, e.q.p1)
                && e.q.p2 % 0x1_0000 == PropList.PROPERTY_OBJECT_FILE_NAME && e.env.renamed.Some?)
            && (!Succeeded(t, SET_OBJECT_PROP_VALUE) ==>
                  e.outcome == Respond(
                    if t.d0.v.storages == [] || e.q.p1 == 0 || e.q.p1 == PARENT_ROOT then RESPONSE_INVALID_OBJECT_HANDLE
                    else if e.q.p2 % 0x1_0000 == PropList.PROPERTY_OBJECT_FILE_NAME && e.q.p1 in was then
                      RESPONSE_DEVICE_BUSY
                    else if e.q.p2 % 0x1_0000 == PropList.PROPERTY_OBJECT_FILE_NAME
                         || (e.q.p2 % 0x1_0000 == PropList.PROPERTY_PARENT_OBJECT && e.q.p1 !in was) then
                      RESPONSE_GENERAL_ERROR
                    else RESPONSE_OPERATION_NOT_SUPPORTED))
    ensures t.d1 == t.d0.(v := t.d0.v.(db := t.d1.v.db), announced := INVALID_HANDLE, pending := None)
  {
    var e := t.step.value.e;
    var d := GivenUp(t.d0, e.q);
    RenameStep(t);
    StepReplies(t);
    r := RenamedTo(d, e.q, e.env, t.d1);
    assert t.d1.v.db == Renamed(d.v, e.q, e.env, r);
  }

  lemma RenamedTo(d: Device, q: Request, env: Env, d1: Device) returns (r: Raw)
    requires Renames(d, q, env, d1)
    ensures d1 == AfterRename(d, q, env, r)
    ensures HEADER_SIZE <= |env.incoming| ==>
      forall s {:trigger Received(s)} :: Encode(Received(s)) <= env.incoming[HEADER_SIZE..] ==> s == r
  {
    r :| d1 == AfterRename(d, q, env, r);
    if s: Raw {:trigger Received(s)} :|
      HEADER_SIZE <= |env.incoming| && Encode(Received(s)) <= env.incoming[HEADER_SIZE..] {
      r := s;
      forall x: Raw {:trigger Received(x)} | Encode(Received(x)) <= env.incoming[HEADER_SIZE..]
        ensures x == r
      {
        RawUnique(x, r, env.incoming[HEADER_SIZE..]);
      }
    }
  }

  // ---- Editing ----

  /** An edit opens exactly if the object is known, has none, and its file opens; it starts with the
      size, path and format that the table has, and no operations. */
  lemma BeginEditLaw(t: Taken)
    requires TakenOk(t) && Did(t, BEGIN_EDIT_OBJECT)
    ensures var h := t.step.value.e.q.p1;
            !Succeeded(t, BEGIN_EDIT_OBJECT) ==>
              t.step.value.e.outcome == Respond(if NoEdit(t.d0.v.edits, h) && (h == 0 || h == PARENT_ROOT)
                                                then RESPONSE_INVALID_OBJECT_HANDLE else RESPONSE_GENERAL_ERROR)
    ensures var (e, h) := (t.step.value.e, t.step.value.e.q.p1);
            && (Succeeded(t, BEGIN_EDIT_OBJECT) <==>
                NoEdit(t.d0.v.edits, h) && Known(t.d0.v.db, h) && e.env.openSucceeds)
            && (if Succeeded(t, BEGIN_EDIT_OBJECT) then
                  var entry := t.d0.v.db[h];
                  && t.d1.v.edits == t.d0.v.edits + [Edits.Edit(h, entry.path, entry.size % Edits.TWO64, entry.format,
                                                                e.env.fd)]
                  && t.d1.work == t.d0.work[h := Work(entry.size % Edits.TWO64, [])]
                else t.d1.v.edits == t.d0.v.edits && t.d1.work == t.d0.work)
    ensures t.d1.v == t.d0.v.(edits := t.d1.v.edits)
  {
    var e := t.step.value.e;
    EditsDistinct(t);
    EditFound(t.d0.v.edits, e.q.p1);
    OtherStep(t);
    EditingMoves(GivenUp(t.d0, e.q), e.q, e.env);
    StepReplies(t);
    EditingSpec(t.d0.v, e.q, e.env);
  }

  /** The edits after an operation on the one at `i`: it has another size. */
  predicate ResizedAt(was: seq<Edits.Edit>, now: seq<Edits.Edit>, i: nat, size: nat) {
    i < |was| && size < Edits.TWO64 && now == was[i := was[i].(size := size)]
  }

  /** A history with one operation more. */
  function Worked(w: Work, op: Edits.EditOp): Work { Work(w.start, w.ops + [op]) }

  /** An open edit that can be truncated takes the size of the second parameter, and of the third as
      its high half. */
  lemma TruncateLaw(t: Taken)
    requires TakenOk(t) && Did(t, TRUNCATE_OBJECT)
    ensures var (e, h) := (t.step.value.e, t.step.value.e.q.p1);
            && (Succeeded(t, TRUNCATE_OBJECT) <==> !NoEdit(t.d0.v.edits, h) && e.env.truncateSucceeds)
            && (forall i: nat :: EditAt(t.d0.v.edits, h, i) && Succeeded(t, TRUNCATE_OBJECT) ==>
                  ResizedAt(t.d0.v.edits, t.d1.v.edits, i, e.q.p2 + e.q.p3 * Edits.TWO32))
            && (if Succeeded(t, TRUNCATE_OBJECT) then
                  && h in t.d0.work
                  && t.d1.work == t.d0.work[h := Worked(t.d0.work[h], Edits.Truncate(e.q.p2 + e.q.p3 * Edits.TWO32))]
                else t.d1.v.edits == t.d0.v.edits && t.d1.work == t.d0.work)
    ensures t.d1.v == t.d0.v.(edits := t.d1.v.edits)
  {
    var e := t.step.value.e;
    var d := GivenUp(t.d0, e.q);
    EditsDistinct(t);
    EditFound(t.d0.v.edits, e.q.p1);
    OtherStep(t);
    StepReplies(t);
    EditingSpec(d.v, e.q, e.env);
    EditingMoves(d, e.q, e.env);
    if Succeeded(t, TRUNCATE_OBJECT) {
      HasWork(t.d0, e.q.p1);
    }
  }

  lemma HasWork(d: Device, h: uint32)
    requires EditsSound(d.books, d.v.edits, d.work) && Edits.Find(d.v.edits, h).Some?
    ensures h in d.work && HistoryOf(d.work, h) == d.work[h]
  {
    assert Tracked(d.v.edits[Edits.Find(d.v.edits, h).value], d.work);
  }

  /** The write of a SendPartialObject: its offset is the second parameter, with the third as high
      half, its length the fourth, and what came with the header is written first. */
  function WriteOf(q: Request, env: Env): Edits.EditOp
    requires HEADER_SIZE <= |env.incoming|
  {
    Edits.Write(q.p2 + q.p3 * Edits.TWO32, q.p4, |env.incoming| - HEADER_SIZE)
  }

  /** Where the write ends, in 64 bits: behind its length, and 2^32 further if more bytes came with the
      header than were announced. */
  function EndOf(q: Request, env: Env): nat {
    (q.p2 + q.p3 * Edits.TWO32 + q.p4 + if |env.incoming| - HEADER_SIZE <= q.p4 then 0 else Edits.TWO32) % Edits.TWO64
  }

  /** The write went through: all of it with the header, and written, or by the kernel's transfer. */
  predicate WentThrough(q: Request, env: Env) { HEADER_SIZE <= |env.incoming| && CameWhole(q.p4, env) }

  /** A partial write succeeds exactly if the object is open for editing, the write starts within it,
      and goes through. Then the edit's size reaches to the end of the write, if it did not before, and
      the answer is what was left for the kernel. */
  lemma PartialWriteLaw(t: Taken)
    requires TakenOk(t) && Did(t, SEND_PARTIAL_OBJECT)
    ensures var (e, h, edits) := (t.step.value.e, t.step.value.e.q.p1, t.d0.v.edits);
            && (Succeeded(t, SEND_PARTIAL_OBJECT) <==> PartialBegins(t.d0.v, e.q, e.env) && WentThrough(e.q, e.env))
            && (if Succeeded(t, SEND_PARTIAL_OBJECT) then
                  && (forall i: nat :: EditAt(edits, h, i) ==>
                        ResizedAt(edits, t.d1.v.edits, i, Max(edits[i].size, EndOf(e.q, e.env))))
                  && e.params == [(e.q.p4 - (|e.env.incoming| - HEADER_SIZE)) % Edits.TWO32]
                else t.d1.v.edits == edits)
    ensures t.d1.v == t.d0.v.(edits := t.d1.v.edits)
  {
    var e := t.step.value.e;
    EditsDistinct(t);
    EditFound(t.d0.v.edits, e.q.p1);
    OtherStep(t);
    StepReplies(t);
    PartialBeginsExactly(t.d0.v, t.step.value.e.q, t.step.value.e.env);
    PartialReplies(t.d0.v, e.q, e.env);
  }

  /** It enters the history of the edit. */
  lemma PartialWriteHistory(t: Taken)
    requires TakenOk(t) && Did(t, SEND_PARTIAL_OBJECT)
    ensures var (e, h) := (t.step.value.e, t.step.value.e.q.p1);
            if Succeeded(t, SEND_PARTIAL_OBJECT) then
              && HEADER_SIZE <= |e.env.incoming| && h in t.d0.work
              && t.d1.work == t.d0.work[h := Worked(t.d0.work[h], WriteOf(e.q, e.env))]
            else t.d1.work == t.d0.work
  {
    var e := t.step.value.e;
    EditsDistinct(t);
    OtherStep(t);
    StepReplies(t);
    PartialReplies(t.d0.v, e.q, e.env);
    if Succeeded(t, SEND_PARTIAL_OBJECT) {
      HasWork(t.d0, e.q.p1);
    }
  }

  /** A partial write that gets as far as reading its data. */
  ghost predicate PartialBegins(v: View, q: Request, env: Env) {
    && v.storages != [] && HEADER_SIZE <= |env.incoming|
    && exists i: nat :: EditAt(v.edits, q.p1, i) && q.p2 + q.p3 * Edits.TWO32 <= v.edits[i].size
  }

  lemma PartialBeginsExactly(v: View, q: Request, env: Env)
    requires Edits.Distinct(v.edits)
    ensures PartialBegins(v, q, env) <==> Begins(v, q, env)
  {
    EditFound(v.edits, q.p1);
  }

  /** A partial write that fails is answered with an error, unless the transfer of its data was
      cancelled, which keeps the device silent. */
  lemma PartialWriteFails(t: Taken)
    requires TakenOk(t) && Did(t, SEND_PARTIAL_OBJECT) && !Succeeded(t, SEND_PARTIAL_OBJECT)
    ensures var e := t.step.value.e;
            e.outcome == if t.d0.v.storages == [] then Respond(RESPONSE_INVALID_OBJECT_HANDLE)
                         else if && PartialBegins(t.d0.v, e.q, e.env) && |e.env.incoming| - HEADER_SIZE != e.q.p4
                                 && e.env.transfer.Cancelled?
                         then Skip else Respond(RESPONSE_GENERAL_ERROR)
    ensures var e := t.step.value.e; e.params == if PartialBegins(t.d0.v, e.q, e.env) then [0] else []
  {
    EditsDistinct(t);
    StepReplies(t);
    PartialBeginsExactly(t.d0.v, t.step.value.e.q, t.step.value.e.env);
    PartialReplies(t.d0.v, t.step.value.e.q, t.step.value.e.env);
  }

  lemma PartialReplies(v: View, q: Request, env: Env)
    ensures PartialVerdict(v, q, env) == RESPONSE_OK <==> v.storages != [] && Begins(v, q, env) && WentThrough(q, env)
    ensures PartialVerdict(v, q, env) == RESPONSE_OK ==>
      PartialParams(v, q, env) == [(q.p4 - (|env.incoming| - HEADER_SIZE)) % Edits.TWO32]
    ensures PartialVerdict(v, q, env) != RESPONSE_OK ==>
      PartialVerdict(v, q, env) ==
      if v.storages == [] then RESPONSE_INVALID_OBJECT_HANDLE
      else if Begins(v, q, env) && |env.incoming| - HEADER_SIZE != q.p4 && env.transfer.Cancelled? then
        RESPONSE_TRANSACTION_CANCELLED
      else RESPONSE_GENERAL_ERROR
    ensures PartialVerdict(v, q, env) != RESPONSE_OK && v.storages != [] ==>
      PartialParams(v, q, env) == if Begins(v, q, env) then [0] else []
    ensures HEADER_SIZE <= |env.incoming| ==>
      && WriteOp(q, env) == WriteOf(q, env)
      && Edits.WriteEnd(WriteOf(q, env).offset, q.p4, |env.incoming| - HEADER_SIZE) == EndOf(q, env)
  {
    if HEADER_SIZE <= |env.incoming| {
      LeftIsZero(q.p4, |env.incoming| - HEADER_SIZE);
      Edits.WriteEndsAt(WriteOf(q, env).offset, q.p4, |env.incoming| - HEADER_SIZE);
      Once(q.p2 + q.p3 * Edits.TWO32 + q.p4 + if |env.incoming| - HEADER_SIZE <= q.p4 then 0 else Edits.TWO32);
    }
  }

  lemma LeftIsZero(length: uint32, initial: nat)
    requires initial < 0x1_0000_0000
    ensures Left(length, initial) == 0 <==> initial == length
  {
  }

  lemma Once(n: nat)
    requires n < 2 * Edits.TWO64
    ensures n % Edits.TWO64 == if n < Edits.TWO64 then n else n - Edits.TWO64
  {
  }

  /** The end of an edit takes it off the list; the table's entry of a file takes the size on disk, if
      that is known, and nothing else changes in the table. */
  lemma EndEditLaw(t: Taken)
    requires TakenOk(t) && Did(t, END_EDIT_OBJECT)
    ensures var (e, h, was, now) := (t.step.value.e, t.step.value.e.q.p1, t.d0.v.db, t.d1.v.db);
            && (Succeeded(t, END_EDIT_OBJECT) <==> !NoEdit(t.d0.v.edits, h))
            && now.Keys == was.Keys && (forall k :: k in was && k != h ==> now[k] == was[k])
            && (NoEdit(t.d0.v.edits, h) ==> now == was && t.d1.v.edits == t.d0.v.edits)
            && (forall i: nat :: EditAt(t.d0.v.edits, h, i) ==>
                  && t.d1.v.edits == t.d0.v.edits[..i] + t.d0.v.edits[i + 1..]
                  && (h in was ==>
                        now[h] == if t.d0.v.edits[i].format != FORMAT_ASSOCIATION && e.env.fileSize.Some?
                                  then was[h].(size := e.env.fileSize.value) else was[h]))
    ensures t.d1.work == t.d0.work && t.d1.v == t.d0.v.(db := t.d1.v.db, edits := t.d1.v.edits)
  {
    var e := t.step.value.e;
    EditsDistinct(t);
    EditFound(t.d0.v.edits, e.q.p1);
    OtherStep(t);
    EditReplies(t);
    EditingMoves(GivenUp(t.d0, e.q), e.q, e.env);
  }

  /** The requests that change which edits are open, or their sizes. */
  predicate ChangesEdits(t: Taken) {
    || Succeeded(t, BEGIN_EDIT_OBJECT) || Succeeded(t, TRUNCATE_OBJECT) || Succeeded(t, SEND_PARTIAL_OBJECT)
    || Succeeded(t, END_EDIT_OBJECT)
  }

  /** Nothing else changes them. */
  lemma EditsStay(t: Taken)
    requires TakenOk(t) && !ChangesEdits(t)
    ensures t.d1.v.edits == t.d0.v.edits && t.d1.work == t.d0.work
  {
    if t.step == None {
      NoStep(t);
    } else if Did(t, BEGIN_EDIT_OBJECT) {
      BeginEditLaw(t);
    } else if Did(t, TRUNCATE_OBJECT) {
      TruncateLaw(t);
    } else if Did(t, SEND_PARTIAL_OBJECT) {
      PartialWriteLaw(t);
      PartialWriteHistory(t);
    } else if Did(t, END_EDIT_OBJECT) {
      EndEditLaw(t);
    } else {
      var e := t.step.value.e;
      var d := GivenUp(t.d0, e.q);
      if e.q.operation == SEND_OBJECT_INFO {
        InfoStep(t);
        InfoKeeps(d, e.q, e.env, e.outcome, t.d1);
      } else if e.q.operation == SET_OBJECT_PROP_VALUE {
        RenameStep(t);
        RenameKeeps(d, e.q, e.env, t.d1);
      } else if e.q.operation == SEND_OBJECT {
        SendStepMoves(t);
      } else {
        OtherStep(t);
        OthersDoNotEdit(d, e.q, e.env);
      }
    }
  }

  lemma OthersDoNotEdit(d: Device, q: Request, env: Env)
    requires q.operation != BEGIN_EDIT_OBJECT && q.operation != TRUNCATE_OBJECT
    requires q.operation != SEND_PARTIAL_OBJECT && q.operation != END_EDIT_OBJECT
    ensures AfterOther(d, q, env).v.edits == d.v.edits && AfterOther(d, q, env).work == d.work
  {
  }

  /** What an input adds to the history of an object that is open for editing: an accepted
      BeginEditObject starts it with the size that the table has, accepted truncations and writes go
      on with it. */
  function WorkAfter(t: Taken, h: uint32, before: Work): Work {
    if t.step == None || t.step.value.e.q.p1 != h then before
    else
      var e := t.step.value.e;
      if Succeeded(t, BEGIN_EDIT_OBJECT) && h in t.d0.v.db then Work(t.d0.v.db[h].size % Edits.TWO64, [])
      else if Succeeded(t, TRUNCATE_OBJECT) then Worked(before, Edits.Truncate(e.q.p2 + e.q.p3 * Edits.TWO32))
      else if Succeeded(t, SEND_PARTIAL_OBJECT) && HEADER_SIZE <= |e.env.incoming| then
        Worked(before, WriteOf(e.q, e.env))
      else before
  }

  /** The history that the requests of a log give an object. */
  function WorkOf(log: seq<Taken>, h: uint32): Work {
    if log == [] then Work(0, []) else WorkAfter(log[|log| - 1], h, WorkOf(log[..|log| - 1], h))
  }

  /** An open edit has the history that the input gives it, and was open before unless the input
      opened it. */
  ghost predicate Historical(t: Taken, h: uint32) {
    && h in t.d1.work
    && if Succeeded(t, BEGIN_EDIT_OBJECT) && t.step.value.e.q.p1 == h then
         forall before :: t.d1.work[h] == WorkAfter(t, h, before)
       else !NoEdit(t.d0.v.edits, h) && h in t.d0.work && t.d1.work[h] == WorkAfter(t, h, t.d0.work[h])
  }

  lemma HistoryStep(t: Taken, h: uint32)
    requires TakenOk(t) && !NoEdit(t.d1.v.edits, h)
    ensures Historical(t, h)
  {
    StillOpen(t, h);
    if Succeeded(t, BEGIN_EDIT_OBJECT) {
      BeginEditLaw(t);
    } else if Succeeded(t, TRUNCATE_OBJECT) {
      TruncateLaw(t);
    } else if Succeeded(t, SEND_PARTIAL_OBJECT) {
      PartialWriteLaw(t);
      PartialWriteHistory(t);
    } else if Succeeded(t, END_EDIT_OBJECT) {
      EndEditLaw(t);
    } else {
      EditsStay(t);
    }
  }

  /** An edit that is open was open before, unless the input opened it. */
  lemma StillOpen(t: Taken, h: uint32)
    requires TakenOk(t) && !NoEdit(t.d1.v.edits, h)
    ensures (Succeeded(t, BEGIN_EDIT_OBJECT) && t.step.value.e.q.p1 == h) ||
            (!NoEdit(t.d0.v.edits, h) && h in t.d0.work)
  {
    var (was, now) := (t.d0.v.edits, t.d1.v.edits);
    if Succeeded(t, BEGIN_EDIT_OBJECT) {
      BeginEditLaw(t);
    } else if Succeeded(t, TRUNCATE_OBJECT) {
      TruncateLaw(t);
      SameObjects(was, now, t.step.value.e.q.p1, h);
    } else if Succeeded(t, SEND_PARTIAL_OBJECT) {
      PartialWriteLaw(t);
      SameObjects(was, now, t.step.value.e.q.p1, h);
    } else if Succeeded(t, END_EDIT_OBJECT) {
      EndEditLaw(t);
      OneObjectLess(was, now, t.step.value.e.q.p1, h);
    } else {
      EditsStay(t);
    }
    EditsDistinct(t);
    EditFound(was, h);
    if !NoEdit(was, h) {
      HasWork(t.d0, h);
    }
  }

  /** An operation on an edit opens no others. */
  lemma SameObjects(was: seq<Edits.Edit>, now: seq<Edits.Edit>, p1: uint32, h: uint32)
    requires !NoEdit(was, p1) && !NoEdit(now, h)
    requires forall i: nat :: EditAt(was, p1, i) ==> exists size: nat :: ResizedAt(was, now, i, size)
    ensures !NoEdit(was, h)
  {
    var k :| 0 <= k < |was| && was[k].handle == p1;
    assert EditAt(was, p1, k);
    var size: nat :| ResizedAt(was, now, k, size);
    var i :| 0 <= i < |now| && now[i].handle == h;
    assert was[i].handle == h;
  }

  /** The end of an edit leaves no others open. */
  lemma OneObjectLess(was: seq<Edits.Edit>, now: seq<Edits.Edit>, p1: uint32, h: uint32)
    requires !NoEdit(was, p1) && !NoEdit(now, h)
    requires forall i: nat :: EditAt(was, p1, i) ==> now == was[..i] + was[i + 1..]
    ensures !NoEdit(was, h)
  {
    var k :| 0 <= k < |was| && was[k].handle == p1;
    assert EditAt(was, p1, k);
    var i :| 0 <= i < |now| && now[i].handle == h;
    assert now[i] == was[if i < k then i else i + 1];
  }

  /** Over every run: the size of an object that was opened for editing during the run is the fold,
      from the table's size at its last accepted BeginEditObject, of the accepted truncations and
      writes since; and that is what its description shows, as far as 32 bits can say it. */
  lemma {:induction false} HistoryLaw(log: seq<Taken>, inputs: seq<Input>, start: Device, h: uint32)
    requires Logged(log, inputs, start) && NoEdit(start.v.edits, h) && !NoEdit(End(log, start).v.edits, h)
    ensures h in End(log, start).work && End(log, start).work[h] == WorkOf(log, h)
  {
    var n := |log| - 1;
    LogLess(log, inputs, start, n);
    assert LoggedAt(log, inputs[n], start, n);
    HistoryStep(log[n], h);
    if !(Succeeded(log[n], BEGIN_EDIT_OBJECT) && log[n].step.value.e.q.p1 == h) {
      HistoryLaw(log[..n], inputs, start, h);
    }
  }

  lemma EditedSizeLaw(log: seq<Taken>, inputs: seq<Input>, start: Device, h: uint32, i: nat)
    requires Logged(log, inputs, start) && NoEdit(start.v.edits, h) && EditAt(End(log, start).v.edits, h, i)
    ensures var (w, size) := (WorkOf(log, h), End(log, start).v.edits[i].size);
            && size == Edits.SizeAfter(w.start, w.ops)
            && (Edits.AllRegular(w.start, w.ops) ==> size == Edits.IdealAfter(w.start, w.ops))
  {
    HistoryLaw(log, inputs, start, h);
    HealthyInTheEnd(log, inputs, start);
    var d := End(log, start);
    assert Sane(d);
    assert Tracked(d.v.edits[i], d.work);
    var w := WorkOf(log, h);
    if Edits.AllRegular(w.start, w.ops) {
      Edits.SizeIsFold(w.start, w.ops);
    }
  }

  // ---- Storages ----

  /** A storage that is added comes last; of one that is removed the first occurrence goes. */
  lemma StoragesLaw(t: Taken)
    requires TakenOk(t) && (t.input.StorageAdded? || t.input.StorageRemoved?)
    ensures var (s, was, now) := (t.input.s, t.d0.v.storages, t.d1.v.storages);
            if t.input.StorageAdded? then now == was + [s]
            else if s !in was then now == was
            else exists i: nat :: i < |was| && was[i] == s && s !in was[..i] && now == was[..i] + was[i + 1..]
    ensures t.d1 == t.d0.(v := t.d0.v.(storages := t.d1.v.storages)) && t.flow == Continue
  {
    assert TakenRule(t);
    if t.input.StorageRemoved? && t.input.s in t.d0.v.storages {
      var i := FirstGoes(t.d0.v.storages, t.input.s);
    } else if t.input.StorageRemoved? {
      NoneGoes(t.d0.v.storages, t.input.s);
    }
  }

  lemma {:induction false} FirstGoes(storages: seq<Storage>, s: Storage) returns (i: nat)
    requires s in storages
    ensures i < |storages| && storages[i] == s && s !in storages[..i]
    ensures WithoutFirst(storages, s) == storages[..i] + storages[i + 1..]
  {
    if storages[0] == s {
      i := 0;
    } else {
      var rest := storages[1..];
      var j := FirstGoes(rest, s);
      i := j + 1;
      assert storages == [storages[0]] + rest;
      Further(storages[0], rest, j);
    }
  }

  lemma Further<T>(first: T, rest: seq<T>, j: nat)
    requires j < |rest|
    ensures var all := [first] + rest;
            && all[..j + 1] == [first] + rest[..j] && all[j + 1] == rest[j] && all[j + 1 + 1..] == rest[j + 1..]
  {
  }

  lemma {:induction false} NoneGoes(storages: seq<Storage>, s: Storage)
    requires s !in storages
    ensures WithoutFirst(storages, s) == storages
  {
    if storages != [] {
      NoneGoes(storages[1..], s);
    }
  }

  // ---- Sessions and everything else ----

  lemma SessionLaw(t: Taken)
    requires TakenOk(t) && (Did(t, OPEN_SESSION) || Did(t, CLOSE_SESSION))
    ensures var (e, v) := (t.step.value.e, t.d0.v);
            if Did(t, OPEN_SESSION) then
              if v.sessionOpen then e.outcome == Respond(RESPONSE_SESSION_ALREADY_OPEN) && e.params == [v.sessionID]
              else e.outcome == Respond(RESPONSE_OK) && e.params == []
            else
              e.params == [] && e.outcome == Respond(if v.sessionOpen then RESPONSE_OK else RESPONSE_SESSION_NOT_OPEN)
    ensures t.d1 == t.d0.(v := t.d0.v.(sessionOpen := t.d1.v.sessionOpen, sessionID := t.d1.v.sessionID),
                          announced := INVALID_HANDLE, pending := None)
    ensures t.d1.v.sessionOpen == Did(t, OPEN_SESSION)
    ensures t.d1.v.sessionID == if Did(t, CLOSE_SESSION) then (if t.d0.v.sessionOpen then 0 else t.d0.v.sessionID)
                                else if t.d0.v.sessionOpen then t.d0.v.sessionID else t.step.value.e.q.p1
  {
    OtherStep(t);
    StepReplies(t);
  }

  /** Every operation that is not there to change something gives up an announcement and leaves all else
      as it was. */
  lemma NothingElseChanges(t: Taken)
    requires TakenOk(t) && t.step.Some? && !Changes(t.step.value.e.q.operation)
    ensures t.d1 == t.d0.(announced := INVALID_HANDLE, pending := None)
  {
    OtherStep(t);
    OthersChangeNothing(GivenUp(t.d0, t.step.value.e.q), t.step.value.e.q, t.step.value.e.env);
  }

  /** What is neither a query, a fetch nor a change is refused, except that references can be set in a
      session, to no effect. */
  lemma RefusalLaw(t: Taken)
    requires TakenOk(t) && t.step.Some?
    requires var op := t.step.value.e.q.operation; !IsQuery(op) && !Fetches(op) && !Changes(op)
    ensures var (e, v) := (t.step.value.e, t.d0.v);
            && e.params == [] && (!DataIn(e.q.operation) ==> e.payload == []) && e.sent == None
            && e.outcome == Respond(
                 if e.q.operation == SET_OBJECT_REFERENCES then
                   if !v.sessionOpen then RESPONSE_SESSION_NOT_OPEN
                   else if v.storages == [] then RESPONSE_INVALID_OBJECT_HANDLE
                   else RESPONSE_OK
                 else if e.q.operation == SET_DEVICE_PROP_VALUE then RESPONSE_DEVICE_PROP_NOT_SUPPORTED
                 else RESPONSE_OPERATION_NOT_SUPPORTED)
  {
    StepMoves(t);
    var e := t.step.value.e;
    assert Lawful(e);
    assert ReplyRule(Said(e.v, e.q, e.env, CodeOf(e.outcome), e.params));
  }

  // ---- The loop ----

  /** The loop is left by an exception exactly for the references of a handle that the table does not
      have, and stops exactly if a write to the link fails: that of the data, when there is data to
      send, or, when that was sent, that of the response. */
  lemma LoopLaw(t: Taken)
    requires TakenOk(t) && t.step.Some?
    ensures var (e, v) := (t.step.value.e, t.d0.v);
            var data := e.outcome.Respond? && !DataIn(e.q.operation) && e.payload != [];
            && (t.flow == Escape <==>
                && e.q.operation == GET_OBJECT_REFERENCES && v.sessionOpen && v.storages != []
                && e.q.p1 != 0 && e.q.p1 != PARENT_ROOT && e.q.p1 !in v.db)
            && (t.flow == Stop <==>
                && e.outcome.Respond?
                && (if data && !e.env.dataEnding.Done? then e.env.dataEnding.Failed? else e.env.responseEnding.Failed?))
  {
    StepMoves(t);
    assert Lawful(t.step.value.e);
    assert TakenRule(t);
  }

  /** What is written for a request: first what its handler sent itself, then its data, then its
      response; and nothing behind a write that failed. */
  lemma WrittenLaw(t: Taken)
    requires TakenOk(t) && t.step.Some?
    ensures var e := t.step.value.e;
            var data := !DataIn(e.q.operation) && e.payload != [];
            Written(e) ==
              (if e.sent.Some? then [e.sent.value] else []) +
              (if !e.outcome.Respond? then []
               else
                 (if data && e.env.dataEnding.Done? then
                    [Container(TYPE_DATA, e.q.operation, e.q.transaction, e.payload)] else []) +
                 (if (data && !e.env.dataEnding.Done?) || !e.env.responseEnding.Done? then []
                  else [Container(TYPE_RESPONSE, e.outcome.code, e.q.transaction, Encode(U32s(e.params)))]))
  {
  }

  // ---- The end ----

  lemma {:induction false} CommitsPointwise(t: Table, edits: seq<Edits.Edit>, sizes: uint32 -> Option<nat>)
    requires Edits.Distinct(edits)
    ensures ClosedTable(t, edits, sizes, CommittedAll(t, edits, sizes))
  {
    if edits != [] {
      var n := |edits| - 1;
      CommitsPointwise(t, edits[..n], sizes);
      OneMoreClosed(t, edits, sizes, CommittedAll(t, edits[..n], sizes));
    }
  }

  lemma OneMoreClosed(t: Table, edits: seq<Edits.Edit>, sizes: uint32 -> Option<nat>, before: Table)
    requires edits != [] && Edits.Distinct(edits) && ClosedTable(t, edits[..|edits| - 1], sizes, before)
    ensures var last := edits[|edits| - 1]; ClosedTable(t, edits, sizes, Committed(before, last, sizes(last.handle)))
  {
    var n := |edits| - 1;
    var last := edits[n];
    var now := Committed(before, last, sizes(last.handle));
    forall k | k in t
      ensures NoEdit(edits, k) ==> now[k] == t[k]
      ensures forall i: nat :: EditAt(edits, k, i) ==>
                now[k] == if edits[i].format != FORMAT_ASSOCIATION && sizes(k).Some?
                          then t[k].(size := sizes(k).value) else t[k]
    {
      assert k != last.handle ==> now[k] == before[k];
      assert forall i: nat :: i < n && EditAt(edits, k, i) ==> EditAt(edits[..n], k, i);
      assert EditAt(edits, k, n) ==> NoEdit(edits[..n], k);
    }
  }

  /** The entry of every file that was open for editing has the size then on disk, if that is known, and
      all else is as it was. */
  ghost predicate ClosedTable(was: Table, edits: seq<Edits.Edit>, sizes: uint32 -> Option<nat>, now: Table) {
    && now.Keys == was.Keys
    && forall k :: k in was ==>
         && (NoEdit(edits, k) ==> now[k] == was[k])
         && forall i: nat :: EditAt(edits, k, i) ==>
              now[k] == if edits[i].format != FORMAT_ASSOCIATION && sizes(k).Some?
                        then was[k].(size := sizes(k).value) else was[k]
  }

  /** The shutdown closes every open edit. */
  lemma ShutDownLaw(d: Device, sizes: uint32 -> Option<nat>)
    requires Sane(d)
    ensures var d1 := ShutDown(d, sizes);
            && d1.v.edits == [] && ClosedTable(d.v.db, d.v.edits, sizes, d1.v.db)
            && d1.v == d.v.(db := d1.v.db, edits := [])
  {
    CommitsPointwise(d.v.db, d.v.edits, sizes);
  }
}
