/** What a recursive directory scan puts into the table. */
module Scans {
  import opened MtpTypes
  import opened Strings
  import opened Tables
  import opened Wire

  /** What a file's format can be: guessed from its extension, never that of a folder. */
  type FileFormat = f: uint16 | f != FORMAT_ASSOCIATION

  /** The file system below a path, as the scan finds it. A file whose properties cannot be
      read is not `readable`; a folder that cannot be listed even at the second try is not
      `listable`. */
  datatype Tree =
    | File(name: Name, path: seq<uint8>, format: FileFormat, size: nat, modified: Name, readable: bool)
    | Folder(name: Name, path: seq<uint8>, watch: int, modified: Name, children: seq<Tree>, listable: bool)

  datatype Row = Row(handle: uint32, entry: DbEntry)

  /** The rows a scan adds, in order, how many handles it takes, the counter's next value,
      and whether the scan was broken off by an error. */
  datatype Scan = Scan(rows: seq<Row>, taken: nat, next: uint32, threw: bool)

  /** The counter wraps around. */
  function Succ(counter: uint32): uint32 { (counter + 1) % 0x1_0000_0000 }

  function FileEntry(t: Tree, parent: uint32, storage: uint32): DbEntry
    requires t.File?
  {
    DbEntry(storage, t.format, parent, t.size, t.name, t.path, -1, t.modified)
  }

  function FolderEntry(t: Tree, parent: uint32, storage: uint32): DbEntry
    requires t.Folder?
  {
    DbEntry(storage, FORMAT_ASSOCIATION, parent, 0, t.name, t.path, t.watch, t.modified)
  }

  function ScanTree(t: Tree, parent: uint32, storage: uint32, next: uint32): Scan
    decreases t
  {
    match t
    case File(_, _, _, _, _, readable) =>
      Scan(if readable then [Row(next, FileEntry(t, parent, storage))] else [], 1, Succ(next), false)
    case Folder(_, _, _, _, children, listable) =>
      var me := Row(next, FolderEntry(t, parent, storage));
      if listable then
        var below := ScanAll(children, next, storage, Succ(next));
        below.(rows := [me] + below.rows, taken := 1 + below.taken)
      else Scan([me], 1, Succ(next), true)
  }

  function ScanAll(ts: seq<Tree>, parent: uint32, storage: uint32, next: uint32): Scan
    decreases ts
  {
    if ts == [] then Scan([], 0, next, false)
    else
      var first := ScanTree(ts[0], parent, storage, next);
      if first.threw then first
      else
        var rest := ScanAll(ts[1..], parent, storage, first.next);
        rest.(rows := first.rows + rest.rows, taken := first.taken + rest.taken)
  }

  function InsertAll(t: Table, rows: seq<Row>): Table
    decreases rows
  {
    if rows == [] then t else InsertAll(Insert(t, rows[0].handle, rows[0].entry), rows[1..])
  }

  lemma {:induction false} InsertAllConcat(t: Table, a: seq<Row>, b: seq<Row>)
    ensures InsertAll(t, a + b) == InsertAll(InsertAll(t, a), b)
    decreases a
  {
    if a == [] {
      assert a + b == b;
    } else {
      assert (a + b)[1..] == a[1..] + b;
      InsertAllConcat(Insert(t, a[0].handle, a[0].entry), a[1..], b);
    }
  }

  lemma {:induction false} InsertAllKeeps(t: Table, rows: seq<Row>)
    ensures forall h :: h in t ==> h in InsertAll(t, rows) && InsertAll(t, rows)[h] == t[h]
    decreases rows
  {
    if rows != [] {
      InsertAllKeeps(Insert(t, rows[0].handle, rows[0].entry), rows[1..]);
    }
  }

  // ---- Numbering ----

  /** Whether the scan of the tree meets no folder that it cannot list. */
  predicate Clean(t: Tree) {
    t.Folder? ==> t.listable && AllClean(t.children)
  }

  predicate AllClean(ts: seq<Tree>) {
    ts != [] ==> Clean(ts[0]) && AllClean(ts[1..])
  }

  /** How many handles a scan takes: one for every folder and every file. */
  function Nodes(t: Tree): nat {
    if t.File? then 1 else 1 + AllNodes(t.children)
  }

  function AllNodes(ts: seq<Tree>): nat {
    if ts == [] then 0 else Nodes(ts[0]) + AllNodes(ts[1..])
  }

  /** How many rows it adds: one for every folder and every readable file. */
  function Entries(t: Tree): nat {
    if t.File? then (if t.readable then 1 else 0) else 1 + AllEntries(t.children)
  }

  function AllEntries(ts: seq<Tree>): nat {
    if ts == [] then 0 else Entries(ts[0]) + AllEntries(ts[1..])
  }

  /** The rows carry ascending handles from `from` on and below `to`, and each one's parent is
      the scan's own parent or an earlier row of the scan. */
  ghost predicate Numbered(rows: seq<Row>, parent: uint32, from: nat, to: nat) {
    && (forall i :: 0 <= i < |rows| ==> from <= rows[i].handle < to)
    && (forall i, j :: 0 <= i < j < |rows| ==> rows[i].handle < rows[j].handle)
    && (forall i :: 0 <= i < |rows| ==>
          rows[i].entry.parent == parent || from <= rows[i].entry.parent < rows[i].handle)
  }

  lemma NumberedConcat(a: seq<Row>, b: seq<Row>, parent: uint32, from: nat, mid: nat, to: nat)
    requires Numbered(a, parent, from, mid) && Numbered(b, parent, mid, to) && from <= mid <= to
    ensures Numbered(a + b, parent, from, to)
  {
  }

  lemma NumberedFolder(me: Row, below: seq<Row>, parent: uint32, from: nat, to: nat)
    requires Numbered(below, me.handle, from + 1, to) && me.handle == from < to && me.entry.parent == parent
    ensures Numbered([me] + below, parent, from, to)
  {
    var rows := [me] + below;
    assert forall i :: 0 < i < |rows| ==> rows[i] == below[i - 1];
  }

  /** A scan's rows are on `storage` and numbered in preorder over the handles it takes. */
  ghost predicate WellNumbered(s: Scan, parent: uint32, storage: uint32, next: nat) {
    && s.next == next + s.taken
    && Numbered(s.rows, parent, next, s.next)
    && forall r :: r in s.rows ==> r.entry.storage == storage
  }

  lemma {:induction false} ScanTreeNumbers(t: Tree, parent: uint32, storage: uint32, next: uint32)
    requires next + ScanTree(t, parent, storage, next).taken < 0x1_0000_0000
    ensures WellNumbered(ScanTree(t, parent, storage, next), parent, storage, next)
    decreases t
  {
    if t.Folder? {
      var me := Row(next, FolderEntry(t, parent, storage));
      if t.listable {
        ScanAllNumbers(t.children, next, storage, next + 1);
        NumberFolder(me, ScanAll(t.children, next, storage, next + 1), parent, storage);
      } else {
        NumberOne([me], true, parent, storage, next);
      }
    } else {
      NumberOne(if t.readable then [Row(next, FileEntry(t, parent, storage))] else [], false, parent, storage, next);
    }
  }

  lemma NumberOne(rows: seq<Row>, threw: bool, parent: uint32, storage: uint32, next: uint32)
    requires next + 1 < 0x1_0000_0000 && |rows| <= 1
    requires rows != [] ==> rows[0].handle == next && rows[0].entry.parent == parent && rows[0].entry.storage == storage
    ensures WellNumbered(Scan(rows, 1, next + 1, threw), parent, storage, next)
  {
  }

  lemma NumberFolder(me: Row, below: Scan, parent: uint32, storage: uint32)
    requires WellNumbered(below, me.handle, storage, me.handle + 1)
    requires me.entry.parent == parent && me.entry.storage == storage
    ensures WellNumbered(below.(rows := [me] + below.rows, taken := 1 + below.taken), parent, storage, me.handle)
  {
    NumberedFolder(me, below.rows, parent, me.handle, below.next);
  }

  lemma {:induction false} ScanAllNumbers(ts: seq<Tree>, parent: uint32, storage: uint32, next: uint32)
    requires next + ScanAll(ts, parent, storage, next).taken < 0x1_0000_0000
    ensures WellNumbered(ScanAll(ts, parent, storage, next), parent, storage, next)
    decreases ts
  {
    if ts != [] {
      ScanTreeNumbers(ts[0], parent, storage, next);
      var first := ScanTree(ts[0], parent, storage, next);
      if !first.threw {
        ScanAllNumbers(ts[1..], parent, storage, first.next);
        var rest := ScanAll(ts[1..], parent, storage, first.next);
        NumberedConcat(first.rows, rest.rows, parent, next, first.next, rest.next);
      }
    }
  }

  /** A clean scan comes to its end; it takes a handle per folder and file and adds a row per
      folder and readable file. */
  lemma {:induction false} CleanScanCounts(t: Tree, parent: uint32, storage: uint32, next: uint32)
    requires Clean(t)
    ensures var s := ScanTree(t, parent, storage, next);
            !s.threw && s.taken == Nodes(t) && |s.rows| == Entries(t)
    decreases t
  {
    if t.Folder? {
      CleanScanAllCounts(t.children, next, storage, Succ(next));
    }
  }

  lemma {:induction false} CleanScanAllCounts(ts: seq<Tree>, parent: uint32, storage: uint32, next: uint32)
    requires AllClean(ts)
    ensures var s := ScanAll(ts, parent, storage, next);
            !s.threw && s.taken == AllNodes(ts) && |s.rows| == AllEntries(ts)
    decreases ts
  {
    if ts != [] {
      CleanScanCounts(ts[0], parent, storage, next);
      CleanScanAllCounts(ts[1..], parent, storage, ScanTree(ts[0], parent, storage, next).next);
    }
  }

  // ---- Errors ----

  /** The tree as far as a scan comes: up to the first folder that cannot be listed, which
      stands there without what is in it. */
  function UpToError(t: Tree): Tree
    decreases t
  {
    if t.File? then t
    else if t.listable then t.(children := AllUpToError(t.children))
    else t.(children := [], listable := true)
  }

  function AllUpToError(ts: seq<Tree>): seq<Tree>
    decreases ts
  {
    if ts == [] then []
    else if Clean(ts[0]) then [UpToError(ts[0])] + AllUpToError(ts[1..])
    else [UpToError(ts[0])]
  }

  /** A scan is broken off exactly if some folder cannot be listed, and gives what the scan of
      the tree up to there gives. */
  lemma {:induction false} ScanUpToError(t: Tree, parent: uint32, storage: uint32, next: uint32)
    ensures Clean(UpToError(t))
    ensures ScanTree(t, parent, storage, next) ==
            ScanTree(UpToError(t), parent, storage, next).(threw := !Clean(t))
    decreases t
  {
    if t.Folder? && t.listable {
      ScanAllUpToError(t.children, next, storage, Succ(next));
    } else if t.Folder? {
      var me := Row(next, FolderEntry(t, parent, storage));
      var s := ScanAll([], next, storage, Succ(next));
      assert s == Scan([], 0, Succ(next), false) && [me] + s.rows == [me];
    }
  }

  lemma {:induction false} ScanAllUpToError(ts: seq<Tree>, parent: uint32, storage: uint32, next: uint32)
    ensures AllClean(AllUpToError(ts))
    ensures ScanAll(ts, parent, storage, next) ==
            ScanAll(AllUpToError(ts), parent, storage, next).(threw := !AllClean(ts))
    decreases ts
  {
    if ts != [] {
      ScanUpToError(ts[0], parent, storage, next);
      CleanScanCounts(UpToError(ts[0]), parent, storage, next);
      var first := ScanTree(ts[0], parent, storage, next);
      if Clean(ts[0]) {
        ScanAllUpToError(ts[1..], parent, storage, first.next);
        assert AllUpToError(ts)[1..] == AllUpToError(ts[1..]);
      } else {
        assert AllUpToError(ts)[1..] == [];
        assert first.rows + [] == first.rows;
      }
    }
  }

  // ---- The tree can be rebuilt from the rows ----

  /** What of a tree ends up in the table: files with all that is known of them, and folders with
      what is in them. */
  datatype Shape =
    | Leaf(name: Name, path: seq<uint8>, format: uint16, size: nat, watch: int, modified: Name)
    | Branch(name: Name, path: seq<uint8>, size: nat, watch: int, modified: Name, children: seq<Shape>)

  function ShapeOf(t: Tree): seq<Shape>
    decreases t
  {
    match t
    case File(name, path, format, size, modified, readable) =>
      if readable then [Leaf(name, path, format, size, -1, modified)] else []
    case Folder(name, path, watch, modified, children, _) =>
      [Branch(name, path, 0, watch, modified, ShapesOf(children))]
  }

  function ShapesOf(ts: seq<Tree>): seq<Shape>
    decreases ts
  {
    if ts == [] then [] else ShapeOf(ts[0]) + ShapesOf(ts[1..])
  }

  /** Rows whose parent is `h`, in order. */
  function ChildrenIn(rows: seq<Row>, h: uint32): seq<Row> {
    if rows == [] then []
    else (if rows[0].entry.parent == h then [rows[0]] else []) + ChildrenIn(rows[1..], h)
  }

  /** A file as the table has it. */
  function LeafIn(e: DbEntry): Shape { Leaf(e.name, e.path, e.format, e.size, e.watch, e.modified) }

  /** A folder as the table has it. */
  function BranchIn(e: DbEntry, children: seq<Shape>): Shape {
    Branch(e.name, e.path, e.size, e.watch, e.modified, children)
  }

  /** The shape that parent links give to the rows `those` among `rows`, followed down to a
      given depth. */
  function Rebuild(rows: seq<Row>, those: seq<Row>, depth: nat): seq<Shape>
    decreases depth, those
  {
    if those == [] then []
    else
      var e := those[0].entry;
      var shape :=
        if e.format != FORMAT_ASSOCIATION then LeafIn(e)
        else BranchIn(e, if depth == 0 then [] else Rebuild(rows, ChildrenIn(rows, those[0].handle), depth - 1));
      [shape] + Rebuild(rows, those[1..], depth)
  }

  lemma {:induction false} ChildrenInConcat(a: seq<Row>, b: seq<Row>, h: uint32)
    ensures ChildrenIn(a + b, h) == ChildrenIn(a, h) + ChildrenIn(b, h)
  {
    if a == [] {
      assert a + b == b;
    } else {
      assert (a + b)[1..] == a[1..] + b;
      ChildrenInConcat(a[1..], b, h);
      Assoc(if a[0].entry.parent == h then [a[0]] else [], ChildrenIn(a[1..], h), ChildrenIn(b, h));
    }
  }

  lemma {:induction false} NoChildren(rows: seq<Row>, h: uint32)
    requires forall r :: r in rows ==> r.entry.parent != h
    ensures ChildrenIn(rows, h) == []
  {
    if rows != [] {
      NoChildren(rows[1..], h);
    }
  }

  lemma {:induction false} RebuildConcat(rows: seq<Row>, a: seq<Row>, b: seq<Row>, depth: nat)
    ensures Rebuild(rows, a + b, depth) == Rebuild(rows, a, depth) + Rebuild(rows, b, depth)
    decreases a
  {
    if a == [] {
      assert a + b == b;
    } else {
      assert (a + b)[1..] == a[1..] + b;
      RebuildConcat(rows, a[1..], b, depth);
      Assoc([Rebuild(rows, a, depth)[0]], Rebuild(rows, a[1..], depth), Rebuild(rows, b, depth));
    }
  }

  /** Below the handles in the range, `rows` has the same children as `inner`. */
  ghost predicate Embeds(rows: seq<Row>, inner: seq<Row>, from: nat, to: nat) {
    forall h: uint32 :: from <= h < to ==> SameChildren(rows, inner, h)
  }

  ghost predicate SameChildren(rows: seq<Row>, inner: seq<Row>, h: uint32) {
    ChildrenIn(rows, h) == ChildrenIn(inner, h)
  }

  function Depth(t: Tree): nat
    decreases t
  {
    if t.File? then 0 else 1 + AllDepth(t.children)
  }

  function AllDepth(ts: seq<Tree>): nat
    decreases ts
  {
    if ts == [] then 0 else Max(Depth(ts[0]), AllDepth(ts[1..]))
  }

  /** The rows a scan puts directly below its parent. */
  lemma TopRows(me: Row, below: seq<Row>, parent: uint32, from: nat, to: nat)
    requires Numbered(below, me.handle, from + 1, to) && me.handle == from < to && me.entry.parent == parent
    requires !(from <= parent < to)
    ensures ChildrenIn([me] + below, parent) == [me]
  {
    NoChildren(below, parent);
    assert ([me] + below)[1..] == below;
  }

  lemma NumberedChildren(rows: seq<Row>, parent: uint32, from: nat, to: nat, h: uint32)
    requires Numbered(rows, parent, from, to) && h != parent && h < from
    ensures ChildrenIn(rows, h) == []
  {
    NoChildren(rows, h);
  }

  lemma NumberedChildrenAbove(rows: seq<Row>, parent: uint32, from: nat, to: nat, h: uint32)
    requires Numbered(rows, parent, from, to) && h != parent && to <= h
    ensures ChildrenIn(rows, h) == []
  {
    NoChildren(rows, h);
  }

  lemma EmbedsBelow(rows: seq<Row>, me: Row, below: seq<Row>, from: nat, to: nat)
    requires Embeds(rows, [me] + below, from, to) && me.handle == from < to
    requires !(from <= me.entry.parent < to)
    ensures Embeds(rows, below, from + 1, to) && ChildrenIn(rows, from) == ChildrenIn(below, from)
  {
    forall h: uint32 | from <= h < to
      ensures SameChildren(rows, below, h)
    {
      assert SameChildren(rows, [me] + below, h);
      assert ([me] + below)[1..] == below;
    }
    assert SameChildren(rows, below, from);
  }

  lemma EmbedsSplit(rows: seq<Row>, a: seq<Row>, b: seq<Row>, parent: uint32, from: nat, mid: nat, to: nat)
    requires Embeds(rows, a + b, from, to) && from <= mid <= to && !(from <= parent < to)
    requires Numbered(a, parent, from, mid) && Numbered(b, parent, mid, to)
    ensures Embeds(rows, a, from, mid) && Embeds(rows, b, mid, to)
  {
    forall h: uint32 | from <= h < to
      ensures h < mid ==> SameChildren(rows, a, h)
      ensures mid <= h ==> SameChildren(rows, b, h)
    {
      assert SameChildren(rows, a + b, h);
      ChildrenInConcat(a, b, h);
      if h < mid {
        NumberedChildren(b, parent, mid, to, h);
      } else {
        NumberedChildrenAbove(a, parent, from, mid, h);
      }
    }
  }

  lemma RebuildOne(rows: seq<Row>, r: Row, depth: nat)
    ensures r.entry.format != FORMAT_ASSOCIATION ==> Rebuild(rows, [r], depth) == [LeafIn(r.entry)]
    ensures r.entry.format == FORMAT_ASSOCIATION && depth > 0 ==>
      Rebuild(rows, [r], depth) == [BranchIn(r.entry, Rebuild(rows, ChildrenIn(rows, r.handle), depth - 1))]
  {
    assert [r][1..] == [] && Rebuild(rows, [], depth) == [];
  }

  lemma OwnRow(r: Row, parent: uint32)
    requires r.entry.parent == parent
    ensures ChildrenIn([r], parent) == [r]
  {
    assert [r][1..] == [] && ChildrenIn([], parent) == [];
  }

  lemma FolderScan(t: Tree, parent: uint32, storage: uint32, next: uint32)
    requires t.Folder? && Clean(t) && next + Nodes(t) < 0x1_0000_0000
    ensures var below := ScanAll(t.children, next, storage, next + 1);
            && ScanTree(t, parent, storage, next).rows == [Row(next, FolderEntry(t, parent, storage))] + below.rows
            && Numbered(below.rows, next, next + 1, next + Nodes(t))
  {
    CleanScanAllCounts(t.children, next, storage, next + 1);
    ScanAllNumbers(t.children, next, storage, next + 1);
  }

  /** The scan of `t` lies in `rows` so that parent links lead to its rows and to no others. */
  ghost predicate TreeIn(t: Tree, parent: uint32, storage: uint32, next: uint32, rows: seq<Row>, depth: nat) {
    && Clean(t) && next + Nodes(t) < 0x1_0000_0000 && !(next <= parent < next + Nodes(t)) && Depth(t) <= depth
    && Embeds(rows, ScanTree(t, parent, storage, next).rows, next, next + Nodes(t))
  }

  ghost predicate AllIn(ts: seq<Tree>, parent: uint32, storage: uint32, next: uint32, rows: seq<Row>, depth: nat) {
    && AllClean(ts) && next + AllNodes(ts) < 0x1_0000_0000 && !(next <= parent < next + AllNodes(ts))
    && AllDepth(ts) <= depth
    && Embeds(rows, ScanAll(ts, parent, storage, next).rows, next, next + AllNodes(ts))
  }

  /** The shape that parent links give, from the scan's top rows down, is that of the tree. */
  ghost predicate TreeRebuilt(t: Tree, parent: uint32, storage: uint32, next: uint32, rows: seq<Row>, depth: nat) {
    Rebuild(rows, ChildrenIn(ScanTree(t, parent, storage, next).rows, parent), depth) == ShapeOf(t)
  }

  ghost predicate AllRebuilt(ts: seq<Tree>, parent: uint32, storage: uint32, next: uint32, rows: seq<Row>, depth: nat) {
    Rebuild(rows, ChildrenIn(ScanAll(ts, parent, storage, next).rows, parent), depth) == ShapesOf(ts)
  }

  lemma RebuildFile(t: Tree, parent: uint32, storage: uint32, next: uint32, rows: seq<Row>, depth: nat)
    requires t.File?
    ensures TreeRebuilt(t, parent, storage, next, rows, depth)
  {
    if t.readable {
      var r := Row(next, FileEntry(t, parent, storage));
      OwnRow(r, parent);
      RebuildOne(rows, r, depth);
    }
  }

  lemma FolderIn(t: Tree, parent: uint32, storage: uint32, next: uint32, rows: seq<Row>, depth: nat)
    requires t.Folder? && TreeIn(t, parent, storage, next, rows, depth)
    ensures next + 1 < 0x1_0000_0000 && 0 < depth && AllIn(t.children, next, storage, next + 1, rows, depth - 1)
    ensures ChildrenIn(rows, next) == ChildrenIn(ScanAll(t.children, next, storage, next + 1).rows, next)
    ensures ChildrenIn(ScanTree(t, parent, storage, next).rows, parent) == [Row(next, FolderEntry(t, parent, storage))]
  {
    FolderScan(t, parent, storage, next);
    var below := ScanAll(t.children, next, storage, next + 1).rows;
    var me := Row(next, FolderEntry(t, parent, storage));
    TopRows(me, below, parent, next, next + Nodes(t));
    EmbedsBelow(rows, me, below, next, next + Nodes(t));
  }

  lemma FolderGoesDown(t: Tree, parent: uint32, storage: uint32, next: uint32, rows: seq<Row>, depth: nat)
    requires t.Folder? && TreeIn(t, parent, storage, next, rows, depth)
    ensures next + 1 < 0x1_0000_0000 && 0 < depth && AllIn(t.children, next, storage, next + 1, rows, depth - 1)
  {
    FolderIn(t, parent, storage, next, rows, depth);
  }

  lemma RebuildFolder(t: Tree, parent: uint32, storage: uint32, next: uint32, rows: seq<Row>, depth: nat)
    requires t.Folder? && TreeIn(t, parent, storage, next, rows, depth)
    requires next + 1 < 0x1_0000_0000 && 0 < depth && AllRebuilt(t.children, next, storage, next + 1, rows, depth - 1)
    ensures TreeRebuilt(t, parent, storage, next, rows, depth)
  {
    FolderIn(t, parent, storage, next, rows, depth);
    RebuildOne(rows, Row(next, FolderEntry(t, parent, storage)), depth);
  }

  lemma AllInSplit(ts: seq<Tree>, parent: uint32, storage: uint32, next: uint32, rows: seq<Row>, depth: nat)
    requires ts != [] && AllIn(ts, parent, storage, next, rows, depth)
    ensures TreeIn(ts[0], parent, storage, next, rows, depth)
    ensures AllIn(ts[1..], parent, storage, next + Nodes(ts[0]), rows, depth)
    ensures ScanAll(ts, parent, storage, next).rows ==
            ScanTree(ts[0], parent, storage, next).rows + ScanAll(ts[1..], parent, storage, next + Nodes(ts[0])).rows
  {
    CleanScanCounts(ts[0], parent, storage, next);
    ScanTreeNumbers(ts[0], parent, storage, next);
    var first := ScanTree(ts[0], parent, storage, next);
    CleanScanAllCounts(ts[1..], parent, storage, first.next);
    ScanAllNumbers(ts[1..], parent, storage, first.next);
    var rest := ScanAll(ts[1..], parent, storage, first.next);
    EmbedsSplit(rows, first.rows, rest.rows, parent, next, first.next, rest.next);
  }

  lemma {:induction false} RebuildTree(t: Tree, parent: uint32, storage: uint32, next: uint32, rows: seq<Row>,
                                       depth: nat)
    requires TreeIn(t, parent, storage, next, rows, depth)
    ensures TreeRebuilt(t, parent, storage, next, rows, depth)
    decreases t
  {
    if t.File? {
      RebuildFile(t, parent, storage, next, rows, depth);
    } else {
      RebuildChildren(t, parent, storage, next, rows, depth);
      RebuildFolder(t, parent, storage, next, rows, depth);
    }
  }

  lemma {:induction false} RebuildChildren(t: Tree, parent: uint32, storage: uint32, next: uint32, rows: seq<Row>,
                                           depth: nat)
    requires t.Folder? && TreeIn(t, parent, storage, next, rows, depth)
    ensures next + 1 < 0x1_0000_0000 && 0 < depth && AllRebuilt(t.children, next, storage, next + 1, rows, depth - 1)
    decreases t, 0
  {
    FolderGoesDown(t, parent, storage, next, rows, depth);
    RebuildAll(t.children, next, storage, next + 1, rows, depth - 1);
  }

  lemma {:induction false} RebuildAll(ts: seq<Tree>, parent: uint32, storage: uint32, next: uint32, rows: seq<Row>,
                                      depth: nat)
    requires AllIn(ts, parent, storage, next, rows, depth)
    ensures AllRebuilt(ts, parent, storage, next, rows, depth)
    decreases ts
  {
    if ts != [] {
      AllInSplit(ts, parent, storage, next, rows, depth);
      var next' := next + Nodes(ts[0]);
      RebuildTree(ts[0], parent, storage, next, rows, depth);
      RebuildAll(ts[1..], parent, storage, next', rows, depth);
      var a, b := ScanTree(ts[0], parent, storage, next).rows, ScanAll(ts[1..], parent, storage, next').rows;
      ChildrenInConcat(a, b, parent);
      RebuildConcat(rows, ChildrenIn(a, parent), ChildrenIn(b, parent), depth);
    }
  }

  // ---- In the table ----

  function RowsFor(t: Table, keys: seq<uint32>): seq<Row>
    requires forall k :: k in keys ==> k in t
  {
    if keys == [] then [] else [Row(keys[0], t[keys[0]])] + RowsFor(t, keys[1..])
  }

  /** The table as rows in ascending order of their handles. */
  function RowsOf(t: Table): seq<Row> {
    assert forall k :: k in AscendingKeys(t.Keys) ==> k in t.Keys;
    RowsFor(t, AscendingKeys(t.Keys))
  }

  lemma {:induction false} RowsForConcat(t: Table, a: seq<uint32>, b: seq<uint32>)
    requires forall k :: k in a + b ==> k in t
    ensures (forall k :: k in a ==> k in t) && (forall k :: k in b ==> k in t)
    ensures RowsFor(t, a + b) == RowsFor(t, a) + RowsFor(t, b)
  {
    assert forall k :: k in a || k in b ==> k in a + b;
    if a == [] {
      assert a + b == b;
    } else {
      assert (a + b)[1..] == a[1..] + b;
      RowsForConcat(t, a[1..], b);
      Assoc([Row(a[0], t[a[0]])], RowsFor(t, a[1..]), RowsFor(t, b));
    }
  }

  lemma {:induction false} RowsForSame(t: Table, t': Table, keys: seq<uint32>)
    requires forall k :: k in keys ==> k in t && k in t' && t[k] == t'[k]
    ensures RowsFor(t, keys) == RowsFor(t', keys)
  {
    if keys != [] {
      RowsForSame(t, t', keys[1..]);
    }
  }

  lemma {:induction false} RowsForHandles(t: Table, rows: seq<Row>)
    requires forall r :: r in rows ==> r.handle in t && t[r.handle] == r.entry
    ensures (forall k :: k in Handles(rows) ==> k in t) && RowsFor(t, Handles(rows)) == rows
  {
    HandlesIn(t, rows);
    if rows != [] {
      assert Handles(rows)[1..] == Handles(rows[1..]);
      RowsForHandles(t, rows[1..]);
      assert rows[0] in rows && rows == [rows[0]] + rows[1..];
      assert RowsFor(t, Handles(rows)) == [Row(rows[0].handle, t[rows[0].handle])] + RowsFor(t, Handles(rows[1..]));
    }
  }

  lemma HandlesIn(t: Table, rows: seq<Row>)
    requires forall r :: r in rows ==> r.handle in t
    ensures forall k :: k in Handles(rows) ==> k in t
  {
    forall k | k in Handles(rows)
      ensures k in t
    {
      var i :| 0 <= i < |rows| && Handles(rows)[i] == k;
      assert rows[i] in rows;
    }
  }

  /** `t'` is `t` with the rows added. */
  ghost predicate Extends(t: Table, rows: seq<Row>, t': Table) {
    && (forall h :: h in t ==> h in t' && t'[h] == t[h])
    && (forall r :: r in rows ==> r.handle in t' && t'[r.handle] == r.entry)
    && (forall h :: h in t' ==> h in t || exists r :: r in rows && r.handle == h)
    && |t'| == |t| + |rows|
  }

  lemma ExtendsByOne(t: Table, r: Row, rest: seq<Row>, t': Table)
    requires r.handle !in t && Extends(t[r.handle := r.entry], rest, t')
    ensures Extends(t, [r] + rest, t')
  {
    var t1 := t[r.handle := r.entry];
    assert |t1| == |t| + 1;
    forall h | h in t
      ensures h in t' && t'[h] == t[h]
    {
      assert h in t1 && t1[h] == t[h];
    }
    forall h | h in t'
      ensures h in t || exists q :: q in [r] + rest && q.handle == h
    {
      if h !in t1 {
        var q :| q in rest && q.handle == h;
        assert q in [r] + rest;
      } else if h !in t {
        assert r in [r] + rest && r.handle == h;
      }
    }
    assert r.handle in t1;
  }

  /** Rows with ascending fresh handles are all added and replace nothing. */
  lemma {:induction false} InsertFresh(t: Table, rows: seq<Row>, last: int)
    requires forall h :: h in t ==> h <= last
    requires forall i :: 0 <= i < |rows| ==> last < rows[i].handle
    requires forall i, j :: 0 <= i < j < |rows| ==> rows[i].handle < rows[j].handle
    ensures Extends(t, rows, InsertAll(t, rows))
    decreases rows
  {
    if rows != [] {
      var r, rest := rows[0], rows[1..];
      assert r.handle !in t;
      InsertFresh(t[r.handle := r.entry], rest, r.handle);
      ExtendsByOne(t, r, rest, InsertAll(t, rows));
      assert rows == [r] + rest;
    }
  }

  function Handles(rows: seq<Row>): (r: seq<uint32>)
    ensures |r| == |rows|
  {
    seq(|rows|, i requires 0 <= i < |rows| => rows[i].handle)
  }

  /** The rows have ascending handles from `next` on, and the table's are all below. */
  ghost predicate Beyond(t: Table, rows: seq<Row>, next: nat) {
    && (forall h :: h in t ==> h < next)
    && (forall i :: 0 <= i < |rows| ==> next <= rows[i].handle)
    && (forall i, j :: 0 <= i < j < |rows| ==> rows[i].handle < rows[j].handle)
  }

  lemma HandlesAscend(t: Table, rows: seq<Row>, next: nat)
    requires Beyond(t, rows, next)
    ensures Ascending(AscendingKeys(t.Keys) + Handles(rows))
  {
    var a, b := AscendingKeys(t.Keys), Handles(rows);
    forall i, j | 0 <= i < j < |a + b|
      ensures (a + b)[i] < (a + b)[j]
    {
      if i < |a| <= j {
        assert a[i] in t.Keys;
      }
    }
  }

  lemma HandlesCover(t: Table, rows: seq<Row>, t': Table, k: uint32)
    requires Extends(t, rows, t')
    ensures k in t' <==> k in AscendingKeys(t.Keys) + Handles(rows)
  {
    var a, b := AscendingKeys(t.Keys), Handles(rows);
    if k in b {
      var i :| 0 <= i < |b| && b[i] == k;
      assert rows[i] in rows;
    }
    if k in t' && k !in t {
      var r :| r in rows && r.handle == k;
      var i :| 0 <= i < |rows| && rows[i] == r;
      assert b[i] == k;
    }
    assert k in a <==> k in t.Keys;
  }

  lemma KeysAppend(t: Table, rows: seq<Row>, next: nat)
    requires Beyond(t, rows, next)
    ensures AscendingKeys(InsertAll(t, rows).Keys) == AscendingKeys(t.Keys) + Handles(rows)
  {
    var t' := InsertAll(t, rows);
    InsertFresh(t, rows, next as int - 1);
    HandlesAscend(t, rows, next);
    forall k
      ensures k in AscendingKeys(t'.Keys) <==> k in AscendingKeys(t.Keys) + Handles(rows)
    {
      HandlesCover(t, rows, t', k);
      assert k in AscendingKeys(t'.Keys) <==> k in t'.Keys;
    }
    AscendingUnique(AscendingKeys(t'.Keys), AscendingKeys(t.Keys) + Handles(rows));
  }

  /** New rows with larger handles come after all others. */
  lemma RowsAppend(t: Table, rows: seq<Row>, next: nat)
    requires Beyond(t, rows, next)
    ensures RowsOf(InsertAll(t, rows)) == RowsOf(t) + rows
  {
    var t' := InsertAll(t, rows);
    InsertFresh(t, rows, next as int - 1);
    KeysAppend(t, rows, next);
    var a, b := AscendingKeys(t.Keys), Handles(rows);
    assert forall k :: k in a ==> k in t.Keys;
    RowsForHandles(t', rows);
    assert forall k :: k in a + b ==> k in a || k in b;
    RowsForConcat(t', a, b);
    RowsForSame(t, t', a);
  }

  lemma {:induction false} RowsForMembers(t: Table, keys: seq<uint32>, r: Row)
    requires forall k :: k in keys ==> k in t
    requires r in RowsFor(t, keys)
    ensures r.handle in t && t[r.handle] == r.entry
  {
    if r != RowsFor(t, keys)[0] {
      assert r in RowsFor(t, keys)[1..];
      RowsForMembers(t, keys[1..], r);
    }
  }

  /** No earlier entry is below a new handle. */
  lemma NoEarlierChildren(t: Table, h: uint32)
    requires Ordered(t) && h != 0 && h != PARENT_ROOT && forall k :: k in t ==> k < h
    ensures ChildrenIn(RowsOf(t), h) == []
  {
    forall r | r in RowsOf(t)
      ensures r.entry.parent != h
    {
      assert forall k :: k in AscendingKeys(t.Keys) ==> k in t.Keys;
      RowsForMembers(t, AscendingKeys(t.Keys), r);
    }
    NoChildren(RowsOf(t), h);
  }

  lemma NewRowsEmbed(t: Table, rows: seq<Row>, from: nat, to: nat)
    requires Beyond(t, rows, from) && Ordered(t) && 0 < from && to <= PARENT_ROOT
    ensures Embeds(RowsOf(InsertAll(t, rows)), rows, from, to)
  {
    RowsAppend(t, rows, from);
    forall h: uint32 | from <= h < to
      ensures SameChildren(RowsOf(t) + rows, rows, h)
    {
      ChildrenInConcat(RowsOf(t), rows, h);
      NoEarlierChildren(t, h);
    }
  }

  /** A directory tree scanned into an ordered table can be read back from the table: following
      parent links from the new rows below `parent` gives exactly the folders and readable files
      that the scan comes to, nested as they were, with all that it found of each. */
  lemma ScannedTreeCanBeRebuilt(t: Table, tree: Tree, parent: uint32, storage: uint32, next: uint32)
    requires 0 < next && next + Nodes(UpToError(tree)) <= PARENT_ROOT
    requires !(next <= parent < next + Nodes(UpToError(tree)))
    requires Ordered(t) && forall h :: h in t ==> h < next
    ensures var rows := ScanTree(tree, parent, storage, next).rows;
            Rebuild(RowsOf(InsertAll(t, rows)), ChildrenIn(rows, parent), Depth(UpToError(tree))) ==
            ShapeOf(UpToError(tree))
  {
    ScanUpToError(tree, parent, storage, next);
    CleanTreeCanBeRebuilt(t, UpToError(tree), parent, storage, next);
  }

  lemma CleanTreeCanBeRebuilt(t: Table, tree: Tree, parent: uint32, storage: uint32, next: uint32)
    requires Clean(tree) && 0 < next && next + Nodes(tree) <= PARENT_ROOT && !(next <= parent < next + Nodes(tree))
    requires Ordered(t) && forall h :: h in t ==> h < next
    ensures var rows := ScanTree(tree, parent, storage, next).rows;
            Rebuild(RowsOf(InsertAll(t, rows)), ChildrenIn(rows, parent), Depth(tree)) == ShapeOf(tree)
  {
    CleanScanCounts(tree, parent, storage, next);
    ScanTreeNumbers(tree, parent, storage, next);
    var rows := ScanTree(tree, parent, storage, next).rows;
    NewRowsEmbed(t, rows, next, next + Nodes(tree));
    assert TreeIn(tree, parent, storage, next, RowsOf(InsertAll(t, rows)), Depth(tree));
    RebuildTree(tree, parent, storage, next, RowsOf(InsertAll(t, rows)), Depth(tree));
    assert TreeRebuilt(tree, parent, storage, next, RowsOf(InsertAll(t, rows)), Depth(tree));
  }

  /** Numbered rows below a known parent keep a table ordered. */
  lemma ScanKeepsOrder(t: Table, rows: seq<Row>, parent: uint32, next: uint32, to: nat)
    requires Ordered(t) && forall h :: h in t ==> h < next
    requires Numbered(rows, parent, next, to) && (parent == 0 || parent == PARENT_ROOT || parent < next)
    ensures Ordered(InsertAll(t, rows)) && Extends(t, rows, InsertAll(t, rows))
  {
    var t' := InsertAll(t, rows);
    InsertFresh(t, rows, next - 1);
    forall h | h in t'
      ensures AtTop(t'[h].parent) || t'[h].parent < h
    {
      if h !in t {
        var r :| r in rows && r.handle == h;
        var i :| 0 <= i < |rows| && rows[i] == r;
      }
    }
  }
}
