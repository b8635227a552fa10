/** The object table: handles and entries that point to their parents. */
module Tables {
  import opened MtpTypes
  import opened Strings

  const FORMAT_ASSOCIATION: uint16 := 0x3001

  datatype DbEntry = DbEntry(
    storage: uint32, format: uint16, parent: uint32, size: nat,
    name: Name, path: seq<uint8>, watch: int, modified: Name)

  type Table = map<uint32, DbEntry>

  /** `std::map::insert`: an existing entry stays. */
  function Insert(t: Table, h: uint32, e: DbEntry): Table {
    if h in t then t else t[h := e]
  }

  // ---- Keys in ascending order ----

  ghost predicate Ascending(s: seq<uint32>) {
    forall i, j :: 0 <= i < j < |s| ==> s[i] < s[j]
  }

  ghost predicate IsLeast(k: uint32, s: set<uint32>) {
    k in s && forall j :: j in s ==> k <= j
  }

  lemma {:induction false} LeastExists(s: set<uint32>)
    requires s != {}
    ensures exists k :: IsLeast(k, s)
  {
    var x :| x in s;
    if s == {x} {
      assert IsLeast(x, s);
    } else {
      LeastExists(s - {x});
      var y :| IsLeast(y, s - {x});
      var k := if x <= y then x else y;
      forall j | j in s
        ensures k <= j
      {
        assert j == x || j in s - {x};
      }
      assert IsLeast(k, s);
    }
  }

  function Least(s: set<uint32>): (k: uint32)
    requires s != {}
    ensures IsLeast(k, s)
  {
    assert exists k :: k in s && forall j :: j in s ==> k <= j by {
      LeastExists(s);
      var k :| IsLeast(k, s);
    }
    var k :| k in s && forall j :: j in s ==> k <= j;
    k
  }

  /** The order in which `std::map` visits its keys. */
  function AscendingKeys(s: set<uint32>): (r: seq<uint32>)
    ensures Ascending(r) && forall k :: k in r <==> k in s
  {
    if s == {} then []
    else
      var k := Least(s);
      var rest := AscendingKeys(s - {k});
      assert forall i :: 0 <= i < |rest| ==> rest[i] in s - {k};
      [k] + rest
  }

  /** An ascending sequence is determined by its elements. */
  lemma {:induction false} AscendingUnique(a: seq<uint32>, b: seq<uint32>)
    requires Ascending(a) && Ascending(b) && forall k :: k in a <==> k in b
    ensures a == b
  {
    assert b != [] ==> b[0] in a;
    if a != [] {
      assert a[0] in b;
      var i :| 0 <= i < |b| && b[i] == a[0];
      var j :| 0 <= j < |a| && a[j] == b[0];
      assert a[0] == b[0];
      forall k
        ensures k in a[1..] <==> k in b[1..]
      {
        assert k in a[1..] <==> k in a && k != a[0];
        assert k in b[1..] <==> k in b && k != b[0];
      }
      AscendingUnique(a[1..], b[1..]);
      assert a == [a[0]] + a[1..] && b == [b[0]] + b[1..];
    }
  }

  // ---- Listings ----

  /** What a listing of one parent on one storage selects; format 0 means any. */
  predicate Selected(e: DbEntry, storage: uint32, format: uint16, parent: uint32) {
    e.storage == storage && e.parent == parent && (format == 0 || e.format == format)
  }

  /** The parent that a listing looks for. */
  function Effective(parent: uint32): uint32 {
    if parent == PARENT_ROOT then 0 else parent
  }

  ghost predicate IsListing(t: Table, storage: uint32, format: uint16, parent: uint32, list: seq<uint32>) {
    && Ascending(list)
    && forall h :: h in list <==> h in t && Selected(t[h], storage, format, Effective(parent))
  }

  /** The listings of a storage over all parents are disjoint, and together they show exactly
      the storage's entries, except those whose own parent is the reserved root value. */
  lemma ListingsPartition(t: Table, storage: uint32, lists: uint32 -> seq<uint32>)
    requires forall p: uint32 :: IsListing(t, storage, 0, p, lists(p))
    ensures forall p: uint32, q: uint32, h: uint32 ::
      h in lists(p) && h in lists(q) ==> Effective(p) == Effective(q)
    ensures forall h: uint32 ::
      (exists p: uint32 :: h in lists(p)) <==> h in t && t[h].storage == storage && t[h].parent != PARENT_ROOT
  {
    forall h: uint32
      ensures (exists p: uint32 :: h in lists(p)) <==> h in t && t[h].storage == storage && t[h].parent != PARENT_ROOT
    {
      if h in t && t[h].storage == storage && t[h].parent != PARENT_ROOT {
        assert h in lists(t[h].parent);
      }
    }
  }

  // ---- Reachability ----

  predicate AtTop(parent: uint32) { parent == 0 || parent == PARENT_ROOT }

  /** `chain` follows parent links from its first handle to the root. */
  ghost predicate IsChain(t: Table, chain: seq<uint32>) {
    && chain != []
    && (forall i :: 0 <= i < |chain| ==> chain[i] in t)
    && (forall i :: 0 <= i < |chain| - 1 ==> t[chain[i]].parent == chain[i + 1])
    && AtTop(t[chain[|chain| - 1]].parent)
  }

  ghost predicate Reachable(t: Table, h: uint32) {
    exists chain :: IsChain(t, chain) && chain[0] == h
  }

  /** The table keeps no entry under a reserved handle. */
  ghost predicate Proper(t: Table) { 0 !in t && PARENT_ROOT !in t }

  lemma ChainTail(t: Table, chain: seq<uint32>)
    requires IsChain(t, chain) && |chain| > 1
    ensures IsChain(t, chain[1..])
  {
    var tail := chain[1..];
    forall i | 0 <= i < |tail| - 1
      ensures t[tail[i]].parent == tail[i + 1]
    {
      assert t[chain[i + 1]].parent == chain[i + 2];
    }
  }

  /** An entry has at most one chain to the root. */
  lemma {:induction false} ChainUnique(t: Table, a: seq<uint32>, b: seq<uint32>)
    requires Proper(t) && IsChain(t, a) && IsChain(t, b) && a[0] == b[0]
    ensures a == b
  {
    assert |a| > 1 ==> t[a[0]].parent == a[1] && a[1] in t;
    assert |b| > 1 ==> t[b[0]].parent == b[1] && b[1] in t;
    if |a| > 1 && |b| > 1 {
      ChainTail(t, a);
      ChainTail(t, b);
      ChainUnique(t, a[1..], b[1..]);
      assert a == [a[0]] + a[1..] && b == [b[0]] + b[1..];
    } else {
      assert |a| == 1 && |b| == 1;
    }
  }

  /** What deleting `h` leaves: the table without `h` and without its direct children. */
  function Without(t: Table, h: uint32): Table {
    map k | k in t && k != h && t[k].parent != h :: t[k]
  }

  /** Removing an entry and only its direct children makes exactly its descendants
      unreachable: an entry is reachable afterwards if and only if it was before and `h` is
      not on its chain. */
  lemma DeleteCutsSubtree(t: Table, t': Table, h: uint32, x: uint32)
    requires Proper(t) && h != 0 && h != PARENT_ROOT
    requires forall k :: k in t' <==> k in t && k != h && t[k].parent != h
    requires forall k :: k in t' ==> t'[k] == t[k]
    ensures Reachable(t', x) <==> exists chain :: IsChain(t, chain) && chain[0] == x && h !in chain
  {
    if Reachable(t', x) {
      var chain :| IsChain(t', chain) && chain[0] == x;
      assert IsChain(t, chain) && h !in chain;
    }
    if exists chain :: IsChain(t, chain) && chain[0] == x && h !in chain {
      var chain :| IsChain(t, chain) && chain[0] == x && h !in chain;
      forall i | 0 <= i < |chain|
        ensures chain[i] in t'
      {
        assert chain[i] != h;
        if i < |chain| - 1 {
          assert t[chain[i]].parent == chain[i + 1] != h;
        }
      }
      assert IsChain(t', chain);
    }
  }

  /** Moving an entry below `parent` keeps it reachable exactly when `parent` is the top or is
      itself reachable by a way that does not lead through the entry: a folder moved into its own
      subtree is lost. */
  lemma MoveDetachesExactly(t: Table, h: uint32, parent: uint32)
    requires Proper(t) && h in t
    ensures var t' := t[h := t[h].(parent := parent)];
            Reachable(t', h) <==>
              AtTop(parent) || exists chain :: IsChain(t, chain) && chain[0] == parent && h !in chain
  {
    var t' := t[h := t[h].(parent := parent)];
    if Reachable(t', h) && !AtTop(parent) {
      var c :| IsChain(t', c) && c[0] == h;
      assert |c| > 1 && c[1] == parent;
      ChainTail(t', c);
      NoReturn(t', c);
      assert IsChain(t, c[1..]);
    }
    if AtTop(parent) {
      assert IsChain(t', [h]);
    } else if exists chain :: IsChain(t, chain) && chain[0] == parent && h !in chain {
      var chain :| IsChain(t, chain) && chain[0] == parent && h !in chain;
      assert IsChain(t', chain);
      ChainCons(t', h, chain);
      assert ([h] + chain)[0] == h;
    }
  }

  /** A folder at the top, moved into itself, is lost. */
  lemma MoveIntoItselfFails(e: DbEntry)
    requires e.parent == 0
    ensures Reachable(map[1 := e], 1) && !Reachable(map[1 := e.(parent := 1)], 1)
  {
    var t := map[1 := e];
    assert IsChain(t, [1]);
    MoveDetachesExactly(t, 1, 1);
    assert t[1 := e.(parent := 1)] == map[1 := e.(parent := 1)];
  }

  /** A chain does not come back to its first handle. */
  lemma NoReturn(t: Table, c: seq<uint32>)
    requires Proper(t) && IsChain(t, c)
    ensures c[0] !in c[1..]
  {
    if c[0] in c[1..] {
      var j :| 0 <= j < |c| - 1 && c[1..][j] == c[0];
      ChainFrom(t, c, j + 1);
      ChainUnique(t, c, c[j + 1..]);
    }
  }

  lemma {:induction false} ChainFrom(t: Table, c: seq<uint32>, j: nat)
    requires IsChain(t, c) && j < |c|
    ensures IsChain(t, c[j..])
  {
    if j == 0 {
      assert c[0..] == c;
    } else {
      ChainTail(t, c);
      ChainFrom(t, c[1..], j - 1);
      assert c[1..][j - 1..] == c[j..];
    }
  }

  // ---- Walking up ----

  /** Every parent is reserved or smaller than its child. */
  ghost predicate Ordered(t: Table) {
    forall h :: h in t ==> AtTop(t[h].parent) || t[h].parent < h
  }

  /** The handles met by following parent links until they leave the table. In an ordered
      table this ends. */
  ghost function Ancestors(t: Table, h: uint32): (r: seq<uint32>)
    requires Ordered(t) && Proper(t)
    ensures forall a :: a in r ==> a in t
    decreases h
  {
    if h !in t then []
    else if AtTop(t[h].parent) then [h]
    else [h] + Ancestors(t, t[h].parent)
  }

  /** In an ordered table the walk from an entry is its chain when the entry is reachable,
      and otherwise leads to a handle that is no longer there. */
  lemma {:induction false} WalkEnds(t: Table, h: uint32)
    requires Ordered(t) && Proper(t) && h in t
    ensures WalkIsChain(t, h, Ancestors(t, h))
    decreases h
  {
    var walk, p := Ancestors(t, h), t[h].parent;
    if AtTop(p) {
      assert IsChain(t, walk);
    } else if p in t {
      WalkEnds(t, p);
      WalkOn(t, h, Ancestors(t, p));
    } else {
      NoWay(t, h);
      assert walk == [h];
    }
  }

  ghost predicate WalkIsChain(t: Table, h: uint32, walk: seq<uint32>) {
    && walk != [] && walk[0] == h && |walk| <= h && (forall a :: a in walk ==> a in t)
    && (Reachable(t, h) <==> IsChain(t, walk))
    && (Reachable(t, h) || t[walk[|walk| - 1]].parent !in t)
  }

  /** A move keeps an ordered table ordered exactly when the new parent is reserved or smaller. */
  lemma MoveKeepsOrderExactly(t: Table, h: uint32, parent: uint32)
    requires Ordered(t) && h in t
    ensures Ordered(t[h := t[h].(parent := parent)]) <==> AtTop(parent) || parent < h
  {
    assert h in t[h := t[h].(parent := parent)];
  }

  lemma NoWay(t: Table, h: uint32)
    requires h in t && t[h].parent !in t && !AtTop(t[h].parent)
    ensures !Reachable(t, h)
  {
    forall c | IsChain(t, c)
      ensures c[0] != h
    {
      assert |c| > 1 ==> c[1] == t[c[0]].parent && c[1] in t;
    }
  }

  lemma WalkOn(t: Table, h: uint32, up: seq<uint32>)
    requires Proper(t) && h in t && WalkIsChain(t, t[h].parent, up) && t[h].parent < h && t[h].parent in t
    ensures WalkIsChain(t, h, [h] + up)
  {
    var walk, p := [h] + up, t[h].parent;
    if Reachable(t, p) {
      ChainCons(t, h, up);
    }
    if Reachable(t, h) {
      var c :| IsChain(t, c) && c[0] == h;
      assert |c| > 1 && c[1] == p;
      ChainTail(t, c);
      assert c[1..][0] == p;
    } else if IsChain(t, walk) {
      assert walk[0] == h;
    }
    assert walk[|walk| - 1] == up[|up| - 1];
  }

  lemma ChainCons(t: Table, h: uint32, chain: seq<uint32>)
    requires IsChain(t, chain) && h in t && t[h].parent == chain[0]
    ensures IsChain(t, [h] + chain)
  {
    var c := [h] + chain;
    forall i | 0 <= i < |c| - 1
      ensures t[c[i]].parent == c[i + 1]
    {
      if i > 0 {
        assert t[chain[i - 1]].parent == chain[i];
      }
    }
  }
}
