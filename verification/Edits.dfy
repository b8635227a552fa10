/** Open edits: their sizes under writes and truncations, and the books that are kept of
    which were begun, committed and closed. */
module Edits {
  import opened MtpTypes
  import opened Wire

  const TWO32: nat := 0x1_0000_0000
  const TWO64: nat := 0x1_0000_0000_0000_0000

  // ---- Offsets ----

  /** A 64-bit offset from its low and high halves. */
  function Offset64(low: uint32, high: uint32): uint64 { low + high * TWO32 }

  /** The two halves determine the offset and the offset its halves. */
  lemma OffsetRoundTrip(offset: uint64)
    ensures Offset64(offset % TWO32, offset / TWO32) == offset
    ensures forall low: uint32, high: uint32 :: Offset64(low, high) == offset ==>
            low == offset % TWO32 && high == offset / TWO32
  {
    forall low: uint32, high: uint32 | Offset64(low, high) == offset
      ensures low == offset % TWO32 && high == offset / TWO32
    {
      HalvesOf(low, high);
    }
  }

  lemma HalvesOf(low: uint32, high: uint32)
    ensures Offset64(low, high) % TWO32 == low && Offset64(low, high) / TWO32 == high
  {
  }

  /** The length that a partial read reports: the requested one, cut at the end of the file
      in 64-bit and 32-bit arithmetic. */
  function PartialLength(fileLength: nat, offset: uint64, length: uint32): uint32 {
    if (offset + length) % TWO64 > fileLength then (fileLength - offset) % TWO32 else length
  }

  /** The bytes of a file that lie within a range. */
  function BytesWithin(fileLength: nat, offset: nat, length: nat): nat {
    Max(0, Min(fileLength, offset + length) - offset)
  }

  /** The length reported is that of the file's bytes within the range if the range starts
      within the file; otherwise only if the sum still exceeds the file's length after
      wrapping and the distance to the file's end happens to be a multiple of 2^32. */
  lemma PartialLengthExactly(fileLength: nat, offset: uint64, length: uint32)
    requires fileLength < TWO64 / 2
    ensures PartialLength(fileLength, offset, length) == BytesWithin(fileLength, offset, length) <==>
            || offset <= fileLength
            || ((offset + length) % TWO64 > fileLength && (offset - fileLength) % TWO32 == 0)
  {
    if offset <= fileLength {
      assert offset + length < TWO64;
    } else {
      assert BytesWithin(fileLength, offset, length) == 0;
      NegativeModulo(offset - fileLength);
    }
  }

  /** One byte behind the start of an empty file: 2^32 - 1 bytes are reported. */
  lemma PartialLengthFails()
    ensures PartialLength(0, 1, 1) == 0xFFFF_FFFF && BytesWithin(0, 1, 1) == 0
  {
  }

  lemma NegativeModulo(n: nat)
    ensures (0 - n) % TWO32 == 0 <==> n % TWO32 == 0
  {
  }

  // ---- Sizes ----

  /** What changes the size of an open edit: a truncation, or a write of `length` bytes, of
      which `initial` came with the container's header. */
  datatype EditOp = Truncate(to: uint64) | Write(offset: uint64, length: uint32, initial: nat)

  /** Where a write ends, as it is computed: the initial bytes are added to the offset and
      taken off the length, each in its own width. */
  function WriteEnd(offset: uint64, length: uint32, initial: nat): uint64 {
    ((offset + initial) % TWO64 + (length - initial) % TWO32) % TWO64
  }

  function Resized(size: uint64, op: EditOp): uint64 {
    match op
    case Truncate(to) => to
    case Write(offset, length, initial) => Max(size, WriteEnd(offset, length, initial))
  }

  /** The size after all of `ops`, in order. */
  function SizeAfter(start: uint64, ops: seq<EditOp>): uint64 {
    if ops == [] then start else Resized(SizeAfter(start, ops[..|ops| - 1]), ops[|ops| - 1])
  }

  /** What the size should be: a truncation sets it, a write extends it to its end. */
  function Ideal(size: nat, op: EditOp): nat {
    match op
    case Truncate(to) => to
    case Write(offset, length, _) => Max(size, offset + length)
  }

  /** When a write extends the size as it should. */
  predicate Regular(size: uint64, op: EditOp) {
    match op
    case Truncate(_) => true
    case Write(offset, length, initial) =>
      if initial <= length then offset + length < TWO64
      else if offset + length + TWO32 < TWO64 then offset + length + TWO32 <= size
      else offset + length <= size
  }

  /** For a write that starts within the object, the size is as it should be exactly when the
      initial bytes are no more than announced and the end fits in 64 bits, or when they are
      more and the size, which the end then overshoots by 2^32, is large enough already. */
  lemma ResizedExactly(size: uint64, op: EditOp)
    requires op.Write? ==> op.offset <= size && op.initial < TWO32
    ensures Resized(size, op) == Ideal(size, op) <==> Regular(size, op)
  {
    if op.Write? {
      WriteEndsAt(op.offset, op.length, op.initial);
    }
  }

  lemma WriteEndsAt(offset: uint64, length: uint32, initial: nat)
    requires initial < TWO32
    ensures var end := offset + length + (if initial <= length then 0 else TWO32);
            WriteEnd(offset, length, initial) == if end < TWO64 then end else end - TWO64
  {
    var left := length - initial + (if initial <= length then 0 else TWO32);
    if initial > length {
      NegativeWraps(length - initial);
    }
    WrapTwice(offset + initial, left);
    OnceAround(offset + initial + left);
  }

  /** One byte came with the header of a write that announced none: an empty object grows to
      2^32 bytes. */
  lemma ResizedFails()
    ensures Resized(0, Write(0, 0, 1)) == TWO32 && Ideal(0, Write(0, 0, 1)) == 0
  {
    NegativeWraps(0 - 1);
  }

  lemma OnceAround(n: nat)
    requires n < 2 * TWO64
    ensures n % TWO64 == if n < TWO64 then n else n - TWO64
  {
  }

  lemma NegativeWraps(n: int)
    requires 0 - TWO32 <= n < 0
    ensures n % TWO32 == n + TWO32
  {
  }

  lemma WrapTwice(a: nat, b: nat)
    ensures (a % TWO64 + b) % TWO64 == (a + b) % TWO64
  {
    var q := a / TWO64;
    assert a == TWO64 * q + a % TWO64;
    Shifted(a % TWO64 + b, q);
  }

  lemma Shifted(n: nat, q: nat)
    ensures (TWO64 * q + n) % TWO64 == n % TWO64
  {
  }

  /** While every operation is regular, the size is the fold that truncations set and writes
      extend. */
  function IdealAfter(start: nat, ops: seq<EditOp>): nat {
    if ops == [] then start else Ideal(IdealAfter(start, ops[..|ops| - 1]), ops[|ops| - 1])
  }

  /** Each write started within the object as it then was. */
  predicate Accepted(start: uint64, ops: seq<EditOp>) {
    ops == [] ||
    (var before, last := ops[..|ops| - 1], ops[|ops| - 1];
     Accepted(start, before) && (last.Write? ==> last.offset <= SizeAfter(start, before) && last.initial < TWO32))
  }

  predicate AllRegular(start: uint64, ops: seq<EditOp>) {
    ops == [] || (AllRegular(start, ops[..|ops| - 1]) && Regular(SizeAfter(start, ops[..|ops| - 1]), ops[|ops| - 1]))
  }

  lemma {:induction false} SizeIsFold(start: uint64, ops: seq<EditOp>)
    requires Accepted(start, ops) && AllRegular(start, ops)
    ensures SizeAfter(start, ops) == IdealAfter(start, ops)
  {
    if ops != [] {
      var before, last := ops[..|ops| - 1], ops[|ops| - 1];
      SizeIsFold(start, before);
      ResizedExactly(SizeAfter(start, before), last);
    }
  }

  /** Writes that were announced honestly and end below 2^64 are regular. */
  lemma {:induction false} HonestIsRegular(start: uint64, ops: seq<EditOp>)
    requires forall i :: 0 <= i < |ops| && ops[i].Write? ==>
             ops[i].initial <= ops[i].length && ops[i].offset + ops[i].length < TWO64
    ensures AllRegular(start, ops)
  {
    if ops != [] {
      HonestIsRegular(start, ops[..|ops| - 1]);
    }
  }

  // ---- The list and its books ----

  /** An object that is open for editing. */
  datatype Edit = Edit(handle: uint32, path: seq<uint8>, size: uint64, format: uint16, fd: int)

  function Handles(edits: seq<Edit>): multiset<uint32> {
    if edits == [] then multiset{} else Handles(edits[..|edits| - 1]) + multiset{edits[|edits| - 1].handle}
  }

  function Files(edits: seq<Edit>): multiset<int> {
    if edits == [] then multiset{} else Files(edits[..|edits| - 1]) + multiset{edits[|edits| - 1].fd}
  }

  /** What has happened to edits so far: handles begun and committed, files opened and closed. */
  datatype Books = Books(begun: multiset<uint32>, committed: multiset<uint32>, openFiles: multiset<int>,
                         closedFiles: multiset<int>)

  /** Everything begun is committed or still open, and every file opened is closed or in use. */
  ghost predicate Balanced(b: Books, edits: seq<Edit>) {
    b.begun == b.committed + Handles(edits) && b.openFiles == b.closedFiles + Files(edits)
  }

  ghost predicate Distinct(edits: seq<Edit>) {
    forall i, j :: 0 <= i < j < |edits| ==> edits[i].handle != edits[j].handle
  }

  function BeginOne(b: Books, e: Edit): Books {
    b.(begun := b.begun + multiset{e.handle}, openFiles := b.openFiles + multiset{e.fd})
  }

  function CommitOne(b: Books, e: Edit): Books {
    b.(committed := b.committed + multiset{e.handle}, closedFiles := b.closedFiles + multiset{e.fd})
  }

  /** The books after all of `edits` are committed and closed, in order. */
  function CommitAll(b: Books, edits: seq<Edit>): Books {
    if edits == [] then b else CommitOne(CommitAll(b, edits[..|edits| - 1]), edits[|edits| - 1])
  }

  lemma {:induction false} CommitAllAdds(b: Books, edits: seq<Edit>)
    ensures CommitAll(b, edits) ==
            b.(committed := b.committed + Handles(edits), closedFiles := b.closedFiles + Files(edits))
  {
    if edits != [] {
      CommitAllAdds(b, edits[..|edits| - 1]);
    }
  }

  /** Committing all that is open closes the books: everything begun is committed once, and
      every file that was opened is closed once. */
  lemma CommitAllSettles(b: Books, edits: seq<Edit>)
    requires Balanced(b, edits)
    ensures Settled(CommitAll(b, edits)) && CommitAll(b, edits).begun == b.begun
    ensures CommitAll(b, edits).openFiles == b.openFiles
  {
    CommitAllAdds(b, edits);
  }

  predicate Settled(b: Books) { b.committed == b.begun && b.closedFiles == b.openFiles }

  lemma AddBalanced(b: Books, edits: seq<Edit>, e: Edit)
    requires Balanced(b, edits)
    ensures Balanced(b.(begun := b.begun + multiset{e.handle}, openFiles := b.openFiles + multiset{e.fd}), edits + [e])
  {
    assert (edits + [e])[..|edits|] == edits;
  }

  lemma EndBalanced(b: Books, edits: seq<Edit>, i: nat)
    requires i < |edits| && Balanced(b, edits)
    ensures Balanced(b.(committed := b.committed + multiset{edits[i].handle},
                        closedFiles := b.closedFiles + multiset{edits[i].fd}), Without(edits, i))
  {
    WithoutOne(edits, i);
  }

  function Without(edits: seq<Edit>, i: nat): seq<Edit>
    requires i < |edits|
  {
    edits[..i] + edits[i + 1..]
  }

  lemma {:induction false} WithoutOne(edits: seq<Edit>, i: nat)
    requires i < |edits|
    ensures Handles(edits) == Handles(Without(edits, i)) + multiset{edits[i].handle}
    ensures Files(edits) == Files(Without(edits, i)) + multiset{edits[i].fd}
  {
    var last := |edits| - 1;
    if i == last {
      assert Without(edits, i) == edits[..last];
    } else {
      WithoutOne(edits[..last], i);
      WithoutLast(edits, i);
      assert edits[..last][i] == edits[i];
      Exchange(Handles(edits), Handles(edits[..last]), Handles(Without(edits[..last], i)), Handles(Without(edits, i)),
               edits[i].handle, edits[last].handle);
      Exchange(Files(edits), Files(edits[..last]), Files(Without(edits[..last], i)), Files(Without(edits, i)),
               edits[i].fd, edits[last].fd);
    }
  }

  lemma Exchange<T>(all: multiset<T>, front: multiset<T>, both: multiset<T>, less: multiset<T>, a: T, b: T)
    requires all == front + multiset{b} && front == both + multiset{a} && less == both + multiset{b}
    ensures all == less + multiset{a}
  {
  }

  lemma WithoutLast(edits: seq<Edit>, i: nat)
    requires i < |edits| - 1
    ensures var last := |edits| - 1;
            && Handles(Without(edits, i)) == Handles(Without(edits[..last], i)) + multiset{edits[last].handle}
            && Files(Without(edits, i)) == Files(Without(edits[..last], i)) + multiset{edits[last].fd}
  {
    var last := |edits| - 1;
    assert Without(edits, i)[..last - 1] == Without(edits[..last], i);
    assert Without(edits, i)[last - 1] == edits[last];
  }

  lemma WithoutDistinct(edits: seq<Edit>, i: nat)
    requires i < |edits| && Distinct(edits)
    ensures Distinct(Without(edits, i))
  {
  }

  lemma {:induction false} SameHandles(a: seq<Edit>, b: seq<Edit>)
    requires |a| == |b| && forall i :: 0 <= i < |a| ==> a[i].handle == b[i].handle && a[i].fd == b[i].fd
    ensures Handles(a) == Handles(b) && Files(a) == Files(b)
  {
    if a != [] {
      SameHandles(a[..|a| - 1], b[..|b| - 1]);
    }
  }

  /** The position of the edit of an object. */
  function Find(edits: seq<Edit>, h: uint32): (r: Option<nat>)
    ensures r.Some? ==> r.value < |edits| && edits[r.value].handle == h
    ensures r.None? ==> forall e :: e in edits ==> e.handle != h
  {
    if edits == [] then None
    else if edits[0].handle == h then Some(0)
    else
      var rest := Find(edits[1..], h);
      if rest.Some? then Some(rest.value + 1) else None
  }

  lemma {:induction false} FindAt(edits: seq<Edit>, i: nat)
    requires i < |edits| && forall j :: 0 <= j < i ==> edits[j].handle != edits[i].handle
    ensures Find(edits, edits[i].handle) == Some(i)
  {
    if i > 0 {
      FindAt(edits[1..], i - 1);
    }
  }
}
