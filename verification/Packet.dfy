/** The growable packet: a byte buffer, the size of its contents, and a cursor for
    little-endian puts and gets. MtpPacket and its subclass MtpDataPacket are one class here. */
module Packets {
  import opened MtpTypes
  import opened Wire
  import opened Growth

  function U16At(b: seq<uint8>, at: nat): uint16
    requires at + 2 <= |b|
  {
    b[at] as int + b[at + 1] as int * 0x100
  }

  function U32At(b: seq<uint8>, at: nat): uint32
    requires at + 4 <= |b|
  {
    b[at] as int + b[at + 1] as int * 0x100 + b[at + 2] as int * 0x1_0000 + b[at + 3] as int * 0x100_0000
  }

  lemma LittleEndian2(v: uint16)
    ensures LittleEndian(v, 2) == [v % 0x100, v / 0x100 % 0x100]
  {
    assert LittleEndian(v / 256, 1) == [v / 256 % 256] + LittleEndian(v / 256 / 256, 0);
  }

  lemma LittleEndian4(v: uint32)
    ensures LittleEndian(v, 4) == [v % 0x100, v / 0x100 % 0x100, v / 0x1_0000 % 0x100, v / 0x100_0000 % 0x100]
  {
    assert LittleEndian(v, 4) == [v % 256] + ([v / 256 % 256] + LittleEndian(v / 256 / 256, 2));
    LittleEndian2(v / 256 / 256);
  }

  lemma Shift256(low: nat, high: nat)
    ensures (low + 256 * high) / 256 == low / 256 + high && (low + 256 * high) % 256 == low % 256
  {
  }

  lemma LowestByte(b: uint8, rest: nat, width: nat)
    ensures LittleEndian(b + 256 * rest, width + 1) == [b] + LittleEndian(rest, width)
  {
    Shift256(b, rest);
  }

  /** Four bytes, lowest first; the widths are variables so that nothing unfolds here. */
  lemma FourSteps(a: uint8, b: uint8, c: uint8, d: uint8, w1: nat, w2: nat, w3: nat, w4: nat)
    requires w2 == w1 + 1 && w3 == w2 + 1 && w4 == w3 + 1
    ensures LittleEndian(a + 256 * (b + 256 * (c + 256 * d)), w4) ==
            [a] + ([b] + ([c] + LittleEndian(d, w1)))
  {
    var r2: nat := c + 256 * d;
    var r1: nat := b + 256 * r2;
    LowestByte(a, r1, w3);
    LowestByte(b, r2, w2);
    LowestByte(c, d, w1);
  }

  lemma FourLow(a: uint8, b: uint8, c: uint8, d: uint8)
    ensures LittleEndian(a + 256 * (b + 256 * (c + 256 * d)), 4) == [a] + ([b] + ([c] + ([d] + [])))
  {
    FourSteps(a, b, c, d, 1, 2, 3, 4);
    LowestByte(d, 0, 0);
  }

  lemma EightDigits(a: uint8, b: uint8, c: uint8, d: uint8, high: nat)
    ensures LittleEndian(a + 256 * (b + 256 * (c + 256 * (d + 256 * high))), 8)
         == LittleEndian(a + 256 * (b + 256 * (c + 256 * d)), 4) + LittleEndian(high, 4)
  {
    var r3: nat := d + 256 * high;
    var r2: nat := c + 256 * r3;
    var r1: nat := b + 256 * r2;
    LowestByte(a, r1, 7);
    LowestByte(b, r2, 6);
    LowestByte(c, r3, 5);
    LowestByte(d, high, 4);
    FourLow(a, b, c, d);
    EightJoined(a, b, c, d, LittleEndian(high, 4));
  }

  lemma FourDigits(low: nat, l1: nat, l2: nat, l3: nat)
    requires l1 == low / 256 && l2 == l1 / 256 && l3 == l2 / 256
    ensures low == low % 256 + 256 * (l1 % 256 + 256 * (l2 % 256 + 256 * l3))
  {
  }

  /** Eight little-endian bytes are the four of the low half and the four of the high half. */
  lemma LittleEndian8(low: uint32, high: uint32)
    ensures LittleEndian(low + 0x1_0000_0000 * high, 8) == LittleEndian(low, 4) + LittleEndian(high, 4)
  {
    var l1: nat := low / 256;
    var l2: nat := l1 / 256;
    var l3: nat := l2 / 256;
    EightDigits(low % 256, l1 % 256, l2 % 256, l3, high);
    FourDigits(low, l1, l2, l3);
    assert low + 0x1_0000_0000 * high == low % 256 + 256 * (l1 % 256 + 256 * (l2 % 256 + 256 * (l3 + 256 * high)));
  }

  lemma EightJoined(a: uint8, b: uint8, c: uint8, d: uint8, rest: seq<uint8>)
    ensures [a] + ([b] + ([c] + ([d] + rest))) == [a] + ([b] + ([c] + ([d] + []))) + rest
  {
  }

  /** The bytes of a 64-bit value, each shifted out on its own. */
  lemma EightBytes(v: uint64)
    ensures LittleEndian(v, 8) ==
            [v % 0x100, v / 0x100 % 0x100, v / 0x1_0000 % 0x100, v / 0x100_0000 % 0x100,
             v / 0x1_0000_0000 % 0x100, v / 0x100_0000_0000 % 0x100,
             v / 0x1_0000_0000_0000 % 0x100, v / 0x100_0000_0000_0000 % 0x100]
  {
    var low, high := v % 0x1_0000_0000, v / 0x1_0000_0000;
    LittleEndian8(low, high);
    LittleEndian4(low);
    LittleEndian4(high);
    HalfBytes(v, low, high);
  }

  lemma HalfBytes(v: uint64, low: uint32, high: uint32)
    requires v == low + 0x1_0000_0000 * high
    ensures v % 0x100 == low % 0x100 && v / 0x100 % 0x100 == low / 0x100 % 0x100
    ensures v / 0x1_0000 % 0x100 == low / 0x1_0000 % 0x100 && v / 0x100_0000 % 0x100 == low / 0x100_0000 % 0x100
    ensures v / 0x1_0000_0000 == high && v / 0x100_0000_0000 == high / 0x100
    ensures v / 0x1_0000_0000_0000 == high / 0x1_0000 && v / 0x100_0000_0000_0000 == high / 0x100_0000
  {
    Shift256(low, 0x100_0000 * high);
    var v1: nat := low / 0x100 + 0x100_0000 * high;
    Shift256(low / 0x100, 0x1_0000 * high);
    var v2: nat := low / 0x100 / 0x100 + 0x1_0000 * high;
    Shift256(low / 0x100 / 0x100, 0x100 * high);
    var v3: nat := low / 0x100 / 0x100 / 0x100 + 0x100 * high;
    Shift256(low / 0x100 / 0x100 / 0x100, high);
    Nested(low);
    Nested(v);
    Nested(high);
    Nested64(v);
    assert v / 0x100 == v1 && v1 / 0x100 == v2 && v2 / 0x100 == v3 && v3 / 0x100 == high;
  }

  lemma Nested(v: nat)
    ensures v / 0x100 / 0x100 == v / 0x1_0000 && v / 0x100 / 0x100 / 0x100 == v / 0x100_0000
  {
  }

  lemma Nested64(v: nat)
    ensures v / 0x100 / 0x100 / 0x100 / 0x100 == v / 0x1_0000_0000
    ensures v / 0x1_0000_0000 / 0x100 == v / 0x100_0000_0000
    ensures v / 0x1_0000_0000 / 0x1_0000 == v / 0x1_0000_0000_0000
    ensures v / 0x1_0000_0000 / 0x100_0000 == v / 0x100_0000_0000_0000
  {
  }

  /** A stream that starts with `f` and with the fields `fs`, whose first is as wide as
      `f`, has `f` as that first field. */
  lemma Recognise(stream: seq<uint8>, f: Field, fs: seq<Field>)
    requires f.Bytes() <= stream && Encode(fs) <= stream
    requires fs != [] && fs[0].Width() == f.Width()
    ensures f == fs[0] && Encode(fs[1..]) <= stream[f.Width()..]
  {
    var w := f.Width();
    assert stream[..w] == f.Bytes();
    assert stream[..w] == Encode(fs)[..w] == fs[0].Bytes();
    FieldBytesInjective(f, fs[0]);
    assert Encode(fs)[w..] == Encode(fs[1..]);
  }

  lemma Lengthen(b: seq<uint8>, from: nat, at: nat, patch: seq<uint8>)
    requires from <= at <= |b| && patch <= b[at..]
    ensures b[from..at + |patch|] == b[from..at] + patch
    ensures b[at..][|patch|..] == b[at + |patch|..]
  {
    assert b[at..][..|patch|] == patch;
  }

  lemma Extended(was: seq<uint8>, now: seq<uint8>, from: nat, at: nat, bytes: seq<uint8>)
    requires from <= at <= |was| && at + |bytes| <= |now| && now[at..at + |bytes|] == bytes
    requires forall i :: 0 <= i < at ==> now[i] == was[i]
    ensures now[from..at + |bytes|] == was[from..at] + bytes
  {
  }

  /** Reading a little-endian integer gives the field whose bytes lie there. */
  lemma U16AtBytes(b: seq<uint8>, at: nat)
    requires at + 2 <= |b|
    ensures U16(U16At(b, at)).Bytes() == b[at..at + 2]
  {
    var v := U16At(b, at);
    LittleEndian2(v);
    assert v % 0x100 == b[at] && v / 0x100 == b[at + 1];
  }

  lemma U32AtBytes(b: seq<uint8>, at: nat)
    requires at + 4 <= |b|
    ensures U32(U32At(b, at)).Bytes() == b[at..at + 4]
  {
    var v3: nat := b[at + 3];
    var v2: nat := b[at + 2] as int + 256 * v3;
    var v1: nat := b[at + 1] as int + 256 * v2;
    LowestByte(b[at], v1, 3);
    LowestByte(b[at + 1], v2, 2);
    LowestByte(b[at + 2], v3, 1);
    LowestByte(b[at + 3], 0, 0);
    assert b[at..at + 4] == [b[at]] + ([b[at + 1]] + ([b[at + 2]] + [b[at + 3]]));
  }

  function U64At(b: seq<uint8>, at: nat): uint64
    requires at + 8 <= |b|
  {
    U32At(b, at) as int + U32At(b, at + 4) as int * 0x1_0000_0000
  }

  lemma U64AtBytes(b: seq<uint8>, at: nat)
    requires at + 8 <= |b|
    ensures U64(U64At(b, at)).Bytes() == b[at..at + 8]
  {
    U32AtBytes(b, at);
    U32AtBytes(b, at + 4);
    LittleEndian8(U32At(b, at), U32At(b, at + 4));
    assert b[at..at + 8] == b[at..at + 4] + b[at + 4..at + 8];
  }

  lemma SplitWord(v: uint32)
    ensures v == v % 0x100 + v / 0x100 % 0x100 * 0x100 + v / 0x1_0000 % 0x100 * 0x1_0000 +
            v / 0x100_0000 % 0x100 * 0x100_0000
  {
    Nested(v);
  }

  function WordsIn(b: seq<uint8>): (w: seq<uint32>)
    requires PARAMETERS_END <= |b|
    ensures |w| == 5
  {
    [U32At(b, 12), U32At(b, 16), U32At(b, 20), U32At(b, 24), U32At(b, 28)]
  }

  lemma WordPut(was: seq<uint8>, now: seq<uint8>, index: nat, value: uint32)
    requires 1 <= index <= 5 && PARAMETERS_END <= |was|
    requires var at := PARAMETER_OFFSET + 4 * (index - 1);
             now == was[at := value % 0x100][at + 1 := value / 0x100 % 0x100]
                       [at + 2 := value / 0x1_0000 % 0x100][at + 3 := value / 0x100_0000 % 0x100]
    ensures WordsIn(now) == WordsIn(was)[index - 1 := value] && now[..HEADER_SIZE] == was[..HEADER_SIZE]
  {
    var at := PARAMETER_OFFSET + 4 * (index - 1);
    SplitWord(value);
    assert U32At(now, at) == value;
    forall i | 0 <= i < 5 && i != index - 1
      ensures U32At(now, 12 + 4 * i) == U32At(was, 12 + 4 * i)
    {
      assert forall k :: 12 + 4 * i <= k < 16 + 4 * i ==> now[k] == was[k];
    }
    assert U32At(now, 12) == (if index == 1 then value else U32At(was, 12 + 4 * 0));
    assert U32At(now, 16) == (if index == 2 then value else U32At(was, 12 + 4 * 1));
    assert U32At(now, 20) == (if index == 3 then value else U32At(was, 12 + 4 * 2));
    assert U32At(now, 24) == (if index == 4 then value else U32At(was, 12 + 4 * 3));
    assert U32At(now, 28) == (if index == 5 then value else U32At(was, 12 + 4 * 4));
  }

  // ---- Containers ----

  const PARAMETERS_END: nat := 32

  /** A container as it is sent: its length field wraps, since it has four bytes. */
  function Container(kind: uint16, code: uint16, transaction: uint32, payload: seq<uint8>): (c: seq<uint8>)
    ensures |c| == HEADER_SIZE + |payload|
  {
    Header((HEADER_SIZE + |payload|) % 0x1_0000_0000, kind, code, transaction) + payload
  }

  /** A container whose length field is its length. */
  predicate Announced(c: seq<uint8>) {
    HEADER_SIZE <= |c| && U32At(c, LENGTH_OFFSET) == |c|
  }

  lemma U32Within(b: seq<uint8>, at: nat, v: uint32)
    requires at + 4 <= |b| && b[at..at + 4] == LittleEndian(v, 4)
    ensures U32At(b, at) == v
  {
    U32AtBytes(b, at);
    FieldBytesInjective(U32(v), U32(U32At(b, at)));
  }

  lemma U16Within(b: seq<uint8>, at: nat, v: uint16)
    requires at + 2 <= |b| && b[at..at + 2] == LittleEndian(v, 2)
    ensures U16At(b, at) == v
  {
    U16AtBytes(b, at);
    FieldBytesInjective(U16(v), U16(U16At(b, at)));
  }

  /** A reader finds in a container the type, code and transaction it was made with, and, as
      far as four bytes can say it, its length. */
  lemma ContainerParts(kind: uint16, code: uint16, transaction: uint32, payload: seq<uint8>)
    ensures var c := Container(kind, code, transaction, payload);
            && (Announced(c) <==> |c| < 0x1_0000_0000) && U16At(c, TYPE_OFFSET) == kind && U16At(c, CODE_OFFSET) == code
            && U32At(c, TRANSACTION_OFFSET) == transaction && c[HEADER_SIZE..] == payload
  {
    var c := Container(kind, code, transaction, payload);
    U32Within(c, LENGTH_OFFSET, |c| % 0x1_0000_0000);
    U16Within(c, TYPE_OFFSET, kind);
    U16Within(c, CODE_OFFSET, code);
    U32Within(c, TRANSACTION_OFFSET, transaction);
  }

  /** `b` with `bytes` written over it at `at`. */
  function Patch(b: seq<uint8>, at: nat, bytes: seq<uint8>): (r: seq<uint8>)
    requires at + |bytes| <= |b|
    ensures |r| == |b|
  {
    b[..at] + bytes + b[at + |bytes|..]
  }

  lemma HeaderWritten(was: seq<uint8>, code: uint16, transaction: uint32, length: uint32, kind: uint16)
    requires HEADER_SIZE <= |was|
    ensures var b2 := Patch(Patch(was, CODE_OFFSET, LittleEndian(code, 2)), TRANSACTION_OFFSET,
                            LittleEndian(transaction, 4));
            Patch(Patch(b2, LENGTH_OFFSET, LittleEndian(length, 4)), TYPE_OFFSET, LittleEndian(kind, 2))[..HEADER_SIZE]
            == Header(length, kind, code, transaction)
  {
    var b2 := Patch(Patch(was, CODE_OFFSET, LittleEndian(code, 2)), TRANSACTION_OFFSET, LittleEndian(transaction, 4));
    var b3 := Patch(b2, LENGTH_OFFSET, LittleEndian(length, 4));
    var b4 := Patch(b3, TYPE_OFFSET, LittleEndian(kind, 2));
    assert b2[6..12] == LittleEndian(code, 2) + LittleEndian(transaction, 4);
    assert b3[6..12] == b2[6..12] && b4[6..12] == b3[6..12];
    assert b4[..6] == LittleEndian(length, 4) + LittleEndian(kind, 2);
    assert b4[..12] == b4[..6] + b4[6..12];
  }

  lemma FrontAndRest(b: seq<uint8>, n: nat, size: nat)
    requires n <= size <= |b|
    ensures b[..size] == b[..n] + b[n..size]
  {
  }

  lemma HeaderKept(was: seq<uint8>, now: seq<uint8>, size: nat)
    requires HEADER_SIZE <= size <= |was| == |now| && now[HEADER_SIZE..] == was[HEADER_SIZE..]
    ensures now[HEADER_SIZE..size] == was[HEADER_SIZE..size]
  {
    assert now[HEADER_SIZE..size] == now[HEADER_SIZE..][..size - HEADER_SIZE];
    assert was[HEADER_SIZE..size] == was[HEADER_SIZE..][..size - HEADER_SIZE];
  }

  /** The payload that the first `count` parameters make. */
  lemma {:induction false} WordsPayload(b: seq<uint8>, words: seq<uint32>, count: nat)
    requires count <= |words| && HEADER_SIZE + 4 * count <= |b|
    requires forall i :: 0 <= i < count ==> words[i] == U32At(b, HEADER_SIZE + 4 * i)
    ensures b[HEADER_SIZE..HEADER_SIZE + 4 * count] == Encode(U32s(words[..count]))
  {
    if count > 0 {
      WordsPayload(b, words, count - 1);
      var at := HEADER_SIZE + 4 * (count - 1);
      U32AtBytes(b, at);
      TakeMore(words, count - 1);
      assert U32s(words[..count]) == U32s(words[..count - 1]) + [U32(words[count - 1])];
      EncodeSnoc(U32s(words[..count - 1]), U32(words[count - 1]));
      assert b[HEADER_SIZE..at + 4] == b[HEADER_SIZE..at] + b[at..at + 4];
    } else {
      assert words[..0] == [];
    }
  }

  /** Parameters that travelled in a payload are read back, each at its place. */
  lemma {:induction false} PayloadWords(b: seq<uint8>, words: seq<uint32>, i: nat)
    requires i < |words| && HEADER_SIZE + 4 * |words| <= |b|
    requires b[HEADER_SIZE..HEADER_SIZE + 4 * |words|] == Encode(U32s(words))
    ensures U32At(b, HEADER_SIZE + 4 * i) == words[i]
  {
    var at := HEADER_SIZE + 4 * i;
    EncodeWords(words[..i]);
    EncodeWords(words[i + 1..]);
    EncodeConcat(U32s(words[..i]), [U32(words[i])] + U32s(words[i + 1..]));
    assert U32s(words) == U32s(words[..i]) + ([U32(words[i])] + U32s(words[i + 1..]));
    EncodeConcat([U32(words[i])], U32s(words[i + 1..]));
    assert Encode([U32(words[i])]) == U32(words[i]).Bytes() + Encode([]);
    var payload := b[HEADER_SIZE..HEADER_SIZE + 4 * |words|];
    assert payload[4 * i..4 * i + 4] == U32(words[i]).Bytes();
    SliceOfSlice(b, HEADER_SIZE, HEADER_SIZE + 4 * |words|, 4 * i, 4 * i + 4);
    U32Within(b, at, words[i]);
  }

  lemma SliceOfSlice<T>(b: seq<T>, from: nat, to: nat, i: nat, j: nat)
    requires from <= to <= |b| && i <= j <= to - from
    ensures b[from..to][i..j] == b[from + i..from + j]
  {
    var inner := b[from..to];
    assert |inner[i..j]| == |b[from + i..from + j]|;
    assert forall k :: 0 <= k < j - i ==> inner[i..j][k] == inner[i + k] == b[from + i + k] == b[from + i..from + j][k];
  }

  lemma {:induction false} EncodeWords(words: seq<uint32>)
    ensures |Encode(U32s(words))| == 4 * |words|
  {
    if words != [] {
      EncodeWords(words[1..]);
      assert U32s(words)[1..] == U32s(words[1..]);
    }
  }

  class MtpPacket {
    const initial: nat
    const increment: nat
    var buffer: array<uint8>
    var packetSize: nat
    var offset: nat
    /** How the buffer grew under the lengths asked for so far. */
    ghost var growth: Growth
    /** Those lengths. */
    ghost var requests: seq<nat>
    /** The integers put or got since the cursor was last at the start of the payload. */
    ghost var fields: seq<Field>
    /** Integers known to lie just after the cursor. */
    ghost var ahead: seq<Field>

    ghost predicate Valid()
      reads this, buffer
    {
      && HEADER_SIZE <= offset <= buffer.Length
      && packetSize <= buffer.Length
      && buffer.Length == growth.size && Grown()
      && buffer[HEADER_SIZE..offset] == Encode(fields)
      && Holds(ahead)
    }

    /** The buffer grew, one initial size beyond what was missing, as the lengths asked for
        make it grow. */
    ghost predicate Grown()
      reads this
    {
      HEADER_SIZE <= initial == increment && growth == New(initial).AskAll(increment, requests)
    }

    /** In every packet, at any time, the contents fit the buffer, the buffer exceeds the longest
        length ever asked for by at most one increment, and it was replaced so rarely that the
        replacements, each worth one increment, stay below that length. */
    lemma BufferBounds()
      requires Valid()
      ensures packetSize <= buffer.Length <= Max(initial, growth.longest + increment) && growth.longest <= buffer.Length
      ensures growth.reallocations == 0 || growth.reallocations * increment < growth.longest
    {
      SizeBounds(initial, increment, requests);
      ReallocationsAreRare(increment, requests);
    }

    /** The bytes from the cursor on start with the encoding of `fs`. */
    ghost predicate Holds(fs: seq<Field>)
      reads this, buffer
    {
      offset <= buffer.Length && Encode(fs) <= buffer[offset..]
    }

    /** Where the cursor will be once it has passed everything that is known to lie ahead. */
    ghost function End(): nat
      reads this
    {
      offset + |Encode(ahead)|
    }

    ghost function Content(): seq<uint8>
      requires packetSize <= buffer.Length
      reads this, buffer
    {
      buffer[..packetSize]
    }

    /** What any run of puts keeps and changes, apart from the fields put. */
    twostate predicate Advanced()
      reads this, buffer
    {
      && old(offset) <= offset
      && packetSize == Max(old(packetSize), offset)
      && growth.longest <= Max(old(growth.longest), offset)
      && HEADER_SIZE <= old(buffer.Length) <= buffer.Length
      && buffer[..HEADER_SIZE] == old(buffer[..HEADER_SIZE])
      && (buffer == old(buffer) || fresh(buffer))
    }

    twostate predicate Wrote(fs: seq<Field>)
      reads this, buffer
    {
      fields == old(fields) + fs && Advanced()
    }

    /** After any run of puts the buffer exceeds what was put, or the longest length before, by
        at most one increment. */
    twostate lemma RoomAfterPuts(fs: seq<Field>)
      requires Valid() && Wrote(fs)
      ensures offset == HEADER_SIZE + |Encode(old(fields) + fs)|
      ensures packetSize <= buffer.Length <= Max(initial, Max(old(growth.longest), offset) + increment)
      ensures growth.reallocations == 0 || growth.reallocations * increment < Max(old(growth.longest), offset)
    {
      BufferBounds();
    }

    constructor (bufferSize: nat)
      requires HEADER_SIZE <= bufferSize
      ensures Valid() && fresh(buffer)
      ensures initial == increment == bufferSize && packetSize == 0 && Plain() && growth == New(bufferSize)
      ensures requests == []
    {
      initial := bufferSize;
      increment := bufferSize;
      buffer := new uint8[bufferSize];
      packetSize := 0;
      offset := HEADER_SIZE;
      fields, ahead, growth, requests := [], [], New(bufferSize), [];
    }

    // ---- Buffer ----

    /** Makes room for `length` bytes, if the length is a signed 32-bit integer that the new size
        does not exceed; otherwise the allocation fails and the process ends. A negative length
        asks for nothing. */
    method Allocate(length: int32) returns (alive: bool)
      requires buffer.Length == growth.size && Grown()
      modifies `buffer, `growth, `requests
      ensures alive <==> length <= old(buffer.Length) || length + increment < 0x8000_0000
      ensures Grown() && requests == old(requests) + if alive && 0 <= length then [length] else []
      ensures growth == (if alive && 0 <= length then old(growth).Ask(increment, length) else old(growth))
      ensures buffer.Length == growth.size && old(buffer.Length) <= buffer.Length
      ensures alive ==> length <= buffer.Length
      ensures forall i :: 0 <= i < old(buffer.Length) ==> buffer[i] == old(buffer[i])
      ensures if !alive || length <= old(buffer.Length) then buffer == old(buffer) else fresh(buffer)
    {
      alive := length <= buffer.Length || length + increment < 0x8000_0000;
      if alive && 0 <= length {
        Grow(length);
      }
    }

    /** Makes room for `length` bytes. */
    method Grow(length: nat)
      requires buffer.Length == growth.size && Grown()
      modifies `buffer, `growth, `requests
      ensures Grown() && requests == old(requests) + [length]
      ensures growth == old(growth).Ask(increment, length) && buffer.Length == growth.size
      ensures length <= buffer.Length && old(buffer.Length) <= buffer.Length
      ensures forall i :: 0 <= i < old(buffer.Length) ==> buffer[i] == old(buffer[i])
      ensures if length <= old(buffer.Length) then buffer == old(buffer) else fresh(buffer)
    {
      if length > buffer.Length {
        var newLength := length + increment;
        var bigger := new uint8[newLength];
        forall i | 0 <= i < buffer.Length {
          bigger[i] := buffer[i];
        }
        assert bigger[..buffer.Length] == buffer[..];
        buffer := bigger;
      }
      growth := growth.Ask(increment, length);
      AskMore(New(initial), increment, requests, length);
      requests := requests + [length];
    }

    method Reset()
      requires Valid()
      modifies this, buffer
      ensures Valid() && buffer == old(buffer)
      ensures packetSize == offset == HEADER_SIZE && fields == [] && ahead == []
      ensures forall i :: 0 <= i < buffer.Length ==> buffer[i] == 0
      ensures growth == old(growth).Ask(increment, HEADER_SIZE)
    {
      Grow(HEADER_SIZE);
      packetSize := HEADER_SIZE;
      forall i | 0 <= i < buffer.Length {
        buffer[i] := 0;
      }
      offset := HEADER_SIZE;
      fields, ahead := [], [];
    }

    /** Takes over the contents of `src`; the cursor stays, so nothing more is known of
        the bytes around it. */
    method CopyFrom(src: MtpPacket)
      requires Valid() && src.Valid() && src.buffer != buffer
      modifies this, buffer
      ensures packetSize == src.packetSize && packetSize <= buffer.Length
      ensures Content() == src.Content() && ahead == []
      ensures (buffer == old(buffer) || fresh(buffer)) && old(buffer.Length) <= buffer.Length
      ensures offset == old(offset) && fields == old(fields) && (fields == [] ==> Valid())
    {
      var length := src.packetSize;
      ahead := [];
      Grow(length);
      packetSize := length;
      forall i | 0 <= i < length {
        buffer[i] := src.buffer[i];
      }
      assert Content() == src.Content();
    }

    // ---- Header access ----

    method PutRaw16(at: nat, value: uint16)
      requires at + 2 <= HEADER_SIZE && Valid()
      modifies buffer
      ensures Valid()
      ensures buffer[..] == Patch(old(buffer[..]), at, LittleEndian(value, 2))
      ensures buffer[HEADER_SIZE..] == old(buffer[HEADER_SIZE..])
    {
      LittleEndian2(value);
      ghost var was := buffer[..];
      buffer[at] := value % 0x100;
      buffer[at + 1] := value / 0x100 % 0x100;
      assert buffer[HEADER_SIZE..] == was[HEADER_SIZE..];
      assert buffer[HEADER_SIZE..offset] == was[HEADER_SIZE..offset] && buffer[offset..] == was[offset..];
    }

    method PutRaw32(at: nat, value: uint32)
      requires at + 4 <= HEADER_SIZE && Valid()
      modifies buffer
      ensures Valid()
      ensures buffer[..] == Patch(old(buffer[..]), at, LittleEndian(value, 4))
      ensures buffer[HEADER_SIZE..] == old(buffer[HEADER_SIZE..])
    {
      LittleEndian4(value);
      ghost var was := buffer[..];
      buffer[at] := value % 0x100;
      buffer[at + 1] := value / 0x100 % 0x100;
      buffer[at + 2] := value / 0x1_0000 % 0x100;
      buffer[at + 3] := value / 0x100_0000 % 0x100;
      assert buffer[HEADER_SIZE..] == was[HEADER_SIZE..];
      assert buffer[HEADER_SIZE..offset] == was[HEADER_SIZE..offset] && buffer[offset..] == was[offset..];
    }

    // ---- Parameters ----

    /** A parameter of a command or response; 0 for an index outside 1 to 5. */
    function Parameter(index: int): uint32
      requires PARAMETERS_END <= buffer.Length
      reads this, buffer
    {
      if index < 1 || index > 5 then 0 else U32At(buffer[..], PARAMETER_OFFSET + 4 * (index - 1))
    }

    /** All five parameters, whether or not they are part of the contents. */
    function Words(): (w: seq<uint32>)
      requires PARAMETERS_END <= buffer.Length
      reads this, buffer
      ensures |w| == 5
    {
      WordsIn(buffer[..])
    }

    /** Sets one parameter, and extends the contents to its end; ignores other indices. */
    method SetParameter(index: int, value: uint32)
      requires Valid() && Plain() && PARAMETERS_END <= buffer.Length
      modifies this`packetSize, buffer
      ensures Valid() && Plain()
      ensures Words() == if 1 <= index <= 5 then old(Words())[index - 1 := value] else old(Words())
      ensures packetSize == if 1 <= index <= 5 then Max(old(packetSize), PARAMETER_OFFSET + 4 * index)
              else old(packetSize)
      ensures buffer[..HEADER_SIZE] == old(buffer[..HEADER_SIZE])
    {
      if index < 1 || index > 5 {
        return;
      }
      var at := PARAMETER_OFFSET + 4 * (index - 1);
      if packetSize < at + 4 {
        packetSize := at + 4;
      }
      ghost var was := buffer[..];
      PutWord(at, value);
      WordPut(was, buffer[..], index, value);
    }

    method PutWord(at: nat, value: uint32)
      requires at + 4 <= buffer.Length
      modifies buffer
      ensures buffer[..] == old(buffer[..])[at := value % 0x100][at + 1 := value / 0x100 % 0x100]
                              [at + 2 := value / 0x1_0000 % 0x100][at + 3 := value / 0x100_0000 % 0x100]
    {
      buffer[at] := value % 0x100;
      buffer[at + 1] := value / 0x100 % 0x100;
      buffer[at + 2] := value / 0x1_0000 % 0x100;
      buffer[at + 3] := value / 0x100_0000 % 0x100;
    }

    /** The cursor is not in use, as in a packet that holds a command or a response. */
    ghost predicate Plain()
      reads this
    {
      offset == HEADER_SIZE && fields == [] && ahead == []
    }

    /** A read from the link into the buffer; what lay behind the bytes read stays there. */
    method Receive(bytes: seq<uint8>)
      requires Valid() && Plain() && |bytes| <= buffer.Length
      modifies this`packetSize, buffer
      ensures Valid() && Plain() && packetSize == |bytes| && Content() == bytes
      ensures buffer[|bytes|..] == old(buffer[|bytes|..])
    {
      forall i | 0 <= i < |bytes| {
        buffer[i] := bytes[i];
      }
      packetSize := |bytes|;
      assert buffer[..packetSize] == bytes;
    }

    /** A read from the link that also puts the cursor in front of the payload. */
    method Read(bytes: seq<uint8>)
      requires Valid() && |bytes| <= buffer.Length
      modifies this`packetSize, this`offset, this`fields, this`ahead, buffer
      ensures Valid() && Plain() && packetSize == |bytes| && Content() == bytes
    {
      offset, fields, ahead := HEADER_SIZE, [], [];
      Receive(bytes);
    }

    /** Takes note of integers that lie at the cursor. */
    ghost method Expect(fs: seq<Field>)
      requires Valid() && Holds(fs)
      modifies this`ahead
      ensures Valid() && ahead == fs
    {
      ahead := fs;
    }

    /** Completes the header and hands the contents over. */
    method Transmit(kind: uint16, code: uint16, transaction: uint32) returns (c: seq<uint8>)
      requires Valid() && HEADER_SIZE <= packetSize
      modifies buffer
      ensures Valid() && c == Content() && buffer[HEADER_SIZE..] == old(buffer[HEADER_SIZE..])
      ensures c == Container(kind, code, transaction, old(buffer[HEADER_SIZE..packetSize]))
    {
      ghost var was := buffer[..];
      PutRaw16(CODE_OFFSET, code);
      PutRaw32(TRANSACTION_OFFSET, transaction);
      PutRaw32(LENGTH_OFFSET, packetSize % 0x1_0000_0000);
      PutRaw16(TYPE_OFFSET, kind);
      HeaderWritten(was, code, transaction, packetSize % 0x1_0000_0000, kind);
      c := buffer[..packetSize];
      HeaderKept(was, buffer[..], packetSize);
      FrontAndRest(buffer[..], HEADER_SIZE, packetSize);
    }

    // ---- Puts ----

    /** The bytes outside the ones just put are those of the old state. */
    twostate predicate ElsewhereKept()
      reads this, buffer
    {
      forall i :: 0 <= i < old(buffer.Length) && i < buffer.Length && !(old(offset) <= i < offset)
        ==> buffer[i] == old(buffer[i])
    }

    /** Writes `bytes` at the cursor, one `mBuffer[mOffset++] = b` at a time. */
    method WriteBytes(bytes: seq<uint8>)
      requires offset + |bytes| <= buffer.Length
      modifies buffer, `offset
      ensures offset == old(offset) + |bytes|
      ensures buffer[old(offset)..offset] == bytes
      ensures forall i :: 0 <= i < buffer.Length && !(old(offset) <= i < offset) ==> buffer[i] == old(buffer[i])
    {
      for k := 0 to |bytes|
        invariant offset == old(offset) + k
        invariant buffer[old(offset)..offset] == bytes[..k]
        invariant forall i :: 0 <= i < buffer.Length && !(old(offset) <= i < offset) ==> buffer[i] == old(buffer[i])
      {
        buffer[offset] := bytes[k];
        offset := offset + 1;
      }
    }

    /** Makes room for `bytes` and writes them at the cursor. */
    method PutBytes(bytes: seq<uint8>)
      requires offset <= buffer.Length == growth.size && packetSize <= buffer.Length && Grown()
      modifies this, buffer
      ensures offset == old(offset) + |bytes| <= buffer.Length == growth.size
      ensures old(buffer.Length) <= buffer.Length && (buffer == old(buffer) || fresh(buffer))
      ensures buffer[old(offset)..offset] == bytes && ElsewhereKept()
      ensures packetSize == Max(old(packetSize), offset)
      ensures growth == old(growth).Ask(increment, offset) && Grown()
      ensures fields == old(fields) && ahead == old(ahead)
    {
      Grow(offset + |bytes|);
      WriteBytes(bytes);
      if packetSize < offset {
        packetSize := offset;
      }
    }

    method PutField(f: Field, bytes: seq<uint8>)
      requires Valid() && bytes == f.Bytes()
      modifies this, buffer
      ensures Valid() && Wrote([f]) && ahead == [] && ElsewhereKept()
      ensures growth == old(growth).Ask(increment, offset) && offset == old(offset) + f.Width()
    {
      PutBytes(bytes);
      EncodeSnoc(fields, f);
      Extended(old(buffer[..]), buffer[..], HEADER_SIZE, old(offset), bytes);
      fields, ahead := fields + [f], [];
    }

    method PutUInt8(value: uint8)
      requires Valid()
      modifies this, buffer
      ensures Valid() && Wrote([U8(value)]) && ahead == [] && ElsewhereKept()
      ensures growth == old(growth).Ask(increment, offset) && offset == old(offset) + 1
    {
      assert LittleEndian(value, 1) == [value] + LittleEndian(0, 0);
      PutField(U8(value), [value]);
    }

    method PutUInt16(value: uint16)
      requires Valid()
      modifies this, buffer
      ensures Valid() && Wrote([U16(value)]) && ahead == [] && ElsewhereKept()
      ensures growth == old(growth).Ask(increment, offset) && offset == old(offset) + 2
    {
      LittleEndian2(value);
      PutField(U16(value), [value % 0x100, value / 0x100 % 0x100]);
    }

    method PutUInt32(value: uint32)
      requires Valid()
      modifies this, buffer
      ensures Valid() && Wrote([U32(value)]) && ahead == [] && ElsewhereKept()
      ensures growth == old(growth).Ask(increment, offset) && offset == old(offset) + 4
    {
      LittleEndian4(value);
      PutField(U32(value), [value % 0x100, value / 0x100 % 0x100,
                            value / 0x1_0000 % 0x100, value / 0x100_0000 % 0x100]);
    }

    method PutUInt64(value: uint64)
      requires Valid()
      modifies this, buffer
      ensures Valid() && Wrote([U64(value)]) && ahead == [] && ElsewhereKept()
      ensures growth == old(growth).Ask(increment, offset) && offset == old(offset) + 8
    {
      EightBytes(value);
      PutField(U64(value), [value % 0x100, value / 0x100 % 0x100,
                            value / 0x1_0000 % 0x100, value / 0x100_0000 % 0x100,
                            value / 0x1_0000_0000 % 0x100, value / 0x100_0000_0000 % 0x100,
                            value / 0x1_0000_0000_0000 % 0x100, value / 0x100_0000_0000_0000 % 0x100]);
    }

    /** One put per field. */
    method Put(f: Field)
      requires Valid()
      modifies this, buffer
      ensures Valid() && ahead == [] && Wrote([f])
    {
      match f
      case U8(v) => PutUInt8(v);
      case U16(v) => PutUInt16(v);
      case U32(v) => PutUInt32(v);
      case U64(v) => PutUInt64(v);
    }

    method PutFields(fs: seq<Field>)
      requires Valid() && (offset <= packetSize || fs != [])
      modifies this, buffer
      ensures Valid() && Wrote(fs) && (fs != [] ==> ahead == [])
    {
      if fs == [] {
        return;
      }
      ghost var before := fields;
      Put(fs[0]);
      assert fs[..1] == [fs[0]];
      for i := 1 to |fs|
        invariant Valid() && Advanced() && fields == before + fs[..i] && ahead == []
      {
        Put(fs[i]);
        TakeMore(fs, i);
        Assoc(before, fs[..i], [fs[i]]);
      }
      assert fs[..|fs|] == fs;
    }

    // ---- Gets ----

    /** Records that the cursor is about to pass `f`. */
    ghost method Pass(f: Field)
      requires Valid() && f.Bytes() <= buffer[offset..]
      modifies `fields, `ahead
      ensures fields == old(fields) + [f]
      ensures offset + f.Width() <= buffer.Length && buffer[HEADER_SIZE..offset + f.Width()] == Encode(fields)
      ensures Encode(ahead) <= buffer[offset + f.Width()..]
      ensures old(ahead) != [] && old(ahead)[0].Width() == f.Width() ==> f == old(ahead)[0] && ahead == old(ahead)[1..]
    {
      EncodeSnoc(fields, f);
      Lengthen(buffer[..], HEADER_SIZE, offset, f.Bytes());
      fields := fields + [f];
      if ahead != [] && ahead[0].Width() == f.Width() {
        Recognise(buffer[offset..], f, ahead);
        ahead := ahead[1..];
      } else {
        ahead := [];
      }
    }

    method GetUInt8() returns (r: uint8)
      requires Valid() && (offset + 1 <= buffer.Length || (ahead != [] && ahead[0].U8?))
      modifies `offset, `fields, `ahead
      ensures Valid() && fields == old(fields) + [U8(r)] && offset == old(offset) + 1
      ensures old(ahead) != [] && old(ahead)[0].U8? ==>
        r == old(ahead)[0].u8 && ahead == old(ahead)[1..] && End() == old(End())
    {
      r := buffer[offset];
      assert LittleEndian(r, 1) == [r] + LittleEndian(0, 0);
      assert buffer[offset..][..1] == buffer[..][offset..offset + 1];
      Pass(U8(r));
      offset := offset + 1;
    }

    method GetUInt16() returns (r: uint16)
      requires Valid() && (offset + 2 <= buffer.Length || (ahead != [] && ahead[0].U16?))
      modifies `offset, `fields, `ahead
      ensures Valid() && fields == old(fields) + [U16(r)] && offset == old(offset) + 2
      ensures old(ahead) != [] && old(ahead)[0].U16? ==>
        r == old(ahead)[0].u16 && ahead == old(ahead)[1..] && End() == old(End())
    {
      r := U16At(buffer[..], offset);
      U16AtBytes(buffer[..], offset);
      assert buffer[offset..][..2] == buffer[..][offset..offset + 2];
      Pass(U16(r));
      offset := offset + 2;
    }

    method GetUInt32() returns (r: uint32)
      requires Valid() && (offset + 4 <= buffer.Length || (ahead != [] && ahead[0].U32?))
      modifies `offset, `fields, `ahead
      ensures Valid() && fields == old(fields) + [U32(r)] && offset == old(offset) + 4
      ensures old(ahead) != [] && old(ahead)[0].U32? ==>
        r == old(ahead)[0].u32 && ahead == old(ahead)[1..] && End() == old(End())
    {
      r := U32At(buffer[..], offset);
      U32AtBytes(buffer[..], offset);
      assert buffer[offset..][..4] == buffer[..][offset..offset + 4];
      Pass(U32(r));
      offset := offset + 4;
    }

    method GetUInt64() returns (r: uint64)
      requires Valid() && (offset + 8 <= buffer.Length || (ahead != [] && ahead[0].U64?))
      modifies `offset, `fields, `ahead
      ensures Valid() && fields == old(fields) + [U64(r)] && offset == old(offset) + 8
      ensures old(ahead) != [] && old(ahead)[0].U64? ==>
        r == old(ahead)[0].u64 && ahead == old(ahead)[1..] && End() == old(End())
    {
      r := U64At(buffer[..], offset);
      U64AtBytes(buffer[..], offset);
      assert buffer[offset..][..8] == buffer[..][offset..offset + 8];
      Pass(U64(r));
      offset := offset + 8;
    }

    /** One get of the given width in bytes. */
    method Get(width: nat) returns (f: Field)
      requires width in {1, 2, 4, 8} && Valid()
      requires offset + width <= buffer.Length || (ahead != [] && ahead[0].Width() == width)
      modifies `offset, `fields, `ahead
      ensures Valid() && f.Width() == width && fields == old(fields) + [f] && offset == old(offset) + width
      ensures old(ahead) != [] && old(ahead)[0].Width() == width ==>
        f == old(ahead)[0] && ahead == old(ahead)[1..] && End() == old(End())
    {
      if width == 1 {
        var v := GetUInt8();
        f := U8(v);
      } else if width == 2 {
        var v := GetUInt16();
        f := U16(v);
      } else if width == 4 {
        var v := GetUInt32();
        f := U32(v);
      } else {
        var v := GetUInt64();
        f := U64(v);
      }
    }

    /** One get per width; reads the fields `sent` that lie at the cursor, in front of `rest`. */
    method GetFields(widths: seq<nat>, ghost sent: seq<Field>, ghost rest: seq<Field>) returns (r: seq<Field>)
      requires Valid() && ahead == sent + rest
      requires |widths| == |sent| && forall i :: 0 <= i < |sent| ==> widths[i] == sent[i].Width()
      modifies `offset, `fields, `ahead
      ensures Valid() && ahead == rest && r == sent && End() == old(End())
    {
      r := [];
      assert sent[0..] == sent;
      for i := 0 to |widths|
        invariant Valid() && ahead == sent[i..] + rest && r == sent[..i] && End() == old(End())
      {
        DropHead(sent, i, rest);
        var f := Get(widths[i]);
        r := r + [f];
        TakeMore(sent, i);
      }
    }

    // ---- Arrays ----

    method PutAUInt16(values: seq<uint16>)
      requires Valid()
      modifies this, buffer
      ensures Valid() && ahead == [] && Wrote(Array16(values))
    {
      Put(U32(|values| % 0x1_0000_0000));
      ghost var before := fields;
      for i := 0 to |values|
        invariant Valid() && ahead == [] && Advanced() && fields == before + U16s(values[..i])
      {
        Put(U16(values[i]));
        U16sSnoc(values, i);
        Assoc(before, U16s(values[..i]), [U16(values[i])]);
      }
      assert values[..|values|] == values;
    }

    method PutAUInt32(values: seq<uint32>)
      requires Valid()
      modifies this, buffer
      ensures Valid() && ahead == [] && Wrote(Array32(values))
    {
      Put(U32(|values| % 0x1_0000_0000));
      ghost var before := fields;
      for i := 0 to |values|
        invariant Valid() && ahead == [] && Advanced() && fields == before + U32s(values[..i])
      {
        Put(U32(values[i]));
        U32sSnoc(values, i);
        Assoc(before, U32s(values[..i]), [U32(values[i])]);
      }
      assert values[..|values|] == values;
    }

    /** Reads the array that lies at the cursor, in front of `rest`. */
    method GetAUInt16(ghost sent: seq<uint16>, ghost rest: seq<Field>) returns (r: seq<uint16>)
      requires Valid() && |sent| < 0x1_0000_0000 && ahead == Array16(sent) + rest
      modifies `offset, `fields, `ahead
      ensures Valid() && ahead == rest && r == sent && End() == old(End())
    {
      var count := GetUInt32();
      r := [];
      assert count == |sent| && sent[0..] == sent;
      assert ahead == U16s(sent) + rest;
      for i := 0 to count
        invariant Valid() && ahead == U16s(sent[i..]) + rest && r == sent[..i] && End() == old(End())
      {
        U16sHead(sent, i, rest);
        var v := GetUInt16();
        r := r + [v];
        TakeMore(sent, i);
      }
    }

    method GetAUInt32(ghost sent: seq<uint32>, ghost rest: seq<Field>) returns (r: seq<uint32>)
      requires Valid() && |sent| < 0x1_0000_0000 && ahead == Array32(sent) + rest
      modifies `offset, `fields, `ahead
      ensures Valid() && ahead == rest && r == sent && End() == old(End())
    {
      var count := GetUInt32();
      r := [];
      assert count == |sent| && sent[0..] == sent;
      assert ahead == U32s(sent) + rest;
      for i := 0 to count
        invariant Valid() && ahead == U32s(sent[i..]) + rest && r == sent[..i] && End() == old(End())
      {
        U32sHead(sent, i, rest);
        var v := GetUInt32();
        r := r + [v];
        TakeMore(sent, i);
      }
    }
  }

  /** Hands one packet's contents over to another, which makes room for them and finds at its
      cursor what was put. */
  method HandOver(near: MtpPacket, far: MtpPacket, kind: uint16, code: uint16, transaction: uint32)
    requires near.Valid() && near.offset == near.packetSize
    requires far.Valid() && near != far && near.buffer != far.buffer
    modifies near.buffer, far, far.buffer
    ensures near.Valid() && far.Valid() && far.offset == HEADER_SIZE && far.fields == [] && far.ahead == near.fields
    ensures far.packetSize == near.packetSize && far.End() == far.packetSize
    ensures far.buffer == old(far.buffer) || fresh(far.buffer)
  {
    var c := near.Transmit(kind, code, transaction);
    far.Reset();
    far.Grow(|c|);
    far.Read(c);
    assert far.buffer[HEADER_SIZE..][..|c| - HEADER_SIZE] == c[HEADER_SIZE..] == Encode(near.fields);
    far.Expect(near.fields);
  }
}
