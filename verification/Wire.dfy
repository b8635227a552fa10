/** The byte layout of everything that crosses the USB link: little-endian integers,
    and datasets as lists of integer fields. */
module Wire {
  import opened MtpTypes

  // ---- Little-endian integers ----

  function Pow256(n: nat): nat {
    if n == 0 then 1 else 256 * Pow256(n - 1)
  }

  function LittleEndian(value: nat, width: nat): (bytes: seq<uint8>)
    ensures |bytes| == width
  {
    if width == 0 then [] else [value % 256] + LittleEndian(value / 256, width - 1)
  }

  function FromLittleEndian(bytes: seq<uint8>): nat {
    if bytes == [] then 0 else bytes[0] + 256 * FromLittleEndian(bytes[1..])
  }

  lemma {:induction false} LittleEndianRoundTrip(value: nat, width: nat)
    requires value < Pow256(width)
    ensures FromLittleEndian(LittleEndian(value, width)) == value
  {
    if width > 0 {
      LittleEndianRoundTrip(value / 256, width - 1);
      assert LittleEndian(value, width)[1..] == LittleEndian(value / 256, width - 1);
    }
  }

  // ---- Fields and datasets ----

  /** One integer of a dataset. */
  datatype Field = U8(u8: uint8) | U16(u16: uint16) | U32(u32: uint32) | U64(u64: uint64) {
    function Width(): nat {
      match this case U8(_) => 1 case U16(_) => 2 case U32(_) => 4 case U64(_) => 8
    }

    function Value(): nat {
      match this case U8(v) => v case U16(v) => v case U32(v) => v case U64(v) => v
    }

    function Bytes(): seq<uint8> { LittleEndian(Value(), Width()) }
  }

  function Encode(fields: seq<Field>): seq<uint8> {
    if fields == [] then [] else fields[0].Bytes() + Encode(fields[1..])
  }

  lemma {:induction false} EncodeNonempty(fields: seq<Field>)
    ensures Encode(fields) == [] <==> fields == []
  {
    if fields != [] {
      assert |fields[0].Bytes()| == fields[0].Width() > 0;
    }
  }

  lemma {:induction false} EncodeConcat(a: seq<Field>, b: seq<Field>)
    ensures Encode(a + b) == Encode(a) + Encode(b)
  {
    if a == [] {
      assert a + b == b;
    } else {
      EncodeConcat(a[1..], b);
      assert (a + b)[1..] == a[1..] + b;
      Assoc(a[0].Bytes(), Encode(a[1..]), Encode(b));
    }
  }

  lemma EncodeSnoc(a: seq<Field>, f: Field)
    ensures Encode(a + [f]) == Encode(a) + f.Bytes()
  {
    EncodeConcat(a, [f]);
  }

  lemma FieldFits(f: Field)
    ensures f.Value() < Pow256(f.Width())
  {
    assert Pow256(1) == 0x100;
    assert Pow256(2) == 0x1_0000;
    assert Pow256(3) == 0x100_0000;
    assert Pow256(4) == 0x1_0000_0000;
    assert Pow256(6) == 0x1_0000_0000 * 0x1_0000;
    assert Pow256(8) == 0x1_0000_0000 * 0x1_0000_0000;
  }

  lemma FieldBytesInjective(f: Field, g: Field)
    requires f.Width() == g.Width() && f.Bytes() == g.Bytes()
    ensures f == g
  {
    FieldFits(f);
    FieldFits(g);
    LittleEndianRoundTrip(f.Value(), f.Width());
    LittleEndianRoundTrip(g.Value(), g.Width());
  }

  ghost predicate SameShape(a: seq<Field>, b: seq<Field>) {
    |a| == |b| && forall i :: 0 <= i < |a| ==> a[i].Width() == b[i].Width()
  }

  /** Datasets of one shape form a prefix code: a byte stream starts with at most one of them. */
  lemma {:induction false} UniqueParse(a: seq<Field>, b: seq<Field>, stream: seq<uint8>)
    requires SameShape(a, b) && Encode(a) <= stream && Encode(b) <= stream
    ensures a == b
  {
    if a != [] {
      var w := a[0].Width();
      assert stream[..w] == Encode(a)[..w] == a[0].Bytes();
      assert stream[..w] == Encode(b)[..w] == b[0].Bytes();
      FieldBytesInjective(a[0], b[0]);
      assert Encode(a)[w..] == Encode(a[1..]) && Encode(b)[w..] == Encode(b[1..]);
      UniqueParse(a[1..], b[1..], stream[w..]);
    }
  }

  // ---- Sequence arithmetic ----

  lemma Assoc<T>(a: seq<T>, b: seq<T>, c: seq<T>)
    ensures a + b + c == a + (b + c)
  {
  }

  lemma Assoc3<T>(f: seq<T>, a: seq<T>, b: seq<T>, c: seq<T>)
    ensures f + a + b + c == f + (a + (b + c))
  {
  }

  lemma Assoc5<T>(f: seq<T>, a: seq<T>, b: seq<T>, c: seq<T>, d: seq<T>, e: seq<T>)
    ensures f + a + b + c + d + e == f + (a + (b + (c + (d + e))))
  {
  }

  // ---- Pieces ----

  function Concat(chunks: seq<seq<uint8>>): seq<uint8> {
    if chunks == [] then [] else chunks[0] + Concat(chunks[1..])
  }

  lemma {:induction false} ConcatSnoc(chunks: seq<seq<uint8>>, c: seq<uint8>)
    ensures Concat(chunks + [c]) == Concat(chunks) + c
  {
    if chunks == [] {
      assert chunks + [c] == [c];
    } else {
      assert (chunks + [c])[1..] == chunks[1..] + [c];
      ConcatSnoc(chunks[1..], c);
    }
  }

  lemma TakeMore<T>(s: seq<T>, i: nat)
    requires i < |s|
    ensures s[..i + 1] == s[..i] + [s[i]]
  {
  }

  lemma DropHead<T>(s: seq<T>, i: nat, rest: seq<T>)
    requires i < |s|
    ensures (s[i..] + rest)[0] == s[i] && (s[i..] + rest)[1..] == s[i + 1..] + rest
  {
  }

  function U16s(units: seq<uint16>): (fs: seq<Field>)
    ensures |fs| == |units|
  {
    seq(|units|, i requires 0 <= i < |units| => U16(units[i]))
  }

  function U32s(words: seq<uint32>): (fs: seq<Field>)
    ensures |fs| == |words|
  {
    seq(|words|, i requires 0 <= i < |words| => U32(words[i]))
  }

  lemma U16sHead(units: seq<uint16>, i: nat, rest: seq<Field>)
    requires i < |units|
    ensures var fs := U16s(units[i..]) + rest; fs[0] == U16(units[i]) && fs[1..] == U16s(units[i + 1..]) + rest
  {
  }

  lemma U32sHead(words: seq<uint32>, i: nat, rest: seq<Field>)
    requires i < |words|
    ensures var fs := U32s(words[i..]) + rest; fs[0] == U32(words[i]) && fs[1..] == U32s(words[i + 1..]) + rest
  {
  }

  lemma U16sSnoc(units: seq<uint16>, i: nat)
    requires i < |units|
    ensures U16s(units[..i + 1]) == U16s(units[..i]) + [U16(units[i])]
  {
  }

  lemma U32sSnoc(words: seq<uint32>, i: nat)
    requires i < |words|
    ensures U32s(words[..i + 1]) == U32s(words[..i]) + [U32(words[i])]
  {
  }

  /** A 32-bit count and the elements: section 3.2.2 of the MTP 1.1 specification. */
  function Array16(values: seq<uint16>): seq<Field> {
    [U32(|values| % 0x1_0000_0000)] + U16s(values)
  }

  function Array32(values: seq<uint32>): seq<Field> {
    [U32(|values| % 0x1_0000_0000)] + U32s(values)
  }

  // ---- Containers ----

  function Header(length: uint32, kind: uint16, code: uint16, transaction: uint32): (bytes: seq<uint8>)
    ensures |bytes| == HEADER_SIZE
  {
    LittleEndian(length, 4) + LittleEndian(kind, 2) + LittleEndian(code, 2) + LittleEndian(transaction, 4)
  }
}
