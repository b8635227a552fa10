/** What the device finds in a buffer when it reads an object description from it: whatever
    the bytes are, they can be read in exactly one way. */
module Intake {
  import opened MtpTypes
  import opened Wire
  import opened Packets
  import opened Strings
  import opened Datasets

  /** The part of an object description that is read: the integers, of which `d` holds the
      values, and three strings. */
  datatype Incoming = Incoming(d: ObjectInfo, name: Raw, created: Raw, modified: Raw)

  function IncomingFields(g: Incoming): seq<Field> {
    InfoIntegers(g.d) + (Received(g.name) + (Received(g.created) + Received(g.modified)))
  }

  const INFO_WIDTHS: seq<nat> := [4, 2, 2, 4, 2, 4, 4, 4, 4, 4, 4, 4, 2, 4, 4]

  // ---- Integers ----

  function Sum(widths: seq<nat>): nat {
    if widths == [] then 0 else widths[0] + Sum(widths[1..])
  }

  predicate Widths(widths: seq<nat>) {
    forall w :: w in widths ==> w == 1 || w == 2 || w == 4 || w == 8
  }

  ghost predicate OfWidths(fs: seq<Field>, widths: seq<nat>) {
    |fs| == |widths| && forall i :: 0 <= i < |fs| ==> fs[i].Width() == widths[i]
  }

  lemma FieldAt(b: seq<uint8>, width: nat) returns (f: Field)
    requires (width == 1 || width == 2 || width == 4 || width == 8) && width <= |b|
    ensures f.Width() == width && f.Bytes() == b[..width]
  {
    if width == 1 {
      f := U8(b[0]);
      assert LittleEndian(b[0], 1) == [b[0]] + LittleEndian(0, 0);
    } else if width == 2 {
      U16AtBytes(b, 0);
      f := U16(U16At(b, 0));
    } else if width == 4 {
      U32AtBytes(b, 0);
      f := U32(U32At(b, 0));
    } else {
      U64AtBytes(b, 0);
      f := U64(U64At(b, 0));
    }
  }

  /** Bytes enough can be read as integers of any widths. */
  lemma {:induction false} FieldsAt(b: seq<uint8>, widths: seq<nat>) returns (fs: seq<Field>)
    requires Widths(widths) && Sum(widths) <= |b|
    ensures OfWidths(fs, widths) && Encode(fs) == b[..Sum(widths)]
  {
    if widths == [] {
      fs := [];
    } else {
      var w := widths[0];
      assert w in widths && Sum(widths) == w + Sum(widths[1..]);
      var f := FieldAt(b, w);
      assert forall v :: v in widths[1..] ==> v in widths;
      var rest := FieldsAt(b[w..], widths[1..]);
      fs := [f] + rest;
      assert b[..Sum(widths)] == b[..w] + b[w..][..Sum(widths[1..])];
    }
  }

  /** A counted string can be read from any bytes that are enough for the longest one. */
  lemma RawAt(b: seq<uint8>) returns (raw: Raw)
    requires 511 <= |b|
    ensures Encode(Received(raw)) <= b && |Encode(Received(raw))| <= 511
  {
    var count := b[0];
    var widths := seq(count, i requires 0 <= i < count => 2);
    TwosSum(count);
    var fs := FieldsAt(b[1..], widths);
    raw := seq(count, i requires 0 <= i < count => fs[i].u16);
    assert U16s(raw) == fs;
    EncodeConcat([U8(count)], fs);
    assert LittleEndian(count, 1) == [count] + LittleEndian(0, 0);
    assert Encode([U8(count)]) == U8(count).Bytes() + Encode([]);
    assert Encode(Received(raw)) == [b[0]] + b[1..][..2 * count];
  }

  lemma {:induction false} TwosSum(count: nat)
    ensures Sum(seq(count, i requires 0 <= i < count => 2)) == 2 * count
    ensures Widths(seq(count, i requires 0 <= i < count => 2))
  {
    if count > 0 {
      TwosSum(count - 1);
      assert seq(count, i requires 0 <= i < count => 2)[1..] == seq(count - 1, i requires 0 <= i < count - 1 => 2);
    }
  }

  lemma {:induction false} SumConcat(a: seq<nat>, b: seq<nat>)
    ensures Sum(a + b) == Sum(a) + Sum(b)
  {
    if a == [] {
      assert a + b == b;
    } else {
      assert (a + b)[1..] == a[1..] + b;
      SumConcat(a[1..], b);
    }
  }

  lemma SumFive(a: nat, b: nat, c: nat, d: nat, e: nat)
    ensures Sum([a, b, c, d, e]) == a + b + c + d + e
  {
    var s: seq<nat> := [];
    assert [a, b, c, d, e] == [a] + ([b] + ([c] + ([d] + ([e] + s))));
    SumCons(e, s);
    SumCons(d, [e] + s);
    SumCons(c, [d] + ([e] + s));
    SumCons(b, [c] + ([d] + ([e] + s)));
    SumCons(a, [b] + ([c] + ([d] + ([e] + s))));
  }

  lemma SumCons(w: nat, rest: seq<nat>)
    ensures Sum([w] + rest) == w + Sum(rest)
  {
    assert ([w] + rest)[1..] == rest;
  }

  lemma InfoSum()
    ensures Sum(INFO_WIDTHS) == 52 && Widths(INFO_WIDTHS)
  {
    var a, b, c: seq<nat> := [4, 2, 2, 4, 2], [4, 4, 4, 4, 4], [4, 4, 2, 4, 4];
    InfoParts(a, b, c);
    SumFive(4, 2, 2, 4, 2);
    SumFive(4, 4, 4, 4, 4);
    SumFive(4, 4, 2, 4, 4);
    SumConcat(b, c);
    SumConcat(a, b + c);
  }

  lemma InfoParts(a: seq<nat>, b: seq<nat>, c: seq<nat>)
    requires a == [4, 2, 2, 4, 2] && b == [4, 4, 4, 4, 4] && c == [4, 4, 2, 4, 4]
    ensures INFO_WIDTHS == a + (b + c) && Widths(INFO_WIDTHS)
  {
    assert forall i :: 0 <= i < 15 ==> INFO_WIDTHS[i] == 2 || INFO_WIDTHS[i] == 4;
  }

  lemma IntegersOf(fs: seq<Field>)
    requires OfWidths(fs, INFO_WIDTHS)
    ensures InfoOf.requires(fs, [], [], [], []) && InfoIntegers(InfoOf(fs, [], [], [], [])) == fs
  {
    assert |fs| == 15;
    forall i | 0 <= i < 15
      ensures INFO_WIDTHS[i] == 4 ==> fs[i] == U32(fs[i].u32)
      ensures INFO_WIDTHS[i] == 2 ==> fs[i] == U16(fs[i].u16)
    {
      assert fs[i].Width() == INFO_WIDTHS[i];
    }
  }

  lemma IntegersAt(b: seq<uint8>) returns (d: ObjectInfo)
    requires 52 <= |b|
    ensures Encode(InfoIntegers(d)) == b[..52]
  {
    InfoSum();
    var fs := FieldsAt(b, INFO_WIDTHS);
    IntegersOf(fs);
    d := InfoOf(fs, [], [], [], []);
  }

  lemma {:induction false} WidthsLength(fs: seq<Field>, widths: seq<nat>)
    requires OfWidths(fs, widths)
    ensures |Encode(fs)| == Sum(widths)
  {
    if fs != [] {
      assert fs[0].Width() == widths[0];
      forall i | 0 <= i < |fs| - 1
        ensures fs[1..][i].Width() == widths[1..][i]
      {
        assert fs[i + 1].Width() == widths[i + 1];
      }
      WidthsLength(fs[1..], widths[1..]);
    }
  }

  lemma IntegersLength(d: ObjectInfo)
    ensures |Encode(InfoIntegers(d))| == 52
  {
    InfoSum();
    IntegersWidths(InfoIntegers(d), d);
    WidthsLength(InfoIntegers(d), INFO_WIDTHS);
  }

  lemma IntegersWidths(fs: seq<Field>, d: ObjectInfo)
    requires fs == InfoIntegers(d)
    ensures OfWidths(fs, INFO_WIDTHS)
  {
    assert |fs| == 15 && |INFO_WIDTHS| == 15;
    assert fs[0].U32? && fs[1].U16? && fs[2].U16? && fs[3].U32? && fs[4].U16?;
    assert fs[5].U32? && fs[6].U32? && fs[7].U32? && fs[8].U32? && fs[9].U32?;
    assert fs[10].U32? && fs[11].U32? && fs[12].U16? && fs[13].U32? && fs[14].U32?;
    forall i | 0 <= i < 15
      ensures fs[i].Width() == INFO_WIDTHS[i]
    {
      assert fs[i].U16? <==> i == 1 || i == 2 || i == 4 || i == 12;
    }
  }

  lemma PrefixConcat<T>(a: seq<T>, c: seq<T>, b: seq<T>)
    requires a <= b && c <= b[|a|..]
    ensures a + c <= b
  {
  }

  /** Every buffer that is long enough for the longest description can be read as one. */
  lemma EveryBufferIsIncoming(b: seq<uint8>) returns (g: Incoming)
    requires 52 + 3 * 511 <= |b|
    ensures Encode(IncomingFields(g)) <= b
  {
    var d := IntegersAt(b);
    var name := RawAt(b[52..]);
    var n1 := 52 + |Encode(Received(name))|;
    var created := RawAt(b[n1..]);
    var n2 := n1 + |Encode(Received(created))|;
    var modified := RawAt(b[n2..]);
    g := Incoming(d, name, created, modified);
    var last := Encode(Received(modified));
    assert b[n1..][n2 - n1..] == b[n2..];
    PrefixConcat(Encode(Received(created)), last, b[n1..]);
    EncodeConcat(Received(created), Received(modified));
    assert b[52..][n1 - 52..] == b[n1..];
    PrefixConcat(Encode(Received(name)), Encode(Received(created) + Received(modified)), b[52..]);
    EncodeConcat(Received(name), Received(created) + Received(modified));
    PrefixConcat(Encode(InfoIntegers(d)), Encode(Received(name) + (Received(created) + Received(modified))), b);
    EncodeConcat(InfoIntegers(d), Received(name) + (Received(created) + Received(modified)));
  }

  // ---- In one way only ----

  lemma PrefixParts(a: seq<Field>, c: seq<Field>, b: seq<uint8>)
    requires Encode(a + c) <= b
    ensures Encode(a) <= b && Encode(c) <= b[|Encode(a)|..]
  {
    EncodeConcat(a, c);
    assert b[|Encode(a)|..][..|Encode(c)|] == (Encode(a) + Encode(c))[|Encode(a)|..];
  }

  /** The string that lies at the front of a stream is determined, whatever follows it. */
  lemma RawUnique(a: Raw, c: Raw, b: seq<uint8>)
    requires Encode(Received(a)) <= b && Encode(Received(c)) <= b
    ensures a == c
  {
    Recognise(b, U8(|a|), Received(c)) by {
      PrefixParts([U8(|a|)], U16s(a), b);
      assert Encode([U8(|a|)]) == U8(|a|).Bytes() + Encode([]);
    }
    assert |a| == |c|;
    UniqueParse(Received(a), Received(c), b);
    forall i | 0 <= i < |a|
      ensures a[i] == c[i]
    {
      assert Received(a)[i + 1] == U16(a[i]) && Received(c)[i + 1] == U16(c[i]);
    }
  }

  lemma IntegersUnique(a: ObjectInfo, c: ObjectInfo, b: seq<uint8>)
    requires Encode(InfoIntegers(a)) <= b && Encode(InfoIntegers(c)) <= b
    ensures InfoIntegers(a) == InfoIntegers(c)
  {
    UniqueParse(InfoIntegers(a), InfoIntegers(c), b);
  }

  /** There is only one way to read a description: the integers and all three strings are
      determined by the bytes. */
  lemma IncomingUnique(a: Incoming, c: Incoming, b: seq<uint8>)
    requires Encode(IncomingFields(a)) <= b && Encode(IncomingFields(c)) <= b
    ensures InfoIntegers(a.d) == InfoIntegers(c.d) && a.name == c.name && a.created == c.created
    ensures a.modified == c.modified
  {
    PrefixParts(InfoIntegers(a.d), Received(a.name) + (Received(a.created) + Received(a.modified)), b);
    PrefixParts(InfoIntegers(c.d), Received(c.name) + (Received(c.created) + Received(c.modified)), b);
    IntegersUnique(a.d, c.d, b);
    var b1 := b[|Encode(InfoIntegers(a.d))|..];
    PrefixParts(Received(a.name), Received(a.created) + Received(a.modified), b1);
    PrefixParts(Received(c.name), Received(c.created) + Received(c.modified), b1);
    RawUnique(a.name, c.name, b1);
    var b2 := b1[|Encode(Received(a.name))|..];
    PrefixParts(Received(a.created), Received(a.modified), b2);
    PrefixParts(Received(c.created), Received(c.modified), b2);
    RawUnique(a.created, c.created, b2);
    RawUnique(a.modified, c.modified, b2[|Encode(Received(a.created))|..]);
  }

  // ---- What the host sends ----

  /** What a host's description, with names of at most 254 characters, is read as. */
  function SentIncoming(d: ObjectInfo): Incoming
    requires |Units(d.name)| <= 254 && |Units(d.created)| <= 254 && |Units(d.modified)| <= 254
  {
    Incoming(d, Terminated(Units(d.name)), Terminated(Units(d.created)), Terminated(Units(d.modified)))
  }

  /** The device reads what the host wrote: the format, the size, the parent and the other
      integers, and the same name, however it comes to look at the bytes. */
  lemma HostInfoIsRead(d: ObjectInfo, g: Incoming, b: seq<uint8>)
    requires |Units(d.name)| <= 254 && |Units(d.created)| <= 254 && |Units(d.modified)| <= 254
    requires Encode(InfoFields(d)) <= b && Encode(IncomingFields(g)) <= b
    ensures InfoIntegers(g.d) == InfoIntegers(d) && Text(g.name) == d.name && Text(g.created) == d.created
    ensures Text(g.modified) == d.modified
  {
    SentIsReceived(Units(d.name));
    SentIsReceived(Units(d.created));
    SentIsReceived(Units(d.modified));
    Regroup4(InfoIntegers(d), Sent(Units(d.name)), Sent(Units(d.created)), Sent(Units(d.modified)),
             Sent(Units(d.keywords)));
    PrefixParts(IncomingFields(SentIncoming(d)), Sent(Units(d.keywords)), b);
    IncomingUnique(g, SentIncoming(d), b);
    TextOfName(d.name);
    TextOfName(d.created);
    TextOfName(d.modified);
  }

  lemma Regroup4<T>(a: seq<T>, b: seq<T>, c: seq<T>, d: seq<T>, e: seq<T>)
    ensures a + (b + (c + (d + e))) == a + (b + (c + d)) + e
  {
  }

  /** A name comes back as itself. */
  lemma TextOfName(s: Name)
    requires |Units(s)| <= 254
    ensures Text(Terminated(Units(s))) == s
  {
    NameUnits(s);
    Utf8NoZero(Units(s));
    UpToZeroTerminated(Units(s), []);
    assert Units(s) + [0] + [] == Units(s) + [0];
  }
}
