/** Strings on the wire and in memory: a count and 16-bit units in a packet, UTF-8 bytes
    ended by a zero in a string buffer. */
module Strings {
  import opened MtpTypes
  import opened Wire
  import opened Packets

  // ---- UTF-8 in one to three bytes ----

  function UnitBytes(ch: uint16): (bytes: seq<uint8>)
    ensures 1 <= |bytes| <= 3
  {
    if ch >= 0x800 then [0xE0 + ch / 0x1000, 0x80 + ch / 0x40 % 0x40, 0x80 + ch % 0x40]
    else if ch >= 0x80 then [0xC0 + ch / 0x40, 0x80 + ch % 0x40]
    else [ch]
  }

  function Utf8(units: seq<uint16>): (bytes: seq<uint8>)
    ensures |bytes| <= 3 * |units|
  {
    if units == [] then [] else UnitBytes(units[0]) + Utf8(units[1..])
  }

  predicate TwoByteLead(b: uint8) { 0xC0 <= b < 0xE0 }

  predicate ThreeByteLead(b: uint8) { 0xE0 <= b < 0xF0 }

  /** How many bytes the writer takes for a character that starts with `b`. */
  function Advance(b: uint8): nat {
    if b < 0x80 then 1 else if TwoByteLead(b) then 2 else 3
  }

  function Join2(b0: uint8, b1: uint8): uint16 {
    b0 as int % 0x20 * 0x40 + b1 as int % 0x40
  }

  function Join3(b0: uint8, b1: uint8, b2: uint8): uint16 {
    b0 as int % 0x10 * 0x1000 + b1 as int % 0x40 * 0x40 + b2 as int % 0x40
  }

  /** The character the writer forms at the start of `b`. */
  function UnitAt(b: seq<uint8>): uint16
    requires b != [] && Advance(b[0]) <= |b|
  {
    if b[0] < 0x80 then b[0]
    else if TwoByteLead(b[0]) then Join2(b[0], b[1])
    else Join3(b[0], b[1], b[2])
  }

  /** The `count` characters the writer forms from `b`; None when it runs past the end. */
  function Decode(b: seq<uint8>, count: nat): Option<seq<uint16>>
    decreases count
  {
    if count == 0 then Some([])
    else if b == [] || |b| < Advance(b[0]) then None
    else
      match Decode(b[Advance(b[0])..], count - 1)
      case None => None
      case Some(rest) => Some([UnitAt(b)] + rest)
  }

  /** All complete characters of `b`. */
  function Units(b: seq<uint8>): seq<uint16> {
    if b == [] || |b| < Advance(b[0]) then [] else [UnitAt(b)] + Units(b[Advance(b[0])..])
  }

  predicate NoZero(s: seq<int>) { 0 !in s }

  lemma JoinSplit(ch: uint16)
    ensures ch < 0x800 ==> Join2(0xC0 + ch / 0x40, 0x80 + ch % 0x40) == ch
    ensures Join3(0xE0 + ch / 0x1000, 0x80 + ch / 0x40 % 0x40, 0x80 + ch % 0x40) == ch
  {
    var x, y, z := ch / 0x1000, ch / 0x40 % 0x40, ch % 0x40;
    assert ch / 0x40 == x * 0x40 + y;
    assert (0x80 + z) % 0x40 == z && (0x80 + y) % 0x40 == y && (0xE0 + x) % 0x10 == x;
    if ch < 0x800 {
      assert (0xC0 + ch / 0x40) % 0x20 == ch / 0x40;
    }
  }

  lemma UnitRoundTrip(ch: uint16, tail: seq<uint8>)
    ensures var b := UnitBytes(ch) + tail;
            Advance(b[0]) == |UnitBytes(ch)| && UnitAt(b) == ch && b[|UnitBytes(ch)|..] == tail
  {
    JoinSplit(ch);
  }

  lemma {:induction false} DecodeUtf8(units: seq<uint16>, tail: seq<uint8>)
    ensures Decode(Utf8(units) + tail, |units|) == Some(units)
  {
    if units != [] {
      var rest := Utf8(units[1..]) + tail;
      assert Utf8(units) + tail == UnitBytes(units[0]) + rest;
      UnitRoundTrip(units[0], rest);
      DecodeUtf8(units[1..], tail);
      assert [units[0]] + units[1..] == units;
    }
  }

  lemma {:induction false} UnitsUtf8(units: seq<uint16>)
    ensures Units(Utf8(units)) == units
  {
    if units != [] {
      UnitRoundTrip(units[0], Utf8(units[1..]));
      UnitsUtf8(units[1..]);
    }
  }

  lemma {:induction false} Utf8Concat(a: seq<uint16>, b: seq<uint16>)
    ensures Utf8(a + b) == Utf8(a) + Utf8(b)
  {
    if a == [] {
      assert a + b == b;
    } else {
      assert (a + b)[1..] == a[1..] + b;
      Utf8Concat(a[1..], b);
      Assoc(UnitBytes(a[0]), Utf8(a[1..]), Utf8(b));
    }
  }

  lemma {:induction false} Utf8NoZero(units: seq<uint16>)
    ensures NoZero(Utf8(units)) <==> NoZero(units)
  {
    if units != [] {
      Utf8NoZero(units[1..]);
      assert units == [units[0]] + units[1..];
      assert 0 in UnitBytes(units[0]) <==> units[0] == 0;
    }
  }

  // ---- Counting the characters of a C string ----

  /** How many characters `set` counts in the C string `s`, and how many bytes of an
      incomplete last character it drops. */
  function Scan(s: seq<uint8>): (nat, nat) {
    if s == [] then (0, 0)
    else if TwoByteLead(s[0]) then
      if |s| < 2 then (0, 1) else OneMore(Scan(s[2..]))
    else if ThreeByteLead(s[0]) then
      if |s| < 2 then (0, 1) else if |s| < 3 then (0, 2) else OneMore(Scan(s[3..]))
    else OneMore(Scan(s[1..]))
  }

  function OneMore(scan: (nat, nat)): (nat, nat) { (scan.0 + 1, scan.1) }

  lemma {:induction false} ScanBounds(s: seq<uint8>)
    ensures Scan(s).0 + Scan(s).1 <= |s| && Scan(s).1 <= 2
  {
    if s != [] && TwoByteLead(s[0]) && |s| >= 2 {
      ScanBounds(s[2..]);
    } else if s != [] && ThreeByteLead(s[0]) && |s| >= 3 {
      ScanBounds(s[3..]);
    } else if s != [] && !TwoByteLead(s[0]) && !ThreeByteLead(s[0]) {
      ScanBounds(s[1..]);
    }
  }

  /** The start of a character whose last byte is missing. */
  predicate Incomplete(s: seq<uint8>) {
    || s == []
    || (|s| == 1 && (TwoByteLead(s[0]) || ThreeByteLead(s[0])))
    || (|s| == 2 && ThreeByteLead(s[0]))
  }

  lemma ScanOne(ch: uint16, rest: seq<uint8>)
    ensures Scan(UnitBytes(ch) + rest) == OneMore(Scan(rest))
  {
    var s, w := UnitBytes(ch) + rest, |UnitBytes(ch)|;
    assert s[w..] == rest;
    assert s[0] == UnitBytes(ch)[0];
    assert w == 1 ==> !TwoByteLead(s[0]) && !ThreeByteLead(s[0]);
    assert w == 2 ==> TwoByteLead(s[0]);
    assert w == 3 ==> !TwoByteLead(s[0]) && ThreeByteLead(s[0]);
  }

  /** `set` keeps exactly the complete characters and drops an incomplete last one. */
  lemma {:induction false} ScanKeepsCompleteCharacters(units: seq<uint16>, partial: seq<uint8>)
    requires Incomplete(partial)
    ensures Scan(Utf8(units) + partial) == (|units|, |partial|)
  {
    var s := Utf8(units) + partial;
    if units == [] {
      assert s == partial;
    } else {
      assert s == UnitBytes(units[0]) + (Utf8(units[1..]) + partial);
      ScanOne(units[0], Utf8(units[1..]) + partial);
      ScanKeepsCompleteCharacters(units[1..], partial);
    }
  }

  // ---- Strings in a dataset ----

  /** A string as it is sent: a count that includes the terminator and wraps in its byte,
      the units, and a terminator unless the string is empty. Section 3.2.3 of the MTP 1.1
      specification. */
  function Sent(units: seq<uint16>): seq<Field> {
    var n := |units|;
    if n == 0 then [U8(0)] else [U8((n + 1) % 0x100)] + U16s(units) + [U16(0)]
  }

  lemma SentAssembled(before: seq<Field>, units: seq<uint16>)
    ensures before + Sent(units) ==
            before + [U8(if |units| > 0 then (|units| + 1) % 0x100 else 0)] + U16s(units) +
            (if |units| > 0 then [U16(0)] else [])
  {
  }

  /** What can follow a count byte. */
  type Raw = s: seq<uint16> | |s| <= 255

  /** A string as it is received: a count and that many units, whatever they are. */
  function Received(raw: Raw): seq<Field> {
    [U8(|raw|)] + U16s(raw)
  }

  function Terminated(units: seq<uint16>): seq<uint16> {
    if units == [] then [] else units + [0]
  }

  /** A string of at most 254 units is sent as a string that can be received. */
  lemma SentIsReceived(units: seq<uint16>)
    requires |units| <= 254
    ensures Sent(units) == Received(Terminated(units))
  {
    assert U16s(units + [0]) == U16s(units) + [U16(0)];
  }

  /** The units in front of the first zero. */
  function UpToZero(units: seq<uint16>): seq<uint16> {
    if units == [] || units[0] == 0 then [] else [units[0]] + UpToZero(units[1..])
  }

  /** The bytes in front of the first zero: a buffer seen as a C string. */
  function CText(bytes: seq<uint8>): seq<uint8> {
    if bytes == [] || bytes[0] == 0 then [] else [bytes[0]] + CText(bytes[1..])
  }

  lemma {:induction false} UpToZeroTerminated(units: seq<uint16>, tail: seq<uint16>)
    requires NoZero(units)
    ensures UpToZero(units + [0] + tail) == units
  {
    if units != [] {
      assert (units + [0] + tail)[1..] == units[1..] + [0] + tail;
      UpToZeroTerminated(units[1..], tail);
    }
  }

  /** The C string of received units is the UTF-8 form of those in front of the first zero. */
  lemma {:induction false} CTextOfUnits(raw: seq<uint16>, tail: seq<uint8>)
    ensures CText(Utf8(raw) + [0] + tail) == Utf8(UpToZero(raw))
  {
    if raw == [] {
      assert Utf8(raw) + [0] + tail == [0] + tail;
    } else {
      var rest := Utf8(raw[1..]) + [0] + tail;
      var w := UnitBytes(raw[0]);
      assert Utf8(raw) + [0] + tail == w + rest;
      CTextOfUnits(raw[1..], tail);
      if raw[0] != 0 {
        CTextSkips(w, rest);
        assert UpToZero(raw)[1..] == UpToZero(raw[1..]);
      }
    }
  }

  lemma {:induction false} CTextSkips(w: seq<uint8>, rest: seq<uint8>)
    requires NoZero(w)
    ensures CText(w + rest) == w + CText(rest)
  {
    if w == [] {
      assert w + rest == rest;
    } else {
      assert (w + rest)[1..] == w[1..] + rest;
      CTextSkips(w[1..], rest);
    }
  }

  lemma {:induction false} UpToZeroIdempotent(raw: seq<uint16>)
    ensures NoZero(UpToZero(raw)) && |UpToZero(raw)| <= |raw|
    ensures NoZero(raw) ==> UpToZero(raw) == raw
  {
    if raw != [] && raw[0] != 0 {
      UpToZeroIdempotent(raw[1..]);
      assert raw == [raw[0]] + raw[1..];
    }
  }

  /** Sending and receiving a string agree, on where it ends and on its characters, exactly
      when it has at most 254 of them; beyond that the count byte wraps. */
  lemma StringRoundTripExactly(units: seq<uint16>)
    requires NoZero(units)
    ensures |units| <= 254 <==>
            exists raw: Raw :: Sent(units) == Received(raw) && UpToZero(raw) == units
  {
    if |units| <= 254 {
      SentIsReceived(units);
      UpToZeroTerminated(units, []);
      assert units + [0] + [] == units + [0];
      var raw: Raw := Terminated(units);
      assert Sent(units) == Received(raw) && UpToZero(raw) == units;
    } else {
      forall raw: Raw
        ensures Sent(units) != Received(raw)
      {
        assert |Sent(units)| == |units| + 2 && |Received(raw)| == |raw| + 1;
      }
    }
  }

  // ---- Names ----

  /** A C string in well-formed one- to three-byte UTF-8 of at most 255 characters. */
  ghost predicate IsName(s: seq<uint8>) {
    NoZero(s) && forall u {:trigger Utf8(u)} :: u == Units(s) ==> |u| <= 255 && Utf8(u) == s
  }

  /** 255 units: the count byte wraps to 0, and the reader takes the string to be empty. */
  lemma LongStringFails(units: seq<uint16>)
    requires |units| == 255
    ensures Sent(units)[0] == U8(0) && Received([])[0] == U8(0) && !exists raw: Raw :: Sent(units) == Received(raw)
  {
    forall raw: Raw
      ensures Sent(units) != Received(raw)
    {
      assert |Sent(units)| == 257;
    }
  }

  lemma NameUnits(s: Name)
    ensures |Units(s)| <= 255 && Utf8(Units(s)) == s
  {
    assert Utf8(Units(s)) == Utf8(Units(s));
  }

  type Name = s: seq<uint8> | IsName(s) witness []

  lemma NameOfUnits(units: seq<uint16>)
    requires NoZero(units) && |units| <= 255
    ensures IsName(Utf8(units)) && Units(Utf8(units)) == units
  {
    UnitsUtf8(units);
    Utf8NoZero(units);
  }

  // ---- The string buffer ----

  /** The bytes of a C string that the buffer keeps. */
  function Kept(s: seq<uint8>): seq<uint8> {
    ScanBounds(s);
    s[..Max(0, Min(|s|, STRING_BUFFER_SIZE - 1) - Scan(s).1)]
  }

  class MtpStringBuffer {
    const buffer: array<uint8>
    var charCount: nat
    var byteCount: nat

    ghost predicate Valid()
      reads this, buffer
    {
      buffer.Length == STRING_BUFFER_SIZE && 1 <= byteCount <= buffer.Length && buffer[byteCount - 1] == 0
    }

    /** The C string in the buffer. */
    function Text(): seq<uint8>
      reads this, buffer
    {
      CText(buffer[..])
    }

    constructor ()
      ensures Valid() && fresh(buffer) && charCount == 0 && byteCount == 1
    {
      buffer := new uint8[STRING_BUFFER_SIZE];
      charCount, byteCount := 0, 1;
      new;
      buffer[0] := 0;
    }

    /** Takes over a C string, cut to the buffer; counts its characters over its whole
        length and drops an incomplete last one. */
    method SetUtf8(src: seq<uint8>)
      requires NoZero(src) && Valid()
      modifies this, buffer
      ensures Valid()
      ensures charCount == Scan(src).0
      ensures byteCount - 1 == Min(|src|, STRING_BUFFER_SIZE - 1) - Scan(src).1
      ensures buffer[..byteCount - 1] == src[..byteCount - 1] == Kept(src)
    {
      ScanBounds(src);
      var length: int := |src|;
      if length >= buffer.Length {
        length := buffer.Length - 1;
      }
      forall k | 0 <= k < length {
        buffer[k] := src[k];
      }
      assert buffer[..length] == src[..length];
      var count, dropped := CountCharacters(src);
      length := length - dropped;
      byteCount := length + 1;
      buffer[length] := 0;
      charCount := count;
    }

    /** Counts the characters of a C string; an incomplete last one is to be dropped. */
    method CountCharacters(src: seq<uint8>) returns (count: nat, dropped: nat)
      ensures (count, dropped) == Scan(src)
    {
      count, dropped := 0, 0;
      var i := 0;
      while i < |src|
        invariant 0 <= i <= |src| && dropped == 0
        invariant Scan(src) == (count + Scan(src[i..]).0, Scan(src[i..]).1)
      {
        var ch := src[i];
        ghost var rest := src[i..];
        i := i + 1;
        if ch < 0x80 {
        } else if TwoByteLead(ch) {
          if i == |src| {
            dropped := 1;
            break;
          }
          i := i + 1;
          assert rest[2..] == src[i..];
        } else if ThreeByteLead(ch) {
          if i == |src| {
            dropped := 1;
            break;
          }
          i := i + 1;
          if i == |src| {
            dropped := 2;
            break;
          }
          i := i + 1;
          assert rest[3..] == src[i..];
        }
        count := count + 1;
      }
    }

    /** Takes over at most 255 of the 16-bit units of a zero-terminated string. */
    method SetUnits(src: seq<uint16>)
      requires NoZero(src) && Valid()
      modifies this, buffer
      ensures Valid() && charCount == Min(|src|, 255) && byteCount <= 766
      ensures buffer[..byteCount] == Utf8(src[..charCount]) + [0]
    {
      var count, dest := 0, 0;
      while count < |src| && count < 255
        invariant 0 <= count <= Min(|src|, 255)
        invariant dest == |Utf8(src[..count])| && buffer[..dest] == Utf8(src[..count])
      {
        var ch := src[count];
        dest := PutUnit(dest, ch);
        Utf8Snoc(src, count);
        count := count + 1;
      }
      buffer[dest] := 0;
      charCount, byteCount := count, dest + 1;
    }

    /** Writes one unit in UTF-8 form at `dest` and returns where the next one goes. */
    method PutUnit(dest: nat, ch: uint16) returns (next: nat)
      requires dest + 3 < buffer.Length
      modifies buffer
      ensures next == dest + |UnitBytes(ch)|
      ensures buffer[..next] == old(buffer[..dest]) + UnitBytes(ch)
    {
      next := dest;
      if ch >= 0x800 {
        buffer[next] := 0xE0 + ch / 0x1000;
        buffer[next + 1] := 0x80 + ch / 0x40 % 0x40;
        buffer[next + 2] := 0x80 + ch % 0x40;
        next := next + 3;
      } else if ch >= 0x80 {
        buffer[next] := 0xC0 + ch / 0x40;
        buffer[next + 1] := 0x80 + ch % 0x40;
        next := next + 2;
      } else {
        buffer[next] := ch;
        next := next + 1;
      }
    }

    /** Reads a string of any 255 units at most, which always fits the buffer. */
    method ReadFromPacket(packet: MtpPacket, ghost raw: Raw, ghost rest: seq<Field>)
      requires Valid() && packet.Valid() && packet.buffer != buffer
      requires packet.ahead == Received(raw) + rest
      modifies this, buffer, packet`offset, packet`fields, packet`ahead
      ensures Valid() && packet.Valid() && packet.ahead == rest && packet.End() == old(packet.End())
      ensures charCount == |raw| && buffer[..byteCount] == Utf8(raw) + [0] && byteCount <= 766
      ensures Text() == Utf8(UpToZero(raw))
    {
      var count := packet.GetUInt8();
      var dest := ReadUnits(packet, count, raw, rest);
      buffer[dest] := 0;
      charCount, byteCount := count, dest + 1;
      EndedAt(buffer[..], Utf8(raw), dest);
      CTextOfUnits(raw, buffer[..][byteCount..]);
    }

    /** Reads the units themselves and returns how many bytes they take. */
    method ReadUnits(packet: MtpPacket, count: uint8, ghost raw: Raw, ghost rest: seq<Field>) returns (dest: nat)
      requires Valid() && packet.Valid() && packet.buffer != buffer
      requires count == |raw| && packet.ahead == U16s(raw) + rest
      modifies buffer, packet`offset, packet`fields, packet`ahead
      ensures packet.Valid() && packet.ahead == rest && packet.End() == old(packet.End())
      ensures dest == |Utf8(raw)| < buffer.Length && buffer[..dest] == Utf8(raw)
    {
      dest := 0;
      assert raw[0..] == raw;
      for i := 0 to count
        invariant packet.Valid() && packet.ahead == U16s(raw[i..]) + rest && packet.End() == old(packet.End())
        invariant dest == |Utf8(raw[..i])| && buffer[..dest] == Utf8(raw[..i])
      {
        U16sHead(raw, i, rest);
        var ch := packet.GetUInt16();
        dest := PutUnit(dest, ch);
        Utf8Snoc(raw, i);
      }
      assert raw[..count] == raw;
    }

    /** Expands the character at `src` into a unit of the packet and returns where the next
        one starts. */
    method WriteUnit(packet: MtpPacket, src: nat) returns (next: nat)
      requires packet.Valid() && packet.buffer != buffer
      requires src < buffer.Length && src + Advance(buffer[src]) <= buffer.Length
      modifies packet, packet.buffer
      ensures packet.Valid() && packet.ahead == [] && packet.Wrote([U16(UnitAt(buffer[src..]))])
      ensures next == src + Advance(buffer[src])
    {
      next := src;
      var ch: uint16;
      var ch1 := buffer[next];
      next := next + 1;
      if ch1 < 0x80 {
        ch := ch1;
      } else if TwoByteLead(ch1) {
        ch := Join2(ch1, buffer[next]);
        next := next + 1;
      } else {
        ch := Join3(ch1, buffer[next], buffer[next + 1]);
        next := next + 2;
      }
      assert ch == UnitAt(buffer[src..]);
      packet.PutUInt16(ch);
    }

    /** Expands `count` characters. */
    method WriteUnits(packet: MtpPacket, count: nat, ghost units: seq<uint16>)
      requires packet.Valid() && packet.buffer != buffer
      requires packet.ahead == [] && packet.offset <= packet.packetSize
      requires |units| == count && Decode(buffer[..], count) == Some(units)
      modifies packet, packet.buffer
      ensures packet.Valid() && packet.ahead == [] && packet.Wrote(U16s(units))
    {
      ghost var b, before := buffer[..], packet.fields;
      var src := 0;
      assert b[0..] == b && units[0..] == units;
      for i := 0 to count
        invariant packet.buffer != buffer && buffer[..] == b && StillDecodes(b, src, units, i)
        invariant packet.Valid() && packet.Advanced() && packet.ahead == []
        invariant packet.fields == before + U16s(units[..i])
      {
        src := WriteNext(packet, src, units, i, before);
      }
      assert units[..count] == units;
    }

    method WriteNext(packet: MtpPacket, src: nat, ghost units: seq<uint16>, ghost i: nat, ghost before: seq<Field>)
      returns (next: nat)
      requires packet.Valid() && packet.buffer != buffer && i < |units| && StillDecodes(buffer[..], src, units, i)
      requires packet.fields == before + U16s(units[..i])
      modifies packet, packet.buffer
      ensures packet.Valid() && packet.Advanced() && packet.ahead == []
      ensures packet.fields == before + U16s(units[..i + 1]) && StillDecodes(buffer[..], next, units, i + 1)
    {
      DecodeNext(buffer[..], src, units, i);
      next := WriteUnit(packet, src);
      U16sSnoc(units, i);
      Assoc(before, U16s(units[..i]), [U16(units[i])]);
    }

    /** Expands the characters back to 16-bit units; the count byte wraps past 254. */
    method WriteToPacket(packet: MtpPacket)
      requires Valid() && packet.Valid() && packet.buffer != buffer
      requires Decode(buffer[..], charCount).Some?
      modifies packet, packet.buffer
      ensures packet.Valid() && packet.ahead == []
      ensures packet.Wrote(Sent(Decode(buffer[..], charCount).value))
    {
      var count := charCount;
      ghost var units := Decode(buffer[..], count).value;
      DecodeLength(buffer[..], count);
      packet.PutUInt8(if count > 0 then (count + 1) % 0x100 else 0);
      WriteUnits(packet, count, units);
      if count > 0 {
        packet.PutUInt16(0);
      }
      SentAssembled(old(packet.fields), units);
    }
  }

  lemma Utf8Snoc(units: seq<uint16>, i: nat)
    requires i < |units|
    ensures Utf8(units[..i + 1]) == Utf8(units[..i]) + UnitBytes(units[i])
  {
    Utf8Concat(units[..i], [units[i]]);
    assert units[..i + 1] == units[..i] + [units[i]] && Utf8([units[i]]) == UnitBytes(units[i]);
  }

  lemma EndedAt(b: seq<uint8>, text: seq<uint8>, n: nat)
    requires n < |b| && b[..n] == text && b[n] == 0
    ensures b[..n + 1] == text + [0] && b == text + [0] + b[n + 1..]
  {
  }

  /** From `src` on, `b` holds the characters that are left after the first `i`. */
  ghost predicate StillDecodes(b: seq<uint8>, src: nat, units: seq<uint16>, i: nat) {
    src <= |b| && i <= |units| && Decode(b[src..], |units| - i) == Some(units[i..])
  }

  lemma DecodeNext(b: seq<uint8>, src: nat, units: seq<uint16>, i: nat)
    requires StillDecodes(b, src, units, i) && i < |units|
    ensures src < |b| && src + Advance(b[src]) <= |b| && units[i] == UnitAt(b[src..])
    ensures StillDecodes(b, src + Advance(b[src]), units, i + 1)
  {
    assert b[src..][Advance(b[src])..] == b[src + Advance(b[src])..];
    assert units[i..][1..] == units[i + 1..];
  }

  lemma {:induction false} DecodeLength(b: seq<uint8>, count: nat)
    requires Decode(b, count).Some?
    ensures |Decode(b, count).value| == count
  {
    if count > 0 {
      DecodeLength(b[Advance(b[0])..], count - 1);
    }
  }

  // ---- Putting and getting strings ----

  /** The characters that are counted in the whole of `s`, if they all lie in what is kept of it. */
  function Counted(s: seq<uint8>): Option<seq<uint16>> { Decode(Kept(s), Scan(s).0) }

  /** A C string that ends in an incomplete character counts as its complete characters, as long as
      it fits the buffer. */
  lemma CompleteCharactersCount(units: seq<uint16>, partial: seq<uint8>)
    requires Incomplete(partial) && |Utf8(units)| + |partial| < STRING_BUFFER_SIZE
    ensures Counted(Utf8(units) + partial) == Some(units)
  {
    var s := Utf8(units) + partial;
    ScanKeepsCompleteCharacters(units, partial);
    assert Kept(s) == Utf8(units) + [];
    DecodeUtf8(units, []);
  }

  /** A text that is cut short does not decode. */
  lemma {:induction false} DecodeCut(units: seq<uint16>, k: nat)
    requires k < |Utf8(units)|
    ensures Decode(Utf8(units)[..k], |units|) == None
  {
    var s, w := Utf8(units), |UnitBytes(units[0])|;
    UnitRoundTrip(units[0], Utf8(units[1..]));
    if w <= k {
      DecodeCut(units[1..], k - w);
      assert s[..k][w..] == Utf8(units[1..])[..k - w];
    }
  }

  /** A well-formed text counts as its characters exactly if it fits the buffer. */
  lemma WellFormedCountsExactly(units: seq<uint16>)
    ensures Counted(Utf8(units)) == if |Utf8(units)| < STRING_BUFFER_SIZE then Some(units) else None
  {
    var s := Utf8(units);
    assert s + [] == s;
    if |s| < STRING_BUFFER_SIZE {
      CompleteCharactersCount(units, []);
    } else {
      ScanKeepsCompleteCharacters(units, []);
      DecodeCut(units, STRING_BUFFER_SIZE - 1);
    }
  }

  lemma {:induction false} DecodeFront(b: seq<uint8>, tail: seq<uint8>, count: nat)
    requires Decode(b, count).Some?
    ensures Decode(b + tail, count) == Decode(b, count)
    decreases count
  {
    if count > 0 {
      var w := Advance(b[0]);
      assert (b + tail)[w..] == b[w..] + tail;
      DecodeFront(b[w..], tail, count - 1);
      if b[0] >= 0x80 {
        assert (b + tail)[1] == b[1];
      }
    }
  }

  lemma SplitAt(b: seq<uint8>, front: seq<uint8>, n: nat)
    requires n <= |b| && b[..n] == front
    ensures b == front + b[n..]
  {
  }

  /** `putString(const char*)`: the counted characters. */
  method PutCString(packet: MtpPacket, s: seq<uint8>)
    requires packet.Valid() && NoZero(s) && Counted(s).Some?
    modifies packet, packet.buffer
    ensures packet.Valid() && packet.ahead == [] && packet.Wrote(Sent(Counted(s).value))
  {
    var text := new MtpStringBuffer();
    text.SetUtf8(s);
    SplitAt(text.buffer[..], Kept(s), text.byteCount - 1);
    DecodeFront(Kept(s), text.buffer[..][text.byteCount - 1..], Scan(s).0);
    text.WriteToPacket(packet);
  }

  /** A name is put as its characters. */
  method PutString(packet: MtpPacket, s: Name)
    requires packet.Valid()
    modifies packet, packet.buffer
    ensures packet.Valid() && packet.ahead == [] && packet.Wrote(Sent(Units(s)))
  {
    NameCounts(s);
    PutCString(packet, s);
  }

  lemma NameCounts(s: Name)
    ensures Counted(s) == Some(Units(s))
  {
    NameUnits(s);
    assert s + [] == s;
    CompleteCharactersCount(Units(s), []);
  }

  method PutUnits(packet: MtpPacket, units: seq<uint16>)
    requires packet.Valid() && packet.ahead == [] && packet.offset <= packet.packetSize
    modifies packet, packet.buffer
    ensures packet.Valid() && packet.ahead == [] && packet.Wrote(U16s(units))
  {
    ghost var before := packet.fields;
    for i := 0 to |units|
      invariant packet.Valid() && packet.ahead == [] && packet.Advanced()
      invariant packet.fields == before + U16s(units[..i])
    {
      packet.PutUInt16(units[i]);
      U16sSnoc(units, i);
      Assoc(before, U16s(units[..i]), [U16(units[i])]);
    }
    assert units[..|units|] == units;
  }

  method CountUnits(text: seq<uint16>) returns (count: nat)
    ensures count == Min(|text|, 256)
  {
    count := 0;
    while count < 256 && count < |text|
      invariant 0 <= count <= Min(|text|, 256)
    {
      count := count + 1;
    }
  }

  /** `putString(const uint16_t*)`: at most 256 units of a zero-terminated string. */
  method PutString16(packet: MtpPacket, text: seq<uint16>)
    requires packet.Valid() && NoZero(text)
    modifies packet, packet.buffer
    ensures packet.Valid() && packet.ahead == [] && packet.Wrote(Sent(text[..Min(|text|, 256)]))
  {
    var count := CountUnits(text);
    packet.Put(U8(if count > 0 then (count + 1) % 0x100 else 0));
    PutUnits(packet, text[..count]);
    if count > 0 {
      packet.Put(U16(0));
    }
    SentAssembled(old(packet.fields), text[..count]);
  }

  /** `putString(const MtpStringBuffer&)` of a buffer that took over 16-bit units. */
  method PutBuffered(packet: MtpPacket, text: seq<uint16>)
    requires packet.Valid() && NoZero(text)
    modifies packet, packet.buffer
    ensures packet.Valid() && packet.ahead == [] && packet.Wrote(Sent(text[..Min(|text|, 255)]))
  {
    var buffered := new MtpStringBuffer();
    buffered.SetUnits(text);
    ghost var units := text[..buffered.charCount];
    ghost var tail := buffered.buffer[buffered.byteCount..];
    Assoc(Utf8(units), [0], tail);
    DecodeUtf8(units, [0] + tail);
    assert buffered.buffer[..] == Utf8(units) + [0] + tail;
    buffered.WriteToPacket(packet);
  }

  /** The two ways to put 16-bit units put the same bytes exactly for strings that fit the
      buffer. */
  lemma PutsAgreeExactly(text: seq<uint16>)
    ensures Encode(Sent(text[..Min(|text|, 255)])) == Encode(Sent(text[..Min(|text|, 256)])) <==> |text| <= 255
  {
    if |text| > 255 {
      EncodedLength(text[..255]);
      EncodedLength(text[..256]);
    }
  }

  lemma EncodedLength(units: seq<uint16>)
    ensures |Encode(Sent(units))| == if units == [] then 1 else 3 + 2 * |units|
  {
    var n := |units|;
    if n > 0 {
      EncodeConcat([U8((n + 1) % 0x100)], U16s(units) + [U16(0)]);
      EncodeConcat(U16s(units), [U16(0)]);
      EncodedUnits(units);
      assert Sent(units) == [U8((n + 1) % 0x100)] + (U16s(units) + [U16(0)]);
    }
  }

  lemma {:induction false} EncodedUnits(units: seq<uint16>)
    ensures |Encode(U16s(units))| == 2 * |units|
  {
    if units != [] {
      EncodedUnits(units[1..]);
      assert U16s(units)[1..] == U16s(units[1..]);
    }
  }

  /** 16-bit units on their way: put into one packet, directly or from a string buffer, handed
      over, and got from another as a C string. Up to 254 units arrive as they were, and the
      cursor ends up behind them. */
  method UnitsTravel(near: MtpPacket, far: MtpPacket, text: seq<uint16>, direct: bool) returns (s: Name)
    requires near.Valid() && far.Valid() && near != far && near.buffer != far.buffer
    requires NoZero(text) && |text| <= 254
    modifies near, near.buffer, far, far.buffer
    ensures near.Valid() && far.Valid() && s == Utf8(text) && far.offset == far.packetSize
  {
    StartWith(near, text, direct);
    HandOver(near, far, TYPE_DATA, 0, 0);
    SentIsReceived(text);
    TextOfTerminated(text);
    assert Received(Terminated(text)) + [] == Received(Terminated(text));
    s := GetString(far, Terminated(text), []);
  }

  /** Puts the string as the only thing in a packet. */
  method StartWith(packet: MtpPacket, text: seq<uint16>, direct: bool)
    requires packet.Valid() && NoZero(text) && |text| <= 254
    modifies packet, packet.buffer
    ensures packet.Valid() && packet.fields == Sent(text) && packet.offset == packet.packetSize
    ensures packet.buffer == old(packet.buffer) || fresh(packet.buffer)
  {
    packet.Reset();
    assert text[..|text|] == text && [] + Sent(text) == Sent(text);
    if direct {
      PutString16(packet, text);
    } else {
      PutBuffered(packet, text);
    }
  }

  lemma TextOfTerminated(text: seq<uint16>)
    requires |text| <= 254
    ensures NoZero(text) ==> Text(Terminated(text)) == Utf8(text)
  {
    if NoZero(text) {
      UpToZeroTerminated(text, []);
      UpToZeroIdempotent(text);
      assert text + [0] + [] == text + [0];
    }
  }

  /** The C string that a reader makes of received units. */
  ghost function Text(raw: Raw): (s: Name)
    ensures s == Utf8(UpToZero(raw))
  {
    UpToZeroIdempotent(raw);
    NameOfUnits(UpToZero(raw));
    Utf8(UpToZero(raw))
  }

  /** `getString` followed by a copy of the C string. */
  method GetString(packet: MtpPacket, ghost raw: Raw, ghost rest: seq<Field>) returns (s: Name)
    requires packet.Valid() && packet.ahead == Received(raw) + rest
    modifies packet`offset, packet`fields, packet`ahead
    ensures packet.Valid() && packet.ahead == rest && s == Text(raw) && packet.End() == old(packet.End())
  {
    var text := new MtpStringBuffer();
    text.ReadFromPacket(packet, raw, rest);
    UpToZeroIdempotent(raw);
    NameOfUnits(UpToZero(raw));
    s := text.Text();
  }
}
