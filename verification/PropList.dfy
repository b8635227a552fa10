/** The property-list dataset: a count of quadruples, and the quadruples: handle, property
    code, data type and value. */
module PropList {
  import opened MtpTypes
  import opened Wire
  import opened Packets
  import opened Strings
  import opened Tables
  import opened Database
  import Intake

  const PROPERTY_STORAGE_ID: uint16 := 0xDC01
  const PROPERTY_OBJECT_FORMAT: uint16 := 0xDC02
  const PROPERTY_PROTECTION_STATUS: uint16 := 0xDC03
  const PROPERTY_OBJECT_SIZE: uint16 := 0xDC04
  const PROPERTY_ASSOCIATION_TYPE: uint16 := 0xDC05
  const PROPERTY_ASSOCIATION_DESC: uint16 := 0xDC06
  const PROPERTY_OBJECT_FILE_NAME: uint16 := 0xDC07
  const PROPERTY_DATE_CREATED: uint16 := 0xDC08
  const PROPERTY_DATE_MODIFIED: uint16 := 0xDC09
  const PROPERTY_PARENT_OBJECT: uint16 := 0xDC0B
  const PROPERTY_HIDDEN: uint16 := 0xDC0D
  const PROPERTY_PERSISTENT_UID: uint16 := 0xDC41
  const PROPERTY_NON_CONSUMABLE: uint16 := 0xDC4F
  const PROPERTY_DISPLAY_NAME: uint16 := 0xDCE0
  const ALL_PROPERTIES: uint32 := 0xFFFF_FFFF

  const KIND_UINT16: uint16 := 4
  const KIND_UINT32: uint16 := 6
  const KIND_UINT128: uint16 := 10
  const KIND_STR: uint16 := 0xFFFF

  const RESPONSE_PARAMETER_NOT_SUPPORTED: uint16 := 0x2006
  const RESPONSE_SPECIFICATION_BY_GROUP_UNSUPPORTED: uint16 := 0xA807
  const RESPONSE_SPECIFICATION_BY_DEPTH_UNSUPPORTED: uint16 := 0xA808

  /** The properties in the order in which they are tried. */
  function Order(): seq<uint16> {
    [PROPERTY_PERSISTENT_UID, PROPERTY_STORAGE_ID, PROPERTY_PARENT_OBJECT, PROPERTY_OBJECT_FORMAT,
     PROPERTY_OBJECT_SIZE, PROPERTY_OBJECT_FILE_NAME, PROPERTY_DISPLAY_NAME, PROPERTY_ASSOCIATION_TYPE,
     PROPERTY_ASSOCIATION_DESC, PROPERTY_PROTECTION_STATUS, PROPERTY_DATE_CREATED, PROPERTY_DATE_MODIFIED,
     PROPERTY_HIDDEN, PROPERTY_NON_CONSUMABLE]
  }

  predicate Supported(property: uint32) { property < 0x1_0000 && property in Order() }

  /** The data type that is sent for a property. */
  function Kind(property: uint16): uint16 {
    if property == PROPERTY_PERSISTENT_UID then KIND_UINT128
    else if property == PROPERTY_STORAGE_ID || property == PROPERTY_PARENT_OBJECT
         || property == PROPERTY_OBJECT_SIZE || property == PROPERTY_ASSOCIATION_DESC then KIND_UINT32
    else if property == PROPERTY_OBJECT_FILE_NAME || property == PROPERTY_DISPLAY_NAME
         || property == PROPERTY_DATE_CREATED || property == PROPERTY_DATE_MODIFIED then KIND_STR
    else KIND_UINT16
  }

  /** The code that is sent for a property: that of the creation date also for the other date. */
  function Code(property: uint16): uint16 {
    if property == PROPERTY_DATE_MODIFIED then PROPERTY_DATE_CREATED else property
  }

  /** The text of a property that is a string; `epoch` is the date of all creations. */
  function TextOf(e: DbEntry, epoch: Name, property: uint16): Name {
    if property == PROPERTY_DATE_CREATED then epoch
    else if property == PROPERTY_DATE_MODIFIED then e.modified
    else e.name
  }

  /** The value of a property that is a number. */
  function NumberOf(e: DbEntry, property: uint16): (f: Field)
    ensures f.Width() == if Kind(property) == KIND_UINT32 then 4 else 2
  {
    if property == PROPERTY_STORAGE_ID then U32(e.storage)
    else if property == PROPERTY_PARENT_OBJECT then U32(e.parent)
    else if property == PROPERTY_OBJECT_FORMAT then U16(e.format)
    else if property == PROPERTY_OBJECT_SIZE then U32(e.size % 0x1_0000_0000)
    else if property == PROPERTY_ASSOCIATION_TYPE then U16(if e.format == FORMAT_ASSOCIATION then 1 else 0)
    else if property == PROPERTY_ASSOCIATION_DESC then U32(0)
    else if property == PROPERTY_NON_CONSUMABLE then U16(if e.format == FORMAT_ASSOCIATION then 0 else 1)
    else U16(0)
  }

  function ValueOf(h: uint32, e: DbEntry, epoch: Name, property: uint16): seq<Field> {
    if Kind(property) == KIND_UINT128 then [U64(h), U64(0)]
    else if Kind(property) == KIND_STR then Sent(Units(TextOf(e, epoch, property)))
    else [NumberOf(e, property)]
  }

  function QuadFields(h: uint32, e: DbEntry, epoch: Name, property: uint16): seq<Field> {
    [U32(h), U16(Code(property)), U16(Kind(property))] + ValueOf(h, e, epoch, property)
  }

  // ---- Which quadruples are sent ----

  /** A quadruple to send: of one property of one handle. */
  datatype Item = Item(handle: uint32, property: uint16)

  /** The items of one handle: one property, all of them, or none. */
  function ItemsOf(h: uint32, property: uint32): seq<Item> {
    if property == ALL_PROPERTIES then seq(|Order()|, i requires 0 <= i < |Order()| => Item(h, Order()[i]))
    else if Supported(property) then [Item(h, property)]
    else []
  }

  /** The non-consumable property leaves the loop over the handles. */
  predicate Breaks(property: uint32) { property == ALL_PROPERTIES || property == PROPERTY_NON_CONSUMABLE as uint32 }

  /** The items that are sent for the first `i` of the handles. */
  function Items(handles: seq<uint32>, property: uint32): seq<Item> {
    if handles == [] then []
    else if Breaks(property) then ItemsOf(handles[0], property)
    else Items(handles[..|handles| - 1], property) + ItemsOf(handles[|handles| - 1], property)
  }

  function Declared(handles: seq<uint32>, property: uint32): nat {
    if property == ALL_PROPERTIES then 6 * |handles| else |handles|
  }

  lemma {:induction false} ItemCount(handles: seq<uint32>, property: uint32)
    ensures |Items(handles, property)| ==
            if handles == [] then 0
            else if property == ALL_PROPERTIES then 14
            else if !Supported(property) then 0
            else if Breaks(property) then 1
            else |handles|
  {
    if handles != [] && !Breaks(property) {
      ItemCount(handles[..|handles| - 1], property);
    }
  }

  /** As many quadruples are sent as are declared exactly when there are no handles, or the
      property is a single supported one, other than the one that leaves the loop, which
      must then be asked of one handle only. */
  lemma DeclaredExactly(handles: seq<uint32>, property: uint32)
    ensures |Items(handles, property)| == Declared(handles, property) <==>
            handles == [] || (Supported(property) && (property != PROPERTY_NON_CONSUMABLE as uint32 || |handles| == 1))
  {
    ItemCount(handles, property);
  }

  /** All properties of one handle: 6 are declared and 14 sent; the non-consumable property of
      two handles: 2 declared and 1 sent; a property that is not supported: 1 and none. */
  lemma DeclaredFails(other: uint32)
    requires other != ALL_PROPERTIES && !Supported(other)
    ensures Declared([1], ALL_PROPERTIES) == 6 && |Items([1], ALL_PROPERTIES)| == 14
    ensures Declared([1, 2], PROPERTY_NON_CONSUMABLE as uint32) == 2
    ensures |Items([1, 2], PROPERTY_NON_CONSUMABLE as uint32)| == 1
    ensures Declared([1], other) == 1 && Items([1], other) == []
  {
    ItemCount([1], ALL_PROPERTIES);
    ItemCount([1, 2], PROPERTY_NON_CONSUMABLE as uint32);
    ItemCount([1], other);
  }

  ghost predicate HandlesIn(t: Table, handles: seq<uint32>) {
    forall h :: h in handles ==> h in t
  }

  ghost predicate ItemsIn(t: Table, items: seq<Item>) {
    forall i :: 0 <= i < |items| ==> items[i].handle in t
  }

  function ItemsFields(t: Table, items: seq<Item>, epoch: Name): seq<Field> {
    if items == [] then []
    else
      var last := items[|items| - 1];
      ItemsFields(t, items[..|items| - 1], epoch) +
      if last.handle in t then QuadFields(last.handle, t[last.handle], epoch, last.property) else []
  }

  lemma {:induction false} ItemsConcat(t: Table, a: seq<Item>, b: seq<Item>, epoch: Name)
    ensures ItemsFields(t, a + b, epoch) == ItemsFields(t, a, epoch) + ItemsFields(t, b, epoch)
  {
    if b == [] {
      assert a + b == a;
    } else {
      var n := |b| - 1;
      assert (a + b)[..|a + b| - 1] == a + b[..n] && (a + b)[|a + b| - 1] == b[n];
      ItemsConcat(t, a, b[..n], epoch);
      Assoc(ItemsFields(t, a, epoch), ItemsFields(t, b[..n], epoch),
            if b[n].handle in t then QuadFields(b[n].handle, t[b[n].handle], epoch, b[n].property) else []);
    }
  }

  /** The whole dataset. */
  function PropListFields(t: Table, handles: seq<uint32>, property: uint32, epoch: Name): seq<Field> {
    [U32(Declared(handles, property) % 0x1_0000_0000)] + ItemsFields(t, Items(handles, property), epoch)
  }

  // ---- Writing ----

  method PutQuad(packet: MtpPacket, h: uint32, e: DbEntry, epoch: Name, property: uint16)
    requires packet.Valid() && packet.offset <= packet.packetSize
    modifies packet, packet.buffer
    ensures packet.Valid() && packet.ahead == [] && packet.Wrote(QuadFields(h, e, epoch, property))
  {
    packet.PutFields([U32(h), U16(Code(property)), U16(Kind(property))]);
    if Kind(property) == KIND_STR {
      PutString(packet, TextOf(e, epoch, property));
    } else if Kind(property) == KIND_UINT128 {
      packet.PutFields([U64(h), U64(0)]);
    } else {
      packet.PutFields([NumberOf(e, property)]);
    }
    Assoc(old(packet.fields), [U32(h), U16(Code(property)), U16(Kind(property))], ValueOf(h, e, epoch, property));
  }

  /** The quadruples of one handle; true when the loop over the handles is to be left. */
  method PutItems(packet: MtpPacket, t: Table, h: uint32, property: uint32, epoch: Name) returns (left: bool)
    requires packet.Valid() && packet.offset <= packet.packetSize && packet.ahead == [] && h in t
    modifies packet, packet.buffer
    ensures packet.Valid() && packet.ahead == [] && packet.Wrote(ItemsFields(t, ItemsOf(h, property), epoch))
    ensures left == Breaks(property)
  {
    left := false;
    for i := 0 to |Order()|
      invariant packet.Valid() && packet.ahead == [] && packet.Advanced()
      invariant packet.fields == old(packet.fields) + TriedFields(t, h, property, i, epoch)
      invariant left == (i == |Order()| && Breaks(property))
    {
      left := TryProperty(packet, t, h, property, i, epoch, old(packet.fields));
      LastBreaks(property, i);
    }
    TriedAll(t, h, property, epoch);
  }

  /** The quadruple of the `i`-th property, if it is asked for; true when it was the last one. */
  method TryProperty(packet: MtpPacket, t: Table, h: uint32, property: uint32, i: nat, epoch: Name,
                     ghost head: seq<Field>) returns (left: bool)
    requires packet.Valid() && packet.offset <= packet.packetSize && packet.ahead == [] && h in t && i < |Order()|
    requires packet.fields == head + TriedFields(t, h, property, i, epoch)
    modifies packet, packet.buffer
    ensures packet.Valid() && packet.ahead == [] && packet.Advanced()
    ensures packet.fields == head + TriedFields(t, h, property, i + 1, epoch)
    ensures left == ((property == ALL_PROPERTIES || property == Order()[i] as uint32)
                     && Order()[i] == PROPERTY_NON_CONSUMABLE)
  {
    left := false;
    TriedMore(t, h, property, i, epoch, head);
    if property == ALL_PROPERTIES || property == Order()[i] as uint32 {
      PutQuad(packet, h, t[h], epoch, Order()[i]);
      left := Order()[i] == PROPERTY_NON_CONSUMABLE;
    }
  }

  lemma LastBreaks(property: uint32, i: nat)
    requires i < |Order()|
    ensures Order()[i] == PROPERTY_NON_CONSUMABLE <==> i + 1 == |Order()|
  {
  }

  lemma TriedMore(t: Table, h: uint32, property: uint32, i: nat, epoch: Name, head: seq<Field>)
    requires i < |Order()| && h in t
    ensures var so_far := head + TriedFields(t, h, property, i, epoch);
            head + TriedFields(t, h, property, i + 1, epoch) ==
            if property == ALL_PROPERTIES || property == Order()[i] as uint32 then
              so_far + QuadFields(h, t[h], epoch, Order()[i]) else so_far
  {
    var items := Tried(h, property, i);
    if property == ALL_PROPERTIES || property == Order()[i] as uint32 {
      var more := items + [Item(h, Order()[i])];
      assert more[..|more| - 1] == items;
      Assoc(head, ItemsFields(t, items, epoch), QuadFields(h, t[h], epoch, Order()[i]));
    } else {
      assert items + [] == items;
    }
  }

  /** The items of `h` among the first `i` properties. */
  function Tried(h: uint32, property: uint32, i: nat): seq<Item>
    requires i <= |Order()|
  {
    if i == 0 then []
    else Tried(h, property, i - 1) +
         if property == ALL_PROPERTIES || property == Order()[i - 1] as uint32 then [Item(h, Order()[i - 1])] else []
  }

  function TriedFields(t: Table, h: uint32, property: uint32, i: nat, epoch: Name): seq<Field>
    requires i <= |Order()|
  {
    ItemsFields(t, Tried(h, property, i), epoch)
  }

  lemma TriedAll(t: Table, h: uint32, property: uint32, epoch: Name)
    ensures TriedFields(t, h, property, |Order()|, epoch) == ItemsFields(t, ItemsOf(h, property), epoch)
  {
    TriedSome(h, property, |Order()|);
    assert Order()[..|Order()|] == Order();
    if property == ALL_PROPERTIES {
      assert ItemsOf(h, property)[..|Order()|] == ItemsOf(h, property);
    }
  }

  lemma {:induction false} TriedSome(h: uint32, property: uint32, i: nat)
    requires i <= |Order()|
    ensures Tried(h, property, i) ==
            if property == ALL_PROPERTIES then ItemsOf(h, property)[..i]
            else if property < 0x1_0000 && property in Order()[..i] then [Item(h, property)]
            else []
  {
    if i > 0 {
      TriedSome(h, property, i - 1);
      TakeMore(Order(), i - 1);
      assert property < 0x1_0000 && property in Order()[..i - 1] ==> property as uint16 != Order()[i - 1] by {
        Distinct(i - 1);
      }
    }
  }

  lemma Distinct(i: nat)
    requires i < |Order()|
    ensures Order()[i] !in Order()[..i]
  {
    assert forall j, k :: 0 <= j < k < 14 ==> Order()[j] != Order()[k];
  }

  method WritePropList(packet: MtpPacket, t: Table, handles: seq<uint32>, property: uint32, epoch: Name)
    requires packet.Valid() && HandlesIn(t, handles)
    modifies packet, packet.buffer
    ensures packet.Valid() && packet.ahead == [] && packet.Wrote(PropListFields(t, handles, property, epoch))
  {
    packet.PutUInt32((if property == ALL_PROPERTIES then 6 * |handles| else |handles|) % 0x1_0000_0000);
    ghost var head := packet.fields;
    var left := false;
    var i := 0;
    assert SoFar(t, handles, 0, property, epoch) == [];
    while i < |handles| && !left
      invariant 0 <= i <= |handles|
      invariant packet.Valid() && packet.ahead == [] && packet.Advanced()
      invariant left == (i > 0 && Breaks(property)) && (left ==> i == 1)
      invariant packet.fields == head + SoFar(t, handles, i, property, epoch)
    {
      left := PutHandle(packet, t, handles, i, property, epoch, head);
      i := i + 1;
    }
    SoFarAll(t, handles, i, property, epoch);
    Assoc(old(packet.fields), [U32(Declared(handles, property) % 0x1_0000_0000)],
          ItemsFields(t, Items(handles, property), epoch));
  }

  /** What has been sent after the first `i` handles. */
  function SoFar(t: Table, handles: seq<uint32>, i: nat, property: uint32, epoch: Name): seq<Field>
    requires i <= |handles|
  {
    ItemsFields(t, Items(handles[..i], property), epoch)
  }

  lemma SoFarAll(t: Table, handles: seq<uint32>, i: nat, property: uint32, epoch: Name)
    requires i == |handles| || (i == 1 <= |handles| && Breaks(property))
    ensures SoFar(t, handles, i, property, epoch) == ItemsFields(t, Items(handles, property), epoch)
  {
    assert handles[..|handles|] == handles;
  }

  method PutHandle(packet: MtpPacket, t: Table, handles: seq<uint32>, i: nat, property: uint32, epoch: Name,
                   ghost head: seq<Field>) returns (left: bool)
    requires packet.Valid() && packet.offset <= packet.packetSize && packet.ahead == []
    requires HandlesIn(t, handles) && i < |handles| && (i > 0 ==> !Breaks(property))
    requires packet.fields == head + SoFar(t, handles, i, property, epoch)
    modifies packet, packet.buffer
    ensures packet.Valid() && packet.ahead == [] && packet.Advanced() && left == Breaks(property)
    ensures packet.fields == head + SoFar(t, handles, i + 1, property, epoch)
  {
    left := PutItems(packet, t, handles[i], property, epoch);
    MoreItems(t, handles, i, property, epoch, head);
  }

  lemma MoreItems(t: Table, handles: seq<uint32>, i: nat, property: uint32, epoch: Name, head: seq<Field>)
    requires i < |handles| && (i > 0 ==> !Breaks(property))
    ensures head + SoFar(t, handles, i, property, epoch) + ItemsFields(t, ItemsOf(handles[i], property), epoch)
         == head + SoFar(t, handles, i + 1, property, epoch)
  {
    assert handles[..i + 1][..i] == handles[..i];
    ItemsConcat(t, Items(handles[..i], property), ItemsOf(handles[i], property), epoch);
    Assoc(head, ItemsFields(t, Items(handles[..i], property), epoch),
          ItemsFields(t, ItemsOf(handles[i], property), epoch));
    assert [] + ItemsOf(handles[i], property) == ItemsOf(handles[i], property);
  }

  // ---- Parsing by type codes ----

  /** A quadruple as a reader sees it, with the bytes of its value. */
  datatype Quad = Quad(handle: uint32, code: uint16, kind: uint16, value: seq<uint8>)

  /** How many bytes a value at the front of `b` takes, which its type code says. */
  function ValueLength(kind: uint16, b: seq<uint8>): Option<nat> {
    if kind == KIND_UINT16 then Some(2)
    else if kind == KIND_UINT32 then Some(4)
    else if kind == KIND_UINT128 then Some(16)
    else if kind == KIND_STR && b != [] then Some(1 + 2 * b[0] as int)
    else None
  }

  function ParseQuad(b: seq<uint8>): Option<(Quad, seq<uint8>)> {
    if |b| < 8 then None
    else
      var kind := U16At(b, 6);
      var length := ValueLength(kind, b[8..]);
      if length.None? || |b| < 8 + length.value then None
      else Some((Quad(U32At(b, 0), U16At(b, 4), kind, b[8..8 + length.value]), b[8 + length.value..]))
  }

  /** Parses `count` quadruples; what is left is returned with them. */
  function ParseQuads(b: seq<uint8>, count: nat): Option<(seq<Quad>, seq<uint8>)> {
    if count == 0 then Some(([], b))
    else
      match ParseQuad(b)
      case None => None
      case Some((q, rest)) =>
        match ParseQuads(rest, count - 1)
        case None => None
        case Some((qs, end)) => Some(([q] + qs, end))
  }

  /** The quadruple that an item should be read as. */
  function QuadOf(t: Table, item: Item, epoch: Name): Quad
    requires item.handle in t
  {
    Quad(item.handle, Code(item.property), Kind(item.property),
         Encode(ValueOf(item.handle, t[item.handle], epoch, item.property)))
  }

  function QuadsOf(t: Table, items: seq<Item>, epoch: Name): (r: seq<Quad>)
    requires ItemsIn(t, items)
    ensures |r| == |items|
  {
    seq(|items|, i requires 0 <= i < |items| => QuadOf(t, items[i], epoch))
  }

  /** Every string that may be sent is short enough for its count byte. */
  ghost predicate ShortNames(t: Table, epoch: Name) {
    |Units(epoch)| <= 254 && forall h :: h in t ==> |Units(t[h].name)| <= 254 && |Units(t[h].modified)| <= 254
  }

  lemma SentLength(units: seq<uint16>)
    requires |units| <= 254
    ensures var b := Encode(Sent(units)); b != [] && |b| == 1 + 2 * b[0] as int
  {
    var raw := Terminated(units);
    SentIsReceived(units);
    EncodedUnits(raw);
    EncodeConcat([U8(|raw|)], U16s(raw));
    assert Encode([U8(|raw|)]) == U8(|raw|).Bytes() + Encode([]);
    assert LittleEndian(|raw|, 1) == [|raw|] + LittleEndian(0, 0);
  }

  lemma Encode1(f: Field)
    ensures Encode([f]) == f.Bytes()
  {
    assert [f][1..] == [] && f.Bytes() + [] == f.Bytes();
  }

  /** The value's own bytes have the length that its type code announces, whatever follows. */
  lemma ValueFits(h: uint32, e: DbEntry, epoch: Name, property: uint16, tail: seq<uint8>)
    requires |Units(e.name)| <= 254 && |Units(e.modified)| <= 254 && |Units(epoch)| <= 254
    ensures var b := Encode(ValueOf(h, e, epoch, property));
            ValueLength(Kind(property), b + tail) == Some(|b|)
  {
    var b := Encode(ValueOf(h, e, epoch, property));
    ValueBytes(h, e, epoch, property);
    LengthByFront(Kind(property), b, tail);
  }

  lemma LengthByFront(kind: uint16, b: seq<uint8>, tail: seq<uint8>)
    requires b != []
    ensures ValueLength(kind, b + tail) == ValueLength(kind, b)
  {
    assert (b + tail)[0] == b[0];
  }

  lemma ValueBytes(h: uint32, e: DbEntry, epoch: Name, property: uint16)
    requires |Units(e.name)| <= 254 && |Units(e.modified)| <= 254 && |Units(epoch)| <= 254
    ensures var b := Encode(ValueOf(h, e, epoch, property)); b != [] && ValueLength(Kind(property), b) == Some(|b|)
  {
    if Kind(property) == KIND_STR {
      SentLength(Units(TextOf(e, epoch, property)));
    } else if Kind(property) == KIND_UINT128 {
      WideBytes(h);
    } else {
      Encode1(NumberOf(e, property));
      KindIsNumber(property);
    }
  }

  lemma WideBytes(h: uint32)
    ensures |Encode([U64(h), U64(0)])| == 16
  {
    EncodeConcat([U64(h)], [U64(0)]);
    assert [U64(h), U64(0)] == [U64(h)] + [U64(0)];
    Encode1(U64(h));
    Encode1(U64(0));
  }

  lemma KindIsNumber(property: uint16)
    ensures Kind(property) == KIND_STR || Kind(property) == KIND_UINT128 || Kind(property) == KIND_UINT32
            || Kind(property) == KIND_UINT16
  {
  }

  lemma ParseEncoded(h: uint32, e: DbEntry, epoch: Name, property: uint16, tail: seq<uint8>)
    requires |Units(e.name)| <= 254 && |Units(e.modified)| <= 254 && |Units(epoch)| <= 254
    ensures ParseQuad(Encode(QuadFields(h, e, epoch, property)) + tail) ==
            Some((Quad(h, Code(property), Kind(property), Encode(ValueOf(h, e, epoch, property))), tail))
  {
    var value := Encode(ValueOf(h, e, epoch, property));
    var head := LittleEndian(h, 4) + LittleEndian(Code(property), 2) + LittleEndian(Kind(property), 2);
    QuadBytes(h, e, epoch, property);
    var b := head + value + tail;
    ValueFits(h, e, epoch, property, tail);
    HeadParts(h, Code(property), Kind(property), value + tail);
    Assoc(head, value, tail);
    assert b[8..] == value + tail && b[8..8 + |value|] == value && b[8 + |value|..] == tail;
  }

  /** A reader finds a property under its own code, whatever follows it, exactly when it is not
      the date of the last change. */
  lemma CodeIsOwnExactly(h: uint32, e: DbEntry, epoch: Name, property: uint16, tail: seq<uint8>)
    requires |Units(e.name)| <= 254 && |Units(e.modified)| <= 254 && |Units(epoch)| <= 254
    ensures var read := ParseQuad(Encode(QuadFields(h, e, epoch, property)) + tail);
            && read.Some? && read.value.0.handle == h
            && (read.value.0.code == property <==> property != PROPERTY_DATE_MODIFIED)
  {
    ParseEncoded(h, e, epoch, property, tail);
  }

  /** An object last changed at another time than the fixed date of all creations: a reader finds
      two dates of creation, and they differ. */
  lemma TwoCreationDates(h: uint32, e: DbEntry, epoch: Name, tail: seq<uint8>)
    requires |Units(e.name)| <= 254 && |Units(e.modified)| <= 254 && |Units(epoch)| <= 254
    requires e.modified != epoch
    ensures var created := ParseQuad(Encode(QuadFields(h, e, epoch, PROPERTY_DATE_CREATED)) + tail);
            var changed := ParseQuad(Encode(QuadFields(h, e, epoch, PROPERTY_DATE_MODIFIED)) + tail);
            && created.Some? && changed.Some? && changed.value.0.code == created.value.0.code == PROPERTY_DATE_CREATED
            && changed.value.0.value != created.value.0.value
  {
    ParseEncoded(h, e, epoch, PROPERTY_DATE_CREATED, tail);
    ParseEncoded(h, e, epoch, PROPERTY_DATE_MODIFIED, tail);
    DifferentDates(e.modified, epoch);
  }

  lemma DifferentDates(a: Name, b: Name)
    requires a != b && |Units(a)| <= 254 && |Units(b)| <= 254
    ensures Encode(Sent(Units(a))) != Encode(Sent(Units(b)))
  {
    NameUnits(a);
    NameUnits(b);
    if Encode(Sent(Units(a))) == Encode(Sent(Units(b))) {
      SameUnits(Units(a), Units(b));
    }
  }

  lemma SameUnits(a: seq<uint16>, b: seq<uint16>)
    requires |a| <= 254 && |b| <= 254 && Encode(Sent(a)) == Encode(Sent(b))
    ensures a == b
  {
    SentIsReceived(a);
    SentIsReceived(b);
    Intake.RawUnique(Terminated(a), Terminated(b), Encode(Sent(a)));
    assert a != [] ==> Terminated(a)[..|a|] == a;
    assert b != [] ==> Terminated(b)[..|b|] == b;
  }

  lemma QuadBytes(h: uint32, e: DbEntry, epoch: Name, property: uint16)
    ensures Encode(QuadFields(h, e, epoch, property)) ==
            LittleEndian(h, 4) + LittleEndian(Code(property), 2) + LittleEndian(Kind(property), 2) +
            Encode(ValueOf(h, e, epoch, property))
  {
    var c, k := U16(Code(property)), U16(Kind(property));
    EncodeConcat([U32(h), c, k], ValueOf(h, e, epoch, property));
    EncodeConcat([U32(h)], [c, k]);
    EncodeConcat([c], [k]);
    assert [U32(h), c, k] == [U32(h)] + [c, k] && [c, k] == [c] + [k];
    Encode1(U32(h));
    Encode1(c);
    Encode1(k);
    Assoc(U32(h).Bytes(), c.Bytes(), k.Bytes());
  }

  lemma HeadParts(h: uint32, code: uint16, kind: uint16, rest: seq<uint8>)
    ensures var b := LittleEndian(h, 4) + LittleEndian(code, 2) + LittleEndian(kind, 2) + rest;
            U32At(b, 0) == h && U16At(b, 4) == code && U16At(b, 6) == kind
  {
    var b := LittleEndian(h, 4) + LittleEndian(code, 2) + LittleEndian(kind, 2) + rest;
    U32Within(b, 0, h);
    U16Within(b, 4, code);
    U16Within(b, 6, kind);
  }

  /** Bytes that are read as `q`, whatever follows them. */
  ghost predicate ReadAs(c: seq<uint8>, q: Quad) {
    forall tail :: ParseQuad(c + tail) == Some((q, tail))
  }

  ghost predicate AllReadAs(chunks: seq<seq<uint8>>, quads: seq<Quad>) {
    |chunks| == |quads| && forall i :: 0 <= i < |chunks| ==> ReadAs(chunks[i], quads[i])
  }

  /** Parsing with a count that need not be the right one: a smaller count leaves the bytes of
      the rest, a larger one finds no quadruple there. */
  ghost predicate Parses(chunks: seq<seq<uint8>>, quads: seq<Quad>, count: nat) {
    ParseQuads(Concat(chunks), count) == if count <= |quads| && count <= |chunks| then
      Some((quads[..count], Concat(chunks[count..]))) else None
  }

  lemma {:induction false} ParseChunks(chunks: seq<seq<uint8>>, quads: seq<Quad>, count: nat)
    requires AllReadAs(chunks, quads)
    ensures Parses(chunks, quads, count)
    decreases count
  {
    if count == 0 || chunks == [] {
      assert count == 0 ==> chunks[0..] == chunks;
    } else {
      ParseChunks(chunks[1..], quads[1..], count - 1);
      assert ReadAs(chunks[0], quads[0]);
      ParseMore(chunks, quads, count);
    }
  }

  lemma ParseMore(chunks: seq<seq<uint8>>, quads: seq<Quad>, count: nat)
    requires count > 0 && chunks != [] && |chunks| == |quads| && ReadAs(chunks[0], quads[0])
    requires Parses(chunks[1..], quads[1..], count - 1)
    ensures Parses(chunks, quads, count)
  {
    var rest := Concat(chunks[1..]);
    assert Concat(chunks) == chunks[0] + rest;
    ParseStep(Concat(chunks), quads[0], rest, count);
    if count <= |quads| {
      assert chunks[1..][count - 1..] == chunks[count..];
      assert quads[..count] == [quads[0]] + quads[1..][..count - 1];
    }
  }

  lemma ParseStep(b: seq<uint8>, q: Quad, rest: seq<uint8>, count: nat)
    requires count > 0 && ParseQuad(b) == Some((q, rest))
    ensures ParseQuads(b, count) ==
            match ParseQuads(rest, count - 1)
            case None => None
            case Some((qs, end)) => Some(([q] + qs, end))
  {
  }

  function Chunks(t: Table, items: seq<Item>, epoch: Name): (r: seq<seq<uint8>>)
    requires ItemsIn(t, items)
    ensures |r| == |items|
  {
    seq(|items|, i requires 0 <= i < |items| => Encode(QuadFields(items[i].handle, t[items[i].handle], epoch,
                                                                  items[i].property)))
  }

  lemma {:induction false} ItemsBytes(t: Table, items: seq<Item>, epoch: Name)
    requires ItemsIn(t, items)
    ensures Encode(ItemsFields(t, items, epoch)) == Concat(Chunks(t, items, epoch))
  {
    if items != [] {
      var before, last := items[..|items| - 1], items[|items| - 1];
      ItemsBytes(t, before, epoch);
      var fields := QuadFields(last.handle, t[last.handle], epoch, last.property);
      EncodeConcat(ItemsFields(t, before, epoch), fields);
      ChunksSnoc(t, items, epoch);
      ConcatSnoc(Chunks(t, before, epoch), Encode(fields));
    }
  }

  lemma ChunksSnoc(t: Table, items: seq<Item>, epoch: Name)
    requires ItemsIn(t, items) && items != []
    ensures var last := items[|items| - 1];
            Chunks(t, items, epoch) ==
            Chunks(t, items[..|items| - 1], epoch) +
              [Encode(QuadFields(last.handle, t[last.handle], epoch, last.property))]
  {
  }

  lemma ChunksRead(t: Table, items: seq<Item>, epoch: Name)
    requires ItemsIn(t, items) && ShortNames(t, epoch)
    ensures AllReadAs(Chunks(t, items, epoch), QuadsOf(t, items, epoch))
  {
    forall i | 0 <= i < |items|
      ensures ReadAs(Chunks(t, items, epoch)[i], QuadOf(t, items[i], epoch))
    {
      forall tail
        ensures ParseQuad(Chunks(t, items, epoch)[i] + tail) == Some((QuadOf(t, items[i], epoch), tail))
      {
        ParseEncoded(items[i].handle, t[items[i].handle], epoch, items[i].property, tail);
      }
    }
  }

  /** A reader that goes by the declared count and by the type codes comes out exactly at the
      end of the dataset, with the quadruples that were sent, if and only if the count is the
      right one; DeclaredExactly says when. */
  lemma PropListParsesExactly(t: Table, handles: seq<uint32>, property: uint32, epoch: Name)
    requires HandlesIn(t, handles) && ShortNames(t, epoch)
    ensures ItemsIn(t, Items(handles, property))
    ensures var items := Items(handles, property);
            ParseQuads(Encode(ItemsFields(t, items, epoch)), Declared(handles, property)) ==
              Some((QuadsOf(t, items, epoch), []))
            <==> |items| == Declared(handles, property)
  {
    var items := Items(handles, property);
    ItemsSelected(t, handles, property);
    ItemsBytes(t, items, epoch);
    ChunksRead(t, items, epoch);
    ParseExactly(Chunks(t, items, epoch), QuadsOf(t, items, epoch), Declared(handles, property));
  }

  lemma ParseExactly(chunks: seq<seq<uint8>>, quads: seq<Quad>, count: nat)
    requires AllReadAs(chunks, quads)
    ensures ParseQuads(Concat(chunks), count) == Some((quads, [])) <==> |quads| == count
  {
    ParseChunks(chunks, quads, count);
    if count == |quads| {
      assert chunks[count..] == [] && quads[..count] == quads;
    } else if count < |quads| {
      assert |quads[..count]| != |quads|;
    }
  }

  lemma {:induction false} ItemsSelected(t: Table, handles: seq<uint32>, property: uint32)
    requires HandlesIn(t, handles)
    ensures ItemsIn(t, Items(handles, property))
  {
    if handles != [] {
      assert handles[0] in t;
      if !Breaks(property) {
        ItemsSelected(t, handles[..|handles| - 1], property);
      }
    }
  }

  /** For a single property that does not leave the loop, the quadruples are one per handle,
      in the order of the handles. */
  lemma {:induction false} OneItemPerHandle(handles: seq<uint32>, property: uint32)
    requires Supported(property) && !Breaks(property)
    ensures Items(handles, property) == seq(|handles|, i requires 0 <= i < |handles| => Item(handles[i], property))
  {
    if handles != [] {
      var n := |handles| - 1;
      OneItemPerHandle(handles[..n], property);
      assert Items(handles, property) == Items(handles[..n], property) + [Item(handles[n], property)];
    }
  }

  // ---- The operation ----

  /** The handles whose parent is `parent`. */
  function Children(t: Table, keys: seq<uint32>, parent: uint32): seq<uint32> {
    if keys == [] then []
    else
      var last := |keys| - 1;
      Children(t, keys[..last], parent) + if keys[last] in t && t[keys[last]].parent == parent then [keys[last]] else []
  }

  lemma ChildrenStep(t: Table, keys: seq<uint32>, i: nat, parent: uint32)
    requires i < |keys|
    ensures Children(t, keys[..i + 1], parent) ==
            Children(t, keys[..i], parent) + if keys[i] in t && t[keys[i]].parent == parent then [keys[i]] else []
  {
    assert keys[..i + 1][..i] == keys[..i];
  }

  lemma {:induction false} ChildrenSelects(t: Table, keys: seq<uint32>, parent: uint32)
    requires Ascending(keys)
    ensures var list := Children(t, keys, parent);
            Ascending(list) && forall h :: h in list <==> h in keys && h in t && t[h].parent == parent
  {
    if keys != [] {
      var last := |keys| - 1;
      ChildrenSelects(t, keys[..last], parent);
      var list := Children(t, keys[..last], parent);
      assert keys == keys[..last] + [keys[last]];
      assert forall i :: 0 <= i < |list| ==> list[i] in keys[..last];
    }
  }

  method SelectChildren(t: Table, parent: uint32) returns (handles: seq<uint32>)
    ensures handles == Children(t, AscendingKeys(t.Keys), parent) && AreChildren(t, parent, handles)
  {
    handles := [];
    var keys := AscendingKeys(t.Keys);
    for i := 0 to |keys|
      invariant handles == Children(t, keys[..i], parent)
    {
      ChildrenStep(t, keys, i, parent);
      if keys[i] in t && t[keys[i]].parent == parent {
        handles := handles + [keys[i]];
      }
    }
    assert keys[..|keys|] == keys;
    AllChildren(t, parent);
  }

  ghost predicate AreChildren(t: Table, parent: uint32, handles: seq<uint32>) {
    Ascending(handles) && forall h :: h in handles <==> h in t && t[h].parent == parent
  }

  lemma AllChildren(t: Table, parent: uint32)
    ensures AreChildren(t, parent, Children(t, AscendingKeys(t.Keys), parent))
  {
    var keys := AscendingKeys(t.Keys);
    ChildrenSelects(t, keys, parent);
    assert forall k :: k in keys <==> k in t.Keys;
  }

  datatype ListRequest = ListRequest(handle: uint32, property: uint32, group: uint32, depth: uint32)

  /** The response, and the handles whose properties are listed when it is OK. The depth is a
      signed number: what looks like a very large one is negative, and lists children. */
  function Verdict(t: Table, r: ListRequest): (uint16, seq<uint32>) {
    if r.handle == INVALID_HANDLE then (RESPONSE_PARAMETER_NOT_SUPPORTED, [])
    else if r.property == 0 && r.group == 0 then (RESPONSE_PARAMETER_NOT_SUPPORTED, [])
    else if r.group != 0 then (RESPONSE_SPECIFICATION_BY_GROUP_UNSUPPORTED, [])
    else if 1 < r.depth < 0x8000_0000 then (RESPONSE_SPECIFICATION_BY_DEPTH_UNSUPPORTED, [])
    else if r.depth != 0 then (RESPONSE_OK, Children(t, AscendingKeys(t.Keys), r.handle))
    else if r.handle !in t then (RESPONSE_INVALID_OBJECT_HANDLE, [])
    else (RESPONSE_OK, [r.handle])
  }

  method GetObjectPropertyList(packet: MtpPacket, t: Table, r: ListRequest, epoch: Name) returns (code: uint16)
    requires packet.Valid()
    modifies packet, packet.buffer
    ensures packet.Valid() && code == Verdict(t, r).0
    ensures if code == RESPONSE_OK then
            packet.ahead == [] && packet.Wrote(PropListFields(t, Verdict(t, r).1, r.property, epoch))
            else packet.packetSize == old(packet.packetSize) && packet.fields == old(packet.fields)
                 && packet.offset == old(packet.offset) && packet.buffer == old(packet.buffer)
                 && packet.ahead == old(packet.ahead)
  {
    if r.handle == INVALID_HANDLE {
      return RESPONSE_PARAMETER_NOT_SUPPORTED;
    }
    if r.property == 0 && r.group == 0 {
      return RESPONSE_PARAMETER_NOT_SUPPORTED;
    }
    if r.group != 0 {
      return RESPONSE_SPECIFICATION_BY_GROUP_UNSUPPORTED;
    }
    if 1 < r.depth < 0x8000_0000 {
      return RESPONSE_SPECIFICATION_BY_DEPTH_UNSUPPORTED;
    }
    var handles: seq<uint32>;
    if r.depth == 0 {
      if r.handle !in t {
        return RESPONSE_INVALID_OBJECT_HANDLE;
      }
      handles := [r.handle];
    } else {
      handles := SelectChildren(t, r.handle);
    }
    WritePropList(packet, t, handles, r.property, epoch);
    code := RESPONSE_OK;
  }
}
