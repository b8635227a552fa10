/** Where the integers of the datasets lie, byte by byte. */
module Layouts {
  import opened MtpTypes
  import opened Wire
  import opened Packets
  import opened Strings
  import opened Datasets
  import opened Properties

  /** The `k`th field of a dataset, and where it lies among the bytes. */
  datatype Place = Place(b: seq<uint8>, fs: seq<Field>, k: nat, at: nat)

  ghost predicate LiesRule(p: Place) {
    p.k <= |p.fs| && p.at <= |p.b| && p.b[p.at..] == Encode(p.fs[p.k..])
  }

  /** The field lies there, and what follows it behind. (Folded: naming LiesRule unfolds it.) */
  ghost predicate Lies(b: seq<uint8>, fs: seq<Field>, k: nat, at: nat) {
    forall p {:trigger LiesRule(p)} :: p == Place(b, fs, k, at) ==> LiesRule(p)
  }

  lemma Start(fs: seq<Field>)
    ensures Lies(Encode(fs), fs, 0, 0)
  {
    assert fs[0..] == fs && Encode(fs)[0..] == Encode(fs);
    assert LiesRule(Place(Encode(fs), fs, 0, 0));
  }

  lemma NextBytes(b: seq<uint8>, fs: seq<Field>, k: nat, at: nat, f: Field)
    requires Lies(b, fs, k, at) && k < |fs| && f == fs[k]
    ensures Lies(b, fs, k + 1, at + f.Width()) && at + f.Width() <= |b|
    ensures b[at..at + f.Width()] == f.Bytes()
  {
    assert LiesRule(Place(b, fs, k, at));
    var w := f.Width();
    assert fs[k..][0] == f && fs[k..][1..] == fs[k + 1..];
    assert |f.Bytes()| == w && b[at..][..w] == f.Bytes() && b[at..][w..] == Encode(fs[k + 1..]);
    assert b[at..at + w] == b[at..][..w] && b[at + w..] == b[at..][w..];
    assert LiesRule(Place(b, fs, k + 1, at + w));
  }

  lemma Next(b: seq<uint8>, fs: seq<Field>, k: nat, at: nat, f: Field)
    requires Lies(b, fs, k, at) && k < |fs| && f == fs[k]
    ensures Lies(b, fs, k + 1, at + f.Width()) && at + f.Width() <= |b|
    ensures f.U8? ==> b[at] == f.u8
    ensures f.U16? ==> U16At(b, at) == f.u16
    ensures f.U32? ==> U32At(b, at) == f.u32
    ensures f.U64? ==> U64At(b, at) == f.u64
  {
    NextBytes(b, fs, k, at, f);
    if f.U16? {
      U16Within(b, at, f.u16);
    } else if f.U32? {
      U32Within(b, at, f.u32);
    } else if f.U64? {
      U64AtBytes(b, at);
      FieldBytesInjective(f, U64(U64At(b, at)));
    } else {
      LowestByte(f.u8, 0, 0);
    }
  }

  /** What lies behind the last of some fields. */
  lemma Rest(b: seq<uint8>, a: seq<Field>, rest: seq<Field>, n: nat, at: nat)
    requires Lies(b, a + rest, n, at) && |a| == n
    ensures at <= |b| && b[at..] == Encode(rest)
  {
    assert LiesRule(Place(b, a + rest, n, at));
    assert (a + rest)[n..] == rest;
  }

  // ---- Descriptions of objects ----

  /** The integers of an object's description at their places: storage, format, protection, size, a
      thumbnail's format, size, width and height, an image's width, height and depth, parent, association
      and sequence number; then name, dates and keywords. */
  lemma ObjectInfoLayout(s: ObjectInfo)
    ensures var b := Encode(InfoFields(s));
            && 52 <= |b|
            && U32At(b, 0) == s.storage && U16At(b, 4) == s.format && U16At(b, 6) == s.protection
            && U32At(b, 8) == s.size && U16At(b, 12) == s.thumbFormat && U32At(b, 14) == s.thumbSize
            && U32At(b, 18) == s.thumbWidth && U32At(b, 22) == s.thumbHeight
            && U32At(b, 26) == s.width && U32At(b, 30) == s.height && U32At(b, 34) == s.depth
            && U32At(b, 38) == s.parent && U16At(b, 42) == s.associationType
            && U32At(b, 44) == s.associationDesc && U32At(b, 48) == s.sequence
            && b[52..] == Encode(Sent(Units(s.name))) + (Encode(Sent(Units(s.created))) +
                          (Encode(Sent(Units(s.modified))) + Encode(Sent(Units(s.keywords)))))
  {
    var fs := InfoFields(s);
    var b := Encode(fs);
    Start(fs);
    ObjectPart(b, fs, s);
    ThumbnailPart(b, fs, s);
    ImagePart(b, fs, s);
    PlacePart(b, fs, s);
    var rest := Sent(Units(s.name)) + (Sent(Units(s.created)) + (Sent(Units(s.modified)) + Sent(Units(s.keywords))));
    Rest(b, InfoIntegers(s), rest, 15, 52);
    FourStrings(Sent(Units(s.name)), Sent(Units(s.created)), Sent(Units(s.modified)), Sent(Units(s.keywords)));
  }

  lemma ObjectPart(b: seq<uint8>, fs: seq<Field>, s: ObjectInfo)
    requires InfoIntegers(s) <= fs && Lies(b, fs, 0, 0) && 0 <= |b|
    ensures Lies(b, fs, 4, 12) && 12 <= |b|
    ensures U32At(b, 0) == s.storage && U16At(b, 4) == s.format && U16At(b, 6) == s.protection
    ensures U32At(b, 8) == s.size
  {
    Next(b, fs, 0, 0, U32(s.storage));
    Next(b, fs, 1, 4, U16(s.format));
    Next(b, fs, 2, 6, U16(s.protection));
    Next(b, fs, 3, 8, U32(s.size));
  }

  lemma ThumbnailPart(b: seq<uint8>, fs: seq<Field>, s: ObjectInfo)
    requires InfoIntegers(s) <= fs && Lies(b, fs, 4, 12) && 12 <= |b|
    ensures Lies(b, fs, 8, 26) && 26 <= |b|
    ensures U16At(b, 12) == s.thumbFormat && U32At(b, 14) == s.thumbSize && U32At(b, 18) == s.thumbWidth
    ensures U32At(b, 22) == s.thumbHeight
  {
    Next(b, fs, 4, 12, U16(s.thumbFormat));
    Next(b, fs, 5, 14, U32(s.thumbSize));
    Next(b, fs, 6, 18, U32(s.thumbWidth));
    Next(b, fs, 7, 22, U32(s.thumbHeight));
  }

  lemma ImagePart(b: seq<uint8>, fs: seq<Field>, s: ObjectInfo)
    requires InfoIntegers(s) <= fs && Lies(b, fs, 8, 26) && 26 <= |b|
    ensures Lies(b, fs, 11, 38) && 38 <= |b|
    ensures U32At(b, 26) == s.width && U32At(b, 30) == s.height && U32At(b, 34) == s.depth
  {
    Next(b, fs, 8, 26, U32(s.width));
    Next(b, fs, 9, 30, U32(s.height));
    Next(b, fs, 10, 34, U32(s.depth));
  }

  lemma PlacePart(b: seq<uint8>, fs: seq<Field>, s: ObjectInfo)
    requires InfoIntegers(s) <= fs && Lies(b, fs, 11, 38) && 38 <= |b|
    ensures Lies(b, fs, 15, 52) && 52 <= |b|
    ensures U32At(b, 38) == s.parent && U16At(b, 42) == s.associationType && U32At(b, 44) == s.associationDesc
    ensures U32At(b, 48) == s.sequence
  {
    Next(b, fs, 11, 38, U32(s.parent));
    Next(b, fs, 12, 42, U16(s.associationType));
    Next(b, fs, 13, 44, U32(s.associationDesc));
    Next(b, fs, 14, 48, U32(s.sequence));
  }

  lemma FourStrings(a: seq<Field>, b: seq<Field>, c: seq<Field>, d: seq<Field>)
    ensures Encode(a + (b + (c + d))) == Encode(a) + (Encode(b) + (Encode(c) + Encode(d)))
  {
    EncodeConcat(a, b + (c + d));
    EncodeConcat(b, c + d);
    EncodeConcat(c, d);
  }

  // ---- Descriptions of storages ----

  /** A storage's type, file system and access, its capacity and free space, how many more objects it
      can take; then its description and volume identifier. */
  lemma StorageInfoLayout(s: StorageInfo)
    ensures var b := Encode(StorageFields(s));
            && 26 <= |b|
            && U16At(b, 0) == s.kind && U16At(b, 2) == s.fileSystem && U16At(b, 4) == s.access
            && U64At(b, 6) == s.maxCapacity && U64At(b, 14) == s.freeSpace && U32At(b, 22) == s.freeObjects
            && b[26..] == Encode(Sent(Units(s.description))) + Encode(Sent(Units(s.volume)))
  {
    var fs := StorageFields(s);
    var b := Encode(fs);
    Start(fs);
    Next(b, fs, 0, 0, U16(s.kind));
    Next(b, fs, 1, 2, U16(s.fileSystem));
    Next(b, fs, 2, 4, U16(s.access));
    Next(b, fs, 3, 6, U64(s.maxCapacity));
    Next(b, fs, 4, 14, U64(s.freeSpace));
    Next(b, fs, 5, 22, U32(s.freeObjects));
    Rest(b, StorageIntegers(s), Sent(Units(s.description)) + Sent(Units(s.volume)), 6, 26);
    EncodeConcat(Sent(Units(s.description)), Sent(Units(s.volume)));
  }

  // ---- Descriptions of the device ----

  /** The device's version, vendor and vendor's version, the extensions and the mode; operations, events,
      properties and formats; then manufacturer, model, version and serial number. */
  lemma DeviceInfoLayout(s: DeviceInfo)
    ensures var b := Encode(DeviceFields(s));
            && 8 <= |b|
            && U16At(b, 0) == s.version && U32At(b, 2) == s.vendor && U16At(b, 6) == s.vendorVersion
            && b[8..] == Encode(Sent(Units(s.extensions))) + (Encode([U16(s.mode)]) + (
                         Encode(Array16(s.lists.operations)) + (Encode(Array16(s.lists.events)) +
                         (Encode(Array16(s.lists.properties)) + (Encode(Array16(s.lists.captureFormats)) +
                         Encode(Array16(s.lists.playbackFormats))))) + (Encode(Sent(Units(s.manufacturer))) +
                         (Encode(Sent(Units(s.model))) + (Encode(Sent(Units(s.deviceVersion))) +
                         Encode(Sent(Units(s.serial))))))))
  {
    var fs := DeviceFields(s);
    var b := Encode(fs);
    Start(fs);
    Next(b, fs, 0, 0, U16(s.version));
    Next(b, fs, 1, 2, U32(s.vendor));
    Next(b, fs, 2, 6, U16(s.vendorVersion));
    var lists, identity := ListFields(s.lists), IdentityFields(s);
    Rest(b, VendorIntegers(s), Sent(Units(s.extensions)) + ([U16(s.mode)] + (lists + identity)), 3, 8);
    FourStrings(Sent(Units(s.extensions)), [U16(s.mode)], lists, identity);
    EncodeConcat(Array16(s.lists.operations),
                 Array16(s.lists.events) + (Array16(s.lists.properties) +
                 (Array16(s.lists.captureFormats) + Array16(s.lists.playbackFormats))));
    FourStrings(Array16(s.lists.events), Array16(s.lists.properties), Array16(s.lists.captureFormats),
                Array16(s.lists.playbackFormats));
    FourStrings(Sent(Units(s.manufacturer)), Sent(Units(s.model)), Sent(Units(s.deviceVersion)),
                Sent(Units(s.serial)));
  }

  // ---- Descriptions of properties ----

  /** A property's code, its type, and whether it can be set. */
  lemma PropertyLayout(p: Property)
    requires WellFormed(p)
    ensures var b := Encode(WrittenFields(p));
            5 <= |b| && U16At(b, 0) == p.code && U16At(b, 2) == p.kind && b[4] == if p.writeable then 1 else 0
  {
    var fs := WrittenFields(p);
    var b := Encode(fs);
    Start(fs);
    Next(b, fs, 0, 0, U16(p.code));
    Next(b, fs, 1, 2, U16(p.kind));
    Next(b, fs, 2, 4, U8(if p.writeable then 1 else 0));
  }

  // ---- Strings and arrays ----

  lemma {:induction false} UnitsLie(b: seq<uint8>, fs: seq<Field>, units: seq<uint16>, k: nat, at: nat, i: nat)
    requires Lies(b, fs, k, at) && i <= |units| && k + |units| <= |fs|
    requires forall j :: 0 <= j < |units| ==> fs[k + j] == U16(units[j])
    ensures Lies(b, fs, k + i, at + 2 * i)
    ensures i < |units| ==> at + 2 * i + 2 <= |b| && U16At(b, at + 2 * i) == units[i]
  {
    if i > 0 {
      UnitsLie(b, fs, units, k, at, i - 1);
      Next(b, fs, k + (i - 1), at + 2 * (i - 1), U16(units[i - 1]));
      assert k + (i - 1) + 1 == k + i && at + 2 * (i - 1) + 2 == at + 2 * i;
    } else {
      assert k + i == k && at + 2 * i == at;
    }
    if i < |units| {
      Next(b, fs, k + i, at + 2 * i, U16(units[i]));
    }
  }

  /** A string: a byte with the number of its units and their terminator, the units, and a zero; an empty
      one is a zero byte alone. */
  lemma StringLayout(units: seq<uint16>, i: nat)
    requires i < |units| < 255
    ensures var b := Encode(Sent(units));
            && |b| == 3 + 2 * |units| && b[0] == |units| + 1 && U16At(b, 1 + 2 * i) == units[i]
            && U16At(b, 1 + 2 * |units|) == 0
    ensures Encode(Sent([])) == [0]
  {
    EncodedLength(units);
    FieldsLie(Encode(Sent(units)), Sent(units), units, i);
    LowestByte(0, 0, 0);
    assert Encode([U8(0)]) == U8(0).Bytes() + Encode([]);
  }

  lemma FieldsLie(b: seq<uint8>, fs: seq<Field>, units: seq<uint16>, i: nat)
    requires i < |units| < 255 && fs == Sent(units) && b == Encode(fs) && |b| == 3 + 2 * |units|
    ensures b[0] == |units| + 1 && U16At(b, 1 + 2 * i) == units[i] && U16At(b, 1 + 2 * |units|) == 0
  {
    Start(fs);
    Next(b, fs, 0, 0, fs[0]);
    UnitsLie(b, fs, units, 1, 1, i);
    UnitsLie(b, fs, units, 1, 1, |units|);
    Next(b, fs, 1 + |units|, 1 + 2 * |units|, U16(0));
  }

  /** An array: a 32-bit count, and its elements. */
  lemma ArrayLayout(values: seq<uint16>, i: nat)
    requires i < |values| < 0x1_0000_0000
    ensures var b := Encode(Array16(values));
            4 + 2 * i + 2 <= |b| && U32At(b, 0) == |values| && U16At(b, 4 + 2 * i) == values[i]
  {
    var fs := Array16(values);
    var b := Encode(fs);
    Start(fs);
    Next(b, fs, 0, 0, fs[0]);
    UnitsLie(b, fs, values, 1, 4, i);
  }

  /** Characters of one, two and three bytes: A, e with an acute accent, and the euro sign. */
  lemma CharacterBytes()
    ensures UnitBytes(0x41) == [0x41] && UnitBytes(0xE9) == [0xC3, 0xA9] && UnitBytes(0x20AC) == [0xE2, 0x82, 0xAC]
  {
  }
}
