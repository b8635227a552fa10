/** The datasets that both ends of the link know: ObjectInfo, StorageInfo and DeviceInfo
    (sections 5.3.1, 5.2.2 and 5.1.1 of the MTP 1.1 specification). The device writes them
    field by field, the host reads them field by field. */
module Datasets {
  import opened MtpTypes
  import opened Wire
  import opened Packets
  import opened Strings

  // ---- ObjectInfo ----

  datatype ObjectInfo = ObjectInfo(
    storage: uint32, format: uint16, protection: uint16, size: uint32,
    thumbFormat: uint16, thumbSize: uint32, thumbWidth: uint32, thumbHeight: uint32,
    width: uint32, height: uint32, depth: uint32, parent: uint32,
    associationType: uint16, associationDesc: uint32, sequence: uint32,
    name: Name, created: Name, modified: Name, keywords: Name)

  /** The integers in front of the strings. */
  function InfoIntegers(d: ObjectInfo): seq<Field> {
    [U32(d.storage), U16(d.format), U16(d.protection), U32(d.size),
     U16(d.thumbFormat), U32(d.thumbSize), U32(d.thumbWidth), U32(d.thumbHeight),
     U32(d.width), U32(d.height), U32(d.depth), U32(d.parent),
     U16(d.associationType), U32(d.associationDesc), U32(d.sequence)]
  }

  function InfoFields(d: ObjectInfo): seq<Field> {
    InfoIntegers(d) + (Sent(Units(d.name)) +
                       (Sent(Units(d.created)) + (Sent(Units(d.modified)) + Sent(Units(d.keywords)))))
  }

  /** The server's writer: the dates are strings already, and it never sends a creation
      date or keywords. */
  method WriteObjectInfo(packet: MtpPacket, d: ObjectInfo)
    requires packet.Valid() && packet.offset <= packet.packetSize
    modifies packet, packet.buffer
    ensures packet.Valid() && packet.ahead == [] && packet.Wrote(InfoFields(d.(created := [], keywords := [])))
  {
    packet.PutFields([U32(d.storage), U16(d.format), U16(d.protection), U32(d.size),
                      U16(d.thumbFormat), U32(d.thumbSize), U32(d.thumbWidth), U32(d.thumbHeight),
                      U32(d.width), U32(d.height), U32(d.depth), U32(d.parent),
                      U16(d.associationType), U32(d.associationDesc), U32(d.sequence)]);
    PutString(packet, d.name);
    packet.PutUInt8(0);
    PutString(packet, d.modified);
    packet.PutUInt8(0);
    Assoc5(old(packet.fields), InfoIntegers(d), Sent(Units(d.name)), [U8(0)], Sent(Units(d.modified)), [U8(0)]);
  }

  /** The host's writer for SendObjectInfo. */
  method WriteSendObjectInfo(packet: MtpPacket, d: ObjectInfo)
    requires packet.Valid()
    modifies packet, packet.buffer
    ensures packet.Valid() && packet.ahead == [] && packet.Wrote(InfoFields(d))
  {
    packet.PutFields([U32(d.storage), U16(d.format), U16(d.protection), U32(d.size),
                      U16(d.thumbFormat), U32(d.thumbSize), U32(d.thumbWidth), U32(d.thumbHeight),
                      U32(d.width), U32(d.height), U32(d.depth), U32(d.parent),
                      U16(d.associationType), U32(d.associationDesc), U32(d.sequence)]);
    PutString(packet, d.name);
    PutString(packet, d.created);
    PutString(packet, d.modified);
    PutString(packet, d.keywords);
    Assoc5(old(packet.fields), InfoIntegers(d), Sent(Units(d.name)), Sent(Units(d.created)),
           Sent(Units(d.modified)), Sent(Units(d.keywords)));
  }

  /** The record that the integers `f` and four strings make. */
  function InfoOf(f: seq<Field>, s0: Name, s1: Name, s2: Name, s3: Name): ObjectInfo
    requires |f| == 15
    requires f[0].U32? && f[1].U16? && f[2].U16? && f[3].U32? && f[4].U16? && f[5].U32? && f[6].U32? && f[7].U32?
    requires f[8].U32? && f[9].U32? && f[10].U32? && f[11].U32? && f[12].U16? && f[13].U32? && f[14].U32?
  {
    ObjectInfo(f[0].u32, f[1].u16, f[2].u16, f[3].u32, f[4].u16, f[5].u32, f[6].u32, f[7].u32,
               f[8].u32, f[9].u32, f[10].u32, f[11].u32, f[12].u16, f[13].u32, f[14].u32, s0, s1, s2, s3)
  }

  method GetInfoIntegers(packet: MtpPacket, ghost d: ObjectInfo, ghost rest: seq<Field>) returns (r: ObjectInfo)
    requires packet.Valid() && packet.ahead == InfoIntegers(d) + rest
    modifies packet`offset, packet`fields, packet`ahead
    ensures packet.Valid() && packet.ahead == rest && packet.End() == old(packet.End())
    ensures r == d.(name := [], created := [], modified := [], keywords := [])
  {
    var f := packet.GetFields([4, 2, 2, 4, 2, 4, 4, 4, 4, 4, 4, 4, 2, 4, 4], InfoIntegers(d), rest);
    InfoOfIntegers(d.(name := [], created := [], modified := [], keywords := []));
    r := InfoOf(f, [], [], [], []);
  }

  lemma InfoOfIntegers(d: ObjectInfo)
    ensures InfoOf.requires(InfoIntegers(d), d.name, d.created, d.modified, d.keywords)
    ensures InfoOf(InfoIntegers(d), d.name, d.created, d.modified, d.keywords) == d
  {
  }

  /** The host's view of an object; `data` stands for the fields that Read assigns one by one. */
  class MtpObjectInfo {
    var data: ObjectInfo

    constructor (initial: ObjectInfo)
      ensures data == initial
    {
      data := initial;
    }

    /** Reads the integers of `d` and the strings `r0` to `r3` that lie at the cursor. */
    method Read(packet: MtpPacket, ghost d: ObjectInfo, ghost r0: Raw, ghost r1: Raw, ghost r2: Raw, ghost r3: Raw)
      requires packet.Valid()
      requires packet.ahead == InfoIntegers(d) + (Received(r0) + (Received(r1) + (Received(r2) + Received(r3))))
      modifies this, packet`offset, packet`fields, packet`ahead
      ensures packet.Valid() && packet.ahead == [] && packet.offset == old(packet.End())
      ensures data == d.(name := Text(r0), created := Text(r1), modified := Text(r2), keywords := Text(r3))
    {
      ghost var third := Received(r2) + Received(r3);
      ghost var second := Received(r1) + third;
      var fixed := GetInfoIntegers(packet, d, Received(r0) + second);
      var s0 := GetString(packet, r0, second);
      var s1 := GetString(packet, r1, third);
      var s2 := GetString(packet, r2, Received(r3));
      assert Received(r3) + [] == Received(r3);
      var s3 := GetString(packet, r3, []);
      data := fixed.(name := s0, created := s1, modified := s2, keywords := s3);
    }
  }

  // ---- StorageInfo ----

  datatype StorageInfo = StorageInfo(
    kind: uint16, fileSystem: uint16, access: uint16, maxCapacity: uint64, freeSpace: uint64, freeObjects: uint32,
    description: Name, volume: Name)

  function StorageIntegers(d: StorageInfo): seq<Field> {
    [U16(d.kind), U16(d.fileSystem), U16(d.access), U64(d.maxCapacity), U64(d.freeSpace), U32(d.freeObjects)]
  }

  function StorageFields(d: StorageInfo): seq<Field> {
    StorageIntegers(d) + (Sent(Units(d.description)) + Sent(Units(d.volume)))
  }

  /** The server's writer; the volume identifier is always empty. */
  method WriteStorageInfo(packet: MtpPacket, d: StorageInfo)
    requires packet.Valid() && packet.offset <= packet.packetSize
    modifies packet, packet.buffer
    ensures packet.Valid() && packet.ahead == [] && packet.Wrote(StorageFields(d.(volume := [])))
  {
    packet.PutFields([U16(d.kind), U16(d.fileSystem), U16(d.access), U64(d.maxCapacity), U64(d.freeSpace),
                      U32(d.freeObjects)]);
    PutString(packet, d.description);
    packet.PutUInt8(0);
    Assoc3(old(packet.fields), StorageIntegers(d), Sent(Units(d.description)), [U8(0)]);
  }

  class MtpStorageInfo {
    var data: StorageInfo

    constructor (initial: StorageInfo)
      ensures data == initial
    {
      data := initial;
    }

    method Read(packet: MtpPacket, ghost d: StorageInfo, ghost r0: Raw, ghost r1: Raw)
      requires packet.Valid()
      requires packet.ahead == StorageIntegers(d) + (Received(r0) + Received(r1))
      modifies this, packet`offset, packet`fields, packet`ahead
      ensures packet.Valid() && packet.ahead == [] && packet.offset == old(packet.End())
      ensures data == d.(description := Text(r0), volume := Text(r1))
    {
      var f := packet.GetFields([2, 2, 2, 8, 8, 4], StorageIntegers(d), Received(r0) + Received(r1));
      var s0 := GetString(packet, r0, Received(r1));
      assert Received(r1) + [] == Received(r1);
      var s1 := GetString(packet, r1, []);
      data := StorageInfo(f[0].u16, f[1].u16, f[2].u16, f[3].u64, f[4].u64, f[5].u32, s0, s1);
    }
  }

  // ---- DeviceInfo ----

  /** A list of codes, of a length that its 32-bit count can state. */
  type Codes = s: seq<uint16> | |s| < 0x1_0000_0000

  datatype DeviceInfo = DeviceInfo(
    version: uint16, vendor: uint32, vendorVersion: uint16, extensions: Name, mode: uint16,
    lists: DeviceLists, manufacturer: Name, model: Name, deviceVersion: Name, serial: Name)

  datatype DeviceLists = DeviceLists(
    operations: Codes, events: Codes, properties: Codes, captureFormats: Codes, playbackFormats: Codes)

  function VendorIntegers(d: DeviceInfo): seq<Field> {
    [U16(d.version), U32(d.vendor), U16(d.vendorVersion)]
  }

  function ListFields(d: DeviceLists): seq<Field> {
    Array16(d.operations) +
      (Array16(d.events) + (Array16(d.properties) + (Array16(d.captureFormats) + Array16(d.playbackFormats))))
  }

  /** The four strings that close the dataset. */
  function IdentityFields(d: DeviceInfo): seq<Field> {
    Sent(Units(d.manufacturer)) + (Sent(Units(d.model)) + (Sent(Units(d.deviceVersion)) + Sent(Units(d.serial))))
  }

  function DeviceFields(d: DeviceInfo): seq<Field> {
    VendorIntegers(d) + (Sent(Units(d.extensions)) + ([U16(d.mode)] + (ListFields(d.lists) + IdentityFields(d))))
  }

  method WriteLists(packet: MtpPacket, d: DeviceLists)
    requires packet.Valid()
    modifies packet, packet.buffer
    ensures packet.Valid() && packet.ahead == [] && packet.Wrote(ListFields(d))
  {
    packet.PutAUInt16(d.operations);
    packet.PutAUInt16(d.events);
    packet.PutAUInt16(d.properties);
    packet.PutAUInt16(d.captureFormats);
    packet.PutAUInt16(d.playbackFormats);
    Assoc5(old(packet.fields), Array16(d.operations), Array16(d.events), Array16(d.properties),
           Array16(d.captureFormats), Array16(d.playbackFormats));
  }

  method WriteDeviceInfo(packet: MtpPacket, d: DeviceInfo)
    requires packet.Valid() && packet.offset <= packet.packetSize
    modifies packet, packet.buffer
    ensures packet.Valid() && packet.ahead == [] && packet.Wrote(DeviceFields(d))
  {
    packet.PutFields([U16(d.version), U32(d.vendor), U16(d.vendorVersion)]);
    PutString(packet, d.extensions);
    packet.PutUInt16(d.mode);
    WriteLists(packet, d.lists);
    WriteIdentity(packet, d);
    Assoc5(old(packet.fields), VendorIntegers(d), Sent(Units(d.extensions)), [U16(d.mode)], ListFields(d.lists),
           IdentityFields(d));
  }

  method WriteIdentity(packet: MtpPacket, d: DeviceInfo)
    requires packet.Valid()
    modifies packet, packet.buffer
    ensures packet.Valid() && packet.ahead == [] && packet.Wrote(IdentityFields(d))
  {
    PutString(packet, d.manufacturer);
    PutString(packet, d.model);
    PutString(packet, d.deviceVersion);
    PutString(packet, d.serial);
    Assoc5(old(packet.fields), [], Sent(Units(d.manufacturer)), Sent(Units(d.model)), Sent(Units(d.deviceVersion)),
           Sent(Units(d.serial)));
    assert old(packet.fields) + [] == old(packet.fields) && [] + IdentityFields(d) == IdentityFields(d);
  }

  class MtpDeviceInfo {
    var data: DeviceInfo

    constructor (initial: DeviceInfo)
      ensures data == initial
    {
      data := initial;
    }

    method Read(packet: MtpPacket, ghost d: DeviceInfo, ghost r0: Raw, ghost r1: Raw, ghost r2: Raw, ghost r3: Raw,
                ghost r4: Raw)
      requires packet.Valid()
      requires packet.ahead == VendorIntegers(d) + (Received(r0) + ([U16(d.mode)] + (ListFields(d.lists) +
                               (Received(r1) + (Received(r2) + (Received(r3) + Received(r4)))))))
      modifies this, packet`offset, packet`fields, packet`ahead
      ensures packet.Valid() && packet.ahead == [] && packet.offset == old(packet.End())
      ensures data == d.(extensions := Text(r0), manufacturer := Text(r1), model := Text(r2),
                         deviceVersion := Text(r3), serial := Text(r4))
    {
      ghost var identity := Received(r1) + (Received(r2) + (Received(r3) + Received(r4)));
      ghost var last := [U16(d.mode)] + (ListFields(d.lists) + identity);
      var f := packet.GetFields([2, 4, 2], VendorIntegers(d), Received(r0) + last);
      var extensions := GetString(packet, r0, last);
      var mode := packet.GetUInt16();
      assert last[1..] == ListFields(d.lists) + identity;
      var lists := ReadLists(packet, d.lists, identity);
      var s1, s2, s3, s4 := ReadIdentity(packet, r1, r2, r3, r4);
      data := DeviceInfo(f[0].u16, f[1].u32, f[2].u16, extensions, mode, lists, s1, s2, s3, s4);
    }

    method ReadLists(packet: MtpPacket, ghost d: DeviceLists, ghost rest: seq<Field>) returns (r: DeviceLists)
      requires packet.Valid() && packet.ahead == ListFields(d) + rest
      modifies packet`offset, packet`fields, packet`ahead
      ensures packet.Valid() && packet.ahead == rest && r == d && packet.End() == old(packet.End())
    {
      ghost var a, b, c, e, g := Array16(d.operations), Array16(d.events), Array16(d.properties),
        Array16(d.captureFormats), Array16(d.playbackFormats);
      Regroup5(a, b, c, e, g, rest);
      var operations := packet.GetAUInt16(d.operations, b + (c + (e + (g + rest))));
      var events := packet.GetAUInt16(d.events, c + (e + (g + rest)));
      var properties := packet.GetAUInt16(d.properties, e + (g + rest));
      var captureFormats := packet.GetAUInt16(d.captureFormats, g + rest);
      var playbackFormats := packet.GetAUInt16(d.playbackFormats, rest);
      r := DeviceLists(operations, events, properties, captureFormats, playbackFormats);
    }

    method ReadIdentity(packet: MtpPacket, ghost r1: Raw, ghost r2: Raw, ghost r3: Raw, ghost r4: Raw)
      returns (s1: Name, s2: Name, s3: Name, s4: Name)
      requires packet.Valid() && packet.ahead == Received(r1) + (Received(r2) + (Received(r3) + Received(r4)))
      modifies packet`offset, packet`fields, packet`ahead
      ensures packet.Valid() && packet.ahead == [] && packet.End() == old(packet.End()) && s1 == Text(r1)
      ensures s2 == Text(r2) && s3 == Text(r3) && s4 == Text(r4)
    {
      s1 := GetString(packet, r1, Received(r2) + (Received(r3) + Received(r4)));
      s2 := GetString(packet, r2, Received(r3) + Received(r4));
      s3 := GetString(packet, r3, Received(r4));
      assert Received(r4) + [] == Received(r4);
      s4 := GetString(packet, r4, []);
    }
  }

  lemma Regroup5<T>(a: seq<T>, b: seq<T>, c: seq<T>, d: seq<T>, e: seq<T>, rest: seq<T>)
    ensures a + (b + (c + (d + e))) + rest == a + (b + (c + (d + (e + rest))))
  {
  }
}
