/** Property descriptions: how MtpProperty writes one into a packet and reads one back. */
module Properties {
  import opened MtpTypes
  import opened Wire
  import opened Packets
  import opened Strings

  const TYPE_UINT8: uint16 := 2
  const TYPE_INT128: uint16 := 9
  const TYPE_UINT128: uint16 := 10
  const TYPE_STR: uint16 := 0xFFFF

  const FORM_NONE: uint8 := 0
  const FORM_RANGE: uint8 := 1
  const FORM_ENUM: uint8 := 2

  // ---- Values ----

  predicate IsArray(kind: uint16) { 0x4001 <= kind <= 0x400A }

  /** The type of one value of a property: its own type, or that of its elements. */
  function Element(kind: uint16): uint16 {
    if IsArray(kind) then kind - 0x4000 else kind
  }

  /** One value. Nothing stands for what is not sent: the value of an unknown type, or a
      field that the description leaves out. A string may be null. */
  datatype Value = Nothing | Int(n: int) | Words(w0: int, w1: int, w2: int, w3: int) | Str(s: Option<Name>)

  /** The size in bits of an integer type from INT8 to UINT64. */
  function Range(e: uint16): nat
    requires 1 <= e <= 8
  {
    if e <= 2 then 0x100 else if e <= 4 then 0x1_0000 else if e <= 6 then 0x1_0000_0000 else 0x1_0000_0000_0000_0000
  }

  predicate Signed(e: uint16) { e % 2 == 1 }

  predicate Fits(n: int, range: nat, signed: bool) {
    if signed then 0 - range <= 2 * n < range else 0 <= n < range
  }

  /** Two's complement. */
  function Unsigned(n: int, range: nat): (u: nat)
    requires 0 - range <= n < range
    ensures u < range
  {
    if n < 0 then n + range else n
  }

  function FromUnsigned(u: nat, range: nat, signed: bool): int
  {
    if signed && range <= 2 * u then u - range else u
  }

  lemma TwosComplement(n: int, range: nat, signed: bool)
    requires range > 0 && Fits(n, range, signed)
    ensures FromUnsigned(Unsigned(n, range), range, signed) == n
  {
  }

  predicate FitsWord(w: int, e: uint16) { Fits(w, 0x1_0000_0000, Signed(e)) }

  predicate WellTyped(v: Value, kind: uint16) {
    var e := Element(kind);
    if 1 <= e <= 8 then v.Int? && Fits(v.n, Range(e), Signed(e))
    else if e == TYPE_INT128 || e == TYPE_UINT128 then
      v.Words? && FitsWord(v.w0, e) && FitsWord(v.w1, e) && FitsWord(v.w2, e) && FitsWord(v.w3, e)
    else if e == TYPE_STR then v.Str? && (v.s.Some? ==> |Units(v.s.value)| <= 254)
    else v.Nothing?
  }

  /** An integer of `range` values as a field. */
  function IntField(u: nat, e: uint16): Field
    requires 1 <= e <= 8 && u < Range(e)
  {
    if e <= 2 then U8(u) else if e <= 4 then U16(u) else if e <= 6 then U32(u) else U64(u)
  }

  function ValueFields(v: Value, kind: uint16): seq<Field>
    requires WellTyped(v, kind)
  {
    match v
    case Nothing => []
    case Int(n) => [IntField(Unsigned(n, Range(Element(kind))), Element(kind))]
    case Words(a, b, c, d) =>
      var r := 0x1_0000_0000;
      [U32(Unsigned(a, r)), U32(Unsigned(b, r)), U32(Unsigned(c, r)), U32(Unsigned(d, r))]
    case Str(s) => Sent(Units(if s.Some? then s.value else []))
  }

  /** What comes back: a null string is sent as an empty one. */
  function Back(v: Value): Value {
    if v == Str(None) then Str(Some([])) else v
  }

  function Backs(vs: seq<Value>): (r: seq<Value>)
    ensures |r| == |vs|
  {
    seq(|vs|, i requires 0 <= i < |vs| => Back(vs[i]))
  }

  predicate AllTyped(vs: seq<Value>, kind: uint16) {
    forall v :: v in vs ==> WellTyped(v, kind)
  }

  function ValuesFields(vs: seq<Value>, kind: uint16): seq<Field>
    requires AllTyped(vs, kind)
  {
    if vs == [] then [] else ValueFields(vs[0], kind) + ValuesFields(vs[1..], kind)
  }

  lemma {:induction false} ValuesSnoc(vs: seq<Value>, i: nat, kind: uint16)
    requires i < |vs| && AllTyped(vs, kind)
    ensures AllTyped(vs[..i], kind) && AllTyped(vs[..i + 1], kind)
    ensures ValuesFields(vs[..i + 1], kind) == ValuesFields(vs[..i], kind) + ValueFields(vs[i], kind)
  {
    if i == 0 {
      assert vs[..1] == [vs[0]] && vs[..0] == [];
      assert ValuesFields(vs[..1], kind) == ValueFields(vs[0], kind) + ValuesFields([], kind);
    } else {
      ValuesSnoc(vs[1..], i - 1, kind);
      assert vs[..i + 1][1..] == vs[1..][..i] && vs[..i][1..] == vs[1..][..i - 1];
      Assoc(ValueFields(vs[0], kind), ValuesFields(vs[1..][..i - 1], kind), ValueFields(vs[i], kind));
    }
  }

  method WriteValue(packet: MtpPacket, v: Value, kind: uint16)
    requires packet.Valid() && WellTyped(v, kind)
    requires packet.offset <= packet.packetSize && packet.ahead == []
    modifies packet, packet.buffer
    ensures packet.Valid() && packet.ahead == [] && packet.Wrote(ValueFields(v, kind))
  {
    var e := Element(kind);
    if 1 <= e <= 2 {
      packet.PutUInt8(Unsigned(v.n, 0x100));
    } else if 3 <= e <= 4 {
      packet.PutUInt16(Unsigned(v.n, 0x1_0000));
    } else if 5 <= e <= 6 {
      packet.PutUInt32(Unsigned(v.n, 0x1_0000_0000));
    } else if 7 <= e <= 8 {
      packet.PutUInt64(Unsigned(v.n, 0x1_0000_0000_0000_0000));
    } else if e == TYPE_INT128 || e == TYPE_UINT128 {
      var r := 0x1_0000_0000;
      packet.PutFields([U32(Unsigned(v.w0, r)), U32(Unsigned(v.w1, r)), U32(Unsigned(v.w2, r)),
                        U32(Unsigned(v.w3, r))]);
    } else if e == TYPE_STR {
      if v.s.Some? {
        PutString(packet, v.s.value);
      } else {
        packet.PutUInt8(0);
      }
    }
  }

  method ReadValue(packet: MtpPacket, kind: uint16, ghost sent: Value, ghost rest: seq<Field>) returns (v: Value)
    requires packet.Valid() && WellTyped(sent, kind) && packet.ahead == ValueFields(sent, kind) + rest
    modifies packet`offset, packet`fields, packet`ahead
    ensures packet.Valid() && packet.ahead == rest && packet.End() == old(packet.End()) && v == Back(sent)
  {
    v := Nothing;
    var e := Element(kind);
    if 1 <= e <= 8 {
      var n := ReadInt(packet, e, sent.n, rest);
      v := Int(n);
    } else if e == TYPE_INT128 || e == TYPE_UINT128 {
      v := ReadWords(packet, kind, sent, rest);
    } else if e == TYPE_STR {
      v := ReadStr(packet, if sent.s.Some? then sent.s.value else [], rest);
    } else {
      assert [] + rest == rest;
    }
  }

  method ReadInt(packet: MtpPacket, e: uint16, ghost sent: int, ghost rest: seq<Field>) returns (n: int)
    requires packet.Valid() && 1 <= e <= 8 && Fits(sent, Range(e), Signed(e))
    requires packet.ahead == [IntField(Unsigned(sent, Range(e)), e)] + rest
    modifies packet`offset, packet`fields, packet`ahead
    ensures packet.Valid() && packet.ahead == rest && packet.End() == old(packet.End()) && n == sent
  {
    TwosComplement(sent, Range(e), Signed(e));
    assert ([IntField(Unsigned(sent, Range(e)), e)] + rest)[1..] == rest;
    var u: nat;
    if e <= 2 {
      u := packet.GetUInt8();
    } else if e <= 4 {
      u := packet.GetUInt16();
    } else if e <= 6 {
      u := packet.GetUInt32();
    } else {
      u := packet.GetUInt64();
    }
    n := FromUnsigned(u, Range(e), Signed(e));
  }

  method ReadStr(packet: MtpPacket, ghost sent: Name, ghost rest: seq<Field>) returns (v: Value)
    requires packet.Valid() && |Units(sent)| <= 254 && packet.ahead == Sent(Units(sent)) + rest
    modifies packet`offset, packet`fields, packet`ahead
    ensures packet.Valid() && packet.ahead == rest && packet.End() == old(packet.End()) && v == Str(Some(sent))
  {
    ghost var units := Units(sent);
    SentIsReceived(units);
    Utf8NoZero(units);
    TextOfTerminated(units);
    var s := GetString(packet, Terminated(units), rest);
    v := Str(Some(s));
  }

  method ReadWords(packet: MtpPacket, kind: uint16, ghost sent: Value, ghost rest: seq<Field>) returns (v: Value)
    requires Element(kind) == TYPE_INT128 || Element(kind) == TYPE_UINT128
    requires packet.Valid() && WellTyped(sent, kind) && packet.ahead == ValueFields(sent, kind) + rest
    modifies packet`offset, packet`fields, packet`ahead
    ensures packet.Valid() && packet.ahead == rest && packet.End() == old(packet.End()) && v == sent
  {
    var f := packet.GetFields([4, 4, 4, 4], ValueFields(sent, kind), rest);
    var r, s := 0x1_0000_0000, Signed(Element(kind));
    TwosComplement(sent.w0, r, s);
    TwosComplement(sent.w1, r, s);
    TwosComplement(sent.w2, r, s);
    TwosComplement(sent.w3, r, s);
    v := Words(FromUnsigned(f[0].u32, r, s), FromUnsigned(f[1].u32, r, s), FromUnsigned(f[2].u32, r, s),
               FromUnsigned(f[3].u32, r, s));
  }

  method WriteValues(packet: MtpPacket, vs: seq<Value>, kind: uint16)
    requires packet.Valid() && AllTyped(vs, kind)
    requires packet.offset <= packet.packetSize && packet.ahead == []
    modifies packet, packet.buffer
    ensures packet.Valid() && packet.ahead == [] && packet.Wrote(ValuesFields(vs, kind))
  {
    for i := 0 to |vs|
      invariant packet.Valid() && packet.ahead == [] && packet.Advanced() && AllTyped(vs[..i], kind)
      invariant packet.fields == old(packet.fields) + ValuesFields(vs[..i], kind)
    {
      ValuesSnoc(vs, i, kind);
      WriteValue(packet, vs[i], kind);
      Assoc(old(packet.fields), ValuesFields(vs[..i], kind), ValueFields(vs[i], kind));
    }
    assert vs[..|vs|] == vs;
  }

  method ReadValues(packet: MtpPacket, count: nat, kind: uint16, ghost sent: seq<Value>, ghost rest: seq<Field>)
    returns (vs: seq<Value>)
    requires packet.Valid() && AllTyped(sent, kind) && count == |sent|
    requires packet.ahead == ValuesFields(sent, kind) + rest
    modifies packet`offset, packet`fields, packet`ahead
    ensures packet.Valid() && packet.ahead == rest && packet.End() == old(packet.End()) && vs == Backs(sent)
  {
    vs := [];
    assert sent[0..] == sent;
    for i := 0 to count
      invariant AllTyped(sent[i..], kind)
      invariant packet.Valid() && packet.ahead == ValuesFields(sent[i..], kind) + rest
      invariant packet.End() == old(packet.End()) && vs == Backs(sent)[..i]
    {
      ValuesHead(sent, i, kind, rest);
      var v := ReadValue(packet, kind, sent[i], ValuesFields(sent[i + 1..], kind) + rest);
      BacksSnoc(sent, i);
      vs := vs + [v];
    }
    assert [] + rest == rest && Backs(sent)[..count] == Backs(sent);
  }

  lemma BacksSnoc(vs: seq<Value>, i: nat)
    requires i < |vs|
    ensures Backs(vs)[..i + 1] == Backs(vs)[..i] + [Back(vs[i])]
  {
  }

  lemma ValuesHead(vs: seq<Value>, i: nat, kind: uint16, rest: seq<Field>)
    requires i < |vs| && AllTyped(vs[i..], kind)
    ensures AllTyped(vs[i + 1..], kind) && WellTyped(vs[i], kind)
    ensures ValuesFields(vs[i..], kind) + rest == ValueFields(vs[i], kind) + (ValuesFields(vs[i + 1..], kind) + rest)
  {
    assert vs[i..][0] == vs[i] && vs[i..][1..] == vs[i + 1..];
    Assoc(ValueFields(vs[i], kind), ValuesFields(vs[i + 1..], kind), rest);
  }

  // ---- Descriptions ----

  datatype Property = Property(
    code: uint16, kind: uint16, writeable: bool,
    defaultValue: Value, currentValue: Value, defaultArray: seq<Value>, currentArray: seq<Value>,
    group: uint32, form: uint8, minimum: Value, maximum: Value, step: Value, enumeration: seq<Value>)

  /** The state of a freshly constructed description. */
  const BLANK: Property :=
    Property(0, 0, false, Nothing, Nothing, [], [], 0, FORM_NONE, Nothing, Nothing, Nothing, [])

  predicate IsDevice(code: uint16) { code / 0x1000 == 0x5 || code / 0x800 == 0x1A }

  /** Every value that is sent has the property's type, and every count fits its field. */
  predicate WellFormed(p: Property) {
    && (if IsArray(p.kind) then
          AllTyped(p.defaultArray, p.kind) && AllTyped(p.currentArray, p.kind) &&
          |p.defaultArray| < 0x1_0000_0000 && |p.currentArray| < 0x1_0000_0000
        else WellTyped(p.defaultValue, p.kind) && WellTyped(p.currentValue, p.kind))
    && (p.form == FORM_RANGE ==> AllTyped([p.minimum, p.maximum, p.step], p.kind))
    && (p.form == FORM_ENUM ==> AllTyped(p.enumeration, p.kind) && |p.enumeration| < 0x1_0000)
  }

  /** A default or current value: one value, or a counted array. */
  function Datum(p: Property, value: Value, values: seq<Value>): seq<Field>
    requires if IsArray(p.kind) then AllTyped(values, p.kind) && |values| < 0x1_0000_0000 else WellTyped(value, p.kind)
  {
    if IsArray(p.kind) then [U32(|values|)] + ValuesFields(values, p.kind) else ValueFields(value, p.kind)
  }

  function HeadFields(p: Property): seq<Field> {
    [U16(p.code), U16(p.kind), U8(if p.writeable then 1 else 0)]
  }

  /** The default value and, for a device property, the current one. */
  function DataFields(p: Property): seq<Field>
    requires WellFormed(p)
  {
    Datum(p, p.defaultValue, p.defaultArray) +
      (if IsDevice(p.code) then Datum(p, p.currentValue, p.currentArray) else [])
  }

  function FormFields(p: Property): seq<Field>
    requires WellFormed(p)
  {
    if p.form == FORM_RANGE then ValuesFields([p.minimum, p.maximum, p.step], p.kind)
    else if p.form == FORM_ENUM then [U16(|p.enumeration|)] + ValuesFields(p.enumeration, p.kind)
    else []
  }

  /** What the writer sends: always the group code, the form flag only for object properties. */
  function WrittenFields(p: Property): seq<Field>
    requires WellFormed(p)
  {
    HeadFields(p) + (DataFields(p) +
                     (([U32(p.group)] + (if IsDevice(p.code) then [] else [U8(p.form)])) + FormFields(p)))
  }

  /** What the reader expects: the group code only for object properties, always the form flag. */
  function ReadableFields(p: Property): seq<Field>
    requires WellFormed(p)
  {
    HeadFields(p) + (DataFields(p) +
                     (((if IsDevice(p.code) then [] else [U32(p.group)]) + [U8(p.form)]) + FormFields(p)))
  }

  /** Writer and reader agree on the bytes of a description exactly when it is one of an
      object property; for a device property they differ by three bytes. */
  lemma WriterAndReaderAgreeExactly(p: Property)
    requires WellFormed(p)
    ensures !IsDevice(p.code) <==> Encode(WrittenFields(p)) == Encode(ReadableFields(p))
    ensures IsDevice(p.code) ==> |Encode(WrittenFields(p))| == |Encode(ReadableFields(p))| + 3
  {
    if IsDevice(p.code) {
      var written, readable := [U32(p.group)] + [], [] + [U8(p.form)];
      EncodeConcat(HeadFields(p), DataFields(p) + (written + FormFields(p)));
      EncodeConcat(DataFields(p), written + FormFields(p));
      EncodeConcat(written, FormFields(p));
      EncodeConcat(HeadFields(p), DataFields(p) + (readable + FormFields(p)));
      EncodeConcat(DataFields(p), readable + FormFields(p));
      EncodeConcat(readable, FormFields(p));
      assert written == [U32(p.group)] && readable == [U8(p.form)];
      assert |Encode(written)| == 4 && |Encode(readable)| == 1;
    }
  }

  /** A device's synchronization partner, as an 8-bit number: three bytes too many for the
      reader. */
  lemma DeviceDescriptionFails()
    ensures var p := BLANK.(code := 0xD401, kind := TYPE_UINT8, defaultValue := Int(0), currentValue := Int(0));
            WellFormed(p) && Encode(WrittenFields(p)) != Encode(ReadableFields(p))
  {
    WriterAndReaderAgreeExactly(BLANK.(code := 0xD401, kind := TYPE_UINT8, defaultValue := Int(0),
                                       currentValue := Int(0)));
  }

  /** The fields of `p` that travel, as they come back. */
  function ComesBack(p: Property): Property {
    var a := IsArray(p.kind);
    var d := IsDevice(p.code);
    BLANK.(code := p.code, kind := p.kind, writeable := p.writeable,
           defaultValue := if a then Nothing else Back(p.defaultValue),
           defaultArray := if a then Backs(p.defaultArray) else [],
           currentValue := if d && !a then Back(p.currentValue) else Nothing,
           currentArray := if d && a then Backs(p.currentArray) else [],
           group := if d then 0 else p.group,
           form := p.form,
           minimum := if p.form == FORM_RANGE then Back(p.minimum) else Nothing,
           maximum := if p.form == FORM_RANGE then Back(p.maximum) else Nothing,
           step := if p.form == FORM_RANGE then Back(p.step) else Nothing,
           enumeration := if p.form == FORM_ENUM then Backs(p.enumeration) else [])
  }

  /** `d` with the data of `p` as it comes back. */
  ghost function DataBack(d: Property, p: Property): Property {
    var a, c := IsArray(p.kind), IsDevice(p.code);
    d.(defaultValue := if a then Nothing else Back(p.defaultValue),
       defaultArray := if a then Backs(p.defaultArray) else [],
       currentValue := if !c then d.currentValue else if a then Nothing else Back(p.currentValue),
       currentArray := if !c then d.currentArray else if a then Backs(p.currentArray) else [])
  }

  class MtpProperty {
    var data: Property

    constructor (initial: Property)
      ensures data == initial
    {
      data := initial;
    }

    method WriteDatum(packet: MtpPacket, value: Value, values: seq<Value>)
      requires packet.Valid() && packet.offset <= packet.packetSize && packet.ahead == []
      requires if IsArray(data.kind) then AllTyped(values, data.kind) && |values| < 0x1_0000_0000
               else WellTyped(value, data.kind)
      modifies packet, packet.buffer
      ensures packet.Valid() && packet.ahead == [] && packet.Wrote(Datum(data, value, values))
    {
      if IsArray(data.kind) {
        packet.PutUInt32(|values|);
        WriteValues(packet, values, data.kind);
        Assoc(old(packet.fields), [U32(|values|)], ValuesFields(values, data.kind));
      } else {
        WriteValue(packet, value, data.kind);
      }
    }

    method WriteForm(packet: MtpPacket)
      requires packet.Valid() && packet.offset <= packet.packetSize && packet.ahead == [] && WellFormed(data)
      modifies packet, packet.buffer
      ensures packet.Valid() && packet.ahead == [] && packet.Wrote(FormFields(data))
    {
      if data.form == FORM_RANGE {
        WriteValues(packet, [data.minimum, data.maximum, data.step], data.kind);
      } else if data.form == FORM_ENUM {
        packet.PutUInt16(|data.enumeration|);
        WriteValues(packet, data.enumeration, data.kind);
        Assoc(old(packet.fields), [U16(|data.enumeration|)], ValuesFields(data.enumeration, data.kind));
      }
    }

    method WriteData(packet: MtpPacket)
      requires packet.Valid() && packet.offset <= packet.packetSize && packet.ahead == [] && WellFormed(data)
      modifies packet, packet.buffer
      ensures packet.Valid() && packet.ahead == [] && packet.Wrote(DataFields(data))
    {
      WriteDatum(packet, data.defaultValue, data.defaultArray);
      if IsDevice(data.code) {
        WriteDatum(packet, data.currentValue, data.currentArray);
        Assoc(old(packet.fields), Datum(data, data.defaultValue, data.defaultArray),
              Datum(data, data.currentValue, data.currentArray));
      }
    }

    method WriteFlags(packet: MtpPacket)
      requires packet.Valid() && packet.offset <= packet.packetSize
      modifies packet, packet.buffer
      ensures packet.Valid() && packet.ahead == []
      ensures packet.Wrote([U32(data.group)] + (if IsDevice(data.code) then [] else [U8(data.form)]))
    {
      packet.PutUInt32(data.group);
      if !IsDevice(data.code) {
        packet.PutUInt8(data.form);
      }
    }

    method Write(packet: MtpPacket)
      requires packet.Valid() && packet.offset <= packet.packetSize && WellFormed(data)
      modifies packet, packet.buffer
      ensures packet.Valid() && packet.ahead == [] && packet.Wrote(WrittenFields(data))
    {
      WriteFront(packet);
      WriteFlags(packet);
      WriteForm(packet);
      Assoc4(old(packet.fields), HeadFields(data), DataFields(data),
             [U32(data.group)] + (if IsDevice(data.code) then [] else [U8(data.form)]), FormFields(data));
    }

    method WriteFront(packet: MtpPacket)
      requires packet.Valid() && packet.offset <= packet.packetSize && WellFormed(data)
      modifies packet, packet.buffer
      ensures packet.Valid() && packet.ahead == [] && packet.Advanced()
      ensures packet.fields == old(packet.fields) + HeadFields(data) + DataFields(data)
    {
      packet.PutFields([U16(data.code), U16(data.kind), U8(if data.writeable then 1 else 0)]);
      WriteData(packet);
    }

    method ReadDatum(packet: MtpPacket, ghost p: Property, ghost value: Value, ghost values: seq<Value>,
                     ghost rest: seq<Field>)
      returns (v: Value, vs: seq<Value>)
      requires packet.Valid() && data.kind == p.kind
      requires if IsArray(p.kind) then AllTyped(values, p.kind) && |values| < 0x1_0000_0000
               else WellTyped(value, p.kind)
      requires packet.ahead == Datum(p, value, values) + rest
      modifies packet`offset, packet`fields, packet`ahead
      ensures packet.Valid() && packet.ahead == rest && packet.End() == old(packet.End())
      ensures if IsArray(p.kind) then v == Nothing && vs == Backs(values) else v == Back(value) && vs == []
    {
      v, vs := Nothing, [];
      if IsArray(data.kind) {
        Assoc([U32(|values|)], ValuesFields(values, p.kind), rest);
        var length := packet.GetUInt32();
        vs := ReadValues(packet, length, data.kind, values, rest);
      } else {
        v := ReadValue(packet, data.kind, value, rest);
      }
    }

    method ReadForm(packet: MtpPacket, ghost p: Property)
      requires packet.Valid() && WellFormed(p) && data.kind == p.kind && data.form == p.form
      requires packet.ahead == FormFields(p)
      modifies this, packet`offset, packet`fields, packet`ahead
      ensures packet.Valid() && packet.ahead == [] && packet.End() == old(packet.End())
      ensures data == (if p.form == FORM_RANGE then
                       old(data).(minimum := Back(p.minimum), maximum := Back(p.maximum), step := Back(p.step))
                       else if p.form == FORM_ENUM then old(data).(enumeration := Backs(p.enumeration))
                       else old(data))
    {
      if data.form == FORM_RANGE {
        assert packet.ahead + [] == packet.ahead;
        var vs := ReadValues(packet, 3, data.kind, [p.minimum, p.maximum, p.step], []);
        data := data.(minimum := vs[0], maximum := vs[1], step := vs[2]);
      } else if data.form == FORM_ENUM {
        assert packet.ahead[1..] == ValuesFields(p.enumeration, p.kind);
        var length := packet.GetUInt16();
        assert packet.ahead + [] == packet.ahead;
        var vs := ReadValues(packet, length, data.kind, p.enumeration, []);
        data := data.(enumeration := vs);
      }
    }

    method ReadData(packet: MtpPacket, ghost p: Property, ghost rest: seq<Field>)
      requires packet.Valid() && WellFormed(p) && data.kind == p.kind && data.code == p.code
      requires packet.ahead == DataFields(p) + rest
      modifies this, packet`offset, packet`fields, packet`ahead
      ensures packet.Valid() && packet.ahead == rest && packet.End() == old(packet.End())
      ensures data == DataBack(old(data), p)
    {
      ghost var current := if IsDevice(p.code) then Datum(p, p.currentValue, p.currentArray) else [];
      Assoc(Datum(p, p.defaultValue, p.defaultArray), current, rest);
      var v, vs := ReadDatum(packet, p, p.defaultValue, p.defaultArray, current + rest);
      var w, ws := data.currentValue, data.currentArray;
      if IsDevice(data.code) {
        w, ws := ReadDatum(packet, p, p.currentValue, p.currentArray, rest);
      } else {
        assert [] + rest == rest;
      }
      data := data.(defaultValue := v, defaultArray := vs, currentValue := w, currentArray := ws);
    }

    /** Reads a description in the reader's layout, to its end. */
    method Read(packet: MtpPacket, ghost p: Property)
      requires packet.Valid() && WellFormed(p) && data == BLANK && packet.ahead == ReadableFields(p)
      modifies this, packet`offset, packet`fields, packet`ahead
      ensures packet.Valid() && packet.ahead == [] && packet.offset == old(packet.End()) && data == ComesBack(p)
    {
      ghost var flags := (if IsDevice(p.code) then [] else [U32(p.group)]) + [U8(p.form)];
      var f := packet.GetFields([2, 2, 1], HeadFields(p), DataFields(p) + (flags + FormFields(p)));
      data := data.(code := f[0].u16, kind := f[1].u16, writeable := f[2].u8 == 1);
      ReadData(packet, p, flags + FormFields(p));
      ReadFlags(packet, p, FormFields(p));
      ReadForm(packet, p);
    }

    method ReadFlags(packet: MtpPacket, ghost p: Property, ghost rest: seq<Field>)
      requires packet.Valid() && data.code == p.code
      requires packet.ahead == (if IsDevice(p.code) then [] else [U32(p.group)]) + [U8(p.form)] + rest
      modifies this, packet`offset, packet`fields, packet`ahead
      ensures packet.Valid() && packet.ahead == rest && packet.End() == old(packet.End())
      ensures data == old(data).(group := if IsDevice(p.code) then old(data).group else p.group, form := p.form)
    {
      if !IsDevice(data.code) {
        assert packet.ahead[0] == U32(p.group) && packet.ahead[1..] == [U8(p.form)] + rest;
        var group := packet.GetUInt32();
        data := data.(group := group);
      }
      assert packet.ahead == [U8(p.form)] + rest;
      var form := packet.GetUInt8();
      data := data.(form := form);
    }
  }

  /** The values that come back are those that were sent, but for null strings, which come back empty. */
  predicate AsSent(sent: seq<Value>, back: seq<Value>) {
    && |back| == |sent|
    && forall i :: 0 <= i < |sent| ==> back[i] == if sent[i] == Str(None) then Str(Some([])) else sent[i]
  }

  /** Every field of an object property's description that is sent comes back. */
  predicate SameDescription(p: Property, back: Property) {
    && back.code == p.code && back.kind == p.kind && back.writeable == p.writeable
    && back.group == p.group && back.form == p.form
    && (if IsArray(p.kind) then AsSent(p.defaultArray, back.defaultArray)
        else AsSent([p.defaultValue], [back.defaultValue]))
    && (p.form == FORM_RANGE ==> AsSent([p.minimum, p.maximum, p.step], [back.minimum, back.maximum, back.step]))
    && (p.form == FORM_ENUM ==> AsSent(p.enumeration, back.enumeration))
  }

  lemma ComesBackAsSent(p: Property)
    requires !IsDevice(p.code)
    ensures SameDescription(p, ComesBack(p))
  {
  }

  /** A description on its way: written into one packet, handed over, and read from another.
      Every well-formed description of an object property comes back, up to what its layout
      does not carry, and the cursor ends up behind it. */
  method DescriptionTravels(near: MtpPacket, far: MtpPacket, p: Property) returns (back: Property)
    requires near.Valid() && far.Valid() && near != far && near.buffer != far.buffer
    requires WellFormed(p) && !IsDevice(p.code)
    modifies near, near.buffer, far, far.buffer
    ensures near.Valid() && far.Valid() && back == ComesBack(p) && far.offset == far.packetSize
    ensures SameDescription(p, back)
  {
    WriteAlone(near, p);
    HandOver(near, far, TYPE_DATA, 0, 0);
    WriterAndReaderAgreeExactly(p);
    var read := new MtpProperty(BLANK);
    read.Read(far, p);
    back := read.data;
    ComesBackAsSent(p);
  }

  /** Writes a description as the only thing in a packet. */
  method WriteAlone(packet: MtpPacket, p: Property)
    requires packet.Valid() && WellFormed(p)
    modifies packet, packet.buffer
    ensures packet.Valid() && packet.fields == WrittenFields(p) && packet.offset == packet.packetSize
    ensures packet.buffer == old(packet.buffer) || fresh(packet.buffer)
  {
    packet.Reset();
    var written := new MtpProperty(p);
    written.Write(packet);
    assert [] + WrittenFields(p) == WrittenFields(p);
  }

  lemma Assoc4<T>(f: seq<T>, a: seq<T>, b: seq<T>, c: seq<T>, d: seq<T>)
    ensures f + a + b + c + d == f + (a + (b + (c + d)))
  {
  }
}
