/** The DeviceDescriptor message: its value, its wire format, and the generated class
    with presence bits. */
module Devices {
  import opened Bytes
  import opened Wire
  import opened Streams
  import opened PresenceBits

  datatype Device = Device(
    vendorId: Option<uint32>,
    productId: Option<uint32>,
    serialNumber: Option<Text>,
    path: Option<Text>,
    unknown: seq<Record>)

  const NO_DEVICE := Device(None, None, None, None, [])

  const VENDOR_TAG: byte := 8
  const PRODUCT_TAG: byte := 16
  const SERIAL_TAG: byte := 26
  const PATH_TAG: byte := 34

  // ---- The wire format, on values ----

  function TextOf(o: Option<Text>): Text { if o.Some? then o.value else [] }

  function Apply(d: Device, r: Record): Verdict<Device> {
    Verdict(match r
            case VarintField(1, v) => d.(vendorId := Some(v % 0x1_0000_0000))
            case VarintField(2, v) => d.(productId := Some(v % 0x1_0000_0000))
            case LengthField(3, s) => d.(serialNumber := Some(s))
            case LengthField(4, s) => d.(path := Some(s))
            case _ => d.(unknown := d.unknown + [r]), true)
  }

  /** A string that cannot be read is marked present all the same, with what it held. */
  function Touch(d: Device, tag: uint32): Device {
    if tag == SERIAL_TAG then d.(serialNumber := Some(TextOf(d.serialNumber)))
    else if tag == PATH_TAG then d.(path := Some(TextOf(d.path)))
    else d
  }

  const SCHEMA: Schema<Device> := Schema(Apply, Touch)

  predicate IsUnknown(r: Record) {
    TagOf(r) != VENDOR_TAG && TagOf(r) != PRODUCT_TAG && TagOf(r) != SERIAL_TAG && TagOf(r) != PATH_TAG
  }

  function KnownRecords(d: Device): seq<Record> {
    NumberRecord(1, d.vendorId) + NumberRecord(2, d.productId) + TextRecord(3, d.serialNumber) + TextRecord(4, d.path)
  }

  function Serialize(d: Device): seq<byte> {
    EncodeAll(KnownRecords(d) + d.unknown)
  }

  function Merge(a: Device, b: Device): Device {
    Device(Last(a.vendorId, b.vendorId), Last(a.productId, b.productId),
           Last(a.serialNumber, b.serialNumber), Last(a.path, b.path), a.unknown + b.unknown)
  }

  function ParseDevice(bytes: seq<byte>): Parsed<Device> { Parse(bytes, NO_DEVICE, SCHEMA) }

  lemma {:induction false} MergeRespects()
    ensures Respects(Merge, SCHEMA)
  {
    forall a, b, r
      ensures var early, late := SCHEMA.apply(Merge(a, b), r), SCHEMA.apply(b, r);
              early.ok == late.ok && (late.ok ==> early.message == Merge(a, late.message))
    {
      ApplyMerges(a, b, r);
    }
  }

  lemma ApplyMerges(a: Device, b: Device, r: Record)
    ensures var early, late := SCHEMA.apply(Merge(a, b), r), SCHEMA.apply(b, r);
            early.ok == late.ok && (late.ok ==> early.message == Merge(a, late.message))
  {
    if IsUnknown(r) {
      ApplyUnknown(Merge(a, b), r);
      ApplyUnknown(b, r);
      assert a.unknown + b.unknown + [r] == a.unknown + (b.unknown + [r]);
    }
  }

  lemma ApplyUnknown(d: Device, r: Record)
    requires IsUnknown(r)
    ensures Apply(d, r) == Verdict(d.(unknown := d.unknown + [r]), true)
  {
  }

  lemma ApplyKeepsUnknown(d: Device, r: Record)
    requires !IsUnknown(r)
    ensures Apply(d, r).ok && Apply(d, r).message.unknown == d.unknown
  {
  }

  lemma MergeUnits(d: Device)
    ensures Merge(NO_DEVICE, d) == Merge(d, NO_DEVICE) == d
  {
    assert [] + d.unknown == d.unknown + [] == d.unknown;
  }

  /** Parsing one byte string after another is merging what they parse to, for all byte
      strings of which the first ends between two fields. */
  lemma {:induction false} ConcatenationMerges(x: seq<byte>, y: seq<byte>)
    requires ParseDevice(x).ending.Complete? && !ParseDevice(y).ending.Failed?
    ensures ParseDevice(x + y) == Parsed(Merge(ParseDevice(x).message, ParseDevice(y).message), ParseDevice(y).ending)
  {
    var a := ParseDevice(x).message;
    ParseConcat(x, y, NO_DEVICE, SCHEMA);
    MergeRespects();
    MergeUnits(a);
    ParseMerges(y, a, NO_DEVICE, Merge, SCHEMA);
  }

  function Unknowns(rs: seq<Record>): (s: seq<Record>)
    ensures |s| <= |rs|
    ensures s == rs <==> forall r <- rs :: IsUnknown(r)
  {
    if rs == [] then []
    else
      var later := Unknowns(rs[1..]);
      if IsUnknown(rs[0]) then [rs[0]] + later else later
  }

  lemma {:induction false} ApplyUnknowns(d: Device, rs: seq<Record>)
    ensures var v := ApplyAll(d, rs, SCHEMA);
            v.ok && v.message.unknown == d.unknown + Unknowns(rs)
    decreases |rs|
  {
    if rs != [] {
      if IsUnknown(rs[0]) { ApplyUnknown(d, rs[0]); } else { ApplyKeepsUnknown(d, rs[0]); }
      hide Apply, IsUnknown;
      ApplyUnknowns(Apply(d, rs[0]).message, rs[1..]);
    }
  }

  lemma {:induction false} ApplyAllUnknown(d: Device, rs: seq<Record>)
    requires forall r <- rs :: IsUnknown(r)
    ensures ApplyAll(d, rs, SCHEMA) == Verdict(d.(unknown := d.unknown + rs), true)
    decreases |rs|
  {
    if rs != [] {
      ApplyUnknown(d, rs[0]);
      hide Apply, IsUnknown;
      ApplyAllUnknown(Apply(d, rs[0]).message, rs[1..]);
      assert d.unknown + [rs[0]] + rs[1..] == d.unknown + rs;
    } else {
      assert d.unknown + [] == d.unknown;
    }
  }

  lemma ApplyKnown(d: Device)
    ensures ApplyAll(NO_DEVICE, KnownRecords(d), SCHEMA) == Verdict(d.(unknown := []), true)
  {
    var a, b, c, e := NumberRecord(1, d.vendorId), NumberRecord(2, d.productId), TextRecord(3, d.serialNumber),
        TextRecord(4, d.path);
    hide Apply, NumberRecord, TextRecord;
    var d1 := NO_DEVICE.(vendorId := d.vendorId);
    var d2 := d1.(productId := d.productId);
    var d3 := d2.(serialNumber := d.serialNumber);
    ApplyOpt(NO_DEVICE, a);
    ApplyOpt(d1, b);
    ApplyOpt(d2, c);
    ApplyOpt(d3, e);
    ApplyAllSplit(NO_DEVICE, a, b, SCHEMA);
    ApplyAllSplit(NO_DEVICE, a + b, c, SCHEMA);
    ApplyAllSplit(NO_DEVICE, a + b + c, e, SCHEMA);
  }

  lemma ApplyOpt(d: Device, rs: seq<Record>)
    requires |rs| <= 1
    ensures ApplyAll(d, rs, SCHEMA) == Verdict(if rs == [] then d else Apply(d, rs[0]).message, true)
  {
  }

  /** Parsing what was serialized gives back the message, exactly when none of its unknown
      fields is one that the parser knows. */
  lemma {:induction false} RoundTrip(d: Device)
    ensures ParseDevice(Serialize(d)).ending.Complete?
    ensures ParseDevice(Serialize(d)).message == d <==> forall r <- d.unknown :: IsUnknown(r)
  {
    ParseEncoded(KnownRecords(d) + d.unknown, NO_DEVICE, SCHEMA);
    ApplyKnown(d);
    ApplyAllSplit(NO_DEVICE, KnownRecords(d), d.unknown, SCHEMA);
    ApplyUnknowns(d.(unknown := []), d.unknown);
    assert [] + Unknowns(d.unknown) == Unknowns(d.unknown);
    if forall r <- d.unknown :: IsUnknown(r) {
      ApplyAllUnknown(d.(unknown := []), d.unknown);
      assert [] + d.unknown == d.unknown;
    }
  }

  /** Parsing two serialized messages in a row is merging the second into the first. */
  lemma {:induction false} SerializedMerge(a: Device, b: Device)
    requires forall r <- a.unknown + b.unknown :: IsUnknown(r)
    ensures ParseDevice(Serialize(a) + Serialize(b)) == Parsed(Merge(a, b), Complete)
  {
    assert forall r <- a.unknown :: r in a.unknown + b.unknown;
    assert forall r <- b.unknown :: r in a.unknown + b.unknown;
    RoundTrip(a);
    RoundTrip(b);
    ConcatenationMerges(Serialize(a), Serialize(b));
  }

  // ---- The generated class ----

  /** The places of the fast path: reading the next tag, or in the middle of a case. */
  datatype Place = NextTag | ParseVendorId | ParseProductId | ParseSerialNumber | ParsePath

  function PlaceTag(place: Place): byte
    requires !place.NextTag?
  {
    match place
    case ParseVendorId => VENDOR_TAG
    case ParseProductId => PRODUCT_TAG
    case ParseSerialNumber => SERIAL_TAG
    case ParsePath => PATH_TAG
  }

  /** What the plain loop makes of the rest of the input, from a place on. */
  function Resume(place: Place, bytes: seq<byte>, d: Device): Parsed<Device> {
    if place.NextTag? then Parse(bytes, d, SCHEMA) else ParseTagged(PlaceTag(place), bytes, d, SCHEMA)
  }

  lemma {:induction false} ExpectedTag(tag: byte, bytes: seq<byte>, d: Device)
    requires 0 < tag < 0x80
    ensures Parse([tag] + bytes, d, SCHEMA) == ParseTagged(tag, bytes, d, SCHEMA)
  {
    ShortTag(tag, bytes);
  }

  lemma ParseNothing(d: Device)
    ensures Parse([], d, SCHEMA) == Parsed(d, Complete)
  {
  }

  /** The turns of the plain loop, for this message. */
  lemma LoopTurn(bytes: seq<byte>, d: Device)
    ensures Parse(bytes, d, SCHEMA) == match Wire.ReadTag(bytes)
                                       case AtEnd => Parsed(d, Complete)
                                       case NoTag => Parsed(d, Halted)
                                       case Tag(tag, rest) => ParseTagged(tag, rest, d, SCHEMA)
  {
  }

  lemma TaggedTurn(tag: uint32, bytes: seq<byte>, d: Device)
    requires tag > 0
    ensures ParseTagged(tag, bytes, d, SCHEMA)
         == if tag % 8 == END_GROUP then Parsed(d, Halted)
            else if ReadBody(tag, bytes).Malformed? then Parsed(Touch(d, tag), Failed)
            else Parse(ReadBody(tag, bytes).rest, Apply(d, ReadBody(tag, bytes).record).message, SCHEMA)
  {
  }

  lemma NumberBody(number: nat, bytes: seq<byte>)
    requires number == 1 || number == 2
    ensures ReadBody(number * 8, bytes) == match GetVarint(bytes, MAX_VARINT)
                                           case None => Malformed
                                           case Some(c) => Body(VarintField(number, c.value % 0x1_0000_0000_0000_0000),
                                               c.rest)
  {
  }

  lemma TextBody(number: nat, bytes: seq<byte>)
    requires number == 3 || number == 4
    ensures ReadBody(number * 8 + 2, bytes) == match ReadLength(bytes)
                                               case None => Malformed
                                               case Some((data, rest)) => Body(LengthField(number, data), rest)
  {
  }

  // The bytes of the fields, one by one.

  lemma SerializedFields(d: Device)
    ensures Serialize(d) == NumberBytes(8, d.vendorId) + NumberBytes(16, d.productId)
                            + TextBytes(26, d.serialNumber) + TextBytes(34, d.path) + EncodeAll(d.unknown)
  {
    hide PutVarint, Encode, EncodeBody, EncodeAll, NumberRecord, TextRecord, NumberBytes, TextBytes;
    var a, b, c, e := NumberRecord(1, d.vendorId), NumberRecord(2, d.productId), TextRecord(3, d.serialNumber),
        TextRecord(4, d.path);
    EncodeAllSplit(a, b);
    EncodeAllSplit(a + b, c);
    EncodeAllSplit(a + b + c, e);
    EncodeAllSplit(a + b + c + e, d.unknown);
    NumberEncoded(1, d.vendorId);
    NumberEncoded(2, d.productId);
    TextEncoded(3, d.serialNumber);
    TextEncoded(4, d.path);
  }

  // Presence bits.
  const VENDOR := 0
  const PRODUCT := 1
  const SERIAL := 2
  const PATH := 3

  class DeviceDescriptor {
    var vendorId: uint32
    var productId: uint32
    var serialNumber: Option<Text> // None is the shared empty string
    var path: Option<Text>
    var hasBits: Word
    var unknownFields: seq<Record>

    /** Presence: an absent field holds its default. */
    ghost predicate Valid()
      reads this
    {
      && (!Has(hasBits, VENDOR) ==> vendorId == 0)
      && (!Has(hasBits, PRODUCT) ==> productId == 0)
      && (!Has(hasBits, SERIAL) ==> TextOf(serialNumber) == [])
      && (!Has(hasBits, PATH) ==> TextOf(path) == [])
    }

    function Value(): Device
      reads this
    {
      Device(if Has(hasBits, VENDOR) then Some(vendorId) else None,
             if Has(hasBits, PRODUCT) then Some(productId) else None,
             if Has(hasBits, SERIAL) then Some(TextOf(serialNumber)) else None,
             if Has(hasBits, PATH) then Some(TextOf(path)) else None,
             unknownFields)
    }

    constructor ()
      ensures Valid() && Value() == NO_DEVICE
    {
      vendorId, productId, serialNumber, path, hasBits, unknownFields := 0, 0, None, None, {}, [];
    }

    // -- accessors --

    method SetVendorId(value: uint32)
      requires Valid()
      modifies this
      ensures Valid() && Value() == old(Value()).(vendorId := Some(value))
    {
      hasBits := SetBit(hasBits, VENDOR);
      vendorId := value;
    }

    method ClearVendorId()
      requires Valid()
      modifies this
      ensures Valid() && Value() == old(Value()).(vendorId := None)
    {
      vendorId := 0;
      hasBits := ClearBit(hasBits, VENDOR);
    }

    method SetProductId(value: uint32)
      requires Valid()
      modifies this
      ensures Valid() && Value() == old(Value()).(productId := Some(value))
    {
      hasBits := SetBit(hasBits, PRODUCT);
      productId := value;
    }

    method ClearProductId()
      requires Valid()
      modifies this
      ensures Valid() && Value() == old(Value()).(productId := None)
    {
      productId := 0;
      hasBits := ClearBit(hasBits, PRODUCT);
    }

    /** Marks the field present and makes it own its string, without changing it. */
    method MutableSerialNumber()
      requires Valid()
      modifies this
      ensures Valid() && serialNumber.Some? && Value() == Touch(old(Value()), SERIAL_TAG)
    {
      hasBits := SetBit(hasBits, SERIAL);
      if serialNumber.None? {
        serialNumber := Some([]);
      }
    }

    method SetSerialNumber(value: Text)
      requires Valid()
      modifies this
      ensures Valid() && Value() == old(Value()).(serialNumber := Some(value))
    {
      MutableSerialNumber();
      serialNumber := Some(value);
    }

    method ClearSerialNumber()
      requires Valid()
      modifies this
      ensures Valid() && Value() == old(Value()).(serialNumber := None)
    {
      if serialNumber.Some? {
        serialNumber := Some([]);
      }
      hasBits := ClearBit(hasBits, SERIAL);
    }

    /** Hands the owned string over, if there is one, present or not. */
    method ReleaseSerialNumber() returns (s: Option<Text>)
      requires Valid()
      modifies this
      ensures Valid() && Value() == old(Value()).(serialNumber := None)
      ensures old(Value()).serialNumber.Some? && TextOf(old(Value()).serialNumber) != [] ==>
                s == old(Value()).serialNumber
    {
      hasBits := ClearBit(hasBits, SERIAL);
      s := serialNumber;
      serialNumber := None;
    }

    method SetAllocatedSerialNumber(s: Option<Text>)
      requires Valid()
      modifies this
      ensures Valid() && Value() == old(Value()).(serialNumber := s)
    {
      hasBits := if s.Some? then SetBit(hasBits, SERIAL) else ClearBit(hasBits, SERIAL);
      serialNumber := s;
    }

    method MutablePath()
      requires Valid()
      modifies this
      ensures Valid() && path.Some? && Value() == Touch(old(Value()), PATH_TAG)
    {
      hasBits := SetBit(hasBits, PATH);
      if path.None? {
        path := Some([]);
      }
    }

    method SetPath(value: Text)
      requires Valid()
      modifies this
      ensures Valid() && Value() == old(Value()).(path := Some(value))
    {
      MutablePath();
      path := Some(value);
    }

    method ClearPath()
      requires Valid()
      modifies this
      ensures Valid() && Value() == old(Value()).(path := None)
    {
      if path.Some? {
        path := Some([]);
      }
      hasBits := ClearBit(hasBits, PATH);
    }

    method ReleasePath() returns (s: Option<Text>)
      requires Valid()
      modifies this
      ensures Valid() && Value() == old(Value()).(path := None)
      ensures old(Value()).path.Some? && TextOf(old(Value()).path) != [] ==> s == old(Value()).path
    {
      hasBits := ClearBit(hasBits, PATH);
      s := path;
      path := None;
    }

    method SetAllocatedPath(s: Option<Text>)
      requires Valid()
      modifies this
      ensures Valid() && Value() == old(Value()).(path := s)
    {
      hasBits := if s.Some? then SetBit(hasBits, PATH) else ClearBit(hasBits, PATH);
      path := s;
    }

    // -- whole messages --

    /** Resets the fields only when some bit of the group is set, and a string only when
        its own bit is; no residue stays behind all the same. */
    method Clear()
      requires Valid()
      modifies this
      ensures Valid() && Value() == NO_DEVICE
      ensures vendorId == 0 && productId == 0 && TextOf(serialNumber) == [] && TextOf(path) == [] && hasBits == {}
    {
      if AnyOfEight(hasBits, 0) {
        vendorId, productId := 0, 0;
        if Has(hasBits, SERIAL) && serialNumber.Some? {
          serialNumber := Some([]);
        }
        if Has(hasBits, PATH) && path.Some? {
          path := Some([]);
        }
      }
      hasBits, unknownFields := {}, [];
    }

    method MergeFrom(from: DeviceDescriptor)
      requires Valid() && from.Valid() && from != this
      modifies this
      ensures Valid() && Value() == Merge(old(Value()), from.Value())
    {
      if AnyOfEight(from.hasBits, 0) {
        MergeFields(from);
      }
      unknownFields := unknownFields + from.unknownFields;
    }

    method MergeFields(from: DeviceDescriptor)
      requires Valid() && from.Valid() && from != this
      modifies this
      ensures Valid() && Value() == Merge(old(Value()), from.Value().(unknown := []))
    {
      ghost var d, f := Value(), from.Value();
      if Has(from.hasBits, VENDOR) {
        SetVendorId(from.vendorId);
      }
      if Has(from.hasBits, PRODUCT) {
        SetProductId(from.productId);
      }
      assert Value() == d.(vendorId := Last(d.vendorId, f.vendorId), productId := Last(d.productId, f.productId));
      if Has(from.hasBits, SERIAL) {
        SetSerialNumber(TextOf(from.serialNumber));
      }
      if Has(from.hasBits, PATH) {
        SetPath(TextOf(from.path));
      }
      assert d.unknown + [] == d.unknown;
    }

    method CopyFrom(from: DeviceDescriptor)
      requires Valid() && from.Valid()
      modifies this
      ensures Valid() && Value() == old(from.Value())
    {
      if from == this {
        return;
      }
      Clear();
      MergeUnits(from.Value());
      MergeFrom(from);
    }

    method Swap(other: DeviceDescriptor)
      requires Valid() && other.Valid()
      modifies this, other
      ensures Valid() && other.Valid() && Value() == old(other.Value()) && other.Value() == old(Value())
    {
      if other != this {
        vendorId, other.vendorId := other.vendorId, vendorId;
        productId, other.productId := other.productId, productId;
        serialNumber, other.serialNumber := other.serialNumber, serialNumber;
        path, other.path := other.path, path;
        hasBits, other.hasBits := other.hasBits, hasBits;
        unknownFields, other.unknownFields := other.unknownFields, unknownFields;
      }
    }

    // -- parsing --

    /** One case of the switch: reads the value that belongs to the place's tag. */
    method ParseField(place: Place, input: CodedInputStream) returns (ok: bool)
      requires Valid() && !place.NextTag?
      modifies this, input`bytes
      ensures Valid()
      ensures match ReadBody(PlaceTag(place), old(input.bytes))
              case Malformed => !ok && Value() == Touch(old(Value()), PlaceTag(place))
              case Body(r, rest) => ok && input.bytes == rest && Value() == Apply(old(Value()), r).message
    {
      hide GetVarint, ReadLength, ReadBody;
      match place
      case ParseVendorId =>
        NumberBody(1, input.bytes);
        if GetVarint(input.bytes, MAX_VARINT).Some? { CutTwice(GetVarint(input.bytes, MAX_VARINT).value.value); }
        var v;
        ok, v := input.ReadUInt32();
        if ok {
          SetVendorId(v);
        }
      case ParseProductId =>
        NumberBody(2, input.bytes);
        if GetVarint(input.bytes, MAX_VARINT).Some? { CutTwice(GetVarint(input.bytes, MAX_VARINT).value.value); }
        var v;
        ok, v := input.ReadUInt32();
        if ok {
          SetProductId(v);
        }
      case ParseSerialNumber =>
        TextBody(3, input.bytes);
        MutableSerialNumber();
        var s;
        ok, s := input.ReadString();
        if ok {
          serialNumber := Some(s);
        }
      case ParsePath =>
        TextBody(4, input.bytes);
        MutablePath();
        var s;
        ok, s := input.ReadString();
        if ok {
          path := Some(s);
        }
    }

    /** The generated parser, with its jumps from one case into the next when the next
        tag is the expected one, and its early return at the end of the input. It agrees
        with the plain loop on every input, whatever the stream's two shortcuts answer. */
    method MergePartialFromCodedStream(input: CodedInputStream) returns (ok: bool)
      requires Valid()
      modifies this, input
      ensures Valid()
      ensures var p := Parse(old(input.bytes), old(Value()), SCHEMA);
              && Value() == p.message
              && (ok <==> !p.ending.Failed?)
              && (ok ==> (input.atLegitimateEnd <==> p.ending.Complete?))
    {
      hide Touch, Apply, ReadBody, Wire.ReadTag, Parse, ParseTagged, Value;
      ghost var whole := Parse(input.bytes, Value(), SCHEMA);
      var place := NextTag;
      while true
        invariant Valid()
        invariant Resume(place, input.bytes, Value()) == whole
        decreases |input.bytes|
      {
        if place.NextTag? {
          LoopTurn(input.bytes, Value());
          var tag := input.ReadTag();
          if tag == 0 {
            return true;
          }
          var number, wire := tag / 8, tag % 8;
          if number == 1 && wire == 0 {
            place := ParseVendorId;
          } else if number == 2 && wire == 0 {
            place := ParseProductId;
          } else if number == 3 && wire == 2 {
            place := ParseSerialNumber;
          } else if number == 4 && wire == 2 {
            place := ParsePath;
          } else {
            TaggedTurn(tag, input.bytes, Value());
            if wire == END_GROUP {
              return true;
            }
            ok := HandleUninterpreted(tag, input);
            if !ok {
              return;
            }
            continue;
          }
        }
        TaggedTurn(PlaceTag(place), input.bytes, Value());
        ok := ParseField(place, input);
        if !ok {
          return;
        }
        var taken;
        match place {
          case ParseVendorId =>
            taken := input.ExpectTag(16);
            place := if taken then ParseProductId else NextTag;
          case ParseProductId =>
            taken := input.ExpectTag(26);
            place := if taken then ParseSerialNumber else NextTag;
          case ParseSerialNumber =>
            taken := input.ExpectTag(34);
            place := if taken then ParsePath else NextTag;
          case ParsePath =>
            taken := input.ExpectAtEnd();
            if taken {
              ParseNothing(Value());
              return true;
            }
            place := NextTag;
        }
        if taken {
          ExpectedTag(PlaceTag(place), input.bytes, Value());
        }
      }
    }

    /** Files a field that the message does not know. */
    method HandleUninterpreted(tag: uint32, input: CodedInputStream) returns (ok: bool)
      requires Valid() && tag > 0
      requires tag != VENDOR_TAG && tag != PRODUCT_TAG && tag != SERIAL_TAG && tag != PATH_TAG
      modifies this, input`bytes
      ensures Valid()
      ensures match ReadBody(tag, old(input.bytes))
              case Malformed => !ok && Value() == Touch(old(Value()), tag)
              case Body(r, rest) => ok && input.bytes == rest && Value() == Apply(old(Value()), r).message
    {
      var r;
      ok, r := input.SkipField(tag);
      if ok {
        unknownFields := unknownFields + [r];
      }
    }

    // -- serializing --

    method SerializeWithCachedSizes(output: CodedOutputStream)
      requires Valid()
      modifies output
      ensures output.bytes == old(output.bytes) + Serialize(Value())
    {
      ghost var first, d := output.bytes, Value();
      SerializedFields(d);
      EncodeNothing();
      hide PutVarint, Serialize, EncodeAll, NumberBytes, TextBytes, Value;
      SerializeNumbers(output);
      SerializeTexts(output);
      AppendNothing(output.bytes);
      if unknownFields != [] {
        output.WriteUnknown(unknownFields);
      }
      JoinFive(first, NumberBytes(8, d.vendorId), NumberBytes(16, d.productId), TextBytes(26, d.serialNumber),
          TextBytes(34, d.path), EncodeAll(d.unknown));
    }

    method SerializeNumbers(output: CodedOutputStream)
      requires Valid()
      modifies output
      ensures output.bytes == old(output.bytes) + NumberBytes(8, Value().vendorId) + NumberBytes(16, Value().productId)
    {
      hide PutVarint;
      if Has(hasBits, VENDOR) {
        output.WriteUInt32(8, vendorId);
      }
      if Has(hasBits, PRODUCT) {
        output.WriteUInt32(16, productId);
      }
    }

    method SerializeTexts(output: CodedOutputStream)
      requires Valid()
      modifies output
      ensures output.bytes == old(output.bytes) + TextBytes(26, Value().serialNumber) + TextBytes(34, Value().path)
    {
      hide PutVarint;
      if Has(hasBits, SERIAL) {
        output.WriteString(26, TextOf(serialNumber));
      }
      if Has(hasBits, PATH) {
        output.WriteString(34, TextOf(path));
      }
    }

    method SerializeWithCachedSizesToArray(target: array<byte>, at: nat) returns (end: nat)
      requires Valid() && at + |Serialize(Value())| <= target.Length
      modifies target
      ensures end == at + |Serialize(Value())|
      ensures Wrote(old(target[..]), target[..], at, Serialize(Value()))
    {
      ghost var first, d := target[..], Value();
      assert d.unknown == unknownFields;
      SerializedFields(d);
      EncodeNothing();
      hide PutVarint, Serialize, EncodeAll, Wrote, Value, NumberBytes, TextBytes;
      ghost var done;
      end, done := NumbersToArray(target, at, first);
      end, done := TextsToArray(target, at, end, first, done);
      AppendNothing(done);
      if unknownFields != [] {
        end, done := Put(target, at, end, first, done, EncodeAll(unknownFields));
      }
    }

    method NumbersToArray(target: array<byte>, at: nat, ghost first: seq<byte>)
      returns (end: nat, ghost more: seq<byte>)
      requires Valid() && at + |NumberBytes(8, Value().vendorId) + NumberBytes(16, Value().productId)| <= target.Length
      requires target[..] == first
      modifies target
      ensures more == NumberBytes(8, Value().vendorId) + NumberBytes(16, Value().productId)
      ensures end == at + |more| && Wrote(first, target[..], at, more)
    {
      hide PutVarint, Wrote;
      WroteNothing(first, at);
      end, more := at, [];
      if Has(hasBits, VENDOR) {
        end, more := Put(target, at, end, first, more, [8] + PutVarint(vendorId));
      }
      if Has(hasBits, PRODUCT) {
        end, more := Put(target, at, end, first, more, [16] + PutVarint(productId));
      }
    }

    method TextsToArray(target: array<byte>, at: nat, from: nat, ghost first: seq<byte>, ghost done: seq<byte>)
      returns (end: nat, ghost more: seq<byte>)
      requires Valid() && from + |TextBytes(26, Value().serialNumber) + TextBytes(34, Value().path)| <= target.Length
      requires from == at + |done| && Wrote(first, target[..], at, done)
      modifies target
      ensures more == done + TextBytes(26, Value().serialNumber) + TextBytes(34, Value().path)
      ensures end == at + |more| && Wrote(first, target[..], at, more)
    {
      hide PutVarint, Wrote;
      end, more := from, done;
      if Has(hasBits, SERIAL) {
        end, more := Put(target, at, end, first, more, [26] + PutVarint(|TextOf(serialNumber)|) + TextOf(serialNumber));
      }
      if Has(hasBits, PATH) {
        end, more := Put(target, at, end, first, more, [34] + PutVarint(|TextOf(path)|) + TextOf(path));
      }
    }

    method ByteSize() returns (size: nat)
      requires Valid()
      ensures size == |Serialize(Value())|
    {
      ghost var d := Value();
      SerializedFields(d);
      EncodeNothing();
      hide PutVarint, VarintSize32, Serialize, EncodeAll;
      size := 0;
      if AnyOfEight(hasBits, 0) {
        if Has(hasBits, VENDOR) {
          VarintSize(vendorId);
          size := size + 1 + VarintSize32(vendorId);
        }
        if Has(hasBits, PRODUCT) {
          VarintSize(productId);
          size := size + 1 + VarintSize32(productId);
        }
        if Has(hasBits, SERIAL) {
          VarintSize(|TextOf(serialNumber)|);
          size := size + 1 + VarintSize32(|TextOf(serialNumber)|) + |TextOf(serialNumber)|;
        }
        if Has(hasBits, PATH) {
          VarintSize(|TextOf(path)|);
          size := size + 1 + VarintSize32(|TextOf(path)|) + |TextOf(path)|;
        }
      }
      if unknownFields != [] {
        size := size + |EncodeAll(unknownFields)|;
      }
    }
  }
}
