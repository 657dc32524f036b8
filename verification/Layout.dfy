/** The bytes of the two messages, written out, and what a parser makes of bytes that end
    badly (Protocol Buffers encoding guide). */
module Layout {
  import opened Bytes
  import opened Wire
  import opened Streams
  import Devices
  import Configurations

  type Device = Devices.Device
  type Config = Configurations.Config

  // ---- Varints ----

  /** Groups of seven bits, the lowest first. */
  function Digits(s: seq<byte>): nat {
    if s == [] then 0 else s[0] % 0x80 + 0x80 * Digits(s[1..])
  }

  /** The place of the first byte without the continuation bit. */
  function EndOf(s: seq<byte>): (k: nat)
    ensures k <= |s|
  {
    if s == [] || s[0] < 0x80 then 0 else 1 + EndOf(s[1..])
  }

  /** Reading takes the bytes up to the first without the continuation bit, if it is there
      and comes in time, and gives the number their groups spell. */
  lemma {:induction false} VarintReads(bytes: seq<byte>, limit: nat)
    ensures var k := EndOf(bytes);
            GetVarint(bytes, limit)
            == if k < |bytes| && k < limit then Some(Chopped(Digits(bytes[..k + 1]), bytes[k + 1..])) else None
    decreases limit
  {
    var k := EndOf(bytes);
    if limit > 0 && bytes != [] {
      if bytes[0] < 0x80 {
        assert bytes[..1][1..] == [];
        assert Digits(bytes[..1]) == bytes[0];
      } else {
        VarintReads(bytes[1..], limit - 1);
        if k < |bytes| {
          assert bytes[..k + 1][1..] == bytes[1..][..k];
          assert bytes[1..][k..] == bytes[k + 1..];
        }
      }
    }
  }

  /** Writing uses as few bytes as possible, all but the last with the continuation bit. */
  lemma {:induction false} VarintWritten(v: nat)
    ensures var s := PutVarint(v);
            && Digits(s) == v && EndOf(s) == |s| - 1
            && (1 < |s| ==> s[|s| - 1] != 0)
  {
    if 0x80 <= v {
      VarintWritten(v / 0x80);
      assert PutVarint(v)[1..] == PutVarint(v / 0x80);
    }
  }

  // ---- How a parse ends ----

  lemma {:induction false} AfterRecords<M>(rs: seq<Record>, tail: seq<byte>, m: M, schema: Schema<M>)
    requires ApplyAll(m, rs, schema).ok
    ensures Parse(EncodeAll(rs) + tail, m, schema) == Parse(tail, ApplyAll(m, rs, schema).message, schema)
  {
    ParseEncoded(rs, m, schema);
    ParseConcat(EncodeAll(rs), tail, m, schema);
  }

  /** A zero tag, an end-group tag and a tag that is cut off stop the loop: the message is
      what was built so far, and its bytes did not end there. */
  lemma {:induction false} Stops<M>(rs: seq<Record>, tag: byte, rest: seq<byte>, m: M, schema: Schema<M>)
    requires ApplyAll(m, rs, schema).ok
    requires tag == 0 || (tag < 0x80 && tag % 8 == 4) || (tag >= 0x80 && rest == [])
    ensures Parse(EncodeAll(rs) + ([tag] + rest), m, schema) == Parsed(ApplyAll(m, rs, schema).message, Halted)
  {
    AfterRecords(rs, [tag] + rest, m, schema);
    var bytes := [tag] + rest;
    assert bytes[1..] == rest;
    if tag != 0 && tag < 0x80 {
      ShortTag(tag, rest);
    } else if tag == 0 {
      assert GetVarint(bytes, MAX_VARINT) == Some(Chopped(0, rest));
    } else {
      assert GetVarint(rest, MAX_VARINT - 1) == None;
    }
  }

  /** What cannot be the value behind a one-byte tag: nothing at all for a number, fewer
      bytes than a fixed value has, a length with too few bytes behind it, and a group. */
  predicate Unreadable(tag: byte, rest: seq<byte>) {
    match tag % 8
    case 0 => rest == []
    case 1 => |rest| < 8
    case 2 => rest == [] || (rest[0] < 0x80 && |rest| <= rest[0] as int)
    case 5 => |rest| < 4
    case 4 => false
    case _ => true
  }

  /** A value that cannot be read fails the parse; the message is what was built so far,
      with the field touched. */
  lemma {:induction false} Fails<M>(rs: seq<Record>, tag: byte, rest: seq<byte>, m: M, schema: Schema<M>)
    requires ApplyAll(m, rs, schema).ok && 0 < tag < 0x80 && Unreadable(tag, rest)
    ensures Parse(EncodeAll(rs) + ([tag] + rest), m, schema)
         == Parsed(schema.touch(ApplyAll(m, rs, schema).message, tag), Failed)
  {
    AfterRecords(rs, [tag] + rest, m, schema);
    ShortTag(tag, rest);
    if tag % 8 == 2 && rest != [] {
      assert GetVarint(rest, MAX_VARINT) == Some(Chopped(rest[0], rest[1..]));
    }
    assert ReadBody(tag, rest) == Malformed;
  }

  /** A record that the message refuses fails the parse. */
  lemma {:induction false} Refusal<M>(r: Record, rest: seq<byte>, m: M, schema: Schema<M>)
    requires !schema.apply(m, r).ok
    ensures Parse(Encode(r) + rest, m, schema) == Parsed(schema.apply(m, r).message, Failed)
  {
    hide ReadTag, ReadBody, Encode, EncodeBody;
    RecordRoundTrip(r, rest);
    TagNotEndGroup(r);
  }

  lemma {:induction false} Single<M>(r: Record, m: M, schema: Schema<M>)
    requires schema.apply(m, r).ok
    ensures Parse(Encode(r), m, schema) == Parsed(schema.apply(m, r).message, Complete)
  {
    ParseEncoded([r], m, schema);
    assert EncodeAll([r]) == Encode(r) + [] == Encode(r) by {
      assert [r][1..] == [];
      assert EncodeAll([]) == [];
    }
    assert ApplyAll(schema.apply(m, r).message, [r][1..], schema) == Verdict(schema.apply(m, r).message, true);
  }

  // ---- The device descriptor ----

  /** Every byte of a serialized descriptor: present fields in order with the tags 8, 16,
      26 and 34, then the unknown fields. */
  lemma DeviceBytes(d: Device)
    ensures Devices.Serialize(d)
         == (if d.vendorId.Some? then [8] + PutVarint(d.vendorId.value) else [])
            + (if d.productId.Some? then [16] + PutVarint(d.productId.value) else [])
            + (if d.serialNumber.Some? then [26] + PutVarint(|d.serialNumber.value|) + d.serialNumber.value else [])
            + (if d.path.Some? then [34] + PutVarint(|d.path.value|) + d.path.value else [])
            + EncodeAll(d.unknown)
  {
    hide PutVarint, EncodeAll, Devices.Serialize;
    Devices.SerializedFields(d);
  }

  /** Numbers are cut down to 32 bits, and a record that is no field of the descriptor, of
      whatever type and number, is kept as it is. */
  lemma DeviceTakes(v: uint64, r: Record)
    requires TagOf(r) !in {8, 16, 26, 34}
    ensures Devices.ParseDevice([8] + PutVarint(v))
         == Parsed(Devices.NO_DEVICE.(vendorId := Some(v % 0x1_0000_0000)), Complete)
    ensures Devices.ParseDevice([16] + PutVarint(v))
         == Parsed(Devices.NO_DEVICE.(productId := Some(v % 0x1_0000_0000)), Complete)
    ensures Devices.ParseDevice(Encode(r)) == Parsed(Devices.NO_DEVICE.(unknown := [r]), Complete)
  {
    hide Encode, Parse, ApplyAll;
    EncodeVarintField(1, v);
    EncodeVarintField(2, v);
    Single(VarintField(1, v), Devices.NO_DEVICE, Devices.SCHEMA);
    Single(VarintField(2, v), Devices.NO_DEVICE, Devices.SCHEMA);
    Devices.ApplyUnknown(Devices.NO_DEVICE, r);
    Single(r, Devices.NO_DEVICE, Devices.SCHEMA);
    assert [] + [r] == [r];
  }

  /** A string that is cut off fails the parse and leaves the field present and empty. */
  lemma DeviceCut()
    ensures Devices.ParseDevice([26]) == Parsed(Devices.NO_DEVICE.(serialNumber := Some([])), Failed)
    ensures Devices.ParseDevice([34]) == Parsed(Devices.NO_DEVICE.(path := Some([])), Failed)
    ensures Devices.ParseDevice([8]) == Parsed(Devices.NO_DEVICE, Failed)
  {
    hide Parse;
    var none: seq<Record> := [];
    assert ApplyAll(Devices.NO_DEVICE, none, Devices.SCHEMA) == Verdict(Devices.NO_DEVICE, true);
    assert EncodeAll(none) == [];
    Fails(none, 26, [], Devices.NO_DEVICE, Devices.SCHEMA);
    Fails(none, 34, [], Devices.NO_DEVICE, Devices.SCHEMA);
    Fails(none, 8, [], Devices.NO_DEVICE, Devices.SCHEMA);
    assert [] + ([26] + []) == [26] && [] + ([34] + []) == [34] && [] + ([8] + []) == [8];
  }

  /** Of two descriptors in a row the later fields win, one by one; unknown fields are all
      kept. */
  lemma DeviceLaterWins(a: Device, b: Device)
    requires forall r <- a.unknown + b.unknown :: TagOf(r) !in {8, 16, 26, 34}
    ensures var p := Devices.ParseDevice(Devices.Serialize(a) + Devices.Serialize(b)); var d := p.message;
            && p.ending.Complete?
            && d.vendorId == (if b.vendorId.Some? then b.vendorId else a.vendorId)
            && d.productId == (if b.productId.Some? then b.productId else a.productId)
            && d.serialNumber == (if b.serialNumber.Some? then b.serialNumber else a.serialNumber)
            && d.path == (if b.path.Some? then b.path else a.path)
            && d.unknown == a.unknown + b.unknown
  {
    hide Devices.ParseDevice, Devices.Serialize;
    Devices.SerializedMerge(a, b);
  }

  // ---- The configuration ----

  /** Length-delimited values under one tag, one after the other. */
  function Delimited(tag: byte, values: seq<seq<byte>>): seq<byte> {
    if values == [] then [] else [tag] + PutVarint(|values[0]|) + values[0] + Delimited(tag, values[1..])
  }

  lemma {:induction false} TextsDelimited(number: nat, urls: seq<Text>)
    requires 0 < number < 16
    ensures EncodeAll(Configurations.Texts(number, urls)) == Delimited(number * 8 + 2, urls)
  {
    if urls != [] {
      hide PutVarint, EncodeAll, Configurations.Texts;
      Configurations.TextsFirst(number, urls);
      TextsDelimited(number, urls[1..]);
    } else {
      assert EncodeAll([]) == [];
    }
  }

  function DeviceStrings(ds: seq<Device>): seq<seq<byte>> {
    if ds == [] then [] else [Devices.Serialize(ds[0])] + DeviceStrings(ds[1..])
  }

  lemma {:induction false} DevicesDelimited(ds: seq<Device>)
    requires forall d <- ds :: |Devices.Serialize(d)| < 0x8000_0000
    ensures EncodeAll(Configurations.DeviceRecords(ds)) == Delimited(34, DeviceStrings(ds))
  {
    if ds != [] {
      hide PutVarint, EncodeAll, Configurations.DeviceRecords, Devices.Serialize;
      Configurations.DevicesFirst(ds);
      DevicesDelimited(ds[1..]);
      assert DeviceStrings(ds)[1..] == DeviceStrings(ds[1..]);
    } else {
      assert EncodeAll([]) == [];
    }
  }

  /** Every byte of a serialized configuration: white and black list under the tags 10 and
      18, the wire protocol under 26, the devices under 34, the date under 40, and then the
      unknown fields. */
  lemma {:induction false} ConfigBytes(c: Config)
    requires Configurations.Fits(c)
    ensures Configurations.SerializeConfig(c)
         == Delimited(10, c.whitelistUrls) + Delimited(18, c.blacklistUrls)
            + (if c.wireProtocol.Some? then Delimited(26, [EncodeAll(c.wireProtocol.value)]) else [])
            + Delimited(34, DeviceStrings(c.knownDevices))
            + (if c.validUntil.Some? then [40] + PutVarint(c.validUntil.value) else [])
            + EncodeAll(c.unknown)
  {
    hide PutVarint, EncodeAll, Configurations.SerializeConfig, Configurations.Texts, Configurations.DeviceRecords,
      Devices.Serialize;
    Configurations.SerializedParts(c);
    TextsDelimited(1, c.whitelistUrls);
    TextsDelimited(2, c.blacklistUrls);
    DevicesDelimited(c.knownDevices);
    NumberEncoded(5, c.validUntil);
    ProtocolDelimited(c.wireProtocol);
  }

  lemma ProtocolDelimited(o: Option<Configurations.FileSet>)
    requires |EncodeAll(Configurations.FilesOf(o))| < 0x8000_0000
    ensures EncodeAll(Configurations.FileRecord(o))
         == if o.Some? then Delimited(26, [EncodeAll(o.value)]) else []
  {
    hide PutVarint, EncodeAll;
    EncodeNothing();
    if o.Some? {
      var text: Text := EncodeAll(o.value);
      assert Configurations.FileRecord(o) == TextRecord(3, Some(text));
      TextEncoded(3, Some(text));
      assert [EncodeAll(o.value)][1..] == [];
      assert Delimited(26, []) == [];
      assert [26] + PutVarint(|text|) + text + [] == [26] + PutVarint(|text|) + text;
    }
  }

  /** The date is cut down to 32 bits, and a record that is no field of the configuration
      is kept as it is. */
  lemma ConfigTakes(v: uint64, r: Record)
    requires TagOf(r) !in {10, 18, 26, 34, 40}
    ensures Configurations.ParseConfig([40] + PutVarint(v))
         == Parsed(Configurations.NO_CONFIG.(validUntil := Some(v % 0x1_0000_0000)), Complete)
    ensures Configurations.ParseConfig(Encode(r)) == Parsed(Configurations.NO_CONFIG.(unknown := [r]), Complete)
  {
    hide Encode, Parse, ApplyAll;
    EncodeVarintField(5, v);
    Single(VarintField(5, v), Configurations.NO_CONFIG, Configurations.SCHEMA);
    Single(r, Configurations.NO_CONFIG, Configurations.SCHEMA);
    assert [] + [r] == [r];
  }

  /** A value that is cut off fails the parse; a list or a device that was to get an
      element has an empty one, the wire protocol is present and empty, and the date is
      absent. */
  lemma ConfigCut()
    ensures Configurations.ParseConfig([10]) == Parsed(Configurations.NO_CONFIG.(whitelistUrls := [[]]), Failed)
    ensures Configurations.ParseConfig([18]) == Parsed(Configurations.NO_CONFIG.(blacklistUrls := [[]]), Failed)
    ensures Configurations.ParseConfig([26]) == Parsed(Configurations.NO_CONFIG.(wireProtocol := Some([])), Failed)
    ensures Configurations.ParseConfig([34])
         == Parsed(Configurations.NO_CONFIG.(knownDevices := [Devices.NO_DEVICE]), Failed)
    ensures Configurations.ParseConfig([40]) == Parsed(Configurations.NO_CONFIG, Failed)
  {
    hide Parse;
    var none: seq<Text>, empty: Text := [], [];
    assert none + [empty] == [empty] && [] + [Devices.NO_DEVICE] == [Devices.NO_DEVICE];
    CutField(10);
    CutField(18);
    CutField(26);
    CutField(34);
    CutField(40);
  }

  lemma CutField(tag: byte)
    requires tag in {10, 18, 26, 34, 40}
    ensures Configurations.ParseConfig([tag])
         == Parsed(Configurations.Touch(Configurations.NO_CONFIG, tag), Failed)
  {
    hide Parse, Configurations.Touch, Configurations.Apply;
    var none: seq<Record> := [];
    assert ApplyAll(Configurations.NO_CONFIG, none, Configurations.SCHEMA) == Verdict(Configurations.NO_CONFIG, true);
    assert EncodeAll(none) == [];
    Fails(none, tag, [], Configurations.NO_CONFIG, Configurations.SCHEMA);
    assert [] + ([tag] + []) == [tag];
  }

  /** A nested message must end with its bytes: if it stops early or cannot be read, the
      whole parse fails, and what was read of it stays behind. */
  lemma {:induction false} NestedMustEnd(nested: seq<byte>, rest: seq<byte>)
    requires |nested| < 0x8000_0000
    ensures !Devices.ParseDevice(nested).ending.Complete? ==>
              Configurations.ParseConfig(Encode(LengthField(4, nested)) + rest)
              == Parsed(Configurations.NO_CONFIG.(knownDevices := [Devices.ParseDevice(nested).message]), Failed)
    ensures !Parse(nested, [], Configurations.FILE_SCHEMA).ending.Complete? ==>
              Configurations.ParseConfig(Encode(LengthField(3, nested)) + rest)
              == Parsed(Configurations.NO_CONFIG.(
                          wireProtocol := Some(Parse(nested, [], Configurations.FILE_SCHEMA).message)), Failed)
  {
    hide Encode, Parse, Devices.ParseDevice;
    assert [] + [Devices.ParseDevice(nested).message] == [Devices.ParseDevice(nested).message];
    if !Devices.ParseDevice(nested).ending.Complete? {
      Refusal(LengthField(4, nested), rest, Configurations.NO_CONFIG, Configurations.SCHEMA);
    }
    if !Parse(nested, [], Configurations.FILE_SCHEMA).ending.Complete? {
      Refusal(LengthField(3, nested), rest, Configurations.NO_CONFIG, Configurations.SCHEMA);
    }
  }

  /** Of two configurations in a row the later date wins; lists and devices are joined, and
      so are the records of the wire protocols. */
  lemma ConfigLaterWins(a: Config, b: Config)
    requires Configurations.Fits(a) && Configurations.Fits(b)
    requires Configurations.Faithful(a) && Configurations.Faithful(b)
    ensures var p := Configurations.ParseConfig(Configurations.SerializeConfig(a) + Configurations.SerializeConfig(b));
            var c := p.message;
            && p.ending.Complete?
            && c.whitelistUrls == a.whitelistUrls + b.whitelistUrls
            && c.blacklistUrls == a.blacklistUrls + b.blacklistUrls
            && c.knownDevices == a.knownDevices + b.knownDevices
            && c.validUntil == (if b.validUntil.Some? then b.validUntil else a.validUntil)
            && c.wireProtocol == (if a.wireProtocol.Some? && b.wireProtocol.Some?
                                  then Some(a.wireProtocol.value + b.wireProtocol.value)
                                  else if b.wireProtocol.Some? then b.wireProtocol else a.wireProtocol)
            && c.unknown == a.unknown + b.unknown
  {
    hide Configurations.ParseConfig, Configurations.SerializeConfig, Configurations.Faithful;
    Configurations.SerializedMerge(a, b);
    if b.wireProtocol.Some? {
      assert [] + b.wireProtocol.value == b.wireProtocol.value;
    }
  }
}
