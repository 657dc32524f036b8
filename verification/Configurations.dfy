/** The Configuration message: repeated strings, nested device descriptors, and the wire
    protocol, a FileDescriptorSet that is kept as the sequence of its records. */
module Configurations {
  import opened Bytes
  import opened Wire
  import opened Streams
  import opened PresenceBits
  import Devices

  type Device = Devices.Device

  /** A FileDescriptorSet, opaque: its records in order. */
  type FileSet = seq<Record>

  datatype Config = Config(
    whitelistUrls: seq<Text>,
    blacklistUrls: seq<Text>,
    wireProtocol: Option<FileSet>,
    knownDevices: seq<Device>,
    validUntil: Option<uint32>,
    unknown: seq<Record>)

  const NO_CONFIG := Config([], [], None, [], None, [])

  const WHITELIST_TAG: byte := 10
  const BLACKLIST_TAG: byte := 18
  const PROTOCOL_TAG: byte := 26
  const DEVICES_TAG: byte := 34
  const VALID_TAG: byte := 40

  // ---- The wire protocol ----

  function AddFile(f: FileSet, r: Record): Verdict<FileSet> { Verdict(f + [r], true) }

  function SameFiles(f: FileSet, tag: uint32): FileSet { f }

  const FILE_SCHEMA: Schema<FileSet> := Schema(AddFile, SameFiles)

  function JoinFiles(a: FileSet, b: FileSet): FileSet { a + b }

  function FilesOf(o: Option<FileSet>): FileSet { if o.Some? then o.value else [] }

  /** Parsing onto a set appends what is parsed onto the empty one. */
  lemma FilesConcat(bytes: seq<byte>, a: FileSet, b: FileSet)
    ensures var early, late := Parse(bytes, a + b, FILE_SCHEMA), Parse(bytes, b, FILE_SCHEMA);
            early.ending == late.ending && (!late.ending.Failed? ==> early.message == a + late.message)
  {
    forall x, y, r
      ensures var early, late := FILE_SCHEMA.apply(JoinFiles(x, y), r), FILE_SCHEMA.apply(y, r);
              early.ok == late.ok && (late.ok ==> early.message == JoinFiles(x, late.message))
    {
      assert x + y + [r] == x + (y + [r]);
    }
    ParseMerges(bytes, a, b, JoinFiles, FILE_SCHEMA);
  }

  lemma {:induction false} ApplyFiles(f: FileSet, rs: seq<Record>)
    ensures ApplyAll(f, rs, FILE_SCHEMA) == Verdict(f + rs, true)
    decreases |rs|
  {
    if rs == [] {
      assert f + [] == f;
    } else {
      ApplyFiles(f + [rs[0]], rs[1..]);
      assert f + [rs[0]] + rs[1..] == f + rs;
    }
  }

  lemma FilesRoundTrip(f: FileSet)
    ensures Parse(EncodeAll(f), [], FILE_SCHEMA) == Parsed(f, Complete)
  {
    ParseEncoded(f, [], FILE_SCHEMA);
    ApplyFiles([], f);
    assert [] + f == f;
  }

  // ---- Parsing and merging, on values ----

  function AddWhitelist(c: Config, s: Text): Config { c.(whitelistUrls := c.whitelistUrls + [s]) }
  function AddBlacklist(c: Config, s: Text): Config { c.(blacklistUrls := c.blacklistUrls + [s]) }
  function AddDevice(c: Config, d: Device): Config { c.(knownDevices := c.knownDevices + [d]) }

  /** A nested message must end at the end of its bytes. */
  function Apply(c: Config, r: Record): Verdict<Config> {
    if TagOf(r) == WHITELIST_TAG then Verdict(AddWhitelist(c, r.data), true)
    else if TagOf(r) == BLACKLIST_TAG then Verdict(AddBlacklist(c, r.data), true)
    else if TagOf(r) == PROTOCOL_TAG then
      var p := Parse(r.data, FilesOf(c.wireProtocol), FILE_SCHEMA);
      Verdict(c.(wireProtocol := Some(p.message)), p.ending.Complete?)
    else if TagOf(r) == DEVICES_TAG then
      var p := Devices.ParseDevice(r.data);
      Verdict(AddDevice(c, p.message), p.ending.Complete?)
    else if TagOf(r) == VALID_TAG then Verdict(c.(validUntil := Some(r.value % 0x1_0000_0000)), true)
    else Verdict(c.(unknown := c.unknown + [r]), true)
  }

  /** What the element that was to be read leaves behind when it cannot be. */
  function Touch(c: Config, tag: uint32): Config {
    if tag == WHITELIST_TAG then AddWhitelist(c, [])
    else if tag == BLACKLIST_TAG then AddBlacklist(c, [])
    else if tag == PROTOCOL_TAG then c.(wireProtocol := Some(FilesOf(c.wireProtocol)))
    else if tag == DEVICES_TAG then AddDevice(c, Devices.NO_DEVICE)
    else c
  }

  const SCHEMA: Schema<Config> := Schema(Apply, Touch)

  function ParseConfig(bytes: seq<byte>): Parsed<Config> { Parse(bytes, NO_CONFIG, SCHEMA) }

  predicate IsUnknown(r: Record) {
    TagOf(r) != WHITELIST_TAG && TagOf(r) != BLACKLIST_TAG && TagOf(r) != PROTOCOL_TAG
    && TagOf(r) != DEVICES_TAG && TagOf(r) != VALID_TAG
  }

  function Merge(a: Config, b: Config): Config {
    Config(a.whitelistUrls + b.whitelistUrls, a.blacklistUrls + b.blacklistUrls,
           if b.wireProtocol.Some? then Some(FilesOf(a.wireProtocol) + b.wireProtocol.value) else a.wireProtocol,
           a.knownDevices + b.knownDevices, Last(a.validUntil, b.validUntil), a.unknown + b.unknown)
  }

  lemma MergeUnits(c: Config)
    ensures Merge(NO_CONFIG, c) == Merge(c, NO_CONFIG) == c
  {
    assert [] + c.whitelistUrls == c.whitelistUrls + [] == c.whitelistUrls;
    assert [] + c.blacklistUrls == c.blacklistUrls + [] == c.blacklistUrls;
    assert [] + c.knownDevices == c.knownDevices + [] == c.knownDevices;
    assert [] + c.unknown == c.unknown + [] == c.unknown;
    if c.wireProtocol.Some? {
      assert [] + c.wireProtocol.value == c.wireProtocol.value;
    }
  }

  lemma AppendAssoc<T>(a: seq<T>, b: seq<T>, x: T)
    ensures a + b + [x] == a + (b + [x])
  {
  }

  lemma ApplyMerges(a: Config, b: Config, r: Record)
    ensures var early, late := SCHEMA.apply(Merge(a, b), r), SCHEMA.apply(b, r);
            early.ok == late.ok && (late.ok ==> early.message == Merge(a, late.message))
  {
    hide Parse, Devices.ParseDevice;
    if TagOf(r) == WHITELIST_TAG {
      AppendAssoc(a.whitelistUrls, b.whitelistUrls, r.data);
    } else if TagOf(r) == BLACKLIST_TAG {
      AppendAssoc(a.blacklistUrls, b.blacklistUrls, r.data);
    } else if TagOf(r) == PROTOCOL_TAG {
      assert FilesOf(Merge(a, b).wireProtocol) == FilesOf(a.wireProtocol) + FilesOf(b.wireProtocol);
      FilesConcat(r.data, FilesOf(a.wireProtocol), FilesOf(b.wireProtocol));
    } else if TagOf(r) == DEVICES_TAG {
      AppendAssoc(a.knownDevices, b.knownDevices, Devices.ParseDevice(r.data).message);
    } else if TagOf(r) != VALID_TAG {
      AppendAssoc(a.unknown, b.unknown, r);
    }
  }

  /** Parsing one byte string after another is merging what they parse to: repeated fields
      are joined, nested devices kept apart, and the wire protocols merged into one. */
  lemma {:induction false} ConcatenationMerges(x: seq<byte>, y: seq<byte>)
    requires ParseConfig(x).ending.Complete? && !ParseConfig(y).ending.Failed?
    ensures ParseConfig(x + y) == Parsed(Merge(ParseConfig(x).message, ParseConfig(y).message), ParseConfig(y).ending)
  {
    hide Apply, Touch, Merge;
    var a := ParseConfig(x).message;
    ParseConcat(x, y, NO_CONFIG, SCHEMA);
    forall a, b, r
      ensures var early, late := SCHEMA.apply(Merge(a, b), r), SCHEMA.apply(b, r);
              early.ok == late.ok && (late.ok ==> early.message == Merge(a, late.message))
    {
      ApplyMerges(a, b, r);
    }
    MergeUnits(a);
    ParseMerges(y, a, NO_CONFIG, Merge, SCHEMA);
  }

  // ---- Serializing, on values ----

  /** Nested messages are written with an int length. */
  predicate Fits(c: Config) {
    && |EncodeAll(FilesOf(c.wireProtocol))| < 0x8000_0000
    && forall d <- c.knownDevices :: |Devices.Serialize(d)| < 0x8000_0000
  }

  function Texts(number: nat, urls: seq<Text>): seq<Record>
    requires 0 < number < 16
  {
    if urls == [] then [] else [LengthField(number, urls[0])] + Texts(number, urls[1..])
  }

  function FileRecord(o: Option<FileSet>): seq<Record>
    requires |EncodeAll(FilesOf(o))| < 0x8000_0000
  {
    if o.Some? then [LengthField(3, EncodeAll(o.value))] else []
  }

  function DeviceRecords(ds: seq<Device>): seq<Record>
    requires forall d <- ds :: |Devices.Serialize(d)| < 0x8000_0000
  {
    if ds == [] then [] else [LengthField(4, Devices.Serialize(ds[0]))] + DeviceRecords(ds[1..])
  }

  function KnownRecords(c: Config): seq<Record>
    requires Fits(c)
  {
    Texts(1, c.whitelistUrls) + Texts(2, c.blacklistUrls) + FileRecord(c.wireProtocol)
    + DeviceRecords(c.knownDevices) + NumberRecord(5, c.validUntil)
  }

  function SerializeConfig(c: Config): seq<byte>
    requires Fits(c)
  {
    EncodeAll(KnownRecords(c) + c.unknown)
  }

  // ---- Round trip ----

  function Reparsed(ds: seq<Device>): (rs: seq<Device>)
    ensures |rs| == |ds|
  {
    if ds == [] then [] else [Devices.ParseDevice(Devices.Serialize(ds[0])).message] + Reparsed(ds[1..])
  }

  lemma {:induction false} ApplyTexts(c: Config, number: nat, urls: seq<Text>)
    requires number == 1 || number == 2
    ensures ApplyAll(c, Texts(number, urls), SCHEMA)
         == Verdict(if number == 1 then c.(whitelistUrls := c.whitelistUrls + urls)
             else c.(blacklistUrls := c.blacklistUrls + urls), true)
    decreases |urls|
  {
    if urls == [] {
      assert c.whitelistUrls + [] == c.whitelistUrls && c.blacklistUrls + [] == c.blacklistUrls;
    } else {
      hide Parse, Devices.ParseDevice;
      var r: Record := LengthField(number, urls[0]);
      assert Texts(number, urls)[1..] == Texts(number, urls[1..]);
      ApplyTexts(if number == 1 then AddWhitelist(c, urls[0]) else AddBlacklist(c, urls[0]), number, urls[1..]);
      assert c.whitelistUrls + [urls[0]] + urls[1..] == c.whitelistUrls + urls;
      assert c.blacklistUrls + [urls[0]] + urls[1..] == c.blacklistUrls + urls;
    }
  }

  lemma ApplyDevice(c: Config, d: Device)
    requires |Devices.Serialize(d)| < 0x8000_0000
    ensures SCHEMA.apply(c, LengthField(4, Devices.Serialize(d)))
              == Verdict(AddDevice(c, Devices.ParseDevice(Devices.Serialize(d)).message), true)
  {
    hide Parse, Devices.ParseDevice, Devices.Serialize;
    Devices.RoundTrip(d);
  }

  lemma {:induction false} ApplyDevices(c: Config, ds: seq<Device>)
    requires forall d <- ds :: |Devices.Serialize(d)| < 0x8000_0000
    ensures ApplyAll(c, DeviceRecords(ds), SCHEMA) == Verdict(c.(knownDevices := c.knownDevices + Reparsed(ds)), true)
    decreases |ds|
  {
    hide Devices.Serialize, Devices.ParseDevice, Apply;
    if ds == [] {
      assert c.knownDevices + [] == c.knownDevices;
    } else {
      var r: Record := LengthField(4, Devices.Serialize(ds[0]));
      var d, tail := Devices.ParseDevice(Devices.Serialize(ds[0])).message, DeviceRecords(ds[1..]);
      ApplyDevice(c, ds[0]);
      ApplyAllFirst(c, r, tail, SCHEMA);
      ApplyDevices(AddDevice(c, d), ds[1..]);
      assert DeviceRecords(ds) == [r] + tail && Reparsed(ds) == [d] + Reparsed(ds[1..]);
      hide ApplyAll, Reparsed, DeviceRecords, SCHEMA;
      AppendAssocAll(c.knownDevices, d, Reparsed(ds[1..]));
    }
  }

  lemma AppendAssocAll<T>(a: seq<T>, x: T, b: seq<T>)
    ensures a + [x] + b == a + ([x] + b)
  {
  }

  lemma ApplyFileRecord(c: Config, o: Option<FileSet>)
    requires c.wireProtocol == None && |EncodeAll(FilesOf(o))| < 0x8000_0000
    ensures ApplyAll(c, FileRecord(o), SCHEMA) == Verdict(c.(wireProtocol := o), true)
  {
    hide Parse;
    if o.Some? {
      FilesRoundTrip(o.value);
      assert FileRecord(o)[1..] == [];
    }
  }

  lemma ApplyNumber(c: Config, o: Option<uint32>)
    requires c.validUntil == None
    ensures ApplyAll(c, NumberRecord(5, o), SCHEMA) == Verdict(c.(validUntil := o), true)
  {
    if o.Some? {
      assert NumberRecord(5, o)[1..] == [];
    }
  }

  lemma ApplyKnown(c: Config)
    requires Fits(c)
    ensures ApplyAll(NO_CONFIG, KnownRecords(c), SCHEMA)
              == Verdict(c.(knownDevices := Reparsed(c.knownDevices), unknown := []), true)
  {
    hide Apply, Texts, FileRecord, DeviceRecords, NumberRecord, ApplyAll, Reparsed;
    var a, b, e := Texts(1, c.whitelistUrls), Texts(2, c.blacklistUrls), FileRecord(c.wireProtocol);
    var f, g := DeviceRecords(c.knownDevices), NumberRecord(5, c.validUntil);
    var c1 := NO_CONFIG.(whitelistUrls := [] + c.whitelistUrls);
    var c2 := c1.(blacklistUrls := [] + c.blacklistUrls);
    var c3 := c2.(wireProtocol := c.wireProtocol);
    var c4 := c3.(knownDevices := [] + Reparsed(c.knownDevices));
    assert c4 == NO_CONFIG.(whitelistUrls := c.whitelistUrls, blacklistUrls := c.blacklistUrls,
                            wireProtocol := c.wireProtocol, knownDevices := Reparsed(c.knownDevices));
    ApplyTexts(NO_CONFIG, 1, c.whitelistUrls);
    ApplyTexts(c1, 2, c.blacklistUrls);
    ApplyFileRecord(c2, c.wireProtocol);
    ApplyDevices(c3, c.knownDevices);
    ApplyNumber(c4, c.validUntil);
    ApplyAllSplit(NO_CONFIG, a, b, SCHEMA);
    ApplyAllSplit(NO_CONFIG, a + b, e, SCHEMA);
    ApplyAllSplit(NO_CONFIG, a + b + e, f, SCHEMA);
    ApplyAllSplit(NO_CONFIG, a + b + e + f, g, SCHEMA);
  }

  function Unknowns(rs: seq<Record>): (s: seq<Record>)
    ensures |s| <= |rs|
    ensures |s| == |rs| <==> forall r <- rs :: IsUnknown(r)
  {
    if rs == [] then []
    else
      var later := Unknowns(rs[1..]);
      if IsUnknown(rs[0]) then [rs[0]] + later else later
  }

  lemma ApplyUnknown(c: Config, r: Record)
    ensures IsUnknown(r) ==> Apply(c, r) == Verdict(c.(unknown := c.unknown + [r]), true)
    ensures !IsUnknown(r) ==> Apply(c, r).message.unknown == c.unknown
  {
    hide Parse, Devices.ParseDevice;
  }

  lemma {:induction false} ApplyUnknowns(c: Config, rs: seq<Record>)
    ensures |ApplyAll(c, rs, SCHEMA).message.unknown| <= |c.unknown| + |Unknowns(rs)|
    ensures (forall r <- rs :: IsUnknown(r)) ==> ApplyAll(c, rs, SCHEMA) == Verdict(c.(unknown := c.unknown + rs), true)
    decreases |rs|
  {
    hide Parse, Devices.ParseDevice;
    if rs == [] {
      assert c.unknown + [] == c.unknown;
    } else {
      ApplyUnknown(c, rs[0]);
      hide Apply, IsUnknown;
      ApplyUnknowns(SCHEMA.apply(c, rs[0]).message, rs[1..]);
      assert c.unknown + [rs[0]] + rs[1..] == c.unknown + rs;
    }
  }

  lemma {:induction false} ReparsedSame(ds: seq<Device>)
    ensures Reparsed(ds) == ds <==> forall d <- ds :: Devices.ParseDevice(Devices.Serialize(d)).message == d
  {
    if ds != [] {
      hide Devices.ParseDevice, Devices.Serialize;
      ReparsedSame(ds[1..]);
      assert Reparsed(ds)[0] == Devices.ParseDevice(Devices.Serialize(ds[0])).message
          && Reparsed(ds)[1..] == Reparsed(ds[1..]);
      assert ds == [ds[0]] + ds[1..];
    }
  }

  /** The unknown fields of the message and of its devices are ones their parsers would
      themselves file as unknown. */
  predicate Faithful(c: Config) {
    && (forall r <- c.unknown :: IsUnknown(r))
    && forall d <- c.knownDevices :: forall r <- d.unknown :: Devices.IsUnknown(r)
  }

  /** Parsing what was serialized gives back the message exactly when it is faithful. */
  lemma {:induction false} RoundTrip(c: Config)
    requires Fits(c)
    ensures ParseConfig(SerializeConfig(c)) == Parsed(c, Complete) <==> Faithful(c)
  {
    hide Apply, KnownRecords, Reparsed, Parse, Devices.ParseDevice, ApplyAll, Devices.Serialize;
    var known := KnownRecords(c);
    var mid := c.(knownDevices := Reparsed(c.knownDevices), unknown := []);
    ParseEncoded(known + c.unknown, NO_CONFIG, SCHEMA);
    ApplyKnown(c);
    ApplyAllSplit(NO_CONFIG, known, c.unknown, SCHEMA);
    ApplyUnknowns(mid, c.unknown);
    ReparsedSame(c.knownDevices);
    forall d <- c.knownDevices
      ensures Devices.ParseDevice(Devices.Serialize(d)).message == d <==> forall r <- d.unknown :: Devices.IsUnknown(r)
    {
      Devices.RoundTrip(d);
    }
    assert [] + c.unknown == c.unknown;
  }

  /** Parsing two serialized messages in a row is merging the second into the first. */
  lemma {:induction false} SerializedMerge(a: Config, b: Config)
    requires Fits(a) && Fits(b) && Faithful(a) && Faithful(b)
    ensures ParseConfig(SerializeConfig(a) + SerializeConfig(b)) == Parsed(Merge(a, b), Complete)
  {
    RoundTrip(a);
    RoundTrip(b);
    ConcatenationMerges(SerializeConfig(a), SerializeConfig(b));
  }

  // ---- The bytes of the parts ----

  lemma {:induction false} TextsFirst(number: nat, urls: seq<Text>)
    requires 0 < number < 16 && urls != []
    ensures EncodeAll(Texts(number, urls))
              == TextBytes(number * 8 + 2, Some(urls[0])) + EncodeAll(Texts(number, urls[1..]))
  {
    hide Encode, PutVarint;
    EncodeTextField(number, urls[0]);
    assert Texts(number, urls)[1..] == Texts(number, urls[1..]);
  }

  lemma {:induction false} DevicesFirst(ds: seq<Device>)
    requires ds != [] && forall d <- ds :: |Devices.Serialize(d)| < 0x8000_0000
    ensures EncodeAll(DeviceRecords(ds)) == TextBytes(34, Some(Devices.Serialize(ds[0])))
              + EncodeAll(DeviceRecords(ds[1..]))
  {
    hide Encode, PutVarint, Devices.Serialize;
    EncodeTextField(4, Devices.Serialize(ds[0]));
    assert DeviceRecords(ds)[1..] == DeviceRecords(ds[1..]);
  }

  lemma FileBytes(o: Option<FileSet>)
    requires |EncodeAll(FilesOf(o))| < 0x8000_0000
    ensures EncodeAll(FileRecord(o)) == TextBytes(26, if o.Some? then Some(EncodeAll(o.value)) else None)
  {
    hide Encode, PutVarint;
    EncodeOpt(FileRecord(o));
    if o.Some? {
      EncodeTextField(3, EncodeAll(o.value));
    }
  }

  lemma SerializedParts(c: Config)
    requires Fits(c)
    ensures SerializeConfig(c) == EncodeAll(Texts(1, c.whitelistUrls)) + EncodeAll(Texts(2, c.blacklistUrls))
                                  + EncodeAll(FileRecord(c.wireProtocol)) + EncodeAll(DeviceRecords(c.knownDevices))
                                  + EncodeAll(NumberRecord(5, c.validUntil)) + EncodeAll(c.unknown)
  {
    hide EncodeAll, Texts, FileRecord, DeviceRecords, NumberRecord;
    var a, b, e := Texts(1, c.whitelistUrls), Texts(2, c.blacklistUrls), FileRecord(c.wireProtocol);
    var f, g := DeviceRecords(c.knownDevices), NumberRecord(5, c.validUntil);
    EncodeAllSplit(a, b);
    EncodeAllSplit(a + b, e);
    EncodeAllSplit(a + b + e, f);
    EncodeAllSplit(a + b + e + f, g);
    EncodeAllSplit(a + b + e + f + g, c.unknown);
  }

  lemma JoinSix(first: seq<byte>, a: seq<byte>, b: seq<byte>, c: seq<byte>, d: seq<byte>, e: seq<byte>, f: seq<byte>)
    ensures first + a + b + c + d + e + f == first + (a + b + c + d + e + f)
  {
    JoinFive(first, a, b, c, d, e);
  }

  // ---- The generated class ----

  datatype Place = NextTag | ParseWhitelist | ParseBlacklist | ParseProtocol | ParseDevices | ParseValidUntil

  function PlaceTag(place: Place): byte
    requires !place.NextTag?
  {
    match place
    case ParseWhitelist => WHITELIST_TAG
    case ParseBlacklist => BLACKLIST_TAG
    case ParseProtocol => PROTOCOL_TAG
    case ParseDevices => DEVICES_TAG
    case ParseValidUntil => VALID_TAG
  }

  function Resume(place: Place, bytes: seq<byte>, c: Config): Parsed<Config> {
    if place.NextTag? then Parse(bytes, c, SCHEMA) else ParseTagged(PlaceTag(place), bytes, c, SCHEMA)
  }

  lemma {:induction false} ExpectedTag(tag: byte, bytes: seq<byte>, c: Config)
    requires 0 < tag < 0x80
    ensures Parse([tag] + bytes, c, SCHEMA) == ParseTagged(tag, bytes, c, SCHEMA)
  {
    ShortTag(tag, bytes);
  }

  lemma LoopTurn(bytes: seq<byte>, c: Config)
    ensures Parse(bytes, c, SCHEMA) == match Wire.ReadTag(bytes)
                                       case AtEnd => Parsed(c, Complete)
                                       case NoTag => Parsed(c, Halted)
                                       case Tag(tag, rest) => ParseTagged(tag, rest, c, SCHEMA)
  {
  }

  lemma TaggedTurn(tag: uint32, bytes: seq<byte>, c: Config)
    requires tag > 0
    ensures ParseTagged(tag, bytes, c, SCHEMA)
         == if tag % 8 == END_GROUP then Parsed(c, Halted)
            else if ReadBody(tag, bytes).Malformed? then Parsed(Touch(c, tag), Failed)
            else
              var v := Apply(c, ReadBody(tag, bytes).record);
              if v.ok then Parse(ReadBody(tag, bytes).rest, v.message, SCHEMA) else Parsed(v.message, Failed)
  {
    hide Apply, Touch;
  }

  lemma ParseNothing(c: Config)
    ensures Parse([], c, SCHEMA) == Parsed(c, Complete)
  {
  }

  lemma ValidBody(bytes: seq<byte>)
    ensures ReadBody(VALID_TAG, bytes) == match GetVarint(bytes, MAX_VARINT)
                                          case None => Malformed
                                          case Some(c) => Body(VarintField(5, c.value % 0x1_0000_0000_0000_0000),
                                              c.rest)
  {
  }

  lemma LengthBody(tag: byte, bytes: seq<byte>)
    requires tag == WHITELIST_TAG || tag == BLACKLIST_TAG || tag == PROTOCOL_TAG || tag == DEVICES_TAG
    ensures ReadBody(tag, bytes) == match ReadLength(bytes)
                                    case None => Malformed
                                    case Some((data, rest)) => Body(LengthField(tag / 8, data), rest)
  {
    hide GetVarint, ReadLength;
  }

  // Presence bits; repeated fields have none.
  const PROTOCOL := 2
  const VALID := 4

  class Configuration {
    var whitelistUrls: seq<Text>
    var blacklistUrls: seq<Text>
    var wireProtocol: Option<FileSet> // None is the null pointer
    var knownDevices: seq<Device>
    var validUntil: uint32
    var hasBits: Word
    var unknownFields: seq<Record>

    /** Presence: an absent field holds its default. */
    ghost predicate Valid()
      reads this
    {
      && (!Has(hasBits, PROTOCOL) ==> FilesOf(wireProtocol) == [])
      && (!Has(hasBits, VALID) ==> validUntil == 0)
    }

    function Value(): Config
      reads this
    {
      Config(whitelistUrls, blacklistUrls, if Has(hasBits, PROTOCOL) then Some(FilesOf(wireProtocol)) else None,
             knownDevices, if Has(hasBits, VALID) then Some(validUntil) else None, unknownFields)
    }

    constructor ()
      ensures Valid() && Value() == NO_CONFIG
    {
      whitelistUrls, blacklistUrls, wireProtocol, knownDevices := [], [], None, [];
      validUntil, hasBits, unknownFields := 0, {}, [];
    }

    // -- accessors --

    method AddWhitelistUrl(value: Text)
      requires Valid()
      modifies this
      ensures Valid() && Value() == old(Value()).(whitelistUrls := old(whitelistUrls) + [value])
    {
      whitelistUrls := whitelistUrls + [value];
    }

    method SetWhitelistUrl(index: nat, value: Text)
      requires Valid() && index < |whitelistUrls|
      modifies this
      ensures Valid() && Value() == old(Value()).(whitelistUrls := old(whitelistUrls)[index := value])
    {
      whitelistUrls := whitelistUrls[index := value];
    }

    method ClearWhitelistUrls()
      requires Valid()
      modifies this
      ensures Valid() && Value() == old(Value()).(whitelistUrls := [])
    {
      whitelistUrls := [];
    }

    method AddBlacklistUrl(value: Text)
      requires Valid()
      modifies this
      ensures Valid() && Value() == old(Value()).(blacklistUrls := old(blacklistUrls) + [value])
    {
      blacklistUrls := blacklistUrls + [value];
    }

    method SetBlacklistUrl(index: nat, value: Text)
      requires Valid() && index < |blacklistUrls|
      modifies this
      ensures Valid() && Value() == old(Value()).(blacklistUrls := old(blacklistUrls)[index := value])
    {
      blacklistUrls := blacklistUrls[index := value];
    }

    method ClearBlacklistUrls()
      requires Valid()
      modifies this
      ensures Valid() && Value() == old(Value()).(blacklistUrls := [])
    {
      blacklistUrls := [];
    }

    /** A new last device, empty. */
    method AddKnownDevice()
      requires Valid()
      modifies this
      ensures Valid() && Value() == old(Value()).(knownDevices := old(knownDevices) + [Devices.NO_DEVICE])
    {
      knownDevices := knownDevices + [Devices.NO_DEVICE];
    }

    /** What a change through a pointer to one of the devices does. */
    method ChangeKnownDevice(index: nat, device: Device)
      requires Valid() && index < |knownDevices|
      modifies this
      ensures Valid() && Value() == old(Value()).(knownDevices := old(knownDevices)[index := device])
    {
      knownDevices := knownDevices[index := device];
    }

    method ClearKnownDevices()
      requires Valid()
      modifies this
      ensures Valid() && Value() == old(Value()).(knownDevices := [])
    {
      knownDevices := [];
    }

    method SetValidUntil(value: uint32)
      requires Valid()
      modifies this
      ensures Valid() && Value() == old(Value()).(validUntil := Some(value))
    {
      hasBits := SetBit(hasBits, VALID);
      validUntil := value;
    }

    method ClearValidUntil()
      requires Valid()
      modifies this
      ensures Valid() && Value() == old(Value()).(validUntil := None)
    {
      validUntil := 0;
      hasBits := ClearBit(hasBits, VALID);
    }

    /** Marks the field present and makes it own its set, without changing it. */
    method MutableWireProtocol()
      requires Valid()
      modifies this
      ensures Valid() && wireProtocol.Some? && Value() == Touch(old(Value()), PROTOCOL_TAG)
    {
      hasBits := SetBit(hasBits, PROTOCOL);
      if wireProtocol.None? {
        wireProtocol := Some([]);
      }
    }

    method ClearWireProtocol()
      requires Valid()
      modifies this
      ensures Valid() && Value() == old(Value()).(wireProtocol := None)
    {
      if wireProtocol.Some? {
        wireProtocol := Some([]);
      }
      hasBits := ClearBit(hasBits, PROTOCOL);
    }

    method ReleaseWireProtocol() returns (f: Option<FileSet>)
      requires Valid()
      modifies this
      ensures Valid() && Value() == old(Value()).(wireProtocol := None)
      ensures FilesOf(old(Value()).wireProtocol) != [] ==> f == old(Value()).wireProtocol
    {
      hasBits := ClearBit(hasBits, PROTOCOL);
      f := wireProtocol;
      wireProtocol := None;
    }

    method SetAllocatedWireProtocol(f: Option<FileSet>)
      requires Valid()
      modifies this
      ensures Valid() && Value() == old(Value()).(wireProtocol := f)
    {
      wireProtocol := f;
      hasBits := if f.Some? then SetBit(hasBits, PROTOCOL) else ClearBit(hasBits, PROTOCOL);
    }

    // -- whole messages --

    /** Resets the fields only when some bit of the group is set, and the wire protocol
        only when its own bit is; no residue stays behind all the same. */
    method Clear()
      requires Valid()
      modifies this
      ensures Valid() && Value() == NO_CONFIG
      ensures FilesOf(wireProtocol) == [] && validUntil == 0 && hasBits == {}
    {
      if AnyOfEight(hasBits, 2) {
        if Has(hasBits, PROTOCOL) && wireProtocol.Some? {
          wireProtocol := Some([]);
        }
        validUntil := 0;
      }
      whitelistUrls, blacklistUrls, knownDevices := [], [], [];
      hasBits, unknownFields := {}, [];
    }

    method MergeFrom(from: Configuration)
      requires Valid() && from.Valid() && from != this
      modifies this
      ensures Valid() && Value() == Merge(old(Value()), from.Value())
    {
      whitelistUrls := whitelistUrls + from.whitelistUrls;
      blacklistUrls := blacklistUrls + from.blacklistUrls;
      knownDevices := knownDevices + from.knownDevices;
      if AnyOfEight(from.hasBits, 2) {
        if Has(from.hasBits, PROTOCOL) {
          MutableWireProtocol();
          wireProtocol := Some(wireProtocol.value + FilesOf(from.wireProtocol));
        }
        if Has(from.hasBits, VALID) {
          SetValidUntil(from.validUntil);
        }
      }
      unknownFields := unknownFields + from.unknownFields;
    }

    /** Storing a configuration replaces the old one entirely. */
    method CopyFrom(from: Configuration)
      requires Valid() && from.Valid()
      modifies this
      ensures Valid() && Value() == old(from.Value())
    {
      if from == this {
        return;
      }
      Clear();
      MergeUnits(from.Value());
      MergeFrom(from);
    }

    method Swap(other: Configuration)
      requires Valid() && other.Valid()
      modifies this, other
      ensures Valid() && other.Valid() && Value() == old(other.Value()) && other.Value() == old(Value())
    {
      if other != this {
        whitelistUrls, other.whitelistUrls := other.whitelistUrls, whitelistUrls;
        blacklistUrls, other.blacklistUrls := other.blacklistUrls, blacklistUrls;
        wireProtocol, other.wireProtocol := other.wireProtocol, wireProtocol;
        knownDevices, other.knownDevices := other.knownDevices, knownDevices;
        validUntil, other.validUntil := other.validUntil, validUntil;
        hasBits, other.hasBits := other.hasBits, hasBits;
        unknownFields, other.unknownFields := other.unknownFields, unknownFields;
      }
    }

    // -- parsing --

    /** Parses a nested message into a new last element of the known devices. */
    method ReadDevice(input: CodedInputStream) returns (ok: bool)
      requires Valid()
      modifies this, input`bytes
      ensures Valid()
      ensures match ReadLength(old(input.bytes))
              case None => !ok && Value() == AddDevice(old(Value()), Devices.NO_DEVICE)
              case Some((data, rest)) =>
                && input.bytes == rest
                && Value() == AddDevice(old(Value()), Devices.ParseDevice(data).message)
                && ok == Devices.ParseDevice(data).ending.Complete?
    {
      ghost var before := knownDevices;
      knownDevices := knownDevices + [Devices.NO_DEVICE];
      var data;
      ok, data := input.ReadString();
      if !ok {
        return;
      }
      var device := new Devices.DeviceDescriptor();
      var nested := new CodedInputStream(data);
      ok := device.MergePartialFromCodedStream(nested);
      ok := ok && nested.atLegitimateEnd;
      knownDevices := knownDevices[|knownDevices| - 1 := device.Value()];
      assert knownDevices == before + [device.Value()];
    }

    /** Parses a nested message onto the wire protocol. */
    method ReadProtocol(input: CodedInputStream) returns (ok: bool)
      requires Valid()
      modifies this, input`bytes
      ensures Valid()
      ensures match ReadLength(old(input.bytes))
              case None => !ok && Value() == Touch(old(Value()), PROTOCOL_TAG)
              case Some((data, rest)) =>
                var p := Parse(data, FilesOf(old(Value()).wireProtocol), FILE_SCHEMA);
                && input.bytes == rest
                && Value() == old(Value()).(wireProtocol := Some(p.message))
                && ok == p.ending.Complete?
    {
      MutableWireProtocol();
      var data;
      ok, data := input.ReadString();
      if ok {
        var p := Parse(data, wireProtocol.value, FILE_SCHEMA);
        wireProtocol, ok := Some(p.message), p.ending.Complete?;
      }
    }

    /** One case of the switch. */
    method ParseField(place: Place, input: CodedInputStream) returns (ok: bool)
      requires Valid() && !place.NextTag?
      modifies this, input`bytes
      ensures Valid()
      ensures match ReadBody(PlaceTag(place), old(input.bytes))
              case Malformed => !ok && Value() == Touch(old(Value()), PlaceTag(place))
              case Body(r, rest) =>
                var v := Apply(old(Value()), r);
                ok == v.ok && Value() == v.message && (ok ==> input.bytes == rest)
    {
      hide GetVarint, ReadLength, ReadBody, Parse, Devices.ParseDevice;
      match place
      case ParseWhitelist =>
        LengthBody(WHITELIST_TAG, input.bytes);
        ghost var before := whitelistUrls;
        whitelistUrls := whitelistUrls + [[]];
        var s;
        ok, s := input.ReadString();
        if ok {
          whitelistUrls := whitelistUrls[|whitelistUrls| - 1 := s];
          assert whitelistUrls == before + [s];
        }
      case ParseBlacklist =>
        LengthBody(BLACKLIST_TAG, input.bytes);
        ghost var before := blacklistUrls;
        blacklistUrls := blacklistUrls + [[]];
        var s;
        ok, s := input.ReadString();
        if ok {
          blacklistUrls := blacklistUrls[|blacklistUrls| - 1 := s];
          assert blacklistUrls == before + [s];
        }
      case ParseProtocol =>
        LengthBody(PROTOCOL_TAG, input.bytes);
        ok := ReadProtocol(input);
      case ParseDevices =>
        LengthBody(DEVICES_TAG, input.bytes);
        ok := ReadDevice(input);
      case ParseValidUntil =>
        ValidBody(input.bytes);
        if GetVarint(input.bytes, MAX_VARINT).Some? { CutTwice(GetVarint(input.bytes, MAX_VARINT).value.value); }
        var v;
        ok, v := input.ReadUInt32();
        if ok {
          SetValidUntil(v);
        }
    }

    /** The generated parser with its jumps and its early return agrees with the plain
        loop on every input, whatever the stream's two shortcuts answer. */
    method MergePartialFromCodedStream(input: CodedInputStream) returns (ok: bool)
      requires Valid()
      modifies this, input
      ensures Valid()
      ensures var p := Parse(old(input.bytes), old(Value()), SCHEMA);
              && Value() == p.message
              && (ok <==> !p.ending.Failed?)
              && (ok ==> (input.atLegitimateEnd <==> p.ending.Complete?))
    {
      hide Touch, Apply, ReadBody, Wire.ReadTag, Parse, ParseTagged, Value;
      ghost var whole := Parse(input.bytes, Value(), SCHEMA);
      var place := NextTag;
      while true
        invariant Valid()
        invariant Resume(place, input.bytes, Value()) == whole
        decreases |input.bytes|
      {
        if place.NextTag? {
          LoopTurn(input.bytes, Value());
          var tag := input.ReadTag();
          if tag == 0 {
            return true;
          }
          var number, wire := tag / 8, tag % 8;
          if number == 1 && wire == 2 {
            place := ParseWhitelist;
          } else if number == 2 && wire == 2 {
            place := ParseBlacklist;
          } else if number == 3 && wire == 2 {
            place := ParseProtocol;
          } else if number == 4 && wire == 2 {
            place := ParseDevices;
          } else if number == 5 && wire == 0 {
            place := ParseValidUntil;
          } else {
            TaggedTurn(tag, input.bytes, Value());
            if wire == END_GROUP {
              return true;
            }
            ok := HandleUninterpreted(tag, input);
            if !ok {
              return;
            }
            continue;
          }
        }
        TaggedTurn(PlaceTag(place), input.bytes, Value());
        ok := ParseField(place, input);
        if !ok {
          return;
        }
        if place.ParseValidUntil? {
          var atEnd := input.ExpectAtEnd();
          if atEnd {
            ParseNothing(Value());
            return true;
          }
        }
        place := Jump(place, input);
      }
    }

    /** The expected tags after each case, tried in order. */
    method Jump(place: Place, input: CodedInputStream) returns (next: Place)
      requires !place.NextTag?
      modifies input`bytes
      ensures Resume(next, input.bytes, Value()) == Parse(old(input.bytes), Value(), SCHEMA)
      ensures |input.bytes| <= |old(input.bytes)|
    {
      ghost var first := input.bytes;
      var taken := false;
      match place {
      case ParseWhitelist =>
        taken := input.ExpectTag(10);
        next := ParseWhitelist;
        if !taken {
          taken := input.ExpectTag(18);
          next := ParseBlacklist;
        }
      case ParseBlacklist =>
        taken := input.ExpectTag(18);
        next := ParseBlacklist;
        if !taken {
          taken := input.ExpectTag(26);
          next := ParseProtocol;
        }
      case ParseProtocol =>
        taken := input.ExpectTag(34);
        next := ParseDevices;
      case ParseDevices =>
        taken := input.ExpectTag(34);
        next := ParseDevices;
        if !taken {
          taken := input.ExpectTag(40);
          next := ParseValidUntil;
        }
      case ParseValidUntil => next := NextTag;
      }
      if taken {
        assert first == [PlaceTag(next)] + input.bytes;
        ExpectedTag(PlaceTag(next), input.bytes, Value());
      } else {
        next := NextTag;
      }
    }

    /** Files a field that the message does not know. */
    method HandleUninterpreted(tag: uint32, input: CodedInputStream) returns (ok: bool)
      requires Valid() && tag > 0
      requires tag != WHITELIST_TAG && tag != BLACKLIST_TAG && tag != PROTOCOL_TAG && tag != DEVICES_TAG
                 && tag != VALID_TAG
      modifies this, input`bytes
      ensures Valid()
      ensures match ReadBody(tag, old(input.bytes))
              case Malformed => !ok && Value() == Touch(old(Value()), tag)
              case Body(r, rest) => ok && input.bytes == rest && Apply(old(Value()), r) == Verdict(Value(), true)
    {
      hide Parse, Devices.ParseDevice, ReadBody;
      var r;
      ok, r := input.SkipField(tag);
      if ok {
        unknownFields := unknownFields + [r];
      }
    }

    // -- serializing --

    method SerializeWithCachedSizes(output: CodedOutputStream)
      requires Valid() && Fits(Value())
      modifies output
      ensures output.bytes == old(output.bytes) + SerializeConfig(Value())
    {
      ghost var first, c := output.bytes, Value();
      SerializedParts(c);
      hide SerializeConfig, EncodeAll, Texts, DeviceRecords, FileRecord, NumberRecord, Value;
      WriteTexts(output, 1, whitelistUrls);
      WriteTexts(output, 2, blacklistUrls);
      WriteProtocol(output);
      WriteDevices(output, knownDevices);
      WriteRest(output);
      JoinSix(first, EncodeAll(Texts(1, c.whitelistUrls)), EncodeAll(Texts(2, c.blacklistUrls)),
          EncodeAll(FileRecord(c.wireProtocol)),
              EncodeAll(DeviceRecords(c.knownDevices)), EncodeAll(NumberRecord(5, c.validUntil)), EncodeAll(c.unknown));
    }

    method WriteProtocol(output: CodedOutputStream)
      requires Valid() && Fits(Value())
      modifies output
      ensures output.bytes == old(output.bytes) + EncodeAll(FileRecord(Value().wireProtocol))
    {
      FileBytes(Value().wireProtocol);
      hide PutVarint, EncodeAll, FileRecord;
      if Has(hasBits, PROTOCOL) {
        output.WriteString(26, EncodeAll(FilesOf(wireProtocol)));
      }
    }

    method WriteRest(output: CodedOutputStream)
      requires Valid()
      modifies output
      ensures output.bytes == old(output.bytes) + EncodeAll(NumberRecord(5, Value().validUntil))
                + EncodeAll(unknownFields)
    {
      NumberEncoded(5, Value().validUntil);
      EncodeNothing();
      hide PutVarint, EncodeAll, NumberRecord;
      AppendNothing(output.bytes);
      if Has(hasBits, VALID) {
        output.WriteUInt32(40, validUntil);
      }
      assert output.bytes == old(output.bytes) + EncodeAll(NumberRecord(5, Value().validUntil));
      AppendNothing(output.bytes);
      if unknownFields != [] {
        output.WriteUnknown(unknownFields);
      }
    }

    static method WriteTexts(output: CodedOutputStream, number: nat, urls: seq<Text>)
      requires 0 < number < 16
      modifies output
      ensures output.bytes == old(output.bytes) + EncodeAll(Texts(number, urls))
    {
      hide PutVarint, EncodeAll;
      EncodeNothing();
      var i := 0;
      while i < |urls|
        invariant 0 <= i <= |urls|
        invariant output.bytes + EncodeAll(Texts(number, urls[i..]))
                    == old(output.bytes) + EncodeAll(Texts(number, urls))
      {
        TextsFirst(number, urls[i..]);
        assert urls[i..][1..] == urls[i + 1..];
        output.WriteString(number * 8 + 2, urls[i]);
        i := i + 1;
      }
    }

    static method WriteDevices(output: CodedOutputStream, devices: seq<Device>)
      requires forall d <- devices :: |Devices.Serialize(d)| < 0x8000_0000
      modifies output
      ensures output.bytes == old(output.bytes) + EncodeAll(DeviceRecords(devices))
    {
      hide PutVarint, EncodeAll, Devices.Serialize;
      EncodeNothing();
      var i := 0;
      while i < |devices|
        invariant 0 <= i <= |devices|
        invariant output.bytes + EncodeAll(DeviceRecords(devices[i..]))
                    == old(output.bytes) + EncodeAll(DeviceRecords(devices))
      {
        DevicesFirst(devices[i..]);
        assert devices[i..][1..] == devices[i + 1..];
        output.WriteString(34, Devices.Serialize(devices[i]));
        i := i + 1;
      }
    }

    method SerializeWithCachedSizesToArray(target: array<byte>, at: nat) returns (end: nat)
      requires Valid() && Fits(Value()) && at + |SerializeConfig(Value())| <= target.Length
      modifies target
      ensures end == at + |SerializeConfig(Value())|
      ensures Wrote(old(target[..]), target[..], at, SerializeConfig(Value()))
    {
      ghost var first, c := target[..], Value();
      assert (c.whitelistUrls, c.blacklistUrls, c.knownDevices, c.unknown)
          == (whitelistUrls, blacklistUrls, knownDevices, unknownFields);
      SerializedParts(c);
      hide PutVarint, SerializeConfig, EncodeAll, Texts, DeviceRecords, FileRecord, NumberRecord, Wrote, Value;
      ghost var done: seq<byte> := [];
      WroteNothing(first, at);
      end, done := TextsToArray(target, at, at, first, done, 1, whitelistUrls);
      assert done == EncodeAll(Texts(1, c.whitelistUrls));
      end, done := TextsToArray(target, at, end, first, done, 2, blacklistUrls);
      end, done := ProtocolToArray(target, at, end, first, done);
      end, done := DevicesToArray(target, at, end, first, done, knownDevices);
      end, done := RestToArray(target, at, end, first, done);
    }

    method ProtocolToArray(target: array<byte>, at: nat, from: nat, ghost first: seq<byte>, ghost done: seq<byte>)
      returns (end: nat, ghost more: seq<byte>)
      requires Valid() && Fits(Value()) && from + |EncodeAll(FileRecord(Value().wireProtocol))| <= target.Length
      requires from == at + |done| && Wrote(first, target[..], at, done)
      modifies target
      ensures more == done + EncodeAll(FileRecord(Value().wireProtocol))
      ensures end == at + |more| && Wrote(first, target[..], at, more)
    {
      FileBytes(Value().wireProtocol);
      hide PutVarint, EncodeAll, FileRecord, Wrote;
      end, more := from, done;
      if Has(hasBits, PROTOCOL) {
        end, more := Put(target, at, end, first, more, [26] + PutVarint(|EncodeAll(FilesOf(wireProtocol))|)
            + EncodeAll(FilesOf(wireProtocol)));
      }
    }

    method RestToArray(target: array<byte>, at: nat, from: nat, ghost first: seq<byte>, ghost done: seq<byte>)
      returns (end: nat, ghost more: seq<byte>)
      requires Valid()
      requires from + |EncodeAll(NumberRecord(5, Value().validUntil)) + EncodeAll(unknownFields)| <= target.Length
      requires from == at + |done| && Wrote(first, target[..], at, done)
      modifies target
      ensures more == done + EncodeAll(NumberRecord(5, Value().validUntil)) + EncodeAll(unknownFields)
      ensures end == at + |more| && Wrote(first, target[..], at, more)
    {
      NumberEncoded(5, Value().validUntil);
      EncodeNothing();
      hide PutVarint, EncodeAll, NumberRecord, Wrote;
      AppendNothing(done);
      end, more := from, done;
      if Has(hasBits, VALID) {
        end, more := Put(target, at, end, first, more, [40] + PutVarint(validUntil));
      }
      assert more == done + EncodeAll(NumberRecord(5, Value().validUntil));
      AppendNothing(more);
      if unknownFields != [] {
        end, more := Put(target, at, end, first, more, EncodeAll(unknownFields));
      }
    }

    static method TextsToArray(target: array<byte>, at: nat, from: nat, ghost first: seq<byte>, ghost done: seq<byte>,
                               number: nat, urls: seq<Text>)
      returns (end: nat, ghost more: seq<byte>)
      requires 0 < number < 16 && from + |EncodeAll(Texts(number, urls))| <= target.Length
      requires from == at + |done| && Wrote(first, target[..], at, done)
      modifies target
      ensures more == done + EncodeAll(Texts(number, urls)) && end == at + |more| && Wrote(first, target[..], at, more)
    {
      hide PutVarint, EncodeAll, Wrote;
      EncodeNothing();
      end, more := from, done;
      var i := 0;
      while i < |urls|
        invariant 0 <= i <= |urls|
        invariant end == at + |more| && Wrote(first, target[..], at, more)
        invariant more + EncodeAll(Texts(number, urls[i..])) == done + EncodeAll(Texts(number, urls))
      {
        TextsFirst(number, urls[i..]);
        assert urls[i..][1..] == urls[i + 1..];
        end, more := Put(target, at, end, first, more, [number * 8 + 2] + PutVarint(|urls[i]|) + urls[i]);
        i := i + 1;
      }
    }

    static method DevicesToArray(target: array<byte>, at: nat, from: nat, ghost first: seq<byte>,
                                 ghost done: seq<byte>, devices: seq<Device>)
      returns (end: nat, ghost more: seq<byte>)
      requires forall d <- devices :: |Devices.Serialize(d)| < 0x8000_0000
      requires from + |EncodeAll(DeviceRecords(devices))| <= target.Length
      requires from == at + |done| && Wrote(first, target[..], at, done)
      modifies target
      ensures more == done + EncodeAll(DeviceRecords(devices)) && end == at + |more|
                && Wrote(first, target[..], at, more)
    {
      hide PutVarint, EncodeAll, Wrote, Devices.Serialize;
      EncodeNothing();
      end, more := from, done;
      var i := 0;
      while i < |devices|
        invariant 0 <= i <= |devices|
        invariant end == at + |more| && Wrote(first, target[..], at, more)
        invariant more + EncodeAll(DeviceRecords(devices[i..])) == done + EncodeAll(DeviceRecords(devices))
      {
        DevicesFirst(devices[i..]);
        assert devices[i..][1..] == devices[i + 1..];
        end, more := Put(target, at, end, first, more, [34] + PutVarint(|Devices.Serialize(devices[i])|)
            + Devices.Serialize(devices[i]));
        i := i + 1;
      }
    }

    method ByteSize() returns (size: nat)
      requires Valid() && Fits(Value())
      ensures size == |SerializeConfig(Value())|
    {
      ghost var c := Value();
      SerializedParts(c);
      NumberEncoded(5, c.validUntil);
      FileBytes(c.wireProtocol);
      EncodeNothing();
      hide PutVarint, VarintSize32, SerializeConfig, EncodeAll, Texts, DeviceRecords, FileRecord, NumberRecord;
      size := 0;
      if AnyOfEight(hasBits, 2) {
        if Has(hasBits, PROTOCOL) {
          var n := |EncodeAll(FilesOf(wireProtocol))|;
          VarintSize(n);
          size := size + 1 + VarintSize32(n) + n;
        }
        if Has(hasBits, VALID) {
          VarintSize(validUntil);
          size := size + 1 + VarintSize32(validUntil);
        }
      }
      var whitelist := SizeOfTexts(1, whitelistUrls);
      var blacklist := SizeOfTexts(2, blacklistUrls);
      var devices := SizeOfDevices(knownDevices);
      size := size + whitelist + blacklist + devices;
      if unknownFields != [] {
        size := size + |EncodeAll(unknownFields)|;
      }
    }

    /** One byte for each tag, then the sizes. */
    static method SizeOfTexts(number: nat, urls: seq<Text>) returns (size: nat)
      requires 0 < number < 16
      ensures size == |EncodeAll(Texts(number, urls))|
    {
      hide PutVarint, VarintSize32, EncodeAll;
      EncodeNothing();
      size := 1 * |urls|;
      var i := 0;
      while i < |urls|
        invariant 0 <= i <= |urls|
        invariant size + |EncodeAll(Texts(number, urls[i..]))| == |EncodeAll(Texts(number, urls))| + |urls| - i
      {
        TextsFirst(number, urls[i..]);
        assert urls[i..][1..] == urls[i + 1..];
        VarintSize(|urls[i]|);
        size := size + VarintSize32(|urls[i]|) + |urls[i]|;
        i := i + 1;
      }
    }

    static method SizeOfDevices(devices: seq<Device>) returns (size: nat)
      requires forall d <- devices :: |Devices.Serialize(d)| < 0x8000_0000
      ensures size == |EncodeAll(DeviceRecords(devices))|
    {
      hide PutVarint, VarintSize32, EncodeAll, Devices.Serialize;
      EncodeNothing();
      size := 1 * |devices|;
      var i := 0;
      while i < |devices|
        invariant 0 <= i <= |devices|
        invariant size + |EncodeAll(DeviceRecords(devices[i..]))| == |EncodeAll(DeviceRecords(devices))| + |devices| - i
      {
        DevicesFirst(devices[i..]);
        assert devices[i..][1..] == devices[i + 1..];
        VarintSize(|Devices.Serialize(devices[i])|);
        size := size + VarintSize32(|Devices.Serialize(devices[i])|) + |Devices.Serialize(devices[i])|;
        i := i + 1;
      }
    }
  }
}
