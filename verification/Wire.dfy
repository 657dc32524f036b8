/** The Protocol Buffers wire format: varints, tagged records, and the plain parsing
    loop that reads one record after the other into a message (Protocol Buffers
    encoding guide, "Base 128 Varints", "Message Structure" and "Last One Wins"). */
module Wire {
  import opened Bytes

  const MAX_VARINT := 10

  // ---- Varints ----

  function PutVarint(v: nat): (s: seq<byte>)
    ensures s != []
  {
    if v < 0x80 then [v] else [v % 0x80 + 0x80] + PutVarint(v / 0x80)
  }

  datatype Chopped = Chopped(value: nat, rest: seq<byte>)

  /** Reads a varint of at most `limit` bytes. */
  function GetVarint(bytes: seq<byte>, limit: nat): (r: Option<Chopped>)
    ensures r.Some? ==> |r.value.rest| < |bytes|
    decreases limit
  {
    if limit == 0 || bytes == [] then None
    else if bytes[0] < 0x80 then Some(Chopped(bytes[0], bytes[1..]))
    else
      match GetVarint(bytes[1..], limit - 1)
      case None => None
      case Some(high) => Some(Chopped(bytes[0] - 0x80 + 0x80 * high.value, high.rest))
  }

  predicate FitsVarint(v: nat, limit: nat) {
    limit > 0 && (v < 0x80 || FitsVarint(v / 0x80, limit - 1))
  }

  lemma {:induction false} VarintRoundTrip(v: nat, limit: nat, rest: seq<byte>)
    requires FitsVarint(v, limit)
    ensures GetVarint(PutVarint(v) + rest, limit) == Some(Chopped(v, rest))
  {
    if v >= 0x80 {
      VarintRoundTrip(v / 0x80, limit - 1, rest);
      assert (PutVarint(v) + rest)[1..] == PutVarint(v / 0x80) + rest;
    }
  }

  lemma Fits64(v: uint64)
    ensures FitsVarint(v, MAX_VARINT)
  {
    var a := v / 0x80; assert a < 0x0200_0000_0000_0000;
    var b := a / 0x80; assert b < 0x0004_0000_0000_0000;
    var c := b / 0x80; assert c < 0x0000_0800_0000_0000;
    var d := c / 0x80; assert d < 0x0000_0010_0000_0000;
    var e := d / 0x80; assert e < 0x2000_0000;
    var f := e / 0x80; assert f < 0x40_0000;
    var g := f / 0x80; assert g < 0x8000;
    var h := g / 0x80; assert h < 0x100;
    var i := h / 0x80; assert i < 0x80;
    assert FitsVarint(i, 1);
    assert FitsVarint(h, 2);
    assert FitsVarint(g, 3);
    assert FitsVarint(f, 4);
    assert FitsVarint(e, 5);
    assert FitsVarint(d, 6);
    assert FitsVarint(c, 7);
    assert FitsVarint(b, 8);
    assert FitsVarint(a, 9);
  }

  lemma {:induction false} VarintExtends(bytes: seq<byte>, more: seq<byte>, limit: nat)
    requires GetVarint(bytes, limit).Some?
    ensures var r := GetVarint(bytes, limit).value;
            GetVarint(bytes + more, limit) == Some(Chopped(r.value, r.rest + more))
  {
    assert (bytes + more)[1..] == bytes[1..] + more;
    if bytes[0] >= 0x80 {
      VarintExtends(bytes[1..], more, limit - 1);
    }
  }

  /** The size computed by comparing with powers of 128 is the length written. */
  function VarintSize32(v: uint32): nat {
    if v < 0x80 then 1 else if v < 0x4000 then 2 else if v < 0x20_0000 then 3 else if v < 0x1000_0000 then 4 else 5
  }

  lemma VarintSize(v: uint32)
    ensures VarintSize32(v) == |PutVarint(v)|
  {
    if v >= 0x80 {
      VarintSize(v / 0x80);
    }
  }

  // ---- Records ----

  datatype RawRecord =
    | VarintField(number: nat, value: uint64)
    | Fixed64Field(number: nat, data: seq<byte>)
    | LengthField(number: nat, data: seq<byte>)
    | Fixed32Field(number: nat, data: seq<byte>)

  function WireType(r: RawRecord): nat {
    match r
    case VarintField(_, _) => 0
    case Fixed64Field(_, _) => 1
    case LengthField(_, _) => 2
    case Fixed32Field(_, _) => 5
  }

  function TagOf(r: RawRecord): nat { r.number * 8 + WireType(r) }

  predicate ValidRecord(r: RawRecord) {
    && 0 < TagOf(r) < 0x1_0000_0000
    && (r.Fixed64Field? ==> |r.data| == 8)
    && (r.Fixed32Field? ==> |r.data| == 4)
    && (r.LengthField? ==> |r.data| < 0x8000_0000)
  }

  type Record = r: RawRecord | ValidRecord(r) witness VarintField(1, 0)

  function EncodeBody(r: Record): seq<byte> {
    match r
    case VarintField(_, value) => PutVarint(value)
    case LengthField(_, data) => PutVarint(|data|) + data
    case _ => r.data
  }

  function Encode(r: Record): seq<byte> {
    PutVarint(TagOf(r)) + EncodeBody(r)
  }

  function EncodeAll(rs: seq<Record>): seq<byte> {
    if rs == [] then [] else Encode(rs[0]) + EncodeAll(rs[1..])
  }

  lemma {:induction false} EncodeAllSplit(a: seq<Record>, b: seq<Record>)
    ensures EncodeAll(a + b) == EncodeAll(a) + EncodeAll(b)
  {
    if a == [] {
      assert a + b == b;
    } else {
      assert (a + b)[1..] == a[1..] + b;
      EncodeAllSplit(a[1..], b);
      assert Encode(a[0]) + (EncodeAll(a[1..]) + EncodeAll(b)) == Encode(a[0]) + EncodeAll(a[1..]) + EncodeAll(b);
    }
  }

  // ---- Reading ----

  /** What reading a tag gives: a tag, the end of the input, or nothing usable (a
      malformed or zero tag). */
  datatype TagRead = Tag(tag: uint32, rest: seq<byte>) | AtEnd | NoTag

  function ReadTag(bytes: seq<byte>): (r: TagRead)
    ensures r.Tag? ==> r.tag > 0 && |r.rest| < |bytes|
  {
    if bytes == [] then AtEnd
    else
      match GetVarint(bytes, MAX_VARINT)
      case None => NoTag
      case Some(c) => if c.value % 0x1_0000_0000 == 0 then NoTag else Tag(c.value % 0x1_0000_0000, c.rest)
  }

  const END_GROUP := 4

  /** What follows a tag: a record, or nothing that can be read. Groups are not read. */
  datatype BodyRead = Body(record: Record, rest: seq<byte>) | Malformed

  function ReadFixed(number: nat, bytes: seq<byte>, n: nat): BodyRead
    requires (n == 8 && 0 < number * 8 + 1 < 0x1_0000_0000) || (n == 4 && 0 < number * 8 + 5 < 0x1_0000_0000)
  {
    if |bytes| < n then Malformed
    else if n == 8 then Body(Fixed64Field(number, bytes[..n]), bytes[n..])
    else Body(Fixed32Field(number, bytes[..n]), bytes[n..])
  }

  /** A length-delimited value: its length must be an int, and all of it must be there. */
  function ReadLength(bytes: seq<byte>): (r: Option<(seq<byte>, seq<byte>)>)
    ensures r.Some? ==> |r.value.0| < 0x8000_0000 && |r.value.1| < |bytes|
  {
    match GetVarint(bytes, MAX_VARINT)
    case None => None
    case Some(c) =>
      var n := c.value % 0x1_0000_0000;
      if n >= 0x8000_0000 || n > |c.rest| then None else Some((c.rest[..n], c.rest[n..]))
  }

  function ReadBody(tag: uint32, bytes: seq<byte>): (r: BodyRead)
    requires tag > 0
    ensures r.Body? ==> |r.rest| < |bytes| && TagOf(r.record) == tag
  {
    var number := tag / 8;
    match tag % 8
    case 0 =>
      (match GetVarint(bytes, MAX_VARINT)
       case None => Malformed
       case Some(c) => Body(VarintField(number, c.value % 0x1_0000_0000_0000_0000), c.rest))
    case 1 => ReadFixed(number, bytes, 8)
    case 2 =>
      (match ReadLength(bytes)
       case None => Malformed
       case Some((data, rest)) => Body(LengthField(number, data), rest))
    case 5 => ReadFixed(number, bytes, 4)
    case _ => Malformed
  }

  /** The two ways to cut a varint down to 32 bits agree. */
  lemma CutTwice(x: nat)
    ensures x % 0x1_0000_0000_0000_0000 % 0x1_0000_0000 == x % 0x1_0000_0000
  {
    assert x == x / 0x1_0000_0000_0000_0000 * 0x1_0000_0000 * 0x1_0000_0000 + x % 0x1_0000_0000_0000_0000;
  }

  lemma {:induction false} TagRoundTrip(tag: uint32, rest: seq<byte>)
    requires tag > 0
    ensures ReadTag(PutVarint(tag) + rest) == Tag(tag, rest)
  {
    hide GetVarint, PutVarint, FitsVarint;
    Fits64(tag);
    VarintRoundTrip(tag, MAX_VARINT, rest);
  }

  lemma {:induction false} BodyRoundTrip(r: Record, rest: seq<byte>)
    ensures ReadBody(TagOf(r), EncodeBody(r) + rest) == Body(r, rest)
  {
    hide GetVarint, PutVarint, FitsVarint;
    match r
    case VarintField(_, value) =>
      Fits64(value);
      VarintRoundTrip(value, MAX_VARINT, rest);
    case LengthField(_, data) =>
      Fits64(|data|);
      VarintRoundTrip(|data|, MAX_VARINT, data + rest);
      assert EncodeBody(r) + rest == PutVarint(|data|) + (data + rest);
      assert (data + rest)[..|data|] == data && (data + rest)[|data|..] == rest;
    case _ =>
      assert (r.data + rest)[..|r.data|] == r.data && (r.data + rest)[|r.data|..] == rest;
  }

  /** A record that was written is read back, with whatever follows it. */
  lemma {:induction false} RecordRoundTrip(r: Record, rest: seq<byte>)
    ensures ReadTag(Encode(r) + rest) == Tag(TagOf(r), EncodeBody(r) + rest)
    ensures ReadBody(TagOf(r), EncodeBody(r) + rest) == Body(r, rest)
  {
    hide ReadTag, ReadBody, PutVarint, EncodeBody;
    TagRoundTrip(TagOf(r), EncodeBody(r) + rest);
    BodyRoundTrip(r, rest);
    assert Encode(r) + rest == PutVarint(TagOf(r)) + (EncodeBody(r) + rest);
  }

  lemma {:induction false} TagExtends(bytes: seq<byte>, more: seq<byte>)
    requires ReadTag(bytes).Tag?
    ensures var t := ReadTag(bytes); ReadTag(bytes + more) == Tag(t.tag, t.rest + more)
  {
    VarintExtends(bytes, more, MAX_VARINT);
  }

  lemma {:induction false} BodyExtends(tag: uint32, bytes: seq<byte>, more: seq<byte>)
    requires tag > 0 && ReadBody(tag, bytes).Body?
    ensures var b := ReadBody(tag, bytes); ReadBody(tag, bytes + more) == Body(b.record, b.rest + more)
  {
    hide GetVarint;
    if tag % 8 == 0 || tag % 8 == 2 {
      VarintExtends(bytes, more, MAX_VARINT);
    }
  }

  // ---- The plain loop ----

  /** Complete: the input was used up between two records. Halted: a tag that ends the
      loop early (an end-group tag, a zero or a malformed one); the loop still reports
      success, but the message did not end there. Failed: a value could not be read. */
  datatype Ending = Complete | Halted | Failed

  datatype Parsed<M> = Parsed(message: M, ending: Ending)

  datatype Verdict<M> = Verdict(message: M, ok: bool)

  /** How a message takes in a record, and what is left of it when the value after a tag
      cannot be read. */
  datatype Schema<!M> = Schema(apply: (M, Record) -> Verdict<M>, touch: (M, uint32) -> M)

  function Parse<M>(bytes: seq<byte>, m: M, schema: Schema<M>): Parsed<M>
    decreases |bytes|, 1
  {
    match ReadTag(bytes)
    case AtEnd => Parsed(m, Complete)
    case NoTag => Parsed(m, Halted)
    case Tag(tag, rest) => ParseTagged(tag, rest, m, schema)
  }

  /** The loop from the point where a tag has just been read. */
  function ParseTagged<M>(tag: uint32, bytes: seq<byte>, m: M, schema: Schema<M>): Parsed<M>
    requires tag > 0
    decreases |bytes|, 2
  {
    if tag % 8 == END_GROUP then Parsed(m, Halted)
    else
      match ReadBody(tag, bytes)
      case Malformed => Parsed(schema.touch(m, tag), Failed)
      case Body(record, rest) =>
        var v := schema.apply(m, record);
        if v.ok then Parse(rest, v.message, schema) else Parsed(v.message, Failed)
  }

  /** A message that ends between records can be followed by more: parsing goes on from
      what has been built. */
  lemma {:induction false} ParseConcat<M>(x: seq<byte>, y: seq<byte>, m: M, schema: Schema<M>)
    requires Parse(x, m, schema).ending.Complete?
    ensures Parse(x + y, m, schema) == Parse(y, Parse(x, m, schema).message, schema)
    decreases |x|
  {
    if x == [] {
      assert x + y == y;
    } else {
      hide ReadTag, ReadBody;
      TagNotAtEnd(x);
      var t := ReadTag(x);
      TagExtends(x, y);
      BodyExtends(t.tag, t.rest, y);
      var b := ReadBody(t.tag, t.rest);
      ParseConcat(b.rest, y, schema.apply(m, b.record).message, schema);
    }
  }

  lemma TagNotAtEnd(x: seq<byte>)
    requires x != []
    ensures !ReadTag(x).AtEnd?
  {
  }

  /** Taking in records one after the other, as long as they are accepted. */
  function ApplyAll<M>(m: M, rs: seq<Record>, schema: Schema<M>): Verdict<M>
    decreases |rs|
  {
    if rs == [] then Verdict(m, true)
    else
      var v := schema.apply(m, rs[0]);
      if v.ok then ApplyAll(v.message, rs[1..], schema) else v
  }

  /** Parsing written records is taking them in. */
  lemma {:induction false} ParseEncoded<M>(rs: seq<Record>, m: M, schema: Schema<M>)
    ensures var v := ApplyAll(m, rs, schema);
            Parse(EncodeAll(rs), m, schema) == Parsed(v.message, if v.ok then Complete else Failed)
    decreases |rs|
  {
    if rs != [] {
      hide ReadTag, ReadBody, Encode, EncodeBody;
      var r, tail := rs[0], EncodeAll(rs[1..]);
      RecordRoundTrip(r, tail);
      TagNotEndGroup(r);
      var v := schema.apply(m, r);
      if v.ok {
        ParseEncoded(rs[1..], v.message, schema);
      }
    } else {
      assert ReadTag([]) == AtEnd;
    }
  }

  lemma TagNotEndGroup(r: Record)
    ensures TagOf(r) % 8 == WireType(r) != END_GROUP
  {
  }

  lemma ApplyAllFirst<M>(m: M, r: Record, rs: seq<Record>, schema: Schema<M>)
    ensures ApplyAll(m, [r] + rs, schema)
         == if schema.apply(m, r).ok then ApplyAll(schema.apply(m, r).message, rs, schema) else schema.apply(m, r)
  {
    assert ([r] + rs)[1..] == rs;
  }

  lemma {:induction false} ApplyAllSplit<M>(m: M, a: seq<Record>, b: seq<Record>, schema: Schema<M>)
    requires ApplyAll(m, a, schema).ok
    ensures ApplyAll(m, a + b, schema) == ApplyAll(ApplyAll(m, a, schema).message, b, schema)
    decreases |a|
  {
    if a == [] {
      assert a + b == b;
    } else {
      assert (a + b)[1..] == a[1..] + b;
      ApplyAllSplit(schema.apply(m, a[0]).message, a[1..], b, schema);
    }
  }

  /** `merge` commutes with taking in what comes later. */
  ghost predicate Respects<M(!new)>(merge: (M, M) -> M, schema: Schema<M>) {
    forall a, b, r ::
      var early, late := schema.apply(merge(a, b), r), schema.apply(b, r);
      early.ok == late.ok && (late.ok ==> early.message == merge(a, late.message))
  }

  /** Then parsing onto a merged message is merging with what is parsed, on every byte
      string; a failure is a failure in both. */
  lemma {:induction false} ParseMerges<M(!new)>(bytes: seq<byte>, a: M, b: M, merge: (M, M) -> M, schema: Schema<M>)
    requires Respects(merge, schema)
    ensures var early, late := Parse(bytes, merge(a, b), schema), Parse(bytes, b, schema);
            early.ending == late.ending && (!late.ending.Failed? ==> early.message == merge(a, late.message))
    decreases |bytes|
  {
    hide ReadTag, ReadBody;
    var t := ReadTag(bytes);
    if t.Tag? && t.tag % 8 != END_GROUP && ReadBody(t.tag, t.rest).Body? {
      var body := ReadBody(t.tag, t.rest);
      var v := schema.apply(b, body.record);
      if v.ok {
        ParseMerges(body.rest, a, v.message, merge, schema);
      }
    }
  }
}
