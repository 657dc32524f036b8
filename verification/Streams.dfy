/** The coded streams that generated message code reads from and writes to. */
module Streams {
  import opened Bytes
  import opened Wire

  /** A string field's contents; its length is an int. */
  type Text = s: seq<byte> | |s| < 0x8000_0000

  class CodedInputStream {
    var bytes: seq<byte> // still to be read
    var atLegitimateEnd: bool // the last tag read was the end of the input

    constructor (bytes: seq<byte>)
      ensures this.bytes == bytes && !atLegitimateEnd
    {
      this.bytes, atLegitimateEnd := bytes, false;
    }

    method ReadTag() returns (tag: uint32)
      modifies this
      ensures match Wire.ReadTag(old(bytes))
              case Tag(t, rest) => tag == t && bytes == rest && !atLegitimateEnd
              case AtEnd => tag == 0 && bytes == [] && atLegitimateEnd
              case NoTag => tag == 0 && !atLegitimateEnd
    {
      var read := Wire.ReadTag(bytes);
      atLegitimateEnd := read.AtEnd?;
      tag := 0;
      if read.Tag? {
        tag, bytes := read.tag, read.rest;
      }
    }

    method ReadUInt32() returns (ok: bool, v: uint32)
      modifies this`bytes
      ensures match GetVarint(old(bytes), MAX_VARINT)
              case None => !ok
              case Some(c) => ok && v == c.value % 0x1_0000_0000 && bytes == c.rest
    {
      var read := GetVarint(bytes, MAX_VARINT);
      ok, v := read.Some?, 0;
      if ok {
        v, bytes := read.value.value % 0x1_0000_0000, read.value.rest;
      }
    }

    /** Reads a length and that many bytes. */
    method ReadString() returns (ok: bool, s: Text)
      modifies this`bytes
      ensures match ReadLength(old(bytes))
              case None => !ok
              case Some((data, rest)) => ok && s == data && bytes == rest
    {
      var read := ReadLength(bytes);
      ok, s := read.Some?, [];
      if ok {
        s, bytes := read.value.0, read.value.1;
      }
    }

    method SkipField(tag: uint32) returns (ok: bool, r: Record)
      requires tag > 0
      modifies this`bytes
      ensures match ReadBody(tag, old(bytes))
              case Malformed => !ok
              case Body(record, rest) => ok && r == record && bytes == rest
    {
      var read := ReadBody(tag, bytes);
      ok, r := read.Body?, VarintField(1, 0);
      if ok {
        r, bytes := read.record, read.rest;
      }
    }

    /** Takes the tag if it comes next; may also decline for no reason, as it does at the
        edge of the stream's own buffer. */
    method ExpectTag(tag: byte) returns (taken: bool)
      modifies this`bytes
      ensures taken ==> old(bytes) == [tag] + bytes
      ensures !taken ==> bytes == old(bytes)
    {
      var willing: bool := *;
      taken := willing && bytes != [] && bytes[0] == tag;
      if taken {
        bytes := bytes[1..];
      }
    }

    /** True only at the end of the input; may also decline for no reason. */
    method ExpectAtEnd() returns (atEnd: bool)
      modifies this`atLegitimateEnd
      ensures atEnd ==> bytes == [] && atLegitimateEnd
      ensures !atEnd ==> atLegitimateEnd == old(atLegitimateEnd)
    {
      var willing: bool := *;
      atEnd := willing && bytes == [];
      if atEnd {
        atLegitimateEnd := true;
      }
    }
  }

  class CodedOutputStream {
    var bytes: seq<byte>

    constructor ()
      ensures bytes == []
    {
      bytes := [];
    }

    method WriteUInt32(tag: byte, v: uint32)
      modifies this
      ensures bytes == old(bytes) + ([tag] + PutVarint(v))
    {
      bytes := bytes + ([tag] + PutVarint(v));
    }

    method WriteString(tag: byte, s: Text)
      modifies this
      ensures bytes == old(bytes) + ([tag] + PutVarint(|s|) + s)
    {
      bytes := bytes + ([tag] + PutVarint(|s|) + s);
    }

    method WriteUnknown(rs: seq<Record>)
      modifies this
      ensures bytes == old(bytes) + EncodeAll(rs)
    {
      bytes := bytes + EncodeAll(rs);
    }
  }

  /** `after` is `before` with the bytes stored at the offset. */
  predicate Wrote(before: seq<byte>, after: seq<byte>, at: nat, bytes: seq<byte>) {
    && at + |bytes| <= |before| == |after|
    && after == before[..at] + bytes + before[at + |bytes|..]
  }

  lemma WroteTwice(first: seq<byte>, mid: seq<byte>, last: seq<byte>, at: nat, a: seq<byte>, b: seq<byte>)
    requires Wrote(first, mid, at, a) && Wrote(mid, last, at + |a|, b)
    ensures Wrote(first, last, at, a + b)
  {
    assert mid[..at + |a|] == first[..at] + a;
    assert mid[at + |a| + |b|..] == first[at + |a| + |b|..];
  }

  lemma WroteNothing(s: seq<byte>, at: nat)
    requires at <= |s|
    ensures Wrote(s, s, at, [])
  {
  }

  /** Stores bytes at an offset and returns the offset after them. */
  method WriteToArray(target: array<byte>, at: nat, bytes: seq<byte>) returns (end: nat)
    requires at + |bytes| <= target.Length
    modifies target
    ensures end == at + |bytes|
    ensures Wrote(old(target[..]), target[..], at, bytes)
  {
    end := at;
    while end < at + |bytes|
      invariant at <= end <= at + |bytes|
      invariant forall k :: at <= k < end ==> target[k] == bytes[k - at]
      invariant forall k :: 0 <= k < at || end <= k < target.Length ==> target[k] == old(target[k])
    {
      target[end] := bytes[end - at];
      end := end + 1;
    }
    assert target[..] == old(target[..at]) + bytes + old(target[end..]);
  }

  /** Stores the next bytes after those already written from `at` on. */
  method Put(target: array<byte>, at: nat, from: nat, ghost first: seq<byte>, ghost done: seq<byte>, bytes: seq<byte>)
    returns (end: nat, ghost more: seq<byte>)
    requires from == at + |done| && Wrote(first, target[..], at, done) && from + |bytes| <= target.Length
    modifies target
    ensures more == done + bytes && end == at + |more| && Wrote(first, target[..], at, more)
  {
    ghost var mid := target[..];
    end := WriteToArray(target, from, bytes);
    WroteTwice(first, mid, target[..], at, done, bytes);
    more := done + bytes;
  }

  lemma JoinFive(first: seq<byte>, a: seq<byte>, b: seq<byte>, c: seq<byte>, d: seq<byte>, e: seq<byte>)
    ensures first + a + b + c + d + e == first + (a + b + c + d + e)
  {
  }

  // ---- The bytes of single fields ----

  lemma ShortTagBytes(tag: byte)
    requires tag < 0x80
    ensures PutVarint(tag) == [tag]
  {
  }

  lemma ShortTag(tag: byte, rest: seq<byte>)
    requires 0 < tag < 0x80
    ensures Wire.ReadTag([tag] + rest) == Tag(tag, rest)
  {
    ShortTagBytes(tag);
    hide Wire.ReadTag, PutVarint;
    TagRoundTrip(tag, rest);
  }

  lemma EncodeVarintField(number: nat, v: uint64)
    requires 0 < number < 16
    ensures Encode(VarintField(number, v)) == [number * 8] + PutVarint(v)
  {
    ShortTagBytes(number * 8);
  }

  lemma TagThenText(tag: byte, size: seq<byte>, s: seq<byte>)
    ensures [tag] + (size + s) == [tag] + size + s
  {
  }

  lemma TextParts(number: nat, s: Text)
    requires 0 < number < 16
    ensures Encode(LengthField(number, s)) == PutVarint(number * 8 + 2) + (PutVarint(|s|) + s)
  {
    hide PutVarint;
  }

  lemma {:induction false} EncodeTextField(number: nat, s: Text)
    requires 0 < number < 16
    ensures Encode(LengthField(number, s)) == [number * 8 + 2] + PutVarint(|s|) + s
  {
    hide PutVarint, Encode;
    ShortTagBytes(number * 8 + 2);
    TextParts(number, s);
    TagThenText(number * 8 + 2, PutVarint(|s|), s);
  }

  lemma AppendNothing(s: seq<byte>)
    ensures s + [] == s
  {
  }

  function Last<T>(a: Option<T>, b: Option<T>): Option<T> { if b.Some? then b else a }

  function NumberRecord(number: nat, o: Option<uint32>): seq<Record>
    requires 0 < number < 16
  {
    if o.Some? then [VarintField(number, o.value)] else []
  }

  function TextRecord(number: nat, o: Option<Text>): seq<Record>
    requires 0 < number < 16
  {
    if o.Some? then [LengthField(number, o.value)] else []
  }

  function NumberBytes(tag: byte, o: Option<uint32>): seq<byte> {
    if o.Some? then [tag] + PutVarint(o.value) else []
  }

  function TextBytes(tag: byte, o: Option<Text>): seq<byte> {
    if o.Some? then [tag] + PutVarint(|o.value|) + o.value else []
  }

  lemma EncodeNothing()
    ensures EncodeAll([]) == []
  {
  }

  lemma EncodeOpt(rs: seq<Record>)
    requires |rs| <= 1
    ensures EncodeAll(rs) == if rs == [] then [] else Encode(rs[0])
  {
    if rs != [] {
      assert Encode(rs[0]) + [] == Encode(rs[0]);
    }
  }

  lemma NumberEncoded(number: nat, o: Option<uint32>)
    requires 0 < number < 16
    ensures EncodeAll(NumberRecord(number, o)) == NumberBytes(number * 8, o)
  {
    EncodeOpt(NumberRecord(number, o));
    if o.Some? { EncodeVarintField(number, o.value); }
  }

  lemma TextEncoded(number: nat, o: Option<Text>)
    requires 0 < number < 16
    ensures EncodeAll(TextRecord(number, o)) == TextBytes(number * 8 + 2, o)
  {
    EncodeOpt(TextRecord(number, o));
    if o.Some? { EncodeTextField(number, o.value); }
  }
}
