/** Bytes, machine words and the small sequence vocabulary shared by all modules. */
module Bytes {

  type byte = b: int | 0 <= b < 0x100
  type uint16 = w: int | 0 <= w < 0x1_0000
  type uint32 = w: int | 0 <= w < 0x1_0000_0000
  type uint64 = w: int | 0 <= w < 0x1_0000_0000_0000_0000

  datatype Option<+T> = None | Some(value: T)

  function Min(a: int, b: int): int { if a < b then a else b }

  function Max(a: int, b: int): int { if a < b then b else a }

  function Zeros(n: nat): (s: seq<byte>)
    ensures |s| == n
  {
    seq(n, _ => 0)
  }

  lemma AppendOne<T>(a: seq<T>, x: T, rest: seq<T>)
    ensures a + ([x] + rest) == a + [x] + rest
  {
  }

  lemma PutOne<T>(a: seq<T>, i: nat, x: T, rest: seq<T>)
    requires i < |a|
    ensures a[..i] + ([x] + rest) == a[i := x][..i + 1] + rest
    ensures a[i := x][i + 1..] == a[i..][1..]
  {
  }

  /** Byte order of the machine the plugin runs on. */
  datatype Host = LittleEndian | BigEndian

  function Htons(host: Host, x: uint16): uint16 {
    if host.BigEndian? then x else x % 0x100 * 0x100 + x / 0x100
  }

  function Htonl(host: Host, x: uint32): uint32 {
    if host.BigEndian? then x
    else x % 0x100 * 0x100_0000 + x / 0x100 % 0x100 * 0x1_0000
         + x / 0x1_0000 % 0x100 * 0x100 + x / 0x100_0000
  }

  /** The two bytes that the shift pair stores for a host-order word after `htons`. */
  function StoreShort(host: Host, x: uint16): (s: seq<byte>)
    ensures |s| == 2
  {
    var y := Htons(host, x);
    [y % 0x100, y / 0x100]
  }

  /** The word that the shift pair and `ntohs` recover from two bytes. */
  function LoadShort(host: Host, s: seq<byte>): uint16
    requires |s| == 2
  {
    Htons(host, s[0] as int + s[1] as int * 0x100)
  }

  function StoreLong(host: Host, x: uint32): (s: seq<byte>)
    ensures |s| == 4
  {
    var y := Htonl(host, x);
    [y % 0x100, y / 0x100 % 0x100, y / 0x1_0000 % 0x100, y / 0x100_0000]
  }

  function LoadLong(host: Host, s: seq<byte>): uint32
    requires |s| == 4
  {
    Htonl(host, s[0] as int + s[1] as int * 0x100 + s[2] as int * 0x1_0000 + s[3] as int * 0x100_0000)
  }

  /** The conversions undo each other on both hosts; the wire carries the most
      significant byte first exactly when the host is little-endian. */
  lemma ShortRoundTrip(host: Host, x: uint16)
    ensures LoadShort(host, StoreShort(host, x)) == x
    ensures host.LittleEndian? ==> StoreShort(host, x) == [x / 0x100, x % 0x100]
    ensures host.BigEndian? ==> StoreShort(host, x) == [x % 0x100, x / 0x100]
  {
  }

  lemma {:induction false} LongRoundTrip(host: Host, x: uint32)
    ensures LoadLong(host, StoreLong(host, x)) == x
    ensures host.LittleEndian? ==>
              StoreLong(host, x) == [x / 0x100_0000, x / 0x1_0000 % 0x100, x / 0x100 % 0x100, x % 0x100]
    ensures host.BigEndian? ==>
              StoreLong(host, x) == [x % 0x100, x / 0x100 % 0x100, x / 0x1_0000 % 0x100, x / 0x100_0000]
  {
    var a, b, c, d := x % 0x100, x / 0x100 % 0x100, x / 0x1_0000 % 0x100, x / 0x100_0000;
    assert x == a + b * 0x100 + c * 0x1_0000 + d * 0x100_0000 by { DigitsOf(x); }
    LongDigits(d, c, b, a);
    if host.LittleEndian? {
      var y := Htonl(host, x);
      assert y == d + c * 0x100 + b * 0x1_0000 + a * 0x100_0000;
      assert StoreLong(host, x) == [d, c, b, a];
    }
  }

  lemma DigitsOf(x: uint32)
    ensures x == x % 0x100 + x / 0x100 % 0x100 * 0x100 + x / 0x1_0000 % 0x100 * 0x1_0000 + x / 0x100_0000 * 0x100_0000
  {
    assert x / 0x100 / 0x100 == x / 0x1_0000;
    assert x / 0x1_0000 / 0x100 == x / 0x100_0000;
  }

  /** Base-256 digits of a four-byte number are the digits it was built from. */
  lemma LongDigits(a: byte, b: byte, c: byte, d: byte)
    ensures var y := a as int + b as int * 0x100 + c as int * 0x1_0000 + d as int * 0x100_0000;
            && y % 0x100 == a && y / 0x100 % 0x100 == b
            && y / 0x1_0000 % 0x100 == c && y / 0x100_0000 == d
  {
    var y := a as int + b as int * 0x100 + c as int * 0x1_0000 + d as int * 0x100_0000;
    assert y / 0x100 == b + c * 0x100 + d * 0x1_0000;
    assert y / 0x1_0000 == c + d * 0x100;
  }
}
