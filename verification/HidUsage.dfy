/** Finding the Usage Page and Usage in a HID report descriptor (HID 1.11, sections
    6.2.2.2 and 6.2.2.3). */
module HidUsage {
  import opened Bytes

  const USAGE_PAGE: byte := 0x04
  const USAGE: byte := 0x08

  /** What has been seen so far. */
  datatype Found = Found(page: Option<uint16>, usage: Option<uint16>) {
    predicate Both() {
      page.Some? && usage.Some?
    }
  }

  /** The little-endian value of the data after the key at `cur`, or 0 when it is cut off. */
  function GetBytes(rpt: seq<byte>, numBytes: nat, cur: nat): (v: uint32) {
    if cur + numBytes >= |rpt| then 0
    else if numBytes == 1 then rpt[cur + 1]
    else if numBytes == 2 then rpt[cur + 2] as int * 0x100 + rpt[cur + 1] as int
    else if numBytes == 4 then
      rpt[cur + 4] as int * 0x100_0000 + rpt[cur + 3] as int * 0x1_0000 + rpt[cur + 2] as int * 0x100
          + rpt[cur + 1] as int
    else 0
  }

  predicate IsLong(key: byte) { key >= 0xf0 }

  function SizeOf(code: nat): nat
    requires code < 4
  {
    if code == 3 then 4 else code
  }

  function DataLength(rpt: seq<byte>, i: nat): nat
    requires i < |rpt|
  {
    if !IsLong(rpt[i]) then SizeOf(rpt[i] % 4) else if i + 1 < |rpt| then rpt[i + 1] else 0
  }

  function KeySize(key: byte): nat { if IsLong(key) then 3 else 1 }

  /** `found` after looking at the item at i. */
  function Note(rpt: seq<byte>, i: nat, found: Found): Found
    requires i < |rpt|
  {
    var command := rpt[i] - rpt[i] % 4;
    var value := GetBytes(rpt, DataLength(rpt, i), i) % 0x1_0000;
    if command == USAGE_PAGE then found.(page := Some(value))
    else if command == USAGE then found.(usage := Some(value))
    else found
  }

  function Scan(rpt: seq<byte>, i: nat, found: Found): Found
    decreases |rpt| - i
  {
    if i >= |rpt| then found
    else
      var next := Note(rpt, i, found);
      if next.Both() then next else Scan(rpt, i + DataLength(rpt, i) + KeySize(rpt[i]), next)
  }

  /** Returns whether both were found; the two variables of the caller are overwritten as
      the items come by. The index is an unsigned int, which does not wrap for
      descriptors of this size. */
  method GetUsage(rpt: array<byte>, page0: uint16, usage0: uint16) returns (ok: bool, page: uint16, usage: uint16)
    requires rpt.Length <= 0x7fff_ffff
    ensures var f := Scan(rpt[..], 0, Found(None, None));
            && ok == f.Both()
            && page == (if f.page.Some? then f.page.value else page0)
            && usage == (if f.usage.Some? then f.usage.value else usage0)
  {
    page, usage := page0, usage0;
    var usageFound, pageFound := false, false;
    ghost var found := Found(None, None);
    var i := 0;
    while i < rpt.Length
      invariant 0 <= i <= 0xffff_ffff
      invariant Scan(rpt[..], i, found) == Scan(rpt[..], 0, Found(None, None))
      invariant found == Found(if pageFound then Some(page) else None, if usageFound then Some(usage) else None)
      invariant !found.Both()
      invariant !pageFound ==> page == page0
      invariant !usageFound ==> usage == usage0
      decreases rpt.Length - i
    {
      var key := rpt[i];
      var command := key - key % 4;
      var dataLen, keySize;
      if IsLong(key) {
        dataLen := if i + 1 < rpt.Length then rpt[i + 1] else 0;
        keySize := 3;
      } else {
        dataLen := SizeOf(key % 4);
        keySize := 1;
      }
      if command == USAGE_PAGE {
        page := GetBytes(rpt[..], dataLen, i) % 0x1_0000;
        pageFound := true;
      }
      if command == USAGE {
        usage := GetBytes(rpt[..], dataLen, i) % 0x1_0000;
        usageFound := true;
      }
      found := Note(rpt[..], i, found);
      if pageFound && usageFound {
        return true, page, usage;
      }
      i := i + dataLen + keySize;
    }
    ok := false;
  }

  // ---- Against item lists ----

  datatype RawItem = Short(key: byte, data: seq<byte>) | Long(key: byte, tag: byte, data: seq<byte>)

  type Item = item: RawItem | ValidItem(item) witness Short(0, [])

  /** Short items but those with the reserved tag 15, and long items. */
  predicate ValidItem(item: RawItem) {
    match item
    case Short(key, data) => key % 4 == 0 && !IsLong(key) && (|data| <= 2 || |data| == 4)
    case Long(key, _, data) => IsLong(key) && |data| < 0x100
  }

  function Encode(item: Item): (s: seq<byte>)
    ensures s != []
  {
    match item
    case Short(key, data) => [key + if |data| == 4 then 3 else |data|] + data
    case Long(key, tag, data) => [key, |data|, tag] + data
  }

  function EncodeAll(items: seq<Item>): seq<byte>
  {
    if items == [] then [] else Encode(items[0]) + EncodeAll(items[1..])
  }

  function Value(data: seq<byte>): nat {
    if data == [] then 0 else data[0] + 0x100 * Value(data[1..])
  }

  /** The low 16 bits of the last item with the given key. */
  function Latest(items: seq<Item>, key: byte): Option<uint16> {
    if items == [] then None
    else
      var last := items[|items| - 1];
      if last.Short? && last.key == key then Some(Value(last.data) % 0x1_0000)
      else Latest(items[..|items| - 1], key)
  }

  function After(items: seq<Item>, n: nat): Found
    requires n <= |items|
  {
    Found(Latest(items[..n], USAGE_PAGE), Latest(items[..n], USAGE))
  }

  /** The number of items read until both kinds have been seen, at least n. */
  function Needed(items: seq<Item>, n: nat): (k: nat)
    requires n <= |items|
    ensures n <= k <= |items|
    ensures After(items, k).Both() || k == |items|
    ensures forall j :: n <= j < k ==> !After(items, j).Both()
    decreases |items| - n
  {
    if After(items, n).Both() || n == |items| then n else Needed(items, n + 1)
  }

  lemma SizeCode(key: byte, n: nat)
    requires key % 4 == 0 && !IsLong(key) && (n <= 2 || n == 4)
    ensures var k := key + if n == 4 then 3 else n; k < 0xf0 && SizeOf(k % 4) == n && k - k % 4 == key
  {
  }

  /** Looking at an encoded item is noting its value, and skips exactly the item. */
  lemma NoteItem(rpt: seq<byte>, i: nat, item: Item, found: Found)
    requires i + |Encode(item)| <= |rpt| && rpt[i..i + |Encode(item)|] == Encode(item)
    ensures DataLength(rpt, i) + KeySize(rpt[i]) == |Encode(item)|
    ensures Note(rpt, i, found) == Apply(item, found)
  {
    var bytes := Encode(item);
    assert rpt[i..i + |bytes|][0] == bytes[0];
    match item
    case Short(key, data) =>
      SizeCode(key, |data|);
      assert bytes[1..] == data == rpt[i + 1..i + 1 + |data|];
      ValueDigits(data);
    case Long(key, _, data) =>
      assert rpt[i..i + |bytes|][1] == bytes[1];
  }

  function Apply(item: Item, found: Found): Found {
    if item.Short? && item.key == USAGE_PAGE then found.(page := Some(Value(item.data) % 0x1_0000))
    else if item.Short? && item.key == USAGE then found.(usage := Some(Value(item.data) % 0x1_0000))
    else found
  }

  lemma ValueDigits(data: seq<byte>)
    requires |data| <= 2 || |data| == 4
    ensures Value(data) == match |data|
                           case 0 => 0
                           case 1 => data[0]
                           case 2 => data[1] as int * 0x100 + data[0] as int
                           case _ =>
                             data[3] as int * 0x100_0000 + data[2] as int * 0x1_0000
                             + data[1] as int * 0x100 + data[0] as int
  {
    if |data| == 2 {
      assert Value(data[1..]) == data[1] + 0x100 * Value(data[1..][1..]);
    } else if |data| == 4 {
      ValueDigits(data[2..]);
      assert data[1..][1..] == data[2..];
    }
  }

  lemma EncodeAllFirst(items: seq<Item>, n: nat)
    requires n < |items|
    ensures EncodeAll(items[n..]) == Encode(items[n]) + EncodeAll(items[n + 1..])
  {
    hide Encode;
    assert items[n..][1..] == items[n + 1..];
  }

  lemma EncodeAllNone(items: seq<Item>)
    ensures EncodeAll(items[|items|..]) == []
  {
  }

  lemma {:induction false} ScanItem(before: seq<byte>, item: Item, tail: seq<byte>, found: Found)
    ensures var rpt, next := before + (Encode(item) + tail), Apply(item, found);
            Scan(rpt, |before|, found) == if next.Both() then next else Scan(rpt, |before| + |Encode(item)|, next)
  {
    hide Note, DataLength, KeySize, Apply, Encode;
    var rpt := before + (Encode(item) + tail);
    assert rpt[|before|..|before| + |Encode(item)|] == Encode(item);
    NoteItem(rpt, |before|, item, found);
  }

  lemma ScanNothing(before: seq<byte>, found: Found)
    ensures Scan(before + [], |before|, found) == found
  {
  }

  lemma JoinParts(a: seq<byte>, b: seq<byte>, c: seq<byte>)
    ensures a + (b + c) == (a + b) + c
  {
  }

  lemma {:induction false} ScanFrom(before: seq<byte>, items: seq<Item>, n: nat)
    requires n <= |items|
    requires n < |items| ==> !After(items, n).Both()
    ensures Scan(before + EncodeAll(items[n..]), |before|, After(items, n)) == After(items, Needed(items, n))
    decreases |items| - n
  {
    hide Scan, Apply, After, Encode, EncodeAll;
    if n == |items| {
      EncodeAllNone(items);
      ScanNothing(before, After(items, n));
    } else {
      var item, tail := items[n], EncodeAll(items[n + 1..]);
      EncodeAllFirst(items, n);
      ScanItem(before, item, tail, After(items, n));
      LatestStep(items, n);
      if !After(items, n + 1).Both() {
        JoinParts(before, Encode(item), tail);
        ScanFrom(before + Encode(item), items, n + 1);
      }
    }
  }

  lemma LatestStep(items: seq<Item>, n: nat)
    requires n < |items|
    ensures After(items, n + 1) == Apply(items[n], After(items, n))
  {
    assert items[..n + 1][..n] == items[..n];
  }

  predicate Occurs(items: seq<Item>, key: byte) {
    exists i :: 0 <= i < |items| && items[i].Short? && items[i].key == key
  }

  lemma {:induction false} LatestOccurs(items: seq<Item>, key: byte)
    ensures Latest(items, key).Some? <==> Occurs(items, key)
  {
    if items != [] {
      var n := |items| - 1;
      LatestOccurs(items[..n], key);
      if Occurs(items, key) && !(items[n].Short? && items[n].key == key) {
        var i :| 0 <= i < |items| && items[i].Short? && items[i].key == key;
        assert items[..n][i] == items[i];
      }
      if Occurs(items[..n], key) {
        var i :| 0 <= i < n && items[..n][i].Short? && items[..n][i].key == key;
        assert items[i].Short? && items[i].key == key;
      }
    }
  }

  /** On the encoding of any item list the scan succeeds exactly when both kinds occur,
      and yields the latest of each among the items up to the first by which both have
      been seen. */
  lemma ScanItems(items: seq<Item>)
    ensures var f := Scan(EncodeAll(items), 0, Found(None, None));
            && f == After(items, Needed(items, 0))
            && (f.Both() <==> Occurs(items, USAGE_PAGE) && Occurs(items, USAGE))
  {
    assert items[..0] == [] && items[0..] == items && [] + EncodeAll(items) == EncodeAll(items);
    ScanFrom([], items, 0);
    LatestOccurs(items, USAGE_PAGE);
    LatestOccurs(items, USAGE);
    assert items[..|items|] == items;
    if !After(items, Needed(items, 0)).Both() {
      assert Needed(items, 0) == |items|;
    } else {
      LatestGrows(items, Needed(items, 0), USAGE_PAGE);
      LatestGrows(items, Needed(items, 0), USAGE);
    }
  }

  lemma LatestGrows(items: seq<Item>, n: nat, key: byte)
    requires n <= |items| && Latest(items[..n], key).Some?
    ensures Latest(items, key).Some?
  {
    LatestOccurs(items[..n], key);
    var i :| 0 <= i < n && items[..n][i].Short? && items[..n][i].key == key;
    assert items[i].Short? && items[i].key == key;
    LatestOccurs(items, key);
  }

  /** The first n bytes of a short item's data, behind its key. */
  function CutShort(item: Item, n: nat): seq<byte>
    requires item.Short? && n < |item.data|
  {
    [item.key + if |item.data| == 4 then 3 else |item.data|] + item.data[..n]
  }

  /** What an item counts as when its data is cut off. */
  function ZeroFor(item: Item, found: Found): Found {
    if item.Short? && item.key == USAGE_PAGE then found.(page := Some(0))
    else if item.Short? && item.key == USAGE then found.(usage := Some(0)) else found
  }

  lemma NoteCut(rpt: seq<byte>, i: nat, item: Item, n: nat, found: Found)
    requires item.Short? && n < |item.data| && i < |rpt|
    requires rpt[i] as int == item.key as int + (if |item.data| == 4 then 3 else |item.data|) && |rpt| == i + 1 + n
    ensures Note(rpt, i, found) == ZeroFor(item, found) && |rpt| <= i + DataLength(rpt, i) + KeySize(rpt[i])
  {
    SizeCode(item.key, |item.data|);
    assert GetBytes(rpt, |item.data|, i) == 0;
  }

  lemma ScanEnds(rpt: seq<byte>, i: nat, found: Found)
    requires i < |rpt| <= i + DataLength(rpt, i) + KeySize(rpt[i])
    ensures Scan(rpt, i, found) == Note(rpt, i, found)
  {
    hide Note, DataLength, KeySize;
    assert Scan(rpt, i + DataLength(rpt, i) + KeySize(rpt[i]), Note(rpt, i, found)) == Note(rpt, i, found);
  }

  /** On a descriptor that ends in the middle of a short item, the value of that item
      counts as zero and the scan ends there. */
  lemma ScanCut(items: seq<Item>, item: Item, n: nat)
    requires item.Short? && n < |item.data| && !After(items, |items|).Both()
    ensures Scan(EncodeAll(items) + CutShort(item, n), 0, Found(None, None)) == ZeroFor(item, After(items, |items|))
  {
    hide Scan, After, EncodeAll, Note, DataLength, KeySize, ZeroFor;
    var before, cut := EncodeAll(items), CutShort(item, n);
    ScanOn([], items, 0, cut);
    assert items[0..] == items && [] + (before + cut) == before + cut && [] + before == before;
    NothingFound(items);
    NoteCut(before + cut, |before|, item, n, After(items, |items|));
    ScanEnds(before + cut, |before|, After(items, |items|));
  }

  lemma NothingFound(items: seq<Item>)
    ensures After(items, 0) == Found(None, None)
  {
    assert items[..0] == [];
  }

  /** Scanning goes through encoded items to what is behind them. */
  lemma {:induction false} ScanOn(before: seq<byte>, items: seq<Item>, n: nat, tail: seq<byte>)
    requires n <= |items| && !After(items, |items|).Both()
    ensures Scan(before + (EncodeAll(items[n..]) + tail), |before|, After(items, n))
         == Scan(before + EncodeAll(items[n..]) + tail, |before + EncodeAll(items[n..])|, After(items, |items|))
    decreases |items| - n
  {
    hide Scan, Apply, After, Encode, EncodeAll;
    if n == |items| {
      EncodeAllNone(items);
      assert before + ([] + tail) == before + [] + tail && before + [] == before;
    } else {
      var item, later := items[n], EncodeAll(items[n + 1..]);
      EncodeAllFirst(items, n);
      assert Encode(item) + later + tail == Encode(item) + (later + tail);
      ScanItem(before, item, later + tail, After(items, n));
      LatestStep(items, n);
      NotBothBefore(items, n + 1);
      assert before + (Encode(item) + (later + tail)) == before + Encode(item) + (later + tail);
      ScanOn(before + Encode(item), items, n + 1, tail);
      assert before + Encode(item) + later == before + (Encode(item) + later);
    }
  }

  lemma NotBothBefore(items: seq<Item>, n: nat)
    requires n <= |items| && !After(items, |items|).Both()
    ensures !After(items, n).Both()
  {
    assert items[..|items|] == items;
    if After(items, n).Both() {
      LatestGrows(items, n, USAGE_PAGE);
      LatestGrows(items, n, USAGE);
    }
  }
}
