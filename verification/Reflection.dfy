/** Conversion between protobuf messages and the variant maps of the browser, driven by a
    tree of field descriptors. */
module Reflection {
  import opened Bytes

  // ---- Messages, descriptors, variants ----

  /** The plain values that a message field and a variant can both hold. */
  datatype Scalar =
    | OfDouble(d: real) | OfFloat(f: real)
    | OfInt64(i: int) | OfUInt64(i: int) | OfInt32(i: int) | OfUInt32(i: int)
    | OfBool(b: bool) | OfString(s: string)

  datatype ScalarKind = KDouble | KFloat | KInt64 | KUInt64 | KInt32 | KUInt32 | KBool | KString

  /** Other stands for the field types that the conversion does not know. */
  datatype Kind =
    | Plain(scalar: ScalarKind)
    | Raw
    | Enum(values: seq<(string, int)>)
    | Nested(fields: seq<Field>)
    | Other

  datatype Field = Field(name: string, kind: Kind, repeated: bool)

  datatype Value =
    | PlainValue(scalar: Scalar)
    | RawValue(bytes: seq<byte>)
    | EnumValue(number: int)
    | Message(slots: seq<Slot>)
    | OtherValue

  /** What a message holds for one field of its descriptor. */
  datatype Slot = Absent | One(value: Value) | Many(values: seq<Value>)

  datatype Variant = Scalar(scalar: Scalar) | List(items: seq<Variant>) | Map(entries: map<string, Variant>)

  datatype Result<+T> = Ok(value: T) | Err

  function KindOf(s: Scalar): ScalarKind {
    match s
    case OfDouble(_) => KDouble
    case OfFloat(_) => KFloat
    case OfInt64(_) => KInt64
    case OfUInt64(_) => KUInt64
    case OfInt32(_) => KInt32
    case OfUInt32(_) => KUInt32
    case OfBool(_) => KBool
    case OfString(_) => KString
  }

  // ---- Enums ----

  function FindNumber(values: seq<(string, int)>, number: int): Option<string> {
    if values == [] then None
    else if values[0].1 == number then Some(values[0].0)
    else FindNumber(values[1..], number)
  }

  function FindName(values: seq<(string, int)>, name: string): Option<int> {
    if values == [] then None
    else if values[0].0 == name then Some(values[0].1)
    else FindName(values[1..], name)
  }

  predicate DistinctNames(values: seq<(string, int)>) {
    forall i, j :: 0 <= i < j < |values| ==> values[i].0 != values[j].0
  }

  lemma {:induction false} NameFound(values: seq<(string, int)>, i: nat)
    requires i < |values| && DistinctNames(values)
    ensures FindName(values, values[i].0) == Some(values[i].1)
  {
    if i > 0 {
      NameFound(values[1..], i - 1);
    }
  }

  lemma {:induction false} NumberFound(values: seq<(string, int)>, number: int) returns (i: nat)
    requires FindNumber(values, number).Some?
    ensures i < |values| && values[i] == (FindNumber(values, number).value, number)
    ensures forall j :: 0 <= j < i ==> values[j].1 != number
  {
    if values[0].1 == number {
      i := 0;
    } else {
      var j := NumberFound(values[1..], number);
      i := j + 1;
    }
  }

  /** The name of a number leads back to the number, aliases included. */
  lemma EnumRoundTrip(values: seq<(string, int)>, number: int)
    requires DistinctNames(values) && FindNumber(values, number).Some?
    ensures FindName(values, FindNumber(values, number).value) == Some(number)
  {
    var i := NumberFound(values, number);
    NameFound(values, i);
  }

  // ---- Hex ----

  const HEX := "0123456789ABCDEF"

  function HexEncode(bytes: seq<byte>): string {
    if bytes == [] then [] else [HEX[bytes[0] / 16], HEX[bytes[0] % 16]] + HexEncode(bytes[1..])
  }

  function HexDigit(c: char): (d: Option<int>)
    ensures d.Some? ==> 0 <= d.value < 16
  {
    if '0' <= c <= '9' then Some(c as int - '0' as int)
    else if 'A' <= c <= 'F' then Some(c as int - 'A' as int + 10)
    else if 'a' <= c <= 'f' then Some(c as int - 'a' as int + 10)
    else None
  }

  function HexDecode(s: string): Result<seq<byte>> {
    if s == "" then Ok([])
    else if |s| == 1 then Err
    else
      match (HexDigit(s[0]), HexDigit(s[1]), HexDecode(s[2..]))
      case (Some(a), Some(b), Ok(rest)) => Ok([a * 16 + b] + rest)
      case _ => Err
  }

  lemma {:induction false} HexRoundTrip(bytes: seq<byte>)
    ensures HexDecode(HexEncode(bytes)) == Ok(bytes)
  {
    assert |HEX| == 16;
    hide HexDigit, HEX, HexDecode, HexEncode;
    if bytes == [] {
      NoHex();
    } else {
      var high, low := bytes[0] / 16, bytes[0] % 16;
      HexRoundTrip(bytes[1..]);
      assert bytes == [high * 16 + low] + bytes[1..];
      HexEncodeFirst(high, low, bytes[1..]);
      assert [HEX[high]] + [HEX[low]] == [HEX[high], HEX[low]];
      DigitRoundTrip(high);
      DigitRoundTrip(low);
      HexDecodeFirst(HEX[high], HEX[low], HexEncode(bytes[1..]));
    }
  }

  lemma NoHex()
    ensures HexEncode([]) == "" && HexDecode("") == Ok([])
  {
  }

  lemma HexDecodeFirst(a: char, b: char, rest: string)
    ensures HexDecode([a, b] + rest) ==
            match (HexDigit(a), HexDigit(b), HexDecode(rest))
            case (Some(x), Some(y), Ok(bytes)) => Ok([x * 16 + y] + bytes)
            case _ => Err
  {
    hide HexDigit;
    assert ([a, b] + rest)[2..] == rest;
  }

  lemma DigitRoundTrip(n: nat)
    requires n < 16
    ensures HexDigit(HEX[n]) == Some(n)
  {
  }

  // ---- From messages to variants ----

  function ToVariant(v: Value, kind: Kind): Result<Variant>
    decreases v, 0
  {
    match (kind, v)
    case (Plain(_), PlainValue(s)) => Ok(Scalar(s))
    case (Raw, RawValue(bytes)) => Ok(Scalar(OfString(HexEncode(bytes))))
    case (Enum(values), EnumValue(n)) =>
      (match FindNumber(values, n)
       case Some(name) => Ok(Scalar(OfString(name)))
       case None => Err)
    case (Nested(fields), Message(slots)) =>
      (match ToMap(slots, fields)
       case Ok(entries) => Ok(Map(entries))
       case Err => Err)
    case _ => Err
  }

  /** 64-bit integers are refused outright, and strings and bytes as soon as there is an
      element, because the accessor for singular fields is used on a repeated one. */
  predicate Refuses(kind: Kind, count: nat) {
    || kind.Other?
    || kind == Plain(KInt64)
    || kind == Plain(KUInt64)
    || (count > 0 && (kind == Plain(KString) || kind.Raw?))
  }

  function ToItems(vs: seq<Value>, kind: Kind): Result<seq<Variant>>
    decreases vs, 1
  {
    if vs == [] then Ok([])
    else
      match (ToVariant(vs[0], kind), ToItems(vs[1..], kind))
      case (Ok(first), Ok(rest)) => Ok([first] + rest)
      case _ => Err
  }

  function ToList(vs: seq<Value>, kind: Kind): Result<Variant>
    decreases vs, 2
  {
    if Refuses(kind, |vs|) then Err
    else
      match ToItems(vs, kind)
      case Ok(items) => Ok(List(items))
      case Err => Err
  }

  /** The entry a field contributes: repeated fields always have one, others when present. */
  function ToEntry(slot: Slot, f: Field): Result<Option<Variant>>
    decreases slot, 0
  {
    match slot
    case Many(vs) =>
      (match ToList(vs, f.kind)
       case Ok(v) => Ok(Some(v))
       case Err => Err)
    case One(v) =>
      (match ToVariant(v, f.kind)
       case Ok(w) => Ok(Some(w))
       case Err => Err)
    case Absent => Ok(None)
  }

  function Put(o: Option<Variant>, name: string): map<string, Variant> {
    if o.Some? then map[name := o.value] else map[]
  }

  function ToMap(slots: seq<Slot>, fields: seq<Field>): Result<map<string, Variant>>
    decreases slots, 1
  {
    if slots == [] || fields == [] then Ok(map[])
    else
      match (ToEntry(slots[0], fields[0]), ToMap(slots[1..], fields[1..]))
      case (Ok(entry), Ok(rest)) => Ok(Put(entry, fields[0].name) + rest)
      case _ => Err
  }

  // ---- From variants to messages ----

  function FreshSlot(f: Field): Slot { if f.repeated then Many([]) else Absent }

  function Fresh(fields: seq<Field>): (s: seq<Slot>)
    ensures |s| == |fields|
  {
    if fields == [] then [] else [FreshSlot(fields[0])] + Fresh(fields[1..])
  }

  /** Parses onto the value that the field holds, if any: a nested message is parsed into,
      anything else is replaced. */
  function FromVariant(kind: Kind, current: Option<Value>, w: Variant): Result<Value>
    decreases kind, 0
  {
    match (kind, w)
    case (Plain(k), Scalar(s)) => if KindOf(s) == k then Ok(PlainValue(s)) else Err
    case (Raw, Scalar(OfString(s))) =>
      (match HexDecode(s)
       case Ok(bytes) => Ok(RawValue(bytes))
       case Err => Err)
    case (Enum(values), Scalar(OfString(name))) =>
      (match FindName(values, name)
       case Some(n) => Ok(EnumValue(n))
       case None => Err)
    case (Nested(fields), Map(entries)) =>
      var slots := if current.Some? && current.value.Message? && |current.value.slots| == |fields|
          then current.value.slots else Fresh(fields);
      (match FromMap(fields, slots, entries)
       case Ok(next) => Ok(Message(next))
       case Err => Err)
    case _ => Err
  }

  function FromItems(kind: Kind, ws: seq<Variant>): Result<seq<Value>>
    decreases kind, 1, |ws|
  {
    if ws == [] then Ok([])
    else
      match (FromVariant(kind, None, ws[0]), FromItems(kind, ws[1..]))
      case (Ok(first), Ok(rest)) => Ok([first] + rest)
      case _ => Err
  }

  function FromEntry(f: Field, slot: Slot, entries: map<string, Variant>): Result<Slot>
    decreases f
  {
    if f.name !in entries then Ok(slot)
    else if f.repeated then
      if f.kind.Other? || !entries[f.name].List? then Err
      else
        match FromItems(f.kind, entries[f.name].items)
        case Ok(vs) => Ok(Many((if slot.Many? then slot.values else []) + vs))
        case Err => Err
    else
      match FromVariant(f.kind, if slot.One? then Some(slot.value) else None, entries[f.name])
      case Ok(v) => Ok(One(v))
      case Err => Err
  }

  function FromMap(fields: seq<Field>, slots: seq<Slot>, entries: map<string, Variant>): (r: Result<seq<Slot>>)
    requires |slots| == |fields|
    ensures r.Ok? ==> |r.value| == |fields|
    decreases fields
  {
    if fields == [] then Ok([])
    else
      match (FromEntry(fields[0], slots[0], entries), FromMap(fields[1..], slots[1..], entries))
      case (Ok(first), Ok(rest)) => Ok([first] + rest)
      case _ => Err
  }

  // ---- Typing and merging ----

  predicate Typed(v: Value, kind: Kind)
    decreases v, 0
  {
    match (kind, v)
    case (Plain(k), PlainValue(s)) => KindOf(s) == k
    case (Raw, RawValue(_)) => true
    case (Enum(values), EnumValue(n)) => FindNumber(values, n).Some?
    case (Nested(fields), Message(slots)) => TypedSlots(slots, fields)
    case (Other, OtherValue) => true
    case _ => false
  }

  predicate TypedSlot(slot: Slot, f: Field)
    decreases slot, 0
  {
    match slot
    case Absent => !f.repeated
    case One(v) => !f.repeated && Typed(v, f.kind)
    case Many(vs) => f.repeated && forall v <- vs :: Typed(v, f.kind)
  }

  predicate TypedSlots(slots: seq<Slot>, fields: seq<Field>)
    decreases slots, 1
  {
    |slots| == |fields| && forall i :: 0 <= i < |slots| ==> TypedSlot(slots[i], fields[i])
  }

  /** Field names are distinct in each message, and value names in each enum. */
  predicate WellFormed(kind: Kind)
    decreases kind, 0
  {
    match kind
    case Enum(values) => DistinctNames(values)
    case Nested(fields) => WellFormedFields(fields)
    case _ => true
  }

  predicate WellFormedFields(fields: seq<Field>)
    decreases fields, 1
  {
    && (forall i, j :: 0 <= i < j < |fields| ==> fields[i].name != fields[j].name)
    && forall f <- fields :: WellFormed(f.kind)
  }

  /** Merging as the library does it: present singular values replace, nested messages
      merge, repeated values are appended. */
  function MergeValue(current: Option<Value>, v: Value): Value
    decreases v, 0
  {
    if current.Some? && current.value.Message? && v.Message? && |current.value.slots| == |v.slots|
    then Message(MergeSlots(current.value.slots, v.slots)) else v
  }

  function MergeSlot(a: Slot, b: Slot): Slot
    decreases b, 0
  {
    match b
    case Absent => a
    case One(v) => One(MergeValue(if a.One? then Some(a.value) else None, v))
    case Many(vs) => Many((if a.Many? then a.values else []) + vs)
  }

  function MergeSlots(a: seq<Slot>, b: seq<Slot>): (s: seq<Slot>)
    requires |a| == |b|
    ensures |s| == |b|
    decreases b, 1
  {
    if b == [] then [] else [MergeSlot(a[0], b[0])] + MergeSlots(a[1..], b[1..])
  }

  /** Merging into a fresh message gives the message. */
  lemma {:induction false} MergeFresh(fields: seq<Field>, slots: seq<Slot>)
    requires TypedSlots(slots, fields)
    ensures MergeSlots(Fresh(fields), slots) == slots
    decreases |fields|
  {
    if fields != [] {
      assert TypedSlot(slots[0], fields[0]);
      assert TypedSlots(slots[1..], fields[1..]) by {
        assert forall i :: 0 <= i < |slots| - 1 ==> slots[1..][i] == slots[i + 1] && fields[1..][i] == fields[i + 1];
      }
      MergeFresh(fields[1..], slots[1..]);
      assert slots[0].Many? ==> [] + slots[0].values == slots[0].values;
      assert MergeSlot(FreshSlot(fields[0]), slots[0]) == slots[0];
      assert Fresh(fields)[1..] == Fresh(fields[1..]);
      assert slots == [slots[0]] + slots[1..];
    }
  }

  // ---- The conversion laws ----

  /** A map agrees with a message on a field: same presence, converted value. */
  ghost predicate EntryAgrees(entries: map<string, Variant>, slot: Slot, f: Field) {
    match ToEntry(slot, f)
    case Err => false
    case Ok(None) => f.name !in entries
    case Ok(Some(v)) => f.name in entries && entries[f.name] == v
  }

  ghost predicate Agrees(entries: map<string, Variant>, slots: seq<Slot>, fields: seq<Field>) {
    |slots| == |fields| && forall i :: 0 <= i < |slots| ==> EntryAgrees(entries, slots[i], fields[i])
  }

  lemma {:induction false} ToMapAgrees(slots: seq<Slot>, fields: seq<Field>)
    requires |slots| == |fields| && ToMap(slots, fields).Ok?
    requires forall i, j :: 0 <= i < j < |fields| ==> fields[i].name != fields[j].name
    ensures Agrees(ToMap(slots, fields).value, slots, fields)
    ensures forall name <- ToMap(slots, fields).value :: exists f <- fields :: f.name == name
    decreases |fields|
  {
    if fields != [] {
      hide ToEntry;
      var rest := ToMap(slots[1..], fields[1..]).value;
      ToMapAgrees(slots[1..], fields[1..]);
      var all := ToMap(slots, fields).value;
      assert forall j :: 0 <= j < |fields| - 1 ==> fields[1..][j] == fields[j + 1];
      assert forall f <- fields[1..] :: f.name != fields[0].name;
      forall i | 0 <= i < |slots| ensures EntryAgrees(all, slots[i], fields[i]) {
        if i > 0 {
          assert EntryAgrees(rest, slots[1..][i - 1], fields[1..][i - 1]);
        }
      }
      forall name <- all ensures exists f <- fields :: f.name == name {
        if name in rest {
          var f :| f in fields[1..] && f.name == name;
          assert f in fields;
        } else {
          assert fields[0] in fields;
        }
      }
    }
  }

  lemma {:induction false} ValueConverts(kind: Kind, current: Option<Value>, v: Value)
    requires WellFormed(kind) && Typed(v, kind) && ToVariant(v, kind).Ok?
    requires current.Some? ==> Typed(current.value, kind)
    ensures FromVariant(kind, current, ToVariant(v, kind).value) == Ok(MergeValue(current, v))
    decreases v, 0
  {
    match (kind, v)
    case (Plain(_), PlainValue(_)) =>
    case (Raw, RawValue(bytes)) => HexRoundTrip(bytes);
    case (Enum(values), EnumValue(n)) => EnumRoundTrip(values, n);
    case (Nested(fields), Message(slots)) =>
      var entries := ToMap(slots, fields).value;
      var base := if current.Some? then current.value.slots else Fresh(fields);
      FreshTyped(fields);
      ToMapAgrees(slots, fields);
      SlotsConvert(fields, base, slots, entries);
      if current.None? {
        MergeFresh(fields, slots);
      }
  }

  lemma {:induction false} FreshTyped(fields: seq<Field>)
    ensures TypedSlots(Fresh(fields), fields)
    decreases |fields|
  {
    if fields != [] {
      FreshTyped(fields[1..]);
      var s := Fresh(fields);
      forall i | 0 <= i < |s| ensures TypedSlot(s[i], fields[i]) {
        if i > 0 {
          assert s[i] == Fresh(fields[1..])[i - 1] && fields[i] == fields[1..][i - 1];
        }
      }
    }
  }

  lemma {:induction false} ItemsConvert(kind: Kind, vs: seq<Value>)
    requires WellFormed(kind) && ToItems(vs, kind).Ok? && forall v <- vs :: Typed(v, kind)
    ensures FromItems(kind, ToItems(vs, kind).value) == Ok(vs)
    decreases vs, 1
  {
    if vs != [] {
      hide ToVariant, FromVariant, Typed;
      assert vs[0] in vs;
      ValueConverts(kind, None, vs[0]);
      assert forall v <- vs[1..] :: v in vs;
      ItemsConvert(kind, vs[1..]);
      assert ToItems(vs, kind).value[1..] == ToItems(vs[1..], kind).value;
      assert vs == [vs[0]] + vs[1..];
    }
  }

  lemma {:induction false} SlotConverts(f: Field, a: Slot, b: Slot, entries: map<string, Variant>)
    requires WellFormed(f.kind) && TypedSlot(a, f) && TypedSlot(b, f) && EntryAgrees(entries, b, f)
    ensures FromEntry(f, a, entries) == Ok(MergeSlot(a, b))
    decreases b, 0
  {
    hide ToVariant, FromVariant, Typed, MergeValue;
    match b
    case Absent =>
    case One(v) => ValueConverts(f.kind, if a.One? then Some(a.value) else None, v);
    case Many(vs) =>
      assert ToEntry(b, f).Ok?;
      assert ToList(vs, f.kind).Ok?;
      ItemsConvert(f.kind, vs);
  }

  lemma {:induction false} SlotsConvert(fields: seq<Field>, a: seq<Slot>, b: seq<Slot>, entries: map<string, Variant>)
    requires forall f <- fields :: WellFormed(f.kind)
    requires TypedSlots(a, fields) && TypedSlots(b, fields) && Agrees(entries, b, fields)
    ensures FromMap(fields, a, entries) == Ok(MergeSlots(a, b))
    decreases b, 1
  {
    if fields != [] {
      hide TypedSlot, EntryAgrees, FromEntry, MergeSlot, WellFormed;
      assert fields[0] in fields;
      assert TypedSlot(a[0], fields[0]) && TypedSlot(b[0], fields[0]) && EntryAgrees(entries, b[0], fields[0]);
      SlotConverts(fields[0], a[0], b[0], entries);
      TailTyped(a, fields);
      TailTyped(b, fields);
      assert Agrees(entries, b[1..], fields[1..]) by {
        forall i | 0 <= i < |b| - 1 ensures EntryAgrees(entries, b[1..][i], fields[1..][i]) {
          assert EntryAgrees(entries, b[i + 1], fields[i + 1]);
        }
      }
      SlotsConvert(fields[1..], a[1..], b[1..], entries);
    }
  }

  lemma TailTyped(slots: seq<Slot>, fields: seq<Field>)
    requires TypedSlots(slots, fields) && fields != []
    ensures TypedSlots(slots[1..], fields[1..])
  {
    hide TypedSlot;
    forall i | 0 <= i < |slots| - 1 ensures TypedSlot(slots[1..][i], fields[1..][i]) {
      assert TypedSlot(slots[i + 1], fields[i + 1]);
    }
  }

  /** Parsing the map of one message onto another merges the first into the second. */
  lemma MapMerges(fields: seq<Field>, onto: seq<Slot>, slots: seq<Slot>)
    requires WellFormedFields(fields) && TypedSlots(onto, fields) && TypedSlots(slots, fields)
    requires ToMap(slots, fields).Ok?
    ensures FromMap(fields, onto, ToMap(slots, fields).value) == Ok(MergeSlots(onto, slots))
  {
    ToMapAgrees(slots, fields);
    SlotsConvert(fields, onto, slots, ToMap(slots, fields).value);
  }

  /** Parsing the map of a message into a fresh one rebuilds it, with its presence and
      through all nested and repeated messages. */
  lemma MapRoundTrip(fields: seq<Field>, slots: seq<Slot>)
    requires WellFormedFields(fields) && TypedSlots(slots, fields) && ToMap(slots, fields).Ok?
    ensures FromMap(fields, Fresh(fields), ToMap(slots, fields).value) == Ok(slots)
  {
    FreshTyped(fields);
    MapMerges(fields, Fresh(fields), slots);
    MergeFresh(fields, slots);
  }

  // ---- Exactly which messages have a map ----

  predicate Convertible(v: Value, kind: Kind)
    decreases v, 0
  {
    match (kind, v)
    case (Other, _) => false
    case (Nested(fields), Message(slots)) => ConvertibleSlots(slots, fields)
    case _ => true
  }

  /** Repeated floating-point numbers, 32-bit integers, booleans, enums and messages can be
      converted; strings and bytes when there are none. */
  predicate Repeatable(kind: Kind, count: nat) {
    match kind
    case Plain(k) => k.KDouble? || k.KFloat? || k.KInt32? || k.KUInt32? || k.KBool? || (k.KString? && count == 0)
    case Raw => count == 0
    case Enum(_) => true
    case Nested(_) => true
    case Other => false
  }

  predicate ConvertibleSlot(slot: Slot, f: Field)
    decreases slot, 0
  {
    match slot
    case Absent => true
    case One(v) => Convertible(v, f.kind)
    case Many(vs) => Repeatable(f.kind, |vs|) && forall v <- vs :: Convertible(v, f.kind)
  }

  predicate ConvertibleSlots(slots: seq<Slot>, fields: seq<Field>)
    decreases slots, 1
  {
    forall i :: 0 <= i < |slots| && i < |fields| ==> ConvertibleSlot(slots[i], fields[i])
  }

  lemma {:induction false} ValueHasVariant(v: Value, kind: Kind)
    requires Typed(v, kind)
    ensures ToVariant(v, kind).Ok? <==> Convertible(v, kind)
    decreases v, 0
  {
    if kind.Nested? && v.Message? {
      SlotsHaveMap(v.slots, kind.fields);
    }
  }

  lemma {:induction false} ItemsHaveVariants(vs: seq<Value>, kind: Kind)
    requires forall v <- vs :: Typed(v, kind)
    ensures ToItems(vs, kind).Ok? <==> forall v <- vs :: Convertible(v, kind)
    decreases vs, 1
  {
    if vs != [] {
      hide ToVariant, Convertible, Typed;
      assert vs[0] in vs;
      ValueHasVariant(vs[0], kind);
      assert forall v <- vs[1..] :: v in vs;
      assert forall v <- vs :: v == vs[0] || v in vs[1..];
      ItemsHaveVariants(vs[1..], kind);
    }
  }

  lemma {:induction false} SlotHasEntry(slot: Slot, f: Field)
    requires TypedSlot(slot, f)
    ensures ToEntry(slot, f).Ok? <==> ConvertibleSlot(slot, f)
    decreases slot, 0
  {
    hide ToVariant, Convertible, Typed;
    match slot
    case Absent =>
    case One(v) => ValueHasVariant(v, f.kind);
    case Many(vs) => ItemsHaveVariants(vs, f.kind);
  }

  /** A message has a map exactly when it uses no field of an unknown type, and its
      repeated fields are neither 64-bit integers nor non-empty strings or bytes. */
  lemma {:induction false} SlotsHaveMap(slots: seq<Slot>, fields: seq<Field>)
    requires TypedSlots(slots, fields)
    ensures ToMap(slots, fields).Ok? <==> ConvertibleSlots(slots, fields)
    decreases slots, 1
  {
    if slots != [] {
      hide ToEntry, TypedSlot, ConvertibleSlot;
      assert TypedSlot(slots[0], fields[0]);
      SlotHasEntry(slots[0], fields[0]);
      TailTyped(slots, fields);
      SlotsHaveMap(slots[1..], fields[1..]);
      assert ConvertibleSlots(slots, fields) <==>
          ConvertibleSlot(slots[0], fields[0]) && ConvertibleSlots(slots[1..], fields[1..]) by {
        ConvertibleFirst(slots, fields);
      }
    }
  }

  lemma ConvertibleFirst(slots: seq<Slot>, fields: seq<Field>)
    requires slots != [] && |slots| == |fields|
    ensures ConvertibleSlots(slots, fields) <==>
              ConvertibleSlot(slots[0], fields[0]) && ConvertibleSlots(slots[1..], fields[1..])
  {
    hide ConvertibleSlot;
    if ConvertibleSlots(slots, fields) {
      forall i | 0 <= i < |slots| - 1 ensures ConvertibleSlot(slots[1..][i], fields[1..][i]) {
        assert ConvertibleSlot(slots[i + 1], fields[i + 1]);
      }
    }
    if ConvertibleSlot(slots[0], fields[0]) && ConvertibleSlots(slots[1..], fields[1..]) {
      forall i | 0 <= i < |slots| ensures ConvertibleSlot(slots[i], fields[i]) {
        if i > 0 {
          assert ConvertibleSlot(slots[1..][i - 1], fields[1..][i - 1]);
        }
      }
    }
  }

  // ---- Exactly which maps are accepted, and what they are read as ----

  predicate IsHex(c: char) {
    '0' <= c <= '9' || 'A' <= c <= 'F' || 'a' <= c <= 'f'
  }

  function Upper(s: string): string {
    if s == "" then "" else [if 'a' <= s[0] <= 'f' then s[0] - 'a' + 'A' else s[0]] + Upper(s[1..])
  }

  lemma DigitReads(c: char)
    ensures HexDigit(c).Some? <==> IsHex(c)
    ensures IsHex(c) ==> [HEX[HexDigit(c).value]] == Upper([c])
  {
    assert Upper([c][1..]) == "";
  }

  lemma {:induction false} UpperSplit(a: string, b: string)
    ensures Upper(a + b) == Upper(a) + Upper(b)
  {
    if a == "" {
      assert a + b == b;
    } else {
      assert (a + b)[1..] == a[1..] + b && (a + b)[0] == a[0];
      UpperSplit(a[1..], b);
    }
  }

  lemma HexPair(a: char, b: char, rest: string)
    ensures HexDecode([a, b] + rest).Ok? <==> IsHex(a) && IsHex(b) && HexDecode(rest).Ok?
    ensures HexDecode([a, b] + rest).Ok? && HexEncode(HexDecode(rest).value) == Upper(rest) ==>
              HexEncode(HexDecode([a, b] + rest).value) == Upper([a, b] + rest)
  {
    hide HexDigit, IsHex, HEX, HexDecode, HexEncode, Upper;
    DigitReads(a);
    DigitReads(b);
    HexDecodeFirst(a, b, rest);
    UpperSplit([a, b], rest);
    UpperSplit([a], [b]);
    assert [a] + [b] == [a, b];
    if HexDecode([a, b] + rest).Ok? {
      HexEncodeFirst(HexDigit(a).value, HexDigit(b).value, HexDecode(rest).value);
    }
  }

  lemma HexNone()
    ensures HexDecode("") == Ok([]) && HexEncode([]) == "" && Upper("") == ""
  {
  }

  lemma HexOne(s: string)
    requires |s| == 1
    ensures HexDecode(s).Err?
  {
  }

  /** Exactly the strings of an even number of hex digits, of either case, are decoded, and
      encoding the bytes again gives the string in upper case. */
  lemma {:induction false} HexReads(s: string)
    ensures HexDecode(s).Ok? <==> |s| % 2 == 0 && forall c <- s :: IsHex(c)
    ensures HexDecode(s).Ok? ==> HexEncode(HexDecode(s).value) == Upper(s)
    decreases |s|
  {
    hide HexDigit, IsHex, HEX, HexDecode, HexEncode, Upper;
    if 2 <= |s| {
      assert s == [s[0], s[1]] + s[2..];
      assert s[0] in s && s[1] in s && forall c <- s[2..] :: c in s;
      assert forall c <- s :: c == s[0] || c == s[1] || c in s[2..];
      HexReads(s[2..]);
      HexPair(s[0], s[1], s[2..]);
    } else if |s| == 1 {
      HexOne(s);
    } else {
      HexNone();
    }
  }

  lemma HexEncodeFirst(high: int, low: int, rest: seq<byte>)
    requires 0 <= high < 16 && 0 <= low < 16
    ensures HexEncode([high * 16 + low] + rest) == [HEX[high]] + [HEX[low]] + HexEncode(rest)
  {
    var bytes: seq<byte> := [high * 16 + low] + rest;
    assert bytes[1..] == rest && bytes[0] / 16 == high && bytes[0] % 16 == low;
    hide HEX;
  }

  lemma {:induction false} NameReads(values: seq<(string, int)>, name: string)
    ensures FindName(values, name).Some? <==> exists v <- values :: v.0 == name
    ensures FindName(values, name).Some? ==> (name, FindName(values, name).value) in values
  {
    if values != [] {
      assert forall v <- values :: v == values[0] || v in values[1..];
      assert values[0] in values && forall v <- values[1..] :: v in values;
      NameReads(values[1..], name);
    }
  }

  lemma {:induction false} NumberNamed(values: seq<(string, int)>, v: (string, int))
    requires v in values
    ensures FindNumber(values, v.1).Some?
  {
    if values[0] != v {
      assert v in values[1..];
      NumberNamed(values[1..], v);
    }
  }

  /** The variant can be read as a value of the kind. */
  predicate Readable(kind: Kind, w: Variant)
    decreases kind, 0
  {
    match kind
    case Plain(k) => w.Scalar? && KindOf(w.scalar) == k
    case Raw => IsText(w) && |w.scalar.s| % 2 == 0 && forall c <- w.scalar.s :: IsHex(c)
    case Enum(values) => IsText(w) && exists v <- values :: v.0 == w.scalar.s
    case Nested(fields) => w.Map? && ReadableMap(fields, w.entries)
    case Other => false
  }

  predicate IsText(w: Variant) {
    w.Scalar? && w.scalar.OfString?
  }

  predicate ReadableField(f: Field, entries: map<string, Variant>)
    decreases f, 0
  {
    f.name in entries ==>
      var w := entries[f.name];
      if f.repeated then !f.kind.Other? && w.List? && forall item <- w.items :: Readable(f.kind, item)
      else Readable(f.kind, w)
  }

  predicate ReadableMap(fields: seq<Field>, entries: map<string, Variant>)
    decreases fields, 1
  {
    forall f <- fields :: ReadableField(f, entries)
  }

  lemma {:induction false} ValueReads(kind: Kind, current: Option<Value>, w: Variant)
    ensures FromVariant(kind, current, w).Ok? <==> Readable(kind, w)
    decreases kind, 0
  {
    match kind
    case Plain(_) =>
    case Raw => if IsText(w) { HexReads(w.scalar.s); }
    case Enum(values) => if IsText(w) { NameReads(values, w.scalar.s); }
    case Nested(fields) => if w.Map? { MapReads(fields, Base(fields, current), w.entries); }
    case Other =>
  }

  /** What a nested message is parsed onto. */
  function Base(fields: seq<Field>, current: Option<Value>): (slots: seq<Slot>)
    ensures |slots| == |fields|
  {
    if current.Some? && current.value.Message? && |current.value.slots| == |fields| then current.value.slots
    else Fresh(fields)
  }

  lemma {:induction false} ItemsRead(kind: Kind, ws: seq<Variant>)
    ensures FromItems(kind, ws).Ok? <==> forall w <- ws :: Readable(kind, w)
    decreases kind, 1, |ws|
  {
    if ws != [] {
      hide FromVariant, Readable;
      assert forall w <- ws :: w == ws[0] || w in ws[1..];
      assert ws[0] in ws && forall w <- ws[1..] :: w in ws;
      ValueReads(kind, None, ws[0]);
      ItemsRead(kind, ws[1..]);
    }
  }

  lemma {:induction false} FieldReads(f: Field, slot: Slot, entries: map<string, Variant>)
    ensures FromEntry(f, slot, entries).Ok? <==> ReadableField(f, entries)
    decreases f, 0
  {
    hide FromVariant, Readable;
    if f.name in entries {
      if !f.repeated {
        ValueReads(f.kind, if slot.One? then Some(slot.value) else None, entries[f.name]);
      } else if entries[f.name].List? {
        ItemsRead(f.kind, entries[f.name].items);
      }
    }
  }

  /** A map is accepted exactly when every field it names gets what it takes: a scalar of
      its kind, an even number of hex digits for bytes, a name that occurs for an enum, a
      list for a repeated field, and the same in nested maps. */
  lemma {:induction false} MapReads(fields: seq<Field>, slots: seq<Slot>, entries: map<string, Variant>)
    requires |slots| == |fields|
    ensures FromMap(fields, slots, entries).Ok? <==> ReadableMap(fields, entries)
    decreases fields, 1
  {
    if fields != [] {
      hide FromEntry, ReadableField;
      assert forall f <- fields :: f == fields[0] || f in fields[1..];
      assert fields[0] in fields && forall f <- fields[1..] :: f in fields;
      FieldReads(fields[0], slots[0], entries);
      MapReads(fields[1..], slots[1..], entries);
    }
  }

  /** The value is what the variant shows: the same scalar, the bytes of the hex digits,
      a number of that name, and for a map a message whose named fields show the entries
      and whose other fields are as before. */
  predicate Shows(kind: Kind, current: Option<Value>, w: Variant, v: Value)
    decreases kind, 0
  {
    match kind
    case Plain(_) => w.Scalar? && v == PlainValue(w.scalar)
    case Raw => IsText(w) && v.RawValue? && HexEncode(v.bytes) == Upper(w.scalar.s)
    case Enum(values) => IsText(w) && v.EnumValue? && (w.scalar.s, v.number) in values
    case Nested(fields) => w.Map? && v.Message? && ShowsMap(fields, Base(fields, current), w.entries, v.slots)
    case Other => false
  }

  predicate ShowsField(f: Field, before: Slot, entries: map<string, Variant>, slot: Slot)
    decreases f, 0
  {
    if f.name !in entries then slot == before
    else if f.repeated then
      && entries[f.name].List? && slot.Many?
      && var ws, kept := entries[f.name].items, if before.Many? then before.values else [];
      && |slot.values| == |kept| + |ws| && slot.values[..|kept|] == kept
      && forall i :: 0 <= i < |ws| ==> Shows(f.kind, None, ws[i], slot.values[|kept| + i])
    else
      slot.One? && Shows(f.kind, if before.One? then Some(before.value) else None, entries[f.name], slot.value)
  }

  predicate ShowsMap(fields: seq<Field>, before: seq<Slot>, entries: map<string, Variant>, slots: seq<Slot>)
    requires |before| == |fields|
    decreases fields, 1
  {
    |slots| == |fields| && forall i :: 0 <= i < |fields| ==> ShowsField(fields[i], before[i], entries, slots[i])
  }

  lemma {:induction false} ValueShows(kind: Kind, current: Option<Value>, w: Variant)
    requires FromVariant(kind, current, w).Ok?
    ensures var v := FromVariant(kind, current, w).value;
            Shows(kind, current, w, v) && (Shaped(kind, current) ==> Typed(v, kind))
    decreases kind, 0
  {
    match kind
    case Plain(_) =>
    case Raw => HexReads(w.scalar.s);
    case Enum(values) =>
      NameReads(values, w.scalar.s);
      NumberNamed(values, (w.scalar.s, FindName(values, w.scalar.s).value));
    case Nested(fields) =>
      MapShows(fields, Base(fields, current), w.entries);
      FreshTyped(fields);
  }

  /** What a field holds is of its kind. */
  predicate Shaped(kind: Kind, current: Option<Value>) {
    current.Some? ==> Typed(current.value, kind)
  }

  lemma {:induction false} ItemsShow(kind: Kind, ws: seq<Variant>)
    requires FromItems(kind, ws).Ok?
    ensures var vs := FromItems(kind, ws).value;
            && |vs| == |ws|
            && (forall i :: 0 <= i < |ws| ==> Shows(kind, None, ws[i], vs[i]))
            && forall v <- vs :: Typed(v, kind)
    decreases kind, 1, |ws|
  {
    if ws != [] {
      hide FromVariant, Shows, Typed;
      ValueShows(kind, None, ws[0]);
      ItemsShow(kind, ws[1..]);
      var vs, rest := FromItems(kind, ws).value, FromItems(kind, ws[1..]).value;
      assert vs == [vs[0]] + rest;
      forall i | 0 <= i < |ws| ensures Shows(kind, None, ws[i], vs[i]) {
        assert i > 0 ==> ws[i] == ws[1..][i - 1] && vs[i] == rest[i - 1];
      }
    }
  }

  lemma AppendedShow(f: Field, slot: Slot, entries: map<string, Variant>, vs: seq<Value>)
    requires f.name in entries && f.repeated && entries[f.name].List? && |vs| == |entries[f.name].items|
    requires forall i :: 0 <= i < |vs| ==> Shows(f.kind, None, entries[f.name].items[i], vs[i])
    requires forall v <- vs :: Typed(v, f.kind)
    ensures var after := Many((if slot.Many? then slot.values else []) + vs);
            ShowsField(f, slot, entries, after) && (TypedSlot(slot, f) ==> TypedSlot(after, f))
  {
    hide Shows, Typed;
  }

  lemma {:induction false} FieldShows(f: Field, slot: Slot, entries: map<string, Variant>)
    requires FromEntry(f, slot, entries).Ok?
    ensures var after := FromEntry(f, slot, entries).value;
            ShowsField(f, slot, entries, after) && (TypedSlot(slot, f) ==> TypedSlot(after, f))
    decreases f, 0
  {
    hide FromVariant, Shows, Typed, FromItems;
    if f.name in entries {
      if f.repeated {
        hide ShowsField, TypedSlot;
        ItemsShow(f.kind, entries[f.name].items);
        AppendedShow(f, slot, entries, FromItems(f.kind, entries[f.name].items).value);
      } else {
        ValueShows(f.kind, if slot.One? then Some(slot.value) else None, entries[f.name]);
      }
    }
  }

  /** And an accepted map is read as what it shows; a message that was of its type stays
      so. */
  lemma {:induction false} MapShows(fields: seq<Field>, slots: seq<Slot>, entries: map<string, Variant>)
    requires |slots| == |fields| && FromMap(fields, slots, entries).Ok?
    ensures var after := FromMap(fields, slots, entries).value;
            ShowsMap(fields, slots, entries, after) && (TypedSlots(slots, fields) ==> TypedSlots(after, fields))
    decreases fields, 1
  {
    if fields != [] {
      hide FromEntry, ShowsField, TypedSlot;
      FieldShows(fields[0], slots[0], entries);
      MapShows(fields[1..], slots[1..], entries);
      var after, rest := FromMap(fields, slots, entries).value, FromMap(fields[1..], slots[1..], entries).value;
      assert after == [after[0]] + rest;
      forall i | 0 <= i < |fields| ensures ShowsField(fields[i], slots[i], entries, after[i]) {
        assert i > 0 ==> fields[i] == fields[1..][i - 1] && slots[i] == slots[1..][i - 1] && after[i] == rest[i - 1];
      }
      if TypedSlots(slots, fields) {
        TailTyped(slots, fields);
        assert TypedSlot(slots[0], fields[0]);
        forall i | 0 <= i < |fields| ensures TypedSlot(after[i], fields[i]) {
          assert i > 0 ==> fields[i] == fields[1..][i - 1] && after[i] == rest[i - 1];
        }
      }
    }
  }

  /** The map of a message names exactly its fields that are present or repeated, the
      latter even when empty, and shows their values. */
  lemma MapTells(fields: seq<Field>, slots: seq<Slot>)
    requires WellFormedFields(fields) && TypedSlots(slots, fields) && ToMap(slots, fields).Ok?
    ensures var entries := ToMap(slots, fields).value;
            && (forall i :: 0 <= i < |fields| ==> (fields[i].name in entries <==> !slots[i].Absent?))
            && (forall name <- entries :: exists f <- fields :: f.name == name)
            && ShowsMap(fields, Fresh(fields), entries, slots)
  {
    hide ToMap, ToEntry, FromMap, TypedSlot, ShowsField;
    ToMapAgrees(slots, fields);
    MapRoundTrip(fields, slots);
    MapShows(fields, Fresh(fields), ToMap(slots, fields).value);
    forall i | 0 <= i < |fields| ensures fields[i].name in ToMap(slots, fields).value <==> !slots[i].Absent? {
      assert EntryAgrees(ToMap(slots, fields).value, slots[i], fields[i]);
      EntryPresent(slots[i], fields[i]);
    }
  }

  lemma EntryPresent(slot: Slot, f: Field)
    requires ToEntry(slot, f).Ok?
    ensures ToEntry(slot, f).value.Some? <==> !slot.Absent?
  {
  }

  // ---- The loops ----

  method SerializeSingleField(v: Value, kind: Kind) returns (r: Result<Variant>)
    ensures r == ToVariant(v, kind)
    decreases v, 0
  {
    match (kind, v)
    case (Nested(fields), Message(slots)) =>
      var entries := MessageToMap(slots, fields);
      return if entries.Ok? then Ok(Map(entries.value)) else Err;
    case _ => return ToVariant(v, kind);
  }

  method SerializeRepeatedField(vs: seq<Value>, kind: Kind) returns (r: Result<Variant>)
    ensures r == ToList(vs, kind)
    decreases vs, 2
  {
    if Refuses(kind, |vs|) {
      return Err;
    }
    var items: seq<Variant> := [];
    var i := 0;
    assert vs[0..] == vs;
    while i < |vs|
      invariant 0 <= i <= |vs|
      invariant ToItems(vs, kind).Ok? <==> ToItems(vs[i..], kind).Ok?
      invariant ToItems(vs, kind).Ok? ==> ToItems(vs, kind).value == items + ToItems(vs[i..], kind).value
    {
      assert vs[i..][1..] == vs[i + 1..];
      var item := SerializeSingleField(vs[i], kind);
      if item.Err? {
        return Err;
      }
      if ToItems(vs[i + 1..], kind).Ok? {
        AppendOne(items, item.value, ToItems(vs[i + 1..], kind).value);
      }
      items := items + [item.value];
      i := i + 1;
    }
    assert vs[i..] == [] && ToItems([], kind) == Ok([]) && items + [] == items;
    return Ok(List(items));
  }

  method SerializeField(slot: Slot, f: Field) returns (r: Result<Option<Variant>>)
    ensures r == ToEntry(slot, f)
    decreases slot, 0
  {
    var v: Result<Variant>;
    match slot
    case Absent => return Ok(None);
    case Many(vs) =>
      v := SerializeRepeatedField(vs, f.kind);
      return if v.Ok? then Ok(Some(v.value)) else Err;
    case One(w) =>
      v := SerializeSingleField(w, f.kind);
      return if v.Ok? then Ok(Some(v.value)) else Err;
  }

  lemma PutFirst(result: map<string, Variant>, o: Option<Variant>, name: string, rest: map<string, Variant>)
    ensures result + (Put(o, name) + rest) == (if o.Some? then result[name := o.value] else result) + rest
  {
  }

  lemma ToMapFirst(slots: seq<Slot>, fields: seq<Field>, i: nat)
    requires i < |slots| && i < |fields|
    ensures ToMap(slots[i..], fields[i..]) ==
            match (ToEntry(slots[i], fields[i]), ToMap(slots[i + 1..], fields[i + 1..]))
            case (Ok(entry), Ok(rest)) => Ok(Put(entry, fields[i].name) + rest)
            case _ => Err
  {
    hide ToEntry;
    assert slots[i..][1..] == slots[i + 1..] && fields[i..][1..] == fields[i + 1..];
  }

  method MessageToMap(slots: seq<Slot>, fields: seq<Field>) returns (r: Result<map<string, Variant>>)
    ensures r == ToMap(slots, fields)
    decreases slots, 1
  {
    var result: map<string, Variant> := map[];
    var i := 0;
    assert slots[0..] == slots && fields[0..] == fields;
    while i < |slots| && i < |fields|
      invariant 0 <= i <= |slots| && i <= |fields|
      invariant ToMap(slots, fields).Ok? <==> ToMap(slots[i..], fields[i..]).Ok?
      invariant ToMap(slots, fields).Ok? ==> ToMap(slots, fields).value == result + ToMap(slots[i..], fields[i..]).value
      decreases |slots| - i
    {
      ToMapFirst(slots, fields, i);
      hide ToEntry, ToMap, Put;
      var entry := SerializeField(slots[i], fields[i]);
      if entry.Err? {
        return Err;
      }
      ghost var rest := ToMap(slots[i + 1..], fields[i + 1..]);
      if rest.Ok? {
        PutFirst(result, entry.value, fields[i].name, rest.value);
      }
      if entry.value.Some? {
        result := result[fields[i].name := entry.value.value];
      }
      i := i + 1;
    }
    assert slots[i..] == [] || fields[i..] == [];
    assert result + map[] == result;
    return Ok(result);
  }

  method ParseSingleField(kind: Kind, current: Option<Value>, w: Variant) returns (r: Result<Value>)
    ensures r == FromVariant(kind, current, w)
    decreases kind, 0
  {
    match (kind, w)
    case (Nested(fields), Map(entries)) =>
      var slots := if current.Some? && current.value.Message? && |current.value.slots| == |fields|
          then current.value.slots else Fresh(fields);
      var next := MessageFromMap(fields, slots, entries);
      return if next.Ok? then Ok(Message(next.value)) else Err;
    case _ => return FromVariant(kind, current, w);
  }

  method ParseRepeatedField(kind: Kind, current: seq<Value>, ws: seq<Variant>) returns (r: Result<seq<Value>>)
    ensures r == match FromItems(kind, ws) case Ok(vs) => Ok(current + vs) case Err => Err
    decreases kind, 1
  {
    var values := current;
    var i := 0;
    assert ws[0..] == ws;
    while i < |ws|
      invariant 0 <= i <= |ws|
      invariant FromItems(kind, ws).Ok? <==> FromItems(kind, ws[i..]).Ok?
      invariant FromItems(kind, ws).Ok? ==>
                  current + FromItems(kind, ws).value == values + FromItems(kind, ws[i..]).value
    {
      assert ws[i..][1..] == ws[i + 1..];
      var v := ParseSingleField(kind, None, ws[i]);
      if v.Err? {
        return Err;
      }
      if FromItems(kind, ws[i + 1..]).Ok? {
        AppendOne(values, v.value, FromItems(kind, ws[i + 1..]).value);
      }
      values := values + [v.value];
      i := i + 1;
    }
    assert ws[i..] == [] && FromItems(kind, []) == Ok([]) && values + [] == values;
    return Ok(values);
  }

  method ParseField(f: Field, slot: Slot, entries: map<string, Variant>) returns (r: Result<Slot>)
    ensures r == FromEntry(f, slot, entries)
    decreases f
  {
    if f.name !in entries {
      return Ok(slot);
    }
    if f.repeated {
      if f.kind.Other? || !entries[f.name].List? {
        return Err;
      }
      var vs := ParseRepeatedField(f.kind, if slot.Many? then slot.values else [], entries[f.name].items);
      return if vs.Ok? then Ok(Many(vs.value)) else Err;
    }
    var v := ParseSingleField(f.kind, if slot.One? then Some(slot.value) else None, entries[f.name]);
    return if v.Ok? then Ok(One(v.value)) else Err;
  }

  lemma FromMapFirst(fields: seq<Field>, slots: seq<Slot>, entries: map<string, Variant>, i: nat)
    requires i < |fields| == |slots|
    ensures FromMap(fields[i..], slots[i..], entries) ==
            match (FromEntry(fields[i], slots[i], entries), FromMap(fields[i + 1..], slots[i + 1..], entries))
            case (Ok(first), Ok(rest)) => Ok([first] + rest)
            case _ => Err
  {
    hide FromEntry;
    assert slots[i..][1..] == slots[i + 1..] && fields[i..][1..] == fields[i + 1..];
  }

  method MessageFromMap(fields: seq<Field>, slots: seq<Slot>, entries: map<string, Variant>)
    returns (r: Result<seq<Slot>>)
    requires |slots| == |fields|
    ensures r == FromMap(fields, slots, entries)
    decreases fields
  {
    var message := slots;
    var i := 0;
    assert slots[0..] == slots && fields[0..] == fields;
    while i < |fields|
      invariant 0 <= i <= |fields| == |message|
      invariant message[i..] == slots[i..]
      invariant FromMap(fields, slots, entries).Ok? <==> FromMap(fields[i..], slots[i..], entries).Ok?
      invariant FromMap(fields, slots, entries).Ok? ==>
                  FromMap(fields, slots, entries).value
                      == message[..i] + FromMap(fields[i..], slots[i..], entries).value
    {
      FromMapFirst(fields, slots, entries, i);
      hide FromEntry, FromMap;
      assert message[i] == message[i..][0] == slots[i];
      var slot := ParseField(fields[i], message[i], entries);
      if slot.Err? {
        return Err;
      }
      PutOne(message, i, slot.value, if FromMap(fields[i + 1..], slots[i + 1..], entries).Ok?
          then FromMap(fields[i + 1..], slots[i + 1..], entries).value else []);
      message := message[i := slot.value];
      i := i + 1;
    }
    assert fields[i..] == [] && slots[i..] == [] && message[..i] + [] == message && FromMap([], [], entries) == Ok([]);
    return Ok(message);
  }

  // ---- Message types and names ----

  const TYPE_PREFIX := "MessageType_"

  /** Name of a type number in the enum of message types, if that enum is loaded. */
  function MessageName(pool: Option<seq<(string, int)>>, number: uint16): Result<string> {
    if pool.None? then Err
    else
      match FindNumber(pool.value, number)
      case None => Err
      case Some(ename) => if |ename| < |TYPE_PREFIX| then Err else Ok(ename[|TYPE_PREFIX|..])
  }

  function MessageType(pool: Option<seq<(string, int)>>, name: string): Result<uint16> {
    if pool.None? then Err
    else
      match FindName(pool.value, TYPE_PREFIX + name)
      case None => Err
      case Some(number) => Ok(number % 0x1_0000)
  }

  /** A number has a name exactly when an enum value with that number starts long enough
      to drop the prefix, and a name has a type exactly when it occurs with the prefix. */
  lemma TypesKnown(values: seq<(string, int)>, number: uint16, name: string)
    requires DistinctNames(values)
    ensures (exists v <- values :: v.1 == number) <==> FindNumber(values, number).Some?
    ensures MessageName(Some(values), number).Ok? <==>
              FindNumber(values, number).Some? && 12 <= |FindNumber(values, number).value|
    ensures MessageName(Some(values), number) == Ok(name) ==>
              exists v <- values :: v.1 == number && 12 <= |v.0| && v.0[12..] == name
    ensures MessageType(Some(values), name).Ok? <==> exists v <- values :: v.0 == "MessageType_" + name
    ensures MessageType(Some(values), name).Ok? ==>
              exists v <- values :: v.0 == "MessageType_" + name
                  && v.1 % 0x1_0000 == MessageType(Some(values), name).value
  {
    assert |TYPE_PREFIX| == 12;
    NameReads(values, TYPE_PREFIX + name);
    if FindNumber(values, number).Some? {
      var i := NumberFound(values, number);
      assert values[i] in values;
    }
    forall v <- values | v.1 == number ensures FindNumber(values, number).Some? {
      NumberNamed(values, v);
    }
  }

  /** The name of a type leads back to the type when its enum name carries the prefix. */
  lemma TypeRoundTrip(values: seq<(string, int)>, number: uint16)
    requires DistinctNames(values) && FindNumber(values, number).Some?
               && TYPE_PREFIX <= FindNumber(values, number).value
    ensures var name := MessageName(Some(values), number);
            name.Ok? && MessageType(Some(values), name.value) == Ok(number)
  {
    var ename := FindNumber(values, number).value;
    assert TYPE_PREFIX + ename[|TYPE_PREFIX|..] == ename;
    EnumRoundTrip(values, number);
  }
}
