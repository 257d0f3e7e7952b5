/**
 Models the entries of src/dsp/bios_table.c: how string, attribute and attribute value
 entries are laid out, measured, encoded and decoded.
 */
module BiosEntry {
  import opened Common
  import opened Bytes

  /** enum pldm_bios_table_types. */
  datatype Table = Strings | Attributes | Values

  datatype Rc = Success | InvalidData | InvalidLength

  predicate IsEnum(t: byte) { t == 0x00 || t == 0x80 }

  predicate IsString(t: byte) { t == 0x01 || t == 0x81 }

  predicate IsInteger(t: byte) { t == 0x03 || t == 0x83 }

  function TypeByte(base: byte, readOnly: bool): byte
    requires base < 0x80
  {
    if readOnly then base + 0x80 else base
  }

  // ---------------------------------------------------------------- length handlers

  /**
   The three entry length handlers, applied to the bytes from an entry onwards. Negative where the handler knows no
   length, or would have to look past the bytes that are there.
   */
  function EntryLength(kind: Table, b: seq<byte>): (n: int)
    ensures n < 0 || n >= 4
    ensures kind == Attributes ==> n < 0 || n >= 7
  {
    match kind
    case Strings => if |b| < 4 then -1 else 4 + Word(b[2], b[3])
    case Attributes => if |b| < 6 then -1 else AttrLength(b)
    case Values => if |b| < 4 then -1 else ValueLength(b)
  }

  function AttrLength(b: seq<byte>): (n: int)
    requires |b| >= 6
    ensures n < 0 || n >= 7
  {
    if IsEnum(b[2]) then (var pv: int := b[5]; if |b| <= 6 + 2 * pv then -1 else 7 + 2 * pv + b[6 + 2 * pv])
    else if IsString(b[2]) then (if |b| < 12 then -1 else 12 + Word(b[10], b[11]))
    else if IsInteger(b[2]) then 33
    else -1
  }

  function ValueLength(b: seq<byte>): (n: int)
    requires |b| >= 4
    ensures n < 0 || n >= 4
  {
    if IsEnum(b[2]) then 4 + b[3]
    else if IsString(b[2]) then (if |b| < 5 then -1 else 5 + Word(b[3], b[4]))
    else if IsInteger(b[2]) then 11
    else -1
  }

  /** The handler measures exactly these bytes. */
  predicate WellFormed(kind: Table, e: seq<byte>) { EntryLength(kind, e) == |e| }

  /** The handler looks at nothing behind a well-formed entry. */
  lemma LengthIsLocal(kind: Table, e: seq<byte>, rest: seq<byte>)
    requires WellFormed(kind, e)
    ensures EntryLength(kind, e + rest) == |e|
  {
    var b := e + rest;
    assert forall i :: 0 <= i < |e| ==> b[i] == e[i];
  }

  // ---------------------------------------------------------------- entry contents

  /** What the caller of an attribute encoder supplies. */
  datatype Attr =
    | EnumAttr(name: u16, readOnly: bool, possible: seq<u16>, defaults: seq<byte>)
    | StringAttr(name: u16, readOnly: bool, stringType: byte, minLength: u16, maxLength: u16, def: seq<byte>)
    | IntegerAttr(name: u16, readOnly: bool, lower: u64, upper: u64, scalar: u32, default: u64)

  /** What the caller of a value encoder supplies; the type byte is passed through. */
  datatype Value =
    | EnumValue(handle: u16, attrType: byte, indices: seq<byte>)
    | StringValue(handle: u16, attrType: byte, text: seq<byte>)
    | IntegerValue(handle: u16, attrType: byte, current: u64)

  predicate WholeSteps(a: Attr)
    requires a.IntegerAttr? && a.scalar != 0
  {
    (a.default - a.lower) % a.scalar == 0
  }

  /** pldm_bios_table_attr_entry_string_info_check and ..._integer_info_check; enum entries have none. */
  predicate Acceptable(a: Attr) {
    match a
    case EnumAttr(_, _, possible, defaults) => |possible| < 256 && |defaults| < 256
    case StringAttr(_, _, stringType, lo, hi, def) =>
      lo <= |def| <= hi && (stringType <= 5 || stringType == 0xff)
    case IntegerAttr(_, _, lower, upper, scalar, default) =>
      if lower == upper then default == lower && scalar == 0
      else lower < upper && lower <= default <= upper && scalar != 0 && WholeSteps(a)
  }

  lemma RestIsUnique(k: int, q: int, r: int, s: int)
    requires k * s == q * s + r && 0 <= r < s
    ensures r == 0
  {
    assert (k - q) * s == r;
    AtLeastOnce(k - q, s);
  }

  lemma MultipleHasNoRest(x: nat, k: nat, s: nat)
    requires s > 0 && x == k * s
    ensures x % s == 0
  {
    RestIsUnique(k, x / s, x % s, s);
  }

  lemma NoRestIsMultiple(x: nat, s: nat)
    requires s > 0 && x % s == 0
    ensures x == x / s * s
  {
  }

  /** k increments lead from the lower bound to the default, without leaving the bounds. */
  predicate Reaches(a: Attr, k: nat)
    requires a.IntegerAttr?
  {
    a.lower + k * a.scalar == a.default <= a.upper
  }

  /**
   An integer attribute is accepted exactly when its default can be reached from the lower bound within the bounds.
   */
  lemma IntegerAcceptance(a: Attr)
    requires a.IntegerAttr?
    ensures Acceptable(a) <==>
            if a.scalar == 0 then a.lower == a.default == a.upper
            else a.lower < a.upper && exists k: nat :: Reaches(a, k)
  {
    if a.scalar != 0 && a.lower <= a.default {
      if Acceptable(a) {
        NoRestIsMultiple(a.default - a.lower, a.scalar);
        assert Reaches(a, (a.default - a.lower) / a.scalar);
      }
      if exists m: nat :: Reaches(a, m) {
        var m: nat :| Reaches(a, m);
        MultipleHasNoRest(a.default - a.lower, m, a.scalar);
      }
    }
  }

  predicate ValueAcceptable(v: Value) {
    match v
    case EnumValue(_, t, indices) => IsEnum(t) && |indices| < 256
    case StringValue(_, t, text) => IsString(t) && |text| < 0x1_0000
    case IntegerValue(_, t, _) => IsInteger(t)
  }

  function Handles(hs: seq<u16>): (b: seq<byte>)
    ensures |b| == 2 * |hs|
    decreases |hs|
  {
    if hs == [] then [] else Handles(hs[..|hs| - 1]) + Le16(hs[|hs| - 1])
  }

  lemma {:induction false} HandlesAt(hs: seq<u16>, i: nat)
    requires i < |hs|
    ensures Word(Handles(hs)[2 * i], Handles(hs)[2 * i + 1]) == hs[i]
    decreases |hs|
  {
    if i < |hs| - 1 {
      HandlesAt(hs[..|hs| - 1], i);
    }
  }

  function StringBytes(handle: u16, text: seq<byte>): seq<byte>
    requires |text| < 0x1_0000
  {
    Le16(handle) + Le16(|text|) + text
  }

  function AttrTypeOf(a: Attr): byte {
    TypeByte(if a.EnumAttr? then 0 else if a.StringAttr? then 1 else 3, a.readOnly)
  }

  function AttrHeader(handle: u16, a: Attr): (b: seq<byte>)
    ensures |b| == 5
  {
    Le16(handle) + [AttrTypeOf(a)] + Le16(a.name)
  }

  function Metadata(a: Attr): seq<byte>
    requires Acceptable(a)
  {
    match a
    case EnumAttr(_, _, possible, defaults) => [|possible|] + Handles(possible) + [|defaults|] + defaults
    case StringAttr(_, _, stringType, lo, hi, def) => [stringType] + Le16(lo) + Le16(hi) + Le16(|def|) + def
    case IntegerAttr(_, _, lower, upper, scalar, default) => Le64(lower) + Le64(upper) + Le32(scalar) + Le64(default)
  }

  function AttrBytes(handle: u16, a: Attr): seq<byte>
    requires Acceptable(a)
  {
    AttrHeader(handle, a) + Metadata(a)
  }

  function ValuePayload(v: Value): seq<byte>
    requires ValueAcceptable(v)
  {
    match v
    case EnumValue(_, _, indices) => [|indices|] + indices
    case StringValue(_, _, text) => Le16(|text|) + text
    case IntegerValue(_, _, current) => Le64(current)
  }

  function ValueBytes(v: Value): seq<byte>
    requires ValueAcceptable(v)
  {
    Le16(v.handle) + [v.attrType] + ValuePayload(v)
  }

  /** The first five bytes of an attribute entry. */
  function Front(handle: u16, a: Attr): (b: seq<byte>)
    ensures |b| == 5
  {
    var base := if a.EnumAttr? then 0x00 else if a.StringAttr? then 0x01 else 0x03;
    [handle % 256, handle / 256, if a.readOnly then base + 0x80 else base, a.name % 256, a.name / 256]
  }

  /** The bytes of an attribute entry, one by one; the handles of possible values lowest byte first. */
  lemma EnumOnWire(handle: u16, a: Attr)
    requires a.EnumAttr? && Acceptable(a)
    ensures AttrBytes(handle, a) ==
            Front(handle, a) + ([|a.possible|] + Handles(a.possible) + [|a.defaults|] + a.defaults)
  {
    assert AttrHeader(handle, a) == Front(handle, a);
  }

  lemma StringOnWire(handle: u16, a: Attr)
    requires a.StringAttr? && Acceptable(a)
    ensures |a.def| < 0x1_0000
    ensures AttrBytes(handle, a) ==
            Front(handle, a) + ([a.stringType, a.minLength % 256, a.minLength / 256, a.maxLength % 256,
                                 a.maxLength / 256, |a.def| % 256, |a.def| / 256] + a.def)
  {
    assert AttrHeader(handle, a) == Front(handle, a);
  }

  lemma IntegerOnWire(handle: u16, a: Attr, l: seq<byte>, u: seq<byte>, s: seq<byte>, d: seq<byte>)
    requires a.IntegerAttr? && Acceptable(a)
    requires l == Le64(a.lower) && u == Le64(a.upper) && s == Le32(a.scalar) && d == Le64(a.default)
    ensures AttrBytes(handle, a) == Front(handle, a) + (l + u + s + d)
  {
    assert AttrHeader(handle, a) == Front(handle, a) && Metadata(a) == l + u + s + d;
  }

  /** The bytes of string and value entries. */
  lemma OthersOnWire(handle: u16, text: seq<byte>, v: Value)
    requires |text| < 0x1_0000 && ValueAcceptable(v)
    ensures StringBytes(handle, text) == [handle % 256, handle / 256, |text| % 256, |text| / 256] + text
    ensures var front := [v.handle % 256, v.handle / 256, v.attrType];
      ValueBytes(v) ==
      match v
      case EnumValue(_, _, indices) => front + [|indices|] + indices
      case StringValue(_, _, t) => front + [|t| % 256, |t| / 256] + t
      case IntegerValue(_, _, current) => front + Le64(current)
  {
  }

  // ---------------------------------------------------------------- decoders

  /** The first two bytes of an entry of any kind are its handle. */
  function Handle(b: seq<byte>): u16
    requires |b| >= 2
  {
    Word(b[0], b[1])
  }

  function DecodeText(b: seq<byte>): seq<byte>
    requires |b| >= 4 && EntryLength(Strings, b) <= |b|
  {
    b[4..4 + Word(b[2], b[3])]
  }

  function DecodePossible(b: seq<byte>, n: nat): (r: seq<u16>)
    requires |b| >= 6 + 2 * n
    ensures |r| == n && forall i :: 0 <= i < n ==> r[i] == Word(b[6 + 2 * i], b[7 + 2 * i])
    decreases n
  {
    if n == 0 then [] else DecodePossible(b, n - 1) + [Word(b[4 + 2 * n], b[5 + 2 * n])]
  }

  function DecodeEnumAttr(b: seq<byte>): Attr
    requires |b| >= 6 && IsEnum(b[2]) && 0 <= EntryLength(Attributes, b) <= |b|
  {
    var n: int := b[5];
    var m: int := b[6 + 2 * n];
    EnumAttr(Word(b[3], b[4]), b[2] >= 0x80, DecodePossible(b, n), b[7 + 2 * n..7 + 2 * n + m])
  }

  function DecodeIntegerAttr(b: seq<byte>): Attr
    requires |b| >= 33
  {
    IntegerAttr(Word(b[3], b[4]), b[2] >= 0x80, FromLe64(b[5..13]), FromLe64(b[13..21]), FromLe32(b[21..25]),
                FromLe64(b[25..33]))
  }

  function DecodeAttr(b: seq<byte>): Attr
    requires 0 <= EntryLength(Attributes, b) <= |b|
  {
    if IsEnum(b[2]) then DecodeEnumAttr(b)
    else if IsString(b[2]) then
      StringAttr(Word(b[3], b[4]), b[2] >= 0x80, b[5], Word(b[6], b[7]), Word(b[8], b[9]),
                 b[12..12 + Word(b[10], b[11])])
    else DecodeIntegerAttr(b)
  }

  function DecodeValue(b: seq<byte>): Value
    requires 0 <= EntryLength(Values, b) <= |b|
  {
    var handle := Word(b[0], b[1]);
    if IsEnum(b[2]) then EnumValue(handle, b[2], b[4..4 + b[3]])
    else if IsString(b[2]) then StringValue(handle, b[2], b[5..5 + Word(b[3], b[4])])
    else IntegerValue(handle, b[2], FromLe64(b[3..11]))
  }

  // ---------------------------------------------------------------- round trips

  lemma StringRoundTrip(handle: u16, text: seq<byte>, rest: seq<byte>)
    requires |text| < 0x1_0000
    ensures var e := StringBytes(handle, text);
      WellFormed(Strings, e) && EntryLength(Strings, e + rest) == 4 + |text| && Handle(e + rest) == handle &&
        DecodeText(e + rest) == text
  {
    var e := StringBytes(handle, text);
    LengthIsLocal(Strings, e, rest);
    assert DecodeText(e + rest) == text;
  }

  lemma FourFields(h: seq<byte>, l: seq<byte>, u: seq<byte>, s: seq<byte>, d: seq<byte>, rest: seq<byte>)
    requires |h| == 5 && |l| == 8 && |u| == 8 && |s| == 4 && |d| == 8
    ensures var b := h + (l + u + s + d) + rest;
      |b| >= 33 && b[..5] == h && b[5..13] == l && b[13..21] == u && b[21..25] == s && b[25..33] == d
  {
  }

  lemma EnumFields(h: seq<byte>, n: seq<byte>, p: seq<byte>, m: seq<byte>, d: seq<byte>, rest: seq<byte>)
    requires |h| == 5 && |n| == 1 && |m| == 1
    ensures var b := h + (n + p + m + d) + rest;
      && |b| >= 7 + |p| + |d| && b[..5] == h && b[5] == n[0] && b[6..6 + |p|] == p
      && b[6 + |p|] == m[0] && b[7 + |p|..7 + |p| + |d|] == d
  {
  }

  lemma EnumAttrRoundTrip(handle: u16, a: Attr, rest: seq<byte>)
    requires a.EnumAttr? && Acceptable(a)
    ensures var e := AttrBytes(handle, a);
      WellFormed(Attributes, e) && |e| == 7 + 2 * |a.possible| + |a.defaults| &&
      EntryLength(Attributes, e + rest) == |e| && Handle(e + rest) == handle && DecodeAttr(e + rest) == a
  {
    var e := AttrBytes(handle, a);
    var n, p := |a.possible|, Handles(a.possible);
    EnumFields(AttrHeader(handle, a), [n], p, [|a.defaults|], a.defaults, []);
    assert e + [] == e;
    LengthIsLocal(Attributes, e, rest);
    EnumFields(AttrHeader(handle, a), [n], p, [|a.defaults|], a.defaults, rest);
    var b := e + rest;
    assert b[..5] == AttrHeader(handle, a);
    forall i | 0 <= i < n ensures Word(b[6 + 2 * i], b[7 + 2 * i]) == a.possible[i] {
      HandlesAt(a.possible, i);
      assert b[6 + 2 * i] == b[6..6 + 2 * n][2 * i] && b[7 + 2 * i] == b[6..6 + 2 * n][2 * i + 1];
    }
    assert DecodeAttr(b).possible == a.possible;
  }

  lemma StringAttrRoundTrip(handle: u16, a: Attr, rest: seq<byte>)
    requires a.StringAttr? && Acceptable(a)
    ensures var e := AttrBytes(handle, a);
      WellFormed(Attributes, e) && |e| == 12 + |a.def| &&
      EntryLength(Attributes, e + rest) == |e| && Handle(e + rest) == handle && DecodeAttr(e + rest) == a
  {
    var e := AttrBytes(handle, a);
    var h, t, lo, hi, n := AttrHeader(handle, a), [a.stringType], Le16(a.minLength), Le16(a.maxLength), Le16(|a.def|);
    StringFields(h, t, lo, hi, n, a.def, []);
    assert e + [] == e;
    LengthIsLocal(Attributes, e, rest);
    StringFields(h, t, lo, hi, n, a.def, rest);
    assert (e + rest)[..5] == h;
  }

  lemma StringFields(h: seq<byte>, t: seq<byte>, lo: seq<byte>, hi: seq<byte>, n: seq<byte>, def: seq<byte>,
                     rest: seq<byte>)
    requires |h| == 5 && |t| == 1 && |lo| == 2 && |hi| == 2 && |n| == 2
    ensures var b := h + (t + lo + hi + n + def) + rest;
      && |b| >= 12 + |def| && b[..5] == h && b[5] == t[0] && b[6] == lo[0] && b[7] == lo[1] && b[8] == hi[0] &&
         b[9] == hi[1]
      && b[10] == n[0] && b[11] == n[1] && b[12..12 + |def|] == def
  {
  }

  /** The bytes of an integer attribute, behind any header with its type and name. */
  lemma IntegerDecodes(h: seq<byte>, l: seq<byte>, u: seq<byte>, s: seq<byte>, d: seq<byte>, rest: seq<byte>, a: Attr)
    requires |h| == 5 && |l| == 8 && |u| == 8 && |s| == 4 && |d| == 8
    requires a.IntegerAttr? && h[2] == AttrTypeOf(a) && Word(h[3], h[4]) == a.name
    requires FromLe(l) == a.lower && FromLe(u) == a.upper && FromLe(s) == a.scalar && FromLe(d) == a.default
    ensures var b := h + (l + u + s + d) + rest;
      |b| >= 33 && Handle(b) == Handle(h) && EntryLength(Attributes, b) == 33 && DecodeAttr(b) == a
  {
    var b := h + (l + u + s + d) + rest;
    FourFields(h, l, u, s, d, rest);
    assert forall i :: 0 <= i < 5 ==> b[i] == b[..5][i];
    assert DecodeIntegerAttr(b) == a;
  }

  lemma IntegerAttrRoundTrip(handle: u16, a: Attr, rest: seq<byte>)
    requires a.IntegerAttr? && Acceptable(a)
    ensures var e := AttrBytes(handle, a);
      WellFormed(Attributes, e) && |e| == 33 &&
      EntryLength(Attributes, e + rest) == |e| && Handle(e + rest) == handle && DecodeAttr(e + rest) == a
  {
    var h, l, u, s, d := AttrHeader(handle, a), Le64(a.lower), Le64(a.upper), Le32(a.scalar), Le64(a.default);
    IntegerDecodes(h, l, u, s, d, [], a);
    IntegerDecodes(h, l, u, s, d, rest, a);
    assert AttrBytes(handle, a) + [] == AttrBytes(handle, a);
  }

  /** Whatever an attribute encoder accepts is measured and read back exactly, wherever it stands in a table. */
  lemma AttrRoundTrip(handle: u16, a: Attr, rest: seq<byte>)
    requires Acceptable(a)
    ensures var e := AttrBytes(handle, a);
      WellFormed(Attributes, e) && EntryLength(Attributes, e + rest) == |e| && Handle(e + rest) == handle &&
        DecodeAttr(e + rest) == a
  {
    match a
    case EnumAttr(_, _, _, _) => EnumAttrRoundTrip(handle, a, rest);
    case StringAttr(_, _, _, _, _, _) => StringAttrRoundTrip(handle, a, rest);
    case IntegerAttr(_, _, _, _, _, _) => IntegerAttrRoundTrip(handle, a, rest);
  }

  ghost predicate ReadsBack(handle: u16, a: Attr, e: seq<byte>) {
    WellFormed(Attributes, e) && Handle(e) == handle && DecodeAttr(e) == a
  }

  /** An encoder was given `a` and issued `handle` for it. */
  predicate Wrote(handle: u16, a: Attr, e: seq<byte>) { Written(handle, a) == Some(e) }

  function Written(handle: u16, a: Attr): Option<seq<byte>> {
    if Acceptable(a) then Some(AttrBytes(handle, a)) else None
  }

  lemma AttrAlone(handle: u16, a: Attr, e: seq<byte>)
    requires Wrote(handle, a, e)
    ensures ReadsBack(handle, a, e)
  {
    AttrRoundTrip(handle, a, []);
    var b := e + [];
    assert b == e;
  }

  lemma IntegerValueRoundTrip(v: Value, rest: seq<byte>)
    requires v.IntegerValue? && ValueAcceptable(v)
    ensures var e := ValueBytes(v);
      WellFormed(Values, e) && EntryLength(Values, e + rest) == |e| && DecodeValue(e + rest) == v
  {
    var e := ValueBytes(v);
    LengthIsLocal(Values, e, rest);
    assert (e + rest)[3..11] == Le64(v.current);
  }

  lemma StringValueRoundTrip(v: Value, rest: seq<byte>)
    requires v.StringValue? && ValueAcceptable(v)
    ensures var e := ValueBytes(v);
      WellFormed(Values, e) && EntryLength(Values, e + rest) == |e| && DecodeValue(e + rest) == v
  {
    var e := ValueBytes(v);
    assert e[3..5] == Le16(|v.text|);
    LengthIsLocal(Values, e, rest);
    assert (e + rest)[5..5 + |v.text|] == v.text;
  }

  /** Whatever a value encoder accepts is measured and read back exactly, wherever it stands in a table. */
  lemma ValueRoundTrip(v: Value, rest: seq<byte>)
    requires ValueAcceptable(v)
    ensures var e := ValueBytes(v);
      WellFormed(Values, e) && EntryLength(Values, e + rest) == |e| && Handle(e + rest) == v.handle &&
        DecodeValue(e + rest) == v
  {
    if v.IntegerValue? {
      IntegerValueRoundTrip(v, rest);
    } else if v.StringValue? {
      StringValueRoundTrip(v, rest);
    } else {
      LengthIsLocal(Values, ValueBytes(v), rest);
      assert (ValueBytes(v) + rest)[4..4 + |v.indices|] == v.indices;
    }
  }

  // ---------------------------------------------------------------- encoders

  /** struct pldm_bios_table_attr_entry_string_info; the default string may be a null pointer. */
  datatype StringInfo = StringInfo(name: u16, readOnly: bool, stringType: byte, minLength: u16, maxLength: u16,
                                   defLength: u16, defString: Option<seq<byte>>)

  /** pldm_bios_table_attr_entry_string_info_check, test by test. */
  predicate StringInfoOk(i: StringInfo) {
    if i.minLength > i.maxLength then false
    else if i.minLength == i.maxLength && i.defLength != i.minLength then false
    else if i.defLength > i.maxLength || i.defLength < i.minLength then false
    else if i.stringType > 5 && i.stringType != 0xff then false
    else !(i.defString.Some? && i.defLength != |i.defString.value|)
  }

  /**
   A string attribute is accepted exactly when its default's length is the one given, between the two limits, and its
   type is known.
   */
  lemma StringAcceptance(i: StringInfo)
    ensures StringInfoOk(i) <==>
      && i.minLength <= i.defLength <= i.maxLength && (i.stringType <= 5 || i.stringType == 0xff)
      && (i.defString.Some? ==> |i.defString.value| == i.defLength)
  {
  }

  /** The attribute an accepted info stands for; without a default string its bytes stay as they were. */
  function StringAttrOf(i: StringInfo, before: seq<byte>): (a: Attr)
    requires StringInfoOk(i) && |before| == i.defLength
    ensures a.StringAttr? && Acceptable(a) && |a.def| == i.defLength
  {
    StringAttr(i.name, i.readOnly, i.stringType, i.minLength, i.maxLength,
               if i.defString.Some? then i.defString.value else before)
  }

  lemma HandlesStep(hs: seq<u16>, i: nat)
    requires i < |hs|
    ensures Handles(hs[..i + 1]) == Handles(hs[..i]) + Le16(hs[i])
  {
    assert hs[..i + 1][..i] == hs[..i];
  }

  lemma KeptTail(buf: seq<byte>, x: seq<byte>, n: nat)
    requires |x| + n <= |buf|
    ensures Overlay(buf, 0, x) == Overlay(buf, 0, x + buf[|x|..|x| + n])
  {
  }

  /** The file's two static handle counters, and the encoders that draw on them. */
  class Encoder {
    var nextString: u16
    var nextAttr: u16
    /** What each handle issued so far was issued for. */
    ghost var strings: seq<seq<byte>>
    ghost var attrs: seq<Attr>

    /** Handles are issued in order and never twice, and only for what the checks let pass. */
    ghost predicate Valid()
      reads this
    {
      && |strings| == nextString && (forall i :: 0 <= i < |strings| ==> 0 < |strings[i]| < 0x1_0000)
      && |attrs| == nextAttr && (forall i :: 0 <= i < |attrs| ==> Acceptable(attrs[i]))
    }

    constructor ()
      ensures Valid() && nextString == 0 && nextAttr == 0
    {
      nextString, nextAttr, strings, attrs := 0, 0, [], [];
    }

    method EncodeString(entry: array<byte>, text: seq<byte>) returns (rc: Rc)
      requires Valid() && |text| < 0x1_0000
      modifies this, entry
      ensures Valid() && nextAttr == old(nextAttr) && attrs == old(attrs)
      ensures rc == if |text| == 0 then InvalidData
                    else if entry.Length < 4 + |text| then InvalidLength
                    else if old(nextString) == 0xffff then InvalidData else Success
      ensures rc != Success ==> strings == old(strings) && entry[..] == old(entry[..])
      ensures rc == Success ==> strings == old(strings) + [text]
      ensures rc == Success ==> entry[..] == Overlay(old(entry[..]), 0, StringBytes(old(nextString), text))
    {
      if |text| == 0 {
        return InvalidData;
      }
      if entry.Length < 4 + |text| {
        return InvalidLength;
      }
      if nextString == 0xffff {
        return InvalidData;
      }
      Blit(entry, 0, Le16(nextString) + Le16(|text|) + text);
      strings := strings + [text];
      nextString := nextString + 1;
      return Success;
    }

    /** attr_table_entry_encode_header, on behalf of an attribute `a`: takes a handle unless the counter is used up. */
    method EncodeHeader(entry: array<byte>, attrType: byte, name: u16, ghost a: Attr) returns (rc: Rc)
      requires Valid() && Acceptable(a) && AttrTypeOf(a) == attrType && a.name == name
      modifies this, entry
      ensures Valid() && nextString == old(nextString) && strings == old(strings)
      ensures rc == if entry.Length < 6 then InvalidLength else if old(nextAttr) == 0xffff then InvalidData else Success
      ensures rc != Success ==> attrs == old(attrs) && entry[..] == old(entry[..])
      ensures rc == Success ==> attrs == old(attrs) + [a]
      ensures rc == Success ==> entry[..] == Overlay(old(entry[..]), 0, AttrHeader(old(nextAttr), a))
    {
      if 6 > entry.Length {
        return InvalidLength;
      }
      if nextAttr == 0xffff {
        return InvalidData;
      }
      Blit(entry, 0, Le16(nextAttr) + [attrType] + Le16(name));
      attrs := attrs + [a];
      nextAttr := nextAttr + 1;
      return Success;
    }

    method EncodeEnum(entry: array<byte>, a: Attr) returns (rc: Rc)
      requires Valid() && a.EnumAttr? && |a.possible| < 256 && |a.defaults| < 256
      modifies this, entry
      ensures Valid() && nextString == old(nextString) && strings == old(strings)
      ensures rc == if entry.Length < 7 + 2 * |a.possible| + |a.defaults| then InvalidLength
                    else if old(nextAttr) == 0xffff then InvalidData else Success
      ensures rc != Success ==> attrs == old(attrs) && entry[..] == old(entry[..])
      ensures rc == Success ==> attrs == old(attrs) + [a]
      ensures rc == Success ==> entry[..] == Overlay(old(entry[..]), 0, AttrBytes(old(nextAttr), a))
    {
      var n := |a.possible|;
      if entry.Length < 7 + 2 * n + |a.defaults| {
        return InvalidLength;
      }
      rc := EncodeHeader(entry, TypeByte(0, a.readOnly), a.name, a);
      if rc != Success {
        return;
      }
      WriteEnum(entry, a, old(entry[..]), AttrHeader(old(nextAttr), a));
    }

    /** The metadata of an enum attribute, behind the header `h` already written over `was`. */
    static method WriteEnum(entry: array<byte>, a: Attr, ghost was: seq<byte>, ghost h: seq<byte>)
      requires a.EnumAttr? && |a.possible| < 256 && |a.defaults| < 256 && |h| == 5
      requires |was| == entry.Length >= 7 + 2 * |a.possible| + |a.defaults|
      requires entry[..] == Overlay(was, 0, h)
      modifies entry
      ensures entry[..] == Overlay(was, 0, h + Metadata(a))
    {
      var n := |a.possible|;
      Append(entry, was, h, 5, [n]);
      ghost var p := h + [n];
      assert p == p + Handles(a.possible[..0]);
      for i := 0 to n
        invariant entry[..] == Overlay(was, 0, p + Handles(a.possible[..i]))
      {
        Append(entry, was, p + Handles(a.possible[..i]), 6 + 2 * i, Le16(a.possible[i]));
        HandlesStep(a.possible, i);
        Associates(p, Handles(a.possible[..i]), Le16(a.possible[i]));
      }
      assert a.possible[..n] == a.possible;
      Append(entry, was, p + Handles(a.possible), 6 + 2 * n, [|a.defaults|] + a.defaults);
      assert p + Handles(a.possible) + ([|a.defaults|] + a.defaults) == h + Metadata(a);
    }

    method EncodeStringAttr(entry: array<byte>, info: StringInfo) returns (rc: Rc)
      requires Valid()
      modifies this, entry
      ensures Valid() && nextString == old(nextString) && strings == old(strings)
      ensures rc == if entry.Length < 12 + info.defLength then InvalidLength
                    else if !StringInfoOk(info) || old(nextAttr) == 0xffff then InvalidData else Success
      ensures rc != Success ==> attrs == old(attrs) && entry[..] == old(entry[..])
      ensures rc == Success ==> attrs == old(attrs) + [StringAttrOf(info, old(entry[12..12 + info.defLength]))]
      ensures rc == Success ==>
        entry[..] == Overlay(old(entry[..]), 0,
                             AttrBytes(old(nextAttr), StringAttrOf(info, old(entry[12..12 + info.defLength]))))
    {
      var n: int := info.defLength;
      if entry.Length < 12 + n {
        return InvalidLength;
      }
      if !StringInfoOk(info) {
        return InvalidData;
      }
      ghost var a := StringAttrOf(info, entry[12..12 + n]);
      rc := EncodeHeader(entry, TypeByte(1, info.readOnly), info.name, a);
      if rc != Success {
        return;
      }
      WriteString(entry, info, old(entry[..]), AttrHeader(old(nextAttr), a));
    }

    /** The metadata of a string attribute, behind the header `h` already written over `was`. */
    static method WriteString(entry: array<byte>, info: StringInfo, ghost was: seq<byte>, ghost h: seq<byte>)
      requires StringInfoOk(info) && |h| == 5
      requires |was| == entry.Length >= 12 + info.defLength
      requires entry[..] == Overlay(was, 0, h)
      modifies entry
      ensures entry[..] == Overlay(was, 0, h + Metadata(StringAttrOf(info, was[12..12 + info.defLength])))
    {
      var f := [info.stringType] + Le16(info.minLength) + Le16(info.maxLength) + Le16(info.defLength);
      Append(entry, was, h, 5, f);
      ghost var a := StringAttrOf(info, was[12..12 + info.defLength]);
      if info.defLength != 0 && info.defString.Some? {
        Append(entry, was, h + f, 12, info.defString.value);
      } else {
        KeptTail(was, h + f, info.defLength);
      }
      Associates(h, f, a.def);
    }

    method EncodeInteger(entry: array<byte>, a: Attr) returns (rc: Rc)
      requires Valid() && a.IntegerAttr?
      modifies this, entry
      ensures Valid() && nextString == old(nextString) && strings == old(strings)
      ensures rc == if entry.Length < 33 then InvalidLength
                    else if !Acceptable(a) || old(nextAttr) == 0xffff then InvalidData else Success
      ensures rc != Success ==> attrs == old(attrs) && entry[..] == old(entry[..])
      ensures rc == Success ==> attrs == old(attrs) + [a]
      ensures rc == Success ==> entry[..] == Overlay(old(entry[..]), 0, AttrBytes(old(nextAttr), a))
    {
      if entry.Length < 33 {
        return InvalidLength;
      }
      if !Acceptable(a) {
        return InvalidData;
      }
      rc := EncodeHeader(entry, TypeByte(3, a.readOnly), a.name, a);
      if rc != Success {
        return;
      }
      Blit(entry, 5, Le64(a.lower) + Le64(a.upper) + Le32(a.scalar) + Le64(a.default));
      OverlayAppend(old(entry[..]), 0, AttrHeader(old(nextAttr), a), Metadata(a));
    }
  }

  method EncodeEnumValue(entry: array<byte>, v: Value) returns (rc: Rc)
    requires v.EnumValue? && |v.indices| < 256
    modifies entry
    ensures rc == if v.attrType != 0x00 && v.attrType != 0x80 then InvalidData
                  else if entry.Length < 4 + |v.indices| then InvalidLength else Success
    ensures rc == Success ==> ValueAcceptable(v)
    ensures rc == Success ==> entry[..] == Overlay(old(entry[..]), 0, ValueBytes(v))
    ensures rc == InvalidData || entry.Length < 4 ==> entry[..] == old(entry[..])
    ensures rc == InvalidLength && entry.Length >= 4 ==>
              entry[..] == Overlay(old(entry[..]), 0, Le16(v.handle) + [v.attrType] + [|v.indices|])
  {
    if !IsEnum(v.attrType) {
      return InvalidData;
    }
    if entry.Length < 4 {
      return InvalidLength;
    }
    ghost var was := entry[..];
    var h := Le16(v.handle) + [v.attrType] + [|v.indices|];
    Blit(entry, 0, h);
    if entry.Length - 4 < |v.indices| {
      return InvalidLength;
    }
    Blit(entry, 4, v.indices);
    assert entry[..] == Overlay(was, 0, ValueBytes(v)) by {
      OverlayAppend(was, 0, h, v.indices);
      assert h + v.indices == ValueBytes(v);
    }
    return Success;
  }

  /** The text may be written before its length. */
  lemma TextInFront(was: seq<byte>, v: Value, h: seq<byte>, l: seq<byte>)
    requires v.StringValue? && ValueAcceptable(v) && 5 + |v.text| <= |was|
    requires h == Le16(v.handle) + [v.attrType] && l == Le16(|v.text|)
    ensures |ValueBytes(v)| == 5 + |v.text|
    ensures Overlay(Overlay(Overlay(was, 0, h), 5, v.text), 3, l) == Overlay(was, 0, ValueBytes(v))
  {
    OverlayGap(was, h, l, v.text);
    Associates(h, l, v.text);
  }

  method EncodeStringValue(entry: array<byte>, v: Value) returns (rc: Rc)
    requires v.StringValue? && |v.text| < 0x1_0000
    modifies entry
    ensures rc == if v.attrType != 0x01 && v.attrType != 0x81 then InvalidData
                  else if entry.Length < 5 + |v.text| then InvalidLength else Success
    ensures rc == Success ==> ValueAcceptable(v)
    ensures rc == Success ==> entry[..] == Overlay(old(entry[..]), 0, ValueBytes(v))
    ensures rc == InvalidData || entry.Length < 5 ==> entry[..] == old(entry[..])
    ensures rc == InvalidLength && entry.Length >= 5 ==>
        entry[..] == Overlay(old(entry[..]), 0, Le16(v.handle) + [v.attrType])
  {
    if !IsString(v.attrType) {
      return InvalidData;
    }
    if entry.Length < 5 {
      return InvalidLength;
    }
    ghost var was := entry[..];
    var h := Le16(v.handle) + [v.attrType];
    Blit(entry, 0, h);
    if entry.Length - 5 < |v.text| {
      return InvalidLength;
    }
    Blit(entry, 5, v.text);
    Blit(entry, 3, Le16(|v.text|));
    TextInFront(was, v, h, Le16(|v.text|));
    return Success;
  }

  method EncodeIntegerValue(entry: array<byte>, v: Value) returns (rc: Rc)
    requires v.IntegerValue?
    modifies entry
    ensures rc == if v.attrType != 0x03 && v.attrType != 0x83 then InvalidData
                  else if entry.Length < 11 then InvalidLength else Success
    ensures rc == Success ==> ValueAcceptable(v)
    ensures rc == Success ==> entry[..] == Overlay(old(entry[..]), 0, ValueBytes(v))
    ensures rc != Success ==> entry[..] == old(entry[..])
  {
    if !IsInteger(v.attrType) {
      return InvalidData;
    }
    if entry.Length < 11 {
      return InvalidLength;
    }
    Blit(entry, 0, Le16(v.handle) + [v.attrType] + Le64(v.current));
    return Success;
  }
}
