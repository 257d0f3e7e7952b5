/**
 Models the record decoders of src/dsp/firmware_update.c: firmware device, downstream device and component
 image records, Tables 4 to 6 of DSP0267 v1.3.0. Each takes one record off the front of a field and leaves
 the rest of the field for the next.

 The functions say what a record is, by offsets. The methods read it through the message buffer, with most
 accesses unchecked until the end, and are proved to give exactly that.
 */
module PackageRecords {
  import opened Bytes
  import opened Msgbuf

  datatype Rc = Ok | Inval | NotSup | Overflow | Proto | Unclean

  predicate StringTypeOk(t: nat) { 1 <= t <= 5 }

  /** A decoder's result: the record, or an error code; and what is then left of the field. */
  datatype Step<T> = Refused(rc: Rc, field: Span) | Got(rec: T, field: Span)

  ghost predicate Within(f: Span, data: seq<byte>) { End(f) <= |data| && |data| <= INTMAX_MAX }

  // ---------------------------------------------------------------- device records

  /** Firmware and downstream device records; `stamp` is in downstream records only. */
  datatype Device = Device(descriptorCount: nat, flags: nat, versionType: nat, stamp: nat,
                           bitmap: Span, version: Span, descriptors: Span, packageData: Span, manifest: Span)

  datatype Kind = Firmware | Downstream

  const MIN_RECORD := 11

  /** Revision 4 adds the length of a reference manifest to the fixed part. */
  function FixedPart(revision: nat): nat { if revision >= 4 then 15 else MIN_RECORD }

  /** Self-contained activation: bit 0 of the flags of a downstream device. */
  function StampSize(kind: Kind, flags: nat): nat { if kind == Downstream && flags % 2 == 1 then 4 else 0 }

  /** The record of `length` bytes at p. */
  function DeviceAt(data: seq<byte>, p: nat, length: nat, kind: Kind, revision: nat, bits: nat): (r: Step<Device>)
    requires MIN_RECORD <= length && p + length <= |data|
  {
    var none := Span(0, 0);
    var flags, stringType, version, pkg := Number(data, p + 3, U32), Number(data, p + 7, U8), Number(data, p + 8, U8),
        Number(data, p + 9, U16);
    if !StringTypeOk(stringType) || (kind == Firmware && version == 0) then Refused(Proto, none)
    else if length < FixedPart(revision) then Refused(Overflow, none)
    else
      var manifest := if revision >= 4 then Number(data, p + 11, U32) else 0;
      var a := p + FixedPart(revision);
      var b := a + bits / 8;
      var c := b + version;
      var d := c + StampSize(kind, flags);
      if d + pkg + manifest > p + length then Refused(Overflow, none)
      else
        var e := p + length - pkg - manifest;
        Got(Device(Number(data, p + 2, U8), flags, stringType, if d == c then 0 else Number(data, c, U32),
                   Span(a, bits / 8), Span(b, version), Span(d, e - d), Span(e, pkg), Span(e + pkg, manifest)), none)
  }

  /** The first record of a field, by the length it declares. */
  function DeviceOf(data: seq<byte>, f: Span, kind: Kind, revision: nat, bits: nat): (r: Step<Device>)
    requires End(f) <= |data|
    ensures End(r.field) == End(f) && f.start <= r.field.start
  {
    if f.length < MIN_RECORD || f.length < Number(data, f.start, U16) then Refused(Overflow, f)
    else
      var n := Number(data, f.start, U16);
      var rest := Span(f.start + n, f.length - n);
      if n < MIN_RECORD then Refused(Overflow, rest)
      else
        match DeviceAt(data, f.start, n, kind, revision, bits)
        case Refused(rc, _) => Refused(rc, rest)
        case Got(rec, _) => Got(rec, rest)
  }

  /** A string type that is not known, or a firmware device without a version string. */
  predicate Unnamed(data: seq<byte>, p: nat, kind: Kind)
    requires p + 9 <= |data|
  {
    !(1 <= data[p + 7] <= 5) || (kind == Firmware && data[p + 8] == 0)
  }

  /**
   What becomes of the first record of a field, which is cut off by the length it declares: -EPROTO exactly for one
   that is long enough and lacks a name or has an unknown type of it, and -EOVERFLOW for any other that is refused.
   */
  lemma DeviceRefusals(data: seq<byte>, f: Span, kind: Kind, revision: nat, bits: nat)
    requires End(f) <= |data|
    ensures var r := DeviceOf(data, f, kind, revision, bits);
      if f.length < 11 || f.length < Word(data[f.start], data[f.start + 1]) then r == Refused(Overflow, f)
      else
        var n: nat := Word(data[f.start], data[f.start + 1]);
        && r.field == Span(f.start + n, f.length - n)
        && (r.Refused? ==> r.rc == if n >= 11 && Unnamed(data, f.start, kind) then Proto else Overflow)
        && (r.Got? ==> n >= 11 && !Unnamed(data, f.start, kind))
  {
    Numbers(data, f.start);
    Numbers(data, f.start + 7);
    Numbers(data, f.start + 8);
  }

  /** The fixed part and the pieces of a device record, in order. */
  function DevicePieces(p: nat, revision: nat, kind: Kind, d: Device): seq<Span> {
    [Span(p, FixedPart(revision)), d.bitmap, d.version, Span(End(d.version), StampSize(kind, d.flags)),
     d.descriptors, d.packageData, d.manifest]
  }

  /** The pieces of a record fill its length. */
  lemma PiecesTile(data: seq<byte>, p: nat, length: nat, kind: Kind, revision: nat, bits: nat, d: Device)
    requires MIN_RECORD <= length && p + length <= |data| && DeviceAt(data, p, length, kind, revision, bits).Got?
    requires d == DeviceAt(data, p, length, kind, revision, bits).rec
    ensures d.bitmap.length == bits / 8 && Tiles(DevicePieces(p, revision, kind, d), p, p + length)
  {
    SevenTiles(Span(p, FixedPart(revision)), d.bitmap, d.version, Span(End(d.version), StampSize(kind, d.flags)),
               d.descriptors, d.packageData, d.manifest);
  }

  /** The record is the one at the start of the field, and the next one starts where it ends. */
  lemma DeviceEnds(data: seq<byte>, f: Span, kind: Kind, revision: nat, bits: nat)
    requires End(f) <= |data| && DeviceOf(data, f, kind, revision, bits).Got?
    ensures f.length >= 2
    ensures var r := DeviceOf(data, f, kind, revision, bits); var n := Number(data, f.start, U16);
      && r.field == Span(f.start + n, f.length - n) && MIN_RECORD <= n <= f.length
      && DeviceAt(data, f.start, n, kind, revision, bits).Got?
      && r.rec == DeviceAt(data, f.start, n, kind, revision, bits).rec
  {
  }

  /** A decoded record is taken up exactly by its pieces. */
  lemma DeviceTiles(data: seq<byte>, f: Span, kind: Kind, revision: nat, bits: nat, d: Device, n: nat)
    requires End(f) <= |data| && DeviceOf(data, f, kind, revision, bits).Got?
    requires d == DeviceOf(data, f, kind, revision, bits).rec
    requires f.length >= 2 && n == Number(data, f.start, U16)
    ensures d.bitmap.length == bits / 8 && Tiles(DevicePieces(f.start, revision, kind, d), f.start, f.start + n)
  {
    DeviceEnds(data, f, kind, revision, bits);
    PiecesTile(data, f.start, n, kind, revision, bits, d);
  }

  lemma SevenTiles(a: Span, b: Span, c: Span, d: Span, e: Span, f: Span, g: Span)
    requires b.start == End(a) && c.start == End(b) && d.start == End(c) && e.start == End(d) && f.start == End(e) &&
        g.start == End(f)
    ensures Tiles([a, b, c, d, e, f, g], a.start, End(g))
  {
    assert Tiles([], End(g), End(g));
    assert [g][1..] == [] && Tiles([g], g.start, End(g));
    assert [f, g][1..] == [g] && Tiles([f, g], f.start, End(g));
    assert [e, f, g][1..] == [f, g] && Tiles([e, f, g], e.start, End(g));
    assert [d, e, f, g][1..] == [e, f, g] && Tiles([d, e, f, g], d.start, End(g));
    assert [c, d, e, f, g][1..] == [d, e, f, g] && Tiles([c, d, e, f, g], c.start, End(g));
    assert [b, c, d, e, f, g][1..] == [c, d, e, f, g] && Tiles([b, c, d, e, f, g], b.start, End(g));
    assert [a, b, c, d, e, f, g][1..] == [b, c, d, e, f, g];
  }

  /** pldm_msgbuf_init_dynamic_uint16: cuts the record off the field by its own length, then checks that length. */
  method InitDynamic(data: seq<byte>, f: Span) returns (ok: bool, length: nat, rest: Span)
    requires Within(f, data)
    ensures ok <==> f.length >= MIN_RECORD && MIN_RECORD <= Number(data, f.start, U16) <= f.length
    ensures f.length < MIN_RECORD || Number(data, f.start, U16) > f.length ==> rest == f
    ensures f.length >= MIN_RECORD && Number(data, f.start, U16) <= f.length ==>
              length == Number(data, f.start, U16) && rest == Span(f.start + length, f.length - length)
  {
    if f.length < MIN_RECORD {
      return false, 0, f;
    }
    var buf := new Reader(data, f.start, f.length);
    ok, length := buf.Get(U16);
    buf := new Reader(data, f.start, f.length);
    var at;
    ok, at := buf.Take(length);
    if !ok {
      return false, 0, f;
    }
    var start, left;
    ok, start, left := buf.TakeRest();
    return length >= MIN_RECORD, length, Span(start, left);
  }

  /**
   The two device record decoders. They differ in the checks on the version string and in the stamp; both leave the
   accesses to the variable part unchecked until the whole record must have been consumed.
   */
  method DecodeDevice(data: seq<byte>, f: Span, kind: Kind, revision: nat, bits: nat) returns (r: Step<Device>)
    requires Within(f, data)
    ensures r == DeviceOf(data, f, kind, revision, bits)
  {
    var ok, length, rest := InitDynamic(data, f);
    if !ok {
      return Refused(Overflow, rest);
    }
    var buf := new Reader(data, f.start, length);
    var d := ReadFixed(data, f.start, length, buf);
    if !StringTypeOk(d.versionType) {
      return Refused(Proto, rest);
    }
    if kind == Firmware && d.version.length == 0 {
      return Refused(Proto, rest);
    }
    if revision >= 4 {
      var manifest;
      ok, manifest := buf.Get(U32);
      if kind == Firmware && !ok {
        return Refused(Overflow, rest);
      }
      d := d.(manifest := Span(0, manifest));
    }
    r := DecodeVariable(data, f.start, length, buf, kind, revision, bits, rest, d);
  }

  /** The first eleven bytes, which are known to be there. */
  method ReadFixed(data: seq<byte>, p: nat, length: nat, buf: Reader) returns (d: Device)
    requires MIN_RECORD <= length && p + length <= |data|
    requires buf.Valid() && buf.data == data && buf.start == p && buf.end == p + length && buf.asked == 0
    modifies buf
    ensures buf.Valid() && buf.asked == MIN_RECORD
    ensures d == Device(Number(data, p + 2, U8), Number(data, p + 3, U32), Number(data, p + 7, U8), 0, Span(0, 0),
                        Span(0, Number(data, p + 8, U8)), Span(0, 0), Span(0, Number(data, p + 9, U16)), Span(0, 0))
  {
    var ok, n := buf.Get(U16);
    var count, flags, stringType, version, pkg;
    ok, count := buf.Get(U8);
    ok, flags := buf.Get(U32);
    ok, stringType := buf.Get(U8);
    ok, version := buf.Get(U8);
    ok, pkg := buf.Get(U16);
    d := Device(count, flags, stringType, 0, Span(0, 0), Span(0, version), Span(0, 0), Span(0, pkg), Span(0, 0));
  }

  /** The variable part, behind a fixed part whose lengths are in `d`. */
  method DecodeVariable(data: seq<byte>, p: nat, length: nat, buf: Reader, kind: Kind, revision: nat, bits: nat,
                        rest: Span, d: Device)
    returns (r: Step<Device>)
    requires MIN_RECORD <= length && p + length <= |data| <= INTMAX_MAX
    requires buf.Valid() && buf.data == data && buf.start == p && buf.end == p + length &&
        buf.asked == FixedPart(revision)
    requires d.descriptorCount == Number(data, p + 2, U8) && d.flags == Number(data, p + 3, U32) &&
        d.versionType == Number(data, p + 7, U8)
    requires d.version.length == Number(data, p + 8, U8) && d.packageData.length == Number(data, p + 9, U16)
    requires length >= FixedPart(revision) ==>
        d.manifest.length == if revision >= 4 then Number(data, p + 11, U32) else 0
    requires length < FixedPart(revision) ==> d.manifest.length == 0
    requires StringTypeOk(d.versionType) && (kind == Firmware ==> d.version.length != 0)
    modifies buf
    ensures match DeviceAt(data, p, length, kind, revision, bits)
      case Refused(rc, _) => r == Refused(rc, rest)
      case Got(rec, _) => r == Got(rec, rest)
  {
    var pkg, manifest := d.packageData.length, d.manifest.length;
    var stampSize := if kind == Downstream && d.flags % 2 == 1 then U32 else 0;
    var ok, stamp, bitmap, version, descriptors :=
      ReadVariable(buf, FixedPart(revision), bits / 8, d.version.length, stampSize, pkg, manifest);
    if !ok {
      return Refused(Overflow, rest);
    }
    return Got(d.(stamp := stamp, bitmap := bitmap, version := version, descriptors := descriptors,
                  packageData := Span(End(descriptors), pkg),
                  manifest := Span(End(descriptors) + pkg, manifest)), rest);
  }

  /** The accesses to the variable part, the first of them checked at once, the others at the end. */
  method ReadVariable(buf: Reader, fixedPart: nat, bits: nat, length: nat, stampSize: nat, pkg: nat, manifest: nat)
    returns (ok: bool, stamp: nat, bitmap: Span, version: Span, descriptors: Span)
    requires buf.Valid() && buf.asked == fixedPart && (stampSize == 0 || stampSize == U32)
    modifies buf
    ensures ok <==> buf.start + fixedPart + bits + length + stampSize + pkg + manifest <= buf.end
    ensures ok ==> bitmap == Span(buf.start + fixedPart, bits) && version == Span(End(bitmap), length)
    ensures ok ==> stamp == if stampSize == 0 then 0 else Number(buf.data, End(version), U32)
    ensures ok ==> descriptors.start == End(version) + stampSize && End(descriptors) + pkg + manifest == buf.end
  {
    var at;
    ok, at := buf.Take(bits);
    bitmap, stamp := Span(at, bits), 0;
    version, descriptors := bitmap, bitmap;
    if !ok {
      return;
    }
    ok, at := buf.Take(length);
    version := Span(at, length);
    assert End(version) == buf.start + buf.asked || buf.start + buf.asked > buf.end;
    stamp := ReadStamp(buf, stampSize, End(version));
    ok, descriptors := ReadTail(buf, pkg, manifest);
  }

  /** The stamp at c, in records that have one. */
  method ReadStamp(buf: Reader, stampSize: nat, ghost c: nat) returns (stamp: nat)
    requires buf.Valid() && (stampSize == 0 || stampSize == U32)
    requires buf.start + buf.asked <= buf.end ==> c == buf.start + buf.asked
    modifies buf
    ensures buf.Valid() && buf.asked == old(buf.asked) + stampSize
    ensures stampSize == 0 ==> stamp == 0
    ensures stampSize != 0 && buf.start + buf.asked <= buf.end ==>
              c + U32 <= |buf.data| && stamp == Number(buf.data, c, U32)
  {
    stamp := 0;
    if stampSize != 0 {
      var ok;
      ok, stamp := buf.Get(U32);
    }
  }

  /** Descriptors, package data and manifest, up to the last byte. */
  method ReadTail(buf: Reader, pkg: nat, manifest: nat) returns (ok: bool, descriptors: Span)
    requires buf.Valid()
    modifies buf
    ensures ok <==> buf.start + old(buf.asked) + pkg + manifest <= buf.end
    ensures ok ==> descriptors.start == buf.start + old(buf.asked) && End(descriptors) + pkg + manifest == buf.end
  {
    var at, n := buf.TakeUntil(pkg + manifest);
    descriptors := Span(at, n);
    ok, at := buf.Take(pkg);
    ok, at := buf.Take(manifest);
    ok := buf.Consumed();
  }

  // ---------------------------------------------------------------- component image records

  datatype Component = Component(classification: nat, identifier: nat, stamp: nat, options: nat, activation: nat,
                                 versionType: nat, version: Span, opaqueData: Span, image: Span)

  const MIN_COMPONENT := 22

  /** Where the opaque data starts: revision 3 puts its length behind the version string. */
  function OpaqueStart(p: nat, version: nat, revision: nat): nat {
    p + MIN_COMPONENT + version + if revision >= 3 then 4 else 0
  }

  /** The fixed part: location and size of the image are in `image`, only the length of the version string is known. */
  function FixedFields(data: seq<byte>, p: nat): Component
    requires p + MIN_COMPONENT <= |data|
  {
    Component(Number(data, p, U16), Number(data, p + 2, U16), Number(data, p + 4, U32), Number(data, p + 8, U16),
              Number(data, p + 10, U16),
              Number(data, p + 20, U8), Span(p + MIN_COMPONENT, Number(data, p + 21, U8)), Span(0, 0),
              Span(Number(data, p + 12, U32), Number(data, p + 16, U32)))
  }

  /** How long the opaque data says it is. */
  function OpaqueLength(data: seq<byte>, o: nat, revision: nat): nat
    requires 4 <= o <= |data|
  {
    if revision >= 3 then Number(data, o - 4, U32) else 0
  }

  /** The first record of a field. It declares no length of its own; its image lies anywhere in the package. */
  function ComponentOf(data: seq<byte>, f: Span, revision: nat): (r: Step<Component>)
    requires End(f) <= |data|
    ensures End(r.field) == End(f) && f.start <= r.field.start
    ensures r.Got? ==> f.start + MIN_COMPONENT <= r.field.start
  {
    if f.length < MIN_COMPONENT then Refused(Overflow, f)
    else
      var c := FixedFields(data, f.start);
      var o := OpaqueStart(f.start, c.version.length, revision);
      if !StringTypeOk(c.versionType) then Refused(Proto, f)
      else if o > End(f) || o + OpaqueLength(data, o, revision) > End(f) then Refused(Overflow, f)
      else
        var n := OpaqueLength(data, o, revision);
        var rest := Span(o + n, End(f) - o - n);
        if 0x000d < c.classification < 0x8000 then Refused(Proto, rest)
        else if End(c.image) > |data| then Refused(Overflow, rest)
        else Got(c.(opaqueData := Span(o, n)), rest)
  }

  /**
   What becomes of the first component record of a field: -EPROTO for an unknown string type, with the field left
   alone, and for a reserved classification, with the record taken off it; -EOVERFLOW for a field that ends too early,
   and for an image that lies outside the package.
   */
  lemma ComponentRefusals(data: seq<byte>, f: Span, revision: nat)
    requires End(f) <= |data|
    ensures var r := ComponentOf(data, f, revision);
      if f.length < 22 then r == Refused(Overflow, f)
      else if !(1 <= data[f.start + 20] <= 5) then r == Refused(Proto, f)
      else if r.field == f then r == Refused(Overflow, f)
      else (r.Refused? ==> r.rc == if 0x000d < Word(data[f.start], data[f.start + 1]) < 0x8000 then Proto else Overflow)
  {
    Numbers(data, f.start);
    Numbers(data, f.start + 20);
  }

  /**
   The fixed part and the pieces of a component record, in order; the length of the opaque data is a piece of its own.
   */
  function ComponentPieces(p: nat, revision: nat, c: Component): seq<Span> {
    [Span(p, MIN_COMPONENT), c.version, Span(End(c.version), if revision >= 3 then 4 else 0), c.opaqueData]
  }

  /** A decoded record is taken up exactly, the next one starts where it ends, and its image lies in the package. */
  lemma ComponentTiles(data: seq<byte>, f: Span, revision: nat)
    requires End(f) <= |data| && ComponentOf(data, f, revision).Got?
    ensures var r := ComponentOf(data, f, revision);
      && Tiles(ComponentPieces(f.start, revision, r.rec), f.start, r.field.start)
      && End(r.rec.image) <= |data|
  {
    var c := ComponentOf(data, f, revision).rec;
    FourTiles(Span(f.start, MIN_COMPONENT), c.version, Span(End(c.version), if revision >= 3 then 4 else 0),
              c.opaqueData);
  }

  lemma FourTiles(a: Span, b: Span, c: Span, d: Span)
    requires b.start == End(a) && c.start == End(b) && d.start == End(c)
    ensures Tiles([a, b, c, d], a.start, End(d))
  {
    assert [d][1..] == [] && Tiles([d], d.start, End(d));
    assert [c, d][1..] == [d] && Tiles([c, d], c.start, End(d));
    assert [b, c, d][1..] == [c, d] && Tiles([b, c, d], b.start, End(d));
    assert [a, b, c, d][1..] == [b, c, d];
  }

  /** decode_pldm_package_component_image_information_from_iter, on the field. */
  method DecodeComponent(data: seq<byte>, f: Span, revision: nat) returns (r: Step<Component>)
    requires Within(f, data)
    ensures r == ComponentOf(data, f, revision)
  {
    if f.length < MIN_COMPONENT {
      return Refused(Overflow, f);
    }
    var buf := new Reader(data, f.start, f.length);
    var c := ReadComponent(data, f, buf);
    if !StringTypeOk(c.versionType) {
      return Refused(Proto, f);
    }
    var ok, opaqueData, rest := ReadOpaque(data, f, buf, c.version.length, revision);
    if !ok {
      return Refused(Overflow, f);
    }
    if 0x000d < c.classification < 0x8000 {
      return Refused(Proto, rest);
    }
    ok := ResolveImage(data, c.image.start, c.image.length);
    if !ok {
      return Refused(Overflow, rest);
    }
    return Got(c.(opaqueData := opaqueData), rest);
  }

  /** The version string and, from revision 3, the opaque data. */
  method ReadOpaque(data: seq<byte>, f: Span, buf: Reader, version: nat, revision: nat)
      returns (ok: bool, opaqueData: Span, rest: Span)
    requires Within(f, data) && f.length >= MIN_COMPONENT
    requires buf.Valid() && buf.data == data && buf.start == f.start && buf.end == End(f) && buf.asked == MIN_COMPONENT
    modifies buf
    ensures var o := OpaqueStart(f.start, version, revision);
      && (ok <==> o <= End(f) && o + OpaqueLength(data, o, revision) <= End(f))
      && (ok ==> var n := OpaqueLength(data, o, revision);
          opaqueData == Span(o, n) && rest == Span(o + n, End(f) - o - n))
  {
    var at;
    ok, at := buf.Take(version);
    opaqueData, rest := Span(at + version, 0), f;
    if revision >= 3 {
      var n;
      ok, n := buf.Get(U32);
      if !ok {
        return;
      }
      ok, at := buf.Take(n);
      opaqueData := Span(at, n);
    }
    var start, left;
    ok, start, left := buf.TakeRest();
    rest := Span(start, left);
  }

  /** The image is found by a second buffer over the whole package. */
  method ResolveImage(data: seq<byte>, location: nat, size: nat) returns (ok: bool)
    requires |data| <= INTMAX_MAX
    ensures ok <==> location + size <= |data|
  {
    var buf := new Reader(data, 0, |data|);
    var at;
    ok, at := buf.Take(location);
    ok, at := buf.Take(size);
    ok := buf.Complete();
  }

  /** The first 22 bytes, which are known to be there. */
  method ReadComponent(data: seq<byte>, f: Span, buf: Reader) returns (c: Component)
    requires Within(f, data) && f.length >= MIN_COMPONENT
    requires buf.Valid() && buf.data == data && buf.start == f.start && buf.end == End(f) && buf.asked == 0
    modifies buf
    ensures buf.Valid() && buf.asked == MIN_COMPONENT
    ensures c == FixedFields(data, f.start)
  {
    var ok, category, id, stamp, options, activation, location, size, stringType, version;
    ok, category := buf.Get(U16);
    ok, id := buf.Get(U16);
    ok, stamp := buf.Get(U32);
    ok, options := buf.Get(U16);
    ok, activation := buf.Get(U16);
    ok, location := buf.Get(U32);
    ok, size := buf.Get(U32);
    ok, stringType := buf.Get(U8);
    ok, version := buf.Get(U8);
    c := Component(category, id, stamp, options, activation, stringType, Span(f.start + MIN_COMPONENT, version),
                   Span(0, 0), Span(location, size));
  }
}
