/**
 A whole firmware update package as a builder writes it: header, counts, records, checksums. The walk gives back every
 record that went in.
 */
module PackageBuild {
  import opened Bytes
  import opened Msgbuf
  import opened PackageRecords
  import opened PackageWalk
  import opened PackageEncode
  import H = PackageHeader

  // ---------------------------------------------------------------- lists of device records

  /** A device record that the decoder accepts. */
  predicate Sound(d: DeviceSpec, kind: Kind, revision: nat, bits: nat) {
    && DeviceFits(d, kind, revision) && |d.bitmap| == bits / 8
    && 1 <= d.versionType <= 5 && (kind == Firmware ==> d.version != [])
  }

  function DevicesSize(ds: seq<DeviceSpec>, kind: Kind, revision: nat): nat {
    if ds == [] then 0 else DeviceSize(ds[0], kind, revision) + DevicesSize(ds[1..], kind, revision)
  }

  predicate IsDevice(b: seq<byte>, d: DeviceSpec, kind: Kind, revision: nat) {
    DeviceFits(d, kind, revision) && b == DeviceBytes(d, kind, revision)
  }

  /** A sound record lies at p. */
  ghost predicate DeviceWritten(data: seq<byte>, p: nat, d: DeviceSpec, kind: Kind, revision: nat, bits: nat) {
    Sound(d, kind, revision, bits) && forall b :: IsDevice(b, d, kind, revision) ==> Holds(data, p, b)
  }

  /** These records lie one behind the other from p on. */
  ghost predicate DevicesWritten(data: seq<byte>, p: nat, ds: seq<DeviceSpec>, kind: Kind, revision: nat, bits: nat)
    decreases |ds|
  {
    ds == [] || (DeviceWritten(data, p, ds[0], kind, revision, bits) &&
                 DevicesWritten(data, p + DeviceSize(ds[0], kind, revision), ds[1..], kind, revision, bits))
  }

  /** The devices that they decode to. */
  function DevicesAt(p: nat, ds: seq<DeviceSpec>, kind: Kind, revision: nat): (r: seq<Device>)
    ensures |r| == |ds|
    decreases |ds|
  {
    if ds == [] then []
    else [DeviceOfSpec(p, ds[0], kind, revision)] +
         DevicesAt(p + DeviceSize(ds[0], kind, revision), ds[1..], kind, revision)
  }

  /** The pieces of each record hold what was written. */
  ghost predicate DevicesHold(data: seq<byte>, recs: seq<Device>, ds: seq<DeviceSpec>) {
    |recs| == |ds| && forall i :: 0 <= i < |ds| ==> DeviceContents(data, recs[i], ds[i])
  }

  /** The device loop on the field gives these records, with the pieces written, and leaves that much of it. */
  ghost predicate DevicesBack(data: seq<byte>, f: Span, ds: seq<DeviceSpec>, kind: Kind, revision: nat, bits: nat,
                              recs: seq<Device>, left: Span)
  {
    && End(f) <= |data| && DevicesOf(data, f, |ds|, kind, revision, bits) == Collected(Ok, recs, left)
    && DevicesHold(data, recs, ds)
  }

  lemma OneDeviceRead(data: seq<byte>, f: Span, d: DeviceSpec, kind: Kind, revision: nat, bits: nat, n: nat)
    requires DeviceWritten(data, f.start, d, kind, revision, bits)
    requires n == DeviceSize(d, kind, revision) <= f.length && End(f) <= |data|
    ensures DeviceIsRead(data, f, kind, revision, bits, Got(DeviceOfSpec(f.start, d, kind, revision), Rest(f, n)))
    ensures DeviceContents(data, DeviceOfSpec(f.start, d, kind, revision), d)
  {
    assert IsDevice(DeviceBytes(d, kind, revision), d, kind, revision);
    DeviceRoundTrip(data, f, d, kind, revision, bits);
    assert DeviceOutcome(f, d, kind, revision, n) == Got(DeviceOfSpec(f.start, d, kind, revision), Rest(f, n));
  }

  lemma FirstHolds(data: seq<byte>, r: Device, recs: seq<Device>, d: DeviceSpec, ds: seq<DeviceSpec>)
    requires DeviceContents(data, r, d) && DevicesHold(data, recs, ds)
    ensures DevicesHold(data, [r] + recs, [d] + ds)
  {
  }

  lemma DevicesBackStep(data: seq<byte>, f: Span, d: DeviceSpec, ds: seq<DeviceSpec>, kind: Kind, revision: nat,
                        bits: nat, r: Device, g: Span, recs: seq<Device>, left: Span)
    requires DeviceIsRead(data, f, kind, revision, bits, Got(r, g)) && DeviceContents(data, r, d)
    requires DevicesBack(data, g, ds, kind, revision, bits, recs, left)
    ensures DevicesBack(data, f, [d] + ds, kind, revision, bits, [r] + recs, left)
  {
    FirstHolds(data, r, recs, d, ds);
  }

  lemma DevicesAtStep(f: Span, ds: seq<DeviceSpec>, kind: Kind, revision: nat, size: nat, n: nat, g: Span)
    requires ds != [] && n == DeviceSize(ds[0], kind, revision) <= size <= f.length && g == Rest(f, n)
    ensures DevicesAt(f.start, ds, kind, revision) ==
            [DeviceOfSpec(f.start, ds[0], kind, revision)] + DevicesAt(g.start, ds[1..], kind, revision)
    ensures Rest(g, size - n) == Rest(f, size) && [ds[0]] + ds[1..] == ds
  {
  }

  /** Each of the records decodes where it lies. */
  ghost predicate DevicesDecode(data: seq<byte>, f: Span, ds: seq<DeviceSpec>, kind: Kind, revision: nat, bits: nat)
    decreases |ds|
  {
    ds == [] ||
    (var r, g := DeviceOfSpec(f.start, ds[0], kind, revision), Rest(f, DeviceSize(ds[0], kind, revision));
     && DeviceIsRead(data, f, kind, revision, bits, Got(r, g)) && DeviceContents(data, r, ds[0])
     && DevicesDecode(data, g, ds[1..], kind, revision, bits))
  }

  lemma DevicesDecodeStep(data: seq<byte>, f: Span, ds: seq<DeviceSpec>, kind: Kind, revision: nat, bits: nat, n: nat)
    requires ds != [] && n == DeviceSize(ds[0], kind, revision)
    requires DeviceIsRead(data, f, kind, revision, bits, Got(DeviceOfSpec(f.start, ds[0], kind, revision), Rest(f, n)))
    requires DeviceContents(data, DeviceOfSpec(f.start, ds[0], kind, revision), ds[0])
    requires DevicesDecode(data, Rest(f, n), ds[1..], kind, revision, bits)
    ensures DevicesDecode(data, f, ds, kind, revision, bits)
  {
  }

  lemma {:induction false} WrittenDevicesDecode(data: seq<byte>, f: Span, ds: seq<DeviceSpec>, kind: Kind,
                                                revision: nat, bits: nat)
    requires DevicesWritten(data, f.start, ds, kind, revision, bits)
    requires DevicesSize(ds, kind, revision) <= f.length && End(f) <= |data|
    ensures DevicesDecode(data, f, ds, kind, revision, bits)
    decreases |ds|
  {
    if ds != [] {
      var n := DeviceSize(ds[0], kind, revision);
      var g := Rest(f, n);
      assert g.start == f.start + DeviceSize(ds[0], kind, revision);
      assert DevicesWritten(data, g.start, ds[1..], kind, revision, bits);
      WrittenDevicesDecode(data, g, ds[1..], kind, revision, bits);
      OneDeviceRead(data, f, ds[0], kind, revision, bits, n);
      DevicesDecodeStep(data, f, ds, kind, revision, bits, n);
    }
  }

  /** The first record and the others. */
  lemma DevicesJoin(data: seq<byte>, f: Span, ds: seq<DeviceSpec>, kind: Kind, revision: nat, bits: nat, size: nat,
                    n: nat, g: Span)
    requires ds != [] && n == DeviceSize(ds[0], kind, revision) <= size <= f.length && g == Rest(f, n)
    requires DeviceIsRead(data, f, kind, revision, bits, Got(DeviceOfSpec(f.start, ds[0], kind, revision), g))
    requires DeviceContents(data, DeviceOfSpec(f.start, ds[0], kind, revision), ds[0])
    requires DevicesBack(data, g, ds[1..], kind, revision, bits, DevicesAt(g.start, ds[1..], kind, revision),
                         Rest(g, size - n))
    ensures DevicesBack(data, f, ds, kind, revision, bits, DevicesAt(f.start, ds, kind, revision), Rest(f, size))
  {
    DevicesAtStep(f, ds, kind, revision, size, n, g);
    DevicesBackStep(data, f, ds[0], ds[1..], kind, revision, bits, DeviceOfSpec(f.start, ds[0], kind, revision), g,
                    DevicesAt(g.start, ds[1..], kind, revision), Rest(g, size - n));
  }

  lemma {:induction false} DecodedDevices(data: seq<byte>, f: Span, ds: seq<DeviceSpec>, kind: Kind, revision: nat,
                                          bits: nat, size: nat)
    requires DevicesDecode(data, f, ds, kind, revision, bits)
    requires size == DevicesSize(ds, kind, revision) <= f.length && End(f) <= |data|
    ensures DevicesBack(data, f, ds, kind, revision, bits, DevicesAt(f.start, ds, kind, revision), Rest(f, size))
    decreases |ds|
  {
    if ds != [] {
      var n, r := DeviceSize(ds[0], kind, revision), DeviceOfSpec(f.start, ds[0], kind, revision);
      var g := Rest(f, n);
      assert DevicesDecode(data, g, ds[1..], kind, revision, bits);
      assert DeviceIsRead(data, f, kind, revision, bits, Got(r, g)) && DeviceContents(data, r, ds[0]);
      DecodedDevices(data, g, ds[1..], kind, revision, bits, size - n);
      DevicesJoin(data, f, ds, kind, revision, bits, size, n, g);
    }
  }

  /** Device records written one behind the other are read back by the device loop. */
  lemma DevicesRoundTrip(data: seq<byte>, f: Span, ds: seq<DeviceSpec>, kind: Kind, revision: nat, bits: nat, size: nat)
    requires DevicesWritten(data, f.start, ds, kind, revision, bits)
    requires size == DevicesSize(ds, kind, revision) <= f.length && End(f) <= |data|
    ensures DevicesBack(data, f, ds, kind, revision, bits, DevicesAt(f.start, ds, kind, revision), Rest(f, size))
  {
    WrittenDevicesDecode(data, f, ds, kind, revision, bits);
    DecodedDevices(data, f, ds, kind, revision, bits, size);
  }

  // ---------------------------------------------------------------- lists of component records

  /** A component record that the decoder accepts in a package of `total` bytes. */
  predicate SoundComponent(c: ComponentSpec, revision: nat, total: nat) {
    && ComponentFits(c, revision) && 1 <= c.versionType <= 5
    && (c.classification <= 0x000d || c.classification >= 0x8000) && c.location + c.size <= total
  }

  function ComponentSize(c: ComponentSpec, revision: nat): nat {
    22 + |c.version| + |c.opaqueData| + Wide(revision)
  }

  function ComponentsSize(cs: seq<ComponentSpec>, revision: nat): nat {
    if cs == [] then 0 else ComponentSize(cs[0], revision) + ComponentsSize(cs[1..], revision)
  }

  predicate IsComponent(b: seq<byte>, c: ComponentSpec, revision: nat) {
    ComponentFits(c, revision) && b == ComponentBytes(c, revision)
  }

  ghost predicate ComponentWritten(data: seq<byte>, p: nat, c: ComponentSpec, revision: nat) {
    SoundComponent(c, revision, |data|) && forall b :: IsComponent(b, c, revision) ==> Holds(data, p, b)
  }

  ghost predicate ComponentsWritten(data: seq<byte>, p: nat, cs: seq<ComponentSpec>, revision: nat)
    decreases |cs|
  {
    cs == [] || (ComponentWritten(data, p, cs[0], revision) &&
                 ComponentsWritten(data, p + ComponentSize(cs[0], revision), cs[1..], revision))
  }

  function ComponentsAt(p: nat, cs: seq<ComponentSpec>, revision: nat): (r: seq<Component>)
    ensures |r| == |cs|
    decreases |cs|
  {
    if cs == [] then []
    else [ComponentAt(p, cs[0], revision)] + ComponentsAt(p + ComponentSize(cs[0], revision), cs[1..], revision)
  }

  ghost predicate ComponentHolds(data: seq<byte>, r: Component, c: ComponentSpec) {
    Holds(data, r.version.start, c.version) && Holds(data, r.opaqueData.start, c.opaqueData)
  }

  ghost predicate ComponentsHold(data: seq<byte>, recs: seq<Component>, cs: seq<ComponentSpec>) {
    |recs| == |cs| && forall i :: 0 <= i < |cs| ==> ComponentHolds(data, recs[i], cs[i])
  }

  ghost predicate ComponentsBack(data: seq<byte>, f: Span, cs: seq<ComponentSpec>, revision: nat, recs: seq<Component>,
                                 left: Span)
  {
    && End(f) <= |data| && ComponentsOf(data, f, |cs|, revision) == Collected(Ok, recs, left)
    && ComponentsHold(data, recs, cs)
  }

  lemma Outcome(total: nat, f: Span, c: ComponentSpec, revision: nat, n: nat)
    requires SoundComponent(c, revision, total) && 22 <= n <= f.length
    ensures ComponentOutcome(total, f, c, revision, n) == Got(ComponentAt(f.start, c, revision), Rest(f, n))
  {
  }

  lemma OneComponentRead(data: seq<byte>, f: Span, c: ComponentSpec, revision: nat, n: nat)
    requires ComponentWritten(data, f.start, c, revision)
    requires n == ComponentSize(c, revision) <= f.length && End(f) <= |data|
    ensures IsRead(data, f, revision, Got(ComponentAt(f.start, c, revision), Rest(f, n)))
    ensures ComponentHolds(data, ComponentAt(f.start, c, revision), c)
  {
    assert IsComponent(ComponentBytes(c, revision), c, revision);
    ComponentRoundTrip(data, f, c, revision);
    Outcome(|data|, f, c, revision, n);
  }

  lemma FirstComponentHolds(data: seq<byte>, r: Component, recs: seq<Component>, c: ComponentSpec,
                            cs: seq<ComponentSpec>)
    requires ComponentHolds(data, r, c) && ComponentsHold(data, recs, cs)
    ensures ComponentsHold(data, [r] + recs, [c] + cs)
  {
  }

  lemma LastComponentRead(data: seq<byte>, f: Span, revision: nat, r: Component, g: Span)
    requires IsRead(data, f, revision, Got(r, g))
    ensures ComponentsOf(data, f, 1, revision) == Collected(Ok, [r], g)
  {
  }

  lemma FirstComponentRead(data: seq<byte>, f: Span, n: nat, revision: nat, r: Component, g: Span,
                           recs: seq<Component>, left: Span)
    requires n > 1 && IsRead(data, f, revision, Got(r, g)) && End(g) <= |data|
    requires ComponentsOf(data, g, n - 1, revision) == Collected(Ok, recs, left)
    ensures ComponentsOf(data, f, n, revision) == Collected(Ok, [r] + recs, left)
  {
  }

  lemma ComponentsBackStep(data: seq<byte>, f: Span, c: ComponentSpec, cs: seq<ComponentSpec>, revision: nat,
                           r: Component, g: Span, recs: seq<Component>, left: Span)
    requires IsRead(data, f, revision, Got(r, g)) && ComponentHolds(data, r, c)
    requires if cs == [] then recs == [] && left == g else ComponentsBack(data, g, cs, revision, recs, left)
    ensures ComponentsBack(data, f, [c] + cs, revision, [r] + recs, left)
  {
    FirstComponentHolds(data, r, recs, c, cs);
    if cs == [] {
      assert [r] + recs == [r];
      LastComponentRead(data, f, revision, r, g);
    } else {
      FirstComponentRead(data, f, |cs| + 1, revision, r, g, recs, left);
    }
  }

  lemma ComponentsAtStep(f: Span, cs: seq<ComponentSpec>, revision: nat, size: nat, n: nat, g: Span)
    requires cs != [] && n == ComponentSize(cs[0], revision) <= size <= f.length && g == Rest(f, n)
    ensures ComponentsAt(f.start, cs, revision) ==
            [ComponentAt(f.start, cs[0], revision)] + ComponentsAt(g.start, cs[1..], revision)
    ensures Rest(g, size - n) == Rest(f, size) && [cs[0]] + cs[1..] == cs
  {
  }

  ghost predicate ComponentsDecode(data: seq<byte>, f: Span, cs: seq<ComponentSpec>, revision: nat)
    decreases |cs|
  {
    cs == [] ||
    (var r, g := ComponentAt(f.start, cs[0], revision), Rest(f, ComponentSize(cs[0], revision));
     && IsRead(data, f, revision, Got(r, g)) && ComponentHolds(data, r, cs[0])
     && ComponentsDecode(data, g, cs[1..], revision))
  }

  lemma ComponentsDecodeStep(data: seq<byte>, f: Span, cs: seq<ComponentSpec>, revision: nat, n: nat)
    requires cs != [] && n == ComponentSize(cs[0], revision)
    requires IsRead(data, f, revision, Got(ComponentAt(f.start, cs[0], revision), Rest(f, n)))
    requires ComponentHolds(data, ComponentAt(f.start, cs[0], revision), cs[0])
    requires ComponentsDecode(data, Rest(f, n), cs[1..], revision)
    ensures ComponentsDecode(data, f, cs, revision)
  {
  }

  lemma {:induction false} WrittenComponentsDecode(data: seq<byte>, f: Span, cs: seq<ComponentSpec>, revision: nat)
    requires ComponentsWritten(data, f.start, cs, revision)
    requires ComponentsSize(cs, revision) <= f.length && End(f) <= |data|
    ensures ComponentsDecode(data, f, cs, revision)
    decreases |cs|
  {
    if cs != [] {
      var n := ComponentSize(cs[0], revision);
      var g := Rest(f, n);
      assert g.start == f.start + ComponentSize(cs[0], revision);
      assert ComponentsWritten(data, g.start, cs[1..], revision);
      WrittenComponentsDecode(data, g, cs[1..], revision);
      OneComponentRead(data, f, cs[0], revision, n);
      ComponentsDecodeStep(data, f, cs, revision, n);
    }
  }

  lemma {:induction false} DecodedComponents(data: seq<byte>, f: Span, cs: seq<ComponentSpec>, revision: nat, size: nat)
    requires cs != [] && ComponentsDecode(data, f, cs, revision)
    requires size == ComponentsSize(cs, revision) <= f.length && End(f) <= |data|
    ensures ComponentsBack(data, f, cs, revision, ComponentsAt(f.start, cs, revision), Rest(f, size))
    decreases |cs|
  {
    var n, r := ComponentSize(cs[0], revision), ComponentAt(f.start, cs[0], revision);
    var g := Rest(f, n);
    assert ComponentsDecode(data, g, cs[1..], revision);
    assert IsRead(data, f, revision, Got(r, g)) && ComponentHolds(data, r, cs[0]);
    if |cs| > 1 {
      DecodedComponents(data, g, cs[1..], revision, size - n);
    }
    ComponentsBackStep(data, f, cs[0], cs[1..], revision, r, g, ComponentsAt(g.start, cs[1..], revision),
                       Rest(g, size - n));
    ComponentsAtStep(f, cs, revision, size, n, g);
  }

  /** Component records written one behind the other are read back by the component loop. */
  lemma ComponentsRoundTrip(data: seq<byte>, f: Span, cs: seq<ComponentSpec>, revision: nat, size: nat)
    requires cs != [] && ComponentsWritten(data, f.start, cs, revision)
    requires size == ComponentsSize(cs, revision) <= f.length && End(f) <= |data|
    ensures ComponentsBack(data, f, cs, revision, ComponentsAt(f.start, cs, revision), Rest(f, size))
  {
    WrittenComponentsDecode(data, f, cs, revision);
    DecodedComponents(data, f, cs, revision, size);
  }

  // ---------------------------------------------------------------- the areas

  /** What goes into a package behind its header. */
  datatype Lists = Lists(firmware: seq<DeviceSpec>, downstream: seq<DeviceSpec>, components: seq<ComponentSpec>)

  /** What each of the three lists, its count in front, leaves of the areas; revision 1 has no downstream devices. */
  ghost predicate Fields(revision: nat, areas: Span, p: Lists, f: Span, g: Span, left: Span) {
    var n, m := DevicesSize(p.firmware, Firmware, revision), DevicesSize(p.downstream, Downstream, revision);
    var k := ComponentsSize(p.components, revision);
    && 1 + n <= areas.length && f == Rest(areas, 1 + n)
    && (if revision == 1 then g == f else 1 + m <= f.length && g == Rest(f, 1 + m))
    && 2 + k <= g.length && left == Rest(g, 2 + k)
  }

  /** The counts, each in front of its list. */
  ghost predicate CountsWritten(data: seq<byte>, revision: nat, areas: Span, p: Lists, f: Span, g: Span) {
    && |p.firmware| < 256 && Holds(data, areas.start, [|p.firmware|])
    && (if revision == 1 then p.downstream == []
        else |p.downstream| < 256 && Holds(data, f.start, [|p.downstream|]))
    && 1 <= |p.components| < 0x1_0000 && Holds(data, g.start, Le16(|p.components|))
  }

  ghost predicate ListsWritten(data: seq<byte>, hdr: H.Header, areas: Span, p: Lists, f: Span, g: Span) {
    && CountsWritten(data, hdr.revision, areas, p, f, g)
    && DevicesWritten(data, areas.start + 1, p.firmware, Firmware, hdr.revision, hdr.bits)
    && DevicesWritten(data, f.start + 1, p.downstream, Downstream, hdr.revision, hdr.bits)
    && ComponentsWritten(data, g.start + 2, p.components, hdr.revision)
  }

  /** What the walk should give. */
  function Built(revision: nat, areas: Span, p: Lists, f: Span, g: Span): Parsed {
    Parsed(Ok, DevicesAt(areas.start + 1, p.firmware, Firmware, revision),
           DevicesAt(f.start + 1, p.downstream, Downstream, revision),
           ComponentsAt(g.start + 2, p.components, revision))
  }

  lemma FirmwarePartIs(data: seq<byte>, hdr: H.Header, f: Span, ds: seq<DeviceSpec>, recs: seq<Device>, left: Span)
    requires f.length >= 1 && End(f) <= |data| && Number(data, f.start, U8) == |ds|
    requires DevicesBack(data, PackageWalk.Behind(f, 1), ds, Firmware, hdr.revision, hdr.bits, recs, left)
    ensures FirmwarePart(data, hdr, f) == Collected(Ok, recs, left)
  {
  }

  lemma DownstreamPartIs(data: seq<byte>, hdr: H.Header, f: Span, ds: seq<DeviceSpec>, recs: seq<Device>, left: Span)
    requires f.length >= 1 && End(f) <= |data| && Number(data, f.start, U8) == |ds| && hdr.revision != 1
    requires DevicesBack(data, PackageWalk.Behind(f, 1), ds, Downstream, hdr.revision, hdr.bits, recs, left)
    ensures DownstreamPart(data, hdr, f) == Collected(Ok, recs, left)
  {
  }

  lemma ComponentPartIs(data: seq<byte>, hdr: H.Header, f: Span, cs: seq<ComponentSpec>, recs: seq<Component>,
                        left: Span)
    requires f.length >= 2 && End(f) <= |data| && Number(data, f.start, U16) == |cs|
    requires ComponentsBack(data, PackageWalk.Behind(f, 2), cs, hdr.revision, recs, left)
    ensures ComponentPart(data, hdr, f) == Collected(Ok, recs, left)
  {
  }

  lemma FirmwareBack(data: seq<byte>, hdr: H.Header, f: Span, ds: seq<DeviceSpec>, n: nat, recs: seq<Device>,
                     left: Span)
    requires |ds| < 256 && Holds(data, f.start, [|ds|]) && End(f) <= |data|
    requires DevicesWritten(data, f.start + 1, ds, Firmware, hdr.revision, hdr.bits)
    requires n == DevicesSize(ds, Firmware, hdr.revision) && 1 + n <= f.length && left == Rest(f, 1 + n)
    requires recs == DevicesAt(f.start + 1, ds, Firmware, hdr.revision)
    ensures FirmwarePart(data, hdr, f) == Collected(Ok, recs, left) && DevicesHold(data, recs, ds)
  {
    var g := PackageWalk.Behind(f, 1);
    assert Rest(g, n) == left && g.start == f.start + 1;
    assert DevicesBack(data, g, ds, Firmware, hdr.revision, hdr.bits, recs, left) by {
      assert DevicesWritten(data, g.start, ds, Firmware, hdr.revision, hdr.bits);
      DevicesRoundTrip(data, g, ds, Firmware, hdr.revision, hdr.bits, n);
    }
    HeldByte(data, f.start, |ds|);
    FirmwarePartIs(data, hdr, f, ds, recs, left);
  }

  lemma DownstreamBack(data: seq<byte>, hdr: H.Header, f: Span, ds: seq<DeviceSpec>, n: nat, recs: seq<Device>,
                       left: Span)
    requires |ds| < 256 && Holds(data, f.start, [|ds|]) && End(f) <= |data| && hdr.revision != 1
    requires DevicesWritten(data, f.start + 1, ds, Downstream, hdr.revision, hdr.bits)
    requires n == DevicesSize(ds, Downstream, hdr.revision) && 1 + n <= f.length && left == Rest(f, 1 + n)
    requires recs == DevicesAt(f.start + 1, ds, Downstream, hdr.revision)
    ensures DownstreamPart(data, hdr, f) == Collected(Ok, recs, left) && DevicesHold(data, recs, ds)
  {
    var g := PackageWalk.Behind(f, 1);
    assert Rest(g, n) == left && g.start == f.start + 1;
    assert DevicesBack(data, g, ds, Downstream, hdr.revision, hdr.bits, recs, left) by {
      assert DevicesWritten(data, g.start, ds, Downstream, hdr.revision, hdr.bits);
      DevicesRoundTrip(data, g, ds, Downstream, hdr.revision, hdr.bits, n);
    }
    HeldByte(data, f.start, |ds|);
    DownstreamPartIs(data, hdr, f, ds, recs, left);
  }

  lemma ComponentsPartBack(data: seq<byte>, hdr: H.Header, f: Span, cs: seq<ComponentSpec>, n: nat,
                           recs: seq<Component>, left: Span)
    requires 1 <= |cs| < 0x1_0000 && Holds(data, f.start, Le16(|cs|)) && End(f) <= |data|
    requires ComponentsWritten(data, f.start + 2, cs, hdr.revision)
    requires n == ComponentsSize(cs, hdr.revision) && 2 + n <= f.length && left == Rest(f, 2 + n)
    requires recs == ComponentsAt(f.start + 2, cs, hdr.revision)
    ensures ComponentPart(data, hdr, f) == Collected(Ok, recs, left) && ComponentsHold(data, recs, cs)
  {
    var g := PackageWalk.Behind(f, 2);
    assert Rest(g, n) == left && g.start == f.start + 2;
    assert ComponentsBack(data, g, cs, hdr.revision, recs, left) by {
      assert ComponentsWritten(data, g.start, cs, hdr.revision);
      ComponentsRoundTrip(data, g, cs, hdr.revision, n);
    }
    Held16(data, f.start, |cs|);
    ComponentPartIs(data, hdr, f, cs, recs, left);
  }

  lemma PartsMake(data: seq<byte>, hdr: H.Header, areas: Span, f: Span, g: Span, left: Span, r: Parsed)
    requires End(areas) <= |data| && End(f) <= |data| && End(g) <= |data| && r.rc == Ok
    requires FirmwarePart(data, hdr, areas) == Collected(Ok, r.firmware, f)
    requires DownstreamPart(data, hdr, f) == Collected(Ok, r.downstream, g)
    requires ComponentPart(data, hdr, g) == Collected(Ok, r.components, left)
    ensures Records(data, hdr, areas) == r
  {
  }

  lemma NoDownstream(data: seq<byte>, hdr: H.Header, f: Span, recs: seq<Device>)
    requires hdr.revision == 1 && End(f) <= |data| && recs == []
    ensures DownstreamPart(data, hdr, f) == Collected(Ok, recs, f) && DevicesHold(data, recs, [])
  {
  }

  lemma SecondList(data: seq<byte>, hdr: H.Header, f: Span, ds: seq<DeviceSpec>, n: nat, g: Span, recs: seq<Device>)
    requires End(f) <= |data| && n == DevicesSize(ds, Downstream, hdr.revision)
    requires if hdr.revision == 1 then g == f && ds == []
             else 1 + n <= f.length && g == Rest(f, 1 + n) && |ds| < 256 && Holds(data, f.start, [|ds|])
    requires DevicesWritten(data, f.start + 1, ds, Downstream, hdr.revision, hdr.bits)
    requires recs == DevicesAt(f.start + 1, ds, Downstream, hdr.revision)
    ensures DownstreamPart(data, hdr, f) == Collected(Ok, recs, g) && DevicesHold(data, recs, ds)
  {
    if hdr.revision == 1 {
      NoDownstream(data, hdr, f, recs);
    } else {
      DownstreamBack(data, hdr, f, ds, n, recs, g);
    }
  }

  lemma DevicesGiven(data: seq<byte>, hdr: H.Header, areas: Span, p: Lists, f: Span, g: Span, left: Span, r: Parsed)
    requires End(areas) <= |data| && Fields(hdr.revision, areas, p, f, g, left)
    requires ListsWritten(data, hdr, areas, p, f, g) && r == Built(hdr.revision, areas, p, f, g)
    ensures FirmwarePart(data, hdr, areas) == Collected(Ok, r.firmware, f) && DevicesHold(data, r.firmware, p.firmware)
    ensures End(f) <= |data| && DownstreamPart(data, hdr, f) == Collected(Ok, r.downstream, g)
    ensures DevicesHold(data, r.downstream, p.downstream)
  {
    SecondList(data, hdr, f, p.downstream, DevicesSize(p.downstream, Downstream, hdr.revision), g, r.downstream);
    FirmwareBack(data, hdr, areas, p.firmware, DevicesSize(p.firmware, Firmware, hdr.revision), r.firmware, f);
  }

  lemma ComponentsGiven(data: seq<byte>, hdr: H.Header, areas: Span, p: Lists, f: Span, g: Span, left: Span, r: Parsed)
    requires End(areas) <= |data| && Fields(hdr.revision, areas, p, f, g, left)
    requires ListsWritten(data, hdr, areas, p, f, g) && r == Built(hdr.revision, areas, p, f, g)
    ensures End(g) <= |data| && ComponentPart(data, hdr, g) == Collected(Ok, r.components, left)
    ensures ComponentsHold(data, r.components, p.components)
  {
    ComponentsPartBack(data, hdr, g, p.components, ComponentsSize(p.components, hdr.revision), r.components, left);
  }

  lemma ListsBack(data: seq<byte>, hdr: H.Header, areas: Span, p: Lists, f: Span, g: Span, left: Span, r: Parsed)
    requires End(areas) <= |data| && Fields(hdr.revision, areas, p, f, g, left)
    requires ListsWritten(data, hdr, areas, p, f, g) && r == Built(hdr.revision, areas, p, f, g)
    ensures Records(data, hdr, areas) == r && DevicesHold(data, r.firmware, p.firmware)
    ensures DevicesHold(data, r.downstream, p.downstream) && ComponentsHold(data, r.components, p.components)
  {
    DevicesGiven(data, hdr, areas, p, f, g, left, r);
    ComponentsGiven(data, hdr, areas, p, f, g, left, r);
    PartsMake(data, hdr, areas, f, g, left, r);
  }

  /** A header with its version string, and what its fields must say to be accepted for a pin. */
  ghost predicate HeaderWritten(data: seq<byte>, h: HeaderSpec, pin: nat) {
    && HeaderFits(h) && Holds(data, 0, HeaderHead(h)) && Holds(data, 36, h.version)
    && 1 <= h.revision <= pin <= 4 && h.id == H.Identifier(h.revision)
    && h.bits % 8 == 0 && 1 <= h.versionType <= 5
  }

  /** The size declared in the header has room for the areas and for the checksums, which are right. */
  ghost predicate Closed(data: seq<byte>, h: HeaderSpec, areas: Span) {
    && |data| <= INTMAX_MAX && h.size <= |data| && areas.start == 36 + |h.version|
    && End(areas) == h.size - (if h.revision == 4 then 8 else 4) >= 39 && Checked(data, End(areas))
    && (h.revision == 4 ==> PayloadChecked(data, h.size))
  }

  lemma AreasAccepted(data: seq<byte>, h: HeaderSpec, areas: Span)
    requires Closed(data, h, areas)
    ensures AreasOutcome(data, h) ==
            H.Done(H.Header(h.revision, h.bits, h.versionType, Span(36, |h.version|)), areas)
  {
  }

  lemma HeaderBack(data: seq<byte>, h: HeaderSpec, pin: nat, areas: Span)
    requires HeaderWritten(data, h, pin) && Closed(data, h, areas)
    ensures H.Decode(data, pin) == H.Done(H.Header(h.revision, h.bits, h.versionType, Span(36, |h.version|)), areas)
  {
    AreasAccepted(data, h, areas);
    HeaderRoundTrip(data, h, pin);
    assert exists r :: 1 <= r <= 4 && h.id == H.Identifier(r);
  }

  /**
   A package that was written is read back: for every revision and every pin that reaches it, the walk hands out the
   device and component records that went in, each field of them, in their order, and their pieces hold what was
   written.
   */
  lemma PackageRoundTrip(data: seq<byte>, h: HeaderSpec, p: Lists, pin: nat, areas: Span, f: Span, g: Span, left: Span)
    requires HeaderWritten(data, h, pin) && Closed(data, h, areas) && Fields(h.revision, areas, p, f, g, left)
    requires ListsWritten(data, H.Header(h.revision, h.bits, h.versionType, Span(36, |h.version|)), areas, p, f, g)
    ensures var r := Parse(data, pin);
      && r == Built(h.revision, areas, p, f, g) && DevicesHold(data, r.firmware, p.firmware)
      && DevicesHold(data, r.downstream, p.downstream) && ComponentsHold(data, r.components, p.components)
  {
    var hdr := H.Header(h.revision, h.bits, h.versionType, Span(36, |h.version|));
    HeaderBack(data, h, pin, areas);
    ListsBack(data, hdr, areas, p, f, g, left, Built(h.revision, areas, p, f, g));
  }
}
