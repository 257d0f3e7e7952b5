/**
 What a builder of firmware update packages writes: records and headers field by field, in the order of Tables 3 to 6
 of DSP0267 v1.3.0. The decoders give back what was written, or say what is wrong with it.
 */
module PackageEncode {
  import opened Common
  import opened Bytes
  import opened Msgbuf
  import opened PackageRecords
  import H = PackageHeader
  import Edac

  // ---------------------------------------------------------------- numbers where they were written

  lemma HeldByte(data: seq<byte>, p: nat, x: byte)
    requires Holds(data, p, [x])
    ensures Number(data, p, U8) == x
  {
    assert data[p] == data[p..p + 1][0];
    Numbers(data, p);
  }

  lemma Held16(data: seq<byte>, p: nat, x: u16)
    requires Holds(data, p, Le16(x))
    ensures Number(data, p, U16) == x
  {
    assert data[p] == data[p..p + 2][0] && data[p + 1] == data[p..p + 2][1];
    Numbers(data, p);
  }

  lemma Held32(data: seq<byte>, p: nat, x: u32)
    requires Holds(data, p, Le32(x))
    ensures Number(data, p, U32) == x
  {
    assert Pow256(4) == 0x1_0000_0000;
    NumberOfLe(data, p, x, U32);
  }

  // ---------------------------------------------------------------- component image records

  datatype ComponentSpec = ComponentSpec(classification: u16, identifier: u16, stamp: u32, options: u16,
                                         activation: u16,
                                         location: u32, size: u32, versionType: byte, version: seq<byte>,
                                         opaqueData: seq<byte>)

  predicate ComponentFits(c: ComponentSpec, revision: nat) {
    |c.version| < 256 && |c.opaqueData| < 0x1_0000_0000 && (revision < 3 ==> c.opaqueData == [])
  }

  /** The width of the length of the opaque data, which revision 3 added. */
  function Wide(revision: nat): nat { if revision >= 3 then 4 else 0 }

  /** A component image record, up to and with the length of its version string. */
  function ComponentHead(c: ComponentSpec): (b: seq<byte>)
    requires |c.version| < 256
    ensures |b| == 22
  {
    Le16(c.classification) + (Le16(c.identifier) + (Le32(c.stamp) + (Le16(c.options) + (Le16(c.activation) +
    (Le32(c.location) + (Le32(c.size) + ([c.versionType] + [|c.version|])))))))
  }

  /** The strings: revision 3 adds opaque data behind its length. */
  function ComponentTail(c: ComponentSpec, revision: nat): (b: seq<byte>)
    requires ComponentFits(c, revision)
    ensures |b| == |c.version| + |c.opaqueData| + Wide(revision)
  {
    c.version + ((if revision >= 3 then Le32(|c.opaqueData|) else []) + c.opaqueData)
  }

  function ComponentBytes(c: ComponentSpec, revision: nat): (b: seq<byte>)
    requires ComponentFits(c, revision)
    ensures |b| == 22 + |c.version| + |c.opaqueData| + Wide(revision)
  {
    ComponentHead(c) + ComponentTail(c, revision)
  }

  /** The component a record decodes to, at p. */
  function ComponentAt(p: nat, c: ComponentSpec, revision: nat): Component {
    var v := Span(p + 22, |c.version|);
    var o := End(v) + Wide(revision);
    Component(c.classification, c.identifier, c.stamp, c.options, c.activation, c.versionType, v,
              Span(o, |c.opaqueData|),
              Span(c.location, c.size))
  }

  ghost predicate HeadIs(data: seq<byte>, p: nat, k: Component) { p + 22 <= |data| && FixedFields(data, p) == k }

  lemma NineParts(data: seq<byte>, p: nat, a: seq<byte>, b: seq<byte>, c: seq<byte>, d: seq<byte>, e: seq<byte>,
                  f: seq<byte>,
                  g: seq<byte>, h: seq<byte>, i: seq<byte>)
    requires |a| == |b| == |d| == |e| == 2 && |c| == |f| == |g| == 4 && |h| == |i| == 1
    requires Holds(data, p, a + (b + (c + (d + (e + (f + (g + (h + i))))))))
    ensures Holds(data, p, a) && Holds(data, p + 2, b) && Holds(data, p + 4, c) && Holds(data, p + 8, d)
    ensures Holds(data, p + 10, e) && Holds(data, p + 12, f) && Holds(data, p + 16, g) && Holds(data, p + 20, h)
    ensures Holds(data, p + 21, i)
  {
    HoldsParts(data, p, a, b + (c + (d + (e + (f + (g + (h + i)))))));
    HoldsParts(data, p + 2, b, c + (d + (e + (f + (g + (h + i))))));
    HoldsParts(data, p + 4, c, d + (e + (f + (g + (h + i)))));
    HoldsParts(data, p + 8, d, e + (f + (g + (h + i))));
    HoldsParts(data, p + 10, e, f + (g + (h + i)));
    HoldsParts(data, p + 12, f, g + (h + i));
    HoldsParts(data, p + 16, g, h + i);
    HoldsParts(data, p + 20, h, i);
  }

  /** What its fixed part alone decodes to. */
  function FixedOf(p: nat, c: ComponentSpec): Component {
    Component(c.classification, c.identifier, c.stamp, c.options, c.activation, c.versionType,
              Span(p + 22, |c.version|), Span(0, 0), Span(c.location, c.size))
  }

  lemma HeadHeld(data: seq<byte>, p: nat, c: ComponentSpec, k: Component)
    requires |c.version| < 256 && Holds(data, p, ComponentHead(c))
    requires k == FixedOf(p, c)
    ensures HeadIs(data, p, k)
  {
    NineParts(data, p, Le16(c.classification), Le16(c.identifier), Le32(c.stamp), Le16(c.options), Le16(c.activation),
              Le32(c.location), Le32(c.size), [c.versionType], [|c.version|]);
    Held16(data, p, c.classification);
    Held16(data, p + 2, c.identifier);
    Held32(data, p + 4, c.stamp);
    Held16(data, p + 8, c.options);
    Held16(data, p + 10, c.activation);
    Held32(data, p + 12, c.location);
    Held32(data, p + 16, c.size);
    HeldByte(data, p + 20, c.versionType);
    HeldByte(data, p + 21, |c.version|);
  }

  /** The length of the opaque data, in revisions that have it. */
  ghost predicate LengthIs(data: seq<byte>, at: nat, revision: nat, n: nat) {
    revision >= 3 ==> at + 4 <= |data| && Number(data, at, U32) == n
  }

  lemma TailHeld(data: seq<byte>, p: nat, c: ComponentSpec, revision: nat)
    requires ComponentFits(c, revision) && Holds(data, p, ComponentTail(c, revision))
    ensures Holds(data, p, c.version)
    ensures Holds(data, p + |c.version| + Wide(revision), c.opaqueData)
    ensures LengthIs(data, p + |c.version|, revision, |c.opaqueData|)
  {
    var l := if revision >= 3 then Le32(|c.opaqueData|) else [];
    HoldsParts(data, p, c.version, l + c.opaqueData);
    HoldsParts(data, p + |c.version|, l, c.opaqueData);
    if revision >= 3 {
      Held32(data, p + |c.version|, |c.opaqueData|);
    }
  }

  /** What is left of a field behind n bytes. */
  function Rest(f: Span, n: nat): Span { Span(f.start + n, if n <= f.length then f.length - n else 0) }

  /** What becomes of a record of n bytes in a field, in a package of `total` bytes. */
  function ComponentOutcome(total: nat, f: Span, c: ComponentSpec, revision: nat, n: nat): Step<Component> {
    if f.length < 22 then Refused(Overflow, f)
    else if !(1 <= c.versionType <= 5) then Refused(Proto, f)
    else if f.length < n then Refused(Overflow, f)
    else if 0x000d < c.classification < 0x8000 then Refused(Proto, Rest(f, n))
    else if c.location + c.size > total then Refused(Overflow, Rest(f, n))
    else Got(ComponentAt(f.start, c, revision), Rest(f, n))
  }

  /** The component decoder gives `r` on the field. */
  ghost predicate IsRead(data: seq<byte>, f: Span, revision: nat, r: Step<Component>) {
    End(f) <= |data| && ComponentOf(data, f, revision) == r
  }

  lemma ComponentByParts(data: seq<byte>, f: Span, revision: nat, k: Component, o: nat, n: nat)
    requires End(f) <= |data| && f.length >= 22 && k == FixedFields(data, f.start)
    requires o == OpaqueStart(f.start, k.version.length, revision) <= |data| && n == OpaqueLength(data, o, revision)
    ensures ComponentOf(data, f, revision) ==
      if !(1 <= k.versionType <= 5) then Refused(Proto, f)
      else if o + n > End(f) then Refused(Overflow, f)
      else
        var rest := Span(o + n, End(f) - o - n);
        if 0x000d < k.classification < 0x8000 then Refused(Proto, rest)
        else if End(k.image) > |data| then Refused(Overflow, rest)
        else Got(k.(opaqueData := Span(o, n)), rest)
  {
  }

  lemma ComponentDecided(data: seq<byte>, f: Span, c: ComponentSpec, revision: nat, k: Component, n: nat)
    requires n == 22 + |c.version| + |c.opaqueData| + Wide(revision)
    requires (revision < 3 ==> c.opaqueData == []) && f.start + n <= |data| && End(f) <= |data|
    requires k == FixedOf(f.start, c) && HeadIs(data, f.start, k)
    requires LengthIs(data, f.start + 22 + |c.version|, revision, |c.opaqueData|)
    ensures IsRead(data, f, revision, ComponentOutcome(|data|, f, c, revision, n))
  {
    if f.length >= 22 {
      ComponentByParts(data, f, revision, k, f.start + n - |c.opaqueData|, |c.opaqueData|);
    }
  }

  /** Version string and opaque data lie where the decoded record says. */
  lemma ComponentContents(data: seq<byte>, p: nat, c: ComponentSpec, revision: nat, d: Component)
    requires ComponentFits(c, revision) && Holds(data, p + 22, ComponentTail(c, revision))
    requires d == ComponentAt(p, c, revision)
    ensures Holds(data, d.version.start, c.version) && Holds(data, d.opaqueData.start, c.opaqueData)
  {
    TailHeld(data, p + 22, c, revision);
  }

  lemma ComponentIsRead(data: seq<byte>, f: Span, c: ComponentSpec, revision: nat, n: nat)
    requires ComponentFits(c, revision) && End(f) <= |data|
    requires Holds(data, f.start, ComponentHead(c)) && Holds(data, f.start + 22, ComponentTail(c, revision))
    requires n == 22 + |ComponentTail(c, revision)|
    ensures IsRead(data, f, revision, ComponentOutcome(|data|, f, c, revision, n))
  {
    var k := FixedOf(f.start, c);
    HeadHeld(data, f.start, c, k);
    TailHeld(data, f.start + 22, c, revision);
    ComponentDecided(data, f, c, revision, k, n);
  }

  /**
   A component record that was written is read back, every field of it, with the image where the record says; or it is
   refused for its string type, for a field that ends too early, for its classification or for where its image lies.
   */
  lemma ComponentRoundTrip(data: seq<byte>, f: Span, c: ComponentSpec, revision: nat)
    requires ComponentFits(c, revision) && Holds(data, f.start, ComponentBytes(c, revision)) && End(f) <= |data|
    ensures IsRead(data, f, revision, ComponentOutcome(|data|, f, c, revision, |ComponentBytes(c, revision)|))
    ensures var d := ComponentAt(f.start, c, revision);
      Holds(data, d.version.start, c.version) && Holds(data, d.opaqueData.start, c.opaqueData)
  {
    HoldsParts(data, f.start, ComponentHead(c), ComponentTail(c, revision));
    ComponentIsRead(data, f, c, revision, |ComponentBytes(c, revision)|);
    ComponentContents(data, f.start, c, revision, ComponentAt(f.start, c, revision));
  }

  // ---------------------------------------------------------------- device records

  datatype DeviceSpec = DeviceSpec(count: byte, flags: u32, versionType: byte, version: seq<byte>, bitmap: seq<byte>,
                                   stamp: u32, descriptors: seq<byte>, packageData: seq<byte>, manifest: seq<byte>)

  /** Only a downstream device with bit 0 of its flags set has a stamp. */
  predicate Stamped(d: DeviceSpec, kind: Kind) { kind == Downstream && d.flags % 2 == 1 }

  function StampBytes(d: DeviceSpec, kind: Kind): (b: seq<byte>)
    ensures |b| == StampSize(kind, d.flags)
  {
    if Stamped(d, kind) then Le32(d.stamp) else []
  }

  function DeviceSize(d: DeviceSpec, kind: Kind, revision: nat): nat {
    FixedPart(revision) + |d.bitmap| + |d.version| + StampSize(kind, d.flags) + |d.descriptors| + |d.packageData| +
    |d.manifest|
  }

  predicate DeviceFits(d: DeviceSpec, kind: Kind, revision: nat) {
    |d.version| < 256 && DeviceSize(d, kind, revision) < 0x1_0000 && (revision < 4 ==> d.manifest == [])
  }

  /** A device record, up to its variable part; revision 4 adds the length of the manifest. */
  function DeviceHead(d: DeviceSpec, n: u16, revision: nat): (b: seq<byte>)
    requires |d.version| < 256 && |d.packageData| < 0x1_0000 && |d.manifest| < 0x1_0000
    ensures |b| == FixedPart(revision)
  {
    Le16(n) + ([d.count] + (Le32(d.flags) + ([d.versionType] + ([|d.version|] + (Le16(|d.packageData|) +
    (if revision >= 4 then Le32(|d.manifest|) else []))))))
  }

  function DeviceTail(d: DeviceSpec, kind: Kind): (b: seq<byte>)
    ensures |b| == |d.bitmap| + |d.version| + StampSize(kind, d.flags) + |d.descriptors| + |d.packageData| +
        |d.manifest|
  {
    d.bitmap + (d.version + (StampBytes(d, kind) + (d.descriptors + (d.packageData + d.manifest))))
  }

  function DeviceBytes(d: DeviceSpec, kind: Kind, revision: nat): (b: seq<byte>)
    requires DeviceFits(d, kind, revision)
    ensures |b| == DeviceSize(d, kind, revision)
  {
    DeviceHead(d, DeviceSize(d, kind, revision), revision) + DeviceTail(d, kind)
  }

  /** The device a record at p decodes to. */
  function DeviceOfSpec(p: nat, d: DeviceSpec, kind: Kind, revision: nat): Device {
    var bitmap := Span(p + FixedPart(revision), |d.bitmap|);
    var version := Span(End(bitmap), |d.version|);
    var descriptors := Span(End(version) + StampSize(kind, d.flags), |d.descriptors|);
    var pkg := Span(End(descriptors), |d.packageData|);
    Device(d.count, d.flags, d.versionType, if Stamped(d, kind) then d.stamp else 0, bitmap, version, descriptors, pkg,
           Span(End(pkg), |d.manifest|))
  }

  /** What becomes of a record of n bytes in a field. */
  function DeviceOutcome(f: Span, d: DeviceSpec, kind: Kind, revision: nat, n: nat): Step<Device> {
    if f.length < n then Refused(Overflow, f)
    else if !(1 <= d.versionType <= 5) || (kind == Firmware && d.version == []) then Refused(Proto, Rest(f, n))
    else Got(DeviceOfSpec(f.start, d, kind, revision), Rest(f, n))
  }

  /** The numbers of the fixed part, by offset. */
  ghost predicate DeviceHeadIs(data: seq<byte>, p: nat, d: DeviceSpec, n: nat, revision: nat) {
    && p + FixedPart(revision) <= |data| && Number(data, p, U16) == n
    && Number(data, p + 2, U8) == d.count && Number(data, p + 3, U32) == d.flags &&
       Number(data, p + 7, U8) == d.versionType
    && Number(data, p + 8, U8) == |d.version| && Number(data, p + 9, U16) == |d.packageData|
    && (revision >= 4 ==> Number(data, p + 11, U32) == |d.manifest|)
  }

  lemma SevenParts(data: seq<byte>, p: nat, a: seq<byte>, b: seq<byte>, c: seq<byte>, d: seq<byte>, e: seq<byte>,
                   f: seq<byte>, g: seq<byte>)
    requires |a| == |f| == 2 && |b| == |d| == |e| == 1 && |c| == 4
    requires Holds(data, p, a + (b + (c + (d + (e + (f + g))))))
    ensures Holds(data, p, a) && Holds(data, p + 2, b) && Holds(data, p + 3, c) && Holds(data, p + 7, d)
    ensures Holds(data, p + 8, e) && Holds(data, p + 9, f) && Holds(data, p + 11, g)
  {
    HoldsParts(data, p, a, b + (c + (d + (e + (f + g)))));
    HoldsParts(data, p + 2, b, c + (d + (e + (f + g))));
    HoldsParts(data, p + 3, c, d + (e + (f + g)));
    HoldsParts(data, p + 7, d, e + (f + g));
    HoldsParts(data, p + 8, e, f + g);
    HoldsParts(data, p + 9, f, g);
  }

  lemma DeviceHeadHeld(data: seq<byte>, p: nat, d: DeviceSpec, n: u16, revision: nat)
    requires |d.version| < 256 && |d.packageData| < 0x1_0000 && |d.manifest| < 0x1_0000
    requires Holds(data, p, DeviceHead(d, n, revision))
    ensures DeviceHeadIs(data, p, d, n, revision)
  {
    var g := if revision >= 4 then Le32(|d.manifest|) else [];
    SevenParts(data, p, Le16(n), [d.count], Le32(d.flags), [d.versionType], [|d.version|], Le16(|d.packageData|), g);
    Held16(data, p, n);
    HeldByte(data, p + 2, d.count);
    Held32(data, p + 3, d.flags);
    HeldByte(data, p + 7, d.versionType);
    HeldByte(data, p + 8, |d.version|);
    Held16(data, p + 9, |d.packageData|);
    if revision >= 4 {
      Held32(data, p + 11, |d.manifest|);
    }
  }

  /** The pieces of the variable part lie where the decoded record says. */
  ghost predicate DeviceContents(data: seq<byte>, r: Device, d: DeviceSpec) {
    && Holds(data, r.bitmap.start, d.bitmap) && Holds(data, r.version.start, d.version)
    && Holds(data, r.descriptors.start, d.descriptors) && Holds(data, r.packageData.start, d.packageData)
    && Holds(data, r.manifest.start, d.manifest)
  }

  ghost predicate StampIs(data: seq<byte>, at: nat, d: DeviceSpec, kind: Kind) {
    Stamped(d, kind) ==> at + 4 <= |data| && Number(data, at, U32) == d.stamp
  }

  lemma SixParts(data: seq<byte>, p: nat, a: seq<byte>, b: seq<byte>, c: seq<byte>, d: seq<byte>, e: seq<byte>,
                 f: seq<byte>, pb: nat, pc: nat, pd: nat, pe: nat, pf: nat)
    requires Holds(data, p, a + (b + (c + (d + (e + f)))))
    requires pb == p + |a| && pc == pb + |b| && pd == pc + |c| && pe == pd + |d| && pf == pe + |e|
    ensures Holds(data, p, a) && Holds(data, pb, b) && Holds(data, pc, c) && Holds(data, pd, d)
    ensures Holds(data, pe, e) && Holds(data, pf, f)
  {
    HoldsParts(data, p, a, b + (c + (d + (e + f))));
    HoldsParts(data, pb, b, c + (d + (e + f)));
    HoldsParts(data, pc, c, d + (e + f));
    HoldsParts(data, pd, d, e + f);
    HoldsParts(data, pe, e, f);
  }

  lemma DeviceTailHeld(data: seq<byte>, p: nat, d: DeviceSpec, kind: Kind, revision: nat, r: Device)
    requires Holds(data, p + FixedPart(revision), DeviceTail(d, kind)) && r == DeviceOfSpec(p, d, kind, revision)
    ensures DeviceContents(data, r, d) && StampIs(data, End(r.version), d, kind)
  {
    SixParts(data, r.bitmap.start, d.bitmap, d.version, StampBytes(d, kind), d.descriptors, d.packageData, d.manifest,
             r.version.start, End(r.version), r.descriptors.start, r.packageData.start, r.manifest.start);
    if Stamped(d, kind) {
      Held32(data, End(r.version), d.stamp);
    }
  }

  /** The device decoder gives `r` on the field. */
  ghost predicate DeviceIsRead(data: seq<byte>, f: Span, kind: Kind, revision: nat, bits: nat, r: Step<Device>) {
    End(f) <= |data| && DeviceOf(data, f, kind, revision, bits) == r
  }

  lemma DeviceDecided(data: seq<byte>, f: Span, d: DeviceSpec, kind: Kind, revision: nat, bits: nat, n: nat, r: Device)
    requires n == DeviceSize(d, kind, revision) && (revision < 4 ==> d.manifest == []) && |d.bitmap| == bits / 8
    requires f.start + n <= |data| && End(f) <= |data| && r == DeviceOfSpec(f.start, d, kind, revision)
    requires DeviceHeadIs(data, f.start, d, n, revision) && StampIs(data, End(r.version), d, kind)
    ensures DeviceIsRead(data, f, kind, revision, bits, DeviceOutcome(f, d, kind, revision, n))
  {
    if f.length >= n {
      DeviceAtDecided(data, f.start, d, kind, revision, bits, n, r);
    }
  }

  lemma DeviceAtDecided(data: seq<byte>, p: nat, d: DeviceSpec, kind: Kind, revision: nat, bits: nat, n: nat, r: Device)
    requires n == DeviceSize(d, kind, revision) && (revision < 4 ==> d.manifest == []) && |d.bitmap| == bits / 8
    requires p + n <= |data| && r == DeviceOfSpec(p, d, kind, revision)
    requires DeviceHeadIs(data, p, d, n, revision) && StampIs(data, End(r.version), d, kind)
    ensures DeviceAt(data, p, n, kind, revision, bits) ==
            if !(1 <= d.versionType <= 5) || (kind == Firmware && d.version == []) then Refused(Proto, Span(0, 0))
            else Got(r, Span(0, 0))
  {
  }

  /**
   A device record that was written is read back, every field and every piece of it; or it is refused for a field that
   ends too early, for its string type, or for want of a version where it needs one.
   */
  lemma DeviceRoundTrip(data: seq<byte>, f: Span, d: DeviceSpec, kind: Kind, revision: nat, bits: nat)
    requires DeviceFits(d, kind, revision) && |d.bitmap| == bits / 8 && End(f) <= |data|
    requires Holds(data, f.start, DeviceBytes(d, kind, revision))
    ensures DeviceIsRead(data, f, kind, revision, bits,
                         DeviceOutcome(f, d, kind, revision, DeviceSize(d, kind, revision)))
    ensures DeviceContents(data, DeviceOfSpec(f.start, d, kind, revision), d)
  {
    var n, r := DeviceSize(d, kind, revision), DeviceOfSpec(f.start, d, kind, revision);
    HoldsParts(data, f.start, DeviceHead(d, n, revision), DeviceTail(d, kind));
    DeviceHeadHeld(data, f.start, d, n, revision);
    DeviceTailHeld(data, f.start, d, kind, revision, r);
    DeviceDecided(data, f, d, kind, revision, bits, n, r);
  }

  // ---------------------------------------------------------------- the package header

  datatype HeaderSpec = HeaderSpec(id: seq<byte>, revision: byte, size: u16, release: seq<byte>, bits: u16,
                                   versionType: byte, version: seq<byte>)

  predicate HeaderFits(h: HeaderSpec) { |h.id| == 16 && |h.release| == 13 && |h.version| < 256 }

  function HeaderHead(h: HeaderSpec): (b: seq<byte>)
    requires HeaderFits(h)
    ensures |b| == 36
  {
    h.id + ([h.revision] + (Le16(h.size) + (h.release + (Le16(h.bits) + ([h.versionType] + [|h.version|])))))
  }

  ghost predicate HeaderHeadIs(data: seq<byte>, h: HeaderSpec) {
    && 36 <= |data| && data[..16] == h.id && Number(data, 16, U8) == h.revision && Number(data, 17, U16) == h.size
    && Number(data, 32, U16) == h.bits && Number(data, 34, U8) == h.versionType && Number(data, 35, U8) == |h.version|
  }

  lemma HeaderParts(data: seq<byte>, a: seq<byte>, b: seq<byte>, c: seq<byte>, d: seq<byte>, e: seq<byte>, f: seq<byte>,
                    g: seq<byte>)
    requires |a| == 16 && |b| == |f| == |g| == 1 && |c| == |e| == 2 && |d| == 13
    requires Holds(data, 0, a + (b + (c + (d + (e + (f + g))))))
    ensures Holds(data, 0, a) && Holds(data, 16, b) && Holds(data, 17, c) && Holds(data, 32, e)
    ensures Holds(data, 34, f) && Holds(data, 35, g)
  {
    HoldsParts(data, 0, a, b + (c + (d + (e + (f + g)))));
    HoldsParts(data, 16, b, c + (d + (e + (f + g))));
    HoldsParts(data, 17, c, d + (e + (f + g)));
    HoldsParts(data, 19, d, e + (f + g));
    HoldsParts(data, 32, e, f + g);
    HoldsParts(data, 34, f, g);
  }

  lemma HeaderHeadHeld(data: seq<byte>, h: HeaderSpec)
    requires HeaderFits(h) && Holds(data, 0, HeaderHead(h))
    ensures HeaderHeadIs(data, h)
  {
    HeaderParts(data, h.id, [h.revision], Le16(h.size), h.release, Le16(h.bits), [h.versionType], [|h.version|]);
    HeldByte(data, 16, h.revision);
    Held16(data, 17, h.size);
    Held16(data, 32, h.bits);
    HeldByte(data, 34, h.versionType);
    HeldByte(data, 35, |h.version|);
  }

  /** The word behind the first n bytes is their checksum. */
  ghost predicate Checked(data: seq<byte>, n: nat) {
    n + 4 <= |data| && Edac.LeWord(data[n..n + 4]) == Edac.ReferenceCrc32(data[..n])
  }

  /** The word in front of byte n is the checksum of what follows. */
  ghost predicate PayloadChecked(data: seq<byte>, n: nat) {
    4 <= n <= |data| && Edac.LeWord(data[n - 4..n]) == Edac.ReferenceCrc32(data[n..])
  }

  /** What becomes of the areas of a package: its declared size, what is there of it, and its checksums. */
  ghost function AreasOutcome(data: seq<byte>, h: HeaderSpec): H.Decoded {
    var n := h.size - if h.revision == 4 then 8 else 4;
    var areas := Span(36 + |h.version|, if n >= 36 + |h.version| then n - 36 - |h.version| else 0);
    if n < 39 || n < 36 + |h.version| || |data| < n then H.Failed(Overflow, None)
    else if |data| < h.size then H.Failed(Overflow, Some(areas))
    else if !Checked(data, n) then H.Failed(Unclean, Some(areas))
    else if h.revision == 4 && !PayloadChecked(data, h.size) then H.Failed(Unclean, Some(areas))
    else H.Done(H.Header(h.revision, h.bits, h.versionType, Span(36, |h.version|)), areas)
  }

  /** What becomes of a package with this fixed part, for a pin of a given revision. */
  ghost function HeaderOutcome(data: seq<byte>, h: HeaderSpec, pin: nat): H.Decoded {
    if pin == 0 then H.Failed(Inval, None)
    else if pin > 4 then H.Failed(NotSup, None)
    else if |data| > INTMAX_MAX then H.Failed(Overflow, None)
    else if !(exists r :: 1 <= r <= 4 && h.id == H.Identifier(r)) then H.Failed(NotSup, None)
    else if h.revision == 0 then H.Failed(Proto, None)
    else if h.revision > pin || h.id != H.Identifier(h.revision) then H.Failed(NotSup, None)
    else if h.bits % 8 != 0 || !(1 <= h.versionType <= 5) then H.Failed(Proto, None)
    else AreasOutcome(data, h)
  }

  ghost predicate AreasAre(data: seq<byte>, h: HeaderSpec) {
    36 <= |data| && H.Areas(data, h.revision, h.size, |h.version|) == AreasOutcome(data, h)
  }

  lemma AreasDecided(data: seq<byte>, h: HeaderSpec)
    requires HeaderHeadIs(data, h) && 1 <= h.revision <= 4
    ensures AreasAre(data, h)
  {
  }

  lemma KnownIds(id: seq<byte>)
    ensures H.Known(id) <==> exists r :: 1 <= r <= 4 && id == H.Identifier(r)
  {
    if H.Known(id) {
      var r := if id == H.Identifier(1) then 1 else if id == H.Identifier(2) then 2
          else if id == H.Identifier(3) then 3 else 4;
      assert id == H.Identifier(r);
    }
  }

  /**
   The header of a package that was written is read back, every field of it; or it is refused for the pin, for its
   identifier or revision, for its bitmap length or string type, for its size, or for a checksum.
   */
  lemma HeaderRoundTrip(data: seq<byte>, h: HeaderSpec, pin: nat)
    requires HeaderFits(h) && Holds(data, 0, HeaderHead(h))
    ensures H.Decode(data, pin) == HeaderOutcome(data, h, pin)
  {
    HeaderHeadHeld(data, h);
    KnownIds(h.id);
    if 1 <= h.revision <= 4 {
      AreasDecided(data, h);
    }
  }

  /** Less than a fixed part is too little for any pin there is. */
  lemma ShortPackage(data: seq<byte>, pin: nat)
    requires |data| < 36
    ensures H.Decode(data, pin) == H.Failed(if pin == 0 then Inval else if pin > 4 then NotSup else Overflow, None)
  {
  }
}
