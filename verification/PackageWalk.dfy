/**
 Models a whole walk over a firmware update package, in the order the foreach macros of
 include/libpldm/firmware_update.h prescribe: firmware devices, downstream devices, component images.
 */
module PackageWalk {
  import opened Common
  import opened Bytes
  import opened Msgbuf
  import opened PackageRecords
  import opened Package
  import H = PackageHeader
  import Edac

  // ---------------------------------------------------------------- what a walk finds

  /** Records gathered until the count was used up or one was refused, and what is left of the field. */
  datatype Collected<T> = Collected(rc: Rc, recs: seq<T>, field: Span)

  function Prepend<T>(recs: seq<T>, c: Collected<T>): Collected<T> { Collected(c.rc, recs + c.recs, c.field) }

  function DevicesOf(data: seq<byte>, f: Span, n: nat, kind: Kind, revision: nat, bits: nat): (c: Collected<Device>)
    requires End(f) <= |data|
    ensures End(c.field) == End(f) && f.start <= c.field.start
    decreases n
  {
    if n == 0 then Collected(Ok, [], f)
    else
      match DeviceOf(data, f, kind, revision, bits)
      case Refused(rc, g) => Collected(rc, [], g)
      case Got(rec, g) => Prepend([rec], DevicesOf(data, g, n - 1, kind, revision, bits))
  }

  /** The component loop tests its count only after it has lowered it. */
  function ComponentsOf(data: seq<byte>, f: Span, n: nat, revision: nat): (c: Collected<Component>)
    requires End(f) <= |data|
    ensures End(c.field) == End(f) && f.start <= c.field.start
    decreases f.length
  {
    match ComponentOf(data, f, revision)
    case Refused(rc, g) => Collected(rc, [], g)
    case Got(rec, g) =>
      var left := Lowered(n);
      if left == 0 then Collected(Ok, [rec], g) else Prepend([rec], ComponentsOf(data, g, left, revision))
  }

  function Behind(f: Span, n: nat): Span
    requires n <= f.length
  {
    Span(f.start + n, f.length - n)
  }

  datatype Parsed = Parsed(rc: Rc, firmware: seq<Device>, downstream: seq<Device>, components: seq<Component>)

  function FirmwarePart(data: seq<byte>, hdr: H.Header, areas: Span): (c: Collected<Device>)
    requires End(areas) <= |data|
    ensures End(c.field) == End(areas) && areas.start <= c.field.start
  {
    if areas.length < 1 then Collected(Overflow, [], areas)
    else DevicesOf(data, Behind(areas, 1), Number(data, areas.start, U8), Firmware, hdr.revision, hdr.bits)
  }

  /** Revision 1 has no downstream devices, and no count of them. */
  function DownstreamPart(data: seq<byte>, hdr: H.Header, f: Span): (c: Collected<Device>)
    requires End(f) <= |data|
    ensures End(c.field) == End(f) && f.start <= c.field.start
  {
    if hdr.revision == 1 then Collected(Ok, [], f)
    else if f.length < 1 then Collected(Overflow, [], f)
    else DevicesOf(data, Behind(f, 1), Number(data, f.start, U8), Downstream, hdr.revision, hdr.bits)
  }

  function ComponentPart(data: seq<byte>, hdr: H.Header, f: Span): (c: Collected<Component>)
    requires End(f) <= |data|
    ensures End(c.field) == End(f) && f.start <= c.field.start
  {
    if f.length < 2 then Collected(Overflow, [], f)
    else ComponentsOf(data, Behind(f, 2), Number(data, f.start, U16), hdr.revision)
  }

  function Records(data: seq<byte>, hdr: H.Header, areas: Span): Parsed
    requires End(areas) <= |data|
  {
    var fw := FirmwarePart(data, hdr, areas);
    if fw.rc != Ok then Parsed(fw.rc, fw.recs, [], [])
    else
      var dd := DownstreamPart(data, hdr, fw.field);
      if dd.rc != Ok then Parsed(dd.rc, fw.recs, dd.recs, [])
      else
        var cs := ComponentPart(data, hdr, dd.field);
        Parsed(cs.rc, fw.recs, dd.recs, cs.recs)
  }

  function Parse(data: seq<byte>, pin: nat): Parsed {
    match H.Decode(data, pin)
    case Failed(rc, _) => Parsed(rc, [], [], [])
    case Done(hdr, areas) =>
      H.HeaderIsSound(data, pin);
      Records(data, hdr, areas)
  }

  // ---------------------------------------------------------------- the walk

  // Equations about the heavy functions above travel through the loops under a name.

  ghost predicate IsDevices(c: Collected<Device>, s: State, kind: Kind) {
    End(s.field) <= |s.data| && c == DevicesOf(s.data, s.field, s.entries, kind, s.hdr.revision, s.hdr.bits)
  }

  ghost predicate DevicesLeft(goal: Collected<Device>, recs: seq<Device>, s: State, kind: Kind) {
    End(s.field) <= |s.data| &&
      goal == Prepend(recs, DevicesOf(s.data, s.field, s.entries, kind, s.hdr.revision, s.hdr.bits))
  }

  lemma DevicesStart(s: State, kind: Kind) returns (goal: Collected<Device>)
    requires Sound(s) && s.stage == StageOf(kind)
    ensures IsDevices(goal, s, kind) && DevicesLeft(goal, [], s, kind)
  {
    goal := DevicesOf(s.data, s.field, s.entries, kind, s.hdr.revision, s.hdr.bits);
    PrependNothing(goal);
  }

  lemma DevicesStep(goal: Collected<Device>, recs: seq<Device>, s: State, kind: Kind, r: Step<Device>)
    requires Sound(s) && s.stage == StageOf(kind) && s.entries != 0 && DevicesLeft(goal, recs, s, kind) &&
        r == DeviceHere(s, kind)
    ensures r.Refused? ==> goal == Collected(r.rc, recs, r.field)
    ensures r.Got? ==> DevicesLeft(goal, recs + [r.rec], s.(field := r.field, entries := s.entries - 1), kind)
  {
    if r.Refused? {
      PrependEnd<Device>(recs, r.rc, r.field);
    } else {
      PrependTwice(recs, r.rec, DevicesOf(s.data, r.field, s.entries - 1, kind, s.hdr.revision, s.hdr.bits));
    }
  }

  /** One turn of the device loop: decode, then iter_next. */
  method TurnDevice(pkg: Parser, kind: Kind, ghost goal: Collected<Device>, ghost recs: seq<Device>)
      returns (r: Step<Device>)
    requires Sound(pkg.View()) && pkg.stage == StageOf(kind) && pkg.entries != 0 &&
        DevicesLeft(goal, recs, pkg.View(), kind)
    modifies pkg
    ensures Sound(pkg.View())
    ensures r.Refused? ==> goal == Collected(r.rc, recs, pkg.field)
    ensures r.Refused? ==> pkg.View() == old(pkg.View()).(field := r.field)
    ensures r.Got? ==> pkg.View() == old(pkg.View()).(field := r.field, entries := old(pkg.entries) - 1)
    ensures r.Got? ==> DevicesLeft(goal, recs + [r.rec], pkg.View(), kind)
  {
    DevicesStep(goal, recs, pkg.View(), kind, DeviceHere(pkg.View(), kind));
    r := pkg.DecodeDeviceRecord(kind);
    if r.Got? {
      pkg.Step();
    }
  }

  /** The loop of the two device foreach macros, from their iter_init on. */
  method ForeachDevice(pkg: Parser, kind: Kind) returns (rc: Rc, recs: seq<Device>)
    requires Sound(pkg.View()) && pkg.stage == StageOf(kind)
    modifies pkg
    ensures IsDevices(Collected(rc, recs, pkg.field), old(pkg.View()), kind)
    ensures pkg.View() == old(pkg.View()).(field := pkg.field, entries := pkg.entries) && Sound(pkg.View())
  {
    recs := [];
    ghost var goal := DevicesStart(pkg.View(), kind);
    while pkg.entries != 0
      invariant pkg.View() == old(pkg.View()).(field := pkg.field, entries := pkg.entries) && Sound(pkg.View())
      invariant DevicesLeft(goal, recs, pkg.View(), kind)
      decreases pkg.entries
    {
      var r := TurnDevice(pkg, kind, goal, recs);
      if r.Refused? {
        return r.rc, recs;
      }
      recs := recs + [r.rec];
    }
    DevicesEnd(goal, recs, pkg.View(), kind);
    return Ok, recs;
  }

  lemma DevicesEnd(goal: Collected<Device>, recs: seq<Device>, s: State, kind: Kind)
    requires DevicesLeft(goal, recs, s, kind) && s.entries == 0
    ensures goal == Collected(Ok, recs, s.field)
  {
    PrependEnd<Device>(recs, Ok, s.field);
  }

  ghost predicate IsComponents(c: Collected<Component>, s: State) {
    End(s.field) <= |s.data| && c == ComponentsOf(s.data, s.field, s.entries, s.hdr.revision)
  }

  ghost predicate ComponentsLeft(goal: Collected<Component>, recs: seq<Component>, s: State) {
    End(s.field) <= |s.data| && goal == Prepend(recs, ComponentsOf(s.data, s.field, s.entries, s.hdr.revision))
  }

  lemma ComponentsStart(s: State) returns (goal: Collected<Component>)
    requires Sound(s) && s.stage == Components
    ensures IsComponents(goal, s) && ComponentsLeft(goal, [], s)
  {
    goal := ComponentsOf(s.data, s.field, s.entries, s.hdr.revision);
    PrependNothing(goal);
  }

  function Lowered(n: nat): nat { if n == 0 then SIZE_MAX else n - 1 }

  lemma ComponentsStep(goal: Collected<Component>, recs: seq<Component>, s: State, r: Step<Component>)
    requires Sound(s) && s.stage == Components && ComponentsLeft(goal, recs, s) && r == ComponentHere(s)
    ensures r.Refused? ==> goal == Collected(r.rc, recs, r.field)
    ensures r.Got? && Lowered(s.entries) == 0 ==> goal == Collected(Ok, recs + [r.rec], r.field)
    ensures r.Got? && Lowered(s.entries) != 0 ==>
        ComponentsLeft(goal, recs + [r.rec], s.(field := r.field, entries := Lowered(s.entries)))
    ensures r.Got? ==> r.field.length < s.field.length
  {
    if r.Refused? {
      PrependEnd<Component>(recs, r.rc, r.field);
    } else if Lowered(s.entries) != 0 {
      PrependTwice(recs, r.rec, ComponentsOf(s.data, r.field, Lowered(s.entries), s.hdr.revision));
    }
  }

  /** One turn of the component loop: decode, then iter_next. */
  method TurnComponent(pkg: Parser, ghost goal: Collected<Component>, ghost recs: seq<Component>)
      returns (r: Step<Component>)
    requires Sound(pkg.View()) && pkg.stage == Components && ComponentsLeft(goal, recs, pkg.View())
    modifies pkg
    ensures Sound(pkg.View())
    ensures r.Refused? ==> goal == Collected(r.rc, recs, pkg.field)
    ensures r.Got? ==> pkg.field.length < old(pkg.field.length) && (pkg.stage == Components || pkg.stage == Complete)
    ensures r.Got? && pkg.stage == Complete ==> goal == Collected(Ok, recs + [r.rec], pkg.field)
    ensures r.Got? && pkg.stage == Components ==> ComponentsLeft(goal, recs + [r.rec], pkg.View())
  {
    ComponentsStep(goal, recs, pkg.View(), ComponentHere(pkg.View()));
    r := pkg.DecodeComponentRecord();
    if r.Got? {
      pkg.Step();
    }
  }

  /** The loop of foreach_pldm_package_component_image_information. */
  method ForeachComponent(pkg: Parser) returns (rc: Rc, recs: seq<Component>)
    requires Sound(pkg.View()) && pkg.stage == Components
    modifies pkg
    ensures IsComponents(Collected(rc, recs, pkg.field), old(pkg.View()))
    ensures Sound(pkg.View())
  {
    recs := [];
    ghost var goal := ComponentsStart(pkg.View());
    while pkg.stage != Complete
      invariant Sound(pkg.View()) && (pkg.stage == Components || pkg.stage == Complete)
      invariant pkg.stage == Complete ==> goal == Collected(Ok, recs, pkg.field)
      invariant pkg.stage == Components ==> ComponentsLeft(goal, recs, pkg.View())
      decreases pkg.field.length
    {
      var r := TurnComponent(pkg, goal, recs);
      if r.Refused? {
        return r.rc, recs;
      }
      recs := recs + [r.rec];
    }
    return Ok, recs;
  }

  lemma PrependNothing<T>(c: Collected<T>)
    ensures Prepend([], c) == c
  {
    assert [] + c.recs == c.recs;
  }

  lemma PrependEnd<T>(recs: seq<T>, rc: Rc, f: Span)
    ensures Prepend(recs, Collected(rc, [], f)) == Collected(rc, recs, f)
  {
    assert recs + [] == recs;
  }

  lemma PrependTwice<T>(recs: seq<T>, rec: T, c: Collected<T>)
    ensures Prepend(recs, Prepend([rec], c)) == Prepend(recs + [rec], c)
  {
    assert recs + ([rec] + c.recs) == recs + [rec] + c.recs;
  }

  /** A caller that opens a package and walks it as its pin allows: no downstream loop under a revision 1 pin. */
  method ParsePackage(data: seq<byte>, pin: nat) returns (p: Parsed)
    ensures p == Parse(data, pin)
  {
    var pkg := new Parser();
    var rc := pkg.OpenData(data, pin);
    if rc != Ok {
      return Parsed(rc, [], [], []);
    }
    H.HeaderIsSound(data, pin);
    p := WalkRecords(pkg);
  }

  method WalkRecords(pkg: Parser) returns (p: Parsed)
    requires Sound(pkg.View()) && pkg.stage == HeaderRead
    modifies pkg
    ensures p == Records(old(pkg.data), old(pkg.hdr), old(pkg.areas))
  {
    var fw, dd, cs := [], [], [];
    var rc;
    rc, fw := WalkFirmware(pkg);
    if rc != Ok {
      return Parsed(rc, fw, [], []);
    }
    if pkg.pin > 1 {
      rc, dd := WalkDownstream(pkg);
      if rc != Ok {
        return Parsed(rc, fw, dd, []);
      }
    }
    rc, cs := WalkComponents(pkg);
    return Parsed(rc, fw, dd, cs);
  }

  lemma CountedDevices(c: Collected<Device>, data: seq<byte>, hdr: H.Header, f: Span, s: State, kind: Kind)
    requires 1 <= f.length && End(f) <= |data| && s.data == data && s.hdr == hdr
    requires s.field == Behind(f, 1) && s.entries == Number(data, f.start, U8) && IsDevices(c, s, kind)
    ensures kind == Firmware ==> c == FirmwarePart(data, hdr, f)
    ensures kind == Downstream && hdr.revision != 1 ==> c == DownstreamPart(data, hdr, f)
  {
  }

  method WalkFirmware(pkg: Parser) returns (rc: Rc, recs: seq<Device>)
    requires Sound(pkg.View()) && pkg.stage == HeaderRead
    modifies pkg
    ensures Collected(rc, recs, pkg.field) == FirmwarePart(old(pkg.data), old(pkg.hdr), old(pkg.areas))
    ensures pkg.View() == old(pkg.View()).(field := pkg.field, entries := pkg.entries, stage := FirmwareDevices) &&
        Sound(pkg.View())
  {
    recs := [];
    rc := pkg.StartFirmware();
    if rc == Ok {
      ghost var s := pkg.View();
      rc, recs := ForeachDevice(pkg, Firmware);
      CountedDevices(Collected(rc, recs, pkg.field), s.data, s.hdr, s.areas, s, Firmware);
    }
  }

  method WalkDownstream(pkg: Parser) returns (rc: Rc, recs: seq<Device>)
    requires Sound(pkg.View()) && pkg.stage == FirmwareDevices && pkg.pin > 1
    modifies pkg
    ensures Collected(rc, recs, pkg.field) == DownstreamPart(old(pkg.data), old(pkg.hdr), old(pkg.field))
    ensures pkg.View() == old(pkg.View()).(field := pkg.field, entries := pkg.entries, stage := DownstreamDevices) &&
        Sound(pkg.View())
  {
    recs := [];
    rc := pkg.StartDownstream();
    if rc == Ok {
      ghost var s := pkg.View();
      rc, recs := ForeachDevice(pkg, Downstream);
      if s.hdr.revision != 1 {
        CountedDevices(Collected(rc, recs, pkg.field), s.data, s.hdr, old(pkg.field), s, Downstream);
      }
    }
  }

  lemma CountedComponents(c: Collected<Component>, data: seq<byte>, hdr: H.Header, f: Span, s: State)
    requires 2 <= f.length && End(f) <= |data| && s.data == data && s.hdr == hdr
    requires s.field == Behind(f, 2) && s.entries == Number(data, f.start, U16) && IsComponents(c, s)
    ensures c == ComponentPart(data, hdr, f)
  {
  }

  method WalkComponents(pkg: Parser) returns (rc: Rc, recs: seq<Component>)
    requires Sound(pkg.View()) && (pkg.stage == DownstreamDevices || (pkg.stage == FirmwareDevices && pkg.pin == 1))
    modifies pkg
    ensures Collected(rc, recs, pkg.field) == ComponentPart(old(pkg.data), old(pkg.hdr), old(pkg.field))
  {
    recs := [];
    rc := pkg.StartComponents();
    if rc == Ok {
      ghost var s := pkg.View();
      rc, recs := ForeachComponent(pkg);
      CountedComponents(Collected(rc, recs, pkg.field), s.data, s.hdr, old(pkg.field), s);
    }
  }

  /**
   A revision 1 package gives the same records and images to a caller with a revision 1 pin, who has no downstream
   loop, and to one with any newer pin, whose downstream loop finds nothing.
   */
  lemma NewerPinsSeeTheSame(data: seq<byte>, newer: nat)
    requires 1 <= newer <= 4 && H.Decode(data, 1).Done?
    ensures Parse(data, newer) == Parse(data, 1) && Parse(data, newer).downstream == []
  {
    H.PinsAgree(data, 1, newer);
    H.HeaderIsSound(data, 1);
  }

  // ---------------------------------------------------------------- how the pieces lie

  function DeviceExtent(d: Device, revision: nat): Span {
    var fixed := FixedPart(revision);
    if fixed <= d.bitmap.start <= End(d.manifest)
      then Span(d.bitmap.start - fixed, End(d.manifest) - (d.bitmap.start - fixed))
    else Span(0, 0)
  }

  function DeviceExtents(ds: seq<Device>, revision: nat): seq<Span> {
    if ds == [] then [] else [DeviceExtent(ds[0], revision)] + DeviceExtents(ds[1..], revision)
  }

  function ComponentExtents(cs: seq<Component>): seq<Span> {
    if cs == [] then [] else [ComponentExtent(cs[0])] + ComponentExtents(cs[1..])
  }

  function ComponentExtent(c: Component): Span {
    if MIN_COMPONENT <= c.version.start <= End(c.opaqueData)
    then Span(c.version.start - MIN_COMPONENT, End(c.opaqueData) - (c.version.start - MIN_COMPONENT))
    else Span(0, 0)
  }

  lemma {:induction false} TilesConcat(a: seq<Span>, b: seq<Span>, x: nat, y: nat, z: nat)
    requires Tiles(a, x, y) && Tiles(b, y, z)
    ensures Tiles(a + b, x, z)
    decreases |a|
  {
    if a == [] {
      assert a + b == b;
    } else {
      TilesConcat(a[1..], b, End(a[0]), y, z);
      assert (a + b)[1..] == a[1..] + b;
    }
  }

  lemma ExtentOfDevice(data: seq<byte>, f: Span, kind: Kind, revision: nat, bits: nat)
    requires End(f) <= |data| && DeviceOf(data, f, kind, revision, bits).Got?
    ensures var r := DeviceOf(data, f, kind, revision, bits);
        DeviceExtent(r.rec, revision) == Span(f.start, r.field.start - f.start)
  {
  }

  /** Devices gathered without error are as many as announced, and adjacent. */
  ghost predicate Adjacent(data: seq<byte>, f: Span, n: nat, kind: Kind, revision: nat, bits: nat) {
    && End(f) <= |data|
    && var c := DevicesOf(data, f, n, kind, revision, bits);
    c.rc == Ok ==> |c.recs| == n && Tiles(DeviceExtents(c.recs, revision), f.start, c.field.start)
  }

  lemma AdjacentStep(data: seq<byte>, f: Span, n: nat, kind: Kind, revision: nat, bits: nat)
    requires n > 0 && End(f) <= |data|
    requires var r := DeviceOf(data, f, kind, revision, bits); r.Got? ==>
      DeviceExtent(r.rec, revision) == Span(f.start, r.field.start - f.start) &&
        Adjacent(data, r.field, n - 1, kind, revision, bits)
    ensures Adjacent(data, f, n, kind, revision, bits)
  {
    var r := DeviceOf(data, f, kind, revision, bits);
    if r.Got? {
      var rest := DevicesOf(data, r.field, n - 1, kind, revision, bits);
      if rest.rc == Ok {
        FirstExtent(r.rec, rest.recs, revision, f.start, r.field.start, rest.field.start);
      }
    }
  }

  /** Successive device records are adjacent. */
  lemma {:induction false} DevicesTile(data: seq<byte>, f: Span, n: nat, kind: Kind, revision: nat, bits: nat)
    requires End(f) <= |data|
    ensures Adjacent(data, f, n, kind, revision, bits)
    decreases n
  {
    if n > 0 {
      var r := DeviceOf(data, f, kind, revision, bits);
      if r.Got? {
        ExtentOfDevice(data, f, kind, revision, bits);
        DevicesTile(data, r.field, n - 1, kind, revision, bits);
      }
      AdjacentStep(data, f, n, kind, revision, bits);
    }
  }

  lemma FirstExtent(d: Device, ds: seq<Device>, revision: nat, x: nat, y: nat, z: nat)
    requires x <= y && DeviceExtent(d, revision) == Span(x, y - x) && Tiles(DeviceExtents(ds, revision), y, z)
    ensures Tiles(DeviceExtents([d] + ds, revision), x, z)
  {
    assert ([d] + ds)[1..] == ds;
    ExtentsStep([DeviceExtent(d, revision)], DeviceExtents(ds, revision));
  }

  lemma ExtentsStep(a: seq<Span>, b: seq<Span>)
    requires |a| == 1
    ensures (a + b)[1..] == b
  {
  }

  /** So are component records; each takes at least its fixed part, and as many are found as were announced. */
  lemma {:induction false} ComponentsTile(data: seq<byte>, f: Span, n: nat, revision: nat)
    requires End(f) <= |data|
    ensures var c := ComponentsOf(data, f, n, revision);
      c.rc == Ok ==>
        && |c.recs| == (if n == 0 then SIZE_MAX + 1 else n) && MIN_COMPONENT * |c.recs| <= f.length
        && Tiles(ComponentExtents(c.recs), f.start, c.field.start)
    decreases f.length
  {
    var r := ComponentOf(data, f, revision);
    if r.Got? {
      var left := Lowered(n);
      var rest := [];
      if left != 0 {
        ComponentsTile(data, r.field, left, revision);
        rest := ComponentsOf(data, r.field, left, revision).recs;
      }
      assert ([r.rec] + rest)[1..] == rest;
      ExtentsStep([ComponentExtent(r.rec)], ComponentExtents(rest));
    }
  }

  // ---------------------------------------------------------------- where the loops stop

  /** These records decode one behind the other, from the start of f up to g. */
  predicate Chain(data: seq<byte>, f: Span, kind: Kind, revision: nat, bits: nat, recs: seq<Device>, g: Span)
    requires End(f) <= |data|
    decreases |recs|
  {
    if recs == [] then g == f
    else
      var r := DeviceOf(data, f, kind, revision, bits);
      r.Got? && r.rec == recs[0] && Chain(data, r.field, kind, revision, bits, recs[1..], g)
  }

  /** A loop ends with as many records as announced, or in front of a record that is refused, and with its error. */
  ghost predicate DevicesEndAt(data: seq<byte>, f: Span, n: nat, kind: Kind, revision: nat, bits: nat,
                               c: Collected<Device>, g: Span)
  {
    && End(f) <= |data| && Chain(data, f, kind, revision, bits, c.recs, g) && End(g) <= |data|
    && if |c.recs| == n then c.rc == Ok && c.field == g
       else |c.recs| < n && DeviceOf(data, g, kind, revision, bits) == Refused(c.rc, c.field)
  }

  lemma ChainStep(data: seq<byte>, f: Span, n: nat, kind: Kind, revision: nat, bits: nat, c: Collected<Device>, g: Span)
    requires n > 0 && End(f) <= |data| && DeviceOf(data, f, kind, revision, bits).Got?
    requires DevicesEndAt(data, DeviceOf(data, f, kind, revision, bits).field, n - 1, kind, revision, bits, c, g)
    ensures DevicesEndAt(data, f, n, kind, revision, bits,
                         Prepend([DeviceOf(data, f, kind, revision, bits).rec], c), g)
  {
    var r := DeviceOf(data, f, kind, revision, bits);
    assert ([r.rec] + c.recs)[1..] == c.recs;
  }

  /** The device loop hands out the records that lie one behind the other from the start of the field. */
  lemma {:induction false} DevicesStop(data: seq<byte>, f: Span, n: nat, kind: Kind, revision: nat, bits: nat)
      returns (g: Span)
    requires End(f) <= |data|
    ensures DevicesEndAt(data, f, n, kind, revision, bits, DevicesOf(data, f, n, kind, revision, bits), g)
    decreases n
  {
    g := f;
    if n > 0 {
      var r := DeviceOf(data, f, kind, revision, bits);
      if r.Got? {
        g := DevicesStop(data, r.field, n - 1, kind, revision, bits);
        ChainStep(data, f, n, kind, revision, bits, DevicesOf(data, r.field, n - 1, kind, revision, bits), g);
      }
    }
  }

  predicate ComponentChain(data: seq<byte>, f: Span, revision: nat, recs: seq<Component>, g: Span)
    requires End(f) <= |data|
    decreases |recs|
  {
    if recs == [] then g == f
    else
      var r := ComponentOf(data, f, revision);
      r.Got? && r.rec == recs[0] && ComponentChain(data, r.field, revision, recs[1..], g)
  }

  /** A count of zero stands for 2^64 here. */
  ghost predicate ComponentsEndAt(data: seq<byte>, f: Span, n: nat, revision: nat, c: Collected<Component>, g: Span) {
    && End(f) <= |data| && ComponentChain(data, f, revision, c.recs, g) && End(g) <= |data|
    && if |c.recs| == (if n == 0 then 0x1_0000_0000_0000_0000 else n) then c.rc == Ok && c.field == g
       else |c.recs| < (if n == 0 then 0x1_0000_0000_0000_0000 else n) &&
            ComponentOf(data, g, revision) == Refused(c.rc, c.field)
  }

  lemma ComponentChainStep(data: seq<byte>, f: Span, n: nat, revision: nat, c: Collected<Component>, g: Span)
    requires End(f) <= |data| && ComponentOf(data, f, revision).Got? && Lowered(n) != 0
    requires ComponentsEndAt(data, ComponentOf(data, f, revision).field, Lowered(n), revision, c, g)
    ensures ComponentsEndAt(data, f, n, revision, Prepend([ComponentOf(data, f, revision).rec], c), g)
  {
    var r := ComponentOf(data, f, revision);
    assert ([r.rec] + c.recs)[1..] == c.recs;
  }

  /** So does the component loop. */
  lemma {:induction false} ComponentsStop(data: seq<byte>, f: Span, n: nat, revision: nat) returns (g: Span)
    requires End(f) <= |data|
    ensures ComponentsEndAt(data, f, n, revision, ComponentsOf(data, f, n, revision), g)
    decreases f.length
  {
    g := f;
    var r := ComponentOf(data, f, revision);
    if r.Got? {
      if Lowered(n) == 0 {
        g := r.field;
        assert [r.rec][1..] == [];
      } else {
        g := ComponentsStop(data, r.field, Lowered(n), revision);
        ComponentChainStep(data, f, n, revision, ComponentsOf(data, r.field, Lowered(n), revision), g);
      }
    }
  }

  /** The first part of a package that fails ends the walk, with its error; what was handed out by then is kept. */
  lemma FirstFailureEnds(data: seq<byte>, pin: nat)
    ensures var d, p := H.Decode(data, pin), Parse(data, pin);
      if d.Failed? then p == Parsed(d.rc, [], [], [])
      else
        && End(d.areas) <= |data|
        && var fw := FirmwarePart(data, d.hdr, d.areas);
        && p.firmware == fw.recs
        && if fw.rc != Ok then p == Parsed(fw.rc, fw.recs, [], [])
           else
             var dd := DownstreamPart(data, d.hdr, fw.field);
             && p.downstream == dd.recs
             && if dd.rc != Ok then p == Parsed(dd.rc, fw.recs, dd.recs, [])
                else p.rc == ComponentPart(data, d.hdr, dd.field).rc
  {
    if H.Decode(data, pin).Done? {
      H.HeaderIsSound(data, pin);
    }
  }

  // ---------------------------------------------------------------- when the component loop succeeds

  /** The first n component records of a field decode. */
  predicate Decodes(data: seq<byte>, f: Span, n: nat, revision: nat)
    requires End(f) <= |data|
    decreases n
  {
    n == 0 || (ComponentOf(data, f, revision).Got? &&
               Decodes(data, ComponentOf(data, f, revision).field, n - 1, revision))
  }

  /** A package that announces no component is never walked to the end: the count wraps, and the bytes run out first. */
  lemma NoComponentsNoSuccess(data: seq<byte>, f: Span, revision: nat)
    requires End(f) <= |data| <= INTMAX_MAX
    ensures ComponentsOf(data, f, 0, revision).rc != Ok
  {
    ComponentsTile(data, f, 0, revision);
  }

  /** The loop succeeds exactly when a component is announced and as many decode as are announced. */
  lemma {:induction false} ComponentsExactly(data: seq<byte>, f: Span, n: nat, revision: nat)
    requires End(f) <= |data| <= INTMAX_MAX
    ensures ComponentsOf(data, f, n, revision).rc == Ok <==> n >= 1 && Decodes(data, f, n, revision)
    decreases n
  {
    if n == 0 {
      NoComponentsNoSuccess(data, f, revision);
    } else if n > 1 && ComponentOf(data, f, revision).Got? {
      ComponentsExactly(data, ComponentOf(data, f, revision).field, n - 1, revision);
    }
  }

  /** A loop that fails has handed out every record in front of the first one that does not decode. */
  lemma {:induction false} StopsAtFirstRefused(data: seq<byte>, f: Span, n: nat, revision: nat, m: nat)
    requires End(f) <= |data| && ComponentsOf(data, f, n, revision).rc != Ok
    ensures Decodes(data, f, m, revision) <==> m <= |ComponentsOf(data, f, n, revision).recs|
    decreases f.length
  {
    var r := ComponentOf(data, f, revision);
    if m > 0 && r.Got? {
      StopsAtFirstRefused(data, r.field, Lowered(n), revision, m - 1);
    }
  }

  /** So with a count of zero it hands out records nobody announced, namely all that decode, and then fails. */
  lemma UnannouncedComponents(data: seq<byte>, f: Span, revision: nat, m: nat)
    requires End(f) <= |data| <= INTMAX_MAX
    ensures var c := ComponentsOf(data, f, 0, revision);
      && c.rc != Ok && (m <= |c.recs| <==> Decodes(data, f, m, revision))
      && (c.recs != [] <==> ComponentOf(data, f, revision).Got?)
  {
    NoComponentsNoSuccess(data, f, revision);
    StopsAtFirstRefused(data, f, 0, revision, m);
  }

  /** What is left for the components, once the devices have been walked without error. */
  function ComponentField(data: seq<byte>, hdr: H.Header, areas: Span): (r: Option<Span>)
    requires End(areas) <= |data|
    ensures r.Some? ==> End(r.value) == End(areas)
  {
    var fw := FirmwarePart(data, hdr, areas);
    if fw.rc != Ok then None
    else
      var dd := DownstreamPart(data, hdr, fw.field);
      if dd.rc != Ok then None else Some(dd.field)
  }

  /**
   A whole package parses exactly when its devices do, it announces a component, and as many decode as it announces.
   */
  lemma ParsesExactly(data: seq<byte>, pin: nat)
    requires H.Decode(data, pin).Done?
    ensures var d := H.Decode(data, pin); |data| <= INTMAX_MAX && End(d.areas) <= |data|
    ensures var d := H.Decode(data, pin); var f := ComponentField(data, d.hdr, d.areas);
      Parse(data, pin).rc == Ok <==>
        && f.Some? && f.value.length >= 2
        && var n := Number(data, f.value.start, U16); n >= 1 && Decodes(data, Behind(f.value, 2), n, d.hdr.revision)
  {
    H.HeaderIsSound(data, pin);
    var d := H.Decode(data, pin);
    var f := ComponentField(data, d.hdr, d.areas);
    if f.Some? && f.value.length >= 2 {
      ComponentsExactly(data, Behind(f.value, 2), Number(data, f.value.start, U16), d.hdr.revision);
    }
  }

  // ---------------------------------------------------------------- the whole package in pieces

  /** A record by where it lies and the pieces it consists of. */
  datatype Cut = Cut(extent: Span, pieces: seq<Span>)

  /** The pieces fill the record. */
  predicate Whole(c: Cut) { Tiles(c.pieces, c.extent.start, End(c.extent)) }

  ghost predicate AllWhole(cs: seq<Cut>) { forall i :: 0 <= i < |cs| ==> Whole(cs[i]) }

  function CutExtents(cs: seq<Cut>): seq<Span> { if cs == [] then [] else [cs[0].extent] + CutExtents(cs[1..]) }

  /** The pieces of each record, one list after the other. */
  function Pieces(cs: seq<Cut>): seq<Span> { if cs == [] then [] else cs[0].pieces + Pieces(cs[1..]) }

  /** Adjacent records, each filled by its pieces, are filled by all their pieces. */
  lemma {:induction false} PiecesTile(cs: seq<Cut>, x: nat, z: nat)
    requires AllWhole(cs) && Tiles(CutExtents(cs), x, z)
    ensures Tiles(Pieces(cs), x, z)
  {
    if cs != [] {
      ExtentsStep([cs[0].extent], CutExtents(cs[1..]));
      PiecesTile(cs[1..], End(cs[0].extent), z);
      TilesConcat(cs[0].pieces, Pieces(cs[1..]), x, End(cs[0].extent), z);
    }
  }

  function DeviceCut(d: Device, kind: Kind, revision: nat): Cut {
    var e := DeviceExtent(d, revision);
    Cut(e, DevicePieces(e.start, revision, kind, d))
  }

  function DeviceCuts(ds: seq<Device>, kind: Kind, revision: nat): (cs: seq<Cut>)
    ensures |cs| == |ds| && forall i :: 0 <= i < |ds| ==> cs[i] == DeviceCut(ds[i], kind, revision)
  {
    if ds == [] then [] else [DeviceCut(ds[0], kind, revision)] + DeviceCuts(ds[1..], kind, revision)
  }

  function ComponentCut(c: Component, revision: nat): Cut {
    var e := ComponentExtent(c);
    Cut(e, ComponentPieces(e.start, revision, c))
  }

  function ComponentCuts(cs: seq<Component>, revision: nat): (r: seq<Cut>)
    ensures |r| == |cs| && forall i :: 0 <= i < |cs| ==> r[i] == ComponentCut(cs[i], revision)
  {
    if cs == [] then [] else [ComponentCut(cs[0], revision)] + ComponentCuts(cs[1..], revision)
  }

  lemma {:induction false} DeviceCutExtents(ds: seq<Device>, kind: Kind, revision: nat)
    ensures CutExtents(DeviceCuts(ds, kind, revision)) == DeviceExtents(ds, revision)
  {
    if ds != [] {
      DeviceCutExtents(ds[1..], kind, revision);
      CutsStep(DeviceCut(ds[0], kind, revision), DeviceCuts(ds[1..], kind, revision));
    }
  }

  lemma {:induction false} ComponentCutExtents(cs: seq<Component>, revision: nat)
    ensures CutExtents(ComponentCuts(cs, revision)) == ComponentExtents(cs)
  {
    if cs != [] {
      ComponentCutExtents(cs[1..], revision);
      CutsStep(ComponentCut(cs[0], revision), ComponentCuts(cs[1..], revision));
    }
  }

  lemma CutsStep(c: Cut, cs: seq<Cut>)
    ensures CutExtents([c] + cs) == [c.extent] + CutExtents(cs)
  {
    assert ([c] + cs)[1..] == cs;
  }

  lemma DeviceIsWhole(data: seq<byte>, f: Span, kind: Kind, revision: nat, bits: nat, d: Device, c: Cut)
    requires End(f) <= |data| && DeviceOf(data, f, kind, revision, bits).Got?
    requires d == DeviceOf(data, f, kind, revision, bits).rec && c == DeviceCut(d, kind, revision)
    ensures Whole(c)
  {
    DeviceEnds(data, f, kind, revision, bits);
    DeviceTiles(data, f, kind, revision, bits, d, Number(data, f.start, U16));
    ExtentOfDevice(data, f, kind, revision, bits);
  }

  lemma ExtentOfComponent(data: seq<byte>, f: Span, revision: nat)
    requires End(f) <= |data| && ComponentOf(data, f, revision).Got?
    ensures var r := ComponentOf(data, f, revision); ComponentExtent(r.rec) == Span(f.start, r.field.start - f.start)
  {
  }

  lemma ComponentIsWhole(data: seq<byte>, f: Span, revision: nat, d: Component, c: Cut)
    requires End(f) <= |data| && ComponentOf(data, f, revision).Got?
    requires d == ComponentOf(data, f, revision).rec && c == ComponentCut(d, revision)
    ensures Whole(c)
  {
    ComponentTiles(data, f, revision);
    ExtentOfComponent(data, f, revision);
  }

  /** A record found at the start of a field. */
  ghost predicate FoundAt(data: seq<byte>, g: Span, kind: Kind, revision: nat, bits: nat, d: Device) {
    && End(g) <= |data| && DeviceOf(data, g, kind, revision, bits).Got?
    && d == DeviceOf(data, g, kind, revision, bits).rec
  }

  ghost predicate Listed(data: seq<byte>, f: Span, n: nat, kind: Kind, revision: nat, bits: nat, recs: seq<Device>) {
    End(f) <= |data| && recs == DevicesOf(data, f, n, kind, revision, bits).recs
  }

  /** The records of a list: the first one of its field, and those of the rest of the field. */
  lemma ListedInTurn(data: seq<byte>, f: Span, n: nat, kind: Kind, revision: nat, bits: nat, recs: seq<Device>)
      returns (g: Span)
    requires Listed(data, f, n, kind, revision, bits, recs) && recs != []
    ensures n > 0 && FoundAt(data, f, kind, revision, bits, recs[0])
    ensures Listed(data, g, n - 1, kind, revision, bits, recs[1..])
  {
    g := DeviceOf(data, f, kind, revision, bits).field;
  }

  /** Every record of a list is found at the start of some field. */
  lemma {:induction false} DeviceOrigin(data: seq<byte>, f: Span, n: nat, kind: Kind, revision: nat, bits: nat,
                                        recs: seq<Device>, i: nat) returns (g: Span)
    requires Listed(data, f, n, kind, revision, bits, recs) && i < |recs|
    ensures FoundAt(data, g, kind, revision, bits, recs[i])
    decreases n
  {
    var h := ListedInTurn(data, f, n, kind, revision, bits, recs);
    if i == 0 {
      g := f;
    } else {
      g := DeviceOrigin(data, h, n - 1, kind, revision, bits, recs[1..], i - 1);
    }
  }

  lemma {:induction false} ComponentOrigin(data: seq<byte>, f: Span, n: nat, revision: nat, i: nat) returns (g: Span)
    requires End(f) <= |data| && i < |ComponentsOf(data, f, n, revision).recs|
    ensures End(g) <= |data| && ComponentOf(data, g, revision).Got?
    ensures ComponentsOf(data, f, n, revision).recs[i] == ComponentOf(data, g, revision).rec
    decreases f.length
  {
    var r := ComponentOf(data, f, revision);
    g := f;
    if i > 0 {
      assert ComponentsOf(data, f, n, revision).recs ==
             [r.rec] + ComponentsOf(data, r.field, Lowered(n), revision).recs;
      g := ComponentOrigin(data, r.field, Lowered(n), revision, i - 1);
    }
  }

  /** Every device record the loop hands out is filled by its pieces, whether the loop then ends well or not. */
  lemma DevicesAreWhole(data: seq<byte>, f: Span, n: nat, kind: Kind, revision: nat, bits: nat, recs: seq<Device>)
    requires End(f) <= |data| && recs == DevicesOf(data, f, n, kind, revision, bits).recs
    ensures AllWhole(DeviceCuts(recs, kind, revision))
  {
    var cs := DeviceCuts(recs, kind, revision);
    forall i | 0 <= i < |cs| ensures Whole(cs[i]) {
      var g := DeviceOrigin(data, f, n, kind, revision, bits, recs, i);
      DeviceIsWhole(data, g, kind, revision, bits, recs[i], cs[i]);
    }
  }

  /** So is every component record. */
  lemma ComponentsAreWhole(data: seq<byte>, f: Span, n: nat, revision: nat, recs: seq<Component>)
    requires End(f) <= |data| && recs == ComponentsOf(data, f, n, revision).recs
    ensures AllWhole(ComponentCuts(recs, revision))
  {
    var cs := ComponentCuts(recs, revision);
    forall i | 0 <= i < |cs| ensures Whole(cs[i]) {
      var g := ComponentOrigin(data, f, n, revision, i);
      ComponentIsWhole(data, g, revision, recs[i], cs[i]);
    }
  }

  lemma CountThen(start: nat, width: nat, rest: seq<Span>, to: nat)
    requires Tiles(rest, start + width, to)
    ensures Tiles([Span(start, width)] + rest, start, to)
  {
    ExtentsStep([Span(start, width)], rest);
  }

  lemma DevicesInPieces(data: seq<byte>, f: Span, n: nat, kind: Kind, revision: nat, bits: nat)
    requires End(f) <= |data| && DevicesOf(data, f, n, kind, revision, bits).rc == Ok
    ensures var c := DevicesOf(data, f, n, kind, revision, bits);
      Tiles(DeviceExtents(c.recs, revision), f.start, c.field.start) &&
      Tiles(Pieces(DeviceCuts(c.recs, kind, revision)), f.start, c.field.start)
  {
    var c := DevicesOf(data, f, n, kind, revision, bits);
    var cuts := DeviceCuts(c.recs, kind, revision);
    DevicesTile(data, f, n, kind, revision, bits);
    DevicesAreWhole(data, f, n, kind, revision, bits, c.recs);
    DeviceCutExtents(c.recs, kind, revision);
    PiecesTile(cuts, f.start, c.field.start);
  }

  lemma FirmwareTiles(data: seq<byte>, hdr: H.Header, areas: Span)
    requires End(areas) <= |data| && FirmwarePart(data, hdr, areas).rc == Ok
    ensures var c := FirmwarePart(data, hdr, areas);
      && Tiles([Span(areas.start, 1)] + DeviceExtents(c.recs, hdr.revision), areas.start, c.field.start)
      && Tiles([Span(areas.start, 1)] + Pieces(DeviceCuts(c.recs, Firmware, hdr.revision)), areas.start, c.field.start)
  {
    var c := FirmwarePart(data, hdr, areas);
    DevicesInPieces(data, Behind(areas, 1), Number(data, areas.start, U8), Firmware, hdr.revision, hdr.bits);
    CountThen(areas.start, 1, DeviceExtents(c.recs, hdr.revision), c.field.start);
    CountThen(areas.start, 1, Pieces(DeviceCuts(c.recs, Firmware, hdr.revision)), c.field.start);
  }

  /** The count of downstream devices, which revision 1 does not have. */
  function SecondCount(hdr: H.Header, at: nat): seq<Span> { if hdr.revision == 1 then [] else [Span(at, 1)] }

  lemma DownstreamTiles(data: seq<byte>, hdr: H.Header, f: Span)
    requires End(f) <= |data| && DownstreamPart(data, hdr, f).rc == Ok
    ensures var c := DownstreamPart(data, hdr, f);
      && Tiles(SecondCount(hdr, f.start) + DeviceExtents(c.recs, hdr.revision), f.start, c.field.start)
      && Tiles(SecondCount(hdr, f.start) + Pieces(DeviceCuts(c.recs, Downstream, hdr.revision)), f.start, c.field.start)
  {
    var c := DownstreamPart(data, hdr, f);
    if hdr.revision == 1 {
      assert [] + DeviceExtents([], 1) == [] && [] + Pieces(DeviceCuts([], Downstream, 1)) == [];
    } else {
      DevicesInPieces(data, Behind(f, 1), Number(data, f.start, U8), Downstream, hdr.revision, hdr.bits);
      CountThen(f.start, 1, DeviceExtents(c.recs, hdr.revision), c.field.start);
      CountThen(f.start, 1, Pieces(DeviceCuts(c.recs, Downstream, hdr.revision)), c.field.start);
    }
  }

  lemma ComponentsInPieces(data: seq<byte>, f: Span, n: nat, revision: nat)
    requires End(f) <= |data| && ComponentsOf(data, f, n, revision).rc == Ok
    ensures var c := ComponentsOf(data, f, n, revision);
      && |c.recs| == (if n == 0 then SIZE_MAX + 1 else n) && Tiles(ComponentExtents(c.recs), f.start, c.field.start)
      && Tiles(Pieces(ComponentCuts(c.recs, revision)), f.start, c.field.start)
  {
    var c := ComponentsOf(data, f, n, revision);
    ComponentsTile(data, f, n, revision);
    ComponentsAreWhole(data, f, n, revision, c.recs);
    ComponentCutExtents(c.recs, revision);
    PiecesTile(ComponentCuts(c.recs, revision), f.start, c.field.start);
  }

  lemma ThenLeft(start: nat, spans: seq<Span>, left: Span)
    requires Tiles(spans, start + 2, left.start)
    ensures Tiles([Span(start, 2)] + spans + [left], start, End(left))
  {
    CountThen(start, 2, spans, left.start);
    assert [left][1..] == [] && Tiles([left], left.start, End(left));
    TilesConcat([Span(start, 2)] + spans, [left], start, left.start, End(left));
  }

  lemma ComponentPartTiles(data: seq<byte>, hdr: H.Header, f: Span)
    requires End(f) <= |data| <= INTMAX_MAX && ComponentPart(data, hdr, f).rc == Ok
    ensures var c := ComponentPart(data, hdr, f);
      && |c.recs| >= 1 && Tiles([Span(f.start, 2)] + ComponentExtents(c.recs) + [c.field], f.start, End(f))
      && Tiles([Span(f.start, 2)] + Pieces(ComponentCuts(c.recs, hdr.revision)) + [c.field], f.start, End(f))
  {
    var c := ComponentPart(data, hdr, f);
    ComponentsInPieces(data, Behind(f, 2), Number(data, f.start, U16), hdr.revision);
    ThenLeft(f.start, ComponentExtents(c.recs), c.field);
    ThenLeft(f.start, Pieces(ComponentCuts(c.recs, hdr.revision)), c.field);
  }

  /**
   Counts and records in their order, with what is left behind the last component; the records as extents or in pieces.
   */
  function Layout(hdr: H.Header, areas: Span, second: nat, third: nat, left: Span,
                  firmware: seq<Span>, downstream: seq<Span>, components: seq<Span>): seq<Span>
  {
    [Span(areas.start, 1)] + firmware + (SecondCount(hdr, second) + downstream) +
      ([Span(third, 2)] + components + [left])
  }

  function ExtentLayout(p: Parsed, hdr: H.Header, areas: Span, second: nat, third: nat, left: Span): seq<Span> {
    Layout(hdr, areas, second, third, left, DeviceExtents(p.firmware, hdr.revision),
           DeviceExtents(p.downstream, hdr.revision), ComponentExtents(p.components))
  }

  function PieceLayout(p: Parsed, hdr: H.Header, areas: Span, second: nat, third: nat, left: Span): seq<Span> {
    Layout(hdr, areas, second, third, left, Pieces(DeviceCuts(p.firmware, Firmware, hdr.revision)),
           Pieces(DeviceCuts(p.downstream, Downstream, hdr.revision)),
           Pieces(ComponentCuts(p.components, hdr.revision)))
  }

  lemma LayoutTiles(hdr: H.Header, areas: Span, second: nat, third: nat, left: Span,
                                       firmware: seq<Span>, downstream: seq<Span>, components: seq<Span>)
    requires Tiles([Span(areas.start, 1)] + firmware, areas.start, second)
    requires Tiles(SecondCount(hdr, second) + downstream, second, third)
    requires Tiles([Span(third, 2)] + components + [left], third, End(areas))
    ensures Tiles(Layout(hdr, areas, second, third, left, firmware, downstream, components), areas.start, End(areas))
  {
    var a, b := [Span(areas.start, 1)] + firmware, SecondCount(hdr, second) + downstream;
    TilesConcat(a, b, areas.start, second, third);
    TilesConcat(a + b, [Span(third, 2)] + components + [left], areas.start, third, End(areas));
  }

  /**
   When a package parses, the three counts and all records fill its areas without gap or overlap, up to bytes that may
   be left behind the last component; at least one component is found. So do the counts and the pieces of all records.
   */
  lemma PackageTiles(data: seq<byte>, pin: nat) returns (second: nat, third: nat, left: Span)
    requires Parse(data, pin).rc == Ok
    ensures H.Decode(data, pin).Done? && |Parse(data, pin).components| >= 1
    ensures var d := H.Decode(data, pin); var p := Parse(data, pin);
      && Tiles(ExtentLayout(p, d.hdr, d.areas, second, third, left), d.areas.start, End(d.areas))
      && Tiles(PieceLayout(p, d.hdr, d.areas, second, third, left), d.areas.start, End(d.areas))
  {
    H.HeaderIsSound(data, pin);
    var d, p := H.Decode(data, pin), Parse(data, pin);
    second, third, left := RecordsTile(data, d.hdr, d.areas, p);
  }

  lemma RecordsTile(data: seq<byte>, hdr: H.Header, areas: Span, p: Parsed)
      returns (second: nat, third: nat, left: Span)
    requires End(areas) <= |data| <= INTMAX_MAX && p == Records(data, hdr, areas) && p.rc == Ok
    ensures |p.components| >= 1
    ensures Tiles(ExtentLayout(p, hdr, areas, second, third, left), areas.start, End(areas))
    ensures Tiles(PieceLayout(p, hdr, areas, second, third, left), areas.start, End(areas))
  {
    var fw := FirmwarePart(data, hdr, areas);
    var dd := DownstreamPart(data, hdr, fw.field);
    var cs := ComponentPart(data, hdr, dd.field);
    second, third, left := fw.field.start, dd.field.start, cs.field;
    FirmwareTiles(data, hdr, areas);
    DownstreamTiles(data, hdr, fw.field);
    ComponentPartTiles(data, hdr, dd.field);
    var r := hdr.revision;
    LayoutTiles(hdr, areas, second, third, left, DeviceExtents(fw.recs, r), DeviceExtents(dd.recs, r),
                ComponentExtents(cs.recs));
    LayoutTiles(hdr, areas, second, third, left, Pieces(DeviceCuts(fw.recs, Firmware, r)),
                Pieces(DeviceCuts(dd.recs, Downstream, r)),
                Pieces(ComponentCuts(cs.recs, r)));
  }

  lemma NoneIsWhole(kind: Kind, revision: nat)
    ensures AllWhole(DeviceCuts([], kind, revision)) && AllWhole(ComponentCuts([], revision))
  {
  }

  lemma FirmwareIsWhole(data: seq<byte>, hdr: H.Header, areas: Span, recs: seq<Device>)
    requires End(areas) <= |data| && recs == FirmwarePart(data, hdr, areas).recs
    ensures AllWhole(DeviceCuts(recs, Firmware, hdr.revision))
  {
    NoneIsWhole(Firmware, hdr.revision);
    if areas.length >= 1 {
      DevicesAreWhole(data, Behind(areas, 1), Number(data, areas.start, U8), Firmware, hdr.revision, hdr.bits, recs);
    }
  }

  lemma DownstreamIsWhole(data: seq<byte>, hdr: H.Header, f: Span, recs: seq<Device>)
    requires End(f) <= |data| && recs == DownstreamPart(data, hdr, f).recs
    ensures AllWhole(DeviceCuts(recs, Downstream, hdr.revision))
  {
    NoneIsWhole(Downstream, hdr.revision);
    if hdr.revision != 1 && f.length >= 1 {
      DevicesAreWhole(data, Behind(f, 1), Number(data, f.start, U8), Downstream, hdr.revision, hdr.bits, recs);
    }
  }

  lemma ComponentPartIsWhole(data: seq<byte>, hdr: H.Header, f: Span, recs: seq<Component>)
    requires End(f) <= |data| && recs == ComponentPart(data, hdr, f).recs
    ensures AllWhole(ComponentCuts(recs, hdr.revision))
  {
    NoneIsWhole(Firmware, hdr.revision);
    if f.length >= 2 {
      ComponentsAreWhole(data, Behind(f, 2), Number(data, f.start, U16), hdr.revision, recs);
    }
  }

  ghost predicate WholeRecords(p: Parsed, r: nat) {
    AllWhole(DeviceCuts(p.firmware, Firmware, r)) && AllWhole(DeviceCuts(p.downstream, Downstream, r)) &&
      AllWhole(ComponentCuts(p.components, r))
  }

  lemma WalkIsWhole(data: seq<byte>, hdr: H.Header, areas: Span, p: Parsed)
    requires End(areas) <= |data| && p == Records(data, hdr, areas)
    ensures WholeRecords(p, hdr.revision)
  {
    var fw := FirmwarePart(data, hdr, areas);
    var dd := DownstreamPart(data, hdr, fw.field);
    NoneIsWhole(Downstream, hdr.revision);
    FirmwareIsWhole(data, hdr, areas, p.firmware);
    if fw.rc == Ok {
      DownstreamIsWhole(data, hdr, fw.field, p.downstream);
      if dd.rc == Ok {
        ComponentPartIsWhole(data, hdr, dd.field, p.components);
      }
    }
  }

  /** Every record of a walk is filled by its pieces, however the walk ends. */
  lemma RecordsAreWhole(data: seq<byte>, pin: nat)
    requires H.Decode(data, pin).Done?
    ensures WholeRecords(Parse(data, pin), H.Decode(data, pin).hdr.revision)
  {
    H.HeaderIsSound(data, pin);
    var d := H.Decode(data, pin);
    WalkIsWhole(data, d.hdr, d.areas, Parse(data, pin));
  }

  /** One piece of four replaced by what fills it. */
  lemma Refined(a: Span, b: Span, c: Span, d: Span, inside: seq<Span>, to: nat)
    requires Tiles([a, b, c, d], a.start, to) && Tiles(inside, c.start, End(c))
    ensures Tiles([a, b] + inside + [d], a.start, to)
  {
    assert [a, b, c, d][1..] == [b, c, d] && [b, c, d][1..] == [c, d] && [c, d][1..] == [d] && [d][1..] == [];
    assert Tiles([b, c, d], End(a), to) && Tiles([c, d], End(b), to) && Tiles([d], End(c), to);
    assert [a, b][1..] == [b] && [b][1..] == [] && Tiles([b], End(a), c.start);
    TilesConcat([a, b], inside, a.start, c.start, End(c));
    TilesConcat([a, b] + inside, [d], a.start, End(c), to);
  }

  /** The declared size of a header: its fixed part, its version string, what fills its areas, its checksums. */
  ghost predicate CutUp(p: Parsed, hdr: H.Header, areas: Span, size: nat, second: nat, third: nat, left: Span) {
    var sums := H.Checksums(hdr.revision);
    sums <= size && Tiles([Span(0, H.FIXED), hdr.version] +
                          PieceLayout(p, hdr, areas, second, third, left) + [Span(size - sums, sums)], 0, size)
  }

  lemma AreasAreCutUp(p: Parsed, hdr: H.Header, areas: Span, size: nat, second: nat, third: nat, left: Span)
    requires H.HeaderParts(hdr, areas, size)
    requires Tiles(PieceLayout(p, hdr, areas, second, third, left), areas.start, End(areas))
    ensures CutUp(p, hdr, areas, size, second, third, left)
  {
    var sums, inside := H.Checksums(hdr.revision), PieceLayout(p, hdr, areas, second, third, left);
    Refined(Span(0, H.FIXED), hdr.version, areas, Span(size - sums, sums), inside, size);
  }

  /**
   From the first byte to the end of the checksums: the declared size of a package that parses is filled, piece by
   piece.
   */
  lemma PackageIsCutUp(data: seq<byte>, pin: nat) returns (second: nat, third: nat, left: Span)
    requires Parse(data, pin).rc == Ok
    ensures H.Decode(data, pin).Done? && H.FIXED <= |data| && Number(data, 17, U16) <= |data|
    ensures var d := H.Decode(data, pin);
      CutUp(Parse(data, pin), d.hdr, d.areas, Number(data, 17, U16), second, third, left)
  {
    second, third, left := PackageTiles(data, pin);
    H.HeaderTiles(data, pin);
    var d := H.Decode(data, pin);
    AreasAreCutUp(Parse(data, pin), d.hdr, d.areas, Number(data, 17, U16), second, third, left);
  }

  // ---------------------------------------------------------------- a package that parses

  lemma ZeroNumber(data: seq<byte>, i: nat)
    requires i + 4 <= |data| && data[i] == 0 && data[i + 1] == 0 && data[i + 2] == 0 && data[i + 3] == 0
    ensures Number(data, i, U32) == 0
  {
    assert Number(data, i + 3, U32 - 3) == 0;
    assert Number(data, i + 2, U32 - 2) == 0;
    assert Number(data, i + 1, U32 - 1) == 0;
  }

  /**
   The bytes in front of the checksum of a revision 1 package with one component record, an empty image and no strings,
   which announces `count` components.
   */
  ghost predicate Smallest(body: seq<byte>, count: byte) {
    && |body| == 61 && body[..16] == H.Identifier(1) && body[16] == 1 && body[17] == 65 && body[18] == 0
    && body[32] == 0 && body[33] == 0 && body[34] == 1 && body[35] == 0
    && body[36] == 0 && body[37] == count && body[38] == 0
    && body[39] == 0 && body[40] == 0 && body[59] == 1 && body[60] == 0
    && (forall i :: 51 <= i < 59 ==> body[i] == 0)
  }

  lemma SmallestAreas(body: seq<byte>, data: seq<byte>)
    requires |body| == 61 && data == body + Edac.CrcField(body)
    ensures H.HeaderIntact(data, 61)
  {
    Edac.FieldSeals(body);
    assert data[..61] == body && data[61..65] == data[61..];
  }

  /** The fixed part of such a package. */
  ghost predicate SmallestFixed(data: seq<byte>) {
    && |data| == 65 && data[..16] == H.Identifier(1) && Number(data, 16, U8) == 1 && Number(data, 17, U16) == 65
    && Number(data, 32, U16) == 0 && Number(data, 34, U8) == 1 && Number(data, 35, U8) == 0
  }

  lemma SmallestStart(body: seq<byte>, data: seq<byte>, count: byte)
    requires Smallest(body, count) && |data| == 65 && data[..61] == body
    ensures SmallestFixed(data)
  {
    assert data[..16] == body[..16];
    Numbers(data, 16);
    Numbers(data, 17);
    Numbers(data, 32);
    Numbers(data, 34);
    Numbers(data, 35);
  }

  lemma SmallestHeader(data: seq<byte>)
    requires SmallestFixed(data) && H.HeaderIntact(data, 61)
    ensures H.Decode(data, 1) == H.Done(H.Header(1, 0, 1, Span(36, 0)), Span(36, 25))
  {
    assert H.Decode(data, 1) == H.Areas(data, 1, 65, 0);
  }

  lemma SmallestFields(data: seq<byte>, p: nat)
    requires p + 22 <= |data| && data[p] == 0 && data[p + 1] == 0 && data[p + 20] == 1 && data[p + 21] == 0
    requires forall i :: p + 12 <= i < p + 20 ==> data[i] == 0
    ensures var c := FixedFields(data, p);
      c.classification == 0 && c.versionType == 1 && c.version == Span(p + MIN_COMPONENT, 0) && c.image == Span(0, 0)
  {
    Numbers(data, p);
    Numbers(data, p + 20);
    Numbers(data, p + 21);
    ZeroNumber(data, p + 12);
    ZeroNumber(data, p + 16);
  }

  lemma SmallestComponent(data: seq<byte>, f: Span)
    requires End(f) <= |data| && f.length == MIN_COMPONENT
    requires var c := FixedFields(data, f.start);
      c.classification == 0 && c.versionType == 1 && c.version == Span(f.start + MIN_COMPONENT, 0) &&
        c.image == Span(0, 0)
    ensures var r := ComponentOf(data, f, 1); r.Got? && r.field == Span(End(f), 0)
  {
  }

  /** Areas that hold no device record and one component record, and announce `count` components. */
  ghost predicate OneComponent(data: seq<byte>, areas: Span, count: nat) {
    && End(areas) <= |data| && areas.length == 25
    && Number(data, areas.start, U8) == 0 && Number(data, areas.start + 1, U16) == count
    && var r := ComponentOf(data, Span(areas.start + 3, 22), 1); r.Got? && r.field == Span(areas.start + 25, 0)
  }

  lemma SmallestOneComponent(body: seq<byte>, data: seq<byte>, p: nat, count: byte)
    requires Smallest(body, count) && |data| == 65 && data[..61] == body && p == 36
    ensures OneComponent(data, Span(p, 25), count)
  {
    assert forall i :: 0 <= i < 61 ==> data[i] == body[i];
    SmallestFields(data, p + 3);
    SmallestComponent(data, Span(p + 3, 22));
    Numbers(data, p);
    Numbers(data, p + 1);
  }

  /** One record at the end of the field: enough for a count of one, and one too few or too many for any other. */
  lemma LastComponent(data: seq<byte>, f: Span, n: nat, revision: nat)
    requires End(f) <= |data| && ComponentOf(data, f, revision).Got? && ComponentOf(data, f, revision).field.length == 0
    ensures var c := ComponentsOf(data, f, n, revision); |c.recs| == 1 && c.rc == if n == 1 then Ok else Overflow
  {
    if n != 1 {
      var g := ComponentOf(data, f, revision).field;
      assert ComponentOf(data, g, revision) == Refused(Overflow, g);
      assert ComponentsOf(data, g, Lowered(n), revision) == Collected(Overflow, [], g);
    }
  }

  lemma SmallestParts(data: seq<byte>, hdr: H.Header, areas: Span, count: nat)
    requires OneComponent(data, areas, count) && hdr.revision == 1
    ensures var f := Span(areas.start + 1, 24);
      && FirmwarePart(data, hdr, areas) == Collected(Ok, [], f) && DownstreamPart(data, hdr, f) == Collected(Ok, [], f)
      && ComponentPart(data, hdr, f) == ComponentsOf(data, Span(areas.start + 3, 22), count, 1)
  {
  }

  lemma SmallestRecords(data: seq<byte>, hdr: H.Header, areas: Span, count: nat)
    requires OneComponent(data, areas, count) && hdr.revision == 1
    ensures var p := Records(data, hdr, areas); p.rc == (if count == 1 then Ok else Overflow) && |p.components| == 1
  {
    SmallestParts(data, hdr, areas, count);
    LastComponent(data, Span(areas.start + 3, 22), count, 1);
  }

  lemma SmallestWalk(body: seq<byte>, data: seq<byte>, count: byte)
    requires Smallest(body, count) && data == body + Edac.CrcField(body)
    ensures var p := Parse(data, 1); p.rc == (if count == 1 then Ok else Overflow) && |p.components| == 1
  {
    assert |data| == 65 && data[..61] == body;
    var areas := Span(36, 25);
    assert H.Decode(data, 1).Done? && H.Decode(data, 1).areas == areas && H.Decode(data, 1).hdr.revision == 1 by {
      SmallestAreas(body, data);
      SmallestStart(body, data, count);
      SmallestHeader(data);
    }
    SmallestOneComponent(body, data, areas.start, count);
    SmallestRecords(data, H.Decode(data, 1).hdr, areas, count);
  }

  /**
   Such a package, closed by its checksum, parses; so the statements about packages that parse are about something.
   */
  lemma SmallestPackageParses(body: seq<byte>, data: seq<byte>)
    requires Smallest(body, 1) && data == body + Edac.CrcField(body)
    ensures Parse(data, 1).rc == Ok && |Parse(data, 1).components| == 1
  {
    SmallestWalk(body, data, 1);
  }

  /** If it announces no component, the walk hands out the one nobody announced and then reports -EOVERFLOW. */
  lemma ZeroCountPackage(body: seq<byte>, data: seq<byte>)
    requires Smallest(body, 0) && data == body + Edac.CrcField(body)
    ensures Parse(data, 1).rc == Overflow && |Parse(data, 1).components| == 1
  {
    SmallestWalk(body, data, 0);
  }
}
