/**
 Models the staged parser of a firmware update package: struct pldm_package and the iterator functions and
 foreach macros of include/libpldm/firmware_update.h, over the decoders of src/dsp/firmware_update.c.
 */
module Package {
  import opened Bytes
  import opened Msgbuf
  import opened PackageRecords
  import H = PackageHeader

  /** enum pldm_package_parse, in the order in which the stages are reached. */
  datatype Stage = Init | HeaderRead | FirmwareDevices | DownstreamDevices | Components | Complete

  function Rank(s: Stage): nat {
    match s
    case Init => 0
    case HeaderRead => 1
    case FirmwareDevices => 2
    case DownstreamDevices => 3
    case Components => 4
    case Complete => 5
  }

  const SIZE_MAX := 0xFFFF_FFFF_FFFF_FFFF

  // ---------------------------------------------------------------- one call

  /** struct pldm_package. */
  datatype State = State(data: seq<byte>, pin: nat, hdr: H.Header, stage: Stage, areas: Span, field: Span, entries: nat)

  const NO_HEADER := H.Header(0, 0, 0, Span(0, 0))
  const FRESH := State([], 0, NO_HEADER, Init, Span(0, 0), Span(0, 0), 0)

  ghost predicate Sound(s: State) {
    s.stage != Init ==>
      && |s.data| <= INTMAX_MAX && End(s.areas) <= |s.data| && 1 <= s.hdr.revision <= s.pin <= 4
      && (s.stage != HeaderRead ==> End(s.field) == End(s.areas) && s.areas.start <= s.field.start)
      && (s.stage == DownstreamDevices ==> s.pin > 1)
  }

  datatype Result = Result(s: State, rc: Rc)

  function OpenPackage(s: State, data: seq<byte>, pin: nat): (r: Result)
    requires Sound(s)
    ensures Sound(r.s)
  {
    if s.stage != Init then Result(s, Inval)
    else
      match H.Decode(data, pin)
      case Failed(rc, stored) => Result(if stored.Some? then s.(areas := stored.value) else s, rc)
      case Done(hdr, areas) =>
        H.HeaderIsSound(data, pin);
        Result(State(data, pin, hdr, HeaderRead, areas, s.field, s.entries), Ok)
  }

  /** A record count of `width` bytes at the front of the field. */
  function Counted(s: State, width: nat): (r: Result)
    requires Sound(s) && s.stage != Init && s.stage != HeaderRead
    ensures Sound(r.s) && r.s.stage == s.stage
  {
    if s.field.length < width then Result(s, Overflow)
    else Result(s.(field := Span(s.field.start + width, s.field.length - width),
                   entries := Number(s.data, s.field.start, width)), Ok)
  }

  function InitFirmware(s: State): (r: Result)
    requires Sound(s)
    ensures Sound(r.s)
  {
    if s.stage == Init then Result(s, Inval)
    else if s.stage != HeaderRead then Result(s, Proto)
    else Counted(s.(stage := FirmwareDevices, field := s.areas), U8)
  }

  function InitDownstream(s: State): (r: Result)
    requires Sound(s)
    ensures Sound(r.s)
  {
    if s.stage == Init then Result(s, Inval)
    else if s.stage != FirmwareDevices || s.pin == 1 then Result(s, Proto)
    else if s.hdr.revision == 1 then Result(s.(stage := DownstreamDevices, entries := 0), Ok)
    else Counted(s.(stage := DownstreamDevices), U8)
  }

  function InitComponents(s: State): (r: Result)
    requires Sound(s)
    ensures Sound(r.s)
  {
    if s.stage == Init then Result(s, Inval)
    else if s.stage == DownstreamDevices || (s.stage == FirmwareDevices && s.pin == 1 && s.hdr.revision == s.pin) then
      Counted(s.(stage := Components), U16)
    else Result(s, Proto)
  }

  /**
   The iter_next functions. The entry count is a size_t, and the components' one is not tested before it is lowered.
   */
  function Next(s: State): (r: State)
    requires Sound(s)
    ensures Sound(r)
  {
    if s.stage == FirmwareDevices || s.stage == DownstreamDevices
      then s.(entries := if s.entries == 0 then 0 else s.entries - 1)
    else if s.stage == Components then
      var n := if s.entries == 0 then SIZE_MAX else s.entries - 1;
      s.(entries := n, stage := if n == 0 then Complete else Components)
    else s
  }

  function StageOf(kind: Kind): Stage { if kind == Firmware then FirmwareDevices else DownstreamDevices }

  /** The record a decode call would find, in the stage it belongs to. */
  function DeviceHere(s: State, kind: Kind): (r: Step<Device>)
    requires Sound(s) && s.stage == StageOf(kind)
    ensures End(r.field) == End(s.field) && s.field.start <= r.field.start
  {
    DeviceOf(s.data, s.field, kind, s.hdr.revision, s.hdr.bits)
  }

  function TakeDevice(s: State, kind: Kind): (r: Result)
    requires Sound(s)
    ensures Sound(r.s)
  {
    if s.stage != StageOf(kind) then Result(s, Proto)
    else
      var r := DeviceHere(s, kind);
      Result(s.(field := r.field), if r.Got? then Ok else r.rc)
  }

  function ComponentHere(s: State): (r: Step<Component>)
    requires Sound(s) && s.stage == Components
    ensures End(r.field) == End(s.field) && s.field.start <= r.field.start
  {
    ComponentOf(s.data, s.field, s.hdr.revision)
  }

  function TakeComponent(s: State): (r: Result)
    requires Sound(s)
    ensures Sound(r.s)
  {
    if s.stage != Components then Result(s, Proto)
    else
      var r := ComponentHere(s);
      Result(s.(field := r.field), if r.Got? then Ok else r.rc)
  }

  datatype Call = Open(data: seq<byte>, pin: nat) | FirmwareInit | FirmwareDecode | DownstreamInit | DownstreamDecode
                | ComponentsInit | ComponentDecode | Advance

  /** Every call on a package, by its effect. */
  function Perform(s: State, c: Call): (r: Result)
    requires Sound(s)
    ensures Sound(r.s)
  {
    match c
    case Open(data, pin) => OpenPackage(s, data, pin)
    case FirmwareInit => InitFirmware(s)
    case DownstreamInit => InitDownstream(s)
    case ComponentsInit => InitComponents(s)
    case Advance => Result(Next(s), Ok)
    case FirmwareDecode => TakeDevice(s, Firmware)
    case DownstreamDecode => TakeDevice(s, Downstream)
    case ComponentDecode => TakeComponent(s)
  }

  /** The stage in which a call belongs. */
  predicate InOrder(s: State, c: Call) {
    match c
    case Open(_, _) => s.stage == Init
    case FirmwareInit => s.stage == HeaderRead
    case FirmwareDecode => s.stage == FirmwareDevices
    case DownstreamInit => s.stage == FirmwareDevices && s.pin > 1
    case DownstreamDecode => s.stage == DownstreamDevices
    case ComponentsInit => s.stage == DownstreamDevices || (s.stage == FirmwareDevices && s.pin == 1)
    case ComponentDecode => s.stage == Components
    case Advance => true
  }

  /** The iter_init functions. */
  predicate Starts(c: Call) { c.FirmwareInit? || c.DownstreamInit? || c.ComponentsInit? }

  /** A call in its stage leaves the stage as follows; opening may fail. */
  predicate Moves(s: State, c: Call, r: Result) {
    match c
    case Open(_, _) => r.s.stage == if r.rc == Ok then HeaderRead else Init
    case FirmwareInit => r.s.stage == FirmwareDevices
    case DownstreamInit => r.s.stage == DownstreamDevices
    case ComponentsInit => r.s.stage == Components
    case Advance => r.s.stage == if s.stage == Components && s.entries == 1 then Complete else s.stage
    case _ => r.s.stage == s.stage
  }

  /**
   A call in its stage leads to the next one or stays there. One out of order is refused and changes nothing: with
   -EINVAL if the package is not open, or open already, and else with -EPROTO. So no call moves the stage back.
   */
  lemma StageNeverMovesBack(s: State, c: Call)
    requires Sound(s)
    ensures var r := Perform(s, c);
      && (InOrder(s, c) ==> Moves(s, c, r))
      && (!InOrder(s, c) ==> r.s == s && r.rc == if c.Open? || (s.stage == Init && Starts(c)) then Inval else Proto)
      && Rank(s.stage) <= Rank(r.s.stage) <= Rank(s.stage) + 2
      && (s.stage != Init ==> r.s.data == s.data && r.s.hdr == s.hdr && r.s.pin == s.pin)
  {
  }

  /** A count of `width` bytes was read off the front of a field, and the records start behind it. */
  ghost predicate CountRead(data: seq<byte>, f: Span, width: nat, r: Result) {
    if f.length < width then r.rc == Overflow && r.s.field == f
    else
      && r.rc == Ok && r.s.field == Span(f.start + width, f.length - width) && f.start < |data|
      && (width == 1 ==> r.s.entries == data[f.start])
      && (width == 2 ==> f.start + 2 <= |data| && r.s.entries == Word(data[f.start], data[f.start + 1]))
  }

  /** The counts that the iter_init functions read: a byte of devices, a 16-bit word of components. */
  lemma InitReadsCount(s: State, c: Call)
    requires Sound(s) && InOrder(s, c) && Starts(c) && !(c.DownstreamInit? && s.hdr.revision == 1)
    ensures CountRead(s.data, if c.FirmwareInit? then s.areas else s.field, if c.ComponentsInit? then 2 else 1,
                      Perform(s, c))
  {
    Numbers(s.data, if c.FirmwareInit? then s.areas.start else s.field.start);
  }

  function Run(s: State, calls: seq<Call>): (r: State)
    requires Sound(s)
    ensures Sound(r)
    decreases |calls|
  {
    if calls == [] then s else Run(Perform(s, calls[0]).s, calls[1..])
  }

  /**
   Over every run of calls the stage never moves back, and the package and its header stay what they were opened as.
   */
  lemma {:induction false} RunNeverMovesBack(s: State, calls: seq<Call>)
    requires Sound(s)
    ensures var r := Run(s, calls);
      Rank(s.stage) <= Rank(r.stage) && (s.stage != Init ==> r.data == s.data && r.hdr == s.hdr && r.pin == s.pin)
    decreases |calls|
  {
    if calls != [] {
      StageNeverMovesBack(s, calls[0]);
      RunNeverMovesBack(Perform(s, calls[0]).s, calls[1..]);
    }
  }

  // ---------------------------------------------------------------- the code

  class Parser {
    var data: seq<byte>
    var pin: nat
    var hdr: H.Header
    var stage: Stage
    var areas: Span
    var field: Span
    var entries: nat

    ghost function View(): State
      reads this
    {
      State(data, pin, hdr, stage, areas, field, entries)
    }

    constructor ()
      ensures View() == FRESH
    {
      data, pin, hdr, stage := [], 0, NO_HEADER, Init;
      areas, field, entries := Span(0, 0), Span(0, 0), 0;
    }

    /** decode_pldm_firmware_update_package. */
    method OpenData(d: seq<byte>, p: nat) returns (rc: Rc)
      requires Sound(View())
      modifies this
      ensures Result(View(), rc) == OpenPackage(old(View()), d, p)
    {
      if stage != Init {
        return Inval;
      }
      var r := H.DecodeHeader(d, p);
      if r.Failed? {
        areas := if r.stored.Some? then r.stored.value else areas;
        return r.rc;
      }
      data, pin, hdr, areas, stage := d, p, r.hdr, r.areas, HeaderRead;
      return Ok;
    }

    /** The count that each iter_init reads off the front of the field. */
    method ReadCount(width: nat) returns (rc: Rc)
      requires Sound(View()) && stage != Init && stage != HeaderRead && width >= 1
      modifies this`field, this`entries
      ensures Result(View(), rc) == Counted(old(View()), width)
    {
      if field.length < 1 {
        return Overflow;
      }
      var buf := new Reader(data, field.start, field.length);
      var ok, n := buf.Get(width);
      if !ok {
        return Overflow;
      }
      var start, left;
      ok, start, left := buf.TakeRest();
      entries, field := n, Span(start, left);
      return Ok;
    }

    method StartFirmware() returns (rc: Rc)
      requires Sound(View())
      modifies this
      ensures Result(View(), rc) == InitFirmware(old(View()))
    {
      if stage == Init {
        return Inval;
      }
      if stage != HeaderRead {
        return Proto;
      }
      stage, field := FirmwareDevices, areas;
      rc := ReadCount(U8);
    }

    method StartDownstream() returns (rc: Rc)
      requires Sound(View())
      modifies this
      ensures Result(View(), rc) == InitDownstream(old(View()))
    {
      if stage == Init {
        return Inval;
      }
      if stage != FirmwareDevices {
        return Proto;
      }
      if pin == 1 {
        return Proto;
      }
      stage := DownstreamDevices;
      if hdr.revision == 1 {
        entries := 0;
        return Ok;
      }
      rc := ReadCount(U8);
    }

    method StartComponents() returns (rc: Rc)
      requires Sound(View())
      modifies this
      ensures Result(View(), rc) == InitComponents(old(View()))
    {
      if stage == Init {
        return Inval;
      }
      if stage == FirmwareDevices {
        if pin != 1 || hdr.revision != pin {
          return Proto;
        }
      } else if stage != DownstreamDevices {
        return Proto;
      }
      stage := Components;
      rc := ReadCount(U16);
    }

    /** decode_..._device_id_record_from_iter, in either device stage. */
    method DecodeDeviceRecord(kind: Kind) returns (r: Step<Device>)
      requires Sound(View())
      modifies this`field
      ensures Result(View(), if r.Got? then Ok else r.rc) == TakeDevice(old(View()), kind)
      ensures stage == StageOf(kind) ==> r == DeviceHere(old(View()), kind)
    {
      if stage != StageOf(kind) {
        return Refused(Proto, field);
      }
      r := DecodeDevice(data, field, kind, hdr.revision, hdr.bits);
      field := r.field;
    }

    /** decode_pldm_package_component_image_information_from_iter. */
    method DecodeComponentRecord() returns (r: Step<Component>)
      requires Sound(View())
      modifies this`field
      ensures Result(View(), if r.Got? then Ok else r.rc) == TakeComponent(old(View()))
      ensures stage == Components ==> r == ComponentHere(old(View()))
    {
      if stage != Components {
        return Refused(Proto, field);
      }
      r := DecodeComponent(data, field, hdr.revision);
      field := r.field;
    }

    /** The iter_next functions. */
    method Step()
      requires Sound(View())
      modifies this
      ensures View() == Next(old(View()))
    {
      if stage == FirmwareDevices || stage == DownstreamDevices {
        if entries != 0 {
          entries := entries - 1;
        }
      } else if stage == Components {
        entries := if entries == 0 then SIZE_MAX else entries - 1;
        if entries == 0 {
          stage := Complete;
        }
      }
    }
  }
}
