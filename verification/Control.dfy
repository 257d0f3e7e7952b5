/**
 Models src/control.c: the responder for the PLDM control commands, answering from a registry of six slots
 that says which versions and commands each PLDM type supports.
 */
module Control {
  import opened Common
  import opened Bytes
  import Header
  import Edac

  datatype Rc = Ok | Inval | NoMem | NoMsg | Overflow

  const SLOTS := 6

  /**
   struct pldm_type_versions; a slot without versions is unused. Versions are 32-bit words, the last one their CRC.
   */
  datatype Slot = Slot(versions: Option<seq<byte>>, count: byte, commands: Option<seq<byte>>, typ: byte)

  const UNUSED := Slot(None, 0, None, 0)

  // ---------------------------------------------------------------- the registry

  type Registry = seq<Slot>

  /** First slot for a type that has what is asked for, or the number of slots. */
  function FindVersions(r: Registry, typ: byte): (i: nat)
    ensures i <= |r| && (i < |r| ==> r[i].typ == typ && r[i].versions.Some?)
    ensures forall j :: 0 <= j < i ==> !(r[j].typ == typ && r[j].versions.Some?)
  {
    if r == [] || (r[0].typ == typ && r[0].versions.Some?) then 0 else 1 + FindVersions(r[1..], typ)
  }

  function FindCommands(r: Registry, typ: byte): (i: nat)
    ensures i <= |r| && (i < |r| ==> r[i].typ == typ && r[i].versions.Some? && r[i].commands.Some?)
    ensures forall j :: 0 <= j < i ==> !(r[j].typ == typ && r[j].versions.Some? && r[j].commands.Some?)
  {
    if r == [] || (r[0].typ == typ && r[0].versions.Some? && r[0].commands.Some?) then 0
      else 1 + FindCommands(r[1..], typ)
  }

  /** The slot that add_type takes: the first unused one or the type's own, whichever comes first. */
  function SlotFor(r: Registry, typ: byte): (i: nat)
    ensures i <= |r| && (i < |r| ==> r[i].versions.None? || r[i].typ == typ)
    ensures forall j :: 0 <= j < i ==> r[j].versions.Some? && r[j].typ != typ
  {
    if r == [] || r[0].versions.None? || r[0].typ == typ then 0 else 1 + SlotFor(r[1..], typ)
  }

  datatype Added = Added(r: Registry, rc: Rc)

  /** The arguments of one call of pldm_control_add_type; a null pointer is `None`. */
  datatype Entry = Entry(typ: byte, versions: Option<seq<byte>>, count: nat, commands: Option<seq<byte>>)

  /** pldm_control_add_type; the count goes into a uint8_t. */
  function Add(r: Registry, e: Entry): (a: Added)
    ensures |a.r| == |r|
  {
    if e.count < 2 then Added(r, Inval)
    else
      var i := SlotFor(r, e.typ);
      if i == |r| then Added(r, NoMem) else Added(r[i := Slot(e.versions, e.count % 256, e.commands, e.typ)], Ok)
  }

  function AddAll(r: Registry, entries: seq<Entry>): (s: Registry)
    ensures |s| == |r|
    decreases |entries|
  {
    if entries == [] then r else AddAll(Add(r, entries[0]).r, entries[1..])
  }

  /** Used slots come first, with distinct types. */
  ghost predicate Tidy(r: Registry) {
    && (forall i, j :: 0 <= i < j < |r| && r[j].versions.Some? ==> r[i].versions.Some?)
    && (forall i, j :: 0 <= i < j < |r| && r[j].versions.Some? ==> r[i].typ != r[j].typ)
  }

  /** A call that has versions, is refused for its count, or takes a slot with no used one behind it. */
  predicate Harmless(r: Registry, e: Entry) {
    e.versions.Some? || e.count < 2 || forall j :: SlotFor(r, e.typ) < j < |r| ==> r[j].versions.None?
  }

  /** These are exactly the calls that keep the slots tidy. */
  lemma TidyExactlyWhenHarmless(r: Registry, e: Entry)
    requires Tidy(r)
    ensures Tidy(Add(r, e).r) <==> Harmless(r, e)
  {
    var i, s := SlotFor(r, e.typ), Add(r, e).r;
    if i < |r| && r[i].versions.None? {
      assert forall j :: i <= j < |r| ==> r[j].versions.None?;
    }
    if !Harmless(r, e) {
      var j :| i < j < |r| && r[j].versions.Some?;
      assert s[j] == r[j] && s[i].versions.None?;
    }
  }

  lemma {:induction false} AddAllStep(r: Registry, entries: seq<Entry>, n: nat)
    requires n < |entries|
    ensures AddAll(r, entries[..n + 1]) == Add(AddAll(r, entries[..n]), entries[n]).r
    decreases n
  {
    if n > 0 {
      AddAllStep(Add(r, entries[0]).r, entries[1..], n - 1);
      assert entries[..n + 1][1..] == entries[1..][..n] && entries[..n][1..] == entries[1..][..n - 1];
    } else {
      assert entries[..1] == [entries[0]] && entries[..0] == [];
    }
  }

  lemma {:induction false} HarmlessKeepsTidy(r: Registry, entries: seq<Entry>, n: nat)
    requires Tidy(r) && n <= |entries|
    requires forall m :: 0 <= m < n ==> Harmless(AddAll(r, entries[..m]), entries[m])
    ensures Tidy(AddAll(r, entries[..n]))
    decreases n
  {
    if n > 0 {
      HarmlessKeepsTidy(r, entries, n - 1);
      AddAllStep(r, entries, n - 1);
      TidyExactlyWhenHarmless(AddAll(r, entries[..n - 1]), entries[n - 1]);
    }
  }

  /** Over any run of calls the slots are tidy throughout exactly when each call was harmless at its turn. */
  lemma RunTidyExactlyWhenHarmless(r: Registry, entries: seq<Entry>)
    requires Tidy(r)
    ensures (forall n :: 0 <= n <= |entries| ==> Tidy(AddAll(r, entries[..n]))) <==>
            (forall n :: 0 <= n < |entries| ==> Harmless(AddAll(r, entries[..n]), entries[n]))
  {
    if forall n :: 0 <= n < |entries| ==> Harmless(AddAll(r, entries[..n]), entries[n]) {
      forall n | 0 <= n <= |entries| ensures Tidy(AddAll(r, entries[..n])) {
        HarmlessKeepsTidy(r, entries, n);
      }
    } else {
      var n :| 0 <= n < |entries| && !Harmless(AddAll(r, entries[..n]), entries[n]);
      if Tidy(AddAll(r, entries[..n])) {
        AddAllStep(r, entries, n);
        TidyExactlyWhenHarmless(AddAll(r, entries[..n]), entries[n]);
        assert !Tidy(AddAll(r, entries[..n + 1]));
      }
    }
  }

  /** In particular after any calls with versions the used slots form a prefix with distinct types. */
  lemma AddAllKeepsTidy(r: Registry, entries: seq<Entry>)
    requires Tidy(r) && forall n :: 0 <= n < |entries| ==> entries[n].versions.Some?
    ensures Tidy(AddAll(r, entries))
  {
    HarmlessKeepsTidy(r, entries, |entries|);
    assert entries[..|entries|] == entries;
  }

  /** A null versions pointer frees a slot, and the type of a later slot may then be registered a second time. */
  lemma NullVersionsBreakTidy(a: Slot, b: Slot, rest: Registry)
    requires a.versions.Some? && b.versions.Some? && a.typ != b.typ
    ensures var r := Add([a, b] + rest, Entry(a.typ, None, 2, None)).r;
      var s := Add(r, Entry(b.typ, b.versions, 2, b.commands)).r;
      s[0].typ == s[1].typ == b.typ && s[0].versions.Some? && s[1].versions.Some? && !Tidy(r) && !Tidy(s)
  {
    var r := Add([a, b] + rest, Entry(a.typ, None, 2, None)).r;
    assert r[0] == Slot(None, 2, None, a.typ) && r[1] == b;
    var s := Add(r, Entry(b.typ, b.versions, 2, b.commands)).r;
    assert s[0].typ == b.typ && s[1] == b;
  }

  /** Tidy or not: a type added with versions is found with what it was added with, and no other type is affected. */
  lemma AddedIsFound(r: Registry, e: Entry, t: byte)
    requires Add(r, e).rc == Ok && (t == e.typ ==> e.versions.Some?)
    ensures var s := Add(r, e).r; var i := FindVersions(s, t);
      if t == e.typ then i < |s| && s[i] == Slot(e.versions, e.count % 256, e.commands, t)
      else i == FindVersions(r, t) && (i < |s| ==> s[i] == r[i])
  {
    FindVersionsIs(Add(r, e).r, t, if t == e.typ then SlotFor(r, t) else FindVersions(r, t));
  }

  /**
   A type added without versions is gone exactly when no later slot has it, as in a tidy registry; else the older one
   is back.
   */
  lemma {:induction false} RemovedIsGone(r: Registry, e: Entry)
    requires Add(r, e).rc == Ok && e.versions.None?
    ensures FindVersions(Add(r, e).r, e.typ) == |r| <==>
            forall j :: SlotFor(r, e.typ) < j < |r| ==> !(r[j].typ == e.typ && r[j].versions.Some?)
    ensures Tidy(r) ==> FindVersions(Add(r, e).r, e.typ) == |r|
  {
    var s, k := Add(r, e).r, SlotFor(r, e.typ);
    FoundIff(s, e.typ);
    assert forall j :: 0 <= j < |r| ==> s[j] == if j == k then Slot(None, e.count % 256, e.commands, e.typ) else r[j];
  }

  // ---------------------------------------------------------------- answers

  predicate TestBit(x: nat, k: nat) { if k == 0 then x % 2 == 1 else TestBit(x / 2, k - 1) }

  lemma {:induction false} PackedBit(b: seq<bool>, k: nat)
    requires k < |b|
    ensures TestBit(FromBits(b), k) == b[k]
    decreases |b|
  {
    if k > 0 {
      PackedBit(b[1..], k - 1);
    }
  }

  /** bitfield8_t. */
  function PackByte(b: seq<bool>): byte
    requires |b| == 8
  {
    assert Pow2(8) == 256;
    FromBitsBound(b);
    FromBits(b)
  }

  function PackBytes(bits: seq<bool>): (r: seq<byte>)
    requires |bits| % 8 == 0
    ensures |r| == |bits| / 8 && forall j :: 0 <= j < |r| ==> r[j] == PackByte(bits[8 * j..8 * j + 8])
  {
    seq(|bits| / 8, j requires 0 <= j < |bits| / 8 => PackByte(bits[8 * j..8 * j + 8]))
  }

  /** Which types GetPLDMTypes reports. */
  function TypeBits(r: Registry): (bits: seq<bool>)
    ensures |bits| == 64 && forall t :: 0 <= t < 64 ==> bits[t] == (FindVersions(r, t) < |r|)
  {
    seq(64, t requires 0 <= t < 64 => FindVersions(r, t) < |r|)
  }

  datatype Reply = Fail(rc: Rc) | Payload(p: seq<byte>)

  const SUCCESS: byte := 0x00
  const ERROR_INVALID_LENGTH: byte := 0x03
  const ERROR_UNSUPPORTED_PLDM_CMD: byte := 0x05
  const INVALID_TRANSFER_OPERATION_FLAG: byte := 0x81
  const INVALID_PLDM_TYPE: byte := 0x83

  const GET_TID: byte := 2
  const GET_PLDM_VERSION: byte := 3
  const GET_PLDM_TYPES: byte := 4
  const GET_PLDM_COMMANDS: byte := 5

  function Sized(p: seq<byte>, room: nat): (r: Reply)
    ensures r.Payload? ==> |r.p| <= room
  {
    if room < |p| then Fail(Overflow) else Payload(p)
  }

  /** A registry whose buffers are as long as their counts say. */
  ghost predicate Backed(r: Registry) {
    forall i :: 0 <= i < |r| ==>
      (r[i].versions.Some? ==> 4 * r[i].count <= |r[i].versions.value|) &&
        (r[i].commands.Some? ==> |r[i].commands.value| == 32)
  }

  /** A call whose buffers are as long as the code takes them to be. */
  predicate Sound(e: Entry) {
    (e.versions.Some? ==> |e.versions.value| == 4 * e.count) && (e.commands.Some? ==> |e.commands.value| == 32)
  }

  function VersionReply(s: Slot): (p: seq<byte>)
    requires s.versions.Some? && 4 * s.count <= |s.versions.value|
  {
    var n: int := s.count;
    [SUCCESS, 0, 0, 0, 0, 5] + s.versions.value[..4 * n]
  }

  function GetVersion(r: Registry, request: seq<byte>, room: nat): (p: Reply)
    requires Backed(r) && room >= 1
    ensures p.Payload? ==> 1 <= |p.p| <= room
  {
    if |request| != 6 then Payload([ERROR_INVALID_LENGTH])
    else if request[4] != 1 then Payload([INVALID_TRANSFER_OPERATION_FLAG])
    else
      var i := FindVersions(r, request[5]);
      if i == |r| then Payload([INVALID_PLDM_TYPE]) else Sized(VersionReply(r[i]), room)
  }

  function GetTypes(r: Registry, request: seq<byte>, room: nat): (p: Reply)
    requires room >= 1
    ensures p.Payload? ==> 1 <= |p.p| <= room
  {
    if |request| != 0 then Payload([ERROR_INVALID_LENGTH]) else Sized([SUCCESS] + PackBytes(TypeBits(r)), room)
  }

  function GetCommands(r: Registry, request: seq<byte>, room: nat): (p: Reply)
    requires Backed(r) && room >= 1
    ensures p.Payload? ==> 1 <= |p.p| <= room
  {
    if |request| != 5 then Payload([ERROR_INVALID_LENGTH])
    else
      var i := FindCommands(r, request[0]);
      if i == |r| then Payload([INVALID_PLDM_TYPE]) else Sized([SUCCESS] + r[i].commands.value, room)
  }

  function Dispatch(r: Registry, command: byte, request: seq<byte>, room: nat): (p: Reply)
    requires Backed(r) && room >= 1
    ensures p.Payload? ==> 1 <= |p.p| <= room
  {
    if command == GET_TID then (if |request| != 0 then Payload([ERROR_INVALID_LENGTH]) else Sized([SUCCESS, 0], room))
    else if command == GET_PLDM_VERSION then GetVersion(r, request, room)
    else if command == GET_PLDM_TYPES then GetTypes(r, request, room)
    else if command == GET_PLDM_COMMANDS then GetCommands(r, request, room)
    else Payload([ERROR_UNSUPPORTED_PLDM_CMD])
  }

  /** pldm_control_handle_msg: the whole response message, header included. */
  function Answer(r: Registry, req: seq<byte>, respLen: nat): (p: Reply)
    requires Backed(r)
    ensures p.Payload? ==> 4 <= |p.p| <= respLen && |req| >= 3 && Header.Correlates(req, p.p)
  {
    if respLen < 4 || |req| < 3 then Fail(Overflow)
    else
      var hdr := Header.Unpack(req);
      if hdr.pldmType != 0 then Fail(NoMsg)
      else if hdr.msgType != Header.Request then Fail(Inval)
      else
        var body := Dispatch(r, hdr.command, req[3..], respLen - 3);
        if body.Fail? then body
        else Payload(Header.Pack(Header.Info(Header.Response, hdr.instance, 0, hdr.command)).h + body.p)
  }

  /** GetTID and GetPLDMTypes pack the header before they look at the room, so a failure leaves it behind. */
  predicate HeaderFirst(command: byte) { command == GET_TID || command == GET_PLDM_TYPES }

  /** What a call leaves at the start of the response buffer: the response, a header without one, or nothing. */
  function Written(r: Registry, req: seq<byte>, respLen: nat): (w: seq<byte>)
    requires Backed(r)
    ensures |w| <= respLen
    ensures Answer(r, req, respLen).Payload? ==> w == Answer(r, req, respLen).p
    ensures Answer(r, req, respLen).Fail? && w != [] ==>
      |w| == 3 && |req| >= 3 && Header.Correlates(req, w) && Answer(r, req, respLen) == Fail(Overflow) && respLen < 12
  {
    var p := Answer(r, req, respLen);
    if p.Payload? then p.p
    else if respLen < 4 || |req| < 3 then []
    else
      var hdr := Header.Unpack(req);
      if hdr.pldmType == 0 && hdr.msgType == Header.Request && HeaderFirst(hdr.command)
        then [hdr.instance, 0, hdr.command] else []
  }

  lemma ReportedBit(bits: seq<bool>, t: nat)
    requires |bits| == 64 && t < 64
    ensures TestBit(PackBytes(bits)[t / 8], t % 8) == bits[t]
  {
    var b := bits[8 * (t / 8)..8 * (t / 8) + 8];
    PackedBit(b, t % 8);
    assert PackBytes(bits)[t / 8] == PackByte(b) && b[t % 8] == bits[t];
  }

  /** A request for the versions of a type: some transfer handle, the flag for the first part, the type. */
  function AskVersions(handle: seq<byte>, t: byte): seq<byte> { handle + [1, t] }

  lemma TypeIsKnown(r: Registry, t: byte, handle: seq<byte>, room: nat)
    requires Backed(r) && |handle| == 4 && room >= 1
    ensures var version, i := GetVersion(r, AskVersions(handle, t), room), FindVersions(r, t);
      && (version != Payload([INVALID_PLDM_TYPE]) <==> i < |r|)
      && (i < |r| ==> if room < 6 + 4 * r[i].count then version == Fail(Overflow)
                      else version.Payload? && version.p[0] == SUCCESS)
  {
    var request := AskVersions(handle, t);
    assert request[4] == 1 && request[5] == t;
  }

  /**
   GetPLDMTypes, given room for its nine bytes, sets the bit of a type exactly when GetPLDMVersion does not call the
   type invalid; that is when the latter reports versions, if there is room for them.
   */
  lemma TypesAgreeWithVersions(r: Registry, t: byte, handle: seq<byte>, room: nat, versionRoom: nat)
    requires Backed(r) && t < 64 && |handle| == 4 && room >= 1 && versionRoom >= 1
    ensures var types := GetTypes(r, [], room); var version := GetVersion(r, AskVersions(handle, t), versionRoom);
      && (if room < 9 then types == Fail(Overflow) else
            && types.Payload? && |types.p| == 9 && types.p[0] == SUCCESS
            && (TestBit(types.p[1 + t / 8], t % 8) <==> version != Payload([INVALID_PLDM_TYPE])))
      && (version != Payload([INVALID_PLDM_TYPE]) ==>
            var i := FindVersions(r, t);
            && i < |r|
            && (if versionRoom < 6 + 4 * r[i].count then version == Fail(Overflow)
                else version.Payload? && version.p[0] == SUCCESS))
  {
    ReportedBit(TypeBits(r), t);
    TypeIsKnown(r, t, handle, versionRoom);
  }

  /**
   What was registered is what is reported, room permitting: all of a type's version words when fewer than 256 were
   given. The count is kept in a byte, so of 256 or more only the first count % 256 are reported.
   */
  lemma VersionsReported(r: Registry, e: Entry, handle: seq<byte>, room: nat)
    requires Backed(r) && Add(r, e).rc == Ok && Sound(e) && e.versions.Some? && |handle| == 4 && room >= 1
    ensures Backed(Add(r, e).r)
    ensures var reported := 4 * (e.count % 256);
      GetVersion(Add(r, e).r, AskVersions(handle, e.typ), room) ==
      if room < 6 + reported then Fail(Overflow) else Payload([SUCCESS, 0, 0, 0, 0, 5] + e.versions.value[..reported])
  {
    AddedIsFound(r, e, e.typ);
    var request := AskVersions(handle, e.typ);
    assert request[4] == 1 && request[5] == e.typ;
  }

  /** Of 257 version words, the first one is reported and the others are not. */
  lemma CountWraps(handle: seq<byte>, room: nat)
    requires |handle| == 4 && room >= 10
    ensures var e := Entry(5, Some(seq(4 * 257, _ => 7)), 257, None);
      && Add([UNUSED], e).rc == Ok && Sound(e) && Backed(Add([UNUSED], e).r)
      && GetVersion(Add([UNUSED], e).r, AskVersions(handle, 5), room) ==
         Payload([SUCCESS, 0, 0, 0, 0, 5] + [7, 7, 7, 7])
  {
    var e := Entry(5, Some(seq(4 * 257, _ => 7)), 257, None);
    VersionsReported([UNUSED], e, handle, room);
    assert e.versions.value[..4] == [7, 7, 7, 7];
  }

  /** Likewise the commands of a type that has any. */
  lemma CommandsReported(r: Registry, e: Entry, version: seq<byte>, room: nat)
    requires Backed(r) && Add(r, e).rc == Ok && Sound(e) && e.versions.Some? && e.commands.Some? && |version| == 4 &&
        room >= 1
    ensures Backed(Add(r, e).r)
    ensures GetCommands(Add(r, e).r, [e.typ] + version, room) ==
            if room < 33 then Fail(Overflow) else Payload([SUCCESS] + e.commands.value)
  {
    var s := Add(r, e).r;
    AddedIsFound(r, e, e.typ);
    FindCommandsIs(s, e.typ, FindVersions(s, e.typ));
  }

  // ---------------------------------------------------------------- what the bytes of a request ask for

  /** A control request: request bit, no datagram bit, PLDM type 0, and the command. */
  predicate Asks(req: seq<byte>, command: byte) {
    |req| >= 3 && req[0] >= 128 && req[0] / 64 % 2 == 0 && req[1] % 64 == 0 && req[2] == command
  }

  /** The header of the response: the request's instance and command, and no request bit. */
  function Head(req: seq<byte>): seq<byte>
    requires |req| >= 3
  {
    [req[0] % 32, 0, req[2]]
  }

  /** What is registered at setup: version 1.1.0 of the base type and its CRC, and the commands 2 to 5. */
  const BASE_VERSIONS: seq<byte> := [0x00, 0xf0, 0xf1, 0xf1, 0xba, 0xbe, 0x9d, 0x53]
  const BASE := Slot(Some(BASE_VERSIONS), 2, Some([0x3c] + seq(31, _ => 0)), 0)

  lemma AnswerIsDispatched(r: Registry, req: seq<byte>, respLen: nat)
    requires Backed(r) && |req| >= 3 && Asks(req, req[2]) && respLen >= 4
    ensures var body := Dispatch(r, req[2], req[3..], respLen - 3);
      Answer(r, req, respLen) == if body.Fail? then body else Payload(Head(req) + body.p)
  {
  }

  /** What is not a control request gets no response. */
  lemma NotAnswered(r: Registry, req: seq<byte>, respLen: nat)
    requires Backed(r)
    ensures respLen < 4 || |req| < 3 ==> Answer(r, req, respLen) == Fail(Overflow)
    ensures respLen >= 4 && |req| >= 3 && req[1] % 64 != 0 ==> Answer(r, req, respLen) == Fail(NoMsg)
    ensures respLen >= 4 && |req| >= 3 && req[1] % 64 == 0 && (req[0] < 128 || req[0] / 64 % 2 == 1) ==>
              Answer(r, req, respLen) == Fail(Inval)
  {
  }

  /** GetTID: the unassigned terminus. */
  lemma TidAnswered(r: Registry, req: seq<byte>, respLen: nat)
    requires Backed(r) && Asks(req, 0x02) && respLen >= 4
    ensures Answer(r, req, respLen) ==
            if |req| != 3 then Payload(Head(req) + [0x03])
            else if respLen < 5 then Fail(Overflow) else Payload(Head(req) + [0x00, 0x00])
  {
    AnswerIsDispatched(r, req, respLen);
  }

  /** GetPLDMVersion of a type registered with versions: all of them, as far as the count goes in a byte. */
  lemma VersionsAnswered(r: Registry, e: Entry, req: seq<byte>, respLen: nat)
    requires Backed(r) && Add(r, e).rc == Ok && Sound(e) && e.versions.Some? && respLen >= 4
    requires Asks(req, 0x03) && |req| == 9 && req[7] == 0x01 && req[8] == e.typ
    ensures Backed(Add(r, e).r)
    ensures var n := 4 * (e.count % 256);
      Answer(Add(r, e).r, req, respLen) ==
      if respLen < 9 + n then Fail(Overflow)
      else Payload(Head(req) + ([0x00, 0, 0, 0, 0, 0x05] + e.versions.value[..n]))
  {
    VersionsReported(r, e, req[3..7], respLen - 3);
    AnswerIsDispatched(Add(r, e).r, req, respLen);
    assert AskVersions(req[3..7], e.typ) == req[3..];
  }

  /** A request of the wrong length, for another part than the first, or for a type without versions. */
  lemma VersionsRefused(r: Registry, req: seq<byte>, respLen: nat)
    requires Backed(r) && Asks(req, 0x03) && respLen >= 4
    ensures |req| != 9 ==> Answer(r, req, respLen) == Payload(Head(req) + [0x03])
    ensures |req| == 9 && req[7] != 0x01 ==> Answer(r, req, respLen) == Payload(Head(req) + [0x81])
    ensures |req| == 9 && req[7] == 0x01 && !(exists j :: 0 <= j < |r| && r[j].typ == req[8] && r[j].versions.Some?) ==>
              Answer(r, req, respLen) == Payload(Head(req) + [0x83])
  {
    AnswerIsDispatched(r, req, respLen);
  }

  /** GetPLDMTypes: bit t of the 64 is set exactly when some slot has versions for type t. */
  lemma TypesAnswered(r: Registry, req: seq<byte>, respLen: nat, t: byte)
    requires Backed(r) && Asks(req, 0x04) && respLen >= 4 && t < 64
    ensures var a := Answer(r, req, respLen);
      if |req| != 3 then a == Payload(Head(req) + [0x03])
      else if respLen < 12 then a == Fail(Overflow)
      else
        && a.Payload? && |a.p| == 12 && a.p[..3] == Head(req) && a.p[3] == 0x00 && Pow2(t % 8) > 0
        && (a.p[4 + t / 8] / Pow2(t % 8) % 2 == 1 <==> exists j :: 0 <= j < |r| && r[j].typ == t && r[j].versions.Some?)
  {
    AnswerIsDispatched(r, req, respLen);
    if |req| == 3 && respLen >= 12 {
      var bytes := PackBytes(TypeBits(r));
      ReportedBit(TypeBits(r), t);
      TestBitIsDigit(bytes[t / 8], t % 8);
      FoundIff(r, t);
      assert Answer(r, req, respLen).p == Head(req) + ([SUCCESS] + bytes);
    }
  }

  /** GetPLDMCommands of a type registered with versions and commands. */
  lemma CommandsAnswered(r: Registry, e: Entry, req: seq<byte>, respLen: nat)
    requires Backed(r) && Add(r, e).rc == Ok && Sound(e) && e.versions.Some? && e.commands.Some? && respLen >= 4
    requires Asks(req, 0x05) && |req| == 8 && req[3] == e.typ
    ensures Backed(Add(r, e).r)
    ensures Answer(Add(r, e).r, req, respLen) ==
            if respLen < 36 then Fail(Overflow) else Payload(Head(req) + ([0x00] + e.commands.value))
  {
    CommandsReported(r, e, req[4..8], respLen - 3);
    AnswerIsDispatched(Add(r, e).r, req, respLen);
    assert [e.typ] + req[4..8] == req[3..];
  }

  lemma CommandsRefused(r: Registry, req: seq<byte>, respLen: nat)
    requires Backed(r) && Asks(req, 0x05) && respLen >= 4
    ensures |req| != 8 ==> Answer(r, req, respLen) == Payload(Head(req) + [0x03])
    ensures |req| == 8 &&
            !(exists j :: 0 <= j < |r| && r[j].typ == req[3] && r[j].versions.Some? && r[j].commands.Some?) ==>
              Answer(r, req, respLen) == Payload(Head(req) + [0x83])
  {
    AnswerIsDispatched(r, req, respLen);
  }

  /** Any other command is called unsupported. */
  lemma OthersAnswered(r: Registry, req: seq<byte>, respLen: nat)
    requires Backed(r) && |req| >= 3 && Asks(req, req[2]) && !(0x02 <= req[2] <= 0x05) && respLen >= 4
    ensures Answer(r, req, respLen) == Payload(Head(req) + [0x05])
  {
    AnswerIsDispatched(r, req, respLen);
  }

  const AT_SETUP: Registry := [BASE] + seq(5, _ => UNUSED)

  /**
   What a responder answers right after setup: version 1.1.0 and its CRC for the base type, no other type, and the four
   commands.
   */
  lemma SetupAnswers(req: seq<byte>, respLen: nat)
    requires respLen >= 36
    ensures Backed(AT_SETUP)
    ensures Asks(req, 0x03) && |req| == 9 && req[7] == 1 ==>
      Answer(AT_SETUP, req, respLen) ==
      Payload(Head(req) + if req[8] == 0 then [0x00, 0, 0, 0, 0, 0x05, 0x00, 0xf0, 0xf1, 0xf1, 0xba, 0xbe, 0x9d, 0x53]
                          else [0x83])
    ensures Asks(req, 0x05) && |req| == 8 ==>
      Answer(AT_SETUP, req, respLen) ==
      Payload(Head(req) + if req[3] == 0 then [0x00, 0x3c] + seq(31, _ => 0) else [0x83])
  {
    var e := Entry(0, Some(BASE_VERSIONS), 2, Some([0x3c] + seq(31, _ => 0)));
    var empty := seq(6, _ => UNUSED);
    assert SlotFor(empty, 0) == 0 && Add(empty, e).r == AT_SETUP;
    if Asks(req, 0x03) && |req| == 9 && req[7] == 1 {
      if req[8] == 0 {
        VersionsAnswered(empty, e, req, respLen);
        assert BASE_VERSIONS[..8] == BASE_VERSIONS;
      } else {
        VersionsRefused(AT_SETUP, req, respLen);
      }
    }
    if Asks(req, 0x05) && |req| == 8 {
      if req[3] == 0 {
        CommandsAnswered(empty, e, req, respLen);
        assert [0x00] + ([0x3c] + seq(31, _ => 0)) == [0x00, 0x3c] + seq(31, _ => 0);
      } else {
        CommandsRefused(AT_SETUP, req, respLen);
      }
    }
  }

  /** The word behind the version is its CRC-32. */
  lemma SetupVersionIsSealed()
    ensures |BASE_VERSIONS| == 8 && Edac.Sealed(BASE_VERSIONS)
  {
    Edac.VersionIsSealed();
  }

  /** A response that does not fit: GetTID and GetPLDMTypes have written its header by then, the others nothing. */
  lemma WrittenOnFailure(r: Registry, req: seq<byte>, respLen: nat)
    requires Backed(r) && Answer(r, req, respLen).Fail?
    ensures Written(r, req, respLen) ==
            if respLen >= 4 && (Asks(req, 0x02) || Asks(req, 0x04)) then Head(req) else []
  {
  }

  lemma HalvesOf(x: nat, p: nat)
    requires p > 0
    ensures x / 2 / p == x / (2 * p)
  {
    var q := x / 2 / p;
    assert x / 2 == q * p + x / 2 % p;
    assert x == q * (2 * p) + (2 * (x / 2 % p) + x % 2);
    QuotientIs(x, 2 * p, q, 2 * (x / 2 % p) + x % 2);
  }

  lemma QuotientIs(x: nat, s: nat, q: nat, r: nat)
    requires s > 0 && x == q * s + r && r < s
    ensures x / s == q
  {
    var d := x / s - q;
    assert d * s == x / s * s - q * s == r - x % s;
    AtLeastOnce(d, s);
  }

  /** Bit k of a number is its k-th binary digit. */
  lemma {:induction false} TestBitIsDigit(x: nat, k: nat)
    ensures Pow2(k) > 0 && (TestBit(x, k) <==> x / Pow2(k) % 2 == 1)
    decreases k
  {
    if k > 0 {
      TestBitIsDigit(x / 2, k - 1);
      HalvesOf(x, Pow2(k - 1));
    }
  }

  // ---------------------------------------------------------------- the code

  class Responder {
    const types: array<Slot>

    ghost predicate Valid()
      reads types
    {
      types.Length == SLOTS && Backed(types[..])
    }

    /** pldm_control_setup. */
    constructor ()
      ensures Valid() && fresh(types) && Tidy(types[..]) && FindVersions(types[..], 0) == 0
      ensures types[..] == AT_SETUP
    {
      types := new Slot[SLOTS](_ => UNUSED);
      new;
      var versions := BASE_VERSIONS;
      var commands := [0x3c] + seq(31, _ => 0);
      ghost var empty := types[..];
      var rc := AddType(Entry(0, Some(versions), 2, Some(commands)));
      assert SlotFor(empty, 0) == 0;
      TidyExactlyWhenHarmless(empty, Entry(0, Some(versions), 2, Some(commands)));
    }

    /** pldm_control_add_type. */
    method AddType(e: Entry) returns (rc: Rc)
      requires Valid() && Sound(e)
      modifies types
      ensures Valid() && Added(types[..], rc) == Add(old(types[..]), e)
      ensures rc == Inval <==> e.count < 2
      ensures rc == NoMem <==> e.count >= 2 && forall j :: 0 <= j < SLOTS ==>
        old(types[j]).versions.Some? && old(types[j]).typ != e.typ
      ensures rc == Ok || rc == Inval || rc == NoMem
    {
      if e.count < 2 {
        return Inval;
      }
      var i := 0;
      while i < SLOTS
        invariant 0 <= i <= SLOTS && types[..] == old(types[..])
        invariant forall j :: 0 <= j < i ==> types[j].versions.Some? && types[j].typ != e.typ
      {
        if types[i].versions.None? || types[i].typ == e.typ {
          break;
        }
        i := i + 1;
      }
      SlotForIs(types[..], e.typ, i);
      if i == SLOTS {
        return NoMem;
      }
      types[i] := Slot(e.versions, e.count % 256, e.commands, e.typ);
      return Ok;
    }

    method LookUp(typ: byte) returns (i: nat)
      requires Valid()
      ensures i == FindVersions(types[..], typ)
    {
      i := 0;
      while i < SLOTS
        invariant 0 <= i <= SLOTS && forall j :: 0 <= j < i ==> !(types[j].typ == typ && types[j].versions.Some?)
      {
        if types[i].typ == typ && types[i].versions.Some? {
          break;
        }
        i := i + 1;
      }
      FindVersionsIs(types[..], typ, i);
    }

    method LookUpCommands(typ: byte) returns (i: nat)
      requires Valid()
      ensures i == FindCommands(types[..], typ)
    {
      i := 0;
      while i < SLOTS
        invariant 0 <= i <= SLOTS
        invariant forall j :: 0 <= j < i ==>
            !(types[j].typ == typ && types[j].versions.Some? && types[j].commands.Some?)
      {
        if types[i].typ == typ && types[i].versions.Some? && types[i].commands.Some? {
          break;
        }
        i := i + 1;
      }
      FindCommandsIs(types[..], typ, i);
    }

    /** The loop of pldm_control_get_types: one bit a used slot. */
    method CollectTypes() returns (bits: seq<bool>)
      requires Valid()
      ensures bits == TypeBits(types[..])
    {
      bits := seq(64, _ => false);
      var i := 0;
      while i < SLOTS
        invariant 0 <= i <= SLOTS && |bits| == 64
        invariant forall t :: 0 <= t < 64 ==>
            (bits[t] <==> exists j :: 0 <= j < i && types[j].typ == t && types[j].versions.Some?)
      {
        var ty := types[i].typ;
        if ty < 64 && types[i].versions.Some? {
          bits := bits[ty := true];
        }
        i := i + 1;
      }
      forall t | 0 <= t < 64 ensures bits[t] == TypeBits(types[..])[t] {
        FoundIff(types[..], t);
      }
    }

    method HandleCommand(command: byte, request: seq<byte>, room: nat) returns (p: Reply)
      requires Valid() && room >= 1
      ensures p == Dispatch(types[..], command, request, room)
    {
      if command == GET_TID {
        return if |request| != 0 then Payload([ERROR_INVALID_LENGTH]) else Sized([SUCCESS, 0], room);
      }
      if command == GET_PLDM_VERSION {
        if |request| != 6 {
          return Payload([ERROR_INVALID_LENGTH]);
        }
        if request[4] != 1 {
          return Payload([INVALID_TRANSFER_OPERATION_FLAG]);
        }
        var i := LookUp(request[5]);
        return if i == SLOTS then Payload([INVALID_PLDM_TYPE]) else Sized(VersionReply(types[i]), room);
      }
      if command == GET_PLDM_TYPES {
        if |request| != 0 {
          return Payload([ERROR_INVALID_LENGTH]);
        }
        var bits := CollectTypes();
        return Sized([SUCCESS] + PackBytes(bits), room);
      }
      if command == GET_PLDM_COMMANDS {
        if |request| != 5 {
          return Payload([ERROR_INVALID_LENGTH]);
        }
        var i := LookUpCommands(request[0]);
        return if i == SLOTS then Payload([INVALID_PLDM_TYPE]) else Sized([SUCCESS] + types[i].commands.value, room);
      }
      return Payload([ERROR_UNSUPPORTED_PLDM_CMD]);
    }

    /** pldm_control_handle_msg; `respLen` goes in as the room in `resp` and comes out as the length of the response. */
    method HandleMsg(req: seq<byte>, resp: array<byte>, respLen: nat) returns (rc: Rc, length: nat)
      requires Valid() && respLen <= resp.Length
      modifies resp
      ensures var p := Answer(types[..], req, respLen);
        if p.Fail? then rc == p.rc && length == respLen else rc == Ok && length == |p.p|
      ensures resp[..] == Overlay(old(resp[..]), 0, Written(types[..], req, respLen))
    {
      length := respLen;
      if respLen < 4 || |req| < 3 {
        return Overflow, length;
      }
      var hdr := Header.Unpack(req);
      if hdr.pldmType != 0 {
        return NoMsg, length;
      }
      if hdr.msgType != Header.Request {
        return Inval, length;
      }
      var body := HandleCommand(hdr.command, req[3..], respLen - 3);
      if body.Fail? {
        if HeaderFirst(hdr.command) {
          Blit(resp, 0, [hdr.instance, 0, hdr.command]);
        }
        return body.rc, length;
      }
      var reply := [hdr.instance, 0, hdr.command] + body.p;
      Blit(resp, 0, reply);
      return Ok, |reply|;
    }
  }

  lemma SlotForIs(r: Registry, typ: byte, i: nat)
    requires i <= |r| && (forall j :: 0 <= j < i ==> r[j].versions.Some? && r[j].typ != typ)
    requires i < |r| ==> r[i].versions.None? || r[i].typ == typ
    ensures SlotFor(r, typ) == i
  {
  }

  lemma FindVersionsIs(r: Registry, typ: byte, i: nat)
    requires i <= |r| && (forall j :: 0 <= j < i ==> !(r[j].typ == typ && r[j].versions.Some?))
    requires i < |r| ==> r[i].typ == typ && r[i].versions.Some?
    ensures FindVersions(r, typ) == i
  {
  }

  lemma FindCommandsIs(r: Registry, typ: byte, i: nat)
    requires i <= |r| && (forall j :: 0 <= j < i ==> !(r[j].typ == typ && r[j].versions.Some? && r[j].commands.Some?))
    requires i < |r| ==> r[i].typ == typ && r[i].versions.Some? && r[i].commands.Some?
    ensures FindCommands(r, typ) == i
  {
  }

  lemma FoundIff(r: Registry, typ: byte)
    ensures FindVersions(r, typ) < |r| <==> exists j :: 0 <= j < |r| && r[j].typ == typ && r[j].versions.Some?
  {
  }
}
