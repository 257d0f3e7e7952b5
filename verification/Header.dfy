/**
 Models the message header of src/dsp/base.c: packing, unpacking, and which response belongs to which request.
 */
module Header {
  import opened Bytes

  datatype MsgType = Response | Request | AsyncNotify

  datatype Rc = Ok | Inval | NoMsg

  /** struct pldm_header_info. */
  datatype Info = Info(msgType: MsgType, instance: byte, pldmType: byte, command: byte)

  /** The three header bytes: request, datagram, reserved, instance ID; header version, type; command. */
  function RequestBit(h: seq<byte>): bool
    requires |h| >= 3
  {
    h[0] >= 128
  }

  function DatagramBit(h: seq<byte>): bool
    requires |h| >= 3
  {
    h[0] / 64 % 2 == 1
  }

  function Instance(h: seq<byte>): byte
    requires |h| >= 3
  {
    h[0] % 32
  }

  function PldmType(h: seq<byte>): byte
    requires |h| >= 3
  {
    h[1] % 64
  }

  function Command(h: seq<byte>): byte
    requires |h| >= 3
  {
    h[2]
  }

  datatype Packed = Refused(rc: Rc) | Bytes3(h: seq<byte>)

  /** pack_pldm_header_errno. */
  function Pack(i: Info): (p: Packed)
    ensures p.Bytes3? ==> |p.h| == 3
  {
    if i.instance > 31 then Refused(Inval)
    else if i.pldmType > 63 then Refused(NoMsg)
    else Bytes3([(match i.msgType case Response => 0 case Request => 128 case AsyncNotify => 192) + i.instance,
                 i.pldmType, i.command])
  }

  /** unpack_pldm_header_errno. */
  function Unpack(h: seq<byte>): Info
    requires |h| >= 3
  {
    var msgType := if !RequestBit(h) then Response else if DatagramBit(h) then AsyncNotify else Request;
    Info(msgType, Instance(h), PldmType(h), Command(h))
  }

  /** Every header that can be packed is unpacked to what it was packed from, whatever follows it. */
  lemma UnpackPack(i: Info, rest: seq<byte>)
    ensures Pack(i).Bytes3? <==> i.instance <= 31 && i.pldmType <= 63
    ensures Pack(i).Refused? ==> Pack(i).rc == if i.instance > 31 then Inval else NoMsg
    ensures Pack(i).Bytes3? ==> Unpack(Pack(i).h + rest) == i
  {
  }

  /** Request and datagram bit are the two highest; a response has neither, an asynchronous notification both. */
  lemma PackedBits(i: Info)
    requires Pack(i).Bytes3?
    ensures Pack(i).h[1] == i.pldmType && Pack(i).h[2] == i.command
    ensures Pack(i).h[0] == match i.msgType
                            case Response => i.instance
                            case Request => 0x80 + i.instance
                            case AsyncNotify => 0xC0 + i.instance
  {
  }

  /** And packing what was unpacked gives the header back, up to the reserved bits and the version. */
  lemma PackUnpack(h: seq<byte>)
    requires |h| >= 3 && h[0] / 32 % 2 == 0 && h[1] < 64 && (RequestBit(h) || !DatagramBit(h))
    ensures Pack(Unpack(h)) == Bytes3(h[..3])
  {
    assert h[..3] == [h[0], h[1], h[2]];
  }

  /** pldm_msg_hdr_correlate_response. */
  predicate Correlates(req: seq<byte>, resp: seq<byte>)
    requires |req| >= 3 && |resp| >= 3
  {
    Instance(req) == Instance(resp) && RequestBit(req) && !RequestBit(resp) && PldmType(req) == PldmType(resp) &&
      Command(req) == Command(resp)
  }

  /**
   A packed response correlates with a request exactly when it was packed for that request's instance, type and
   command.
   */
  lemma ResponseCorrelates(req: seq<byte>, i: Info, rest: seq<byte>)
    requires |req| >= 3 && Pack(i).Bytes3?
    ensures Correlates(req, Pack(i).h + rest) <==>
            RequestBit(req) && i == Info(Response, Unpack(req).instance, Unpack(req).pldmType, Unpack(req).command)
  {
    UnpackPack(i, rest);
  }
}
