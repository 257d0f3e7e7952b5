/**
 Models the MultipartSend request codec of src/dsp/base.c: section 9.6.4 of DSP0240 v1.2.0.
 */
module Multipart {
  import opened Common
  import opened Bytes
  import opened Msgbuf
  import Header

  datatype Rc = Ok | Inval | Overflow | Proto | NotSup | BadMsg

  /** struct pldm_base_multipart_send_req. */
  datatype Request = Request(pldmType: byte, flag: byte, context: u32, handle: u32, next: u32, offset: u32,
                             length: u32, data: seq<byte>)

  const MIN_BYTES := 26

  const START: byte := 0x01
  const START_AND_END: byte := 0x05

  /** Only the first part of a transfer may say where its section lies. */
  predicate SectionRule(flag: byte, offset: nat, length: nat) {
    flag == START || flag == START_AND_END || (offset == 0 && length == 0)
  }

  predicate Supported(pldmType: byte) { pldmType == 0 || pldmType == 7 }

  /** The 22 bytes in front of the data length. */
  function Prefix(r: Request): (b: seq<byte>)
    ensures |b| == 22
  {
    [r.pldmType, r.flag] + Le32(r.context) + Le32(r.handle) + Le32(r.next) + Le32(r.offset) + Le32(r.length)
  }

  /** The payload; the data length goes into 32 bits, and the checksum is there only with data. */
  function Payload(r: Request, checksum: u32): (b: seq<byte>)
    ensures |b| == MIN_BYTES + if r.data == [] then 0 else |r.data| + 4
  {
    Prefix(r) + Le32(|r.data| % 0x1_0000_0000) + Tail(r, checksum)
  }

  const MULTIPART_SEND: byte := 8

  function MessageHeader(instance: byte): Header.Packed {
    Header.Pack(Header.Info(Header.Request, instance, 0, MULTIPART_SEND))
  }

  /** What a call leaves behind the message header: the payload, or as much of it as was written before an error. */
  function Sent(r: Request, checksum: u32, room: nat): (b: seq<byte>)
    ensures |b| <= room
    ensures |Payload(r, checksum)| <= room <= INTMAX_MAX && SectionRule(r.flag, r.offset, r.length) ==>
              b == Payload(r, checksum)
  {
    var front := Prefix(r) + Le32(|r.data| % 0x1_0000_0000);
    if room < MIN_BYTES || room > INTMAX_MAX then []
    else if !SectionRule(r.flag, r.offset, r.length) then Prefix(r)
    else if r.data == [] then (PayloadParts(r, checksum); front)
    else if room < MIN_BYTES + |r.data| then front
    else if room < MIN_BYTES + |r.data| + 4 then front + r.data
    else (PayloadParts(r, checksum); front + r.data + Le32(checksum))
  }

  /** A message buffer that changed by the header of a MultipartSend request and what follows it, and not elsewhere. */
  ghost predicate Written(was: seq<byte>, now: seq<byte>, instance: nat, payload: seq<byte>) {
    && instance <= 31 && 3 + |payload| <= |was|
    && now == Overlay(was, 0, [0x80 + instance as byte, 0x00, 0x08] + payload)
  }

  /** encode_pldm_base_multipart_send_req. `room` goes in as the room for the payload and comes out as its length. */
  method Encode(instance: byte, r: Request, checksum: u32, msg: array<byte>, room: nat) returns (rc: Rc, used: nat)
    requires 3 + room <= msg.Length
    modifies msg
    ensures rc == if instance > 31 then Inval
                  else if room < 26 || room > 0x7FFF_FFFF_FFFF_FFFF then Overflow
                  else if r.flag != 0x01 && r.flag != 0x05 && (r.offset != 0 || r.length != 0) then Proto
                  else if room < 26 + (if r.data == [] then 0 else |r.data| + 4) then Overflow else Ok
    ensures rc == Ok ==> used == 26 + if r.data == [] then 0 else |r.data| + 4
    ensures rc != Ok ==> used == room
    ensures rc == Inval ==> msg[..] == old(msg[..])
    ensures rc != Inval ==> Written(old(msg[..]), msg[..], instance, Sent(r, checksum, room))
  {
    used := room;
    var packed := MessageHeader(instance);
    if packed.Refused? {
      return Inval, used;
    }
    Blit(msg, 0, packed.h);
    assert packed.h == [0x80 + instance, 0x00, 0x08] == packed.h + [];
    if room < MIN_BYTES || room > INTMAX_MAX {
      return Overflow, used;
    }
    rc, used := WritePayload(r, checksum, msg, room, old(msg[..]), packed.h);
  }

  /** The payload, behind the message header `h` already written over `was`. */
  method WritePayload(r: Request, checksum: u32, msg: array<byte>, room: nat, ghost was: seq<byte>, ghost h: seq<byte>)
    returns (rc: Rc, used: nat)
    requires 3 + room <= msg.Length == |was| && |h| == 3 && msg[..] == Overlay(was, 0, h) &&
        MIN_BYTES <= room <= INTMAX_MAX
    modifies msg
    ensures rc == if !SectionRule(r.flag, r.offset, r.length) then Proto
                  else if room < |Payload(r, checksum)| then Overflow else Ok
    ensures used == if rc == Ok then |Payload(r, checksum)| else room
    ensures msg[..] == Overlay(was, 0, h + Sent(r, checksum, room))
  {
    used := room;
    var buf := new Writer(msg, 3, room, was, h);
    var ok := PutPrefix(buf, r);
    if !SectionRule(r.flag, r.offset, r.length) {
      return Proto, used;
    }
    ok := buf.Put(Le32(|r.data| % 0x1_0000_0000));
    if |r.data| != 0 {
      ok := buf.Put(r.data);
      if !ok {
        return Overflow, used;
      }
      ok := buf.Put(Le32(checksum));
    }
    assert buf.out == Sent(r, checksum, room);
    var n;
    ok, n := buf.CompleteUsed();
    if !ok {
      return Overflow, used;
    }
    return Ok, n;
  }

  lemma PayloadParts(r: Request, checksum: u32)
    ensures r.data == [] ==> Payload(r, checksum) == Prefix(r) + Le32(|r.data| % 0x1_0000_0000)
    ensures r.data != [] ==>
        Payload(r, checksum) == Prefix(r) + Le32(|r.data| % 0x1_0000_0000) + r.data + Le32(checksum)
  {
  }

  method PutPrefix(buf: Writer, r: Request) returns (ok: bool)
    requires buf.Valid() && buf.asked == 0 && buf.out == [] && buf.length >= MIN_BYTES
    modifies buf, buf.data
    ensures buf.Valid() && buf.asked == 22 && buf.out == Prefix(r)
  {
    ok := buf.Put([r.pldmType]);
    ok := buf.Put([r.flag]);
    assert buf.out == [r.pldmType, r.flag];
    ok := buf.Put(Le32(r.context));
    ok := buf.Put(Le32(r.handle));
    ok := buf.Put(Le32(r.next));
    ok := buf.Put(Le32(r.offset));
    ok := buf.Put(Le32(r.length));
  }

  datatype Received = Failed(rc: Rc) | Got(r: Request, checksum: Option<nat>)

  /** What the decoder makes of a payload, by offsets. */
  function Decoded(p: seq<byte>): Received {
    if |p| < MIN_BYTES || |p| > INTMAX_MAX then Failed(Overflow)
    else if !Supported(p[0]) then Failed(NotSup)
    else if !SectionRule(p[1], Number(p, 14, U32), Number(p, 18, U32)) then Failed(Proto)
    else
      var n := Number(p, 22, U32);
      if n == 0 then (if |p| > MIN_BYTES then Failed(BadMsg) else Got(Fields(p, 0), None))
      else if |p| < MIN_BYTES + n + 4 then Failed(Overflow)
      else if |p| > MIN_BYTES + n + 4 then Failed(BadMsg)
      else Got(Fields(p, n), Some(Number(p, MIN_BYTES + n, U32)))
  }

  function Word32(p: seq<byte>, i: nat): u32
    requires i + 4 <= |p|
  {
    NumberFits(p, i, U32);
    Number(p, i, U32)
  }

  function Fields(p: seq<byte>, n: nat): Request
    requires MIN_BYTES + n <= |p|
  {
    Request(p[0], p[1], Word32(p, 2), Word32(p, 6), Word32(p, 10), Word32(p, 14), Word32(p, 18),
            p[MIN_BYTES..MIN_BYTES + n])
  }

  lemma WordAt(p: seq<byte>, i: nat, x: u32)
    requires i + 4 <= |p| && p[i..i + 4] == Le32(x)
    ensures Number(p, i, U32) == x
  {
    assert Pow256(4) == 0x1_0000_0000;
    NumberOfLe(p, i, x, U32);
  }

  lemma FiveWords(t: seq<byte>, a: seq<byte>, b: seq<byte>, c: seq<byte>, d: seq<byte>, e: seq<byte>, rest: seq<byte>)
    requires |t| == 2 && |a| == 4 && |b| == 4 && |c| == 4 && |d| == 4 && |e| == 4
    ensures var p := t + a + b + c + d + e + rest;
      p[0] == t[0] && p[1] == t[1] && p[2..6] == a && p[6..10] == b && p[10..14] == c && p[14..18] == d &&
        p[18..22] == e
  {
  }

  lemma PrefixFields(r: Request, rest: seq<byte>)
    ensures var p := Prefix(r) + rest;
      p[0] == r.pldmType && p[1] == r.flag && Word32(p, 2) == r.context && Word32(p, 6) == r.handle &&
      Word32(p, 10) == r.next && Word32(p, 14) == r.offset && Word32(p, 18) == r.length
  {
    var p := Prefix(r) + rest;
    FiveWords([r.pldmType, r.flag], Le32(r.context), Le32(r.handle), Le32(r.next), Le32(r.offset), Le32(r.length),
              rest);
    WordAt(p, 2, r.context);
    WordAt(p, 6, r.handle);
    WordAt(p, 10, r.next);
    WordAt(p, 14, r.offset);
    WordAt(p, 18, r.length);
  }

  lemma Middle(a: seq<byte>, b: seq<byte>, c: seq<byte>)
    ensures (a + b + c)[|a|..|a| + |b|] == b && a + b + c == a + (b + c)
  {
  }

  function Tail(r: Request, checksum: u32): seq<byte> { if r.data == [] then [] else r.data + Le32(checksum) }

  lemma SmallLength(n: nat)
    requires n < 0x1_0000_0000
    ensures n % 0x1_0000_0000 == n
  {
  }

  lemma Regroup(a: seq<byte>, b: seq<byte>, c: seq<byte>, p: seq<byte>)
    requires p == a + b + c
    ensures p == a + (b + c) && (|a| + |b| <= |p| && p[|a|..|a| + |b|] == b)
  {
  }

  lemma PayloadShape(r: Request, checksum: u32, l: seq<byte>)
    requires |r.data| < 0x1_0000_0000 && l == Le32(|r.data|)
    ensures Payload(r, checksum) == Prefix(r) + (l + Tail(r, checksum))
    ensures Payload(r, checksum) == Prefix(r) + l + Tail(r, checksum)
    ensures Payload(r, checksum)[22..26] == l
  {
    SmallLength(|r.data|);
    Regroup(Prefix(r), l, Tail(r, checksum), Payload(r, checksum));
  }

  lemma PayloadLength(r: Request, checksum: u32)
    requires |r.data| < 0x1_0000_0000
    ensures Number(Payload(r, checksum), 22, U32) == |r.data|
  {
    var l := Le32(|r.data|);
    PayloadShape(r, checksum, l);
    WordAt(Payload(r, checksum), 22, |r.data|);
  }

  lemma PayloadFields(r: Request, checksum: u32)
    requires |r.data| < 0x1_0000_0000
    ensures Fields(Payload(r, checksum), |r.data|) == r
  {
    var l := Le32(|r.data|);
    PayloadShape(r, checksum, l);
    PrefixFields(r, l + Tail(r, checksum));
    DataPart(Prefix(r) + l, r.data, Tail(r, checksum));
  }

  lemma DataPart(front: seq<byte>, data: seq<byte>, tail: seq<byte>)
    requires data <= tail
    ensures (front + tail)[|front|..|front| + |data|] == data
  {
  }

  lemma PayloadChecksum(r: Request, checksum: u32)
    requires r.data != []
    ensures Number(Payload(r, checksum), MIN_BYTES + |r.data|, U32) == checksum
  {
    var p, n := Payload(r, checksum), |r.data|;
    var front := Prefix(r) + Le32(n % 0x1_0000_0000);
    Middle(front, r.data, Le32(checksum));
    Middle(front + r.data, Le32(checksum), []);
    assert front + r.data + Le32(checksum) + [] == p;
    WordAt(p, MIN_BYTES + n, checksum);
  }

  /**
   Whatever the encoder accepts is decoded to the same fields, data and, with data, checksum, for the types the decoder
   supports and data whose length fits its 32-bit field.
   */
  lemma RoundTrip(r: Request, checksum: u32)
    requires SectionRule(r.flag, r.offset, r.length) && |r.data| < 0x1_0000_0000
    ensures Decoded(Payload(r, checksum)) ==
            if Supported(r.pldmType) then Got(r, if r.data == [] then None else Some(checksum)) else Failed(NotSup)
  {
    PayloadFields(r, checksum);
    PayloadLength(r, checksum);
    if r.data != [] {
      PayloadChecksum(r, checksum);
    }
    ByFields(Payload(r, checksum), r);
  }

  lemma ByFields(p: seq<byte>, r: Request)
    requires |p| == MIN_BYTES + (if r.data == [] then 0 else |r.data| + 4) && |p| <= INTMAX_MAX &&
        |r.data| < 0x1_0000_0000
    requires Fields(p, |r.data|) == r && Number(p, 22, U32) == |r.data| && SectionRule(r.flag, r.offset, r.length)
    ensures Decoded(p) == if !Supported(r.pldmType) then Failed(NotSup)
                          else Got(r, if r.data == [] then None else Some(Number(p, MIN_BYTES + |r.data|, U32)))
  {
  }

  /** Where each field of a payload lies. */
  lemma PayloadLayout(r: Request, checksum: u32)
    ensures var p, n := Payload(r, checksum), |r.data|;
      && p[0] == r.pldmType && p[1] == r.flag && Number(p, 2, U32) == r.context && Number(p, 6, U32) == r.handle
      && Number(p, 10, U32) == r.next && Number(p, 14, U32) == r.offset && Number(p, 18, U32) == r.length
      && Number(p, 22, U32) == n % 0x1_0000_0000 && p[26..26 + n] == r.data
      && (n != 0 ==> |p| == 26 + n + 4 && Number(p, 26 + n, U32) == checksum)
  {
    var front, l := Prefix(r), Le32(|r.data| % 0x1_0000_0000);
    Regroup(front, l, Tail(r, checksum), Payload(r, checksum));
    PrefixFields(r, l + Tail(r, checksum));
    WordAt(Payload(r, checksum), 22, |r.data| % 0x1_0000_0000);
    DataPart(front + l, r.data, Tail(r, checksum));
    if r.data != [] {
      PayloadChecksum(r, checksum);
    }
  }

  lemma ZeroWord(p: seq<byte>, i: nat)
    requires i + 4 <= |p|
    ensures Number(p, i, U32) == 0 <==> p[i..i + 4] == [0, 0, 0, 0]
  {
    Digits(p, i);
    assert p[i..i + 4] == [p[i], p[i + 1], p[i + 2], p[i + 3]];
  }

  lemma ZeroWords(p: seq<byte>)
    requires |p| >= 26
    ensures Number(p, 14, U32) == 0 == Number(p, 18, U32) <==> p[14..22] == [0, 0, 0, 0, 0, 0, 0, 0]
  {
    ZeroWord(p, 14);
    ZeroWord(p, 18);
    assert p[14..22] == p[14..18] + p[18..22];
    assert p[14..22] == [0, 0, 0, 0] + [0, 0, 0, 0] <==> p[14..18] == [0, 0, 0, 0] == p[18..22] by {
      assert p[14..18] == p[14..22][..4] && p[18..22] == p[14..22][4..];
    }
  }

  /**
   Which error the decoder reports, by the bytes of the payload: -ENOTSUP for a type that is neither base nor file
   transfer, -EPROTO for a part that is not the first of its transfer but says where a section lies, -EOVERFLOW for a
   payload that ends too soon and -EBADMSG for one that goes on.
   */
  lemma Refusals(p: seq<byte>)
    requires 26 <= |p| <= 0x7FFF_FFFF_FFFF_FFFF
    ensures Decoded(p) == Failed(NotSup) <==> p[0] != 0x00 && p[0] != 0x07
    ensures Decoded(p) == Failed(Proto) <==>
            (p[0] == 0x00 || p[0] == 0x07) && p[1] != 0x01 && p[1] != 0x05 && p[14..22] != [0, 0, 0, 0, 0, 0, 0, 0]
    ensures var n := Number(p, 22, U32);
      Decoded(p).Got? || Decoded(p) in {Failed(NotSup), Failed(Proto)} ||
      (Decoded(p) == if n != 0 && |p| < 30 + n then Failed(Overflow) else Failed(BadMsg))
    ensures var n := Number(p, 22, U32);
      Decoded(p).Got? ==> |p| == if n == 0 then 26 else 30 + n
  {
    ZeroWords(p);
  }

  lemma BytesOfWord(p: seq<byte>, i: nat)
    requires i + 4 <= |p|
    ensures Le32(Word32(p, i)) == p[i..i + 4]
  {
    LeOfNumber(p, i, U32);
  }

  lemma Reassemble(p: seq<byte>)
    requires |p| >= 26
    ensures p == [p[0], p[1]] + p[2..6] + p[6..10] + p[10..14] + p[14..18] + p[18..22] + p[22..26] + p[26..]
  {
  }

  lemma PrefixOf(p: seq<byte>, n: nat)
    requires MIN_BYTES + n <= |p|
    ensures Prefix(Fields(p, n)) == [p[0], p[1]] + p[2..6] + p[6..10] + p[10..14] + p[14..18] + p[18..22]
  {
    BytesOfWord(p, 2);
    BytesOfWord(p, 6);
    BytesOfWord(p, 10);
    BytesOfWord(p, 14);
    BytesOfWord(p, 18);
  }

  lemma TailOf(p: seq<byte>, n: nat, tail: seq<byte>, sum: seq<byte>)
    requires |p| == MIN_BYTES + n + 4 && tail == p[26..] && sum == p[MIN_BYTES + n..MIN_BYTES + n + 4]
    ensures tail == p[MIN_BYTES..MIN_BYTES + n] + sum
  {
  }

  /** And whatever the decoder accepts is exactly what the encoder writes for it: a payload has one reading only. */
  lemma Canonical(p: seq<byte>)
    requires Decoded(p).Got?
    ensures var d := Decoded(p);
      && SectionRule(d.r.flag, d.r.offset, d.r.length) && (d.checksum.Some? ==> d.checksum.value < 0x1_0000_0000)
      && Payload(d.r, if d.checksum.Some? then d.checksum.value else 0) == p
  {
    var d, n := Decoded(p), Number(p, 22, U32);
    NumberFits(p, 22, U32);
    SmallLength(n);
    PrefixOf(p, n);
    BytesOfWord(p, 22);
    Reassemble(p);
    if n > 0 {
      NumberFits(p, MIN_BYTES + n, U32);
      BytesOfWord(p, MIN_BYTES + n);
      TailOf(p, n, p[26..], p[MIN_BYTES + n..MIN_BYTES + n + 4]);
    } else {
      assert p[26..] == [];
    }
  }

  /** decode_pldm_base_multipart_send_req. */
  method Decode(p: seq<byte>) returns (d: Received)
    ensures d == Decoded(p)
    ensures |p| < 26 || |p| > 0x7FFF_FFFF_FFFF_FFFF ==> d == Failed(Overflow)
  {
    if |p| < MIN_BYTES || |p| > INTMAX_MAX {
      return Failed(Overflow);
    }
    var buf := new Reader(p, 0, |p|);
    var ok, t, flag, v, offset, length, n;
    ok, t := buf.Take(1);
    ok, flag := buf.Take(1);
    ok, v := buf.Get(U32);
    ok, v := buf.Get(U32);
    ok, v := buf.Get(U32);
    ok, offset := buf.Get(U32);
    ok, length := buf.Get(U32);
    if !Supported(p[0]) {
      return Failed(NotSup);
    }
    if !SectionRule(p[1], offset, length) {
      return Failed(Proto);
    }
    ok, n := buf.Get(U32);
    var checksum := None;
    if n > 0 {
      var at, sum;
      ok, at := buf.Take(n);
      ok, sum := buf.Get(U32);
      checksum := Some(sum);
    }
    ok := buf.Complete();
    if !ok {
      return Failed(Overflow);
    }
    ok := buf.Consumed();
    if !ok {
      return Failed(BadMsg);
    }
    return Got(Fields(p, n), checksum);
  }
}
