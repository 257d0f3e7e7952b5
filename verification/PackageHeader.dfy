/**
 Models the header of a firmware update package as src/dsp/firmware_update.c decodes it: Table 3 of
 DSP0267 v1.3.0, format revisions 1 to 4.
 */
module PackageHeader {
  import opened Common
  import opened Bytes
  import opened Msgbuf
  import opened PackageRecords
  import Edac

  const FIXED := 36

  /** The package header identifiers of revisions 1 to 4. */
  function Identifier(revision: nat): (id: seq<byte>)
    requires 1 <= revision <= 4
    ensures |id| == 16
  {
    if revision == 1
      then [0xF0, 0x18, 0x87, 0x8C, 0xCB, 0x7D, 0x49, 0x43, 0x98, 0x00, 0xA0, 0x2F, 0x05, 0x9A, 0xCA, 0x02]
    else if revision == 2
      then [0x12, 0x44, 0xd2, 0x64, 0x8d, 0x7d, 0x47, 0x18, 0xa0, 0x30, 0xfc, 0x8a, 0x56, 0x58, 0x7d, 0x5a]
    else if revision == 3
      then [0x31, 0x19, 0xce, 0x2f, 0xe8, 0x0a, 0x4a, 0x99, 0xaf, 0x6d, 0x46, 0xf8, 0xb1, 0x21, 0xf6, 0xbf]
    else [0x7b, 0x29, 0x1c, 0x99, 0x6d, 0xb6, 0x42, 0x08, 0x80, 0x1b, 0x02, 0x02, 0x6e, 0x46, 0x3c, 0x78]
  }

  predicate Known(id: seq<byte>) {
    id == Identifier(1) || id == Identifier(2) || id == Identifier(3) || id == Identifier(4)
  }

  datatype Header = Header(revision: nat, bits: nat, versionType: nat, version: Span)

  /** A failure late in the decoder has already stored the areas. */
  datatype Decoded = Failed(rc: Rc, stored: Option<Span>) | Done(hdr: Header, areas: Span)

  /** Revision 4 adds a checksum of the payload to that of the header. */
  function Checksums(revision: nat): nat { if revision >= 4 then 8 else 4 }

  predicate HeaderIntact(data: seq<byte>, n: nat)
    requires n + 4 <= |data|
  {
    Edac.LeWord(data[n..n + 4]) == Edac.ReferenceCrc32(data[..n])
  }

  predicate PayloadIntact(data: seq<byte>, size: nat)
    requires 4 <= size <= |data|
  {
    Edac.LeWord(data[size - 4..size]) == Edac.ReferenceCrc32(data[size..])
  }

  /** What the decoder makes of a package: the fixed part at its offsets, then the declared sizes. */
  function Decode(data: seq<byte>, pin: nat): Decoded {
    if pin == 0 then Failed(Inval, None)
    else if pin > 4 then Failed(NotSup, None)
    else if |data| < FIXED || |data| > INTMAX_MAX then Failed(Overflow, None)
    else if !Known(data[..16]) then Failed(NotSup, None)
    else if Number(data, 16, U8) < 1 then Failed(Proto, None)
    else if Number(data, 16, U8) > pin || data[..16] != Identifier(Number(data, 16, U8)) then Failed(NotSup, None)
    else if Number(data, 32, U16) % 8 != 0 || !StringTypeOk(Number(data, 34, U8)) then Failed(Proto, None)
    else Areas(data, Number(data, 16, U8), Number(data, 17, U16), Number(data, 35, U8))
  }

  function Areas(data: seq<byte>, revision: nat, size: nat, version: nat): Decoded
    requires |data| >= FIXED
  {
    var sums := Checksums(revision);
    if size < FIXED + 3 + sums || size - sums - FIXED < version || |data| < size - sums then Failed(Overflow, None)
    else
      var areas := Span(FIXED + version, size - sums - FIXED - version);
      if |data| < size then Failed(Overflow, Some(areas))
      else if !HeaderIntact(data, size - sums) then Failed(Unclean, Some(areas))
      else if revision >= 4 && !PayloadIntact(data, size) then Failed(Unclean, Some(areas))
      else Done(Header(revision, Number(data, 32, U16), Number(data, 34, U8), Span(FIXED, version)), areas)
  }

  /** decode_pldm_package_header_info_errno, for a pin of a given revision. */
  method DecodeHeader(data: seq<byte>, pin: nat) returns (r: Decoded)
    ensures r == Decode(data, pin)
  {
    if pin == 0 {
      return Failed(Inval, None);
    }
    if pin > 4 {
      return Failed(NotSup, None);
    }
    if |data| < FIXED || |data| > INTMAX_MAX {
      return Failed(Overflow, None);
    }
    var buf := new Reader(data, 0, |data|);
    var ok, at := buf.Take(16);
    if !Known(data[..16]) {
      return Failed(NotSup, None);
    }
    var revision, size, bits, stringType, version;
    ok, revision := buf.Get(U8);
    if revision < 1 {
      return Failed(Proto, None);
    }
    if revision > pin {
      return Failed(NotSup, None);
    }
    if data[..16] != Identifier(revision) {
      return Failed(NotSup, None);
    }
    ok, size := buf.Get(U16);
    ok, at := buf.Take(13);
    ok, bits := buf.Get(U16);
    if bits % 8 != 0 {
      return Failed(Proto, None);
    }
    ok, stringType := buf.Get(U8);
    if !StringTypeOk(stringType) {
      return Failed(Proto, None);
    }
    ok, version := buf.Get(U8);
    r := DecodeAreas(data, buf, revision, size, bits, stringType, version);
  }

  /** The part behind the fixed header, where accesses are checked late. */
  method DecodeAreas(data: seq<byte>, buf: Reader, revision: nat, size: nat, bits: nat, stringType: nat, version: nat)
    returns (r: Decoded)
    requires buf.Valid() && buf.data == data && buf.start == 0 && buf.end == |data| && buf.asked == FIXED <= |data|
    requires bits == Number(data, 32, U16) && stringType == Number(data, 34, U8)
    modifies buf
    ensures r == Areas(data, revision, size, version)
  {
    var ok, at := buf.Take(version);
    var sums := Checksums(revision);
    if size < FIXED + 3 + sums {
      return Failed(Overflow, None);
    }
    var payload := size - sums;
    if payload - FIXED < version {
      return Failed(Overflow, None);
    }
    var areas;
    ok, areas := buf.Take(payload - FIXED - version);
    if !ok {
      return Failed(Overflow, None);
    }
    var stored := Span(areas, payload - FIXED - version);
    assert stored == Span(FIXED + version, size - sums - FIXED - version);
    ok := TakeChecksums(data, buf, revision);
    if !ok {
      return Failed(Overflow, Some(stored));
    }
    var intact := CheckIntegrity(data, revision, size);
    if !intact {
      return Failed(Unclean, Some(stored));
    }
    return Done(Header(revision, bits, stringType, Span(FIXED, version)), stored);
  }

  /** The checksums and, behind them, the payload, and whether all of the header is there. */
  method TakeChecksums(data: seq<byte>, buf: Reader, revision: nat) returns (ok: bool)
    requires buf.Valid() && buf.data == data && buf.start == 0 && buf.end == |data|
    modifies buf
    ensures ok <==> old(buf.asked) + Checksums(revision) <= |data|
  {
    var at;
    ok, at := buf.Take(4);
    if revision >= 4 {
      ok, at := buf.Take(4);
      var rest, length;
      ok, rest, length := buf.TakeRest();
      if !ok {
        return;
      }
    }
    ok := buf.Complete();
  }

  method CheckIntegrity(data: seq<byte>, revision: nat, size: nat) returns (ok: bool)
    requires Checksums(revision) <= size <= |data|
    ensures ok <==> HeaderIntact(data, size - Checksums(revision)) && (revision >= 4 ==> PayloadIntact(data, size))
  {
    var payload := size - Checksums(revision);
    var v := Edac.Crc32Validate(Edac.LeWord(data[payload..payload + 4]), Some(data), payload);
    if v != Edac.Clean {
      return false;
    }
    if revision < 4 {
      return true;
    }
    v := Edac.Crc32Validate(Edac.LeWord(data[size - 4..size]), Some(data[size..]), |data| - size);
    assert data[size..][..|data| - size] == data[size..];
    return v.Clean?;
  }

  /** Its revision is one the pin reaches, and its areas lie in the package. */
  lemma HeaderIsSound(data: seq<byte>, pin: nat)
    requires Decode(data, pin).Done?
    ensures var d := Decode(data, pin);
      |data| <= INTMAX_MAX && End(d.areas) <= |data| && 1 <= d.hdr.revision <= pin <= 4 && d.hdr.bits % 8 == 0
  {
  }

  /** A decoded package: identifier and revision agree. */
  lemma DecodedRevision(data: seq<byte>, pin: nat)
    requires Decode(data, pin).Done?
    ensures FIXED <= |data| && var r := Number(data, 16, U8); 1 <= r <= 4 && data[..16] == Identifier(r)
  {
  }

  /** And the rest is decided by the declared size. */
  lemma DecodedByAreas(data: seq<byte>, pin: nat)
    requires Decode(data, pin).Done?
    ensures FIXED <= |data|
    ensures Decode(data, pin) == Areas(data, Number(data, 16, U8), Number(data, 17, U16), Number(data, 35, U8))
  {
  }

  /** The declared size of a header, in its four parts. */
  ghost predicate HeaderParts(hdr: Header, areas: Span, size: nat) {
    var sums := Checksums(hdr.revision);
    sums <= size && Tiles([Span(0, FIXED), hdr.version, areas, Span(size - sums, sums)], 0, size)
  }

  lemma AreasTile(data: seq<byte>, revision: nat, size: nat, version: nat)
    requires |data| >= FIXED && Areas(data, revision, size, version).Done?
    ensures var d := Areas(data, revision, size, version); size <= |data| && HeaderParts(d.hdr, d.areas, size)
  {
    var d, sums := Areas(data, revision, size, version), Checksums(revision);
    FourTiles(Span(0, FIXED), d.hdr.version, d.areas, Span(size - sums, sums));
  }

  /** A decoded header is taken up exactly: fixed part, version string, areas and checksums fill the declared size. */
  lemma HeaderTiles(data: seq<byte>, pin: nat)
    requires Decode(data, pin).Done?
    ensures FIXED <= |data|
    ensures var d := Decode(data, pin); var size := Number(data, 17, U16);
      size <= |data| && HeaderParts(d.hdr, d.areas, size)
  {
    DecodedByAreas(data, pin);
    AreasTile(data, Number(data, 16, U8), Number(data, 17, U16), Number(data, 35, U8));
  }

  /** `u` differs from `t`, within the four bytes from k on. */
  ghost predicate ChangedAt(t: seq<byte>, u: seq<byte>, k: nat) {
    |t| == |u| && k + 4 <= |t| && t != u && forall i :: 0 <= i < |t| && !(k <= i < k + 4) ==> t[i] == u[i]
  }

  lemma ChangeBreaksSeal(t: seq<byte>, u: seq<byte>, k: nat)
    requires ChangedAt(t, u, k) && Edac.Sealed(t)
    ensures !Edac.Sealed(u)
  {
    assert t[..k] == u[..k] && t[k + 4..] == u[k + 4..];
    Edac.FourBytesBreakSeal(t, u, k);
  }

  /** No such change turns the identifier of one revision into that of another. */
  lemma ChangeKeepsRevision(t: seq<byte>, u: seq<byte>, k: nat, r: nat, q: nat)
    requires ChangedAt(t, u, k) && |t| >= 16 && 1 <= r <= 4 && 1 <= q <= 4 && t[..16] == Identifier(r) &&
        u[..16] == Identifier(q)
    ensures r == q
  {
    assert t[0] == t[..16][0] && t[15] == t[..16][15] && u[0] == u[..16][0] && u[15] == u[..16][15];
  }

  /** Some byte from `from` up to `to` is not the same. */
  ghost predicate Differ(t: seq<byte>, u: seq<byte>, from: nat, to: nat)
    requires to <= |t| == |u|
  {
    exists i :: from <= i < to && t[i] != u[i]
  }

  lemma ChangeBreaksHeader(t: seq<byte>, u: seq<byte>, k: nat, n: nat)
    requires ChangedAt(t, u, k) && n + 4 <= |t| && HeaderIntact(t, n) && Differ(t, u, 0, n + 4)
    ensures !HeaderIntact(u, n)
  {
    var a, b := t[..n + 4], u[..n + 4];
    assert a[n..] == t[n..n + 4] && b[n..] == u[n..n + 4] && a[..n] == t[..n] && b[..n] == u[..n];
    var m: nat :| m < n + 4 && t[m] != u[m];
    assert a[m] != b[m];
    ChangeBreaksSeal(a, b, if k <= n then k else n);
  }

  lemma SameHeader(t: seq<byte>, u: seq<byte>, n: nat)
    requires n + 4 <= |t| == |u| && !Differ(t, u, 0, n + 4)
    ensures HeaderIntact(t, n) == HeaderIntact(u, n)
  {
    assert t[..n] == u[..n] && t[n..n + 4] == u[n..n + 4];
  }

  /** The payload and, behind it, its checksum, which the package keeps in front of it. */
  function Covered(t: seq<byte>, size: nat): seq<byte>
    requires 4 <= size <= |t|
  {
    t[size..] + t[size - 4..size]
  }

  lemma CoveredIsSealed(t: seq<byte>, size: nat)
    requires 4 <= size <= |t|
    ensures PayloadIntact(t, size) <==> Edac.Sealed(Covered(t, size))
  {
    var a := Covered(t, size);
    assert a[|a| - 4..] == t[size - 4..size] && a[..|a| - 4] == t[size..];
  }

  lemma PayloadChange(t: seq<byte>, u: seq<byte>, k: nat, size: nat)
    requires ChangedAt(t, u, k) && 4 <= size <= |t| && Differ(t, u, size, |t|) && !Differ(t, u, size - 4, size)
    ensures ChangedAt(Covered(t, size), Covered(u, size), if k >= size then k - size else 0)
  {
    var a, b := Covered(t, size), Covered(u, size);
    var m: nat :| size <= m < |t| && t[m] != u[m];
    assert a[m - size] == t[m] && b[m - size] == u[m];
  }

  lemma FieldChange(t: seq<byte>, u: seq<byte>, size: nat)
    requires 4 <= size <= |t| == |u| && !Differ(t, u, size, |t|) && Differ(t, u, size - 4, size)
    ensures ChangedAt(Covered(t, size), Covered(u, size), |t| - size)
  {
    var a, b, p := Covered(t, size), Covered(u, size), |t| - size;
    var m: nat :| size - 4 <= m < size && t[m] != u[m];
    assert a[p + m - (size - 4)] == t[m] && b[p + m - (size - 4)] == u[m];
  }

  lemma ChangeBreaksPayload(t: seq<byte>, u: seq<byte>, j: nat, size: nat)
    requires 4 <= size <= |t| == |u| && PayloadIntact(t, size) && ChangedAt(Covered(t, size), Covered(u, size), j)
    ensures !PayloadIntact(u, size)
  {
    CoveredIsSealed(t, size);
    CoveredIsSealed(u, size);
    ChangeBreaksSeal(Covered(t, size), Covered(u, size), j);
  }

  /** A change behind the header checksum breaks the payload checksum if it is all on one side of where that ends. */
  lemma ChangedPayload(t: seq<byte>, u: seq<byte>, k: nat, size: nat)
    requires ChangedAt(t, u, k) && 4 <= size <= |t| && PayloadIntact(t, size) && !Differ(t, u, 0, size - 4)
    requires !(Differ(t, u, 0, size) && Differ(t, u, size, |t|))
    ensures !PayloadIntact(u, size)
  {
    if Differ(t, u, size, |t|) {
      PayloadChange(t, u, k, size);
      ChangeBreaksPayload(t, u, if k >= size then k - size else 0, size);
    } else {
      ChangeIsInField(t, u, size);
      FieldChange(t, u, size);
      ChangeBreaksPayload(t, u, |t| - size, size);
    }
  }

  lemma ChangeIsInField(t: seq<byte>, u: seq<byte>, size: nat)
    requires 4 <= size <= |t| == |u| && t != u && !Differ(t, u, 0, size - 4) && !Differ(t, u, size, |t|)
    ensures Differ(t, u, size - 4, size)
  {
    var m: nat :| m < |t| && t[m] != u[m];
  }

  lemma AreasExactly(data: seq<byte>, revision: nat, size: nat, version: nat)
    requires |data| >= FIXED
    ensures var sums := Checksums(revision);
      Areas(data, revision, size, version).Done? <==>
        && FIXED + 3 + sums <= size <= |data| && version <= size - sums - FIXED
        && HeaderIntact(data, size - sums) && (revision >= 4 ==> PayloadIntact(data, size))
  {
  }

  /**
   What a changed package must meet to decode again: up to revision 3 its header did not change, under revision 4
   header and payload both did and the payload checksum agrees all the same.
   */
  ghost predicate StillDecodes(data: seq<byte>, other: seq<byte>, r: nat, size: nat)
    requires 4 <= size <= |data| == |other|
  {
    if r < 4 then !Differ(data, other, 0, size)
    else Differ(data, other, 0, size) && Differ(data, other, size, |data|) && PayloadIntact(other, size)
  }

  lemma ChangedHeader(data: seq<byte>, other: seq<byte>, k: nat, r: nat, size: nat)
    requires ChangedAt(data, other, k) && Checksums(r) <= size <= |data| &&
        Differ(data, other, 0, size - Checksums(r) + 4)
    ensures !StillDecodes(data, other, r, size)
  {
    var m: nat :| m < size - Checksums(r) + 4 && data[m] != other[m];
  }

  lemma ChangedBehind(data: seq<byte>, other: seq<byte>, k: nat, r: nat, size: nat)
    requires ChangedAt(data, other, k) && Checksums(r) <= size <= |data|
    requires !Differ(data, other, 0, size - Checksums(r) + 4) && (r >= 4 ==> PayloadIntact(data, size))
    ensures StillDecodes(data, other, r, size) <==> (r >= 4 ==> PayloadIntact(other, size))
  {
    if r >= 4 && !(Differ(data, other, 0, size) && Differ(data, other, size, |data|)) {
      ChangedPayload(data, other, k, size);
    }
  }

  lemma ChangedAreas(data: seq<byte>, other: seq<byte>, k: nat, r: nat, size: nat, v: nat, w: nat)
    requires ChangedAt(data, other, k) && FIXED <= |data| && Areas(data, r, size, v).Done?
    requires data[35] == other[35] ==> v == w
    ensures Checksums(r) <= size <= |data|
    ensures Areas(other, r, size, w).Done? <==> StillDecodes(data, other, r, size)
  {
    AreasExactly(data, r, size, v);
    AreasExactly(other, r, size, w);
    var n := size - Checksums(r);
    if Differ(data, other, 0, n + 4) {
      ChangeBreaksHeader(data, other, k, n);
      ChangedHeader(data, other, k, r, size);
    } else {
      SameHeader(data, other, n);
      ChangedBehind(data, other, k, r, size);
    }
  }

  lemma {:induction false} NumberIsLocal(t: seq<byte>, u: seq<byte>, i: nat, n: nat)
    requires i + n <= |t| == |u| && forall j :: i <= j < i + n ==> t[j] == u[j]
    ensures Number(t, i, n) == Number(u, i, n)
    decreases n
  {
    if n > 0 {
      NumberIsLocal(t, u, i + 1, n - 1);
    }
  }

  lemma SameByte(t: seq<byte>, u: seq<byte>, i: nat)
    requires i < |t| == |u|
    ensures t[i] == u[i] ==> Number(t, i, U8) == Number(u, i, U8)
  {
    if t[i] == u[i] {
      NumberIsLocal(t, u, i, U8);
    }
  }

  lemma SameFixedPart(t: seq<byte>, u: seq<byte>, pin: nat)
    requires FIXED <= |t| == |u| && forall j :: 0 <= j < FIXED ==> t[j] == u[j]
    requires Decode(t, pin).Done?
    ensures Decode(u, pin) == Areas(u, Number(t, 16, U8), Number(t, 17, U16), Number(t, 35, U8))
  {
    assert t[..16] == u[..16];
    NumberIsLocal(t, u, 16, U8);
    NumberIsLocal(t, u, 17, U16);
    NumberIsLocal(t, u, 32, U16);
    NumberIsLocal(t, u, 34, U8);
    NumberIsLocal(t, u, 35, U8);
  }

  lemma StillFixed(data: seq<byte>, other: seq<byte>, k: nat, r: nat, size: nat)
    requires ChangedAt(data, other, k) && FIXED + Checksums(r) <= size <= |data| && StillDecodes(data, other, r, size)
    ensures forall j :: 0 <= j < FIXED ==> data[j] == other[j]
  {
  }

  /** A changed package that decodes has the same revision. */
  lemma ChangedRevision(data: seq<byte>, other: seq<byte>, pin: nat, k: nat)
    requires Decode(data, pin).Done? && Decode(other, pin).Done? && ChangedAt(data, other, k)
    ensures FIXED <= |data| && Number(data, 16, U8) == Number(other, 16, U8)
  {
    DecodedRevision(data, pin);
    DecodedRevision(other, pin);
    ChangeKeepsRevision(data, other, k, Number(data, 16, U8), Number(other, 16, U8));
  }

  lemma ChangedRefused(data: seq<byte>, other: seq<byte>, pin: nat, k: nat, r: nat, size: nat)
    requires Decode(data, pin).Done? && ChangedAt(data, other, k) && FIXED <= |data|
    requires r == Number(data, 16, U8) && size == Number(data, 17, U16) == Number(other, 17, U16)
    requires 4 <= size <= |data| && !StillDecodes(data, other, r, size)
    ensures Decode(other, pin).Failed?
  {
    if Decode(other, pin).Done? {
      var v, w := Number(data, 35, U8), Number(other, 35, U8);
      DecodedByAreas(data, pin);
      DecodedByAreas(other, pin);
      ChangedRevision(data, other, pin, k);
      SameByte(data, other, 35);
      ChangedAreas(data, other, k, r, size, v, w);
    }
  }

  lemma ChangedAccepted(data: seq<byte>, other: seq<byte>, pin: nat, k: nat, r: nat, size: nat)
    requires Decode(data, pin).Done? && ChangedAt(data, other, k) && FIXED <= |data|
    requires r == Number(data, 16, U8) && size == Number(data, 17, U16)
    requires FIXED + Checksums(r) <= size <= |data| && StillDecodes(data, other, r, size)
    ensures Decode(other, pin).Done?
  {
    var v := Number(data, 35, U8);
    DecodedByAreas(data, pin);
    StillFixed(data, other, k, r, size);
    SameFixedPart(data, other, pin);
    ChangedAreas(data, other, k, r, size, v, v);
  }

  lemma DecodedSize(data: seq<byte>, pin: nat)
    requires Decode(data, pin).Done?
    ensures FIXED <= |data| && FIXED + Checksums(Number(data, 16, U8)) <= Number(data, 17, U16) <= |data|
  {
    DecodedByAreas(data, pin);
    AreasExactly(data, Number(data, 16, U8), Number(data, 17, U16), Number(data, 35, U8));
  }

  /** What becomes of a package that is changed within four consecutive bytes, the declared size staying what it was. */
  lemma ChangedPackageExactly(data: seq<byte>, other: seq<byte>, pin: nat, k: nat)
    requires Decode(data, pin).Done? && ChangedAt(data, other, k)
    requires FIXED <= |data| && Number(other, 17, U16) == Number(data, 17, U16)
    ensures 4 <= Number(data, 17, U16) <= |data|
    ensures Decode(other, pin).Done? <==> StillDecodes(data, other, Number(data, 16, U8), Number(data, 17, U16))
  {
    var r, size := Number(data, 16, U8), Number(data, 17, U16);
    DecodedSize(data, pin);
    if StillDecodes(data, other, r, size) {
      ChangedAccepted(data, other, pin, k, r, size);
    } else {
      ChangedRefused(data, other, pin, k, r, size);
    }
  }

  lemma OneSided(data: seq<byte>, other: seq<byte>, k: nat, r: nat, size: nat)
    requires ChangedAt(data, other, k) && 4 <= size <= |data| && (k + 4 <= size || (r >= 4 && size <= k))
    ensures !StillDecodes(data, other, r, size)
  {
    var m: nat :| m < |data| && data[m] != other[m];
  }

  /**
   So a package whose header was changed within four consecutive bytes, either checksum included, is refused as long as
   the declared size stayed what it was; under revision 4 so is one whose payload was so changed.
   */
  lemma ChangedPackageRefused(data: seq<byte>, other: seq<byte>, pin: nat, k: nat)
    requires Decode(data, pin).Done? && ChangedAt(data, other, k)
    requires FIXED <= |data| && Number(other, 17, U16) == Number(data, 17, U16)
    requires var size := Number(data, 17, U16); k + 4 <= size || (Number(data, 16, U8) == 4 && size <= k)
    ensures Decode(other, pin).Failed?
  {
    DecodedSize(data, pin);
    OneSided(data, other, k, Number(data, 16, U8), Number(data, 17, U16));
    ChangedPackageExactly(data, other, pin, k);
  }

  /** The start of a revision 4 package with no version string and three bytes of areas. */
  ghost predicate ShortBody(body: seq<byte>) {
    && |body| == 39 && body[..16] == Identifier(4) && body[16] == 4 && body[17] == 47 && body[18] == 0
    && body[32] == 0 && body[33] == 0 && body[34] == 1 && body[35] == 0
  }

  function Closed(body: seq<byte>, payload: seq<byte>): seq<byte> {
    body + Edac.CrcField(body) + Edac.CrcField(payload) + payload
  }

  lemma ClosedParts(body: seq<byte>, payload: seq<byte>)
    ensures var t, n := Closed(body, payload), |body|;
      && |t| == n + 8 + |payload| && t[..n] == body && t[n..n + 4] == Edac.CrcField(body)
      && t[n + 4..n + 8] == Edac.CrcField(payload) && t[n + 8..] == payload
  {
  }

  lemma ClosedIsIntact(body: seq<byte>, payload: seq<byte>)
    ensures var t, n := Closed(body, payload), |body|; HeaderIntact(t, n) && PayloadIntact(t, n + 8)
  {
    ClosedParts(body, payload);
    Edac.LeRoundTrip(Edac.ReferenceCrc32(body));
    Edac.LeRoundTrip(Edac.ReferenceCrc32(payload));
  }

  ghost predicate ShortFixed(t: seq<byte>) {
    && FIXED <= |t| <= INTMAX_MAX && t[..16] == Identifier(4) && Number(t, 16, U8) == 4 && Number(t, 17, U16) == 47
    && Number(t, 32, U16) == 0 && Number(t, 34, U8) == 1 && Number(t, 35, U8) == 0
  }

  lemma ClosedStart(body: seq<byte>, t: seq<byte>)
    requires ShortBody(body) && 39 <= |t| <= INTMAX_MAX && t[..39] == body
    ensures ShortFixed(t)
  {
    assert t[..16] == body[..16];
    assert forall i :: 0 <= i < 39 ==> t[i] == t[..39][i];
    Numbers(t, 16);
    Numbers(t, 17);
    Numbers(t, 32);
    Numbers(t, 34);
    Numbers(t, 35);
  }

  lemma ShortDecodes(t: seq<byte>)
    requires ShortFixed(t) && 47 <= |t| && HeaderIntact(t, 39) && PayloadIntact(t, 47)
    ensures Decode(t, 4).Done?
  {
    AreasExactly(t, 4, 47, 0);
    assert Decode(t, 4) == Areas(t, 4, 47, 0);
  }

  lemma ClosedDecodes(body: seq<byte>, payload: seq<byte>, t: seq<byte>)
    requires ShortBody(body) && t == Closed(body, payload) && |t| <= INTMAX_MAX
    ensures Decode(t, 4).Done? && Number(t, 17, U16) == 47
  {
    ClosedParts(body, payload);
    ClosedIsIntact(body, payload);
    ClosedStart(body, t);
    ShortDecodes(t);
  }

  lemma ChangedAcross(head: seq<byte>, f: seq<byte>, g: seq<byte>, p: seq<byte>, q: seq<byte>)
    requires |f| == |g| == 4 && |p| == |q| == 2 && f[0] == g[0] && f[1] == g[1] && p[0] != q[0]
    ensures ChangedAt(head + f + p, head + g + q, |head| + 2)
  {
    var t, u, n := head + f + p, head + g + q, |head|;
    assert t[n + 4] == p[0] && u[n + 4] == q[0];
    assert t[n] == f[0] && t[n + 1] == f[1] && u[n] == g[0] && u[n + 1] == g[1];
  }

  /**
   Across the end of the payload checksum four bytes can change unnoticed: what that checksum covers ends elsewhere, so
   this is no burst. Here two bytes of the checksum and both bytes of the payload change.
   */
  lemma ChangeGoesUnnoticed(body: seq<byte>, t: seq<byte>, u: seq<byte>)
    requires ShortBody(body) && t == Closed(body, [0, 0]) && u == Closed(body, [0x61, 0xd8])
    ensures Decode(t, 4).Done? && Decode(u, 4).Done? && ChangedAt(t, u, 45) &&
        Number(t, 17, U16) == Number(u, 17, U16) == 47
  {
    var p, q := [0, 0], [0x61, 0xd8];
    ClosedDecodes(body, p, t);
    ClosedDecodes(body, q, u);
    Edac.HalfAlike(p, q);
    ChangedAcross(body + Edac.CrcField(body), Edac.CrcField(p), Edac.CrcField(q), p, q);
  }

  /** Which pin accepts a package: any that reaches its revision, all with the same result. */
  lemma PinsAgree(data: seq<byte>, pin: nat, newer: nat)
    requires pin <= newer <= 4 && Decode(data, pin).Done?
    ensures Decode(data, newer) == Decode(data, pin)
  {
  }
}
