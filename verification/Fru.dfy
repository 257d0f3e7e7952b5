/**
 Models what the FRU table functions of src/dsp/fru.c mean for a table of records: building one record by
 record, and selecting from it. The byte scan is proved to be a filter on the list of records.
 */
module Fru {
  import opened Common
  import opened Bytes
  import opened FruScan

  // ---------------------------------------------------------------- records

  datatype Field = Field(typ: byte, value: seq<byte>)

  datatype Record = Record(rsi: u16, rt: byte, encoding: byte, fields: seq<Field>)

  /** Lengths and counts are single bytes in the table. */
  predicate FieldsFit(fs: seq<Field>) { fs == [] || (|fs[0].value| < 256 && FieldsFit(fs[1..])) }

  predicate Fits(r: Record) { |r.fields| < 256 && FieldsFit(r.fields) }

  predicate AllFit(rs: seq<Record>) { rs == [] || (Fits(rs[0]) && AllFit(rs[1..])) }

  function EncodeField(f: Field): (b: seq<byte>)
    ensures |b| == 2 + |f.value|
  {
    [f.typ, |f.value| % 256] + f.value
  }

  function EncodeFields(fs: seq<Field>): seq<byte> {
    if fs == [] then [] else EncodeField(fs[0]) + EncodeFields(fs[1..])
  }

  function RecordHeader(r: Record): (b: seq<byte>)
    ensures |b| == 5
  {
    HeaderBytes(r.rsi, r.rt, |r.fields| % 256, r.encoding)
  }

  function Encode(r: Record): seq<byte> { RecordHeader(r) + EncodeFields(r.fields) }

  function EncodeAll(rs: seq<Record>): seq<byte> {
    if rs == [] then [] else Encode(rs[0]) + EncodeAll(rs[1..])
  }

  // ---------------------------------------------------------------- the filter

  predicate Wanted(f: Field, ft: byte) { f.typ == ft || ft == 0 }

  predicate Selected(r: Record, q: Query) { (q.rsi == 0 || r.rsi == q.rsi) && (q.rt == 0 || r.rt == q.rt) }

  function KeepFields(fs: seq<Field>, ft: byte): (k: seq<Field>)
    ensures |k| <= |fs|
  {
    if fs == [] then [] else if Wanted(fs[0], ft) then [fs[0]] + KeepFields(fs[1..], ft) else KeepFields(fs[1..], ft)
  }

  function Keep(r: Record, ft: byte): Record { r.(fields := KeepFields(r.fields, ft)) }

  /** A selected record is kept even when none of its fields is. */
  function Filter(rs: seq<Record>, q: Query): seq<Record> {
    if rs == [] then []
    else if Selected(rs[0], q) then [Keep(rs[0], q.ft)] + Filter(rs[1..], q)
    else Filter(rs[1..], q)
  }

  function Max(a: nat, b: nat): nat { if a < b then b else a }

  /** The room the fields of a selected record take while they are looked at. */
  function FieldsRoom(fs: seq<Field>, ft: byte): nat {
    if fs == [] then 0
    else Max(2 + |fs[0].value|, (if Wanted(fs[0], ft) then 2 + |fs[0].value| else 0) + FieldsRoom(fs[1..], ft))
  }

  /** The least output capacity with which the selection succeeds. */
  function Room(rs: seq<Record>, q: Query): nat {
    if rs == [] then 0
    else if !Selected(rs[0], q) then Room(rs[1..], q)
    else Max(5 + FieldsRoom(rs[0].fields, q.ft), |Encode(Keep(rs[0], q.ft))| + Room(rs[1..], q))
  }

  lemma HeldField(b: seq<byte>, t: nat, f: Field)
    requires Holds(b, t, EncodeField(f)) && |f.value| < 256
    ensures t + 2 <= |b| && b[t] == f.typ && FieldLength(b, t) == 2 + |f.value| && b[t + 1] <= |b|
    ensures t + FieldLength(b, t) <= |b| && FieldAt(b, t) == EncodeField(f)
  {
    assert EncodeField(f)[0] == b[t] && EncodeField(f)[1] == b[t + 1];
  }

  /** Stepping over n fields ends at `next`. */
  ghost predicate SkipsTo(b: seq<byte>, tlv: nat, len: nat, n: nat, next: nat) {
    SkipFields(b, tlv, len, n) == Some(next)
  }

  lemma SkipFirst(b: seq<byte>, tlv: nat, len: nat, f: Field, n: nat, next: nat)
    requires Holds(b, tlv + len, EncodeField(f)) && |f.value| < 256 && n > 0
    requires SkipsTo(b, tlv + len, 2 + |f.value|, n - 1, next)
    ensures SkipsTo(b, tlv, len, n, next)
  {
    HeldField(b, tlv + len, f);
  }

  lemma {:induction false} SkipIsLength(b: seq<byte>, tlv: nat, len: nat, fs: seq<Field>)
    requires Holds(b, tlv + len, EncodeFields(fs)) && FieldsFit(fs)
    ensures SkipsTo(b, tlv, len, |fs|, tlv + len + |EncodeFields(fs)|)
    decreases |fs|
  {
    if fs != [] {
      HoldsParts(b, tlv + len, EncodeField(fs[0]), EncodeFields(fs[1..]));
      SkipIsLength(b, tlv + len, 2 + |fs[0].value|, fs[1..]);
      SkipFirst(b, tlv, len, fs[0], |fs|, tlv + len + |EncodeFields(fs)|);
    }
  }

  /** The walk that keeps the wanted ones of some fields at t, if there is room to look at all of them. */
  function FilteredWalk(t: nat, fs: seq<Field>, ft: byte, room: nat): Walk {
    if FieldsRoom(fs, ft) <= room
      then Walked(t + |EncodeFields(fs)|, EncodeFields(KeepFields(fs, ft)), |KeepFields(fs, ft)|) else Broken
  }

  /** One field of the walk over a table. */
  lemma CopyFirst(b: seq<byte>, tlv: nat, len: nat, fs: seq<Field>, ft: byte, room: nat)
    requires fs != [] && FieldsFit(fs) && Holds(b, tlv + len, EncodeField(fs[0]))
    ensures var t, l := tlv + len, 2 + |fs[0].value|;
      CopyFields(b, tlv, len, |fs|, ft, room) ==
      if room < l then Broken
      else if Wanted(fs[0], ft) then Prefixed(EncodeField(fs[0]), 1, CopyFields(b, t, l, |fs[1..]|, ft, room - l))
      else CopyFields(b, t, l, |fs[1..]|, ft, room)
  {
    HeldField(b, tlv + len, fs[0]);
  }

  /** One field of the walk over the fields. */
  lemma FilterFirst(t: nat, fs: seq<Field>, ft: byte, room: nat)
    requires fs != []
    ensures var l := 2 + |fs[0].value|;
      FilteredWalk(t, fs, ft, room) ==
      if room < l then Broken
      else if Wanted(fs[0], ft) then Prefixed(EncodeField(fs[0]), 1, FilteredWalk(t + l, fs[1..], ft, room - l))
      else FilteredWalk(t + l, fs[1..], ft, room)
  {
    KeepStep(fs, ft);
  }

  /** The code's walk over the fields behind `len` more bytes is that walk. */
  ghost predicate CopiesAs(b: seq<byte>, tlv: nat, len: nat, fs: seq<Field>, ft: byte, room: nat) {
    CopyFields(b, tlv, len, |fs|, ft, room) == FilteredWalk(tlv + len, fs, ft, room)
  }

  lemma CopyTurn(b: seq<byte>, tlv: nat, len: nat, fs: seq<Field>, ft: byte, room: nat, l: nat)
    requires fs != [] && FieldsFit(fs) && Holds(b, tlv + len, EncodeField(fs[0])) && l == 2 + |fs[0].value|
    requires l <= room ==> CopiesAs(b, tlv + len, l, fs[1..], ft, if Wanted(fs[0], ft) then room - l else room)
    ensures CopiesAs(b, tlv, len, fs, ft, room)
  {
    CopyFirst(b, tlv, len, fs, ft, room);
    FilterFirst(tlv + len, fs, ft, room);
  }

  lemma {:induction false} CopyIsFilter(b: seq<byte>, tlv: nat, len: nat, fs: seq<Field>, ft: byte, room: nat)
    requires Holds(b, tlv + len, EncodeFields(fs)) && FieldsFit(fs)
    ensures CopiesAs(b, tlv, len, fs, ft, room)
    decreases |fs|
  {
    if fs != [] {
      var l := 2 + |fs[0].value|;
      HoldsParts(b, tlv + len, EncodeField(fs[0]), EncodeFields(fs[1..]));
      if l <= room {
        CopyIsFilter(b, tlv + len, l, fs[1..], ft, if Wanted(fs[0], ft) then room - l else room);
      }
      CopyTurn(b, tlv, len, fs, ft, room, l);
    }
  }

  lemma {:induction false} KeepStep(fs: seq<Field>, ft: byte)
    requires fs != []
    ensures var f, k := fs[0], KeepFields(fs[1..], ft);
      && |EncodeFields(fs)| == |EncodeField(f)| + |EncodeFields(fs[1..])|
      && |KeepFields(fs, ft)| == (if Wanted(f, ft) then 1 + |k| else |k|)
      && EncodeFields(KeepFields(fs, ft)) == (if Wanted(f, ft) then EncodeField(f) + EncodeFields(k)
                                              else EncodeFields(k))
      && FieldsRoom(fs, ft) == Max(|EncodeField(f)|,
                                   (if Wanted(f, ft) then |EncodeField(f)| else 0) + FieldsRoom(fs[1..], ft))
  {
    if Wanted(fs[0], ft) {
      assert KeepFields(fs, ft)[1..] == KeepFields(fs[1..], ft);
    }
  }

  lemma HeldHeader(b: seq<byte>, p: nat, r: Record, q: Query)
    requires Holds(b, p, RecordHeader(r)) && Fits(r)
    ensures p + 5 <= |b| && b[p + 3] == |r.fields| && SelectedAt(b, p, q) == Selected(r, q)
    ensures Header(b, p, |KeepFields(r.fields, q.ft)|) == RecordHeader(Keep(r, q.ft))
  {
    var h := RecordHeader(r);
    assert forall i :: 0 <= i < 5 ==> b[p + i] == h[i];
    assert b[p + 0] == h[0] && b[p + 1] == h[1];
  }

  /** The record at p is not selected, and the next one would be at `next`. */
  ghost predicate Skipped(b: seq<byte>, p: nat, q: Query, next: nat) {
    p + 5 <= |b| && !SelectedAt(b, p, q) && SkipFields(b, p + 5, 0, b[p + 3]) == Some(next) && p < next
  }

  /** The record at p is selected and comes out as `out`, if there is room. */
  ghost predicate Copied(b: seq<byte>, p: nat, q: Query, room: nat, r: Record) {
    p + 5 <= |b| && SelectedAt(b, p, q) && RecordAt(b, p, q.ft, room) == KeptWalk(p, r, q.ft, room)
  }

  function KeptWalk(p: nat, r: Record, ft: byte, room: nat): Walk {
    if 5 + FieldsRoom(r.fields, ft) <= room
      then Walked(p + |Encode(r)|, Encode(Keep(r, ft)), |KeepFields(r.fields, ft)|) else Broken
  }

  lemma RecordIsSkipped(b: seq<byte>, p: nat, r: Record, q: Query)
    requires Holds(b, p, Encode(r)) && Fits(r) && !Selected(r, q)
    ensures Skipped(b, p, q, p + |Encode(r)|)
  {
    HoldsParts(b, p, RecordHeader(r), EncodeFields(r.fields));
    HeldHeader(b, p, r, q);
    SkipIsLength(b, p + 5, 0, r.fields);
  }

  lemma RecordIsKept(b: seq<byte>, p: nat, r: Record, q: Query, room: nat)
    requires Holds(b, p, Encode(r)) && Fits(r) && Selected(r, q)
    ensures Copied(b, p, q, room, r)
  {
    HoldsParts(b, p, RecordHeader(r), EncodeFields(r.fields));
    HeldHeader(b, p, r, q);
    if room >= 5 {
      CopyIsFilter(b, p + 5, 0, r.fields, q.ft, room - 5);
    }
  }

  lemma {:induction false} FilterStep(rs: seq<Record>, q: Query)
    requires rs != []
    ensures var r, k := rs[0], Filter(rs[1..], q);
      && EncodeAll(rs) == Encode(r) + EncodeAll(rs[1..])
      && EncodeAll(Filter(rs, q)) == (if Selected(r, q) then Encode(Keep(r, q.ft)) + EncodeAll(k) else EncodeAll(k))
      && Room(rs, q) == if !Selected(r, q) then Room(rs[1..], q)
                        else Max(5 + FieldsRoom(r.fields, q.ft), |Encode(Keep(r, q.ft))| + Room(rs[1..], q))
  {
    if Selected(rs[0], q) {
      assert Filter(rs, q)[1..] == Filter(rs[1..], q);
    }
  }

  lemma {:induction false} FieldsRoomBounds(fs: seq<Field>, ft: byte)
    ensures |EncodeFields(KeepFields(fs, ft))| <= FieldsRoom(fs, ft) <= |EncodeFields(fs)|
  {
    if fs != [] {
      FieldsRoomBounds(fs[1..], ft);
      if Wanted(fs[0], ft) {
        assert KeepFields(fs, ft)[1..] == KeepFields(fs[1..], ft);
      }
    }
  }

  /** The table's own size is always room enough, and room below the size of the result never is. */
  lemma {:induction false} RoomBounds(rs: seq<Record>, q: Query)
    ensures |EncodeAll(Filter(rs, q))| <= Room(rs, q) <= |EncodeAll(rs)|
  {
    if rs != [] {
      RoomBounds(rs[1..], q);
      FieldsRoomBounds(rs[0].fields, q.ft);
      if Selected(rs[0], q) {
        assert Filter(rs, q)[1..] == Filter(rs[1..], q);
      }
    }
  }

  /** How the scan goes on from p, where there may be no further record. */
  function ScanOn(b: seq<byte>, p: nat, q: Query, room: nat): (r: Option<seq<byte>>)
    ensures r.Some? ==> |r.value| <= room
  {
    if |b| < p + 5 then Some([]) else Scan(b, p, q, room)
  }

  /** What the selection should give for some records, when what lies behind them gives `far`. */
  function Expected(rs: seq<Record>, q: Query, room: nat, far: Option<seq<byte>>): Option<seq<byte>> {
    if Room(rs, q) <= room then Appended(EncodeAll(Filter(rs, q)), far) else None
  }

  /** What lies from `end` on gives, in the room that some records leave. */
  function Behind(b: seq<byte>, rs: seq<Record>, q: Query, room: nat, end: nat): Option<seq<byte>> {
    var n := |EncodeAll(Filter(rs, q))|;
    if n <= room then ScanOn(b, end, q, room - n) else None
  }

  ghost predicate Correct(b: seq<byte>, p: nat, rs: seq<Record>, q: Query, room: nat, end: nat) {
    ScanOn(b, p, q, room) == Expected(rs, q, room, Behind(b, rs, q, room, end))
  }

  lemma SkippedThen(b: seq<byte>, p: nat, rs: seq<Record>, q: Query, room: nat, next: nat, end: nat)
    requires rs != [] && !Selected(rs[0], q) && Skipped(b, p, q, next) && Correct(b, next, rs[1..], q, room, end)
    ensures Correct(b, p, rs, q, room, end)
  {
    FilterStep(rs, q);
  }

  /** A selected record, and what follows it. */
  lemma Glue(rs: seq<Record>, q: Query, room: nat, left: nat, far: Option<seq<byte>>, there: Option<seq<byte>>)
    requires rs != [] && Selected(rs[0], q)
    requires var n := |Encode(Keep(rs[0], q.ft))|; n <= room ==> left == room - n
    requires there == Expected(rs[1..], q, left, far)
    ensures Expected(rs, q, room, far) ==
            if 5 + FieldsRoom(rs[0].fields, q.ft) <= room then Appended(Encode(Keep(rs[0], q.ft)), there) else None
  {
    FilterStep(rs, q);
    FieldsRoomBounds(rs[0].fields, q.ft);
    RoomBounds(rs[1..], q);
    AppendedTwice(Encode(Keep(rs[0], q.ft)), EncodeAll(Filter(rs[1..], q)), far);
  }

  lemma SameBehind(b: seq<byte>, rs: seq<Record>, q: Query, room: nat, left: nat, end: nat)
    requires rs != [] && Selected(rs[0], q) && |Encode(Keep(rs[0], q.ft))| + left == room
    ensures Behind(b, rs, q, room, end) == Behind(b, rs[1..], q, left, end)
  {
    FilterStep(rs, q);
  }

  /** The walk over a selected record, and then `there`. */
  ghost predicate Followed(here: Option<seq<byte>>, r: Record, q: Query, room: nat, there: Option<seq<byte>>) {
    here == if 5 + FieldsRoom(r.fields, q.ft) <= room then Appended(Encode(Keep(r, q.ft)), there) else None
  }

  lemma IsFollowed(b: seq<byte>, p: nat, r: Record, q: Query, room: nat, next: nat, left: nat)
    requires Copied(b, p, q, room, r) && next == p + |Encode(r)|
    requires var n := |Encode(Keep(r, q.ft))|; n <= room ==> left == room - n
    ensures Followed(ScanOn(b, p, q, room), r, q, room, ScanOn(b, next, q, left))
  {
    var out := Encode(Keep(r, q.ft));
    assert out + [] == out;
  }

  lemma SelectedThen(b: seq<byte>, p: nat, rs: seq<Record>, q: Query, room: nat, next: nat, left: nat, end: nat)
    requires rs != [] && Selected(rs[0], q)
    requires var n := |Encode(Keep(rs[0], q.ft))|; n <= room ==> left == room - n
    requires Followed(ScanOn(b, p, q, room), rs[0], q, room, ScanOn(b, next, q, left))
    requires Correct(b, next, rs[1..], q, left, end)
    ensures Correct(b, p, rs, q, room, end)
  {
    FieldsRoomBounds(rs[0].fields, q.ft);
    Glue(rs, q, room, left, Behind(b, rs[1..], q, left, end), ScanOn(b, next, q, left));
    if |Encode(Keep(rs[0], q.ft))| <= room {
      SameBehind(b, rs, q, room, left, end);
    } else {
      TooLittle(rs, q, room);
    }
  }

  lemma TooLittle(rs: seq<Record>, q: Query, room: nat)
    requires rs != [] && Selected(rs[0], q) && |Encode(Keep(rs[0], q.ft))| > room
    ensures Room(rs, q) > room && 5 + FieldsRoom(rs[0].fields, q.ft) > room
  {
    FieldsRoomBounds(rs[0].fields, q.ft);
  }

  lemma SkippedTurn(b: seq<byte>, p: nat, rs: seq<Record>, q: Query, room: nat, next: nat, end: nat)
    requires rs != [] && !Selected(rs[0], q) && Fits(rs[0]) && Holds(b, p, Encode(rs[0]))
    requires next == p + |Encode(rs[0])| && Correct(b, next, rs[1..], q, room, end)
    ensures Correct(b, p, rs, q, room, end)
  {
    RecordIsSkipped(b, p, rs[0], q);
    SkippedThen(b, p, rs, q, room, next, end);
  }

  lemma SelectedTurn(b: seq<byte>, p: nat, rs: seq<Record>, q: Query, room: nat, next: nat, left: nat, end: nat)
    requires rs != [] && Selected(rs[0], q) && Fits(rs[0]) && Holds(b, p, Encode(rs[0]))
    requires var n := |Encode(Keep(rs[0], q.ft))|; n <= room ==> left == room - n
    requires next == p + |Encode(rs[0])| && Correct(b, next, rs[1..], q, left, end)
    ensures Correct(b, p, rs, q, room, end)
  {
    RecordIsKept(b, p, rs[0], q, room);
    IsFollowed(b, p, rs[0], q, room, next, left);
    SelectedThen(b, p, rs, q, room, next, left, end);
  }

  lemma FirstHeld(b: seq<byte>, p: nat, rs: seq<Record>)
    requires rs != [] && Holds(b, p, EncodeAll(rs))
    ensures Holds(b, p, Encode(rs[0])) && Holds(b, p + |Encode(rs[0])|, EncodeAll(rs[1..]))
    ensures |EncodeAll(rs)| == |Encode(rs[0])| + |EncodeAll(rs[1..])|
  {
    HoldsParts(b, p, Encode(rs[0]), EncodeAll(rs[1..]));
  }

  /** The scan over the bytes of some records, whatever lies behind them. */
  lemma {:induction false} ScanPast(b: seq<byte>, p: nat, rs: seq<Record>, q: Query, room: nat, end: nat)
    requires AllFit(rs) && Holds(b, p, EncodeAll(rs)) && end == p + |EncodeAll(rs)|
    ensures Correct(b, p, rs, q, room, end)
    decreases |rs|
  {
    if rs == [] {
      AppendedNothing(ScanOn(b, p, q, room));
    } else {
      FirstHeld(b, p, rs);
      var next, out := p + |Encode(rs[0])|, |Encode(Keep(rs[0], q.ft))|;
      if !Selected(rs[0], q) {
        ScanPast(b, next, rs[1..], q, room, end);
        SkippedTurn(b, p, rs, q, room, next, end);
      } else {
        var left := if out <= room then room - out else 0;
        ScanPast(b, next, rs[1..], q, left, end);
        SelectedTurn(b, p, rs, q, room, next, left, end);
      }
    }
  }

  /**
   On the bytes of any list of records, followed by fewer bytes than a record header, the selection is the filter; it
   fails exactly when the output capacity is below `Room`.
   */
  lemma ScanIsFilter(rs: seq<Record>, tail: seq<byte>, q: Query, capacity: nat)
    requires AllFit(rs) && |tail| < 5 && |EncodeAll(rs) + tail| >= 8
    ensures Scan(EncodeAll(rs) + tail, 0, q, capacity) ==
            if Room(rs, q) <= capacity then Some(EncodeAll(Filter(rs, q))) else None
  {
    var b := EncodeAll(rs) + tail;
    assert b[0..0 + |EncodeAll(rs)|] == EncodeAll(rs);
    ScanPast(b, 0, rs, q, capacity, |EncodeAll(rs)|);
    RoomBounds(rs, q);
    assert EncodeAll(Filter(rs, q)) + [] == EncodeAll(Filter(rs, q));
  }

  // ---------------------------------------------------------------- tables that were cut off

  lemma {:induction false} FitsParts(fs: seq<Field>, gs: seq<Field>)
    requires FieldsFit(fs + gs)
    ensures FieldsFit(fs) && FieldsFit(gs)
  {
    if fs == [] {
      assert fs + gs == gs;
    } else {
      assert (fs + gs)[0] == fs[0] && (fs + gs)[1..] == fs[1..] + gs;
      FitsParts(fs[1..], gs);
    }
  }

  /** The bytes from t on are those of some fields, and then a part of field f, which ends the table. */
  ghost predicate CutIn(b: seq<byte>, t: nat, fs: seq<Field>, f: Field, part: seq<byte>) {
    && FieldsFit(fs) && |f.value| < 256 && part < EncodeField(f)
    && |b| == t + |EncodeFields(fs)| + |part| && Holds(b, t, EncodeFields(fs) + part)
  }

  lemma CutFirst(b: seq<byte>, t: nat, fs: seq<Field>, f: Field, part: seq<byte>)
    requires CutIn(b, t, fs, f, part)
    ensures fs == [] && |part| >= 2 ==> t + 2 <= |b| && b[t + 1] == |f.value| && |b| < t + 2 + |f.value|
    ensures fs == [] && |part| < 2 ==> |b| < t + 2
    ensures fs != [] ==> Holds(b, t, EncodeField(fs[0])) && CutIn(b, t + 2 + |fs[0].value|, fs[1..], f, part)
  {
    if fs == [] {
      assert EncodeFields(fs) + part == part == b[t..t + |part|];
      if |part| >= 2 {
        assert part[1] == EncodeField(f)[1] == |f.value|;
      }
    } else {
      Associates(EncodeField(fs[0]), EncodeFields(fs[1..]), part);
      HoldsParts(b, t, EncodeField(fs[0]), EncodeFields(fs[1..]) + part);
    }
  }

  /** Stepping over fields the last one of which is cut off: that must have its length byte, and `more` must be none. */
  ghost predicate SkipsCut(b: seq<byte>, tlv: nat, len: nat, fs: seq<Field>, f: Field, part: seq<byte>, more: nat) {
    SkipFields(b, tlv, len, |fs| + 1 + more) ==
    if |part| >= 2 && more == 0 && |f.value| <= |b| then Some(tlv + len + |EncodeFields(fs)| + 2 + |f.value|) else None
  }

  lemma SkipEnds(b: seq<byte>, tlv: nat, len: nat, f: Field, part: seq<byte>, more: nat)
    requires CutIn(b, tlv + len, [], f, part)
    ensures SkipsCut(b, tlv, len, [], f, part, more)
  {
    CutFirst(b, tlv + len, [], f, part);
    if |part| >= 2 && |f.value| <= |b| {
      assert SkipFields(b, tlv, len, 1 + more) == SkipFields(b, tlv + len, 2 + |f.value|, more);
    }
  }

  lemma SkipTurn(b: seq<byte>, tlv: nat, len: nat, fs: seq<Field>, f: Field, part: seq<byte>, more: nat, l: nat)
    requires fs != [] && l == 2 + |fs[0].value| && |fs[0].value| < 256 && Holds(b, tlv + len, EncodeField(fs[0]))
    requires SkipsCut(b, tlv + len, l, fs[1..], f, part, more)
    ensures SkipsCut(b, tlv, len, fs, f, part, more)
  {
    HeldField(b, tlv + len, fs[0]);
    assert |EncodeFields(fs)| == l + |EncodeFields(fs[1..])|;
  }

  lemma {:induction false} SkipCut(b: seq<byte>, tlv: nat, len: nat, fs: seq<Field>, f: Field, part: seq<byte>,
                                   more: nat)
    requires CutIn(b, tlv + len, fs, f, part)
    ensures SkipsCut(b, tlv, len, fs, f, part, more)
    decreases |fs|
  {
    if fs == [] {
      SkipEnds(b, tlv, len, f, part, more);
    } else {
      CutFirst(b, tlv + len, fs, f, part);
      SkipCut(b, tlv + len, 2 + |fs[0].value|, fs[1..], f, part, more);
      SkipTurn(b, tlv, len, fs, f, part, more, 2 + |fs[0].value|);
    }
  }

  ghost predicate Breaks(b: seq<byte>, tlv: nat, len: nat, n: nat, ft: byte, room: nat) {
    CopyFields(b, tlv, len, n, ft, room) == Broken
  }

  /** The room behind a field of l bytes. */
  function RoomBehind(f: Field, ft: byte, room: nat, l: nat): nat {
    if Wanted(f, ft) && l <= room then room - l else room
  }

  lemma CopyTurnBreaks(b: seq<byte>, tlv: nat, len: nat, f: Field, n: nat, ft: byte, room: nat, l: nat)
    requires Holds(b, tlv + len, EncodeField(f)) && |f.value| < 256 && l == 2 + |f.value| && n > 0
    requires Breaks(b, tlv + len, l, n - 1, ft, RoomBehind(f, ft, room, l))
    ensures Breaks(b, tlv, len, n, ft, room)
  {
    HeldField(b, tlv + len, f);
  }

  lemma CopyEnds(b: seq<byte>, tlv: nat, len: nat, f: Field, part: seq<byte>, n: nat, ft: byte, room: nat)
    requires CutIn(b, tlv + len, [], f, part) && n > 0
    ensures Breaks(b, tlv, len, n, ft, room)
  {
    CutFirst(b, tlv + len, [], f, part);
  }

  /** Copying them fails, wanted or not. */
  lemma {:induction false} CopyCut(b: seq<byte>, tlv: nat, len: nat, fs: seq<Field>, f: Field, part: seq<byte>,
                                   n: nat, ft: byte, room: nat)
    requires CutIn(b, tlv + len, fs, f, part) && n > |fs|
    ensures Breaks(b, tlv, len, n, ft, room)
    decreases |fs|
  {
    if fs == [] {
      CopyEnds(b, tlv, len, f, part, n, ft, room);
    } else {
      CutFirst(b, tlv + len, fs, f, part);
      var l := 2 + |fs[0].value|;
      CopyCut(b, tlv + len, l, fs[1..], f, part, n - 1, ft, RoomBehind(fs[0], ft, room, l));
      CopyTurnBreaks(b, tlv, len, fs[0], n, ft, room, l);
    }
  }

  lemma RecordCut(b: seq<byte>, p: nat, r: Record, fs: seq<Field>, f: Field, part: seq<byte>, more: nat, q: Query,
                  room: nat)
    requires Fits(r) && |r.fields| == |fs| + 1 + more && Holds(b, p, RecordHeader(r)) && CutIn(b, p + 5, fs, f, part)
    ensures ScanOn(b, p, q, room) ==
            if !Selected(r, q) && |part| >= 2 && more == 0 && |f.value| <= |b| then Some([]) else None
  {
    HeldHeader(b, p, r, q);
    if Selected(r, q) {
      if room >= 5 {
        CopyCut(b, p + 5, 0, fs, f, part, |r.fields|, q.ft, room - 5);
      }
    } else {
      SkipCut(b, p + 5, 0, fs, f, part, more);
    }
  }

  lemma ThreeHeld(b: seq<byte>, x: seq<byte>, y: seq<byte>, z: seq<byte>)
    requires b == x + (y + z)
    ensures Holds(b, 0, x) && Holds(b, |x|, y) && Holds(b, |x| + |y|, z) && |b| == |x| + |y| + |z|
  {
  }

  lemma CutFits(r: Record, fs: seq<Field>)
    requires Fits(r) && fs < r.fields
    ensures FieldsFit(fs) && |r.fields[|fs|].value| < 256
  {
    var f, rest := r.fields[|fs|], r.fields[|fs| + 1..];
    assert r.fields == fs + ([f] + rest);
    FitsParts(fs, [f] + rest);
  }

  /** Some records, and then nothing more, or a failure. */
  lemma ThenNothing(b: seq<byte>, rs: seq<Record>, q: Query, room: nat, end: nat, unnoticed: bool)
    requires Correct(b, 0, rs, q, room, end) && |b| >= 5
    requires Ends(b, end, rs, q, room, unnoticed)
    ensures Scan(b, 0, q, room) == if Room(rs, q) <= room && unnoticed then Some(EncodeAll(Filter(rs, q))) else None
  {
    RoomBounds(rs, q);
    assert EncodeAll(Filter(rs, q)) + [] == EncodeAll(Filter(rs, q));
  }

  /** From `end` on nothing more comes out, or the scan fails, in the room that some records leave. */
  ghost predicate Ends(b: seq<byte>, end: nat, rs: seq<Record>, q: Query, room: nat, unnoticed: bool) {
    var n := |EncodeAll(Filter(rs, q))|;
    n <= room ==> ScanOn(b, end, q, room - n) == if unnoticed then Some([]) else None
  }

  lemma CutEnds(rs: seq<Record>, r: Record, fs: seq<Field>, part: seq<byte>, q: Query, capacity: nat, b: seq<byte>,
                p: nat)
    requires Fits(r) && fs < r.fields && part < EncodeField(r.fields[|fs|]) && p + 5 <= |b|
    requires Holds(b, p, RecordHeader(r)) && Holds(b, p + 5, EncodeFields(fs) + part)
    requires |b| == p + 5 + |EncodeFields(fs) + part|
    ensures Ends(b, p, rs, q, capacity,
                 !Selected(r, q) && |fs| + 1 == |r.fields| && |part| >= 2 && |r.fields[|fs|].value| <= |b|)
  {
    var n := |EncodeAll(Filter(rs, q))|;
    CutFits(r, fs);
    if n <= capacity {
      RecordCut(b, p, r, fs, r.fields[|fs|], part, |r.fields| - |fs| - 1, q, capacity - n);
    }
  }

  /**
   A table that ends inside the field behind the fields `fs` of record r. The cut goes unnoticed exactly when r is not
   selected, that field is its last one, and the cut lies behind its length byte, which must not exceed the size of the
   table; the records in front of r then come out as they should. Any other such table is refused.
   */
  lemma CutTable(rs: seq<Record>, r: Record, fs: seq<Field>, part: seq<byte>, q: Query, capacity: nat, b: seq<byte>)
    requires AllFit(rs) && Fits(r) && fs < r.fields && part < EncodeField(r.fields[|fs|])
    requires b == EncodeAll(rs) + (RecordHeader(r) + (EncodeFields(fs) + part)) && |b| >= 8
    ensures Scan(b, 0, q, capacity) ==
            if Room(rs, q) <= capacity && !Selected(r, q) && |fs| + 1 == |r.fields| && |part| >= 2 &&
               |r.fields[|fs|].value| <= |b|
              then Some(EncodeAll(Filter(rs, q))) else None
  {
    var p := |EncodeAll(rs)|;
    ThreeHeld(b, EncodeAll(rs), RecordHeader(r), EncodeFields(fs) + part);
    ScanPast(b, 0, rs, q, capacity, p);
    CutEnds(rs, r, fs, part, q, capacity, b, p);
    ThenNothing(b, rs, q, capacity, p, !Selected(r, q) && |fs| + 1 == |r.fields| && |part| >= 2 &&
                                       |r.fields[|fs|].value| <= |b|);
  }

  lemma PartOfField(f: Field, part: seq<byte>)
    requires |part| == 3 && |f.value| == 4 && part[0] == f.typ && part[1] == 4 && part[2] == f.value[0]
    ensures part < EncodeField(f)
  {
    assert part + f.value[1..] == EncodeField(f);
  }

  lemma OneRecordCut(b: seq<byte>, h: seq<byte>, part: seq<byte>)
    requires |b| == 8 && h == b[..5] && part == b[5..]
    ensures b == EncodeAll([]) + (h + (EncodeFields([]) + part))
  {
    assert EncodeFields([]) + part == part && h + part == b;
  }

  lemma HeaderOfOne(h: seq<byte>, r: Record)
    requires |h| == 5 && |r.fields| == 1
    requires h[0] == r.rsi && h[1] == 0 && h[2] == r.rt && h[3] == 1 && h[4] == r.encoding
    ensures h == RecordHeader(r)
  {
  }

  /** One record with one field of four bytes, only the first of which is there. */
  lemma CutShort(b: seq<byte>, r: Record, f: Field, q: Query, capacity: nat)
    requires |b| == 8 && Fits(r) && r.fields == [f] && |f.value| == 4
    requires b[0] == r.rsi && b[1] == 0 && b[2] == r.rt && b[3] == 1 && b[4] == r.encoding
    requires b[5] == f.typ && b[6] == 4 && b[7] == f.value[0]
    ensures Scan(b, 0, q, capacity) == if Selected(r, q) then None else Some([])
  {
    PartOfField(f, b[5..]);
    HeaderOfOne(b[..5], r);
    OneRecordCut(b, b[..5], b[5..]);
    CutTable([], r, [], b[5..], q, capacity, b);
  }

  /** Such a table goes unnoticed while its record is not asked for, and is an error else. */
  lemma CutGoesUnnoticed(b: seq<byte>, q: Query, capacity: nat)
    requires b == [1, 0, 1, 1, 1, 2, 4, 65] && q.rt == 0
    ensures Scan(b, 0, q, capacity) == if q.rsi == 0 || q.rsi == 1 then None else Some([])
  {
    var f := Field(2, [65, 66, 67, 68]);
    CutShort(b, Record(1, 1, 1, [f]), f, q, capacity);
  }

  // ---------------------------------------------------------------- what the filter keeps

  lemma {:induction false} KeepSplit(a: seq<Field>, b: seq<Field>, ft: byte)
    ensures KeepFields(a + b, ft) == KeepFields(a, ft) + KeepFields(b, ft)
  {
    if a == [] {
      assert a + b == b;
    } else {
      assert (a + b)[0] == a[0] && (a + b)[1..] == a[1..] + b;
      KeepSplit(a[1..], b, ft);
    }
  }

  /** Of the fields of a record, those of the wanted type are kept, in their order; type 0 wants all. */
  lemma FieldIsKept(a: seq<Field>, f: Field, b: seq<Field>, ft: byte)
    ensures KeepFields(a + [f] + b, ft) ==
            KeepFields(a, ft) + (if ft == 0 || f.typ == ft then [f] else []) + KeepFields(b, ft)
  {
    KeepSplit(a + [f], b, ft);
    KeepSplit(a, [f], ft);
  }

  lemma {:induction false} FilterSplit(a: seq<Record>, b: seq<Record>, q: Query)
    ensures Filter(a + b, q) == Filter(a, q) + Filter(b, q)
  {
    if a == [] {
      assert a + b == b;
    } else {
      assert (a + b)[0] == a[0] && (a + b)[1..] == a[1..] + b;
      FilterSplit(a[1..], b, q);
    }
  }

  /**
   Of the records those with the wanted record set and the wanted record type are kept, in their order, with the fields
   that are kept; 0 wants all.
   */
  lemma RecordIsFiltered(a: seq<Record>, r: Record, b: seq<Record>, q: Query)
    ensures Filter(a + [r] + b, q) ==
            Filter(a, q) +
            (if (q.rsi == 0 || r.rsi == q.rsi) && (q.rt == 0 || r.rt == q.rt)
               then [Record(r.rsi, r.rt, r.encoding, KeepFields(r.fields, q.ft))] else []) +
            Filter(b, q)
  {
    FilterSplit(a + [r], b, q);
    FilterSplit(a, [r], q);
  }

  /** The bytes of a record and of its fields. */
  lemma RecordLayout(r: Record, f: Field, rest: seq<Field>)
    requires r.fields == [f] + rest && Fits(r)
    ensures |f.value| < 256
    ensures Encode(r) == [r.rsi % 256, r.rsi / 256, r.rt, |r.fields|, r.encoding] +
                         ([f.typ, |f.value|] + f.value + EncodeFields(rest))
  {
    assert r.fields[1..] == rest;
  }

  /** An output buffer as large as the table always suffices. */
  lemma TableSizeSuffices(rs: seq<Record>, tail: seq<byte>, q: Query)
    requires AllFit(rs) && |tail| < 5 && |EncodeAll(rs) + tail| >= 8
    ensures Scan(EncodeAll(rs) + tail, 0, q, |EncodeAll(rs) + tail|) == Some(EncodeAll(Filter(rs, q)))
  {
    ScanIsFilter(rs, tail, q, |EncodeAll(rs) + tail|);
    RoomBounds(rs, q);
  }

  /**
   An output buffer of the size of the result may be too small: a field must fit even when it is left out. A selected
   record with one unwanted field comes out as five bytes, and needs room for the field too.
   */
  lemma ResultSizeIsNotEnough(r: Record, f: Field, q: Query, tail: seq<byte>, capacity: nat)
    requires Fits(r) && r.fields == [f] && Selected(r, q) && !Wanted(f, q.ft) && |tail| < 5 && |f.value| >= 1
    ensures |EncodeAll(Filter([r], q))| == 5
    ensures |EncodeAll([r]) + tail| >= 8
    ensures Scan(EncodeAll([r]) + tail, 0, q, capacity).Some? <==> capacity >= 7 + |f.value|
  {
    FilterStep([r], q);
    KeepStep([f], q.ft);
    ScanIsFilter([r], tail, q, capacity);
  }

  lemma {:induction false} KeepAllFields(fs: seq<Field>)
    ensures KeepFields(fs, 0) == fs
  {
    if fs != [] {
      KeepAllFields(fs[1..]);
    }
  }

  /** With every part a wildcard, every record comes back as it was. */
  lemma {:induction false} WildcardsKeepAll(rs: seq<Record>)
    ensures Filter(rs, Query(0, 0, 0)) == rs
  {
    if rs != [] {
      KeepAllFields(rs[0].fields);
      WildcardsKeepAll(rs[1..]);
    }
  }

  /** Selecting twice with the same query is selecting once. */
  lemma {:induction false} FilterIsIdempotent(rs: seq<Record>, q: Query)
    ensures Filter(Filter(rs, q), q) == Filter(rs, q)
  {
    if rs != [] {
      FilterIsIdempotent(rs[1..], q);
      if Selected(rs[0], q) {
        KeepIsIdempotent(rs[0].fields, q.ft);
        assert Filter(rs, q)[1..] == Filter(rs[1..], q);
      }
    }
  }

  lemma {:induction false} KeepIsIdempotent(fs: seq<Field>, ft: byte)
    ensures KeepFields(KeepFields(fs, ft), ft) == KeepFields(fs, ft)
  {
    if fs != [] {
      KeepIsIdempotent(fs[1..], ft);
      if Wanted(fs[0], ft) {
        assert KeepFields(fs, ft)[1..] == KeepFields(fs[1..], ft);
      }
    }
  }

  // ---------------------------------------------------------------- building a table

  lemma {:induction false} EncodeAllSplit(a: seq<Record>, b: seq<Record>)
    ensures EncodeAll(a + b) == EncodeAll(a) + EncodeAll(b)
  {
    if a == [] {
      assert a + b == b;
    } else {
      EncodeAllSplit(a[1..], b);
      assert (a + b)[0] == a[0] && (a + b)[1..] == a[1..] + b;
      Associates(Encode(a[0]), EncodeAll(a[1..]), EncodeAll(b));
    }
  }

  /** The header of a record as the caller gives it; the number of fields is not checked against the fields. */
  function HeaderBytes(rsi: u16, rt: byte, num: byte, encoding: byte): (b: seq<byte>)
    ensures |b| == 5
  {
    Le16(rsi) + [rt, num, encoding]
  }

  /** encode_fru_record. A null pointer to the fields leaves a header alone, whatever their size is said to be. */
  method EncodeFruRecord(table: array<byte>, totalSize: nat, currSize: nat, rsi: u16, rt: byte, num: byte,
                         encoding: byte, tlvs: Option<seq<byte>>, tlvsSize: nat)
    returns (rc: Rc, newSize: nat)
    requires totalSize <= table.Length && (tlvs.Some? ==> tlvsSize <= |tlvs.value|)
    modifies table
    ensures rc == if tlvsSize == 0 then InvalidData
                  else if totalSize < currSize + 5 + tlvsSize then InvalidLength else Success
    ensures rc != Success ==> newSize == currSize && table[..] == old(table[..])
    ensures rc == Success ==>
      var added := HeaderBytes(rsi, rt, num, encoding) + if tlvs.Some? then tlvs.value[..tlvsSize] else [];
      newSize == currSize + |added| <= totalSize && table[..] == Overlay(old(table[..]), currSize, added)
  {
    if tlvsSize == 0 {
      return InvalidData, currSize;
    }
    if totalSize < currSize + 5 {
      return InvalidLength, currSize;
    }
    if totalSize - (currSize + 5) < tlvsSize {
      return InvalidLength, currSize;
    }
    ghost var was := table[..];
    var header := HeaderBytes(rsi, rt, num, encoding);
    Blit(table, currSize, header);
    newSize := currSize + 5;
    assert header + [] == header;
    if tlvs.Some? {
      Blit(table, newSize, tlvs.value[..tlvsSize]);
      OverlayAppend(was, currSize, header, tlvs.value[..tlvsSize]);
      newSize := newSize + tlvsSize;
    }
    return Success, newSize;
  }

  /** A table followed by the bytes of one more record is the table of one more record. */
  lemma TableGrows(was: seq<byte>, size: nat, r: Record, rs: seq<Record>)
    requires size + |Encode(r)| <= |was| && was[..size] == EncodeAll(rs)
    ensures Overlay(was, size, Encode(r))[..size + |Encode(r)|] == EncodeAll(rs + [r])
  {
    EncodeAllSplit(rs, [r]);
    assert EncodeAll([r]) == Encode(r) + EncodeAll([]);
    assert Encode(r) + [] == Encode(r);
  }

  lemma EncodedAs(r: Record, tlvs: seq<byte>)
    requires tlvs == EncodeFields(r.fields) && |r.fields| < 256
    ensures Encode(r) == HeaderBytes(r.rsi, r.rt, |r.fields|, r.encoding) + tlvs[..|tlvs|]
    ensures |Encode(r)| == 5 + |tlvs| && (tlvs == [] <==> r.fields == [])
  {
    assert tlvs[..|tlvs|] == tlvs;
  }

  /**
   The encoder given the fields of a record, and their number: a table of records grows by that record, or stays as it
   is.
   */
  method AppendRecord(table: array<byte>, totalSize: nat, currSize: nat, r: Record, ghost rs: seq<Record>)
    returns (rc: Rc, newSize: nat)
    requires totalSize <= table.Length && currSize <= table.Length && table[..currSize] == EncodeAll(rs) &&
        |r.fields| < 256
    modifies table
    ensures rc == if r.fields == [] then InvalidData
                  else if totalSize < currSize + |Encode(r)| then InvalidLength else Success
    ensures rc != Success ==> newSize == currSize && table[..] == old(table[..])
    ensures rc == Success ==>
        newSize <= totalSize && table[..newSize] == EncodeAll(rs + [r]) && table[newSize..] == old(table[newSize..])
  {
    var tlvs := EncodeFields(r.fields);
    ghost var was := table[..];
    EncodedAs(r, tlvs);
    rc, newSize := EncodeFruRecord(table, totalSize, currSize, r.rsi, r.rt, |r.fields|, r.encoding, Some(tlvs), |tlvs|);
    if rc == Success {
      TableGrows(was, currSize, r, rs);
    }
  }

  /** Without a pointer to fields, and with none announced, it grows by a record that has none. */
  method AppendEmptyRecord(table: array<byte>, totalSize: nat, currSize: nat, r: Record, tlvsSize: nat,
                           ghost rs: seq<Record>)
    returns (rc: Rc, newSize: nat)
    requires totalSize <= table.Length && currSize <= table.Length && table[..currSize] == EncodeAll(rs) &&
        r.fields == []
    modifies table
    ensures rc == if tlvsSize == 0 then InvalidData
                  else if totalSize < currSize + 5 + tlvsSize then InvalidLength else Success
    ensures rc == Success ==> newSize == currSize + 5 && table[..newSize] == EncodeAll(rs + [r])
  {
    ghost var was := table[..];
    assert RecordHeader(r) + [] == RecordHeader(r);
    rc, newSize := EncodeFruRecord(table, totalSize, currSize, r.rsi, r.rt, 0, r.encoding, None, tlvsSize);
    if rc == Success {
      TableGrows(was, currSize, r, rs);
    }
  }
}
