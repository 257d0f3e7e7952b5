/**
 Models the selection of records and fields from a FRU table in src/dsp/fru.c.

 This module is the code, which works on bytes, and `Scan`, which says what it does to any bytes at all.
 */
module FruScan {
  import opened Common
  import opened Bytes

  datatype Rc = Success | InvalidData | InvalidLength

  /** Zero is a wildcard in each part. */
  datatype Query = Query(rsi: u16, rt: byte, ft: byte)

  // ---------------------------------------------------------------- the scan, over arbitrary bytes

  predicate SelectedAt(b: seq<byte>, p: nat, q: Query)
    requires p + 5 <= |b|
  {
    !((Word(b[p], b[p + 1]) != q.rsi && q.rsi != 0) || (b[p + 2] != q.rt && q.rt != 0))
  }

  /** Type, length and value of the field at t. */
  function FieldLength(b: seq<byte>, t: nat): (l: nat)
    requires t + 2 <= |b|
    ensures 2 <= l
  {
    var n: int := b[t + 1];
    2 + n
  }

  function FieldAt(b: seq<byte>, t: nat): (f: seq<byte>)
    requires t + 2 <= |b| && t + FieldLength(b, t) <= |b|
    ensures |f| == FieldLength(b, t)
  {
    b[t..t + FieldLength(b, t)]
  }

  /** Stepping over n fields of an unselected record; the last one may stick out of the table. */
  function SkipFields(b: seq<byte>, tlv: nat, len: nat, n: nat): (next: Option<nat>)
    ensures next.Some? ==> next.value >= tlv + len
    decreases n
  {
    if n == 0 then Some(tlv + len)
    else if |b| < tlv + len + 2 || b[tlv + len + 1] > |b| then None
    else SkipFields(b, tlv + len, FieldLength(b, tlv + len), n - 1)
  }

  datatype Walk = Broken | Walked(next: nat, out: seq<byte>, count: nat)

  function Prefixed(out: seq<byte>, count: nat, w: Walk): Walk {
    if w.Broken? then Broken else Walked(w.next, out + w.out, count + w.count)
  }

  /** Copying the fields of a selected record; each must fit into the room left, wanted or not. */
  function CopyFields(b: seq<byte>, tlv: nat, len: nat, n: nat, ft: byte, room: nat): (w: Walk)
    ensures w.Walked? ==> w.next >= tlv + len && |w.out| <= room && w.count <= n
    decreases n
  {
    if n == 0 then Walked(tlv + len, [], 0)
    else if |b| < tlv + len + 2 || b[tlv + len + 1] > |b| then Broken
    else
      var t := tlv + len;
      var l := FieldLength(b, t);
      if room < l || |b| < t + l then Broken
      else if b[t] == ft || ft == 0 then Prefixed(FieldAt(b, t), 1, CopyFields(b, t, l, n - 1, ft, room - l))
      else CopyFields(b, t, l, n - 1, ft, room)
  }

  function Appended(out: seq<byte>, r: Option<seq<byte>>): Option<seq<byte>> {
    if r.None? then None else Some(out + r.value)
  }

  function Header(b: seq<byte>, p: nat, count: byte): (h: seq<byte>)
    requires p + 5 <= |b|
    ensures |h| == 5
  {
    [b[p], b[p + 1], b[p + 2], count, b[p + 4]]
  }

  /** One selected record as `Scan` outputs it. */
  function RecordAt(b: seq<byte>, p: nat, ft: byte, room: nat): (w: Walk)
    requires p + 5 <= |b|
    ensures w.Walked? ==> w.next >= p + 5 && |w.out| <= room
  {
    if room < 5 then Broken
    else
      var w := CopyFields(b, p + 5, 0, b[p + 3], ft, room - 5);
      if w.Broken? then Broken else Walked(w.next, Header(b, p, w.count) + w.out, w.count)
  }

  /** What the records from p on contribute to the output; None is PLDM_ERROR_INVALID_LENGTH. */
  function Scan(b: seq<byte>, p: nat, q: Query, room: nat): (r: Option<seq<byte>>)
    requires p + 5 <= |b|
    ensures r.Some? ==> |r.value| <= room
    decreases |b| - p
  {
    if !SelectedAt(b, p, q) then
      var next := SkipFields(b, p + 5, 0, b[p + 3]);
      if next.None? then None
      else if |b| < next.value + 5 then Some([])
      else Scan(b, next.value, q, room)
    else
      var w := RecordAt(b, p, q.ft, room);
      if w.Broken? then None
      else if |b| < w.next + 5 then Some(w.out)
      else Appended(w.out, Scan(b, w.next, q, room - |w.out|))
  }

  // ---------------------------------------------------------------- the code

  /** The inner loop for a record that is not selected. */
  method SkipRecord(b: seq<byte>, p: nat) returns (ok: bool, next: nat)
    requires p + 5 <= |b|
    ensures ok <==> SkipFields(b, p + 5, 0, b[p + 3]).Some?
    ensures ok ==> SkipFields(b, p + 5, 0, b[p + 3]) == Some(next)
  {
    var tlv: nat, len: nat := p + 5, 0;
    for i := 0 to b[p + 3]
      invariant SkipFields(b, p + 5, 0, b[p + 3]) == SkipFields(b, tlv, len, b[p + 3] - i)
    {
      if |b| - len < tlv {
        return false, 0;
      }
      tlv := tlv + len;
      if |b| - 2 < tlv {
        return false, 0;
      }
      if b[tlv + 1] > |b| {
        return false, 0;
      }
      len := FieldLength(b, tlv);
    }
    return true, tlv + len;
  }

  /** The inner loop for a selected record, behind its header at `pos - 5` of the output. */
  method CopyRecord(b: seq<byte>, p: nat, ft: byte, dest: array<byte>, capacity: nat, start: nat,
                    ghost was: seq<byte>, ghost before: seq<byte>)
    returns (ok: bool, next: nat, pos: nat, count: byte)
    requires p + 5 <= |b| && start == |before| <= capacity <= dest.Length == |was| &&
        dest[..] == Overlay(was, 0, before)
    modifies dest
    ensures dest[capacity..] == was[capacity..]
    ensures var w := CopyFields(b, p + 5, 0, b[p + 3], ft, capacity - start);
      && (ok <==> w.Walked?)
      && (ok ==> w == Walked(next, w.out, count) && pos == start + |w.out| <= capacity)
      && (ok ==> dest[..] == Overlay(was, 0, before + w.out))
  {
    var left: nat, room: nat := b[p + 3], capacity - start;
    ghost var goal, done := Prefixed(before, 0, CopyFields(b, p + 5, 0, left, ft, room)), before;
    var tlv: nat, len: nat := p + 5, 0;
    next, pos, count := 0, start, 0;
    while left > 0
      invariant 0 <= count + left <= b[p + 3] && pos == |done| && pos + room == capacity
      invariant StillToCopy(goal, b, tlv, len, left, ft, room, done, count)
      invariant dest[..] == Overlay(was, 0, done)
    {
      CopyStep(goal, b, tlv, len, left, ft, room, done, count);
      var fits;
      fits, tlv, len := FieldFits(b, tlv, len, room);
      if !fits {
        OverlayBeyond(was, done, capacity);
        return false, next, pos, count;
      }
      if b[tlv] == ft || ft == 0 {
        var field := FieldAt(b, tlv);
        Append(dest, was, done, pos, field);
        done := done + field;
        pos, room, count := pos + len, room - len, count + 1;
      }
      left := left - 1;
    }
    OverlayBeyond(was, done, capacity);
    next := tlv + len;
    ok := true;
    PrefixedEnd(before, done, count, next, CopyFields(b, p + 5, 0, b[p + 3], ft, capacity - start));
  }

  lemma PrefixedEnd(before: seq<byte>, done: seq<byte>, count: nat, next: nat, w: Walk)
    requires Prefixed(before, 0, w) == Prefixed(done, count, Walked(next, [], 0))
    ensures w.Walked? && w.next == next && w.count == count && before + w.out == done
  {
    assert done + [] == done;
  }

  /** Of the walk `goal`, `count` fields with the bytes `done` are behind, and n fields of the table are ahead. */
  ghost predicate StillToCopy(goal: Walk, b: seq<byte>, tlv: nat, len: nat, n: nat, ft: byte, room: nat,
                              done: seq<byte>, count: nat)
  {
    goal == Prefixed(done, count, CopyFields(b, tlv, len, n, ft, room))
  }

  /** One turn of the copying loop. */
  lemma CopyStep(goal: Walk, b: seq<byte>, tlv: nat, len: nat, n: nat, ft: byte, room: nat, done: seq<byte>, count: nat)
    requires n > 0 && StillToCopy(goal, b, tlv, len, n, ft, room, done, count)
    ensures var t := tlv + len;
      if !FitsAt(b, t, room) then goal == Broken
      else var l := FieldLength(b, t);
        if b[t] == ft || ft == 0
          then StillToCopy(goal, b, t, l, n - 1, ft, room - l, done + FieldAt(b, t), count + 1)
        else StillToCopy(goal, b, t, l, n - 1, ft, room, done, count)
  {
    var t := tlv + len;
    if FitsAt(b, t, room) && (b[t] == ft || ft == 0) {
      PrefixedTwice(done, count, FieldAt(b, t),
                    CopyFields(b, t, FieldLength(b, t), n - 1, ft, room - FieldLength(b, t)));
    }
  }

  /** The checks on the field behind the one at `tlv`: it lies in the table and fits into the room left. */
  method FieldFits(b: seq<byte>, tlv: nat, len: nat, room: nat) returns (ok: bool, t: nat, l: nat)
    ensures t == tlv + len
    ensures ok <==> FitsAt(b, t, room)
    ensures ok ==> l == FieldLength(b, t)
  {
    t, l := tlv + len, 0;
    if |b| - len < tlv {
      return false, t, l;
    }
    if |b| - 2 < t {
      return false, t, l;
    }
    if b[t + 1] > |b| {
      return false, t, l;
    }
    l := FieldLength(b, t);
    if room < l {
      return false, t, l;
    }
    if |b| - t < l {
      return false, t, l;
    }
    ok := true;
  }

  predicate FitsAt(b: seq<byte>, t: nat, room: nat) {
    t + 2 <= |b| && b[t + 1] <= |b| && FieldLength(b, t) <= room && t + FieldLength(b, t) <= |b|
  }

  lemma PrefixedTwice(out: seq<byte>, count: nat, field: seq<byte>, w: Walk)
    ensures Prefixed(out, count, Prefixed(field, 1, w)) == Prefixed(out + field, count + 1, w)
  {
    if w.Walked? {
      Associates(out, field, w.out);
    }
  }

  lemma AppendedNothing(r: Option<seq<byte>>)
    ensures Appended([], r) == r
  {
    if r.Some? {
      assert [] + r.value == r.value;
    }
  }

  lemma AppendedTwice(a: seq<byte>, b: seq<byte>, r: Option<seq<byte>>)
    ensures Appended(a, Appended(b, r)) == Appended(a + b, r)
  {
    if r.Some? {
      assert a + (b + r.value) == a + b + r.value;
    }
  }

  /**
   get_fru_record_by_option. `recordSize` goes in as the room in `dest` and comes out as the size of the result.
   Whatever the table holds, nothing outside that room is written.
   */
  method GetFruRecordByOption(b: seq<byte>, dest: array<byte>, recordSize: nat, q: Query) returns (rc: Rc, size: nat)
    requires recordSize <= dest.Length
    modifies dest
    ensures rc == if |b| < 8 || Scan(b, 0, q, recordSize).None? then InvalidLength else Success
    ensures rc != Success ==> size == recordSize
    ensures rc == Success ==> var out := Scan(b, 0, q, recordSize).value;
      size == |out| && dest[..] == Overlay(old(dest[..]), 0, out)
    ensures dest[recordSize..] == old(dest[recordSize..])
  {
    size := recordSize;
    if |b| < 8 {
      return InvalidLength, size;
    }
    var ok, end := ScanRecords(b, dest, recordSize, q, dest[..]);
    if !ok {
      return InvalidLength, size;
    }
    return Success, end;
  }

  /** The outer loop, writing over `was`. */
  method ScanRecords(b: seq<byte>, dest: array<byte>, recordSize: nat, q: Query, ghost was: seq<byte>)
      returns (ok: bool, pos: nat)
    requires |b| >= 8 && recordSize <= dest.Length && dest[..] == was
    modifies dest
    ensures ok == Scan(b, 0, q, recordSize).Some?
    ensures ok ==>
        pos == |Scan(b, 0, q, recordSize).value| && dest[..] == Overlay(was, 0, Scan(b, 0, q, recordSize).value)
    ensures dest[recordSize..] == was[recordSize..]
  {
    ghost var goal := Scan(b, 0, q, recordSize);
    ghost var out: seq<byte> := [];
    var p := 0;
    pos := 0;
    AppendedNothing(goal);
    while p < |b|
      invariant p + 5 <= |b| && pos == |out| <= recordSize
      invariant dest[..] == Overlay(was, 0, out)
      invariant goal == Appended(out, Scan(b, p, q, recordSize - pos))
      decreases |b| - p
    {
      var next;
      if !SelectedAt(b, p, q) {
        ok, next := SkipRecord(b, p);
        if !ok {
          return false, pos;
        }
        if |b| - 5 < next {
          assert out + [] == out;
          return true, pos;
        }
        p := next;
        continue;
      }
      var end;
      ok, next, end := CopySelected(b, p, q.ft, dest, recordSize, pos, was, out);
      if !ok {
        return false, pos;
      }
      ghost var record := RecordAt(b, p, q.ft, recordSize - pos).out;
      if |b| - 5 < next {
        return true, end;
      }
      AppendedTwice(out, record, Scan(b, next, q, recordSize - end));
      out, pos, p := out + record, end, next;
    }
  }

  /** A selected record: its header, its fields, and then the number of fields kept. */
  method CopySelected(b: seq<byte>, p: nat, ft: byte, dest: array<byte>, capacity: nat, pos: nat,
                      ghost was: seq<byte>, ghost out: seq<byte>)
    returns (ok: bool, next: nat, end: nat)
    requires p + 5 <= |b| && pos == |out| <= capacity <= dest.Length == |was| && dest[..] == Overlay(was, 0, out)
    modifies dest
    ensures dest[capacity..] == was[capacity..]
    ensures var w := RecordAt(b, p, ft, capacity - pos);
      && (ok <==> w.Walked?)
      && (ok ==> next == w.next && end == pos + |w.out| <= capacity && dest[..] == Overlay(was, 0, out + w.out))
  {
    if capacity - pos < 5 {
      return false, 0, 0;
    }
    var header := b[p..p + 5];
    Append(dest, was, out, pos, header);
    var count;
    ok, next, end, count := CopyRecord(b, p, ft, dest, capacity, pos + 5, was, out + header);
    if ok {
      ghost var fields := CopyFields(b, p + 5, 0, b[p + 3], ft, capacity - pos - 5).out;
      Recount(was, out, b, p, fields, count);
      dest[pos + 3] := count;
    }
  }

  /** Rewriting the field count in the output. */
  lemma Recount(was: seq<byte>, out: seq<byte>, b: seq<byte>, p: nat, fields: seq<byte>, count: byte)
    requires p + 5 <= |b| && |out| + 5 + |fields| <= |was|
    ensures Overlay(was, 0, out + b[p..p + 5] + fields)[|out| + 3 := count] ==
            Overlay(was, 0, out + (Header(b, p, count) + fields))
  {
  }
}
