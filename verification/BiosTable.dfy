/**
 Models the tables of src/dsp/bios_table.c: entries one after the other, zero padding to a
 multiple of four, a CRC-32; the iterator, the lookups, and copy-and-update.
 */
module BiosTable {
  import opened Common
  import opened Bytes
  import opened BiosEntry
  import Edac

  type Entry = seq<byte>

  // ---------------------------------------------------------------- tables as lists of entries

  function Concat(es: seq<Entry>): seq<byte> {
    if es == [] then [] else es[0] + Concat(es[1..])
  }

  lemma {:induction false} ConcatSplit(a: seq<Entry>, b: seq<Entry>)
    ensures Concat(a + b) == Concat(a) + Concat(b)
  {
    if a == [] {
      assert a + b == b;
    } else {
      ConcatSplit(a[1..], b);
      assert (a + b)[0] == a[0] && (a + b)[1..] == a[1..] + b;
      Associates(a[0], Concat(a[1..]), Concat(b));
    }
  }

  /** The bytes from entry i onwards are entry i and then the bytes from entry i + 1 onwards. */
  lemma ConcatAt(es: seq<Entry>, i: nat)
    requires i < |es|
    ensures Concat(es[..i + 1]) == Concat(es[..i]) + es[i]
    ensures Concat(es) == Concat(es[..i]) + Concat(es[i..]) && Concat(es[i..]) == es[i] + Concat(es[i + 1..])
  {
    assert es == es[..i] + es[i..] && es[..i + 1] == es[..i] + [es[i]];
    ConcatSplit(es[..i], es[i..]);
    ConcatSplit(es[..i], [es[i]]);
    assert Concat([es[i]]) == es[i] + Concat([]);
    assert es[i..][1..] == es[i + 1..];
  }

  ghost predicate AllWellFormed(kind: Table, es: seq<Entry>) {
    forall i :: 0 <= i < |es| ==> WellFormed(kind, es[i])
  }

  function PadSize(n: nat): nat { (4 - n % 4) % 4 }

  function Zeros(n: nat): (z: seq<byte>)
    ensures |z| == n
  {
    if n == 0 then [] else Zeros(n - 1) + [0]
  }

  function Padded(data: seq<byte>): seq<byte> { data + Zeros(PadSize(|data|)) }

  /** What pldm_bios_table_append_pad_checksum makes of the bytes of the entries. */
  function Seal(data: seq<byte>): seq<byte> { Padded(data) + Edac.CrcField(Padded(data)) }

  /** The padding is the shortest that makes the length a multiple of four. */
  lemma PadAligns(n: nat, p: nat)
    ensures PadSize(n) < 4 && (n + PadSize(n)) % 4 == 0
    ensures (n + p) % 4 == 0 ==> PadSize(n) <= p
  {
  }

  /**
   A finished table, byte by byte: the entries, up to three zero bytes that align it to four, and the little-endian CRC
   of all that.
   */
  ghost predicate Finished(data: seq<byte>, t: seq<byte>) {
    && |data| + 4 <= |t| <= |data| + 7 && |t| % 4 == 0 && t[..|data|] == data
    && (forall i :: |data| <= i < |t| - 4 ==> t[i] == 0)
    && Edac.LeWord(t[|t| - 4..]) == Edac.ReferenceCrc32(t[..|t| - 4])
  }

  lemma {:induction false} ZerosAreZero(n: nat, i: nat)
    requires i < n
    ensures Zeros(n)[i] == 0
  {
    if i < n - 1 {
      ZerosAreZero(n - 1, i);
    }
  }

  lemma SealParts(data: seq<byte>, z: seq<byte>, f: seq<byte>, t: seq<byte>)
    requires t == data + z + f && |f| == 4 && forall i :: 0 <= i < |z| ==> z[i] == 0
    ensures t[..|data|] == data && (forall i :: |data| <= i < |t| - 4 ==> t[i] == 0)
    ensures t[|t| - 4..] == f && t[..|t| - 4] == data + z
  {
  }

  lemma TailSize(n: nat)
    ensures PadSize(n) + 4 == if n % 4 == 0 then 4 else 8 - n % 4
    ensures (n + PadSize(n) + 4) % 4 == 0
  {
  }

  lemma {:induction false} SealIsFinished(data: seq<byte>)
    ensures Finished(data, Seal(data))
  {
    var z, p := Zeros(PadSize(|data|)), Padded(data);
    TailSize(|data|);
    assert |Seal(data)| == |data| + PadSize(|data|) + 4;
    forall i | 0 <= i < |z| ensures z[i] == 0 {
      ZerosAreZero(|z|, i);
    }
    Edac.LeRoundTrip(Edac.ReferenceCrc32(p));
    SealParts(data, z, Edac.CrcField(p), Seal(data));
  }

  lemma {:induction false} BodiesAgree(data: seq<byte>, t: seq<byte>, u: seq<byte>)
    requires Finished(data, t) && Finished(data, u)
    ensures |t| == |u| && t[..|t| - 4] == u[..|t| - 4]
  {
    forall i | 0 <= i < |t| - 4 ensures t[i] == u[i] {
      if i < |data| {
        assert t[i] == t[..|data|][i] && u[i] == u[..|data|][i];
      }
    }
  }

  /** There is only one for each list of entries. */
  lemma FinishedIsUnique(data: seq<byte>, t: seq<byte>, u: seq<byte>)
    requires Finished(data, t) && Finished(data, u)
    ensures t == u
  {
    BodiesAgree(data, t, u);
    SealedFieldsAgree(t, u);
  }

  lemma SealedFieldsAgree(t: seq<byte>, u: seq<byte>)
    requires |t| == |u| >= 4 && Edac.Sealed(t) && Edac.Sealed(u) && t[..|t| - 4] == u[..|t| - 4]
    ensures t == u
  {
    if t != u {
      Edac.FourBytesBreakSeal(t, u, |t| - 4);
    }
  }

  lemma OverlayFront(was: seq<byte>, d: seq<byte>)
    requires |d| <= |was|
    ensures Overlay(was, 0, d)[..|d|] == d && Overlay(was, 0, d)[|d|..] == was[|d|..]
  {
  }

  // ---------------------------------------------------------------- checksum

  /** pldm_bios_table_checksum. */
  method TableChecksum(table: seq<byte>) returns (ok: bool)
    ensures ok == Accepted(table)
  {
    if |table| < 12 {
      return false;
    }
    var crc := Edac.Crc32(table[..|table| - 4]);
    ok := Edac.LeWord(table[|table| - 4..]) == crc;
  }

  predicate Accepted(table: seq<byte>) { |table| >= 12 && Edac.Sealed(table) }

  /**
   A finished table passes its own check exactly when its entries take more than four bytes. Shorter ones, such as an
   empty table or one enum value with no index, carry a right CRC and are refused.
   */
  lemma FinishedTableAccepted(data: seq<byte>)
    ensures Accepted(Seal(data)) <==> |data| > 4
  {
    var p := Padded(data);
    PadAligns(|data|, 0);
    assert |p| >= 8 <==> |data| > 4;
    Edac.FieldSeals(p);
  }

  lemma ShortTableRefused()
    ensures var v := EnumValue(0, 0, []);
      ValueAcceptable(v) && WellFormed(Values, ValueBytes(v)) && !Accepted(Seal(ValueBytes(v)))
  {
    ValueRoundTrip(EnumValue(0, 0, []), []);
    FinishedTableAccepted(ValueBytes(EnumValue(0, 0, [])));
  }

  /** Any change confined to four consecutive bytes of an accepted table, CRC included, is noticed. */
  lemma FourByteChangeRefused(t: seq<byte>, u: seq<byte>, k: nat)
    requires Accepted(t) && |u| == |t| && k + 4 <= |t|
    requires t != u && t[..k] == u[..k] && t[k + 4..] == u[k + 4..]
    ensures !Accepted(u)
  {
    Edac.FourBytesBreakSeal(t, u, k);
  }

  /** So is any burst of at most 32 bits, on whatever bit it starts. */
  lemma BurstRefused(t: seq<byte>, u: seq<byte>, i: nat, width: nat)
    requires Accepted(t) && |u| == |t| && width <= 32
    requires Edac.BurstAt(Edac.Stream(t), Edac.Stream(u), i, width)
    ensures !Accepted(u)
  {
    Edac.BurstBreaksSeal(t, u, i, width);
  }

  // ---------------------------------------------------------------- the iterator

  /** A table as the iterator needs it: entries, then a pad and CRC it does not look into. */
  ghost predicate Layout(kind: Table, es: seq<Entry>, tail: seq<byte>, table: seq<byte>) {
    AllWellFormed(kind, es) && 4 <= |tail| <= 7 && table == Concat(es) + tail
  }

  lemma SealHasLayout(kind: Table, es: seq<Entry>) returns (tail: seq<byte>)
    requires AllWellFormed(kind, es)
    ensures Layout(kind, es, tail, Seal(Concat(es)))
  {
    PadAligns(|Concat(es)|, 0);
    tail := Zeros(PadSize(|Concat(es)|)) + Edac.CrcField(Padded(Concat(es)));
  }

  /** The seven-byte cut-off never swallows an entry and never takes the tail for one. */
  lemma CutOffIsExact(kind: Table, es: seq<Entry>, tail: seq<byte>, table: seq<byte>, i: nat)
    requires Layout(kind, es, tail, table) && i <= |es|
    ensures var pos := |Concat(es[..i])|;
      && pos <= |table| && (|table| - pos <= 7 <==> i == |es|)
      && (i < |es| ==>
          table[pos..] == es[i] + (Concat(es[i + 1..]) + tail) && EntryLength(kind, table[pos..]) == |es[i]|)
  {
    var pos := |Concat(es[..i])|;
    if i == |es| {
      assert es[..i] == es;
    } else {
      ConcatAt(es, i);
      var rest := Concat(es[i + 1..]) + tail;
      LengthIsLocal(kind, es[i], rest);
      assert table[pos..] == es[i] + rest;
    }
  }

  class TableIterator {
    const kind: Table
    const table: seq<byte>
    var pos: nat
    ghost const entries: seq<Entry>
    ghost const tail: seq<byte>
    ghost var index: nat

    ghost predicate Valid()
      reads this
    {
      Layout(kind, entries, tail, table) && index <= |entries| && pos == |Concat(entries[..index])|
    }

    constructor (table: seq<byte>, kind: Table, ghost entries: seq<Entry>, ghost tail: seq<byte>)
      requires Layout(kind, entries, tail, table)
      ensures Valid() && index == 0 && pos == 0
      ensures this.table == table && this.kind == kind && this.entries == entries && this.tail == tail
    {
      this.table, this.kind, this.pos := table, kind, 0;
      this.entries, this.tail, this.index := entries, tail, 0;
    }

    /** pldm_bios_table_iter_is_end: true exactly when every entry has been visited. */
    method IsEnd() returns (end: bool)
      requires Valid()
      ensures end <==> index == |entries|
    {
      CutOffIsExact(kind, entries, tail, table, index);
      if pos > |table| || |table| - pos <= 7 {
        return true;
      }
      return EntryLength(kind, table[pos..]) < 0;
    }

    /** pldm_bios_table_iter_value: the bytes from the current entry on. */
    method Value() returns (b: seq<byte>)
      requires Valid()
      ensures pos <= |table| && b == table[pos..]
      ensures index < |entries| ==> entries[index] <= b
    {
      CutOffIsExact(kind, entries, tail, table, index);
      return table[pos..];
    }

    /** The current entry cut out at the length its handler gives. */
    method Entry() returns (b: seq<byte>)
      requires Valid() && index < |entries|
      ensures b == entries[index]
    {
      CutOffIsExact(kind, entries, tail, table, index);
      var v := Value();
      b := v[..EntryLength(kind, v)];
    }

    /** An equality handler applied to the current entry. */
    method Test(key: Key) returns (m: bool)
      requires Valid() && index < |entries| && Fits(kind, key)
      ensures WellFormed(kind, entries[index]) && m == Matches(kind, key, entries[index])
    {
      CutOffIsExact(kind, entries, tail, table, index);
      MatchIsLocal(kind, key, entries[index], Concat(entries[index + 1..]) + tail);
      var b := Value();
      m := Matches(kind, key, b);
    }

    /** pldm_bios_table_iter_next: on to the next entry, or nowhere from the end. */
    method Next()
      requires Valid()
      modifies this
      ensures Valid() && index == if old(index) < |entries| then old(index) + 1 else old(index)
    {
      CutOffIsExact(kind, entries, tail, table, index);
      var end := IsEnd();
      if end {
        return;
      }
      ConcatAt(entries, index);
      pos := pos + EntryLength(kind, table[pos..]);
      index := index + 1;
    }
  }

  /** Walking a table from end to end visits exactly its entries, in order, and stops. */
  method Walk(table: seq<byte>, kind: Table, ghost es: seq<Entry>, ghost tail: seq<byte>) returns (visited: seq<Entry>)
    requires Layout(kind, es, tail, table)
    ensures visited == es
  {
    var iter := new TableIterator(table, kind, es, tail);
    visited := [];
    while true
      invariant iter.Valid() && iter.table == table && iter.kind == kind && iter.entries == es && iter.tail == tail
      invariant visited == es[..iter.index]
      decreases |es| - iter.index
    {
      var end := iter.IsEnd();
      if end {
        return;
      }
      var e := iter.Entry();
      visited := visited + [e];
      iter.Next();
    }
  }

  // ---------------------------------------------------------------- lookups

  datatype Key =
    | ByHandle(handle: u16)
    | ByName(handle: u16)
    | ByText(text: seq<byte>)

  /** The equal handlers; each belongs to tables of one kind. */
  predicate Fits(kind: Table, key: Key) {
    match key
    case ByHandle(_) => true
    case ByName(_) => kind == Attributes
    case ByText(_) => kind == Strings
  }

  /** A string is compared through its length modulo 2^16, as the C code keeps it in a uint16_t. */
  predicate Matches(kind: Table, key: Key, b: seq<byte>)
    requires Fits(kind, key) && |b| >= 4 && (kind == Attributes ==> |b| >= 5)
  {
    match key
    case ByHandle(h) => Handle(b) == h
    case ByName(h) => Word(b[3], b[4]) == h
    case ByText(s) =>
      var n := |s| % 0x1_0000;
      n == Word(b[2], b[3]) && 4 + n <= |b| && b[4..4 + n] == s[..n]
  }

  lemma MatchIsLocal(kind: Table, key: Key, e: Entry, rest: seq<byte>)
    requires Fits(kind, key) && WellFormed(kind, e)
    ensures Matches(kind, key, e + rest) == Matches(kind, key, e)
  {
    if key.ByText? {
      var n := |key.text| % 0x1_0000;
      if 4 + n <= |e| {
        assert (e + rest)[4..4 + n] == e[4..4 + n];
      }
    }
  }

  /**
   What a match means for entries that the encoders wrote: a string is found by its text, as long as that fits 16 bits.
   */
  lemma StringMatches(handle: u16, text: seq<byte>, h: u16, s: seq<byte>)
    requires 0 < |text| < 0x1_0000
    ensures var e := StringBytes(handle, text);
      && WellFormed(Strings, e) && (Matches(Strings, ByHandle(h), e) <==> h == handle)
      && (Matches(Strings, ByText(s), e) <==> s[..|s| % 0x1_0000] == text)
      && (|s| < 0x1_0000 ==> (Matches(Strings, ByText(s), e) <==> s == text))
  {
    var e := StringBytes(handle, text);
    assert e + [] == e;
    StringRoundTrip(handle, text, []);
    assert e[4..] == text;
    if |s| < 0x1_0000 {
      assert s[..|s| % 0x1_0000] == s;
    }
  }

  /** An attribute is found by its own handle and by that of its name. */
  lemma AttrMatches(handle: u16, a: Attr, h: u16)
    requires Acceptable(a)
    ensures var e := AttrBytes(handle, a);
      && WellFormed(Attributes, e) && (Matches(Attributes, ByHandle(h), e) <==> h == handle)
      && (Matches(Attributes, ByName(h), e) <==> h == a.name)
  {
    var e := AttrBytes(handle, a);
    AttrAlone(handle, a, e);
    assert e[..5] == AttrHeader(handle, a);
    assert e[3] == Le16(a.name)[0] && e[4] == Le16(a.name)[1];
  }

  /** Index of the first matching entry, or the number of entries. */
  ghost function FirstMatch(kind: Table, key: Key, es: seq<Entry>): (i: nat)
    requires Fits(kind, key) && AllWellFormed(kind, es)
    ensures i <= |es|
    ensures i < |es| ==> Matches(kind, key, es[i])
    ensures forall j :: 0 <= j < i ==> !Matches(kind, key, es[j])
  {
    if es == [] then 0 else if Matches(kind, key, es[0]) then 0 else 1 + FirstMatch(kind, key, es[1..])
  }

  lemma FirstMatchIs(kind: Table, key: Key, es: seq<Entry>, k: nat)
    requires Fits(kind, key) && AllWellFormed(kind, es) && k <= |es|
    requires (forall j :: 0 <= j < k ==> !Matches(kind, key, es[j])) && (k < |es| ==> Matches(kind, key, es[k]))
    ensures FirstMatch(kind, key, es) == k
  {
  }

  /** pldm_bios_table_entry_find_from_table: the first matching entry, or none. */
  method Find(table: seq<byte>, kind: Table, key: Key, ghost es: seq<Entry>, ghost tail: seq<byte>)
      returns (r: Option<nat>)
    requires Layout(kind, es, tail, table) && Fits(kind, key)
    ensures var k := FirstMatch(kind, key, es);
      r == (if k == |es| then None else Some(|Concat(es[..k])|))
    ensures r.Some? ==> r.value <= |table| && es[FirstMatch(kind, key, es)] <= table[r.value..]
  {
    var iter := new TableIterator(table, kind, es, tail);
    while true
      invariant iter.Valid() && iter.table == table && iter.kind == kind && iter.entries == es && iter.tail == tail
      invariant forall j :: 0 <= j < iter.index ==> !Matches(kind, key, es[j])
      decreases |es| - iter.index
    {
      var end := iter.IsEnd();
      if end {
        FirstMatchIs(kind, key, es, iter.index);
        return None;
      }
      var found := iter.Test(key);
      if found {
        FirstMatchIs(kind, key, es, iter.index);
        CutOffIsExact(kind, es, tail, table, iter.index);
        return Some(iter.pos);
      }
      iter.Next();
    }
  }

  // ---------------------------------------------------------------- pad and checksum

  lemma SealLength(data: seq<byte>)
    ensures |Seal(data)| == |data| + PadSize(|data|) + 4
  {
  }

  /** pldm_bios_table_append_pad_checksum. */
  method AppendPadChecksum(table: array<byte>, capacity: nat, size: nat) returns (rc: Rc, newSize: nat)
    requires capacity <= table.Length
    modifies table
    ensures rc == if capacity < size + PadSize(size) + 4 then InvalidLength else Success
    ensures rc == Success <==> size + (if size % 4 == 0 then 4 else 8 - size % 4) <= capacity
    ensures rc == Success ==> newSize <= capacity && Finished(old(table[..size]), table[..newSize])
    ensures rc == Success ==> table[newSize..] == old(table[newSize..])
    ensures rc != Success ==> newSize == size && table[..] == old(table[..])
    ensures rc == Success ==> newSize == |Seal(old(table[..size]))| <= capacity
    ensures rc == Success ==> table[..] == Overlay(old(table[..]), 0, Seal(old(table[..size])))
  {
    TailSize(size);
    var pad := PadSize(size);
    if capacity < size + pad + 4 {
      return InvalidLength, size;
    }
    ghost var was, data := table[..], table[..size];
    assert table[..] == Overlay(was, 0, data);
    AppendPad(table, size, pad, was, data);
    AppendChecksum(table, size + pad, was, Padded(data));
    SealIsFinished(data);
    OverlayFront(was, Seal(data));
    return Success, size + pad + 4;
  }

  /** pad_append. */
  method AppendPad(table: array<byte>, size: nat, pad: nat, ghost was: seq<byte>, ghost data: seq<byte>)
    requires size == |data| && size + pad <= table.Length == |was| && table[..] == Overlay(was, 0, data)
    modifies table
    ensures table[..] == Overlay(was, 0, data + Zeros(pad))
  {
    assert data + Zeros(0) == data;
    for k := 0 to pad
      invariant table[..] == Overlay(was, 0, data + Zeros(k))
    {
      Append(table, was, data + Zeros(k), size + k, [0]);
      assert data + Zeros(k) + [0] == data + Zeros(k + 1);
    }
  }

  /** checksum_append: the CRC of the first `size` bytes, which are `done`, behind them. */
  method AppendChecksum(table: array<byte>, size: nat, ghost was: seq<byte>, ghost done: seq<byte>)
    requires size == |done| && size + 4 <= table.Length == |was| && table[..] == Overlay(was, 0, done)
    modifies table
    ensures table[..] == Overlay(was, 0, done + Edac.CrcField(done))
  {
    assert table[..size] == done;
    var crc := Edac.Crc32(table[..size]);
    Append(table, was, done, size, Edac.LeBytes(crc));
  }

  // ---------------------------------------------------------------- copy and update

  predicate SameHandle(x: Entry, e: Entry)
    requires |x| >= 3 && |e| >= 3
  {
    Handle(x) == Handle(e)
  }

  /** An entry for the same attribute with another type. */
  predicate Clash(x: Entry, e: Entry)
    requires |x| >= 3 && |e| >= 3
  {
    SameHandle(x, e) && x[2] != e[2]
  }

  function Replace(x: Entry, e: Entry): Entry
    requires |x| >= 3 && |e| >= 3
  {
    if SameHandle(x, e) then e else x
  }

  ghost predicate Sizable(es: seq<Entry>) { forall i :: 0 <= i < |es| ==> |es[i]| >= 3 }

  /** The entry list with every entry for e's attribute replaced by e. */
  ghost function Replaced(es: seq<Entry>, e: Entry): (r: seq<Entry>)
    requires Sizable(es) && |e| >= 3
    ensures |r| == |es| && forall i :: 0 <= i < |es| ==> r[i] == Replace(es[i], e)
  {
    seq(|es|, i requires 0 <= i < |es| => Replace(es[i], e))
  }

  ghost predicate NoClash(es: seq<Entry>, e: Entry)
    requires Sizable(es) && |e| >= 3
  {
    forall i :: 0 <= i < |es| ==> !Clash(es[i], e)
  }

  /** The bytes copied for the first i entries. */
  ghost function Copied(es: seq<Entry>, e: Entry, i: nat): seq<byte>
    requires Sizable(es) && |e| >= 3 && i <= |es|
  {
    Concat(Replaced(es[..i], e))
  }

  lemma CopiedStep(es: seq<Entry>, e: Entry, i: nat)
    requires Sizable(es) && |e| >= 3 && i < |es|
    ensures Copied(es, e, i + 1) == Copied(es, e, i) + Replace(es[i], e)
  {
    var r := Replaced(es[..i + 1], e);
    ConcatAt(r, i);
    assert r[..i] == Replaced(es[..i], e) && r[..i + 1] == r;
  }

  lemma {:induction false} CopiedGrows(es: seq<Entry>, e: Entry, i: nat, m: nat)
    requires Sizable(es) && |e| >= 3 && i <= m <= |es|
    ensures |Copied(es, e, i)| <= |Copied(es, e, m)|
    decreases m - i
  {
    if i < m {
      CopiedStep(es, e, i);
      CopiedGrows(es, e, i + 1, m);
    }
  }

  /** The first clash, and everything before it fits. */
  ghost predicate ClashReached(es: seq<Entry>, e: Entry, capacity: nat, m: nat)
    requires Sizable(es) && |e| >= 3
  {
    m < |es| && Clash(es[m], e) && NoClash(es[..m], e) && |Copied(es, e, m)| <= capacity
  }

  /** What the length errors mean: too long somewhere is too long as a whole, and hides every later clash. */
  lemma Overflow(es: seq<Entry>, e: Entry, capacity: nat, i: nat)
    requires Sizable(es) && |e| >= 3 && i <= |es| && NoClash(es[..i], e) && |Copied(es, e, i)| > capacity
    ensures |Seal(Concat(Replaced(es, e)))| > capacity
    ensures forall m: nat :: !ClashReached(es, e, capacity, m)
  {
    assert es[..|es|] == es;
    CopiedGrows(es, e, i, |es|);
    forall m: nat ensures !ClashReached(es, e, capacity, m) {
      assert m < i ==> es[..i][m] == es[m];
      if i <= m <= |es| {
        CopiedGrows(es, e, i, m);
      }
    }
  }

  /** The copy loop: the first clash or overflow ends it. */
  method CopyEntries(src: seq<byte>, dest: array<byte>, destLength: nat, e: Entry, ghost es: seq<Entry>,
                     ghost tail: seq<byte>)
    returns (rc: Rc, copied: nat)
    requires Layout(Values, es, tail, src) && |e| >= 3 && destLength <= dest.Length
    modifies dest
    ensures Sizable(es)
    ensures rc == Success ==> NoClash(es, e) && copied == |Copied(es, e, |es|)| <= destLength
    ensures rc == Success ==> dest[..] == Overlay(old(dest[..]), 0, Copied(es, e, |es|))
    ensures rc == InvalidData ==> exists m: nat :: ClashReached(es, e, destLength, m)
    ensures rc == InvalidLength ==> exists i: nat :: OverflowAt(es, e, destLength, i)
    ensures dest[destLength..] == old(dest[destLength..])
  {
    ghost var was := dest[..];
    var iter := new TableIterator(src, Values, es, tail);
    copied := 0;
    assert Copied(es, e, 0) == [];
    while true
      invariant iter.Valid() && iter.table == src && iter.kind == Values && iter.entries == es && iter.tail == tail
      invariant NoClash(es[..iter.index], e)
      invariant copied == |Copied(es, e, iter.index)| <= destLength
      invariant dest[..] == Overlay(was, 0, Copied(es, e, iter.index))
      decreases |es| - iter.index
    {
      ghost var i := iter.index;
      OverlayBeyond(was, Copied(es, e, i), destLength);
      var end := iter.IsEnd();
      if end {
        assert es[..|es|] == es;
        return Success, copied;
      }
      var tmp := iter.Entry();
      iter.Next();
      if Handle(tmp) == Handle(e) {
        if tmp[2] != e[2] {
          assert ClashReached(es, e, destLength, i);
          return InvalidData, copied;
        }
        tmp := e;
      }
      CopiedStep(es, e, i);
      NoClashStep(es, e, i);
      if copied + |tmp| > destLength {
        assert OverflowAt(es, e, destLength, i + 1);
        return InvalidLength, copied;
      }
      Append(dest, was, Copied(es, e, i), copied, tmp);
      copied := copied + |tmp|;
    }
  }

  lemma NoClashStep(es: seq<Entry>, e: Entry, i: nat)
    requires Sizable(es) && |e| >= 3 && i < |es| && NoClash(es[..i], e) && !Clash(es[i], e)
    ensures NoClash(es[..i + 1], e)
  {
    var p, q := es[..i + 1], es[..i];
    forall j | 0 <= j < |p| ensures !Clash(p[j], e) {
      assert j < i ==> q[j] == p[j];
    }
  }

  ghost predicate OverflowAt(es: seq<Entry>, e: Entry, capacity: nat, i: nat)
    requires Sizable(es) && |e| >= 3
  {
    i <= |es| && NoClash(es[..i], e) && |Copied(es, e, i)| > capacity
  }

  lemma ClashExcludes(es: seq<Entry>, e: Entry, capacity: nat)
    requires Sizable(es) && |e| >= 3
    ensures (exists m: nat :: ClashReached(es, e, capacity, m)) ==> !NoClash(es, e)
    ensures (exists i: nat :: OverflowAt(es, e, capacity, i)) ==>
              |Seal(Concat(Replaced(es, e)))| > capacity && !(exists m: nat :: ClashReached(es, e, capacity, m))
  {
    if exists i: nat :: OverflowAt(es, e, capacity, i) {
      var i: nat :| OverflowAt(es, e, capacity, i);
      Overflow(es, e, capacity, i);
    }
  }

  /**
   pldm_bios_table_attr_value_copy_and_update. `destLength` goes in as the room in `dest` and comes out as the length
   of the new table. It succeeds exactly when no entry for the attribute has another type and the padded result fits,
   and the result is the source's entry list with e in place of each entry for e's attribute.
   */
  method CopyAndUpdate(src: seq<byte>, dest: array<byte>, destLength: nat, e: Entry,
                       ghost es: seq<Entry>, ghost tail: seq<byte>)
    returns (rc: Rc, newLength: nat)
    requires Layout(Values, es, tail, src) && |e| >= 3 && destLength <= dest.Length
    modifies dest
    ensures Sizable(es)
    ensures rc == Success <==> NoClash(es, e) && |Seal(Concat(Replaced(es, e)))| <= destLength
    ensures rc == InvalidData <==> exists m: nat :: ClashReached(es, e, destLength, m)
    ensures rc == Success ==> newLength == |Seal(Concat(Replaced(es, e)))|
    ensures rc == Success ==> dest[..] == Overlay(old(dest[..]), 0, Seal(Concat(Replaced(es, e))))
    ensures rc == Success ==> newLength <= destLength && Finished(Concat(Replaced(es, e)), dest[..newLength])
    ensures rc != Success ==> newLength == destLength && dest[destLength..] == old(dest[destLength..])
  {
    var copied;
    rc, copied := CopyEntries(src, dest, destLength, e, es, tail);
    newLength := destLength;
    ClashExcludes(es, e, destLength);
    if rc != Success {
      return;
    }
    assert es[..|es|] == es;
    ghost var data := Concat(Replaced(es, e));
    SealLength(data);
    if PadSize(copied) + 4 + copied > destLength {
      rc := InvalidLength;
      return;
    }
    assert dest[..copied] == data;
    SealStartsWith(old(dest[..]), data);
    var size;
    rc, size := AppendPadChecksum(dest, destLength, copied);
    SealIsFinished(data);
    OverlayFront(old(dest[..]), Seal(data));
    newLength := size;
  }

  lemma SealStartsWith(was: seq<byte>, data: seq<byte>)
    requires |Seal(data)| <= |was|
    ensures Overlay(Overlay(was, 0, data), 0, Seal(data)) == Overlay(was, 0, Seal(data))
  {
  }

  /** For entries that value encoders wrote: the same attribute and another type. */
  lemma ClashMeans(v: Value, w: Value)
    requires ValueAcceptable(v) && ValueAcceptable(w)
    ensures Sizable([ValueBytes(v), ValueBytes(w)])
    ensures Clash(ValueBytes(v), ValueBytes(w)) <==> v.handle == w.handle && v.attrType != w.attrType
    ensures Replace(ValueBytes(v), ValueBytes(w)) == ValueBytes(if v.handle == w.handle then w else v)
  {
    ValueRoundTrip(v, []);
    ValueRoundTrip(w, []);
    assert ValueBytes(v) + [] == ValueBytes(v) && ValueBytes(w) + [] == ValueBytes(w);
  }

  /** With a well-formed new entry the new table is well-formed again, so it can be walked and updated in turn. */
  lemma UpdatedIsWellFormed(es: seq<Entry>, e: Entry)
    requires AllWellFormed(Values, es) && WellFormed(Values, e)
    ensures Sizable(es) && AllWellFormed(Values, Replaced(es, e))
  {
  }

  /** Looking up any other attribute gives the same entry at the same place in the list as before. */
  lemma OtherLookupsUnchanged(es: seq<Entry>, e: Entry, h: u16)
    requires AllWellFormed(Values, es) && WellFormed(Values, e) && h != Handle(e)
    ensures Sizable(es) && AllWellFormed(Values, Replaced(es, e))
    ensures var k := FirstMatch(Values, ByHandle(h), es);
      FirstMatch(Values, ByHandle(h), Replaced(es, e)) == k && (k < |es| ==> Replaced(es, e)[k] == es[k])
  {
  }

  /** Looking up the updated attribute gives the new entry, where there was an entry for it before. */
  lemma UpdatedLookup(es: seq<Entry>, e: Entry)
    requires AllWellFormed(Values, es) && WellFormed(Values, e)
    ensures Sizable(es) && AllWellFormed(Values, Replaced(es, e))
    ensures var k := FirstMatch(Values, ByHandle(Handle(e)), es);
      FirstMatch(Values, ByHandle(Handle(e)), Replaced(es, e)) == k && (k < |es| ==> Replaced(es, e)[k] == e)
  {
  }

  /** Updating twice with the same entry is updating once. */
  lemma UpdateIsIdempotent(es: seq<Entry>, e: Entry)
    requires Sizable(es) && |e| >= 3
    ensures Sizable(Replaced(es, e)) && Replaced(Replaced(es, e), e) == Replaced(es, e) && NoClash(Replaced(es, e), e)
  {
  }

  // ---------------------------------------------------------------- handles

  /** Entries that attribute encoders wrote one after the other, starting at handle `first`. */
  ghost predicate Issued(first: nat, attrs: seq<Attr>, es: seq<Entry>) {
    first + |attrs| <= 0xffff && |es| == |attrs| &&
    forall i, h: u16, a, e ::
      0 <= i < |attrs| && h == first + i && a == attrs[i] && e == es[i] ==> Wrote(h, a, e)
  }

  lemma IssuedEntry(first: nat, attrs: seq<Attr>, es: seq<Entry>, i: nat)
    requires Issued(first, attrs, es) && i < |es|
    ensures ReadsBack(first + i, attrs[i], es[i])
  {
    var h, a, e := first + i, attrs[i], es[i];
    AttrAlone(h, a, e);
  }

  lemma IssuedHandles(first: nat, attrs: seq<Attr>, es: seq<Entry>)
    requires Issued(first, attrs, es)
    ensures AllWellFormed(Attributes, es) && forall i :: 0 <= i < |es| ==> Handle(es[i]) == first + i
  {
    forall i | 0 <= i < |es| ensures WellFormed(Attributes, es[i]) && Handle(es[i]) == first + i {
      IssuedEntry(first, attrs, es, i);
    }
  }

  lemma IssuedOneMore(first: nat, attrs: seq<Attr>, es: seq<Entry>, h: u16, a: Attr, e: Entry)
    requires Issued(first, attrs, es) && h == first + |attrs| < 0xffff && Wrote(h, a, e)
    ensures Issued(first, attrs + [a], es + [e])
  {
  }

  /** Position of the entry with a handle, among entries whose handles are consecutive from `first`. */
  function PlaceOf(first: nat, n: nat, h: nat): (k: nat)
    ensures k <= n
  {
    if first <= h < first + n then h - first else n
  }

  /** Handles are not reused, so a handle finds the very entry it was issued for, and a handle not issued finds none. */
  lemma {:induction false} IssuedEntryIsFound(first: nat, attrs: seq<Attr>, es: seq<Entry>, h: u16)
    requires Issued(first, attrs, es)
    ensures AllWellFormed(Attributes, es) && FirstMatch(Attributes, ByHandle(h), es) == PlaceOf(first, |es|, h)
    ensures first <= h < first + |es| ==> ReadsBack(h, attrs[h - first], es[h - first])
  {
    IssuedHandles(first, attrs, es);
    if first <= h < first + |es| {
      IssuedEntry(first, attrs, es, h - first);
    }
    FirstMatchIs(Attributes, ByHandle(h), es, PlaceOf(first, |es|, h));
  }

  /**
   Entry i was written for the attribute that a run of the encoders issued handle hs[i] for; `history` is what it
   issued.
   */
  ghost predicate Drawn(history: seq<Attr>, hs: seq<u16>, es: seq<Entry>, i: nat)
    requires i < |hs| == |es|
  {
    hs[i] < |history| && Wrote(hs[i], history[hs[i]], es[i])
  }

  /** So it is for any selection of issued entries in any order: each is found by its own handle. */
  lemma SelectionIsFound(history: seq<Attr>, hs: seq<u16>, es: seq<Entry>, k: nat)
    requires k < |hs| == |es| && forall i :: 0 <= i < |es| ==> Drawn(history, hs, es, i)
    requires forall i, j :: 0 <= i < j < |hs| ==> hs[i] != hs[j]
    ensures AllWellFormed(Attributes, es) && FirstMatch(Attributes, ByHandle(hs[k]), es) == k
    ensures hs[k] < |history| && ReadsBack(hs[k], history[hs[k]], es[k])
  {
    forall i | 0 <= i < |es| ensures hs[i] < |history| && ReadsBack(hs[i], history[hs[i]], es[i]) {
      assert Drawn(history, hs, es, i);
      AttrAlone(hs[i], history[hs[i]], es[i]);
    }
    FirstMatchIs(Attributes, ByHandle(hs[k]), es, k);
  }

  /** A call of one of the three attribute encoders, with the buffer it is given. */
  datatype Ask =
    | AskAttr(a: Attr, buffer: seq<byte>)
    | AskString(info: StringInfo, buffer: seq<byte>)

  predicate Proper(ask: Ask) {
    ask.AskAttr? ==> ask.a.IntegerAttr? || (ask.a.EnumAttr? && |ask.a.possible| < 256 && |ask.a.defaults| < 256)
  }

  /** The attribute a call encodes, if it succeeds when `next` is the next handle. */
  function Encodes(ask: Ask, next: nat): (r: Option<Attr>)
    requires Proper(ask)
    ensures r.Some? ==> Acceptable(r.value) && next < 0xffff
  {
    if next >= 0xffff then None
    else match ask
      case AskAttr(a, buffer) =>
        if |buffer| >= (if a.EnumAttr? then 7 + 2 * |a.possible| + |a.defaults| else 33) && Acceptable(a)
          then Some(a) else None
      case AskString(info, buffer) =>
        if |buffer| >= 12 + info.defLength && StringInfoOk(info)
          then Some(StringAttrOf(info, buffer[12..12 + info.defLength])) else None
  }

  /** The attributes a run of calls encodes, failed ones left out. */
  function EncodesAll(asks: seq<Ask>, next: nat): (r: seq<Attr>)
    requires forall i :: 0 <= i < |asks| ==> Proper(asks[i])
    decreases |asks|
  {
    if asks == [] then []
    else
      var done := EncodesAll(asks[..|asks| - 1], next);
      var last := Encodes(asks[|asks| - 1], next + |done|);
      if last.Some? then done + [last.value] else done
  }

  /** A buffer with the entry of attribute `a` at its start. */
  ghost predicate Leads(h: u16, a: Attr, was: seq<byte>, b: seq<byte>)
    requires Acceptable(a)
  {
    |AttrBytes(h, a)| <= |was| && b == Overlay(was, 0, AttrBytes(h, a))
  }

  method CallString(enc: Encoder, ask: Ask, entry: array<byte>) returns (rc: Rc)
    requires enc.Valid() && ask.AskString? && entry[..] == ask.buffer
    modifies enc, entry
    ensures enc.Valid() && enc.nextString == old(enc.nextString) && enc.strings == old(enc.strings)
    ensures var a := Encodes(ask, old(enc.nextAttr));
      if a.None? then rc != Success && enc.attrs == old(enc.attrs)
      else rc == Success && enc.attrs == old(enc.attrs) + [a.value] &&
           Leads(old(enc.nextAttr), a.value, ask.buffer, entry[..])
  {
    var n: int := ask.info.defLength;
    assert |ask.buffer| >= 12 + n ==> entry[12..12 + n] == entry[..][12..12 + n];
    rc := enc.EncodeStringAttr(entry, ask.info);
  }

  method CallEnum(enc: Encoder, ask: Ask, entry: array<byte>) returns (rc: Rc)
    requires enc.Valid() && Proper(ask) && ask.AskAttr? && ask.a.EnumAttr? && entry[..] == ask.buffer
    modifies enc, entry
    ensures enc.Valid() && enc.nextString == old(enc.nextString) && enc.strings == old(enc.strings)
    ensures var a := Encodes(ask, old(enc.nextAttr));
      if a.None? then rc != Success && enc.attrs == old(enc.attrs)
      else rc == Success && enc.attrs == old(enc.attrs) + [a.value] &&
           Leads(old(enc.nextAttr), a.value, ask.buffer, entry[..])
  {
    rc := enc.EncodeEnum(entry, ask.a);
  }

  method CallInteger(enc: Encoder, ask: Ask, entry: array<byte>) returns (rc: Rc)
    requires enc.Valid() && ask.AskAttr? && ask.a.IntegerAttr? && entry[..] == ask.buffer
    modifies enc, entry
    ensures enc.Valid() && enc.nextString == old(enc.nextString) && enc.strings == old(enc.strings)
    ensures var a := Encodes(ask, old(enc.nextAttr));
      if a.None? then rc != Success && enc.attrs == old(enc.attrs)
      else rc == Success && enc.attrs == old(enc.attrs) + [a.value] &&
           Leads(old(enc.nextAttr), a.value, ask.buffer, entry[..])
  {
    rc := enc.EncodeInteger(entry, ask.a);
  }

  method EncodeAttribute(enc: Encoder, ask: Ask) returns (r: Option<Entry>)
    requires enc.Valid() && Proper(ask)
    modifies enc
    ensures enc.Valid() && enc.nextString == old(enc.nextString) && enc.strings == old(enc.strings)
    ensures var a := Encodes(ask, old(enc.nextAttr));
      if a.Some? then enc.attrs == old(enc.attrs) + [a.value] && r.Some? && Wrote(old(enc.nextAttr), a.value, r.value)
      else enc.attrs == old(enc.attrs) && r.None?
  {
    var entry := new byte[|ask.buffer|](i requires 0 <= i < |ask.buffer| => ask.buffer[i]);
    var rc;
    if ask.AskString? {
      rc := CallString(enc, ask, entry);
    } else if ask.a.EnumAttr? {
      rc := CallEnum(enc, ask, entry);
    } else {
      rc := CallInteger(enc, ask, entry);
    }
    if rc != Success {
      return None;
    }
    ghost var h, a := old(enc.nextAttr), Encodes(ask, old(enc.nextAttr)).value;
    ghost var was := AttrBytes(h, a);
    AttrAlone(h, a, was);
    var e := CutOut(entry, Attributes, ask.buffer, was);
    r := Some(e);
  }

  /** The entry at the start of a buffer, cut out at the length its handler gives. */
  method CutOut(entry: array<byte>, kind: Table, ghost was: seq<byte>, ghost e: Entry) returns (r: Entry)
    requires WellFormed(kind, e) && |e| <= |was| == entry.Length && entry[..] == Overlay(was, 0, e)
    ensures r == e
  {
    assert entry[..] == e + was[|e|..];
    LengthIsLocal(kind, e, was[|e|..]);
    r := entry[..EntryLength(kind, entry[..])];
  }

  ghost predicate Encoded(asks: seq<Ask>, first: nat, i: nat, done: seq<Attr>)
    requires i <= |asks| && forall j :: 0 <= j < |asks| ==> Proper(asks[j])
  {
    done == EncodesAll(asks[..i], first)
  }

  lemma EncodesStep(asks: seq<Ask>, first: nat, i: nat, done: seq<Attr>, next: nat)
    requires next == first + |done| && i < |asks| && forall j :: 0 <= j < |asks| ==> Proper(asks[j])
    requires Encoded(asks, first, i, done)
    ensures var last := Encodes(asks[i], next);
      Encoded(asks, first, i + 1, if last.Some? then done + [last.value] else done)
  {
    assert asks[..i + 1][..i] == asks[..i];
  }

  /**
   A run of calls, with the entries of those that succeed: their handles are consecutive, from the counter's value on.
   */
  method EncodeAttributes(enc: Encoder, asks: seq<Ask>) returns (es: seq<Entry>)
    requires enc.Valid() && forall i :: 0 <= i < |asks| ==> Proper(asks[i])
    modifies enc
    ensures enc.Valid() && enc.nextString == old(enc.nextString) && enc.strings == old(enc.strings)
    ensures enc.attrs == old(enc.attrs) + EncodesAll(asks, old(enc.nextAttr))
    ensures Issued(old(enc.nextAttr), EncodesAll(asks, old(enc.nextAttr)), es)
  {
    es := [];
    ghost var first, before, done := enc.nextAttr, enc.attrs, [];
    for i := 0 to |asks|
      invariant enc.Valid() && enc.nextString == old(enc.nextString) && enc.strings == old(enc.strings)
      invariant Encoded(asks, first, i, done) && enc.attrs == before + done && Issued(first, done, es)
    {
      ghost var h := enc.nextAttr;
      var e := EncodeAttribute(enc, asks[i]);
      EncodesStep(asks, first, i, done, h);
      if e.Some? {
        ghost var a := Encodes(asks[i], h).value;
        IssuedOneMore(first, done, es, h, a, e.value);
        Associates(before, done, [a]);
        es, done := es + [e.value], done + [a];
      }
    }
    assert asks[..|asks|] == asks;
  }

  lemma OverlayAll(buf: seq<byte>, d: seq<byte>)
    requires |d| == |buf|
    ensures Overlay(buf, 0, d) == d
  {
  }

  method Sealing(data: seq<byte>) returns (table: seq<byte>)
    ensures table == Seal(data)
  {
    var buffer := new byte[|data| + PadSize(|data|) + 4](_ => 0);
    Blit(buffer, 0, data);
    ghost var was := buffer[..];
    assert was[..|data|] == data;
    var rc, size := AppendPadChecksum(buffer, buffer.Length, |data|);
    SealLength(data);
    OverlayAll(was, Seal(data));
    table := buffer[..];
  }

  /** Finishes a table of these entries. */
  method Finish(kind: Table, es: seq<Entry>) returns (table: seq<byte>, ghost tail: seq<byte>)
    requires AllWellFormed(kind, es)
    ensures table == Seal(Concat(es)) && Layout(kind, es, tail, table) && Finished(Concat(es), table)
  {
    tail := SealHasLayout(kind, es);
    SealIsFinished(Concat(es));
    table := Sealing(Concat(es));
  }

  /**
   Looks a handle up in a table of issued attributes and decodes what is found: it is what the handle was issued for.
   */
  method LookUpAttribute(table: seq<byte>, h: u16, ghost tail: seq<byte>, ghost first: nat, ghost attrs: seq<Attr>,
                         ghost es: seq<Entry>)
    returns (r: Option<Attr>)
    requires Layout(Attributes, es, tail, table) && Issued(first, attrs, es)
    ensures r == if first <= h < first + |attrs| then Some(attrs[h - first]) else None
  {
    IssuedEntryIsFound(first, attrs, es, h);
    var p := Find(table, Attributes, ByHandle(h), es, tail);
    if p.None? {
      return None;
    }
    AttributeThere(table, h, tail, first, attrs, es, h - first);
    return Some(DecodeAttr(table[p.value..]));
  }

  lemma AttributeThere(table: seq<byte>, h: u16, tail: seq<byte>, first: nat, attrs: seq<Attr>, es: seq<Entry>, k: nat)
    requires Layout(Attributes, es, tail, table) && Issued(first, attrs, es) && k < |es| && h == first + k
    ensures var p := |Concat(es[..k])|;
      && p <= |table| && 0 <= EntryLength(Attributes, table[p..]) <= |table[p..]|
      && DecodeAttr(table[p..]) == attrs[k]
  {
    CutOffIsExact(Attributes, es, tail, table, k);
    assert Wrote(h, attrs[k], es[k]);
    AttrRoundTrip(h, attrs[k], Concat(es[k + 1..]) + tail);
  }

  /**
   From the calls to the answer: whatever failed on the way, a handle gives back the attribute that was encoded under
   it.
   */
  method EncodeAndLookUp(enc: Encoder, asks: seq<Ask>, h: u16) returns (r: Option<Attr>)
    requires enc.Valid() && forall i :: 0 <= i < |asks| ==> Proper(asks[i])
    modifies enc
    ensures var first := old(enc.nextAttr); var attrs := EncodesAll(asks, first);
      r == if first <= h < first + |attrs| then Some(attrs[h - first]) else None
  {
    ghost var first := enc.nextAttr;
    ghost var attrs := EncodesAll(asks, first);
    var es := EncodeAttributes(enc, asks);
    IssuedEntryIsFound(first, attrs, es, h);
    var table, tail := Finish(Attributes, es);
    r := LookUpAttribute(table, h, tail, first, attrs, es);
  }

  // ---------------------------------------------------------------- handles of strings

  predicate WroteString(h: u16, text: seq<byte>, e: Entry) { 0 < |text| < 0x1_0000 && e == StringBytes(h, text) }

  /** Entries that the string encoder wrote one after the other, starting at handle `first`. */
  ghost predicate StringsIssued(first: nat, texts: seq<seq<byte>>, es: seq<Entry>) {
    first + |texts| <= 0xffff && |es| == |texts| && forall i :: 0 <= i < |texts| ==>
      WroteString(first + i, texts[i], es[i])
  }

  /** What the lookup by text really looks for: it keeps the length of the text in 16 bits. */
  function Shortened(t: seq<byte>): (s: seq<byte>)
    ensures |s| < 0x1_0000
    ensures |t| < 0x1_0000 ==> s == t
  {
    t[..|t| % 0x1_0000]
  }

  lemma StringsMatch(first: nat, texts: seq<seq<byte>>, es: seq<Entry>, h: u16, t: seq<byte>)
    requires StringsIssued(first, texts, es)
    ensures AllWellFormed(Strings, es)
    ensures forall i :: 0 <= i < |es| ==>
      && (Matches(Strings, ByHandle(h), es[i]) <==> h == first + i)
      && (Matches(Strings, ByText(t), es[i]) <==> Shortened(t) == texts[i])
  {
    forall i | 0 <= i < |es|
      ensures WellFormed(Strings, es[i]) && (Matches(Strings, ByHandle(h), es[i]) <==> h == first + i)
      ensures Matches(Strings, ByText(t), es[i]) <==> Shortened(t) == texts[i]
    {
      StringMatches(first + i, texts[i], h, t);
    }
  }

  /** A handle finds the very string it was issued for, and a handle not issued finds none. */
  lemma IssuedStringIsFound(first: nat, texts: seq<seq<byte>>, es: seq<Entry>, h: u16)
    requires StringsIssued(first, texts, es)
    ensures AllWellFormed(Strings, es) && FirstMatch(Strings, ByHandle(h), es) == PlaceOf(first, |es|, h)
  {
    StringsMatch(first, texts, es, h, []);
    FirstMatchIs(Strings, ByHandle(h), es, PlaceOf(first, |es|, h));
  }

  /** A text finds the first string that is its shortened form, and finds one exactly when there is one. */
  lemma {:induction false} IssuedTextIsFound(first: nat, texts: seq<seq<byte>>, es: seq<Entry>, t: seq<byte>)
    requires StringsIssued(first, texts, es)
    ensures AllWellFormed(Strings, es)
    ensures var k := FirstMatch(Strings, ByText(t), es);
      && (k < |es| <==> Shortened(t) in texts) && (k < |es| ==> texts[k] == Shortened(t))
      && forall j :: 0 <= j < k ==> texts[j] != Shortened(t)
  {
    StringsMatch(first, texts, es, 0, t);
  }

  lemma LongTextIsNotThere(first: nat, texts: seq<seq<byte>>, es: seq<Entry>, t: seq<byte>)
    requires StringsIssued(first, texts, es) && t in texts
    ensures |t| < 0x1_0000
  {
    var i :| 0 <= i < |texts| && texts[i] == t;
    assert WroteString(first + i, texts[i], es[i]);
  }

  /**
   So the lookup tells whether a text is there exactly when the text fits 16 bits or its shortened form is not there
   either.
   */
  lemma TextLookupIsRight(first: nat, texts: seq<seq<byte>>, es: seq<Entry>, t: seq<byte>)
    requires StringsIssued(first, texts, es)
    ensures AllWellFormed(Strings, es)
    ensures (FirstMatch(Strings, ByText(t), es) < |es| <==> t in texts) <==> |t| < 0x1_0000 || Shortened(t) !in texts
  {
    IssuedTextIsFound(first, texts, es, t);
    if t in texts {
      LongTextIsNotThere(first, texts, es, t);
    }
  }

  /** Any text of 2^16 + 1 bytes finds an entry that holds its first byte only. */
  lemma LongTextFindsAnother(handle: u16, t: seq<byte>, texts: seq<seq<byte>>, es: seq<Entry>)
    requires handle < 0xffff && |t| == 0x1_0001 && texts == [[t[0]]] && es == [StringBytes(handle, [t[0]])]
    ensures StringsIssued(handle, texts, es) && AllWellFormed(Strings, es)
    ensures FirstMatch(Strings, ByText(t), es) == 0 && t !in texts
  {
    assert WroteString(handle, texts[0], es[0]);
    assert Shortened(t) == [t[0]] == texts[0];
    IssuedTextIsFound(handle, texts, es, t);
  }

  /** A call of the string encoder, with the buffer it is given. */
  datatype AskText = AskText(text: seq<byte>, buffer: seq<byte>)

  predicate TextEncodes(ask: AskText, next: nat) { 0 < |ask.text| && |ask.buffer| >= 4 + |ask.text| && next < 0xffff }

  function TextsEncoded(asks: seq<AskText>, next: nat): (r: seq<seq<byte>>)
    decreases |asks|
  {
    if asks == [] then []
    else
      var done := TextsEncoded(asks[..|asks| - 1], next);
      var last := asks[|asks| - 1];
      if TextEncodes(last, next + |done|) then done + [last.text] else done
  }

  lemma TextsStep(asks: seq<AskText>, first: nat, i: nat, done: seq<seq<byte>>, next: nat)
    requires next == first + |done| && i < |asks| && done == TextsEncoded(asks[..i], first)
    ensures TextsEncoded(asks[..i + 1], first) == if TextEncodes(asks[i], next) then done + [asks[i].text] else done
  {
    assert asks[..i + 1][..i] == asks[..i];
  }

  method EncodeText(enc: Encoder, ask: AskText) returns (r: Option<Entry>)
    requires enc.Valid() && |ask.text| < 0x1_0000
    modifies enc
    ensures enc.Valid() && enc.nextAttr == old(enc.nextAttr) && enc.attrs == old(enc.attrs)
    ensures if TextEncodes(ask, old(enc.nextString))
      then enc.strings == old(enc.strings) + [ask.text] && r.Some? &&
        WroteString(old(enc.nextString), ask.text, r.value)
      else enc.strings == old(enc.strings) && r.None?
  {
    var entry := new byte[|ask.buffer|](i requires 0 <= i < |ask.buffer| => ask.buffer[i]);
    var rc := enc.EncodeString(entry, ask.text);
    if rc != Success {
      return None;
    }
    ghost var e := StringBytes(old(enc.nextString), ask.text);
    StringMatches(old(enc.nextString), ask.text, 0, []);
    var b := CutOut(entry, Strings, ask.buffer, e);
    r := Some(b);
  }

  /** A run of calls, with the entries of those that succeed. */
  method EncodeTexts(enc: Encoder, asks: seq<AskText>) returns (es: seq<Entry>)
    requires enc.Valid() && forall i :: 0 <= i < |asks| ==> |asks[i].text| < 0x1_0000
    modifies enc
    ensures enc.Valid() && enc.nextAttr == old(enc.nextAttr) && enc.attrs == old(enc.attrs)
    ensures enc.strings == old(enc.strings) + TextsEncoded(asks, old(enc.nextString))
    ensures StringsIssued(old(enc.nextString), TextsEncoded(asks, old(enc.nextString)), es)
  {
    es := [];
    ghost var first, before, done := enc.nextString, enc.strings, [];
    for i := 0 to |asks|
      invariant enc.Valid() && enc.nextAttr == old(enc.nextAttr) && enc.attrs == old(enc.attrs)
      invariant done == TextsEncoded(asks[..i], first) && enc.strings == before + done && StringsIssued(first, done, es)
    {
      ghost var h := enc.nextString;
      var e := EncodeText(enc, asks[i]);
      TextsStep(asks, first, i, done, h);
      if e.Some? {
        Associates(before, done, [asks[i].text]);
        es, done := es + [e.value], done + [asks[i].text];
      }
    }
    assert asks[..|asks|] == asks;
  }

  /** From the calls to the answer, for strings. */
  method EncodeAndLookUpText(enc: Encoder, asks: seq<AskText>, h: u16) returns (r: Option<seq<byte>>)
    requires enc.Valid() && forall i :: 0 <= i < |asks| ==> |asks[i].text| < 0x1_0000
    modifies enc
    ensures var first := old(enc.nextString); var texts := TextsEncoded(asks, first);
      r == if first <= h < first + |texts| then Some(texts[h - first]) else None
  {
    ghost var first := enc.nextString;
    ghost var texts := TextsEncoded(asks, first);
    var es := EncodeTexts(enc, asks);
    IssuedStringIsFound(first, texts, es, h);
    var table, tail := Finish(Strings, es);
    var p := Find(table, Strings, ByHandle(h), es, tail);
    if p.None? {
      return None;
    }
    ghost var k := h - first;
    CutOffIsExact(Strings, es, tail, table, k);
    StringRoundTrip(h, texts[k], Concat(es[k + 1..]) + tail);
    return Some(DecodeText(table[p.value..]));
  }
}
