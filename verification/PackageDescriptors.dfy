/**
 Models the descriptors inside a device record: decode_pldm_descriptor_from_iter of
 src/dsp/firmware_update.c and the foreach macros over it, Table 7 of DSP0267 v1.3.0.
 */
module PackageDescriptors {
  import opened Bytes
  import opened Msgbuf
  import opened PackageRecords
  import opened PackageWalk

  datatype Descriptor = Descriptor(typ: nat, value: Span)

  /** Type, length and at least one byte. */
  const MIN_DESCRIPTOR := 5

  /** The first descriptor of a field. */
  function DescriptorOf(data: seq<byte>, f: Span): (r: Step<Descriptor>)
    requires End(f) <= |data|
    ensures End(r.field) == End(f) && f.start <= r.field.start
    ensures r.Got? ==> r.rec.value.start == f.start + 4 && End(r.rec.value) == r.field.start
  {
    if f.length < MIN_DESCRIPTOR || f.length < 4 + Number(data, f.start + 2, U16) then Refused(Overflow, f)
    else
      var n := Number(data, f.start + 2, U16);
      Got(Descriptor(Number(data, f.start, U16), Span(f.start + 4, n)), Span(f.start + 4 + n, f.length - 4 - n))
  }

  /** A descriptor that says it is longer than the field. */
  predicate Torn(data: seq<byte>, f: Span)
    requires End(f) <= |data|
  {
    f.length >= MIN_DESCRIPTOR && f.length < 4 + Number(data, f.start + 2, U16)
  }

  /**
   decode_pldm_descriptor_from_iter. A torn descriptor leaves the field its length but takes its pointer: `lost` is a
   null pointer.
   */
  method DecodeDescriptor(data: seq<byte>, f: Span) returns (r: Step<Descriptor>, lost: bool)
    requires Within(f, data)
    ensures r == DescriptorOf(data, f) && (lost <==> Torn(data, f)) && (r.Refused? ==> r == Refused(Overflow, f))
  {
    if f.length < MIN_DESCRIPTOR {
      return Refused(Overflow, f), false;
    }
    var buf := new Reader(data, f.start, f.length);
    var ok, typ, n, at, start, left;
    ok, typ := buf.Get(U16);
    ok, n := buf.Get(U16);
    ok, at := buf.Take(n);
    lost := true;
    ok, start, left := buf.TakeRest();
    if ok {
      lost := false;
    }
    ok := buf.Complete();
    if !ok {
      return Refused(Overflow, f), lost;
    }
    return Got(Descriptor(typ, Span(at, n)), Span(start, left)), lost;
  }

  function DescriptorsOf(data: seq<byte>, f: Span, n: nat): (c: Collected<Descriptor>)
    requires End(f) <= |data|
    ensures End(c.field) == End(f) && f.start <= c.field.start
    decreases n
  {
    if n == 0 then Collected(Ok, [], f)
    else
      match DescriptorOf(data, f)
      case Refused(rc, g) => Collected(rc, [], g)
      case Got(rec, g) => Prepend([rec], DescriptorsOf(data, g, n - 1))
  }

  /** The descriptor loop over a device record: as many as the record announces, or up to the first refused one. */
  method ForeachDescriptor(data: seq<byte>, d: Device) returns (rc: Rc, recs: seq<Descriptor>, field: Span, lost: bool)
    requires Within(d.descriptors, data)
    ensures End(field) <= |data| && (lost <==> rc != Ok && Torn(data, field))
    ensures Collected(rc, recs, field) == DescriptorsOf(data, d.descriptors, d.descriptorCount)
  {
    recs, field, lost := [], d.descriptors, false;
    var count := d.descriptorCount;
    ghost var goal := DescriptorsOf(data, field, count);
    PrependNothing(goal);
    while count != 0
      invariant !lost && Within(field, data) && goal == Prepend(recs, DescriptorsOf(data, field, count))
      decreases count
    {
      var r;
      r, lost := DecodeDescriptor(data, field);
      if r.Refused? {
        PrependEnd<Descriptor>(recs, r.rc, r.field);
        return r.rc, recs, r.field, lost;
      }
      PrependTwice(recs, r.rec, DescriptorsOf(data, r.field, count - 1));
      recs, field, count := recs + [r.rec], r.field, count - 1;
    }
    PrependEnd<Descriptor>(recs, Ok, field);
    return Ok, recs, field, false;
  }

  // ---------------------------------------------------------------- how they lie

  function Extents(ds: seq<Descriptor>): seq<Span> {
    if ds == [] then [] else [Extent(ds[0])] + Extents(ds[1..])
  }

  function Extent(d: Descriptor): Span {
    if d.value.start >= 4 then Span(d.value.start - 4, 4 + d.value.length) else Span(0, 0)
  }

  /** Descriptors gathered without error are as many as announced, and adjacent. */
  lemma {:induction false} DescriptorsTile(data: seq<byte>, f: Span, n: nat)
    requires End(f) <= |data|
    ensures var c := DescriptorsOf(data, f, n); c.rc == Ok ==>
        |c.recs| == n && Tiles(Extents(c.recs), f.start, c.field.start)
    decreases n
  {
    var r := DescriptorOf(data, f);
    if n > 0 && r.Got? {
      DescriptorsTile(data, r.field, n - 1);
      var rest := DescriptorsOf(data, r.field, n - 1).recs;
      assert ([r.rec] + rest)[1..] == rest;
      ExtentsStep([Extent(r.rec)], Extents(rest));
    }
  }

  // ---------------------------------------------------------------- what a builder of packages must know

  datatype Item = Item(typ: u16, value: seq<byte>)

  predicate Fits(i: Item) { |i.value| < 0x1_0000 }

  function Encode(i: Item): (b: seq<byte>)
    requires Fits(i)
    ensures |b| == 4 + |i.value|
  {
    Le16(i.typ) + Le16(|i.value|) + i.value
  }

  ghost predicate AllFit(items: seq<Item>) { forall k :: 0 <= k < |items| ==> Fits(items[k]) }

  /** `data` holds the encoded items from p on, with `tail` bytes of the field behind them. */
  ghost predicate HoldsItems(data: seq<byte>, p: nat, items: seq<Item>, tail: nat)
    requires AllFit(items)
    decreases |items|
  {
    if items == [] then p + tail <= |data|
    else p + |Encode(items[0])| <= |data| && data[p..p + |Encode(items[0])|] == Encode(items[0]) &&
         HoldsItems(data, p + |Encode(items[0])|, items[1..], tail)
  }

  function Size(items: seq<Item>): nat
    requires forall k :: 0 <= k < |items| ==> Fits(items[k])
  {
    if items == [] then 0 else |Encode(items[0])| + Size(items[1..])
  }

  lemma {:induction false} HeldSize(data: seq<byte>, p: nat, items: seq<Item>, tail: nat)
    requires AllFit(items) && HoldsItems(data, p, items, tail)
    ensures p + Size(items) + tail <= |data|
    decreases |items|
  {
    if items != [] {
      HeldSize(data, p + |Encode(items[0])|, items[1..], tail);
    }
  }

  lemma HeldItem(data: seq<byte>, p: nat, i: Item)
    requires Fits(i) && p + |Encode(i)| <= |data| && data[p..p + |Encode(i)|] == Encode(i)
    ensures Number(data, p, U16) == i.typ && Number(data, p + 2, U16) == |i.value| &&
        data[p + 4..p + 4 + |i.value|] == i.value
  {
    var e := data[p..p + |Encode(i)|];
    assert e[..2] == Le16(i.typ) && e[2..4] == Le16(|i.value|) && e[4..] == i.value;
    assert forall j :: 0 <= j < |e| ==> e[j] == data[p + j];
    assert data[p] == e[0] && data[p + 1] == e[1] && data[p + 2] == e[2] && data[p + 3] == e[3];
    Numbers(data, p);
    Numbers(data, p + 2);
    assert data[p + 4..p + 4 + |i.value|] == e[4..];
  }

  /** The last descriptor may be empty only if something follows it in the field. */
  predicate Decodable(items: seq<Item>, tail: nat) { items == [] || tail > 0 || items[|items| - 1].value != [] }

  ghost predicate Recovered(data: seq<byte>, recs: seq<Descriptor>, items: seq<Item>) {
    |recs| == |items| && forall k :: 0 <= k < |items| ==>
      recs[k].typ == items[k].typ && End(recs[k].value) <= |data| &&
        data[recs[k].value.start..End(recs[k].value)] == items[k].value
  }

  /** Reading gives the items back exactly when they are decodable. */
  ghost predicate ReadBack(data: seq<byte>, p: nat, items: seq<Item>, tail: nat) {
    && AllFit(items) && p + Size(items) + tail <= |data|
    && var c := DescriptorsOf(data, Span(p, Size(items) + tail), |items|);
    (c.rc == Ok <==> Decodable(items, tail)) && (c.rc == Ok ==> Recovered(data, c.recs, items))
  }

  /**
   The field of `length` bytes at p starts with item i, which is read as d unless the field is too short to look at.
   */
  ghost predicate Opens(data: seq<byte>, p: nat, length: nat, i: Item, d: Descriptor) {
    && Fits(i) && p + |Encode(i)| <= p + length <= |data|
    && d.typ == i.typ && End(d.value) <= |data| && data[d.value.start..End(d.value)] == i.value
    && DescriptorOf(data, Span(p, length)) ==
       if length < MIN_DESCRIPTOR then Refused(Overflow, Span(p, length))
       else Got(d, Span(p + |Encode(i)|, length - |Encode(i)|))
  }

  lemma FirstDescriptor(data: seq<byte>, p: nat, i: Item, length: nat) returns (d: Descriptor)
    requires Fits(i) && p + |Encode(i)| <= p + length <= |data| && data[p..p + |Encode(i)|] == Encode(i)
    ensures Opens(data, p, length, i, d)
  {
    HeldItem(data, p, i);
    d := Descriptor(i.typ, Span(p + 4, |i.value|));
  }

  lemma RecoveredStep(data: seq<byte>, d: Descriptor, recs: seq<Descriptor>, i: Item, rest: seq<Item>)
    requires Recovered(data, recs, rest) && d.typ == i.typ && End(d.value) <= |data| &&
        data[d.value.start..End(d.value)] == i.value
    ensures Recovered(data, [d] + recs, [i] + rest)
  {
  }

  /** Whether a list can be decoded, by its first item and the rest. */
  lemma DecodableStep(items: seq<Item>, tail: nat)
    requires items != [] && AllFit(items)
    ensures Decodable(items, tail) <==> Size(items) + tail >= MIN_DESCRIPTOR && Decodable(items[1..], tail)
  {
    var rest := items[1..];
    if rest == [] {
      assert Size(items) == 4 + |items[0].value|;
    } else {
      AtLeastFour(rest);
      assert rest[|rest| - 1] == items[|items| - 1];
    }
  }

  lemma OneMore(data: seq<byte>, items: seq<Item>, tail: nat, d: Descriptor,
                                   c: Collected<Descriptor>, more: Collected<Descriptor>)
    requires items != [] && AllFit(items)
    requires var i := items[0]; d.typ == i.typ && End(d.value) <= |data| && data[d.value.start..End(d.value)] == i.value
    requires (more.rc == Ok <==> Decodable(items[1..], tail)) &&
        (more.rc == Ok ==> Recovered(data, more.recs, items[1..]))
    requires if Size(items) + tail < MIN_DESCRIPTOR then c.rc == Overflow else c == Prepend([d], more)
    ensures (c.rc == Ok <==> Decodable(items, tail)) && (c.rc == Ok ==> Recovered(data, c.recs, items))
  {
    DecodableStep(items, tail);
    if more.rc == Ok {
      RecoveredStep(data, d, more.recs, items[0], items[1..]);
      assert items == [items[0]] + items[1..];
    }
  }

  lemma ReadBackStep(data: seq<byte>, p: nat, items: seq<Item>, tail: nat, d: Descriptor)
    requires items != [] && AllFit(items) && Opens(data, p, Size(items) + tail, items[0], d)
    requires ReadBack(data, p + |Encode(items[0])|, items[1..], tail)
    ensures ReadBack(data, p, items, tail)
  {
    var c := DescriptorsOf(data, Span(p, Size(items) + tail), |items|);
    var more := DescriptorsOf(data, Span(p + |Encode(items[0])|, Size(items[1..]) + tail), |items| - 1);
    OneMore(data, items, tail, d, c, more);
  }

  /**
   A list of descriptors that was written is read back, every type and value, exactly when its last value is not empty
   or bytes follow it: the decoder asks for five bytes although an empty descriptor has only four.
   */
  lemma {:induction false} DescriptorsRoundTrip(data: seq<byte>, p: nat, items: seq<Item>, tail: nat)
    requires AllFit(items) && HoldsItems(data, p, items, tail)
    ensures ReadBack(data, p, items, tail)
    decreases |items|
  {
    HeldSize(data, p, items, tail);
    if items != [] {
      var i, g := items[0], p + |Encode(items[0])|;
      DescriptorsRoundTrip(data, g, items[1..], tail);
      var d := FirstDescriptor(data, p, i, Size(items) + tail);
      ReadBackStep(data, p, items, tail, d);
    }
  }

  /** One empty descriptor, of whatever type, that is the whole field is refused. */
  lemma EmptyDescriptorRefused(typ: u16, data: seq<byte>, items: seq<Item>)
    requires items == [Item(typ, [])] && data == Encode(items[0])
    ensures AllFit(items) && HoldsItems(data, 0, items, 0)
    ensures DescriptorsOf(data, Span(0, |data|), |items|) == Collected(Overflow, [], Span(0, 4))
  {
    assert items[1..] == [] && HoldsItems(data, 4, [], 0);
    assert DescriptorOf(data, Span(0, 4)) == Refused(Overflow, Span(0, 4));
  }

  lemma AtLeastFour(items: seq<Item>)
    requires AllFit(items) && items != []
    ensures Size(items) >= 4
  {
  }
}
