/**
 Models src/transport/af-mctp.c: a transport that remembers where each request came from, so that the
 response goes back there. Sockets are abstract: a receive is handed the next datagram, a send is told
 what the kernel made of it.
 */
module AfMctp {
  import opened Common
  import opened Bytes
  import opened Responder
  import Header

  /** struct sockaddr_mctp. */
  datatype Addr = Addr(net: u32, eid: byte, typ: byte, tag: byte)

  /** struct mctp_fq_addr; network 0 is MCTP_NET_ANY. */
  datatype Fq = Fq(net: u32, eid: byte)

  datatype Datagram = Datagram(addr: Addr, msg: seq<byte>)

  datatype Rc = Success | RecvFail | InvalidRecvLen | SendFail | Busy

  /** What becomes of a send: no buffer space can be had, or sendto accepts, would block, or fails. */
  datatype Kernel = NoBuffer | Accepts | WouldBlock | Fails

  const MAX_TIDS := 256

  /** tag &= ~MCTP_TAG_OWNER. */
  function ClearOwner(a: Addr): (r: Addr)
    ensures r.net == a.net && r.eid == a.eid && r.typ == a.typ && r.tag % 8 == a.tag % 8 && r.tag / 16 == a.tag / 16
    ensures r.tag / 8 % 2 == 0
  {
    if a.tag / 8 % 2 == 1 then a.(tag := a.tag - 8) else a
  }

  predicate IsRequest(msg: seq<byte>)
    requires |msg| >= 3
  {
    Header.RequestBit(msg)
  }

  function KeyOf(tid: byte, msg: seq<byte>): Key
    requires |msg| >= 3
  {
    Key(tid, Header.Instance(msg), Header.PldmType(msg), Header.Command(msg))
  }

  /** A response of a terminus has the key of a request of that terminus exactly when the two correlate. */
  lemma KeysCorrelate(tid: byte, req: seq<byte>, resp: seq<byte>)
    requires |req| >= 3 && |resp| >= 3 && IsRequest(req) && !IsRequest(resp)
    ensures KeyOf(tid, req) == KeyOf(tid, resp) <==> Header.Correlates(req, resp)
  {
  }

  // ---------------------------------------------------------------- what one call does

  datatype State = State(tids: seq<Fq>, bound: bool, pending: seq<Pending<Addr>>)

  function FirstTid(tids: seq<Fq>, a: Fq): (i: nat)
    ensures i <= |tids| && (i < |tids| ==> tids[i] == a) && forall j :: 0 <= j < i ==> tids[j] != a
  {
    if tids == [] || tids[0] == a then 0 else 1 + FirstTid(tids[1..], a)
  }

  /** An exact match of the network takes precedence over an entry for any network. */
  function TidOf(tids: seq<Fq>, net: u32, eid: byte): (r: Option<nat>)
    ensures r.Some? ==>
        r.value < |tids| && tids[r.value].eid == eid && (tids[r.value].net == net || tids[r.value].net == 0)
    ensures r.Some? && tids[r.value].net == 0 ==> Fq(net, eid) !in tids
    ensures r.None? && net != 0 && eid != 0 ==> Fq(net, eid) !in tids && Fq(0, eid) !in tids
  {
    if net == 0 || eid == 0 then None
    else
      var i := FirstTid(tids, Fq(net, eid));
      if i < |tids| then Some(i)
      else
        var j := FirstTid(tids, Fq(0, eid));
        if j < |tids| then Some(j) else None
  }

  /** `tid` is what is stored for the caller; early failures leave that alone. */
  datatype Receipt = Receipt(s: State, rc: Rc, tid: Option<byte>)

  function Receive(s: State, d: Option<Datagram>): Receipt
    requires |s.tids| == MAX_TIDS
  {
    if d.None? || |d.value.msg| == 0 then Receipt(s, RecvFail, None)
    else if |d.value.msg| < 3 then Receipt(s, InvalidRecvLen, None)
    else
      var t := TidOf(s.tids, d.value.addr.net, d.value.addr.eid);
      if t.None? then Receipt(s, RecvFail, None)
      else if s.bound && IsRequest(d.value.msg) then
        var k := KeyOf(t.value, d.value.msg);
        if Find(s.pending, k) < |s.pending| then Receipt(s, RecvFail, Some(t.value))
        else Receipt(s.(pending := s.pending + [Pending(k, d.value.addr)]), Success, Some(t.value))
      else Receipt(s, Success, Some(t.value))
  }

  /** `to` is where the message would go, once that is settled. */
  datatype Dispatch = Dispatch(s: State, rc: Rc, to: Option<Addr>)

  function Outcome(k: Kernel): Rc {
    match k case NoBuffer => SendFail case Accepts => Success case WouldBlock => Busy case Fails => SendFail
  }

  /** A response of a bound transport goes where its request came from, anything else by the TID map. */
  function Transmit(s: State, tid: byte, msg: seq<byte>, k: Kernel): Dispatch
    requires |s.tids| == MAX_TIDS
  {
    if |msg| < 3 then Dispatch(s, SendFail, None)
    else if s.bound && !IsRequest(msg) then
      var i := Find(s.pending, KeyOf(tid, msg));
      if i == |s.pending| then Dispatch(s, SendFail, None)
      else Dispatch(s.(pending := Remove(s.pending, KeyOf(tid, msg))), Outcome(k),
                    Some(ClearOwner(s.pending[i].payload)))
    else if tid == 0 then Dispatch(s, SendFail, None)
    else Dispatch(s, Outcome(k), Some(Addr(s.tids[tid].net, s.tids[tid].eid, 1, 8)))
  }

  /** Some terminus has the address, or its endpoint on any network. */
  ghost predicate Mapped(tids: seq<Fq>, a: Addr) {
    && a.net != 0 && a.eid != 0
    && exists i :: 0 <= i < |tids| && tids[i].eid == a.eid && (tids[i].net == a.net || tids[i].net == 0)
  }

  lemma TidOfIsMapped(tids: seq<Fq>, a: Addr)
    ensures TidOf(tids, a.net, a.eid).Some? <==> Mapped(tids, a)
  {
    if a.net != 0 && a.eid != 0 {
      var i, j := FirstTid(tids, Fq(a.net, a.eid)), FirstTid(tids, Fq(0, a.eid));
      if Mapped(tids, a) {
        var m :| 0 <= m < |tids| && tids[m].eid == a.eid && (tids[m].net == a.net || tids[m].net == 0);
        assert tids[m] == Fq(a.net, a.eid) || tids[m] == Fq(0, a.eid);
      }
    }
  }

  /** Some pending request with this key came from that address, tag owner bit aside. */
  ghost predicate CameFrom(q: seq<Pending<Addr>>, key: Key, to: Addr) {
    exists i :: 0 <= i < |q| && q[i].key == key && ClearOwner(q[i].payload) == to
  }

  /**
   Where a message goes and what becomes of it: a response of a bound transport to the source of the request it has the
   key of, anything else to the terminus, unless that is 0; a message with somewhere to go as the kernel decides.
   */
  ghost predicate Sent(s: State, tid: byte, msg: seq<byte>, k: Kernel, rc: Rc, to: Option<Addr>)
    requires |s.tids| == MAX_TIDS
  {
    && (|msg| < 3 ==> to == None)
    && (|msg| >= 3 && !(s.bound && msg[0] < 128) ==>
          to == if tid == 0 then None else Some(Addr(s.tids[tid].net, s.tids[tid].eid, 1, 8)))
    && (|msg| >= 3 && s.bound && msg[0] < 128 ==>
          var key := Key(tid, msg[0] % 32, msg[1] % 64, msg[2]);
          if to.Some? then CameFrom(s.pending, key, to.value) else !Has(s.pending, key))
    && rc == if to.None? then SendFail
             else match k
                  case Accepts => Success case WouldBlock => Busy case NoBuffer => SendFail case Fails => SendFail
  }

  lemma TransmitMeans(s: State, tid: byte, msg: seq<byte>, k: Kernel)
    requires |s.tids| == MAX_TIDS
    ensures Sent(s, tid, msg, k, Transmit(s, tid, msg, k).rc, Transmit(s, tid, msg, k).to)
  {
  }

  // ---------------------------------------------------------------- the code

  class Transport {
    const tidMap: array<Fq>
    const jar: Jar<Addr>
    var bound: bool

    ghost predicate Valid()
      reads this, jar, jar.chain
    {
      tidMap.Length == MAX_TIDS && jar.Valid()
    }

    ghost function Abstract(): State
      requires |jar.chain| > 0
      reads this, tidMap, jar
    {
      State(tidMap[..], bound, Queue(jar.chain))
    }

    /** pldm_transport_af_mctp_init. */
    constructor ()
      ensures Valid() && Abstract() == State(tidMap[..], false, [])
      ensures forall i :: 0 <= i < MAX_TIDS ==> tidMap[i] == Fq(0, 0)
    {
      tidMap := new Fq[MAX_TIDS](_ => Fq(0, 0));
      var sentinel := new Cookie(Key(0, 0, 0, 0), Addr(0, 0, 0, 0));
      jar := new Jar(sentinel);
      bound := false;
    }

    /** pldm_transport_af_mctp_find_tid. */
    method FindTid(a: Fq) returns (i: nat)
      requires Valid()
      ensures i == FirstTid(tidMap[..], a)
    {
      i := 0;
      while i < MAX_TIDS
        invariant i <= MAX_TIDS && forall j :: 0 <= j < i ==> tidMap[j] != a
      {
        if tidMap[i] == a {
          FirstTidIs(tidMap[..], a, i);
          return;
        }
        i := i + 1;
      }
      FirstTidIs(tidMap[..], a, i);
    }

    /** pldm_transport_af_mctp_get_tid. */
    method GetTid(net: u32, eid: byte) returns (r: Option<nat>)
      requires Valid()
      ensures r == TidOf(tidMap[..], net, eid)
    {
      if net == 0 || eid == 0 {
        return None;
      }
      var i := FindTid(Fq(net, eid));
      if i < MAX_TIDS {
        return Some(i);
      }
      i := FindTid(Fq(0, eid));
      return if i < MAX_TIDS then Some(i) else None;
    }

    /** pldm_transport_af_mctp_recv. */
    method Recv(d: Option<Datagram>) returns (rc: Rc, tid: Option<byte>)
      requires Valid()
      modifies jar, jar.chain
      ensures Valid() && Receipt(Abstract(), rc, tid) == Receive(old(Abstract()), d)
      ensures rc == InvalidRecvLen <==> d.Some? && 1 <= |d.value.msg| <= 2
      ensures d.None? || |d.value.msg| == 0 ==> rc == RecvFail
      ensures tid.None? ==> rc != Success && Abstract() == old(Abstract())
      ensures tid.Some? <==> d.Some? && |d.value.msg| >= 3 && Mapped(tidMap[..], d.value.addr)
      ensures tid.Some? && !(bound && d.value.msg[0] >= 128) ==> rc == Success && Abstract() == old(Abstract())
      ensures tid.Some? && bound && d.value.msg[0] >= 128 ==>
        var k := Key(tid.value, d.value.msg[0] % 32, d.value.msg[1] % 64, d.value.msg[2]);
        if Has(old(Abstract()).pending, k) then rc == RecvFail && Abstract() == old(Abstract())
        else rc == Success && Abstract().pending == old(Abstract()).pending + [Pending(k, d.value.addr)]
    {
      if d.None? || |d.value.msg| == 0 {
        return RecvFail, None;
      }
      if |d.value.msg| < 3 {
        return InvalidRecvLen, None;
      }
      var t := GetTid(d.value.addr.net, d.value.addr.eid);
      TidOfIsMapped(tidMap[..], d.value.addr);
      if t.None? {
        return RecvFail, None;
      }
      if bound && IsRequest(d.value.msg) {
        ghost var was := jar.chain;
        var cookie := new Cookie(KeyOf(t.value, d.value.msg), d.value.addr);
        var ok := jar.Track(cookie);
        HasIsFound(Queue(was), cookie.key);
        if !ok {
          return RecvFail, Some(t.value);
        }
        QueueGrows(was, cookie);
      }
      return Success, Some(t.value);
    }

    /** pldm_transport_af_mctp_send. */
    method Send(tid: byte, msg: seq<byte>, k: Kernel) returns (rc: Rc, to: Option<Addr>)
      requires Valid()
      modifies jar, jar.chain
      ensures Valid() && Dispatch(Abstract(), rc, to) == Transmit(old(Abstract()), tid, msg, k)
      ensures Sent(old(Abstract()), tid, msg, k, rc, to)
    {
      TransmitMeans(Abstract(), tid, msg, k);
      if |msg| < 3 {
        return SendFail, None;
      }
      var addr;
      if bound && !IsRequest(msg) {
        ghost var was := jar.chain;
        var key := KeyOf(tid, msg);
        var cookie := jar.Untrack(key);
        HasIsFound(Queue(was), key);
        if cookie == null {
          return SendFail, None;
        }
        QueueShrinks(was, key);
        addr := ClearOwner(cookie.payload);
      } else {
        if tid == 0 {
          return SendFail, None;
        }
        addr := Addr(tidMap[tid].net, tidMap[tid].eid, 1, 8);
      }
      return Outcome(k), Some(addr);
    }
  }

  lemma FirstTidIs(tids: seq<Fq>, a: Fq, i: nat)
    requires i <= |tids| && (forall j :: 0 <= j < i ==> tids[j] != a) && (i < |tids| ==> tids[i] == a)
    ensures FirstTid(tids, a) == i
  {
  }

  lemma HasIsFound(q: seq<Pending<Addr>>, k: Key)
    ensures Has(q, k) <==> Find(q, k) < |q|
  {
  }

  // ---------------------------------------------------------------- runs

  datatype Action =
    | Receiving(d: Option<Datagram>)
    | Sending(tid: byte, msg: seq<byte>, k: Kernel)
    | Mapping(tid: byte, a: Fq)
    | Binding

  /** A request delivered to the responder, or an attempt to answer one. */
  datatype Event = Delivered(key: Key, addr: Addr) | Answered(key: Key, addr: Addr)

  function Apply(s: State, a: Action): (r: State)
    requires |s.tids| == MAX_TIDS
    ensures |r.tids| == MAX_TIDS
  {
    match a
    case Receiving(d) => Receive(s, d).s
    case Sending(tid, msg, k) => Transmit(s, tid, msg, k).s
    case Mapping(tid, fq) => s.(tids := s.tids[tid := fq])
    case Binding => s.(bound := true)
  }

  function Emits(s: State, a: Action): seq<Event>
    requires |s.tids| == MAX_TIDS
  {
    match a
    case Receiving(d) =>
      var r := Receive(s, d);
      if r.rc == Success && s.bound && IsRequest(d.value.msg) then
        [Delivered(KeyOf(r.tid.value, d.value.msg), d.value.addr)]
      else []
    case Sending(tid, msg, k) =>
      var r := Transmit(s, tid, msg, k);
      if r.to.Some? && s.bound && !IsRequest(msg) then [Answered(KeyOf(tid, msg), r.to.value)] else []
    case _ => []
  }

  const START := State(seq(MAX_TIDS, _ => Fq(0, 0)), false, [])

  function History(s: State, actions: seq<Action>): seq<Event>
    requires |s.tids| == MAX_TIDS
    decreases |actions|
  {
    if actions == [] then [] else Emits(s, actions[0]) + History(Apply(s, actions[0]), actions[1..])
  }

  function Run(s: State, actions: seq<Action>): (r: State)
    requires |s.tids| == MAX_TIDS
    ensures |r.tids| == MAX_TIDS
    decreases |actions|
  {
    if actions == [] then s else Run(Apply(s, actions[0]), actions[1..])
  }

  /** No call of the run maps terminus t. */
  predicate Keeps(actions: seq<Action>, t: byte) {
    forall n :: 0 <= n < |actions| ==> !(actions[n].Mapping? && actions[n].tid == t)
  }

  lemma {:induction false} MappingLasts(s: State, actions: seq<Action>, t: byte)
    requires |s.tids| == MAX_TIDS && Keeps(actions, t)
    ensures Run(s, actions).tids[t] == s.tids[t]
    decreases |actions|
  {
    if actions != [] {
      assert forall n :: 0 <= n < |actions[1..]| ==> actions[1..][n] == actions[n + 1];
      MappingLasts(Apply(s, actions[0]), actions[1..], t);
    }
  }

  /**
   After any run since t was last mapped, whatever is not a response of a bound transport goes to where t was mapped.
   */
  lemma RequestsGoWhereMapped(s: State, t: byte, fq: Fq, actions: seq<Action>, msg: seq<byte>, k: Kernel)
    requires |s.tids| == MAX_TIDS && Keeps(actions, t) && t != 0 && |msg| >= 3
    requires msg[0] >= 128 || !Run(Apply(s, Mapping(t, fq)), actions).bound
    ensures var r := Transmit(Run(Apply(s, Mapping(t, fq)), actions), t, msg, k);
      && r.to == Some(Addr(fq.net, fq.eid, 1, 8)) && r.s == Run(Apply(s, Mapping(t, fq)), actions)
      && (r.rc == Success <==> k == Accepts) && (r.rc == Busy <==> k == WouldBlock)
      && (r.rc == SendFail <==> k == NoBuffer || k == Fails)
  {
    MappingLasts(Apply(s, Mapping(t, fq)), actions, t);
  }

  /**
   Of all entries t is the one for the address: it matches exactly and no other does, or it matches on any network and
   none exactly.
   */
  predicate Singles(tids: seq<Fq>, t: nat, net: u32, eid: byte) {
    && t < |tids| && net != 0 && eid != 0 && tids[t].eid == eid && (tids[t].net == net || tids[t].net == 0)
    && forall i :: 0 <= i < |tids| && i != t ==> tids[i].eid != eid || (tids[i].net != net && tids[i].net != 0)
  }

  /**
   The answer to such a request, or anything else that is not a request, is received under t, and is not remembered.
   */
  lemma AnswersComeUnderTheirTerminus(s: State, t: byte, fq: Fq, actions: seq<Action>, d: Datagram)
    requires |s.tids| == MAX_TIDS && Keeps(actions, t) && |d.msg| >= 3
    requires d.addr.eid == fq.eid && (d.addr.net == fq.net || fq.net == 0)
    requires var u := Run(Apply(s, Mapping(t, fq)), actions);
      Singles(u.tids, t, d.addr.net, d.addr.eid) && (d.msg[0] < 128 || !u.bound)
    ensures var u := Run(Apply(s, Mapping(t, fq)), actions); Receive(u, Some(d)) == Receipt(u, Success, Some(t))
  {
    var u := Run(Apply(s, Mapping(t, fq)), actions);
    OnlyTid(u.tids, t, d.addr.net, d.addr.eid);
  }

  lemma OnlyTid(tids: seq<Fq>, t: nat, net: u32, eid: byte)
    requires Singles(tids, t, net, eid)
    ensures TidOf(tids, net, eid) == Some(t)
  {
    FirstTidIs(tids, tids[t], t);
    if tids[t].net == 0 {
      FirstTidIs(tids, Fq(net, eid), |tids|);
    }
  }

  /** Where in a history a key was last mentioned, or -1. */
  function LastOf(h: seq<Event>, k: Key): (i: int)
    ensures -1 <= i < |h| && (i >= 0 ==> h[i].key == k) && forall j :: i < j < |h| ==> h[j].key != k
    decreases |h|
  {
    if h == [] then -1 else if h[|h| - 1].key == k then |h| - 1 else LastOf(h[..|h| - 1], k)
  }

  /** The request of this key that is still open: its source, if the key's last event was its delivery. */
  function Open(h: seq<Event>, k: Key): Option<Addr> {
    var i := LastOf(h, k);
    if i >= 0 && h[i].Delivered? then Some(h[i].addr) else None
  }

  /** Event j of a history is an answer to an open request, to where that came from, or opens a new one. */
  ghost predicate InTurn(h: seq<Event>, j: nat)
    requires j < |h|
  {
    var open := Open(h[..j], h[j].key);
    if h[j].Answered? then open.Some? && h[j].addr == ClearOwner(open.value) else open.None?
  }

  ghost predicate Orderly(h: seq<Event>) { forall j :: 0 <= j < |h| ==> InTurn(h, j) }

  /** The jar holds exactly the open requests. */
  ghost predicate Tracks(q: seq<Pending<Addr>>, h: seq<Event>) {
    DistinctKeys(q) && forall k :: Open(h, k) == (if Find(q, k) < |q| then Some(q[Find(q, k)].payload) else None)
  }

  lemma OpenAfter(h: seq<Event>, e: Event, k: Key)
    ensures Open(h + [e], k) == if e.key != k then Open(h, k) else if e.Delivered? then Some(e.addr) else None
  {
    assert (h + [e])[..|h|] == h;
  }

  lemma OrderlyAfter(h: seq<Event>, e: Event)
    requires Orderly(h)
    requires var open := Open(h, e.key);
      if e.Answered? then open.Some? && e.addr == ClearOwner(open.value) else open.None?
    ensures Orderly(h + [e])
  {
    var g := h + [e];
    forall j | 0 <= j < |g| ensures InTurn(g, j) {
      if j < |h| {
        assert InTurn(h, j) && g[..j] == h[..j];
      } else {
        assert g[..j] == h;
      }
    }
  }

  lemma FindAppended(q: seq<Pending<Addr>>, p: Pending<Addr>, k: Key)
    requires Find(q, p.key) == |q|
    ensures Find(q + [p], k) == if k == p.key || Find(q, k) < |q| then Find(q, k) else |q| + 1
  {
    FindIs(q + [p], k, if k == p.key || Find(q, k) < |q| then Find(q, k) else |q| + 1);
  }

  lemma FindRemoved(q: seq<Pending<Addr>>, gone: Key, k: Key)
    requires DistinctKeys(q) && Find(q, gone) < |q|
    ensures var r := Remove(q, gone);
      if k == gone then Find(r, k) == |r|
      else (Find(r, k) < |r| <==> Find(q, k) < |q|) && (Find(q, k) < |q| ==> r[Find(r, k)] == q[Find(q, k)])
  {
    var r, g, i := Remove(q, gone), Find(q, gone), Find(q, k);
    FindIs(r, k, if k == gone then |r| else if i < g then i else i - 1);
  }

  lemma StepIsOrderly(s: State, h: seq<Event>, a: Action)
    requires |s.tids| == MAX_TIDS && Tracks(s.pending, h) && Orderly(h)
    ensures Tracks(Apply(s, a).pending, h + Emits(s, a)) && Orderly(h + Emits(s, a))
  {
    var e := Emits(s, a);
    if e == [] {
      assert h + e == h;
    } else {
      var q, r := s.pending, Apply(s, a).pending;
      assert e == [e[0]];
      OrderlyAfter(h, e[0]);
      forall k ensures Open(h + e, k) == (if Find(r, k) < |r| then Some(r[Find(r, k)].payload) else None) {
        OpenAfter(h, e[0], k);
        if e[0].Delivered? {
          FindAppended(q, Pending(e[0].key, e[0].addr), k);
        } else {
          FindRemoved(q, e[0].key, k);
        }
      }
      if e[0].Answered? {
        RemoveKeepsDistinct(q, e[0].key);
      }
    }
  }

  lemma {:induction false} RunIsOrderly(s: State, h: seq<Event>, actions: seq<Action>)
    requires |s.tids| == MAX_TIDS && Tracks(s.pending, h) && Orderly(h)
    ensures Tracks(Run(s, actions).pending, h + History(s, actions)) && Orderly(h + History(s, actions))
    decreases |actions|
  {
    if actions == [] {
      assert h + [] == h;
    } else {
      StepIsOrderly(s, h, actions[0]);
      var e, rest := Emits(s, actions[0]), History(Apply(s, actions[0]), actions[1..]);
      RunIsOrderly(Apply(s, actions[0]), h + e, actions[1..]);
      assert h + (e + rest) == h + e + rest;
    }
  }

  /** In every run, each response attempt answers an open request of its key and goes back to that request's source. */
  lemma ResponsesAnswerRequests(actions: seq<Action>)
    ensures Orderly(History(START, actions))
  {
    RunIsOrderly(START, [], actions);
    assert [] + History(START, actions) == History(START, actions);
  }

  /** So between two response attempts of one key there is a delivery: a request is consumed at most once. */
  lemma RequestConsumedOnce(h: seq<Event>, i: nat, j: nat)
    requires Orderly(h) && i < j < |h| && h[i].Answered? && h[j].Answered? && h[i].key == h[j].key
    ensures exists m :: i < m < j && h[m].Delivered? && h[m].key == h[j].key && h[j].addr == ClearOwner(h[m].addr)
  {
    assert InTurn(h, j);
    var m := LastOf(h[..j], h[j].key);
    assert h[..j][i].key == h[j].key && h[..j][m] == h[m];
  }

  /**
   A message that was handed to the kernel, whatever became of it there, can be sent again exactly when it is not a
   response of a bound transport: such a response has used up its cookie.
   */
  lemma RetryWorks(s: State, tid: byte, msg: seq<byte>, k: Kernel)
    requires |s.tids| == MAX_TIDS && DistinctKeys(s.pending) && |msg| >= 3
    requires Transmit(s, tid, msg, k).to.Some?
    ensures var again := Transmit(Transmit(s, tid, msg, k).s, tid, msg, Accepts);
      && (again.rc == Success <==> !(s.bound && !IsRequest(msg)))
      && again.to == if s.bound && !IsRequest(msg) then None else Transmit(s, tid, msg, k).to
  {
    if s.bound && !IsRequest(msg) {
      FindRemoved(s.pending, KeyOf(tid, msg), KeyOf(tid, msg));
    }
  }

  const ASKED := Datagram(Addr(1, 9, 1, 8), [128, 0, 2])
  const ANSWER: seq<byte> := [0, 0, 2]

  /** A bound transport that awaits an answer to that one request. */
  ghost predicate OnePending(s: State) {
    |s.tids| == MAX_TIDS && s.bound && s.pending == [Pending(KeyOf(1, ANSWER), ASKED.addr)]
  }

  lemma OneIsReceived(s: State)
    requires |s.tids| == MAX_TIDS && s.bound && s.pending == []
    requires s.tids[1] == Fq(0, 9) && forall i :: 0 <= i < MAX_TIDS && i != 1 ==> s.tids[i] == Fq(0, 0)
    ensures OnePending(Apply(s, Receiving(Some(ASKED))))
  {
    FirstTidIs(s.tids, Fq(1, 9), MAX_TIDS);
    FirstTidIs(s.tids, Fq(0, 9), 1);
  }

  lemma FirstCall(s: State, a: Action, rest: seq<Action>)
    requires |s.tids| == MAX_TIDS
    ensures Run(s, [a] + rest) == Run(Apply(s, a), rest)
  {
    assert ([a] + rest)[0] == a && ([a] + rest)[1..] == rest;
  }

  lemma ThreeCalls(s: State, a: Action, b: Action, c: Action)
    requires |s.tids| == MAX_TIDS
    ensures Run(s, [a, b, c]) == Apply(Apply(Apply(s, a), b), c)
  {
    assert [a, b, c] == [a] + ([b] + ([c] + []));
    FirstCall(s, a, [b] + ([c] + []));
    FirstCall(Apply(s, a), b, [c] + []);
    FirstCall(Apply(Apply(s, a), b), c, []);
  }

  lemma OneIsLost(s: State)
    requires OnePending(s)
    ensures var first := Transmit(s, 1, ANSWER, WouldBlock);
      first.rc == Busy && first.to.Some? && Transmit(first.s, 1, ANSWER, Accepts).rc == SendFail
  {
    RetryWorks(s, 1, ANSWER, WouldBlock);
  }

  /** A response that would block; the second attempt fails although nothing stands in its way. */
  lemma BusyLosesCookie()
    ensures var s := Run(START, [Mapping(1, Fq(0, 9)), Binding, Receiving(Some(ASKED))]);
      var first := Transmit(s, 1, ANSWER, WouldBlock);
      OnePending(s) && first.rc == Busy && first.to.Some? && Transmit(first.s, 1, ANSWER, Accepts).rc == SendFail
  {
    var a, b, c := Mapping(1, Fq(0, 9)), Binding, Receiving(Some(ASKED));
    ThreeCalls(START, a, b, c);
    OneIsReceived(Apply(Apply(START, a), b));
    OneIsLost(Run(START, [a, b, c]));
  }

  /**
   After any run, a response of a bound transport has somewhere to go exactly when the last event of its key was a
   delivery.
   */
  lemma AnswerableExactlyWhenOpen(actions: seq<Action>, tid: byte, msg: seq<byte>, k: Kernel)
    requires |msg| >= 3 && !IsRequest(msg) && Run(START, actions).bound
    ensures var open := Open(History(START, actions), KeyOf(tid, msg));
      Transmit(Run(START, actions), tid, msg, k).to == if open.Some? then Some(ClearOwner(open.value)) else None
  {
    RunIsOrderly(START, [], actions);
    assert [] + History(START, actions) == History(START, actions);
  }
}
