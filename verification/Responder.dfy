/**
 Models src/responder.c: the jar of cookies that remembers which requests await a response. The jar is a
 singly linked list behind a sentinel; it is proved to be a queue in order of arrival with one cookie a key.
 */
module Responder {
  datatype Key = Key(tid: nat, instanceId: nat, typ: nat, command: nat)

  /** struct pldm_responder_cookie, with whatever the transport wraps around it. */
  class Cookie<A> {
    const key: Key
    const payload: A
    var next: Cookie?<A>

    constructor (key: Key, payload: A)
      ensures this.key == key && this.payload == payload && next == null
    {
      this.key, this.payload, this.next := key, payload, null;
    }
  }

  // ---------------------------------------------------------------- the queue it stands for

  datatype Pending<A> = Pending(key: Key, payload: A)

  predicate Has<A>(q: seq<Pending<A>>, k: Key) { exists i :: 0 <= i < |q| && q[i].key == k }

  ghost predicate DistinctKeys<A>(q: seq<Pending<A>>) {
    forall i, j :: 0 <= i < j < |q| ==> q[i].key != q[j].key
  }

  /** Position of a key, or the length of the queue. */
  function Find<A>(q: seq<Pending<A>>, k: Key): (i: nat)
    ensures i <= |q| && (i < |q| ==> q[i].key == k) && forall j :: 0 <= j < i ==> q[j].key != k
  {
    if q == [] || q[0].key == k then 0 else 1 + Find(q[1..], k)
  }

  function Remove<A>(q: seq<Pending<A>>, k: Key): seq<Pending<A>> {
    var i := Find(q, k);
    if i == |q| then q else q[..i] + q[i + 1..]
  }

  // ---------------------------------------------------------------- the list

  ghost function Successor<A>(chain: seq<Cookie<A>>, i: nat): Cookie?<A>
    requires i < |chain|
  {
    if i + 1 < |chain| then chain[i + 1] else null
  }

  /** No cycle, and no key twice behind the sentinel. */
  ghost predicate Distinct<A>(chain: seq<Cookie<A>>) {
    (forall i, j :: 0 <= i < j < |chain| ==> chain[i] != chain[j]) &&
    (forall i, j :: 0 < i < j < |chain| ==> chain[i].key != chain[j].key)
  }

  /** The chain without the cookie behind position i. */
  ghost function Spliced<A>(chain: seq<Cookie<A>>, i: nat): (r: seq<Cookie<A>>)
    requires i + 1 < |chain|
    ensures |r| == |chain| - 1 && forall j :: 0 <= j < |r| ==> r[j] == if j <= i then chain[j] else chain[j + 1]
  {
    chain[..i + 1] + chain[i + 2..]
  }

  lemma SplicedDistinct<A>(chain: seq<Cookie<A>>, i: nat)
    requires i + 1 < |chain| && Distinct(chain)
    ensures Distinct(Spliced(chain, i))
    ensures forall j :: 0 <= j < |chain| - 1 && j != i ==> Spliced(chain, i)[j] != chain[i]
  {
  }

  class Jar<A> {
    const head: Cookie<A>
    /** The sentinel and then the cookies, in list order. */
    ghost var chain: seq<Cookie<A>>

    /** The list from the sentinel is exactly `chain`, without a cycle, and no two cookies have one key. */
    ghost predicate Valid()
      reads this, chain
    {
      |chain| > 0 && chain[0] == head && Distinct(chain) && forall i :: 0 <= i < |chain| ==>
        chain[i].next == Successor(chain, i)
    }

    constructor (sentinel: Cookie<A>)
      requires sentinel.next == null
      ensures Valid() && chain == [sentinel]
    {
      head, chain := sentinel, [sentinel];
    }

    /** pldm_responder_cookie_track: fails exactly when the key is already known. */
    method Track(cookie: Cookie<A>) returns (ok: bool)
      requires Valid() && cookie != head
      modifies this, chain, cookie
      ensures Valid()
      ensures ok <==> !Has(Queue(old(chain)), cookie.key)
      ensures ok ==> chain == old(chain) + [cookie]
      ensures !ok ==> chain == old(chain) && cookie.next == old(cookie.next)
    {
      var current := head;
      var next := current.next;
      assert next == chain[0].next;
      ghost var i := 0;
      while next != null
        invariant 0 <= i < |chain| && current == chain[i] && next == Successor(chain, i)
        invariant forall j :: 0 < j <= i ==> chain[j].key != cookie.key
        decreases |chain| - i
      {
        if next.key == cookie.key {
          QueueHas(chain, cookie.key, i);
          return false;
        }
        current := next;
        next := next.next;
        i := i + 1;
      }
      assert i + 1 == |chain|;
      QueueHasNot(chain, cookie.key);
      Link(current, cookie);
      ok := true;
    }

    /** Appends a cookie with a new key behind the last node. */
    method Link(last: Cookie<A>, cookie: Cookie<A>)
      requires Valid() && cookie != head && last == chain[|chain| - 1]
      requires forall j :: 0 < j < |chain| ==> chain[j].key != cookie.key
      modifies this, chain, cookie
      ensures Valid() && chain == old(chain) + [cookie]
    {
      assert cookie !in chain;
      cookie.next := null;
      last.next := cookie;
      ghost var was := chain;
      chain := was + [cookie];
      forall j | 0 <= j < |chain| ensures chain[j].next == Successor(chain, j) {
        assert j < |was| ==> chain[j] == was[j];
      }
    }

    /** pldm_responder_cookie_untrack: takes out the very cookie tracked under the key, if there is one. */
    method Untrack(key: Key) returns (c: Cookie?<A>)
      requires Valid()
      modifies this, chain
      ensures Valid()
      ensures c == null <==> !Has(Queue(old(chain)), key)
      ensures c == null ==> chain == old(chain)
      ensures c != null ==> var i := Find(Queue(old(chain)), key);
        i + 1 < |old(chain)| && c == old(chain)[i + 1] && chain == Spliced(old(chain), i)
    {
      var current, i := Locate(key);
      var next := current.next;
      FindIs(Queue(chain), key, i);
      assert next == chain[i].next;
      if next != null {
        Unlink(current, i);
      }
      return next;
    }

    /** The node before the first one with the key, or the last node. */
    method Locate(key: Key) returns (current: Cookie<A>, ghost i: nat)
      requires Valid()
      ensures i < |chain| && current == chain[i]
      ensures forall j :: 0 < j <= i ==> chain[j].key != key
      ensures i + 1 < |chain| ==> chain[i + 1].key == key
    {
      current, i := head, 0;
      var next := current.next;
      assert next == chain[0].next;
      while next != null && next.key != key
        invariant 0 <= i < |chain| && current == chain[i] && next == Successor(chain, i)
        invariant forall j :: 0 < j <= i ==> chain[j].key != key
        decreases |chain| - i
      {
        current := next;
        next := next.next;
        i := i + 1;
      }
    }

    method Unlink(current: Cookie<A>, ghost i: nat)
      requires Valid() && i + 1 < |chain| && current == chain[i] && current.next != null
      modifies this, chain
      ensures Valid() && chain == Spliced(old(chain), i)
    {
      ghost var was := chain;
      SplicedDistinct(was, i);
      assert current.next == was[i + 1] && was[i + 1].next == Successor(was, i + 1);
      current.next := current.next.next;
      chain := Spliced(was, i);
      forall j | 0 <= j < |chain| ensures chain[j].next == Successor(chain, j) {
        assert chain[j] == if j <= i then was[j] else was[j + 1];
      }
    }
  }

  /** What a list stands for: the cookies behind the sentinel. */
  ghost function Queue<A>(chain: seq<Cookie<A>>): (q: seq<Pending<A>>)
    requires |chain| > 0
    ensures |q| == |chain| - 1 && forall i :: 0 <= i < |q| ==> q[i] == Pending(chain[i + 1].key, chain[i + 1].payload)
  {
    seq(|chain| - 1, i requires 0 <= i < |chain| - 1 => Pending(chain[i + 1].key, chain[i + 1].payload))
  }

  lemma QueueHas<A>(chain: seq<Cookie<A>>, k: Key, i: nat)
    requires i + 1 < |chain| && chain[i + 1].key == k
    ensures Has(Queue(chain), k)
  {
    assert Queue(chain)[i].key == k;
  }

  lemma QueueHasNot<A>(chain: seq<Cookie<A>>, k: Key)
    requires |chain| > 0 && forall j :: 0 < j < |chain| ==> chain[j].key != k
    ensures !Has(Queue(chain), k)
  {
  }

  /** A tracked cookie joins the end of the queue. */
  lemma QueueGrows<A>(chain: seq<Cookie<A>>, c: Cookie<A>)
    requires |chain| > 0
    ensures Queue(chain + [c]) == Queue(chain) + [Pending(c.key, c.payload)]
  {
  }

  /** An untracked cookie leaves the queue, and all others keep their order. */
  lemma QueueShrinks<A>(chain: seq<Cookie<A>>, k: Key)
    requires |chain| > 0 && Find(Queue(chain), k) + 1 < |chain|
    ensures var i := Find(Queue(chain), k); Queue(Spliced(chain, i)) == Remove(Queue(chain), k)
  {
  }

  lemma FindIs<A>(q: seq<Pending<A>>, k: Key, i: nat)
    requires i <= |q| && (forall j :: 0 <= j < i ==> q[j].key != k) && (i < |q| ==> q[i].key == k)
    ensures Find(q, k) == i && (Has(q, k) <==> i < |q|)
  {
  }

  // ---------------------------------------------------------------- what the queue guarantees

  lemma TrackKeepsDistinct<A>(q: seq<Pending<A>>, p: Pending<A>)
    requires DistinctKeys(q) && !Has(q, p.key)
    ensures DistinctKeys(q + [p])
  {
  }

  lemma RemoveKeepsDistinct<A>(q: seq<Pending<A>>, k: Key)
    requires DistinctKeys(q)
    ensures DistinctKeys(Remove(q, k)) && !Has(Remove(q, k), k)
  {
  }

  /** Tracking and untracking a new key leaves the queue as it was. */
  lemma UntrackUndoesTrack<A>(q: seq<Pending<A>>, p: Pending<A>)
    requires !Has(q, p.key)
    ensures Remove(q + [p], p.key) == q && Find(q + [p], p.key) == |q|
  {
    FindIs(q + [p], p.key, |q|);
  }
}
