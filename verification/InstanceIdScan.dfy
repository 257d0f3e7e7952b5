/**
 What -EAGAIN means while other processes come and go: which instance IDs an allocation of
 src/requester/instance-id.c found taken, and by whom.
 */
module InstanceIdScan {
  import opened Common
  import opened InstanceId

  predicate By(a: Action, id: nat) { !a.Meddle? && a.id == id }

  /** Between its calls a context takes no other step here, and none of its `fcntl` calls fails. */
  ghost predicate Calm(actions: seq<Action>, id: nat) {
    forall n :: 0 <= n < |actions| && By(actions[n], id) ==>
      actions[n].Self? || (actions[n].Kernel? && (actions[n].outcome.Ok? || actions[n].outcome.Conflict?))
  }

  /** The query of (t, i) that finds a shared lock of another open file description. */
  ghost predicate Meets(w: World, a: Action, id: nat, t: Tid, i: Iid) {
    && id in w.ctxs && w.ctxs[id].pc == Querying(t, i) && a == Kernel(id, Conflict(Shared))
    && exists p: Owner {:trigger (p, Offset(t, i)) in w.locks} ::
         p != Library(id) && (p, Offset(t, i)) in w.locks && w.locks[(p, Offset(t, i))] == Shared
  }

  /** Somewhere in the run there is such a query. */
  ghost predicate Met(w: World, actions: seq<Action>, id: nat, t: Tid, i: Iid)
    requires Run(w, actions)
    decreases |actions|
  {
    actions != [] && (Meets(w, actions[0], id, t, i) || Met(Apply(w, actions[0]), actions[1..], id, t, i))
  }

  ghost predicate Scanning(w: World, id: nat, t: Tid) {
    && Inv(w) && id in w.ctxs
    && (w.ctxs[id].pc.Locking? || w.ctxs[id].pc.Querying? || (w.ctxs[id].pc.Releasing? && w.ctxs[id].pc.error == None))
    && w.ctxs[id].pc.tid == t && w.ctxs[id].pc.cur != w.ctxs[id].state[t].prev
  }

  ghost predicate Over(w: World, id: nat) { id in w.ctxs && (w.ctxs[id].pc.Granting? || w.ctxs[id].pc.Returned?) }

  // ---------------------------------------------------------------- one step

  lemma OthersKeep(w: World, a: Action, id: nat)
    requires Enabled(w, a) && id in w.ctxs && !By(a, id)
    ensures id in Apply(w, a).ctxs && Apply(w, a).ctxs[id] == w.ctxs[id]
  {
  }

  lemma CalmRest(actions: seq<Action>, id: nat)
    requires Calm(actions, id) && actions != []
    ensures Calm(actions[1..], id)
  {
  }

  /** A query never meets a lock that is not shared. */
  lemma QueryMeetsShared(w: World, id: nat, t: Tid, out: Outcome)
    requires Scanning(w, id, t) && w.ctxs[id].pc.Querying? && Enabled(w, Kernel(id, out)) && out.Conflict?
    ensures out == Conflict(Shared) && Meets(w, Kernel(id, out), id, t, w.ctxs[id].pc.cur)
  {
    var cur := w.ctxs[id].pc.cur;
    assert Needs(w, id, t, cur);
    assert Compatible(w.locks, Library(id), Offset(t, cur), w.locks[(Library(id), Offset(t, cur))]);
  }

  /** Where a scan is after a step of its own. */
  ghost predicate Advanced(w: World, v: World, id: nat, t: Tid)
    requires Scanning(w, id, t) && id in v.ctxs && |v.ctxs[id].state| == TIDS
  {
    var c, d := w.ctxs[id], v.ctxs[id];
    d.state[t] == c.state[t] && c.state[t].prev < IIDS &&
    match c.pc
    case Locking(_, cur) => d.pc == Querying(t, cur)
    case Querying(_, cur) => d.pc == Granting(t, cur) || d.pc == Releasing(t, cur, None)
    case Releasing(_, cur, _) => d.pc == Seek(c.state[t], t, cur).pc
  }

  lemma OwnStep(w: World, a: Action, id: nat, t: Tid)
    requires Scanning(w, id, t) && Enabled(w, a) && By(a, id) && Calm([a], id)
    ensures id in Apply(w, a).ctxs && |Apply(w, a).ctxs[id].state| == TIDS && Advanced(w, Apply(w, a), id, t)
    ensures w.ctxs[id].pc.Querying? ==>
              (Apply(w, a).ctxs[id].pc.Releasing? <==> Meets(w, a, id, t, w.ctxs[id].pc.cur))
  {
    assert [a][0] == a;
    if w.ctxs[id].pc.Querying? && a.outcome.Conflict? {
      QueryMeetsShared(w, id, t, a.outcome);
    }
  }

  /** The scan passes over allocated IDs only. */
  lemma {:induction false} SkipsAllocated(st: TidState, cur: nat, i: Iid)
    requires st.prev < IIDS && cur < IIDS && i != st.prev && Ahead(st.prev, i) < Ahead(st.prev, cur)
    requires Candidate(st, cur).None? || Ahead(st.prev, Candidate(st, cur).value) < Ahead(st.prev, i)
    ensures i in st.allocations
    decreases Ahead(st.prev, cur)
  {
    var n := Next(cur);
    if i != n && n != st.prev && n in st.allocations {
      SkipsAllocated(st, n, i);
    }
  }

  // ---------------------------------------------------------------- whole scans

  lemma {:induction false} AtEnd(w: World, actions: seq<Action>, id: nat, t: Tid, i: Iid)
    requires Run(w, actions) && Calm(actions, id) && Over(w, id)
    ensures id in After(w, actions).ctxs && !Met(w, actions, id, t, i)
    ensures var pc, q := w.ctxs[id].pc, After(w, actions).ctxs[id].pc;
      q == pc || (pc.Granting? && q == Returned(Allocated(pc.cur)))
    decreases |actions|
  {
    if actions != [] {
      CalmRest(actions, id);
      if !By(actions[0], id) {
        OthersKeep(w, actions[0], id);
      }
      AtEnd(Apply(w, actions[0]), actions[1..], id, t, i);
    }
  }

  /** The call ends without an ID, or with one that was not allocated and to which the scan had not yet come. */
  ghost predicate EndsWith(st: TidState, pc: Pc, rc: Rc)
    requires st.prev < IIDS && (pc.Locking? || pc.Querying? || pc.Releasing?)
  {
    rc == Again || (rc.Allocated? && rc.iid !in st.allocations && rc.iid != st.prev &&
                    Ahead(st.prev, rc.iid) <= Ahead(st.prev, pc.cur) && (pc.Releasing? ==> rc.iid != pc.cur))
  }

  lemma {:induction false} ScanEnds(w: World, actions: seq<Action>, id: nat, t: Tid)
    requires Run(w, actions) && Calm(actions, id) && Scanning(w, id, t)
    requires id in After(w, actions).ctxs && After(w, actions).ctxs[id].pc.Returned?
    ensures w.ctxs[id].state[t].prev < IIDS
    ensures EndsWith(w.ctxs[id].state[t], w.ctxs[id].pc, After(w, actions).ctxs[id].pc.rc)
    decreases |actions|
  {
    var a, rest := actions[0], actions[1..];
    var v := Apply(w, a);
    CalmRest(actions, id);
    StepKeeps(w, a);
    if !By(a, id) {
      OthersKeep(w, a, id);
      ScanEnds(v, rest, id, t);
    } else {
      OwnStep(w, a, id, t);
      if Over(v, id) {
        AtEnd(v, rest, id, t, 0);
      } else {
        ScanEnds(v, rest, id, t);
      }
    }
  }

  /** An ID the scan has not yet come to. */
  ghost predicate ToCome(st: TidState, pc: Pc, i: Iid)
    requires st.prev < IIDS && (pc.Locking? || pc.Querying? || pc.Releasing?)
  {
    i != st.prev && Ahead(st.prev, i) <= Ahead(st.prev, pc.cur) && (pc.Releasing? ==> i != pc.cur)
  }

  /** The context has it, or it was met locked by somebody else. */
  ghost predicate Taken(w: World, actions: seq<Action>, id: nat, t: Tid, i: Iid)
    requires Run(w, actions) && id in w.ctxs && |w.ctxs[id].state| == TIDS
  {
    i in w.ctxs[id].state[t].allocations || Met(w, actions, id, t, i)
  }

  /** The call ends with an ID that is not taken, or without any; and i is taken unless the scan ended before it. */
  ghost predicate Finds(w: World, actions: seq<Action>, id: nat, t: Tid, i: Iid)
    requires Run(w, actions) && id in w.ctxs && |w.ctxs[id].state| == TIDS && w.ctxs[id].state[t].prev < IIDS
    requires id in After(w, actions).ctxs && After(w, actions).ctxs[id].pc.Returned?
  {
    var rc, prev := After(w, actions).ctxs[id].pc.rc, w.ctxs[id].state[t].prev;
    && (rc == Again || rc.Allocated?)
    && (rc == Again || Ahead(prev, rc.iid) < Ahead(prev, i) ==> Taken(w, actions, id, t, i))
    && (rc == Allocated(i) ==> !Taken(w, actions, id, t, i))
  }

  /** A step that is not the query of i changes nothing about it. */
  lemma FindsStep(w: World, actions: seq<Action>, id: nat, t: Tid, i: Iid)
    requires Run(w, actions) && actions != [] && id in w.ctxs && |w.ctxs[id].state| == TIDS
    requires !Meets(w, actions[0], id, t, i)
    requires var v := Apply(w, actions[0]);
        id in v.ctxs && |v.ctxs[id].state| == TIDS && v.ctxs[id].state[t] == w.ctxs[id].state[t]
    ensures Taken(w, actions, id, t, i) <==> Taken(Apply(w, actions[0]), actions[1..], id, t, i)
  {
  }

  /** An ID that the scan passed over is allocated, and is not the one it ends with. */
  lemma FindsSkipped(w: World, actions: seq<Action>, id: nat, t: Tid, i: Iid)
    requires Run(w, actions) && Calm(actions, id) && Scanning(w, id, t) && i in w.ctxs[id].state[t].allocations
    requires id in After(w, actions).ctxs && After(w, actions).ctxs[id].pc.Returned?
    ensures w.ctxs[id].state[t].prev < IIDS && Finds(w, actions, id, t, i)
  {
    ScanEnds(w, actions, id, t);
  }

  /** The query of i itself: granted, the call ends with i; refused, it goes on to IDs behind i. */
  lemma FindsAtQuery(w: World, actions: seq<Action>, id: nat, t: Tid)
    requires Run(w, actions) && Calm(actions, id) && Scanning(w, id, t) && actions != [] && By(actions[0], id)
    requires w.ctxs[id].pc.Querying?
    requires id in After(w, actions).ctxs && After(w, actions).ctxs[id].pc.Returned?
    ensures w.ctxs[id].state[t].prev < IIDS && Finds(w, actions, id, t, w.ctxs[id].pc.cur)
  {
    var a, rest, i := actions[0], actions[1..], w.ctxs[id].pc.cur;
    var v := Apply(w, a);
    CalmRest(actions, id);
    StepKeeps(w, a);
    OwnStep(w, a, id, t);
    ScanEnds(w, actions, id, t);
    if Over(v, id) {
      AtEnd(v, rest, id, t, i);
    } else {
      ScanEnds(v, rest, id, t);
    }
  }

  /** Every ID the scan comes to and does not return is taken, and the one it returns is not. */
  lemma {:induction false} ScanFinds(w: World, actions: seq<Action>, id: nat, t: Tid, i: Iid)
    requires Run(w, actions) && Calm(actions, id) && Scanning(w, id, t)
    requires ToCome(w.ctxs[id].state[t], w.ctxs[id].pc, i)
    requires id in After(w, actions).ctxs && After(w, actions).ctxs[id].pc.Returned?
    ensures Finds(w, actions, id, t, i)
    decreases |actions|
  {
    var a, rest := actions[0], actions[1..];
    var v := Apply(w, a);
    CalmRest(actions, id);
    StepKeeps(w, a);
    if !By(a, id) {
      OthersKeep(w, a, id);
      ScanFinds(v, rest, id, t, i);
      FindsStep(w, actions, id, t, i);
    } else {
      OwnStep(w, a, id, t);
      if w.ctxs[id].pc == Querying(t, i) {
        FindsAtQuery(w, actions, id, t);
      } else {
        FindsStep(w, actions, id, t, i);
        ScanFindsOwn(w, actions, id, t, i);
      }
    }
  }

  lemma {:induction false} ScanFindsOwn(w: World, actions: seq<Action>, id: nat, t: Tid, i: Iid)
    requires Run(w, actions) && Calm(actions, id) && Scanning(w, id, t) && actions != [] && By(actions[0], id)
    requires ToCome(w.ctxs[id].state[t], w.ctxs[id].pc, i) && w.ctxs[id].pc != Querying(t, i)
    requires id in After(w, actions).ctxs && After(w, actions).ctxs[id].pc.Returned?
    ensures Finds(w, actions, id, t, i)
    decreases |actions|, 0
  {
    var a, rest := actions[0], actions[1..];
    var v := Apply(w, a);
    CalmRest(actions, id);
    StepKeeps(w, a);
    OwnStep(w, a, id, t);
    var st := w.ctxs[id].state[t];
    if Scanning(v, id, t) && ToCome(st, v.ctxs[id].pc, i) {
      FindsStep(w, actions, id, t, i);
      ScanFinds(v, rest, id, t, i);
    } else if w.ctxs[id].pc.Releasing? {
      SkipsAllocated(st, w.ctxs[id].pc.cur, i);
      FindsSkipped(w, actions, id, t, i);
    } else {
      ScanEnds(w, actions, id, t);
      AtEnd(v, rest, id, t, i);
      FindsStep(w, actions, id, t, i);
    }
  }

  // ---------------------------------------------------------------- the call

  lemma EachIsFound(w: World, actions: seq<Action>, id: nat, t: Tid, i: Iid)
    requires Inv(w) && Enabled(w, Alloc(id, t)) && Run(Apply(w, Alloc(id, t)), actions) && Calm(actions, id)
    requires var u := After(Apply(w, Alloc(id, t)), actions); id in u.ctxs && u.ctxs[id].pc.Returned?
    requires i != w.ctxs[id].state[t].prev
    ensures var v := Apply(w, Alloc(id, t));
      id in v.ctxs && |v.ctxs[id].state| == TIDS && v.ctxs[id].state[t] == w.ctxs[id].state[t] &&
        Finds(v, actions, id, t, i)
    ensures var rc := After(Apply(w, Alloc(id, t)), actions).ctxs[id].pc.rc;
      rc == Again || (rc.Allocated? && rc.iid != w.ctxs[id].state[t].prev)
  {
    var v := Apply(w, Alloc(id, t));
    var st := w.ctxs[id].state[t];
    StepKeeps(w, Alloc(id, t));
    if Over(v, id) {
      AtEnd(v, actions, id, t, i);
      SkipsAllocated(st, st.prev, i);
    } else {
      ScanEnds(v, actions, id, t);
      if ToCome(st, v.ctxs[id].pc, i) {
        ScanFinds(v, actions, id, t, i);
      } else {
        SkipsAllocated(st, st.prev, i);
        FindsSkipped(v, actions, id, t, i);
      }
    }
  }

  /**
   An allocation among other contexts, none of whose `fcntl` calls fails: it reports -EAGAIN exactly when it has or
   meets every ID but the previous one, and otherwise ends with one that it neither has nor met.
   */
  lemma AgainMeansAllTaken(w: World, actions: seq<Action>, id: nat, t: Tid)
    requires Inv(w) && Enabled(w, Alloc(id, t)) && Run(Apply(w, Alloc(id, t)), actions) && Calm(actions, id)
    requires var u := After(Apply(w, Alloc(id, t)), actions); id in u.ctxs && u.ctxs[id].pc.Returned?
    ensures var v := Apply(w, Alloc(id, t)); var rc := After(v, actions).ctxs[id].pc.rc;
        var prev := w.ctxs[id].state[t].prev;
      && id in v.ctxs && |v.ctxs[id].state| == TIDS && v.ctxs[id].state[t] == w.ctxs[id].state[t]
      && (rc == Again <==> forall i: Iid :: i != prev ==> Taken(v, actions, id, t, i))
      && (rc == Again || (rc.Allocated? && rc.iid != prev && !Taken(v, actions, id, t, rc.iid)))
  {
    var v, prev := Apply(w, Alloc(id, t)), w.ctxs[id].state[t].prev;
    var rc := After(v, actions).ctxs[id].pc.rc;
    EachIsFound(w, actions, id, t, if prev == 0 then 1 else 0);
    if rc == Again {
      forall i: Iid | i != prev ensures Taken(v, actions, id, t, i) {
        EachIsFound(w, actions, id, t, i);
      }
    } else {
      EachIsFound(w, actions, id, t, rc.iid);
    }
  }
}
