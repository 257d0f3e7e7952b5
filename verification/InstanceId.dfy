/**
 Models src/requester/instance-id.c: PLDM instance IDs shared out between any number
 of processes through advisory locks on one file.

 `Machine` part: what one context does between two `fcntl` calls. `Protocol` part: any
 number of contexts, interleaved at every `fcntl`, over an abstract lock table.
 `Database` part: the loop of the C code, proved to be that machine.
 */
module InstanceId {
  import opened Common

  const TIDS := 256
  const IIDS := 32

  type Tid = x: int | 0 <= x < 256
  type Iid = x: int | 0 <= x < 32

  // ---------------------------------------------------------------- one context

  /** Bit i of the C bitmap `allocations` is membership of i here. */
  datatype TidState = TidState(prev: nat, allocations: set<Iid>)

  const FRESH := TidState(31, {})

  /** The return codes of alloc and free: 0 with or without an ID, -EAGAIN, -EPROTO, -EINVAL. */
  datatype Rc = Allocated(iid: Iid) | Freed | Again | Proto | Inval

  datatype Kind = Shared | Exclusive

  /** What an `fcntl` reports. `Ok` on a query means F_UNLCK: the promotion would succeed. */
  datatype Outcome = Ok | Conflict(kind: Kind) | Retry | Broken

  /** Where a context stands; every constructor between `Idle` and `Returned` is inside a call. */
  datatype Pc =
    | Idle
    | Locking(tid: Tid, cur: Iid)
    | Querying(tid: Tid, cur: Iid)
    | Granting(tid: Tid, cur: Iid)
    | Releasing(tid: Tid, cur: Iid, error: Option<Rc>)
    | Unlocking(tid: Tid, cur: Iid)
    | Clearing(tid: Tid, cur: Iid)
    | Returned(rc: Rc)
  {
    predicate AwaitsKernel() { Locking? || Querying? || Releasing? || Unlocking? }

    predicate AwaitsSelf() { Granting? || Clearing? }

    predicate AtRest() { Idle? || Returned? }
  }

  datatype Request = SetShared(off: nat) | TestExclusive(off: nat) | SetNone(off: nat)

  /** iid_next; `NextIsModular` gives the C expression. */
  function Next(cur: nat): Iid
    requires cur < IIDS
  {
    if cur == 31 then 0 else cur + 1
  }

  lemma NextIsModular(cur: nat)
    requires cur < IIDS
    ensures Next(cur) == (cur + 1) % 32
  {
  }

  function Offset(t: Tid, i: Iid): nat { t * IIDS + i }

  /** How many IDs the scan may still look at before it is back at `prev`. */
  function Ahead(prev: nat, cur: nat): nat
    requires prev < IIDS && cur < IIDS
  {
    if cur < prev then prev - 1 - cur else prev + 31 - cur
  }

  /** The scan of the alloc loop: the next unallocated ID after `cur`, giving up at `prev`. */
  function Candidate(st: TidState, cur: nat): (c: Option<Iid>)
    requires st.prev < IIDS && cur < IIDS
    ensures c.Some? ==>
        c.value !in st.allocations && c.value != st.prev && Ahead(st.prev, c.value) < Ahead(st.prev, cur)
    decreases Ahead(st.prev, cur)
  {
    var n := Next(cur);
    if n == st.prev then None
    else if n in st.allocations then Candidate(st, n)
    else Some(n)
  }

  datatype Local = Local(st: TidState, pc: Pc)

  function Seek(st: TidState, t: Tid, cur: nat): Local
    requires st.prev < IIDS && cur < IIDS
  {
    match Candidate(st, cur)
    case None => Local(st, Returned(Again))
    case Some(n) => Local(st, Locking(t, n))
  }

  function BeginAlloc(st: TidState, t: Tid): Local {
    if st.prev >= IIDS then Local(st, Returned(Proto)) else Seek(st, t, st.prev)
  }

  /** `iid` is the caller's: a value of 32 or more has no bit in the 32-bit map. */
  function BeginFree(st: TidState, t: Tid, iid: nat): Local {
    if iid < IIDS && iid in st.allocations then Local(st, Unlocking(t, iid)) else Local(st, Returned(Inval))
  }

  function Failure(o: Outcome): Rc { if o.Retry? then Again else Proto }

  /** The code between one `fcntl` and the next. */
  function Resume(l: Local, o: Outcome): Local
    requires l.pc.AwaitsKernel() && l.st.prev < IIDS
  {
    var st := l.st;
    match l.pc
    case Locking(t, cur) => if o.Ok? then Local(st, Querying(t, cur)) else Local(st, Returned(Failure(o)))
    case Querying(t, cur) =>
      if o.Ok? then Local(st, Granting(t, cur))
      else if o == Conflict(Shared) then Local(st, Releasing(t, cur, None))
      else Local(st, Releasing(t, cur, Some(Failure(o))))
    case Releasing(t, cur, error) =>
      if !o.Ok? then Local(st, Returned(Failure(o)))
      else if error.Some? then Local(st, Returned(error.value))
      else Seek(st, t, cur)
    case Unlocking(t, i) => if o.Ok? then Local(st, Clearing(t, i)) else Local(st, Returned(Failure(o)))
  }

  function Grant(st: TidState, cur: Iid): TidState { TidState(cur, st.allocations + {cur}) }

  /** Updates of the context's own fields, after the `fcntl` that decided them. */
  function Settle(l: Local): Local
    requires l.pc.AwaitsSelf()
  {
    match l.pc
    case Granting(t, cur) => Local(Grant(l.st, cur), Returned(Allocated(cur)))
    case Clearing(t, i) => Local(l.st.(allocations := l.st.allocations - {i}), Returned(Freed))
  }

  function Ask(pc: Pc): Request
    requires pc.AwaitsKernel()
  {
    match pc
    case Locking(t, cur) => SetShared(Offset(t, cur))
    case Querying(t, cur) => TestExclusive(Offset(t, cur))
    case Releasing(t, cur, _) => SetNone(Offset(t, cur))
    case Unlocking(t, i) => SetNone(Offset(t, i))
  }

  /** Offsets never collide and stay inside the file whose size init checks. */
  lemma OffsetInjective(t: Tid, i: Iid, u: Tid, j: Iid)
    ensures Offset(t, i) < TIDS * IIDS && Offset(t, i) / 32 == t && Offset(t, i) % 32 == i
    ensures Offset(t, i) == Offset(u, j) ==> t == u && i == j
  {
  }

  // ---------------------------------------------------------------- the protocol

  /** Locks belong to open file descriptions: those of the library, or anybody else's. */
  datatype Owner = Library(id: nat) | Foreign(id: nat)

  type LockTable = map<(Owner, nat), Kind>

  datatype Ctx = Ctx(state: seq<TidState>, pc: Pc)

  datatype World = World(ctxs: map<nat, Ctx>, locks: LockTable)

  datatype Action =
    | Open(id: nat)
    | Close(id: nat)
    | Alloc(id: nat, tid: Tid)
    | Free(id: nat, tid: Tid, iid: nat)
    | Kernel(id: nat, outcome: Outcome)
    | Self(id: nat)
    | Meddle(id: nat, off: nat, kind: Option<Kind>)

  /** Kernel rule for F_OFD_SETLK: locks of other descriptions must be compatible. */
  ghost predicate Compatible(locks: LockTable, o: Owner, off: nat, kind: Kind) {
    forall p: Owner {:trigger (p, off) in locks} :: p != o && (p, off) in locks ==>
      kind == Shared && locks[(p, off)] == Shared
  }

  /** Which outcomes the kernel may report; an error may be reported at any time. */
  ghost predicate Permitted(locks: LockTable, o: Owner, r: Request, out: Outcome) {
    match out
    case Retry => true
    case Broken => true
    case Ok =>
      (match r
       case SetShared(off) => Compatible(locks, o, off, Shared)
       case TestExclusive(off) => Compatible(locks, o, off, Exclusive)
       case SetNone(off) => true)
    case Conflict(kind) =>
      r.TestExclusive? &&
      exists p: Owner {:trigger (p, r.off) in locks} :: p != o && (p, r.off) in locks && locks[(p, r.off)] == kind
  }

  /** What a request does to the table; a failed one does nothing. */
  function Granted(locks: LockTable, o: Owner, r: Request, out: Outcome): LockTable {
    if !out.Ok? then locks
    else match r
      case SetShared(off) => locks[(o, off) := Shared]
      case TestExclusive(off) => locks
      case SetNone(off) => locks - {(o, off)}
  }

  function Install(c: Ctx, t: Tid, l: Local): Ctx
    requires |c.state| == TIDS
  {
    Ctx(c.state[t := l.st], l.pc)
  }

  ghost predicate WellSized(w: World) {
    forall id :: id in w.ctxs ==> |w.ctxs[id].state| == TIDS && forall t: Tid :: w.ctxs[id].state[t].prev < IIDS
  }

  ghost predicate Enabled(w: World, a: Action) {
    WellSized(w) &&
    match a
    case Open(id) => id !in w.ctxs
    case Close(id) => id in w.ctxs
    case Alloc(id, _) => id in w.ctxs && w.ctxs[id].pc.AtRest()
    case Free(id, _, _) => id in w.ctxs && w.ctxs[id].pc.AtRest()
    case Kernel(id, out) =>
      id in w.ctxs && w.ctxs[id].pc.AwaitsKernel() && Permitted(w.locks, Library(id), Ask(w.ctxs[id].pc), out)
    case Self(id) => id in w.ctxs && w.ctxs[id].pc.AwaitsSelf()
    case Meddle(id, off, kind) => kind.Some? ==> Compatible(w.locks, Foreign(id), off, kind.value)
  }

  ghost function Apply(w: World, a: Action): World
    requires Enabled(w, a)
  {
    match a
    case Open(id) => w.(ctxs := w.ctxs[id := Ctx(seq(TIDS, _ => FRESH), Idle)])
    case Close(id) => World(w.ctxs - {id}, map k | k in w.locks && k.0 != Library(id) :: w.locks[k])
    case Alloc(id, t) => w.(ctxs := w.ctxs[id := Install(w.ctxs[id], t, BeginAlloc(w.ctxs[id].state[t], t))])
    case Free(id, t, i) => w.(ctxs := w.ctxs[id := Install(w.ctxs[id], t, BeginFree(w.ctxs[id].state[t], t, i))])
    case Kernel(id, out) =>
      var c := w.ctxs[id];
      var t := c.pc.tid;
      World(w.ctxs[id := Install(c, t, Resume(Local(c.state[t], c.pc), out))],
            Granted(w.locks, Library(id), Ask(c.pc), out))
    case Self(id) =>
      var c := w.ctxs[id];
      var t := c.pc.tid;
      w.(ctxs := w.ctxs[id := Install(c, t, Settle(Local(c.state[t], c.pc)))])
    case Meddle(id, off, kind) =>
      w.(locks := if kind.Some? then w.locks[(Foreign(id), off) := kind.value] else w.locks - {(Foreign(id), off)})
  }

  const EMPTY := World(map[], map[])

  ghost predicate Run(w: World, actions: seq<Action>)
    decreases |actions|
  {
    actions == [] || (Enabled(w, actions[0]) && Run(Apply(w, actions[0]), actions[1..]))
  }

  ghost function After(w: World, actions: seq<Action>): World
    requires Run(w, actions)
    decreases |actions|
  {
    if actions == [] then w else After(Apply(w, actions[0]), actions[1..])
  }

  /** The context may use (t, i) on the wire: from the query that granted it to the unlock that gives it up. */
  ghost predicate Owns(w: World, id: nat, t: Tid, i: Iid) {
    id in w.ctxs && |w.ctxs[id].state| == TIDS &&
    ((i in w.ctxs[id].state[t].allocations && w.ctxs[id].pc != Clearing(t, i)) || w.ctxs[id].pc == Granting(t, i))
  }

  /** The context must hold a lock at (t, i): it owns the ID, or it is probing it. */
  ghost predicate Needs(w: World, id: nat, t: Tid, i: Iid) {
    Owns(w, id, t, i) ||
    (id in w.ctxs && (w.ctxs[id].pc == Querying(t, i) ||
                      (w.ctxs[id].pc.Releasing? && w.ctxs[id].pc.tid == t && w.ctxs[id].pc.cur == i)))
  }

  ghost predicate Exclusion(w: World) {
    forall a, b, t: Tid, i: Iid :: Owns(w, a, t, i) && Owns(w, b, t, i) ==> a == b
  }

  ghost predicate LocksCompatible(w: World) {
    forall k: (Owner, nat) :: k in w.locks ==> Compatible(w.locks, k.0, k.1, w.locks[k])
  }

  ghost predicate Backed(w: World) {
    forall id, t: Tid, i: Iid :: Needs(w, id, t, i) ==> (Library(id), Offset(t, i)) in w.locks
  }

  /** Where each program point stands with respect to the bitmap. */
  ghost predicate PcSound(c: Ctx)
    requires |c.state| == TIDS
  {
    match c.pc
    case Locking(t, cur) => cur !in c.state[t].allocations
    case Querying(t, cur) => cur !in c.state[t].allocations
    case Granting(t, cur) => cur !in c.state[t].allocations
    case Releasing(t, cur, _) => cur !in c.state[t].allocations
    case Unlocking(t, i) => i in c.state[t].allocations
    case Clearing(t, i) => i in c.state[t].allocations
    case _ => true
  }

  /** Library locks are shared ones, of live contexts, inside the file. */
  ghost predicate LibraryLocks(w: World) {
    forall id: nat, off: nat :: (Library(id), off) in w.locks ==>
      id in w.ctxs && w.locks[(Library(id), off)] == Shared && off < TIDS * IIDS
  }

  ghost predicate Inv(w: World) {
    WellSized(w) && (forall id :: id in w.ctxs ==> PcSound(w.ctxs[id])) &&
    LocksCompatible(w) && Backed(w) && LibraryLocks(w) && Exclusion(w)
  }

  // ---------------------------------------------------------------- every step keeps the invariant

  /** `v` is `w` with context `id` replaced, whatever happened to the locks. */
  ghost predicate OnlyCtx(w: World, v: World, id: nat) {
    id in w.ctxs && v.ctxs.Keys == w.ctxs.Keys && forall k :: k in w.ctxs && k != id ==> v.ctxs[k] == w.ctxs[k]
  }

  ghost predicate CtxSound(w: World, id: nat) {
    id in w.ctxs && |w.ctxs[id].state| == TIDS && (forall t: Tid :: w.ctxs[id].state[t].prev < IIDS) &&
      PcSound(w.ctxs[id])
  }

  /** A step that touches no lock, and after which the context claims nothing new. */
  lemma QuietStep(w: World, v: World, id: nat)
    requires Inv(w) && OnlyCtx(w, v, id) && v.locks == w.locks && CtxSound(v, id)
    requires forall t: Tid, i: Iid :: Needs(v, id, t, i) ==> Needs(w, id, t, i)
    requires forall t: Tid, i: Iid :: Owns(v, id, t, i) ==> Owns(w, id, t, i)
    ensures Inv(v)
  {
    assert forall k, t: Tid, i: Iid :: k != id ==>
      Needs(v, k, t, i) == Needs(w, k, t, i) && Owns(v, k, t, i) == Owns(w, k, t, i);
  }

  lemma AllocKeeps(w: World, id: nat, t: Tid)
    requires Inv(w) && Enabled(w, Alloc(id, t))
    ensures Inv(Apply(w, Alloc(id, t)))
  {
    QuietStep(w, Apply(w, Alloc(id, t)), id);
  }

  lemma FreeKeeps(w: World, id: nat, t: Tid, i: nat)
    requires Inv(w) && Enabled(w, Free(id, t, i))
    ensures Inv(Apply(w, Free(id, t, i)))
  {
    QuietStep(w, Apply(w, Free(id, t, i)), id);
  }

  lemma SelfKeeps(w: World, id: nat)
    requires Inv(w) && Enabled(w, Self(id))
    ensures Inv(Apply(w, Self(id)))
  {
    QuietStep(w, Apply(w, Self(id)), id);
  }

  /** A step that takes away one lock of the context, at an offset it no longer needs. */
  lemma UnlockStep(w: World, v: World, id: nat, off: nat)
    requires Inv(w) && OnlyCtx(w, v, id) && v.locks == w.locks - {(Library(id), off)} && CtxSound(v, id)
    requires forall t: Tid, i: Iid :: Needs(v, id, t, i) ==> Needs(w, id, t, i) && Offset(t, i) != off
    requires forall t: Tid, i: Iid :: Owns(v, id, t, i) ==> Owns(w, id, t, i)
    ensures Inv(v)
  {
    assert forall k, t: Tid, i: Iid :: k != id ==>
      Needs(v, k, t, i) == Needs(w, k, t, i) && Owns(v, k, t, i) == Owns(w, k, t, i);
  }

  lemma LockingKeeps(w: World, id: nat, out: Outcome)
    requires Inv(w) && Enabled(w, Kernel(id, out)) && w.ctxs[id].pc.Locking?
    ensures Inv(Apply(w, Kernel(id, out)))
  {
    var v := Apply(w, Kernel(id, out));
    if out.Ok? {
      var t, cur := w.ctxs[id].pc.tid, w.ctxs[id].pc.cur;
      OffsetInjective(t, cur, t, cur);
      assert forall k, u: Tid, i: Iid :: Owns(v, k, u, i) == Owns(w, k, u, i);
      assert forall k, u: Tid, i: Iid :: Needs(v, k, u, i) ==> Needs(w, k, u, i) || (k == id && u == t && i == cur);
    } else {
      QuietStep(w, v, id);
    }
  }

  lemma QueryingKeeps(w: World, id: nat, out: Outcome)
    requires Inv(w) && Enabled(w, Kernel(id, out)) && w.ctxs[id].pc.Querying?
    ensures Inv(Apply(w, Kernel(id, out)))
  {
    var v := Apply(w, Kernel(id, out));
    var t, cur := w.ctxs[id].pc.tid, w.ctxs[id].pc.cur;
    if out.Ok? {
      assert forall k, u: Tid, i: Iid :: Needs(v, k, u, i) == Needs(w, k, u, i);
      assert forall k, u: Tid, i: Iid :: Owns(v, k, u, i) ==> Owns(w, k, u, i) || (k == id && u == t && i == cur);
      forall k | k != id ensures !Owns(w, k, t, cur) {
        assert Owns(w, k, t, cur) ==> Needs(w, k, t, cur);
      }
    } else {
      QuietStep(w, v, id);
    }
  }

  lemma ReleasingKeeps(w: World, id: nat, out: Outcome)
    requires Inv(w) && Enabled(w, Kernel(id, out)) && w.ctxs[id].pc.Releasing?
    ensures Inv(Apply(w, Kernel(id, out)))
  {
    var v := Apply(w, Kernel(id, out));
    var t, cur := w.ctxs[id].pc.tid, w.ctxs[id].pc.cur;
    if out.Ok? {
      forall u: Tid, i: Iid | Needs(v, id, u, i) ensures Offset(u, i) != Offset(t, cur) {
        OffsetInjective(u, i, t, cur);
      }
      UnlockStep(w, v, id, Offset(t, cur));
    } else {
      QuietStep(w, v, id);
    }
  }

  lemma UnlockingKeeps(w: World, id: nat, out: Outcome)
    requires Inv(w) && Enabled(w, Kernel(id, out)) && w.ctxs[id].pc.Unlocking?
    ensures Inv(Apply(w, Kernel(id, out)))
  {
    var v := Apply(w, Kernel(id, out));
    var t, cur := w.ctxs[id].pc.tid, w.ctxs[id].pc.cur;
    if out.Ok? {
      forall u: Tid, i: Iid | Needs(v, id, u, i) ensures Offset(u, i) != Offset(t, cur) {
        OffsetInjective(u, i, t, cur);
      }
      UnlockStep(w, v, id, Offset(t, cur));
    } else {
      QuietStep(w, v, id);
    }
  }

  lemma OpenKeeps(w: World, id: nat)
    requires Inv(w) && Enabled(w, Open(id))
    ensures Inv(Apply(w, Open(id)))
  {
    var v := Apply(w, Open(id));
    assert forall k, t: Tid, i: Iid :: Needs(v, k, t, i) == Needs(w, k, t, i) && Owns(v, k, t, i) == Owns(w, k, t, i);
  }

  lemma CloseKeeps(w: World, id: nat)
    requires Inv(w) && Enabled(w, Close(id))
    ensures Inv(Apply(w, Close(id)))
  {
    var v := Apply(w, Close(id));
    assert forall k, t: Tid, i: Iid :: k != id ==>
      Needs(v, k, t, i) == Needs(w, k, t, i) && Owns(v, k, t, i) == Owns(w, k, t, i);
    assert forall t: Tid, i: Iid :: !Needs(v, id, t, i);
  }

  lemma MeddleKeeps(w: World, id: nat, off: nat, kind: Option<Kind>)
    requires Inv(w) && Enabled(w, Meddle(id, off, kind))
    ensures Inv(Apply(w, Meddle(id, off, kind)))
  {
    var v := Apply(w, Meddle(id, off, kind));
    assert forall k, t: Tid, i: Iid :: Needs(v, k, t, i) == Needs(w, k, t, i) && Owns(v, k, t, i) == Owns(w, k, t, i);
  }

  lemma StepKeeps(w: World, a: Action)
    requires Inv(w) && Enabled(w, a)
    ensures Inv(Apply(w, a))
  {
    match a
    case Open(id) => OpenKeeps(w, id);
    case Close(id) => CloseKeeps(w, id);
    case Alloc(id, t) => AllocKeeps(w, id, t);
    case Free(id, t, i) => FreeKeeps(w, id, t, i);
    case Self(id) => SelfKeeps(w, id);
    case Meddle(id, off, kind) => MeddleKeeps(w, id, off, kind);
    case Kernel(id, out) =>
      match w.ctxs[id].pc
      case Locking(_, _) => LockingKeeps(w, id, out);
      case Querying(_, _) => QueryingKeeps(w, id, out);
      case Releasing(_, _, _) => ReleasingKeeps(w, id, out);
      case Unlocking(_, _) => UnlockingKeeps(w, id, out);
  }

  lemma {:induction false} RunKeeps(w: World, actions: seq<Action>)
    requires Inv(w) && Run(w, actions)
    ensures Inv(After(w, actions))
    decreases |actions|
  {
    if actions != [] {
      StepKeeps(w, actions[0]);
      RunKeeps(Apply(w, actions[0]), actions[1..]);
    }
  }

  /** In every interleaving, whatever fails or crashes, an ID of a terminus has at most one owner. */
  lemma NoIdHasTwoOwners(actions: seq<Action>)
    requires Run(EMPTY, actions)
    ensures Exclusion(After(EMPTY, actions)) && Backed(After(EMPTY, actions)) && LibraryLocks(After(EMPTY, actions))
  {
    RunKeeps(EMPTY, actions);
  }

  /** The -EPROTO of an incompatible conflicting lock cannot happen: a probing context already holds the byte. */
  lemma ProbeNeverMeetsExclusive(actions: seq<Action>, id: nat)
    requires Run(EMPTY, actions)
    requires var w := After(EMPTY, actions); id in w.ctxs && w.ctxs[id].pc.Querying?
    ensures !Enabled(After(EMPTY, actions), Kernel(id, Conflict(Exclusive)))
  {
    RunKeeps(EMPTY, actions);
    var w := After(EMPTY, actions);
    var t, cur := w.ctxs[id].pc.tid, w.ctxs[id].pc.cur;
    assert Needs(w, id, t, cur);
    assert Compatible(w.locks, Library(id), Offset(t, cur), w.locks[(Library(id), Offset(t, cur))]);
  }

  /** Releasing a probed byte never takes the lock away from under an allocated ID. */
  lemma ReleaseSparesAllocations(actions: seq<Action>, id: nat, out: Outcome, u: Tid, i: Iid)
    requires Run(EMPTY, actions)
    requires var w := After(EMPTY, actions);
      Enabled(w, Kernel(id, out)) && w.ctxs[id].pc.Releasing? && i in w.ctxs[id].state[u].allocations
    ensures (Library(id), Offset(u, i)) in Apply(After(EMPTY, actions), Kernel(id, out)).locks
  {
    RunKeeps(EMPTY, actions);
    var w := After(EMPTY, actions);
    StepKeeps(w, Kernel(id, out));
    assert Needs(Apply(w, Kernel(id, out)), id, u, i);
  }

  // ---------------------------------------------------------------- locks nobody accounts for

  /** A lock of a context with no allocation and no probe behind it. */
  ghost predicate Leaked(w: World, id: nat, t: Tid, i: Iid) {
    (Library(id), Offset(t, i)) in w.locks && !Needs(w, id, t, i)
  }

  /** The converse of `Backed`. */
  ghost predicate NoLeak(w: World) { forall id, t: Tid, i: Iid :: !Leaked(w, id, t, i) }

  /** The release of a probed ID that reports an error. */
  ghost predicate Leaks(w: World, a: Action, id: nat, t: Tid, i: Iid)
    requires Enabled(w, a)
  {
    && a.Kernel? && a.id == id && !a.outcome.Ok?
    && w.ctxs[id].pc.Releasing? && w.ctxs[id].pc.tid == t && w.ctxs[id].pc.cur == i
  }

  /** What makes up for it: closing the context, or probing the ID again. */
  ghost predicate Recovers(w: World, a: Action, id: nat, t: Tid, i: Iid)
    requires Enabled(w, a)
  {
    a == Close(id) || (a == Kernel(id, Ok) && w.ctxs[id].pc == Locking(t, i))
  }

  lemma LeakKernelStep(w: World, a: Action, id: nat, t: Tid, i: Iid)
    requires Inv(w) && Enabled(w, a) && a.Kernel? && a.id == id
    ensures Leaked(Apply(w, a), id, t, i) <==>
        Leaks(w, a, id, t, i) || (Leaked(w, id, t, i) && !Recovers(w, a, id, t, i))
  {
    OffsetInjective(t, i, w.ctxs[id].pc.tid, w.ctxs[id].pc.cur);
  }

  lemma LeakOwnStep(w: World, a: Action, id: nat, t: Tid, i: Iid)
    requires Inv(w) && Enabled(w, a) && a.id == id && !a.Kernel? && !a.Meddle?
    ensures Leaked(Apply(w, a), id, t, i) <==> Leaked(w, id, t, i) && !Recovers(w, a, id, t, i)
  {
  }

  /** Leaks begin with a failed release and with nothing else, and end in these two ways and in no other. */
  lemma LeakStep(w: World, a: Action, id: nat, t: Tid, i: Iid)
    requires Inv(w) && Enabled(w, a)
    ensures Leaked(Apply(w, a), id, t, i) <==>
        Leaks(w, a, id, t, i) || (Leaked(w, id, t, i) && !Recovers(w, a, id, t, i))
  {
    if a.Kernel? && a.id == id {
      LeakKernelStep(w, a, id, t, i);
    } else if !a.Meddle? && a.id == id {
      LeakOwnStep(w, a, id, t, i);
    } else {
      assert (Library(id), Offset(t, i)) in Apply(w, a).locks <==> (Library(id), Offset(t, i)) in w.locks;
    }
  }

  ghost predicate Clean(w: World, a: Action)
    requires Enabled(w, a)
  {
    a.Kernel? && w.ctxs[a.id].pc.Releasing? ==> a.outcome.Ok?
  }

  lemma NoLeakExactlyWhenClean(w: World, a: Action)
    requires Inv(w) && Enabled(w, a) && NoLeak(w)
    ensures NoLeak(Apply(w, a)) <==> Clean(w, a)
  {
    forall id, t: Tid, i: Iid ensures Leaked(Apply(w, a), id, t, i) <==> Leaks(w, a, id, t, i) {
      LeakStep(w, a, id, t, i);
    }
    if !Clean(w, a) {
      assert Leaks(w, a, a.id, w.ctxs[a.id].pc.tid, w.ctxs[a.id].pc.cur);
    }
  }

  ghost predicate NeverLeaks(w: World, actions: seq<Action>)
    requires Run(w, actions)
    decreases |actions|
  {
    NoLeak(w) && (actions != [] ==> NeverLeaks(Apply(w, actions[0]), actions[1..]))
  }

  ghost predicate CleanRun(w: World, actions: seq<Action>)
    requires Run(w, actions)
    decreases |actions|
  {
    actions != [] ==> Clean(w, actions[0]) && CleanRun(Apply(w, actions[0]), actions[1..])
  }

  lemma {:induction false} RunLeaksExactlyWhenUnclean(w: World, actions: seq<Action>)
    requires Inv(w) && Run(w, actions) && NoLeak(w)
    ensures NeverLeaks(w, actions) <==> CleanRun(w, actions)
    decreases |actions|
  {
    if actions != [] {
      StepKeeps(w, actions[0]);
      NoLeakExactlyWhenClean(w, actions[0]);
      if Clean(w, actions[0]) {
        RunLeaksExactlyWhenUnclean(Apply(w, actions[0]), actions[1..]);
      }
    }
  }

  /**
   In every run, each lock of the library is at all times that of an owned or probed ID exactly when no release fails.
   */
  lemma LocksAreAccountedFor(actions: seq<Action>)
    requires Run(EMPTY, actions)
    ensures NeverLeaks(EMPTY, actions) <==> CleanRun(EMPTY, actions)
  {
    RunLeaksExactlyWhenUnclean(EMPTY, actions);
  }

  lemma RunFrom(w: World, a: Action, rest: seq<Action>)
    requires Enabled(w, a) && Run(Apply(w, a), rest)
    ensures Run(w, [a] + rest) && After(w, [a] + rest) == After(Apply(w, a), rest)
  {
    assert ([a] + rest)[1..] == rest;
  }

  /** A context that is alone in the world, with nothing allocated. */
  ghost function Alone(pc: Pc, locks: LockTable): World { World(map[0 := Ctx(seq(TIDS, _ => FRESH), pc)], locks) }

  lemma AloneGoesOn(t: Tid, pc: Pc, locks: LockTable, out: Outcome)
    requires pc.AwaitsKernel() && pc.tid == t && !out.Conflict?
    requires forall k :: k in locks ==> k.0 == Library(0)
    ensures Enabled(Alone(pc, locks), Kernel(0, out))
    ensures var l := Resume(Local(FRESH, pc), out);
      l.st == FRESH ==> Apply(Alone(pc, locks), Kernel(0, out)) == Alone(l.pc, Granted(locks, Library(0), Ask(pc), out))
  {
    var state := seq(TIDS, _ => FRESH);
    assert state[t := FRESH] == state;
    assert forall p: Owner, off: nat :: (p, off) in locks ==> (p, off).0 == p;
    assert WellSized(Alone(pc, locks));
    assert Permitted(locks, Library(0), Ask(pc), out);
  }

  /** One context on its own is enough: it probes its first ID, and the query and then the release fail. */
  lemma FailedReleaseLeaks(t: Tid)
    ensures var actions := [Open(0)] +
        ([Alloc(0, t)] + ([Kernel(0, Ok)] + ([Kernel(0, Broken)] + [Kernel(0, Broken)])));
      Run(EMPTY, actions) && Leaked(After(EMPTY, actions), 0, t, 0)
  {
    var held := map[(Library(0), Offset(t, 0)) := Shared];
    var w4, w3, w2, w1 :=
      Alone(Releasing(t, 0, Some(Proto)), held), Alone(Querying(t, 0), held), Alone(Locking(t, 0), map[]),
        Alone(Idle, map[]);
    AloneGoesOn(t, Releasing(t, 0, Some(Proto)), held, Broken);
    RunFrom(w4, Kernel(0, Broken), []);
    AloneGoesOn(t, Querying(t, 0), held, Broken);
    RunFrom(w3, Kernel(0, Broken), [Kernel(0, Broken)]);
    AloneGoesOn(t, Locking(t, 0), map[], Ok);
    RunFrom(w2, Kernel(0, Ok), [Kernel(0, Broken)] + [Kernel(0, Broken)]);
    AloneBegins(t);
    RunFrom(w1, Alloc(0, t), [Kernel(0, Ok)] + ([Kernel(0, Broken)] + [Kernel(0, Broken)]));
    RunFrom(EMPTY, Open(0), [Alloc(0, t)] + ([Kernel(0, Ok)] + ([Kernel(0, Broken)] + [Kernel(0, Broken)])));
  }

  lemma AloneBegins(t: Tid)
    ensures Enabled(EMPTY, Open(0)) && Apply(EMPTY, Open(0)) == Alone(Idle, map[])
    ensures Enabled(Alone(Idle, map[]), Alloc(0, t)) &&
        Apply(Alone(Idle, map[]), Alloc(0, t)) == Alone(Locking(t, 0), map[])
  {
    var state := seq(TIDS, _ => FRESH);
    assert state[t := FRESH] == state;
    assert Candidate(FRESH, 31) == Some(0);
  }

  ghost predicate Unrecovered(w: World, actions: seq<Action>, id: nat, t: Tid, i: Iid)
    requires Run(w, actions)
    decreases |actions|
  {
    actions != [] ==> !Recovers(w, actions[0], id, t, i) && Unrecovered(Apply(w, actions[0]), actions[1..], id, t, i)
  }

  /** While an ID is leaked, no other context becomes its owner. */
  lemma LeakBarsStep(w: World, a: Action, id: nat, t: Tid, i: Iid, other: nat)
    requires Inv(w) && Enabled(w, a) && Leaked(w, id, t, i) && other != id && !Owns(w, other, t, i)
    ensures !Owns(Apply(w, a), other, t, i)
  {
    assert Compatible(w.locks, Library(id), Offset(t, i), w.locks[(Library(id), Offset(t, i))]);
  }

  /**
   A leak lasts until it is made up for, and for as long keeps the ID from every other context that does not own it
   yet.
   */
  lemma {:induction false} LeakBarsOthers(w: World, actions: seq<Action>, id: nat, t: Tid, i: Iid, other: nat)
    requires Inv(w) && Run(w, actions) && Leaked(w, id, t, i) && Unrecovered(w, actions, id, t, i)
    requires other != id && !Owns(w, other, t, i)
    ensures Leaked(After(w, actions), id, t, i) && !Owns(After(w, actions), other, t, i)
    decreases |actions|
  {
    if actions != [] {
      StepKeeps(w, actions[0]);
      LeakStep(w, actions[0], id, t, i);
      LeakBarsStep(w, actions[0], id, t, i, other);
      LeakBarsOthers(Apply(w, actions[0]), actions[1..], id, t, i, other);
    }
  }

  // ---------------------------------------------------------------- whole calls

  datatype Finish = Finish(st: TidState, rc: Rc, asked: nat, log: seq<Request>)

  function Phase(pc: Pc): nat {
    match pc
    case Locking(_, _) => 4
    case Querying(_, _) => 3
    case Unlocking(_, _) => 3
    case Releasing(_, _, _) => 2
    case Granting(_, _) => 1
    case Clearing(_, _) => 1
    case _ => 0
  }

  function LeftToScan(l: Local): nat
    requires l.st.prev < IIDS
  {
    if l.pc.AtRest() || l.pc.Unlocking? || l.pc.Clearing? || l.pc.Granting? then 0 else Ahead(l.st.prev, l.pc.cur)
  }

  /** The answer to the n-th `fcntl` of the process: as scripted, and `Ok` after the script has ended. */
  function Reply(replies: seq<Outcome>, n: nat): Outcome { if n < |replies| then replies[n] else Ok }

  /** One call run to its end against scripted replies, with a log of what it asked. */
  function Drive(l: Local, replies: seq<Outcome>, asked: nat, log: seq<Request>): Finish
    requires l.st.prev < IIDS && !l.pc.Idle?
    decreases LeftToScan(l), Phase(l.pc)
  {
    if l.pc.Returned? then Finish(l.st, l.pc.rc, asked, log)
    else if l.pc.AwaitsSelf() then Drive(Settle(l), replies, asked, log)
    else Drive(Resume(l, Reply(replies, asked)), replies, asked + 1, log + [Ask(l.pc)])
  }

  lemma DriveKernel(l: Local, replies: seq<Outcome>, asked: nat, log: seq<Request>)
    requires l.st.prev < IIDS && l.pc.AwaitsKernel()
    ensures Resume(l, Reply(replies, asked)).st.prev < IIDS && !Resume(l, Reply(replies, asked)).pc.Idle?
    ensures Drive(l, replies, asked, log) == Drive(Resume(l, Reply(replies, asked)), replies, asked + 1,
                                                   log + [Ask(l.pc)])
  {
  }

  lemma DriveSelf(l: Local, replies: seq<Outcome>, asked: nat, log: seq<Request>)
    requires l.st.prev < IIDS && l.pc.AwaitsSelf()
    ensures Settle(l).st.prev < IIDS && Settle(l).pc.Returned?
    ensures Drive(l, replies, asked, log) == Finish(Settle(l).st, Settle(l).pc.rc, asked, log)
  {
  }

  /**
   A whole free, reply by reply: an ID that is not allocated is refused without asking; for any other one the byte is
   unlocked, and the ID is given up exactly when that succeeds.
   */
  lemma FreeByReply(st: TidState, t: Tid, iid: nat, replies: seq<Outcome>, asked: nat, log: seq<Request>)
    requires st.prev < IIDS
    ensures Drive(BeginFree(st, t, iid), replies, asked, log) ==
      if iid >= 32 || iid !in st.allocations then Finish(st, Inval, asked, log)
      else
        var after := log + [SetNone(32 * t + iid)];
        match Reply(replies, asked)
        case Ok => Finish(TidState(st.prev, st.allocations - {iid}), Freed, asked + 1, after)
        case Retry => Finish(st, Again, asked + 1, after)
        case _ => Finish(st, Proto, asked + 1, after)
  {
    if iid < 32 && iid in st.allocations {
      var l := Local(st, Unlocking(t, iid));
      DriveKernel(l, replies, asked, log);
      if Reply(replies, asked).Ok? {
        DriveSelf(Resume(l, Ok), replies, asked + 1, log + [Ask(l.pc)]);
      }
    }
  }

  /** What the reply to the last request of a call makes of a failure, and a failed query's before its release. */
  function ErrorOf(o: Outcome): Rc { if o.Retry? || o == Conflict(Shared) then Again else Proto }

  /**
   The result of an allocation, read off its last two requests and their replies: a granted query allocates its ID, a
   failed request ends the call with its error, a released probe with that of its query; and an allocation that asked
   for nothing found every ID taken.
   */
  ghost predicate ResultByReplies(t: Tid, replies: seq<Outcome>, asked: nat, log: seq<Request>, f: Finish) {
    && asked <= f.asked && |f.log| - |log| == f.asked - asked && log <= f.log
    && if f.asked == asked then f.rc == Again
       else
         var r, o := f.log[|f.log| - 1], Reply(replies, f.asked - 1);
         if !o.Ok? then !r.TestExclusive? && f.rc == (if o.Retry? then Again else Proto)
         else if r.TestExclusive? then f.rc.Allocated? && r.off == 32 * t + f.rc.iid
         else r.SetNone? && f.asked >= asked + 2 && f.rc == ErrorOf(Reply(replies, f.asked - 2))
  }

  /** The same while an allocation is under way. */
  ghost predicate Midway(l: Local, t: Tid, replies: seq<Outcome>, asked0: nat, log0: seq<Request>, asked: nat,
                         log: seq<Request>)
  {
    && l.st.prev < IIDS && asked0 <= asked && |log| - |log0| == asked - asked0 && log0 <= log
    && match l.pc
       case Idle => false
       case Unlocking(_, _) => false
       case Clearing(_, _) => false
       case Locking(u, _) => u == t
       case Querying(u, _) => u == t && asked > asked0
       case Granting(u, i) =>
         asked > asked0 && log[|log| - 1] == TestExclusive(32 * t + i) && Reply(replies, asked - 1).Ok?
       case Releasing(u, _, e) =>
         && u == t && asked >= asked0 + 2
         && if e == None then Reply(replies, asked - 1) == Conflict(Shared)
            else !Reply(replies, asked - 1).Ok? && e.value == ErrorOf(Reply(replies, asked - 1))
       case Returned(rc) => ResultByReplies(t, replies, asked0, log0, Finish(l.st, rc, asked, log))
  }

  lemma MidwayStep(l: Local, t: Tid, replies: seq<Outcome>, asked0: nat, log0: seq<Request>, asked: nat,
                   log: seq<Request>)
    requires l.pc.AwaitsKernel() && Midway(l, t, replies, asked0, log0, asked, log)
    ensures Midway(Resume(l, Reply(replies, asked)), t, replies, asked0, log0, asked + 1, log + [Ask(l.pc)])
  {
    assert log0 <= log + [Ask(l.pc)];
  }

  lemma {:induction false} DriveByReply(l: Local, t: Tid, replies: seq<Outcome>, asked0: nat, log0: seq<Request>,
                                        asked: nat,
                                        log: seq<Request>)
    requires Midway(l, t, replies, asked0, log0, asked, log)
    ensures ResultByReplies(t, replies, asked0, log0, Drive(l, replies, asked, log))
    decreases LeftToScan(l), Phase(l.pc)
  {
    if l.pc.AwaitsSelf() {
      DriveSelf(l, replies, asked, log);
    } else if l.pc.AwaitsKernel() {
      MidwayStep(l, t, replies, asked0, log0, asked, log);
      DriveKernel(l, replies, asked, log);
      DriveByReply(Resume(l, Reply(replies, asked)), t, replies, asked0, log0, asked + 1, log + [Ask(l.pc)]);
    }
  }

  /** Every allocation, whatever the kernel answers. */
  lemma AllocByReply(st: TidState, t: Tid, replies: seq<Outcome>, asked: nat, log: seq<Request>)
    requires st.prev < IIDS
    ensures ResultByReplies(t, replies, asked, log, Drive(BeginAlloc(st, t), replies, asked, log))
  {
    DriveByReply(BeginAlloc(st, t), t, replies, asked, log, asked, log);
  }

  // ---------------------------------------------------------------- calls one after another

  /** The j-th ID looked at after `cur`. */
  function Nth(cur: nat, j: nat): Iid
    requires cur < IIDS
    decreases j
  {
    if j == 0 then Next(cur) else Nth(Next(cur), j - 1)
  }

  lemma {:induction false} NthIsModular(cur: nat, j: nat)
    requires cur < IIDS
    ensures Nth(cur, j) == (cur + 1 + j) % 32
    decreases j
  {
    if j > 0 {
      NthIsModular(Next(cur), j - 1);
      assert cur == 31 ==> (32 + j) % 32 == j % 32;
    }
  }

  /** The scan finds the first unallocated ID in cyclic order, and gives up exactly when there is none before `prev`. */
  lemma {:induction false} CandidateIsFirstFree(st: TidState, cur: nat) returns (k: nat)
    requires st.prev < IIDS && cur < IIDS
    ensures k <= Ahead(st.prev, cur)
    ensures forall j: nat :: j < k ==> Nth(cur, j) in st.allocations
    ensures k == Ahead(st.prev, cur) ==> Candidate(st, cur) == None
    ensures k < Ahead(st.prev, cur) ==> Candidate(st, cur) == Some(Nth(cur, k)) && Nth(cur, k) !in st.allocations
    decreases Ahead(st.prev, cur)
  {
    var n := Next(cur);
    if n == st.prev || n !in st.allocations {
      k := 0;
    } else {
      var r := CandidateIsFirstFree(st, n);
      k := r + 1;
      forall j: nat | j < k ensures Nth(cur, j) in st.allocations {
        if j > 0 {
          assert Nth(cur, j) == Nth(n, j - 1);
        }
      }
    }
  }

  /** Every ID but `prev` is met on the way round, `prev` never. */
  lemma ScanCoversAllButPrev(prev: nat, i: Iid) returns (j: nat)
    requires prev < IIDS
    ensures j <= 31 && Nth(prev, j) == i && (j == 31 <==> i == prev)
    ensures Ahead(prev, prev) == 31
  {
    j := if i <= prev then i + 31 - prev else i - 1 - prev;
    NthIsModular(prev, j);
  }

  /** An uncontended kernel that reports no error. */
  const WILLING: seq<Outcome> := []

  /**
   Alone and without errors, alloc hands out the first unallocated ID in cyclic order after `prev`, and reports -EAGAIN
   exactly when every ID other than `prev` is allocated.
   */
  lemma AllocAlone(st: TidState, t: Tid, asked: nat, log: seq<Request>) returns (k: nat)
    requires st.prev < IIDS
    ensures var f := Drive(BeginAlloc(st, t), WILLING, asked, log);
      && (f.rc == Again <==> forall i: Iid :: i != st.prev ==> i in st.allocations)
      && (f.rc == Again ==> f.st == st)
      && (f.rc != Again ==> k < 31 && f.rc == Allocated(Nth(st.prev, k)) && f.st == Grant(st, Nth(st.prev, k)))
    ensures forall j: nat :: j < k ==> Nth(st.prev, j) in st.allocations
    ensures k < 31 ==> Nth(st.prev, k) !in st.allocations && Nth(st.prev, k) != st.prev
  {
    k := CandidateIsFirstFree(st, st.prev);
    var any := ScanCoversAllButPrev(st.prev, st.prev);
    if k == 31 {
      forall i: Iid | i != st.prev ensures i in st.allocations {
        var j := ScanCoversAllButPrev(st.prev, i);
      }
    } else {
      var cur := Nth(st.prev, k);
      var l := Local(st, Locking(t, cur));
      DriveKernel(l, WILLING, asked, log);
      DriveKernel(Local(st, Querying(t, cur)), WILLING, asked + 1, log + [Ask(l.pc)]);
    }
  }

  datatype Call = AllocCall | FreeCall(iid: nat)

  datatype Session = Session(st: TidState, results: seq<Rc>)

  function Begin(st: TidState, t: Tid, c: Call): Local {
    match c
    case AllocCall => BeginAlloc(st, t)
    case FreeCall(i) => BeginFree(st, t, i)
  }

  /** What a call does to the fields, given what it returned. */
  function Effect(st: TidState, c: Call, rc: Rc): TidState {
    if rc.Allocated? then Grant(st, rc.iid)
    else if rc.Freed? && c.FreeCall? && c.iid < IIDS then TidState(st.prev, st.allocations - {c.iid})
    else st
  }

  lemma {:induction false} DriveOutcome(l: Local, c: Call, replies: seq<Outcome>, asked: nat, log: seq<Request>)
    requires l.st.prev < IIDS
    requires match l.pc
      case Idle => false
      case Returned(rc) => rc == Again || rc == Proto || rc == Inval
      case Unlocking(_, i) => c == FreeCall(i) && i in l.st.allocations
      case Clearing(_, i) => c == FreeCall(i) && i in l.st.allocations
      case Releasing(_, cur, e) => c == AllocCall && cur != l.st.prev &&
        (e == None || e == Some(Again) || e == Some(Proto))
      case Locking(_, cur) => c == AllocCall && cur !in l.st.allocations && cur != l.st.prev
      case Querying(_, cur) => c == AllocCall && cur !in l.st.allocations && cur != l.st.prev
      case Granting(_, cur) => c == AllocCall && cur !in l.st.allocations && cur != l.st.prev
    ensures var f := Drive(l, replies, asked, log);
      && f.st == Effect(l.st, c, f.rc) && f.st.prev < IIDS
      && (f.rc.Allocated? ==> c == AllocCall && f.rc.iid !in l.st.allocations && f.rc.iid != l.st.prev)
      && (f.rc.Freed? ==> c.FreeCall? && c.iid < IIDS && c.iid in l.st.allocations)
    decreases LeftToScan(l), Phase(l.pc)
  {
    if l.pc.AwaitsSelf() {
      DriveSelf(l, replies, asked, log);
    } else if l.pc.AwaitsKernel() {
      DriveKernel(l, replies, asked, log);
      DriveOutcome(Resume(l, Reply(replies, asked)), c, replies, asked + 1, log + [Ask(l.pc)]);
    }
  }

  /** Calls for one terminus, one after another, under any replies of the kernel. */
  function Serve(st: TidState, t: Tid, calls: seq<Call>, replies: seq<Outcome>, asked: nat,
                 log: seq<Request>): (s: Session)
    requires st.prev < IIDS
    ensures |s.results| == |calls|
    decreases |calls|
  {
    if calls == [] then Session(st, [])
    else
      var f := Drive(Begin(st, t, calls[0]), replies, asked, log);
      DriveOutcome(Begin(st, t, calls[0]), calls[0], replies, asked, log);
      var rest := Serve(f.st, t, calls[1..], replies, f.asked, f.log);
      Session(rest.st, [f.rc] + rest.results)
  }

  /** The free of an ID that is not allocated. */
  predicate Refused(st: TidState, c: Call) { c.FreeCall? && (c.iid >= 32 || c.iid !in st.allocations) }

  lemma ServeStep(st: TidState, t: Tid, calls: seq<Call>, replies: seq<Outcome>, asked: nat, log: seq<Request>)
      returns (f: Finish)
    requires st.prev < IIDS && calls != []
    ensures f == Drive(Begin(st, t, calls[0]), replies, asked, log)
    ensures f.st == Effect(st, calls[0], f.rc) && f.st.prev < IIDS
    ensures f.rc.Allocated? ==> f.rc.iid !in st.allocations && f.rc.iid != st.prev
    ensures f.rc.Freed? ==> calls[0].FreeCall? && calls[0].iid < IIDS && calls[0].iid in st.allocations
    ensures f.rc == Inval <==> Refused(st, calls[0])
    ensures var rest := Serve(f.st, t, calls[1..], replies, f.asked, f.log);
      Serve(st, t, calls, replies, asked, log) == Session(rest.st, [f.rc] + rest.results)
  {
    f := Drive(Begin(st, t, calls[0]), replies, asked, log);
    DriveOutcome(Begin(st, t, calls[0]), calls[0], replies, asked, log);
    match calls[0]
    case AllocCall => AllocByReply(st, t, replies, asked, log);
    case FreeCall(i) => FreeByReply(st, t, i, replies, asked, log);
  }

  /** What the caller knows from the results alone: last ID received, IDs received and not given back. */
  function Known(st: TidState, calls: seq<Call>, results: seq<Rc>): TidState
    requires |calls| == |results|
    decreases |calls|
  {
    if calls == [] then st else Known(Effect(st, calls[0], results[0]), calls[1..], results[1..])
  }

  lemma {:induction false} ServeIsKnown(st: TidState, t: Tid, calls: seq<Call>, replies: seq<Outcome>, asked: nat,
                                        log: seq<Request>)
    requires st.prev < IIDS
    ensures var s := Serve(st, t, calls, replies, asked, log); s.st == Known(st, calls, s.results)
    decreases |calls|
  {
    if calls != [] {
      var f := ServeStep(st, t, calls, replies, asked, log);
      ServeIsKnown(f.st, t, calls[1..], replies, f.asked, f.log);
      var s := Serve(st, t, calls, replies, asked, log);
      assert s.results[1..] == Serve(f.st, t, calls[1..], replies, f.asked, f.log).results;
    }
  }

  /**
   Over every run of calls, whatever the kernel answers: an ID handed out is neither one the caller still holds nor the
   one it received last, a free succeeds only for an ID the caller holds, and -EINVAL is the answer to the free of any
   other ID and to nothing else.
   */
  lemma {:induction false} NeverHandedOutTwice(st: TidState, t: Tid, calls: seq<Call>, replies: seq<Outcome>,
                                               asked: nat,
                                               log: seq<Request>, k: nat)
    requires st.prev < IIDS && k < |calls|
    ensures var s := Serve(st, t, calls, replies, asked, log);
      var before := Known(st, calls[..k], s.results[..k]);
      && (s.results[k].Allocated? ==> s.results[k].iid !in before.allocations && s.results[k].iid != before.prev)
      && (s.results[k].Freed? ==> calls[k].FreeCall? && calls[k].iid < IIDS && calls[k].iid in before.allocations)
      && (s.results[k] == Inval <==> calls[k].FreeCall? && (calls[k].iid >= 32 || calls[k].iid !in before.allocations))
    decreases |calls|
  {
    var f := ServeStep(st, t, calls, replies, asked, log);
    if k > 0 {
      NeverHandedOutTwice(f.st, t, calls[1..], replies, f.asked, f.log, k - 1);
      var s := Serve(st, t, calls, replies, asked, log);
      var rest := Serve(f.st, t, calls[1..], replies, f.asked, f.log);
      assert s.results[..k][1..] == rest.results[..k - 1] && calls[..k][1..] == calls[1..][..k - 1];
    }
  }

  /** n allocs, each followed by the free of what it returns, from an empty bitmap. */
  function Pairs(prev: Iid, n: nat): (calls: seq<Call>)
    ensures |calls| == 2 * n
    decreases n
  {
    if n == 0 then [] else [AllocCall, FreeCall(Next(prev))] + Pairs(Next(prev), n - 1)
  }

  lemma AllocFreePair(prev: Iid, t: Tid, asked: nat, log: seq<Request>)
    ensures var f := Drive(BeginAlloc(TidState(prev, {}), t), WILLING, asked, log);
      && f.rc == Allocated(Next(prev)) && f.st == TidState(Next(prev), {Next(prev)})
      && var g := Drive(BeginFree(f.st, t, Next(prev)), WILLING, f.asked, f.log);
      g.rc == Freed && g.st == TidState(Next(prev), {})
  {
    var k := AllocAlone(TidState(prev, {}), t, asked, log);
    assert Nth(prev, 0) == Next(prev) && k == 0;
    var f := Drive(BeginAlloc(TidState(prev, {}), t), WILLING, asked, log);
    DriveKernel(BeginFree(f.st, t, Next(prev)), WILLING, f.asked, f.log);
  }

  lemma FirstPair(prev: Iid, t: Tid, n: nat, asked: nat, log: seq<Request>) returns (g: Finish)
    requires n > 0
    ensures Serve(TidState(prev, {}), t, Pairs(prev, n), WILLING, asked, log).results ==
            [Allocated(Next(prev)), Freed] +
            Serve(TidState(Next(prev), {}), t, Pairs(Next(prev), n - 1), WILLING, g.asked, g.log).results
  {
    AllocFreePair(prev, t, asked, log);
    var calls := Pairs(prev, n);
    var f := ServeStep(TidState(prev, {}), t, calls, WILLING, asked, log);
    g := ServeStep(f.st, t, calls[1..], WILLING, f.asked, f.log);
    assert calls[1..][1..] == Pairs(Next(prev), n - 1);
  }

  /** The k-th pair uses the k-th ID after the starting point. */
  lemma {:induction false} PairsRotate(prev: Iid, t: Tid, n: nat, asked: nat, log: seq<Request>, k: nat)
    requires k < n
    ensures var rs := Serve(TidState(prev, {}), t, Pairs(prev, n), WILLING, asked, log).results;
      rs[2 * k] == Allocated(Nth(prev, k)) && rs[2 * k + 1] == Freed
    decreases n
  {
    var g := FirstPair(prev, t, n, asked, log);
    if k > 0 {
      PairsRotate(Next(prev), t, n - 1, g.asked, g.log, k - 1);
    }
  }

  /** 32 alloc/free pairs return every one of the 32 IDs. */
  lemma AllIdsInThirtyTwoPairs(prev: Iid, t: Tid, asked: nat, log: seq<Request>, i: Iid)
    ensures Allocated(i) in Serve(TidState(prev, {}), t, Pairs(prev, IIDS), WILLING, asked, log).results
  {
    var j := ScanCoversAllButPrev(prev, i);
    PairsRotate(prev, t, IIDS, asked, log, j);
    assert Serve(TidState(prev, {}), t, Pairs(prev, IIDS), WILLING, asked, log).results[2 * j] == Allocated(i);
  }

  function Below(n: nat): (r: set<Iid>)
    requires n <= IIDS
    ensures forall i: Iid :: i in r <==> i < n
  {
    if n == 0 then {} else Below(n - 1) + {n - 1}
  }

  function Allocs(n: nat): (calls: seq<Call>)
    ensures |calls| == n
  {
    if n == 0 then [] else [AllocCall] + Allocs(n - 1)
  }

  /** One more alloc after the IDs below m, the last of which was m - 1. */
  lemma FillOne(st: TidState, m: nat, t: Tid, calls: seq<Call>, asked: nat, log: seq<Request>) returns (f: Finish)
    requires st.prev < IIDS && m < IIDS && Next(st.prev) == m && st.allocations == Below(m) && calls != [] &&
        calls[0] == AllocCall
    ensures f.st == TidState(m, Below(m + 1))
    ensures Serve(st, t, calls, WILLING, asked, log).st == Serve(f.st, t, calls[1..], WILLING, f.asked, f.log).st
  {
    var k := AllocAlone(st, t, asked, log);
    assert Nth(st.prev, 0) == m;
    f := ServeStep(st, t, calls, WILLING, asked, log);
  }

  lemma {:induction false} FillFrom(st: TidState, m: nat, n: nat, t: Tid, asked: nat, log: seq<Request>)
    requires st.prev < IIDS && m + n == IIDS && st.allocations == Below(m)
    requires if n == 0 then st.prev == 31 else Next(st.prev) == m
    ensures Serve(st, t, Allocs(n), WILLING, asked, log).st == TidState(31, Below(IIDS))
    decreases n
  {
    if n > 0 {
      var f := FillOne(st, m, t, Allocs(n), asked, log);
      FillFrom(f.st, m + 1, n - 1, t, f.asked, f.log);
      assert Allocs(n)[1..] == Allocs(n - 1);
    }
  }

  lemma FillUp(t: Tid, asked: nat, log: seq<Request>)
    ensures Serve(FRESH, t, Allocs(IIDS), WILLING, asked, log).st == TidState(31, Below(IIDS))
  {
    FillFrom(FRESH, 0, IIDS, t, asked, log);
  }

  /**
   So an available ID may be out of reach: once 32 allocs have taken every ID, freeing the last of them and asking
   again still gives -EAGAIN, because the scan stops short of `prev`.
   */
  lemma FreedLastIdIsOutOfReach(t: Tid, asked: nat, log: seq<Request>)
    ensures var s := Serve(TidState(31, Below(IIDS)), t, [FreeCall(31), AllocCall], WILLING, asked, log);
      s.results == [Freed, Again] && 31 !in s.st.allocations
  {
    var full := TidState(31, Below(IIDS));
    var calls := [FreeCall(31), AllocCall];
    var st := TidState(31, Below(IIDS) - {31});
    var f := ServeStep(full, t, calls, WILLING, asked, log);
    DriveKernel(Local(full, Unlocking(t, 31)), WILLING, asked, log);
    DriveSelf(Local(full, Clearing(t, 31)), WILLING, asked + 1, log + [SetNone(Offset(t, 31))]);
    assert f.st == st && calls[1..] == [AllocCall];
    var g := ServeStep(st, t, [AllocCall], WILLING, f.asked, f.log);
    var k := AllocAlone(st, t, f.asked, f.log);
    assert [AllocCall][1..] == [];
  }

  /** The process's view of the kernel: replies in order, and a record of what was asked. */
  class Fcntl {
    const replies: seq<Outcome>
    var asked: nat
    var log: seq<Request>

    constructor (replies: seq<Outcome>)
      ensures this.replies == replies && asked == 0 && log == []
    {
      this.replies := replies;
      asked, log := 0, [];
    }

    method Call(r: Request) returns (o: Outcome)
      modifies this
      ensures o == Reply(replies, old(asked)) && asked == old(asked) + 1 && log == old(log) + [r]
    {
      o := Reply(replies, asked);
      asked, log := asked + 1, log + [r];
    }
  }

  /** struct pldm_instance_db. */
  class Database {
    const states: array<TidState>
    const file: Fcntl

    ghost predicate Valid()
      reads states
    {
      states.Length == TIDS && forall t: Tid :: states[t].prev < IIDS
    }

    /** pldm_instance_db_init, once the file is open. */
    constructor (file: Fcntl)
      ensures Valid() && fresh(states) && this.file == file
      ensures forall t: Tid :: states[t] == TidState(31, {})
    {
      this.file := file;
      states := new TidState[TIDS](_ => FRESH);
    }

    /** The body of the alloc loop for an ID that is not ours yet: reserve, query, and release on refusal. */
    method Probe(st: TidState, t: Tid, cur: Iid) returns (verdict: Option<Rc>)
      requires st.prev < IIDS
      modifies file
      ensures verdict.Some? && verdict.value.Allocated? ==> verdict.value.iid == cur
      ensures Drive(Local(st, Locking(t, cur)), file.replies, old(file.asked), old(file.log)) ==
              match verdict
              case None => Drive(Seek(st, t, cur), file.replies, file.asked, file.log)
              case Some(rc) => Finish(if rc.Allocated? then Grant(st, cur) else st, rc, file.asked, file.log)
    {
      ghost var l := Local(st, Locking(t, cur));
      DriveKernel(l, file.replies, file.asked, file.log);
      var o := file.Call(SetShared(Offset(t, cur)));
      if !o.Ok? {
        return Some(Failure(o));
      }
      l := Resume(l, o);
      DriveKernel(l, file.replies, file.asked, file.log);
      o := file.Call(TestExclusive(Offset(t, cur)));
      l := Resume(l, o);
      if o.Ok? {
        DriveSelf(l, file.replies, file.asked, file.log);
        return Some(Allocated(cur));
      }
      verdict := if o == Conflict(Shared) then None else Some(Failure(o));
      DriveKernel(l, file.replies, file.asked, file.log);
      o := file.Call(SetNone(Offset(t, cur)));
      if !o.Ok? {
        return Some(Failure(o));
      }
    }

    /** pldm_instance_id_alloc. `prev` stays below 32, so its range check never fails here. */
    method AllocId(t: Tid) returns (rc: Rc)
      requires Valid()
      modifies states, file
      ensures Valid()
      ensures Finish(states[t], rc, file.asked, file.log) ==
              Drive(BeginAlloc(old(states[t]), t), file.replies, old(file.asked), old(file.log))
      ensures ResultByReplies(t, file.replies, old(file.asked), old(file.log),
                              Finish(states[t], rc, file.asked, file.log))
      ensures states[t] == if rc.Allocated? then TidState(rc.iid, old(states[t].allocations) + {rc.iid})
          else old(states[t])
      ensures forall u: Tid :: u != t ==> states[u] == old(states[u])
    {
      var st := states[t];
      var cur: nat := st.prev;
      ghost var goal := Drive(BeginAlloc(st, t), file.replies, file.asked, file.log);
      AllocByReply(st, t, file.replies, file.asked, file.log);
      DriveOutcome(BeginAlloc(st, t), AllocCall, file.replies, file.asked, file.log);
      while Next(cur) != st.prev
        invariant cur < IIDS && states[..] == old(states[..])
        invariant goal == Drive(Seek(st, t, cur), file.replies, file.asked, file.log)
        decreases Ahead(st.prev, cur)
      {
        cur := Next(cur);
        if cur in st.allocations {
          continue;
        }
        var verdict := Probe(st, t, cur);
        if verdict.Some? {
          if verdict.value.Allocated? {
            states[t] := Grant(st, cur);
          }
          return verdict.value;
        }
      }
      return Again;
    }

    /** pldm_instance_id_free. */
    method FreeId(t: Tid, iid: nat) returns (rc: Rc)
      requires Valid()
      modifies states, file
      ensures Valid()
      ensures Finish(states[t], rc, file.asked, file.log) ==
              Drive(BeginFree(old(states[t]), t, iid), file.replies, old(file.asked), old(file.log))
      ensures rc == Inval <==> iid >= 32 || iid !in old(states[t].allocations)
      ensures rc == Inval ==> file.log == old(file.log) && file.asked == old(file.asked)
      ensures rc != Inval ==> file.log == old(file.log) + [SetNone(32 * t + iid)] && file.asked == old(file.asked) + 1
      ensures rc != Inval ==>
        var o := Reply(file.replies, old(file.asked));
        rc == if o.Ok? then Freed else if o.Retry? then Again else Proto
      ensures states[t] == if rc.Freed? then TidState(old(states[t].prev), old(states[t].allocations) - {iid})
          else old(states[t])
      ensures forall u: Tid :: u != t ==> states[u] == old(states[u])
    {
      var st := states[t];
      if iid >= IIDS || iid !in st.allocations {
        return Inval;
      }
      ghost var l := Local(st, Unlocking(t, iid));
      DriveKernel(l, file.replies, file.asked, file.log);
      var o := file.Call(SetNone(Offset(t, iid)));
      if !o.Ok? {
        return Failure(o);
      }
      DriveSelf(Resume(l, o), file.replies, file.asked, file.log);
      states[t] := st.(allocations := st.allocations - {iid});
      return Freed;
    }
  }
}
