/** Registering and deregistering AVSs concurrently: ponos/pkg/aggregator/aggregator.go.
    A context is a number; "cancelled" means that its own cancel function has been called. */
module AvsRegistry {

  type Addr = string
  type Ctx = int

  /** What the goroutines share: avsManagers (each entry holds its cancel function), the contexts whose
      cancel function ran, and the next context to be created. */
  datatype Shared = Shared(managers: map<Addr, Ctx>, cancelled: set<Ctx>, next: Ctx)

  datatype Pc =
    | Idle
    | Checked(addr: Addr)               // no entry seen, no context yet
    | HasContext(addr: Addr, ctx: Ctx)  // avsCtx exists, pollers starting
    | PollersUp(addr: Addr, ctx: Ctx)   // building the execution manager
    | Built(addr: Addr, ctx: Ctx)       // about to store
    | Stored(addr: Addr, ctx: Ctx)      // in the map, aem.Start running
    | StartFailed(addr: Addr, ctx: Ctx) // about to remove by address
    | Failing(ctx: Ctx)                 // deferred cancel pending
    | Registered(addr: Addr, ctx: Ctx)  // returned nil
    | RegisterError(ctx: Ctx)           // returned an error after cancelling
    | Refused                           // returned an error before any context existed
    | Removing(ctx: Ctx)                // deregister: entry deleted, cancel pending
    | Deregistered(ctx: Ctx)

  /** `orphans` records the contexts whose entry was removed by a failed start of another registration. */
  datatype State = State(sh: Shared, pcs: seq<Pc>, orphans: set<Ctx>)

  datatype Action =
    | Check(t: nat, addr: Addr)
    | BadChains(t: nat)
    | CreateContext(t: nat)
    | StartPollers(t: nat, ok: bool)
    | Build(t: nat, ok: bool)
    | Store(t: nat)
    | Start(t: nat, ok: bool)
    | Remove(t: nat)
    | Cancel(t: nat)
    | Deregister(t: nat, addr: Addr)

  function InitShared(): Shared { Shared(map[], {}, 0) }

  function Init(threads: nat): State {
    State(InitShared(), seq(threads, _ => Idle), {})
  }

  function Goto(s: State, t: nat, pc: Pc): State
    requires t < |s.pcs|
  {
    s.(pcs := s.pcs[t := pc])
  }

  /** One atomic step of goroutine t; an action that is not possible now changes nothing. */
  function Step(s: State, a: Action): State {
    if a.t >= |s.pcs| then s else
    var pc := s.pcs[a.t];
    match a
    case Check(t, addr) =>
      if !pc.Idle? then s else Goto(s, t, if addr in s.sh.managers then Refused else Checked(addr))
    case BadChains(t) => if !pc.Checked? then s else Goto(s, t, Refused)
    case CreateContext(t) =>
      if !pc.Checked? then s
      else Goto(s.(sh := s.sh.(next := s.sh.next + 1)), t, HasContext(pc.addr, s.sh.next))
    case StartPollers(t, ok) =>
      if !pc.HasContext? then s else Goto(s, t, if ok then PollersUp(pc.addr, pc.ctx) else Failing(pc.ctx))
    case Build(t, ok) =>
      if !pc.PollersUp? then s else Goto(s, t, if ok then Built(pc.addr, pc.ctx) else Failing(pc.ctx))
    case Store(t) =>
      if !pc.Built? then s
      else if pc.addr in s.sh.managers then Goto(s, t, Failing(pc.ctx))
      else Goto(s.(sh := s.sh.(managers := s.sh.managers[pc.addr := pc.ctx])), t, Stored(pc.addr, pc.ctx))
    case Start(t, ok) =>
      if !pc.Stored? then s
      else Goto(s, t, if ok then Registered(pc.addr, pc.ctx) else StartFailed(pc.addr, pc.ctx))
    case Remove(t) =>
      if !pc.StartFailed? then s
      else
        var foreign := if pc.addr in s.sh.managers && s.sh.managers[pc.addr] != pc.ctx
                       then {s.sh.managers[pc.addr]} else {};
        Goto(State(s.sh.(managers := s.sh.managers - {pc.addr}), s.pcs, s.orphans + foreign), t, Failing(pc.ctx))
    case Cancel(t) =>
      if pc.Failing? then Goto(s.(sh := s.sh.(cancelled := s.sh.cancelled + {pc.ctx})), t, RegisterError(pc.ctx))
      else if pc.Removing? then
        Goto(s.(sh := s.sh.(cancelled := s.sh.cancelled + {pc.ctx})), t, Deregistered(pc.ctx))
      else s
    case Deregister(t, addr) =>
      if !pc.Idle? then s
      else if addr !in s.sh.managers then Goto(s, t, Refused)
      else Goto(s.(sh := s.sh.(managers := s.sh.managers - {addr})), t, Removing(s.sh.managers[addr]))
  }

  function Exec(s: State, schedule: seq<Action>): State {
    if schedule == [] then s
    else Step(Exec(s, schedule[..|schedule| - 1]), schedule[|schedule| - 1])
  }

  // ----- the invariant

  /** A registration that created the context and has not stored it yet. */
  predicate Private(pc: Pc, c: Ctx) {
    (pc.HasContext? || pc.PollersUp? || pc.Built?) && pc.ctx == c
  }

  predicate PendingCancel(pc: Pc, c: Ctx) {
    (pc.Failing? || pc.Removing?) && pc.ctx == c
  }

  /** This registration put the context into the map under this address. */
  predicate PutUnder(pc: Pc, addr: Addr, c: Ctx) {
    (pc.Stored? || pc.StartFailed? || pc.Registered?) && pc.addr == addr && pc.ctx == c
  }

  predicate Mentions(pc: Pc, c: Ctx) {
    !pc.Idle? && !pc.Checked? && !pc.Refused? && pc.ctx == c
  }

  /** The registration that created the context, at any later time. */
  predicate Owns(pc: Pc, c: Ctx) {
    Mentions(pc, c) && !pc.Removing? && !pc.Deregistered?
  }

  ghost predicate Known(s: State) {
    && s.sh.next >= 0
    && (forall t, c {:trigger Mentions(s.pcs[t], c)} :: 0 <= t < |s.pcs| && Mentions(s.pcs[t], c) ==> 0 <= c < s.sh.next)
    && (forall a :: a in s.sh.managers ==> 0 <= s.sh.managers[a] < s.sh.next)
    && (forall c :: c in s.sh.cancelled || c in s.orphans ==> 0 <= c < s.sh.next)
  }

  ghost predicate OneOwner(s: State) {
    forall t, u, c {:trigger Owns(s.pcs[t], c), Owns(s.pcs[u], c)} ::
      0 <= t < |s.pcs| && 0 <= u < |s.pcs| && Owns(s.pcs[t], c) && Owns(s.pcs[u], c) ==> t == u
  }

  predicate IsStored(sh: Shared, c: Ctx) {
    exists a :: a in sh.managers && sh.managers[a] == c
  }

  /** Nobody but its creator knows a context that has not been stored. */
  ghost predicate PrivateIsPrivate(s: State) {
    forall t, c {:trigger Private(s.pcs[t], c)} :: 0 <= t < |s.pcs| && Private(s.pcs[t], c) ==>
      && !IsStored(s.sh, c) && c !in s.sh.cancelled && c !in s.orphans
      && (forall u :: 0 <= u < |s.pcs| && Mentions(s.pcs[u], c) ==> u == t)
  }

  /** A stored context is not cancelled and nobody is about to cancel it; it is stored once. */
  ghost predicate StoredIsSafe(s: State) {
    && (forall a, b :: a in s.sh.managers && b in s.sh.managers && s.sh.managers[a] == s.sh.managers[b] ==> a == b)
    && (forall a :: a in s.sh.managers ==> s.sh.managers[a] !in s.sh.cancelled && s.sh.managers[a] !in s.orphans)
    && (forall a, t {:trigger s.sh.managers[a], s.pcs[t]} :: a in s.sh.managers && 0 <= t < |s.pcs| ==>
          && !PendingCancel(s.pcs[t], s.sh.managers[a])
          && (Owns(s.pcs[t], s.sh.managers[a]) ==> PutUnder(s.pcs[t], a, s.sh.managers[a])))
  }

  ghost predicate FailedAreCancelled(s: State) {
    forall t :: 0 <= t < |s.pcs| && (s.pcs[t].RegisterError? || s.pcs[t].Deregistered?) ==>
      s.pcs[t].ctx in s.sh.cancelled
  }

  ghost predicate Held(s: State, c: Ctx) {
    exists t :: 0 <= t < |s.pcs| && (Private(s.pcs[t], c) || PendingCancel(s.pcs[t], c))
  }

  /** No context is lost: it is stored, cancelled, orphaned, or some goroutine still has to deal with it. */
  ghost predicate Accounted(s: State, c: Ctx) {
    IsStored(s.sh, c) || c in s.sh.cancelled || c in s.orphans || Held(s, c)
  }

  ghost predicate Inv(s: State) {
    && Known(s) && OneOwner(s) && PrivateIsPrivate(s) && StoredIsSafe(s) && FailedAreCancelled(s)
    && forall c :: 0 <= c < s.sh.next ==> Accounted(s, c)
  }

  lemma StepKeepsKnown(s: State, a: Action)
    requires Known(s) && OneOwner(s)
    ensures Known(Step(s, a)) && OneOwner(Step(s, a))
  {
    var s' := Step(s, a);
    if a.t < |s.pcs| && s' != s {
      var pc := s.pcs[a.t];
      var c := if pc.Idle? || pc.Checked? || pc.Refused? then -1 else pc.ctx;
      assert Mentions(pc, c) ==> 0 <= c < s.sh.next;
      assert s.sh.next <= s'.sh.next <= s.sh.next + 1;
      forall t, d | 0 <= t < |s'.pcs| && Mentions(s'.pcs[t], d)
        ensures 0 <= d < s'.sh.next
        ensures Owns(s'.pcs[t], d) ==> Owns(s.pcs[t], d) || (d == s.sh.next && t == a.t)
      {
        assert Mentions(s.pcs[t], d) || t == a.t;
      }
      forall t, u, d | 0 <= t < |s'.pcs| && 0 <= u < |s'.pcs| && Owns(s'.pcs[t], d) && Owns(s'.pcs[u], d)
        ensures t == u
      {
        assert Mentions(s.pcs[t], d) ==> d < s.sh.next;
        assert Mentions(s.pcs[u], d) ==> d < s.sh.next;
      }
    }
  }

  lemma StepKeepsPrivate(s: State, a: Action)
    requires Known(s) && OneOwner(s) && PrivateIsPrivate(s) && StoredIsSafe(s)
    ensures PrivateIsPrivate(Step(s, a))
  {
    var s' := Step(s, a);
    forall t, c | 0 <= t < |s'.pcs| && Private(s'.pcs[t], c)
      ensures !IsStored(s'.sh, c) && c !in s'.sh.cancelled && c !in s'.orphans
      ensures forall u :: 0 <= u < |s'.pcs| && Mentions(s'.pcs[u], c) ==> u == t
    {
      if a.CreateContext? && t == a.t && s' != s {
        assert c == s.sh.next;
      } else {
        assert Private(s.pcs[t], c);
        assert Owns(s.pcs[t], c);
        if a.t < |s.pcs| && s' != s {
          assert Mentions(s.pcs[a.t], c) ==> a.t == t;
          forall b | b in s'.sh.managers ensures s'.sh.managers[b] != c {
            assert a.Store? && b == s.pcs[a.t].addr ==> s'.sh.managers[b] == s.pcs[a.t].ctx || b in s.sh.managers;
          }
        }
      }
    }
  }

  lemma StepKeepsStored(s: State, a: Action)
    requires Known(s) && OneOwner(s) && PrivateIsPrivate(s) && StoredIsSafe(s)
    ensures StoredIsSafe(Step(s, a))
  {
    var s' := Step(s, a);
    if a.t < |s.pcs| && s' != s {
      var pc := s.pcs[a.t];
      forall b | b in s'.sh.managers
        ensures s'.sh.managers[b] !in s'.sh.cancelled && s'.sh.managers[b] !in s'.orphans
        ensures forall d :: d in s'.sh.managers && s'.sh.managers[d] == s'.sh.managers[b] ==> d == b
        ensures forall t :: 0 <= t < |s'.pcs| ==>
                  && !PendingCancel(s'.pcs[t], s'.sh.managers[b])
                  && (Owns(s'.pcs[t], s'.sh.managers[b]) ==> PutUnder(s'.pcs[t], b, s'.sh.managers[b]))
      {
        var c := s'.sh.managers[b];
        if a.Store? && s'.pcs[a.t].Stored? && b == pc.addr {
          assert Private(pc, c) && Owns(pc, c);
        } else {
          assert b in s.sh.managers && s.sh.managers[b] == c;
          assert IsStored(s.sh, c);
          assert !Private(pc, c) && !PendingCancel(pc, c);
        }
      }
    }
  }

  lemma StepKeepsAccounted(s: State, a: Action, c: Ctx)
    requires Inv(s) && 0 <= c < Step(s, a).sh.next
    ensures Accounted(Step(s, a), c)
  {
    var s' := Step(s, a);
    if s' != s {
      var pc := s'.pcs[a.t];
      assert c < s.sh.next ==> Accounted(s, c);
      if c == s.sh.next {
        assert Private(pc, c);
      } else if IsStored(s.sh, c) {
        var addr :| addr in s.sh.managers && s.sh.managers[addr] == c;
        if addr in s'.sh.managers {
          assert s'.sh.managers[addr] == c;
        } else {
          assert a.Deregister? || a.Remove?;
          assert PendingCancel(pc, c) || c in s'.orphans;
        }
      } else if Held(s, c) {
        var t :| 0 <= t < |s.pcs| && (Private(s.pcs[t], c) || PendingCancel(s.pcs[t], c));
        if t != a.t {
          assert s'.pcs[t] == s.pcs[t];
        } else if a.Store? && pc.Stored? {
          assert s'.sh.managers[pc.addr] == c;
        }
      }
    }
  }

  lemma StepKeepsInv(s: State, a: Action)
    requires Inv(s)
    ensures Inv(Step(s, a))
  {
    StepKeepsKnown(s, a);
    StepKeepsPrivate(s, a);
    StepKeepsStored(s, a);
    forall c | 0 <= c < Step(s, a).sh.next ensures Accounted(Step(s, a), c) {
      StepKeepsAccounted(s, a, c);
    }
  }

  lemma {:induction false} ReachableInv(threads: nat, schedule: seq<Action>)
    ensures Inv(Exec(Init(threads), schedule))
  {
    if schedule != [] {
      ReachableInv(threads, schedule[..|schedule| - 1]);
      StepKeepsInv(Exec(Init(threads), schedule[..|schedule| - 1]), schedule[|schedule| - 1]);
    }
  }

  // ----- main results

  predicate Quiet(pc: Pc) {
    pc.Idle? || pc.Refused? || pc.Registered? || pc.RegisterError? || pc.Deregistered?
  }

  predicate Quiescent(s: State) {
    forall t :: 0 <= t < |s.pcs| ==> Quiet(s.pcs[t])
  }

  /** Created, and its cancel function has not been called. */
  predicate Live(s: State, c: Ctx) {
    0 <= c < s.sh.next && c !in s.sh.cancelled
  }

  /** In every interleaving: a stored context is live and belongs to one address only, and the context of
      a registration that returned an error is cancelled. */
  lemma StoredIsLive(threads: nat, schedule: seq<Action>)
    ensures var s := Exec(Init(threads), schedule);
            && (forall a :: a in s.sh.managers ==> Live(s, s.sh.managers[a]))
            && (forall a, b :: a in s.sh.managers && b in s.sh.managers && s.sh.managers[a] == s.sh.managers[b]
                               ==> a == b)
            && (forall t :: 0 <= t < |s.pcs| && s.pcs[t].RegisterError? ==> s.pcs[t].ctx in s.sh.cancelled)
  {
    ReachableInv(threads, schedule);
  }

  /** Once every goroutine has returned, the live contexts are the stored ones and the uncancelled
      orphans, and no context is both. */
  lemma LiveAtQuiescence(threads: nat, schedule: seq<Action>)
    requires Quiescent(Exec(Init(threads), schedule))
    ensures var s := Exec(Init(threads), schedule);
            forall c :: Live(s, c) <==> (IsStored(s.sh, c) || (c in s.orphans && c !in s.sh.cancelled))
    ensures var s := Exec(Init(threads), schedule);
            forall c :: c in s.orphans ==> !IsStored(s.sh, c)
  {
    ReachableInv(threads, schedule);
    var s := Exec(Init(threads), schedule);
    forall c | Live(s, c) ensures IsStored(s.sh, c) || (c in s.orphans && c !in s.sh.cancelled) {
      assert Accounted(s, c);
    }
  }

  predicate SomeStartFails(schedule: seq<Action>) {
    exists i :: 0 <= i < |schedule| && schedule[i].Start? && !schedule[i].ok
  }

  predicate SomeDeregistration(schedule: seq<Action>) {
    exists i :: 0 <= i < |schedule| && schedule[i].Deregister?
  }

  /** A start that has not returned still finds its own entry. */
  ghost predicate OwnEntryInPlace(s: State) {
    forall t :: 0 <= t < |s.pcs| && (s.pcs[t].Stored? || s.pcs[t].StartFailed?) ==>
      s.pcs[t].addr in s.sh.managers && s.sh.managers[s.pcs[t].addr] == s.pcs[t].ctx
  }

  lemma {:induction false} NoFailureNoOrphan(threads: nat, schedule: seq<Action>)
    requires !SomeStartFails(schedule)
    ensures var s := Exec(Init(threads), schedule);
            s.orphans == {} && forall t :: 0 <= t < |s.pcs| ==> !s.pcs[t].StartFailed?
  {
    if schedule != [] {
      var front := schedule[..|schedule| - 1];
      assert forall i :: 0 <= i < |front| ==> front[i] == schedule[i];
      NoFailureNoOrphan(threads, front);
    }
  }

  lemma {:induction false} NoDeregistrationNoOrphan(threads: nat, schedule: seq<Action>)
    requires !SomeDeregistration(schedule)
    ensures var s := Exec(Init(threads), schedule); s.orphans == {} && OwnEntryInPlace(s)
  {
    if schedule != [] {
      var front, a := schedule[..|schedule| - 1], schedule[|schedule| - 1];
      assert forall i :: 0 <= i < |front| ==> front[i] == schedule[i];
      NoDeregistrationNoOrphan(threads, front);
      ReachableInv(threads, front);
      var s := Exec(Init(threads), front);
      if a.Remove? && a.t < |s.pcs| && s.pcs[a.t].StartFailed? {
        var c := s.pcs[a.t].ctx;
        assert Owns(s.pcs[a.t], c);
        forall t | 0 <= t < |s.pcs| && t != a.t && (s.pcs[t].Stored? || s.pcs[t].StartFailed?)
          ensures s.pcs[t].addr != s.pcs[a.t].addr
        {
          assert Owns(s.pcs[t], s.pcs[t].ctx);
        }
      }
    }
  }

  /** An entry is lost to another registration's failed start only if some start fails and some AVS is
      deregistered; otherwise the live contexts at quiescence are exactly the stored ones. */
  lemma OrphanNeedsBoth(threads: nat, schedule: seq<Action>)
    requires Exec(Init(threads), schedule).orphans != {}
    ensures SomeStartFails(schedule) && SomeDeregistration(schedule)
  {
    if !SomeStartFails(schedule) { NoFailureNoOrphan(threads, schedule); }
    if !SomeDeregistration(schedule) { NoDeregistrationNoOrphan(threads, schedule); }
  }

  lemma LiveIsStoredWithoutFailedStart(threads: nat, schedule: seq<Action>)
    requires Quiescent(Exec(Init(threads), schedule))
    requires !SomeStartFails(schedule) || !SomeDeregistration(schedule)
    ensures var s := Exec(Init(threads), schedule); forall c :: Live(s, c) <==> IsStored(s.sh, c)
  {
    LiveAtQuiescence(threads, schedule);
    var s := Exec(Init(threads), schedule);
    if s.orphans != {} { OrphanNeedsBoth(threads, schedule); }
  }

  // ----- how an orphan comes about

  /** The steps that touched the map, as they happened. */
  datatype Event = Storing(t: nat, addr: Addr, ctx: Ctx) | Deregistering(addr: Addr) | Removal(t: nat, addr: Addr)

  function EventsOf(s: State, a: Action): seq<Event> {
    if a.t >= |s.pcs| then [] else
    var pc := s.pcs[a.t];
    match a
    case Store(t) => if pc.Built? && pc.addr !in s.sh.managers then [Storing(t, pc.addr, pc.ctx)] else []
    case Deregister(t, addr) => if pc.Idle? && addr in s.sh.managers then [Deregistering(addr)] else []
    case Remove(t) => if pc.StartFailed? then [Removal(t, pc.addr)] else []
    case _ => []
  }

  /** Each event is a change of the map, and without an event the map stays. */
  lemma EventsAreChanges(s: State, a: Action)
    ensures var es, before, after := EventsOf(s, a), s.sh.managers, Step(s, a).sh.managers;
            && |es| <= 1
            && (es == [] ==> after == before)
            && (es != [] ==> match es[0]
                             case Storing(t, addr, c) => a == Store(t) && addr !in before && after == before[addr := c]
                             case Deregistering(addr) => a.Deregister? && addr in before && after == before - {addr}
                             case Removal(t, addr) => a == Remove(t) && after == before - {addr})
  {
  }

  function Log(init: State, schedule: seq<Action>): seq<Event> {
    if schedule == [] then []
    else
      var front := schedule[..|schedule| - 1];
      Log(init, front) + EventsOf(Exec(init, front), schedule[|schedule| - 1])
  }

  predicate StoresAt(log: seq<Event>, i: int, addr: Addr) {
    0 <= i < |log| && log[i].Storing? && log[i].addr == addr
  }

  predicate DeregistersAt(log: seq<Event>, j: int, addr: Addr) {
    0 <= j < |log| && log[j] == Deregistering(addr)
  }

  /** A registration of the address was stored, the address deregistered, another registration of it
      stored, and then the first one's failed start removed the entry. */
  ghost predicate LostAndReplaced(log: seq<Event>, addr: Addr) {
    exists i, j, k, l :: i < j < k < l < |log| && StoresAt(log, i, addr) && DeregistersAt(log, j, addr)
                         && StoresAt(log, k, addr) && log[l] == Removal(log[i].t, addr)
  }

  ghost predicate StoredContext(log: seq<Event>, addr: Addr, c: Ctx) {
    exists k :: StoresAt(log, k, addr) && log[k].ctx == c
  }

  ghost predicate StoredBy(log: seq<Event>, t: nat, addr: Addr) {
    exists i :: StoresAt(log, i, addr) && log[i].t == t
  }

  ghost predicate DeregisteredSince(log: seq<Event>, t: nat, addr: Addr) {
    exists i, j :: i < j && StoresAt(log, i, addr) && log[i].t == t && DeregistersAt(log, j, addr)
  }

  ghost predicate ReplacedSince(log: seq<Event>, t: nat, addr: Addr) {
    exists i, j, k :: i < j < k && StoresAt(log, i, addr) && log[i].t == t && DeregistersAt(log, j, addr)
                      && StoresAt(log, k, addr)
  }

  lemma EventsStay(log: seq<Event>, more: seq<Event>, addr: Addr)
    ensures forall i :: StoresAt(log, i, addr) ==> StoresAt(log + more, i, addr) && (log + more)[i] == log[i]
    ensures forall j :: DeregistersAt(log, j, addr) ==> DeregistersAt(log + more, j, addr)
    ensures LostAndReplaced(log, addr) ==> LostAndReplaced(log + more, addr)
  {
    var all := log + more;
    if LostAndReplaced(log, addr) {
      var i, j, k, l :| i < j < k < l < |log| && StoresAt(log, i, addr) && DeregistersAt(log, j, addr)
                        && StoresAt(log, k, addr) && log[l] == Removal(log[i].t, addr);
      assert StoresAt(all, i, addr) && DeregistersAt(all, j, addr) && StoresAt(all, k, addr)
             && all[l] == Removal(all[i].t, addr);
    }
  }

  lemma LogGrows(log: seq<Event>, more: seq<Event>, t: nat, addr: Addr, c: Ctx)
    ensures LostAndReplaced(log, addr) ==> LostAndReplaced(log + more, addr)
    ensures StoredContext(log, addr, c) ==> StoredContext(log + more, addr, c)
    ensures StoredBy(log, t, addr) ==> StoredBy(log + more, t, addr)
    ensures DeregisteredSince(log, t, addr) ==> DeregisteredSince(log + more, t, addr)
    ensures ReplacedSince(log, t, addr) ==> ReplacedSince(log + more, t, addr)
  {
    EventsStay(log, more, addr);
  }

  lemma NextEvent(log: seq<Event>, e: Event, t: nat, addr: Addr)
    ensures e.Storing? && e.addr == addr && e.t == t ==> StoredBy(log + [e], t, addr)
    ensures e.Storing? && e.addr == addr ==> StoredContext(log + [e], addr, e.ctx)
    ensures e == Deregistering(addr) && StoredBy(log, t, addr) ==> DeregisteredSince(log + [e], t, addr)
    ensures e.Storing? && e.addr == addr && DeregisteredSince(log, t, addr) ==> ReplacedSince(log + [e], t, addr)
    ensures e == Removal(t, addr) && ReplacedSince(log, t, addr) ==> LostAndReplaced(log + [e], addr)
  {
    var all, n := log + [e], |log|;
    assert all[n] == e;
    assert forall i {:trigger log[i]} :: 0 <= i < n ==> all[i] == log[i];
    assert forall i :: StoresAt(log, i, addr) ==> StoresAt(all, i, addr);
    assert forall i :: DeregistersAt(log, i, addr) ==> DeregistersAt(all, i, addr);
    assert e.Storing? && e.addr == addr ==> StoresAt(all, n, addr);
    assert e == Deregistering(addr) ==> DeregistersAt(all, n, addr);
  }

  predicate Starting(pc: Pc) {
    pc.Stored? || pc.StartFailed?
  }

  /** What the log says about a registration whose start has not returned yet: where its entry went, if it
      is not in the map any more. */
  ghost predicate Explained(s: State, log: seq<Event>, t: nat, addr: Addr, c: Ctx) {
    && StoredBy(log, t, addr)
    && ((addr in s.sh.managers && s.sh.managers[addr] == c)
        || LostAndReplaced(log, addr) || DeregisteredSince(log, t, addr))
    && (addr in s.sh.managers && s.sh.managers[addr] != c ==> LostAndReplaced(log, addr) || ReplacedSince(log, t, addr))
  }

  ghost predicate StartsExplained(s: State, log: seq<Event>) {
    forall t :: 0 <= t < |s.pcs| && Starting(s.pcs[t]) ==> Explained(s, log, t, s.pcs[t].addr, s.pcs[t].ctx)
  }

  ghost predicate EntriesExplained(s: State, log: seq<Event>) {
    forall a :: a in s.sh.managers ==> StoredContext(log, a, s.sh.managers[a])
  }

  ghost predicate OrphansExplained(s: State, log: seq<Event>) {
    forall c :: c in s.orphans ==> exists a :: LostAndReplaced(log, a) && StoredContext(log, a, c)
  }

  /** The stored registration itself: its entry is in the map, and nothing else touches it in this step. */
  lemma OwnStepExplainsStart(s: State, a: Action, log: seq<Event>)
    requires StartsExplained(s, log)
    requires a.t < |s.pcs| && Step(s, a) != s && Starting(Step(s, a).pcs[a.t])
    ensures Explained(Step(s, a), log + EventsOf(s, a), a.t, Step(s, a).pcs[a.t].addr, Step(s, a).pcs[a.t].ctx)
  {
    var es := EventsOf(s, a);
    if a.Store? {
      NextEvent(log, es[0], a.t, s.pcs[a.t].addr);
    } else {
      assert a.Start? && log + es == log;
    }
  }

  /** Another registration under the address of the step, or under any other. */
  lemma OtherStepExplainsStart(s: State, a: Action, log: seq<Event>, t: nat)
    requires OneOwner(s) && StartsExplained(s, log)
    requires t < |s.pcs| && Starting(s.pcs[t]) && t != a.t && EventsOf(s, a) != []
    ensures Explained(Step(s, a), log + EventsOf(s, a), t, s.pcs[t].addr, s.pcs[t].ctx)
  {
    var addr, c, es := s.pcs[t].addr, s.pcs[t].ctx, EventsOf(s, a);
    assert Explained(s, log, t, addr, c);
    assert Owns(s.pcs[t], c) && (Owns(s.pcs[a.t], c) ==> a.t == t);
    LogGrows(log, es, t, addr, c);
    NextEvent(log, es[0], t, addr);
    assert es == [es[0]];
    if a.Remove? && s.pcs[a.t].addr == addr {
      NextEvent(log, es[0], a.t, addr);
      assert Explained(s, log, a.t, addr, s.pcs[a.t].ctx);
    }
  }

  lemma StepExplainsStart(s: State, a: Action, log: seq<Event>, t: nat)
    requires OneOwner(s) && StartsExplained(s, log)
    requires t < |Step(s, a).pcs| && Starting(Step(s, a).pcs[t])
    ensures Explained(Step(s, a), log + EventsOf(s, a), t, Step(s, a).pcs[t].addr, Step(s, a).pcs[t].ctx)
  {
    var s' := Step(s, a);
    assert EventsOf(s, a) == [] ==> log + EventsOf(s, a) == log;
    if s' == s {
      assert EventsOf(s, a) == [];
    } else if t == a.t {
      OwnStepExplainsStart(s, a, log);
    } else if EventsOf(s, a) != [] {
      OtherStepExplainsStart(s, a, log, t);
    } else {
      assert s'.sh.managers == s.sh.managers && s'.pcs[t] == s.pcs[t];
    }
  }

  lemma StepExplainsEntries(s: State, a: Action, log: seq<Event>)
    requires EntriesExplained(s, log)
    ensures EntriesExplained(Step(s, a), log + EventsOf(s, a))
  {
    var s', es := Step(s, a), EventsOf(s, a);
    forall b | b in s'.sh.managers ensures StoredContext(log + es, b, s'.sh.managers[b]) {
      LogGrows(log, es, 0, b, s'.sh.managers[b]);
      if es != [] {
        assert es == [es[0]];
        NextEvent(log, es[0], 0, b);
      }
    }
  }

  lemma NewOrphan(s: State, a: Action, log: seq<Event>, c: Ctx)
    requires StartsExplained(s, log) && EntriesExplained(s, log)
    requires c in Step(s, a).orphans && c !in s.orphans
    ensures exists b :: LostAndReplaced(log + EventsOf(s, a), b) && StoredContext(log + EventsOf(s, a), b, c)
  {
    var b, es := s.pcs[a.t].addr, EventsOf(s, a);
    assert es == [Removal(a.t, b)];
    LogGrows(log, es, a.t, b, c);
    NextEvent(log, Removal(a.t, b), a.t, b);
    assert Explained(s, log, a.t, b, s.pcs[a.t].ctx);
    assert LostAndReplaced(log + es, b);
  }

  lemma StepExplainsOrphans(s: State, a: Action, log: seq<Event>)
    requires StartsExplained(s, log) && EntriesExplained(s, log) && OrphansExplained(s, log)
    ensures OrphansExplained(Step(s, a), log + EventsOf(s, a))
  {
    var es := EventsOf(s, a);
    forall c | c in Step(s, a).orphans
      ensures exists b :: LostAndReplaced(log + es, b) && StoredContext(log + es, b, c)
    {
      if c in s.orphans {
        var b :| LostAndReplaced(log, b) && StoredContext(log, b, c);
        LogGrows(log, es, 0, b, c);
      } else {
        NewOrphan(s, a, log, c);
      }
    }
  }

  lemma {:induction false} RunExplained(threads: nat, schedule: seq<Action>)
    ensures var s, log := Exec(Init(threads), schedule), Log(Init(threads), schedule);
            StartsExplained(s, log) && EntriesExplained(s, log) && OrphansExplained(s, log)
  {
    if schedule != [] {
      var front, a := schedule[..|schedule| - 1], schedule[|schedule| - 1];
      RunExplained(threads, front);
      ReachableInv(threads, front);
      var s, log := Exec(Init(threads), front), Log(Init(threads), front);
      forall t | 0 <= t < |Step(s, a).pcs| && Starting(Step(s, a).pcs[t])
        ensures Explained(Step(s, a), log + EventsOf(s, a), t, Step(s, a).pcs[t].addr, Step(s, a).pcs[t].ctx)
      {
        StepExplainsStart(s, a, log, t);
      }
      StepExplainsEntries(s, a, log);
      StepExplainsOrphans(s, a, log);
    }
  }

  /** Every orphaned context had been stored under an address at which, in this order, a registration was
      stored, the address was deregistered, another registration of it was stored, and the failed start of
      the first one removed the entry by address. */
  lemma OrphanNeedsReplacement(threads: nat, schedule: seq<Action>, c: Ctx)
    requires c in Exec(Init(threads), schedule).orphans
    ensures exists addr :: LostAndReplaced(Log(Init(threads), schedule), addr)
                           && StoredContext(Log(Init(threads), schedule), addr, c)
  {
    RunExplained(threads, schedule);
  }

  // ----- the orphan does happen

  lemma Extend(init: State, schedule: seq<Action>, s: State, a: Action)
    returns (schedule': seq<Action>, s': State)
    requires Exec(init, schedule) == s
    ensures schedule' == schedule + [a] && s' == Step(s, a) && Exec(init, schedule') == s'
  {
    schedule', s' := schedule + [a], Step(s, a);
    assert schedule'[..|schedule'| - 1] == schedule;
  }

  lemma RegisterUpToStored(init: State, schedule: seq<Action>, s: State, t: nat, addr: Addr)
    returns (schedule': seq<Action>, s': State)
    requires Exec(init, schedule) == s && t < |s.pcs| && s.pcs[t] == Idle && addr !in s.sh.managers
    ensures Exec(init, schedule') == s'
    ensures s' == State(Shared(s.sh.managers[addr := s.sh.next], s.sh.cancelled, s.sh.next + 1),
                        s.pcs[t := Stored(addr, s.sh.next)], s.orphans)
  {
    schedule', s' := Extend(init, schedule, s, Check(t, addr));
    schedule', s' := Extend(init, schedule', s', CreateContext(t));
    schedule', s' := Extend(init, schedule', s', StartPollers(t, true));
    schedule', s' := Extend(init, schedule', s', Build(t, true));
    assert s'.pcs == s.pcs[t := Built(addr, s.sh.next)];
    schedule', s' := Extend(init, schedule', s', Store(t));
    assert s'.pcs == s.pcs[t := Stored(addr, s.sh.next)];
  }

  /** Goroutine 0 stores its registration, goroutine 1 deregisters it, goroutine 2 registers again. */
  lemma ReRegistered(addr: Addr) returns (schedule: seq<Action>)
    ensures Exec(Init(3), schedule) == State(Shared(map[addr := 1], {}, 2),
                                             [Stored(addr, 0), Removing(0), Stored(addr, 1)], {})
  {
    var init := Init(3);
    var s := init;
    schedule := [];
    schedule, s := RegisterUpToStored(init, schedule, s, 0, addr);
    schedule, s := Extend(init, schedule, s, Deregister(1, addr));
    assert s.sh.managers == map[];
    schedule, s := RegisterUpToStored(init, schedule, s, 2, addr);
    assert s.pcs == [Stored(addr, 0), Removing(0), Stored(addr, 1)];
  }

  /** A run of three goroutines after which a successfully registered AVS has no entry while its context
      stays live: the failed start of an earlier registration removed it by address. */
  lemma OrphanHappens(addr: Addr) returns (schedule: seq<Action>)
    ensures var s := Exec(Init(3), schedule);
            && Quiescent(s) && |s.pcs| == 3
            && s.pcs[2] == Registered(addr, 1) && addr !in s.sh.managers
            && Live(s, 1) && !IsStored(s.sh, 1) && 1 in s.orphans
  {
    var init := Init(3);
    schedule := ReRegistered(addr);
    var s := Exec(init, schedule);
    schedule, s := Extend(init, schedule, s, Start(2, true));
    schedule, s := Extend(init, schedule, s, Start(0, false));
    assert s.pcs == [StartFailed(addr, 0), Removing(0), Registered(addr, 1)];
    schedule, s := Extend(init, schedule, s, Remove(0));
    assert s.sh.managers == map[] && s.orphans == {1};
    schedule, s := Extend(init, schedule, s, Cancel(0));
    schedule, s := Extend(init, schedule, s, Cancel(1));
    assert s.pcs == [RegisterError(0), Deregistered(0), Registered(addr, 1)];
  }

  // ----- the operations themselves

  /** How the calls of one registration end. */
  datatype Results = Results(chainsOk: bool, pollersOk: bool, buildOk: bool, startOk: bool)

  predicate AllOk(r: Results) {
    r.chainsOk && r.pollersOk && r.buildOk && r.startOk
  }

  /** The aggregator's fields, with both operations as one goroutine runs them. */
  class Aggregator {
    var avsManagers: map<Addr, Ctx>
    var cancelled: set<Ctx>
    var nextCtx: Ctx

    ghost function View(): Shared
      reads this
    {
      Shared(avsManagers, cancelled, nextCtx)
    }

    constructor ()
      ensures View() == InitShared()
    {
      avsManagers, cancelled, nextCtx := map[], {}, 0;
    }

    method StoreAvsManager(addr: Addr, ctx: Ctx) returns (failed: bool)
      modifies this`avsManagers
      ensures failed <==> addr in old(avsManagers)
      ensures avsManagers == if failed then old(avsManagers) else old(avsManagers)[addr := ctx]
    {
      if addr in avsManagers { return true; }
      avsManagers := avsManagers[addr := ctx];
      return false;
    }

    method RemoveAvsManager(addr: Addr)
      modifies this`avsManagers
      ensures avsManagers == old(avsManagers) - {addr}
    {
      avsManagers := avsManagers - {addr};
    }

    /** registerAvs; the deferred cancel runs exactly when an error is returned after the context exists. */
    method RegisterAvs(addr: Addr, r: Results) returns (failed: bool)
      modifies this
      ensures failed <==> addr in old(avsManagers) || !(r.chainsOk && r.pollersOk && r.buildOk && r.startOk)
      ensures avsManagers == if failed then old(avsManagers) else old(avsManagers)[addr := old(nextCtx)]
      ensures var creates := addr !in old(avsManagers) && r.chainsOk;
              && nextCtx == old(nextCtx) + (if creates then 1 else 0)
              && cancelled == old(cancelled) + (if creates && failed then {old(nextCtx)} else {})
      ensures View() == RegisterAlone(old(View()), addr, r)
    {
      if addr in avsManagers { return true; }
      if !r.chainsOk { return true; }
      var ctx := nextCtx;
      nextCtx := nextCtx + 1;
      failed := !r.pollersOk;
      if !failed { failed := !r.buildOk; }
      if !failed { failed := StoreAvsManager(addr, ctx); }
      if !failed && !r.startOk {
        RemoveAvsManager(addr);
        failed := true;
      }
      if failed { cancelled := cancelled + {ctx}; }
    }

    method DeregisterAvs(addr: Addr) returns (failed: bool)
      modifies this
      ensures failed <==> addr !in old(avsManagers)
      ensures avsManagers == old(avsManagers) - {addr} && nextCtx == old(nextCtx)
      ensures cancelled == old(cancelled) + (if failed then {} else {old(avsManagers)[addr]})
      ensures View() == DeregisterAlone(old(View()), addr)
    {
      if addr !in avsManagers { return true; }
      var ctx := avsManagers[addr];
      avsManagers := avsManagers - {addr};
      cancelled := cancelled + {ctx};
      return false;
    }
  }

  function RegisterAlone(sh: Shared, addr: Addr, r: Results): Shared {
    if addr in sh.managers || !r.chainsOk then sh
    else if AllOk(r) then Shared(sh.managers[addr := sh.next], sh.cancelled, sh.next + 1)
    else Shared(sh.managers, sh.cancelled + {sh.next}, sh.next + 1)
  }

  function DeregisterAlone(sh: Shared, addr: Addr): Shared {
    if addr !in sh.managers then sh
    else Shared(sh.managers - {addr}, sh.cancelled + {sh.managers[addr]}, sh.next)
  }

  function Alone(sh: Shared, pc: Pc): State { State(sh, [pc], {}) }

  /** A step that goroutine 0 can take in this one call of registerAvs. */
  predicate OfThisCall(a: Action, addr: Addr, r: Results) {
    && a.t == 0
    && match a
       case Check(_, ad) => ad == addr
       case BadChains(_) => !r.chainsOk
       case CreateContext(_) => r.chainsOk
       case StartPollers(_, ok) => ok == r.pollersOk
       case Build(_, ok) => ok == r.buildOk
       case Start(_, ok) => ok == r.startOk
       case Deregister(_, _) => false
       case _ => true
  }

  /** The state of an undisturbed registration, from its program counter. */
  ghost predicate MidCall(s: State, sh: Shared, addr: Addr, r: Results) {
    && s.orphans == {} && |s.pcs| == 1
    && var c := sh.next;
       var creates := addr !in sh.managers && r.chainsOk;
       match s.pcs[0]
       case Idle => s.sh == sh
       case Checked(a) => a == addr && addr !in sh.managers && s.sh == sh
       case HasContext(a, d) => a == addr && d == c && creates && s.sh == sh.(next := c + 1)
       case PollersUp(a, d) => a == addr && d == c && creates && r.pollersOk && s.sh == sh.(next := c + 1)
       case Built(a, d) => a == addr && d == c && creates && r.pollersOk && r.buildOk && s.sh == sh.(next := c + 1)
       case Stored(a, d) =>
         && a == addr && d == c && creates && r.pollersOk && r.buildOk
         && s.sh == Shared(sh.managers[addr := c], sh.cancelled, c + 1)
       case StartFailed(a, d) =>
         && a == addr && d == c && creates && !r.startOk && s.sh == Shared(sh.managers[addr := c], sh.cancelled, c + 1)
       case Failing(d) => d == c && creates && !AllOk(r) && s.sh == sh.(next := c + 1)
       case Registered(a, d) => creates && AllOk(r) && s.sh == RegisterAlone(sh, addr, r)
       case RegisterError(d) => creates && !AllOk(r) && s.sh == RegisterAlone(sh, addr, r)
       case Refused => !creates && s.sh == sh
       case _ => false
  }

  lemma StepKeepsMidCall(s: State, a: Action, sh: Shared, addr: Addr, r: Results)
    requires MidCall(s, sh, addr, r) && OfThisCall(a, addr, r)
    ensures MidCall(Step(s, a), sh, addr, r)
  {
    if a.Remove? && s.pcs[0].StartFailed? {
      assert sh.managers[addr := sh.next] - {addr} == sh.managers;
    }
  }

  /** Run without interference, a registration that has returned did what the operation does, in whatever
      way its steps were scheduled: step relation and class describe the same code. */
  lemma {:induction false} AnyAloneScheduleRegisters(sh: Shared, addr: Addr, r: Results, schedule: seq<Action>)
    requires forall i :: 0 <= i < |schedule| ==> OfThisCall(schedule[i], addr, r)
    ensures var s := Exec(Alone(sh, Idle), schedule);
            && MidCall(s, sh, addr, r)
            && (Quiescent(s) && s.pcs != [Idle] ==>
                  && s.sh == RegisterAlone(sh, addr, r) && s.orphans == {}
                  && (s.pcs[0].Registered? <==> addr !in sh.managers && AllOk(r)))
  {
    if schedule != [] {
      var front := schedule[..|schedule| - 1];
      AnyAloneScheduleRegisters(sh, addr, r, front);
      StepKeepsMidCall(Exec(Alone(sh, Idle), front), schedule[|schedule| - 1], sh, addr, r);
    }
  }

  /** All steps of the call in order; those that do not apply change nothing. */
  function RegisterScript(addr: Addr, r: Results): (s: seq<Action>)
    ensures |s| == 8
  {
    [Check(0, addr), if r.chainsOk then CreateContext(0) else BadChains(0), StartPollers(0, r.pollersOk),
     Build(0, r.buildOk), Store(0), Start(0, r.startOk), Remove(0), Cancel(0)]
  }

  function Progress(pc: Pc): nat {
    match pc
    case Idle => 0
    case Checked(_) => 1
    case HasContext(_, _) => 2
    case PollersUp(_, _) => 3
    case Built(_, _) => 4
    case Stored(_, _) => 5
    case StartFailed(_, _) => 6
    case Failing(_) => 7
    case Removing(_) => 7
    case _ => 8
  }

  lemma ScriptStepAdvances(s: State, addr: Addr, r: Results, k: nat)
    requires |s.pcs| == 1 && k < 8 && Progress(s.pcs[0]) >= k
    ensures |Step(s, RegisterScript(addr, r)[k]).pcs| == 1
    ensures Progress(Step(s, RegisterScript(addr, r)[k]).pcs[0]) >= k + 1
  {
  }

  lemma {:induction false} ScriptAdvances(sh: Shared, addr: Addr, r: Results, k: nat)
    requires k <= 8
    ensures var s := Exec(Alone(sh, Idle), RegisterScript(addr, r)[..k]);
            |s.pcs| == 1 && Progress(s.pcs[0]) >= k
  {
    var script := RegisterScript(addr, r)[..k];
    if k > 0 {
      ScriptAdvances(sh, addr, r, k - 1);
      assert script[..k - 1] == RegisterScript(addr, r)[..k - 1];
      ScriptStepAdvances(Exec(Alone(sh, Idle), script[..k - 1]), addr, r, k - 1);
    }
  }

  /** And such a schedule that returns exists, for any results of the calls. */
  lemma RegisterAloneIsASchedule(sh: Shared, addr: Addr, r: Results)
    ensures var s := Exec(Alone(sh, Idle), RegisterScript(addr, r));
            && |s.pcs| == 1 && Quiescent(s) && s.sh == RegisterAlone(sh, addr, r) && s.orphans == {}
            && (s.pcs[0].Registered? <==> addr !in sh.managers && AllOk(r))
  {
    var script := RegisterScript(addr, r);
    ScriptAdvances(sh, addr, r, 8);
    assert script[..8] == script;
    AnyAloneScheduleRegisters(sh, addr, r, script);
  }

  lemma DeregisterAloneIsASchedule(sh: Shared, addr: Addr)
    ensures var s := Exec(Alone(sh, Idle), [Deregister(0, addr), Cancel(0)]);
            s.sh == DeregisterAlone(sh, addr) && s.orphans == {} && Quiescent(s)
  {
    var init := Alone(sh, Idle);
    var schedule, s := Extend(init, [], init, Deregister(0, addr));
    schedule, s := Extend(init, schedule, s, Cancel(0));
    assert schedule == [Deregister(0, addr), Cancel(0)];
  }
}
