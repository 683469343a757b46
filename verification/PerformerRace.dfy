/** Racing callers of getOrCreateAvsPerformer in ponos/pkg/executor/handlers.go. A performer is a number. */
module PerformerRace {
  import opened Wrappers

  type Performer = int

  datatype Pc =
    | Start
    | Creating                                     // fast path missed
    | Created(p: Performer)
    | Initialized(p: Performer)
    | Duplicate(p: Performer, actual: Performer)   // LoadOrStore found another one, own one still running
    | Returned(p: Performer)
    | Failed

  datatype Caller = Caller(addr: string, pc: Pc)

  /** `uninitialized` collects the performers whose Initialize failed: the source just drops them. */
  datatype State = State(performers: map<string, Performer>, down: set<Performer>, uninitialized: set<Performer>,
                         next: Performer, callers: seq<Caller>)

  datatype Action =
    | Load(c: nat)
    | Create(c: nat, ok: bool)
    | Initialize(c: nat, ok: bool)
    | LoadOrStore(c: nat)
    | Shutdown(c: nat)

  function Init(addrs: seq<string>): State {
    State(map[], {}, {}, 0, seq(|addrs|, i requires 0 <= i < |addrs| => Caller(addrs[i], Start)))
  }

  function Goto(s: State, c: nat, pc: Pc): State
    requires c < |s.callers|
  {
    s.(callers := s.callers[c := s.callers[c].(pc := pc)])
  }

  /** One atomic step of caller c; an action that is not possible now changes nothing. */
  function Step(s: State, a: Action): State {
    if a.c >= |s.callers| then s else
    var addr, pc := s.callers[a.c].addr, s.callers[a.c].pc;
    match a
    case Load(c) =>
      if !pc.Start? then s
      else Goto(s, c, if addr in s.performers then Returned(s.performers[addr]) else Creating)
    case Create(c, ok) =>
      if !pc.Creating? then s
      else if !ok then Goto(s, c, Failed)
      else Goto(s.(next := s.next + 1), c, Created(s.next))
    case Initialize(c, ok) =>
      if !pc.Created? then s
      else if ok then Goto(s, c, Initialized(pc.p))
      else Goto(s.(uninitialized := s.uninitialized + {pc.p}), c, Failed)
    case LoadOrStore(c) =>
      if !pc.Initialized? then s
      else if addr in s.performers then Goto(s, c, Duplicate(pc.p, s.performers[addr]))
      else Goto(s.(performers := s.performers[addr := pc.p]), c, Returned(pc.p))
    case Shutdown(c) =>
      if !pc.Duplicate? then s else Goto(s.(down := s.down + {pc.p}), c, Returned(pc.actual))
  }

  function Exec(s: State, schedule: seq<Action>): State {
    if schedule == [] then s
    else Step(Exec(s, schedule[..|schedule| - 1]), schedule[|schedule| - 1])
  }

  // ----- invariants

  /** The caller created p and has neither stored it nor shut it down. */
  predicate Holds(k: Caller, p: Performer) {
    (k.pc.Created? || k.pc.Initialized? || k.pc.Duplicate?) && k.pc.p == p
  }

  predicate IsStored(s: State, p: Performer) {
    exists a :: a in s.performers && s.performers[a] == p
  }

  ghost predicate Bounds(s: State) {
    && s.next >= 0
    && (forall p :: p in s.down || p in s.uninitialized ==> 0 <= p < s.next)
    && (forall a :: a in s.performers ==> 0 <= s.performers[a] < s.next)
    && (forall c, p {:trigger Holds(s.callers[c], p)} ::
          0 <= c < |s.callers| && Holds(s.callers[c], p) ==> 0 <= p < s.next)
  }

  ghost predicate OneHolder(s: State) {
    forall c, d, p {:trigger Holds(s.callers[c], p), Holds(s.callers[d], p)} ::
      0 <= c < |s.callers| && 0 <= d < |s.callers| && Holds(s.callers[c], p) && Holds(s.callers[d], p) ==> c == d
  }

  ghost predicate HeldIsUnused(s: State) {
    forall c, p {:trigger Holds(s.callers[c], p)} :: 0 <= c < |s.callers| && Holds(s.callers[c], p) ==>
      p !in s.down && p !in s.uninitialized && !IsStored(s, p)
  }

  ghost predicate StoredAreUp(s: State) {
    && (forall a :: a in s.performers ==> s.performers[a] !in s.down && s.performers[a] !in s.uninitialized)
    && (forall a, b :: a in s.performers && b in s.performers && s.performers[a] == s.performers[b] ==> a == b)
    && s.down !! s.uninitialized
  }

  ghost predicate AnswersAreStored(s: State) {
    forall c :: 0 <= c < |s.callers| ==>
      var k := s.callers[c];
      && (k.pc.Returned? ==> k.addr in s.performers && s.performers[k.addr] == k.pc.p)
      && (k.pc.Duplicate? ==> k.addr in s.performers && s.performers[k.addr] == k.pc.actual)
  }

  ghost predicate Accounted(s: State, p: Performer) {
    IsStored(s, p) || p in s.down || p in s.uninitialized
    || exists c :: 0 <= c < |s.callers| && Holds(s.callers[c], p)
  }

  ghost predicate Inv(s: State) {
    && Bounds(s) && OneHolder(s) && HeldIsUnused(s) && StoredAreUp(s) && AnswersAreStored(s)
    && forall p :: 0 <= p < s.next ==> Accounted(s, p)
  }

  /** A performer held after a step was held by the same caller before, or has just been created. */
  lemma HeldBefore(s: State, a: Action, c: nat, p: Performer)
    requires c < |Step(s, a).callers| && Holds(Step(s, a).callers[c], p)
    ensures |Step(s, a).callers| == |s.callers|
    ensures Holds(s.callers[c], p) || (a.Create? && c == a.c && p == s.next)
  {
  }

  lemma StepKeepsBounds(s: State, a: Action)
    requires Bounds(s)
    ensures Bounds(Step(s, a))
  {
    var s' := Step(s, a);
    if a.c < |s.callers| && s' != s {
      var pc := s.callers[a.c].pc;
      assert pc.Created? || pc.Initialized? || pc.Duplicate? ==> Holds(s.callers[a.c], pc.p);
      forall c, p | 0 <= c < |s'.callers| && Holds(s'.callers[c], p) ensures 0 <= p < s'.next {
        HeldBefore(s, a, c, p);
      }
    }
  }

  lemma StepKeepsOneHolder(s: State, a: Action)
    requires Bounds(s) && OneHolder(s)
    ensures OneHolder(Step(s, a))
  {
    var s' := Step(s, a);
    forall c, d, p | 0 <= c < |s'.callers| && 0 <= d < |s'.callers| && Holds(s'.callers[c], p) && Holds(s'.callers[d], p)
      ensures c == d
    {
      HeldBefore(s, a, c, p);
      HeldBefore(s, a, d, p);
    }
  }

  lemma StepKeepsUnused(s: State, a: Action)
    requires Bounds(s) && OneHolder(s) && HeldIsUnused(s)
    ensures HeldIsUnused(Step(s, a))
  {
    var s' := Step(s, a);
    forall c, p | 0 <= c < |s'.callers| && Holds(s'.callers[c], p)
      ensures p !in s'.down && p !in s'.uninitialized && !IsStored(s', p)
    {
      HeldBefore(s, a, c, p);
      if a.c < |s.callers| && s' != s {
        var pc := s.callers[a.c].pc;
        assert (pc.Created? || pc.Initialized? || pc.Duplicate?) && pc.p == p ==> Holds(s.callers[a.c], p);
        forall b | b in s'.performers ensures s'.performers[b] != p {
          assert b in s.performers ==> s.performers[b] != p;
        }
      }
    }
  }

  lemma StepKeepsStored(s: State, a: Action)
    requires Bounds(s) && HeldIsUnused(s) && StoredAreUp(s)
    ensures StoredAreUp(Step(s, a))
  {
    var s' := Step(s, a);
    if a.c < |s.callers| && s' != s {
      var k := s.callers[a.c];
      if k.pc.Created? || k.pc.Initialized? || k.pc.Duplicate? {
        assert Holds(k, k.pc.p);
        assert forall b :: b in s.performers ==> s.performers[b] != k.pc.p;
      }
    }
  }

  lemma StepKeepsAnswers(s: State, a: Action)
    requires AnswersAreStored(s)
    ensures AnswersAreStored(Step(s, a))
  {
    var s' := Step(s, a);
    forall c | 0 <= c < |s'.callers|
      ensures var k := s'.callers[c];
              && (k.pc.Returned? ==> k.addr in s'.performers && s'.performers[k.addr] == k.pc.p)
              && (k.pc.Duplicate? ==> k.addr in s'.performers && s'.performers[k.addr] == k.pc.actual)
    {
      var before := s.callers[c];
      assert c != a.c ==> s'.callers[c] == before;
    }
  }

  lemma StepKeepsAccounted(s: State, a: Action, p: Performer)
    requires Inv(s) && 0 <= p < Step(s, a).next
    ensures Accounted(Step(s, a), p)
  {
    var s' := Step(s, a);
    if s' != s {
      assert p < s.next ==> Accounted(s, p);
      if p == s.next {
        assert Holds(s'.callers[a.c], p);
      } else if IsStored(s, p) {
        var addr :| addr in s.performers && s.performers[addr] == p;
        assert s'.performers[addr] == p;
      } else if c :| 0 <= c < |s.callers| && Holds(s.callers[c], p) {
        if c != a.c {
          assert s'.callers[c] == s.callers[c];
        } else if a.LoadOrStore? && s'.callers[c].pc.Returned? {
          assert s'.performers[s.callers[c].addr] == p;
        } else if !a.Shutdown? && !s'.callers[c].pc.Failed? {
          assert Holds(s'.callers[c], p);
        }
      }
    }
  }

  lemma {:induction false} ReachableInv(addrs: seq<string>, schedule: seq<Action>)
    ensures Inv(Exec(Init(addrs), schedule))
  {
    if schedule != [] {
      var front, a := schedule[..|schedule| - 1], schedule[|schedule| - 1];
      ReachableInv(addrs, front);
      var s := Exec(Init(addrs), front);
      StepKeepsBounds(s, a);
      StepKeepsOneHolder(s, a);
      StepKeepsUnused(s, a);
      StepKeepsStored(s, a);
      StepKeepsAnswers(s, a);
      forall p | 0 <= p < Step(s, a).next ensures Accounted(Step(s, a), p) {
        StepKeepsAccounted(s, a, p);
      }
    }
  }

  // ----- main results

  /** In every interleaving all callers that got a performer for one address got the same one, the one in
      the map, and it has not been shut down by any of them. */
  lemma OnePerformerPerAvs(addrs: seq<string>, schedule: seq<Action>)
    ensures var s := Exec(Init(addrs), schedule);
            && (forall c :: 0 <= c < |s.callers| && s.callers[c].pc.Returned? ==>
                  s.callers[c].addr in s.performers && s.callers[c].pc.p == s.performers[s.callers[c].addr])
            && (forall c, d :: 0 <= c < |s.callers| && 0 <= d < |s.callers| && s.callers[c].addr == s.callers[d].addr
                               && s.callers[c].pc.Returned? && s.callers[d].pc.Returned?
                               ==> s.callers[c].pc.p == s.callers[d].pc.p)
            && (forall a :: a in s.performers ==> s.performers[a] !in s.down)
  {
    ReachableInv(addrs, schedule);
  }

  /** Once set, the entry of an address never changes, whatever happens afterwards. */
  lemma {:induction false} EntryNeverChanges(s: State, later: seq<Action>, addr: string)
    requires addr in s.performers
    ensures addr in Exec(s, later).performers && Exec(s, later).performers[addr] == s.performers[addr]
  {
    if later != [] { EntryNeverChanges(s, later[..|later| - 1], addr); }
  }

  predicate Quiescent(s: State) {
    forall c :: 0 <= c < |s.callers| ==> var pc := s.callers[c].pc; pc.Start? || pc.Returned? || pc.Failed?
  }

  /** Once all callers have returned, every performer ever created is in the map, or was shut down, or is
      one whose Initialize failed; these three are disjoint, so no initialized duplicate leaks. */
  lemma DuplicatesAreShutDown(addrs: seq<string>, schedule: seq<Action>)
    requires Quiescent(Exec(Init(addrs), schedule))
    ensures var s := Exec(Init(addrs), schedule);
            forall p :: 0 <= p < s.next ==> (p in s.down <==> !IsStored(s, p) && p !in s.uninitialized)
  {
    ReachableInv(addrs, schedule);
    var s := Exec(Init(addrs), schedule);
    forall p | 0 <= p < s.next ensures p in s.down <==> !IsStored(s, p) && p !in s.uninitialized {
      assert Accounted(s, p);
    }
  }

  /** A caller that loses the race shuts its own performer down and returns the one in the map. */
  lemma LoserReturnsWinner(s: State, c: nat)
    requires c < |s.callers| && s.callers[c].pc.Initialized? && s.callers[c].addr in s.performers
    ensures var addr, p := s.callers[c].addr, s.callers[c].pc.p;
            var s' := Step(Step(s, LoadOrStore(c)), Shutdown(c));
            && s'.callers == s.callers[c := Caller(addr, Returned(s.performers[addr]))]
            && s'.down == s.down + {p} && s'.performers == s.performers
  {
  }

  /** No caller is ever stuck: from every state, its own steps alone take it to its end. */
  lemma EveryCallerReturns(s: State, c: nat)
    requires c < |s.callers|
    ensures var s1 := Step(Step(s, Load(c)), Create(c, true));
            var s2 := Step(Step(s1, Initialize(c, true)), LoadOrStore(c));
            var s3 := Step(s2, Shutdown(c));
            |s3.callers| == |s.callers| && (s3.callers[c].pc.Returned? || s3.callers[c].pc.Failed?)
            && (s3.callers[c].pc.Failed? <==> s.callers[c].pc.Failed?)
  {
  }

  predicate NoErrors(schedule: seq<Action>) {
    forall i :: 0 <= i < |schedule| && (schedule[i].Create? || schedule[i].Initialize?) ==> schedule[i].ok
  }

  /** Without errors, all callers that have returned hold a performer and all others are down. */
  lemma {:induction false} NoErrorsNoLeak(addrs: seq<string>, schedule: seq<Action>)
    requires NoErrors(schedule)
    ensures var s := Exec(Init(addrs), schedule);
            s.uninitialized == {} && forall c :: 0 <= c < |s.callers| ==> !s.callers[c].pc.Failed?
    ensures var s := Exec(Init(addrs), schedule);
            Quiescent(s) ==> forall p :: 0 <= p < s.next ==> (p in s.down <==> !IsStored(s, p))
  {
    if schedule != [] {
      var front := schedule[..|schedule| - 1];
      assert forall i :: 0 <= i < |front| ==> front[i] == schedule[i];
      NoErrorsNoLeak(addrs, front);
    }
    if Quiescent(Exec(Init(addrs), schedule)) {
      DuplicatesAreShutDown(addrs, schedule);
    }
  }

  // ----- the operation as one goroutine runs it

  class Executor {
    var avsPerformers: map<string, Performer>
    var next: Performer

    constructor ()
      ensures avsPerformers == map[] && next == 0
    {
      avsPerformers, next := map[], 0;
    }

    /** getOrCreateAvsPerformer with nobody in between: LoadOrStore always stores here. */
    method GetOrCreateAvsPerformer(addr: string, createOk: bool, initializeOk: bool) returns (p: Option<Performer>)
      modifies this
      ensures p.None? <==> addr !in old(avsPerformers) && !(createOk && initializeOk)
      ensures p.None? ==> avsPerformers == old(avsPerformers)
      ensures p.Some? ==> avsPerformers == old(avsPerformers)[addr := p.value]
      ensures p.Some? && addr in old(avsPerformers) ==> p.value == old(avsPerformers)[addr]
      ensures p.Some? && addr !in old(avsPerformers) ==> p.value == old(next)
      ensures next == old(next) + (if addr !in old(avsPerformers) && createOk then 1 else 0)
    {
      if addr in avsPerformers { return Some(avsPerformers[addr]); }
      if !createOk { return None; }
      var newPerformer := next;
      next := next + 1;
      if !initializeOk { return None; }
      avsPerformers := avsPerformers[addr := newPerformer];
      return Some(newPerformer);
    }
  }

  /** Run without interference, the protocol steps of one caller return and store what the operation does,
      for any results of its calls; a performer whose Initialize fails is left over. */
  lemma SoloCallIsASchedule(s: State, addr: string, createOk: bool, initializeOk: bool)
    requires s.callers == [Caller(addr, Start)]
    ensures var t := Exec(s, [Load(0), Create(0, createOk), Initialize(0, initializeOk), LoadOrStore(0)]);
            var known := addr in s.performers;
            var p := if known then s.performers[addr] else s.next;
            && t.callers == [Caller(addr, if known || (createOk && initializeOk) then Returned(p) else Failed)]
            && t.performers == (if known || (createOk && initializeOk) then s.performers[addr := p] else s.performers)
            && t.next == s.next + (if !known && createOk then 1 else 0)
            && t.uninitialized == s.uninitialized + (if !known && createOk && !initializeOk then {p} else {})
            && t.down == s.down
  {
    var a, b, c, d := Load(0), Create(0, createOk), Initialize(0, initializeOk), LoadOrStore(0);
    assert [a, b, c, d][..3] == [a, b, c] && [a, b, c][..2] == [a, b] && [a, b][..1] == [a] && [a][..0] == [];
    var s1 := Step(s, a);
    assert Exec(s, [a]) == s1;
    var s2 := Step(s1, b);
    assert Exec(s, [a, b]) == s2;
    var s3 := Step(s2, c);
    assert Exec(s, [a, b, c]) == s3;
    var s4 := Step(s3, d);
    assert Exec(s, [a, b, c, d]) == s4;
    if addr in s.performers {
      assert s4.callers == [Caller(addr, Returned(s.performers[addr]))];
      assert s.performers[addr := s.performers[addr]] == s.performers;
    }
  }
}
