/** Many callers of attemptRestart on one registered monitor: the liveness, resource and Docker-event
    goroutines and any number of TriggerRestart callers (ponos/pkg/containerManager/dockerManager.go).
    The limit check reads restartCount; the increment is a later, separate step under the lock. */
module RestartRace {

  /** Where one caller stands: not in an attempt, past the limit check, or restarted but not yet counted. */
  datatype Pc = Idle | PastCheck | Uncounted

  /** `restarts` counts container restarts that really happened, `direct` those among them by calls of
      RestartContainer that bypass the limit check, and `pending` the direct ones not yet counted. */
  datatype State = State(count: nat, restarts: nat, direct: nat, pending: nat, maxRestarts: int, pcs: seq<Pc>)

  datatype Action =
    | Check(i: nat)       // limit check of attemptRestart
    | GiveUp(i: nat)      // context ended, or the Docker call failed
    | Restart(i: nat)     // the Docker call succeeded
    | CountUp(i: nat)     // restartCount++ under the lock
    | DirectRestart       // RestartContainer called from elsewhere: its Docker call succeeded
    | DirectCountUp       // and its restartCount++ under the lock
    | SetLimit(m: int)    // SetRestartPolicy

  function Init(callers: nat, maxRestarts: int): State {
    State(0, 0, 0, 0, maxRestarts, seq(callers, _ => Idle))
  }

  predicate Permitted(s: State) {
    !(s.maxRestarts > 0 && s.count >= s.maxRestarts)
  }

  predicate At(s: State, i: nat, pc: Pc) {
    i < |s.pcs| && s.pcs[i] == pc
  }

  /** One scheduling step; an action that is not possible now changes nothing. */
  function Step(s: State, a: Action): State {
    match a
    case Check(i) => if At(s, i, Idle) && Permitted(s) then s.(pcs := s.pcs[i := PastCheck]) else s
    case GiveUp(i) => if At(s, i, PastCheck) then s.(pcs := s.pcs[i := Idle]) else s
    case Restart(i) =>
      if At(s, i, PastCheck) then s.(pcs := s.pcs[i := Uncounted], restarts := s.restarts + 1) else s
    case CountUp(i) => if At(s, i, Uncounted) then s.(pcs := s.pcs[i := Idle], count := s.count + 1) else s
    case DirectRestart => s.(restarts := s.restarts + 1, direct := s.direct + 1, pending := s.pending + 1)
    case DirectCountUp => if s.pending > 0 then s.(count := s.count + 1, pending := s.pending - 1) else s
    case SetLimit(m) => s.(maxRestarts := m)
  }

  function Exec(s: State, schedule: seq<Action>): State {
    if schedule == [] then s
    else Step(Exec(s, schedule[..|schedule| - 1]), schedule[|schedule| - 1])
  }

  function Number(pcs: seq<Pc>, kind: set<Pc>): nat {
    if pcs == [] then 0 else (if pcs[0] in kind then 1 else 0) + Number(pcs[1..], kind)
  }

  lemma {:induction false} NumberUpdate(pcs: seq<Pc>, kind: set<Pc>, i: nat, pc: Pc)
    requires i < |pcs|
    ensures Number(pcs[i := pc], kind)
            == Number(pcs, kind) - (if pcs[i] in kind then 1 else 0) + (if pc in kind then 1 else 0)
  {
    var changed := pcs[i := pc];
    if i == 0 {
      assert changed[1..] == pcs[1..];
    } else {
      assert changed[1..] == pcs[1..][i - 1 := pc];
      NumberUpdate(pcs[1..], kind, i - 1, pc);
    }
  }

  lemma {:induction false} NumberBound(pcs: seq<Pc>, kind: set<Pc>)
    ensures Number(pcs, kind) <= |pcs|
    ensures (exists i :: 0 <= i < |pcs| && pcs[i] !in kind) ==> Number(pcs, kind) < |pcs|
    ensures (forall i :: 0 <= i < |pcs| ==> pcs[i] !in kind) ==> Number(pcs, kind) == 0
  {
    if pcs != [] {
      NumberBound(pcs[1..], kind);
      if i :| 0 <= i < |pcs| && pcs[i] !in kind && i > 0 {
        assert pcs[1..][i - 1] !in kind;
      }
    }
  }

  // ----- single attempts

  /** An attempt on its own gets past the check iff no limit is set or it is not reached, and leaves no
      trace if it gives up. */
  lemma AttemptGivenUp(s: State, i: nat)
    requires At(s, i, Idle)
    ensures At(Step(s, Check(i)), i, PastCheck) <==> s.maxRestarts <= 0 || s.count < s.maxRestarts
    ensures Step(Step(s, Check(i)), GiveUp(i)) == s
  {
    assert s.pcs[i := PastCheck][i := Idle] == s.pcs;
  }

  /** If its restart succeeds, it adds one to both counts. */
  lemma AttemptCompleted(s: State, i: nat)
    requires At(s, i, Idle)
    ensures Step(Step(Step(s, Check(i)), Restart(i)), CountUp(i))
            == if s.maxRestarts <= 0 || s.count < s.maxRestarts
               then s.(count := s.count + 1, restarts := s.restarts + 1) else s
  {
    assert s.pcs[i := PastCheck][i := Uncounted][i := Idle] == s.pcs;
  }

  /** A direct restart counts whatever the limit, and changes nothing else for good. */
  lemma DirectRestartCounts(s: State)
    ensures Exec(s, [DirectRestart, DirectCountUp])
            == s.(count := s.count + 1, restarts := s.restarts + 1, direct := s.direct + 1)
    ensures Step(s, DirectRestart).count == s.count
  {
    assert [DirectRestart, DirectCountUp][..1] == [DirectRestart] && [DirectRestart][..0] == [];
    assert Exec(s, [DirectRestart]) == Step(s, DirectRestart);
  }

  /** A new limit decides about the next check, and about nothing else. */
  lemma NewLimitDecides(s: State, m: int, i: nat)
    requires At(s, i, Idle)
    ensures Step(s, SetLimit(m)).(maxRestarts := s.maxRestarts) == s
    ensures At(Step(Step(s, SetLimit(m)), Check(i)), i, PastCheck) <==> m <= 0 || s.count < m
  {
  }

  // ----- the bound

  function InFlight(s: State): nat {
    Number(s.pcs, {PastCheck, Uncounted})
  }

  /** Every limit that is ever in force lies between 1 and M. */
  predicate LimitsWithin(schedule: seq<Action>, M: int) {
    forall i :: 0 <= i < |schedule| && schedule[i].SetLimit? ==> 1 <= schedule[i].m <= M
  }

  ghost predicate Inv(s: State, callers: nat, M: int) {
    && |s.pcs| == callers
    && 1 <= s.maxRestarts <= M
    && s.count + InFlight(s) + s.pending <= M - 1 + callers + s.direct
    && s.restarts == s.count + Number(s.pcs, {Uncounted}) + s.pending
    && s.pending <= s.direct <= s.count + s.pending
  }

  lemma StepKeepsInv(s: State, a: Action, callers: nat, M: int)
    requires Inv(s, callers, M)
    requires a.SetLimit? ==> 1 <= a.m <= M
    ensures Inv(Step(s, a), callers, M)
  {
    if !a.DirectRestart? && !a.DirectCountUp? && !a.SetLimit? && a.i < |s.pcs| {
      NumberUpdate(s.pcs, {PastCheck, Uncounted}, a.i, Step(s, a).pcs[a.i]);
      NumberUpdate(s.pcs, {Uncounted}, a.i, Step(s, a).pcs[a.i]);
      assert s.pcs[a.i := Step(s, a).pcs[a.i]] == Step(s, a).pcs;
      NumberBound(s.pcs, {PastCheck, Uncounted});
    }
  }

  lemma {:induction false} ReachableInv(callers: nat, maxRestarts: int, M: int, schedule: seq<Action>)
    requires 1 <= maxRestarts <= M && LimitsWithin(schedule, M)
    ensures Inv(Exec(Init(callers, maxRestarts), schedule), callers, M)
  {
    var init := Init(callers, maxRestarts);
    if schedule == [] {
      NumberBound(init.pcs, {PastCheck, Uncounted});
      NumberBound(init.pcs, {Uncounted});
    } else {
      var n := |schedule| - 1;
      assert LimitsWithin(schedule[..n], M);
      ReachableInv(callers, maxRestarts, M, schedule[..n]);
      StepKeepsInv(Exec(init, schedule[..n]), schedule[n], callers, M);
    }
  }

  /** In every interleaving, counted restarts plus attempts past the check stay within M - 1 plus the
      number of callers plus the direct restarts; so do the restarts that really happened. */
  lemma RestartBound(callers: nat, maxRestarts: int, M: int, schedule: seq<Action>)
    requires 1 <= maxRestarts <= M && LimitsWithin(schedule, M)
    ensures var s := Exec(Init(callers, maxRestarts), schedule);
            && s.count + InFlight(s) + s.pending <= M - 1 + callers + s.direct
            && s.count <= s.restarts <= M - 1 + callers + s.direct
  {
    ReachableInv(callers, maxRestarts, M, schedule);
    var s := Exec(Init(callers, maxRestarts), schedule);
    UncountedAreInFlight(s.pcs);
  }

  lemma {:induction false} UncountedAreInFlight(pcs: seq<Pc>)
    ensures Number(pcs, {Uncounted}) <= Number(pcs, {PastCheck, Uncounted})
  {
    if pcs != [] { UncountedAreInFlight(pcs[1..]); }
  }

  // ----- the bound is reached

  lemma {:induction false} ExecConcat(s: State, a: seq<Action>, b: seq<Action>)
    ensures Exec(s, a + b) == Exec(Exec(s, a), b)
  {
    if b == [] {
      assert a + b == a;
    } else {
      var n := |b| - 1;
      assert (a + b)[..|a + b| - 1] == a + b[..n];
      ExecConcat(s, a, b[..n]);
    }
  }

  function Rounds(n: nat): seq<Action> {
    if n == 0 then [] else Rounds(n - 1) + [Check(0), Restart(0), CountUp(0)]
  }

  function AllPcs(k: nat, pc: Pc): (pcs: seq<Pc>)
    ensures |pcs| == k && forall i :: 0 <= i < k ==> pcs[i] == pc
  {
    seq(k, _ => pc)
  }

  /** Caller 0 alone completes n restarts while the limit allows it. */
  lemma {:induction false} SoloRounds(callers: nat, M: int, n: nat)
    requires callers >= 1 && n <= M
    ensures Exec(Init(callers, M), Rounds(n)) == State(n, n, 0, 0, M, AllPcs(callers, Idle))
  {
    var init := Init(callers, M);
    if n == 0 {
      assert init.pcs == AllPcs(callers, Idle);
    } else {
      SoloRounds(callers, M, n - 1);
      var s := Exec(init, Rounds(n - 1));
      ExecConcat(init, Rounds(n - 1), [Check(0), Restart(0), CountUp(0)]);
      var s1 := Step(s, Check(0));
      var s2 := Step(s1, Restart(0));
      var s3 := Step(s2, CountUp(0));
      assert s3.pcs == AllPcs(callers, Idle);
      ThreeSteps(s, Check(0), Restart(0), CountUp(0));
    }
  }

  lemma ThreeSteps(s: State, a: Action, b: Action, c: Action)
    ensures Exec(s, [a, b, c]) == Step(Step(Step(s, a), b), c)
  {
    assert [a, b, c][..2] == [a, b] && [a, b][..1] == [a] && [a][..0] == [];
    assert Exec(s, [a]) == Step(Exec(s, []), a);
    assert Exec(s, [a, b]) == Step(Exec(s, [a]), b);
  }

  datatype Phase = Checking | Restarting | Counting

  function PhaseAction(phase: Phase, i: nat): Action {
    match phase case Checking => Check(i) case Restarting => Restart(i) case Counting => CountUp(i)
  }

  function Before(phase: Phase): Pc {
    match phase case Checking => Idle case Restarting => PastCheck case Counting => Uncounted
  }

  function Behind(phase: Phase): Pc {
    match phase case Checking => PastCheck case Restarting => Uncounted case Counting => Idle
  }

  function Sweep(phase: Phase, k: nat): seq<Action> {
    if k == 0 then [] else Sweep(phase, k - 1) + [PhaseAction(phase, k - 1)]
  }

  /** The state after the first k callers have gone through the phase. */
  function Swept(phase: Phase, s: State, k: nat): State
    requires k <= |s.pcs|
  {
    State(s.count + (if phase == Counting then k else 0), s.restarts + (if phase == Restarting then k else 0),
          s.direct, s.pending, s.maxRestarts, AllPcs(k, Behind(phase)) + s.pcs[k..])
  }

  lemma SweepStep(phase: Phase, s: State, k: nat)
    requires k < |s.pcs| && s.pcs[k] == Before(phase)
    requires phase == Checking ==> Permitted(s)
    ensures Step(Swept(phase, s, k), PhaseAction(phase, k)) == Swept(phase, s, k + 1)
  {
    var t := Swept(phase, s, k);
    assert t.pcs[k] == s.pcs[k];
    assert t.pcs[k := Behind(phase)] == AllPcs(k + 1, Behind(phase)) + s.pcs[k + 1..];
  }

  /** All callers take the same step, one after the other. */
  lemma {:induction false} SweepMovesAll(phase: Phase, s: State, k: nat)
    requires k <= |s.pcs| && s.pcs == AllPcs(|s.pcs|, Before(phase))
    requires phase == Checking ==> Permitted(s)
    ensures Exec(s, Sweep(phase, k)) == Swept(phase, s, k)
  {
    if k == 0 {
      assert AllPcs(0, Behind(phase)) + s.pcs[0..] == s.pcs;
    } else {
      SweepMovesAll(phase, s, k - 1);
      SweepStep(phase, s, k - 1);
      var sweep := Sweep(phase, k);
      assert sweep[..|sweep| - 1] == Sweep(phase, k - 1);
    }
  }

  function WorstSchedule(callers: nat, M: int): seq<Action>
    requires M >= 1
  {
    Rounds(M - 1) + (Sweep(Checking, callers) + (Sweep(Restarting, callers) + Sweep(Counting, callers)))
  }

  lemma {:induction false} NoLimitChange(phase: Phase, k: nat, n: nat, M: int)
    ensures LimitsWithin(Sweep(phase, k), M)
    ensures LimitsWithin(Rounds(n), M)
    decreases k + n
  {
    if k > 0 { NoLimitChange(phase, k - 1, n, M); }
    if n > 0 { NoLimitChange(phase, k, n - 1, M); }
  }

  lemma FullSweep(phase: Phase, s: State)
    requires s.pcs == AllPcs(|s.pcs|, Before(phase))
    requires phase == Checking ==> Permitted(s)
    ensures Exec(s, Sweep(phase, |s.pcs|)) ==
            Swept(phase, s, |s.pcs|).(pcs := AllPcs(|s.pcs|, Behind(phase)))
  {
    SweepMovesAll(phase, s, |s.pcs|);
    assert AllPcs(|s.pcs|, Behind(phase)) + s.pcs[|s.pcs|..] == AllPcs(|s.pcs|, Behind(phase));
  }

  lemma ThreeSweeps(s: State)
    requires Permitted(s) && s.pcs == AllPcs(|s.pcs|, Idle)
    ensures var k := |s.pcs|;
            Exec(s, Sweep(Checking, k) + (Sweep(Restarting, k) + Sweep(Counting, k)))
            == s.(count := s.count + k, restarts := s.restarts + k)
  {
    var k := |s.pcs|;
    var s1 := s.(pcs := AllPcs(k, PastCheck));
    var s2 := s.(pcs := AllPcs(k, Uncounted), restarts := s.restarts + k);
    SweepChecks(s);
    SweepRestarts(s1);
    SweepCounts(s2);
    Chain(s, s1, s2, Sweep(Checking, k), Sweep(Restarting, k), Sweep(Counting, k));
  }

  lemma SweepChecks(s: State)
    requires Permitted(s) && s.pcs == AllPcs(|s.pcs|, Idle)
    ensures Exec(s, Sweep(Checking, |s.pcs|)) == s.(pcs := AllPcs(|s.pcs|, PastCheck))
  {
    FullSweep(Checking, s);
  }

  lemma SweepRestarts(s: State)
    requires s.pcs == AllPcs(|s.pcs|, PastCheck)
    ensures Exec(s, Sweep(Restarting, |s.pcs|))
            == s.(pcs := AllPcs(|s.pcs|, Uncounted), restarts := s.restarts + |s.pcs|)
  {
    FullSweep(Restarting, s);
  }

  lemma SweepCounts(s: State)
    requires s.pcs == AllPcs(|s.pcs|, Uncounted)
    ensures Exec(s, Sweep(Counting, |s.pcs|)) == s.(pcs := AllPcs(|s.pcs|, Idle), count := s.count + |s.pcs|)
  {
    FullSweep(Counting, s);
  }

  lemma Chain(s: State, s1: State, s2: State, a: seq<Action>, b: seq<Action>, c: seq<Action>)
    requires Exec(s, a) == s1 && Exec(s1, b) == s2
    ensures Exec(s, a + (b + c)) == Exec(s2, c)
  {
    ExecConcat(s, a, b + c);
    ExecConcat(s1, b, c);
  }

  /** The bound is exact for every limit and every number of callers: one caller restarts M times and
      no more, and each further caller can add one restart. */
  lemma BoundIsReached(callers: nat, M: int)
    requires callers >= 1 && M >= 1
    ensures var s := Exec(Init(callers, M), WorstSchedule(callers, M));
            s.count == s.restarts == M - 1 + callers && s.direct == 0
    ensures LimitsWithin(WorstSchedule(callers, M), M)
  {
    var s := State(M - 1, M - 1, 0, 0, M, AllPcs(callers, Idle));
    var tail := Sweep(Checking, callers) + (Sweep(Restarting, callers) + Sweep(Counting, callers));
    assert Exec(Init(callers, M), Rounds(M - 1)) == s by { SoloRounds(callers, M, M - 1); }
    assert Exec(s, tail) == s.(count := s.count + callers, restarts := s.restarts + callers) by { ThreeSweeps(s); }
    ExecConcat(Init(callers, M), Rounds(M - 1), tail);
    WorstScheduleIsFair(callers, M);
  }

  lemma WorstScheduleIsFair(callers: nat, M: int)
    requires M >= 1
    ensures LimitsWithin(WorstSchedule(callers, M), M)
  {
    NoLimitChange(Checking, callers, M - 1, M);
    NoLimitChange(Restarting, callers, M - 1, M);
    NoLimitChange(Counting, callers, M - 1, M);
  }
}
