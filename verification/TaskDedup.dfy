/** Executor-side deduplication, handleReceivedTask of ponos/pkg/executor/handlers.go: check the store,
    run the task, mark it processed, with the inflight table in between. */
module TaskDedup {
  import opened HexText
  import S = SigningBytes

  datatype Pc =
    | New
    | Checked          // IsTaskProcessed did not say "processed"
    | Running          // in the inflight table, performer at work
    | Ran              // result signed
    | Finishing(ok: bool)  // result or error decided, deferred Delete pending
    | Done(ok: bool)

  /** One call of handleReceivedTask. checkAt and markAt are the times of its two store operations;
      checkErr and markErr say that the operation failed, which the source only logs. beganAt and
      finishedAt are the times of its two operations on the inflight table, -1 before they happen. */
  datatype Request = Request(id: string, pc: Pc, checkAt: int, checkErr: bool, markAt: int, markErr: bool,
                             beganAt: int, finishedAt: int)

  datatype State = State(processed: set<string>, inflight: set<string>, requests: seq<Request>, clock: nat)

  datatype Action =
    | Check(r: nat, err: bool)
    | Reject(r: nat)           // any validation before the run
    | Begin(r: nat)            // inflightTasks.Store
    | Run(r: nat, ok: bool)    // RunTask and signResult
    | Mark(r: nat, err: bool)
    | Finish(r: nat)           // the deferred inflightTasks.Delete

  function NewRequest(id: string): Request { Request(id, New, 0, false, 0, false, -1, -1) }

  function Init(ids: seq<string>): State {
    State({}, {}, seq(|ids|, i requires 0 <= i < |ids| => NewRequest(ids[i])), 0)
  }

  function Put(s: State, r: nat, q: Request): State
    requires r < |s.requests|
  {
    s.(requests := s.requests[r := q], clock := s.clock + 1)
  }

  /** One step of request r; an action that is not possible now changes nothing. */
  function Step(s: State, a: Action): State {
    if a.r >= |s.requests| then s else
    var q := s.requests[a.r];
    match a
    case Check(r, err) =>
      if !q.pc.New? then s
      else if !err && q.id in s.processed then Put(s, r, q.(pc := Done(false)))
      else Put(s, r, q.(pc := Checked, checkAt := s.clock, checkErr := err))
    case Reject(r) => if !q.pc.New? && !q.pc.Checked? then s else Put(s, r, q.(pc := Done(false)))
    case Begin(r) =>
      if !q.pc.Checked? then s else Put(s.(inflight := s.inflight + {q.id}), r, q.(pc := Running, beganAt := s.clock))
    case Run(r, ok) => if !q.pc.Running? then s else Put(s, r, q.(pc := if ok then Ran else Finishing(false)))
    case Mark(r, err) =>
      if !q.pc.Ran? then s
      else Put(s.(processed := if err then s.processed else s.processed + {q.id}), r,
               q.(pc := Finishing(true), markAt := s.clock, markErr := err))
    case Finish(r) =>
      if !q.pc.Finishing? then s
      else Put(s.(inflight := s.inflight - {q.id}), r, q.(pc := Done(q.pc.ok), finishedAt := s.clock))
  }

  function Exec(s: State, schedule: seq<Action>): State {
    if schedule == [] then s
    else Step(Exec(s, schedule[..|schedule| - 1]), schedule[|schedule| - 1])
  }

  lemma {:induction false} ExecConcat(s: State, a: seq<Action>, b: seq<Action>)
    ensures Exec(s, a + b) == Exec(Exec(s, a), b)
  {
    if b == [] {
      assert a + b == a;
    } else {
      assert (a + b)[..|a + b| - 1] == a + b[..|b| - 1];
      ExecConcat(s, a, b[..|b| - 1]);
    }
  }

  // ----- invariants

  predicate Succeeded(q: Request) {
    (q.pc.Finishing? || q.pc.Done?) && q.pc.ok
  }

  /** Past an error-free check: the store did not know the id at checkAt. */
  predicate CheckedClean(q: Request) {
    (q.pc.Checked? || q.pc.Running? || q.pc.Ran? || Succeeded(q)) && !q.checkErr
  }

  predicate MarkedClean(q: Request) {
    Succeeded(q) && !q.markErr
  }

  predicate Active(q: Request) {
    q.pc.Running? || q.pc.Ran? || q.pc.Finishing?
  }

  ghost predicate TimesInPast(s: State) {
    forall r :: 0 <= r < |s.requests| ==>
      var q := s.requests[r];
      && (CheckedClean(q) ==> 0 <= q.checkAt < s.clock)
      && (MarkedClean(q) ==> 0 <= q.markAt < s.clock && q.id in s.processed)
      && (CheckedClean(q) && MarkedClean(q) ==> q.checkAt < q.markAt)
  }

  /** No clean check of an id comes after a clean mark of the same id. */
  ghost predicate ChecksPrecedeMarks(s: State) {
    forall r, u :: 0 <= r < |s.requests| && 0 <= u < |s.requests|
                   && CheckedClean(s.requests[r]) && MarkedClean(s.requests[u])
                   && s.requests[r].id == s.requests[u].id
                   ==> s.requests[r].checkAt < s.requests[u].markAt
  }

  ghost predicate InflightTimes(s: State) {
    forall r :: 0 <= r < |s.requests| ==>
      var q := s.requests[r];
      && -1 <= q.beganAt < s.clock && -1 <= q.finishedAt < s.clock
      && (Active(q) ==> q.finishedAt == -1) && (q.pc.New? || q.pc.Checked? ==> q.beganAt == q.finishedAt == -1)
  }

  /** No call with the same id has done its deferred delete since call r put the id into the table. */
  predicate Undisturbed(s: State, r: nat)
    requires r < |s.requests|
  {
    forall u :: 0 <= u < |s.requests| && s.requests[u].id == s.requests[r].id ==>
      s.requests[u].finishedAt <= s.requests[r].beganAt
  }

  /** Some running call keeps the id in the table. */
  predicate KeepsInflight(s: State, id: string) {
    exists r :: 0 <= r < |s.requests| && Active(s.requests[r]) && s.requests[r].id == id && Undisturbed(s, r)
  }

  ghost predicate InflightExact(s: State) {
    forall id :: id in s.inflight <==> KeepsInflight(s, id)
  }

  ghost predicate IdsKept(s: State, ids: seq<string>) {
    |s.requests| == |ids| && forall r :: 0 <= r < |ids| ==> s.requests[r].id == ids[r]
  }

  ghost predicate Inv(s: State, ids: seq<string>) {
    TimesInPast(s) && ChecksPrecedeMarks(s) && InflightTimes(s) && InflightExact(s) && IdsKept(s, ids)
  }

  lemma StepKeepsInflightTimes(s: State, a: Action)
    requires InflightTimes(s)
    ensures InflightTimes(Step(s, a))
  {
    var s' := Step(s, a);
    forall r | 0 <= r < |s'.requests|
      ensures var q := s'.requests[r];
              && -1 <= q.beganAt < s'.clock && -1 <= q.finishedAt < s'.clock
              && (Active(q) ==> q.finishedAt == -1) && (q.pc.New? || q.pc.Checked? ==> q.beganAt == q.finishedAt == -1)
    {
      assert r != a.r ==> s'.requests[r] == s.requests[r];
    }
  }

  /** Only Begin and Finish matter to the table; the other steps keep what decides about it. */
  lemma OtherStepsKeepTable(s: State, a: Action, id: string)
    requires !a.Begin? && !a.Finish? && InflightTimes(s)
    ensures Step(s, a).inflight == s.inflight
    ensures KeepsInflight(Step(s, a), id) <==> KeepsInflight(s, id)
  {
    var s' := Step(s, a);
    assert |s'.requests| == |s.requests|;
    forall r | 0 <= r < |s.requests|
      ensures Active(s'.requests[r]) == Active(s.requests[r])
      ensures s'.requests[r].id == s.requests[r].id
      ensures s'.requests[r].beganAt == s.requests[r].beganAt && s'.requests[r].finishedAt == s.requests[r].finishedAt
    {
      assert r != a.r ==> s'.requests[r] == s.requests[r];
    }
    forall r | 0 <= r < |s.requests| ensures Undisturbed(s', r) == Undisturbed(s, r) {
    }
    if r :| 0 <= r < |s.requests| && Active(s.requests[r]) && s.requests[r].id == id && Undisturbed(s, r) {
      assert Active(s'.requests[r]) && Undisturbed(s', r);
    }
    if r :| 0 <= r < |s'.requests| && Active(s'.requests[r]) && s'.requests[r].id == id && Undisturbed(s', r) {
      assert Active(s.requests[r]) && Undisturbed(s, r);
    }
  }

  lemma BeginKeepsExact(s: State, b: nat, id: string)
    requires InflightTimes(s) && (id in s.inflight <==> KeepsInflight(s, id))
    requires b < |s.requests| && s.requests[b].pc.Checked?
    ensures id in Step(s, Begin(b)).inflight <==> KeepsInflight(Step(s, Begin(b)), id)
  {
    var s' := Step(s, Begin(b));
    if s.requests[b].id == id {
      assert Active(s'.requests[b]) && Undisturbed(s', b);
    } else {
      forall r | 0 <= r < |s.requests| && s.requests[r].id == id ensures Undisturbed(s', r) == Undisturbed(s, r) {
        forall u | 0 <= u < |s.requests| && s.requests[u].id == id ensures s'.requests[u] == s.requests[u] {
        }
      }
      if r :| 0 <= r < |s.requests| && Active(s.requests[r]) && s.requests[r].id == id && Undisturbed(s, r) {
        assert s'.requests[r] == s.requests[r] && Undisturbed(s', r);
      }
      if r :| 0 <= r < |s'.requests| && Active(s'.requests[r]) && s'.requests[r].id == id && Undisturbed(s', r) {
        assert s'.requests[r] == s.requests[r] && Undisturbed(s, r);
      }
    }
  }

  lemma FinishKeepsExact(s: State, f: nat, id: string)
    requires InflightTimes(s) && (id in s.inflight <==> KeepsInflight(s, id))
    requires f < |s.requests| && s.requests[f].pc.Finishing?
    ensures id in Step(s, Finish(f)).inflight <==> KeepsInflight(Step(s, Finish(f)), id)
  {
    var s' := Step(s, Finish(f));
    if s.requests[f].id == id {
      forall r | 0 <= r < |s'.requests| && Active(s'.requests[r]) && s'.requests[r].id == id ensures !Undisturbed(s', r) {
        assert s'.requests[r] == s.requests[r];
        assert s'.requests[f].finishedAt > s'.requests[r].beganAt;
      }
    } else {
      forall r | 0 <= r < |s.requests| && s.requests[r].id == id ensures Undisturbed(s', r) == Undisturbed(s, r) {
        forall u | 0 <= u < |s.requests| && s.requests[u].id == id ensures s'.requests[u] == s.requests[u] {
        }
      }
      if r :| 0 <= r < |s.requests| && Active(s.requests[r]) && s.requests[r].id == id && Undisturbed(s, r) {
        assert s'.requests[r] == s.requests[r] && Undisturbed(s', r);
      }
      if r :| 0 <= r < |s'.requests| && Active(s'.requests[r]) && s'.requests[r].id == id && Undisturbed(s', r) {
        assert s'.requests[r] == s.requests[r] && Undisturbed(s, r);
      }
    }
  }

  lemma StepKeepsInflight(s: State, a: Action)
    requires InflightTimes(s) && InflightExact(s)
    ensures InflightExact(Step(s, a))
  {
    if Step(s, a) != s {
      forall id ensures id in Step(s, a).inflight <==> KeepsInflight(Step(s, a), id) {
        if a.Begin? {
          BeginKeepsExact(s, a.r, id);
        } else if a.Finish? {
          FinishKeepsExact(s, a.r, id);
        } else {
          OtherStepsKeepTable(s, a, id);
        }
      }
    }
  }

  lemma StepKeepsTimes(s: State, a: Action)
    requires TimesInPast(s)
    ensures TimesInPast(Step(s, a))
  {
    var s' := Step(s, a);
    forall r | 0 <= r < |s'.requests|
      ensures var q := s'.requests[r];
              && (CheckedClean(q) ==> 0 <= q.checkAt < s'.clock)
              && (MarkedClean(q) ==> 0 <= q.markAt < s'.clock && q.id in s'.processed)
              && (CheckedClean(q) && MarkedClean(q) ==> q.checkAt < q.markAt)
    {
      var before := s.requests[r];
      assert r != a.r ==> s'.requests[r] == before;
    }
  }

  lemma StepKeepsOrder(s: State, a: Action)
    requires TimesInPast(s) && ChecksPrecedeMarks(s)
    ensures ChecksPrecedeMarks(Step(s, a))
  {
    var s' := Step(s, a);
    forall r, u | 0 <= r < |s'.requests| && 0 <= u < |s'.requests|
                  && CheckedClean(s'.requests[r]) && MarkedClean(s'.requests[u])
                  && s'.requests[r].id == s'.requests[u].id
      ensures s'.requests[r].checkAt < s'.requests[u].markAt
    {
      var q, p := s.requests[r], s.requests[u];
      assert r != a.r ==> s'.requests[r] == q;
      assert u != a.r ==> s'.requests[u] == p;
    }
  }

  lemma {:induction false} ReachableInv(ids: seq<string>, schedule: seq<Action>)
    ensures Inv(Exec(Init(ids), schedule), ids)
  {
    if schedule != [] {
      var front, a := schedule[..|schedule| - 1], schedule[|schedule| - 1];
      ReachableInv(ids, front);
      var s := Exec(Init(ids), front);
      StepKeepsTimes(s, a);
      StepKeepsOrder(s, a);
      StepKeepsInflightTimes(s, a);
      StepKeepsInflight(s, a);
      assert IdsKept(Step(s, a), ids);
    }
  }

  // ----- main results

  /** Two successful calls for one task id: unless one of the two store operations between them failed,
      the later check came before the earlier mark. */
  lemma DoubleSuccessOverlaps(ids: seq<string>, schedule: seq<Action>, r: nat, u: nat)
    requires r < |ids| && u < |ids| && r != u && ids[r] == ids[u]
    ensures var s := Exec(Init(ids), schedule);
            && |s.requests| == |ids|
            && (Succeeded(s.requests[r]) && Succeeded(s.requests[u]) ==>
                  s.requests[r].checkErr || s.requests[u].markErr || s.requests[r].checkAt < s.requests[u].markAt)
  {
    ReachableInv(ids, schedule);
  }

  predicate ErrorFreeStore(schedule: seq<Action>) {
    forall i :: 0 <= i < |schedule| ==> (schedule[i].Check? || schedule[i].Mark?) ==> !schedule[i].err
  }

  lemma {:induction false} NoErrorsRecorded(ids: seq<string>, schedule: seq<Action>)
    requires ErrorFreeStore(schedule)
    ensures forall r :: 0 <= r < |Exec(Init(ids), schedule).requests| ==>
              var q := Exec(Init(ids), schedule).requests[r]; !q.checkErr && !q.markErr
  {
    if schedule != [] {
      var front := schedule[..|schedule| - 1];
      assert forall i :: 0 <= i < |front| ==> front[i] == schedule[i];
      NoErrorsRecorded(ids, front);
    }
  }

  /** With a store that never fails, calls whose check-to-mark windows do not overlap succeed at most
      once per task id. */
  lemma SequentialCallsSucceedOnce(ids: seq<string>, schedule: seq<Action>, r: nat, u: nat)
    requires r < |ids| && u < |ids| && r != u && ids[r] == ids[u] && ErrorFreeStore(schedule)
    ensures var s := Exec(Init(ids), schedule);
            && |s.requests| == |ids|
            && (Succeeded(s.requests[r]) && Succeeded(s.requests[u]) ==>
                  s.requests[r].checkAt < s.requests[u].markAt && s.requests[u].checkAt < s.requests[r].markAt)
  {
    ReachableInv(ids, schedule);
    NoErrorsRecorded(ids, schedule);
  }

  /** The id is in the store and the call has not been checked yet, or has been refused. */
  predicate Late(s: State, u: nat) {
    && u < |s.requests| && s.requests[u].id in s.processed
    && (s.requests[u].pc == New || s.requests[u].pc == Done(false))
  }

  lemma StepKeepsLate(s: State, a: Action, u: nat)
    requires Late(s, u) && (a.Check? ==> !a.err)
    ensures Late(Step(s, a), u) && |Step(s, a).requests| == |s.requests|
  {
    assert a.r != u ==> u < |Step(s, a).requests| && Step(s, a).requests[u] == s.requests[u];
  }

  /** Once the id is in the store, a call that has not been checked yet does not succeed any more. */
  lemma {:induction false} LateStaysLate(s: State, back: seq<Action>, u: nat)
    requires Late(s, u) && ErrorFreeStore(back)
    ensures Late(Exec(s, back), u) && |Exec(s, back).requests| == |s.requests|
  {
    if back != [] {
      var n := |back| - 1;
      assert forall i :: 0 <= i < n ==> back[..n][i] == back[i];
      LateStaysLate(s, back[..n], u);
      StepKeepsLate(Exec(s, back[..n]), back[n], u);
    }
  }

  /** In terms of steps alone: after a call for an id has succeeded with its mark in the store, no call for
      that id that starts later succeeds, whatever else is going on, as long as the store works. */
  lemma SuccessIsFinal(ids: seq<string>, front: seq<Action>, back: seq<Action>, r: nat, u: nat)
    requires r < |ids| && u < |ids| && ids[r] == ids[u] && ErrorFreeStore(front) && ErrorFreeStore(back)
    requires |Exec(Init(ids), front).requests| == |ids|
    requires Succeeded(Exec(Init(ids), front).requests[r]) && Exec(Init(ids), front).requests[u].pc == New
    ensures var e := Exec(Init(ids), front + back);
            |e.requests| == |ids| && !Succeeded(e.requests[u])
  {
    ReachableInv(ids, front);
    NoErrorsRecorded(ids, front);
    ExecConcat(Init(ids), front, back);
    LateStaysLate(Exec(Init(ids), front), back, u);
  }

  /** The recorded times are those of the steps themselves. */
  lemma TimesAreStepTimes(s: State, r: nat)
    requires r < |s.requests|
    ensures var q, s' := s.requests[r], Step(s, Check(r, true));
            q.pc.New? ==> s'.requests[r].checkAt == s.clock < s'.clock
    ensures var q, s' := s.requests[r], Step(s, Check(r, false));
            q.pc.New? && q.id !in s.processed ==> s'.requests[r].checkAt == s.clock < s'.clock
    ensures forall err :: s.requests[r].pc.Ran? ==>
              var s' := Step(s, Mark(r, err));
              s'.requests[r].markAt == s.clock < s'.clock && s'.requests[r].checkAt == s.requests[r].checkAt
    ensures s.requests[r].pc.Checked? ==> Step(s, Begin(r)).requests[r].beganAt == s.clock < Step(s, Begin(r)).clock
    ensures s.requests[r].pc.Finishing? ==> Step(s, Finish(r)).requests[r].finishedAt == s.clock < Step(s, Finish(r)).clock
  {
  }

  predicate Quiescent(s: State) {
    forall r :: 0 <= r < |s.requests| ==> s.requests[r].pc.New? || s.requests[r].pc.Done?
  }

  /** In every schedule the inflight table holds exactly the ids of those running calls since whose start
      no call with the same id has finished: a finishing call takes out the id of all others. */
  lemma InflightIff(ids: seq<string>, schedule: seq<Action>, id: string)
    ensures var s := Exec(Init(ids), schedule); id in s.inflight <==> KeepsInflight(s, id)
  {
    ReachableInv(ids, schedule);
  }

  /** Hence it holds ids of running calls only, and nothing once all calls have returned. */
  lemma InflightOnlyRunning(ids: seq<string>, schedule: seq<Action>)
    ensures var s := Exec(Init(ids), schedule);
            && (forall id :: id in s.inflight ==>
                  exists r :: 0 <= r < |s.requests| && Active(s.requests[r]) && s.requests[r].id == id)
            && (Quiescent(s) ==> s.inflight == {})
  {
    ReachableInv(ids, schedule);
  }

  predicate Distinct(ids: seq<string>) {
    forall r, u :: 0 <= r < |ids| && 0 <= u < |ids| && ids[r] == ids[u] ==> r == u
  }

  /** And with distinct ids it holds the id of every running call. */
  lemma InflightExactForDistinctIds(ids: seq<string>, schedule: seq<Action>)
    requires Distinct(ids)
    ensures var s := Exec(Init(ids), schedule);
            |s.requests| == |ids| && forall r :: 0 <= r < |ids| ==> (ids[r] in s.inflight <==> Active(s.requests[r]))
  {
    ReachableInv(ids, schedule);
    var s := Exec(Init(ids), schedule);
    forall r | 0 <= r < |ids| ensures ids[r] in s.inflight <==> Active(s.requests[r]) {
      assert s.requests[r].id == ids[r];
      if Active(s.requests[r]) {
        assert Undisturbed(s, r);
        assert KeepsInflight(s, ids[r]);
      }
    }
  }

  // ----- witnesses

  lemma Extend(init: State, schedule: seq<Action>, s: State, a: Action)
    returns (schedule': seq<Action>, s': State)
    requires Exec(init, schedule) == s
    ensures schedule' == schedule + [a] && s' == Step(s, a) && Exec(init, schedule') == s'
  {
    schedule', s' := schedule + [a], Step(s, a);
    assert schedule'[..|schedule'| - 1] == schedule;
  }

  /** Overlapping calls for one id do both succeed, even with a store that never fails; and while the
      second still runs, the first one's deferred delete has taken their common id out of the table. */
  lemma OverlapSucceedsTwice(id: string) returns (schedule: seq<Action>, middle: seq<Action>)
    ensures ErrorFreeStore(schedule) && middle <= schedule
    ensures var s := Exec(Init([id, id]), schedule);
            |s.requests| == 2 && Succeeded(s.requests[0]) && Succeeded(s.requests[1])
    ensures var m := Exec(Init([id, id]), middle);
            |m.requests| == 2 && Active(m.requests[1]) && id !in m.inflight
  {
    var init := Init([id, id]);
    var s := init;
    schedule := [];
    schedule, s := Extend(init, schedule, s, Check(0, false));
    schedule, s := Extend(init, schedule, s, Check(1, false));
    schedule, s := Extend(init, schedule, s, Begin(0));
    schedule, s := Extend(init, schedule, s, Begin(1));
    schedule, s := Extend(init, schedule, s, Run(0, true));
    schedule, s := Extend(init, schedule, s, Mark(0, false));
    schedule, s := Extend(init, schedule, s, Finish(0));
    middle := schedule;
    schedule, s := Extend(init, schedule, s, Run(1, true));
    schedule, s := Extend(init, schedule, s, Mark(1, false));
  }

  /** It does not matter to an id whether its calls saw a delete, only whether the last delete came after
      the last start: here a call finishes after call 0 began, a third one begins, and the id is back. */
  lemma LaterCallRestoresEntry(id: string) returns (schedule: seq<Action>)
    ensures var s := Exec(Init([id, id, id]), schedule);
            && |s.requests| == 3 && Active(s.requests[0]) && id in s.inflight
            && s.requests[1].finishedAt > s.requests[0].beganAt >= 0
  {
    var init := Init([id, id, id]);
    var s := init;
    schedule := [];
    schedule, s := Extend(init, schedule, s, Check(0, false));
    schedule, s := Extend(init, schedule, s, Check(1, false));
    schedule, s := Extend(init, schedule, s, Check(2, false));
    schedule, s := Extend(init, schedule, s, Begin(0));
    schedule, s := Extend(init, schedule, s, Begin(1));
    schedule, s := Extend(init, schedule, s, Run(1, false));
    schedule, s := Extend(init, schedule, s, Finish(1));
    schedule, s := Extend(init, schedule, s, Begin(2));
  }

  // ----- one call after the other

  function WholeCall(r: nat): (s: seq<Action>)
    ensures |s| == 5
  {
    [Check(r, false), Begin(r), Run(r, true), Mark(r, false), Finish(r)]
  }

  /** An undisturbed call on a store that works succeeds exactly if its id is new to the store. */
  lemma WholeCallSucceedsIff(s: State, r: nat)
    requires r < |s.requests| && s.requests[r].pc == New
    ensures var e, id := Exec(s, WholeCall(r)), s.requests[r].id;
            && |e.requests| == |s.requests|
            && e.requests[r].pc == Done(id !in s.processed)
            && (forall u :: 0 <= u < |s.requests| && u != r ==> e.requests[u] == s.requests[u])
            && e.processed == s.processed + {id}
  {
    var w := WholeCall(r);
    var s1 := Step(s, w[0]);
    var s2 := Step(s1, w[1]);
    var s3 := Step(s2, w[2]);
    var s4 := Step(s3, w[3]);
    var s5 := Step(s4, w[4]);
    assert w[..5] == w && w[..4][..3] == w[..3] && w[..3][..2] == w[..2] && w[..2][..1] == w[..1] && w[..1][..0] == [];
    assert Exec(s, w[..1]) == s1;
    assert Exec(s, w[..2]) == s2;
    assert Exec(s, w[..3]) == s3;
    assert Exec(s, w[..4]) == s4;
    assert Exec(s, w) == s5;
  }

  /** Two accepted requests that carry one signed message have ids that agree up to letter case, and the
      store knows ids by their exact spelling: when such requests are handled one after the other, on a
      store that never fails, both succeed if and only if the ids are spelled differently. */
  lemma OneSuccessPerSpelling(keccak: S.Keccak, s: S.Submission, t: S.Submission)
    requires S.ValidateTaskSubmission(s).None? && S.ValidateTaskSubmission(t).None?
    requires S.SubmissionWords(S.DataOf(keccak, s)) == S.SubmissionWords(S.DataOf(keccak, t))
    ensures EqualFold(s.taskId, t.taskId)
    ensures var e := Exec(Init([s.taskId, t.taskId]), WholeCall(0) + WholeCall(1));
            && |e.requests| == 2 && Succeeded(e.requests[0])
            && (Succeeded(e.requests[1]) <==> s.taskId != t.taskId)
  {
    S.AcceptedSubmissionsIff(keccak, s, t);
    var init := Init([s.taskId, t.taskId]);
    var middle := Exec(init, WholeCall(0));
    WholeCallSucceedsIff(init, 0);
    WholeCallSucceedsIff(middle, 1);
    ExecConcat(init, WholeCall(0), WholeCall(1));
  }

  // ----- the handler as one goroutine runs it

  datatype Submission = Submission(taskId: string, avsAddress: string, executorAddress: string)

  datatype HandlerError =
    | EmptyAvsAddress | AlreadyProcessed | EmptyExecutorAddress | ExecutorMismatch | NotInOperatorSet
    | BadSignature | NoPerformer | RunFailed | SignFailed

  datatype Verdict = Accepted(taskId: string, operator: string, avsAddress: string) | Rejected(error: HandlerError)

  /** Results of the calls the handler makes, in order. */
  datatype Calls = Calls(checkErr: bool, inOperatorSet: bool, signatureOk: bool, runOk: bool,
                         responseTaskId: string, signOk: bool, markErr: bool)

  /** The checks between the store lookup and the run, in the order of the source. */
  function Gate(t: Submission, operator: string, performers: set<string>, c: Calls): (e: set<HandlerError>) {
    if t.executorAddress == "" then {EmptyExecutorAddress}
    else if !EqualFold(t.executorAddress, operator) then {ExecutorMismatch}
    else if !c.inOperatorSet then {NotInOperatorSet}
    else if !c.signatureOk then {BadSignature}
    else if ToLower(t.avsAddress) !in performers then {NoPerformer}
    else {}
  }

  /** The handler's verdict ends the call at one of five places. */
  datatype Ending = Unaddressed | Seen | Gated | NotRun | Answered

  function EndingOf(t: Submission, operator: string, performers: set<string>, processed: set<string>, c: Calls): Ending {
    if t.avsAddress == "" then Unaddressed
    else if !c.checkErr && t.taskId in processed then Seen
    else if Gate(t, operator, performers, c) != {} then Gated
    else if c.runOk && c.signOk then Answered
    else NotRun
  }

  function ProcessedAfter(e: Ending, processed: set<string>, id: string, markErr: bool): set<string> {
    if e == Answered && !markErr then processed + {id} else processed
  }

  function InflightAfter(e: Ending, inflight: set<string>, id: string): set<string> {
    if e == Answered || e == NotRun then inflight - {id} else inflight
  }

  class Executor {
    var processed: set<string>
    var inflight: set<string>
    var performers: set<string>
    const operator: string

    constructor (operator: string)
      ensures this.operator == operator && processed == {} && inflight == {} && performers == {}
    {
      this.operator := operator;
      processed, inflight, performers := {}, {}, {};
    }

    method HandleReceivedTask(t: Submission, c: Calls) returns (v: Verdict)
      modifies this`processed, this`inflight
      ensures v.Accepted? <==>
              && t.avsAddress != "" && (c.checkErr || t.taskId !in old(processed))
              && t.executorAddress != "" && EqualFold(t.executorAddress, operator)
              && c.inOperatorSet && c.signatureOk && ToLower(t.avsAddress) in performers
              && c.runOk && c.signOk
      ensures v.Accepted? ==> v == Accepted(c.responseTaskId, operator, ToLower(t.avsAddress))
      ensures var addressed := t.avsAddress != "";
              var unseen := addressed && (c.checkErr || t.taskId !in old(processed));
              var named := unseen && t.executorAddress != "";
              var mine := named && EqualFold(t.executorAddress, operator);
              var member := mine && c.inOperatorSet;
              var signed := member && c.signatureOk;
              var served := signed && ToLower(t.avsAddress) in performers;
              && (v == Rejected(EmptyAvsAddress) <==> !addressed)
              && (v == Rejected(AlreadyProcessed) <==> addressed && !unseen)
              && (v == Rejected(EmptyExecutorAddress) <==> unseen && !named)
              && (v == Rejected(ExecutorMismatch) <==> named && !mine)
              && (v == Rejected(NotInOperatorSet) <==> mine && !member)
              && (v == Rejected(BadSignature) <==> member && !signed)
              && (v == Rejected(NoPerformer) <==> signed && !served)
              && (v == Rejected(RunFailed) <==> served && !c.runOk)
              && (v == Rejected(SignFailed) <==> served && c.runOk && !c.signOk)
      ensures processed == old(processed) + (if v.Accepted? && !c.markErr then {t.taskId} else {})
      ensures inflight == old(inflight)
                          - (if v.Accepted? || v == Rejected(RunFailed) || v == Rejected(SignFailed) then {t.taskId} else {})
      ensures v.Accepted? <==> EndingOf(t, operator, performers, old(processed), c) == Answered
      ensures v == Rejected(RunFailed) || v == Rejected(SignFailed) <==>
              EndingOf(t, operator, performers, old(processed), c) == NotRun
      ensures var e := EndingOf(t, operator, performers, old(processed), c);
              && processed == ProcessedAfter(e, old(processed), t.taskId, c.markErr)
              && inflight == InflightAfter(e, old(inflight), t.taskId)
    {
      if t.avsAddress == "" { return Rejected(EmptyAvsAddress); }
      if !c.checkErr && t.taskId in processed { return Rejected(AlreadyProcessed); }
      if t.executorAddress == "" { return Rejected(EmptyExecutorAddress); }
      if !EqualFold(t.executorAddress, operator) { return Rejected(ExecutorMismatch); }
      if !c.inOperatorSet { return Rejected(NotInOperatorSet); }
      if !c.signatureOk { return Rejected(BadSignature); }
      var avsAddress := ToLower(t.avsAddress);
      if avsAddress !in performers { return Rejected(NoPerformer); }
      inflight := inflight + {t.taskId};
      if !c.runOk {
        v := Rejected(RunFailed);
      } else if !c.signOk {
        v := Rejected(SignFailed);
      } else {
        v := Accepted(c.responseTaskId, operator, avsAddress);
        if !c.markErr { processed := processed + {t.taskId}; }
      }
      inflight := inflight - {t.taskId};
    }
  }

  // ----- class and protocol describe the same code

  /** A step that request 0 can take in this one call. */
  predicate OfThisCall(a: Action, t: Submission, gated: bool, c: Calls) {
    && a.r == 0
    && match a
       case Check(_, err) => t.avsAddress != "" && err == c.checkErr
       case Reject(_) => t.avsAddress == "" || gated
       case Begin(_) => !gated
       case Run(_, ok) => ok == (c.runOk && c.signOk)
       case Mark(_, err) => err == c.markErr
       case Finish(_) => true
  }

  /** The state of an undisturbed call, from its program counter; e is the ending it is heading for. */
  ghost predicate MidCall(s: State, t: Submission, e: Ending, gated: bool, c: Calls, processed: set<string>, inflight: set<string>) {
    && |s.requests| == 1
    && var q := s.requests[0];
       && q.id == t.taskId
       && match q.pc
          case New => s.processed == processed && s.inflight == inflight
          case Checked => e != Unaddressed && e != Seen && s.processed == processed && s.inflight == inflight
          case Running => (e == Answered || e == NotRun) && s.processed == processed && s.inflight == inflight + {q.id}
          case Ran => e == Answered && s.processed == processed && s.inflight == inflight + {q.id}
          case Finishing(ok) =>
            && e == (if ok then Answered else NotRun)
            && s.processed == ProcessedAfter(e, processed, q.id, c.markErr) && s.inflight == inflight + {q.id}
          case Done(ok) =>
            && ok == (e == Answered)
            && s.processed == ProcessedAfter(e, processed, q.id, c.markErr)
            && s.inflight == InflightAfter(e, inflight, q.id)
  }

  lemma StepKeepsMidCall(s: State, a: Action, t: Submission, operator: string, performers: set<string>, c: Calls,
                         processed: set<string>, inflight: set<string>)
    requires var e, gated := EndingOf(t, operator, performers, processed, c), Gate(t, operator, performers, c) != {};
             MidCall(s, t, e, gated, c, processed, inflight) && OfThisCall(a, t, gated, c)
    ensures var e, gated := EndingOf(t, operator, performers, processed, c), Gate(t, operator, performers, c) != {};
            MidCall(Step(s, a), t, e, gated, c, processed, inflight)
  {
    if a.Finish? {
      assert (inflight + {t.taskId}) - {t.taskId} == inflight - {t.taskId};
    }
  }

  function SoloStart(processed: set<string>, inflight: set<string>, id: string): State {
    State(processed, inflight, [NewRequest(id)], 0)
  }

  /** Run without interference, a call that has returned changed the two tables exactly as the handler does
      and ended with success exactly when it answers, in whatever way its steps were scheduled. */
  lemma {:induction false} AnySoloScheduleHandles(t: Submission, operator: string, performers: set<string>, c: Calls,
                                                  processed: set<string>, inflight: set<string>, schedule: seq<Action>)
    requires forall i :: 0 <= i < |schedule| ==> OfThisCall(schedule[i], t, Gate(t, operator, performers, c) != {}, c)
    ensures var s, e := Exec(SoloStart(processed, inflight, t.taskId), schedule), EndingOf(t, operator, performers, processed, c);
            && MidCall(s, t, e, Gate(t, operator, performers, c) != {}, c, processed, inflight)
            && (s.requests[0].pc.Done? ==>
                  && s.processed == ProcessedAfter(e, processed, t.taskId, c.markErr)
                  && s.inflight == InflightAfter(e, inflight, t.taskId)
                  && s.requests[0].pc.ok == (e == Answered))
  {
    if schedule != [] {
      var front := schedule[..|schedule| - 1];
      AnySoloScheduleHandles(t, operator, performers, c, processed, inflight, front);
      StepKeepsMidCall(Exec(SoloStart(processed, inflight, t.taskId), front), schedule[|schedule| - 1], t, operator,
                       performers, c, processed, inflight);
    }
  }

  /** All steps of the call in order; those that do not apply change nothing. */
  function SoloScript(t: Submission, gated: bool, c: Calls): (s: seq<Action>)
    ensures |s| == 5
  {
    [if t.avsAddress == "" then Reject(0) else Check(0, c.checkErr), if gated then Reject(0) else Begin(0),
     Run(0, c.runOk && c.signOk), Mark(0, c.markErr), Finish(0)]
  }

  function Progress(pc: Pc): nat {
    match pc
    case New => 0
    case Checked => 1
    case Running => 2
    case Ran => 3
    case Finishing(_) => 4
    case Done(_) => 5
  }

  lemma {:induction false} ScriptAdvances(t: Submission, gated: bool, c: Calls, s: State, k: nat)
    requires |s.requests| == 1 && k <= 5
    ensures var e := Exec(s, SoloScript(t, gated, c)[..k]); |e.requests| == 1 && Progress(e.requests[0].pc) >= k
  {
    var script := SoloScript(t, gated, c)[..k];
    if k > 0 {
      ScriptAdvances(t, gated, c, s, k - 1);
      assert script[..k - 1] == SoloScript(t, gated, c)[..k - 1];
    }
  }

  /** And such a schedule that returns exists, for any results of the calls. */
  lemma SoloCallIsASchedule(t: Submission, operator: string, performers: set<string>, c: Calls,
                            processed: set<string>, inflight: set<string>)
    ensures var gated := Gate(t, operator, performers, c) != {};
            var s := Exec(SoloStart(processed, inflight, t.taskId), SoloScript(t, gated, c));
            var e := EndingOf(t, operator, performers, processed, c);
            && |s.requests| == 1 && s.requests[0].pc == Done(e == Answered)
            && s.processed == ProcessedAfter(e, processed, t.taskId, c.markErr)
            && s.inflight == InflightAfter(e, inflight, t.taskId)
  {
    var gated := Gate(t, operator, performers, c) != {};
    var script := SoloScript(t, gated, c);
    ScriptAdvances(t, gated, c, SoloStart(processed, inflight, t.taskId), 5);
    assert script[..5] == script;
    AnySoloScheduleHandles(t, operator, performers, c, processed, inflight, script);
  }
}
