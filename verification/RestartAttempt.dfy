/** One restart attempt, twice: attemptRestart of ponos/pkg/containerManager/dockerManager.go and
    RestartManager.AttemptRestart of restartManager.go with EventManager.SendEvent of eventManager.go. */
module RestartAttempt {
  import B = Backoff
  import opened Wrappers

  datatype EventType = Restarting | Restarted | RestartFailed

  datatype RestartPolicy = RestartPolicy(enabled: bool, maxRestarts: int, backoff: B.Policy)

  datatype CallResult = CallOk | NoSuchContainer | CallError

  /** What the surroundings do during one attempt: where a select statement takes its ctx.Done branch,
      and how the Docker restart call ends. */
  datatype Surroundings = Surroundings(
    doneAtDenial: bool, doneInDelay: bool, doneAtRestarting: bool, doneAtOutcome: bool, call: CallResult)

  /** What an observer sees of one attempt; `sent` lists the events whose select did not end by ctx.Done. */
  datatype Outcome = Outcome(failed: bool, delay: int, sent: seq<EventType>, call: Option<CallResult>)

  predicate LimitReached(p: RestartPolicy, count: nat) {
    p.maxRestarts > 0 && count >= p.maxRestarts
  }

  function Delay(p: RestartPolicy, count: nat): int {
    B.RestartDelay(p.backoff, count)
  }

  function Inlined(p: RestartPolicy, count: nat, w: Surroundings): Outcome {
    var delay := Delay(p, count);
    if LimitReached(p, count) then Outcome(true, 0, [RestartFailed], None)
    else if delay > 0 && w.doneInDelay then Outcome(true, delay, [], None)
    else if w.doneAtRestarting then Outcome(true, delay, [], None)
    else if w.doneAtOutcome then Outcome(true, delay, [Restarting], Some(w.call))
    else match w.call
      case CallOk => Outcome(false, delay, [Restarting, Restarted], Some(CallOk))
      case NoSuchContainer => Outcome(false, delay, [Restarting, RestartFailed], Some(NoSuchContainer))
      case CallError => Outcome(true, delay, [Restarting, RestartFailed], Some(CallError))
  }

  function Managed(p: RestartPolicy, count: nat, w: Surroundings): Outcome {
    var delay := Delay(p, count);
    if !p.enabled || LimitReached(p, count) then
      Outcome(true, 0, if w.doneAtDenial then [] else [RestartFailed], None)
    else if delay > 0 && w.doneInDelay then Outcome(true, delay, [], None)
    else
      var first := if w.doneAtRestarting then [] else [Restarting];
      var second := if w.doneAtOutcome then [] else [if w.call == CallOk then Restarted else RestartFailed];
      Outcome(w.call == CallError, delay, first + second, Some(w.call))
  }

  const CHANNEL_CAPACITY := 10

  /** What the channel holds after non-blocking sends: as many of the events as fit, in their order. */
  function Delivered(channel: seq<EventType>, es: seq<EventType>): (after: seq<EventType>)
    requires |channel| <= CHANNEL_CAPACITY
    ensures |after| <= CHANNEL_CAPACITY
  {
    var room := CHANNEL_CAPACITY - |channel|;
    channel + (if |es| <= room then es else es[..room])
  }

  function Counted(o: Outcome): nat {
    if o.call == Some(CallOk) then 1 else 0
  }

  /** containerMonitor with the two ways of restarting its container. */
  class ContainerMonitor {
    var restartCount: nat
    var restartPolicy: RestartPolicy
    var eventChan: seq<EventType>

    ghost predicate Valid()
      reads this
    {
      |eventChan| <= CHANNEL_CAPACITY
    }

    constructor (policy: RestartPolicy)
      ensures Valid() && restartCount == 0 && restartPolicy == policy && eventChan == []
    {
      restartCount, restartPolicy, eventChan := 0, policy, [];
    }

    /** The select statement around every send. It never waits, and it puts the event behind everything
        already in the channel exactly when there is room and it does not take its ctx.Done case. */
    method Send(e: EventType, done: bool)
      requires Valid()
      modifies this`eventChan
      ensures Valid()
      ensures eventChan == old(eventChan) + [e] <==> !done && |old(eventChan)| < 10
      ensures eventChan == old(eventChan) || eventChan == old(eventChan) + [e]
    {
      if !done && |eventChan| < CHANNEL_CAPACITY { eventChan := eventChan + [e]; }
    }

    /** RestartContainer: Docker restarts, then the registered monitor counts it. */
    method RestartContainer(call: CallResult)
      modifies this`restartCount
      ensures restartCount == old(restartCount) + (if call == CallOk then 1 else 0)
    {
      if call != CallOk { return; }
      restartCount := restartCount + 1;
    }

    method AttemptRestartInlined(w: Surroundings) returns (failed: bool)
      requires Valid()
      modifies this`restartCount, this`eventChan
      ensures Valid()
      ensures var limit := 0 < restartPolicy.maxRestarts <= old(restartCount);
              var waits := B.RestartDelay(restartPolicy.backoff, old(restartCount)) > 0 && w.doneInDelay;
              && (failed <==> limit || waits || w.doneAtRestarting || w.doneAtOutcome || w.call == CallError)
              && restartCount == old(restartCount)
                 + (if !limit && !waits && !w.doneAtRestarting && w.call == CallOk then 1 else 0)
              && eventChan == Delivered(old(eventChan),
                   if limit then [RestartFailed]
                   else if waits || w.doneAtRestarting then []
                   else if w.doneAtOutcome then [Restarting]
                   else if w.call == CallOk then [Restarting, Restarted] else [Restarting, RestartFailed])
      ensures var o := Inlined(restartPolicy, old(restartCount), w);
              && failed == o.failed
              && eventChan == Delivered(old(eventChan), o.sent)
              && restartCount == old(restartCount) + Counted(o)
    {
      if restartPolicy.maxRestarts > 0 && restartCount >= restartPolicy.maxRestarts {
        Send(RestartFailed, false);
        return true;
      }
      var delay := B.CalculateRestartDelay(restartPolicy.backoff, restartCount);
      if delay > 0 {
        if w.doneInDelay { return true; }
      }
      Send(Restarting, w.doneAtRestarting);
      if w.doneAtRestarting { return true; }
      RestartContainer(w.call);
      if w.call != CallOk {
        Send(RestartFailed, w.doneAtOutcome);
        if w.doneAtOutcome { return true; }
        return w.call == CallError;
      }
      Send(Restarted, w.doneAtOutcome);
      return w.doneAtOutcome;
    }

    method AttemptRestartManaged(w: Surroundings) returns (failed: bool)
      requires Valid()
      modifies this`restartCount, this`eventChan
      ensures Valid()
      ensures var denied := !restartPolicy.enabled || 0 < restartPolicy.maxRestarts <= old(restartCount);
              var waits := B.RestartDelay(restartPolicy.backoff, old(restartCount)) > 0 && w.doneInDelay;
              && (failed <==> denied || waits || w.call == CallError)
              && restartCount == old(restartCount) + (if !denied && !waits && w.call == CallOk then 1 else 0)
              && eventChan == Delivered(old(eventChan),
                   if denied then (if w.doneAtDenial then [] else [RestartFailed])
                   else if waits then []
                   else (if w.doneAtRestarting then [] else [Restarting])
                        + (if w.doneAtOutcome then [] else if w.call == CallOk then [Restarted] else [RestartFailed]))
      ensures var o := Managed(restartPolicy, old(restartCount), w);
              && failed == o.failed
              && eventChan == Delivered(old(eventChan), o.sent)
              && restartCount == old(restartCount) + Counted(o)
    {
      var allowed, delay := ShouldRestart();
      if !allowed {
        Send(RestartFailed, w.doneAtDenial);
        return true;
      }
      if delay > 0 {
        if w.doneInDelay { return true; }
      }
      Send(Restarting, w.doneAtRestarting);
      RestartContainer(w.call);
      if w.call != CallOk {
        Send(RestartFailed, w.doneAtOutcome);
        return w.call == CallError;
      }
      Send(Restarted, w.doneAtOutcome);
      return false;
    }

    method ShouldRestart() returns (allowed: bool, delay: int)
      ensures allowed <==> restartPolicy.enabled && (restartPolicy.maxRestarts <= 0 || restartCount < restartPolicy.maxRestarts)
      ensures delay == if allowed then B.RestartDelay(restartPolicy.backoff, restartCount) else 0
    {
      if !restartPolicy.enabled { return false, 0; }
      if restartPolicy.maxRestarts > 0 && restartCount >= restartPolicy.maxRestarts { return false, 0; }
      delay := B.CalculateRestartDelay(restartPolicy.backoff, restartCount);
      return true, delay;
    }
  }

  // ----- equivalence

  /** Where the two attempts agree. A denial at the limit must get to its send; a disabled policy makes
      them differ unless both end for the context before anything was sent; and an attempt under an
      enabled policy must not give up a send for the context while it goes on. */
  predicate SameConditions(p: RestartPolicy, count: nat, w: Surroundings) {
    if LimitReached(p, count) then !w.doneAtDenial
    else if !p.enabled then w.doneAtDenial && w.doneAtRestarting && Delay(p, count) == 0
    else (Delay(p, count) > 0 && w.doneInDelay)
         || (!w.doneAtRestarting && (w.doneAtOutcome ==> w.call == CallError))
  }

  lemma AttemptsAgreeIff(p: RestartPolicy, count: nat, w: Surroundings)
    ensures Inlined(p, count, w) == Managed(p, count, w) <==> SameConditions(p, count, w)
  {
    if !LimitReached(p, count) && p.enabled && !(Delay(p, count) > 0 && w.doneInDelay) {
      var m, i := Managed(p, count, w), Inlined(p, count, w);
      if w.doneAtRestarting {
        assert i.call != m.call;
      } else if w.doneAtOutcome {
        assert [Restarting] + [] == [Restarting];
      } else {
        var last := if w.call == CallOk then Restarted else RestartFailed;
        assert [Restarting] + [last] == [Restarting, last];
      }
    }
  }

  /** At the limit, with room in the channel and the context already ended, the observer of the events
      sees the refusal of one implementation and may miss that of the other. */
  lemma DenialCanBeSilent(p: RestartPolicy, count: nat, w: Surroundings, channel: seq<EventType>)
    requires LimitReached(p, count) && w.doneAtDenial && |channel| < CHANNEL_CAPACITY
    ensures Delivered(channel, Inlined(p, count, w).sent) == channel + [RestartFailed]
    ensures Delivered(channel, Managed(p, count, w).sent) == channel
    ensures Inlined(p, count, w).failed && Managed(p, count, w).failed
  {
    assert channel + [] == channel;
  }

  /** One way of attempting a restart, as a function of the restart count and the surroundings. */
  type Attempter = (nat, Surroundings) -> Outcome

  function InlinedBy(p: RestartPolicy): Attempter {
    (count: nat, w: Surroundings) => Inlined(p, count, w)
  }

  function ManagedBy(p: RestartPolicy): Attempter {
    (count: nat, w: Surroundings) => Managed(p, count, w)
  }

  /** The outcomes of a run of attempts on one monitor. */
  function Outcomes(f: Attempter, count: nat, ws: seq<Surroundings>): (os: seq<Outcome>)
    ensures |os| == |ws|
    decreases |ws|
  {
    if ws == [] then []
    else var o := f(count, ws[0]); [o] + Outcomes(f, count + Counted(o), ws[1..])
  }

  function CountAfter(f: Attempter, count: nat, ws: seq<Surroundings>): nat
    decreases |ws|
  {
    if ws == [] then count else CountAfter(f, count + Counted(f(count, ws[0])), ws[1..])
  }

  /** Every attempt of the run meets the condition. */
  predicate Throughout(f: Attempter, ok: (nat, Surroundings) -> bool, count: nat, ws: seq<Surroundings>)
    decreases |ws|
  {
    ws == [] || (ok(count, ws[0]) && Throughout(f, ok, count + Counted(f(count, ws[0])), ws[1..]))
  }

  predicate SameConditionsThroughout(p: RestartPolicy, count: nat, ws: seq<Surroundings>) {
    Throughout(InlinedBy(p), (c: nat, w: Surroundings) => SameConditions(p, c, w), count, ws)
  }

  lemma {:induction false} AgreeThroughout(f: Attempter, g: Attempter, ok: (nat, Surroundings) -> bool, count: nat,
                                           ws: seq<Surroundings>)
    requires forall c: nat, w :: f(c, w) == g(c, w) <==> ok(c, w)
    ensures Outcomes(f, count, ws) == Outcomes(g, count, ws) <==> Throughout(f, ok, count, ws)
    ensures Throughout(f, ok, count, ws) ==> CountAfter(f, count, ws) == CountAfter(g, count, ws)
    decreases |ws|
  {
    if ws != [] {
      var a, b := f(count, ws[0]), g(count, ws[0]);
      AgreeThroughout(f, g, ok, count + Counted(a), ws[1..]);
      var s, t := Outcomes(f, count, ws), Outcomes(g, count, ws);
      assert s[0] == a && s[1..] == Outcomes(f, count + Counted(a), ws[1..]);
      assert t[0] == b && t[1..] == Outcomes(g, count + Counted(b), ws[1..]);
    }
  }

  /** Over any run of attempts both implementations produce the same outcomes exactly when every attempt of
      the run meets the condition. */
  lemma RunsAgreeIff(p: RestartPolicy, count: nat, ws: seq<Surroundings>)
    ensures Outcomes(InlinedBy(p), count, ws) == Outcomes(ManagedBy(p), count, ws) <==>
            SameConditionsThroughout(p, count, ws)
    ensures SameConditionsThroughout(p, count, ws) ==>
              CountAfter(InlinedBy(p), count, ws) == CountAfter(ManagedBy(p), count, ws)
  {
    var ok := (c: nat, w: Surroundings) => SameConditions(p, c, w);
    forall c: nat, w ensures InlinedBy(p)(c, w) == ManagedBy(p)(c, w) <==> ok(c, w) {
      AttemptsAgreeIff(p, c, w);
    }
    AgreeThroughout(InlinedBy(p), ManagedBy(p), ok, count, ws);
  }

  predicate NeverDone(ws: seq<Surroundings>) {
    forall i :: 0 <= i < |ws| ==>
      !ws[i].doneAtDenial && !ws[i].doneInDelay && !ws[i].doneAtRestarting && !ws[i].doneAtOutcome
  }

  lemma {:induction false} ConditionsWhenNeverDone(p: RestartPolicy, f: Attempter, ok: (nat, Surroundings) -> bool,
                                                   count: nat, ws: seq<Surroundings>)
    requires p.enabled && NeverDone(ws)
    requires forall c: nat, w :: ok(c, w) == SameConditions(p, c, w)
    ensures Throughout(f, ok, count, ws)
    decreases |ws|
  {
    if ws != [] {
      assert NeverDone(ws[1..]);
      ConditionsWhenNeverDone(p, f, ok, count + Counted(f(count, ws[0])), ws[1..]);
    }
  }

  /** With the policy enabled and a context that never ends, the two cannot be told apart. */
  lemma EnabledRunsAgree(p: RestartPolicy, count: nat, ws: seq<Surroundings>)
    requires p.enabled && NeverDone(ws)
    ensures SameConditionsThroughout(p, count, ws)
    ensures Outcomes(InlinedBy(p), count, ws) == Outcomes(ManagedBy(p), count, ws)
  {
    ConditionsWhenNeverDone(p, InlinedBy(p), (c: nat, w: Surroundings) => SameConditions(p, c, w), count, ws);
    RunsAgreeIff(p, count, ws);
  }

  function Restarts(os: seq<Outcome>): nat {
    if os == [] then 0 else Counted(os[0]) + Restarts(os[1..])
  }

  lemma {:induction false} LimitedRuns(f: Attempter, p: RestartPolicy, count: nat, ws: seq<Surroundings>)
    requires forall c: nat, w :: LimitReached(p, c) ==> f(c, w).call == None
    ensures CountAfter(f, count, ws) == count + Restarts(Outcomes(f, count, ws))
    ensures p.maxRestarts > 0 && count <= p.maxRestarts ==> CountAfter(f, count, ws) <= p.maxRestarts
    ensures LimitReached(p, count) ==>
              && CountAfter(f, count, ws) == count
              && forall i :: 0 <= i < |ws| ==> Outcomes(f, count, ws)[i] == f(count, ws[i])
    decreases |ws|
  {
    if ws != [] {
      var o := f(count, ws[0]);
      LimitedRuns(f, p, count + Counted(o), ws[1..]);
      var os := Outcomes(f, count, ws);
      assert os[0] == o && os[1..] == Outcomes(f, count + Counted(o), ws[1..]);
    }
  }

  datatype Style = InlinedStyle | ManagedStyle

  /** One caller at a time: the limit is exact, every counted restart happened, and once the limit is
      reached each later attempt only reports failure -- through the channel too, unless a managed denial
      gives up its send for the context. */
  lemma SequentialLimit(style: Style, p: RestartPolicy, count: nat, ws: seq<Surroundings>)
    ensures var f := if style == InlinedStyle then InlinedBy(p) else ManagedBy(p);
            && CountAfter(f, count, ws) == count + Restarts(Outcomes(f, count, ws))
            && (p.maxRestarts > 0 && count <= p.maxRestarts ==> CountAfter(f, count, ws) <= p.maxRestarts)
            && (LimitReached(p, count) ==>
                  && CountAfter(f, count, ws) == count
                  && forall i :: 0 <= i < |ws| ==>
                       var silent := style == ManagedStyle && ws[i].doneAtDenial;
                       Outcomes(f, count, ws)[i] == Outcome(true, 0, if silent then [] else [RestartFailed], None))
  {
    LimitedRuns(if style == InlinedStyle then InlinedBy(p) else ManagedBy(p), p, count, ws);
  }
}
