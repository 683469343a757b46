/** The failure counters of monitorContainerLiveness and StartHealthCheck in
    ponos/pkg/containerManager/dockerManager.go. */
module Liveness {

  datatype Poll = Running | NotRunning | CheckFailed | Missing
  datatype Loop = LivenessLoop | HealthLoop
  /** What the loop tells its listeners: the liveness loop reports health after failures only, the health loop
      at every poll that finds the container running. */
  datatype Signal = Quiet | Healthy | Crossed

  /** The counter after a failed poll, before it is compared with the threshold. */
  function Bumped(loop: Loop, failures: int, poll: Poll, threshold: int): int {
    if loop == LivenessLoop && poll == Missing then threshold else failures + 1
  }

  function After(loop: Loop, polls: seq<Poll>, threshold: int): int {
    if polls == [] then 0
    else
      var last := polls[|polls| - 1];
      var bumped := Bumped(loop, After(loop, polls[..|polls| - 1], threshold), last, threshold);
      if last == Running || bumped >= threshold then 0 else bumped
  }

  predicate Crosses(loop: Loop, polls: seq<Poll>, i: nat, threshold: int)
    requires i < |polls|
  {
    polls[i] != Running && Bumped(loop, After(loop, polls[..i], threshold), polls[i], threshold) >= threshold
  }

  function SignalAt(loop: Loop, polls: seq<Poll>, i: nat, threshold: int): Signal
    requires i < |polls|
  {
    if Crosses(loop, polls, i, threshold) then Crossed
    else if polls[i] == Running && (loop == HealthLoop || After(loop, polls[..i], threshold) > 0) then Healthy
    else Quiet
  }

  /** One goroutine over one stream of poll results. */
  method Watch(loop: Loop, polls: seq<Poll>, threshold: int) returns (signals: seq<Signal>, failures: int)
    ensures |signals| == |polls|
    ensures forall i :: 0 <= i < |polls| ==> signals[i] == SignalAt(loop, polls, i, threshold)
    ensures failures == After(loop, polls, threshold)
  {
    signals, failures := [], 0;
    for n := 0 to |polls|
      invariant |signals| == n
      invariant forall i :: 0 <= i < n ==> signals[i] == SignalAt(loop, polls, i, threshold)
      invariant failures == After(loop, polls[..n], threshold)
    {
      assert polls[..n + 1][..n] == polls[..n];
      var poll := polls[n];
      var signal := Quiet;
      if poll == Running {
        if loop == HealthLoop || failures > 0 { signal := Healthy; }
        failures := 0;
      } else {
        if loop == LivenessLoop && poll == Missing {
          failures := threshold;
        } else {
          failures := failures + 1;
        }
        if failures >= threshold {
          signal := Crossed;
          failures := 0;
        }
      }
      signals := signals + [signal];
    }
    assert polls[..|polls|] == polls;
  }

  /** For any threshold at all, the counter left after a poll is zero or below the threshold. */
  lemma {:induction false} CounterRange(loop: Loop, polls: seq<Poll>, threshold: int)
    ensures 0 <= After(loop, polls, threshold)
    ensures After(loop, polls, threshold) == 0 || After(loop, polls, threshold) < threshold
  {
    if polls != [] {
      CounterRange(loop, polls[..|polls| - 1], threshold);
    }
  }

  // ----- which polls cross, without the counter

  predicate BreaksStreak(loop: Loop, poll: Poll) {
    poll == Running || (loop == LivenessLoop && poll == Missing)
  }

  /** Number of consecutive counted failures at the end of the stream. */
  function Streak(loop: Loop, polls: seq<Poll>): nat {
    if polls == [] || BreaksStreak(loop, polls[|polls| - 1]) then 0 else 1 + Streak(loop, polls[..|polls| - 1])
  }

  lemma NextRemainder(s: nat, t: int)
    requires t >= 1
    ensures (s + 1) % t == if s % t + 1 == t then 0 else s % t + 1
  {
    var q, r := s / t, s % t;
    assert s + 1 == t * q + (r + 1);
    if r + 1 == t {
      assert s + 1 == t * (q + 1);
      RemainderOf(s + 1, q + 1, 0, t);
    } else {
      RemainderOf(s + 1, q, r + 1, t);
    }
  }

  lemma RemainderOf(x: int, q: int, r: int, t: int)
    requires t >= 1 && x == t * q + r && 0 <= r < t
    ensures x % t == r
  {
    var d := x / t - q;
    assert t * d == r - x % t;
    assert d >= 1 ==> t * d >= t;
    assert d <= -1 ==> t * d <= -t;
  }

  lemma {:induction false} CounterIsStreak(loop: Loop, polls: seq<Poll>, threshold: int)
    requires threshold >= 1
    ensures After(loop, polls, threshold) == Streak(loop, polls) % threshold
  {
    if polls != [] {
      var front := polls[..|polls| - 1];
      CounterIsStreak(loop, front, threshold);
      NextRemainder(Streak(loop, front), threshold);
    }
  }

  /** A poll crosses exactly when the container is gone, or it completes a multiple of threshold
      consecutive failures; with a threshold below one, at every failed poll. */
  lemma CrossingIff(loop: Loop, polls: seq<Poll>, i: nat, threshold: int)
    requires i < |polls|
    ensures Crosses(loop, polls, i, threshold) <==>
            polls[i] != Running
            && (threshold < 1 || BreaksStreak(loop, polls[i]) || Streak(loop, polls[..i + 1]) % threshold == 0)
  {
    assert polls[..i + 1][..i] == polls[..i];
    CounterRange(loop, polls[..i], threshold);
    if threshold >= 1 {
      CounterIsStreak(loop, polls[..i], threshold);
      NextRemainder(Streak(loop, polls[..i]), threshold);
    }
  }

  /** A poll reports health exactly when the container runs and, in the liveness loop, some failure has not
      been part of a crossing yet. */
  lemma HealthyIff(loop: Loop, polls: seq<Poll>, i: nat, threshold: int)
    requires i < |polls|
    ensures SignalAt(loop, polls, i, threshold) == Healthy <==>
            polls[i] == Running
            && (loop == HealthLoop || (threshold >= 1 && Streak(loop, polls[..i]) % threshold != 0))
    ensures SignalAt(loop, polls, i, threshold) == Crossed <==> Crosses(loop, polls, i, threshold)
  {
    CounterRange(loop, polls[..i], threshold);
    if threshold >= 1 { CounterIsStreak(loop, polls[..i], threshold); }
  }

  // ----- how many polls cross

  function Crossings(loop: Loop, polls: seq<Poll>, threshold: int): nat {
    if polls == [] then 0
    else Crossings(loop, polls[..|polls| - 1], threshold)
         + (if Crosses(loop, polls, |polls| - 1, threshold) then 1 else 0)
  }

  function Count(polls: seq<Poll>, kind: set<Poll>): nat {
    if polls == [] then 0
    else Count(polls[..|polls| - 1], kind) + (if polls[|polls| - 1] in kind then 1 else 0)
  }

  /** Each crossing that is not a missing container is paid for by threshold failed polls of its own. */
  lemma {:induction false} CrossingBudget(polls: seq<Poll>, threshold: int)
    requires threshold >= 1
    ensures Crossings(LivenessLoop, polls, threshold) >= Count(polls, {Missing})
    ensures (Crossings(LivenessLoop, polls, threshold) - Count(polls, {Missing})) * threshold
            + After(LivenessLoop, polls, threshold) <= Count(polls, {NotRunning, CheckFailed})
  {
    if polls != [] {
      var front := polls[..|polls| - 1];
      CrossingBudget(front, threshold);
      CounterRange(LivenessLoop, front, threshold);
      var before := Crossings(LivenessLoop, front, threshold) - Count(front, {Missing});
      assert (before + 1) * threshold == before * threshold + threshold;
    }
  }

  // ----- the two loops

  predicate SameCrossings(polls: seq<Poll>, threshold: int) {
    forall i :: 0 <= i < |polls| ==>
      (Crosses(LivenessLoop, polls, i, threshold) <==> Crosses(HealthLoop, polls, i, threshold))
  }

  /** Every missing container is reported just when the plain count of failures was due anyway. */
  predicate MissingIsOnSchedule(polls: seq<Poll>, threshold: int) {
    forall i :: 0 <= i < |polls| && polls[i] == Missing ==>
      threshold < 1 || Streak(HealthLoop, polls[..i + 1]) % threshold == 0
  }

  lemma {:induction false} CountersAgree(polls: seq<Poll>, threshold: int)
    requires MissingIsOnSchedule(polls, threshold)
    ensures After(LivenessLoop, polls, threshold) == After(HealthLoop, polls, threshold)
  {
    if polls != [] {
      var n := |polls| - 1;
      var front := polls[..n];
      forall i | 0 <= i < |front| && front[i] == Missing
        ensures threshold < 1 || Streak(HealthLoop, front[..i + 1]) % threshold == 0
      {
        assert front[..i + 1] == polls[..i + 1];
      }
      CountersAgree(front, threshold);
      if polls[n] == Missing {
        assert polls[..n + 1] == polls;
        CrossingIff(HealthLoop, polls, n, threshold);
        CrossingIff(LivenessLoop, polls, n, threshold);
      }
    }
  }

  /** Liveness loop and health loop cross at the same polls exactly when every missing container
      is on schedule; in particular when no poll reports a missing container. */
  lemma LoopsAgreeIff(polls: seq<Poll>, threshold: int)
    ensures SameCrossings(polls, threshold) <==> MissingIsOnSchedule(polls, threshold)
  {
    forall i | 0 <= i < |polls|
      ensures polls[i] == Missing ==> Crosses(LivenessLoop, polls, i, threshold)
      ensures polls[i] == Missing ==>
                (Crosses(HealthLoop, polls, i, threshold) <==>
                 threshold < 1 || Streak(HealthLoop, polls[..i + 1]) % threshold == 0)
    {
      CrossingIff(LivenessLoop, polls, i, threshold);
      CrossingIff(HealthLoop, polls, i, threshold);
    }
    if MissingIsOnSchedule(polls, threshold) {
      forall i | 0 <= i < |polls|
        ensures Crosses(LivenessLoop, polls, i, threshold) <==> Crosses(HealthLoop, polls, i, threshold)
      {
        if polls[i] != Missing {
          var front := polls[..i];
          forall j | 0 <= j < |front| && front[j] == Missing
            ensures threshold < 1 || Streak(HealthLoop, front[..j + 1]) % threshold == 0
          {
            assert front[..j + 1] == polls[..j + 1];
          }
          CountersAgree(front, threshold);
        }
      }
    }
  }
}
