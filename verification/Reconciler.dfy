/** The Performer controller: hourglass-operator/internal/controller/performerController.go.
    The API server and the kubelet are the environment; API errors are inputs. */
module Reconciler {
  import opened Wrappers

  datatype Phase = Pending | Running | Succeeded | Failed | Unknown

  /** `image` is the image of the first container, None for a pod without containers. */
  datatype Pod = Pod(image: Option<string>, phase: Phase, createdAt: int, ready: bool, terminating: bool)
  datatype Service = Service(selector: string, port: int)
  datatype StatusPhase = NoPhase | OfPod(phase: Phase)
  datatype Status = Status(phase: StatusPhase, podName: string, ready: bool, readyTime: Option<int>, serviceName: string)

  datatype Spec = Spec(name: string, image: string, grpcPort: int)

  datatype Cluster = Cluster(now: int, pod: Option<Pod>, service: Option<Service>, status: Status, finalizer: bool)

  const FIVE_MINUTES := 300

  function ObjectName(spec: Spec): string { "performer-" + spec.name }

  function DesiredPort(spec: Spec): int { if spec.grpcPort != 0 then spec.grpcPort else 8080 }

  function DesiredService(spec: Spec): Service { Service(spec.name, DesiredPort(spec)) }

  predicate ShouldRecreatePod(p: Pod, spec: Spec, now: int) {
    if p.phase == Failed then true
    else if p.phase == Pending && now - p.createdAt > FIVE_MINUTES then true
    else p.image.Some? && p.image.value != spec.image
  }

  function BuildPod(spec: Spec, now: int): Pod {
    Pod(Some(spec.image), Pending, now, false, false)
  }

  /** reconcilePod: a deleted pod stays visible as terminating until the environment removes it. */
  function PodPass(c: Cluster, spec: Spec): Cluster {
    match c.pod
    case None => c.(pod := Some(BuildPod(spec, c.now)))
    case Some(p) => if ShouldRecreatePod(p, spec, c.now) then c.(pod := Some(p.(terminating := true))) else c
  }

  function ServicePass(c: Cluster, spec: Spec): Cluster {
    c.(service := Some(DesiredService(spec)))
  }

  /** What updateStatus writes, from the stored status and the pod it finds. */
  function NextStatus(previous: Status, pod: Option<Pod>, spec: Spec, now: int): Status {
    var named := previous.(serviceName := ObjectName(spec));
    match pod
    case None => named.(phase := OfPod(Pending), podName := "")
    case Some(p) =>
      var ready := p.phase == Running && p.ready;
      named.(phase := OfPod(p.phase), podName := ObjectName(spec), ready := ready,
             readyTime := if ready && previous.readyTime == None then Some(now) else previous.readyTime)
  }

  // ----- the passes and the environment as steps

  /** What the environment does to the pod. */
  datatype Environment =
    | Reap                                   // a terminating pod disappears
    | PodReports(phase: Phase, ready: bool)  // kubelet
    | Evict                                  // somebody deletes the pod
    | Tick(seconds: nat)

  /** The passes of a reconcile are separate steps, so the environment may act between them. A pass that
      meets an API error does nothing. */
  datatype Action =
    | PodStep(ok: bool)
    | ServiceStep(ok: bool)
    | StatusStep(ok: bool)
    | Env(e: Environment)

  function EnvStep(c: Cluster, e: Environment): Cluster {
    match e
    case Reap => if c.pod.Some? && c.pod.value.terminating then c.(pod := None) else c
    case PodReports(phase, ready) =>
      if c.pod.Some? then c.(pod := Some(c.pod.value.(phase := phase, ready := ready))) else c
    case Evict => if c.pod.Some? then c.(pod := Some(c.pod.value.(terminating := true))) else c
    case Tick(seconds) => c.(now := c.now + seconds)
  }

  function StatusPass(c: Cluster, spec: Spec): Cluster {
    c.(status := NextStatus(c.status, c.pod, spec, c.now))
  }

  function Step(c: Cluster, spec: Spec, a: Action): Cluster {
    match a
    case PodStep(ok) => if ok then PodPass(c, spec) else c
    case ServiceStep(ok) => if ok then ServicePass(c, spec) else c
    case StatusStep(ok) => if ok then StatusPass(c, spec) else c
    case Env(e) => EnvStep(c, e)
  }

  function Exec(c: Cluster, spec: Spec, schedule: seq<Action>): Cluster
    decreases |schedule|
  {
    if schedule == [] then c else Exec(Step(c, spec, schedule[0]), spec, schedule[1..])
  }

  function Envs(es: seq<Environment>): (s: seq<Action>)
    ensures |s| == |es|
  {
    seq(|es|, i requires 0 <= i < |es| => Env(es[i]))
  }

  lemma {:induction false} ExecConcat(c: Cluster, spec: Spec, a: seq<Action>, b: seq<Action>)
    ensures Exec(c, spec, a + b) == Exec(Exec(c, spec, a), spec, b)
    decreases |a|
  {
    if a == [] {
      assert a + b == b;
    } else {
      assert (a + b)[1..] == a[1..] + b;
      ExecConcat(Step(c, spec, a[0]), spec, a[1..], b);
    }
  }

  // ----- the reconciler

  datatype UpdateOutcome = Written | Conflict | UpdateError

  /** One attempt of updateStatus: whether one of its two reads fails, how its write ends, and what the
      environment does before the next attempt. */
  datatype Attempt = Attempt(readFails: bool, update: UpdateOutcome, meanwhile: seq<Environment>)

  /** The first API call of a reconcile that fails before the status update, if any; SetControllerReference
      counts with Create. */
  datatype Fault = NoFault | AtFetch | AtFinalizer | AtPod | AtService

  /** The Performer resource as the reconcile finds it. */
  datatype Resource = Gone | Deleting | Present

  const MAX_RETRIES := 3

  predicate Retries(a: Attempt) {
    !a.readFails && a.update == Conflict
  }

  predicate Succeeds(a: Attempt) {
    !a.readFails && a.update == Written
  }

  /** The attempt at which updateStatus stops retrying. */
  function StatusStop(tries: nat -> Attempt): (i: nat)
    ensures i < MAX_RETRIES
    ensures forall j :: 0 <= j < i ==> Retries(tries(j))
    ensures Retries(tries(i)) ==> i == MAX_RETRIES - 1
  {
    if !Retries(tries(0)) then 0 else if !Retries(tries(1)) then 1 else 2
  }

  /** The cluster that attempt i of updateStatus reads. */
  function Waited(c: Cluster, spec: Spec, tries: nat -> Attempt, i: nat): Cluster {
    if i == 0 then c else Exec(Waited(c, spec, tries, i - 1), spec, Envs(tries(i - 1).meanwhile))
  }

  /** The status update as protocol steps, from attempt i on. */
  function StatusScript(tries: nat -> Attempt, i: nat): seq<Action>
    requires i < MAX_RETRIES
    decreases MAX_RETRIES - i
  {
    if Retries(tries(i)) && i < MAX_RETRIES - 1 then
      [StatusStep(false)] + Envs(tries(i).meanwhile) + StatusScript(tries, i + 1)
    else [StatusStep(Succeeds(tries(i)))]
  }

  /** A whole reconcile as protocol steps. */
  function Passes(fault: Fault, tries: nat -> Attempt): seq<Action> {
    if fault == AtPod then [PodStep(false)]
    else if fault == AtService then [PodStep(true), ServiceStep(false)]
    else [PodStep(true), ServiceStep(true)] + StatusScript(tries, 0)
  }

  /** Whether a reconcile gets as far as its passes. */
  predicate Proceeds(c: Cluster, found: Resource, fault: Fault) {
    found == Present && fault != AtFetch && (fault == AtFinalizer ==> c.finalizer)
  }

  function AfterReconcile(c: Cluster, spec: Spec, found: Resource, fault: Fault, tries: nat -> Attempt): Cluster {
    if Proceeds(c, found, fault) then Exec(c.(finalizer := true), spec, Passes(fault, tries))
    else if found == Deleting && fault != AtFetch && fault != AtFinalizer then c.(finalizer := false)
    else c
  }

  lemma RetryUnfolds(c: Cluster, spec: Spec, tries: nat -> Attempt, i: nat)
    requires i < MAX_RETRIES - 1 && Retries(tries(i))
    ensures Exec(c, spec, StatusScript(tries, i))
            == Exec(Exec(c, spec, Envs(tries(i).meanwhile)), spec, StatusScript(tries, i + 1))
  {
    var rest := Envs(tries(i).meanwhile) + StatusScript(tries, i + 1);
    var script := StatusScript(tries, i);
    assert script == [StatusStep(false)] + rest;
    assert script[0] == StatusStep(false) && script[1..] == rest;
    ExecConcat(c, spec, Envs(tries(i).meanwhile), StatusScript(tries, i + 1));
  }

  lemma LastAttempt(c: Cluster, spec: Spec, a: Action)
    ensures Exec(c, spec, [a]) == Step(c, spec, a)
  {
    assert Exec(Step(c, spec, a), spec, [a][1..]) == Step(c, spec, a);
  }

  /** What a status update writes, field by field, and that it writes nothing else. */
  ghost predicate StatusWritten(before: Cluster, after: Cluster, spec: Spec) {
    && after == before.(status := after.status)
    && after.status.serviceName == "performer-" + spec.name
    && match before.pod
       case None =>
         && after.status.phase == OfPod(Pending) && after.status.podName == ""
         && after.status.ready == before.status.ready && after.status.readyTime == before.status.readyTime
       case Some(p) =>
         && after.status.phase == OfPod(p.phase) && after.status.podName == "performer-" + spec.name
         && (after.status.ready <==> p.phase == Running && p.ready)
         && after.status.readyTime == (if after.status.ready && before.status.readyTime == None then Some(before.now)
                                       else before.status.readyTime)
  }

  class PerformerReconciler {
    var cluster: Cluster
    const spec: Spec

    constructor (spec: Spec, cluster: Cluster)
      ensures this.spec == spec && this.cluster == cluster
    {
      this.spec := spec;
      this.cluster := cluster;
    }

    /** One pod pass: it brings a missing or an unfit pod one step nearer to the wanted one, keeps a fit
        one, and touches nothing else. */
    method ReconcilePod()
      modifies this
      ensures old(cluster).pod == None ==>
                cluster.pod == Some(Pod(Some(spec.image), Pending, cluster.now, false, false))
      ensures old(cluster).pod.Some? ==>
                var p := old(cluster).pod.value;
                var unfit := p.phase == Failed || (p.phase == Pending && cluster.now - p.createdAt > 300)
                             || (p.image.Some? && p.image.value != spec.image);
                cluster.pod == Some(p.(terminating := p.terminating || unfit))
      ensures cluster == PodPass(old(cluster), spec)
      ensures cluster == old(cluster).(pod := cluster.pod) && cluster.pod.Some?
      ensures Rank(cluster, spec) == match Rank(old(cluster), spec) case 1 => 0 case 3 => 2 case r => r
    {
      if cluster.pod.Some? {
        var existing := cluster.pod.value;
        if ShouldRecreatePod(existing, spec, cluster.now) {
          cluster := cluster.(pod := Some(existing.(terminating := true)));
        }
        return;
      }
      cluster := cluster.(pod := Some(BuildPod(spec, cluster.now)));
    }

    /** updateStatus: at most three attempts, each on a new reading of the cluster, retrying on conflicts
        only. */
    method UpdateStatus(tries: nat -> Attempt) returns (failed: bool, attempts: nat)
      modifies this
      ensures 1 <= attempts <= 3
      ensures forall j :: 0 <= j < attempts - 1 ==> !tries(j).readFails && tries(j).update == Conflict
      ensures attempts < 3 ==> tries(attempts - 1).readFails || tries(attempts - 1).update != Conflict
      ensures failed <==> tries(attempts - 1).readFails || tries(attempts - 1).update != Written
      ensures var c1 := Exec(old(cluster), spec, Envs(tries(0).meanwhile));
              var c := if attempts == 1 then old(cluster) else if attempts == 2 then c1
                       else Exec(c1, spec, Envs(tries(1).meanwhile));
              && (failed ==> cluster == c)
              && (!failed ==> StatusWritten(c, cluster, spec))
      ensures attempts == StatusStop(tries) + 1
      ensures failed <==> !Succeeds(tries(StatusStop(tries)))
      ensures var c := Waited(old(cluster), spec, tries, StatusStop(tries));
              cluster == if failed then c else StatusPass(c, spec)
      ensures cluster == Exec(old(cluster), spec, StatusScript(tries, 0))
    {
      var i := 0;
      while i < MAX_RETRIES
        invariant i < MAX_RETRIES
        invariant forall j :: 0 <= j < i ==> Retries(tries(j))
        invariant cluster == Waited(old(cluster), spec, tries, i)
        invariant Exec(cluster, spec, StatusScript(tries, i)) == Exec(old(cluster), spec, StatusScript(tries, 0))
      {
        LastAttempt(cluster, spec, StatusStep(Succeeds(tries(i))));
        if tries(i).readFails { return true, i + 1; }
        var latest := NextStatus(cluster.status, cluster.pod, spec, cluster.now);
        if tries(i).update != Written {
          if tries(i).update == Conflict && i < MAX_RETRIES - 1 {
            RetryUnfolds(cluster, spec, tries, i);
            cluster := Exec(cluster, spec, Envs(tries(i).meanwhile));
            i := i + 1;
            continue;
          }
          return true, i + 1;
        }
        cluster := cluster.(status := latest);
        return false, i + 1;
      }
    }

    method Reconcile(found: Resource, fault: Fault, tries: nat -> Attempt) returns (failed: bool)
      modifies this
      ensures found == Gone || fault == AtFetch ==> cluster == old(cluster)
      ensures found == Deleting ==>
                cluster == if failed then old(cluster) else old(cluster).(finalizer := false)
      ensures found == Present && fault == AtFinalizer && !old(cluster).finalizer ==> cluster == old(cluster)
      ensures found == Present && fault == AtPod ==> cluster == old(cluster).(finalizer := true)
      ensures found == Present && fault == AtService ==>
                cluster == PodPass(old(cluster).(finalizer := true), spec)
      ensures found == Present && (fault == NoFault || (fault == AtFinalizer && old(cluster).finalizer)) ==>
                && cluster.finalizer
                && cluster.service == Some(Service(spec.name, if spec.grpcPort == 0 then 8080 else spec.grpcPort))
      ensures cluster == AfterReconcile(old(cluster), spec, found, fault, tries)
      ensures failed <==>
              || fault == AtFetch
              || (found == Deleting && fault == AtFinalizer)
              || (found == Present && fault == AtFinalizer && !old(cluster).finalizer)
              || (Proceeds(old(cluster), found, fault)
                  && (fault == AtPod || fault == AtService || !Succeeds(tries(StatusStop(tries)))))
      ensures !failed && found == Present ==>
                && cluster.finalizer && cluster.service == Some(DesiredService(spec))
                && var start := ServicePass(PodPass(old(cluster).(finalizer := true), spec), spec);
                   cluster == StatusPass(Waited(start, spec, tries, StatusStop(tries)), spec)
    {
      if fault == AtFetch { return true; }
      if found == Gone { return false; }
      if found == Deleting {
        if fault == AtFinalizer { return true; }
        cluster := cluster.(finalizer := false);
        return false;
      }
      if !cluster.finalizer {
        if fault == AtFinalizer { return true; }
        cluster := cluster.(finalizer := true);
      }
      ghost var start := cluster;
      PassesUnfold(start, spec, fault, tries);
      if fault == AtPod { return true; }
      ReconcilePod();
      if fault == AtService { return true; }
      cluster := ServicePass(cluster, spec);
      WaitingKeeps(cluster, spec, tries, StatusStop(tries));
      var attempts;
      failed, attempts := UpdateStatus(tries);
    }
  }

  lemma PassesUnfold(c: Cluster, spec: Spec, fault: Fault, tries: nat -> Attempt)
    ensures Exec(c, spec, Passes(fault, tries)) ==
            if fault == AtPod then c
            else if fault == AtService then PodPass(c, spec)
            else Exec(ServicePass(PodPass(c, spec), spec), spec, StatusScript(tries, 0))
  {
    var script := Passes(fault, tries);
    if fault == AtPod {
      LastAttempt(c, spec, PodStep(false));
    } else {
      assert script[0] == PodStep(true);
      var c1 := PodPass(c, spec);
      if fault == AtService {
        assert script[1..] == [ServiceStep(false)];
        LastAttempt(c1, spec, ServiceStep(false));
      } else {
        assert script[1..][0] == ServiceStep(true) && script[1..][1..] == StatusScript(tries, 0);
        assert Exec(c1, spec, script[1..]) == Exec(ServicePass(c1, spec), spec, script[1..][1..]);
      }
    }
  }

  lemma {:induction false} EnvironmentKeeps(c: Cluster, spec: Spec, es: seq<Environment>)
    ensures var c' := Exec(c, spec, Envs(es));
            c'.finalizer == c.finalizer && c'.service == c.service && c'.status == c.status
    decreases |es|
  {
    if es != [] {
      assert Envs(es)[1..] == Envs(es[1..]);
      EnvironmentKeeps(EnvStep(c, es[0]), spec, es[1..]);
    }
  }

  lemma {:induction false} WaitingKeeps(c: Cluster, spec: Spec, tries: nat -> Attempt, i: nat)
    ensures var c' := Waited(c, spec, tries, i);
            c'.finalizer == c.finalizer && c'.service == c.service && c'.status == c.status
  {
    if i > 0 {
      WaitingKeeps(c, spec, tries, i - 1);
      EnvironmentKeeps(Waited(c, spec, tries, i - 1), spec, tries(i - 1).meanwhile);
    }
  }

  // ----- the Ready flag

  predicate PodIsReady(c: Cluster) {
    c.pod.Some? && c.pod.value.phase == Running && c.pod.value.ready
  }

  /** Step i is a status update that succeeds and finds a pod. */
  predicate Sees(c: Cluster, spec: Spec, schedule: seq<Action>, i: nat)
    requires i < |schedule|
  {
    schedule[i] == StatusStep(true) && Exec(c, spec, schedule[..i]).pod.Some?
  }

  /** The last successful status update that found a pod saw it ready; without any, the flag was set
      from the start. */
  ghost predicate LastSeenReady(c: Cluster, spec: Spec, schedule: seq<Action>) {
    || (c.status.ready && forall i :: 0 <= i < |schedule| ==> !Sees(c, spec, schedule, i))
    || (exists i :: 0 <= i < |schedule| && Sees(c, spec, schedule, i) && PodIsReady(Exec(c, spec, schedule[..i]))
                    && forall j :: i < j < |schedule| ==> !Sees(c, spec, schedule, j))
  }

  lemma SeesBefore(c: Cluster, spec: Spec, front: seq<Action>, a: Action, i: nat)
    requires i < |front|
    ensures Sees(c, spec, front + [a], i) <==> Sees(c, spec, front, i)
    ensures (front + [a])[..i] == front[..i]
  {
    assert (front + [a])[..i] == front[..i];
  }

  lemma LastSeenNext(c: Cluster, spec: Spec, front: seq<Action>, a: Action)
    ensures var now := Exec(c, spec, front);
            LastSeenReady(c, spec, front + [a]) <==>
            if a == StatusStep(true) && now.pod.Some? then PodIsReady(now) else LastSeenReady(c, spec, front)
  {
    var n, all := |front|, front + [a];
    assert all[..n] == front;
    forall i | 0 <= i < n
      ensures Sees(c, spec, all, i) <==> Sees(c, spec, front, i)
      ensures all[..i] == front[..i]
    {
      SeesBefore(c, spec, front, a, i);
    }
    if LastSeenReady(c, spec, front) && !Sees(c, spec, all, n) && exists i :: 0 <= i < n && Sees(c, spec, front, i) {
      var i :| 0 <= i < n && Sees(c, spec, front, i) && PodIsReady(Exec(c, spec, front[..i]))
               && forall j :: i < j < n ==> !Sees(c, spec, front, j);
      assert Sees(c, spec, all, i) && PodIsReady(Exec(c, spec, all[..i]));
    }
  }

  /** In every run the flag says what the last status update that found a pod saw. */
  lemma {:induction false} ReadyFlag(c: Cluster, spec: Spec, schedule: seq<Action>)
    ensures Exec(c, spec, schedule).status.ready <==> LastSeenReady(c, spec, schedule)
    decreases |schedule|
  {
    if schedule != [] {
      var n := |schedule| - 1;
      var front, a := schedule[..n], schedule[n];
      ReadyFlag(c, spec, front);
      LastSeenNext(c, spec, front, a);
      assert schedule == front + [a];
      ExecConcat(c, spec, front, [a]);
      LastAttempt(Exec(c, spec, front), spec, a);
    }
  }

  /** Right after a status update, in any run, the flag is true to the pod exactly when the update found a
      pod, or the last update that found one did not see it ready: with no pod the old value stays. */
  lemma ReadyIsTruthfulIff(c: Cluster, spec: Spec, schedule: seq<Action>)
    ensures var end := Exec(c, spec, schedule + [StatusStep(true)]);
            end.status.ready == PodIsReady(end) <==> end.pod.Some? || !LastSeenReady(c, spec, schedule)
  {
    ReadyFlag(c, spec, schedule);
    ExecConcat(c, spec, schedule, [StatusStep(true)]);
    LastAttempt(Exec(c, spec, schedule), spec, StatusStep(true));
  }

  /** From every cluster without a pod such a run leads to a set flag and no pod. */
  lemma StaleReadyHappens(c: Cluster, spec: Spec)
    requires c.pod == None
    ensures var s := [PodStep(true), Env(PodReports(Running, true)), StatusStep(true), Env(Evict), Env(Reap),
                      StatusStep(true)];
            var end := Exec(c, spec, s);
            end.status.ready && end.pod == None
  {
    var s := [PodStep(true), Env(PodReports(Running, true)), StatusStep(true), Env(Evict), Env(Reap), StatusStep(true)];
    var c1 := Step(c, spec, s[0]);
    var c2 := Step(c1, spec, s[1]);
    var c3 := Step(c2, spec, s[2]);
    var c4 := Step(c3, spec, s[3]);
    var c5 := Step(c4, spec, s[4]);
    assert s[1..][1..] == s[2..] && s[2..][1..] == s[3..] && s[3..][1..] == s[4..] && s[4..][1..] == s[5..];
    assert c3.status.ready && c5.pod == None && c5.status.ready;
    LastAttempt(c5, spec, s[5]);
    assert s[5..] == [s[5]];
    assert Exec(c2, spec, s[2..]) == Exec(c3, spec, s[3..]);
    assert Exec(c3, spec, s[3..]) == Exec(c4, spec, s[4..]);
    assert Exec(c4, spec, s[4..]) == Exec(c5, spec, s[5..]);
  }

  // ----- convergence

  /** How far the pod is from the wanted one. */
  function Rank(c: Cluster, spec: Spec): nat {
    match c.pod
    case None => 1
    case Some(p) => if p.terminating then 2 else if ShouldRecreatePod(p, spec, c.now) then 3 else 0
  }

  /** Kubernetes admits no pod without containers. */
  predicate HasContainer(c: Cluster) {
    c.pod.Some? ==> c.pod.value.image.Some?
  }

  predicate Converged(c: Cluster, spec: Spec) {
    && c.pod.Some? && !c.pod.value.terminating && c.pod.value.image == Some(spec.image)
    && !ShouldRecreatePod(c.pod.value, spec, c.now)
  }

  /** The environment does not harm a good pod: it does not fail, get stuck, or get deleted. */
  predicate Harmless(c: Cluster, spec: Spec, a: Action) {
    Rank(c, spec) == 0 ==> Rank(Step(c, spec, a), spec) == 0
  }

  predicate HarmlessRun(c: Cluster, spec: Spec, schedule: seq<Action>)
    decreases |schedule|
  {
    schedule == [] || (Harmless(c, spec, schedule[0]) && HarmlessRun(Step(c, spec, schedule[0]), spec, schedule[1..]))
  }

  /** What that means: nobody deletes the pod, the kubelet does not report it failed, and it is not kept
      pending for longer than five minutes. The controller's own passes are always harmless. */
  lemma HarmlessIff(c: Cluster, spec: Spec, a: Action)
    requires Rank(c, spec) == 0
    ensures Harmless(c, spec, a) <==>
            var age := c.now - c.pod.value.createdAt;
            match a
            case Env(Evict) => false
            case Env(PodReports(phase, _)) => phase != Failed && (phase == Pending ==> age <= FIVE_MINUTES)
            case Env(Tick(seconds)) => c.pod.value.phase == Pending ==> age + seconds <= FIVE_MINUTES
            case _ => true
    ensures !a.Env? ==> Harmless(c, spec, a)
  {
  }

  lemma RankZeroIsConverged(c: Cluster, spec: Spec)
    requires HasContainer(c)
    ensures Rank(c, spec) == 0 <==> Converged(c, spec)
  {
  }

  /** No step moves away from the goal; a pod pass moves on from 1 and 3, the environment from 2. */
  lemma StepRank(c: Cluster, spec: Spec, a: Action)
    requires HasContainer(c) && Harmless(c, spec, a)
    ensures HasContainer(Step(c, spec, a))
    ensures Rank(Step(c, spec, a), spec) <= (if a == Env(Evict) && Rank(c, spec) == 3 then 2 else Rank(c, spec))
    ensures a == PodStep(true) ==>
              Rank(Step(c, spec, a), spec) == (match Rank(c, spec) case 1 => 0 case 3 => 2 case r => r)
    ensures a == Env(Reap) && Rank(c, spec) == 2 ==> Rank(Step(c, spec, a), spec) == 1
  {
  }

  predicate Occurs(a: Action, schedule: seq<Action>) {
    exists i :: 0 <= i < |schedule| && schedule[i] == a
  }

  /** The rest of the schedule that still has to bring the pod home from the given rank. */
  predicate Suffices(rank: nat, schedule: seq<Action>)
    decreases |schedule|
  {
    rank == 0
    || (schedule != []
        && Suffices(if (rank == 3 || rank == 1) && schedule[0] == PodStep(true) then rank - 1
                    else if rank == 2 && schedule[0] == Env(Reap) then 1 else rank, schedule[1..]))
  }

  lemma {:induction false} SufficesMonotone(low: nat, high: nat, schedule: seq<Action>)
    requires low <= high <= 3 && Suffices(high, schedule)
    ensures Suffices(low, schedule)
    decreases |schedule|
  {
    if low > 0 {
      var next := (r: nat) => if (r == 3 || r == 1) && schedule[0] == PodStep(true) then r - 1
                              else if r == 2 && schedule[0] == Env(Reap) then 1 else r;
      SufficesMonotone(next(low), next(high), schedule[1..]);
    }
  }

  /** From any state whatever, every schedule that contains, in this order, a pod pass, the removal of a
      terminating pod and a pod pass -- with anything harmless around them -- ends with the wanted pod. */
  lemma {:induction false} PodConverges(c: Cluster, spec: Spec, schedule: seq<Action>)
    requires HasContainer(c) && HarmlessRun(c, spec, schedule) && Suffices(Rank(c, spec), schedule)
    ensures Converged(Exec(c, spec, schedule), spec)
    decreases |schedule|
  {
    RankZeroIsConverged(c, spec);
    if schedule != [] {
      var a, c' := schedule[0], Step(c, spec, schedule[0]);
      StepRank(c, spec, a);
      var r := Rank(c, spec);
      if r == 0 {
      } else {
        var next := if (r == 3 || r == 1) && a == PodStep(true) then r - 1 else if r == 2 && a == Env(Reap) then 1 else r;
        assert Rank(c', spec) <= next;
        SufficesMonotone(Rank(c', spec), next, schedule[1..]);
      }
      PodConverges(c', spec, schedule[1..]);
    }
  }

  /** Two full rounds are enough from every starting state. */
  lemma TwoRoundsSuffice(rank: nat, a: seq<Action>, b: seq<Action>, d: seq<Action>, e: seq<Action>)
    requires rank <= 3
    ensures Suffices(rank, a + [PodStep(true)] + b + [Env(Reap)] + d + [PodStep(true)] + e)
  {
    var last := d + [PodStep(true)] + e;
    Eventually(1, d, PodStep(true), e);
    Eventually(2, b, Env(Reap), last);
    Eventually(3, a, PodStep(true), b + [Env(Reap)] + last);
    var whole := a + [PodStep(true)] + b + [Env(Reap)] + d + [PodStep(true)] + e;
    assert whole == a + [PodStep(true)] + (b + [Env(Reap)] + last);
    SufficesMonotone(rank, 3, whole);
  }

  lemma {:induction false} Eventually(rank: nat, before: seq<Action>, a: Action, rest: seq<Action>)
    requires 1 <= rank <= 3 && a == (if rank == 2 then Env(Reap) else PodStep(true)) && Suffices(rank - 1, rest)
    ensures Suffices(rank, before + [a] + rest)
    decreases |before|
  {
    var whole := before + [a] + rest;
    if before == [] {
      assert whole[1..] == rest;
    } else {
      var tail := before[1..] + [a] + rest;
      assert whole[1..] == tail;
      Eventually(rank, before[1..], a, rest);
      SufficesMonotone(rank - 1, rank, tail);
    }
  }

  lemma {:induction false} ServiceStays(c: Cluster, spec: Spec, schedule: seq<Action>)
    requires c.service == Some(DesiredService(spec)) || Occurs(ServiceStep(true), schedule)
    ensures Exec(c, spec, schedule).service == Some(DesiredService(spec))
    decreases |schedule|
  {
    if schedule != [] {
      var c' := Step(c, spec, schedule[0]);
      if c'.service != Some(DesiredService(spec)) {
        var i :| 0 <= i < |schedule| && schedule[i] == ServiceStep(true);
        assert schedule[1..][i - 1] == ServiceStep(true);
      }
      ServiceStays(c', spec, schedule[1..]);
    }
  }

  /** Convergence: any schedule with two pod passes around the removal of a terminating pod, and one
      service pass anywhere, leads every state to a pod with the spec's image and the right service. */
  lemma Converges(c: Cluster, spec: Spec, a: seq<Action>, b: seq<Action>, d: seq<Action>, e: seq<Action>)
    requires HasContainer(c)
    requires HarmlessRun(c, spec, a + [PodStep(true)] + b + [Env(Reap)] + d + [PodStep(true)] + e)
    requires Occurs(ServiceStep(true), a + [PodStep(true)] + b + [Env(Reap)] + d + [PodStep(true)] + e)
    ensures var end := Exec(c, spec, a + [PodStep(true)] + b + [Env(Reap)] + d + [PodStep(true)] + e);
            Converged(end, spec) && end.service == Some(DesiredService(spec))
  {
    TwoRoundsSuffice(Rank(c, spec), a, b, d, e);
    PodConverges(c, spec, a + [PodStep(true)] + b + [Env(Reap)] + d + [PodStep(true)] + e);
    ServiceStays(c, spec, a + [PodStep(true)] + b + [Env(Reap)] + d + [PodStep(true)] + e);
  }

  lemma {:induction false} FinalizerKept(c: Cluster, spec: Spec, schedule: seq<Action>)
    ensures Exec(c, spec, schedule).finalizer == c.finalizer
    decreases |schedule|
  {
    if schedule != [] { FinalizerKept(Step(c, spec, schedule[0]), spec, schedule[1..]); }
  }

  lemma InThreeParts(c: Cluster, spec: Spec, x: seq<Action>, y: seq<Action>, z: seq<Action>)
    ensures Exec(c, spec, x + y + z) == Exec(Exec(Exec(c, spec, x), spec, y), spec, z)
  {
    ExecConcat(c, spec, x + y, z);
    ExecConcat(c, spec, x, y);
  }

  lemma Regroup<T>(p: T, x: seq<T>, b: seq<T>, r: T, d: seq<T>, y: seq<T>)
    ensures ([p] + x) + (b + [r] + d) + ([p] + y) == [] + [p] + (x + b) + [r] + d + [p] + y
  {
  }

  /** In terms of whole reconciles: two of them without API errors before their status updates, with the
      removal of a terminating pod between them, are enough from every state. */
  lemma TwoReconcilesConverge(c: Cluster, spec: Spec, tries: nat -> Attempt, before: seq<Environment>,
                              after: seq<Environment>, tries': nat -> Attempt)
    requires HasContainer(c)
    requires HarmlessRun(c.(finalizer := true), spec,
                         Passes(NoFault, tries) + (Envs(before) + [Env(Reap)] + Envs(after)) + Passes(NoFault, tries'))
    ensures var c1 := AfterReconcile(c, spec, Present, NoFault, tries);
            var c2 := Exec(c1, spec, Envs(before) + [Env(Reap)] + Envs(after));
            var c3 := AfterReconcile(c2, spec, Present, NoFault, tries');
            Converged(c3, spec) && c3.service == Some(DesiredService(spec)) && c3.finalizer
  {
    var start, between := c.(finalizer := true), Envs(before) + [Env(Reap)] + Envs(after);
    var c1 := Exec(start, spec, Passes(NoFault, tries));
    var c2 := Exec(c1, spec, between);
    FinalizerKept(start, spec, Passes(NoFault, tries));
    FinalizerKept(c1, spec, between);
    FinalizerKept(c2, spec, Passes(NoFault, tries'));
    InThreeParts(start, spec, Passes(NoFault, tries), between, Passes(NoFault, tries'));
    PassesBegin(tries);
    PassesBegin(tries');
    PassesConverge(start, spec, StatusScript(tries, 0), Envs(before), Envs(after), StatusScript(tries', 0));
  }

  lemma PassesBegin(tries: nat -> Attempt)
    ensures Passes(NoFault, tries) == [PodStep(true)] + ([ServiceStep(true)] + StatusScript(tries, 0))
  {
  }

  lemma PassesConverge(c: Cluster, spec: Spec, s: seq<Action>, before: seq<Action>, after: seq<Action>, s': seq<Action>)
    requires HasContainer(c)
    requires HarmlessRun(c, spec, ([PodStep(true)] + ([ServiceStep(true)] + s)) + (before + [Env(Reap)] + after)
                                  + ([PodStep(true)] + ([ServiceStep(true)] + s')))
    ensures var end := Exec(c, spec, ([PodStep(true)] + ([ServiceStep(true)] + s)) + (before + [Env(Reap)] + after)
                                     + ([PodStep(true)] + ([ServiceStep(true)] + s')));
            Converged(end, spec) && end.service == Some(DesiredService(spec))
  {
    var x, y := [ServiceStep(true)] + s, [ServiceStep(true)] + s';
    Regroup(PodStep(true), x, before, Env(Reap), after, y);
    var whole := ([PodStep(true)] + x) + (before + [Env(Reap)] + after) + ([PodStep(true)] + y);
    assert whole[1] == ServiceStep(true);
    Converges(c, spec, [], x + before, after, y);
  }

  lemma {:induction false} EnvironmentSeesPodOnly(c: Cluster, d: Cluster, spec: Spec, es: seq<Environment>)
    requires c.pod == d.pod && c.now == d.now
    ensures Exec(c, spec, Envs(es)).pod == Exec(d, spec, Envs(es)).pod
    ensures Exec(c, spec, Envs(es)).now == Exec(d, spec, Envs(es)).now
    decreases |es|
  {
    if es != [] {
      assert Envs(es)[1..] == Envs(es[1..]);
      EnvironmentSeesPodOnly(EnvStep(c, es[0]), EnvStep(d, es[0]), spec, es[1..]);
    }
  }

  lemma {:induction false} WaitingSeesPodOnly(c: Cluster, d: Cluster, spec: Spec, tries: nat -> Attempt, i: nat)
    requires c.pod == d.pod && c.now == d.now
    ensures Waited(c, spec, tries, i).pod == Waited(d, spec, tries, i).pod
    ensures Waited(c, spec, tries, i).now == Waited(d, spec, tries, i).now
    ensures (forall j :: 0 <= j < i ==> tries(j).meanwhile == []) ==> Waited(c, spec, tries, i) == c
  {
    if i > 0 {
      WaitingSeesPodOnly(c, d, spec, tries, i - 1);
      EnvironmentSeesPodOnly(Waited(c, spec, tries, i - 1), Waited(d, spec, tries, i - 1), spec, tries(i - 1).meanwhile);
    }
  }

  lemma {:induction false} StatusScriptWaits(c: Cluster, spec: Spec, tries: nat -> Attempt, i: nat)
    requires i <= StatusStop(tries)
    ensures Exec(Waited(c, spec, tries, i), spec, StatusScript(tries, i)).pod
            == Waited(c, spec, tries, StatusStop(tries)).pod
    ensures Exec(Waited(c, spec, tries, i), spec, StatusScript(tries, i)).service == c.service
    decreases MAX_RETRIES - i
  {
    WaitingKeeps(c, spec, tries, i);
    if i < StatusStop(tries) {
      RetryUnfolds(Waited(c, spec, tries, i), spec, tries, i);
      StatusScriptWaits(c, spec, tries, i + 1);
    } else {
      LastAttempt(Waited(c, spec, tries, i), spec, StatusStep(Succeeds(tries(i))));
    }
  }

  /** Once there, a reconcile changes neither pod nor service, with or without API errors: the service is
      as before, and whatever is different about the pod is what the environment did to it meanwhile. */
  lemma ConvergedIsStable(c: Cluster, spec: Spec, found: Resource, fault: Fault, tries: nat -> Attempt)
    requires Converged(c, spec) && c.service == Some(DesiredService(spec))
    ensures var c' := AfterReconcile(c, spec, found, fault, tries);
            && c'.service == c.service
            && (c'.pod == c.pod || c'.pod == Waited(c, spec, tries, StatusStop(tries)).pod)
            && ((forall i :: 0 <= i < MAX_RETRIES ==> tries(i).meanwhile == []) ==> c'.pod == c.pod)
  {
    if Proceeds(c, found, fault) {
      var start := c.(finalizer := true);
      PassesUnfold(start, spec, fault, tries);
      StatusScriptWaits(start, spec, tries, 0);
      WaitingSeesPodOnly(start, c, spec, tries, StatusStop(tries));
      WaitingSeesPodOnly(c, c, spec, tries, StatusStop(tries));
    }
  }

  /** The condition on containers is needed: a pod without any is accepted as it is, so from there no
      harmless schedule ever reaches the wanted pod. */
  lemma {:induction false} ContainerlessPodIsKept(c: Cluster, spec: Spec, schedule: seq<Action>)
    requires c.pod.Some? && c.pod.value.image.None? && Rank(c, spec) == 0
    requires HarmlessRun(c, spec, schedule)
    ensures var end := Exec(c, spec, schedule); end.pod.Some? && end.pod.value.image.None? && !Converged(end, spec)
    decreases |schedule|
  {
    if schedule != [] {
      ContainerlessPodIsKept(Step(c, spec, schedule[0]), spec, schedule[1..]);
    }
  }
}
