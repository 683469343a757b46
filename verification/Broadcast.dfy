/** Fan-out and fan-in of one task: Process and Broadcast of ponos/pkg/taskSession/taskSession.go. The
    signature aggregator stays abstract: what its calls answer is part of the schedule. */
module Broadcast {
  import opened HexText

  /** 1.5 MiB */
  const MAXIMUM_TASK_RESPONSE_SIZE := 1_572_864

  datatype Result = Result(taskId: string, operator: string, size: nat)

  /** The constant part: the task's id and the operator address of each peer. */
  datatype Session = Session(taskId: string, peers: seq<string>)

  datatype PeerPc = Submitting | Sending(r: Result) | Ended(sent: bool)

  datatype LoopPc =
    | Waiting                 // in the select statement
    | Handling(r: Result)     // task id matched, ProcessNewSignature next
    | Accepted                // SigningThresholdMet next
    | ThresholdMet            // GenerateFinalCertificate next
    | CertReady | CertFailed | ContextEnded   // Broadcast has returned
    | CertSent | ErrorSent    // its goroutine has put the outcome on certChan or errChan

  datatype ProcessPc = Selecting | ReturnedCert | ReturnedDone

  /** What became of one call of ProcessNewSignature. */
  datatype Answer = Refused | BelowThreshold | Met

  datatype Delivery = Delivery(peer: nat, r: Result)

  datatype State = State(
    peers: seq<PeerPc>, channel: seq<Delivery>, consumed: seq<Delivery>,
    loop: LoopPc, processed: seq<Result>, answers: seq<Answer>,
    process: ProcessPc, certChan: bool, errChan: bool, contextDone: bool)

  datatype Action =
    | GiveUp(i: nat)                // no socket, client, signature or answer
    | Reply(i: nat, r: Result)
    | Send(i: nat)
    | Receive
    | ProcessSignature(ok: bool)
    | CheckThreshold(met: bool)
    | GenerateCertificate(ok: bool)
    | SeeContextDone                // Broadcast's select
    | Publish                       // the goroutine started by Process
    | TakeCertificate               // Process's select
    | SeeProcessDone
    | EndContext

  function Init(c: Session): State {
    State(seq(|c.peers|, _ => Submitting), [], [], Waiting, [], [], Selecting, false, false, false)
  }

  /** The channel has room for one result per operator. */
  function Capacity(c: Session): nat { |c.peers| }

  function Step(c: Session, s: State, a: Action): State {
    match a
    case GiveUp(i) =>
      if i < |s.peers| && s.peers[i].Submitting? then s.(peers := s.peers[i := Ended(false)]) else s
    case Reply(i, r) =>
      if i >= |s.peers| || i >= |c.peers| || !s.peers[i].Submitting? then s
      else if !EqualFold(r.operator, c.peers[i]) || r.size >= MAXIMUM_TASK_RESPONSE_SIZE then
        s.(peers := s.peers[i := Ended(false)])
      else s.(peers := s.peers[i := Sending(r)])
    case Send(i) =>
      if i >= |s.peers| || !s.peers[i].Sending? || |s.channel| >= Capacity(c) then s
      else s.(channel := s.channel + [Delivery(i, s.peers[i].r)], peers := s.peers[i := Ended(true)])
    case Receive =>
      if s.loop != Waiting || s.channel == [] then s
      else
        var d := s.channel[0];
        s.(channel := s.channel[1..], consumed := s.consumed + [d],
           loop := if d.r.taskId == c.taskId then Handling(d.r) else Waiting)
    case ProcessSignature(ok) =>
      if !s.loop.Handling? then s
      else if ok then s.(processed := s.processed + [s.loop.r], loop := Accepted)
      else s.(processed := s.processed + [s.loop.r], answers := s.answers + [Refused], loop := Waiting)
    case CheckThreshold(met) =>
      if s.loop != Accepted then s
      else if met then s.(answers := s.answers + [Met], loop := ThresholdMet)
      else s.(answers := s.answers + [BelowThreshold], loop := Waiting)
    case GenerateCertificate(ok) =>
      if s.loop != ThresholdMet then s else s.(loop := if ok then CertReady else CertFailed)
    case SeeContextDone => if s.loop == Waiting && s.contextDone then s.(loop := ContextEnded) else s
    case Publish =>
      if s.loop == CertReady then s.(loop := CertSent, certChan := true)
      else if s.loop == CertFailed || s.loop == ContextEnded then s.(loop := ErrorSent, errChan := true)
      else s
    case TakeCertificate =>
      if s.process == Selecting && s.certChan then s.(process := ReturnedCert, certChan := false) else s
    case SeeProcessDone => if s.process == Selecting && s.contextDone then s.(process := ReturnedDone) else s
    case EndContext => s.(contextDone := true)
  }

  function Exec(c: Session, s: State, schedule: seq<Action>): State {
    if schedule == [] then s
    else Step(c, Exec(c, s, schedule[..|schedule| - 1]), schedule[|schedule| - 1])
  }

  // ----- the channel

  function SentCount(peers: seq<PeerPc>): nat {
    if peers == [] then 0 else (if peers[0] == Ended(true) then 1 else 0) + SentCount(peers[1..])
  }

  lemma {:induction false} SentUpdate(peers: seq<PeerPc>, i: nat, pc: PeerPc)
    requires i < |peers|
    ensures SentCount(peers[i := pc]) == SentCount(peers) - (if peers[i] == Ended(true) then 1 else 0)
                                         + (if pc == Ended(true) then 1 else 0)
    ensures SentCount(peers) <= |peers|
    ensures peers[i] != Ended(true) ==> SentCount(peers) < |peers|
  {
    SentAtMost(peers[1..]);
    if i == 0 {
      assert peers[i := pc][1..] == peers[1..];
    } else {
      assert peers[i := pc][1..] == peers[1..][i - 1 := pc];
      SentUpdate(peers[1..], i - 1, pc);
    }
  }

  lemma {:induction false} SentAtMost(peers: seq<PeerPc>)
    ensures SentCount(peers) <= |peers|
    ensures (forall i :: 0 <= i < |peers| ==> peers[i] == Submitting) ==> SentCount(peers) == 0
  {
    if peers != [] { SentAtMost(peers[1..]); }
  }

  function Log(s: State): seq<Delivery> { s.consumed + s.channel }

  /** The result came from that peer, which answered under its own address and within the size limit. */
  predicate Genuine(c: Session, d: Delivery) {
    d.peer < |c.peers| && EqualFold(d.r.operator, c.peers[d.peer]) && d.r.size < MAXIMUM_TASK_RESPONSE_SIZE
  }

  ghost predicate Counts(c: Session, s: State) {
    |s.peers| == |c.peers| && |Log(s)| == SentCount(s.peers)
  }

  ghost predicate SendersGenuine(c: Session, s: State) {
    forall i :: 0 <= i < |s.peers| && s.peers[i].Sending? ==> Genuine(c, Delivery(i, s.peers[i].r))
  }

  ghost predicate LogGenuine(c: Session, s: State) {
    forall k :: 0 <= k < |Log(s)| ==>
      Genuine(c, Log(s)[k]) && Log(s)[k].peer < |s.peers| && s.peers[Log(s)[k].peer] == Ended(true)
  }

  ghost predicate OneEach(ds: seq<Delivery>) {
    forall j, k :: 0 <= j < |ds| && 0 <= k < |ds| && ds[j].peer == ds[k].peer ==> j == k
  }

  ghost predicate ChannelInv(c: Session, s: State) {
    Counts(c, s) && SendersGenuine(c, s) && LogGenuine(c, s) && OneEach(Log(s))
  }

  lemma LogGrows(c: Session, s: State, a: Action)
    ensures Log(Step(c, s, a)) ==
            if a.Send? && Step(c, s, a) != s && a.i < |s.peers| && s.peers[a.i].Sending?
            then Log(s) + [Delivery(a.i, s.peers[a.i].r)] else Log(s)
  {
    if a.Receive? && Step(c, s, a) != s {
      assert s.consumed + [s.channel[0]] + s.channel[1..] == Log(s);
    } else if a.Send? && Step(c, s, a) != s {
      var d := Delivery(a.i, s.peers[a.i].r);
      assert s.consumed + (s.channel + [d]) == Log(s) + [d];
    }
  }

  predicate TouchesPeer(a: Action) {
    a.GiveUp? || a.Reply? || a.Send?
  }

  lemma OtherActionsKeepPeers(c: Session, s: State, a: Action)
    requires !TouchesPeer(a)
    ensures Step(c, s, a).peers == s.peers && Log(Step(c, s, a)) == Log(s)
  {
    LogGrows(c, s, a);
  }

  /** A peer action changes at most that peer, which had not sent before. */
  lemma PeerChange(c: Session, s: State, a: Action)
    requires TouchesPeer(a) && Step(c, s, a) != s
    ensures a.i < |s.peers| && s.peers[a.i] != Ended(true)
    ensures Step(c, s, a).peers == s.peers[a.i := Step(c, s, a).peers[a.i]]
    ensures Step(c, s, a).peers[a.i] == Ended(true) <==> a.Send?
    ensures a.Send? ==> s.peers[a.i].Sending? && Log(Step(c, s, a)) == Log(s) + [Delivery(a.i, s.peers[a.i].r)]
    ensures !a.Send? ==> Log(Step(c, s, a)) == Log(s)
  {
    LogGrows(c, s, a);
  }

  lemma StepKeepsCounts(c: Session, s: State, a: Action)
    requires Counts(c, s) && TouchesPeer(a) && Step(c, s, a) != s
    ensures Counts(c, Step(c, s, a))
  {
    PeerChange(c, s, a);
    SentUpdate(s.peers, a.i, Step(c, s, a).peers[a.i]);
  }

  lemma SenderIsGenuine(c: Session, s: State, a: Action)
    requires TouchesPeer(a) && Step(c, s, a) != s && |s.peers| == |c.peers|
    ensures var s' := Step(c, s, a);
            a.i < |s'.peers| && s'.peers[a.i].Sending? ==> Genuine(c, Delivery(a.i, s'.peers[a.i].r))
  {
  }

  lemma StepKeepsGenuine(c: Session, s: State, a: Action)
    requires Counts(c, s) && SendersGenuine(c, s) && LogGenuine(c, s) && TouchesPeer(a) && Step(c, s, a) != s
    ensures SendersGenuine(c, Step(c, s, a)) && LogGenuine(c, Step(c, s, a))
  {
    var s' := Step(c, s, a);
    PeerChange(c, s, a);
    SenderIsGenuine(c, s, a);
    forall k | 0 <= k < |Log(s')|
      ensures Genuine(c, Log(s')[k]) && Log(s')[k].peer < |s'.peers| && s'.peers[Log(s')[k].peer] == Ended(true)
    {
      assert k < |Log(s)| ==> Log(s')[k] == Log(s)[k];
    }
  }

  lemma StepKeepsOneEach(c: Session, s: State, a: Action)
    requires LogGenuine(c, s) && OneEach(Log(s)) && TouchesPeer(a) && Step(c, s, a) != s
    ensures OneEach(Log(Step(c, s, a)))
  {
    PeerChange(c, s, a);
  }

  lemma StepKeepsChannel(c: Session, s: State, a: Action)
    requires ChannelInv(c, s)
    ensures ChannelInv(c, Step(c, s, a))
  {
    if Step(c, s, a) == s {
    } else if TouchesPeer(a) {
      StepKeepsCounts(c, s, a);
      StepKeepsGenuine(c, s, a);
      StepKeepsOneEach(c, s, a);
    } else {
      OtherActionsKeepPeers(c, s, a);
    }
  }

  // ----- the collecting loop

  /** The consumed results that carry the task's id, in order of arrival. */
  function Matching(c: Session, ds: seq<Delivery>): seq<Result> {
    if ds == [] then []
    else
      var last := ds[|ds| - 1].r;
      Matching(c, ds[..|ds| - 1]) + (if last.taskId == c.taskId then [last] else [])
  }

  predicate PastThreshold(loop: LoopPc) {
    loop == ThresholdMet || loop == CertReady || loop == CertFailed || loop == CertSent
  }

  ghost predicate MatchingProcessed(c: Session, s: State) {
    Matching(c, s.consumed) == s.processed + (if s.loop.Handling? then [s.loop.r] else [])
  }

  ghost predicate AnswersInv(s: State) {
    && |s.processed| == |s.answers| + (if s.loop == Accepted then 1 else 0)
    && (PastThreshold(s.loop) ==> s.answers != [] && s.answers[|s.answers| - 1] == Met)
    && MetOnlyLast(s.answers)
    && (s.answers != [] && s.answers[|s.answers| - 1] == Met ==> PastThreshold(s.loop) || s.loop == ErrorSent)
  }

  predicate MetOnlyLast(answers: seq<Answer>) {
    forall k :: 0 <= k < |answers| - 1 ==> answers[k] != Met
  }

  lemma MetAppend(answers: seq<Answer>, a: Answer)
    requires MetOnlyLast(answers) && (answers != [] ==> answers[|answers| - 1] != Met)
    ensures MetOnlyLast(answers + [a])
  {
  }

  lemma MatchingAppend(c: Session, ds: seq<Delivery>, d: Delivery)
    ensures Matching(c, ds + [d]) == Matching(c, ds) + (if d.r.taskId == c.taskId then [d.r] else [])
  {
    assert (ds + [d])[..|ds|] == ds;
  }

  lemma ReceiveKeepsMatching(c: Session, s: State)
    requires MatchingProcessed(c, s)
    ensures MatchingProcessed(c, Step(c, s, Receive))
  {
    if s.loop == Waiting && s.channel != [] {
      MatchingAppend(c, s.consumed, s.channel[0]);
      assert s.processed + [] == s.processed;
    }
  }

  lemma ProcessKeepsMatching(c: Session, s: State, ok: bool)
    requires MatchingProcessed(c, s)
    ensures MatchingProcessed(c, Step(c, s, ProcessSignature(ok)))
  {
    if s.loop.Handling? {
      assert (s.processed + [s.loop.r]) + [] == s.processed + [s.loop.r];
    }
  }

  lemma OtherActionsKeepCalls(c: Session, s: State, a: Action)
    requires !a.Receive? && !a.ProcessSignature?
    ensures var s' := Step(c, s, a);
            && s'.consumed == s.consumed && s'.processed == s.processed
            && s'.loop.Handling? == s.loop.Handling? && (s.loop.Handling? ==> s'.loop == s.loop)
  {
  }

  lemma StepKeepsMatching(c: Session, s: State, a: Action)
    requires MatchingProcessed(c, s)
    ensures MatchingProcessed(c, Step(c, s, a))
  {
    if a.Receive? {
      ReceiveKeepsMatching(c, s);
    } else if a.ProcessSignature? {
      ProcessKeepsMatching(c, s, a.ok);
    } else {
      OtherActionsKeepCalls(c, s, a);
    }
  }

  lemma ProcessKeepsAnswers(c: Session, s: State, ok: bool)
    requires AnswersInv(s)
    ensures AnswersInv(Step(c, s, ProcessSignature(ok)))
  {
    if s.loop.Handling? && !ok { MetAppend(s.answers, Refused); }
  }

  lemma CheckKeepsAnswers(c: Session, s: State, met: bool)
    requires AnswersInv(s)
    ensures AnswersInv(Step(c, s, CheckThreshold(met)))
  {
    if s.loop == Accepted { MetAppend(s.answers, if met then Met else BelowThreshold); }
  }

  lemma OtherActionsKeepAnswers(c: Session, s: State, a: Action)
    requires !a.ProcessSignature? && !a.CheckThreshold? && AnswersInv(s)
    ensures AnswersInv(Step(c, s, a))
  {
    var s' := Step(c, s, a);
    assert s'.answers == s.answers && s'.processed == s.processed;
  }

  lemma StepKeepsAnswers(c: Session, s: State, a: Action)
    requires AnswersInv(s)
    ensures AnswersInv(Step(c, s, a))
  {
    if a.ProcessSignature? {
      ProcessKeepsAnswers(c, s, a.ok);
    } else if a.CheckThreshold? {
      CheckKeepsAnswers(c, s, a.met);
    } else {
      OtherActionsKeepAnswers(c, s, a);
    }
  }

  ghost predicate ProcessInv(s: State) {
    && (s.certChan ==> s.loop == CertSent)
    && (s.process == ReturnedCert ==> s.loop == CertSent)
    && (s.loop == CertSent && s.process == Selecting ==> s.certChan)
    && (s.process == ReturnedDone || s.loop == ContextEnded ==> s.contextDone)
  }

  lemma StepKeepsProcess(c: Session, s: State, a: Action)
    requires ProcessInv(s)
    ensures ProcessInv(Step(c, s, a))
  {
  }

  lemma {:induction false} ReachableInv(c: Session, schedule: seq<Action>)
    ensures var s := Exec(c, Init(c), schedule); ChannelInv(c, s) && MatchingProcessed(c, s) && AnswersInv(s) && ProcessInv(s)
  {
    if schedule == [] {
      SentAtMost(Init(c).peers);
    } else {
      var front, a := schedule[..|schedule| - 1], schedule[|schedule| - 1];
      ReachableInv(c, front);
      var s := Exec(c, Init(c), front);
      StepKeepsChannel(c, s, a);
      StepKeepsMatching(c, s, a);
      StepKeepsAnswers(c, s, a);
      StepKeepsProcess(c, s, a);
    }
  }

  // ----- main results

  /** Whatever the schedule, and even after Broadcast has returned, a peer goroutine that wants to send
      finds room: the send completes at once. */
  lemma SendNeverBlocks(c: Session, schedule: seq<Action>, i: nat)
    ensures var s := Exec(c, Init(c), schedule);
            i < |s.peers| && s.peers[i].Sending? ==>
              && |s.channel| < |c.peers|
              && Step(c, s, Send(i)).peers[i] == Ended(true)
  {
    ReachableInv(c, schedule);
    var s := Exec(c, Init(c), schedule);
    if i < |s.peers| && s.peers[i].Sending? {
      SentUpdate(s.peers, i, Ended(true));
    }
  }

  /** Each peer contributes at most one result; ProcessNewSignature is called on exactly the consumed
      results with the task's id, in order of arrival, hence at most once per operator; each of them
      came from a peer under its own address and below the size limit. */
  lemma ProcessedResults(c: Session, schedule: seq<Action>)
    ensures var s := Exec(c, Init(c), schedule);
            && (forall j, k :: 0 <= j < |s.consumed| && 0 <= k < |s.consumed| && s.consumed[j].peer == s.consumed[k].peer
                               ==> j == k)
            && (forall k :: 0 <= k < |s.consumed| ==> Genuine(c, s.consumed[k]))
            && Matching(c, s.consumed) == s.processed + (if s.loop.Handling? then [s.loop.r] else [])
            && (forall k :: 0 <= k < |s.processed| ==> s.processed[k].taskId == c.taskId)
            && (forall j :: 0 <= j < |s.consumed| && s.consumed[j].r.taskId == c.taskId ==>
                  s.consumed[j].r in s.processed || (s.loop.Handling? && s.consumed[j].r == s.loop.r))
            && |s.processed| <= |s.consumed| <= |c.peers|
  {
    ReachableInv(c, schedule);
    var s := Exec(c, Init(c), schedule);
    assert forall k :: 0 <= k < |s.consumed| ==> Log(s)[k] == s.consumed[k];
    SentAtMost(s.peers);
    MatchingBound(c, s.consumed);
    var all := Matching(c, s.consumed);
    assert forall k :: 0 <= k < |s.processed| ==> s.processed[k] == all[k];
    forall j | 0 <= j < |s.consumed| && s.consumed[j].r.taskId == c.taskId
      ensures s.consumed[j].r in s.processed || (s.loop.Handling? && s.consumed[j].r == s.loop.r)
    {
      MatchingHasAll(c, s.consumed, j);
    }
  }

  lemma {:induction false} MatchingHasAll(c: Session, ds: seq<Delivery>, j: nat)
    requires j < |ds| && ds[j].r.taskId == c.taskId
    ensures ds[j].r in Matching(c, ds)
  {
    if j < |ds| - 1 { MatchingHasAll(c, ds[..|ds| - 1], j); }
  }

  lemma {:induction false} MatchingBound(c: Session, ds: seq<Delivery>)
    ensures |Matching(c, ds)| <= |ds|
    ensures forall k :: 0 <= k < |Matching(c, ds)| ==>
              Matching(c, ds)[k].taskId == c.taskId && exists j :: 0 <= j < |ds| && ds[j].r == Matching(c, ds)[k]
  {
    if ds != [] {
      var front := ds[..|ds| - 1];
      MatchingBound(c, front);
      forall k | 0 <= k < |Matching(c, ds)|
        ensures Matching(c, ds)[k].taskId == c.taskId && exists j :: 0 <= j < |ds| && ds[j].r == Matching(c, ds)[k]
      {
        if k < |Matching(c, front)| {
          var j :| 0 <= j < |front| && front[j].r == Matching(c, front)[k];
          assert ds[j].r == Matching(c, ds)[k];
        } else {
          assert ds[|ds| - 1].r == Matching(c, ds)[k];
        }
      }
    }
  }

  /** Broadcast produces a certificate only right after the first processed result with which the
      threshold held: that result is the last one it ever processed. */
  lemma CertificateMeansThreshold(c: Session, schedule: seq<Action>)
    ensures var s := Exec(c, Init(c), schedule);
            s.loop == CertReady || s.loop == CertSent ==>
              && |s.answers| == |s.processed| > 0
              && s.answers[|s.answers| - 1] == Met
              && (forall k :: 0 <= k < |s.answers| - 1 ==> s.answers[k] != Met)
              && s.processed == Matching(c, s.consumed)
  {
    ReachableInv(c, schedule);
  }

  /** Process returns a certificate only if Broadcast produced one, and otherwise only once the context
      is done. */
  lemma ProcessAnswers(c: Session, schedule: seq<Action>)
    ensures var s := Exec(c, Init(c), schedule);
            && (s.process == ReturnedCert ==> s.loop == CertSent && Met in s.answers)
            && (s.process == ReturnedDone ==> s.contextDone)
            && (s.process == Selecting || s.loop == CertSent || s.contextDone)
  {
    ReachableInv(c, schedule);
  }

  /** The other way round, no certificate is lost: from every reachable state with a certificate and a
      waiting Process, the remaining steps return it, whether or not the context has ended. */
  lemma CertificateIsReturned(c: Session, schedule: seq<Action>)
    ensures var s := Exec(c, Init(c), schedule);
            s.process == Selecting ==>
              && (s.loop == CertReady ==> Step(c, Step(c, s, Publish), TakeCertificate).process == ReturnedCert)
              && (s.loop == CertSent ==> Step(c, s, TakeCertificate).process == ReturnedCert)
              && (s.certChan ==> Step(c, s, TakeCertificate).process == ReturnedCert)
  {
    ReachableInv(c, schedule);
  }

  /** What a peer goroutine does: it ends without a trace, or sends a genuine answer to the end of the
      channel, where the receiving loop finds it. */
  lemma PeerEnds(c: Session, s: State, i: nat, r: Result)
    requires |s.peers| == |c.peers| && i < |s.peers| && s.peers[i] == Submitting
    ensures Step(c, s, GiveUp(i)) == s.(peers := s.peers[i := Ended(false)])
    ensures EqualFold(r.operator, c.peers[i]) && r.size < 1_572_864 ==>
              (|s.channel| < |c.peers| ==>
                 Step(c, Step(c, s, Reply(i, r)), Send(i))
                 == s.(peers := s.peers[i := Ended(true)], channel := s.channel + [Delivery(i, r)]))
    ensures |s.channel| >= |c.peers| ==> Step(c, Step(c, s, Reply(i, r)), Send(i)).channel == s.channel
    ensures !EqualFold(r.operator, c.peers[i]) || r.size >= 1_572_864 ==>
              Step(c, s, Reply(i, r)) == s.(peers := s.peers[i := Ended(false)])
  {
    assert s.peers[i := Sending(r)][i := Ended(true)] == s.peers[i := Ended(true)];
  }

  /** The end of the context ends both loops that wait, and neither sees it before. */
  lemma ContextEnds(c: Session, s: State)
    ensures var e := Step(c, s, EndContext);
            && (s.process == Selecting ==> Step(c, e, SeeProcessDone).process == ReturnedDone)
            && (s.loop == Waiting ==>
                  var f := Step(c, Step(c, e, SeeContextDone), Publish);
                  f.loop == ErrorSent && f.errChan && f.answers == s.answers)
    ensures !s.contextDone ==> Step(c, s, SeeProcessDone) == s && Step(c, s, SeeContextDone) == s
  {
  }

  predicate ContextStays(schedule: seq<Action>) {
    forall i :: 0 <= i < |schedule| ==> !schedule[i].EndContext?
  }

  /** Broadcast has failed, or is about to say so on errChan, and Process still waits. */
  predicate FailedUnheard(s: State) {
    (s.loop == CertFailed || s.loop == ErrorSent) && s.process == Selecting
  }

  lemma {:induction false} FailureStaysUnheard(c: Session, s: State, later: seq<Action>)
    requires FailedUnheard(s) && !s.certChan && !s.contextDone && ContextStays(later)
    ensures var t := Exec(c, s, later); FailedUnheard(t) && !t.certChan && !t.contextDone
  {
    if later != [] {
      var front := later[..|later| - 1];
      assert forall i :: 0 <= i < |front| ==> front[i] == later[i];
      FailureStaysUnheard(c, s, front);
    }
  }

  /** errChan is written and never read: in every reachable state in which Broadcast has failed, Process
      can return without a further end of the context exactly when the context has already ended. */
  lemma ErrorNeverWakesProcess(c: Session, schedule: seq<Action>)
    requires FailedUnheard(Exec(c, Init(c), schedule))
    ensures var s := Exec(c, Init(c), schedule);
            (exists later :: ContextStays(later) && Exec(c, s, later).process != Selecting) <==> s.contextDone
  {
    ReachableInv(c, schedule);
    var s := Exec(c, Init(c), schedule);
    if s.contextDone {
      var later := [SeeProcessDone];
      assert later[..0] == [];
      assert ContextStays(later) && Exec(c, s, later).process == ReturnedDone;
    } else {
      forall later | ContextStays(later) ensures Exec(c, s, later).process == Selecting {
        FailureStaysUnheard(c, s, later);
      }
    }
  }

  lemma Extend(c: Session, schedule: seq<Action>, s: State, a: Action) returns (schedule': seq<Action>, s': State)
    requires Exec(c, Init(c), schedule) == s
    ensures schedule' == schedule + [a] && s' == Step(c, s, a) && Exec(c, Init(c), schedule') == s'
  {
    schedule', s' := schedule + [a], Step(c, s, a);
    assert schedule'[..|schedule'| - 1] == schedule;
  }

  lemma FirstResultArrives(c: Session) returns (schedule: seq<Action>, s: State)
    requires c.peers != []
    ensures s == Exec(c, Init(c), schedule) && ContextStays(schedule)
    ensures s.loop.Handling? && s.process == Selecting && !s.contextDone
  {
    var r := Result(c.taskId, c.peers[0], 0);
    s := Init(c);
    schedule := [];
    schedule, s := Extend(c, schedule, s, Reply(0, r));
    assert s == Init(c).(peers := Init(c).peers[0 := Sending(r)]);
    schedule, s := Extend(c, schedule, s, Send(0));
    assert s.channel == [Delivery(0, r)] && s.loop == Waiting && s.process == Selecting && !s.contextDone;
    schedule, s := Extend(c, schedule, s, Receive);
  }

  lemma ThresholdIsReached(c: Session) returns (schedule: seq<Action>, s: State)
    requires c.peers != []
    ensures s == Exec(c, Init(c), schedule) && ContextStays(schedule)
    ensures s.loop == ThresholdMet && s.process == Selecting && !s.contextDone
  {
    schedule, s := FirstResultArrives(c);
    schedule, s := Extend(c, schedule, s, ProcessSignature(true));
    assert s.loop == Accepted && s.process == Selecting && !s.contextDone;
    schedule, s := Extend(c, schedule, s, CheckThreshold(true));
  }

  /** Every session with a peer has such a run: one result completes the threshold, the certificate
      cannot be generated, the error goes to errChan, and Process waits on. */
  lemma FailureHappens(c: Session) returns (schedule: seq<Action>)
    requires c.peers != []
    ensures var s := Exec(c, Init(c), schedule);
            FailedUnheard(s) && s.loop == ErrorSent && s.errChan && !s.contextDone && ContextStays(schedule)
  {
    var s;
    schedule, s := ThresholdIsReached(c);
    schedule, s := Extend(c, schedule, s, GenerateCertificate(false));
    assert s.loop == CertFailed && s.process == Selecting && !s.contextDone;
    schedule, s := Extend(c, schedule, s, Publish);
  }

  /** And every session with a peer has a run in which Process returns the certificate, long before the
      context ends. */
  lemma SuccessHappens(c: Session) returns (schedule: seq<Action>)
    requires c.peers != []
    ensures var s := Exec(c, Init(c), schedule);
            s.process == ReturnedCert && s.loop == CertSent && !s.contextDone && ContextStays(schedule)
  {
    var s;
    schedule, s := ThresholdIsReached(c);
    schedule, s := Extend(c, schedule, s, GenerateCertificate(true));
    assert s.loop == CertReady && s.process == Selecting && !s.contextDone;
    schedule, s := Extend(c, schedule, s, Publish);
    assert s.loop == CertSent && s.certChan && s.process == Selecting && !s.contextDone;
    schedule, s := Extend(c, schedule, s, TakeCertificate);
  }

  // ----- the select loop as a method

  datatype BroadcastResult = Certificate | CertificateError | ContextError

  /** The aggregator, seen through its calls: both answers depend on the results handed to it so far. */
  datatype Aggregator = Aggregator(accepts: seq<Result> -> bool, thresholdMet: seq<Result> -> bool, certificateOk: bool)

  predicate Completes(c: Session, agg: Aggregator, arrivals: seq<Delivery>, k: nat)
    requires k < |arrivals|
  {
    var calls := Matching(c, arrivals[..k + 1]);
    arrivals[k].r.taskId == c.taskId && agg.accepts(calls) && agg.thresholdMet(calls)
  }

  /** The loop stops behind the first arrival that completes the threshold; without one it takes all
      arrivals and ends by the context. */
  ghost predicate StopsAt(c: Session, agg: Aggregator, arrivals: seq<Delivery>, b: BroadcastResult, stop: nat) {
    && stop <= |arrivals|
    && (forall k :: 0 <= k < (if b == ContextError then stop else stop - 1) ==> !Completes(c, agg, arrivals, k))
    && (if b == ContextError then stop == |arrivals|
        else stop > 0 && Completes(c, agg, arrivals, stop - 1) && (b == Certificate <==> agg.certificateOk))
  }

  class TaskSession {
    const session: Session
    var calls: seq<Result>

    constructor (session: Session)
      ensures this.session == session && calls == []
    {
      this.session := session;
      calls := [];
    }

    /** The loop over what arrives on the channel before the context ends; `calls` are the results handed
        to the aggregator. */
    method Collect(arrivals: seq<Delivery>, agg: Aggregator) returns (b: BroadcastResult, stop: nat)
      requires calls == []
      modifies this`calls
      ensures StopsAt(session, agg, arrivals, b, stop)
      ensures calls == Matching(session, arrivals[..stop])
      ensures forall k :: 0 <= k < |calls| ==> calls[k].taskId == session.taskId
      ensures forall j :: 0 <= j < stop && arrivals[j].r.taskId == session.taskId ==> arrivals[j].r in calls
      ensures b == ContextError <==> forall k :: 0 <= k < |arrivals| ==> !Completes(session, agg, arrivals, k)
    {
      stop := 0;
      while stop < |arrivals|
        invariant stop <= |arrivals|
        invariant calls == Matching(session, arrivals[..stop])
        invariant forall k :: 0 <= k < |calls| ==> calls[k].taskId == session.taskId
        invariant forall j :: 0 <= j < stop && arrivals[j].r.taskId == session.taskId ==> arrivals[j].r in calls
        invariant forall k :: 0 <= k < stop ==> !Completes(session, agg, arrivals, k)
      {
        var r := arrivals[stop].r;
        assert arrivals[..stop + 1][..stop] == arrivals[..stop];
        stop := stop + 1;
        if r.taskId != session.taskId { continue; }
        calls := calls + [r];
        if !agg.accepts(calls) { continue; }
        if !agg.thresholdMet(calls) { continue; }
        assert Completes(session, agg, arrivals, stop - 1);
        return if agg.certificateOk then Certificate else CertificateError, stop;
      }
      return ContextError, stop;
    }
  }

  // ----- class and protocol describe the same loop

  /** One round of the loop. Where a step does not apply, because the task id does not match or the
      aggregator said no, it changes nothing. */
  function Round(c: Session, agg: Aggregator, arrivals: seq<Delivery>, k: nat): seq<Action>
    requires k < |arrivals|
  {
    var calls := Matching(c, arrivals[..k + 1]);
    [Receive, ProcessSignature(agg.accepts(calls)), CheckThreshold(agg.thresholdMet(calls)),
     GenerateCertificate(agg.certificateOk)]
  }

  function LoopScript(c: Session, agg: Aggregator, arrivals: seq<Delivery>, k: nat): seq<Action>
    requires k <= |arrivals|
  {
    if k == 0 then [] else LoopScript(c, agg, arrivals, k - 1) + Round(c, agg, arrivals, k - 1)
  }

  /** The state of the loop after k rounds: still waiting, or stopped by a round before. */
  ghost predicate AfterRounds(c: Session, agg: Aggregator, arrivals: seq<Delivery>, k: nat, s: State)
    requires k <= |arrivals|
  {
    || (s.loop == Waiting && s.channel == arrivals[k..] && s.processed == Matching(c, arrivals[..k])
        && forall j :: 0 <= j < k ==> !Completes(c, agg, arrivals, j))
    || (exists stop :: 0 < stop <= k && Completes(c, agg, arrivals, stop - 1)
                       && (forall j :: 0 <= j < stop - 1 ==> !Completes(c, agg, arrivals, j))
                       && s.processed == Matching(c, arrivals[..stop])
                       && s.loop == (if agg.certificateOk then CertReady else CertFailed))
  }

  lemma FourSteps(c: Session, s: State, front: seq<Action>, w: Action, x: Action, y: Action, z: Action)
    ensures Exec(c, s, front + [w, x, y, z])
            == Step(c, Step(c, Step(c, Step(c, Exec(c, s, front), w), x), y), z)
  {
    var a, b, d, e := front + [w], front + [w, x], front + [w, x, y], front + [w, x, y, z];
    assert a[..|a| - 1] == front && b[..|b| - 1] == a && d[..|d| - 1] == b && e[..|e| - 1] == d;
    assert Exec(c, s, a) == Step(c, Exec(c, s, front), w);
    assert Exec(c, s, b) == Step(c, Exec(c, s, a), x);
    assert Exec(c, s, d) == Step(c, Exec(c, s, b), y);
    assert Exec(c, s, e) == Step(c, Exec(c, s, d), z);
  }

  lemma RoundStep(c: Session, agg: Aggregator, arrivals: seq<Delivery>, k: nat, s: State)
    requires k < |arrivals| && AfterRounds(c, agg, arrivals, k, s)
    ensures var r := Round(c, agg, arrivals, k);
            AfterRounds(c, agg, arrivals, k + 1, Step(c, Step(c, Step(c, Step(c, s, r[0]), r[1]), r[2]), r[3]))
  {
    var r := Round(c, agg, arrivals, k);
    if s.loop == Waiting {
      var s1 := Step(c, s, r[0]);
      assert arrivals[k..][0] == arrivals[k] && arrivals[k..][1..] == arrivals[k + 1..];
      assert arrivals[..k + 1] == arrivals[..k] + [arrivals[k]];
      MatchingAppend(c, arrivals[..k], arrivals[k]);
      assert s.processed + [] == s.processed;
      var end := Step(c, Step(c, Step(c, s1, r[1]), r[2]), r[3]);
      assert end.processed == Matching(c, arrivals[..k + 1]);
      if Completes(c, agg, arrivals, k) {
        assert end.loop == (if agg.certificateOk then CertReady else CertFailed);
      } else {
        assert end.loop == Waiting;
      }
    }
  }

  lemma {:induction false} RoundsCollect(c: Session, agg: Aggregator, arrivals: seq<Delivery>, k: nat, s: State)
    requires k <= |arrivals| && s.loop == Waiting && s.channel == arrivals && s.processed == []
    ensures AfterRounds(c, agg, arrivals, k, Exec(c, s, LoopScript(c, agg, arrivals, k)))
  {
    if k > 0 {
      RoundsCollect(c, agg, arrivals, k - 1, s);
      var front, r := LoopScript(c, agg, arrivals, k - 1), Round(c, agg, arrivals, k - 1);
      RoundStep(c, agg, arrivals, k - 1, Exec(c, s, front));
      FourSteps(c, s, front, r[0], r[1], r[2], r[3]);
    }
  }

  /** The protocol steps of the loop hand over the results, and stop, just as the method does. */
  lemma CollectIsASchedule(c: Session, agg: Aggregator, s: State, b: BroadcastResult, stop: nat)
    requires s.loop == Waiting && s.processed == [] && StopsAt(c, agg, s.channel, b, stop)
    ensures var t := Exec(c, s, LoopScript(c, agg, s.channel, |s.channel|));
            && t.processed == Matching(c, s.channel[..stop])
            && t.loop == (match b case Certificate => CertReady case CertificateError => CertFailed case ContextError => Waiting)
  {
    var arrivals := s.channel;
    RoundsCollect(c, agg, arrivals, |arrivals|, s);
    var t := Exec(c, s, LoopScript(c, agg, arrivals, |arrivals|));
    if t.loop != Waiting {
      var last :| 0 < last <= |arrivals| && Completes(c, agg, arrivals, last - 1)
                  && (forall j :: 0 <= j < last - 1 ==> !Completes(c, agg, arrivals, j))
                  && t.processed == Matching(c, arrivals[..last]);
      assert last == stop;
    }
  }
}
