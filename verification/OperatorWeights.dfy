/** From the on-chain operator table to the weights of a task session: buildOperatorWeights and
    filterOperatorsForSet of ponos/pkg/operatorManager/operatorManager.go, ponos/pkg/peering/peering.go,
    and the operator loop of the session constructors in ponos/pkg/taskSession/taskSession.go. */
module OperatorWeights {
  import opened HexText
  import opened Wrappers

  type Weights = map<string, seq<nat>>

  datatype OperatorSet = OperatorSet(id: nat, index: nat, networkAddress: string)
  datatype Peer = Peer(address: string, sets: seq<OperatorSet>)
  datatype SessionOperator = SessionOperator(address: string, index: nat, weights: seq<nat>)

  // ----- peering.go

  function GetOperatorSet(p: Peer, id: nat): Option<OperatorSet> {
    FirstSet(p.sets, id)
  }

  function FirstSet(sets: seq<OperatorSet>, id: nat): Option<OperatorSet> {
    if sets == [] then None else if sets[0].id == id then Some(sets[0]) else FirstSet(sets[1..], id)
  }

  predicate IncludesOperatorSetId(p: Peer, id: nat) {
    exists i :: 0 <= i < |p.sets| && p.sets[i].id == id
  }

  /** The lookup finds the first set with the id, and finds one exactly when membership says so. */
  lemma {:induction false} FirstSetIsFirst(sets: seq<OperatorSet>, id: nat)
    ensures match FirstSet(sets, id)
            case None => forall i :: 0 <= i < |sets| ==> sets[i].id != id
            case Some(os) => exists i :: 0 <= i < |sets| && sets[i] == os && os.id == id
                                         && forall j :: 0 <= j < i ==> sets[j].id != id
  {
    if sets != [] && sets[0].id != id {
      FirstSetIsFirst(sets[1..], id);
      if FirstSet(sets, id).Some? {
        var i :| 0 <= i < |sets[1..]| && sets[1..][i] == FirstSet(sets, id).value
                 && forall j :: 0 <= j < i ==> sets[1..][j].id != id;
        assert sets[i + 1] == sets[1..][i];
        forall j | 0 <= j < i + 1 ensures sets[j].id != id {
          if j > 0 { assert sets[j] == sets[1..][j - 1]; }
        }
      }
    }
  }

  // ----- operatorManager.go

  function LastRow(rows: seq<string>, a: string): Option<nat> {
    if rows == [] then None
    else if rows[|rows| - 1] == a then Some(|rows| - 1)
    else LastRow(rows[..|rows| - 1], a)
  }

  lemma {:induction false} LastRowIsLast(rows: seq<string>, a: string)
    ensures match LastRow(rows, a)
            case None => a !in rows
            case Some(i) => i < |rows| && rows[i] == a && forall j :: i < j < |rows| ==> rows[j] != a
  {
    if rows != [] && rows[|rows| - 1] != a {
      LastRowIsLast(rows[..|rows| - 1], a);
    }
  }

  /** The weight map: each operator of the table, with the weights of its last row. */
  ghost predicate IsWeightMap(rows: seq<string>, weights: seq<seq<nat>>, m: Weights)
    requires |rows| <= |weights|
  {
    forall a :: match LastRow(rows, a)
                case None => a !in m
                case Some(i) => a in m && i < |weights| && m[a] == weights[i]
  }

  method BuildOperatorWeights(rows: seq<string>, weights: seq<seq<nat>>) returns (m: Weights)
    requires |rows| <= |weights|
    ensures IsWeightMap(rows, weights, m)
  {
    m := map[];
    for n := 0 to |rows|
      invariant IsWeightMap(rows[..n], weights, m)
    {
      m := m[rows[n] := weights[n]];
      var now := rows[..n + 1];
      assert now[..n] == rows[..n] && now[n] == rows[n];
      forall a ensures LastRow(now, a) == if a == rows[n] then Some(n) else LastRow(rows[..n], a) {
      }
    }
    assert rows[..|rows|] == rows;
  }

  /** In a weight map every operator of the table has an entry, nobody else has one, and a row that no
      later row repeats determines it. */
  lemma WeightMapRows(rows: seq<string>, weights: seq<seq<nat>>, m: Weights, a: string)
    requires |rows| <= |weights| && IsWeightMap(rows, weights, m)
    ensures a in m <==> a in rows
    ensures forall i :: 0 <= i < |rows| && rows[i] == a && (forall j :: i < j < |rows| ==> rows[j] != a) ==>
              a in m && m[a] == weights[i]
  {
    LastRowIsLast(rows, a);
  }

  predicate Kept(keys: set<string>, p: Peer, id: nat) {
    (exists k :: k in keys && EqualFold(k, p.address)) && IncludesOperatorSetId(p, id)
  }

  /** util.Filter with that criterion: the kept peers in their order. */
  function Filtered(peers: seq<Peer>, keys: set<string>, id: nat): seq<Peer> {
    if peers == [] then []
    else Filtered(peers[..|peers| - 1], keys, id)
         + (if Kept(keys, peers[|peers| - 1], id) then [peers[|peers| - 1]] else [])
  }

  method FilterOperatorsForSet(peers: seq<Peer>, m: Weights, id: nat) returns (out: seq<Peer>)
    ensures out == Filtered(peers, m.Keys, id)
    ensures forall p :: p in out <==>
              && p in peers && (exists k :: k in m && EqualFold(k, p.address))
              && exists i :: 0 <= i < |p.sets| && p.sets[i].id == id
  {
    out := [];
    for n := 0 to |peers|
      invariant out == Filtered(peers[..n], m.Keys, id)
    {
      assert peers[..n + 1][..n] == peers[..n];
      if Kept(m.Keys, peers[n], id) { out := out + [peers[n]]; }
    }
    assert peers[..|peers|] == peers;
    FilteredIsKept(peers, m.Keys, id);
  }

  lemma {:induction false} FilteredIsKept(peers: seq<Peer>, keys: set<string>, id: nat)
    ensures forall i :: 0 <= i < |Filtered(peers, keys, id)| ==>
              Filtered(peers, keys, id)[i] in peers && Kept(keys, Filtered(peers, keys, id)[i], id)
    ensures forall p :: p in peers && Kept(keys, p, id) ==> p in Filtered(peers, keys, id)
  {
    if peers != [] {
      FilteredIsKept(peers[..|peers| - 1], keys, id);
    }
  }

  /** The positions of the true flags. */
  function Positions(flags: seq<bool>): seq<nat> {
    if flags == [] then []
    else Positions(flags[..|flags| - 1]) + (if flags[|flags| - 1] then [|flags| - 1] else [])
  }

  lemma {:induction false} PositionsIncrease(flags: seq<bool>)
    ensures forall k :: 0 <= k < |Positions(flags)| ==> Positions(flags)[k] < |flags|
    ensures forall j, k :: 0 <= j < k < |Positions(flags)| ==> Positions(flags)[j] < Positions(flags)[k]
  {
    if flags != [] { PositionsIncrease(flags[..|flags| - 1]); }
  }

  lemma {:induction false} PositionsAreTrue(flags: seq<bool>, i: nat)
    ensures i in Positions(flags) <==> i < |flags| && flags[i]
  {
    if flags != [] { PositionsAreTrue(flags[..|flags| - 1], i); }
  }

  /** The elements with a true flag, in their order. */
  function Picked(peers: seq<Peer>, flags: seq<bool>): seq<Peer>
    requires |peers| == |flags|
  {
    if peers == [] then []
    else
      var n := |peers| - 1;
      Picked(peers[..n], flags[..n]) + (if flags[n] then [peers[n]] else [])
  }

  lemma {:induction false} PickedAt(peers: seq<Peer>, flags: seq<bool>, k: nat)
    requires |peers| == |flags|
    ensures |Picked(peers, flags)| == |Positions(flags)|
    ensures k < |Positions(flags)| ==>
              Positions(flags)[k] < |peers| && Picked(peers, flags)[k] == peers[Positions(flags)[k]]
  {
    if peers != [] {
      var n := |peers| - 1;
      PickedAt(peers[..n], flags[..n], k);
    }
  }

  function KeptFlags(peers: seq<Peer>, keys: set<string>, id: nat): (f: seq<bool>)
    ensures |f| == |peers| && forall i :: 0 <= i < |peers| ==> f[i] == Kept(keys, peers[i], id)
  {
    seq(|peers|, i requires 0 <= i < |peers| => Kept(keys, peers[i], id))
  }

  lemma {:induction false} FilteredIsPicked(peers: seq<Peer>, keys: set<string>, id: nat)
    ensures Filtered(peers, keys, id) == Picked(peers, KeptFlags(peers, keys, id))
  {
    if peers != [] {
      var n := |peers| - 1;
      FilteredIsPicked(peers[..n], keys, id);
      assert KeptFlags(peers, keys, id)[..n] == KeptFlags(peers[..n], keys, id);
    }
  }

  /** And they come in their order, each as often as it was given: there is an increasing list of exactly the
      indices that meet the criterion, and the k-th kept peer is the one at the k-th of them. */
  lemma FilteredInOrder(peers: seq<Peer>, keys: set<string>, id: nat, i: nat, k: nat, l: nat)
    ensures var at := Positions(KeptFlags(peers, keys, id));
            && (i in at <==> i < |peers| && Kept(keys, peers[i], id))
            && (k < l < |at| ==> at[k] < at[l])
            && |at| == |Filtered(peers, keys, id)|
            && (k < |at| ==> at[k] < |peers| && Filtered(peers, keys, id)[k] == peers[at[k]])
  {
    var flags := KeptFlags(peers, keys, id);
    FilteredIsPicked(peers, keys, id);
    PositionsIncrease(flags);
    PositionsAreTrue(flags, i);
    PickedAt(peers, flags, k);
  }

  // ----- the session's operators

  /** Go's map lookup: a missing key gives nil. */
  function Lookup(m: Weights, a: string): seq<nat> {
    if a in m then m[a] else []
  }

  function SessionEntry(m: Weights, p: Peer, os: OperatorSet): SessionOperator {
    SessionOperator(p.address, os.index, Lookup(m, p.address))
  }

  /** The task, as far as the constructor of the result aggregator looks at it. */
  datatype Task = Task(taskId: string, referenceTimestamp: nat, operatorSetId: nat, thresholdBips: nat)

  datatype SessionError =
    | NoOperatorSet | InvalidTaskId | InvalidReferenceTimestamp | NoOperatorAddresses | InvalidThreshold
    | InvalidPublicKeys

  datatype SessionResult = Opened(operators: seq<SessionOperator>) | Refused(error: SessionError)

  predicate ValidTask(task: Task, keysOk: bool) {
    task.taskId != "" && task.referenceTimestamp != 0 && 1 <= task.thresholdBips <= 10_000 && keysOk
  }

  predicate SessionOpens(task: Task, peers: seq<Peer>, keysOk: bool) {
    && (forall i :: 0 <= i < |peers| ==> GetOperatorSet(peers[i], task.operatorSetId).Some?)
    && peers != [] && ValidTask(task, keysOk)
  }

  /** The operator has the address of the peer, the index of its first set with the id, and the weights that the
      map holds under exactly that address, if any. */
  ghost predicate StandsFor(o: SessionOperator, p: Peer, m: Weights, id: nat) {
    && o.address == p.address
    && o.weights == (if p.address in m then m[p.address] else [])
    && exists j :: 0 <= j < |p.sets| && p.sets[j].id == id && o.index == p.sets[j].index
                   && forall l :: 0 <= l < j ==> p.sets[l].id != id
  }

  lemma SessionStandsFor(peers: seq<Peer>, m: Weights, id: nat)
    requires forall i :: 0 <= i < |peers| ==> GetOperatorSet(peers[i], id).Some?
    ensures |SessionOperators(peers, m, id)| == |peers|
    ensures forall i :: 0 <= i < |peers| ==>
              StandsFor(SessionOperators(peers, m, id)[i], peers[i], m, id) && IncludesOperatorSetId(peers[i], id)
  {
    AllFound(peers, m, id);
    forall i | 0 <= i < |peers|
      ensures StandsFor(SessionOperators(peers, m, id)[i], peers[i], m, id) && IncludesOperatorSetId(peers[i], id)
    {
      FirstSetIsFirst(peers[i].sets, id);
    }
  }

  /** The operator loop of the constructors. */
  method NewOperators(peers: seq<Peer>, m: Weights, id: nat) returns (r: Option<seq<SessionOperator>>)
    ensures r.Some? <==> forall i :: 0 <= i < |peers| ==> GetOperatorSet(peers[i], id).Some?
    ensures r.Some? <==> forall i :: 0 <= i < |peers| ==> IncludesOperatorSetId(peers[i], id)
    ensures r.Some? ==> r.value == SessionOperators(peers, m, id) && |r.value| == |peers|
    ensures r.Some? ==> forall i :: 0 <= i < |peers| ==> StandsFor(r.value[i], peers[i], m, id)
  {
    var operators := [];
    for n := 0 to |peers|
      invariant forall i :: 0 <= i < n ==> GetOperatorSet(peers[i], id).Some?
      invariant operators == SessionOperators(peers[..n], m, id)
    {
      assert peers[..n + 1][..n] == peers[..n];
      var opset := GetOperatorSet(peers[n], id);
      FirstSetIsFirst(peers[n].sets, id);
      if opset.None? { return None; }
      operators := operators + [SessionEntry(m, peers[n], opset.value)];
    }
    assert peers[..|peers|] == peers;
    SessionStandsFor(peers, m, id);
    return Some(operators);
  }

  /** NewBN254TaskSession and NewECDSATaskSession with the aggregator's constructor; `keysOk` says whether
      the public keys can be aggregated, which always works for ECDSA. */
  method NewTaskSession(task: Task, peers: seq<Peer>, m: Weights, keysOk: bool) returns (r: SessionResult)
    ensures r.Opened? <==> SessionOpens(task, peers, keysOk)
    ensures r.Opened? ==>
              && r.operators == SessionOperators(peers, m, task.operatorSetId) && |r.operators| == |peers|
              && forall i :: 0 <= i < |peers| ==> StandsFor(r.operators[i], peers[i], m, task.operatorSetId)
    ensures var found := forall i :: 0 <= i < |peers| ==> IncludesOperatorSetId(peers[i], task.operatorSetId);
            var identified := found && task.taskId != "";
            var dated := identified && task.referenceTimestamp > 0;
            var staffed := dated && peers != [];
            var bounded := staffed && 1 <= task.thresholdBips <= 10_000;
            && (r == Refused(NoOperatorSet) <==> !found)
            && (r == Refused(InvalidTaskId) <==> found && !identified)
            && (r == Refused(InvalidReferenceTimestamp) <==> identified && !dated)
            && (r == Refused(NoOperatorAddresses) <==> dated && !staffed)
            && (r == Refused(InvalidThreshold) <==> staffed && !bounded)
            && (r == Refused(InvalidPublicKeys) <==> bounded && !keysOk)
            && (r.Opened? <==> bounded && keysOk)
  {
    var operators := NewOperators(peers, m, task.operatorSetId);
    if operators.None? { return Refused(NoOperatorSet); }
    if |task.taskId| == 0 { return Refused(InvalidTaskId); }
    if task.referenceTimestamp == 0 { return Refused(InvalidReferenceTimestamp); }
    if |operators.value| == 0 { return Refused(NoOperatorAddresses); }
    if task.thresholdBips == 0 || task.thresholdBips > 10_000 { return Refused(InvalidThreshold); }
    if !keysOk { return Refused(InvalidPublicKeys); }
    return Opened(operators.value);
  }

  /** The operator list when every lookup succeeds. */
  function SessionOperators(peers: seq<Peer>, m: Weights, id: nat): seq<SessionOperator> {
    if peers == [] then []
    else
      var last := peers[|peers| - 1];
      SessionOperators(peers[..|peers| - 1], m, id)
      + (match GetOperatorSet(last, id) case None => [] case Some(os) => [SessionEntry(m, last, os)])
  }

  /** The filter lets through only peers for which the session constructor finds its operator set: on
      filtered peers a session opens exactly when some peer was kept and the task is valid, and it has one
      operator per kept peer, in the same order. */
  lemma {:induction false} FilteredPeersMakeASession(peers: seq<Peer>, m: Weights, task: Task, keysOk: bool)
    ensures var id := task.operatorSetId;
            var kept := Filtered(peers, m.Keys, id);
            && (SessionOpens(task, kept, keysOk) <==>
                (exists i :: 0 <= i < |peers| && Kept(m.Keys, peers[i], id)) && ValidTask(task, keysOk))
            && |SessionOperators(kept, m, id)| == |kept|
            && (forall i :: 0 <= i < |kept| ==>
                  var o := SessionOperators(kept, m, id)[i];
                  o.address == kept[i].address && o.weights == Lookup(m, kept[i].address)
                  && StandsFor(o, kept[i], m, id))
  {
    var id := task.operatorSetId;
    var kept := Filtered(peers, m.Keys, id);
    FilteredIsKept(peers, m.Keys, id);
    forall i | 0 <= i < |kept| ensures GetOperatorSet(kept[i], id).Some? {
      FirstSetIsFirst(kept[i].sets, id);
    }
    AllFound(kept, m, id);
    SessionStandsFor(kept, m, id);
    if kept != [] {
      assert kept[0] in peers && Kept(m.Keys, kept[0], id);
    }
    if i :| 0 <= i < |peers| && Kept(m.Keys, peers[i], id) {
      assert peers[i] in kept;
    }
  }

  lemma {:induction false} AllFound(peers: seq<Peer>, m: Weights, id: nat)
    requires forall i :: 0 <= i < |peers| ==> GetOperatorSet(peers[i], id).Some?
    ensures |SessionOperators(peers, m, id)| == |peers|
    ensures forall i :: 0 <= i < |peers| ==>
              SessionOperators(peers, m, id)[i] == SessionEntry(m, peers[i], GetOperatorSet(peers[i], id).value)
  {
    if peers != [] { AllFound(peers[..|peers| - 1], m, id); }
  }

  /** The filter compares up to letter case, the lookup does not: a kept peer gets the weights of its table
      row when the spelling agrees, and otherwise none at all. */
  lemma KeptPeerWeights(rows: seq<string>, weights: seq<seq<nat>>, m: Weights, p: Peer, id: nat, i: nat)
    requires |rows| <= |weights| && IsWeightMap(rows, weights, m) && Kept(m.Keys, p, id)
    requires i < |rows| && EqualFold(rows[i], p.address)
    requires forall j :: 0 <= j < |rows| && EqualFold(rows[j], p.address) ==> j == i
    ensures rows[i] == p.address ==> Lookup(m, p.address) == weights[i]
    ensures rows[i] != p.address ==> Lookup(m, p.address) == []
    ensures weights[i] != [] ==> (Lookup(m, p.address) == weights[i] <==> rows[i] == p.address)
  {
    WeightMapRows(rows, weights, m, p.address);
    forall j | 0 <= j < |rows| && rows[j] == p.address ensures j == i {
      assert EqualFold(rows[j], p.address);
    }
  }

  // ----- total weight

  function At(w: seq<nat>, k: nat): nat { if k < |w| then w[k] else 0 }

  function SessionTotal(ops: seq<SessionOperator>, k: nat): nat {
    if ops == [] then 0 else SessionTotal(ops[..|ops| - 1], k) + At(ops[|ops| - 1].weights, k)
  }

  /** A row of the table that some operator of the session stands for, up to letter case. */
  predicate SelectedBy(row: string, ops: seq<SessionOperator>) {
    exists i :: 0 <= i < |ops| && EqualFold(row, ops[i].address)
  }

  /** The table's weight at index k, over the rows of the session's operators. */
  function TableTotal(rows: seq<string>, weights: seq<seq<nat>>, ops: seq<SessionOperator>, k: nat): nat
    requires |rows| <= |weights|
  {
    if rows == [] then 0
    else
      var n := |rows| - 1;
      TableTotal(rows[..n], weights, ops, k) + (if SelectedBy(rows[n], ops) then At(weights[n], k) else 0)
  }

  predicate DistinctRows(rows: seq<string>) {
    forall i, j :: 0 <= i < j < |rows| ==> !EqualFold(rows[i], rows[j])
  }

  predicate DistinctAddresses(ops: seq<SessionOperator>) {
    forall i, j :: 0 <= i < j < |ops| ==> !EqualFold(ops[i].address, ops[j].address)
  }

  /** The row of an address up to letter case. */
  function RowOf(rows: seq<string>, a: string): (r: Option<nat>)
    ensures r.Some? ==> r.value < |rows| && EqualFold(rows[r.value], a)
    ensures r.None? ==> forall j :: 0 <= j < |rows| ==> !EqualFold(rows[j], a)
  {
    if rows == [] then None
    else if EqualFold(rows[|rows| - 1], a) then Some(|rows| - 1)
    else RowOf(rows[..|rows| - 1], a)
  }

  function RowWeights(rows: seq<string>, weights: seq<seq<nat>>, a: string): seq<nat>
    requires |rows| <= |weights|
  {
    match RowOf(rows, a) case None => [] case Some(j) => weights[j]
  }

  /** One more operator adds exactly the weight of its row. */
  lemma {:induction false} SelectOneMore(rows: seq<string>, weights: seq<seq<nat>>, ops: seq<SessionOperator>,
                                         o: SessionOperator, k: nat)
    requires |rows| <= |weights| && DistinctRows(rows) && DistinctAddresses(ops + [o])
    ensures TableTotal(rows, weights, ops + [o], k)
            == TableTotal(rows, weights, ops, k) + At(RowWeights(rows, weights, o.address), k)
  {
    if rows != [] {
      var n := |rows| - 1;
      SelectOneMore(rows[..n], weights, ops, o, k);
      assert (ops + [o])[|ops|] == o;
      assert SelectedBy(rows[n], ops + [o]) <==> SelectedBy(rows[n], ops) || EqualFold(rows[n], o.address) by {
        if i :| 0 <= i < |ops| && EqualFold(rows[n], ops[i].address) { assert (ops + [o])[i] == ops[i]; }
      }
      if EqualFold(rows[n], o.address) {
        forall i | 0 <= i < |ops| ensures !EqualFold(rows[n], ops[i].address) {
          assert (ops + [o])[i] == ops[i];
        }
        assert RowOf(rows[..n], o.address) == None;
      }
    }
  }

  /** The operator has the weights of its row if it is spelled like it, and none otherwise. */
  predicate CarriesOwnRow(rows: seq<string>, weights: seq<seq<nat>>, o: SessionOperator)
    requires |rows| <= |weights|
  {
    o.weights == if o.address in rows then RowWeights(rows, weights, o.address) else []
  }

  /** At index k each operator carries the weight of its row. */
  predicate CarriesAt(rows: seq<string>, weights: seq<seq<nat>>, ops: seq<SessionOperator>, k: nat)
    requires |rows| <= |weights|
  {
    forall i :: 0 <= i < |ops| ==> At(ops[i].weights, k) == At(RowWeights(rows, weights, ops[i].address), k)
  }

  /** At each index the session has at most the weight of its rows in the table, and all of it exactly if
      each operator carries the weight of its row. */
  lemma {:induction false} TotalsAgree(rows: seq<string>, weights: seq<seq<nat>>, ops: seq<SessionOperator>, k: nat)
    requires |rows| <= |weights| && DistinctRows(rows) && DistinctAddresses(ops)
    requires forall i :: 0 <= i < |ops| ==> CarriesOwnRow(rows, weights, ops[i])
    ensures SessionTotal(ops, k) <= TableTotal(rows, weights, ops, k)
    ensures SessionTotal(ops, k) == TableTotal(rows, weights, ops, k) <==> CarriesAt(rows, weights, ops, k)
  {
    if ops == [] {
      NothingSelected(rows, weights, k);
    } else {
      var n := |ops| - 1;
      var front, last := ops[..n], ops[n];
      assert ops == front + [last];
      TotalsAgree(rows, weights, front, k);
      SelectOneMore(rows, weights, front, last, k);
      assert At(last.weights, k) <= At(RowWeights(rows, weights, last.address), k);
      assert forall i :: 0 <= i < n ==> ops[i] == front[i];
    }
  }

  lemma {:induction false} NothingSelected(rows: seq<string>, weights: seq<seq<nat>>, k: nat)
    requires |rows| <= |weights|
    ensures TableTotal(rows, weights, [], k) == 0
  {
    if rows != [] { NothingSelected(rows[..|rows| - 1], weights, k); }
  }

  predicate HasWeight(w: seq<nat>) {
    exists k :: 0 <= k < |w| && w[k] != 0
  }

  /** Every operator whose row in the table has weight is spelled like the row, letter case included. */
  predicate SpelledLikeRows(rows: seq<string>, weights: seq<seq<nat>>, ops: seq<SessionOperator>)
    requires |rows| <= |weights|
  {
    forall i, j :: 0 <= i < |ops| && 0 <= j < |rows| && EqualFold(rows[j], ops[i].address) && HasWeight(weights[j])
      ==> rows[j] == ops[i].address
  }

  lemma OwnRow(rows: seq<string>, weights: seq<seq<nat>>, a: string, j: nat)
    requires |rows| <= |weights| && DistinctRows(rows) && j < |rows| && EqualFold(rows[j], a)
    ensures RowWeights(rows, weights, a) == weights[j]
    ensures a in rows <==> rows[j] == a
  {
    var i := RowOf(rows, a).value;
    assert EqualFold(rows[i], rows[j]) && EqualFold(rows[j], rows[i]);
    if a in rows {
      var l :| 0 <= l < |rows| && rows[l] == a;
      assert EqualFold(rows[l], rows[j]) && EqualFold(rows[j], rows[l]);
    }
  }

  lemma AgreementMeansSpelling(rows: seq<string>, weights: seq<seq<nat>>, ops: seq<SessionOperator>)
    requires |rows| <= |weights| && DistinctRows(rows)
    requires forall i :: 0 <= i < |ops| ==> CarriesOwnRow(rows, weights, ops[i])
    ensures (forall k: nat :: CarriesAt(rows, weights, ops, k)) <==> SpelledLikeRows(rows, weights, ops)
  {
    if SpelledLikeRows(rows, weights, ops) {
      forall k: nat, i | 0 <= i < |ops|
        ensures At(ops[i].weights, k) == At(RowWeights(rows, weights, ops[i].address), k)
      {
        var a := ops[i].address;
        if RowOf(rows, a).Some? {
          OwnRow(rows, weights, a, RowOf(rows, a).value);
        }
      }
    } else {
      var i, j :| 0 <= i < |ops| && 0 <= j < |rows| && EqualFold(rows[j], ops[i].address) && HasWeight(weights[j])
                  && rows[j] != ops[i].address;
      OwnRow(rows, weights, ops[i].address, j);
      var k: nat :| k < |weights[j]| && weights[j][k] != 0;
      assert At(ops[i].weights, k) == 0 && At(RowWeights(rows, weights, ops[i].address), k) != 0;
      assert !CarriesAt(rows, weights, ops, k);
    }
  }

  lemma SessionCarriesRows(rows: seq<string>, weights: seq<seq<nat>>, m: Weights, o: SessionOperator)
    requires |rows| <= |weights| && IsWeightMap(rows, weights, m) && DistinctRows(rows)
    requires o.weights == Lookup(m, o.address)
    ensures CarriesOwnRow(rows, weights, o)
  {
    LastRowIsLast(rows, o.address);
    if o.address in rows {
      OwnRow(rows, weights, o.address, LastRow(rows, o.address).value);
    }
  }

  /** Session and table agree at every index. */
  ghost predicate ConservesWeight(rows: seq<string>, weights: seq<seq<nat>>, ops: seq<SessionOperator>)
    requires |rows| <= |weights|
  {
    forall k: nat :: SessionTotal(ops, k) == TableTotal(rows, weights, ops, k)
  }

  lemma ConservationMeansCarrying(rows: seq<string>, weights: seq<seq<nat>>, ops: seq<SessionOperator>)
    requires |rows| <= |weights| && DistinctRows(rows) && DistinctAddresses(ops)
    requires forall i :: 0 <= i < |ops| ==> CarriesOwnRow(rows, weights, ops[i])
    ensures ConservesWeight(rows, weights, ops) <==> forall k: nat :: CarriesAt(rows, weights, ops, k)
  {
    forall k: nat
      ensures SessionTotal(ops, k) == TableTotal(rows, weights, ops, k) <==> CarriesAt(rows, weights, ops, k)
    {
      TotalsAgree(rows, weights, ops, k);
    }
  }

  lemma {:induction false} AllCarryTheirRows(rows: seq<string>, weights: seq<seq<nat>>, m: Weights, peers: seq<Peer>, id: nat)
    requires |rows| <= |weights| && IsWeightMap(rows, weights, m) && DistinctRows(rows)
    ensures forall i :: 0 <= i < |SessionOperators(peers, m, id)| ==>
              CarriesOwnRow(rows, weights, SessionOperators(peers, m, id)[i])
  {
    if peers != [] {
      AllCarryTheirRows(rows, weights, m, peers[..|peers| - 1], id);
      var os := GetOperatorSet(peers[|peers| - 1], id);
      if os.Some? { SessionCarriesRows(rows, weights, m, SessionEntry(m, peers[|peers| - 1], os.value)); }
    }
  }

  /** End to end, for operators distinct up to letter case: the session built from the filtered peers never
      has more weight than the rows of its operators in the table, and it has the same weight at every index
      exactly when each of its operators whose row has weight is spelled like that row. */
  lemma SessionConservesWeight(rows: seq<string>, weights: seq<seq<nat>>, m: Weights, peers: seq<Peer>, id: nat)
    requires |rows| <= |weights| && IsWeightMap(rows, weights, m) && DistinctRows(rows)
    requires DistinctAddresses(SessionOperators(Filtered(peers, m.Keys, id), m, id))
    ensures var ops := SessionOperators(Filtered(peers, m.Keys, id), m, id);
            && (forall k: nat :: SessionTotal(ops, k) <= TableTotal(rows, weights, ops, k))
            && (ConservesWeight(rows, weights, ops) <==> SpelledLikeRows(rows, weights, ops))
  {
    var ops := SessionOperators(Filtered(peers, m.Keys, id), m, id);
    AllCarryTheirRows(rows, weights, m, Filtered(peers, m.Keys, id), id);
    forall k: nat ensures SessionTotal(ops, k) <= TableTotal(rows, weights, ops, k) {
      TotalsAgree(rows, weights, ops, k);
    }
    ConservationMeansCarrying(rows, weights, ops);
    AgreementMeansSpelling(rows, weights, ops);
  }
}
