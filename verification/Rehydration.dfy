/** Start-up of the executor: Initialize and rehydratePerformersFromStorage of
    ponos/pkg/executor/executor.go. */
module Rehydration {
  import opened HexText

  datatype SavedState = SavedState(performerId: string, avsAddress: string, docker: bool)

  /** How the calls for one saved state end. */
  datatype Trial = NotCreated | NotInitialized | NotRehydrated(deleted: bool) | Rehydrated

  datatype AvsConfig = AvsConfig(avsAddress: string, isServer: bool)

  /** Where the performer of an AVS came from. */
  datatype Origin = FromState(i: nat) | FromConfig(i: nat)

  type Performers = map<string, Origin>

  function Key(states: seq<SavedState>, i: nat): string
    requires i < |states|
  {
    ToLower(states[i].avsAddress)
  }

  predicate Succeeds(states: seq<SavedState>, trials: nat -> Trial, i: nat)
    requires i < |states|
  {
    states[i].docker && trials(i) == Rehydrated
  }

  /** When state i is looked at, its AVS already has a performer. */
  predicate Taken(before: Performers, states: seq<SavedState>, trials: nat -> Trial, i: nat)
    requires i < |states|
  {
    Key(states, i) in before
    || exists j :: 0 <= j < i && Key(states, j) == Key(states, i) && Succeeds(states, trials, j)
  }

  datatype Fate = Skipped | Failed | Revived

  function FateOf(before: Performers, states: seq<SavedState>, trials: nat -> Trial, i: nat): Fate
    requires i < |states|
  {
    if Taken(before, states, trials, i) || !states[i].docker then Skipped
    else if trials(i) == Rehydrated then Revived else Failed
  }

  function CountFate(before: Performers, states: seq<SavedState>, trials: nat -> Trial, n: nat, fate: Fate): nat
    requires n <= |states|
  {
    if n == 0 then 0
    else CountFate(before, states, trials, n - 1, fate)
         + (if FateOf(before, states, trials, n - 1) == fate then 1 else 0)
  }

  /** The performers once the first n states have been handled: earlier ones stay, and an AVS without one
      gets it from the first docker state of its own that rehydrates. */
  ghost predicate Revival(before: Performers, states: seq<SavedState>, trials: nat -> Trial, n: nat, after: Performers)
    requires n <= |states|
  {
    && (forall a :: a in before ==> a in after && after[a] == before[a])
    && (forall a :: a in after && a !in before ==>
          && after[a].FromState? && after[a].i < n && Key(states, after[a].i) == a && Succeeds(states, trials, after[a].i)
          && (forall j :: 0 <= j < after[a].i && Key(states, j) == a ==> !Succeeds(states, trials, j)))
    && (forall j :: 0 <= j < n && Succeeds(states, trials, j) ==> Key(states, j) in after)
  }

  predicate DeletedBy(before: Performers, states: seq<SavedState>, trials: nat -> Trial, i: nat, id: string)
    requires i < |states|
  {
    states[i].performerId == id && FateOf(before, states, trials, i) == Failed && trials(i) == NotRehydrated(true)
  }

  /** Exactly the ids of states whose rehydrate call failed, and whose deletion worked, are gone. */
  ghost predicate Deletions(before: Performers, states: seq<SavedState>, trials: nat -> Trial, n: nat,
                            ids: set<string>, after: set<string>)
    requires n <= |states|
  {
    && after <= ids
    && forall id :: id in ids ==>
         (id !in after <==> exists i :: 0 <= i < n && DeletedBy(before, states, trials, i, id))
  }

  lemma NextDeletion(before: Performers, states: seq<SavedState>, trials: nat -> Trial, n: nat,
                     ids: set<string>, now: set<string>, after: set<string>)
    requires n < |states| && Deletions(before, states, trials, n, ids, now)
    requires after == if FateOf(before, states, trials, n) == Failed && trials(n) == NotRehydrated(true)
                      then now - {states[n].performerId} else now
    ensures Deletions(before, states, trials, n + 1, ids, after)
  {
    forall id | id in ids
      ensures id !in after <==> exists i :: 0 <= i < n + 1 && DeletedBy(before, states, trials, i, id)
    {
      if id in now && id !in after {
        assert DeletedBy(before, states, trials, n, id);
      }
    }
  }

  lemma TakenIffPresent(before: Performers, states: seq<SavedState>, trials: nat -> Trial, n: nat, now: Performers)
    requires n < |states| && Revival(before, states, trials, n, now)
    ensures Key(states, n) in now <==> Taken(before, states, trials, n)
  {
  }

  lemma NextRevival(before: Performers, states: seq<SavedState>, trials: nat -> Trial, n: nat, now: Performers)
    requires n < |states| && Revival(before, states, trials, n, now)
    ensures Revival(before, states, trials, n + 1,
                    if FateOf(before, states, trials, n) == Revived then now[Key(states, n) := FromState(n)] else now)
  {
    TakenIffPresent(before, states, trials, n, now);
  }

  /** The first docker state of the AVS that rehydrates. */
  ghost predicate FirstRevival(states: seq<SavedState>, trials: nat -> Trial, i: nat, a: string) {
    && i < |states| && ToLower(states[i].avsAddress) == a && states[i].docker && trials(i) == Rehydrated
    && forall j :: 0 <= j < i && ToLower(states[j].avsAddress) == a ==> !(states[j].docker && trials(j) == Rehydrated)
  }

  /** What a revival over all states means for the map, without its helpers. */
  lemma RevivalInWords(before: Performers, states: seq<SavedState>, trials: nat -> Trial, after: Performers)
    requires Revival(before, states, trials, |states|, after)
    ensures forall a :: a in after && a !in before ==> after[a].FromState? && FirstRevival(states, trials, after[a].i, a)
    ensures forall j :: 0 <= j < |states| && states[j].docker && trials(j) == Rehydrated ==>
              ToLower(states[j].avsAddress) in after
  {
    forall j | 0 <= j < |states| && states[j].docker && trials(j) == Rehydrated
      ensures ToLower(states[j].avsAddress) in after
    {
      assert Succeeds(states, trials, j) && Key(states, j) in after;
    }
    forall a | a in after && a !in before ensures FirstRevival(states, trials, after[a].i, a) {
      forall j | 0 <= j < after[a].i && ToLower(states[j].avsAddress) == a
        ensures !(states[j].docker && trials(j) == Rehydrated)
      {
        assert Key(states, j) == a && !Succeeds(states, trials, j);
      }
    }
  }

  class Executor {
    var avsPerformers: Performers
    var savedIds: set<string>

    constructor ()
      ensures avsPerformers == map[] && savedIds == {}
    {
      avsPerformers, savedIds := map[], {};
    }

    /** The loop body for one saved state. */
    method RehydrateOne(ghost before: Performers, ghost ids: set<string>, states: seq<SavedState>,
                        trials: nat -> Trial, n: nat)
      returns (fate: Fate)
      requires n < |states|
      requires Revival(before, states, trials, n, avsPerformers)
      requires Deletions(before, states, trials, n, ids, savedIds)
      modifies this
      ensures Revival(before, states, trials, n + 1, avsPerformers)
      ensures Deletions(before, states, trials, n + 1, ids, savedIds)
      ensures fate == FateOf(before, states, trials, n)
      ensures var key := ToLower(states[n].avsAddress);
              var tried := key !in old(avsPerformers) && states[n].docker;
              && (fate == Skipped <==> !tried)
              && (fate == Revived <==> tried && trials(n) == Rehydrated)
              && avsPerformers == (if fate == Revived then old(avsPerformers)[key := FromState(n)] else old(avsPerformers))
              && savedIds == old(savedIds) - (if tried && trials(n) == NotRehydrated(true) then {states[n].performerId} else {})
    {
      TakenIffPresent(before, states, trials, n, avsPerformers);
      NextRevival(before, states, trials, n, avsPerformers);
      ghost var now := savedIds;
      var state := states[n];
      var avsAddress := ToLower(state.avsAddress);
      if avsAddress in avsPerformers || !state.docker {
        fate := Skipped;
      } else {
        match trials(n)
        case NotCreated | NotInitialized =>
          fate := Failed;
        case NotRehydrated(deleted) =>
          if deleted { savedIds := savedIds - {state.performerId}; }
          fate := Failed;
        case Rehydrated =>
          avsPerformers := avsPerformers[avsAddress := FromState(n)];
          fate := Revived;
      }
      NextDeletion(before, states, trials, n, ids, now, savedIds);
    }

    method RehydratePerformersFromStorage(listFails: bool, states: seq<SavedState>, trials: nat -> Trial)
      returns (failed: bool, rehydratedCount: nat, failedCount: nat)
      modifies this
      ensures failed == listFails
      ensures failed ==> avsPerformers == old(avsPerformers) && savedIds == old(savedIds)
      ensures !failed ==> Revival(old(avsPerformers), states, trials, |states|, avsPerformers)
      ensures !failed ==> rehydratedCount == CountFate(old(avsPerformers), states, trials, |states|, Revived)
      ensures !failed ==> failedCount == CountFate(old(avsPerformers), states, trials, |states|, Failed)
      ensures !failed ==> Deletions(old(avsPerformers), states, trials, |states|, old(savedIds), savedIds)
      ensures !failed ==> |avsPerformers| == |old(avsPerformers)| + rehydratedCount
      ensures !failed ==> |old(savedIds)| - |savedIds| <= failedCount
      ensures !failed ==> forall i :: 0 <= i < |states| && states[i].docker && trials(i) == Rehydrated ==>
                            ToLower(states[i].avsAddress) in avsPerformers
    {
      rehydratedCount, failedCount := 0, 0;
      if listFails { return true, 0, 0; }
      ghost var before := avsPerformers;
      ghost var ids := savedIds;
      for n := 0 to |states|
        invariant Revival(before, states, trials, n, avsPerformers)
        invariant Deletions(before, states, trials, n, ids, savedIds)
        invariant rehydratedCount == CountFate(before, states, trials, n, Revived)
        invariant failedCount == CountFate(before, states, trials, n, Failed)
      {
        var fate := RehydrateOne(before, ids, states, trials, n);
        if fate == Failed { failedCount := failedCount + 1; }
        if fate == Revived { rehydratedCount := rehydratedCount + 1; }
      }
      StatesAreConserved(before, states, trials, |states|, avsPerformers, ids, savedIds);
      RevivalInWords(before, states, trials, avsPerformers);
      return false, rehydratedCount, failedCount;
    }

    /** Initialize: a failed rehydration is only logged; a configured AVS without a performer is deployed. */
    method Initialize(listFails: bool, states: seq<SavedState>, trials: nat -> Trial,
                      configs: seq<AvsConfig>, deploys: nat -> bool)
      returns (failed: bool)
      modifies this
      ensures !failed ==> forall i :: 0 <= i < |configs| ==> ToLower(configs[i].avsAddress) in avsPerformers
      ensures forall a :: a in old(avsPerformers) ==> a in avsPerformers && avsPerformers[a] == old(avsPerformers)[a]
      ensures !listFails ==> forall j :: 0 <= j < |states| && states[j].docker && trials(j) == Rehydrated ==>
                               ToLower(states[j].avsAddress) in avsPerformers
      ensures forall a :: a in avsPerformers && avsPerformers[a].FromState? && a !in old(avsPerformers) ==>
                !listFails && FirstRevival(states, trials, avsPerformers[a].i, a)
      ensures forall a :: a in avsPerformers && avsPerformers[a].FromConfig? && a !in old(avsPerformers) ==>
                var i := avsPerformers[a].i;
                && i < |configs| && ToLower(configs[i].avsAddress) == a && configs[i].isServer && deploys(i)
                && (forall j :: 0 <= j < i ==> ToLower(configs[j].avsAddress) != a)
                && (listFails || forall j :: 0 <= j < |states| && Key(states, j) == a ==> !Succeeds(states, trials, j))
      ensures failed ==> exists i :: 0 <= i < |configs| && ToLower(configs[i].avsAddress) !in avsPerformers
                                     && !(configs[i].isServer && deploys(i))
    {
      var _, _, _ := RehydratePerformersFromStorage(listFails, states, trials);
      ghost var revived := avsPerformers;
      if !listFails { RevivalInWords(old(avsPerformers), states, trials, revived); }
      for n := 0 to |configs|
        invariant forall i :: 0 <= i < n ==> ToLower(configs[i].avsAddress) in avsPerformers
        invariant forall a :: a in revived ==> a in avsPerformers && avsPerformers[a] == revived[a]
        invariant forall a :: a in avsPerformers && a !in revived ==>
                    && avsPerformers[a].FromConfig? && avsPerformers[a].i < n
                    && ToLower(configs[avsPerformers[a].i].avsAddress) == a
                    && configs[avsPerformers[a].i].isServer && deploys(avsPerformers[a].i)
                    && (forall j :: 0 <= j < avsPerformers[a].i ==> ToLower(configs[j].avsAddress) != a)
      {
        var avsAddress := ToLower(configs[n].avsAddress);
        if avsAddress in avsPerformers { continue; }
        if !configs[n].isServer { return true; }
        if !deploys(n) { return true; }
        avsPerformers := avsPerformers[avsAddress := FromConfig(n)];
      }
      return false;
    }
  }

  /** The performers after n states, computed. */
  function Run(before: Performers, states: seq<SavedState>, trials: nat -> Trial, n: nat): Performers
    requires n <= |states|
  {
    if n == 0 then before
    else
      var now := Run(before, states, trials, n - 1);
      if FateOf(before, states, trials, n - 1) == Revived then now[Key(states, n - 1) := FromState(n - 1)] else now
  }

  lemma {:induction false} RunRevives(before: Performers, states: seq<SavedState>, trials: nat -> Trial, n: nat)
    requires n <= |states|
    ensures Revival(before, states, trials, n, Run(before, states, trials, n))
  {
    if n > 0 {
      RunRevives(before, states, trials, n - 1);
      NextRevival(before, states, trials, n - 1, Run(before, states, trials, n - 1));
    }
  }

  lemma RevivedIsNew(before: Performers, states: seq<SavedState>, trials: nat -> Trial, n: nat)
    requires n < |states| && FateOf(before, states, trials, n) == Revived
    ensures Key(states, n) !in Run(before, states, trials, n)
  {
    RunRevives(before, states, trials, n);
    TakenIffPresent(before, states, trials, n, Run(before, states, trials, n));
  }

  /** The saved ids one state earlier. */
  lemma DeletionsBefore(before: Performers, states: seq<SavedState>, trials: nat -> Trial, n: nat,
                        ids: set<string>, after: set<string>)
    returns (earlier: set<string>)
    requires n < |states| && Deletions(before, states, trials, n + 1, ids, after)
    ensures Deletions(before, states, trials, n, ids, earlier)
    ensures |earlier| <= |after| + (if FateOf(before, states, trials, n) == Failed then 1 else 0)
  {
    earlier := set id | id in ids && !exists i :: 0 <= i < n && DeletedBy(before, states, trials, i, id);
    forall id | id in earlier ensures id in after || DeletedBy(before, states, trials, n, id) {
      if id !in after {
        var i :| 0 <= i < n + 1 && DeletedBy(before, states, trials, i, id);
        assert i == n;
      }
    }
    var gone := if FateOf(before, states, trials, n) == Failed then {states[n].performerId} else {};
    assert earlier <= after + gone;
    SubsetSize(earlier, after + gone);
  }

  lemma {:induction false} SubsetSize<T>(a: set<T>, b: set<T>)
    requires a <= b
    ensures |a| <= |b|
    decreases |a|
  {
    if a != {} {
      var x :| x in a;
      SubsetSize(a - {x}, b - {x});
    }
  }

  lemma {:induction false} OnePerformerPerRevival(before: Performers, states: seq<SavedState>, trials: nat -> Trial, n: nat)
    requires n <= |states|
    ensures |Run(before, states, trials, n)| == |before| + CountFate(before, states, trials, n, Revived)
  {
    if n > 0 {
      OnePerformerPerRevival(before, states, trials, n - 1);
      if FateOf(before, states, trials, n - 1) == Revived { RevivedIsNew(before, states, trials, n - 1); }
    }
  }

  lemma {:induction false} DeletionsAreFailures(before: Performers, states: seq<SavedState>, trials: nat -> Trial,
                                                n: nat, ids: set<string>, left: set<string>)
    requires n <= |states| && Deletions(before, states, trials, n, ids, left)
    ensures |ids| - |left| <= CountFate(before, states, trials, n, Failed)
  {
    if n == 0 {
      assert left == ids;
    } else {
      var earlier := DeletionsBefore(before, states, trials, n - 1, ids, left);
      DeletionsAreFailures(before, states, trials, n - 1, ids, earlier);
    }
  }

  lemma {:induction false} EachHasOneFate(before: Performers, states: seq<SavedState>, trials: nat -> Trial, n: nat)
    requires n <= |states|
    ensures CountFate(before, states, trials, n, Revived) + CountFate(before, states, trials, n, Failed)
            + CountFate(before, states, trials, n, Skipped) == n
  {
    if n > 0 { EachHasOneFate(before, states, trials, n - 1); }
  }

  /** What a run does to performers and saved states adds up: one new performer per rehydrated state, no
      more deleted ids than failed states, and each state is rehydrated, failed or skipped. An AVS with
      docker states that still has no performer has seen all of them fail. */
  lemma StatesAreConserved(before: Performers, states: seq<SavedState>, trials: nat -> Trial, n: nat,
                           after: Performers, ids: set<string>, left: set<string>)
    requires n <= |states|
    requires Revival(before, states, trials, n, after) && Deletions(before, states, trials, n, ids, left)
    ensures |after| == |before| + CountFate(before, states, trials, n, Revived)
    ensures |ids| - |left| <= CountFate(before, states, trials, n, Failed)
    ensures CountFate(before, states, trials, n, Revived) + CountFate(before, states, trials, n, Failed)
            + CountFate(before, states, trials, n, Skipped) == n
    ensures forall i :: 0 <= i < n && states[i].docker && Key(states, i) !in after ==>
              FateOf(before, states, trials, i) == Failed
  {
    OnePerformerPerRevival(before, states, trials, n);
    RunRevives(before, states, trials, n);
    RevivalIsUnique(before, states, trials, n, after, Run(before, states, trials, n));
    DeletionsAreFailures(before, states, trials, n, ids, left);
    EachHasOneFate(before, states, trials, n);
  }

  /** At most one state of each AVS is rehydrated: all later states of that AVS are skipped. */
  lemma OneRevivalPerAvs(before: Performers, states: seq<SavedState>, trials: nat -> Trial, i: nat, j: nat)
    requires i < j < |states| && Key(states, i) == Key(states, j)
    requires FateOf(before, states, trials, i) == Revived
    ensures FateOf(before, states, trials, j) == Skipped
  {
    assert Succeeds(states, trials, i);
  }

  /** The description of the outcome leaves no choice: it determines every performer. */
  lemma RevivalIsUnique(before: Performers, states: seq<SavedState>, trials: nat -> Trial, n: nat, x: Performers, y: Performers)
    requires n <= |states| && Revival(before, states, trials, n, x) && Revival(before, states, trials, n, y)
    ensures x == y
  {
    forall a | a in x && a !in before ensures a in y && y[a] == x[a] {
      SameRevival(before, states, trials, n, x, y, a);
    }
    forall a | a in y && a !in before ensures a in x {
      SameRevival(before, states, trials, n, y, x, a);
    }
    assert x.Keys == y.Keys;
  }

  lemma SameRevival(before: Performers, states: seq<SavedState>, trials: nat -> Trial, n: nat, x: Performers, y: Performers, a: string)
    requires n <= |states| && Revival(before, states, trials, n, x) && Revival(before, states, trials, n, y)
    requires a in x && a !in before
    ensures a in y && y[a] == x[a]
  {
    var i := x[a].i;
    assert Key(states, i) == a && Succeeds(states, trials, i);
    assert a in y;
    var j := y[a].i;
    assert Key(states, j) == a && Succeeds(states, trials, j);
  }
}
