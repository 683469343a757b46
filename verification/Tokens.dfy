/** Challenge tokens: ponos/pkg/auth/tokenManager.go and ponos/pkg/auth/verifier.go.
    Times are integers; the token of a new entry and the clock reading are inputs. */
module Tokens {
  import opened HexText
  import opened Wrappers

  datatype Entry = Entry(createdAt: int, expiresAt: int, used: bool)

  type Table = map<string, Entry>

  datatype UseError = NotFound | AlreadyUsed | Expired
  datatype Answer = Issued(token: string) | EntityMismatch | Ok | Denied(error: UseError)

  function Generate(t: Table, authorized: string, expiration: int, entity: string, token: string, now: int)
    : (Table, Answer)
  {
    if !EqualFold(entity, authorized) then (t, EntityMismatch)
    else (t[token := Entry(now, now + expiration, false)], Issued(token))
  }

  function Use(t: Table, token: string, now: int): (Table, Answer) {
    if token !in t then (t, Denied(NotFound))
    else if t[token].used then (t, Denied(AlreadyUsed))
    else if now > t[token].expiresAt then (t, Denied(Expired))
    else (t[token := t[token].(used := true)], Ok)
  }

  function Cleanup(t: Table, now: int): Table {
    map k | k in t && now <= t[k].expiresAt :: t[k]
  }

  // ----- the manager itself

  class ChallengeTokenManager {
    var tokens: Table
    const authorizedEntity: string
    const expiration: int

    constructor (authorizedEntity: string, expiration: int)
      ensures tokens == map[] && this.expiration == expiration
      ensures this.authorizedEntity == ToLower(authorizedEntity)
    {
      tokens := map[];
      this.authorizedEntity := ToLower(authorizedEntity);
      this.expiration := expiration;
    }

    method GenerateChallengeToken(entity: string, newToken: string, now: int) returns (a: Answer)
      modifies this`tokens
      ensures a == (if EqualFold(entity, authorizedEntity) then Issued(newToken) else EntityMismatch)
      ensures a == EntityMismatch ==> tokens == old(tokens)
      ensures a != EntityMismatch ==>
                && newToken in tokens && tokens[newToken] == Entry(now, now + expiration, false)
                && (forall k :: k != newToken ==> (k in tokens <==> k in old(tokens)))
                && (forall k :: k != newToken && k in tokens ==> tokens[k] == old(tokens)[k])
      ensures (tokens, a) == Generate(old(tokens), authorizedEntity, expiration, entity, newToken, now)
    {
      if !EqualFold(entity, authorizedEntity) { return EntityMismatch; }
      tokens := tokens[newToken := Entry(now, now + expiration, false)];
      return Issued(newToken);
    }

    method UseChallengeToken(token: string, now: int) returns (a: Answer)
      modifies this`tokens
      ensures a == Ok <==> token in old(tokens) && !old(tokens)[token].used && now <= old(tokens)[token].expiresAt
      ensures a == Denied(NotFound) <==> token !in old(tokens)
      ensures a == Denied(AlreadyUsed) <==> token in old(tokens) && old(tokens)[token].used
      ensures a == Denied(Expired) <==>
              token in old(tokens) && !old(tokens)[token].used && now > old(tokens)[token].expiresAt
      ensures tokens.Keys == old(tokens).Keys
      ensures forall k :: k in tokens ==>
                && tokens[k].expiresAt == old(tokens)[k].expiresAt
                && (tokens[k].used <==> old(tokens)[k].used || (k == token && a == Ok))
      ensures (tokens, a) == Use(old(tokens), token, now)
    {
      if token !in tokens { return Denied(NotFound); }
      var entry := tokens[token];
      if entry.used { return Denied(AlreadyUsed); }
      if now > entry.expiresAt { return Denied(Expired); }
      tokens := tokens[token := entry.(used := true)];
      return Ok;
    }

    /** One tick of the cleanup goroutine: the loop visits every key and deletes the expired ones. */
    method CleanupExpiredTokens(now: int)
      modifies this`tokens
      ensures forall k :: k in tokens <==> k in old(tokens) && now <= old(tokens)[k].expiresAt
      ensures forall k :: k in tokens ==> tokens[k] == old(tokens)[k]
      ensures tokens == Cleanup(old(tokens), now)
    {
      var keys := tokens.Keys;
      while keys != {}
        invariant keys <= old(tokens).Keys
        invariant forall k :: k in tokens <==> k in old(tokens) && (k in keys || now <= old(tokens)[k].expiresAt)
        invariant forall k :: k in tokens ==> tokens[k] == old(tokens)[k]
        decreases |keys|
      {
        var token :| token in keys;
        if now > tokens[token].expiresAt { tokens := tokens - {token}; }
        keys := keys - {token};
      }
    }

    /** VerifyAuthentication: the token is spent before the signature is looked at, and nothing is spent
        when there is no authentication at all. */
    method VerifyAuthentication(auth: Option<AuthSignature>, sign: string -> Option<seq<int>>, now: int)
      returns (v: Verdict)
      modifies this`tokens
      ensures auth.None? ==> v == MissingAuthentication && tokens == old(tokens)
      ensures auth.Some? ==>
                var (t, a) := Use(old(tokens), auth.value.token, now);
                tokens == t && v == VerdictOf(a, sign(auth.value.token), auth.value.signature)
      ensures auth.Some? ==>
                var token, expected := auth.value.token, sign(auth.value.token);
                var usable := token in old(tokens) && !old(tokens)[token].used && now <= old(tokens)[token].expiresAt;
                && (v == InvalidToken <==> !usable)
                && (v == SigningFailed <==> usable && expected == None)
                && (v == InvalidSignature <==> usable && expected.Some? && expected.value != auth.value.signature)
                && (v == Authenticated <==> usable && expected == Some(auth.value.signature))
                && tokens == (if usable then old(tokens)[token := old(tokens)[token].(used := true)] else old(tokens))
    {
      if auth.None? { return MissingAuthentication; }
      var a := UseChallengeToken(auth.value.token, now);
      if a != Ok { return InvalidToken; }
      var expected := sign(auth.value.token);
      if expected.None? { return SigningFailed; }
      var same := BytesEqual(auth.value.signature, expected.value);
      return if same then Authenticated else InvalidSignature;
    }
  }

  datatype AuthSignature = AuthSignature(token: string, signature: seq<int>)

  datatype Verdict = Authenticated | MissingAuthentication | InvalidToken | SigningFailed | InvalidSignature

  function VerdictOf(a: Answer, expected: Option<seq<int>>, signature: seq<int>): Verdict {
    if a != Ok then InvalidToken
    else if expected.None? then SigningFailed
    else if signature == expected.value then Authenticated
    else InvalidSignature
  }

  method BytesEqual(a: seq<int>, b: seq<int>) returns (same: bool)
    ensures same <==> a == b
  {
    if |a| != |b| { return false; }
    for i := 0 to |a|
      invariant a[..i] == b[..i]
    {
      if a[i] != b[i] { return false; }
    }
    assert a == a[..|a|] && b == b[..|b|];
    return true;
  }

  // ----- runs, with and without cleanup

  datatype Action =
    | GenerateToken(entity: string, token: string, now: int)
    | UseToken(token: string, now: int)
    | CleanupTick(now: int)

  datatype Manager = Manager(authorized: string, expiration: int)

  /** `deletes` selects the real manager or the ideal one that keeps every entry for ever. */
  function Step(m: Manager, deletes: bool, t: Table, a: Action): (Table, Option<Answer>) {
    match a
    case GenerateToken(entity, token, now) =>
      var (t', r) := Generate(t, m.authorized, m.expiration, entity, token, now); (t', Some(r))
    case UseToken(token, now) => var (t', r) := Use(t, token, now); (t', Some(r))
    case CleanupTick(now) => (if deletes then Cleanup(t, now) else t, None)
  }

  function TableAfter(m: Manager, deletes: bool, run: seq<Action>): Table {
    if run == [] then map[]
    else Step(m, deletes, TableAfter(m, deletes, run[..|run| - 1]), run[|run| - 1]).0
  }

  /** The answer of the i-th action of a run. */
  function AnswerAt(m: Manager, deletes: bool, run: seq<Action>, i: nat): Option<Answer>
    requires i < |run|
  {
    Step(m, deletes, TableAfter(m, deletes, run[..i]), run[i]).1
  }

  predicate MonotoneClock(run: seq<Action>) {
    forall i, j :: 0 <= i <= j < |run| ==> run[i].now <= run[j].now
  }

  predicate AcceptedAt(m: Manager, deletes: bool, run: seq<Action>, i: nat)
    requires i < |run|
  {
    run[i].UseToken? && AnswerAt(m, deletes, run, i) == Some(Ok)
  }

  /** Entries agree, and whatever only the ideal manager still has is expired at every later time. */
  ghost predicate Simulates(kept: Table, ideal: Table, now: int) {
    && (forall k :: k in kept ==> k in ideal && ideal[k] == kept[k])
    && (forall k :: k in ideal && k !in kept ==> ideal[k].expiresAt < now)
  }

  lemma StepKeepsSimulation(m: Manager, kept: Table, ideal: Table, a: Action)
    requires Simulates(kept, ideal, a.now)
    ensures Simulates(Step(m, true, kept, a).0, Step(m, false, ideal, a).0, a.now)
    ensures (Step(m, true, kept, a).1 == Some(Ok)) == (Step(m, false, ideal, a).1 == Some(Ok))
    ensures a.GenerateToken? ==> Step(m, true, kept, a).1 == Step(m, false, ideal, a).1
  {
  }

  lemma {:induction false} CleanupSimulates(m: Manager, run: seq<Action>, now: int)
    requires MonotoneClock(run) && (run != [] ==> run[|run| - 1].now <= now)
    ensures Simulates(TableAfter(m, true, run), TableAfter(m, false, run), now)
  {
    if run != [] {
      var front, a := run[..|run| - 1], run[|run| - 1];
      CleanupSimulates(m, front, a.now);
      StepKeepsSimulation(m, TableAfter(m, true, front), TableAfter(m, false, front), a);
    }
  }

  /** With a clock that never runs backwards, cleanup at any times at all is invisible: each use is
      accepted or denied just as by a manager that never deletes, and each token request is answered
      alike. */
  lemma CleanupIsInvisible(m: Manager, run: seq<Action>, i: nat)
    requires MonotoneClock(run) && i < |run|
    ensures AcceptedAt(m, true, run, i) <==> AcceptedAt(m, false, run, i)
    ensures run[i].GenerateToken? ==> AnswerAt(m, true, run, i) == AnswerAt(m, false, run, i)
  {
    CleanupSimulates(m, run[..i], run[i].now);
    StepKeepsSimulation(m, TableAfter(m, true, run[..i]), TableAfter(m, false, run[..i]), run[i]);
  }

  /** And it does its work: after a tick no entry is left that had expired at that time, entries that had not
      are still there, and a manager without cleanup keeps all of them. */
  lemma CleanupRemovesExpired(m: Manager, run: seq<Action>, token: string)
    requires run != [] && run[|run| - 1].CleanupTick?
    ensures var n := |run| - 1;
            var before, after := TableAfter(m, true, run[..n]), TableAfter(m, true, run);
            && (token in after <==> token in before && run[n].now <= before[token].expiresAt)
            && (token in after ==> after[token] == before[token])
            && TableAfter(m, false, run) == TableAfter(m, false, run[..n])
  {
  }

  // ----- single use

  predicate IssuesAt(m: Manager, run: seq<Action>, i: nat, token: string)
    requires i < |run|
  {
    run[i].GenerateToken? && run[i].token == token && EqualFold(run[i].entity, m.authorized)
  }

  predicate SpendsAt(m: Manager, deletes: bool, run: seq<Action>, i: nat, token: string)
    requires i < |run|
  {
    AcceptedAt(m, deletes, run, i) && run[i].token == token
  }

  function Issues(m: Manager, run: seq<Action>, token: string): nat {
    if run == [] then 0
    else Issues(m, run[..|run| - 1], token) + (if IssuesAt(m, run, |run| - 1, token) then 1 else 0)
  }

  function Accepts(m: Manager, deletes: bool, run: seq<Action>, token: string): nat {
    if run == [] then 0
    else Accepts(m, deletes, run[..|run| - 1], token) + (if SpendsAt(m, deletes, run, |run| - 1, token) then 1 else 0)
  }

  /** Without any assumption on clock or freshness, a token is accepted at most once per issue, an unused
      entry is an issue not yet spent. */
  lemma {:induction false} AcceptsAtMostIssues(m: Manager, deletes: bool, run: seq<Action>, token: string)
    ensures Accepts(m, deletes, run, token)
            + (if token in TableAfter(m, deletes, run) && !TableAfter(m, deletes, run)[token].used then 1 else 0)
            <= Issues(m, run, token)
  {
    if run != [] {
      AcceptsAtMostIssues(m, deletes, run[..|run| - 1], token);
    }
  }

  predicate FreshTokens(run: seq<Action>) {
    forall i, j ::
      0 <= i < |run| && 0 <= j < |run| && run[i].GenerateToken? && run[j].GenerateToken? && run[i].token == run[j].token
      ==> i == j
  }

  lemma {:induction false} FreshIssuedOnce(m: Manager, run: seq<Action>, token: string)
    requires FreshTokens(run)
    ensures Issues(m, run, token) <= 1
    ensures (forall i :: 0 <= i < |run| ==> !IssuesAt(m, run, i, token)) ==> Issues(m, run, token) == 0
  {
    if run != [] {
      var front := run[..|run| - 1];
      assert forall i :: 0 <= i < |front| ==> front[i] == run[i];
      FreshIssuedOnce(m, front, token);
      forall i | 0 <= i < |front| ensures IssuesAt(m, front, i, token) == IssuesAt(m, run, i, token) {
      }
    }
  }

  /** With fresh tokens each token is accepted at most once in a whole run. */
  lemma SingleUse(m: Manager, deletes: bool, run: seq<Action>, token: string)
    requires FreshTokens(run)
    ensures Accepts(m, deletes, run, token) <= 1
  {
    AcceptsAtMostIssues(m, deletes, run, token);
    FreshIssuedOnce(m, run, token);
  }

  /** Every entry stems from an earlier issue of that token, and expires `expiration` after it. */
  lemma {:induction false} EntriesAreIssued(m: Manager, deletes: bool, run: seq<Action>, token: string)
    ensures token in TableAfter(m, deletes, run) ==>
              exists i :: 0 <= i < |run| && IssuesAt(m, run, i, token)
                          && TableAfter(m, deletes, run)[token].expiresAt == run[i].now + m.expiration
  {
    if run != [] {
      var front := run[..|run| - 1];
      EntriesAreIssued(m, deletes, front, token);
      if token in TableAfter(m, deletes, run) {
        if IssuesAt(m, run, |run| - 1, token) {
        } else {
          assert token in TableAfter(m, deletes, front);
          var i :| 0 <= i < |front| && IssuesAt(m, front, i, token)
                   && TableAfter(m, deletes, front)[token].expiresAt == front[i].now + m.expiration;
          assert IssuesAt(m, run, i, token) && run[i].now == front[i].now;
        }
      }
    }
  }

  /** A token is accepted only after it was issued to the authorized entity, and not after it expired. */
  lemma AcceptedWhileValid(m: Manager, deletes: bool, run: seq<Action>, i: nat)
    requires i < |run| && AcceptedAt(m, deletes, run, i)
    ensures exists j :: 0 <= j < i && IssuesAt(m, run, j, run[i].token) && run[i].now <= run[j].now + m.expiration
  {
    EntriesAreIssued(m, deletes, run[..i], run[i].token);
    var j :| 0 <= j < |run[..i]| && IssuesAt(m, run[..i], j, run[i].token)
             && TableAfter(m, deletes, run[..i])[run[i].token].expiresAt == run[..i][j].now + m.expiration;
    assert IssuesAt(m, run, j, run[i].token);
  }

  // ----- exactly when a use is accepted

  /** The last issue of the token before step j. */
  predicate LastIssue(m: Manager, run: seq<Action>, i: nat, j: nat, token: string)
    requires j <= |run|
  {
    i < j && IssuesAt(m, run, i, token) && forall l :: i < l < j ==> !IssuesAt(m, run, l, token)
  }

  predicate SpentBetween(m: Manager, deletes: bool, run: seq<Action>, i: nat, j: nat, token: string)
    requires j <= |run|
  {
    exists l :: i < l < j && SpendsAt(m, deletes, run, l, token)
  }

  lemma PrefixAnswers(m: Manager, deletes: bool, run: seq<Action>, n: nat, token: string)
    requires n <= |run|
    ensures forall l :: 0 <= l < n ==> IssuesAt(m, run[..n], l, token) == IssuesAt(m, run, l, token)
    ensures forall l :: 0 <= l < n ==> SpendsAt(m, deletes, run[..n], l, token) == SpendsAt(m, deletes, run, l, token)
  {
    forall l | 0 <= l < n
      ensures SpendsAt(m, deletes, run[..n], l, token) == SpendsAt(m, deletes, run, l, token)
    {
      assert run[..n][..l] == run[..l];
    }
  }

  /** The entry of the token stems from step i. */
  ghost predicate StemsFrom(m: Manager, run: seq<Action>, token: string, i: nat) {
    var t := TableAfter(m, false, run);
    && token in t && LastIssue(m, run, i, |run|, token)
    && t[token].expiresAt == run[i].now + m.expiration
    && (t[token].used <==> SpentBetween(m, false, run, i, |run|, token))
  }

  lemma StillStemsFrom(m: Manager, run: seq<Action>, token: string, i: nat)
    requires run != [] && StemsFrom(m, run[..|run| - 1], token, i) && !IssuesAt(m, run, |run| - 1, token)
    ensures StemsFrom(m, run, token, i)
  {
    var n := |run| - 1;
    PrefixAnswers(m, false, run, n, token);
    var t, t' := TableAfter(m, false, run[..n]), TableAfter(m, false, run);
    assert t'[token].used <==> t[token].used || SpendsAt(m, false, run, n, token);
    assert LastIssue(m, run, i, |run|, token);
  }

  /** Without deletion, an entry is the last issue of its token, used if it was spent since. */
  lemma {:induction false} EntryIsLastIssue(m: Manager, run: seq<Action>, token: string)
    ensures if token in TableAfter(m, false, run) then exists i: nat :: StemsFrom(m, run, token, i)
            else forall i :: 0 <= i < |run| ==> !IssuesAt(m, run, i, token)
  {
    if run != [] {
      var n := |run| - 1;
      EntryIsLastIssue(m, run[..n], token);
      PrefixAnswers(m, false, run, n, token);
      if IssuesAt(m, run, n, token) {
        assert LastIssue(m, run, n, |run|, token) && !SpentBetween(m, false, run, n, |run|, token);
        assert StemsFrom(m, run, token, n);
      } else if token in TableAfter(m, false, run) {
        var i: nat :| StemsFrom(m, run[..n], token, i);
        StillStemsFrom(m, run, token, i);
      }
    }
  }

  lemma SpendsAlike(m: Manager, run: seq<Action>, token: string)
    requires MonotoneClock(run)
    ensures forall l :: 0 <= l < |run| ==> SpendsAt(m, true, run, l, token) == SpendsAt(m, false, run, l, token)
  {
    forall l | 0 <= l < |run| ensures SpendsAt(m, true, run, l, token) == SpendsAt(m, false, run, l, token) {
      CleanupIsInvisible(m, run, l);
    }
  }

  /** With a clock that never runs backwards (which matters only for a manager that deletes), a use is
      accepted exactly when its token was issued, has not expired since the last issue, and has not been
      spent since. */
  lemma AcceptedIff(m: Manager, deletes: bool, run: seq<Action>, j: nat)
    requires j < |run| && (deletes ==> MonotoneClock(run))
    ensures AcceptedAt(m, deletes, run, j) <==>
            && run[j].UseToken?
            && exists i: nat :: LastIssue(m, run, i, j, run[j].token) && run[j].now <= run[i].now + m.expiration
                           && !SpentBetween(m, deletes, run, i, j, run[j].token)
  {
    if run[j].UseToken? {
      var token := run[j].token;
      if deletes {
        SpendsAlike(m, run, token);
        CleanupIsInvisible(m, run, j);
      }
      EntryIsLastIssue(m, run[..j], token);
      PrefixAnswers(m, false, run, j, token);
      var t := TableAfter(m, false, run[..j]);
      if token in t {
        var i: nat :| StemsFrom(m, run[..j], token, i);
        assert LastIssue(m, run, i, j, token) && forall k: nat :: LastIssue(m, run, k, j, token) ==> k == i;
        assert SpentBetween(m, false, run, i, j, token) == SpentBetween(m, deletes, run, i, j, token);
        assert AcceptedAt(m, false, run, j) <==> !t[token].used && run[j].now <= t[token].expiresAt;
      }
    }
  }

  /** A verification spends its token even when the signature is wrong: the next use of the token, at any
      time and under any signature, is refused. */
  lemma SpentEvenIfSignatureFails(t: Table, token: string, now: int, later: int,
                                  expected: Option<seq<int>>, signature: seq<int>)
    ensures var (t', a) := Use(t, token, now);
            && (VerdictOf(a, expected, signature) != InvalidToken ==> Use(t', token, later).1 == Denied(AlreadyUsed))
            && (VerdictOf(a, expected, signature) == Authenticated <==> a == Ok && expected == Some(signature))
  {
  }
}
