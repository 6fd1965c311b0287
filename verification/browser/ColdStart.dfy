/** Starting a browser detached and asserting that it came up (`coldStartDetached` and
    `killSpawnedProcess` in src/browser/launch.ts), against an arbitrary environment. */
module ColdStart {
  import opened Wrappers

  // ----- Discovery (src/browser/discovery.ts)

  /** What the port file claims. */
  datatype Claim = Claim(endpoint: string, expectedUuid: string)

  /** What the endpoint answers when asked for its version document. */
  datatype Reply = Unreachable | ErrorStatus | NullDocument | Document(browserUuid: Option<string>)

  datatype Verification = Verified(endpoint: string, browserUuid: string) | Rejected | Crashed

  /** `verifyDiscoveryRecord`. A document that is JSON `null` is read for a field outside the handler
      that covers the request, so it escapes as an error instead of rejecting the record. */
  function Verify(claim: Claim, reply: Reply): Verification {
    match reply
    case Unreachable => Rejected
    case ErrorStatus => Rejected
    case NullDocument => Crashed
    case Document(uuid) =>
      if uuid.None? || uuid.value == "" then Rejected
      else if uuid.value != claim.expectedUuid then Rejected
      else Verified(claim.endpoint, uuid.value)
  }

  /** A record is trusted exactly when its endpoint answers with the identity the record claims. */
  lemma VerifiedMeansSameIdentity(claim: Claim, reply: Reply)
    ensures Verify(claim, reply).Verified? <==>
            claim.expectedUuid != "" && reply == Document(Some(claim.expectedUuid))
    ensures Verify(claim, reply).Verified? ==> Verify(claim, reply) == Verified(claim.endpoint, claim.expectedUuid)
    ensures Verify(claim, reply).Crashed? <==> reply == NullDocument
  {
  }

  // ----- The environment

  /** One turn of the readiness loop: the clock, the record found, what its endpoint answers, and
      whether the child reports a spawn failure while it answers, while the loop waits, or after. */
  datatype Turn = Turn(
    now: int,
    claim: Option<Claim>,
    reply: Reply,
    failsInVerify: bool,
    failsInWait: bool,
    failsAfterWait: bool)

  /** A run of the world around one call. Creating the profile directory, or the spawn itself, may throw
      before there is a process. The clock passes the deadline after the last turn. */
  datatype Environment = Environment(
    throwsBeforeSpawn: bool,
    pid: Option<nat>,
    previous: Option<Claim>,
    failsAtOnce: bool,
    killThrows: bool,
    deadline: int,
    turns: seq<Turn>)

  datatype Request = Request(profileGiven: bool, argumentsIntact: bool)

  datatype Reason = NoProfile | ArgumentRemoved | NoIdentifier | Collision | SpawnFailed | NoEndpoint

  /** How a call ends: with a browser, with a refusal, or with an error nobody in it catches, before there
      is a process or after. */
  datatype Outcome =
    | Started(pid: nat, endpoint: string, browserUuid: string)
    | Refused(reason: Reason)
    | NotSpawned
    | Escaped

  /** The processes this call starts and signals. */
  class Machine {
    var spawned: nat
    var signalled: seq<nat>

    constructor ()
      ensures spawned == 0 && signalled == []
    {
      spawned, signalled := 0, [];
    }

    method Spawn()
      modifies this
      ensures spawned == old(spawned) + 1 && signalled == old(signalled)
    {
      spawned := spawned + 1;
    }

    /** The operating system's signal, which may throw. */
    method Signal(pid: nat, throws: bool) returns (sent: Result<nat>)
      modifies this
      ensures spawned == old(spawned) && signalled == old(signalled) + [pid]
      ensures sent.Failure? <==> throws
    {
      signalled := signalled + [pid];
      sent := if throws then Failure("not ours to signal") else Success(pid);
    }

    /** `killSpawnedProcess`: an error of the signal goes no further, so it always returns. */
    method KillSpawnedProcess(pid: nat, throws: bool) returns (done: Result<nat>)
      modifies this
      ensures spawned == old(spawned) && signalled == old(signalled) + [pid]
      ensures done.Success?
    {
      done := Signal(pid, throws);
      if done.Failure? {
        done := Success(pid);
      }
    }
  }

  // ----- What the turns say

  function Checked(turn: Turn): Verification {
    if turn.claim.None? then Rejected else Verify(turn.claim.value, turn.reply)
  }

  predicate IsPrevious(env: Environment, turn: Turn) {
    turn.claim.Some? && env.previous == turn.claim
  }

  /** A spawn failure has been reported before turn `i` begins. */
  ghost predicate FailedBefore(env: Environment, i: nat)
    requires i <= |env.turns|
  {
    env.failsAtOnce || exists j :: 0 <= j < i && FailsIn(env.turns[j])
  }

  predicate FailsIn(turn: Turn) {
    (turn.claim.Some? && turn.failsInVerify) || turn.failsInWait || turn.failsAfterWait
  }

  /** A spawn failure is known when the wait of turn `i` ends. */
  ghost predicate FailureSeen(env: Environment, i: nat)
    requires i < |env.turns|
  {
    FailedBefore(env, i) || (env.turns[i].claim.Some? && env.turns[i].failsInVerify) || env.turns[i].failsInWait
  }

  /** The loop gets as far as turn `k`: the clock allows it and every earlier turn was inconclusive. */
  ghost predicate Reaches(env: Environment, k: nat) {
    && k <= |env.turns|
    && (forall j :: 0 <= j < k ==> env.turns[j].now < env.deadline)
    && (forall j :: 0 <= j < k ==> Checked(env.turns[j]) == Rejected && !FailureSeen(env, j))
  }

  ghost predicate Runs(env: Environment, k: nat) {
    k < |env.turns| && Reaches(env, k) && env.turns[k].now < env.deadline
  }

  /** The loop ends without a conclusion after `k` turns. */
  ghost predicate RunsOut(env: Environment, k: nat) {
    Reaches(env, k) && (k == |env.turns| || env.turns[k].now >= env.deadline)
  }

  /** How turn `k` ends the call, if it does. */
  ghost predicate TurnEnds(env: Environment, k: nat, pid: nat, outcome: Outcome) {
    && Runs(env, k)
    && match Checked(env.turns[k])
       case Verified(endpoint, uuid) =>
         outcome == if IsPrevious(env, env.turns[k]) then Refused(Collision) else Started(pid, endpoint, uuid)
       case Crashed => outcome == Escaped
       case Rejected => FailureSeen(env, k) && outcome == Refused(SpawnFailed)
  }

  ghost predicate LoopEnds(env: Environment, k: nat, outcome: Outcome) {
    RunsOut(env, k) && outcome == Refused(if FailedBefore(env, k) then SpawnFailed else NoEndpoint)
  }

  /** The outcome of a call that was assigned an identifier. */
  ghost predicate Concludes(env: Environment, pid: nat, outcome: Outcome) {
    exists k: nat :: TurnEnds(env, k, pid, outcome) || LoopEnds(env, k, outcome)
  }

  /** The call gets as far as a process of its own. */
  predicate Spawns(request: Request, env: Environment) {
    request.profileGiven && request.argumentsIntact && !env.throwsBeforeSpawn
  }

  method ColdStartDetached(machine: Machine, request: Request, env: Environment) returns (outcome: Outcome)
    modifies machine
    ensures !request.profileGiven ==> outcome == Refused(NoProfile)
    ensures request.profileGiven && !request.argumentsIntact ==> outcome == Refused(ArgumentRemoved)
    ensures request.profileGiven && request.argumentsIntact && env.throwsBeforeSpawn ==> outcome == NotSpawned
    ensures Spawns(request, env) ==>
              if env.pid.None? then outcome == Refused(NoIdentifier) else Concludes(env, env.pid.value, outcome)
    ensures machine.spawned == old(machine.spawned) + if Spawns(request, env) then 1 else 0
    ensures machine.signalled == old(machine.signalled)
            + if Spawns(request, env) && env.pid.Some? && outcome.Refused? then [env.pid.value] else []
  {
    if !request.profileGiven {
      return Refused(NoProfile);
    }
    if !request.argumentsIntact {
      return Refused(ArgumentRemoved);
    }
    if env.throwsBeforeSpawn {
      return NotSpawned;
    }
    machine.Spawn();
    var spawnFailure := env.failsAtOnce;
    if env.pid.None? {
      return Refused(NoIdentifier);
    }
    var pid := env.pid.value;
    outcome, spawnFailure := Poll(machine, env, pid);
  }

  /** The readiness loop and the checks after it. An error out of the clean-up would end the call where
      it stands, before its refusal. */
  method Poll(machine: Machine, env: Environment, pid: nat) returns (outcome: Outcome, spawnFailure: bool)
    modifies machine
    ensures machine.spawned == old(machine.spawned)
    ensures machine.signalled == old(machine.signalled) + if outcome.Refused? then [pid] else []
    ensures Concludes(env, pid, outcome)
  {
    spawnFailure := env.failsAtOnce;
    var i := 0;
    while i < |env.turns| && env.turns[i].now < env.deadline
      invariant 0 <= i <= |env.turns| && Reaches(env, i)
      invariant spawnFailure <==> FailedBefore(env, i)
      invariant machine.spawned == old(machine.spawned) && machine.signalled == old(machine.signalled)
    {
      var turn := env.turns[i];
      assert Runs(env, i);
      if turn.claim.Some? {
        var checked := Verify(turn.claim.value, turn.reply);
        spawnFailure := spawnFailure || turn.failsInVerify;
        if checked.Crashed? {
          assert TurnEnds(env, i, pid, Escaped);
          return Escaped, spawnFailure;
        }
        if checked.Verified? {
          if env.previous == turn.claim {
            var killed := machine.KillSpawnedProcess(pid, env.killThrows);
            if killed.Failure? {
              return Escaped, spawnFailure;
            }
            assert TurnEnds(env, i, pid, Refused(Collision));
            return Refused(Collision), spawnFailure;
          }
          assert TurnEnds(env, i, pid, Started(pid, checked.endpoint, checked.browserUuid));
          return Started(pid, checked.endpoint, checked.browserUuid), spawnFailure;
        }
      }
      spawnFailure := spawnFailure || turn.failsInWait;
      if spawnFailure {
        var killed := machine.KillSpawnedProcess(pid, env.killThrows);
        if killed.Failure? {
          return Escaped, spawnFailure;
        }
        assert TurnEnds(env, i, pid, Refused(SpawnFailed));
        return Refused(SpawnFailed), spawnFailure;
      }
      spawnFailure := turn.failsAfterWait;
      i := i + 1;
    }
    var killed := machine.KillSpawnedProcess(pid, env.killThrows);
    if killed.Failure? {
      return Escaped, spawnFailure;
    }
    outcome := Refused(if spawnFailure then SpawnFailed else NoEndpoint);
    assert LoopEnds(env, i, outcome);
  }

  // ----- What the outcomes mean

  /** The loop concludes in one way only. */
  lemma ConclusionIsUnique(env: Environment, pid: nat, a: Outcome, b: Outcome)
    requires Concludes(env, pid, a) && Concludes(env, pid, b)
    ensures a == b
  {
    hide TurnEnds, LoopEnds, Reaches;
    var j: nat :| TurnEnds(env, j, pid, a) || LoopEnds(env, j, a);
    var k: nat :| TurnEnds(env, k, pid, b) || LoopEnds(env, k, b);
    LastTurn(env, j, k, pid, a);
    LastTurn(env, k, j, pid, b);
    OneTurnOneOutcome(env, j, pid, a, b);
  }

  /** A conclusion at turn `j` means the loop reaches turn `j` and none after it. */
  lemma LastTurn(env: Environment, j: nat, k: nat, pid: nat, a: Outcome)
    requires TurnEnds(env, j, pid, a) || LoopEnds(env, j, a)
    ensures Reaches(env, j)
    ensures k > j ==> !Reaches(env, k)
  {
    hide FailedBefore, FailureSeen, Checked;
  }

  lemma OneTurnOneOutcome(env: Environment, k: nat, pid: nat, a: Outcome, b: Outcome)
    requires TurnEnds(env, k, pid, a) || LoopEnds(env, k, a)
    ensures TurnEnds(env, k, pid, b) || LoopEnds(env, k, b) ==> a == b
  {
    hide FailedBefore, FailureSeen, Checked, Reaches;
  }

  /** A started browser is one whose endpoint answered with the identity its record claims, and the
      record is not the one that was there before the spawn. */
  lemma StartedIsVerifiedAndNew(env: Environment, pid: nat, outcome: Outcome)
    requires Concludes(env, pid, outcome) && outcome.Started?
    ensures outcome.pid == pid
    ensures env.previous != Some(Claim(outcome.endpoint, outcome.browserUuid))
    ensures exists k :: 0 <= k < |env.turns| && env.turns[k].now < env.deadline
              && env.turns[k].claim == Some(Claim(outcome.endpoint, outcome.browserUuid))
              && env.turns[k].reply == Document(Some(outcome.browserUuid)) && outcome.browserUuid != ""
  {
    var k: nat :| TurnEnds(env, k, pid, outcome) || LoopEnds(env, k, outcome);
    assert env.turns[k].claim == Some(Claim(outcome.endpoint, outcome.browserUuid));
  }

  /** Turn `k` finds a record whose endpoint answers JSON `null`. */
  predicate AnswersNull(turn: Turn) {
    turn.claim.Some? && turn.reply == NullDocument
  }

  /** The one way out that neither starts nor refuses, and so leaves the spawned process running: the
      loop reaches a turn whose endpoint answers JSON `null`. It happens exactly then. */
  lemma EscapesOnlyOnNull(env: Environment, pid: nat, outcome: Outcome)
    requires Concludes(env, pid, outcome)
    ensures outcome == Escaped <==> exists k: nat :: Runs(env, k) && AnswersNull(env.turns[k])
  {
    if k: nat :| Runs(env, k) && AnswersNull(env.turns[k]) {
      assert TurnEnds(env, k, pid, Escaped);
      ConclusionIsUnique(env, pid, outcome, Escaped);
    }
    if outcome == Escaped {
      var k: nat :| TurnEnds(env, k, pid, outcome) || LoopEnds(env, k, outcome);
      assert Runs(env, k) && AnswersNull(env.turns[k]);
    }
  }

  /** Turn `k` finds a record that another browser did not leave behind, and its endpoint confirms it. */
  predicate AnswersAnew(env: Environment, turn: Turn) {
    Checked(turn).Verified? && !IsPrevious(env, turn)
  }

  /** What the three ways out depend on: the loop starts a browser exactly when it reaches a turn whose
      endpoint confirms a new record, escapes exactly when it reaches one that answers JSON `null`, and
      refuses exactly when it reaches neither. It reaches at most one of the two. */
  lemma StartsOrRefuses(env: Environment, pid: nat, outcome: Outcome)
    requires Concludes(env, pid, outcome)
    ensures outcome.Started? <==> exists k: nat :: Runs(env, k) && AnswersAnew(env, env.turns[k])
    ensures outcome.Refused? <==>
            forall k: nat :: Runs(env, k) ==> !AnswersAnew(env, env.turns[k]) && !AnswersNull(env.turns[k])
    ensures outcome != NotSpawned
  {
    EscapesOnlyOnNull(env, pid, outcome);
    hide Runs, LoopEnds, FailureSeen, Concludes;
    if k: nat :| Runs(env, k) && AnswersAnew(env, env.turns[k]) {
      var checked := Checked(env.turns[k]);
      TurnConcludes(env, k, pid, Started(pid, checked.endpoint, checked.browserUuid));
      ConclusionIsUnique(env, pid, outcome, Started(pid, checked.endpoint, checked.browserUuid));
    }
    if outcome.Started? {
      var k := StartingTurn(env, pid, outcome);
    }
    ConclusionKinds(env, pid, outcome);
  }

  lemma TurnConcludes(env: Environment, k: nat, pid: nat, outcome: Outcome)
    requires TurnEnds(env, k, pid, outcome)
    ensures Concludes(env, pid, outcome)
  {
  }

  lemma StartingTurn(env: Environment, pid: nat, outcome: Outcome) returns (k: nat)
    requires Concludes(env, pid, outcome) && outcome.Started?
    ensures Runs(env, k) && AnswersAnew(env, env.turns[k])
  {
    k :| TurnEnds(env, k, pid, outcome) || LoopEnds(env, k, outcome);
  }

  lemma ConclusionKinds(env: Environment, pid: nat, outcome: Outcome)
    requires Concludes(env, pid, outcome)
    ensures outcome.Started? || outcome.Refused? || outcome == Escaped
  {
    var k: nat :| TurnEnds(env, k, pid, outcome) || LoopEnds(env, k, outcome);
  }

  /** A whole call that leaves the process it spawned running and unsignalled. */
  method NullReplyLeavesProcess() returns (env: Environment, machine: Machine, outcome: Outcome)
    ensures env.pid == Some(7) && Concludes(env, 7, Escaped)
    ensures fresh(machine) && outcome == Escaped && machine.spawned == 1 && machine.signalled == []
  {
    env := Environment(false, Some(7), None, false, false, 10, [Turn(0, Some(Claim("e", "u")), NullDocument, false, false, false)]);
    machine := new Machine();
    outcome := ColdStartDetached(machine, Request(true, true), env);
    assert TurnEnds(env, 0, 7, Escaped);
    ConclusionIsUnique(env, 7, outcome, Escaped);
  }

  /** The child reports a spawn failure in turn `k`. */
  predicate Reports(turn: Turn) {
    turn.failsInWait || turn.failsAfterWait || (turn.claim.Some? && turn.failsInVerify)
  }

  /** Which reason a refused call is given. A collision names the record from before the spawn, confirmed;
      a spawn failure was reported by the child, at once or in a turn the loop had begun; and a missing
      endpoint is never claimed when the child had reported a failure. */
  lemma RefusalTellsReason(env: Environment, pid: nat, outcome: Outcome)
    requires Concludes(env, pid, outcome) && outcome.Refused?
    ensures outcome.reason == Collision || outcome.reason == SpawnFailed || outcome.reason == NoEndpoint
    ensures outcome.reason == Collision <==>
            exists k: nat :: Runs(env, k) && Checked(env.turns[k]).Verified? && env.previous == env.turns[k].claim
    ensures outcome.reason == SpawnFailed ==>
              env.failsAtOnce || exists k: nat :: Runs(env, k) && Reports(env.turns[k])
    ensures outcome.reason == NoEndpoint ==>
              !env.failsAtOnce && forall k: nat :: Runs(env, k) ==> !Reports(env.turns[k])
  {
    hide Checked, Concludes;
    var k: nat :| Ends(env, k, pid, outcome) by { FirstEnd(env, pid, outcome); }
    ReasonAt(env, k, pid, outcome);
    if j: nat :| Runs(env, j) && Checked(env.turns[j]).Verified? && env.previous == env.turns[j].claim {
      VerifiedHasClaim(env.turns[j]);
      CollisionIsReported(env, pid, outcome, j);
    }
  }

  lemma VerifiedHasClaim(turn: Turn)
    ensures Checked(turn).Verified? ==> turn.claim.Some?
  {
  }

  ghost predicate Ends(env: Environment, k: nat, pid: nat, outcome: Outcome) {
    TurnEnds(env, k, pid, outcome) || LoopEnds(env, k, outcome)
  }

  lemma FirstEnd(env: Environment, pid: nat, outcome: Outcome)
    requires Concludes(env, pid, outcome)
    ensures exists k: nat :: Ends(env, k, pid, outcome)
  {
    var k: nat :| TurnEnds(env, k, pid, outcome) || LoopEnds(env, k, outcome);
    assert Ends(env, k, pid, outcome);
  }

  lemma ReasonAt(env: Environment, k: nat, pid: nat, outcome: Outcome)
    requires Ends(env, k, pid, outcome) && outcome.Refused?
    ensures outcome.reason == Collision || outcome.reason == SpawnFailed || outcome.reason == NoEndpoint
    ensures outcome.reason == Collision ==>
              Runs(env, k) && Checked(env.turns[k]).Verified? && env.previous == env.turns[k].claim
    ensures outcome.reason == SpawnFailed ==>
              env.failsAtOnce || exists j: nat :: Runs(env, j) && Reports(env.turns[j])
    ensures outcome.reason == NoEndpoint ==>
              !env.failsAtOnce && forall j: nat :: Runs(env, j) ==> !Reports(env.turns[j])
  {
    hide Checked;
    forall j: nat | Reaches(env, k) && j < k
      ensures Runs(env, j)
    {
    }
    if outcome.reason == SpawnFailed && FailedBefore(env, k) && !env.failsAtOnce {
      var j :| 0 <= j < k && FailsIn(env.turns[j]);
      assert Runs(env, j) && Reports(env.turns[j]);
    }
    if outcome.reason == SpawnFailed && TurnEnds(env, k, pid, outcome) && !FailedBefore(env, k) {
      assert Runs(env, k) && Reports(env.turns[k]);
    }
  }

  /** A spawn failure the child reports before anything answers is never waited out, and is never
      reported as a missing endpoint. */
  lemma FailureIsReported(env: Environment, pid: nat, outcome: Outcome, k: nat)
    requires Concludes(env, pid, outcome) && Runs(env, k) && FailureSeen(env, k) && Checked(env.turns[k]) == Rejected
    ensures outcome == Refused(SpawnFailed)
  {
    assert TurnEnds(env, k, pid, Refused(SpawnFailed));
    ConclusionIsUnique(env, pid, outcome, Refused(SpawnFailed));
  }

  /** An answering browser that held the profile before the spawn is reported as a collision. */
  lemma CollisionIsReported(env: Environment, pid: nat, outcome: Outcome, k: nat)
    requires Concludes(env, pid, outcome) && Runs(env, k)
    requires Checked(env.turns[k]).Verified? && IsPrevious(env, env.turns[k])
    ensures outcome == Refused(Collision)
  {
    assert TurnEnds(env, k, pid, Refused(Collision));
    ConclusionIsUnique(env, pid, outcome, Refused(Collision));
  }
}
