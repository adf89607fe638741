/**
  The controller's side of an isolation round: the flag it publishes, the Phoenix state it
  leaves behind, and the retry budget of the reconstruction.  Whether the cores froze in time and
  how each reconstruction attempt went are inputs; the freeze itself is `FreezeProtocol`.
*/
module Handoff {
  import opened Wrappers
  import opened Words
  import FP = FreezeProtocol

  const MAX_FORGE_ATTEMPTS: nat := 3

  datatype PhoenixState =
    | BootStage0 | Normal | Threat | IsolationSoft | IsolationHard | Certif | Restore | Degraded | Emergency
    | NetworkDraining | NetworkSerialized

  /** How one pass of the retry loop goes: the forge fails, it works but the wake notification fails, or all is well. */
  datatype Attempt = ForgeFailed | WakeFailed(error: string) | Succeeded

  /** A failure adds one to the 32-bit failure count, which wraps. */
  function NextCount(failures: nat): nat { (failures + 1) % U32_SIZE }

  function ErrorOf(a: Attempt): string
    requires !a.Succeeded?
  {
    if a.WakeFailed? then a.error else "forge_reconstruct_failed_degraded"
  }

  // ---------------------------------------------------------------- the retry policy

  datatype Verdict = Restored | GaveUp(error: string) | FellThrough

  /** What the retry loop decides on these attempts, starting from this failure count. */
  function Decide(failures: nat, attempts: seq<Attempt>): Verdict
    decreases |attempts|
  {
    if attempts == [] then FellThrough
    else if attempts[0].Succeeded? then Restored
    else if NextCount(failures) >= MAX_FORGE_ATTEMPTS then GaveUp(ErrorOf(attempts[0]))
    else Decide(NextCount(failures), attempts[1..])
  }

  /** The failure count afterwards. */
  function CountAfter(failures: nat, attempts: seq<Attempt>): nat
    decreases |attempts|
  {
    if attempts == [] then failures
    else if attempts[0].Succeeded? then 0
    else if NextCount(failures) >= MAX_FORGE_ATTEMPTS then NextCount(failures)
    else CountAfter(NextCount(failures), attempts[1..])
  }

  predicate AllFail(attempts: seq<Attempt>) { forall i :: 0 <= i < |attempts| ==> !attempts[i].Succeeded? }

  lemma LastAttempt(failures: nat, a: Attempt)
    ensures Decide(failures, [a]).FellThrough? <==> !a.Succeeded? && NextCount(failures) < MAX_FORGE_ATTEMPTS
  {
    assert [a][1..] == [];
  }

  /**
    The retry loop runs out without a verdict if and only if the 32-bit failure count stands at
    its maximum and all three attempts fail: the first failure then wraps the count to zero.
  */
  lemma FallsThroughExactlyWhen(failures: nat, attempts: seq<Attempt>)
    requires failures < U32_SIZE && |attempts| == MAX_FORGE_ATTEMPTS
    ensures Decide(failures, attempts).FellThrough? <==> failures == U32_SIZE - 1 && AllFail(attempts)
  {
    var rest := attempts[1..];
    var last := rest[1..];
    assert rest[0] == attempts[1] && last[0] == attempts[2] && last[1..] == [];
    assert AllFail(attempts) <==>
           !attempts[0].Succeeded? && !attempts[1].Succeeded? && !attempts[2].Succeeded?;
    assert last == [attempts[2]];
    LastAttempt(NextCount(NextCount(failures)), attempts[2]);
  }

  // ---------------------------------------------------------------- how the count gets there

  const NEVER: seq<Attempt> := [ForgeFailed, ForgeFailed, ForgeFailed]

  /** The failure count after n rounds whose attempts all fail, from boot. */
  function CountAfterRounds(n: nat): nat { if n == 0 then 0 else CountAfter(CountAfterRounds(n - 1), NEVER) }

  lemma FailedRound(failures: nat)
    requires failures < U32_SIZE - 1
    ensures CountAfter(failures, NEVER) == if failures == 0 then 3 else if failures == 1 then 3 else failures + 1
    ensures Decide(failures, NEVER).GaveUp?
  {
    var two, one := NEVER[1..], NEVER[1..][1..];
    assert two == [ForgeFailed, ForgeFailed] && one == [ForgeFailed] && one[1..] == [];
    assert CountAfter(2, one) == 3 && Decide(2, one).GaveUp?;
    assert CountAfter(1, two) == 3 && Decide(1, two).GaveUp?;
  }

  /** The first failing round uses all three attempts, every later one a single attempt. */
  lemma {:induction false} CountClimbs(n: nat)
    requires 0 < n <= U32_SIZE - 3
    ensures CountAfterRounds(n) == n + 2
  {
    if n > 1 { CountClimbs(n - 1); }
    FailedRound(CountAfterRounds(n - 1));
  }

  /**
    So the wrap is reached from boot: after 2^32 - 3 failing rounds the next one falls through, and
    none before it did.
  */
  lemma WrapIsReached(n: nat)
    requires n <= U32_SIZE - 3
    ensures Decide(CountAfterRounds(n), NEVER).FellThrough? <==> n == U32_SIZE - 3
  {
    if n > 0 { CountClimbs(n); }
    FallsThroughExactlyWhen(CountAfterRounds(n), NEVER);
  }

  /** Attempt j is the first to succeed. */
  predicate FirstSuccess(attempts: seq<Attempt>, j: nat)
  {
    j < |attempts| && attempts[j].Succeeded? && AllFail(attempts[..j])
  }

  /**
    Below the wrap, the core comes back exactly when the first success arrives within the budget
    left by earlier failures; the very first attempt always counts.
  */
  lemma RestoresExactlyWhen(failures: nat, attempts: seq<Attempt>)
    requires failures < U32_SIZE - 1 && |attempts| <= MAX_FORGE_ATTEMPTS
    ensures Decide(failures, attempts).Restored? <==>
            exists j: nat :: FirstSuccess(attempts, j) && (j == 0 || failures + j < MAX_FORGE_ATTEMPTS)
    decreases |attempts|
  {
    if attempts != [] {
      var rest := attempts[1..];
      if attempts[0].Succeeded? {
        assert FirstSuccess(attempts, 0);
      } else if failures + 1 < MAX_FORGE_ATTEMPTS {
        RestoresExactlyWhen(failures + 1, rest);
        forall j: nat | j < |rest| ensures FirstSuccess(rest, j) <==> FirstSuccess(attempts, j + 1) {
          assert attempts[..j + 1] == [attempts[0]] + rest[..j];
        }
        if exists j: nat :: FirstSuccess(attempts, j) && (j == 0 || failures + j < MAX_FORGE_ATTEMPTS) {
          var j: nat :| FirstSuccess(attempts, j) && (j == 0 || failures + j < MAX_FORGE_ATTEMPTS);
          assert FirstSuccess(rest, j - 1);
        }
        if exists j: nat :: FirstSuccess(rest, j) && (j == 0 || failures + 1 + j < MAX_FORGE_ATTEMPTS) {
          var j: nat :| FirstSuccess(rest, j) && (j == 0 || failures + 1 + j < MAX_FORGE_ATTEMPTS);
          assert FirstSuccess(attempts, j + 1);
        }
      } else {
        forall j: nat | FirstSuccess(attempts, j) ensures j > 0 {}
      }
    }
  }

  // ---------------------------------------------------------------- the verdict in closed form

  /** How many attempts a round makes at most: three after a restore, one after two failures or more. */
  function Budget(failures: nat): (b: nat)
    requires failures < U32_SIZE
    ensures 1 <= b <= 3
  {
    if failures == U32_SIZE - 1 || failures == 0 then 3 else if failures == 1 then 2 else 1
  }

  predicate SomeSucceeds(attempts: seq<Attempt>, n: nat)
    requires n <= |attempts|
  {
    exists j :: 0 <= j < n && attempts[j] == Succeeded
  }

  /** The error of an attempt that failed. */
  predicate IsErrorOf(e: string, a: Attempt)
  {
    (a == ForgeFailed && e == "forge_reconstruct_failed_degraded") || a == WakeFailed(e)
  }

  /**
    What a round comes to, without running it: it restores, and clears the count, if an attempt within
    the budget succeeds; it gives up with the error of the last attempt within the budget and a count
    of at least three; and with the count at its maximum it ends without a verdict.
  */
  ghost predicate RoundComesTo(failures: nat, attempts: seq<Attempt>, v: Verdict, count: nat)
    requires failures < U32_SIZE && |attempts| == MAX_FORGE_ATTEMPTS
  {
    var b := Budget(failures);
    if SomeSucceeds(attempts, b) then v == Restored && count == 0
    else if failures == U32_SIZE - 1 then v == FellThrough && count == 2
    else v.GaveUp? && IsErrorOf(v.error, attempts[b - 1]) && count == if failures < 2 then 3 else failures + 1
  }

  lemma VerdictInClosedForm(failures: nat, attempts: seq<Attempt>)
    requires failures < U32_SIZE && |attempts| == MAX_FORGE_ATTEMPTS
    ensures RoundComesTo(failures, attempts, Decide(failures, attempts), CountAfter(failures, attempts))
  {
    var two, one := attempts[1..], attempts[1..][1..];
    assert two[0] == attempts[1] && one[0] == attempts[2] && one[1..] == [];
    var f1 := NextCount(failures);
    var f2 := NextCount(f1);
    assert Decide(f2, one) == if attempts[2].Succeeded? then Restored
                              else if NextCount(f2) >= 3 then GaveUp(ErrorOf(attempts[2])) else FellThrough;
    assert CountAfter(f2, one) == if attempts[2].Succeeded? then 0 else NextCount(f2);
  }

  lemma RestoreClears(failures: nat, attempts: seq<Attempt>)
    requires failures < U32_SIZE && |attempts| == MAX_FORGE_ATTEMPTS
    ensures Decide(failures, attempts).Restored? ==> CountAfter(failures, attempts) == 0
  {
    VerdictInClosedForm(failures, attempts);
  }

  /** The round after a restore, or after boot, restores if and only if one of its three attempts succeeds. */
  lemma AfterRestoreAnySuccessCounts(attempts: seq<Attempt>)
    requires |attempts| == MAX_FORGE_ATTEMPTS
    ensures Decide(0, attempts).Restored? <==> Succeeded in attempts
  {
    VerdictInClosedForm(0, attempts);
  }

  lemma RoundAfterRestore(failures: nat, first: seq<Attempt>, second: seq<Attempt>)
    requires failures < U32_SIZE && |first| == |second| == MAX_FORGE_ATTEMPTS && Decide(failures, first).Restored?
    ensures Decide(CountAfter(failures, first), second).Restored? <==> Succeeded in second
  {
    RestoreClears(failures, first);
    AfterRestoreAnySuccessCounts(second);
  }

  // ---------------------------------------------------------------- the controller

  class Controller {
    var flag: nat
    var phoenix: PhoenixState
    var failures: nat
    /** Every value stored to the handoff flag, in order. */
    ghost var published: seq<nat>

    ghost predicate Valid()
      reads this
    {
      failures < U32_SIZE
    }

    method SetFlag(v: nat)
      modifies this`flag, this`published
      ensures flag == v && published == old(published) + [v]
    {
      flag := v;
      published := published + [v];
    }

    method ReleaseFrozenCores()
      modifies this`flag, this`published
      ensures flag == FP.HANDOFF_NORMAL
      ensures published == old(published) + [FP.HANDOFF_B_ACTIVE, FP.HANDOFF_NORMAL]
    {
      SetFlag(FP.HANDOFF_B_ACTIVE);
      SetFlag(FP.HANDOFF_NORMAL);
    }

    method TryForgeReconstruct(attempts: seq<Attempt>) returns (r: Result<(), string>)
      requires Valid() && |attempts| == MAX_FORGE_ATTEMPTS
      modifies this
      ensures Valid() && failures == CountAfter(old(failures), attempts)
      ensures RoundComesTo(old(failures), attempts, Decide(old(failures), attempts), failures)
      ensures r.Ok? ==> failures == 0
      ensures old(failures) == 0 ==> (r.Ok? <==> Succeeded in attempts)
      ensures match Decide(old(failures), attempts)
              case Restored =>
                r.Ok? && phoenix == Restore && flag == FP.HANDOFF_NORMAL
                && published == old(published) + [FP.HANDOFF_B_ACTIVE, FP.HANDOFF_NORMAL]
              case GaveUp(e) =>
                r == Err(e) && phoenix == Degraded && flag == FP.HANDOFF_NORMAL
                && published == old(published) + [FP.HANDOFF_NORMAL]
              case FellThrough =>
                r == Err("forge_reconstruct_failed") && phoenix == old(phoenix) && flag == old(flag)
                && published == old(published)
    {
      VerdictInClosedForm(failures, attempts);
      hide RoundComesTo;
      AfterRestoreAnySuccessCounts(attempts);
      RestoreClears(failures, attempts);
      for k := 0 to MAX_FORGE_ATTEMPTS
        invariant Valid()
        invariant Decide(old(failures), attempts) == Decide(failures, attempts[k..])
        invariant CountAfter(old(failures), attempts) == CountAfter(failures, attempts[k..])
        invariant phoenix == old(phoenix) && flag == old(flag) && published == old(published)
      {
        assert attempts[k..][0] == attempts[k] && attempts[k..][1..] == attempts[k + 1..];
        match attempts[k] {
          case Succeeded =>
            failures := 0;
            phoenix := Restore;
            ReleaseFrozenCores();
            return Ok(());
          case _ =>
            failures := NextCount(failures);
            if failures >= MAX_FORGE_ATTEMPTS {
              phoenix := Degraded;
              SetFlag(FP.HANDOFF_NORMAL);
              return Err(ErrorOf(attempts[k]));
            }
        }
      }
      r := Err("forge_reconstruct_failed");
    }

    method BeginIsolationHard() returns (r: Result<(), string>)
      modifies this`flag, this`published, this`phoenix
      ensures r.Ok? && phoenix == Certif && flag == FP.HANDOFF_NORMAL
      ensures published == old(published) + [FP.HANDOFF_NORMAL]
    {
      phoenix := Certif;
      SetFlag(FP.HANDOFF_NORMAL);
      r := Ok(());
    }

    /**
      One isolation round.  `frozeInTime` is the outcome of the ack wait.  Once FREEZE_REQ is out,
      the round ends with the flag released and one of the three final states, if and only if it
      is not the case that the cores froze, the failure count stood at its 32-bit maximum, and
      every attempt failed; in that one case the flag stays at FREEZE_ACK_ALL.
    */
    method BeginIsolationSoft(vectorsArmed: bool, frozeInTime: bool, attempts: seq<Attempt>)
      returns (r: Result<(), string>)
      requires Valid() && |attempts| == MAX_FORGE_ATTEMPTS
      modifies this
      ensures Valid()
      ensures !vectorsArmed ==>
                r.Err? && flag == old(flag) && phoenix == old(phoenix) && published == old(published)
      ensures vectorsArmed && !frozeInTime ==>
                published == old(published) + [FP.HANDOFF_FREEZE_REQ, FP.HANDOFF_NORMAL]
      ensures vectorsArmed && frozeInTime ==>
                published == old(published) + [FP.HANDOFF_FREEZE_REQ, FP.HANDOFF_FREEZE_ACK_ALL]
                             + (match Decide(old(failures), attempts)
                                case Restored => [FP.HANDOFF_B_ACTIVE, FP.HANDOFF_NORMAL]
                                case GaveUp(_) => [FP.HANDOFF_NORMAL]
                                case FellThrough => [])
      ensures vectorsArmed ==>
                (flag == FP.HANDOFF_NORMAL && phoenix in {Restore, Degraded, Certif}
                 <==> !(frozeInTime && old(failures) == U32_SIZE - 1 && AllFail(attempts)))
      ensures vectorsArmed && flag != FP.HANDOFF_NORMAL ==>
                r.Err? && flag == FP.HANDOFF_FREEZE_ACK_ALL && phoenix == IsolationHard
      ensures vectorsArmed ==> (phoenix == Certif <==> !frozeInTime)
      ensures vectorsArmed ==> (phoenix == Restore <==> frozeInTime && Decide(old(failures), attempts).Restored?)
      ensures vectorsArmed ==> (r.Ok? <==> phoenix == Certif || phoenix == Restore)
      ensures phoenix == Restore && vectorsArmed ==> failures == 0
      ensures !vectorsArmed || !frozeInTime ==> failures == old(failures)
      ensures vectorsArmed && frozeInTime ==>
                RoundComesTo(old(failures), attempts, Decide(old(failures), attempts), failures)
    {
      if !vectorsArmed {
        return Err("exophoenix_vectors_not_armed");
      }
      FallsThroughExactlyWhen(failures, attempts);
      SetFlag(FP.HANDOFF_FREEZE_REQ);
      if !frozeInTime {
        r := BeginIsolationHard();
        return;
      }
      SetFlag(FP.HANDOFF_FREEZE_ACK_ALL);
      phoenix := IsolationHard;
      r := TryForgeReconstruct(attempts);
    }
  }
}
