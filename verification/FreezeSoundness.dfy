/**
  When FREEZE_ACK_ALL, and the end of hard isolation, may be believed.

  The ack scan accepts TLB_ACK_DONE as well as FREEZE_ACK_DONE, and both handlers store into the
  same word, so a core that answers an old TLB-flush IPI during the wait counts as frozen while
  it is still running.  `AckAllCanLieExactlyWhen` says exactly from which states, right after
  FREEZE_REQ is published, a round can end that way; hard isolation makes the same test before it
  resets a core, and `HardIsolationMissesExactlyWhen` says exactly when it leaves a core running.
*/
module FreezeSoundness {
  import opened FreezeProtocol

  /** The core can still answer a TLB-flush IPI before it freezes. */
  predicate Unquiet(core: Core)
  {
    core.pc == ReloadingCr3 || core.pc == StoringTlbAck
    || (core.tlbPending && (core.pc == Running || core.pc == Leaving))
  }

  /** Not left over in the freeze loop of an earlier round, and not halted: the core can ack again. */
  predicate CanAck(core: Core) { core.pc != Spinning && core.pc != Halted }

  ghost predicate AllFrozen(s: State)
    requires WellFormed(s)
  {
    forall k :: 0 <= k < |s.order| ==> Frozen(s.cores[s.order[k]])
  }

  ghost predicate SomeUnquiet(s: State)
    requires WellFormed(s)
  {
    exists k :: 0 <= k < |s.order| && Unquiet(s.cores[s.order[k]])
  }

  ghost predicate AllCanAck(s: State)
    requires WellFormed(s)
  {
    forall k :: 0 <= k < |s.order| ==> CanAck(s.cores[s.order[k]])
  }

  /** Up to its last action the run stays between FREEZE_REQ and the end of this round. */
  ghost predicate InRound(s: State, run: seq<Action>)
    requires WellFormed(s)
  {
    run != [] ==> InRound(s, run[..|run| - 1]) && Isolating(Execute(s, run[..|run| - 1]).controller)
  }

  // ---------------------------------------------------------------- quiet rounds are sound

  ghost predicate AllStopped(s: State)
    requires WellFormed(s)
  {
    forall k :: 0 <= k < |s.order| ==> Frozen(s.cores[s.order[k]]) || s.cores[s.order[k]].pc == Halted
  }

  ghost predicate Quiet(s: State)
  {
    && Inv(s) && !SomeUnquiet(s)
    && (forall k :: 0 <= k < ClearedCount(s) ==> s.acks[s.order[k]] != TLB_ACK_DONE)
    && (forall k :: 0 <= k < ScannedCount(s) ==> Frozen(s.cores[s.order[k]]))
  }

  ghost predicate QuietRound(s: State) { Quiet(s) && Isolating(s.controller) }

  ghost predicate QuietOutcome(s: State)
  {
    && Inv(s)
    && (Isolating(s.controller) || HardDone(s) ==> Quiet(s))
    && (s.controller.Reconstruct? ==> s.flag == HANDOFF_FREEZE_ACK_ALL && s.drainConfirmed && AllFrozen(s))
  }

  lemma QuietWaitStep(s: State, timeout: bool, outcome: Outcome)
    requires QuietRound(s) && Waiting(s.controller)
    ensures QuietOutcome(StepController(s, timeout, outcome))
  {
    hide Inv, Interrupt;
    InvParts(s);
    ControllerKeepsInv(s, timeout, outcome);
    var r := StepController(s, timeout, outcome);
    InvParts(r);
    if s.controller.Broadcast? {
      InterruptKeepsQuiet(s);
    } else {
      assert r.cores == s.cores;
    }
  }

  /** The freeze IPI changes no core but for being pending there. */
  lemma InterruptKeepsQuiet(s: State)
    requires WellFormed(s) && !SomeUnquiet(s)
    ensures var r := Interrupt(s, true);
            WellFormed(r) && !SomeUnquiet(r) && r == s.(cores := r.cores)
            && forall k :: 0 <= k < |s.order| && Frozen(s.cores[s.order[k]]) ==> Frozen(r.cores[s.order[k]])
  {
  }

  lemma QuietHardStep(s: State, timeout: bool, outcome: Outcome)
    requires QuietRound(s) && !Waiting(s.controller)
    ensures QuietOutcome(StepController(s, timeout, outcome))
  {
    hide Inv;
    InvParts(s);
    ControllerKeepsInv(s, timeout, outcome);
    InvParts(StepController(s, timeout, outcome));
  }

  /** What the invariant says about a round. */
  lemma InvParts(s: State)
    requires Inv(s)
    ensures WellFormed(s) && ResetCount(s) <= |s.order| && ScannedCount(s) <= |s.order| && DealtCount(s) <= |s.order|
    ensures Isolating(s.controller) ==> s.flag == HANDOFF_FREEZE_REQ
    ensures s.controller.PublishAckAll? ==> s.drainConfirmed
    ensures forall k :: 0 <= k < ResetCount(s) && s.acks[s.order[k]] == FREEZE_ACK_DONE ==> Frozen(s.cores[s.order[k]])
  {
  }

  lemma CoreStepIsLocal(s: State, c: nat)
    requires WellFormed(s) && c < |s.cores|
    ensures var r := StepCore(s, c);
            && r.controller == s.controller && r.flag == s.flag && r.drainConfirmed == s.drainConfirmed
            && forall d :: 0 <= d < |s.cores| && d != c ==> r.cores[d] == s.cores[d] && r.acks[d] == s.acks[d]
  {
  }

  /** A quiet core stays quiet, acks only by freezing, and stays frozen. */
  lemma QuietCoreStays(s: State, c: nat)
    requires WellFormed(s) && c < |s.cores| && !Unquiet(s.cores[c]) && s.flag == HANDOFF_FREEZE_REQ
    ensures var r := StepCore(s, c);
            && !Unquiet(r.cores[c]) && (r.acks[c] == s.acks[c] || r.acks[c] == FREEZE_ACK_DONE)
            && (Frozen(s.cores[c]) ==> Frozen(r.cores[c]))
  {
  }

  lemma QuietCoreStep(s: State, c: nat)
    requires QuietRound(s) && IsTargetCore(s, c)
    ensures QuietOutcome(StepCore(s, c))
  {
    hide Inv, StepCore, Unquiet;
    InvParts(s);
    CoreKeepsInv(s, c);
    InvParts(StepCore(s, c));
    CoreStepIsLocal(s, c);
    QuietCoreStays(s, c);
  }

  lemma QuietStep(s: State, a: Action)
    requires QuietRound(s)
    ensures QuietOutcome(Step(s, a))
  {
    hide Inv, StepController;
    InvParts(s);
    StepKeepsInv(s, a);
    InvParts(Step(s, a));
    if a.Controller? && Waiting(s.controller) { QuietWaitStep(s, a.timeout, a.outcome); }
    else if a.Controller? { QuietHardStep(s, a.timeout, a.outcome); }
    else if a.CoreStep? && IsTargetCore(s, a.core) { QuietCoreStep(s, a.core); }
  }

  /** With no TLB-flush IPI to answer, FREEZE_ACK_ALL means that every target is frozen at that moment. */
  lemma {:induction false} QuietRoundIsSound(s: State, run: seq<Action>)
    requires QuietRound(s) && InRound(s, run)
    ensures QuietOutcome(Execute(s, run))
  {
    if run != [] {
      QuietRoundIsSound(s, run[..|run| - 1]);
      QuietStep(Execute(s, run[..|run| - 1]), run[|run| - 1]);
    }
  }

  /** And hard isolation releases the flag only with every target frozen or halted. */
  lemma QuietHardIsolationStopsAll(s: State, run: seq<Action>)
    requires QuietRound(s) && InRound(s, run) && HardDone(Execute(s, run))
    ensures AllStopped(Execute(s, run))
  {
    QuietRoundIsSound(s, run);
    DoneIsStopped(Execute(s, run));
  }

  lemma StartsQuiet(s: State)
    requires Inv(s) && s.controller == ResetAck(0) && !SomeUnquiet(s)
    ensures QuietRound(s)
  {
  }

  lemma DoneIsStopped(s: State)
    requires Quiet(s) && HardDone(s)
    ensures AllStopped(s)
  {
  }

  // ---------------------------------------------------------------- the wait

  /** Until the clock runs out, the controller waits or publishes FREEZE_ACK_ALL; it does not turn to hard isolation. */
  lemma {:induction false} NoResetBeforeTimeout(s: State, run: seq<Action>)
    requires WellFormed(s) && Waiting(s.controller) && InRound(s, run)
    requires forall a :: a in run && a.Controller? ==> !a.timeout
    ensures Waiting(Execute(s, run).controller) || Execute(s, run).controller.Reconstruct?
  {
    if run != [] {
      var before, a := run[..|run| - 1], run[|run| - 1];
      assert a in run && forall b :: b in before ==> b in run;
      NoResetBeforeTimeout(s, before);
      WaitGoesOn(Execute(s, before), a);
    }
  }

  lemma WaitGoesOn(s: State, a: Action)
    requires WellFormed(s) && Waiting(s.controller) && (a.Controller? ==> !a.timeout)
    ensures Waiting(Step(s, a).controller) || Step(s, a).controller.Reconstruct?
  {
  }

  // ---------------------------------------------------------------- a stuck core blocks the round

  /** Target k was left in the freeze loop or halted before this round, and has not acked in it. */
  ghost predicate StuckTarget(s: State, k: nat)
  {
    && Inv(s) && (Isolating(s.controller) || HardDone(s)) && k < |s.order| && !CanAck(s.cores[s.order[k]])
    && (k < ClearedCount(s) ==> !Acked(s.acks[s.order[k]]))
    && ScannedCount(s) <= k
  }

  /** It never acks: the round does not publish FREEZE_ACK_ALL. */
  ghost predicate StuckOutcome(s: State, k: nat)
  {
    !s.controller.Reconstruct? && (Isolating(s.controller) || HardDone(s) ==> StuckTarget(s, k))
  }

  lemma StuckWaitStep(s: State, k: nat, timeout: bool, outcome: Outcome)
    requires StuckTarget(s, k) && Waiting(s.controller)
    ensures StuckOutcome(StepController(s, timeout, outcome), k)
  {
    hide Inv, Interrupt;
    InvParts(s);
    ControllerKeepsInv(s, timeout, outcome);
    if s.controller.Broadcast? { InterruptKeepsStuck(s, k); }
  }

  lemma InterruptKeepsStuck(s: State, k: nat)
    requires WellFormed(s) && k < |s.order|
    ensures var r := Interrupt(s, true);
            WellFormed(r) && r == s.(cores := r.cores) && r.cores[s.order[k]].pc == s.cores[s.order[k]].pc
  {
  }

  lemma StuckHardStep(s: State, k: nat, timeout: bool, outcome: Outcome)
    requires StuckTarget(s, k) && (s.controller.CheckResistant? || s.controller.DeliverInit?)
    ensures StuckOutcome(StepController(s, timeout, outcome), k)
  {
    hide Inv, Interrupt;
    InvParts(s);
    ControllerKeepsInv(s, timeout, outcome);
  }

  lemma StuckCoreStep(s: State, k: nat, a: Action)
    requires StuckTarget(s, k) && Isolating(s.controller) && !a.Controller?
    ensures StuckTarget(Step(s, a), k)
  {
    hide Inv, Interrupt, SaveFpu;
    InvParts(s);
    StepKeepsInv(s, a);
  }

  lemma StuckStep(s: State, k: nat, a: Action)
    requires StuckTarget(s, k) && Isolating(s.controller)
    ensures StuckOutcome(Step(s, a), k)
  {
    hide StepController, StuckOutcome;
    if !a.Controller? {
      StuckCoreStep(s, k, a);
      StuckIsStuck(Step(s, a), k);
    } else if Waiting(s.controller) {
      StuckWaitStep(s, k, a.timeout, a.outcome);
    } else {
      StuckHardStep(s, k, a.timeout, a.outcome);
    }
  }

  lemma StuckIsStuck(s: State, k: nat)
    requires StuckTarget(s, k)
    ensures StuckOutcome(s, k) && (HardDone(s) ==> s.cores[s.order[k]].pc == Halted)
  {
  }

  /** A stuck target blocks FREEZE_ACK_ALL for the whole round, and hard isolation ends with it reset. */
  lemma {:induction false} StuckRoundNeverAcks(s: State, k: nat, run: seq<Action>)
    requires StuckTarget(s, k) && InRound(s, run)
    ensures var r := Execute(s, run);
            StuckOutcome(r, k) && !r.controller.Reconstruct? && (HardDone(r) ==> r.cores[s.order[k]].pc == Halted)
  {
    assert WellFormed(s) && k < |s.order|;
    hide StuckTarget, Step;
    if run == [] {
      StuckIsStuck(s, k);
    } else {
      StuckRoundNeverAcks(s, k, run[..|run| - 1]);
      StuckStep(Execute(s, run[..|run| - 1]), k, run[|run| - 1]);
      if HardDone(Execute(s, run)) { StuckIsStuck(Execute(s, run), k); }
    }
  }

  // ---------------------------------------------------------------- building a lying round

  ghost predicate Reaches(s: State, t: State)
    requires WellFormed(s)
  {
    exists run :: InRound(s, run) && Execute(s, run) == t
  }

  lemma ReachesRefl(s: State)
    requires WellFormed(s)
    ensures Reaches(s, s)
  {
    assert InRound(s, []) && Execute(s, []) == s;
  }

  /** Appending one action to a run that is still in the round. */
  lemma ReachesStep(s: State, t: State, a: Action)
    requires WellFormed(s) && Reaches(s, t) && Isolating(t.controller)
    ensures WellFormed(t) && t.order == s.order && |t.cores| == |s.cores| && Reaches(s, Step(t, a))
  {
    var run :| InRound(s, run) && Execute(s, run) == t;
    var longer := run + [a];
    assert longer[..|longer| - 1] == run;
    assert InRound(s, longer) && Execute(s, longer) == Step(t, a);
  }

  const TIMEOUT: Action := Controller(true, Restored)

  lemma {:induction false} ResetLoopRuns(s: State, t: State, i: nat) returns (u: State)
    requires WellFormed(s) && Reaches(s, t) && WellFormed(t) && t.controller == ResetAck(i) && i <= |t.order|
    requires forall m :: 0 <= m < i ==> t.acks[t.order[m]] == 0
    ensures Reaches(s, u) && WellFormed(u) && u.controller == Broadcast
    ensures u.cores == t.cores && u.flag == t.flag && u.order == t.order
    ensures forall m :: 0 <= m < |u.order| ==> u.acks[u.order[m]] == 0
    decreases |t.order| - i
  {
    hide Reaches;
    ReachesStep(s, t, TICK);
    if i == |t.order| {
      u := Step(t, TICK);
    } else {
      u := ResetLoopRuns(s, Step(t, TICK), i + 1);
    }
  }

  lemma DrainRuns(s: State, t: State) returns (u: State)
    requires WellFormed(s) && Reaches(s, t) && WellFormed(t) && t.controller == ClearDrain
    ensures Reaches(s, u) && WellFormed(u) && u.controller == ScanAck(0) && u.drainConfirmed
    ensures u.cores == t.cores && u.flag == t.flag && u.order == t.order && u.acks == t.acks
  {
    hide Reaches;
    ReachesStep(s, t, TICK);
    var t1 := Step(t, TICK);
    ReachesStep(s, t1, TICK);
    u := Step(t1, TICK);
  }

  /** From FREEZE_REQ to the first scan: every target has the freeze IPI pending. */
  lemma RoundReachesScan(s: State) returns (u: State)
    requires WellFormed(s) && s.controller == ResetAck(0)
    ensures Reaches(s, u) && WellFormed(u) && u.controller == ScanAck(0) && u.drainConfirmed
    ensures u.order == s.order && u.flag == s.flag && u.cores == Interrupt(s, true).cores
    ensures forall m :: 0 <= m < |u.order| ==> u.acks[u.order[m]] == 0
  {
    hide Reaches;
    ReachesRefl(s);
    var t := ResetLoopRuns(s, s, 0);
    ReachesStep(s, t, TICK);
    u := DrainRuns(s, Step(t, TICK));
  }

  /** The only difference between t and u is what core c did. */
  ghost predicate OnlyCore(t: State, u: State, c: nat)
  {
    && WellFormed(t) && WellFormed(u) && |u.cores| == |t.cores|
    && u.order == t.order && u.controller == t.controller && u.flag == t.flag && u.drainConfirmed == t.drainConfirmed
    && (forall d :: 0 <= d < |t.cores| && d != c ==> u.cores[d] == t.cores[d] && u.acks[d] == t.acks[d])
  }

  ghost predicate InWait(t: State, c: nat)
  {
    WellFormed(t) && Isolating(t.controller) && t.flag == HANDOFF_FREEZE_REQ && IsTargetCore(t, c)
  }

  lemma CoreMoveIsLocal(t: State, c: nat, a: Action)
    requires InWait(t, c)
    requires a == CoreStep(c) || a == TakeFreeze(c) || a == TakeTlb(c)
    ensures OnlyCore(t, Step(t, a), c)
  {
  }

  lemma CoreMoves(s: State, t: State, c: nat, a: Action)
    requires WellFormed(s) && Reaches(s, t) && InWait(t, c)
    requires a == CoreStep(c) || a == TakeFreeze(c) || a == TakeTlb(c)
    ensures Reaches(s, Step(t, a)) && OnlyCore(t, Step(t, a), c)
  {
    CoreMoveIsLocal(t, c, a);
    ReachesStep(s, t, a);
  }

  /** Steps left before the ack store, in either handler. */
  function StepsToAck(pc: CorePc): nat
  {
    match pc
    case Leaving => 3
    case Running => 2
    case SavingFpu | ReloadingCr3 => 1
    case _ => 0
  }

  function TowardsTlbAck(t: State, c: nat): Action
    requires c < |t.cores|
  {
    if t.cores[c].pc == Running then TakeTlb(c) else CoreStep(c)
  }

  function TowardsFreezeAck(t: State, c: nat): Action
    requires c < |t.cores|
  {
    if t.cores[c].pc == Running then TakeFreeze(c) else CoreStep(c)
  }

  lemma TlbProgress(t: State, c: nat)
    requires InWait(t, c) && Unquiet(t.cores[c])
    ensures var u := Step(t, TowardsTlbAck(t, c));
            if t.cores[c].pc == StoringTlbAck then u.acks[c] == TLB_ACK_DONE && u.cores[c].pc == Running
            else Unquiet(u.cores[c]) && StepsToAck(u.cores[c].pc) < StepsToAck(t.cores[c].pc)
  {
  }

  lemma FreezeProgress(t: State, c: nat)
    requires InWait(t, c) && CanAck(t.cores[c]) && !Unquiet(t.cores[c])
    requires t.cores[c].pc == Running || t.cores[c].pc == Leaving ==> t.cores[c].freezePending
    ensures var u := Step(t, TowardsFreezeAck(t, c));
            if t.cores[c].pc == StoringAck then u.acks[c] == FREEZE_ACK_DONE
            else CanAck(u.cores[c]) && !Unquiet(u.cores[c]) && StepsToAck(u.cores[c].pc) < StepsToAck(t.cores[c].pc)
                 && (u.cores[c].pc == Running || u.cores[c].pc == Leaving ==> u.cores[c].freezePending)
  {
  }

  /** An unquiet core can ack through the TLB handler and keep running. */
  lemma {:induction false} AnswersTlb(s: State, t: State, c: nat) returns (u: State)
    requires WellFormed(s) && Reaches(s, t) && InWait(t, c) && Unquiet(t.cores[c])
    ensures Reaches(s, u) && OnlyCore(t, u, c) && u.acks[c] == TLB_ACK_DONE && u.cores[c].pc == Running
    decreases StepsToAck(t.cores[c].pc)
  {
    TlbProgress(t, c);
    CoreMoves(s, t, c, TowardsTlbAck(t, c));
    u := Step(t, TowardsTlbAck(t, c));
    if t.cores[c].pc != StoringTlbAck { u := AnswersTlb(s, u, c); }
  }

  /** A core that is not stuck can ack through the freeze handler. */
  lemma {:induction false} AnswersFreeze(s: State, t: State, c: nat) returns (u: State)
    requires WellFormed(s) && Reaches(s, t) && InWait(t, c) && CanAck(t.cores[c]) && !Unquiet(t.cores[c])
    requires t.cores[c].pc == Running || t.cores[c].pc == Leaving ==> t.cores[c].freezePending
    ensures Reaches(s, u) && OnlyCore(t, u, c) && u.acks[c] == FREEZE_ACK_DONE
    decreases StepsToAck(t.cores[c].pc)
  {
    FreezeProgress(t, c);
    CoreMoves(s, t, c, TowardsFreezeAck(t, c));
    u := Step(t, TowardsFreezeAck(t, c));
    if t.cores[c].pc != StoringAck { u := AnswersFreeze(s, u, c); }
  }

  /**
    Targets from k on have not moved since the scan began; the earlier ones have acked, target
    `liar` through the TLB handler.  There is no liar when `liar` is the number of targets.
  */
  ghost predicate AckedUpTo(t: State, k: nat, liar: nat)
  {
    && WellFormed(t) && t.controller == ScanAck(0) && t.flag == HANDOFF_FREEZE_REQ && t.drainConfirmed
    && k <= |t.order| && liar <= |t.order| && (k <= liar < |t.order| ==> Unquiet(t.cores[t.order[liar]]))
    && (forall m :: 0 <= m < k ==> Acked(t.acks[t.order[m]]))
    && (forall m :: k <= m < |t.order| ==> CanAck(t.cores[t.order[m]]) && t.cores[t.order[m]].freezePending)
    && (liar < k ==> t.cores[t.order[liar]].pc == Running)
  }

  lemma OnlyCoreKeepsOthers(t: State, u: State, k: nat, liar: nat)
    requires AckedUpTo(t, k, liar) && k < |t.order| && OnlyCore(t, u, t.order[k])
    requires Acked(u.acks[u.order[k]]) && (k == liar ==> u.cores[u.order[k]].pc == Running)
    ensures AckedUpTo(u, k + 1, liar)
  {
  }

  lemma NextTargetAcks(s: State, t: State, k: nat, liar: nat) returns (u: State)
    requires WellFormed(s) && Reaches(s, t) && AckedUpTo(t, k, liar) && k < |t.order|
    ensures Reaches(s, u) && AckedUpTo(u, k + 1, liar) && u.order == t.order
  {
    var c := t.order[k];
    if Unquiet(t.cores[c]) { u := AnswersTlb(s, t, c); } else { u := AnswersFreeze(s, t, c); }
    OnlyCoreKeepsOthers(t, u, k, liar);
  }

  lemma {:induction false} EveryTargetAcks(s: State, t: State, k: nat, liar: nat) returns (u: State)
    requires WellFormed(s) && Reaches(s, t) && AckedUpTo(t, k, liar)
    ensures Reaches(s, u) && AckedUpTo(u, |u.order|, liar)
    decreases |t.order| - k
  {
    if k == |t.order| {
      u := t;
    } else {
      u := NextTargetAcks(s, t, k, liar);
      u := EveryTargetAcks(s, u, k + 1, liar);
    }
  }

  lemma {:induction false} ScanSucceeds(s: State, t: State, i: nat) returns (u: State)
    requires WellFormed(s) && Reaches(s, t) && WellFormed(t) && t.controller == ScanAck(i) && i <= |t.order|
    requires t.drainConfirmed && forall m :: 0 <= m < |t.order| ==> Acked(t.acks[t.order[m]])
    ensures Reaches(s, u) && WellFormed(u) && u.controller == Reconstruct && u.cores == t.cores && u.order == t.order
    decreases |t.order| - i
  {
    hide Reaches;
    ReachesStep(s, t, TICK);
    var t1 := Step(t, TICK);
    if i == |t.order| {
      ReachesStep(s, t1, TICK);
      var t2 := Step(t1, TICK);
      ReachesStep(s, t2, TICK);
      u := Step(t2, TICK);
    } else {
      u := ScanSucceeds(s, t1, i + 1);
    }
  }

  /** A run of this round publishes FREEZE_ACK_ALL although some target is not frozen. */
  ghost predicate AckAllCanLie(s: State)
    requires WellFormed(s)
  {
    exists t :: Reaches(s, t) && WellFormed(t) && t.controller.Reconstruct? && !AllFrozen(t)
  }

  lemma ScanStartsUnacked(s: State, t: State, liar: nat)
    requires Inv(s) && s.controller == ResetAck(0) && AllCanAck(s)
    requires liar <= |s.order| && (liar < |s.order| ==> Unquiet(s.cores[s.order[liar]]))
    requires WellFormed(t) && t.controller == ScanAck(0) && t.drainConfirmed
    requires t.order == s.order && t.flag == s.flag && t.cores == Interrupt(s, true).cores
    ensures AckedUpTo(t, 0, liar)
  {
  }

  lemma UnquietRoundLies(s: State, liar: nat)
    requires Inv(s) && s.controller == ResetAck(0) && AllCanAck(s)
    requires liar < |s.order| && Unquiet(s.cores[s.order[liar]])
    ensures AckAllCanLie(s)
  {
    var t := RoundReachesScan(s);
    ScanStartsUnacked(s, t, liar);
    var u := EveryTargetAcks(s, t, 0, liar);
    var v := ScanSucceeds(s, u, 0);
    assert !Frozen(v.cores[v.order[liar]]);
  }

  /** A run of this round publishes FREEZE_ACK_ALL. */
  ghost predicate AckAllPossible(s: State)
    requires WellFormed(s)
  {
    exists t :: Reaches(s, t) && t.controller.Reconstruct?
  }

  /** Right after FREEZE_REQ is published, the round can reach FREEZE_ACK_ALL exactly when every target can ack. */
  lemma AckAllPossibleExactlyWhen(s: State)
    requires Inv(s) && s.controller == ResetAck(0)
    ensures AckAllPossible(s) <==> AllCanAck(s)
  {
    if AllCanAck(s) {
      var t := RoundReachesScan(s);
      ScanStartsUnacked(s, t, |s.order|);
      var u := EveryTargetAcks(s, t, 0, |s.order|);
      var v := ScanSucceeds(s, u, 0);
    } else if AckAllPossible(s) {
      var t :| Reaches(s, t) && t.controller.Reconstruct?;
      var run :| InRound(s, run) && Execute(s, run) == t;
      var k :| 0 <= k < |s.order| && !CanAck(s.cores[s.order[k]]);
      StuckRoundNeverAcks(s, k, run);
    }
  }

  lemma HonestRound(s: State, run: seq<Action>)
    requires Inv(s) && s.controller == ResetAck(0) && InRound(s, run)
    requires !SomeUnquiet(s) || !AllCanAck(s)
    requires Execute(s, run).controller.Reconstruct?
    ensures AllFrozen(Execute(s, run))
  {
    if !SomeUnquiet(s) {
      QuietRoundIsSound(s, run);
    } else {
      var k :| 0 <= k < |s.order| && !CanAck(s.cores[s.order[k]]);
      StuckRoundNeverAcks(s, k, run);
    }
  }

  /**
    Right after FREEZE_REQ is published, the round can end in a FREEZE_ACK_ALL that some target
    contradicts if and only if some target still has a TLB-flush IPI to answer and every target
    is able to ack.
  */
  lemma AckAllCanLieExactlyWhen(s: State)
    requires Inv(s) && s.controller == ResetAck(0)
    ensures AckAllCanLie(s) <==> SomeUnquiet(s) && AllCanAck(s)
  {
    if SomeUnquiet(s) && AllCanAck(s) {
      var liar: nat :| liar < |s.order| && Unquiet(s.cores[s.order[liar]]);
      UnquietRoundLies(s, liar);
    } else if AckAllCanLie(s) {
      var t :| Reaches(s, t) && WellFormed(t) && t.controller.Reconstruct? && !AllFrozen(t);
      var run :| InRound(s, run) && Execute(s, run) == t;
      HonestRound(s, run);
    }
  }

  // ---------------------------------------------------------------- what hard isolation misses

  /** A run of this round ends hard isolation although some target is neither frozen nor halted. */
  ghost predicate HardIsolationCanMiss(s: State)
    requires WellFormed(s)
  {
    exists t :: Reaches(s, t) && WellFormed(t) && HardDone(t) && !AllStopped(t)
  }

  /** Nobody acked by the first scan and the clock runs out: the controller turns to hard isolation. */
  lemma ScanTimesOut(s: State, t: State) returns (u: State)
    requires WellFormed(s) && Reaches(s, t) && WellFormed(t) && t.controller == ScanAck(0) && t.order != []
    requires t.acks[t.order[0]] == 0
    ensures Reaches(s, u) && WellFormed(u) && u.controller == CheckResistant(0)
    ensures u.cores == t.cores && u.flag == t.flag && u.order == t.order
  {
    hide Reaches;
    ReachesStep(s, t, TICK);
    var t1 := Step(t, TICK);
    ReachesStep(s, t1, TICK);
    var t2 := Step(t1, TICK);
    ReachesStep(s, t2, TIMEOUT);
    u := Step(t2, TIMEOUT);
  }

  /** The sweep passes over target k, which has acked, and leaves it running. */
  ghost predicate Sweeping(t: State, i: nat, k: nat)
  {
    && WellFormed(t) && t.controller == CheckResistant(i) && i <= |t.order| && t.flag == HANDOFF_FREEZE_REQ
    && k < |t.order| && Acked(t.acks[t.order[k]]) && t.cores[t.order[k]].pc == Running
  }

  lemma SweepPasses(s: State, t: State, i: nat, k: nat) returns (u: State)
    requires WellFormed(s) && Reaches(s, t) && Sweeping(t, i, k) && i < |t.order|
    ensures Reaches(s, u) && Sweeping(u, i + 1, k) && u.order == t.order
  {
    hide Reaches;
    ReachesStep(s, t, TICK);
    u := Step(t, TICK);
    if !Acked(t.acks[t.order[i]]) {
      ReachesStep(s, u, TICK);
      u := Step(u, TICK);
    }
  }

  lemma {:induction false} SweepEnds(s: State, t: State, i: nat, k: nat) returns (u: State)
    requires WellFormed(s) && Reaches(s, t) && Sweeping(t, i, k)
    ensures Reaches(s, u) && WellFormed(u) && HardDone(u) && k < |u.order| && u.cores[u.order[k]].pc == Running
    decreases |t.order| - i
  {
    hide Reaches;
    if i == |t.order| {
      ReachesStep(s, t, TICK);
      u := Step(t, TICK);
    } else {
      u := SweepPasses(s, t, i, k);
      u := SweepEnds(s, u, i + 1, k);
    }
  }

  /** A target that answers its TLB flush after the timeout is passed over. */
  lemma UnquietTargetIsMissed(s: State, k: nat)
    requires Inv(s) && s.controller == ResetAck(0) && k < |s.order| && Unquiet(s.cores[s.order[k]])
    ensures HardIsolationCanMiss(s)
  {
    hide Reaches, Inv;
    InvParts(s);
    var t := RoundReachesScan(s);
    t := ScanTimesOut(s, t);
    assert Unquiet(t.cores[t.order[k]]);
    var u := AnswersTlb(s, t, t.order[k]);
    u := SweepEnds(s, u, 0, k);
    assert !AllStopped(u);
  }

  /**
    Right after FREEZE_REQ is published, hard isolation can end with some target neither frozen
    nor halted if and only if some target still has a TLB-flush IPI to answer.
  */
  lemma HardIsolationMissesExactlyWhen(s: State)
    requires Inv(s) && s.controller == ResetAck(0)
    ensures HardIsolationCanMiss(s) <==> SomeUnquiet(s)
  {
    hide Inv, Execute, InRound, AllStopped, QuietRound, Unquiet;
    assert WellFormed(s) by { InvParts(s); }
    if SomeUnquiet(s) {
      var k: nat :| k < |s.order| && Unquiet(s.cores[s.order[k]]);
      UnquietTargetIsMissed(s, k);
    } else if HardIsolationCanMiss(s) {
      var t :| Reaches(s, t) && WellFormed(t) && HardDone(t) && !AllStopped(t);
      var run :| InRound(s, run) && Execute(s, run) == t;
      StartsQuiet(s);
      QuietHardIsolationStopsAll(s, run);
    }
  }

  // ---------------------------------------------------------------- a machine on which both happen

  lemma DrainIsConfirmed(flag: nat, core: Core)
    ensures Step(Pair(ClearDrain, flag, FREEZE_ACK_DONE, false, core), TICK)
            == Pair(ConfirmDrain, flag, FREEZE_ACK_DONE, false, core)
    ensures Step(Pair(ConfirmDrain, flag, FREEZE_ACK_DONE, false, core), TICK)
            == Pair(ScanAck(0), flag, FREEZE_ACK_DONE, true, core)
  {
  }

  lemma ScanFindsTheAck(flag: nat, core: Core)
    ensures Step(Pair(ScanAck(0), flag, FREEZE_ACK_DONE, true, core), TICK)
            == Pair(ScanAck(1), flag, FREEZE_ACK_DONE, true, core)
    ensures Step(Pair(ScanAck(1), flag, FREEZE_ACK_DONE, true, core), TICK)
            == Pair(LoadDrain(true), flag, FREEZE_ACK_DONE, true, core)
  {
  }

  lemma AckAllIsPublished(flag: nat, core: Core)
    ensures Step(Pair(LoadDrain(true), flag, FREEZE_ACK_DONE, true, core), TICK)
            == Pair(PublishAckAll, flag, FREEZE_ACK_DONE, true, core)
    ensures Step(Pair(PublishAckAll, flag, FREEZE_ACK_DONE, true, core), TICK)
            == Pair(Reconstruct, HANDOFF_FREEZE_ACK_ALL, FREEZE_ACK_DONE, true, core)
  {
  }

  lemma FlushIsSent(flag: nat, core: Core)
    ensures Step(Pair(Reconstruct, flag, FREEZE_ACK_DONE, true, core), FlushTlb)
            == Pair(Reconstruct, flag, 0, true, core.(tlbPending := true))
  {
    hide Interrupt;
    var r := ClearAcks(Pair(Reconstruct, flag, FREEZE_ACK_DONE, true, core));
    assert r.acks == [r.acks[0], r.acks[1]];
    PairInterrupted(Reconstruct, flag, 0, true, core, false);
  }

  /** A core in the freeze loop cannot answer the flush; it takes the pending IPI along when it leaves. */
  lemma FlushStaysPending(core: Core)
    ensures Step(Pair(Reconstruct, HANDOFF_FREEZE_ACK_ALL, 0, true, core), TICK)
            == Pair(PublishActive, HANDOFF_FREEZE_ACK_ALL, 0, true, core)
    ensures Step(Pair(PublishActive, HANDOFF_FREEZE_ACK_ALL, 0, true, core), TICK)
            == Pair(PublishNormal, HANDOFF_B_ACTIVE, 0, true, core)
  {
  }

  lemma CoreLeaves(core: Core)
    requires core.pc == Spinning
    ensures Step(Pair(PublishNormal, HANDOFF_B_ACTIVE, 0, true, core), CoreStep(1))
            == Pair(PublishNormal, HANDOFF_B_ACTIVE, 0, true, core.(pc := Leaving))
  {
    hide SetCore;
    PairChanged(PublishNormal, HANDOFF_B_ACTIVE, 0, true, core, core.(pc := Leaving));
  }

  lemma NextRoundOpens(core: Core)
    ensures Step(Pair(PublishNormal, HANDOFF_B_ACTIVE, 0, true, core), TICK)
            == Pair(Idle, HANDOFF_NORMAL, 0, true, core)
    ensures Step(Pair(Idle, HANDOFF_NORMAL, 0, true, core), TICK) == Pair(PublishReq, HANDOFF_NORMAL, 0, true, core)
    ensures Step(Pair(PublishReq, HANDOFF_NORMAL, 0, true, core), TICK)
            == Pair(ResetAck(0), HANDOFF_FREEZE_REQ, 0, true, core)
  {
  }

  /** From boot, a round that is sound: FREEZE_ACK_ALL, the flush of the reconstruction, and B_ACTIVE. */
  lemma FirstRound(f: Fpu)
    ensures Leads(Fresh(f), Pair(PublishNormal, HANDOFF_B_ACTIVE, 0, true, Asleep(f).(tlbPending := true)))
  {
    hide Leads, Step, Pair;
    var s, core, waiting := Fresh(f), Asleep(f), Asleep(f).(tlbPending := true);
    var req, ack, all := HANDOFF_FREEZE_REQ, FREEZE_ACK_DONE, HANDOFF_FREEZE_ACK_ALL;
    FirstFreeze(f);
    DrainIsConfirmed(req, core);
    ScanFindsTheAck(req, core);
    AckAllIsPublished(req, core);
    LeadsOnThrough(s, Pair(ClearDrain, req, ack, false, core), TICK, TICK);
    LeadsOnThrough(s, Pair(ScanAck(0), req, ack, true, core), TICK, TICK);
    LeadsOnThrough(s, Pair(LoadDrain(true), req, ack, true, core), TICK, TICK);
    FlushIsSent(all, core);
    FlushStaysPending(waiting);
    LeadsOnThrough(s, Pair(Reconstruct, all, ack, true, core), FlushTlb, TICK);
    LeadsOn(s, Pair(PublishActive, all, 0, true, waiting), TICK);
  }

  /** The next round starts before the core does anything more. */
  lemma SecondRound(s: State, core: Core)
    requires WellFormed(s) && Leads(s, Pair(PublishNormal, HANDOFF_B_ACTIVE, 0, true, core))
    ensures Leads(s, Pair(ResetAck(0), HANDOFF_FREEZE_REQ, 0, true, core))
  {
    hide Leads, Step, Pair;
    NextRoundOpens(core);
    LeadsOnThrough(s, Pair(PublishNormal, HANDOFF_B_ACTIVE, 0, true, core), TICK, TICK);
    LeadsOn(s, Pair(PublishReq, HANDOFF_NORMAL, 0, true, core), TICK);
  }

  lemma LeavingCoreLies(core: Core)
    requires core.pc == Leaving && core.tlbPending && Inv(Pair(ResetAck(0), HANDOFF_FREEZE_REQ, 0, true, core))
    ensures var s := Pair(ResetAck(0), HANDOFF_FREEZE_REQ, 0, true, core);
            AckAllCanLie(s) && HardIsolationCanMiss(s)
  {
    hide AckAllCanLie, HardIsolationCanMiss, Inv;
    var s := Pair(ResetAck(0), HANDOFF_FREEZE_REQ, 0, true, core);
    assert Unquiet(s.cores[s.order[0]]);
    UnquietRoundLies(s, 0);
    UnquietTargetIsMissed(s, 0);
  }

  /**
    The second round of a freshly booted machine can lie, and hard isolation can miss its core: the
    core saw B_ACTIVE and is on its way out, with the flush pending, when FREEZE_REQ comes.
  */
  lemma SecondRoundLies() returns (run: seq<Action>)
    ensures Booted(Fresh(IDLE_FPU)) && forall c :: 0 <= c < 2 ==> !Fresh(IDLE_FPU).cores[c].tlbPending
    ensures var s := Execute(Fresh(IDLE_FPU), run);
            Inv(s) && s.controller == ResetAck(0) && AckAllCanLie(s) && HardIsolationCanMiss(s)
  {
    hide AckAllCanLie, HardIsolationCanMiss, Inv, Execute;
    var s, core := Fresh(IDLE_FPU), Asleep(IDLE_FPU).(pc := Leaving, tlbPending := true);
    LeavesIntoSecondRound(IDLE_FPU);
    run :| Execute(s, run) == Pair(ResetAck(0), HANDOFF_FREEZE_REQ, 0, true, core);
    FreshIsSound(IDLE_FPU);
    RunKeepsInv(s, run);
    LeavingCoreLies(core);
  }

  lemma LeavesIntoSecondRound(f: Fpu)
    ensures Leads(Fresh(f), Pair(ResetAck(0), HANDOFF_FREEZE_REQ, 0, true,
                                 Asleep(f).(pc := Leaving, tlbPending := true)))
  {
    hide Leads, Step, Pair;
    var waiting := Asleep(f).(tlbPending := true);
    FirstRound(f);
    CoreLeaves(waiting);
    LeadsOn(Fresh(f), Pair(PublishNormal, HANDOFF_B_ACTIVE, 0, true, waiting), CoreStep(1));
    SecondRound(Fresh(f), waiting.(pc := Leaving));
  }

  /**
    A core that does not poll the flag between B_ACTIVE and the next FREEZE_REQ stays in the freeze
    loop: the second round of a freshly booted machine can then not reach FREEZE_ACK_ALL, and every
    run of it that ends hard isolation has reset the core.
  */
  lemma SecondRoundSticks() returns (run: seq<Action>)
    ensures Booted(Fresh(IDLE_FPU))
    ensures var s := Execute(Fresh(IDLE_FPU), run);
            Inv(s) && s.controller == ResetAck(0) && StuckTarget(s, 0) && Frozen(s.cores[1]) && !AckAllPossible(s)
  {
    hide AckAllPossible, Inv, Execute;
    var s, core := Fresh(IDLE_FPU), Asleep(IDLE_FPU).(tlbPending := true);
    FirstRound(IDLE_FPU);
    SecondRound(s, core);
    run :| Execute(s, run) == Pair(ResetAck(0), HANDOFF_FREEZE_REQ, 0, true, core);
    FreshIsSound(IDLE_FPU);
    RunKeepsInv(s, run);
    AckAllPossibleExactlyWhen(Execute(s, run));
    assert !CanAck(Execute(s, run).cores[1]);
  }
}
