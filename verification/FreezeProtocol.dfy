/**
  The ExoPhoenix freeze handshake between Kernel B (the controller) and the cores of Kernel A,
  as a transition system: one `Step` is one atomic store, load, or interrupt delivery.  Broadcasts
  reach all targets in one step, and `FlushTlb` clears their acks in the same step; no theorem turns
  on that, since it happens outside the wait of a round, which clears the acks again.

  Cores are numbered by their slot.  The controller publishes FREEZE_REQ, clears every target's
  ack word, broadcasts the freeze IPI, scans the ack words one load at a time, and publishes
  FREEZE_ACK_ALL; on timeout it resets the cores that have not acked.  Rounds repeat, so freeze
  and TLB-flush IPIs of earlier rounds may still be pending when a new round starts.
*/
module FreezeProtocol {

  const HANDOFF_NORMAL: nat := 0
  const HANDOFF_FREEZE_REQ: nat := 1
  const HANDOFF_FREEZE_ACK_ALL: nat := 2
  const HANDOFF_B_ACTIVE: nat := 3

  const FREEZE_ACK_DONE: nat := 0xACED_0001
  const TLB_ACK_DONE: nat := 0xACED_0002

  /** The current thread's FPU state; `imageCurrent` says the saved image holds its latest registers. */
  datatype Fpu = Fpu(hasThread: bool, loaded: bool, ts: bool, hasArea: bool, imageCurrent: bool)

  /** No newer registers, or a loaded thread with a save area for them. */
  predicate Coherent(f: Fpu)
  {
    f.imageCurrent || (f.hasThread && f.loaded && !f.ts && f.hasArea)
  }

  /** The save of the freeze handler: it keeps the thread's registers exactly from a coherent state. */
  function SaveFpu(f: Fpu): (r: Fpu)
    ensures r.imageCurrent <==> Coherent(f)
    ensures r.hasThread == f.hasThread && r.hasArea == f.hasArea
    ensures f.hasThread ==> !r.loaded
    ensures r.ts <==> f.ts || (f.hasThread && f.loaded)
  {
    if !f.hasThread then f
    else if !f.loaded then f
    else if f.ts then f.(loaded := false)
    else f.(loaded := false, ts := true, imageCurrent := f.imageCurrent || f.hasArea)
  }

  datatype CorePc =
    | Running          // interrupts enabled
    | SavingFpu        // freeze handler, before the FPU save
    | StoringAck       // freeze handler, FPU saved
    | Spinning         // freeze handler, polling the handoff flag
    | Leaving          // freeze handler, before the end-of-interrupt
    | ReloadingCr3     // TLB handler
    | StoringTlbAck    // TLB handler, before the ack store
    | Halted           // after an INIT IPI

  /** `atEntry` records the FPU state with which the core last entered the freeze handler. */
  datatype Core = Core(pc: CorePc, freezePending: bool, tlbPending: bool, fpu: Fpu, atEntry: Fpu)

  datatype Outcome = Restored | GaveUp | FellThrough

  datatype ControllerPc =
    | Idle
    | PublishReq
    | ResetAck(next: nat)
    | Broadcast
    | ClearDrain
    | ConfirmDrain
    | ScanAck(next: nat)
    | LoadDrain(acksOk: bool)
    | CheckClock
    | PublishAckAll
    | Reconstruct
    | PublishActive
    | PublishNormal
    | CheckResistant(next: nat)
    | DeliverInit(next: nat)

  /**
    `order` is the order in which the controller visits the target slots.  `ackedSince` records
    the cores that stored an ack word since the controller last cleared it.
  */
  datatype State = State(
    order: seq<nat>, controller: ControllerPc, flag: nat, acks: seq<nat>, drainConfirmed: bool, cores: seq<Core>,
    ackedSince: set<nat>)

  datatype Action =
    | Controller(timeout: bool, outcome: Outcome)
    | RunUser(core: nat, fpu: Fpu)     // the core's thread uses, saves or reloads its FPU
    | CoreStep(core: nat)              // the next step of the handler the core is in
    | TakeFreeze(core: nat)
    | TakeTlb(core: nat)
    | FlushTlb                         // Kernel B clears the acks and broadcasts the TLB-flush IPI, in a
                                       // reconstruction or, more than its callers do, between rounds

  predicate Acked(ack: nat) { ack == FREEZE_ACK_DONE || ack == TLB_ACK_DONE }

  /** The order lists distinct slots, every one of them a core with an ack word. */
  ghost predicate WellFormed(s: State)
  {
    && |s.acks| == |s.cores|
    && (forall k :: 0 <= k < |s.order| ==> s.order[k] < |s.cores|)
    && (forall k, l :: 0 <= k < l < |s.order| ==> s.order[k] != s.order[l])
  }

  // ---------------------------------------------------------------- transitions

  function SetCore(s: State, c: nat, core: Core): State
    requires c < |s.cores|
  {
    s.(cores := s.cores[c := core])
  }

  function StoreAck(s: State, c: nat, v: nat): State
    requires c < |s.acks|
  {
    s.(acks := s.acks[c := v], ackedSince := s.ackedSince + {c})
  }

  function ClearAck(s: State, c: nat): State
    requires c < |s.acks|
  {
    s.(acks := s.acks[c := 0], ackedSince := s.ackedSince - {c})
  }

  function ClearAcks(s: State): State
  {
    s.(acks := seq(|s.acks|, c requires 0 <= c < |s.acks| => if c in s.order then 0 else s.acks[c]), ackedSince := {})
  }

  /** Every target receives an IPI; a second one of the same vector merges with a pending one. */
  function Interrupt(s: State, freeze: bool): State
  {
    s.(cores := seq(|s.cores|, c requires 0 <= c < |s.cores| =>
      if c !in s.order then s.cores[c]
      else if freeze then s.cores[c].(freezePending := true)
      else s.cores[c].(tlbPending := true)))
  }

  function StepController(s: State, timeout: bool, outcome: Outcome): (r: State)
    requires WellFormed(s)
    ensures WellFormed(r) && r.order == s.order && |r.cores| == |s.cores|
  {
    match s.controller
    case Idle => s.(controller := PublishReq)
    case PublishReq => s.(flag := HANDOFF_FREEZE_REQ, controller := ResetAck(0))
    case ResetAck(i) =>
      if i < |s.order| then ClearAck(s, s.order[i]).(controller := ResetAck(i + 1))
      else s.(controller := Broadcast)
    case Broadcast => Interrupt(s, true).(controller := ClearDrain)
    case ClearDrain => s.(drainConfirmed := false, controller := ConfirmDrain)
    case ConfirmDrain => s.(drainConfirmed := true, controller := ScanAck(0))
    case ScanAck(i) =>
      if i >= |s.order| then s.(controller := LoadDrain(true))
      else s.(controller := if Acked(s.acks[s.order[i]]) then ScanAck(i + 1) else LoadDrain(false))
    case LoadDrain(acksOk) => s.(controller := if acksOk && s.drainConfirmed then PublishAckAll else CheckClock)
    case CheckClock => s.(controller := if timeout then CheckResistant(0) else ScanAck(0))
    case PublishAckAll => s.(flag := HANDOFF_FREEZE_ACK_ALL, controller := Reconstruct)
    case Reconstruct =>
      s.(controller := match outcome
           case Restored => PublishActive
           case GaveUp => PublishNormal
           case FellThrough => Idle)
    case PublishActive => s.(flag := HANDOFF_B_ACTIVE, controller := PublishNormal)
    case PublishNormal => s.(flag := HANDOFF_NORMAL, controller := Idle)
    case CheckResistant(i) =>
      if i >= |s.order| then s.(controller := PublishNormal)
      else s.(controller := if Acked(s.acks[s.order[i]]) then CheckResistant(i + 1) else DeliverInit(i))
    case DeliverInit(i) =>
      if i >= |s.order| then s
      else SetCore(s, s.order[i], s.cores[s.order[i]].(pc := Halted, freezePending := false, tlbPending := false))
             .(controller := CheckResistant(i + 1))
  }

  function StepCore(s: State, c: nat): (r: State)
    requires WellFormed(s) && c < |s.cores|
    ensures WellFormed(r) && r.order == s.order && |r.cores| == |s.cores|
  {
    var core := s.cores[c];
    match core.pc
    case Running => s
    case SavingFpu => SetCore(s, c, core.(fpu := SaveFpu(core.fpu), pc := StoringAck))
    case StoringAck => StoreAck(SetCore(s, c, core.(pc := Spinning)), c, FREEZE_ACK_DONE)
    case Spinning =>
      if s.flag == HANDOFF_B_ACTIVE || s.flag == HANDOFF_NORMAL then SetCore(s, c, core.(pc := Leaving)) else s
    case Leaving => SetCore(s, c, core.(pc := Running))
    case ReloadingCr3 => SetCore(s, c, core.(pc := StoringTlbAck))
    case StoringTlbAck => StoreAck(SetCore(s, c, core.(pc := Running)), c, TLB_ACK_DONE)
    case Halted => s
  }

  /** An action that is not enabled changes nothing. */
  function Step(s: State, a: Action): (r: State)
    requires WellFormed(s)
    ensures WellFormed(r) && r.order == s.order && |r.cores| == |s.cores|
  {
    match a
    case Controller(timeout, outcome) => StepController(s, timeout, outcome)
    case RunUser(c, fpu) =>
      if IsTargetCore(s, c) && s.cores[c].pc == Running
      then SetCore(s, c, s.cores[c].(fpu := fpu)) else s
    case CoreStep(c) => if IsTargetCore(s, c) then StepCore(s, c) else s
    case TakeFreeze(c) =>
      if IsTargetCore(s, c) && s.cores[c].pc == Running && s.cores[c].freezePending
      then SetCore(s, c, s.cores[c].(pc := SavingFpu, freezePending := false, atEntry := s.cores[c].fpu)) else s
    case TakeTlb(c) =>
      if IsTargetCore(s, c) && s.cores[c].pc == Running && s.cores[c].tlbPending
      then SetCore(s, c, s.cores[c].(pc := ReloadingCr3, tlbPending := false)) else s
    case FlushTlb =>
      if s.controller.Idle? || s.controller.Reconstruct? then Interrupt(ClearAcks(s), false) else s
  }

  predicate IsTargetCore(s: State, c: nat) { c in s.order && c < |s.cores| }

  function Execute(s: State, run: seq<Action>): (r: State)
    requires WellFormed(s)
    ensures WellFormed(r) && r.order == s.order && |r.cores| == |s.cores|
  {
    if run == [] then s else Step(Execute(s, run[..|run| - 1]), run[|run| - 1])
  }

  // ---------------------------------------------------------------- what an ack means

  /** How many target slots this round's reset loop has cleared. */
  function ResetCount(s: State): nat
  {
    match s.controller
    case ResetAck(i) => i
    case Broadcast | ClearDrain | ConfirmDrain | ScanAck(_) | LoadDrain(_) | CheckClock | PublishAckAll => |s.order|
    case _ => 0
  }

  /** Hard isolation has dealt with every target and is about to release the flag. */
  predicate HardDone(s: State) { s.controller.PublishNormal? && s.flag == HANDOFF_FREEZE_REQ }

  /** How many target slots are cleared, counting the hard path as well. */
  function ClearedCount(s: State): nat
  {
    if s.controller.CheckResistant? || s.controller.DeliverInit? || HardDone(s) then |s.order| else ResetCount(s)
  }

  /** How many target slots hard isolation has dealt with. */
  function DealtCount(s: State): nat
  {
    if s.controller.CheckResistant? || s.controller.DeliverInit? then s.controller.next
    else if HardDone(s) then |s.order|
    else 0
  }

  /** The controller has published FREEZE_REQ and not yet decided the round. */
  predicate Waiting(c: ControllerPc)
  {
    c.ResetAck? || c.Broadcast? || c.ClearDrain? || c.ConfirmDrain? || c.ScanAck? || c.LoadDrain? || c.CheckClock?
    || c.PublishAckAll?
  }

  /** The controller has published FREEZE_REQ, and neither FREEZE_ACK_ALL nor the end of hard isolation. */
  predicate Isolating(c: ControllerPc) { Waiting(c) || c.CheckResistant? || c.DeliverInit? }

  /** Past its FPU save and inside the freeze loop. */
  predicate Frozen(core: Core) { core.pc == Spinning }

  /** On its way through the freeze handler the core has the FPU state it entered with, saved once. */
  predicate FpuTracked(core: Core)
  {
    && (core.pc == SavingFpu ==> core.fpu == core.atEntry)
    && (core.pc == StoringAck || core.pc == Spinning || core.pc == Leaving ==> core.fpu == SaveFpu(core.atEntry))
  }

  /** How many of the target slots the scan in progress has found acked. */
  function ScannedCount(s: State): nat
  {
    match s.controller
    case ScanAck(i) => i
    case LoadDrain(ok) => if ok then |s.order| else 0
    case PublishAckAll => |s.order|
    case _ => 0
  }

  ghost predicate Inv(s: State)
  {
    && WellFormed(s)
    && ResetCount(s) <= |s.order| && ScannedCount(s) <= |s.order| && DealtCount(s) <= |s.order|
    && (s.controller.DeliverInit? ==> s.controller.next < |s.order|)
    && (forall c :: 0 <= c < |s.cores| ==> FpuTracked(s.cores[c]))
    && (Isolating(s.controller) ==> s.flag == HANDOFF_FREEZE_REQ)
    && (s.controller.Reconstruct? || s.controller.PublishActive? ==> s.flag == HANDOFF_FREEZE_ACK_ALL)
    && (s.controller.PublishAckAll? ==> s.drainConfirmed)
    && (forall k :: 0 <= k < ClearedCount(s) && s.acks[s.order[k]] == FREEZE_ACK_DONE ==>
          Frozen(s.cores[s.order[k]]) || (!Waiting(s.controller) && s.cores[s.order[k]].pc == Halted))
    && (forall k :: 0 <= k < ClearedCount(s) && Acked(s.acks[s.order[k]]) ==> s.order[k] in s.ackedSince)
    && (forall k :: 0 <= k < ScannedCount(s) ==> s.order[k] in s.ackedSince)
    && (forall k :: 0 <= k < DealtCount(s) ==> s.cores[s.order[k]].pc == Halted || Acked(s.acks[s.order[k]]))
  }

  /** Kernel A is up: every target runs with interrupts enabled.  FPU states, pending IPIs and acks are arbitrary. */
  ghost predicate Booted(s: State)
  {
    WellFormed(s) && s.controller.Idle? && forall c :: 0 <= c < |s.cores| ==> s.cores[c].pc == Running
  }

  /** A core that is neither frozen nor halted vouches for nothing, so it may move freely. */
  lemma CoreChangeKeepsInv(s: State, c: nat, core: Core)
    requires Inv(s) && c < |s.cores| && s.cores[c].pc != Spinning && s.cores[c].pc != Halted && FpuTracked(core)
    ensures Inv(SetCore(s, c, core))
  {
  }

  lemma InterruptKeepsInv(s: State, freeze: bool)
    requires Inv(s)
    ensures Inv(Interrupt(s, freeze))
  {
  }

  lemma ResetKeepsInv(s: State)
    requires Inv(s) && s.controller.ResetAck? && s.controller.next < |s.order|
    ensures Inv(ClearAck(s, s.order[s.controller.next]).(controller := ResetAck(s.controller.next + 1)))
  {
  }

  lemma CheckKeepsInv(s: State, timeout: bool, outcome: Outcome)
    requires Inv(s) && s.controller.CheckResistant?
    ensures Inv(StepController(s, timeout, outcome))
  {
    hide FpuTracked, Frozen;
  }

  lemma DeliverKeepsInv(s: State)
    requires Inv(s) && s.controller.DeliverInit?
    ensures s.controller.next < |s.order|
    ensures var c := s.order[s.controller.next];
            Inv(SetCore(s, c, s.cores[c].(pc := Halted, freezePending := false, tlbPending := false))
                  .(controller := CheckResistant(s.controller.next + 1)))
  {
  }

  lemma ScanKeepsInv(s: State)
    requires Inv(s) && s.controller.ScanAck?
    ensures Inv(StepController(s, false, GaveUp))
  {
    hide FpuTracked, Frozen;
  }

  lemma MoveKeepsInv(s: State, controller: ControllerPc, flag: nat, drainConfirmed: bool)
    requires Inv(s)
    requires Isolating(controller) ==> flag == HANDOFF_FREEZE_REQ
    requires controller.Reconstruct? || controller.PublishActive? ==> flag == HANDOFF_FREEZE_ACK_ALL
    requires controller.PublishAckAll? ==> drainConfirmed
    ensures var r := s.(controller := controller, flag := flag, drainConfirmed := drainConfirmed);
            ((ResetCount(r) == 0 || ResetCount(r) == ResetCount(s)) && ClearedCount(r) <= ClearedCount(s)
             && (ScannedCount(r) == 0 || ScannedCount(r) == ScannedCount(s))
             && DealtCount(r) == 0 && !r.controller.DeliverInit?)
            ==> Inv(r)
  {
  }

  lemma PlainMoveKeepsInv(s: State, timeout: bool, outcome: Outcome)
    requires Inv(s)
    requires s.controller.Idle? || s.controller.PublishReq? || s.controller.ResetAck? || s.controller.ClearDrain?
             || s.controller.ConfirmDrain? || s.controller.LoadDrain? || s.controller.CheckClock?
    requires s.controller.ResetAck? ==> s.controller.next >= |s.order|
    ensures Inv(StepController(s, timeout, outcome))
  {
    var r := StepController(s, timeout, outcome);
    MoveKeepsInv(s, r.controller, r.flag, r.drainConfirmed);
  }

  lemma DecidedMoveKeepsInv(s: State, timeout: bool, outcome: Outcome)
    requires Inv(s)
    requires s.controller.PublishAckAll? || s.controller.Reconstruct? || s.controller.PublishActive?
             || s.controller.PublishNormal?
    ensures Inv(StepController(s, timeout, outcome))
  {
    var r := StepController(s, timeout, outcome);
    MoveKeepsInv(s, r.controller, r.flag, r.drainConfirmed);
  }

  lemma BroadcastKeepsInv(s: State)
    requires Inv(s) && s.controller.Broadcast?
    ensures Inv(Interrupt(s, true).(controller := ClearDrain))
  {
    InterruptKeepsInv(s, true);
    MoveKeepsInv(Interrupt(s, true), ClearDrain, s.flag, s.drainConfirmed);
  }

  lemma ControllerKeepsInv(s: State, timeout: bool, outcome: Outcome)
    requires Inv(s)
    ensures Inv(StepController(s, timeout, outcome))
  {
    hide Inv;
    if s.controller.ResetAck? && s.controller.next < |s.order| { ResetKeepsInv(s); }
    else if s.controller.Broadcast? { BroadcastKeepsInv(s); }
    else if s.controller.CheckResistant? { CheckKeepsInv(s, timeout, outcome); }
    else if s.controller.DeliverInit? { DeliverKeepsInv(s); }
    else if s.controller.ScanAck? { ScanKeepsInv(s); }
    else if s.controller.PublishAckAll? || s.controller.Reconstruct? || s.controller.PublishActive?
            || s.controller.PublishNormal? { DecidedMoveKeepsInv(s, timeout, outcome); }
    else { PlainMoveKeepsInv(s, timeout, outcome); }
  }

  /** Storing an ack from inside a handler; a freeze ack comes with entering the freeze loop. */
  lemma StoreAckKeepsInv(s: State, c: nat, core: Core, v: nat)
    requires Inv(s) && c < |s.cores| && s.cores[c].pc != Halted && FpuTracked(core)
    requires v == TLB_ACK_DONE || (v == FREEZE_ACK_DONE && Frozen(core))
    ensures Inv(StoreAck(SetCore(s, c, core), c, v))
  {
    hide FpuTracked;
  }

  lemma LeaveKeepsInv(s: State, c: nat)
    requires Inv(s) && c < |s.cores| && s.cores[c].pc == Spinning
    requires s.flag == HANDOFF_B_ACTIVE || s.flag == HANDOFF_NORMAL
    ensures Inv(SetCore(s, c, s.cores[c].(pc := Leaving)))
  {
  }

  lemma CoreKeepsInv(s: State, c: nat)
    requires Inv(s) && IsTargetCore(s, c)
    ensures Inv(StepCore(s, c))
  {
    var core := s.cores[c];
    assert FpuTracked(core);
    if core.pc == StoringAck { StoreAckKeepsInv(s, c, core.(pc := Spinning), FREEZE_ACK_DONE); }
    else if core.pc == StoringTlbAck { StoreAckKeepsInv(s, c, core.(pc := Running), TLB_ACK_DONE); }
    else if core.pc == Spinning {
      if s.flag == HANDOFF_B_ACTIVE || s.flag == HANDOFF_NORMAL { LeaveKeepsInv(s, c); }
    }
    else if core.pc != Running && core.pc != Halted { CoreChangeKeepsInv(s, c, StepCore(s, c).cores[c]); }
  }

  lemma FlushKeepsInv(s: State)
    requires Inv(s) && (s.controller.Idle? || s.controller.Reconstruct?)
    ensures Inv(Step(s, FlushTlb))
  {
  }

  lemma StepKeepsInv(s: State, a: Action)
    requires Inv(s)
    ensures Inv(Step(s, a))
  {
    if a.Controller? { ControllerKeepsInv(s, a.timeout, a.outcome); }
    else if a.FlushTlb? { if s.controller.Idle? || s.controller.Reconstruct? { FlushKeepsInv(s); } }
    else if IsTargetCore(s, a.core) {
      if a.CoreStep? { CoreKeepsInv(s, a.core); }
      else if s.cores[a.core].pc == Running { CoreChangeKeepsInv(s, a.core, Step(s, a).cores[a.core]); }
    }
  }

  lemma {:induction false} RunKeepsInv(s: State, run: seq<Action>)
    requires Inv(s)
    ensures Inv(Execute(s, run))
  {
    if run != [] {
      RunKeepsInv(s, run[..|run| - 1]);
      StepKeepsInv(Execute(s, run[..|run| - 1]), run[|run| - 1]);
    }
  }

  // ---------------------------------------------------------------- theorems over every run

  /**
    Because the flag is published before the acks are cleared, a cleared slot that reads
    FREEZE_ACK_DONE belongs to a core past its FPU save and inside the freeze loop.  The registers
    of its thread are in memory exactly if the core entered the handler with a coherent FPU state.
  */
  lemma AckMeansFrozen(s0: State, run: seq<Action>, k: nat)
    requires Booted(s0)
    requires var s := Execute(s0, run);
             k < ResetCount(s) && k < |s.order| && s.acks[s.order[k]] == FREEZE_ACK_DONE
    ensures var s := Execute(s0, run);
            s.flag == HANDOFF_FREEZE_REQ && Frozen(s.cores[s.order[k]])
            && (s.cores[s.order[k]].fpu.imageCurrent <==> Coherent(s.cores[s.order[k]].atEntry))
  {
    RunKeepsInv(s0, run);
  }

  /** The same for every frozen core of every run, acked or not: nothing is lost but what the handler found unsaved. */
  lemma FrozenImage(s0: State, run: seq<Action>, c: nat)
    requires Booted(s0) && c < |s0.cores| && Frozen(Execute(s0, run).cores[c])
    ensures var core := Execute(s0, run).cores[c];
            core.fpu == SaveFpu(core.atEntry) && (core.fpu.imageCurrent <==> Coherent(core.atEntry))
  {
    RunKeepsInv(s0, run);
    assert FpuTracked(Execute(s0, run).cores[c]);
  }

  /**
    `atEntry` is what its name says: it changes only when the core takes a freeze IPI, to the FPU
    state of that moment.
  */
  lemma EntryIsRecorded(s: State, a: Action, c: nat)
    requires WellFormed(s) && c < |s.cores|
    ensures Step(s, a).cores[c].atEntry ==
            if a == TakeFreeze(c) && IsTargetCore(s, c) && s.cores[c].pc == Running && s.cores[c].freezePending
            then s.cores[c].fpu else s.cores[c].atEntry
  {
    hide SaveFpu, StepController;
    if a.Controller? { ControllerKeepsEntry(s, a.timeout, a.outcome, c); }
  }

  lemma ControllerKeepsEntry(s: State, timeout: bool, outcome: Outcome, c: nat)
    requires WellFormed(s) && c < |s.cores|
    ensures StepController(s, timeout, outcome).cores[c].atEntry == s.cores[c].atEntry
  {
  }

  /** A core stays in the freeze loop until the flag is released or the core is reset. */
  lemma FreezeHolds(s: State, a: Action, c: nat)
    requires WellFormed(s) && IsTargetCore(s, c) && Frozen(s.cores[c])
    requires s.flag == HANDOFF_FREEZE_REQ || s.flag == HANDOFF_FREEZE_ACK_ALL
    requires !s.controller.DeliverInit?
    ensures Frozen(Step(s, a).cores[c])
  {
  }

  /**
    In every state before its last action the run has the flag at FREEZE_REQ or FREEZE_ACK_ALL, and no
    INIT is sent.
  */
  ghost predicate HeldAlong(s: State, run: seq<Action>)
    requires WellFormed(s)
  {
    run != [] ==>
      HeldAlong(s, run[..|run| - 1])
      && var t := Execute(s, run[..|run| - 1]);
      (t.flag == HANDOFF_FREEZE_REQ || t.flag == HANDOFF_FREEZE_ACK_ALL) && !t.controller.DeliverInit?
  }

  /** So a frozen core is frozen in every state of such a run, however long. */
  lemma {:induction false} FrozenAlong(s: State, run: seq<Action>, c: nat)
    requires WellFormed(s) && IsTargetCore(s, c) && Frozen(s.cores[c]) && HeldAlong(s, run)
    ensures Frozen(Execute(s, run).cores[c])
  {
    if run != [] {
      FrozenAlong(s, run[..|run| - 1], c);
      FreezeHolds(Execute(s, run[..|run| - 1]), run[|run| - 1], c);
    }
  }

  // ---------------------------------------------------------------- the release

  /** The flag lets frozen cores go. */
  predicate LetsGo(flag: nat) { flag == HANDOFF_B_ACTIVE || flag == HANDOFF_NORMAL }

  /** In every state before its last action the run has the flag at B_ACTIVE or NORMAL, and no INIT is sent. */
  ghost predicate ReleasedAlong(s: State, run: seq<Action>)
    requires WellFormed(s)
  {
    run != [] ==>
      ReleasedAlong(s, run[..|run| - 1])
      && var t := Execute(s, run[..|run| - 1]);
      LetsGo(t.flag) && !t.controller.DeliverInit?
  }

  /** Only a step of its own takes a core out of the freeze loop. */
  lemma FrozenUntilItSteps(s: State, a: Action, c: nat)
    requires WellFormed(s) && IsTargetCore(s, c) && Frozen(s.cores[c]) && !s.controller.DeliverInit?
    ensures Frozen(Step(s, a).cores[c]) || a == CoreStep(c)
  {
  }

  lemma {:induction false} FrozenWhileIdle(s: State, run: seq<Action>, c: nat)
    requires WellFormed(s) && IsTargetCore(s, c) && Frozen(s.cores[c]) && ReleasedAlong(s, run) && CoreStep(c) !in run
    ensures Frozen(Execute(s, run).cores[c])
  {
    if run != [] {
      assert CoreStep(c) !in run[..|run| - 1] && run[|run| - 1] in run;
      FrozenWhileIdle(s, run[..|run| - 1], c);
      FrozenUntilItSteps(Execute(s, run[..|run| - 1]), run[|run| - 1], c);
    }
  }

  /** The first time a frozen core polls the flag while it is released, the core leaves the loop. */
  lemma LeavesAtFirstPoll(s: State, run: seq<Action>, c: nat)
    requires WellFormed(s) && IsTargetCore(s, c) && Frozen(s.cores[c])
    requires run != [] && ReleasedAlong(s, run) && CoreStep(c) !in run[..|run| - 1] && run[|run| - 1] == CoreStep(c)
    ensures Execute(s, run).cores[c].pc == Leaving
  {
    FrozenWhileIdle(s, run[..|run| - 1], c);
  }

  lemma {:induction false} ExecuteConcat(s: State, a: seq<Action>, b: seq<Action>)
    requires WellFormed(s)
    ensures Execute(s, a + b) == Execute(Execute(s, a), b)
  {
    hide Step;
    if b == [] {
      assert a + b == a;
    } else {
      assert (a + b)[..|a + b| - 1] == a + b[..|b| - 1];
      ExecuteConcat(s, a, b[..|b| - 1]);
    }
  }

  /** How many steps a core needs to get back to its thread. */
  function StepsOut(pc: CorePc): nat
  {
    match pc
    case SavingFpu => 4
    case StoringAck => 3
    case Spinning | ReloadingCr3 => 2
    case Leaving | StoringTlbAck => 1
    case Running | Halted => 0
  }

  /** Only core c and its ack word differ. */
  ghost predicate OnlyCoreMoved(s: State, r: State, c: nat)
  {
    && WellFormed(s) && WellFormed(r) && |r.cores| == |s.cores|
    && r.order == s.order && r.controller == s.controller && r.flag == s.flag
    && forall d :: 0 <= d < |s.cores| && d != c ==> r.cores[d] == s.cores[d]
  }

  lemma OneStepOut(s: State, c: nat)
    requires WellFormed(s) && IsTargetCore(s, c) && LetsGo(s.flag) && StepsOut(s.cores[c].pc) > 0
    ensures var r := Step(s, CoreStep(c));
            OnlyCoreMoved(s, r, c) && StepsOut(r.cores[c].pc) < StepsOut(s.cores[c].pc) && r.cores[c].pc != Halted
  {
  }

  lemma {:induction false} CoreGetsOut(s: State, c: nat) returns (run: seq<Action>)
    requires WellFormed(s) && IsTargetCore(s, c) && LetsGo(s.flag) && s.cores[c].pc != Halted
    ensures (forall a :: a in run ==> a == CoreStep(c)) && OnlyCoreMoved(s, Execute(s, run), c)
    ensures Execute(s, run).cores[c].pc == Running
    decreases StepsOut(s.cores[c].pc)
  {
    hide Step, Execute;
    if s.cores[c].pc == Running {
      run := [];
      ExecuteFew(s, CoreStep(c));
    } else {
      OneStepOut(s, c);
      var next := Step(s, CoreStep(c));
      var rest := CoreGetsOut(next, c);
      ExecuteConcat(s, [CoreStep(c)], rest);
      ExecuteFew(s, CoreStep(c));
      MovedTwice(s, next, Execute(next, rest), c);
      run := [CoreStep(c)] + rest;
    }
  }

  lemma MovedTwice(s: State, r: State, u: State, c: nat)
    requires OnlyCoreMoved(s, r, c) && OnlyCoreMoved(r, u, c)
    ensures OnlyCoreMoved(s, u, c)
  {
  }

  lemma ExecuteFew(s: State, a: Action)
    requires WellFormed(s)
    ensures Execute(s, []) == s && Execute(s, [a]) == Step(s, a)
    ensures Execute(s, [a, a]) == Step(Step(s, a), a)
    ensures Execute(s, [a, a, a]) == Step(Step(Step(s, a), a), a)
  {
    hide Step;
    assert [a][..0] == [] && [a, a][..1] == [a] && [a, a, a][..2] == [a, a];
  }

  /** Targets before k are back with their threads, or were halted all along; the other cores are untouched. */
  ghost predicate OutUpTo(s: State, r: State, k: nat)
    requires WellFormed(s)
  {
    && WellFormed(r) && |r.cores| == |s.cores|
    && r.order == s.order && r.controller == s.controller && r.flag == s.flag && k <= |s.order|
    && (forall m :: 0 <= m < k ==>
          r.cores[s.order[m]].pc == if s.cores[s.order[m]].pc == Halted then Halted else Running)
    && (forall m :: k <= m < |s.order| ==> r.cores[s.order[m]] == s.cores[s.order[m]])
  }

  lemma OneMoreOut(s: State, r: State, u: State, k: nat)
    requires WellFormed(s) && OutUpTo(s, r, k) && k < |s.order| && OnlyCoreMoved(r, u, s.order[k])
    requires u.cores[s.order[k]].pc == if s.cores[s.order[k]].pc == Halted then Halted else Running
    ensures OutUpTo(s, u, k + 1)
  {
  }

  lemma NoneOut(s: State)
    requires WellFormed(s)
    ensures Execute(s, []) == s && OutUpTo(s, s, 0)
  {
  }

  lemma NextTarget(s: State, r: State, k: nat)
    requires WellFormed(s) && OutUpTo(s, r, k) && k < |s.order|
    ensures WellFormed(r) && IsTargetCore(r, s.order[k]) && r.flag == s.flag
    ensures r.cores[s.order[k]] == s.cores[s.order[k]] && OnlyCoreMoved(r, r, s.order[k])
  {
  }

  lemma {:induction false} TargetsGetOut(s: State, k: nat) returns (run: seq<Action>)
    requires WellFormed(s) && LetsGo(s.flag) && k <= |s.order|
    ensures (forall a :: a in run ==> a.CoreStep?) && OutUpTo(s, Execute(s, run), k)
  {
    hide Step, Execute, OutUpTo, OnlyCoreMoved;
    if k == 0 {
      run := [];
      NoneOut(s);
    } else {
      run := TargetsGetOut(s, k - 1);
      var r, c := Execute(s, run), s.order[k - 1];
      NextTarget(s, r, k - 1);
      var more := [];
      if s.cores[c].pc == Halted {
        ExecuteFew(r, CoreStep(c));
      } else {
        more := CoreGetsOut(r, c);
      }
      ExecuteConcat(s, run, more);
      OneMoreOut(s, r, Execute(r, more), k - 1);
      run := run + more;
    }
  }

  /** Every target that was not reset is back with its thread. */
  ghost predicate AllReleased(s: State, r: State)
    requires WellFormed(s)
  {
    OutUpTo(s, r, |s.order|)
  }

  /** While the flag is released, some steps of the cores alone bring every target back that was not reset. */
  lemma EveryoneGetsOut(s: State) returns (run: seq<Action>)
    requires WellFormed(s) && LetsGo(s.flag)
    ensures (forall a :: a in run ==> a.CoreStep?) && AllReleased(s, Execute(s, run))
  {
    run := TargetsGetOut(s, |s.order|);
  }

  /** The round is decided: reconstruction restored or gave up, or hard isolation is done. */
  predicate Decided(s: State, outcome: Outcome)
  {
    (s.controller.Reconstruct? && !outcome.FellThrough?) || HardDone(s)
  }

  lemma FlagIsReleased(s: State, outcome: Outcome) returns (run: seq<Action>)
    requires WellFormed(s) && Decided(s, outcome)
    ensures (forall a :: a in run ==> a == Controller(false, outcome))
    ensures Execute(s, run) == s.(controller := Idle, flag := HANDOFF_NORMAL)
  {
    hide Execute;
    var a := Controller(false, outcome);
    ExecuteFew(s, a);
    run := if HardDone(s) then [a] else if outcome.GaveUp? then [a, a] else [a, a, a];
  }

  /** A reconstruction that ends without a verdict leaves the flag, and with it every frozen core, as it is. */
  lemma FallThroughReleasesNoOne(s: State)
    requires Inv(s) && s.controller.Reconstruct?
    ensures var r := Step(s, Controller(false, FellThrough));
            r.controller == Idle && r.flag == HANDOFF_FREEZE_ACK_ALL && r.cores == s.cores && r.acks == s.acks
  {
  }

  /** However a round is decided, its targets get back to their threads, except those that were reset. */
  lemma RoundEndsReleased(s: State, outcome: Outcome) returns (run: seq<Action>)
    requires WellFormed(s) && Decided(s, outcome)
    ensures (forall a :: a in run ==> a == Controller(false, outcome) || a.CoreStep?)
    ensures var r := Execute(s, run);
            r.controller == Idle && r.flag == HANDOFF_NORMAL
            && AllReleased(s.(controller := Idle, flag := HANDOFF_NORMAL), r)
  {
    hide Step;
    run := FlagIsReleased(s, outcome);
    var t := Execute(s, run);
    var more := EveryoneGetsOut(t);
    ExecuteConcat(s, run, more);
    run := run + more;
  }

  /** FREEZE_ACK_ALL is published only once the drain is confirmed and every target acked since its reset. */
  lemma AckAllMeansAllAcked(s0: State, run: seq<Action>)
    requires Booted(s0) && Execute(s0, run).controller.PublishAckAll?
    ensures var s := Execute(s0, run);
            s.flag == HANDOFF_FREEZE_REQ && s.drainConfirmed && forall c :: c in s.order ==> c in s.ackedSince
  {
    RunKeepsInv(s0, run);
    var s := Execute(s0, run);
    forall c | c in s.order ensures c in s.ackedSince {
      var k :| 0 <= k < |s.order| && s.order[k] == c;
    }
  }

  /**
    When hard isolation is about to release the flag, every target was halted, is frozen, or
    answered a TLB flush since its ack word was cleared.
  */
  lemma HardIsolationCoversTargets(s0: State, run: seq<Action>)
    requires Booted(s0) && HardDone(Execute(s0, run))
    ensures var s := Execute(s0, run);
            forall c :: c in s.order ==>
              s.cores[c].pc == Halted || Frozen(s.cores[c]) || (s.acks[c] == TLB_ACK_DONE && c in s.ackedSince)
  {
    RunKeepsInv(s0, run);
    var s := Execute(s0, run);
    forall c | c in s.order
      ensures s.cores[c].pc == Halted || Frozen(s.cores[c]) || (s.acks[c] == TLB_ACK_DONE && c in s.ackedSince)
    {
      var k :| 0 <= k < |s.order| && s.order[k] == c;
    }
  }

  // ---------------------------------------------------------------- a machine of two cores

  const TICK: Action := Controller(false, Restored)

  const IDLE_FPU: Fpu := Fpu(false, false, true, false, true)

  /** A core running with this FPU state and no IPI pending. */
  function Awake(f: Fpu): Core { Core(Running, false, false, f, f) }

  /** A core that entered the freeze loop with this FPU state. */
  function Asleep(f: Fpu): Core { Core(Spinning, false, false, SaveFpu(f), f) }

  /** The controller's own core, slot 0, and one target, slot 1. */
  function Pair(controller: ControllerPc, flag: nat, ack: nat, drain: bool, core: Core): (s: State)
    ensures WellFormed(s)
  {
    State([1], controller, flag, [0, ack], drain, [Awake(IDLE_FPU), core], if Acked(ack) then {1} else {})
  }

  /** Freshly booted: no round was ever started and no IPI was ever sent. */
  function Fresh(f: Fpu): State { Pair(Idle, HANDOFF_NORMAL, 0, false, Awake(f)) }

  lemma FreshIsSound(f: Fpu)
    ensures Booted(Fresh(f)) && Inv(Fresh(f))
  {
  }

  /** Some run leads from s to t. */
  ghost predicate Leads(s: State, t: State)
    requires WellFormed(s)
  {
    exists run :: Execute(s, run) == t
  }

  lemma LeadsNowhere(s: State)
    requires WellFormed(s)
    ensures Leads(s, s)
  {
    assert Execute(s, []) == s;
  }

  lemma LeadsOn(s: State, t: State, a: Action)
    requires WellFormed(s) && WellFormed(t) && Leads(s, t)
    ensures Leads(s, Step(t, a))
  {
    var run :| Execute(s, run) == t;
    assert (run + [a])[..|run|] == run;
    assert Execute(s, run + [a]) == Step(t, a);
  }

  lemma LeadsOnThrough(s: State, t: State, a: Action, b: Action)
    requires WellFormed(s) && WellFormed(t) && Leads(s, t)
    ensures Leads(s, Step(Step(t, a), b))
  {
    hide Leads, Step;
    LeadsOn(s, t, a);
    LeadsOn(s, Step(t, a), b);
  }

  lemma PairInterrupted(controller: ControllerPc, flag: nat, ack: nat, drain: bool, core: Core, freeze: bool)
    ensures Interrupt(Pair(controller, flag, ack, drain, core), freeze)
            == Pair(controller, flag, ack, drain,
                    if freeze then core.(freezePending := true) else core.(tlbPending := true))
  {
    var r := Interrupt(Pair(controller, flag, ack, drain, core), freeze);
    assert r.cores == [r.cores[0], r.cores[1]];
  }

  lemma PairChanged(controller: ControllerPc, flag: nat, ack: nat, drain: bool, core: Core, core': Core)
    ensures SetCore(Pair(controller, flag, ack, drain, core), 1, core') == Pair(controller, flag, ack, drain, core')
  {
    assert [Awake(IDLE_FPU), core][1 := core'] == [Awake(IDLE_FPU), core'];
  }

  lemma RoundOpens(flag: nat, drain: bool, core: Core)
    ensures Step(Pair(Idle, flag, 0, drain, core), TICK) == Pair(PublishReq, flag, 0, drain, core)
    ensures Step(Pair(PublishReq, flag, 0, drain, core), TICK)
            == Pair(ResetAck(0), HANDOFF_FREEZE_REQ, 0, drain, core)
  {
  }

  lemma AckIsCleared(flag: nat, drain: bool, core: Core)
    ensures Step(Pair(ResetAck(0), flag, 0, drain, core), TICK) == Pair(ResetAck(1), flag, 0, drain, core)
    ensures Step(Pair(ResetAck(1), flag, 0, drain, core), TICK) == Pair(Broadcast, flag, 0, drain, core)
  {
    assert [0, 0][1 := 0] == [0, 0];
  }

  lemma FreezeIsSent(flag: nat, drain: bool, core: Core)
    ensures Step(Pair(Broadcast, flag, 0, drain, core), TICK)
            == Pair(ClearDrain, flag, 0, drain, core.(freezePending := true))
  {
    hide Interrupt;
    PairInterrupted(Broadcast, flag, 0, drain, core, true);
  }

  lemma CoreTakesFreeze(controller: ControllerPc, flag: nat, drain: bool, f: Fpu)
    ensures Step(Pair(controller, flag, 0, drain, Awake(f).(freezePending := true)), TakeFreeze(1))
            == Pair(controller, flag, 0, drain, Awake(f).(pc := SavingFpu))
  {
    hide SetCore;
    PairChanged(controller, flag, 0, drain, Awake(f).(freezePending := true), Awake(f).(pc := SavingFpu));
  }

  lemma CoreSaves(controller: ControllerPc, flag: nat, drain: bool, f: Fpu)
    ensures Step(Pair(controller, flag, 0, drain, Awake(f).(pc := SavingFpu)), CoreStep(1))
            == Pair(controller, flag, 0, drain, Awake(f).(pc := StoringAck, fpu := SaveFpu(f)))
  {
    hide SaveFpu, SetCore;
    PairChanged(controller, flag, 0, drain, Awake(f).(pc := SavingFpu),
                Awake(f).(pc := StoringAck, fpu := SaveFpu(f)));
  }

  lemma CoreAcks(controller: ControllerPc, flag: nat, drain: bool, f: Fpu)
    ensures Step(Pair(controller, flag, 0, drain, Awake(f).(pc := StoringAck, fpu := SaveFpu(f))), CoreStep(1))
            == Pair(controller, flag, FREEZE_ACK_DONE, drain, Asleep(f))
  {
    hide SaveFpu, SetCore;
    PairChanged(controller, flag, 0, drain, Awake(f).(pc := StoringAck, fpu := SaveFpu(f)), Asleep(f));
    assert [0, 0][1 := FREEZE_ACK_DONE] == [0, FREEZE_ACK_DONE];
  }

  /** From boot, a round freezes the core: it acks and is in the freeze loop. */
  lemma FirstFreeze(f: Fpu)
    ensures Leads(Fresh(f), Pair(ClearDrain, HANDOFF_FREEZE_REQ, FREEZE_ACK_DONE, false, Asleep(f)))
  {
    hide Leads, Step, Pair, Asleep;
    var s, req, core := Fresh(f), HANDOFF_FREEZE_REQ, Awake(f);
    LeadsNowhere(s);
    RoundOpens(HANDOFF_NORMAL, false, core);
    AckIsCleared(req, false, core);
    FreezeIsSent(req, false, core);
    CoreTakesFreeze(ClearDrain, req, false, f);
    CoreSaves(ClearDrain, req, false, f);
    CoreAcks(ClearDrain, req, false, f);
    LeadsOnThrough(s, s, TICK, TICK);
    LeadsOnThrough(s, Pair(ResetAck(0), req, 0, false, core), TICK, TICK);
    LeadsOnThrough(s, Pair(Broadcast, req, 0, false, core), TICK, TakeFreeze(1));
    LeadsOnThrough(s, Pair(ClearDrain, req, 0, false, core.(pc := SavingFpu)), CoreStep(1), CoreStep(1));
  }

  /** A loaded thread whose save area could not be allocated: its registers exist nowhere else. */
  const NO_AREA: Fpu := Fpu(true, true, false, false, false)

  /** From boot, a core that acks and is frozen while the registers of its thread are lost. */
  lemma MissingAreaLosesRegisters() returns (run: seq<Action>)
    ensures Booted(Fresh(NO_AREA)) && !Fresh(NO_AREA).cores[1].freezePending
    ensures var s := Execute(Fresh(NO_AREA), run);
            ResetCount(s) == |s.order| && s.acks[1] == FREEZE_ACK_DONE && Frozen(s.cores[1])
            && !s.cores[1].fpu.imageCurrent
  {
    FirstFreeze(NO_AREA);
    var t := Pair(ClearDrain, HANDOFF_FREEZE_REQ, FREEZE_ACK_DONE, false, Asleep(NO_AREA));
    run :| Execute(Fresh(NO_AREA), run) == t;
  }
}
