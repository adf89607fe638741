/**
  The kernel -> device_server notification queue: a bounded ring with one sequence number per
  slot, advanced by compare-and-swap on `head` and `tail`, and an unsynchronised payload cell.

  The queue is a transition system.  Each thread has a program counter, and one `Step` performs
  one atomic load, compare-and-swap, store, or payload access of that thread.  Counters are the
  source's `u32`, so every addition goes through `Wrap32`; the theorems hold for runs whose
  `head` stays at or below `NO_WRAP_LIMIT`.
*/
module EventQueue {
  import opened Words
  import opened Wrappers

  const CAPACITY: nat := 256
  const NO_WRAP_LIMIT: nat := U32_SIZE - CAPACITY

  datatype EventKind = DriverStall | UnhandledIrq | IrqBlacklisted | IommuFaultKill | IommuLeak

  datatype Event = Event(timestampMs: nat, kind: EventKind, irq: nat, pid: nat, value0: nat, value1: nat)

  const ZEROED: Event := Event(0, DriverStall, 0, 0, 0, 0)

  datatype Slot = Slot(seqNo: nat, event: Event)

  datatype DropReason = NotInitialized | Full(pos: nat)

  /** The next atomic action of a thread. */
  datatype Pc =
    | Idle
    | PushCheckInit(event: Event)
    | PushLoadHead(event: Event)
    | PushLoadSeq(event: Event, pos: nat)
    | PushCas(event: Event, pos: nat)
    | PushWrite(event: Event, pos: nat)
    | PushPublish(pos: nat)
    | PushDrop(reason: DropReason)
    | PopLoadTail
    | PopLoadSeq(pos: nat)
    | PopCas(pos: nat)
    | PopRead(pos: nat)
    | PopRelease(pos: nat, event: Event)

  /** The next store of the one-off `init` routine. */
  datatype InitPc = StoreHead | StoreTail | StoreDropped | StoreSeq(next: nat) | SetInitialized | InitDone

  /**
    What has happened so far.  Ticket t is the t-th winning compare-and-swap on a counter;
    `pushed[t]` is the argument of the push that won head ticket t, `pushOwner` and `popOwner`
    are the winning threads, and `returned[t]` is what the popper of tail ticket t handed back.
    `log` is what an observer of the calls and their answers writes down.
  */
  datatype History = History(
    pushed: seq<Event>, pushOwner: seq<nat>, popOwner: seq<nat>, returned: map<nat, Event>,
    rejected: nat, drained: nat, cleared: nat, overflows: nat, log: Log)

  /**
    A push that gives up: whether the queue was initialised when it was called, and, at the moment it
    gives up, the head counter and the tail tickets handed back.
  */
  datatype Refusal = Refusal(event: Event, ready: bool, head: nat, returned: set<nat>)

  /** A pop that comes back empty: both counters, and whether the event at the tail is still unpublished. */
  datatype Empty = Empty(tail: nat, head: nat, unpublished: bool)

  /**
    `argument[j]` is the argument of the last push thread j called, and j is in `ready` if the queue
    was initialised then.  `accepted[t]` is the argument of the push that won head ticket t.  `pushes`
    and `pops` count the calls.
  */
  datatype Log = Log(
    argument: map<nat, Event>, ready: set<nat>, accepted: seq<Event>, refusals: seq<Refusal>, empties: seq<Empty>,
    pushes: nat, pops: nat)

  const NO_LOG: Log := Log(map[], {}, [], [], [], 0, 0)

  datatype State = State(
    head: nat, tail: nat, dropped: nat, initialized: bool, slots: seq<Slot>,
    init: InitPc, threads: seq<Pc>, h: History)

  /** What an idle thread does next. */
  datatype Call = CallPush(event: Event) | CallPop | CallDrainDropped

  datatype Action = InitAction | ThreadAction(thread: nat, call: Call)

  function Wrap32(x: nat): (r: nat)
    ensures x < U32_SIZE ==> r == x
  {
    x % U32_SIZE
  }

  function SlotOf(pos: nat): (i: nat)
    ensures i < CAPACITY
  {
    pos % CAPACITY
  }

  /** Two tickets of the same slot are at least one lap apart. */
  lemma LapsApart(t: nat, u: nat)
    requires SlotOf(t) == SlotOf(u)
    ensures t == u || t + CAPACITY <= u || u + CAPACITY <= t
  {
  }

  lemma OneLap(t: nat)
    ensures SlotOf(t + CAPACITY) == SlotOf(t)
  {
  }

  lemma FirstLap(t: nat)
    requires t < CAPACITY
    ensures SlotOf(t) == t
  {
  }

  // ---------------------------------------------------------------- transitions

  function Fresh(threadCount: nat): State
  {
    State(0, 0, 0, false, seq(CAPACITY, _ => Slot(0, ZEROED)), StoreHead,
          seq(threadCount, _ => Idle), History([], [], [], map[], 0, 0, 0, 0, NO_LOG))
  }

  function StepInit(s: State): State
    requires |s.slots| == CAPACITY
  {
    match s.init
    case StoreHead => s.(head := 0, init := StoreTail)
    case StoreTail => s.(tail := 0, init := StoreDropped)
    case StoreDropped => s.(dropped := 0, h := s.h.(cleared := s.h.cleared + s.dropped), init := StoreSeq(0))
    case StoreSeq(i) =>
      if i < CAPACITY then s.(slots := s.slots[i := s.slots[i].(seqNo := i)], init := StoreSeq(i + 1))
      else s.(init := SetInitialized)
    case SetInitialized => s.(initialized := true, init := InitDone)
    case InitDone => s
  }

  function Goto(s: State, j: nat, pc: Pc): State
    requires j < |s.threads|
  {
    s.(threads := s.threads[j := pc])
  }

  /** Thread j wins head ticket `pos` for event e. */
  function ClaimHead(s: State, j: nat, e: Event, pos: nat): State
    requires j < |s.threads|
  {
    Goto(s, j, PushWrite(e, pos)).(
      head := Wrap32(pos + 1), h := s.h.(pushed := s.h.pushed + [e], pushOwner := s.h.pushOwner + [j]))
  }

  /** Thread j stores its event in the payload cell of ticket `pos`. */
  function WriteEvent(s: State, j: nat, e: Event, pos: nat): State
    requires j < |s.threads| && |s.slots| == CAPACITY
  {
    Goto(s, j, PushPublish(pos)).(slots := s.slots[SlotOf(pos) := s.slots[SlotOf(pos)].(event := e)])
  }

  /** Thread j makes ticket `pos` visible to poppers. */
  function Publish(s: State, j: nat, pos: nat): State
    requires j < |s.threads| && |s.slots| == CAPACITY
  {
    Goto(s, j, Idle).(slots := s.slots[SlotOf(pos) := s.slots[SlotOf(pos)].(seqNo := Wrap32(pos + 1))])
  }

  /** Thread j wins tail ticket `pos`. */
  function ClaimTail(s: State, j: nat, pos: nat): State
    requires j < |s.threads|
  {
    Goto(s, j, PopRead(pos)).(tail := Wrap32(pos + 1), h := s.h.(popOwner := s.h.popOwner + [j]))
  }

  /** Thread j hands the slot of ticket `pos` to the next lap and returns e. */
  function Release(s: State, j: nat, pos: nat, e: Event): State
    requires j < |s.threads| && |s.slots| == CAPACITY
  {
    Goto(s, j, Idle).(
      slots := s.slots[SlotOf(pos) := s.slots[SlotOf(pos)].(seqNo := Wrap32(pos + CAPACITY))],
      h := s.h.(returned := s.h.returned[pos := e]))
  }

  /** Thread j returns false and counts the rejection. */
  function CountDrop(s: State, j: nat): State
    requires j < |s.threads|
  {
    var overflows := s.h.overflows + (if s.dropped + 1 < U32_SIZE then 0 else 1);
    Goto(s, j, Idle).(dropped := Wrap32(s.dropped + 1), h := s.h.(rejected := s.h.rejected + 1, overflows := overflows))
  }

  /** What a push at `pos` does after loading `seqNo` from its slot. */
  function PushDecision(seqNo: nat, e: Event, pos: nat): Pc
  {
    if seqNo == pos then PushCas(e, pos) else if seqNo < pos then PushDrop(Full(pos)) else PushLoadHead(e)
  }

  /** What a pop at `pos` does after loading `seqNo` from its slot; `Idle` is the empty answer. */
  function PopDecision(seqNo: nat, pos: nat): Pc
  {
    if seqNo == Wrap32(pos + 1) then PopCas(pos) else if seqNo < Wrap32(pos + 1) then Idle else PopLoadTail
  }

  function StepIdle(s: State, j: nat, call: Call): State
    requires j < |s.threads|
  {
    match call
    case CallPush(e) => Goto(s, j, PushCheckInit(e))
    case CallPop => Goto(s, j, PopLoadTail)
    case CallDrainDropped => s.(dropped := 0, h := s.h.(drained := s.h.drained + s.dropped))
  }

  function StepPush(s: State, j: nat): State
    requires j < |s.threads| && |s.slots| == CAPACITY
  {
    match s.threads[j]
    case PushCheckInit(e) =>
      Goto(s, j, if s.initialized then PushLoadHead(e) else PushDrop(NotInitialized))
    case PushLoadHead(e) =>
      Goto(s, j, PushLoadSeq(e, s.head))
    case PushLoadSeq(e, pos) =>
      Goto(s, j, PushDecision(s.slots[SlotOf(pos)].seqNo, e, pos))
    case PushCas(e, pos) =>
      if s.head == pos then ClaimHead(s, j, e, pos) else Goto(s, j, PushLoadSeq(e, s.head))
    case PushWrite(e, pos) => WriteEvent(s, j, e, pos)
    case PushPublish(pos) => Publish(s, j, pos)
    case PushDrop(_) => CountDrop(s, j)
    case _ => s
  }

  function StepPop(s: State, j: nat): State
    requires j < |s.threads| && |s.slots| == CAPACITY
  {
    match s.threads[j]
    case PopLoadTail =>
      Goto(s, j, PopLoadSeq(s.tail))
    case PopLoadSeq(pos) =>
      Goto(s, j, PopDecision(s.slots[SlotOf(pos)].seqNo, pos))
    case PopCas(pos) =>
      if s.tail == pos then ClaimTail(s, j, pos) else Goto(s, j, PopLoadSeq(s.tail))
    case PopRead(pos) =>
      Goto(s, j, PopRelease(pos, s.slots[SlotOf(pos)].event))
    case PopRelease(pos, e) => Release(s, j, pos, e)
    case _ => s
  }

  predicate InPop(pc: Pc)
  {
    pc.PopLoadTail? || pc.PopLoadSeq? || pc.PopCas? || pc.PopRead? || pc.PopRelease?
  }

  function WithLog(s: State, log: Log): State { s.(h := s.h.(log := log)) }

  /** What the observer adds when thread j calls. */
  function LogCall(s: State, j: nat, call: Call): Log
  {
    var log := s.h.log;
    if call.CallPush? then
      log.(argument := log.argument[j := call.event],
           ready := if s.initialized then log.ready + {j} else log.ready - {j}, pushes := log.pushes + 1)
    else if call.CallPop? then log.(pops := log.pops + 1)
    else log
  }

  function EventOf(pc: Pc): Option<Event>
  {
    if pc.PushCheckInit? || pc.PushLoadHead? || pc.PushLoadSeq? || pc.PushCas? then Some(pc.event) else None
  }

  /** The pop has neither won a ticket nor come back empty. */
  predicate Looking(pc: Pc) { pc.PopLoadTail? || pc.PopLoadSeq? || pc.PopCas? }

  /** How many threads are in a push that has neither won a ticket nor given up. */
  function Trying(threads: seq<Pc>): nat
  {
    if threads == [] then 0 else Trying(threads[1..]) + if EventOf(threads[0]).Some? then 1 else 0
  }

  /** How many have given up and not yet counted it. */
  function Dropping(threads: seq<Pc>): nat
  {
    if threads == [] then 0 else Dropping(threads[1..]) + if threads[0].PushDrop? then 1 else 0
  }

  function LookingCount(threads: seq<Pc>): nat
  {
    if threads == [] then 0 else LookingCount(threads[1..]) + if Looking(threads[0]) then 1 else 0
  }

  /** The event at the tail was claimed by a push that has not published it. */
  predicate TailUnpublished(s: State)
  {
    s.tail < s.head && s.tail < |s.h.pushOwner| && HoldsPush(s, s.h.pushOwner[s.tail], s.tail)
  }

  /** What the observer adds when thread j moves a push or a pop from s to r. */
  function LogMove(s: State, r: State, j: nat): Log
    requires j < |s.threads| == |r.threads|
  {
    var log, e := s.h.log, if j in s.h.log.argument then s.h.log.argument[j] else ZEROED;
    if |s.h.pushed| < |r.h.pushed| then log.(accepted := log.accepted + [e])
    else if !s.threads[j].PushDrop? && r.threads[j].PushDrop? then
      log.(refusals := log.refusals + [Refusal(e, j in log.ready, s.head, s.h.returned.Keys)])
    else if InPop(s.threads[j]) && !s.threads[j].PopRelease? && r.threads[j].Idle? then
      log.(empties := log.empties + [Empty(s.tail, s.head, TailUnpublished(s))])
    else log
  }

  function StepThread(s: State, j: nat): State
    requires j < |s.threads| && |s.slots| == CAPACITY
  {
    if InPop(s.threads[j]) then StepPop(s, j) else StepPush(s, j)
  }

  function Step(s: State, a: Action): State
    requires |s.slots| == CAPACITY
    ensures |Step(s, a).slots| == CAPACITY && |Step(s, a).threads| == |s.threads|
  {
    match a
    case InitAction => StepInit(s)
    case ThreadAction(j, call) =>
      if j >= |s.threads| then s
      else if s.threads[j].Idle? then WithLog(StepIdle(s, j, call), LogCall(s, j, call))
      else WithLog(StepThread(s, j), LogMove(s, StepThread(s, j), j))
  }

  /** The state reached from `s` by an arbitrary interleaving. */
  function Execute(s: State, run: seq<Action>): (r: State)
    requires |s.slots| == CAPACITY
    ensures |r.slots| == CAPACITY
  {
    if run == [] then s else Step(Execute(s, run[..|run| - 1]), run[|run| - 1])
  }

  /** No counter wraps anywhere along the run. */
  ghost predicate NeverWraps(s: State, run: seq<Action>)
    requires |s.slots| == CAPACITY
  {
    forall k :: 0 <= k <= |run| ==> Execute(s, run[..k]).head <= NO_WRAP_LIMIT
  }

  // ---------------------------------------------------------------- invariant

  /** Thread j holds head ticket t: it won the CAS on `head` and has not yet published. */
  predicate HoldsPush(s: State, j: nat, t: nat)
  {
    j < |s.threads| && ((s.threads[j].PushWrite? && s.threads[j].pos == t) || s.threads[j] == PushPublish(t))
  }

  /** Thread j holds tail ticket t: it won the CAS on `tail` and has not yet released. */
  predicate HoldsPop(s: State, j: nat, t: nat)
  {
    j < |s.threads| && (s.threads[j] == PopRead(t) || (s.threads[j].PopRelease? && s.threads[j].pos == t))
  }

  /** Slot i waits for head ticket `seqNo`, or still carries ticket `seqNo - 1`. */
  ghost predicate SlotOk(s: State, i: nat)
    requires i < |s.slots| && |s.h.pushed| == |s.h.pushOwner| == s.head && |s.h.popOwner| == s.tail
  {
    var q := s.slots[i].seqNo;
    if SlotOf(q) == i then
      s.tail <= q < s.tail + CAPACITY && (q < s.head ==> HoldsPush(s, s.h.pushOwner[q], q))
    else
      q >= 1 && SlotOf(q - 1) == i && q - 1 < s.head <= q - 1 + CAPACITY
      && s.slots[i].event == s.h.pushed[q - 1]
      && (q - 1 < s.tail ==> HoldsPop(s, s.h.popOwner[q - 1], q - 1))
  }

  ghost predicate ThreadOk(s: State, j: nat)
    requires j < |s.threads| && |s.slots| == CAPACITY
    requires |s.h.pushed| == |s.h.pushOwner| == s.head && |s.h.popOwner| == s.tail && s.tail <= s.head
  {
    match s.threads[j]
    case PushLoadSeq(_, pos) => pos <= s.head
    case PushCas(_, pos) => pos <= s.head && s.slots[SlotOf(pos)].seqNo >= pos
    case PushWrite(e, pos) =>
      pos < s.head && s.h.pushOwner[pos] == j && s.h.pushed[pos] == e && s.slots[SlotOf(pos)].seqNo == pos
    case PushPublish(pos) =>
      pos < s.head && s.h.pushOwner[pos] == j && s.slots[SlotOf(pos)] == Slot(pos, s.h.pushed[pos])
    case PopLoadSeq(pos) => pos <= s.tail
    case PopCas(pos) => pos <= s.tail && s.slots[SlotOf(pos)].seqNo >= pos + 1
    case PopRead(pos) =>
      pos < s.tail && s.h.popOwner[pos] == j && s.slots[SlotOf(pos)].seqNo == pos + 1
    case PopRelease(pos, e) =>
      pos < s.tail && s.h.popOwner[pos] == j && s.slots[SlotOf(pos)].seqNo == pos + 1 && e == s.h.pushed[pos]
    case _ => true
  }

  /** Tail ticket t has been handed back exactly when its slot moved on to the next lap. */
  ghost predicate ReturnedOk(s: State)
    requires |s.slots| == CAPACITY && |s.h.pushed| == s.head && s.tail <= s.head
  {
    (forall t: nat :: t in s.h.returned <==> t < s.tail && s.slots[SlotOf(t)].seqNo >= t + CAPACITY)
    && (forall t: nat :: t in s.h.returned ==> t < s.head && s.h.returned[t] == s.h.pushed[t])
  }

  ghost predicate Shape(s: State)
  {
    |s.slots| == CAPACITY && s.tail <= s.head <= s.tail + CAPACITY
    && |s.h.pushed| == |s.h.pushOwner| == s.head && |s.h.popOwner| == s.tail
  }

  /** `init` is still running: the ring is empty and no push or pop can have got past its first test. */
  ghost predicate Starting(s: State)
    requires |s.slots| == CAPACITY
  {
    !s.initialized && s.head == s.tail == 0 && s.h.returned == map[] && !s.init.InitDone?
    && (forall i :: 0 <= i < CAPACITY ==>
          s.slots[i].seqNo == (if s.init.SetInitialized? || (s.init.StoreSeq? && i < s.init.next) then i else 0))
    && (s.init.StoreSeq? ==> s.init.next <= CAPACITY)
    && (forall j :: 0 <= j < |s.threads| ==>
          s.threads[j] in {Idle, PushDrop(NotInitialized), PopLoadTail, PopLoadSeq(0)} || s.threads[j].PushCheckInit?)
  }

  ghost predicate Working(s: State)
    requires Shape(s)
  {
    s.initialized && s.init.InitDone?
    && (forall i :: 0 <= i < CAPACITY ==> SlotOk(s, i))
    && (forall j :: 0 <= j < |s.threads| ==> ThreadOk(s, j))
    && ReturnedOk(s)
  }

  /**
    Every rejected push is in `dropped`, was drained, was cleared by `init`, or left with one of
    the `overflows` of the 32-bit `dropped`; none is counted twice.
  */
  ghost predicate DropsCounted(s: State)
  {
    s.dropped < U32_SIZE
    && s.dropped + s.h.drained + s.h.cleared + U32_SIZE * s.h.overflows == s.h.rejected
  }

  ghost predicate Inv(s: State)
  {
    Shape(s) && DropsCounted(s) && (if s.initialized then Working(s) else Starting(s))
  }

  // ---------------------------------------------------------------- preservation

  /** A winning CAS on `head` finds its slot still free for exactly that ticket. */
  lemma PushCasWins(s: State, j: nat)
    requires Inv(s) && s.initialized && j < |s.threads|
    requires s.threads[j].PushCas? && s.threads[j].pos == s.head
    ensures s.slots[SlotOf(s.head)].seqNo == s.head < s.tail + CAPACITY
  {
    assert ThreadOk(s, j);
    assert SlotOk(s, SlotOf(s.head));
    HeadSlotIsFree(s);
  }

  lemma HeadSlotIsFree(s: State)
    requires Shape(s) && SlotOk(s, SlotOf(s.head)) && s.slots[SlotOf(s.head)].seqNo >= s.head
    ensures s.slots[SlotOf(s.head)].seqNo == s.head < s.tail + CAPACITY
  {
    hide SlotOf;
    var q := s.slots[SlotOf(s.head)].seqNo;
    if SlotOf(q) == SlotOf(s.head) { LapsApart(s.head, q); }
  }

  /** A winning CAS on `tail` finds the event of exactly that ticket published. */
  lemma PopCasWins(s: State, j: nat)
    requires Inv(s) && s.initialized && j < |s.threads|
    requires s.threads[j].PopCas? && s.threads[j].pos == s.tail
    ensures s.slots[SlotOf(s.tail)].seqNo == s.tail + 1 && s.tail < s.head
  {
    assert ThreadOk(s, j);
    assert SlotOk(s, SlotOf(s.tail));
    TailSlotIsPublished(s);
  }

  lemma TailSlotIsPublished(s: State)
    requires Shape(s) && SlotOk(s, SlotOf(s.tail)) && s.slots[SlotOf(s.tail)].seqNo >= s.tail + 1
    ensures s.slots[SlotOf(s.tail)].seqNo == s.tail + 1 && s.tail < s.head
  {
    hide SlotOf;
    var q := s.slots[SlotOf(s.tail)].seqNo;
    LapsApart(s.tail, if SlotOf(q) == SlotOf(s.tail) then q else q - 1);
  }

  ghost predicate Ready(s: State, j: nat)
  {
    Inv(s) && s.initialized && j < |s.threads| && s.head <= NO_WRAP_LIMIT
  }

  /** Thread j is about to perform `pc`, in a state whose counters fit together. */
  ghost predicate At(s: State, j: nat, pc: Pc)
  {
    Shape(s) && s.head <= NO_WRAP_LIMIT && j < |s.threads| && s.threads[j] == pc
  }

  /** Moving thread j to `pc` keeps whatever ticket it holds. */
  ghost predicate KeepsTickets(s: State, j: nat, pc: Pc)
    requires j < |s.threads|
  {
    forall t :: (HoldsPush(s, j, t) ==> HoldsPush(Goto(s, j, pc), j, t))
             && (HoldsPop(s, j, t) ==> HoldsPop(Goto(s, j, pc), j, t))
  }

  lemma GotoKeepsSlot(s: State, j: nat, pc: Pc, i: nat)
    requires Shape(s) && i < CAPACITY && SlotOk(s, i) && j < |s.threads| && KeepsTickets(s, j, pc)
    ensures SlotOk(Goto(s, j, pc), i)
  {
  }

  lemma GotoKeepsInv(s: State, j: nat, pc: Pc)
    requires Ready(s, j) && KeepsTickets(s, j, pc) && ThreadOk(Goto(s, j, pc), j)
    ensures Inv(Goto(s, j, pc))
  {
    var r := Goto(s, j, pc);
    forall i | 0 <= i < CAPACITY ensures SlotOk(r, i) { GotoKeepsSlot(s, j, pc, i); }
    forall k | 0 <= k < |r.threads| ensures ThreadOk(r, k) { assert ThreadOk(s, k); }
  }

  // Winning the CAS on `head`.

  ghost predicate Claiming(s: State, j: nat, e: Event, pos: nat)
  {
    Ready(s, j) && s.threads[j] == PushCas(e, pos) && pos == s.head < NO_WRAP_LIMIT
  }

  lemma ClaimHeadKeepsSlot(s: State, j: nat, e: Event, pos: nat, i: nat)
    requires At(s, j, PushCas(e, pos)) && pos == s.head < NO_WRAP_LIMIT && i < CAPACITY && SlotOk(s, i)
    requires s.slots[SlotOf(pos)].seqNo == pos < s.tail + CAPACITY
    ensures SlotOk(ClaimHead(s, j, e, pos), i)
  {
    hide SlotOf, Wrap32, At;
    AtIsShaped(s, j, PushCas(e, pos));
    var q := s.slots[i].seqNo;
    if SlotOf(q) != i {
      OneLap(q - 1);
      HolderStays(s, j, e, pos, q - 1);
    } else if q < pos {
      HolderStays(s, j, e, pos, q);
    }
  }

  lemma AtIsShaped(s: State, j: nat, pc: Pc)
    requires At(s, j, pc)
    ensures Shape(s) && j < |s.threads| && s.threads[j] == pc
  {
  }

  lemma HolderStays(s: State, j: nat, e: Event, pos: nat, t: nat)
    requires At(s, j, PushCas(e, pos)) && t < s.head
    ensures var r := ClaimHead(s, j, e, pos);
            && |r.h.pushOwner| == |r.h.pushed| == s.head + 1
            && r.h.pushed[t] == s.h.pushed[t]
            && (HoldsPush(s, s.h.pushOwner[t], t) ==> HoldsPush(r, r.h.pushOwner[t], t))
            && (t < s.tail && HoldsPop(s, s.h.popOwner[t], t) ==> HoldsPop(r, r.h.popOwner[t], t))
  {
    hide Wrap32;
  }

  lemma ClaimHeadKeepsThread(s: State, j: nat, e: Event, pos: nat, k: nat)
    requires At(s, j, PushCas(e, pos)) && pos == s.head < NO_WRAP_LIMIT && k < |s.threads| && ThreadOk(s, k)
    requires s.slots[SlotOf(pos)].seqNo == pos < s.tail + CAPACITY
    ensures ThreadOk(ClaimHead(s, j, e, pos), k)
  {
    assert ThreadOk(s, k);
  }

  lemma ClaimHeadKeepsInv(s: State, j: nat, e: Event, pos: nat)
    requires Claiming(s, j, e, pos)
    ensures Inv(ClaimHead(s, j, e, pos))
  {
    var r := ClaimHead(s, j, e, pos);
    PushCasWins(s, j);
    forall i | 0 <= i < CAPACITY ensures SlotOk(r, i) { ClaimHeadKeepsSlot(s, j, e, pos, i); }
    forall k | 0 <= k < |r.threads| ensures ThreadOk(r, k) { ClaimHeadKeepsThread(s, j, e, pos, k); }
  }

  // Storing the event.

  lemma WriteEventKeepsSlot(s: State, j: nat, e: Event, pos: nat, i: nat)
    requires At(s, j, PushWrite(e, pos)) && ThreadOk(s, j) && i < CAPACITY && SlotOk(s, i)
    ensures SlotOk(WriteEvent(s, j, e, pos), i)
  {
    assert ThreadOk(s, j) && SlotOk(s, i);
  }

  lemma WriteEventKeepsThread(s: State, j: nat, e: Event, pos: nat, k: nat)
    requires At(s, j, PushWrite(e, pos)) && ThreadOk(s, j) && k < |s.threads| && ThreadOk(s, k)
    ensures ThreadOk(WriteEvent(s, j, e, pos), k)
  {
    assert ThreadOk(s, j) && ThreadOk(s, k);
  }

  lemma WriteEventKeepsInv(s: State, j: nat, e: Event, pos: nat)
    requires Ready(s, j) && s.threads[j] == PushWrite(e, pos)
    ensures Inv(WriteEvent(s, j, e, pos))
  {
    var r := WriteEvent(s, j, e, pos);
    forall i | 0 <= i < CAPACITY ensures SlotOk(r, i) { WriteEventKeepsSlot(s, j, e, pos, i); }
    forall k | 0 <= k < |r.threads| ensures ThreadOk(r, k) { WriteEventKeepsThread(s, j, e, pos, k); }
    forall t: nat ensures r.slots[SlotOf(t)].seqNo == s.slots[SlotOf(t)].seqNo {}
  }

  // Publishing the ticket.

  lemma NextTicketElsewhere(t: nat)
    ensures SlotOf(t + 1) != SlotOf(t)
  {
    if SlotOf(t + 1) == SlotOf(t) { LapsApart(t, t + 1); }
  }

  lemma PublishKeepsSlot(s: State, j: nat, pos: nat, i: nat)
    requires At(s, j, PushPublish(pos)) && ThreadOk(s, j) && i < CAPACITY && SlotOk(s, i)
    ensures SlotOk(Publish(s, j, pos), i)
  {
    hide SlotOf;
    NextTicketElsewhere(pos);
    if i == SlotOf(pos) {
      assert Publish(s, j, pos).slots[i] == Slot(pos + 1, s.h.pushed[pos]);
    } else {
      assert Publish(s, j, pos).slots[i] == s.slots[i];
    }
  }

  lemma PublishKeepsThread(s: State, j: nat, pos: nat, k: nat)
    requires At(s, j, PushPublish(pos)) && ThreadOk(s, j) && k < |s.threads| && ThreadOk(s, k)
    ensures ThreadOk(Publish(s, j, pos), k)
  {
    assert ThreadOk(s, j) && ThreadOk(s, k);
  }

  lemma PublishKeepsReturned(s: State, j: nat, pos: nat)
    requires At(s, j, PushPublish(pos)) && ThreadOk(s, j) && ReturnedOk(s)
    ensures ReturnedOk(Publish(s, j, pos))
  {
    var r := Publish(s, j, pos);
    assert ThreadOk(s, j);
    forall t: nat
      ensures t in r.h.returned <==> t < r.tail && r.slots[SlotOf(t)].seqNo >= t + CAPACITY
    {
      if SlotOf(t) == SlotOf(pos) { LapsApart(t, pos); }
      assert t in s.h.returned <==> t < s.tail && s.slots[SlotOf(t)].seqNo >= t + CAPACITY;
    }
  }

  lemma PublishKeepsInv(s: State, j: nat, pos: nat)
    requires Ready(s, j) && s.threads[j] == PushPublish(pos)
    ensures Inv(Publish(s, j, pos))
  {
    var r := Publish(s, j, pos);
    forall i | 0 <= i < CAPACITY ensures SlotOk(r, i) { PublishKeepsSlot(s, j, pos, i); }
    forall k | 0 <= k < |r.threads| ensures ThreadOk(r, k) { PublishKeepsThread(s, j, pos, k); }
    PublishKeepsReturned(s, j, pos);
  }

  // Winning the CAS on `tail`.

  lemma ClaimTailKeepsSlot(s: State, j: nat, pos: nat, i: nat)
    requires At(s, j, PopCas(pos)) && pos == s.tail < s.head && i < CAPACITY && SlotOk(s, i)
    requires s.slots[SlotOf(pos)].seqNo == pos + 1
    ensures SlotOk(ClaimTail(s, j, pos), i)
  {
    hide SlotOf;
  }

  lemma ClaimTailKeepsThread(s: State, j: nat, pos: nat, k: nat)
    requires At(s, j, PopCas(pos)) && pos == s.tail < s.head && k < |s.threads| && ThreadOk(s, k)
    requires s.slots[SlotOf(pos)].seqNo == pos + 1
    ensures ThreadOk(ClaimTail(s, j, pos), k)
  {
    assert ThreadOk(s, k);
  }

  lemma ClaimTailKeepsInv(s: State, j: nat, pos: nat)
    requires Ready(s, j) && s.threads[j] == PopCas(pos) && pos == s.tail
    ensures Inv(ClaimTail(s, j, pos))
  {
    var r := ClaimTail(s, j, pos);
    PopCasWins(s, j);
    forall i | 0 <= i < CAPACITY ensures SlotOk(r, i) { ClaimTailKeepsSlot(s, j, pos, i); }
    forall k | 0 <= k < |r.threads| ensures ThreadOk(r, k) { ClaimTailKeepsThread(s, j, pos, k); }
  }

  // Reading the event.

  lemma ReadKeepsInv(s: State, j: nat, pos: nat)
    requires Ready(s, j) && s.threads[j] == PopRead(pos)
    ensures Inv(Goto(s, j, PopRelease(pos, s.slots[SlotOf(pos)].event)))
  {
    assert s.slots[SlotOf(pos)].event == s.h.pushed[pos] by {
      assert ThreadOk(s, j) && SlotOk(s, SlotOf(pos));
      NextTicketElsewhere(pos);
    }
    assert ThreadOk(s, j);
    GotoKeepsInv(s, j, PopRelease(pos, s.slots[SlotOf(pos)].event));
  }

  // Releasing the slot.

  lemma ReleaseKeepsSlot(s: State, j: nat, pos: nat, e: Event, i: nat)
    requires At(s, j, PopRelease(pos, e)) && ThreadOk(s, j) && i < CAPACITY && SlotOk(s, i)
    ensures SlotOk(Release(s, j, pos, e), i)
  {
    hide SlotOf;
    NextTicketElsewhere(pos);
    OneLap(pos);
    if i == SlotOf(pos) {
      assert Release(s, j, pos, e).slots[i].seqNo == pos + CAPACITY;
    } else {
      assert Release(s, j, pos, e).slots[i] == s.slots[i];
    }
  }

  lemma ReleaseKeepsThread(s: State, j: nat, pos: nat, e: Event, k: nat)
    requires At(s, j, PopRelease(pos, e)) && ThreadOk(s, j) && k < |s.threads| && ThreadOk(s, k)
    ensures ThreadOk(Release(s, j, pos, e), k)
  {
    assert ThreadOk(s, j) && ThreadOk(s, k);
  }

  lemma ReleaseKeepsReturned(s: State, j: nat, pos: nat, e: Event)
    requires At(s, j, PopRelease(pos, e)) && ThreadOk(s, j) && ReturnedOk(s)
    ensures ReturnedOk(Release(s, j, pos, e))
  {
    var r := Release(s, j, pos, e);
    assert ThreadOk(s, j);
    forall t: nat
      ensures t in r.h.returned <==> t < r.tail && r.slots[SlotOf(t)].seqNo >= t + CAPACITY
    {
      if SlotOf(t) == SlotOf(pos) { LapsApart(t, pos); }
      assert t in s.h.returned <==> t < s.tail && s.slots[SlotOf(t)].seqNo >= t + CAPACITY;
    }
  }

  lemma ReleaseKeepsInv(s: State, j: nat, pos: nat, e: Event)
    requires Ready(s, j) && s.threads[j] == PopRelease(pos, e)
    ensures Inv(Release(s, j, pos, e))
  {
    var r := Release(s, j, pos, e);
    forall i | 0 <= i < CAPACITY ensures SlotOk(r, i) { ReleaseKeepsSlot(s, j, pos, e, i); }
    forall k | 0 <= k < |r.threads| ensures ThreadOk(r, k) { ReleaseKeepsThread(s, j, pos, e, k); }
    ReleaseKeepsReturned(s, j, pos, e);
  }

  // Counting rejections, and `init`.

  /** The counters behind `dropped` take no part in the ring. */
  lemma CountersKeepRing(s: State, dropped: nat, rejected: nat, drained: nat, overflows: nat)
    requires Inv(s) && s.initialized
    ensures var r := s.(dropped := dropped,
                        h := s.h.(rejected := rejected, drained := drained, overflows := overflows));
            Shape(r) && Working(r)
  {
    var r := s.(dropped := dropped, h := s.h.(rejected := rejected, drained := drained, overflows := overflows));
    forall i | 0 <= i < CAPACITY ensures SlotOk(r, i) { assert SlotOk(s, i); }
    forall k | 0 <= k < |r.threads| ensures ThreadOk(r, k) { assert ThreadOk(s, k); }
  }

  lemma DropKeepsInv(s: State, j: nat)
    requires Inv(s) && j < |s.threads| && s.threads[j].PushDrop? && s.head <= NO_WRAP_LIMIT
    ensures Inv(CountDrop(s, j))
  {
    if s.initialized {
      GotoKeepsInv(s, j, Idle);
      var r := CountDrop(s, j);
      CountersKeepRing(Goto(s, j, Idle), r.dropped, r.h.rejected, r.h.drained, r.h.overflows);
    }
  }

  lemma DrainKeepsInv(s: State, j: nat)
    requires Inv(s) && j < |s.threads| && s.threads[j].Idle?
    ensures Inv(StepIdle(s, j, CallDrainDropped))
  {
    if s.initialized { CountersKeepRing(s, 0, s.h.rejected, s.h.drained + s.dropped, s.h.overflows); }
  }

  lemma InitKeepsInv(s: State)
    requires Inv(s)
    ensures Inv(StepInit(s))
  {
    var r := StepInit(s);
    if s.init.SetInitialized? {
      forall i | 0 <= i < CAPACITY ensures SlotOk(r, i) {}
      forall k | 0 <= k < |r.threads| ensures ThreadOk(r, k) {}
    }
  }

  lemma PushStepKeepsInv(s: State, j: nat)
    requires Ready(s, j) && !s.threads[j].Idle? && !InPop(s.threads[j]) && StepPush(s, j).head <= NO_WRAP_LIMIT
    ensures Inv(StepPush(s, j))
  {
    assert ThreadOk(s, j);
    var pc := s.threads[j];
    if pc.PushWrite? { WriteEventKeepsInv(s, j, pc.event, pc.pos); }
    else if pc.PushPublish? { PublishKeepsInv(s, j, pc.pos); }
    else if pc.PushDrop? { DropKeepsInv(s, j); }
    else if pc.PushCas? && s.head == pc.pos { ClaimHeadKeepsInv(s, j, pc.event, pc.pos); }
    else { GotoKeepsInv(s, j, StepPush(s, j).threads[j]); }
  }

  lemma PopStepKeepsInv(s: State, j: nat)
    requires Ready(s, j) && InPop(s.threads[j])
    ensures Inv(StepPop(s, j))
  {
    assert ThreadOk(s, j);
    var pc := s.threads[j];
    if pc.PopRead? { ReadKeepsInv(s, j, pc.pos); }
    else if pc.PopRelease? { ReleaseKeepsInv(s, j, pc.pos, pc.event); }
    else if pc.PopCas? && s.tail == pc.pos { ClaimTailKeepsInv(s, j, pc.pos); }
    else { GotoKeepsInv(s, j, StepPop(s, j).threads[j]); }
  }

  lemma IdleKeepsInv(s: State, j: nat, call: Call)
    requires Inv(s) && j < |s.threads| && s.threads[j].Idle? && s.head <= NO_WRAP_LIMIT
    ensures Inv(StepIdle(s, j, call))
  {
    hide SlotOk, ThreadOk;
    if call.CallDrainDropped? { DrainKeepsInv(s, j); }
    else if s.initialized { CallIsOk(s, j, call); GotoKeepsInv(s, j, StepIdle(s, j, call).threads[j]); }
  }

  lemma CallIsOk(s: State, j: nat, call: Call)
    requires Inv(s) && s.initialized && j < |s.threads| && !call.CallDrainDropped?
    ensures var pc := StepIdle(s, j, call).threads[j];
            Shape(Goto(s, j, pc)) && ThreadOk(Goto(s, j, pc), j)
  {
  }

  lemma ThreadKeepsInv(s: State, j: nat)
    requires Inv(s) && j < |s.threads| && !s.threads[j].Idle? && s.head <= NO_WRAP_LIMIT
    requires StepThread(s, j).head <= NO_WRAP_LIMIT
    ensures Inv(StepThread(s, j))
  {
    hide SlotOk, ThreadOk;
    if s.threads[j].PushDrop? { DropKeepsInv(s, j); }
    else if s.initialized && InPop(s.threads[j]) { PopStepKeepsInv(s, j); }
    else if s.initialized { PushStepKeepsInv(s, j); }
  }

  /** The observer takes no part in the queue. */
  lemma LogKeepsInv(s: State, log: Log)
    requires Inv(s)
    ensures Inv(WithLog(s, log))
  {
    var r := WithLog(s, log);
    if s.initialized {
      forall i | 0 <= i < CAPACITY ensures SlotOk(r, i) { assert SlotOk(s, i); }
      forall k | 0 <= k < |r.threads| ensures ThreadOk(r, k) { assert ThreadOk(s, k); }
    }
  }

  lemma StepKeepsInv(s: State, a: Action)
    requires Inv(s) && s.head <= NO_WRAP_LIMIT && Step(s, a).head <= NO_WRAP_LIMIT
    ensures Inv(Step(s, a))
  {
    hide Inv, StepIdle, StepThread, LogCall, LogMove;
    InvIsShaped(s);
    if a.InitAction? {
      InitKeepsInv(s);
    } else if a.thread < |s.threads| {
      var j := a.thread;
      if s.threads[j].Idle? {
        IdleKeepsInv(s, j, a.call);
        LogKeepsInv(StepIdle(s, j, a.call), LogCall(s, j, a.call));
      } else {
        ThreadKeepsInv(s, j);
        LogKeepsInv(StepThread(s, j), LogMove(s, StepThread(s, j), j));
      }
    }
  }

  lemma InvIsShaped(s: State)
    requires Inv(s)
    ensures Shape(s)
  {
  }

  // ---------------------------------------------------------------- theorems over every run

  /** Every interleaving of any number of threads, `init` included, stays inside the invariant. */
  lemma {:induction false} RunKeepsInv(threadCount: nat, run: seq<Action>)
    requires NeverWraps(Fresh(threadCount), run)
    ensures Inv(Execute(Fresh(threadCount), run))
  {
    var s0 := Fresh(threadCount);
    if run != [] {
      var before := run[..|run| - 1];
      forall k | 0 <= k <= |before| ensures Execute(s0, before[..k]).head <= NO_WRAP_LIMIT {
        assert before[..k] == run[..k];
      }
      RunKeepsInv(threadCount, before);
      assert run[..|run|] == run;
      StepKeepsInv(Execute(s0, before), run[|run| - 1]);
    }
  }

  /** The popper of tail ticket t hands back the argument of the push that won head ticket t. */
  ghost predicate PopsMatchPushes(s: State)
  {
    && s.tail <= s.head <= s.tail + CAPACITY && |s.h.pushed| == s.head
    && forall t :: t in s.h.returned ==> t < s.tail && s.h.returned[t] == s.h.pushed[t]
  }

  /** At most one thread is between its winning CAS and its `seq` store on any slot. */
  ghost predicate SlotAccessIsExclusive(s: State)
  {
    forall j, t, k, u ::
      ((HoldsPush(s, j, t) || HoldsPop(s, j, t)) && (HoldsPush(s, k, u) || HoldsPop(s, k, u)) && SlotOf(t) == SlotOf(u))
      ==> j == k
  }

  ghost predicate Quiescent(s: State)
  {
    forall j, t :: !HoldsPush(s, j, t) && !HoldsPop(s, j, t)
  }

  function ReturnedUpTo(returned: map<nat, Event>, n: nat): seq<Event>
    requires forall t :: 0 <= t < n ==> t in returned
  {
    seq(n, t requires 0 <= t < n => returned[t])
  }

  /**
    Nothing was lost, duplicated or reordered: the events handed back are the first `tail`
    events pushed, and the ring holds the remaining ones in order.
  */
  ghost predicate IsFifo(s: State)
  {
    && s.tail <= s.head && |s.h.pushed| == s.head && |s.slots| == CAPACITY
    && (forall t: nat :: t in s.h.returned <==> t < s.tail)
    && ReturnedUpTo(s.h.returned, s.tail) == s.h.pushed[..s.tail]
    && forall t :: s.tail <= t < s.head ==> s.slots[SlotOf(t)] == Slot(t + 1, s.h.pushed[t])
  }

  /** A push gives up exactly when the ticket one lap back in its slot has not been handed back. */
  ghost predicate RejectsOnlyUnreleased(s: State, j: nat)
    requires |s.slots| == CAPACITY
  {
    j < |s.threads| && s.threads[j].PushLoadSeq? ==>
      var e, pos := s.threads[j].event, s.threads[j].pos;
      PushDecision(s.slots[SlotOf(pos)].seqNo, e, pos) == PushDrop(Full(pos))
      <==> (pos >= CAPACITY && pos - CAPACITY !in s.h.returned)
  }

  /** A pop comes back empty only at the tail, and only if that ticket's event is not yet published. */
  ghost predicate EmptyOnlyWhenUnpublished(s: State, j: nat)
    requires |s.slots| == CAPACITY
  {
    (s.initialized && j < |s.threads| && s.threads[j].PopLoadSeq?
     && PopDecision(s.slots[SlotOf(s.threads[j].pos)].seqNo, s.threads[j].pos).Idle?)
    ==>
    (s.threads[j].pos == s.tail
     && (s.tail == s.head || (s.tail < |s.h.pushOwner| && HoldsPush(s, s.h.pushOwner[s.tail], s.tail))))
  }

  /** A ticket behind the tail was handed back, or its popper is still at work. */
  lemma ConsumedTicket(s: State, t: nat)
    requires Inv(s) && s.initialized && t < s.tail
    ensures t in s.h.returned || HoldsPop(s, s.h.popOwner[t], t)
    ensures s.slots[SlotOf(t)].seqNo >= t + 1
  {
    var i := SlotOf(t);
    assert SlotOk(s, i);
    var q := s.slots[i].seqNo;
    LapsApart(t, if SlotOf(q) == i then q else q - 1);
  }

  /** A ticket between tail and head is in the ring, or its pusher is still at work. */
  lemma LiveTicket(s: State, t: nat)
    requires Inv(s) && s.initialized && s.tail <= t < s.head
    ensures s.slots[SlotOf(t)] == Slot(t + 1, s.h.pushed[t]) ||
            (s.slots[SlotOf(t)].seqNo == t && HoldsPush(s, s.h.pushOwner[t], t))
  {
    var i := SlotOf(t);
    assert SlotOk(s, i);
    var q := s.slots[i].seqNo;
    LapsApart(t, if SlotOf(q) == i then q else q - 1);
  }

  lemma InvIsExclusive(s: State)
    requires Inv(s)
    ensures SlotAccessIsExclusive(s)
  {
    forall j, t, k, u |
      (HoldsPush(s, j, t) || HoldsPop(s, j, t)) && (HoldsPush(s, k, u) || HoldsPop(s, k, u)) && SlotOf(t) == SlotOf(u)
      ensures j == k
    {
      assert ThreadOk(s, j) && ThreadOk(s, k);
      LapsApart(t, u);
    }
  }

  lemma InvIsFifo(s: State)
    requires Inv(s) && s.initialized && Quiescent(s)
    ensures IsFifo(s)
  {
    forall t: nat | t < s.tail ensures t in s.h.returned { ConsumedTicket(s, t); }
    forall t | s.tail <= t < s.head ensures s.slots[SlotOf(t)] == Slot(t + 1, s.h.pushed[t]) { LiveTicket(s, t); }
  }

  lemma LapBehind(s: State, pos: nat)
    requires Inv(s) && s.initialized && pos <= s.head
    ensures s.slots[SlotOf(pos)].seqNo < pos <==> pos >= CAPACITY && pos - CAPACITY !in s.h.returned
  {
    hide SlotOf;
    if pos >= CAPACITY {
      var lap := pos - CAPACITY;
      OneLap(lap);
      assert lap in s.h.returned <==> lap < s.tail && s.slots[SlotOf(lap)].seqNo >= lap + CAPACITY;
      if s.tail <= lap { LiveTicket(s, lap); }
    } else {
      FirstLap(pos);
      assert SlotOk(s, pos);
      var q := s.slots[pos].seqNo;
      LapsApart(pos, if SlotOf(q) == pos then q else q - 1);
    }
  }

  lemma InvRejectsOnlyUnreleased(s: State, j: nat)
    requires Inv(s)
    ensures RejectsOnlyUnreleased(s, j)
  {
    if j < |s.threads| && s.threads[j].PushLoadSeq? {
      assert ThreadOk(s, j);
      LapBehind(s, s.threads[j].pos);
    }
  }

  lemma EmptyOnlyAtTail(s: State, pos: nat)
    requires Inv(s) && s.initialized && pos <= s.tail && s.slots[SlotOf(pos)].seqNo < pos + 1
    ensures pos == s.tail
    ensures s.tail == s.head || HoldsPush(s, s.h.pushOwner[s.tail], s.tail)
  {
    if pos < s.tail {
      ConsumedTicket(s, pos);
    } else if s.tail < s.head {
      LiveTicket(s, pos);
    }
  }

  lemma InvEmptyOnlyWhenUnpublished(s: State, j: nat)
    requires Inv(s) && s.head <= NO_WRAP_LIMIT
    ensures EmptyOnlyWhenUnpublished(s, j)
  {
    if s.initialized && j < |s.threads| && s.threads[j].PopLoadSeq? {
      var pos := s.threads[j].pos;
      assert pos <= s.tail by { assert ThreadOk(s, j); }
      if s.slots[SlotOf(pos)].seqNo < pos + 1 { EmptyOnlyAtTail(s, pos); }
    }
  }

  /** Tickets are handed back at most once, and what was recorded never changes. */
  lemma HistoryOnlyGrows(s: State, a: Action)
    requires Inv(s)
    ensures s.h.pushed <= Step(s, a).h.pushed
    ensures forall t :: t in s.h.returned ==> t in Step(s, a).h.returned && Step(s, a).h.returned[t] == s.h.returned[t]
    ensures a.ThreadAction? && a.thread < |s.threads| && s.threads[a.thread].PopRelease? ==>
              s.threads[a.thread].pos !in s.h.returned
  {
    hide LogMove, LogCall;
    if a.ThreadAction? && a.thread < |s.threads| { assert s.initialized ==> ThreadOk(s, a.thread); }
  }

  // ---------------------------------------------------------------- what callers observe

  /** A push called on an initialised queue gives up only while the ticket one lap back is not handed back. */
  predicate Justified(r: Refusal) { r.ready ==> r.head >= CAPACITY && r.head - CAPACITY !in r.returned }

  /** A pop comes back empty only when nothing is queued, or what is next is not yet published. */
  predicate FoundNothing(x: Empty) { x.tail == x.head || x.unpublished }

  ghost predicate LogOk(s: State)
  {
    var log := s.h.log;
    && (log.ready != {} ==> s.initialized)
    && log.accepted == s.h.pushed
    && (forall r :: r in log.refusals ==> Justified(r))
    && (forall x :: x in log.empties ==> FoundNothing(x))
    && (forall j :: 0 <= j < |s.threads| && EventOf(s.threads[j]).Some? ==>
          j in log.argument && log.argument[j] == EventOf(s.threads[j]).value)
    && AllAccountedFor(s)
  }

  /**
    Every push called so far has won a ticket, has been refused, or is still trying; every refusal is
    counted or about to be; and every pop called so far has won a ticket, has come back empty, or is
    still looking.
  */
  ghost predicate AllAccountedFor(s: State)
  {
    var log := s.h.log;
    && log.pushes == |log.accepted| + |log.refusals| + Trying(s.threads)
    && |log.refusals| == s.h.rejected + Dropping(s.threads)
    && log.pops == |s.h.popOwner| + |log.empties| + LookingCount(s.threads)
  }

  lemma {:induction false} CountsAfterMove(threads: seq<Pc>, j: nat, pc: Pc)
    requires j < |threads|
    ensures Trying(threads[j := pc]) + (if EventOf(threads[j]).Some? then 1 else 0)
            == Trying(threads) + if EventOf(pc).Some? then 1 else 0
    ensures Dropping(threads[j := pc]) + (if threads[j].PushDrop? then 1 else 0)
            == Dropping(threads) + if pc.PushDrop? then 1 else 0
    ensures LookingCount(threads[j := pc]) + (if Looking(threads[j]) then 1 else 0)
            == LookingCount(threads) + if Looking(pc) then 1 else 0
  {
    hide EventOf, Looking;
    if j == 0 {
      assert threads[0 := pc][1..] == threads[1..];
    } else {
      assert threads[j := pc][1..] == threads[1..][j - 1 := pc];
      CountsAfterMove(threads[1..], j - 1, pc);
    }
  }

  lemma {:induction false} NobodyBusy(n: nat)
    ensures var threads := seq(n, _ => Idle);
            Trying(threads) == Dropping(threads) == LookingCount(threads) == 0
  {
    if n > 0 {
      assert seq(n, _ => Idle)[1..] == seq(n - 1, _ => Idle);
      NobodyBusy(n - 1);
    }
  }

  lemma RefusedAtHead(s: State, pos: nat)
    requires Inv(s) && s.initialized && pos <= s.head && s.slots[SlotOf(pos)].seqNo < pos
    ensures pos == s.head && s.head >= CAPACITY && s.head - CAPACITY !in s.h.returned
  {
    hide SlotOf;
    LapBehind(s, pos);
    if pos < s.tail { ConsumedTicket(s, pos); } else if pos < s.head { LiveTicket(s, pos); }
  }

  /** What a move of thread j must meet for the log to stay right. */
  ghost predicate FairMove(s: State, r: State, j: nat)
    requires j < |s.threads|
  {
    && r.initialized == s.initialized && |r.threads| == |s.threads| && r.threads == s.threads[j := r.threads[j]]
    && (EventOf(r.threads[j]).Some? ==> EventOf(r.threads[j]) == EventOf(s.threads[j]))
    && (r.h.pushed == s.h.pushed
        || (EventOf(s.threads[j]).Some? && r.h.pushed == s.h.pushed + [EventOf(s.threads[j]).value]))
    && (EventOf(s.threads[j]).Some? && EventOf(r.threads[j]).None? <==>
          r.h.pushed != s.h.pushed || (!s.threads[j].PushDrop? && r.threads[j].PushDrop?))
    && (r.threads[j].PushDrop? ==> r.h.pushed == s.h.pushed)
    && r.h.rejected == s.h.rejected + (if s.threads[j].PushDrop? then 1 else 0)
    && (s.threads[j].PushDrop? ==> r.threads[j].Idle?)
    && (!s.threads[j].PushDrop? && r.threads[j].PushDrop? ==>
          Justified(Refusal(ZEROED, s.initialized, s.head, s.h.returned.Keys)))
    && (Looking(r.threads[j]) ==> Looking(s.threads[j]))
    && (s.threads[j].PopRead? ==> !r.threads[j].Idle?)
    && |r.h.popOwner| == |s.h.popOwner|
         + (if Looking(s.threads[j]) && !Looking(r.threads[j]) && !r.threads[j].Idle? then 1 else 0)
    && (InPop(s.threads[j]) && !s.threads[j].PopRelease? && r.threads[j].Idle? ==>
          FoundNothing(Empty(s.tail, s.head, TailUnpublished(s))))
  }

  lemma FairMoveKeepsLog(s: State, r: State, j: nat)
    requires LogOk(s) && j < |s.threads| && FairMove(s, r, j)
    ensures LogOk(WithLog(r, LogMove(s, r, j)))
  {
    hide TailUnpublished, Trying, Dropping, LookingCount;
    CountsAfterMove(s.threads, j, r.threads[j]);
  }

  lemma PushMoveIsFair(s: State, j: nat)
    requires Inv(s) && j < |s.threads| && !s.threads[j].Idle? && !InPop(s.threads[j])
    ensures FairMove(s, StepPush(s, j), j)
  {
    hide SlotOk, SlotOf, Wrap32, TailUnpublished;
    if s.threads[j].PushLoadSeq? {
      assert s.initialized && ThreadOk(s, j);
      var pos := s.threads[j].pos;
      if s.slots[SlotOf(pos)].seqNo < pos { RefusedAtHead(s, pos); }
    }
  }

  lemma PopMoveIsFair(s: State, j: nat)
    requires Inv(s) && s.head <= NO_WRAP_LIMIT && j < |s.threads| && InPop(s.threads[j])
    ensures FairMove(s, StepPop(s, j), j)
  {
    hide SlotOk, SlotOf, Wrap32;
    if s.initialized && s.threads[j].PopLoadSeq? {
      assert ThreadOk(s, j);
      var pos := s.threads[j].pos;
      if s.slots[SlotOf(pos)].seqNo < pos + 1 { EmptyOnlyAtTail(s, pos); }
    }
  }

  lemma CallKeepsLog(s: State, j: nat, call: Call)
    requires LogOk(s) && j < |s.threads| && s.threads[j].Idle?
    ensures LogOk(WithLog(StepIdle(s, j, call), LogCall(s, j, call)))
  {
    hide Trying, Dropping, LookingCount;
    CountsAfterMove(s.threads, j, StepIdle(s, j, call).threads[j]);
  }

  lemma InitKeepsLog(s: State)
    requires LogOk(s) && |s.slots| == CAPACITY
    ensures LogOk(StepInit(s))
  {
    hide Justified, FoundNothing, Trying, Dropping, LookingCount, EventOf;
    var r := StepInit(s);
    assert r.threads == s.threads && r.h == s.h.(cleared := r.h.cleared) && (s.initialized ==> r.initialized);
  }

  lemma StepKeepsLog(s: State, a: Action)
    requires Inv(s) && s.head <= NO_WRAP_LIMIT && LogOk(s)
    ensures LogOk(Step(s, a))
  {
    hide Inv, LogOk, StepInit, StepIdle, StepPush, StepPop, LogCall, LogMove, FairMove;
    InvIsShaped(s);
    if a.InitAction? {
      InitKeepsLog(s);
    } else if a.thread < |s.threads| {
      var j := a.thread;
      if s.threads[j].Idle? {
        CallKeepsLog(s, j, a.call);
      } else {
        if InPop(s.threads[j]) { PopMoveIsFair(s, j); } else { PushMoveIsFair(s, j); }
        FairMoveKeepsLog(s, StepThread(s, j), j);
      }
    }
  }

  lemma {:induction false} RunKeepsLog(threadCount: nat, run: seq<Action>)
    requires NeverWraps(Fresh(threadCount), run)
    ensures LogOk(Execute(Fresh(threadCount), run))
  {
    hide LogOk, Inv, Step;
    var s0 := Fresh(threadCount);
    if run == [] {
      NothingLogged(threadCount);
    } else {
      var before := run[..|run| - 1];
      forall k | 0 <= k <= |before| ensures Execute(s0, before[..k]).head <= NO_WRAP_LIMIT {
        assert before[..k] == run[..k];
      }
      RunKeepsInv(threadCount, before);
      RunKeepsLog(threadCount, before);
      assert before[..|before|] == before;
      StepKeepsLog(Execute(s0, before), run[|run| - 1]);
    }
  }

  lemma NothingLogged(threadCount: nat)
    ensures LogOk(Fresh(threadCount))
  {
    NobodyBusy(threadCount);
  }

  ghost predicate Safe(s: State)
  {
    && |s.slots| == CAPACITY
    && PopsMatchPushes(s)
    && SlotAccessIsExclusive(s)
    && (s.initialized && Quiescent(s) ==> IsFifo(s))
    && (forall j :: RejectsOnlyUnreleased(s, j) && EmptyOnlyWhenUnpublished(s, j))
    && DropsCounted(s)
    && LogOk(s)
  }

  lemma InvIsSafe(s: State)
    requires Inv(s) && LogOk(s) && s.head <= NO_WRAP_LIMIT
    ensures Safe(s)
  {
    hide LogOk;
    InvIsExclusive(s);
    if s.initialized && Quiescent(s) { InvIsFifo(s); }
    forall j ensures RejectsOnlyUnreleased(s, j) && EmptyOnlyWhenUnpublished(s, j) {
      InvRejectsOnlyUnreleased(s, j);
      InvEmptyOnlyWhenUnpublished(s, j);
    }
  }

  /** The queue's promises hold in every state of every interleaving that does not wrap a counter. */
  lemma EveryRunIsSafe(threadCount: nat, run: seq<Action>)
    requires NeverWraps(Fresh(threadCount), run)
    ensures Safe(Execute(Fresh(threadCount), run))
  {
    RunKeepsInv(threadCount, run);
    RunKeepsLog(threadCount, run);
    assert run[..|run|] == run;
    InvIsSafe(Execute(Fresh(threadCount), run));
  }

  // ---------------------------------------------------------------- init, undisturbed

  function InitRun(n: nat): seq<Action> { seq(n, _ => InitAction) }

  lemma InitNext(s: State, n: nat)
    requires |s.slots| == CAPACITY
    ensures Execute(s, InitRun(n + 1)) == StepInit(Execute(s, InitRun(n)))
  {
    hide StepInit;
    assert InitRun(n + 1)[..n] == InitRun(n);
  }

  /** After its first three stores, and n more, `init` has numbered the first n slots. */
  lemma {:induction false} InitNumbers(s: State, n: nat)
    requires |s.slots| == CAPACITY && s.init == StoreHead && n <= CAPACITY
    ensures var r := Execute(s, InitRun(n + 3));
            && r.head == r.tail == r.dropped == 0 && r.init == StoreSeq(n) && r.threads == s.threads
            && forall i :: 0 <= i < n ==> r.slots[i].seqNo == i
  {
    hide Execute, InitRun;
    InitNext(s, n + 2);
    if n == 0 {
      InitNext(s, 0);
      InitNext(s, 1);
      NothingRun(s);
    } else {
      InitNumbers(s, n - 1);
    }
  }

  lemma NothingRun(s: State)
    requires |s.slots| == CAPACITY
    ensures Execute(s, InitRun(0)) == s
  {
  }

  /** Left alone, `init` ends with an empty, initialised queue. */
  lemma InitCompletes(threadCount: nat)
    ensures var r := Execute(Fresh(threadCount), InitRun(261));
            && r.initialized && r.init == InitDone && r.head == r.tail == r.dropped == 0
            && (forall i :: 0 <= i < 256 ==> r.slots[i].seqNo == i)
            && r.threads == Fresh(threadCount).threads
  {
    hide Execute, InitRun;
    var s := Fresh(threadCount);
    InitNumbers(s, CAPACITY);
    InitNext(s, 259);
    InitNext(s, 260);
  }

  // ---------------------------------------------------------------- one call, undisturbed

  /** The run is one call of thread j, with no step of any other thread in between. */
  ghost predicate OneCall(s: State, run: seq<Action>, j: nat, call: Call)
    requires |s.slots| == CAPACITY && j < |s.threads|
  {
    && run != [] && (forall k :: 0 <= k < |run| ==> run[k] == ThreadAction(j, call))
    && (forall k :: 0 < k < |run| ==> !PcAfter(s, run[..k], j).Idle?)
  }

  function PcAfter(s: State, run: seq<Action>, j: nat): Pc
    requires |s.slots| == CAPACITY && j < |s.threads|
  {
    var r := Execute(s, run);
    if j < |r.threads| then r.threads[j] else Idle
  }

  /** r is s with thread j at `pc`, whatever the observer wrote. */
  predicate Moved(s: State, r: State, j: nat, pc: Pc)
    requires j < |s.threads|
  {
    r == WithLog(Goto(s, j, pc), r.h.log)
  }

  lemma CallStarts(s: State, j: nat, call: Call) returns (run: seq<Action>)
    requires |s.slots| == CAPACITY && j < |s.threads| && s.threads[j].Idle?
    ensures OneCall(s, run, j, call) && Execute(s, run) == Step(s, ThreadAction(j, call))
  {
    run := [ThreadAction(j, call)];
    assert run[..0] == [];
    assert Execute(s, []) == s;
  }

  lemma CallGoesOn(s: State, run: seq<Action>, j: nat, call: Call) returns (longer: seq<Action>)
    requires |s.slots| == CAPACITY && j < |s.threads| && OneCall(s, run, j, call) && !PcAfter(s, run, j).Idle?
    ensures OneCall(s, longer, j, call) && Execute(s, longer) == Step(Execute(s, run), ThreadAction(j, call))
  {
    hide Step;
    longer := run + [ThreadAction(j, call)];
    assert longer[..|run|] == run;
    forall k | 0 < k < |longer| ensures !PcAfter(s, longer[..k], j).Idle? {
      assert longer[..k] == if k < |run| then run[..k] else run;
    }
  }

  lemma MovedOn(s: State, r: State, u: State, j: nat, pc: Pc, next: Pc)
    requires j < |s.threads| && Moved(s, r, j, pc) && Moved(r, u, j, next)
    ensures Moved(s, u, j, next)
  {
    assert s.threads[j := pc][j := next] == s.threads[j := next];
  }

  lemma PushEnters(s: State, j: nat, e: Event, a: Action)
    requires |s.slots| == CAPACITY && j < |s.threads| && a == ThreadAction(j, CallPush(e))
    ensures s.threads[j].Idle? ==> Moved(s, Step(s, a), j, PushCheckInit(e))
    ensures s.threads[j] == PushCheckInit(e) && s.initialized ==> Moved(s, Step(s, a), j, PushLoadHead(e))
    ensures s.threads[j] == PushLoadHead(e) ==> Moved(s, Step(s, a), j, PushLoadSeq(e, s.head))
  {
    hide SlotOf, Wrap32, LogMove, LogCall;
  }

  lemma PushDecides(s: State, j: nat, e: Event, a: Action)
    requires |s.slots| == CAPACITY && j < |s.threads| && a == ThreadAction(j, CallPush(e))
    requires s.threads[j] == PushLoadSeq(e, s.head)
    ensures var q := s.slots[SlotOf(s.head)].seqNo;
            && (q == s.head ==> Moved(s, Step(s, a), j, PushCas(e, s.head)))
            && (q < s.head ==> Moved(s, Step(s, a), j, PushDrop(Full(s.head))))
  {
    hide SlotOf, Wrap32, LogMove, LogCall;
  }

  /** What a push that is not refused leaves behind. */
  function WithEvent(s: State, j: nat, e: Event): State
    requires |s.slots| == CAPACITY
  {
    s.(head := s.head + 1, slots := s.slots[s.head % 256 := Slot(s.head + 1, e)],
       h := s.h.(pushed := s.h.pushed + [e], pushOwner := s.h.pushOwner + [j]))
  }

  /** What a refused push leaves behind. */
  function WithDrop(s: State): State
  {
    s.(dropped := (s.dropped + 1) % 0x1_0000_0000,
       h := s.h.(rejected := s.h.rejected + 1, overflows := s.h.overflows + if s.dropped == U32_SIZE - 1 then 1 else 0))
  }

  lemma PushFinishes(s: State, j: nat, e: Event, a: Action)
    requires |s.slots| == CAPACITY && j < |s.threads| && a == ThreadAction(j, CallPush(e)) && s.head < NO_WRAP_LIMIT
    requires s.threads[j] == PushCas(e, s.head) && s.slots[SlotOf(s.head)].seqNo == s.head
    ensures Step(s, a).threads[j] == PushWrite(e, s.head)
    ensures Step(Step(s, a), a).threads[j] == PushPublish(s.head)
    ensures var r := Step(Step(Step(s, a), a), a);
            r == WithLog(Goto(WithEvent(s, j, e), j, Idle), r.h.log)
  {
    hide LogMove, LogCall;
    var r1 := Step(s, a);
    assert r1 == WithLog(ClaimHead(s, j, e, s.head), r1.h.log);
    var r2 := Step(r1, a);
    assert r2 == WithLog(WriteEvent(r1, j, e, s.head), r2.h.log);
    var r3 := Step(r2, a);
    assert r3 == WithLog(Publish(r2, j, s.head), r3.h.log);
    assert r3.threads == s.threads[j := Idle];
    assert r3.slots == s.slots[s.head % 256 := Slot(s.head + 1, e)];
  }

  lemma DropFinishes(s: State, j: nat, e: Event, a: Action)
    requires |s.slots| == CAPACITY && j < |s.threads| && a == ThreadAction(j, CallPush(e)) && s.dropped < U32_SIZE
    requires s.threads[j].PushDrop?
    ensures Step(s, a) == WithLog(Goto(WithDrop(s), j, Idle), Step(s, a).h.log)
  {
    hide LogMove, LogCall, SlotOf;
  }

  /** Up to the decision an undisturbed push only moves its thread. */
  lemma SoloPushDecides(s: State, j: nat, e: Event) returns (run: seq<Action>)
    requires Inv(s) && s.initialized && j < |s.threads| && s.threads[j].Idle? && s.head < NO_WRAP_LIMIT
    ensures OneCall(s, run, j, CallPush(e))
    ensures var full := s.head >= CAPACITY && s.head - CAPACITY !in s.h.returned;
            Moved(s, Execute(s, run), j, if full then PushDrop(Full(s.head)) else PushCas(e, s.head))
    ensures (s.head >= CAPACITY && s.head - CAPACITY !in s.h.returned) || s.slots[SlotOf(s.head)].seqNo == s.head
  {
    HeadSlotTells(s);
    InvIsShaped(s);
    hide Inv, Step, Execute, OneCall, SlotOf;
    var call := CallPush(e);
    var a := ThreadAction(j, call);
    run := CallStarts(s, j, call);
    PushEnters(s, j, e, a);
    var r1 := Execute(s, run);
    run := SoloGoesOn(s, run, j, call, PushCheckInit(e));
    PushEnters(r1, j, e, a);
    var r2 := Execute(s, run);
    MovedOn(s, r1, r2, j, PushCheckInit(e), PushLoadHead(e));
    run := SoloGoesOn(s, run, j, call, PushLoadHead(e));
    PushEnters(r2, j, e, a);
    var r3 := Execute(s, run);
    MovedOn(s, r2, r3, j, PushLoadHead(e), PushLoadSeq(e, s.head));
    run := SoloGoesOn(s, run, j, call, PushLoadSeq(e, s.head));
    PushDecides(r3, j, e, a);
    var r4 := Execute(s, run);
    MovedOn(s, r3, r4, j, PushLoadSeq(e, s.head), r4.threads[j]);
  }

  lemma SoloGoesOn(s: State, run: seq<Action>, j: nat, call: Call, pc: Pc) returns (longer: seq<Action>)
    requires |s.slots| == CAPACITY && j < |s.threads| && OneCall(s, run, j, call)
    requires j < |Execute(s, run).threads| && Execute(s, run).threads[j] == pc && !pc.Idle?
    ensures OneCall(s, longer, j, call) && Execute(s, longer) == Step(Execute(s, run), ThreadAction(j, call))
  {
    longer := CallGoesOn(s, run, j, call);
  }

  /** The slot at the head is free, or the ticket one lap back is not handed back. */
  lemma HeadSlotTells(s: State)
    requires Inv(s) && s.initialized
    ensures var q := s.slots[SlotOf(s.head)].seqNo;
            if s.head >= CAPACITY && s.head - CAPACITY !in s.h.returned then q < s.head else q == s.head
  {
    hide SlotOf;
    LapBehind(s, s.head);
    assert SlotOk(s, SlotOf(s.head));
    if s.slots[SlotOf(s.head)].seqNo >= s.head { HeadSlotIsFree(s); }
  }

  /** The call ends where it started: what is left is what it did to the queue. */
  lemma PushIsOver(s: State, r: State, u: State, j: nat, e: Event, pc: Pc)
    requires |s.slots| == CAPACITY && j < |s.threads| && s.threads[j].Idle? && Moved(s, r, j, pc)
    ensures u == WithLog(Goto(WithEvent(r, j, e), j, Idle), u.h.log) ==> u == WithLog(WithEvent(s, j, e), u.h.log)
    ensures u == WithLog(Goto(WithDrop(r), j, Idle), u.h.log) ==> u == WithLog(WithDrop(s), u.h.log)
  {
    assert s.threads[j := pc][j := Idle] == s.threads;
  }

  lemma ThreeSteps(s: State, run: seq<Action>, j: nat, call: Call) returns (longer: seq<Action>)
    requires |s.slots| == CAPACITY && j < |s.threads| && OneCall(s, run, j, call)
    requires var a := ThreadAction(j, call);
             var r := Execute(s, run);
             && j < |r.threads| && !r.threads[j].Idle?
             && !Step(r, a).threads[j].Idle? && !Step(Step(r, a), a).threads[j].Idle?
    ensures OneCall(s, longer, j, call)
    ensures var a := ThreadAction(j, call);
            Execute(s, longer) == Step(Step(Step(Execute(s, run), a), a), a)
  {
    hide Step, Execute, OneCall;
    longer := SoloGoesOn(s, run, j, call, Execute(s, run).threads[j]);
    longer := SoloGoesOn(s, longer, j, call, Execute(s, longer).threads[j]);
    longer := SoloGoesOn(s, longer, j, call, Execute(s, longer).threads[j]);
  }

  /**
    A push that runs undisturbed on an initialised queue, whatever other threads are in the middle of:
    refused and counted if the ticket one lap back is not handed back, otherwise queued and published.
  */
  lemma SoloPush(s: State, j: nat, e: Event) returns (run: seq<Action>)
    requires Inv(s) && s.initialized && j < |s.threads| && s.threads[j].Idle? && s.head < NO_WRAP_LIMIT
    ensures OneCall(s, run, j, CallPush(e))
    ensures var r := Execute(s, run);
            var full := s.head >= 256 && s.head - 256 !in s.h.returned;
            r == WithLog(if full then WithDrop(s) else WithEvent(s, j, e), r.h.log)
  {
    InvIsShaped(s);
    assert s.dropped < U32_SIZE;
    hide Inv, Step, Execute, OneCall, SlotOf, WithEvent, WithDrop;
    var call, a := CallPush(e), ThreadAction(j, CallPush(e));
    run := SoloPushDecides(s, j, e);
    var r := Execute(s, run);
    if s.head >= CAPACITY && s.head - CAPACITY !in s.h.returned {
      DropFinishes(r, j, e, a);
      run := SoloGoesOn(s, run, j, call, PushDrop(Full(s.head)));
      PushIsOver(s, r, Execute(s, run), j, e, PushDrop(Full(s.head)));
    } else {
      PushFinishes(r, j, e, a);
      run := ThreeSteps(s, run, j, call);
      PushIsOver(s, r, Execute(s, run), j, e, PushCas(e, s.head));
    }
  }

  /** Draining is a single step: it takes the whole count and changes nothing else. */
  lemma DrainTakesAll(s: State, j: nat)
    requires |s.slots| == CAPACITY && j < |s.threads| && s.threads[j].Idle?
    ensures Step(s, ThreadAction(j, CallDrainDropped))
            == s.(dropped := 0, h := s.h.(drained := s.h.drained + s.dropped))
  {
  }

  // An undisturbed pop.

  lemma PopEnters(s: State, j: nat, a: Action)
    requires |s.slots| == CAPACITY && j < |s.threads| && a == ThreadAction(j, CallPop)
    ensures s.threads[j].Idle? ==> Moved(s, Step(s, a), j, PopLoadTail)
    ensures s.threads[j] == PopLoadTail ==> Moved(s, Step(s, a), j, PopLoadSeq(s.tail))
  {
    hide SlotOf, Wrap32, LogMove, LogCall;
  }

  lemma PopDecides(s: State, j: nat, a: Action)
    requires |s.slots| == CAPACITY && j < |s.threads| && a == ThreadAction(j, CallPop) && s.tail < NO_WRAP_LIMIT
    requires s.threads[j] == PopLoadSeq(s.tail)
    ensures var q := s.slots[SlotOf(s.tail)].seqNo;
            && (q == s.tail + 1 ==> Moved(s, Step(s, a), j, PopCas(s.tail)))
            && (q < s.tail + 1 ==> Moved(s, Step(s, a), j, Idle))
  {
    hide SlotOf, LogMove, LogCall;
  }

  /** What a pop that finds an event leaves behind: it handed back `pushed[tail]`. */
  function WithoutFirst(s: State, j: nat): State
    requires |s.slots| == CAPACITY && s.tail < |s.h.pushed|
  {
    var e := s.h.pushed[s.tail];
    s.(tail := s.tail + 1, slots := s.slots[s.tail % 256 := Slot(s.tail + 256, e)],
       h := s.h.(popOwner := s.h.popOwner + [j], returned := s.h.returned[s.tail := e]))
  }

  lemma PopFinishes(s: State, j: nat, a: Action)
    requires |s.slots| == CAPACITY && j < |s.threads| && a == ThreadAction(j, CallPop) && s.tail < NO_WRAP_LIMIT
    requires s.threads[j] == PopCas(s.tail) && s.tail < |s.h.pushed|
    requires s.slots[SlotOf(s.tail)] == Slot(s.tail + 1, s.h.pushed[s.tail])
    ensures Step(s, a).threads[j] == PopRead(s.tail)
    ensures Step(Step(s, a), a).threads[j] == PopRelease(s.tail, s.h.pushed[s.tail])
    ensures var r := Step(Step(Step(s, a), a), a);
            r == WithLog(Goto(WithoutFirst(s, j), j, Idle), r.h.log)
  {
    hide LogMove, LogCall;
    var r1 := Step(s, a);
    assert r1 == WithLog(ClaimTail(s, j, s.tail), r1.h.log);
    var r2 := Step(r1, a);
    assert r2 == WithLog(Goto(r1, j, PopRelease(s.tail, s.h.pushed[s.tail])), r2.h.log);
    var r3 := Step(r2, a);
    assert r3 == WithLog(Release(r2, j, s.tail, s.h.pushed[s.tail]), r3.h.log);
    assert r3.threads == s.threads[j := Idle];
    assert r3.slots == s.slots[s.tail % 256 := Slot(s.tail + 256, s.h.pushed[s.tail])];
  }

  /** The slot at the tail holds the next event, or nothing is published there. */
  lemma TailSlotTells(s: State)
    requires Inv(s) && s.initialized
    ensures if s.tail == s.head || TailUnpublished(s) then s.slots[SlotOf(s.tail)].seqNo < s.tail + 1
            else s.slots[SlotOf(s.tail)] == Slot(s.tail + 1, s.h.pushed[s.tail])
  {
    hide SlotOf;
    assert SlotOk(s, SlotOf(s.tail));
    if s.tail < s.head {
      LiveTicket(s, s.tail);
      if TailUnpublished(s) { assert ThreadOk(s, s.h.pushOwner[s.tail]); }
    } else if s.slots[SlotOf(s.tail)].seqNo >= s.tail + 1 {
      TailSlotIsPublished(s);
    }
  }

  lemma SoloPopDecides(s: State, j: nat) returns (run: seq<Action>)
    requires Inv(s) && s.initialized && j < |s.threads| && s.threads[j].Idle? && s.head <= NO_WRAP_LIMIT
    requires s.tail < NO_WRAP_LIMIT
    ensures OneCall(s, run, j, CallPop)
    ensures Moved(s, Execute(s, run), j, if s.tail == s.head || TailUnpublished(s) then Idle else PopCas(s.tail))
  {
    TailSlotTells(s);
    InvIsShaped(s);
    hide Inv, Step, Execute, OneCall, SlotOf, TailUnpublished;
    var a := ThreadAction(j, CallPop);
    run := CallStarts(s, j, CallPop);
    PopEnters(s, j, a);
    var r1 := Execute(s, run);
    run := SoloGoesOn(s, run, j, CallPop, PopLoadTail);
    PopEnters(r1, j, a);
    var r2 := Execute(s, run);
    MovedOn(s, r1, r2, j, PopLoadTail, PopLoadSeq(s.tail));
    run := SoloGoesOn(s, run, j, CallPop, PopLoadSeq(s.tail));
    PopDecides(r2, j, a);
    var r3 := Execute(s, run);
    MovedOn(s, r2, r3, j, PopLoadSeq(s.tail), r3.threads[j]);
  }

  /**
    A pop that runs undisturbed on an initialised queue: it hands back the event of ticket `tail` and
    releases its slot, or changes nothing if the queue is empty or that event is not yet published.
  */
  lemma SoloPop(s: State, j: nat) returns (run: seq<Action>)
    requires Inv(s) && s.initialized && j < |s.threads| && s.threads[j].Idle? && s.head <= NO_WRAP_LIMIT
    requires s.tail < NO_WRAP_LIMIT
    ensures OneCall(s, run, j, CallPop)
    ensures s.tail == s.head || TailUnpublished(s) || s.tail < |s.h.pushed|
    ensures var r := Execute(s, run);
            r == WithLog(if s.tail == s.head || TailUnpublished(s) then s else WithoutFirst(s, j), r.h.log)
  {
    TailSlotTells(s);
    InvIsShaped(s);
    hide Inv, Step, Execute, OneCall, SlotOf, TailUnpublished, WithoutFirst;
    run := SoloPopDecides(s, j);
    var r := Execute(s, run);
    if s.tail < s.head && !TailUnpublished(s) {
      PopFinishes(r, j, ThreadAction(j, CallPop));
      run := ThreeSteps(s, run, j, CallPop);
      PopIsOver(s, r, Execute(s, run), j);
    } else {
      assert s.threads[j := Idle] == s.threads;
    }
  }

  lemma PopIsOver(s: State, r: State, u: State, j: nat)
    requires |s.slots| == CAPACITY && j < |s.threads| && s.threads[j].Idle? && Moved(s, r, j, PopCas(s.tail))
    requires s.tail < |s.h.pushed| && u == WithLog(Goto(WithoutFirst(r, j), j, Idle), u.h.log)
    ensures u == WithLog(WithoutFirst(s, j), u.h.log)
  {
    assert s.threads[j := PopCas(s.tail)][j := Idle] == s.threads;
  }
}
