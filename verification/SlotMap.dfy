/**
  The core-to-slot map the freeze protocol rests on: `APIC_TO_SLOT` is filled from the MADT, read
  back through `apic_slot`, and walked by the ack loops, which visit each slot once by means of a
  256-bit set held in four words.
*/
module SlotMap {
  import opened Wrappers
  import opened FreezeProtocol

  const UNASSIGNED: nat := 0xFF
  const MAX_CORES: nat := 256

  // ---------------------------------------------------------------- building the map

  /** The last of the first n MADT entries with this APIC id, or -1. */
  function LastListed(apicIds: seq<nat>, n: nat, apic: nat): (i: int)
    requires n <= |apicIds|
    ensures -1 <= i < n
    ensures i >= 0 ==> apicIds[i] == apic && forall k :: i < k < n ==> apicIds[k] != apic
    ensures i < 0 ==> forall k :: 0 <= k < n ==> apicIds[k] != apic
  {
    if n == 0 then -1 else if apicIds[n - 1] == apic then n - 1 else LastListed(apicIds, n - 1, apic)
  }

  /** The entry of one APIC id after the first n MADT entries have been stored. */
  function SlotEntry(apicIds: seq<nat>, n: nat, apic: nat): nat
    requires n <= |apicIds|
  {
    var i := LastListed(apicIds, n, apic);
    if i < 0 then UNASSIGNED else i
  }

  /** How many of the first n ids fit in eight bits. */
  function CountLow(apicIds: seq<nat>, n: nat): (c: nat)
    requires n <= |apicIds|
    ensures c == |set i | 0 <= i < n && apicIds[i] < 256|
  {
    LowNext(apicIds, n);
    if n == 0 then 0 else CountLow(apicIds, n - 1) + (if apicIds[n - 1] < 256 then 1 else 0)
  }

  lemma LowNext(apicIds: seq<nat>, n: nat)
    requires n <= |apicIds|
    ensures n > 0 ==> (set i | 0 <= i < n && apicIds[i] < 256)
                      == (set i | 0 <= i < n - 1 && apicIds[i] < 256) + if apicIds[n - 1] < 256 then {n - 1} else {}
  {
  }

  function Considered(apicIds: seq<nat>): nat { if |apicIds| < 256 then |apicIds| else 256 }

  /**
    Fills the table from the MADT.  `madt` is None when there is no MADT, and otherwise lists the
    APIC id of each CPU; `bspApic` is the id of the booting core, used when no entry fits.
  */
  method BuildApicToSlot(table: array<nat>, madt: Option<seq<nat>>, bspApic: nat) returns (mapped: nat)
    requires table.Length == 256
    modifies table
    ensures madt.None? ==> mapped == 0 && forall a :: 0 <= a < 256 ==> table[a] == UNASSIGNED
    ensures madt.Some? ==>
              var ids := madt.value;
              var low := CountLow(ids, Considered(ids));
              mapped == (if low == 0 then 1 else low)
              && forall a :: 0 <= a < 256 ==>
                   table[a] == if low == 0 && a == bspApic % 256 then 0 else SlotEntry(ids, Considered(ids), a)
  {
    for a := 0 to 256
      invariant forall b :: 0 <= b < a ==> table[b] == UNASSIGNED
    {
      table[a] := UNASSIGNED;
    }
    if madt.None? {
      return 0;
    }
    var ids := madt.value;
    mapped := 0;
    for idx := 0 to Considered(ids)
      invariant mapped == CountLow(ids, idx)
      invariant forall a :: 0 <= a < 256 ==> table[a] == SlotEntry(ids, idx, a)
    {
      var apicId := ids[idx];
      if apicId < 256 {
        table[apicId] := idx;
        mapped := mapped + 1;
      }
    }
    if mapped == 0 {
      table[bspApic % 256] := 0;
      mapped := 1;
    }
  }

  function ApicSlot(table: seq<nat>, apic: nat): Option<nat>
    requires |table| == 256
  {
    if table[apic % 256] == UNASSIGNED then None else Some(table[apic % 256])
  }

  ghost predicate Distinct(s: seq<nat>) { forall i, j :: 0 <= i < j < |s| ==> s[i] != s[j] }

  /** A MADT whose CPUs have distinct 8-bit APIC ids. */
  ghost predicate PlainMadt(ids: seq<nat>)
  {
    ids != [] && Distinct(ids) && forall i :: 0 <= i < |ids| ==> ids[i] < 256
  }

  /** What `BuildApicToSlot` leaves in the table for a MADT with at least one 8-bit APIC id. */
  ghost predicate BuiltFrom(table: seq<nat>, ids: seq<nat>)
  {
    |table| == 256 && forall a :: 0 <= a < 256 ==> table[a] == SlotEntry(ids, Considered(ids), a)
  }

  lemma {:induction false} DistinctBound(ids: seq<nat>, n: nat)
    requires Distinct(ids) && forall i :: 0 <= i < |ids| ==> ids[i] < n
    ensures |ids| <= n
    decreases |ids|
  {
    if ids != [] {
      var last := ids[|ids| - 1];
      var rest := ids[..|ids| - 1];
      // Move the largest value, n - 1, out of the way.
      var moved := seq(|rest|, i requires 0 <= i < |rest| => if rest[i] == n - 1 then last else rest[i]);
      forall i | 0 <= i < |moved| ensures moved[i] < n - 1 {
        assert rest[i] != last;
      }
      DistinctBound(moved, n - 1);
    }
  }

  lemma PlainEntry(table: seq<nat>, ids: seq<nat>, i: nat)
    requires PlainMadt(ids) && BuiltFrom(table, ids) && i < |ids| && |ids| <= 256
    ensures ApicSlot(table, ids[i]) == if i == UNASSIGNED then None else Some(i)
  {
    assert LastListed(ids, |ids|, ids[i]) == i;
  }

  /**
    Every CPU of a plain MADT is found under its own slot if and only if there are at most 255 of
    them: slot 255 is stored as the value that means "unassigned".
  */
  lemma EveryCpuHasItsSlotExactlyWhen(table: seq<nat>, ids: seq<nat>)
    requires PlainMadt(ids) && BuiltFrom(table, ids)
    ensures (forall i :: 0 <= i < |ids| ==> ApicSlot(table, ids[i]) == Some(i)) <==> |ids| <= 255
  {
    DistinctBound(ids, 256);
    if |ids| <= 255 {
      forall i | 0 <= i < |ids| ensures ApicSlot(table, ids[i]) == Some(i) { PlainEntry(table, ids, i); }
    } else {
      PlainEntry(table, ids, 255);
    }
  }

  /** A full machine with the ids 0 to 255: its last core has no slot. */
  lemma LastCoreHasNoSlot(table: seq<nat>)
    requires BuiltFrom(table, seq(256, i => i))
    ensures ApicSlot(table, 255) == None
  {
    PlainEntry(table, seq(256, i => i), 255);
  }

  /** Conversely, an APIC id that resolves to a slot is the id of that slot's CPU. */
  lemma SlotBelongsToItsCpu(table: seq<nat>, ids: seq<nat>, apic: nat)
    requires PlainMadt(ids) && BuiltFrom(table, ids) && apic < 256 && ApicSlot(table, apic).Some?
    ensures ApicSlot(table, apic).value < |ids| && ids[ApicSlot(table, apic).value] == apic
  {
  }

  // ---------------------------------------------------------------- visiting each slot once

  /** A 64-bit word, lowest bit first. */
  type Word = w: seq<bool> | |w| == 64 witness seq(64, _ => false)

  ghost function Seen(words: seq<Word>): set<nat>
    requires |words| == 4
  {
    set slot: nat | 0 <= slot < MAX_CORES && words[slot / 64][slot % 64]
  }

  method TakeSlotOnce(seen: array<Word>, slot: nat) returns (first: bool)
    requires seen.Length == 4
    modifies seen
    ensures first <==> slot < MAX_CORES && slot !in old(Seen(seen[..]))
    ensures Seen(seen[..]) == old(Seen(seen[..])) + (if slot < MAX_CORES then {slot} else {})
  {
    if slot >= MAX_CORES {
      return false;
    }
    var word, bit := slot / 64, slot % 64;
    var wasSeen := seen[word][bit];
    seen[word] := seen[word][bit := true];
    first := !wasSeen;
    forall s: nat | s < MAX_CORES && s != slot
      ensures seen[s / 64][s % 64] == old(seen[s / 64])[s % 64]
    {
      if s / 64 == word { assert s % 64 != bit; }
    }
  }

  /** The slots found from APIC id `apic` on, in the order of their first APIC id, without `self` and `seen`. */
  function TargetsFrom(table: seq<nat>, self: Option<nat>, apic: nat, seen: set<nat>): (order: seq<nat>)
    requires |table| == 256 && apic <= 256
    decreases 256 - apic
  {
    if apic == 256 then []
    else
      match ApicSlot(table, apic)
      case None => TargetsFrom(table, self, apic + 1, seen)
      case Some(slot) =>
        if Some(slot) == self || slot >= MAX_CORES || slot in seen then TargetsFrom(table, self, apic + 1, seen)
        else [slot] + TargetsFrom(table, self, apic + 1, seen + {slot})
  }

  function Targets(table: seq<nat>, self: Option<nat>): seq<nat>
    requires |table| == 256
  {
    TargetsFrom(table, self, 0, {})
  }

  /** Slot is mapped by some APIC id in [from, 256). */
  ghost predicate Mapped(table: seq<nat>, from: nat, slot: nat)
    requires |table| == 256
  {
    exists apic: nat :: from <= apic < 256 && ApicSlot(table, apic) == Some(slot)
  }

  lemma {:induction false} TargetsFromAreExact(table: seq<nat>, self: Option<nat>, apic: nat, seen: set<nat>)
    requires |table| == 256 && apic <= 256
    ensures var order := TargetsFrom(table, self, apic, seen);
            Distinct(order)
            && forall slot: nat :: slot in order <==>
                 Mapped(table, apic, slot) && slot < MAX_CORES && Some(slot) != self && slot !in seen
    decreases 256 - apic
  {
    if apic < 256 {
      var here := ApicSlot(table, apic);
      forall slot: nat ensures Mapped(table, apic, slot) <==> here == Some(slot) || Mapped(table, apic + 1, slot) {}
      if here.None? || here == self || here.value >= MAX_CORES || here.value in seen {
        TargetsFromAreExact(table, self, apic + 1, seen);
      } else {
        TargetsFromAreExact(table, self, apic + 1, seen + {here.value});
      }
    }
  }

  /**
    However the APIC ids alias, the loops visit every mapped slot other than the caller's exactly
    once and no other slot.
  */
  lemma TargetsAreExact(table: seq<nat>, self: Option<nat>)
    requires |table| == 256
    ensures Distinct(Targets(table, self))
    ensures forall slot: nat :: slot in Targets(table, self) <==>
              Mapped(table, 0, slot) && slot < MAX_CORES && Some(slot) != self
  {
    TargetsFromAreExact(table, self, 0, {});
  }

  /** For a plain MADT of at most 255 CPUs the targets are all slots but the caller's. */
  lemma PlainTargets(table: seq<nat>, ids: seq<nat>, self: Option<nat>)
    requires PlainMadt(ids) && BuiltFrom(table, ids) && |ids| <= 255
    ensures Distinct(Targets(table, self))
    ensures forall slot: nat :: slot in Targets(table, self) <==> slot < |ids| && Some(slot) != self
  {
    TargetsAreExact(table, self);
    EveryCpuHasItsSlotExactlyWhen(table, ids);
    forall slot: nat ensures Mapped(table, 0, slot) <==> slot < |ids| {
      if slot < |ids| { assert ApicSlot(table, ids[slot]) == Some(slot); }
      if Mapped(table, 0, slot) {
        var apic: nat :| apic < 256 && ApicSlot(table, apic) == Some(slot);
        SlotBelongsToItsCpu(table, ids, apic);
      }
    }
  }

  /** On such a machine the walk is an order the freeze protocol can use, and it leaves out no core. */
  lemma PlainOrderFitsProtocol(table: seq<nat>, ids: seq<nat>, self: Option<nat>, s: State)
    requires PlainMadt(ids) && BuiltFrom(table, ids) && |ids| <= 255
    requires s.order == Targets(table, self) && |s.cores| == |s.acks| == |ids|
    ensures WellFormed(s) && forall core: nat :: IsTargetCore(s, core) <==> core < |ids| && Some(core) != self
  {
    PlainTargets(table, ids, self);
    forall k | 0 <= k < |s.order| ensures s.order[k] < |s.cores| { assert s.order[k] in s.order; }
  }

  // ---------------------------------------------------------------- the ack loops

  method NoSlotSeen() returns (seen: array<Word>)
    ensures fresh(seen) && seen.Length == 4 && Seen(seen[..]) == {}
  {
    seen := new Word[4](_ => seq(64, _ => false));
  }

  /** One turn of the loop: either nothing is visited, or the slot of `apic` is next. */
  lemma NextTarget(table: seq<nat>, self: Option<nat>, apic: nat, taken: set<nat>)
    requires |table| == 256 && apic < 256
    ensures var slot := ApicSlot(table, apic);
            TargetsFrom(table, self, apic, taken) ==
            if slot.Some? && slot != self && slot.value < MAX_CORES && slot.value !in taken
            then [slot.value] + TargetsFrom(table, self, apic + 1, taken + {slot.value})
            else TargetsFrom(table, self, apic + 1, taken)
  {
  }

  /** The walk shared by the ack loops: APIC ids upwards, each slot once, the caller's own slot never. */
  method VisitTargets(table: seq<nat>, self: Option<nat>) returns (visited: seq<nat>)
    requires |table| == 256
    ensures visited == Targets(table, self)
  {
    hide TargetsFrom, Seen;
    visited := [];
    var seen := NoSlotSeen();
    ghost var taken: set<nat> := {};
    for apic := 0 to 256
      invariant fresh(seen) && seen.Length == 4 && Seen(seen[..]) == taken
      invariant Targets(table, self) == visited + TargetsFrom(table, self, apic, taken)
    {
      NextTarget(table, self, apic, taken);
      var slot := ApicSlot(table, apic);
      if slot.Some? && slot != self {
        var first := TakeSlotOnce(seen, slot.value);
        if first {
          taken := taken + {slot.value};
          visited := visited + [slot.value];
        }
      }
    }
    NoTargetLeft(table, self, taken);
  }

  lemma NoTargetLeft(table: seq<nat>, self: Option<nat>, taken: set<nat>)
    requires |table| == 256
    ensures TargetsFrom(table, self, 256, taken) == []
  {
  }

  /** Clears the ack word of every target, and no other. */
  method ResetFreezeAcks(table: seq<nat>, self: Option<nat>, acks: array<nat>)
    requires |table| == 256 && acks.Length == MAX_CORES
    modifies acks
    ensures forall slot: nat :: slot < MAX_CORES ==>
              acks[slot] == if Mapped(table, 0, slot) && Some(slot) != self then 0 else old(acks[slot])
  {
    hide Targets, Mapped;
    TargetsAreExact(table, self);
    var targets := VisitTargets(table, self);
    for k := 0 to |targets|
      invariant forall slot :: 0 <= slot < MAX_CORES ==>
                  acks[slot] == if slot in targets[..k] then 0 else old(acks[slot])
    {
      assert targets[k] in targets;
      acks[targets[k]] := 0;
      assert targets[..k + 1] == targets[..k] + [targets[k]];
    }
    assert targets[..|targets|] == targets;
  }

  /** True exactly when every mapped slot other than the caller's has acked. */
  method AllFreezeAcksObserved(table: seq<nat>, self: Option<nat>, acks: seq<nat>) returns (allOk: bool)
    requires |table| == 256 && |acks| == MAX_CORES
    ensures allOk <==>
            forall slot: nat :: slot < MAX_CORES && Mapped(table, 0, slot) && Some(slot) != self ==> Acked(acks[slot])
  {
    hide Targets, Mapped;
    TargetsAreExact(table, self);
    var targets := VisitTargets(table, self);
    allOk := true;
    for k := 0 to |targets|
      invariant allOk <==> forall m :: 0 <= m < k ==> targets[m] < MAX_CORES && Acked(acks[targets[m]])
    {
      assert targets[k] in targets;
      if allOk && !Acked(acks[targets[k]]) {
        allOk := false;
      }
    }
    if allOk {
      forall slot: nat | slot < MAX_CORES && Mapped(table, 0, slot) && Some(slot) != self ensures Acked(acks[slot]) {
        assert slot in targets;
      }
    } else {
      var m :| 0 <= m < |targets| && !(targets[m] < MAX_CORES && Acked(acks[targets[m]]));
      assert targets[m] in targets;
    }
  }
}
