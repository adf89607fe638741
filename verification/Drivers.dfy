/**
  Driver teardown: the MMIO windows and MSI leases of drivers, and the exit path that revokes
  everything a driver process holds.

  Bus-master control, link retraining, interrupt routing and the IOMMU domain registry are
  hardware or belong to other components; they do not touch the tables below.
*/
module Drivers {
  import opened Wrappers
  import opened Seqs
  import opened Words
  import opened DmaTables
  import Claims
  import Dma

  // ---------------------------------------------------------------- MMIO windows

  datatype MmioRecord = MmioRecord(pid: nat, physBase: nat, size: nat, mapBase: nat, virtBase: nat, mapSize: nat)

  function WindowsOfOthers(pid: nat): MmioRecord -> bool { (r: MmioRecord) => r.pid != pid }

  predicate IsWindow(w: MmioRecord, pid: nat, virt: nat, size: nat)
  {
    w.pid == pid && w.virtBase == virt && w.size == size
  }

  class MmioTable {
    var windows: seq<MmioRecord>
    /** Windows whose pages were unmapped, counted. */
    ghost var unmapped: multiset<MmioRecord>

    /** Removes the first window with this process, address and size. */
    method Unmap(pid: nat, virt: nat, size: nat) returns (ok: bool)
      modifies this
      ensures ok <==> exists w :: w in old(windows) && IsWindow(w, pid, virt, size)
      ensures !ok ==> windows == old(windows) && unmapped == old(unmapped)
      ensures ok ==> exists i :: 0 <= i < |old(windows)| && IsWindow(old(windows)[i], pid, virt, size)
                       && (forall k :: 0 <= k < i ==> !IsWindow(old(windows)[k], pid, virt, size))
                       && windows == old(windows)[..i] + old(windows)[i + 1..]
                       && unmapped == old(unmapped) + multiset{old(windows)[i]}
    {
      for i := 0 to |windows|
        invariant windows == old(windows) && unmapped == old(unmapped)
        invariant forall k :: 0 <= k < i ==> !IsWindow(windows[k], pid, virt, size)
      {
        if IsWindow(windows[i], pid, virt, size) {
          unmapped := unmapped + multiset{windows[i]};
          windows := windows[..i] + windows[i + 1..];
          return true;
        }
      }
      return false;
    }

    /** Unmaps every window of pid once and leaves the others in place. */
    method RevokeAllMmio(pid: nat)
      modifies this
      ensures windows == Retain(old(windows), WindowsOfOthers(pid))
      ensures multiset(windows) + unmapped == multiset(old(windows)) + old(unmapped)
    {
      hide Retain;
      var drained := Drain(pid);
      for k := 0 to |drained|
        invariant windows == Retain(old(windows), WindowsOfOthers(pid))
        invariant unmapped == old(unmapped) + multiset(drained[..k])
      {
        assert drained[..k + 1] == drained[..k] + [drained[k]];
        unmapped := unmapped + multiset{drained[k]};
      }
      assert drained[..|drained|] == drained;
    }

    /** Moves the windows of pid out of the table. */
    method Drain(pid: nat) returns (drained: seq<MmioRecord>)
      modifies this`windows
      ensures windows == Retain(old(windows), WindowsOfOthers(pid))
      ensures multiset(windows) + multiset(drained) == multiset(old(windows))
    {
      hide Draining, Retain;
      var idx := 0;
      drained := [];
      ghost var n, before, keep := 0, windows, WindowsOfOthers(pid);
      DrainStart(before, keep);
      while idx < |windows|
        invariant Draining(before, n, keep, windows, idx, drained)
        decreases |before| - n
      {
        DrainStep(before, n, keep, windows, idx, drained);
        if windows[idx].pid == pid {
          drained := drained + [windows[idx]];
          windows := windows[..idx] + windows[idx + 1..];
        } else {
          idx := idx + 1;
        }
        n := n + 1;
      }
      DrainEnd(before, n, keep, windows, idx, drained);
    }
  }

  // ---------------------------------------------------------------- MSI leases

  const MAX_MSI_HANDLES: nat := 256

  datatype MsiError = NotFound | TableFull | AmbiguousClaim | InvalidParams

  datatype Lease = Lease(handle: u64, pid: nat, count: nat, configured: set<nat>)

  function LeasesOfOthers(pid: nat): Lease -> bool { (l: Lease) => l.pid != pid }

  /** Handles grow with the position and stay below the counter; only vectors of the lease are configured. */
  ghost predicate Ordered(leases: seq<Lease>, next: nat)
  {
    && |leases| <= MAX_MSI_HANDLES
    && (forall i, j :: 0 <= i < j < |leases| ==> leases[i].handle < leases[j].handle)
    && (forall i :: 0 <= i < |leases| ==>
          leases[i].handle < next && forall v :: v in leases[i].configured ==> v < leases[i].count)
  }

  lemma OrderedAfterRetain(leases: seq<Lease>, next: nat, pid: nat)
    requires Ordered(leases, next)
    ensures Ordered(Retain(leases, LeasesOfOthers(pid)), next)
  {
    var keep := LeasesOfOthers(pid);
    var kept := Retain(leases, keep);
    forall i, j | 0 <= i < j < |kept| ensures kept[i].handle < kept[j].handle {
      var p, q := RetainOrder(leases, keep, i, j);
    }
    forall i | 0 <= i < |kept| ensures kept[i] in leases {
      var p := RetainPosition(leases, keep, i);
    }
    RetainShrinks(leases, keep);
  }

  function WithoutLease(leases: seq<Lease>, pos: nat): (r: seq<Lease>)
    requires pos < |leases|
    ensures |r| == |leases| - 1 && forall k :: 0 <= k < |r| ==> r[k] == leases[if k < pos then k else k + 1]
  {
    leases[..pos] + leases[pos + 1..]
  }

  lemma OrderedWithout(leases: seq<Lease>, next: nat, pos: nat)
    requires Ordered(leases, next) && pos < |leases|
    ensures Ordered(WithoutLease(leases, pos), next)
  {
    hide WithoutLease;
  }

  /** Handles are unique, so taking out one lease takes out that handle. */
  lemma LeaseGone(leases: seq<Lease>, next: nat, pos: nat, l: Lease)
    requires Ordered(leases, next) && pos < |leases|
    ensures l in WithoutLease(leases, pos) <==> l in leases && l.handle != leases[pos].handle
  {
    hide WithoutLease;
    var rest := WithoutLease(leases, pos);
    if l in rest {
      var k :| 0 <= k < |rest| && rest[k] == l;
      assert l == leases[if k < pos then k else k + 1];
    }
    if l in leases && l.handle != leases[pos].handle {
      var k :| 0 <= k < |leases| && leases[k] == l;
      assert rest[if k < pos then k else k - 1] == l;
    }
  }

  class MsiTable {
    var leases: seq<Lease>
    var next: u64

    constructor ()
      ensures leases == [] && Ordered(leases, next)
    {
      leases, next := [], 1;
    }

    /** A new lease under a handle no live lease has, while the handle counter has not wrapped. */
    method Alloc(pid: nat, count: nat, bdf: Option<Claims.Bdf>) returns (r: Result<u64, MsiError>)
      requires Ordered(leases, next)
      modifies this
      ensures r == if count == 0 || count > 64 then Err(InvalidParams)
                   else if bdf.None? then Err(AmbiguousClaim)
                   else if |old(leases)| >= MAX_MSI_HANDLES then Err(TableFull)
                   else Ok(old(next))
      ensures leases == if r.Ok? then old(leases) + [Lease(r.value, pid, count, {})] else old(leases)
      ensures next == if r.Ok? then (old(next) + 1) % U64_SIZE else old(next)
      ensures r.Ok? ==> forall l :: l in old(leases) ==> l.handle != r.value
      ensures old(next) + 1 < U64_SIZE ==> Ordered(leases, next)
    {
      if count == 0 || count > 64 {
        return Err(InvalidParams);
      }
      if bdf.None? {
        return Err(AmbiguousClaim);
      }
      if |leases| >= MAX_MSI_HANDLES {
        return Err(TableFull);
      }
      var handle := next;
      next := if next + 1 < U64_SIZE then next + 1 else 0;
      leases := leases + [Lease(handle, pid, count, {})];
      return Ok(handle);
    }

    /** Configures a vector exactly when some lease has this handle, this owner and this vector. */
    method Config(pid: nat, handle: u64, vector: nat) returns (r: Result<(), MsiError>)
      requires Ordered(leases, next)
      modifies this`leases
      ensures Ordered(leases, next) && |leases| == |old(leases)|
      ensures r.Ok? <==> exists l :: l in old(leases) && l.handle == handle && l.pid == pid && vector < l.count
      ensures r == Err(InvalidParams) <==>
              exists l :: l in old(leases) && l.handle == handle && l.pid == pid && vector >= l.count
      ensures r.Err? ==> r.error == InvalidParams || r.error == NotFound
      ensures forall i :: 0 <= i < |leases| ==>
                leases[i] == if r.Ok? && old(leases)[i].handle == handle
                             then old(leases)[i].(configured := old(leases)[i].configured + {vector})
                             else old(leases)[i]
    {
      var i := 0;
      while i < |leases| && leases[i].handle != handle
        invariant i <= |leases| && forall k :: 0 <= k < i ==> leases[k].handle != handle
      {
        i := i + 1;
      }
      if i == |leases| || leases[i].pid != pid {
        return Err(NotFound);
      }
      if vector >= leases[i].count {
        return Err(InvalidParams);
      }
      leases := leases[i := leases[i].(configured := leases[i].configured + {vector})];
      return Ok(());
    }

    /** Gives up the lease with this handle, when the caller owns it. */
    method Free(pid: nat, handle: u64) returns (r: Result<(), MsiError>)
      requires Ordered(leases, next)
      modifies this`leases
      ensures Ordered(leases, next)
      ensures r.Ok? <==> exists l :: l in old(leases) && l.handle == handle && l.pid == pid
      ensures r.Err? ==> r.error == NotFound && leases == old(leases)
      ensures r.Ok? ==> forall l :: l in leases <==> l in old(leases) && l.handle != handle
    {
      var pos := 0;
      while pos < |leases| && !(leases[pos].handle == handle && leases[pos].pid == pid)
        invariant pos <= |leases| && forall k :: 0 <= k < pos ==> !(leases[k].handle == handle && leases[k].pid == pid)
      {
        pos := pos + 1;
      }
      if pos == |leases| {
        return Err(NotFound);
      }
      hide Ordered;
      OrderedWithout(leases, next, pos);
      forall l ensures l in WithoutLease(leases, pos) <==> l in leases && l.handle != leases[pos].handle {
        LeaseGone(leases, next, pos, l);
      }
      leases := leases[..pos] + leases[pos + 1..];
      return Ok(());
    }

    method ReleaseAllForPid(pid: nat) returns (released: nat)
      requires Ordered(leases, next)
      modifies this`leases
      ensures Ordered(leases, next)
      ensures leases == Retain(old(leases), LeasesOfOthers(pid)) && released == |old(leases)| - |leases|
    {
      var kept: seq<Lease> := [];
      ghost var keep := LeasesOfOthers(pid);
      for i := 0 to |leases|
        invariant leases == old(leases) && kept == Retain(leases[..i], keep)
      {
        assert leases[..i + 1] == leases[..i] + [leases[i]];
        RetainSnoc(leases[..i], leases[i], keep);
        if leases[i].pid != pid {
          kept := kept + [leases[i]];
        }
      }
      assert leases[..|leases|] == leases;
      OrderedAfterRetain(leases, next, pid);
      RetainShrinks(leases, keep);
      released := |leases| - |kept|;
      leases := kept;
    }
  }

  // ---------------------------------------------------------------- exit

  class DriverManager {
    const dma: Dma.Manager
    const mmio: MmioTable
    const msi: MsiTable
    const claims: Claims.ClaimTable

    constructor (dma: Dma.Manager, mmio: MmioTable, msi: MsiTable, claims: Claims.ClaimTable)
      ensures this.dma == dma && this.mmio == mmio && this.msi == msi && this.claims == claims
    {
      this.dma, this.mmio, this.msi, this.claims := dma, mmio, msi, claims;
    }

    /** Removes everything of pid from every table, and nothing else from any. */
    method DriverDoExit(pid: nat)
      requires dma.MapsOk() && dma.SlotsOk() && Ordered(msi.leases, msi.next)
      modifies dma, dma.allocs, mmio, msi, claims
      ensures dma.MapsOk() && dma.SlotsOk() && Ordered(msi.leases, msi.next)
      ensures dma.exclusive == old(dma.exclusive)
      ensures dma.leaked == old(dma.leaked) && dma.strayed == old(dma.strayed)
      ensures dma.records == Retain(old(dma.records), MapsOfOthers(pid))
      ensures dma.slots == ClearPid(old(dma.slots), pid)
      ensures dma.iovas == old(dma.iovas) - MapKeysOf(old(dma.records), pid) - AllocKeysOf(old(dma.slots), pid)
      ensures dma.handedOut == old(dma.handedOut)
              && dma.givenBack == old(dma.givenBack) + AllocBlocksOf(old(dma.slots), pid)
      ensures mmio.windows == Retain(old(mmio.windows), WindowsOfOthers(pid))
              && multiset(mmio.windows) + mmio.unmapped == multiset(old(mmio.windows)) + old(mmio.unmapped)
      ensures msi.leases == Retain(old(msi.leases), LeasesOfOthers(pid))
      ensures claims.claims == Retain(old(claims.claims), Claims.OthersThan(pid))
    {
      hide Consistent, Conserved, Reserved, Ordered, Retain, ClearPid, MapKeysOf, AllocKeysOf, AllocBlocksOf;
      var _ := dma.RevokeAllMapForPid(pid);
      var _ := dma.RevokeAllAllocForPid(pid);
      mmio.RevokeAllMmio(pid);
      var _ := msi.ReleaseAllForPid(pid);
      claims.RevokeClaimsForPid(pid);
    }
  }

  /** After an exit a frame keeps exactly the references of the remaining records. */
  lemma {:induction false} PinsAfterExit(records: seq<DmaRecord>, pins: seq<PinnedFrame>, pid: nat, f: Frame)
    requires Counts(pins, HeldFrames(Retain(records, MapsOfOthers(pid))))
    ensures RefsOf(pins, f) == UsesByOthers(records, pid, f)
  {
    HeldByOthers(records, pid, f);
  }

  /** How often f occurs in the records of processes other than pid. */
  function UsesByOthers(records: seq<DmaRecord>, pid: nat, f: Frame): nat
  {
    if records == [] then 0
    else
      var last := records[|records| - 1];
      UsesByOthers(records[..|records| - 1], pid, f) + if last.pid != pid then multiset(last.frames)[f] else 0
  }

  lemma {:induction false} HeldByOthers(records: seq<DmaRecord>, pid: nat, f: Frame)
    ensures HeldFrames(Retain(records, MapsOfOthers(pid)))[f] == UsesByOthers(records, pid, f)
  {
    if records != [] {
      var rest, last := records[..|records| - 1], records[|records| - 1];
      HeldByOthers(rest, pid, f);
      HeldLast(Retain(rest, MapsOfOthers(pid)), last, f);
      assert Retain(rest, MapsOfOthers(pid)) + [] == Retain(rest, MapsOfOthers(pid));
    }
  }

  /** After an exit no table knows pid, and every entry of another process is still there. */
  lemma NothingLeft(records: seq<DmaRecord>, slots: seq<Option<AllocRecord>>, windows: seq<MmioRecord>,
                    leases: seq<Lease>, claims: seq<Claims.Claim>, pid: nat)
    ensures forall r :: r in Retain(records, MapsOfOthers(pid)) <==> r in records && r.pid != pid
    ensures forall s :: s in ClearPid(slots, pid) && s.Some? <==> s in slots && s.Some? && s.value.pid != pid
    ensures forall w :: w in Retain(windows, WindowsOfOthers(pid)) <==> w in windows && w.pid != pid
    ensures forall l :: l in Retain(leases, LeasesOfOthers(pid)) <==> l in leases && l.pid != pid
    ensures forall c :: c in Retain(claims, Claims.OthersThan(pid)) <==> c in claims && c.owner != pid
  {
    forall r ensures r in Retain(records, MapsOfOthers(pid)) <==> r in records && r.pid != pid {
      RetainMember(records, MapsOfOthers(pid), r);
    }
    forall w ensures w in Retain(windows, WindowsOfOthers(pid)) <==> w in windows && w.pid != pid {
      RetainMember(windows, WindowsOfOthers(pid), w);
    }
    forall l ensures l in Retain(leases, LeasesOfOthers(pid)) <==> l in leases && l.pid != pid {
      RetainMember(leases, LeasesOfOthers(pid), l);
    }
    forall c ensures c in Retain(claims, Claims.OthersThan(pid)) <==> c in claims && c.owner != pid {
      RetainMember(claims, Claims.OthersThan(pid), c);
    }
    forall s | s in slots && s.Some? && s.value.pid != pid ensures s in ClearPid(slots, pid) {
      var i :| 0 <= i < |slots| && slots[i] == s;
      assert ClearPid(slots, pid)[i] == s;
    }
  }
}
