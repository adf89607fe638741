/**
  Exclusive claims of physical ranges by driver processes.

  The table is a vector updated in place.  Process capabilities, PCI base registers and process
  generations are read from elsewhere and enter as arguments; the firmware memory map is a list of
  regions.
*/
module Claims {
  import opened Wrappers
  import opened Seqs
  import opened Words

  datatype Bdf = Bdf(bus: nat, dev: nat, func: nat)

  datatype Claim = Claim(base: u64, size: u64, owner: nat, generation: nat, bdf: Option<Bdf>)

  datatype RegionKind = Reserved | Usable | KernelImage | OtherKind

  datatype Region = Region(base: nat, end: nat, kind: RegionKind)

  datatype ClaimError = PermissionDenied | NotInHardwareRegion | PhysIsRam | AlreadyClaimed

  predicate Overlaps(c: Claim, base: u64, size: u64)
  {
    !(SaturatingAdd(c.base, c.size) <= base || SaturatingAdd(base, size) <= c.base)
  }

  /** A range the source accepts as a range: not empty, and its end is representable. */
  predicate IsRange(base: u64, size: u64) { size > 0 && base + size < U64_SIZE }

  predicate Whitelisted(regions: seq<Region>, base: u64, size: u64)
  {
    IsRange(base, size) && exists r :: r in regions && base >= r.base && base + size <= r.end && r.kind.Reserved?
  }

  predicate IsRam(regions: seq<Region>, base: u64, size: u64)
  {
    && IsRange(base, size)
    && exists r :: r in regions && (r.kind.Usable? || r.kind.KernelImage?) && base < r.end && r.base < base + size
  }

  predicate Covers(c: Claim, base: u64, size: u64)
  {
    IsRange(base, size) && base >= c.base && base + size <= SaturatingAdd(c.base, c.size)
  }

  predicate ClaimContains(claims: seq<Claim>, pid: nat, base: u64, size: u64)
  {
    exists c :: c in claims && c.owner == pid && Covers(c, base, size)
  }

  // ---------------------------------------------------------------- requests as functions

  datatype Request =
    | PciClaim(base: u64, size: u64, driver: nat, bdf: Option<Bdf>, admin: bool, bar: bool, generation: nat)
    | TrustedClaim(base: u64, size: u64, driver: nat, generation: nat)
    | Revoke(pid: nat)

  predicate AnyOverlap(claims: seq<Claim>, base: u64, size: u64) { exists c :: c in claims && Overlaps(c, base, size) }

  predicate OwnedByOther(claims: seq<Claim>, bdf: Option<Bdf>, driver: nat)
  {
    bdf.Some? && exists c :: c in claims && c.bdf == bdf && c.owner != driver
  }

  predicate HasOwn(claims: seq<Claim>, base: u64, size: u64, driver: nat)
  {
    exists c :: c in claims && c.owner == driver && c.base == base && c.size == size
  }

  function OthersThan(pid: nat): Claim -> bool { (c: Claim) => c.owner != pid }

  /** The answer to a request, tests in their order. */
  function Answer(claims: seq<Claim>, regions: seq<Region>, q: Request): Result<(), ClaimError>
  {
    match q
    case PciClaim(base, size, driver, bdf, admin, bar, _) =>
      if !admin then Err(PermissionDenied)
      else if !Whitelisted(regions, base, size) && !(bdf.Some? && bar) then Err(NotInHardwareRegion)
      else if IsRam(regions, base, size) then Err(PhysIsRam)
      else if AnyOverlap(claims, base, size) || OwnedByOther(claims, bdf, driver) then Err(AlreadyClaimed)
      else Ok(())
    case TrustedClaim(base, size, driver, _) =>
      if size == 0 || driver == 0 then Err(PermissionDenied)
      else if !HasOwn(claims, base, size, driver) && AnyOverlap(claims, base, size) then Err(AlreadyClaimed)
      else Ok(())
    case Revoke(_) => Ok(())
  }

  /** The table after a request. */
  function After(claims: seq<Claim>, regions: seq<Region>, q: Request): seq<Claim>
  {
    if Answer(claims, regions, q).Err? then claims
    else match q
      case PciClaim(base, size, driver, bdf, _, _, generation) => claims + [Claim(base, size, driver, generation, bdf)]
      case TrustedClaim(base, size, driver, generation) =>
        if HasOwn(claims, base, size, driver) then claims else claims + [Claim(base, size, driver, generation, None)]
      case Revoke(pid) => Retain(claims, OthersThan(pid))
  }

  // ---------------------------------------------------------------- exclusiveness

  /** No two claims overlap, and claims of one PCI function have one owner. */
  predicate Exclusive(claims: seq<Claim>)
  {
    forall i, j :: 0 <= i < j < |claims| ==>
      !Overlaps(claims[i], claims[j].base, claims[j].size)
      && (claims[i].bdf.Some? && claims[i].bdf == claims[j].bdf ==> claims[i].owner == claims[j].owner)
  }

  lemma AfterKeepsExclusive(claims: seq<Claim>, regions: seq<Region>, q: Request)
    requires Exclusive(claims)
    ensures Exclusive(After(claims, regions, q))
  {
    if q.Revoke? {
      var kept := Retain(claims, OthersThan(q.pid));
      forall i, j | 0 <= i < j < |kept|
        ensures !Overlaps(kept[i], kept[j].base, kept[j].size)
                && (kept[i].bdf.Some? && kept[i].bdf == kept[j].bdf ==> kept[i].owner == kept[j].owner)
      {
        var p, r := RetainOrder(claims, OthersThan(q.pid), i, j);
      }
    } else {
      forall i | 0 <= i < |claims| ensures claims[i] in claims { }
    }
  }

  /** The table after a whole sequence of requests. */
  function AfterAll(regions: seq<Region>, qs: seq<Request>): seq<Claim>
  {
    if qs == [] then [] else After(AfterAll(regions, qs[..|qs| - 1]), regions, qs[|qs| - 1])
  }

  lemma {:induction false} EveryRunIsExclusive(regions: seq<Region>, qs: seq<Request>)
    ensures Exclusive(AfterAll(regions, qs))
  {
    if qs != [] {
      EveryRunIsExclusive(regions, qs[..|qs| - 1]);
      AfterKeepsExclusive(AfterAll(regions, qs[..|qs| - 1]), regions, qs[|qs| - 1]);
    }
  }

  /** Whatever was requested before: two claims that cover a common range are one claim. */
  lemma AtMostOneClaimCovers(regions: seq<Region>, qs: seq<Request>, i: nat, j: nat, base: u64, size: u64)
    requires i < |AfterAll(regions, qs)| && j < |AfterAll(regions, qs)|
    requires Covers(AfterAll(regions, qs)[i], base, size) && Covers(AfterAll(regions, qs)[j], base, size)
    ensures i == j
  {
    EveryRunIsExclusive(regions, qs);
    var claims := AfterAll(regions, qs);
    if i < j {
      assert Overlaps(claims[i], claims[j].base, claims[j].size);
    } else if j < i {
      assert Overlaps(claims[j], claims[i].base, claims[i].size);
    }
  }

  /** So no range is contained in the claims of two processes. */
  lemma NeverTwoOwners(regions: seq<Region>, qs: seq<Request>, p: nat, q: nat, base: u64, size: u64)
    requires ClaimContains(AfterAll(regions, qs), p, base, size) && ClaimContains(AfterAll(regions, qs), q, base, size)
    ensures p == q
  {
    var claims := AfterAll(regions, qs);
    var i :| 0 <= i < |claims| && claims[i].owner == p && Covers(claims[i], base, size);
    var j :| 0 <= j < |claims| && claims[j].owner == q && Covers(claims[j], base, size);
    AtMostOneClaimCovers(regions, qs, i, j, base, size);
  }

  /** And no PCI function is claimed by two processes. */
  lemma OneOwnerPerFunction(regions: seq<Region>, qs: seq<Request>, c: Claim, d: Claim)
    requires c in AfterAll(regions, qs) && d in AfterAll(regions, qs) && c.bdf.Some? && c.bdf == d.bdf
    ensures c.owner == d.owner
  {
    EveryRunIsExclusive(regions, qs);
    var claims := AfterAll(regions, qs);
    var i :| 0 <= i < |claims| && claims[i] == c;
    var j :| 0 <= j < |claims| && claims[j] == d;
    assert i < j || j < i || i == j;
  }

  /** A request on a PCI claim never reaches RAM: every byte granted lies outside the RAM regions. */
  lemma GrantedPciClaimAvoidsRam(claims: seq<Claim>, regions: seq<Region>, q: Request, r: Region, a: nat)
    requires q.PciClaim? && Answer(claims, regions, q).Ok? && r in regions && (r.kind.Usable? || r.kind.KernelImage?)
    requires q.base <= a < q.base + q.size && q.base + q.size < U64_SIZE
    ensures !(r.base <= a < r.end)
  {
    assert IsRange(q.base, q.size);
  }

  // ---------------------------------------------------------------- who is granted what

  /** The end of a range, cut off at the last address. */
  function End(base: u64, size: u64): nat { if base + size > U64_SIZE - 1 then U64_SIZE - 1 else base + size }

  predicate InReserved(regions: seq<Region>, base: u64, size: u64)
  {
    0 < size && base + size < U64_SIZE
    && exists r :: r in regions && r.kind == Reserved && r.base <= base && base + size <= r.end
  }

  predicate MeetsRam(regions: seq<Region>, base: u64, size: u64)
  {
    0 < size && base + size < U64_SIZE
    && exists r :: r in regions && r.kind in {Usable, KernelImage} && r.base < base + size && base < r.end
  }

  predicate MeetsClaim(claims: seq<Claim>, base: u64, size: u64)
  {
    exists c :: c in claims && c.base < End(base, size) && base < End(c.base, c.size)
  }

  /** Another process has a claim of this PCI function. */
  predicate Foreign(claims: seq<Claim>, bdf: Option<Bdf>, driver: nat)
  {
    bdf != None && exists c :: c in claims && c.bdf == bdf && c.owner != driver
  }

  /**
    A PCI claim is granted if and only if the caller is an administrator, the range is hardware, it
    meets no RAM and no claim, and no other process has the function; the table then gains exactly
    that claim.  Otherwise nothing changes, and the error is that of the first of these that fails.
  */
  lemma PciClaimGrantedExactlyWhen(claims: seq<Claim>, regions: seq<Region>, base: u64, size: u64, driver: nat,
                                   bdf: Option<Bdf>, admin: bool, bar: bool, generation: nat)
    ensures var q := PciClaim(base, size, driver, bdf, admin, bar, generation);
            var hardware := InReserved(regions, base, size) || (bdf != None && bar);
            var ram := MeetsRam(regions, base, size);
            var taken := MeetsClaim(claims, base, size) || Foreign(claims, bdf, driver);
            && (Answer(claims, regions, q) == Ok(()) <==> admin && hardware && !ram && !taken)
            && (Answer(claims, regions, q) == Err(PermissionDenied) <==> !admin)
            && (Answer(claims, regions, q) == Err(NotInHardwareRegion) <==> admin && !hardware)
            && (Answer(claims, regions, q) == Err(PhysIsRam) <==> admin && hardware && ram)
            && (Answer(claims, regions, q) == Err(AlreadyClaimed) <==> admin && hardware && !ram && taken)
            && After(claims, regions, q) == claims + if admin && hardware && !ram && !taken
                                                     then [Claim(base, size, driver, generation, bdf)] else []
  {
    SameTests(claims, regions, base, size, driver, bdf);
    hide IsRam, Whitelisted, AnyOverlap, OwnedByOther, InReserved, MeetsRam, MeetsClaim, Foreign;
    assert claims + [] == claims;
  }

  lemma SameTests(claims: seq<Claim>, regions: seq<Region>, base: u64, size: u64, driver: nat, bdf: Option<Bdf>)
    ensures Whitelisted(regions, base, size) <==> InReserved(regions, base, size)
    ensures IsRam(regions, base, size) <==> MeetsRam(regions, base, size)
    ensures AnyOverlap(claims, base, size) <==> MeetsClaim(claims, base, size)
    ensures OwnedByOther(claims, bdf, driver) <==> Foreign(claims, bdf, driver)
  {
    assert forall c :: c in claims ==>
             (Overlaps(c, base, size) <==> c.base < End(base, size) && base < End(c.base, c.size));
  }

  /**
    A trusted claim is granted if and only if it is of a non-empty range for a process other than the
    kernel, and the process has it already or it meets no claim; only in the second case does the
    table gain it.
  */
  lemma TrustedClaimGrantedExactlyWhen(claims: seq<Claim>, regions: seq<Region>, base: u64, size: u64, driver: nat,
                                       generation: nat)
    ensures var q := TrustedClaim(base, size, driver, generation);
            var own := exists c :: c in claims && c.owner == driver && c.base == base && c.size == size;
            var taken := MeetsClaim(claims, base, size);
            && (Answer(claims, regions, q) == Ok(()) <==> size > 0 && driver > 0 && (own || !taken))
            && (Answer(claims, regions, q) == Err(PermissionDenied) <==> size == 0 || driver == 0)
            && (Answer(claims, regions, q) == Err(AlreadyClaimed) <==> size > 0 && driver > 0 && !own && taken)
            && After(claims, regions, q) == claims + if size > 0 && driver > 0 && !own && !taken
                                                     then [Claim(base, size, driver, generation, None)] else []
  {
    SameTests(claims, regions, base, size, driver, None);
    hide AnyOverlap, MeetsClaim;
    assert claims + [] == claims;
  }

  /** A revocation leaves exactly the claims of the other processes, in their order. */
  lemma RevokeLeavesOthers(claims: seq<Claim>, regions: seq<Region>, pid: nat, c: Claim)
    ensures Answer(claims, regions, Revoke(pid)) == Ok(())
    ensures c in After(claims, regions, Revoke(pid)) <==> c in claims && c.owner != pid
  {
    RetainMember(claims, OthersThan(pid), c);
  }

  // ---------------------------------------------------------------- the table

  class ClaimTable {
    var claims: seq<Claim>

    constructor ()
      ensures claims == []
    {
      claims := [];
    }

    method FindOverlap(base: u64, size: u64) returns (found: bool)
      ensures found == AnyOverlap(claims, base, size)
    {
      for i := 0 to |claims|
        invariant forall k :: 0 <= k < i ==> !Overlaps(claims[k], base, size)
      {
        if Overlaps(claims[i], base, size) {
          return true;
        }
      }
      return false;
    }

    method FindOtherOwner(bdf: Option<Bdf>, driver: nat) returns (found: bool)
      ensures found == OwnedByOther(claims, bdf, driver)
    {
      if bdf.None? {
        return false;
      }
      for i := 0 to |claims|
        invariant forall k :: 0 <= k < i ==> !(claims[k].bdf == bdf && claims[k].owner != driver)
      {
        if claims[i].bdf == bdf && claims[i].owner != driver {
          return true;
        }
      }
      return false;
    }

    method FindOwn(base: u64, size: u64, driver: nat) returns (found: bool)
      ensures found == HasOwn(claims, base, size, driver)
    {
      for i := 0 to |claims|
        invariant forall k :: 0 <= k < i ==>
                    !(claims[k].owner == driver && claims[k].base == base && claims[k].size == size)
      {
        if claims[i].owner == driver && claims[i].base == base && claims[i].size == size {
          return true;
        }
      }
      return false;
    }

    method ClaimPci(regions: seq<Region>, base: u64, size: u64, driver: nat, bdf: Option<Bdf>, admin: bool, bar: bool,
                    generation: nat)
      returns (r: Result<(), ClaimError>)
      modifies this
      ensures var q := PciClaim(base, size, driver, bdf, admin, bar, generation);
              r == Answer(old(claims), regions, q) && claims == After(old(claims), regions, q)
    {
      if !admin {
        return Err(PermissionDenied);
      }
      if !Whitelisted(regions, base, size) && !(bdf.Some? && bar) {
        return Err(NotInHardwareRegion);
      }
      if IsRam(regions, base, size) {
        return Err(PhysIsRam);
      }
      var taken := FindOverlap(base, size);
      if taken {
        return Err(AlreadyClaimed);
      }
      var foreign := FindOtherOwner(bdf, driver);
      if foreign {
        return Err(AlreadyClaimed);
      }
      claims := claims + [Claim(base, size, driver, generation, bdf)];
      return Ok(());
    }

    method ClaimTrusted(ghost regions: seq<Region>, base: u64, size: u64, driver: nat, generation: nat)
      returns (r: Result<(), ClaimError>)
      modifies this
      ensures var q := TrustedClaim(base, size, driver, generation);
              r == Answer(old(claims), regions, q) && claims == After(old(claims), regions, q)
    {
      if size == 0 || driver == 0 {
        return Err(PermissionDenied);
      }
      var own := FindOwn(base, size, driver);
      if own {
        return Ok(());
      }
      var taken := FindOverlap(base, size);
      if taken {
        return Err(AlreadyClaimed);
      }
      claims := claims + [Claim(base, size, driver, generation, None)];
      return Ok(());
    }

    method RevokeClaimsForPid(pid: nat)
      modifies this
      ensures claims == Retain(old(claims), OthersThan(pid))
    {
      var kept: seq<Claim> := [];
      for i := 0 to |claims|
        invariant claims == old(claims) && kept == Retain(claims[..i], OthersThan(pid))
      {
        assert claims[..i + 1] == claims[..i] + [claims[i]];
        RetainSnoc(claims[..i], claims[i], OthersThan(pid));
        if claims[i].owner != pid {
          kept := kept + [claims[i]];
        }
      }
      assert claims[..|claims|] == claims;
      claims := kept;
    }

    /** Whether one claim of pid covers the whole range. */
    method Contains(pid: nat, base: u64, size: u64) returns (found: bool)
      ensures found == ClaimContains(claims, pid, base, size)
      ensures found <==> 0 < size && base + size < U64_SIZE
                         && exists c :: c in claims && c.owner == pid
                                        && c.base <= base && base + size <= End(c.base, c.size)
    {
      if size == 0 || base + size >= U64_SIZE {
        return false;
      }
      for i := 0 to |claims|
        invariant forall k :: 0 <= k < i ==> !(claims[k].owner == pid && Covers(claims[k], base, size))
      {
        if claims[i].owner == pid && Covers(claims[i], base, size) {
          return true;
        }
      }
      return false;
    }

    /** The PCI function of the first claim of pid. */
    method BdfOfPid(pid: nat) returns (r: Option<Bdf>)
      ensures (forall c :: c in claims ==> c.owner != pid) ==> r == None
      ensures forall i ::
                0 <= i < |claims| && claims[i].owner == pid && (forall k :: 0 <= k < i ==> claims[k].owner != pid) ==>
                  r == claims[i].bdf
    {
      for i := 0 to |claims|
        invariant forall k :: 0 <= k < i ==> claims[k].owner != pid
      {
        if claims[i].owner == pid {
          return claims[i].bdf;
        }
      }
      return None;
    }
  }
}
