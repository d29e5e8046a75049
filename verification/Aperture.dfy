/** The UVM aperture: pools placed at the lowest 2 MiB boundary with room, over an
    aperture of 1 GiB that other pools already occupy. */
module Aperture {
  import opened Basics

  const APERTURE_LEN: nat := 0x4000_0000
  const POOL_MAX_LEN: nat := 0x400_0000
  const MAX_POOLS: nat := 64
  const MAX_POOL_BYTES: nat := 0x1000_0000
  const HVA_MIN: nat := 0x1_0000_0000
  const HVA_MAX: nat := 0x2000_0000_0000

  // libc's numbers.
  const EEXIST: nat := 17
  const EINVAL: nat := 22
  const ENOSPC: nat := 28

  datatype Result<T> = Ok(value: T) | Err(errno: nat)

  datatype Pool = Pool(handle: nat, addr: nat, offset: nat, len: nat)

  /** The next 2 MiB boundary. */
  function BoundaryAfter(end: nat): (r: nat)
    ensures r % 0x20_0000 == 0 && end <= r < end + 0x20_0000
  {
    (end + 0x1f_ffff) / 0x20_0000 * 0x20_0000
  }

  /** Nothing aligned lies between an end and its next boundary. */
  lemma NoBoundaryBetween(end: nat, x: nat)
    requires x % 0x20_0000 == 0
    ensures x < end || BoundaryAfter(end) <= x
  {
  }

  ghost predicate Overlap(a: nat, alen: nat, b: nat, blen: nat) {
    a < b + blen && b < a + alen
  }

  ghost predicate Inside(x: nat, at: nat, len: nat) {
    at <= x < at + len
  }

  /** Two ranges that are not empty overlap exactly when some address is in both. */
  lemma OverlapShares(a: nat, alen: nat, b: nat, blen: nat)
    requires alen > 0 && blen > 0
    ensures Overlap(a, alen, b, blen) <==> exists x: nat :: Inside(x, a, alen) && Inside(x, b, blen)
  {
    if Overlap(a, alen, b, blen) {
      var x := if a <= b then b else a;
      assert Inside(x, a, alen) && Inside(x, b, blen);
    }
  }

  /** A range of the aperture from `at` misses every placed pool. */
  ghost predicate Misses(pools: map<nat, Pool>, at: nat, len: nat) {
    forall id :: id in pools ==> !Overlap(at, len, pools[id].offset, pools[id].len)
  }

  /** Where a pool of `len` bytes could go. */
  ghost predicate Fits(pools: map<nat, Pool>, at: nat, len: nat) {
    at % 0x20_0000 == 0 && at + len <= 0x4000_0000 && Misses(pools, at, len)
  }

  /** A pool's request: whole pages, of a permitted size, in the permitted band of host addresses. */
  ghost predicate WellFormed(addr: nat, len: nat) {
    && 0 < len <= 0x400_0000 && len % 4096 == 0
    && addr % 4096 == 0 && 0x1_0000_0000 <= addr && addr + len <= 0x2000_0000_0000
  }

  /** The host range is already some pool's. */
  ghost predicate AddrTaken(pools: map<nat, Pool>, addr: nat, len: nat) {
    exists id :: id in pools && Overlap(pools[id].addr, pools[id].len, addr, len)
  }

  function LenOf(p: Pool): nat {
    p.len
  }

  ghost function TotalBytes(pools: map<nat, Pool>): nat {
    Sum(pools, LenOf)
  }

  /** A placed pool: well formed, on a boundary, inside the aperture. */
  ghost predicate PoolOk(p: Pool) {
    && WellFormed(p.addr, p.len)
    && p.offset % 0x20_0000 == 0
    && p.offset + p.len <= 0x4000_0000
  }

  /** Two pools are apart in the aperture and apart in host addresses. */
  ghost predicate Apart(p: Pool, q: Pool) {
    !Overlap(p.offset, p.len, q.offset, q.len) && !Overlap(p.addr, p.len, q.addr, q.len)
  }

  ghost predicate Placed(pools: map<nat, Pool>) {
    && (forall id {:trigger PoolOk(pools[id])} :: id in pools ==> PoolOk(pools[id]))
    && (forall i, j {:trigger Apart(pools[i], pools[j])} ::
          i in pools && j in pools && i != j ==> Apart(pools[i], pools[j]))
  }

  /** Every pool placed, all of them apart, and no more of them or their bytes than is allowed. */
  ghost predicate Sound(pools: map<nat, Pool>) {
    Placed(pools) && |pools| <= 64 && TotalBytes(pools) <= 0x1000_0000
  }

  lemma {:induction false} LowestExists(pools: map<nat, Pool>, ids: set<nat>) returns (least: nat)
    requires ids != {} && ids <= pools.Keys
    ensures least in ids && forall id :: id in ids ==> pools[least].offset <= pools[id].offset
    decreases ids
  {
    var pick :| pick in ids;
    if ids == {pick} {
      least := pick;
    } else {
      var other := LowestExists(pools, ids - {pick});
      least := if pools[pick].offset <= pools[other].offset then pick else other;
      forall id | id in ids ensures pools[least].offset <= pools[id].offset {
        assert id == pick || id in ids - {pick};
      }
    }
  }

  class Aperture {
    var pools: map<nat, Pool>

    constructor ()
      ensures Sound(pools) && pools == map[]
    {
      pools := map[];
    }

    /** The pools' bytes, summed. */
    method Used() returns (used: nat)
      ensures used == TotalBytes(pools)
    {
      used := 0;
      var rest := pools;
      while rest != map[]
        invariant used + TotalBytes(rest) == TotalBytes(pools)
        decreases rest.Keys
      {
        var id :| id in rest;
        SumRemove(rest, LenOf, id);
        used := used + rest[id].len;
        rest := rest - {id};
      }
    }

    /** Some pool already has part of this host range. */
    method Collides(addr: nat, len: nat) returns (taken: bool)
      ensures taken == AddrTaken(pools, addr, len)
    {
      taken := false;
      var rest := pools.Keys;
      while rest != {}
        invariant rest <= pools.Keys
        invariant !taken ==> forall id :: id in pools && id !in rest ==>
                                            !Overlap(pools[id].addr, pools[id].len, addr, len)
        invariant taken ==> AddrTaken(pools, addr, len)
        decreases rest
      {
        var id :| id in rest;
        rest := rest - {id};
        if pools[id].addr < addr + len && addr < pools[id].addr + pools[id].len { taken := true; }
      }
    }

    /** The next pool in order of offset. */
    method Lowest(ids: set<nat>) returns (least: nat)
      requires ids != {} && ids <= pools.Keys
      ensures least in ids && forall id :: id in ids ==> pools[least].offset <= pools[id].offset
    {
      ghost var _ := LowestExists(pools, ids);
      least :| least in ids && forall id :: id in ids ==> pools[least].offset <= pools[id].offset;
    }

    /** The gap search, walking the pools by offset: the lowest boundary that misses them all. */
    method Gap(len: nat) returns (at: nat)
      requires Sound(pools) && len > 0
      ensures at % 0x20_0000 == 0 && Misses(pools, at, len)
      ensures forall x: nat :: x < at && x % 0x20_0000 == 0 ==> !Misses(pools, x, len)
    {
      at := 0;
      var rest := pools.Keys;
      while rest != {}
        invariant rest <= pools.Keys
        invariant Walked(pools, rest, at, len)
        decreases rest
      {
        var id := Lowest(rest);
        var o, l := pools[id].offset, pools[id].len;
        if at + len <= o { break; }
        GapStep(pools, rest, id, at, len);
        at := BoundaryAfter(o + l);
        rest := rest - {id};
      }
    }

    /** Checks a pool and finds it room, without placing it. Refused with EINVAL, ENOSPC or EEXIST,
        in that order; otherwise placed at the lowest boundary where it fits, and refused only
        when there is none. */
    method Admit(handle: nat, addr: nat, len: nat) returns (r: Result<Pool>)
      requires Sound(pools)
      ensures r == Err(22) <==> len == 0 || len % 4096 != 0 || len > 0x400_0000 || addr % 4096 != 0
                                || addr < 0x1_0000_0000 || addr + len > 0x2000_0000_0000
      ensures r != Err(22) && (|pools| >= 64 || TotalBytes(pools) + len > 0x1000_0000) ==> r == Err(28)
      ensures r != Err(22) && |pools| < 64 && TotalBytes(pools) + len <= 0x1000_0000 ==>
                (r == Err(17) <==> AddrTaken(pools, addr, len))
      ensures Admissible(pools, addr, len) ==>
                && (r == Err(28) <==> forall x: nat :: !Fits(pools, x, len))
                && (r.Ok? <==> exists x: nat :: Fits(pools, x, len))
      ensures r.Ok? ==>
                && Admissible(pools, addr, len)
                && r.value == Pool(handle, addr, r.value.offset, len)
                && Fits(pools, r.value.offset, len)
                && forall x: nat :: Fits(pools, x, len) ==> r.value.offset <= x
    {
      if len == 0 || len % 4096 != 0 || len > POOL_MAX_LEN || addr % 4096 != 0
         || addr < HVA_MIN || addr + len > HVA_MAX
      {
        return Err(EINVAL);
      }
      var used := Used();
      if |pools| >= MAX_POOLS || used + len > MAX_POOL_BYTES { return Err(ENOSPC); }
      var taken := Collides(addr, len);
      if taken { return Err(EEXIST); }
      var at := Gap(len);
      assert forall x: nat :: Fits(pools, x, len) ==> at <= x;
      if at + len > APERTURE_LEN {
        assert forall x: nat :: !Fits(pools, x, len);
        return Err(ENOSPC);
      }
      assert Fits(pools, at, len);
      r := Ok(Pool(handle, addr, at, len));
    }

    /** An admitted pool goes in; every pool stays apart from every other. */
    method Insert(id: nat, pool: Pool)
      requires Sound(pools) && Admitted(pools, pool)
      modifies this
      ensures Sound(pools) && pools == old(pools)[id := pool]
    {
      InsertKeepsSound(pools, id, pool);
      pools := pools[id := pool];
    }

    method Remove(id: nat) returns (gone: Option<Pool>)
      requires Sound(pools)
      modifies this
      ensures Sound(pools) && pools == old(pools) - {id}
      ensures gone == if id in old(pools) then Some(old(pools)[id]) else None
    {
      RemoveKeepsSound(pools, {id});
      gone := if id in pools then Some(pools[id]) else None;
      pools := pools - {id};
    }

    /** A file's pools all go, and no others. */
    method TakeForHandle(handle: nat) returns (gone: map<nat, Pool>)
      requires Sound(pools)
      modifies this
      ensures Sound(pools)
      ensures pools == old(pools) - OfHandle(old(pools), handle)
      ensures gone == old(pools) - (old(pools).Keys - OfHandle(old(pools), handle))
      ensures forall id :: id in gone <==> id in old(pools) && old(pools)[id].handle == handle
    {
      hide Sound;
      var ids := OfHandle(pools, handle);
      ghost var before := pools;
      gone := map[];
      var rest := ids;
      while rest != {}
        invariant rest <= ids
        invariant pools == before - (ids - rest)
        invariant gone == before - (before.Keys - (ids - rest))
        decreases rest
      {
        var id :| id in rest;
        MoveOne(before, ids, rest, id);
        gone := gone[id := pools[id]];
        pools := pools - {id};
        rest := rest - {id};
      }
      assert pools == before - ids;
      RemoveKeepsSound(before, ids);
    }
  }

  function OfHandle(pools: map<nat, Pool>, handle: nat): set<nat> {
    set id | id in pools && pools[id].handle == handle
  }

  ghost predicate Admissible(pools: map<nat, Pool>, addr: nat, len: nat) {
    && WellFormed(addr, len) && |pools| < 64 && TotalBytes(pools) + len <= 0x1000_0000
    && !AddrTaken(pools, addr, len)
  }

  /** What `Admit` answered for these very pools. */
  ghost predicate Admitted(pools: map<nat, Pool>, pool: Pool) {
    Admissible(pools, pool.addr, pool.len) && Fits(pools, pool.offset, pool.len)
  }

  /** Where the walk stands: pools behind `at` end by it, those ahead start at it or later,
      and every boundary passed over was taken. */
  ghost predicate Walked(pools: map<nat, Pool>, rest: set<nat>, at: nat, len: nat)
    requires rest <= pools.Keys
  {
    && at % 0x20_0000 == 0
    && (forall id :: id in pools && id !in rest ==> pools[id].offset + pools[id].len <= at)
    && (forall id :: id in rest ==> at <= pools[id].offset)
    && (forall x: nat :: x < at && x % 0x20_0000 == 0 ==> !Misses(pools, x, len))
  }

  lemma GapStep(pools: map<nat, Pool>, rest: set<nat>, id: nat, at: nat, len: nat)
    requires Sound(pools) && len > 0 && rest <= pools.Keys && id in rest && Walked(pools, rest, at, len)
    requires forall other :: other in rest ==> pools[id].offset <= pools[other].offset
    requires at + len > pools[id].offset
    ensures Walked(pools, rest - {id}, BoundaryAfter(pools[id].offset + pools[id].len), len)
  {
    var o, l := pools[id].offset, pools[id].len;
    var next := BoundaryAfter(o + l);
    assert PoolOk(pools[id]);
    forall j | j in rest - {id} ensures next <= pools[j].offset {
      assert PoolOk(pools[j]) && Apart(pools[id], pools[j]);
      NoBoundaryBetween(o + l, pools[j].offset);
    }
    forall x: nat | x < next && x % 0x20_0000 == 0 ensures !Misses(pools, x, len) {
      if at <= x {
        NoBoundaryBetween(o + l, x);
        assert Overlap(x, len, o, l);
      }
    }
  }

  lemma {:induction false} FewerPools(small: map<nat, Pool>, big: map<nat, Pool>)
    requires small.Keys <= big.Keys
    ensures |small| <= |big|
    decreases small.Keys
  {
    if small != map[] {
      var id :| id in small;
      FewerPools(small - {id}, big - {id});
      OneFewer(small, id);
      OneFewer(big, id);
    }
  }

  lemma OneFewer(pools: map<nat, Pool>, id: nat)
    requires id in pools
    ensures |pools - {id}| == |pools| - 1
  {
  }

  lemma RemoveKeepsSound(pools: map<nat, Pool>, ids: set<nat>)
    requires Sound(pools)
    ensures Sound(pools - ids)
  {
    var rest := pools - ids;
    SumShrinks(rest, pools, LenOf);
    FewerPools(rest, pools);
    forall id | id in rest ensures PoolOk(rest[id]) {
      assert PoolOk(pools[id]);
    }
    forall i, j | i in rest && j in rest && i != j ensures Apart(rest[i], rest[j]) {
      assert Apart(pools[i], pools[j]);
    }
  }

  lemma MoveOne(before: map<nat, Pool>, ids: set<nat>, rest: set<nat>, id: nat)
    requires rest <= ids <= before.Keys && id in rest
    ensures (before - (ids - rest)) - {id} == before - (ids - (rest - {id}))
    ensures (before - (before.Keys - (ids - rest)))[id := before[id]] == before - (before.Keys - (ids - (rest - {id})))
  {
  }

  lemma InsertKeepsLimits(pools: map<nat, Pool>, id: nat, pool: Pool)
    ensures |pools[id := pool]| <= |pools| + 1
    ensures TotalBytes(pools[id := pool]) <= TotalBytes(pools) + pool.len
  {
    var now := pools[id := pool];
    SumShrinks(pools - {id}, pools, LenOf);
    FewerPools(pools - {id}, pools);
    assert now - {id} == pools - {id};
    SumRemove(now, LenOf, id);
    OneFewer(now, id);
  }

  lemma InsertKeepsPlaced(pools: map<nat, Pool>, id: nat, pool: Pool)
    requires Placed(pools) && Admitted(pools, pool)
    ensures Placed(pools[id := pool])
  {
  }

  lemma InsertKeepsSound(pools: map<nat, Pool>, id: nat, pool: Pool)
    requires Sound(pools) && Admitted(pools, pool)
    ensures Sound(pools[id := pool])
  {
    InsertKeepsLimits(pools, id, pool);
    InsertKeepsPlaced(pools, id, pool);
  }

  // ---------------------------------------------------------------------
  // Runs

  /** A file's mmap on the UVM node places a pool under the next mapping id; a close or an unmap takes pools out. */
  datatype Op =
    | Place(id: nat, pool: Pool)
    | Take(ids: set<nat>)

  /** The pools after a sequence of placements, each admitted where it stands, and removals. */
  ghost function Run(ops: seq<Op>): Option<map<nat, Pool>> {
    if ops == [] then Some(map[])
    else
      match Run(ops[..|ops| - 1])
      case None => None
      case Some(pools) =>
        match ops[|ops| - 1]
        case Place(id, pool) => if Admitted(pools, pool) then Some(pools[id := pool]) else None
        case Take(ids) => Some(pools - ids)
  }

  /** Over every run the pools stay sound, whatever ids are reused. */
  lemma {:induction false} RunKeepsSound(ops: seq<Op>)
    ensures Run(ops).Some? ==> Sound(Run(ops).value)
  {
    if ops != [] && Run(ops).Some? {
      RunKeepsSound(ops[..|ops| - 1]);
      var pools := Run(ops[..|ops| - 1]).value;
      match ops[|ops| - 1]
      case Place(id, pool) => InsertKeepsSound(pools, id, pool);
      case Take(ids) => RemoveKeepsSound(pools, ids);
    }
  }
}
