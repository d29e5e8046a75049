/** Buffers the host's driver writes into, each with readable slack and a guard behind it, and the
    small pool that keeps them for reuse. */
module Guarded {
  import opened Basics

  /** Pages for `len` bytes and a page of slack; the guard page comes on top. */
  function Pages(len: nat): (n: nat)
    ensures len + 4096 <= n * 4096 < len + 8192
  {
    (len + 4096 + 4095) / 4096
  }

  class GuardedBuf {
    const mem: array<Byte>        // the mapping up to the guard
    var offset: nat
    var len: nat

    /** The buffer lies in its mapping with the whole slack behind it. */
    ghost predicate Valid()
      reads this
    {
      mem.Length >= 8192 && mem.Length % 4096 == 0 && len > 0 && offset + len + 4096 <= mem.Length
    }

    /** Bytes the mapping can hold with the slack still behind them. */
    function Capacity(): nat
      requires mem.Length >= 4096
    {
      mem.Length - 4096
    }

    /** The bytes from the end of the buffer to the guard. */
    function Tail(): int
      reads this
    {
      mem.Length - offset - len
    }

    constructor (n: nat)
      requires n > 0
      ensures Valid() && fresh(mem) && len == n && offset == 0
      ensures n <= mem.Length - 4096 < n + 4096
      ensures forall i :: 0 <= i < mem.Length ==> mem[i] == 0
    {
      mem := new Byte[Pages(n) * 4096](_ => 0);
      offset, len := 0, n;
    }

    /** A fresh buffer, or none for no bytes or when the host does not map it. */
    static method New(n: nat, maps: bool) returns (b: GuardedBuf?)
      ensures b == null <==> n == 0 || !maps
      ensures b != null ==> b.Valid() && fresh(b) && fresh(b.mem) && b.len == n && b.offset == 0
      ensures b != null ==> n <= b.mem.Length - 4096 < n + 4096
      ensures b != null ==> forall i :: 0 <= i < b.mem.Length ==> b.mem[i] == 0
    {
      b := null;
      if n > 0 && maps { b := new GuardedBuf(n); }
    }

    /** The same mapping for another length: at most 15 bytes further from the guard than the slack,
        and nothing of an earlier call left behind it. */
    method Reset(n: nat) returns (ok: bool)
      requires Valid()
      modifies this, mem
      ensures Valid() && (ok <==> 0 < n <= Capacity())
      ensures !ok ==> len == old(len) && offset == old(offset) && mem[..] == old(mem[..])
      ensures ok ==> len == n && offset % 16 == 0 && 4096 <= Tail() < 4096 + 16
      ensures ok ==> forall i :: 0 <= i < mem.Length ==> mem[i] == if i < offset + len then old(mem[i]) else 0
    {
      if n == 0 || n > Capacity() { return false; }
      offset := (Capacity() - n) / 16 * 16;
      len := n;
      Zero(offset + len);
      ok := true;
    }

    /** Zeroes from a place to the guard. */
    method Zero(from: nat)
      requires from <= mem.Length
      modifies mem
      ensures forall i :: 0 <= i < mem.Length ==> mem[i] == if i < from then old(mem[i]) else 0
    {
      for i := from to mem.Length
        invariant forall k :: 0 <= k < mem.Length ==> mem[k] == if from <= k < i then 0 else old(mem[k])
      {
        mem[i] := 0;
      }
    }
  }

  // ---------------------------------------------------------------------
  // Choosing

  predicate Fits(cap: nat, len: nat) {
    len <= cap
  }

  /** The place of the smallest capacity that fits, the first of equals; none is past the end. */
  function BestOf(caps: seq<nat>, len: nat): (i: nat)
    ensures i <= |caps|
    ensures i == |caps| <==> forall k :: 0 <= k < |caps| ==> !Fits(caps[k], len)
    ensures i < |caps| ==> Fits(caps[i], len)
    ensures i < |caps| ==> forall k :: 0 <= k < |caps| && Fits(caps[k], len) ==> caps[i] <= caps[k]
    ensures i < |caps| ==> forall k :: 0 <= k < i ==> !Fits(caps[k], len) || caps[i] < caps[k]
  {
    if caps == [] then 0
    else
      var last := |caps| - 1;
      var i := BestOf(caps[..last], len);
      if i < last then (if Fits(caps[last], len) && caps[last] < caps[i] then last else i)
      else if Fits(caps[last], len) then last
      else |caps|
  }

  /** `swap_remove`: the last element takes the place of the one removed. */
  function SwapRemove<T>(xs: seq<T>, i: nat): (r: seq<T>)
    requires i < |xs|
    ensures |r| == |xs| - 1
    ensures forall k :: 0 <= k < |r| ==> r[k] == if k == i then xs[|xs| - 1] else xs[k]
  {
    var last := |xs| - 1;
    if i == last then xs[..last] else xs[..last][i := xs[last]]
  }

  /** Everything but the one removed is still there, as often as before. */
  lemma SwapRemoveLosesOne<T>(xs: seq<T>, i: nat)
    requires i < |xs|
    ensures multiset(xs) == multiset(SwapRemove(xs, i)) + multiset{xs[i]}
  {
    var last := |xs| - 1;
    assert xs == xs[..last] + [xs[last]];
    if i < last {
      var front := xs[..last];
      assert front == front[..i] + [front[i]] + front[i + 1..];
      assert SwapRemove(xs, i) == front[..i] + [xs[last]] + front[i + 1..];
    }
  }

  // ---------------------------------------------------------------------
  // Any run of leases and returns

  function Caps(bufs: seq<GuardedBuf>): (caps: seq<nat>)
    requires forall b :: b in bufs ==> b.mem.Length >= 4096
    ensures |caps| == |bufs| && forall i :: 0 <= i < |bufs| ==> caps[i] == bufs[i].mem.Length - 4096
  {
    seq(|bufs|, i requires 0 <= i < |bufs| => bufs[i].mem.Length - 4096)
  }

  /** What a request for `n` bytes leaves in the pool, and what it gets: the smallest kept buffer that is
      big enough, else a new one. No bytes get nothing, at the cost of the buffer picked. */
  ghost predicate Leased(free: seq<GuardedBuf>, n: nat, b: GuardedBuf?, after: seq<GuardedBuf>)
    requires forall k :: k in free ==> k.mem.Length >= 4096
  {
    var best := BestOf(Caps(free), n);
    && (n == 0 ==> b == null)
    && after == (if best < |free| then SwapRemove(free, best) else free)
    && (n > 0 && best < |free| ==> b == free[best])
    && (best == |free| && b != null ==> n <= b.mem.Length - 4096 < n + 4096)
  }

  /** A pool keeps at most eight buffers and lets outsized ones go. */
  function Returned(free: seq<GuardedBuf>, b: GuardedBuf): seq<GuardedBuf> {
    if |free| < 8 && b.mem.Length - 4096 <= 65536 then free + [b] else free
  }

  /** The kept buffers, and those out on lease. */
  datatype Buffers = Buffers(free: seq<GuardedBuf>, out: set<GuardedBuf>)

  datatype Op = Lease(n: nat, b: GuardedBuf?) | Drop(back: GuardedBuf)

  /** At most eight are kept, none over 64 KiB, and no two buffers, kept or out, share memory. */
  ghost predicate Apart(s: Buffers) {
    && |s.free| <= 8
    && (forall b :: b in s.free ==> 4096 <= b.mem.Length <= 65536 + 4096)
    && (forall i, j :: 0 <= i < j < |s.free| ==> s.free[i].mem != s.free[j].mem)
    && (forall b :: b in s.out ==> 4096 <= b.mem.Length)
    && (forall b, c :: b in s.out && c in s.free ==> b.mem != c.mem)
    && (forall b, c :: b in s.out && c in s.out && b.mem == c.mem ==> b == c)
  }

  /** A new buffer has memory of its own; only what is out on lease is returned. */
  ghost predicate Step(s: Buffers, op: Op, t: Buffers) {
    match op
    case Lease(n, b) =>
      && (forall k :: k in s.free ==> k.mem.Length >= 4096)
      && Leased(s.free, n, b, t.free)
      && (b != null && b !in s.free ==>
            (forall c :: c in s.free ==> b.mem != c.mem) && forall c :: c in s.out ==> b.mem != c.mem)
      && t.out == if b == null then s.out else s.out + {b}
    case Drop(b) =>
      b in s.out && t == Buffers(Returned(s.free, b), s.out - {b})
  }

  lemma SwapRemoveApart(free: seq<GuardedBuf>, i: nat)
    requires i < |free| && forall j, k :: 0 <= j < k < |free| ==> free[j].mem != free[k].mem
    ensures var after := SwapRemove(free, i);
            && (forall b :: b in after ==> b in free && b.mem != free[i].mem)
            && (forall j, k :: 0 <= j < k < |after| ==> after[j].mem != after[k].mem)
  {
  }

  lemma LeaseKeepsApart(s: Buffers, n: nat, b: GuardedBuf?, t: Buffers)
    requires Apart(s) && Step(s, Lease(n, b), t)
    ensures Apart(t)
    ensures b != null ==> b !in s.out && b in t.out && n <= b.mem.Length - 4096
  {
    hide SwapRemove;
    var best := BestOf(Caps(s.free), n);
    if best < |s.free| {
      SwapRemoveApart(s.free, best);
      assert s.free[best] in s.free;
    }
  }

  lemma StepKeepsApart(s: Buffers, op: Op, t: Buffers)
    requires Apart(s) && Step(s, op, t)
    ensures Apart(t)
    ensures op.Lease? && op.b != null ==> op.b !in s.out && op.b in t.out && op.n <= op.b.mem.Length - 4096
  {
    match op
    case Lease(n, b) => LeaseKeepsApart(s, n, b, t);
    case Drop(b) =>
  }

  /** Over any run no two callers hold the same memory and none holds memory the pool would hand out,
      in whatever order leases end. */
  lemma {:induction false} RunKeepsApart(states: seq<Buffers>, ops: seq<Op>)
    requires |states| == |ops| + 1 && states[0] == Buffers([], {})
    requires forall i :: 0 <= i < |ops| ==> Step(states[i], ops[i], states[i + 1])
    ensures forall i :: 0 <= i < |states| ==> Apart(states[i])
    decreases |ops|
  {
    if ops != [] {
      var last := |ops| - 1;
      RunKeepsApart(states[..|states| - 1], ops[..last]);
      assert states[..|states| - 1][last] == states[last];
      StepKeepsApart(states[last], ops[last], states[last + 1]);
    }
  }

  class GuardPool {
    var free: seq<GuardedBuf>

    function Mems(): set<array<Byte>>
      reads this
    {
      set b | b in free :: b.mem
    }

    /** At most eight buffers, none over 64 KiB, no two sharing memory. */
    ghost predicate Valid()
      reads this, free
    {
      && |free| <= 8
      && (forall b :: b in free ==> b.Valid() && b.mem.Length - 4096 <= 65536)
      && (forall i, j :: 0 <= i < j < |free| ==> free[i] != free[j] && free[i].mem != free[j].mem)
    }

    constructor ()
      ensures Valid() && free == []
    {
      free := [];
    }

    /** What a request touches: the buffer it picks, if any, and that buffer's memory. */
    ghost function Picked(n: nat): set<object>
      requires Valid()
      reads this, free
    {
      var best := BestOf(Caps(free), n);
      if best < |free| then {free[best], free[best].mem} else {}
    }

    /** Takes one kept buffer out and sets it to a length; if it cannot be set, it is let go. */
    method TakeKept(i: nat, n: nat) returns (b: GuardedBuf?)
      requires Valid() && i < |free|
      modifies this, free[i], free[i].mem
      ensures Valid() && free == SwapRemove(old(free), i)
      ensures b == if 0 < n <= old(free[i]).mem.Length - 4096 then old(free[i]) else null
      ensures b != null ==> Ready(b, n) && b.offset % 16 == 0 && b.Tail() < 4096 + 16
    {
      var kept := free[i];
      free := SwapRemove(free, i);
      var ok := kept.Reset(n);
      b := if ok then kept else null;
    }

    /** A buffer out of the pool, of this length, with only zeroes between its end and the guard. */
    ghost predicate Ready(b: GuardedBuf, n: nat)
      reads this, free, b, b.mem
    {
      && b.Valid() && b.len == n && b.Tail() >= 4096
      && b !in free && b.mem !in Mems()
      && forall i :: b.offset + b.len <= i < b.mem.Length ==> b.mem[i] == 0
    }

    /** A buffer for `n` bytes: the smallest kept one that is big enough, else a new one, if the host
        maps it. Asking for no bytes gives none, and costs the pool the buffer it picked. */
    method Take(n: nat, maps: bool) returns (b: GuardedBuf?)
      requires Valid()
      modifies this, Picked(n)
      ensures Valid()
      ensures b != null ==> Ready(b, n) && b.Tail() < 8192
      ensures Leased(old(free), n, b, free)
      ensures b != null && b in old(free) ==> b.offset % 16 == 0 && b.Tail() < 4096 + 16
      ensures b != null && b !in old(free) ==> fresh(b) && fresh(b.mem)
      ensures b == null ==> n == 0 || (!maps && forall k :: k in old(free) ==> k.mem.Length - 4096 < n)
    {
      b := null;
      var best := BestOf(Caps(free), n);
      if best < |free| {
        b := TakeKept(best, n);
        if b != null { return; }
      }
      b := GuardedBuf.New(n, maps);
    }

    /** Hands a buffer back; a full pool or an outsized buffer is let go. */
    method Give(b: GuardedBuf)
      requires Valid() && b.Valid() && b !in free && b.mem !in Mems()
      modifies this
      ensures Valid()
      ensures free == Returned(old(free), b)
      ensures free == if |old(free)| < 8 && b.mem.Length - 4096 <= 65536 then old(free) + [b] else old(free)
    {
      if |free| < 8 && b.Capacity() <= 65536 { free := free + [b]; }
    }
  }
}
