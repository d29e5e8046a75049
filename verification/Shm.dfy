/** The shared-window allocator: three zones, each a first-fit free list that
    coalesces and refuses a double free. A zone's free list is a canonical
    description of its free bytes, and the lemmas say what that buys. */
module Shm {
  import opened Basics

  /** The next multiple of a page. */
  function AlignUp(v: nat): (r: nat)
    ensures r % 4096 == 0 && v <= r < v + 4096
  {
    (v + 4096 - 1) / 4096 * 4096
  }

  /** The same on 64-bit words, where the last page of lengths wraps to nothing. */
  function AlignUp64(v: U64): (r: nat)
    ensures r == if v + 4095 <= U64_MAX then AlignUp(v) else 0
  {
    (v + 4096 - 1) % (U64_MAX + 1) / 4096 * 4096
  }

  lemma AlignedTwice(v: U64)
    ensures AlignUp(AlignUp64(v)) == AlignUp64(v) == AlignUp64(AlignUp64(v))
    ensures AlignUp64(v) == AlignUp(v) || (AlignUp64(v) == 0 && AlignUp(v) > U64_MAX)
    ensures AlignUp64(v) == 0 ==> v == 0 || AlignUp(v) > U64_MAX
    ensures v == 0 ==> AlignUp64(v) == 0
  {
  }

  // ---------------------------------------------------------------------
  // Free bytes and the extents that describe them

  /** The list of a zone nothing has been taken from. */
  function Whole(size: nat): map<nat, nat> {
    if size > 0 then map[0 := size] else map[]
  }

  /** Byte `b` lies in the extent at `o`. */
  predicate Covers(free: map<nat, nat>, o: nat, b: nat) {
    o in free && o <= b < o + free[o]
  }

  /** Byte `b` lies in some free extent. */
  ghost predicate IsFree(free: map<nat, nat>, b: nat) {
    exists o :: Covers(free, o, b)
  }

  /** Extents are non-empty, inside the zone, disjoint, and never touch. */
  ghost predicate Canonical(free: map<nat, nat>, size: nat) {
    && (forall o :: o in free ==> free[o] > 0 && o + free[o] <= size)
    && (forall o, p :: o in free && p in free && o < p ==> o + free[o] < p)
  }

  /** Every byte of `[at, at + want)` is free. */
  ghost predicate RunFree(free: map<nat, nat>, at: nat, want: nat) {
    forall b :: at <= b < at + want ==> IsFree(free, b)
  }

  /** No byte of `[at, at + want)` is free. */
  ghost predicate RunTaken(free: map<nat, nat>, at: nat, want: nat) {
    forall b :: at <= b < at + want ==> !IsFree(free, b)
  }

  /** The lowest place where so many bytes are free. */
  ghost predicate Lowest(free: map<nat, nat>, at: nat, want: nat) {
    RunFree(free, at, want) && forall s :: RunFree(free, s, want) ==> at <= s
  }

  /** Exactly the bytes of `[at, at + want)` are no longer free. */
  ghost predicate Less(free: map<nat, nat>, at: nat, want: nat, after: map<nat, nat>) {
    forall b: nat :: IsFree(after, b) <==> IsFree(free, b) && !(at <= b < at + want)
  }

  /** Exactly the bytes of `[at, at + want)` are free besides. */
  ghost predicate More(free: map<nat, nat>, at: nat, want: nat, after: map<nat, nat>) {
    forall b: nat :: IsFree(after, b) <==> IsFree(free, b) || at <= b < at + want
  }

  /** The byte before an extent and the byte after it are not free. */
  lemma ExtentEnds(free: map<nat, nat>, size: nat, o: nat)
    requires Canonical(free, size) && o in free
    ensures o > 0 ==> !IsFree(free, o - 1)
    ensures !IsFree(free, o + free[o])
  {
  }

  lemma BelowIsFree(free: map<nat, nat>, p: nat, o: nat)
    requires Covers(free, p, o)
    ensures p < o ==> IsFree(free, o - 1)
  {
    if p < o { assert Covers(free, p, o - 1); }
  }

  lemma SameExtent(f: map<nat, nat>, g: map<nat, nat>, size: nat, o: nat)
    requires Canonical(f, size) && Canonical(g, size)
    requires forall b: nat :: IsFree(f, b) <==> IsFree(g, b)
    requires o in f
    ensures o in g && g[o] >= f[o]
  {
    ExtentEnds(f, size, o);
    assert Covers(f, o, o);
    assert IsFree(g, o);
    var p: nat :| Covers(g, p, o);
    BelowIsFree(g, p, o);
    ExtentEnds(g, size, o);
    assert g[o] < f[o] ==> Covers(f, o, o + g[o]);
  }

  /** The free list is a canonical form: two with the same free bytes are the same list. */
  lemma CanonicalIsUnique(f: map<nat, nat>, g: map<nat, nat>, size: nat)
    requires Canonical(f, size) && Canonical(g, size)
    requires forall b: nat :: IsFree(f, b) <==> IsFree(g, b)
    ensures f == g
  {
    forall o | o in f ensures o in g && f[o] == g[o] {
      SameExtent(f, g, size, o);
      SameExtent(g, f, size, o);
    }
    forall o | o in g ensures o in f {
      SameExtent(g, f, size, o);
    }
  }

  /** A free run lies inside one extent, since extents never touch. */
  lemma {:induction false} RunInOneExtent(free: map<nat, nat>, size: nat, at: nat, want: nat) returns (o: nat)
    requires Canonical(free, size) && want > 0 && RunFree(free, at, want)
    ensures o in free && o <= at && at + want <= o + free[o]
    decreases want
  {
    assert IsFree(free, at + want - 1);
    if want == 1 {
      o :| Covers(free, o, at);
    } else {
      o := RunInOneExtent(free, size, at, want - 1);
      if o + free[o] == at + want - 1 { ExtentEnds(free, size, o); }
    }
  }

  lemma ExtentIsRun(free: map<nat, nat>, o: nat, at: nat, want: nat)
    requires o in free && o <= at && at + want <= o + free[o]
    ensures RunFree(free, at, want)
  {
    forall b | at <= b < at + want ensures IsFree(free, b) {
      assert Covers(free, o, b);
    }
  }

  /** A non-empty set of offsets has a least one and a greatest one. */
  lemma {:induction false} Extremes(s: set<nat>) returns (least: nat, greatest: nat)
    requires s != {}
    ensures least in s && forall x :: x in s ==> least <= x
    ensures greatest in s && forall x :: x in s ==> x <= greatest
    decreases s
  {
    var pick :| pick in s;
    if s == {pick} {
      least, greatest := pick, pick;
    } else {
      var lo, hi := Extremes(s - {pick});
      least := if pick <= lo then pick else lo;
      greatest := if pick >= hi then pick else hi;
      forall x | x in s ensures least <= x <= greatest {
        assert x == pick || x in s - {pick};
      }
    }
  }

  /** The ordered map's own queries: the first entry an ordered walk meets. */
  method FirstFit(free: map<nat, nat>, want: nat) returns (start: Option<nat>)
    ensures start.None? <==> forall o :: o in free ==> free[o] < want
    ensures start.Some? ==> start.value in free && free[start.value] >= want
                            && forall o :: o in free && free[o] >= want ==> start.value <= o
  {
    var fits := set o | o in free && free[o] >= want;
    if fits == {} {
      assert forall o :: o in free && free[o] >= want ==> o in fits;
      return None;
    }
    ghost var lo, hi := Extremes(fits);
    var least :| least in fits && forall o :: o in fits ==> least <= o;
    assert forall o :: o in free && free[o] >= want ==> o in fits;
    start := Some(least);
  }

  /** `range(..=at).next_back()` */
  method LastUpTo(free: map<nat, nat>, at: nat) returns (below: Option<nat>)
    ensures below.None? <==> forall o :: o in free ==> o > at
    ensures below.Some? ==> below.value in free && below.value <= at
                            && forall o :: o in free && o <= at ==> o <= below.value
  {
    var near := set o | o in free && o <= at;
    if near == {} {
      assert forall o :: o in free && o <= at ==> o in near;
      return None;
    }
    ghost var lo, hi := Extremes(near);
    var greatest :| greatest in near && forall o :: o in near ==> o <= greatest;
    assert forall o :: o in free && o <= at ==> o in near;
    below := Some(greatest);
  }

  /** `range(at..).next()` */
  method FirstFrom(free: map<nat, nat>, at: nat) returns (above: Option<nat>)
    ensures above.None? <==> forall o :: o in free ==> o < at
    ensures above.Some? ==> above.value in free && above.value >= at
                            && forall o :: o in free && o >= at ==> above.value <= o
  {
    var near := set o | o in free && o >= at;
    if near == {} {
      assert forall o :: o in free && o >= at ==> o in near;
      return None;
    }
    ghost var lo, hi := Extremes(near);
    var least :| least in near && forall o :: o in near ==> least <= o;
    assert forall o :: o in free && o >= at ==> o in near;
    above := Some(least);
  }

  /** The first extent that is long enough starts the lowest free run; with none there is no run. */
  lemma FirstIsLowest(free: map<nat, nat>, size: nat, want: nat, start: Option<nat>)
    requires Canonical(free, size) && want > 0
    requires start.None? ==> forall o :: o in free ==> free[o] < want
    requires start.Some? ==> start.value in free && free[start.value] >= want
                             && forall o :: o in free && free[o] >= want ==> start.value <= o
    ensures start.None? <==> !CanFit(free, want)
    ensures start.Some? ==> Lowest(free, start.value, want) && start.value + want <= size
  {
    hide IsFree;
    if start.Some? { ExtentIsRun(free, start.value, start.value, want); }
    forall s | RunFree(free, s, want) ensures start.Some? && start.value <= s {
      var o := RunInOneExtent(free, size, s, want);
    }
  }

  // ---------------------------------------------------------------------
  // What each operation does to the list

  function Fronted(free: map<nat, nat>, start: nat, want: nat): map<nat, nat>
    requires start in free && want <= free[start]
  {
    if free[start] > want then (free - {start})[start + want := free[start] - want] else free - {start}
  }

  lemma FrontedCanonical(free: map<nat, nat>, size: nat, start: nat, want: nat)
    requires Canonical(free, size) && start in free && 0 < want <= free[start]
    ensures Canonical(Fronted(free, start, want), size)
  {
  }

  /** Taking the front of an extent takes exactly those bytes. */
  lemma FrontedBytes(free: map<nat, nat>, size: nat, start: nat, want: nat, b: nat)
    requires Canonical(free, size) && start in free && 0 < want <= free[start]
    ensures IsFree(Fronted(free, start, want), b) <==> IsFree(free, b) && !(start <= b < start + want)
  {
    var rest := Fronted(free, start, want);
    if IsFree(rest, b) {
      var o: nat :| Covers(rest, o, b);
      assert Covers(free, if o == start + want && o !in free - {start} then start else o, b);
    }
    if IsFree(free, b) && !(start <= b < start + want) {
      var o: nat :| Covers(free, o, b);
      assert Covers(rest, if o == start then start + want else o, b);
    }
  }

  lemma FrontedLess(free: map<nat, nat>, size: nat, start: nat, want: nat)
    requires Canonical(free, size) && start in free && 0 < want <= free[start]
    ensures Less(free, start, want, Fronted(free, start, want))
  {
    hide Canonical, IsFree, Fronted;
    forall b: nat
      ensures IsFree(Fronted(free, start, want), b) <==> IsFree(free, b) && !(start <= b < start + want)
    {
      FrontedBytes(free, size, start, want, b);
    }
  }

  /** The extent that ends at `start` begins at `s`; there is none when that is `start` itself. */
  ghost predicate BelowOf(free: map<nat, nat>, start: nat, s: nat) {
    if s < start then s in free && s + free[s] == start
    else forall o :: o in free && o < start ==> o + free[o] != start
  }

  /** What an extent swallows when it is put back: the one ending at its start, the one starting at its end. */
  ghost predicate Merged(free: map<nat, nat>, start: nat, want: nat, s: nat, l: nat) {
    && s <= start && start + want <= s + l
    && BelowOf(free, start, s)
    && (if start + want in free then s + l == start + want + free[start + want]
        else s + l == start + want)
  }

  function Replaced(free: map<nat, nat>, start: nat, want: nat, s: nat, l: nat): map<nat, nat> {
    (free - {s, start + want})[s := l]
  }

  /** What was not swallowed does not touch what comes out. */
  lemma SwallowedApart(free: map<nat, nat>, size: nat, start: nat, want: nat, s: nat, l: nat, o: nat)
    requires Canonical(free, size) && want > 0
    requires Beside(free, start, want) && Merged(free, start, want, s, l)
    requires o in free && o != s && o != start + want
    ensures o + free[o] < s || s + l < o
  {
    if o < start {
      assert o + free[o] <= start;
    } else {
      assert start + want < o;
    }
  }

  lemma ReplacedCanonical(free: map<nat, nat>, size: nat, start: nat, want: nat, s: nat, l: nat)
    requires Canonical(free, size) && want > 0 && start + want <= size
    requires Beside(free, start, want)
    requires Merged(free, start, want, s, l)
    ensures Canonical(Replaced(free, start, want, s, l), size)
  {
    var after := Replaced(free, start, want, s, l);
    assert s + l <= size by {
      if start + want in free { assert start + want + free[start + want] <= size; }
    }
    forall o | o in after && o != s ensures after[o] == free[o] > 0 && o + free[o] <= size && (o + free[o] < s || s + l < o) {
      SwallowedApart(free, size, start, want, s, l, o);
    }
  }

  lemma ReplacedBytes(free: map<nat, nat>, size: nat, start: nat, want: nat, s: nat, l: nat, b: nat)
    requires Canonical(free, size) && want > 0
    requires Beside(free, start, want)
    requires Merged(free, start, want, s, l)
    ensures IsFree(Replaced(free, start, want, s, l), b) <==> IsFree(free, b) || start <= b < start + want
  {
    var after := Replaced(free, start, want, s, l);
    if IsFree(free, b) {
      var o: nat :| Covers(free, o, b);
      assert Covers(after, if o == s || o == start + want then s else o, b);
    }
    if start <= b < start + want { assert Covers(after, s, b); }
    if IsFree(after, b) && !(start <= b < start + want) {
      var o: nat :| Covers(after, o, b);
      assert Covers(free, if o != s then o else if b < start then s else start + want, b);
    }
  }

  lemma ReplacedMore(free: map<nat, nat>, size: nat, start: nat, want: nat, s: nat, l: nat)
    requires Canonical(free, size) && want > 0
    requires Beside(free, start, want)
    requires Merged(free, start, want, s, l)
    ensures More(free, start, want, Replaced(free, start, want, s, l))
  {
    hide Canonical, IsFree, Beside, Merged, Replaced;
    forall b: nat
      ensures IsFree(Replaced(free, start, want, s, l), b) <==> IsFree(free, b) || start <= b < start + want
    {
      ReplacedBytes(free, size, start, want, s, l, b);
    }
  }

  lemma NotYetFree(free: map<nat, nat>, size: nat, start: nat, want: nat)
    requires Canonical(free, size) && want > 0 && Beside(free, start, want)
    ensures start !in free
  {
  }

  lemma JoinedIsMerged(free: map<nat, nat>, start: nat, want: nat, s: nat, more: nat)
    requires s <= start && want > 0
    requires BelowOf(free, start, s)
    requires more == if start + want in free then free[start + want] else 0
    ensures Merged(free, start, want, s, start + want - s + more)
  {
  }

  /** Every extent ends by `start` or begins at `start + want` or later. */
  ghost predicate Beside(free: map<nat, nat>, start: nat, want: nat) {
    forall o :: o in free ==> o + free[o] <= start || start + want <= o
  }

  lemma BesideIsTaken(free: map<nat, nat>, start: nat, want: nat)
    requires want > 0 && forall o :: o in free ==> free[o] > 0
    ensures Beside(free, start, want) <==> RunTaken(free, start, want)
  {
    if RunTaken(free, start, want) {
      forall o | o in free ensures o + free[o] <= start || start + want <= o {
        var b: nat := if o <= start then start else o;
        assert o < start + want && start < o + free[o] ==> Covers(free, o, b) && start <= b < start + want;
        assert !Covers(free, o, b) || IsFree(free, b);
      }
    }
  }

  class Zone {
    const base: nat
    const size: nat
    var free: map<nat, nat>

    ghost predicate Valid()
      reads this
    {
      Canonical(free, size) && base + size <= U64_MAX
    }

    constructor (base: nat, size: nat)
      requires base + size <= U64_MAX
      ensures Valid() && this.base == base && this.size == size
      ensures free == Whole(size) && forall b: nat :: IsFree(free, b) <==> b < size
    {
      this.base, this.size := base, size;
      free := Whole(size);
      new;
      WholeIsFree(size);
    }

    /** First fit: the lowest offset at which the rounded length is free, or None when there is none. */
    method Alloc(length: U64) returns (r: Option<nat>)
      requires Valid()
      modifies this`free
      ensures Valid()
      ensures r.None? ==> free == old(free)
      ensures r.None? <==> length == 0 || !CanFit(old(free), AlignUp(length))
      ensures r.Some? ==>
                && base <= r.value && r.value - base + AlignUp(length) <= size
                && Lowest(old(free), r.value - base, AlignUp(length))
                && Less(old(free), r.value - base, AlignUp(length), free)
    {
      hide IsFree, RunFree, Canonical, Lowest, Less, AlignUp, AlignUp64, CanFit;
      AlignedTwice(length);
      var want := AlignUp64(length);
      ghost var before: map<nat, nat> := free;
      if want == 0 {
        if length > 0 { TooLongToFit(before, size, AlignUp(length)); }
        return None;
      }
      var found := FirstFit(free, want);
      FirstIsLowest(before, size, want, found);
      if found.None? { return None; }
      var start := found.value;
      var len := free[start];
      FrontedCanonical(before, size, start, want);
      FrontedLess(before, size, start, want);
      free := free - {start};
      if len > want {
        free := free[start + want := len - want];
      }
      assert free == Fronted(before, start, want);
      r := Some(base + start);
    }

    /** Returns a range, merged with its neighbours. Refused unless it is a non-empty range of
        this zone with no free byte in it. */
    method FreeExtent(offset: U64, length: U64) returns (ok: bool)
      requires Valid()
      requires base <= offset ==> offset - base + AlignUp64(length) <= U64_MAX
      modifies this`free
      ensures Valid()
      ensures ok <==> length > 0 && base <= offset && offset - base + AlignUp(length) <= size
                      && RunTaken(old(free), offset - base, AlignUp(length))
      ensures !ok ==> free == old(free)
      ensures ok ==> More(old(free), offset - base, AlignUp(length), free)
    {
      var want := AlignUp64(length);
      if want == 0 || offset < base { return false; }
      var start := offset - base;
      if start + want > size { return false; }
      BesideIsTaken(free, start, want);
      var below := LastUpTo(free, start);
      if below.Some? && below.value + free[below.value] > start { return false; }
      var above := FirstFrom(free, start);
      if above.Some? && start + want > above.value { return false; }
      assert Beside(free, start, want);
      PutBack(start, want);
      ok := true;
    }

    /** Takes out the extent that ends exactly at `start`, if there is one. */
    method JoinBelow(start: nat, want: nat) returns (s: nat, l: nat)
      requires Valid() && start !in free
      modifies this`free
      ensures s <= start && s + l == start + want && free == old(free) - {s}
      ensures BelowOf(old(free), start, s)
    {
      s, l := start, want;
      if s > 0 {
        var prev := LastUpTo(free, s - 1);
        if prev.Some? && prev.value + free[prev.value] == s {
          var pl := free[prev.value];
          free := free - {prev.value};
          s := prev.value;
          l := l + pl;
        }
      }
    }

    /** Takes out the extent that starts exactly at `end`, if there is one. */
    method JoinAbove(end: nat) returns (more: nat)
      modifies this`free
      ensures free == old(free) - {end}
      ensures more == if end in old(free) then old(free)[end] else 0
    {
      more := 0;
      var next := FirstFrom(free, end);
      if next.Some? && end == next.value {
        more := free[next.value];
        free := free - {next.value};
      } else {
        assert end !in free;
      }
    }

    /** The coalescing half: the range joins the extent below it and the one above it. */
    method PutBack(start: nat, want: nat)
      requires Valid() && want > 0 && start + want <= size && Beside(free, start, want)
      modifies this`free
      ensures Valid() && More(old(free), start, want, free)
    {
      hide IsFree, Canonical, Beside, Merged, More;
      ghost var before: map<nat, nat> := free;
      NotYetFree(before, size, start, want);
      var s, l := JoinBelow(start, want);
      var more := JoinAbove(s + l);
      l := l + more;
      free := free[s := l];
      JoinedIsMerged(before, start, want, s, more);
      assert free == Replaced(before, start, want, s, l);
      ReplacedCanonical(before, size, start, want, s, l);
      ReplacedMore(before, size, start, want, s, l);
    }

    /** The free bytes, summed over the extents: as many as there are free bytes. */
    method FreeBytes() returns (total: nat)
      requires Valid()
      ensures total == |FreeSet(free, size)|
    {
      total := 0;
      var rest := free.Keys;
      ghost var seen: map<nat, nat> := map[];
      assert FreeSet(seen, size) == {};
      while rest != {}
        invariant rest <= free.Keys
        invariant seen == free - rest
        invariant total == |FreeSet(seen, size)|
        decreases rest
      {
        var o :| o in rest;
        rest := rest - {o};
        var now := seen[o := free[o]];
        assert now == free - rest;
        OneMoreExtent(free, size, seen, o);
        seen := now;
        total := total + free[o];
      }
      assert seen == free;
    }

    /** The largest extent: exactly the requests up to it succeed. */
    method LargestFree() returns (most: nat)
      requires Valid()
      ensures forall n: nat :: n > 0 ==> (n <= most <==> CanFit(free, n))
    {
      most := 0;
      var rest := free.Keys;
      while rest != {}
        invariant rest <= free.Keys
        invariant forall o :: o in free && o !in rest ==> free[o] <= most
        invariant most > 0 ==> exists o :: o in free && free[o] == most
        decreases rest
      {
        var o :| o in rest;
        rest := rest - {o};
        if free[o] > most { most := free[o]; }
      }
      forall n: nat | n > 0 ensures n <= most <==> CanFit(free, n) {
        if n <= most {
          var o: nat :| o in free && free[o] == most;
          ExtentIsRun(free, o, o, n);
        }
        if CanFit(free, n) {
          var s: nat :| RunFree(free, s, n);
          var o := RunInOneExtent(free, size, s, n);
        }
      }
    }
  }

  ghost predicate CanFit(free: map<nat, nat>, n: nat) {
    exists s :: RunFree(free, s, n)
  }

  /** Nothing longer than the zone fits in it. */
  lemma TooLongToFit(free: map<nat, nat>, size: nat, n: nat)
    requires Canonical(free, size) && n > size
    ensures !CanFit(free, n)
  {
    if CanFit(free, n) {
      var s: nat :| RunFree(free, s, n);
      var o := RunInOneExtent(free, size, s, n);
    }
  }

  lemma WholeIsFree(size: nat)
    ensures Canonical(Whole(size), size) && forall b: nat :: IsFree(Whole(size), b) <==> b < size
  {
    forall b: nat ensures IsFree(Whole(size), b) <==> b < size {
      if b < size { assert Covers(Whole(size), 0, b); }
    }
  }

  ghost function FreeSet(free: map<nat, nat>, size: nat): set<nat> {
    set b: nat | b < size && IsFree(free, b)
  }

  lemma ExtentAdds(seen: map<nat, nat>, o: nat, len: nat)
    requires o !in seen
    ensures More(seen, o, len, seen[o := len])
  {
    var now := seen[o := len];
    forall b: nat ensures IsFree(now, b) <==> IsFree(seen, b) || o <= b < o + len {
      if IsFree(seen, b) {
        var p: nat :| Covers(seen, p, b);
        assert Covers(now, p, b);
      }
      if o <= b < o + len { assert Covers(now, o, b); }
      if IsFree(now, b) && !(o <= b < o + len) {
        var p: nat :| Covers(now, p, b);
        assert Covers(seen, p, b);
      }
    }
  }

  lemma MoreBytes(seen: map<nat, nat>, size: nat, o: nat, len: nat, now: map<nat, nat>)
    requires o + len <= size && More(seen, o, len, now)
    requires forall b: nat :: IsFree(seen, b) ==> !(o <= b < o + len)
    ensures |FreeSet(now, size)| == |FreeSet(seen, size)| + len
  {
    hide IsFree;
    SpanSize(o, len);
    assert FreeSet(now, size) == FreeSet(seen, size) + Span(o, len);
    assert FreeSet(seen, size) * Span(o, len) == {};
  }

  lemma OneMoreExtent(free: map<nat, nat>, size: nat, seen: map<nat, nat>, o: nat)
    requires Canonical(free, size) && o in free && o !in seen
    requires seen.Keys <= free.Keys && forall p :: p in seen ==> seen[p] == free[p]
    ensures |FreeSet(seen[o := free[o]], size)| == |FreeSet(seen, size)| + free[o]
  {
    ExtentAdds(seen, o, free[o]);
    forall b: nat | IsFree(seen, b) ensures !(o <= b < o + free[o]) {
      var p: nat :| Covers(seen, p, b);
      assert Covers(free, p, b);
    }
    MoreBytes(seen, size, o, free[o], seen[o := free[o]]);
  }

  // ---------------------------------------------------------------------
  // Free and handed out

  datatype Pgprot = WriteBack | WriteCombine | Uncached

  datatype Region = Region(offset: U64, length: U64, pgprot: Pgprot)

  predicate InRegion(r: Region, at: nat) {
    r.offset <= at < r.offset + AlignUp(r.length)
  }

  /** Every byte of a zone is free or in exactly one of the regions handed out from it. */
  ghost predicate Tiled(base: nat, size: nat, free: map<nat, nat>, live: set<Region>) {
    && (forall r :: r in live ==> r.length > 0 && base <= r.offset && r.offset + AlignUp(r.length) <= base + size)
    && (forall b: nat :: b < size ==> (IsFree(free, b) <==> !InSome(live, base + b)))
    && (forall r, q, at :: r in live && q in live && InRegion(r, at) && InRegion(q, at) ==> r == q)
  }

  ghost predicate InSome(live: set<Region>, at: nat) {
    exists r :: r in live && InRegion(r, at)
  }

  lemma TiledAfterAlloc(base: nat, size: nat, free: map<nat, nat>, live: set<Region>, r: Region, after: map<nat, nat>)
    requires Tiled(base, size, free, live) && Canonical(free, size)
    requires r.length > 0 && base <= r.offset && RunFree(free, r.offset - base, AlignUp(r.length))
    requires Less(free, r.offset - base, AlignUp(r.length), after)
    ensures r !in live
    ensures Tiled(base, size, after, live + {r})
  {
    var o := RunInOneExtent(free, size, r.offset - base, AlignUp(r.length));
    forall at: nat, q | q in live && InRegion(r, at) ensures !InRegion(q, at) {
      assert IsFree(free, at - base);
      assert !InSome(live, base + (at - base));
    }
    assert InRegion(r, r.offset);
    forall b: nat | b < size ensures IsFree(after, b) <==> !InSome(live + {r}, base + b) {
      if InRegion(r, base + b) {
        assert r in live + {r};
      } else if InSome(live, base + b) {
        var q :| q in live && InRegion(q, base + b);
        assert q in live + {r};
      }
    }
  }

  lemma TiledAfterFree(base: nat, size: nat, free: map<nat, nat>, live: set<Region>, r: Region, after: map<nat, nat>)
    requires Tiled(base, size, free, live) && r in live
    requires More(free, r.offset - base, AlignUp(r.length), after)
    ensures Tiled(base, size, after, live - {r})
  {
    hide AlignUp;
  }

  lemma LiveIsTaken(base: nat, size: nat, free: map<nat, nat>, live: set<Region>, r: Region)
    requires Holds(base, size, Books(free, live)) && r in live
    ensures Acceptable(base, size, free, r)
  {
  }

  /** However a zone got there: with nothing handed out, its list is the one extent it began with. */
  lemma NothingLiveIsWhole(base: nat, size: nat, free: map<nat, nat>)
    requires Canonical(free, size) && Tiled(base, size, free, {})
    ensures free == Whole(size)
  {
    WholeIsFree(size);
    forall b: nat ensures IsFree(free, b) <==> IsFree(Whole(size), b) {
      if IsFree(free, b) {
        var o: nat :| Covers(free, o, b);
      }
      if b < size { assert !InSome({}, base + b); }
    }
    CanonicalIsUnique(free, Whole(size), size);
  }

  ghost function LiveBytes(live: set<Region>): nat {
    if live == {} then 0
    else
      var r :| r in live;
      AlignUp(r.length) + LiveBytes(live - {r})
  }

  ghost predicate LiveAt(live: set<Region>, base: nat, b: nat) {
    InSome(live, base + b)
  }

  ghost function LiveSet(base: nat, size: nat, live: set<Region>): set<nat> {
    set b: nat | b < size && LiveAt(live, base, b)
  }

  lemma LiveSetSplit(base: nat, size: nat, live: set<Region>, r: Region, own: set<nat>)
    requires r in live && base <= r.offset && r.offset + AlignUp(r.length) <= base + size
    requires forall q, at :: q in live && InRegion(r, at) && InRegion(q, at) ==> r == q
    requires forall b :: b in own <==> r.offset - base <= b < r.offset - base + AlignUp(r.length)
    ensures LiveSet(base, size, live) == LiveSet(base, size, live - {r}) + own
    ensures LiveSet(base, size, live - {r}) * own == {}
  {
    var rest := live - {r};
    forall b: nat ensures b in own <==> InRegion(r, base + b) {}
    forall b: nat | b < size ensures LiveAt(live, base, b) <==> LiveAt(rest, base, b) || b in own {
      if LiveAt(live, base, b) {
        var q :| q in live && InRegion(q, base + b);
        assert q != r ==> q in rest;
      }
    }
    forall b: nat | LiveAt(rest, base, b) ensures b !in own {
      var q :| q in rest && InRegion(q, base + b);
    }
  }

  lemma LiveSetStep(base: nat, size: nat, live: set<Region>, r: Region)
    requires r in live && base <= r.offset && r.offset + AlignUp(r.length) <= base + size
    requires forall q, at :: q in live && InRegion(r, at) && InRegion(q, at) ==> r == q
    ensures |LiveSet(base, size, live)| == |LiveSet(base, size, live - {r})| + AlignUp(r.length)
  {
    var at, len := r.offset - base, AlignUp(r.length);
    SpanSize(at, len);
    LiveSetSplit(base, size, live, r, Span(at, len));
  }

  lemma {:induction false} LiveSetSize(base: nat, size: nat, live: set<Region>)
    requires forall r :: r in live ==> base <= r.offset && r.offset + AlignUp(r.length) <= base + size
    requires forall r, q, at :: r in live && q in live && InRegion(r, at) && InRegion(q, at) ==> r == q
    ensures |LiveSet(base, size, live)| == LiveBytes(live)
    decreases live
  {
    if live == {} {
      assert LiveSet(base, size, live) == {};
    } else {
      var r :| r in live && LiveBytes(live) == AlignUp(r.length) + LiveBytes(live - {r});
      LiveSetSize(base, size, live - {r});
      LiveSetStep(base, size, live, r);
    }
  }

  /** Free bytes and handed-out bytes add up to the zone. */
  lemma FreePlusLive(base: nat, size: nat, free: map<nat, nat>, live: set<Region>)
    requires Tiled(base, size, free, live)
    ensures |FreeSet(free, size)| + LiveBytes(live) == size
  {
    hide IsFree, InSome;
    LiveSetSize(base, size, live);
    assert forall b: nat :: b < size ==> (IsFree(free, b) <==> !LiveAt(live, base, b));
    SpanSize(0, size);
    assert FreeSet(free, size) + LiveSet(base, size, live) == Span(0, size);
    assert FreeSet(free, size) * LiveSet(base, size, live) == {};
  }

  // ---------------------------------------------------------------------
  // Runs

  /** One zone: its free list, and what has been handed out of it and not returned. */
  datatype Books = Books(free: map<nat, nat>, live: set<Region>)

  datatype Op = Take(r: Region) | Give(r: Region) | Refuse

  /** First fit: the lowest free run of the rounded length goes, and nothing else. */
  ghost predicate Taken(base: nat, s: Books, r: Region, t: Books) {
    && r.length > 0 && base <= r.offset
    && Lowest(s.free, r.offset - base, AlignUp(r.length))
    && Less(s.free, r.offset - base, AlignUp(r.length), t.free)
    && t.live == s.live + {r}
  }

  /** What a return is accepted on: a range of the zone with no free byte in it, whoever holds it. */
  ghost predicate Acceptable(base: nat, size: nat, free: map<nat, nat>, r: Region) {
    && r.length > 0 && base <= r.offset && r.offset - base + AlignUp(r.length) <= size
    && RunTaken(free, r.offset - base, AlignUp(r.length))
  }

  ghost predicate Given(base: nat, size: nat, s: Books, r: Region, t: Books) {
    && Acceptable(base, size, s.free, r)
    && More(s.free, r.offset - base, AlignUp(r.length), t.free)
    && t.live == s.live - {r}
  }

  lemma GivenBack(base: nat, size: nat, s: Books, r: Region, after: map<nat, nat>)
    requires Acceptable(base, size, s.free, r) && Canonical(after, size)
    requires More(s.free, r.offset - base, AlignUp(r.length), after)
    ensures Step(base, size, s, Give(r), Books(after, s.live - {r}))
  {
  }

  ghost predicate Step(base: nat, size: nat, s: Books, op: Op, t: Books) {
    && Canonical(t.free, size)
    && match op
       case Take(r) => Taken(base, s, r, t)
       case Give(r) => Given(base, size, s, r, t)
       case Refuse => s == t
  }

  ghost predicate Holds(base: nat, size: nat, s: Books) {
    Canonical(s.free, size) && Tiled(base, size, s.free, s.live)
  }

  lemma WholeHolds(base: nat, size: nat)
    ensures Holds(base, size, Books(Whole(size), {}))
  {
    WholeIsFree(size);
    assert forall at :: !InSome({}, at);
  }

  /** A return of a region that is not live, its range having been handed out again. */
  predicate Stale(s: Books, op: Op) {
    op.Give? && op.r !in s.live
  }

  /** A step keeps the zone tiled exactly when it is not a stale return. */
  lemma StepKeepsTiles(base: nat, size: nat, s: Books, op: Op, t: Books)
    requires Holds(base, size, s) && Step(base, size, s, op, t)
    ensures Holds(base, size, t) <==> !Stale(s, op)
  {
    match op
    case Refuse =>
    case Take(r) => TiledAfterAlloc(base, size, s.free, s.live, r, t.free);
    case Give(r) =>
      if r in s.live {
        TiledAfterFree(base, size, s.free, s.live, r, t.free);
      } else {
        StaleUntiles(base, size, s, r, t);
      }
  }

  /** Another region holds the first byte of a range returned late, and from then on that byte is free too. */
  lemma StaleUntiles(base: nat, size: nat, s: Books, r: Region, t: Books)
    requires Tiled(base, size, s.free, s.live) && Given(base, size, s, r, t) && r !in s.live
    ensures !Tiled(base, size, t.free, t.live)
  {
    var b: nat := r.offset - base;
    assert InRegion(r, base + b) && !IsFree(s.free, b);
    assert InSome(s.live, base + b);
    assert t.live == s.live;
  }

  ghost predicate Run(base: nat, size: nat, states: seq<Books>, ops: seq<Op>) {
    && |states| == |ops| + 1
    && states[0] == Books(Whole(size), {})
    && forall i :: 0 <= i < |ops| ==> Step(base, size, states[i], ops[i], states[i + 1])
  }

  /** Over any run the zone stays tiled as far as the first stale return, and not behind it. */
  lemma {:induction false} RunKeepsTiles(base: nat, size: nat, states: seq<Books>, ops: seq<Op>, n: nat)
    requires Run(base, size, states, ops) && n <= |ops|
    ensures (forall i :: 0 <= i <= n ==> Holds(base, size, states[i]))
            <==> forall i :: 0 <= i < n ==> !Stale(states[i], ops[i])
    decreases n
  {
    if n == 0 {
      WholeHolds(base, size);
    } else {
      RunKeepsTiles(base, size, states, ops, n - 1);
      if Holds(base, size, states[n - 1]) {
        StepKeepsTiles(base, size, states[n - 1], ops[n - 1], states[n]);
      }
    }
  }

  /** Over any run without a stale return: live regions are apart, free and live bytes add up, and
      once all has come back the zone is the one extent it began as. */
  lemma RunIsSound(base: nat, size: nat, states: seq<Books>, ops: seq<Op>, i: nat)
    requires Run(base, size, states, ops) && i < |states|
    requires forall k :: 0 <= k < i ==> !Stale(states[k], ops[k])
    ensures var s := states[i];
            && (forall r, q, at :: r in s.live && q in s.live && InRegion(r, at) && InRegion(q, at) ==> r == q)
            && |FreeSet(s.free, size)| + LiveBytes(s.live) == size
            && (s.live == {} ==> s == states[0])
  {
    RunKeepsTiles(base, size, states, ops, i);
    var s := states[i];
    assert Holds(base, size, s);
    FreePlusLive(base, size, s.free, s.live);
    if s.live == {} { NothingLiveIsWhole(base, size, s.free); }
  }

  /** A region comes back at most once for each time it was handed out, unless its bytes went to others:
      a second return right behind the first is refused. */
  lemma TwiceIsRefused(base: nat, size: nat, s: Books, r: Region, t: Books)
    requires Given(base, size, s, r, t)
    ensures !Acceptable(base, size, t.free, r)
  {
    var b: nat := r.offset - base;
    assert InRegion(r, base + b);
    assert IsFree(t.free, b);
  }

  // ---------------------------------------------------------------------
  // The window

  class ShmAllocator {
    const uc: Zone
    const wc: Zone
    const wb: Zone
    const totalSize: nat
    /** What has been handed out and not returned. */
    ghost var live: set<Region>

    ghost predicate Valid()
      reads this, uc, wc, wb
    {
      && uc != wc && uc != wb && wc != wb
      && uc.Valid() && wc.Valid() && wb.Valid()
      && uc.base == 0 && wc.base == uc.size && wb.base == uc.size + wc.size
      && totalSize == uc.size + wc.size + wb.size <= U64_MAX
    }

    function ZoneOf(p: Pgprot): Zone {
      match p
      case Uncached => uc
      case WriteCombine => wc
      case WriteBack => wb
    }

    ghost function LiveIn(p: Pgprot): set<Region>
      reads this
    {
      set r | r in live && r.pgprot == p
    }

    ghost function BooksOf(p: Pgprot): Books
      reads this, ZoneOf(p)
    {
      Books(ZoneOf(p).free, LiveIn(p))
    }

    /** Each zone is tiled by its free bytes and the live regions of its protection. */
    ghost predicate Accounted()
      reads this, uc, wc, wb
    {
      forall p :: Holds(ZoneOf(p).base, ZoneOf(p).size, BooksOf(p))
    }

    constructor (ucSize: nat, wcSize: nat, wbSize: nat)
      requires ucSize % 4096 == 0 && wcSize % 4096 == 0 && wbSize % 4096 == 0
      requires 0 < ucSize + wcSize + wbSize <= U64_MAX
      ensures Valid() && Accounted() && live == {}
      ensures uc.size == ucSize && wc.size == wcSize && wb.size == wbSize
      ensures fresh(uc) && fresh(wc) && fresh(wb)
    {
      hide IsFree, Tiled, Canonical, Whole;
      uc := new Zone(0, ucSize);
      wc := new Zone(ucSize, wcSize);
      wb := new Zone(ucSize + wcSize, wbSize);
      totalSize := ucSize + wcSize + wbSize;
      live := {};
      new;
      WholeHolds(uc.base, uc.size);
      WholeHolds(wc.base, wc.size);
      WholeHolds(wb.base, wb.size);
      assert forall p :: LiveIn(p) == {};
    }

    /** The lowest fitting place in the zone asked for, or an error when there is none. */
    method Alloc(length: U64, pgprot: Pgprot) returns (r: Option<Region>)
      requires Valid()
      modifies this`live, ZoneOf(pgprot)`free
      ensures Valid() && (old(Accounted()) ==> Accounted())
      ensures r.None? <==> length == 0 || !CanFit(old(ZoneOf(pgprot).free), AlignUp(length))
      ensures r.Some? ==> r.value.length == length && r.value.pgprot == pgprot
      ensures live == if r.Some? then old(live) + {r.value} else old(live)
      ensures r.Some? ==>
                var at, end := r.value.offset, r.value.offset + AlignUp(length);
                match pgprot
                case Uncached => end <= uc.size
                case WriteCombine => uc.size <= at && end <= uc.size + wc.size
                case WriteBack => uc.size + wc.size <= at && end <= uc.size + wc.size + wb.size
      ensures Step(ZoneOf(pgprot).base, ZoneOf(pgprot).size, old(BooksOf(pgprot)),
                   if r.Some? then Take(r.value) else Refuse, BooksOf(pgprot))
      ensures forall p :: p != pgprot ==> BooksOf(p) == old(BooksOf(p))
    {
      hide IsFree, RunFree, Lowest, Less, More, Holds, Canonical, AlignUp;
      var zone := ZoneOf(pgprot);
      ghost var before := BooksOf(pgprot);
      var at := zone.Alloc(length);
      if at.Some? {
        var region := Region(at.value, length, pgprot);
        live := live + {region};
        r := Some(region);
        assert LiveIn(pgprot) == before.live + {region};
      } else {
        r := None;
      }
      assert forall p :: p != pgprot ==> LiveIn(p) == old(LiveIn(p));
      if old(Accounted()) {
        StepKeepsTiles(zone.base, zone.size, before, if r.Some? then Take(r.value) else Refuse, BooksOf(pgprot));
      }
    }

    /** The half of a return that comes behind the restored backing. */
    method Reclaim(region: Region) returns (ok: bool)
      requires Valid()
      requires ZoneOf(region.pgprot).base <= region.offset ==>
                 region.offset - ZoneOf(region.pgprot).base + AlignUp64(region.length) <= U64_MAX
      modifies this`live, ZoneOf(region.pgprot)`free
      ensures Valid()
      ensures var zone := ZoneOf(region.pgprot);
              ok <==> Acceptable(zone.base, zone.size, old(zone.free), region)
      ensures live == if ok then old(live) - {region} else old(live)
      ensures Step(ZoneOf(region.pgprot).base, ZoneOf(region.pgprot).size, old(BooksOf(region.pgprot)),
                   if ok then Give(region) else Refuse, BooksOf(region.pgprot))
      ensures forall p :: p != region.pgprot ==> BooksOf(p) == old(BooksOf(p))
    {
      hide IsFree, RunFree, RunTaken, Less, More, Canonical, InRegion, Given, AlignUp, AlignUp64;
      var len := AlignUp64(region.length);
      var zone := ZoneOf(region.pgprot);
      ghost var before := BooksOf(region.pgprot);
      AlignedTwice(region.length);
      ok := zone.FreeExtent(region.offset, len);
      if ok {
        live := live - {region};
        GivenBack(zone.base, zone.size, before, region, zone.free);
      }
      assert ok ==> LiveIn(region.pgprot) == before.live - {region};
      assert forall p :: p != region.pgprot ==> LiveIn(p) == old(LiveIn(p));
    }

    /** Returns a region. The backing is restored first, which can fail and then changes nothing here.
        A live region is always accepted; a range with a free byte in it never is. One that was handed
        out again meanwhile is accepted as well, and then the accounting no longer holds. */
    method Free(region: Region, restored: bool) returns (ok: bool)
      requires Valid()
      requires ZoneOf(region.pgprot).base <= region.offset ==>
                 region.offset - ZoneOf(region.pgprot).base + AlignUp64(region.length) <= U64_MAX
      modifies this`live, ZoneOf(region.pgprot)`free
      ensures Valid()
      ensures var zone := ZoneOf(region.pgprot);
              ok <==> restored && Acceptable(zone.base, zone.size, old(zone.free), region)
      ensures old(Accounted()) && region in old(live) && restored ==> ok
      ensures old(Accounted()) && ok ==> (Accounted() <==> region in old(live))
      ensures live == if ok then old(live) - {region} else old(live)
      ensures Step(ZoneOf(region.pgprot).base, ZoneOf(region.pgprot).size, old(BooksOf(region.pgprot)),
                   if ok then Give(region) else Refuse, BooksOf(region.pgprot))
      ensures forall p :: p != region.pgprot ==> BooksOf(p) == old(BooksOf(p))
    {
      hide RunFree, RunTaken, Holds, Canonical, InRegion, Acceptable, Taken, Given;
      var zone := ZoneOf(region.pgprot);
      ghost var before := BooksOf(region.pgprot);
      if old(Accounted()) && region in live {
        LiveIsTaken(zone.base, zone.size, before.free, before.live, region);
      }
      ok := false;
      if restored { ok := Reclaim(region); }
      if old(Accounted()) {
        StepKeepsTiles(zone.base, zone.size, before, if ok then Give(region) else Refuse, BooksOf(region.pgprot));
      }
    }

    /** No byte of the window is in two live regions, whichever zones they came from. */
    lemma LiveDisjoint(r: Region, q: Region, at: nat)
      requires Valid() && Accounted()
      requires r in live && q in live && InRegion(r, at) && InRegion(q, at)
      ensures r == q
    {
      assert r in LiveIn(r.pgprot) && q in LiveIn(q.pgprot);
      assert Holds(ZoneOf(r.pgprot).base, ZoneOf(r.pgprot).size, BooksOf(r.pgprot));
      assert Holds(ZoneOf(q.pgprot).base, ZoneOf(q.pgprot).size, BooksOf(q.pgprot));
    }

    /** Once everything handed out has come back, every zone is the single extent it started as. */
    lemma AllReturned(p: Pgprot)
      requires Valid() && Accounted() && live == {}
      ensures ZoneOf(p).free == Whole(ZoneOf(p).size)
    {
      assert LiveIn(p) == {};
      NothingLiveIsWhole(ZoneOf(p).base, ZoneOf(p).size, ZoneOf(p).free);
    }

    lemma BytesAddUp(p: Pgprot)
      requires Valid() && Accounted()
      ensures |FreeSet(ZoneOf(p).free, ZoneOf(p).size)| + LiveBytes(LiveIn(p)) == ZoneOf(p).size
    {
      FreePlusLive(ZoneOf(p).base, ZoneOf(p).size, ZoneOf(p).free, LiveIn(p));
    }
  }
}
