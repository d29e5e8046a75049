/** Guest RAM, and how a guest's pages become one host span: the reservation, the
    fixed mappings placed in it run by run, and the whole registration from a page
    list on the guest's side to the host pages that alias it. */
module GuestMem {
  import opened Basics
  import opened Wire
  import opened PageRuns

  const MAX_BYTES: nat := 256 * 1024 * 1024

  /** A region of guest RAM; `file` is the descriptor the frontend sent with it, if it did. */
  datatype Region = Region(base: nat, len: nat, file: Option<nat>, start: nat)

  /** Where an address lives, and how far the region it is in goes on. */
  datatype Backing = Backing(file: nat, offset: nat, len: nat)

  /** The memory table a frontend hands over: regions apart from each other, inside 64 bits. */
  ghost predicate TableOk(ram: seq<Region>) {
    && (forall i :: 0 <= i < |ram| ==> ram[i].base + ram[i].len <= U64_MAX && ram[i].start + ram[i].len <= U64_MAX)
    && (forall i, j :: 0 <= i < |ram| && 0 <= j < |ram| && i != j ==>
          ram[i].base + ram[i].len <= ram[j].base || ram[j].base + ram[j].len <= ram[i].base)
  }

  function Find(ram: seq<Region>, gpa: nat): Option<Region> {
    if ram == [] then None
    else if ram[0].base <= gpa < ram[0].base + ram[0].len then Some(ram[0])
    else Find(ram[1..], gpa)
  }

  function BackingOf(ram: seq<Region>, gpa: nat): Option<Backing> {
    match Find(ram, gpa)
    case None => None
    case Some(r) =>
      if r.file.None? || r.start + (gpa - r.base) > U64_MAX || gpa < r.base || gpa - r.base > r.len then None
      else Some(Backing(r.file.value, r.start + (gpa - r.base), r.len - (gpa - r.base)))
  }

  /** The byte of a file. */
  datatype Place = Place(file: nat, offset: nat)

  /** Region `i` came with a file and holds the address. */
  ghost predicate InFile(ram: seq<Region>, i: int, gpa: nat) {
    0 <= i < |ram| && ram[i].file.Some? && ram[i].base <= gpa < ram[i].base + ram[i].len
  }

  lemma {:induction false} FoundIsThere(ram: seq<Region>, gpa: nat) returns (i: nat)
    requires Find(ram, gpa).Some?
    ensures i < |ram| && ram[i] == Find(ram, gpa).value && ram[i].base <= gpa < ram[i].base + ram[i].len
  {
    if ram[0].base <= gpa < ram[0].base + ram[0].len {
      i := 0;
    } else {
      i := FoundIsThere(ram[1..], gpa);
      i := i + 1;
    }
  }

  lemma {:induction false} OnlyOneHolds(ram: seq<Region>, gpa: nat, i: nat)
    requires TableOk(ram) && i < |ram| && ram[i].base <= gpa < ram[i].base + ram[i].len
    ensures Find(ram, gpa) == Some(ram[i])
  {
    if i > 0 {
      var rest := ram[1..];
      assert forall j :: 0 <= j < |rest| ==> rest[j] == ram[j + 1];
      OnlyOneHolds(rest, gpa, i - 1);
    }
  }

  /** The place of an address in a region with a file: as far behind the region's own start in the file
      as it is behind the region's base, and the rest of the region lies behind it. */
  lemma BackingIs(ram: seq<Region>, gpa: nat, i: nat)
    requires TableOk(ram) && InFile(ram, i, gpa)
    ensures BackingOf(ram, gpa) == Some(Backing(ram[i].file.value, ram[i].start + (gpa - ram[i].base),
                                                ram[i].base + ram[i].len - gpa))
  {
    OnlyOneHolds(ram, gpa, i);
  }

  /** An address has a place exactly when some region with a file holds it. */
  lemma BackedExactly(ram: seq<Region>, gpa: nat)
    requires TableOk(ram)
    ensures BackingOf(ram, gpa).Some? <==> exists i :: InFile(ram, i, gpa)
  {
    if BackingOf(ram, gpa).Some? {
      var i := FoundIsThere(ram, gpa);
      assert InFile(ram, i, gpa);
    }
    if i: nat :| InFile(ram, i, gpa) { BackingIs(ram, gpa, i); }
  }

  /** Within the length a backing gives, addresses go on in step with the file. */
  lemma BackingGoesOn(ram: seq<Region>, gpa: nat, k: nat)
    requires TableOk(ram) && BackingOf(ram, gpa).Some? && k < BackingOf(ram, gpa).value.len
    ensures var b := BackingOf(ram, gpa).value; BackingOf(ram, gpa + k) == Some(Backing(b.file, b.offset + k, b.len - k))
  {
    var i := FoundIsThere(ram, gpa);
    OnlyOneHolds(ram, gpa + k, i);
  }

  // ---------------------------------------------------------------------
  // The address space

  datatype Mapping = Reserved | Shared(place: Place)

  /** This process's mappings, by page number. */
  class HostSpace {
    var pages: map<nat, Mapping>

    constructor ()
      ensures pages == map[]
    {
      pages := map[];
    }

    /** An anonymous reservation where the kernel chose, or its refusal. */
    method Reserve(count: nat, chosen: Option<nat>) returns (base: Option<nat>)
      requires chosen.Some? ==> Unmapped(pages, chosen.value, count)
      modifies this
      ensures base == chosen
      ensures chosen.None? ==> pages == old(pages)
      ensures chosen.Some? ==> pages == old(pages) + (map p | p in Span(chosen.value, count) :: Reserved)
    {
      if chosen.Some? {
        pages := pages + map p | p in Span(chosen.value, count) :: Reserved;
      }
      base := chosen;
    }

    /** MAP_FIXED: whatever was there is replaced, wherever it is. */
    method MapFixed(at: nat, count: nat, file: nat, offset: nat, refused: bool) returns (ok: bool)
      modifies this
      ensures ok == !refused
      ensures refused ==> pages == old(pages)
      ensures !refused ==>
                pages == old(pages) + RunMapped(at, count, file, offset)
    {
      if refused { return false; }
      pages := pages + RunMapped(at, count, file, offset);
      ok := true;
    }

    method Unmap(at: nat, count: nat)
      modifies this
      ensures pages == old(pages) - Span(at, count)
    {
      pages := pages - Span(at, count);
    }
  }

  ghost predicate Unmapped(pages: map<nat, Mapping>, base: nat, count: nat) {
    forall p :: base <= p < base + count ==> p !in pages
  }

  /** A span of the address space, in pages. */
  datatype Stitched = Stitched(base: nat, count: nat)

  /** What the kernel does: where it puts the reservation, and which fixed mappings it refuses. */
  datatype Kernel = Kernel(chosen: Option<nat>, refused: set<nat>)

  // ---------------------------------------------------------------------
  // Stitching

  function TotalLen(runs: seq<Run>): nat {
    if runs == [] then 0 else TotalLen(runs[..|runs| - 1]) + runs[|runs| - 1].len
  }

  ghost predicate RunOk(r: Run) {
    r.len > 0 && r.gpa % 4096 == 0 && r.len % 4096 == 0 && r.gpa + r.len <= U64_MAX
  }

  /** What a registration must be before anything is mapped for it. */
  ghost predicate Described(runs: seq<Run>, want: nat) {
    && 1 <= |runs| <= 1024
    && 0 < want <= 0x1000_0000 && want % 4096 == 0
    && (forall i :: 0 <= i < |runs| ==> RunOk(runs[i]))
    && TotalLen(runs) == want
  }

  /** Every run lies inside one region of guest RAM. */
  ghost predicate Backed(ram: seq<Region>, runs: seq<Run>) {
    forall i :: 0 <= i < |runs| ==> RunBacked(ram, runs[i])
  }

  ghost predicate RunBacked(ram: seq<Region>, r: Run) {
    exists i :: InFile(ram, i, r.gpa) && r.gpa + r.len <= ram[i].base + ram[i].len
  }

  /** A run lies in one region exactly when its first address has a place and enough of the region behind it. */
  lemma BackedFromBacking(ram: seq<Region>, r: Run)
    requires TableOk(ram) && r.len > 0
    ensures RunBacked(ram, r) <==> BackingOf(ram, r.gpa).Some? && r.len <= BackingOf(ram, r.gpa).value.len
  {
    hide BackingOf, TableOk;
    BackedExactly(ram, r.gpa);
    forall i | InFile(ram, i, r.gpa) ensures BackingOf(ram, r.gpa).value.len == ram[i].base + ram[i].len - r.gpa {
      BackingIs(ram, r.gpa, i);
    }
  }

  lemma {:induction false} TotalOfPrefix(runs: seq<Run>, n: nat)
    requires n <= |runs|
    ensures TotalLen(runs[..n]) <= TotalLen(runs)
  {
    if n < |runs| {
      assert runs[..|runs| - 1][..n] == runs[..n];
      TotalOfPrefix(runs[..|runs| - 1], n);
    } else {
      assert runs[..n] == runs;
    }
  }

  lemma {:induction false} ExpandedLen(runs: seq<Run>)
    requires forall i :: 0 <= i < |runs| ==> runs[i].len % 4096 == 0
    ensures |Expand(runs)| * 4096 == TotalLen(runs)
  {
    if runs != [] { ExpandedLen(runs[..|runs| - 1]); }
  }

  /** The checks made before anything is mapped. */
  method Check(runs: seq<Run>, want: nat) returns (ok: bool)
    requires want <= U64_MAX
    ensures ok <==> Described(runs, want)
  {
    if runs == [] { return false; }
    if |runs| > MAX_RUNS { return false; }
    if want == 0 || want > MAX_BYTES { return false; }
    if want % 4096 != 0 { return false; }
    var total := SumRuns(runs);
    ok := total == Some(want);
  }

  lemma TotalEnds(runs: seq<Run>)
    ensures TotalLen(runs[..0]) == 0 && TotalLen(runs[..|runs|]) == TotalLen(runs)
  {
    assert runs[..|runs|] == runs;
  }

  /** Each run looked at in turn; None at the first that is not whole pages, wraps, or takes the sum past 64 bits. */
  method SumRuns(runs: seq<Run>) returns (sum: Option<nat>)
    ensures sum.Some? ==> sum.value == TotalLen(runs) && forall i :: 0 <= i < |runs| ==> RunOk(runs[i])
    ensures sum.None? ==> TotalLen(runs) > U64_MAX || exists i :: 0 <= i < |runs| && !RunOk(runs[i])
  {
    hide TotalLen;
    var total := 0;
    TotalEnds(runs);
    for i := 0 to |runs|
      invariant total == TotalLen(runs[..i])
      invariant forall j :: 0 <= j < i ==> RunOk(runs[j])
    {
      var r := runs[i];
      NextTotal(runs, i);
      if r.len == 0 || r.gpa % 4096 != 0 || r.len % 4096 != 0 { return None; }
      if r.gpa + r.len > U64_MAX { return None; }
      if total + r.len > U64_MAX { return None; }
      total := total + r.len;
    }
    sum := Some(total);
  }

  /** The span holds the first `n` pages of the list, each at its own place, and reserves the rest. */
  ghost predicate Holds(pages: map<nat, Mapping>, before: map<nat, Mapping>, ram: seq<Region>,
                        base: nat, count: nat, gpas: seq<nat>, n: nat) {
    && n <= |gpas| && n <= count
    && (forall p :: p in pages <==> p in before || base <= p < base + count)
    && (forall p :: p in before ==> p in pages && pages[p] == before[p])
    && (forall k :: 0 <= k < n ==> base + k in pages && IsPage(pages[base + k], ram, gpas[k]))
  }

  /** These runs are in the span, and end at byte `at` of it. */
  ghost predicate Placed(pages: map<nat, Mapping>, before: map<nat, Mapping>, ram: seq<Region>,
                         base: nat, count: nat, runs: seq<Run>, at: nat) {
    && at % 4096 == 0 && |Expand(runs)| == at / 4096
    && Holds(pages, before, ram, base, count, Expand(runs), at / 4096)
  }

  /** The mapping is the byte of the file that the table says the guest's address is. */
  ghost predicate IsPage(m: Mapping, ram: seq<Region>, gpa: nat) {
    exists i :: InFile(ram, i, gpa) && m == Shared(Place(ram[i].file.value, ram[i].start + (gpa - ram[i].base)))
  }

  /** A host span that aliases exactly these guest pages, in order; or nothing mapped at all. */
  method Stitch(host: HostSpace, ram: seq<Region>, runs: seq<Run>, want: nat, kernel: Kernel)
    returns (r: Option<Stitched>)
    requires TableOk(ram) && want <= U64_MAX
    requires kernel.chosen.Some? ==> Unmapped(host.pages, kernel.chosen.value, want / 4096)
    modifies host
    ensures r.Some? <==> Described(runs, want) && Backed(ram, runs) && kernel.chosen.Some?
                         && forall i :: 0 <= i < |runs| ==> i !in kernel.refused
    ensures r.None? ==> host.pages == old(host.pages)
    ensures r.Some? ==>
              && Some(r.value.base) == kernel.chosen && r.value.count * 4096 == want
              && |Expand(runs)| == r.value.count
              && Holds(host.pages, old(host.pages), ram, r.value.base, r.value.count, Expand(runs), r.value.count)
  {
    ghost var before := host.pages;
    var ok := Check(runs, want);
    if !ok { return None; }
    var count := want / 4096;
    ExpandedLen(runs);
    var chosen := host.Reserve(count, kernel.chosen);
    if chosen.None? { return None; }
    var base := chosen.value;
    var placed := PlaceRuns(host, before, ram, runs, base, count, kernel.refused);
    if !placed { return None; }
    r := Some(Stitched(base, count));
  }

  /** Every run in turn, each where the one before it ended. */
  method PlaceRuns(host: HostSpace, ghost before: map<nat, Mapping>, ram: seq<Region>, runs: seq<Run>,
                   base: nat, count: nat, refused: set<nat>) returns (ok: bool)
    requires TableOk(ram) && Unmapped(before, base, count)
    requires (forall i :: 0 <= i < |runs| ==> RunOk(runs[i])) && TotalLen(runs) == count * 4096
    requires Holds(host.pages, before, ram, base, count, [], 0)
    modifies host
    ensures ok <==> forall i :: 0 <= i < |runs| ==> RunBacked(ram, runs[i]) && i !in refused
    ensures !ok ==> host.pages == before
    ensures ok ==> |Expand(runs)| == count && Holds(host.pages, before, ram, base, count, Expand(runs), count)
  {
    var at := 0;
    for i := 0 to |runs|
      invariant forall j :: 0 <= j < i ==> RunBacked(ram, runs[j]) && j !in refused
      invariant at == TotalLen(runs[..i]) && Placed(host.pages, before, ram, base, count, runs[..i], at)
    {
      ok, at := PlaceNext(host, before, ram, runs, i, base, count, at, i in refused);
      if !ok { return; }
    }
    AllPlaced(host.pages, before, ram, base, count, runs, at);
    ok := true;
  }

  method PlaceNext(host: HostSpace, ghost before: map<nat, Mapping>, ram: seq<Region>, runs: seq<Run>, i: nat,
                   base: nat, count: nat, at: nat, refused: bool) returns (ok: bool, next: nat)
    requires TableOk(ram) && Unmapped(before, base, count)
    requires i < |runs| && RunOk(runs[i]) && TotalLen(runs) == count * 4096
    requires at == TotalLen(runs[..i]) && Placed(host.pages, before, ram, base, count, runs[..i], at)
    modifies host
    ensures ok <==> RunBacked(ram, runs[i]) && !refused
    ensures !ok ==> host.pages == before
    ensures ok ==> next == TotalLen(runs[..i + 1]) && Placed(host.pages, before, ram, base, count, runs[..i + 1], next)
  {
    NextTotal(runs, i);
    ok := PlaceRun(host, before, ram, base, count, runs[..i], runs[i], at, refused);
    next := at + runs[i].len;
  }

  lemma AllPlaced(pages: map<nat, Mapping>, before: map<nat, Mapping>, ram: seq<Region>, base: nat, count: nat,
                  runs: seq<Run>, at: nat)
    requires at == TotalLen(runs[..|runs|]) && TotalLen(runs) == count * 4096
    requires Placed(pages, before, ram, base, count, runs[..|runs|], at)
    ensures |Expand(runs)| == count && Holds(pages, before, ram, base, count, Expand(runs), count)
  {
    assert runs[..|runs|] == runs;
  }

  lemma NextTotal(runs: seq<Run>, i: nat)
    requires i < |runs|
    ensures runs[..i + 1] == runs[..i] + [runs[i]]
    ensures TotalLen(runs[..i + 1]) == TotalLen(runs[..i]) + runs[i].len <= TotalLen(runs)
  {
    assert runs[..i + 1][..i] == runs[..i];
    TotalOfPrefix(runs, i + 1);
  }

  /** One run into the span at byte `at`; if it cannot be, the whole span goes. */
  method PlaceRun(host: HostSpace, ghost before: map<nat, Mapping>, ram: seq<Region>, base: nat, count: nat,
                  ghost placed: seq<Run>, r: Run, at: nat, refused: bool) returns (ok: bool)
    requires TableOk(ram) && RunOk(r) && Unmapped(before, base, count)
    requires at + r.len <= count * 4096 && Placed(host.pages, before, ram, base, count, placed, at)
    modifies host
    ensures ok <==> RunBacked(ram, r) && !refused
    ensures !ok ==> host.pages == before
    ensures ok ==> Placed(host.pages, before, ram, base, count, placed + [r], at + r.len)
  {
    BackedFromBacking(ram, r);
    var b := BackingOf(ram, r.gpa);
    if b.None? || r.len > b.value.len {
      SpanGone(host.pages, before, base, count);
      host.Unmap(base, count);
      return false;
    }
    ghost var was := host.pages;
    ok := host.MapFixed(base + at / 4096, r.len / 4096, b.value.file, b.value.offset, refused);
    if ok {
      RunIsThere(was, before, ram, base, count, placed, r, b.value, at);
    } else {
      SpanGone(host.pages, before, base, count);
      host.Unmap(base, count);
    }
  }

  /** The pages of a run mapped from its backing, from page `first` on. */
  function RunMapped(first: nat, n: nat, file: nat, offset: nat): map<nat, Mapping> {
    map p | p in Span(first, n) :: Shared(Place(file, offset + (p - first) * 4096))
  }

  /** Each page of a run mapped from its backing is the guest's page. */
  lemma RunIsPages(ram: seq<Region>, r: Run, b: Backing, first: nat, k: nat)
    requires TableOk(ram) && RunOk(r) && RunBacked(ram, r) && k < r.len / 4096 && BackingOf(ram, r.gpa) == Some(b)
    ensures var m := RunMapped(first, r.len / 4096, b.file, b.offset);
            first + k in m && IsPage(m[first + k], ram, PagesOf(r)[k])
  {
    hide BackingOf, TableOk;
    var i :| InFile(ram, i, r.gpa) && r.gpa + r.len <= ram[i].base + ram[i].len;
    BackingIs(ram, r.gpa, i);
    assert InFile(ram, i, r.gpa + k * 4096);
  }

  /** With one more run mapped behind them, the runs placed are one more. */
  lemma RunIsThere(was: map<nat, Mapping>, before: map<nat, Mapping>, ram: seq<Region>, base: nat, count: nat,
                   placed: seq<Run>, r: Run, b: Backing, at: nat)
    requires TableOk(ram) && RunOk(r) && RunBacked(ram, r) && Unmapped(before, base, count)
    requires BackingOf(ram, r.gpa) == Some(b)
    requires at + r.len <= count * 4096 && Placed(was, before, ram, base, count, placed, at)
    ensures Placed(was + RunMapped(base + at / 4096, r.len / 4096, b.file, b.offset), before, ram,
                   base, count, placed + [r], at + r.len)
  {
    hide TableOk, IsPage, Expand, BackingOf, RunBacked;
    var first, n := at / 4096, r.len / 4096;
    var m := RunMapped(base + first, n, b.file, b.offset);
    var now := was + m;
    ExpandAppend(placed, r);
    var gpas := Expand(placed) + PagesOf(r);
    forall k | 0 <= k < first + n ensures base + k in now && IsPage(now[base + k], ram, gpas[k]) {
      if k < first {
        assert now[base + k] == was[base + k];
      } else {
        RunIsPages(ram, r, b, base + first, k - first);
        assert now[base + k] == m[base + first + (k - first)];
      }
    }
  }

  lemma SpanGone(pages: map<nat, Mapping>, before: map<nat, Mapping>, base: nat, count: nat)
    requires Unmapped(before, base, count)
    requires forall p :: p in pages <==> p in before || base <= p < base + count
    requires forall p :: p in before ==> pages[p] == before[p]
    ensures pages - Span(base, count) == before
  {
  }

  // ---------------------------------------------------------------------
  // The whole way

  /** What the backend does with the block beside a registration. */
  method Translate(host: HostSpace, ram: seq<Region>, bytes: seq<Byte>, want: nat, kernel: Kernel)
    returns (r: Option<Stitched>)
    requires TableOk(ram) && want <= U64_MAX
    requires kernel.chosen.Some? ==> Unmapped(host.pages, kernel.chosen.value, want / 4096)
    modifies host
    ensures r.None? ==> host.pages == old(host.pages)
    ensures r.Some? ==> Parse(bytes).Some? && Described(Parse(bytes).value, want)
                        && Some(r.value.base) == kernel.chosen && r.value.count * 4096 == want
                        && |Expand(Parse(bytes).value)| == r.value.count
                        && Holds(host.pages, old(host.pages), ram, r.value.base, r.value.count,
                                 Expand(Parse(bytes).value), r.value.count)
    ensures r.Some? <==> && Parse(bytes).Some? && Described(Parse(bytes).value, want) && Backed(ram, Parse(bytes).value)
                         && kernel.chosen.Some?
                         && forall i :: 0 <= i < |Parse(bytes).value| ==> i !in kernel.refused
  {
    var runs := Parse(bytes);
    if runs.None? { return None; }
    r := Stitch(host, ram, runs.value, want, kernel);
  }

  /** A registration from the guest's pinned pages to the backend's address: when it succeeds,
      host page i of the span is guest page i of the list, for every i; when it does not, the
      backend's address space is as it was. It succeeds exactly when the fewest runs that cover the
      pages are few enough, are what the backend takes, each lie in one region, and the host maps. */
  method Register(pages: seq<nat>, host: HostSpace, ram: seq<Region>, kernel: Kernel)
    returns (r: Option<Stitched>, ghost runs: seq<Run>)
    requires TableOk(ram)
    requires Physical(pages) && |pages| * 4096 <= U64_MAX
    requires kernel.chosen.Some? ==> Unmapped(host.pages, kernel.chosen.value, |pages|)
    modifies host
    ensures r.None? ==> host.pages == old(host.pages)
    ensures r.Some? ==> r.value.count == |pages|
                        && Holds(host.pages, old(host.pages), ram, r.value.base, |pages|, pages, |pages|)
    ensures runs == [] <==> pages == [] || Breaks(pages) + 1 > 1024
    ensures runs != [] ==> WholePages(runs) && Expand(runs) == pages && |runs| == Breaks(pages) + 1
    ensures r.Some? <==> && runs != [] && Described(runs, |pages| * 4096) && Backed(ram, runs)
                         && kernel.chosen.Some? && forall i :: 0 <= i < |runs| ==> i !in kernel.refused
  {
    var cap := EncodedLen(MAX_RUNS);
    var table := new Byte[cap](_ => 0);
    var code, len;
    code, len, runs := EmitPageRuns(pages, table, cap);
    if code != Emitted { return None, []; }
    ParseTable(runs, []);
    assert table[..len] + [] == table[..len];
    r := Translate(host, ram, table[..len], |pages| * 4096, kernel);
  }
}
