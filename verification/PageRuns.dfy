/** Guest pages as a table of runs: the guest's coalescing loop, the encoder and
    parser of the wire table, and what one says about the other. */
module PageRuns {
  import opened Basics
  import opened Wire

  const MAX_RUNS: nat := 1024

  /** A guest-physical address and a length, in bytes. */
  datatype Run = Run(gpa: U64, len: U64)

  /** Addresses of pinned pages, within the 52 bits x86-64 can address. */
  predicate Physical(pages: seq<nat>) {
    forall i :: 0 <= i < |pages| ==> pages[i] + 4096 <= 0x10_0000_0000_0000
  }

  // ---------------------------------------------------------------------
  // Runs and pages

  /** The pages a run covers, in order. */
  function PagesOf(r: Run): (pages: seq<nat>) {
    seq(r.len / 4096, i requires 0 <= i => r.gpa + i * 4096)
  }

  function Expand(runs: seq<Run>): seq<nat> {
    if runs == [] then [] else Expand(runs[..|runs| - 1]) + PagesOf(runs[|runs| - 1])
  }

  /** How many pages do not follow on from the one before. */
  function Breaks(pages: seq<nat>): nat {
    if |pages| < 2 then 0
    else Breaks(pages[..|pages| - 1])
         + (if pages[|pages| - 1] == pages[|pages| - 2] + 4096 then 0 else 1)
  }

  predicate WholePages(runs: seq<Run>) {
    forall i :: 0 <= i < |runs| ==> runs[i].len > 0 && runs[i].len % 4096 == 0
  }

  lemma ExpandAppend(runs: seq<Run>, r: Run)
    ensures Expand(runs + [r]) == Expand(runs) + PagesOf(r)
  {
  }

  lemma {:induction false} BreaksOfRun(r: Run, n: nat)
    requires n <= r.len / 4096
    ensures Breaks(PagesOf(r)[..n]) == 0
  {
    if n > 1 {
      BreaksOfRun(r, n - 1);
      assert PagesOf(r)[..n][..n - 1] == PagesOf(r)[..n - 1];
    }
  }

  /** Joining two lists adds at most one break, and only at the seam. */
  lemma {:induction false} BreaksJoin(a: seq<nat>, b: seq<nat>)
    requires b != []
    ensures Breaks(a + b) == Breaks(a) + Breaks(b) + (if a == [] || b[0] == a[|a| - 1] + 4096 then 0 else 1)
  {
    if |b| == 1 {
      assert (a + b)[..|a|] == a;
    } else {
      var front := b[..|b| - 1];
      BreaksJoin(a, front);
      assert (a + b)[..|a + b| - 1] == a + front;
    }
  }

  /** No list of whole, non-empty runs covering these pages in order is shorter than one more than the breaks. */
  lemma {:induction false} FewestRuns(runs: seq<Run>)
    requires WholePages(runs) && runs != []
    ensures Breaks(Expand(runs)) + 1 <= |runs|
  {
    var front, last := runs[..|runs| - 1], runs[|runs| - 1];
    assert PagesOf(last)[..last.len / 4096] == PagesOf(last);
    BreaksOfRun(last, last.len / 4096);
    BreaksJoin(Expand(front), PagesOf(last));
    if front != [] { FewestRuns(front); }
  }

  lemma {:induction false} BreaksOfPrefix(pages: seq<nat>, n: nat)
    requires n <= |pages|
    ensures Breaks(pages[..n]) <= Breaks(pages)
  {
    if n < |pages| {
      var front := pages[..|pages| - 1];
      assert front[..n] == pages[..n];
      BreaksOfPrefix(front, n);
    } else {
      assert pages[..n] == pages;
    }
  }

  // ---------------------------------------------------------------------
  // The table

  function EncodedLen(n: nat): nat {
    8 + n * 16
  }

  function EncodeRun(r: Run): (bs: seq<Byte>)
    ensures |bs| == 16
  {
    Le64(r.gpa) + Le64(r.len)
  }

  function Body(runs: seq<Run>): (bs: seq<Byte>)
    ensures |bs| == 16 * |runs|
  {
    if runs == [] then [] else Body(runs[..|runs| - 1]) + EncodeRun(runs[|runs| - 1])
  }

  /** Count, padding, then each run. */
  function Table(runs: seq<Run>): (bs: seq<Byte>)
    requires |runs| <= MAX_RUNS
    ensures |bs| == EncodedLen(|runs|)
  {
    PartTable(|runs|, runs)
  }

  lemma BodyAppend(runs: seq<Run>, r: Run)
    ensures Body(runs + [r]) == Body(runs) + EncodeRun(r)
  {
  }

  lemma {:induction false} BodyAt(runs: seq<Run>, i: nat)
    requires i < |runs|
    ensures Body(runs)[16 * i..16 * i + 16] == EncodeRun(runs[i])
  {
    var front := runs[..|runs| - 1];
    assert Body(runs) == Body(front) + EncodeRun(runs[|runs| - 1]);
    if i < |runs| - 1 {
      BodyAt(front, i);
      assert Body(runs)[16 * i..16 * i + 16] == Body(front)[16 * i..16 * i + 16];
    }
  }

  /** Writes the table, or nothing at all. */
  method Encode(out: array<Byte>, runs: seq<Run>) returns (r: Option<nat>)
    modifies out
    ensures r.None? <==> |runs| > 1024 || out.Length < 8 + 16 * |runs|
    ensures r.None? ==> out[..] == old(out[..])
    ensures r.Some? ==> r.value == EncodedLen(|runs|) && out[..r.value] == Table(runs)
                        && out[r.value..] == old(out[r.value..])
  {
    if |runs| > MAX_RUNS { return None; }
    var total := EncodedLen(|runs|);
    if out.Length < total { return None; }
    Put(out, 0, Zeros(total));
    ghost var tail := out[total..];
    Put(out, 0, Le32(|runs|) + Zeros(4));
    assert out[total..] == out[8..][total - 8..];
    assert runs[..0] == [];
    for i := 0 to |runs|
      invariant out[..EncodedLen(i)] == PartTable(|runs|, runs[..i])
      invariant out[total..] == tail
    {
      EncodeNext(out, |runs|, runs[..i], runs[i], total);
      assert runs[..i + 1] == runs[..i] + [runs[i]];
    }
    assert runs[..|runs|] == runs;
    r := Some(total);
  }

  /** A header counting `n` runs, with some of them written. */
  function PartTable(n: nat, runs: seq<Run>): (bs: seq<Byte>)
    requires n <= MAX_RUNS
    ensures |bs| == EncodedLen(|runs|)
  {
    Le32(n) + Zeros(4) + Body(runs)
  }

  method EncodeNext(out: array<Byte>, n: nat, runs: seq<Run>, r: Run, total: nat)
    requires n <= MAX_RUNS && EncodedLen(|runs| + 1) <= total <= out.Length
    requires out[..EncodedLen(|runs|)] == PartTable(n, runs)
    modifies out
    ensures out[..EncodedLen(|runs| + 1)] == PartTable(n, runs + [r])
    ensures out[total..] == old(out[total..])
  {
    PutRun(out, EncodedLen(|runs|), r, total);
    BodyAppend(runs, r);
  }

  method PutRun(out: array<Byte>, at: nat, r: Run, ghost total: nat, ghost from: nat := 0)
    requires from <= at && at + 16 <= total <= out.Length
    modifies out
    ensures out[from..at + 16] == old(out[from..at]) + EncodeRun(r)
    ensures out[..from] == old(out[..from])
    ensures out[total..] == old(out[total..])
    ensures out[at + 16..] == old(out[at + 16..])
  {
    ghost var tail := out[at + 16..];
    Put(out, at, Le64(r.gpa), from);
    assert out[at + 16..] == out[at + 8..][8..] == tail;
    Put(out, at + 8, Le64(r.len), from);
    assert out[total..] == out[at + 16..][total - (at + 16)..];
  }

  /** Reads a table; anything malformed is refused, never repaired. */
  function Parse(bytes: seq<Byte>): Option<seq<Run>> {
    if |bytes| < 8 then None
    else
      var count := Read32(bytes, 0);
      if count == 0 || count > MAX_RUNS || |bytes| < EncodedLen(count) then None
      else Some(seq(count, i requires 0 <= i < count => RunAt(bytes, i)))
  }

  function RunAt(bytes: seq<Byte>, i: nat): Run
    requires EncodedLen(i + 1) <= |bytes|
  {
    Run(Read64(bytes, 8 + i * 16), Read64(bytes, 8 + i * 16 + 8))
  }

  lemma TableAt(runs: seq<Run>, slack: seq<Byte>, i: nat)
    requires i < |runs| <= MAX_RUNS
    ensures var bytes := Table(runs) + slack;
            && bytes[8 + i * 16..8 + i * 16 + 8] == Le64(runs[i].gpa)
            && bytes[8 + i * 16 + 8..8 + i * 16 + 8 + 8] == Le64(runs[i].len)
  {
    BodyAt(runs, i);
    var head := Le32(|runs|) + Zeros(4);
    var bytes := Table(runs) + slack;
    assert bytes == head + Body(runs) + slack;
    Middle(head, Body(runs), slack, 16 * i, 16 * i + 8);
    Middle(head, Body(runs), slack, 16 * i + 8, 16 * i + 16);
    var run := Body(runs)[16 * i..16 * i + 16];
    assert Body(runs)[16 * i..16 * i + 8] == run[..8] && Body(runs)[16 * i + 8..16 * i + 16] == run[8..];
  }

  /** A table comes back as the runs it was made of, whatever follows it. */
  lemma ParseTable(runs: seq<Run>, slack: seq<Byte>)
    requires 1 <= |runs| <= MAX_RUNS
    ensures Parse(Table(runs) + slack) == Some(runs)
  {
    var bytes := Table(runs) + slack;
    assert bytes[0..4] == Le32(|runs|);
    ReadBack32(bytes, 0, |runs|);
    assert Read32(bytes, 0) == |runs|;
    forall i | 0 <= i < |runs| ensures RunAt(bytes, i) == runs[i] {
      TableAt(runs, slack, i);
      ReadBack64(bytes, 8 + i * 16, runs[i].gpa);
      ReadBack64(bytes, 8 + i * 16 + 8, runs[i].len);
    }
    assert Parse(bytes).value == runs;
  }

  lemma RunRewrites(bytes: seq<Byte>, i: nat)
    requires EncodedLen(i + 1) <= |bytes|
    ensures EncodeRun(RunAt(bytes, i)) == bytes[EncodedLen(i)..EncodedLen(i + 1)]
  {
    hide FromLe, LeBytes, Power256;
    var at := EncodedLen(i);
    var gpa, len := bytes[at..at + 8], bytes[at + 8..at + 8 + 8];
    LeRewrite(gpa);
    LeRewrite(len);
    assert EncodeRun(RunAt(bytes, i)) == gpa + len;
  }

  lemma {:induction false} BodyReads(bytes: seq<Byte>, runs: seq<Run>)
    requires |bytes| >= EncodedLen(|runs|)
    requires forall i :: 0 <= i < |runs| ==> runs[i] == RunAt(bytes, i)
    ensures Body(runs) == bytes[8..EncodedLen(|runs|)]
  {
    if runs != [] {
      var i := |runs| - 1;
      BodyReads(bytes, runs[..i]);
      RunRewrites(bytes, i);
    }
  }

  /** What parses is a table of what it parsed to, but for the padding word and the slack. */
  lemma ParsedIsTable(bytes: seq<Byte>, runs: seq<Run>)
    requires Parse(bytes) == Some(runs)
    ensures 1 <= |runs| <= MAX_RUNS && EncodedLen(|runs|) <= |bytes|
    ensures Table(runs) == bytes[..4] + Zeros(4) + bytes[8..EncodedLen(|runs|)]
  {
    BodyReads(bytes, runs);
    LeRewrite(bytes[0..4]);
  }

  /** And all parses that counts 1 to 1024 runs and holds them, whatever its padding word. */
  lemma ParsesExactly(bytes: seq<Byte>)
    ensures Parse(bytes).Some? <==>
              |bytes| >= 8 && 1 <= FromLe(bytes[..4]) <= 1024 && 8 + 16 * FromLe(bytes[..4]) <= |bytes|
  {
    if |bytes| >= 8 { assert bytes[0..4] == bytes[..4]; }
  }

  // ---------------------------------------------------------------------
  // The guest's loop

  datatype Code = Emitted | TooBig | Invalid

  /** The runs are in the table after the header's place; until there are any, nothing has changed. */
  predicate Written(table: seq<Byte>, start: seq<Byte>, runs: seq<Run>) {
    && |table| == |start|
    && (runs == [] ==> table == start)
    && (runs != [] ==>
          && EncodedLen(|runs|) <= |table|
          && table[8..EncodedLen(|runs|)] == Body(runs)
          && table[EncodedLen(|runs|)..] == start[EncodedLen(|runs|)..])
  }

  /** Writes the run in hand after the others, if the table has room for one more. */
  method EmitRun(table: array<Byte>, ghost start: seq<Byte>, ghost runs: seq<Run>, count: nat, r: Run, outCap: nat)
    returns (fits: bool)
    requires Written(table[..], start, runs) && count == |runs| && outCap <= table.Length
    modifies table
    ensures fits <==> count != MAX_RUNS && EncodedLen(count + 1) <= outCap
    ensures fits ==> Written(table[..], start, runs + [r])
  {
    var at := 8 + count * 16;
    fits := !(count == MAX_RUNS || at + 16 > outCap);
    if fits {
      AppendRun(table, start, runs, at, r);
    }
  }

  method AppendRun(table: array<Byte>, ghost start: seq<Byte>, ghost runs: seq<Run>, at: nat, r: Run)
    requires Written(table[..], start, runs) && at == EncodedLen(|runs|) && at + 16 <= table.Length
    modifies table
    ensures Written(table[..], start, runs + [r])
  {
    ghost var before := table[..];
    assert before[8..at] == Body(runs);
    assert before[at + 16..] == start[at + 16..] by {
      if runs != [] { assert before[at + 16..] == before[at..][16..]; }
    }
    PutRun(table, at, r, at + 16, 8);
    BodyAppend(runs, r);
  }

  /** The guest's coalescing loop: one pass, one run in hand, written out when the next page
      does not follow on. The table is filled before its header. */
  method EmitPageRuns(pages: seq<nat>, table: array<Byte>, outCap: nat)
    returns (code: Code, outLen: nat, ghost runs: seq<Run>)
    requires Physical(pages) && outCap <= table.Length
    modifies table
    ensures code == Invalid <==> pages == []
    ensures code == TooBig <==> pages != [] && (Breaks(pages) + 1 > 1024 || 8 + 16 * (Breaks(pages) + 1) > outCap)
    ensures code == Emitted ==>
              && WholePages(runs) && Expand(runs) == pages && |runs| == Breaks(pages) + 1
              && outLen == 8 + 16 * |runs| <= outCap
              && table[..outLen] == Table(runs)
              && table[outLen..] == old(table[outLen..])
  {
    var hand := Hand(0, 0, 0);
    runs := [];
    ghost var start := table[..];
    var i := 0;
    while i <= |pages|
      invariant LoopOk(pages, i, runs, hand, table[..], start, outCap)
    {
      var fits;
      hand, runs, fits := EmitNext(pages, i, runs, hand, table, start, outCap);
      if !fits { return TooBig, 0, runs; }
      i := i + 1;
    }
    if hand.count == 0 { return Invalid, 0, runs; }
    Header(table, start, runs, hand.count);
    code, outLen := Emitted, EncodedLen(hand.count);
  }

  /** How many runs are written, and the one being grown. */
  datatype Hand = Hand(count: nat, gpa: nat, len: nat)

  predicate LoopOk(pages: seq<nat>, i: nat, runs: seq<Run>, hand: Hand, table: seq<Byte>, start: seq<Byte>, outCap: nat) {
    && hand.count == |runs| <= MAX_RUNS
    && (runs != [] ==> EncodedLen(hand.count) <= outCap)
    && WholePages(runs)
    && Written(table, start, runs)
    && Progress(pages, i, runs, hand.gpa, hand.len)
  }

  /** One turn of the loop: page `i`, or the end of the list. */
  method EmitNext(pages: seq<nat>, i: nat, ghost runs: seq<Run>, hand: Hand, table: array<Byte>,
                  ghost start: seq<Byte>, outCap: nat)
    returns (next: Hand, ghost after: seq<Run>, fits: bool)
    requires Physical(pages) && i <= |pages| && outCap <= table.Length
    requires LoopOk(pages, i, runs, hand, table[..], start, outCap)
    modifies table
    ensures fits ==> LoopOk(pages, i + 1, after, next, table[..], start, outCap)
    ensures !fits ==> pages != [] && (Breaks(pages) + 1 > MAX_RUNS || EncodedLen(Breaks(pages) + 1) > outCap)
  {
    hide Progress, InHand, Written, Expand, Breaks;
    HandStep(pages, i, runs, hand.gpa, hand.len);
    next, after, fits := hand, runs, true;
    var gpa := if i < |pages| then pages[i] else 0;
    if hand.len > 0 && i < |pages| && gpa == hand.gpa + hand.len {
      next := hand.(len := hand.len + 4096);
      return;
    }
    if hand.len > 0 {
      fits := EmitRun(table, start, runs, hand.count, Run(hand.gpa, hand.len), outCap);
      if !fits { return; }
      after := runs + [Run(hand.gpa, hand.len)];
    }
    next := Hand(if hand.len > 0 then hand.count + 1 else hand.count, gpa, if i < |pages| then 4096 else 0);
  }

  /** The eight bytes before the runs: cleared, then the count. */
  method Header(table: array<Byte>, ghost start: seq<Byte>, ghost runs: seq<Run>, count: nat)
    requires 0 < count == |runs| <= MAX_RUNS && Written(table[..], start, runs)
    modifies table
    ensures table[..EncodedLen(count)] == Table(runs)
    ensures table[EncodedLen(count)..] == start[EncodedLen(count)..]
  {
    var len := EncodedLen(count);
    ghost var rest := table[8..];
    assert rest[..len - 8] == Body(runs);
    assert rest[len - 8..] == start[len..];
    Put(table, 0, Zeros(8));
    Put(table, 0, Le32(count));
    assert table[4..] == Zeros(4) + rest;
    assert table[..len] == table[..4] + table[4..][..len - 4];
    assert table[len..] == table[4..][len - 4..];
  }

  /** The runs written so far and the one in hand are the pages seen so far. */
  predicate InHand(seen: seq<nat>, runs: seq<Run>, runGpa: nat, runLen: nat) {
    && seen != [] && runLen > 0 && runLen % 4096 == 0 && runGpa + runLen <= 0x10_0000_0000_0000
    && Expand(runs) + PagesOf(Run(runGpa, runLen)) == seen
    && runGpa + runLen == seen[|seen| - 1] + 4096
    && |runs| == Breaks(seen)
  }

  predicate Progress(pages: seq<nat>, i: nat, runs: seq<Run>, runGpa: nat, runLen: nat) {
    && i <= |pages| + 1
    && (i == 0 ==> runLen == 0 && runs == [])
    && runGpa + runLen <= 0x10_0000_0000_0000 && runLen % 4096 == 0
    && (0 < i <= |pages| ==> InHand(pages[..i], runs, runGpa, runLen))
    && (i == |pages| + 1 ==> Expand(runs) == pages && |runs| == if pages == [] then 0 else Breaks(pages) + 1)
  }

  /** The next page follows on: the run in hand grows. */
  lemma Grows(pages: seq<nat>, i: nat, runs: seq<Run>, runGpa: nat, runLen: nat)
    requires Physical(pages) && 0 < i < |pages| && InHand(pages[..i], runs, runGpa, runLen) && pages[i] == runGpa + runLen
    ensures InHand(pages[..i + 1], runs, runGpa, runLen + 4096)
  {
    var more := pages[..i + 1];
    assert more == pages[..i] + [pages[i]] && more[..i] == pages[..i];
    assert PagesOf(Run(runGpa, runLen + 4096)) == PagesOf(Run(runGpa, runLen)) + [pages[i]];
  }

  /** It does not: the run in hand is done, and the page starts the next. */
  lemma StartsAnother(pages: seq<nat>, i: nat, runs: seq<Run>, runGpa: nat, runLen: nat)
    requires Physical(pages) && 0 < i < |pages| && InHand(pages[..i], runs, runGpa, runLen) && pages[i] != runGpa + runLen
    ensures InHand(pages[..i + 1], runs + [Run(runGpa, runLen)], pages[i], 4096)
  {
  }

  lemma FirstPage(pages: seq<nat>)
    requires Physical(pages) && pages != []
    ensures InHand(pages[..1], [], pages[0], 4096)
  {
    assert pages[..1] == [pages[0]];
    assert PagesOf(Run(pages[0], 4096)) == [pages[0]];
  }

  lemma AtTheEnd(pages: seq<nat>, runs: seq<Run>, runGpa: nat, runLen: nat)
    requires Progress(pages, |pages|, runs, runGpa, runLen)
    ensures pages[..|pages|] == pages
    ensures Progress(pages, |pages| + 1, if pages != [] then runs + [Run(runGpa, runLen)] else runs, 0, 0)
  {
    assert pages[..|pages|] == pages;
    if pages != [] { ExpandAppend(runs, Run(runGpa, runLen)); }
  }

  /** What the loop knows before it looks at page `i`. */
  lemma HandStep(pages: seq<nat>, i: nat, runs: seq<Run>, runGpa: nat, runLen: nat)
    requires Physical(pages) && i <= |pages| && Progress(pages, i, runs, runGpa, runLen)
    ensures (runLen > 0 <==> i > 0) && runLen % 4096 == 0 && runGpa + runLen <= 0x10_0000_0000_0000
    ensures i > 0 ==> |runs| <= Breaks(pages)
    ensures if i == |pages| then Progress(pages, i + 1, if i > 0 then runs + [Run(runGpa, runLen)] else runs, 0, 0)
            else if i > 0 && pages[i] == runGpa + runLen then Progress(pages, i + 1, runs, runGpa, runLen + 4096)
            else Progress(pages, i + 1, if i > 0 then runs + [Run(runGpa, runLen)] else runs, pages[i], 4096)
  {
    hide Expand, PagesOf, Breaks;
    BreaksOfPrefix(pages, i);
    if i == |pages| {
      AtTheEnd(pages, runs, runGpa, runLen);
    } else if i == 0 {
      FirstPage(pages);
    } else if pages[i] == runGpa + runLen {
      Grows(pages, i, runs, runGpa, runLen);
    } else {
      StartsAnother(pages, i, runs, runGpa, runLen);
    }
  }
}
