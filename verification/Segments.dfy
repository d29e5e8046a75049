/** Several second-level blocks in one message: the backend's encoder and parser, the
    guest's gather and scatter, and the proof that each half reads what the other wrote. */
module Segments {
  import opened Basics
  import opened Wire

  const MAX_SEGMENTS: nat := 8
  const U32_MAX: nat := 0xffff_ffff

  /** A pointer's place in the parameter block, and what it addresses. */
  datatype Segment = Segment(off: U32, bytes: seq<Byte>)

  function TableBytes(n: nat): nat {
    8 + n * 8
  }

  // ---------------------------------------------------------------------
  // The block

  function Padded(bs: seq<Byte>): (r: seq<Byte>)
    ensures |r| == Pad8(|bs|)
  {
    bs + Zeros(Pad8(|bs|) - |bs|)
  }

  function Entries(segs: seq<Segment>): (r: seq<Byte>)
    requires forall i :: 0 <= i < |segs| ==> |segs[i].bytes| <= U32_MAX
    ensures |r| == 8 * |segs|
  {
    if segs == [] then []
    else Entries(segs[..|segs| - 1]) + Le32(segs[|segs| - 1].off) + Le32(|segs[|segs| - 1].bytes|)
  }

  function Payloads(segs: seq<Segment>): (r: seq<Byte>)
    ensures |r| == PayloadLen(segs)
  {
    if segs == [] then [] else Payloads(segs[..|segs| - 1]) + Padded(segs[|segs| - 1].bytes)
  }

  function PayloadLen(segs: seq<Segment>): nat {
    if segs == [] then 0 else PayloadLen(segs[..|segs| - 1]) + Pad8(|segs[|segs| - 1].bytes|)
  }

  function BlockLen(segs: seq<Segment>): nat {
    TableBytes(|segs|) + PayloadLen(segs)
  }

  predicate Encodable(segs: seq<Segment>) {
    |segs| <= 8 && BlockLen(segs) <= 0xffff_ffff
  }

  lemma {:induction false} PrefixLen(segs: seq<Segment>, n: nat)
    requires n <= |segs|
    ensures PayloadLen(segs[..n]) <= PayloadLen(segs)
    ensures n < |segs| ==> PayloadLen(segs[..n + 1]) == PayloadLen(segs[..n]) + Pad8(|segs[n].bytes|) <= PayloadLen(segs)
  {
    if n < |segs| {
      assert segs[..n + 1][..n] == segs[..n];
      if n + 1 < |segs| {
        assert segs[..|segs| - 1][..n + 1] == segs[..n + 1];
        PrefixLen(segs[..|segs| - 1], n + 1);
      } else {
        assert segs[..n + 1] == segs;
      }
    } else {
      assert segs[..n] == segs;
    }
  }

  lemma LensFit(segs: seq<Segment>)
    requires Encodable(segs)
    ensures forall i :: 0 <= i < |segs| ==> |segs[i].bytes| <= U32_MAX
  {
    forall i | 0 <= i < |segs| ensures |segs[i].bytes| <= U32_MAX {
      PrefixLen(segs, i);
    }
  }

  function Header(n: nat): (r: seq<Byte>)
    requires n <= MAX_SEGMENTS
    ensures |r| == 8
  {
    Le32(n) + Zeros(4)
  }

  /** Count and padding, an entry per segment, then each payload padded to eight. */
  function Block(segs: seq<Segment>): (r: seq<Byte>)
    requires Encodable(segs)
    ensures |r| == BlockLen(segs)
  {
    LensFit(segs);
    Header(|segs|) + Entries(segs) + Payloads(segs)
  }

  // ---------------------------------------------------------------------
  // Reading a block

  function OffAt(bytes: seq<Byte>, i: nat): U32
    requires TableBytes(i + 1) <= |bytes|
  {
    Read32(bytes, 8 + i * 8)
  }

  function LenAt(bytes: seq<Byte>, i: nat): U32
    requires TableBytes(i + 1) <= |bytes|
  {
    Read32(bytes, 8 + i * 8 + 4)
  }

  /** Where payload `i` begins, for a table of `count` entries. */
  function StartAt(bytes: seq<Byte>, count: nat, i: nat): nat
    requires i <= count && TableBytes(count) <= |bytes|
  {
    if i == 0 then TableBytes(count) else StartAt(bytes, count, i - 1) + Pad8(LenAt(bytes, i - 1))
  }

  /** What `parse` takes: a count in range, a whole table, and every padded payload inside the block. */
  ghost predicate Accepts(bytes: seq<Byte>) {
    && |bytes| >= 8
    && Read32(bytes, 0) <= 8
    && TableBytes(Read32(bytes, 0)) <= |bytes|
    && StartAt(bytes, Read32(bytes, 0), Read32(bytes, 0)) <= |bytes|
  }

  lemma {:induction false} StartsGrow(bytes: seq<Byte>, count: nat, i: nat, j: nat)
    requires i < j <= count && TableBytes(count) <= |bytes|
    ensures TableBytes(count) <= StartAt(bytes, count, i)
    ensures StartAt(bytes, count, i) + LenAt(bytes, i) <= StartAt(bytes, count, j)
    decreases j
  {
    if i + 1 < j {
      StartsGrow(bytes, count, i, j - 1);
    } else if i > 0 {
      StartsGrow(bytes, count, i - 1, i);
    }
  }

  /** Whatever block is accepted, each payload lies inside it, after the table, and no two overlap. */
  lemma PayloadsInBounds(bytes: seq<Byte>, i: nat, j: nat)
    requires Accepts(bytes) && i < j <= Read32(bytes, 0)
    ensures var n := Read32(bytes, 0);
            && TableBytes(n) <= StartAt(bytes, n, i)
            && StartAt(bytes, n, i) + LenAt(bytes, i) <= StartAt(bytes, n, j) <= |bytes|
  {
    var n := Read32(bytes, 0);
    StartsGrow(bytes, n, i, j);
    if j < n { StartsGrow(bytes, n, j, n); }
  }

  function PayloadAt(bytes: seq<Byte>, i: nat): Segment
    requires Accepts(bytes) && i < Read32(bytes, 0)
  {
    var n := Read32(bytes, 0);
    PayloadsInBounds(bytes, i, n);
    var at := StartAt(bytes, n, i);
    Segment(OffAt(bytes, i), bytes[at..at + LenAt(bytes, i)])
  }

  /** What iterating an accepted block yields. */
  function Contents(bytes: seq<Byte>): (segs: seq<Segment>)
    requires Accepts(bytes)
    ensures |segs| == Read32(bytes, 0)
  {
    seq(Read32(bytes, 0), i requires 0 <= i < Read32(bytes, 0) => PayloadAt(bytes, i))
  }

  /** `Segments::parse`: the running end is checked after every entry. */
  method Parse(bytes: seq<Byte>) returns (count: Option<nat>)
    ensures count.Some? <==> Accepts(bytes)
    ensures count.Some? ==> count.value == Read32(bytes, 0)
  {
    if |bytes| < 8 { return None; }
    var n := Read32(bytes, 0);
    if n > MAX_SEGMENTS { return None; }
    var at := TableBytes(n);
    if |bytes| < at { return None; }
    for i := 0 to n
      invariant at == StartAt(bytes, n, i) <= |bytes|
    {
      var len := LenAt(bytes, i);
      at := at + Pad8(len);
      if at > |bytes| {
        assert at == StartAt(bytes, n, i + 1);
        if i + 1 < n { StartsGrow(bytes, n, i + 1, n); }
        return None;
      }
    }
    count := Some(n);
  }

  /** `find`: the first segment for an offset. */
  method Find(bytes: seq<Byte>, off: U32) returns (found: Option<seq<Byte>>)
    requires Accepts(bytes)
    ensures found.None? <==> forall s :: s in Contents(bytes) ==> s.off != off
    ensures found.Some? ==> exists i :: 0 <= i < |Contents(bytes)| && Contents(bytes)[i] == Segment(off, found.value)
                                        && forall k :: 0 <= k < i ==> Contents(bytes)[k].off != off
  {
    var segs := Contents(bytes);
    for i := 0 to |segs|
      invariant forall k :: 0 <= k < i ==> segs[k].off != off
    {
      if segs[i].off == off {
        return Some(segs[i].bytes);
      }
    }
    found := None;
  }

  // ---------------------------------------------------------------------
  // A block reads back

  lemma {:induction false} EntryAt(segs: seq<Segment>, i: nat)
    requires i < |segs| && forall k :: 0 <= k < |segs| ==> |segs[k].bytes| <= U32_MAX
    ensures Entries(segs)[8 * i..8 * i + 4] == Le32(segs[i].off)
    ensures Entries(segs)[8 * i + 4..8 * i + 8] == Le32(|segs[i].bytes|)
  {
    var front, last := segs[..|segs| - 1], segs[|segs| - 1];
    assert Entries(segs) == Entries(front) + (Le32(last.off) + Le32(|last.bytes|));
    if i < |segs| - 1 { EntryAt(front, i); }
  }

  lemma InFront<T>(a: seq<T>, b: seq<T>, from: nat, to: nat)
    requires from <= to <= |a|
    ensures (a + b)[from..to] == a[from..to]
  {
  }

  lemma Behind<T>(a: seq<T>, b: seq<T>, to: nat)
    requires to <= |b|
    ensures (a + b)[|a|..|a| + to] == b[..to]
  {
  }

  lemma {:induction false} PayloadIn(segs: seq<Segment>, i: nat)
    requires i < |segs|
    ensures PayloadLen(segs[..i]) + |segs[i].bytes| <= PayloadLen(segs)
    ensures Payloads(segs)[PayloadLen(segs[..i])..PayloadLen(segs[..i]) + |segs[i].bytes|] == segs[i].bytes
  {
    var front, last := segs[..|segs| - 1], Padded(segs[|segs| - 1].bytes);
    var at, len := PayloadLen(segs[..i]), |segs[i].bytes|;
    if i < |segs| - 1 {
      assert front[..i] == segs[..i];
      PayloadIn(front, i);
      InFront(Payloads(front), last, at, at + len);
    } else {
      assert segs[..i] == front;
      Behind(Payloads(front), last, len);
    }
  }

  lemma PayloadsNext(segs: seq<Segment>, n: nat)
    requires n < |segs|
    ensures Payloads(segs[..n + 1]) == Payloads(segs[..n]) + Padded(segs[n].bytes)
  {
    assert segs[..n + 1][..n] == segs[..n];
  }

  lemma BlockEntries(segs: seq<Segment>, slack: seq<Byte>, i: nat)
    requires Encodable(segs) && i < |segs|
    ensures OffAt(Block(segs) + slack, i) == segs[i].off
    ensures LenAt(Block(segs) + slack, i) == |segs[i].bytes|
  {
    LensFit(segs);
    var bytes := Block(segs) + slack;
    var head, tail := Header(|segs|), Payloads(segs) + slack;
    assert bytes == head + Entries(segs) + tail;
    EntryAt(segs, i);
    Middle(head, Entries(segs), tail, 8 * i, 8 * i + 4);
    Middle(head, Entries(segs), tail, 8 * i + 4, 8 * i + 8);
    ReadBack32(bytes, 8 + i * 8, segs[i].off);
    ReadBack32(bytes, 8 + i * 8 + 4, |segs[i].bytes|);
  }

  lemma {:induction false} BlockStarts(segs: seq<Segment>, bytes: seq<Byte>, slack: seq<Byte>, i: nat)
    requires Encodable(segs) && i <= |segs| && bytes == Block(segs) + slack
    ensures StartAt(bytes, |segs|, i) == TableBytes(|segs|) + PayloadLen(segs[..i])
  {
    if i > 0 {
      BlockStarts(segs, bytes, slack, i - 1);
      BlockEntries(segs, slack, i - 1);
      PrefixLen(segs, i - 1);
      assert StartAt(bytes, |segs|, i) == StartAt(bytes, |segs|, i - 1) + Pad8(LenAt(bytes, i - 1));
    }
  }

  lemma BlockPayload(segs: seq<Segment>, bytes: seq<Byte>, slack: seq<Byte>, i: nat)
    requires Encodable(segs) && i < |segs| && bytes == Block(segs) + slack
    ensures var at := TableBytes(|segs|) + PayloadLen(segs[..i]);
            at + |segs[i].bytes| <= |bytes| && bytes[at..at + |segs[i].bytes|] == segs[i].bytes
  {
    LensFit(segs);
    PayloadIn(segs, i);
    var head := Header(|segs|) + Entries(segs);
    Middle(head, Payloads(segs), slack, PayloadLen(segs[..i]), PayloadLen(segs[..i]) + |segs[i].bytes|);
  }

  /** A block is accepted and yields the segments it was made of, in order, whatever slack follows. */
  lemma BlockReadsBack(segs: seq<Segment>, slack: seq<Byte>)
    requires Encodable(segs)
    ensures Accepts(Block(segs) + slack) && Contents(Block(segs) + slack) == segs
  {
    hide Block, StartAt, Read32, PayloadAt;
    var bytes := Block(segs) + slack;
    BlockCounts(segs, slack);
    BlockStarts(segs, bytes, slack, |segs|);
    assert segs[..|segs|] == segs;
    forall i | 0 <= i < |segs| ensures Contents(bytes)[i] == segs[i] {
      BlockSegment(segs, bytes, slack, i);
    }
  }

  lemma BlockCounts(segs: seq<Segment>, slack: seq<Byte>)
    requires Encodable(segs)
    ensures |Block(segs) + slack| >= BlockLen(segs) >= 8 && Read32(Block(segs) + slack, 0) == |segs|
  {
    var bytes := Block(segs) + slack;
    assert bytes[0..4] == Le32(|segs|);
    ReadBack32(bytes, 0, |segs|);
  }

  lemma BlockSegment(segs: seq<Segment>, bytes: seq<Byte>, slack: seq<Byte>, i: nat)
    requires Encodable(segs) && i < |segs| && bytes == Block(segs) + slack
    requires Accepts(bytes) && Read32(bytes, 0) == |segs|
    ensures PayloadAt(bytes, i) == segs[i]
  {
    hide Block, StartAt, Accepts;
    BlockEntries(segs, slack, i);
    BlockStarts(segs, bytes, slack, i);
    BlockPayload(segs, bytes, slack, i);
  }

  // ---------------------------------------------------------------------
  // Filling a buffer

  predicate Small(segs: seq<Segment>) {
    |segs| <= MAX_SEGMENTS && forall i :: 0 <= i < |segs| ==> |segs[i].bytes| <= U32_MAX
  }

  /** A zeroed buffer with a header, the first `n` entries and the first `m` payloads written into it. */
  function Partial(segs: seq<Segment>, n: nat, m: nat, total: nat): seq<Byte>
    requires Small(segs) && n <= |segs| && m <= |segs| && BlockLen(segs) <= total
  {
    Table(segs, n) + Zeros(8 * (|segs| - n)) + Data(segs, m, total)
  }

  function Table(segs: seq<Segment>, n: nat): (r: seq<Byte>)
    requires Small(segs) && n <= |segs|
    ensures |r| == TableBytes(n)
  {
    Header(|segs|) + Entries(segs[..n])
  }

  function Data(segs: seq<Segment>, m: nat, total: nat): seq<Byte>
    requires m <= |segs| && BlockLen(segs) <= total
  {
    PrefixLen(segs, m);
    Payloads(segs[..m]) + Zeros(total - TableBytes(|segs|) - PayloadLen(segs[..m]))
  }

  /** Bytes written over the start of a stretch of zeros. */
  method PutOver(out: array<Byte>, at: nat, bytes: seq<Byte>, ghost before: seq<Byte>, ghost room: nat, ghost after: seq<Byte>)
    requires out[..] == before + Zeros(room) + after && at == |before| && |bytes| <= room
    modifies out
    ensures out[..] == before + bytes + Zeros(room - |bytes|) + after
  {
    ghost var was := out[..];
    Put(out, at, bytes);
    assert out[..at + |bytes|] == was[..at] + bytes == before + bytes;
    assert out[at + |bytes|..] == was[at + |bytes|..] == Zeros(room - |bytes|) + after;
    assert out[..] == out[..at + |bytes|] + out[at + |bytes|..];
  }

  method WriteEntry(out: array<Byte>, ghost segs: seq<Segment>, n: nat, ghost total: nat, off: U32, len: nat, ghost tail: seq<Byte>)
    requires Small(segs) && n < |segs| && BlockLen(segs) <= total
    requires off == segs[n].off && len == |segs[n].bytes|
    requires out[..] == Partial(segs, n, n, total) + tail
    modifies out
    ensures out[..] == Partial(segs, n + 1, n, total) + tail
  {
    ghost var data := Data(segs, n, total);
    Regroup(Table(segs, n), Zeros(8 * (|segs| - n)), data, tail);
    PutOver(out, 8 + n * 8, Le32(off) + Le32(len), Table(segs, n), 8 * (|segs| - n), data + tail);
    TableGrows(segs, n);
    Regroup(Table(segs, n + 1), Zeros(8 * (|segs| - (n + 1))), data, tail);
  }

  lemma Regroup<T>(a: seq<T>, b: seq<T>, c: seq<T>, d: seq<T>)
    ensures a + b + c + d == a + b + (c + d)
  {
  }

  lemma Inner<T>(a: seq<T>, b: seq<T>, c: seq<T>, d: seq<T>)
    ensures a + (b + c) + d == a + b + c + d
  {
    assert a + (b + c) == a + b + c;
  }

  lemma TableGrows(segs: seq<Segment>, n: nat)
    requires Small(segs) && n < |segs|
    ensures Table(segs, n) + (Le32(segs[n].off) + Le32(|segs[n].bytes|)) == Table(segs, n + 1)
  {
    assert segs[..n + 1][..n] == segs[..n];
  }

  method WritePayload(out: array<Byte>, ghost segs: seq<Segment>, n: nat, ghost total: nat, at: nat, bytes: seq<Byte>, ghost tail: seq<Byte>)
    requires Small(segs) && n < |segs| && BlockLen(segs) <= total
    requires bytes == segs[n].bytes && at == TableBytes(|segs|) + PayloadLen(segs[..n])
    requires out[..] == Partial(segs, n + 1, n, total) + tail
    modifies out
    ensures out[..] == Partial(segs, n + 1, n + 1, total) + tail
  {
    hide Pad8, Small, Table;
    PrefixLen(segs, n);
    ghost var room := total - TableBytes(|segs|) - PayloadLen(segs[..n]);
    ghost var front := Table(segs, n + 1) + Zeros(8 * (|segs| - (n + 1)));
    ghost var written := Payloads(segs[..n]);
    Inner(front, written, Zeros(room), tail);
    PutOver(out, at, bytes, front + written, room, tail);
    PayloadGrows(segs, n, total);
    Shift(front, written, bytes, Zeros(room - |bytes|), tail);
  }

  lemma Shift<T>(a: seq<T>, b: seq<T>, c: seq<T>, d: seq<T>, e: seq<T>)
    ensures a + b + c + d + e == a + (b + c + d) + e
  {
  }

  /** A payload and the zeros after it are a padded payload and the zeros after that. */
  lemma PayloadGrows(segs: seq<Segment>, n: nat, total: nat)
    requires n < |segs| && BlockLen(segs) <= total
    ensures PayloadLen(segs[..n]) + Pad8(|segs[n].bytes|) <= PayloadLen(segs)
    ensures Payloads(segs[..n]) + segs[n].bytes + Zeros(total - TableBytes(|segs|) - PayloadLen(segs[..n]) - |segs[n].bytes|)
            == Data(segs, n + 1, total)
  {
    PrefixLen(segs, n);
    PayloadsNext(segs, n);
    var written, bytes := Payloads(segs[..n]), segs[n].bytes;
    var room := total - TableBytes(|segs|) - PayloadLen(segs[..n]);
    PaddingIsZeros(written, bytes, room);
  }

  lemma PaddingIsZeros(written: seq<Byte>, bytes: seq<Byte>, room: nat)
    requires Pad8(|bytes|) <= room
    ensures written + bytes + Zeros(room - |bytes|) == written + Padded(bytes) + Zeros(room - Pad8(|bytes|))
  {
  }

  /** A payload of zeros is there already. */
  lemma ZeroPayload(segs: seq<Segment>, n: nat, total: nat)
    requires n < |segs| && BlockLen(segs) <= total && segs[n].bytes == Zeros(|segs[n].bytes|)
    ensures Data(segs, n, total) == Data(segs, n + 1, total)
  {
    PayloadGrows(segs, n, total);
    var room := total - TableBytes(|segs|) - PayloadLen(segs[..n]);
    assert Zeros(|segs[n].bytes|) + Zeros(room - |segs[n].bytes|) == Zeros(room);
  }

  lemma PartialDone(segs: seq<Segment>, total: nat)
    requires Small(segs) && BlockLen(segs) <= total && Encodable(segs)
    ensures Partial(segs, |segs|, |segs|, total) == Block(segs) + Zeros(total - BlockLen(segs))
  {
    assert segs[..|segs|] == segs;
  }

  /** `encoded_len`, summed with the same refusals. */
  method EncodedLen(segs: seq<Segment>) returns (total: Option<nat>)
    ensures total.Some? <==> Encodable(segs)
    ensures total.Some? ==> total.value == BlockLen(segs)
  {
    if |segs| > MAX_SEGMENTS { return None; }
    var sum := TableBytes(|segs|);
    for i := 0 to |segs|
      invariant sum == TableBytes(|segs|) + PayloadLen(segs[..i])
    {
      PrefixLen(segs, i);
      sum := sum + Pad8(|segs[i].bytes|);
    }
    assert segs[..|segs|] == segs;
    total := if sum <= U32_MAX then Some(sum) else None;
  }

  /** The backend's encoder: the block and nothing else of the buffer, or nothing at all. */
  method Encode(out: array<Byte>, segs: seq<Segment>) returns (r: Option<nat>)
    modifies out
    ensures r.Some? <==> Encodable(segs) && BlockLen(segs) <= out.Length
    ensures r.None? ==> out[..] == old(out[..])
    ensures r.Some? ==> r.value == BlockLen(segs) && out[..] == Block(segs) + old(out[BlockLen(segs)..])
  {
    var len := EncodedLen(segs);
    if len.None? || len.value > out.Length { return None; }
    LensFit(segs);
    var total := len.value;
    var tail := out[total..];
    StartBlock(out, segs, |segs|, total, tail);
    EncodeAll(out, segs, total, tail);
    r := Some(total);
  }

  /** The header over a zeroed block. */
  method StartBlock(out: array<Byte>, ghost segs: seq<Segment>, count: nat, total: nat, ghost tail: seq<Byte>)
    requires count == |segs| && Small(segs) && BlockLen(segs) <= total <= out.Length && tail == out[total..]
    modifies out
    ensures Progress(out[..], segs, 0, TableBytes(count), total, tail)
  {
    WriteHeader(out, count, total, tail);
    StartPartial(segs, total);
  }

  method WriteHeader(out: array<Byte>, count: U32, total: nat, ghost tail: seq<Byte>)
    requires 4 <= total <= out.Length && tail == out[total..]
    modifies out
    ensures out[..] == Le32(count) + Zeros(total - 4) + tail
  {
    Clear(out, total);
    PutOver(out, 0, Le32(count), [], total, tail);
  }

  method Clear(out: array<Byte>, total: nat)
    requires total <= out.Length
    modifies out
    ensures out[..] == [] + Zeros(total) + old(out[total..])
  {
    Put(out, 0, Zeros(total));
    assert out[..] == out[..total] + out[total..];
  }

  method EncodeAll(out: array<Byte>, segs: seq<Segment>, total: nat, ghost tail: seq<Byte>)
    requires Encodable(segs) && total == BlockLen(segs) && Progress(out[..], segs, 0, TableBytes(|segs|), total, tail)
    modifies out
    ensures out[..] == Block(segs) + tail
  {
    var at := TableBytes(|segs|);
    for i := 0 to |segs|
      invariant Progress(out[..], segs, i, at, total, tail)
    {
      at := EncodeOne(out, segs, i, at, total, tail);
    }
    PartialDone(segs, total);
  }

  /** After `n` segments, the next payload going at `at`. */
  ghost predicate Progress(bytes: seq<Byte>, segs: seq<Segment>, n: nat, at: nat, total: nat, tail: seq<Byte>) {
    && Small(segs) && n <= |segs| && BlockLen(segs) <= total
    && at == TableBytes(|segs|) + PayloadLen(segs[..n])
    && bytes == Partial(segs, n, n, total) + tail
  }

  method EncodeOne(out: array<Byte>, segs: seq<Segment>, n: nat, at: nat, ghost total: nat, ghost tail: seq<Byte>)
    returns (next: nat)
    requires n < |segs| && Progress(out[..], segs, n, at, total, tail)
    modifies out
    ensures Progress(out[..], segs, n + 1, next, total, tail)
  {
    WriteEntry(out, segs, n, total, segs[n].off, |segs[n].bytes|, tail);
    WritePayload(out, segs, n, total, at, segs[n].bytes, tail);
    PrefixLen(segs, n);
    next := at + Pad8(|segs[n].bytes|);
  }

  lemma StartPartial(segs: seq<Segment>, total: nat)
    requires Small(segs) && BlockLen(segs) <= total
    ensures Le32(|segs|) + Zeros(total - 4) == Partial(segs, 0, 0, total)
  {
  }

  // ---------------------------------------------------------------------
  // The guest's gather

  /** One pointer of a control's parameters: where it sits, how much it addresses, the caller's
      address, and whether RM reads the buffer. */
  datatype Info = Info(off: U32, len: U32, user: nat, copyIn: bool)

  /** What `copy_from_user` can read. */
  predicate Readable(mem: map<nat, Byte>, at: nat, len: nat) {
    forall i :: at <= i < at + len ==> i in mem
  }

  function UserBytes(mem: map<nat, Byte>, at: nat, len: nat): (r: seq<Byte>)
    requires Readable(mem, at, len)
    ensures |r| == len
  {
    seq(len, i requires 0 <= i < len && at + i in mem => mem[at + i])
  }

  predicate Fetchable(mem: map<nat, Byte>, info: Info) {
    info.copyIn ==> Readable(mem, info.user, info.len)
  }

  predicate Gatherable(mem: map<nat, Byte>, infos: seq<Info>) {
    forall i :: 0 <= i < |infos| ==> Fetchable(mem, infos[i])
  }

  /** What is sent for one pointer: what RM reads, or zeros for what it only writes. */
  function SegmentOf(mem: map<nat, Byte>, info: Info): (s: Segment)
    ensures |s.bytes| == info.len
  {
    Segment(info.off, if info.copyIn && Readable(mem, info.user, info.len) then UserBytes(mem, info.user, info.len)
                      else Zeros(info.len))
  }

  function Gathered(mem: map<nat, Byte>, infos: seq<Info>): (segs: seq<Segment>)
    ensures |segs| == |infos|
  {
    seq(|infos|, i requires 0 <= i < |infos| => SegmentOf(mem, infos[i]))
  }

  /** A segment carries for a pointer: its place in the parameter block, its length, and the caller's own
      bytes where RM reads them or zeros where it only writes. */
  ghost predicate CarriesFor(s: Segment, info: Info, mem: map<nat, Byte>) {
    && s.off == info.off && |s.bytes| == info.len
    && forall k :: 0 <= k < info.len ==>
         if info.copyIn then info.user + k in mem && s.bytes[k] == mem[info.user + k] else s.bytes[k] == 0
  }

  lemma GatheredCarries(mem: map<nat, Byte>, infos: seq<Info>, i: nat)
    requires i < |infos| && Gatherable(mem, infos)
    ensures CarriesFor(Gathered(mem, infos)[i], infos[i], mem)
  {
    assert Fetchable(mem, infos[i]);
  }

  function InfoLen(infos: seq<Info>): nat {
    if infos == [] then 0 else InfoLen(infos[..|infos| - 1]) + Pad8(infos[|infos| - 1].len)
  }

  lemma {:induction false} GatheredLen(mem: map<nat, Byte>, infos: seq<Info>, n: nat)
    requires n <= |infos|
    ensures PayloadLen(Gathered(mem, infos)[..n]) == InfoLen(infos[..n])
  {
    if n > 0 {
      GatheredLen(mem, infos, n - 1);
      assert infos[..n][..n - 1] == infos[..n - 1];
      assert Gathered(mem, infos)[..n][..n - 1] == Gathered(mem, infos)[..n - 1];
    }
  }

  lemma GatheredFits(mem: map<nat, Byte>, infos: seq<Info>, total: nat)
    requires |infos| <= MAX_SEGMENTS && TableBytes(|infos|) + InfoLen(infos) <= total <= U32_MAX
    ensures var segs := Gathered(mem, infos); Encodable(segs) && Small(segs) && BlockLen(segs) <= total
  {
  }

  /** One turn of the gather; None when the caller's buffer cannot be read. */
  method GatherOne(d: array<Byte>, mem: map<nat, Byte>, info: Info, ghost segs: seq<Segment>, n: nat, at: nat)
    returns (next: Option<nat>)
    requires n < |segs| && segs[n] == SegmentOf(mem, info) && Progress(d[..], segs, n, at, d.Length, [])
    modifies d
    ensures next.Some? <==> Fetchable(mem, info)
    ensures next.Some? ==> Progress(d[..], segs, n + 1, next.value, d.Length, [])
  {
    PrefixLen(segs, n);
    WriteEntry(d, segs, n, d.Length, info.off, info.len, []);
    if info.copyIn && info.len > 0 {
      if !Readable(mem, info.user, info.len) { return None; }
      WritePayload(d, segs, n, d.Length, at, UserBytes(mem, info.user, info.len), []);
    } else {
      ZeroPayload(segs, n, d.Length);
    }
    next := Some(at + Pad8(info.len));
  }

  /** The gather into a block of `d.Length` bytes, which may be longer than the segments need:
      pointers that were null left their share of it unused. */
  method Gather(d: array<Byte>, infos: seq<Info>, mem: map<nat, Byte>) returns (ok: bool)
    requires |infos| <= MAX_SEGMENTS && TableBytes(|infos|) + InfoLen(infos) <= d.Length <= U32_MAX
    modifies d
    ensures ok <==> forall i :: 0 <= i < |infos| && infos[i].copyIn ==>
                      forall p :: infos[i].user <= p < infos[i].user + infos[i].len ==> p in mem
    ensures ok ==> Accepts(d[..]) && |Contents(d[..])| == |infos|
                   && forall i :: 0 <= i < |infos| ==> CarriesFor(Contents(d[..])[i], infos[i], mem)
    ensures ok ==> BlockWithSlack(d[..], Gathered(mem, infos))
  {
    hide Block, BlockLen, PayloadLen, Pad8, SegmentOf, CarriesFor, StartAt;
    ghost var segs := Gathered(mem, infos);
    GatheredFits(mem, infos, d.Length);
    StartBlock(d, segs, |infos|, d.Length, []);
    ok := GatherAll(d, infos, mem, segs);
    assert Gatherable(mem, infos) <==> forall i :: 0 <= i < |infos| ==> Fetchable(mem, infos[i]);
    if ok {
      GatherReadsBack(d[..], segs);
      forall i | 0 <= i < |infos| ensures CarriesFor(segs[i], infos[i], mem) {
        GatheredCarries(mem, infos, i);
      }
    }
  }

  method GatherAll(d: array<Byte>, infos: seq<Info>, mem: map<nat, Byte>, ghost segs: seq<Segment>) returns (ok: bool)
    requires segs == Gathered(mem, infos) && Encodable(segs)
    requires Progress(d[..], segs, 0, TableBytes(|segs|), d.Length, [])
    modifies d
    ensures ok <==> Gatherable(mem, infos)
    ensures ok ==> BlockWithSlack(d[..], segs)
  {
    hide Partial, Encodable, SegmentOf;
    var at := TableBytes(|infos|);
    for i := 0 to |infos|
      invariant forall k :: 0 <= k < i ==> Fetchable(mem, infos[k])
      invariant Progress(d[..], segs, i, at, d.Length, [])
    {
      var next := GatherOne(d, mem, infos[i], segs, i, at);
      if next.None? { return false; }
      at := next.value;
    }
    ProgressDone(d[..], segs, at);
    ok := true;
  }

  /** A block and nothing but zeros after it. */
  ghost predicate BlockWithSlack(bytes: seq<Byte>, segs: seq<Segment>) {
    Encodable(segs) && BlockLen(segs) <= |bytes| && bytes == Block(segs) + Zeros(|bytes| - BlockLen(segs))
  }

  lemma ProgressDone(bytes: seq<Byte>, segs: seq<Segment>, at: nat)
    requires Encodable(segs) && Progress(bytes, segs, |segs|, at, |bytes|, [])
    ensures BlockWithSlack(bytes, segs)
  {
    PartialDone(segs, |bytes|);
  }

  /** The backend reads from the guest's block exactly what was gathered. */
  lemma GatherReadsBack(bytes: seq<Byte>, segs: seq<Segment>)
    requires BlockWithSlack(bytes, segs)
    ensures Accepts(bytes) && Contents(bytes) == segs
  {
    BlockReadsBack(segs, Zeros(|bytes| - BlockLen(segs)));
  }

  // ---------------------------------------------------------------------
  // The guest's scatter

  /** How many entries of a reply the guest reads: none of a table that is too long. */
  function ReplyCount(d: seq<Byte>): (n: nat)
    requires |d| >= 8
    ensures n <= MAX_SEGMENTS && TableBytes(n) <= |d|
  {
    var n := Read32(d, 0);
    if n > MAX_SEGMENTS || TableBytes(n) > |d| then 0 else n
  }

  /** The entries read from `i` on, up to the first whose bytes, unpadded, run past the reply. */
  function ReplyFrom(d: seq<Byte>, n: nat, i: nat): seq<Segment>
    requires i <= n && TableBytes(n) <= |d|
    decreases n - i
  {
    if i == n then []
    else
      var at, len := StartAt(d, n, i), LenAt(d, i);
      if at + len > |d| then []
      else [Segment(OffAt(d, i), d[at..at + len])] + ReplyFrom(d, n, i + 1)
  }

  function Reply(d: seq<Byte>): seq<Segment>
    requires |d| >= 8
  {
    ReplyFrom(d, ReplyCount(d), 0)
  }

  lemma {:induction false} ReadsTheRest(d: seq<Byte>, segs: seq<Segment>, i: nat)
    requires Accepts(d) && segs == Contents(d) && i <= |segs|
    ensures ReplyFrom(d, |segs|, i) == segs[i..]
    decreases |segs| - i
  {
    hide Pad8, Read32;
    if i < |segs| {
      PayloadsInBounds(d, i, |segs|);
      ReadsTheRest(d, segs, i + 1);
      assert segs[i] == PayloadAt(d, i);
      assert segs[i..] == [segs[i]] + segs[i + 1..];
    }
  }

  /** Both parsers read the same segments from whatever the stricter of them takes. */
  lemma SameReading(d: seq<Byte>)
    requires Accepts(d)
    ensures Reply(d) == Contents(d)
  {
    ReadsTheRest(d, Contents(d), 0);
  }

  /** The two readers agree: the guest reads what the backend's parser reads, and nothing of what it refuses. */
  ghost predicate Agree(d: seq<Byte>)
    requires |d| >= 8
  {
    if Accepts(d) then Reply(d) == Contents(d) else Reply(d) == []
  }

  /** They agree exactly on what the parser takes, on a reply with no readable table, and on one whose
      first payload already runs past it. Everything else the parser refuses and the guest reads in part. */
  lemma ReadersAgreeExactly(d: seq<Byte>)
    requires |d| >= 8
    ensures Agree(d) <==> Accepts(d) || ReplyCount(d) == 0 || TableBytes(ReplyCount(d)) + LenAt(d, 0) > |d|
  {
    if Accepts(d) { SameReading(d); }
  }

  /** The caller's pointer an answer goes to: the first recorded at this offset, not null and long enough. */
  predicate Takes(info: Info, off: U32, len: nat) {
    info.off == off && info.user != 0 && len <= info.len
  }

  datatype Delivery = Delivery(user: nat, bytes: seq<Byte>)

  function Target(infos: seq<Info>, off: U32, len: nat): (r: Option<nat>)
    ensures r.None? <==> forall j :: 0 <= j < |infos| ==> !Takes(infos[j], off, len)
    ensures r.Some? ==> exists j :: 0 <= j < |infos| && Takes(infos[j], off, len) && r.value == infos[j].user
                                    && forall k :: 0 <= k < j ==> !Takes(infos[k], off, len)
  {
    if infos == [] then None
    else
      var earlier := Target(infos[..|infos| - 1], off, len);
      var last := infos[|infos| - 1];
      if earlier.Some? then earlier
      else if Takes(last, off, len) then Some(last.user)
      else None
  }

  function Delivered(infos: seq<Info>, segs: seq<Segment>): seq<Delivery> {
    if segs == [] then []
    else
      var rest := Delivered(infos, segs[..|segs| - 1]);
      var s := segs[|segs| - 1];
      var to := Target(infos, s.off, |s.bytes|);
      if to.Some? then rest + [Delivery(to.value, s.bytes)] else rest
  }

  /** `for j in segs`: the first pointer that takes the answer. */
  method FindTarget(infos: seq<Info>, off: U32, len: nat) returns (to: Option<nat>)
    ensures to == Target(infos, off, len)
  {
    for j := 0 to |infos|
      invariant Target(infos[..j], off, len) == None
    {
      assert infos[..j + 1][..j] == infos[..j];
      if Takes(infos[j], off, len) {
        TargetStays(infos, j + 1, off, len);
        return Some(infos[j].user);
      }
    }
    assert infos[..|infos|] == infos;
    to := None;
  }

  lemma TargetStays(infos: seq<Info>, n: nat, off: U32, len: nat)
    requires n <= |infos| && Target(infos[..n], off, len).Some?
    ensures Target(infos, off, len) == Target(infos[..n], off, len)
  {
  }

  /** The scatter over a reply of which `d` is what the guest will look at. */
  method Scatter(d: seq<Byte>, infos: seq<Info>) returns (out: seq<Delivery>)
    requires |d| >= 8
    ensures out == Delivered(infos, Reply(d))
  {
    var n := ReplyCount(d);
    var at: nat := TableBytes(n);
    ghost var read: seq<Segment> := [];
    out := [];
    for i := 0 to n
      invariant Scattering(d, infos, n, i, at, read, out)
    {
      var next;
      next, out, read := ScatterOne(d, infos, n, i, at, read, out);
      if next.None? { return; }
      at := next.value;
    }
    assert read + [] == read;
  }

  method ScatterOne(d: seq<Byte>, infos: seq<Info>, n: nat, i: nat, at: nat, ghost read: seq<Segment>, before: seq<Delivery>)
    returns (next: Option<nat>, out: seq<Delivery>, ghost now: seq<Segment>)
    requires i < n && Scattering(d, infos, n, i, at, read, before)
    ensures next.None? ==> out == Delivered(infos, Reply(d))
    ensures next.Some? ==> Scattering(d, infos, n, i + 1, next.value, now, out)
  {
    hide ReplyFrom, Delivered, StartAt, LenAt, OffAt, Pad8, Reply, Read32;
    var s := SegmentHere(d, n, i, at);
    if s.None? {
      ReadNone(d, n, i, read);
      return None, before, read;
    }
    out := Deliver(infos, read, s.value, before);
    ReadOne(d, n, i, read, s.value);
    next, now := Some(at + Pad8(|s.value.bytes|)), read + [s.value];
  }

  /** The entry at `i`, unless its bytes run past the reply. */
  method SegmentHere(d: seq<Byte>, n: nat, i: nat, at: nat) returns (s: Option<Segment>)
    requires i < n && TableBytes(n) <= |d| && at == StartAt(d, n, i)
    ensures s == if at + LenAt(d, i) > |d| then None else Some(Segment(OffAt(d, i), d[at..at + LenAt(d, i)]))
  {
    var off, len := OffAt(d, i), LenAt(d, i);
    s := if len > |d| || at + len > |d| then None else Some(Segment(off, d[at..at + len]));
  }

  /** Entries `read` so far and delivered; the next one's payload is at `at`. */
  ghost predicate Scattering(d: seq<Byte>, infos: seq<Info>, n: nat, i: nat, at: nat, read: seq<Segment>, out: seq<Delivery>) {
    && |d| >= 8 && i <= n == ReplyCount(d)
    && at == StartAt(d, n, i)
    && Reply(d) == read + ReplyFrom(d, n, i)
    && out == Delivered(infos, read)
  }

  lemma ReadOne(d: seq<Byte>, n: nat, i: nat, read: seq<Segment>, s: Segment)
    requires i < n && TableBytes(n) <= |d| && StartAt(d, n, i) + LenAt(d, i) <= |d|
    requires s == Segment(OffAt(d, i), d[StartAt(d, n, i)..StartAt(d, n, i) + LenAt(d, i)])
    ensures read + ReplyFrom(d, n, i) == read + [s] + ReplyFrom(d, n, i + 1)
    ensures StartAt(d, n, i + 1) == StartAt(d, n, i) + Pad8(|s.bytes|)
  {
  }

  lemma ReadNone(d: seq<Byte>, n: nat, i: nat, read: seq<Segment>)
    requires i < n && TableBytes(n) <= |d| && StartAt(d, n, i) + LenAt(d, i) > |d|
    ensures read + ReplyFrom(d, n, i) == read
  {
  }

  method Deliver(infos: seq<Info>, ghost read: seq<Segment>, s: Segment, before: seq<Delivery>) returns (out: seq<Delivery>)
    requires before == Delivered(infos, read)
    ensures out == Delivered(infos, read + [s])
  {
    var to := FindTarget(infos, s.off, |s.bytes|);
    out := if to.Some? then before + [Delivery(to.value, s.bytes)] else before;
  }

  /** Whatever the reply says, bytes go only to a pointer this call was given, and never past its length. */
  lemma {:induction false} DeliveriesFit(infos: seq<Info>, segs: seq<Segment>, i: nat)
    requires i < |Delivered(infos, segs)|
    ensures var to := Delivered(infos, segs)[i];
            exists j :: 0 <= j < |infos| && infos[j].user == to.user != 0 && |to.bytes| <= infos[j].len
  {
    var front, s := segs[..|segs| - 1], segs[|segs| - 1];
    if i < |Delivered(infos, front)| {
      DeliveriesFit(infos, front, i);
    } else {
      var to := Target(infos, s.off, |s.bytes|);
      var j :| 0 <= j < |infos| && Takes(infos[j], s.off, |s.bytes|) && to.value == infos[j].user;
    }
  }

  ghost predicate OwnOffs(infos: seq<Info>) {
    forall i, j :: 0 <= i < j < |infos| ==> infos[i].off != infos[j].off
  }

  /** Every answer is for a recorded pointer, and no longer than was asked for. Not every pointer
      need have one. */
  ghost predicate ForPointers(infos: seq<Info>, answers: seq<Segment>) {
    forall i :: 0 <= i < |answers| ==> HasPointer(infos, answers[i])
  }

  ghost predicate HasPointer(infos: seq<Info>, s: Segment) {
    exists j :: 0 <= j < |infos| && Takes(infos[j], s.off, |s.bytes|)
  }

  /** One delivery for each answer, in order, at the pointer of the answer's own offset. */
  ghost predicate ToOwn(infos: seq<Info>, answers: seq<Segment>, out: seq<Delivery>) {
    && |out| == |answers|
    && forall i, j :: 0 <= i < |answers| && 0 <= j < |infos| && infos[j].off == answers[i].off ==>
         out[i] == Delivery(infos[j].user, answers[i].bytes)
  }

  lemma OnlyTarget(infos: seq<Info>, off: U32, len: nat, j: nat)
    requires OwnOffs(infos) && j < |infos| && Takes(infos[j], off, len)
    ensures Target(infos, off, len) == Some(infos[j].user)
    ensures forall k :: 0 <= k < |infos| && infos[k].off == off ==> k == j
  {
  }

  lemma {:induction false} EachIsDelivered(infos: seq<Info>, answers: seq<Segment>)
    requires OwnOffs(infos) && ForPointers(infos, answers)
    ensures ToOwn(infos, answers, Delivered(infos, answers))
    decreases |answers|
  {
    if answers != [] {
      var front, s := answers[..|answers| - 1], answers[|answers| - 1];
      EachIsDelivered(infos, front);
      assert HasPointer(infos, s);
      var j :| 0 <= j < |infos| && Takes(infos[j], s.off, |s.bytes|);
      OnlyTarget(infos, s.off, |s.bytes|, j);
      OneMoreOwn(infos, front, s, Delivered(infos, front), j);
      assert answers == front + [s];
    }
  }

  lemma OneMoreOwn(infos: seq<Info>, answers: seq<Segment>, s: Segment, out: seq<Delivery>, j: nat)
    requires ToOwn(infos, answers, out)
    requires j < |infos| && forall k :: 0 <= k < |infos| && infos[k].off == s.off ==> k == j
    ensures ToOwn(infos, answers + [s], out + [Delivery(infos[j].user, s.bytes)])
  {
  }

  /** An encoded reply reaches the caller, whichever of the pointers it answers: as many deliveries as
      answers, and each payload at the pointer of its own offset. */
  lemma ReplyReachesCaller(infos: seq<Info>, answers: seq<Segment>, slack: seq<Byte>)
    requires Encodable(answers) && OwnOffs(infos) && ForPointers(infos, answers)
    ensures ToOwn(infos, answers, Delivered(infos, Reply(Block(answers) + slack)))
  {
    BlockReadsBack(answers, slack);
    SameReading(Block(answers) + slack);
    EachIsDelivered(infos, answers);
  }

  /** One way to disagree: the guest takes a last payload without its padding. */
  lemma ReadersDiffer(off: U32, payload: Byte)
    ensures var d := Header(1) + (Le32(off) + Le32(1)) + [payload];
            !Accepts(d) && Reply(d) == [Segment(off, [payload])]
  {
    var d := Header(1) + (Le32(off) + Le32(1)) + [payload];
    assert d[0..4] == Le32(1);
    ReadBack32(d, 0, 1);
    Middle(Header(1), Le32(off) + Le32(1), [payload], 0, 4);
    Middle(Header(1), Le32(off) + Le32(1), [payload], 4, 8);
    ReadBack32(d, 8, off);
    ReadBack32(d, 12, 1);
    OneShort(d);
  }

  lemma OneShort(d: seq<Byte>)
    requires |d| == 17 && Read32(d, 0) == 1 && LenAt(d, 0) == 1
    ensures !Accepts(d) && Reply(d) == [Segment(OffAt(d, 0), [d[16]])]
  {
    assert StartAt(d, 1, 0) == 16 && StartAt(d, 1, 1) == 24;
    assert ReplyFrom(d, 1, 1) == [] && d[16..17] == [d[16]];
  }

  /** The other: an entry that runs past the reply spoils the whole block for the parser, and only
      itself and what follows it for the guest. */
  lemma LateOverrun(off: U32, late: U32, len: U32, payload: seq<Byte>)
    requires |payload| == 8 && len > 0
    ensures var d := Header(2) + (Le32(off) + Le32(8) + Le32(late) + Le32(len)) + payload;
            !Accepts(d) && Reply(d) == [Segment(off, payload)]
  {
    var table := Le32(off) + Le32(8) + Le32(late) + Le32(len);
    var d := Header(2) + table + payload;
    assert d[0..4] == Le32(2);
    ReadBack32(d, 0, 2);
    FourWords(off, 8, late, len, payload);
    assert d[24..32] == d[24..];
    SecondOverruns(d);
  }

  lemma FourWords(a: U32, b: U32, c: U32, e: U32, payload: seq<Byte>)
    ensures var d := Header(2) + (Le32(a) + Le32(b) + Le32(c) + Le32(e)) + payload;
            && OffAt(d, 0) == a && LenAt(d, 0) == b && LenAt(d, 1) == e && d[24..] == payload
  {
    var table := Le32(a) + Le32(b) + Le32(c) + Le32(e);
    var d := Header(2) + table + payload;
    assert table[0..4] == Le32(a) && table[4..8] == Le32(b) && table[12..16] == Le32(e);
    Middle(Header(2), table, payload, 0, 4);
    Middle(Header(2), table, payload, 4, 8);
    Middle(Header(2), table, payload, 12, 16);
    ReadBack32(d, 8, a);
    ReadBack32(d, 12, b);
    ReadBack32(d, 20, e);
  }

  lemma SecondOverruns(d: seq<Byte>)
    requires |d| == 32 && Read32(d, 0) == 2 && LenAt(d, 0) == 8 && LenAt(d, 1) > 0
    ensures !Accepts(d) && Reply(d) == [Segment(OffAt(d, 0), d[24..32])]
  {
    assert StartAt(d, 2, 0) == 24 && StartAt(d, 2, 1) == 32;
    assert StartAt(d, 2, 2) > 32;
    assert ReplyFrom(d, 2, 1) == [];
  }
}
