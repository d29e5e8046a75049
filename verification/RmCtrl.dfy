/** The pointers inside an RM control's parameters: finding the control's entry, sizing what each
    pointer addresses, and deciding which of them travel as segments. */
module RmCtrl {
  import opened Basics
  import opened Wire
  import opened Segments

  datatype Kind = Fixed | Field | Squared | OtherKind

  /** One pointer of a control, as the generated tables describe it. */
  datatype Ptr = Ptr(offset: U32, kind: Kind, countOffset: U32, countWidth: Byte, fixed: U32, elemSize: U32,
                     copyIn: bool, copyOut: bool)

  datatype Entry = Entry(cmd: U32, paramsSize: U32, refused: bool, first: nat, count: nat)

  datatype Table = Table(entries: seq<Entry>, ptrs: seq<Ptr>)

  // ---------------------------------------------------------------------
  // The length of one pointer

  predicate CountIsRead(p: Ptr, params: seq<Byte>) {
    && p.countOffset + p.countWidth <= |params|
    && (p.countWidth == 1 || p.countWidth == 2 || p.countWidth == 4 || p.countWidth == 8)
  }

  /** The check on the field's place is made in 32 bits. Where the sum wraps and passes all the same,
      what the driver reads is not in the block; everywhere else it is. */
  predicate ReadsInside(p: Ptr, size: nat) {
    (p.countOffset + p.countWidth) % 0x1_0000_0000 <= size ==> p.countOffset + p.countWidth <= size
  }

  /** The number in the count field, whatever its width. */
  function FieldValue(p: Ptr, params: seq<Byte>): (v: U64)
    requires CountIsRead(p, params)
  {
    var bytes := params[p.countOffset..p.countOffset + p.countWidth];
    LeRewrite(bytes);
    WordSizes();
    NarrowFits(p.countWidth);
    FromLe(bytes)
  }

  lemma NarrowFits(n: nat)
    requires n <= 8
    ensures Power256(n) <= 0x1_0000_0000_0000_0000
  {
    WordSizes();
    if n < 8 {
      assert Power256(8) == 256 * Power256(7) && Power256(7) == 256 * Power256(6) && Power256(6) == 256 * Power256(5);
      assert Power256(4) == 256 * Power256(3) && Power256(3) == 256 * Power256(2) && Power256(2) == 256 * Power256(1);
    }
  }

  /** How many elements the pointer addresses: the number itself, not reduced to any width. */
  function Elements(p: Ptr, params: seq<Byte>): nat
    requires p.kind != Fixed ==> CountIsRead(p, params)
  {
    match p.kind
    case Fixed => p.fixed
    case Field => FieldValue(p, params)
    case Squared => FieldValue(p, params) * FieldValue(p, params)
    case OtherKind => 0
  }

  /** When the count can be read and, if it is to be squared, is a 32-bit number. */
  ghost predicate Countable(p: Ptr, params: seq<Byte>) {
    match p.kind
    case Fixed => true
    case Field => CountIsRead(p, params)
    case Squared => CountIsRead(p, params) && FieldValue(p, params) < 0x1_0000_0000
    case OtherKind => false
  }

  ghost predicate Sized(p: Ptr, params: seq<Byte>) {
    Countable(p, params) && Elements(p, params) * p.elemSize <= 0x10_0000
  }

  lemma SquareFits(v: nat)
    requires v < 0x1_0000_0000
    ensures v * v < 0x1_0000_0000_0000_0000
  {
    Times(v, 0xffff_ffff, v);
  }

  lemma Times(a: nat, b: nat, c: nat)
    requires a <= b
    ensures a * c <= b * c
  {
  }

  lemma ByDivision(count: nat, elem: nat)
    requires elem > 0
    ensures count <= 0x10_0000 / elem <==> count * elem <= 0x10_0000
  {
    var q := 0x10_0000 / elem;
    assert q * elem <= 0x10_0000 < (q + 1) * elem;
    if count <= q {
      assert count * elem <= q * elem;
    } else {
      assert count * elem >= (q + 1) * elem;
    }
  }

  /** The element count as the switch leaves it in a 64-bit word. */
  method ReadCount(p: Ptr, params: seq<Byte>) returns (count: Option<U64>)
    requires p.kind != Fixed ==> ReadsInside(p, |params|)
    ensures count.Some? <==> Countable(p, params)
    ensures count.Some? ==> count.value == Elements(p, params)
    ensures p.kind == Fixed ==> count == Some(p.fixed)
    ensures p.kind == Field ==> (count.Some? <==> CountIsRead(p, params))
                                && (count.Some? ==> count.value == FieldValue(p, params))
    ensures p.kind == Squared ==>
              && (count.Some? <==> CountIsRead(p, params) && FieldValue(p, params) <= 0xffff_ffff)
              && (count.Some? ==> count.value == FieldValue(p, params) * FieldValue(p, params))
    ensures p.kind == OtherKind ==> count.None?
  {
    match p.kind
    case Fixed => count := Some(p.fixed);
    case Field => count := ReadField(p, params);
    case Squared =>
      var v := ReadField(p, params);
      if v.None? || v.value > 0xffff_ffff { return None; }
      SquareFits(v.value);
      count := Some(v.value * v.value);
    case OtherKind => count := None;
  }

  method ReadField(p: Ptr, params: seq<Byte>) returns (v: Option<U64>)
    requires ReadsInside(p, |params|)
    ensures v.Some? <==> CountIsRead(p, params)
    ensures v.Some? ==> v.value == FieldValue(p, params)
  {
    if (p.countOffset + p.countWidth) % 0x1_0000_0000 > |params| { return None; }
    match p.countWidth
    case 1 =>
      assert FromLe(params[p.countOffset..p.countOffset + 1]) == params[p.countOffset] + 256 * FromLe([]);
      v := Some(params[p.countOffset]);
    case 2 =>
      assert FromLe(params[p.countOffset..p.countOffset + 2])
          == params[p.countOffset] + 256 * FromLe(params[p.countOffset..p.countOffset + 2][1..]);
      assert params[p.countOffset..p.countOffset + 2][1..] == [params[p.countOffset + 1]];
      var low: int, high: int := params[p.countOffset], params[p.countOffset + 1];
      v := Some(low + 256 * high);
    case 4 => v := Some(Read32(params, p.countOffset));
    case 8 => v := Some(Read64(params, p.countOffset));
    case _ => v := None;
  }

  /** The length in bytes, multiplied in 64 bits that wrap: it is the exact product, or a refusal. */
  method Len(p: Ptr, params: seq<Byte>) returns (len: Option<nat>)
    requires p.kind != Fixed ==> ReadsInside(p, |params|)
    ensures len.Some? <==> Sized(p, params)
    ensures len.Some? <==> Countable(p, params) && Elements(p, params) * p.elemSize <= 0x10_0000
    ensures len.Some? ==> len.value == Elements(p, params) * p.elemSize
  {
    hide ReadsInside, CountIsRead, FieldValue;
    var count := ReadCount(p, params);
    if count.None? { return None; }
    var bytes := (count.value * p.elemSize) % 0x1_0000_0000_0000_0000;
    if p.elemSize > 0 {
      ByDivision(count.value, p.elemSize);
      if count.value > 0x10_0000 / p.elemSize { return None; }
    }
    if bytes > 0x10_0000 { return None; }
    len := Some(bytes);
  }

  // ---------------------------------------------------------------------
  // The entry of a command, and the table of a release

  ghost predicate Ascending(entries: seq<Entry>) {
    forall i, j :: 0 <= i < j < |entries| ==> entries[i].cmd < entries[j].cmd
  }

  /** The binary search. On an ascending table it finds the command's entry exactly when there is one. */
  method Find(entries: seq<Entry>, cmd: U32) returns (at: Option<nat>)
    ensures at.Some? ==> at.value < |entries| && entries[at.value].cmd == cmd
    ensures Ascending(entries) ==> (at.None? <==> forall e :: e in entries ==> e.cmd != cmd)
  {
    var lo: int, hi: int := 0, |entries| - 1;
    while lo <= hi
      invariant 0 <= lo && hi < |entries| && lo <= hi + 1
      invariant Ascending(entries) ==> forall k :: 0 <= k < |entries| && entries[k].cmd == cmd ==> lo <= k <= hi
    {
      var mid := lo + (hi - lo) / 2;
      if entries[mid].cmd == cmd { return Some(mid); }
      if entries[mid].cmd < cmd {
        lo := mid + 1;
      } else {
        hi := mid - 1;
      }
    }
    at := None;
  }

  datatype Version = Version(major: U32, minor: U32, patch: U32)

  /** Numeric order on releases. */
  predicate Newer(a: Version, b: Version) {
    || a.major > b.major
    || (a.major == b.major && a.minor > b.minor)
    || (a.major == b.major && a.minor == b.minor && a.patch > b.patch)
  }

  /** It is the order of the three numbers read as one. */
  lemma NewerIsGreater(a: Version, b: Version)
    ensures Newer(a, b) <==> (a.major * 0x1_0000_0000 + a.minor) * 0x1_0000_0000 + a.patch
                             > (b.major * 0x1_0000_0000 + b.minor) * 0x1_0000_0000 + b.patch
  {
  }

  /** The table of a release: on ascending releases, the newest that is not newer than the host's. */
  method TableFor(releases: seq<Version>, host: Option<Version>) returns (best: Option<nat>)
    ensures host.None? ==> best.None?
    ensures best.Some? ==> best.value < |releases| && host.Some? && !Newer(releases[best.value], host.value)
    ensures host.Some? && (forall i, j :: 0 <= i < j < |releases| ==> Newer(releases[j], releases[i])) ==>
              forall i :: 0 <= i < |releases| && !Newer(releases[i], host.value) ==> best.Some? && i <= best.value
  {
    best := None;
    if host.None? { return; }
    for i := 0 to |releases|
      invariant best == if i == 0 then None else Some(i - 1)
      invariant forall k :: 0 <= k < i ==> !Newer(releases[k], host.value)
    {
      if Newer(releases[i], host.value) { return; }
      best := Some(i);
    }
  }

  // ---------------------------------------------------------------------
  // Which pointers travel

  /** The address a parameter block holds for a pointer. */
  function Address(p: Ptr, params: seq<Byte>): U64
    requires p.offset + 8 <= |params|
  {
    Read64(params, p.offset)
  }

  predicate Null(p: Ptr, params: seq<Byte>) {
    p.offset + 8 <= |params| && Address(p, params) == 0
  }

  /** A pointer the guest can describe: inside the block, and null or of a length it can compute. */
  ghost predicate Described(p: Ptr, params: seq<Byte>) {
    p.offset + 8 <= |params| && (Null(p, params) || Sized(p, params))
  }

  /** What is recorded for a pointer. */
  ghost function InfoOf(p: Ptr, params: seq<Byte>): Info
    requires Described(p, params) && !Null(p, params)
  {
    Info(p.offset, Elements(p, params) * p.elemSize, Address(p, params), p.copyIn)
  }

  ghost predicate AllDescribed(ptrs: seq<Ptr>, params: seq<Byte>) {
    forall i :: 0 <= i < |ptrs| ==> Described(ptrs[i], params)
  }

  /** One record for each of the first `n` pointers that is not null, in the table's order. */
  ghost function Kept(ptrs: seq<Ptr>, params: seq<Byte>, n: nat): (infos: seq<Info>)
    requires n <= |ptrs| && AllDescribed(ptrs[..n], params)
    ensures |infos| <= n
  {
    if n == 0 then []
    else
      Shorter(ptrs, params, n);
      var before := Kept(ptrs, params, n - 1);
      if Null(ptrs[n - 1], params) then before else before + [InfoOf(ptrs[n - 1], params)]
  }

  lemma Shorter(ptrs: seq<Ptr>, params: seq<Byte>, n: nat)
    requires 0 < n <= |ptrs| && AllDescribed(ptrs[..n], params)
    ensures AllDescribed(ptrs[..n - 1], params) && Described(ptrs[n - 1], params)
  {
  }

  /** The bytes of the block set aside: a table entry for every pointer, null or not, and the
      payloads of those that are not. */
  ghost function SetAside(ptrs: seq<Ptr>, params: seq<Byte>, n: nat): nat
    requires n <= |ptrs| && AllDescribed(ptrs[..n], params)
  {
    TableBytes(|ptrs|) + InfoLen(Kept(ptrs, params, n))
  }

  lemma {:induction false} SetAsideGrows(ptrs: seq<Ptr>, params: seq<Byte>, n: nat, m: nat)
    requires n <= m <= |ptrs| && AllDescribed(ptrs[..m], params)
    ensures AllDescribed(ptrs[..n], params) && SetAside(ptrs, params, n) <= SetAside(ptrs, params, m)
    decreases m
  {
    if n < m {
      Shorter(ptrs, params, m);
      SetAsideGrows(ptrs, params, n, m - 1);
    }
  }

  ghost predicate Addressable(ptrs: seq<Ptr>, size: nat) {
    forall i :: 0 <= i < |ptrs| ==> ptrs[i].kind == Fixed || ReadsInside(ptrs[i], size)
  }

  /** A control whose pointers all travel: each described, all of them together within the bound. */
  ghost predicate Carried(ptrs: seq<Ptr>, params: seq<Byte>) {
    && AllDescribed(ptrs[..|ptrs|], params)
    && SetAside(ptrs, params, |ptrs|) <= 0x20_0000
  }

  /** One pointer: None when it cannot be described, Some(None) when it is null. */
  method LookAt(p: Ptr, params: seq<Byte>) returns (r: Option<Option<Info>>)
    requires p.kind != Fixed ==> ReadsInside(p, |params|)
    ensures r.Some? <==> p.offset + 8 <= |params| && (FromLe(params[p.offset..p.offset + 8]) == 0 || Sized(p, params))
    ensures r.Some? <==> Described(p, params)
    ensures r.Some? ==> r.value == if Null(p, params) then None else Some(InfoOf(p, params))
  {
    if p.offset + 8 > |params| { return None; }
    var user := Address(p, params);
    if user == 0 { return Some(None); }
    var len := Len(p, params);
    r := if len.None? then None else Some(Some(Info(p.offset, len.value, user, p.copyIn)));
  }

  /** One turn of the loop over the pointers: the records and the total after it, or None for a break. */
  method CollectOne(ptrs: seq<Ptr>, params: seq<Byte>, n: nat, before: seq<Info>, total: nat)
    returns (r: Option<(seq<Info>, nat)>)
    requires n < |ptrs| <= MAX_SEGMENTS && Addressable(ptrs, |params|) && AllDescribed(ptrs[..n], params)
    requires before == Kept(ptrs, params, n) && total == SetAside(ptrs, params, n) <= 0x20_0000
    ensures r.Some? <==> AllDescribed(ptrs[..n + 1], params) && SetAside(ptrs, params, n + 1) <= 0x20_0000
    ensures r.Some? ==> r.value == (Kept(ptrs, params, n + 1), SetAside(ptrs, params, n + 1))
  {
    var seen := LookAt(ptrs[n], params);
    if seen.None? {
      if AllDescribed(ptrs[..n + 1], params) { Shorter(ptrs, params, n + 1); }
      return None;
    }
    OneMore(ptrs, params, n);
    var infos, sum := before, total;
    if seen.value.Some? {
      infos, sum := before + [seen.value.value], total + Pad8(seen.value.value.len);
    }
    r := if sum > 0x20_0000 then None else Some((infos, sum));
  }

  lemma OneMore(ptrs: seq<Ptr>, params: seq<Byte>, n: nat)
    requires n < |ptrs| && AllDescribed(ptrs[..n], params) && Described(ptrs[n], params)
    ensures AllDescribed(ptrs[..n + 1], params)
    ensures Kept(ptrs, params, n + 1)
            == Kept(ptrs, params, n) + if Null(ptrs[n], params) then [] else [InfoOf(ptrs[n], params)]
  {
    var more := ptrs[..n + 1];
    forall i | 0 <= i < |more| ensures Described(more[i], params) {
      if i < n { assert ptrs[..n][i] == more[i]; }
    }
  }

  /** The loop over a control's pointers: all of them that are not null, or none at all. */
  method Collect(ptrs: seq<Ptr>, params: seq<Byte>) returns (r: Option<(seq<Info>, nat)>)
    requires |ptrs| <= MAX_SEGMENTS && Addressable(ptrs, |params|)
    ensures r.Some? <==> Carried(ptrs, params)
    ensures r.Some? ==> r.value == (Kept(ptrs, params, |ptrs|), SetAside(ptrs, params, |ptrs|))
  {
    r := Some(([], TableBytes(|ptrs|)));
    for i := 0 to |ptrs|
      invariant AllDescribed(ptrs[..i], params)
      invariant r == Some((Kept(ptrs, params, i), SetAside(ptrs, params, i))) && r.value.1 <= 0x20_0000
    {
      r := CollectOne(ptrs, params, i, r.value.0, r.value.1);
      if r.None? {
        if Carried(ptrs, params) { SetAsideGrows(ptrs, params, i + 1, |ptrs|); }
        return;
      }
    }
  }

  /** The records of a control that is carried: one per pointer, in order, none null, and the block
      set aside holds all of them. */
  lemma {:induction false} KeptFit(ptrs: seq<Ptr>, params: seq<Byte>, n: nat)
    requires n <= |ptrs| <= MAX_SEGMENTS && AllDescribed(ptrs[..n], params)
    ensures var infos := Kept(ptrs, params, n);
            && TableBytes(|infos|) + InfoLen(infos) <= SetAside(ptrs, params, n)
            && (forall i :: 0 <= i < |infos| ==> infos[i].user != 0 && infos[i].len <= 0x10_0000)
            && (forall i :: 0 <= i < |infos| ==> exists k :: 0 <= k < n && infos[i].off == ptrs[k].offset)
  {
    if n > 0 {
      Shorter(ptrs, params, n);
      KeptFit(ptrs, params, n - 1);
    }
  }

  ghost predicate OwnOffsets(ptrs: seq<Ptr>) {
    forall i, j :: 0 <= i < j < |ptrs| ==> ptrs[i].offset != ptrs[j].offset
  }

  /** Pointers at different places are recorded at different places. */
  lemma {:induction false} KeptApart(ptrs: seq<Ptr>, params: seq<Byte>, n: nat)
    requires n <= |ptrs| <= MAX_SEGMENTS && AllDescribed(ptrs[..n], params) && OwnOffsets(ptrs)
    ensures var infos := Kept(ptrs, params, n);
            forall i, j :: 0 <= i < j < |infos| ==> infos[i].off != infos[j].off
  {
    if n > 0 {
      Shorter(ptrs, params, n);
      KeptApart(ptrs, params, n - 1);
      KeptFit(ptrs, params, n - 1);
    }
  }

  function PtrsOf(t: Table, e: Entry): seq<Ptr>
    requires e.first + e.count <= |t.ptrs|
  {
    t.ptrs[e.first..e.first + e.count]
  }

  /** The entry is not refused, the whole parameter block is there, and all its pointers travel. */
  ghost predicate Sends(t: Table, e: Entry, params: seq<Byte>)
    requires e.first + e.count <= |t.ptrs|
  {
    && !e.refused && e.paramsSize <= |params| && 0 < e.count <= 8
    && Carried(PtrsOf(t, e), params)
  }

  ghost function Sent(t: Table, e: Entry, params: seq<Byte>): seq<Info>
    requires e.first + e.count <= |t.ptrs|
  {
    if Sends(t, e, params) then Kept(PtrsOf(t, e), params, e.count) else []
  }

  method SegmentsFor(t: Table, e: Entry, params: seq<Byte>) returns (infos: seq<Info>, total: nat)
    requires e.first + e.count <= |t.ptrs| && Addressable(t.ptrs, |params|)
    ensures infos == Sent(t, e, params)
    ensures infos != [] ==> |infos| <= MAX_SEGMENTS && TableBytes(|infos|) + InfoLen(infos) <= total <= 0x20_0000
  {
    hide Kept, Described, AllDescribed;
    infos, total := [], 0;
    if e.refused || |params| < e.paramsSize || e.count == 0 || e.count > MAX_SEGMENTS { return; }
    var ptrs := t.ptrs[e.first..e.first + e.count];
    var r := Collect(ptrs, params);
    if r.Some? {
      infos, total := r.value.0, r.value.1;
      KeptFit(ptrs, params, |ptrs|);
    }
  }

  /** Segments go exactly for a command that has an entry, as that entry says. */
  method SegmentsOf(t: Table, cmd: U32, params: seq<Byte>) returns (infos: seq<Info>, total: nat)
    requires forall e :: e in t.entries ==> e.first + e.count <= |t.ptrs|
    requires Addressable(t.ptrs, |params|)
    ensures infos != [] ==> |infos| <= MAX_SEGMENTS && TableBytes(|infos|) + InfoLen(infos) <= total <= 0x20_0000
    ensures infos != [] ==> exists e :: e in t.entries && e.cmd == cmd && infos == Sent(t, e, params)
    ensures Ascending(t.entries) ==> forall e :: e in t.entries && e.cmd == cmd ==> infos == Sent(t, e, params)
    ensures Ascending(t.entries) ==> forall e :: e in t.entries && e.cmd == cmd ==>
              if e.refused || |params| < e.paramsSize || e.count == 0 || e.count > 8 then infos == []
              else var ptrs := t.ptrs[e.first..e.first + e.count];
                   infos == if Carried(ptrs, params) then Kept(ptrs, params, e.count) else []
  {
    var at := Find(t.entries, cmd);
    if at.None? { return [], 0; }
    infos, total := SegmentsFor(t, t.entries[at.value], params);
  }

  // ---------------------------------------------------------------------
  // There and back

  /** The caller's address in the eight bytes a pointer has in the block, least significant first. */
  ghost predicate Points(p: Ptr, params: seq<Byte>) {
    p.offset + 8 <= |params| && FromLe(params[p.offset..p.offset + 8]) != 0
  }

  /** How many of the first `n` pointers are not null. */
  ghost function PointersBefore(ptrs: seq<Ptr>, params: seq<Byte>, n: nat): nat
    requires n <= |ptrs|
  {
    if n == 0 then 0 else PointersBefore(ptrs, params, n - 1) + if Points(ptrs[n - 1], params) then 1 else 0
  }

  /** What the table and the parameter block say of one pointer. */
  ghost predicate Records(info: Info, p: Ptr, params: seq<Byte>)
    requires Points(p, params) && (p.kind != Fixed ==> CountIsRead(p, params))
  {
    && info.off == p.offset && info.len == Elements(p, params) * p.elemSize && info.copyIn == p.copyIn
    && info.user == FromLe(params[p.offset..p.offset + 8])
  }

  /** The records are of the pointers that are not null, in the table's order. */
  lemma {:induction false} KeptRecords(ptrs: seq<Ptr>, params: seq<Byte>, n: nat, i: nat)
    requires i < n <= |ptrs| && AllDescribed(ptrs[..n], params)
    ensures |Kept(ptrs, params, n)| == PointersBefore(ptrs, params, n)
    ensures Points(ptrs[i], params) ==>
              && (ptrs[i].kind != Fixed ==> CountIsRead(ptrs[i], params))
              && PointersBefore(ptrs, params, i) < |Kept(ptrs, params, n)|
              && Records(Kept(ptrs, params, n)[PointersBefore(ptrs, params, i)], ptrs[i], params)
  {
    Shorter(ptrs, params, n);
    if i + 1 < n {
      KeptRecords(ptrs, params, n - 1, i);
    } else if i > 0 {
      KeptRecords(ptrs, params, i, i - 1);
    }
  }

  lemma AllRecorded(ptrs: seq<Ptr>, params: seq<Byte>)
    requires AllDescribed(ptrs[..|ptrs|], params)
    ensures var infos := Kept(ptrs, params, |ptrs|);
            && |infos| == PointersBefore(ptrs, params, |ptrs|)
            && forall i :: 0 <= i < |ptrs| && Points(ptrs[i], params) ==>
                 && PointersBefore(ptrs, params, i) < |infos| && (ptrs[i].kind != Fixed ==> CountIsRead(ptrs[i], params))
                 && Records(infos[PointersBefore(ptrs, params, i)], ptrs[i], params)
  {
    if ptrs != [] { KeptRecords(ptrs, params, |ptrs|, 0); }
    forall i | 0 <= i < |ptrs| && Points(ptrs[i], params)
      ensures PointersBefore(ptrs, params, i) < |Kept(ptrs, params, |ptrs|)|
      ensures ptrs[i].kind != Fixed ==> CountIsRead(ptrs[i], params)
      ensures Records(Kept(ptrs, params, |ptrs|)[PointersBefore(ptrs, params, i)], ptrs[i], params)
    {
      KeptRecords(ptrs, params, |ptrs|, i);
    }
  }

  /** The whole road out: what is collected is gathered, and read by the backend as the caller's own
      bytes. With every pointer null there is no block to send. */
  method Forward(ptrs: seq<Ptr>, params: seq<Byte>, mem: map<nat, Byte>) returns (block: Option<seq<Byte>>, infos: seq<Info>)
    requires |ptrs| <= MAX_SEGMENTS && Addressable(ptrs, |params|)
    ensures infos == if Carried(ptrs, params) then Kept(ptrs, params, |ptrs|) else []
    ensures block.Some? <==> infos != [] && Gatherable(mem, infos)
    ensures infos != [] ==> |infos| == PointersBefore(ptrs, params, |ptrs|)
    ensures infos != [] ==> forall i :: 0 <= i < |ptrs| && Points(ptrs[i], params) ==>
              && PointersBefore(ptrs, params, i) < |infos| && (ptrs[i].kind != Fixed ==> CountIsRead(ptrs[i], params))
              && Records(infos[PointersBefore(ptrs, params, i)], ptrs[i], params)
    ensures block.Some? ==> Accepts(block.value) && |Contents(block.value)| == |infos|
                            && forall j :: 0 <= j < |infos| ==> CarriesFor(Contents(block.value)[j], infos[j], mem)
    ensures block.Some? ==> |block.value| == 8 + 8 * |ptrs| + InfoLen(infos) == SetAside(ptrs, params, |ptrs|)
  {
    hide Kept, Described, Elements, CountIsRead;
    block, infos := None, [];
    var r := Collect(ptrs, params);
    if r.None? { return; }
    infos := r.value.0;
    if infos == [] { return; }
    KeptFit(ptrs, params, |ptrs|);
    AllRecorded(ptrs, params);
    var d := new Byte[r.value.1];
    var ok := Gather(d, infos, mem);
    if ok { block := Some(d[..]); }
  }

  /** The backend has a buffer of the computed length for every pointer that is not null. */
  ghost predicate Filled(ptrs: seq<Ptr>, params: seq<Byte>, outs: seq<seq<Byte>>, n: nat)
    requires n <= |ptrs| && AllDescribed(ptrs[..n], params)
  {
    |outs| == |ptrs| && forall i :: 0 <= i < n && !Null(ptrs[i], params) ==>
      Described(ptrs[i], params) && |outs[i]| == InfoOf(ptrs[i], params).len
  }

  /** What goes back: a segment for each of the first `n` pointers RM writes through, if it addresses
      anything. Pointers RM only reads have no answer. */
  function Answered(ptrs: seq<Ptr>, params: seq<Byte>, outs: seq<seq<Byte>>, n: nat): (segs: seq<Segment>)
    requires n <= |ptrs| == |outs|
    ensures |segs| <= n
  {
    if n == 0 then []
    else
      var before, p := Answered(ptrs, params, outs, n - 1), ptrs[n - 1];
      if Null(p, params) || !p.copyOut || outs[n - 1] == [] then before
      else before + [Segment(p.offset, outs[n - 1])]
  }

  /** The reply's segments are for recorded pointers, and their block is no longer than the guest's. */
  lemma {:induction false} AnswersFit(ptrs: seq<Ptr>, params: seq<Byte>, outs: seq<seq<Byte>>, n: nat)
    requires n <= |ptrs| <= MAX_SEGMENTS && AllDescribed(ptrs[..n], params) && Filled(ptrs, params, outs, n)
    ensures var infos, segs := Kept(ptrs, params, n), Answered(ptrs, params, outs, n);
            && |segs| <= |infos| && PayloadLen(segs) <= InfoLen(infos)
            && ForPointers(infos, segs)
  {
    hide Null, Described, InfoOf;
    if n > 0 {
      Shorter(ptrs, params, n);
      AnswersFit(ptrs, params, outs, n - 1);
      StillForPointers(Kept(ptrs, params, n - 1), Kept(ptrs, params, n), Answered(ptrs, params, outs, n - 1));
      if !Null(ptrs[n - 1], params) { AnswerFits(ptrs, params, outs, n); }
    }
  }

  lemma StillForPointers(infos: seq<Info>, more: seq<Info>, segs: seq<Segment>)
    requires ForPointers(infos, segs) && infos <= more
    ensures ForPointers(more, segs)
  {
    forall i | 0 <= i < |segs| ensures HasPointer(more, segs[i]) {
      assert HasPointer(infos, segs[i]);
      var j :| 0 <= j < |infos| && Takes(infos[j], segs[i].off, |segs[i].bytes|);
      assert more[j] == infos[j];
    }
  }

  lemma AnswerFits(ptrs: seq<Ptr>, params: seq<Byte>, outs: seq<seq<Byte>>, n: nat)
    requires 0 < n <= |ptrs| && AllDescribed(ptrs[..n], params) && Filled(ptrs, params, outs, n)
    requires Described(ptrs[n - 1], params) && !Null(ptrs[n - 1], params)
    ensures var infos := Kept(ptrs, params, n);
            infos != [] && Takes(infos[|infos| - 1], ptrs[n - 1].offset, |outs[n - 1]|)
            && infos[|infos| - 1].len == |outs[n - 1]|
  {
    hide Sized, Elements;
  }

  /** The backend's reply: the answers encoded in a block as long as the guest's, or no block at all. */
  method AnswerBlock(ptrs: seq<Ptr>, params: seq<Byte>, outs: seq<seq<Byte>>, have: nat) returns (reply: seq<Byte>)
    requires |ptrs| <= MAX_SEGMENTS && Carried(ptrs, params) && Filled(ptrs, params, outs, |ptrs|)
    requires have == SetAside(ptrs, params, |ptrs|)
    ensures var answers := Answered(ptrs, params, outs, |ptrs|);
            if answers == [] then reply == [] else |reply| == have && BlockWithSlack(reply, answers)
  {
    var answers: seq<Segment> := [];
    for i := 0 to |ptrs|
      invariant answers == Answered(ptrs, params, outs, i)
    {
      if !Null(ptrs[i], params) && ptrs[i].copyOut && |outs[i]| > 0 {
        answers := answers + [Segment(ptrs[i].offset, outs[i])];
      }
    }
    if answers == [] { return []; }
    AnswersFit(ptrs, params, outs, |ptrs|);
    KeptFit(ptrs, params, |ptrs|);
    reply := EncodeReply(answers, have);
  }

  method EncodeReply(answers: seq<Segment>, have: nat) returns (reply: seq<Byte>)
    requires Encodable(answers) && BlockLen(answers) <= have
    ensures |reply| == have && BlockWithSlack(reply, answers)
  {
    var d := new Byte[have](_ => 0);
    var r := Encode(d, answers);
    reply := d[..];
  }

  /** A pointer RM writes through, with something to bring back. */
  ghost predicate BringsBack(p: Ptr, params: seq<Byte>, out: seq<Byte>) {
    Points(p, params) && p.copyOut && out != []
  }

  ghost function AnswersBefore(ptrs: seq<Ptr>, params: seq<Byte>, outs: seq<seq<Byte>>, n: nat): nat
    requires n <= |ptrs| == |outs|
  {
    if n == 0 then 0
    else AnswersBefore(ptrs, params, outs, n - 1) + if BringsBack(ptrs[n - 1], params, outs[n - 1]) then 1 else 0
  }

  /** The answers are what RM left behind the pointers it writes through, in the table's order. */
  lemma {:induction false} AnswersAre(ptrs: seq<Ptr>, params: seq<Byte>, outs: seq<seq<Byte>>, n: nat, i: nat)
    requires i < n <= |ptrs| == |outs| && AllDescribed(ptrs[..n], params)
    ensures var answers := Answered(ptrs, params, outs, n);
            && |answers| == AnswersBefore(ptrs, params, outs, n)
            && (BringsBack(ptrs[i], params, outs[i]) ==>
                  && AnswersBefore(ptrs, params, outs, i) < |answers|
                  && answers[AnswersBefore(ptrs, params, outs, i)] == Segment(ptrs[i].offset, outs[i]))
  {
    Shorter(ptrs, params, n);
    if i + 1 < n {
      AnswersAre(ptrs, params, outs, n - 1, i);
    } else if i > 0 {
      AnswersAre(ptrs, params, outs, i, i - 1);
    }
  }

  /** So what RM wrote behind a pointer is what the guest delivers, at the address the caller's own block
      holds for that pointer, and nothing else is delivered. */
  lemma WrittenIsDelivered(ptrs: seq<Ptr>, params: seq<Byte>, outs: seq<seq<Byte>>, reply: seq<Byte>, i: nat)
    requires |ptrs| <= MAX_SEGMENTS && OwnOffsets(ptrs) && Carried(ptrs, params) && Filled(ptrs, params, outs, |ptrs|)
    requires BlockWithSlack(reply, Answered(ptrs, params, outs, |ptrs|)) && i < |ptrs|
    ensures var out, at := Delivered(Kept(ptrs, params, |ptrs|), Reply(reply)), AnswersBefore(ptrs, params, outs, i);
            && |out| == AnswersBefore(ptrs, params, outs, |ptrs|)
            && (BringsBack(ptrs[i], params, outs[i]) ==>
                  at < |out| && out[at] == Delivery(FromLe(params[ptrs[i].offset..ptrs[i].offset + 8]), outs[i]))
  {
    hide Kept, Answered, Reply, Delivered, AnswersBefore, PointersBefore, ForPointers;
    AnswersReturn(ptrs, params, outs, reply);
    AnswersAre(ptrs, params, outs, |ptrs|, i);
    KeptRecords(ptrs, params, |ptrs|, i);
  }

  /** Each answer comes back to the pointer it is for, whichever of the pointers RM writes through. */
  lemma AnswersReturn(ptrs: seq<Ptr>, params: seq<Byte>, outs: seq<seq<Byte>>, reply: seq<Byte>)
    requires |ptrs| <= MAX_SEGMENTS && OwnOffsets(ptrs) && Carried(ptrs, params) && Filled(ptrs, params, outs, |ptrs|)
    requires BlockWithSlack(reply, Answered(ptrs, params, outs, |ptrs|))
    ensures var infos, answers := Kept(ptrs, params, |ptrs|), Answered(ptrs, params, outs, |ptrs|);
            ForPointers(infos, answers) && ToOwn(infos, answers, Delivered(infos, Reply(reply)))
  {
    var infos, answers := Kept(ptrs, params, |ptrs|), Answered(ptrs, params, outs, |ptrs|);
    AnswersFit(ptrs, params, outs, |ptrs|);
    KeptApart(ptrs, params, |ptrs|);
    ReplyReachesCaller(infos, answers, Zeros(|reply| - BlockLen(answers)));
  }
}
