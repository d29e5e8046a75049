/** Streams of records: what lies where in a buffer, runs of 32-bit words, and lists of records
    laid end to end. */
module Records {
  import opened Basics
  import opened Wire

  /** `x` lies in the buffer at `p`. */
  predicate At(bs: seq<Byte>, p: nat, x: seq<Byte>) {
    p + |x| <= |bs| && bs[p..p + |x|] == x
  }

  lemma AtBoth(bs: seq<Byte>, p: nat, x: seq<Byte>, y: seq<Byte>)
    ensures At(bs, p, x + y) <==> At(bs, p, x) && At(bs, p + |x|, y)
  {
    if p + |x + y| <= |bs| {
      var whole := bs[p..p + |x + y|];
      assert whole[..|x|] == bs[p..p + |x|];
      assert whole[|x|..] == bs[p + |x|..p + |x + y|];
      assert whole == whole[..|x|] + whole[|x|..];
      if whole == x + y {
        assert whole[..|x|] == x && whole[|x|..] == y;
      }
    }
  }

  function Words(ws: seq<U32>): (r: seq<Byte>)
    ensures |r| == 4 * |ws|
  {
    if ws == [] then [] else Le32(ws[0]) + Words(ws[1..])
  }

  /** `as u32`. */
  function AsU32(n: nat): U32 {
    n % 0x1_0000_0000
  }

  /** `n` words in a row. */
  function ReadWords(bs: seq<Byte>, p: nat, n: nat): (ws: seq<U32>)
    requires p + 4 * n <= |bs|
    ensures |ws| == n
    decreases n, p
  {
    if n == 0 then [] else [Read32(bs, p)] + ReadWords(bs, p + 4, n - 1)
  }

  lemma {:induction false} WordAt(bs: seq<Byte>, p: nat, ws: seq<U32>, i: nat)
    requires At(bs, p, Words(ws)) && i < |ws|
    ensures p + 4 * i + 4 <= |bs| && Read32(bs, p + 4 * i) == ws[i]
    decreases |ws|
  {
    AtBoth(bs, p, Le32(ws[0]), Words(ws[1..]));
    if i == 0 {
      ReadBack32(bs, p, ws[0]);
    } else {
      WordAt(bs, p + 4, ws[1..], i - 1);
    }
  }

  /** Words read back as they were written. */
  lemma {:induction false} WordsAt(bs: seq<Byte>, p: nat, ws: seq<U32>)
    requires At(bs, p, Words(ws))
    ensures ReadWords(bs, p, |ws|) == ws
    decreases |ws|
  {
    if ws != [] {
      AtBoth(bs, p, Le32(ws[0]), Words(ws[1..]));
      ReadBack32(bs, p, ws[0]);
      WordsAt(bs, p + 4, ws[1..]);
    }
  }

  lemma {:induction false} WordsNext(ws: seq<U32>, n: nat)
    requires n < |ws|
    ensures Words(ws[..n + 1]) == Words(ws[..n]) + Le32(ws[n])
  {
    if n == 0 {
      assert ws[..1][1..] == [] && Words([]) == [];
    } else {
      WordsNext(ws[1..], n - 1);
      assert ws[..n + 1][1..] == ws[1..][..n] && ws[..n][1..] == ws[1..][..n - 1];
    }
  }

  /** Records laid end to end. */
  function Concat<T>(record: T -> seq<Byte>, xs: seq<T>): seq<Byte> {
    if xs == [] then [] else record(xs[0]) + Concat(record, xs[1..])
  }

  lemma {:induction false} ConcatNext<T>(record: T -> seq<Byte>, xs: seq<T>, n: nat)
    requires n < |xs|
    ensures Concat(record, xs[..n + 1]) == Concat(record, xs[..n]) + record(xs[n])
  {
    if n == 0 {
      assert xs[..1][1..] == [] && Concat(record, []) == [];
    } else {
      ConcatNext(record, xs[1..], n - 1);
      assert xs[..n + 1][1..] == xs[1..][..n] && xs[..n][1..] == xs[1..][..n - 1];
    }
  }

  /** How many of the records, taken in order, fit in `room` bytes. */
  function Fitting<T>(record: T -> seq<Byte>, xs: seq<T>, room: nat): (n: nat)
    ensures n <= |xs|
  {
    if xs == [] || |record(xs[0])| > room then 0
    else 1 + Fitting(record, xs[1..], room - |record(xs[0])|)
  }

  /** They do fit, and the next one would not. */
  lemma {:induction false} FittingFits<T>(record: T -> seq<Byte>, xs: seq<T>, room: nat)
    ensures var n := Fitting(record, xs, room);
            && |Concat(record, xs[..n])| <= room
            && (n < |xs| ==> |Concat(record, xs[..n + 1])| > room)
  {
    var n := Fitting(record, xs, room);
    if n == 0 {
      if xs != [] { ConcatNext(record, xs, 0); }
      assert xs[..0] == [] && Concat(record, xs[..0]) == [];
    } else {
      FittingFits(record, xs[1..], room - |record(xs[0])|);
      assert xs[..n][1..] == xs[1..][..n - 1];
      if n < |xs| { assert xs[..n + 1][1..] == xs[1..][..n]; }
    }
  }

  /** And that number is the only one with this property. */
  lemma {:induction false} FittingIs<T>(record: T -> seq<Byte>, xs: seq<T>, room: nat, n: nat)
    requires n <= |xs| && |Concat(record, xs[..n])| <= room
    requires n < |xs| ==> |Concat(record, xs[..n + 1])| > room
    ensures Fitting(record, xs, room) == n
  {
    if n == 0 {
      if xs != [] {
        ConcatNext(record, xs, 0);
        assert xs[..0] == [] && Concat(record, xs[..0]) == [];
      }
    } else {
      assert xs[..n][1..] == xs[1..][..n - 1];
      if n < |xs| { assert xs[..n + 1][1..] == xs[1..][..n]; }
      FittingIs(record, xs[1..], room - |record(xs[0])|, n - 1);
    }
  }

  /** A list read so far, in front of what a reader makes of the rest. */
  function Behind<T>(done: seq<T>, rest: (seq<T>, nat)): (seq<T>, nat) {
    (done + rest.0, rest.1)
  }

  lemma BehindEnds<T>(done: seq<T>, rest: (seq<T>, nat), p: nat)
    ensures Behind([], rest) == rest && Behind(done, ([], p)) == (done, p)
  {
    assert [] + rest.0 == rest.0 && done + [] == done;
  }

  lemma BehindOne<T>(done: seq<T>, x: T, rest: (seq<T>, nat))
    ensures Behind(done, ([x] + rest.0, rest.1)) == Behind(done + [x], rest)
  {
    assert done + ([x] + rest.0) == done + [x] + rest.0;
  }

  // ---------------------------------------------------------------------
  // Writing

  /** A buffer with `x` written at `p`. */
  function Over(was: seq<Byte>, p: nat, x: seq<Byte>): (now: seq<Byte>)
    requires p + |x| <= |was|
    ensures |now| == |was| && At(now, p, x)
  {
    was[..p] + x + was[p + |x|..]
  }

  lemma OverTwice(was: seq<Byte>, p: nat, x: seq<Byte>, y: seq<Byte>)
    requires p + |x| + |y| <= |was|
    ensures Over(Over(was, p, x), p + |x|, y) == Over(was, p, x + y)
  {
  }

  lemma OverNothing(was: seq<Byte>, p: nat)
    requires p <= |was|
    ensures Over(was, p, []) == was
  {
  }

  /** The first `n` records are laid from `p` on, over what the buffer was; the next one goes at `off`. */
  ghost predicate Laid<T>(was: seq<Byte>, now: seq<Byte>, p: nat, record: T -> seq<Byte>, xs: seq<T>, n: nat, off: nat) {
    && n <= |xs| && off == p + |Concat(record, xs[..n])| <= |was|
    && now == Over(was, p, Concat(record, xs[..n]))
  }

  lemma LaidNone<T>(was: seq<Byte>, p: nat, record: T -> seq<Byte>, xs: seq<T>)
    requires p <= |was|
    ensures Laid(was, was, p, record, xs, 0, p)
  {
  }

  lemma LaidOne<T>(was: seq<Byte>, now: seq<Byte>, p: nat, record: T -> seq<Byte>, xs: seq<T>, n: nat, off: nat)
    requires Laid(was, now, p, record, xs, n, off) && n < |xs| && off + |record(xs[n])| <= |was|
    ensures Laid(was, Over(now, off, record(xs[n])), p, record, xs, n + 1, off + |record(xs[n])|)
  {
    ConcatNext(record, xs, n);
    OverTwice(was, p, Concat(record, xs[..n]), record(xs[n]));
  }

  /** What fits: the records laid so far, when there are no more or the next one is too long. */
  lemma LaidAll<T>(was: seq<Byte>, now: seq<Byte>, p: nat, record: T -> seq<Byte>, xs: seq<T>, n: nat, off: nat, room: nat)
    requires Laid(was, now, p, record, xs, n, off) && off <= p + room
    requires n < |xs| ==> off + |record(xs[n])| > p + room
    ensures Fitting(record, xs, room) == n
  {
    if n < |xs| { ConcatNext(record, xs, n); }
    FittingIs(record, xs, room, n);
  }

  /** `copy_from_slice` into the buffer. */
  method Copy(buf: array<Byte>, p: nat, x: seq<Byte>)
    requires p + |x| <= buf.Length
    modifies buf
    ensures buf[..] == Over(old(buf[..]), p, x)
  {
    ghost var was := buf[..];
    Put(buf, p, x);
    assert buf[..] == buf[..p] + buf[p..p + |x|] + buf[p + |x|..];
  }

  /** Words one after another, the offset moving by four. */
  method PutWords(buf: array<Byte>, p: nat, ws: seq<U32>) returns (off: nat)
    requires p + 4 * |ws| <= buf.Length
    modifies buf
    ensures off == p + 4 * |ws| && buf[..] == Over(old(buf[..]), p, Words(ws))
  {
    hide Over, LeBytes;
    ghost var was := buf[..];
    off := p;
    OverNothing(was, p);
    for i := 0 to |ws|
      invariant off == p + 4 * i && buf[..] == Over(was, p, Words(ws[..i]))
    {
      Copy(buf, off, Le32(ws[i]));
      OverTwice(was, p, Words(ws[..i]), Le32(ws[i]));
      WordsNext(ws, i);
      off := off + 4;
    }
    assert ws[..|ws|] == ws;
  }
}
