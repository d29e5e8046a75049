/** Bytes on the wire: little-endian words, and copying into a buffer in place. */
module Wire {
  import opened Basics

  function Power256(n: nat): (p: nat)
    ensures p > 0
  {
    if n == 0 then 1 else 256 * Power256(n - 1)
  }

  /** `n` bytes of `v`, least significant first; what does not fit is cut off. */
  function LeBytes(v: nat, n: nat): (r: seq<Byte>)
    ensures |r| == n
  {
    if n == 0 then [] else [v % 256] + LeBytes(v / 256, n - 1)
  }

  function FromLe(bs: seq<Byte>): nat {
    if bs == [] then 0 else bs[0] + 256 * FromLe(bs[1..])
  }

  lemma {:induction false} LeRoundTrip(v: nat, n: nat)
    requires v < Power256(n)
    ensures FromLe(LeBytes(v, n)) == v
  {
    if n > 0 {
      LeRoundTrip(v / 256, n - 1);
      assert LeBytes(v, n)[1..] == LeBytes(v / 256, n - 1);
    }
  }

  /** Byte `i` weighs 256 to the `i`. */
  lemma {:induction false} LeByteIs(v: nat, n: nat, i: nat)
    requires i < n
    ensures LeBytes(v, n)[i] == v / Power256(i) % 256
  {
    if i > 0 {
      LeByteIs(v / 256, n - 1, i - 1);
      DivTwice(v, Power256(i - 1));
    }
  }

  lemma DivTwice(v: nat, p: nat)
    requires p > 0
    ensures v / 256 / p == v / (256 * p)
  {
    var q: nat, r: nat := v / 256 / p, v / 256 % p;
    assert v / 256 == p * q + r;
    assert v == 256 * (p * q + r) + v % 256;
    assert 256 * (p * q) == (256 * p) * q;
    QuotientIs(v, 256 * p, q, 256 * r + v % 256);
  }

  lemma QuotientIs(v: nat, d: nat, q: nat, r: nat)
    requires d > 0 && v == d * q + r && r < d
    ensures v / d == q
  {
    var k := v / d - q;
    assert d * k == d * (v / d) - d * q == r - v % d;
    NoneBetween(d, k);
  }

  /** Between two neighbouring multiples lies no other. */
  lemma NoneBetween(d: int, k: int)
    requires d > 0
    ensures k == 0 || d * k >= d || d * k <= -d
  {
  }

  /** Reading a word and writing it again gives the same bytes. */
  lemma {:induction false} LeRewrite(bs: seq<Byte>)
    ensures FromLe(bs) < Power256(|bs|)
    ensures LeBytes(FromLe(bs), |bs|) == bs
  {
    if bs != [] {
      LeRewrite(bs[1..]);
      assert FromLe(bs) / 256 == FromLe(bs[1..]) && FromLe(bs) % 256 == bs[0];
    }
  }

  lemma WordSizes()
    ensures Power256(4) == 0x1_0000_0000
    ensures Power256(8) == 0x1_0000_0000_0000_0000
  {
  }

  function Le32(v: U32): seq<Byte> {
    LeBytes(v, 4)
  }

  function Le64(v: U64): seq<Byte> {
    LeBytes(v, 8)
  }

  /** The 32-bit word at `at`. */
  function Read32(bs: seq<Byte>, at: nat): U32
    requires at + 4 <= |bs|
  {
    WordSizes();
    LeRewrite(bs[at..at + 4]);
    FromLe(bs[at..at + 4])
  }

  function Read64(bs: seq<Byte>, at: nat): U64
    requires at + 8 <= |bs|
  {
    WordSizes();
    LeRewrite(bs[at..at + 8]);
    FromLe(bs[at..at + 8])
  }

  lemma ReadBack32(bs: seq<Byte>, at: nat, v: U32)
    requires at + 4 <= |bs| && bs[at..at + 4] == Le32(v)
    ensures Read32(bs, at) == v
  {
    WordSizes();
    LeRoundTrip(v, 4);
  }

  lemma ReadBack64(bs: seq<Byte>, at: nat, v: U64)
    requires at + 8 <= |bs| && bs[at..at + 8] == Le64(v)
    ensures Read64(bs, at) == v
  {
    WordSizes();
    LeRoundTrip(v, 8);
  }

  function Zeros(n: nat): (r: seq<Byte>)
    ensures |r| == n
  {
    seq(n, _ => 0)
  }

  /** The next multiple of eight. */
  function Pad8(n: nat): (r: nat)
    ensures n <= r < n + 8 && r % 8 == 0
  {
    (n + 7) / 8 * 8
  }

  /** A piece of the middle part of three. */
  lemma Middle<T>(a: seq<T>, b: seq<T>, c: seq<T>, from: nat, to: nat)
    requires from <= to <= |b|
    ensures (a + b + c)[|a| + from..|a| + to] == b[from..to]
  {
  }

  /** `memcpy` to a place in a buffer: those bytes and no others change. */
  method Put(out: array<Byte>, at: nat, bytes: seq<Byte>, ghost from: nat := 0)
    requires from <= at && at + |bytes| <= out.Length
    modifies out
    ensures out[from..at + |bytes|] == old(out[from..at]) + bytes
    ensures out[..from] == old(out[..from])
    ensures out[at + |bytes|..] == old(out[at + |bytes|..])
  {
    for i := 0 to |bytes|
      invariant forall j :: 0 <= j < out.Length ==> out[j] == if at <= j < at + i then bytes[j - at] else old(out[j])
    {
      out[at + i] := bytes[i];
    }
  }
}
