/** Fixed-width numbers and optional values, as every other module uses them. */
module Basics {

  type Byte = x: int | 0 <= x < 256
  type U32 = x: int | 0 <= x < 0x1_0000_0000
  type U64 = x: int | 0 <= x < 0x1_0000_0000_0000_0000

  const U64_MAX: nat := 0xffff_ffff_ffff_ffff

  datatype Option<T> = None | Some(value: T)

  function Min(a: nat, b: nat): nat {
    if a <= b then a else b
  }

  /** The numbers from `at` on, `count` of them. */
  function Span(at: nat, count: nat): (s: set<nat>)
    ensures forall p :: p in s <==> at <= p < at + count
    decreases count
  {
    if count == 0 then {} else Span(at, count - 1) + {at + count - 1}
  }

  lemma {:induction false} SpanSize(at: nat, count: nat)
    ensures |Span(at, count)| == count
    decreases count
  {
    if count > 0 { SpanSize(at, count - 1); }
  }

  /** The values of a map, weighed and added up in whatever order. */
  ghost function Sum<K, V>(m: map<K, V>, weight: V -> nat): nat {
    if m == map[] then 0
    else
      var k :| k in m;
      weight(m[k]) + Sum(m - {k}, weight)
  }

  lemma {:induction false} SumRemove<K, V>(m: map<K, V>, weight: V -> nat, k: K)
    requires k in m
    ensures Sum(m, weight) == weight(m[k]) + Sum(m - {k}, weight)
    decreases m.Keys
  {
    var pick :| pick in m && Sum(m, weight) == weight(m[pick]) + Sum(m - {pick}, weight);
    if pick != k {
      SumRemove(m - {pick}, weight, k);
      SumRemove(m - {k}, weight, pick);
      assert m - {pick} - {k} == m - {k} - {pick};
    }
  }

  /** What is taken out of a map and what is left weigh as much as the map. */
  lemma {:induction false} SumSplit<K, V>(m: map<K, V>, s: set<K>, weight: V -> nat)
    ensures Sum(m, weight) == Sum(m - s, weight) + Sum(m - (m.Keys - s), weight)
    decreases m.Keys
  {
    if m != map[] {
      var k :| k in m;
      var less := m - {k};
      SumSplit(less, s, weight);
      SumRemove(m, weight, k);
      if k in s {
        SumRemove(m - (m.Keys - s), weight, k);
        assert less - (less.Keys - s) == m - (m.Keys - s) - {k};
        assert less - s == m - s;
      } else {
        SumRemove(m - s, weight, k);
        assert less - (less.Keys - s) == m - (m.Keys - s);
        assert less - s == m - s - {k};
      }
    }
  }

  /** Fewer values of the same weights weigh no more, and the same keys the same. */
  lemma {:induction false} SumShrinks<K, V>(small: map<K, V>, big: map<K, V>, weight: V -> nat)
    requires small.Keys <= big.Keys
    requires forall k :: k in small ==> weight(small[k]) == weight(big[k])
    ensures Sum(small, weight) <= Sum(big, weight)
    ensures small.Keys == big.Keys ==> Sum(small, weight) == Sum(big, weight)
    decreases small.Keys
  {
    if small == map[] {
      if big != map[] { assert small.Keys != big.Keys; }
    } else {
      var k :| k in small;
      SumRemove(small, weight, k);
      SumRemove(big, weight, k);
      SumShrinks(small - {k}, big - {k}, weight);
    }
  }
}
