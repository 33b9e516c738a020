/** The Bloom filter of the batch matcher (bloom.c).

    A filter is a bit count `bsz` and a byte buffer packing the bits most
    significant bit first: bit p lives in byte p / 8 under the mask
    `1 << (7 - p % 8)`. Each element sets or tests ten probe positions derived
    from one value by `hash_i`. Bits are only ever set, never cleared, so an
    element once added is reported present for the rest of the filter's life. */
module Bloom {
  import opened ModArith

  /** `H1PRIME`, `H2PRIME` and `BLOOM_HASH_NUM`. */
  const H1Prime: int := 4189793
  const H2Prime: int := 3296731
  const HashNum: int := 10

  /** The largest value of a C `int`. */
  const IntMax: int := 0x7fff_ffff

  /** `hash_i`: the i-th probe hash of x, `(x % H1PRIME) + i*(x % H2PRIME) + 1 + i*i`
      with C's remainder. For each of the ten probes the value fits an `int`, and
      for a non-negative x it is at least 1. */
  function HashI(i: int, x: int): (r: int)
    ensures 0 <= i < HashNum ==> -IntMax <= r <= IntMax
    ensures 0 <= i < HashNum && 0 <= x ==> 1 <= r
  {
    var a := CRem(x, H1Prime);
    var b := CRem(x, H2Prime);
    ProbeTermBound(i, b);
    a + i * b + 1 + i * i
  }

  /** The middle term of `hash_i` for one of the ten probes: at most nine
      times `x % H2PRIME` in magnitude, and non-negative with it. */
  lemma ProbeTermBound(i: int, b: int)
    requires -H2Prime < b < H2Prime
    ensures 0 <= i < HashNum ==> -9 * H2Prime <= i * b <= 9 * H2Prime
    ensures 0 <= i && 0 <= b ==> 0 <= i * b
    ensures 0 <= i < HashNum ==> i * i <= 81
  {
    if 0 <= i < HashNum {
      if b >= 0 {
        assert i * b <= 9 * b;
      } else {
        assert i * b >= 9 * b;
      }
      assert i * i <= 9 * i;
    }
  }

  /** The bit position probe i of x selects in a filter of bsz bits:
      `hash_i(i, x) % bsz` with C's remainder. */
  function Probe(bsz: int, i: int, x: int): (p: int)
    requires 0 < bsz
    ensures 0 <= i < HashNum && 0 <= x ==> 0 <= p < bsz
  {
    CRem(HashI(i, x), bsz)
  }

  /** q is one of the ten probe positions of x. */
  predicate IsProbe(bsz: int, x: int, q: int)
    requires 0 < bsz
  {
    exists i :: 0 <= i < HashNum && q == Probe(bsz, i, x)
  }

  // ---------------------------------------------------------------------
  // The MSB-first bit layout.

  /** The mask of bit b (0 = most significant) within a byte. */
  function Mask(b: int): bv8
    requires 0 <= b < 8
  {
    (1 as bv8) << (7 - b)
  }

  /** Bit p of the buffer is set; positions outside the buffer read as clear. */
  predicate TestBit(buf: seq<bv8>, p: int)
  {
    0 <= p < 8 * |buf| && buf[p / 8] & Mask(p % 8) != 0
  }

  lemma MaskOr(x: bv8, a: int, b: int)
    requires 0 <= a < 8 && 0 <= b < 8
    ensures (x | Mask(a)) & Mask(b) != 0 <==> a == b || x & Mask(b) != 0
  {
  }

  /** Setting bit p: byte p / 8 is ORed with p's mask. Bit p is then set and
      every other bit is as it was. */
  function SetBit(buf: seq<bv8>, p: int): (r: seq<bv8>)
    requires 0 <= p < 8 * |buf|
    ensures |r| == |buf|
    ensures r[p / 8] & Mask(p % 8) != 0
    ensures forall j :: 0 <= j < |buf| && j != p / 8 ==> r[j] == buf[j]
    ensures forall q :: TestBit(r, q) <==> q == p || TestBit(buf, q)
  {
    var r := buf[p / 8 := buf[p / 8] | Mask(p % 8)];
    MaskOr(buf[p / 8], p % 8, p % 8);
    SetBitTests(buf, p, r);
    r
  }

  /** Bit by bit, ORing p's mask into byte p / 8 adds bit p and nothing else. */
  lemma SetBitTests(buf: seq<bv8>, p: int, r: seq<bv8>)
    requires 0 <= p < 8 * |buf|
    requires r == buf[p / 8 := buf[p / 8] | Mask(p % 8)]
    ensures forall q :: TestBit(r, q) <==> q == p || TestBit(buf, q)
  {
    forall q
      ensures TestBit(r, q) <==> q == p || TestBit(buf, q)
    {
      if 0 <= q < 8 * |buf| && q / 8 == p / 8 {
        MaskOr(buf[p / 8], p % 8, q % 8);
        assert q % 8 == p % 8 <==> q == p;
      }
    }
  }

  // ---------------------------------------------------------------------
  // The filter.

  /** `bloom_filter`: the bit count and the packed buffer. */
  datatype Filter = Filter(bsz: int, buf: seq<bv8>)

  /** A usable filter: a positive bit count and a buffer of ceil(bsz / 8) bytes. */
  predicate Valid(f: Filter)
  {
    0 < f.bsz && 8 * |f.buf| - 8 < f.bsz <= 8 * |f.buf|
  }

  /** Membership as the filter reports it: every probe bit of x is set. */
  predicate Contains(f: Filter, x: int)
  {
    0 < f.bsz && forall i :: 0 <= i < HashNum ==> TestBit(f.buf, Probe(f.bsz, i, x))
  }

  /** `bloom_init`: records bsz and provides ceil(bsz / 8) zero bytes, so no
      bit is set and no element is reported present. */
  function BloomInit(bsz: int): (f: Filter)
    requires 0 <= bsz
    ensures f.bsz == bsz
    ensures 8 * |f.buf| - 8 < bsz <= 8 * |f.buf|
    ensures 0 < bsz ==> Valid(f)
    ensures forall j :: 0 <= j < |f.buf| ==> f.buf[j] == 0
    ensures forall q :: !TestBit(f.buf, q)
    ensures forall x :: !Contains(f, x)
  {
    var bytes := if bsz % 8 == 0 then bsz / 8 else (bsz - bsz % 8) / 8 + 1;
    var f := Filter(bsz, seq(bytes, _ => 0));
    assert forall q :: !TestBit(f.buf, q) by {
      forall q | 0 <= q < 8 * |f.buf|
        ensures !TestBit(f.buf, q)
      {
        assert f.buf[q / 8] == 0;
      }
    }
    assert forall x :: !Contains(f, x) by {
      forall x | 0 < bsz
        ensures !Contains(f, x)
      {
        assert !TestBit(f.buf, Probe(bsz, 0, x));
      }
    }
    f
  }

  /** The loop of `bloom_add` from probe i on: set each remaining probe bit. */
  function AddProbes(f: Filter, x: int, i: int): (g: Filter)
    requires Valid(f)
    requires 0 <= x
    requires 0 <= i <= HashNum
    ensures g.bsz == f.bsz && |g.buf| == |f.buf|
    ensures forall q :: TestBit(g.buf, q) <==>
      TestBit(f.buf, q) || exists j :: i <= j < HashNum && q == Probe(f.bsz, j, x)
    decreases HashNum - i
  {
    if i == HashNum then f
    else
      var p := Probe(f.bsz, i, x);
      var f' := Filter(f.bsz, SetBit(f.buf, p));
      var g := AddProbes(f', x, i + 1);
      assert forall q :: TestBit(g.buf, q) <==>
        TestBit(f.buf, q) || exists j :: i <= j < HashNum && q == Probe(f.bsz, j, x) by {
        forall q
          ensures TestBit(g.buf, q) <==>
            TestBit(f.buf, q) || exists j :: i <= j < HashNum && q == Probe(f.bsz, j, x)
        {
          if q == p {
            assert exists j :: i <= j < HashNum && q == Probe(f.bsz, j, x);
          }
          if exists j :: i <= j < HashNum && q == Probe(f.bsz, j, x) {
            var j :| i <= j < HashNum && q == Probe(f.bsz, j, x);
            if j != i {
              assert exists j' :: i + 1 <= j' < HashNum && q == Probe(f.bsz, j', x);
            }
          }
        }
      }
      g
  }

  /** `bloom_add`: sets the ten probe bits of x. The bit count and buffer size
      are unchanged, a bit is set afterwards exactly when it was set before or
      is a probe position of x, and x is reported present. */
  function BloomAdd(f: Filter, x: int): (g: Filter)
    requires Valid(f)
    requires 0 <= x
    ensures g.bsz == f.bsz && |g.buf| == |f.buf| && Valid(g)
    ensures forall q :: TestBit(g.buf, q) <==> TestBit(f.buf, q) || IsProbe(f.bsz, x, q)
    ensures Contains(g, x)
  {
    var g := AddProbes(f, x, 0);
    assert forall i :: 0 <= i < HashNum ==> TestBit(g.buf, Probe(f.bsz, i, x));
    g
  }

  /** The loop of `bloom_query` from probe i on: stop with 0 at the first clear
      probe bit, report 1 when every remaining probe bit is set. */
  function QueryProbes(f: Filter, x: int, i: int): (r: bool)
    requires 0 < f.bsz
    requires 0 <= i <= HashNum
    ensures r <==> forall j :: i <= j < HashNum ==> TestBit(f.buf, Probe(f.bsz, j, x))
    decreases HashNum - i
  {
    if i == HashNum then true
    else if !TestBit(f.buf, Probe(f.bsz, i, x)) then false
    else QueryProbes(f, x, i + 1)
  }

  /** `bloom_query`: true exactly when all ten probe bits of x are set. The
      filter is a value here, so the query leaves it as it was. */
  function BloomQuery(f: Filter, x: int): (r: bool)
    requires Valid(f)
    requires 0 <= x
    ensures r <==> forall i :: 0 <= i < HashNum ==> TestBit(f.buf, Probe(f.bsz, i, x))
  {
    QueryProbes(f, x, 0)
  }

  /** A freshly initialised filter answers every query with 0. */
  lemma FreshFilterRejects(bsz: int, x: int)
    requires 0 < bsz
    requires 0 <= x
    ensures !BloomQuery(BloomInit(bsz), x)
  {
  }

  /** Adding never removes: whatever the filter reported present before an add
      it still reports present after it. */
  lemma AddKeepsMembers(f: Filter, x: int, y: int)
    requires Valid(f)
    requires 0 <= x
    requires Contains(f, y)
    ensures Contains(BloomAdd(f, x), y)
  {
  }

  /** The filter after adding each element of xs in turn. */
  function AddAll(f: Filter, xs: seq<int>): (g: Filter)
    requires Valid(f)
    requires forall j :: 0 <= j < |xs| ==> 0 <= xs[j]
    ensures Valid(g) && g.bsz == f.bsz
    decreases |xs|
  {
    if |xs| == 0 then f else AddAll(BloomAdd(f, xs[0]), xs[1..])
  }

  /** No false negatives: an element added at any point is reported present
      after any number of further adds. */
  lemma {:induction false} NoFalseNegatives(f: Filter, xs: seq<int>, y: int)
    requires Valid(f)
    requires forall j :: 0 <= j < |xs| ==> 0 <= xs[j]
    requires 0 <= y
    requires y in xs || Contains(f, y)
    ensures BloomQuery(AddAll(f, xs), y)
    decreases |xs|
  {
    if |xs| > 0 {
      var f' := BloomAdd(f, xs[0]);
      if Contains(f, y) {
        AddKeepsMembers(f, xs[0], y);
      }
      assert y in xs[1..] || Contains(f', y);
      NoFalseNegatives(f', xs[1..], y);
    }
  }
}
