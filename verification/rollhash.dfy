/** The polynomial rolling hash of the Rabin-Karp matchers.

    The hash of a window w is the base-256 number whose digits are w's bytes,
    most significant first, reduced into [0, M]. The source computes it two
    ways: from scratch for the pattern, every query chunk and the first target
    window, and by an O(1) roll from one target window to the next. Both end
    by adding a byte with `madd`; with that byte at least 1, both land in
    [1, M], where congruence is equality, so the hashes of equal windows are
    equal integers and can be compared with `==` as the source does. */
module RollingHash {
  import opened ModArith
  import opened Documents

  /** Σ w[j] * 256^(|w|-1-j): the unreduced hash of w. */
  function Poly(w: seq<int>): int
    decreases |w|
  {
    if |w| == 0 then 0 else w[0] * Pow256(|w| - 1) + Poly(w[1..])
  }

  /** The hash the source computes for a window whose last byte is not NUL. */
  function WindowHash(m: int, w: seq<int>): int
    requires m > 0
  {
    Canon(m, Poly(w))
  }

  /** Every value of s[off..off+k] is a byte the source can read as a
      non-negative `char`. */
  predicate ByteRange(s: seq<int>, off: int, k: int)
    requires 0 <= off && 0 <= k && off + k <= |s|
  {
    forall j :: off <= j < off + k ==> 0 <= s[j] <= 127
  }

  /** Appending a byte shifts every digit one base-256 place up. */
  lemma {:induction false} PolySnoc(w: seq<int>, x: int)
    ensures Poly(w + [x]) == Poly(w) * 256 + x
    decreases |w|
  {
    if |w| == 0 {
      assert [] + [x] == [x];
      assert Poly([x]) == x * Pow256(0) + Poly([]);
    } else {
      var t := w[1..];
      assert (w + [x])[1..] == t + [x];
      PolySnoc(t, x);
      calc {
        Poly(w + [x]);
        w[0] * Pow256(|w|) + Poly(t + [x]);
        w[0] * (256 * Pow256(|w| - 1)) + Poly(t) * 256 + x;
        { assert w[0] * (256 * Pow256(|w| - 1)) == (w[0] * Pow256(|w| - 1)) * 256; }
        (w[0] * Pow256(|w| - 1) + Poly(t)) * 256 + x;
      }
    }
  }

  /** The leading byte of s[lo..hi] carries weight 256^(hi-lo-1). */
  lemma PolyLeading(s: seq<int>, lo: int, hi: int)
    requires 0 <= lo < hi <= |s|
    ensures Poly(s[lo..hi]) == s[lo] * Pow256(hi - lo - 1) + Poly(s[lo + 1..hi])
  {
    assert s[lo..hi][1..] == s[lo + 1..hi];
  }

  /** `mmul(power_calc(e), b)` is a residue of the weighted byte b * 256^e. */
  lemma WeightedByte(m: int, p: int, e: nat, b: int)
    requires ValidModulus(m)
    requires 0 <= b <= 127
    requires 0 <= p < m && p == Pow256(e) % m
    ensures InLongLong(p * b)
    ensures 0 <= MMul(m, p, b) < m
    ensures Cong(MMul(m, p, b), b * Pow256(e), m)
  {
    ByteProductFits(m, p, b);
    SmallMod(p, m);
    CongMul(p, Pow256(e), b, m);
    assert p * b == b * p && Pow256(e) * b == b * Pow256(e);
  }

  /** One step of the from-scratch loop: adding the weighted byte at position i
      moves it from the unread suffix into the accumulated hash. */
  lemma HashStep(m: int, h: int, p: int, s: seq<int>, off: int, k: int, i: int)
    requires ValidModulus(m)
    requires 0 <= off && 0 <= i < k && off + k <= |s|
    requires 0 <= h <= m
    requires 0 <= s[off + i] <= 127
    requires 0 <= p < m && p == Pow256(k - i - 1) % m
    requires Cong(h + Poly(s[off + i..off + k]), Poly(s[off..off + k]), m)
    ensures InLongLong(p * s[off + i])
    ensures 0 <= MMul(m, p, s[off + i]) < m
    ensures Cong(MAdd(m, MMul(m, p, s[off + i]), h) + Poly(s[off + i + 1..off + k]), Poly(s[off..off + k]), m)
  {
    var b := s[off + i];
    var bw := b * Pow256(k - i - 1);
    WeightedByte(m, p, k - i - 1, b);
    var x := MMul(m, p, b);
    var R := Poly(s[off + i + 1..off + k]);
    PolyLeading(s, off + i, off + k);
    CongAdd(MAdd(m, x, h), x + h, R, R, m);
    CongAdd(x, bw, h + R, h + R, m);
  }

  /** The from-scratch hash of s[off..off+k] (rkmatch.c lines 223-229, 304-306
      and 314-316): for each position, `madd(mmul(power_calc(k-i-1), byte), h)`. */
  method PolyHash(m: int, s: seq<int>, off: int, k: int) returns (h: int)
    requires ValidModulus(m)
    requires 1 <= k && 0 <= off && off + k <= |s|
    requires ByteRange(s, off, k)
    ensures 0 <= h <= m
    ensures Cong(h, Poly(Window(s, off, k)), m)
    ensures 1 <= s[off + k - 1] ==> h == WindowHash(m, Window(s, off, k))
  {
    h := 0;
    var i := 0;
    while i < k
      invariant 0 <= i <= k
      invariant 0 <= h <= m
      invariant Cong(h + Poly(s[off + i..off + k]), Poly(s[off..off + k]), m)
      invariant i == k ==> (1 <= s[off + k - 1] ==> 1 <= h)
    {
      var p := PowerCalc(m, k - i - 1);
      HashStep(m, h, p, s, off, k, i);
      h := MAdd(m, MMul(m, p, s[off + i]), h);
      i := i + 1;
    }
    assert s[off + k..off + k] == [];
    if 1 <= s[off + k - 1] {
      CanonUnique(m, h, Poly(s[off..off + k]));
    }
  }

  /** The O(1) roll (rkmatch.c lines 250-251 and 331-332): drop the leading
      byte's weighted contribution, shift one base-256 place, add the new byte. */
  function Roll(m: int, h: int, expConst: int, outgoing: int, incoming: int): (r: int)
    requires ValidModulus(m)
    requires 0 <= h <= m
    requires 0 <= expConst < m
    requires 0 <= outgoing <= 127 && 0 <= incoming <= 127
    ensures 0 <= r <= m
    ensures 1 <= incoming ==> 1 <= r
  {
    ByteProductFits(m, expConst, outgoing);
    var t := MDel(m, h, MMul(m, expConst, outgoing));
    ByteProductFits(m, t, 256);
    MAdd(m, MMul(m, 256, t), incoming)
  }

  /** The first half of a roll: removing the leading byte's weighted
      contribution from a hash of w leaves a hash of w[1..]. */
  lemma DropLeading(m: int, h: int, expConst: int, w: seq<int>)
    requires ValidModulus(m)
    requires |w| >= 1 && 0 <= w[0] <= 127
    requires 0 <= h <= m && Cong(h, Poly(w), m)
    requires expConst == Pow256(|w| - 1) % m
    ensures 0 <= expConst * w[0] && InLongLong(expConst * w[0])
    ensures Cong(MDel(m, h, MMul(m, expConst, w[0])), Poly(w[1..]), m)
  {
    var P := Pow256(|w| - 1);
    var outgoing := w[0];
    ByteProductFits(m, expConst, outgoing);
    var y := MMul(m, expConst, outgoing);
    SmallMod(expConst, m);
    CongMul(expConst, P, outgoing, m);
    CongNeg(y, outgoing * P, m);
    CongAdd(h, Poly(w), -y, -(outgoing * P), m);
    assert Poly(w) - outgoing * P == Poly(w[1..]);
  }

  /** The second half of a roll: shifting a hash of v one base-256 place and
      adding the incoming byte gives a hash of v followed by that byte. */
  lemma ShiftIn(m: int, t: int, v: seq<int>, incoming: int)
    requires ValidModulus(m)
    requires 0 <= t <= m && Cong(t, Poly(v), m)
    requires 0 <= incoming <= 127
    ensures 0 <= 256 * t && InLongLong(256 * t)
    ensures Cong(MAdd(m, MMul(m, 256, t), incoming), Poly(v + [incoming]), m)
  {
    ByteProductFits(m, t, 256);
    var u := MMul(m, 256, t);
    CongMul(t, Poly(v), 256, m);
    CongAdd(u, Poly(v) * 256, incoming, incoming, m);
    PolySnoc(v, incoming);
  }

  /** Rolling a hash of window w by its leading byte gives a hash of the next
      window, w[1..] followed by the incoming byte. */
  lemma RollCorrect(m: int, h: int, expConst: int, w: seq<int>, incoming: int)
    requires ValidModulus(m)
    requires |w| >= 1
    requires forall j :: 0 <= j < |w| ==> 0 <= w[j] <= 127
    requires 0 <= incoming <= 127
    requires 0 <= h <= m && Cong(h, Poly(w), m)
    requires expConst == Pow256(|w| - 1) % m
    ensures Cong(Roll(m, h, expConst, w[0], incoming), Poly(w[1..] + [incoming]), m)
  {
    DropLeading(m, h, expConst, w);
    var t := MDel(m, h, MMul(m, expConst, w[0]));
    ShiftIn(m, t, w[1..], incoming);
    assert Roll(m, h, expConst, w[0], incoming) == MAdd(m, MMul(m, 256, t), incoming);
  }

  /** The key obligation of the single-pattern matcher: a rolled hash of a
      window whose last byte is not NUL is the very integer the from-scratch
      computation gives for that window. */
  lemma RollCanonical(m: int, h: int, expConst: int, w: seq<int>, incoming: int)
    requires ValidModulus(m)
    requires |w| >= 1
    requires forall j :: 0 <= j < |w| ==> 0 <= w[j] <= 127
    requires 1 <= incoming <= 127
    requires 0 <= h <= m && Cong(h, Poly(w), m)
    requires expConst == Pow256(|w| - 1) % m
    ensures Roll(m, h, expConst, w[0], incoming) == WindowHash(m, w[1..] + [incoming])
  {
    RollCorrect(m, h, expConst, w, incoming);
    CanonUnique(m, Roll(m, h, expConst, w[0], incoming), Poly(w[1..] + [incoming]));
  }
  /** One step of a scan along a terminated document (rkmatch.c lines 250-251
      and 331-332): rolling the hash of the window at i gives a hash of the
      window at i + 1 and, while that window lies inside the text, exactly its
      from-scratch hash. The last roll of a scan reads the terminator and
      leaves a value that is never compared. */
  method RollWindow(m: int, h: int, expConst: int, ts: seq<int>, n: int, i: int, k: int) returns (r: int)
    requires ValidModulus(m)
    requires Terminated(ts, n)
    requires 1 <= k && 0 <= i && i + k <= n
    requires 0 <= h <= m && Cong(h, Poly(Window(ts, i, k)), m)
    requires expConst == Pow256(k - 1) % m
    ensures 0 <= r <= m
    ensures Cong(r, Poly(Window(ts, i + 1, k)), m)
    ensures i + 1 + k <= n ==> r == WindowHash(m, Window(ts, i + 1, k))
  {
    var win := ts[i..i + k];
    RollCorrect(m, h, expConst, win, ts[i + k]);
    assert win[1..] + [ts[i + k]] == ts[i + 1..i + 1 + k];
    r := Roll(m, h, expConst, ts[i], ts[i + k]);
    if i + 1 + k <= n {
      CanonUnique(m, r, Poly(ts[i + 1..i + 1 + k]));
    }
  }
}
