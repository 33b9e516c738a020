/** The driver of rkmatch.c: cut the query document into k-byte chunks, count
    how many occur in the target with the chosen algorithm, and report the
    count against the number of chunks. */
module Driver {
  import opened ModArith
  import opened Documents
  import opened Bloom
  import opened Matchers

  /** The `-t` choice: `SIMPLE`, `RK` or `RKBATCH`. */
  datatype Algo = Simple | RK | RKBatch

  /** The filter size the driver passes to the batch matcher,
      `((m*10/k) >> 3) << 3`: about ten bits per chunk, rounded down to a
      whole number of bytes. */
  function BatchFilterSize(m: int, k: int): (bsz: int)
    requires 0 <= m && 1 <= k
    ensures 0 <= bsz && bsz % 8 == 0
    ensures bsz <= m * 10 / k < bsz + 8
  {
    ((m * 10 / k) / 8) * 8
  }

  /** With at least one chunk the filter has at least one byte. */
  lemma BatchFilterSizePositive(m: int, k: int)
    requires 1 <= k <= m
    ensures 8 <= BatchFilterSize(m, k)
  {
    assert m * 10 >= k * 10;
    assert m * 10 / k >= 10 by {
      DivModUnique(k * 10, 10, 0, k);
      DivMonotone(k * 10, m * 10, k);
    }
  }

  /** Euclidean division by a positive k is monotone. */
  lemma DivMonotone(a: int, b: int, k: int)
    requires 1 <= k && 0 <= a <= b
    ensures a / k <= b / k
  {
    var t := a % k + (b - a);
    assert b == (a / k + t / k) * k + t % k by {
      assert t == (t / k) * k + t % k;
      assert a == (a / k) * k + a % k;
    }
    DivModUnique(b, a / k + t / k, t % k, k);
  }

  /** A query shorter than 8 / 10 of a chunk gets a filter of no bits. */
  lemma ShortQueryZeroFilter(m: int, k: int)
    requires 1 <= k && 0 <= m && m * 10 < 8 * k
    ensures BatchFilterSize(m, k) == 0
  {
    DivModUnique(8 * k - 1, 7, k - 1, k);
    DivMonotone(m * 10, 8 * k - 1, k);
  }

  /** The zero-size filter in a concrete run: a 7-byte query, k = 10 and a
      10-byte target. The driver passes bsz = 0, yet the target has a window,
      so `bloom_query` reduces a probe hash modulo 0: the size the batch
      matcher needs is not met. */
  lemma ZeroFilterReachesQuery()
    ensures BatchFilterSize(7, 10) == 0
    ensures !FilterSizeOk(BatchFilterSize(7, 10), 10, 7, 10)
  {
    ShortQueryZeroFilter(7, 10);
  }

  /** Once the query holds a chunk, the driver's filter size is one the batch
      matcher can use, whatever the target's length. */
  lemma BatchFilterSizeOk(m: int, k: int, n: int)
    requires 1 <= k <= m
    ensures FilterSizeOk(BatchFilterSize(m, k), k, m, n)
  {
    BatchFilterSizePositive(m, k);
  }

  /** The offset count of the batch matcher as written is not a chunk count:
      a one-byte query "a" with k = 1 against "aaaa" has one chunk, which
      occurs, but four matching offsets, so the reported ratio is 4.00. */
  lemma OffsetCountExceedsChunks()
    ensures CountMatchedChunks([97, 0], 1, 1, [97, 97, 97, 97, 0], 4) == 1
    ensures CountMatchedOffsets([97, 0], 1, 1, [97, 97, 97, 97, 0], 4) == 4
    ensures CountMatchedOffsets([97, 0], 1, 1, [97, 97, 97, 97, 0], 4) > 1 / 1
  {
    var qs, ts := [97, 0], [97, 97, 97, 97, 0];
    assert ChunkMatchesWindow(qs, 1, 0, ts, 0);
    assert ChunkOccurs(qs, 1, 0, ts, 4);
    forall w | 0 <= w < 4
      ensures AnyChunkMatches(qs, 1, 1, ts, w)
    {
      assert Window(qs, 0, 1) == [97] == Window(ts, w, 1);
      assert ChunkMatchesWindow(qs, 1, 0, ts, w);
    }
  }

  /** A target shorter than a chunk contains none of the chunks. */
  lemma {:induction false} ShortTargetNoMatches(qs: seq<int>, k: int, upto: int, ts: seq<int>, n: int)
    requires n < k
    ensures CountMatchedChunks(qs, k, upto, ts, n) == 0
    decreases upto
  {
    if upto > 0 {
      ShortTargetNoMatches(qs, k, upto - 1, ts, n);
      assert !ChunkOccurs(qs, k, upto - 1, ts, n);
    }
  }

  /** The over-read in a concrete run: a 3-byte query, k = 3 and the 1-byte
      target "a". The driver's loop admits the chunk at 0 (0 + 3 <= 3) and
      calls `rabin_karp_match` (or `rabin_karp_batchmatch`), whose first-hash
      loop reads `ts[0..3)` from a target of 2 values, past its terminator.
      No chunk can occur in so short a target, so the intended count is 0. */
  lemma ShortTargetOverRead()
    ensures Terminated([97, 97, 97, 0], 3) && Terminated([97, 0], 1)
    ensures !FirstWindowInside([97, 0], 3)
    ensures CountMatchedChunks([97, 97, 97, 0], 3, 3 / 3, [97, 0], 1) == 0
  {
    ShortTargetNoMatches([97, 97, 97, 0], 3, 3 / 3, [97, 0], 1);
  }

  /** The chunk at i in the driver's loop is the pattern `qdoc + i` of
      length k, and it occurs in the target in the sense of the
      single-pattern matchers exactly when it occurs as a chunk. */
  lemma ChunkOccursIsOccurs(qs: seq<int>, k: int, m: int, c: int, ts: seq<int>, n: int)
    requires 1 <= k
    requires Terminated(qs, m) && Terminated(ts, n)
    requires 0 <= c && c * k + k <= m
    ensures ChunkOccurs(qs, k, c, ts, n) <==> Occurs(qs[c * k..][..k], ts, n)
  {
    var pat := qs[c * k..][..k];
    assert pat == Window(qs, c * k, k);
    if Occurs(pat, ts, n) {
      var w :| 0 <= w && w + |pat| <= n && Window(ts, w, |pat|) == pat;
      assert ChunkMatchesWindow(qs, k, c, ts, w);
    }
  }

  /** One chunk of the SIMPLE and RK loops (rkmatch.c lines 400-402 and
      409-411): run the single-pattern matcher on `qdoc + i`. Corrected for
      a target shorter than a chunk: it holds no window, so the chunk is not
      found and `rabin_karp_match` is not run past the target's end. */
  method MatchChunk(algo: Algo, modulus: int, k: int, qs: seq<int>, m: int, ts: seq<int>, n: int, i: int, ghost c: int)
    returns (found: bool)
    requires ValidModulus(modulus)
    requires 1 <= k
    requires Terminated(qs, m) && Terminated(ts, n)
    requires 0 <= c && i == c * k && i + k <= m
    ensures found <==> ChunkOccurs(qs, k, c, ts, n)
  {
    ChunkOccursIsOccurs(qs, k, m, c, ts, n);
    if algo == Simple {
      found := SimpleMatch(qs[i..], k, ts, n);
    } else if n < k {
      found := false;
    } else {
      found := RabinKarpMatch(modulus, qs[i..], k, ts, n);
    }
  }

  /** The SIMPLE and RK cases of the driver (rkmatch.c lines 398-413): one
      single-pattern search per chunk, stepping i by k while a whole chunk
      remains. The count is the number of the m / k chunks that occur. */
  method MatchEachChunk(algo: Algo, modulus: int, k: int, qs: seq<int>, m: int, ts: seq<int>, n: int)
    returns (numMatched: int)
    requires ValidModulus(modulus)
    requires 1 <= k
    requires Terminated(qs, m) && Terminated(ts, n)
    ensures numMatched == CountMatchedChunks(qs, k, m / k, ts, n)
  {
    numMatched := 0;
    var i := 0;
    ghost var c := 0;
    while i + k <= m
      invariant 0 <= c && i == c * k && i <= m
      invariant numMatched == CountMatchedChunks(qs, k, c, ts, n)
      decreases m - i
    {
      var found := MatchChunk(algo, modulus, k, qs, m, ts, n, i, c);
      if found {
        numMatched := numMatched + 1;
      }
      assert (c + 1) * k == c * k + k;
      i, c := i + k, c + 1;
    }
    LastChunk(m, k, c);
  }

  /** The loop stops after chunk c - 1 exactly when c == m / k. */
  lemma LastChunk(m: int, k: int, c: int)
    requires 1 <= k && 0 <= c * k <= m < c * k + k
    ensures c == m / k
  {
    DivModUnique(m, c, m - c * k, k);
  }

  /** The RKBATCH case of the driver (rkmatch.c line 416), corrected: a
      query with no chunk, or a target shorter than a chunk, matches nothing
      and builds no filter; otherwise the chunk-counting batch matcher runs
      with the driver's filter size. */
  method MatchBatch(modulus: int, k: int, qs: seq<int>, m: int, ts: seq<int>, n: int) returns (numMatched: int)
    requires ValidModulus(modulus)
    requires 1 <= k
    requires Terminated(qs, m) && Terminated(ts, n)
    ensures numMatched == CountMatchedChunks(qs, k, m / k, ts, n)
  {
    if m < k {
      DivModUnique(m, 0, m, k);
      numMatched := 0;
    } else if n < k {
      ShortTargetNoMatches(qs, k, m / k, ts, n);
      numMatched := 0;
    } else {
      BatchFilterSizeOk(m, k, n);
      numMatched := RabinKarpBatchMatchChunks(modulus, BatchFilterSize(m, k), k, qs, m, ts, n);
    }
  }

  /** The driver (rkmatch.c lines 395-423): the number of chunks found and
      the number of chunks, m / k. Every algorithm reports the same count:
      how many of the m / k chunks occur in the target. */
  method MatchDocuments(algo: Algo, modulus: int, k: int, qs: seq<int>, m: int, ts: seq<int>, n: int)
    returns (numMatched: int, toBeMatched: int)
    requires ValidModulus(modulus)
    requires 1 <= k
    requires Terminated(qs, m) && Terminated(ts, n)
    ensures toBeMatched == m / k
    ensures numMatched == CountMatchedChunks(qs, k, m / k, ts, n)
    ensures 0 <= numMatched <= toBeMatched
  {
    if algo == RKBatch {
      numMatched := MatchBatch(modulus, k, qs, m, ts, n);
    } else {
      numMatched := MatchEachChunk(algo, modulus, k, qs, m, ts, n);
    }
    toBeMatched := m / k;
  }
}
