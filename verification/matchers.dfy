/** The three matchers of rkmatch.c.

    `simple_match` and `rabin_karp_match` answer whether one k-byte pattern
    occurs in the target document. `rabin_karp_batchmatch` takes the whole
    query document, cut into m / k chunks, and counts target offsets whose
    window equals some chunk. `RabinKarpBatchMatchChunks` is the batch matcher
    counting matched chunks instead, the figure its documentation and the
    driver's ratio expect. */
module Matchers {
  import opened ModArith
  import opened Documents
  import opened RollingHash
  import opened Bloom

  // ---------------------------------------------------------------------
  // Chunks of the query document.

  /** Chunk c of the query (the k bytes at offset c*k) equals the target
      window at offset w. */
  predicate ChunkMatchesWindow(qs: seq<int>, k: int, c: int, ts: seq<int>, w: int)
  {
    && 1 <= k && 0 <= c && 0 <= w
    && 0 <= c * k && c * k + k <= |qs| && w + k <= |ts|
    && Window(qs, c * k, k) == Window(ts, w, k)
  }

  /** Some chunk among the first `chunks` equals the target window at w. */
  ghost predicate AnyChunkMatches(qs: seq<int>, k: int, chunks: int, ts: seq<int>, w: int)
  {
    exists c :: 0 <= c < chunks && ChunkMatchesWindow(qs, k, c, ts, w)
  }

  /** Chunk c occurs somewhere in the target document of length n. */
  ghost predicate ChunkOccurs(qs: seq<int>, k: int, c: int, ts: seq<int>, n: int)
  {
    exists w :: 0 <= w && w + k <= n && ChunkMatchesWindow(qs, k, c, ts, w)
  }

  /** The number of target offsets below `upto` whose window equals at least
      one of the first `chunks` chunks: each offset counts once. */
  ghost function CountMatchedOffsets(qs: seq<int>, k: int, chunks: int, ts: seq<int>, upto: int): (r: int)
    ensures 0 <= r <= upto || (upto <= 0 && r == 0)
    decreases upto
  {
    if upto <= 0 then 0
    else
      var hit := if AnyChunkMatches(qs, k, chunks, ts, upto - 1) then 1 else 0;
      CountMatchedOffsets(qs, k, chunks, ts, upto - 1) + hit
  }

  /** The number of chunks among the first `upto` that occur in the target. */
  ghost function CountMatchedChunks(qs: seq<int>, k: int, upto: int, ts: seq<int>, n: int): (r: int)
    ensures 0 <= r <= upto || (upto <= 0 && r == 0)
    decreases upto
  {
    if upto <= 0 then 0
    else
      var hit := if ChunkOccurs(qs, k, upto - 1, ts, n) then 1 else 0;
      CountMatchedChunks(qs, k, upto - 1, ts, n) + hit
  }

  /** Every one of the m / k chunks lies inside the first m bytes; the
      trailing m % k bytes belong to no chunk. */
  lemma ChunkInside(k: int, m: int, c: int)
    requires 1 <= k && 0 <= m
    requires 0 <= c < m / k
    ensures 0 <= c * k
    ensures c * k + k <= m
  {
    assert c + 1 <= m / k;
    assert (c + 1) * k <= (m / k) * k by {
      var d := m / k - (c + 1);
      assert d * k >= 0;
      assert (m / k) * k == (c + 1) * k + d * k;
    }
    assert (m / k) * k <= m;
  }

  /** The filter holds the hash of chunk c. */
  predicate ChunkInFilter(f: Filter, modulus: int, qs: seq<int>, k: int, c: int)
    requires 0 < modulus
  {
    0 <= k && 0 <= c * k && c * k + k <= |qs| && Contains(f, WindowHash(modulus, Window(qs, c * k, k)))
  }

  /** What the batch matchers demand of the filter size: `hash_i(..) % bsz`
      divides by it whenever a chunk is added (m >= k) or a window queried
      (n >= k). */
  predicate FilterSizeOk(bsz: int, k: int, m: int, n: int)
  {
    0 <= bsz && (0 < bsz || (m < k && n < k))
  }

  // ---------------------------------------------------------------------
  // simple_match

  /** `simple_match`: scans the offsets 0..n-k and reports whether some
      window equals the pattern; no offset exists when n < k. */
  method SimpleMatch(ps: seq<int>, k: int, ts: seq<int>, n: int) returns (found: bool)
    requires 1 <= k <= |ps|
    requires Terminated(ts, n)
    ensures found <==> Occurs(ps[..k], ts, n)
    ensures n < k ==> !found
  {
    var i := 0;
    while i < n - k + 1
      invariant 0 <= i
      invariant i <= n - k + 1 || i == 0
      invariant forall w :: 0 <= w < i ==> Window(ts, w, k) != ps[..k]
    {
      StrnEqIsWindowEq(ts, i, ps, 0, k);
      if StrnEq(ts, i, ps, 0, k) {
        assert Window(ts, i, k) == ps[..k];
        return true;
      }
      i := i + 1;
    }
    return false;
  }

  // ---------------------------------------------------------------------
  // rabin_karp_match

  /** The hash-hit test of `rabin_karp_match` (rkmatch.c lines 232-241 and
      254-265): the window at w is reported when its hash equals the
      pattern's and `strncmp` confirms it. Given the hashes the source
      computes, that happens exactly when the window equals the pattern; the
      window that reaches the terminator never does. */
  method CheckWindow(modulus: int, ps: seq<int>, k: int, ts: seq<int>, n: int, w: int, docHash: int, queryHash: int)
    returns (hit: bool)
    requires ValidModulus(modulus)
    requires 1 <= k
    requires PatternBytes(ps, k)
    requires Terminated(ts, n)
    requires 0 <= w && w + k <= n + 1
    requires w + k <= n ==> docHash == WindowHash(modulus, Window(ts, w, k))
    requires queryHash == WindowHash(modulus, ps[..k])
    ensures hit <==> Window(ts, w, k) == ps[..k]
  {
    assert ps[0..k] == ps[..k];
    StrnEqIsWindowEq(ts, w, ps, 0, k);
    hit := docHash == queryHash && StrnEq(ts, w, ps, 0, k);
    if w + k == n + 1 {
      assert Window(ts, w, k)[k - 1] == 0;
    }
  }

  /** `rabin_karp_match`: hashes the pattern and the first window, then rolls
      the window hash along the target, confirming each hash hit with
      `strncmp`. It answers exactly as `simple_match` does: true only after a
      confirmed window (soundness) and for every window equal to the pattern
      (completeness). */
  method RabinKarpMatch(modulus: int, ps: seq<int>, k: int, ts: seq<int>, n: int) returns (found: bool)
    requires ValidModulus(modulus)
    requires 1 <= k
    requires PatternBytes(ps, k)
    requires Terminated(ts, n)
    requires FirstWindowInside(ts, k)
    ensures found <==> Occurs(ps[..k], ts, n)
  {
    var expConst := PowerCalc(modulus, k - 1);
    var queryHash := PolyHash(modulus, ps, 0, k);
    var docHash := PolyHash(modulus, ts, 0, k);
    assert ps[0..k] == ps[..k];
    var hit := CheckWindow(modulus, ps, k, ts, n, 0, docHash, queryHash);
    if hit {
      return true;
    }
    var i := 0;
    while i < n - k + 1
      invariant 0 <= i <= n - k + 1
      invariant 0 <= docHash <= modulus
      invariant Cong(docHash, Poly(Window(ts, i, k)), modulus)
      invariant forall w :: 0 <= w <= i && w + k <= n ==> Window(ts, w, k) != ps[..k]
    {
      docHash := RollWindow(modulus, docHash, expConst, ts, n, i, k);
      hit := CheckWindow(modulus, ps, k, ts, n, i + 1, docHash, queryHash);
      if hit {
        return true;
      }
      i := i + 1;
    }
    return false;
  }

  // ---------------------------------------------------------------------
  // rabin_karp_batchmatch

  /** Adding the hash of chunk i keeps the hashes of chunks 0..i-1 in the
      filter and adds chunk i's. */
  lemma AddKeepsChunks(modulus: int, filter: Filter, h: int, qs: seq<int>, k: int, i: int)
    requires ValidModulus(modulus)
    requires Valid(filter)
    requires 1 <= k && 0 <= i
    requires 0 <= i * k && i * k + k <= |qs|
    requires h == WindowHash(modulus, Window(qs, i * k, k))
    requires forall c :: 0 <= c < i ==> ChunkInFilter(filter, modulus, qs, k, c)
    ensures forall c :: 0 <= c <= i ==> ChunkInFilter(BloomAdd(filter, h), modulus, qs, k, c)
  {
    var added := BloomAdd(filter, h);
    forall c | 0 <= c < i
      ensures ChunkInFilter(added, modulus, qs, k, c)
    {
      assert ChunkInFilter(filter, modulus, qs, k, c);
      AddKeepsMembers(filter, h, WindowHash(modulus, Window(qs, c * k, k)));
    }
    assert ChunkInFilter(added, modulus, qs, k, i);
  }

  /** The first phase of both batch matchers (rkmatch.c lines 298-308): a
      fresh filter of bsz bits holding the hash of every one of the m / k
      chunks. */
  method BuildFilter(modulus: int, bsz: int, k: int, qs: seq<int>, m: int) returns (filter: Filter)
    requires ValidModulus(modulus)
    requires 1 <= k
    requires Terminated(qs, m)
    requires 0 <= bsz && (m < k || 0 < bsz)
    ensures filter.bsz == bsz
    ensures 0 < bsz ==> Valid(filter)
    ensures forall c :: 0 <= c < m / k ==> ChunkInFilter(filter, modulus, qs, k, c)
  {
    filter := BloomInit(bsz);
    var chunks := m / k;
    var i := 0;
    while i < chunks
      invariant 0 <= i <= chunks
      invariant filter.bsz == bsz
      invariant 0 < bsz ==> Valid(filter)
      invariant forall c :: 0 <= c < i ==> ChunkInFilter(filter, modulus, qs, k, c)
    {
      ChunkInside(k, m, i);
      assert 0 < bsz && Valid(filter);
      var off := i * k;
      var h := PolyHash(modulus, qs, off, k);
      assert 1 <= qs[off + k - 1];
      var added := BloomAdd(filter, h);
      AddKeepsChunks(modulus, filter, h, qs, k, i);
      filter := added;
      i := i + 1;
    }
  }

  /** The filter test of the batch scan (rkmatch.c line 321): query the
      hash of the target window at w. A window the filter rejects equals no
      chunk, because the filter has no false negatives and equal windows hash
      to equal integers. */
  method FilterAdmits(modulus: int, filter: Filter, qs: seq<int>, k: int, m: int, ts: seq<int>, w: int, docHash: int)
    returns (admit: bool)
    requires ValidModulus(modulus)
    requires Valid(filter)
    requires 1 <= k
    requires 0 <= w && w + k <= |ts|
    requires docHash == WindowHash(modulus, Window(ts, w, k))
    requires forall c :: 0 <= c < m / k ==> ChunkInFilter(filter, modulus, qs, k, c)
    ensures admit == BloomQuery(filter, docHash)
    ensures !admit ==> !AnyChunkMatches(qs, k, m / k, ts, w)
  {
    admit := BloomQuery(filter, docHash);
    var chunks := m / k;
    if !admit {
      forall c | 0 <= c < chunks
        ensures !ChunkMatchesWindow(qs, k, c, ts, w)
      {
        assert ChunkInFilter(filter, modulus, qs, k, c);
      }
    }
  }

  /** The inner loop of the batch scan (rkmatch.c lines 322-328): compare the
      target window at w with each chunk in turn and stop at the first that
      `strncmp` confirms. It reports whether some chunk equals the window. */
  method AnyChunkAt(qs: seq<int>, k: int, m: int, ts: seq<int>, w: int) returns (hit: bool)
    requires 1 <= k
    requires Terminated(qs, m)
    requires 0 <= w && w + k <= |ts|
    ensures hit <==> AnyChunkMatches(qs, k, m / k, ts, w)
  {
    var chunks := m / k;
    var j := 0;
    while j < chunks
      invariant 0 <= j <= chunks
      invariant forall c :: 0 <= c < j ==> !ChunkMatchesWindow(qs, k, c, ts, w)
    {
      ChunkInside(k, m, j);
      var off := j * k;
      StrnEqIsWindowEq(qs, off, ts, w, k);
      if StrnEq(qs, off, ts, w, k) {
        assert ChunkMatchesWindow(qs, k, j, ts, w);
        return true;
      }
      j := j + 1;
    }
    return false;
  }

  /** The inner loop of the chunk-counting batch scan: mark every chunk that
      `strncmp` confirms equal to the target window at w, leaving the other
      marks as they were. */
  method MarkChunksAt(qs: seq<int>, k: int, m: int, ts: seq<int>, w: int, marked: seq<bool>)
    returns (marked': seq<bool>)
    requires 1 <= k
    requires Terminated(qs, m)
    requires 0 <= w && w + k <= |ts|
    requires |marked| == m / k
    ensures |marked'| == |marked|
    ensures forall c :: 0 <= c < |marked| ==>
      (marked'[c] <==> marked[c] || ChunkMatchesWindow(qs, k, c, ts, w))
  {
    marked' := marked;
    var chunks := m / k;
    var j := 0;
    while j < chunks
      invariant 0 <= j <= chunks
      invariant |marked'| == |marked|
      invariant forall c :: 0 <= c < j ==>
        (marked'[c] <==> marked[c] || ChunkMatchesWindow(qs, k, c, ts, w))
      invariant forall c :: j <= c < |marked| ==> marked'[c] == marked[c]
    {
      ChunkInside(k, m, j);
      var off := j * k;
      StrnEqIsWindowEq(qs, off, ts, w, k);
      if StrnEq(qs, off, ts, w, k) {
        marked' := marked'[j := true];
      }
      j := j + 1;
    }
  }

  /** One target offset of `rabin_karp_batchmatch` (rkmatch.c lines 321-329):
      the filter test, then the chunk scan on a pass. The offset is a hit
      exactly when its window equals some chunk; the filter only decides how
      much work finding that out takes. */
  method OffsetHit(modulus: int, filter: Filter, qs: seq<int>, k: int, m: int, ts: seq<int>, w: int, docHash: int)
    returns (hit: bool)
    requires ValidModulus(modulus)
    requires Valid(filter)
    requires 1 <= k
    requires Terminated(qs, m)
    requires 0 <= w && w + k <= |ts|
    requires docHash == WindowHash(modulus, Window(ts, w, k))
    requires forall c :: 0 <= c < m / k ==> ChunkInFilter(filter, modulus, qs, k, c)
    ensures hit <==> AnyChunkMatches(qs, k, m / k, ts, w)
  {
    var admit := FilterAdmits(modulus, filter, qs, k, m, ts, w, docHash);
    hit := false;
    if admit {
      hit := AnyChunkAt(qs, k, m, ts, w);
    }
  }

  /** The count update at one offset (rkmatch.c lines 321-329): the running
      count of matched offsets below w becomes that below w + 1. */
  method CountOffset(modulus: int, filter: Filter, qs: seq<int>, k: int, m: int, ts: seq<int>, w: int, docHash: int,
                     count: int)
    returns (count': int)
    requires ValidModulus(modulus)
    requires Valid(filter)
    requires 1 <= k
    requires Terminated(qs, m)
    requires 0 <= w && w + k <= |ts|
    requires docHash == WindowHash(modulus, Window(ts, w, k))
    requires forall c :: 0 <= c < m / k ==> ChunkInFilter(filter, modulus, qs, k, c)
    requires count == CountMatchedOffsets(qs, k, m / k, ts, w)
    ensures count' == CountMatchedOffsets(qs, k, m / k, ts, w + 1)
  {
    var hit := OffsetHit(modulus, filter, qs, k, m, ts, w, docHash);
    count' := if hit then count + 1 else count;
  }

  /** `rabin_karp_batchmatch` as written: returns the number of target
      offsets in [0, n-k] whose window equals at least one of the m / k
      chunks. An offset counts once however many chunks equal it (the inner
      loop breaks on the first), so the result never exceeds n - k + 1, but it
      can exceed the number of chunks. */
  method RabinKarpBatchMatch(modulus: int, bsz: int, k: int, qs: seq<int>, m: int, ts: seq<int>, n: int)
    returns (matchCount: int)
    requires ValidModulus(modulus)
    requires 1 <= k
    requires Terminated(qs, m) && Terminated(ts, n)
    requires FirstWindowInside(ts, k)
    requires FilterSizeOk(bsz, k, m, n)
    ensures matchCount == CountMatchedOffsets(qs, k, m / k, ts, n - k + 1)
    ensures 0 <= matchCount <= n - k + 1
  {
    var chunks := m / k;
    var expConst := PowerCalc(modulus, k - 1);
    var filter := BuildFilter(modulus, bsz, k, qs, m);
    var docHash := PolyHash(modulus, ts, 0, k);
    matchCount := 0;
    var i := 0;
    while i < n - k + 1
      invariant 0 <= i <= n - k + 1
      invariant 0 <= docHash <= modulus
      invariant Cong(docHash, Poly(Window(ts, i, k)), modulus)
      invariant i + k <= n ==> docHash == WindowHash(modulus, Window(ts, i, k))
      invariant matchCount == CountMatchedOffsets(qs, k, chunks, ts, i)
    {
      matchCount := CountOffset(modulus, filter, qs, k, m, ts, i, docHash, matchCount);
      docHash := RollWindow(modulus, docHash, expConst, ts, n, i, k);
      i := i + 1;
    }
  }

  /** One target offset of the chunk-counting scan: the filter test, then on
      a pass the marking of every chunk equal to the window. Afterwards a
      chunk is marked exactly when it equals the window at some offset up to
      and including w. */
  method MarkStep(modulus: int, filter: Filter, qs: seq<int>, k: int, m: int, ts: seq<int>, w: int, docHash: int,
                  marked: seq<bool>)
    returns (marked': seq<bool>)
    requires ValidModulus(modulus)
    requires Valid(filter)
    requires 1 <= k
    requires Terminated(qs, m)
    requires 0 <= w && w + k <= |ts|
    requires docHash == WindowHash(modulus, Window(ts, w, k))
    requires forall c :: 0 <= c < m / k ==> ChunkInFilter(filter, modulus, qs, k, c)
    requires |marked| == m / k
    requires forall c :: 0 <= c < |marked| ==>
      (marked[c] <==> exists v :: 0 <= v < w && ChunkMatchesWindow(qs, k, c, ts, v))
    ensures |marked'| == |marked|
    ensures forall c :: 0 <= c < |marked'| ==>
      (marked'[c] <==> exists v :: 0 <= v < w + 1 && ChunkMatchesWindow(qs, k, c, ts, v))
  {
    var admit := FilterAdmits(modulus, filter, qs, k, m, ts, w, docHash);
    marked' := marked;
    if admit {
      marked' := MarkChunksAt(qs, k, m, ts, w, marked);
    }
    forall c | 0 <= c < |marked'|
      ensures marked'[c] <==> exists v :: 0 <= v < w + 1 && ChunkMatchesWindow(qs, k, c, ts, v)
    {
      if ChunkMatchesWindow(qs, k, c, ts, w) {
        assert AnyChunkMatches(qs, k, m / k, ts, w);
        assert exists v :: 0 <= v < w + 1 && ChunkMatchesWindow(qs, k, c, ts, v);
      }
    }
  }

  /** The number of marked chunks, when a chunk is marked exactly when it
      occurs in the target: the number of chunks that occur. */
  method CountMarked(qs: seq<int>, k: int, ts: seq<int>, n: int, marked: seq<bool>) returns (matched: int)
    requires forall c :: 0 <= c < |marked| ==> (marked[c] <==> ChunkOccurs(qs, k, c, ts, n))
    ensures matched == CountMatchedChunks(qs, k, |marked|, ts, n)
  {
    matched := 0;
    var c := 0;
    while c < |marked|
      invariant 0 <= c <= |marked|
      invariant matched == CountMatchedChunks(qs, k, c, ts, n)
    {
      if marked[c] {
        matched := matched + 1;
      }
      c := c + 1;
    }
  }

  /** The batch matcher counting matched chunks: the same filter and the same
      rolling scan, but every chunk equal to a window the filter admits is
      marked, and the result is the number of marked chunks. It equals the
      number of chunks `simple_match` finds in the target. */
  method RabinKarpBatchMatchChunks(modulus: int, bsz: int, k: int, qs: seq<int>, m: int, ts: seq<int>, n: int)
    returns (matched: int)
    requires ValidModulus(modulus)
    requires 1 <= k
    requires Terminated(qs, m) && Terminated(ts, n)
    requires FirstWindowInside(ts, k)
    requires FilterSizeOk(bsz, k, m, n)
    ensures matched == CountMatchedChunks(qs, k, m / k, ts, n)
    ensures 0 <= matched <= m / k
  {
    var chunks := m / k;
    var expConst := PowerCalc(modulus, k - 1);
    var filter := BuildFilter(modulus, bsz, k, qs, m);
    var docHash := PolyHash(modulus, ts, 0, k);
    var marked := seq(chunks, _ => false);
    var i := 0;
    while i < n - k + 1
      invariant 0 <= i <= n - k + 1
      invariant 0 <= docHash <= modulus
      invariant Cong(docHash, Poly(Window(ts, i, k)), modulus)
      invariant i + k <= n ==> docHash == WindowHash(modulus, Window(ts, i, k))
      invariant |marked| == chunks
      invariant forall c :: 0 <= c < chunks ==>
        (marked[c] <==> exists w :: 0 <= w < i && ChunkMatchesWindow(qs, k, c, ts, w))
    {
      marked := MarkStep(modulus, filter, qs, k, m, ts, i, docHash, marked);
      docHash := RollWindow(modulus, docHash, expConst, ts, n, i, k);
      i := i + 1;
    }
    matched := CountMarked(qs, k, ts, n, marked);
  }
}
