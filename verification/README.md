# rkmatch in Dafny

A verified model of the matching engine of `rkmatch`. The tool cuts a query
document into k-byte chunks and counts how many of them occur in a target
document. It offers three algorithms:

- a brute-force scan (`simple_match`);
- a single-pattern Rabin-Karp matcher with a rolling polynomial hash
  (`rabin_karp_match`);
- a batch matcher that puts every chunk's hash into a Bloom filter and rolls
  one hash along the target (`rabin_karp_batchmatch`).

Modules, one per concern of the source:

- `ModArith` (modarith.dfy): the modular primitives `madd`, `mdel`, `mmul`
  and `power_calc`. The modulus `BIG_PRIME`, written M below, is a
  parameter with `256 <= M` and `M * 256 < 2^63`. It is named `m` in
  `ModArith` and `RollingHash`, and `modulus` in `Matchers` and `Driver`,
  where `m` is the query length as in the source. `madd` and `mdel` use strict tests, so
  results lie in [0, M] and `M` stands for residue 0; contracts are stated as
  congruences. C's truncating `%` is modelled by `CRem`. `long long` overflow
  is ruled out by stating the product bound in each precondition.
- `Documents` (documents.dfy): a normalized document of length n is n bytes
  in 1..127 followed by the NUL terminator. `strncmp(.., k) == 0` is modelled
  as `StrnEq`, which stops at a shared NUL, and is proved equal to k-byte
  window equality when one side has no NUL.
- `RollingHash` (rollhash.dfy): the from-scratch hash and the O(1) roll, both
  proved congruent to the base-256 value of the window. The key fact is that
  both computations end by adding a byte with `madd`, so for a window whose
  last byte is not NUL both land in [1, M]. There congruence is equality, so
  equal windows give equal integers, which is what the source compares.
- `Bloom` (bloom.dfy): `hash_i`, `bloom_init`, `bloom_add` and
  `bloom_query` over a byte buffer (`seq<bv8>`) with MSB-first bit layout.
  The filter is a value, and there is no false negative.
- `Matchers` (matchers.dfy): the three matchers. Each has a contract relating
  its answer to an independent definition of occurrence or of the count.
- `Driver` (driver.dfy): the chunk loops of `main`, the filter size it passes
  to the batch matcher, and the number of chunks it reports against.

## Model

| member | source | states |
|---|---|---|
| ModArith.CRem | Lab-1-RK-Lab/rklab-handout/rkmatch.c:47 | C's `%`: the remainder is below the divisor in magnitude, takes the dividend's sign, and is congruent to the dividend |
| ModArith.MAdd | Lab-1-RK-Lab/rklab-handout/rkmatch.c:30-34 | for a, b in [0, M] the result is in [0, M] and congruent to a + b; it is M (not 0) when a + b == M, and 0 only for 0 + 0 |
| ModArith.MDel | Lab-1-RK-Lab/rklab-handout/rkmatch.c:37-41 | for a, b in [0, M] the result is in [0, M] and congruent to a - b; it is M when a == b, and 0 only for 0 - M |
| ModArith.MMul | Lab-1-RK-Lab/rklab-handout/rkmatch.c:44-48 | for a product that fits a `long long`, the result is congruent to a * b, lies strictly between -M and M, is non-negative for a non-negative product, and is the product itself when that is already below M |
| ModArith.ByteProductFits | Lab-1-RK-Lab/rklab-handout/rkmatch.c:22-23 | a value in [0, M] times a value in [0, 256] cannot overflow a `long long`, the headroom the modulus comment promises |
| ModArith.PowerCalc | Lab-1-RK-Lab/rklab-handout/rkmatch.c:186-196 | returns 256^e mod M for e >= 0, and 1 for e <= 0 |
| ModArith.CanonUnique | Lab-1-RK-Lab/rklab-handout/rkmatch.c:232 | a value in [1, M] congruent to x is the unique representative of x in [1, M], so two such hashes of one window are equal integers |
| Documents.Window | Lab-1-RK-Lab/rklab-handout/rkmatch.c:177 | the window at offset i has length k and holds the k values starting at i |
| Documents.StrnEqIsWindowEq | Lab-1-RK-Lab/rklab-handout/rkmatch.c:177 | when either side has no NUL in its k characters, `strncmp(.., k) == 0` holds exactly when the two k-byte windows are equal |
| RollingHash.PolySnoc | Lab-1-RK-Lab/rklab-handout/rkmatch.c:251 | appending a byte to a window shifts its base-256 value one place up and adds the byte |
| RollingHash.PolyLeading | Lab-1-RK-Lab/rklab-handout/rkmatch.c:225-226 | the first byte of a window carries weight 256^(k-1) in its base-256 value, the weight `power_calc(k-i-1)` gives at i = 0 |
| RollingHash.WeightedByte | Lab-1-RK-Lab/rklab-handout/rkmatch.c:225-226 | `mmul(power_calc(e), byte)` cannot overflow, lies in [0, M) and is congruent to byte * 256^e |
| RollingHash.HashStep | Lab-1-RK-Lab/rklab-handout/rkmatch.c:225-228 | one step of the from-scratch loop keeps the accumulated hash plus the unread suffix's value congruent to the window's value, and the product does not overflow |
| RollingHash.PolyHash | Lab-1-RK-Lab/rklab-handout/rkmatch.c:223-229 | the from-scratch hash is in [0, M] and congruent to the window's base-256 value; when the last byte is not NUL it is the window's canonical hash in [1, M] |
| RollingHash.Roll | Lab-1-RK-Lab/rklab-handout/rkmatch.c:250-251 | the rolled hash stays in [0, M], and is at least 1 when the incoming byte is |
| RollingHash.DropLeading | Lab-1-RK-Lab/rklab-handout/rkmatch.c:250 | removing `mmul(exp_const, outgoing)` from a hash of w with `mdel` leaves a hash of w without its first byte, with no overflow |
| RollingHash.ShiftIn | Lab-1-RK-Lab/rklab-handout/rkmatch.c:251 | `madd(mmul(base, t), incoming)` turns a hash of v into a hash of v followed by the incoming byte, with no overflow |
| RollingHash.RollCorrect | Lab-1-RK-Lab/rklab-handout/rkmatch.c:250-251 | rolling a hash congruent to window w's value by w's first byte and a new byte gives a hash congruent to the value of the next window |
| RollingHash.RollCanonical | Lab-1-RK-Lab/rklab-handout/rkmatch.c:250-251 | with a non-NUL incoming byte, the rolled hash is the very integer the from-scratch computation gives for the next window |
| RollingHash.RollWindow | Lab-1-RK-Lab/rklab-handout/rkmatch.c:331-332 | one roll along a terminated document moves a hash of the window at i to a hash of the window at i + 1, equal to its from-scratch hash while that window lies inside the text |
| Bloom.ProbeTermBound | Lab-1-RK-Lab/rklab-handout/bloom.c:17 | for the ten probe indices, `i * h2` is bounded by 9 times the second prime in magnitude and `i * i` is at most 81: the headroom that keeps `hash_i` inside an `int` |
| Bloom.HashI | Lab-1-RK-Lab/rklab-handout/bloom.c:13-18 | for each of the ten probes the hash fits an `int`, and for x >= 0 it is at least 1 |
| Bloom.Probe | Lab-1-RK-Lab/rklab-handout/bloom.c:54 | for x >= 0 the probe position `hash_i(i, x) % bsz` lies in [0, bsz) |
| Bloom.SetBit | Lab-1-RK-Lab/rklab-handout/bloom.c:55-58 | ORing the MSB-first mask into byte p / 8 sets bit p, leaves every other byte alone, and changes no other bit |
| Bloom.SetBitTests | Lab-1-RK-Lab/rklab-handout/bloom.c:55-58 | bit by bit, the ORed buffer has bit p set and every other bit as before |
| Bloom.BloomInit | Lab-1-RK-Lab/rklab-handout/bloom.c:25-42 | records bsz, provides ceil(bsz / 8) zero bytes, sets no bit and reports no element present |
| Bloom.FreshFilterRejects | Lab-1-RK-Lab/rklab-handout/bloom.c:70-78 | a freshly initialised filter answers every query with 0 |
| Bloom.AddProbes | Lab-1-RK-Lab/rklab-handout/bloom.c:51-59 | after the probes from i on, a bit is set exactly when it was set before or is one of those probe positions |
| Bloom.BloomAdd | Lab-1-RK-Lab/rklab-handout/bloom.c:45-61 | keeps the size and validity, sets exactly the old bits plus the ten probe positions, and the added element is then present |
| Bloom.QueryProbes | Lab-1-RK-Lab/rklab-handout/bloom.c:70-80 | the early-exit loop answers true exactly when every remaining probe bit is set |
| Bloom.BloomQuery | Lab-1-RK-Lab/rklab-handout/bloom.c:64-81 | true exactly when all ten probe bits are set |
| Bloom.AddKeepsMembers | Lab-1-RK-Lab/rklab-handout/bloom.c:58 | adding an element never makes a present element absent |
| Bloom.NoFalseNegatives | Lab-1-RK-Lab/rklab-handout/bloom.c:44-81 | an element added at any point, or present from the start, is reported present after any sequence of further adds |
| Matchers.ChunkInside | Lab-1-RK-Lab/rklab-handout/rkmatch.c:301-306 | each of the m / k chunks lies inside the first m bytes |
| Matchers.SimpleMatch | Lab-1-RK-Lab/rklab-handout/rkmatch.c:167-182 | returns true exactly when some offset in [0, n - k] starts a window equal to the pattern, and false when n < k |
| Matchers.CheckWindow | Lab-1-RK-Lab/rklab-handout/rkmatch.c:232-241 | a hash hit confirmed by `strncmp` happens exactly when the window equals the pattern, including the last window that reaches the terminator |
| Matchers.RabinKarpMatch | Lab-1-RK-Lab/rklab-handout/rkmatch.c:207-270 | returns true exactly when the pattern occurs in the target: sound, and complete with respect to `simple_match` |
| Matchers.AddKeepsChunks | Lab-1-RK-Lab/rklab-handout/rkmatch.c:307 | adding chunk i's hash keeps the earlier chunks' hashes in the filter and adds chunk i's |
| Matchers.BuildFilter | Lab-1-RK-Lab/rklab-handout/rkmatch.c:298-308 | the filter has the given size and holds the hash of every one of the m / k chunks |
| Matchers.FilterAdmits | Lab-1-RK-Lab/rklab-handout/rkmatch.c:321 | a window the filter rejects equals no chunk |
| Matchers.AnyChunkAt | Lab-1-RK-Lab/rklab-handout/rkmatch.c:322-328 | the chunk loop with its `break` reports a hit exactly when some chunk equals the window |
| Matchers.OffsetHit | Lab-1-RK-Lab/rklab-handout/rkmatch.c:321-328 | filter test plus chunk loop: an offset is a hit exactly when its window equals some chunk, so the filter never loses a match |
| Matchers.CountOffset | Lab-1-RK-Lab/rklab-handout/rkmatch.c:321-328 | the count of matched offsets below w becomes the count below w + 1 |
| Matchers.RabinKarpBatchMatch | Lab-1-RK-Lab/rklab-handout/rkmatch.c:281-337 | returns the number of target offsets in [0, n - k] whose window equals at least one chunk, so 0 <= result <= n - k + 1 |
| Matchers.MarkChunksAt | Lab-1-RK-Lab/rklab-handout/rkmatch.c:277 | corrected step used by Matchers.RabinKarpBatchMatchChunks (the source has no marks): after comparing window w with every chunk, a chunk is marked exactly when it was marked before or equals window w |
| Matchers.MarkStep | Lab-1-RK-Lab/rklab-handout/rkmatch.c:277 | corrected offset step used by Matchers.RabinKarpBatchMatchChunks: after offset w a chunk is marked exactly when it equals the window at some offset up to w, so chunks are counted once, not offsets |
| Matchers.CountMarked | Lab-1-RK-Lab/rklab-handout/rkmatch.c:277 | part of the corrected batch count: when marks mean occurrence, the number of marks is the number of chunks that occur |
| Matchers.RabinKarpBatchMatchChunks | Lab-1-RK-Lab/rklab-handout/rkmatch.c:272-337 | returns the number of matched chunks, as the documentation promises: how many of the m / k chunks occur in the target, at most m / k |
| Driver.BatchFilterSize | Lab-1-RK-Lab/rklab-handout/rkmatch.c:416 | the filter size is the largest multiple of 8 not above m * 10 / k |
| Driver.BatchFilterSizePositive | Lab-1-RK-Lab/rklab-handout/rkmatch.c:416 | with at least one chunk the filter has at least 8 bits |
| Driver.BatchFilterSizeOk | Lab-1-RK-Lab/rklab-handout/rkmatch.c:416 | with at least one chunk the filter size is one the batch matcher can use |
| Driver.ShortQueryZeroFilter | Lab-1-RK-Lab/rklab-handout/rkmatch.c:416 | a query shorter than 8/10 of a chunk gets a filter of 0 bits |
| Driver.ZeroFilterReachesQuery | Lab-1-RK-Lab/rklab-handout/rkmatch.c:416 | for m = 7, k = 10, n = 10 the driver passes bsz = 0 while the target has a window to query |
| Driver.OffsetCountExceedsChunks | Lab-1-RK-Lab/rklab-handout/rkmatch.c:423-425 | for query "a", k = 1 and target "aaaa", one chunk occurs but four offsets match, so the offset count exceeds the chunk total |
| Driver.ShortTargetNoMatches | Lab-1-RK-Lab/rklab-handout/rkmatch.c:408-416 | a target shorter than a chunk contains none of the chunks, so the count is 0 |
| Driver.ShortTargetOverRead | Lab-1-RK-Lab/rklab-handout/rkmatch.c:408-416 | for the query "aaa", k = 3 and the target "a", the driver calls a rolling matcher whose first window does not fit in the target, while no chunk can occur |
| Driver.ChunkOccursIsOccurs | Lab-1-RK-Lab/rklab-handout/rkmatch.c:400 | the pattern `qdoc + i` of length k occurs in the target exactly when chunk i / k does |
| Driver.MatchChunk | Lab-1-RK-Lab/rklab-handout/rkmatch.c:399-411 | one chunk of the SIMPLE or RK loop is found exactly when it occurs in the target, for a target of any length; corrected to report no match without running `rabin_karp_match` when the target is shorter than a chunk |
| Driver.LastChunk | Lab-1-RK-Lab/rklab-handout/rkmatch.c:423 | the loop `i + k <= m; i += k` stops after exactly m / k chunks |
| Driver.MatchEachChunk | Lab-1-RK-Lab/rklab-handout/rkmatch.c:398-413 | the SIMPLE and RK loops count how many of the m / k chunks occur; the trailing m mod k bytes are ignored. No bound on the target's length is required, as in `main` |
| Driver.MatchBatch | Lab-1-RK-Lab/rklab-handout/rkmatch.c:414-416 | the corrected RKBATCH case counts how many of the m / k chunks occur, for queries and targets of any length |
| Driver.MatchDocuments | Lab-1-RK-Lab/rklab-handout/rkmatch.c:395-423 | every algorithm reports the same count, the number of the m / k chunks that occur, against a total of m / k, for documents of any length as `main` reads them |

## Left out

- `read_file` and `normalize` are not modelled: file I/O and locale-dependent text cleanup. Their result is taken as the precondition `Terminated`: bytes in 1..127 followed by a NUL.
- Option parsing (`getopt`, `atoi`), the `assert` on `sizeof(long long)`, and the default branch for an unknown algorithm number are not modelled. `Algo` has only the three valid choices, and `k >= 1` is a precondition.
- All `printf` output is left out, including the hash traces in `rabin_karp_match`, `bloom_print` and the final line. The `%.2f` ratio is floating point, and it divides by zero when the query has no chunk; the model returns the two integers instead.
- `bloom_free` is not modelled; deallocation has no counterpart for values.
- `calloc(bsz, bytes_size)` allocates `bsz * bytes_size` bytes, and its failure is unchecked. The model's buffer is exactly ceil(bsz / 8) bytes. No probe position reaches past that, so the extra bytes are never read.
- The buffer is shared through the `bloom_filter` struct passed by value; the model threads the filter as a value instead.
- 32-bit `int` overflow of `qdoc_len * 10` in the driver and of lengths in general is not modelled; documents are assumed shorter than that.
- Expected running time and the Bloom false-positive rate are probabilistic, not contracts.
- Matchers.RabinKarpMatch, Matchers.RabinKarpBatchMatch and Matchers.RabinKarpBatchMatchChunks require their first window `ts[0..k)` to lie inside the target's n + 1 values (k <= n + 1; the terminator makes k = n + 1 safe). `main` does not ensure this; the driver model is corrected to skip them when n < k (see Findings).
- `rabin_karp_match` computes the pattern hash and the first window hash in one interleaved loop (rkmatch.c lines 223-229); the model runs the same per-byte step twice, once per string, which yields the same two values.
- The driver model calls the corrected batch matcher and skips it for a query with no chunk or a target shorter than a chunk (see Findings). The as-written batch matcher is modelled as Matchers.RabinKarpBatchMatch.

## Findings

| source | as written | input that shows it | evidently intended | confidence | as-written member | corrected member |
|---|---|---|---|---|---|---|
| Lab-1-RK-Lab/rklab-handout/rkmatch.c:319-328 | `rabin_karp_batchmatch` counts target offsets whose window equals some chunk, while its documentation (line 277) and the driver's "matched: x out of m/k" report (line 423) treat the result as a number of chunks | query "a", k = 1, target "aaaa": one chunk, four matching offsets, so the report reads 4.00 matched, 4 out of 1 | the number of chunks that occur in the target, as `simple_match` and `rabin_karp_match` give it | not executed | Matchers.RabinKarpBatchMatch, Driver.OffsetCountExceedsChunks | Matchers.RabinKarpBatchMatchChunks |
| Lab-1-RK-Lab/rklab-handout/rkmatch.c:416 | the filter size `((m*10/k)>>3)<<3` is 0 whenever m * 10 < 8 * k; `bloom_query` then computes `hash_i(..) % 0` for every target window | m = 7, k = 10, n = 10: bsz = 0 and one window is queried | a query with no chunk matches nothing, so no filter is needed | not executed | Driver.BatchFilterSize, Driver.ZeroFilterReachesQuery | Driver.MatchBatch, Driver.BatchFilterSizeOk |
| Lab-1-RK-Lab/rklab-handout/rkmatch.c:408-416 | `main` never compares the target's length n with k, so the RK loop and the RKBATCH case call the rolling matchers even when n < k; their first-hash loops (lines 223-229 and 314-316) then read `ts[0..k)` past the target's terminator | query "aaa", k = 3, target "a": the chunk at 0 is admitted and the first hash reads 3 values from a target of 2 | a target shorter than a chunk matches nothing | not executed | Matchers.RabinKarpMatch, Driver.ShortTargetOverRead | Driver.MatchChunk, Driver.MatchBatch, Driver.ShortTargetNoMatches |
