/** Documents as the matchers see them, and the byte comparison they confirm
    hash hits with.

    A document of length n is a sequence of n + 1 values: n normalized bytes
    (7-bit ASCII, never NUL) followed by the NUL terminator the normalizer
    writes. A `char *` into a document becomes a sequence plus an offset. */
module Documents {

  /** A normalized, NUL-terminated document of length n. */
  predicate Terminated(s: seq<int>, n: int)
  {
    && 0 <= n
    && |s| == n + 1
    && s[n] == 0
    && forall j :: 0 <= j < n ==> 1 <= s[j] <= 127
  }

  /** The first k values of a pattern are text bytes: no NUL, no byte >= 128. */
  predicate PatternBytes(ps: seq<int>, k: int)
  {
    0 <= k <= |ps| && forall j :: 0 <= j < k ==> 1 <= ps[j] <= 127
  }

  /** No NUL among the k values starting at offset i. */
  predicate NoNul(s: seq<int>, i: int, k: int)
    requires 0 <= i && 0 <= k && i + k <= |s|
  {
    forall j :: i <= j < i + k ==> s[j] != 0
  }

  /** The k values a rolling matcher reads for its first window, `ts[0..k)`,
      lie inside the document. */
  predicate FirstWindowInside(ts: seq<int>, k: int)
  {
    k <= |ts|
  }

  /** The k values starting at offset i. */
  function Window(s: seq<int>, i: int, k: int): (w: seq<int>)
    requires 0 <= i && 0 <= k && i + k <= |s|
    ensures |w| == k
    ensures forall j :: 0 <= j < k ==> w[j] == s[i + j]
  {
    s[i..i + k]
  }

  /** pat occurs in the document ts of length n: some offset w in [0, n - |pat|]
      starts a window equal to pat. */
  ghost predicate Occurs(pat: seq<int>, ts: seq<int>, n: int)
    requires n < |ts|
  {
    exists w :: 0 <= w && w + |pat| <= n && Window(ts, w, |pat|) == pat
  }

  /** `strncmp(&a[i], &b[j], k) == 0`: compare at most k characters, stopping
      early (and reporting equality) at a NUL both sides share. */
  function StrnEq(a: seq<int>, i: int, b: seq<int>, j: int, k: int): bool
    requires 0 <= i && 0 <= j && 0 <= k
    requires i + k <= |a| && j + k <= |b|
    decreases k
  {
    k == 0 || (a[i] == b[j] && (a[i] == 0 || StrnEq(a, i + 1, b, j + 1, k - 1)))
  }

  /** When either side has no NUL among its k characters, `strncmp` reports
      equality exactly when the two k-character windows are equal. */
  lemma {:induction false} StrnEqIsWindowEq(a: seq<int>, i: int, b: seq<int>, j: int, k: int)
    requires 0 <= i && 0 <= j && 0 <= k
    requires i + k <= |a| && j + k <= |b|
    requires NoNul(a, i, k) || NoNul(b, j, k)
    ensures StrnEq(a, i, b, j, k) <==> Window(a, i, k) == Window(b, j, k)
    decreases k
  {
    if k > 0 {
      if a[i] == b[j] {
        assert a[i] != 0 by {
          if NoNul(a, i, k) { assert a[i] != 0; } else { assert b[j] != 0; }
        }
        assert NoNul(a, i + 1, k - 1) || NoNul(b, j + 1, k - 1);
        StrnEqIsWindowEq(a, i + 1, b, j + 1, k - 1);
        assert Window(a, i, k) == [a[i]] + Window(a, i + 1, k - 1);
        assert Window(b, j, k) == [b[j]] + Window(b, j + 1, k - 1);
      } else {
        assert Window(a, i, k)[0] != Window(b, j, k)[0];
      }
    }
  }
}
