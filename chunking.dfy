/**
  Character-offset chunking of a string: the comprehension
  `[content[i:i+n] for i in range(0, len(content), n)]` with Python's
  `range` and slice semantics, and what it guarantees.
 */
module Chunking {

  function Min(a: nat, b: nat): nat
  {
    if a <= b then a else b
  }

  /** Python's `range(start, stop, step)` for a positive step: start, start + step, ... while below stop. */
  function Range(start: nat, stop: nat, step: nat): seq<nat>
    requires step > 0
    decreases stop - start
  {
    if start < stop then [start] + Range(start + step, stop, step) else []
  }

  /** Python's `s[i:j]` for non-negative bounds: both bounds are clamped to the length, and `j <= i` gives "". */
  function Slice(s: string, i: nat, j: nat): string
  {
    var lo, hi := Min(i, |s|), Min(j, |s|);
    if lo <= hi then s[lo..hi] else []
  }

  /** The chunk list of `s`: one slice of `n` characters for each start offset in `range(0, len(s), n)`. */
  function Chunks(s: string, n: nat): seq<string>
    requires n > 0
  {
    var starts := Range(0, |s|, n);
    seq(|starts|, k requires 0 <= k < |starts| => Slice(s, starts[k], starts[k] + n))
  }

  /** `"".join(parts)`: the parts written one after the other. */
  function Flatten(parts: seq<string>): string
  {
    if parts == [] then [] else parts[0] + Flatten(parts[1..])
  }

  /**
    `parts` cuts `s` into consecutive pieces of `n` characters, the last one
    possibly shorter but never empty: joined they give back `s`.
   */
  predicate IsChunking(parts: seq<string>, s: string, n: nat)
  {
    && Flatten(parts) == s
    && forall i :: 0 <= i < |parts| ==> 1 <= |parts[i]| <= n && (i < |parts| - 1 ==> |parts[i]| == n)
  }

  /** Shifting both bounds of a range by `d` shifts every element by `d`. */
  lemma {:induction false} RangeShift(a: nat, b: nat, d: nat, step: nat)
    requires step > 0
    ensures |Range(a + d, b + d, step)| == |Range(a, b, step)|
    ensures forall k :: 0 <= k < |Range(a, b, step)| ==> Range(a + d, b + d, step)[k] == Range(a, b, step)[k] + d
    decreases b - a
  {
    if a < b {
      RangeShift(a + step, b, d, step);
      assert a + d + step == a + step + d;
    }
  }

  /** A slice of a suffix is a slice of the whole string at shifted bounds. */
  lemma SliceOfSuffix(s: string, m: nat, i: nat, j: nat)
    requires m <= |s|
    ensures Slice(s[m..], i, j) == Slice(s, i + m, j + m)
  {
  }

  /** The start offsets below `m + n`: 0, then those below `m` shifted by `n`. */
  lemma RangeUnfold(m: nat, n: nat)
    requires n > 0
    ensures |Range(0, m + n, n)| == |Range(0, m, n)| + 1
    ensures forall k :: 0 <= k < |Range(0, m, n)| ==> Range(0, m + n, n)[k + 1] == Range(0, m, n)[k] + n
  {
    assert Range(0, m + n, n) == [0] + Range(n, m + n, n);
    RangeShift(0, m, n, n);
  }

  /** A text longer than `n` has one chunk more than the text after its first `n` characters. */
  lemma ChunksShiftCount(s: string, n: nat)
    requires 0 < n < |s|
    ensures |Chunks(s, n)| == |Chunks(s[n..], n)| + 1
  {
    assert |s| == |s[n..]| + n;
    RangeUnfold(|s[n..]|, n);
  }

  /** Chunk `k + 1` of `s` is chunk `k` of `s[n..]`. */
  lemma ChunkShift(s: string, n: nat, k: nat)
    requires 0 < n < |s| && k < |Chunks(s[n..], n)|
    ensures |Chunks(s, n)| == |Chunks(s[n..], n)| + 1
    ensures Chunks(s, n)[k + 1] == Chunks(s[n..], n)[k]
  {
    var t := s[n..];
    assert |s| == |t| + n;
    RangeUnfold(|t|, n);
    var r, r' := Range(0, |s|, n), Range(0, |t|, n);
    var i := r'[k];
    assert r[k + 1] == i + n;
    SliceOfSuffix(s, n, i, i + n);
    assert Chunks(s, n)[k + 1] == Slice(s, i + n, i + n + n) == Slice(t, i, i + n) == Chunks(t, n)[k];
  }

  /** The first chunk is the first `n` characters (or all of them); the rest are the chunks of what follows. */
  lemma ChunksUnfold(s: string, n: nat)
    requires n > 0 && |s| > 0
    ensures Chunks(s, n) == [s[..Min(n, |s|)]] + Chunks(s[Min(n, |s|)..], n)
  {
    var m := Min(n, |s|);
    var c, c' := Chunks(s, n), Chunks(s[m..], n);
    assert Range(0, |s|, n) == [0] + Range(n, |s|, n);
    assert c[0] == s[..m];
    if |s| <= n {
      assert Range(n, |s|, n) == [];
      assert s[m..] == [];
      assert c' == [];
    } else {
      ChunksShiftCount(s, n);
      forall k | 0 <= k < |c'|
        ensures c[k + 1] == c'[k]
      {
        ChunkShift(s, n, k);
      }
    }
    assert c == [c[0]] + c';
  }

  /** No part of a chunking is empty, so there are parts exactly when there is text. */
  lemma ChunkingHead(parts: seq<string>, s: string, n: nat)
    requires n > 0 && IsChunking(parts, s, n) && parts != []
    ensures |s| > 0 && parts[0] == s[..Min(n, |s|)]
    ensures IsChunking(parts[1..], s[Min(n, |s|)..], n)
  {
    var rest := parts[1..];
    assert s == parts[0] + Flatten(rest);
    if |parts| > 1 {
      assert Flatten(rest) == rest[0] + Flatten(rest[1..]);
      assert |s| > n;
    }
    assert s[Min(n, |s|)..] == Flatten(rest);
    forall i | 0 <= i < |rest|
      ensures 1 <= |rest[i]| <= n && (i < |rest| - 1 ==> |rest[i]| == n)
    {
      assert rest[i] == parts[i + 1];
    }
  }

  /**
    Joining the chunks gives back the content, so nothing is dropped or
    duplicated; every chunk but the last has exactly `n` characters and the
    last has between 1 and `n`.
   */
  lemma {:induction false} ChunksPartition(s: string, n: nat)
    requires n > 0
    ensures IsChunking(Chunks(s, n), s, n)
    decreases |s|
  {
    if |s| == 0 {
      assert Range(0, 0, n) == [];
    } else {
      var m := Min(n, |s|);
      var c, c' := Chunks(s, n), Chunks(s[m..], n);
      ChunksUnfold(s, n);
      ChunksPartition(s[m..], n);
      assert c[1..] == c';
      assert Flatten(c) == s[..m] + s[m..] == s;
      if c' != [] {
        ChunkingHead(c', s[m..], n);
      }
      forall i | 0 <= i < |c|
        ensures 1 <= |c[i]| <= n && (i < |c| - 1 ==> |c[i]| == n)
      {
        if i > 0 {
          assert c[i] == c'[i - 1];
        }
      }
    }
  }

  lemma MulMono(a: int, b: int, n: nat)
    requires a <= b
    ensures a * n <= b * n
  {
  }

  lemma DivUnique(x: nat, n: nat, q: int, r: int)
    requires n > 0 && 0 <= r < n && x == q * n + r
    ensures x / n == q
  {
    var q', r' := x / n, x % n;
    assert x == q' * n + r';
    assert (q + 1) * n == q * n + n && (q' + 1) * n == q' * n + n;
    if q' > q {
      MulMono(q + 1, q', n);
    } else if q' < q {
      MulMono(q' + 1, q, n);
    }
  }

  lemma DivStep(x: nat, n: nat)
    requires n > 0
    ensures (x + n) / n == x / n + 1
  {
    assert x == (x / n) * n + x % n;
    assert (x / n + 1) * n == (x / n) * n + n;
    DivUnique(x + n, n, x / n + 1, x % n);
  }

  lemma DivOne(x: nat, n: nat)
    requires n <= x < 2 * n
    ensures x / n == 1
  {
  }

  /** A content of length L gives ceil(L / n) chunks; the empty content gives none. */
  lemma {:induction false} ChunksCount(s: string, n: nat)
    requires n > 0
    ensures |Chunks(s, n)| == (|s| + n - 1) / n
    ensures Chunks(s, n) == [] <==> s == []
    decreases |s|
  {
    if |s| == 0 {
      assert Range(0, 0, n) == [];
    } else {
      var m := Min(n, |s|);
      ChunksUnfold(s, n);
      ChunksCount(s[m..], n);
      if |s| <= n {
        DivOne(|s| + n - 1, n);
      } else {
        DivStep(|s| - 1, n);
        assert |s| + n - 1 == (|s| - 1) + n;
      }
    }
  }

  /** Two chunkings of the same text at the same size are equal. */
  lemma {:induction false} ChunkingUnique(p: seq<string>, q: seq<string>, s: string, n: nat)
    requires n > 0 && IsChunking(p, s, n) && IsChunking(q, s, n)
    ensures p == q
    decreases |s|
  {
    if p != [] && q != [] {
      ChunkingHead(p, s, n);
      ChunkingHead(q, s, n);
      ChunkingUnique(p[1..], q[1..], s[Min(n, |s|)..], n);
      assert p == [p[0]] + p[1..] && q == [q[0]] + q[1..];
    } else if p != [] {
      ChunkingHead(p, s, n);
    } else if q != [] {
      ChunkingHead(q, s, n);
    }
  }

  /**
    The chunk list is characterised by the partition law: a list of pieces
    is a chunking of `s` at size `n` exactly when it is `Chunks(s, n)`.
   */
  lemma ChunksCharacterized(parts: seq<string>, s: string, n: nat)
    requires n > 0
    ensures IsChunking(parts, s, n) <==> parts == Chunks(s, n)
  {
    ChunksPartition(s, n);
    if IsChunking(parts, s, n) {
      ChunkingUnique(parts, Chunks(s, n), s, n);
    }
  }

  /** Ten characters at size 4 give two full chunks and a remainder of two. */
  lemma ChunksExample()
    ensures Chunks("abcdefghij", 4) == ["abcd", "efgh", "ij"]
  {
    var parts := ["abcd", "efgh", "ij"];
    assert Flatten(parts) == "abcd" + Flatten(["efgh", "ij"]);
    assert IsChunking(parts, "abcdefghij", 4);
    ChunksCharacterized(parts, "abcdefghij", 4);
  }
}
