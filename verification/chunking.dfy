/** `splitObject` from utils/scraper.js: the entries of an object cut, in
    order, into consecutive slices of `chunkSize` entries (the last one may
    be shorter). The loop index steps from 0 by `chunkSize` while it is below
    the number of entries, and each step takes `entries.slice(i, i + chunkSize)`. */
module Chunking {
  import opened Seqs

  function Min(a: int, b: int): int
  {
    if a <= b then a else b
  }

  /** Ceiling of `a / b`. */
  function CeilDiv(a: nat, b: nat): nat
    requires b > 0
  {
    (a + b - 1) / b
  }

  lemma MulMonotone(x: int, y: int, b: nat)
    requires x <= y
    ensures x * b <= y * b
  {
    assert y * b - x * b == (y - x) * b;
  }

  lemma DivUnique(a: nat, b: nat, q: nat)
    requires b > 0
    requires q * b <= a < q * b + b
    ensures a / b == q
  {
    var q' := a / b;
    assert q' * b <= a < q' * b + b;
    if q' < q {
      MulMonotone(q' + 1, q, b);
    } else if q < q' {
      MulMonotone(q + 1, q', b);
    }
  }

  /** `n` chunks of at most `b` cover `a` entries and one fewer would not. */
  lemma CeilDivOfBounds(a: nat, b: nat, n: nat)
    requires b > 0
    requires a <= n * b < a + b
    ensures CeilDiv(a, b) == n
  {
    DivUnique(a + b - 1, b, n);
  }

  /** The loop from index `i` on. */
  function SplitFrom<T>(entries: seq<T>, chunkSize: nat, i: nat): (chunks: seq<seq<T>>)
    requires chunkSize > 0
    requires i <= |entries|
    decreases |entries| - i
    ensures forall c | 0 <= c < |chunks| :: 0 < |chunks[c]| <= chunkSize
    ensures forall c | 0 <= c < |chunks| - 1 :: |chunks[c]| == chunkSize
  {
    if i == |entries| then []
    else
      var end := Min(i + chunkSize, |entries|);
      [entries[i..end]] + SplitFrom(entries, chunkSize, end)
  }

  /** The chunks from index `i` on concatenate, in order, to the remaining
      entries: nothing is lost, repeated or moved. */
  lemma {:induction false} SplitFromCovers<T>(entries: seq<T>, chunkSize: nat, i: nat)
    requires chunkSize > 0
    requires i <= |entries|
    ensures Flatten(SplitFrom(entries, chunkSize, i)) == entries[i..]
    decreases |entries| - i
  {
    if i < |entries| {
      var end := Min(i + chunkSize, |entries|);
      var rest := SplitFrom(entries, chunkSize, end);
      var chunks := SplitFrom(entries, chunkSize, i);
      SplitFromCovers(entries, chunkSize, end);
      assert chunks == [entries[i..end]] + rest;
      assert chunks[1..] == rest;
      assert entries[i..end] + entries[end..] == entries[i..];
    }
  }

  /** The chunks hold all remaining entries, and one chunk fewer could not. */
  lemma {:induction false} ChunkCount<T>(entries: seq<T>, chunkSize: nat, i: nat)
    requires chunkSize > 0
    requires i <= |entries|
    ensures var n := |SplitFrom(entries, chunkSize, i)|;
      |entries| - i <= n * chunkSize < |entries| - i + chunkSize
    decreases |entries| - i
  {
    if i < |entries| {
      var end := Min(i + chunkSize, |entries|);
      ChunkCount(entries, chunkSize, end);
      var n' := |SplitFrom(entries, chunkSize, end)|;
      assert (n' + 1) * chunkSize == n' * chunkSize + chunkSize;
      if end == |entries| {
        assert n' == 0;
      }
    }
  }

  /** `splitObject(obj, chunkSize)` on the entries of `obj`. */
  function SplitObject<T>(entries: seq<T>, chunkSize: nat): (chunks: seq<seq<T>>)
    requires chunkSize > 0
    ensures |chunks| == CeilDiv(|entries|, chunkSize)
    ensures Flatten(chunks) == entries
    ensures forall c | 0 <= c < |chunks| :: 0 < |chunks[c]| <= chunkSize
    ensures forall c | 0 <= c < |chunks| - 1 :: |chunks[c]| == chunkSize
  {
    var chunks := SplitFrom(entries, chunkSize, 0);
    ChunkCount(entries, chunkSize, 0);
    SplitFromCovers(entries, chunkSize, 0);
    CeilDivOfBounds(|entries|, chunkSize, |chunks|);
    chunks
  }

  /** Chunk `c` is the slice of entries from `start == i + c * chunkSize` on. */
  lemma {:induction false} ChunkIsSlice<T>(entries: seq<T>, chunkSize: nat, i: nat, c: nat, start: nat)
    requires chunkSize > 0
    requires i <= |entries|
    requires c < |SplitFrom(entries, chunkSize, i)|
    requires start == i + c * chunkSize
    ensures start < |entries|
    ensures SplitFrom(entries, chunkSize, i)[c] == entries[start..Min(start + chunkSize, |entries|)]
    decreases c
  {
    SplitFromAt(entries, chunkSize, i, c);
    if c == 0 {
      assert start == i;
    } else {
      MulStep(c, chunkSize);
      var next := i + chunkSize;
      assert start == next + (c - 1) * chunkSize;
      ChunkIsSlice(entries, chunkSize, next, c - 1, start);
    }
  }

  /** One step of the loop: the first chunk is the slice at `i`, and a later
      chunk is a chunk of the loop resumed a full chunk further on. */
  lemma SplitFromAt<T>(entries: seq<T>, chunkSize: nat, i: nat, c: nat)
    requires chunkSize > 0
    requires i <= |entries|
    requires c < |SplitFrom(entries, chunkSize, i)|
    ensures i < |entries|
    ensures c == 0 ==> SplitFrom(entries, chunkSize, i)[0] == entries[i..Min(i + chunkSize, |entries|)]
    ensures c > 0 ==>
      && i + chunkSize <= |entries|
      && c - 1 < |SplitFrom(entries, chunkSize, i + chunkSize)|
      && SplitFrom(entries, chunkSize, i)[c] == SplitFrom(entries, chunkSize, i + chunkSize)[c - 1]
  {
  }

  lemma MulStep(c: nat, b: nat)
    requires c > 0
    ensures c * b == (c - 1) * b + b
  {
  }

  lemma DivFloor(p: nat, b: nat)
    requires b > 0
    ensures (p / b) * b <= p < (p / b) * b + b
  {
  }

  lemma DivBelow(p: nat, b: nat, k: nat)
    requires b > 0
    requires p < k * b
    ensures p / b < k
  {
    DivFloor(p, b);
    if p / b >= k {
      MulMonotone(k, p / b, b);
    }
  }

  /** The entry at position `p` lands in chunk `p / chunkSize`, which is the
      slice starting at `p / chunkSize * chunkSize`. */
  lemma EntryPlacement<T>(entries: seq<T>, chunkSize: nat, p: nat)
    requires chunkSize > 0
    requires p < |entries|
    ensures p / chunkSize < |SplitObject(entries, chunkSize)|
    ensures var start := p / chunkSize * chunkSize;
      && start <= p < start + chunkSize
      && SplitObject(entries, chunkSize)[p / chunkSize] == entries[start..Min(start + chunkSize, |entries|)]
  {
    var c := p / chunkSize;
    ChunkCount(entries, chunkSize, 0);
    SplitFromCovers(entries, chunkSize, 0);
    DivBelow(p, chunkSize, |SplitFrom(entries, chunkSize, 0)|);
    DivFloor(p, chunkSize);
    ChunkIsSlice(entries, chunkSize, 0, c, c * chunkSize);
  }
}
