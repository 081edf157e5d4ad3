/**
 * The round-robin partitioner of download_videos_in_parallel: chunk i is the
 * extended slice video_urls[i::num_processes], for i in range(num_processes).
 */
module Chunking {

  /** Python's extended slice s[k::w] for a start k >= 0 and a step w >= 1. */
  function Stride<T>(s: seq<T>, k: nat, w: nat): seq<T>
    requires w >= 1
    decreases |s| - k
  {
    if k >= |s| then [] else [s[k]] + Stride(s, k + w, w)
  }

  /**
   * The chunk list download.py builds: num_processes chunks, chunk k holding
   * the URLs at indices k, k + w, k + 2w, ...; no chunk at all when the count
   * is below one, since range() is then empty.
   */
  function RoundRobin<T>(s: seq<T>, w: int): seq<seq<T>>
  {
    if w < 1 then [] else seq(w, k requires 0 <= k < w => Stride(s, k, w))
  }

  /** The chunking loop: one slice appended per iteration of `for i in range(num_processes)`. */
  method SplitIntoChunks<T>(urls: seq<T>, numProcesses: int) returns (chunks: seq<seq<T>>)
    ensures chunks == RoundRobin(urls, numProcesses)
  {
    chunks := [];
    var i := 0;
    while i < numProcesses
      invariant 0 <= i && (i == 0 || i <= numProcesses)
      invariant |chunks| == i
      invariant forall k :: 0 <= k < i ==> chunks[k] == Stride(urls, k, numProcesses)
    {
      chunks := chunks + [Stride(urls, i, numProcesses)];
      i := i + 1;
    }
  }

  // ---------------------------------------------------------------------------
  // Arithmetic helpers

  lemma MulStep(j: int, w: int)
    ensures (j + 1) * w == j * w + w
  {
  }

  lemma {:induction false} MulAtLeast(d: int, w: int)
    requires d >= 1 && w >= 0
    ensures d * w >= w
    decreases d
  {
    if d > 1 {
      MulAtLeast(d - 1, w);
      MulStep(d - 1, w);
    }
  }

  lemma MulSub(x: int, y: int, w: int)
    ensures x * w - y * w == (x - y) * w
  {
  }

  lemma DivModUnique(a: int, w: int, q: int, r: int)
    requires w >= 1 && 0 <= r < w && a == q * w + r
    ensures a / w == q && a % w == r
  {
    var q', r' := a / w, a % w;
    assert a == q' * w + r';
    if q' < q {
      MulAtLeast(q - q', w);
      MulSub(q, q', w);
    } else if q' > q {
      MulAtLeast(q' - q, w);
      MulSub(q', q, w);
    }
  }

  // ---------------------------------------------------------------------------
  // Which indices a stride holds

  /**
   * Position j of s[k::w] exists exactly when index k + j*w exists in s, and
   * then holds that element.
   */
  lemma {:induction false} StrideAt<T>(s: seq<T>, k: nat, w: nat, j: nat)
    requires w >= 1
    ensures j < |Stride(s, k, w)| <==> k + j * w < |s|
    ensures j < |Stride(s, k, w)| ==> Stride(s, k, w)[j] == s[k + j * w]
    decreases j
  {
    if k >= |s| {
      assert j * w >= 0;
    } else if j > 0 {
      StrideAt(s, k + w, w, j - 1);
      MulStep(j - 1, w);
    }
  }

  /** A stride's last element is followed, one step further, by the end of s. */
  lemma StrideEnd<T>(s: seq<T>, k: nat, w: nat)
    requires w >= 1
    ensures k + |Stride(s, k, w)| * w >= |s|
    ensures |Stride(s, k, w)| > 0 ==> k + (|Stride(s, k, w)| - 1) * w < |s|
  {
    var n := |Stride(s, k, w)|;
    StrideAt(s, k, w, n);
    if n > 0 {
      StrideAt(s, k, w, n - 1);
    }
  }

  // ---------------------------------------------------------------------------
  // Partition laws

  /**
   * Chunk k of RoundRobin(s, w) is exactly s[k], s[k + w], s[k + 2w], ...:
   * position j exists iff index k + j*w does, and holds that element. As
   * j grows the index grows, so the chunk keeps the input's order.
   */
  lemma ChunkContents<T>(s: seq<T>, w: int, k: int, j: nat)
    requires 0 <= k < w
    ensures |RoundRobin(s, w)| == w
    ensures j < |RoundRobin(s, w)[k]| <==> k + j * w < |s|
    ensures j < |RoundRobin(s, w)[k]| ==> RoundRobin(s, w)[k][j] == s[k + j * w]
  {
    StrideAt(s, k, w, j);
  }

  /** Within a chunk, a later position comes from a later index of the input. */
  lemma ChunkKeepsOrder<T>(s: seq<T>, w: int, k: int, j1: nat, j2: nat)
    requires 0 <= k < w
    requires j1 < j2 < |RoundRobin(s, w)[k]|
    ensures k + j1 * w < k + j2 * w < |s|
    ensures RoundRobin(s, w)[k][j1] == s[k + j1 * w]
    ensures RoundRobin(s, w)[k][j2] == s[k + j2 * w]
  {
    ChunkContents(s, w, k, j1);
    ChunkContents(s, w, k, j2);
    MulAtLeast(j2 - j1, w);
    MulSub(j2, j1, w);
  }

  /** Every index i of the input lands in chunk i % w, at position i / w. */
  lemma IndexLandsInChunk<T>(s: seq<T>, w: int, i: int)
    requires w >= 1 && 0 <= i < |s|
    ensures |RoundRobin(s, w)| == w
    ensures i / w < |RoundRobin(s, w)[i % w]| && RoundRobin(s, w)[i % w][i / w] == s[i]
  {
    ChunkContents(s, w, i % w, i / w);
  }

  /**
   * Conversely, position j of chunk k holds the input's index k + j*w, and that
   * index is sent to chunk k at position j and nowhere else: together with
   * IndexLandsInChunk, indices and chunk positions correspond one to one.
   */
  lemma PositionComesFromOneIndex<T>(s: seq<T>, w: int, k: int, j: nat)
    requires 0 <= k < w && j < |RoundRobin(s, w)[k]|
    ensures k + j * w < |s| && RoundRobin(s, w)[k][j] == s[k + j * w]
    ensures (k + j * w) % w == k && (k + j * w) / w == j
  {
    ChunkContents(s, w, k, j);
    DivModUnique(k + j * w, w, j, k);
  }

  /** Chunk k holds ceil((N - k) / w) URLs, where N is the number of URLs. */
  lemma ChunkLength<T>(s: seq<T>, w: int, k: int)
    requires 0 <= k < w
    ensures |RoundRobin(s, w)[k]| == if k >= |s| then 0 else (|s| - k + w - 1) / w
  {
    var n := |Stride(s, k, w)|;
    StrideEnd(s, k, w);
    if k < |s| {
      assert n > 0 by { StrideAt(s, k, w, 0); }
      MulStep(n - 1, w);
      DivModUnique(|s| - k + w - 1, w, n, |s| - k + w - 1 - n * w);
    } else {
      StrideAt(s, k, w, 0);
    }
  }

  /**
   * Balance: chunk sizes never grow with the chunk number and any two differ by
   * at most one.
   */
  lemma ChunksBalanced<T>(s: seq<T>, w: int, k1: int, k2: int)
    requires 0 <= k1 <= k2 < w
    ensures |RoundRobin(s, w)[k2]| <= |RoundRobin(s, w)[k1]| <= |RoundRobin(s, w)[k2]| + 1
  {
    var n1, n2 := |Stride(s, k1, w)|, |Stride(s, k2, w)|;
    StrideEnd(s, k1, w);
    StrideEnd(s, k2, w);
    StrideAt(s, k1, w, n2);
    StrideAt(s, k2, w, n1);
    if n1 > n2 + 1 {
      StrideAt(s, k1, w, n2 + 1);
      MulStep(n2, w);
    }
  }

  /**
   * With no more URLs than workers, chunk k holds just URL k, and every chunk
   * numbered N or above is empty.
   */
  lemma FewUrlsOnePerChunk<T>(s: seq<T>, w: int, k: int)
    requires |s| <= w && 0 <= k < w
    ensures RoundRobin(s, w)[k] == if k < |s| then [s[k]] else []
  {
    if k < |s| {
      assert Stride(s, k + w, w) == [];
    }
  }

  // ---------------------------------------------------------------------------
  // Completeness

  /** All chunks laid end to end. */
  function Flatten<T>(chunks: seq<seq<T>>): seq<T>
  {
    if chunks == [] then [] else chunks[0] + Flatten(chunks[1..])
  }

  /** Appending x to the input appends it to the one stride whose next index is the new one. */
  lemma {:induction false} StrideSnoc<T>(s: seq<T>, x: T, k: nat, w: nat)
    requires w >= 1
    ensures Stride(s + [x], k, w)
         == Stride(s, k, w) + (if k + |Stride(s, k, w)| * w == |s| then [x] else [])
    decreases |s| - k
  {
    if k < |s| {
      var rest := Stride(s, k + w, w);
      StrideSnoc(s, x, k + w, w);
      assert Stride(s, k, w) == [s[k]] + rest;
      assert Stride(s + [x], k, w) == [s[k]] + Stride(s + [x], k + w, w) by {
        assert (s + [x])[k] == s[k];
      }
      MulStep(|rest|, w);
      assert k + |Stride(s, k, w)| * w == (k + w) + |rest| * w;
    } else if k == |s| {
      assert Stride(s + [x], k, w) == [x] + Stride(s + [x], k + w, w);
    }
  }

  /** The stride that starts at N % w has exactly N / w elements. */
  lemma StrideFromRemainder<T>(s: seq<T>, w: nat)
    requires w >= 1
    ensures |Stride(s, |s| % w, w)| == |s| / w
  {
    var k, q := |s| % w, |s| / w;
    var n := |Stride(s, k, w)|;
    assert |s| == q * w + k;
    StrideAt(s, k, w, q);
    if q > 0 {
      StrideAt(s, k, w, q - 1);
      MulStep(q - 1, w);
    }
  }

  /** For k < w, the index one step past the end of s[k::w] is N exactly when k == N % w. */
  lemma StrideEndsAt<T>(s: seq<T>, k: nat, w: nat)
    requires k < w
    ensures k + |Stride(s, k, w)| * w == |s| <==> k == |s| % w
  {
    var n := |Stride(s, k, w)|;
    if k + n * w == |s| {
      DivModUnique(|s|, w, n, k);
    }
    if k == |s| % w {
      StrideFromRemainder(s, w);
      assert |s| == (|s| / w) * w + |s| % w;
    }
  }

  /** The new URL at index N goes to chunk N % w, to the end of it. */
  lemma RoundRobinSnoc<T>(s: seq<T>, x: T, w: int)
    requires w >= 1
    ensures |RoundRobin(s, w)| == w
    ensures RoundRobin(s + [x], w)
         == RoundRobin(s, w)[|s| % w := RoundRobin(s, w)[|s| % w] + [x]]
  {
    var c := |s| % w;
    forall k | 0 <= k < w
      ensures RoundRobin(s + [x], w)[k]
           == (if k == c then RoundRobin(s, w)[k] + [x] else RoundRobin(s, w)[k])
    {
      StrideSnoc(s, x, k, w);
      StrideEndsAt(s, k, w);
    }
  }

  lemma {:induction false} FlattenAppendAt<T>(chunks: seq<seq<T>>, c: int, x: T)
    requires 0 <= c < |chunks|
    ensures multiset(Flatten(chunks[c := chunks[c] + [x]])) == multiset(Flatten(chunks)) + multiset{x}
  {
    var updated := chunks[c := chunks[c] + [x]];
    if c == 0 {
      assert updated[1..] == chunks[1..];
    } else {
      FlattenAppendAt(chunks[1..], c - 1, x);
      assert updated[1..] == chunks[1..][c - 1 := chunks[1..][c - 1] + [x]];
    }
  }

  /**
   * Completeness: the chunks together hold exactly the input, each URL as
   * often as it occurs there, so their lengths add up to N.
   */
  lemma {:induction false} ChunksPartitionInput<T>(s: seq<T>, w: int)
    requires w >= 1
    ensures multiset(Flatten(RoundRobin(s, w))) == multiset(s)
    ensures |Flatten(RoundRobin(s, w))| == |s|
    decreases |s|
  {
    if s == [] {
      forall k | 0 <= k < w ensures RoundRobin(s, w)[k] == [] {
      }
      EmptyChunksFlatten(RoundRobin(s, w));
    } else {
      var init, x := s[..|s| - 1], s[|s| - 1];
      assert s == init + [x];
      ChunksPartitionInput(init, w);
      RoundRobinSnoc(init, x, w);
      FlattenAppendAt(RoundRobin(init, w), |init| % w, x);
    }
    assert |multiset(Flatten(RoundRobin(s, w)))| == |Flatten(RoundRobin(s, w))|;
  }

  lemma {:induction false} EmptyChunksFlatten<T>(chunks: seq<seq<T>>)
    requires forall k :: 0 <= k < |chunks| ==> chunks[k] == []
    ensures Flatten(chunks) == []
  {
    if chunks != [] {
      EmptyChunksFlatten(chunks[1..]);
    }
  }
}
