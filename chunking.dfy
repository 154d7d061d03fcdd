/**
 * How `run_crawlers` cuts the claimed batch into worker chunks: it appends
 * URLs to `temp` and emits `temp` as a chunk as soon as
 * `len(temp) >= len(urls_to_crawl) / max_threads`, stopping after
 * `max_threads` chunks. Every chunk then has the same length, and a
 * trailing partial chunk is never emitted.
 */
module Chunking {

  /** The float test `len(temp) >= n / t` of the chunk loop, on exact reals. */
  predicate ReachedChunkMax(len: nat, n: nat, t: nat)
    requires t >= 1
  {
    (len as real) >= (n as real) / (t as real)
  }

  /** For `t >= 1` the division test is the integer cross-multiplication. */
  lemma ReachedChunkMaxIff(len: nat, n: nat, t: nat)
    requires t >= 1
    ensures ReachedChunkMax(len, n, t) <==> len * t >= n
  {
    var q := (n as real) / (t as real);
    assert q * (t as real) == n as real;
    assert (len * t) as real == (len as real) * (t as real);
    if (len as real) >= q {
      assert (len as real) * (t as real) >= q * (t as real);
    }
    if len * t >= n {
      assert (len as real) * (t as real) >= q * (t as real);
    }
  }

  /** The length every chunk gets: `max(1, ceil(n / t))`. */
  function ChunkSize(n: nat, t: nat): (k: nat)
    requires t >= 1
    ensures k >= 1
  {
    if n == 0 then 1 else (n + t - 1) / t
  }

  /** `ChunkSize(n, t)` is the least positive `k` with `k * t >= n`; for a
      non-empty batch it is at most the batch length. */
  lemma ChunkSizeCovers(n: nat, t: nat)
    requires t >= 1
    ensures var k := ChunkSize(n, t);
      k * t >= n && (k == 1 || (k - 1) * t < n) && (n >= 1 ==> k <= n)
  {
    if n != 0 {
      var k := (n + t - 1) / t;
      var r := (n + t - 1) % t;
      assert n + t - 1 == k * t + r && 0 <= r < t;
      assert (k - 1) * t == k * t - t;
      if k > n {
        // Then k * t >= (n + 1) * t >= n + t, more than n + t - 1.
        MulMonotone(n + 1, k, t);
        assert (n + 1) * t == n * t + t;
        MulMonotone(1, t, n);
        assert false;
      }
    }
  }

  /** No positive length below `ChunkSize` passes the test. */
  lemma ChunkSizeLeast(n: nat, t: nat, j: nat)
    requires t >= 1 && j >= 1 && j * t >= n
    ensures ChunkSize(n, t) <= j
  {
    var k := ChunkSize(n, t);
    ChunkSizeCovers(n, t);
    MulMonotone(j, k - 1, t);
  }

  lemma MulMonotone(a: int, b: int, t: nat)
    ensures a <= b ==> a * t <= b * t
  {
    assert b * t == a * t + (b - a) * t;
    if a <= b {
      assert (b - a) * t >= 0;
    }
  }

  /** While `temp` is no longer than a chunk, the test passes exactly when
      `temp` has reached the chunk length. */
  lemma ReachedChunkMaxAtSize(len: nat, n: nat, t: nat)
    requires t >= 1 && 1 <= len <= ChunkSize(n, t)
    ensures ReachedChunkMax(len, n, t) <==> len == ChunkSize(n, t)
  {
    ReachedChunkMaxIff(len, n, t);
    ChunkSizeCovers(n, t);
    if len * t >= n {
      ChunkSizeLeast(n, t, len);
    }
  }

  /** All the chunks, in order, glued back together. */
  function Flatten<T>(cs: seq<seq<T>>): seq<T> {
    if cs == [] then [] else cs[0] + Flatten(cs[1..])
  }

  lemma {:induction false} FlattenAppend<T>(cs: seq<seq<T>>, c: seq<T>)
    ensures Flatten(cs + [c]) == Flatten(cs) + c
  {
    if cs == [] {
      assert [c][1..] == [];
    } else {
      assert (cs + [c])[1..] == cs[1..] + [c];
      FlattenAppend(cs[1..], c);
    }
  }

  lemma {:induction false} FlattenLength<T>(cs: seq<seq<T>>, k: nat)
    requires forall j :: 0 <= j < |cs| ==> |cs[j]| == k
    ensures |Flatten(cs)| == |cs| * k
  {
    if cs != [] {
      FlattenLength(cs[1..], k);
    }
  }

  /** Up to `budget` chunks of exactly `k` elements from the front of `s`. */
  function TakeChunks<T>(s: seq<T>, k: nat, budget: nat): seq<seq<T>>
    requires k >= 1
    decreases budget
  {
    if budget == 0 || |s| < k then [] else [s[..k]] + TakeChunks(s[k..], k, budget - 1)
  }

  /** At most `budget` chunks, each of length `k`, together a prefix of `s`;
      unless the budget is used up, fewer than `k` elements are left over. */
  lemma {:induction false} TakeChunksShape<T>(s: seq<T>, k: nat, budget: nat)
    requires k >= 1
    ensures var cs := TakeChunks(s, k, budget);
      && |cs| <= budget
      && (forall j :: 0 <= j < |cs| ==> |cs[j]| == k)
      && |Flatten(cs)| <= |s| && Flatten(cs) == s[..|Flatten(cs)|]
      && (|cs| < budget ==> |s| - |Flatten(cs)| < k)
    decreases budget
  {
    if budget != 0 && |s| >= k {
      var rest := TakeChunks(s[k..], k, budget - 1);
      TakeChunksShape(s[k..], k, budget - 1);
      var cs := [s[..k]] + rest;
      assert cs[1..] == rest;
      assert Flatten(cs) == s[..k] + Flatten(rest);
      assert s[..k] + s[k..][..|Flatten(rest)|] == s[..k + |Flatten(rest)|];
    }
  }

  /** The chunks `run_crawlers` hands to the workers for a batch `s` and
      `t` threads. */
  function Chunks<T>(s: seq<T>, t: nat): seq<seq<T>>
    requires t >= 1
  {
    TakeChunks(s, ChunkSize(|s|, t), t)
  }

  /** At most `t` chunks, each of length `ChunkSize(|s|, t)`, together a
      prefix of `s` that leaves fewer than `ChunkSize(|s|, t)` elements
      uncovered, and none at all when the count reaches `t`. An empty batch
      gives no chunks, any other batch at least one. */
  lemma ChunksShape<T>(s: seq<T>, t: nat)
    requires t >= 1
    ensures var cs := Chunks(s, t);
      && |cs| <= t
      && (forall j :: 0 <= j < |cs| ==> |cs[j]| == ChunkSize(|s|, t))
      && |Flatten(cs)| <= |s| && Flatten(cs) == s[..|Flatten(cs)|]
      && |s| - |Flatten(cs)| < ChunkSize(|s|, t)
      && (|cs| == t ==> Flatten(cs) == s)
      && (cs == [] <==> s == [])
  {
    var k := ChunkSize(|s|, t);
    var cs := Chunks(s, t);
    TakeChunksShape(s, k, t);
    FlattenLength(cs, k);
    ChunkSizeCovers(|s|, t);
    assert s != [] ==> |s| >= k;
  }

  /** Emitting the full `temp == urls[start..i]` moves one chunk from the
      chunks still to come to the chunks already emitted. */
  lemma EmitStep<T>(urls: seq<T>, start: nat, i: nat, k: nat, budget: nat,
                    done: seq<seq<T>>, target: seq<seq<T>>)
    requires k >= 1 && budget >= 1 && start + k == i <= |urls|
    requires done + TakeChunks(urls[start..], k, budget) == target
    ensures (done + [urls[start..i]]) + TakeChunks(urls[i..], k, budget - 1) == target
  {
    var rest := urls[start..];
    assert rest[..k] == urls[start..i] && rest[k..] == urls[i..];
  }

  /** The chunk loop of `run_crawlers` (main.py:317-326). */
  method SplitIntoChunks<T>(urls: seq<T>, maxThreads: int) returns (chunks: seq<seq<T>>)
    requires maxThreads >= 1
    ensures chunks == Chunks(urls, maxThreads)
  {
    var n := |urls|;
    ghost var k := ChunkSize(n, maxThreads);
    chunks := [];
    var temp: seq<T> := [];
    var i := 0;
    ghost var start := 0;
    ghost var target := Chunks(urls, maxThreads);
    assert urls[0..] == urls;
    while i < n
      invariant 0 <= start <= i <= n
      invariant temp == urls[start..i]
      invariant |temp| < k
      invariant |chunks| < maxThreads
      invariant chunks + TakeChunks(urls[start..], k, maxThreads - |chunks|) == target
    {
      temp := temp + [urls[i]];
      i := i + 1;
      assert temp == urls[start..i];
      ReachedChunkMaxAtSize(|temp|, n, maxThreads);
      if ReachedChunkMax(|temp|, n, maxThreads) {
        EmitStep(urls, start, i, k, maxThreads - |chunks|, chunks, target);
        chunks := chunks + [temp];
        temp := [];
        start := i;
        if |chunks| == maxThreads {
          break;
        }
      }
    }
    assert TakeChunks(urls[start..], k, maxThreads - |chunks|) == [];
    assert chunks + [] == chunks;
  }

  /** The partition that leaves nothing out: chunks of `k` elements
      where a shorter last chunk takes the remainder, so that nothing is left
      over. */
  function CeilChunks<T>(s: seq<T>, k: nat): (cs: seq<seq<T>>)
    requires k >= 1
    ensures forall j :: 0 <= j < |cs| ==> 0 < |cs[j]| <= k
    ensures Flatten(cs) == s
  {
    if s == [] then []
    else if |s| <= k then
      assert [s][1..] == [];
      [s]
    else
      var cs := [s[..k]] + CeilChunks(s[k..], k);
      assert cs[1..] == CeilChunks(s[k..], k);
      cs
  }

  lemma {:induction false} TakeChunksCoveringIsCeil<T>(s: seq<T>, k: nat, budget: nat)
    requires k >= 1 && Flatten(TakeChunks(s, k, budget)) == s
    ensures TakeChunks(s, k, budget) == CeilChunks(s, k)
    decreases budget
  {
    if budget != 0 && |s| >= k {
      TakeChunksShape(s[k..], k, budget - 1);
      var rest := TakeChunks(s[k..], k, budget - 1);
      assert ([s[..k]] + rest)[1..] == rest;
      assert Flatten(rest) == s[k..];
      TakeChunksCoveringIsCeil(s[k..], k, budget - 1);
      if |s| == k {
        assert s[k..] == [];
        assert s[..k] == s;
      }
    }
  }

  /** The chunks of `run_crawlers` are the ceiling partition exactly when
      they cover the whole batch. */
  lemma ChunksMatchCeilIffCovering<T>(s: seq<T>, t: nat)
    requires t >= 1
    ensures Chunks(s, t) == CeilChunks(s, ChunkSize(|s|, t)) <==> Flatten(Chunks(s, t)) == s
  {
    if Flatten(Chunks(s, t)) == s {
      TakeChunksCoveringIsCeil(s, ChunkSize(|s|, t), t);
    }
  }

  /** When the batch length is a multiple `m * k` of the chunk length, no
      element is dropped and the two partitions agree. */
  lemma ChunksMatchCeilOnMultiple<T>(s: seq<T>, t: nat, m: nat)
    requires t >= 1 && |s| == m * ChunkSize(|s|, t)
    ensures Flatten(Chunks(s, t)) == s
    ensures Chunks(s, t) == CeilChunks(s, ChunkSize(|s|, t))
  {
    var k := ChunkSize(|s|, t);
    var cs := Chunks(s, t);
    ChunksShape(s, t);
    FlattenLength(cs, k);
    CoverAtLeastMultiple(|s|, |cs|, m, k);
    ChunksMatchCeilIffCovering(s, t);
  }

  /** If `n == m * k` and `c * k` falls short of `n` by less than `k`, then
      `c * k` reaches `n`. */
  lemma CoverAtLeastMultiple(n: nat, c: nat, m: nat, k: nat)
    requires k >= 1 && n == m * k && c * k <= n && n - c * k < k
    ensures c * k == n
  {
    MulMonotone(c, m - 1, k);
    MulMonotone(m + 1, c, k);
    assert (m - 1) * k == n - k;
    assert (m + 1) * k == n + k;
  }

  /** Ten URLs on four threads give three chunks of three: the tenth URL is
      not handed to any worker. */
  lemma TenOnFourDropsOne<T>(s: seq<T>)
    requires |s| == 10
    ensures ChunkSize(10, 4) == 3
    ensures |Chunks(s, 4)| == 3 && Flatten(Chunks(s, 4)) == s[..9]
  {
    var cs := Chunks(s, 4);
    ChunksShape(s, 4);
    FlattenLength(cs, 3);
  }
}
