/** The tile-size vectors of the shared-memory copy distribution:
    the serial "tile to distributable size" plan of the aligned path, the
    per-thread native destination shape, and the thread-level tile sizes
    of the fallback path. A tile size of 0 means "do not tile this loop". */
module TilePlan {
  import opened SeqUtil
  import opened VectorWidth
  import opened Arith

  /** What the aligned path demands of a copy before planning it: an element
      width that fits in one 128-bit transfer, a non-empty static shape of
      positive extents, and an innermost extent that is a whole number of
      vectors. */
  predicate ValidCopyShape(shape: seq<int>, bitWidth: int)
  {
    && 1 <= bitWidth <= CopyVectorNumBits
    && |shape| > 0
    && (forall k :: 0 <= k < |shape| ==> shape[k] >= 1)
    && shape[|shape| - 1] % TargetVectorSize(bitWidth) == 0
  }

  /** Elements one thread handles along dimension `k` of a rank-`n` copy:
      a whole vector innermost, a single element elsewhere. */
  function ElementsPerThread(n: int, v: int, k: int): int
  {
    if k == n - 1 then v else 1
  }

  /** The number of threads dimension `k` of `shape` can occupy. */
  ghost function Chunks(shape: seq<int>, v: int, k: int): int
    requires 0 <= k < |shape| && v >= 1
  {
    shape[k] / ElementsPerThread(|shape|, v, k)
  }

  /** The number of threads a tile-size vector `p` gives to dimension `k`. */
  ghost function Threads(p: seq<int>, v: int, k: int): int
    requires 0 <= k < |p| && v >= 1
  {
    p[k] / ElementsPerThread(|p|, v, k)
  }

  /** Product of the thread counts of dimensions `k` and inner. */
  ghost function ThreadsFrom(p: seq<int>, v: int, k: nat): int
    requires v >= 1
    decreases |p| - k
  {
    if k >= |p| then 1 else Threads(p, v, k) * ThreadsFrom(p, v, k + 1)
  }

  /** Product of the thread counts of the dimensions outer to `k`. */
  ghost function ThreadsBelow(p: seq<int>, v: int, k: nat): int
    requires v >= 1 && k <= |p|
  {
    if k == 0 then 1 else ThreadsBelow(p, v, k - 1) * Threads(p, v, k - 1)
  }

  /** A serial tile-size vector `p` for `shape` that spreads exactly `T`
      threads over the copy: one entry per dimension; the innermost entry is
      a whole number of vectors; each dimension gets between one thread and
      as many as it has chunks; a dimension short of its chunk count has
      only single-thread dimensions outer to it; and the thread counts
      multiply to `T`. */
  ghost predicate IsDistributablePlan(shape: seq<int>, v: int, T: int, p: seq<int>)
  {
    && v >= 1
    && |p| == |shape| > 0
    && p[|p| - 1] % v == 0
    && (forall k :: 0 <= k < |p| ==> 1 <= Threads(p, v, k) <= Chunks(shape, v, k))
    && (forall k :: 0 <= k < |p| ==>
          Threads(p, v, k) == Chunks(shape, v, k) || forall j :: 0 <= j < k ==> p[j] == 1)
    && ThreadsFrom(p, v, 0) == T
  }

  /** Every serial tile of `p` is a full tile: each tile size divides its
      extent, so the tiled copy has the static shape `p` in every tile. A
      partial last tile would have a dynamic shape, which `getIds` does not
      accept. */
  predicate TilesDivide(shape: seq<int>, p: seq<int>)
  {
    && |p| == |shape|
    && forall k :: 0 <= k < |p| ==> p[k] >= 1 && shape[k] % p[k] == 0
  }

  // ---------------------------------------------------------------------
  // Products of thread counts

  lemma {:induction false} ThreadsSplit(p: seq<int>, v: int, k: nat)
    requires v >= 1 && k <= |p|
    ensures ThreadsBelow(p, v, k) * ThreadsFrom(p, v, k) == ThreadsFrom(p, v, 0)
  {
    if k > 0 {
      ThreadsSplit(p, v, k - 1);
      MulAssoc(ThreadsBelow(p, v, k - 1), Threads(p, v, k - 1), ThreadsFrom(p, v, k));
    }
  }

  /** The thread counts of a suffix of `p` are those of `p`: the innermost
      dimension stays innermost. */
  lemma {:induction false} ThreadsFromSuffix(p: seq<int>, v: int, m: nat, j: nat)
    requires v >= 1 && m <= |p|
    ensures ThreadsFrom(p, v, m + j) == ThreadsFrom(p[m..], v, j)
    decreases |p| - m - j
  {
    if m + j < |p| {
      ThreadsFromSuffix(p, v, m, j + 1);
      assert Threads(p, v, m + j) == Threads(p[m..], v, j);
    }
  }

  lemma {:induction false} ThreadsFromPositive(p: seq<int>, v: int, k: nat)
    requires v >= 1
    requires forall j :: k <= j < |p| ==> Threads(p, v, j) >= 1
    ensures ThreadsFrom(p, v, k) >= 1
    decreases |p| - k
  {
    if k < |p| {
      ThreadsFromPositive(p, v, k + 1);
      MulPositive(Threads(p, v, k), ThreadsFrom(p, v, k + 1));
    }
  }

  lemma {:induction false} ThreadsBelowPositive(p: seq<int>, v: int, k: nat)
    requires v >= 1 && k <= |p|
    requires forall j :: 0 <= j < k ==> Threads(p, v, j) >= 1
    ensures ThreadsBelow(p, v, k) >= 1
  {
    if k > 0 {
      ThreadsBelowPositive(p, v, k - 1);
      MulPositive(ThreadsBelow(p, v, k - 1), Threads(p, v, k - 1));
    }
  }

  lemma {:induction false} ThreadsBelowOnes(p: seq<int>, v: int, k: nat)
    requires v >= 1 && k <= |p|
    requires forall j :: 0 <= j < k ==> Threads(p, v, j) == 1
    ensures ThreadsBelow(p, v, k) == 1
  {
    if k > 0 {
      ThreadsBelowOnes(p, v, k - 1);
    }
  }

  // ---------------------------------------------------------------------
  // Properties of plans

  /** A plan is the greedy one: walking from the innermost dimension
      outward, every dimension takes as many of the threads still left as
      its chunk count allows, and that count divides the threads left. */
  lemma PlanIsGreedy(shape: seq<int>, v: int, T: int, p: seq<int>, k: nat)
    requires IsDistributablePlan(shape, v, T, p) && k < |p|
    ensures ThreadsBelow(p, v, k + 1) * ThreadsFrom(p, v, k + 1) == T
    ensures Threads(p, v, k) == Min(Chunks(shape, v, k), ThreadsBelow(p, v, k + 1))
    ensures ThreadsBelow(p, v, k + 1) % Threads(p, v, k) == 0
  {
    ThreadsSplit(p, v, k + 1);
    ThreadsBelowPositive(p, v, k);
    var below, t, c := ThreadsBelow(p, v, k), Threads(p, v, k), Chunks(shape, v, k);
    assert ThreadsBelow(p, v, k + 1) == below * t;
    if t != c {
      forall j | 0 <= j < k ensures Threads(p, v, j) == 1 {
        assert p[j] == 1;
      }
      ThreadsBelowOnes(p, v, k);
    }
    GreedyStep(t, c, below);
  }

  /** One greedy step on plain numbers: `t` threads out of `c` chunks, with
      `below` threads taken by the outer dimensions, all of them 1 unless
      the dimension is full. */
  lemma GreedyStep(t: int, c: int, below: int)
    requires 1 <= t <= c && below >= 1
    requires t == c || below == 1
    ensures Min(c, below * t) == t
    ensures (below * t) % t == 0
  {
    MulPositive(below, t);
    MulMono(1, below, t);
    MulDivCancel(below, t);
  }

  /** A shape has at most one plan for a given thread count. */
  lemma PlanUnique(shape: seq<int>, v: int, T: int, p: seq<int>, q: seq<int>)
    requires IsDistributablePlan(shape, v, T, p)
    requires IsDistributablePlan(shape, v, T, q)
    ensures p == q
  {
    PlanSuffixUnique(shape, v, T, p, q, 0);
  }

  lemma {:induction false} PlanSuffixUnique(shape: seq<int>, v: int, T: int, p: seq<int>, q: seq<int>, k: nat)
    requires IsDistributablePlan(shape, v, T, p)
    requires IsDistributablePlan(shape, v, T, q)
    requires k <= |p|
    ensures p[k..] == q[k..]
    decreases |p| - k
  {
    if k < |p| {
      PlanSuffixUnique(shape, v, T, p, q, k + 1);
      PlanNextAgrees(shape, v, T, p, q, k);
      assert p[k..] == [p[k]] + p[k + 1..];
      assert q[k..] == [q[k]] + q[k + 1..];
    }
  }

  /** Two plans that agree on the dimensions inner to `k` agree on `k`. */
  lemma PlanNextAgrees(shape: seq<int>, v: int, T: int, p: seq<int>, q: seq<int>, k: nat)
    requires IsDistributablePlan(shape, v, T, p)
    requires IsDistributablePlan(shape, v, T, q)
    requires k < |p| && p[k + 1..] == q[k + 1..]
    ensures p[k] == q[k]
  {
    ThreadsFromSuffix(p, v, k + 1, 0);
    ThreadsFromSuffix(q, v, k + 1, 0);
    PlanIsGreedy(shape, v, T, p, k);
    PlanIsGreedy(shape, v, T, q, k);
    ThreadsFromPositive(p, v, k + 1);
    MulCancel(ThreadsBelow(p, v, k + 1), ThreadsBelow(q, v, k + 1), ThreadsFrom(p, v, k + 1));
    TileFromThreads(p, v, k);
    TileFromThreads(q, v, k);
  }

  /** A tile size is its thread count times the elements per thread. */
  lemma TileFromThreads(p: seq<int>, v: int, k: nat)
    requires v >= 1 && k < |p| && p[|p| - 1] % v == 0
    ensures p[k] == Threads(p, v, k) * ElementsPerThread(|p|, v, k)
  {
    if k == |p| - 1 {
      DivModUnique(p[k], v, p[k] / v, 0);
    }
  }

  /** A plan's tile sizes stay within the shape, and its innermost tile
      is a positive number of whole vectors. */
  lemma PlanBounds(shape: seq<int>, v: int, T: int, p: seq<int>)
    requires IsDistributablePlan(shape, v, T, p)
    requires forall k :: 0 <= k < |shape| ==> shape[k] >= 1
    ensures forall k :: 0 <= k < |p| ==> 1 <= p[k] <= shape[k]
    ensures p[|p| - 1] >= v && p[|p| - 1] % v == 0
  {
    var n := |p|;
    InnermostBounds(shape, v, T, p);
    forall k | 0 <= k < n - 1 ensures 1 <= p[k] <= shape[k] {
      assert Threads(p, v, k) == p[k] && Chunks(shape, v, k) == shape[k];
    }
  }

  /** The innermost tile is a whole number of vectors, at least one, within
      the innermost extent. */
  lemma InnermostBounds(shape: seq<int>, v: int, T: int, p: seq<int>)
    requires IsDistributablePlan(shape, v, T, p)
    ensures v <= p[|p| - 1] <= shape[|p| - 1]
  {
    var n := |p|;
    var t, c := Threads(p, v, n - 1), Chunks(shape, v, n - 1);
    assert t == p[n - 1] / v && c == shape[n - 1] / v;
    WholeVectors(p[n - 1], shape[n - 1], v, t, c);
  }

  /** A tile of `t` whole vectors, out of the `c` whole vectors of the
      extent, lies between one vector and the extent. */
  lemma WholeVectors(tile: int, extent: int, v: int, t: int, c: int)
    requires v >= 1 && tile % v == 0
    requires t == tile / v && c == extent / v && 1 <= t <= c
    ensures v <= tile <= extent
  {
    assert tile == t * v;
    assert c * v <= extent;
    MulMono(1, t, v);
    MulMono(t, c, v);
  }

  /** When the innermost dimension alone has a chunk for every thread, the
      plan gives all threads to it and leaves the outer dimensions at 1. */
  lemma InnermostTakesAll(shape: seq<int>, bitWidth: int, T: int)
    requires ValidCopyShape(shape, bitWidth) && T >= 1
    requires shape[|shape| - 1] / TargetVectorSize(bitWidth) >= T
    ensures IsDistributablePlan(shape, TargetVectorSize(bitWidth), T,
                                Ones(|shape| - 1) + [T * TargetVectorSize(bitWidth)])
  {
    var v, n := TargetVectorSize(bitWidth), |shape|;
    var p := Ones(n - 1) + [T * v];
    MulDivCancel(T, v);
    assert Threads(p, v, n - 1) == T;
    forall k | 0 <= k < n - 1 ensures Threads(p, v, k) == 1 {
      assert p[k] == 1;
    }
    ThreadsBelowOnes(p, v, n - 1);
    ThreadsSplit(p, v, n - 1);
    assert ThreadsFrom(p, v, n) == 1;
  }

  /** A shape of 4 x 128 32-bit elements over 64 threads: the innermost
      dimension has 32 vectors and takes 32 threads, the outer one takes
      the 2 threads left. */
  lemma PlanExample()
    ensures IsDistributablePlan([4, 128], TargetVectorSize(32), 64, [2, 128])
  {
    var p := [2, 128];
    assert TargetVectorSize(32) == 4;
    assert Threads(p, 4, 1) == 32 && Threads(p, 4, 0) == 2;
    assert ThreadsFrom(p, 4, 2) == 1;
  }

  // ---------------------------------------------------------------------
  // getTileToDistributableSize

  /** The serial tile sizes that cut a copy into pieces of exactly
      `flatWorkgroupSize` vector-wide thread chunks. The loop walks the
      dimensions from innermost to outermost, gives each as many of the
      remaining threads as it has chunks, and stops once one thread is left;
      the dimensions it did not reach get tile size 1. The two internal
      assertions of the walk (the count must divide the remaining threads,
      and exactly one thread must be left at the end) are the `None` result.
      The result is the unique plan of the shape, or `None` when it has none. */
  method GetTileToDistributableSize(shape: seq<int>, bitWidth: int, flatWorkgroupSize: int)
    returns (r: Option<seq<int>>)
    requires ValidCopyShape(shape, bitWidth)
    requires flatWorkgroupSize >= 1
    ensures r.Some? ==> IsDistributablePlan(shape, TargetVectorSize(bitWidth), flatWorkgroupSize, r.value)
    ensures r.None? ==> forall p :: !IsDistributablePlan(shape, TargetVectorSize(bitWidth), flatWorkgroupSize, p)
  {
    var n := |shape|;
    var targetVectorSize := TargetVectorSize(bitWidth);
    var unroll: seq<int> := [];
    var threadsAvailable := flatWorkgroupSize;
    var i := 0;
    ghost var s: seq<int> := [];
    while i < n
      invariant 0 <= i <= n && |unroll| == i && s == Reverse(unroll)
      invariant WalkInvariant(shape, targetVectorSize, flatWorkgroupSize, s, threadsAvailable)
      invariant i > 0 ==> threadsAvailable != 1
    {
      var dim := shape[n - 1 - i];
      var numElementPerThread := if i == 0 then targetVectorSize else 1;
      var numThreads := dim / numElementPerThread;
      numThreads := Min(numThreads, threadsAvailable);
      assert numThreads == NextThreads(shape, targetVectorSize, s, threadsAvailable);
      WalkStepBounds(shape, targetVectorSize, s, threadsAvailable);
      unroll := unroll + [numThreads * numElementPerThread];
      ReverseSnoc(unroll[..i], numThreads * numElementPerThread);
      assert unroll[..i] + [numThreads * numElementPerThread] == unroll;
      if threadsAvailable % numThreads != 0 {
        WalkStepStuck(shape, targetVectorSize, flatWorkgroupSize, s, threadsAvailable);
        return None;
      }
      WalkStep(shape, targetVectorSize, flatWorkgroupSize, s, threadsAvailable);
      s := [numThreads * numElementPerThread] + s;
      threadsAvailable := threadsAvailable / numThreads;
      i := i + 1;
      if threadsAvailable == 1 {
        break;
      }
    }
    if threadsAvailable != 1 {
      WalkExhausted(shape, targetVectorSize, flatWorkgroupSize, s, threadsAvailable);
      return None;
    }
    var padded := unroll + Ones(n - |unroll|);
    ReverseAppend(unroll, Ones(n - |unroll|));
    ReverseOnes(n - |unroll|);
    WalkDone(shape, targetVectorSize, flatWorkgroupSize, s);
    r := Some(Reverse(padded));
  }

  lemma ReverseOnes(n: nat)
    ensures Reverse(Ones(n)) == Ones(n)
  {
    forall k | 0 <= k < n ensures Reverse(Ones(n))[k] == 1 {
      ReverseAt(Ones(n), k);
    }
  }

  /** The state of the walk after `|s|` dimensions: `s` holds the tile sizes
      of the innermost `|s|` dimensions, every one of them got its full chunk
      count except possibly the last one reached (then no thread is left),
      the remaining threads times those handed out make `T`, and every plan
      of the shape ends in `s`. */
  ghost predicate WalkInvariant(shape: seq<int>, v: int, T: int, s: seq<int>, avail: int)
  {
    && v >= 1 && |s| <= |shape|
    && avail >= 1
    && avail * ThreadsFrom(s, v, 0) == T
    && (|s| > 0 ==> s[|s| - 1] % v == 0)
    && (forall j :: 0 <= j < |s| ==>
          1 <= Threads(s, v, j) <= Chunks(shape, v, |shape| - |s| + j))
    && (forall j :: 0 < j < |s| ==> Threads(s, v, j) == Chunks(shape, v, |shape| - |s| + j))
    && (|s| > 0 && Threads(s, v, 0) != Chunks(shape, v, |shape| - |s|) ==> avail == 1)
    && (forall p :: IsDistributablePlan(shape, v, T, p) ==> p[|shape| - |s|..] == s)
  }

  /** The walk before the next dimension, on a shape the walk accepts. */
  ghost predicate ValidWalk(shape: seq<int>, v: int, T: int, s: seq<int>, avail: int)
  {
    && WalkInvariant(shape, v, T, s, avail)
    && |s| < |shape|
    && (forall k :: 0 <= k < |shape| ==> shape[k] >= 1)
    && shape[|shape| - 1] % v == 0
  }

  /** Threads the walk hands to the next dimension. */
  ghost function NextThreads(shape: seq<int>, v: int, s: seq<int>, avail: int): int
    requires |s| < |shape| && v >= 1
  {
    var k := |shape| - 1 - |s|;
    Min(shape[k] / ElementsPerThread(|shape|, v, k), avail)
  }

  /** The tile size the walk pushes for the next dimension. */
  ghost function NextTile(shape: seq<int>, v: int, s: seq<int>, avail: int): int
    requires |s| < |shape| && v >= 1
  {
    NextThreads(shape, v, s, avail) * ElementsPerThread(|shape|, v, |shape| - 1 - |s|)
  }

  /** The next dimension always gets at least one thread. */
  lemma WalkStepBounds(shape: seq<int>, v: int, s: seq<int>, avail: int)
    requires |s| < |shape| && v >= 1 && avail >= 1
    requires forall k :: 0 <= k < |shape| ==> shape[k] >= 1
    requires shape[|shape| - 1] % v == 0
    ensures 1 <= NextThreads(shape, v, s, avail) <= avail
    ensures NextThreads(shape, v, s, avail) <= Chunks(shape, v, |shape| - 1 - |s|)
  {
    var k := |shape| - 1 - |s|;
    if k == |shape| - 1 {
      DivModUnique(shape[k], v, shape[k] / v, 0);
      MulSign(shape[k] / v, v);
    }
  }

  /** The threads left before dimension `|shape| - |s|` are, for every plan,
      the threads its outer dimensions take. */
  lemma WalkAvailIsBelow(shape: seq<int>, v: int, T: int, s: seq<int>, avail: int, p: seq<int>)
    requires WalkInvariant(shape, v, T, s, avail)
    requires IsDistributablePlan(shape, v, T, p)
    ensures p[|shape| - |s|..] == s
    ensures ThreadsBelow(p, v, |shape| - |s|) == avail
  {
    var m := |shape| - |s|;
    ThreadsSplit(p, v, m);
    ThreadsFromSuffix(p, v, m, 0);
    ThreadsFromPositive(p, v, m);
    MulCancel(avail, ThreadsBelow(p, v, m), ThreadsFrom(p, v, m));
  }

  /** Every plan's tile size for the next dimension is the walk's, and the
      walk's thread count for it divides the threads left. */
  lemma WalkNextAgrees(shape: seq<int>, v: int, T: int, s: seq<int>, avail: int, p: seq<int>)
    requires ValidWalk(shape, v, T, s, avail)
    requires IsDistributablePlan(shape, v, T, p)
    ensures p[|shape| - 1 - |s|..] == [NextTile(shape, v, s, avail)] + s
    ensures avail % NextThreads(shape, v, s, avail) == 0
  {
    var m := |shape| - |s|;
    WalkAvailIsBelow(shape, v, T, s, avail, p);
    PlanIsGreedy(shape, v, T, p, m - 1);
    assert Threads(p, v, m - 1) == NextThreads(shape, v, s, avail);
    TileFromThreads(p, v, m - 1);
    assert p[m - 1..] == [p[m - 1]] + p[m..];
  }

  /** When the assertion on divisibility fails, the shape has no plan. */
  lemma WalkStepStuck(shape: seq<int>, v: int, T: int, s: seq<int>, avail: int)
    requires ValidWalk(shape, v, T, s, avail)
    requires avail % NextThreads(shape, v, s, avail) != 0
    ensures forall p :: !IsDistributablePlan(shape, v, T, p)
  {
    forall p | IsDistributablePlan(shape, v, T, p) ensures false {
      WalkNextAgrees(shape, v, T, s, avail, p);
    }
  }

  /** The thread counts after one step: the new head, then the old ones. */
  lemma WalkStepThreads(shape: seq<int>, v: int, s: seq<int>, x: int, nt: int)
    requires |s| < |shape| && v >= 1
    requires x == nt * ElementsPerThread(|shape|, v, |shape| - 1 - |s|)
    ensures Threads([x] + s, v, 0) == nt
    ensures forall j :: 0 < j <= |s| ==> Threads([x] + s, v, j) == Threads(s, v, j - 1)
    ensures ThreadsFrom([x] + s, v, 0) == nt * ThreadsFrom(s, v, 0)
  {
    MulDivCancel(nt, ElementsPerThread(|shape|, v, |shape| - 1 - |s|));
    ThreadsFromSuffix([x] + s, v, 1, 0);
    assert ([x] + s)[1..] == s;
  }

  /** The thread product after one step. */
  lemma WalkStepProduct(T: int, avail: int, nt: int, rest: int)
    requires 1 <= nt && avail >= 1 && avail % nt == 0 && avail * rest == T
    ensures avail / nt >= 1 && (avail / nt) * (nt * rest) == T
  {
    DivModUnique(avail, nt, avail / nt, 0);
    MulSign(avail / nt, nt);
    MulAssoc(avail / nt, nt, rest);
  }

  /** One step of the walk keeps its invariant. */
  lemma WalkStep(shape: seq<int>, v: int, T: int, s: seq<int>, avail: int)
    requires ValidWalk(shape, v, T, s, avail)
    requires |s| > 0 ==> avail != 1
    requires avail % NextThreads(shape, v, s, avail) == 0
    ensures WalkInvariant(shape, v, T, [NextTile(shape, v, s, avail)] + s,
                          avail / NextThreads(shape, v, s, avail))
  {
    var n, k := |shape|, |shape| - 1 - |s|;
    var nt := NextThreads(shape, v, s, avail);
    var x := NextTile(shape, v, s, avail);
    var s' := [x] + s;
    WalkStepBounds(shape, v, s, avail);
    WalkStepThreads(shape, v, s, x, nt);
    WalkStepProduct(T, avail, nt, ThreadsFrom(s, v, 0));
    if nt != Chunks(shape, v, k) {
      assert nt == avail;
      MulDivCancel(1, nt);
    }
    if k == n - 1 {
      MulDivCancel(nt, v);
    }
    forall p | IsDistributablePlan(shape, v, T, p) ensures p[n - |s'|..] == s' {
      WalkNextAgrees(shape, v, T, s, avail, p);
    }
  }

  /** Walking every dimension without using up the threads means no plan. */
  lemma WalkExhausted(shape: seq<int>, v: int, T: int, s: seq<int>, avail: int)
    requires WalkInvariant(shape, v, T, s, avail)
    requires |s| == |shape| > 0 && avail != 1
    ensures forall p :: !IsDistributablePlan(shape, v, T, p)
  {
    forall p | IsDistributablePlan(shape, v, T, p) ensures false {
      WalkAvailIsBelow(shape, v, T, s, avail, p);
    }
  }

  /** A walk that has used up the threads, padded outward with ones, is a plan. */
  lemma WalkDone(shape: seq<int>, v: int, T: int, s: seq<int>)
    requires WalkInvariant(shape, v, T, s, 1)
    requires 0 < |s| <= |shape|
    requires forall k :: 0 <= k < |shape| ==> shape[k] >= 1
    ensures IsDistributablePlan(shape, v, T, Ones(|shape| - |s|) + s)
  {
    var n, m := |shape|, |shape| - |s|;
    var p := Ones(m) + s;
    PaddedThreads(shape, v, s, p);
    forall k | 0 <= k < n
      ensures 1 <= Threads(p, v, k) <= Chunks(shape, v, k)
      ensures Threads(p, v, k) == Chunks(shape, v, k) || forall j :: 0 <= j < k ==> p[j] == 1
    {
      if k < m {
        assert Chunks(shape, v, k) == shape[k];
      } else {
        assert Threads(p, v, k) == Threads(s, v, k - m);
      }
    }
    assert p[n - 1] == s[|s| - 1];
  }

  /** The thread counts of a walk padded outward with ones. */
  lemma PaddedThreads(shape: seq<int>, v: int, s: seq<int>, p: seq<int>)
    requires v >= 1 && 0 < |s| <= |shape|
    requires p == Ones(|shape| - |s|) + s
    ensures forall k :: 0 <= k < |shape| - |s| ==> p[k] == 1 && Threads(p, v, k) == 1
    ensures forall k :: |shape| - |s| <= k < |shape| ==> Threads(p, v, k) == Threads(s, v, k - (|shape| - |s|))
    ensures ThreadsFrom(p, v, 0) == ThreadsFrom(s, v, 0)
  {
    var m := |shape| - |s|;
    assert p[m..] == s;
    forall k | 0 <= k < m ensures p[k] == 1 && Threads(p, v, k) == 1 {
      assert p[k] == Ones(m)[k];
    }
    forall k | m <= k < |shape| ensures Threads(p, v, k) == Threads(s, v, k - m) {
      assert p[k] == s[k - m];
    }
    ThreadsBelowOnes(p, v, m);
    ThreadsSplit(p, v, m);
    ThreadsFromSuffix(p, v, m, 0);
    assert ThreadsFrom(p, v, 0) == 1 * ThreadsFrom(s, v, 0);
  }

  // ---------------------------------------------------------------------
  // getNativeDstShape

  /** The per-thread shape of a distributed copy: dimensions of extent 1 are
      not tiled (0), every other dimension but the innermost gets one element
      per thread (1), and the innermost always gets a whole vector. */
  predicate IsNativeDstShape(shape: seq<int>, v: int, tiles: seq<int>)
  {
    && |tiles| == |shape| > 0
    && (forall k :: 0 <= k < |shape| - 1 ==> tiles[k] == (if shape[k] == 1 then 0 else 1))
    && tiles[|shape| - 1] == v
  }

  method GetNativeDstShape(shape: seq<int>, bitWidth: int) returns (dstShape: seq<int>)
    requires |shape| > 0 && bitWidth >= 1
    ensures IsNativeDstShape(shape, TargetVectorSize(bitWidth), dstShape)
  {
    var targetVectorSize := TargetVectorSize(bitWidth);
    dstShape := [];
    for k := 0 to |shape|
      invariant |dstShape| == k
      invariant forall j :: 0 <= j < k ==> dstShape[j] == (if shape[j] == 1 then 0 else 1)
    {
      dstShape := dstShape + [if shape[k] == 1 then 0 else 1];
    }
    dstShape := dstShape[|shape| - 1 := targetVectorSize];
  }

  // ---------------------------------------------------------------------
  // Thread-level tile sizes of the fallback path

  /** The number of non-zero entries, i.e. of loops that get tiled. */
  function CountNonZero(s: seq<int>): (c: nat)
    ensures c <= |s|
  {
    if s == [] then 0 else (if s[0] != 0 then 1 else 0) + CountNonZero(s[1..])
  }

  lemma {:induction false} CountNonZeroSuffix(s: seq<int>, c: nat)
    requires c <= |s|
    requires forall i :: 0 <= i < |s| ==> (s[i] != 0 <==> i >= |s| - c)
    ensures CountNonZero(s) == c
  {
    if s != [] {
      if c == |s| {
        CountNonZeroSuffix(s[1..], c - 1);
      } else {
        CountNonZeroSuffix(s[1..], c);
      }
    }
  }

  /** The fallback tile sizes of a copy of rank `rank`: one element per
      thread on the dimensions that map onto the three GPU thread
      dimensions, no tiling outer to them, and a whole vector innermost. So
      exactly the innermost `min(rank, NumGPUDims)` dimensions are tiled
      when the element type fits in a vector. */
  method GetThreadTileSizes(rank: int, bitWidth: int) returns (tileSizes: seq<int>)
    requires rank >= 1 && bitWidth >= 1
    ensures |tileSizes| == rank
    ensures forall i :: 0 <= i < rank - 1 ==> tileSizes[i] == (if rank - i <= NumGPUDims then 1 else 0)
    ensures tileSizes[rank - 1] == TargetVectorSize(bitWidth)
    ensures bitWidth <= CopyVectorNumBits ==>
              forall i :: 0 <= i < rank ==> (tileSizes[i] != 0 <==> rank - i <= NumGPUDims)
    ensures bitWidth <= CopyVectorNumBits ==> CountNonZero(tileSizes) == Min(rank, NumGPUDims)
  {
    var copyTileSize := TargetVectorSize(bitWidth);
    tileSizes := [];
    var i := 0;
    while i < rank - 1
      invariant 0 <= i <= rank - 1 && |tileSizes| == i
      invariant forall j :: 0 <= j < i ==> tileSizes[j] == (if rank - j <= NumGPUDims then 1 else 0)
    {
      var t := if rank - i <= NumGPUDims then 1 else 0;
      tileSizes := tileSizes + [t];
      i := i + 1;
    }
    tileSizes := tileSizes + [copyTileSize];
    if bitWidth <= CopyVectorNumBits {
      CountNonZeroSuffix(tileSizes, Min(rank, NumGPUDims));
    }
  }
}
