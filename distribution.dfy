/** How the stages of the aligned path fit together: once a copy is tiled to
    a distributable plan, tiling it again by its native destination shape
    gives parallel loops whose thread counts multiply to the flat workgroup
    size, so every thread of the workgroup gets one in-range processor id
    per loop. */
module Distribution {
  import opened Arith
  import opened VectorWidth
  import opened TilePlan
  import opened ProcIds

  /** The parallel loops tiling produces for extents `p` and tile sizes
      `tiles`, for dimensions `k` and inner: one loop `0 .. p[k]` with step
      `tiles[k]` per tiled dimension; a tile size of 0 leaves the dimension
      untiled. Its own contract only keeps indices in range; the property
      it serves is proved in `DistributedThreads` and `EveryThreadInRange`. */
  function TiledRanges(p: seq<int>, tiles: seq<int>, k: nat): (r: seq<Range>)
    requires |tiles| == |p| && k <= |p|
    ensures |r| <= |p| - k
    decreases |p| - k
  {
    if k == |p| then []
    else (if tiles[k] == 0 then [] else [Range(0, p[k], tiles[k])]) + TiledRanges(p, tiles, k + 1)
  }

  /** The loop of a tiled dimension has as many threads as the plan gives
      that dimension. */
  lemma TiledDimProcs(shape: seq<int>, v: int, T: int, p: seq<int>, tiles: seq<int>, k: nat)
    requires IsDistributablePlan(shape, v, T, p) && IsNativeDstShape(p, v, tiles)
    requires k < |p| && tiles[k] != 0
    ensures NumProcs(Range(0, p[k], tiles[k])) == Threads(p, v, k)
    ensures Threads(p, v, k) >= 1
  {
    InnermostBounds(shape, v, T, p);
    assert Threads(p, v, k) >= 1;
    if k < |p| - 1 {
      assert tiles[k] == 1;
      assert Threads(p, v, k) == p[k];
    }
  }

  /** The loops of the dimensions `k` and inner have as many threads as
      the plan gives those dimensions. */
  lemma {:induction false} TiledRangesProcs(shape: seq<int>, v: int, T: int, p: seq<int>, tiles: seq<int>, k: nat)
    requires IsDistributablePlan(shape, v, T, p) && IsNativeDstShape(p, v, tiles)
    requires k <= |p|
    ensures ValidRanges(TiledRanges(p, tiles, k))
    ensures RangesProcs(TiledRanges(p, tiles, k)) == ThreadsFrom(p, v, k)
    decreases |p| - k
  {
    if k < |p| {
      TiledRangesProcs(shape, v, T, p, tiles, k + 1);
      var rest := TiledRanges(p, tiles, k + 1);
      if tiles[k] == 0 {
        assert p[k] == 1 && Threads(p, v, k) == 1;
        assert TiledRanges(p, tiles, k) == rest;
      } else {
        var r := Range(0, p[k], tiles[k]);
        TiledDimProcs(shape, v, T, p, tiles, k);
        assert TiledRanges(p, tiles, k) == [r] + rest;
        assert ([r] + rest)[1..] == rest;
      }
    }
  }

  /** Distributing a planned copy by its native destination shape uses
      exactly the `T` threads of the plan, over at least one loop. The
      serial tiles must be full tiles, so that each one has the static
      shape `p` the second tiling sees. */
  lemma DistributedThreads(shape: seq<int>, v: int, T: int, p: seq<int>, tiles: seq<int>)
    requires IsDistributablePlan(shape, v, T, p) && TilesDivide(shape, p)
    requires IsNativeDstShape(p, v, tiles)
    ensures |TiledRanges(p, tiles, 0)| >= 1
    ensures ValidRanges(TiledRanges(p, tiles, 0))
    ensures RangesProcs(TiledRanges(p, tiles, 0)) == T
  {
    TiledRangesProcs(shape, v, T, p, tiles, 0);
    TiledRangesLast(p, tiles, 0);
  }

  /** The innermost dimension is always tiled, so `DistributedThreads`
      has at least one parallel loop. */
  lemma {:induction false} TiledRangesLast(p: seq<int>, tiles: seq<int>, k: nat)
    requires |tiles| == |p| && k < |p| && tiles[|p| - 1] != 0
    ensures |TiledRanges(p, tiles, k)| >= 1
    decreases |p| - k
  {
    if k < |p| - 1 {
      TiledRangesLast(p, tiles, k + 1);
    }
  }

  /** On the aligned path every thread of a workgroup of `T` threads gets,
      for every parallel loop, a processor id below that loop's thread
      count, provided the serial tiles are full tiles. */
  lemma EveryThreadInRange(shape: seq<int>, bitWidth: int, p: seq<int>, tiles: seq<int>,
                           workgroupSize: Dim3, threadId: Dim3)
    requires bitWidth >= 1
    requires IsDistributablePlan(shape, TargetVectorSize(bitWidth), FlatWorkgroupSize(workgroupSize), p)
    requires TilesDivide(shape, p)
    requires IsNativeDstShape(p, TargetVectorSize(bitWidth), tiles)
    requires InWorkgroup(workgroupSize, threadId)
    ensures ValidRanges(TiledRanges(p, tiles, 0))
    ensures forall k :: 0 <= k < |TiledRanges(p, tiles, 0)| ==>
              0 <= ProcIdOf(TiledRanges(p, tiles, 0), CreateFlatId(workgroupSize, threadId), k)
                < NumProcs(TiledRanges(p, tiles, 0)[k])
  {
    var v, T := TargetVectorSize(bitWidth), FlatWorkgroupSize(workgroupSize);
    var ranges, id := TiledRanges(p, tiles, 0), CreateFlatId(workgroupSize, threadId);
    DistributedThreads(shape, v, T, p, tiles);
    FlatIdInverse(workgroupSize, threadId);
    forall k | 0 <= k < |ranges| ensures 0 <= ProcIdOf(ranges, id, k) < NumProcs(ranges[k]) {
      ProcIdOfBounds(ranges, id, k);
    }
  }
}
