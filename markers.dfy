/** The transformation markers the pass's rewrite stages read and write. A
    stage fires on an op whose marker is one of the stage filter's match
    markers and leaves the filter's replacement marker on the rewritten op. */
module Markers {

  datatype Marker =
    | NoMarker           // an op without the marker attribute
    | WorkgroupMemory    // a copy into workgroup memory, not yet lowered
    | CopyToDistribute   // "copy_to_distribute"
    | CopyDistributed    // "copy_distributed"
    | Vectorize          // the vectorization marker

  /** A transformation filter: the markers it matches (never `NoMarker`,
      so an unmarked op is never rewritten) and the marker it leaves,
      `NoMarker` where the filter replaces with none. */
  datatype Filter = Filter(matches: set<Marker>, replacement: Marker)

  /** Serial tiling into a distributable shape. */
  const TileToUnroll := Filter({WorkgroupMemory}, CopyToDistribute)
  /** Tiling and distribution onto the threads. */
  const TileAndDistribute := Filter({CopyToDistribute}, CopyDistributed)
  /** Vectorization of distributed copies and of copies that needed no
      distribution. */
  const Vectorization := Filter({WorkgroupMemory, CopyDistributed}, NoMarker)
  /** Thread-level tiling on the fallback path. */
  const ThreadLevelTiling := Filter({WorkgroupMemory}, Vectorize)

  /** The marker an op carries after one stage: the replacement where the
      stage fires, the old marker otherwise. After a stage that settles, no
      op is left that the stage still matches. */
  function Apply(f: Filter, m: Marker): (r: Marker)
    requires NoMarker !in f.matches
    ensures m == NoMarker ==> r == NoMarker
    ensures r != m ==> m in f.matches
    ensures m in f.matches ==> r == f.replacement
    ensures Settles(f) ==> r !in f.matches
  {
    if m in f.matches then f.replacement else m
  }

  /** A filter whose replacement it does not itself match: an op rewritten
      by that stage is not rewritten by the same stage again. */
  predicate Settles(f: Filter)
  {
    NoMarker !in f.matches && f.replacement !in f.matches
  }

  /** A stage that settles is idempotent: running it again on the ops it
      has rewritten changes no marker, so the greedy driver reaches a fixed
      point after one rewrite of each op. */
  lemma ApplySettles(f: Filter, m: Marker)
    requires Settles(f)
    ensures Apply(f, Apply(f, m)) == Apply(f, m)
  {
  }

  /** The marker after the three stages of the aligned path, in order. */
  function AlignedPath(m: Marker): Marker
  {
    Apply(Vectorization, Apply(TileAndDistribute, Apply(TileToUnroll, m)))
  }

  /** Every stage of the pass settles. */
  lemma StagesSettle()
    ensures Settles(TileToUnroll) && Settles(TileAndDistribute)
    ensures Settles(Vectorization) && Settles(ThreadLevelTiling)
  {
  }

  /** A copy into workgroup memory goes through tiling, distribution and
      vectorization and ends unmarked, a copy already marked for a later
      stage ends unmarked too, and every other marker is left alone. The
      fallback path hands copies into workgroup memory on to vectorization. */
  lemma AlignedPathResult(m: Marker)
    ensures AlignedPath(m) == (if m in {WorkgroupMemory, CopyToDistribute, CopyDistributed} then NoMarker else m)
    ensures Apply(ThreadLevelTiling, m) == (if m == WorkgroupMemory then Vectorize else m)
  {
  }
}
