/** Static trip counts of `scf.for` loops and the choice of loops to fully
    unroll once the copies have been distributed and vectorized. */
module Unroll {
  import opened Arith

  /** A loop bound: the value of an `arith.constant` of index type, or a
      value defined by anything else. */
  datatype Bound = Const(value: int) | Dynamic

  /** An `scf.for`, identified by `id`, with its lower bound, upper bound and
      step. */
  datatype ForOp = ForOp(id: int, lb: Bound, ub: Bound, step: Bound)

  /** `mlir::ceilDiv` on 64-bit integers, with C++ division truncating toward
      zero: the smallest `r` with `r * rhs >= lhs` for a positive divisor,
      and the mirror image for a negative one. */
  function CeilDiv(lhs: int, rhs: int): (r: int)
    requires rhs != 0
    ensures rhs > 0 ==> (r - 1) * rhs < lhs <= r * rhs
    ensures rhs < 0 ==> r * rhs <= lhs < (r - 1) * rhs
  {
    var x := if rhs > 0 then -1 else 1;
    if lhs != 0 && (lhs > 0) == (rhs > 0) then
      var t := TruncDiv(lhs + x, rhs);
      MulShift(t, rhs);
      t + 1
    else
      var t := TruncDiv(-lhs, rhs);
      MulShift(t, rhs);
      -t
  }

  lemma MulShift(t: int, d: int)
    ensures (t + 1 - 1) * d == t * d && (t + 1) * d == t * d + d
    ensures (-t) * d == -(t * d) && (-t - 1) * d == -(t * d) - d
  {
  }

  /** The three bounds are constants and none of them is negative: the case
      in which `numIteration` computes a trip count. */
  predicate StaticNonNegative(f: ForOp)
  {
    && f.lb.Const? && f.ub.Const? && f.step.Const?
    && f.lb.value >= 0 && f.ub.value >= 0 && f.step.value >= 0
  }

  /** `ceilDiv` asserts a non-zero divisor, and the zero step is not filtered
      out before it. */
  predicate StepIsNonZero(f: ForOp)
  {
    StaticNonNegative(f) ==> f.step.value != 0
  }

  /** `numIteration` as written: 0 unless the bounds are static and
      non-negative, and otherwise the rounded-up quotient of `ub - lb` by the
      step, negative when the upper bound lies a step or more below the lower
      bound. */
  function NumIteration(f: ForOp): (r: int)
    requires StepIsNonZero(f)
    ensures !StaticNonNegative(f) ==> r == 0
    ensures StaticNonNegative(f) ==>
              (r - 1) * f.step.value < f.ub.value - f.lb.value <= r * f.step.value
  {
    if !StaticNonNegative(f) then 0
    else CeilDiv(f.ub.value - f.lb.value, f.step.value)
  }

  /** The values the induction variable of `for i = lb to ub step s` takes,
      in order: the reference for what a trip count counts. */
  function Iterations(lb: int, ub: int, step: int): (r: seq<int>)
    requires step > 0
    ensures forall k :: 0 <= k < |r| ==> lb <= r[k] < ub
    decreases ub - lb
  {
    if lb >= ub then [] else [lb] + Iterations(lb + step, ub, step)
  }

  /** The trip count of a loop: `numIteration` where the loop runs at least
      once, 0 where its upper bound does not exceed its lower bound. */
  function TripCount(f: ForOp): (r: int)
    requires StepIsNonZero(f)
    ensures r >= 0
    ensures !StaticNonNegative(f) ==> r == 0
  {
    if StaticNonNegative(f) && f.ub.value <= f.lb.value then 0 else
      var n := NumIteration(f);
      if StaticNonNegative(f) then MulSign(n, f.step.value); n else n
  }

  /** On a loop with static non-negative bounds, the trip count is the number
      of values the induction variable takes. */
  lemma {:induction false} TripCountIsIterations(f: ForOp)
    requires StaticNonNegative(f) && StepIsNonZero(f)
    ensures TripCount(f) == |Iterations(f.lb.value, f.ub.value, f.step.value)|
    decreases f.ub.value - f.lb.value
  {
    var lb, ub, s := f.lb.value, f.ub.value, f.step.value;
    if lb < ub {
      var g := ForOp(f.id, Const(lb + s), f.ub, f.step);
      if lb + s < ub {
        TripCountIsIterations(g);
        CeilDivStep(ub - lb, s, NumIteration(f), NumIteration(g));
      } else {
        assert Iterations(lb + s, ub, s) == [];
        CeilDivOne(ub - lb, s, NumIteration(f));
      }
    }
  }

  /** One step less to go means one iteration less. */
  lemma CeilDivStep(n: int, s: int, r: int, r': int)
    requires s > 0 && n > s
    requires (r - 1) * s < n <= r * s
    requires (r' - 1) * s < n - s <= r' * s
    ensures r == r' + 1
  {
    assert (r' + 1 - 1) * s == r' * s && (r' + 1) * s == r' * s + s;
    CeilUnique(n, s, r, r' + 1);
  }

  /** A remaining distance of at most one step is one iteration. */
  lemma CeilDivOne(n: int, s: int, r: int)
    requires s > 0 && 0 < n <= s
    requires (r - 1) * s < n <= r * s
    ensures r == 1
  {
    CeilUnique(n, s, r, 1);
  }

  lemma CeilUnique(n: int, s: int, r: int, r': int)
    requires s > 0
    requires (r - 1) * s < n <= r * s
    requires (r' - 1) * s < n <= r' * s
    ensures r == r'
  {
    assert (r - 1) * s == r * s - s && (r' - 1) * s == r' * s - s;
    MulSign(r - r', s);
    MulSign(r' - r, s);
    assert (r - r') * s == r * s - r' * s;
    assert (r' - r) * s == r' * s - r * s;
  }

  /** A loop `for i = 0 to n step 1` has trip count `n`. */
  lemma ZeroToN(id: int, n: nat)
    ensures NumIteration(ForOp(id, Const(0), Const(n), Const(1))) == n
    ensures TripCount(ForOp(id, Const(0), Const(n), Const(1))) == n
  {
    var f := ForOp(id, Const(0), Const(n), Const(1));
    CeilUnique(n, 1, NumIteration(f), n);
  }

  /** `numIteration` as written returns a negative count for every loop with
      static bounds whose upper bound lies a step or more below its lower
      bound, although such a loop runs no iteration. */
  lemma NumIterationNegative(f: ForOp)
    requires StaticNonNegative(f) && StepIsNonZero(f)
    requires f.lb.value - f.ub.value >= f.step.value
    ensures NumIteration(f) < 0
    ensures Iterations(f.lb.value, f.ub.value, f.step.value) == []
  {
    var r, s := NumIteration(f), f.step.value;
    assert (r - 1) * s < -s;
    MulSign(r, s);
  }

  /** The loop `for i = 4 to 0 step 1`. */
  lemma NumIterationNegativeExample()
    ensures NumIteration(ForOp(0, Const(4), Const(0), Const(1))) == -4
    ensures TripCount(ForOp(0, Const(4), Const(0), Const(1))) == 0
  {
    var f := ForOp(0, Const(4), Const(0), Const(1));
    CeilUnique(-4, 1, NumIteration(f), -4);
  }

  // ---------------------------------------------------------------------
  // UnrollSharedMemoryLoops

  /** A request to unroll loop `loop` by `factor`. */
  datatype UnrollRequest = UnrollRequest(loop: int, factor: int)

  /** Every loop whose trip count `numIteration` can compute. */
  predicate AllSteppable(loops: seq<ForOp>)
  {
    forall k :: 0 <= k < |loops| ==> StepIsNonZero(loops[k])
  }

  /** The loops of `walked` not in the ignore set, in walk order. */
  function Selected(walked: seq<ForOp>, loopsToIgnore: set<int>): (r: seq<ForOp>)
    ensures |r| <= |walked|
  {
    if walked == [] then []
    else
      var last := walked[|walked| - 1];
      Selected(walked[..|walked| - 1], loopsToIgnore)
      + (if last.id in loopsToIgnore then [] else [last])
  }

  /** No selected loop is ignored, and the selection keeps the steps of the
      walked loops. */
  lemma {:induction false} SelectedProps(walked: seq<ForOp>, loopsToIgnore: set<int>)
    ensures forall k :: 0 <= k < |Selected(walked, loopsToIgnore)| ==>
              Selected(walked, loopsToIgnore)[k].id !in loopsToIgnore
    ensures AllSteppable(walked) ==> AllSteppable(Selected(walked, loopsToIgnore))
  {
    if walked != [] {
      SelectedProps(walked[..|walked| - 1], loopsToIgnore);
    }
  }

  /** A loop is selected exactly when it was walked and is not ignored. */
  lemma {:induction false} SelectedIff(walked: seq<ForOp>, loopsToIgnore: set<int>, f: ForOp)
    ensures f in Selected(walked, loopsToIgnore) <==> f in walked && f.id !in loopsToIgnore
  {
    if walked != [] {
      var init := walked[..|walked| - 1];
      SelectedIff(init, loopsToIgnore, f);
      assert walked == init + [walked[|walked| - 1]];
    }
  }

  /** The request to unroll `f` by `numIteration(f)`, the count as written.
      For a loop that runs at least once the factor is its number of
      iterations, so the unroll is a full one; for a loop whose bounds are
      not static and non-negative the factor is 0. */
  function FullUnroll(f: ForOp): (q: UnrollRequest)
    requires StepIsNonZero(f)
    ensures q.loop == f.id
    ensures !StaticNonNegative(f) ==> q.factor == 0
    ensures StaticNonNegative(f) && f.lb.value < f.ub.value ==>
              q.factor == |Iterations(f.lb.value, f.ub.value, f.step.value)|
  {
    if StaticNonNegative(f) && f.lb.value < f.ub.value then
      TripCountIsIterations(f);
      UnrollRequest(f.id, NumIteration(f))
    else
      UnrollRequest(f.id, NumIteration(f))
  }

  /** The requests for `sel`, last loop first. */
  predicate RequestsFor(requests: seq<UnrollRequest>, sel: seq<ForOp>)
    requires AllSteppable(sel)
  {
    |requests| == |sel| && forall k :: 0 <= k < |requests| ==> requests[k] == FullUnroll(sel[|sel| - 1 - k])
  }

  /** Every selected loop has its request, and only selected loops do. */
  lemma RequestsCover(walked: seq<ForOp>, loopsToIgnore: set<int>, requests: seq<UnrollRequest>)
    requires AllSteppable(walked)
    requires AllSteppable(Selected(walked, loopsToIgnore))
    requires RequestsFor(requests, Selected(walked, loopsToIgnore))
    ensures forall k :: 0 <= k < |requests| ==> requests[k].loop !in loopsToIgnore
    ensures forall t :: 0 <= t < |walked| && walked[t].id !in loopsToIgnore ==>
              exists k :: 0 <= k < |requests| && requests[k] == FullUnroll(walked[t])
  {
    var sel := Selected(walked, loopsToIgnore);
    SelectedProps(walked, loopsToIgnore);
    forall k | 0 <= k < |requests| ensures requests[k].loop !in loopsToIgnore {
      assert requests[k] == FullUnroll(sel[|sel| - 1 - k]);
    }
    forall t | 0 <= t < |walked| && walked[t].id !in loopsToIgnore
      ensures exists k :: 0 <= k < |requests| && requests[k] == FullUnroll(walked[t])
    {
      var f := walked[t];
      SelectedIff(walked, loopsToIgnore, f);
      var u :| 0 <= u < |sel| && sel[u] == f;
      assert requests[|sel| - 1 - u] == FullUnroll(f);
    }
  }

  /** Collect the walked loops not in the ignore set, then ask for each to be
      unrolled by its trip count, last walked first. */
  method UnrollSharedMemoryLoops(walked: seq<ForOp>, loopsToIgnore: set<int>)
    returns (requests: seq<UnrollRequest>)
    requires AllSteppable(walked)
    ensures AllSteppable(Selected(walked, loopsToIgnore))
    ensures RequestsFor(requests, Selected(walked, loopsToIgnore))
    ensures forall k :: 0 <= k < |requests| ==> requests[k].loop !in loopsToIgnore
    ensures forall t :: 0 <= t < |walked| && walked[t].id !in loopsToIgnore ==>
              exists k :: 0 <= k < |requests| && requests[k] == FullUnroll(walked[t])
  {
    var forOpsToUnroll: seq<ForOp> := [];
    var i := 0;
    while i < |walked|
      invariant 0 <= i <= |walked|
      invariant forOpsToUnroll == Selected(walked[..i], loopsToIgnore)
    {
      assert walked[..i + 1][..i] == walked[..i];
      if walked[i].id !in loopsToIgnore {
        forOpsToUnroll := forOpsToUnroll + [walked[i]];
      }
      i := i + 1;
    }
    assert walked[..i] == walked;
    SelectedProps(walked, loopsToIgnore);
    ghost var sel := forOpsToUnroll;
    requests := [];
    var j := |forOpsToUnroll|;
    while j > 0
      invariant 0 <= j <= |sel| && |requests| == |sel| - j
      invariant forall k :: 0 <= k < |requests| ==> requests[k] == FullUnroll(sel[|sel| - 1 - k])
    {
      j := j - 1;
      requests := requests + [FullUnroll(forOpsToUnroll[j])];
    }
    RequestsCover(walked, loopsToIgnore, requests);
  }
}
