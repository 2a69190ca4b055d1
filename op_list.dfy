/** The clean-ups the pass does on the op list of the function body before
    distributing the copies: erasing barriers made redundant by an adjacent
    copy into workgroup memory, and hoisting allocations without operands to
    the top of the body. */
module OpList {
  import opened SeqUtil
  import opened Markers

  datatype OpKind =
    | Copy(marker: Marker)          // a `linalg.generic` copy
    | Barrier                       // `gpu.barrier`
    | Alloc(hasOperands: bool)      // `memref.alloc`
    | Other

  /** An op of the body; `id` stands for its identity. */
  datatype Op = Op(id: int, kind: OpKind)

  predicate IsBarrier(op: Op)
  {
    op.kind.Barrier?
  }

  /** The op carries the copy-to-workgroup-memory marker. */
  predicate IsMarked(op: Op)
  {
    op.kind == Copy(WorkgroupMemory)
  }

  predicate IsFreeAlloc(op: Op)
  {
    op.kind == Alloc(false)
  }

  // ---------------------------------------------------------------------
  // Barrier runs

  /** Start of the run of barriers that ends just before position `j`;
      `RunStartUnique` and `RedundantIff` say what it means. */
  function RunStart(s: seq<Op>, j: nat): (a: nat)
    requires j <= |s|
    ensures a <= j
  {
    if j > 0 && IsBarrier(s[j - 1]) then RunStart(s, j - 1) else j
  }

  /** End of the run of barriers that starts at position `j`;
      `RunEndUnique` and `RedundantIff` say what it means. */
  function RunEnd(s: seq<Op>, j: nat): (b: nat)
    requires j <= |s|
    ensures j <= b <= |s|
    decreases |s| - j
  {
    if j < |s| && IsBarrier(s[j]) then RunEnd(s, j + 1) else j
  }

  /** `s[RunStart(s, j)..j]` is a maximal run of barriers. */
  lemma {:induction false} RunStartProps(s: seq<Op>, j: nat)
    requires j <= |s|
    ensures forall t :: RunStart(s, j) <= t < j ==> IsBarrier(s[t])
    ensures RunStart(s, j) > 0 ==> !IsBarrier(s[RunStart(s, j) - 1])
  {
    if j > 0 && IsBarrier(s[j - 1]) {
      RunStartProps(s, j - 1);
    }
  }

  /** `s[j..RunEnd(s, j)]` is a maximal run of barriers. */
  lemma {:induction false} RunEndProps(s: seq<Op>, j: nat)
    requires j <= |s|
    ensures forall t :: j <= t < RunEnd(s, j) ==> IsBarrier(s[t])
    ensures RunEnd(s, j) < |s| ==> !IsBarrier(s[RunEnd(s, j)])
    decreases |s| - j
  {
    if j < |s| && IsBarrier(s[j]) {
      RunEndProps(s, j + 1);
    }
  }

  lemma {:induction false} RunStartUnique(s: seq<Op>, j: nat, a: nat)
    requires a <= j <= |s|
    requires forall t :: a <= t < j ==> IsBarrier(s[t])
    requires a == 0 || !IsBarrier(s[a - 1])
    ensures RunStart(s, j) == a
    decreases j - a
  {
    if a < j {
      RunStartUnique(s, j - 1, a);
    }
  }

  lemma {:induction false} RunEndUnique(s: seq<Op>, j: nat, b: nat)
    requires j <= b <= |s|
    requires forall t :: j <= t < b ==> IsBarrier(s[t])
    requires b == |s| || !IsBarrier(s[b])
    ensures RunEnd(s, j) == b
    decreases b - j
  {
    if j < b {
      RunEndUnique(s, j + 1, b);
    }
  }

  /** The barrier at `j` is erased: its run lies directly after an op
      carrying the marker and directly before a marked copy. */
  predicate Redundant(s: seq<Op>, j: nat)
    requires j < |s|
  {
    && IsBarrier(s[j])
    && var a := RunStart(s, j);
    && var b := RunEnd(s, j);
    && a > 0 && IsMarked(s[a - 1])
    && b < |s| && IsMarked(s[b])
  }

  /** The ops of `s[..n]` that are not redundant barriers, in order; its
      properties are `KeptNonBarriers` and `OnlyBarriersErased`. */
  function Kept(s: seq<Op>, n: nat): (r: seq<Op>)
    requires n <= |s|
    ensures |r| <= n
  {
    if n == 0 then []
    else Kept(s, n - 1) + (if Redundant(s, n - 1) then [] else [s[n - 1]])
  }

  /** The body after `removeRedundantBarriers`. */
  function WithoutRedundantBarriers(s: seq<Op>): seq<Op>
  {
    Kept(s, |s|)
  }

  /** The ops strictly between positions `a` and `b` are barriers, `s[a]`
      carries the marker and `s[b]` is a marked copy. */
  predicate BetweenMarked(s: seq<Op>, a: nat, b: nat)
  {
    && a < b < |s|
    && (forall t :: a < t < b ==> IsBarrier(s[t]))
    && IsMarked(s[a]) && IsMarked(s[b])
  }

  /** A barrier is erased exactly when it lies in a run of barriers with a
      marked op at position `a` right before the run and a marked copy at
      position `b` right after it. A run at the start of the body, after an
      unmarked op or before anything but a marked copy is kept. */
  lemma RedundantIff(s: seq<Op>, j: nat)
    requires j < |s|
    ensures Redundant(s, j) <==> exists a: nat, b: nat :: a < j < b && BetweenMarked(s, a, b)
  {
    if Redundant(s, j) {
      RunStartProps(s, j);
      RunEndProps(s, j);
      var a, b := RunStart(s, j) - 1, RunEnd(s, j);
      assert BetweenMarked(s, a, b);
    }
    if exists a: nat, b: nat :: a < j < b && BetweenMarked(s, a, b) {
      var a: nat, b: nat :| a < j < b && BetweenMarked(s, a, b);
      RunStartUnique(s, j, a + 1);
      RunEndUnique(s, j, b);
    }
  }

  /** When one barrier of a run is erased, the whole run is. */
  lemma WholeRunErased(s: seq<Op>, j: nat, t: nat)
    requires j < |s| && Redundant(s, j)
    requires RunStart(s, j) <= t < RunEnd(s, j)
    ensures Redundant(s, t)
  {
    RunStartProps(s, j);
    RunEndProps(s, j);
    RunStartUnique(s, t, RunStart(s, j));
    RunEndUnique(s, t, RunEnd(s, j));
  }

  /** The ops that are not barriers, in order. */
  function NonBarriers(s: seq<Op>): seq<Op>
  {
    if s == [] then []
    else (if IsBarrier(s[0]) then [] else [s[0]]) + NonBarriers(s[1..])
  }

  lemma {:induction false} NonBarriersAppend(a: seq<Op>, b: seq<Op>)
    ensures NonBarriers(a + b) == NonBarriers(a) + NonBarriers(b)
  {
    if a == [] {
      assert a + b == b;
    } else {
      var h := if IsBarrier(a[0]) then [] else [a[0]];
      NonBarriersAppend(a[1..], b);
      assert (a + b)[0] == a[0] && (a + b)[1..] == a[1..] + b;
      assert NonBarriers(a + b) == h + (NonBarriers(a[1..]) + NonBarriers(b));
      assert NonBarriers(a) == h + NonBarriers(a[1..]);
    }
  }

  /** Only barriers are erased, and the other ops keep their order. */
  lemma {:induction false} KeptNonBarriers(s: seq<Op>, n: nat)
    requires n <= |s|
    ensures NonBarriers(Kept(s, n)) == NonBarriers(s[..n])
  {
    if n > 0 {
      KeptNonBarriers(s, n - 1);
      var tail := if Redundant(s, n - 1) then [] else [s[n - 1]];
      NonBarriersAppend(Kept(s, n - 1), tail);
      assert s[..n] == s[..n - 1] + [s[n - 1]];
      NonBarriersAppend(s[..n - 1], [s[n - 1]]);
      assert [s[n - 1]][1..] == [];
    }
  }

  /** Erasing the redundant barriers keeps every op that is not a barrier,
      in order. */
  lemma OnlyBarriersErased(s: seq<Op>)
    ensures NonBarriers(WithoutRedundantBarriers(s)) == NonBarriers(s)
  {
    KeptNonBarriers(s, |s|);
    assert s[..|s|] == s;
  }

  /** The ops of `s[k0..n]` are all kept. */
  lemma {:induction false} KeptExtend(s: seq<Op>, k0: nat, n: nat)
    requires k0 <= n <= |s|
    requires forall t :: k0 <= t < n ==> !Redundant(s, t)
    ensures Kept(s, n) == Kept(s, k0) + s[k0..n]
    decreases n - k0
  {
    if k0 < n {
      KeptExtend(s, k0, n - 1);
      assert s[k0..n] == s[k0..n - 1] + [s[n - 1]];
    }
  }

  /** The ops of `s[k0..n]` are all erased. */
  lemma {:induction false} KeptSkip(s: seq<Op>, k0: nat, n: nat)
    requires k0 <= n <= |s|
    requires forall t :: k0 <= t < n ==> Redundant(s, t)
    ensures Kept(s, n) == Kept(s, k0)
    decreases n - k0
  {
    if k0 < n {
      KeptSkip(s, k0, n - 1);
    }
  }

  /** The barriers of the run before `s[k]` are kept unless `s[k]` is a
      marked copy and the op before the run is marked. */
  lemma RunKept(s: seq<Op>, k: nat)
    requires k < |s| && !IsBarrier(s[k])
    requires !(RunStart(s, k) > 0 && IsMarked(s[RunStart(s, k) - 1]) && IsMarked(s[k]))
    ensures Kept(s, k + 1) == Kept(s, RunStart(s, k)) + s[RunStart(s, k)..k + 1]
  {
    var k0 := RunStart(s, k);
    RunStartProps(s, k);
    forall t | k0 <= t < k + 1 ensures !Redundant(s, t) {
      if t < k {
        RunStartUnique(s, t, k0);
        RunEndUnique(s, t, k);
      }
    }
    KeptExtend(s, k0, k + 1);
  }

  /** The barriers of the run between a marked op and the marked copy
      `s[k]` are erased. */
  lemma RunErased(s: seq<Op>, k: nat)
    requires k < |s| && IsMarked(s[k])
    requires RunStart(s, k) > 0 && IsMarked(s[RunStart(s, k) - 1])
    ensures Kept(s, k + 1) == Kept(s, RunStart(s, k)) + [s[k]]
  {
    var k0 := RunStart(s, k);
    RunStartProps(s, k);
    forall t | k0 <= t < k ensures Redundant(s, t) {
      RunStartUnique(s, t, k0);
      RunEndUnique(s, t, k);
    }
    KeptSkip(s, k0, k);
  }

  /** While walking the body: the ops of `orig` before position `k` are
      settled except for the barriers right before `k`, whose fate the next
      op decides; the current body is what is settled followed by the rest
      of `orig`, and `i` is the current position of `orig[k]`. */
  ghost predicate BarrierState(orig: seq<Op>, ops: seq<Op>, k: nat, i: nat)
  {
    k <= |orig| && ops == BarrierImage(orig, k) && i == BarrierPos(orig, k)
  }

  ghost function BarrierImage(orig: seq<Op>, k: nat): (r: seq<Op>)
    requires k <= |orig|
    ensures |r| - BarrierPos(orig, k) == |orig| - k
  {
    var k0 := RunStart(orig, k);
    Kept(orig, k0) + orig[k0..]
  }

  ghost function BarrierPos(orig: seq<Op>, k: nat): nat
    requires k <= |orig|
  {
    |Kept(orig, RunStart(orig, k))| + (k - RunStart(orig, k))
  }

  /** What the backward scan from a marked copy sees: barriers down to the
      settled prefix, then the op before the run. */
  lemma BarrierScan(orig: seq<Op>, ops: seq<Op>, k: nat, i: nat)
    requires BarrierState(orig, ops, k, i) && k < |orig|
    ensures ops[i] == orig[k]
    ensures var L := |Kept(orig, RunStart(orig, k))|;
            && L <= i
            && (forall p :: L <= p < i ==> IsBarrier(ops[p]))
            && (L > 0 <==> RunStart(orig, k) > 0)
            && (L > 0 ==> ops[L - 1] == orig[RunStart(orig, k) - 1] && !IsBarrier(ops[L - 1]))
  {
    var k0 := RunStart(orig, k);
    RunStartProps(orig, k);
    if k0 > 0 {
      assert !Redundant(orig, k0 - 1);
    }
  }

  lemma SkipStep(orig: seq<Op>, ops: seq<Op>, k: nat, i: nat)
    requires BarrierState(orig, ops, k, i) && k < |orig| && IsBarrier(orig[k])
    ensures BarrierState(orig, ops, k + 1, i + 1)
  {
  }

  lemma KeepStep(orig: seq<Op>, ops: seq<Op>, k: nat, i: nat)
    requires BarrierState(orig, ops, k, i) && k < |orig| && !IsBarrier(orig[k])
    requires !(RunStart(orig, k) > 0 && IsMarked(orig[RunStart(orig, k) - 1]) && IsMarked(orig[k]))
    ensures BarrierState(orig, ops, k + 1, i + 1)
  {
    var k0 := RunStart(orig, k);
    var kept := Kept(orig, k0);
    RunKept(orig, k);
    assert RunStart(orig, k + 1) == k + 1;
    assert orig[k0..] == orig[k0..k + 1] + orig[k + 1..];
    assert ops == (kept + orig[k0..k + 1]) + orig[k + 1..];
  }

  lemma EraseStep(orig: seq<Op>, ops: seq<Op>, k: nat, i: nat)
    requires BarrierState(orig, ops, k, i) && k < |orig| && IsMarked(orig[k])
    requires RunStart(orig, k) > 0 && IsMarked(orig[RunStart(orig, k) - 1])
    ensures var L := |Kept(orig, RunStart(orig, k))|;
            BarrierState(orig, ops[..L] + ops[i..], k + 1, L + 1)
  {
    var k0 := RunStart(orig, k);
    var kept := Kept(orig, k0);
    RunErased(orig, k);
    assert ops[..|kept|] == kept;
    assert ops[i..] == orig[k..];
    assert orig[k..] == [orig[k]] + orig[k + 1..];
  }

  lemma BarrierDone(orig: seq<Op>, ops: seq<Op>, k: nat, i: nat)
    requires BarrierState(orig, ops, k, i) && k == |orig|
    ensures ops == WithoutRedundantBarriers(orig)
  {
    var k0 := RunStart(orig, k);
    RunStartProps(orig, k);
    forall t | k0 <= t < |orig| ensures !Redundant(orig, t) {
      RunEndUnique(orig, t, |orig|);
    }
    KeptExtend(orig, k0, |orig|);
  }

  // ---------------------------------------------------------------------
  // Hoisting allocations

  /** The allocations without operands among `s[..n]`, in order. */
  function FreeAllocs(s: seq<Op>, n: nat): (r: seq<Op>)
    requires n <= |s|
    ensures |r| <= n
  {
    if n == 0 then []
    else FreeAllocs(s, n - 1) + (if IsFreeAlloc(s[n - 1]) then [s[n - 1]] else [])
  }

  /** The other ops among `s[..n]`, in order. */
  function NotFree(s: seq<Op>, n: nat): (r: seq<Op>)
    requires n <= |s|
    ensures |r| <= n
  {
    if n == 0 then []
    else NotFree(s, n - 1) + (if IsFreeAlloc(s[n - 1]) then [] else [s[n - 1]])
  }

  /** The body after `hoistAlloc`: the allocations without operands in
      reverse order, then the other ops in their order. */
  function Hoisted(s: seq<Op>): seq<Op>
  {
    Reverse(FreeAllocs(s, |s|)) + NotFree(s, |s|)
  }

  predicate DistinctIds(s: seq<Op>)
  {
    forall i, j :: 0 <= i < j < |s| ==> s[i].id != s[j].id
  }

  lemma {:induction false} FreeAllocsProps(s: seq<Op>, n: nat)
    requires n <= |s|
    ensures forall t :: 0 <= t < |FreeAllocs(s, n)| ==> IsFreeAlloc(FreeAllocs(s, n)[t])
    ensures forall t :: 0 <= t < |NotFree(s, n)| ==> !IsFreeAlloc(NotFree(s, n)[t])
  {
    if n > 0 {
      FreeAllocsProps(s, n - 1);
    }
  }

  /** The split of a body keeps every op. */
  lemma {:induction false} SplitMultiset(s: seq<Op>, n: nat)
    requires n <= |s|
    ensures multiset(FreeAllocs(s, n)) + multiset(NotFree(s, n)) == multiset(s[..n])
  {
    if n > 0 {
      SplitMultiset(s, n - 1);
      var x := s[n - 1];
      assert s[..n] == s[..n - 1] + [x];
      MultisetSnoc(s[..n - 1], x);
      if IsFreeAlloc(x) {
        SplitFreeStep(s, n);
      } else {
        SplitOtherStep(s, n);
      }
    }
  }

  /** An allocation without operands joins the hoisted ops. */
  lemma SplitFreeStep(s: seq<Op>, n: nat)
    requires 0 < n <= |s| && IsFreeAlloc(s[n - 1])
    ensures multiset(FreeAllocs(s, n)) == multiset(FreeAllocs(s, n - 1)) + multiset{s[n - 1]}
    ensures NotFree(s, n) == NotFree(s, n - 1)
  {
    assert FreeAllocs(s, n) == FreeAllocs(s, n - 1) + [s[n - 1]];
    MultisetSnoc(FreeAllocs(s, n - 1), s[n - 1]);
  }

  /** Any other op joins the ops that stay in place. */
  lemma SplitOtherStep(s: seq<Op>, n: nat)
    requires 0 < n <= |s| && !IsFreeAlloc(s[n - 1])
    ensures FreeAllocs(s, n) == FreeAllocs(s, n - 1)
    ensures multiset(NotFree(s, n)) == multiset(NotFree(s, n - 1)) + multiset{s[n - 1]}
  {
    assert NotFree(s, n) == NotFree(s, n - 1) + [s[n - 1]];
    MultisetSnoc(NotFree(s, n - 1), s[n - 1]);
  }

  /** A stretch without allocations free of operands adds nothing to the
      hoisted ops. */
  lemma {:induction false} NoFreeExtend(s: seq<Op>, n0: nat, n: nat)
    requires n0 <= n <= |s|
    requires forall t :: n0 <= t < n ==> !IsFreeAlloc(s[t])
    ensures FreeAllocs(s, n) == FreeAllocs(s, n0)
    ensures NotFree(s, n) == NotFree(s, n0) + s[n0..n]
    decreases n - n0
  {
    if n0 < n {
      NoFreeExtend(s, n0, n - 1);
      assert s[n0..n] == s[n0..n - 1] + [s[n - 1]];
    }
  }

  /** A body that starts with `n` allocations free of operands. */
  lemma {:induction false} AllFree(s: seq<Op>, n: nat)
    requires n <= |s|
    requires forall t :: 0 <= t < n ==> IsFreeAlloc(s[t])
    ensures FreeAllocs(s, n) == s[..n] && NotFree(s, n) == []
  {
    if n > 0 {
      AllFree(s, n - 1);
      assert s[..n] == s[..n - 1] + [s[n - 1]];
    }
  }

  /** The hoisted ops of a prefix are a prefix of the hoisted ops. */
  lemma {:induction false} FreeAllocsPrefix(s: seq<Op>, n: nat, m: nat)
    requires n <= m <= |s|
    ensures |FreeAllocs(s, n)| <= |FreeAllocs(s, m)|
    ensures FreeAllocs(s, n) == FreeAllocs(s, m)[..|FreeAllocs(s, n)|]
    decreases m - n
  {
    if n < m {
      FreeAllocsPrefix(s, n, m - 1);
      var f := FreeAllocs(s, m - 1);
      assert FreeAllocs(s, m)[..|f|] == f;
    }
  }

  /** A stretch that adds nothing to the hoisted ops holds no allocation
      free of operands. */
  lemma {:induction false} FreeAllocsSame(s: seq<Op>, n: nat, m: nat)
    requires n <= m <= |s| && |FreeAllocs(s, n)| == |FreeAllocs(s, m)|
    ensures forall t :: n <= t < m ==> !IsFreeAlloc(s[t])
    decreases m - n
  {
    if n < m {
      FreeAllocsPrefix(s, n, m - 1);
      FreeAllocsSame(s, n, m - 1);
    }
  }

  /** The ids of the ops of `s[..n]`. */
  function IdsBelow(s: seq<Op>, n: nat): set<int>
    requires n <= |s|
  {
    if n == 0 then {} else IdsBelow(s, n - 1) + {s[n - 1].id}
  }

  lemma {:induction false} IdsBelowMono(s: seq<Op>, n: nat, m: nat)
    requires n <= m <= |s|
    ensures IdsBelow(s, n) <= IdsBelow(s, m)
    decreases m - n
  {
    if n < m {
      IdsBelowMono(s, n, m - 1);
    }
  }

  /** With distinct ids, no op before position `j` shares the id of `s[j]`. */
  lemma {:induction false} IdsBelowFresh(s: seq<Op>, n: nat, j: nat)
    requires DistinctIds(s) && n <= j < |s|
    ensures s[j].id !in IdsBelow(s, n)
  {
    if n > 0 {
      IdsBelowFresh(s, n - 1, j);
    }
  }

  /** Both halves of the split of `s[..n]` hold ops of `s[..n]`. */
  lemma {:induction false} SplitIds(s: seq<Op>, n: nat)
    requires n <= |s|
    ensures forall t :: 0 <= t < |FreeAllocs(s, n)| ==> FreeAllocs(s, n)[t].id in IdsBelow(s, n)
    ensures forall t :: 0 <= t < |NotFree(s, n)| ==> NotFree(s, n)[t].id in IdsBelow(s, n)
  {
    if n > 0 {
      SplitIds(s, n - 1);
    }
  }

  /** Hoisting permutes the ops of the body. */
  lemma HoistedPermutation(s: seq<Op>)
    ensures multiset(Hoisted(s)) == multiset(s)
  {
    ReverseMultiset(FreeAllocs(s, |s|));
    SplitMultiset(s, |s|);
    assert s[..|s|] == s;
  }

  /** After hoisting, the allocations without operands form a prefix and
      every other op follows it. */
  lemma HoistedPrefix(s: seq<Op>)
    ensures forall k :: 0 <= k < |Hoisted(s)| ==>
              (IsFreeAlloc(Hoisted(s)[k]) <==> k < |FreeAllocs(s, |s|)|)
  {
    var f := FreeAllocs(s, |s|);
    FreeAllocsProps(s, |s|);
    forall k | 0 <= k < |f| ensures IsFreeAlloc(Reverse(f)[k]) {
      ReverseAt(f, k);
    }
  }

  lemma {:induction false} ReverseReverse(s: seq<Op>)
    ensures Reverse(Reverse(s)) == s
  {
    if s != [] {
      ReverseReverse(s[1..]);
      ReverseSnoc(Reverse(s[1..]), s[0]);
      assert s == [s[0]] + s[1..];
    }
  }

  /** Hoisting reverses the order of the allocations without operands and
      keeps the order of everything else: hoisting a second time restores
      the original order of the allocations. */
  lemma HoistTwice(s: seq<Op>)
    ensures FreeAllocs(Hoisted(s), |Hoisted(s)|) == Reverse(FreeAllocs(s, |s|))
    ensures NotFree(Hoisted(s), |Hoisted(s)|) == NotFree(s, |s|)
    ensures Hoisted(Hoisted(s)) == FreeAllocs(s, |s|) + NotFree(s, |s|)
  {
    var f, n := FreeAllocs(s, |s|), NotFree(s, |s|);
    var h, rf := Hoisted(s), Reverse(f);
    HoistedPrefix(s);
    AllFree(h, |rf|);
    assert h[..|rf|] == rf;
    NoFreeExtend(h, |rf|, |h|);
    assert h[|rf|..] == n;
    ReverseReverse(f);
  }

  /** Position of the first allocation without operands at or after `q`. */
  function NextFree(s: seq<Op>, q: nat): (r: nat)
    requires q <= |s|
    ensures q <= r <= |s|
    decreases |s| - q
  {
    if q == |s| || IsFreeAlloc(s[q]) then q else NextFree(s, q + 1)
  }

  lemma {:induction false} NextFreeProps(s: seq<Op>, q: nat)
    requires q <= |s|
    ensures forall t :: q <= t < NextFree(s, q) ==> !IsFreeAlloc(s[t])
    ensures NextFree(s, q) < |s| ==> IsFreeAlloc(s[NextFree(s, q)])
    decreases |s| - q
  {
    if q < |s| && !IsFreeAlloc(s[q]) {
      NextFreeProps(s, q + 1);
    }
  }

  /** While hoisting: the first `m` collected allocations, which are those
      of `orig[..q]`, are at the front in reverse order, followed by the
      other ops of `orig[..q]` and the untouched rest of `orig`. */
  ghost predicate HoistState(orig: seq<Op>, ops: seq<Op>, allocs: seq<Op>, m: nat, q: nat)
  {
    q <= |orig| && m <= |allocs| && FreeAllocs(orig, q) == allocs[..m]
    && ops == HoistImage(orig, allocs, m, q)
  }

  ghost function HoistImage(orig: seq<Op>, allocs: seq<Op>, m: nat, q: nat): seq<Op>
    requires q <= |orig| && m <= |allocs|
  {
    Reverse(allocs[..m]) + NotFree(orig, q) + orig[q..]
  }

  /** The next allocation to hoist is the first allocation free of operands
      at or after `q`. */
  lemma HoistNext(orig: seq<Op>, allocs: seq<Op>, m: nat, q: nat)
    requires allocs == FreeAllocs(orig, |orig|)
    requires q <= |orig| && m < |allocs| && FreeAllocs(orig, q) == allocs[..m]
    ensures NextFree(orig, q) < |orig| && orig[NextFree(orig, q)] == allocs[m]
    ensures NotFree(orig, NextFree(orig, q)) == NotFree(orig, q) + orig[q..NextFree(orig, q)]
    ensures FreeAllocs(orig, NextFree(orig, q) + 1) == allocs[..m + 1]
    ensures NotFree(orig, NextFree(orig, q) + 1) == NotFree(orig, NextFree(orig, q))
  {
    var q' := NextFree(orig, q);
    NextFreeProps(orig, q);
    NoFreeExtend(orig, q, q');
    assert |FreeAllocs(orig, q')| == m;
    FreeAllocsPrefix(orig, q' + 1, |orig|);
    assert allocs[..m + 1] == allocs[..m] + [allocs[m]];
  }

  /** No op in front of the next allocation to hoist has its id. */
  lemma HoistIdsDiffer(orig: seq<Op>, allocs: seq<Op>, m: nat, q: nat, q': nat)
    requires DistinctIds(orig) && q <= q' < |orig| && m <= |allocs|
    requires FreeAllocs(orig, q) == allocs[..m]
    ensures forall t :: 0 <= t < |Reverse(allocs[..m]) + NotFree(orig, q')| ==>
              (Reverse(allocs[..m]) + NotFree(orig, q'))[t].id != orig[q'].id
  {
    var before := Reverse(allocs[..m]) + NotFree(orig, q');
    SplitIds(orig, q);
    SplitIds(orig, q');
    IdsBelowMono(orig, q, q');
    IdsBelowFresh(orig, q', q');
    forall t | 0 <= t < |before| ensures before[t].id in IdsBelow(orig, q') {
      if t < m {
        ReverseAt(allocs[..m], t);
      }
    }
  }

  /** `j` is the first position of `ops` holding an op with id `id`. */
  predicate FirstWithId(ops: seq<Op>, j: nat, id: int)
  {
    j < |ops| && ops[j].id == id && forall t :: 0 <= t < j ==> ops[t].id != id
  }

  /** Before the first move the body is untouched. */
  lemma HoistStart(orig: seq<Op>, allocs: seq<Op>)
    ensures HoistState(orig, orig, allocs, 0, 0)
  {
    assert orig[0..] == orig;
  }

  /** The body seen around the next allocation to hoist, at `q'` of `orig`:
      the ops in front of it, then it, then the untouched rest. */
  lemma HoistLayout(orig: seq<Op>, ops: seq<Op>, allocs: seq<Op>, m: nat, q: nat)
    returns (q': nat, before: seq<Op>)
    requires allocs == FreeAllocs(orig, |orig|)
    requires HoistState(orig, ops, allocs, m, q) && m < |allocs|
    ensures q <= q' < |orig| && orig[q'] == allocs[m]
    ensures before == Reverse(allocs[..m]) + NotFree(orig, q')
    ensures ops == before + [allocs[m]] + orig[q' + 1..]
    ensures FreeAllocs(orig, q' + 1) == allocs[..m + 1]
    ensures NotFree(orig, q' + 1) == NotFree(orig, q')
  {
    q' := NextFree(orig, q);
    HoistNext(orig, allocs, m, q);
    var r, nf, mid, rest := Reverse(allocs[..m]), NotFree(orig, q), orig[q..q'], orig[q' + 1..];
    before := r + (nf + mid);
    assert orig[q..] == mid + [allocs[m]] + rest;
    assert ops == r + nf + (mid + [allocs[m]] + rest);
    AppendAssoc(r, nf, mid);
  }

  /** Moving the next allocation, found at `j0`, to the front keeps the
      hoisting state. */
  lemma HoistMove(orig: seq<Op>, ops: seq<Op>, allocs: seq<Op>, m: nat, q: nat)
    returns (q': nat, j0: nat)
    requires DistinctIds(orig) && allocs == FreeAllocs(orig, |orig|)
    requires HoistState(orig, ops, allocs, m, q) && m < |allocs|
    ensures q <= q' < |orig|
    ensures FirstWithId(ops, j0, allocs[m].id) && ops[j0] == allocs[m]
    ensures HoistState(orig, [allocs[m]] + ops[..j0] + ops[j0 + 1..], allocs, m + 1, q' + 1)
  {
    var before;
    q', before := HoistLayout(orig, ops, allocs, m, q);
    HoistIdsDiffer(orig, allocs, m, q, q');
    j0 := |before|;
    var x, rest := allocs[m], orig[q' + 1..];
    assert ops[..j0] == before && ops[j0 + 1..] == rest;
    ReverseSnoc(allocs[..m], x);
    assert allocs[..m + 1] == allocs[..m] + [x];
    AppendAssoc([x], Reverse(allocs[..m]), NotFree(orig, q'));
  }

  /** Once the stretch after `q` adds no allocation free of operands, it
      goes unchanged behind the other ops. */
  lemma NoFreeTail(s: seq<Op>, q: nat)
    requires q <= |s| && |FreeAllocs(s, q)| == |FreeAllocs(s, |s|)|
    ensures NotFree(s, |s|) == NotFree(s, q) + s[q..]
  {
    FreeAllocsSame(s, q, |s|);
    NoFreeExtend(s, q, |s|);
    assert s[q..|s|] == s[q..];
  }

  /** Once every collected allocation is hoisted the body is `Hoisted`. */
  lemma HoistDone(orig: seq<Op>, ops: seq<Op>, allocs: seq<Op>, q: nat)
    requires allocs == FreeAllocs(orig, |orig|)
    requires HoistState(orig, ops, allocs, |allocs|, q)
    ensures ops == Hoisted(orig)
  {
    var nf, rest := NotFree(orig, q), orig[q..];
    assert allocs[..|allocs|] == allocs;
    assert ops == Reverse(allocs) + nf + rest;
    NoFreeTail(orig, q);
    AppendAssoc(Reverse(allocs), nf, rest);
  }

  /** Move the next collected allocation, `allocs[m]`, from where it is in
      `ops` to the front. */
  method MoveToFront(ghost orig: seq<Op>, ops: seq<Op>, allocs: seq<Op>, m: nat, ghost q: nat)
    returns (ops': seq<Op>, ghost q': nat)
    requires DistinctIds(orig) && allocs == FreeAllocs(orig, |orig|)
    requires HoistState(orig, ops, allocs, m, q) && m < |allocs|
    ensures HoistState(orig, ops', allocs, m + 1, q')
  {
    var alloc := allocs[m];
    ghost var q1, j0 := HoistMove(orig, ops, allocs, m, q);
    var idx := FindFirstWithId(ops, alloc.id);
    assert idx == j0;
    ops' := [alloc] + ops[..idx] + ops[idx + 1..];
    q' := q1 + 1;
  }

  /** Walk back from position `i` over the barriers before it: the position
      of the first op that is not a barrier, or -1 at the start of the
      body. */
  method LastNonBarrierBefore(ops: seq<Op>, i: nat) returns (p: int)
    requires i <= |ops|
    ensures -1 <= p < i
    ensures forall t :: p < t < i ==> IsBarrier(ops[t])
    ensures p >= 0 ==> !IsBarrier(ops[p])
  {
    p := i - 1;
    while p >= 0 && IsBarrier(ops[p])
      invariant -1 <= p < i
      invariant forall t :: p < t < i ==> IsBarrier(ops[t])
      decreases p
    {
      p := p - 1;
    }
  }

  /** The backward scan from `orig[k]` stops right before its run of
      barriers. */
  lemma ScanStopsAtRun(orig: seq<Op>, ops: seq<Op>, k: nat, i: nat, p: int)
    requires BarrierState(orig, ops, k, i) && k < |orig|
    requires -1 <= p < i && (forall t :: p < t < i ==> IsBarrier(ops[t]))
    requires p >= 0 ==> !IsBarrier(ops[p])
    ensures p + 1 == |Kept(orig, RunStart(orig, k))|
    ensures p >= 0 <==> RunStart(orig, k) > 0
    ensures p >= 0 ==> ops[p] == orig[RunStart(orig, k) - 1]
  {
    BarrierScan(orig, ops, k, i);
  }

  /** Find the first op with id `id`. */
  method FindFirstWithId(ops: seq<Op>, id: int) returns (idx: nat)
    requires exists j :: 0 <= j < |ops| && ops[j].id == id
    ensures FirstWithId(ops, idx, id)
  {
    idx := 0;
    while ops[idx].id != id
      invariant idx < |ops| && exists j :: idx <= j < |ops| && ops[j].id == id
      invariant forall t :: 0 <= t < idx ==> ops[t].id != id
      decreases |ops| - idx
    {
      idx := idx + 1;
    }
  }

  /** The walk that collects the allocations without operands, in order. */
  method CollectFreeAllocs(ops: seq<Op>) returns (allocs: seq<Op>)
    ensures allocs == FreeAllocs(ops, |ops|)
  {
    allocs := [];
    var i := 0;
    while i < |ops|
      invariant 0 <= i <= |ops|
      invariant allocs == FreeAllocs(ops, i)
    {
      if IsFreeAlloc(ops[i]) {
        allocs := allocs + [ops[i]];
      }
      i := i + 1;
    }
  }

  // ---------------------------------------------------------------------
  // The function body

  /** The ops of the function's entry block. */
  class FuncBody {
    var ops: seq<Op>

    constructor(ops0: seq<Op>)
      ensures ops == ops0
    {
      ops := ops0;
    }

    /** Walk the copies; for one carrying the marker, collect the barriers
        right before it and erase them when the op before them carries the
        marker too. */
    method RemoveRedundantBarriers()
      modifies this
      ensures ops == WithoutRedundantBarriers(old(ops))
    {
      ghost var orig := ops;
      var i := 0;
      ghost var k := 0;
      assert orig[0..] == orig;
      while i < |ops|
        invariant BarrierState(orig, ops, k, i)
        decreases |orig| - k
      {
        BarrierScan(orig, ops, k, i);
        if IsMarked(ops[i]) {
          var p := LastNonBarrierBefore(ops, i);
          ScanStopsAtRun(orig, ops, k, i, p);
          if p >= 0 && IsMarked(ops[p]) {
            EraseStep(orig, ops, k, i);
            ops := ops[..p + 1] + ops[i..];
            i := p + 1;
          } else {
            KeepStep(orig, ops, k, i);
          }
        } else if IsBarrier(ops[i]) {
          SkipStep(orig, ops, k, i);
        } else {
          KeepStep(orig, ops, k, i);
        }
        i := i + 1;
        k := k + 1;
      }
      BarrierDone(orig, ops, k, i);
    }

    /** Collect the allocations without operands, then move each one before
        the current first op of the body. */
    method HoistAlloc()
      modifies this
      requires DistinctIds(ops)
      ensures ops == Hoisted(old(ops))
    {
      ghost var orig := ops;
      var allocs := CollectFreeAllocs(ops);
      var m := 0;
      ghost var q := 0;
      HoistStart(orig, allocs);
      while m < |allocs|
        invariant DistinctIds(orig) && allocs == FreeAllocs(orig, |orig|)
        invariant HoistState(orig, ops, allocs, m, q)
      {
        ops, q := MoveToFront(orig, ops, allocs, m, q);
        m := m + 1;
      }
      HoistDone(orig, ops, allocs, q);
    }
  }
}
