/** Thread ids of the aligned path: the flat id built from the 3-D thread
    id, and its mixed-radix decomposition onto the loop ranges of a
    distributed copy, one processor id per loop. All values are the integers
    the generated index expressions denote. */
module ProcIds {
  import opened SeqUtil
  import opened Arith

  /** A loop range with constant bounds. */
  datatype Range = Range(offset: int, size: int, stride: int)

  datatype DistributionMethod =
    | Cyclic
    | CyclicNumProcsGeNumIters
    | CyclicNumProcsEqNumIters
    | NoDistribution

  /** Processor id and processor count that distribute one loop. */
  datatype ProcInfo = ProcInfo(procId: int, nprocs: int, distributionMethod: DistributionMethod)

  /** A 3-D thread id or workgroup size, x innermost. */
  datatype Dim3 = Dim3(x: int, y: int, z: int)

  // ---------------------------------------------------------------------
  // createFlatId

  /** The number of threads of a workgroup. */
  function FlatWorkgroupSize(workgroupSize: Dim3): int
  {
    workgroupSize.x * workgroupSize.y * workgroupSize.z
  }

  /** `x + Sx * y + (Sx * Sy) * z` for thread id (x, y, z). */
  function CreateFlatId(workgroupSize: Dim3, threadId: Dim3): int
  {
    threadId.x + workgroupSize.x * threadId.y + (workgroupSize.x * workgroupSize.y) * threadId.z
  }

  predicate InWorkgroup(workgroupSize: Dim3, threadId: Dim3)
  {
    && 0 <= threadId.x < workgroupSize.x
    && 0 <= threadId.y < workgroupSize.y
    && 0 <= threadId.z < workgroupSize.z
  }

  /** The flat id of a thread of the workgroup is one of `0 .. Sx*Sy*Sz - 1`,
      and the thread id is recovered from it digit by digit. */
  lemma FlatIdInverse(workgroupSize: Dim3, threadId: Dim3)
    requires InWorkgroup(workgroupSize, threadId)
    ensures 0 <= CreateFlatId(workgroupSize, threadId) < FlatWorkgroupSize(workgroupSize)
    ensures CreateFlatId(workgroupSize, threadId) % workgroupSize.x == threadId.x
    ensures CreateFlatId(workgroupSize, threadId) / workgroupSize.x % workgroupSize.y == threadId.y
    ensures CreateFlatId(workgroupSize, threadId) / (workgroupSize.x * workgroupSize.y) == threadId.z
  {
    var sx, sy, sz := workgroupSize.x, workgroupSize.y, workgroupSize.z;
    var x, y, z := threadId.x, threadId.y, threadId.z;
    var id := CreateFlatId(workgroupSize, threadId);
    var low := x + sx * y;
    DigitsBound(x, y, sx, sy);
    DigitsBound(low, z, sx * sy, sz);
    assert id == low + (sx * sy) * z;
    DivModUnique(id, sx * sy, z, low);
    var high := y + sy * z;
    assert id == high * sx + x by {
      MulAssoc(sx, sy, z);
      assert high * sx == sx * y + sx * (sy * z);
    }
    DivModUnique(id, sx, high, x);
    DivModUnique(high, sy, z, y);
  }

  // ---------------------------------------------------------------------
  // getIds

  /** `(size - offset) / stride`: the number of threads along a loop, that
      is, for a positive stride, the number of whole strides that fit in the
      range. */
  function NumProcs(r: Range): (n: int)
    requires r.stride != 0
    ensures r.stride > 0 && r.offset <= r.size ==>
              0 <= n && n * r.stride <= r.size - r.offset < (n + 1) * r.stride
  {
    var n := TruncDiv(r.size - r.offset, r.stride);
    assert (n + 1) * r.stride == n * r.stride + r.stride;
    n
  }

  /** Loop ranges `getIds` can break a flat id onto: each one has a
      non-zero stride and at least one thread, so that the modulo and
      floor division by its thread count are defined. */
  predicate ValidRanges(ranges: seq<Range>)
  {
    forall k :: 0 <= k < |ranges| ==> ranges[k].stride != 0 && NumProcs(ranges[k]) >= 1
  }

  /** Product of the thread counts of `ranges`. */
  ghost function RangesProcs(ranges: seq<Range>): (p: int)
    requires ValidRanges(ranges)
    ensures p >= 1
  {
    if ranges == [] then 1
    else
      var rest := RangesProcs(ranges[1..]);
      MulPositive(NumProcs(ranges[0]), rest);
      NumProcs(ranges[0]) * rest
  }

  lemma RangesProcsAt(ranges: seq<Range>, k: nat)
    requires ValidRanges(ranges) && k < |ranges|
    ensures RangesProcs(ranges[k..]) == NumProcs(ranges[k]) * RangesProcs(ranges[k + 1..])
  {
    assert ranges[k..][1..] == ranges[k + 1..];
  }

  /** Processor id of loop `k` for flat id `id`: the `k`-th mixed-radix
      digit, with the outermost loop taking the whole quotient. */
  ghost function ProcIdOf(ranges: seq<Range>, id: int, k: nat): int
    requires ValidRanges(ranges) && k < |ranges|
  {
    var below := id / RangesProcs(ranges[k + 1..]);
    if k == 0 then below else below % NumProcs(ranges[k])
  }

  /** The digits of `id` for ranges `k ..`, as `getIds` reports them. */
  ghost function Digits(ranges: seq<Range>, id: int, k: nat): (d: seq<ProcInfo>)
    requires ValidRanges(ranges) && k <= |ranges|
    ensures |d| == |ranges| - k
    decreases |ranges| - k
  {
    if k == |ranges| then []
    else [ProcInfo(ProcIdOf(ranges, id, k), NumProcs(ranges[k]), CyclicNumProcsEqNumIters)]
         + Digits(ranges, id, k + 1)
  }

  lemma {:induction false} DigitsAt(ranges: seq<Range>, id: int, k: nat, j: nat)
    requires ValidRanges(ranges) && k <= j < |ranges|
    ensures Digits(ranges, id, k)[j - k]
            == ProcInfo(ProcIdOf(ranges, id, j), NumProcs(ranges[j]), CyclicNumProcsEqNumIters)
    decreases j - k
  {
    if k < j {
      DigitsAt(ranges, id, k + 1, j);
    }
  }

  /** Product of the processor counts of `infos`. */
  function NprocsProduct(infos: seq<ProcInfo>): int
  {
    if infos == [] then 1 else infos[0].nprocs * NprocsProduct(infos[1..])
  }

  lemma {:induction false} DigitsProduct(ranges: seq<Range>, id: int, k: nat)
    requires ValidRanges(ranges) && k <= |ranges|
    ensures NprocsProduct(Digits(ranges, id, k)) == RangesProcs(ranges[k..])
    decreases |ranges| - k
  {
    if k < |ranges| {
      DigitsProduct(ranges, id, k + 1);
      RangesProcsAt(ranges, k);
      assert Digits(ranges, id, k)[1..] == Digits(ranges, id, k + 1);
    }
  }

  /** `sum over i of procId_i * (product over j > i of nprocs_j)`: the flat
      id a list of processor ids stands for. */
  function Recombine(infos: seq<ProcInfo>): int
  {
    if infos == [] then 0
    else infos[0].procId * NprocsProduct(infos[1..]) + Recombine(infos[1..])
  }

  /** Break the flat id up onto the loop ranges. The loop walks the ranges
      from innermost to outermost, takes the id modulo the range's thread
      count (except for the outermost range, which keeps what is left of the
      id), divides the id by that count, and finally reverses the list. The
      result has one entry per range in the original order, each the
      mixed-radix digit of the flat id; when there is at least one range,
      recombining the digits gives back the flat id, and for a flat id below
      the product of the thread counts every digit is below its thread
      count. */
  method GetIds(ranges: seq<Range>, flatThreadId: int) returns (infos: seq<ProcInfo>)
    requires ValidRanges(ranges)
    ensures |infos| == |ranges|
    ensures forall k :: 0 <= k < |ranges| ==>
              infos[k] == ProcInfo(ProcIdOf(ranges, flatThreadId, k), NumProcs(ranges[k]),
                                   CyclicNumProcsEqNumIters)
    ensures |ranges| > 0 ==> Recombine(infos) == flatThreadId
    ensures 0 <= flatThreadId < RangesProcs(ranges) ==>
              forall k :: 0 <= k < |infos| ==> 0 <= infos[k].procId < infos[k].nprocs
  {
    var n := |ranges|;
    var reversed: seq<ProcInfo> := [];
    var id := flatThreadId;
    var i := 0;
    ghost var done: seq<ProcInfo> := [];
    GetIdsStart(ranges, flatThreadId);
    while i < n
      invariant 0 <= i <= n && done == Reverse(reversed)
      invariant GetIdsProgress(ranges, flatThreadId, i, id, done)
    {
      var r := ranges[n - 1 - i];
      var numThreadsDim := NumProcs(r);
      var dimId := id;
      if i != n - 1 {
        dimId := id % numThreadsDim;
      }
      var info := ProcInfo(dimId, numThreadsDim, CyclicNumProcsEqNumIters);
      GetIdsAdvance(ranges, flatThreadId, i, id, dimId, done);
      ReverseSnoc(reversed, info);
      reversed := reversed + [info];
      done := [info] + done;
      id := id / numThreadsDim;
      i := i + 1;
    }
    infos := Reverse(reversed);
    DigitsResult(ranges, flatThreadId, infos);
  }

  /** The digits of a flat id, one per range: each entry is that range's
      processor id and thread count, and for a flat id below the product of
      the thread counts every processor id is in range. */
  lemma DigitsResult(ranges: seq<Range>, flatThreadId: int, infos: seq<ProcInfo>)
    requires ValidRanges(ranges) && infos == Digits(ranges, flatThreadId, 0)
    ensures |infos| == |ranges|
    ensures forall k :: 0 <= k < |ranges| ==>
              infos[k] == ProcInfo(ProcIdOf(ranges, flatThreadId, k), NumProcs(ranges[k]),
                                   CyclicNumProcsEqNumIters)
    ensures 0 <= flatThreadId < RangesProcs(ranges) ==>
              forall k :: 0 <= k < |infos| ==> 0 <= infos[k].procId < infos[k].nprocs
  {
    forall k | 0 <= k < |ranges|
      ensures infos[k] == ProcInfo(ProcIdOf(ranges, flatThreadId, k), NumProcs(ranges[k]),
                                   CyclicNumProcsEqNumIters)
    {
      DigitsAt(ranges, flatThreadId, 0, k);
    }
    if 0 <= flatThreadId < RangesProcs(ranges) {
      forall k | 0 <= k < |infos| ensures 0 <= infos[k].procId < infos[k].nprocs {
        ProcIdOfBounds(ranges, flatThreadId, k);
      }
    }
  }

  /** The state of `GetIds` after the `i` innermost ranges: `done` holds
      their digits, `id` is what is left of the flat id, and the two
      recombine to the flat id. */
  ghost predicate GetIdsProgress(ranges: seq<Range>, flatId: int, i: nat, id: int, done: seq<ProcInfo>)
    requires ValidRanges(ranges)
  {
    && i <= |ranges|
    && done == Digits(ranges, flatId, |ranges| - i)
    && id == flatId / RangesProcs(ranges[|ranges| - i..])
    && (i < |ranges| ==> id * RangesProcs(ranges[|ranges| - i..]) + Recombine(done) == flatId)
    && (0 < i == |ranges| ==> Recombine(done) == flatId)
  }

  lemma GetIdsStart(ranges: seq<Range>, flatId: int)
    requires ValidRanges(ranges)
    ensures GetIdsProgress(ranges, flatId, 0, flatId, [])
  {
    assert ranges[|ranges|..] == [];
  }

  /** One iteration of `GetIds`, on the range `i` places from the inside. */
  lemma GetIdsAdvance(ranges: seq<Range>, flatId: int, i: nat, id: int, dimId: int, done: seq<ProcInfo>)
    requires ValidRanges(ranges) && i < |ranges|
    requires GetIdsProgress(ranges, flatId, i, id, done)
    requires dimId == if i == |ranges| - 1 then id else id % NumProcs(ranges[|ranges| - 1 - i])
    ensures GetIdsProgress(ranges, flatId, i + 1, id / NumProcs(ranges[|ranges| - 1 - i]),
                           [ProcInfo(dimId, NumProcs(ranges[|ranges| - 1 - i]), CyclicNumProcsEqNumIters)] + done)
  {
    var k := |ranges| - 1 - i;
    assert |ranges| - (i + 1) == k && |ranges| - i == k + 1;
    GetIdsStep(ranges, flatId, k, id, dimId, done);
  }

  /** One step of `GetIds`, on range `k`, keeps the loop invariant. */
  lemma GetIdsStep(ranges: seq<Range>, flatId: int, k: nat, id: int, dimId: int, done: seq<ProcInfo>)
    requires ValidRanges(ranges) && k < |ranges|
    requires done == Digits(ranges, flatId, k + 1)
    requires id == flatId / RangesProcs(ranges[k + 1..])
    requires dimId == if k == 0 then id else id % NumProcs(ranges[k])
    requires id * RangesProcs(ranges[k + 1..]) + Recombine(done) == flatId
    ensures [ProcInfo(dimId, NumProcs(ranges[k]), CyclicNumProcsEqNumIters)] + done
            == Digits(ranges, flatId, k)
    ensures id / NumProcs(ranges[k]) == flatId / RangesProcs(ranges[k..])
    ensures k > 0 ==> (id / NumProcs(ranges[k])) * RangesProcs(ranges[k..])
                      + Recombine([ProcInfo(dimId, NumProcs(ranges[k]), CyclicNumProcsEqNumIters)] + done)
                      == flatId
    ensures k == 0 ==> Recombine([ProcInfo(dimId, NumProcs(ranges[k]), CyclicNumProcsEqNumIters)] + done)
                       == flatId
  {
    var nt := NumProcs(ranges[k]);
    var below := RangesProcs(ranges[k + 1..]);
    var info := ProcInfo(dimId, nt, CyclicNumProcsEqNumIters);
    RangesProcsAt(ranges, k);
    DigitsProduct(ranges, flatId, k + 1);
    assert ([info] + done)[1..] == done;
    DivDiv(flatId, below, nt);
    assert below * nt == nt * below;
    if k > 0 {
      NextDigit(id, nt, below, Recombine(done));
    }
  }

  /** For a flat id below the product of the thread counts every digit is
      below its range's thread count. */
  lemma ProcIdOfBounds(ranges: seq<Range>, id: int, k: nat)
    requires ValidRanges(ranges) && k < |ranges|
    requires 0 <= id < RangesProcs(ranges)
    ensures 0 <= ProcIdOf(ranges, id, k) < NumProcs(ranges[k])
  {
    if k == 0 {
      RangesProcsAt(ranges, 0);
      assert ranges[0..] == ranges;
      QuotientBound(id, NumProcs(ranges[0]), RangesProcs(ranges[1..]));
    }
  }

  // ---------------------------------------------------------------------
  // Every tuple of digits is the decomposition of exactly one flat id

  /** Processor ids that fit their loops: every id but the outermost is
      below its thread count. */
  ghost predicate FitsRanges(ranges: seq<Range>, infos: seq<ProcInfo>)
  {
    && ValidRanges(ranges)
    && |infos| == |ranges|
    && (forall k :: 0 <= k < |infos| ==> infos[k].nprocs == NumProcs(ranges[k]))
    && (forall k :: 0 < k < |infos| ==> 0 <= infos[k].procId < infos[k].nprocs)
  }

  lemma {:induction false} NprocsProductOfFit(ranges: seq<Range>, infos: seq<ProcInfo>)
    requires ValidRanges(ranges) && |infos| == |ranges|
    requires forall k :: 0 <= k < |infos| ==> infos[k].nprocs == NumProcs(ranges[k])
    ensures NprocsProduct(infos) == RangesProcs(ranges)
  {
    if infos != [] {
      NprocsProductOfFit(ranges[1..], infos[1..]);
    }
  }

  lemma {:induction false} NprocsProductSplit(d: seq<ProcInfo>, m: nat)
    requires m <= |d|
    ensures NprocsProduct(d) == NprocsProduct(d[..m]) * NprocsProduct(d[m..])
  {
    if m > 0 {
      NprocsProductSplit(d[1..], m - 1);
      assert d[..m][1..] == d[1..][..m - 1];
      assert d[1..][m - 1..] == d[m..];
      MulAssoc(d[0].nprocs, NprocsProduct(d[1..][..m - 1]), NprocsProduct(d[m..]));
    } else {
      assert d[0..] == d;
    }
  }

  /** Recombining a list of digits splits at any position `m` into the
      prefix's value scaled by the suffix's processor count, plus the
      suffix's value. */
  lemma {:induction false} RecombineSplit(d: seq<ProcInfo>, m: nat)
    requires m <= |d|
    ensures Recombine(d) == Recombine(d[..m]) * NprocsProduct(d[m..]) + Recombine(d[m..])
  {
    if m > 0 {
      var t := d[1..];
      RecombineSplit(t, m - 1);
      NprocsProductSplit(t, m - 1);
      assert d[..m][1..] == t[..m - 1];
      assert t[m - 1..] == d[m..];
      var p, a, b := d[0].procId, NprocsProduct(t[..m - 1]), NprocsProduct(d[m..]);
      var ra, rb := Recombine(t[..m - 1]), Recombine(d[m..]);
      SplitArith(Recombine(d), Recombine(d[..m]), p, NprocsProduct(t), Recombine(t), a, b, ra, rb);
    } else {
      assert d[0..] == d;
    }
  }

  lemma SplitArith(rd: int, rdm: int, p: int, nt: int, rt: int, a: int, b: int, ra: int, rb: int)
    requires rd == p * nt + rt && nt == a * b && rt == ra * b + rb
    requires rdm == p * a + ra
    ensures rd == rdm * b + rb
  {
    assert a * b == b * a;
    Regroup(p, b, a, ra, rb);
  }

  /** Digits that are each below their processor count recombine to a flat
      id below the product of the counts. */
  lemma {:induction false} RecombineBounds(d: seq<ProcInfo>)
    requires forall k :: 0 <= k < |d| ==> 0 <= d[k].procId < d[k].nprocs
    ensures 0 <= Recombine(d) < NprocsProduct(d)
  {
    if d != [] {
      RecombineBounds(d[1..]);
      DigitsBound(Recombine(d[1..]), d[0].procId, NprocsProduct(d[1..]), d[0].nprocs);
      assert NprocsProduct(d[1..]) * d[0].procId == d[0].procId * NprocsProduct(d[1..]);
      assert NprocsProduct(d[1..]) * d[0].nprocs == d[0].nprocs * NprocsProduct(d[1..]);
    }
  }

  /** The value of a prefix ending in digit `k` is the value of the shorter
      prefix times the digit's count, plus the digit. */
  lemma PrefixValue(d: seq<ProcInfo>, k: nat)
    requires k < |d|
    ensures Recombine(d[..k + 1]) == Recombine(d[..k]) * d[k].nprocs + d[k].procId
  {
    var pre := d[..k + 1];
    RecombineSplit(pre, k);
    assert pre[..k] == d[..k];
    assert pre[k..] == [d[k]];
    assert [d[k]][1..] == [];
  }

  /** Decomposing the recombination of digits that fit the ranges gives back
      every digit: each tuple of processor ids is reached by exactly one
      flat id, so the distributed loops cover every iteration. */
  lemma DigitsOfRecombine(ranges: seq<Range>, d: seq<ProcInfo>, k: nat)
    requires FitsRanges(ranges, d) && k < |d|
    ensures ProcIdOf(ranges, Recombine(d), k) == d[k].procId
  {
    var suffix := d[k + 1..];
    forall j | 0 <= j < |suffix| ensures 0 <= suffix[j].procId < suffix[j].nprocs {
      assert suffix[j] == d[k + 1 + j];
    }
    RecombineBounds(suffix);
    RecombineSplit(d, k + 1);
    NprocsProductOfFit(ranges[k + 1..], suffix);
    var a, b, c := Recombine(d[..k + 1]), NprocsProduct(suffix), Recombine(suffix);
    DivModUnique(Recombine(d), b, a, c);
    PrefixValue(d, k);
    if k == 0 {
      assert d[..0] == [];
    } else {
      DivModUnique(a, d[k].nprocs, Recombine(d[..k]), d[k].procId);
    }
  }
}
