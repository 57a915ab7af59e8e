/**
 The adaptive subdivision driver (`MultiIntegrator` and `generate` in
 multi_integrator.hpp).

 The driver keeps a worklist of evaluated regions and a running total. It
 repeatedly replaces the region with the largest key by its two halves,
 patching the total incrementally, until a convergence test passes, and then
 recomputes the total from scratch. The worklist is a `seq` whose order is
 immaterial; the binary-heap layout of `std::ranges::make_heap`, `push_heap`
 and `pop_heap` is replaced by an explicit search for a maximal region.
 */
module MultiIntegrator {
  import opened IntegralResults
  import opened IntervalRegion

  datatype Option<T> = None | Some(value: T)

  // ---------------------------------------------------------------------
  // Convergence
  // ---------------------------------------------------------------------

  /** How an array codomain is judged converged: component by component, or through a scalar norm. */
  datatype NormPolicy = NormIndividual | NormBy(norm: seq<real> -> real)

  /** `std::fabs`. */
  function Abs(x: real): real {
    if x < 0.0 then -x else x
  }

  function Max(a: real, b: real): real {
    if a < b then b else a
  }

  /** Under the individual policy, one component with this property blocks convergence. */
  predicate ComponentFails(v: real, e: real, abserr: real, relerr: real) {
    e > abserr && e > Abs(v) * relerr
  }

  /**
   The `__GNUC__ > 12` branch: walks `zip(val, err)` and stops at the first
   failing component.
   */
  function ZipWithinTolerance(vals: seq<real>, errs: seq<real>, abserr: real, relerr: real): (ok: bool)
    ensures ok <==> forall i :: 0 <= i < |vals| && i < |errs| ==>
      !ComponentFails(vals[i], errs[i], abserr, relerr)
  {
    if |vals| == 0 || |errs| == 0 then true
    else if ComponentFails(vals[0], errs[0], abserr, relerr) then false
    else
      var tail := ZipWithinTolerance(vals[1..], errs[1..], abserr, relerr);
      assert forall i :: 1 <= i < |vals| && i < |errs| ==>
        vals[i] == vals[1..][i - 1] && errs[i] == errs[1..][i - 1];
      tail
  }

  /**
   The other branch: indexes `0 <= i < ndim()`. It decides the same
   predicate as `ZipWithinTolerance`, so the two branches agree.
   */
  method IndexWithinTolerance(res: IntegralResult, abserr: real, relerr: real) returns (ok: bool)
    requires res.val.Array? && HasShape(res, ResultShape(res))
    ensures ok <==> forall i :: 0 <= i < |res.val.xs| ==>
      !ComponentFails(res.val.xs[i], res.err.xs[i], abserr, relerr)
    ensures ok == ZipWithinTolerance(res.val.xs, res.err.xs, abserr, relerr)
  {
    var i := 0;
    while i < Ndim(res)
      invariant 0 <= i <= |res.val.xs|
      invariant forall j :: 0 <= j < i ==> !ComponentFails(res.val.xs[j], res.err.xs[j], abserr, relerr)
    {
      if res.err.xs[i] > abserr && res.err.xs[i] > Abs(res.val.xs[i]) * relerr {
        return false;
      }
      i := i + 1;
    }
    return true;
  }

  /**
   `has_converged`. A scalar total passes when its error is within `abserr`
   or within `val*relerr`, with no absolute value on `val`; an array total
   follows the policy.
   */
  function HasConverged(res: IntegralResult, abserr: real, relerr: real, policy: NormPolicy): (ok: bool)
    requires HasShape(res, ResultShape(res))
    ensures res.val.Real? ==> (ok <==> res.err.x <= Max(abserr, res.val.x * relerr))
    ensures res.val.Array? && policy.NormIndividual? ==>
      (ok <==> forall i :: 0 <= i < |res.val.xs| ==>
        !ComponentFails(res.val.xs[i], res.err.xs[i], abserr, relerr))
  {
    match res.val
    case Real(v) => res.err.x <= abserr || res.err.x <= v * relerr
    case Array(vs) =>
      match policy
      case NormIndividual => ZipWithinTolerance(vs, res.err.xs, abserr, relerr)
      case NormBy(norm) => norm(res.err.xs) <= abserr || norm(res.err.xs) <= norm(vs) * relerr
  }

  /** The norm policy passes exactly when the error's norm is within `abserr` or within `norm(val)*relerr`. */
  lemma NormPolicyTest(res: IntegralResult, abserr: real, relerr: real, norm: seq<real> -> real)
    requires HasShape(res, ResultShape(res)) && res.val.Array?
    ensures HasConverged(res, abserr, relerr, NormBy(norm)) <==>
      norm(res.err.xs) <= Max(abserr, norm(res.val.xs) * relerr)
  {
  }

  /**
   The scalar test differs from the one-component array test: for
   `relerr >= 0` and a positive error, a negative value can never pass
   through `relerr` as a scalar, but does as an array. (With a negative
   `relerr`, `val*relerr` is positive and the scalar relative test can pass.)
   */
  lemma ScalarTestIgnoresSign()
    ensures !HasConverged(IntegralResult(Real(-1.0), Real(0.5)), 0.0, 1.0, NormIndividual)
    ensures HasConverged(IntegralResult(Array([-1.0]), Array([0.5])), 0.0, 1.0, NormIndividual)
  {
    var arr := IntegralResult(Array([-1.0]), Array([0.5]));
    assert !ComponentFails(arr.val.xs[0], arr.err.xs[0], 0.0, 1.0);
  }

  /**
   On a non-negative value the scalar test and the one-component array test
   agree for every error and tolerance, so the asymmetry is confined to
   negative values.
   */
  lemma ScalarTestAgreesOnNonNegative(v: real, e: real, abserr: real, relerr: real)
    ensures v >= 0.0 ==>
      (HasConverged(IntegralResult(Real(v), Real(e)), abserr, relerr, NormIndividual)
       <==> HasConverged(IntegralResult(Array([v]), Array([e])), abserr, relerr, NormIndividual))
  {
    assert ZipWithinTolerance([v], [e], abserr, relerr) <==> !ComponentFails(v, e, abserr, relerr);
  }

  // ---------------------------------------------------------------------
  // Worklist bookkeeping
  // ---------------------------------------------------------------------

  /** The state the driver carries between steps: the worklist and the running total. */
  datatype Driver = Driver(heap: seq<Region>, res: IntegralResult)

  /** `Rule::integrate` returns `IntegralResult<CodomainType>` for every limits. */
  ghost predicate RuleShaped(rule: Rule, s: Shape) {
    forall iv: Interval :: HasShape(rule(iv), s)
  }

  /** The key needs a scalar codomain or a non-empty array. */
  predicate KeyableShape(s: Shape) {
    Dim(s) > 0
  }

  predicate AllShaped(ws: seq<Region>, s: Shape) {
    forall i :: 0 <= i < |ws| ==> HasShape(ws[i].result, s)
  }

  /** The sum `IntegralResult{} + ws[0].result() + ...`, added left to right. */
  function SumResults(ws: seq<Region>, s: Shape): (total: IntegralResult)
    requires AllShaped(ws, s)
    ensures HasShape(total, s)
  {
    if |ws| == 0 then Default(s)
    else Add(SumResults(ws[..|ws| - 1], s), ws[|ws| - 1].result)
  }

  /** The sum of the lengths of the regions' limits. */
  function TotalLength(ws: seq<Region>): real {
    if |ws| == 0 then 0.0
    else TotalLength(ws[..|ws| - 1]) + Length(ws[|ws| - 1].limits)
  }

  /** Some region of the worklist contains `x`. */
  ghost predicate Covered(ws: seq<Region>, x: real) {
    exists i :: 0 <= i < |ws| && Contains(ws[i].limits, x)
  }

  predicate AllOrdered(ws: seq<Region>) {
    forall i :: 0 <= i < |ws| ==> Ordered(ws[i].limits)
  }

  /**
   What holds between steps: every region is evaluated to the codomain's
   shape and carries its key, and the running total is the sum over the
   worklist.
   */
  predicate Invariant(d: Driver, s: Shape) {
    && AllShaped(d.heap, s)
    && (forall i :: 0 <= i < |d.heap| ==> Keyed(d.heap[i]))
    && d.res == SumResults(d.heap, s)
  }

  /** The worklist with the region at index `k` taken out. */
  function Without(ws: seq<Region>, k: nat): seq<Region>
    requires k < |ws|
  {
    ws[..k] + ws[k + 1..]
  }

  /** Taking out one region subtracts its result from the sum, whichever region it is. */
  lemma {:induction false} SumWithout(ws: seq<Region>, k: nat, s: Shape)
    requires k < |ws| && AllShaped(ws, s)
    ensures AllShaped(Without(ws, k), s)
    ensures SumResults(ws, s) == Add(SumResults(Without(ws, k), s), ws[k].result)
    decreases |ws|
  {
    var n := |ws| - 1;
    var rest := Without(ws, k);
    if k == n {
      assert rest == ws[..n];
    } else {
      var init := ws[..n];
      assert init[k] == ws[k];
      SumWithout(init, k, s);
      assert rest == Without(init, k) + [ws[n]];
      assert rest[..|rest| - 1] == Without(init, k);
      AddSwapLast(SumResults(Without(init, k), s), ws[k].result, ws[n].result, s);
    }
  }

  /** Taking out one region subtracts its length from the total length. */
  lemma {:induction false} LengthWithout(ws: seq<Region>, k: nat)
    requires k < |ws|
    ensures TotalLength(ws) == TotalLength(Without(ws, k)) + Length(ws[k].limits)
    decreases |ws|
  {
    var n := |ws| - 1;
    var rest := Without(ws, k);
    if k == n {
      assert rest == ws[..n];
    } else {
      var init := ws[..n];
      assert init[k] == ws[k];
      LengthWithout(init, k);
      assert rest == Without(init, k) + [ws[n]];
      assert rest[..|rest| - 1] == Without(init, k);
    }
  }

  /**
   `generate`: one unevaluated region per entry of `limits`, in order (both
   the zip branch and the index branch build exactly this sequence).
   */
  function Generate(limits: seq<Interval>, s: Shape): (regions: seq<Region>)
    ensures |regions| == |limits|
    ensures forall i :: 0 <= i < |limits| ==>
      regions[i].limits == limits[i] && regions[i] == NewRegion(limits[i], s)
  {
    if |limits| == 0 then []
    else Generate(limits[..|limits| - 1], s) + [NewRegion(limits[|limits| - 1], s)]
  }

  /**
   `initialize`: evaluates every region in order and adds each result to a
   total starting from `IntegralResult{}`. The worklist keeps its regions,
   each now evaluated, so the total is the sum over it.
   */
  function Initialize(regions: seq<Region>, rule: Rule, s: Shape): (d: Driver)
    requires KeyableShape(s) && RuleShaped(rule, s)
    ensures EvaluatedFrom(d.heap, regions, rule)
    ensures Invariant(d, s)
  {
    if |regions| == 0 then Driver([], Default(s))
    else
      var before := Initialize(regions[..|regions| - 1], rule, s);
      var evaluated := IntervalRegion.Integrate(regions[|regions| - 1], rule);
      AppendKeepsInvariant(before, evaluated.0, s);
      AppendEvaluated(before.heap, regions, evaluated.0, rule);
      Driver(before.heap + [evaluated.0], Add(before.res, evaluated.1))
  }

  /** `heap` holds the regions of `regions`, in order, each evaluated by the rule. */
  ghost predicate EvaluatedFrom(heap: seq<Region>, regions: seq<Region>, rule: Rule) {
    && |heap| == |regions|
    && forall i :: 0 <= i < |regions| ==>
         heap[i].limits == regions[i].limits && heap[i].result == rule(regions[i].limits)
  }

  lemma AppendEvaluated(heap: seq<Region>, regions: seq<Region>, region: Region, rule: Rule)
    requires |regions| > 0 && EvaluatedFrom(heap, regions[..|regions| - 1], rule)
    requires region.limits == regions[|regions| - 1].limits && region.result == rule(region.limits)
    ensures EvaluatedFrom(heap + [region], regions, rule)
  {
    forall i | 0 <= i < |heap|
      ensures (heap + [region])[i].limits == regions[i].limits
      ensures (heap + [region])[i].result == rule(regions[i].limits)
    {
      assert regions[..|regions| - 1][i] == regions[i];
    }
  }

  /** Adding an evaluated region to the worklist and its result to the total keeps the invariant. */
  lemma AppendKeepsInvariant(d: Driver, region: Region, s: Shape)
    requires Invariant(d, s) && HasShape(region.result, s) && Keyed(region)
    ensures Invariant(Driver(d.heap + [region], Add(d.res, region.result)), s)
  {
    var heap := d.heap + [region];
    assert heap[..|heap| - 1] == d.heap;
    assert forall i :: 0 <= i < |d.heap| ==> heap[i] == d.heap[i];
  }

  /** The index of a region with the largest key (the first one, on ties). */
  function TopIndex(heap: seq<Region>): (k: nat)
    requires |heap| > 0
    ensures k < |heap|
    ensures forall i :: 0 <= i < |heap| ==> heap[i].maxerr <= heap[k].maxerr
  {
    if |heap| == 1 then 0
    else
      var k := TopIndex(heap[..|heap| - 1]);
      assert forall i :: 0 <= i < |heap| - 1 ==> heap[..|heap| - 1][i] == heap[i];
      if heap[k].maxerr < heap[|heap| - 1].maxerr then |heap| - 1 else k
  }

  /**
   `pop_top_region`: removes and returns a region that no remaining region
   is above; the worklist shrinks by exactly one.
   */
  function PopTopRegion(heap: seq<Region>): (out: (Region, seq<Region>))
    requires |heap| > 0
    ensures |out.1| == |heap| - 1
    ensures multiset(heap) == multiset(out.1) + multiset{out.0}
    ensures forall i :: 0 <= i < |out.1| ==> !Below(out.0, out.1[i])
    ensures forall i :: 0 <= i < |heap| ==> heap[i].maxerr <= out.0.maxerr
    ensures out.0 == heap[TopIndex(heap)] && out.1 == Without(heap, TopIndex(heap))
  {
    var k := TopIndex(heap);
    WithoutContents(heap, k);
    (heap[k], Without(heap, k))
  }

  /** What is left after taking out index `k`: the other regions, in order. */
  lemma WithoutContents(ws: seq<Region>, k: nat)
    requires k < |ws|
    ensures |Without(ws, k)| == |ws| - 1
    ensures multiset(ws) == multiset(Without(ws, k)) + multiset{ws[k]}
    ensures forall i :: 0 <= i < k ==> Without(ws, k)[i] == ws[i]
    ensures forall i :: k <= i < |ws| - 1 ==> Without(ws, k)[i] == ws[i + 1]
  {
    assert ws == ws[..k] + [ws[k]] + ws[k + 1..];
  }

  lemma ReplaceShaped(ws: seq<Region>, k: nat, a: Region, b: Region, s: Shape)
    requires k < |ws| && AllShaped(ws, s)
    requires HasShape(a.result, s) && HasShape(b.result, s)
    ensures AllShaped(Without(ws, k) + [a, b], s)
  {
    WithoutContents(ws, k);
  }

  /** `push_to_heap`: the worklist gains exactly the given region. */
  function PushToHeap(heap: seq<Region>, region: Region): (r: seq<Region>)
    ensures |r| == |heap| + 1
    ensures multiset(r) == multiset(heap) + multiset{region}
    ensures forall i :: 0 <= i < |heap| ==> r[i] == heap[i]
  {
    heap + [region]
  }

  /**
   `subdivide_top_region`: pops the top region, subdivides it, patches the
   total by `+= first + second - top`, and pushes both children. The
   worklist loses the top region, gains its two children, and grows by one.
   */
  function SubdivideTopRegion(d: Driver, rule: Rule, s: Shape): (d': Driver)
    requires |d.heap| > 0
    requires KeyableShape(s) && RuleShaped(rule, s)
    requires AllShaped(d.heap, s) && HasShape(d.res, s)
    ensures |d'.heap| == |d.heap| + 1
    ensures AllShaped(d'.heap, s) && HasShape(d'.res, s)
  {
    var (top, rest) := PopTopRegion(d.heap);
    assert HasShape(rule(LowerHalf(top.limits)), s) && HasShape(rule(UpperHalf(top.limits)), s);
    var (first, second) := Subdivide(top, rule);
    ReplaceShaped(d.heap, TopIndex(d.heap), first, second, s);
    var heap := PushToHeap(PushToHeap(rest, first), second);
    assert heap == rest + [first, second];
    Driver(heap, Patch(d.res, top.result, first.result, second.result, s))
  }

  /** One step in terms of the index of the popped region. */
  lemma SubdivideTopRegionParts(d: Driver, rule: Rule, s: Shape)
    requires |d.heap| > 0
    requires KeyableShape(s) && RuleShaped(rule, s)
    requires AllShaped(d.heap, s) && HasShape(d.res, s)
    ensures var k := TopIndex(d.heap);
      var children := Subdivide(d.heap[k], rule);
      && PopTopRegion(d.heap).0 == d.heap[k]
      && SubdivideTopRegion(d, rule, s).heap == Without(d.heap, k) + [children.0, children.1]
      && SubdivideTopRegion(d, rule, s).res
         == Patch(d.res, d.heap[k].result, children.0.result, children.1.result, s)
  {
  }

  /**
   A step removes a region with the largest key and adds its two children:
   the worklist's multiset becomes (old minus top) plus the children.
   */
  lemma SubdivideTopRegionReplacesTop(d: Driver, rule: Rule, s: Shape)
    requires |d.heap| > 0
    requires KeyableShape(s) && RuleShaped(rule, s)
    requires AllShaped(d.heap, s) && HasShape(d.res, s)
    ensures var top := PopTopRegion(d.heap).0;
      var children := Subdivide(top, rule);
      && top in multiset(d.heap)
      && (forall i :: 0 <= i < |d.heap| ==> d.heap[i].maxerr <= top.maxerr)
      && multiset(SubdivideTopRegion(d, rule, s).heap)
         == multiset(d.heap) - multiset{top} + multiset{children.0, children.1}
  {
    var k := TopIndex(d.heap);
    SubdivideTopRegionParts(d, rule, s);
    WithoutContents(d.heap, k);
  }

  /** `res += first + second - top`: the children's results in, the parent's out. */
  function Patch(res: IntegralResult, top: IntegralResult, first: IntegralResult, second: IntegralResult, s: Shape)
    : (r: IntegralResult)
    requires HasShape(res, s) && HasShape(top, s) && HasShape(first, s) && HasShape(second, s)
    ensures HasShape(r, s)
    ensures forall i :: 0 <= i < Dim(s) ==>
      Components(r.val)[i]
      == Components(res.val)[i] + Components(first.val)[i] + Components(second.val)[i] - Components(top.val)[i]
    ensures forall i :: 0 <= i < Dim(s) ==>
      Components(r.err)[i]
      == Components(res.err)[i] + Components(first.err)[i] + Components(second.err)[i] - Components(top.err)[i]
  {
    Add(res, Sub(Add(first, second), top))
  }

  /** Patching a total that includes the parent gives the total with the parent replaced by its children. */
  lemma PatchReplacesParent(rest: IntegralResult, top: IntegralResult, a: IntegralResult, b: IntegralResult, s: Shape)
    requires HasShape(rest, s) && HasShape(top, s) && HasShape(a, s) && HasShape(b, s)
    ensures Patch(Add(rest, top), top, a, b, s) == Add(Add(rest, a), b)
  {
    ResultExtensionality(Patch(Add(rest, top), top, a, b, s), Add(Add(rest, a), b), s);
  }

  /** Each step keeps the running total equal to the sum over the worklist. */
  lemma SubdivideTopRegionKeepsSum(d: Driver, rule: Rule, s: Shape)
    requires |d.heap| > 0
    requires KeyableShape(s) && RuleShaped(rule, s)
    requires Invariant(d, s)
    ensures Invariant(SubdivideTopRegion(d, rule, s), s)
  {
    var k := TopIndex(d.heap);
    var top := d.heap[k];
    var rest := Without(d.heap, k);
    var children := Subdivide(top, rule);
    SubdivideTopRegionParts(d, rule, s);
    WithoutContents(d.heap, k);
    SumWithout(d.heap, k, s);
    var d0 := Driver(rest, SumResults(rest, s));
    assert forall i :: 0 <= i < |rest| ==> Keyed(rest[i]) by {
      forall i | 0 <= i < |rest| ensures Keyed(rest[i]) {
        if i < k { assert rest[i] == d.heap[i]; } else { assert rest[i] == d.heap[i + 1]; }
      }
    }
    assert Invariant(d0, s);
    var d1 := Driver(rest + [children.0], Add(d0.res, children.0.result));
    AppendKeepsInvariant(d0, children.0, s);
    AppendKeepsInvariant(d1, children.1, s);
    assert rest + [children.0] + [children.1] == rest + [children.0, children.1];
    PatchReplacesParent(SumResults(rest, s), top.result, children.0.result, children.1.result, s);
  }

  /** Each step keeps the total length of the worklist's limits. */
  lemma SubdivideTopRegionKeepsLength(d: Driver, rule: Rule, s: Shape)
    requires |d.heap| > 0
    requires KeyableShape(s) && RuleShaped(rule, s)
    requires AllShaped(d.heap, s) && HasShape(d.res, s)
    ensures TotalLength(SubdivideTopRegion(d, rule, s).heap) == TotalLength(d.heap)
  {
    var k := TopIndex(d.heap);
    var children := Subdivide(d.heap[k], rule);
    SubdivideTopRegionParts(d, rule, s);
    ReplaceKeepsLength(d.heap, k, children.0, children.1);
  }

  /** Replacing one region by two whose lengths add up to its own keeps the total length. */
  lemma ReplaceKeepsLength(ws: seq<Region>, k: nat, a: Region, b: Region)
    requires k < |ws|
    requires Length(a.limits) + Length(b.limits) == Length(ws[k].limits)
    ensures TotalLength(Without(ws, k) + [a, b]) == TotalLength(ws)
  {
    var rest := Without(ws, k);
    LengthWithout(ws, k);
    assert (rest + [a, b])[..|rest| + 1] == rest + [a];
    assert (rest + [a])[..|rest|] == rest;
  }

  /** Each step keeps every region's limits ordered. */
  lemma SubdivideTopRegionKeepsOrder(d: Driver, rule: Rule, s: Shape)
    requires |d.heap| > 0
    requires KeyableShape(s) && RuleShaped(rule, s)
    requires AllShaped(d.heap, s) && HasShape(d.res, s)
    requires AllOrdered(d.heap)
    ensures AllOrdered(SubdivideTopRegion(d, rule, s).heap)
  {
    var k := TopIndex(d.heap);
    var children := Subdivide(d.heap[k], rule);
    SubdivideTopRegionParts(d, rule, s);
    ReplaceKeepsOrder(d.heap, k, children.0, children.1);
  }

  lemma ReplaceKeepsOrder(ws: seq<Region>, k: nat, a: Region, b: Region)
    requires k < |ws| && AllOrdered(ws) && Ordered(a.limits) && Ordered(b.limits)
    ensures AllOrdered(Without(ws, k) + [a, b])
  {
    WithoutContents(ws, k);
  }

  /** Replacing one region by regions that cover the same points covers the same points. */
  lemma ReplaceKeepsCover(ws: seq<Region>, k: nat, a: Region, b: Region, x: real)
    requires k < |ws|
    requires Contains(ws[k].limits, x) <==> Contains(a.limits, x) || Contains(b.limits, x)
    ensures Covered(Without(ws, k) + [a, b], x) <==> Covered(ws, x)
  {
    var rest := Without(ws, k);
    var ws' := rest + [a, b];
    WithoutContents(ws, k);
    assert ws'[|rest|] == a && ws'[|rest| + 1] == b;
    if Covered(ws, x) {
      var j :| 0 <= j < |ws| && Contains(ws[j].limits, x);
      if j < k {
        assert ws'[j] == ws[j];
      } else if j > k {
        assert ws'[j - 1] == ws[j];
      } else if Contains(a.limits, x) {
        assert Contains(ws'[|rest|].limits, x);
      } else {
        assert Contains(ws'[|rest| + 1].limits, x);
      }
    }
    if Covered(ws', x) {
      var j :| 0 <= j < |ws'| && Contains(ws'[j].limits, x);
      if j < k {
        assert ws[j] == ws'[j];
      } else if j < |rest| {
        assert ws[j + 1] == ws'[j];
      } else {
        assert Contains(ws[k].limits, x);
      }
    }
  }

  /** Each step covers exactly the points the worklist covered before, when the limits are ordered. */
  lemma SubdivideTopRegionKeepsCover(d: Driver, rule: Rule, s: Shape, x: real)
    requires |d.heap| > 0
    requires KeyableShape(s) && RuleShaped(rule, s)
    requires AllShaped(d.heap, s) && HasShape(d.res, s)
    requires AllOrdered(d.heap)
    ensures Covered(SubdivideTopRegion(d, rule, s).heap, x) <==> Covered(d.heap, x)
  {
    var k := TopIndex(d.heap);
    var top := d.heap[k];
    SubdivideTiles(top, rule, x);
    var children := Subdivide(top, rule);
    SubdivideTopRegionParts(d, rule, s);
    ReplaceKeepsCover(d.heap, k, children.0, children.1, x);
  }

  /** Every region holds the rule's estimate on its own limits. */
  predicate Evaluated(ws: seq<Region>, rule: Rule) {
    forall i :: 0 <= i < |ws| ==> ws[i].result == rule(ws[i].limits)
  }

  /** Each step keeps every region holding the rule's estimate on its own limits. */
  lemma SubdivideTopRegionKeepsEvaluated(d: Driver, rule: Rule, s: Shape)
    requires |d.heap| > 0
    requires KeyableShape(s) && RuleShaped(rule, s)
    requires AllShaped(d.heap, s) && HasShape(d.res, s)
    requires Evaluated(d.heap, rule)
    ensures Evaluated(SubdivideTopRegion(d, rule, s).heap, rule)
  {
    var k := TopIndex(d.heap);
    var children := Subdivide(d.heap[k], rule);
    SubdivideTopRegionParts(d, rule, s);
    WithoutContents(d.heap, k);
    var heap := Without(d.heap, k) + [children.0, children.1];
    forall i | 0 <= i < |heap| ensures heap[i].result == rule(heap[i].limits) {
      if i < k {
        assert heap[i] == d.heap[i];
      } else if i < |d.heap| - 1 {
        assert heap[i] == d.heap[i + 1];
      }
    }
  }

  // ---------------------------------------------------------------------
  // The driver loop
  // ---------------------------------------------------------------------

  /** Everything one step keeps, gathered for the loop. */
  lemma SubdivideTopRegionKeeps(d: Driver, rule: Rule, s: Shape)
    requires |d.heap| > 0
    requires KeyableShape(s) && RuleShaped(rule, s) && Invariant(d, s)
    ensures Invariant(SubdivideTopRegion(d, rule, s), s)
    ensures TotalLength(SubdivideTopRegion(d, rule, s).heap) == TotalLength(d.heap)
    ensures Evaluated(d.heap, rule) ==> Evaluated(SubdivideTopRegion(d, rule, s).heap, rule)
    ensures AllOrdered(d.heap) ==>
      && AllOrdered(SubdivideTopRegion(d, rule, s).heap)
      && forall x :: Covered(SubdivideTopRegion(d, rule, s).heap, x) <==> Covered(d.heap, x)
  {
    SubdivideTopRegionKeepsSum(d, rule, s);
    SubdivideTopRegionKeepsLength(d, rule, s);
    if Evaluated(d.heap, rule) {
      SubdivideTopRegionKeepsEvaluated(d, rule, s);
    }
    if AllOrdered(d.heap) {
      SubdivideTopRegionKeepsOrder(d, rule, s);
      forall x ensures Covered(SubdivideTopRegion(d, rule, s).heap, x) <==> Covered(d.heap, x) {
        SubdivideTopRegionKeepsCover(d, rule, s, x);
      }
    }
  }

  /**
   The loop `while (!has_converged(res, ...)) subdivide_top_region(f, res);`
   started in `d` exits in `d'`: the test fails on every state before `d'`,
   each obtained from the previous one by `subdivide_top_region`, and passes
   on `d'`. The number of passes is `|d'.heap| - |d.heap|`.
   */
  ghost predicate LoopExits(d: Driver, d': Driver, rule: Rule, s: Shape, abserr: real, relerr: real, policy: NormPolicy)
    requires KeyableShape(s) && RuleShaped(rule, s)
    requires AllShaped(d.heap, s) && HasShape(d.res, s)
    decreases |d'.heap| - |d.heap|
  {
    if HasConverged(d.res, abserr, relerr, policy) then d' == d
    else
      && 0 < |d.heap| < |d'.heap|
      && LoopExits(SubdivideTopRegion(d, rule, s), d', rule, s, abserr, relerr, policy)
  }

  /** The same loop started in `d` is still running after `n` passes: the test fails on all `n + 1` states. */
  ghost predicate LoopRuns(d: Driver, n: nat, rule: Rule, s: Shape, abserr: real, relerr: real, policy: NormPolicy)
    requires KeyableShape(s) && RuleShaped(rule, s)
    requires AllShaped(d.heap, s) && HasShape(d.res, s)
    decreases n
  {
    && !HasConverged(d.res, abserr, relerr, policy)
    && |d.heap| > 0
    && (n == 0 || LoopRuns(SubdivideTopRegion(d, rule, s), n - 1, rule, s, abserr, relerr, policy))
  }

  /** The loop is deterministic: it exits in at most one state. */
  lemma {:induction false} LoopExitsUnique(d: Driver, a: Driver, b: Driver, rule: Rule, s: Shape,
                                          abserr: real, relerr: real, policy: NormPolicy)
    requires KeyableShape(s) && RuleShaped(rule, s)
    requires AllShaped(d.heap, s) && HasShape(d.res, s)
    ensures LoopExits(d, a, rule, s, abserr, relerr, policy) && LoopExits(d, b, rule, s, abserr, relerr, policy) ==> a == b
    decreases |a.heap| - |d.heap|
  {
    if LoopExits(d, a, rule, s, abserr, relerr, policy) && LoopExits(d, b, rule, s, abserr, relerr, policy)
      && !HasConverged(d.res, abserr, relerr, policy)
    {
      LoopExitsUnique(SubdivideTopRegion(d, rule, s), a, b, rule, s, abserr, relerr, policy);
    }
  }

  /**
   The `while (!has_converged(res, ...)) subdivide_top_region(f, res);` loop,
   observed for at most `fuel` iterations. `Some(d')` is the state in which
   the loop exits (`LoopExits`), after `|d'.heap| - |d.heap|` subdivisions;
   `None` means the loop is still running after `fuel` subdivisions
   (`LoopRuns`).
   */
  function Refine(d: Driver, rule: Rule, s: Shape, abserr: real, relerr: real, policy: NormPolicy, fuel: nat)
    : (out: Option<Driver>)
    requires KeyableShape(s) && RuleShaped(rule, s) && Invariant(d, s)
    requires |d.heap| > 0 || HasConverged(d.res, abserr, relerr, policy)
    ensures out.Some? ==>
      && Invariant(out.value, s)
      && HasConverged(out.value.res, abserr, relerr, policy)
      && |d.heap| <= |out.value.heap| <= |d.heap| + fuel
      && TotalLength(out.value.heap) == TotalLength(d.heap)
    ensures out.Some? ==> LoopExits(d, out.value, rule, s, abserr, relerr, policy)
    ensures out.None? ==> LoopRuns(d, fuel, rule, s, abserr, relerr, policy)
    ensures out.Some? && Evaluated(d.heap, rule) ==> Evaluated(out.value.heap, rule)
    ensures out.Some? && AllOrdered(d.heap) ==>
      && AllOrdered(out.value.heap)
      && forall x :: Covered(out.value.heap, x) <==> Covered(d.heap, x)
    ensures HasConverged(d.res, abserr, relerr, policy) ==> out == Some(d)
    decreases fuel
  {
    if HasConverged(d.res, abserr, relerr, policy) then Some(d)
    else if fuel == 0 then None
    else
      SubdivideTopRegionKeeps(d, rule, s);
      Refine(SubdivideTopRegion(d, rule, s), rule, s, abserr, relerr, policy, fuel - 1)
  }

  /**
   The closing resummation: `res = Result{}` followed by `res +=
   region.result()` over the worklist.
   */
  method Resum(heap: seq<Region>, s: Shape) returns (res: IntegralResult)
    requires AllShaped(heap, s)
    ensures res == SumResults(heap, s)
  {
    res := Default(s);
    var i := 0;
    while i < |heap|
      invariant 0 <= i <= |heap|
      invariant res == SumResults(heap[..i], s)
    {
      assert heap[..i + 1][..i] == heap[..i];
      res := Add(res, heap[i].result);
      i := i + 1;
    }
    assert heap[..|heap|] == heap;
  }

  /**
   `integrate`: generates and evaluates one region per entry of `limits`,
   refines until converged, and returns the resummed total. Because the
   running total always equals the sum over the worklist, the resummation
   returns the very total that passed the convergence test.
   */
  method Integrate(rule: Rule, limits: seq<Interval>, abserr: real, relerr: real,
                   policy: NormPolicy, s: Shape, fuel: nat)
    returns (out: Option<IntegralResult>)
    requires KeyableShape(s) && RuleShaped(rule, s)
    requires |limits| > 0 || HasConverged(Default(s), abserr, relerr, policy)
    ensures out.Some? ==> HasShape(out.value, s) && HasConverged(out.value, abserr, relerr, policy)
    ensures |limits| == 0 ==> out == Some(Default(s))
    ensures var final := Refine(Initialize(Generate(limits, s), rule, s), rule, s, abserr, relerr, policy, fuel);
      && (out.Some? <==> final.Some?)
      && (out.Some? ==> out.value == SumResults(final.value.heap, s) == final.value.res)
  {
    var d := Initialize(Generate(limits, s), rule, s);
    var refined := Refine(d, rule, s, abserr, relerr, policy, fuel);
    if refined.None? {
      return None;
    }
    var total := Resum(refined.value.heap, s);
    return Some(total);
  }

  /**
   The worklist on which `integrate` stops covers exactly the points of the
   (ordered) input limits and has their total length. It holds one region
   per input plus one per subdivision, and its resummation is the running
   total that passed the test.
   */
  lemma RefinedWorklistCoversDomain(rule: Rule, limits: seq<Interval>, abserr: real, relerr: real,
                                    policy: NormPolicy, s: Shape, fuel: nat, x: real)
    requires KeyableShape(s) && RuleShaped(rule, s)
    requires |limits| > 0 || HasConverged(Default(s), abserr, relerr, policy)
    requires forall i :: 0 <= i < |limits| ==> Ordered(limits[i])
    ensures var d := Initialize(Generate(limits, s), rule, s);
      var out := Refine(d, rule, s, abserr, relerr, policy, fuel);
      out.Some? ==>
        && TotalLength(out.value.heap) == TotalLength(Generate(limits, s))
        && (Covered(out.value.heap, x) <==> exists i :: 0 <= i < |limits| && Contains(limits[i], x))
        && SumResults(out.value.heap, s) == out.value.res
        && HasConverged(SumResults(out.value.heap, s), abserr, relerr, policy)
        && |limits| <= |out.value.heap| <= |limits| + fuel
  {
    var regions := Generate(limits, s);
    var d := Initialize(regions, rule, s);
    SameLimitsSameLength(d.heap, regions);
    InitialWorklistCovers(limits, d.heap, x);
  }

  /**
   The worklist on which `integrate` stops is the first state of the loop,
   started from the generated and evaluated input regions, that passes the
   convergence test, and every region in it holds the rule's result on its
   own limits.
   */
  lemma RefinedWorklistIsLoopExit(rule: Rule, limits: seq<Interval>, abserr: real, relerr: real,
                                  policy: NormPolicy, s: Shape, fuel: nat)
    requires KeyableShape(s) && RuleShaped(rule, s)
    requires |limits| > 0 || HasConverged(Default(s), abserr, relerr, policy)
    ensures var d := Initialize(Generate(limits, s), rule, s);
      var out := Refine(d, rule, s, abserr, relerr, policy, fuel);
      out.Some? ==>
        && Evaluated(out.value.heap, rule)
        && LoopExits(d, out.value, rule, s, abserr, relerr, policy)
  {
    var d := Initialize(Generate(limits, s), rule, s);
    assert Evaluated(d.heap, rule);
  }

  /** A worklist built region by region from `limits` is ordered when they are, and covers their points. */
  lemma InitialWorklistCovers(limits: seq<Interval>, heap: seq<Region>, x: real)
    requires |heap| == |limits| && forall i :: 0 <= i < |limits| ==> heap[i].limits == limits[i]
    requires forall i :: 0 <= i < |limits| ==> Ordered(limits[i])
    ensures AllOrdered(heap)
    ensures Covered(heap, x) <==> exists i :: 0 <= i < |limits| && Contains(limits[i], x)
  {
    if exists i :: 0 <= i < |limits| && Contains(limits[i], x) {
      var i :| 0 <= i < |limits| && Contains(limits[i], x);
      assert Contains(heap[i].limits, x);
    }
  }

  /** Two worklists with the same limits, index by index, have the same total length. */
  lemma {:induction false} SameLimitsSameLength(a: seq<Region>, b: seq<Region>)
    requires |a| == |b|
    requires forall i :: 0 <= i < |a| ==> a[i].limits == b[i].limits
    ensures TotalLength(a) == TotalLength(b)
    decreases |a|
  {
    if |a| > 0 {
      SameLimitsSameLength(a[..|a| - 1], b[..|b| - 1]);
    }
  }
}
