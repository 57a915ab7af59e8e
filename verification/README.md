# cubage: adaptive one-dimensional subdivision, modelled in Dafny

cubage is a header-only C++ library for adaptive numerical integration. This
project models the part of it that does not depend on any concrete quadrature
rule:

- `IntegralResult<T>`: a value/error pair over a scalar or a fixed-length
  array codomain, with componentwise `+=`, `-=`, `+` and `-`. This is module
  `IntegralResults` in `integral_result.dfy`.
- `Interval<T>` and `IntegrationInterval<Rule>`: a one-dimensional region. It
  holds its limits, the cached result of the rule on those limits, and the
  ordering key `maxerr` derived from that result's error. It can be bisected
  at its centre into two evaluated halves. This is module `IntervalRegion` in
  `interval_region.dfy`.
- `MultiIntegrator` and `generate`: the adaptive driver. It builds one region
  per input interval, evaluates them all and sums them into a running total.
  It then repeatedly replaces the region with the largest key by its two
  halves, patching the total incrementally, until one of three convergence
  tests passes. Finally it recomputes the total from scratch. This is module
  `MultiIntegrator` in `multi_integrator.dfy`.

Model choices:

- `double` is modelled as `real`, so the algebra of results holds exactly.
- A codomain is a `Value`: either `Real(x)` or `Array(xs)`. A `Shape` plays
  the role of the compile-time type `T`, and `Components` gives both cases
  one componentwise view.
- The quadrature rule with the integrand already applied is a parameter
  `rule: Interval -> IntegralResult`. All the model asks of it is that it
  returns results of the codomain's shape (`RuleShaped`).
- The worklist is a `seq<Region>`. The `std::ranges` heap is replaced by an
  explicit search for a region with the largest key (`TopIndex`).
- The unbounded `while (!has_converged(...))` loop is observed for at most
  `fuel` subdivisions (`Refine`).

The central facts proved:

- The running total always equals the sum of the results over the worklist.
  As a consequence, the closing resummation returns exactly the total that
  passed the convergence test.
- Every step removes a region of maximal key and adds its two children. The
  worklist therefore grows by exactly one per step.
- Bisection tiles the parent exactly.
- Over ordered input limits, the final worklist covers exactly the input's
  points and keeps its total length.
- Each convergence test is given exactly, in all three of its forms.
- Every region on the worklist holds the rule's result on its own limits.
- `Refine` follows the source loop step for step, up to the choice among
  regions of equal key. When it returns a state,
  that state is the first converged one along the `SubdivideTopRegion`
  iterates (`LoopExits`), and that exit state is unique
  (`LoopExitsUnique`). When it runs out of fuel, none of the states it
  visited had converged (`LoopRuns`). `Integrate` returns exactly the
  resummation of that exit state's worklist.

One asymmetry in the source is recorded rather than corrected. The scalar
convergence test `err <= abserr || err <= val*relerr` takes no absolute value
of `val`. The individual array test uses `fabs(val)`, in both of its
branches; the norm test uses `norm(val)`. For `relerr >= 0` and a
positive error, a negative scalar integral can therefore only converge through
`abserr`. A negative `relerr` turns `val*relerr` positive, so there the
relative test can pass. `ScalarTestIgnoresSign` shows
an input on which the scalar and the one-component array tests disagree, and
`ScalarTestAgreesOnNonNegative` shows that they agree on every non-negative
value. The model keeps the source's behaviour.

## Model

| member | source | states |
|---|---|---|
| `IntegralResults.Ndim` | integral_result.hpp:43-49 | `ndim()` is 1 for a scalar codomain and the array length otherwise; it is the number of components of both `val` and `err` |
| `IntegralResults.Default` | integral_result.hpp:38-41 | the value-initialised `IntegralResult{}` has the codomain's shape and every component of `val` and `err` zero |
| `IntegralResults.Add` | integral_result.hpp:51-56 | `+=` (and `+`, a copy followed by `+=`) adds `val` and `err` component by component and keeps the shape |
| `IntegralResults.Sub` | integral_result.hpp:58-63 | `-=` (and `-`) subtracts `val` and `err` component by component and keeps the shape |
| `IntegralResults.AddCommutative` | integral_result.hpp:65-71 | `a + b == b + a` |
| `IntegralResults.AddAssociative` | integral_result.hpp:65-71 | `(a + b) + c == a + (b + c)` |
| `IntegralResults.DefaultIsIdentity` | integral_result.hpp:38-41 | `IntegralResult{}` is a two-sided identity for `+` |
| `IntegralResults.SubUndoesAdd` | integral_result.hpp:65-79 | `(a + b) - b == a` |
| `IntegralResults.AddUndoesSub` | integral_result.hpp:65-79 | `(a - b) + b == a` |
| `IntegralResults.SubSelfIsDefault` | integral_result.hpp:73-79 | `b - b` is `IntegralResult{}`, so adding it changes nothing |
| `IntegralResults.AddSwapLast` | integral_result.hpp:51-56 | in a running sum built by `+=`, the order of the last two summands does not matter |
| `IntervalRegion.Length` | interval_region.hpp:20-23 | `xmin + length() == xmax`, and the length is non-negative exactly when the limits are ordered |
| `IntervalRegion.Center` | interval_region.hpp:25-28 | the centre is equidistant from both limits, and lies between them when they are ordered |
| `IntervalRegion.MaxElement` | interval_region.hpp:84 | `*max_element` of a non-empty array is one of its elements and no element exceeds it |
| `IntervalRegion.MaxErr` | interval_region.hpp:81-84 | the key is the error itself for a scalar, and the largest error component for an array |
| `IntervalRegion.NewRegion` | interval_region.hpp:53-57 | both constructors store the limits and leave the result zero and the key zero |
| `IntervalRegion.Integrate` | interval_region.hpp:78-86 | `integrate` stores the rule's result on the region's own limits and returns it, keeps the limits, and keys the region by its error's largest component |
| `IntervalRegion.Subdivide` | interval_region.hpp:62-74 | the children are `[xmin, mid]` and `[mid, xmax]` with `mid = center()`; their lengths are equal and sum to the parent's; ordering is kept; each child holds the rule's result on its own limits and is keyed |
| `IntervalRegion.SubdivideTiles` | interval_region.hpp:64-69 | for ordered limits, a point is in the parent iff it is in one of the children, and the children share only the midpoint |
| `IntervalRegion.Compare` | interval_region.hpp:99-102 | `<=>` reports less, equivalent or greater exactly when `maxerr` is smaller than, equal to or larger than the other region's |
| `IntervalRegion.Equal` | interval_region.hpp:104-107 | `==` holds exactly when the keys are equal, whatever the limits and results, and agrees with `<=>` reporting equivalence |
| `IntervalRegion.Below` | interval_region.hpp:99-102 | `<`, as synthesised from `<=>`, holds exactly when the key is strictly smaller; then the regions are not equal and the reverse comparison is greater |
| `IntervalRegion.OrderingSeesOnlyKey` | interval_region.hpp:99-107 | `<=>` and `==` depend only on `maxerr`: regions with other limits and results but the same key compare the same and equal each other |
| `IntervalRegion.OrderingIsWeak` | interval_region.hpp:99-107 | `==` agrees with `<=>` reporting equivalence, `<=>` is antisymmetric, and `<` is irreflexive and transitive with equivalence as its incomparability |
| `MultiIntegrator.ZipWithinTolerance` | multi_integrator.hpp:125-128 | the zip loop returns true iff no component has both `err > abserr` and `err > fabs(val)*relerr` |
| `MultiIntegrator.IndexWithinTolerance` | multi_integrator.hpp:129-136 | the index loop decides the same componentwise test, so the two preprocessor branches agree |
| `MultiIntegrator.HasConverged` | multi_integrator.hpp:116-147 | a scalar total converges iff `err <= max(abserr, val*relerr)`; an array total under the individual policy converges iff no component fails both tolerances |
| `MultiIntegrator.NormPolicyTest` | multi_integrator.hpp:139-145 | under a norm policy, convergence is exactly `norm(err) <= max(abserr, norm(val)*relerr)` |
| `MultiIntegrator.ScalarTestIgnoresSign` | multi_integrator.hpp:119-120 | the scalar test rejects `val = -1, err = 0.5, abserr = 0, relerr = 1`, which the one-component array test accepts |
| `MultiIntegrator.ScalarTestAgreesOnNonNegative` | multi_integrator.hpp:119-136 | for every non-negative value, error and tolerances, the scalar test and the one-component individual array test give the same verdict |
| `MultiIntegrator.SumWithout` | multi_integrator.hpp:155-161 | removing any one region from the worklist removes exactly its result from the sum over the worklist |
| `MultiIntegrator.LengthWithout` | multi_integrator.hpp:155-161 | removing any one region from the worklist removes exactly its length from the total length |
| `MultiIntegrator.Generate` | multi_integrator.hpp:167-180 | `generate` produces exactly one unevaluated region per input limits, region `i` built from `limits[i]` |
| `MultiIntegrator.Initialize` | multi_integrator.hpp:88-98 | `initialize` keeps every region, evaluates each by the rule on its own limits, and returns the sum of their results, so the running-sum invariant holds |
| `MultiIntegrator.AppendKeepsInvariant` | multi_integrator.hpp:93-94 | one `res += region.integrate(f)` step keeps the total equal to the sum over the regions seen so far |
| `MultiIntegrator.TopIndex` | multi_integrator.hpp:155-158 | the top of the heap is a region whose key is at least every other region's key |
| `MultiIntegrator.PopTopRegion` | multi_integrator.hpp:155-161 | `pop_top_region` returns a maximal region, no remaining region is above it, and the worklist loses exactly that one region |
| `MultiIntegrator.PushToHeap` | multi_integrator.hpp:149-153 | `push_to_heap` adds exactly the given region to the worklist's multiset and keeps the others |
| `MultiIntegrator.SubdivideTopRegion` | multi_integrator.hpp:100-114 | a step grows the worklist by exactly one region and keeps every result of the codomain's shape |
| `MultiIntegrator.SubdivideTopRegionReplacesTop` | multi_integrator.hpp:104-113 | a step takes out a region of maximal key and puts in its two children: the new multiset is the old one minus the top plus the children |
| `MultiIntegrator.Patch` | multi_integrator.hpp:109-110 | `res += first + second - top` gives, component by component, `res + first + second - top` |
| `MultiIntegrator.PatchReplacesParent` | multi_integrator.hpp:109-110 | patching a total that contains the parent gives the total with the parent replaced by its two children |
| `MultiIntegrator.SubdivideTopRegionKeepsSum` | multi_integrator.hpp:104-113 | a step keeps the running total equal to the sum of the results over the worklist, and keeps every region keyed |
| `MultiIntegrator.SubdivideTopRegionKeepsLength` | multi_integrator.hpp:104-113 | a step keeps the total length of the worklist's limits |
| `MultiIntegrator.SubdivideTopRegionKeepsOrder` | multi_integrator.hpp:104-113 | a step keeps every region's limits ordered |
| `MultiIntegrator.SubdivideTopRegionKeepsCover` | multi_integrator.hpp:104-113 | over ordered limits, a step keeps the set of points the worklist covers |
| `MultiIntegrator.SubdivideTopRegionKeepsEvaluated` | multi_integrator.hpp:104-113 | after a step every region on the worklist still holds the rule's result on its own limits: the kept regions are untouched and the two children are evaluated on theirs |
| `MultiIntegrator.SubdivideTopRegionKeeps` | multi_integrator.hpp:104-113 | one loop iteration keeps the running-sum invariant, the total length, evaluation by the rule and, over ordered limits, the ordering and the covered points |
| `MultiIntegrator.LoopExitsUnique` | multi_integrator.hpp:75-78 | the loop is deterministic: from a given state it exits in at most one state, so a state satisfying `LoopExits` is the loop's outcome |
| `MultiIntegrator.Refine` | multi_integrator.hpp:75-78 | a returned state is the first converged state along the iterates of `subdivide_top_region` from the start, at most `fuel` steps on; running out of fuel means none of the first `fuel + 1` states converged; the running-sum invariant, length, evaluation and, for ordered limits, covered points are kept; a converged start exits at once |
| `MultiIntegrator.Resum` | multi_integrator.hpp:81-83 | the closing loop computes the sum of the results over the worklist |
| `MultiIntegrator.Integrate` | multi_integrator.hpp:65-85 | `integrate` returns a result of the codomain's shape that passes the convergence test, and it is exactly the sum of the results over the worklist the loop exits with, starting from the generated and evaluated regions; with no input limits it returns `IntegralResult{}` |
| `MultiIntegrator.RefinedWorklistCoversDomain` | multi_integrator.hpp:72-84 | for ordered input limits, the final worklist covers exactly their points and has their total length, holds one region per input plus one per step, and its resummation is the total that passed the test |
| `MultiIntegrator.RefinedWorklistIsLoopExit` | multi_integrator.hpp:72-78 | the final worklist is the loop's exit state started from the generated input regions, each evaluated by `initialize`, and every region in it holds the rule's result on its own limits |
| `MultiIntegrator.InitialWorklistCovers` | multi_integrator.hpp:72-73 | the worklist built from ordered limits is ordered and covers exactly the points of those limits |
| `MultiIntegrator.SameLimitsSameLength` | multi_integrator.hpp:93-94 | evaluating regions leaves their limits, and hence the worklist's total length, unchanged |

## Left out

- Floating-point rounding. Results are exact reals, so the drift that the
  closing resummation guards against cannot arise, and the resummation is
  proved to be the identity. NaN, and the unordered outcome of `<=>` it
  would cause, does not exist over reals.
- Concrete rules. `GaussKronrod` and `GenzMalikD7` (gauss_kronrod.hpp,
  genz_malik.hpp) are not part of this model. The rule is a parameter, and
  nothing is assumed of it beyond the shape of its results.
- The integrand `f` is folded into the rule parameter. The `MapsAs` and
  `IntervalIntegratorSignature` concepts are compile-time checks and become
  the `RuleShaped` requirement.
- Box regions (`IntegrationBox`, box_region.hpp), hypercube_integrator.hpp,
  array_arithmetic.hpp and concepts.hpp are not part of this model. The
  driver is modelled only over one-dimensional intervals.
- The capped variant with `Status::MAX_SUBDIV` and diagnostic counters. They
  appear only in callers, not in the driver modelled here.
- MultiIntegrator.Refine: the source loop has no bound and may run forever.
  The model observes at most `fuel` iterations, and `None` means "not yet
  converged after `fuel` steps" (`LoopRuns`). That is not an outcome of the
  source. Nothing is claimed about termination.
- MultiIntegrator.Integrate: returns `None` when `Refine` runs out of fuel,
  for the same reason. It also requires a non-empty input or a zero total
  that already converges, because with an empty worklist the source pops
  from an empty heap, which is undefined behaviour.
- The heap layout of `make_heap`, `push_heap` and `pop_heap`. The worklist is
  a sequence. `make_heap` only permutes it, so `Initialize` keeps the input
  order. `pop_top_region` takes the first region of maximal key, where the
  heap may return any of several with equal keys. The properties of a step
  are proved for this first-maximum choice. The removal and replacement
  lemmas they rest on (`SumWithout`, `LengthWithout`, `ReplaceKeepsLength`,
  `ReplaceKeepsCover`) hold for any index, so sum, length and cover do not
  depend on which maximal region is taken. The exact sequence of later steps
  may depend on it.
- The default constructor `IntegrationInterval() = default`. `generate`
  only uses it through `resize`, which value-initialises the new elements
  (zero limits, zero result, zero key), and every element is then
  overwritten. `Generate` therefore builds the regions directly.
- An array codomain of length zero. `*max_element` of an empty array is
  undefined, so the driver requires a scalar or a non-empty array codomain
  (`KeyableShape`).
- Inverted limits are not validated by the source and are not rejected
  here. Tiling and coverage are proved for ordered limits. Total length is
  proved for any limits.
- `result()` and `maxerr()` are field selections `.result` and `.maxerr`.
  Because regions are values, `subdivide` being `const` and `+` and `-` not
  mutating their operands hold by construction.
- The `__GNUC__` split in `generate` builds the same sequence in both
  branches. In `has_converged` both branches are modelled and proved to
  agree.
- The `<iostream>` include, the test program and the example programs. They
  are numeric scenarios with console output.
