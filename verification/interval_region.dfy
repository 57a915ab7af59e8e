/**
 One-dimensional integration regions (interval_region.hpp): an `Interval` of
 limits, and an `IntegrationInterval` that caches the result of a quadrature
 rule on its limits together with the scalar key it is ordered by.

 The rule itself (`Rule::integrate(f, limits)`) lives outside this model: it
 is a parameter of type `Rule`, with the integrand `f` folded into it, and
 nothing is assumed of it beyond the shape of what it returns.
 */
module IntervalRegion {
  import opened IntegralResults

  /** `Interval<T>`: the limits `xmin` and `xmax`, not validated to be ordered. */
  datatype Interval = Interval(xmin: real, xmax: real)

  /** The source assumes, without checking, `xmin <= xmax`. */
  predicate Ordered(iv: Interval) {
    iv.xmin <= iv.xmax
  }

  /** The closed interval as a set of points. */
  predicate Contains(iv: Interval, x: real) {
    iv.xmin <= x <= iv.xmax
  }

  /** `length()`: the signed width, non-negative exactly for ordered limits. */
  function Length(iv: Interval): (l: real)
    ensures iv.xmin + l == iv.xmax
    ensures l >= 0.0 <==> Ordered(iv)
  {
    iv.xmax - iv.xmin
  }

  /** `center()`: the point equidistant from both limits, inside them when they are ordered. */
  function Center(iv: Interval): (c: real)
    ensures c - iv.xmin == iv.xmax - c
    ensures Ordered(iv) ==> Contains(iv, c)
  {
    0.5 * (iv.xmax + iv.xmin)
  }

  /** `Rule::integrate` with the integrand fixed: limits to an estimate. */
  type Rule = Interval -> IntegralResult

  /** An array error needs at least one component for `max_element` to be dereferenceable. */
  predicate KeyDefined(err: Value) {
    |Components(err)| > 0
  }

  predicate IsMaxOf(m: real, cs: seq<real>) {
    m in cs && forall i :: 0 <= i < |cs| ==> cs[i] <= m
  }

  /** `*std::ranges::max_element(xs)`. */
  function MaxElement(xs: seq<real>): (m: real)
    requires |xs| > 0
    ensures IsMaxOf(m, xs)
  {
    if |xs| == 1 then xs[0]
    else
      var rest := MaxElement(xs[1..]);
      assert forall i :: 1 <= i < |xs| ==> xs[i] == xs[1..][i - 1];
      if xs[0] < rest then rest else xs[0]
  }

  /** The ordering key of an error: the error itself for a scalar, its largest component for an array. */
  function MaxErr(err: Value): (m: real)
    requires KeyDefined(err)
    ensures IsMaxOf(m, Components(err))
    ensures err.Real? ==> m == err.x
  {
    match err
    case Real(x) => x
    case Array(xs) => MaxElement(xs)
  }

  /** `IntegrationInterval<Rule>`: limits, the cached result, and the cached key `m_maxerr`. */
  datatype Region = Region(limits: Interval, result: IntegralResult, maxerr: real)

  /** The cached key is the one `integrate` derives from the cached error. */
  predicate Keyed(r: Region) {
    KeyDefined(r.result.err) && IsMaxOf(r.maxerr, Components(r.result.err))
  }

  /**
   Both constructors, `IntegrationInterval(xmin, xmax)` and
   `IntegrationInterval(limits)`: the limits are stored, the result and key
   are value-initialised to zero, and nothing is evaluated.
   */
  function NewRegion(limits: Interval, s: Shape): (r: Region)
    ensures r.limits == limits
    ensures HasShape(r.result, s)
    ensures forall i :: 0 <= i < Dim(s) ==>
      Components(r.result.val)[i] == 0.0 && Components(r.result.err)[i] == 0.0
    ensures r.maxerr == 0.0
  {
    Region(limits, Default(s), 0.0)
  }

  /** The rule can be applied to `iv` and its error keyed. */
  predicate Evaluable(rule: Rule, iv: Interval) {
    KeyDefined(rule(iv).err)
  }

  /**
   `integrate(f)`: stores the rule's estimate on the region's limits, derives
   the key from its error, and returns the stored estimate. Returned as the
   updated region together with the result.
   */
  function Integrate(region: Region, rule: Rule): (out: (Region, IntegralResult))
    requires Evaluable(rule, region.limits)
    ensures out.0.limits == region.limits
    ensures out.0.result == rule(region.limits)
    ensures out.1 == out.0.result
    ensures Keyed(out.0)
    ensures out.0.result.err.Real? ==> out.0.maxerr == out.0.result.err.x
  {
    var res := rule(region.limits);
    (Region(region.limits, res, MaxErr(res.err)), res)
  }

  /** The limits of the two halves produced by `subdivide`. */
  function LowerHalf(iv: Interval): Interval {
    Interval(iv.xmin, Center(iv))
  }

  function UpperHalf(iv: Interval): Interval {
    Interval(Center(iv), iv.xmax)
  }

  /**
   `subdivide(f)`: bisects at the centre into `[xmin, mid]` and `[mid, xmax]`
   and evaluates both children. The parent is a value and stays unchanged.
   */
  function Subdivide(region: Region, rule: Rule): (children: (Region, Region))
    requires Evaluable(rule, LowerHalf(region.limits)) && Evaluable(rule, UpperHalf(region.limits))
    ensures children.0.limits.xmin == region.limits.xmin
    ensures children.0.limits.xmax == Center(region.limits) == children.1.limits.xmin
    ensures children.1.limits.xmax == region.limits.xmax
    ensures Length(children.0.limits) + Length(children.1.limits) == Length(region.limits)
    ensures Length(children.0.limits) == Length(children.1.limits)
    ensures Ordered(region.limits) ==> Ordered(children.0.limits) && Ordered(children.1.limits)
    ensures children.0.result == rule(children.0.limits) && Keyed(children.0)
    ensures children.1.result == rule(children.1.limits) && Keyed(children.1)
  {
    var s := ResultShape(region.result);
    var first := NewRegion(LowerHalf(region.limits), s);
    var second := NewRegion(UpperHalf(region.limits), s);
    (Integrate(first, rule).0, Integrate(second, rule).0)
  }

  /**
   The children tile an ordered parent: every point of the parent lies in a
   child, every point of a child lies in the parent, and the children meet
   only at the midpoint.
   */
  lemma SubdivideTiles(region: Region, rule: Rule, x: real)
    requires Evaluable(rule, LowerHalf(region.limits)) && Evaluable(rule, UpperHalf(region.limits))
    requires Ordered(region.limits)
    ensures Contains(region.limits, x) <==>
      Contains(Subdivide(region, rule).0.limits, x) || Contains(Subdivide(region, rule).1.limits, x)
    ensures Contains(Subdivide(region, rule).0.limits, x) && Contains(Subdivide(region, rule).1.limits, x) ==>
      x == Center(region.limits)
  {
    assert Center(region.limits) - region.limits.xmin == region.limits.xmax - Center(region.limits);
  }

  /** The result of `operator<=>` on the keys; reals are never unordered. */
  datatype Ordering = Less | Equivalent | Greater

  function Flip(o: Ordering): Ordering {
    match o
    case Less => Greater
    case Equivalent => Equivalent
    case Greater => Less
  }

  /** `operator<=>`: compares the cached keys only, with the three outcomes of `<=>` on ordered reals. */
  function Compare(a: Region, b: Region): (o: Ordering)
    ensures o == Less <==> a.maxerr < b.maxerr
    ensures o == Equivalent <==> a.maxerr == b.maxerr
    ensures o == Greater <==> b.maxerr < a.maxerr
  {
    if a.maxerr < b.maxerr then Less
    else if a.maxerr == b.maxerr then Equivalent
    else Greater
  }

  /** `operator==`: equality of the cached keys only, whatever the limits and results. */
  function Equal(a: Region, b: Region): (eq: bool)
    ensures eq <==> a.maxerr == b.maxerr
    ensures eq <==> Compare(a, b) == Equivalent
  {
    a.maxerr == b.maxerr
  }

  /** `operator<`, the comparison the worklist heap orders by: `a` has the strictly smaller key. */
  function Below(a: Region, b: Region): (lt: bool)
    ensures lt <==> a.maxerr < b.maxerr
    ensures lt ==> !Equal(a, b) && Compare(b, a) == Greater
  {
    Compare(a, b) == Less
  }

  /**
   Ordering and equality see the key and nothing else: regions with other
   limits and other results but the same keys compare the same, and in
   particular compare equal to each other.
   */
  lemma OrderingSeesOnlyKey(a: Region, b: Region, a': Region, b': Region)
    requires a.maxerr == a'.maxerr && b.maxerr == b'.maxerr
    ensures Compare(a, b) == Compare(a', b')
    ensures Equal(a, b) <==> Equal(a', b')
    ensures Equal(a, a') && Compare(a, a') == Equivalent
  {
  }

  /** `<=>` and `==` agree, `<=>` is antisymmetric, and `<` is a strict weak order. */
  lemma OrderingIsWeak(a: Region, b: Region, c: Region)
    ensures Equal(a, b) <==> Compare(a, b) == Equivalent
    ensures Compare(b, a) == Flip(Compare(a, b))
    ensures !Below(a, a)
    ensures Below(a, b) && Below(b, c) ==> Below(a, c)
    ensures !Below(a, b) && !Below(b, a) <==> Equal(a, b)
  {
  }
}
