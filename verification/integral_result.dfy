/**
 The value/error pair returned by every quadrature rule and accumulated by the
 adaptive driver (`IntegralResult<T>` in integral_result.hpp).

 The codomain `T` is either a floating-point scalar or a fixed-size array of
 them. `double` is modelled as `real`, so every law below holds exactly; the
 array length, fixed by the type in the source, is carried by a `Shape`.
 */
module IntegralResults {

  /** The codomain of an integrand: one real, or an array of `n` reals. */
  datatype Shape = ScalarShape | ArrayShape(n: nat)

  /** A point of the codomain. */
  datatype Value = Real(x: real) | Array(xs: seq<real>)

  function ShapeOf(v: Value): Shape {
    match v
    case Real(_) => ScalarShape
    case Array(xs) => ArrayShape(|xs|)
  }

  /** Number of components of a codomain of shape `s`. */
  function Dim(s: Shape): nat {
    match s
    case ScalarShape => 1
    case ArrayShape(n) => n
  }

  /** The components of a value in order; a scalar has exactly one. */
  function Components(v: Value): (cs: seq<real>)
    ensures |cs| == Dim(ShapeOf(v))
  {
    match v
    case Real(x) => [x]
    case Array(xs) => xs
  }

  /** A value is determined by its shape and its components. */
  lemma ValueExtensionality(a: Value, b: Value)
    requires ShapeOf(a) == ShapeOf(b)
    requires forall i :: 0 <= i < |Components(a)| ==> Components(a)[i] == Components(b)[i]
    ensures a == b
  {
    if a.Real? {
      assert Components(a)[0] == Components(b)[0];
    } else {
      assert forall i :: 0 <= i < |a.xs| ==> a.xs[i] == Components(a)[i] == Components(b)[i] == b.xs[i];
      assert a.xs == b.xs;
    }
  }

  function ZeroValue(s: Shape): (z: Value)
    ensures ShapeOf(z) == s
    ensures forall i :: 0 <= i < |Components(z)| ==> Components(z)[i] == 0.0
  {
    match s
    case ScalarShape => Real(0.0)
    case ArrayShape(n) => Array(seq(n, _ => 0.0))
  }

  function AddValue(a: Value, b: Value): (r: Value)
    requires ShapeOf(a) == ShapeOf(b)
    ensures ShapeOf(r) == ShapeOf(a)
    ensures forall i :: 0 <= i < |Components(r)| ==>
      Components(r)[i] == Components(a)[i] + Components(b)[i]
  {
    match a
    case Real(x) => Real(x + b.x)
    case Array(xs) => Array(seq(|xs|, i requires 0 <= i < |xs| => xs[i] + b.xs[i]))
  }

  function SubValue(a: Value, b: Value): (r: Value)
    requires ShapeOf(a) == ShapeOf(b)
    ensures ShapeOf(r) == ShapeOf(a)
    ensures forall i :: 0 <= i < |Components(r)| ==>
      Components(r)[i] == Components(a)[i] - Components(b)[i]
  {
    match a
    case Real(x) => Real(x - b.x)
    case Array(xs) => Array(seq(|xs|, i requires 0 <= i < |xs| => xs[i] - b.xs[i]))
  }

  /** An estimate `val` of an integral together with its error estimate `err`. */
  datatype IntegralResult = IntegralResult(val: Value, err: Value)

  /** In the source `val` and `err` share the type `T`, hence one shape. */
  predicate HasShape(r: IntegralResult, s: Shape) {
    ShapeOf(r.val) == s && ShapeOf(r.err) == s
  }

  function ResultShape(r: IntegralResult): Shape {
    ShapeOf(r.val)
  }

  /** Two operands of the same instantiation `IntegralResult<T>`. */
  predicate Conforms(a: IntegralResult, x: IntegralResult) {
    HasShape(a, ResultShape(a)) && HasShape(x, ResultShape(a))
  }

  /** `ndim()`: one for a scalar codomain, the array length otherwise. */
  function Ndim(r: IntegralResult): (n: nat)
    requires HasShape(r, ResultShape(r))
    ensures n == |Components(r.val)| == |Components(r.err)|
    ensures r.val.Real? ==> n == 1
    ensures r.val.Array? ==> n == |r.val.xs|
  {
    Dim(ResultShape(r))
  }

  /** The value-initialised `IntegralResult{}`: zero value and zero error. */
  function Default(s: Shape): (z: IntegralResult)
    ensures HasShape(z, s)
    ensures forall i :: 0 <= i < Dim(s) ==>
      Components(z.val)[i] == 0.0 && Components(z.err)[i] == 0.0
  {
    IntegralResult(ZeroValue(s), ZeroValue(s))
  }

  /**
   `a += x`, and equally `a + x`, which copies `a` and applies `+=` to the
   copy: values and errors are added component by component.
   */
  function Add(a: IntegralResult, x: IntegralResult): (r: IntegralResult)
    requires Conforms(a, x)
    ensures HasShape(r, ResultShape(a))
    ensures forall i :: 0 <= i < Ndim(a) ==>
      && Components(r.val)[i] == Components(a.val)[i] + Components(x.val)[i]
      && Components(r.err)[i] == Components(a.err)[i] + Components(x.err)[i]
  {
    IntegralResult(AddValue(a.val, x.val), AddValue(a.err, x.err))
  }

  /** `a -= x`, and equally `a - x`: component-by-component differences. */
  function Sub(a: IntegralResult, x: IntegralResult): (r: IntegralResult)
    requires Conforms(a, x)
    ensures HasShape(r, ResultShape(a))
    ensures forall i :: 0 <= i < Ndim(a) ==>
      && Components(r.val)[i] == Components(a.val)[i] - Components(x.val)[i]
      && Components(r.err)[i] == Components(a.err)[i] - Components(x.err)[i]
  {
    IntegralResult(SubValue(a.val, x.val), SubValue(a.err, x.err))
  }

  /** Two results of one shape that agree component by component are equal. */
  lemma ResultExtensionality(a: IntegralResult, b: IntegralResult, s: Shape)
    requires HasShape(a, s) && HasShape(b, s)
    requires forall i :: 0 <= i < Dim(s) ==>
      Components(a.val)[i] == Components(b.val)[i] && Components(a.err)[i] == Components(b.err)[i]
    ensures a == b
  {
    ValueExtensionality(a.val, b.val);
    ValueExtensionality(a.err, b.err);
  }

  lemma AddCommutative(a: IntegralResult, b: IntegralResult, s: Shape)
    requires HasShape(a, s) && HasShape(b, s)
    ensures Add(a, b) == Add(b, a)
  {
    ResultExtensionality(Add(a, b), Add(b, a), s);
  }

  lemma AddAssociative(a: IntegralResult, b: IntegralResult, c: IntegralResult, s: Shape)
    requires HasShape(a, s) && HasShape(b, s) && HasShape(c, s)
    ensures Add(Add(a, b), c) == Add(a, Add(b, c))
  {
    ResultExtensionality(Add(Add(a, b), c), Add(a, Add(b, c)), s);
  }

  /** `IntegralResult{}` is a two-sided identity for `+`. */
  lemma DefaultIsIdentity(a: IntegralResult, s: Shape)
    requires HasShape(a, s)
    ensures Add(a, Default(s)) == a
    ensures Add(Default(s), a) == a
  {
    ResultExtensionality(Add(a, Default(s)), a, s);
    ResultExtensionality(Add(Default(s), a), a, s);
  }

  /** `-` undoes `+`. */
  lemma SubUndoesAdd(a: IntegralResult, b: IntegralResult, s: Shape)
    requires HasShape(a, s) && HasShape(b, s)
    ensures Sub(Add(a, b), b) == a
  {
    ResultExtensionality(Sub(Add(a, b), b), a, s);
  }

  /** `+` undoes `-`. */
  lemma AddUndoesSub(a: IntegralResult, b: IntegralResult, s: Shape)
    requires HasShape(a, s) && HasShape(b, s)
    ensures Add(Sub(a, b), b) == a
  {
    ResultExtensionality(Add(Sub(a, b), b), a, s);
  }

  /** Every result has an inverse: `a - a` is `IntegralResult{}`, so `a + (b - b) == a`. */
  lemma SubSelfIsDefault(a: IntegralResult, b: IntegralResult, s: Shape)
    requires HasShape(a, s) && HasShape(b, s)
    ensures Sub(b, b) == Default(s)
    ensures Add(a, Sub(b, b)) == a
  {
    ResultExtensionality(Sub(b, b), Default(s), s);
    DefaultIsIdentity(a, s);
  }

  /** The last two summands of a left-nested sum can be swapped. */
  lemma AddSwapLast(a: IntegralResult, b: IntegralResult, c: IntegralResult, s: Shape)
    requires HasShape(a, s) && HasShape(b, s) && HasShape(c, s)
    ensures Add(Add(a, b), c) == Add(Add(a, c), b)
  {
    ResultExtensionality(Add(Add(a, b), c), Add(Add(a, c), b), s);
  }
}
