// Agreement of range values (src/value_shape.rs), over the reals.

module RangeAgree {
  import opened Wrappers

  /** A range-shaped value; any of its members may be missing or of another kind. */
  datatype Range = Range(
    lower: Option<real>,
    upper: Option<real>,
    steps: Option<nat>,
    index: Option<nat>,
    value: Option<real>)
  {
    predicate Scaled() {
      lower.Some? && upper.Some? && steps.Some?
    }

    predicate Stepped() {
      Scaled() && steps.value >= 2 && upper.value != lower.value
    }

    /** What the range stands at; an index out of range stands nowhere. */
    function Number(): Option<real> {
      if Stepped() then
        if index.Some? && index.value < steps.value
        then Some(ValueAt(lower.value, upper.value, steps.value, index.value))
        else None
      else value
    }

    function HalfStep(): Option<real> {
      if Stepped() then Some(Abs(upper.value - lower.value) / ((steps.value - 1) as real) / 2.0) else None
    }

    predicate SameScale(other: Range) {
      Stepped() && lower == other.lower && upper == other.upper && steps == other.steps
    }
  }

  function Abs(x: real): real {
    if x < 0.0 then -x else x
  }

  function ValueAt(lower: real, upper: real, steps: nat, index: nat): real
    requires steps >= 2
  {
    lower + index as real * (upper - lower) / ((steps - 1) as real)
  }

  function Tolerance(a: Range, b: Range, x: real): real {
    match (a.HalfStep(), b.HalfStep())
    case (Some(p), Some(q)) => if p < q then p else q
    case (Some(p), None) => p
    case (None, Some(q)) => q
    case (None, None) => if Abs(x) / 1000000000.0 > 0.000001 then Abs(x) / 1000000000.0 else 0.000001
  }

  predicate Agree(a: Range, b: Range) {
    a.Number().Some? && b.Number().Some? &&
    Abs(a.Number().value - b.Number().value) < Tolerance(a, b, a.Number().value)
  }

  lemma Spread(lower: real, upper: real, steps: nat, i: nat, j: nat)
    requires steps >= 2
    ensures ValueAt(lower, upper, steps, i) - ValueAt(lower, upper, steps, j) ==
            (i - j) as real * ((upper - lower) / ((steps - 1) as real))
  {
    var n := (steps - 1) as real;
    var gap := (upper - lower) / n;
    Scale(i as real, upper - lower, n);
    Scale(j as real, upper - lower, n);
    Distribute(i as real, j as real, gap);
  }

  lemma Scale(k: real, span: real, n: real)
    requires n != 0.0
    ensures k * span / n == k * (span / n)
  {
    assert span == (span / n) * n;
    assert k * span == (k * (span / n)) * n;
  }

  lemma Distribute(x: real, y: real, gap: real)
    ensures x * gap - y * gap == (x - y) * gap
  {
  }

  /** Two positions of one scale are at least a whole step apart. */
  lemma Gap(lower: real, upper: real, steps: nat, i: nat, j: nat)
    requires steps >= 2 && i != j
    ensures Abs(ValueAt(lower, upper, steps, i) - ValueAt(lower, upper, steps, j)) >=
            Abs(upper - lower) / ((steps - 1) as real)
  {
    var n := (steps - 1) as real;
    var gap := (upper - lower) / n;
    Spread(lower, upper, steps, i, j);
    AbsOverPositive(upper - lower, n);
    Multiple((i - j) as real, gap);
  }

  lemma AbsOverPositive(span: real, n: real)
    requires n > 0.0
    ensures Abs(span / n) == Abs(span) / n
  {
    Sign(span, n);
    Sign(-span, n);
  }

  lemma Sign(span: real, n: real)
    requires n > 0.0
    ensures span >= 0.0 ==> span / n >= 0.0
    ensures -(span / n) == (-span) / n
  {
  }

  lemma Multiple(k: real, gap: real)
    requires k >= 1.0 || k <= -1.0
    ensures Abs(k * gap) >= Abs(gap)
  {
    if k >= 1.0 && gap >= 0.0 {
      assert k * gap >= 1.0 * gap;
    } else if k >= 1.0 {
      assert k * gap <= 1.0 * gap;
    } else if gap >= 0.0 {
      assert k * gap <= -1.0 * gap;
    } else {
      assert k * gap >= -1.0 * gap;
    }
  }

  lemma HalfStepIsPositive(a: Range)
    requires a.Stepped()
    ensures a.HalfStep().value > 0.0
    ensures a.HalfStep().value * 2.0 == Abs(a.upper.value - a.lower.value) / ((a.steps.value - 1) as real)
  {
    var span, n := Abs(a.upper.value - a.lower.value), (a.steps.value - 1) as real;
    assert span > 0.0 && n > 0.0;
    assert span / n > 0.0;
  }

  /** A value, stepped on whatever scale or continuous, agrees with at most one position of a stepped scale. */
  lemma AtMostOnePosition(a: Range, b: Range, c: Range)
    requires b.SameScale(c) && Agree(a, b) && Agree(a, c)
    ensures b.index == c.index
  {
    HalfStepIsPositive(b);
    var x, y, z := a.Number().value, b.Number().value, c.Number().value;
    assert Abs(x - y) < b.HalfStep().value && Abs(x - z) < b.HalfStep().value;
    if b.index != c.index {
      Gap(b.lower.value, b.upper.value, b.steps.value, b.index.value, c.index.value);
    }
  }

  /** On one stepped scale, agreeing is being at the same valid position. */
  lemma SameScaleAgreeExactly(a: Range, b: Range)
    requires a.SameScale(b)
    ensures Agree(a, b) <==> a.index == b.index && a.index.Some? && a.index.value < a.steps.value
  {
    HalfStepIsPositive(a);
    if Agree(a, b) {
      if a.index != b.index {
        Gap(a.lower.value, a.upper.value, a.steps.value, a.index.value, b.index.value);
      }
    }
  }

  lemma SymmetricWhenStepped(a: Range, b: Range)
    requires a.Stepped() || b.Stepped()
    ensures Agree(a, b) <==> Agree(b, a)
  {
  }

  /** How far apart two continuous values may be, by the magnitude of the first. */
  function ContinuousTolerance(m: real): real {
    if m / 1000000000.0 > 0.000001 then m / 1000000000.0 else 0.000001
  }

  /** Between two continuous values it is the first's magnitude that sets the tolerance, so agreement is symmetric
      exactly unless they are as far apart as the smaller one's tolerance and not as far as the larger one's. */
  lemma ContinuousSymmetricExactlyWhen(a: Range, b: Range)
    requires !a.Stepped() && !b.Stepped() && a.value.Some? && b.value.Some?
    ensures var x, y := Abs(a.value.value), Abs(b.value.value);
            var small, large := if x < y then x else y, if x < y then y else x;
            (Agree(a, b) <==> Agree(b, a)) <==>
            !(ContinuousTolerance(small) <= Abs(a.value.value - b.value.value) < ContinuousTolerance(large))
  {
  }

  /** So it is symmetric up to a magnitude of 1000, whatever the distance. */
  lemma SymmetricWhenSmall(a: Range, b: Range)
    requires !a.Stepped() && !b.Stepped() && a.value.Some? && b.value.Some?
    requires Abs(a.value.value) <= 1000.0 && Abs(b.value.value) <= 1000.0
    ensures Agree(a, b) <==> Agree(b, a)
  {
    ContinuousSymmetricExactlyWhen(a, b);
  }

  lemma NotSymmetric(a: Range, b: Range)
    requires a == Range(None, None, None, None, Some(1000000000.0)) && b == a.(value := Some(1000000001.0))
    ensures !Agree(a, b) && Agree(b, a)
  {
  }

  // ----- Agreement on the fields -----

  predicate HasSteps(r: Range) {
    && r.lower.Some? && r.upper.Some? && r.steps.Some?
    && r.steps.value >= 2 && r.upper.value != r.lower.value
  }

  /** `x` is the number of `r`: at its place between the ends, in equal steps, or the value where there are no steps. */
  predicate HoldsNumber(r: Range, x: real) {
    if HasSteps(r) then
      && r.index.Some? && r.index.value < r.steps.value
      && ((r.steps.value - 1) as real) * (x - r.lower.value) == r.index.value as real * (r.upper.value - r.lower.value)
    else r.value == Some(x)
  }

  /** The distance `d` is less than half a step of `r`, if it has steps. */
  predicate UnderHalfStep(r: Range, d: real) {
    HasSteps(r) ==> 2.0 * ((r.steps.value - 1) as real) * d < Abs(r.upper.value - r.lower.value)
  }

  /** By the smaller half step there is, and with no steps by a millionth, or by a milliardth of the first number. */
  predicate NearEnough(a: Range, b: Range, x: real, y: real) {
    if HasSteps(a) || HasSteps(b) then UnderHalfStep(a, Abs(x - y)) && UnderHalfStep(b, Abs(x - y))
    else Abs(x - y) * 1000000.0 < 1.0 || Abs(x - y) * 1000000000.0 < Abs(x)
  }

  lemma AgreeExactlyWhen(a: Range, b: Range)
    ensures Agree(a, b) <==> exists x, y :: HoldsNumber(a, x) && HoldsNumber(b, y) && NearEnough(a, b, x, y)
  {
    hide HoldsNumber, NearEnough;
    forall x
      ensures HoldsNumber(a, x) <==> a.Number() == Some(x)
      ensures HoldsNumber(b, x) <==> b.Number() == Some(x)
    {
      NumberIsHeld(a, x);
      NumberIsHeld(b, x);
    }
    if a.Number().Some? && b.Number().Some? {
      NearExactlyWhen(a, b, a.Number().value, b.Number().value);
    }
  }

  lemma NumberIsHeld(r: Range, x: real)
    ensures HoldsNumber(r, x) <==> r.Number() == Some(x)
  {
    if HasSteps(r) && r.index.Some? {
      Quotient(x - r.lower.value, r.index.value as real * (r.upper.value - r.lower.value), (r.steps.value - 1) as real);
    }
  }

  lemma Quotient(q: real, p: real, n: real)
    requires n > 0.0
    ensures n * q == p <==> q == p / n
  {
    assert n * (p / n) == p;
    if n * q == p {
      assert n * (q - p / n) == 0.0;
    }
  }

  lemma NearExactlyWhen(a: Range, b: Range, x: real, y: real)
    ensures NearEnough(a, b, x, y) <==> Abs(x - y) < Tolerance(a, b, x)
  {
    HalfStepIs(a, Abs(x - y));
    HalfStepIs(b, Abs(x - y));
    if !HasSteps(a) && !HasSteps(b) {
      Below(Abs(x - y), Abs(x), 1000000000.0);
    }
  }

  lemma HalfStepIs(r: Range, d: real)
    ensures r.HalfStep().Some? <==> HasSteps(r)
    ensures r.HalfStep().Some? ==> (d < r.HalfStep().value <==> UnderHalfStep(r, d))
  {
    if HasSteps(r) {
      Below(2.0 * d, Abs(r.upper.value - r.lower.value), (r.steps.value - 1) as real);
    }
  }

  lemma Below(d: real, p: real, n: real)
    requires n > 0.0
    ensures d < p / n <==> d * n < p
  {
    assert p / n * n == p;
    if d < p / n {
      Scaled(d, p / n, n);
    } else {
      Scaled(p / n, d, n);
    }
  }

  lemma Scaled(x: real, y: real, n: real)
    requires n > 0.0
    ensures x < y ==> x * n < y * n
    ensures x <= y ==> x * n <= y * n
  {
    assert y * n - x * n == (y - x) * n;
  }

  /** A scale begins and ends at its bounds, and its steps are alike. */
  lemma ScaleRunsBetweenItsBounds(lower: real, upper: real, steps: nat, index: nat)
    requires steps >= 2
    ensures ValueAt(lower, upper, steps, 0) == lower && ValueAt(lower, upper, steps, steps - 1) == upper
    ensures ValueAt(lower, upper, steps, index + 1) - ValueAt(lower, upper, steps, index) ==
            ValueAt(lower, upper, steps, 1) - lower
  {
    var n := (steps - 1) as real;
    Quotient(upper - lower, n * (upper - lower), n);
    Spread(lower, upper, steps, index + 1, index);
    Spread(lower, upper, steps, 1, 0);
  }
}
