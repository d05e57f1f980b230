/** The scalar Kalman filter of USER/tracking/filter.c, over the reals: the rounding of the
    floating-point type is not part of this model. */
module Kalman {

  /** The statics of `KalmanFilter`: the last estimate and its covariance. */
  datatype State = State(x: real, p: real)

  const START := State(0.0, 20.0)

  function Gain(p: real, q: real, r: real): real
    requires p + q + r != 0.0
  {
    (p + q) / (p + q + r)
  }

  /** The covariance after a step. */
  function NextCovariance(p: real, q: real, r: real): real
    requires p + q + r != 0.0
  {
    (1.0 - Gain(p, q, r)) * (p + q)
  }

  function Step(s: State, z: real, q: real, r: real): State
    requires s.p + q + r != 0.0
  {
    State(s.x + Gain(s.p, q, r) * (z - s.x), NextCovariance(s.p, q, r))
  }

  class KalmanFilter {
    var xLast: real
    var pLast: real

    constructor ()
      ensures Value() == START
    {
      xLast, pLast := 0.0, 20.0;
    }

    function Value(): State
      reads this
    {
      State(xLast, pLast)
    }

    /** `KalmanFilter` */
    method Filter(resrcData: real, processNoise: real, measureNoise: real) returns (xNow: real)
      requires pLast + processNoise + measureNoise != 0.0
      modifies this
      ensures Value() == Step(old(Value()), resrcData, processNoise, measureNoise) && xNow == xLast
      ensures old(pLast) > 0.0 && processNoise >= 0.0 && measureNoise > 0.0 ==>
                WeightedMean(old(Value()), resrcData, processNoise, measureNoise, Value())
    {
      if pLast > 0.0 && processNoise >= 0.0 && measureNoise > 0.0 {
        EstimateIsWeightedMean(Value(), resrcData, processNoise, measureNoise);
      }
      var xMid := xLast;
      var pMid := pLast + processNoise;
      var kg := pMid / (pMid + measureNoise);
      xNow := xMid + kg * (resrcData - xMid);
      var pNow := (1.0 - kg) * pMid;
      pLast := pNow;
      xLast := xNow;
    }
  }

  // ---------------------------------------------------------------------------------------------
  // One step

  lemma Product(a: real, b: real) returns (c: real)
    requires a > 0.0 && b > 0.0
    ensures c == a * b && c > 0.0
  {
    c := a * b;
  }

  lemma NonNegative(a: real, b: real) returns (c: real)
    requires a >= 0.0 && b >= 0.0
    ensures c == a * b && c >= 0.0
  {
    c := if a == 0.0 || b == 0.0 then 0.0 else a * b;
  }

  lemma Cancel(a: real, b: real, d: real)
    requires d > 0.0
    ensures a * d < b * d ==> a < b
    ensures a * d <= b * d ==> a <= b
  {
  }

  lemma QuotientTimes(a: real, b: real)
    requires b != 0.0
    ensures a / b * b == a
  {
  }

  /** With m = p + q the new covariance is m r / (m + r). */
  lemma CovarianceForm(p: real, q: real, r: real)
    requires p + q + r != 0.0
    ensures NextCovariance(p, q, r) * (p + q + r) == (p + q) * r
  {
  }

  /** From a positive covariance a step leads to one that is positive, below the measurement noise
      and below the predicted one; the gain lies strictly between 0 and 1. */
  lemma CovarianceBounds(p: real, q: real, r: real)
    requires p > 0.0 && q >= 0.0 && r > 0.0
    ensures 0.0 < Gain(p, q, r) < 1.0
    ensures 0.0 < NextCovariance(p, q, r) < r && NextCovariance(p, q, r) < p + q
  {
    var m, g, n := p + q, Gain(p, q, r), NextCovariance(p, q, r);
    QuotientTimes(m, m + r);
    assert g * (m + r) == m;
    CovarianceForm(p, q, r);
    GainBounds(g, m, r);
    NextBounds(n, m, r);
  }

  lemma GainBounds(g: real, m: real, r: real)
    requires m > 0.0 && r > 0.0 && g * (m + r) == m
    ensures 0.0 < g < 1.0
  {
  }

  lemma Triple(m: real, r: real) returns (mr: real, rr: real, mm: real)
    requires m > 0.0 && r > 0.0
    ensures mr == m * r && rr == r * r && mm == m * m && mr > 0.0 && rr > 0.0 && mm > 0.0
  {
    mr := Product(m, r);
    rr := Product(r, r);
    mm := Product(m, m);
  }

  lemma NextBounds(n: real, m: real, r: real)
    requires m > 0.0 && r > 0.0 && n * (m + r) == m * r
    ensures 0.0 < n < r && n < m
  {
    var w := m + r;
    var mr, rr, mm := Triple(m, r);
    Cancel(0.0, n, w);
    Distributes(m, r, r);
    Cancel(n, r, w);
    Distributes(m, r, m);
    Cancel(n, m, w);
  }

  lemma Distributes(a: real, b: real, c: real)
    ensures c * (a + b) == c * a + c * b
  {
  }

  function Abs(x: real): real {
    if x < 0.0 then -x else x
  }

  /** The factor by which two covariances approach each other in a step, at most. */
  function Contraction(q: real, r: real): real
    requires q + r != 0.0
  {
    r / (q + r) * (r / (q + r))
  }

  /** The difference of two covariances after a step. */
  lemma DifferenceForm(p: real, p': real, q: real, r: real)
    requires p > 0.0 && p' > 0.0 && q >= 0.0 && r > 0.0
    ensures (NextCovariance(p, q, r) - NextCovariance(p', q, r)) * ((p + q + r) * (p' + q + r)) == r * r * (p - p')
  {
  }

  /** With c = r / (q + r) the noise is at most c times any predicted covariance plus noise. */
  lemma NoiseShare(p: real, q: real, r: real)
    requires p > 0.0 && q >= 0.0 && r > 0.0
    ensures 0.0 < r / (q + r) <= 1.0 && r <= r / (q + r) * (p + q + r)
  {
  }

  lemma ProductAtMost(r: real, x: real, y: real)
    requires 0.0 < r <= x && r <= y
    ensures r * r <= x * y
  {
  }

  lemma Squares(c: real, a: real, b: real)
    ensures c * a * (c * b) == c * c * (a * b)
  {
  }

  lemma ContractCore(d: real, e: real, ab: real, rr: real, cc: real)
    requires ab > 0.0 && rr > 0.0 && d * ab == rr * e && rr <= cc * ab
    ensures Abs(d) <= cc * Abs(e)
  {
  }

  /** Two covariances approach each other by the factor (r / (q + r))^2 or faster. */
  lemma StepContracts(p: real, p': real, q: real, r: real)
    requires p > 0.0 && p' > 0.0 && q >= 0.0 && r > 0.0
    ensures Abs(NextCovariance(p, q, r) - NextCovariance(p', q, r)) <= Contraction(q, r) * Abs(p - p')
  {
    var a, b, c := p + q + r, p' + q + r, r / (q + r);
    DifferenceForm(p, p', q, r);
    NoiseShare(p, q, r);
    NoiseShare(p', q, r);
    ProductAtMost(r, c * a, c * b);
    Squares(c, a, b);
    var ab := Product(a, b);
    var rr := Product(r, r);
    var cc := Product(c, c);
    ContractCore(NextCovariance(p, q, r) - NextCovariance(p', q, r), p - p', ab, rr, cc);
  }

  // ---------------------------------------------------------------------------------------------
  // Runs with constant noise

  function Iterate(f: real -> real, p: real, n: nat): real {
    if n == 0 then p else f(Iterate(f, p, n - 1))
  }

  predicate StepsTo(f: real -> real, p: real, q: real, r: real) {
    p > 0.0 && q >= 0.0 && r > 0.0 ==> f(p) == NextCovariance(p, q, r)
  }

  /** f is what a call with the noise parameters q and r does to a positive covariance, so that its
      iterates are the covariances of successive calls. */
  ghost predicate IsCovarianceStep(f: real -> real, q: real, r: real) {
    q >= 0.0 && r > 0.0 && forall p :: StepsTo(f, p, q, r)
  }

  lemma CovarianceStepExists(q: real, r: real) returns (f: real -> real)
    requires q >= 0.0 && r > 0.0
    ensures IsCovarianceStep(f, q, r)
  {
    f := p => if p + q + r == 0.0 then 0.0 else NextCovariance(p, q, r);
    forall p
      ensures StepsTo(f, p, q, r)
    {
    }
  }

  function PowR(c: real, n: nat): real {
    if n == 0 then 1.0 else c * PowR(c, n - 1)
  }

  predicate StaysPositive(f: real -> real, x: real) {
    x > 0.0 ==> f(x) > 0.0
  }

  /** The images of two positive numbers are closer than the numbers by a factor of k. */
  predicate Closer(f: real -> real, k: real, x: real, y: real) {
    x > 0.0 && y > 0.0 ==> Abs(f(x) - f(y)) <= k * Abs(x - y)
  }

  ghost predicate Contracts(f: real -> real, k: real) {
    (forall x :: StaysPositive(f, x)) && forall x, y :: Closer(f, k, x, y)
  }

  lemma {:induction false} IteratePositive(f: real -> real, p: real, n: nat)
    requires p > 0.0 && forall x :: StaysPositive(f, x)
    ensures Iterate(f, p, n) > 0.0
  {
    if n > 0 {
      IteratePositive(f, p, n - 1);
      assert StaysPositive(f, Iterate(f, p, n - 1));
    }
  }

  lemma {:induction false} IterateContracts(f: real -> real, k: real, p: real, p': real, n: nat)
    requires p > 0.0 && p' > 0.0 && k >= 0.0 && Contracts(f, k)
    ensures Abs(Iterate(f, p, n) - Iterate(f, p', n)) <= PowR(k, n) * Abs(p - p')
  {
    if n > 0 {
      IterateContracts(f, k, p, p', n - 1);
      IteratePositive(f, p, n - 1);
      IteratePositive(f, p', n - 1);
      var a, b := Iterate(f, p, n - 1), Iterate(f, p', n - 1);
      assert Closer(f, k, a, b);
      ContractAgain(Abs(f(a) - f(b)), Abs(a - b), PowR(k, n - 1), k, Abs(p - p'), PowR(k, n));
    }
  }

  lemma ContractAgain(next: real, before: real, pow: real, k: real, e: real, pow': real)
    requires next <= k * before && before <= pow * e && k >= 0.0 && pow' == k * pow
    ensures next <= pow' * e
  {
  }

  lemma StepIsContraction(f: real -> real, q: real, r: real)
    requires IsCovarianceStep(f, q, r)
    ensures Contracts(f, Contraction(q, r)) && Contraction(q, r) > 0.0
  {
    forall x
      ensures StaysPositive(f, x)
    {
      PositiveStep(f, x, q, r);
    }
    forall x, y
      ensures Closer(f, Contraction(q, r), x, y)
    {
      CloserStep(f, x, y, q, r);
    }
    NoiseShare(1.0, q, r);
    var k := Product(r / (q + r), r / (q + r));
  }

  lemma PositiveStep(f: real -> real, x: real, q: real, r: real)
    requires IsCovarianceStep(f, q, r)
    ensures StaysPositive(f, x)
  {
    if x > 0.0 {
      assert StepsTo(f, x, q, r);
      CovarianceBounds(x, q, r);
    }
  }

  lemma CloserStep(f: real -> real, x: real, y: real, q: real, r: real)
    requires IsCovarianceStep(f, q, r)
    ensures Closer(f, Contraction(q, r), x, y)
  {
    if x > 0.0 && y > 0.0 {
      assert StepsTo(f, x, q, r) && StepsTo(f, y, q, r);
      StepContracts(x, y, q, r);
    }
  }

  /** A positive covariance stays positive, and is below the measurement noise after one call. */
  lemma CovarianceStaysBounded(f: real -> real, p: real, q: real, r: real, n: nat)
    requires IsCovarianceStep(f, q, r) && p > 0.0
    ensures Iterate(f, p, n) > 0.0 && (n > 0 ==> Iterate(f, p, n) < r)
  {
    StepIsContraction(f, q, r);
    IteratePositive(f, p, n);
    if n > 0 {
      IteratePositive(f, p, n - 1);
      assert StepsTo(f, Iterate(f, p, n - 1), q, r);
      CovarianceBounds(Iterate(f, p, n - 1), q, r);
    }
  }

  /** Whatever the two starting covariances, after n calls they have approached each other by the
      n-th power of the factor. */
  lemma CovariancesContract(f: real -> real, p: real, p': real, q: real, r: real, n: nat)
    requires IsCovarianceStep(f, q, r) && p > 0.0 && p' > 0.0
    ensures Abs(Iterate(f, p, n) - Iterate(f, p', n)) <= PowR(Contraction(q, r), n) * Abs(p - p')
  {
    StepIsContraction(f, q, r);
    IterateContracts(f, Contraction(q, r), p, p', n);
  }

  /** One measurement with the noise parameters of its call. */
  datatype Input = Input(z: real, q: real, r: real)

  predicate Proper(i: Input) {
    i.q >= 0.0 && i.r > 0.0
  }

  predicate AllProper(inputs: seq<Input>) {
    forall k | 0 <= k < |inputs| :: Proper(inputs[k])
  }

  /** A run of the filter from its initial statics. */
  function Run(inputs: seq<Input>): (s: State)
    requires AllProper(inputs)
    ensures s.p > 0.0
  {
    if |inputs| == 0 then START
    else
      var before, i := Run(inputs[..|inputs| - 1]), inputs[|inputs| - 1];
      CovarianceBounds(before.p, i.q, i.r);
      Step(before, i.z, i.q, i.r)
  }

  /** Every estimate lies in any interval that holds 0 and the measurements so far. */
  lemma {:induction false} EstimateInHull(inputs: seq<Input>, lo: real, hi: real)
    requires AllProper(inputs)
    requires lo <= 0.0 <= hi && forall k | 0 <= k < |inputs| :: lo <= inputs[k].z <= hi
    ensures lo <= Run(inputs).x <= hi
  {
    if |inputs| > 0 {
      EstimateInHull(inputs[..|inputs| - 1], lo, hi);
      var i := inputs[|inputs| - 1];
      StepInHull(Run(inputs[..|inputs| - 1]), i.z, i.q, i.r, lo, hi);
    }
  }

  lemma StepInHull(s: State, z: real, q: real, r: real, lo: real, hi: real)
    requires s.p > 0.0 && q >= 0.0 && r > 0.0 && lo <= s.x <= hi && lo <= z <= hi
    ensures lo <= Step(s, z, q, r).x <= hi
  {
    CovarianceBounds(s.p, q, r);
    Between(s.x, z, Gain(s.p, q, r), lo, hi);
  }

  lemma Between(x: real, z: real, g: real, lo: real, hi: real)
    requires 0.0 <= g <= 1.0 && lo <= x <= hi && lo <= z <= hi
    ensures lo <= x + g * (z - x) <= hi
  {
    var y := x + g * (z - x);
    if z >= x {
      var c := PartOf(g, z - x);
      assert y == x + c;
    } else {
      var c := PartOf(g, x - z);
      assert y == x - c;
    }
  }

  lemma PartOf(g: real, d: real) returns (c: real)
    requires 0.0 <= g <= 1.0 && d >= 0.0
    ensures c == g * d && 0.0 <= c <= d
  {
    c := NonNegative(g, d);
    var e := NonNegative(1.0 - g, d);
  }

  // ---------------------------------------------------------------------------------------------
  // The best linear estimate

  /** The covariance after a step that uses any gain g. */
  function Spread(g: real, p: real, q: real, r: real): real {
    (1.0 - g) * (1.0 - g) * (p + q) + g * g * r
  }

  /** s'.x is the mean of s.x and z, each weighted by the variance of the other: the measurement noise
      and the predicted covariance; and s'.p is the covariance of this mean. */
  predicate WeightedMean(s: State, z: real, q: real, r: real, s': State) {
    && s'.x * (s.p + q + r) == r * s.x + (s.p + q) * z
    && s'.p * (s.p + q + r) == (s.p + q) * r
  }

  lemma EstimateIsWeightedMean(s: State, z: real, q: real, r: real)
    requires s.p > 0.0 && q >= 0.0 && r > 0.0
    ensures WeightedMean(s, z, q, r, Step(s, z, q, r))
  {
    CovarianceForm(s.p, q, r);
    MeanForm(s.x, z, s.p + q, r, Gain(s.p, q, r));
  }

  lemma MeanForm(x: real, z: real, m: real, r: real, g: real)
    requires g * (m + r) == m
    ensures (x + g * (z - x)) * (m + r) == r * x + m * z
  {
    calc {
      (x + g * (z - x)) * (m + r);
      x * (m + r) + (z - x) * (g * (m + r));
      x * (m + r) + (z - x) * m;
      r * x + m * z;
    }
  }

  lemma SquareCompleted(g: real, m: real, r: real)
    ensures ((1.0 - g) * (1.0 - g) * m + g * g * r) * (m + r) == m * r + (g * (m + r) - m) * (g * (m + r) - m)
  {
  }

  lemma Square(a: real)
    ensures a * a >= 0.0 && (a * a == 0.0 <==> a == 0.0)
  {
    if a != 0.0 {
      var c := Product(Abs(a), Abs(a));
    }
  }

  /** No gain gives a smaller covariance than the step has, and only one gives the same. */
  lemma GainIsOptimal(g: real, p: real, q: real, r: real)
    requires p > 0.0 && q >= 0.0 && r > 0.0
    ensures NextCovariance(p, q, r) <= Spread(g, p, q, r)
    ensures NextCovariance(p, q, r) == Spread(g, p, q, r) <==> g * (p + q + r) == p + q
  {
    var m, n, v, w := p + q, NextCovariance(p, q, r), Spread(g, p, q, r), p + q + r;
    CovarianceForm(p, q, r);
    SquareCompleted(g, m, r);
    Square(g * w - m);
    OnTheScaleOf(w, n, v, (g * w - m) * (g * w - m));
  }

  lemma OnTheScaleOf(w: real, n: real, v: real, d: real)
    requires w > 0.0 && d >= 0.0 && v * w == n * w + d
    ensures n <= v && (n == v <==> d == 0.0)
  {
    Cancel(n, v, w);
    Cancel(v, n, w);
  }

  /** A step that corrects the estimate with any gain g. */
  function Correct(s: State, i: Input, g: real): State {
    State(s.x + g * (i.z - s.x), Spread(g, s.p, i.q, i.r))
  }

  /** The estimator with the gains gs in place of the filter's. */
  function Linear(inputs: seq<Input>, gs: seq<real>): State
    requires |gs| == |inputs|
  {
    if |inputs| == 0 then START
    else
      Correct(Linear(inputs[..|inputs| - 1], gs[..|gs| - 1]), inputs[|inputs| - 1], gs[|gs| - 1])
  }

  lemma SpreadGrows(g: real, p: real, p': real, q: real, r: real)
    requires p <= p'
    ensures Spread(g, p, q, r) <= Spread(g, p', q, r)
  {
    Square(1.0 - g);
    var c := NonNegative((1.0 - g) * (1.0 - g), p' - p);
  }

  /** For every history of measurements with changing noise, the filter has the least covariance that
      any choice of gains can reach. */
  lemma {:induction false} FilterIsOptimal(inputs: seq<Input>, gs: seq<real>)
    requires AllProper(inputs) && |gs| == |inputs|
    ensures Run(inputs).p <= Linear(inputs, gs).p
  {
    if |inputs| > 0 {
      var before, i, g := inputs[..|inputs| - 1], inputs[|inputs| - 1], gs[|gs| - 1];
      FilterIsOptimal(before, gs[..|gs| - 1]);
      GainIsOptimal(g, Run(before).p, i.q, i.r);
      SpreadGrows(g, Run(before).p, Linear(before, gs[..|gs| - 1]).p, i.q, i.r);
    }
  }

  /** And it is such an estimator: estimate and covariance are those of one choice of gains. */
  lemma {:induction false} FilterIsLinear(inputs: seq<Input>) returns (gs: seq<real>)
    requires AllProper(inputs)
    ensures |gs| == |inputs| && Linear(inputs, gs) == Run(inputs)
  {
    gs := [];
    if |inputs| > 0 {
      var before, i := inputs[..|inputs| - 1], inputs[|inputs| - 1];
      var tail := FilterIsLinear(before);
      var g := StepIsLinear(Run(before), i);
      gs := tail + [g];
      assert inputs == before + [i];
      RunStep(before, i);
      LinearStep(before, tail, i, g);
    }
  }

  lemma LinearStep(inputs: seq<Input>, gs: seq<real>, i: Input, g: real)
    requires |gs| == |inputs|
    ensures Linear(inputs + [i], gs + [g]) == Correct(Linear(inputs, gs), i, g)
  {
    assert (inputs + [i])[..|inputs|] == inputs && (gs + [g])[..|gs|] == gs;
  }

  lemma StepIsLinear(s: State, i: Input) returns (g: real)
    requires s.p > 0.0 && Proper(i)
    ensures Step(s, i.z, i.q, i.r) == Correct(s, i, g)
  {
    g := Gain(s.p, i.q, i.r);
    GainAttains(s.p, i.q, i.r);
    var d := g * (i.z - s.x);
    assert Step(s, i.z, i.q, i.r).x == s.x + d;
    assert Correct(s, i, g).x == s.x + d;
  }

  lemma GainAttains(p: real, q: real, r: real)
    requires p > 0.0 && q >= 0.0 && r > 0.0
    ensures NextCovariance(p, q, r) == Spread(Gain(p, q, r), p, q, r)
  {
    QuotientTimes(p + q, p + q + r);
    GainIsOptimal(Gain(p, q, r), p, q, r);
  }

  lemma RunStep(inputs: seq<Input>, i: Input)
    requires AllProper(inputs) && Proper(i)
    ensures Run(inputs + [i]) == Step(Run(inputs), i.z, i.q, i.r)
  {
    assert (inputs + [i])[..|inputs|] == inputs;
  }

  /** In every run with changing noise each estimate is that weighted mean of the one before and the
      new measurement. */
  lemma RunIsWeightedMean(inputs: seq<Input>, i: Input)
    requires AllProper(inputs) && Proper(i)
    ensures WeightedMean(Run(inputs), i.z, i.q, i.r, Run(inputs + [i]))
    ensures Run([]).x == 0.0 && Run([]).p == 20.0
  {
    RunStep(inputs, i);
    EstimateIsWeightedMean(Run(inputs), i.z, i.q, i.r);
  }

  // ---------------------------------------------------------------------------------------------
  // Without process noise

  function SumOf(zs: seq<real>): real {
    if |zs| == 0 then 0.0 else SumOf(zs[..|zs| - 1]) + zs[|zs| - 1]
  }

  function Fold<S>(f: (S, real) -> S, s: S, zs: seq<real>): S {
    if |zs| == 0 then s else f(Fold(f, s, zs[..|zs| - 1]), zs[|zs| - 1])
  }

  /** A call with q = 0 and a constant r. */
  function StillCall(r: real): (State, real) -> State {
    (s: State, z: real) => if s.p + 0.0 + r == 0.0 then s else Step(s, z, 0.0, r)
  }

  /** A run with q = 0 and a constant r. */
  function RunStill(zs: seq<real>, r: real): State {
    Fold(StillCall(r), START, zs)
  }

  /** The covariance is 20 r / w, the estimate 20 sum / w, for the weight w = r + 20 n. */
  predicate IsAverage(s: State, r: real, n: nat, sum: real) {
    var w := r + 20.0 * (n as real);
    s.p > 0.0 && s.p * w == 20.0 * r && s.x * w == 20.0 * sum
  }

  lemma {:induction false} FoldAverage(f: (State, real) -> State, r: real, zs: seq<real>)
    requires IsAverage(START, r, 0, 0.0)
    requires forall s: State, z: real, n: nat, sum: real :: IsAverage(s, r, n, sum) ==> IsAverage(f(s, z), r, n + 1, sum + z)
    ensures IsAverage(Fold(f, START, zs), r, |zs|, SumOf(zs))
  {
    if |zs| > 0 {
      var n := |zs| - 1;
      FoldAverage(f, r, zs[..n]);
      assert IsAverage(f(Fold(f, START, zs[..n]), zs[n]), r, n + 1, SumOf(zs[..n]) + zs[n]);
    }
  }

  lemma StillIsAverage(zs: seq<real>, r: real)
    requires r > 0.0
    ensures IsAverage(RunStill(zs, r), r, |zs|, SumOf(zs))
  {
    forall s: State, z: real, n: nat, sum: real | IsAverage(s, r, n, sum)
      ensures IsAverage(StillCall(r)(s, z), r, n + 1, sum + z)
    {
      StillStep(s, z, r, r + 20.0 * (n as real), sum);
      CovarianceBounds(s.p, 0.0, r);
      Weight(n, r);
    }
    FoldAverage(StillCall(r), r, zs);
  }

  lemma Weight(n: nat, r: real)
    ensures r + 20.0 * ((n + 1) as real) == r + 20.0 * (n as real) + 20.0
  {
  }

  lemma StillStep(before: State, z: real, r: real, w: real, sum: real)
    requires before.p > 0.0 && r > 0.0 && w > 0.0 && before.p * w == 20.0 * r && before.x * w == 20.0 * sum
    ensures var s := Step(before, z, 0.0, r);
      s.p * (w + 20.0) == 20.0 * r && s.x * (w + 20.0) == 20.0 * (sum + z)
  {
  }

  // ---------------------------------------------------------------------------------------------
  // Runs with constant noise

  predicate ConstantNoise(inputs: seq<Input>, q: real, r: real) {
    forall k | 0 <= k < |inputs| :: inputs[k].q == q && inputs[k].r == r
  }

  function Measurements(inputs: seq<Input>): seq<real> {
    if |inputs| == 0 then [] else Measurements(inputs[..|inputs| - 1]) + [inputs[|inputs| - 1].z]
  }

  lemma {:induction false} MeasurementCount(inputs: seq<Input>)
    ensures |Measurements(inputs)| == |inputs|
  {
    if |inputs| > 0 {
      MeasurementCount(inputs[..|inputs| - 1]);
    }
  }

  /** With constant noise the covariances of a run are the iterates of the covariance step, whatever
      is measured. */
  lemma {:induction false} RunCovariance(inputs: seq<Input>, f: real -> real, q: real, r: real)
    requires AllProper(inputs) && ConstantNoise(inputs, q, r) && IsCovarianceStep(f, q, r)
    ensures Run(inputs).p == Iterate(f, 20.0, |inputs|)
  {
    if |inputs| > 0 {
      var before := inputs[..|inputs| - 1];
      RunCovariance(before, f, q, r);
      assert StepsTo(f, Run(before).p, q, r);
    }
  }

  lemma {:induction false} RunIsStill(inputs: seq<Input>, r: real)
    requires AllProper(inputs) && ConstantNoise(inputs, 0.0, r) && r > 0.0
    ensures Run(inputs) == RunStill(Measurements(inputs), r)
  {
    if |inputs| > 0 {
      var before, z := inputs[..|inputs| - 1], inputs[|inputs| - 1].z;
      RunIsStill(before, r);
      assert (Measurements(before) + [z])[..|Measurements(before)|] == Measurements(before);
      assert Run(inputs) == Step(Run(before), z, 0.0, r);
    }
  }

  /** Without process noise the filter is the running average of its measurements with the start
      value 0 weighted by r / 20. */
  lemma StillRunIsAverage(inputs: seq<Input>, r: real)
    requires AllProper(inputs) && ConstantNoise(inputs, 0.0, r) && r > 0.0
    ensures IsAverage(Run(inputs), r, |inputs|, SumOf(Measurements(inputs)))
  {
    RunIsStill(inputs, r);
    MeasurementCount(inputs);
    StillIsAverage(Measurements(inputs), r);
  }
}
