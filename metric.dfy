/** The configuration of one run and the defect metric (defect_for,
    ratio_for). */
module Metric {
  import opened Base

  /** The constants of one run. `theta` is the golden angle 2*pi/phi^2 and
      `period` is 2*pi; both are irrational, so they are parameters here
      rather than literals. */
  datatype Config = Config(
    theta: real,       // THETA_GOLD
    period: real,      // 2 * math.pi
    target: real,      // TARGET_OBSERVED
    nMax: int,         // N_MAX: the scan covers n = 1 .. nMax
    topK: nat,         // TOP_K
    qcdMin: real,      // QCD_MIN: reporting window, lower end
    qcdMax: real,      // QCD_MAX: reporting window, upper end
    tolRatio: real,    // TOL_RATIO
    defectCap: real    // DEFECT_CAP
  )

  /** The constants of the reference run, for given values of the golden
      angle and of 2*pi. */
  function ReferenceConfig(theta: real, period: real): (c: Config)
  {
    Config(theta, period, 0.0000179, 1_000_000, 25, 1.1, 1.5, 0.02, 0.001)
  }

  /** |p * t| = p * |t| for a positive scale p. */
  lemma ScaleAbs(p: real, t: real)
    requires p > 0.0
    ensures Abs(p * t) == p * Abs(t)
  {
    if t < 0.0 {
      assert p * t < 0.0;
      assert -(p * t) == p * (-t);
    } else {
      assert p * t >= 0.0;
    }
  }

  /** Scaling by a positive factor keeps the order. */
  lemma MulMonotone(p: real, a: real, b: real, pa: real, pb: real)
    requires p > 0.0 && a <= b && pa == p * a && pb == p * b
    ensures pa <= pb
  {
    assert pb - pa == p * (b - a);
  }

  /** |v - p*j| is p times the distance of x from j, where v = p*x. */
  lemma DistanceScaled(p: real, x: real, v: real, j: int)
    requires p > 0.0 && v == p * x
    ensures Abs(v - p * j as real) == p * Abs(x - j as real)
  {
    assert v - p * j as real == p * (x - j as real);
    ScaleAbs(p, x - j as real);
  }

  /** p * round(x) is the multiple of p nearest to v = p*x. */
  lemma NearestMultiple(p: real, x: real, v: real, j: int)
    requires p > 0.0 && v == p * x
    ensures Abs(v - p * Round(x) as real) <= Abs(v - p * j as real)
  {
    var k := Round(x);
    DistanceScaled(p, x, v, k);
    DistanceScaled(p, x, v, j);
    RoundIsNearest(x, j);
    MulMonotone(p, Abs(x - k as real), Abs(x - j as real),
                Abs(v - p * k as real), Abs(v - p * j as real));
  }

  /** The nearest multiple of p to v = p*x is at most p/2 away. */
  lemma NearestMultipleBound(p: real, x: real, v: real)
    requires p > 0.0 && v == p * x
    ensures 0.0 <= Abs(v - p * Round(x) as real) <= p / 2.0
  {
    var a := Abs(x - Round(x) as real);
    DistanceScaled(p, x, v, Round(x));
    MulMonotone(p, a, 0.5, p * a, p * 0.5);
  }

  /** n*theta measured in periods, and n*theta recovered from it. */
  function Turns(c: Config, n: int): (x: real)
    requires c.period > 0.0
    ensures c.period * x == n as real * c.theta
  {
    (n as real * c.theta) / c.period
  }

  /** defect_for(n) = |n*theta - P*k| with k = round(n*theta / P). */
  function Defect(c: Config, n: int): (d: real)
    requires c.period > 0.0
    ensures 0.0 <= d <= c.period / 2.0
  {
    var x := Turns(c, n);
    NearestMultipleBound(c.period, x, n as real * c.theta);
    Abs(n as real * c.theta - c.period * Round(x) as real)
  }

  /** The defect is the distance from n*theta to the nearest multiple of
      the period: no multiple is closer. */
  lemma DefectIsNearestMultipleDistance(c: Config, n: int, j: int)
    requires c.period > 0.0
    ensures Defect(c, n) <= Abs(n as real * c.theta - c.period * j as real)
  {
    NearestMultiple(c.period, Turns(c, n), n as real * c.theta, j);
  }

  /** ratio_for(n): the pair (ratio, defect), with ratio = TARGET / defect
      and +inf when the defect is exactly zero. */
  function RatioFor(c: Config, n: int): (res: (Ext, real))
    requires c.period > 0.0
    ensures res.1 == Defect(c, n)
    ensures res.0.Inf? <==> res.1 == 0.0
    ensures res.0.Fin? ==> res.0.v * res.1 == c.target
  {
    var d := Defect(c, n);
    if d == 0.0 then (Inf, d) else (Fin(c.target / d), d)
  }
}
