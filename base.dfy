/** Numeric building blocks shared by the scanner: the float values the
    program can produce (finite reals and +infinity), their ordering, and
    Python's round-half-to-even. */
module Base {

  datatype Option<T> = None | Some(value: T)

  /** A Python float as it occurs in this program: a finite real or +inf.
      NaN and -inf never arise: the only infinite value is the
      `float('inf')` that ratio_for returns when the defect is exactly 0,
      and |inf - 1| is inf again. */
  datatype Ext = Fin(v: real) | Inf

  /** Python's `<=` on floats restricted to Ext. */
  predicate Le(a: Ext, b: Ext) {
    match (a, b)
    case (_, Inf) => true
    case (Inf, Fin(_)) => false
    case (Fin(x), Fin(y)) => x <= y
  }

  /** Python's `<` on floats restricted to Ext. */
  predicate Lt(a: Ext, b: Ext) {
    !Le(b, a)
  }

  function Abs(x: real): real {
    if x < 0.0 then -x else x
  }

  function Min(a: int, b: int): int {
    if a <= b then a else b
  }

  /** The first min(k, |s|) elements of s: Python's `s[:k]`. */
  function Take<T>(k: nat, s: seq<T>): (r: seq<T>)
    ensures |r| == Min(k, |s|)
    ensures r == s[..|r|]
  {
    if k <= |s| then s[..k] else s
  }

  /** `abs(r - 1.0)`: the distance of a ratio from unity; infinite for an
      infinite ratio. */
  function AbsErr(r: Ext): (e: Ext)
    ensures e.Inf? <==> r.Inf?
    ensures e.Fin? ==> 0.0 <= e.v && (r.v == 1.0 + e.v || r.v == 1.0 - e.v)
  {
    match r
    case Inf => Inf
    case Fin(x) => Fin(Abs(x - 1.0))
  }

  /** Python 3 `round(x)`: the nearest integer, an exact half going to
      the even neighbour. */
  function Round(x: real): (k: int)
    ensures -0.5 <= x - k as real <= 0.5
    ensures (x - k as real == 0.5 || k as real - x == 0.5) ==> k % 2 == 0
  {
    var f := x.Floor;
    var frac := x - f as real;
    if frac < 0.5 then f
    else if frac > 0.5 then f + 1
    else if f % 2 == 0 then f
    else f + 1
  }

  /** No integer is strictly closer to x than Round(x). */
  lemma RoundIsNearest(x: real, j: int)
    ensures Abs(x - Round(x) as real) <= Abs(x - j as real)
  {
    var k := Round(x);
    if j > k {
      assert j as real >= k as real + 1.0;
      assert x - j as real <= -0.5;
    } else if j < k {
      assert j as real <= k as real - 1.0;
      assert x - j as real >= 0.5;
    }
  }

  /** Round(x) is the only integer within one half of x, except at an exact
      half, where it is the only even one of the two. */
  lemma RoundIsUnique(x: real, j: int)
    requires Abs(x - j as real) < 0.5 || (Abs(x - j as real) == 0.5 && j % 2 == 0)
    ensures j == Round(x)
  {
  }
}
