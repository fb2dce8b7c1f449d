/** The Fibonacci contrast path: the terms 2, 3, 5, 8, ... up to N_MAX,
    tagged F3, F4, ..., measured with the same metric and ranked with the
    same selection. It reads nothing from the unbiased scan. */
module Contrast {
  import opened Base
  import opened Metric

  /** The successive values of `a, b` in the generator: Fib(0) = 1 is the
      initial `a`, Fib(1) = 2 the initial `b`, and each step moves on by
      `a, b = b, a + b`. */
  function Fib(i: nat): (f: nat)
    ensures f >= i + 1
  {
    if i == 0 then 1
    else if i == 1 then 2
    else Fib(i - 2) + Fib(i - 1)
  }

  lemma {:induction false} FibIsStrictlyIncreasing(i: nat, j: nat)
    requires i < j
    ensures Fib(i) < Fib(j)
  {
    if j > i + 1 {
      FibIsStrictlyIncreasing(i, j - 1);
    }
    assert Fib(j - 1) < Fib(j) by {
      if j >= 2 {
        assert Fib(j) == Fib(j - 2) + Fib(j - 1);
      }
    }
  }

  /** `fibs` is what the generator emits for bound nMax: entry i is the
      term Fib(i + 1) with index label i + 3, every emitted term is at most
      nMax, and the term after the last one exceeds nMax. */
  predicate IsFibList(nMax: int, fibs: seq<(nat, nat)>) {
    && (forall i :: 0 <= i < |fibs| ==> fibs[i] == (Fib(i + 1), i + 3) && Fib(i + 1) <= nMax)
    && Fib(|fibs| + 1) > nMax
  }

  /** The generator loop `while b <= N_MAX: fibs.append((b, idx)); ...`. */
  method FibTerms(nMax: int) returns (fibs: seq<(nat, nat)>)
    ensures IsFibList(nMax, fibs)
  {
    fibs := [];
    var a: nat, b: nat, idx: nat := 1, 2, 3;
    while b <= nMax
      invariant a == Fib(|fibs|) && b == Fib(|fibs| + 1) && idx == |fibs| + 3
      invariant forall i :: 0 <= i < |fibs| ==> fibs[i] == (Fib(i + 1), i + 3) && Fib(i + 1) <= nMax
      decreases nMax - b
    {
      fibs := fibs + [(b, idx)];
      a, b := b, a + b;
      idx := idx + 1;
    }
  }

  /** The emitted terms start with 2, follow the recurrence (with a = 1
      before the first step), increase strictly, stay within the bound and
      carry consecutive labels from 3. */
  lemma FibListShape(nMax: int, fibs: seq<(nat, nat)>)
    requires IsFibList(nMax, fibs)
    ensures |fibs| > 0 ==> fibs[0].0 == 2
    ensures |fibs| > 1 ==> fibs[1].0 == 1 + fibs[0].0
    ensures forall i :: 0 <= i < |fibs| - 2 ==> fibs[i + 2].0 == fibs[i].0 + fibs[i + 1].0
    ensures forall i, j :: 0 <= i < j < |fibs| ==> fibs[i].0 < fibs[j].0
    ensures forall i :: 0 <= i < |fibs| ==> fibs[i].0 <= nMax && fibs[i].1 == i + 3
  {
    forall i, j | 0 <= i < j < |fibs| ensures fibs[i].0 < fibs[j].0 {
      FibIsStrictlyIncreasing(i + 1, j + 1);
    }
  }

  lemma FibListTermWithinBound(nMax: int, fibs: seq<(nat, nat)>, i: nat)
    requires IsFibList(nMax, fibs) && i < |fibs|
    ensures Fib(i + 1) <= nMax
  {
    assert fibs[i] == (Fib(i + 1), i + 3);
  }

  /** The generator's output is determined by the bound. */
  lemma FibListIsUnique(nMax: int, f1: seq<(nat, nat)>, f2: seq<(nat, nat)>)
    requires IsFibList(nMax, f1) && IsFibList(nMax, f2)
    ensures f1 == f2
  {
    if |f1| < |f2| {
      FibListTermWithinBound(nMax, f2, |f1|);
      assert false;
    } else if |f2| < |f1| {
      FibListTermWithinBound(nMax, f1, |f2|);
      assert false;
    }
  }

  /** With N_MAX = 20 the generator yields 2, 3, 5, 8, 13 as F3 .. F7. */
  lemma FibListUpToTwenty(fibs: seq<(nat, nat)>)
    requires IsFibList(20, fibs)
    ensures fibs == [(2, 3), (3, 4), (5, 5), (8, 6), (13, 7)]
  {
    assert Fib(6) == 21;
    var expected: seq<(nat, nat)> := [(2, 3), (3, 4), (5, 5), (8, 6), (13, 7)];
    assert IsFibList(20, expected);
    FibListIsUnique(20, fibs, expected);
  }

  /** Decimal digits of n, as `str(n)` writes them. */
  function NatToString(n: nat): (s: string)
    ensures |s| > 0 && forall i :: 0 <= i < |s| ==> '0' <= s[i] <= '9'
  {
    var d := ['0' + ((n % 10) as char)];
    if n < 10 then d else NatToString(n / 10) + d
  }

  /** The value of a string of decimal digits. */
  function ParseNat(s: string): (n: nat)
    requires forall i :: 0 <= i < |s| ==> '0' <= s[i] <= '9'
  {
    if s == [] then 0
    else ParseNat(s[..|s| - 1]) * 10 + (s[|s| - 1] - '0') as nat
  }

  lemma {:induction false} ParseNatToString(n: nat)
    ensures ParseNat(NatToString(n)) == n
  {
    var s := NatToString(n);
    assert s[..|s| - 1] == if n < 10 then [] else NatToString(n / 10);
    if n >= 10 {
      ParseNatToString(n / 10);
    }
  }

  /** The label `f"F{idx}"`. */
  function Label(idx: nat): (l: string) {
    "F" + NatToString(idx)
  }

  /** Distinct indices get distinct labels. */
  lemma LabelIsInjective(i: nat, j: nat)
    requires Label(i) == Label(j)
    ensures i == j
  {
    assert NatToString(i) == Label(i)[1..];
    assert NatToString(j) == Label(j)[1..];
    ParseNatToString(i);
    ParseNatToString(j);
  }

  /** A contrast record `(abs(ratio-1), n, ratio, defect, layer)`. */
  datatype TaggedRecord = TaggedRecord(err: Ext, n: int, ratio: Ext, defect: real, layer: string)

  /** The sort key of the contrast selection: `lambda x: x[0]`. */
  function TaggedErr(rec: TaggedRecord): Ext {
    rec.err
  }

  /** The loop that measures every emitted term with ratio_for and tags it. */
  method FibRecords(c: Config, fibs: seq<(nat, nat)>) returns (frs: seq<TaggedRecord>)
    requires c.period > 0.0
    ensures |frs| == |fibs|
    ensures forall i :: 0 <= i < |fibs| ==>
              && frs[i].n == fibs[i].0
              && frs[i].layer == Label(fibs[i].1)
              && (frs[i].ratio, frs[i].defect) == RatioFor(c, fibs[i].0)
              && frs[i].err == AbsErr(frs[i].ratio)
  {
    frs := [];
    for i := 0 to |fibs|
      invariant |frs| == i
      invariant forall m :: 0 <= m < i ==>
                  && frs[m].n == fibs[m].0
                  && frs[m].layer == Label(fibs[m].1)
                  && (frs[m].ratio, frs[m].defect) == RatioFor(c, fibs[m].0)
                  && frs[m].err == AbsErr(frs[m].ratio)
    {
      var (nFib, fidx) := fibs[i];
      var (r, d) := RatioFor(c, nFib);
      frs := frs + [TaggedRecord(AbsErr(r), nFib, r, d, Label(fidx))];
    }
  }
}
