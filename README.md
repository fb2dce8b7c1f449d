# NIFT fair resonance scanner: a verified model

This project models the scan-and-rank engine of the NIFT "fair mode" scanner
(`nift_scanner_fair.py`). For every integer n in 1 .. N_MAX it computes the
defect of n. The defect is the distance from n·θ (θ = the golden angle 2π/φ²)
to the nearest multiple of 2π. It then forms the ratio TARGET / defect and
keeps a record for every n whose defect is under a cap. While scanning it
counts the records close to ratio 1 and the records in a reporting window,
and keeps a preview of the first ten window hits. Finally it ranks the
records with `heapq.nsmallest` by |ratio − 1| and takes the head of that
ranking as the best n. A second, independent path generates the Fibonacci
terms 2, 3, 5, 8, … up to N_MAX, tags them F3, F4, …, measures them with the
same metric and ranks them with the same selection, for contrast only.

Modules, one file each:

- `base.dfy` (`Base`): the float values that occur (`Ext`: a finite real or
  +inf, with Python's `<=`), `abs(r - 1.0)`, and Python's `round`.
- `metric.dfy` (`Metric`): the run's constants (`Config`), `defect_for`
  (`Defect`) and `ratio_for` (`RatioFor`).
- `selection.dfy` (`Selection`): `nsmallest` as its documented contract (a
  stable sort truncated to k). It has a specification function (`Smallest`),
  a method with a bounded sorted buffer (`NSmallest`), and the argmin of line
  93 (`Best`).
- `scanner.dfy` (`Scanner`): the unbiased scan loop (`Scan`). Its
  specification is `Scanned`, the records of 1 .. N in scan order.
- `contrast.dfy` (`Contrast`): the Fibonacci generator (`FibTerms`), the
  `F{idx}` labels and the tagging loop (`FibRecords`).
- `fair_scan.dfy` (`FairScan`): one run wiring these together (`Run`).

Modelling choices:

- Real arithmetic replaces IEEE doubles.
- θ, 2π (`period`) and TARGET are parameters of `Config`, as are the other
  constants and N_MAX. `ReferenceConfig` fills in the reference values:
  TARGET 1.79e-5, N_MAX 1,000,000, TOP_K 25, window [1.1, 1.5], tolerance
  0.02 and cap 1e-3.
- `round` is round-half-to-even, as in Python 3.
- The ratio is `Inf` exactly when the defect is 0. `abs(inf - 1)` is `Inf`,
  which never passes `<= TOL_RATIO` or the window test, as in Python.
- Ties in the ranking keep scan order. This is because Python's `sorted` is
  stable, and `nsmallest` is documented to be equal to `sorted(...)[:k]`.
- Line 93 reads `top_unbiased[0]` without a guard, so an empty selection
  (no record under the cap, or TOP_K = 0) raises `IndexError` and the program
  stops there. An empty selection is the empty list; only the best-record
  query of line 93 fails on it. `Best` returns `None` in that case, and `Run`
  returns `None`: the contrast path and the report never happen.

## Model

| member | source | states |
|---|---|---|
| `Base.Round` | nift_scanner_fair.py:58 | `round(x)` is within 1/2 of x, and at an exact half it is the even neighbour |
| `Base.RoundIsNearest` | nift_scanner_fair.py:58 | no integer is closer to x than `round(x)` |
| `Base.RoundIsUnique` | nift_scanner_fair.py:58 | any integer strictly within 1/2 of x, or the even one at an exact half, is `round(x)` |
| `Base.AbsErr` | nift_scanner_fair.py:79 | `abs(r - 1.0)` is infinite exactly for an infinite ratio; otherwise it is non-negative and r lies that far from 1 |
| `Metric.Defect` | nift_scanner_fair.py:53-59 | for every n, 0 ≤ defect(n) ≤ P/2 (that is, ≤ π) |
| `Metric.DefectIsNearestMultipleDistance` | nift_scanner_fair.py:53-59 | defect(n) ≤ \|n·θ − P·j\| for every integer j: it is the distance to the nearest multiple of the period |
| `Metric.RatioFor` | nift_scanner_fair.py:61-68 | returns the same d as `defect_for`; the ratio is `Inf` exactly when d == 0, and otherwise ratio · d == TARGET |
| `Scanner.Scan` | nift_scanner_fair.py:71-87 | the loop leaves `records` equal to the scan of 1 .. N_MAX. `count_close` and `count_qcd` are the numbers of close and window records. `qcd_hits` is the first min(10, count_qcd) window hits in scan order |
| `Scanner.ScannedLength` | nift_scanner_fair.py:76-80 | a scan of 1 .. N keeps at most N records (at most one for N = 1) |
| `Scanner.ScannedRecordsAreQualified` | nift_scanner_fair.py:76-80 | every record has 1 ≤ n ≤ N, d < DEFECT_CAP, (ratio, d) = ratio_for(n) and err = \|ratio − 1\| |
| `Scanner.ScannedIsAscending` | nift_scanner_fair.py:76-80 | records are in strictly ascending n (scan order) |
| `Scanner.ScannedIsExactlyQualifying` | nift_scanner_fair.py:76-80 | some record carries n if and only if 1 ≤ n ≤ N and defect(n) < DEFECT_CAP |
| `Scanner.ScannedHasNoDuplicates` | nift_scanner_fair.py:76-80 | no n has two records |
| `Scanner.FilterCounts` | nift_scanner_fair.py:81-84 | the counted sub-list holds each record satisfying the test with its full multiplicity, and no other record |
| `Scanner.InfiniteRatioNeverCounts` | nift_scanner_fair.py:79-83 | a record with an infinite ratio is neither a close hit nor a window hit |
| `Scanner.PreviewSnoc` | nift_scanner_fair.py:83-87 | a new window hit joins the preview exactly while fewer than 10 are held |
| `Scanner.ScanAppend` | nift_scanner_fair.py:80-87 | appending one record raises `count_close` by one exactly when it is close, raises `count_qcd` by one exactly when it is in the window, and adds it to the preview exactly when it is in the window and fewer than 10 are held |
| `Selection.SortByIsSortedPermutation` | nift_scanner_fair.py:90 | the sort underlying `nsmallest` yields a non-decreasing permutation of the records |
| `Selection.SortByIsStable` | nift_scanner_fair.py:90 | records with equal error keep their input order, which is ascending n for the scan |
| `Selection.SmallestIsSortedSubMultiset` | nift_scanner_fair.py:90 | `top_unbiased` has length min(TOP_K, \|records\|), is sorted by err, and is a sub-multiset of the records |
| `Selection.SmallestOmitsNothingSmaller` | nift_scanner_fair.py:90 | no record left out has a smaller err than any kept record |
| `Selection.SmallestHeadIsArgmin` | nift_scanner_fair.py:90-93 | the first element of a non-empty selection has the globally minimal err |
| `Selection.TakeInsert` | nift_scanner_fair.py:90 | a buffer truncated to k loses nothing: inserting into the first k and truncating gives the same result as inserting into all of them |
| `Selection.NSmallest` | nift_scanner_fair.py:90 | one pass with a bounded sorted buffer computes exactly `sorted(xs, key)[:k]`, sorted and of length min(k, \|xs\|) |
| `Selection.Best` | nift_scanner_fair.py:92-93 | the best record is absent exactly when the records (or K) are empty, which is where line 93 fails. Otherwise it is a record with minimal err |
| `Contrast.Fib` | nift_scanner_fair.py:98-102 | the i-th value taken by `a, b` is at least i + 1, so `b` grows strictly and the loop ends |
| `Contrast.FibIsStrictlyIncreasing` | nift_scanner_fair.py:100-103 | successive values of b are strictly increasing |
| `Contrast.FibTerms` | nift_scanner_fair.py:97-103 | entry i is (Fib(i+1), i+3). Every emitted term is ≤ N, and the next term exceeds N |
| `Contrast.FibListShape` | nift_scanner_fair.py:97-103 | the terms start with 2, the second is 1 + 2, and each later one is the sum of the two before. Terms increase strictly, stay ≤ N, and carry labels 3, 4, 5, … |
| `Contrast.FibListIsUnique` | nift_scanner_fair.py:97-103 | the generator's output is determined by N |
| `Contrast.FibListUpToTwenty` | nift_scanner_fair.py:97-103 | with N = 20 the output is [(2,3),(3,4),(5,5),(8,6),(13,7)], labelled F3 .. F7 |
| `Contrast.NatToString` | nift_scanner_fair.py:108 | the decimal rendering of idx is a non-empty string of digits |
| `Contrast.ParseNatToString` | nift_scanner_fair.py:108 | reading the decimal rendering back gives idx |
| `Contrast.LabelIsInjective` | nift_scanner_fair.py:108 | distinct indices get distinct `F{idx}` labels |
| `Contrast.FibRecords` | nift_scanner_fair.py:105-108 | `fib_records` is index-aligned with `fibs`. Each entry carries n, the label `F{idx}`, ratio_for(n) and err = \|ratio − 1\| |
| `FairScan.Run` | nift_scanner_fair.py:71-110 | the whole run. It is `None` exactly when the best-record query of line 93 fails (TOP_K = 0 or no record), and then nothing after line 93 is produced. Otherwise it holds the scan outputs, `top_unbiased` = nsmallest(TOP_K, records), the best record as the head of that selection, `fibs`, `fib_records`, and `top_fib` = nsmallest(min(TOP_K, \|fib_records\|), fib_records), computed from `fib_records` alone |
| `FairScan.ReferenceRunFailsOnlyWithoutRecords` | nift_scanner_fair.py:35-40 | with the reference constants (TOP_K = 25), line 93 fails exactly when no n in 1 .. 1,000,000 has its defect under the cap |

## Left out

- Console output (the banner, the constant dump and the report, lines 18-25, 46-50 and 113-123): pure I/O.
- CSV persistence (lines 126-145): file I/O and `%.12g` formatting.
- The optional plot (lines 149-172): it needs matplotlib and numpy, and is wrapped in a broad `except`.
- IEEE-754 behaviour. The model uses exact reals, so double rounding in `n*THETA_GOLD`, in `/ (2*math.pi)` and in `math.sqrt`/`math.pi` is not modelled. Neither is the reproduction of the reference best n for N_MAX = 1,000,000.
- The derivation of θ from φ (lines 28-29). θ and 2π are irrational, so they are parameters of `Config`.
- The heap algorithm inside `heapq.nsmallest`. Only its documented result, `sorted(...)[:k]`, is modelled; the bounded buffer in `NSmallest` computes that result by insertion.
- Configuration validation (K ≥ 1, cap > 0, ordered window): the source does no such checks. The only requirement the model places is period > 0, which `Defect` needs.
- `nift_ewk_core.py` (`K_of_s`, `dK_ds`, `delta_mW_from_delta_rho` and its finite-difference self-test). These are single floating-point formulas with an `isclose` guard; nift_ewk_core.py is not part of this model.
