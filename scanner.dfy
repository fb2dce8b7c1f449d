/** The unbiased scan over n = 1 .. N_MAX: the records under the defect
    cap, the closeness and window counters, and the bounded preview of
    window hits. */
module Scanner {
  import opened Base
  import opened Metric

  /** A scan record `(abs(ratio-1), n, ratio, defect)`. */
  datatype Record = Record(err: Ext, n: int, ratio: Ext, defect: real)

  /** A preview entry `(n, ratio, defect)` of the window hits. */
  datatype Hit = Hit(n: int, ratio: Ext, defect: real)

  /** The preview keeps at most this many window hits. */
  const PreviewLimit: nat := 10

  /** The record the scan builds for n. */
  function RecordFor(c: Config, n: int): (rec: Record)
    requires c.period > 0.0
  {
    var (r, d) := RatioFor(c, n);
    Record(AbsErr(r), n, r, d)
  }

  /** The sort key of the selection: `lambda x: x[0]`. */
  function RecordErr(rec: Record): Ext {
    rec.err
  }

  /** `err <= TOL_RATIO`; an infinite error never passes. */
  predicate IsClose(c: Config, rec: Record) {
    Le(rec.err, Fin(c.tolRatio))
  }

  /** `QCD_MIN <= r <= QCD_MAX`; an infinite ratio never passes. */
  predicate InWindow(c: Config, rec: Record) {
    Le(Fin(c.qcdMin), rec.ratio) && Le(rec.ratio, Fin(c.qcdMax))
  }

  function CloseTest(c: Config): Record -> bool {
    rec => IsClose(c, rec)
  }

  function WindowTest(c: Config): Record -> bool {
    rec => InWindow(c, rec)
  }

  /** The elements of s satisfying p, in order. */
  function Filter<T>(s: seq<T>, p: T -> bool): (r: seq<T>)
  {
    if s == [] then []
    else Filter(s[..|s| - 1], p) + (if p(s[|s| - 1]) then [s[|s| - 1]] else [])
  }

  /** The preview entries of a sequence of records. */
  function Hits(rs: seq<Record>): (hs: seq<Hit>)
    ensures |hs| == |rs|
    ensures forall i :: 0 <= i < |rs| ==> hs[i] == Hit(rs[i].n, rs[i].ratio, rs[i].defect)
  {
    seq(|rs|, i requires 0 <= i < |rs| => Hit(rs[i].n, rs[i].ratio, rs[i].defect))
  }

  /** The records of a scan of 1 .. upTo, in scan order. */
  function Scanned(c: Config, upTo: int): (records: seq<Record>)
    requires c.period > 0.0
    decreases upTo
  {
    if upTo < 1 then []
    else Scanned(c, upTo - 1) + (if Defect(c, upTo) < c.defectCap then [RecordFor(c, upTo)] else [])
  }

  /** A record with an infinite ratio (defect exactly zero) is neither a
      close hit nor a window hit. */
  lemma InfiniteRatioNeverCounts(c: Config, rec: Record)
    requires rec.ratio.Inf? && rec.err == AbsErr(rec.ratio)
    ensures !IsClose(c, rec) && !InWindow(c, rec)
  {
  }

  /** Filter keeps exactly the elements satisfying p, with their multiplicity. */
  lemma {:induction false} FilterCounts<T>(s: seq<T>, p: T -> bool, x: T)
    ensures multiset(Filter(s, p))[x] == if p(x) then multiset(s)[x] else 0
  {
    if s != [] {
      var init := s[..|s| - 1];
      FilterCounts(init, p, x);
      assert s == init + [s[|s| - 1]];
    }
  }

  lemma FilterSnoc<T>(s: seq<T>, x: T, p: T -> bool)
    ensures Filter(s + [x], p) == Filter(s, p) + (if p(x) then [x] else [])
  {
    assert (s + [x])[..|s|] == s;
  }

  /** Appending one window hit extends the preview while it is short. */
  lemma PreviewSnoc(rs: seq<Record>, rec: Record)
    ensures Take(PreviewLimit, Hits(rs + [rec])) ==
            if |rs| < PreviewLimit then Take(PreviewLimit, Hits(rs)) + [Hit(rec.n, rec.ratio, rec.defect)]
            else Take(PreviewLimit, Hits(rs))
  {
    assert Hits(rs + [rec]) == Hits(rs) + [Hit(rec.n, rec.ratio, rec.defect)];
  }

  /** What appending one record does to the two counters and the preview. */
  lemma ScanAppend(c: Config, rs: seq<Record>, rec: Record)
    ensures |Filter(rs + [rec], CloseTest(c))| == |Filter(rs, CloseTest(c))| + (if IsClose(c, rec) then 1 else 0)
    ensures |Filter(rs + [rec], WindowTest(c))| == |Filter(rs, WindowTest(c))| + (if InWindow(c, rec) then 1 else 0)
    ensures Take(PreviewLimit, Hits(Filter(rs + [rec], WindowTest(c)))) ==
            var preview := Take(PreviewLimit, Hits(Filter(rs, WindowTest(c))));
            if InWindow(c, rec) && |preview| < PreviewLimit then preview + [Hit(rec.n, rec.ratio, rec.defect)]
            else preview
  {
    FilterSnoc(rs, rec, CloseTest(c));
    FilterSnoc(rs, rec, WindowTest(c));
    PreviewSnoc(Filter(rs, WindowTest(c)), rec);
  }

  /** A scan of 1 .. upTo keeps at most upTo records. */
  lemma {:induction false} ScannedLength(c: Config, upTo: int)
    requires c.period > 0.0
    ensures |Scanned(c, upTo)| <= if upTo < 0 then 0 else upTo
  {
    if upTo >= 1 {
      ScannedLength(c, upTo - 1);
    }
  }

  /** Every scanned record is the record of its n, for an n in 1 .. upTo
      whose defect is under the cap. */
  lemma {:induction false} ScannedRecordsAreQualified(c: Config, upTo: int)
    requires c.period > 0.0
    ensures forall i :: 0 <= i < |Scanned(c, upTo)| ==>
              var rec := Scanned(c, upTo)[i];
              && 1 <= rec.n <= upTo
              && rec.defect < c.defectCap
              && (rec.ratio, rec.defect) == RatioFor(c, rec.n)
              && rec.err == AbsErr(rec.ratio)
  {
    if upTo >= 1 {
      ScannedRecordsAreQualified(c, upTo - 1);
    }
  }

  /** Records appear in strictly ascending n. */
  lemma {:induction false} ScannedIsAscending(c: Config, upTo: int)
    requires c.period > 0.0
    ensures forall i, j :: 0 <= i < j < |Scanned(c, upTo)| ==> Scanned(c, upTo)[i].n < Scanned(c, upTo)[j].n
  {
    if upTo >= 1 {
      ScannedIsAscending(c, upTo - 1);
      ScannedRecordsAreQualified(c, upTo - 1);
    }
  }

  /** Every n in 1 .. upTo whose defect is under the cap has a record. */
  lemma {:induction false} ScannedIsComplete(c: Config, upTo: int, n: int)
    requires c.period > 0.0
    requires 1 <= n <= upTo && Defect(c, n) < c.defectCap
    ensures exists i :: 0 <= i < |Scanned(c, upTo)| && Scanned(c, upTo)[i].n == n
  {
    var rs := Scanned(c, upTo);
    if n == upTo {
      assert rs[|rs| - 1].n == n;
    } else {
      ScannedIsComplete(c, upTo - 1, n);
      var i :| 0 <= i < |Scanned(c, upTo - 1)| && Scanned(c, upTo - 1)[i].n == n;
      assert rs[i] == Scanned(c, upTo - 1)[i];
    }
  }

  /** Some record of the scan carries n exactly when n qualifies. */
  lemma ScannedIsExactlyQualifying(c: Config, upTo: int, n: int)
    requires c.period > 0.0
    ensures (exists i :: 0 <= i < |Scanned(c, upTo)| && Scanned(c, upTo)[i].n == n)
            <==> 1 <= n <= upTo && Defect(c, n) < c.defectCap
  {
    ScannedRecordsAreQualified(c, upTo);
    if 1 <= n <= upTo && Defect(c, n) < c.defectCap {
      ScannedIsComplete(c, upTo, n);
    }
  }

  /** No n has two records. */
  lemma ScannedHasNoDuplicates(c: Config, upTo: int, i: nat, j: nat)
    requires c.period > 0.0
    requires i < |Scanned(c, upTo)| && j < |Scanned(c, upTo)|
    requires Scanned(c, upTo)[i].n == Scanned(c, upTo)[j].n
    ensures i == j
  {
    ScannedIsAscending(c, upTo);
  }

  /** The unbiased scan (the loop over n = 1 .. N_MAX). */
  method Scan(c: Config) returns (records: seq<Record>, countClose: nat, countQcd: nat, qcdHits: seq<Hit>)
    requires c.period > 0.0
    ensures records == Scanned(c, c.nMax)
    ensures countClose == |Filter(records, CloseTest(c))|
    ensures countQcd == |Filter(records, WindowTest(c))|
    ensures qcdHits == Take(PreviewLimit, Hits(Filter(records, WindowTest(c))))
    ensures |qcdHits| == Min(PreviewLimit, countQcd)
  {
    records, countClose, countQcd, qcdHits := [], 0, 0, [];
    var n := 1;
    while n <= c.nMax
      invariant 1 <= n && (n <= c.nMax + 1 || n == 1)
      invariant records == Scanned(c, n - 1)
      invariant countClose == |Filter(records, CloseTest(c))|
      invariant countQcd == |Filter(records, WindowTest(c))|
      invariant qcdHits == Take(PreviewLimit, Hits(Filter(records, WindowTest(c))))
    {
      var (r, d) := RatioFor(c, n);
      if d < c.defectCap {
        var err := AbsErr(r);
        var rec := Record(err, n, r, d);
        assert rec == RecordFor(c, n);
        ScanAppend(c, records, rec);
        records := records + [rec];
        if IsClose(c, rec) {
          countClose := countClose + 1;
        }
        if InWindow(c, rec) {
          countQcd := countQcd + 1;
          if |qcdHits| < PreviewLimit {
            qcdHits := qcdHits + [Hit(n, r, d)];
          }
        }
      }
      n := n + 1;
    }
  }
}
