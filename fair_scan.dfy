/** One run of the fair scanner: the unbiased scan and its top-K ranking
    with the best record, then the Fibonacci contrast and its own ranking. */
module FairScan {
  import opened Base
  import opened Metric
  import opened Selection
  import opened Scanner
  import opened Contrast

  /** Everything the run hands to its report and CSV writers. */
  datatype Report = Report(
    records: seq<Record>,
    countClose: nat,
    countQcd: nat,
    qcdHits: seq<Hit>,
    topUnbiased: seq<Record>,
    best: Record,
    fibs: seq<(nat, nat)>,
    fibRecords: seq<TaggedRecord>,
    topFib: seq<TaggedRecord>
  )

  /** The whole run. It is None where `top_unbiased[0]` raises IndexError:
      the run stops there, so the contrast path and the report never happen. */
  method Run(c: Config) returns (rep: Option<Report>)
    requires c.period > 0.0
    ensures rep.None? <==> Best(c.topK, Scanned(c, c.nMax), RecordErr).None?
    ensures rep.None? <==> (c.topK == 0 || Scanned(c, c.nMax) == [])
    ensures rep.Some? ==>
              var r := rep.value;
              && r.records == Scanned(c, c.nMax)
              && r.countClose == |Filter(r.records, CloseTest(c))|
              && r.countQcd == |Filter(r.records, WindowTest(c))|
              && r.qcdHits == Take(PreviewLimit, Hits(Filter(r.records, WindowTest(c))))
              && r.topUnbiased == Smallest(c.topK, r.records, RecordErr)
              && Some(r.best) == Best(c.topK, r.records, RecordErr)
              && IsFibList(c.nMax, r.fibs)
              && |r.fibRecords| == |r.fibs|
              && (forall i :: 0 <= i < |r.fibs| ==>
                    && r.fibRecords[i].n == r.fibs[i].0
                    && r.fibRecords[i].layer == Label(r.fibs[i].1)
                    && (r.fibRecords[i].ratio, r.fibRecords[i].defect) == RatioFor(c, r.fibs[i].0)
                    && r.fibRecords[i].err == AbsErr(r.fibRecords[i].ratio))
              && r.topFib == Smallest(Min(c.topK, |r.fibRecords|), r.fibRecords, TaggedErr)
  {
    var records, countClose, countQcd, qcdHits := Scan(c);
    var topUnbiased := NSmallest(c.topK, records, RecordErr);
    if topUnbiased == [] {
      return None;
    }
    var best := topUnbiased[0];

    var fibs := FibTerms(c.nMax);
    var fibRecords := FibRecords(c, fibs);
    var topFib := NSmallest(Min(c.topK, |fibRecords|), fibRecords, TaggedErr);

    rep := Some(Report(records, countClose, countQcd, qcdHits, topUnbiased, best, fibs, fibRecords, topFib));
  }

  /** With the reference constants (TOP_K = 25) the run stops at the
      best-record query exactly when no n in 1 .. 1,000,000 has its defect
      under the cap. */
  lemma ReferenceRunFailsOnlyWithoutRecords(theta: real, period: real)
    requires period > 0.0
    ensures var c := ReferenceConfig(theta, period);
            Best(c.topK, Scanned(c, c.nMax), RecordErr).None? <==> Scanned(c, c.nMax) == []
  {
  }
}
