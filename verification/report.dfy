/** The text report over the merged table: the bucket distribution with its total, and
    the first and last `k` rows by mean, highest first. */
module Report {
  import opened Wrappers
  import opened Sorting
  import Merge

  /** A row of the merged CSV as read back: an empty `bucket_mean` cell reads as missing. */
  datatype ReportRow = ReportRow(filename: string, pMean: Option<real>, bucketMean: Option<string>)

  datatype ReportError = NoPMeanColumn

  /** One row of the bucket counts: a bucket value (missing included) and how often it occurs. */
  datatype Count = Count(bucket: Option<string>, n: nat)

  /** A line of the distribution section. */
  datatype DistLine = BucketLine(name: string, count: nat) | NoData

  datatype Summary = Summary(total: nat, lines: seq<DistLine>, top: seq<ReportRow>, bottom: seq<ReportRow>)

  /** The row the report reads for a merged row: the merger writes "" for a missing bucket,
      which reads back as a missing value. */
  function FromMerged(m: Merge.MergedRow): ReportRow {
    ReportRow(m.filename, m.pMean, if m.bucketMean == "" then None else Some(m.bucketMean))
  }

  /** For rows the merger produced, a blank bucket means exactly that the row has no mean. */
  lemma BlankBucketIffNoMean(m: Merge.MergedRow)
    requires m.bucketMean == Merge.BucketMean(m.pMean)
    ensures FromMerged(m).bucketMean.None? <==> FromMerged(m).pMean.None?
  {
  }

  // ---------- bucket counts ----------

  /** How many rows carry bucket `b`. */
  function Occurrences(rows: seq<ReportRow>, b: Option<string>): nat {
    if |rows| == 0 then 0
    else Occurrences(rows[..|rows| - 1], b) + (if rows[|rows| - 1].bucketMean == b then 1 else 0)
  }

  /** The bucket values the rows carry, a missing one included. */
  function Buckets(rows: seq<ReportRow>): set<Option<string>> {
    set i | 0 <= i < |rows| :: rows[i].bucketMean
  }

  function Total(h: seq<Count>): nat {
    if |h| == 0 then 0 else h[0].n + Total(h[1..])
  }

  function Keys(h: seq<Count>): set<Option<string>> {
    set i | 0 <= i < |h| :: h[i].bucket
  }

  predicate DistinctKeys(h: seq<Count>) {
    forall i, j :: 0 <= i < j < |h| ==> h[i].bucket != h[j].bucket
  }

  /** The count recorded for `b`, 0 when it has none. */
  function CountFor(h: seq<Count>, b: Option<string>): nat {
    if |h| == 0 then 0 else if h[0].bucket == b then h[0].n else CountFor(h[1..], b)
  }

  lemma KeysCons(c: Count, t: seq<Count>)
    ensures Keys([c] + t) == {c.bucket} + Keys(t)
  {
    var r := [c] + t;
    forall k | k in Keys(r) ensures k in {c.bucket} + Keys(t) {
      var i :| 0 <= i < |r| && r[i].bucket == k;
      if i > 0 {
        assert r[i] == t[i - 1];
        assert t[i - 1].bucket in Keys(t);
      }
    }
    forall k | k in Keys(t) ensures k in Keys(r) {
      var i :| 0 <= i < |t| && t[i].bucket == k;
      assert r[i + 1] == t[i];
      assert r[i + 1].bucket in Keys(r);
    }
    assert r[0].bucket in Keys(r);
  }

  /** Record one more occurrence of `b`. */
  function Tally(h: seq<Count>, b: Option<string>): (r: seq<Count>)
    ensures Total(r) == Total(h) + 1
    ensures Keys(r) == Keys(h) + {b}
    ensures DistinctKeys(h) ==> DistinctKeys(r)
    ensures forall k :: CountFor(r, k) == CountFor(h, k) + (if k == b then 1 else 0)
  {
    if |h| == 0 then
      assert Keys([Count(b, 1)]) == {b} by {
        assert [Count(b, 1)][0].bucket == b;
      }
      [Count(b, 1)]
    else if h[0].bucket == b then
      TallyHit(h, b);
      [Count(b, h[0].n + 1)] + h[1..]
    else
      var rest := Tally(h[1..], b);
      TallyMiss(h, b, rest);
      [h[0]] + rest
  }

  /** Bumping the first entry's count when it holds `b`. */
  lemma TallyHit(h: seq<Count>, b: Option<string>)
    requires |h| > 0 && h[0].bucket == b
    ensures var r := [Count(b, h[0].n + 1)] + h[1..];
            Total(r) == Total(h) + 1 && Keys(r) == Keys(h) + {b}
            && (DistinctKeys(h) ==> DistinctKeys(r))
            && forall k :: CountFor(r, k) == CountFor(h, k) + (if k == b then 1 else 0)
  {
    var r := [Count(b, h[0].n + 1)] + h[1..];
    assert r[1..] == h[1..];
    assert Keys(r) == Keys(h) by {
      forall k | k in Keys(h) ensures k in Keys(r) {
        var i :| 0 <= i < |h| && h[i].bucket == k;
        assert r[i].bucket == k;
      }
      forall k | k in Keys(r) ensures k in Keys(h) {
        var i :| 0 <= i < |r| && r[i].bucket == k;
        assert h[i].bucket == k;
      }
    }
    assert DistinctKeys(h) ==> DistinctKeys(r) by {
      forall i, j | 0 <= i < j < |r| && DistinctKeys(h) ensures r[i].bucket != r[j].bucket {
        assert r[i].bucket == h[i].bucket && r[j].bucket == h[j].bucket;
      }
    }
  }

  /** Keeping a first entry that does not hold `b` in front of the tallied rest. */
  lemma TallyMiss(h: seq<Count>, b: Option<string>, rest: seq<Count>)
    requires |h| > 0 && h[0].bucket != b
    requires Total(rest) == Total(h[1..]) + 1
    requires Keys(rest) == Keys(h[1..]) + {b}
    requires DistinctKeys(h[1..]) ==> DistinctKeys(rest)
    requires forall k :: CountFor(rest, k) == CountFor(h[1..], k) + (if k == b then 1 else 0)
    ensures var r := [h[0]] + rest;
            Total(r) == Total(h) + 1 && Keys(r) == Keys(h) + {b}
            && (DistinctKeys(h) ==> DistinctKeys(r))
            && forall k :: CountFor(r, k) == CountFor(h, k) + (if k == b then 1 else 0)
  {
    var r := [h[0]] + rest;
    assert r[1..] == rest;
    KeysCons(h[0], rest);
    KeysCons(h[0], h[1..]);
    assert [h[0]] + h[1..] == h;
    if DistinctKeys(h) {
      TallyMissDistinct(h, rest);
    }
  }

  lemma TallyMissDistinct(h: seq<Count>, rest: seq<Count>)
    requires |h| > 0 && DistinctKeys(h)
    requires DistinctKeys(h[1..]) ==> DistinctKeys(rest)
    requires h[0].bucket !in Keys(rest) - Keys(h[1..])
    ensures DistinctKeys([h[0]] + rest)
  {
    var r := [h[0]] + rest;
    assert h[0].bucket !in Keys(h[1..]) by {
      forall i | 0 <= i < |h| - 1 ensures h[1..][i].bucket != h[0].bucket {
        assert h[1..][i] == h[i + 1];
      }
    }
    assert DistinctKeys(h[1..]) by {
      forall i, j | 0 <= i < j < |h| - 1 ensures h[1..][i].bucket != h[1..][j].bucket {
        assert h[1..][i] == h[i + 1] && h[1..][j] == h[j + 1];
      }
    }
    forall i, j | 0 <= i < j < |r| ensures r[i].bucket != r[j].bucket {
      if i == 0 {
        assert r[j] == rest[j - 1];
        assert rest[j - 1].bucket in Keys(rest);
      } else {
        assert r[i] == rest[i - 1] && r[j] == rest[j - 1];
      }
    }
  }

  /** `value_counts(dropna=False)` before its ordering: one entry per distinct bucket value
      (a missing value included), in order of first occurrence. */
  function Histogram(rows: seq<ReportRow>): (h: seq<Count>)
    ensures DistinctKeys(h)
    ensures Total(h) == |rows|
    ensures Keys(h) == Buckets(rows)
    ensures forall b :: CountFor(h, b) == Occurrences(rows, b)
  {
    if |rows| == 0 then []
    else
      var init := rows[..|rows| - 1];
      var h := Tally(Histogram(init), rows[|rows| - 1].bucketMean);
      BucketsSnoc(rows);
      h
  }

  /** The buckets of a table are those of all but its last row and that row's. */
  lemma BucketsSnoc(rows: seq<ReportRow>)
    requires |rows| > 0
    ensures Buckets(rows) == Buckets(rows[..|rows| - 1]) + {rows[|rows| - 1].bucketMean}
  {
    var init := rows[..|rows| - 1];
    forall b | b in Buckets(rows) ensures b in Buckets(init) + {rows[|rows| - 1].bucketMean} {
      var i :| 0 <= i < |rows| && rows[i].bucketMean == b;
      if i < |init| {
        assert init[i] == rows[i];
        assert init[i].bucketMean in Buckets(init);
      }
    }
    forall b | b in Buckets(init) ensures b in Buckets(rows) {
      var i :| 0 <= i < |init| && init[i].bucketMean == b;
      assert rows[i] == init[i];
      assert rows[i].bucketMean in Buckets(rows);
    }
    assert rows[|rows| - 1].bucketMean in Buckets(rows);
  }

  /** The count recorded in an entry is the one `CountFor` finds for its key. */
  lemma {:induction false} CountForEntry(h: seq<Count>, i: int)
    requires DistinctKeys(h) && 0 <= i < |h|
    ensures CountFor(h, h[i].bucket) == h[i].n
  {
    if i > 0 {
      assert h[1..][i - 1] == h[i];
      CountForEntry(h[1..], i - 1);
    }
  }

  /** Every entry of the counts is the number of rows carrying its bucket, and the counts
      add up to the number of rows. */
  lemma HistogramCounts(rows: seq<ReportRow>, i: int)
    requires 0 <= i < |Histogram(rows)|
    ensures Histogram(rows)[i].n == Occurrences(rows, Histogram(rows)[i].bucket)
    ensures Total(Histogram(rows)) == |rows|
  {
    CountForEntry(Histogram(rows), i);
  }

  // ---------- the summary ----------

  /** A bucket's label in the distribution; a missing bucket is shown as "(blank)". */
  function LabelOf(b: Option<string>): string {
    match b
    case Some(s) => s
    case None => "(blank)"
  }

  /** One line per bucket, or the single "(no data)" line when the total is 0. */
  function Distribution(h: seq<Count>): (lines: seq<DistLine>)
    ensures Total(h) == 0 ==> lines == [NoData]
    ensures Total(h) > 0 ==> |lines| == |h|
                             && forall i :: 0 <= i < |h| ==> lines[i] == BucketLine(LabelOf(h[i].bucket), h[i].n)
  {
    if Total(h) == 0 then [NoData]
    else seq(|h|, i requires 0 <= i < |h| => BucketLine(LabelOf(h[i].bucket), h[i].n))
  }

  /** `max(1, topk)`. */
  function EffectiveK(topk: int): (k: nat)
    ensures k >= 1 && k >= topk
    ensures k == 1 || k == topk
  {
    if topk >= 1 then topk else 1
  }

  /** `head(k)`: the first `k` rows, or all of them. */
  function Head<T>(s: seq<T>, k: nat): (r: seq<T>)
    ensures |r| == if k < |s| then k else |s|
    ensures forall i :: 0 <= i < |r| ==> r[i] == s[i]
  {
    if k < |s| then s[..k] else s
  }

  /** `tail(k)`: the last `k` rows, or all of them. */
  function Tail<T>(s: seq<T>, k: nat): (r: seq<T>)
    ensures |r| == if k < |s| then k else |s|
    ensures forall i :: 0 <= i < |r| ==> r[i] == s[|s| - |r| + i]
  {
    if k < |s| then s[|s| - k..] else s
  }

  /** `sort_values("p_mean", ascending=False)`, missing means last. */
  predicate ByMeanDesc(a: ReportRow, b: ReportRow) {
    Merge.MeanFirst(a.pMean, b.pMean)
  }

  lemma ByMeanDescPreorder()
    ensures TotalPreorder(ByMeanDesc)
  {
    Merge.MeanFirstPreorder();
  }

  /** The report: stop when the table has no `p_mean` column; otherwise the bucket counts
      over all rows and the first and last `max(1, topk)` rows of the sorted table. The
      order of the distribution lines (by count, as `value_counts` orders them) is not
      modelled. */
  function MakeReport(hasPMean: bool, rows: seq<ReportRow>, topk: int): (r: Result<Summary, ReportError>)
    ensures r.Err? <==> !hasPMean
    ensures r.Ok? ==> r.value.total == |rows|
    ensures r.Ok? ==> (r.value.lines == [NoData] <==> |rows| == 0)
    ensures r.Ok? ==> Sorted(r.value.top, ByMeanDesc) && Sorted(r.value.bottom, ByMeanDesc)
    ensures r.Ok? ==> exists s :: multiset(s) == multiset(rows) && Sorted(s, ByMeanDesc)
                                  && r.value.top == Head(s, EffectiveK(topk))
                                  && r.value.bottom == Tail(s, EffectiveK(topk))
    ensures r.Ok? ==> r.value.lines == Distribution(Histogram(rows))
  {
    if !hasPMean then Err(NoPMeanColumn)
    else
      var sorted := Sort(rows, ByMeanDesc);
      ByMeanDescPreorder();
      SortSorted(rows, ByMeanDesc);
      var h := Histogram(rows);
      var k := EffectiveK(topk);
      assert |rows| > 0 ==> |h| > 0 by {
        if |rows| > 0 {
          assert rows[0].bucketMean in Buckets(rows);
          assert h[0] in h;
        }
      }
      assert multiset(sorted) == multiset(rows) && Sorted(sorted, ByMeanDesc);
      Ok(Summary(Total(h), Distribution(h), Head(sorted, k), Tail(sorted, k)))
  }

  /** With at most `k` rows, the top and bottom slices are both the whole sorted table;
      with more, each holds exactly `k` rows. */
  lemma SlicesOfSmallTable(rows: seq<ReportRow>, topk: int)
    ensures var r := MakeReport(true, rows, topk).value;
            var sorted := Sort(rows, ByMeanDesc);
            if |rows| <= EffectiveK(topk) then r.top == sorted && r.bottom == sorted
            else |r.top| == EffectiveK(topk) && |r.bottom| == EffectiveK(topk)
  {
  }

  /** The top slice starts the sorted table and the bottom slice ends it, so every row in the
      top slice has a mean at least as high as every row in the bottom slice that comes after
      it in the sorted table. */
  lemma TopBeforeBottom(rows: seq<ReportRow>, topk: int, i: int, j: int)
    requires 0 <= i < |MakeReport(true, rows, topk).value.top|
    requires 0 <= j < |MakeReport(true, rows, topk).value.bottom|
    requires i < |rows| - |MakeReport(true, rows, topk).value.bottom| + j
    ensures ByMeanDesc(MakeReport(true, rows, topk).value.top[i], MakeReport(true, rows, topk).value.bottom[j])
  {
    ByMeanDescPreorder();
    SortSorted(rows, ByMeanDesc);
  }

  /** Every bucket value the rows carry, a missing one as "(blank)", has a line with the
      number of rows carrying it. */
  lemma EveryBucketListed(rows: seq<ReportRow>, topk: int, b: Option<string>)
    requires b in Buckets(rows)
    ensures exists i :: 0 <= i < |MakeReport(true, rows, topk).value.lines|
                        && MakeReport(true, rows, topk).value.lines[i] == BucketLine(LabelOf(b), Occurrences(rows, b))
  {
    var h := Histogram(rows);
    assert b in Keys(h);
    var i :| 0 <= i < |h| && h[i].bucket == b;
    CountForEntry(h, i);
    assert |rows| > 0;
    assert MakeReport(true, rows, topk).value.lines[i] == BucketLine(LabelOf(b), Occurrences(rows, b));
  }

  /** Every line names a bucket value the rows carry, with the number of rows carrying it. */
  lemma OnlyBucketsListed(rows: seq<ReportRow>, topk: int, i: int)
    requires 0 <= i < |Histogram(rows)|
    ensures 0 <= i < |MakeReport(true, rows, topk).value.lines|
    ensures exists b :: b in Buckets(rows)
                        && MakeReport(true, rows, topk).value.lines[i] == BucketLine(LabelOf(b), Occurrences(rows, b))
  {
    var h := Histogram(rows);
    assert h[i].bucket in Keys(h);
    CountForEntry(h, i);
  }

  /** There are exactly as many lines as bucket values, so with `EveryBucketListed` and
      `OnlyBucketsListed` each bucket value has one line. */
  lemma BucketsListedOnce(rows: seq<ReportRow>, topk: int)
    requires |rows| > 0
    ensures |MakeReport(true, rows, topk).value.lines| == |Buckets(rows)|
  {
    DistinctKeysCard(Histogram(rows));
  }

  /** Distinct keys: as many keys as entries. */
  lemma {:induction false} DistinctKeysCard(h: seq<Count>)
    requires DistinctKeys(h)
    ensures |Keys(h)| == |h|
  {
    if |h| > 0 {
      var t := h[1..];
      assert [h[0]] + t == h;
      KeysCons(h[0], t);
      assert DistinctKeys(t) by {
        forall i, j | 0 <= i < j < |t| ensures t[i].bucket != t[j].bucket {
          assert t[i] == h[i + 1] && t[j] == h[j + 1];
        }
      }
      DistinctKeysCard(t);
      assert h[0].bucket !in Keys(t) by {
        forall i | 0 <= i < |t| ensures t[i].bucket != h[0].bucket {
          assert t[i] == h[i + 1];
        }
      }
    }
  }
}
