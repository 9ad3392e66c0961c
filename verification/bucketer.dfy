/** The four-band risk classifier applied to a similarity percentage. */
module Bucketer {

  /** Risk categories in ascending order of risk. */
  datatype Bucket = Safe | Buffer | Warning | HighRisk

  /** Position of a bucket in the ascending risk order. */
  function Rank(b: Bucket): nat {
    match b
    case Safe => 0
    case Buffer => 1
    case Warning => 2
    case HighRisk => 3
  }

  /** The string written to the CSV files. */
  function Label(b: Bucket): string {
    match b
    case Safe => "Safe"
    case Buffer => "Buffer"
    case Warning => "Warning"
    case HighRisk => "High-Risk"
  }

  /** Lower bound (inclusive) of each band; `Safe` has none. */
  const BufferFrom: real := 50.0
  const WarningFrom: real := 70.0
  const HighRiskFrom: real := 85.0

  /** The band of `p`. The input is not clamped: negative values are Safe and values above
      100 are High-Risk. */
  function BucketFromP(p: real): (b: Bucket)
    ensures b == Safe <==> p < BufferFrom
    ensures b == Buffer <==> BufferFrom <= p < WarningFrom
    ensures b == Warning <==> WarningFrom <= p < HighRiskFrom
    ensures b == HighRisk <==> HighRiskFrom <= p
  {
    if p < 50.0 then Safe
    else if p < 70.0 then Buffer
    else if p < 85.0 then Warning
    else HighRisk
  }

  /** A higher percentage never lands in a lower-risk bucket. */
  lemma Monotone(p: real, q: real)
    requires p <= q
    ensures Rank(BucketFromP(p)) <= Rank(BucketFromP(q))
  {
  }

  /** The label of a percentage is one of exactly four strings, and distinct buckets have
      distinct labels. */
  lemma LabelsDistinct(p: real, q: real)
    ensures Label(BucketFromP(p)) in {"Safe", "Buffer", "Warning", "High-Risk"}
    ensures BucketFromP(p) != BucketFromP(q) ==> Label(BucketFromP(p)) != Label(BucketFromP(q))
  {
  }

  /** Boundary values of the unit tests: each lower bound is inclusive. */
  lemma Boundaries()
    ensures BucketFromP(0.0) == Safe && BucketFromP(49.9) == Safe
    ensures BucketFromP(50.0) == Buffer && BucketFromP(69.9) == Buffer
    ensures BucketFromP(70.0) == Warning && BucketFromP(84.9) == Warning
    ensures BucketFromP(85.0) == HighRisk
    ensures BucketFromP(-12.5) == Safe && BucketFromP(140.0) == HighRisk
  {
  }
}
