/** The four per-engine comparison scripts (FaceNet, DeepFace/ArcFace, AWS Rekognition,
    Face++). Each is one pass over the sorted directory listing: every eligible image is
    scored against the source, images whose scoring raised are skipped, and the rows are
    sorted by their rounded percentage, highest first.

    The engines themselves (model inference, remote calls) are parameters: a function from a
    target's name to what the engine reported, `None` when the call raised. */
module CompareRunner {
  import opened Wrappers
  import opened Text
  import opened Sorting
  import opened Bucketer
  import opened Rounding
  import FilenameCleaner

  /** One `folder.iterdir()` entry: its name and whether it is a regular file. */
  datatype Entry = Entry(name: string, isFile: bool)

  /** What an engine reports for one target: the raw cosine (embedding engines only) and
      the similarity percentage. */
  datatype Reading = Reading(cosine: Option<real>, percent: real)

  /** One output CSV row; `cosine` is `None` where the CSV cell is left empty. */
  datatype Row = Row(filename: string, cosine: Option<real>, p: real, bucket: Bucket)

  /** Why a run stops before any row is written. */
  datatype Error =
    | MissingCredentials  // Face++ key or secret is empty
    | SourceNotFound      // `folder / source` does not exist
    | SourceFailed        // embedding or reading the source raised

  // ---------- target selection ----------

  /** `Path.suffix`: the name from its last '.' on, unless that dot is the first or the
      last character. */
  function Suffix(name: string): (s: string)
    ensures |s| <= |name| && s == name[|name| - |s|..]
    ensures s != [] ==> 2 <= |s| < |name| && s[0] == '.'
    ensures forall j :: 0 < j < |s| ==> s[j] != '.'
    ensures s == [] <==> |name| == 0 || name[|name| - 1] == '.'
                         || forall i :: 0 < i < |name| ==> name[i] != '.'
  {
    var i := RFind(name, '.');
    if 0 < i < |name| - 1 then name[i..] else ""
  }

  /** The five image extensions every runner accepts. */
  const ImageExts: set<string> := {".jpg", ".jpeg", ".png", ".bmp", ".webp"}

  /** A regular file other than the source whose suffix, lower-cased, is an image extension. */
  predicate Eligible(e: Entry, source: string) {
    e.isFile && e.name != source && Lower(Suffix(e.name)) in ImageExts
  }

  lemma SuffixExamples()
    ensures Suffix("a.JPG") == ".JPG"
    ensures Suffix("archive.tar.png") == ".png"
    ensures Suffix(".png") == ""
    ensures Suffix("x.png.") == ""
    ensures Suffix("noext") == ""
  {
    RFindAt("a.JPG", '.', 1);
    RFindAt("archive.tar.png", '.', 11);
    RFindAt(".png", '.', 0);
    RFindAt("x.png.", '.', 5);
  }

  /** Upper-case extensions qualify. */
  lemma UpperCaseExtensionEligible(source: string)
    requires source == "src.jpg"
    ensures Eligible(Entry("a.JPG", true), source)
  {
    RFindAt("a.JPG", '.', 1);
    assert Suffix("a.JPG") == ".JPG";
    assert Lower(".JPG") == ".jpg";
  }

  /** The source itself, directories and a hidden file named like an extension do not
      qualify. */
  lemma IneligibleExamples(source: string)
    requires source == "src.jpg"
    ensures !Eligible(Entry("src.jpg", true), source)
    ensures !Eligible(Entry("dir.png", false), source)
    ensures !Eligible(Entry(".png", true), source)
  {
    RFindAt(".png", '.', 0);
    assert Suffix(".png") == "";
    assert Lower("") == "";
  }

  /** A file whose extension is not an image extension does not qualify. */
  lemma OtherExtensionIneligible(source: string)
    requires source == "src.jpg"
    ensures !Eligible(Entry("notes.txt", true), source)
  {
    RFindAt("notes.txt", '.', 5);
    assert Suffix("notes.txt") == ".txt";
    assert Lower(".txt") == ".txt";
  }

  /** `sorted(folder.iterdir())`: all entries share the folder, so paths compare by name. */
  predicate ByName(a: Entry, b: Entry) {
    LexLe(a.name, b.name)
  }

  lemma ByNamePreorder()
    ensures TotalPreorder(ByName)
  {
    forall a: Entry, b: Entry
      ensures ByName(a, b) || ByName(b, a)
    {
      LexLeTotal(a.name, b.name);
    }
    forall a: Entry, b: Entry, c: Entry | ByName(a, b) && ByName(b, c)
      ensures ByName(a, c)
    {
      LexLeTransitive(a.name, b.name, c.name);
    }
  }

  /** The directory listing in the order the loop visits it. */
  function Listing(entries: seq<Entry>): (l: seq<Entry>)
    ensures multiset(l) == multiset(entries)
    ensures Sorted(l, ByName)
  {
    ByNamePreorder();
    SortSorted(entries, ByName);
    Sort(entries, ByName)
  }

  // ---------- the loop ----------

  /** The row appended for a target: cleaned name, cosine rounded to 3 decimals, percentage
      rounded to 1 decimal, and the bucket of the unrounded percentage. */
  function RowOf(name: string, rd: Reading): Row {
    var cosine := match rd.cosine
      case Some(c) => Some(Round3(c))
      case None => None;
    Row(FilenameCleaner.Clean(name), cosine, Round1(rd.percent), BucketFromP(rd.percent))
  }

  /** A target that produces a row: eligible, and its scoring did not raise. */
  predicate Kept(e: Entry, source: string, measure: string -> Option<Reading>) {
    Eligible(e, source) && measure(e.name).Some?
  }

  function KeptBy(source: string, measure: string -> Option<Reading>): Entry -> bool {
    e => Kept(e, source, measure)
  }

  function EligibleFor(source: string): Entry -> bool {
    e => Eligible(e, source)
  }

  /** The rows one target contributes: its row when it is kept, none otherwise. */
  function RowsFor(e: Entry, source: string, measure: string -> Option<Reading>): (rows: seq<Row>)
    ensures |rows| <= 1
  {
    if Kept(e, source, measure) then [RowOf(e.name, measure(e.name).value)] else []
  }

  /** The rows the loop appends, in visiting order, one per kept target. */
  function Collect(es: seq<Entry>, source: string, measure: string -> Option<Reading>): (rows: seq<Row>)
    ensures |rows| <= |es|
  {
    if |es| == 0 then []
    else RowsFor(es[0], source, measure) + Collect(es[1..], source, measure)
  }

  /** One row per kept target. */
  lemma {:induction false} CollectCount(es: seq<Entry>, source: string, measure: string -> Option<Reading>)
    ensures |Collect(es, source, measure)| == |Filter(es, KeptBy(source, measure))|
  {
    if |es| > 0 {
      CollectCount(es[1..], source, measure);
    }
  }

  lemma {:induction false} CollectAppend(a: seq<Entry>, b: seq<Entry>, source: string,
                                         measure: string -> Option<Reading>)
    ensures Collect(a + b, source, measure) == Collect(a, source, measure) + Collect(b, source, measure)
  {
    if |a| > 0 {
      var ab := a + b;
      assert ab[0] == a[0] && ab[1..] == a[1..] + b;
      CollectAppend(a[1..], b, source, measure);
      var head := RowsFor(a[0], source, measure);
      assert Collect(ab, source, measure) == head + (Collect(a[1..], source, measure) + Collect(b, source, measure));
      AppendAssoc(head, Collect(a[1..], source, measure), Collect(b, source, measure));
    } else {
      assert a + b == b;
    }
  }

  lemma TakeSnoc<T>(s: seq<T>, i: int)
    requires 0 <= i < |s|
    ensures s[..i + 1] == s[..i] + [s[i]]
  {
  }

  lemma IndexAfter<T>(x: seq<T>, y: seq<T>, i: int)
    requires |x| <= i < |x| + |y|
    ensures (x + y)[i] == y[i - |x|]
  {
  }

  lemma AppendAssoc<T>(x: seq<T>, y: seq<T>, z: seq<T>)
    ensures x + (y + z) == (x + y) + z
  {
  }

  /** One more target adds its row at the end when it is kept, and nothing otherwise. */
  lemma CollectSnoc(es: seq<Entry>, e: Entry, source: string, measure: string -> Option<Reading>)
    ensures Collect(es + [e], source, measure) == Collect(es, source, measure) + RowsFor(e, source, measure)
  {
    CollectAppend(es, [e], source, measure);
    assert Collect([e], source, measure) == RowsFor(e, source, measure) + [] by {
      assert [e][1..] == [];
    }
  }

  /** A target that is ineligible or whose scoring raised leaves no row, and the targets
      after it are processed exactly as if it were absent. */
  lemma SkippedTargetLeavesNoRow(a: seq<Entry>, e: Entry, b: seq<Entry>, source: string,
                                 measure: string -> Option<Reading>)
    requires !Kept(e, source, measure)
    ensures Collect(a + [e] + b, source, measure) == Collect(a, source, measure) + Collect(b, source, measure)
  {
    var front := Collect(a, source, measure);
    calc {
      Collect(a + [e] + b, source, measure);
      { CollectAppend(a + [e], b, source, measure); }
      Collect(a + [e], source, measure) + Collect(b, source, measure);
      { CollectSnoc(a, e, source, measure); }
      front + RowsFor(e, source, measure) + Collect(b, source, measure);
      { assert front + RowsFor(e, source, measure) == front; }
      front + Collect(b, source, measure);
    }
  }

  /** Every row is the row of some kept target. */
  lemma CollectRowsFromTargets(es: seq<Entry>, source: string,
                               measure: string -> Option<Reading>, i: int)
    requires 0 <= i < |Collect(es, source, measure)|
    ensures exists e :: e in es && Kept(e, source, measure)
                        && Collect(es, source, measure)[i] == RowOf(e.name, measure(e.name).value)
  {
    var k := CollectedTarget(es, source, measure, i);
    RowsForOne(es[k], source, measure, Collect(es, source, measure)[i]);
    assert es[k] in es;
  }

  /** The position of the target that contributed the row at position `i`. */
  lemma CollectedTarget(es: seq<Entry>, source: string, measure: string -> Option<Reading>, i: int)
    returns (k: nat)
    requires 0 <= i < |Collect(es, source, measure)|
    ensures k < |es| && RowsFor(es[k], source, measure) == [Collect(es, source, measure)[i]]
  {
    var f := e => RowsFor(e, source, measure);
    CollectIsFlatMap(es, source, measure);
    k := FlatMapSource(es, f, i);
  }

  /** `Collect` concatenates the rows each target contributes. */
  lemma {:induction false} CollectIsFlatMap(es: seq<Entry>, source: string, measure: string -> Option<Reading>)
    ensures Collect(es, source, measure) == FlatMap(es, e => RowsFor(e, source, measure))
  {
    if |es| > 0 {
      CollectIsFlatMap(es[1..], source, measure);
    }
  }

  function FlatMap<A, B>(s: seq<A>, f: A -> seq<B>): seq<B> {
    if |s| == 0 then [] else f(s[0]) + FlatMap(s[1..], f)
  }

  /** In a concatenation of at-most-singleton pieces, each element is a whole piece. */
  lemma {:induction false} FlatMapSource<A, B>(s: seq<A>, f: A -> seq<B>, i: int) returns (k: nat)
    requires forall x :: |f(x)| <= 1
    requires 0 <= i < |FlatMap(s, f)|
    ensures k < |s| && f(s[k]) == [FlatMap(s, f)[i]]
  {
    var head := f(s[0]);
    var rest := FlatMap(s[1..], f);
    assert FlatMap(s, f) == head + rest;
    if i < |head| {
      k := 0;
    } else {
      IndexAfter(head, rest, i);
      var k' := FlatMapSource(s[1..], f, i - |head|);
      assert s[1..][k'] == s[k' + 1];
      k := k' + 1;
    }
  }

  /** A target contributing a row is kept, and the row is its row. */
  lemma RowsForOne(e: Entry, source: string, measure: string -> Option<Reading>, row: Row)
    requires RowsFor(e, source, measure) == [row]
    ensures Kept(e, source, measure) && row == RowOf(e.name, measure(e.name).value)
  {
  }

  /** Every kept target has its row. */
  lemma {:induction false} KeptTargetHasRow(es: seq<Entry>, source: string,
                                            measure: string -> Option<Reading>, e: Entry)
    requires e in es && Kept(e, source, measure)
    ensures RowOf(e.name, measure(e.name).value) in Collect(es, source, measure)
  {
    if es[0] != e {
      KeptTargetHasRow(es[1..], source, measure, e);
    }
  }

  /** There are never more rows than eligible targets. */
  lemma {:induction false} RowsAtMostEligible(es: seq<Entry>, source: string,
                                              measure: string -> Option<Reading>)
    ensures |Collect(es, source, measure)| <= |Filter(es, EligibleFor(source))|
  {
    CollectCount(es, source, measure);
    FilterNarrower(es, KeptBy(source, measure), EligibleFor(source));
  }

  /** When no eligible target's scoring raises, every eligible target has a row. */
  lemma {:induction false} RowsWhenNothingFails(es: seq<Entry>, source: string,
                                                measure: string -> Option<Reading>)
    requires forall e :: e in es && Eligible(e, source) ==> measure(e.name).Some?
    ensures |Collect(es, source, measure)| == |Filter(es, EligibleFor(source))|
  {
    CollectCount(es, source, measure);
    FilterCongruent(es, KeptBy(source, measure), EligibleFor(source));
  }

  /** The loop as written: visit the listing in order, skip ineligible targets, skip a target
      whose scoring raised, append a row otherwise. */
  method CollectRows(listing: seq<Entry>, source: string, measure: string -> Option<Reading>)
    returns (rows: seq<Row>)
    ensures rows == Collect(listing, source, measure)
  {
    rows := [];
    var i := 0;
    while i < |listing|
      invariant 0 <= i <= |listing|
      invariant rows == Collect(listing[..i], source, measure)
    {
      var e := listing[i];
      CollectSnoc(listing[..i], e, source, measure);
      TakeSnoc(listing, i);
      rows := Visit(rows, e, source, measure);
      i := i + 1;
    }
    assert listing[..|listing|] == listing;
  }

  /** One pass of the loop body: skip an ineligible target, skip a target whose scoring
      raised, append its row otherwise. */
  method Visit(rows: seq<Row>, e: Entry, source: string, measure: string -> Option<Reading>)
    returns (out: seq<Row>)
    ensures out == rows + RowsFor(e, source, measure)
  {
    out := rows;
    if e.isFile && e.name != source && Lower(Suffix(e.name)) in ImageExts {
      match measure(e.name) {
        case Some(rd) =>
          out := rows + [RowOf(e.name, rd)];
          assert Kept(e, source, measure);
          RowsForKept(e, source, measure);
        case None =>
          NoRowFor(rows, e, source, measure);
      }
    } else {
      NoRowFor(rows, e, source, measure);
    }
  }

  lemma RowsForKept(e: Entry, source: string, measure: string -> Option<Reading>)
    requires Kept(e, source, measure)
    ensures RowsFor(e, source, measure) == [RowOf(e.name, measure(e.name).value)]
  {
  }

  lemma NoRowFor(rows: seq<Row>, e: Entry, source: string, measure: string -> Option<Reading>)
    requires !Kept(e, source, measure)
    ensures rows == rows + RowsFor(e, source, measure)
  {
    assert RowsFor(e, source, measure) == [];
    assert rows + [] == rows;
  }

  // ---------- one run ----------

  /** `rows.sort(key=p, reverse=True)`: a higher rounded percentage comes first. */
  predicate ByPDesc(a: Row, b: Row) {
    a.p >= b.p
  }

  lemma ByPDescPreorder()
    ensures TotalPreorder(ByPDesc)
  {
  }

  /** A whole run: the source must exist and be ready (embedded or read) before any target
      is scored; then the rows of the sorted listing, sorted by `p` descending. */
  function Run(sourceExists: bool, sourceReady: bool, entries: seq<Entry>, source: string,
               measure: string -> Option<Reading>): (r: Result<seq<Row>, Error>)
    ensures r.Ok? <==> sourceExists && sourceReady
    ensures !sourceExists ==> r == Err(SourceNotFound)
    ensures r.Ok? ==> Sorted(r.value, ByPDesc) && |r.value| <= |entries|
    ensures r.Ok? ==> multiset(r.value) == multiset(Collect(Listing(entries), source, measure))
  {
    if !sourceExists then Err(SourceNotFound)
    else if !sourceReady then Err(SourceFailed)
    else
      var rows := Collect(Listing(entries), source, measure);
      ByPDescPreorder();
      SortSorted(rows, ByPDesc);
      Ok(Sort(rows, ByPDesc))
  }

  /** Python's sort is stable: rows whose rounded percentages tie keep the order of the
      sorted directory listing. */
  lemma RunStable(sourceExists: bool, sourceReady: bool, entries: seq<Entry>, source: string,
                  measure: string -> Option<Reading>, c: Row)
    requires sourceExists && sourceReady
    ensures Filter(Run(sourceExists, sourceReady, entries, source, measure).value, TieClass(ByPDesc, c))
         == Filter(Collect(Listing(entries), source, measure), TieClass(ByPDesc, c))
  {
    ByPDescPreorder();
    SortStable(Collect(Listing(entries), source, measure), ByPDesc, c);
  }

  /** Every row of a run comes from an eligible target of the folder whose scoring succeeded:
      its filename is the cleaned target name, its `p` the rounded percentage and its bucket
      that of the unrounded percentage. */
  lemma RunRowsFromTargets(sourceExists: bool, sourceReady: bool, entries: seq<Entry>,
                           source: string, measure: string -> Option<Reading>)
    requires sourceExists && sourceReady
    ensures forall row :: row in Run(sourceExists, sourceReady, entries, source, measure).value ==>
              exists e :: e in entries && Eligible(e, source) && measure(e.name).Some?
                          && row == RowOf(e.name, measure(e.name).value)
  {
    var rows := Run(sourceExists, sourceReady, entries, source, measure).value;
    forall row | row in rows
      ensures exists e :: e in entries && Eligible(e, source) && measure(e.name).Some?
                          && row == RowOf(e.name, measure(e.name).value)
    {
      RowFromTarget(entries, source, measure, rows, row);
    }
  }

  /** One row of a run, traced back to its target. */
  lemma RowFromTarget(entries: seq<Entry>, source: string, measure: string -> Option<Reading>,
                      rows: seq<Row>, row: Row)
    requires multiset(rows) == multiset(Collect(Listing(entries), source, measure))
    requires row in rows
    ensures exists e :: e in entries && Eligible(e, source) && measure(e.name).Some?
                        && row == RowOf(e.name, measure(e.name).value)
  {
    var e := TargetOfRow(entries, source, measure, rows, row);
  }

  /** The target an output row comes from. */
  lemma TargetOfRow(entries: seq<Entry>, source: string, measure: string -> Option<Reading>,
                    rows: seq<Row>, row: Row)
    returns (e: Entry)
    requires multiset(rows) == multiset(Collect(Listing(entries), source, measure))
    requires row in rows
    ensures e in entries && Eligible(e, source) && measure(e.name).Some?
    ensures row == RowOf(e.name, measure(e.name).value)
  {
    var collected := Collect(Listing(entries), source, measure);
    assert row in multiset(collected);
    var j :| 0 <= j < |collected| && collected[j] == row;
    var listing := Listing(entries);
    var k := CollectedTarget(listing, source, measure, j);
    e := listing[k];
    RowsForOne(e, source, measure, row);
    assert e in multiset(listing);
  }


  /** Every kept target of the folder has its row in the output. */
  lemma RunKeepsEveryTarget(sourceExists: bool, sourceReady: bool, entries: seq<Entry>,
                            source: string, measure: string -> Option<Reading>, e: Entry)
    requires sourceExists && sourceReady
    requires e in entries && Kept(e, source, measure)
    ensures RowOf(e.name, measure(e.name).value) in Run(sourceExists, sourceReady, entries, source, measure).value
  {
    assert e in multiset(Listing(entries));
    KeptTargetHasRow(Listing(entries), source, measure, e);
    assert RowOf(e.name, measure(e.name).value) in multiset(Collect(Listing(entries), source, measure));
  }

  /** The bucket is taken from the unrounded percentage: 49.96 is written as `p` = 50.0
      yet lands in Safe, although 50.0 itself is Buffer. */
  lemma BucketUsesUnroundedPercent(name: string)
    ensures RowOf(name, Reading(None, 49.96)).p == 50.0
    ensures RowOf(name, Reading(None, 49.96)).bucket == Safe
    ensures BucketFromP(50.0) == Buffer
  {
    assert (49.96 * 10.0).Floor == 499;
    assert NearestInt(49.96 * 10.0) == 500;
  }

  // ---------- FaceNet and DeepFace (ArcFace): cosine of embeddings ----------

  /** Maps a cosine in [-1, 1] onto a percentage in [0, 100], and nothing else there. */
  function CosineToPercent(c: real): (p: real)
    ensures -1.0 <= c <= 1.0 <==> 0.0 <= p <= 100.0
  {
    (c + 1.0) * 50.0
  }

  /** The inverse mapping, from a percentage back to its cosine. */
  function PercentToCosine(p: real): real {
    p / 50.0 - 1.0
  }

  lemma CosineToPercentInverse(c: real, p: real)
    ensures PercentToCosine(CosineToPercent(c)) == c
    ensures CosineToPercent(PercentToCosine(p)) == p
  {
  }

  lemma CosineToPercentIncreasing(c: real, d: real)
    requires c < d
    ensures CosineToPercent(c) < CosineToPercent(d)
  {
  }

  lemma CosineToPercentExamples()
    ensures CosineToPercent(-1.0) == 0.0
    ensures CosineToPercent(0.0) == 50.0
    ensures CosineToPercent(1.0) == 100.0
    ensures CosineToPercent(0.725) == 86.25
  {
  }

  /** An embedding engine's reading: its cosine and the percentage derived from it. */
  function EmbeddingMeasure(cosine: string -> Option<real>): string -> Option<Reading> {
    name => match cosine(name)
      case Some(c) => Some(Reading(Some(c), CosineToPercent(c)))
      case None => None
  }

  /** A FaceNet or DeepFace run; `cosine` is the cosine similarity of the target's embedding
      with the source's, `None` when embedding the target raised. */
  function CompareEmbedding(sourceExists: bool, sourceEmbedded: bool, entries: seq<Entry>,
                            source: string, cosine: string -> Option<real>): Result<seq<Row>, Error>
  {
    Run(sourceExists, sourceEmbedded, entries, source, EmbeddingMeasure(cosine))
  }

  /** With every cosine in [-1, 1], every row's rounded cosine lies in [-1, 1] and its `p`
      in [0, 100]. */
  lemma EmbeddingRowsInRange(sourceExists: bool, sourceEmbedded: bool, entries: seq<Entry>,
                             source: string, cosine: string -> Option<real>)
    requires forall n :: cosine(n).Some? ==> -1.0 <= cosine(n).value <= 1.0
    requires sourceExists && sourceEmbedded
    ensures forall row :: row in CompareEmbedding(sourceExists, sourceEmbedded, entries, source, cosine).value ==>
              row.cosine.Some? && -1.0 <= row.cosine.value <= 1.0 && 0.0 <= row.p <= 100.0
  {
    var rows := CompareEmbedding(sourceExists, sourceEmbedded, entries, source, cosine).value;
    forall row | row in rows
      ensures row.cosine.Some? && -1.0 <= row.cosine.value <= 1.0 && 0.0 <= row.p <= 100.0
    {
      EmbeddingRunRowInRange(entries, source, cosine, rows, row);
    }
  }

  /** One output row of an embedding run lies in range. */
  lemma EmbeddingRunRowInRange(entries: seq<Entry>, source: string, cosine: string -> Option<real>,
                               rows: seq<Row>, row: Row)
    requires forall n :: cosine(n).Some? ==> -1.0 <= cosine(n).value <= 1.0
    requires multiset(rows) == multiset(Collect(Listing(entries), source, EmbeddingMeasure(cosine)))
    requires row in rows
    ensures row.cosine.Some? && -1.0 <= row.cosine.value <= 1.0 && 0.0 <= row.p <= 100.0
  {
    var e := TargetOfRow(entries, source, EmbeddingMeasure(cosine), rows, row);
    EmbeddingRowInRange(cosine, e.name);
  }

  /** The row of one embedded target lies in range. */
  lemma EmbeddingRowInRange(cosine: string -> Option<real>, name: string)
    requires cosine(name).Some? && -1.0 <= cosine(name).value <= 1.0
    ensures var row := RowOf(name, EmbeddingMeasure(cosine)(name).value);
            row.cosine.Some? && -1.0 <= row.cosine.value <= 1.0 && 0.0 <= row.p <= 100.0
  {
    var c := cosine(name).value;
    var pc := CosineToPercent(c);
    Round3Monotone(-1.0, c);
    Round3Monotone(c, 1.0);
    Round3Exact(-1000);
    Round3Exact(1000);
    Round1Monotone(0.0, pc);
    Round1Monotone(pc, 100.0);
    Round1Exact(0);
    Round1Exact(1000);
  }

  // ---------- AWS Rekognition: best face match ----------

  /** One entry of the response's `FaceMatches`, whose `Similarity` may be missing. */
  datatype FaceMatch = FaceMatch(similarity: Option<real>)

  /** A CompareFaces response; `faceMatches` is `None` when the key is absent. */
  datatype AwsResponse = AwsResponse(faceMatches: Option<seq<FaceMatch>>)

  /** `max(m.get("Similarity", 0.0) for m in matches, default=0.0)`. */
  function MaxSimilarity(matches: seq<FaceMatch>): (m: real)
    ensures |matches| == 0 ==> m == 0.0
    ensures forall i :: 0 <= i < |matches| ==> matches[i].similarity.GetOr(0.0) <= m
    ensures |matches| > 0 ==> exists i :: 0 <= i < |matches| && m == matches[i].similarity.GetOr(0.0)
  {
    if |matches| == 0 then 0.0
    else if |matches| == 1 then matches[0].similarity.GetOr(0.0)
    else
      var first := matches[0].similarity.GetOr(0.0);
      var rest := MaxSimilarity(matches[1..]);
      if first >= rest then first else rest
  }

  /** argparse's attribute name for a long option: leading '-' removed, the others turned
      into '_'. */
  function Dest(flag: string): (d: string)
    ensures Free(d, '-')
  {
    Underscored(DropDashes(flag))
  }

  function DropDashes(s: string): (r: string)
    ensures |r| <= |s| && r == s[|s| - |r|..]
    ensures |r| > 0 ==> r[0] != '-'
  {
    if |s| > 0 && s[0] == '-' then DropDashes(s[1..]) else s
  }

  function Underscored(s: string): (r: string)
    ensures |r| == |s|
    ensures forall i :: 0 <= i < |s| ==> r[i] == (if s[i] == '-' then '_' else s[i])
  {
    if |s| == 0 then []
    else [if s[0] == '-' then '_' else s[0]] + Underscored(s[1..])
  }

  /** The options the AWS runner declares. */
  const AwsFlags: seq<string> := ["--folder", "--source", "--outfile", "--similarity-threshold"]

  /** The `SimilarityThreshold` sent with each request. The guard asks for an attribute named
      `similarity-threshold`; were it present, the guarded expression (which reads as
      `args.similarity - threshold`) would raise, which `None` stands for. */
  function SentThreshold(dests: set<string>): Option<real> {
    if "similarity-threshold" in dests then None else Some(0.0)
  }

  /** No option's attribute name contains '-', so whatever options are declared, the
      threshold sent is 0.0 and the `--similarity-threshold` value is never used. */
  lemma ThresholdAlwaysZero(flags: seq<string>)
    ensures SentThreshold(set f | f in flags :: Dest(f)) == Some(0.0)
  {
    var attr := "similarity-threshold";
    assert attr[10] == '-';
    forall f | f in flags
      ensures Dest(f) != attr
    {
      assert Free(Dest(f), '-');
    }
  }

  /** The reading for a target from the response to a request sent with `threshold`. */
  function AwsMeasure(compareFaces: (string, real) -> Option<AwsResponse>, threshold: Option<real>)
    : string -> Option<Reading>
  {
    name => match threshold
      case None => None
      case Some(t) =>
        match compareFaces(name, t)
        case None => None
        case Some(resp) => Some(Reading(None, MaxSimilarity(resp.faceMatches.GetOr([]))))
  }

  /** An AWS run; `compareFaces(name, threshold)` is the CompareFaces call for a target,
      `None` when reading the target or the call raised. */
  function CompareAws(sourceExists: bool, sourceRead: bool, entries: seq<Entry>, source: string,
                      compareFaces: (string, real) -> Option<AwsResponse>): (r: Result<seq<Row>, Error>)
    ensures r == Run(sourceExists, sourceRead, entries, source, AwsMeasure(compareFaces, Some(0.0)))
  {
    ThresholdAlwaysZero(AwsFlags);
    Run(sourceExists, sourceRead, entries, source,
        AwsMeasure(compareFaces, SentThreshold(set f | f in AwsFlags :: Dest(f))))
  }

  /** AWS rows leave the cosine empty; their `p` is the rounded best similarity of the reply
      to a request sent at threshold 0.0 for an eligible target, and their bucket that best
      similarity's bucket. */
  lemma AwsRows(sourceExists: bool, sourceRead: bool, entries: seq<Entry>, source: string,
                compareFaces: (string, real) -> Option<AwsResponse>)
    requires sourceExists && sourceRead
    ensures forall row :: row in CompareAws(sourceExists, sourceRead, entries, source, compareFaces).value ==>
              row.cosine.None?
              && exists e :: e in entries && Eligible(e, source) && compareFaces(e.name, 0.0).Some?
                             && var best := MaxSimilarity(compareFaces(e.name, 0.0).value.faceMatches.GetOr([]));
                                row.filename == FilenameCleaner.Clean(e.name)
                                && row.p == Round1(best) && row.bucket == BucketFromP(best)
  {
    var measure := AwsMeasure(compareFaces, Some(0.0));
    var rows := CompareAws(sourceExists, sourceRead, entries, source, compareFaces).value;
    assert rows == Run(sourceExists, sourceRead, entries, source, measure).value;
    forall row | row in rows
      ensures row.cosine.None?
              && exists e :: e in entries && Eligible(e, source) && compareFaces(e.name, 0.0).Some?
                             && var best := MaxSimilarity(compareFaces(e.name, 0.0).value.faceMatches.GetOr([]));
                                row.filename == FilenameCleaner.Clean(e.name)
                                && row.p == Round1(best) && row.bucket == BucketFromP(best)
    {
      var e := TargetOfRow(entries, source, measure, rows, row);
      AwsMeasureAt(compareFaces, e.name);
      var best := MaxSimilarity(compareFaces(e.name, 0.0).value.faceMatches.GetOr([]));
      assert measure(e.name).value == Reading(None, best);
      assert row.cosine.None? && row.p == Round1(best) && row.bucket == BucketFromP(best);
    }
  }

  /** The reading for one target at threshold 0.0: none when the call raised, else the best
      similarity of the reply and no cosine. */
  lemma AwsMeasureAt(compareFaces: (string, real) -> Option<AwsResponse>, name: string)
    ensures AwsMeasure(compareFaces, Some(0.0))(name).Some? <==> compareFaces(name, 0.0).Some?
    ensures compareFaces(name, 0.0).Some? ==>
              AwsMeasure(compareFaces, Some(0.0))(name).value
              == Reading(None, MaxSimilarity(compareFaces(name, 0.0).value.faceMatches.GetOr([])))
  {
  }

  // ---------- Face++: confidence from the HTTP reply ----------

  /** The HTTP status and the JSON `confidence` field, if present. */
  datatype HttpReply = HttpReply(status: int, confidence: Option<real>)

  /** `raise_for_status()` raises for 4xx and 5xx. */
  predicate ErrorStatus(status: int) {
    400 <= status < 600
  }

  /** A reply with an error status, or a request that raised, gives no reading; otherwise
      the confidence passes through unchanged, 0.0 when absent. */
  function FaceppReading(reply: Option<HttpReply>): (rd: Option<Reading>)
    ensures rd.Some? <==> reply.Some? && !ErrorStatus(reply.value.status)
    ensures rd.Some? ==> rd.value == Reading(None, reply.value.confidence.GetOr(0.0))
  {
    match reply
    case None => None
    case Some(h) => if ErrorStatus(h.status) then None else Some(Reading(None, h.confidence.GetOr(0.0)))
  }

  function FaceppMeasure(post: string -> Option<HttpReply>): string -> Option<Reading> {
    name => FaceppReading(post(name))
  }

  /** A Face++ run: the credentials are checked first, then the source; the source is only
      opened inside each target's request, so it is never "not ready". */
  function CompareFacepp(key: string, secret: string, sourceExists: bool, entries: seq<Entry>,
                         source: string, post: string -> Option<HttpReply>): (r: Result<seq<Row>, Error>)
    ensures r == Err(MissingCredentials) <==> key == "" || secret == ""
    ensures key != "" && secret != "" ==> (r.Ok? <==> sourceExists)
  {
    if key == "" || secret == "" then Err(MissingCredentials)
    else Run(sourceExists, true, entries, source, FaceppMeasure(post))
  }

  /** Face++ rows leave the cosine empty, and their `p` is the rounded confidence of a
      successful reply for an eligible target. */
  lemma FaceppRows(key: string, secret: string, sourceExists: bool, entries: seq<Entry>,
                   source: string, post: string -> Option<HttpReply>)
    requires key != "" && secret != "" && sourceExists
    ensures forall row :: row in CompareFacepp(key, secret, sourceExists, entries, source, post).value ==>
              row.cosine.None?
              && exists e :: e in entries && Eligible(e, source) && post(e.name).Some?
                             && !ErrorStatus(post(e.name).value.status)
                             && row.filename == FilenameCleaner.Clean(e.name)
                             && row.p == Round1(post(e.name).value.confidence.GetOr(0.0))
                             && row.bucket == BucketFromP(post(e.name).value.confidence.GetOr(0.0))
  {
    var measure := FaceppMeasure(post);
    var rows := CompareFacepp(key, secret, sourceExists, entries, source, post).value;
    assert rows == Run(sourceExists, true, entries, source, measure).value;
    forall row | row in rows
      ensures row.cosine.None?
              && exists e :: e in entries && Eligible(e, source) && post(e.name).Some?
                             && !ErrorStatus(post(e.name).value.status)
                             && row.filename == FilenameCleaner.Clean(e.name)
                             && row.p == Round1(post(e.name).value.confidence.GetOr(0.0))
                             && row.bucket == BucketFromP(post(e.name).value.confidence.GetOr(0.0))
    {
      var e := TargetOfRow(entries, source, measure, rows, row);
      var rd := FaceppReading(post(e.name));
      assert measure(e.name) == rd;
      assert row.p == Round1(rd.value.percent) && row.bucket == BucketFromP(rd.value.percent);
    }
  }
}
