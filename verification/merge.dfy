/** The cross-engine merger: up to four result tables, an outer join on `filename`, the
    mean of the available percentages, its bucket, and a sort by that mean, highest first
    and rows without a mean last. */
module Merge {
  import opened Wrappers
  import opened Sorting
  import opened Bucketer
  import opened Engines

  /** A runner's CSV as the merger reads it: only the `filename` and `p` columns. */
  datatype Record = Record(filename: string, p: real)

  type Table = seq<Record>

  /** A row of the join so far: the key and one `p_<engine>` cell per joined table. */
  datatype Joined = Joined(filename: string, ps: seq<Option<real>>)

  /** An output row: the joined cells, `p_mean` and `bucket_mean` ("" without a mean). */
  datatype MergedRow = MergedRow(filename: string, ps: seq<Option<real>>, pMean: Option<real>, bucketMean: string)

  /** The output table: the engines whose `p_<engine>` columns it has, in column order. */
  datatype Merged = Merged(engines: seq<Engine>, rows: seq<MergedRow>)

  /** The four path options; "" when not given. */
  datatype MergeArgs = MergeArgs(aws: string, facepp: string, facenet: string, deepface: string)

  datatype MergeError = NoInputs

  // ---------- inputs ----------

  function PathOf(args: MergeArgs, e: Engine): string {
    match e
    case Aws => args.aws
    case FacePP => args.facepp
    case FaceNet => args.facenet
    case DeepFace => args.deepface
  }

  /** Position of an engine in the merger's fixed order aws, facepp, facenet, deepface. */
  function MergePos(e: Engine): nat {
    match e
    case Aws => 0
    case FacePP => 1
    case FaceNet => 2
    case DeepFace => 3
  }

  /** The engines whose path option is non-empty, in the fixed order. */
  function Selected(args: MergeArgs): (es: seq<Engine>)
    ensures forall e :: e in es <==> PathOf(args, e) != ""
    ensures InMergeOrder(es)
  {
    var a := IfGiven(args, Aws);
    var b := a + IfGiven(args, FacePP);
    OrderedSnoc(a, args, FacePP);
    var c := b + IfGiven(args, FaceNet);
    OrderedSnoc(b, args, FaceNet);
    var d := c + IfGiven(args, DeepFace);
    OrderedSnoc(c, args, DeepFace);
    d
  }

  predicate InMergeOrder(es: seq<Engine>) {
    forall i, j :: 0 <= i < j < |es| ==> MergePos(es[i]) < MergePos(es[j])
  }

  /** Appending a later engine keeps the merge order. */
  lemma OrderedSnoc(es: seq<Engine>, args: MergeArgs, e: Engine)
    requires InMergeOrder(es)
    requires forall x :: x in es ==> MergePos(x) < MergePos(e)
    ensures InMergeOrder(es + IfGiven(args, e))
    ensures forall x :: x in es + IfGiven(args, e) <==> x in es || (x == e && PathOf(args, e) != "")
  {
    var r := es + IfGiven(args, e);
    forall i, j | 0 <= i < j < |r| ensures MergePos(r[i]) < MergePos(r[j]) {
      if j >= |es| {
        assert r[j] == e;
        if i < |es| { assert r[i] in es; }
      }
    }
  }

  /** The engine alone when its path option is non-empty, nothing otherwise. */
  function IfGiven(args: MergeArgs, e: Engine): (es: seq<Engine>)
    ensures |es| <= 1
    ensures forall x :: x in es <==> x == e && PathOf(args, e) != ""
    ensures forall i :: 0 <= i < |es| ==> es[i] == e
  {
    if PathOf(args, e) != "" then [e] else []
  }

  /** `read_optional`: a path that does not exist gives an empty table. `files` stands for
      the file system: the table stored at a path, `None` when there is no such file. */
  function ReadOptional(path: string, files: string -> Option<Table>): (t: Table)
    ensures files(path).None? ==> t == []
    ensures files(path).Some? ==> t == files(path).value
  {
    files(path).GetOr([])
  }

  // ---------- outer join ----------

  function Lookup(t: Table, k: string): (v: Option<real>)
    ensures v.Some? <==> k in TableKeys(t)
  {
    if |t| == 0 then None
    else if t[0].filename == k then Some(t[0].p)
    else Lookup(t[1..], k)
  }

  function TableKeys(t: Table): set<string> {
    set i | 0 <= i < |t| :: t[i].filename
  }

  function RowKeys(rows: seq<Joined>): set<string> {
    set i | 0 <= i < |rows| :: rows[i].filename
  }

  predicate UniqueKeys(t: Table) {
    forall i, j :: 0 <= i < j < |t| ==> t[i].filename != t[j].filename
  }

  predicate UniqueRows(rows: seq<Joined>) {
    forall i, j :: 0 <= i < j < |rows| ==> rows[i].filename != rows[j].filename
  }

  /** The keys of all tables. */
  function AllKeys(tables: seq<Table>): set<string> {
    if |tables| == 0 then {} else AllKeys(tables[..|tables| - 1]) + TableKeys(tables[|tables| - 1])
  }

  /** What each table holds for `k`: the row the join should produce for that key. */
  function Column(tables: seq<Table>, k: string): (c: seq<Option<real>>)
    ensures |c| == |tables|
  {
    seq(|tables|, j requires 0 <= j < |tables| => Lookup(tables[j], k))
  }

  function Nones(w: nat): (s: seq<Option<real>>)
    ensures |s| == w && forall i :: 0 <= i < w ==> s[i].None?
  {
    seq(w, _ => None)
  }

  /** The `p` values of the records of `r` with key `k`, in table order. */
  function Matches(r: Table, k: string): seq<real> {
    if |r| == 0 then []
    else (if r[0].filename == k then [r[0].p] else []) + Matches(r[1..], k)
  }

  /** A left row joined with its matches: one row per match, or one row with an empty cell. */
  function Extend(row: Joined, ms: seq<real>): (out: seq<Joined>)
    ensures |out| == if |ms| == 0 then 1 else |ms|
  {
    if |ms| == 0 then [Joined(row.filename, row.ps + [None])]
    else seq(|ms|, i requires 0 <= i < |ms| => Joined(row.filename, row.ps + [Some(ms[i])]))
  }

  function MergeLeft(l: seq<Joined>, r: Table): seq<Joined> {
    if |l| == 0 then [] else Extend(l[0], Matches(r, l[0].filename)) + MergeLeft(l[1..], r)
  }

  /** The records of `r` whose key the left side lacks, with `w` empty cells in front. */
  function RightOnly(r: Table, left: set<string>, w: nat): seq<Joined> {
    if |r| == 0 then []
    else (if r[0].filename in left then [] else [Joined(r[0].filename, Nones(w) + [Some(r[0].p)])])
         + RightOnly(r[1..], left, w)
  }

  /** `pd.merge(l, r, on="filename", how="outer")` with `l` holding `w` cells per row: every
      pair of rows sharing a key, every unmatched row with empty cells on the other side.
      The order of the rows is not modelled (the final sort does not keep it). */
  function OuterMerge(l: seq<Joined>, w: nat, r: Table): seq<Joined> {
    MergeLeft(l, r) + RightOnly(r, RowKeys(l), w)
  }

  function Single(t: Table): (rows: seq<Joined>)
    ensures |rows| == |t|
  {
    seq(|t|, i requires 0 <= i < |t| => Joined(t[i].filename, [Some(t[i].p)]))
  }

  /** `reduce(merge, dfs)`. */
  function JoinAll(tables: seq<Table>): seq<Joined>
    requires |tables| >= 1
    decreases |tables|
  {
    if |tables| == 1 then Single(tables[0])
    else OuterMerge(JoinAll(tables[..|tables| - 1]), |tables| - 1, tables[|tables| - 1])
  }

  // ---------- the join with unique keys ----------

  lemma {:induction false} MatchesUnique(r: Table, k: string)
    requires UniqueKeys(r)
    ensures Matches(r, k) == if Lookup(r, k).Some? then [Lookup(r, k).value] else []
  {
    if |r| > 0 {
      MatchesUnique(r[1..], k);
      if r[0].filename == k {
        assert k !in TableKeys(r[1..]) by {
          forall i | 0 <= i < |r| - 1 ensures r[1..][i].filename != k {
            assert r[1..][i] == r[i + 1];
          }
        }
      }
    }
  }

  /** With unique keys on the right, every left row is extended by exactly one cell. */
  lemma {:induction false} MergeLeftUnique(l: seq<Joined>, r: Table)
    requires UniqueKeys(r)
    ensures |MergeLeft(l, r)| == |l|
    ensures forall i :: 0 <= i < |l| ==>
              MergeLeft(l, r)[i] == Joined(l[i].filename, l[i].ps + [Lookup(r, l[i].filename)])
  {
    if |l| > 0 {
      MergeLeftUnique(l[1..], r);
      MatchesUnique(r, l[0].filename);
      var head := Extend(l[0], Matches(r, l[0].filename));
      assert head == [Joined(l[0].filename, l[0].ps + [Lookup(r, l[0].filename)])];
      forall i | 0 < i < |l|
        ensures MergeLeft(l, r)[i] == Joined(l[i].filename, l[i].ps + [Lookup(r, l[i].filename)])
      {
        assert MergeLeft(l, r)[i] == MergeLeft(l[1..], r)[i - 1];
        assert l[1..][i - 1] == l[i];
      }
    }
  }

  lemma TableKeysCons(r: Table)
    requires |r| > 0
    ensures TableKeys(r) == {r[0].filename} + TableKeys(r[1..])
  {
    forall k | k in TableKeys(r) ensures k == r[0].filename || k in TableKeys(r[1..]) {
      var i :| 0 <= i < |r| && r[i].filename == k;
      if i > 0 {
        assert r[1..][i - 1] == r[i];
      }
    }
    forall k | k in TableKeys(r[1..]) ensures k in TableKeys(r) {
      var i :| 0 <= i < |r| - 1 && r[1..][i].filename == k;
      assert r[i + 1] == r[1..][i];
      assert r[i + 1].filename in TableKeys(r);
    }
    assert r[0].filename in TableKeys(r);
  }

  /** With unique keys, the first record's key does not occur again. */
  lemma HeadKeyNotInTail(r: Table)
    requires UniqueKeys(r) && |r| > 0
    ensures r[0].filename !in TableKeys(r[1..])
    ensures UniqueKeys(r[1..])
  {
    forall i | 0 <= i < |r| - 1 ensures r[1..][i].filename != r[0].filename {
      assert r[1..][i] == r[i + 1];
    }
  }

  lemma RowKeysAppend(a: seq<Joined>, b: seq<Joined>)
    ensures RowKeys(a + b) == RowKeys(a) + RowKeys(b)
  {
    forall k | k in RowKeys(a + b) ensures k in RowKeys(a) + RowKeys(b) {
      var i :| 0 <= i < |a + b| && (a + b)[i].filename == k;
      if i >= |a| {
        assert (a + b)[i] == b[i - |a|];
        assert b[i - |a|].filename in RowKeys(b);
      } else {
        assert a[i].filename in RowKeys(a);
      }
    }
    forall k | k in RowKeys(b) ensures k in RowKeys(a + b) {
      var i :| 0 <= i < |b| && b[i].filename == k;
      assert (a + b)[i + |a|] == b[i];
      assert (a + b)[i + |a|].filename in RowKeys(a + b);
    }
    forall k | k in RowKeys(a) ensures k in RowKeys(a + b) {
      var i :| 0 <= i < |a| && a[i].filename == k;
      assert (a + b)[i] == a[i];
      assert (a + b)[i].filename in RowKeys(a + b);
    }
  }

  /** The right-only rows carry exactly the keys of `r` missing on the left. */
  lemma {:induction false} RightOnlyKeys(r: Table, left: set<string>, w: nat)
    ensures RowKeys(RightOnly(r, left, w)) == TableKeys(r) - left
  {
    if |r| == 0 {
      assert RowKeys([]) == {};
    } else {
      var rest := RightOnly(r[1..], left, w);
      var head := if r[0].filename in left then [] else [Joined(r[0].filename, Nones(w) + [Some(r[0].p)])];
      RightOnlyKeys(r[1..], left, w);
      assert RightOnly(r, left, w) == head + rest;
      RowKeysAppend(head, rest);
      TableKeysCons(r);
      assert RowKeys(head) == (if r[0].filename in left then {} else {r[0].filename}) by {
        if head != [] {
          assert head[0].filename in RowKeys(head);
        }
      }
    }
  }

  /** Each right-only row holds `w` empty cells and then its key's value in `r`. */
  lemma {:induction false} RightOnlyValues(r: Table, left: set<string>, w: nat)
    requires UniqueKeys(r)
    ensures forall i :: 0 <= i < |RightOnly(r, left, w)| ==>
              RightOnly(r, left, w)[i].ps == Nones(w) + [Lookup(r, RightOnly(r, left, w)[i].filename)]
  {
    if |r| > 0 {
      var rest := RightOnly(r[1..], left, w);
      var head := if r[0].filename in left then [] else [Joined(r[0].filename, Nones(w) + [Some(r[0].p)])];
      var out := RightOnly(r, left, w);
      HeadKeyNotInTail(r);
      RightOnlyValues(r[1..], left, w);
      RightOnlyKeys(r[1..], left, w);
      assert out == head + rest;
      forall i | 0 <= i < |out| ensures out[i].ps == Nones(w) + [Lookup(r, out[i].filename)] {
        if i >= |head| {
          var row := rest[i - |head|];
          assert out[i] == row;
          assert row.filename in RowKeys(rest);
          assert Lookup(r, row.filename) == Lookup(r[1..], row.filename);
        }
      }
    }
  }

  /** The right-only rows have distinct keys. */
  lemma {:induction false} RightOnlyDistinct(r: Table, left: set<string>, w: nat)
    requires UniqueKeys(r)
    ensures UniqueRows(RightOnly(r, left, w))
  {
    if |r| > 0 {
      var rest := RightOnly(r[1..], left, w);
      var head := if r[0].filename in left then [] else [Joined(r[0].filename, Nones(w) + [Some(r[0].p)])];
      var out := RightOnly(r, left, w);
      HeadKeyNotInTail(r);
      RightOnlyDistinct(r[1..], left, w);
      RightOnlyKeys(r[1..], left, w);
      assert out == head + rest;
      forall i, j | 0 <= i < j < |out| ensures out[i].filename != out[j].filename {
        assert out[j] == rest[j - |head|];
        if i < |head| {
          assert rest[j - |head|].filename in RowKeys(rest);
        } else {
          assert out[i] == rest[i - |head|];
        }
      }
    }
  }

  lemma UniqueAppend(a: seq<Joined>, b: seq<Joined>)
    requires UniqueRows(a) && UniqueRows(b)
    requires RowKeys(a) !! RowKeys(b)
    ensures UniqueRows(a + b)
    ensures RowKeys(a + b) == RowKeys(a) + RowKeys(b)
  {
    forall i, j | 0 <= i < j < |a + b| ensures (a + b)[i].filename != (a + b)[j].filename {
      if i < |a| && j >= |a| {
        assert (a + b)[i].filename in RowKeys(a);
        assert (a + b)[j] == b[j - |a|];
        assert b[j - |a|].filename in RowKeys(b);
      }
    }
    RowKeysAppend(a, b);
  }

  /** A key outside every table has only empty cells. */
  lemma {:induction false} ColumnOfAbsentKey(tables: seq<Table>, k: string)
    requires k !in AllKeys(tables)
    ensures Column(tables, k) == Nones(|tables|)
  {
    if |tables| > 0 {
      var init := tables[..|tables| - 1];
      ColumnOfAbsentKey(init, k);
      forall j | 0 <= j < |tables| ensures Column(tables, k)[j] == None {
        if j < |tables| - 1 {
          assert tables[j] == init[j];
          assert Column(init, k)[j] == None;
        }
      }
    }
  }

  /** One outer-merge step keeps the join's promise: unique keys, every key of every table,
      and each table's value in its own cell. */
  lemma OuterMergeUnique(l: seq<Joined>, tables: seq<Table>, w: nat, r: Table)
    requires |tables| == w + 1 && r == tables[w]
    requires UniqueRows(l) && UniqueKeys(r)
    requires RowKeys(l) == AllKeys(tables[..w])
    requires forall i :: 0 <= i < |l| ==> l[i].ps == Column(tables[..w], l[i].filename)
    ensures UniqueRows(OuterMerge(l, w, r))
    ensures RowKeys(OuterMerge(l, w, r)) == AllKeys(tables)
    ensures forall i :: 0 <= i < |OuterMerge(l, w, r)| ==>
              OuterMerge(l, w, r)[i].ps
              == Column(tables, OuterMerge(l, w, r)[i].filename)
  {
    OuterMergeKeys(l, tables, w, r);
    OuterMergeValues(l, tables, w, r);
  }

  /** With unique keys on the right, merging keeps the left keys. */
  lemma MergeLeftKeys(l: seq<Joined>, r: Table)
    requires UniqueKeys(r)
    ensures RowKeys(MergeLeft(l, r)) == RowKeys(l)
    ensures UniqueRows(l) ==> UniqueRows(MergeLeft(l, r))
  {
    var left := MergeLeft(l, r);
    MergeLeftUnique(l, r);
    assert forall i :: 0 <= i < |l| ==> left[i].filename == l[i].filename;
    forall k | k in RowKeys(left) ensures k in RowKeys(l) {
      var i :| 0 <= i < |left| && left[i].filename == k;
      assert l[i].filename in RowKeys(l);
    }
    forall k | k in RowKeys(l) ensures k in RowKeys(left) {
      var i :| 0 <= i < |l| && l[i].filename == k;
      assert left[i].filename in RowKeys(left);
    }
  }

  lemma AllKeysSnoc(tables: seq<Table>)
    requires |tables| >= 1
    ensures AllKeys(tables) == AllKeys(tables[..|tables| - 1]) + TableKeys(tables[|tables| - 1])
  {
  }

  /** The outer merge has distinct keys: those of the left rows and of the new table. */
  lemma OuterMergeKeys(l: seq<Joined>, tables: seq<Table>, w: nat, r: Table)
    requires |tables| == w + 1 && r == tables[w]
    requires UniqueRows(l) && UniqueKeys(r)
    requires RowKeys(l) == AllKeys(tables[..w])
    ensures UniqueRows(OuterMerge(l, w, r))
    ensures RowKeys(OuterMerge(l, w, r)) == AllKeys(tables)
  {
    var left := MergeLeft(l, r);
    var right := RightOnly(r, RowKeys(l), w);
    MergeLeftKeys(l, r);
    RightOnlyKeys(r, RowKeys(l), w);
    RightOnlyDistinct(r, RowKeys(l), w);
    UniqueAppend(left, right);
    AllKeysSnoc(tables);
  }

  /** A column over one more table is the old column and the new table's value. */
  lemma ColumnSnoc(tables: seq<Table>, k: string)
    requires |tables| >= 1
    ensures Column(tables, k) == Column(tables[..|tables| - 1], k) + [Lookup(tables[|tables| - 1], k)]
  {
    var prev := tables[..|tables| - 1];
    assert forall j :: 0 <= j < |prev| ==> tables[j] == prev[j];
  }

  /** Every row of the outer merge holds each table's value for its key. */
  lemma OuterMergeValues(l: seq<Joined>, tables: seq<Table>, w: nat, r: Table)
    requires |tables| == w + 1 && r == tables[w]
    requires UniqueKeys(r)
    requires RowKeys(l) == AllKeys(tables[..w])
    requires forall i :: 0 <= i < |l| ==> l[i].ps == Column(tables[..w], l[i].filename)
    ensures forall i :: 0 <= i < |OuterMerge(l, w, r)| ==>
              OuterMerge(l, w, r)[i].ps
              == Column(tables, OuterMerge(l, w, r)[i].filename)
  {
    var prev := tables[..w];
    var left := MergeLeft(l, r);
    var right := RightOnly(r, RowKeys(l), |prev|);
    var out := left + right;
    MergeLeftUnique(l, r);
    RightOnlyKeys(r, RowKeys(l), |prev|);
    RightOnlyValues(r, RowKeys(l), |prev|);
    forall i | 0 <= i < |out| ensures out[i].ps == Column(tables, out[i].filename) {
      ColumnSnoc(tables, out[i].filename);
      if i >= |left| {
        var row := right[i - |left|];
        assert out[i] == row;
        assert row.filename in RowKeys(right);
        ColumnOfAbsentKey(prev, row.filename);
      } else {
        assert out[i] == left[i];
      }
    }
  }

  /** With unique keys in every table, the join has exactly one row per key that occurs in
      any table, and that row holds each table's value for the key (empty where absent). */
  lemma {:induction false} JoinAllUnique(tables: seq<Table>)
    requires |tables| >= 1
    requires forall j :: 0 <= j < |tables| ==> UniqueKeys(tables[j])
    ensures UniqueRows(JoinAll(tables))
    ensures RowKeys(JoinAll(tables)) == AllKeys(tables)
    ensures forall i :: 0 <= i < |JoinAll(tables)| ==>
              JoinAll(tables)[i].ps == Column(tables, JoinAll(tables)[i].filename)
    decreases |tables|
  {
    if |tables| == 1 {
      JoinOne(tables);
    } else {
      var prev := tables[..|tables| - 1];
      var r := tables[|tables| - 1];
      assert forall j :: 0 <= j < |prev| ==> UniqueKeys(prev[j]) by {
        forall j | 0 <= j < |prev| ensures UniqueKeys(prev[j]) {
          assert prev[j] == tables[j];
        }
      }
      JoinAllUnique(prev);
      JoinStep(tables);
    }
  }

  /** One more table keeps the join's promise. */
  lemma JoinStep(tables: seq<Table>)
    requires |tables| >= 2 && UniqueKeys(tables[|tables| - 1])
    requires var prev := tables[..|tables| - 1];
             && UniqueRows(JoinAll(prev))
             && RowKeys(JoinAll(prev)) == AllKeys(prev)
             && forall i :: 0 <= i < |JoinAll(prev)| ==> JoinAll(prev)[i].ps == Column(prev, JoinAll(prev)[i].filename)
    ensures UniqueRows(JoinAll(tables))
    ensures RowKeys(JoinAll(tables)) == AllKeys(tables)
    ensures forall i :: 0 <= i < |JoinAll(tables)| ==>
              JoinAll(tables)[i].ps == Column(tables, JoinAll(tables)[i].filename)
  {
    var prev := tables[..|tables| - 1];
    var r := tables[|tables| - 1];
    OuterMergeUnique(JoinAll(prev), tables, |tables| - 1, r);
  }

  lemma JoinOne(tables: seq<Table>)
    requires |tables| == 1 && UniqueKeys(tables[0])
    ensures UniqueRows(JoinAll(tables))
    ensures RowKeys(JoinAll(tables)) == AllKeys(tables)
    ensures forall i :: 0 <= i < |JoinAll(tables)| ==>
              JoinAll(tables)[i].ps == Column(tables, JoinAll(tables)[i].filename)
  {
    var t := tables[0];
    SingleUnique(t);
    assert AllKeys(tables) == TableKeys(t) by {
      assert tables[..0] == [];
    }
    assert forall k :: Column(tables, k) == [Lookup(t, k)];
  }

  /** The join of one table: a row per record with its key and value. */
  lemma SingleUnique(t: Table)
    requires UniqueKeys(t)
    ensures UniqueRows(Single(t))
    ensures RowKeys(Single(t)) == TableKeys(t)
    ensures forall i :: 0 <= i < |Single(t)| ==> Single(t)[i].ps == [Lookup(t, Single(t)[i].filename)]
  {
    var rows := Single(t);
    assert RowKeys(rows) == TableKeys(t) by {
      forall k | k in TableKeys(t) ensures k in RowKeys(rows) {
        var i :| 0 <= i < |t| && t[i].filename == k;
        assert rows[i].filename == k;
      }
    }
    forall i | 0 <= i < |rows| ensures rows[i].ps == [Lookup(t, rows[i].filename)] {
      LookupUnique(t, i);
    }
  }

  /** In a table with unique keys, looking up a record's key finds that record. */
  lemma {:induction false} LookupUnique(t: Table, i: int)
    requires UniqueKeys(t) && 0 <= i < |t|
    ensures Lookup(t, t[i].filename) == Some(t[i].p)
  {
    if i > 0 {
      assert t[1..][i - 1] == t[i];
      LookupUnique(t[1..], i - 1);
    }
  }

  /** The number of joined rows with key `k`. */
  function KeyCount(rows: seq<Joined>, k: string): nat {
    if |rows| == 0 then 0 else (if rows[0].filename == k then 1 else 0) + KeyCount(rows[1..], k)
  }

  lemma {:induction false} KeyCountAppend(a: seq<Joined>, b: seq<Joined>, k: string)
    ensures KeyCount(a + b, k) == KeyCount(a, k) + KeyCount(b, k)
  {
    if |a| == 0 {
      assert a + b == b;
    } else {
      assert (a + b)[1..] == a[1..] + b;
      KeyCountAppend(a[1..], b, k);
    }
  }

  lemma {:induction false} KeyCountAbsent(rows: seq<Joined>, k: string)
    ensures KeyCount(rows, k) == 0 <==> k !in RowKeys(rows)
  {
    if |rows| > 0 {
      KeyCountAbsent(rows[1..], k);
      assert RowKeys(rows) == {rows[0].filename} + RowKeys(rows[1..]) by {
        forall x | x in RowKeys(rows) ensures x in {rows[0].filename} + RowKeys(rows[1..]) {
          var i :| 0 <= i < |rows| && rows[i].filename == x;
          if i > 0 { assert rows[1..][i - 1] == rows[i]; }
        }
        forall x | x in RowKeys(rows[1..]) ensures x in RowKeys(rows) {
          var i :| 0 <= i < |rows[1..]| && rows[1..][i].filename == x;
          assert rows[i + 1].filename == x;
        }
        assert rows[0].filename in RowKeys(rows);
      }
    }
  }

  /** Rows that all carry one key count in full for that key and not at all for others. */
  lemma {:induction false} KeyCountUniform(rows: seq<Joined>, f: string, k: string)
    requires forall i :: 0 <= i < |rows| ==> rows[i].filename == f
    ensures KeyCount(rows, k) == if f == k then |rows| else 0
  {
    if |rows| > 0 {
      KeyCountUniform(rows[1..], f, k);
    }
  }

  /** A left row with key `k` becomes one row per match, or one row when nothing matches. */
  lemma ExtendKeyCount(row: Joined, ms: seq<real>, k: string)
    ensures KeyCount(Extend(row, ms), k) == if row.filename == k then (if |ms| == 0 then 1 else |ms|) else 0
  {
    KeyCountUniform(Extend(row, ms), row.filename, k);
  }

  /** How many copies each left row with key `k` becomes. */
  function Copies(r: Table, k: string): nat {
    if |Matches(r, k)| == 0 then 1 else |Matches(r, k)|
  }

  lemma {:induction false} MergeLeftKeyCount(l: seq<Joined>, r: Table, k: string)
    ensures KeyCount(MergeLeft(l, r), k) == KeyCount(l, k) * Copies(r, k)
  {
    if |l| > 0 {
      MergeLeftKeyCountStep(l, r, k);
      MergeLeftKeyCount(l[1..], r, k);
      Distribute(if l[0].filename == k then 1 else 0, KeyCount(l[1..], k), Copies(r, k));
    }
  }

  /** The first left row's copies, then the rest's. */
  lemma MergeLeftKeyCountStep(l: seq<Joined>, r: Table, k: string)
    requires |l| > 0
    ensures KeyCount(l, k) == (if l[0].filename == k then 1 else 0) + KeyCount(l[1..], k)
    ensures KeyCount(MergeLeft(l, r), k)
            == (if l[0].filename == k then 1 else 0) * Copies(r, k) + KeyCount(MergeLeft(l[1..], r), k)
  {
    var ext := Extend(l[0], Matches(r, l[0].filename));
    ExtendKeyCount(l[0], Matches(r, l[0].filename), k);
    KeyCountAppend(ext, MergeLeft(l[1..], r), k);
  }


  lemma Distribute(a: int, b: int, c: int)
    ensures (a + b) * c == a * c + b * c
  {
  }

  lemma {:induction false} RightOnlyKeyCount(r: Table, left: set<string>, w: nat, k: string)
    ensures KeyCount(RightOnly(r, left, w), k) == if k in left then 0 else |Matches(r, k)|
  {
    if |r| > 0 {
      var head := if r[0].filename in left then [] else [Joined(r[0].filename, Nones(w) + [Some(r[0].p)])];
      KeyCountAppend(head, RightOnly(r[1..], left, w), k);
      RightOnlyKeyCount(r[1..], left, w, k);
      assert KeyCount(head, k) == if r[0].filename in left || r[0].filename != k then 0 else 1 by {
        KeyCountUniform(head, r[0].filename, k);
      }
    }
  }

  /** `pd.merge(..., how="outer")` on one key: with `m` left rows and `n` right rows sharing
      `k`, the result has `m * n` rows for `k` when both are present, and otherwise keeps
      the side that has the key. Keys are not assumed unique by the code: `clean_filename`
      maps different files to one name. */
  lemma OuterMergeKeyCount(l: seq<Joined>, w: nat, r: Table, k: string)
    ensures KeyCount(OuterMerge(l, w, r), k)
            == if KeyCount(l, k) == 0 then |Matches(r, k)|
               else if |Matches(r, k)| == 0 then KeyCount(l, k)
               else KeyCount(l, k) * |Matches(r, k)|
  {
    KeyCountAppend(MergeLeft(l, r), RightOnly(r, RowKeys(l), w), k);
    MergeLeftKeyCount(l, r, k);
    RightOnlyKeyCount(r, RowKeys(l), w, k);
    KeyCountAbsent(l, k);
  }

  lemma {:induction false} SingleKeyCount(t: Table, k: string)
    ensures KeyCount(Single(t), k) == |Matches(t, k)|
  {
    if |t| > 0 {
      assert Single(t) == [Joined(t[0].filename, [Some(t[0].p)])] + Single(t[1..]);
      KeyCountAppend([Joined(t[0].filename, [Some(t[0].p)])], Single(t[1..]), k);
      SingleKeyCount(t[1..], k);
    }
  }

  /** A key that two tables both hold joins to the product of its row counts. */
  lemma DuplicateKeysMultiply(a: Table, b: Table, k: string)
    requires |Matches(a, k)| > 0 && |Matches(b, k)| > 0
    ensures KeyCount(JoinAll([a, b]), k) == |Matches(a, k)| * |Matches(b, k)|
  {
    assert [a, b][..1] == [a];
    SingleKeyCount(a, k);
    OuterMergeKeyCount(Single(a), 1, b, k);
  }

  /** Two rows by two rows sharing one key join to four rows. */
  lemma DuplicateKeysExample(a: Table, b: Table)
    requires a == [Record("x.png", 10.0), Record("x.png", 20.0)]
    requires b == [Record("x.png", 30.0), Record("x.png", 40.0)]
    ensures KeyCount(JoinAll([a, b]), "x.png") == 4
  {
    assert Matches(a, "x.png") == [10.0, 20.0] by {
      assert a[1..] == [Record("x.png", 20.0)] && a[1..][1..] == [];
      assert Matches(a[1..], "x.png") == [20.0];
    }
    assert Matches(b, "x.png") == [30.0, 40.0] by {
      assert b[1..] == [Record("x.png", 40.0)] && b[1..][1..] == [];
      assert Matches(b[1..], "x.png") == [40.0];
    }
    DuplicateKeysMultiply(a, b, "x.png");
  }

  // ---------- mean and bucket ----------

  function CountPresent(ps: seq<Option<real>>): (n: nat)
    ensures n <= |ps|
    ensures n == 0 <==> forall i :: 0 <= i < |ps| ==> ps[i].None?
  {
    if |ps| == 0 then 0 else (if ps[0].Some? then 1 else 0) + CountPresent(ps[1..])
  }

  function SumPresent(ps: seq<Option<real>>): real {
    if |ps| == 0 then 0.0 else ps[0].GetOr(0.0) + SumPresent(ps[1..])
  }

  /** `mean(axis=1, skipna=True)`: the mean of the present cells, missing when none is. */
  function MeanSkip(ps: seq<Option<real>>): (m: Option<real>)
    ensures m.None? <==> forall i :: 0 <= i < |ps| ==> ps[i].None?
  {
    var n := CountPresent(ps);
    if n == 0 then None else Some(SumPresent(ps) / n as real)
  }

  /** `n` copies of `x` added up. */
  function Times(x: real, n: nat): real {
    if n == 0 then 0.0 else x + Times(x, n - 1)
  }

  lemma {:induction false} TimesIsProduct(x: real, n: nat)
    ensures Times(x, n) == x * n as real
  {
    if n > 0 {
      TimesIsProduct(x, n - 1);
      assert x * n as real == x * (n - 1) as real + x;
    }
  }

  /** The present cells bound the sum. */
  lemma {:induction false} SumBetween(ps: seq<Option<real>>, lo: real, hi: real)
    requires forall i :: 0 <= i < |ps| && ps[i].Some? ==> lo <= ps[i].value <= hi
    ensures Times(lo, CountPresent(ps)) <= SumPresent(ps) <= Times(hi, CountPresent(ps))
  {
    if |ps| > 0 {
      var rest := ps[1..];
      forall i | 0 <= i < |rest| && rest[i].Some? ensures lo <= rest[i].value <= hi {
        assert rest[i] == ps[i + 1];
      }
      SumBetween(rest, lo, hi);
    }
  }

  lemma DivBetween(s: real, n: real, lo: real, hi: real)
    requires n > 0.0 && lo * n <= s <= hi * n
    ensures lo <= s / n <= hi
  {
  }

  /** The mean lies between the smallest and the largest present value. */
  lemma MeanBetween(ps: seq<Option<real>>, lo: real, hi: real)
    requires forall i :: 0 <= i < |ps| && ps[i].Some? ==> lo <= ps[i].value <= hi
    requires MeanSkip(ps).Some?
    ensures lo <= MeanSkip(ps).value <= hi
  {
    var n := CountPresent(ps);
    var sum := SumPresent(ps);
    assert n > 0 && MeanSkip(ps).value == sum / n as real;
    assert lo * n as real <= sum <= hi * n as real by {
      SumBetween(ps, lo, hi);
      TimesIsProduct(lo, n);
      TimesIsProduct(hi, n);
    }
    DivBetween(sum, n as real, lo, hi);
  }

  /** With exactly one present cell, the mean is that cell. */
  lemma MeanOfOne(ps: seq<Option<real>>, k: int)
    requires 0 <= k < |ps| && ps[k].Some?
    requires forall i :: 0 <= i < |ps| && i != k ==> ps[i].None?
    ensures MeanSkip(ps) == ps[k]
  {
    SumBetween(ps, ps[k].value, ps[k].value);
    OnlyOneCounted(ps, k);
  }

  lemma {:induction false} OnlyOneCounted(ps: seq<Option<real>>, k: int)
    requires 0 <= k < |ps| && ps[k].Some?
    requires forall i :: 0 <= i < |ps| && i != k ==> ps[i].None?
    ensures CountPresent(ps) == 1
  {
    if k > 0 {
      assert ps[1..][k - 1] == ps[k];
      OnlyOneCounted(ps[1..], k - 1);
    } else {
      assert forall i :: 0 <= i < |ps| - 1 ==> ps[1..][i] == ps[i + 1];
    }
  }

  /** `bucket_mean`: the bucket's label, or "" when there is no mean. */
  function BucketMean(m: Option<real>): (b: string)
    ensures b == "" <==> m.None?
  {
    match m
    case Some(v) => Label(BucketFromP(v))
    case None => ""
  }

  function Summarize(rows: seq<Joined>): (out: seq<MergedRow>)
    ensures |out| == |rows|
    ensures forall i :: 0 <= i < |rows| ==> out[i].filename == rows[i].filename && out[i].ps == rows[i].ps
    ensures forall i :: 0 <= i < |rows| ==> out[i].pMean == MeanSkip(rows[i].ps)
                                            && out[i].bucketMean == BucketMean(out[i].pMean)
  {
    seq(|rows|, i requires 0 <= i < |rows| =>
      var m := MeanSkip(rows[i].ps);
      MergedRow(rows[i].filename, rows[i].ps, m, BucketMean(m)))
  }

  // ---------- sorting and the whole merge ----------

  /** The order of `sort_values("p_mean", ascending=False, na_position="last")` on means:
      `a` may come before `b` when `b` is missing or `a` is present and at least `b`. Both
      the merger and the report sort by it. */
  predicate MeanFirst(a: Option<real>, b: Option<real>) {
    b.None? || (a.Some? && a.value >= b.value)
  }

  lemma MeanFirstPreorder()
    ensures TotalPreorder(MeanFirst)
  {
  }

  predicate ByMeanDesc(a: MergedRow, b: MergedRow) {
    MeanFirst(a.pMean, b.pMean)
  }

  lemma ByMeanDescPreorder()
    ensures TotalPreorder(ByMeanDesc)
  {
    MeanFirstPreorder();
  }

  /** In a table sorted this way, rows without a mean come after all others and the means
      of the others descend. */
  lemma MissingMeansLast(rows: seq<MergedRow>, i: int, j: int)
    requires Sorted(rows, ByMeanDesc)
    requires 0 <= i < j < |rows|
    ensures rows[i].pMean.None? ==> rows[j].pMean.None?
    ensures rows[i].pMean.Some? && rows[j].pMean.Some? ==> rows[i].pMean.value >= rows[j].pMean.value
  {
    assert ByMeanDesc(rows[i], rows[j]);
  }

  /** The tables read for the selected engines, in column order. */
  function Tables(args: MergeArgs, files: string -> Option<Table>): (ts: seq<Table>)
    ensures |ts| == |Selected(args)|
  {
    var es := Selected(args);
    seq(|es|, k requires 0 <= k < |es| => ReadOptional(PathOf(args, es[k]), files))
  }

  /** The whole merge: stop when no input is named; otherwise join the tables of the named
      inputs, add the mean and its bucket, and sort. */
  function MergeMain(args: MergeArgs, files: string -> Option<Table>): (r: Result<Merged, MergeError>)
    ensures r.Err? <==> args.aws == "" && args.facepp == "" && args.facenet == "" && args.deepface == ""
    ensures r.Ok? ==> r.value.engines == Selected(args) && Sorted(r.value.rows, ByMeanDesc)
    ensures r.Ok? ==> multiset(r.value.rows) == multiset(Summarize(JoinAll(Tables(args, files))))
  {
    var es := Selected(args);
    if |es| == 0 then
      assert Aws !in es && FacePP !in es && FaceNet !in es && DeepFace !in es;
      Err(NoInputs)
    else
      assert es[0] in es;
      var rows := Summarize(JoinAll(Tables(args, files)));
      ByMeanDescPreorder();
      SortSorted(rows, ByMeanDesc);
      Ok(Merged(es, Sort(rows, ByMeanDesc)))
  }

  /** The example: A = {img1: 80}, B = {img1: 60, img2: 90} gives img1 a mean of 70 and img2
      a mean of 90. */
  lemma MergeExample(a: Table, b: Table)
    requires a == [Record("img1", 80.0)]
    requires b == [Record("img1", 60.0), Record("img2", 90.0)]
    ensures var rows := Summarize(JoinAll([a, b]));
            |rows| == 2
            && rows[0] == MergedRow("img1", [Some(80.0), Some(60.0)], Some(70.0), "Warning")
            && rows[1] == MergedRow("img2", [None, Some(90.0)], Some(90.0), "High-Risk")
  {
    assert [a, b][..1] == [a];
    var l := JoinAll([a]);
    assert l == [Joined("img1", [Some(80.0)])];
    var tail := b[1..];
    assert tail == [Record("img2", 90.0)];
    assert Matches(b, "img1") == [60.0] by {
      assert Matches(tail[1..], "img1") == [];
      assert Matches(tail, "img1") == [];
    }
    assert MergeLeft(l, b) == [Joined("img1", [Some(80.0), Some(60.0)])] by {
      assert [Some(80.0)] + [Some(60.0)] == [Some(80.0), Some(60.0)];
      assert Extend(l[0], [60.0]) == [Joined("img1", [Some(80.0), Some(60.0)])];
      assert MergeLeft(l[1..], b) == [];
    }
    assert RowKeys(l) == {"img1"};
    assert RightOnly(b, RowKeys(l), 1) == [Joined("img2", [None, Some(90.0)])] by {
      assert "img2" != "img1";
      assert RightOnly(tail[1..], RowKeys(l), 1) == [];
      assert RightOnly(tail, RowKeys(l), 1) == [Joined("img2", Nones(1) + [Some(90.0)])];
      assert Nones(1) + [Some(90.0)] == [None, Some(90.0)];
    }
    var joined := JoinAll([a, b]);
    assert joined == [Joined("img1", [Some(80.0), Some(60.0)]), Joined("img2", [None, Some(90.0)])];
    assert CountPresent([Some(80.0), Some(60.0)]) == 2;
    assert SumPresent([Some(80.0), Some(60.0)]) == 140.0;
    assert CountPresent([None, Some(90.0)]) == 1;
    assert SumPresent([None, Some(90.0)]) == 90.0;
  }
}
