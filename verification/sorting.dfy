/** A stable insertion sort over an arbitrary "may come first" relation, used for the
    directory listing (`sorted(folder.iterdir())`), the runners' `rows.sort(key=p, reverse=True)`
    and the `sort_values` calls of the merger and the report. */
module Sorting {

  ghost predicate Total<T(!new)>(le: (T, T) -> bool) {
    forall a, b :: le(a, b) || le(b, a)
  }

  ghost predicate Transitive<T(!new)>(le: (T, T) -> bool) {
    forall a, b, c :: le(a, b) && le(b, c) ==> le(a, c)
  }

  ghost predicate TotalPreorder<T(!new)>(le: (T, T) -> bool) {
    Total(le) && Transitive(le)
  }

  /** Every element may come before every later one. */
  predicate Sorted<T>(s: seq<T>, le: (T, T) -> bool) {
    forall i, j :: 0 <= i < j < |s| ==> le(s[i], s[j])
  }

  /** `a` and `b` tie under `le`: neither has to come before the other. */
  predicate Tie<T>(le: (T, T) -> bool, a: T, b: T) {
    le(a, b) && le(b, a)
  }

  /** Membership in the tie class of `c`. */
  function TieClass<T>(le: (T, T) -> bool, c: T): T -> bool {
    y => Tie(le, y, c)
  }

  /** The elements of `s` that satisfy `keep`, in their order in `s`. */
  function Filter<T>(s: seq<T>, keep: T -> bool): (r: seq<T>)
    ensures |r| <= |s|
    ensures forall i :: 0 <= i < |r| ==> r[i] in s && keep(r[i])
    ensures forall i :: 0 <= i < |s| && keep(s[i]) ==> s[i] in r
  {
    if |s| == 0 then []
    else if keep(s[0]) then [s[0]] + Filter(s[1..], keep)
    else Filter(s[1..], keep)
  }

  lemma {:induction false} FilterAppend<T>(a: seq<T>, b: seq<T>, keep: T -> bool)
    ensures Filter(a + b, keep) == Filter(a, keep) + Filter(b, keep)
  {
    if |a| > 0 {
      assert (a + b)[1..] == a[1..] + b;
      FilterAppend(a[1..], b, keep);
    } else {
      assert a + b == b;
    }
  }

  /** Two filters that agree on the elements of `s` select the same subsequence. */
  lemma {:induction false} FilterCongruent<T>(s: seq<T>, f: T -> bool, g: T -> bool)
    requires forall i :: 0 <= i < |s| ==> f(s[i]) == g(s[i])
    ensures Filter(s, f) == Filter(s, g)
  {
    if |s| > 0 {
      FilterCongruent(s[1..], f, g);
    }
  }

  /** A stricter filter selects no more elements. */
  lemma {:induction false} FilterNarrower<T>(s: seq<T>, f: T -> bool, g: T -> bool)
    requires forall i :: 0 <= i < |s| && f(s[i]) ==> g(s[i])
    ensures |Filter(s, f)| <= |Filter(s, g)|
  {
    if |s| > 0 {
      FilterNarrower(s[1..], f, g);
    }
  }

  /** `x` placed in front of the first element it may precede. */
  function Insert<T>(x: T, s: seq<T>, le: (T, T) -> bool): (r: seq<T>)
    ensures |r| == |s| + 1
    ensures multiset(r) == multiset(s) + multiset{x}
  {
    if |s| == 0 then [x]
    else if le(x, s[0]) then [x] + s
    else
      var rest := Insert(x, s[1..], le);
      assert s == [s[0]] + s[1..];
      [s[0]] + rest
  }

  /** Insertion sort: each element is inserted, in front of its ties, into the sorted rest. */
  function Sort<T(!new)>(s: seq<T>, le: (T, T) -> bool): (r: seq<T>)
    ensures |r| == |s|
    ensures multiset(r) == multiset(s)
  {
    if |s| == 0 then []
    else
      var rest := Sort(s[1..], le);
      assert s == [s[0]] + s[1..];
      Insert(s[0], rest, le)
  }

  /** Under a total preorder the sort's output is sorted. */
  lemma {:induction false} SortSorted<T(!new)>(s: seq<T>, le: (T, T) -> bool)
    requires TotalPreorder(le)
    ensures Sorted(Sort(s, le), le)
  {
    if |s| > 0 {
      SortSorted(s[1..], le);
      InsertSorted(s[0], Sort(s[1..], le), le);
    }
  }

  lemma {:induction false} InsertSorted<T(!new)>(x: T, s: seq<T>, le: (T, T) -> bool)
    requires TotalPreorder(le)
    requires Sorted(s, le)
    ensures Sorted(Insert(x, s, le), le)
  {
    if |s| > 0 && !le(x, s[0]) {
      var rest := Insert(x, s[1..], le);
      InsertSorted(x, s[1..], le);
      assert le(s[0], x);
      forall z | z in rest
        ensures le(s[0], z)
      {
        assert z in multiset(rest);
        if z != x {
          assert z in multiset(s[1..]);
        }
      }
    }
  }

  /** Inserting `x` keeps the relative order of the elements of any tie class, and puts `x`
      in front of the members of its own class. */
  lemma {:induction false} InsertFilterTie<T(!new)>(x: T, s: seq<T>, le: (T, T) -> bool, c: T)
    requires Transitive(le)
    ensures Filter(Insert(x, s, le), TieClass(le, c))
         == (if Tie(le, x, c) then [x] else []) + Filter(s, TieClass(le, c))
  {
    var keep := TieClass(le, c);
    if |s| > 0 && !le(x, s[0]) {
      InsertFilterTie(x, s[1..], le, c);
      if Tie(le, x, c) {
        assert !keep(s[0]);
      }
    }
  }

  /** The sort is stable: within every tie class the input order is kept. */
  lemma {:induction false} SortStable<T(!new)>(s: seq<T>, le: (T, T) -> bool, c: T)
    requires Transitive(le)
    ensures Filter(Sort(s, le), TieClass(le, c)) == Filter(s, TieClass(le, c))
  {
    if |s| > 0 {
      SortStable(s[1..], le, c);
      InsertFilterTie(s[0], Sort(s[1..], le), le, c);
    }
  }
}
