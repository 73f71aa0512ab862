/** Sorting and string order: what `sort.Strings` and `sort.Slice` promise their callers. */
module Order {
  import opened Basics

  /** Go's `<=` on strings. */
  predicate StringLeq(a: string, b: string) {
    a == [] || (b != [] && (a[0] < b[0] || (a[0] == b[0] && StringLeq(a[1..], b[1..]))))
  }

  lemma {:induction false} StringLeqTotal(a: string, b: string)
    ensures StringLeq(a, b) || StringLeq(b, a)
  {
    if a != [] && b != [] && a[0] == b[0] {
      StringLeqTotal(a[1..], b[1..]);
    }
  }

  lemma {:induction false} StringLeqTransitive(a: string, b: string, c: string)
    requires StringLeq(a, b) && StringLeq(b, c)
    ensures StringLeq(a, c)
  {
    if a != [] && b != [] && c != [] && a[0] == b[0] == c[0] {
      StringLeqTransitive(a[1..], b[1..], c[1..]);
    }
  }

  lemma {:induction false} StringLeqAntisymmetric(a: string, b: string)
    requires StringLeq(a, b) && StringLeq(b, a)
    ensures a == b
  {
    if a != [] && b != [] {
      StringLeqAntisymmetric(a[1..], b[1..]);
      assert a == [a[0]] + a[1..] && b == [b[0]] + b[1..];
    }
  }

  /** The order by itself: the first difference decides, and a proper beginning comes first. */
  ghost predicate ComesFirst(a: string, b: string) {
    || (|a| < |b| && a == b[..|a|])
    || exists i :: 0 <= i < |a| && i < |b| && a[..i] == b[..i] && a[i] < b[i]
  }

  lemma {:induction false} StringLeqIff(a: string, b: string)
    ensures StringLeq(a, b) <==> a == b || ComesFirst(a, b)
  {
    if a != [] && b != [] {
      StringLeqIff(a[1..], b[1..]);
      FirstCharacter(a, b);
    }
  }

  lemma ComesFirstIsStrict(a: string, b: string)
    requires ComesFirst(a, b)
    ensures !StringLeq(b, a)
  {
    StringLeqIff(a, b);
    if StringLeq(b, a) {
      StringLeqAntisymmetric(a, b);
      assert false;
    }
  }

  lemma FirstCharacter(a: string, b: string)
    requires a != [] && b != []
    ensures a == b || ComesFirst(a, b)
       <==> a[0] < b[0] || (a[0] == b[0] && (a[1..] == b[1..] || ComesFirst(a[1..], b[1..])))
  {
    assert a == [a[0]] + a[1..] && b == [b[0]] + b[1..];
    if a[0] < b[0] { assert a[..0] == b[..0]; }
    if a[0] == b[0] && ComesFirst(a[1..], b[1..]) { WithCharacter(a, b); }
    if a[0] == b[0] && ComesFirst(a, b) { WithoutCharacter(a, b); }
    assert forall i :: 0 < i < |a| && i < |b| && a[..i] == b[..i] ==> a[..i][0] == b[..i][0];
  }

  lemma WithCharacter(a: string, b: string)
    requires a != [] && b != [] && a[0] == b[0] && ComesFirst(a[1..], b[1..])
    ensures ComesFirst(a, b)
  {
    if i :| 0 <= i < |a[1..]| && i < |b[1..]| && a[1..][..i] == b[1..][..i] && a[1..][i] < b[1..][i] {
      assert a[..i + 1] == [a[0]] + a[1..][..i] && b[..i + 1] == [b[0]] + b[1..][..i];
      assert a[i + 1] < b[i + 1];
    } else {
      assert b[..|a|] == [b[0]] + b[1..][..|a| - 1];
      assert a == [a[0]] + a[1..];
    }
  }

  lemma WithoutCharacter(a: string, b: string)
    requires a != [] && b != [] && a[0] == b[0] && ComesFirst(a, b)
    ensures ComesFirst(a[1..], b[1..])
  {
    if i :| 0 <= i < |a| && i < |b| && a[..i] == b[..i] && a[i] < b[i] {
      assert a[1..][..i - 1] == a[..i][1..] && b[1..][..i - 1] == b[..i][1..];
      assert a[1..][i - 1] < b[1..][i - 1];
    } else {
      assert a[1..] == b[..|a|][1..] == b[1..][..|a| - 1];
    }
  }

  ghost predicate TotalOrder<T(!new)>(leq: (T, T) -> bool) {
    && (forall x, y :: leq(x, y) || leq(y, x))
    && (forall x, y, z :: leq(x, y) && leq(y, z) ==> leq(x, z))
  }

  ghost predicate SortedBy<T>(leq: (T, T) -> bool, s: seq<T>) {
    forall i, j :: 0 <= i < j < |s| ==> leq(s[i], s[j])
  }

  function InsertBy<T>(leq: (T, T) -> bool, x: T, s: seq<T>): seq<T> {
    if s == [] || leq(x, s[0]) then [x] + s else [s[0]] + InsertBy(leq, x, s[1..])
  }

  /** A stable sort. */
  function SortBy<T>(leq: (T, T) -> bool, s: seq<T>): seq<T> {
    if s == [] then [] else InsertBy(leq, s[0], SortBy(leq, s[1..]))
  }

  lemma {:induction false} InsertByElements<T>(leq: (T, T) -> bool, x: T, s: seq<T>)
    ensures multiset(InsertBy(leq, x, s)) == multiset{x} + multiset(s)
  {
    if s != [] && !leq(x, s[0]) {
      InsertByElements(leq, x, s[1..]);
      assert s == [s[0]] + s[1..];
    }
  }

  lemma {:induction false} SortByPermutes<T>(leq: (T, T) -> bool, s: seq<T>)
    ensures multiset(SortBy(leq, s)) == multiset(s)
    ensures |SortBy(leq, s)| == |s|
  {
    if s != [] {
      SortByPermutes(leq, s[1..]);
      InsertByElements(leq, s[0], SortBy(leq, s[1..]));
      assert s == [s[0]] + s[1..];
    }
    assert |multiset(SortBy(leq, s))| == |multiset(s)|;
  }

  lemma {:induction false} InsertBySorted<T(!new)>(leq: (T, T) -> bool, x: T, s: seq<T>)
    requires TotalOrder(leq) && SortedBy(leq, s)
    ensures SortedBy(leq, InsertBy(leq, x, s))
  {
    if s != [] && !leq(x, s[0]) {
      var rest := InsertBy(leq, x, s[1..]);
      InsertBySorted(leq, x, s[1..]);
      InsertByElements(leq, x, s[1..]);
      forall j | 0 <= j < |rest|
        ensures leq(s[0], rest[j])
      {
        assert rest[j] in multiset(rest);
        assert rest[j] == x || rest[j] in s[1..];
      }
    }
  }

  lemma {:induction false} SortBySorted<T(!new)>(leq: (T, T) -> bool, s: seq<T>)
    requires TotalOrder(leq)
    ensures SortedBy(leq, SortBy(leq, s))
  {
    if s != [] {
      SortBySorted(leq, s[1..]);
      InsertBySorted(leq, s[0], SortBy(leq, s[1..]));
    }
  }

  /** Of two elements the sort puts the strictly smaller one first. */
  lemma SortByOrders<T(!new)>(leq: (T, T) -> bool, s: seq<T>, x: T, y: T) returns (i: nat, j: nat)
    requires TotalOrder(leq) && x in s && y in s && !leq(y, x)
    ensures i < j < |SortBy(leq, s)| && SortBy(leq, s)[i] == x && SortBy(leq, s)[j] == y
  {
    var sorted := SortBy(leq, s);
    SortByPermutes(leq, s);
    SortBySorted(leq, s);
    assert x in multiset(sorted) && y in multiset(sorted);
    i :| 0 <= i < |sorted| && sorted[i] == x;
    j :| 0 <= j < |sorted| && sorted[j] == y;
    assert leq(x, x);
  }

  /** Elements the order cannot tell apart are the same element. */
  ghost predicate TiesEqual<T>(leq: (T, T) -> bool, s: seq<T>) {
    forall i, j :: 0 <= i < |s| && 0 <= j < |s| && leq(s[i], s[j]) && leq(s[j], s[i]) ==> s[i] == s[j]
  }

  lemma SortedHeadsAgree<T>(leq: (T, T) -> bool, a: seq<T>, b: seq<T>)
    requires SortedBy(leq, a) && SortedBy(leq, b) && TiesEqual(leq, a)
    requires multiset(a) == multiset(b) && a != [] && b != []
    ensures a[0] == b[0]
  {
    assert a[0] in multiset(b) && b[0] in multiset(a);
    var i :| 0 <= i < |b| && b[i] == a[0];
    var j :| 0 <= j < |a| && a[j] == b[0];
    if i != 0 && j != 0 {
      assert leq(a[0], a[j]) && leq(b[0], b[i]);
    }
  }

  lemma TailElements<T>(s: seq<T>)
    requires s != []
    ensures multiset(s[1..]) == multiset(s) - multiset{s[0]}
  {
    assert s == [s[0]] + s[1..];
  }

  /** Two sorted arrangements of the same elements are the same, when ties are equal. */
  lemma {:induction false} SortedArrangementUnique<T>(leq: (T, T) -> bool, a: seq<T>, b: seq<T>)
    requires SortedBy(leq, a) && SortedBy(leq, b) && TiesEqual(leq, a) && multiset(a) == multiset(b)
    ensures a == b
  {
    assert |a| == |multiset(a)| == |multiset(b)| == |b|;
    if a != [] {
      SortedHeadsAgree(leq, a, b);
      TailElements(a);
      TailElements(b);
      SortedArrangementUnique(leq, a[1..], b[1..]);
      assert a == [a[0]] + a[1..] && b == [b[0]] + b[1..];
    }
  }

  /** Sorting forgets the order the elements came in. */
  lemma SortForgetsOrder<T(!new)>(leq: (T, T) -> bool, a: seq<T>, b: seq<T>)
    requires TotalOrder(leq) && multiset(a) == multiset(b) && TiesEqual(leq, a)
    ensures SortBy(leq, a) == SortBy(leq, b)
  {
    var sorted := SortBy(leq, a);
    SortByPermutes(leq, a);
    SortByPermutes(leq, b);
    SortBySorted(leq, a);
    SortBySorted(leq, b);
    forall i | 0 <= i < |sorted|
      ensures sorted[i] in a
    {
      assert sorted[i] in multiset(sorted);
    }
    SortedArrangementUnique(leq, sorted, SortBy(leq, b));
  }

  lemma StringOrderIsTotal()
    ensures TotalOrder(StringLeq)
  {
    forall x: string, y: string
      ensures StringLeq(x, y) || StringLeq(y, x)
    {
      StringLeqTotal(x, y);
    }
    forall x: string, y: string, z: string | StringLeq(x, y) && StringLeq(y, z)
      ensures StringLeq(x, z)
    {
      StringLeqTransitive(x, y, z);
    }
  }

  function Filter<T>(keep: T -> bool, s: seq<T>): seq<T> {
    if s == [] then [] else (if keep(s[0]) then [s[0]] else []) + Filter(keep, s[1..])
  }

  lemma {:induction false} FilterMembers<T>(keep: T -> bool, s: seq<T>, x: T)
    ensures x in Filter(keep, s) <==> x in s && keep(x)
  {
    if s != [] {
      FilterMembers(keep, s[1..], x);
      assert s == [s[0]] + s[1..];
    }
  }

  lemma {:induction false} FilterConcat<T>(keep: T -> bool, a: seq<T>, b: seq<T>)
    ensures Filter(keep, a + b) == Filter(keep, a) + Filter(keep, b)
  {
    if a == [] {
      assert a + b == b;
    } else {
      FilterConcat(keep, a[1..], b);
      assert (a + b)[1..] == a[1..] + b;
      Regroup(if keep(a[0]) then [a[0]] else [], Filter(keep, a[1..]), Filter(keep, b));
    }
  }

  /** All members of a class of ties are in order with each other, whichever way round. */
  ghost predicate Tied<T(!new)>(leq: (T, T) -> bool, tie: T -> bool, s: seq<T>) {
    forall u, v :: u in s && v in s && tie(u) && tie(v) ==> leq(u, v)
  }

  lemma TiedPart<T(!new)>(leq: (T, T) -> bool, tie: T -> bool, s: seq<T>, part: seq<T>)
    requires Tied(leq, tie, s) && forall u :: u in part ==> u in s
    ensures Tied(leq, tie, part)
  {
  }

  lemma FilterCons<T>(keep: T -> bool, x: T, s: seq<T>)
    ensures Filter(keep, [x] + s) == (if keep(x) then [x] else []) + Filter(keep, s)
  {
    assert ([x] + s)[1..] == s;
  }

  /** A class of ties keeps its own order through an insertion. */
  lemma {:induction false} InsertByStable<T(!new)>(leq: (T, T) -> bool, tie: T -> bool, x: T, s: seq<T>)
    requires Tied(leq, tie, [x] + s)
    ensures Filter(tie, InsertBy(leq, x, s)) == (if tie(x) then [x] else []) + Filter(tie, s)
  {
    if s == [] || leq(x, s[0]) {
      FilterCons(tie, x, s);
    } else {
      TiedPart(leq, tie, [x] + s, [x] + s[1..]);
      InsertByStable(leq, tie, x, s[1..]);
      FilterCons(tie, s[0], InsertBy(leq, x, s[1..]));
      assert x in [x] + s && s[0] in [x] + s;
      assert !(tie(x) && tie(s[0]));
      var rest := Filter(tie, s[1..]);
      if tie(x) {
        assert Filter(tie, s) == rest;
      } else {
        assert Filter(tie, InsertBy(leq, x, s[1..])) == rest;
      }
    }
  }

  /** The sort is stable: each class of ties comes out in the order it went in. */
  lemma {:induction false} SortByStable<T(!new)>(leq: (T, T) -> bool, tie: T -> bool, s: seq<T>)
    requires Tied(leq, tie, s)
    ensures Filter(tie, SortBy(leq, s)) == Filter(tie, s)
  {
    if s != [] {
      TiedPart(leq, tie, s, s[1..]);
      SortByStable(leq, tie, s[1..]);
      SortByPermutes(leq, s[1..]);
      var rest := SortBy(leq, s[1..]);
      forall u | u in [s[0]] + rest
        ensures u in s
      {
        assert u in rest ==> u in multiset(rest);
      }
      TiedPart(leq, tie, s, [s[0]] + rest);
      InsertByStable(leq, tie, s[0], rest);
    }
  }

  lemma {:induction false} FilterCount<T>(keep: T -> bool, s: seq<T>, x: T)
    ensures multiset(Filter(keep, s))[x] == if keep(x) then multiset(s)[x] else 0
  {
    if s != [] {
      FilterCount(keep, s[1..], x);
      assert s == [s[0]] + s[1..];
    }
  }

  lemma FilterCounts<T>(keep: T -> bool, a: seq<T>, b: seq<T>, c: seq<T>, x: T)
    requires multiset(a) == multiset(b) + multiset(c)
    ensures multiset(Filter(keep, a))[x] == multiset(Filter(keep, b))[x] + multiset(Filter(keep, c))[x]
  {
    FilterCount(keep, a, x);
    FilterCount(keep, b, x);
    FilterCount(keep, c, x);
    assert multiset(a)[x] == multiset(b)[x] + multiset(c)[x];
  }

  /** Filtering distributes over a sum of contents. */
  lemma FilterContents<T(!new)>(keep: T -> bool, a: seq<T>, b: seq<T>, c: seq<T>)
    requires multiset(a) == multiset(b) + multiset(c)
    ensures multiset(Filter(keep, a)) == multiset(Filter(keep, b)) + multiset(Filter(keep, c))
  {
    forall x: T
      ensures multiset(Filter(keep, a))[x] == multiset(Filter(keep, b))[x] + multiset(Filter(keep, c))[x]
    {
      FilterCounts(keep, a, b, c, x);
    }
  }
}
