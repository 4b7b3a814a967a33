/** The result of sorting with a comparison that is a total order: what the calls to qsort stand for. */
module Sorting {
  ghost predicate TotalPreorder<T(!new)>(le: (T, T) -> bool) {
    && (forall a, b :: le(a, b) || le(b, a))
    && (forall a, b, c :: le(a, b) && le(b, c) ==> le(a, c))
  }

  ghost predicate Sorted<T>(le: (T, T) -> bool, s: seq<T>) {
    forall i, j :: 0 <= i < j < |s| ==> le(s[i], s[j])
  }

  function Insert<T>(le: (T, T) -> bool, x: T, sorted: seq<T>): seq<T> {
    if sorted == [] || le(x, sorted[0]) then [x] + sorted
    else [sorted[0]] + Insert(le, x, sorted[1..])
  }

  function Sort<T(==)>(le: (T, T) -> bool, s: seq<T>): (r: seq<T>)
    ensures multiset(r) == multiset(s)
    ensures |r| == |s|
  {
    if s == [] then []
    else
      InsertKeepsAll(le, s[0], Sort(le, s[1..]));
      assert s == [s[0]] + s[1..];
      Insert(le, s[0], Sort(le, s[1..]))
  }

  lemma {:induction false} InsertKeepsAll<T>(le: (T, T) -> bool, x: T, sorted: seq<T>)
    ensures multiset(Insert(le, x, sorted)) == multiset{x} + multiset(sorted)
    ensures |Insert(le, x, sorted)| == |sorted| + 1
  {
    if sorted != [] && !le(x, sorted[0]) {
      InsertKeepsAll(le, x, sorted[1..]);
      assert sorted == [sorted[0]] + sorted[1..];
    }
  }

  lemma InsertMembers<T>(le: (T, T) -> bool, x: T, sorted: seq<T>)
    ensures forall y :: y in Insert(le, x, sorted) <==> y == x || y in sorted
  {
    InsertKeepsAll(le, x, sorted);
    assert forall y :: y in Insert(le, x, sorted) <==> y in multiset(Insert(le, x, sorted));
  }

  lemma InsertMember<T>(le: (T, T) -> bool, x: T, sorted: seq<T>, j: nat)
    requires j < |Insert(le, x, sorted)|
    ensures Insert(le, x, sorted)[j] == x || Insert(le, x, sorted)[j] in sorted
  {
    InsertKeepsAll(le, x, sorted);
    assert Insert(le, x, sorted)[j] in multiset(Insert(le, x, sorted));
  }

  lemma SortMember<T>(le: (T, T) -> bool, s: seq<T>, y: T)
    requires y in Sort(le, s)
    ensures y in s
  {
    assert y in multiset(Sort(le, s));
  }

  lemma SortMembers<T>(le: (T, T) -> bool, s: seq<T>)
    ensures forall y :: y in Sort(le, s) <==> y in s
  {
    assert forall y :: y in Sort(le, s) <==> y in multiset(Sort(le, s));
  }

  lemma {:induction false} InsertSorts<T(!new)>(le: (T, T) -> bool, x: T, sorted: seq<T>)
    requires TotalPreorder(le) && Sorted(le, sorted)
    ensures Sorted(le, Insert(le, x, sorted))
  {
    if sorted != [] && !le(x, sorted[0]) {
      InsertSorts(le, x, sorted[1..]);
      InsertMembers(le, x, sorted[1..]);
      var rest := Insert(le, x, sorted[1..]);
      forall j | 0 <= j < |rest| ensures le(sorted[0], rest[j]) {
        assert rest[j] in rest;
      }
    }
  }

  lemma {:induction false} SortSorts<T(!new)>(le: (T, T) -> bool, s: seq<T>)
    requires TotalPreorder(le)
    ensures Sorted(le, Sort(le, s))
  {
    if s != [] {
      SortSorts(le, s[1..]);
      InsertSorts(le, s[0], Sort(le, s[1..]));
    }
  }

  lemma {:induction false} SortOfSorted<T>(le: (T, T) -> bool, s: seq<T>)
    requires Sorted(le, s)
    ensures Sort(le, s) == s
  {
    if s != [] {
      SortOfSorted(le, s[1..]);
    }
  }

  /** Sorting keeps elements apart that some key tells apart. */
  ghost predicate Apart<T, K>(key: T -> K, s: seq<T>) {
    forall i, j :: 0 <= i < j < |s| ==> key(s[i]) != key(s[j])
  }

  lemma FirstIsApart<T, K>(key: T -> K, s: seq<T>, y: T)
    requires Apart(key, s) && s != [] && y in s[1..]
    ensures key(y) != key(s[0])
  {
    var i :| 0 <= i < |s| - 1 && s[1..][i] == y;
    assert s[i + 1] == y;
  }

  lemma {:induction false} InsertKeepsApart<T, K>(le: (T, T) -> bool, key: T -> K, x: T, sorted: seq<T>)
    requires Apart(key, sorted) && forall y :: y in sorted ==> key(y) != key(x)
    ensures Apart(key, Insert(le, x, sorted))
  {
    if sorted != [] && !le(x, sorted[0]) {
      InsertKeepsApart(le, key, x, sorted[1..]);
      InsertMembers(le, x, sorted[1..]);
      var rest := Insert(le, x, sorted[1..]);
      assert sorted[0] in sorted;
      forall j | 0 <= j < |rest| ensures key(rest[j]) != key(sorted[0]) {
        InsertMember(le, x, sorted[1..], j);
        if rest[j] in sorted[1..] {
          FirstIsApart(key, sorted, rest[j]);
        } else {
          assert rest[j] == x;
        }
      }
    }
  }

  lemma {:induction false} SortKeepsApart<T, K>(le: (T, T) -> bool, key: T -> K, s: seq<T>)
    requires Apart(key, s)
    ensures Apart(key, Sort(le, s))
  {
    if s != [] {
      SortKeepsApart(le, key, s[1..]);
      SortMembers(le, s[1..]);
      forall y | y in Sort(le, s[1..]) ensures key(y) != key(s[0]) {
        SortMember(le, s[1..], y);
        FirstIsApart(key, s, y);
      }
      InsertKeepsApart(le, key, s[0], Sort(le, s[1..]));
    }
  }

  lemma Reassociate<T>(a: seq<T>, x: T, b: seq<T>)
    ensures a + [x] + b == a + ([x] + b)
  {
  }
}
