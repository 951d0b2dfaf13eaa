/**
 Byte order on strings and the sorted listing of a finite set under a strict
 total order. A sorted listing is unique, which is what makes every view
 computed through one independent of arrival order.
 */
module Ordering {

  /** Lexicographic order, as Go compares strings and SQLite orders text. */
  predicate StrLess(a: string, b: string) {
    if b == [] then false
    else if a == [] then true
    else if a[0] != b[0] then a[0] < b[0]
    else StrLess(a[1..], b[1..])
  }

  /** At position `k`, the first where the strings part, `a` has ended or has the smaller character. */
  ghost predicate PartsSmaller(a: string, b: string, k: int) {
    && 0 <= k <= |a| && k < |b| && a[..k] == b[..k]
    && (k == |a| || a[k] < b[k])
  }

  /** One string is less than another exactly when it is a proper prefix of it or has the smaller character where they first differ. */
  lemma {:induction false} StrLessExactly(a: string, b: string)
    ensures StrLess(a, b) <==> exists k :: PartsSmaller(a, b, k)
  {
    if b != [] {
      if a == [] {
        assert PartsSmaller(a, b, 0);
      } else if a[0] != b[0] {
        if a[0] < b[0] { assert PartsSmaller(a, b, 0); }
        forall k | PartsSmaller(a, b, k) ensures a[0] < b[0] { SameStart(a, b, k); }
      } else {
        StrLessExactly(a[1..], b[1..]);
        if StrLess(a[1..], b[1..]) {
          var k :| PartsSmaller(a[1..], b[1..], k);
          PartsTail(a, b, k);
        }
        if k :| PartsSmaller(a, b, k) {
          if k > 0 { PartsTail(a, b, k - 1); }
        }
      }
    }
  }

  lemma SameStart(a: string, b: string, k: int)
    requires a != [] && b != [] && PartsSmaller(a, b, k)
    ensures k > 0 ==> a[0] == b[0]
  {
    if k > 0 { assert a[..k][0] == b[..k][0]; }
  }

  lemma PartsTail(a: string, b: string, k: nat)
    requires a != [] && b != [] && a[0] == b[0]
    ensures PartsSmaller(a[1..], b[1..], k) <==> PartsSmaller(a, b, k + 1)
  {
    if k + 1 <= |a| && k + 1 <= |b| {
      assert a[..k + 1] == [a[0]] + a[1..][..k] && b[..k + 1] == [b[0]] + b[1..][..k];
      if a[..k + 1] == b[..k + 1] { assert a[1..][..k] == a[..k + 1][1..] == b[..k + 1][1..] == b[1..][..k]; }
    }
  }

  lemma {:induction false} StrIrreflexive(a: string)
    ensures !StrLess(a, a)
  {
    if a != [] { StrIrreflexive(a[1..]); }
  }

  lemma {:induction false} StrTransitive(a: string, b: string, c: string)
    requires StrLess(a, b) && StrLess(b, c)
    ensures StrLess(a, c)
  {
    if a != [] && a[0] == b[0] && b[0] == c[0] { StrTransitive(a[1..], b[1..], c[1..]); }
  }

  lemma {:induction false} StrTotal(a: string, b: string)
    ensures a == b || StrLess(a, b) || StrLess(b, a)
  {
    if a != [] && b != [] && a[0] == b[0] {
      StrTotal(a[1..], b[1..]);
      assert a == [a[0]] + a[1..] && b == [b[0]] + b[1..];
    }
  }

  lemma StrAsymmetric(a: string, b: string)
    requires StrLess(a, b)
    ensures !StrLess(b, a) && a != b
  {
  }

  /** `less` is a strict total order on the elements of `S`. */
  ghost predicate TotalOn<T(!new)>(less: (T, T) -> bool, S: set<T>) {
    && (forall x :: x in S ==> !less(x, x))
    && (forall x, y :: x in S && y in S && x != y ==> less(x, y) || less(y, x))
    && (forall x, y, z :: x in S && y in S && z in S && less(x, y) && less(y, z) ==> less(x, z))
  }

  ghost predicate Ascending<T(!new)>(s: seq<T>, less: (T, T) -> bool) {
    forall i, j :: 0 <= i < j < |s| ==> less(s[i], s[j])
  }

  ghost predicate Enumerates<T(!new)>(s: seq<T>, S: set<T>, less: (T, T) -> bool) {
    Ascending(s, less) && (forall x :: x in s <==> x in S)
  }

  /** At most one listing of a set is in order. */
  lemma {:induction false} EnumerationUnique<T(!new)>(s: seq<T>, t: seq<T>, S: set<T>, less: (T, T) -> bool)
    requires TotalOn(less, S) && Enumerates(s, S, less) && Enumerates(t, S, less)
    ensures s == t
    decreases |s|
  {
    assert t != [] ==> t[0] in t;
    if s != [] {
      assert s[0] in t;
      assert t[0] in s;
      assert s[0] == t[0];
      TailEnumerates(s, S, less);
      TailEnumerates(t, S, less);
      EnumerationUnique(s[1..], t[1..], S - {s[0]}, less);
      assert s == [s[0]] + s[1..] && t == [t[0]] + t[1..];
    }
  }

  lemma TailEnumerates<T(!new)>(s: seq<T>, S: set<T>, less: (T, T) -> bool)
    requires TotalOn(less, S) && Enumerates(s, S, less) && s != []
    ensures Enumerates(s[1..], S - {s[0]}, less) && TotalOn(less, S - {s[0]})
  {
  }

  // ----- sorting -----

  function Insert<T>(x: T, s: seq<T>, less: (T, T) -> bool): seq<T> {
    if s == [] then [x]
    else if less(s[0], x) then [s[0]] + Insert(x, s[1..], less)
    else [x] + s
  }

  function Sort<T>(s: seq<T>, less: (T, T) -> bool): seq<T> {
    if s == [] then [] else Insert(s[0], Sort(s[1..], less), less)
  }

  lemma {:induction false} InsertMembers<T(!new)>(x: T, s: seq<T>, less: (T, T) -> bool, y: T)
    ensures y in Insert(x, s, less) <==> y == x || y in s
    ensures |Insert(x, s, less)| == |s| + 1
  {
    if s != [] && less(s[0], x) {
      InsertMembers(x, s[1..], less, y);
      assert s == [s[0]] + s[1..];
    }
  }

  lemma {:induction false} InsertAscending<T(!new)>(x: T, s: seq<T>, S: set<T>, less: (T, T) -> bool)
    requires TotalOn(less, S) && x in S && x !in s
    requires Ascending(s, less) && forall y :: y in s ==> y in S
    ensures Ascending(Insert(x, s, less), less)
  {
    if s != [] {
      assert s == [s[0]] + s[1..];
      if less(s[0], x) {
        InsertAscending(x, s[1..], S, less);
        var t := Insert(x, s[1..], less);
        forall i | 0 <= i < |t| ensures less(s[0], t[i]) {
          InsertMembers(x, s[1..], less, t[i]);
          assert t[i] in t;
        }
      } else {
        assert s[0] in S && less(x, s[0]);
        forall i | 0 <= i < |s| ensures less(x, s[i]) { assert s[i] in S; }
      }
    }
  }

  predicate Distinct<T(==)>(s: seq<T>) {
    forall i, j :: 0 <= i < j < |s| ==> s[i] != s[j]
  }

  lemma {:induction false} SortMembers<T(!new)>(s: seq<T>, less: (T, T) -> bool, y: T)
    ensures y in Sort(s, less) <==> y in s
    ensures |Sort(s, less)| == |s|
  {
    if s != [] {
      SortMembers(s[1..], less, y);
      InsertMembers(s[0], Sort(s[1..], less), less, y);
      assert s == [s[0]] + s[1..];
    }
  }

  lemma {:induction false} SortAscending<T(!new)>(s: seq<T>, S: set<T>, less: (T, T) -> bool)
    requires TotalOn(less, S) && Distinct(s) && forall y :: y in s ==> y in S
    ensures Ascending(Sort(s, less), less)
  {
    if s != [] {
      SortAscending(s[1..], S, less);
      forall y ensures y in Sort(s[1..], less) <==> y in s[1..] { SortMembers(s[1..], less, y); }
      assert s[0] !in s[1..];
      assert s[0] in s;
      InsertAscending(s[0], Sort(s[1..], less), S, less);
    }
  }

  /** Sorting any listing of a set, whatever order it came in, gives the listing in order. */
  lemma SortEnumerates<T(!new)>(s: seq<T>, S: set<T>, less: (T, T) -> bool)
    requires TotalOn(less, S) && Distinct(s) && forall y :: y in s <==> y in S
    ensures Enumerates(Sort(s, less), S, less)
  {
    SortAscending(s, S, less);
    forall y ensures y in Sort(s, less) <==> y in S { SortMembers(s, less, y); }
  }

  ghost function Listing<T(!new)>(S: set<T>): (s: seq<T>)
    ensures Distinct(s) && (forall x :: x in s <==> x in S) && |s| == |S|
  {
    if S == {} then [] else
    var x :| x in S;
    [x] + Listing(S - {x})
  }

  /** The elements of `S` in order. */
  ghost function Enumerate<T(!new)>(S: set<T>, less: (T, T) -> bool): (s: seq<T>)
    requires TotalOn(less, S)
    ensures Enumerates(s, S, less) && |s| == |S|
  {
    SortEnumerates(Listing(S), S, less);
    assert |Sort(Listing(S), less)| == |S| by {
      if S != {} { var x :| x in S; SortMembers(Listing(S), less, x); }
    }
    Sort(Listing(S), less)
  }

  // ----- selecting -----

  function Filter<T>(s: seq<T>, keep: T -> bool): seq<T> {
    if s == [] then [] else (if keep(s[0]) then [s[0]] else []) + Filter(s[1..], keep)
  }

  lemma {:induction false} FilterMembers<T(!new)>(s: seq<T>, keep: T -> bool, x: T)
    ensures x in Filter(s, keep) <==> x in s && keep(x)
  {
    if s != [] {
      FilterMembers(s[1..], keep, x);
      assert s == [s[0]] + s[1..];
    }
  }

  lemma {:induction false} FilterAscending<T(!new)>(s: seq<T>, keep: T -> bool, less: (T, T) -> bool)
    requires Ascending(s, less)
    ensures Ascending(Filter(s, keep), less)
  {
    if s != [] {
      FilterAscending(s[1..], keep, less);
      var rest := Filter(s[1..], keep);
      forall i | 0 <= i < |rest| ensures less(s[0], rest[i]) {
        FilterMembers(s[1..], keep, rest[i]);
        assert rest[i] in rest;
      }
    }
  }

  lemma {:induction false} FilterPlus<T>(s: seq<T>, x: T, keep: T -> bool)
    ensures Filter(s + [x], keep) == Filter(s, keep) + (if keep(x) then [x] else [])
  {
    if s == [] {
      assert s + [x] == [x];
    } else {
      FilterPlus(s[1..], x, keep);
      assert (s + [x])[1..] == s[1..] + [x];
    }
  }
}
