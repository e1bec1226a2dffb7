/** Sorting as the library sorts do it: a permutation, in order, stable. The order is given as
    "comes no later than", and an insertion sort stands for whichever algorithm runs, since a
    sorted permutation under an antisymmetric order is unique (SortUnique). */
module Sorting {
  import opened Common

  ghost predicate TotalPreorder<T(!new)>(le: (T, T) -> bool) {
    && (forall x, y :: le(x, y) || le(y, x))
    && (forall x, y, z :: le(x, y) && le(y, z) ==> le(x, z))
  }

  ghost predicate SortedBy<T>(le: (T, T) -> bool, s: seq<T>) {
    forall i, j :: 0 <= i < j < |s| ==> le(s[i], s[j])
  }

  function Insert<T>(x: T, s: seq<T>, le: (T, T) -> bool): seq<T> {
    if s == [] || le(x, s[0]) then [x] + s else [s[0]] + Insert(x, s[1..], le)
  }

  function Sort<T>(s: seq<T>, le: (T, T) -> bool): seq<T> {
    if s == [] then [] else Insert(s[0], Sort(s[1..], le), le)
  }

  lemma {:induction false} InsertPermutes<T>(x: T, s: seq<T>, le: (T, T) -> bool)
    ensures multiset(Insert(x, s, le)) == multiset([x] + s)
  {
    if s != [] && !le(x, s[0]) {
      InsertPermutes(x, s[1..], le);
      assert s == [s[0]] + s[1..];
      assert [x] + s == [x] + [s[0]] + s[1..];
    }
  }

  lemma {:induction false} SortPermutes<T>(s: seq<T>, le: (T, T) -> bool)
    ensures multiset(Sort(s, le)) == multiset(s)
    ensures |Sort(s, le)| == |s|
  {
    if s != [] {
      SortPermutes(s[1..], le);
      InsertPermutes(s[0], Sort(s[1..], le), le);
      assert s == [s[0]] + s[1..];
      assert multiset([s[0]] + Sort(s[1..], le)) == multiset{s[0]} + multiset(s[1..]);
    }
    MultisetMember(Sort(s, le), s);
  }

  lemma InsertAfter<T(!new)>(x: T, s: seq<T>, le: (T, T) -> bool)
    requires TotalPreorder(le) && SortedBy(le, s) && s != [] && !le(x, s[0])
    ensures forall y :: y in Insert(x, s[1..], le) ==> le(s[0], y)
  {
    InsertPermutes(x, s[1..], le);
    var t := Insert(x, s[1..], le);
    MultisetMember(t, [x] + s[1..]);
    forall y | y in t ensures le(s[0], y) {
      if y != x {
        var j :| 0 <= j < |s[1..]| && s[1..][j] == y;
        assert y == s[j + 1];
      }
    }
  }

  lemma {:induction false} InsertSorted<T(!new)>(x: T, s: seq<T>, le: (T, T) -> bool)
    requires TotalPreorder(le) && SortedBy(le, s)
    ensures SortedBy(le, Insert(x, s, le))
  {
    if s != [] && !le(x, s[0]) {
      InsertSorted(x, s[1..], le);
      InsertAfter(x, s, le);
      assert Insert(x, s, le) == [s[0]] + Insert(x, s[1..], le);
    } else if s != [] {
      forall j | 0 <= j < |s| ensures le(x, s[j]) {
        if j > 0 { assert le(s[0], s[j]); }
      }
    }
  }

  lemma {:induction false} SortSorts<T(!new)>(s: seq<T>, le: (T, T) -> bool)
    requires TotalPreorder(le)
    ensures SortedBy(le, Sort(s, le))
  {
    if s != [] {
      SortSorts(s[1..], le);
      InsertSorted(s[0], Sort(s[1..], le), le);
    }
  }

  lemma SortFacts<T(!new)>(s: seq<T>, t: seq<T>, le: (T, T) -> bool)
    requires TotalPreorder(le) && t == Sort(s, le)
    ensures SortedBy(le, t)
    ensures multiset(t) == multiset(s) && |t| == |s|
    ensures forall x :: x in t <==> x in s
    ensures Distinct(s) ==> Distinct(t)
  {
    SortSorts(s, le);
    SortPermutes(s, le);
    MultisetMember(t, s);
    if Distinct(s) { DistinctTransfers(s, t); }
  }

  /** Sorting a renamed list is renaming the sorted list, when the order looks through the
      renaming. */
  lemma {:induction false} InsertMaps<A, B>(x: A, s: seq<A>, f: A -> B, le: (A, A) -> bool, le': (B, B) -> bool)
    requires forall y :: y in s ==> le(x, y) == le'(f(x), f(y))
    ensures Mapped(Insert(x, s, le), f) == Insert(f(x), Mapped(s, f), le')
  {
    if s != [] && !le(x, s[0]) {
      InsertMaps(x, s[1..], f, le, le');
      assert Mapped(s, f)[1..] == Mapped(s[1..], f);
    }
  }

  ghost predicate LooksThrough<A, B>(s: seq<A>, f: A -> B, le: (A, A) -> bool, le': (B, B) -> bool) {
    forall i, j :: 0 <= i < |s| && 0 <= j < |s| ==> le(s[i], s[j]) == le'(f(s[i]), f(s[j]))
  }

  lemma {:induction false} SortMaps<A(!new), B(!new)>(s: seq<A>, f: A -> B, le: (A, A) -> bool, le': (B, B) -> bool)
    requires LooksThrough(s, f, le, le')
    ensures Mapped(Sort(s, le), f) == Sort(Mapped(s, f), le')
  {
    if s != [] {
      var rest, mapped := s[1..], Mapped(s, f);
      SortMaps(rest, f, le, le');
      SortPermutes(rest, le);
      var sorted := Sort(rest, le);
      MultisetMember(sorted, rest);
      forall y | y in sorted ensures le(s[0], y) == le'(f(s[0]), f(y)) {
        assert y in rest;
        var j :| 0 <= j < |rest| && rest[j] == y;
        assert s[j + 1] == y;
      }
      InsertMaps(s[0], sorted, f, le, le');
      assert mapped[1..] == Mapped(rest, f);
      assert Sort(mapped, le') == Insert(mapped[0], Sort(mapped[1..], le'), le');
    }
  }

  lemma TailMultiset<T>(a: seq<T>)
    requires a != []
    ensures multiset(a[1..]) == multiset(a) - multiset{a[0]}
  {
    assert a == [a[0]] + a[1..];
  }

  /** There is one way to put a list in an antisymmetric order. */
  lemma {:induction false} SortUnique<T>(a: seq<T>, b: seq<T>, le: (T, T) -> bool)
    requires multiset(a) == multiset(b)
    requires SortedBy(le, a) && SortedBy(le, b)
    requires forall x, y :: x in a && y in a && le(x, y) && le(y, x) ==> x == y
    ensures a == b
  {
    MultisetMember(a, b);
    if a != [] {
      assert a[0] == b[0] by {
        assert a[0] in b && b[0] in a;
        var i :| 0 <= i < |b| && b[i] == a[0];
        var j :| 0 <= j < |a| && a[j] == b[0];
        assert i == 0 || le(b[0], a[0]);
        assert j == 0 || le(a[0], b[0]);
      }
      TailMultiset(a);
      TailMultiset(b);
      var s, t := a[1..], b[1..];
      assert forall x :: x in s ==> x in a;
      SortUnique(s, t, le);
      assert a == [a[0]] + s && b == [b[0]] + t;
    }
  }

  // ----- Strings, compared byte by byte as the language compares them -----

  predicate StringLe(a: string, b: string) {
    if a == [] then true
    else if b == [] then false
    else if a[0] != b[0] then a[0] < b[0]
    else StringLe(a[1..], b[1..])
  }

  lemma {:induction false} StringLeTotal(a: string, b: string)
    ensures StringLe(a, b) || StringLe(b, a)
    ensures StringLe(a, b) && StringLe(b, a) ==> a == b
  {
    if a != [] && b != [] && a[0] == b[0] {
      StringLeTotal(a[1..], b[1..]);
      assert a == [a[0]] + a[1..] && b == [b[0]] + b[1..];
    }
  }

  lemma {:induction false} StringLeTransitive(a: string, b: string, c: string)
    requires StringLe(a, b) && StringLe(b, c)
    ensures StringLe(a, c)
  {
    if a != [] && b != [] && c != [] && a[0] == b[0] && b[0] == c[0] {
      StringLeTransitive(a[1..], b[1..], c[1..]);
    }
  }
}
