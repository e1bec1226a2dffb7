/** Small vocabulary shared by the models: optional values, outcomes, and facts about finite
    sequences and sets. */
module Common {

  datatype Option<+T> = None | Some(value: T)

  datatype Result<+T, +E> = Ok(value: T) | Err(error: E)

  ghost predicate Distinct<T>(s: seq<T>) {
    forall i, j :: 0 <= i < j < |s| ==> s[i] != s[j]
  }

  lemma DistinctAt<T>(s: seq<T>, i: nat, j: nat)
    requires Distinct(s) && i < |s| && j < |s|
    ensures s[i] == s[j] <==> i == j
  {
    if i < j { assert s[i] != s[j]; }
    if j < i { assert s[j] != s[i]; }
  }

  /** The sequence with f applied to every element. */
  function Mapped<A, B>(s: seq<A>, f: A -> B): (r: seq<B>)
    ensures |r| == |s|
    ensures forall i :: 0 <= i < |s| ==> r[i] == f(s[i])
  {
    if s == [] then [] else [f(s[0])] + Mapped(s[1..], f)
  }

  /** 0, 1, ..., n - 1. */
  function Range(n: nat): (r: seq<nat>)
    ensures |r| == n
    ensures forall i :: 0 <= i < n ==> r[i] == i
  {
    if n == 0 then [] else Range(n - 1) + [n - 1]
  }

  ghost function Elements<T>(s: seq<T>): set<T> {
    set x | x in s
  }

  lemma {:induction false} DistinctSize<T>(s: seq<T>)
    requires Distinct(s)
    ensures |Elements(s)| == |s|
  {
    if s != [] {
      DistinctSize(s[1..]);
      assert Elements(s) == {s[0]} + Elements(s[1..]);
      assert s[0] !in s[1..];
    }
  }

  /** Two duplicate-free lists of the same things are equally long. */
  lemma SameElementsSameLength<T>(a: seq<T>, b: seq<T>)
    requires Distinct(a) && Distinct(b)
    requires forall x :: x in a <==> x in b
    ensures |a| == |b|
  {
    DistinctSize(a);
    DistinctSize(b);
    assert Elements(a) == Elements(b);
  }

  lemma {:induction false} SubsetSize<T>(a: set<T>, b: set<T>)
    requires a <= b
    ensures |a| <= |b|
    ensures |a| == |b| ==> a == b
  {
    if a != {} {
      var x :| x in a;
      SubsetSize(a - {x}, b - {x});
    }
  }

  /** The image of a set under an injective function is as large as the set. */
  lemma {:induction false} ImageSize<A(!new), B>(dom: set<A>, f: A -> B, img: set<B>)
    requires img == set a | a in dom :: f(a)
    requires forall a, b :: a in dom && b in dom && f(a) == f(b) ==> a == b
    ensures |img| == |dom|
  {
    if dom != {} {
      var a :| a in dom;
      var rest := set x | x in dom - {a} :: f(x);
      assert f(a) !in rest;
      assert img == rest + {f(a)};
      ImageSize(dom - {a}, f, rest);
    }
  }

  lemma MultisetMember<T>(a: seq<T>, b: seq<T>)
    requires multiset(a) == multiset(b)
    ensures |a| == |b|
    ensures forall x :: x in a <==> x in b
  {
    assert |multiset(a)| == |a|;
    assert |multiset(b)| == |b|;
    forall x ensures x in a <==> x in b {
      assert x in a <==> x in multiset(a);
      assert x in b <==> x in multiset(b);
    }
  }

  lemma MultisetOfThree<T>(a: seq<T>, x: T, b: seq<T>)
    requires x !in a && x !in b
    ensures multiset(a + [x] + b)[x] == 1
  {
    assert multiset(a + [x] + b) == multiset(a) + multiset{x} + multiset(b);
  }

  lemma DistinctMultiset<T>(a: seq<T>)
    requires Distinct(a)
    ensures forall x :: multiset(a)[x] <= 1
  {
    forall x ensures multiset(a)[x] <= 1 {
      if x in a {
        var i :| 0 <= i < |a| && a[i] == x;
        assert a == a[..i] + [x] + a[i + 1..];
        assert x !in a[..i] && x !in a[i + 1..];
        MultisetOfThree(a[..i], x, a[i + 1..]);
      }
    }
  }

  lemma RepeatedMultiset<T>(a: seq<T>, i: int, j: int)
    requires 0 <= i < j < |a| && a[i] == a[j]
    ensures multiset(a)[a[i]] >= 2
  {
    assert a == a[..i] + [a[i]] + a[i + 1..j] + [a[j]] + a[j + 1..];
  }

  lemma DistinctTransfers<T>(a: seq<T>, b: seq<T>)
    requires multiset(a) == multiset(b) && Distinct(a)
    ensures Distinct(b)
  {
    DistinctMultiset(a);
    if !Distinct(b) {
      var i, j :| 0 <= i < j < |b| && b[i] == b[j];
      RepeatedMultiset(b, i, j);
    }
  }

  /** Two duplicate-free lists of the same things are permutations of each other. */
  lemma DistinctPermutation<T>(a: seq<T>, b: seq<T>)
    requires Distinct(a) && Distinct(b)
    requires forall x :: x in a <==> x in b
    ensures multiset(a) == multiset(b)
  {
    DistinctMultiset(a);
    DistinctMultiset(b);
    forall x ensures multiset(a)[x] == multiset(b)[x] {
      assert x in multiset(a) <==> x in a;
      assert x in multiset(b) <==> x in b;
    }
  }
}
