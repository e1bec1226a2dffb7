/** Whether the mappings read hold each once, for any sort that sorts (internal/access/mapping.go). */
module GroupRolesOnce {
  import opened Common
  import opened Sorting
  import opened Text
  import opened GroupRoles
  import opened GroupRolesRoundTrip
  import opened GroupRolesTyped

  // ----- Compacting what is sorted -----

  /** Nothing stands between two of the same. */
  ghost predicate Together(s: seq<Mapping>) {
    forall i, j, k :: 0 <= i < j < k < |s| && s[i] == s[k] ==> s[j] == s[i]
  }

  lemma TogetherFromFirst(s: seq<Mapping>)
    requires |s| >= 2
    ensures Together(s) <==> Together(s[1..]) && (s[0] == s[1] || s[0] !in s[1..])
  {
    var rest := s[1..];
    assert forall i :: 0 < i < |s| ==> s[i] == rest[i - 1];
    assert forall i :: 0 <= i < |rest| ==> rest[i] == s[i + 1];
    if Together(s) && s[0] in rest {
      var k :| 0 <= k < |rest| && rest[k] == s[0];
      assert k == 0 || s[1] == s[0];
    }
    if Together(rest) && (s[0] == s[1] || s[0] !in rest) {
      forall i, j, k | 0 <= i < j < k < |s| && s[i] == s[k] ensures s[j] == s[i] {
        assert s[k] == rest[k - 1] && s[j] == rest[j - 1];
        if i == 0 {
          assert rest[0] == rest[k - 1];
        } else {
          assert rest[i - 1] == rest[k - 1];
        }
      }
    }
  }

  /** Compacting leaves each once exactly where nothing stands between two of the same. */
  lemma {:induction false} CompactOnceExactlyWhen(s: seq<Mapping>)
    ensures Distinct(Compact(s)) <==> Together(s)
  {
    if |s| >= 2 {
      hide Together;
      CompactOnceExactlyWhen(s[1..]);
      TogetherFromFirst(s);
      CompactKeeps(s[1..]);
      if s[0] != s[1] { DistinctFromFirst(s[0], Compact(s[1..])); }
    }
  }

  lemma DistinctFromFirst(m: Mapping, rest: seq<Mapping>)
    ensures Distinct([m] + rest) <==> Distinct(rest) && m !in rest
  {
    var s := [m] + rest;
    assert forall i :: 0 < i < |s| ==> s[i] == rest[i - 1];
    assert forall i :: 0 <= i < |rest| ==> rest[i] == s[i + 1];
    if m in rest {
      var k :| 0 <= k < |rest| && rest[k] == m;
      assert s[0] == s[k + 1] && !Distinct(s);
    }
  }

  // ----- Mappings that sort alike -----

  ghost predicate TiedTo(all: seq<Mapping>, a: Mapping, b: Mapping) {
    a != b && b in all && multiset(all)[a] >= 2 && SortKey(a) == SortKey(b)
  }

  /** Some mapping is stated twice, and another sorts as it does. */
  ghost predicate Tied(all: seq<Mapping>) {
    exists a, b :: TiedTo(all, a, b)
  }

  /** What some sort makes of them. */
  ghost predicate SortedFrom(all: seq<Mapping>, t: seq<Mapping>) {
    multiset(t) == multiset(all) && SortedBy(ByKey(), t)
  }

  lemma TwoOf(s: seq<Mapping>, i: nat, k: nat)
    requires i < k < |s| && s[i] == s[k]
    ensures multiset(s)[s[i]] >= 2
  {
    assert s == s[..k] + s[k..] && s[k..] == [s[k]] + s[k + 1..];
    assert s[..k][i] == s[i];
    assert multiset(s) == multiset(s[..k]) + multiset([s[k]]) + multiset(s[k + 1..]);
  }

  lemma UntiedIsTogether(all: seq<Mapping>, t: seq<Mapping>)
    requires SortedFrom(all, t) && !Tied(all)
    ensures Together(t)
  {
    hide SortKey;
    forall i, j, k | 0 <= i < j < k < |t| && t[i] == t[k] ensures t[j] == t[i] {
      assert ByKey()(t[i], t[j]) && ByKey()(t[j], t[k]);
      StringLeTotal(SortKey(t[i]), SortKey(t[j]));
      TwoOf(t, i, k);
      MultisetMember(t, all);
      assert !TiedTo(all, t[i], t[j]);
    }
  }

  function Without(s: seq<Mapping>, x: Mapping): seq<Mapping>
    requires x in s
  {
    if s[0] == x then s[1..] else [s[0]] + Without(s[1..], x)
  }

  lemma {:induction false} WithoutLeaves(s: seq<Mapping>, x: Mapping)
    requires x in s
    ensures multiset(Without(s, x)) == multiset(s) - multiset{x}
  {
    assert s == [s[0]] + s[1..];
    if s[0] != x { WithoutLeaves(s[1..], x); }
  }

  /** Where what sorts no earlier than this begins. */
  function From(s: seq<Mapping>, a: Mapping): (q: nat)
    ensures q <= |s|
    ensures forall i :: 0 <= i < q ==> !ByKey()(a, s[i])
    ensures q < |s| ==> ByKey()(a, s[q])
  {
    if s == [] || ByKey()(a, s[0]) then 0 else 1 + From(s[1..], a)
  }

  lemma Spliced<T(!new)>(le: (T, T) -> bool, l: seq<T>, a: T, b: T, r: seq<T>)
    requires SortedBy(le, l) && SortedBy(le, r) && le(a, b)
    requires forall i :: 0 <= i < |l| ==> le(l[i], a) && le(l[i], b)
    requires forall i :: 0 <= i < |r| ==> le(a, r[i]) && le(b, r[i])
    requires forall i, j :: 0 <= i < |l| && 0 <= j < |r| ==> le(l[i], r[j])
    ensures SortedBy(le, l + [a, b] + r)
  {
    var n := |l|;
    var t := l + [a, b] + r;
    forall i, j | 0 <= i < j < |t| ensures le(t[i], t[j]) {
      assert t[i] == if i < n then l[i] else if i == n then a else if i == n + 1 then b else r[i - n - 2];
      assert t[j] == if j < n then l[j] else if j == n then a else if j == n + 1 then b else r[j - n - 2];
    }
  }

  lemma SortAlike(a: Mapping, b: Mapping, m: Mapping)
    requires SortKey(a) == SortKey(b)
    ensures ByKey()(a, b) && ByKey()(a, m) == ByKey()(b, m) && ByKey()(m, a) == ByKey()(m, b)
  {
    StringLeTotal(SortKey(a), SortKey(b));
  }

  /** Two that sort alike may stand, the one then the other, before all that sort no earlier. */
  lemma Inserted(s: seq<Mapping>, a: Mapping, b: Mapping)
    requires SortedBy(ByKey(), s) && SortKey(a) == SortKey(b)
    ensures var q := From(s, a); SortedBy(ByKey(), s[..q] + [a, b] + s[q..])
  {
    var q, le := From(s, a), ByKey();
    ByKeyIsTotal();
    SortAlike(a, b, a);
    forall i | 0 <= i < q ensures le(s[i], a) && le(s[i], b) {
      assert !le(a, s[i]);
      SortAlike(a, b, s[i]);
    }
    forall i | q <= i < |s| ensures le(a, s[i]) && le(b, s[i]) {
      assert le(a, s[q]) && (i == q || le(s[q], s[i]));
      SortAlike(a, b, s[i]);
    }
    hide ByKey, SortKey;
    Spliced(le, s[..q], a, b, s[q..]);
  }

  lemma FromIsNoLater(s: seq<Mapping>, a: Mapping, p: nat)
    requires p < |s| && s[p] == a
    ensures From(s, a) <= p
  {
    StringLeTotal(SortKey(a), SortKey(a));
    assert ByKey()(a, s[p]);
  }

  lemma InsertedApart(s: seq<Mapping>, a: Mapping, b: Mapping)
    requires a in s && a != b
    ensures var q := From(s, a); !Together(s[..q] + [a, b] + s[q..])
  {
    var q := From(s, a);
    var t := s[..q] + [a, b] + s[q..];
    var p :| 0 <= p < |s| && s[p] == a;
    FromIsNoLater(s, a, p);
    hide ByKey, SortKey, From;
    assert t[q] == a && t[q + 1] == b && t[p + 2] == a;
  }

  lemma WithoutBoth(all: seq<Mapping>, a: Mapping, b: Mapping) returns (rest: seq<Mapping>)
    requires a != b && b in all && multiset(all)[a] >= 2
    ensures multiset(rest) + multiset{a, b} == multiset(all) && a in rest
  {
    assert multiset(all)[a] > 0;
    WithoutLeaves(all, a);
    var fewer := Without(all, a);
    assert multiset(fewer)[b] == multiset(all)[b] > 0;
    WithoutLeaves(fewer, b);
    rest := Without(fewer, b);
    assert multiset(rest)[a] > 0;
    assert multiset{a, b} == multiset{a} + multiset{b};
  }

  lemma SplicedHolds(s: seq<Mapping>, q: nat, a: Mapping, b: Mapping)
    requires q <= |s|
    ensures multiset(s[..q] + [a, b] + s[q..]) == multiset(s) + multiset{a, b}
  {
    assert s == s[..q] + s[q..];
    assert multiset([a, b]) == multiset{a, b};
  }

  lemma TiedCanRepeat(all: seq<Mapping>, a: Mapping, b: Mapping) returns (t: seq<Mapping>)
    requires TiedTo(all, a, b)
    ensures SortedFrom(all, t) && !Together(t)
  {
    hide Together, SortKey, ByKey, Sort, Without;
    var rest := WithoutBoth(all, a, b);
    ByKeyIsTotal();
    var s := Sort(rest, ByKey());
    SortFacts(rest, s, ByKey());
    Inserted(s, a, b);
    InsertedApart(s, a, b);
    SplicedHolds(s, From(s, a), a, b);
    t := s[..From(s, a)] + [a, b] + s[From(s, a)..];
  }

  /** However ties are sorted, what is read holds each mapping once, exactly where none is stated twice
      while another sorts as it does. */
  lemma EachOnceExactlyWhen(all: seq<Mapping>)
    ensures (forall t :: SortedFrom(all, t) ==> Distinct(Compact(t))) <==> !Tied(all)
  {
    hide Together;
    if Tied(all) {
      var a, b :| TiedTo(all, a, b);
      var t := TiedCanRepeat(all, a, b);
      CompactOnceExactlyWhen(t);
    } else {
      forall t | SortedFrom(all, t) ensures Distinct(Compact(t)) {
        UntiedIsTogether(all, t);
        CompactOnceExactlyWhen(t);
      }
    }
  }

  /** Only a zero byte in a name can tie two. */
  lemma TiesNeedZeroBytes(all: seq<Mapping>)
    requires forall m :: m in all ==> NoNul(m)
    ensures !Tied(all)
  {
    forall a, b | TiedTo(all, a, b) ensures false {
      assert multiset(all)[a] > 0;
      assert a in all;
      KeyTellsApart(a, b);
    }
  }

  lemma SortAlikeHere(a: Mapping, b: Mapping)
    requires a == Mapping("g\0p", "approver", "") && b == Mapping("g", "approver", "p\0")
    ensures SortKey(a) == SortKey(b)
  {
    assert SortKey(a) == "g\0p\0\0approver";
    assert SortKey(b) == "g\0p\0\0approver";
  }

  /** And it can: of the group "g\0p" everywhere, and of the group "g" on the product "p\0". */
  lemma ZeroBytesCanTie()
    ensures var a, b := Mapping("g\0p", "approver", ""), Mapping("g", "approver", "p\0");
            TiedTo([a, b, a], a, b) && SortedFrom([a, b, a], [a, b, a]) && !Distinct(Compact([a, b, a]))
  {
    var a, b := Mapping("g\0p", "approver", ""), Mapping("g", "approver", "p\0");
    var all := [a, b, a];
    SortAlikeHere(a, b);
    hide SortKey, Compact;
    SortAlike(a, b, a);
    SortAlike(a, b, b);
    TwoOf(all, 0, 2);
    assert all[0] == all[2] && all[1] != all[0];
    CompactOnceExactlyWhen(all);
  }

  /** Both can be typed, a zero byte by its code. */
  lemma ZeroBytesCanBeTyped()
    ensures ParseGroup("g%00p") == Ok("g\0p") && ParseProduct("p%00") == Ok("p\0")
  {
    hide Trim, PathUnescape, Lower;
    CodesAreZero();
    NothingToTrim("g%00p");
    NothingToTrim("p%00");
    NothingToTrim("g\0p");
    NothingToTrim("p\0");
    NothingToLower();
  }

  lemma NothingToTrim(s: string)
    requires s == "g%00p" || s == "p%00" || s == "g\0p" || s == "p\0"
    ensures Trim(s) == s
  {
    hide TrimLeft, TrimRight;
    TrimTrims(s);
  }

  lemma NothingToLower()
    ensures Lower("p\0") == "p\0"
  {
    LowerMeans("p\0");
    assert Lower("p\0")[0] == 'p' && Lower("p\0")[1] == '\0';
  }

  lemma CodesAreZero()
    ensures PathUnescape("g%00p") == Ok("g\0p") && PathUnescape("p%00") == Ok("p\0")
  {
    CodeIsZero("p");
    CodeIsZero("");
    hide PathUnescape;
    assert "%00" + "p" == "%00p" && "%00" + "" == "%00" && "\0" + "p" == "\0p" && "\0" + "" == "\0";
    UnescapePlain('g', "%00p");
    UnescapePlain('p', "%00");
    assert ['g'] + "%00p" == "g%00p" && ['p'] + "%00" == "p%00";
    assert ['g'] + "\0p" == "g\0p" && ['p'] + "\0" == "p\0";
  }

  lemma CodeIsZero(rest: string)
    requires rest == "p" || rest == ""
    ensures PathUnescape("%00" + rest) == Ok("\0" + rest)
  {
    assert PathUnescape("") == Ok("");
    if rest == "p" {
      UnescapePlain('p', "");
      assert ['p'] + "" == "p";
    }
    UnescapeCode('0', '0', rest);
    assert ['%', '0', '0'] + rest == "%00" + rest;
  }

  /** What is read of a variable naming no zero byte is in order, each mapping once. */
  lemma ReadOnceInOrder(raw: string)
    requires Parse(raw).Ok? && forall m :: m in Parse(raw).value ==> NoNul(m)
    ensures var all := Parse(raw).value;
            Distinct(all) && forall i, j :: 0 <= i < j < |all| ==> ListedFirst(all[i], all[j])
  {
    hide ParseEntries, Split, Compact, Sort, SortKey, NoNul, ListedFirst;
    var read := ParseEntries(Split(raw, ';'), 0).value;
    var sorted := Sort(read, ByKey());
    ByKeyIsTotal();
    SortFacts(read, sorted, ByKey());
    CompactKeeps(sorted);
    assert forall m :: m in Compact(sorted) ==> NoNul(m);
    forall x, y | x in sorted && y in sorted && ByKey()(x, y) && ByKey()(y, x) ensures x == y {
      StringLeTotal(SortKey(x), SortKey(y));
      KeyTellsApart(x, y);
    }
    CompactOnce(sorted, ByKey());
    var all := Compact(sorted);
    forall i, j | 0 <= i < j < |all| ensures ListedFirst(all[i], all[j]) {
      assert all[i] in all && all[j] in all;
      KeyLists(all[i], all[j]);
    }
  }
}
