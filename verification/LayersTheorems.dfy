/** What layered matching promises: one to one, in the order stated, as many pairs as there can
    be, and the same pairs however the candidates arrive. */
module LayersTheorems {
  import opened Common
  import opened Sorting
  import opened Layers

  // ----- The order and what is free in it -----

  ghost predicate IsOrder(cs: seq<Candidate>, order: seq<nat>) {
    Indexes(order, |cs|) && Distinct(order) && forall c :: 0 <= c < |cs| ==> c in order
  }

  lemma ByAgeIsTotal(cs: seq<Candidate>)
    ensures TotalPreorder(ByAge(cs))
  {}

  lemma ByLineIsTotal(cs: seq<Candidate>)
    ensures TotalPreorder(ByLine(cs))
  {}

  /** The order is the candidates, each once, seen before absent and older first. */
  lemma OrderIsOrder(cs: seq<Candidate>)
    ensures IsOrder(cs, Order(cs))
    ensures SortedBy(ByAge(cs), Order(cs))
    ensures forall i, j :: 0 <= i < j < |cs| && |Order(cs)| == |cs| ==>
      var a, b := At(cs, Order(cs)[i]), At(cs, Order(cs)[j]);
      (a.absent ==> b.absent) && (a.absent == b.absent ==> a.findingID <= b.findingID)
    ensures |Order(cs)| == |cs|
  {
    ByAgeIsTotal(cs);
    SortSorts(Range(|cs|), ByAge(cs));
    SortPermutes(Range(|cs|), ByAge(cs));
    var order := Order(cs);
    MultisetMember(order, Range(|cs|));
    DistinctTransfers(Range(|cs|), order);
    forall i | 0 <= i < |order| ensures order[i] < |cs| {
      assert order[i] in order;
    }
    forall c | 0 <= c < |cs| ensures c in order {
      assert Range(|cs|)[c] == c;
    }
  }

  lemma {:induction false} FreeMembers(cs: seq<Candidate>, order: seq<nat>, used: set<nat>, on: Layer, k: string)
    ensures forall c :: c in Free(cs, order, used, on, k) <==>
                        c in order && c !in used && KeyOfCandidate(At(cs, c), on) == k
    ensures Distinct(order) ==> Distinct(Free(cs, order, used, on, k))
    ensures |Free(cs, order, used, on, k)| <= |order|
  {
    if order != [] {
      FreeMembers(cs, order[1..], used, on, k);
      assert order == [order[0]] + order[1..];
    }
  }

  /** Taking one candidate leaves what was free less that one. */
  lemma {:induction false} FreeAfterTaking(cs: seq<Candidate>, order: seq<nat>, used: set<nat>, on: Layer, k: string, c: nat)
    requires Distinct(order)
    ensures c !in Free(cs, order, used, on, k) ==>
              Free(cs, order, used + {c}, on, k) == Free(cs, order, used, on, k)
    ensures Free(cs, order, used, on, k) != [] && Free(cs, order, used, on, k)[0] == c ==>
              Free(cs, order, used + {c}, on, k) == Free(cs, order, used, on, k)[1..]
  {
    if order != [] {
      FreeAfterTaking(cs, order[1..], used, on, k, c);
      FreeMembers(cs, order[1..], used, on, k);
    }
  }

  lemma {:induction false} FreeResultsMembers(rs: seq<Keyed>, hits: seq<Option<Hit>>, on: Layer, k: string, from: nat)
    requires |hits| == |rs|
    ensures forall r :: r in FreeResults(rs, hits, on, k, from) <==>
                        from <= r < |rs| && hits[r].None? && KeyOfResult(rs[r], on) == k
    ensures Distinct(FreeResults(rs, hits, on, k, from))
    decreases |rs| - from
  {
    if from < |rs| {
      FreeResultsMembers(rs, hits, on, k, from + 1);
    }
  }

  lemma {:induction false} FreeResultsElsewhere(rs: seq<Keyed>, hits: seq<Option<Hit>>, on: Layer, k: string,
                                                from: nat, r: nat, h: Option<Hit>)
    requires |hits| == |rs| && r < from && r < |rs|
    ensures FreeResults(rs, hits[r := h], on, k, from) == FreeResults(rs, hits, on, k, from)
    decreases |rs| - from
  {
    if from < |rs| {
      FreeResultsElsewhere(rs, hits, on, k, from + 1, r, h);
    }
  }

  // ----- One key layer, in closed form -----

  /** A key layer pairs, under each key, the j-th result left with the j-th candidate left, as far
      as both lists go, and pairs nothing else. */
  ghost predicate Aligned(cs: seq<Candidate>, order: seq<nat>, rs: seq<Keyed>, on: Layer, m: Marks, m': Marks,
                          r: nat, k: string)
    requires Fits(m, rs) && Fits(m', rs)
  {
    var waiting := Free(cs, order, m.used, on, k);
    var left := FreeResults(rs, m.hits, on, k, r);
    forall j :: 0 <= j < |left| ==>
      left[j] < |rs| &&
      m'.hits[left[j]] == if k != "" && j < |waiting| then Some(Hit(waiting[j], on)) else None
  }

  lemma {:induction false} KeyLayerKeeps(cs: seq<Candidate>, order: seq<nat>, rs: seq<Keyed>, on: Layer, m: Marks, r: nat)
    requires Fits(m, rs) && r <= |rs|
    ensures forall i :: 0 <= i < |rs| && (i < r || m.hits[i].Some?) ==>
              KeyLayer(cs, order, rs, on, m, r).hits[i] == m.hits[i]
    ensures m.used <= KeyLayer(cs, order, rs, on, m, r).used
    decreases |rs| - r
  {
    if r < |rs| {
      KeyLayerKeeps(cs, order, rs, on, KeyStep(cs, order, rs, on, m, r), r + 1);
    }
  }

  /** What one result's step does to the two lists of a key. */
  lemma KeyStepLists(cs: seq<Candidate>, order: seq<nat>, rs: seq<Keyed>, on: Layer, m: Marks, r: nat, k: string)
    requires IsOrder(cs, order) && Fits(m, rs) && r < |rs|
    ensures var m1 := KeyStep(cs, order, rs, on, m, r);
            var waiting := Free(cs, order, m.used, on, k);
            && FreeResults(rs, m1.hits, on, k, r + 1) == FreeResults(rs, m.hits, on, k, r + 1)
            && (if m.hits[r].None? && KeyOfResult(rs[r], on) == k && k != "" && waiting != []
                then m1.hits[r] == Some(Hit(waiting[0], on)) && Free(cs, order, m1.used, on, k) == waiting[1..]
                else m1.hits[r] == m.hits[r] || KeyOfResult(rs[r], on) != k)
            && (KeyOfResult(rs[r], on) != k || m.hits[r].Some? ==> Free(cs, order, m1.used, on, k) == waiting)
  {
    var k0 := KeyOfResult(rs[r], on);
    var m1 := KeyStep(cs, order, rs, on, m, r);
    if m1 != m {
      var c := Free(cs, order, m.used, on, k0)[0];
      FreeResultsElsewhere(rs, m.hits, on, k, r + 1, r, Some(Hit(c, on)));
      FreeMembers(cs, order, m.used, on, k0);
      FreeMembers(cs, order, m.used, on, k);
      FreeAfterTaking(cs, order, m.used, on, k, c);
      assert c in Free(cs, order, m.used, on, k0);
    }
  }

  lemma {:induction false} KeyLayerAligns(cs: seq<Candidate>, order: seq<nat>, rs: seq<Keyed>, on: Layer, m: Marks,
                                          r: nat, k: string)
    requires IsOrder(cs, order) && Fits(m, rs) && r <= |rs|
    ensures Aligned(cs, order, rs, on, m, KeyLayer(cs, order, rs, on, m, r), r, k)
    decreases |rs| - r
  {
    if r < |rs| {
      var m1 := KeyStep(cs, order, rs, on, m, r);
      KeyStepLists(cs, order, rs, on, m, r, k);
      KeyLayerAligns(cs, order, rs, on, m1, r + 1, k);
      KeyLayerKeeps(cs, order, rs, on, m1, r + 1);
      FreeResultsMembers(rs, m.hits, on, k, r + 1);
      AlignedExtends(cs, order, rs, on, m, m1, KeyLayer(cs, order, rs, on, m1, r + 1), r, k);
    }
  }

  lemma AlignedExtends(cs: seq<Candidate>, order: seq<nat>, rs: seq<Keyed>, on: Layer, m: Marks, m1: Marks, m': Marks,
                       r: nat, k: string)
    requires Fits(m, rs) && Fits(m1, rs) && Fits(m', rs) && r < |rs|
    requires Aligned(cs, order, rs, on, m1, m', r + 1, k)
    requires m'.hits[r] == m1.hits[r]
    requires FreeResults(rs, m1.hits, on, k, r + 1) == FreeResults(rs, m.hits, on, k, r + 1)
    requires var waiting := Free(cs, order, m.used, on, k);
             if m.hits[r].None? && KeyOfResult(rs[r], on) == k
             then if k != "" && waiting != []
                  then m1.hits[r] == Some(Hit(waiting[0], on)) && Free(cs, order, m1.used, on, k) == waiting[1..]
                  else m1.hits[r] == None && (k != "" ==> Free(cs, order, m1.used, on, k) == waiting)
             else Free(cs, order, m1.used, on, k) == waiting
    ensures Aligned(cs, order, rs, on, m, m', r, k)
  {
    var waiting := Free(cs, order, m.used, on, k);
    var left, rest := FreeResults(rs, m.hits, on, k, r), FreeResults(rs, m.hits, on, k, r + 1);
    if m.hits[r].None? && KeyOfResult(rs[r], on) == k {
      assert left == [r] + rest;
      forall j | 0 < j < |left|
        ensures left[j] < |rs| &&
                m'.hits[left[j]] == if k != "" && j < |waiting| then Some(Hit(waiting[j], on)) else None
      {
        assert left[j] == rest[j - 1];
      }
    } else {
      assert left == rest;
    }
  }

  // ----- One to one -----

  ghost predicate Held(m: Marks, c: nat) {
    exists r :: 0 <= r < |m.hits| && m.hits[r].Some? && m.hits[r].value.candidate == c
  }

  /** Each result and each candidate is paired at most once, and what is taken is what is paired. */
  ghost predicate OneToOne(cs: seq<Candidate>, m: Marks) {
    && (forall r :: 0 <= r < |m.hits| && m.hits[r].Some? ==>
          m.hits[r].value.candidate < |cs| && m.hits[r].value.candidate in m.used)
    && (forall r, r' :: 0 <= r < r' < |m.hits| && m.hits[r].Some? && m.hits[r'].Some? ==>
          m.hits[r].value.candidate != m.hits[r'].value.candidate)
    && (forall c :: c in m.used ==> Held(m, c))
  }

  /** A pairing is on a key its result and its candidate share. */
  ghost predicate Agree(cs: seq<Candidate>, rs: seq<Keyed>, m: Marks)
    requires Fits(m, rs)
  {
    forall r :: 0 <= r < |rs| && m.hits[r].Some? ==>
      var h := m.hits[r].value;
      KeyOfCandidate(At(cs, h.candidate), h.on) == KeyOfResult(rs[r], h.on) &&
      (h.on != OnLine ==> KeyOfResult(rs[r], h.on) != "")
  }

  ghost predicate Sound(cs: seq<Candidate>, rs: seq<Keyed>, m: Marks) {
    Fits(m, rs) && OneToOne(cs, m) && Agree(cs, rs, m)
  }

  lemma TakeSound(cs: seq<Candidate>, rs: seq<Keyed>, m: Marks, r: nat, c: nat, on: Layer)
    requires Sound(cs, rs, m) && r < |rs| && m.hits[r].None? && c < |cs| && c !in m.used
    requires KeyOfCandidate(cs[c], on) == KeyOfResult(rs[r], on) && (on != OnLine ==> KeyOfResult(rs[r], on) != "")
    ensures Sound(cs, rs, Take(m, r, c, on))
  {
    var m' := Take(m, r, c, on);
    forall x | x in m'.used ensures Held(m', x) {
      if x == c {
        assert m'.hits[r].value.candidate == c;
      } else {
        var i :| 0 <= i < |m.hits| && m.hits[i].Some? && m.hits[i].value.candidate == x;
        assert m'.hits[i] == m.hits[i];
      }
    }
  }

  lemma {:induction false} KeyLayerSound(cs: seq<Candidate>, order: seq<nat>, rs: seq<Keyed>, on: Layer, m: Marks, r: nat)
    requires IsOrder(cs, order) && Sound(cs, rs, m) && r <= |rs|
    ensures Sound(cs, rs, KeyLayer(cs, order, rs, on, m, r))
    decreases |rs| - r
  {
    if r < |rs| {
      var k := KeyOfResult(rs[r], on);
      var m1 := KeyStep(cs, order, rs, on, m, r);
      if m1 != m {
        var c := Free(cs, order, m.used, on, k)[0];
        FreeMembers(cs, order, m.used, on, k);
        assert c in Free(cs, order, m.used, on, k);
        TakeSound(cs, rs, m, r, c, on);
      }
      KeyLayerSound(cs, order, rs, on, m1, r + 1);
    }
  }

  /** The partner of a result is free, holds its key, and is nobody else's partner. */
  lemma PartnerFacts(cs: seq<Candidate>, order: seq<nat>, rs: seq<Keyed>, m: Marks, r: nat)
    requires IsOrder(cs, order) && Fits(m, rs) && r < |rs| && Partner(cs, order, rs, m, r).Some?
    ensures var c := Partner(cs, order, rs, m, r).value;
            c < |cs| && c !in m.used && cs[c].unprinted == rs[r].unprintedKey && rs[r].unprintedKey != ""
    ensures forall r' :: 0 <= r' < |rs| && m.hits[r'].None? && rs[r'].unprintedKey == rs[r].unprintedKey ==> r' == r
  {
    var k := rs[r].unprintedKey;
    var cands := Free(cs, order, m.used, OnUnprinted, k);
    FreeMembers(cs, order, m.used, OnUnprinted, k);
    assert cands[0] in cands;
    var held := FreeResults(rs, m.hits, OnUnprinted, k, 0);
    FreeResultsMembers(rs, m.hits, OnUnprinted, k, 0);
    assert r in held && held == [held[0]];
    forall r' | 0 <= r' < |rs| && m.hits[r'].None? && rs[r'].unprintedKey == k ensures r' == r {
      assert r' in held;
    }
  }

  lemma UniqueLayerSound(cs: seq<Candidate>, order: seq<nat>, rs: seq<Keyed>, m: Marks)
    requires IsOrder(cs, order) && Sound(cs, rs, m)
    ensures Sound(cs, rs, UniqueLayer(cs, order, rs, m))
  {
    hide Partner;
    var m' := UniqueLayer(cs, order, rs, m);
    forall r | 0 <= r < |rs| && Partner(cs, order, rs, m, r).Some?
      ensures var c := Partner(cs, order, rs, m, r).value;
              c < |cs| && c !in m.used && cs[c].unprinted == rs[r].unprintedKey && rs[r].unprintedKey != ""
    {
      PartnerFacts(cs, order, rs, m, r);
    }
    forall r, r' | 0 <= r < r' < |rs| && Partner(cs, order, rs, m, r).Some? && Partner(cs, order, rs, m, r').Some?
      ensures Partner(cs, order, rs, m, r).value != Partner(cs, order, rs, m, r').value
    {
      PartnersApart(cs, order, rs, m, r, r');
    }
    forall c | c in m'.used ensures Held(m', c) {
      UniqueLayerHolds(cs, order, rs, m, c);
    }
  }

  lemma PartnersApart(cs: seq<Candidate>, order: seq<nat>, rs: seq<Keyed>, m: Marks, r: nat, r': nat)
    requires IsOrder(cs, order) && Fits(m, rs) && r < r' < |rs|
    requires Partner(cs, order, rs, m, r).Some? && Partner(cs, order, rs, m, r').Some?
    ensures Partner(cs, order, rs, m, r).value != Partner(cs, order, rs, m, r').value
  {
    PartnerFacts(cs, order, rs, m, r);
    PartnerFacts(cs, order, rs, m, r');
  }

  lemma UniqueLayerHolds(cs: seq<Candidate>, order: seq<nat>, rs: seq<Keyed>, m: Marks, c: nat)
    requires Fits(m, rs) && c in UniqueLayer(cs, order, rs, m).used && (c in m.used ==> Held(m, c))
    ensures Held(UniqueLayer(cs, order, rs, m), c)
  {
    var m' := UniqueLayer(cs, order, rs, m);
    if c in m.used {
      var r :| 0 <= r < |m.hits| && m.hits[r].Some? && m.hits[r].value.candidate == c;
      assert Partner(cs, order, rs, m, r).None?;
      assert m'.hits[r] == m.hits[r];
    } else {
      var r :| 0 <= r < |rs| && Partner(cs, order, rs, m, r).Some? && Partner(cs, order, rs, m, r).value == c;
      assert m'.hits[r] == Some(Hit(c, OnUnprinted));
    }
  }

  // ----- The nearest line -----

  /** A group is the free candidates of one line key, each once, by line. */
  ghost predicate IsGroup(cs: seq<Candidate>, used: set<nat>, k: string, group: seq<nat>) {
    && Indexes(group, |cs|) && Distinct(group) && SortedBy(ByLine(cs), group)
    && (forall c: nat :: c in group <==> c < |cs| && c !in used && At(cs, c).lineKey == k)
  }

  lemma GroupIsGroup(cs: seq<Candidate>, order: seq<nat>, used: set<nat>, k: string)
    requires IsOrder(cs, order)
    ensures IsGroup(cs, used, k, Group(cs, order, used, k))
  {
    var free, group := Free(cs, order, used, OnLine, k), Group(cs, order, used, k);
    FreeMembers(cs, order, used, OnLine, k);
    ByLineIsTotal(cs);
    SortFacts<nat>(free, group, ByLine(cs));
    forall c: nat ensures c in group <==> c < |cs| && c !in used && At(cs, c).lineKey == k {
      assert c in group <==> c in free;
      if c in order {
        var i :| 0 <= i < |order| && order[i] == c;
      }
    }
    forall i | 0 <= i < |group| ensures group[i] < |cs| {
      assert group[i] in group;
    }
  }

  /** Still outside the two pointers. */
  ghost predicate Outside(group: seq<nat>, lo: int, hi: nat, c: nat) {
    exists i :: 0 <= i < |group| && (i <= lo || hi <= i) && group[i] == c
  }

  /** The two pointers stand either side of the line. */
  ghost predicate Straddles(cs: seq<Candidate>, group: seq<nat>, line: int, lo: int, hi: nat) {
    && -1 <= lo < hi <= |group|
    && (forall i :: 0 <= i <= lo ==> At(cs, group[i]).line < line)
    && (forall i :: hi <= i < |group| ==> At(cs, group[i]).line >= line)
  }

  function Away(cs: seq<Candidate>, line: int, c: nat): nat {
    Distance(line, At(cs, c).line)
  }

  lemma NextIsClosest(cs: seq<Candidate>, group: seq<nat>, line: int, lo: int, hi: nat, i: nat)
    requires SortedBy(ByLine(cs), group) && Straddles(cs, group, line, lo, hi)
    requires i < |group| && (i <= lo || hi <= i)
    ensures Away(cs, line, group[if TakesBelow(cs, group, line, lo, hi) then lo else hi]) <= Away(cs, line, group[i])
  {
    var le := ByLine(cs);
    if 0 <= i < lo { assert le(group[i], group[lo]); }
    if hi < i { assert le(group[hi], group[i]); }
  }

  /** Moving one pointer takes exactly the candidate it stood on. */
  lemma OutsideShrinks(group: seq<nat>, lo: int, hi: nat, below: bool, c: nat)
    requires Distinct(group) && -1 <= lo < hi <= |group|
    requires if below then lo >= 0 else hi < |group|
    ensures var x := group[if below then lo else hi];
            Outside(group, if below then lo - 1 else lo, if below then hi else hi + 1, c) <==>
            Outside(group, lo, hi, c) && c != x
  {
    var at := if below then lo else hi;
    var lo', hi' := if below then lo - 1 else lo, if below then hi else hi + 1;
    if Outside(group, lo', hi', c) {
      var i :| 0 <= i < |group| && (i <= lo' || hi' <= i) && group[i] == c;
      if i < at { assert group[i] != group[at]; } else { assert group[at] != group[i]; }
    }
    if Outside(group, lo, hi, c) && c != group[at] {
      var i :| 0 <= i < |group| && (i <= lo || hi <= i) && group[i] == c;
      assert i <= lo' || hi' <= i;
    }
  }

  /** What is offered from between two pointers, and not further away than what is left. */
  ghost predicate NearestOf(cs: seq<Candidate>, group: seq<nat>, line: int, lo: int, hi: nat, w: seq<nat>) {
    && Distinct(w)
    && (forall c: nat :: c in w ==> Outside(group, lo, hi, c))
    && (forall o: nat, c: nat :: o in w && c !in w && Outside(group, lo, hi, c) ==> Away(cs, line, o) <= Away(cs, line, c))
  }

  /** Walking outwards offers as many as it may, each once, and never one further away than one it
      leaves. */
  lemma {:induction false} WindowNearest(cs: seq<Candidate>, group: seq<nat>, line: int, lo: int, hi: nat, n: nat)
    requires Distinct(group) && SortedBy(ByLine(cs), group) && Straddles(cs, group, line, lo, hi)
    ensures |Window(cs, group, line, lo, hi, n)| == Min(n, lo + 1 + |group| - hi)
    ensures NearestOf(cs, group, line, lo, hi, Window(cs, group, line, lo, hi, n))
    decreases n
  {
    if n == 0 || (lo < 0 && hi >= |group|) { return; }
    var below := TakesBelow(cs, group, line, lo, hi);
    var lo', hi' := if below then lo - 1 else lo, if below then hi else hi + 1;
    var x, rest := group[if below then lo else hi], Window(cs, group, line, lo', hi', n - 1);
    WindowNearest(cs, group, line, lo', hi', n - 1);
    forall c: nat
      ensures Outside(group, lo', hi', c) <==> Outside(group, lo, hi, c) && c != x
    {
      OutsideShrinks(group, lo, hi, below, c);
    }
    forall c: nat | Outside(group, lo, hi, c) ensures Away(cs, line, x) <= Away(cs, line, c) {
      var i :| 0 <= i < |group| && (i <= lo || hi <= i) && group[i] == c;
      NextIsClosest(cs, group, line, lo, hi, i);
    }
    assert Outside(group, lo, hi, x);
    Extends(cs, group, line, lo, hi, lo', hi', x, rest);
  }

  lemma Extends(cs: seq<Candidate>, group: seq<nat>, line: int, lo: int, hi: nat, lo': int, hi': nat, x: nat, rest: seq<nat>)
    requires NearestOf(cs, group, line, lo', hi', rest)
    requires forall c: nat :: Outside(group, lo', hi', c) <==> Outside(group, lo, hi, c) && c != x
    requires forall c: nat :: Outside(group, lo, hi, c) ==> Away(cs, line, x) <= Away(cs, line, c)
    requires Outside(group, lo, hi, x)
    ensures NearestOf(cs, group, line, lo, hi, [x] + rest)
  {
    assert x !in rest;
  }

  function Min(a: int, b: int): int {
    if a <= b then a else b
  }

  /** The nearest eight of a group, or the whole group where it is smaller: each once, and none
      left out strictly closer than one offered. */
  ghost predicate NearestEight(cs: seq<Candidate>, group: seq<nat>, line: int, offered: seq<nat>) {
    && |offered| == Min(8, |group|)
    && Distinct(offered)
    && (forall c: nat :: c in offered ==> c in group)
    && (forall o: nat, c: nat :: o in offered && c !in offered && c in group ==> Away(cs, line, o) <= Away(cs, line, c))
  }

  lemma GroupStraddles(cs: seq<Candidate>, group: seq<nat>, line: int)
    requires SortedBy(ByLine(cs), group)
    ensures var at := FirstAtLeast(cs, group, line, 0);
            Straddles(cs, group, line, at - 1, at)
  {
    var at := FirstAtLeast(cs, group, line, 0);
    forall i | at <= i < |group| ensures At(cs, group[i]).line >= line {
      var le := ByLine(cs);
      if at < i { assert le(group[at], group[i]); }
    }
  }

  lemma OutsideBothEnds(group: seq<nat>, at: nat, c: nat)
    ensures Outside(group, at - 1, at, c) <==> c in group
  {}

  lemma WindowOfLine(cs: seq<Candidate>, group: seq<nat>, line: int)
    requires Distinct(group) && SortedBy(ByLine(cs), group)
    ensures var at := FirstAtLeast(cs, group, line, 0);
            NearestEight(cs, group, line, Window(cs, group, line, at - 1, at, NEAREST))
  {
    var at: int := FirstAtLeast(cs, group, line, 0);
    GroupStraddles(cs, group, line);
    WindowNearest(cs, group, line, at - 1, at, NEAREST);
    forall c: nat ensures Outside(group, at - 1, at, c) <==> c in group {
      OutsideBothEnds(group, at, c);
    }
  }

  /** Each result left is offered its nearest eight of the candidates left under its line key. */
  lemma OffersNearest(cs: seq<Candidate>, order: seq<nat>, rs: seq<Keyed>, m: Marks, r: nat)
    requires IsOrder(cs, order) && Fits(m, rs) && r < |rs| && m.hits[r].None?
    ensures var group := Group(cs, order, m.used, rs[r].lineKey);
            IsGroup(cs, m.used, rs[r].lineKey, group) &&
            NearestEight(cs, group, rs[r].startLine, Offered(cs, order, rs, m, r))
  {
    var group := Group(cs, order, m.used, rs[r].lineKey);
    GroupIsGroup(cs, order, m.used, rs[r].lineKey);
    WindowOfLine(cs, group, rs[r].startLine);
  }

  // ----- The greedy pass -----

  function NearOf(cs: seq<Candidate>, order: seq<nat>, rs: seq<Keyed>, r: nat, c: nat): Near
    requires r < |rs|
  {
    Near(Away(cs, rs[r].startLine, c), RankOf(order, c), r, c)
  }

  lemma {:induction false} OffersMembers(cs: seq<Candidate>, order: seq<nat>, rs: seq<Keyed>, m: Marks, upto: nat)
    requires Fits(m, rs) && upto <= |rs|
    ensures forall p :: p in Offers(cs, order, rs, m, upto) <==>
                        p.result < upto && p.candidate in Offered(cs, order, rs, m, p.result) &&
                        p == NearOf(cs, order, rs, p.result, p.candidate)
  {
    if upto > 0 {
      var r := upto - 1;
      OffersMembers(cs, order, rs, m, r);
      var offered := Offered(cs, order, rs, m, r);
      var ps := Pairs(cs, order, rs, r, offered);
      forall p: Near ensures p in ps <==> p.result == r && p.candidate in offered && p == NearOf(cs, order, rs, r, p.candidate) {
        if p.candidate in offered && p == NearOf(cs, order, rs, r, p.candidate) {
          var i :| 0 <= i < |offered| && offered[i] == p.candidate;
          assert ps[i] == p;
        }
      }
    }
  }

  lemma RankedMembers(cs: seq<Candidate>, order: seq<nat>, rs: seq<Keyed>, m: Marks)
    requires Fits(m, rs)
    ensures var ps := Ranked(cs, order, rs, m);
            && SortedBy(ByDistance(), ps)
            && forall p :: p in ps <==>
                           p.result < |rs| && p.candidate in Offered(cs, order, rs, m, p.result) &&
                           p == NearOf(cs, order, rs, p.result, p.candidate)
  {
    OffersMembers(cs, order, rs, m, |rs|);
    SortFacts(Offers(cs, order, rs, m, |rs|), Ranked(cs, order, rs, m), ByDistance());
  }

  /** A pair the greedy pass chose. */
  predicate Chosen(m: Marks, p: Near) {
    p.result < |m.hits| && m.hits[p.result] == Some(Hit(p.candidate, OnLine))
  }

  predicate Blocked(m: Marks, p: Near)
    requires p.result < |m.hits|
  {
    m.hits[p.result].Some? || p.candidate in m.used
  }

  ghost predicate Pairable(ps: seq<Near>, m: Marks) {
    forall i :: 0 <= i < |ps| ==> ps[i].result < |m.hits|
  }

  /** The greedy pass adds pairs it was offered and undoes none. */
  lemma {:induction false} GreedyAdds(ps: seq<Near>, m: Marks)
    requires Pairable(ps, m)
    ensures var m' := Greedy(ps, m);
            && m.used <= m'.used
            && (forall r :: 0 <= r < |m.hits| && m.hits[r].Some? ==> m'.hits[r] == m.hits[r])
            && (forall r :: 0 <= r < |m.hits| && m.hits[r].None? && m'.hits[r].Some? ==>
                  exists i :: 0 <= i < |ps| && ps[i].result == r && Chosen(m', ps[i]))
  {
    if ps == [] { return; }
    var m1 := if Blocked(m, ps[0]) then m else Take(m, ps[0].result, ps[0].candidate, OnLine);
    var m' := Greedy(ps[1..], m1);
    GreedyAdds(ps[1..], m1);
    forall r | 0 <= r < |m.hits| && m.hits[r].None? && m'.hits[r].Some?
      ensures exists i :: 0 <= i < |ps| && ps[i].result == r && Chosen(m', ps[i])
    {
      if m1.hits[r].None? {
        var i :| 0 <= i < |ps[1..]| && ps[1..][i].result == r && Chosen(m', ps[1..][i]);
        assert ps[i + 1] == ps[1..][i];
      } else {
        assert Chosen(m', ps[0]);
      }
    }
  }

  /** Why a pair was passed over: it was blocked from the start, or it shares its result or its
      candidate with a pair chosen before it. */
  ghost predicate PassedOver(ps: seq<Near>, m: Marks, m': Marks, i: nat)
    requires i < |ps| && ps[i].result < |m.hits|
  {
    Blocked(m, ps[i]) ||
    exists j :: 0 <= j < i && Chosen(m', ps[j]) &&
                (ps[j].result == ps[i].result || ps[j].candidate == ps[i].candidate)
  }

  lemma {:induction false} GreedyStable(ps: seq<Near>, m: Marks, i: nat)
    requires Pairable(ps, m) && i < |ps|
    ensures Chosen(Greedy(ps, m), ps[i]) || PassedOver(ps, m, Greedy(ps, m), i)
  {
    var m1 := if Blocked(m, ps[0]) then m else Take(m, ps[0].result, ps[0].candidate, OnLine);
    var m' := Greedy(ps[1..], m1);
    GreedyAdds(ps[1..], m1);
    if i == 0 {
      assert !Blocked(m, ps[0]) ==> Chosen(m', ps[0]);
    } else {
      GreedyStable(ps[1..], m1, i - 1);
      if !Chosen(m', ps[i]) && !Blocked(m, ps[i]) {
        if Blocked(m1, ps[i]) {
          assert Chosen(m', ps[0]);
        } else {
          var j :| 0 <= j < i - 1 && Chosen(m', ps[1..][j]) &&
                   (ps[1..][j].result == ps[i].result || ps[1..][j].candidate == ps[i].candidate);
          assert ps[j + 1] == ps[1..][j];
        }
      }
    }
  }

  lemma RankedStable(cs: seq<Candidate>, order: seq<nat>, rs: seq<Keyed>, m: Marks, p: Near)
    requires IsOrder(cs, order) && Fits(m, rs) && p in Ranked(cs, order, rs, m)
    ensures var m' := LineLayer(cs, order, rs, m);
            Chosen(m', p) ||
            exists q :: q in Ranked(cs, order, rs, m) && Chosen(m', q) && CloserFirst(q, p) && q != p &&
                        (q.result == p.result || q.candidate == p.candidate)
  {
    var ps, m' := Ranked(cs, order, rs, m), LineLayer(cs, order, rs, m);
    RankedMembers(cs, order, rs, m);
    if !Chosen(m', p) {
      var i :| 0 <= i < |ps| && ps[i] == p;
      GreedyStable(ps, m, i);
      OffersNearest(cs, order, rs, m, p.result);
      assert !Blocked(m, p);
      var j :| 0 <= j < i && Chosen(m', ps[j]) && (ps[j].result == p.result || ps[j].candidate == p.candidate);
      var le := ByDistance();
      assert le(ps[j], ps[i]);
      assert ps[j] in ps && ps[j] != p;
    }
  }

  /** How many lines lie between a result and a candidate. */
  ghost predicate LinesApart(cs: seq<Candidate>, rs: seq<Keyed>, r: nat, c: nat, d: int)
    requires r < |rs| && c < |cs|
  {
    d >= 0 && (d == rs[r].startLine - cs[c].line || d == cs[c].line - rs[r].startLine)
  }

  /** One candidate comes before another in an order. */
  ghost predicate ComesBefore(order: seq<nat>, c: nat, d: nat) {
    exists i, j :: 0 <= i < j < |order| && order[i] == c && order[j] == d
  }

  /** The first pair is settled before the second: fewer lines apart, or as many and its candidate
      earlier in the order, or the same candidate and its result no later. */
  ghost predicate SettledFirst(cs: seq<Candidate>, order: seq<nat>, rs: seq<Keyed>, r: nat, c: nat, r': nat, c': nat)
    requires r < |rs| && r' < |rs| && c < |cs| && c' < |cs|
  {
    exists d, d' :: LinesApart(cs, rs, r, c, d) && LinesApart(cs, rs, r', c', d') &&
      (d < d' || (d == d' && (ComesBefore(order, c, c') || (c == c' && r <= r'))))
  }

  lemma RanksTell(order: seq<nat>, c: nat, d: nat)
    requires c in order && d in order
    ensures RankOf(order, c) < RankOf(order, d) ==> ComesBefore(order, c, d)
    ensures RankOf(order, c) == RankOf(order, d) ==> c == d
  {
    RankFinds(order, c);
    RankFinds(order, d);
  }

  lemma {:induction false} RankFinds(order: seq<nat>, c: nat)
    requires c in order
    ensures RankOf(order, c) < |order| && order[RankOf(order, c)] == c
  {
    if order[0] != c { RankFinds(order[1..], c); }
  }

  lemma CloserIsSettledFirst(cs: seq<Candidate>, order: seq<nat>, rs: seq<Keyed>, q: Near, p: Near)
    requires IsOrder(cs, order) && CloserFirst(q, p)
    requires p.result < |rs| && p.candidate < |cs| && p == NearOf(cs, order, rs, p.result, p.candidate)
    requires q.result < |rs| && q.candidate < |cs| && q == NearOf(cs, order, rs, q.result, q.candidate)
    ensures SettledFirst(cs, order, rs, q.result, q.candidate, p.result, p.candidate)
  {
    hide RankOf;
    RanksTell(order, q.candidate, p.candidate);
    assert LinesApart(cs, rs, q.result, q.candidate, q.distance) && LinesApart(cs, rs, p.result, p.candidate, p.distance);
  }

  /** The line layer is stable: a pair it offers and does not choose shares its result or its candidate
      with a pair offered and chosen that is settled before it. */
  lemma LineLayerStable(cs: seq<Candidate>, order: seq<nat>, rs: seq<Keyed>, m: Marks, r: nat, c: nat)
    requires IsOrder(cs, order) && Fits(m, rs) && r < |rs| && c < |cs| && c in Offered(cs, order, rs, m, r)
    ensures var m' := LineLayer(cs, order, rs, m);
            m'.hits[r] == Some(Hit(c, OnLine)) ||
            exists r': nat, c': nat :: r' < |rs| && c' < |cs| && c' in Offered(cs, order, rs, m, r')
              && m'.hits[r'] == Some(Hit(c', OnLine)) && (r' == r || c' == c)
              && SettledFirst(cs, order, rs, r', c', r, c)
  {
    hide Offered, LineLayer, Ranked, CloserFirst, SettledFirst;
    var m', p := LineLayer(cs, order, rs, m), NearOf(cs, order, rs, r, c);
    RankedMembers(cs, order, rs, m);
    RankedStable(cs, order, rs, m, p);
    if !Chosen(m', p) {
      var q :| q in Ranked(cs, order, rs, m) && Chosen(m', q) && CloserFirst(q, p) && q != p &&
               (q.result == p.result || q.candidate == p.candidate);
      OfferedAreFree(cs, order, rs, m, q.result, q.candidate);
      CloserIsSettledFirst(cs, order, rs, q, p);
    }
  }

  // ----- Every layer is one to one -----

  lemma {:induction false} GreedySound(cs: seq<Candidate>, rs: seq<Keyed>, ps: seq<Near>, m: Marks)
    requires Sound(cs, rs, m) && Pairable(ps, m)
    requires forall i :: 0 <= i < |ps| ==> ps[i].candidate < |cs| && cs[ps[i].candidate].lineKey == rs[ps[i].result].lineKey
    ensures Sound(cs, rs, Greedy(ps, m))
  {
    if ps != [] {
      var m1 := if Blocked(m, ps[0]) then m else Take(m, ps[0].result, ps[0].candidate, OnLine);
      if m1 != m {
        TakeSound(cs, rs, m, ps[0].result, ps[0].candidate, OnLine);
      }
      GreedySound(cs, rs, ps[1..], m1);
    }
  }

  lemma OfferedAreFree(cs: seq<Candidate>, order: seq<nat>, rs: seq<Keyed>, m: Marks, r: nat, c: nat)
    requires IsOrder(cs, order) && Fits(m, rs) && r < |rs| && c in Offered(cs, order, rs, m, r)
    ensures m.hits[r].None? && c < |cs| && c !in m.used && cs[c].lineKey == rs[r].lineKey
  {
    assert m.hits[r].None?;
    OffersNearest(cs, order, rs, m, r);
    assert c in Group(cs, order, m.used, rs[r].lineKey);
  }

  lemma LineLayerSound(cs: seq<Candidate>, order: seq<nat>, rs: seq<Keyed>, m: Marks)
    requires IsOrder(cs, order) && Sound(cs, rs, m)
    ensures Sound(cs, rs, LineLayer(cs, order, rs, m))
  {
    var ps := Ranked(cs, order, rs, m);
    RankedMembers(cs, order, rs, m);
    forall i | 0 <= i < |ps|
      ensures ps[i].candidate < |cs| && cs[ps[i].candidate].lineKey == rs[ps[i].result].lineKey
    {
      assert ps[i] in ps;
      OfferedAreFree(cs, order, rs, m, ps[i].result, ps[i].candidate);
    }
    GreedySound(cs, rs, ps, m);
  }

  lemma BeforeLinesSound(cs: seq<Candidate>, rs: seq<Keyed>, printsChanged: bool)
    ensures Sound(cs, rs, BeforeLines(cs, rs, printsChanged))
  {
    var order := Order(cs);
    OrderIsOrder(cs);
    var onKey := KeyLayer(cs, order, rs, OnKey, Unmarked(rs), 0);
    KeyLayerSound(cs, order, rs, OnKey, Unmarked(rs), 0);
    UniqueLayerSound(cs, order, rs, onKey);
    KeyLayerSound(cs, order, rs, OnFunction, if printsChanged then UniqueLayer(cs, order, rs, onKey) else onKey, 0);
  }

  /** A candidate and a result hold one key of a layer; only the line key may be empty. */
  ghost predicate OnOneKey(c: Candidate, k: Keyed, on: Layer) {
    match on
    case OnKey => c.key == k.key != ""
    case OnUnprinted => c.unprinted == k.unprintedKey != ""
    case OnFunction => c.functionKey == k.functionKey != ""
    case OnLine => c.lineKey == k.lineKey
  }

  /** No result and no candidate is paired twice, and every pairing is on a key both hold. */
  lemma MatchedSound(cs: seq<Candidate>, rs: seq<Keyed>, printsChanged: bool)
    ensures Sound(cs, rs, Matched(cs, rs, printsChanged))
    ensures forall r :: 0 <= r < |rs| && Matched(cs, rs, printsChanged).hits[r].Some? ==>
      var h := Matched(cs, rs, printsChanged).hits[r].value;
      h.candidate < |cs| && OnOneKey(cs[h.candidate], rs[r], h.on)
  {
    BeforeLinesSound(cs, rs, printsChanged);
    OrderIsOrder(cs);
    LineLayerSound(cs, Order(cs), rs, BeforeLines(cs, rs, printsChanged));
  }

  // ----- As many pairs as there can be -----

  function ResultsOn(rs: seq<Keyed>, k: string): set<nat> {
    set r: nat | 0 <= r < |rs| && rs[r].lineKey == k
  }

  function CandidatesOn(cs: seq<Candidate>, k: string): set<nat> {
    set c: nat | 0 <= c < |cs| && cs[c].lineKey == k
  }

  function PairedOn(rs: seq<Keyed>, m: Marks, k: string): set<nat>
    requires Fits(m, rs)
  {
    set r: nat | 0 <= r < |rs| && rs[r].lineKey == k && m.hits[r].Some?
  }

  function TakenOn(cs: seq<Candidate>, m: Marks, k: string): set<nat> {
    set c: nat | 0 <= c < |cs| && cs[c].lineKey == k && c in m.used
  }

  /** Every pairing made so far joins a result and a candidate of one line key. */
  ghost predicate OnLineKeys(cs: seq<Candidate>, rs: seq<Keyed>, m: Marks)
    requires Fits(m, rs)
  {
    forall r :: 0 <= r < |rs| && m.hits[r].Some? ==> At(cs, m.hits[r].value.candidate).lineKey == rs[r].lineKey
  }

  /** Results paired under a line key and candidates taken under it are as many. */
  lemma PairedTaken(cs: seq<Candidate>, rs: seq<Keyed>, m: Marks, k: string)
    requires Sound(cs, rs, m) && OnLineKeys(cs, rs, m)
    ensures |PairedOn(rs, m, k)| == |TakenOn(cs, m, k)|
  {
    var paired, taken := PairedOn(rs, m, k), TakenOn(cs, m, k);
    var held := (r: nat) => if r < |m.hits| && m.hits[r].Some? then m.hits[r].value.candidate else 0;
    forall c ensures c in taken <==> exists r :: r in paired && held(r) == c {
      if c in taken {
        assert Held(m, c);
        var r :| 0 <= r < |m.hits| && m.hits[r].Some? && m.hits[r].value.candidate == c;
        assert r in paired && held(r) == c;
      }
    }
    ImageSize(paired, held, taken);
  }

  /** What the line layer adds under one line key: at least the smallest of the results left, the
      candidates left and eight, and at most the smaller of the first two. */
  lemma LineLayerPairs(cs: seq<Candidate>, order: seq<nat>, rs: seq<Keyed>, m: Marks, k: string)
    requires IsOrder(cs, order) && Sound(cs, rs, m) && OnLineKeys(cs, rs, m)
    ensures var m' := LineLayer(cs, order, rs, m);
            var left := |ResultsOn(rs, k)| - |PairedOn(rs, m, k)|;
            var free := |CandidatesOn(cs, k)| - |TakenOn(cs, m, k)|;
            var added := |PairedOn(rs, m', k)| - |PairedOn(rs, m, k)|;
            && OnLineKeys(cs, rs, m')
            && Min(Min(left, free), 8) <= added <= Min(left, free)
  {
    var m' := LineLayer(cs, order, rs, m);
    LineLayerSound(cs, order, rs, m);
    LineLayerOnLineKeys(cs, order, rs, m);
    GreedyAdds(Ranked(cs, order, rs, m), m);
    PairedTaken(cs, rs, m, k);
    PairedTaken(cs, rs, m', k);
    SubsetSize(PairedOn(rs, m', k), ResultsOn(rs, k));
    SubsetSize(TakenOn(cs, m', k), CandidatesOn(cs, k));
    if r :| r in ResultsOn(rs, k) && m'.hits[r].None? {
      OfferedAllTaken(cs, order, rs, m, r);
    } else {
      assert PairedOn(rs, m', k) == ResultsOn(rs, k);
    }
  }

  lemma LineLayerOnLineKeys(cs: seq<Candidate>, order: seq<nat>, rs: seq<Keyed>, m: Marks)
    requires IsOrder(cs, order) && Sound(cs, rs, m) && OnLineKeys(cs, rs, m)
    ensures OnLineKeys(cs, rs, LineLayer(cs, order, rs, m))
  {
    hide Ranked, Offered, OneToOne, Agree, IsOrder;
    var ps, m' := Ranked(cs, order, rs, m), LineLayer(cs, order, rs, m);
    GreedyAdds(ps, m);
    RankedMembers(cs, order, rs, m);
    forall r | 0 <= r < |rs| && m'.hits[r].Some?
      ensures At(cs, m'.hits[r].value.candidate).lineKey == rs[r].lineKey
    {
      if m.hits[r].None? {
        var i :| 0 <= i < |ps| && ps[i].result == r && Chosen(m', ps[i]);
        assert ps[i] in ps;
        OfferedAreFree(cs, order, rs, m, r, ps[i].candidate);
      }
    }
  }

  /** A result left over was offered candidates that others took: eight, or the whole group. */
  lemma OfferedAllTaken(cs: seq<Candidate>, order: seq<nat>, rs: seq<Keyed>, m: Marks, r: nat)
    requires IsOrder(cs, order) && Sound(cs, rs, m)
    requires r < |rs| && LineLayer(cs, order, rs, m).hits[r].None?
    ensures var m', k := LineLayer(cs, order, rs, m), rs[r].lineKey;
            |TakenOn(cs, m', k)| >= |TakenOn(cs, m, k)| + Min(|CandidatesOn(cs, k)| - |TakenOn(cs, m, k)|, NEAREST)
  {
    hide Offered, Group;
    var ps, m', k := Ranked(cs, order, rs, m), LineLayer(cs, order, rs, m), rs[r].lineKey;
    GreedyAdds(ps, m);
    OffersNearest(cs, order, rs, m, r);
    var group, offered := Group(cs, order, m.used, k), Offered(cs, order, rs, m, r);
    DistinctSize(group);
    assert Elements(group) == CandidatesOn(cs, k) - TakenOn(cs, m, k);
    DistinctSize(offered);
    TakenOfOffered(cs, order, rs, m, r);
    SubsetSize(Elements(offered), TakenOn(cs, m', k) - TakenOn(cs, m, k));
    assert TakenOn(cs, m, k) <= TakenOn(cs, m', k) && TakenOn(cs, m, k) <= CandidatesOn(cs, k);
  }

  lemma TakenOfOffered(cs: seq<Candidate>, order: seq<nat>, rs: seq<Keyed>, m: Marks, r: nat)
    requires IsOrder(cs, order) && Sound(cs, rs, m)
    requires r < |rs| && LineLayer(cs, order, rs, m).hits[r].None?
    ensures Elements(Offered(cs, order, rs, m, r)) <=
      TakenOn(cs, LineLayer(cs, order, rs, m), rs[r].lineKey) - TakenOn(cs, m, rs[r].lineKey)
  {
    hide Offered, Group, LineLayer;
    forall c | c in Offered(cs, order, rs, m, r)
      ensures c in TakenOn(cs, LineLayer(cs, order, rs, m), rs[r].lineKey) - TakenOn(cs, m, rs[r].lineKey)
    {
      OfferedIsTaken(cs, order, rs, m, r, c);
      OfferedAreFree(cs, order, rs, m, r, c);
    }
  }

  lemma OfferedIsTaken(cs: seq<Candidate>, order: seq<nat>, rs: seq<Keyed>, m: Marks, r: nat, c: nat)
    requires IsOrder(cs, order) && Sound(cs, rs, m)
    requires r < |rs| && LineLayer(cs, order, rs, m).hits[r].None? && c in Offered(cs, order, rs, m, r)
    ensures c in LineLayer(cs, order, rs, m).used
  {
    var ps, m' := Ranked(cs, order, rs, m), LineLayer(cs, order, rs, m);
    RankedMembers(cs, order, rs, m);
    LineLayerSound(cs, order, rs, m);
    var p := NearOf(cs, order, rs, r, c);
    assert p in ps;
    RankedStable(cs, order, rs, m, p);
    var q :| q in ps && Chosen(m', q) && (q.result == p.result || q.candidate == p.candidate);
  }

  /** The only result left under a line key is paired, where any candidate is left under it, with one
      no other is nearer than. */
  lemma LoneResultTakesNearest(cs: seq<Candidate>, order: seq<nat>, rs: seq<Keyed>, m: Marks, r: nat, x: nat)
    requires IsOrder(cs, order) && Sound(cs, rs, m) && r < |rs| && m.hits[r].None?
    requires forall r' :: 0 <= r' < |rs| && r' != r && rs[r'].lineKey == rs[r].lineKey ==> m.hits[r'].Some?
    requires x < |cs| && x !in m.used && cs[x].lineKey == rs[r].lineKey
    ensures var hit := LineLayer(cs, order, rs, m).hits[r];
            && hit.Some? && hit.value.on == OnLine && hit.value.candidate < |cs|
            && cs[hit.value.candidate].lineKey == rs[r].lineKey && hit.value.candidate !in m.used
            && exists d, e :: LinesApart(cs, rs, r, hit.value.candidate, d) && LinesApart(cs, rs, r, x, e) && d <= e
  {
    hide LineLayer, Offered, Group, Agree, OneToOne, SettledFirst, LinesApart, ComesBefore, Away;
    var c := OfferedNoFurther(cs, order, rs, m, r, x);
    LineLayerStable(cs, order, rs, m, r, c);
    var m' := LineLayer(cs, order, rs, m);
    if m'.hits[r] == Some(Hit(c, OnLine)) {
      SoFarApart(cs, rs, r, c, x);
    } else {
      var r': nat, c': nat :| r' < |rs| && c' < |cs| && c' in Offered(cs, order, rs, m, r')
        && m'.hits[r'] == Some(Hit(c', OnLine)) && (r' == r || c' == c) && SettledFirst(cs, order, rs, r', c', r, c);
      OfferedAreFree(cs, order, rs, m, r', c');
      assert r' == r;
      SettledNoFurther(cs, order, rs, r, c', c);
      SoFarApart(cs, rs, r, c', x);
    }
  }

  /** A candidate left is offered, or one no further is. */
  lemma OfferedNoFurther(cs: seq<Candidate>, order: seq<nat>, rs: seq<Keyed>, m: Marks, r: nat, x: nat) returns (c: nat)
    requires IsOrder(cs, order) && Fits(m, rs) && r < |rs| && m.hits[r].None?
    requires x < |cs| && x !in m.used && cs[x].lineKey == rs[r].lineKey
    ensures c in Offered(cs, order, rs, m, r) && c < |cs| && c !in m.used && cs[c].lineKey == rs[r].lineKey
    ensures Away(cs, rs[r].startLine, c) <= Away(cs, rs[r].startLine, x)
  {
    hide Offered, Group, Away;
    var offered, group := Offered(cs, order, rs, m, r), Group(cs, order, m.used, rs[r].lineKey);
    OffersNearest(cs, order, rs, m, r);
    assert x in group && offered != [];
    c := if x in offered then x else offered[0];
    assert c in offered;
    OfferedAreFree(cs, order, rs, m, r, c);
  }

  lemma SettledNoFurther(cs: seq<Candidate>, order: seq<nat>, rs: seq<Keyed>, r: nat, c: nat, c': nat)
    requires r < |rs| && c < |cs| && c' < |cs| && SettledFirst(cs, order, rs, r, c, r, c')
    ensures Away(cs, rs[r].startLine, c) <= Away(cs, rs[r].startLine, c')
  {}

  lemma SoFarApart(cs: seq<Candidate>, rs: seq<Keyed>, r: nat, c: nat, x: nat)
    requires r < |rs| && c < |cs| && x < |cs| && Away(cs, rs[r].startLine, c) <= Away(cs, rs[r].startLine, x)
    ensures exists d, e :: LinesApart(cs, rs, r, c, d) && LinesApart(cs, rs, r, x, e) && d <= e
  {
    var d, e := Away(cs, rs[r].startLine, c), Away(cs, rs[r].startLine, x);
    assert LinesApart(cs, rs, r, c, d) && LinesApart(cs, rs, r, x, e);
  }

  /** Two things on one key of any layer are on one line key. key.go builds its keys so
      (Keys.BuiltKeysNest). */
  ghost predicate Nested(cs: seq<Candidate>, rs: seq<Keyed>) {
    forall c, r, on :: 0 <= c < |cs| && 0 <= r < |rs| ==>
      KeyOfCandidate(cs[c], on) == KeyOfResult(rs[r], on) != "" ==> cs[c].lineKey == rs[r].lineKey
  }

  lemma NestedOnLineKeys(cs: seq<Candidate>, rs: seq<Keyed>, m: Marks)
    requires Sound(cs, rs, m) && Nested(cs, rs)
    ensures OnLineKeys(cs, rs, m)
  {
    forall r | 0 <= r < |rs| && m.hits[r].Some?
      ensures At(cs, m.hits[r].value.candidate).lineKey == rs[r].lineKey
    {
      var h := m.hits[r].value;
      assert KeyOfCandidate(cs[h.candidate], h.on) == KeyOfResult(rs[r], h.on);
    }
  }

  /** Where at most eight results, or at most eight candidates, of a line key reach the line layer,
      matching pairs as many of that line key as it holds results or candidates, whichever is fewer;
      and never fewer than eight more than the earlier layers did, where that many are left. */
  lemma MatchingCardinality(cs: seq<Candidate>, rs: seq<Keyed>, printsChanged: bool, k: string)
    requires Nested(cs, rs)
    ensures var before, after := BeforeLines(cs, rs, printsChanged), Matched(cs, rs, printsChanged);
            var left := |ResultsOn(rs, k)| - |PairedOn(rs, before, k)|;
            var free := |CandidatesOn(cs, k)| - |TakenOn(cs, before, k)|;
            && (left <= 8 || free <= 8 ==>
                  |PairedOn(rs, after, k)| == Min(|ResultsOn(rs, k)|, |CandidatesOn(cs, k)|))
            && |PairedOn(rs, after, k)| >= |PairedOn(rs, before, k)| + Min(Min(left, free), 8)
            && |PairedOn(rs, after, k)| == |TakenOn(cs, after, k)|
  {
    var before, after := BeforeLines(cs, rs, printsChanged), Matched(cs, rs, printsChanged);
    OrderIsOrder(cs);
    BeforeLinesSound(cs, rs, printsChanged);
    MatchedSound(cs, rs, printsChanged);
    NestedOnLineKeys(cs, rs, before);
    NestedOnLineKeys(cs, rs, after);
    PairedTaken(cs, rs, before, k);
    PairedTaken(cs, rs, after, k);
    LineLayerPairs(cs, Order(cs), rs, before, k);
  }

  // ----- All line keys together -----

  /** The results paired. */
  function AllPaired(m: Marks): set<nat> {
    set r | 0 <= r < |m.hits| && m.hits[r].Some?
  }

  function PairedAmong(rs: seq<Keyed>, m: Marks, keys: seq<string>): set<nat>
    requires |m.hits| == |rs|
  {
    set r | 0 <= r < |rs| && m.hits[r].Some? && rs[r].lineKey in keys
  }

  /** Of the results and the candidates of each line key, whichever are fewer, added up. */
  function FewerOfEach(cs: seq<Candidate>, rs: seq<Keyed>, keys: seq<string>): nat {
    if keys == [] then 0
    else
      var n := |keys| - 1;
      FewerOfEach(cs, rs, keys[..n]) + Min(|ResultsOn(rs, keys[n])|, |CandidatesOn(cs, keys[n])|)
  }

  lemma PairedAmongAdds(rs: seq<Keyed>, m: Marks, keys: seq<string>, n: nat)
    requires |m.hits| == |rs| && |keys| == n + 1 && Distinct(keys)
    ensures Distinct(keys[..n])
    ensures |PairedAmong(rs, m, keys)| == |PairedAmong(rs, m, keys[..n])| + |PairedOn(rs, m, keys[n])|
  {
    var before, last := PairedAmong(rs, m, keys[..n]), PairedOn(rs, m, keys[n]);
    assert forall k :: k in keys <==> k in keys[..n] || k == keys[n];
    assert keys[n] !in keys[..n];
    assert PairedAmong(rs, m, keys) == before + last && before !! last;
  }

  lemma {:induction false} TotalAmong(cs: seq<Candidate>, rs: seq<Keyed>, m: Marks, keys: seq<string>)
    requires |m.hits| == |rs| && Distinct(keys)
    requires forall k :: k in keys ==> |PairedOn(rs, m, k)| == Min(|ResultsOn(rs, k)|, |CandidatesOn(cs, k)|)
    ensures |PairedAmong(rs, m, keys)| == FewerOfEach(cs, rs, keys)
  {
    hide PairedAmong;
    if keys == [] {
      NoneAmong(rs, m);
    } else {
      var n := |keys| - 1;
      PairedAmongAdds(rs, m, keys, n);
      TotalAmong(cs, rs, m, keys[..n]);
    }
  }

  lemma NoneAmong(rs: seq<Keyed>, m: Marks)
    requires |m.hits| == |rs|
    ensures PairedAmong(rs, m, []) == {}
  {}

  /** A line key of which at most eight results or at most eight candidates reach the line layer. */
  ghost predicate FewReachLines(cs: seq<Candidate>, rs: seq<Keyed>, printsChanged: bool, k: string) {
    var before := BeforeLines(cs, rs, printsChanged);
    || |ResultsOn(rs, k)| - |PairedOn(rs, before, k)| <= 8
    || |CandidatesOn(cs, k)| - |TakenOn(cs, before, k)| <= 8
  }

  /** Where that holds of every line key a result has, the pairs made in all are the sum over those
      line keys of its results or its candidates, whichever are fewer. */
  lemma MatchingTotal(cs: seq<Candidate>, rs: seq<Keyed>, printsChanged: bool, keys: seq<string>)
    requires Nested(cs, rs) && Distinct(keys)
    requires forall r :: 0 <= r < |rs| ==> rs[r].lineKey in keys
    requires forall k :: k in keys ==> FewReachLines(cs, rs, printsChanged, k)
    ensures |AllPaired(Matched(cs, rs, printsChanged))| == FewerOfEach(cs, rs, keys)
  {
    hide Matched, BeforeLines, PairedOn, ResultsOn, CandidatesOn, TakenOn;
    var after := Matched(cs, rs, printsChanged);
    MatchedSound(cs, rs, printsChanged);
    forall k | k in keys ensures |PairedOn(rs, after, k)| == Min(|ResultsOn(rs, k)|, |CandidatesOn(cs, k)|) {
      assert FewReachLines(cs, rs, printsChanged, k);
      MatchingCardinality(cs, rs, printsChanged, k);
    }
    TotalAmong(cs, rs, after, keys);
    assert AllPaired(after) == PairedAmong(rs, after, keys);
  }
}
