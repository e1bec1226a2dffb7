/** Matching does not depend on the order the candidates are read in: renumbering them renumbers
    what is paired and changes nothing else. */
module LayersOrder {
  import opened Common
  import opened Sorting
  import opened Layers
  import opened LayersTheorems

  function Moved(pi: seq<nat>, c: nat): nat {
    if c < |pi| then pi[c] else c
  }

  function Via(pi: seq<nat>): nat -> nat {
    (c: nat) => Moved(pi, c)
  }

  /** pi says where each candidate of one reading stands in the other. */
  ghost predicate Renumbers(pi: seq<nat>, cs: seq<Candidate>, cs': seq<Candidate>) {
    && |pi| == |cs| == |cs'| && Indexes(pi, |cs'|) && Distinct(pi)
    && forall c :: 0 <= c < |cs| ==> cs'[pi[c]] == cs[c]
  }

  function RenumberedHit(pi: seq<nat>, h: Option<Hit>): Option<Hit> {
    if h.Some? then Some(Hit(Moved(pi, h.value.candidate), h.value.on)) else None
  }

  ghost predicate SameUsed(pi: seq<nat>, used: set<nat>, used': set<nat>) {
    forall c :: 0 <= c < |pi| ==> (c in used <==> pi[c] in used')
  }

  /** The same marks, renumbered. */
  ghost predicate Same(pi: seq<nat>, m: Marks, m': Marks) {
    && |m.hits| == |m'.hits|
    && SameUsed(pi, m.used, m'.used)
    && forall r :: 0 <= r < |m.hits| ==> m'.hits[r] == RenumberedHit(pi, m.hits[r])
  }

  lemma {:induction false} FreeSame(pi: seq<nat>, cs: seq<Candidate>, cs': seq<Candidate>, order: seq<nat>,
                                    used: set<nat>, used': set<nat>, on: Layer, k: string)
    requires Renumbers(pi, cs, cs') && Indexes(order, |cs|) && SameUsed(pi, used, used')
    ensures Free(cs', Mapped(order, Via(pi)), used', on, k) == Mapped(Free(cs, order, used, on, k), Via(pi))
  {
    if order != [] {
      FreeSame(pi, cs, cs', order[1..], used, used', on, k);
      assert Mapped(order, Via(pi))[1..] == Mapped(order[1..], Via(pi));
      assert cs'[pi[order[0]]] == cs[order[0]];
    }
  }

  lemma {:induction false} FreeResultsSame(rs: seq<Keyed>, hits: seq<Option<Hit>>, hits': seq<Option<Hit>>, on: Layer,
                                           k: string, from: nat)
    requires |hits| == |hits'| == |rs| && forall r :: 0 <= r < |rs| ==> (hits[r].None? <==> hits'[r].None?)
    ensures FreeResults(rs, hits', on, k, from) == FreeResults(rs, hits, on, k, from)
    decreases |rs| - from
  {
    if from < |rs| {
      FreeResultsSame(rs, hits, hits', on, k, from + 1);
    }
  }

  lemma TakeSame(pi: seq<nat>, m: Marks, m': Marks, r: nat, c: nat, on: Layer)
    requires Distinct(pi) && Same(pi, m, m') && r < |m.hits| && c < |pi|
    ensures Same(pi, Take(m, r, c, on), Take(m', r, pi[c], on))
  {
    forall d | 0 <= d < |pi| ensures d == c <==> pi[d] == pi[c] {
      DistinctAt(pi, d, c);
    }
  }

  lemma {:induction false} KeyLayerSame(pi: seq<nat>, cs: seq<Candidate>, cs': seq<Candidate>, order: seq<nat>,
                                        rs: seq<Keyed>, on: Layer, m: Marks, m': Marks, r: nat)
    requires Renumbers(pi, cs, cs') && Indexes(order, |cs|) && Fits(m, rs) && Same(pi, m, m') && r <= |rs|
    ensures Same(pi, KeyLayer(cs, order, rs, on, m, r), KeyLayer(cs', Mapped(order, Via(pi)), rs, on, m', r))
    decreases |rs| - r
  {
    if r < |rs| {
      var k, order' := KeyOfResult(rs[r], on), Mapped(order, Via(pi));
      FreeSame(pi, cs, cs', order, m.used, m'.used, on, k);
      var free := Free(cs, order, m.used, on, k);
      FreeMembers(cs, order, m.used, on, k);
      if free != [] {
        assert free[0] in free;
        TakeSame(pi, m, m', r, free[0], on);
      }
      KeyLayerSame(pi, cs, cs', order, rs, on, KeyStep(cs, order, rs, on, m, r), KeyStep(cs', order', rs, on, m', r), r + 1);
    }
  }

  lemma PartnerSame(pi: seq<nat>, cs: seq<Candidate>, cs': seq<Candidate>, order: seq<nat>, rs: seq<Keyed>,
                    m: Marks, m': Marks, r: nat)
    requires Renumbers(pi, cs, cs') && Indexes(order, |cs|) && Fits(m, rs) && Same(pi, m, m') && r < |rs|
    ensures var p, p' := Partner(cs, order, rs, m, r), Partner(cs', Mapped(order, Via(pi)), rs, m', r);
            if p.Some? then p.value < |pi| && p' == Some(pi[p.value]) else p' == None
  {
    var k := rs[r].unprintedKey;
    FreeSame(pi, cs, cs', order, m.used, m'.used, OnUnprinted, k);
    FreeResultsSame(rs, m.hits, m'.hits, OnUnprinted, k, 0);
    var free := Free(cs, order, m.used, OnUnprinted, k);
    FreeMembers(cs, order, m.used, OnUnprinted, k);
    if free != [] { assert free[0] in free; }
  }

  lemma UniqueLayerSame(pi: seq<nat>, cs: seq<Candidate>, cs': seq<Candidate>, order: seq<nat>, rs: seq<Keyed>,
                        m: Marks, m': Marks)
    requires Renumbers(pi, cs, cs') && Indexes(order, |cs|) && Fits(m, rs) && Same(pi, m, m')
    ensures Same(pi, UniqueLayer(cs, order, rs, m), UniqueLayer(cs', Mapped(order, Via(pi)), rs, m'))
  {
    var order' := Mapped(order, Via(pi));
    var u, u' := UniqueLayer(cs, order, rs, m), UniqueLayer(cs', order', rs, m');
    UniqueLayerUses(cs, order, rs, m);
    UniqueLayerUses(cs', order', rs, m');
    forall c | 0 <= c < |pi| ensures c in u.used <==> pi[c] in u'.used {
      PartneredSame(pi, cs, cs', order, rs, m, m', c);
    }
    forall r | 0 <= r < |rs| ensures u'.hits[r] == RenumberedHit(pi, u.hits[r]) {
      PartnerSame(pi, cs, cs', order, rs, m, m', r);
    }
  }

  lemma UniqueLayerUses(cs: seq<Candidate>, order: seq<nat>, rs: seq<Keyed>, m: Marks)
    requires Fits(m, rs)
    ensures forall c: nat :: c in UniqueLayer(cs, order, rs, m).used <==> c in m.used || Partnered(cs, order, rs, m, c)
  {}

  ghost predicate Partnered(cs: seq<Candidate>, order: seq<nat>, rs: seq<Keyed>, m: Marks, c: nat)
    requires Fits(m, rs)
  {
    exists r :: 0 <= r < |rs| && Partner(cs, order, rs, m, r) == Some(c)
  }

  lemma PartneredSame(pi: seq<nat>, cs: seq<Candidate>, cs': seq<Candidate>, order: seq<nat>, rs: seq<Keyed>,
                      m: Marks, m': Marks, c: nat)
    requires Renumbers(pi, cs, cs') && Indexes(order, |cs|) && Fits(m, rs) && Same(pi, m, m') && c < |pi|
    ensures Partnered(cs, order, rs, m, c) <==> Partnered(cs', Mapped(order, Via(pi)), rs, m', pi[c])
  {
    var order' := Mapped(order, Via(pi));
    if r :| 0 <= r < |rs| && Partner(cs, order, rs, m, r) == Some(c) {
      PartnerSame(pi, cs, cs', order, rs, m, m', r);
    }
    if r :| 0 <= r < |rs| && Partner(cs', order', rs, m', r) == Some(pi[c]) {
      PartnerSame(pi, cs, cs', order, rs, m, m', r);
      DistinctAt(pi, Partner(cs, order, rs, m, r).value, c);
    }
  }

  // ----- The nearest line -----

  lemma GroupSame(pi: seq<nat>, cs: seq<Candidate>, cs': seq<Candidate>, order: seq<nat>,
                  used: set<nat>, used': set<nat>, k: string)
    requires Renumbers(pi, cs, cs') && Indexes(order, |cs|) && SameUsed(pi, used, used')
    ensures Group(cs', Mapped(order, Via(pi)), used', k) == Mapped(Group(cs, order, used, k), Via(pi))
  {
    var free := Free(cs, order, used, OnLine, k);
    FreeMembers(cs, order, used, OnLine, k);
    FreeSame(pi, cs, cs', order, used, used', OnLine, k);
    forall i | 0 <= i < |free| ensures free[i] < |cs| {
      assert free[i] in free;
    }
    LineLooksThrough(pi, cs, cs', free);
    SortMaps<nat, nat>(free, Via(pi), ByLine(cs), ByLine(cs'));
  }

  lemma LineLooksThrough(pi: seq<nat>, cs: seq<Candidate>, cs': seq<Candidate>, s: seq<nat>)
    requires Renumbers(pi, cs, cs') && Indexes(s, |cs|)
    ensures LooksThrough<nat, nat>(s, Via(pi), ByLine(cs), ByLine(cs'))
  {
    forall i | 0 <= i < |s| ensures At(cs', Via(pi)(s[i])) == At(cs, s[i]) {
      assert cs'[pi[s[i]]] == cs[s[i]];
    }
  }

  lemma {:induction false} FirstAtLeastSame(pi: seq<nat>, cs: seq<Candidate>, cs': seq<Candidate>, group: seq<nat>, line: int, from: nat)
    requires Renumbers(pi, cs, cs') && Indexes(group, |cs|) && from <= |group|
    ensures FirstAtLeast(cs', Mapped(group, Via(pi)), line, from) == FirstAtLeast(cs, group, line, from)
    decreases |group| - from
  {
    if from < |group| {
      assert cs'[pi[group[from]]] == cs[group[from]];
      FirstAtLeastSame(pi, cs, cs', group, line, from + 1);
    }
  }

  ghost predicate SameLines(cs: seq<Candidate>, cs': seq<Candidate>, group: seq<nat>, group': seq<nat>) {
    && |group'| == |group|
    && forall i :: 0 <= i < |group| ==> At(cs', group'[i]).line == At(cs, group[i]).line
  }

  /** The walk reads lines alone. */
  lemma {:induction false} WindowSame(cs: seq<Candidate>, cs': seq<Candidate>, group: seq<nat>, group': seq<nat>, f: nat -> nat,
                                      line: int, lo: int, hi: nat, n: nat)
    requires SameLines(cs, cs', group, group') && -1 <= lo < hi <= |group|
    requires forall i :: 0 <= i < |group| ==> group'[i] == f(group[i])
    ensures Window(cs', group', line, lo, hi, n) == Mapped(Window(cs, group, line, lo, hi, n), f)
    decreases n
  {
    if !(n == 0 || (lo < 0 && hi >= |group|)) {
      var below := TakesBelow(cs, group, line, lo, hi);
      assert TakesBelow(cs', group', line, lo, hi) == below;
      var lo', hi' := if below then lo - 1 else lo, if below then hi else hi + 1;
      WindowSame(cs, cs', group, group', f, line, lo', hi', n - 1);
      var w := Window(cs, group, line, lo, hi, n);
      assert w[0] == group[if below then lo else hi] && w[1..] == Window(cs, group, line, lo', hi', n - 1);
      assert Mapped(w, f) == [f(w[0])] + Mapped(w[1..], f);
    }
  }

  lemma OfferedSame(pi: seq<nat>, cs: seq<Candidate>, cs': seq<Candidate>, order: seq<nat>, rs: seq<Keyed>,
                    m: Marks, m': Marks, r: nat)
    requires Renumbers(pi, cs, cs') && IsOrder(cs, order) && Fits(m, rs) && Same(pi, m, m') && r < |rs|
    ensures Offered(cs', Mapped(order, Via(pi)), rs, m', r) == Mapped(Offered(cs, order, rs, m, r), Via(pi))
  {
    var k, line := rs[r].lineKey, rs[r].startLine;
    GroupSame(pi, cs, cs', order, m.used, m'.used, k);
    GroupIsGroup(cs, order, m.used, k);
    WalkSame(pi, cs, cs', Group(cs, order, m.used, k), line);
  }

  lemma WalkSame(pi: seq<nat>, cs: seq<Candidate>, cs': seq<Candidate>, group: seq<nat>, line: int)
    requires Renumbers(pi, cs, cs') && Indexes(group, |cs|)
    ensures var group', at := Mapped(group, Via(pi)), FirstAtLeast(cs, group, line, 0);
            FirstAtLeast(cs', group', line, 0) == at &&
            Window(cs', group', line, at - 1, at, NEAREST) == Mapped(Window(cs, group, line, at - 1, at, NEAREST), Via(pi))
  {
    var at: int := FirstAtLeast(cs, group, line, 0);
    var group' := Mapped(group, Via(pi));
    FirstAtLeastSame(pi, cs, cs', group, line, 0);
    assert SameLines(cs, cs', group, group');
    WindowSame(cs, cs', group, group', Via(pi), line, at - 1, at, NEAREST);
  }

  lemma {:induction false} RankSame(pi: seq<nat>, order: seq<nat>, c: nat)
    requires Distinct(pi) && Indexes(order, |pi|) && c < |pi|
    ensures RankOf(Mapped(order, Via(pi)), pi[c]) == RankOf(order, c)
  {
    if order != [] {
      DistinctAt(pi, order[0], c);
      RankSame(pi, order[1..], c);
      assert Mapped(order, Via(pi))[1..] == Mapped(order[1..], Via(pi));
    }
  }

  function RenumberedNear(pi: seq<nat>): Near -> Near {
    (p: Near) => Near(p.distance, p.rank, p.result, Moved(pi, p.candidate))
  }

  lemma ConcatMapped<A, B>(x: seq<A>, a: seq<A>, b: seq<A>, x': seq<B>, a': seq<B>, b': seq<B>, f: A -> B)
    requires x == a + b && x' == a' + b' && a' == Mapped(a, f) && b' == Mapped(b, f)
    ensures x' == Mapped(x, f)
  {
    hide Mapped;
    forall i | 0 <= i < |x| ensures x'[i] == f(x[i]) {
      if i >= |a| { assert x[i] == b[i - |a|]; }
    }
  }

  /** What one result is offered, told in either numbering. */
  lemma PairsSame(pi: seq<nat>, cs: seq<Candidate>, cs': seq<Candidate>, order: seq<nat>, rs: seq<Keyed>,
                  m: Marks, m': Marks, r: nat)
    requires Renumbers(pi, cs, cs') && IsOrder(cs, order) && Fits(m, rs) && Same(pi, m, m') && r < |rs|
    ensures Pairs(cs', Mapped(order, Via(pi)), rs, r, Offered(cs', Mapped(order, Via(pi)), rs, m', r)) ==
      Mapped(Pairs(cs, order, rs, r, Offered(cs, order, rs, m, r)), RenumberedNear(pi))
  {
    var order' := Mapped(order, Via(pi));
    OfferedSame(pi, cs, cs', order, rs, m, m', r);
    var offered, offered' := Offered(cs, order, rs, m, r), Offered(cs', order', rs, m', r);
    var ps, ps' := Pairs(cs, order, rs, r, offered), Pairs(cs', order', rs, r, offered');
    forall i | 0 <= i < |offered| ensures ps'[i] == RenumberedNear(pi)(ps[i]) {
      assert offered[i] in offered;
      OfferedAreFree(cs, order, rs, m, r, offered[i]);
      RankSame(pi, order, offered[i]);
    }
  }

  lemma {:induction false} OffersSame(pi: seq<nat>, cs: seq<Candidate>, cs': seq<Candidate>, order: seq<nat>, rs: seq<Keyed>,
                                      m: Marks, m': Marks, upto: nat)
    requires Renumbers(pi, cs, cs') && IsOrder(cs, order) && Fits(m, rs) && Same(pi, m, m') && upto <= |rs|
    ensures Offers(cs', Mapped(order, Via(pi)), rs, m', upto) == Mapped(Offers(cs, order, rs, m, upto), RenumberedNear(pi))
  {
    if upto > 0 {
      var r, order' := upto - 1, Mapped(order, Via(pi));
      OffersSame(pi, cs, cs', order, rs, m, m', r);
      PairsSame(pi, cs, cs', order, rs, m, m', r);
      ConcatMapped(Offers(cs, order, rs, m, upto), Offers(cs, order, rs, m, r),
                   Pairs(cs, order, rs, r, Offered(cs, order, rs, m, r)),
                   Offers(cs', order', rs, m', upto), Offers(cs', order', rs, m', r),
                   Pairs(cs', order', rs, r, Offered(cs', order', rs, m', r)), RenumberedNear(pi));
    }
  }

  lemma {:induction false} GreedySame(pi: seq<nat>, ps: seq<Near>, m: Marks, m': Marks)
    requires Distinct(pi) && Same(pi, m, m') && Pairable(ps, m)
    requires forall i :: 0 <= i < |ps| ==> ps[i].candidate < |pi|
    ensures Pairable(Mapped(ps, RenumberedNear(pi)), m')
    ensures Same(pi, Greedy(ps, m), Greedy(Mapped(ps, RenumberedNear(pi)), m'))
  {
    if ps != [] {
      var ps' := Mapped(ps, RenumberedNear(pi));
      assert ps'[1..] == Mapped(ps[1..], RenumberedNear(pi));
      TakeSame(pi, m, m', ps[0].result, ps[0].candidate, OnLine);
      assert ps'[0] == RenumberedNear(pi)(ps[0]) && ps'[0].candidate == pi[ps[0].candidate];
      assert pi[ps[0].candidate] in m'.used <==> ps[0].candidate in m.used;
      assert m'.hits[ps[0].result] == RenumberedHit(pi, m.hits[ps[0].result]);
      assert Blocked(m', ps'[0]) <==> Blocked(m, ps[0]);
      var m1 := if Blocked(m, ps[0]) then m else Take(m, ps[0].result, ps[0].candidate, OnLine);
      var m1' := if Blocked(m', ps'[0]) then m' else Take(m', ps'[0].result, ps'[0].candidate, OnLine);
      GreedySame(pi, ps[1..], m1, m1');
    }
  }

  lemma LineLayerSame(pi: seq<nat>, cs: seq<Candidate>, cs': seq<Candidate>, order: seq<nat>, rs: seq<Keyed>,
                      m: Marks, m': Marks)
    requires Renumbers(pi, cs, cs') && IsOrder(cs, order) && Fits(m, rs) && Same(pi, m, m')
    ensures Same(pi, LineLayer(cs, order, rs, m), LineLayer(cs', Mapped(order, Via(pi)), rs, m'))
  {
    var offers, ps := Offers(cs, order, rs, m, |rs|), Ranked(cs, order, rs, m);
    OffersSame(pi, cs, cs', order, rs, m, m', |rs|);
    SortMaps(offers, RenumberedNear(pi), ByDistance(), ByDistance());
    RankedMembers(cs, order, rs, m);
    forall i | 0 <= i < |ps| ensures ps[i].candidate < |pi| {
      assert ps[i] in ps;
      OfferedAreFree(cs, order, rs, m, ps[i].result, ps[i].candidate);
    }
    GreedySame(pi, ps, m, m');
  }

  // ----- The theorem -----

  ghost predicate DistinctIDs(cs: seq<Candidate>) {
    forall c, d :: 0 <= c < d < |cs| ==> cs[c].findingID != cs[d].findingID
  }

  lemma OrderSame(pi: seq<nat>, cs: seq<Candidate>, cs': seq<Candidate>)
    requires Renumbers(pi, cs, cs') && DistinctIDs(cs')
    ensures Order(cs') == Mapped(Order(cs), Via(pi))
  {
    var a, b := Mapped(Order(cs), Via(pi)), Order(cs');
    OrderIsOrder(cs);
    OrderIsOrder(cs');
    forall i, j | 0 <= i < j < |a| ensures a[i] != a[j] && ByAge(cs')(a[i], a[j]) {
      var order, le := Order(cs), ByAge(cs);
      DistinctAt(order, i, j);
      DistinctAt(pi, order[i], order[j]);
      assert le(order[i], order[j]);
    }
    SortPermutes(Range(|cs|), ByAge(cs));
    DistinctSize(a);
    DistinctSize(Range(|cs'|));
    forall x: nat ensures x in a ==> x in Range(|cs'|) {
      if x in a { assert Range(|cs'|)[x] == x; }
    }
    SubsetSize(Elements(a), Elements(Range(|cs'|)));
    forall x: nat ensures x in a <==> x in b {
      assert x in a <==> x in Elements(a);
      assert x in Elements(Range(|cs'|)) <==> x < |cs'| by {
        if x < |cs'| { assert Range(|cs'|)[x] == x; }
      }
    }
    DistinctPermutation(a, b);
    SortUnique<nat>(a, b, ByAge(cs'));
  }

  /** What was decided about each result: the finding it was paired with, and how. */
  function Told(cs: seq<Candidate>, m: Marks): (t: seq<Option<(int, Layer)>>)
    ensures |t| == |m.hits|
    ensures forall r :: 0 <= r < |t| ==>
      t[r] == if m.hits[r].Some? then Some((At(cs, m.hits[r].value.candidate).findingID, m.hits[r].value.on)) else None
  {
    seq(|m.hits|, r requires 0 <= r < |m.hits| =>
      if m.hits[r].Some? then Some((At(cs, m.hits[r].value.candidate).findingID, m.hits[r].value.on)) else None)
  }

  lemma RenumberedMatching(pi: seq<nat>, cs: seq<Candidate>, cs': seq<Candidate>, rs: seq<Keyed>, printsChanged: bool)
    requires Renumbers(pi, cs, cs') && DistinctIDs(cs')
    ensures Same(pi, Matched(cs, rs, printsChanged), Matched(cs', rs, printsChanged))
  {
    var order, order' := Order(cs), Order(cs');
    OrderIsOrder(cs);
    OrderSame(pi, cs, cs');
    var m := Unmarked(rs);
    KeyLayerSame(pi, cs, cs', order, rs, OnKey, m, m, 0);
    var k, k' := KeyLayer(cs, order, rs, OnKey, m, 0), KeyLayer(cs', order', rs, OnKey, m, 0);
    UniqueLayerSame(pi, cs, cs', order, rs, k, k');
    var u := if printsChanged then UniqueLayer(cs, order, rs, k) else k;
    var u' := if printsChanged then UniqueLayer(cs', order', rs, k') else k';
    KeyLayerSame(pi, cs, cs', order, rs, OnFunction, u, u', 0);
    LineLayerSame(pi, cs, cs', order, rs, BeforeLines(cs, rs, printsChanged), BeforeLines(cs', rs, printsChanged));
  }

  /** Reading the same candidates in another order pairs each result with the same finding on the
      same layer. */
  lemma MatchingIgnoresOrder(cs: seq<Candidate>, cs': seq<Candidate>, rs: seq<Keyed>, printsChanged: bool)
    requires multiset(cs) == multiset(cs') && DistinctIDs(cs)
    ensures Told(cs, Matched(cs, rs, printsChanged)) == Told(cs', Matched(cs', rs, printsChanged))
  {
    MultisetMember(cs, cs');
    var pi := Places(cs, cs');
    RenumberedMatching(pi, cs, cs', rs, printsChanged);
    MatchedSound(cs, rs, printsChanged);
  }

  lemma Places(cs: seq<Candidate>, cs': seq<Candidate>) returns (pi: seq<nat>)
    requires multiset(cs) == multiset(cs') && DistinctIDs(cs)
    ensures Renumbers(pi, cs, cs') && DistinctIDs(cs')
  {
    MultisetMember(cs, cs');
    pi := [];
    for i := 0 to |cs|
      invariant |pi| == i && Indexes(pi, |cs'|)
      invariant forall c :: 0 <= c < i ==> cs'[pi[c]] == cs[c]
    {
      assert cs[i] in cs';
      var p: nat :| p < |cs'| && cs'[p] == cs[i];
      pi := pi + [p];
    }
    DistinctTransfers(cs, cs');
    forall c, d | 0 <= c < d < |cs'| ensures cs'[c].findingID != cs'[d].findingID {
      assert cs'[c] in cs && cs'[d] in cs;
      var c0 :| 0 <= c0 < |cs| && cs[c0] == cs'[c];
      var d0 :| 0 <= d0 < |cs| && cs[d0] == cs'[d];
      assert c0 != d0;
      DistinctIDsAt(cs, c0, d0);
    }
  }

  lemma DistinctIDsAt(cs: seq<Candidate>, c: nat, d: nat)
    requires DistinctIDs(cs) && c < |cs| && d < |cs| && c != d
    ensures cs[c].findingID != cs[d].findingID
  {
    if c < d { assert cs[c].findingID != cs[d].findingID; } else { assert cs[d].findingID != cs[c].findingID; }
  }
}
