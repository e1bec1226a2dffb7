/** The loops of internal/analysis/layers.go: flags flipped in place, queues popped, two pointers
    walked, pairs appended. Each is proved to make exactly the marks Layers describes, whichever
    order a map hands its keys out in. */
module LayersImperative {
  import opened Common
  import opened Sorting
  import opened Layers
  import opened LayersTheorems

  type Queues = map<string, seq<nat>>

  function Queue(q: Queues, k: string): seq<nat> {
    if k in q then q[k] else []
  }

  function ByResult(): (Pairing, Pairing) -> bool {
    (a: Pairing, b: Pairing) => a.result <= b.result
  }

  /** The flags and the list of pairings say what the marks say. */
  ghost predicate Tracks(m: Marks, takenC: seq<bool>, takenR: seq<bool>, out: seq<Pairing>) {
    && |takenR| == |m.hits|
    && Flags(m, takenC, takenR)
    && multiset(out) == multiset(Listed(m.hits))
  }

  ghost predicate Flags(m: Marks, takenC: seq<bool>, takenR: seq<bool>)
    requires |takenR| == |m.hits|
  {
    && (forall c: nat :: c in m.used ==> c < |takenC|)
    && (forall c: nat :: c < |takenC| ==> (takenC[c] <==> c in m.used))
    && (forall r: nat :: r < |takenR| ==> (takenR[r] <==> m.hits[r].Some?))
  }

  lemma FlagsTaking(m: Marks, takenC: seq<bool>, takenR: seq<bool>, r: nat, c: nat, on: Layer)
    requires |takenR| == |m.hits| && Flags(m, takenC, takenR) && r < |takenR| && c < |takenC|
    ensures Flags(Take(m, r, c, on), takenC[c := true], takenR[r := true])
  {}

  lemma {:induction false} ListedTaking(hits: seq<Option<Hit>>, r: nat, h: Hit)
    requires r < |hits| && hits[r].None?
    ensures multiset(Listed(hits[r := Some(h)])) == multiset(Listed(hits)) + multiset{Pairing(r, h.candidate, h.on)}
  {
    var n, hits' := |hits| - 1, hits[r := Some(h)];
    if r < n {
      ListedTaking(hits[..n], r, h);
      assert hits'[..n] == hits[..n][r := Some(h)];
    } else {
      assert hits'[..n] == hits[..n];
    }
  }

  lemma TracksTaking(m: Marks, takenC: seq<bool>, takenR: seq<bool>, out: seq<Pairing>, r: nat, c: nat, on: Layer)
    requires Tracks(m, takenC, takenR, out) && r < |takenR| && !takenR[r] && c < |takenC|
    ensures Tracks(Take(m, r, c, on), takenC[c := true], takenR[r := true], out + [Pairing(r, c, on)])
  {
    FlagsTaking(m, takenC, takenR, r, c, on);
    ListedTaking(m.hits, r, Hit(c, on));
    var p := Pairing(r, c, on);
    assert multiset(out + [p]) == multiset(out) + multiset{p};
  }

  lemma {:induction false} FreeConcat(cs: seq<Candidate>, a: seq<nat>, b: seq<nat>, used: set<nat>, on: Layer, k: string)
    ensures Free(cs, a + b, used, on, k) == Free(cs, a, used, on, k) + Free(cs, b, used, on, k)
  {
    if a == [] {
      assert a + b == b;
    } else {
      assert (a + b)[1..] == a[1..] + b;
      FreeConcat(cs, a[1..], b, used, on, k);
    }
  }

  lemma FreeAppend(cs: seq<Candidate>, order: seq<nat>, i: nat, used: set<nat>, on: Layer, k: string)
    requires i < |order|
    ensures Free(cs, order[..i + 1], used, on, k) ==
            Free(cs, order[..i], used, on, k) +
            (if order[i] !in used && KeyOfCandidate(At(cs, order[i]), on) == k then [order[i]] else [])
  {
    assert order[..i + 1] == order[..i] + [order[i]];
    FreeConcat(cs, order[..i], [order[i]], used, on, k);
  }

  /** The candidates still free, queued under each key in order. Where empty is false, a candidate
      with no key is left out. */
  method Enqueue(cs: seq<Candidate>, order: seq<nat>, on: Layer, empty: bool, takenC: array<bool>, ghost used: set<nat>)
    returns (waiting: Queues)
    requires IsOrder(cs, order) && takenC.Length == |cs|
    requires forall c: nat :: c < |cs| ==> (takenC[c] <==> c in used)
    ensures forall k :: empty || k != "" ==> Queue(waiting, k) == Free(cs, order, used, on, k)
  {
    waiting := map[];
    for i := 0 to |order|
      invariant forall k :: empty || k != "" ==> Queue(waiting, k) == Free(cs, order[..i], used, on, k)
    {
      var c := order[i];
      var k := KeyOfCandidate(cs[c], on);
      forall k' ensures Free(cs, order[..i + 1], used, on, k') ==
                        Free(cs, order[..i], used, on, k') + (if c !in used && k == k' then [c] else []) {
        FreeAppend(cs, order, i, used, on, k');
      }
      ghost var was := waiting;
      if !takenC[c] && (empty || k != "") {
        waiting := waiting[k := Queue(waiting, k) + [c]];
      }
      forall k' | empty || k' != ""
        ensures Queue(waiting, k') == Queue(was, k') + (if c !in used && k == k' then [c] else []) {}
    }
    assert order[..|order|] == order;
  }

  /** Popping a queue leaves every queue as it should be once its head is taken. */
  lemma WaitingNext(cs: seq<Candidate>, order: seq<nat>, used: set<nat>, on: Layer, waiting: Queues, k: string)
    requires IsOrder(cs, order) && k != "" && Queue(waiting, k) != []
    requires forall k' :: k' != "" ==> Queue(waiting, k') == Free(cs, order, used, on, k')
    ensures var c := Queue(waiting, k)[0];
            && c < |cs|
            && forall k' :: k' != "" ==>
                 Queue(waiting[k := Queue(waiting, k)[1..]], k') == Free(cs, order, used + {c}, on, k')
  {
    var c := Queue(waiting, k)[0];
    FreeMembers(cs, order, used, on, k);
    assert c in Free(cs, order, used, on, k);
    forall k' | k' != ""
      ensures Queue(waiting[k := Queue(waiting, k)[1..]], k') == Free(cs, order, used + {c}, on, k')
    {
      FreeMembers(cs, order, used, on, k');
      FreeAfterTaking(cs, order, used, on, k', c);
    }
  }

  method RunKeyLayer(cs: seq<Candidate>, order: seq<nat>, rs: seq<Keyed>, on: Layer, takenC: array<bool>,
                     takenR: array<bool>, before: seq<Pairing>, ghost m: Marks)
    returns (out: seq<Pairing>)
    requires IsOrder(cs, order) && Fits(m, rs) && takenC != takenR && takenC.Length == |cs|
    requires Tracks(m, takenC[..], takenR[..], before)
    modifies takenC, takenR
    ensures Tracks(KeyLayer(cs, order, rs, on, m, 0), takenC[..], takenR[..], out)
  {
    hide Free, KeyOfResult, IsOrder;
    out := before;
    ghost var now := m;
    var waiting := Enqueue(cs, order, on, false, takenC, m.used);
    for r := 0 to |rs|
      invariant Fits(now, rs) && Tracks(now, takenC[..], takenR[..], out)
      invariant KeyLayer(cs, order, rs, on, now, r) == KeyLayer(cs, order, rs, on, m, 0)
      invariant forall k :: k != "" ==> Queue(waiting, k) == Free(cs, order, now.used, on, k)
    {
      var k := KeyOfResult(rs[r], on);
      ghost var was := now;
      now := KeyStep(cs, order, rs, on, was, r);
      if takenR[r] || k == "" || |Queue(waiting, k)| == 0 {
        continue;
      }
      var c := Queue(waiting, k)[0];
      WaitingNext(cs, order, was.used, on, waiting, k);
      waiting := waiting[k := Queue(waiting, k)[1..]];
      TracksTaking(was, takenC[..], takenR[..], out, r, c, on);
      takenC[c], takenR[r] := true, true;
      out := out + [Pairing(r, c, on)];
    }
  }

  // ----- The unique unprinted key -----

  ghost predicate HeldBefore(rs: seq<Keyed>, m: Marks, n: nat, k: string, q: seq<nat>)
    requires Fits(m, rs) && n <= |rs|
  {
    forall i: nat :: i in q <==> i < n && m.hits[i].None? && k != "" && rs[i].unprintedKey == k
  }

  /** The results still free under an unprinted key, queued under it. */
  method EnqueueResults(rs: seq<Keyed>, takenR: array<bool>, ghost m: Marks) returns (held: Queues)
    requires Fits(m, rs) && takenR.Length == |rs|
    requires forall r: nat :: r < |rs| ==> (takenR[r] <==> m.hits[r].Some?)
    ensures forall k :: k in held <==> k != "" && FreeResults(rs, m.hits, OnUnprinted, k, 0) != []
    ensures forall k :: k in held ==> Distinct(held[k]) && |held[k]| == |FreeResults(rs, m.hits, OnUnprinted, k, 0)|
    ensures forall k, r :: k in held ==> (r in held[k] <==> r in FreeResults(rs, m.hits, OnUnprinted, k, 0))
  {
    held := map[];
    for r := 0 to |rs|
      invariant forall k :: k in held ==> k != "" && held[k] != [] && Distinct(held[k])
      invariant forall k :: HeldBefore(rs, m, r, k, Queue(held, k))
    {
      var k := rs[r].unprintedKey;
      ghost var was := held;
      if !takenR[r] && k != "" {
        held := held[k := Queue(held, k) + [r]];
      }
      forall k' ensures HeldBefore(rs, m, r + 1, k', Queue(held, k')) {
        assert HeldBefore(rs, m, r, k', Queue(was, k'));
      }
    }
    forall k
      ensures k in held <==> k != "" && FreeResults(rs, m.hits, OnUnprinted, k, 0) != []
      ensures k in held ==> |held[k]| == |FreeResults(rs, m.hits, OnUnprinted, k, 0)|
      ensures forall r :: k in held ==> (r in held[k] <==> r in FreeResults(rs, m.hits, OnUnprinted, k, 0))
    {
      var free := FreeResults(rs, m.hits, OnUnprinted, k, 0);
      FreeResultsMembers(rs, m.hits, OnUnprinted, k, 0);
      assert HeldBefore(rs, m, |rs|, k, Queue(held, k));
      assert free != [] ==> free[0] in free;
      if k in held {
        assert held[k] == Queue(held, k);
        assert held[k][0] in held[k];
        SameElementsSameLength<nat>(held[k], free);
      }
    }
  }

  ghost predicate PartneredBy(cs: seq<Candidate>, order: seq<nat>, rs: seq<Keyed>, m: Marks, todo: set<string>, c: nat)
    requires Fits(m, rs)
  {
    exists r :: 0 <= r < |rs| && Partner(cs, order, rs, m, r) == Some(c) && rs[r].unprintedKey !in todo
  }

  /** The pairs made so far by the unique layer: those whose key is done. */
  ghost predicate UniqueSoFar(cs: seq<Candidate>, order: seq<nat>, rs: seq<Keyed>, m: Marks, now: Marks, todo: set<string>)
    requires Fits(m, rs)
  {
    && Fits(now, rs)
    && (forall r :: 0 <= r < |rs| ==>
          now.hits[r] == if Partner(cs, order, rs, m, r).Some? && rs[r].unprintedKey !in todo
                         then Some(Hit(Partner(cs, order, rs, m, r).value, OnUnprinted)) else m.hits[r])
    && (forall c: nat :: c in now.used <==> c in m.used || PartneredBy(cs, order, rs, m, todo, c))
  }

  lemma UniqueDone(cs: seq<Candidate>, order: seq<nat>, rs: seq<Keyed>, m: Marks, now: Marks)
    requires Fits(m, rs) && UniqueSoFar(cs, order, rs, m, now, {})
    ensures now == UniqueLayer(cs, order, rs, m)
  {
    assert now.hits == UniqueLayer(cs, order, rs, m).hits;
    assert now.used == UniqueLayer(cs, order, rs, m).used;
  }

  /** The partners by key, as the two maps hold them. */
  lemma PartnersOfKey(cs: seq<Candidate>, order: seq<nat>, rs: seq<Keyed>, m: Marks, k: string, held: seq<nat>, cands: seq<nat>)
    requires IsOrder(cs, order) && Fits(m, rs) && k != ""
    requires |held| == |FreeResults(rs, m.hits, OnUnprinted, k, 0)|
    requires forall r :: r in held <==> r in FreeResults(rs, m.hits, OnUnprinted, k, 0)
    requires cands == Free(cs, Range(|cs|), m.used, OnUnprinted, k)
    ensures |held| == 1 && |cands| == 1 ==> held[0] < |rs| && m.hits[held[0]].None? && rs[held[0]].unprintedKey == k
    ensures |held| == 1 && |cands| == 1 ==> cands[0] < |cs| && cands[0] !in m.used
    ensures forall r :: 0 <= r < |rs| && rs[r].unprintedKey == k ==>
              Partner(cs, order, rs, m, r) ==
              if |held| == 1 && |cands| == 1 && r == held[0] then Some(cands[0]) else None
  {
    FreeResultsMembers(rs, m.hits, OnUnprinted, k, 0);
    var free, results := Free(cs, order, m.used, OnUnprinted, k), FreeResults(rs, m.hits, OnUnprinted, k, 0);
    FreeMembers(cs, order, m.used, OnUnprinted, k);
    FreeMembers(cs, Range(|cs|), m.used, OnUnprinted, k);
    forall c: nat ensures c in free <==> c in cands {
      if c < |cs| { assert Range(|cs|)[c] == c; }
    }
    SameElementsSameLength<nat>(free, cands);
    if |cands| == 1 {
      assert cands[0] in cands && free[0] in free;
    }
    if |held| == 1 {
      assert held[0] in held && results[0] in results;
      forall r | 0 <= r < |rs| && rs[r].unprintedKey == k && m.hits[r].None? ensures r == held[0] {
        assert r in results && r in held;
      }
    }
  }

  lemma PartneredIsFree(cs: seq<Candidate>, order: seq<nat>, rs: seq<Keyed>, m: Marks, r: nat)
    requires Fits(m, rs) && r < |rs| && Partner(cs, order, rs, m, r).Some?
    ensures FreeResults(rs, m.hits, OnUnprinted, rs[r].unprintedKey, 0) != [] && rs[r].unprintedKey != ""
  {}

  lemma RangeIsOrder(cs: seq<Candidate>)
    ensures IsOrder(cs, Range(|cs|))
  {
    forall c | 0 <= c < |cs| ensures c in Range(|cs|) { assert Range(|cs|)[c] == c; }
  }

  method RunUnique(cs: seq<Candidate>, ghost order: seq<nat>, rs: seq<Keyed>, takenC: array<bool>, takenR: array<bool>,
                   before: seq<Pairing>, ghost m: Marks)
    returns (out: seq<Pairing>)
    requires IsOrder(cs, order) && Fits(m, rs) && takenC != takenR && takenC.Length == |cs|
    requires Tracks(m, takenC[..], takenR[..], before)
    modifies takenC, takenR
    ensures Tracks(UniqueLayer(cs, order, rs, m), takenC[..], takenR[..], out)
  {
    hide Free, FreeResults, Partner, IsOrder, UniqueLayer;
    RangeIsOrder(cs);
    forall r | 0 <= r < |rs| && Partner(cs, order, rs, m, r).Some?
      ensures FreeResults(rs, m.hits, OnUnprinted, rs[r].unprintedKey, 0) != [] && rs[r].unprintedKey != ""
    {
      PartneredIsFree(cs, order, rs, m, r);
    }
    var codeFindings := Enqueue(cs, Range(|cs|), OnUnprinted, false, takenC, m.used);
    var held := EnqueueResults(rs, takenR, m);
    out := before;
    ghost var now := m;
    var todo := held.Keys;
    while todo != {}
      invariant todo <= held.Keys
      invariant UniqueSoFar(cs, order, rs, m, now, todo)
      invariant Tracks(now, takenC[..], takenR[..], out)
    {
      var k :| k in todo;
      var cands := Queue(codeFindings, k);
      PartnersOfKey(cs, order, rs, m, k, held[k], cands);
      ghost var was := now;
      if |held[k]| == 1 && |cands| == 1 {
        var r, c := held[k][0], cands[0];
        assert Partner(cs, order, rs, m, r) == Some(c);
        UniqueTakes(cs, order, rs, m, was, todo, k, r, c);
        now := Take(was, r, c, OnUnprinted);
        TracksTaking(was, takenC[..], takenR[..], out, r, c, OnUnprinted);
        takenC[c], takenR[r] := true, true;
        out := out + [Pairing(r, c, OnUnprinted)];
      } else {
        UniqueSkips(cs, order, rs, m, was, todo, k);
      }
      todo := todo - {k};
    }
    UniqueDone(cs, order, rs, m, now);
  }

  lemma UniqueTakes(cs: seq<Candidate>, order: seq<nat>, rs: seq<Keyed>, m: Marks, now: Marks, todo: set<string>,
                    k: string, r: nat, c: nat)
    requires IsOrder(cs, order) && Fits(m, rs) && UniqueSoFar(cs, order, rs, m, now, todo) && k in todo
    requires r < |rs| && rs[r].unprintedKey == k && Partner(cs, order, rs, m, r) == Some(c)
    requires forall i :: 0 <= i < |rs| && rs[i].unprintedKey == k && i != r ==> Partner(cs, order, rs, m, i) == None
    ensures now.hits[r].None? && c < |cs| && c !in now.used
    ensures UniqueSoFar(cs, order, rs, m, Take(now, r, c, OnUnprinted), todo - {k})
  {
    PartnerFacts(cs, order, rs, m, r);
    if c in now.used {
      var i :| 0 <= i < |rs| && Partner(cs, order, rs, m, i) == Some(c) && rs[i].unprintedKey !in todo;
      PartnerFacts(cs, order, rs, m, i);
      assert false;
    }
    var next := Take(now, r, c, OnUnprinted);
    forall d: nat ensures d in next.used <==> d in m.used || PartneredBy(cs, order, rs, m, todo - {k}, d) {
      if i :| 0 <= i < |rs| && Partner(cs, order, rs, m, i) == Some(d) && rs[i].unprintedKey !in todo - {k} {
        assert rs[i].unprintedKey == k ==> i == r;
      }
    }
  }

  lemma UniqueSkips(cs: seq<Candidate>, order: seq<nat>, rs: seq<Keyed>, m: Marks, now: Marks, todo: set<string>, k: string)
    requires Fits(m, rs) && UniqueSoFar(cs, order, rs, m, now, todo) && k in todo
    requires forall i :: 0 <= i < |rs| && rs[i].unprintedKey == k ==> Partner(cs, order, rs, m, i) == None
    ensures UniqueSoFar(cs, order, rs, m, now, todo - {k})
  {}

  // ----- The nearest line -----

  lemma {:induction false} RankOfAt(order: seq<nat>, i: nat)
    requires Distinct(order) && i < |order|
    ensures RankOf(order, order[i]) == i
  {
    if i > 0 {
      DistinctAt(order, 0, i);
      RankOfAt(order[1..], i - 1);
    }
  }

  /** Where each candidate stands. */
  function Standing(order: seq<nat>): map<nat, nat> {
    map c | c in order :: RankOf(order, c)
  }

  method Ranks(order: seq<nat>) returns (rank: map<nat, nat>)
    requires Distinct(order)
    ensures rank == Standing(order)
  {
    rank := map[];
    for i := 0 to |order|
      invariant forall c :: c in rank <==> c in order[..i]
      invariant forall c :: c in rank ==> rank[c] == RankOf(order, c)
    {
      RankOfAt(order, i);
      rank := rank[order[i] := i];
    }
  }

  /** Each line key's free candidates, by line. */
  method Groups(cs: seq<Candidate>, order: seq<nat>, takenC: array<bool>, ghost used: set<nat>) returns (byKey: Queues)
    requires IsOrder(cs, order) && takenC.Length == |cs|
    requires forall c: nat :: c < |cs| ==> (takenC[c] <==> c in used)
    ensures forall k :: Queue(byKey, k) == Group(cs, order, used, k)
  {
    byKey := Enqueue(cs, order, OnLine, true, takenC, used);
    var todo := byKey.Keys;
    while todo != {}
      invariant todo <= byKey.Keys
      invariant forall k :: Queue(byKey, k) ==
                  if k in todo then Free(cs, order, used, OnLine, k) else Group(cs, order, used, k)
    {
      var k :| k in todo;
      byKey := byKey[k := Sort(byKey[k], ByLine(cs))];
      todo := todo - {k};
    }
  }

  /** What is left of a walk. */
  ghost predicate IsRest(tail: seq<nat>, cs: seq<Candidate>, group: seq<nat>, line: int, lo: int, hi: nat, n: nat)
    requires -1 <= lo < hi <= |group|
  {
    tail == Window(cs, group, line, lo, hi, n)
  }

  /** One step of the walk, seen from the whole of it. */
  lemma WindowStep(cs: seq<Candidate>, group: seq<nat>, line: int, lo: int, hi: nat, n: nat, whole: seq<nat>, i: nat)
    returns (c: nat, lo': int, hi': nat, tail: seq<nat>)
    requires -1 <= lo < hi <= |group| && n > 0 && (lo >= 0 || hi < |group|)
    requires i <= |whole| && IsRest(whole[i..], cs, group, line, lo, hi, n)
    ensures if TakesBelow(cs, group, line, lo, hi)
            then c == group[lo] && lo' == lo - 1 && hi' == hi
            else c == group[hi] && lo' == lo && hi' == hi + 1
    ensures i < |whole| && whole[i] == c
    ensures tail == whole[i + 1..] && IsRest(tail, cs, group, line, lo', hi', n - 1)
  {
    var below := TakesBelow(cs, group, line, lo, hi);
    c := group[if below then lo else hi];
    lo', hi' := if below then lo - 1 else lo, if below then hi else hi + 1;
    tail := whole[i + 1..];
    assert whole[i..][1..] == tail;
  }

  ghost predicate OfferedUpTo(cs: seq<Candidate>, rank: map<nat, nat>, line: int, r: nat, whole: seq<nat>, pairs: seq<Near>) {
    |pairs| <= |whole| &&
    forall i :: 0 <= i < |pairs| ==>
      whole[i] in rank && pairs[i] == Near(Away(cs, line, whole[i]), rank[whole[i]], r, whole[i])
  }

  /** The candidate under the nearer pointer, and the pointers moved past it. */
  method Step(cs: seq<Candidate>, group: seq<nat>, line: int, lo: int, hi: nat) returns (c: nat, lo': int, hi': nat)
    requires Indexes(group, |cs|) && -1 <= lo < hi <= |group| && (lo >= 0 || hi < |group|)
    ensures if TakesBelow(cs, group, line, lo, hi)
            then c == group[lo] && lo' == lo - 1 && hi' == hi
            else c == group[hi] && lo' == lo && hi' == hi + 1
  {
    lo', hi' := lo, hi;
    if lo < 0 {
      c, hi' := group[hi], hi + 1;
    } else if hi >= |group| {
      c, lo' := group[lo], lo - 1;
    } else if line - cs[group[lo]].line <= cs[group[hi]].line - line {
      c, lo' := group[lo], lo - 1;
    } else {
      c, hi' := group[hi], hi + 1;
    }
  }

  /** The pairs one result is offered, as the two pointers walk outwards from its line. */
  method Offer(cs: seq<Candidate>, line: int, r: nat, group: seq<nat>, at: int, rank: map<nat, nat>)
    returns (pairs: seq<Near>)
    requires Indexes(group, |cs|) && 0 <= at <= |group| && forall i :: 0 <= i < |group| ==> group[i] in rank
    ensures |pairs| == |Window(cs, group, line, at - 1, at, NEAREST)|
    ensures OfferedUpTo(cs, rank, line, r, Window(cs, group, line, at - 1, at, NEAREST), pairs)
  {
    pairs := [];
    var lo: int, hi: nat := at - 1, at;
    var n: nat := 0;
    ghost var whole := Window(cs, group, line, at - 1, at, NEAREST);
    ghost var left: nat, tail := NEAREST, whole;
    while n < NEAREST && (lo >= 0 || hi < |group|)
      invariant -1 <= lo < hi <= |group| && n <= NEAREST
      invariant n == |pairs| && OfferedUpTo(cs, rank, line, r, whole, pairs)
      invariant left == NEAREST - n && tail == whole[n..]
      invariant IsRest(tail, cs, group, line, lo, hi, left)
      decreases NEAREST - n
    {
      ghost var c1, lo1, hi1, tail1 := WindowStep(cs, group, line, lo, hi, left, whole, n);
      var c;
      c, lo, hi := Step(cs, group, line, lo, hi);
      var d := line - cs[c].line;
      if d < 0 {
        d := -d;
      }
      assert c == c1 && lo == lo1 && hi == hi1;
      left := left - 1;
      tail := tail1;
      pairs := pairs + [Near(d, rank[c], r, c)];
      n := n + 1;
    }
    assert tail == [];
  }

  /** A result already paired, or with nothing left to offer it, adds nothing. */
  lemma OffersSkip(cs: seq<Candidate>, order: seq<nat>, rs: seq<Keyed>, m: Marks, r: nat)
    requires Fits(m, rs) && r < |rs| && (m.hits[r].Some? || Group(cs, order, m.used, rs[r].lineKey) == [])
    ensures Offers(cs, order, rs, m, r + 1) == Offers(cs, order, rs, m, r)
  {
    assert Offered(cs, order, rs, m, r) == [];
  }

  lemma OffersAdd(cs: seq<Candidate>, order: seq<nat>, rs: seq<Keyed>, m: Marks, r: nat, added: seq<Near>)
    requires Fits(m, rs) && r < |rs| && m.hits[r].None?
    requires var group := Group(cs, order, m.used, rs[r].lineKey);
             var at := FirstAtLeast(cs, group, rs[r].startLine, 0);
             var offered := Window(cs, group, rs[r].startLine, at - 1, at, NEAREST);
             group != [] && |added| == |offered| && OfferedUpTo(cs, Standing(order), rs[r].startLine, r, offered, added)
    ensures Offers(cs, order, rs, m, r + 1) == Offers(cs, order, rs, m, r) + added
  {
    hide Window, Group, Offered, OfferedUpTo, Standing;
    OfferedIs(cs, order, rs, m, r);
    PairsAre(cs, order, rs, r, Offered(cs, order, rs, m, r), added);
  }

  lemma OfferedIs(cs: seq<Candidate>, order: seq<nat>, rs: seq<Keyed>, m: Marks, r: nat)
    requires Fits(m, rs) && r < |rs| && m.hits[r].None? && Group(cs, order, m.used, rs[r].lineKey) != []
    ensures var group := Group(cs, order, m.used, rs[r].lineKey);
            var at := FirstAtLeast(cs, group, rs[r].startLine, 0);
            Offered(cs, order, rs, m, r) == Window(cs, group, rs[r].startLine, at - 1, at, NEAREST)
  {
    hide Window, Group, FirstAtLeast;
  }

  lemma PairsAre(cs: seq<Candidate>, order: seq<nat>, rs: seq<Keyed>, r: nat, offered: seq<nat>, added: seq<Near>)
    requires r < |rs| && |added| == |offered| && OfferedUpTo(cs, Standing(order), rs[r].startLine, r, offered, added)
    ensures added == Pairs(cs, order, rs, r, offered)
  {}

  lemma NoOffers(cs: seq<Candidate>, order: seq<nat>, rs: seq<Keyed>, m: Marks)
    requires Fits(m, rs)
    ensures Offers(cs, order, rs, m, 0) == []
  {}

  method MakeOffers(cs: seq<Candidate>, ghost order: seq<nat>, rs: seq<Keyed>, takenR: array<bool>,
                    rank: map<nat, nat>, byKey: Queues, ghost m: Marks)
    returns (pairs: seq<Near>)
    requires IsOrder(cs, order) && Fits(m, rs) && takenR.Length == |rs|
    requires forall r: nat :: r < |rs| ==> (takenR[r] <==> m.hits[r].Some?)
    requires rank == Standing(order)
    requires forall k :: Queue(byKey, k) == Group(cs, order, m.used, k)
    ensures pairs == Offers(cs, order, rs, m, |rs|)
  {
    hide Offers, Group, Free, IsOrder, Standing;
    NoOffers(cs, order, rs, m);
    pairs := [];
    for r := 0 to |rs|
      invariant pairs == Offers(cs, order, rs, m, r)
    {
      var group := Queue(byKey, rs[r].lineKey);
      if takenR[r] || |group| == 0 {
        OffersSkip(cs, order, rs, m, r);
        continue;
      }
      GroupRanked(cs, order, m.used, rs[r].lineKey);
      var at := FirstAtLeast(cs, group, rs[r].startLine, 0);
      var added := Offer(cs, rs[r].startLine, r, group, at, rank);
      OffersAdd(cs, order, rs, m, r, added);
      pairs := pairs + added;
    }
  }

  lemma GroupRanked(cs: seq<Candidate>, order: seq<nat>, used: set<nat>, k: string)
    requires IsOrder(cs, order)
    ensures var group := Group(cs, order, used, k);
            Indexes(group, |cs|) && forall i :: 0 <= i < |group| ==> group[i] in Standing(order)
  {
    GroupIsGroup(cs, order, used, k);
  }

  lemma RankedFree(cs: seq<Candidate>, order: seq<nat>, rs: seq<Keyed>, m: Marks)
    requires IsOrder(cs, order) && Fits(m, rs)
    ensures forall i :: 0 <= i < |Ranked(cs, order, rs, m)| ==>
              Ranked(cs, order, rs, m)[i].result < |rs| && Ranked(cs, order, rs, m)[i].candidate < |cs|
  {
    var ps := Ranked(cs, order, rs, m);
    RankedMembers(cs, order, rs, m);
    forall i | 0 <= i < |ps| ensures ps[i].result < |rs| && ps[i].candidate < |cs| {
      assert ps[i] in ps;
      OfferedAreFree(cs, order, rs, m, ps[i].result, ps[i].candidate);
    }
  }

  /** Closest pairs first, passing over what is taken. */
  method TakeClosest(ranked: seq<Near>, takenC: array<bool>, takenR: array<bool>, before: seq<Pairing>, ghost m: Marks)
    returns (out: seq<Pairing>)
    requires takenC != takenR && Tracks(m, takenC[..], takenR[..], before)
    requires forall i :: 0 <= i < |ranked| ==> ranked[i].result < takenR.Length && ranked[i].candidate < takenC.Length
    modifies takenC, takenR
    ensures Tracks(Greedy(ranked, m), takenC[..], takenR[..], out)
  {
    out := before;
    ghost var now := m;
    for i := 0 to |ranked|
      invariant |now.hits| == |m.hits| && Tracks(now, takenC[..], takenR[..], out)
      invariant Greedy(ranked[i..], now) == Greedy(ranked, m)
    {
      var p := ranked[i];
      assert ranked[i..][0] == p && ranked[i..][1..] == ranked[i + 1..];
      if takenR[p.result] || takenC[p.candidate] {
        continue;
      }
      TracksTaking(now, takenC[..], takenR[..], out, p.result, p.candidate, OnLine);
      now := Take(now, p.result, p.candidate, OnLine);
      takenC[p.candidate], takenR[p.result] := true, true;
      out := out + [Pairing(p.result, p.candidate, OnLine)];
    }
  }

  method RunLineLayer(cs: seq<Candidate>, order: seq<nat>, rs: seq<Keyed>, takenC: array<bool>, takenR: array<bool>,
                      before: seq<Pairing>, ghost m: Marks)
    returns (out: seq<Pairing>)
    requires IsOrder(cs, order) && Fits(m, rs) && takenC != takenR && takenC.Length == |cs|
    requires Tracks(m, takenC[..], takenR[..], before)
    modifies takenC, takenR
    ensures Tracks(LineLayer(cs, order, rs, m), takenC[..], takenR[..], out)
  {
    var rank := Ranks(order);
    var byKey := Groups(cs, order, takenC, m.used);
    var pairs := MakeOffers(cs, order, rs, takenR, rank, byKey, m);
    RankedFree(cs, order, rs, m);
    var ranked := Sort(pairs, ByDistance());
    assert ranked == Ranked(cs, order, rs, m);
    out := TakeClosest(ranked, takenC, takenR, before, m);
  }

  // ----- All the layers -----

  /** The pairings, each result and each candidate at most once, by result: the ones Layers
      describes, whatever order the maps are walked in. */
  method Layered(cs: seq<Candidate>, rs: seq<Keyed>, printsChanged: bool) returns (out: seq<Pairing>)
    ensures out == Listed(Matched(cs, rs, printsChanged).hits)
  {
    var takenC := new bool[|cs|](_ => false);
    var takenR := new bool[|rs|](_ => false);
    var order := Sort(Range(|cs|), ByAge(cs));
    OrderIsOrder(cs);
    ghost var m := Unmarked(rs);
    ListedUnmarked(m.hits);
    out := RunKeyLayer(cs, order, rs, OnKey, takenC, takenR, [], m);
    m := KeyLayer(cs, order, rs, OnKey, m, 0);
    if printsChanged {
      out := RunUnique(cs, order, rs, takenC, takenR, out, m);
      m := UniqueLayer(cs, order, rs, m);
    }
    out := RunKeyLayer(cs, order, rs, OnFunction, takenC, takenR, out, m);
    m := KeyLayer(cs, order, rs, OnFunction, m, 0);
    assert m == BeforeLines(cs, rs, printsChanged);
    out := RunLineLayer(cs, order, rs, takenC, takenR, out, m);
    ghost var hits := Matched(cs, rs, printsChanged).hits;
    ListedOnce(hits, out);
    out := Sort(out, ByResult());
  }

  lemma {:induction false} ListedUnmarked(hits: seq<Option<Hit>>)
    requires forall r :: 0 <= r < |hits| ==> hits[r].None?
    ensures Listed(hits) == []
  {
    if hits != [] {
      ListedUnmarked(hits[..|hits| - 1]);
    }
  }

  lemma ListedOnce(hits: seq<Option<Hit>>, out: seq<Pairing>)
    requires multiset(out) == multiset(Listed(hits))
    ensures Sort(out, ByResult()) == Listed(hits)
  {
    var sorted, listed := Sort(out, ByResult()), Listed(hits);
    SortFacts(out, sorted, ByResult());
    forall x, y | x in listed && y in listed && x.result == y.result ensures x == y {
      var i :| 0 <= i < |listed| && listed[i] == x;
      var j :| 0 <= j < |listed| && listed[j] == y;
    }
    SortUnique(listed, sorted, ByResult());
  }

  /** No result and no code finding is paired twice. */
  ghost predicate PairedOnce(out: seq<Pairing>) {
    forall i, j :: 0 <= i < j < |out| ==> out[i].result < out[j].result && out[i].candidate != out[j].candidate
  }

  /** Both of a pair hold the key of the layer they were paired on. */
  ghost predicate PairedOnKeys(cs: seq<Candidate>, rs: seq<Keyed>, out: seq<Pairing>) {
    forall i :: 0 <= i < |out| ==>
      out[i].candidate < |cs| && out[i].result < |rs|
      && OnOneKey(cs[out[i].candidate], rs[out[i].result], out[i].on)
  }

  lemma ListedSound(cs: seq<Candidate>, rs: seq<Keyed>, printsChanged: bool)
    ensures var out := Listed(Matched(cs, rs, printsChanged).hits); PairedOnce(out) && PairedOnKeys(cs, rs, out)
  {
    hide Matched;
    MatchedSound(cs, rs, printsChanged);
  }

  /** pair, and pairAcross for a fingerprint change. */
  method Pair(cs: seq<Candidate>, rs: seq<Keyed>) returns (out: seq<Pairing>)
    ensures out == Listed(Matched(cs, rs, false).hits) && PairedOnce(out) && PairedOnKeys(cs, rs, out)
  {
    out := Layered(cs, rs, false);
    ListedSound(cs, rs, false);
  }

  method PairAcross(cs: seq<Candidate>, rs: seq<Keyed>) returns (out: seq<Pairing>)
    ensures out == Listed(Matched(cs, rs, true).hits) && PairedOnce(out) && PairedOnKeys(cs, rs, out)
  {
    out := Layered(cs, rs, true);
    ListedSound(cs, rs, true);
  }
}
