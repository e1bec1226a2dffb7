/** What layered matching pairs: the layers of internal/analysis/layers.go as functions on the
    marks made so far. LayersImperative runs the loops the source runs and is proved to make
    exactly these marks; LayersTheorems proves what the marks promise. */
module Layers {
  import opened Common
  import opened Sorting

  /** A code finding a result may be paired with, as its newest sighting described it. */
  datatype Candidate = Candidate(findingID: int, key: string, unprinted: string, functionKey: string,
                                 lineKey: string, line: int, absent: bool)

  /** A result with what matching compares. */
  datatype Keyed = Keyed(key: string, unprintedKey: string, functionKey: string, lineKey: string,
                         startLine: int)

  datatype Layer = OnKey | OnUnprinted | OnFunction | OnLine

  datatype Pairing = Pairing(result: nat, candidate: nat, on: Layer)

  /** A pairing seen from its result. */
  datatype Hit = Hit(candidate: nat, on: Layer)

  /** What the layers run so far have paired: the candidates taken, and each result's pairing. */
  datatype Marks = Marks(used: set<nat>, hits: seq<Option<Hit>>)

  /** How many candidates sharing a result's line key the line layer offers it. */
  const NEAREST: nat := 8

  function KeyOfCandidate(c: Candidate, on: Layer): string {
    match on
    case OnKey => c.key
    case OnUnprinted => c.unprinted
    case OnFunction => c.functionKey
    case OnLine => c.lineKey
  }

  function KeyOfResult(k: Keyed, on: Layer): string {
    match on
    case OnKey => k.key
    case OnUnprinted => k.unprintedKey
    case OnFunction => k.functionKey
    case OnLine => k.lineKey
  }

  ghost predicate Indexes(s: seq<nat>, n: nat) {
    forall i :: 0 <= i < |s| ==> s[i] < n
  }

  // ----- The order candidates are considered in -----

  /** One the last comparable run saw comes before one it missed, and then the older one. */
  predicate NoLater(a: Candidate, b: Candidate) {
    if a.absent != b.absent then !a.absent else a.findingID <= b.findingID
  }

  function At(cs: seq<Candidate>, c: nat): Candidate {
    if c < |cs| then cs[c] else Candidate(0, "", "", "", "", 0, false)
  }

  function ByAge(cs: seq<Candidate>): (nat, nat) -> bool {
    (a: nat, b: nat) => NoLater(At(cs, a), At(cs, b))
  }

  function ByLine(cs: seq<Candidate>): (nat, nat) -> bool {
    (a: nat, b: nat) => At(cs, a).line <= At(cs, b).line
  }

  function Order(cs: seq<Candidate>): seq<nat> {
    Sort(Range(|cs|), ByAge(cs))
  }

  // ----- Taking -----

  predicate Fits(m: Marks, rs: seq<Keyed>) {
    |m.hits| == |rs|
  }

  function Take(m: Marks, r: nat, c: nat, on: Layer): Marks
    requires r < |m.hits|
  {
    Marks(m.used + {c}, m.hits[r := Some(Hit(c, on))])
  }

  /** The candidates of an order still free under a layer's key, in that order. */
  function Free(cs: seq<Candidate>, order: seq<nat>, used: set<nat>, on: Layer, k: string): seq<nat> {
    if order == [] then []
    else
      var rest := Free(cs, order[1..], used, on, k);
      if order[0] !in used && KeyOfCandidate(At(cs, order[0]), on) == k then [order[0]] + rest else rest
  }

  /** The results from one on still free under a layer's key, in order. */
  function FreeResults(rs: seq<Keyed>, hits: seq<Option<Hit>>, on: Layer, k: string, from: nat): seq<nat>
    requires |hits| == |rs|
    decreases |rs| - from
  {
    if from >= |rs| then []
    else
      var rest := FreeResults(rs, hits, on, k, from + 1);
      if hits[from].None? && KeyOfResult(rs[from], on) == k then [from] + rest else rest
  }

  // ----- The whole key and the function: each free result takes the first free candidate -----

  function KeyStep(cs: seq<Candidate>, order: seq<nat>, rs: seq<Keyed>, on: Layer, m: Marks, r: nat): (m': Marks)
    requires Fits(m, rs) && r < |rs|
    ensures Fits(m', rs)
  {
    var k := KeyOfResult(rs[r], on);
    var free := Free(cs, order, m.used, on, k);
    if m.hits[r].Some? || k == "" || free == [] then m else Take(m, r, free[0], on)
  }

  function KeyLayer(cs: seq<Candidate>, order: seq<nat>, rs: seq<Keyed>, on: Layer, m: Marks, r: nat): (m': Marks)
    requires Fits(m, rs) && r <= |rs|
    ensures Fits(m', rs)
    decreases |rs| - r
  {
    if r == |rs| then m else KeyLayer(cs, order, rs, on, KeyStep(cs, order, rs, on, m, r), r + 1)
  }

  // ----- A fingerprint change: the only result and the only candidate holding a key -----

  function Partner(cs: seq<Candidate>, order: seq<nat>, rs: seq<Keyed>, m: Marks, r: nat): Option<nat>
    requires Fits(m, rs) && r < |rs|
  {
    var k := rs[r].unprintedKey;
    var cands := Free(cs, order, m.used, OnUnprinted, k);
    if m.hits[r].None? && k != "" && |FreeResults(rs, m.hits, OnUnprinted, k, 0)| == 1 && |cands| == 1
    then Some(cands[0]) else None
  }

  function UniqueLayer(cs: seq<Candidate>, order: seq<nat>, rs: seq<Keyed>, m: Marks): (m': Marks)
    requires Fits(m, rs)
    ensures Fits(m', rs)
  {
    Marks(m.used + set r | 0 <= r < |rs| && Partner(cs, order, rs, m, r).Some? :: Partner(cs, order, rs, m, r).value,
          seq(|rs|, r requires 0 <= r < |rs| =>
            var partner := Partner(cs, order, rs, m, r);
            if partner.Some? then Some(Hit(partner.value, OnUnprinted)) else m.hits[r]))
  }

  // ----- The nearest line -----

  /** A result and a candidate offered to it. */
  datatype Near = Near(distance: int, rank: nat, result: nat, candidate: nat)

  function Distance(a: int, b: int): nat {
    if a < b then b - a else a - b
  }

  /** Where a candidate stands in the order. */
  function RankOf(order: seq<nat>, c: nat): nat {
    if order == [] || order[0] == c then 0 else 1 + RankOf(order[1..], c)
  }

  /** The free candidates sharing a line key, by line, and in order on one line. */
  function Group(cs: seq<Candidate>, order: seq<nat>, used: set<nat>, k: string): seq<nat> {
    Sort(Free(cs, order, used, OnLine, k), ByLine(cs))
  }

  /** The first position of a group at or past a line. */
  function FirstAtLeast(cs: seq<Candidate>, group: seq<nat>, line: int, from: nat): (at: nat)
    requires from <= |group|
    ensures from <= at <= |group|
    ensures forall i :: from <= i < at ==> At(cs, group[i]).line < line
    ensures at < |group| ==> At(cs, group[at]).line >= line
    decreases |group| - from
  {
    if from == |group| || At(cs, group[from]).line >= line then from
    else FirstAtLeast(cs, group, line, from + 1)
  }

  /** Whether the next candidate offered is the one below rather than the one above. */
  predicate TakesBelow(cs: seq<Candidate>, group: seq<nat>, line: int, lo: int, hi: nat)
    requires -1 <= lo < hi <= |group| && (lo >= 0 || hi < |group|)
  {
    hi >= |group| || (lo >= 0 && line - At(cs, group[lo]).line <= At(cs, group[hi]).line - line)
  }

  /** The two pointers walking outwards from a line, at most n steps. */
  function Window(cs: seq<Candidate>, group: seq<nat>, line: int, lo: int, hi: nat, n: nat): seq<nat>
    requires -1 <= lo < hi <= |group|
    decreases lo + 1 + |group| - hi
  {
    if n == 0 || (lo < 0 && hi >= |group|) then []
    else if TakesBelow(cs, group, line, lo, hi) then
      [group[lo]] + Window(cs, group, line, lo - 1, hi, n - 1)
    else
      [group[hi]] + Window(cs, group, line, lo, hi + 1, n - 1)
  }

  /** The candidates offered to one result. */
  function Offered(cs: seq<Candidate>, order: seq<nat>, rs: seq<Keyed>, m: Marks, r: nat): seq<nat>
    requires Fits(m, rs) && r < |rs|
  {
    var group := Group(cs, order, m.used, rs[r].lineKey);
    if m.hits[r].Some? || group == [] then []
    else
      var at := FirstAtLeast(cs, group, rs[r].startLine, 0);
      Window(cs, group, rs[r].startLine, at - 1, at, NEAREST)
  }

  function Pairs(cs: seq<Candidate>, order: seq<nat>, rs: seq<Keyed>, r: nat, offered: seq<nat>): (ps: seq<Near>)
    requires r < |rs|
    ensures |ps| == |offered|
    ensures forall i :: 0 <= i < |ps| ==>
      ps[i] == Near(Distance(rs[r].startLine, At(cs, offered[i]).line), RankOf(order, offered[i]), r, offered[i])
  {
    seq(|offered|, i requires 0 <= i < |offered| =>
      Near(Distance(rs[r].startLine, At(cs, offered[i]).line), RankOf(order, offered[i]), r, offered[i]))
  }

  /** Every offer made to the results before one, in the order they are made. */
  function Offers(cs: seq<Candidate>, order: seq<nat>, rs: seq<Keyed>, m: Marks, upto: nat): seq<Near>
    requires Fits(m, rs) && upto <= |rs|
  {
    if upto == 0 then []
    else Offers(cs, order, rs, m, upto - 1)
         + Pairs(cs, order, rs, upto - 1, Offered(cs, order, rs, m, upto - 1))
  }

  predicate CloserFirst(a: Near, b: Near) {
    if a.distance != b.distance then a.distance < b.distance
    else if a.rank != b.rank then a.rank < b.rank
    else a.result <= b.result
  }

  function ByDistance(): (Near, Near) -> bool {
    (a, b) => CloserFirst(a, b)
  }

  /** The greedy pass: closest first, each result and each candidate once. */
  function Greedy(ps: seq<Near>, m: Marks): (m': Marks)
    requires forall i :: 0 <= i < |ps| ==> ps[i].result < |m.hits|
    ensures |m'.hits| == |m.hits|
  {
    if ps == [] then m
    else if m.hits[ps[0].result].Some? || ps[0].candidate in m.used then Greedy(ps[1..], m)
    else Greedy(ps[1..], Take(m, ps[0].result, ps[0].candidate, OnLine))
  }

  lemma {:induction false} OffersNameResults(cs: seq<Candidate>, order: seq<nat>, rs: seq<Keyed>, m: Marks, upto: nat)
    requires Fits(m, rs) && upto <= |rs|
    ensures forall i :: 0 <= i < |Offers(cs, order, rs, m, upto)| ==> Offers(cs, order, rs, m, upto)[i].result < upto
  {
    if upto > 0 {
      OffersNameResults(cs, order, rs, m, upto - 1);
    }
  }

  function Ranked(cs: seq<Candidate>, order: seq<nat>, rs: seq<Keyed>, m: Marks): (ps: seq<Near>)
    requires Fits(m, rs)
    ensures forall i :: 0 <= i < |ps| ==> ps[i].result < |rs|
  {
    var offers := Offers(cs, order, rs, m, |rs|);
    OffersNameResults(cs, order, rs, m, |rs|);
    SortPermutes(offers, ByDistance());
    var ps := Sort(offers, ByDistance());
    MultisetMember(ps, offers);
    assert forall i :: 0 <= i < |ps| ==> ps[i] in offers;
    ps
  }

  function LineLayer(cs: seq<Candidate>, order: seq<nat>, rs: seq<Keyed>, m: Marks): (m': Marks)
    requires Fits(m, rs)
    ensures Fits(m', rs)
  {
    Greedy(Ranked(cs, order, rs, m), m)
  }

  // ----- All the layers -----

  function Unmarked(rs: seq<Keyed>): (m: Marks)
    ensures Fits(m, rs)
  {
    Marks({}, seq(|rs|, _ => None))
  }

  /** What the layers before the nearest line leave marked. */
  function BeforeLines(cs: seq<Candidate>, rs: seq<Keyed>, printsChanged: bool): (m: Marks)
    ensures Fits(m, rs)
  {
    var order := Order(cs);
    var onKey := KeyLayer(cs, order, rs, OnKey, Unmarked(rs), 0);
    var unique := if printsChanged then UniqueLayer(cs, order, rs, onKey) else onKey;
    KeyLayer(cs, order, rs, OnFunction, unique, 0)
  }

  function Matched(cs: seq<Candidate>, rs: seq<Keyed>, printsChanged: bool): (m: Marks)
    ensures Fits(m, rs)
  {
    LineLayer(cs, Order(cs), rs, BeforeLines(cs, rs, printsChanged))
  }

  /** The pairings, by result. */
  function Listed(hits: seq<Option<Hit>>): (out: seq<Pairing>)
    ensures forall i :: 0 <= i < |out| ==>
      out[i].result < |hits| && hits[out[i].result] == Some(Hit(out[i].candidate, out[i].on))
    ensures forall i, j :: 0 <= i < j < |out| ==> out[i].result < out[j].result
    ensures forall r :: 0 <= r < |hits| && hits[r].Some? ==>
      Pairing(r, hits[r].value.candidate, hits[r].value.on) in out
  {
    if hits == [] then []
    else
      var n := |hits| - 1;
      var before := Listed(hits[..n]);
      if hits[n].Some? then before + [Pairing(n, hits[n].value.candidate, hits[n].value.on)] else before
  }
}
