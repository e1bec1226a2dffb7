/** Applying a run's results again to what it left open: everything pairs on the whole key. */
module Rerun {
  import opened Common
  import opened Sorting
  import opened Layers
  import opened LayersTheorems
  import opened LayersOrder
  import opened Receipts

  // ----- The findings a run saw, and the result that describes each -----

  /** Where the finding that takes a result stands among those left open. */
  function PlaceOf(open: seq<Open>, keyed: seq<Keyed>, printsChanged: bool, r: nat): nat
    requires r < |keyed|
  {
    var told, hits := Answer(open, keyed, printsChanged), Matched(CandidatesOf(open), keyed, printsChanged).hits;
    if hits[r].Some? then hits[r].value.candidate else |open| + |Unpaired(keyed[..r], told[..r])|
  }

  lemma {:induction false} UnpairedAt(keyed: seq<Keyed>, told: Paired, r: nat)
    requires |told| == |keyed| && r < |keyed| && told[r].None?
    ensures |Unpaired(keyed[..r], told[..r])| < |Unpaired(keyed, told)|
    ensures Unpaired(keyed, told)[|Unpaired(keyed[..r], told[..r])|] == keyed[r]
  {
    var n := |keyed| - 1;
    if r < n {
      UnpairedAt(keyed[..n], told[..n], r);
      assert keyed[..n][..r] == keyed[..r] && told[..n][..r] == told[..r];
    }
  }

  lemma {:induction false} UnpairedGrows(keyed: seq<Keyed>, told: Paired, r: nat, r': nat)
    requires |told| == |keyed| && r < r' <= |keyed| && told[r].None?
    ensures |Unpaired(keyed[..r], told[..r])| < |Unpaired(keyed[..r'], told[..r'])|
    decreases r'
  {
    assert keyed[..r'][..r' - 1] == keyed[..r' - 1] && told[..r'][..r' - 1] == told[..r' - 1];
    if r < r' - 1 {
      UnpairedGrows(keyed, told, r, r' - 1);
    }
  }

  lemma {:induction false} UnpairedFrom(keyed: seq<Keyed>, told: Paired, j: nat) returns (r: nat)
    requires |told| == |keyed| && j < |Unpaired(keyed, told)|
    ensures r < |keyed| && told[r].None? && |Unpaired(keyed[..r], told[..r])| == j
  {
    var n := |keyed| - 1;
    if j < |Unpaired(keyed[..n], told[..n])| {
      r := UnpairedFrom(keyed[..n], told[..n], j);
      assert keyed[..n][..r] == keyed[..r] && told[..n][..r] == told[..r];
    } else {
      r := n;
    }
  }

  /** The finding a result lands on is described by it, and was seen by the run. */
  lemma Lands(open: seq<Open>, keyed: seq<Keyed>, printsChanged: bool, run: int, kept: seq<int>, next: int, r: nat)
    requires DistinctOpen(open) && r < |keyed|
    ensures var after := AfterRun(open, Answer(open, keyed, printsChanged), keyed, run, kept, next);
            var c := PlaceOf(open, keyed, printsChanged, r);
            c < |after| && after[c].said == keyed[r] && !after[c].absent && after[c].lastRun == run
  {
    var told := Answer(open, keyed, printsChanged);
    var after := AfterRun(open, told, keyed, run, kept, next);
    MatchedSound(CandidatesOf(open), keyed, printsChanged);
    AnswerIsOnePerFinding(open, keyed, printsChanged);
    if told[r].Some? {
      var c := PlaceOf(open, keyed, printsChanged, r);
      assert open[c].id == told[r].value.0;
      SoleResult(told, r);
      assert after[c] == Again(open[c], told, keyed, run, kept);
    } else {
      UnpairedAt(keyed, told, r);
      var j := |Unpaired(keyed[..r], told[..r])|;
      assert after[|open| + j].said == Unpaired(keyed, told)[j];
    }
  }

  lemma SoleResult(told: Paired, r: nat)
    requires OnePerFinding(told) && r < |told| && told[r].Some?
    ensures ResultOf(told, told[r].value.0) == Some(r)
  {
    var i := ResultOf(told, told[r].value.0).value;
    ToldAt(told, i, r);
  }

  lemma ToldAt(told: Paired, r: nat, r': nat)
    requires OnePerFinding(told) && r < |told| && r' < |told| && told[r].Some? && told[r'].Some?
    ensures told[r].value.0 == told[r'].value.0 <==> r == r'
  {
    if r < r' { assert told[r].value.0 != told[r'].value.0; }
    if r' < r { assert told[r'].value.0 != told[r].value.0; }
  }

  /** No two results land on one finding. */
  lemma LandsApart(open: seq<Open>, keyed: seq<Keyed>, printsChanged: bool, r: nat, r': nat)
    requires r < r' < |keyed|
    ensures PlaceOf(open, keyed, printsChanged, r) != PlaceOf(open, keyed, printsChanged, r')
  {
    var told := Answer(open, keyed, printsChanged);
    MatchedSound(CandidatesOf(open), keyed, printsChanged);
    if told[r].None? { UnpairedGrows(keyed, told, r, r'); }
  }

  /** Whatever a run did not see, no result landed on. */
  lemma UnpairedIsPlaced(open: seq<Open>, keyed: seq<Keyed>, printsChanged: bool, r: nat)
    requires r < |keyed| && Answer(open, keyed, printsChanged)[r].None?
    ensures PlaceOf(open, keyed, printsChanged, r) ==
      |open| + |Unpaired(keyed[..r], Answer(open, keyed, printsChanged)[..r])|
  {
    hide Matched, Unpaired;
  }

  lemma LandedOn(open: seq<Open>, keyed: seq<Keyed>, printsChanged: bool, run: int, kept: seq<int>, next: int, c: nat) returns (r: nat)
    requires DistinctOpen(open) && forall i :: 0 <= i < |open| ==> open[i].lastRun != run
    requires var after := AfterRun(open, Answer(open, keyed, printsChanged), keyed, run, kept, next);
             c < |after| && after[c].lastRun == run
    ensures r < |keyed| && PlaceOf(open, keyed, printsChanged, r) == c
  {
    var told := Answer(open, keyed, printsChanged);
    var after := AfterRun(open, told, keyed, run, kept, next);
    hide Matched, AfterRun, PlaceOf, Answer;
    if c < |open| {
      assert after[c] == Again(open[c], told, keyed, run, kept);
      r := ResultOf(told, open[c].id).value;
      PlaceIsOf(open, keyed, printsChanged, r, c);
    } else {
      r := UnpairedFrom(keyed, told, c - |open|);
      UnpairedIsPlaced(open, keyed, printsChanged, r);
    }
  }

  lemma PlaceIsOf(open: seq<Open>, keyed: seq<Keyed>, printsChanged: bool, r: nat, c: nat)
    requires DistinctOpen(open) && r < |keyed| && c < |open|
    requires var told := Answer(open, keyed, printsChanged); told[r].Some? && told[r].value.0 == open[c].id
    ensures PlaceOf(open, keyed, printsChanged, r) == c
  {
    MatchedSound(CandidatesOf(open), keyed, printsChanged);
    var d := PlaceOf(open, keyed, printsChanged, r);
    if d != c { DistinctIDsAt(CandidatesOf(open), d, c); }
  }

  // ----- What is left stands behind what was seen -----

  lemma {:induction false} FreeInOrder(cs: seq<Candidate>, order: seq<nat>, used: set<nat>, on: Layer, k: string)
    requires SortedBy(ByAge(cs), order)
    ensures SortedBy(ByAge(cs), Free(cs, order, used, on, k))
  {
    if order != [] {
      var le := ByAge(cs);
      FreeInOrder(cs, order[1..], used, on, k);
      FreeMembers(cs, order[1..], used, on, k);
      var rest := Free(cs, order[1..], used, on, k);
      forall j | 0 <= j < |rest| ensures le(order[0], rest[j]) {
        assert rest[j] in order[1..];
        var i :| 0 <= i < |order[1..]| && order[1..][i] == rest[j];
        assert order[i + 1] == rest[j];
      }
    }
  }

  ghost predicate Keeps(m: Marks, m': Marks) {
    |m.hits| == |m'.hits| && forall r :: 0 <= r < |m.hits| && m.hits[r].Some? ==> m'.hits[r] == m.hits[r]
  }

  lemma LineLayerKeeps(cs: seq<Candidate>, order: seq<nat>, rs: seq<Keyed>, m: Marks)
    requires Fits(m, rs)
    ensures Keeps(m, LineLayer(cs, order, rs, m))
  {
    GreedyAdds(Ranked(cs, order, rs, m), m);
  }

  lemma UniqueLayerKeeps(cs: seq<Candidate>, order: seq<nat>, rs: seq<Keyed>, m: Marks)
    requires Fits(m, rs)
    ensures Keeps(m, UniqueLayer(cs, order, rs, m))
  {}

  /** A pairing on the whole key stands through every later layer. */
  lemma WholeKeyStands(cs: seq<Candidate>, keyed: seq<Keyed>, printsChanged: bool)
    ensures Keeps(KeyLayer(cs, Order(cs), keyed, OnKey, Unmarked(keyed), 0), Matched(cs, keyed, printsChanged))
  {
    var order := Order(cs);
    var first := KeyLayer(cs, order, keyed, OnKey, Unmarked(keyed), 0);
    var unique := if printsChanged then UniqueLayer(cs, order, keyed, first) else first;
    UniqueLayerKeeps(cs, order, keyed, first);
    KeyLayerKeeps(cs, order, keyed, OnFunction, unique, 0);
    LineLayerKeeps(cs, order, keyed, BeforeLines(cs, keyed, printsChanged));
  }

  /** What the whole key pairs, among all the candidates and all the results of one key. */
  lemma WholeKeyPairs(cs: seq<Candidate>, keyed: seq<Keyed>, printsChanged: bool, k: string)
    requires k != ""
    ensures var waiting := Free(cs, Order(cs), {}, OnKey, k);
            var left := FreeResults(keyed, Unmarked(keyed).hits, OnKey, k, 0);
            && Distinct(waiting) && SortedBy(ByAge(cs), waiting)
            && (forall c: nat :: c in waiting <==> c < |cs| && cs[c].key == k)
            && Distinct(left) && (forall r: nat :: r in left <==> r < |keyed| && keyed[r].key == k)
            && forall j :: 0 <= j < Min(|left|, |waiting|) ==>
                 left[j] < |keyed| && Matched(cs, keyed, printsChanged).hits[left[j]] == Some(Hit(waiting[j], OnKey))
  {
    hide Free, FreeResults, KeyLayer, Matched, Order, SortedBy;
    var order, m := Order(cs), Unmarked(keyed);
    OrderIsOrder(cs);
    KeyLayerAligns(cs, order, keyed, OnKey, m, 0, k);
    FreeMembers(cs, order, m.used, OnKey, k);
    FreeInOrder(cs, order, m.used, OnKey, k);
    FreeResultsMembers(keyed, m.hits, OnKey, k, 0);
    WholeKeyStands(cs, keyed, printsChanged);
    assert forall c: nat :: c in order <==> c < |cs|;
  }

  lemma WholeKeyHeld(cs: seq<Candidate>, keyed: seq<Keyed>, printsChanged: bool, k: string)
    requires k != ""
    ensures var waiting := Free(cs, Order(cs), {}, OnKey, k);
            var left := FreeResults(keyed, Unmarked(keyed).hits, OnKey, k, 0);
            forall i :: 0 <= i < Min(|left|, |waiting|) ==> Held(Matched(cs, keyed, printsChanged), waiting[i])
  {
    WholeKeyPairs(cs, keyed, printsChanged, k);
    var waiting := Free(cs, Order(cs), {}, OnKey, k);
    var left := FreeResults(keyed, Unmarked(keyed).hits, OnKey, k, 0);
    var m := Matched(cs, keyed, printsChanged);
    forall i | 0 <= i < Min(|left|, |waiting|) ensures Held(m, waiting[i]) {
      assert m.hits[left[i]].value.candidate == waiting[i];
    }
  }

  /** Where a finding is left unseen though its whole key is a result's, that result took an earlier
      finding on the whole key. */
  lemma LeftBehind(cs: seq<Candidate>, keyed: seq<Keyed>, printsChanged: bool, c: nat, r: nat)
    requires DistinctIDs(cs) && c < |cs| && r < |keyed| && keyed[r].key == cs[c].key != ""
    requires !Held(Matched(cs, keyed, printsChanged), c)
    ensures var h := Matched(cs, keyed, printsChanged).hits[r];
            h.Some? && h.value.candidate < |cs| && h.value.candidate != c &&
            NoLater(cs[h.value.candidate], cs[c])
  {
    var k := cs[c].key;
    var waiting := Free(cs, Order(cs), {}, OnKey, k);
    var left := FreeResults(keyed, Unmarked(keyed).hits, OnKey, k, 0);
    WholeKeyPairs(cs, keyed, printsChanged, k);
    assert c in waiting && r in left;
    var i :| 0 <= i < |waiting| && waiting[i] == c;
    var j :| 0 <= j < |left| && left[j] == r;
    WholeKeyHeld(cs, keyed, printsChanged, k);
    assert i >= |left|;
    var le := ByAge(cs);
    assert le(waiting[j], waiting[i]);
    DistinctAt(waiting, j, i);
    assert waiting[j] in waiting;
  }

  /** A finding with a result's whole key that the run did not see stands behind every finding the
      run saw under that key. */
  lemma SeenFirst(open: seq<Open>, keyed: seq<Keyed>, printsChanged: bool, run: int, kept: seq<int>, next: int, c: nat, r: nat)
    requires Numbered(open, next) && forall i :: 0 <= i < |open| ==> open[i].lastRun != run
    requires var after := AfterRun(open, Answer(open, keyed, printsChanged), keyed, run, kept, next);
             c < |after| && after[c].lastRun != run && r < |keyed| && after[c].said.key == keyed[r].key != ""
    ensures var after := AfterRun(open, Answer(open, keyed, printsChanged), keyed, run, kept, next);
            var d := PlaceOf(open, keyed, printsChanged, r);
            d < |after| && !NoLater(CandidateOf(after[c]), CandidateOf(after[d]))
  {
    var told := Answer(open, keyed, printsChanged);
    var after := AfterRun(open, told, keyed, run, kept, next);
    hide Matched, AfterRun, NoLater, CandidateOf, ResultOf;
    Lands(open, keyed, printsChanged, run, kept, next, r);
    NotSeenIsLeft(open, keyed, printsChanged, run, kept, next, c);
    LeftBehind(CandidatesOf(open), keyed, printsChanged, c, r);
    var d := PlaceOf(open, keyed, printsChanged, r);
    DistinctIDsAt(CandidatesOf(open), c, d);
    assert after[d] == Again(open[d], told, keyed, run, kept);
    SeenComesFirst(open[c], after[c], open[d], after[d]);
  }

  lemma NotSeenIsLeft(open: seq<Open>, keyed: seq<Keyed>, printsChanged: bool, run: int, kept: seq<int>, next: int, c: nat)
    requires var after := AfterRun(open, Answer(open, keyed, printsChanged), keyed, run, kept, next);
             c < |after| && after[c].lastRun != run
    ensures var after := AfterRun(open, Answer(open, keyed, printsChanged), keyed, run, kept, next);
            c < |open| && !Held(Matched(CandidatesOf(open), keyed, printsChanged), c)
            && (after[c] == open[c] || after[c] == open[c].(absent := true))
  {
    hide Matched, AfterRun, ResultOf;
    var told := Answer(open, keyed, printsChanged);
    OpenedIsSeen(open, told, keyed, run, kept, next);
    assert AfterRun(open, told, keyed, run, kept, next)[c] == Again(open[c], told, keyed, run, kept);
    if Held(Matched(CandidatesOf(open), keyed, printsChanged), c) {
      HeldIsSeen(open, keyed, printsChanged, run, kept, c);
    }
  }

  /** A finding not seen, let go or left as it was, stands behind one that was before it and is seen. */
  lemma SeenComesFirst(c: Open, c': Open, d: Open, d': Open)
    requires NoLater(CandidateOf(d), CandidateOf(c)) && c.id != d.id
    requires d'.id == d.id && !d'.absent && (c' == c || c' == c.(absent := true))
    ensures !NoLater(CandidateOf(c'), CandidateOf(d'))
  {}

  lemma OpenedIsSeen(open: seq<Open>, told: Paired, keyed: seq<Keyed>, run: int, kept: seq<int>, next: int)
    requires |told| == |keyed|
    ensures var after := AfterRun(open, told, keyed, run, kept, next);
            forall c :: |open| <= c < |after| ==> after[c].lastRun == run
  {
    var after := AfterRun(open, told, keyed, run, kept, next);
    forall c | |open| <= c < |after| ensures after[c].lastRun == run {
      assert after[|open| + (c - |open|)].lastRun == run;
    }
  }

  lemma HeldIsSeen(open: seq<Open>, keyed: seq<Keyed>, printsChanged: bool, run: int, kept: seq<int>, c: nat)
    requires c < |open| && Held(Matched(CandidatesOf(open), keyed, printsChanged), c)
    ensures Again(open[c], Answer(open, keyed, printsChanged), keyed, run, kept).lastRun == run
  {
    var told, m := Answer(open, keyed, printsChanged), Matched(CandidatesOf(open), keyed, printsChanged);
    var i :| 0 <= i < |keyed| && m.hits[i].Some? && m.hits[i].value.candidate == c;
    assert told[i].Some? && told[i].value.0 == open[c].id;
  }

  // ----- The same results again -----

  /** The results of a key, each by its number. */
  function Under(keyed: seq<Keyed>, k: string): set<nat> {
    set r: nat | 0 <= r < |keyed| && keyed[r].key == k
  }

  /** The first of a list are in a set, when nothing outside the set stands before any of it. */
  lemma {:induction false} FirstAreIn(s: seq<nat>, inside: set<nat>)
    requires Distinct(s) && forall x :: x in inside ==> x in s
    requires forall i, j :: 0 <= i < j < |s| && s[j] in inside ==> s[i] in inside
    ensures |inside| <= |s| && forall j :: 0 <= j < |inside| ==> s[j] in inside
  {
    NoneBeyond(s, inside, |s|);
    forall j | 0 <= j < |inside| ensures s[j] in inside {
      if s[j] !in inside { NoneBeyond(s, inside, j); }
    }
  }

  lemma NoneBeyond(s: seq<nat>, inside: set<nat>, j: nat)
    requires Distinct(s) && forall x :: x in inside ==> x in s
    requires forall i, j :: 0 <= i < j < |s| && s[j] in inside ==> s[i] in inside
    requires j >= |s| || s[j] !in inside
    ensures |inside| <= j
  {
    var head := s[..Min(j, |s|)];
    DistinctSize(head);
    forall x | x in inside ensures x in head {
      var i :| 0 <= i < |s| && s[i] == x;
      assert i < |head|;
      assert head[i] == x;
    }
    SubsetSize(inside, Elements(head));
  }

  ghost predicate Permutes(sigma: seq<nat>, keyed: seq<Keyed>, keyed': seq<Keyed>) {
    && |sigma| == |keyed| == |keyed'| && Indexes(sigma, |keyed|) && Distinct(sigma)
    && forall i :: 0 <= i < |keyed'| ==> keyed'[i] == keyed[sigma[i]]
  }

  lemma SameCount(sigma: seq<nat>, keyed: seq<Keyed>, keyed': seq<Keyed>, k: string)
    requires Permutes(sigma, keyed, keyed')
    ensures |Under(keyed', k)| <= |Under(keyed, k)|
  {
    var at := (i: nat) => if i < |sigma| then sigma[i] else 0;
    var img := set i | i in Under(keyed', k) :: at(i);
    forall i, j | i in Under(keyed', k) && j in Under(keyed', k) && at(i) == at(j) ensures i == j {
      DistinctAt(sigma, i, j);
    }
    ImageSize(Under(keyed', k), at, img);
    SubsetSize(img, Under(keyed, k));
  }

  /** The findings left open that a run saw under a key. */
  function SeenUnder(after: seq<Open>, run: int, k: string): set<nat> {
    set c: nat | 0 <= c < |after| && after[c].lastRun == run && after[c].said.key == k
  }

  lemma SeenUnderCount(open: seq<Open>, keyed: seq<Keyed>, printsChanged: bool, run: int, kept: seq<int>, next: int, k: string)
    requires Numbered(open, next)
    ensures var after := AfterRun(open, Answer(open, keyed, printsChanged), keyed, run, kept, next);
            |SeenUnder(after, run, k)| >= |Under(keyed, k)|
  {
    var after := AfterRun(open, Answer(open, keyed, printsChanged), keyed, run, kept, next);
    var at := (r: nat) => if r < |keyed| then PlaceOf(open, keyed, printsChanged, r) else 0;
    var img := set r | r in Under(keyed, k) :: at(r);
    forall i, j | i in Under(keyed, k) && j in Under(keyed, k) && at(i) == at(j) ensures i == j {
      if i < j { LandsApart(open, keyed, printsChanged, i, j); }
      if j < i { LandsApart(open, keyed, printsChanged, j, i); }
    }
    ImageSize(Under(keyed, k), at, img);
    forall c | c in img ensures c in SeenUnder(after, run, k) {
      var r :| r in Under(keyed, k) && at(r) == c;
      Lands(open, keyed, printsChanged, run, kept, next, r);
    }
    SubsetSize(img, SeenUnder(after, run, k));
  }

  lemma AsManySeen(open: seq<Open>, keyed: seq<Keyed>, printsChanged: bool, run: int, kept: seq<int>, next: int,
                   sigma: seq<nat>, keyed': seq<Keyed>, k: string, left: seq<nat>)
    requires Numbered(open, next) && Permutes(sigma, keyed, keyed') && Distinct(left)
    requires forall r: nat :: r in left <==> r < |keyed'| && keyed'[r].key == k
    ensures var after := AfterRun(open, Answer(open, keyed, printsChanged), keyed, run, kept, next);
            |left| <= |SeenUnder(after, run, k)|
  {
    DistinctSize(left);
    assert Elements(left) == Under(keyed', k);
    SameCount(sigma, keyed, keyed', k);
    SeenUnderCount(open, keyed, printsChanged, run, kept, next, k);
  }

  /** One result of the second run: paired on the whole key with a finding the first run saw. */
  lemma AgainOnKey(open: seq<Open>, keyed: seq<Keyed>, printsChanged: bool, run: int, kept: seq<int>, next: int,
                   sigma: seq<nat>, keyed': seq<Keyed>, printsChanged': bool, i: nat)
    requires Numbered(open, next) && forall c :: 0 <= c < |open| ==> open[c].lastRun != run
    requires Permutes(sigma, keyed, keyed') && i < |keyed'| && keyed'[i].key != ""
    ensures var after := AfterRun(open, Answer(open, keyed, printsChanged), keyed, run, kept, next);
            var h := Matched(CandidatesOf(after), keyed', printsChanged').hits[i];
            h.Some? && h.value.on == OnKey && h.value.candidate < |after| && after[h.value.candidate].lastRun == run
  {
    var after := AfterRun(open, Answer(open, keyed, printsChanged), keyed, run, kept, next);
    AfterRunNumbered(open, Answer(open, keyed, printsChanged), keyed, run, kept, next);
    var cs, k := CandidatesOf(after), keyed'[i].key;
    var waiting := Free(cs, Order(cs), {}, OnKey, k);
    var left := FreeResults(keyed', Unmarked(keyed').hits, OnKey, k, 0);
    WholeKeyPairs(cs, keyed', printsChanged', k);
    SeenAtFront(open, keyed, printsChanged, run, kept, next, sigma[i], waiting);
    FirstAreIn(waiting, SeenUnder(after, run, k));
    AsManySeen(open, keyed, printsChanged, run, kept, next, sigma, keyed', k, left);
    assert i in left;
    var j :| 0 <= j < |left| && left[j] == i;
    assert waiting[j] in SeenUnder(after, run, k);
  }

  /** Among the candidates of a key, in order, those the run saw stand first. */
  lemma SeenAtFront(open: seq<Open>, keyed: seq<Keyed>, printsChanged: bool, run: int, kept: seq<int>, next: int,
                    r: nat, waiting: seq<nat>)
    requires Numbered(open, next) && forall c :: 0 <= c < |open| ==> open[c].lastRun != run
    requires r < |keyed| && keyed[r].key != ""
    requires var after := AfterRun(open, Answer(open, keyed, printsChanged), keyed, run, kept, next);
             && SortedBy(ByAge(CandidatesOf(after)), waiting)
             && forall c: nat :: c in waiting <==> c < |after| && after[c].said.key == keyed[r].key
    ensures var after := AfterRun(open, Answer(open, keyed, printsChanged), keyed, run, kept, next);
            var seen := SeenUnder(after, run, keyed[r].key);
            && (forall x :: x in seen ==> x in waiting)
            && forall i, j :: 0 <= i < j < |waiting| && waiting[j] in seen ==> waiting[i] in seen
  {
    var after := AfterRun(open, Answer(open, keyed, printsChanged), keyed, run, kept, next);
    var seen := SeenUnder(after, run, keyed[r].key);
    var le := ByAge(CandidatesOf(after));
    forall i, j | 0 <= i < j < |waiting| && waiting[j] in seen ensures waiting[i] in seen {
      assert waiting[i] in waiting && waiting[j] in waiting;
      var c, d := waiting[i], waiting[j];
      assert le(c, d);
      if after[c].lastRun != run {
        var r' := LandedOn(open, keyed, printsChanged, run, kept, next, d);
        Lands(open, keyed, printsChanged, run, kept, next, r');
        SeenFirst(open, keyed, printsChanged, run, kept, next, c, r');
      }
    }
  }

  lemma {:induction false} ReturnedNone(open: seq<Open>, seen: set<int>)
    requires forall c :: 0 <= c < |open| && open[c].id in seen ==> !open[c].absent
    ensures Returned(open, seen) == 0
  {
    if open != [] { ReturnedNone(open[..|open| - 1], seen); }
  }

  lemma {:induction false} MissedNone(open: seq<Open>, seen: set<int>)
    ensures Missed(open, seen) == [] <==> forall c :: 0 <= c < |open| ==> open[c].id in seen || open[c].absent
  {
    if open != [] {
      MissedNone(open[..|open| - 1], seen);
      var before := open[..|open| - 1];
      assert forall c :: 0 <= c < |before| ==> before[c] == open[c];
      assert Missed(open, seen) == [] <==>
        Missed(before, seen) == [] && (open[|open| - 1].id in seen || open[|open| - 1].absent);
    }
  }

  lemma {:induction false} UnpairedNone(keyed: seq<Keyed>, told: Paired)
    requires |told| == |keyed| && forall r :: 0 <= r < |told| ==> told[r].Some?
    ensures Unpaired(keyed, told) == []
  {
    if keyed != [] { UnpairedNone(keyed[..|keyed| - 1], told[..|told| - 1]); }
  }

  function SeenBy(after: seq<Open>, run: int): set<nat> {
    set c: nat | 0 <= c < |after| && after[c].lastRun == run
  }

  function Numbers(n: nat): set<nat> {
    set r | r in Range(n)
  }

  lemma NumbersSize(n: nat)
    ensures |Numbers(n)| == n && forall r: nat :: r in Numbers(n) <==> r < n
  {
    DistinctSize(Range(n));
    assert Numbers(n) == Elements(Range(n));
    forall r: nat | r < n ensures r in Numbers(n) {
      assert Range(n)[r] == r;
    }
  }

  /** A run sees as many findings as it has results. */
  lemma SeenByCount(open: seq<Open>, keyed: seq<Keyed>, printsChanged: bool, run: int, kept: seq<int>, next: int)
    requires Numbered(open, next) && forall c :: 0 <= c < |open| ==> open[c].lastRun != run
    ensures |SeenBy(AfterRun(open, Answer(open, keyed, printsChanged), keyed, run, kept, next), run)| == |keyed|
  {
    var after := AfterRun(open, Answer(open, keyed, printsChanged), keyed, run, kept, next);
    var at := (r: nat) => if r < |keyed| then PlaceOf(open, keyed, printsChanged, r) else 0;
    NumbersSize(|keyed|);
    forall i, j | i in Numbers(|keyed|) && j in Numbers(|keyed|) && at(i) == at(j) ensures i == j {
      if i < j { LandsApart(open, keyed, printsChanged, i, j); }
      if j < i { LandsApart(open, keyed, printsChanged, j, i); }
    }
    forall c: nat ensures c in SeenBy(after, run) <==> exists r :: r in Numbers(|keyed|) && at(r) == c {
      if c in SeenBy(after, run) {
        var r := LandedOn(open, keyed, printsChanged, run, kept, next, c);
        assert r in Numbers(|keyed|) && at(r) == c;
      }
      if r :| r in Numbers(|keyed|) && at(r) == c {
        Lands(open, keyed, printsChanged, run, kept, next, r);
      }
    }
    ImageSize(Numbers(|keyed|), at, SeenBy(after, run));
  }

  /** Applying a run's results again, in any order, to the findings the run left open pairs every one
      on the whole key with a finding the run saw: nothing opens, nothing returns, and what the run
      saw is exactly what is seen again. Nothing is missed exactly when the first run let go of
      everything it did not see. */
  lemma RunAgain(open: seq<Open>, keyed: seq<Keyed>, printsChanged: bool, run: int, kept: seq<int>, next: int,
                 sigma: seq<nat>, keyed': seq<Keyed>, printsChanged': bool)
    requires Numbered(open, next) && forall c :: 0 <= c < |open| ==> open[c].lastRun != run
    requires Permutes(sigma, keyed, keyed') && forall r :: 0 <= r < |keyed'| ==> keyed'[r].key != ""
    ensures var after := AfterRun(open, Answer(open, keyed, printsChanged), keyed, run, kept, next);
            var told := Answer(after, keyed', printsChanged');
            && (forall r :: 0 <= r < |told| ==> told[r].Some? && told[r].value.1 == OnKey)
            && (forall c :: 0 <= c < |after| ==> (after[c].id in Seen(told) <==> after[c].lastRun == run))
            && Unpaired(keyed', told) == [] && Returned(after, Seen(told)) == 0
            && (Missed(after, Seen(told)) == [] <==>
                forall c :: 0 <= c < |after| ==> after[c].lastRun == run || after[c].absent)
  {
    var after := AfterRun(open, Answer(open, keyed, printsChanged), keyed, run, kept, next);
    var told := Answer(after, keyed', printsChanged');
    AgainOnKeyAll(open, keyed, printsChanged, run, kept, next, sigma, keyed', printsChanged');
    UnpairedNone(keyed', told);
    forall c | 0 <= c < |after| && after[c].lastRun == run ensures !after[c].absent {
      var r := LandedOn(open, keyed, printsChanged, run, kept, next, c);
      Lands(open, keyed, printsChanged, run, kept, next, r);
    }
    ReturnedNone(after, Seen(told));
    MissedNone(after, Seen(told));
  }

  lemma AgainOnKeyAll(open: seq<Open>, keyed: seq<Keyed>, printsChanged: bool, run: int, kept: seq<int>, next: int,
                      sigma: seq<nat>, keyed': seq<Keyed>, printsChanged': bool)
    requires Numbered(open, next) && forall c :: 0 <= c < |open| ==> open[c].lastRun != run
    requires Permutes(sigma, keyed, keyed') && forall r :: 0 <= r < |keyed'| ==> keyed'[r].key != ""
    ensures var after := AfterRun(open, Answer(open, keyed, printsChanged), keyed, run, kept, next);
            var told := Answer(after, keyed', printsChanged');
            && (forall r :: 0 <= r < |told| ==> told[r].Some? && told[r].value.1 == OnKey)
            && (forall c :: 0 <= c < |after| ==> (after[c].id in Seen(told) <==> after[c].lastRun == run))
  {
    hide AfterRun, Matched, CandidatesOf;
    var after := AfterRun(open, Answer(open, keyed, printsChanged), keyed, run, kept, next);
    AfterRunNumbered(open, Answer(open, keyed, printsChanged), keyed, run, kept, next);
    var cs, told := CandidatesOf(after), Answer(after, keyed', printsChanged');
    var hits := Matched(cs, keyed', printsChanged').hits;
    forall i | 0 <= i < |keyed'|
      ensures hits[i].Some? && hits[i].value.on == OnKey && hits[i].value.candidate in SeenBy(after, run)
    {
      AgainOnKey(open, keyed, printsChanged, run, kept, next, sigma, keyed', printsChanged', i);
    }
    SeenByCount(open, keyed, printsChanged, run, kept, next);
    AllSeenAgain(after, keyed', printsChanged', run);
  }

  /** Results each paired with a finding of a set as large as they are pair with all of it. */
  lemma AllSeenAgain(after: seq<Open>, keyed: seq<Keyed>, printsChanged: bool, run: int)
    requires DistinctOpen(after) && |SeenBy(after, run)| == |keyed|
    requires forall i :: 0 <= i < |keyed| ==>
               var h := Matched(CandidatesOf(after), keyed, printsChanged).hits[i];
               h.Some? && h.value.candidate in SeenBy(after, run)
    ensures forall c :: 0 <= c < |after| ==> (after[c].id in Seen(Answer(after, keyed, printsChanged)) <==> after[c].lastRun == run)
  {
    var cs, told := CandidatesOf(after), Answer(after, keyed, printsChanged);
    var m := Matched(cs, keyed, printsChanged);
    hide Matched, Seen;
    MatchedSound(cs, keyed, printsChanged);
    PairsWithAll(cs, m, SeenBy(after, run));
    forall c | 0 <= c < |after| ensures after[c].id in Seen(told) <==> after[c].lastRun == run {
      SeenIsHeld(after, m, c);
      assert c in SeenBy(after, run) <==> after[c].lastRun == run;
      if Held(m, c) {
        var r :| 0 <= r < |m.hits| && m.hits[r].Some? && m.hits[r].value.candidate == c;
        assert c in SeenBy(after, run);
      }
    }
  }

  lemma SeenIsHeld(after: seq<Open>, m: Marks, c: nat)
    requires DistinctOpen(after) && OneToOne(CandidatesOf(after), m) && c < |after|
    ensures after[c].id in Seen(Told(CandidatesOf(after), m)) <==> Held(m, c)
  {
    var cs := CandidatesOf(after);
    var told := Told(cs, m);
    if Held(m, c) {
      var r :| 0 <= r < |m.hits| && m.hits[r].Some? && m.hits[r].value.candidate == c;
      assert told[r].Some? && told[r].value.0 == after[c].id;
    }
    if after[c].id in Seen(told) {
      var r :| 0 <= r < |told| && told[r].Some? && told[r].value.0 == after[c].id;
      var d := m.hits[r].value.candidate;
      if d != c { DistinctIDsAt(cs, d, c); }
    }
  }

  /** One-to-one into a set no larger is onto it. */
  lemma PairsWithAll(cs: seq<Candidate>, m: Marks, all: set<nat>)
    requires OneToOne(cs, m) && |all| == |m.hits|
    requires forall r :: 0 <= r < |m.hits| ==> m.hits[r].Some? && m.hits[r].value.candidate in all
    ensures forall c :: c in all ==> Held(m, c)
  {
    var at := (r: nat) => if r < |m.hits| && m.hits[r].Some? then m.hits[r].value.candidate else 0;
    var img := set r | r in Numbers(|m.hits|) :: at(r);
    NumbersSize(|m.hits|);
    ImageSize(Numbers(|m.hits|), at, img);
    SubsetSize(img, all);
    forall c | c in all ensures Held(m, c) {
      assert c in img;
      var r :| r in Numbers(|m.hits|) && at(r) == c;
      assert m.hits[r].value.candidate == c;
    }
  }
}
