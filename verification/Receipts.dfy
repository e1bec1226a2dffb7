/** What applying a run does to the findings a build holds open, and what its receipt counts
    (internal/analysis/match.go and apply.go). */
module Receipts {
  import opened Common
  import opened Sorting
  import opened Layers
  import opened LayersTheorems
  import opened LayersOrder
  import opened LayersImperative

  /** A finding open on the build: whether the last comparable run missed it, the last run that saw
      it, and what that run said about it. */
  datatype Open = Open(id: int, absent: bool, lastRun: int, said: Keyed)

  /** A line as stored: none where the document stated none, and read back as zero. */
  function Stored(line: int): int {
    if line <= 0 then 0 else line
  }

  function CandidateOf(o: Open): Candidate {
    Candidate(o.id, o.said.key, o.said.unprintedKey, o.said.functionKey, o.said.lineKey, Stored(o.said.startLine), o.absent)
  }

  function CandidatesOf(open: seq<Open>): (cs: seq<Candidate>)
    ensures |cs| == |open|
    ensures forall i :: 0 <= i < |open| ==> cs[i] == CandidateOf(open[i])
  {
    seq(|open|, i requires 0 <= i < |open| => CandidateOf(open[i]))
  }

  ghost predicate DistinctOpen(open: seq<Open>) {
    forall i, j :: 0 <= i < j < |open| ==> open[i].id != open[j].id
  }

  function ById(): (Candidate, Candidate) -> bool {
    (a: Candidate, b: Candidate) => a.findingID <= b.findingID
  }

  type Paired = seq<Option<(int, Layer)>>

  /** What matching tells about each result: the finding it is paired with, and how. */
  function Answer(open: seq<Open>, keyed: seq<Keyed>, printsChanged: bool): (told: Paired)
    ensures |told| == |keyed|
  {
    Told(CandidatesOf(open), Matched(CandidatesOf(open), keyed, printsChanged))
  }

  ghost predicate OnePerFinding(told: Paired) {
    forall r, r' :: 0 <= r < r' < |told| && told[r].Some? && told[r'].Some? ==> told[r].value.0 != told[r'].value.0
  }

  function Ids(open: seq<Open>): set<int> {
    set i | 0 <= i < |open| :: open[i].id
  }

  lemma AnswerIsOnePerFinding(open: seq<Open>, keyed: seq<Keyed>, printsChanged: bool)
    requires DistinctOpen(open)
    ensures var told := Answer(open, keyed, printsChanged);
            OnePerFinding(told) && forall r :: 0 <= r < |told| && told[r].Some? ==> told[r].value.0 in Ids(open)
  {
    var cs := CandidatesOf(open);
    var m := Matched(cs, keyed, printsChanged);
    MatchedSound(cs, keyed, printsChanged);
    var told := Told(cs, m);
    forall r, r' | 0 <= r < r' < |told| && told[r].Some? && told[r'].Some? ensures told[r].value.0 != told[r'].value.0 {
      ToldApart(cs, keyed, m, r, r');
    }
    forall r | 0 <= r < |told| && told[r].Some? ensures told[r].value.0 in Ids(open) {
      assert told[r].value.0 == open[m.hits[r].value.candidate].id;
    }
  }

  /** A result and what was last said of a finding hold one key of a layer. */
  ghost predicate Alike(said: Keyed, k: Keyed, on: Layer) {
    match on
    case OnKey => said.key == k.key != ""
    case OnUnprinted => said.unprintedKey == k.unprintedKey != ""
    case OnFunction => said.functionKey == k.functionKey != ""
    case OnLine => said.lineKey == k.lineKey
  }

  /** Each result paired is paired with a finding last described alike on the layer's key. */
  lemma PairedAlike(open: seq<Open>, keyed: seq<Keyed>, printsChanged: bool, r: nat)
    requires r < |keyed| && Answer(open, keyed, printsChanged)[r].Some?
    ensures var (id, on) := Answer(open, keyed, printsChanged)[r].value;
            exists c :: 0 <= c < |open| && open[c].id == id && Alike(open[c].said, keyed[r], on)
  {
    hide Matched;
    var cs := CandidatesOf(open);
    MatchedSound(cs, keyed, printsChanged);
    var h := Matched(cs, keyed, printsChanged).hits[r].value;
    assert OnOneKey(cs[h.candidate], keyed[r], h.on);
    assert open[h.candidate].id == cs[h.candidate].findingID;
  }

  /** Matching is offered each finding as it was last described: on each layer's key, at its line, or at
      zero where none was stated, and as missed by the last run or not. */
  lemma OfferedAsDescribed(open: seq<Open>, c: nat, on: Layer)
    requires c < |open|
    ensures var offered, o := CandidatesOf(open)[c], open[c];
            && offered.findingID == o.id && offered.absent == o.absent
            && KeyOfCandidate(offered, on) == KeyOfResult(o.said, on)
            && (if o.said.startLine > 0 then offered.line == o.said.startLine else offered.line == 0)
  {}

  /** The findings a run saw. */
  function Seen(told: Paired): set<int> {
    set r | 0 <= r < |told| && told[r].Some? :: told[r].value.0
  }

  // ----- What a run saw, missed and opened -----

  function Unpaired(keyed: seq<Keyed>, told: Paired): seq<Keyed>
    requires |told| == |keyed|
  {
    if keyed == [] then []
    else
      var n := |keyed| - 1;
      Unpaired(keyed[..n], told[..n]) + if told[n].None? then [keyed[n]] else []
  }

  /** The findings, of those the last comparable run saw, that this one did not. */
  function Missed(open: seq<Open>, seen: set<int>): seq<int> {
    if open == [] then []
    else
      var n := |open| - 1;
      Missed(open[..n], seen) + if open[n].id !in seen && !open[n].absent then [open[n].id] else []
  }

  function Returned(open: seq<Open>, seen: set<int>): nat {
    if open == [] then 0
    else
      var n := |open| - 1;
      Returned(open[..n], seen) + if open[n].id in seen && open[n].absent then 1 else 0
  }

  function Live(open: seq<Open>): nat {
    if open == [] then 0 else Live(open[..|open| - 1]) + if open[|open| - 1].absent then 0 else 1
  }

  /** How many findings a run saw, counted over the findings. */
  lemma {:induction false} LiveSplit(open: seq<Open>, seen: set<int>)
    requires DistinctOpen(open)
    ensures Live(open) + Returned(open, seen) == |seen * Ids(open)| + |Missed(open, seen)|
  {
    if open == [] {
      assert seen * Ids(open) == {};
    } else {
      var n := |open| - 1;
      var id, before := open[n].id, seen * Ids(open[..n]);
      LiveSplit(open[..n], seen);
      IdsGrow(open);
      if id in seen {
        assert seen * Ids(open) == before + {id};
        assert id !in before;
      } else {
        assert seen * Ids(open) == before;
      }
    }
  }

  lemma IdsGrow(open: seq<Open>)
    requires open != [] && DistinctOpen(open)
    ensures var n := |open| - 1;
            Ids(open) == Ids(open[..n]) + {open[n].id} && open[n].id !in Ids(open[..n])
  {}

  lemma PairsFit(cs: seq<Candidate>, keyed: seq<Keyed>, m: Marks)
    requires Sound(cs, keyed, m)
    ensures |m.hits| == |keyed|
    ensures forall i :: 0 <= i < |Listed(m.hits)| ==>
      var p := Listed(m.hits)[i]; p.result < |keyed| && p.candidate < |cs| && m.hits[p.result].Some?
  {}

  /** Files each pairing under its finding, and flags its result. */
  method FilePairs(cs: seq<Candidate>, keyed: seq<Keyed>, pairs: seq<Pairing>, ghost m: Marks)
    returns (matched: map<int, (Keyed, Layer)>, paired: array<bool>)
    requires Sound(cs, keyed, m) && DistinctIDs(cs) && pairs == Listed(m.hits)
    ensures paired.Length == |keyed| && forall r :: 0 <= r < |keyed| ==> (paired[r] <==> m.hits[r].Some?)
    ensures forall r :: 0 <= r < |keyed| && Told(cs, m)[r].Some? ==>
              var (id, on) := Told(cs, m)[r].value; id in matched && matched[id] == (keyed[r], on)
    ensures forall id :: id in matched ==> Sourced(matched, Told(cs, m), id)
  {
    PairsFit(cs, keyed, m);
    hide Sound, DistinctIDs, Sourced, FiledUpTo, Flagged, Filed;
    ghost var told := Told(cs, m);
    matched := map[];
    paired := new bool[|keyed|](_ => false);
    NothingFiled(paired[..], keyed, m, told, pairs);
    for i := 0 to |pairs|
      invariant Flagged(paired[..], m, pairs, i)
      invariant FiledUpTo(matched, keyed, told, pairs, i)
    {
      var p := pairs[i];
      var id := cs[p.candidate].findingID;
      FilesNext(matched, cs, keyed, m, pairs, i);
      FlagsNext(paired[..], m, pairs, i);
      matched := matched[id := (keyed[p.result], p.on)];
      paired[p.result] := true;
    }
    AllFiled(paired[..], matched, keyed, m, told, pairs);
  }

  lemma NothingFiled(flags: seq<bool>, keyed: seq<Keyed>, m: Marks, told: Paired, pairs: seq<Pairing>)
    requires |flags| == |m.hits| == |told| == |keyed| && forall j :: 0 <= j < |pairs| ==> pairs[j].result < |keyed|
    requires forall r :: 0 <= r < |flags| ==> !flags[r]
    ensures Flagged(flags, m, pairs, 0) && FiledUpTo(map[], keyed, told, pairs, 0)
  {}

  lemma AllFiled(flags: seq<bool>, matched: map<int, (Keyed, Layer)>, keyed: seq<Keyed>, m: Marks, told: Paired, pairs: seq<Pairing>)
    requires |flags| == |m.hits| == |told| == |keyed| && pairs == Listed(m.hits)
    requires Flagged(flags, m, pairs, |pairs|) && FiledUpTo(matched, keyed, told, pairs, |pairs|)
    ensures forall r :: 0 <= r < |keyed| ==> (flags[r] <==> m.hits[r].Some?)
    ensures forall r :: 0 <= r < |keyed| && m.hits[r].Some? ==>
              told[r].Some? && told[r].value.0 in matched && matched[told[r].value.0] == (keyed[r], told[r].value.1)
    ensures forall id :: id in matched ==> Sourced(matched, told, id)
  {
    forall r | 0 <= r < |keyed| && m.hits[r].Some? ensures flags[r] && Filed(matched, keyed, told, r) {
      assert Pairing(r, m.hits[r].value.candidate, m.hits[r].value.on) in pairs;
    }
  }

  ghost predicate FiledUpTo(matched: map<int, (Keyed, Layer)>, keyed: seq<Keyed>, told: Paired, pairs: seq<Pairing>, i: nat)
    requires |told| == |keyed| && i <= |pairs| && forall j :: 0 <= j < |pairs| ==> pairs[j].result < |keyed|
  {
    && (forall j :: 0 <= j < i ==> Filed(matched, keyed, told, pairs[j].result))
    && (forall id :: id in matched ==> Sourced(matched, told, id))
  }

  lemma FilesNext(matched: map<int, (Keyed, Layer)>, cs: seq<Candidate>, keyed: seq<Keyed>, m: Marks, pairs: seq<Pairing>, i: nat)
    requires Sound(cs, keyed, m) && DistinctIDs(cs) && pairs == Listed(m.hits) && i < |pairs|
    requires FiledUpTo(matched, keyed, Told(cs, m), pairs, i)
    ensures FiledUpTo(matched[cs[pairs[i].candidate].findingID := (keyed[pairs[i].result], pairs[i].on)],
                      keyed, Told(cs, m), pairs, i + 1)
  {
    var p, told := pairs[i], Told(cs, m);
    var id := cs[p.candidate].findingID;
    assert told[p.result] == Some((id, p.on));
    forall j | 0 <= j < i ensures told[pairs[j].result].Some? && told[pairs[j].result].value.0 != id {
      ToldApart(cs, keyed, m, pairs[j].result, p.result);
    }
    FiledStays(matched, keyed, told, pairs, i, id, p.on);
  }

  lemma FiledStays(matched: map<int, (Keyed, Layer)>, keyed: seq<Keyed>, told: Paired, pairs: seq<Pairing>, i: nat, id: int, on: Layer)
    requires |told| == |keyed| && i < |pairs| && forall j :: 0 <= j < |pairs| ==> pairs[j].result < |keyed|
    requires FiledUpTo(matched, keyed, told, pairs, i)
    requires told[pairs[i].result] == Some((id, on))
    requires forall j :: 0 <= j < i ==> told[pairs[j].result].Some? && told[pairs[j].result].value.0 != id
    ensures FiledUpTo(matched[id := (keyed[pairs[i].result], on)], keyed, told, pairs, i + 1)
  {
    var next := matched[id := (keyed[pairs[i].result], on)];
    forall j | 0 <= j < i ensures Filed(next, keyed, told, pairs[j].result) {
      assert Filed(matched, keyed, told, pairs[j].result);
    }
    forall x | x in next ensures Sourced(next, told, x) {
      if x != id { assert Sourced(matched, told, x); }
    }
  }

  ghost predicate Flagged(flags: seq<bool>, m: Marks, pairs: seq<Pairing>, i: nat)
    requires |flags| == |m.hits| && i <= |pairs| && forall j :: 0 <= j < |pairs| ==> pairs[j].result < |flags|
  {
    && (forall j :: 0 <= j < i ==> flags[pairs[j].result])
    && (forall r :: 0 <= r < |flags| && flags[r] ==> m.hits[r].Some?)
  }

  lemma FlagsNext(flags: seq<bool>, m: Marks, pairs: seq<Pairing>, i: nat)
    requires |flags| == |m.hits| && i < |pairs| && forall j :: 0 <= j < |pairs| ==> pairs[j].result < |flags|
    requires Flagged(flags, m, pairs, i) && m.hits[pairs[i].result].Some?
    ensures Flagged(flags[pairs[i].result := true], m, pairs, i + 1)
  {}

  lemma ToldApart(cs: seq<Candidate>, keyed: seq<Keyed>, m: Marks, r: nat, r': nat)
    requires Sound(cs, keyed, m) && DistinctIDs(cs) && r < r' < |keyed| && m.hits[r].Some? && m.hits[r'].Some?
    ensures Told(cs, m)[r].value.0 != Told(cs, m)[r'].value.0
  {
    DistinctIDsAt(cs, m.hits[r].value.candidate, m.hits[r'].value.candidate);
  }

  ghost predicate Sourced(matched: map<int, (Keyed, Layer)>, told: Paired, id: int)
    requires id in matched
  {
    exists r :: 0 <= r < |told| && told[r] == Some((id, matched[id].1))
  }

  ghost predicate Filed(matched: map<int, (Keyed, Layer)>, keyed: seq<Keyed>, told: Paired, r: nat)
    requires |told| == |keyed| && r < |keyed|
  {
    told[r].Some? && told[r].value.0 in matched && matched[told[r].value.0] == (keyed[r], told[r].value.1)
  }

  method CollectUnpaired(keyed: seq<Keyed>, paired: array<bool>, ghost told: Paired) returns (opening: seq<Keyed>)
    requires |told| == |keyed| == paired.Length && forall r :: 0 <= r < |keyed| ==> (paired[r] <==> told[r].Some?)
    ensures opening == Unpaired(keyed, told)
  {
    opening := [];
    for i := 0 to |keyed|
      invariant opening == Unpaired(keyed[..i], told[..i])
    {
      assert keyed[..i + 1][..i] == keyed[..i] && told[..i + 1][..i] == told[..i];
      if !paired[i] {
        opening := opening + [keyed[i]];
      }
    }
    assert keyed[..|keyed|] == keyed && told[..|told|] == told;
  }

  method CollectMissed(open: seq<Open>, matched: map<int, (Keyed, Layer)>) returns (missed: seq<int>, returned: nat)
    ensures missed == Missed(open, matched.Keys) && returned == Returned(open, matched.Keys)
  {
    missed := [];
    returned := 0;
    for i := 0 to |open|
      invariant missed == Missed(open[..i], matched.Keys) && returned == Returned(open[..i], matched.Keys)
    {
      assert open[..i + 1][..i] == open[..i];
      var seen := open[i].id in matched;
      if seen && open[i].absent {
        returned := returned + 1;
      } else if !seen && !open[i].absent {
        missed := missed + [open[i].id];
      }
    }
    assert open[..|open|] == open;
  }

  /** Pairs a run's results with the findings open on the build, and sorts both sides by what came
      of them. Every result is paired or new, and every finding the last comparable run saw, with
      those returned, is seen or missed. */
  method MatchRun(open: seq<Open>, keyed: seq<Keyed>, printsChanged: bool)
    returns (matched: map<int, (Keyed, Layer)>, opening: seq<Keyed>, missed: seq<int>, returned: nat)
    requires DistinctOpen(open)
    ensures forall r :: 0 <= r < |keyed| && Answer(open, keyed, printsChanged)[r].Some? ==>
              var (id, on) := Answer(open, keyed, printsChanged)[r].value; id in matched && matched[id] == (keyed[r], on)
    ensures forall id :: id in matched ==> id in Ids(open) && Sourced(matched, Answer(open, keyed, printsChanged), id)
    ensures matched.Keys == Seen(Answer(open, keyed, printsChanged))
    ensures opening == Unpaired(keyed, Answer(open, keyed, printsChanged))
    ensures missed == Missed(open, matched.Keys) && returned == Returned(open, matched.Keys)
    ensures |opening| + |matched| == |keyed|
    ensures Live(open) + returned == |matched| + |missed|
  {
    ghost var told := Answer(open, keyed, printsChanged);
    AnswerIsOnePerFinding(open, keyed, printsChanged);
    var cs := Sort(CandidatesOf(open), ById());
    SortPermutes(CandidatesOf(open), ById());
    MatchingIgnoresOrder(CandidatesOf(open), cs, keyed, printsChanged);
    ghost var m := Matched(cs, keyed, printsChanged);
    MatchedSound(cs, keyed, printsChanged);
    ghost var pi := Places(CandidatesOf(open), cs);
    var pairs := Layered(cs, keyed, printsChanged);
    var paired;
    matched, paired := FilePairs(cs, keyed, pairs, m);
    assert Told(cs, m) == told;
    opening := CollectUnpaired(keyed, paired, told);
    missed, returned := CollectMissed(open, matched);
    MatchCounts(open, keyed, told, matched);
  }

  /** The counts of the partition. */
  lemma MatchCounts(open: seq<Open>, keyed: seq<Keyed>, told: Paired, matched: map<int, (Keyed, Layer)>)
    requires DistinctOpen(open) && |told| == |keyed| && OnePerFinding(told)
    requires forall r :: 0 <= r < |told| && told[r].Some? ==> told[r].value.0 in Ids(open) && told[r].value.0 in matched
    requires forall id :: id in matched ==> Sourced(matched, told, id)
    ensures matched.Keys == Seen(told) && matched.Keys <= Ids(open)
    ensures |Unpaired(keyed, told)| + |matched| == |keyed|
    ensures Live(open) + Returned(open, matched.Keys) == |matched| + |Missed(open, matched.Keys)|
  {
    forall id | id in matched ensures id in Ids(open) && id in Seen(told) {
      assert Sourced(matched, told, id);
    }
    assert matched.Keys == Seen(told);
    LiveSplit(open, matched.Keys);
    assert matched.Keys * Ids(open) == matched.Keys;
    PairedCounts(told);
    UnpairedCount(keyed, told);
  }

  function PairedCount(told: Paired): nat {
    if told == [] then 0 else PairedCount(told[..|told| - 1]) + if told[|told| - 1].Some? then 1 else 0
  }

  lemma {:induction false} UnpairedCount(keyed: seq<Keyed>, told: Paired)
    requires |told| == |keyed|
    ensures |Unpaired(keyed, told)| + PairedCount(told) == |keyed|
  {
    if told != [] {
      UnpairedCount(keyed[..|keyed| - 1], told[..|told| - 1]);
    }
  }

  lemma {:induction false} PairedCounts(told: Paired)
    requires OnePerFinding(told)
    ensures |Seen(told)| == PairedCount(told)
  {
    if told == [] {
      assert Seen(told) == {};
    } else {
      var n := |told| - 1;
      SeenAdds(told, n);
      PairedCounts(told[..n]);
    }
  }

  lemma SeenAdds(told: Paired, n: nat)
    requires OnePerFinding(told) && |told| == n + 1
    ensures OnePerFinding(told[..n])
    ensures told[n].None? ==> Seen(told) == Seen(told[..n])
    ensures told[n].Some? ==> Seen(told) == Seen(told[..n]) + {told[n].value.0} && told[n].value.0 !in Seen(told[..n])
  {
    forall id ensures id in Seen(told) <==> id in Seen(told[..n]) || (told[n].Some? && id == told[n].value.0) {
      if id in Seen(told) {
        var r :| 0 <= r < |told| && told[r].Some? && told[r].value.0 == id;
        assert r < n ==> told[..n][r] == told[r];
      }
      if id in Seen(told[..n]) {
        var r :| 0 <= r < n && told[..n][r].Some? && told[..n][r].value.0 == id;
        assert told[r] == told[..n][r];
      }
    }
  }

  // ----- Which absences are evidence -----

  datatype Params = Params(tool: string, version: string, rules: string)

  datatype Reason = ToolChanged | RulesChanged

  /** Why a run is not comparable to an earlier one, where it is not. */
  function Against(p: Params, earlier: Params): Option<Reason> {
    if earlier.tool != p.tool || earlier.version != p.version then Some(ToolChanged)
    else if earlier.rules != p.rules then Some(RulesChanged)
    else None
  }

  /** The last run that saw a finding. */
  function LastRunOf(open: seq<Open>, id: int): int {
    if open == [] then 0
    else if open[|open| - 1].id == id then open[|open| - 1].lastRun
    else LastRunOf(open[..|open| - 1], id)
  }

  predicate ComparableTo(runs: map<int, Params>, params: Params, open: seq<Open>, id: int) {
    var last := LastRunOf(open, id);
    last in runs && Against(params, runs[last]).None?
  }

  function Compared(runs: map<int, Params>, params: Params, open: seq<Open>, missed: seq<int>): seq<int> {
    if missed == [] then []
    else
      var n := |missed| - 1;
      Compared(runs, params, open, missed[..n])
        + if ComparableTo(runs, params, open, missed[n]) then [missed[n]] else []
  }

  /** The runs the findings missed were last seen by. */
  ghost function LastRuns(open: seq<Open>, missed: seq<int>): set<int> {
    set id | id in missed :: LastRunOf(open, id)
  }

  lemma LastRunsAdd(open: seq<Open>, missed: seq<int>, i: nat)
    requires i < |missed|
    ensures LastRuns(open, missed[..i + 1]) == LastRuns(open, missed[..i]) + {LastRunOf(open, missed[i])}
  {
    assert missed[..i + 1] == missed[..i] + [missed[i]];
  }

  lemma ComparedAdds(runs: map<int, Params>, params: Params, open: seq<Open>, missed: seq<int>, i: nat)
    requires i < |missed| && LastRunOf(open, missed[i]) in runs
    ensures Compared(runs, params, open, missed[..i + 1]) == Compared(runs, params, open, missed[..i])
              + if Against(params, runs[LastRunOf(open, missed[i])]).None? then [missed[i]] else []
  {
    assert missed[..i + 1][..i] == missed[..i];
  }

  lemma NothingCompared(runs: map<int, Params>, params: Params, open: seq<Open>)
    ensures LastRuns(open, []) == {} && Compared(runs, params, open, []) == []
  {}

  /** Of the findings missed, those whose last run this one is comparable to; the runs read are those
      that last saw one of them, each read once. */
  method ComparedTo(runs: map<int, Params>, params: Params, open: seq<Open>, missed: seq<int>)
    returns (kept: seq<int>, uncompared: nat, read: seq<int>)
    requires forall i :: 0 <= i < |open| ==> open[i].lastRun in runs
    requires forall i :: 0 <= i < |missed| ==> missed[i] in Ids(open)
    ensures kept == Compared(runs, params, open, missed) && |kept| + uncompared == |missed|
    ensures Distinct(read) && Elements(read) == LastRuns(open, missed)
  {
    hide LastRuns, Compared, Against, ComparableTo;
    NothingCompared(runs, params, open);
    if |missed| == 0 {
      return [], 0, [];
    }
    var lastRun: map<int, int> := map[];
    for i := 0 to |open|
      invariant forall id :: id in lastRun <==> id in Ids(open[..i])
      invariant forall id :: id in lastRun ==> lastRun[id] == LastRunOf(open[..i], id) && lastRun[id] in runs
    {
      assert open[..i + 1][..i] == open[..i];
      assert Ids(open[..i + 1]) == Ids(open[..i]) + {open[i].id};
      lastRun := lastRun[open[i].id := open[i].lastRun];
    }
    assert open[..|open|] == open && missed[..0] == [];
    var alike: map<int, bool> := map[];
    kept, uncompared, read := [], 0, [];
    for i := 0 to |missed|
      invariant kept == Compared(runs, params, open, missed[..i]) && |kept| + uncompared == i
      invariant forall run :: run in alike ==> run in runs && alike[run] == Against(params, runs[run]).None?
      invariant Distinct(read) && Elements(read) == alike.Keys == LastRuns(open, missed[..i])
    {
      LastRunsAdd(open, missed, i);
      ComparedAdds(runs, params, open, missed, i);
      var last := lastRun[missed[i]];
      if last !in alike {
        read := read + [last];
        alike := alike[last := Against(params, runs[last]).None?];
      }
      if alike[last] {
        kept := kept + [missed[i]];
      } else {
        uncompared := uncompared + 1;
      }
    }
    assert missed[..|missed|] == missed;
  }

  // ----- The findings a run leaves open -----

  /** The result paired with a finding. */
  function ResultOf(told: Paired, id: int): (r: Option<nat>)
    ensures r.Some? ==> r.value < |told| && told[r.value].Some? && told[r.value].value.0 == id
    ensures r.None? ==> forall i :: 0 <= i < |told| && told[i].Some? ==> told[i].value.0 != id
  {
    if told == [] then None
    else
      var n := |told| - 1;
      if told[n].Some? && told[n].value.0 == id then Some(n) else ResultOf(told[..n], id)
  }

  /** A finding open before the run, after it: described again where the run saw it, and marked
      absent where it is one of those let go. */
  function Again(o: Open, told: Paired, keyed: seq<Keyed>, run: int, kept: seq<int>): Open
    requires |told| == |keyed|
  {
    var r := ResultOf(told, o.id);
    if r.Some? then Open(o.id, false, run, keyed[r.value])
    else if o.id in kept then o.(absent := true)
    else o
  }

  function AfterRun(open: seq<Open>, told: Paired, keyed: seq<Keyed>, run: int, kept: seq<int>, next: int): (open': seq<Open>)
    requires |told| == |keyed|
    ensures |open'| == |open| + |Unpaired(keyed, told)|
    ensures forall c :: 0 <= c < |open| ==> open'[c] == Again(open[c], told, keyed, run, kept)
    ensures forall j :: 0 <= j < |Unpaired(keyed, told)| ==>
      open'[|open| + j] == Open(next + j, false, run, Unpaired(keyed, told)[j])
  {
    var opening := Unpaired(keyed, told);
    seq(|open|, c requires 0 <= c < |open| => Again(open[c], told, keyed, run, kept))
    + seq(|opening|, j requires 0 <= j < |opening| => Open(next + j, false, run, opening[j]))
  }

  /** Every finding has a number of its own, below the next one. */
  ghost predicate Numbered(open: seq<Open>, next: int) {
    DistinctOpen(open) && forall i :: 0 <= i < |open| ==> open[i].id < next
  }

  lemma AfterRunNumbered(open: seq<Open>, told: Paired, keyed: seq<Keyed>, run: int, kept: seq<int>, next: int)
    requires |told| == |keyed| && Numbered(open, next)
    ensures Numbered(AfterRun(open, told, keyed, run, kept, next), next + |Unpaired(keyed, told)|)
  {
    var after := AfterRun(open, told, keyed, run, kept, next);
    forall c | 0 <= c < |after|
      ensures after[c].id == if c < |open| then open[c].id else next + (c - |open|)
    {
      if c >= |open| { assert after[|open| + (c - |open|)].id == next + (c - |open|); }
    }
  }

  /** What becomes of a finding: seen, it is live and described by the result that saw it; not seen, it
      is absent exactly if it was, or if this absence is evidence, and is else as it was. */
  ghost predicate LeftAs(before: Open, after: Open, told: Paired, keyed: seq<Keyed>, run: int, evidence: bool)
    requires |told| == |keyed|
  {
    && after.id == before.id
    && (forall r :: 0 <= r < |told| && told[r].Some? && told[r].value.0 == before.id ==>
          !after.absent && after.lastRun == run && after.said == keyed[r])
    && ((forall r :: 0 <= r < |told| && told[r].Some? ==> told[r].value.0 != before.id) ==>
          (after.absent <==> before.absent || evidence) && after.lastRun == before.lastRun && after.said == before.said)
  }

  lemma {:induction false} LiveOf(open: seq<Open>, more: seq<Open>)
    ensures Live(open + more) == Live(open) + Live(more)
    decreases |more|
  {
    if more == [] {
      assert open + more == open;
    } else {
      var n := |more| - 1;
      assert (open + more)[..|open + more| - 1] == open + more[..n];
      LiveOf(open, more[..n]);
    }
  }

  lemma {:induction false} AllLive(open: seq<Open>)
    requires forall c :: 0 <= c < |open| ==> !open[c].absent
    ensures Live(open) == |open|
  {
    if open != [] { AllLive(open[..|open| - 1]); }
  }

  /** How many were let go, of some findings. */
  function LetGo(open: seq<Open>, seen: set<int>, kept: seq<int>): nat {
    if open == [] then 0
    else
      var n := |open| - 1;
      LetGo(open[..n], seen, kept) + if open[n].id !in seen && !open[n].absent && open[n].id in kept then 1 else 0
  }

  lemma {:induction false} LiveAgain(open: seq<Open>, after: seq<Open>, told: Paired, keyed: seq<Keyed>, run: int, kept: seq<int>)
    requires |told| == |keyed| && |after| == |open|
    requires forall c :: 0 <= c < |open| ==> after[c] == Again(open[c], told, keyed, run, kept)
    ensures Live(after) == Live(open) + Returned(open, Seen(told)) - LetGo(open, Seen(told), kept)
  {
    if open != [] {
      var n := |open| - 1;
      LiveAgain(open[..n], after[..n], told, keyed, run, kept);
      SeenIsResult(told, open[n].id);
    }
  }

  lemma SeenIsResult(told: Paired, id: int)
    ensures id in Seen(told) <==> ResultOf(told, id).Some?
  {}

  /** Each finding missed that is let go is counted once. */
  lemma {:induction false} LetGoCounts(open: seq<Open>, seen: set<int>, runs: map<int, Params>, params: Params, whole: seq<Open>, kept: seq<int>)
    requires DistinctOpen(open)
    requires forall c :: 0 <= c < |open| && open[c].id !in seen && !open[c].absent ==>
               (open[c].id in kept <==> ComparableTo(runs, params, whole, open[c].id))
    ensures LetGo(open, seen, kept) == |Compared(runs, params, whole, Missed(open, seen))|
  {
    hide ComparableTo;
    if open != [] {
      var n := |open| - 1;
      LetGoCounts(open[..n], seen, runs, params, whole, kept);
      var before := Missed(open[..n], seen);
      if open[n].id !in seen && !open[n].absent {
        assert Missed(open, seen) == before + [open[n].id];
        assert (before + [open[n].id])[..|before|] == before;
      } else {
        assert Missed(open, seen) == before + [] == before;
      }
    }
  }

  lemma {:induction false} ComparedMembers(runs: map<int, Params>, params: Params, open: seq<Open>, missed: seq<int>, id: int)
    ensures id in Compared(runs, params, open, missed) <==> id in missed && ComparableTo(runs, params, open, id)
  {
    if missed != [] {
      var n := |missed| - 1;
      ComparedMembers(runs, params, open, missed[..n], id);
      assert missed == missed[..n] + [missed[n]];
    }
  }

  lemma {:induction false} MissedMembers(open: seq<Open>, seen: set<int>, c: nat)
    requires DistinctOpen(open) && c < |open|
    ensures open[c].id in Missed(open, seen) <==> open[c].id !in seen && !open[c].absent
  {
    var n := |open| - 1;
    if c < n {
      MissedMembers(open[..n], seen, c);
      assert open[c].id != open[n].id;
    } else {
      MissedAreOpen(open[..n], seen);
      forall i | 0 <= i < |Missed(open[..n], seen)| ensures Missed(open[..n], seen)[i] != open[n].id {
        assert Missed(open[..n], seen)[i] in Ids(open[..n]);
      }
    }
  }

  lemma {:induction false} LastRunIs(open: seq<Open>, c: nat)
    requires DistinctOpen(open) && c < |open|
    ensures LastRunOf(open, open[c].id) == open[c].lastRun
  {
    var n := |open| - 1;
    if c < n { LastRunIs(open[..n], c); }
  }

  lemma LetGoExactlyWhen(open: seq<Open>, seen: set<int>, runs: map<int, Params>, params: Params, c: nat)
    requires DistinctOpen(open) && c < |open| && open[c].lastRun in runs
    ensures open[c].id in Compared(runs, params, open, Missed(open, seen)) <==>
      open[c].id !in seen && !open[c].absent && runs[open[c].lastRun] == params
  {
    ComparedMembers(runs, params, open, Missed(open, seen), open[c].id);
    MissedMembers(open, seen, c);
    LastRunIs(open, c);
  }

  /** What a comparable run leaves of the findings, and how many of them live. */
  lemma AppliedLeaves(open: seq<Open>, told: Paired, keyed: seq<Keyed>, run: int, params: Params, runs: map<int, Params>, next: int)
    requires DistinctOpen(open) && |told| == |keyed| && OnePerFinding(told)
    requires forall c :: 0 <= c < |open| ==> open[c].lastRun in runs
    ensures var kept := Compared(runs, params, open, Missed(open, Seen(told)));
            var after := AfterRun(open, told, keyed, run, kept, next);
            && Live(after) == Live(open) + |Unpaired(keyed, told)| + Returned(open, Seen(told)) - |kept|
            && forall c :: 0 <= c < |open| ==>
                 LeftAs(open[c], after[c], told, keyed, run, runs[open[c].lastRun] == params)
  {
    hide Compared, Missed;
    var seen := Seen(told);
    var kept := Compared(runs, params, open, Missed(open, seen));
    forall c | 0 <= c < |open|
      ensures open[c].id in kept <==> open[c].id !in seen && !open[c].absent && runs[open[c].lastRun] == params
      ensures open[c].id in kept ==> ComparableTo(runs, params, open, open[c].id)
      ensures open[c].id !in seen && !open[c].absent && ComparableTo(runs, params, open, open[c].id) ==> open[c].id in kept
    {
      LetGoExactlyWhen(open, seen, runs, params, c);
      LastRunIs(open, c);
    }
    LetGoCounts(open, seen, runs, params, open, kept);
    LiveAfter(open, told, keyed, run, kept, next);
    var after := AfterRun(open, told, keyed, run, kept, next);
    forall c | 0 <= c < |open| ensures LeftAs(open[c], after[c], told, keyed, run, runs[open[c].lastRun] == params) {
      AgainIs(open[c], told, keyed, run, kept, runs[open[c].lastRun] == params);
    }
  }

  lemma LiveAfter(open: seq<Open>, told: Paired, keyed: seq<Keyed>, run: int, kept: seq<int>, next: int)
    requires |told| == |keyed|
    ensures Live(AfterRun(open, told, keyed, run, kept, next)) ==
      Live(open) + |Unpaired(keyed, told)| + Returned(open, Seen(told)) - LetGo(open, Seen(told), kept)
  {
    hide Returned, LetGo, Live;
    var after, n := AfterRun(open, told, keyed, run, kept, next), |open|;
    assert after == after[..n] + after[n..];
    LiveOf(after[..n], after[n..]);
    LiveAgain(open, after[..n], told, keyed, run, kept);
    forall c | 0 <= c < |after[n..]| ensures !after[n..][c].absent {
      assert after[n..][c] == after[n + c];
    }
    AllLive(after[n..]);
  }

  lemma AgainIs(o: Open, told: Paired, keyed: seq<Keyed>, run: int, kept: seq<int>, evidence: bool)
    requires |told| == |keyed| && OnePerFinding(told)
    requires o.id in kept <==> o.id !in Seen(told) && !o.absent && evidence
    ensures LeftAs(o, Again(o, told, keyed, run, kept), told, keyed, run, evidence)
  {
    SeenIsResult(told, o.id);
    var at := ResultOf(told, o.id);
    if at.Some? {
      forall r | 0 <= r < |told| && told[r].Some? && told[r].value.0 == o.id ensures r == at.value {}
    }
  }

  lemma NothingLetGo(open: seq<Open>, told: Paired, keyed: seq<Keyed>, run: int, next: int)
    requires |told| == |keyed| && OnePerFinding(told)
    ensures var after := AfterRun(open, told, keyed, run, [], next);
            && Live(after) == Live(open) + |Unpaired(keyed, told)| + Returned(open, Seen(told))
            && forall c :: 0 <= c < |open| ==> LeftAs(open[c], after[c], told, keyed, run, false)
  {
    LiveAfter(open, told, keyed, run, [], next);
    NoneLetGo(open, Seen(told));
    forall c | 0 <= c < |open|
      ensures LeftAs(open[c], AfterRun(open, told, keyed, run, [], next)[c], told, keyed, run, false)
    {
      AgainIs(open[c], told, keyed, run, [], false);
    }
  }

  lemma {:induction false} NoneLetGo(open: seq<Open>, seen: set<int>)
    ensures LetGo(open, seen, []) == 0
  {
    if open != [] { NoneLetGo(open[..|open| - 1], seen); }
  }

  /** What a receipt counts of the findings. */
  datatype Receipt = Receipt(newlyOpened: nat, seen: nat, returned: nat, noLongerDetected: nat, uncompared: nat)

  /** The findings one series holds open on one build. */
  class HeldOpen {
    var open: seq<Open>
    var next: int

    ghost predicate Valid()
      reads this
    {
      Numbered(open, next)
    }

    constructor ()
      ensures Valid() && open == []
    {
      open, next := [], 1;
    }

    /** Applies a run: what it saw is described again, what it missed is let go where the absence is
        evidence, and what it brings is opened. The receipt accounts for every result and for every
        finding the last comparable run saw. */
    method Apply(run: int, params: Params, runs: map<int, Params>, keyed: seq<Keyed>, printsChanged: bool, comparable: bool)
      returns (receipt: Receipt)
      requires Valid() && forall i :: 0 <= i < |open| ==> open[i].lastRun in runs
      modifies this
      ensures Valid()
      ensures var told := Answer(old(open), keyed, printsChanged);
              var missed := Missed(old(open), Seen(told));
              var kept := if comparable then Compared(runs, params, old(open), missed) else [];
              && open == AfterRun(old(open), told, keyed, run, kept, old(next))
              && receipt.noLongerDetected == |kept|
              && receipt.seen == |Seen(told)|
              && receipt.uncompared == (if comparable then |missed| - |kept| else 0)
              && receipt.returned == Returned(old(open), Seen(told))
      ensures receipt.newlyOpened == |open| - |old(open)|
      ensures receipt.newlyOpened + receipt.seen == |keyed|
      ensures comparable ==>
                Live(old(open)) + receipt.returned == receipt.seen + receipt.noLongerDetected + receipt.uncompared
      ensures Live(open) == Live(old(open)) + receipt.newlyOpened + receipt.returned - receipt.noLongerDetected
      ensures |old(open)| <= |open| && forall c :: 0 <= c < |old(open)| ==>
                LeftAs(old(open)[c], open[c], Answer(old(open), keyed, printsChanged), keyed, run,
                       comparable && runs[old(open)[c].lastRun] == params)
    {
      ghost var told := Answer(open, keyed, printsChanged);
      AnswerIsOnePerFinding(open, keyed, printsChanged);
      var matched, opening, missed, returned := MatchRun(open, keyed, printsChanged);
      var uncompared := 0;
      var absent: seq<int> := [];
      if comparable {
        MissedAreOpen(open, matched.Keys);
        var kept, left, read := ComparedTo(runs, params, open, missed);
        absent, uncompared := kept, left;
      }
      receipt := Receipt(|opening|, |matched|, returned, |absent|, uncompared);
      var after := Describe(open, told, keyed, matched, absent, opening, run, next);
      AfterRunNumbered(open, told, keyed, run, absent, next);
      if comparable {
        AppliedLeaves(open, told, keyed, run, params, runs, next);
      } else {
        NothingLetGo(open, told, keyed, run, next);
      }
      open, next := after, next + |opening|;
    }
  }

  /** Each finding as the run leaves it, and one more for each result nothing matched. */
  method Describe(open: seq<Open>, ghost told: Paired, ghost keyed: seq<Keyed>, matched: map<int, (Keyed, Layer)>,
                  absent: seq<int>, opening: seq<Keyed>, run: int, next: int)
    returns (after: seq<Open>)
    requires |told| == |keyed| && OnePerFinding(told) && opening == Unpaired(keyed, told)
    requires forall r :: 0 <= r < |told| && told[r].Some? ==>
               var (i, on) := told[r].value; i in matched && matched[i] == (keyed[r], on)
    requires forall i :: i in matched ==> Sourced(matched, told, i)
    ensures after == AfterRun(open, told, keyed, run, absent, next)
  {
    after := [];
    for i := 0 to |open|
      invariant |after| == i && forall c :: 0 <= c < i ==> after[c] == Again(open[c], told, keyed, run, absent)
    {
      var o := open[i];
      MatchedIs(told, keyed, matched, o.id);
      if o.id in matched {
        after := after + [Open(o.id, false, run, matched[o.id].0)];
      } else if o.id in absent {
        after := after + [o.(absent := true)];
      } else {
        after := after + [o];
      }
    }
    ghost var again := after;
    for j := 0 to |opening|
      invariant |after| == |open| + j && after[..|open|] == again
      invariant forall c :: 0 <= c < j ==> after[|open| + c] == Open(next + c, false, run, opening[c])
    {
      after := after + [Open(next + j, false, run, opening[j])];
    }
    assert after == again + after[|open|..];
  }

  lemma {:induction false} MissedAreOpen(open: seq<Open>, seen: set<int>)
    ensures forall i :: 0 <= i < |Missed(open, seen)| ==> Missed(open, seen)[i] in Ids(open)
  {
    if open != [] {
      var n := |open| - 1;
      MissedAreOpen(open[..n], seen);
      assert Ids(open) == Ids(open[..n]) + {open[n].id};
    }
  }

  lemma MatchedIs(told: Paired, keyed: seq<Keyed>, matched: map<int, (Keyed, Layer)>, id: int)
    requires |told| == |keyed| && OnePerFinding(told)
    requires forall r :: 0 <= r < |told| && told[r].Some? ==>
               var (i, on) := told[r].value; i in matched && matched[i] == (keyed[r], on)
    requires forall i :: i in matched ==> Sourced(matched, told, i)
    ensures id in matched <==> ResultOf(told, id).Some?
    ensures id in matched ==> matched[id].0 == keyed[ResultOf(told, id).value]
  {
    if id in matched {
      assert Sourced(matched, told, id);
    }
  }
}
