/** Which candidates a result is offered, ties and all, and which results and candidates a fingerprint
    change pairs (internal/analysis/layers.go:113-151 and 180-203). */
module LayersOffers {
  import opened Common
  import opened Sorting
  import opened Layers
  import opened LayersTheorems

  // ----- A stable sort keeps ties in the order they came in -----

  lemma {:induction false} InsertPlaces<T>(x: T, s: seq<T>, le: (T, T) -> bool) returns (p: nat)
    ensures p <= |s| && Insert(x, s, le) == s[..p] + [x] + s[p..]
    ensures forall i :: 0 <= i < p ==> !le(x, s[i])
  {
    if s == [] || le(x, s[0]) {
      p := 0;
      assert s == s[..0] + s[0..];
    } else {
      p := InsertPlaces(x, s[1..], le);
      p := p + 1;
      assert s[1..][..p - 1] == s[1..p] && s[1..][p - 1..] == s[p..];
      assert s[..p] == [s[0]] + s[1..p];
    }
  }

  lemma {:induction false} SortKeepsTies(s: seq<nat>, le: (nat, nat) -> bool, i: nat, j: nat)
    requires TotalPreorder(le) && i < j < |Sort(s, le)| && le(Sort(s, le)[j], Sort(s, le)[i])
    ensures ComesBefore(s, Sort(s, le)[i], Sort(s, le)[j])
  {
    var rest := Sort(s[1..], le);
    var p := InsertPlaces(s[0], rest, le);
    var t := Sort(s, le);
    assert t == rest[..p] + [s[0]] + rest[p..];
    SortHolds(s[1..], le);
    assert i < p ==> t[i] == rest[i];
    if i == p {
      assert t[j] == rest[j - 1] && rest[j - 1] in rest;
      var k :| 0 <= k < |s[1..]| && s[1..][k] == t[j];
      assert s[0] == t[i] && s[k + 1] == t[j];
    } else if j == p {
      assert false;
    } else {
      var i', j' := if i < p then i else i - 1, if j < p then j else j - 1;
      assert t[i] == rest[i'] && t[j] == rest[j'];
      SortKeepsTies(s[1..], le, i', j');
      BeforeInWhole(s, t[i], t[j]);
    }
  }

  lemma SortHolds(s: seq<nat>, le: (nat, nat) -> bool)
    requires TotalPreorder(le)
    ensures forall x :: x in Sort(s, le) <==> x in s
  {
    SortFacts(s, Sort(s, le), le);
  }

  lemma BeforeInWhole(s: seq<nat>, x: nat, y: nat)
    requires s != [] && ComesBefore(s[1..], x, y)
    ensures ComesBefore(s, x, y)
  {
    var i, j :| 0 <= i < j < |s[1..]| && s[1..][i] == x && s[1..][j] == y;
    assert s[i + 1] == x && s[j + 1] == y;
  }

  lemma {:induction false} FreeKeepsOrder(cs: seq<Candidate>, order: seq<nat>, used: set<nat>, on: Layer, k: string, x: nat, y: nat)
    requires ComesBefore(Free(cs, order, used, on, k), x, y)
    ensures ComesBefore(order, x, y)
  {
    var free, rest := Free(cs, order, used, on, k), Free(cs, order[1..], used, on, k);
    var i, j :| 0 <= i < j < |free| && free[i] == x && free[j] == y;
    if free == rest {
      FreeKeepsOrder(cs, order[1..], used, on, k, x, y);
      BeforeInWhole(order, x, y);
    } else if i > 0 {
      assert rest[i - 1] == x && rest[j - 1] == y;
      FreeKeepsOrder(cs, order[1..], used, on, k, x, y);
      BeforeInWhole(order, x, y);
    } else {
      FreeMembers(cs, order[1..], used, on, k);
      assert rest[j - 1] == y && y in order[1..];
      var q :| 0 <= q < |order[1..]| && order[1..][q] == y;
      assert order[0] == x && order[q + 1] == y;
    }
  }

  /** On one line a group is in the order of age. */
  lemma GroupKeepsOrder(cs: seq<Candidate>, order: seq<nat>, used: set<nat>, k: string, i: nat, j: nat)
    requires i < j < |Group(cs, order, used, k)|
    requires var group := Group(cs, order, used, k); At(cs, group[i]).line == At(cs, group[j]).line
    ensures var group := Group(cs, order, used, k); ComesBefore(order, group[i], group[j])
  {
    var free, group := Free(cs, order, used, OnLine, k), Group(cs, order, used, k);
    ByLineIsTotal(cs);
    SortKeepsTies(free, ByLine(cs), i, j);
    FreeKeepsOrder(cs, order, used, OnLine, k, group[i], group[j]);
  }

  // ----- The window takes the nearest, and of those as near the one below -----

  /** The walk comes to one position before another: it is nearer; or as near, and below where the other
      is not; or further from the ends on the same side. */
  ghost predicate WalkedFirst(cs: seq<Candidate>, group: seq<nat>, line: int, lo: int, i: nat, j: nat)
    requires i < |group| && j < |group|
  {
    var a, b := Away(cs, line, group[i]), Away(cs, line, group[j]);
    a < b || (a == b && ((i <= lo < j) || (j < i <= lo) || (lo < i < j)))
  }

  lemma {:induction false} WindowWalks(cs: seq<Candidate>, group: seq<nat>, line: int, lo: int, hi: nat, n: nat, i: nat, j: nat)
    requires Distinct(group) && SortedBy(ByLine(cs), group) && Straddles(cs, group, line, lo, hi)
    requires i < |group| && (i <= lo || hi <= i) && j < |group| && (j <= lo || hi <= j)
    requires group[j] in Window(cs, group, line, lo, hi, n) && WalkedFirst(cs, group, line, lo, i, j)
    ensures group[i] in Window(cs, group, line, lo, hi, n)
    decreases n
  {
    var below := TakesBelow(cs, group, line, lo, hi);
    var at, lo', hi' := if below then lo else hi, if below then lo - 1 else lo, if below then hi else hi + 1;
    TopIsFirst(cs, group, line, lo, hi, i, j);
    if i != at && j != at {
      assert group[j] != group[at] by { if j < at { assert group[j] != group[at]; } else { assert group[at] != group[j]; } }
      assert group[j] in Window(cs, group, line, lo', hi', n - 1);
      WindowWalks(cs, group, line, lo', hi', n - 1, i, j);
    }
  }

  /** What the walk takes next, nothing outside is walked before. */
  lemma TopIsFirst(cs: seq<Candidate>, group: seq<nat>, line: int, lo: int, hi: nat, i: nat, j: nat)
    requires SortedBy(ByLine(cs), group) && Straddles(cs, group, line, lo, hi)
    requires i < |group| && (i <= lo || hi <= i) && j < |group| && (j <= lo || hi <= j)
    requires WalkedFirst(cs, group, line, lo, i, j)
    ensures j != if TakesBelow(cs, group, line, lo, hi) then lo else hi
    ensures var below := TakesBelow(cs, group, line, lo, hi);
            i != (if below then lo else hi) ==>
              WalkedFirst(cs, group, line, if below then lo - 1 else lo, i, j)
  {
    NextIsClosest(cs, group, line, lo, hi, i);
    NextIsClosest(cs, group, line, lo, hi, j);
  }

  // ----- Of the candidates themselves -----

  /** One candidate is offered to a line before another: it is fewer lines away; or as many, and stands
      before the line where the other does not; or stands on the other's own line, and later in the
      order where that is before the line, earlier where it is not. */
  ghost predicate OfferedFirst(cs: seq<Candidate>, order: seq<nat>, line: int, c: nat, d: nat)
    requires c < |cs| && d < |cs|
  {
    var x, y := cs[c].line, cs[d].line;
    var a, b := if x < line then line - x else x - line, if y < line then line - y else y - line;
    a < b || (a == b && ((x < line <= y)
                         || (x == y && if x < line then ComesBefore(order, d, c) else ComesBefore(order, c, d))))
  }

  /** Of the candidates left under its line key, a result is offered eight or all there are, and none
      before one that is offered first: so exactly the first eight. */
  lemma OffersFirst(cs: seq<Candidate>, order: seq<nat>, rs: seq<Keyed>, m: Marks, r: nat, c: nat, d: nat)
    requires IsOrder(cs, order) && Fits(m, rs) && r < |rs| && m.hits[r].None?
    requires c < |cs| && c !in m.used && cs[c].lineKey == rs[r].lineKey
    requires d < |cs| && d in Offered(cs, order, rs, m, r) && OfferedFirst(cs, order, rs[r].startLine, c, d)
    ensures c in Offered(cs, order, rs, m, r)
  {
    hide Group, Window, OfferedFirst, ComesBefore, WalkedFirst, Straddles, FirstAtLeast, Away, SortedBy;
    var line, group := rs[r].startLine, Group(cs, order, m.used, rs[r].lineKey);
    OffersNearest(cs, order, rs, m, r);
    assert c in group && d in group;
    var i: nat :| i < |group| && group[i] == c;
    var j: nat :| j < |group| && group[j] == d;
    GroupStraddles(cs, group, line);
    var at: int := FirstAtLeast(cs, group, line, 0);
    FirstIsWalkedFirst(cs, order, m.used, rs[r].lineKey, line, at - 1, i, j);
    WindowWalks(cs, group, line, at - 1, at, NEAREST, i, j);
  }

  lemma FirstIsWalkedFirst(cs: seq<Candidate>, order: seq<nat>, used: set<nat>, k: string, line: int, lo: int, i: nat, j: nat)
    requires IsOrder(cs, order) && IsGroup(cs, used, k, Group(cs, order, used, k)) && -1 <= lo
    requires var group := Group(cs, order, used, k);
             && i < |group| && j < |group| && Straddles(cs, group, line, lo, lo + 1)
             && OfferedFirst(cs, order, line, group[i], group[j])
    ensures WalkedFirst(cs, Group(cs, order, used, k), line, lo, i, j)
  {
    hide Group, ComesBefore;
    var group := Group(cs, order, used, k);
    var c, d := group[i], group[j];
    assert c < |cs| && d < |cs|;
    if cs[c].line == cs[d].line {
      assert i != j by { NotBeforeItself(order, c); }
      if i < j { GroupKeepsOrder(cs, order, used, k, i, j); } else { GroupKeepsOrder(cs, order, used, k, j, i); }
      NotBothWays(order, c, d);
    }
  }

  lemma NotBeforeItself(order: seq<nat>, c: nat)
    requires Distinct(order)
    ensures !ComesBefore(order, c, c)
  {}

  lemma NotBothWays(order: seq<nat>, c: nat, d: nat)
    requires Distinct(order)
    ensures !(ComesBefore(order, c, d) && ComesBefore(order, d, c))
  {
    if ComesBefore(order, c, d) {
      var i, j :| 0 <= i < j < |order| && order[i] == c && order[j] == d;
      forall k, l | 0 <= k < l < |order| && order[k] == d ensures order[l] != c {
        DistinctAt(order, k, j);
        DistinctAt(order, l, i);
      }
    }
  }

  // ----- A fingerprint change -----

  ghost function ResultsLeft(rs: seq<Keyed>, m: Marks, k: string): set<nat>
    requires Fits(m, rs)
  {
    set r: nat | r < |rs| && m.hits[r] == None && rs[r].unprintedKey == k
  }

  ghost function CandidatesLeft(cs: seq<Candidate>, m: Marks, k: string): set<nat> {
    set c: nat | c < |cs| && c !in m.used && cs[c].unprinted == k
  }

  lemma SameAsLeft(s: seq<nat>, left: set<nat>)
    requires Distinct(s) && forall x :: x in s <==> x in left
    ensures |s| == |left| && (|s| == 1 <==> exists x :: left == {x}) && (|s| == 1 ==> left == {s[0]})
  {
    DistinctSize(s);
    assert Elements(s) == left;
    if |s| == 1 { assert s == [s[0]] && left == {s[0]}; }
  }

  /** A result and a candidate are paired across a fingerprint change exactly where each is the only one
      left that holds their key, which is not empty; whatever was paired stays so. */
  lemma UniquePairsTheLone(cs: seq<Candidate>, order: seq<nat>, rs: seq<Keyed>, m: Marks, r: nat)
    requires IsOrder(cs, order) && Fits(m, rs) && r < |rs|
    ensures var before, after, k := m.hits[r], UniqueLayer(cs, order, rs, m).hits[r], rs[r].unprintedKey;
            && (before.Some? ==> after == before)
            && (before == None ==> forall c: nat ::
                  after == Some(Hit(c, OnUnprinted)) <==>
                    k != "" && ResultsLeft(rs, m, k) == {r} && CandidatesLeft(cs, m, k) == {c})
            && (before == None && after.Some? ==> after.value.on == OnUnprinted)
  {
    hide Free, FreeResults;
    var k := rs[r].unprintedKey;
    var results, cands := FreeResults(rs, m.hits, OnUnprinted, k, 0), Free(cs, order, m.used, OnUnprinted, k);
    FreeResultsMembers(rs, m.hits, OnUnprinted, k, 0);
    FreeMembers(cs, order, m.used, OnUnprinted, k);
    SameAsLeft(results, ResultsLeft(rs, m, k));
    forall c: nat ensures c in cands <==> c in CandidatesLeft(cs, m, k) {
      if c in order { var i :| 0 <= i < |order| && order[i] == c; }
    }
    SameAsLeft(cands, CandidatesLeft(cs, m, k));
    if m.hits[r] == None { assert r in ResultsLeft(rs, m, k); }
  }
}
