/** Which analyzers and rules are noise: the tally of what was said of each code finding, and the order
    its rows are listed in (internal/analysis/precision.go:21-194). */
module Precision {
  import opened Common
  import opened Sorting

  datatype Outcome = SaysDismissed | SaysNotSecurity | SaysElse

  /** One finding read for the tally. */
  datatype Row = Row(occurrence: string, series: string, rule: string, closed: bool, outcome: Option<Outcome>,
                     flaw: bool, covered: bool)

  /** Everything read of one occurrence. */
  datatype Occurrence = Occurrence(series: string, rule: string, outcome: Option<Outcome>,
                                   flaw: bool, covered: bool, open: bool, closed: bool)

  datatype Count = Dismissed | NotSecurity | Confirmed | FixedThere | Ruled | Unjudged

  datatype Answered = Answered(series: string, rule: string, dismissed: nat, notSecurity: nat, confirmed: nat,
                               ruled: nat, fixed: nat, unjudged: nat)

  function Judged(a: Answered): nat {
    a.dismissed + a.notSecurity + a.ruled + a.confirmed + a.fixed
  }

  function Noise(a: Answered): nat {
    a.dismissed + a.notSecurity + a.ruled
  }

  /** Which count an occurrence is in. */
  function CountOf(o: Occurrence): Count {
    if o.outcome == Some(SaysDismissed) then Dismissed
    else if o.outcome == Some(SaysNotSecurity) then NotSecurity
    else if o.outcome.Some? || o.flaw then Confirmed
    else if o.closed && !o.open then FixedThere
    else if o.covered then Ruled
    else Unjudged
  }

  function Counted(a: Answered, count: Count): Answered {
    match count
    case Dismissed => a.(dismissed := a.dismissed + 1)
    case NotSecurity => a.(notSecurity := a.notSecurity + 1)
    case Confirmed => a.(confirmed := a.confirmed + 1)
    case FixedThere => a.(fixed := a.fixed + 1)
    case Ruled => a.(ruled := a.ruled + 1)
    case Unjudged => a.(unjudged := a.unjudged + 1)
  }

  function In(a: Answered, count: Count): nat {
    match count
    case Dismissed => a.dismissed
    case NotSecurity => a.notSecurity
    case Confirmed => a.confirmed
    case FixedThere => a.fixed
    case Ruled => a.ruled
    case Unjudged => a.unjudged
  }

  const COUNTS := {Dismissed, NotSecurity, Confirmed, FixedThere, Ruled, Unjudged}

  /** Which count an occurrence is in: what was said of it; else its closure, where nothing said it
      confirmed or recorded it as a flaw; else a rule; else none. */
  lemma CountMeans(o: Occurrence)
    ensures var nothingSaid := o.outcome == None && !o.flaw;
            && (CountOf(o) == Dismissed <==> o.outcome == Some(SaysDismissed))
            && (CountOf(o) == NotSecurity <==> o.outcome == Some(SaysNotSecurity))
            && (CountOf(o) == Confirmed <==> o.outcome == Some(SaysElse) || (o.outcome == None && o.flaw))
            && (CountOf(o) == FixedThere <==> nothingSaid && o.closed && !o.open)
            && (CountOf(o) == Ruled <==> nothingSaid && (!o.closed || o.open) && o.covered)
            && (CountOf(o) == Unjudged <==> nothingSaid && (!o.closed || o.open) && !o.covered)
  {
    match o.outcome
    case None =>
    case Some(SaysDismissed) =>
    case Some(SaysNotSecurity) =>
    case Some(SaysElse) =>
  }

  // ----- Reading the rows into occurrences -----

  /** What reading one more row makes of its occurrence; the first row says whose it is. */
  function Merged(o: Option<Occurrence>, row: Row): Occurrence {
    var one := if o.Some? then o.value else Occurrence(row.series, row.rule, row.outcome, false, false, false, false);
    one.(flaw := one.flaw || row.flaw, covered := one.covered || row.covered,
         closed := one.closed || row.closed, open := one.open || !row.closed)
  }

  function Gathered(rows: seq<Row>): map<string, Occurrence>
    decreases |rows|
  {
    if rows == [] then map[]
    else
      var n := |rows| - 1;
      var at := Gathered(rows[..n]);
      var name := rows[n].occurrence;
      at[name := Merged(if name in at then Some(at[name]) else None, rows[n])]
  }

  /** A decision, a series and a rule are an occurrence's: every row of one reads them alike. */
  ghost predicate Alike(rows: seq<Row>) {
    forall a, b :: a in rows && b in rows && a.occurrence == b.occurrence ==>
      a.series == b.series && a.rule == b.rule && a.outcome == b.outcome
  }

  datatype Mark = Present | Flawed | Covered | OpenThere | ClosedThere

  predicate Marks(row: Row, mark: Mark) {
    match mark
    case Present => true
    case Flawed => row.flaw
    case Covered => row.covered
    case OpenThere => !row.closed
    case ClosedThere => row.closed
  }

  ghost predicate Has(rows: seq<Row>, name: string, mark: Mark) {
    exists row :: row in rows && row.occurrence == name && Marks(row, mark)
  }

  lemma HasMore(rows: seq<Row>, last: Row, name: string, mark: Mark)
    ensures Has(rows + [last], name, mark) <==> Has(rows, name, mark) || (last.occurrence == name && Marks(last, mark))
  {
    hide Marks;
    var more := rows + [last];
    assert forall row :: row in more <==> row in rows || row == last;
  }

  /** What is known of an occurrence is what its rows say. */
  ghost predicate Tells(rows: seq<Row>, name: string, o: Occurrence) {
    && Has(rows, name, Present)
    && (forall row :: row in rows && row.occurrence == name ==>
          row.series == o.series && row.rule == o.rule && row.outcome == o.outcome)
    && (o.flaw <==> Has(rows, name, Flawed)) && (o.covered <==> Has(rows, name, Covered))
    && (o.open <==> Has(rows, name, OpenThere)) && (o.closed <==> Has(rows, name, ClosedThere))
  }

  lemma OneMoreTells(rows: seq<Row>, last: Row, name: string, o: Option<Occurrence>)
    requires Alike(rows + [last])
    requires if o.Some? then Tells(rows, name, o.value) else !Has(rows, name, Present)
    ensures last.occurrence == name ==> Tells(rows + [last], name, Merged(o, last))
    ensures last.occurrence != name && o.Some? ==> Tells(rows + [last], name, o.value)
  {
    hide Has;
    var more := rows + [last];
    forall mark: Mark ensures Has(more, name, mark) <==> Has(rows, name, mark) || (last.occurrence == name && Marks(last, mark)) {
      HasMore(rows, last, name, mark);
    }
    if o.Some? {
      var known := SomeRow(rows, name);
      assert known in more && last in more;
    } else {
      forall row | row in rows ensures row.occurrence != name { HasSome(rows, row); }
      forall mark: Mark ensures !Has(rows, name, mark) { HasIsPresent(rows, name, mark); }
    }
    assert forall row :: row in more <==> row in rows || row == last;
  }

  lemma SomeRow(rows: seq<Row>, name: string) returns (row: Row)
    requires Has(rows, name, Present)
    ensures row in rows && row.occurrence == name
  {
    row :| row in rows && row.occurrence == name && Marks(row, Present);
  }

  lemma HasSome(rows: seq<Row>, row: Row)
    requires row in rows
    ensures Has(rows, row.occurrence, Present)
  {
    assert Marks(row, Present);
  }

  lemma HasIsPresent(rows: seq<Row>, name: string, mark: Mark)
    ensures Has(rows, name, mark) ==> Has(rows, name, Present)
  {
    if Has(rows, name, mark) {
      var row :| row in rows && row.occurrence == name && Marks(row, mark);
      assert Marks(row, Present);
    }
  }

  /** What is gathered of an occurrence is what its rows say. */
  lemma {:induction false} GatheredTells(rows: seq<Row>, name: string)
    requires Alike(rows)
    ensures name in Gathered(rows) <==> Has(rows, name, Present)
    ensures name in Gathered(rows) ==> Tells(rows, name, Gathered(rows)[name])
  {
    hide Tells, Has, Merged;
    if rows == [] {
      NoneHas(name);
    } else {
      var n := |rows| - 1;
      var before := rows[..n];
      assert rows == before + [rows[n]];
      assert forall row :: row in before ==> row in rows;
      GatheredTells(before, name);
      HasMore(before, rows[n], name, Present);
      var at := Gathered(before);
      OneMoreTells(before, rows[n], name, if name in at then Some(at[name]) else None);
    }
  }

  lemma NoneHas(name: string)
    ensures !Has([], name, Present)
  {}

  /** However the rows come, the same is gathered. */
  lemma GatheredWhateverTheOrder(rows: seq<Row>, again: seq<Row>)
    requires Alike(rows) && forall row :: row in rows <==> row in again
    ensures Gathered(rows) == Gathered(again)
  {
    hide Gathered;
    assert Alike(again);
    forall name ensures (name in Gathered(rows) <==> name in Gathered(again))
                     && (name in Gathered(rows) ==> Gathered(rows)[name] == Gathered(again)[name])
    {
      GatheredTells(rows, name);
      GatheredTells(again, name);
      forall mark: Mark ensures Has(rows, name, mark) <==> Has(again, name, mark) {}
      if name in Gathered(rows) {
        var row :| row in rows && row.occurrence == name && Marks(row, Present);
      }
    }
  }

  // ----- Counting -----

  predicate IsIn(o: Occurrence, series: string, count: Count) {
    o.series == series && CountOf(o) == count
  }

  function Named(at: map<string, Occurrence>, series: string, count: Count): set<string> {
    set n | n in at && IsIn(at[n], series, count)
  }

  predicate IsUnder(o: Occurrence, series: string, rule: string, count: Count) {
    o.series == series && o.rule == rule && CountOf(o) == count
  }

  function NamedUnder(at: map<string, Occurrence>, series: string, rule: string, count: Count): set<string> {
    set n | n in at && IsUnder(at[n], series, rule, count)
  }

  /** A series' own row counts exactly its occurrences, each in the one count that holds first. */
  ghost predicate Counts(a: Answered, at: map<string, Occurrence>, series: string) {
    a.series == series && forall count: Count :: In(a, count) == |Named(at, series, count)|
  }

  ghost predicate CountsUnder(a: Answered, at: map<string, Occurrence>, series: string, rule: string) {
    a.series == series && a.rule == rule && forall count: Count :: In(a, count) == |NamedUnder(at, series, rule, count)|
  }

  lemma NamedTogether(at: map<string, Occurrence>, series: string)
    ensures (set n | n in at && at[n].series == series) ==
      Named(at, series, Dismissed) + Named(at, series, NotSecurity) + Named(at, series, Confirmed)
      + Named(at, series, FixedThere) + Named(at, series, Ruled) + Named(at, series, Unjudged)
  {
    hide CountOf;
    forall n | n in at && at[n].series == series ensures n in Named(at, series, CountOf(at[n])) {}
  }

  lemma NamedApart(at: map<string, Occurrence>, series: string, a: Count, b: Count)
    requires a != b
    ensures Named(at, series, a) !! Named(at, series, b)
  {
    hide CountOf;
  }

  lemma SizesAdd(a: set<string>, b: set<string>, c: set<string>, d: set<string>, e: set<string>, f: set<string>)
    requires a !! b && a !! c && a !! d && a !! e && a !! f && b !! c && b !! d && b !! e && b !! f
    requires c !! d && c !! e && c !! f && d !! e && d !! f && e !! f
    ensures |a + b + c + d + e + f| == |a| + |b| + |c| + |d| + |e| + |f|
  {
    SizesOfTwo(a, b);
    SizesOfTwo(a + b, c);
    SizesOfTwo(a + b + c, d);
    SizesOfTwo(a + b + c + d, e);
    SizesOfTwo(a + b + c + d + e, f);
  }

  lemma SizesOfTwo(a: set<string>, b: set<string>)
    requires a !! b
    ensures |a + b| == |a| + |b|
  {}

  /** Each occurrence of a series is in exactly one of its counts, and those judged are all but the
      unjudged. */
  lemma CountsShareOut(at: map<string, Occurrence>, series: string, a: Answered)
    requires Counts(a, at, series)
    ensures Judged(a) + a.unjudged == |set n | n in at && at[n].series == series|
    ensures Noise(a) <= Judged(a)
  {
    hide Named, IsIn, CountOf;
    NamedTogether(at, series);
    forall c: Count, d: Count | c != d ensures Named(at, series, c) !! Named(at, series, d) { NamedApart(at, series, c, d); }
    var d, s, c := Named(at, series, Dismissed), Named(at, series, NotSecurity), Named(at, series, Confirmed);
    var f, r, u := Named(at, series, FixedThere), Named(at, series, Ruled), Named(at, series, Unjudged);
    assert In(a, Dismissed) == |d| && In(a, NotSecurity) == |s| && In(a, Confirmed) == |c|;
    assert In(a, FixedThere) == |f| && In(a, Ruled) == |r| && In(a, Unjudged) == |u|;
    SizesAdd(d, s, c, f, r, u);
  }

  // ----- The tally -----

  function Blank(series: string, rule: string): Answered {
    Answered(series, rule, 0, 0, 0, 0, 0, 0)
  }

  /** The tally of the occurrences taken so far. */
  ghost predicate Tallied(bySeries: map<string, Answered>, byRule: map<(string, string), Answered>, at: map<string, Occurrence>) {
    && (forall s :: s in bySeries <==> exists n :: n in at && at[n].series == s)
    && (forall s :: s in bySeries ==> Counts(bySeries[s], at, s))
    && (forall k :: k in byRule <==> exists n :: n in at && (at[n].series, at[n].rule) == k)
    && (forall k :: k in byRule ==> CountsUnder(byRule[k], at, k.0, k.1))
  }

  function Filter<T>(at: map<string, T>, p: T -> bool): set<string> {
    set n | n in at && p(at[n])
  }

  lemma FilterMore<T>(at: map<string, T>, n: string, o: T, p: T -> bool)
    requires n !in at
    ensures |Filter(at[n := o], p)| == |Filter(at, p)| + if p(o) then 1 else 0
  {
    var before, more := Filter(at, p), Filter(at[n := o], p);
    if p(o) { assert more == before + {n}; } else { assert more == before; }
  }

  lemma CountedIn(a: Answered, c: Count, count: Count)
    ensures In(Counted(a, c), count) == In(a, count) + if c == count then 1 else 0
  {}

  lemma NamedMore(at: map<string, Occurrence>, n: string, o: Occurrence, series: string, count: Count)
    requires n !in at
    ensures |Named(at[n := o], series, count)| == |Named(at, series, count)| + if IsIn(o, series, count) then 1 else 0
  {
    var p := (x: Occurrence) => IsIn(x, series, count);
    FilterMore(at, n, o, p);
    assert Named(at, series, count) == Filter(at, p) && Named(at[n := o], series, count) == Filter(at[n := o], p);
  }

  lemma OneMoreCounts(a: Answered, at: map<string, Occurrence>, n: string, o: Occurrence, series: string)
    requires n !in at && Counts(a, at, series)
    ensures Counts(if o.series == series then Counted(a, CountOf(o)) else a, at[n := o], series)
  {
    hide CountOf, Named, In;
    var after := if o.series == series then Counted(a, CountOf(o)) else a;
    forall count: Count ensures In(after, count) == |Named(at[n := o], series, count)| {
      NamedMore(at, n, o, series, count);
      CountedIn(a, CountOf(o), count);
    }
  }

  lemma NamedUnderMore(at: map<string, Occurrence>, n: string, o: Occurrence, series: string, rule: string, count: Count)
    requires n !in at
    ensures |NamedUnder(at[n := o], series, rule, count)| ==
      |NamedUnder(at, series, rule, count)| + if IsUnder(o, series, rule, count) then 1 else 0
  {
    hide IsUnder;
    var p := (x: Occurrence) => IsUnder(x, series, rule, count);
    FilterMore(at, n, o, p);
    assert NamedUnder(at, series, rule, count) == Filter(at, p);
    assert NamedUnder(at[n := o], series, rule, count) == Filter(at[n := o], p);
  }

  lemma OneMoreCountsUnder(a: Answered, at: map<string, Occurrence>, n: string, o: Occurrence, series: string, rule: string)
    requires n !in at && CountsUnder(a, at, series, rule)
    ensures CountsUnder(if o.series == series && o.rule == rule then Counted(a, CountOf(o)) else a, at[n := o], series, rule)
  {
    hide CountOf, NamedUnder, In;
    var after := if o.series == series && o.rule == rule then Counted(a, CountOf(o)) else a;
    forall count: Count ensures In(after, count) == |NamedUnder(at[n := o], series, rule, count)| {
      NamedUnderMore(at, n, o, series, rule, count);
      CountedIn(a, CountOf(o), count);
    }
  }

  lemma BlankCounts(at: map<string, Occurrence>, series: string, rule: string)
    ensures (forall n :: n in at ==> at[n].series != series) ==> Counts(Blank(series, rule), at, series)
    ensures (forall n :: n in at ==> (at[n].series, at[n].rule) != (series, rule)) ==>
      CountsUnder(Blank(series, rule), at, series, rule)
  {
    forall count: Count
      ensures (forall n :: n in at ==> at[n].series != series) ==> Named(at, series, count) == {}
      ensures (forall n :: n in at ==> (at[n].series, at[n].rule) != (series, rule)) ==>
        NamedUnder(at, series, rule, count) == {}
    {}
  }

  lemma OneMoreTallied(bySeries: map<string, Answered>, byRule: map<(string, string), Answered>,
                       at: map<string, Occurrence>, n: string, o: Occurrence)
    requires n !in at && Tallied(bySeries, byRule, at)
    ensures var s := if o.series in bySeries then bySeries[o.series] else Blank(o.series, "");
            var r := if (o.series, o.rule) in byRule then byRule[(o.series, o.rule)] else Blank(o.series, o.rule);
            Tallied(bySeries[o.series := Counted(s, CountOf(o))],
                    byRule[(o.series, o.rule) := Counted(r, CountOf(o))], at[n := o])
  {
    hide CountOf, Counts, CountsUnder, Counted;
    var s := if o.series in bySeries then bySeries[o.series] else Blank(o.series, "");
    var r := if (o.series, o.rule) in byRule then byRule[(o.series, o.rule)] else Blank(o.series, o.rule);
    var bySeries' := bySeries[o.series := Counted(s, CountOf(o))];
    var byRule' := byRule[(o.series, o.rule) := Counted(r, CountOf(o))];
    var more := at[n := o];
    BlankCounts(at, o.series, "");
    BlankCounts(at, o.series, o.rule);
    assert more[n] == o && forall m :: m in more <==> m in at || m == n;
    forall x | x in bySeries' ensures Counts(bySeries'[x], more, x) {
      OneMoreCounts(if x == o.series then s else bySeries[x], at, n, o, x);
    }
    forall k | k in byRule' ensures CountsUnder(byRule'[k], more, k.0, k.1) {
      OneMoreCountsUnder(if k == (o.series, o.rule) then r else byRule[k], at, n, o, k.0, k.1);
    }
    forall x ensures x in bySeries' <==> exists m :: m in more && more[m].series == x {
      if x in bySeries && x != o.series {
        var m :| m in at && at[m].series == x;
        assert more[m].series == x;
      }
    }
    forall k ensures k in byRule' <==> exists m :: m in more && (more[m].series, more[m].rule) == k {
      if k in byRule && k != (o.series, o.rule) {
        var m :| m in at && (at[m].series, at[m].rule) == k;
        assert (more[m].series, more[m].rule) == k;
      }
    }
  }

  /** Folding the occurrences into their counters, in whatever order the map gives them. */
  method Tally(rows: seq<Row>) returns (bySeries: map<string, Answered>, byRule: map<(string, string), Answered>)
    ensures Tallied(bySeries, byRule, Gathered(rows))
  {
    hide Merged, CountOf, Counted, Tallied;
    var at: map<string, Occurrence> := map[];
    for i := 0 to |rows|
      invariant at == Gathered(rows[..i])
    {
      assert rows[..i + 1][..i] == rows[..i];
      var row := rows[i];
      at := at[row.occurrence := Merged(if row.occurrence in at then Some(at[row.occurrence]) else None, row)];
    }
    assert rows[..|rows|] == rows;
    bySeries, byRule := map[], map[];
    var left := at.Keys;
    ghost var taken: map<string, Occurrence> := map[];
    NothingTallied();
    while left != {}
      invariant left <= at.Keys && taken.Keys == at.Keys - left
      invariant forall n :: n in taken ==> taken[n] == at[n]
      invariant Tallied(bySeries, byRule, taken)
      decreases |left|
    {
      var n :| n in left;
      var one := at[n];
      OneMoreTallied(bySeries, byRule, taken, n, one);
      var series := if one.series in bySeries then bySeries[one.series] else Blank(one.series, "");
      var key := (one.series, one.rule);
      var rule := if key in byRule then byRule[key] else Blank(one.series, one.rule);
      bySeries := bySeries[one.series := Counted(series, CountOf(one))];
      byRule := byRule[key := Counted(rule, CountOf(one))];
      taken := taken[n := one];
      left := left - {n};
    }
    assert taken == at;
  }

  lemma NothingTallied()
    ensures Tallied(map[], map[], map[])
  {}

  // ----- The noisiest first -----

  /** Whether a row is listed before another: the greater share of noise, then more judged, then by
      name. The shares are compared without division. */
  predicate Before(a: Answered, b: Answered) {
    var left, right := Noise(a) * Judged(b), Noise(b) * Judged(a);
    if left != right then left > right
    else if Judged(a) != Judged(b) then Judged(a) > Judged(b)
    else if a.series != b.series then !StringLe(b.series, a.series)
    else !StringLe(b.rule, a.rule)
  }

  function Noisiest(): (Answered, Answered) -> bool {
    (a: Answered, b: Answered) => !Before(b, a)
  }

  /** Compared without division is compared by share, where anything was judged. */
  lemma CrossMultiplyingComparesShares(a: Answered, b: Answered)
    requires Judged(a) > 0 && Judged(b) > 0
    ensures Noise(a) * Judged(b) > Noise(b) * Judged(a) <==>
      Noise(a) as real / Judged(a) as real > Noise(b) as real / Judged(b) as real
  {
    var n, j, m, k := Noise(a) as real, Judged(a) as real, Noise(b) as real, Judged(b) as real;
    assert n / j > m / k <==> n * k > m * j by { SharesCrossed(n, j, m, k); }
    assert (Noise(a) * Judged(b)) as real == n * k && (Noise(b) * Judged(a)) as real == m * j;
  }

  /** A row is listed no later than another exactly when its share of dismissed, harmless and ruled among
      all judged is greater, or as great and it has more judged, or as many and its name comes no
      later. */
  lemma NoisiestMeans(a: Answered, b: Answered)
    ensures var n, m := a.dismissed + a.notSecurity + a.ruled, b.dismissed + b.notSecurity + b.ruled;
            var j, k := n + a.confirmed + a.fixed, m + b.confirmed + b.fixed;
            && (j > 0 && k > 0 && n as real / j as real > m as real / k as real ==> Noisiest()(a, b) && !Noisiest()(b, a))
            && (j > 0 && k > 0 && n as real / j as real == m as real / k as real ==>
                  && (j > k ==> Noisiest()(a, b) && !Noisiest()(b, a))
                  && (j == k ==> (Noisiest()(a, b) <==>
                        if a.series != b.series then StringLe(a.series, b.series) else StringLe(a.rule, b.rule))))
  {
    hide StringLe;
    StringLeTotal(a.series, b.series);
    StringLeTotal(a.rule, b.rule);
    if Judged(a) > 0 && Judged(b) > 0 {
      CrossMultiplyingComparesShares(a, b);
      CrossMultiplyingComparesShares(b, a);
    }
  }

  lemma SharesCrossed(n: real, j: real, m: real, k: real)
    requires j > 0.0 && k > 0.0
    ensures n / j > m / k <==> n * k > m * j
  {
    var x, y := n / j, m / k;
    assert n == x * j && m == y * k;
    assert n * k == x * (j * k) && m * j == y * (j * k);
  }

  lemma SharesGoOn(n: nat, j: nat, m: nat, k: nat, p: nat, l: nat)
    requires j > 0 && k > 0 && l > 0
    requires n * k >= m * j && m * l >= p * k
    ensures n * l >= p * j
    ensures n * l == p * j ==> n * k == m * j && m * l == p * k
  {
    var x, y := n * k - m * j, m * l - p * k;
    calc {
      (n * l - p * j) * k;
      (n * k) * l - (p * k) * j;
      (m * j + x) * l - (m * l - y) * j;
      x * l + y * j;
    }
    assert x * l >= 0 && y * j >= 0;
    PositiveFactor(n * l - p * j, k);
    if n * l == p * j { assert x * l == 0 && y * j == 0; }
  }

  lemma PositiveFactor(a: int, k: int)
    requires k > 0 && a * k >= 0
    ensures a >= 0
  {}

  /** Ties on share and number judged are broken by name. */
  predicate NamedNoLater(a: Answered, b: Answered) {
    if a.series != b.series then StringLe(a.series, b.series) else StringLe(a.rule, b.rule)
  }

  lemma NamesGoOn(a: Answered, b: Answered, c: Answered)
    requires NamedNoLater(a, b) && NamedNoLater(b, c)
    ensures NamedNoLater(a, c)
  {
    hide StringLe;
    StringLeTotal(a.series, b.series);
    StringLeTotal(b.series, c.series);
    StringLeTotal(a.rule, b.rule);
    if a.series != b.series && b.series != c.series {
      StringLeTransitive(a.series, b.series, c.series);
    }
    if a.series == b.series == c.series { StringLeTransitive(a.rule, b.rule, c.rule); }
  }

  /** No later, said forwards. */
  predicate NoLater(n: nat, j: nat, m: nat, k: nat, named: bool) {
    if n * k != m * j then n * k > m * j else if j != k then j > k else named
  }

  lemma NoLaterMeans(a: Answered, b: Answered)
    ensures Noisiest()(a, b) <==> NoLater(Noise(a), Judged(a), Noise(b), Judged(b), NamedNoLater(a, b))
  {
    hide StringLe, Judged, Noise;
  }

  lemma NoLaterGoesOn(n: nat, j: nat, m: nat, k: nat, p: nat, l: nat, ab: bool, bc: bool, ac: bool)
    requires n <= j && m <= k && p <= l && (ab && bc ==> ac)
    requires NoLater(n, j, m, k, ab) && NoLater(m, k, p, l, bc)
    ensures NoLater(n, j, p, l, ac)
  {
    if j == 0 {
      assert k == 0 && l == 0;
    } else if k == 0 {
      assert l == 0;
    } else if l > 0 {
      SharesGoOn(n, j, m, k, p, l);
    } else {
      assert n * l == 0 && p * j == 0;
    }
  }

  /** The listing order is an order: of any rows at all, so a sort answers one list whatever order the
      rows came in. */
  lemma NoisiestIsAnOrder()
    ensures TotalPreorder(Noisiest())
  {
    hide NoLater, NamedNoLater;
    forall a: Answered, b: Answered ensures Noisiest()(a, b) || Noisiest()(b, a) {
      StringLeTotal(a.series, b.series);
      StringLeTotal(a.rule, b.rule);
    }
    forall a: Answered, b: Answered, c: Answered | Noisiest()(a, b) && Noisiest()(b, c) ensures Noisiest()(a, c) {
      NoLaterMeans(a, b);
      NoLaterMeans(b, c);
      NoLaterMeans(a, c);
      if NamedNoLater(a, b) && NamedNoLater(b, c) { NamesGoOn(a, b, c); }
      NoLaterGoesOn(Noise(a), Judged(a), Noise(b), Judged(b), Noise(c), Judged(c),
                    NamedNoLater(a, b), NamedNoLater(b, c), NamedNoLater(a, c));
    }
  }

  ghost predicate KeysApart(rows: seq<Answered>) {
    forall i, j :: 0 <= i < j < |rows| ==> rows[i].series != rows[j].series || rows[i].rule != rows[j].rule
  }

  /** However the map gave its rows, listing them by noise answers the same list. */
  lemma ListedWhateverTheOrder(rows: seq<Answered>, again: seq<Answered>)
    requires multiset(rows) == multiset(again) && KeysApart(rows)
    ensures Sort(rows, Noisiest()) == Sort(again, Noisiest())
  {
    hide Before, Sort;
    var a, b := Sort(rows, Noisiest()), Sort(again, Noisiest());
    NoisiestIsAnOrder();
    SortFacts(rows, a, Noisiest());
    SortFacts(again, b, Noisiest());
    forall x, y | x in a && y in a && Noisiest()(x, y) && Noisiest()(y, x) ensures x == y {
      TiedIsSameKey(x, y);
      var i :| 0 <= i < |rows| && rows[i] == x;
      var j :| 0 <= j < |rows| && rows[j] == y;
    }
    SortUnique(a, b, Noisiest());
  }

  lemma TiedIsSameKey(x: Answered, y: Answered)
    requires Noisiest()(x, y) && Noisiest()(y, x)
    ensures x.series == y.series && x.rule == y.rule
  {
    hide StringLe, Judged, Noise;
    StringLeTotal(x.series, y.series);
    StringLeTotal(x.rule, y.rule);
  }

  /** Every rule with something judged, the noisiest first, in whatever order the map gives its rows. */
  method ListByRule(byRule: map<(string, string), Answered>) returns (out: seq<Answered>)
    requires forall k :: k in byRule ==> (byRule[k].series, byRule[k].rule) == k
    ensures forall a :: a in out <==> Judged(a) > 0 && (a.series, a.rule) in byRule && byRule[(a.series, a.rule)] == a
    ensures SortedBy(Noisiest(), out) && KeysApart(out)
  {
    hide Before, Judged;
    var rows: seq<Answered>, left := [], byRule.Keys;
    while left != {}
      invariant left <= byRule.Keys
      invariant forall a :: a in rows <==>
        Judged(a) > 0 && (a.series, a.rule) in byRule && (a.series, a.rule) !in left && byRule[(a.series, a.rule)] == a
      invariant Distinct(rows)
      decreases |left|
    {
      var k :| k in left;
      var each := byRule[k];
      if Judged(each) > 0 {
        rows := rows + [each];
      }
      left := left - {k};
    }
    out := Sort(rows, Noisiest());
    NoisiestIsAnOrder();
    SortFacts(rows, out, Noisiest());
    forall i, j | 0 <= i < j < |out| ensures out[i].series != out[j].series || out[i].rule != out[j].rule {
      DistinctAt(out, i, j);
      assert out[i] in out && out[j] in out;
    }
  }
}
