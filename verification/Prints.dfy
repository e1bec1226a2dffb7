/** Which fingerprint a key is built from, the functions a path passes through, and what a run is
    fingerprinted with (internal/analysis/key.go:22-86, apply.go:553-583). */
module Prints {
  import opened Common
  import opened Sorting
  import opened Text

  const SCHEMES := ["openpsirt/context/v1", "clang/issueHash/v1", "hash/v1", "primaryLocationLineHash"]

  predicate Carries(of: map<string, string>, scheme: string) {
    scheme in of && of[scheme] != ""
  }

  function Alphabetical(): (string, string) -> bool {
    (a: string, b: string) => StringLe(a, b)
  }

  lemma AlphabeticalIsAnOrder()
    ensures TotalPreorder(Alphabetical())
  {
    forall x: string, y: string ensures StringLe(x, y) || StringLe(y, x) { StringLeTotal(x, y); }
    forall x: string, y: string, z: string | StringLe(x, y) && StringLe(y, z) ensures StringLe(x, z) {
      StringLeTransitive(x, y, z);
    }
  }

  predicate Known(of: map<string, string>, k: nat) {
    k < |SCHEMES| && Carries(of, SCHEMES[k])
  }

  ghost predicate FirstKnown(of: map<string, string>, k: nat) {
    Known(of, k) && forall i: nat :: i < k ==> !Known(of, i)
  }

  ghost predicate NoneKnown(of: map<string, string>) {
    forall i: nat :: !Known(of, i)
  }

  /** The first known scheme carried; or, with none known, the first by name. */
  ghost predicate Preferred(of: map<string, string>, scheme: string) {
    || (exists k: nat :: FirstKnown(of, k) && SCHEMES[k] == scheme)
    || (NoneKnown(of) && Carries(of, scheme) && forall other :: Carries(of, other) ==> StringLe(scheme, other))
  }

  /** The fingerprint a key is built from: the preferred one, whatever order the map gives its
      entries in, and none exactly where the result carries none. */
  method Fingerprint(of: map<string, string>) returns (scheme: string, value: string)
    ensures if exists s :: Carries(of, s) then Preferred(of, scheme) && value == of[scheme]
            else scheme == "" && value == ""
  {
    for i := 0 to |SCHEMES|
      invariant forall k: nat :: k < i ==> !Known(of, k)
    {
      if Known(of, i) {
        assert FirstKnown(of, i) && Carries(of, SCHEMES[i]);
        return SCHEMES[i], of[SCHEMES[i]];
      }
    }
    assert NoneKnown(of);
    var rest: seq<string>, left := [], of.Keys;
    while left != {}
      invariant left <= of.Keys
      invariant forall s :: s in rest <==> s in of && s !in left && of[s] != ""
      decreases |left|
    {
      var s :| s in left;
      if of[s] != "" {
        rest := rest + [s];
      }
      left := left - {s};
    }
    if |rest| == 0 {
      assert forall s :: !Carries(of, s);
      return "", "";
    }
    var sorted := Sort(rest, Alphabetical());
    AlphabeticalIsAnOrder();
    SortFacts(rest, sorted, Alphabetical());
    scheme := sorted[0];
    assert scheme in sorted && Carries(of, scheme);
    value := of[scheme];
    forall other | Carries(of, other) ensures StringLe(scheme, other) {
      assert other in sorted;
      var j :| 0 <= j < |sorted| && sorted[j] == other;
      StringLeTotal(scheme, scheme);
      assert j == 0 || Alphabetical()(sorted[0], sorted[j]);
    }
  }

  /** There is one preferred fingerprint. */
  lemma PreferredIsOne(of: map<string, string>, a: string, b: string)
    requires Preferred(of, a) && Preferred(of, b)
    ensures a == b
  {
    if NoneKnown(of) {
      StringLeTotal(a, b);
    } else {
      var j: nat :| FirstKnown(of, j) && SCHEMES[j] == a;
      var k: nat :| FirstKnown(of, k) && SCHEMES[k] == b;
      assert !(j < k) && !(k < j);
    }
  }

  /** The client's own scheme is preferred to every other, then the three known ones in turn. */
  lemma PreferredMeans(of: map<string, string>, scheme: string)
    requires Preferred(of, scheme)
    ensures Carries(of, "openpsirt/context/v1") ==> scheme == "openpsirt/context/v1"
    ensures !Carries(of, "openpsirt/context/v1") && Carries(of, "clang/issueHash/v1") ==> scheme == "clang/issueHash/v1"
    ensures !Carries(of, "openpsirt/context/v1") && !Carries(of, "clang/issueHash/v1") ==>
      (Carries(of, "hash/v1") ==> scheme == "hash/v1")
      && (!Carries(of, "hash/v1") && Carries(of, "primaryLocationLineHash") ==> scheme == "primaryLocationLineHash")
    ensures scheme in of && of[scheme] != ""
  {
    forall k: nat ensures Known(of, k) ==> k < 4 {}
    assert Known(of, 0) <==> Carries(of, "openpsirt/context/v1");
    assert Known(of, 1) <==> Carries(of, "clang/issueHash/v1");
    assert Known(of, 2) <==> Carries(of, "hash/v1");
    assert Known(of, 3) <==> Carries(of, "primaryLocationLineHash");
    if k: nat :| FirstKnown(of, k) && SCHEMES[k] == scheme {
      assert k == 0 || k == 1 || k == 2 || k == 3;
    }
  }

  // ----- The functions a path passes through -----

  predicate Passes(steps: seq<string>, names: seq<string>)
    decreases |steps|
  {
    if steps == [] then names == []
    else
      var n := |steps| - 1;
      if steps[n] == "" then Passes(steps[..n], names)
      else names != [] && names[|names| - 1] == steps[n]
           && (Passes(steps[..n], names) || Passes(steps[..n], names[..|names| - 1]))
  }

  const ARROW := " \U{2192} "

  /** The functions named, in order, each once where consecutive steps share it. */
  ghost predicate Names(steps: seq<string>, names: seq<string>) {
    && Passes(steps, names) && "" !in names
    && forall i :: 0 < i < |names| ==> names[i] != names[i - 1]
  }

  method Chain(steps: seq<string>) returns (chain: string)
    ensures exists names :: Names(steps, names) && chain == Join(names, ARROW)
  {
    var names: seq<string> := [];
    for i := 0 to |steps|
      invariant Names(steps[..i], names)
    {
      assert steps[..i + 1][..i] == steps[..i];
      if steps[i] == "" {
      } else if |names| > 0 && names[|names| - 1] == steps[i] {
      } else {
        names := names + [steps[i]];
        assert names[..|names| - 1] == names[..|names|][..|names| - 1];
      }
    }
    assert steps[..|steps|] == steps;
    return Join(names, ARROW);
  }

  lemma NamesBefore(steps: seq<string>, names: seq<string>)
    requires Names(steps, names) && steps != [] && steps[|steps| - 1] != ""
    ensures var n, before := |steps| - 1, names[..|names| - 1];
            Names(steps[..n], if Passes(steps[..n], names) then names else before)
  {
    var n, before := |steps| - 1, names[..|names| - 1];
    forall i | 0 < i < |before| ensures before[i] != before[i - 1] { assert names[i] != names[i - 1]; }
  }

  /** There is one chain for the functions passed through. */
  lemma {:induction false} NamesAreOne(steps: seq<string>, names: seq<string>, other: seq<string>)
    requires Names(steps, names) && Names(steps, other)
    ensures names == other
    decreases |steps|
  {
    if steps != [] {
      var n := |steps| - 1;
      if steps[n] == "" {
        NamesAreOne(steps[..n], names, other);
      } else {
        NamesBefore(steps, names);
        NamesBefore(steps, other);
        var a := if Passes(steps[..n], names) then names else names[..|names| - 1];
        var b := if Passes(steps[..n], other) then other else other[..|other| - 1];
        NamesAreOne(steps[..n], a, b);
      }
    }
  }

  // ----- What a run is fingerprinted with -----

  ghost function Named(schemes: seq<string>): set<string> {
    set s | s in schemes && s != ""
  }

  ghost function Salted(salts: seq<string>): set<string> {
    set s | s in salts && s != "" :: "salt " + s
  }

  /** The marks of a run: its schemes, or none, and its salts; no mark where it reported nothing. */
  ghost function MarksOf(schemes: seq<string>, salts: seq<string>): set<string> {
    if schemes == [] then {}
    else (if Named(schemes) == {} then {"none"} else Named(schemes)) + Salted(salts)
  }

  ghost predicate Lists(parts: seq<string>, marks: set<string>) {
    Distinct(parts) && SortedBy(Alphabetical(), parts) && Elements(parts) == marks
  }

  /** What a run's results are fingerprinted with, as it is stored. */
  ghost predicate PrintedAs(schemes: seq<string>, salts: seq<string>, text: string) {
    exists parts :: Lists(parts, MarksOf(schemes, salts)) && text == Join(parts, ",")
  }

  lemma MarkIsNotNone(salt: string)
    ensures "salt " + salt != "none"
  {
    assert ("salt " + salt)[0] == 's' && "none"[0] == 'n';
  }

  /** A run's marks, each once, sorted and joined by commas; nothing where it reported nothing. */
  method PrintsOf(schemes: seq<string>, salts: seq<string>) returns (text: string)
    ensures PrintedAs(schemes, salts, text)
  {
    if |schemes| == 0 {
      assert Lists([], MarksOf(schemes, salts)) && Join([], ",") == "";
      return "";
    }
    var parts: seq<string>, seen: set<string> := [], {};
    for i := 0 to |schemes|
      invariant Distinct(parts) && Elements(parts) == seen == Named(schemes[..i])
    {
      NamedAdds(schemes, i);
      if schemes[i] != "" && schemes[i] !in seen {
        seen := seen + {schemes[i]};
        parts := parts + [schemes[i]];
      }
    }
    assert schemes[..|schemes|] == schemes;
    if |parts| == 0 {
      assert Elements(parts) == {};
      parts := ["none"];
    } else {
      assert parts[0] in Elements(parts);
    }
    ghost var first := Elements(parts);
    assert first == if Named(schemes) == {} then {"none"} else Named(schemes);
    assert Salted(salts[..0]) == {};
    for i := 0 to |salts|
      invariant Marked(parts, seen, first, salts[..i])
    {
      MarkedNext(parts, seen, first, salts, i);
      var mark := "salt " + salts[i];
      if salts[i] != "" && mark !in seen {
        seen := seen + {mark};
        parts := parts + [mark];
      }
    }
    assert salts[..|salts|] == salts;
    text := Join(Sort(parts, Alphabetical()), ",");
    SortedLists(parts, MarksOf(schemes, salts));
  }

  /** The marks listed once some salts have been, and those of them remembered. */
  ghost predicate Marked(parts: seq<string>, seen: set<string>, first: set<string>, salts: seq<string>) {
    && Distinct(parts) && seen <= Elements(parts) && Elements(parts) == first + Salted(salts)
    && forall mark :: mark in parts && mark !in seen ==> mark == "none"
  }

  lemma MarkedNext(parts: seq<string>, seen: set<string>, first: set<string>, salts: seq<string>, i: nat)
    requires i < |salts| && Marked(parts, seen, first, salts[..i])
    ensures var mark := "salt " + salts[i];
            if salts[i] != "" && mark !in seen then Marked(parts + [mark], seen + {mark}, first, salts[..i + 1])
            else Marked(parts, seen, first, salts[..i + 1])
  {
    hide Salted;
    SaltedAdds(salts, i);
    MarkIsNotNone(salts[i]);
    var mark := "salt " + salts[i];
    assert Elements(parts + [mark]) == Elements(parts) + {mark};
  }

  lemma NamedAdds(schemes: seq<string>, i: nat)
    requires i < |schemes|
    ensures Named(schemes[..i + 1]) == Named(schemes[..i]) + if schemes[i] != "" then {schemes[i]} else {}
  {
    assert schemes[..i + 1] == schemes[..i] + [schemes[i]];
  }

  lemma SaltedAdds(salts: seq<string>, i: nat)
    requires i < |salts|
    ensures Salted(salts[..i + 1]) == Salted(salts[..i]) + if salts[i] != "" then {"salt " + salts[i]} else {}
  {
    assert salts[..i + 1] == salts[..i] + [salts[i]];
  }

  lemma SortedLists(parts: seq<string>, marks: set<string>)
    requires Distinct(parts) && Elements(parts) == marks
    ensures Lists(Sort(parts, Alphabetical()), marks)
  {
    var sorted := Sort(parts, Alphabetical());
    AlphabeticalIsAnOrder();
    SortFacts(parts, sorted, Alphabetical());
    assert Elements(sorted) == Elements(parts);
  }

  lemma ListsOnce(a: seq<string>, b: seq<string>, marks: set<string>)
    requires Lists(a, marks) && Lists(b, marks)
    ensures a == b
  {
    forall x ensures x in a <==> x in b { assert x in Elements(a) <==> x in Elements(b); }
    DistinctPermutation(a, b);
    forall x, y | x in a && y in a && Alphabetical()(x, y) && Alphabetical()(y, x) ensures x == y { StringLeTotal(x, y); }
    SortUnique(a, b, Alphabetical());
  }

  /** Two runs whose results carry the same schemes under the same salts, in whatever order and on
      however many results, are fingerprinted alike. */
  lemma PrintsIgnoreOrder(schemes: seq<string>, salts: seq<string>, text: string,
                          schemes': seq<string>, salts': seq<string>, text': string)
    requires PrintedAs(schemes, salts, text) && PrintedAs(schemes', salts', text')
    requires MarksOf(schemes, salts) == MarksOf(schemes', salts')
    ensures text == text'
  {
    hide MarksOf, Lists;
    var a :| Lists(a, MarksOf(schemes, salts)) && text == Join(a, ",");
    var b :| Lists(b, MarksOf(schemes', salts')) && text' == Join(b, ",");
    ListsOnce(a, b, MarksOf(schemes, salts));
  }

  /** Runs that reported something are fingerprinted alike exactly when the same pieces stand between
      the commas of their sorted marks. */
  lemma PrintedAlikeExactlyWhen(schemes: seq<string>, salts: seq<string>, text: string, parts: seq<string>,
                                schemes': seq<string>, salts': seq<string>, text': string, parts': seq<string>)
    requires PrintedAs(schemes, salts, text) && Lists(parts, MarksOf(schemes, salts)) && schemes != []
    requires PrintedAs(schemes', salts', text') && Lists(parts', MarksOf(schemes', salts')) && schemes' != []
    ensures text == text' <==> Pieces(parts, ',') == Pieces(parts', ',')
  {
    var a :| Lists(a, MarksOf(schemes, salts)) && text == Join(a, ",");
    var b :| Lists(b, MarksOf(schemes', salts')) && text' == Join(b, ",");
    ListsOnce(a, parts, MarksOf(schemes, salts));
    ListsOnce(b, parts', MarksOf(schemes', salts'));
    SomeMark(schemes, salts, parts);
    SomeMark(schemes', salts', parts');
    JoinedAlike(parts, parts', ',');
  }

  lemma SomeMark(schemes: seq<string>, salts: seq<string>, parts: seq<string>)
    requires schemes != [] && Lists(parts, MarksOf(schemes, salts))
    ensures parts != [] && Join(parts, ",") != ""
  {
    var mark :| mark in MarksOf(schemes, salts);
    assert mark in Elements(parts);
    assert parts[0] in Elements(parts);
    assert parts[0] != "";
  }

  ghost predicate CommaFree(marks: set<string>) {
    forall mark :: mark in marks ==> ',' !in mark
  }

  /** So a change of fingerprints is told from none, as long as no scheme or salt holds a comma; and a
      run that reported nothing is told from every other. */
  lemma PrintsTellMarksApart(schemes: seq<string>, salts: seq<string>, text: string,
                             schemes': seq<string>, salts': seq<string>, text': string)
    requires PrintedAs(schemes, salts, text) && PrintedAs(schemes', salts', text')
    ensures text == "" <==> schemes == []
    ensures CommaFree(MarksOf(schemes, salts)) && CommaFree(MarksOf(schemes', salts')) ==>
              (text == text' <==> MarksOf(schemes, salts) == MarksOf(schemes', salts'))
  {
    var a :| Lists(a, MarksOf(schemes, salts)) && text == Join(a, ",");
    var b :| Lists(b, MarksOf(schemes', salts')) && text' == Join(b, ",");
    ListedOrNone(schemes, salts, a);
    ListedOrNone(schemes', salts', b);
    if MarksOf(schemes, salts) == MarksOf(schemes', salts') { ListsOnce(a, b, MarksOf(schemes, salts)); }
    if CommaFree(MarksOf(schemes, salts)) && CommaFree(MarksOf(schemes', salts')) && a != [] && b != [] {
      ListedPlainly(a, MarksOf(schemes, salts));
      ListedPlainly(b, MarksOf(schemes', salts'));
      JoinedAlike(a, b, ',');
    }
  }

  lemma ListedOrNone(schemes: seq<string>, salts: seq<string>, parts: seq<string>)
    requires Lists(parts, MarksOf(schemes, salts))
    ensures schemes == [] <==> parts == []
    ensures Join(parts, ",") == "" <==> parts == []
  {
    if schemes != [] {
      SomeMark(schemes, salts, parts);
    } else {
      FirstIsListed(parts);
    }
  }

  lemma FirstIsListed(parts: seq<string>)
    ensures parts != [] ==> parts[0] in Elements(parts)
  {}

  lemma ListedPlainly(parts: seq<string>, marks: set<string>)
    requires Lists(parts, marks) && CommaFree(marks)
    ensures Pieces(parts, ',') == parts
  {
    forall i | 0 <= i < |parts| ensures ',' !in parts[i] { assert parts[i] in Elements(parts); }
    PiecesOfPlain(parts, ',');
  }

  /** A comma in a scheme can hide a change: the one scheme "a,b" is printed as the two, a and b. */
  lemma CommasHideChanges(a: string, b: string, salts: seq<string>)
    requires a != "" && b != "" && a != b && StringLe(a, b) && Salted(salts) == {}
    ensures PrintedAs([a, b], salts, a + "," + b) && PrintedAs([a + "," + b], salts, a + "," + b)
    ensures MarksOf([a, b], salts) != MarksOf([a + "," + b], salts)
  {
    var both := a + "," + b;
    assert Named([a, b]) == {a, b} && Named([both]) == {both};
    assert a in Named([a, b]) && both in Named([both]) && |a| < |both|;
    StringLeTotal(a, a);
    assert Lists([a, b], MarksOf([a, b], salts)) && Join([a, b], ",") == both;
    assert Lists([both], MarksOf([both], salts)) && Join([both], ",") == both;
  }
}
