/** What assembled documents promise: each release stated once, with its reason, its remedy and its
    definition (sections 6.1.1, 6.1.2 and 6.1.6 of CSAF 2.0). */
module DocumentsTheorems {
  import opened Common
  import opened Documents

  // ----- The releases each statement is about -----

  datatype Which = Affected | NotAffected | FixedThere | Rated | Fixable | Unfixable
                 | ForReason(text: string) | WithImpact(text: string) | Mitigated(text: string)

  predicate Is(r: Release, which: Which) {
    match which
    case Affected => StatusOf(r) == KnownAffected
    case NotAffected => StatusOf(r) == KnownNotAffected
    case FixedThere => StatusOf(r) == Fixed
    case Rated => StatusOf(r) != KnownNotAffected
    case Fixable => StatusOf(r) == KnownAffected && !NoFixPlanned(r)
    case Unfixable => StatusOf(r) == KnownAffected && NoFixPlanned(r)
    case ForReason(text) => StatusOf(r) == KnownNotAffected && Reason(r) == text
    case WithImpact(text) => StatusOf(r) == KnownNotAffected && Mitigation(r) == text != ""
    case Mitigated(text) => StatusOf(r) == KnownAffected && NoFixPlanned(r) && Mitigation(r) == text != ""
  }

  /** The identifiers of the releases a statement is about, in the order of the releases. */
  function Those(product: string, releases: seq<Release>, which: Which): seq<string>
    decreases |releases|
  {
    if releases == [] then []
    else
      var n := |releases| - 1;
      Those(product, releases[..n], which) + if Is(releases[n], which) then [ProductID(product, releases[n])] else []
  }

  datatype Kind = Flags | Impacts | Mitigations

  function Under(kind: Kind, text: string): Which {
    match kind
    case Flags => ForReason(text)
    case Impacts => WithImpact(text)
    case Mitigations => Mitigated(text)
  }

  /** The text a release is stated under, if it is. */
  function TextOf(kind: Kind, r: Release): Option<string> {
    match kind
    case Flags => if StatusOf(r) == KnownNotAffected then Some(Reason(r)) else None
    case Impacts => if StatusOf(r) == KnownNotAffected && Mitigation(r) != "" then Some(Mitigation(r)) else None
    case Mitigations =>
      if StatusOf(r) == KnownAffected && NoFixPlanned(r) && Mitigation(r) != "" then Some(Mitigation(r)) else None
  }

  lemma TextIsWhich(kind: Kind, r: Release, text: string)
    ensures Is(r, Under(kind, text)) <==> TextOf(kind, r) == Some(text)
  {}

  ghost predicate TextsApart(groups: seq<Stated>) {
    forall i, j :: 0 <= i < j < |groups| ==> groups[i].text != groups[j].text
  }

  ghost predicate HasText(groups: seq<Stated>, text: string) {
    exists k :: 0 <= k < |groups| && groups[k].text == text
  }

  /** One group to a text, stating exactly the releases under it, and none without any. */
  ghost predicate GroupsTell(groups: seq<Stated>, product: string, releases: seq<Release>, kind: Kind) {
    && TextsApart(groups)
    && (forall k :: 0 <= k < |groups| ==>
          groups[k].releases == Those(product, releases, Under(kind, groups[k].text)) != [])
    && (forall i :: 0 <= i < |releases| && TextOf(kind, releases[i]).Some? ==>
          HasText(groups, TextOf(kind, releases[i]).value))
  }

  /** Where a text's group is, or past the end. */
  function GroupAt(groups: seq<Stated>, text: string): (k: nat)
    ensures k <= |groups|
    ensures k < |groups| ==> groups[k].text == text
    ensures forall j :: 0 <= j < k ==> groups[j].text != text
  {
    if groups == [] || groups[0].text == text then 0 else 1 + GroupAt(groups[1..], text)
  }

  lemma {:induction false} JoiningIs(groups: seq<Stated>, text: string, id: string)
    ensures var k := GroupAt(groups, text);
            Joining(groups, text, id) ==
              if k < |groups| then groups[k := Stated(text, groups[k].releases + [id])] else groups + [Stated(text, [id])]
  {
    if groups != [] && groups[0].text != text {
      JoiningIs(groups[1..], text, id);
    }
  }

  /** Joining adds the release to the group of its text, or opens one at the end. */
  lemma JoiningJoins(groups: seq<Stated>, text: string, id: string)
    requires TextsApart(groups)
    ensures var joined := Joining(groups, text, id);
            && TextsApart(joined) && HasText(joined, text)
            && |groups| <= |joined| && |joined| == |groups| + (if HasText(groups, text) then 0 else 1)
            && (forall k :: 0 <= k < |groups| ==>
                  joined[k] == if groups[k].text == text then Stated(text, groups[k].releases + [id]) else groups[k])
            && (!HasText(groups, text) ==> joined[|groups|] == Stated(text, [id]))
  {
    hide Joining;
    JoiningIs(groups, text, id);
    var joined, k := Joining(groups, text, id), GroupAt(groups, text);
    assert joined[k].text == text;
    forall j | 0 <= j < |groups| && groups[j].text == text ensures j == k { TextsApartAt(groups, j, k); }
  }

  lemma TextsApartAt(groups: seq<Stated>, j: nat, k: nat)
    requires TextsApart(groups) && j < |groups| && k < |groups|
    ensures groups[j].text == groups[k].text <==> j == k
  {
    if j < k { assert groups[j].text != groups[k].text; }
    if k < j { assert groups[k].text != groups[j].text; }
  }

  lemma {:induction false} ThoseUnderNone(product: string, releases: seq<Release>, kind: Kind, text: string)
    requires forall i :: 0 <= i < |releases| ==> TextOf(kind, releases[i]) != Some(text)
    ensures Those(product, releases, Under(kind, text)) == []
  {
    if releases != [] {
      var n := |releases| - 1;
      ThoseUnderNone(product, releases[..n], kind, text);
      TextIsWhich(kind, releases[n], text);
    }
  }

  /** One more release keeps the groups telling: it joins its text's group, or none has to change. */
  lemma GroupsGoOnTelling(groups: seq<Stated>, product: string, releases: seq<Release>, r: Release, kind: Kind)
    requires GroupsTell(groups, product, releases, kind)
    ensures var text := TextOf(kind, r);
            GroupsTell(if text.Some? then Joining(groups, text.value, ProductID(product, r)) else groups,
                       product, releases + [r], kind)
  {
    hide Joining, ProductID;
    var text, more := TextOf(kind, r), releases + [r];
    assert more[..|releases|] == releases;
    if text.Some? {
      JoinedGoesOnTelling(groups, product, releases, r, kind, text.value);
    } else {
      forall k | 0 <= k < |groups|
        ensures groups[k].releases == Those(product, more, Under(kind, groups[k].text)) != []
      {
        TextIsWhich(kind, r, groups[k].text);
      }
    }
  }

  lemma JoinedGoesOnTelling(groups: seq<Stated>, product: string, releases: seq<Release>, r: Release, kind: Kind, text: string)
    requires GroupsTell(groups, product, releases, kind) && TextOf(kind, r) == Some(text)
    ensures GroupsTell(Joining(groups, text, ProductID(product, r)), product, releases + [r], kind)
  {
    hide Joining, ProductID, TextOf, Is;
    var more, after := releases + [r], Joining(groups, text, ProductID(product, r));
    assert more[..|releases|] == releases;
    JoiningJoins(groups, text, ProductID(product, r));
    if !HasText(groups, text) { ThoseUnderNone(product, releases, kind, text); }
    forall k | 0 <= k < |after|
      ensures after[k].releases == Those(product, more, Under(kind, after[k].text)) != []
    {
      TextIsWhich(kind, r, after[k].text);
    }
    forall i | 0 <= i < |more| && TextOf(kind, more[i]).Some?
      ensures HasText(after, TextOf(kind, more[i]).value)
    {
      if i < |releases| {
        var k :| 0 <= k < |groups| && groups[k].text == TextOf(kind, releases[i]).value;
        assert after[k].text == groups[k].text;
      }
    }
  }

  // ----- Everything one issue states -----

  ghost predicate Tells(d: Draft, product: string, releases: seq<Release>) {
    && d.affected == Those(product, releases, Affected)
    && d.notAffected == Those(product, releases, NotAffected)
    && d.fixed == Those(product, releases, FixedThere)
    && d.rated == Those(product, releases, Rated)
    && d.fixable == Those(product, releases, Fixable)
    && d.unfixed == Those(product, releases, Unfixable)
    && |d.fixedNames| == |d.fixed|
    && GroupsTell(d.flags, product, releases, Flags)
    && GroupsTell(d.threats, product, releases, Impacts)
    && GroupsTell(d.mitigations, product, releases, Mitigations)
  }

  lemma NothingTells(product: string, kind: Kind)
    ensures GroupsTell([], product, [], kind)
  {}

  /** What is written for an issue is exactly, in the order of its releases: those affected, not
      affected and fixed; the rated ones; one flag to a reason over the not affected, one impact to
      a mitigation; and the affected split by whether a fix is planned. */
  lemma {:induction false} DraftTells(product: string, shown: string, releases: seq<Release>)
    ensures Tells(AddingAll(product, shown, releases), product, releases)
  {
    hide GroupsTell, Joining, Decided, ProductID, Name;
    if releases == [] {
      NothingTells(product, Flags);
      NothingTells(product, Impacts);
      NothingTells(product, Mitigations);
    } else {
      var n := |releases| - 1;
      var before, r := releases[..n], releases[n];
      DraftTells(product, shown, before);
      var d := AddingAll(product, shown, before);
      assert releases == before + [r];
      GroupsGoOnTelling(d.flags, product, before, r, Flags);
      GroupsGoOnTelling(d.threats, product, before, r, Impacts);
      GroupsGoOnTelling(d.mitigations, product, before, r, Mitigations);
    }
  }

  // ----- One identifier, one statement -----

  lemma {:induction false} InThose(product: string, releases: seq<Release>, which: Which, id: string)
    ensures id in Those(product, releases, which) <==>
      exists i :: 0 <= i < |releases| && Is(releases[i], which) && ProductID(product, releases[i]) == id
  {
    if releases != [] {
      var n := |releases| - 1;
      var before := releases[..n];
      InThose(product, before, which, id);
      if id in Those(product, before, which) {
        var i :| 0 <= i < |before| && Is(before[i], which) && ProductID(product, before[i]) == id;
        assert Is(releases[i], which) && ProductID(product, releases[i]) == id;
      }
      if exists i :: 0 <= i < n && Is(releases[i], which) && ProductID(product, releases[i]) == id {
        var i :| 0 <= i < n && Is(releases[i], which) && ProductID(product, releases[i]) == id;
        assert Is(before[i], which) && ProductID(product, before[i]) == id;
      }
    }
  }

  /** No two releases share an identifier while standing differently. */
  ghost predicate OneStandEach(product: string, releases: seq<Release>) {
    forall i, j :: 0 <= i < |releases| && 0 <= j < |releases| && ProductID(product, releases[i]) == ProductID(product, releases[j]) ==>
      StatusOf(releases[i]) == StatusOf(releases[j])
  }

  ghost predicate Apart(a: seq<string>, b: seq<string>) {
    forall id :: !(id in a && id in b)
  }

  /** Some release standing so carries the identifier. */
  ghost predicate SomeStands(product: string, releases: seq<Release>, status: Status, id: string) {
    exists i :: 0 <= i < |releases| && StatusOf(releases[i]) == status && ProductID(product, releases[i]) == id
  }

  lemma StatusLists(product: string, shown: string, releases: seq<Release>, id: string)
    ensures var d := AddingAll(product, shown, releases);
            && (id in d.affected <==> SomeStands(product, releases, KnownAffected, id))
            && (id in d.notAffected <==> SomeStands(product, releases, KnownNotAffected, id))
            && (id in d.fixed <==> SomeStands(product, releases, Fixed, id))
  {
    hide AddingAll, GroupsTell, ProductID, StatusOf, Those;
    DraftTells(product, shown, releases);
    InThose(product, releases, Affected, id);
    InThose(product, releases, NotAffected, id);
    InThose(product, releases, FixedThere, id);
  }

  /** Every release lands in exactly one of affected, not affected and fixed, exactly when no two
      releases sharing an identifier stand differently. */
  lemma StatusesDoNotContradictExactlyWhen(product: string, shown: string, releases: seq<Release>)
    ensures var d := AddingAll(product, shown, releases);
            && (forall i :: 0 <= i < |releases| ==>
                  var id := ProductID(product, releases[i]); id in d.affected || id in d.notAffected || id in d.fixed)
            && (Apart(d.affected, d.notAffected) && Apart(d.affected, d.fixed) && Apart(d.notAffected, d.fixed)
                <==> OneStandEach(product, releases))
  {
    hide AddingAll, ProductID, StatusOf;
    var d := AddingAll(product, shown, releases);
    forall id
      ensures id in d.affected <==> SomeStands(product, releases, KnownAffected, id)
      ensures id in d.notAffected <==> SomeStands(product, releases, KnownNotAffected, id)
      ensures id in d.fixed <==> SomeStands(product, releases, Fixed, id)
    {
      StatusLists(product, shown, releases, id);
    }
    forall i | 0 <= i < |releases|
      ensures SomeStands(product, releases, StatusOf(releases[i]), ProductID(product, releases[i]))
    {}
  }

  // ----- When two releases share an identifier -----

  /** b's branch carries on past a's by what a's variant begins with, a colon between. */
  ghost predicate Slides(a: Release, b: Release) {
    exists x: string :: b.branchOrTag == a.branchOrTag + ":" + x && a.variant == x + ":" + b.variant
  }

  lemma SharingPrefix(a: string, b: string, c: string, d: string)
    requires a + b == c + d && |a| <= |c|
    ensures c == a + c[|a|..] && b == c[|a|..] + d
  {
    assert (a + b)[..|a|] == a && (c + d)[..|a|] == c[..|a|];
    assert (a + b)[|a|..] == b && (c + d)[|a|..] == c[|a|..] + d;
  }

  lemma SlidesShare(product: string, a: Release, b: Release, x: string)
    requires b.branchOrTag == a.branchOrTag + ":" + x && a.variant == x + ":" + b.variant
    ensures ProductID(product, a) == ProductID(product, b)
  {
    assert ProductID(product, a) == product + ":" + a.branchOrTag + ":" + x + ":" + b.variant;
    assert ProductID(product, b) == product + ":" + a.branchOrTag + ":" + x + ":" + b.variant;
  }

  lemma SharingIsSliding(product: string, a: Release, b: Release)
    requires ProductID(product, a) == ProductID(product, b) && |a.branchOrTag| <= |b.branchOrTag|
    ensures (a.branchOrTag == b.branchOrTag && a.variant == b.variant) || Slides(a, b)
  {
    var head := product + ":";
    assert ProductID(product, a) == head + (a.branchOrTag + (":" + a.variant));
    assert ProductID(product, b) == head + (b.branchOrTag + (":" + b.variant));
    SharingPrefix(head, a.branchOrTag + (":" + a.variant), head, b.branchOrTag + (":" + b.variant));
    SharingPrefix(a.branchOrTag, ":" + a.variant, b.branchOrTag, ":" + b.variant);
    var y := b.branchOrTag[|a.branchOrTag|..];
    if y == [] {
      assert b.branchOrTag == a.branchOrTag;
      assert (":" + a.variant)[1..] == a.variant && (":" + b.variant)[1..] == b.variant;
    } else {
      assert y[0] == ':' by { assert (":" + a.variant)[0] == (y + (":" + b.variant))[0]; }
      var x := y[1..];
      assert y == ":" + x;
      assert a.variant == (":" + a.variant)[1..] == (y + (":" + b.variant))[1..] == x + ":" + b.variant;
      assert b.branchOrTag == a.branchOrTag + ":" + x;
    }
  }

  /** Two releases of a product share an identifier exactly when they are named alike, or a colon
      lets one's branch run on into the other's variant. Without colons in names, never. */
  lemma SharedExactlyWhen(product: string, a: Release, b: Release)
    ensures ProductID(product, a) == ProductID(product, b) <==>
      (a.branchOrTag == b.branchOrTag && a.variant == b.variant) || Slides(a, b) || Slides(b, a)
    ensures ':' !in a.branchOrTag && ':' !in b.branchOrTag ==> !Slides(a, b) && !Slides(b, a)
  {
    if ProductID(product, a) == ProductID(product, b) {
      if |a.branchOrTag| <= |b.branchOrTag| { SharingIsSliding(product, a, b); } else { SharingIsSliding(product, b, a); }
    }
    if Slides(a, b) {
      var x :| b.branchOrTag == a.branchOrTag + ":" + x && a.variant == x + ":" + b.variant;
      SlidesShare(product, a, b, x);
      assert b.branchOrTag[|a.branchOrTag|] == ':';
    }
    if Slides(b, a) {
      var x :| a.branchOrTag == b.branchOrTag + ":" + x && b.variant == x + ":" + a.variant;
      SlidesShare(product, b, a, x);
      assert a.branchOrTag[|b.branchOrTag|] == ':';
    }
  }

  /** Two differently named releases, one stated affected and the other fixed under one identifier. */
  lemma ColonsCanContradict()
    ensures exists a: Release, b: Release :: a.branchOrTag != b.branchOrTag && !OneStandEach("p", [a, b])
  {
    var a := Release("a", "b:c", true, None, false);
    var b := Release("a:b", "c", false, None, false);
    assert a.variant == "b" + ":" + b.variant && b.branchOrTag == a.branchOrTag + ":" + "b";
    SlidesShare("p", a, b, "b");
    var releases := [a, b];
    assert ProductID("p", releases[0]) == ProductID("p", releases[1]);
    assert StatusOf(releases[0]) != StatusOf(releases[1]);
    assert !OneStandEach("p", [a, b]);
  }

  // ----- What a reader can do -----

  /** No two releases share an identifier. */
  ghost predicate IDsApart(product: string, releases: seq<Release>) {
    forall i, j :: 0 <= i < j < |releases| ==> ProductID(product, releases[i]) != ProductID(product, releases[j])
  }

  ghost predicate Remedies(remedies: seq<Remediation>, k: nat, id: string) {
    k < |remedies| && remedies[k].category != Mitigating && id in remedies[k].releases
  }

  /** The one remedy an affected release is owed. */
  function Owed(releases: seq<Release>, r: Release): Category {
    if NoFixPlanned(r) then NoFix
    else if exists i :: 0 <= i < |releases| && StatusOf(releases[i]) == Fixed then VendorFix
    else NoneAvailable
  }

  lemma IDsApartAt(product: string, releases: seq<Release>, i: nat, j: nat)
    requires IDsApart(product, releases) && i < |releases| && j < |releases|
    ensures ProductID(product, releases[i]) == ProductID(product, releases[j]) <==> i == j
  {
    hide ProductID;
    if i < j { assert ProductID(product, releases[i]) != ProductID(product, releases[j]); }
    if j < i { assert ProductID(product, releases[j]) != ProductID(product, releases[i]); }
  }

  lemma InThoseAlone(product: string, releases: seq<Release>, which: Which, i: nat)
    requires IDsApart(product, releases) && i < |releases|
    ensures ProductID(product, releases[i]) in Those(product, releases, which) <==> Is(releases[i], which)
  {
    hide ProductID, Is;
    InThose(product, releases, which, ProductID(product, releases[i]));
    forall j | 0 <= j < |releases| && ProductID(product, releases[j]) == ProductID(product, releases[i]) ensures j == i {
      IDsApartAt(product, releases, i, j);
    }
  }

  lemma {:induction false} SomethingFixed(product: string, releases: seq<Release>)
    ensures Those(product, releases, FixedThere) != [] <==>
      exists i :: 0 <= i < |releases| && StatusOf(releases[i]) == Fixed
  {
    hide ProductID, StatusOf;
    if releases != [] {
      var n := |releases| - 1;
      SomethingFixed(product, releases[..n]);
      if exists i :: 0 <= i < n && StatusOf(releases[i]) == Fixed {
        var i :| 0 <= i < n && StatusOf(releases[i]) == Fixed;
        assert StatusOf(releases[..n][i]) == Fixed;
      }
    }
  }

  lemma RemediesAre(d: Draft, id: string)
    requires !(id in d.fixable && id in d.unfixed)
    ensures var remedies, first := RemediationsFor(d), if d.fixable == [] then 0 else 1;
            && (id in d.fixable ==>
                  Remedies(remedies, 0, id)
                  && remedies[0].category == (if d.fixedNames != [] then VendorFix else NoneAvailable))
            && (id in d.unfixed ==> Remedies(remedies, first, id) && remedies[first].category == NoFix)
            && (forall k: nat :: Remedies(remedies, k, id) ==>
                  (id in d.fixable && k == 0) || (id in d.unfixed && k == first))
            && (forall k :: 0 <= k < |remedies| && id in remedies[k].releases ==>
                  id in d.fixable || id in d.unfixed
                  || exists g :: 0 <= g < |d.mitigations| && id in d.mitigations[g].releases)
  {
    var remedies, first := RemediationsFor(d), if d.fixable == [] then 0 else 1;
    forall k | 0 <= k < |remedies| && id in remedies[k].releases
      ensures id in d.fixable || id in d.unfixed
           || exists g :: 0 <= g < |d.mitigations| && id in d.mitigations[g].releases
    {
      if remedies[k].category == Mitigating { assert id in d.mitigations[k - first - 1].releases; }
    }
  }

  /** Each affected release is told exactly one thing to do: update where something is fixed, that
      nothing fixing it is available, or that no fix is planned; and a release that is not affected
      is told nothing. */
  lemma OneRemedyEach(product: string, shown: string, releases: seq<Release>, i: nat)
    requires IDsApart(product, releases) && i < |releases|
    ensures var remedies, id, r := VulnerabilityOf(product, shown, releases).remediations,
                                   ProductID(product, releases[i]), releases[i];
            && (StatusOf(r) == KnownAffected ==>
                  exists k: nat :: Remedies(remedies, k, id) && remedies[k].category == Owed(releases, r)
                                && forall k': nat :: Remedies(remedies, k', id) ==> k' == k)
            && (StatusOf(r) != KnownAffected ==>
                  forall k :: 0 <= k < |remedies| ==> id !in remedies[k].releases)
  {
    hide ProductID, StatusOf, NoFixPlanned, AddingAll, RemediationsFor, GroupsTell, Those, IDsApart;
    var d, id, r := AddingAll(product, shown, releases), ProductID(product, releases[i]), releases[i];
    DraftTells(product, shown, releases);
    InThoseAlone(product, releases, Fixable, i);
    InThoseAlone(product, releases, Unfixable, i);
    SomethingFixed(product, releases);
    MitigatedAreAffected(product, shown, releases, i);
    RemediesAre(d, id);
  }

  lemma MitigatedAreAffected(product: string, shown: string, releases: seq<Release>, i: nat)
    requires IDsApart(product, releases) && i < |releases|
    ensures var d := AddingAll(product, shown, releases);
            forall g :: 0 <= g < |d.mitigations| && ProductID(product, releases[i]) in d.mitigations[g].releases ==>
              StatusOf(releases[i]) == KnownAffected
  {
    hide ProductID, StatusOf, NoFixPlanned, AddingAll, Those, IDsApart;
    var d := AddingAll(product, shown, releases);
    DraftTells(product, shown, releases);
    forall g | 0 <= g < |d.mitigations| && ProductID(product, releases[i]) in d.mitigations[g].releases
      ensures StatusOf(releases[i]) == KnownAffected
    {
      InThoseAlone(product, releases, Mitigated(d.mitigations[g].text), i);
    }
  }

  // ----- Every release stated once -----

  ghost predicate DistinctNames(releases: seq<Release>) {
    forall i, j :: 0 <= i < j < |releases| ==>
      releases[i].branchOrTag != releases[j].branchOrTag || releases[i].variant != releases[j].variant
  }

  ghost predicate ColonFree(releases: seq<Release>) {
    forall i :: 0 <= i < |releases| ==> ':' !in releases[i].branchOrTag
  }

  lemma NamedApart(product: string, releases: seq<Release>)
    requires DistinctNames(releases) && ColonFree(releases)
    ensures IDsApart(product, releases)
  {
    hide ProductID, Slides;
    forall i, j | 0 <= i < j < |releases| ensures ProductID(product, releases[i]) != ProductID(product, releases[j]) {
      SharedExactlyWhen(product, releases[i], releases[j]);
    }
  }

  /** The one flag a release carries is its reason's, where it is not affected; otherwise none. */
  lemma OneFlagEach(product: string, shown: string, releases: seq<Release>, i: nat)
    requires IDsApart(product, releases) && i < |releases|
    ensures var flags, id, r := AddingAll(product, shown, releases).flags, ProductID(product, releases[i]), releases[i];
            && (StatusOf(r) == KnownNotAffected ==>
                  exists k :: 0 <= k < |flags| && flags[k].text == Reason(r) && id in flags[k].releases
                           && forall k' :: 0 <= k' < |flags| && id in flags[k'].releases ==> k' == k)
            && (StatusOf(r) != KnownNotAffected ==> forall k :: 0 <= k < |flags| ==> id !in flags[k].releases)
  {
    hide ProductID, StatusOf, AddingAll, Reason, Those;
    var flags, id, r := AddingAll(product, shown, releases).flags, ProductID(product, releases[i]), releases[i];
    DraftTells(product, shown, releases);
    forall k | 0 <= k < |flags|
      ensures id in flags[k].releases <==> StatusOf(r) == KnownNotAffected && Reason(r) == flags[k].text
    {
      InThoseAlone(product, releases, ForReason(flags[k].text), i);
    }
    if StatusOf(r) == KnownNotAffected {
      assert TextOf(Flags, r) == Some(Reason(r));
      assert HasText(flags, Reason(r));
    }
  }

  /** Releases told apart by name, without colons in their branches: each is stated under its own
      status and no other; the not affected carry exactly one flag and the affected exactly one remedy,
      and no other release carries either. */
  lemma EachReleaseStatedOnce(product: string, shown: string, releases: seq<Release>, i: nat)
    requires DistinctNames(releases) && ColonFree(releases) && i < |releases|
    ensures var v, id, status := VulnerabilityOf(product, shown, releases), ProductID(product, releases[i]), StatusOf(releases[i]);
            && (id in v.draft.affected <==> status == KnownAffected)
            && (id in v.draft.notAffected <==> status == KnownNotAffected)
            && (id in v.draft.fixed <==> status == Fixed)
            && (if status == KnownNotAffected then
                  exists k :: 0 <= k < |v.draft.flags| && v.draft.flags[k].text == Reason(releases[i]) && id in v.draft.flags[k].releases
                           && forall k' :: 0 <= k' < |v.draft.flags| && id in v.draft.flags[k'].releases ==> k' == k
                else forall k :: 0 <= k < |v.draft.flags| ==> id !in v.draft.flags[k].releases)
            && (if status == KnownAffected then
                  exists k: nat :: Remedies(v.remediations, k, id) && v.remediations[k].category == Owed(releases, releases[i])
                                && forall k': nat :: Remedies(v.remediations, k', id) ==> k' == k
                else forall k :: 0 <= k < |v.remediations| ==> id !in v.remediations[k].releases)
  {
    hide ProductID, StatusOf, AddingAll, Reason, Those, RemediationsFor, Owed, GroupsTell, Remedies, IDsApart;
    NamedApart(product, releases);
    DraftTells(product, shown, releases);
    InThoseAlone(product, releases, Affected, i);
    InThoseAlone(product, releases, NotAffected, i);
    InThoseAlone(product, releases, FixedThere, i);
    OneFlagEach(product, shown, releases, i);
    OneRemedyEach(product, shown, releases, i);
  }

  // ----- Every identifier defined once -----

  function IdsOf(one: Covered): set<string> {
    set i | 0 <= i < |one.releases| :: ProductID(one.product, one.releases[i])
  }

  ghost predicate DefinedAt(a: Assembly, id: string, i: nat, j: nat) {
    i < |a.products| && j < |a.products[i].leaves| && a.products[i].leaves[j].id == id
  }

  /** The tree defines each identifier it has seen in exactly one place, each product under one branch. */
  ghost predicate TreeSound(a: Assembly) {
    && Placed(a)
    && (forall p, q :: p in a.at && q in a.at && a.at[p] == a.at[q] ==> p == q)
    && (forall i, j :: 0 <= i < |a.products| && 0 <= j < |a.products[i].leaves| ==> a.products[i].leaves[j].id in a.seen)
    && (forall id :: id in a.seen ==> exists i: nat, j: nat :: DefinedAt(a, id, i, j))
    && (forall id, i: nat, j: nat, i': nat, j': nat :: DefinedAt(a, id, i, j) && DefinedAt(a, id, i', j') ==> i == i' && j == j')
  }

  /** The tree with this product's branch in it. */
  function Branched(a: Assembly, one: Covered): Assembly {
    if one.product in a.at then a
    else a.(products := a.products + [Branch(one.shown, [])], at := a.at[one.product := |a.products|])
  }

  lemma BranchingIsSound(a: Assembly, one: Covered)
    requires TreeSound(a)
    ensures TreeSound(Branched(a, one))
  {
    var b := Branched(a, one);
    forall id, i: nat, j: nat ensures DefinedAt(b, id, i, j) <==> DefinedAt(a, id, i, j) {}
    forall id | id in b.seen ensures exists i: nat, j: nat :: DefinedAt(b, id, i, j) {
      var i: nat, j: nat :| DefinedAt(a, id, i, j);
      assert DefinedAt(b, id, i, j);
    }
  }

  lemma PlacingIsSound(a: Assembly, one: Covered, r: Release)
    requires TreeSound(a)
    ensures var b := Placing(a, one, r); TreeSound(b) && b.seen == a.seen + {ProductID(one.product, r)}
  {
    hide ProductID, Name;
    BranchingIsSound(a, one);
    var mid, b, leaf := Branched(a, one), Placing(a, one, r), LeafOf(one, r);
    if leaf.id !in mid.seen {
      var at := mid.at[one.product];
      var n := |mid.products[at].leaves|;
      assert b.products == mid.products[at := Branch(mid.products[at].shown, mid.products[at].leaves + [leaf])];
      LeafIsSound(mid, b, leaf, at, n);
    }
  }

  lemma LeafIsSound(a: Assembly, b: Assembly, leaf: Leaf, at: nat, n: nat)
    requires TreeSound(a) && leaf.id !in a.seen && at < |a.products| && n == |a.products[at].leaves|
    requires b == a.(seen := a.seen + {leaf.id},
                     products := a.products[at := Branch(a.products[at].shown, a.products[at].leaves + [leaf])])
    ensures TreeSound(b)
  {
    forall id, i: nat, j: nat
      ensures DefinedAt(b, id, i, j) <==> DefinedAt(a, id, i, j) || (i == at && j == n && id == leaf.id)
    {}
    forall id, i: nat, j: nat | DefinedAt(a, id, i, j) ensures id in a.seen {}
    forall id | id in b.seen ensures exists i: nat, j: nat :: DefinedAt(b, id, i, j) {
      if id == leaf.id {
        assert DefinedAt(b, id, at, n);
      } else {
        var i: nat, j: nat :| DefinedAt(a, id, i, j);
        assert DefinedAt(b, id, i, j);
      }
    }
  }

  lemma {:induction false} PlacingAllIsSound(a: Assembly, one: Covered, upto: nat)
    requires Placed(a) && TreeSound(a) && upto <= |one.releases|
    ensures var b := PlacingAll(a, one, upto);
            TreeSound(b) && b.seen == a.seen + set i | 0 <= i < upto :: ProductID(one.product, one.releases[i])
  {
    hide TreeSound, ProductID, Placing;
    if upto > 0 {
      PlacingAllIsSound(a, one, upto - 1);
      PlacingIsSound(PlacingAll(a, one, upto - 1), one, one.releases[upto - 1]);
    }
  }

  function AllIds(issues: seq<Covered>): set<string>
    decreases |issues|
  {
    if issues == [] then {} else AllIds(issues[..|issues| - 1]) + IdsOf(issues[|issues| - 1])
  }

  ghost predicate StatesOnly(v: Vulnerability, ids: set<string>) {
    && (forall id :: id in v.draft.affected + v.draft.notAffected + v.draft.fixed + v.draft.rated ==> id in ids)
    && (forall k, id :: 0 <= k < |v.draft.flags| && id in v.draft.flags[k].releases ==> id in ids)
    && (forall k, id :: 0 <= k < |v.draft.threats| && id in v.draft.threats[k].releases ==> id in ids)
    && (forall k, id :: 0 <= k < |v.remediations| && id in v.remediations[k].releases ==> id in ids)
  }

  lemma ThoseAreIds(one: Covered, which: Which, id: string)
    requires id in Those(one.product, one.releases, which)
    ensures id in IdsOf(one)
  {
    hide ProductID, Is;
    InThose(one.product, one.releases, which, id);
  }

  lemma IssueStatesOnlyItsOwn(one: Covered)
    ensures StatesOnly(VulnerabilityOf(one.product, one.shown, one.releases), IdsOf(one))
  {
    hide AddingAll, Those, IdsOf;
    DraftTells(one.product, one.shown, one.releases);
    var v := VulnerabilityOf(one.product, one.shown, one.releases);
    var d := v.draft;
    forall which: Which, id | id in Those(one.product, one.releases, which) ensures id in IdsOf(one) {
      ThoseAreIds(one, which, id);
    }
    forall k | 0 <= k < |v.remediations|
      ensures v.remediations[k].releases == d.fixable || v.remediations[k].releases == d.unfixed
           || exists g :: 0 <= g < |d.mitigations| && v.remediations[k].releases == d.mitigations[g].releases
    {
      if v.remediations[k].category == Mitigating {
        var g := k - (if d.fixable == [] then 1 else 2);
        assert v.remediations[k].releases == d.mitigations[g].releases;
      }
    }
  }

  /** Over any covered issues: the tree defines exactly the identifiers of the releases covered, each
      once, one branch to a product; and every identifier a vulnerability states is among them. */
  lemma {:induction false} EveryIdentifierDefinedOnce(issues: seq<Covered>)
    ensures var a := CoveringAll(issues);
            && TreeSound(a) && a.seen == AllIds(issues)
            && |a.vulnerabilities| == |issues|
            && forall k :: 0 <= k < |issues| ==>
                 a.vulnerabilities[k] == VulnerabilityOf(issues[k].product, issues[k].shown, issues[k].releases)
                 && StatesOnly(a.vulnerabilities[k], a.seen)
  {
    hide TreeSound, VulnerabilityOf, PlacingAll, IdsOf, StatesOnly;
    if issues == [] {
      EmptyTreeIsSound();
    } else {
      var n := |issues| - 1;
      EveryIdentifierDefinedOnce(issues[..n]);
      var a, one := CoveringAll(issues[..n]), issues[n];
      CoveringIsSound(a, one);
      IssueStatesOnlyItsOwn(one);
      forall k | 0 <= k < |issues| ensures StatesOnly(CoveringAll(issues).vulnerabilities[k], CoveringAll(issues).seen) {
        if k < n {
          StatesOnlyMore(a.vulnerabilities[k], a.seen, CoveringAll(issues).seen);
        } else {
          StatesOnlyMore(CoveringAll(issues).vulnerabilities[k], IdsOf(one), CoveringAll(issues).seen);
        }
      }
    }
  }

  lemma EmptyTreeIsSound()
    ensures TreeSound(EMPTY) && EMPTY.seen == {}
  {}

  lemma StatesOnlyMore(v: Vulnerability, ids: set<string>, more: set<string>)
    requires StatesOnly(v, ids) && ids <= more
    ensures StatesOnly(v, more)
  {}

  lemma CoveringIsSound(a: Assembly, one: Covered)
    requires TreeSound(a)
    ensures TreeSound(Covering(a, one)) && Covering(a, one).seen == a.seen + IdsOf(one)
  {
    hide PlacingAll, ProductID, VulnerabilityOf;
    PlacingAllIsSound(a, one, |one.releases|);
    var b := PlacingAll(a, one, |one.releases|);
    assert forall id, i: nat, j: nat :: DefinedAt(Covering(a, one), id, i, j) <==> DefinedAt(b, id, i, j);
  }
}
