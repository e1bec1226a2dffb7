/** What a document states of each release, in the release's own fields (cover.go:129-197,
    content.go:339-406, release.go:95-137 of internal/advisory). */
module DocumentLaws {
  import opened Common
  import Text
  import opened Documents
  import opened DocumentsTheorems

  // ----- Where a release stands -----

  /** Decided not to be affected, with a reason, on an issue it holds and nobody marked it affected by. */
  ghost predicate StandsNotAffected(r: Release) {
    && r.holds && !r.overridden && r.grounds.Some?
    && (r.grounds.value.outcome == NotApplicable || r.grounds.value.outcome == Mismatched)
    && r.grounds.value.reason != ""
  }

  /** It does not hold the issue; or it was decided fixed already, and nobody marked it affected. */
  ghost predicate StandsFixed(r: Release) {
    !r.holds || (!r.overridden && r.grounds.Some? && r.grounds.value.outcome == AlreadyFixed)
  }

  /** It holds the issue, and is marked affected, or undecided, or decided any other way. */
  ghost predicate StandsAffected(r: Release) {
    && r.holds
    && (r.overridden || r.grounds.None?
        || (r.grounds.value.outcome != AlreadyFixed
            && ((r.grounds.value.outcome != NotApplicable && r.grounds.value.outcome != Mismatched)
                || r.grounds.value.reason == "")))
  }

  ghost predicate WontBeFixed(r: Release) {
    r.holds && r.grounds.Some? && r.grounds.value.outcome == WontFix
  }

  lemma StandingMeans(r: Release)
    ensures StatusOf(r) == KnownNotAffected <==> StandsNotAffected(r)
    ensures StatusOf(r) == Fixed <==> StandsFixed(r)
    ensures StatusOf(r) == KnownAffected <==> StandsAffected(r)
    ensures NoFixPlanned(r) <==> WontBeFixed(r)
    ensures r.grounds.Some? ==> Reason(r) == r.grounds.value.reason && Mitigation(r) == r.grounds.value.mitigation
    ensures r.grounds.None? ==> Mitigation(r) == ""
  {}

  // ----- What is stated of it -----

  ghost function Identifier(product: string, r: Release): string {
    product + ":" + r.branchOrTag + ":" + r.variant
  }

  ghost predicate IdentifiersApart(product: string, releases: seq<Release>) {
    forall i, j :: 0 <= i < j < |releases| ==> Identifier(product, releases[i]) != Identifier(product, releases[j])
  }

  ghost predicate Stating(groups: seq<Stated>, k: nat, id: string) {
    k < |groups| && id in groups[k].releases
  }

  /** The identifier is in one of the groups, the one of this text, and in no other. */
  ghost predicate StatedUnder(groups: seq<Stated>, id: string, text: string) {
    exists k: nat :: Stating(groups, k, id) && groups[k].text == text && forall j: nat :: Stating(groups, j, id) ==> j == k
  }

  ghost predicate NotStated(groups: seq<Stated>, id: string) {
    forall k: nat :: !Stating(groups, k, id)
  }

  lemma GroupsState(groups: seq<Stated>, product: string, releases: seq<Release>, kind: Kind, i: nat)
    requires IDsApart(product, releases) && i < |releases| && GroupsTell(groups, product, releases, kind)
    ensures var id, text := ProductID(product, releases[i]), TextOf(kind, releases[i]);
            if text.Some? then StatedUnder(groups, id, text.value) else NotStated(groups, id)
  {
    hide ProductID, TextOf, Those, IDsApart, Is;
    var id, text := ProductID(product, releases[i]), TextOf(kind, releases[i]);
    forall k: nat | k < |groups| ensures Stating(groups, k, id) <==> text == Some(groups[k].text) {
      InThoseAlone(product, releases, Under(kind, groups[k].text), i);
      TextIsWhich(kind, releases[i], groups[k].text);
    }
    if text.Some? {
      assert HasText(groups, text.value);
      var k :| 0 <= k < |groups| && groups[k].text == text.value;
      assert Stating(groups, k, id);
    }
  }

  /** Of a release's impact, its flag and its mitigation, exactly what its decision says. */
  lemma DecisionIsStated(product: string, shown: string, releases: seq<Release>, i: nat)
    requires IDsApart(product, releases) && i < |releases|
    ensures var d, id, r := AddingAll(product, shown, releases), ProductID(product, releases[i]), releases[i];
            && (if StandsNotAffected(r) then StatedUnder(d.flags, id, r.grounds.value.reason) else NotStated(d.flags, id))
            && (if StandsNotAffected(r) && r.grounds.value.mitigation != ""
                then StatedUnder(d.threats, id, r.grounds.value.mitigation) else NotStated(d.threats, id))
            && (if StandsAffected(r) && WontBeFixed(r) && r.grounds.value.mitigation != ""
                then StatedUnder(d.mitigations, id, r.grounds.value.mitigation) else NotStated(d.mitigations, id))
  {
    hide ProductID, AddingAll, StatusOf, NoFixPlanned, Those, StatedUnder, NotStated, IDsApart, GroupsTell;
    var d := AddingAll(product, shown, releases);
    DraftTells(product, shown, releases);
    StandingMeans(releases[i]);
    GroupsState(d.flags, product, releases, Flags, i);
    GroupsState(d.threats, product, releases, Impacts, i);
    GroupsState(d.mitigations, product, releases, Mitigations, i);
  }

  // ----- What its reader is told to do -----

  ghost predicate Telling(remedies: seq<Remediation>, k: nat, id: string, category: Category) {
    k < |remedies| && remedies[k].category == category && id in remedies[k].releases
  }

  /** The identifier is under one remediation of the category and under no second. */
  ghost predicate ToldOnce(remedies: seq<Remediation>, id: string, category: Category) {
    exists k: nat :: Telling(remedies, k, id, category) && forall j: nat :: Telling(remedies, j, id, category) ==> j == k
  }

  ghost predicate NotTold(remedies: seq<Remediation>, id: string, category: Category) {
    forall k: nat :: !Telling(remedies, k, id, category)
  }

  /** What an affected release is owed. */
  ghost predicate Due(releases: seq<Release>, r: Release, category: Category) {
    match category
    case NoFix => StandsAffected(r) && WontBeFixed(r)
    case VendorFix => StandsAffected(r) && !WontBeFixed(r) && SomeFixed(releases)
    case NoneAvailable => StandsAffected(r) && !WontBeFixed(r) && !SomeFixed(releases)
    case Mitigating => StandsAffected(r) && WontBeFixed(r) && r.grounds.value.mitigation != ""
  }

  ghost predicate SomeFixed(releases: seq<Release>) {
    exists i :: 0 <= i < |releases| && StandsFixed(releases[i])
  }

  lemma FixableOrNot(product: string, shown: string, releases: seq<Release>, i: nat)
    requires IDsApart(product, releases) && i < |releases|
    ensures var d, id, r := AddingAll(product, shown, releases), ProductID(product, releases[i]), releases[i];
            && (id in d.fixable <==> StandsAffected(r) && !WontBeFixed(r))
            && (id in d.unfixed <==> StandsAffected(r) && WontBeFixed(r))
            && (d.fixedNames != [] <==> SomeFixed(releases))
  {
    hide ProductID, AddingAll, StatusOf, NoFixPlanned, Those, IDsApart, GroupsTell;
    DraftTells(product, shown, releases);
    StandingMeans(releases[i]);
    InThoseAlone(product, releases, Fixable, i);
    InThoseAlone(product, releases, Unfixable, i);
    SomethingFixed(product, releases);
    forall j | 0 <= j < |releases| ensures StatusOf(releases[j]) == Fixed <==> StandsFixed(releases[j]) { StandingMeans(releases[j]); }
  }

  function AsMitigation(group: Stated): Remediation {
    Remediation(Mitigating, group.text, group.releases)
  }

  /** Where each remediation of a draft is. */
  lemma RemediesLie(d: Draft, id: string, k: nat)
    requires k < |RemediationsFor(d)|
    ensures var remedy, first := RemediationsFor(d)[k], if d.fixable == [] then 0 else 1;
            && (k < first ==> remedy.category == (if d.fixedNames != [] then VendorFix else NoneAvailable) && remedy.releases == d.fixable)
            && (k == first ==> d.unfixed != [] && remedy.category == NoFix && remedy.releases == d.unfixed)
            && (k > first ==> d.unfixed != [] && k - first - 1 < |d.mitigations|
                              && remedy == AsMitigation(d.mitigations[k - first - 1]))
  {}

  lemma RemediesCount(d: Draft)
    ensures |RemediationsFor(d)| ==
      (if d.fixable == [] then 0 else 1) + if d.unfixed == [] then 0 else 1 + |d.mitigations|
  {}

  lemma RemediesTell(d: Draft, id: string)
    requires id in d.fixable ==> id !in d.unfixed
    requires !NotStated(d.mitigations, id) ==> id in d.unfixed
    ensures var remedies := RemediationsFor(d);
            && (if id in d.fixable && d.fixedNames != [] then ToldOnce(remedies, id, VendorFix) else NotTold(remedies, id, VendorFix))
            && (if id in d.fixable && d.fixedNames == [] then ToldOnce(remedies, id, NoneAvailable) else NotTold(remedies, id, NoneAvailable))
            && (if id in d.unfixed then ToldOnce(remedies, id, NoFix) else NotTold(remedies, id, NoFix))
  {
    hide RemediationsFor;
    var remedies, first := RemediationsFor(d), if d.fixable == [] then 0 else 1;
    RemediesCount(d);
    forall k: nat | k < |remedies|
      ensures Telling(remedies, k, id, VendorFix) <==> k < first && d.fixedNames != [] && id in d.fixable
      ensures Telling(remedies, k, id, NoneAvailable) <==> k < first && d.fixedNames == [] && id in d.fixable
      ensures Telling(remedies, k, id, NoFix) <==> k == first && id in d.unfixed
    {
      RemediesLie(d, id, k);
    }
    if id in d.fixable {
      assert Telling(remedies, 0, id, if d.fixedNames != [] then VendorFix else NoneAvailable) by { RemediesLie(d, id, 0); }
    }
    if id in d.unfixed {
      assert Telling(remedies, first, id, NoFix) by { RemediesLie(d, id, first); }
    }
  }

  lemma MitigationsTell(d: Draft, id: string, text: string)
    requires d.unfixed != []
    requires StatedUnder(d.mitigations, id, text)
    ensures exists k: nat :: Telling(RemediationsFor(d), k, id, Mitigating) && RemediationsFor(d)[k].details == text
              && forall j: nat :: Telling(RemediationsFor(d), j, id, Mitigating) ==> j == k
  {
    hide RemediationsFor;
    var remedies, first := RemediationsFor(d), if d.fixable == [] then 0 else 1;
    RemediesCount(d);
    var g: nat :| Stating(d.mitigations, g, id) && d.mitigations[g].text == text
               && forall j: nat :: Stating(d.mitigations, j, id) ==> j == g;
    RemediesLie(d, id, first + 1 + g);
    assert Telling(remedies, first + 1 + g, id, Mitigating);
    forall j: nat | Telling(remedies, j, id, Mitigating) ensures j == first + 1 + g {
      RemediesLie(d, id, j);
      assert Stating(d.mitigations, j - first - 1, id);
    }
  }

  lemma NoMitigationTold(d: Draft, id: string)
    requires NotStated(d.mitigations, id)
    ensures NotTold(RemediationsFor(d), id, Mitigating)
  {
    hide RemediationsFor;
    var remedies, first := RemediationsFor(d), if d.fixable == [] then 0 else 1;
    forall j: nat ensures !Telling(remedies, j, id, Mitigating) {
      if j < |remedies| {
        RemediesLie(d, id, j);
        if j > first { assert !Stating(d.mitigations, j - first - 1, id); }
      }
    }
  }

  // ----- All of it together -----

  /** Releases under identifiers of their own: each stands affected, not affected or fixed as its own
      fields say and under no second; the not affected carry the one flag of their reason, and their
      mitigation as an impact; and each affected one is told exactly what it is owed. */
  lemma ReleaseIsStated(product: string, shown: string, releases: seq<Release>, i: nat)
    requires IdentifiersApart(product, releases) && i < |releases|
    ensures var v, id, r := VulnerabilityOf(product, shown, releases), Identifier(product, releases[i]), releases[i];
            && (id in v.draft.affected <==> StandsAffected(r))
            && (id in v.draft.notAffected <==> StandsNotAffected(r))
            && (id in v.draft.fixed <==> StandsFixed(r))
            && (id in v.draft.rated <==> !StandsNotAffected(r))
            && (if StandsNotAffected(r) then StatedUnder(v.draft.flags, id, r.grounds.value.reason) else NotStated(v.draft.flags, id))
            && (if StandsNotAffected(r) && r.grounds.value.mitigation != ""
                then StatedUnder(v.draft.threats, id, r.grounds.value.mitigation) else NotStated(v.draft.threats, id))
            && (forall category: Category ::
                  if Due(releases, r, category) then ToldOnce(v.remediations, id, category) else NotTold(v.remediations, id, category))
            && (Due(releases, r, Mitigating) ==>
                  exists k: nat :: Telling(v.remediations, k, id, Mitigating) && v.remediations[k].details == r.grounds.value.mitigation)
  {
    hide AddingAll, StatusOf, NoFixPlanned, Those, GroupsTell, RemediationsFor, Reason, Mitigation, StatedUnder, ToldOnce, NotTold,
         StandsNotAffected, StandsAffected, StandsFixed, WontBeFixed, SomeFixed;
    SameIdentifiers(product, releases);
    hide ProductID, Identifier, IDsApart;
    var d, id, r := AddingAll(product, shown, releases), Identifier(product, releases[i]), releases[i];
    DraftTells(product, shown, releases);
    StandingMeans(r);
    InThoseAlone(product, releases, Affected, i);
    InThoseAlone(product, releases, NotAffected, i);
    InThoseAlone(product, releases, FixedThere, i);
    InThoseAlone(product, releases, Rated, i);
    DecisionIsStated(product, shown, releases, i);
    FixableOrNot(product, shown, releases, i);
    OwedIsTold(d, releases, r, id);
  }

  lemma SameIdentifiers(product: string, releases: seq<Release>)
    ensures forall r :: ProductID(product, r) == Identifier(product, r)
    ensures IdentifiersApart(product, releases) ==> IDsApart(product, releases)
  {}

  lemma OwedIsTold(d: Draft, releases: seq<Release>, r: Release, id: string)
    requires id in d.fixable <==> StandsAffected(r) && !WontBeFixed(r)
    requires id in d.unfixed <==> StandsAffected(r) && WontBeFixed(r)
    requires d.fixedNames != [] <==> SomeFixed(releases)
    requires if Due(releases, r, Mitigating) then StatedUnder(d.mitigations, id, r.grounds.value.mitigation) else NotStated(d.mitigations, id)
    ensures forall category: Category ::
      if Due(releases, r, category) then ToldOnce(RemediationsFor(d), id, category) else NotTold(RemediationsFor(d), id, category)
    ensures Due(releases, r, Mitigating) ==>
      exists k: nat :: Telling(RemediationsFor(d), k, id, Mitigating) && RemediationsFor(d)[k].details == r.grounds.value.mitigation
  {
    hide RemediationsFor, SomeFixed, StandsAffected;
    RemediesTell(d, id);
    if Due(releases, r, Mitigating) {
      MitigationsTell(d, id, r.grounds.value.mitigation);
    } else {
      NoMitigationTold(d, id);
    }
  }

  // ----- The releases a fix is in -----

  /** The names of the releases that are fixed, as a reader is shown them. */
  ghost function FixedNames(shown: string, releases: seq<Release>): seq<string>
    decreases |releases|
  {
    if releases == [] then []
    else
      var n := |releases| - 1;
      FixedNames(shown, releases[..n])
        + if StandsFixed(releases[n])
          then [shown + " " + releases[n].branchOrTag + " (" + releases[n].variant + ")"] else []
  }

  lemma {:induction false} FixedAreNamed(product: string, shown: string, releases: seq<Release>)
    ensures AddingAll(product, shown, releases).fixedNames == FixedNames(shown, releases)
  {
    if releases != [] {
      var n := |releases| - 1;
      FixedAreNamed(product, shown, releases[..n]);
      StandingMeans(releases[n]);
      NameIs(shown, releases[n]);
    }
  }

  lemma NameIs(shown: string, r: Release)
    ensures shown + " " + Name(r) == shown + " " + r.branchOrTag + " (" + r.variant + ")"
  {
    var a, b := " (" + r.variant, ")";
    assert Name(r) == r.branchOrTag + a + b;
  }

  lemma {:induction false} ListingJoins(names: seq<string>)
    ensures Listing(names) == Text.Join(names, ", ")
  {
    if |names| > 1 { ListingJoins(names[1..]); }
  }

  /** What each remediation tells a reader: which releases have the fix, all of them in order; that there
      is none; or that none is planned. */
  lemma RemediesSay(product: string, shown: string, releases: seq<Release>, k: nat)
    requires k < |VulnerabilityOf(product, shown, releases).remediations|
    ensures var remedy := VulnerabilityOf(product, shown, releases).remediations[k];
            match remedy.category
            case VendorFix =>
              remedy.details ==
                "Update to a release in which this flaw is fixed: " + Text.Join(FixedNames(shown, releases), ", ") + "."
            case NoneAvailable => remedy.details == "No release fixing this is available."
            case NoFix => remedy.details == "No fix is planned for this release."
            case Mitigating =>
              exists r :: r in releases && r.grounds.Some? && remedy.details == r.grounds.value.mitigation != ""
  {
    hide AddingAll, FixedNames, Listing;
    var d := AddingAll(product, shown, releases);
    FixedAreNamed(product, shown, releases);
    ListingJoins(d.fixedNames);
    RemediesLie(d, "", k);
    var first := if d.fixable == [] then 0 else 1;
    if k <= first {
      TextsAre(d, k);
    } else {
      MitigationsAreTheirs(product, shown, releases, k - first - 1);
    }
  }

  lemma TextsAre(d: Draft, k: nat)
    requires k < |RemediationsFor(d)| && k <= if d.fixable == [] then 0 else 1
    ensures var remedy, first := RemediationsFor(d)[k], if d.fixable == [] then 0 else 1;
            remedy.details ==
              if k == first then "No fix is planned for this release."
              else if d.fixedNames == [] then "No release fixing this is available."
              else "Update to a release in which this flaw is fixed: " + Listing(d.fixedNames) + "."
  {}

  ghost predicate MitigatedIn(releases: seq<Release>, text: string) {
    exists r :: r in releases && r.grounds.Some? && r.grounds.value.mitigation == text != ""
  }

  lemma {:induction false} MitigationsAreTheirs(product: string, shown: string, releases: seq<Release>, g: nat)
    requires g < |AddingAll(product, shown, releases).mitigations|
    ensures MitigatedIn(releases, AddingAll(product, shown, releases).mitigations[g].text)
    decreases |releases|
  {
    var n := |releases| - 1;
    var before, r := AddingAll(product, shown, releases[..n]), releases[n];
    assert releases == releases[..n] + [r];
    JoiningKeepsTexts(before.mitigations, Mitigation(r), ProductID(product, r), g);
    if g < |before.mitigations| { MitigationsAreTheirs(product, shown, releases[..n], g); }
  }

  lemma {:induction false} JoiningKeepsTexts(groups: seq<Stated>, text: string, id: string, g: nat)
    ensures |groups| <= |Joining(groups, text, id)| <= |groups| + 1
    ensures g < |groups| ==> Joining(groups, text, id)[g].text == groups[g].text
    ensures |groups| <= g < |Joining(groups, text, id)| ==> Joining(groups, text, id)[g].text == text
  {
    if groups != [] && groups[0].text != text && g > 0 { JoiningKeepsTexts(groups[1..], text, id, g - 1); }
    if groups != [] && groups[0].text != text && g == 0 { JoiningKeepsTexts(groups[1..], text, id, 0); }
  }
}
