/** What a document states about each release of each issue it covers, and the product tree it
    defines them in (internal/advisory/cover.go:129-267, content.go:339-406, release.go:95-137). */
module Documents {
  import opened Common

  datatype Outcome = NotApplicable | Mismatched | AlreadyFixed | WontFix | OtherOutcome

  datatype Grounds = Grounds(outcome: Outcome, reason: string, mitigation: string)

  /** One build of the product and where it stands on the issue. */
  datatype Release = Release(branchOrTag: string, variant: string, holds: bool, grounds: Option<Grounds>, overridden: bool)

  datatype Status = KnownAffected | KnownNotAffected | Fixed

  function Decided(r: Release): Status {
    if !r.holds then Fixed
    else if r.grounds.None? then KnownAffected
    else if r.grounds.value.outcome in {NotApplicable, Mismatched} && r.grounds.value.reason != "" then KnownNotAffected
    else if r.grounds.value.outcome == AlreadyFixed then Fixed
    else KnownAffected
  }

  function StatusOf(r: Release): Status {
    if r.overridden && r.holds then KnownAffected else Decided(r)
  }

  predicate NoFixPlanned(r: Release) {
    r.holds && r.grounds.Some? && r.grounds.value.outcome == WontFix
  }

  function Reason(r: Release): string {
    if r.grounds.Some? then r.grounds.value.reason else ""
  }

  function Mitigation(r: Release): string {
    if r.grounds.Some? then r.grounds.value.mitigation else ""
  }

  function Name(r: Release): string {
    r.branchOrTag + " (" + r.variant + ")"
  }

  /** The identifier statements refer to a release by. */
  function ProductID(product: string, r: Release): string {
    product + ":" + r.branchOrTag + ":" + r.variant
  }

  // ----- What one issue states -----

  /** Releases stated together under one text: a flag, an impact, or a mitigation. */
  datatype Stated = Stated(text: string, releases: seq<string>)

  function Joining(groups: seq<Stated>, text: string, id: string): seq<Stated> {
    if groups == [] then [Stated(text, [id])]
    else if groups[0].text == text then [Stated(text, groups[0].releases + [id])] + groups[1..]
    else [groups[0]] + Joining(groups[1..], text, id)
  }

  datatype Draft = Draft(affected: seq<string>, notAffected: seq<string>, fixed: seq<string>,
                         flags: seq<Stated>, threats: seq<Stated>, rated: seq<string>,
                         fixable: seq<string>, unfixed: seq<string>, mitigations: seq<Stated>, fixedNames: seq<string>)

  const BLANK := Draft([], [], [], [], [], [], [], [], [], [])

  /** What one more release adds. */
  function Adding(d: Draft, product: string, shown: string, r: Release): Draft {
    var id := ProductID(product, r);
    match StatusOf(r)
    case KnownNotAffected =>
      d.(notAffected := d.notAffected + [id],
         flags := Joining(d.flags, Reason(r), id),
         threats := if Mitigation(r) != "" then Joining(d.threats, Mitigation(r), id) else d.threats)
    case Fixed =>
      d.(fixed := d.fixed + [id], rated := d.rated + [id], fixedNames := d.fixedNames + [shown + " " + Name(r)])
    case KnownAffected =>
      if NoFixPlanned(r) then
        d.(affected := d.affected + [id], rated := d.rated + [id], unfixed := d.unfixed + [id],
           mitigations := if Mitigation(r) != "" then Joining(d.mitigations, Mitigation(r), id) else d.mitigations)
      else
        d.(affected := d.affected + [id], rated := d.rated + [id], fixable := d.fixable + [id])
  }

  function AddingAll(product: string, shown: string, releases: seq<Release>): Draft
    decreases |releases|
  {
    if releases == [] then BLANK
    else Adding(AddingAll(product, shown, releases[..|releases| - 1]), product, shown, releases[|releases| - 1])
  }

  datatype Category = VendorFix | NoneAvailable | NoFix | Mitigating

  datatype Remediation = Remediation(category: Category, details: string, releases: seq<string>)

  function Listing(names: seq<string>): string {
    if names == [] then [] else if |names| == 1 then names[0] else names[0] + ", " + Listing(names[1..])
  }

  function MitigatingAll(groups: seq<Stated>): (r: seq<Remediation>)
    ensures |r| == |groups|
    ensures forall i :: 0 <= i < |r| ==> r[i] == Remediation(Mitigating, groups[i].text, groups[i].releases)
  {
    seq(|groups|, i requires 0 <= i < |groups| => Remediation(Mitigating, groups[i].text, groups[i].releases))
  }

  function RemediationsFor(d: Draft): seq<Remediation> {
    (if d.fixable == [] then []
     else if d.fixedNames != [] then
       [Remediation(VendorFix, "Update to a release in which this flaw is fixed: " + Listing(d.fixedNames) + ".", d.fixable)]
     else [Remediation(NoneAvailable, "No release fixing this is available.", d.fixable)])
    + if d.unfixed == [] then []
      else [Remediation(NoFix, "No fix is planned for this release.", d.unfixed)] + MitigatingAll(d.mitigations)
  }

  /** One issue's entry among the vulnerabilities. */
  datatype Vulnerability = Vulnerability(draft: Draft, remediations: seq<Remediation>)

  function VulnerabilityOf(product: string, shown: string, releases: seq<Release>): Vulnerability {
    var d := AddingAll(product, shown, releases);
    Vulnerability(d, RemediationsFor(d))
  }

  // ----- The product tree -----

  datatype Leaf = Leaf(version: string, name: string, id: string)

  datatype Branch = Branch(shown: string, leaves: seq<Leaf>)

  /** One issue in one product: the product's name, the name it is shown by, and its releases. */
  datatype Covered = Covered(product: string, shown: string, releases: seq<Release>)

  datatype Assembly = Assembly(products: seq<Branch>, at: map<string, nat>, seen: set<string>,
                               vulnerabilities: seq<Vulnerability>)

  const EMPTY := Assembly([], map[], {}, [])

  function LeafOf(one: Covered, r: Release): Leaf {
    Leaf(Name(r), one.shown + " " + Name(r), ProductID(one.product, r))
  }

  /** Every product already placed is placed within the tree. */
  predicate Placed(a: Assembly) {
    forall p :: p in a.at ==> a.at[p] < |a.products|
  }

  /** Record one release under its product's branch, once. */
  function Placing(a: Assembly, one: Covered, r: Release): (b: Assembly)
    requires Placed(a)
    ensures Placed(b) && b.vulnerabilities == a.vulnerabilities
  {
    var leaf := LeafOf(one, r);
    var b := if one.product in a.at then a
             else a.(products := a.products + [Branch(one.shown, [])], at := a.at[one.product := |a.products|]);
    var i := b.at[one.product];
    if leaf.id in b.seen then b
    else b.(seen := b.seen + {leaf.id}, products := b.products[i := Branch(b.products[i].shown, b.products[i].leaves + [leaf])])
  }

  function PlacingAll(a: Assembly, one: Covered, upto: nat): (b: Assembly)
    requires Placed(a) && upto <= |one.releases|
    ensures Placed(b) && b.vulnerabilities == a.vulnerabilities
  {
    if upto == 0 then a else Placing(PlacingAll(a, one, upto - 1), one, one.releases[upto - 1])
  }

  function Covering(a: Assembly, one: Covered): (b: Assembly)
    requires Placed(a)
    ensures Placed(b)
  {
    var b := PlacingAll(a, one, |one.releases|);
    b.(vulnerabilities := b.vulnerabilities + [VulnerabilityOf(one.product, one.shown, one.releases)])
  }

  function CoveringAll(issues: seq<Covered>): (a: Assembly)
    ensures Placed(a)
    decreases |issues|
  {
    if issues == [] then EMPTY else Covering(CoveringAll(issues[..|issues| - 1]), issues[|issues| - 1])
  }
}
