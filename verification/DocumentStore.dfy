/** Assembling a document in place, as cover.go and content.go do: the assembly object's fields, and
    the loops that flag, state and remedy; each is proved to compute what Documents says. */
module DocumentStore {
  import opened Common
  import opened Documents
  import opened DocumentsTheorems

  /** Add a release to the group for its text, opening one where no release before it gave that text:
      the loop behind flags, impacts and mitigations alike. */
  method Join(groups: seq<Stated>, text: string, id: string) returns (joined: seq<Stated>)
    ensures joined == Joining(groups, text, id)
  {
    JoiningIs(groups, text, id);
    for i := 0 to |groups|
      invariant forall j :: 0 <= j < i ==> groups[j].text != text
    {
      if groups[i].text == text {
        assert GroupAt(groups, text) == i;
        return groups[i := Stated(text, groups[i].releases + [id])];
      }
    }
    joined := groups + [Stated(text, [id])];
  }

  /** The releases a decision says will not be fixed, and what stops the flaw in them. */
  class NoFixes {
    var releases: seq<string>
    var mitigations: seq<Stated>

    constructor ()
      ensures releases == [] && mitigations == []
    {
      releases, mitigations := [], [];
    }

    method Add(release: string, mitigation: string)
      modifies this
      ensures releases == old(releases) + [release]
      ensures mitigations == if mitigation == "" then old(mitigations) else Joining(old(mitigations), mitigation, release)
    {
      releases := releases + [release];
      if mitigation == "" {
        return;
      }
      mitigations := Join(mitigations, mitigation, release);
    }
  }

  method Remediate(d: Draft) returns (out: seq<Remediation>)
    ensures out == RemediationsFor(d)
  {
    hide Listing;
    out := [];
    if |d.fixable| == 0 {
    } else if |d.fixedNames| > 0 {
      out := [Remediation(VendorFix, "Update to a release in which this flaw is fixed: " + Listing(d.fixedNames) + ".", d.fixable)];
    } else {
      out := [Remediation(NoneAvailable, "No release fixing this is available.", d.fixable)];
    }
    if |d.unfixed| == 0 {
      assert out + [] == out;
      return;
    }
    ghost var first := out;
    ghost var none := [Remediation(NoFix, "No fix is planned for this release.", d.unfixed)];
    out := out + [Remediation(NoFix, "No fix is planned for this release.", d.unfixed)];
    for i := 0 to |d.mitigations|
      invariant out == first + none + MitigatingAll(d.mitigations)[..i]
    {
      out := out + [Remediation(Mitigating, d.mitigations[i].text, d.mitigations[i].releases)];
      assert MitigatingAll(d.mitigations)[..i + 1] == MitigatingAll(d.mitigations)[..i] + [MitigatingAll(d.mitigations)[i]];
    }
    assert MitigatingAll(d.mitigations)[..|d.mitigations|] == MitigatingAll(d.mitigations);
    assert out == first + (none + MitigatingAll(d.mitigations));
  }

  class Assembling {
    var products: seq<Branch>
    var at: map<string, nat>
    var seen: set<string>
    var vulnerabilities: seq<Vulnerability>
    var pointers: seq<string>
    var pointed: set<string>

    function Contents(): Assembly
      reads this
    {
      Assembly(products, at, seen, vulnerabilities)
    }

    ghost predicate Valid()
      reads this
    {
      Placed(Contents()) && Distinct(pointers) && pointed == Elements(pointers)
    }

    constructor ()
      ensures Valid() && Contents() == EMPTY && pointers == []
    {
      products, at, seen, vulnerabilities := [], map[], {}, [];
      pointers, pointed := [], {};
    }

    /** Record one release under its product's branch, once. */
    method Place(one: Covered, r: Release)
      requires Valid()
      modifies `products, `at, `seen
      ensures Valid() && Contents() == Placing(old(Contents()), one, r)
    {
      hide ProductID, Name;
      var leaf := LeafOf(one, r);
      if one.product !in at {
        products := products + [Branch(one.shown, [])];
        at := at[one.product := |products| - 1];
      }
      var place := at[one.product];
      if leaf.id in seen {
        return;
      }
      seen := seen + {leaf.id};
      products := products[place := Branch(products[place].shown, products[place].leaves + [leaf])];
    }

    /** What one issue in one product contributes to the document. */
    method Cover(one: Covered)
      requires Valid()
      modifies `products, `at, `seen, `vulnerabilities
      ensures Valid() && Contents() == Covering(old(Contents()), one)
    {
      hide ProductID, Name, StatusOf, NoFixPlanned, RemediationsFor, Placing;
      var d := BLANK;
      var unfixed := new NoFixes();
      var i := 0;
      assert one.releases[..0] == [];
      while i < |one.releases|
        modifies `products, `at, `seen, unfixed
        invariant 0 <= i <= |one.releases|
        invariant Valid() && Contents() == PlacingAll(old(Contents()), one, i)
        invariant d.(unfixed := unfixed.releases, mitigations := unfixed.mitigations)
                  == AddingAll(one.product, one.shown, one.releases[..i])
      {
        var release := one.releases[i];
        var id := ProductID(one.product, release);
        assert one.releases[..i + 1][..i] == one.releases[..i];
        Place(one, release);
        match StatusOf(release) {
          case KnownNotAffected =>
            var flags := Join(d.flags, Reason(release), id);
            var threats := d.threats;
            if Mitigation(release) != "" {
              threats := Join(d.threats, Mitigation(release), id);
            }
            d := d.(notAffected := d.notAffected + [id], flags := flags, threats := threats);
          case Fixed =>
            d := d.(fixed := d.fixed + [id], rated := d.rated + [id],
                    fixedNames := d.fixedNames + [one.shown + " " + Name(release)]);
          case KnownAffected =>
            d := d.(affected := d.affected + [id], rated := d.rated + [id]);
            if NoFixPlanned(release) {
              unfixed.Add(id, Mitigation(release));
            } else {
              d := d.(fixable := d.fixable + [id]);
            }
        }
        i := i + 1;
      }
      d := d.(unfixed := unfixed.releases, mitigations := unfixed.mitigations);
      assert one.releases[..|one.releases|] == one.releases;
      var remediations := Remediate(d);
      vulnerabilities := vulnerabilities + [Vulnerability(d, remediations)];
    }

    /** Add the addresses the document does not already carry. */
    method Point(addresses: seq<string>)
      requires Valid()
      modifies `pointers, `pointed
      ensures Valid() && old(pointers) <= pointers
      ensures Elements(pointers) == Elements(old(pointers)) + Elements(addresses)
    {
      for i := 0 to |addresses|
        invariant Distinct(pointers) && pointed == Elements(pointers) && old(pointers) <= pointers
        invariant Elements(pointers) == Elements(old(pointers)) + Elements(addresses[..i])
      {
        assert addresses[..i + 1] == addresses[..i] + [addresses[i]];
        if addresses[i] !in pointed {
          pointed := pointed + {addresses[i]};
          pointers := pointers + [addresses[i]];
        }
      }
      assert addresses[..|addresses|] == addresses;
    }
  }
}
