/** Across the products a document covers: when releases share an identifier, and when the product tree
    defines each release as itself (internal/advisory/cover.go:199-224, release.go:104-110). */
module ProductTree {
  import opened Common
  import opened Text
  import opened Documents
  import opened DocumentsTheorems

  // ----- Identifiers across products -----

  lemma IDIsJoined(product: string, r: Release)
    ensures ProductID(product, r) == Join([product, r.branchOrTag, r.variant], ":")
  {
    JoinFirst(product, [r.branchOrTag, r.variant], ":");
    JoinFirst(r.branchOrTag, [r.variant], ":");
    assert [product] + [r.branchOrTag, r.variant] == [product, r.branchOrTag, r.variant];
    assert [r.branchOrTag] + [r.variant] == [r.branchOrTag, r.variant];
  }

  /** What stands between the colons of a release's identifier. */
  function Fragments(product: string, r: Release): seq<string> {
    Split(product, ':') + Split(r.branchOrTag, ':') + Split(r.variant, ':')
  }

  /** Releases of any products share an identifier exactly when the same stands between the colons of
      product, branch and variant, in order; without colons in products and branches, exactly when
      all three are the same. */
  lemma SharedAcrossExactlyWhen(p: string, a: Release, q: string, b: Release)
    ensures ProductID(p, a) == ProductID(q, b) <==> Fragments(p, a) == Fragments(q, b)
    ensures ':' !in p && ':' !in q && ':' !in a.branchOrTag && ':' !in b.branchOrTag ==>
              (ProductID(p, a) == ProductID(q, b)
               <==> p == q && a.branchOrTag == b.branchOrTag && a.variant == b.variant)
  {
    hide ProductID;
    IDIsJoined(p, a);
    IDIsJoined(q, b);
    JoinedAlike([p, a.branchOrTag, a.variant], [q, b.branchOrTag, b.variant], ':');
    PiecesOfThree(p, a.branchOrTag, a.variant);
    PiecesOfThree(q, b.branchOrTag, b.variant);
    if ':' !in p && ':' !in q && ':' !in a.branchOrTag && ':' !in b.branchOrTag {
      PlainFragments(p, a);
      PlainFragments(q, b);
      SameFragments(p, a.branchOrTag, Split(a.variant, ':'), q, b.branchOrTag, Split(b.variant, ':'));
      JoinUndoesSplit(a.variant, ':');
      JoinUndoesSplit(b.variant, ':');
    }
  }

  lemma PiecesOfThree(x: string, y: string, z: string)
    ensures Pieces([x, y, z], ':') == Split(x, ':') + Split(y, ':') + Split(z, ':')
  {
    hide Split;
    assert [x, y, z][1..] == [y, z] && [y, z][1..] == [z] && [z][1..] == [];
    assert Pieces([z], ':') == Split(z, ':');
    assert Pieces([y, z], ':') == Split(y, ':') + Split(z, ':');
  }

  lemma PlainFragments(product: string, r: Release)
    requires ':' !in product && ':' !in r.branchOrTag
    ensures Fragments(product, r) == [product, r.branchOrTag] + Split(r.variant, ':')
  {
    SplitNone(product, ':');
    SplitNone(r.branchOrTag, ':');
  }

  lemma SameFragments(p: string, x: string, rest: seq<string>, q: string, y: string, rest': seq<string>)
    ensures [p, x] + rest == [q, y] + rest' <==> p == q && x == y && rest == rest'
  {
    var a, b := [p, x] + rest, [q, y] + rest';
    if a == b { assert a[0] == p && a[1] == x && a[2..] == rest && b[0] == q && b[1] == y && b[2..] == rest'; }
  }

  // ----- Every release defined as itself -----

  ghost predicate CoversRelease(issues: seq<Covered>, k: nat, i: nat) {
    k < |issues| && i < |issues[k].releases|
  }

  /** A product is shown by one name. */
  ghost predicate OneShownEach(issues: seq<Covered>) {
    forall j, k :: 0 <= j < |issues| && 0 <= k < |issues| && issues[j].product == issues[k].product ==>
      issues[j].shown == issues[k].shown
  }

  ghost predicate NamedAlike(one: Covered, r: Release, other: Covered, s: Release) {
    one.product == other.product && r.branchOrTag == s.branchOrTag && r.variant == s.variant
  }

  /** Only one and the same release of one product carries an identifier. */
  ghost predicate IdentifiersTell(issues: seq<Covered>) {
    forall j: nat, i: nat, k: nat, l: nat ::
      (CoversRelease(issues, j, i) && CoversRelease(issues, k, l)
       && ProductID(issues[j].product, issues[j].releases[i]) == ProductID(issues[k].product, issues[k].releases[l])) ==>
        NamedAlike(issues[j], issues[j].releases[i], issues[k], issues[k].releases[l])
  }

  /** The release is defined by its own name under its own product's branch. */
  ghost predicate DefinedAsItself(a: Assembly, one: Covered, r: Release) {
    && one.product in a.at && a.at[one.product] < |a.products|
    && a.products[a.at[one.product]].shown == one.shown
    && LeafOf(one, r) in a.products[a.at[one.product]].leaves
  }

  ghost predicate EachDefinedAsItself(a: Assembly, issues: seq<Covered>) {
    forall k: nat, i: nat :: CoversRelease(issues, k, i) ==> DefinedAsItself(a, issues[k], issues[k].releases[i])
  }

  /** A leaf of a product's branch is that of some release covered in the product. */
  ghost predicate LeafFrom(issues: seq<Covered>, product: string, leaf: Leaf) {
    exists k: nat, i: nat :: CoversRelease(issues, k, i) && issues[k].product == product
                          && leaf == LeafOf(issues[k], issues[k].releases[i])
  }

  ghost predicate BranchFrom(issues: seq<Covered>, product: string, branch: Branch) {
    && (exists k: nat :: k < |issues| && issues[k].product == product && issues[k].shown == branch.shown)
    && (forall j :: 0 <= j < |branch.leaves| ==> LeafFrom(issues, product, branch.leaves[j]))
  }

  ghost predicate Branches(a: Assembly, b: nat) {
    exists p :: p in a.at && a.at[p] == b
  }

  /** Every branch is a product's, and holds leaves of its releases alone. */
  ghost predicate OwnBranches(a: Assembly, issues: seq<Covered>) {
    && Placed(a)
    && (forall b :: 0 <= b < |a.products| ==> Branches(a, b))
    && (forall p :: p in a.at ==> BranchFrom(issues, p, a.products[a.at[p]]))
  }

  lemma PlacingKeepsOwn(a: Assembly, issues: seq<Covered>, k: nat, i: nat)
    requires TreeSound(a) && OwnBranches(a, issues) && CoversRelease(issues, k, i)
    ensures OwnBranches(Placing(a, issues[k], issues[k].releases[i]), issues)
  {
    hide ProductID, Name, TreeSound;
    var one, leaf := issues[k], LeafOf(issues[k], issues[k].releases[i]);
    var mid, b := Branched(a, one), Placing(a, one, issues[k].releases[i]);
    BranchingKeepsOwn(a, issues, k);
    BranchingIsSound(a, one);
    if leaf.id !in mid.seen {
      var at := mid.at[one.product];
      var was := mid.products[at];
      var branch := Branch(was.shown, was.leaves + [leaf]);
      assert b.products == mid.products[at := branch] && b.at == mid.at;
      assert LeafFrom(issues, one.product, leaf);
      assert BranchFrom(issues, one.product, branch) by {
        assert BranchFrom(issues, one.product, was);
      }
      OwnAt(mid, b, issues, one.product, branch);
    }
  }

  lemma OwnAt(a: Assembly, b: Assembly, issues: seq<Covered>, product: string, branch: Branch)
    requires TreeSound(a) && OwnBranches(a, issues) && product in a.at && BranchFrom(issues, product, branch)
    requires b.at == a.at && b.products == a.products[a.at[product] := branch]
    ensures OwnBranches(b, issues)
  {
    hide BranchFrom;
    forall n | 0 <= n < |b.products| ensures Branches(b, n) {
      assert Branches(a, n);
      var p :| p in a.at && a.at[p] == n;
      assert b.at[p] == n;
    }
    forall p | p in b.at ensures BranchFrom(issues, p, b.products[b.at[p]]) {
      if p != product { assert a.at[p] != a.at[product]; }
    }
  }

  lemma BranchingKeepsOwn(a: Assembly, issues: seq<Covered>, k: nat)
    requires OwnBranches(a, issues) && k < |issues|
    ensures OwnBranches(Branched(a, issues[k]), issues)
  {
    hide LeafFrom;
    var b, p := Branched(a, issues[k]), issues[k].product;
    if p !in a.at {
      assert BranchFrom(issues, p, Branch(issues[k].shown, []));
      forall n | 0 <= n < |b.products| ensures Branches(b, n) {
        if n < |a.products| {
          assert Branches(a, n);
          var q :| q in a.at && a.at[q] == n;
          assert b.at[q] == n;
        } else {
          assert b.at[p] == n;
        }
      }
    }
  }

  lemma {:induction false} PlacingAllKeepsOwn(a: Assembly, issues: seq<Covered>, k: nat, upto: nat)
    requires Placed(a) && TreeSound(a) && OwnBranches(a, issues) && k < |issues| && upto <= |issues[k].releases|
    ensures OwnBranches(PlacingAll(a, issues[k], upto), issues)
  {
    hide TreeSound, OwnBranches, Placing;
    if upto > 0 {
      PlacingAllKeepsOwn(a, issues, k, upto - 1);
      PlacingAllIsSound(a, issues[k], upto - 1);
      PlacingKeepsOwn(PlacingAll(a, issues[k], upto - 1), issues, k, upto - 1);
    }
  }

  lemma {:induction false} CoveringAllIsOwn(issues: seq<Covered>, n: nat)
    requires n <= |issues|
    ensures OwnBranches(CoveringAll(issues[..n]), issues)
  {
    hide TreeSound, PlacingAll, VulnerabilityOf, BranchFrom, StatesOnly, OwnBranches;
    if n == 0 {
      assert issues[..n] == [];
      NothingIsOwn(issues);
    } else {
      assert issues[..n][..n - 1] == issues[..n - 1] && issues[..n][n - 1] == issues[n - 1];
      CoveringAllIsOwn(issues, n - 1);
      EveryIdentifierDefinedOnce(issues[..n - 1]);
      var a := CoveringAll(issues[..n - 1]);
      PlacingAllKeepsOwn(a, issues, n - 1, |issues[n - 1].releases|);
      SameTreeIsOwn(PlacingAll(a, issues[n - 1], |issues[n - 1].releases|), CoveringAll(issues[..n]), issues);
    }
  }

  lemma NothingIsOwn(issues: seq<Covered>)
    ensures OwnBranches(EMPTY, issues)
  {}

  lemma SameTreeIsOwn(a: Assembly, b: Assembly, issues: seq<Covered>)
    requires OwnBranches(a, issues) && b.products == a.products && b.at == a.at
    ensures OwnBranches(b, issues)
  {
    hide BranchFrom;
    forall n | 0 <= n < |b.products| ensures Branches(b, n) { assert Branches(a, n); }
  }

  lemma {:induction false} InAllIds(issues: seq<Covered>, k: nat, i: nat)
    requires CoversRelease(issues, k, i)
    ensures ProductID(issues[k].product, issues[k].releases[i]) in AllIds(issues)
  {
    hide ProductID;
    var n := |issues| - 1;
    if k < n { InAllIds(issues[..n], k, i); }
  }

  /** Each release covered is defined as itself, once, under its own product's branch, exactly when no
      two different ones share an identifier. */
  lemma DefinedAsItselfExactlyWhen(issues: seq<Covered>)
    requires OneShownEach(issues)
    ensures EachDefinedAsItself(CoveringAll(issues), issues) <==> IdentifiersTell(issues)
  {
    hide ProductID, TreeSound, OwnBranches, CoveringAll, StatesOnly, VulnerabilityOf, AllIds, DefinedAsItself, NamedAlike, LeafOf;
    var a := CoveringAll(issues);
    EveryIdentifierDefinedOnce(issues);
    assert issues[..|issues|] == issues;
    CoveringAllIsOwn(issues, |issues|);
    if IdentifiersTell(issues) {
      forall k: nat, i: nat | CoversRelease(issues, k, i) ensures DefinedAsItself(a, issues[k], issues[k].releases[i]) {
        InAllIds(issues, k, i);
        FoundAsItself(a, issues, k, i);
      }
    }
    if EachDefinedAsItself(a, issues) {
      forall j: nat, i: nat, k: nat, l: nat | CoversRelease(issues, j, i) && CoversRelease(issues, k, l)
        && ProductID(issues[j].product, issues[j].releases[i]) == ProductID(issues[k].product, issues[k].releases[l])
        ensures NamedAlike(issues[j], issues[j].releases[i], issues[k], issues[k].releases[l])
      {
        assert DefinedAsItself(a, issues[j], issues[j].releases[i]);
        ToldApart(a, issues[j], issues[j].releases[i], issues[k], issues[k].releases[l]);
      }
    }
  }

  lemma FoundAsItself(a: Assembly, issues: seq<Covered>, k: nat, i: nat)
    requires TreeSound(a) && OwnBranches(a, issues) && OneShownEach(issues) && IdentifiersTell(issues) && CoversRelease(issues, k, i)
    requires ProductID(issues[k].product, issues[k].releases[i]) in a.seen
    ensures DefinedAsItself(a, issues[k], issues[k].releases[i])
  {
    hide ProductID, Name, OneShownEach, IdentifiersTell;
    var one, r := issues[k], issues[k].releases[i];
    var id := ProductID(one.product, r);
    var b: nat, j: nat :| DefinedAt(a, id, b, j);
    assert Branches(a, b);
    var p :| p in a.at && a.at[p] == b;
    assert BranchFrom(issues, p, a.products[b]);
    assert LeafFrom(issues, p, a.products[b].leaves[j]);
    var k': nat, i': nat :| CoversRelease(issues, k', i') && issues[k'].product == p
                         && a.products[b].leaves[j] == LeafOf(issues[k'], issues[k'].releases[i']);
    SameLeaf(issues, k, i, k', i');
    var n: nat :| n < |issues| && issues[n].product == p && issues[n].shown == a.products[b].shown;
    ShownAlike(issues, k, n);
  }

  lemma ShownAlike(issues: seq<Covered>, k: nat, n: nat)
    requires OneShownEach(issues) && k < |issues| && n < |issues| && issues[k].product == issues[n].product
    ensures issues[k].shown == issues[n].shown
  {}

  lemma SameLeaf(issues: seq<Covered>, k: nat, i: nat, k': nat, i': nat)
    requires OneShownEach(issues) && IdentifiersTell(issues) && CoversRelease(issues, k, i) && CoversRelease(issues, k', i')
    requires LeafOf(issues[k'], issues[k'].releases[i']).id == ProductID(issues[k].product, issues[k].releases[i])
    ensures issues[k'].product == issues[k].product
    ensures LeafOf(issues[k'], issues[k'].releases[i']) == LeafOf(issues[k], issues[k].releases[i])
  {
    hide ProductID;
    assert NamedAlike(issues[k], issues[k].releases[i], issues[k'], issues[k'].releases[i']);
  }

  /** A leaf says the release's branch and variant, after the product's name where a reader is shown it,
      and carries its identifier. */
  lemma LeafMeans(one: Covered, r: Release)
    ensures LeafOf(one, r).version == r.branchOrTag + " (" + r.variant + ")"
    ensures LeafOf(one, r).name == one.shown + " " + (r.branchOrTag + " (" + r.variant + ")")
    ensures LeafOf(one, r).id == one.product + ":" + r.branchOrTag + ":" + r.variant
  {}

  /** Two releases defined as themselves under one identifier are one release. */
  lemma ToldApart(a: Assembly, one: Covered, r: Release, other: Covered, s: Release)
    requires TreeSound(a) && DefinedAsItself(a, one, r) && DefinedAsItself(a, other, s)
    requires ProductID(one.product, r) == ProductID(other.product, s)
    ensures NamedAlike(one, r, other, s)
  {
    hide Name, ProductID;
    var id, b, c := ProductID(one.product, r), a.at[one.product], a.at[other.product];
    var j :| 0 <= j < |a.products[b].leaves| && a.products[b].leaves[j] == LeafOf(one, r);
    var l :| 0 <= l < |a.products[c].leaves| && a.products[c].leaves[l] == LeafOf(other, s);
    assert DefinedAt(a, id, b, j) && DefinedAt(a, id, c, l);
    assert LeafOf(one, r) == LeafOf(other, s);
    NamesTell(one.product, r, s);
  }

  /** Of one product, a name and an identifier together tell the release. */
  lemma NamesTell(product: string, a: Release, b: Release)
    requires ProductID(product, a) == ProductID(product, b) && Name(a) == Name(b)
    ensures a.branchOrTag == b.branchOrTag && a.variant == b.variant
  {
    hide ProductID, Name;
    if |a.branchOrTag| <= |b.branchOrTag| { NamesTellOnwards(product, a, b); } else { NamesTellOnwards(product, b, a); }
  }

  lemma NamesTellOnwards(product: string, a: Release, b: Release)
    requires ProductID(product, a) == ProductID(product, b) && Name(a) == Name(b) && |a.branchOrTag| <= |b.branchOrTag|
    ensures a.branchOrTag == b.branchOrTag && a.variant == b.variant
  {
    hide ProductID;
    SharingIsSliding(product, a, b);
    if Slides(a, b) {
      var x :| b.branchOrTag == a.branchOrTag + ":" + x && a.variant == x + ":" + b.variant;
      SlidingRenames(a, b, x);
    }
  }

  lemma SlidingRenames(a: Release, b: Release, x: string)
    requires b.branchOrTag == a.branchOrTag + ":" + x
    ensures Name(a) != Name(b)
  {
    assert Name(a)[|a.branchOrTag|] == ' ' && Name(b)[|a.branchOrTag|] == ':';
  }

  ghost predicate NoColons(issues: seq<Covered>) {
    forall k: nat, i: nat :: CoversRelease(issues, k, i) ==> ':' !in issues[k].product && ':' !in issues[k].releases[i].branchOrTag
  }

  /** Without colons in products and branches, always. */
  lemma WithoutColonsEachIsItself(issues: seq<Covered>)
    requires OneShownEach(issues) && NoColons(issues)
    ensures EachDefinedAsItself(CoveringAll(issues), issues)
  {
    hide EachDefinedAsItself, CoveringAll, ProductID, Fragments;
    forall j: nat, i: nat, k: nat, l: nat | CoversRelease(issues, j, i) && CoversRelease(issues, k, l)
      && ProductID(issues[j].product, issues[j].releases[i]) == ProductID(issues[k].product, issues[k].releases[l])
      ensures NamedAlike(issues[j], issues[j].releases[i], issues[k], issues[k].releases[l])
    {
      SharedAcrossExactlyWhen(issues[j].product, issues[j].releases[i], issues[k].product, issues[k].releases[l]);
    }
    DefinedAsItselfExactlyWhen(issues);
  }

  const FIRST := Covered("p", "P", [Release("a", "b:v", true, None, false)])
  const SECOND := Covered("p:a", "Q", [Release("b", "v", false, None, false)])

  lemma OneIdentifier()
    ensures ProductID("p", FIRST.releases[0]) == "p:a:b:v" == ProductID("p:a", SECOND.releases[0])
  {}

  /** A colon in a product's name puts a release of one product in the place of another's: here the
      second product's branch is left empty, and its release is defined as the first one's. */
  lemma ColonsCanMisplace()
    ensures var a := CoveringAll([FIRST, SECOND]);
            && a.products == [Branch("P", [LeafOf(FIRST, FIRST.releases[0])]), Branch("Q", [])]
            && !DefinedAsItself(a, SECOND, SECOND.releases[0])
  {
    hide ProductID, VulnerabilityOf, Name, Placing;
    OneIdentifier();
    assert [FIRST, SECOND][..1] == [FIRST] && [FIRST][..0] == [];
    PlacingOne(EMPTY, FIRST);
    PlacingFirst(EMPTY, FIRST);
    var a := Covering(EMPTY, FIRST);
    PlacingOne(a, SECOND);
    PlacingFirst(a, SECOND);
    assert CoveringAll([FIRST]) == a && CoveringAll([FIRST, SECOND]) == Covering(a, SECOND);
  }

  /** The first release of a product opens its branch, and is in it unless its identifier was seen. */
  lemma PlacingFirst(a: Assembly, one: Covered)
    requires Placed(a) && |one.releases| == 1 && one.product !in a.at
    ensures var b, leaf := Placing(a, one, one.releases[0]), LeafOf(one, one.releases[0]);
            && b.at == a.at[one.product := |a.products|] && b.seen == a.seen + {leaf.id}
            && b.products == a.products + [Branch(one.shown, if leaf.id in a.seen then [] else [leaf])]
  {
    hide ProductID, Name;
    var b, leaf := Placing(a, one, one.releases[0]), LeafOf(one, one.releases[0]);
    var branch := Branch(one.shown, []);
    assert (a.products + [branch])[|a.products|] == branch && [] + [leaf] == [leaf];
    assert (a.products + [branch])[|a.products| := Branch(one.shown, [leaf])] == a.products + [Branch(one.shown, [leaf])];
    assert leaf.id in a.seen ==> a.seen + {leaf.id} == a.seen;
  }

  lemma PlacingOne(a: Assembly, one: Covered)
    requires Placed(a) && |one.releases| == 1
    ensures PlacingAll(a, one, 1) == Placing(a, one, one.releases[0])
  {
    assert PlacingAll(a, one, 0) == a;
  }
}
