/** Who is asking and what they may reach: the subject and its questions, and the one rule for reading
    by visibility (internal/access/access.go). */
module Subjects {
  import opened Common
  import opened Roles

  datatype Visibility = Public | Private | SecurityTesting

  function Visibilities(): seq<Visibility> {
    [Public, Private, SecurityTesting]
  }

  datatype Kind = Person | Pipeline | Anonymous

  /** Who is asking. The scope of a pipeline's key is its product. */
  datatype Subject = Subject(kind: Kind, id: nat, admin: bool, audits: bool, grants: map<nat, seq<Role>>,
                             scope: Option<nat>, unnarrowed: bool, delegated: bool, party: nat, teams: seq<nat>,
                             cases: map<nat, seq<nat>>, codeFindings: map<nat, seq<string>>, casesReadOnly: bool,
                             published: set<nat>)

  function ReadRole(v: Visibility): Role {
    match v
    case Public => PublicRead
    case Private => PrivateRead
    case SecurityTesting => SecurityTestingRead
  }

  function TriageRole(v: Visibility): Role {
    match v
    case Public => PublicTriage
    case Private => PrivateTriage
    case SecurityTesting => SecurityTestingTriage
  }

  predicate Holds(s: Subject, role: Role, product: nat) {
    s.kind == Person && product in s.grants && role in s.grants[product]
  }

  predicate Reads(s: Subject, v: Visibility, product: nat) {
    if s.unnarrowed then true
    else if s.kind == Anonymous then v == Public && product in s.published
    else Holds(s, ReadRole(v), product) || Holds(s, TriageRole(v), product)
  }

  predicate ReadsIn(s: Subject, product: nat) {
    Reads(s, Public, product) || Reads(s, Private, product) || Reads(s, SecurityTesting, product)
  }

  predicate Triages(s: Subject, v: Visibility, product: nat) {
    s.kind == Person && Holds(s, TriageRole(v), product)
  }

  predicate Sees(s: Subject, product: nat) {
    if s.kind == Pipeline && s.scope.Some? then s.scope.value == product
    else if s.kind == Anonymous then product in s.published
    else if s.kind != Person then false
    else s.admin || s.unnarrowed || ReadsIn(s, product)
  }

  predicate OnCase(s: Subject, product: nat, issue: nat) {
    s.kind == Person && product in s.cases && issue in s.cases[product]
  }

  predicate OnCaseToAct(s: Subject, product: nat, issue: nat) {
    !s.casesReadOnly && OnCase(s, product, issue)
  }

  predicate OnCodeFinding(s: Subject, product: nat, occurrence: string) {
    s.kind == Person && product in s.codeFindings && occurrence in s.codeFindings[product]
  }

  predicate Reaches(s: Subject, product: nat) {
    Sees(s, product) || (product in s.cases && s.cases[product] != [])
  }

  predicate ReadsTheDeployment(s: Subject) {
    s.kind == Person && (s.admin || s.audits)
  }

  predicate Administering(s: Subject) {
    s.admin && s.kind == Person
  }

  /** The products whose findings are narrowed to, or everything. */
  function Products(s: Subject): Option<set<nat>> {
    if s.kind == Anonymous then Some(s.published)
    else if s.kind != Person then Some({})
    else if s.unnarrowed then None
    else Some(set p | p in s.grants && ReadsIn(s, p))
  }

  // ----- Narrowing a query by a rule -----

  /** The products a rule allows the same visibilities in. */
  datatype Group = Group(visibilities: seq<Visibility>, products: seq<nat>)

  function Allowed(allowed: (Visibility, nat) -> bool, product: nat): seq<Visibility> {
    (if allowed(Public, product) then [Public] else [])
    + (if allowed(Private, product) then [Private] else [])
    + (if allowed(SecurityTesting, product) then [SecurityTesting] else [])
  }

  function GroupAt(groups: seq<Group>, held: seq<Visibility>): (k: nat)
    ensures k <= |groups|
    ensures k < |groups| ==> groups[k].visibilities == held
    ensures forall j :: 0 <= j < k ==> groups[j].visibilities != held
  {
    if groups == [] || groups[0].visibilities == held then 0 else 1 + GroupAt(groups[1..], held)
  }

  function Splitting(groups: seq<Group>, product: nat, held: seq<Visibility>): seq<Group> {
    var k := GroupAt(groups, held);
    if held == [] then groups
    else if k == |groups| then groups + [Group(held, [product])]
    else groups[k := Group(held, groups[k].products + [product])]
  }

  function Split(products: seq<nat>, allowed: (Visibility, nat) -> bool): seq<Group>
    decreases |products|
  {
    if products == [] then []
    else
      var n := |products| - 1;
      Splitting(Split(products[..n], allowed), products[n], Allowed(allowed, products[n]))
  }

  /** One clause of the condition a query is narrowed by. */
  datatype Clause =
    | AnyVisibility(products: seq<nat>)
    | OneVisibility(products: seq<nat>, one: Visibility)
    | SomeVisibilities(products: seq<nat>, some: seq<Visibility>)

  function ClauseOf(g: Group): Clause {
    if |g.visibilities| == |Visibilities()| then AnyVisibility(g.products)
    else if |g.visibilities| == 1 then OneVisibility(g.products, g.visibilities[0])
    else SomeVisibilities(g.products, g.visibilities)
  }

  function VisibleWhere(groups: seq<Group>): (clauses: seq<Clause>)
    ensures |clauses| == |groups|
    ensures forall i :: 0 <= i < |groups| ==> clauses[i] == ClauseOf(groups[i])
  {
    seq(|groups|, i requires 0 <= i < |groups| => ClauseOf(groups[i]))
  }

  predicate Passes(c: Clause, product: nat, v: Visibility) {
    match c
    case AnyVisibility(products) => product in products
    case OneVisibility(products, one) => product in products && v == one
    case SomeVisibilities(products, some) => product in products && v in some
  }

  /** A condition of no clauses is one nothing satisfies. */
  predicate Satisfies(clauses: seq<Clause>, product: nat, v: Visibility) {
    exists i :: 0 <= i < |clauses| && Passes(clauses[i], product, v)
  }

  /** A clause passes exactly the products and visibilities of its group: the three visibilities are
      all there are, so a full group needs no test of them. */
  lemma ClauseMeansGroup(g: Group, allowed: (Visibility, nat) -> bool, like: nat, product: nat, v: Visibility)
    requires g.visibilities == Allowed(allowed, like) != []
    ensures Passes(ClauseOf(g), product, v) <==> product in g.products && v in g.visibilities
  {}

  ghost predicate Sorts(groups: seq<Group>, products: seq<nat>, allowed: (Visibility, nat) -> bool) {
    && (forall i :: 0 <= i < |groups| ==> groups[i].visibilities != [] && groups[i].products != [])
    && (forall i, p :: 0 <= i < |groups| && p in groups[i].products ==>
          p in products && groups[i].visibilities == Allowed(allowed, p))
    && (forall p :: p in products && Allowed(allowed, p) != [] ==> exists i :: 0 <= i < |groups| && p in groups[i].products)
    && (forall i, j :: 0 <= i < j < |groups| ==> groups[i].visibilities != groups[j].visibilities)
  }

  lemma SplittingSorts(groups: seq<Group>, products: seq<nat>, allowed: (Visibility, nat) -> bool, product: nat)
    requires Sorts(groups, products, allowed)
    ensures Sorts(Splitting(groups, product, Allowed(allowed, product)), products + [product], allowed)
  {
    hide Allowed;
    var held := Allowed(allowed, product);
    var after, k := Splitting(groups, product, held), GroupAt(groups, held);
    forall p | p in products + [product] && Allowed(allowed, p) != []
      ensures exists i :: 0 <= i < |after| && p in after[i].products
    {
      if p == product {
        assert product in after[k].products;
      } else {
        var i :| 0 <= i < |groups| && p in groups[i].products;
        assert p in after[i].products;
      }
    }
    forall i, p | 0 <= i < |after| && p in after[i].products
      ensures p in products + [product] && after[i].visibilities == Allowed(allowed, p)
    {
      if i < |groups| && p in groups[i].products {
      } else {
        assert p == product;
      }
    }
  }

  lemma {:induction false} SplitSorts(products: seq<nat>, allowed: (Visibility, nat) -> bool)
    ensures Sorts(Split(products, allowed), products, allowed)
  {
    if products != [] {
      var n := |products| - 1;
      SplitSorts(products[..n], allowed);
      SplittingSorts(Split(products[..n], allowed), products[..n], allowed, products[n]);
      assert products[..n] + [products[n]] == products;
    }
  }

  lemma AllowedMeans(allowed: (Visibility, nat) -> bool, product: nat, v: Visibility)
    ensures v in Allowed(allowed, product) <==> allowed(v, product)
  {}

  /** "May read" means one thing: the condition a query is narrowed by accepts a product and a
      visibility exactly when the product is listed and the rule allows it there. */
  lemma NarrowingMeansTheRule(products: seq<nat>, allowed: (Visibility, nat) -> bool, product: nat, v: Visibility)
    ensures Satisfies(VisibleWhere(Split(products, allowed)), product, v) <==> product in products && allowed(v, product)
  {
    hide Allowed, Split, Passes, ClauseOf;
    SplitSorts(products, allowed);
    AllowedMeans(allowed, product, v);
    var groups := Split(products, allowed);
    forall i | 0 <= i < |groups|
      ensures Passes(VisibleWhere(groups)[i], product, v) <==> product in groups[i].products && v in groups[i].visibilities
    {
      ClauseMeansGroup(groups[i], allowed, groups[i].products[0], product, v);
    }
    if product in products && allowed(v, product) {
      var i :| 0 <= i < |groups| && product in groups[i].products;
      assert Passes(VisibleWhere(groups)[i], product, v);
    }
  }

  function AllowedUpTo(allowed: (Visibility, nat) -> bool, product: nat, k: nat): seq<Visibility>
    requires k <= |Visibilities()|
  {
    if k == 0 then []
    else
      AllowedUpTo(allowed, product, k - 1)
      + if allowed(Visibilities()[k - 1], product) then [Visibilities()[k - 1]] else []
  }

  lemma AllowedUpToAll(allowed: (Visibility, nat) -> bool, product: nat)
    ensures AllowedUpTo(allowed, product, |Visibilities()|) == Allowed(allowed, product)
  {
    assert AllowedUpTo(allowed, product, 1) == if allowed(Public, product) then [Public] else [];
    assert AllowedUpTo(allowed, product, 2) == AllowedUpTo(allowed, product, 1) + if allowed(Private, product) then [Private] else [];
  }

  /** Sorting products into groups as the loop does it. */
  method SplitInLoop(products: seq<nat>, allowed: (Visibility, nat) -> bool) returns (groups: seq<Group>)
    ensures groups == Split(products, allowed)
  {
    groups := [];
    for i := 0 to |products|
      invariant groups == Split(products[..i], allowed)
    {
      assert products[..i + 1][..i] == products[..i];
      var held: seq<Visibility> := [];
      for k := 0 to |Visibilities()|
        invariant held == AllowedUpTo(allowed, products[i], k)
      {
        var v := Visibilities()[k];
        if allowed(v, products[i]) {
          held := held + [v];
        }
      }
      AllowedUpToAll(allowed, products[i]);
      groups := Splitting(groups, products[i], held);
    }
    assert products[..|products|] == products;
  }
}
