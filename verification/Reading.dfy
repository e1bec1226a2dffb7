/** Reading decided from the grant tables, and reading decided from the subject they resolve to
    (internal/access/team.go:418-543, resolve.go:434-500, estate.go:172-190). */
module Reading {
  import opened Common
  import opened Roles
  import opened Subjects

  datatype Grant = Grant(person: nat, product: nat, role: Role, active: bool)

  datatype EstateGrant = EstateGrant(person: nat, role: Role, active: bool)

  datatype Account = Account(id: nat, left: bool, admin: bool, bootstrap: bool, audits: bool)

  datatype Member = Member(team: nat, person: nat)

  datatype Tables = Tables(people: map<nat, Account>, grants: seq<Grant>, estate: seq<EstateGrant>,
                           members: seq<Member>, catalog: seq<nat>,
                           cases: map<nat, map<nat, seq<nat>>>, codeFindings: map<nat, map<nat, seq<string>>>)

  // ----- The subject a person resolves to -----

  function RolesAt(grants: map<nat, seq<Role>>, product: nat): seq<Role> {
    if product in grants then grants[product] else []
  }

  function WithRole(grants: map<nat, seq<Role>>, product: nat, role: Role): map<nat, seq<Role>> {
    grants[product := RolesAt(grants, product) + [role]]
  }

  function InForce(g: Grant, person: nat): bool {
    g.person == person && g.active && Valid(g.role)
  }

  /** The active grants of a person, by product. */
  function Held(rows: seq<Grant>, person: nat): map<nat, seq<Role>>
    decreases |rows|
  {
    if rows == [] then map[]
    else
      var n := |rows| - 1;
      var before := Held(rows[..n], person);
      if InForce(rows[n], person) then WithRole(before, rows[n].product, rows[n].role) else before
  }

  /** One role spread over the products of the catalog. */
  function SpreadOne(grants: map<nat, seq<Role>>, role: Role, products: seq<nat>): map<nat, seq<Role>>
    decreases |products|
  {
    if products == [] then grants
    else
      var n := |products| - 1;
      var before := SpreadOne(grants, role, products[..n]);
      if role in RolesAt(before, products[n]) then before else WithRole(before, products[n], role)
  }

  function Spread(grants: map<nat, seq<Role>>, everywhere: seq<Role>, products: seq<nat>): map<nat, seq<Role>>
    decreases |everywhere|
  {
    if everywhere == [] then grants
    else
      var n := |everywhere| - 1;
      SpreadOne(Spread(grants, everywhere[..n], products), everywhere[n], products)
  }

  function HeldEverywhere(rows: seq<EstateGrant>, person: nat): seq<Role>
    decreases |rows|
  {
    if rows == [] then []
    else
      var n := |rows| - 1;
      HeldEverywhere(rows[..n], person)
      + if rows[n].person == person && rows[n].active && Valid(rows[n].role) then [rows[n].role] else []
  }

  function At<T>(m: map<nat, map<nat, seq<T>>>, person: nat): map<nat, seq<T>> {
    if person in m then m[person] else map[]
  }

  /** The subject a person stands for, refused where they have left or nothing is held. */
  function Resolved(t: Tables, person: nat): Option<Subject> {
    if person !in t.people || t.people[person].left then None
    else
      var a := t.people[person];
      var everywhere := HeldEverywhere(t.estate, person);
      var grants := if everywhere == [] then Held(t.grants, person)
                    else Spread(Held(t.grants, person), everywhere, t.catalog);
      var admin := a.admin || a.bootstrap;
      var cases, findings := At(t.cases, person), At(t.codeFindings, person);
      if !admin && !a.audits && grants == map[] && cases == map[] && findings == map[] then None
      else
        Some(Subject(Person, person, admin, a.audits, grants, None, false, false, person, [], cases, findings, false, {}))
  }

  // ----- The question asked of the tables -----

  const ALL := [Approver, Assigner, PublicRead, PrivateRead, SecurityTestingRead,
                PublicTriage, PrivateTriage, SecurityTestingTriage]

  function Holding(product: nat, role: Role): Subject {
    Subject(Person, 0, false, false, map[product := [role]], None, false, false, 0, [], map[], map[], false, {})
  }

  /** The roles enough to read at a visibility, asked of the rule itself. */
  function RolesReading(roles: seq<Role>, product: nat, v: Visibility): seq<Role> {
    if roles == [] then []
    else (if Reads(Holding(product, roles[0]), v, product) then [roles[0]] else []) + RolesReading(roles[1..], product, v)
  }

  predicate HoldingAny(t: Tables, person: nat, enough: seq<Role>, product: nat) {
    || (exists i :: 0 <= i < |t.grants| && t.grants[i].person == person && t.grants[i].active
                 && t.grants[i].product == product && t.grants[i].role in enough)
    || (exists i :: 0 <= i < |t.estate| && t.estate[i].person == person && t.estate[i].active && t.estate[i].role in enough)
  }

  predicate Here(t: Tables, person: nat) {
    person in t.people && !t.people[person].left
  }

  predicate PersonReads(t: Tables, person: nat, product: nat, v: Visibility) {
    var enough := RolesReading(ALL, product, v);
    enough != [] && Here(t, person) && HoldingAny(t, person, enough, product)
  }

  predicate HoldingEach(t: Tables, person: nat, product: nat, visibilities: seq<Visibility>) {
    forall i :: 0 <= i < |visibilities| ==> HoldingAny(t, person, RolesReading(ALL, product, visibilities[i]), product)
  }

  predicate AnyMemberReads(t: Tables, team: nat, product: nat, visibilities: seq<Visibility>) {
    visibilities != [] &&
    exists i :: 0 <= i < |t.members| && t.members[i].team == team && Here(t, t.members[i].person)
             && HoldingEach(t, t.members[i].person, product, visibilities)
  }

  // ----- They agree -----

  function Rank(v: Visibility): nat {
    match v
    case Public => 0
    case Private => 1
    case SecurityTesting => 2
  }

  /** The roles enough to read are exactly the reading and the triage role of the visibility. */
  lemma RolesReadingAre(product: nat, v: Visibility)
    ensures RolesReading(ALL, product, v) ==
      match v
      case Public => [PublicRead, PublicTriage]
      case Private => [PrivateRead, PrivateTriage]
      case SecurityTesting => [SecurityTestingRead, SecurityTestingTriage]
  {
    ReadingFrom(0, product, v);
    assert ALL[0..] == ALL;
  }

  lemma Enough(product: nat, v: Visibility, role: Role)
    ensures Reads(Holding(product, role), v, product) <==> role == ReadRole(v) || role == TriageRole(v)
  {}

  lemma ReadingFrom(k: nat, product: nat, v: Visibility)
    requires k <= |ALL|
    ensures RolesReading(ALL[k..], product, v) ==
      (if k <= 2 + Rank(v) then [ReadRole(v)] else []) + (if k <= 5 + Rank(v) then [TriageRole(v)] else [])
    decreases |ALL| - k
  {
    if k < |ALL| {
      hide Reads;
      ReadingFrom(k + 1, product, v);
      assert ALL[k..][1..] == ALL[k + 1..];
      Enough(product, v, ALL[k]);
    }
  }

  lemma {:induction false} HeldMeans(rows: seq<Grant>, person: nat, product: nat, role: Role)
    ensures role in RolesAt(Held(rows, person), product) <==>
      exists i :: 0 <= i < |rows| && InForce(rows[i], person) && rows[i].product == product && rows[i].role == role
  {
    if rows != [] {
      var n := |rows| - 1;
      HeldMeans(rows[..n], person, product, role);
      assert forall i :: 0 <= i < n ==> rows[..n][i] == rows[i];
    }
  }

  lemma {:induction false} SpreadOneMeans(grants: map<nat, seq<Role>>, one: Role, products: seq<nat>, product: nat, role: Role)
    ensures role in RolesAt(SpreadOne(grants, one, products), product) <==>
      role in RolesAt(grants, product) || (role == one && product in products)
  {
    if products != [] {
      var n := |products| - 1;
      var before := SpreadOne(grants, one, products[..n]);
      SpreadOneMeans(grants, one, products[..n], product, role);
      assert product in products <==> product in products[..n] || product == products[n] by {
        assert products == products[..n] + [products[n]];
      }
      assert RolesAt(WithRole(before, products[n], one), product) ==
        RolesAt(before, product) + if product == products[n] then [one] else [];
    }
  }

  lemma {:induction false} SpreadMeans(grants: map<nat, seq<Role>>, everywhere: seq<Role>, products: seq<nat>, product: nat, role: Role)
    ensures role in RolesAt(Spread(grants, everywhere, products), product) <==>
      role in RolesAt(grants, product) || (role in everywhere && product in products)
  {
    if everywhere != [] {
      var n := |everywhere| - 1;
      SpreadMeans(grants, everywhere[..n], products, product, role);
      SpreadOneMeans(Spread(grants, everywhere[..n], products), everywhere[n], products, product, role);
      assert everywhere == everywhere[..n] + [everywhere[n]];
    }
  }

  lemma {:induction false} HeldEverywhereMeans(rows: seq<EstateGrant>, person: nat, role: Role)
    ensures role in HeldEverywhere(rows, person) <==>
      Valid(role) && exists i :: 0 <= i < |rows| && rows[i].person == person && rows[i].active && rows[i].role == role
  {
    if rows != [] {
      var n := |rows| - 1;
      HeldEverywhereMeans(rows[..n], person, role);
      assert forall i :: 0 <= i < n ==> rows[..n][i] == rows[i];
    }
  }

  ghost predicate NoneEmpty(grants: map<nat, seq<Role>>) {
    forall p :: p in grants ==> grants[p] != []
  }

  lemma {:induction false} HeldIsNoneEmpty(rows: seq<Grant>, person: nat)
    ensures NoneEmpty(Held(rows, person))
  {
    if rows != [] { HeldIsNoneEmpty(rows[..|rows| - 1], person); }
  }

  lemma {:induction false} SpreadOneIsNoneEmpty(grants: map<nat, seq<Role>>, role: Role, products: seq<nat>)
    requires NoneEmpty(grants)
    ensures NoneEmpty(SpreadOne(grants, role, products))
  {
    if products != [] { SpreadOneIsNoneEmpty(grants, role, products[..|products| - 1]); }
  }

  lemma {:induction false} SpreadIsNoneEmpty(grants: map<nat, seq<Role>>, everywhere: seq<Role>, products: seq<nat>)
    requires NoneEmpty(grants)
    ensures NoneEmpty(Spread(grants, everywhere, products))
  {
    if everywhere != [] {
      var n := |everywhere| - 1;
      SpreadIsNoneEmpty(grants, everywhere[..n], products);
      SpreadOneIsNoneEmpty(Spread(grants, everywhere[..n], products), everywhere[n], products);
    }
  }

  /** A product in a resolved subject's grants holds at least one role there. */
  lemma GrantsHoldSomething(t: Tables, person: nat)
    requires Resolved(t, person).Some?
    ensures NoneEmpty(Resolved(t, person).value.grants)
  {
    hide Held, Spread, HeldEverywhere;
    HeldIsNoneEmpty(t.grants, person);
    SpreadIsNoneEmpty(Held(t.grants, person), HeldEverywhere(t.estate, person), t.catalog);
  }

  predicate Granted(t: Tables, person: nat, product: nat, role: Role) {
    exists i :: 0 <= i < |t.grants| && InForce(t.grants[i], person) && t.grants[i].product == product && t.grants[i].role == role
  }

  predicate GrantedEverywhere(t: Tables, person: nat, role: Role) {
    Valid(role) && exists i :: 0 <= i < |t.estate| && t.estate[i].person == person && t.estate[i].active && t.estate[i].role == role
  }

  /** The resolved subject holds a role on a product exactly when it was granted there, or across every
      product and the product is in the catalog. */
  lemma ResolvedHolds(t: Tables, person: nat, product: nat, role: Role)
    requires Resolved(t, person).Some?
    ensures Holds(Resolved(t, person).value, role, product) <==>
      Granted(t, person, product, role) || (GrantedEverywhere(t, person, role) && product in t.catalog)
  {
    hide Held, Spread, HeldEverywhere;
    HeldMeans(t.grants, person, product, role);
    HeldEverywhereMeans(t.estate, person, role);
    SpreadMeans(Held(t.grants, person), HeldEverywhere(t.estate, person), t.catalog, product, role);
  }

  lemma NothingHeld(t: Tables, person: nat, product: nat, role: Role)
    requires Here(t, person) && Resolved(t, person).None?
    ensures !Granted(t, person, product, role) && !(GrantedEverywhere(t, person, role) && product in t.catalog)
  {
    hide Held, Spread, HeldEverywhere;
    HeldMeans(t.grants, person, product, role);
    HeldEverywhereMeans(t.estate, person, role);
    SpreadMeans(Held(t.grants, person), HeldEverywhere(t.estate, person), t.catalog, product, role);
  }

  lemma HoldingAnyMeans(t: Tables, person: nat, product: nat, v: Visibility)
    ensures HoldingAny(t, person, RolesReading(ALL, product, v), product) <==>
      || Granted(t, person, product, ReadRole(v)) || Granted(t, person, product, TriageRole(v))
      || GrantedEverywhere(t, person, ReadRole(v)) || GrantedEverywhere(t, person, TriageRole(v))
  {
    hide RolesReading;
    RolesReadingAre(product, v);
    var enough := RolesReading(ALL, product, v);
    assert forall role :: role in enough <==> role == ReadRole(v) || role == TriageRole(v);
  }

  ghost predicate Estate(t: Tables, person: nat, v: Visibility) {
    GrantedEverywhere(t, person, ReadRole(v)) || GrantedEverywhere(t, person, TriageRole(v))
  }

  /** The tables and the subject agree about who reads, exactly when the product is in the catalog or
      no role across every product is what answers: a product nobody declared is read by nobody, and
      the tables do not ask. */
  lemma TablesAgreeExactlyWhen(t: Tables, person: nat, product: nat, v: Visibility)
    ensures var subject := Resolved(t, person);
            (PersonReads(t, person, product, v) <==> subject.Some? && Reads(subject.value, v, product))
            <==>
            (product in t.catalog || !Here(t, person) || !Estate(t, person, v)
             || Granted(t, person, product, ReadRole(v)) || Granted(t, person, product, TriageRole(v)))
  {
    hide Granted, GrantedEverywhere, HoldingAny, RolesReading, Resolved;
    RolesReadingAre(product, v);
    HoldingAnyMeans(t, person, product, v);
    if Resolved(t, person).Some? {
      ResolvedHolds(t, person, product, ReadRole(v));
      ResolvedHolds(t, person, product, TriageRole(v));
      ResolvedIsHere(t, person);
    } else if Here(t, person) {
      NothingHeld(t, person, product, ReadRole(v));
      NothingHeld(t, person, product, TriageRole(v));
    }
  }

  lemma ResolvedIsHere(t: Tables, person: nat)
    requires Resolved(t, person).Some?
    ensures Here(t, person)
    ensures var s := Resolved(t, person).value; s.kind == Person && !s.unnarrowed
  {}

  predicate ReadsAll(t: Tables, person: nat, product: nat, visibilities: seq<Visibility>) {
    Resolved(t, person).Some? &&
    forall i :: 0 <= i < |visibilities| ==> Reads(Resolved(t, person).value, visibilities[i], product)
  }

  /** A team reads in a declared product exactly when one member still here resolves to a subject that
      reads at every visibility asked. */
  lemma TeamReadsThroughOneMember(t: Tables, team: nat, product: nat, visibilities: seq<Visibility>)
    requires product in t.catalog
    ensures AnyMemberReads(t, team, product, visibilities) <==>
      visibilities != [] &&
      exists i :: 0 <= i < |t.members| && t.members[i].team == team && ReadsAll(t, t.members[i].person, product, visibilities)
  {
    hide Resolved, HoldingAny;
    forall i | 0 <= i < |t.members| && visibilities != []
      ensures Here(t, t.members[i].person) && HoldingEach(t, t.members[i].person, product, visibilities)
              <==> ReadsAll(t, t.members[i].person, product, visibilities)
    {
      MemberReads(t, t.members[i].person, product, visibilities);
    }
  }

  lemma MemberReads(t: Tables, person: nat, product: nat, visibilities: seq<Visibility>)
    requires product in t.catalog && visibilities != []
    ensures Here(t, person) && HoldingEach(t, person, product, visibilities) <==> ReadsAll(t, person, product, visibilities)
  {
    hide Resolved, HoldingAny, Reads;
    forall k | 0 <= k < |visibilities|
      ensures Here(t, person) && HoldingAny(t, person, RolesReading(ALL, product, visibilities[k]), product)
              <==> Resolved(t, person).Some? && Reads(Resolved(t, person).value, visibilities[k], product)
    {
      TablesAgreeExactlyWhen(t, person, product, visibilities[k]);
      RolesReadingAre(product, visibilities[k]);
    }
    if Resolved(t, person).Some? { ResolvedIsHere(t, person); }
    assert visibilities[0] == visibilities[0];
  }

  // ----- What a person resolved to is answered -----

  /** Held on a product: granted there, or across every product there is, by a grant in force. */
  ghost predicate Has(t: Tables, person: nat, product: nat, role: Role) {
    Valid(role) &&
    (Grant(person, product, role, true) in t.grants
     || (product in t.catalog && EstateGrant(person, role, true) in t.estate))
  }

  ghost predicate HasReading(t: Tables, person: nat, product: nat, v: Visibility) {
    match v
    case Public => Has(t, person, product, PublicRead) || Has(t, person, product, PublicTriage)
    case Private => Has(t, person, product, PrivateRead) || Has(t, person, product, PrivateTriage)
    case SecurityTesting => Has(t, person, product, SecurityTestingRead) || Has(t, person, product, SecurityTestingTriage)
  }

  ghost predicate HasTriage(t: Tables, person: nat, product: nat, v: Visibility) {
    match v
    case Public => Has(t, person, product, PublicTriage)
    case Private => Has(t, person, product, PrivateTriage)
    case SecurityTesting => Has(t, person, product, SecurityTestingTriage)
  }

  ghost predicate HasAnyReading(t: Tables, person: nat, product: nat) {
    HasReading(t, person, product, Public) || HasReading(t, person, product, Private)
    || HasReading(t, person, product, SecurityTesting)
  }

  ghost predicate OnTheCase(t: Tables, person: nat, product: nat, issue: nat) {
    person in t.cases && product in t.cases[person] && issue in t.cases[person][product]
  }

  ghost predicate OnTheCodeFinding(t: Tables, person: nat, product: nat, occurrence: string) {
    person in t.codeFindings && product in t.codeFindings[person] && occurrence in t.codeFindings[person][product]
  }

  lemma GrantedIs(t: Tables, person: nat, product: nat, role: Role)
    ensures Granted(t, person, product, role) <==> Valid(role) && Grant(person, product, role, true) in t.grants
  {
    if Valid(role) && Grant(person, product, role, true) in t.grants {
      var i :| 0 <= i < |t.grants| && t.grants[i] == Grant(person, product, role, true);
      assert InForce(t.grants[i], person);
    }
  }

  lemma GrantedEverywhereIs(t: Tables, person: nat, role: Role)
    ensures GrantedEverywhere(t, person, role) <==> Valid(role) && EstateGrant(person, role, true) in t.estate
  {
    if Valid(role) && EstateGrant(person, role, true) in t.estate {
      var i :| 0 <= i < |t.estate| && t.estate[i] == EstateGrant(person, role, true);
      assert t.estate[i].person == person && t.estate[i].active;
    }
  }

  lemma HasIs(t: Tables, person: nat, product: nat, role: Role)
    ensures Granted(t, person, product, role) || (GrantedEverywhere(t, person, role) && product in t.catalog)
            <==> Has(t, person, product, role)
  {
    hide Granted, GrantedEverywhere;
    GrantedIs(t, person, product, role);
    GrantedEverywhereIs(t, person, role);
  }

  lemma ResolvedHas(t: Tables, person: nat, product: nat, role: Role)
    requires Resolved(t, person).Some?
    ensures var s := Resolved(t, person).value;
            (product in s.grants && role in s.grants[product]) <==> Has(t, person, product, role)
  {
    hide Resolved, Granted, GrantedEverywhere, Has;
    ResolvedIsHere(t, person);
    ResolvedHolds(t, person, product, role);
    HasIs(t, person, product, role);
  }

  /** Reading by the tables: what is granted for a visibility reads and triages at it, and administering
      shows every product and opens nothing in it. */
  lemma ResolvedReads(t: Tables, person: nat, product: nat, v: Visibility)
    requires Resolved(t, person).Some?
    ensures var s, a := Resolved(t, person).value, t.people[person];
            && (Reads(s, v, product) <==> HasReading(t, person, product, v))
            && (Triages(s, v, product) <==> HasTriage(t, person, product, v))
            && (Sees(s, product) <==> a.admin || a.bootstrap || HasAnyReading(t, person, product))
            && (Products(s).Some? && (product in Products(s).value <==> HasAnyReading(t, person, product)))
  {
    hide Has;
    forall role: Role
      ensures var s := Resolved(t, person).value;
              (product in s.grants && role in s.grants[product]) <==> Has(t, person, product, role)
    {
      ResolvedHas(t, person, product, role);
    }
    hide Held, Spread, HeldEverywhere;
  }

  /** And what else is answered: the cases and code findings they are on, and the deployment. */
  lemma ResolvedReaches(t: Tables, person: nat, product: nat, issue: nat, occurrence: string)
    requires Resolved(t, person).Some?
    ensures var s, a := Resolved(t, person).value, t.people[person];
            && (OnCase(s, product, issue) <==> OnTheCase(t, person, product, issue))
            && (OnCaseToAct(s, product, issue) <==> OnTheCase(t, person, product, issue))
            && (OnCodeFinding(s, product, occurrence) <==> OnTheCodeFinding(t, person, product, occurrence))
            && (Reaches(s, product) <==> Sees(s, product) || exists other: nat :: OnTheCase(t, person, product, other))
            && (Administering(s) <==> a.admin || a.bootstrap)
            && (ReadsTheDeployment(s) <==> a.admin || a.bootstrap || a.audits)
  {
    hide Held, Spread, HeldEverywhere, Sees;
    var s := Resolved(t, person).value;
    if product in s.cases && s.cases[product] != [] {
      assert OnTheCase(t, person, product, s.cases[product][0]);
    }
  }

  /** Somebody is refused exactly where they are not here, or hold nothing anywhere: nothing over the
      deployment, no role on any product there is, no case and no code finding. */
  lemma RefusedExactlyWhen(t: Tables, person: nat)
    ensures Resolved(t, person).None? <==>
      || person !in t.people || t.people[person].left
      || (var a := t.people[person];
          && !a.admin && !a.bootstrap && !a.audits
          && (forall product, role :: !Has(t, person, product, role))
          && (person in t.cases ==> t.cases[person] == map[])
          && (person in t.codeFindings ==> t.codeFindings[person] == map[]))
  {
    hide Has, Held, HeldEverywhere, Spread;
    var everywhere := HeldEverywhere(t.estate, person);
    var grants := if everywhere == [] then Held(t.grants, person) else Spread(Held(t.grants, person), everywhere, t.catalog);
    HeldIsNoneEmpty(t.grants, person);
    SpreadIsNoneEmpty(Held(t.grants, person), everywhere, t.catalog);
    forall product: nat, role: Role ensures role in RolesAt(grants, product) <==> Has(t, person, product, role) {
      GrantsTell(t, person, product, role);
    }
    if grants != map[] {
      var product :| product in grants;
      assert grants[product][0] in RolesAt(grants, product);
    }
  }

  lemma GrantsTell(t: Tables, person: nat, product: nat, role: Role)
    ensures var everywhere := HeldEverywhere(t.estate, person);
            var grants := if everywhere == [] then Held(t.grants, person) else Spread(Held(t.grants, person), everywhere, t.catalog);
            role in RolesAt(grants, product) <==> Has(t, person, product, role)
  {
    hide Held, HeldEverywhere, Spread, Has;
    HeldMeans(t.grants, person, product, role);
    HeldEverywhereMeans(t.estate, person, role);
    SpreadMeans(Held(t.grants, person), HeldEverywhere(t.estate, person), t.catalog, product, role);
    HasIs(t, person, product, role);
  }

  /** Nobody signed in reads what is public of what is published, and a pipeline sees its own product
      and reads nothing. */
  lemma OthersRead(s: Subject, product: nat, v: Visibility)
    requires s.kind != Person && !s.unnarrowed
    ensures Reads(s, v, product) <==> s.kind == Anonymous && v == Public && product in s.published
    ensures Sees(s, product) <==> if s.kind == Anonymous then product in s.published else s.scope == Some(product)
    ensures !Triages(s, v, product) && !Administering(s) && !ReadsTheDeployment(s)
    ensures Products(s) == Some(if s.kind == Anonymous then s.published else {})
  {}

  // ----- Building the grants as the loops do -----

  method ReadGrants(rows: seq<Grant>, person: nat) returns (grants: map<nat, seq<Role>>)
    ensures grants == Held(rows, person)
  {
    grants := map[];
    for i := 0 to |rows|
      invariant grants == Held(rows[..i], person)
    {
      assert rows[..i + 1][..i] == rows[..i];
      var grant := rows[i];
      if grant.person == person && grant.active && Valid(grant.role) {
        var sofar := RolesAt(grants, grant.product);
        grants := grants[grant.product := sofar + [grant.role]];
      }
    }
    assert rows[..|rows|] == rows;
  }

  /** Resolve roles held across every product into grants on each product there is. */
  method SpreadEstate(given: map<nat, seq<Role>>, estate: seq<Role>, products: seq<nat>)
    returns (grants: map<nat, seq<Role>>)
    ensures grants == Spread(given, estate, products)
  {
    grants := given;
    for i := 0 to |estate|
      invariant grants == Spread(given, estate[..i], products)
    {
      assert estate[..i + 1][..i] == estate[..i];
      ghost var before := grants;
      for k := 0 to |products|
        invariant grants == SpreadOne(before, estate[i], products[..k])
      {
        assert products[..k + 1][..k] == products[..k];
        var sofar := RolesAt(grants, products[k]);
        if estate[i] !in sofar {
          grants := grants[products[k] := sofar + [estate[i]]];
        }
      }
      assert products[..|products|] == products;
    }
    assert estate[..|estate|] == estate;
  }
}
