/** A personal token reaches no more than its owner: narrowing to a product and to roles, and resolving
    with what groups derived bounded (internal/access/token.go:160-300, resolve.go:434-560). */
module Tokens {
  import opened Common
  import opened Roles
  import opened Subjects
  import opened Reading

  function Only<T>(m: map<nat, T>, product: nat): map<nat, T> {
    if product in m then map[product := m[product]] else map[]
  }

  /** Only what this subject holds on one product. */
  function NarrowedTo(s: Subject, product: nat): Subject {
    s.(grants := Only(s.grants, product), admin := false, audits := false, unnarrowed := false,
       cases := if |s.cases| > 0 then Only(s.cases, product) else s.cases,
       codeFindings := if |s.codeFindings| > 0 then Only(s.codeFindings, product) else s.codeFindings)
  }

  function Kept(held: seq<Role>, wanted: set<Role>): (kept: seq<Role>)
    ensures forall role :: role in kept <==> role in held && role in wanted
  {
    if held == [] then []
    else (if held[0] in wanted then [held[0]] else []) + Kept(held[1..], wanted)
  }

  function KeptOf(grants: map<nat, seq<Role>>, wanted: set<Role>): map<nat, seq<Role>> {
    map p | p in grants && Kept(grants[p], wanted) != [] :: Kept(grants[p], wanted)
  }

  predicate MayAct(wanted: set<Role>) {
    PublicTriage in wanted || PrivateTriage in wanted
  }

  /** Only the roles the token was asked to carry, and a case's write half only with triage. */
  function NarrowedToRoles(s: Subject, wanted: set<Role>): Subject {
    s.(grants := KeptOf(s.grants, wanted), admin := false, audits := false, unnarrowed := false,
       casesReadOnly := !MayAct(wanted))
  }

  function Delegated(s: Subject): Subject {
    s.(delegated := true)
  }

  /** The subject a token stands for: its owner's, marked, and narrowed as the token says. */
  function ForToken(owner: Subject, product: Option<nat>, holds: Option<set<Role>>): Subject {
    var s := Delegated(owner);
    var here := if product.Some? then NarrowedTo(s, product.value) else s;
    if holds.Some? then NarrowedToRoles(here, holds.value) else here
  }

  // ----- Everything a subject is asked -----

  datatype Query =
    | AskHolds(role: Role, product: nat)
    | AskReads(v: Visibility, product: nat)
    | AskTriages(v: Visibility, product: nat)
    | AskSees(product: nat)
    | AskReaches(product: nat)
    | AskOnCase(product: nat, issue: nat)
    | AskOnCaseToAct(product: nat, issue: nat)
    | AskOnCodeFinding(product: nat, occurrence: string)
    | AskListed(product: nat)
    | AskAdministering
    | AskReadsTheDeployment

  predicate Answers(s: Subject, q: Query) {
    match q
    case AskHolds(role, product) => Holds(s, role, product)
    case AskReads(v, product) => Reads(s, v, product)
    case AskTriages(v, product) => Triages(s, v, product)
    case AskSees(product) => Sees(s, product)
    case AskReaches(product) => Reaches(s, product)
    case AskOnCase(product, issue) => OnCase(s, product, issue)
    case AskOnCaseToAct(product, issue) => OnCaseToAct(s, product, issue)
    case AskOnCodeFinding(product, occurrence) => OnCodeFinding(s, product, occurrence)
    case AskListed(product) => Products(s).None? || product in Products(s).value
    case AskAdministering => Administering(s)
    case AskReadsTheDeployment => ReadsTheDeployment(s)
  }

  /** Whatever the narrowed subject answers yes to, its owner answers yes to. */
  ghost predicate Within(narrowed: Subject, owner: Subject) {
    forall q: Query :: Answers(narrowed, q) ==> Answers(owner, q)
  }

  // ----- Narrowing restricts -----

  /** Fewer grants, cases and code findings, and nothing over the deployment, answers no more. */
  ghost predicate Fewer(a: Subject, b: Subject) {
    && a.kind == b.kind && a.scope == b.scope && a.published == b.published
    && (a.admin ==> b.admin) && (a.audits ==> b.audits) && (a.unnarrowed ==> b.unnarrowed)
    && (b.casesReadOnly ==> a.casesReadOnly)
    && (forall p, role :: p in a.grants && role in a.grants[p] ==> p in b.grants && role in b.grants[p])
    && (forall p, x :: p in a.cases && x in a.cases[p] ==> p in b.cases && x in b.cases[p])
    && (forall p, x :: p in a.codeFindings && x in a.codeFindings[p] ==> p in b.codeFindings && x in b.codeFindings[p])
  }

  lemma FewerAnswersLess(a: Subject, b: Subject, q: Query)
    requires Fewer(a, b) && Answers(a, q)
    ensures Answers(b, q)
  {
    forall role, p ensures Holds(a, role, p) ==> Holds(b, role, p) {}
    forall v, p ensures Reads(a, v, p) ==> Reads(b, v, p) {}
    match q
    case AskReaches(product) =>
      if product in a.cases && a.cases[product] != [] {
        var x := a.cases[product][0];
        assert x in a.cases[product];
      }
    case _ =>
  }

  lemma FewerIsWithin(a: Subject, b: Subject)
    requires Fewer(a, b)
    ensures Within(a, b)
  {
    hide Answers, Fewer;
    forall q: Query | Answers(a, q) ensures Answers(b, q) { FewerAnswersLess(a, b, q); }
  }

  /** Narrowing to a product, from any subject at all, answers nothing the subject did not. */
  lemma NarrowedToIsWithin(s: Subject, product: nat)
    ensures Within(NarrowedTo(s, product), s)
  {
    FewerIsWithin(NarrowedTo(s, product), s);
  }

  /** Narrowing to roles answers nothing the subject did not, exactly unless it had already lost the
      write half of a case it is on and is now asked to carry triage: the second narrowing gives that
      back. */
  lemma NarrowedToRolesIsWithinExactlyWhen(s: Subject, wanted: set<Role>)
    ensures Within(NarrowedToRoles(s, wanted), s) <==>
      !(s.casesReadOnly && (PublicTriage in wanted || PrivateTriage in wanted)
        && s.kind == Person && exists p :: p in s.cases && s.cases[p] != [])
  {
    var narrowed := NarrowedToRoles(s, wanted);
    if s.casesReadOnly && MayAct(wanted) && s.kind == Person && exists p :: p in s.cases && s.cases[p] != [] {
      var p :| p in s.cases && s.cases[p] != [];
      var q := AskOnCaseToAct(p, s.cases[p][0]);
      assert Answers(narrowed, q) && !Answers(s, q);
    } else if s.casesReadOnly && MayAct(wanted) {
      var same := narrowed.(casesReadOnly := true);
      FewerIsWithin(same, s);
      forall q: Query | Answers(narrowed, q) ensures Answers(s, q) { NoCaseToAct(narrowed, q); }
    } else {
      FewerIsWithin(narrowed, s);
    }
  }

  /** With no case to act on, whether acting is allowed changes no answer. */
  lemma NoCaseToAct(s: Subject, q: Query)
    requires s.kind != Person || forall p :: p in s.cases ==> s.cases[p] == []
    ensures Answers(s, q) <==> Answers(s.(casesReadOnly := true), q)
  {
    var other := s.(casesReadOnly := true);
    forall v, p ensures Reads(s, v, p) <==> Reads(other, v, p) {}
  }

  /** What is left is the intersection: a role on a product is held through the token exactly when its
      owner holds it and the token covers the product and carries the role. */
  lemma NarrowingIntersects(owner: Subject, product: Option<nat>, holds: Option<set<Role>>, role: Role, p: nat)
    ensures Holds(ForToken(owner, product, holds), role, p) <==>
      Holds(owner, role, p) && (product.Some? ==> p == product.value) && (holds.Some? ==> role in holds.value)
  {}

  /** Cases and code findings are left where the token covers their product, and a case to act on where
      its owner is on it and the token carries triage, or carries every role and its owner acts there;
      nothing over the deployment is left of a token narrowed at all. */
  lemma NarrowingLeaves(owner: Subject, product: Option<nat>, holds: Option<set<Role>>, p: nat, issue: nat, occurrence: string)
    ensures var s, covered := ForToken(owner, product, holds), product.None? || p == product.value;
            && (OnCase(s, p, issue) <==> covered && owner.kind == Person && p in owner.cases && issue in owner.cases[p])
            && (OnCodeFinding(s, p, occurrence) <==>
                  covered && owner.kind == Person && p in owner.codeFindings && occurrence in owner.codeFindings[p])
            && (OnCaseToAct(s, p, issue) <==>
                  OnCase(s, p, issue)
                  && if holds.Some? then PublicTriage in holds.value || PrivateTriage in holds.value else !owner.casesReadOnly)
            && (product.Some? || holds.Some? ==> !s.admin && !s.audits && !s.unnarrowed)
            && (product.None? && holds.None? ==> s == owner.(delegated := true))
  {}

  lemma KeptOfOnly(grants: map<nat, seq<Role>>, product: nat, wanted: set<Role>)
    ensures KeptOf(Only(grants, product), wanted) == Only(KeptOf(grants, wanted), product)
  {
    hide Kept;
  }

  /** Narrowing to a product and to roles is one narrowing, whichever is done first. */
  lemma NarrowingCommutes(s: Subject, product: nat, wanted: set<Role>)
    ensures NarrowedTo(NarrowedToRoles(s, wanted), product) == NarrowedToRoles(NarrowedTo(s, product), wanted)
  {
    hide MayAct;
    KeptOfOnly(s.grants, product, wanted);
  }

  lemma ForTokenIsFewer(owner: Subject, product: Option<nat>, holds: Option<set<Role>>)
    requires !owner.casesReadOnly
    ensures Fewer(ForToken(owner, product, holds), owner)
  {}

  /** A token's subject answers nothing its owner's does not, from any subject that resolving builds. */
  lemma TokenIsWithinOwner(t: Tables, person: nat, product: Option<nat>, holds: Option<set<Role>>)
    requires Resolved(t, person).Some?
    ensures Within(ForToken(Resolved(t, person).value, product, holds), Resolved(t, person).value)
    ensures ForToken(Resolved(t, person).value, product, holds).delegated
  {
    hide Resolved, Fewer, Within;
    var owner := Resolved(t, person).value;
    ResolvedActs(t, person);
    ForTokenIsFewer(owner, product, holds);
    FewerIsWithin(ForToken(owner, product, holds), owner);
  }

  lemma ResolvedActs(t: Tables, person: nat)
    requires Resolved(t, person).Some?
    ensures !Resolved(t, person).value.casesReadOnly
  {}

  // ----- A token resolves with what groups derived bounded -----

  /** The rows a group derived too long ago to stand for a credential that never signs in. */
  datatype Stale = Stale(grants: set<nat>, estate: set<nat>, admin: set<nat>, audits: set<nat>)

  function Bounded(t: Tables, stale: Stale): Tables {
    t.(grants := seq(|t.grants|, i requires 0 <= i < |t.grants| =>
         if i in stale.grants then t.grants[i].(active := false) else t.grants[i]),
       estate := seq(|t.estate|, i requires 0 <= i < |t.estate| =>
         if i in stale.estate then t.estate[i].(active := false) else t.estate[i]),
       people := map p | p in t.people ::
         var a := t.people[p];
         a.(admin := a.admin && p !in stale.admin, audits := a.audits && p !in stale.audits))
  }

  lemma BoundedGrantsLess(t: Tables, stale: Stale, person: nat, product: nat, role: Role)
    ensures Granted(Bounded(t, stale), person, product, role) ==> Granted(t, person, product, role)
    ensures GrantedEverywhere(Bounded(t, stale), person, role) ==> GrantedEverywhere(t, person, role)
  {
    var b := Bounded(t, stale);
    if Granted(b, person, product, role) {
      var i :| 0 <= i < |b.grants| && InForce(b.grants[i], person) && b.grants[i].product == product && b.grants[i].role == role;
      assert InForce(t.grants[i], person);
    }
    if GrantedEverywhere(b, person, role) {
      var i :| 0 <= i < |b.estate| && b.estate[i].person == person && b.estate[i].active && b.estate[i].role == role;
      assert t.estate[i].active;
    }
  }

  /** Resolving through a token, with stale derived rows read past, answers nothing a sign-in of its
      owner would not, and somebody a token resolves is somebody a sign-in resolves. */
  lemma BoundedIsWithin(t: Tables, stale: Stale, person: nat)
    requires Resolved(Bounded(t, stale), person).Some?
    ensures Resolved(t, person).Some?
    ensures Within(Resolved(Bounded(t, stale), person).value, Resolved(t, person).value)
  {
    hide Bounded, Granted, GrantedEverywhere, Fewer, Within;
    BoundedResolves(t, stale, person);
    var b := Bounded(t, stale);
    BoundedIsFewer(t, stale, person);
    FewerIsWithin(Resolved(b, person).value, Resolved(t, person).value);
  }

  /** The subject a token resolves to, its owner's grants read past where stale and then narrowed, answers
      nothing a sign-in of its owner would not, and is marked as standing in for them. */
  lemma BuiltTokenIsWithinOwner(t: Tables, stale: Stale, person: nat, product: Option<nat>, holds: Option<set<Role>>)
    requires Resolved(Bounded(t, stale), person).Some?
    ensures Resolved(t, person).Some?
    ensures var built := ForToken(Resolved(Bounded(t, stale), person).value, product, holds);
            Within(built, Resolved(t, person).value) && built.delegated
  {
    hide Bounded, Resolved, ForToken, Answers;
    BoundedIsWithin(t, stale, person);
    TokenIsWithinOwner(Bounded(t, stale), person, product, holds);
  }

  lemma BoundedKeeps(t: Tables, stale: Stale, person: nat)
    ensures var b := Bounded(t, stale);
            b.catalog == t.catalog && b.cases == t.cases && b.codeFindings == t.codeFindings
            && (person in b.people <==> person in t.people)
            && (person in t.people ==>
                  b.people[person].left == t.people[person].left
                  && b.people[person].bootstrap == t.people[person].bootstrap
                  && (b.people[person].admin ==> t.people[person].admin)
                  && (b.people[person].audits ==> t.people[person].audits))
  {}

  /** Granted by a row that is not stale. */
  ghost predicate FreshlyHas(t: Tables, stale: Stale, person: nat, product: nat, role: Role) {
    Valid(role) &&
    ((exists i :: 0 <= i < |t.grants| && i !in stale.grants && t.grants[i] == Grant(person, product, role, true))
     || (product in t.catalog
         && exists i :: 0 <= i < |t.estate| && i !in stale.estate && t.estate[i] == EstateGrant(person, role, true)))
  }

  /** A stale row grants nothing through a token, and every other row grants what it did: a role is held
      exactly by the rows that are not stale; administering and auditing likewise, and naming by
      configuration is never stale. */
  lemma StaleIsReadPast(t: Tables, stale: Stale, person: nat, product: nat, role: Role)
    requires Resolved(Bounded(t, stale), person).Some?
    ensures var s := Resolved(Bounded(t, stale), person).value;
            && (Holds(s, role, product) <==> FreshlyHas(t, stale, person, product, role))
            && person in t.people && !t.people[person].left
            && (s.admin <==> t.people[person].bootstrap || (t.people[person].admin && person !in stale.admin))
            && (s.audits <==> t.people[person].audits && person !in stale.audits)
  {
    hide Held, Spread, HeldEverywhere;
    var b := Bounded(t, stale);
    ResolvedHas(b, person, product, role);
    ResolvedIsHere(b, person);
    hide Resolved;
    FreshIsHas(t, stale, person, product, role);
  }

  lemma FreshIsHas(t: Tables, stale: Stale, person: nat, product: nat, role: Role)
    ensures Has(Bounded(t, stale), person, product, role) <==> FreshlyHas(t, stale, person, product, role)
  {
    var b := Bounded(t, stale);
    var one, every := Grant(person, product, role, true), EstateGrant(person, role, true);
    if one in b.grants {
      var i :| 0 <= i < |b.grants| && b.grants[i] == one;
      assert i !in stale.grants && t.grants[i] == one;
    }
    if every in b.estate {
      var i :| 0 <= i < |b.estate| && b.estate[i] == every;
      assert i !in stale.estate && t.estate[i] == every;
    }
    if i :| 0 <= i < |t.grants| && i !in stale.grants && t.grants[i] == one { assert b.grants[i] == one; }
    if i :| 0 <= i < |t.estate| && i !in stale.estate && t.estate[i] == every { assert b.estate[i] == every; }
  }

  lemma BoundedHolds(t: Tables, stale: Stale, person: nat, product: nat, role: Role)
    requires Resolved(Bounded(t, stale), person).Some? && Resolved(t, person).Some?
    ensures Holds(Resolved(Bounded(t, stale), person).value, role, product) ==> Holds(Resolved(t, person).value, role, product)
  {
    hide Bounded, Granted, GrantedEverywhere, Resolved, Holds;
    BoundedKeeps(t, stale, person);
    ResolvedHolds(Bounded(t, stale), person, product, role);
    ResolvedHolds(t, person, product, role);
    BoundedGrantsLess(t, stale, person, product, role);
  }

  lemma BoundedIsFewer(t: Tables, stale: Stale, person: nat)
    requires Resolved(Bounded(t, stale), person).Some? && Resolved(t, person).Some?
    ensures Fewer(Resolved(Bounded(t, stale), person).value, Resolved(t, person).value)
  {
    hide Bounded, Held, Spread, HeldEverywhere;
    var a, b := Resolved(Bounded(t, stale), person).value, Resolved(t, person).value;
    BoundedKeeps(t, stale, person);
    forall p, role | p in a.grants && role in a.grants[p] ensures p in b.grants && role in b.grants[p] {
      assert Holds(a, role, p);
      BoundedHolds(t, stale, person, p, role);
    }
  }

  lemma BoundedResolves(t: Tables, stale: Stale, person: nat)
    requires Resolved(Bounded(t, stale), person).Some?
    ensures Resolved(t, person).Some?
  {
    hide Bounded, Held, Spread, HeldEverywhere, Granted, GrantedEverywhere;
    var b := Bounded(t, stale);
    BoundedKeeps(t, stale, person);
    GrantsHoldSomething(b, person);
    var grants := Resolved(b, person).value.grants;
    if Resolved(t, person).None? && grants != map[] {
      var p :| p in grants;
      var role := grants[p][0];
      assert Holds(Resolved(b, person).value, role, p);
      ResolvedHolds(b, person, p, role);
      BoundedGrantsLess(t, stale, person, p, role);
      NothingHeld(t, person, p, role);
    }
  }

  // ----- Narrowing as the loops do it -----

  lemma KeptNext(held: seq<Role>, wanted: set<Role>, i: nat)
    requires i < |held|
    ensures Kept(held[i..], wanted) == (if held[i] in wanted then [held[i]] else []) + Kept(held[i + 1..], wanted)
  {
    assert held[i..][1..] == held[i + 1..];
  }

  lemma NothingKept(wanted: set<Role>)
    ensures Kept([], wanted) == []
  {}

  method KeepWanted(held: seq<Role>, wanted: set<Role>) returns (kept: seq<Role>)
    ensures kept == Kept(held, wanted)
  {
    hide Kept;
    kept := [];
    assert held[0..] == held;
    for i := 0 to |held|
      invariant kept + Kept(held[i..], wanted) == Kept(held, wanted)
    {
      KeptNext(held, wanted, i);
      if held[i] in wanted {
        kept := kept + [held[i]];
      }
    }
    NothingKept(wanted);
    assert held[|held|..] == [];
  }

  method NarrowToRoles(s: Subject, wanted: set<Role>) returns (narrowed: Subject)
    ensures narrowed == NarrowedToRoles(s, wanted)
  {
    hide Kept;
    var grants: map<nat, seq<Role>>, products := map[], s.grants.Keys;
    while products != {}
      invariant products <= s.grants.Keys
      invariant forall p :: p in grants <==> p in s.grants && p !in products && Kept(s.grants[p], wanted) != []
      invariant forall p :: p in grants ==> grants[p] == Kept(s.grants[p], wanted)
      decreases |products|
    {
      var product :| product in products;
      var kept := KeepWanted(s.grants[product], wanted);
      if |kept| > 0 {
        grants := grants[product := kept];
      }
      products := products - {product};
    }
    assert grants == KeptOf(s.grants, wanted);
    narrowed := s.(grants := grants, admin := false, audits := false, unnarrowed := false,
                   casesReadOnly := PublicTriage !in wanted && PrivateTriage !in wanted);
  }
}
