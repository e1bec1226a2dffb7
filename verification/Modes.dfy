/** Where roles come from: assigned by an administrator or derived from groups at sign-in, and what
    switching between the two does to grants and to administration (internal/access/binding.go). */
module Modes {
  import opened Common
  import opened Roles

  datatype Account = Account(bootstrap: bool, admin: bool, adminDerived: bool,
                             audits: bool, auditsDerived: bool, left: bool)

  datatype Source = Assigned | Derived

  datatype Grant = Grant(person: nat, product: nat, role: Role, source: Source, active: bool)

  datatype EstateGrant = EstateGrant(person: nat, role: Role, source: Source, active: bool)

  datatype Mode = Direct | GroupBound

  datatype Deployment = Deployment(accounts: map<nat, Account>, grants: set<Grant>, estate: set<EstateGrant>)

  datatype OnProduct = OnProduct(group: string, product: string, role: Role)
  datatype Everywhere = Everywhere(group: string, role: Role)
  datatype OverAll = OverAll(group: string, grants: Over)

  /** The mappings configuration states, and the declared products by name. */
  datatype Mappings = Mappings(products: map<string, nat>, onProducts: set<OnProduct>,
                               everywhere: set<Everywhere>, over: set<OverAll>)

  /** What a set of groups gives: roles on products, roles on every product, and over the deployment. */
  datatype Given = Given(roles: set<(nat, Role)>, everywhere: set<Role>, administers: bool, audits: bool)

  const NOTHING := Given({}, {}, false, false)

  function GivenBy(m: Mappings, groups: set<string>): Given {
    Given(set b | b in m.onProducts && b.group in groups && b.product in m.products && Valid(b.role) ::
            (m.products[b.product], b.role),
          set b | b in m.everywhere && b.group in groups && Valid(b.role) :: b.role,
          exists b :: b in m.over && b.group in groups && b.grants == Administers,
          exists b :: b in m.over && b.group in groups && b.grants == Audits)
  }

  const STRANGER := Account(false, false, false, false, false, false)

  // ----- Signing in by groups -----

  /** The flags a sign-in leaves: a group's word is taken back by a group, a grant made here is not. */
  function Flagged(a: Account, given: Given): Account {
    var effective := given.administers || (a.admin && !a.adminDerived);
    var derived := a.adminDerived || (given.administers && !a.admin);
    var audits := given.audits || (a.audits && !a.auditsDerived);
    var auditsDerived := a.auditsDerived || (given.audits && !a.audits);
    a.(admin := effective, adminDerived := effective && derived,
       audits := audits, auditsDerived := audits && auditsDerived)
  }

  predicate Replaceable(g: Grant, person: nat) {
    g.person == person && g.source == Derived
  }

  predicate ReplaceableEverywhere(g: EstateGrant, person: nat) {
    g.person == person && g.source == Derived
  }

  function OnOne(person: nat, pair: (nat, Role)): Grant {
    Grant(person, pair.0, pair.1, Derived, true)
  }

  function OnEvery(person: nat, role: Role): EstateGrant {
    EstateGrant(person, role, Derived, true)
  }

  function Replaced(d: Deployment, person: nat, given: Given): Deployment {
    d.(grants := (set g | g in d.grants && !Replaceable(g, person)) + (set p | p in given.roles :: OnOne(person, p)),
       estate := (set g | g in d.estate && !ReplaceableEverywhere(g, person))
                 + (set r | r in given.everywhere :: OnEvery(person, r)))
  }

  /** Somebody who left is refused, and so is somebody unknown whom no group gives anything. */
  predicate Admitted(d: Deployment, person: nat, given: Given) {
    if person in d.accounts then !d.accounts[person].left else given != NOTHING
  }

  function SignedIn(d: Deployment, person: nat, given: Given): Deployment {
    if !Admitted(d, person, given) then d
    else
      var account := if person in d.accounts then d.accounts[person] else STRANGER;
      Replaced(d.(accounts := d.accounts[person := Flagged(account, given)]), person, given)
  }

  // ----- Switching -----

  function Set(g: Grant, active: bool): Grant {
    if g.source == Assigned then g.(active := active) else g
  }

  function SetEverywhere(g: EstateGrant, active: bool): EstateGrant {
    if g.source == Assigned then g.(active := active) else g
  }

  function AllSet(grants: set<Grant>, active: bool): set<Grant> {
    set g | g in grants :: Set(g, active)
  }

  function AllSetEverywhere(estate: set<EstateGrant>, active: bool): set<EstateGrant> {
    set g | g in estate :: SetEverywhere(g, active)
  }

  function WithoutDerived(grants: set<Grant>): set<Grant> {
    set g | g in grants && g.source != Derived
  }

  function WithoutDerivedEverywhere(estate: set<EstateGrant>): set<EstateGrant> {
    set g | g in estate && g.source != Derived
  }

  /** What groups derived over the deployment is cleared; what was granted here stands. */
  function Underived(a: Account): Account {
    a.(admin := a.admin && !a.adminDerived, adminDerived := false,
       audits := a.audits && !a.auditsDerived, auditsDerived := false)
  }

  function Switched(d: Deployment, mode: Mode): Deployment {
    match mode
    case GroupBound =>
      d.(grants := AllSet(d.grants, false), estate := AllSetEverywhere(d.estate, false))
    case Direct =>
      Deployment(map p | p in d.accounts :: Underived(d.accounts[p]),
                 AllSet(WithoutDerived(d.grants), true), AllSetEverywhere(WithoutDerivedEverywhere(d.estate), true))
  }

  // ----- Naming and leaving -----

  /** Configuration is authoritative over who is named; being named lets somebody who left back in. */
  function Named(d: Deployment, people: set<nat>): Deployment {
    d.(accounts := map p | p in d.accounts.Keys + people ::
         var a := if p in d.accounts then d.accounts[p] else STRANGER;
         if p in people then a.(bootstrap := true, left := false) else a.(bootstrap := false))
  }

  function Departed(d: Deployment, person: nat, left: bool): Deployment {
    if person in d.accounts then d.(accounts := d.accounts[person := d.accounts[person].(left := left)]) else d
  }

  // ----- Runs -----

  datatype Event =
    | SignIn(person: nat, m: Mappings, groups: set<string>)
    | Switch(mode: Mode)
    | Name(people: set<nat>)
    | Depart(person: nat, left: bool)

  function After(d: Deployment, e: Event): Deployment {
    match e
    case SignIn(person, m, groups) => SignedIn(d, person, GivenBy(m, groups))
    case Switch(mode) => Switched(d, mode)
    case Name(people) => Named(d, people)
    case Depart(person, left) => Departed(d, person, left)
  }

  function Run(d: Deployment, events: seq<Event>): Deployment
    decreases |events|
  {
    if events == [] then d else After(Run(d, events[..|events| - 1]), events[|events| - 1])
  }

  /** Whoever left is let in by no group, and their sign-in changes nothing; whoever is unknown is let in
      exactly where some group gives them something. */
  lemma SigningInMeans(d: Deployment, person: nat, m: Mappings, groups: set<string>)
    ensures var d', given := After(d, SignIn(person, m, groups)), GivenBy(m, groups);
            && (person in d.accounts && d.accounts[person].left ==> d' == d)
            && (person in d.accounts && !d.accounts[person].left ==> person in d'.accounts && !d'.accounts[person].left)
            && (person !in d.accounts ==>
                  (person in d'.accounts <==>
                     given.roles != {} || given.everywhere != {} || given.administers || given.audits))
  {
    hide GivenBy;
  }

  /** Some group of these is mapped to administering, or to auditing. */
  ghost predicate MappedOver(m: Mappings, groups: set<string>, over: Over) {
    exists b :: b in m.over && b.group in groups && b.grants == over
  }

  /** Whoever is let in holds, derived, what the mappings give their groups and nothing else derived;
      nothing assigned moves, and nothing of anybody else's. They administer or audit where a group says
      so, or where it was granted here. */
  lemma LetInHolds(d: Deployment, person: nat, m: Mappings, groups: set<string>, g: Grant, e: EstateGrant)
    requires person in d.accounts && !d.accounts[person].left
    ensures var d' := After(d, SignIn(person, m, groups));
            && (g in d'.grants <==>
                  if g.person != person || g.source == Assigned then g in d.grants
                  else g.active && exists b :: b in m.onProducts && b.group in groups && b.product in m.products
                                            && Valid(b.role) && b.role == g.role && m.products[b.product] == g.product)
            && (e in d'.estate <==>
                  if e.person != person || e.source == Assigned then e in d.estate
                  else e.active && exists b :: b in m.everywhere && b.group in groups && Valid(b.role) && b.role == e.role)
            && d'.accounts - {person} == d.accounts - {person}
            && person in d'.accounts
            && var was, a := d.accounts[person], d'.accounts[person];
               && a.bootstrap == was.bootstrap && !a.left
               && (a.admin <==> MappedOver(m, groups, Administers) || (was.admin && !was.adminDerived))
               && (a.audits <==> MappedOver(m, groups, Audits) || (was.audits && !was.auditsDerived))
  {
    var d', given := After(d, SignIn(person, m, groups)), GivenBy(m, groups);
    var pair := (g.product, g.role);
    assert OnOne(person, pair) == Grant(person, g.product, g.role, Derived, true);
    assert OnEvery(person, e.role) == EstateGrant(person, e.role, Derived, true);
    if g.person == person && g.source == Derived {
      assert g in d'.grants <==> g.active && pair in given.roles by {
        if pair in given.roles { assert OnOne(person, pair) in d'.grants; }
      }
    }
    if e.person == person && e.source == Derived {
      assert e in d'.estate <==> e.active && e.role in given.everywhere by {
        if e.role in given.everywhere { assert OnEvery(person, e.role) in d'.estate; }
      }
    }
  }

  // ----- Who is out -----

  /** Somebody is out where they left and have not come back since, nor been named by configuration. */
  predicate OutNow(d: Deployment, events: seq<Event>, p: nat)
    decreases |events|
  {
    if events == [] then p in d.accounts && d.accounts[p].left
    else
      var before, e := events[..|events| - 1], events[|events| - 1];
      if e.Name? && p in e.people then false
      else if e.Depart? && e.person == p && p in Run(d, before).accounts then e.left
      else OutNow(d, before, p)
  }

  /** No sign-in and no switch lets anybody out, or back in: over every run, somebody is out exactly
      when their last leaving or coming back, or being named, says so. */
  lemma {:induction false} OutExactlyWhen(d: Deployment, events: seq<Event>, p: nat)
    ensures var a := Run(d, events).accounts; p in a && a[p].left <==> OutNow(d, events, p)
  {
    hide After;
    if events != [] {
      var before, e := events[..|events| - 1], events[|events| - 1];
      OutExactlyWhen(d, before, p);
      OutAfter(Run(d, before), e, p);
    }
  }

  lemma OutAfter(d: Deployment, e: Event, p: nat)
    ensures var a, was := After(d, e).accounts, p in d.accounts && d.accounts[p].left;
            p in a && a[p].left <==>
              if e.Name? && p in e.people then false
              else if e.Depart? && e.person == p && p in d.accounts then e.left
              else was
  {
    hide GivenBy, Replaced, Flagged;
    match e
    case SignIn(_, _, _) => SigningInKeepsOut(d, e.person, GivenBy(e.m, e.groups), p);
    case Switch(_) =>
    case Name(_) =>
    case Depart(_, _) =>
  }

  lemma SigningInKeepsOut(d: Deployment, person: nat, given: Given, p: nat)
    ensures var a := SignedIn(d, person, given).accounts;
            p in a && a[p].left <==> p in d.accounts && d.accounts[p].left
  {}

  // ----- Administration follows a simple history -----

  /** What the last sign-in since the last switch to direct said of somebody, or that it gave nothing. */
  function LastGiven(d: Deployment, events: seq<Event>, p: nat): Given
    decreases |events|
  {
    if events == [] then NOTHING
    else
      var before, e := events[..|events| - 1], events[|events| - 1];
      if e.SignIn? && e.person == p && Admitted(Run(d, before), p, GivenBy(e.m, e.groups)) then GivenBy(e.m, e.groups)
      else if e == Switch(Direct) then NOTHING
      else LastGiven(d, before, p)
  }

  /** Configuration names somebody: the last naming did, or nobody has named anybody since the start. */
  predicate NamedNow(d: Deployment, events: seq<Event>, p: nat)
    decreases |events|
  {
    if events == [] then p in d.accounts && d.accounts[p].bootstrap
    else
      var e := events[|events| - 1];
      if e.Name? then p in e.people else NamedNow(d, events[..|events| - 1], p)
  }

  function Of(d: Deployment, p: nat): Account {
    if p in d.accounts then d.accounts[p] else STRANGER
  }

  ghost predicate NothingDerived(d: Deployment) {
    forall p :: p in d.accounts ==> !d.accounts[p].adminDerived && !d.accounts[p].auditsDerived
  }

  /** What one event makes of one account. */
  function OfAfter(d: Deployment, e: Event, p: nat): Account {
    var a := Of(d, p);
    match e
    case SignIn(person, m, groups) =>
      if person == p && Admitted(d, p, GivenBy(m, groups)) then Flagged(a, GivenBy(m, groups)) else a
    case Switch(mode) => if mode == Direct then Underived(a) else a
    case Name(people) => if p in people then a.(bootstrap := true, left := false) else a.(bootstrap := false)
    case Depart(person, left) => if person == p && p in d.accounts then a.(left := left) else a
  }

  lemma AccountAfter(d: Deployment, e: Event, p: nat)
    ensures Of(After(d, e), p) == OfAfter(d, e, p)
  {
    hide GivenBy;
  }

  /** Administration, over every run of sign-ins, switches, namings and departures: somebody
      administers exactly when configuration names them now, or it was granted to them here, or the
      last sign-in since the last switch to direct said so; and it is marked derived exactly when
      only a group said so. Auditing follows the same law with nobody named. */
  lemma {:induction false} AdministrationFollowsHistory(d: Deployment, events: seq<Event>, p: nat)
    requires NothingDerived(d)
    ensures var a, was, said := Of(Run(d, events), p), Of(d, p), LastGiven(d, events, p);
            && (a.admin || a.bootstrap <==> NamedNow(d, events, p) || was.admin || said.administers)
            && (a.adminDerived <==> !was.admin && said.administers)
            && (a.audits <==> was.audits || said.audits)
            && (a.auditsDerived <==> !was.audits && said.audits)
    ensures var a, was, said := Of(Run(d, events), p), Of(d, p), LastGiven(d, events, p);
            (a.admin <==> was.admin || said.administers) && (a.bootstrap <==> NamedNow(d, events, p))
  {
    hide GivenBy, After, Admitted;
    if events != [] {
      var before, e := events[..|events| - 1], events[|events| - 1];
      AdministrationFollowsHistory(d, before, p);
      AccountAfter(Run(d, before), e, p);
      match e
      case SignIn(_, _, _) =>
      case Switch(_) =>
      case Name(_) =>
      case Depart(_, _) =>
    }
  }

  // ----- Switching is reversible -----

  ghost predicate AllAssigned(d: Deployment) {
    && (forall g :: g in d.grants ==> g.source == Assigned && g.active)
    && (forall g :: g in d.estate ==> g.source == Assigned && g.active)
  }

  /** The assigned grants are the original ones, every one of them in force or every one set aside. */
  ghost predicate Remembers(d: Deployment, was: Deployment, active: bool) {
    && (forall g :: g in d.grants && g.source == Assigned ==> g.active == active && g.(active := true) in was.grants)
    && (forall g :: g in was.grants ==> g.(active := active) in d.grants)
    && (forall g :: g in d.estate && g.source == Assigned ==> g.active == active && g.(active := true) in was.estate)
    && (forall g :: g in was.estate ==> g.(active := active) in d.estate)
  }

  /** The last switch, if there was one, was to this mode. */
  predicate LastSwitch(events: seq<Event>, mode: Mode)
    decreases |events|
  {
    if events == [] then mode == Direct
    else
      var e := events[|events| - 1];
      if e.Switch? then e.mode == mode else LastSwitch(events[..|events| - 1], mode)
  }

  lemma StepRemembers(d: Deployment, was: Deployment, e: Event, active: bool)
    requires AllAssigned(was) && Remembers(d, was, active)
    ensures Remembers(After(d, e), was, if e.Switch? then e.mode == Direct else active)
  {
    hide GivenBy;
    var d' := After(d, e);
    match e
    case Switch(mode) =>
      forall g | g in was.grants ensures g.(active := mode == Direct) in d'.grants {
        assert g.(active := active) in d.grants;
        assert Set(g.(active := active), mode == Direct) in d'.grants;
      }
      forall g | g in was.estate ensures g.(active := mode == Direct) in d'.estate {
        assert g.(active := active) in d.estate;
        assert SetEverywhere(g.(active := active), mode == Direct) in d'.estate;
      }
    case _ =>
  }

  lemma {:induction false} RunRemembers(was: Deployment, events: seq<Event>)
    requires AllAssigned(was)
    ensures Remembers(Run(was, events), was, LastSwitch(events, Direct))
  {
    hide After, Remembers;
    if events == [] {
      RemembersItself(was);
    } else {
      var before, e := events[..|events| - 1], events[|events| - 1];
      RunRemembers(was, before);
      StepRemembers(Run(was, before), was, e, LastSwitch(before, Direct));
    }
  }

  lemma RemembersItself(was: Deployment)
    requires AllAssigned(was)
    ensures Remembers(was, was, true)
  {
    forall g | g in was.grants ensures g.(active := true) == g {}
    forall g | g in was.estate ensures g.(active := true) == g {}
  }

  /** Switching is reversible: from assigned roles all in force, through any switches, sign-ins,
      namings and departures, a switch back to direct leaves exactly the assigned grants there were,
      all in force, and nothing derived. */
  lemma SwitchingIsReversible(was: Deployment, events: seq<Event>)
    requires AllAssigned(was)
    ensures var d := Run(was, events + [Switch(Direct)]); d.grants == was.grants && d.estate == was.estate
  {
    var through := events + [Switch(Direct)];
    assert through[..|events|] == events;
    RunRemembers(was, through);
    var d := Run(was, through);
    forall g ensures g in d.grants <==> g in was.grants {
      if g in d.grants { assert g.(active := true) == g; }
      if g in was.grants { assert g.(active := true) == g; }
    }
    forall g ensures g in d.estate <==> g in was.estate {
      if g in d.estate { assert g.(active := true) == g; }
      if g in was.estate { assert g.(active := true) == g; }
    }
  }

  // ----- Between the switches, a person holds what their groups map to -----

  function RolesInForce(d: Deployment, p: nat): set<(nat, Role)> {
    set g | g in d.grants && g.person == p && g.active :: (g.product, g.role)
  }

  function EverywhereInForce(d: Deployment, p: nat): set<Role> {
    set g | g in d.estate && g.person == p && g.active :: g.role
  }

  ghost predicate Holds(d: Deployment, p: nat, given: Given) {
    RolesInForce(d, p) == given.roles && EverywhereInForce(d, p) == given.everywhere
  }

  /** Nothing assigned is in force, and everything derived is. */
  ghost predicate OnlyDerived(d: Deployment) {
    && (forall g :: g in d.grants ==> (g.active <==> g.source == Derived))
    && (forall g :: g in d.estate ==> (g.active <==> g.source == Derived))
  }

  lemma SigningInHolds(d: Deployment, p: nat, given: Given)
    requires OnlyDerived(d) && Admitted(d, p, given)
    ensures Holds(SignedIn(d, p, given), p, given)
  {
    var d' := SignedIn(d, p, given);
    forall pair ensures pair in RolesInForce(d', p) <==> pair in given.roles {
      if pair in given.roles { assert OnOne(p, pair) in d'.grants; }
    }
    forall role ensures role in EverywhereInForce(d', p) <==> role in given.everywhere {
      if role in given.everywhere { assert OnEvery(p, role) in d'.estate; }
    }
  }

  ghost predicate DerivedActive(d: Deployment) {
    && (forall g :: g in d.grants && g.source == Derived ==> g.active)
    && (forall g :: g in d.estate && g.source == Derived ==> g.active)
  }

  /** Somebody's last admitted sign-in was since the last switch. */
  predicate SignedInSince(d: Deployment, events: seq<Event>, p: nat)
    decreases |events|
  {
    events != [] &&
    var before, e := events[..|events| - 1], events[|events| - 1];
    if e.SignIn? && e.person == p && Admitted(Run(d, before), p, GivenBy(e.m, e.groups)) then true
    else !e.Switch? && SignedInSince(d, before, p)
  }

  lemma {:induction false} RunDerivesOnly(was: Deployment, events: seq<Event>)
    requires AllAssigned(was)
    ensures DerivedActive(Run(was, events))
    ensures LastSwitch(events, GroupBound) ==> OnlyDerived(Run(was, events))
  {
    if events != [] {
      var before, e := events[..|events| - 1], events[|events| - 1];
      RunDerivesOnly(was, before);
      StepDerivesOnly(Run(was, before), e);
    }
  }

  lemma StepDerivesOnly(d: Deployment, e: Event)
    requires DerivedActive(d)
    ensures DerivedActive(After(d, e))
    ensures e == Switch(GroupBound) || (OnlyDerived(d) && !e.Switch?) ==> OnlyDerived(After(d, e))
  {
    hide GivenBy;
  }

  lemma StepLeavesOthers(d: Deployment, e: Event, p: nat, given: Given)
    requires Holds(d, p, given) && !e.Switch?
    requires e.SignIn? && e.person == p ==> !Admitted(d, p, GivenBy(e.m, e.groups))
    ensures Holds(After(d, e), p, given)
  {
    hide GivenBy;
    var d' := After(d, e);
    if e.SignIn? && d' != d {
      forall pair ensures pair in RolesInForce(d', p) <==> pair in RolesInForce(d, p) {
        if pair in RolesInForce(d, p) {
          var g :| g in d.grants && g.person == p && g.active && (g.product, g.role) == pair;
          assert g in d'.grants;
        }
      }
      forall role ensures role in EverywhereInForce(d', p) <==> role in EverywhereInForce(d, p) {
        if role in EverywhereInForce(d, p) {
          var g :| g in d.estate && g.person == p && g.active && g.role == role;
          assert g in d'.estate;
        }
      }
    }
  }

  /** While roles come from groups, whoever has signed in since the switch holds exactly what their
      groups mapped to when they did, on each product and on every product. */
  lemma {:induction false} GroupsDecideWhatIsHeld(was: Deployment, events: seq<Event>, p: nat)
    requires AllAssigned(was) && LastSwitch(events, GroupBound) && SignedInSince(was, events, p)
    ensures Holds(Run(was, events), p, LastGiven(was, events, p))
  {
    hide GivenBy, After, Holds;
    var before, e := events[..|events| - 1], events[|events| - 1];
    RunDerivesOnly(was, before);
    var d := Run(was, before);
    if e.SignIn? && e.person == p && Admitted(d, p, GivenBy(e.m, e.groups)) {
      SigningInHolds(d, p, GivenBy(e.m, e.groups));
      SignInIs(d, e);
    } else {
      GroupsDecideWhatIsHeld(was, before, p);
      StepLeavesOthers(d, e, p, LastGiven(was, before, p));
    }
  }

  lemma SignInIs(d: Deployment, e: Event)
    requires e.SignIn?
    ensures After(d, e) == SignedIn(d, e.person, GivenBy(e.m, e.groups))
  {}
}
