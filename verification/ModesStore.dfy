/** The store's acts on accounts and grants, statement by statement, each proved to make of the tables
    what Modes says. */
module ModesStore {
  import opened Common
  import opened Roles
  import opened Text
  import opened Modes

  /** Every pairing of a product with a role held on it. */
  ghost function Flat(roles: map<nat, seq<Role>>): set<(nat, Role)> {
    set p, r | p in roles && r in roles[p] :: (p, r)
  }

  ghost function Listed(rows: seq<(nat, Role)>): set<(nat, Role)> {
    set i | 0 <= i < |rows| && Valid(rows[i].1) :: rows[i]
  }

  ghost function ListedEverywhere(rows: seq<Role>): set<Role> {
    set i | 0 <= i < |rows| && Valid(rows[i]) :: rows[i]
  }

  /** The groups named, trimmed, the blank left out. */
  function NamedGroups(groups: seq<string>): set<string> {
    set g | g in groups && Trim(g) != "" :: Trim(g)
  }

  /** What the three queries answer for the groups named: their roles on declared products, their roles
      on every product, and what they hold over the deployment, in any order and however often. */
  datatype Rows = Rows(bound: seq<(nat, Role)>, everywhere: seq<Role>, over: seq<Over>)

  ghost predicate Answers(rows: Rows, m: Mappings, named: set<string>) {
    && Elements(rows.bound) == (set b | b in m.onProducts && b.group in named && b.product in m.products ::
                                  (m.products[b.product], b.role))
    && Elements(rows.everywhere) == (set b | b in m.everywhere && b.group in named :: b.role)
    && Elements(rows.over) == set b | b in m.over && b.group in named :: b.grants
  }

  /** What the groups give, read from their rows: each known role once on each product, none without a
      role, each once on every product, and what is held over the deployment. */
  method RolesFor(groups: seq<string>, rows: Rows, ghost m: Mappings)
    returns (roles: map<nat, seq<Role>>, held: seq<Role>, administers: bool, audits: bool)
    requires Answers(rows, m, NamedGroups(groups))
    ensures Given(Flat(roles), Elements(held), administers, audits) == GivenBy(m, NamedGroups(groups))
    ensures forall p :: p in roles ==> Distinct(roles[p]) && roles[p] != []
    ensures Distinct(held)
  {
    hide Trim, NamedGroups, Answers, GivenBy, Listed, ListedEverywhere, Flat;
    NobodyNamed();
    assert groups[..0] == [];
    var named: seq<string> := [];
    for i := 0 to |groups|
      invariant Elements(named) == NamedGroups(groups[..i])
    {
      NamedGroupsAdd(groups, i);
      var trimmed := Trim(groups[i]);
      if trimmed != "" {
        named := named + [trimmed];
        assert Elements(named) == Elements(named[..|named| - 1]) + {trimmed};
      }
    }
    assert groups[..|groups|] == groups;
    if |named| == 0 {
      assert Elements(named) == {};
      NoGroupsGiveNothing(m);
      return map[], [], false, false;
    }
    roles, held, administers, audits := RolesIn(rows.bound, rows.everywhere, rows.over);
    RowsGive(rows, m, NamedGroups(groups));
  }

  lemma NamedGroupsAdd(groups: seq<string>, i: nat)
    requires i < |groups|
    ensures NamedGroups(groups[..i + 1]) == NamedGroups(groups[..i]) + if Trim(groups[i]) != "" then {Trim(groups[i])} else {}
  {
    hide Trim;
    assert groups[..i + 1] == groups[..i] + [groups[i]];
  }

  lemma NobodyNamed()
    ensures NamedGroups([]) == {}
  {}

  lemma NoGroupsGiveNothing(m: Mappings)
    ensures GivenBy(m, {}) == Given(Flat(map[]), Elements([]), false, false)
  {}

  lemma HeldOver(rows: Rows, m: Mappings, named: set<string>, o: Over)
    requires Answers(rows, m, named)
    ensures (exists b :: b in m.over && b.group in named && b.grants == o) <==> o in rows.over
  {
    assert o in rows.over <==> o in Elements(rows.over);
  }

  /** The rows answered give what the groups give. */
  lemma RowsGive(rows: Rows, m: Mappings, named: set<string>)
    requires Answers(rows, m, named)
    ensures GivenBy(m, named) ==
      Given(Listed(rows.bound), ListedEverywhere(rows.everywhere), Administers in rows.over, Audits in rows.over)
  {
    var given := GivenBy(m, named);
    forall x ensures x in given.roles <==> x in Listed(rows.bound) {
      assert x in Listed(rows.bound) <==> x in Elements(rows.bound) && Valid(x.1);
    }
    forall r ensures r in given.everywhere <==> r in ListedEverywhere(rows.everywhere) {
      assert r in ListedEverywhere(rows.everywhere) <==> r in Elements(rows.everywhere) && Valid(r);
    }
    assert given.roles == Listed(rows.bound);
    assert given.everywhere == ListedEverywhere(rows.everywhere);
    HeldOver(rows, m, named, Administers);
    HeldOver(rows, m, named, Audits);
  }

  /** What rows of groups give, whoever's they are. */
  method RolesIn(bound: seq<(nat, Role)>, everywhere: seq<Role>, over: seq<Over>)
    returns (roles: map<nat, seq<Role>>, held: seq<Role>, administers: bool, audits: bool)
    ensures Flat(roles) == Listed(bound)
    ensures forall p :: p in roles ==> Distinct(roles[p]) && roles[p] != []
    ensures Elements(held) == ListedEverywhere(everywhere) && Distinct(held)
    ensures administers <==> Administers in over
    ensures audits <==> Audits in over
  {
    roles := map[];
    for i := 0 to |bound|
      invariant Flat(roles) == Listed(bound[..i])
      invariant forall p :: p in roles ==> Distinct(roles[p]) && roles[p] != []
    {
      var (product, role) := bound[i];
      var sofar := if product in roles then roles[product] else [];
      ghost var before := roles;
      if Valid(role) && role !in sofar {
        roles := roles[product := sofar + [role]];
        FlatAdds(before, product, role);
      } else if Valid(role) {
        assert (product, role) in Flat(roles);
      }
      ListedAdds(bound, i);
    }
    assert bound[..|bound|] == bound;
    held := [];
    for i := 0 to |everywhere|
      invariant Elements(held) == ListedEverywhere(everywhere[..i]) && Distinct(held)
    {
      if Valid(everywhere[i]) && everywhere[i] !in held {
        held := held + [everywhere[i]];
      }
      ListedEverywhereAdds(everywhere, i);
    }
    assert everywhere[..|everywhere|] == everywhere;
    administers, audits := false, false;
    for i := 0 to |over|
      invariant administers <==> Administers in over[..i]
      invariant audits <==> Audits in over[..i]
    {
      match over[i]
      case Administers => administers := true;
      case Audits => audits := true;
    }
  }

  lemma FlatAdds(roles: map<nat, seq<Role>>, product: nat, role: Role)
    ensures var sofar := if product in roles then roles[product] else [];
            Flat(roles[product := sofar + [role]]) == Flat(roles) + {(product, role)}
  {}

  lemma ListedAdds(rows: seq<(nat, Role)>, i: nat)
    requires i < |rows|
    ensures Listed(rows[..i + 1]) == Listed(rows[..i]) + if Valid(rows[i].1) then {rows[i]} else {}
  {
    var a, b := Listed(rows[..i + 1]), Listed(rows[..i]) + if Valid(rows[i].1) then {rows[i]} else {};
    forall x ensures x in a <==> x in b {
      if x in a {
        var j :| 0 <= j < i + 1 && Valid(rows[..i + 1][j].1) && rows[..i + 1][j] == x;
        if j < i { assert rows[..i][j] == x; }
      }
      if x in Listed(rows[..i]) {
        var j :| 0 <= j < i && Valid(rows[..i][j].1) && rows[..i][j] == x;
        assert rows[..i + 1][j] == x;
      }
      if x == rows[i] { assert rows[..i + 1][i] == x; }
    }
  }

  lemma ListedEverywhereAdds(rows: seq<Role>, i: nat)
    requires i < |rows|
    ensures ListedEverywhere(rows[..i + 1]) == ListedEverywhere(rows[..i]) + if Valid(rows[i]) then {rows[i]} else {}
  {
    var a, b := ListedEverywhere(rows[..i + 1]), ListedEverywhere(rows[..i]) + if Valid(rows[i]) then {rows[i]} else {};
    forall x ensures x in a <==> x in b {
      if x in a {
        var j :| 0 <= j < i + 1 && Valid(rows[..i + 1][j]) && rows[..i + 1][j] == x;
        if j < i { assert rows[..i][j] == x; }
      }
      if x in ListedEverywhere(rows[..i]) {
        var j :| 0 <= j < i && Valid(rows[..i][j]) && rows[..i][j] == x;
        assert rows[..i + 1][j] == x;
      }
      if x == rows[i] { assert rows[..i + 1][i] == x; }
    }
  }

  /** A derived grant for every role the groups give on a product. */
  method FreshRows(person: nat, roles: map<nat, seq<Role>>) returns (rows: set<Grant>)
    ensures rows == set p | p in Flat(roles) :: OnOne(person, p)
  {
    rows := {};
    var products := roles.Keys;
    while products != {}
      invariant products <= roles.Keys
      invariant rows == set p | p in Flat(roles) && p.0 !in products :: OnOne(person, p)
      decreases |products|
    {
      var product :| product in products;
      ghost var before := rows;
      for i := 0 to |roles[product]|
        invariant rows == before + set r | r in roles[product][..i] :: OnOne(person, (product, r))
      {
        rows := rows + {Grant(person, product, roles[product][i], Derived, true)};
        RowsAdd(person, product, roles[product], i);
      }
      assert roles[product][..|roles[product]|] == roles[product];
      RowsOfProduct(person, roles, Flat(roles), products, product);
      products := products - {product};
    }
  }

  method FreshEverywhere(person: nat, everywhere: seq<Role>) returns (rows: set<EstateGrant>)
    ensures rows == set r | r in Elements(everywhere) :: OnEvery(person, r)
  {
    rows := {};
    for i := 0 to |everywhere|
      invariant rows == set r | r in everywhere[..i] :: OnEvery(person, r)
    {
      rows := rows + {EstateGrant(person, everywhere[i], Derived, true)};
      RowsAddEverywhere(person, everywhere, i);
    }
    assert everywhere[..|everywhere|] == everywhere;
    assert rows == set r | r in Elements(everywhere) :: OnEvery(person, r);
  }

  class RoleTables {
    var accounts: map<nat, Account>
    var grants: set<Grant>
    var estate: set<EstateGrant>

    function Contents(): Deployment
      reads this
    {
      Deployment(accounts, grants, estate)
    }

    constructor ()
      ensures Contents() == Deployment(map[], {}, {})
    {
      accounts, grants, estate := map[], {}, {};
    }

    /** Make somebody's derived grants exactly what their groups say. */
    method ReplaceDerived(person: nat, roles: map<nat, seq<Role>>, everywhere: seq<Role>, ghost given: Given)
      requires given.roles == Flat(roles) && given.everywhere == Elements(everywhere)
      modifies `grants, `estate
      ensures Contents() == Replaced(old(Contents()), person, given)
    {
      grants := set g | g in grants && !Replaceable(g, person);
      estate := set g | g in estate && !ReplaceableEverywhere(g, person);
      var rows := FreshRows(person, roles);
      grants := grants + rows;
      var across := FreshEverywhere(person, everywhere);
      estate := estate + across;
    }

    /** What a sign-in by groups changes, for somebody known or somebody their groups authorize. */
    method Admit(person: nat, roles: map<nat, seq<Role>>, everywhere: seq<Role>, administers: bool, audits: bool,
                 ghost given: Given)
      returns (admitted: bool)
      requires given == Given(Flat(roles), Elements(everywhere), administers, audits)
      requires forall p :: p in roles ==> roles[p] != []
      modifies this
      ensures admitted <==> Admitted(old(Contents()), person, given)
      ensures admitted <==> if person in old(accounts) then !old(accounts)[person].left
                            else roles != map[] || everywhere != [] || administers || audits
      ensures !admitted ==> Contents() == old(Contents())
      ensures Contents() == SignedIn(old(Contents()), person, given)
    {
      if person in accounts && accounts[person].left {
        return false;
      }
      if person !in accounts && |roles| == 0 && |everywhere| == 0 && !administers && !audits {
        assert given == NOTHING;
        return false;
      }
      if person !in accounts {
        SomethingGiven(roles, everywhere, given);
        accounts := accounts[person := STRANGER];
      }
      var account := accounts[person];
      var effective := administers || (account.admin && !account.adminDerived);
      var derived := account.adminDerived || (administers && !account.admin);
      if !effective {
        derived := false;
      }
      var auditing := audits || (account.audits && !account.auditsDerived);
      var auditsDerived := account.auditsDerived || (audits && !account.audits);
      if !auditing {
        auditsDerived := false;
      }
      if account.admin != effective || account.adminDerived != derived || derived
         || account.audits != auditing || account.auditsDerived != auditsDerived || auditsDerived
      {
        accounts := accounts[person := account.(admin := effective, adminDerived := derived,
                                                audits := auditing, auditsDerived := auditsDerived)];
      }
      assert accounts == old(accounts)[person := Flagged(Of(old(Contents()), person), given)];
      ReplaceDerived(person, roles, everywhere, given);
      admitted := true;
    }

    /** Clear what groups derived over the deployment, a column at a time. */
    method ClearDerivedFlags()
      modifies `accounts
      ensures accounts == map p | p in old(accounts) :: Underived(old(accounts)[p])
    {
      ClearDerivedAdministering();
      ClearDerivedAuditing();
    }

    method ClearDerivedAdministering()
      modifies `accounts
      ensures accounts == map p | p in old(accounts) :: NotAdministering(old(accounts)[p])
    {
      accounts := map p | p in accounts ::
        if accounts[p].adminDerived then accounts[p].(admin := false) else accounts[p];
      accounts := map p | p in accounts ::
        if accounts[p].adminDerived then accounts[p].(adminDerived := false) else accounts[p];
    }

    method ClearDerivedAuditing()
      modifies `accounts
      ensures accounts == map p | p in old(accounts) :: NotAuditing(old(accounts)[p])
    {
      accounts := map p | p in accounts ::
        if accounts[p].auditsDerived then accounts[p].(audits := false) else accounts[p];
      accounts := map p | p in accounts ::
        if accounts[p].auditsDerived then accounts[p].(auditsDerived := false) else accounts[p];
    }

    /** The statements of a switch, in their order. */
    method SwitchTo(mode: Mode)
      modifies this
      ensures Contents() == Switched(old(Contents()), mode)
      ensures forall g :: g in grants ==> if g.source == Derived then mode == GroupBound else g.active <==> mode == Direct
      ensures forall g :: g in estate ==> if g.source == Derived then mode == GroupBound else g.active <==> mode == Direct
      ensures mode == Direct ==> forall p :: p in accounts ==> !accounts[p].adminDerived && !accounts[p].auditsDerived
    {
      match mode
      case GroupBound =>
        grants := AllSet(grants, false);
        estate := AllSetEverywhere(estate, false);
      case Direct =>
        grants := WithoutDerived(grants);
        estate := WithoutDerivedEverywhere(estate);
        grants := AllSet(grants, true);
        estate := AllSetEverywhere(estate, true);
        ClearDerivedFlags();
    }

    /** Make configuration authoritative over who is named, answering who came to be. */
    method NameBootstrapAdmins(people: seq<nat>) returns (named: seq<nat>)
      modifies `accounts
      ensures Contents() == Named(old(Contents()), Elements(people))
      ensures forall p :: p in named <==> p in people && !Of(old(Contents()), p).bootstrap
    {
      hide NamedAccount, Of;
      StartNaming(accounts, people);
      accounts := map p | p in accounts ::
        if p !in people then accounts[p].(bootstrap := false) else accounts[p];
      named := [];
      var i := 0;
      while i < |people|
        modifies `accounts
        invariant 0 <= i <= |people|
        invariant accounts == NamedSoFar(old(accounts), people, people[..i])
        invariant forall p :: p in named <==> p in people[..i] && !Of(old(Contents()), p).bootstrap
      {
        NamingOneMore(old(Contents()), people, i);
        var person := people[i];
        if person !in accounts {
          accounts := accounts[person := STRANGER];
        }
        if !accounts[person].bootstrap {
          named := named + [person];
        }
        accounts := accounts[person := accounts[person].(bootstrap := true, left := false)];
        i := i + 1;
      }
      assert people[..|people|] == people;
      AllNamed(old(Contents()), people);
    }
  }

  /** Administering that a group derived is cleared. */
  ghost function NotAdministering(a: Account): Account {
    a.(admin := a.admin && !a.adminDerived, adminDerived := false)
  }

  ghost function NotAuditing(a: Account): Account {
    a.(audits := a.audits && !a.auditsDerived, auditsDerived := false)
  }

  ghost function NamedAccount(was: map<nat, Account>, all: seq<nat>, done: seq<nat>, p: nat): Account {
    var a := if p in was then was[p] else STRANGER;
    if p in done then a.(bootstrap := true, left := false) else if p in all then a else a.(bootstrap := false)
  }

  ghost function NamedSoFar(was: map<nat, Account>, all: seq<nat>, done: seq<nat>): map<nat, Account> {
    map p | p in was.Keys + Elements(done) :: NamedAccount(was, all, done, p)
  }

  lemma NamingOneMore(was: Deployment, all: seq<nat>, i: nat)
    requires i < |all|
    ensures var person, now := all[i], NamedSoFar(was.accounts, all, all[..i]);
            var held := if person in now then now else now[person := STRANGER];
            && (held[person].bootstrap <==> person in all[..i] || Of(was, person).bootstrap)
            && held[person := held[person].(bootstrap := true, left := false)]
               == NamedSoFar(was.accounts, all, all[..i + 1])
    ensures forall p :: p in all[..i + 1] <==> p in all[..i] || p == all[i]
  {
    hide NamedAccount;
    var person, now, after := all[i], NamedSoFar(was.accounts, all, all[..i]), NamedSoFar(was.accounts, all, all[..i + 1]);
    assert all[..i + 1] == all[..i] + [person];
    assert Elements(all[..i + 1]) == Elements(all[..i]) + {person};
    forall p ensures p in after <==> p in now || p == person {}
    forall p | p in after
      ensures after[p] == if p == person then NamedAccount(was.accounts, all, all[..i], p).(bootstrap := true, left := false) else now[p]
    {
      NamedAccountNext(was.accounts, all, i, p);
    }
    NamedBefore(was, all, i);
  }

  lemma StartNaming(was: map<nat, Account>, all: seq<nat>)
    ensures (map p | p in was :: if p !in all then was[p].(bootstrap := false) else was[p]) == NamedSoFar(was, all, all[..0])
  {}

  lemma AllNamed(was: Deployment, all: seq<nat>)
    ensures NamedSoFar(was.accounts, all, all) == Named(was, Elements(all)).accounts
  {}

  lemma NamedAccountNext(was: map<nat, Account>, all: seq<nat>, i: nat, p: nat)
    requires i < |all|
    ensures var before := NamedAccount(was, all, all[..i], p);
            NamedAccount(was, all, all[..i + 1], p) == if p == all[i] then before.(bootstrap := true, left := false) else before
  {
    assert all[..i + 1] == all[..i] + [all[i]];
  }

  lemma NamedBefore(was: Deployment, all: seq<nat>, i: nat)
    requires i < |all|
    ensures var before := NamedAccount(was.accounts, all, all[..i], all[i]);
            && (before.bootstrap <==> all[i] in all[..i] || Of(was, all[i]).bootstrap)
            && (all[i] !in was.accounts && all[i] !in all[..i] ==> before == STRANGER)
  {}

  lemma RowsAdd(person: nat, product: nat, roles: seq<Role>, i: nat)
    requires i < |roles|
    ensures (set r | r in roles[..i + 1] :: OnOne(person, (product, r))) ==
      (set r | r in roles[..i] :: OnOne(person, (product, r))) + {Grant(person, product, roles[i], Derived, true)}
  {
    var more, rows := set r | r in roles[..i + 1] :: OnOne(person, (product, r)),
                      set r | r in roles[..i] :: OnOne(person, (product, r));
    forall g ensures g in more <==> g in rows || g == OnOne(person, (product, roles[i])) {
      assert roles[..i + 1] == roles[..i] + [roles[i]];
    }
  }

  lemma RowsAddEverywhere(person: nat, roles: seq<Role>, i: nat)
    requires i < |roles|
    ensures (set r | r in roles[..i + 1] :: OnEvery(person, r)) ==
      (set r | r in roles[..i] :: OnEvery(person, r)) + {EstateGrant(person, roles[i], Derived, true)}
  {
    var more, rows := set r | r in roles[..i + 1] :: OnEvery(person, r), set r | r in roles[..i] :: OnEvery(person, r);
    forall g ensures g in more <==> g in rows || g == OnEvery(person, roles[i]) {
      assert roles[..i + 1] == roles[..i] + [roles[i]];
    }
  }

  lemma RowsOfProduct(person: nat, roles: map<nat, seq<Role>>, flat: set<(nat, Role)>, products: set<nat>, product: nat)
    requires flat == Flat(roles) && product in products && products <= roles.Keys
    ensures (set p | p in flat && p.0 !in products - {product} :: OnOne(person, p)) ==
      (set p | p in flat && p.0 !in products :: OnOne(person, p))
      + set r | r in roles[product] :: OnOne(person, (product, r))
  {
    var all := set p | p in flat && p.0 !in products - {product} :: OnOne(person, p);
    var rest := set p | p in flat && p.0 !in products :: OnOne(person, p);
    var here := set r | r in roles[product] :: OnOne(person, (product, r));
    forall g ensures g in all <==> g in rest + here {
      if g in all {
        var p :| p in flat && p.0 !in products - {product} && OnOne(person, p) == g;
        assert p == (p.0, p.1);
      }
      if g in here {
        var r :| r in roles[product] && OnOne(person, (product, r)) == g;
        assert (product, r) in flat;
      }
    }
  }

  lemma SomethingGiven(roles: map<nat, seq<Role>>, everywhere: seq<Role>, given: Given)
    requires given.roles == Flat(roles) && given.everywhere == Elements(everywhere)
    requires forall p :: p in roles ==> roles[p] != []
    requires |roles| != 0 || |everywhere| != 0 || given.administers || given.audits
    ensures given != NOTHING
  {
    if |roles| != 0 {
      assert roles.Keys != {};
      var p :| p in roles;
      assert (p, roles[p][0]) in given.roles;
    } else if |everywhere| != 0 {
      assert everywhere[0] in given.everywhere;
    }
  }
}
