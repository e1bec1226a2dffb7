/** Entries as people type them: exactly when one is read, and as what (internal/access/mapping.go). */
module GroupRolesTyped {
  import opened Common
  import opened Sorting
  import opened Text
  import opened GroupRoles
  import opened GroupRolesRoundTrip

  // ----- Roles -----

  /** The words a group may be granted: a role on products, or one held over the deployment. */
  ghost predicate RoleWord(word: string) {
    || word == "approver" || word == "assigner"
    || word == "public-read" || word == "private-read" || word == "security-testing-read"
    || word == "public-triage" || word == "private-triage" || word == "security-testing-triage"
  }

  ghost predicate DeploymentWord(word: string) {
    word == "admin" || word == "audit"
  }

  lemma WordsAre(word: string)
    ensures Grantable(word) <==> RoleWord(word) || DeploymentWord(word)
    ensures word in OVER <==> DeploymentWord(word)
  {}

  lemma {:induction false} UnmarkedIsItself(s: string)
    requires '%' !in Escape(s)
    ensures Escape(s) == s
  {
    if s != [] {
      assert s == [s[0]] + s[1..];
      assert EscapeChar(s[0])[0] in Escape(s) && forall c :: c in Escape(s[1..]) ==> c in Escape(s);
      UnmarkedIsItself(s[1..]);
    }
  }

  lemma EscapedIsGrantable(word: string)
    ensures Grantable(Escape(word)) <==> Grantable(word)
    ensures Grantable(word) ==> Escape(word) == word
  {
    hide Escape, Grantable, Plain;
    if Grantable(word) {
      GrantableIsPlain(word);
      PlainFacts(word);
    }
    if Grantable(Escape(word)) {
      GrantableIsPlain(Escape(word));
      NoPercent(Escape(word));
      UnmarkedIsItself(word);
    }
  }

  lemma NoPercent(s: string)
    requires Plain(s)
    ensures '%' !in s
  {}

  /** Blanks around a name stay outside its escaping. */
  lemma TrimsAlike(name: string)
    ensures Trim(Escape(name)) == Escape(Trim(name)) && (Trim(name) == "" <==> Trim(Escape(name)) == "")
  {
    var left, right := TrimMeans(name);
    var trimmed := Trim(name);
    TrimTrims(name);
    hide Escape, Trim, Blank;
    EscapeConcat(left + trimmed, right);
    EscapeConcat(left, trimmed);
    BlanksStay(left);
    BlanksStay(right);
    if trimmed == [] { BlanksStay([]); } else { EscapeStaysTrimmed(trimmed); }
    TrimAround(left, Escape(trimmed), right);
  }

  /** The roles among what was typed, blanks skipped. */
  function Words(typed: seq<string>): seq<string> {
    if typed == [] then []
    else (if Trim(typed[0]) == "" then [] else [Trim(typed[0])]) + Words(typed[1..])
  }

  lemma {:induction false} WordsMembers(typed: seq<string>, word: string)
    ensures word in Words(typed) <==> word != "" && exists i :: 0 <= i < |typed| && Trim(typed[i]) == word
  {
    hide Trim;
    if typed != [] { WordsMembers(typed[1..], word); }
  }

  lemma RolesStep(parts: seq<string>)
    requires parts != []
    ensures var role, rest := Trim(parts[0]), ParseRoles(parts[1..]);
            ParseRoles(parts) ==
              if role == "" then rest
              else if !Grantable(role) then Err(NotARole)
              else if rest.Err? then rest else Ok([role] + rest.value)
  {
    hide Trim, Grantable;
  }

  ghost predicate EachGrantable(typed: seq<string>) {
    forall i :: 0 <= i < |typed| ==> Trim(typed[i]) == "" || Grantable(Trim(typed[i]))
  }

  lemma EachFromFirst(typed: seq<string>)
    requires typed != []
    ensures EachGrantable(typed) <==> (Trim(typed[0]) == "" || Grantable(Trim(typed[0]))) && EachGrantable(typed[1..])
  {
    hide Trim, Grantable;
    assert forall i :: 0 < i < |typed| ==> typed[i] == typed[1..][i - 1];
  }

  lemma {:induction false} RolesAsTyped(typed: seq<string>)
    ensures ParseRoles(EscapeAll(typed)) == if EachGrantable(typed) then Ok(Words(typed)) else Err(NotARole)
  {
    hide Trim, Grantable, Escape, ParseRoles, EachGrantable;
    if typed == [] {
      NoRolesAreRead();
      NoneTyped(typed);
    } else {
      RolesStep(EscapeAll(typed));
      RolesAsTyped(typed[1..]);
      assert EscapeAll(typed)[1..] == EscapeAll(typed[1..]);
      TrimsAlike(typed[0]);
      EscapedIsGrantable(Trim(typed[0]));
      EachFromFirst(typed);
      assert Trim(EscapeAll(typed)[0]) == Escape(Trim(typed[0]));
      assert Trim(typed[0]) == "" ==> Words(typed) == Words(typed[1..]);
    }
  }

  lemma NoneTyped(typed: seq<string>)
    requires typed == []
    ensures EachGrantable(typed)
  {}

  // ----- Products -----

  ghost predicate ProductName(typed: string) {
    0 < |Folded(typed)| <= 191
  }

  function AllFolded(typed: seq<string>): (r: seq<string>)
    ensures |r| == |typed| && forall i :: 0 <= i < |typed| ==> r[i] == Folded(typed[i])
  {
    seq(|typed|, i requires 0 <= i < |typed| => Folded(typed[i]))
  }

  lemma {:induction false} ProductsAsTyped(typed: seq<string>)
    ensures var products := ParseProducts(EscapeAll(typed));
            && (products.Ok? <==> forall i :: 0 <= i < |typed| ==> ProductName(typed[i]))
            && (products.Ok? ==> products.value == AllFolded(typed))
  {
    hide Folded, Escape, ParseProduct;
    if typed != [] {
      ProductsAsTyped(typed[1..]);
      assert EscapeAll(typed)[1..] == EscapeAll(typed[1..]);
      ProductAsTyped(typed[0]);
      assert forall i :: 0 < i < |typed| ==> typed[i] == typed[1..][i - 1];
      assert AllFolded(typed) == [Folded(typed[0])] + AllFolded(typed[1..]);
    }
  }

  // ----- One entry -----

  lemma GroupAsTyped(name: string)
    ensures ParseGroup(Escape(name)) ==
      if Trim(name) == "" then Err(NamesNoGroup) else if |Trim(name)| > 191 then Err(GroupTooLong) else Ok(Trim(name))
  {
    hide Unescape, Escape, Trim;
    NameAsTyped(name);
  }

  lemma RolesOfTyped(e: Entry)
    ensures var roles := Join(EscapeAll(e.roles), "+"); '@' !in roles && ParseRoles(Split(roles, '+')) == ParseRoles(EscapeAll(e.roles))
  {
    hide Split, Escape, ParseRoles;
    EscapeAllHoldsNone(e.roles, '@');
    JoinHoldsNone(EscapeAll(e.roles), "+", '@');
    if e.roles == [] {
      SplitNone("", '+');
      assert Join(EscapeAll(e.roles), "+") == "";
      RolesStep([""]);
      TrimTrims("");
      assert [""][1..] == [] == EscapeAll(e.roles);
    } else {
      EscapeAllHoldsNone(e.roles, '+');
      SplitUndoesJoin(EscapeAll(e.roles), '+');
    }
  }

  /** What is read of an entry goes through its three parts, in order. */
  lemma TypedInParts(e: Entry)
    ensures var group, roles := ParseGroup(Escape(e.group)), ParseRoles(EscapeAll(e.roles));
            var products := ParseProducts(EscapeAll(e.products));
            ParseEntry(SpellEntry(e)) ==
              if group.Err? then Err(group.error)
              else if roles.Err? then Err(roles.error)
              else if roles.value == [] then Err(GivenNoRole)
              else if products.Err? then Err(products.error)
              else Expand(group.value, roles.value, products.value)
  {
    hide Split, Escape, ParseRoles, ParseGroup, ParseScope, ParseProducts, Expand, Join;
    var group, roles := Escape(e.group), Join(EscapeAll(e.roles), "+");
    var rest := roles + if e.products == [] then "" else "@" + Join(EscapeAll(e.products), ",");
    var entry := SpellEntry(e);
    assert entry == group + ['='] + rest;
    EscapeIsSeparable(e.group);
    IndexOfFirst(group, '=', rest);
    assert entry[..|group|] == group && entry[|group| + 1..] == rest;
    RolesOfTyped(e);
    ScopeIsCut(roles, e.products);
  }

  lemma {:induction false} ExpandRefuses(group: string, roles: seq<string>, products: seq<string>)
    requires products != [] && exists i :: 0 <= i < |roles| && roles[i] in OVER
    ensures Expand(group, roles, products).Err?
  {
    if roles[0] !in OVER {
      var i :| 0 <= i < |roles| && roles[i] in OVER;
      assert roles[1..][i - 1] in OVER;
      ExpandRefuses(group, roles[1..], products);
    }
  }

  /** A typed entry that says something: a group's name within the limit, words that may be granted and
      at least one of them, products' names within the limit, and none where a word is held over the
      deployment. */
  ghost predicate Readable(e: Entry) {
    && 0 < |Trim(e.group)| <= 191
    && (forall i :: 0 <= i < |e.roles| ==>
          Trim(e.roles[i]) == "" || RoleWord(Trim(e.roles[i])) || (DeploymentWord(Trim(e.roles[i])) && e.products == []))
    && (exists i :: 0 <= i < |e.roles| && Trim(e.roles[i]) != "")
    && forall i :: 0 <= i < |e.products| ==> ProductName(e.products[i])
  }

  /** The group, as typed but for the blanks around it, is granted the word, on the product if any. */
  ghost predicate Says(e: Entry, m: Mapping) {
    && m.group == Trim(e.group)
    && m.grants != "" && (exists i :: 0 <= i < |e.roles| && Trim(e.roles[i]) == m.grants)
    && if e.products == [] then m.product == "" else exists i :: 0 <= i < |e.products| && Folded(e.products[i]) == m.product
  }

  function AsRead(e: Entry): Entry {
    Entry(Trim(e.group), Words(e.roles), AllFolded(e.products))
  }

  lemma SaysIsMeans(e: Entry, m: Mapping)
    requires e.products != [] ==> forall i :: 0 <= i < |Words(e.roles)| ==> Words(e.roles)[i] !in OVER
    ensures Means(AsRead(e), m) <==> Says(e, m)
  {
    hide Trim, Folded;
    WordsMembers(e.roles, m.grants);
    assert m.product in AllFolded(e.products) <==> exists i :: 0 <= i < |e.products| && Folded(e.products[i]) == m.product by {
      if i :| 0 <= i < |e.products| && Folded(e.products[i]) == m.product { assert AllFolded(e.products)[i] == m.product; }
    }
  }

  /** Whether the words and the products go together. */
  ghost predicate Fit(e: Entry) {
    e.products != [] ==> forall i :: 0 <= i < |e.roles| ==> !DeploymentWord(Trim(e.roles[i]))
  }

  lemma FitIs(e: Entry)
    ensures Fit(e) <==> (e.products != [] ==> forall i :: 0 <= i < |Words(e.roles)| ==> Words(e.roles)[i] !in OVER)
  {
    hide Trim, DeploymentWord;
    forall i | 0 <= i < |e.roles|
      ensures DeploymentWord(Trim(e.roles[i])) <==> Trim(e.roles[i]) in OVER
      ensures Trim(e.roles[i]) in OVER ==> Trim(e.roles[i]) in Words(e.roles)
    {
      WordsAre(Trim(e.roles[i]));
      WordsMembers(e.roles, Trim(e.roles[i]));
    }
    forall i | 0 <= i < |Words(e.roles)|
      ensures exists k :: 0 <= k < |e.roles| && Trim(e.roles[k]) == Words(e.roles)[i]
    {
      WordsMembers(e.roles, Words(e.roles)[i]);
    }
  }

  lemma ExpandAsTyped(e: Entry)
    ensures var read := AsRead(e); var all := Expand(read.group, read.roles, read.products);
            (all.Ok? <==> Fit(e)) && (all.Ok? ==> forall m :: m in all.value <==> Says(e, m))
  {
    hide Trim, Fit, Says, Means, Expand, Words, AllFolded;
    var read := AsRead(e);
    FitIs(e);
    if Fit(e) {
      ExpandMeans(read, read.roles);
      assert read.(roles := read.roles) == read;
      forall m ensures Means(read, m) <==> Says(e, m) { SaysIsMeans(e, m); }
    } else {
      ExpandRefuses(read.group, read.roles, read.products);
    }
  }

  lemma AllWords(e: Entry)
    ensures EachGrantable(e.roles) && Fit(e) <==>
      forall i :: 0 <= i < |e.roles| ==>
        Trim(e.roles[i]) == "" || RoleWord(Trim(e.roles[i])) || (DeploymentWord(Trim(e.roles[i])) && e.products == [])
  {
    hide Trim, Grantable;
    forall i | 0 <= i < |e.roles|
      ensures Grantable(Trim(e.roles[i])) <==> RoleWord(Trim(e.roles[i])) || DeploymentWord(Trim(e.roles[i]))
      ensures !(RoleWord(Trim(e.roles[i])) && DeploymentWord(Trim(e.roles[i]))) && !DeploymentWord("")
    {
      WordsAre(Trim(e.roles[i]));
    }
  }

  lemma SomeWord(typed: seq<string>)
    ensures Words(typed) != [] <==> exists i :: 0 <= i < |typed| && Trim(typed[i]) != ""
  {
    hide Trim;
    if Words(typed) != [] { WordsMembers(typed, Words(typed)[0]); }
    if i :| 0 <= i < |typed| && Trim(typed[i]) != "" { WordsMembers(typed, Trim(typed[i])); }
  }

  /** A typed entry is read exactly where it is readable, whatever its names hold; and what is read is
      what it says: each word, on each product as stored. */
  lemma EntryIsReadExactlyWhen(e: Entry)
    ensures var all := ParseEntry(SpellEntry(e));
            (all.Ok? <==> Readable(e)) && (all.Ok? ==> forall m :: m in all.value <==> Says(e, m))
  {
    hide Trim, Escape, ParseEntry, SpellEntry, ParseGroup, ParseRoles, ParseProducts;
    hide Grantable, Expand, RoleWord, DeploymentWord, Says, ProductName, Fit, Words, AllFolded, EachGrantable;
    TypedInParts(e);
    GroupAsTyped(e.group);
    RolesAsTyped(e.roles);
    SomeWord(e.roles);
    ProductsAsTyped(e.products);
    AllWords(e);
    ExpandAsTyped(e);
  }

  // ----- The whole variable -----

  /** What stands between semicolons is skipped where it is blank, and read otherwise. */
  ghost predicate ReadsTo(part: string, m: Mapping) {
    Trim(part) != "" && ParseEntry(Trim(part)).Ok? && m in ParseEntry(Trim(part)).value
  }

  ghost predicate Fine(part: string) {
    Trim(part) == "" || ParseEntry(Trim(part)).Ok?
  }

  /** The first of them refused, counting from one, the skipped included. */
  ghost predicate RefusedAt(parts: seq<string>, ordinal: nat, why: Bad) {
    && 0 < ordinal <= |parts|
    && Trim(parts[ordinal - 1]) != "" && ParseEntry(Trim(parts[ordinal - 1])) == Err(why)
    && forall i :: 0 <= i < ordinal - 1 ==> Fine(parts[i])
  }

  ghost predicate AllFine(parts: seq<string>) {
    forall i :: 0 <= i < |parts| ==> Fine(parts[i])
  }

  ghost predicate SomeReadsTo(parts: seq<string>, m: Mapping) {
    exists part :: part in parts && ReadsTo(part, m)
  }

  lemma SomeFromFirst(parts: seq<string>, m: Mapping)
    requires parts != []
    ensures SomeReadsTo(parts, m) <==> ReadsTo(parts[0], m) || SomeReadsTo(parts[1..], m)
  {
    hide ReadsTo;
    assert forall part :: part in parts <==> part == parts[0] || part in parts[1..];
  }

  lemma {:induction false} PartsAreRead(parts: seq<string>, n: nat)
    ensures match ParseEntries(parts, n)
            case Ok(all) => AllFine(parts) && forall m :: m in all <==> SomeReadsTo(parts, m)
            case Err((ordinal, why)) => ordinal > n && RefusedAt(parts, ordinal - n, why)
  {
    hide Trim, ParseEntry, SomeReadsTo;
    if parts == [] {
      forall m ensures !SomeReadsTo(parts, m) { NothingReadsTo(m); }
    } else {
      PartsAreRead(parts[1..], n + 1);
      assert forall i :: 0 < i < |parts| ==> parts[i] == parts[1..][i - 1];
      forall m ensures SomeReadsTo(parts, m) <==> ReadsTo(parts[0], m) || SomeReadsTo(parts[1..], m) { SomeFromFirst(parts, m); }
    }
  }

  lemma NothingReadsTo(m: Mapping)
    ensures !SomeReadsTo([], m)
  {}

  /** The variable is refused exactly where an entry is, and the refusal names the first, counting from
      one; otherwise what is read is what its entries say, each mapping somewhere in the list. */
  lemma VariableIsRead(raw: string)
    ensures match Parse(raw)
            case Ok(all) => AllFine(Split(raw, ';')) && forall m :: m in all <==> SomeReadsTo(Split(raw, ';'), m)
            case Err((ordinal, why)) => RefusedAt(Split(raw, ';'), ordinal, why)
  {
    hide AllFine, SomeReadsTo, RefusedAt, Sort, Compact, ParseEntries, Split;
    PartsAreRead(Split(raw, ';'), 0);
    var all := ParseEntries(Split(raw, ';'), 0);
    if all.Ok? {
      ByKeyIsTotal();
      SortFacts(all.value, Sort(all.value, ByKey()), ByKey());
      CompactKeeps(Sort(all.value, ByKey()));
    }
  }

  lemma {:induction false} CompactKeeps(s: seq<Mapping>)
    ensures forall m :: m in Compact(s) <==> m in s
  {
    if |s| >= 2 {
      CompactKeeps(s[1..]);
      assert s == [s[0]] + s[1..];
    }
  }
}
