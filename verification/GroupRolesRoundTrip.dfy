/** What is written is what is read: parsing what SpellGroupRoles writes gives exactly what the
    entries mean, whatever separators and percent signs their names hold. */
module GroupRolesRoundTrip {
  import opened Common
  import opened Sorting
  import opened Text
  import opened GroupRoles

  // ----- Escaping -----

  lemma {:induction false} EscapeConcat(a: string, b: string)
    ensures Escape(a + b) == Escape(a) + Escape(b)
  {
    hide EscapeChar;
    if a == [] {
      assert a + b == b;
    } else {
      EscapeConcat(a[1..], b);
      assert (a + b)[1..] == a[1..] + b && (a + b)[0] == a[0];
      var one, two, three := EscapeChar(a[0]), Escape(a[1..]), Escape(b);
      assert one + (two + three) == (one + two) + three;
    }
  }

  lemma UnescapeCode(a: char, b: char, rest: string)
    requires Hex(a) && Hex(b) && PathUnescape(rest).Ok?
    ensures PathUnescape(['%', a, b] + rest) == Ok([(16 * HexValue(a) + HexValue(b)) as char] + PathUnescape(rest).value)
  {
    assert (['%', a, b] + rest)[3..] == rest;
  }

  lemma UnescapePlain(c: char, rest: string)
    requires c != '%' && PathUnescape(rest).Ok?
    ensures PathUnescape([c] + rest) == Ok([c] + PathUnescape(rest).value)
  {
    assert ([c] + rest)[1..] == rest;
  }

  lemma UnescapeChar(c: char, rest: string)
    requires PathUnescape(rest).Ok?
    ensures PathUnescape(EscapeChar(c) + rest) == Ok([c] + PathUnescape(rest).value)
  {
    hide PathUnescape;
    var code := EscapeChar(c);
    if code == [c] {
      UnescapePlain(c, rest);
    } else {
      assert code == ['%', code[1], code[2]];
      UnescapeCode(code[1], code[2], rest);
    }
  }

  /** Each of the six separators is spelled by its code in two capital digits, and nothing else is. */
  lemma SpelledByCode(c: char)
    ensures var digits := "0123456789ABCDEF";
            EscapeChar(c) ==
              if c in "%;=+@," then ['%', digits[c as int / 16 % 16], digits[c as int % 16]] else [c]
  {
    assert c in "%;=+@," <==> Separator(c);
  }

  lemma {:induction false} EscapeIsUndone(s: string)
    ensures PathUnescape(Escape(s)) == Ok(s)
  {
    if s != [] {
      hide PathUnescape, EscapeChar;
      EscapeIsUndone(s[1..]);
      UnescapeChar(s[0], Escape(s[1..]));
      assert s == [s[0]] + s[1..];
    } else {
      assert Escape(s) == [];
    }
  }

  ghost predicate Separable(s: string) {
    forall i :: 0 <= i < |s| ==> s[i] == '%' || !Separator(s[i])
  }

  lemma {:induction false} EscapeIsSeparable(s: string)
    ensures Separable(Escape(s))
  {
    if s != [] { EscapeIsSeparable(s[1..]); }
  }

  lemma EscapeCharKeeps(c: char)
    requires !Space(c)
    ensures var code := EscapeChar(c); code != [] && !Space(code[0]) && !Space(code[|code| - 1])
  {}

  lemma EscapeOne(c: char)
    ensures Escape([c]) == EscapeChar(c)
  {
    assert [c][1..] == [] && Escape([]) == [];
  }

  lemma EscapeStaysTrimmed(s: string)
    requires Trimmed(s) && s != []
    ensures Trimmed(Escape(s)) && Escape(s) != []
  {
    hide EscapeChar;
    var n := |s| - 1;
    assert s == s[..n] + [s[n]];
    EscapeConcat(s[..n], [s[n]]);
    EscapeOne(s[n]);
    EscapeCharKeeps(s[0]);
    EscapeCharKeeps(s[n]);
    assert Escape(s)[0] == EscapeChar(s[0])[0];
  }

  lemma UnescapeUndoes(s: string)
    requires Trimmed(s) && s != []
    ensures Unescape(Escape(s)) == Ok(s)
  {
    EscapeStaysTrimmed(s);
    TrimTrims(Escape(s));
    EscapeIsUndone(s);
    TrimTrims(s);
  }

  // ----- Cutting and splitting -----

  /** What is between the semicolons: the entries, all but the first after a space. */
  function Spaced(parts: seq<string>): (r: seq<string>)
    ensures |r| == |parts|
    ensures forall i :: 0 <= i < |parts| ==> r[i] == " " + parts[i]
  {
    seq(|parts|, i requires 0 <= i < |parts| => " " + parts[i])
  }

  lemma JoinSteps(parts: seq<string>, separator: string)
    requires parts != []
    ensures Join(parts, separator) == if |parts| == 1 then parts[0] else parts[0] + separator + Join(parts[1..], separator)
  {}

  lemma {:induction false} SplitAfterSpaces(parts: seq<string>, first: string)
    requires parts != [] && NoneHolds(parts, ';') && ';' !in first
    ensures Split(first + Join(parts, "; "), ';') == [first + parts[0]] + Spaced(parts[1..])
    decreases |parts|
  {
    hide Split, Join;
    JoinSteps(parts, "; ");
    if |parts| == 1 {
      SplitNone(first + parts[0], ';');
    } else {
      var rest := " " + Join(parts[1..], "; ");
      assert first + Join(parts, "; ") == (first + parts[0]) + [';'] + rest;
      SplitFirst(first + parts[0], ';', rest);
      SplitAfterSpaces(parts[1..], " ");
      assert parts[1..][1..] == parts[2..];
      assert Spaced(parts[1..]) == [" " + parts[1]] + Spaced(parts[2..]);
    }
  }

  lemma {:induction false} JoinHoldsNone(parts: seq<string>, separator: string, c: char)
    requires NoneHolds(parts, c) && c !in separator
    ensures c !in Join(parts, separator)
  {
    if |parts| > 1 { JoinHoldsNone(parts[1..], separator, c); }
  }

  // ----- Words that may be granted -----

  ghost predicate Plain(s: string) {
    forall c :: c in s ==> 'a' <= c <= 'z' || c == '-'
  }

  lemma ShortWordsArePlain()
    ensures Plain("approver") && Plain("assigner") && Plain("public-read") && Plain("admin") && Plain("audit")
  {}

  lemma LongWordsArePlain()
    ensures Plain("private-read") && Plain("public-triage") && Plain("private-triage")
    ensures Plain("security-testing-read") && Plain("security-testing-triage")
  {}

  lemma GrantableIsPlain(word: string)
    requires Grantable(word)
    ensures Plain(word) && word != []
  {
    ShortWordsArePlain();
    LongWordsArePlain();
  }

  lemma {:induction false} PlainFacts(s: string)
    requires Plain(s)
    ensures Escape(s) == s
    ensures forall i :: 0 <= i < |s| ==> !Separator(s[i]) && !Space(s[i])
  {
    if s != [] {
      assert forall c :: c in s[1..] ==> c in s;
      PlainFacts(s[1..]);
      assert s == [s[0]] + s[1..] && s[0] in s;
    }
    forall i | 0 <= i < |s| ensures !Separator(s[i]) && !Space(s[i]) { assert s[i] in s; }
  }

  lemma RoleIsRead(parts: seq<string>, role: string)
    requires parts != [] && parts[0] == Escape(role) && Grantable(role) && ParseRoles(parts[1..]).Ok?
    ensures ParseRoles(parts) == Ok([role] + ParseRoles(parts[1..]).value)
  {
    hide Grantable, Plain, Trim, Escape;
    GrantableIsPlain(role);
    PlainFacts(role);
    TrimTrims(role);
  }

  lemma NoRolesAreRead()
    ensures ParseRoles([]) == Ok([])
  {}

  lemma {:induction false} RolesAreRead(roles: seq<string>)
    requires forall i :: 0 <= i < |roles| ==> Grantable(roles[i])
    ensures ParseRoles(EscapeAll(roles)) == Ok(roles)
  {
    hide Grantable, ParseRoles, Escape;
    if roles == [] {
      NoRolesAreRead();
    } else {
      RolesAreRead(roles[1..]);
      assert EscapeAll(roles)[1..] == EscapeAll(roles[1..]);
      RoleIsRead(EscapeAll(roles), roles[0]);
      assert roles == [roles[0]] + roles[1..];
    }
  }

  // ----- One entry -----

  /** A product's name as it is stored, within the width limit. */
  predicate StoredName(p: string) {
    p != "" && Folded(p) == p && |p| <= NAME_WIDTH && '\0' !in p
  }

  /** What configuration may state: trimmed names within the limits, roles there are, and no product
      for what is held over the deployment. */
  predicate WellFormed(e: Entry) {
    && e.group != "" && Trimmed(e.group) && |e.group| <= NAME_WIDTH && '\0' !in e.group
    && e.roles != [] && (forall i :: 0 <= i < |e.roles| ==> Grantable(e.roles[i]))
    && (forall i :: 0 <= i < |e.products| ==> StoredName(e.products[i]))
    && (e.products != [] ==> forall i :: 0 <= i < |e.roles| ==> e.roles[i] !in OVER)
  }

  lemma {:induction false} BlanksStay(s: string)
    requires Blank(s)
    ensures Escape(s) == s
  {
    if s != [] {
      assert s == [s[0]] + s[1..];
      BlankRest(s);
      BlanksStay(s[1..]);
    }
  }

  /** However a name was typed, it is read without its outer blanks. */
  lemma NameAsTyped(name: string)
    ensures Unescape(Escape(name)) == Ok(Trim(name))
  {
    var left, right := TrimMeans(name);
    var trimmed := Trim(name);
    TrimTrims(name);
    hide Escape, PathUnescape, Trim, Blank;
    EscapeConcat(left + trimmed, right);
    EscapeConcat(left, trimmed);
    BlanksStay(left);
    BlanksStay(right);
    if trimmed == [] { BlanksStay([]); } else { EscapeStaysTrimmed(trimmed); }
    TrimAround(left, Escape(trimmed), right);
    EscapeIsUndone(trimmed);
    TrimTrims(trimmed);
  }

  lemma FoldingTrims(name: string)
    ensures Folded(Trim(name)) == Folded(name)
  {
    TrimTrims(name);
  }

  /** And a product's also without capitals, within the limit stored names have. */
  lemma ProductAsTyped(name: string)
    ensures ParseProduct(Escape(name)) ==
      if Folded(name) == "" then Err(EmptyProduct)
      else if |Folded(name)| > 191 then Err(ProductTooLong) else Ok(Folded(name))
  {
    hide Unescape, Escape, Folded;
    NameAsTyped(name);
    FoldingTrims(name);
  }

  lemma ProductIsRead(p: string)
    requires StoredName(p)
    ensures ParseProduct(Escape(p)) == Ok(p)
  {
    hide Unescape, Escape, Folded;
    FoldedTwice(p);
    UnescapeUndoes(p);
  }

  lemma {:induction false} ProductsAreRead(products: seq<string>)
    requires forall i :: 0 <= i < |products| ==> StoredName(products[i])
    ensures ParseProducts(EscapeAll(products)) == Ok(products)
  {
    hide ParseProduct, StoredName, Escape;
    if products != [] {
      ProductsAreRead(products[1..]);
      assert EscapeAll(products)[1..] == EscapeAll(products[1..]);
      ProductIsRead(products[0]);
      assert products == [products[0]] + products[1..];
    }
  }

  lemma EscapeAllHoldsNone(names: seq<string>, c: char)
    requires Separator(c) && c != '%'
    ensures NoneHolds(EscapeAll(names), c)
  {
    forall i | 0 <= i < |names| ensures c !in EscapeAll(names)[i] { EscapeIsSeparable(names[i]); }
  }

  lemma ScopeIsCut(roles: string, products: seq<string>)
    requires '@' !in roles
    ensures var rest := roles + if products == [] then "" else "@" + Join(EscapeAll(products), ",");
            rest[..IndexOf(rest, '@')] == roles && ParseScope(rest) == ParseProducts(EscapeAll(products))
  {
    hide IndexOf, Join, Split, EscapeAll;
    if products == [] {
      IndexOfNone(roles, '@');
      assert roles + "" == roles;
    } else {
      var scope := Join(EscapeAll(products), ",");
      var rest := roles + "@" + scope;
      assert roles + ("@" + scope) == rest == roles + ['@'] + scope;
      IndexOfFirst(roles, '@', scope);
      assert rest[|roles| + 1..] == scope;
      EscapeAllHoldsNone(products, ',');
      SplitUndoesJoin(EscapeAll(products), ',');
    }
  }

  lemma ScopeIsRead(roles: string, products: seq<string>)
    requires '@' !in roles && forall i :: 0 <= i < |products| ==> StoredName(products[i])
    ensures var rest := roles + if products == [] then "" else "@" + Join(EscapeAll(products), ",");
            rest[..IndexOf(rest, '@')] == roles && ParseScope(rest) == Ok(products)
  {
    hide ParseScope, ParseProducts, StoredName, IndexOf, Join, EscapeAll;
    ScopeIsCut(roles, products);
    ProductsAreRead(products);
  }

  lemma GroupIsRead(e: Entry)
    requires WellFormed(e)
    ensures ParseGroup(Escape(e.group)) == Ok(e.group)
  {
    hide Unescape, Escape;
    UnescapeUndoes(e.group);
  }

  lemma RolesOfEntryAreRead(e: Entry)
    requires WellFormed(e)
    ensures var roles := Join(EscapeAll(e.roles), "+");
            '@' !in roles && ParseRoles(Split(roles, '+')) == Ok(e.roles)
  {
    hide Split, Escape, ParseRoles, StoredName;
    EscapeAllHoldsNone(e.roles, '@');
    JoinHoldsNone(EscapeAll(e.roles), "+", '@');
    EscapeAllHoldsNone(e.roles, '+');
    SplitUndoesJoin(EscapeAll(e.roles), '+');
    RolesAreRead(e.roles);
  }

  lemma EntryIsRead(e: Entry)
    requires WellFormed(e)
    ensures ParseEntry(SpellEntry(e)) == Expand(e.group, e.roles, e.products)
  {
    hide Split, Escape, ParseRoles, ParseGroup, ParseScope, Expand, StoredName, Join, Grantable;
    var group, roles := Escape(e.group), Join(EscapeAll(e.roles), "+");
    var rest := roles + if e.products == [] then "" else "@" + Join(EscapeAll(e.products), ",");
    var entry := SpellEntry(e);
    assert entry == group + ['='] + rest;
    EscapeIsSeparable(e.group);
    IndexOfFirst(group, '=', rest);
    assert entry[..|group|] == group && entry[|group| + 1..] == rest;
    GroupIsRead(e);
    RolesOfEntryAreRead(e);
    ScopeIsRead(roles, e.products);
  }

  lemma EntryHoldsNoSemicolon(e: Entry)
    ensures ';' !in SpellEntry(e)
  {
    hide Escape, Join;
    EscapeIsSeparable(e.group);
    EscapeAllHoldsNone(e.roles, ';');
    JoinHoldsNone(EscapeAll(e.roles), "+", ';');
    EscapeAllHoldsNone(e.products, ';');
    JoinHoldsNone(EscapeAll(e.products), ",", ';');
  }

  lemma LastNameIsTrimmed(names: seq<string>, separator: string)
    requires names != [] && names[|names| - 1] != "" && Trimmed(names[|names| - 1])
    ensures var s := Join(EscapeAll(names), separator); s != "" && !Space(s[|s| - 1])
  {
    hide Join, Escape;
    EscapeStaysTrimmed(names[|names| - 1]);
    JoinEndsWithLast(EscapeAll(names), separator);
  }

  lemma EntryStandsAlone(e: Entry)
    requires WellFormed(e)
    ensures ';' !in SpellEntry(e) && SpellEntry(e) != "" && Trimmed(SpellEntry(e))
  {
    hide Join, Escape, Grantable, Folded;
    EntryHoldsNoSemicolon(e);
    EscapeStaysTrimmed(e.group);
    var entry := SpellEntry(e);
    assert entry[0] == Escape(e.group)[0];
    if e.products == [] {
      var last := e.roles[|e.roles| - 1];
      GrantableIsPlain(last);
      PlainFacts(last);
      LastNameIsTrimmed(e.roles, "+");
      var roles := Join(EscapeAll(e.roles), "+");
      assert entry == Escape(e.group) + "=" + roles;
      assert entry[|entry| - 1] == roles[|roles| - 1];
    } else {
      var last := e.products[|e.products| - 1];
      assert StoredName(last);
      FoldedTwice(last);
      LastNameIsTrimmed(e.products, ",");
      var scope := Join(EscapeAll(e.products), ",");
      assert entry[|entry| - 1] == scope[|scope| - 1];
    }
  }

  lemma {:induction false} JoinEndsWithLast(parts: seq<string>, separator: string)
    requires parts != [] && parts[|parts| - 1] != ""
    ensures var s, last := Join(parts, separator), parts[|parts| - 1];
            s != "" && s[|s| - 1] == last[|last| - 1]
  {
    if |parts| > 1 { JoinEndsWithLast(parts[1..], separator); }
  }

  // ----- What entries mean -----

  /** Membership of the group grants it: over the deployment or everywhere without a product, and
      otherwise on each product named. */
  ghost predicate Means(e: Entry, m: Mapping) {
    && m.group == e.group && m.grants in e.roles
    && if m.grants in OVER || e.products == [] then m.product == "" else m.product in e.products
  }

  lemma {:induction false} ExpandMeans(e: Entry, roles: seq<string>)
    requires e.products != [] ==> forall i :: 0 <= i < |roles| ==> roles[i] !in OVER
    ensures var all := Expand(e.group, roles, e.products);
            all.Ok? && forall m :: m in all.value <==> Means(e.(roles := roles), m)
  {
    if roles != [] {
      ExpandMeans(e, roles[1..]);
      var first, rest := GrantsOf(e.group, roles[0], e.products).value, Expand(e.group, roles[1..], e.products).value;
      forall m ensures m in first + rest <==> Means(e.(roles := roles), m) {
        assert m.grants in roles <==> m.grants == roles[0] || m.grants in roles[1..];
        if m in first {
          var i :| 0 <= i < |first| && first[i] == m;
        }
        if Means(e.(roles := [roles[0]]), m) && roles[0] !in OVER && e.products != [] {
          var i :| 0 <= i < |e.products| && e.products[i] == m.product;
          assert first[i] == m;
        }
      }
    }
  }

  lemma EntryMeans(e: Entry)
    requires WellFormed(e)
    ensures var all := Expand(e.group, e.roles, e.products);
            all.Ok? && forall m :: m in all.value <==> Means(e, m)
  {
    ExpandMeans(e, e.roles);
    assert e.(roles := e.roles) == e;
  }

  ghost predicate AllWellFormed(entries: seq<Entry>) {
    forall i :: 0 <= i < |entries| ==> WellFormed(entries[i])
  }

  ghost predicate AnyMeans(entries: seq<Entry>, m: Mapping) {
    exists i :: 0 <= i < |entries| && Means(entries[i], m)
  }

  /** Entries as they stand between the semicolons: spelled, perhaps after a space. */
  ghost predicate Stands(parts: seq<string>, entries: seq<Entry>) {
    && |parts| == |entries|
    && forall i :: 0 <= i < |parts| ==> parts[i] == SpellEntry(entries[i]) || parts[i] == " " + SpellEntry(entries[i])
  }

  lemma TrimmedAfter(c: char, s: string)
    requires Space(c) && Trimmed(s)
    ensures Trim([c] + s) == s && Trim(s) == s
  {
    hide TrimLeft, TrimRight;
    TrimTrims(s);
    LeftAfter(c, s);
  }

  lemma LeftAfter(c: char, s: string)
    requires Space(c)
    ensures TrimLeft([c] + s) == TrimLeft(s)
  {
    var spaced := [c] + s;
    assert spaced[0] == c && spaced[1..] == s;
  }

  lemma {:induction false} EntriesAreRead(parts: seq<string>, entries: seq<Entry>, n: nat)
    requires AllWellFormed(entries) && Stands(parts, entries)
    ensures var all := ParseEntries(parts, n); all.Ok? && forall m :: m in all.value <==> AnyMeans(entries, m)
  {
    hide ParseEntry, SpellEntry, Expand, Means, Trim, Trimmed, WellFormed;
    if parts != [] {
      var e := entries[0];
      EntriesAreRead(parts[1..], entries[1..], n + 1);
      EntryStandsAlone(e);
      TrimmedAfter(' ', SpellEntry(e));
      EntryIsRead(e);
      EntryMeans(e);
      forall m ensures AnyMeans(entries, m) <==> Means(e, m) || AnyMeans(entries[1..], m) {
        if AnyMeans(entries, m) {
          var i :| 0 <= i < |entries| && Means(entries[i], m);
          if i > 0 { assert Means(entries[1..][i - 1], m); }
        }
        if AnyMeans(entries[1..], m) {
          var i :| 0 <= i < |entries[1..]| && Means(entries[1..][i], m);
          assert Means(entries[i + 1], m);
        }
        if Means(e, m) { assert Means(entries[0], m); }
      }
    }
  }

  // ----- Sorted, each mapping once -----

  ghost predicate NoNul(m: Mapping) {
    '\0' !in m.group && '\0' !in m.product
  }

  lemma UpToNul(a: string, x: string, b: string, y: string)
    requires '\0' !in a && '\0' !in b && a + ['\0'] + x == b + ['\0'] + y
    ensures a == b && x == y
  {
    IndexOfFirst(a, '\0', x);
    IndexOfFirst(b, '\0', y);
    assert (a + ['\0'] + x)[..|a|] == a && (b + ['\0'] + y)[..|b|] == b;
    assert (a + ['\0'] + x)[|a| + 1..] == x && (b + ['\0'] + y)[|b| + 1..] == y;
  }

  lemma KeyTellsApart(a: Mapping, b: Mapping)
    requires NoNul(a) && NoNul(b) && SortKey(a) == SortKey(b)
    ensures a == b
  {
    assert SortKey(a) == a.group + ['\0'] + (a.product + ['\0'] + a.grants);
    assert SortKey(b) == b.group + ['\0'] + (b.product + ['\0'] + b.grants);
    UpToNul(a.group, a.product + ['\0'] + a.grants, b.group, b.product + ['\0'] + b.grants);
    UpToNul(a.product, a.grants, b.product, b.grants);
  }

  /** Text up to a zero decides first: nothing sorts before a zero, and none is in it. */
  lemma {:induction false} UpToNulFirst(a: string, x: string, b: string, y: string)
    requires '\0' !in a && '\0' !in b
    ensures StringLe(a + ['\0'] + x, b + ['\0'] + y) <==> if a == b then StringLe(x, y) else StringLe(a, b)
  {
    var left, right := a + ['\0'] + x, b + ['\0'] + y;
    if a == [] || b == [] {
      assert a == [] ==> left[0] == '\0' && left[1..] == x;
      assert b == [] ==> right[0] == '\0' && right[1..] == y;
      assert a != [] ==> left[0] == a[0] && a[0] in a;
      assert b != [] ==> right[0] == b[0] && b[0] in b;
    } else {
      assert left[0] == a[0] && right[0] == b[0];
      assert left[1..] == a[1..] + ['\0'] + x && right[1..] == b[1..] + ['\0'] + y;
      assert a == [a[0]] + a[1..] && b == [b[0]] + b[1..];
      UpToNulFirst(a[1..], x, b[1..], y);
    }
  }

  /** By group, then by product, then by what is granted. */
  ghost predicate ListedFirst(a: Mapping, b: Mapping) {
    if a.group != b.group then StringLe(a.group, b.group)
    else if a.product != b.product then StringLe(a.product, b.product)
    else StringLe(a.grants, b.grants)
  }

  lemma KeyLists(a: Mapping, b: Mapping)
    requires NoNul(a) && NoNul(b)
    ensures ByKey()(a, b) <==> ListedFirst(a, b)
  {
    hide StringLe;
    var one, other := a.product + ['\0'] + a.grants, b.product + ['\0'] + b.grants;
    assert SortKey(a) == a.group + ['\0'] + one && SortKey(b) == b.group + ['\0'] + other;
    UpToNulFirst(a.group, one, b.group, other);
    UpToNulFirst(a.product, a.grants, b.product, b.grants);
  }

  lemma ByKeyIsTotal()
    ensures TotalPreorder(ByKey())
  {
    forall x: Mapping, y: Mapping ensures ByKey()(x, y) || ByKey()(y, x) { StringLeTotal(SortKey(x), SortKey(y)); }
    forall x: Mapping, y: Mapping, z: Mapping | ByKey()(x, y) && ByKey()(y, z) ensures ByKey()(x, z) {
      StringLeTransitive(SortKey(x), SortKey(y), SortKey(z));
    }
  }

  lemma {:induction false} CompactOnce<T(!new)>(s: seq<T>, le: (T, T) -> bool)
    requires SortedBy(le, s) && TotalPreorder(le)
    requires forall x, y :: x in s && y in s && le(x, y) && le(y, x) ==> x == y
    ensures var t := Compact(s);
            SortedBy(le, t) && Distinct(t) && (forall x :: x in t <==> x in s) && (s != [] ==> t != [] && t[0] == s[0])
  {
    if |s| >= 2 {
      CompactOnce(s[1..], le);
      var t, rest := Compact(s), Compact(s[1..]);
      forall x | x in rest ensures le(s[0], x) && (s[0] != s[1] ==> x != s[0]) {
        assert x in s[1..];
        var j :| 0 <= j < |s[1..]| && s[1..][j] == x;
        assert le(s[0], s[j + 1]);
        assert le(s[1], x);
      }
      forall x ensures x in t <==> x in s {
        assert x in s <==> x == s[0] || x in s[1..];
      }
    }
  }

  lemma NothingIsRead(s: string, n: nat)
    requires s == []
    ensures ParseEntries(Split(s, ';'), n) == Ok([])
  {
    hide Split, ParseEntry, Trim;
    SplitNone(s, ';');
    TrimTrims(s);
    NoMoreEntries(Split(s, ';')[1..], n + 1);
  }

  lemma NoMoreEntries(parts: seq<string>, n: nat)
    requires parts == []
    ensures ParseEntries(parts, n) == Ok([])
  {}

  lemma TextIsRead(entries: seq<Entry>)
    requires AllWellFormed(entries)
    ensures var all := ParseEntries(Split(Spell(entries), ';'), 0);
            all.Ok? && forall m :: m in all.value <==> AnyMeans(entries, m)
  {
    hide Split, ParseEntries, SpellEntry, WellFormed;
    if entries == [] {
      NothingIsRead(Spell(entries), 0);
    } else {
      hide Join;
      var parts := SpellAll(entries);
      forall i | 0 <= i < |parts| ensures ';' !in parts[i] { EntryStandsAlone(entries[i]); }
      SplitAfterSpaces(parts, "");
      assert "" + Spell(entries) == Spell(entries) && "" + parts[0] == parts[0];
      EntriesAreRead(Split(Spell(entries), ';'), entries, 0);
    }
  }

  /** Read as what the entries mean: in order, each mapping once, and nothing else. */
  ghost predicate ReadAs(answer: Result<seq<Mapping>, (nat, Bad)>, entries: seq<Entry>) {
    && answer.Ok? && Distinct(answer.value)
    && (forall i, j :: 0 <= i < j < |answer.value| ==> ListedFirst(answer.value[i], answer.value[j]))
    && forall m :: m in answer.value <==> AnyMeans(entries, m)
  }

  /** The round trip. Whatever well-formed entries are written, reading what was written answers
      exactly what they mean, in order, each mapping once. */
  lemma SpelledIsParsed(entries: seq<Entry>)
    requires AllWellFormed(entries)
    ensures ReadAs(Parse(Spell(entries)), entries)
  {
    hide Split, ParseEntries, Compact, Sort, AnyMeans, SortKey, SpellEntry, Join;
    var raw := Spell(entries);
    TextIsRead(entries);
    var all := ParseEntries(Split(raw, ';'), 0).value;
    ByKeyIsTotal();
    var sorted := Sort(all, ByKey());
    SortFacts(all, sorted, ByKey());
    forall x, y | x in sorted && y in sorted && ByKey()(x, y) && ByKey()(y, x) ensures x == y {
      StringLeTotal(SortKey(x), SortKey(y));
      MeansNoNul(entries, x);
      MeansNoNul(entries, y);
      KeyTellsApart(x, y);
    }
    CompactOnce(sorted, ByKey());
    var answer := Compact(sorted);
    forall i, j | 0 <= i < j < |answer| ensures ListedFirst(answer[i], answer[j]) {
      assert answer[i] in sorted && answer[j] in sorted;
      MeansNoNul(entries, answer[i]);
      MeansNoNul(entries, answer[j]);
      KeyLists(answer[i], answer[j]);
    }
  }

  lemma MeansNoNul(entries: seq<Entry>, m: Mapping)
    requires AllWellFormed(entries) && AnyMeans(entries, m)
    ensures NoNul(m)
  {
    var i :| 0 <= i < |entries| && Means(entries[i], m);
    if m.product != "" {
      var j :| 0 <= j < |entries[i].products| && entries[i].products[j] == m.product;
      assert StoredName(entries[i].products[j]);
    }
  }

  // ----- A separator inside a role -----

  ghost predicate HoldsSeparator(s: string) {
    exists i :: 0 <= i < |s| && Separator(s[i])
  }

  lemma {:induction false} SeparatorIsEncoded(s: string)
    requires HoldsSeparator(s)
    ensures '%' in Escape(s)
  {
    var code, rest := EscapeChar(s[0]), Escape(s[1..]);
    if Separator(s[0]) {
      assert code[0] == '%';
    } else {
      var i :| 0 <= i < |s| && Separator(s[i]);
      assert Separator(s[1..][i - 1]);
      SeparatorIsEncoded(s[1..]);
    }
  }

  lemma {:induction false} TrimmingKeeps(s: string, c: char)
    requires c in s && !Space(c)
    ensures c in Trim(s)
  {
    LeftKeeps(s, c);
    RightKeeps(TrimLeft(s), c);
  }

  lemma {:induction false} LeftKeeps(s: string, c: char)
    requires c in s && !Space(c)
    ensures c in TrimLeft(s)
  {
    if Space(s[0]) { LeftKeeps(s[1..], c); }
  }

  lemma {:induction false} RightKeeps(s: string, c: char)
    requires c in s && !Space(c)
    ensures c in TrimRight(s)
    decreases |s|
  {
    var n := |s| - 1;
    if Space(s[n]) {
      assert s == s[..n] + [s[n]];
      RightKeeps(s[..n], c);
    }
  }

  lemma {:induction false} SeparatorIsNoRole(roles: seq<string>, k: nat)
    requires k < |roles| && HoldsSeparator(roles[k])
    ensures ParseRoles(EscapeAll(roles)) == Err(NotARole)
  {
    hide Trim, Escape, Grantable;
    var spelled := EscapeAll(roles);
    assert spelled[1..] == EscapeAll(roles[1..]);
    if k > 0 {
      SeparatorIsNoRole(roles[1..], k - 1);
    } else {
      SeparatorIsEncoded(roles[0]);
      TrimmingKeeps(spelled[0], '%');
      if Grantable(Trim(spelled[0])) { GrantableIsPlain(Trim(spelled[0])); }
    }
  }

  /** A separator written inside a role is refused as no role, and never read as structure. */
  lemma SeparatorsInRolesAreRefused(e: Entry, k: nat)
    requires e.group != "" && Trimmed(e.group) && |e.group| <= NAME_WIDTH
    requires forall i :: 0 <= i < |e.products| ==> StoredName(e.products[i])
    requires k < |e.roles| && HoldsSeparator(e.roles[k])
    ensures ParseEntry(SpellEntry(e)) == Err(NotARole)
  {
    hide Split, Escape, ParseRoles, ParseScope, Expand, StoredName, Join, Unescape;
    var group, roles := Escape(e.group), Join(EscapeAll(e.roles), "+");
    var rest := roles + if e.products == [] then "" else "@" + Join(EscapeAll(e.products), ",");
    var entry := SpellEntry(e);
    assert entry == group + ['='] + rest;
    EscapeIsSeparable(e.group);
    IndexOfFirst(group, '=', rest);
    assert entry[..|group|] == group && entry[|group| + 1..] == rest;
    UnescapeUndoes(e.group);
    EscapeAllHoldsNone(e.roles, '@');
    JoinHoldsNone(EscapeAll(e.roles), "+", '@');
    ScopeIsRead(roles, e.products);
    EscapeAllHoldsNone(e.roles, '+');
    SplitUndoesJoin(EscapeAll(e.roles), '+');
    SeparatorIsNoRole(e.roles, k);
  }
}
