/** Writing and reading the variable as mapping.go does it, in loops that append and return early;
    each is proved to compute what GroupRoles says. */
module GroupRolesImperative {
  import opened Common
  import opened Sorting
  import opened Text
  import opened GroupRoles

  /** What is already out, before the rest of a list or its refusal. */
  function Onto<T, E>(out: seq<T>, rest: Result<seq<T>, E>): Result<seq<T>, E> {
    if rest.Err? then rest else Ok(out + rest.value)
  }

  lemma OntoOnto<T, E>(a: seq<T>, b: seq<T>, rest: Result<seq<T>, E>)
    ensures Onto(a, Onto(b, rest)) == Onto(a + b, rest)
  {
    if rest.Ok? { assert a + (b + rest.value) == (a + b) + rest.value; }
  }

  lemma OntoNothing<T, E>(rest: Result<seq<T>, E>)
    ensures Onto([], rest) == rest
  {
    if rest.Ok? { assert [] + rest.value == rest.value; }
  }

  method EscapeEach(names: seq<string>) returns (spelled: seq<string>)
    ensures spelled == EscapeAll(names)
  {
    spelled := [];
    for i := 0 to |names|
      invariant |spelled| == i && forall j :: 0 <= j < i ==> spelled[j] == Escape(names[j])
    {
      spelled := spelled + [Escape(names[i])];
    }
  }

  method SpellGroupRoles(entries: seq<Entry>) returns (raw: string)
    ensures raw == Spell(entries)
  {
    var spelled: seq<string> := [];
    for i := 0 to |entries|
      invariant |spelled| == i && forall j :: 0 <= j < i ==> spelled[j] == SpellEntry(entries[j])
    {
      var entry := entries[i];
      var roles := EscapeEach(entry.roles);
      var one := Escape(entry.group) + "=" + Join(roles, "+");
      if |entry.products| > 0 {
        var products := EscapeEach(entry.products);
        one := one + "@" + Join(products, ",");
        assert one == SpellEntry(entry);
      } else {
        assert one == SpellEntry(entry);
      }
      spelled := spelled + [one];
    }
    assert spelled == SpellAll(entries);
    raw := Join(spelled, "; ");
  }

  method ReadRoles(parts: seq<string>) returns (answer: Result<seq<string>, Bad>)
    ensures answer == ParseRoles(parts)
  {
    hide Trim, Grantable;
    var roles: seq<string> := [];
    assert parts[0..] == parts;
    OntoNothing(ParseRoles(parts));
    for i := 0 to |parts|
      invariant ParseRoles(parts) == Onto(roles, ParseRoles(parts[i..]))
    {
      var role := Trim(parts[i]);
      assert parts[i..][1..] == parts[i + 1..];
      if role != "" {
        if !Grantable(role) {
          return Err(NotARole);
        }
        OntoOnto(roles, [role], ParseRoles(parts[i + 1..]));
        roles := roles + [role];
      }
    }
    assert parts[|parts|..] == [] && roles + [] == roles;
    answer := Ok(roles);
  }

  method ReadProducts(parts: seq<string>) returns (answer: Result<seq<string>, Bad>)
    ensures answer == ParseProducts(parts)
  {
    hide Unescape, Folded;
    var products: seq<string> := [];
    assert parts[0..] == parts;
    OntoNothing(ParseProducts(parts));
    for i := 0 to |parts|
      invariant ParseProducts(parts) == Onto(products, ParseProducts(parts[i..]))
    {
      assert parts[i..][1..] == parts[i + 1..];
      var name := Unescape(parts[i]);
      if name.Err? {
        return Err(name.error);
      }
      var product := Folded(name.value);
      if product == "" {
        return Err(EmptyProduct);
      }
      if |product| > NAME_WIDTH {
        return Err(ProductTooLong);
      }
      OntoOnto(products, [product], ParseProducts(parts[i + 1..]));
      products := products + [product];
    }
    assert parts[|parts|..] == [] && products + [] == products;
    answer := Ok(products);
  }

  method ExpandEntry(group: string, roles: seq<string>, products: seq<string>)
    returns (answer: Result<seq<Mapping>, Bad>)
    ensures answer == Expand(group, roles, products)
  {
    var out: seq<Mapping> := [];
    assert roles[0..] == roles;
    OntoNothing(Expand(group, roles, products));
    for i := 0 to |roles|
      invariant Expand(group, roles, products) == Onto(out, Expand(group, roles[i..], products))
    {
      var role := roles[i];
      assert roles[i..][1..] == roles[i + 1..];
      ghost var was, rest := out, Expand(group, roles[i + 1..], products);
      if role in OVER {
        if |products| > 0 {
          return Err(OverWithProduct);
        }
        out := out + [Mapping(group, role, "")];
      } else {
        if |products| == 0 {
          out := out + [Mapping(group, role, "")];
        }
        for k := 0 to |products|
          invariant out == (if products == [] then was + [Mapping(group, role, "")]
                            else was + OnEach(group, role, products)[..k])
        {
          out := out + [Mapping(group, role, products[k])];
          assert OnEach(group, role, products)[..k + 1] == OnEach(group, role, products)[..k] + [Mapping(group, role, products[k])];
        }
        assert products != [] ==> OnEach(group, role, products)[..|products|] == OnEach(group, role, products);
      }
      assert out == was + GrantsOf(group, role, products).value;
      OntoOnto(was, GrantsOf(group, role, products).value, rest);
    }
    assert roles[|roles|..] == [] && out + [] == out;
    answer := Ok(out);
  }

  method ReadEntry(entry: string) returns (answer: Result<seq<Mapping>, Bad>)
    ensures answer == ParseEntry(entry)
  {
    hide Unescape, ParseRoles, ParseProducts, Expand, Split;
    var eq := IndexOf(entry, '=');
    if eq == |entry| {
      return Err(NamesNoRole);
    }
    var rest := entry[eq + 1..];
    var group := Unescape(entry[..eq]);
    if group.Err? {
      return Err(group.error);
    }
    if group.value == "" {
      return Err(NamesNoGroup);
    }
    if |group.value| > NAME_WIDTH {
      return Err(GroupTooLong);
    }
    var at := IndexOf(rest, '@');
    var roles := ReadRoles(Split(rest[..at], '+'));
    if roles.Err? {
      return Err(roles.error);
    }
    if |roles.value| == 0 {
      return Err(GivenNoRole);
    }
    var products: seq<string> := [];
    if at < |rest| {
      var scope := ReadProducts(Split(rest[at + 1..], ','));
      if scope.Err? {
        return Err(scope.error);
      }
      products := scope.value;
    }
    answer := ExpandEntry(group.value, roles.value, products);
  }

  method ParseGroupRoles(raw: string) returns (answer: Result<seq<Mapping>, (nat, Bad)>)
    ensures answer == Parse(raw)
  {
    hide ParseEntry, Split, Trim;
    var parts := Split(raw, ';');
    var out: seq<Mapping> := [];
    assert parts[0..] == parts;
    OntoNothing(ParseEntries(parts, 0));
    for n := 0 to |parts|
      invariant ParseEntries(parts, 0) == Onto(out, ParseEntries(parts[n..], n))
    {
      assert parts[n..][1..] == parts[n + 1..];
      var entry := Trim(parts[n]);
      if entry != "" {
        var mappings := ReadEntry(entry);
        if mappings.Err? {
          return Err((n + 1, mappings.error));
        }
        OntoOnto(out, mappings.value, ParseEntries(parts[n + 1..], n + 1));
        out := out + mappings.value;
      }
    }
    assert parts[|parts|..] == [] && out + [] == out;
    var sorted := Sort(out, ByKey());
    answer := Ok(Compact(sorted));
  }
}
