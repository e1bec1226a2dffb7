/** The variable that maps provider groups to roles: how it is written and how it is read
    (internal/access/mapping.go). Names are percent-encoded as in section 2.1 of RFC 3986. */
module GroupRoles {
  import opened Common
  import opened Sorting
  import opened Text

  const NAME_WIDTH := 191

  /** One thing configuration says membership of a group grants. */
  datatype Mapping = Mapping(group: string, grants: string, product: string)

  /** One entry as configuration writes it. */
  datatype Entry = Entry(group: string, roles: seq<string>, products: seq<string>)

  datatype Bad = NamesNoRole | NamesNoGroup | GroupTooLong | NotARole | GivenNoRole | BadEncoding
               | EmptyProduct | ProductTooLong | OverWithProduct

  const ROLES := ["approver", "assigner", "public-read", "private-read", "security-testing-read",
                  "public-triage", "private-triage", "security-testing-triage"]
  const OVER := ["admin", "audit"]

  predicate Grantable(word: string) {
    word in ROLES || word in OVER
  }

  // ----- Writing -----

  predicate Separator(c: char) {
    c == '%' || c == ';' || c == '=' || c == '+' || c == '@' || c == ','
  }

  function EscapeChar(c: char): string {
    if c == '%' then "%25" else if c == ';' then "%3B" else if c == '=' then "%3D"
    else if c == '+' then "%2B" else if c == '@' then "%40" else if c == ',' then "%2C" else [c]
  }

  function Escape(s: string): string {
    if s == [] then [] else EscapeChar(s[0]) + Escape(s[1..])
  }

  function EscapeAll(names: seq<string>): (r: seq<string>)
    ensures |r| == |names|
    ensures forall i :: 0 <= i < |names| ==> r[i] == Escape(names[i])
  {
    seq(|names|, i requires 0 <= i < |names| => Escape(names[i]))
  }

  function SpellEntry(e: Entry): string {
    Escape(e.group) + "=" + Join(EscapeAll(e.roles), "+")
    + if e.products == [] then "" else "@" + Join(EscapeAll(e.products), ",")
  }

  function SpellAll(entries: seq<Entry>): (r: seq<string>)
    ensures |r| == |entries|
    ensures forall i :: 0 <= i < |entries| ==> r[i] == SpellEntry(entries[i])
  {
    seq(|entries|, i requires 0 <= i < |entries| => SpellEntry(entries[i]))
  }

  function Spell(entries: seq<Entry>): string {
    Join(SpellAll(entries), "; ")
  }

  // ----- Reading -----

  predicate Hex(c: char) {
    '0' <= c <= '9' || 'A' <= c <= 'F' || 'a' <= c <= 'f'
  }

  function HexValue(c: char): (v: nat)
    requires Hex(c)
    ensures v < 16
  {
    if '0' <= c <= '9' then c as int - '0' as int
    else if 'A' <= c <= 'F' then c as int - 'A' as int + 10
    else c as int - 'a' as int + 10
  }

  /** Percent-encoding undone, refusing a percent sign that does not begin an encoding. */
  function PathUnescape(s: string): Result<string, Bad>
    decreases |s|
  {
    if s == [] then Ok([])
    else if s[0] == '%' then
      if |s| < 3 || !Hex(s[1]) || !Hex(s[2]) then Err(BadEncoding)
      else
        var rest := PathUnescape(s[3..]);
        if rest.Err? then rest else Ok([(16 * HexValue(s[1]) + HexValue(s[2])) as char] + rest.value)
    else
      var rest := PathUnescape(s[1..]);
      if rest.Err? then rest else Ok([s[0]] + rest.value)
  }

  function Unescape(raw: string): Result<string, Bad> {
    var name := PathUnescape(Trim(raw));
    if name.Err? then name else Ok(Trim(name.value))
  }

  function ParseRoles(parts: seq<string>): Result<seq<string>, Bad> {
    if parts == [] then Ok([])
    else
      var role := Trim(parts[0]);
      if role == "" then ParseRoles(parts[1..])
      else if !Grantable(role) then Err(NotARole)
      else
        var rest := ParseRoles(parts[1..]);
        if rest.Err? then rest else Ok([role] + rest.value)
  }

  function ParseProduct(raw: string): Result<string, Bad> {
    var name := Unescape(raw);
    if name.Err? then name
    else
      var product := Folded(name.value);
      if product == "" then Err(EmptyProduct)
      else if |product| > NAME_WIDTH then Err(ProductTooLong)
      else Ok(product)
  }

  function ParseProducts(parts: seq<string>): Result<seq<string>, Bad> {
    if parts == [] then Ok([])
    else
      var product := ParseProduct(parts[0]);
      if product.Err? then Err(product.error)
      else
        var rest := ParseProducts(parts[1..]);
        if rest.Err? then rest else Ok([product.value] + rest.value)
  }

  function OnEach(group: string, role: string, products: seq<string>): (r: seq<Mapping>)
    ensures |r| == |products|
    ensures forall i :: 0 <= i < |products| ==> r[i] == Mapping(group, role, products[i])
  {
    seq(|products|, i requires 0 <= i < |products| => Mapping(group, role, products[i]))
  }

  function GrantsOf(group: string, role: string, products: seq<string>): Result<seq<Mapping>, Bad> {
    if role in OVER then
      if products != [] then Err(OverWithProduct) else Ok([Mapping(group, role, "")])
    else if products == [] then Ok([Mapping(group, role, "")])
    else Ok(OnEach(group, role, products))
  }

  function Expand(group: string, roles: seq<string>, products: seq<string>): Result<seq<Mapping>, Bad> {
    if roles == [] then Ok([])
    else
      var first := GrantsOf(group, roles[0], products);
      if first.Err? then first
      else
        var rest := Expand(group, roles[1..], products);
        if rest.Err? then rest else Ok(first.value + rest.value)
  }

  function ParseGroup(raw: string): Result<string, Bad> {
    var group := Unescape(raw);
    if group.Err? then group
    else if group.value == "" then Err(NamesNoGroup)
    else if |group.value| > NAME_WIDTH then Err(GroupTooLong)
    else group
  }

  function ParseScope(rest: string): Result<seq<string>, Bad> {
    var at := IndexOf(rest, '@');
    if at == |rest| then Ok([]) else ParseProducts(Split(rest[at + 1..], ','))
  }

  function ParseEntry(entry: string): Result<seq<Mapping>, Bad> {
    var eq := IndexOf(entry, '=');
    if eq == |entry| then Err(NamesNoRole)
    else
      var group, rest := ParseGroup(entry[..eq]), entry[eq + 1..];
      if group.Err? then Err(group.error)
      else
        var roles := ParseRoles(Split(rest[..IndexOf(rest, '@')], '+'));
        if roles.Err? then Err(roles.error)
        else if roles.value == [] then Err(GivenNoRole)
        else
          var products := ParseScope(rest);
          if products.Err? then Err(products.error) else Expand(group.value, roles.value, products.value)
  }

  /** The entries in order; a refusal says which entry it is about, counting from one. */
  function ParseEntries(parts: seq<string>, n: nat): Result<seq<Mapping>, (nat, Bad)> {
    if parts == [] then Ok([])
    else
      var entry := Trim(parts[0]);
      if entry == "" then ParseEntries(parts[1..], n + 1)
      else
        var mappings := ParseEntry(entry);
        if mappings.Err? then Err((n + 1, mappings.error))
        else
          var rest := ParseEntries(parts[1..], n + 1);
          if rest.Err? then rest else Ok(mappings.value + rest.value)
  }

  function SortKey(m: Mapping): string {
    m.group + "\0" + m.product + "\0" + m.grants
  }

  function ByKey(): (Mapping, Mapping) -> bool {
    (a: Mapping, b: Mapping) => StringLe(SortKey(a), SortKey(b))
  }

  /** A list with each run of equals reduced to one. */
  function Compact<T(==)>(s: seq<T>): seq<T> {
    if |s| < 2 then s
    else if s[0] == s[1] then Compact(s[1..])
    else [s[0]] + Compact(s[1..])
  }

  function Parse(raw: string): Result<seq<Mapping>, (nat, Bad)> {
    var mappings := ParseEntries(Split(raw, ';'), 0);
    if mappings.Err? then mappings else Ok(Compact(Sort(mappings.value, ByKey())))
  }
}
