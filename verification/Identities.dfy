/** How people sign in: names authorized in advance, pinned to a provider's identifier at first use
    (internal/access/identity.go). */
module Identities {
  import opened Common
  import opened Text

  /** The identifier a provider bound, and which provider, where that was written down. */
  datatype Pin = Pin(subject: string, provider: Option<string>)

  datatype Identity = Identity(id: nat, person: nat, username: string, pin: Option<Pin>, claimableUntil: Option<int>)

  datatype Refused = Denied | NameTaken | NeedsName | NothingMatched | Lost

  // ----- Reading the rows -----

  /** The row under this username, or past the end. */
  function Under(rows: seq<Identity>, username: string): (i: nat)
    ensures i <= |rows|
    ensures i < |rows| ==> rows[i].username == username
    ensures forall j :: 0 <= j < i ==> rows[j].username != username
  {
    if rows == [] || rows[0].username == username then 0 else 1 + Under(rows[1..], username)
  }

  predicate Bears(row: Identity, subject: string) {
    row.pin.Some? && row.pin.value.subject == subject
  }

  /** The row pinned to this identifier, or past the end. */
  function PinnedTo(rows: seq<Identity>, subject: string): (i: nat)
    ensures i <= |rows|
    ensures i < |rows| ==> Bears(rows[i], subject)
    ensures forall j :: 0 <= j < i ==> !Bears(rows[j], subject)
  {
    if rows == [] || Bears(rows[0], subject) then 0 else 1 + PinnedTo(rows[1..], subject)
  }

  function RowID(rows: seq<Identity>, id: nat): (i: nat)
    ensures i <= |rows|
    ensures i < |rows| ==> rows[i].id == id
    ensures forall j :: 0 <= j < i ==> rows[j].id != id
  {
    if rows == [] || rows[0].id == id then 0 else 1 + RowID(rows[1..], id)
  }

  predicate Lapsed(row: Identity, now: int) {
    row.pin.None? && row.claimableUntil.Some? && now >= row.claimableUntil.value
  }

  predicate IssuedBy(row: Identity, provider: string) {
    row.pin.Some? ==> row.pin.value.provider.None? || EqualFold(row.pin.value.provider.value, provider)
  }

  function NextID(rows: seq<Identity>): nat {
    if rows == [] then 1
    else
      var rest := NextID(rows[1..]);
      if rest <= rows[0].id then rows[0].id + 1 else rest
  }

  // ----- Administrative acts -----

  /** Authorize somebody to sign in under a folded name, or restart the window on one nobody
      redeemed. */
  function Claimed(rows: seq<Identity>, person: nat, username: string, until: int): Result<seq<Identity>, Refused> {
    var i := Under(rows, username);
    if username == "" then Err(NeedsName)
    else if i == |rows| then Ok(rows + [Identity(NextID(rows), person, username, None, Some(until))])
    else if rows[i].person != person then Err(NameTaken)
    else if rows[i].pin.None? then Ok(rows[i := rows[i].(claimableUntil := Some(until))])
    else Ok(rows)
  }

  predicate Binds(row: Identity, person: nat) {
    row.person == person && row.pin.Some?
  }

  function Cleared(rows: seq<Identity>, person: nat, until: int): (r: seq<Identity>)
    ensures |r| == |rows|
    ensures forall i :: 0 <= i < |r| ==>
      r[i] == if Binds(rows[i], person) then rows[i].(pin := None, claimableUntil := Some(until)) else rows[i]
  {
    seq(|rows|, i requires 0 <= i < |rows| =>
      if Binds(rows[i], person) then rows[i].(pin := None, claimableUntil := Some(until)) else rows[i])
  }

  function Unbound(rows: seq<Identity>, person: nat, until: int): Result<seq<Identity>, Refused> {
    if exists i :: 0 <= i < |rows| && Binds(rows[i], person) then Ok(Cleared(rows, person, until))
    else Err(NothingMatched)
  }

  // ----- Arriving -----

  /** An arrival through a provider, trimmed and folded. */
  datatype Arrival = Arrival(provider: string, subject: string, username: string)

  function Arriving(provider: string, subject: string, username: string): Result<Arrival, Refused> {
    var a := Arrival(Trim(provider), Trim(subject), Folded(username));
    if a.provider == "" || a.subject == "" || a.username == "" then Err(Denied) else Ok(a)
  }

  /** What looking up the identifier answers: a row bound to it, refused where another provider
      issued it, or none, when the name is looked at next. */
  function ByIdentifier(rows: seq<Identity>, a: Arrival): Result<Option<Identity>, Refused> {
    var i := PinnedTo(rows, a.subject);
    if i == |rows| then Ok(None)
    else if !IssuedBy(rows[i], a.provider) then Err(Denied)
    else Ok(Some(rows[i]))
  }

  /** What looking up the name answers: the authorization to redeem, or the row already pinned to
      this very identifier. */
  function ByName(rows: seq<Identity>, a: Arrival, now: int): Result<Identity, Refused> {
    var i := Under(rows, a.username);
    if i == |rows| then Err(Denied)
    else if rows[i].pin.Some? && !IssuedBy(rows[i], a.provider) then Err(Denied)
    else if rows[i].pin.Some? && rows[i].pin.value.subject != a.subject then Err(Denied)
    else if Lapsed(rows[i], now) then Err(Denied)
    else Ok(rows[i])
  }

  /** Redeem the authorization: pin the row if nobody has, keeping identifiers unique. */
  function Redeemed(rows: seq<Identity>, id: nat, a: Arrival): Result<seq<Identity>, Refused> {
    var i := RowID(rows, id);
    if i == |rows| || rows[i].pin.Some? then Err(Denied)
    else if PinnedTo(rows, a.subject) < |rows| then Err(Lost)
    else Ok(rows[i := rows[i].(pin := Some(Pin(a.subject, Some(a.provider))))])
  }

  predicate Taken(rows: seq<Identity>, username: string, id: nat) {
    exists i :: 0 <= i < |rows| && rows[i].username == username && rows[i].id != id
  }

  /** Follow a name that moved; the constraint on names refuses one another row took meanwhile. */
  function Renamed(rows: seq<Identity>, id: nat, username: string): Result<seq<Identity>, Refused> {
    var i := RowID(rows, id);
    if Taken(rows, username, id) then Err(Lost)
    else if i == |rows| then Ok(rows)
    else Ok(rows[i := rows[i].(username := username)])
  }

  /** A provider sign-in with nothing in between: the rows after it, and who it is. */
  function Matched(rows: seq<Identity>, a: Arrival, now: int): Result<(seq<Identity>, nat), Refused> {
    var bound := ByIdentifier(rows, a);
    if bound.Err? then Err(bound.error)
    else if bound.value.Some? then
      var row := bound.value.value;
      if row.username == a.username || Taken(rows, a.username, row.id) then Ok((rows, row.person))
      else Ok((rows[RowID(rows, row.id) := rows[RowID(rows, row.id)].(username := a.username)], row.person))
    else
      var waiting := ByName(rows, a, now);
      if waiting.Err? then Err(waiting.error)
      else if waiting.value.pin.Some? then Ok((rows, waiting.value.person))
      else
        var redeemed := Redeemed(rows, waiting.value.id, a);
        if redeemed.Err? then Err(redeemed.error) else Ok((redeemed.value, waiting.value.person))
  }

  /** A trusted proxy asserts a name, and nothing is bound. */
  function Asserted(rows: seq<Identity>, name: string, now: int): Result<nat, Refused> {
    var username := Folded(name);
    var i := Under(rows, username);
    if username == "" || i == |rows| || Lapsed(rows[i], now) then Err(Denied) else Ok(rows[i].person)
  }
}
