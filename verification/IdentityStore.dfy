/** The sign-in store as it acts on its rows, each act with nothing in between; IdentityRuns takes
    the same statements one at a time. */
module IdentityStore {
  import opened Common
  import opened Text
  import opened Identities
  import opened IdentityRuns

  const DEFAULT_CLAIM_WINDOW := 30 * 24 * 3600

  lemma IDFindsRow(rows: seq<Identity>, i: nat)
    requires OneEach(rows) && i < |rows|
    ensures RowID(rows, rows[i].id) == i
  {
    forall j | 0 <= j < i ensures rows[j].id != rows[i].id { OneEachApart(rows, j, i); }
  }

  /** A provider sign-in with nothing in between keeps names and identifiers unique, and answers the
      person of a row that then carries exactly the identifier that arrived. */
  lemma MatchedRecognizes(rows: seq<Identity>, a: Arrival, now: int)
    requires OneEach(rows) && Matched(rows, a, now).Ok?
    ensures var (rows', person) := Matched(rows, a, now).value;
            OneEach(rows') && exists id :: Carries(rows', a.subject, id, person)
  {
    hide Lower;
    var (rows', person) := Matched(rows, a, now).value;
    var i, j := PinnedTo(rows, a.subject), Under(rows, a.username);
    if i < |rows| {
      RenamingKeeps(rows, rows[i].id, a.username);
      IDFindsRow(rows, i);
      assert Bears(rows'[i], a.subject);
      assert Carries(rows', a.subject, rows[i].id, person);
    } else {
      RedeemingKeeps(rows, rows[j].id, a);
      IDFindsRow(rows, j);
      assert Bears(rows'[j], a.subject);
      assert Carries(rows', a.subject, rows[j].id, person);
    }
  }

  /** The same row, its window restarted if nobody has redeemed it. */
  ghost predicate Waiting(before: Identity, after: Identity, person: nat, username: string, until: int) {
    after == Identity(before.id, person, username, before.pin, if before.pin == None then Some(until) else before.claimableUntil)
  }

  /** Authorizing a name is refused exactly where it is empty or another person's; otherwise the row
      under it is that person's, with its window open until then if nobody has redeemed it. */
  lemma ClaimingMeans(rows: seq<Identity>, person: nat, username: string, until: int)
    requires OneEach(rows)
    ensures var answer, i := Claimed(rows, person, username, until), Under(rows, username);
            && (answer.Err? <==> username == "" || (i < |rows| && rows[i].person != person))
            && (answer.Ok? ==>
                  && i < |answer.value|
                  && answer.value[i].username == username && answer.value[i].person == person
                  && (answer.value[i].pin.None? ==> answer.value[i].claimableUntil == Some(until))
                  && (i < |rows| ==> Waiting(rows[i], answer.value[i], person, username, until))
                  && |answer.value| == (if i < |rows| then |rows| else |rows| + 1)
                  && (forall j :: 0 <= j < |rows| && j != i ==> answer.value[j] == rows[j]))
  {
    hide Folded;
  }

  /** Whoever is authorized is let in: arriving under the name before the window closes, with an
      identifier nothing bears, redeems the authorization and is that person. */
  lemma AuthorizedIsAdmitted(rows: seq<Identity>, person: nat, username: string, until: int, a: Arrival, now: int)
    requires OneEach(rows) && Claimed(rows, person, username, until).Ok? && now < until
    requires a.username == username && PinnedTo(rows, a.subject) == |rows|
    requires Under(rows, username) < |rows| ==> rows[Under(rows, username)].pin.None?
    ensures var answer := Matched(Claimed(rows, person, username, until).value, a, now);
            answer.Ok? && answer.value.1 == person
  {
    hide Matched, Claimed, OneEach, IssuedBy;
    var waiting, i := Claimed(rows, person, username, until).value, Under(rows, username);
    ClaimingKeeps(rows, person, username, until);
    ClaimedWaits(rows, person, username, until, a.subject);
    MatchedByName(waiting, a, now);
    IDFindsRow(waiting, i);
  }

  /** Authorized and never redeemed, the row under the name waits for whoever it is. */
  lemma ClaimedWaits(rows: seq<Identity>, person: nat, username: string, until: int, subject: string)
    requires Claimed(rows, person, username, until).Ok? && PinnedTo(rows, subject) == |rows|
    requires Under(rows, username) < |rows| ==> rows[Under(rows, username)].pin.None?
    ensures var waiting, i := Claimed(rows, person, username, until).value, Under(rows, username);
            && Under(waiting, username) == i < |waiting| && PinnedTo(waiting, subject) == |waiting|
            && waiting[i].person == person && waiting[i].pin.None? && waiting[i].claimableUntil == Some(until)
  {
    var waiting, i := Claimed(rows, person, username, until).value, Under(rows, username);
    assert waiting[i].username == username;
    assert forall j :: 0 <= j < i ==> waiting[j].username == rows[j].username;
    assert forall j :: 0 <= j < |waiting| ==> !Bears(waiting[j], subject);
  }

  /** Blanks around anything that arrives, and capitals in a name, make no difference; and nothing
      arrives without all three. */
  lemma ArrivingMeans(provider: string, subject: string, username: string, l: seq<string>, r: seq<string>)
    requires Trimmed(provider) && Trimmed(subject) && Trimmed(username)
    requires |l| == |r| == 3 && forall i :: 0 <= i < 3 ==> Blank(l[i]) && Blank(r[i])
    ensures var answer := Arriving(l[0] + provider + r[0], l[1] + subject + r[1], l[2] + username + r[2]);
            && (answer == Err(Denied) <==> provider == "" || subject == "" || username == "")
            && (answer.Ok? ==>
                  && answer.value.provider == provider && answer.value.subject == subject
                  && SameButCapitals(answer.value.username, username) && NoCapitals(answer.value.username))
  {
    hide Trim, Blank, Trimmed, Folded;
    TrimAround(l[0], provider, r[0]);
    TrimAround(l[1], subject, r[1]);
    TrimAround(l[2], username, r[2]);
    FoldedMeans(l[2] + username + r[2]);
  }

  /** The row bearing an identifier. */
  ghost predicate Bearing(rows: seq<Identity>, i: nat, subject: string) {
    i < |rows| && rows[i].pin.Some? && rows[i].pin.value.subject == subject
  }

  ghost predicate NamedAt(rows: seq<Identity>, i: nat, username: string) {
    i < |rows| && rows[i].username == username
  }

  /** Nothing of the rows moved but this one, which became that. */
  ghost predicate OnlyMoved(before: seq<Identity>, after: seq<Identity>, i: nat, row: Identity) {
    && |after| == |before| && i < |before| && after[i] == row
    && forall j :: 0 <= j < |before| && j != i ==> after[j] == before[j]
  }

  /** An identifier some row bears: refused, moving nothing, where another provider issued it; otherwise
      its row's person, whose name follows unless another row has it. */
  lemma BearingMeans(rows: seq<Identity>, a: Arrival, now: int, i: nat)
    requires OneEach(rows) && Bearing(rows, i, a.subject)
    ensures var issuer, row, answer := rows[i].pin.value.provider, rows[i], Matched(rows, a, now);
            if issuer.Some? && !SameButCapitals(issuer.value, a.provider) then answer == Err(Denied)
            else
              && answer.Ok? && answer.value.1 == row.person
              && if exists j: nat :: j != i && NamedAt(rows, j, a.username) then answer.value.0 == rows
                 else OnlyMoved(rows, answer.value.0, i,
                                Identity(row.id, row.person, a.username, row.pin, row.claimableUntil))
  {
    hide Matched;
    var k := PinnedTo(rows, a.subject);
    assert Bears(rows[i], a.subject);
    if k != i { OneEachApart(rows, k, i); }
    MatchedPinned(rows, a, now);
    IDFindsRow(rows, i);
    if rows[i].pin.value.provider.Some? { EqualFoldMeans(rows[i].pin.value.provider.value, a.provider); }
    TakenMeans(rows, a.username, i);
    if !exists j: nat :: j != i && NamedAt(rows, j, a.username) {
      var moved := rows[i].(username := a.username);
      assert rows[i].username == a.username ==> moved == rows[i] && rows[i := moved] == rows;
    }
  }

  lemma TakenMeans(rows: seq<Identity>, username: string, i: nat)
    requires OneEach(rows) && i < |rows|
    ensures Taken(rows, username, rows[i].id) <==> exists j: nat :: j != i && NamedAt(rows, j, username)
    ensures rows[i].username == username ==> !exists j: nat :: j != i && NamedAt(rows, j, username)
  {
    forall j: nat | j != i && NamedAt(rows, j, username) ensures rows[j].id != rows[i].id && rows[i].username != username {
      OneEachApart(rows, i, j);
    }
    if Taken(rows, username, rows[i].id) {
      var j :| 0 <= j < |rows| && rows[j].username == username && rows[j].id != rows[i].id;
      assert j != i && NamedAt(rows, j, username);
    }
    if j: nat :| j != i && NamedAt(rows, j, username) {
      assert rows[j].username == username && rows[j].id != rows[i].id;
    }
  }

  /** An identifier no row bears: whoever the name is authorized for and nobody has redeemed, within its
      window, is let in, and the row is pinned to this identifier as this provider's; otherwise it is
      refused and nothing moves. */
  lemma UnknownMeans(rows: seq<Identity>, a: Arrival, now: int)
    requires OneEach(rows) && forall i: nat :: !Bearing(rows, i, a.subject)
    ensures var answer, i := Matched(rows, a, now), Under(rows, a.username);
            if i < |rows| && rows[i].pin == None && (rows[i].claimableUntil.Some? ==> now < rows[i].claimableUntil.value) then
              && answer.Ok? && answer.value.1 == rows[i].person
              && OnlyMoved(rows, answer.value.0, i, Identity(rows[i].id, rows[i].person, a.username,
                                                             Some(Pin(a.subject, Some(a.provider))), rows[i].claimableUntil))
            else answer == Err(Denied)
  {
    hide Matched;
    var i := Under(rows, a.username);
    forall j | 0 <= j < |rows| ensures !Bears(rows[j], a.subject) { assert !Bearing(rows, j, a.subject); }
    MatchedByName(rows, a, now);
    if i < |rows| {
      IDFindsRow(rows, i);
      if rows[i].pin.Some? { assert !Bears(rows[i], a.subject); }
    }
  }

  /** Unbinding is refused where the person holds no pin; otherwise each of their pins is cleared and its
      window open until then, and no other row moves. */
  lemma UnbindingMeans(rows: seq<Identity>, person: nat, until: int)
    ensures var answer := Unbound(rows, person, until);
            if exists i :: 0 <= i < |rows| && rows[i].person == person && rows[i].pin != None then
              && answer.Ok? && |answer.value| == |rows|
              && forall i :: 0 <= i < |rows| ==>
                   answer.value[i] == if rows[i].person == person && rows[i].pin != None
                                      then Identity(rows[i].id, person, rows[i].username, None, Some(until)) else rows[i]
            else answer == Err(NothingMatched)
  {
    if i :| 0 <= i < |rows| && rows[i].person == person && rows[i].pin != None {
      assert Binds(rows[i], person);
    }
  }

  /** A proxy's name answers exactly the person of the row under it, pinned or still within its window. */
  lemma AssertedMeans(rows: seq<Identity>, name: string, now: int, person: nat)
    requires OneEach(rows)
    ensures Asserted(rows, name, now) == Ok(person) <==>
      Folded(name) != "" && exists i :: 0 <= i < |rows| && rows[i].username == Folded(name) && rows[i].person == person
                                     && (rows[i].pin.Some? || rows[i].claimableUntil.None? || now < rows[i].claimableUntil.value)
    ensures Asserted(rows, name, now).Err? ==> Asserted(rows, name, now).error == Denied
  {
    hide Folded;
    var i := Under(rows, Folded(name));
    forall j | 0 <= j < |rows| && rows[j].username == Folded(name) ensures j == i {
      if j != i { OneEachApart(rows, i, j); }
    }
  }

  lemma MatchedPinned(rows: seq<Identity>, a: Arrival, now: int)
    requires PinnedTo(rows, a.subject) < |rows|
    ensures var row := rows[PinnedTo(rows, a.subject)];
            Matched(rows, a, now) ==
              if !IssuedBy(row, a.provider) then Err(Denied)
              else if row.username == a.username || Taken(rows, a.username, row.id) then Ok((rows, row.person))
              else Ok((rows[RowID(rows, row.id) := rows[RowID(rows, row.id)].(username := a.username)], row.person))
  {
    hide IssuedBy, Taken;
  }

  lemma MatchedByName(rows: seq<Identity>, a: Arrival, now: int)
    requires PinnedTo(rows, a.subject) == |rows|
    ensures Matched(rows, a, now) ==
      if Under(rows, a.username) == |rows| then Err(Denied)
      else
        var row := rows[Under(rows, a.username)];
        if row.pin.Some? && (!IssuedBy(row, a.provider) || row.pin.value.subject != a.subject) then Err(Denied)
        else if Lapsed(row, now) then Err(Denied)
        else if row.pin.Some? then Ok((rows, row.person))
        else
          var redeemed := Redeemed(rows, row.id, a);
          if redeemed.Err? then Err(redeemed.error) else Ok((redeemed.value, row.person))
  {
    hide IssuedBy, Redeemed;
  }

  /** Statement after statement with nothing in between, until the sign-in is over: the rows it leaves,
      and whom it recognized. */
  function Through(rows: seq<Identity>, phase: Phase, now: int, decided: Option<Decision>): (seq<Identity>, Option<Decision>)
    decreases match phase case Looking(_) => 3 case Following(_, _) => 2 case Unknown(_) => 2 case _ => 1
  {
    var next := Next(rows, phase, now);
    var d := if next.decision.Some? then next.decision else decided;
    if next.phase.None? then (next.rows, d) else Through(next.rows, next.phase.value, now, d)
  }

  /** A sign-in whose statements nothing comes between is the one made in a single step. */
  lemma UninterruptedIsMatched(rows: seq<Identity>, a: Arrival, now: int)
    requires OneEach(rows)
    ensures var (left, d) := Through(rows, Looking(a), now, None);
            match Matched(rows, a, now)
            case Err(_) => left == rows && d == None
            case Ok(outcome) => left == outcome.0 && d.Some? && d.value.person == outcome.1
                                && d.value.subject == a.subject && d.value.provider == a.provider
  {
    if PinnedTo(rows, a.subject) < |rows| { PinnedThrough(rows, a, now); } else { NamedThrough(rows, a, now); }
  }

  lemma PinnedThrough(rows: seq<Identity>, a: Arrival, now: int)
    requires OneEach(rows) && PinnedTo(rows, a.subject) < |rows|
    ensures var (left, d) := Through(rows, Looking(a), now, None);
            match Matched(rows, a, now)
            case Err(_) => left == rows && d == None
            case Ok(outcome) => left == outcome.0 && d == Some(Decision(a.subject, a.provider, rows[PinnedTo(rows, a.subject)].id, outcome.1))
  {
    hide Matched, IssuedBy, OneEach, Taken;
    var i := PinnedTo(rows, a.subject);
    var d := Some(Decision(a.subject, a.provider, rows[i].id, rows[i].person));
    MatchedPinned(rows, a, now);
    IDFindsRow(rows, i);
    if IssuedBy(rows[i], a.provider) && rows[i].username != a.username {
      assert Through(rows, Looking(a), now, None) == Through(rows, Following(a, rows[i].id), now, d);
      if !Taken(rows, a.username, rows[i].id) {
        assert Through(rows, Following(a, rows[i].id), now, d) == Through(rows, Moving(a, rows[i].id), now, d);
        assert Through(rows, Moving(a, rows[i].id), now, d) == (rows[i := rows[i].(username := a.username)], d);
      }
    }
  }

  lemma NamedThrough(rows: seq<Identity>, a: Arrival, now: int)
    requires OneEach(rows) && PinnedTo(rows, a.subject) == |rows|
    ensures var (left, d) := Through(rows, Looking(a), now, None);
            match Matched(rows, a, now)
            case Err(_) => left == rows && d == None
            case Ok(outcome) => left == outcome.0 && d.Some? && d.value.person == outcome.1
                                && d.value.subject == a.subject && d.value.provider == a.provider
  {
    hide Matched, IssuedBy, OneEach, Lapsed, Redeemed;
    var j := Under(rows, a.username);
    MatchedByName(rows, a, now);
    assert Through(rows, Looking(a), now, None) == Through(rows, Unknown(a), now, None);
    if j < |rows| {
      IDFindsRow(rows, j);
      var waiting := ByName(rows, a, now);
      if waiting.Ok? && rows[j].pin.None? {
        assert Through(rows, Unknown(a), now, None) == Through(rows, Redeeming(a, rows[j].id, rows[j].person), now, None);
      }
    }
  }

  class IdentityRows {
    var rows: seq<Identity>
    const claimWindow: int

    constructor (window: int)
      ensures rows == [] && claimWindow == window
    {
      rows := [];
      claimWindow := window;
    }

    function Window(): (w: int)
      ensures w > 0
    {
      if claimWindow <= 0 then DEFAULT_CLAIM_WINDOW else claimWindow
    }

    /** The rows an act left, and what it answered. */
    ghost predicate Became(was: seq<Identity>, outcome: Result<seq<Identity>, Refused>, answer: Result<(), Refused>)
      reads this
    {
      match outcome
      case Ok(now) => answer.Ok? && rows == now
      case Err(refused) => answer == Err(refused) && rows == was
    }

    method Claim(person: nat, name: string, now: int) returns (answer: Result<(), Refused>)
      modifies `rows
      ensures Became(old(rows), Claimed(old(rows), person, Folded(name), now + Window()), answer)
    {
      hide Folded;
      var username := Folded(name);
      if username == "" {
        return Err(NeedsName);
      }
      var until, i := now + Window(), Under(rows, username);
      if i < |rows| {
        if rows[i].person != person {
          return Err(NameTaken);
        }
        if rows[i].pin.None? {
          rows := rows[i := rows[i].(claimableUntil := Some(until))];
        }
        return Ok(());
      }
      rows := rows + [Identity(NextID(rows), person, username, None, Some(until))];
      answer := Ok(());
    }

    method Unbind(person: nat, now: int) returns (answer: Result<(), Refused>)
      modifies `rows
      ensures Became(old(rows), Unbound(old(rows), person, now + Window()), answer)
    {
      if forall i :: 0 <= i < |rows| ==> !Binds(rows[i], person) {
        return Err(NothingMatched);
      }
      rows := Cleared(rows, person, now + Window());
      answer := Ok(());
    }

    method MatchProvider(provider: string, subject: string, username: string, now: int)
      returns (answer: Result<nat, Refused>)
      modifies `rows
      ensures match Arriving(provider, subject, username)
              case Err(refused) => answer == Err(refused) && rows == old(rows)
              case Ok(a) =>
                match Matched(old(rows), a, now)
                case Err(refused) => answer == Err(refused) && rows == old(rows)
                case Ok(outcome) => answer == Ok(outcome.1) && rows == outcome.0
    {
      hide Matched, Trim, Folded, Taken, Redeemed, IssuedBy, PinnedTo, Under, RowID;
      var issuer, bearing, name := Trim(provider), Trim(subject), Folded(username);
      if issuer == "" {
        return Err(Denied);
      }
      if bearing == "" || name == "" {
        return Err(Denied);
      }
      ghost var a := Arrival(issuer, bearing, name);
      var i := PinnedTo(rows, bearing);
      if i < |rows| {
        MatchedPinned(rows, a, now);
        if !IssuedBy(rows[i], issuer) {
          return Err(Denied);
        }
        answer := Ok(rows[i].person);
        if rows[i].username != name {
          Rename(rows[i].id, name);
        }
        return;
      }
      MatchedByName(rows, a, now);
      var j := Under(rows, name);
      if j == |rows| {
        return Err(Denied);
      }
      var claimed := rows[j];
      if claimed.pin.Some? && !IssuedBy(claimed, issuer) {
        return Err(Denied);
      }
      if claimed.pin.Some? && claimed.pin.value.subject != bearing {
        return Err(Denied);
      }
      if claimed.pin.None? {
        if Lapsed(claimed, now) {
          return Err(Denied);
        }
        var redeemed := Redeemed(rows, claimed.id, Arrival(issuer, bearing, name));
        if redeemed.Err? {
          return Err(redeemed.error);
        }
        rows := redeemed.value;
      }
      answer := Ok(claimed.person);
    }

    /** Follow a name that moved, leaving it alone where the new one is somebody else's. */
    method Rename(id: nat, username: string)
      requires RowID(rows, id) < |rows|
      modifies `rows
      ensures rows == if Taken(old(rows), username, id) then old(rows)
                      else old(rows)[RowID(old(rows), id) := old(rows)[RowID(old(rows), id)].(username := username)]
    {
      if Taken(rows, username, id) {
        return;
      }
      var i := RowID(rows, id);
      rows := rows[i := rows[i].(username := username)];
    }

    method MatchProxy(username: string, now: int) returns (answer: Result<nat, Refused>)
      ensures answer == Asserted(rows, username, now)
    {
      var name := Folded(username);
      if name == "" {
        return Err(Denied);
      }
      var i := Under(rows, name);
      if i == |rows| {
        return Err(Denied);
      }
      if Lapsed(rows[i], now) {
        return Err(Denied);
      }
      answer := Ok(rows[i].person);
    }
  }
}
