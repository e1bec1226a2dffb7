/** Sign-ins, authorizations and unbinding interleaved as the database lets them be: each statement of
    a provider sign-in is an event of its own (internal/access/identity.go:112-269, 306-369,
    389-406). */
module IdentityRuns {
  import opened Common
  import opened Text
  import opened Identities

  /** How far a provider sign-in has come: looking its identifier up, following a name that moved,
      or, knowing no row bears it, looking the name up and redeeming what waits there. */
  datatype Phase =
    | Looking(a: Arrival)
    | Following(a: Arrival, id: nat)
    | Moving(a: Arrival, id: nat)
    | Unknown(a: Arrival)
    | Redeeming(a: Arrival, id: nat, person: nat)

  /** Somebody was recognized: the identifier they came with and who issued it, through which row, and
      who they are. */
  datatype Decision = Decision(subject: string, provider: string, id: nat, person: nat)

  datatype World = World(rows: seq<Identity>, clock: int, arriving: map<nat, Phase>, decided: seq<Decision>)

  datatype Step =
    | Claim(person: nat, username: string, window: nat)
    | Unbind(person: nat, window: nat)
    | Begin(session: nat, a: Arrival)
    | Proceed(session: nat)

  /** A step, and how far the clock moved before it. Names arrive here folded and trimmed, and none
      empty, as the store leaves them (Identities.Arriving). */
  datatype Event = Event(tick: nat, step: Step)

  /** What one sign-in's next statement does: the rows, the phase it is then in if any, and whom it
      recognized if anybody. */
  datatype Progress = Progress(rows: seq<Identity>, phase: Option<Phase>, decision: Option<Decision>)

  function Settled(rows: seq<Identity>, outcome: Result<seq<Identity>, Refused>): seq<Identity> {
    if outcome.Ok? then outcome.value else rows
  }

  function Next(rows: seq<Identity>, phase: Phase, now: int): Progress {
    match phase
    case Looking(a) =>
      var bound := ByIdentifier(rows, a);
      if bound.Err? then Progress(rows, None, None)
      else if bound.value.None? then Progress(rows, Some(Unknown(a)), None)
      else
        var row := bound.value.value;
        Progress(rows, if row.username == a.username then None else Some(Following(a, row.id)),
                 Some(Decision(a.subject, a.provider, row.id, row.person)))
    case Following(a, id) =>
      Progress(rows, if Taken(rows, a.username, id) then None else Some(Moving(a, id)), None)
    case Moving(a, id) => Progress(Settled(rows, Renamed(rows, id, a.username)), None, None)
    case Unknown(a) =>
      var waiting := ByName(rows, a, now);
      if waiting.Err? then Progress(rows, None, None)
      else
        var row := waiting.value;
        if row.pin.Some? then Progress(rows, None, Some(Decision(a.subject, a.provider, row.id, row.person)))
        else Progress(rows, Some(Redeeming(a, row.id, row.person)), None)
    case Redeeming(a, id, person) =>
      var redeemed := Redeemed(rows, id, a);
      Progress(Settled(rows, redeemed), None, if redeemed.Ok? then Some(Decision(a.subject, a.provider, id, person)) else None)
  }

  function After(w: World, e: Event): World {
    var now := w.clock + e.tick;
    match e.step
    case Claim(person, username, window) =>
      w.(clock := now, rows := Settled(w.rows, Claimed(w.rows, person, username, now + window)))
    case Unbind(person, window) =>
      w.(clock := now, rows := Settled(w.rows, Unbound(w.rows, person, now + window)))
    case Begin(session, a) => w.(clock := now, arriving := w.arriving[session := Looking(a)])
    case Proceed(session) =>
      if session !in w.arriving then w.(clock := now)
      else
        var next := Next(w.rows, w.arriving[session], now);
        World(next.rows, now,
              if next.phase.Some? then w.arriving[session := next.phase.value] else w.arriving - {session},
              if next.decision.Some? then w.decided + [next.decision.value] else w.decided)
  }

  function Run(w: World, events: seq<Event>): World
    decreases |events|
  {
    if events == [] then w else After(Run(w, events[..|events| - 1]), events[|events| - 1])
  }

  // ----- One row to a name, and one to an identifier -----

  ghost predicate Apart(a: Identity, b: Identity) {
    && a.id != b.id && a.username != b.username
    && (a.pin.Some? && b.pin.Some? ==> a.pin.value.subject != b.pin.value.subject)
  }

  ghost predicate OneEach(rows: seq<Identity>) {
    forall i, j :: 0 <= i < j < |rows| ==> Apart(rows[i], rows[j])
  }

  ghost predicate HasRow(rows: seq<Identity>, id: nat, person: nat) {
    exists i :: 0 <= i < |rows| && rows[i].id == id && rows[i].person == person
  }

  /** A sign-in about to redeem an authorization knows whose it is. */
  ghost predicate Knows(rows: seq<Identity>, phase: Phase) {
    phase.Redeeming? ==> HasRow(rows, phase.id, phase.person)
  }

  ghost predicate Sound(w: World) {
    && OneEach(w.rows)
    && forall session :: session in w.arriving ==> Knows(w.rows, w.arriving[session])
  }

  lemma {:induction false} NextIDIsNew(rows: seq<Identity>)
    ensures forall i :: 0 <= i < |rows| ==> rows[i].id < NextID(rows)
  {
    if rows != [] { NextIDIsNew(rows[1..]); }
  }

  lemma OneEachApart(rows: seq<Identity>, i: nat, j: nat)
    requires OneEach(rows) && i < |rows| && j < |rows| && i != j
    ensures Apart(rows[i], rows[j]) && Apart(rows[j], rows[i])
  {
    if i < j { assert Apart(rows[i], rows[j]); } else { assert Apart(rows[j], rows[i]); }
  }

  lemma ChangingOneKeeps(rows: seq<Identity>, i: nat, row: Identity)
    requires OneEach(rows) && i < |rows| && row.id == rows[i].id
    requires forall j :: 0 <= j < |rows| && j != i ==> row.username != rows[j].username
    requires forall j :: 0 <= j < |rows| && j != i && row.pin.Some? ==> !Bears(rows[j], row.pin.value.subject)
    ensures OneEach(rows[i := row])
  {
    var rows' := rows[i := row];
    forall j, k | 0 <= j < k < |rows| ensures Apart(rows'[j], rows'[k]) {
      OneEachApart(rows, j, k);
      if k == i && row.pin.Some? { assert !Bears(rows[j], row.pin.value.subject); }
      if j == i && row.pin.Some? { assert !Bears(rows[k], row.pin.value.subject); }
    }
  }

  lemma ClaimingKeeps(rows: seq<Identity>, person: nat, username: string, until: int)
    requires OneEach(rows)
    ensures OneEach(Settled(rows, Claimed(rows, person, username, until)))
  {
    var i := Under(rows, username);
    NextIDIsNew(rows);
    if i < |rows| && rows[i].pin.None? {
      forall j | 0 <= j < |rows| && j != i ensures rows[i].username != rows[j].username { OneEachApart(rows, i, j); }
      ChangingOneKeeps(rows, i, rows[i].(claimableUntil := Some(until)));
    }
  }

  lemma RenamingKeeps(rows: seq<Identity>, id: nat, username: string)
    requires OneEach(rows)
    ensures OneEach(Settled(rows, Renamed(rows, id, username)))
  {
    var i := RowID(rows, id);
    if i < |rows| && !Taken(rows, username, id) {
      forall j | 0 <= j < |rows| && j != i
        ensures username != rows[j].username && (rows[i].pin.Some? ==> !Bears(rows[j], rows[i].pin.value.subject))
      {
        OneEachApart(rows, i, j);
      }
      ChangingOneKeeps(rows, i, rows[i].(username := username));
    }
  }

  lemma RedeemingKeeps(rows: seq<Identity>, id: nat, a: Arrival)
    requires OneEach(rows)
    ensures OneEach(Settled(rows, Redeemed(rows, id, a)))
  {
    var i := RowID(rows, id);
    if Redeemed(rows, id, a).Ok? {
      forall j | 0 <= j < |rows| && j != i ensures rows[i].username != rows[j].username { OneEachApart(rows, i, j); }
      ChangingOneKeeps(rows, i, rows[i].(pin := Some(Pin(a.subject, Some(a.provider)))));
    }
  }

  // ----- What becomes of one row -----

  /** Where a row is after a step: in the same place, still that person's. */
  ghost predicate Persists(rows: seq<Identity>, rows': seq<Identity>) {
    && |rows| <= |rows'|
    && forall i :: 0 <= i < |rows| ==> rows'[i].id == rows[i].id && rows'[i].person == rows[i].person
  }

  /** No row loses or changes its identifier, unless its person is unbound. */
  ghost predicate PinsStay(rows: seq<Identity>, rows': seq<Identity>, step: Step)
    requires |rows| <= |rows'|
  {
    forall i :: 0 <= i < |rows| && rows[i].pin.Some? && !(step.Unbind? && step.person == rows[i].person) ==>
      rows'[i].pin == rows[i].pin
  }

  lemma NextPersists(rows: seq<Identity>, phase: Phase, now: int, step: Step)
    ensures var rows' := Next(rows, phase, now).rows; Persists(rows, rows') && PinsStay(rows, rows', step)
  {}

  lemma ClaimPersists(rows: seq<Identity>, person: nat, username: string, until: int, step: Step)
    ensures var rows' := Settled(rows, Claimed(rows, person, username, until));
            Persists(rows, rows') && PinsStay(rows, rows', step)
  {}

  lemma UnbindPersists(rows: seq<Identity>, person: nat, until: int, step: Step)
    requires step.Unbind? && step.person == person
    ensures var rows' := Settled(rows, Unbound(rows, person, until));
            Persists(rows, rows') && PinsStay(rows, rows', step)
  {}

  lemma StepPersists(w: World, e: Event)
    ensures Persists(w.rows, After(w, e).rows) && PinsStay(w.rows, After(w, e).rows, e.step)
  {
    hide Next, Claimed, Unbound;
    var now := w.clock + e.tick;
    match e.step
    case Claim(person, username, window) => ClaimPersists(w.rows, person, username, now + window, e.step);
    case Unbind(person, window) => UnbindPersists(w.rows, person, now + window, e.step);
    case Proceed(session) =>
      if session in w.arriving { NextPersists(w.rows, w.arriving[session], now, e.step); }
    case Begin(_, _) =>
  }

  lemma HasRowPersists(rows: seq<Identity>, rows': seq<Identity>, id: nat, person: nat)
    requires HasRow(rows, id, person) && Persists(rows, rows')
    ensures HasRow(rows', id, person)
  {
    var i :| 0 <= i < |rows| && rows[i].id == id && rows[i].person == person;
    assert rows'[i].id == id && rows'[i].person == person;
  }

  lemma NextKeeps(rows: seq<Identity>, phase: Phase, now: int)
    requires OneEach(rows) && Knows(rows, phase)
    ensures var next := Next(rows, phase, now);
            OneEach(next.rows) && (next.phase.Some? ==> Knows(next.rows, next.phase.value))
  {
    match phase
    case Moving(a, id) => RenamingKeeps(rows, id, a.username);
    case Redeeming(a, id, _) => RedeemingKeeps(rows, id, a);
    case Unknown(a) =>
      var i := Under(rows, a.username);
      if i < |rows| { assert HasRow(rows, rows[i].id, rows[i].person); }
    case _ =>
  }

  lemma UnbindingKeeps(rows: seq<Identity>, person: nat, until: int)
    requires OneEach(rows)
    ensures OneEach(Settled(rows, Unbound(rows, person, until)))
  {
    var cleared := Cleared(rows, person, until);
    forall i, j | 0 <= i < j < |cleared| ensures Apart(cleared[i], cleared[j]) { OneEachApart(rows, i, j); }
  }

  lemma StepKeepsOneEach(w: World, e: Event)
    requires Sound(w)
    ensures OneEach(After(w, e).rows)
    ensures e.step.Proceed? && e.step.session in w.arriving ==>
      var next := Next(w.rows, w.arriving[e.step.session], w.clock + e.tick);
      next.phase.Some? ==> Knows(next.rows, next.phase.value)
  {
    hide Next, Claimed, Unbound, Apart;
    var now := w.clock + e.tick;
    match e.step
    case Claim(person, username, window) => ClaimingKeeps(w.rows, person, username, now + window);
    case Proceed(session) => if session in w.arriving { NextKeeps(w.rows, w.arriving[session], now); }
    case Unbind(person, window) => UnbindingKeeps(w.rows, person, now + window);
    case Begin(_, _) =>
  }

  lemma StepKeepsSound(w: World, e: Event)
    requires Sound(w)
    ensures Sound(After(w, e))
  {
    hide Next, Claimed, Unbound, OneEach, Persists, PinsStay, HasRow;
    var w' := After(w, e);
    StepKeepsOneEach(w, e);
    StepPersists(w, e);
    forall s | s in w'.arriving ensures Knows(w'.rows, w'.arriving[s]) {
      if s in w.arriving && w'.arriving[s] == w.arriving[s] && w.arriving[s].Redeeming? {
        HasRowPersists(w.rows, w'.rows, w.arriving[s].id, w.arriving[s].person);
      }
    }
  }

  /** Usernames and identifiers stay unique over every run, however sign-ins interleave. */
  lemma {:induction false} EveryRunKeepsOneEach(w: World, events: seq<Event>)
    requires Sound(w)
    ensures Sound(Run(w, events))
  {
    if events != [] {
      var n := |events| - 1;
      EveryRunKeepsOneEach(w, events[..n]);
      StepKeepsSound(Run(w, events[..n]), events[n]);
    }
  }

  // ----- Whom an identifier is -----

  /** This row is pinned to this identifier and is this person's. */
  ghost predicate Carries(rows: seq<Identity>, subject: string, id: nat, person: nat) {
    exists i :: 0 <= i < |rows| && rows[i].id == id && rows[i].person == person && Bears(rows[i], subject)
  }

  lemma NextDecides(rows: seq<Identity>, phase: Phase, now: int)
    requires OneEach(rows) && Knows(rows, phase) && Next(rows, phase, now).decision.Some?
    ensures var next := Next(rows, phase, now);
            var d := next.decision.value;
            d.subject == phase.a.subject && Carries(next.rows, d.subject, d.id, d.person)
  {
    var next := Next(rows, phase, now);
    match phase
    case Looking(a) => assert Bears(next.rows[PinnedTo(rows, a.subject)], a.subject);
    case Unknown(a) => assert Bears(next.rows[Under(rows, a.username)], a.subject);
    case Redeeming(a, id, person) =>
      var i := RowID(rows, id);
      var j :| 0 <= j < |rows| && rows[j].id == id && rows[j].person == person;
      if i != j { OneEachApart(rows, i, j); }
      assert Bears(next.rows[i], a.subject);
  }

  /** Whoever is recognized is recognized through a row that, at that very moment, carries exactly the
      identifier they came with. */
  lemma RecognizedThroughTheirOwnRow(w: World, e: Event)
    requires Sound(w) && After(w, e).decided != w.decided
    ensures var d := After(w, e).decided[|After(w, e).decided| - 1];
            && After(w, e).decided == w.decided + [d]
            && Carries(After(w, e).rows, d.subject, d.id, d.person)
            && e.step.Proceed? && e.step.session in w.arriving && d.subject == w.arriving[e.step.session].a.subject
  {
    NextDecides(w.rows, w.arriving[e.step.session], w.clock + e.tick);
  }

  ghost predicate NeverUnbound(events: seq<Event>, person: nat) {
    forall i :: 0 <= i < |events| ==> !(events[i].step.Unbind? && events[i].step.person == person)
  }

  lemma CarriedIsOne(rows: seq<Identity>, subject: string, id: nat, person: nat, subject': string, id': nat, person': nat)
    requires OneEach(rows) && Carries(rows, subject, id, person) && Carries(rows, subject', id', person')
    ensures subject == subject' <==> id == id'
    ensures subject == subject' ==> person == person'
  {
    var i :| 0 <= i < |rows| && rows[i].id == id && rows[i].person == person && Bears(rows[i], subject);
    var j :| 0 <= j < |rows| && rows[j].id == id' && rows[j].person == person' && Bears(rows[j], subject');
    if i != j { OneEachApart(rows, i, j); }
  }

  lemma CarryingStays(w: World, e: Event, subject: string, id: nat, person: nat)
    requires Carries(w.rows, subject, id, person) && !(e.step.Unbind? && e.step.person == person)
    ensures Carries(After(w, e).rows, subject, id, person)
  {
    hide After;
    StepPersists(w, e);
    var i :| 0 <= i < |w.rows| && w.rows[i].id == id && w.rows[i].person == person && Bears(w.rows[i], subject);
    assert Bears(After(w, e).rows[i], subject);
  }

  /** Once an identifier is pinned, and until its person is unbound, everybody who arrives with it is
      that person, whatever name they present; and nobody who arrives with another identifier is
      recognized through that row, whatever name they present. */
  lemma {:induction false} PinnedUntilUnbound(w: World, events: seq<Event>, subject: string, id: nat, person: nat)
    requires Sound(w) && Carries(w.rows, subject, id, person) && NeverUnbound(events, person)
    ensures var w' := Run(w, events);
            && Carries(w'.rows, subject, id, person)
            && |w.decided| <= |w'.decided|
            && forall k :: |w.decided| <= k < |w'.decided| ==>
                 && (w'.decided[k].subject == subject <==> w'.decided[k].id == id)
                 && (w'.decided[k].subject == subject ==> w'.decided[k].person == person)
  {
    if events != [] {
      hide After;
      var n := |events| - 1;
      PinnedUntilUnbound(w, events[..n], subject, id, person);
      EveryRunKeepsOneEach(w, events[..n]);
      var before, e := Run(w, events[..n]), events[n];
      CarryingStays(before, e, subject, id, person);
      StepKeepsSound(before, e);
      var after := After(before, e);
      if after.decided != before.decided {
        RecognizedThroughTheirOwnRow(before, e);
        var d := after.decided[|after.decided| - 1];
        CarriedIsOne(after.rows, subject, id, person, d.subject, d.id, d.person);
      }
    }
  }

  /** This row is this person's and holds this pin. */
  ghost predicate Holds(rows: seq<Identity>, pin: Pin, id: nat, person: nat) {
    exists i :: 0 <= i < |rows| && rows[i].id == id && rows[i].person == person && rows[i].pin == Some(pin)
  }

  lemma HoldingStays(w: World, e: Event, pin: Pin, id: nat, person: nat)
    requires Holds(w.rows, pin, id, person) && !(e.step.Unbind? && e.step.person == person)
    ensures Holds(After(w, e).rows, pin, id, person)
  {
    hide After;
    StepPersists(w, e);
    var i :| 0 <= i < |w.rows| && w.rows[i].id == id && w.rows[i].person == person && w.rows[i].pin == Some(pin);
    assert After(w, e).rows[i].pin == Some(pin);
  }

  lemma {:induction false} HeldUntilUnbound(w: World, events: seq<Event>, pin: Pin, id: nat, person: nat)
    requires Holds(w.rows, pin, id, person) && NeverUnbound(events, person)
    ensures Holds(Run(w, events).rows, pin, id, person)
  {
    hide After;
    if events != [] {
      var n := |events| - 1;
      HeldUntilUnbound(w, events[..n], pin, id, person);
      HoldingStays(Run(w, events[..n]), events[n], pin, id, person);
    }
  }

  /** Looking a pinned identifier up recognizes its row's person, exactly where the row's provider is the
      one arriving. */
  lemma LookingRecognizes(rows: seq<Identity>, pin: Pin, id: nat, person: nat, a: Arrival, now: int)
    requires OneEach(rows) && Holds(rows, pin, id, person) && a.subject == pin.subject
    ensures Next(rows, Looking(a), now).decision ==
      if pin.provider.None? || EqualFold(pin.provider.value, a.provider) then Some(Decision(a.subject, a.provider, id, person)) else None
  {
    var i :| 0 <= i < |rows| && rows[i].id == id && rows[i].person == person && rows[i].pin == Some(pin);
    var j := PinnedTo(rows, a.subject);
    assert Bears(rows[i], a.subject);
    if i != j { OneEachApart(rows, i, j); }
  }

  /** And however a run goes on, short of unbinding its person: whoever looks a pinned identifier up is
      recognized as that person, whatever name they present, exactly where the pin was issued by the
      provider they come through. */
  lemma PinnedIsRecognized(w: World, events: seq<Event>, pin: Pin, id: nat, person: nat, session: nat, tick: nat)
    requires Sound(w) && Holds(w.rows, pin, id, person) && NeverUnbound(events, person)
    requires var w' := Run(w, events);
             && session in w'.arriving && w'.arriving[session].Looking? && w'.arriving[session].a.subject == pin.subject
    ensures var w' := Run(w, events);
            var a := w'.arriving[session].a;
            After(w', Event(tick, Proceed(session))).decided == w'.decided
              + if pin.provider.None? || EqualFold(pin.provider.value, a.provider) then [Decision(a.subject, a.provider, id, person)] else []
  {
    hide Next, OneEach;
    var w' := Run(w, events);
    EveryRunKeepsOneEach(w, events);
    HeldUntilUnbound(w, events, pin, id, person);
    LookingRecognizes(w'.rows, pin, id, person, w'.arriving[session].a, w'.clock + tick);
  }

  // ----- Through which provider -----

  ghost predicate NothingPinned(rows: seq<Identity>) {
    forall i :: 0 <= i < |rows| ==> rows[i].pin == None
  }

  /** Every pin says who issued it. */
  ghost predicate PinsSayProvider(rows: seq<Identity>) {
    forall i :: 0 <= i < |rows| && rows[i].pin.Some? ==> rows[i].pin.value.provider.Some?
  }

  lemma StepKeepsProviders(w: World, e: Event)
    requires PinsSayProvider(w.rows)
    ensures PinsSayProvider(After(w, e).rows)
  {}

  lemma {:induction false} RunKeepsProviders(w: World, events: seq<Event>)
    requires PinsSayProvider(w.rows)
    ensures PinsSayProvider(Run(w, events).rows)
  {
    hide After, PinsSayProvider;
    if events != [] {
      var n := |events| - 1;
      RunKeepsProviders(w, events[..n]);
      StepKeepsProviders(Run(w, events[..n]), events[n]);
    }
  }

  /** The row holds this identifier, issued by this provider. */
  ghost predicate PinnedBy(rows: seq<Identity>, subject: string, provider: string, id: nat, person: nat) {
    exists p :: Holds(rows, Pin(subject, Some(p)), id, person) && SameButCapitals(p, provider)
  }

  lemma AlikeIsAlike(a: string, b: string, c: string)
    requires SameButCapitals(a, b)
    ensures SameButCapitals(b, a)
    ensures SameButCapitals(a, c) ==> SameButCapitals(b, c)
  {
    EqualFoldMeans(a, b);
    EqualFoldMeans(b, a);
    EqualFoldMeans(a, c);
    EqualFoldMeans(b, c);
  }

  /** Whoever is recognized is recognized through a row pinned, then and there, to the identifier they
      came with, by the provider they came through. */
  lemma DecidingPins(rows: seq<Identity>, phase: Phase, now: int)
    requires OneEach(rows) && Knows(rows, phase) && PinsSayProvider(rows) && Next(rows, phase, now).decision.Some?
    ensures var next := Next(rows, phase, now);
            var d := next.decision.value; PinnedBy(next.rows, d.subject, d.provider, d.id, d.person)
  {
    var next := Next(rows, phase, now);
    var a, d := phase.a, next.decision.value;
    NextDecides(rows, phase, now);
    var i :| 0 <= i < |next.rows| && next.rows[i].id == d.id && next.rows[i].person == d.person && Bears(next.rows[i], d.subject);
    if phase.Redeeming? {
      var k := RowID(rows, phase.id);
      var j :| 0 <= j < |rows| && rows[j].id == phase.id && rows[j].person == phase.person;
      if k != j { OneEachApart(rows, k, j); }
      assert Holds(next.rows, Pin(a.subject, Some(a.provider)), d.id, d.person) by { assert next.rows[k].pin == Some(Pin(a.subject, Some(a.provider))); }
      assert SameButCapitals(a.provider, a.provider);
    } else {
      var k := if phase.Looking? then PinnedTo(rows, a.subject) else Under(rows, a.username);
      if k != i { OneEachApart(rows, k, i); }
      var p := rows[k].pin.value.provider.value;
      EqualFoldMeans(p, a.provider);
      assert Holds(next.rows, Pin(a.subject, Some(p)), d.id, d.person);
    }
  }

  /** In every run from rows nobody has redeemed: once somebody is recognized through a row, and until
      their person is unbound, whoever is recognized through it is that person, comes with that very
      identifier, and comes through that provider, capitals aside. */
  lemma OneProviderUntilUnbound(w: World, before: seq<Event>, e: Event, since: seq<Event>, k: nat)
    requires Sound(w) && NothingPinned(w.rows)
    requires var w1 := Run(w, before); After(w1, e).decided != w1.decided
    requires var w2 := After(Run(w, before), e);
             && w2.decided != [] && NeverUnbound(since, w2.decided[|w2.decided| - 1].person)
             && |w2.decided| <= k < |Run(w2, since).decided|
    ensures var w2 := After(Run(w, before), e);
            var d, d' := w2.decided[|w2.decided| - 1], Run(w2, since).decided[k];
            d'.id == d.id ==> d'.person == d.person && d'.subject == d.subject && SameButCapitals(d'.provider, d.provider)
    decreases |since|
  {
    hide After, Run, Sound;
    var w1 := Run(w, before);
    var w2 := After(w1, e);
    DecidedGrows(w1, e);
    var d := w2.decided[|w2.decided| - 1];
    EveryRunKeepsOneEach(w, before);
    RunKeepsProviders(w, before);
    StepKeepsSound(w1, e);
    StepKeepsProviders(w1, e);
    RecognizedPins(w1, e);
    var p :| Holds(w2.rows, Pin(d.subject, Some(p)), d.id, d.person) && SameButCapitals(p, d.provider);
    AllThroughProvider(w2, since, p, d, k);
    var d' := Run(w2, since).decided[k];
    if d'.id == d.id {
      AlikeIsAlike(p, d'.provider, d.provider);
    }
  }

  lemma RecognizedPins(w: World, e: Event)
    requires Sound(w) && PinsSayProvider(w.rows) && After(w, e).decided != w.decided
    ensures var d := After(w, e).decided[|After(w, e).decided| - 1];
            After(w, e).decided == w.decided + [d] && PinnedBy(After(w, e).rows, d.subject, d.provider, d.id, d.person)
  {
    hide Next, OneEach, PinnedBy;
    DecidingPins(w.rows, w.arriving[e.step.session], w.clock + e.tick);
  }

  lemma {:induction false} AllThroughProvider(w: World, events: seq<Event>, p: string, d: Decision, k: nat)
    requires Sound(w) && PinsSayProvider(w.rows) && Holds(w.rows, Pin(d.subject, Some(p)), d.id, d.person)
    requires NeverUnbound(events, d.person) && |w.decided| <= k < |Run(w, events).decided|
    ensures var d' := Run(w, events).decided[k];
            d'.id == d.id ==> d'.person == d.person && d'.subject == d.subject && SameButCapitals(p, d'.provider)
  {
    hide After, Sound, PinsSayProvider, Holds, PinnedBy;
    if events != [] {
      var n := |events| - 1;
      var w1, e := Run(w, events[..n]), events[n];
      var w2 := After(w1, e);
      EveryRunKeepsOneEach(w, events[..n]);
      RunKeepsProviders(w, events[..n]);
      HeldUntilUnbound(w, events[..n], Pin(d.subject, Some(p)), d.id, d.person);
      DecidedGrows(w1, e);
      if k < |w1.decided| {
        AllThroughProvider(w, events[..n], p, d, k);
      } else {
        RecognizedPins(w1, e);
        HoldingStays(w1, e, Pin(d.subject, Some(p)), d.id, d.person);
        StepKeepsSound(w1, e);
        OnePinEach(w2, p, d, w2.decided[k]);
      }
    }
  }

  lemma DecidedGrows(w: World, e: Event)
    ensures w.decided <= After(w, e).decided
    ensures |After(w, e).decided| <= |w.decided| + 1
  {
    hide Next, Claimed, Unbound;
  }

  lemma OnePinEach(w: World, p: string, d: Decision, d': Decision)
    requires Sound(w) && Holds(w.rows, Pin(d.subject, Some(p)), d.id, d.person)
    requires PinnedBy(w.rows, d'.subject, d'.provider, d'.id, d'.person)
    ensures d'.id == d.id ==> d'.person == d.person && d'.subject == d.subject && SameButCapitals(p, d'.provider)
  {
    hide OneEach;
    if d'.id == d.id {
      var q :| Holds(w.rows, Pin(d'.subject, Some(q)), d'.id, d'.person) && SameButCapitals(q, d'.provider);
      var i :| 0 <= i < |w.rows| && w.rows[i].id == d.id && w.rows[i].person == d.person
            && w.rows[i].pin == Some(Pin(d.subject, Some(p)));
      var j :| 0 <= j < |w.rows| && w.rows[j].id == d'.id && w.rows[j].person == d'.person
            && w.rows[j].pin == Some(Pin(d'.subject, Some(q)));
      if i != j { OneEachApart(w.rows, i, j); }
    }
  }

  // ----- Authorizations nobody redeemed -----

  /** A row waiting under a name, past its window, that no sign-in has yet been handed. */
  ghost predicate Shut(w: World, i: nat) {
    && i < |w.rows| && Lapsed(w.rows[i], w.clock)
    && forall s :: s in w.arriving ==> !(w.arriving[s].Redeeming? && w.arriving[s].id == w.rows[i].id)
  }

  ghost predicate NeverClaimed(events: seq<Event>, person: nat) {
    forall i :: 0 <= i < |events| ==> !(events[i].step.Claim? && events[i].step.person == person)
  }

  ghost predicate StillShut(rows: seq<Identity>, rows': seq<Identity>, i: nat, now: int)
    requires i < |rows|
  {
    i < |rows'| && Lapsed(rows'[i], now) && rows'[i].id == rows[i].id
  }

  lemma NextLeavesShut(rows: seq<Identity>, phase: Phase, now: int, i: nat)
    requires OneEach(rows) && i < |rows| && Lapsed(rows[i], now)
    requires !(phase.Redeeming? && phase.id == rows[i].id)
    ensures var next := Next(rows, phase, now);
            && StillShut(rows, next.rows, i, now)
            && (next.decision.Some? ==> next.decision.value.id != rows[i].id)
            && (next.phase.Some? && next.phase.value.Redeeming? ==> next.phase.value.id != rows[i].id)
  {
    forall j | 0 <= j < |rows| && rows[j].id == rows[i].id ensures j == i {
      if j != i { OneEachApart(rows, i, j); }
    }
  }

  lemma ClaimLeavesShut(rows: seq<Identity>, person: nat, username: string, until: int, i: nat, now: int)
    requires i < |rows| && Lapsed(rows[i], now) && person != rows[i].person
    ensures StillShut(rows, Settled(rows, Claimed(rows, person, username, until)), i, now)
  {}

  lemma UnbindLeavesShut(rows: seq<Identity>, person: nat, until: int, i: nat, now: int)
    requires i < |rows| && Lapsed(rows[i], now)
    ensures StillShut(rows, Settled(rows, Unbound(rows, person, until)), i, now)
  {}

  lemma ShutStays(w: World, e: Event, i: nat)
    requires Sound(w) && Shut(w, i) && !(e.step.Claim? && e.step.person == w.rows[i].person)
    ensures Shut(After(w, e), i) && After(w, e).rows[i].id == w.rows[i].id
    ensures After(w, e).decided != w.decided ==> After(w, e).decided[|After(w, e).decided| - 1].id != w.rows[i].id
  {
    hide Next, OneEach, Claimed, Unbound, Knows;
    var now := w.clock + e.tick;
    match e.step
    case Claim(person, username, window) => ClaimLeavesShut(w.rows, person, username, now + window, i, now);
    case Unbind(person, window) => UnbindLeavesShut(w.rows, person, now + window, i, now);
    case Proceed(session) =>
      if session in w.arriving { NextLeavesShut(w.rows, w.arriving[session], now, i); }
    case Begin(_, _) =>
  }

  /** An authorization whose window passed unredeemed admits nobody again, unless its person is
      authorized afresh. */
  lemma {:induction false} LapsedAdmitsNobody(w: World, events: seq<Event>, i: nat)
    requires Sound(w) && Shut(w, i) && NeverClaimed(events, w.rows[i].person)
    ensures var w' := Run(w, events);
            && Shut(w', i) && w'.rows[i].id == w.rows[i].id && w'.rows[i].person == w.rows[i].person
            && |w.decided| <= |w'.decided|
            && forall k :: |w.decided| <= k < |w'.decided| ==> w'.decided[k].id != w.rows[i].id
  {
    if events != [] {
      hide After;
      var n := |events| - 1;
      LapsedAdmitsNobody(w, events[..n], i);
      EveryRunKeepsOneEach(w, events[..n]);
      var before, e := Run(w, events[..n]), events[n];
      ShutStays(before, e, i);
      StepPersists(before, e);
      if After(before, e).decided != before.decided { RecognizedThroughTheirOwnRow(before, e); }
    }
  }
}
