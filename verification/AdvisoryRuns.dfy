/** Whole runs over one advisory: editing, agreeing and issuing interleaved as the database lets them
    be. Every transaction is one event; what a call reads outside its transaction is read in events
    of its own, with anything in between (internal/advisory/advisory.go:109-130,
    issuance.go:73-254, editorial.go:249-332). */
module AdvisoryRuns {
  import opened Common
  import opened Sorting
  import opened Advisories
  import opened AdvisorySafety

  // ----- Issuing reads before it writes -----

  /** What looking the advisory up by name answered. */
  datatype Row = Row(who: nat, summary: string, editionID: Option<nat>, title: string, frozen: Option<int>)

  /** How far an issuing call has read: the row, what it covers, what has gone out, who agrees, and
      then each covered issue's marks and the earliest recording among them. */
  datatype Session =
    | Named(row: Row)
    | Scoped(row: Row, topics: seq<Topic>)
    | Counted(row: Row, topics: seq<Topic>, gone: seq<Issuance>)
    | Drafting(row: Row, topics: seq<Topic>, gone: seq<Issuance>, agreed: bool, at: int,
               marks: seq<set<Release>>, oldest: Option<int>)

  function Earliest(oldest: Option<int>, recorded: int): Option<int> {
    if oldest.None? || recorded < oldest.value then Some(recorded) else oldest
  }

  function LookUp(r: Record, who: nat, summary: string): Session {
    Named(Row(who, summary, r.editionID, TitleOf(r.editions, r.editionID), r.releasedFrom))
  }

  /** The next read of an issuing call, or the end of one that has nothing to say. */
  function NextRead(s: Session, r: Record, recordings: map<Topic, int>, now: int): Option<Session> {
    match s
    case Named(row) =>
      if TopicsOf(r.covers) == [] then None else Some(Scoped(row, TopicsOf(r.covers)))
    case Scoped(row, topics) => Some(Counted(row, topics, r.issuances))
    case Counted(row, topics, gone) =>
      Some(Drafting(row, topics, gone, row.editionID.Some? && Agreed(r.approvals, row.editionID.value), now, [], None))
    case Drafting(row, topics, gone, agreed, at, marks, oldest) =>
      if |marks| >= |topics| then Some(s)
      else
        var topic := topics[|marks|];
        if topic !in recordings then None
        else Some(s.(marks := marks + [MarksOn(r.overrides, topic)], oldest := Earliest(oldest, recordings[topic])))
  }

  predicate Assembled(s: Session) {
    s.Drafting? && s.oldest.Some? && |s.marks| == |s.topics|
  }

  function InitialRelease(s: Session): int
    requires Assembled(s)
  {
    if s.row.frozen.Some? then s.row.frozen.value else s.oldest.value
  }

  function Assembly(s: Session): Document
    requires Assembled(s)
  {
    var history := Revisions(InitialRelease(s), s.gone, s.at);
    Document(s.row.title, s.topics, s.marks, StatusOf(s.gone != [], s.agreed),
             InitialRelease(s), s.at, history[|history| - 1].number, history)
  }

  // ----- Events -----

  datatype Step =
    | Enter(topic: Topic, at: int)
    | Retitle(who: nat, title: string)
    | Add(who: nat, topic: Topic)
    | Drop(who: nat, topic: Topic)
    | MarkAffected(who: nat, place: Place, affected: bool)
    | Ask(id: nat, who: nat)
    | Agree(id: nat)
    | Withdraw(who: nat)
    | Begin(id: nat, who: nat, summary: string)
    | Read(id: nat)
    | Issue(id: nat)

  /** A step, and how far the clock moved before it. */
  datatype Event = Event(tick: nat, step: Step)

  /** The advisory, the clock, the issuing calls part way through, the approvers already asked, and the
      flaws recorded here with the moment of the earliest finding entered for each. A flaw stays
      recorded, and no later finding of it is earlier. */
  datatype World = World(record: Record, clock: int, issuing: map<nat, Session>, approving: map<nat, nat>,
                         recordings: map<Topic, int>)

  function Start(who: nat, title: string, now: int): World {
    World(Minted(who, title, now), now, map[], map[], map[])
  }

  function Settled(r: Record, outcome: Result<Record, Refusal>): Record {
    if outcome.Ok? then outcome.value else r
  }

  /** What an act on the advisory makes of its rows; reading changes none. */
  function RecordAfter(w: World, step: Step, now: int): Record {
    var r := w.record;
    match step
    case Retitle(who, title) => Retitled(r, who, title, now)
    case Add(who, topic) => if topic in w.recordings then Settled(r, Added(r, who, topic, now)) else r
    case Drop(who, topic) => Settled(r, Dropped(r, who, topic, now))
    case MarkAffected(who, place, affected) => MarkedAffected(r, who, place, affected, now)
    case Agree(id) => if id in w.approving then Settled(r, Approved(r, w.approving[id], now)) else r
    case Withdraw(who) => Settled(r, Withdrawn(r, who, now))
    case Issue(id) =>
      if id in w.issuing && Assembled(w.issuing[id]) then
        var s := w.issuing[id];
        Settled(r, Issued(r, Assembly(s), s.row.editionID, s.row.who, s.row.summary, now))
      else r
    case Enter(_, _) => r
    case Ask(_, _) => r
    case Begin(_, _, _) => r
    case Read(_) => r
  }

  function IssuingAfter(w: World, step: Step, now: int): map<nat, Session> {
    match step
    case Begin(id, who, summary) => w.issuing[id := LookUp(w.record, who, summary)]
    case Read(id) =>
      if id !in w.issuing then w.issuing
      else
        var next := NextRead(w.issuing[id], w.record, w.recordings, now);
        if next.None? then w.issuing - {id} else w.issuing[id := next.value]
    case Issue(id) => w.issuing - {id}
    case _ => w.issuing
  }

  function ApprovingAfter(w: World, step: Step): map<nat, nat> {
    match step
    case Ask(id, who) => if Unaskable(w.record, who).None? then w.approving[id := who] else w.approving
    case Agree(id) => w.approving - {id}
    case _ => w.approving
  }

  /** A flaw is recorded, now or before the advisory was minted; the first to enter it dates it. */
  function RecordingsAfter(w: World, step: Step, now: int): map<Topic, int> {
    if step.Enter? && step.topic !in w.recordings && step.at <= now then w.recordings[step.topic := step.at]
    else w.recordings
  }

  function After(w: World, e: Event): World {
    var now := w.clock + e.tick;
    World(RecordAfter(w, e.step, now), now, IssuingAfter(w, e.step, now), ApprovingAfter(w, e.step),
          RecordingsAfter(w, e.step, now))
  }

  function Run(w: World, events: seq<Event>): World
    decreases |events|
  {
    if events == [] then w else After(Run(w, events[..|events| - 1]), events[|events| - 1])
  }

  ghost predicate Reachable(w: World) {
    exists who, title, now, events :: w == Run(Start(who, title, now), events)
  }

  lemma StartIsReachable(who: nat, title: string, now: int)
    ensures Reachable(Start(who, title, now))
  {
    assert Run(Start(who, title, now), []) == Start(who, title, now);
  }

  lemma StepIsReachable(w: World, e: Event)
    requires Reachable(w)
    ensures Reachable(After(w, e))
  {
    hide RecordAfter;
    var who, title, now, events :| w == Run(Start(who, title, now), events);
    assert (events + [e])[..|events|] == events;
    assert Run(Start(who, title, now), events + [e]) == After(w, e);
  }

  lemma BeginIsReachable(w: World, id: nat, who: nat, summary: string)
    requires Reachable(w)
    ensures Reachable(w.(issuing := w.issuing[id := LookUp(w.record, who, summary)]))
  {
    StepIsReachable(w, Event(0, Begin(id, who, summary)));
  }

  lemma ReadIsReachable(w: World, id: nat, next: Session)
    requires Reachable(w) && id in w.issuing && NextRead(w.issuing[id], w.record, w.recordings, w.clock) == Some(next)
    ensures Reachable(w.(issuing := w.issuing[id := next]))
  {
    StepIsReachable(w, Event(0, Read(id)));
  }

  lemma AgreeIsReachable(w: World, id: nat, tick: nat, r': Record)
    requires Reachable(w) && id in w.approving && Approved(w.record, w.approving[id], w.clock + tick) == Ok(r')
    ensures Reachable(World(r', w.clock + tick, w.issuing, w.approving - {id}, w.recordings))
  {
    hide Reachable, Approved;
    StepIsReachable(w, Event(tick, Agree(id)));
  }

  lemma IssueIsReachable(w: World, id: nat, tick: nat, r': Record)
    requires Reachable(w) && id in w.issuing && Assembled(w.issuing[id])
    requires var s := w.issuing[id];
             Issued(w.record, Assembly(s), s.row.editionID, s.row.who, s.row.summary, w.clock + tick) == Ok(r')
    ensures Reachable(World(r', w.clock + tick, w.issuing - {id}, w.approving, w.recordings))
  {
    hide Reachable, Issued, Assembly;
    StepIsReachable(w, Event(tick, Issue(id)));
  }

  // ----- What an issuing call holds while others edit -----

  ghost predicate SameEdition(r: Record, row: Row) {
    row.editionID == r.editionID
  }

  ghost predicate Tracks(r: Record, s: Session) {
    && s.row.editionID.Some? && s.row.editionID.value <= |r.editions|
    && (s.row.frozen.Some? ==> s.row.frozen == r.releasedFrom)
    && (SameEdition(r, s.row) ==> s.row.title == TitleOf(r.editions, r.editionID))
    && (!s.Named? ==> s.topics != [] && (SameEdition(r, s.row) ==> s.topics == TopicsOf(r.covers)))
    && (s.Drafting? ==>
          && |s.marks| <= |s.topics|
          && (SameEdition(r, s.row) ==> forall i :: 0 <= i < |s.marks| ==> s.marks[i] == MarksOn(r.overrides, s.topics[i]))
          && (s.oldest.Some? <==> s.marks != []))
  }

  /** The document says what the advisory says: its title, what it covers, and what it marks. */
  ghost predicate Shows(doc: Document, r: Record) {
    && doc.title == TitleOf(r.editions, r.editionID)
    && doc.topics == TopicsOf(r.covers) != []
    && |doc.marks| == |doc.topics|
    && forall i :: 0 <= i < |doc.topics| ==> doc.marks[i] == MarksOn(r.overrides, doc.topics[i])
  }

  /** Either what the advisory says is untouched, or it moved to an edition there never was. */
  ghost predicate KeptOrMoved(r: Record, r': Record) {
    && ((r'.editions == r.editions && r'.editionID == r.editionID && r'.covers == r.covers && r'.overrides == r.overrides)
        || (|r'.editions| == |r.editions| + 1 && r.editions <= r'.editions && r'.editionID == Some(|r'.editions|)))
    && (r.releasedFrom.Some? ==> r'.releasedFrom == r.releasedFrom)
    && (r'.issuances == r.issuances
        || (r'.editions == r.editions && exists one :: r'.issuances == r.issuances + [one] && one.edition == |r.editions|))
  }

  lemma OpeningMoves(r: Record, who: nat, title: string, now: int)
    requires EditionsSound(r)
    ensures KeptOrMoved(r, OpenEdition(r, who, title, now))
    ensures |OpenEdition(r, who, title, now).editions| == |r.editions| + 1
    ensures OpenEdition(r, who, title, now).mintedBy == r.mintedBy
  {
    HighestIsLast(r.editions, 0);
  }

  lemma MarkingMoves(r: Record, who: nat, place: Place, affected: bool, now: int)
    requires EditionsSound(r)
    ensures KeptOrMoved(r, MarkedAffected(r, who, place, affected, now))
    ensures MarkedAffected(r, who, place, affected, now).mintedBy == r.mintedBy
  {
    hide OpenEdition, Unmarked;
    var title, act, i := TitleOf(r.editions, r.editionID), Act(who, now), FirstCleared(r.overrides, place);
    var marked := Override(place, act, None);
    OpeningMoves(r.(overrides := if i < |r.overrides| then r.overrides[i := marked] else r.overrides + [marked]),
                 who, title, now);
    OpeningMoves(r.(overrides := Unmarked(r.overrides, place, act)), who, title, now);
  }

  lemma AddingMoves(r: Record, who: nat, topic: Topic, now: int)
    requires EditionsSound(r) && Added(r, who, topic, now).Ok?
    ensures KeptOrMoved(r, Added(r, who, topic, now).value)
    ensures Added(r, who, topic, now).value.mintedBy == r.mintedBy
  {
    hide RowOf;
    var i, c := RowOf(r.covers, topic), Cover(topic, Act(who, now), None);
    OpeningMoves(r.(covers := if i == |r.covers| then r.covers + [c] else r.covers[i := c]),
                 who, TitleOf(r.editions, r.editionID), now);
  }

  lemma StepKeepsOrMoves(w: World, step: Step, now: int)
    requires Sound(w.record, w.clock)
    ensures KeptOrMoved(w.record, RecordAfter(w, step, now))
    ensures RecordAfter(w, step, now).mintedBy == w.record.mintedBy
  {
    hide OpenEdition, MarkedAffected, Dropped, Added, Issued, Assembly;
    var r := w.record;
    match step
    case Retitle(who, name) => OpeningMoves(r, who, name, now);
    case Add(who, topic) => if Added(r, who, topic, now).Ok? { AddingMoves(r, who, topic, now); }
    case Drop(who, topic) => if Dropped(r, who, topic, now).Ok? { DroppingMoves(r, who, topic, now); }
    case MarkAffected(who, place, affected) => MarkingMoves(r, who, place, affected, now);
    case Issue(id) =>
      if id in w.issuing && Assembled(w.issuing[id]) {
        var s := w.issuing[id];
        if Issued(r, Assembly(s), s.row.editionID, s.row.who, s.row.summary, now).Ok? {
          IssuingMoves(r, Assembly(s), s.row.editionID, s.row.who, s.row.summary, now);
        }
      }
    case _ =>
  }

  lemma DroppingMoves(r: Record, who: nat, topic: Topic, now: int)
    requires EditionsSound(r) && Dropped(r, who, topic, now).Ok?
    ensures KeptOrMoved(r, Dropped(r, who, topic, now).value) && Dropped(r, who, topic, now).value.mintedBy == r.mintedBy
  {
    hide TakenOff, OpenEdition;
    OpeningMoves(r.(covers := TakenOff(r.covers, topic, Act(who, now))), who, TitleOf(r.editions, r.editionID), now);
  }

  lemma IssuingMoves(r: Record, doc: Document, against: Option<nat>, who: nat, summary: string, now: int)
    requires EditionsSound(r) && Issued(r, doc, against, who, summary, now).Ok?
    ensures var r' := Issued(r, doc, against, who, summary, now).value; KeptOrMoved(r, r') && r'.mintedBy == r.mintedBy
  {
    var r' := Issued(r, doc, against, who, summary, now).value;
    assert r'.issuances == r.issuances + [r'.issuances[|r.issuances|]];
  }

  lemma StepKeepsSound(w: World, step: Step, now: int)
    requires Sound(w.record, w.clock) && w.clock <= now
    requires forall id :: id in w.approving ==> w.approving[id] != w.record.mintedBy
    ensures Sound(RecordAfter(w, step, now), now)
  {
    var r, clock := w.record, w.clock;
    LaterIsSound(r, clock, now);
    match step
    case Retitle(who, title) => OpeningKeeps(r, who, title, clock, now);
    case Add(who, topic) => if Added(r, who, topic, now).Ok? { AddingKeeps(r, who, topic, clock, now); }
    case Drop(who, topic) => if Dropped(r, who, topic, now).Ok? { DroppingKeeps(r, who, topic, clock, now); }
    case MarkAffected(who, place, affected) => MarkingKeeps(r, who, place, affected, clock, now);
    case Agree(id) =>
      if id in w.approving && Approved(r, w.approving[id], now).Ok? { AgreeingKeeps(r, w.approving[id], clock, now); }
    case Withdraw(who) => TakingBackKeeps(r, who, clock, now);
    case Issue(id) =>
      if id in w.issuing && Assembled(w.issuing[id]) {
        var s := w.issuing[id];
        if Issued(r, Assembly(s), s.row.editionID, s.row.who, s.row.summary, now).Ok? {
          IssuingKeeps(r, Assembly(s), s.row.editionID, s.row.who, s.row.summary, clock, now);
        }
      }
    case _ =>
  }

  lemma TrackingKept(r: Record, r': Record, s: Session)
    requires EditionsSound(r) && EditionsSound(r') && KeptOrMoved(r, r') && Tracks(r, s)
    ensures Tracks(r', s)
  {}

  lemma ReadingTracks(r: Record, s: Session, recordings: map<Topic, int>, now: int)
    requires EditionsSound(r) && Tracks(r, s) && NextRead(s, r, recordings, now).Some?
    ensures Tracks(r, NextRead(s, r, recordings, now).value)
  {
    hide MarksOn, TitleOf, TopicsOf;
  }

  // ----- Safety at every point of every run -----

  ghost predicate AllShow(r: Record) {
    && (forall k :: 0 <= k < |r.issuances| && r.issuances[k].edition == |r.editions| ==> Shows(r.issuances[k].document, r))
    && (forall k :: 0 <= k < |r.issuances| ==> r.issuances[k].document.topics != [])
  }

  ghost predicate Safe(w: World) {
    && Sound(w.record, w.clock)
    && AllTrack(w.record, w.issuing)
    && (forall id :: id in w.approving ==> w.approving[id] != w.record.mintedBy)
    && AllShow(w.record)
  }

  ghost predicate AllTrack(r: Record, issuing: map<nat, Session>) {
    forall id :: id in issuing ==> Tracks(r, issuing[id])
  }

  lemma SessionsKept(w: World, step: Step, now: int, r': Record)
    requires EditionsSound(w.record) && EditionsSound(r') && KeptOrMoved(w.record, r')
    requires AllTrack(w.record, w.issuing)
    requires (step.Read? || step.Begin?) ==> r' == w.record
    ensures AllTrack(r', IssuingAfter(w, step, now))
  {
    var issuing := IssuingAfter(w, step, now);
    forall id | id in issuing ensures Tracks(r', issuing[id]) {
      if id in w.issuing && issuing[id] == w.issuing[id] {
        TrackingKept(w.record, r', w.issuing[id]);
      } else if step.Read? {
        ReadingTracks(w.record, w.issuing[id], w.recordings, now);
      }
    }
  }

  lemma ShowingKept(r: Record, r': Record)
    requires EditionsSound(r) && EditionsSound(r') && KeptOrMoved(r, r') && AllShow(r)
    requires forall k :: 0 <= k < |r.issuances| ==> r.issuances[k].edition <= |r.editions|
    requires r'.issuances != r.issuances ==>
               Shows(r'.issuances[|r.issuances|].document, r) && r'.covers == r.covers && r'.overrides == r.overrides
    ensures AllShow(r')
  {
    forall k | 0 <= k < |r'.issuances|
      ensures r'.issuances[k].document.topics != []
      ensures r'.issuances[k].edition == |r'.editions| ==> Shows(r'.issuances[k].document, r')
    {
      if k < |r.issuances| { assert r'.issuances[k] == r.issuances[k]; }
    }
  }

  /** The document an issuing call commits says what the advisory says at that moment, although it
      was read piece by piece before. */
  lemma CommittedShows(w: World, step: Step, now: int)
    requires EditionsSound(w.record) && AllTrack(w.record, w.issuing)
    ensures var r, r' := w.record, RecordAfter(w, step, now);
            r'.issuances != r.issuances ==>
              && |r'.issuances| > |r.issuances| && Shows(r'.issuances[|r.issuances|].document, r)
              && r'.covers == r.covers && r'.overrides == r.overrides
    ensures step.Read? || step.Begin? ==> RecordAfter(w, step, now) == w.record
  {
    if step.Issue? && step.id in w.issuing && Assembled(w.issuing[step.id]) {
      var s := w.issuing[step.id];
      assert Tracks(w.record, s);
      if SameEdition(w.record, s.row) { assert Shows(Assembly(s), w.record); }
    }
  }

  lemma SafeTogether(w: World, step: Step, now: int, r': Record)
    requires Safe(w) && w.clock <= now
    requires Sound(r', now) && KeptOrMoved(w.record, r') && r'.mintedBy == w.record.mintedBy
    requires (step.Read? || step.Begin?) ==> r' == w.record
    requires r'.issuances != w.record.issuances ==>
               && |r'.issuances| > |w.record.issuances|
               && Shows(r'.issuances[|w.record.issuances|].document, w.record)
               && r'.covers == w.record.covers && r'.overrides == w.record.overrides
    ensures Safe(World(r', now, IssuingAfter(w, step, now), ApprovingAfter(w, step), RecordingsAfter(w, step, now)))
  {
    SessionsKept(w, step, now, r');
    ShowingKept(w.record, r');
    ApproversKept(w, step);
  }

  lemma StepIsSafe(w: World, e: Event)
    requires Safe(w)
    ensures Safe(After(w, e))
  {
    hide RecordAfter;
    var now := w.clock + e.tick;
    StepKeepsSound(w, e.step, now);
    StepKeepsOrMoves(w, e.step, now);
    CommittedShows(w, e.step, now);
    SafeTogether(w, e.step, now, RecordAfter(w, e.step, now));
  }

  lemma ApproversKept(w: World, step: Step)
    requires forall id :: id in w.approving ==> w.approving[id] != w.record.mintedBy
    ensures forall id :: id in ApprovingAfter(w, step) ==> ApprovingAfter(w, step)[id] != w.record.mintedBy
  {}

  /** Two-person safety, over every run and every interleaving: editions are 1 to n with the
      advisory at n; an agreement stands only on edition n, once per person, never by who minted the
      advisory nor by an author of the words standing; and every issuance was recorded while such
      an agreement stood on the edition it names. */
  lemma {:induction false} EveryRunIsSafe(who: nat, title: string, now: int, events: seq<Event>)
    ensures Safe(Run(Start(who, title, now), events))
  {
    if events == [] {
      MintingIsSound(who, title, now);
    } else {
      var n := |events| - 1;
      EveryRunIsSafe(who, title, now, events[..n]);
      StepIsSafe(Run(Start(who, title, now), events[..n]), events[n]);
    }
  }

  lemma ReachableIsSafe(w: World)
    requires Reachable(w)
    ensures Safe(w)
  {
    var who, title, now, events :| w == Run(Start(who, title, now), events);
    EveryRunIsSafe(who, title, now, events);
  }

  lemma {:induction false} RunFromSafe(w: World, events: seq<Event>)
    requires Safe(w)
    ensures Safe(Run(w, events))
  {
    hide Safe, RecordAfter;
    if events != [] {
      var n := |events| - 1;
      RunFromSafe(w, events[..n]);
      StepIsSafe(Run(w, events[..n]), events[n]);
    }
  }

  // ----- Issued documents are the agreed ones -----

  ghost predicate SaysTheSame(r: Record, r': Record) {
    && TitleOf(r.editions, r.editionID) == TitleOf(r'.editions, r'.editionID)
    && r.covers == r'.covers && r.overrides == r'.overrides
  }

  /** The record at one point of a run. */
  function At(who: nat, title: string, now: int, events: seq<Event>, i: nat): Record
    requires i <= |events|
  {
    Run(Start(who, title, now), events[..i]).record
  }

  lemma AtOnePoint(who: nat, title: string, now: int, events: seq<Event>, i: nat)
    requires i <= |events|
    ensures var r := At(who, title, now, events, i);
            && EditionsSound(r) && AllShow(r)
            && forall k :: 0 <= k < |r.issuances| ==> r.issuances[k].edition <= |r.editions|
  {
    EveryRunIsSafe(who, title, now, events[..i]);
  }

  lemma FromPointToPoint(who: nat, title: string, now: int, events: seq<Event>, i: nat)
    requires i < |events|
    ensures KeptOrMoved(At(who, title, now, events, i), At(who, title, now, events, i + 1))
  {
    hide RecordAfter;
    var w := Run(Start(who, title, now), events[..i]);
    EveryRunIsSafe(who, title, now, events[..i]);
    assert events[..i + 1][..i] == events[..i];
    StepKeepsOrMoves(w, events[i].step, w.clock + events[i].tick);
  }

  /** What an edition says never changes: whenever the advisory is at one edition, however far
      apart in a run, its title, coverage and marks are the same. And editions never go back. */
  lemma {:induction false} EditionsSayOneThing(who: nat, title: string, now: int, events: seq<Event>, i: nat, j: nat)
    requires i <= j <= |events|
    ensures var r, r' := At(who, title, now, events, i), At(who, title, now, events, j);
            && |r.editions| <= |r'.editions|
            && (r.editionID == r'.editionID ==> SaysTheSame(r, r'))
    decreases j - i
  {
    hide At, Shows;
    AtOnePoint(who, title, now, events, i);
    if i < j {
      EditionsSayOneThing(who, title, now, events, i, j - 1);
      AtOnePoint(who, title, now, events, j - 1);
      AtOnePoint(who, title, now, events, j);
      FromPointToPoint(who, title, now, events, j - 1);
    }
  }

  /** A document states of an advisory, as its rows have it: the newest edition's title; what is on it,
      each once, in the order it was put on; and under each exactly the releases marked affected. */
  ghost predicate Says(doc: Document, r: Record) {
    && doc.title == Title(r)
    && doc.topics != [] && Distinct(doc.topics) && (forall t :: t in doc.topics <==> OnIt(r.covers, t))
    && (forall i, j, a, b :: 0 <= i < j < |doc.topics| && RowOn(r.covers, a, doc.topics[i]) && RowOn(r.covers, b, doc.topics[j]) ==>
          r.covers[a].added.at <= r.covers[b].added.at)
    && |doc.marks| == |doc.topics|
    && forall i, release :: 0 <= i < |doc.topics| ==>
         (release in doc.marks[i] <==> MarkedOn(r.overrides, Place(doc.topics[i], release)))
  }

  ghost predicate RowOn(covers: seq<Cover>, i: int, topic: Topic) {
    0 <= i < |covers| && covers[i].topic == topic && covers[i].removed == None
  }

  lemma {:induction false} LiveMembers(covers: seq<Cover>)
    ensures forall c :: c in LiveCovers(covers) <==> c in covers && c.removed == None
  {
    if covers != [] {
      LiveMembers(covers[1..]);
      assert covers == [covers[0]] + covers[1..];
    }
  }

  ghost predicate TopicsApart(covers: seq<Cover>) {
    forall i, j :: 0 <= i < j < |covers| ==> covers[i].topic != covers[j].topic
  }

  lemma {:induction false} LiveApart(covers: seq<Cover>)
    requires TopicsApart(covers)
    ensures TopicsApart(LiveCovers(covers))
  {
    if covers != [] {
      LiveApart(covers[1..]);
      LiveMembers(covers[1..]);
      var rest := LiveCovers(covers[1..]);
      forall c | c in rest ensures c.topic != covers[0].topic {
        var i :| 0 <= i < |covers[1..]| && covers[1..][i] == c;
        assert covers[i + 1] == c;
      }
      if covers[0].removed.None? {
        var live := LiveCovers(covers);
        assert live == [covers[0]] + rest;
        forall i, j | 0 <= i < j < |live| ensures live[i].topic != live[j].topic {
          assert live[j] == rest[j - 1] && rest[j - 1] in rest;
          if i > 0 {
            assert live[i] == rest[i - 1];
            assert rest[i - 1].topic != rest[j - 1].topic;
          }
        }
      }
    }
  }

  lemma SortedLive(covers: seq<Cover>)
    requires TopicsApart(covers)
    ensures var live := Sort(LiveCovers(covers), ByAdded());
            && (forall c :: c in live <==> c in covers && c.removed == None)
            && TopicsApart(live) && forall i, j :: 0 <= i < j < |live| ==> live[i].added.at <= live[j].added.at
  {
    var live, sorted := LiveCovers(covers), Sort(LiveCovers(covers), ByAdded());
    hide LiveCovers;
    LiveMembers(covers);
    LiveApart(covers);
    forall i, j | 0 <= i < j < |live| ensures live[i] != live[j] { assert live[i].topic != live[j].topic; }
    SortFacts(live, sorted, ByAdded());
    forall i, j | 0 <= i < j < |sorted| ensures sorted[i].topic != sorted[j].topic && sorted[i].added.at <= sorted[j].added.at {
      assert ByAdded()(sorted[i], sorted[j]);
      assert sorted[i] in sorted && sorted[j] in sorted;
      var k :| 0 <= k < |live| && live[k] == sorted[i];
      var l :| 0 <= l < |live| && live[l] == sorted[j];
      assert k != l;
      if k < l { assert live[k].topic != live[l].topic; } else { assert live[l].topic != live[k].topic; }
    }
  }

  /** The issues listed are those on it, each once, in the order they were put on. */
  lemma TopicsMean(covers: seq<Cover>)
    requires TopicsApart(covers)
    ensures var topics := TopicsOf(covers);
            && Distinct(topics) && (forall t :: t in topics <==> OnIt(covers, t))
            && forall i, j, a, b :: 0 <= i < j < |topics| && RowOn(covers, a, topics[i]) && RowOn(covers, b, topics[j]) ==>
                 covers[a].added.at <= covers[b].added.at
  {
    hide LiveCovers, Sort;
    var live, topics := Sort(LiveCovers(covers), ByAdded()), TopicsOf(covers);
    SortedLive(covers);
    assert forall i :: 0 <= i < |topics| ==> topics[i] == live[i].topic;
    forall t ensures t in topics <==> OnIt(covers, t) {
      ListedIsOn(covers, live, topics, t);
    }
    forall i, a | 0 <= i < |topics| && RowOn(covers, a, topics[i]) ensures covers[a] == live[i] {
      OneRowOn(covers, live, i, a);
    }
  }

  lemma ListedIsOn(covers: seq<Cover>, live: seq<Cover>, topics: seq<Topic>, t: Topic)
    requires forall c :: c in live <==> c in covers && c.removed == None
    requires |topics| == |live| && forall i :: 0 <= i < |topics| ==> topics[i] == live[i].topic
    ensures t in topics <==> OnIt(covers, t)
  {
    if t in topics {
      var i :| 0 <= i < |topics| && topics[i] == t;
      assert live[i] in live;
      var k :| 0 <= k < |covers| && covers[k] == live[i];
      assert covers[k].topic == t && covers[k].removed == None;
    }
    if OnIt(covers, t) {
      var k :| 0 <= k < |covers| && covers[k].topic == t && covers[k].removed == None;
      assert covers[k] in live;
      var i :| 0 <= i < |live| && live[i] == covers[k];
      assert topics[i] == t;
    }
  }

  lemma OneRowOn(covers: seq<Cover>, live: seq<Cover>, i: nat, a: nat)
    requires TopicsApart(covers)
    requires i < |live| && live[i] in covers && RowOn(covers, a, live[i].topic)
    ensures covers[a] == live[i]
  {
    var k :| 0 <= k < |covers| && covers[k] == live[i];
    assert k == a;
  }

  lemma MarksMean(overrides: seq<Override>, topic: Topic)
    ensures forall release :: release in MarksOn(overrides, topic) <==> MarkedOn(overrides, Place(topic, release))
  {
    forall release ensures release in MarksOn(overrides, topic) <==> MarkedOn(overrides, Place(topic, release)) {
      if release in MarksOn(overrides, topic) {
        var i :| 0 <= i < |overrides| && overrides[i].place.topic == topic && overrides[i].removed.None?
              && overrides[i].place.release == release;
        assert overrides[i].place == Place(topic, release) && overrides[i].removed == None;
      }
      if MarkedOn(overrides, Place(topic, release)) {
        var i :| 0 <= i < |overrides| && overrides[i].place == Place(topic, release) && overrides[i].removed == None;
      }
    }
  }

  lemma ShownIsSaid(doc: Document, r: Record)
    requires EditionsSound(r) && OneRowEach(r)
    ensures Shows(doc, r) ==> Says(doc, r)
  {
    hide TopicsOf, MarksOn, TitleOf;
    RowsTell(r);
    TopicsMean(r.covers);
    forall topic ensures forall release :: release in MarksOn(r.overrides, topic) <==> MarkedOn(r.overrides, Place(topic, release)) {
      MarksMean(r.overrides, topic);
    }
  }

  lemma NothingOutAtFirst(who: nat, title: string, now: int, events: seq<Event>)
    ensures At(who, title, now, events, 0).issuances == []
  {}

  lemma SameShows(doc: Document, r: Record, r': Record)
    requires SaysTheSame(r, r')
    ensures Shows(doc, r) <==> Shows(doc, r')
  {}

  lemma {:induction false} IssuedDocumentsShow(who: nat, title: string, now: int, events: seq<Event>, i: nat, j: nat, k: nat)
    requires i <= |events| && j <= |events|
    requires k < |At(who, title, now, events, j).issuances|
    requires At(who, title, now, events, i).editionID == Some(At(who, title, now, events, j).issuances[k].edition)
    ensures Shows(At(who, title, now, events, j).issuances[k].document, At(who, title, now, events, i))
    decreases j
  {
    hide At, Shows;
    var r, r' := At(who, title, now, events, i), At(who, title, now, events, j);
    AtOnePoint(who, title, now, events, i);
    AtOnePoint(who, title, now, events, j);
    NothingOutAtFirst(who, title, now, events);
    if j > 0 {
      FromPointToPoint(who, title, now, events, j - 1);
      var before := At(who, title, now, events, j - 1);
      if k < |before.issuances| {
        assert before.issuances[k] == r'.issuances[k];
        IssuedDocumentsShow(who, title, now, events, i, j - 1, k);
      } else {
        assert r'.issuances[k].edition == |r'.editions|;
        if i <= j {
          EditionsSayOneThing(who, title, now, events, i, j);
        } else {
          EditionsSayOneThing(who, title, now, events, j, i);
        }
        SameShows(r'.issuances[k].document, r, r');
      }
    }
  }

  /** Issued documents are the agreed ones. At whatever point of a run the advisory was at the
      edition an issuance names, before or after it went out, the document that went out states
      exactly the title, the coverage and the marks the advisory had then, and covers something. */
  lemma IssuedDocumentsAreTheAgreedOnes(who: nat, title: string, now: int, events: seq<Event>, i: nat, j: nat, k: nat)
    requires i <= |events| && j <= |events|
    requires k < |At(who, title, now, events, j).issuances|
    requires At(who, title, now, events, i).editionID == Some(At(who, title, now, events, j).issuances[k].edition)
    ensures Says(At(who, title, now, events, j).issuances[k].document, At(who, title, now, events, i))
  {
    IssuedDocumentsShow(who, title, now, events, i, j, k);
    EveryRunIsSafe(who, title, now, events[..i]);
    ShownIsSaid(At(who, title, now, events, j).issuances[k].document, At(who, title, now, events, i));
  }
}
