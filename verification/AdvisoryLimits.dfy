/** What agreeing and issuing do not promise, each with a run that shows it and the exact condition
    under which the promise holds. */
module AdvisoryLimits {
  import opened Common
  import opened Sorting
  import opened Advisories
  import opened AdvisorySafety
  import opened AdvisoryRuns

  // ----- An advisory somebody is asked to agree to -----

  const TOPIC := Topic(1, 1)

  const KNOWN: map<Topic, int> := map[TOPIC := 5]

  /** Minted by 1, covering one issue recorded at 5 and added at 10, agreed to by 2 at 20. */
  function AgreedTo(): Record {
    Record(1, Some(2), None, [Edition(1, "t", Act(1, 0)), Edition(2, "t", Act(1, 10))],
           [Approval(2, Act(2, 20), None)], [Cover(TOPIC, Act(1, 10), None)], [], [])
  }

  /** Covering one issue, with 2 asked whether to agree. */
  lemma AskedIsReachable()
    ensures Reachable(World(AgreedTo().(approvals := []), 20, map[], map[8 := 2], KNOWN))
  {
    hide Reachable;
    var w0, r1 := Start(1, "t", 0), AgreedTo().(approvals := []);
    var entered, w1 := World(w0.record, 10, map[], map[], KNOWN), World(r1, 10, map[], map[], KNOWN);
    StartIsReachable(1, "t", 0);
    assert map[][TOPIC := 5] == KNOWN;
    assert After(w0, Event(10, Enter(TOPIC, 5))) == entered;
    StepIsReachable(w0, Event(10, Enter(TOPIC, 5)));
    assert RowOf([], TOPIC) == 0;
    assert After(entered, Event(0, Add(1, TOPIC))) == w1;
    StepIsReachable(entered, Event(0, Add(1, TOPIC)));
    OnlyTopic(r1.covers);
    assert After(w1, Event(10, Ask(8, 2))) == World(r1, 20, map[], map[8 := 2], KNOWN);
    StepIsReachable(w1, Event(10, Ask(8, 2)));
  }

  lemma AgreeingByTwo()
    ensures Approved(AgreedTo().(approvals := []), 2, 20) == Ok(AgreedTo())
  {
    var r := AgreedTo().(approvals := []);
    AgreeingMeans(r, 2, 20);
    assert r.approvals + [Approval(2, Act(2, 20), None)] == AgreedTo().approvals;
  }

  lemma MarksAreRead(row: Row, r: Record, agreed: bool)
    requires r.overrides == []
    ensures NextRead(Drafting(row, [TOPIC], [], agreed, 20, [], None), r, KNOWN, 20) ==
      Some(Drafting(row, [TOPIC], [], agreed, 20, [{}], Some(5)))
  {
    var none: seq<set<Release>> := [];
    var marks := MarksOn(r.overrides, TOPIC);
    assert forall x :: x !in marks;
    assert marks == {};
    assert none + [marks] == [{}];
  }

  // ----- The status a document went out with -----

  ghost predicate LeavesAlone(events: seq<Event>, id: nat) {
    forall i :: 0 <= i < |events| ==>
      !(events[i].step.Begin? && events[i].step.id == id) && !(events[i].step.Issue? && events[i].step.id == id)
  }

  lemma {:induction false} AgreementIsReadOnce(w: World, events: seq<Event>, id: nat)
    requires id in w.issuing && w.issuing[id].Drafting? && LeavesAlone(events, id)
    ensures var w' := Run(w, events);
            id in w'.issuing ==>
              && w'.issuing[id].Drafting? && w'.issuing[id].agreed == w.issuing[id].agreed
              && w'.issuing[id].gone == w.issuing[id].gone
  {
    hide RecordAfter;
    if events != [] {
      var n := |events| - 1;
      AgreementIsReadOnce(w, events[..n], id);
    }
  }

  lemma StatusIsAsRead(w: World, id: nat, now: int)
    requires id in w.issuing ==> w.issuing[id].Drafting?
    requires RecordAfter(w, Issue(id), now).issuances != w.record.issuances
    ensures var gone := RecordAfter(w, Issue(id), now).issuances;
            id in w.issuing && gone != [] && gone[|gone| - 1].document.status ==
              if w.issuing[id].agreed then Final else if w.issuing[id].gone != [] then Interim else Draft
  {
    var r' := RecordAfter(w, Issue(id), now);
    assert r'.issuances[|r'.issuances| - 1].document.status == Assembly(w.issuing[id]).status;
  }

  lemma AgreedIs(approvals: seq<Approval>, edition: nat)
    ensures Agreed(approvals, edition) <==>
      exists i :: 0 <= i < |approvals| && approvals[i].edition == edition && approvals[i].withdrawn == None
  {
    if i :| 0 <= i < |approvals| && approvals[i].edition == edition && approvals[i].withdrawn == None {
      assert Stands(approvals[i], edition);
    }
    if Agreed(approvals, edition) {
      var i :| 0 <= i < |approvals| && Stands(approvals[i], edition);
      assert approvals[i].edition == edition && approvals[i].withdrawn == None;
    }
  }

  /** Nothing here is a step of this call. */
  ghost predicate HandsOff(events: seq<Event>, id: nat) {
    LeavesAlone(events, id) && forall i :: 0 <= i < |events| ==> !(events[i].step.Read? && events[i].step.id == id)
  }

  lemma {:induction false} CallWaits(w: World, events: seq<Event>, id: nat)
    requires id in w.issuing && HandsOff(events, id)
    ensures id in Run(w, events).issuing && Run(w, events).issuing[id] == w.issuing[id]
  {
    hide RecordAfter;
    if events != [] {
      CallWaits(w, events[..|events| - 1], id);
    }
  }

  ghost predicate StandsOn(r: Record, edition: nat) {
    exists i :: 0 <= i < |r.approvals| && r.approvals[i].edition == edition && r.approvals[i].withdrawn == None
  }

  /** Whatever anybody does in between: the document recorded as gone out says final exactly when an
      agreement stood on its edition at the moment the call read the agreements; else interim where
      something had gone out at the moment the call counted what had, and draft where nothing had. */
  lemma GoesOutFinalExactlyWhen(w: World, id: nat, tick: nat, between: seq<Event>, tack: nat, events: seq<Event>, tock: nat)
    requires id in w.issuing && w.issuing[id].Scoped? && HandsOff(between, id) && LeavesAlone(events, id)
    requires w.issuing[id].row.editionID.Some?
    requires var w1 := Run(After(w, Event(tick, Read(id))), between);
             var w2 := Run(After(w1, Event(tack, Read(id))), events);
             RecordAfter(w2, Issue(id), w2.clock + tock).issuances != w2.record.issuances
    ensures var w1 := Run(After(w, Event(tick, Read(id))), between);
            var w2 := Run(After(w1, Event(tack, Read(id))), events);
            var gone := RecordAfter(w2, Issue(id), w2.clock + tock).issuances;
            gone != [] && gone[|gone| - 1].document.status ==
              if StandsOn(w1.record, w.issuing[id].row.editionID.value) then Final
              else if w.record.issuances != [] then Interim else Draft
  {
    hide RecordAfter, Run, StandsOn;
    var counted := After(w, Event(tick, Read(id)));
    assert counted.issuing[id] == Counted(w.issuing[id].row, w.issuing[id].topics, w.record.issuances);
    CallWaits(counted, between, id);
    var w1 := Run(counted, between);
    GoesOutAsCounted(w1, id, tack, events, tock);
  }

  lemma GoesOutAsCounted(w: World, id: nat, tick: nat, events: seq<Event>, tock: nat)
    requires id in w.issuing && w.issuing[id].Counted? && LeavesAlone(events, id)
    requires w.issuing[id].row.editionID.Some?
    requires var w2 := Run(After(w, Event(tick, Read(id))), events);
             RecordAfter(w2, Issue(id), w2.clock + tock).issuances != w2.record.issuances
    ensures var w2 := Run(After(w, Event(tick, Read(id))), events);
            var gone := RecordAfter(w2, Issue(id), w2.clock + tock).issuances;
            var edition := w.issuing[id].row.editionID.value;
            gone != [] && gone[|gone| - 1].document.status ==
              if StandsOn(w.record, edition) then Final
              else if w.issuing[id].gone != [] then Interim else Draft
  {
    hide RecordAfter;
    var w1 := After(w, Event(tick, Read(id)));
    var w2 := Run(w1, events);
    assert w1.issuing[id].Drafting?;
    AgreedIs(w.record.approvals, w.issuing[id].row.editionID.value);
    assert w1.issuing[id].agreed == Agreed(w.record.approvals, w.issuing[id].row.editionID.value);
    AgreementIsReadOnce(w1, events, id);
    StatusIsAsRead(w2, id, w2.clock + tock);
  }

  /** An agreement given after a call read the agreements lets its document go out, and the document
      that goes out still says it is a draft. */
  lemma DraftsGoOut()
    ensures exists w :: Reachable(w) && |w.record.issuances| == 1 && w.record.issuances[0].document.status == Draft
  {
    hide Reachable;
    var early := Drafting(ROW, [TOPIC], [], false, 20, [{}], Some(5));
    var w := World(AgreedTo(), 20, map[5 := early], map[], KNOWN);
    DraftedBeforeAgreement();
    assert Stands(AgreedTo().approvals[0], 2);
    var r' := Settled(AgreedTo(), Issued(AgreedTo(), Assembly(early), Some(2), 3, "", 30));
    assert Assembly(early).status == Draft;
    IssueIsReachable(w, 5, 10, r');
  }

  const ROW := Row(3, "", Some(2), "t", None)

  /** Before 2 agrees: 2 asked, and 3's call issuing as far as it has read. */
  function Issuing(s: Session): World {
    World(AgreedTo().(approvals := []), 20, map[5 := s], map[8 := 2], KNOWN)
  }

  lemma CountedIsReachable()
    ensures Reachable(Issuing(Counted(ROW, [TOPIC], [])))
  {
    hide Reachable;
    var r := AgreedTo().(approvals := []);
    OnlyTopic(r.covers);
    AskedIsReachable();
    assert LookUp(r, 3, "") == Named(ROW);
    BeginIsReachable(World(r, 20, map[], map[8 := 2], KNOWN), 5, 3, "");
    assert map[][5 := Named(ROW)] == map[5 := Named(ROW)];
    ReadsOn(Named(ROW), Scoped(ROW, [TOPIC]));
    ReadsOn(Scoped(ROW, [TOPIC]), Counted(ROW, [TOPIC], []));
  }

  lemma ReadsOn(s: Session, next: Session)
    requires Reachable(Issuing(s)) && NextRead(s, AgreedTo().(approvals := []), KNOWN, 20) == Some(next)
    ensures Reachable(Issuing(next))
  {
    hide Reachable;
    ReadIsReachable(Issuing(s), 5, next);
    assert map[5 := s][5 := next] == map[5 := next];
  }

  lemma DraftedBeforeAgreement()
    ensures Reachable(World(AgreedTo(), 20, map[5 := Drafting(ROW, [TOPIC], [], false, 20, [{}], Some(5))], map[], KNOWN))
  {
    hide Reachable, Approved;
    var r, drafted := AgreedTo().(approvals := []), Drafting(ROW, [TOPIC], [], false, 20, [{}], Some(5));
    CountedIsReachable();
    ReadsOn(Counted(ROW, [TOPIC], []), Drafting(ROW, [TOPIC], [], false, 20, [], None));
    MarksAreRead(ROW, r, false);
    ReadsOn(Drafting(ROW, [TOPIC], [], false, 20, [], None), drafted);
    DraftedIsAgreedTo(drafted);
  }

  lemma DraftedIsAgreedTo(drafted: Session)
    requires Reachable(Issuing(drafted))
    ensures Reachable(World(AgreedTo(), 20, map[5 := drafted], map[], KNOWN))
  {
    hide Reachable, Approved, AgreedTo;
    AgreeingByTwo();
    AgreeIsReachable(Issuing(drafted), 8, 0, AgreedTo());
    assert map[8 := 2] - {8} == map[];
  }

  // ----- What an agreement can stand over -----

  ghost predicate CoversSomething(covers: seq<Cover>) {
    exists i :: 0 <= i < |covers| && covers[i].removed.None?
  }

  lemma {:induction false} TopicsAreTheLive(covers: seq<Cover>)
    ensures TopicsOf(covers) != [] <==> CoversSomething(covers)
  {
    SortPermutes(LiveCovers(covers), ByAdded());
    LiveIsSome(covers);
  }

  lemma {:induction false} LiveIsSome(covers: seq<Cover>)
    ensures LiveCovers(covers) != [] <==> CoversSomething(covers)
  {
    if covers != [] {
      LiveIsSome(covers[1..]);
      if covers[0].removed.Some? && CoversSomething(covers) {
        var i :| 0 <= i < |covers| && covers[i].removed.None?;
        assert covers[1..][i - 1].removed.None?;
      }
      if CoversSomething(covers[1..]) {
        var i :| 0 <= i < |covers[1..]| && covers[1..][i].removed.None?;
        assert covers[i + 1].removed.None?;
      }
    }
  }

  /** Whether the last that was said of an issue put it on; what names an unrecorded flaw says nothing. */
  function LastSaid(w: World, events: seq<Event>, topic: Topic): Option<bool>
    decreases |events|
  {
    if events == [] then None
    else
      var n := |events| - 1;
      var before := LastSaid(w, events[..n], topic);
      match events[n].step
      case Add(_, t) => if t == topic && t in Run(w, events[..n]).recordings then Some(true) else before
      case Drop(_, t) => if t == topic then Some(false) else before
      case _ => before
  }

  lemma TakingOffLeaves(before: seq<Cover>, after: seq<Cover>, topic: Topic, act: Act)
    requires |after| == |before| && forall i :: 0 <= i < |before| ==>
      after[i] == if before[i].topic == topic && before[i].removed == None
                  then Cover(topic, before[i].added, Some(act)) else before[i]
    ensures forall t :: OnIt(after, t) <==> t != topic && OnIt(before, t)
  {
    forall t ensures OnIt(after, t) <==> t != topic && OnIt(before, t) {
      if t != topic && OnIt(before, t) {
        var i :| 0 <= i < |before| && before[i].topic == t && before[i].removed == None;
        assert after[i].topic == t && after[i].removed == None;
      }
    }
  }

  lemma CoverageMoves(w: World, step: Step, now: int, topic: Topic)
    requires Sound(w.record, w.clock)
    ensures OnIt(RecordAfter(w, step, now).covers, topic) <==>
      match step
      case Add(_, t) => (t == topic && t in w.recordings) || OnIt(w.record.covers, topic)
      case Drop(_, t) => t != topic && OnIt(w.record.covers, topic)
      case _ => OnIt(w.record.covers, topic)
  {
    match step
    case Add(who, t) =>
      AddingMeans(w.record, who, t, now);
      if t in w.recordings && !OnIt(w.record.covers, t) {
        OnlyRowAdds(w.record.covers, Added(w.record, who, t, now).value.covers, Cover(t, Act(who, now), None));
      }
    case Drop(who, t) =>
      DroppingMeans(w.record, who, t, now);
      if OnIt(w.record.covers, t) { TakingOffLeaves(w.record.covers, Dropped(w.record, who, t, now).value.covers, t, Act(who, now)); }
    case _ =>
  }

  /** At the end of a run an issue is covered exactly when the last that was said put it on, or nothing
      was said of it and it was covered already. */
  lemma {:induction false} LastWordDecides(w: World, events: seq<Event>, topic: Topic)
    requires Safe(w)
    ensures var last := LastSaid(w, events, topic);
            OnIt(Run(w, events).record.covers, topic) <==>
              if last.Some? then last.value else OnIt(w.record.covers, topic)
    decreases |events|
  {
    hide RecordAfter, IssuingAfter, ApprovingAfter, RecordingsAfter, Covers;
    if events != [] {
      var n := |events| - 1;
      var before := Run(w, events[..n]);
      LastWordDecides(w, events[..n], topic);
      RunFromSafe(w, events[..n]);
      CoverageMoves(before, events[n].step, before.clock + events[n].tick, topic);
    }
  }

  /** Every issue covered to begin with was taken off last, and none other was put on last. */
  ghost predicate EmptiedBy(w: World, events: seq<Event>) {
    && (forall t :: OnIt(w.record.covers, t) ==> LastSaid(w, events, t) == Some(false))
    && (forall t :: !OnIt(w.record.covers, t) ==> LastSaid(w, events, t) != Some(true))
  }

  lemma NothingCovered(covers: seq<Cover>)
    ensures TopicsOf(covers) == [] <==> forall t :: !OnIt(covers, t)
  {
    TopicsAreTheLive(covers);
    if CoversSomething(covers) {
      var i :| 0 <= i < |covers| && covers[i].removed.None?;
      assert covers[i].topic == covers[i].topic && covers[i].removed == None;
      assert OnIt(covers, covers[i].topic);
    }
  }

  ghost predicate AgreedOverNothing(r: Record) {
    TopicsOf(r.covers) == [] && r.editionID.Some? && Agreed(r.approvals, r.editionID.value)
  }

  /** An agreement that lands lands over nothing exactly when, since the world in which its giver was
      asked, each issue covered then was taken off last and no other was put on last: what an approver
      is shown is read outside the transaction. */
  lemma AgreesOverNothingExactlyWhen(w: World, id: nat, who: nat, events: seq<Event>, tick: nat)
    requires Reachable(w) && id in Run(After(w, Event(0, Ask(id, who))), events).approving
    requires var w' := Run(After(w, Event(0, Ask(id, who))), events);
             Approved(w'.record, w'.approving[id], w'.clock + tick).Ok?
    ensures var asked := After(w, Event(0, Ask(id, who)));
            AgreedOverNothing(After(Run(asked, events), Event(tick, Agree(id))).record) <==> EmptiedBy(asked, events)
  {
    hide LastSaid, TopicsOf, Covers, Agreed, Sound, AllTrack, AllShow, Approved, Reachable;
    ReachableIsSafe(w);
    var asked := After(w, Event(0, Ask(id, who)));
    var w' := Run(asked, events);
    StepIsSafe(w, Event(0, Ask(id, who)));
    RunFromSafe(asked, events);
    LandingStands(w'.record, w'.approving[id], w'.clock + tick, w'.clock);
    NothingCovered(w'.record.covers);
    forall t
      ensures OnIt(w'.record.covers, t) <==>
        if LastSaid(asked, events, t).Some? then LastSaid(asked, events, t).value else OnIt(asked.record.covers, t)
    {
      LastWordDecides(asked, events, t);
    }
  }

  lemma LandingStands(r: Record, who: nat, now: int, clock: int)
    requires Sound(r, clock) && Approved(r, who, now).Ok?
    ensures var r' := Approved(r, who, now).value;
            r'.covers == r.covers && r'.editionID.Some? && Agreed(r'.approvals, r'.editionID.value)
  {
    AgreeingMeans(r, who, now);
    var r' := Approved(r, who, now).value;
    assert Stands(r'.approvals[|r.approvals|], r'.editionID.value);
  }

  /** In particular, where nothing is taken off in between. */
  lemma AgreesOverSomething(w: World, who: nat, events: seq<Event>)
    requires Reachable(w) && Unaskable(w.record, who).None?
    requires forall i :: 0 <= i < |events| ==> !events[i].step.Drop?
    ensures TopicsOf(Run(w, events).record.covers) != []
  {
    hide Reachable, Safe;
    ReachableIsSafe(w);
    NothingCovered(w.record.covers);
    NothingCovered(Run(w, events).record.covers);
    var t :| OnIt(w.record.covers, t);
    NoneTakenOff(w, events, t);
    LastWordDecides(w, events, t);
  }

  lemma {:induction false} NoneTakenOff(w: World, events: seq<Event>, topic: Topic)
    requires forall i :: 0 <= i < |events| ==> !events[i].step.Drop?
    ensures LastSaid(w, events, topic) != Some(false)
    decreases |events|
  {
    hide Run;
    if events != [] {
      NoneTakenOff(w, events[..|events| - 1], topic);
    }
  }

  /** What 1 took off at 30, after 2 was asked at 20. */
  function Emptied(): Record {
    AgreedTo().(editionID := Some(3), editions := AgreedTo().editions + [Edition(3, "t", Act(1, 30))],
                approvals := [], covers := [Cover(TOPIC, Act(1, 10), Some(Act(1, 30)))])
  }

  lemma DroppingEmpties()
    ensures Dropped(AgreedTo().(approvals := []), 1, TOPIC, 30) == Ok(Emptied())
  {
    var r := AgreedTo().(approvals := []);
    assert Covering(r.covers[0], TOPIC) && TakenOff(r.covers, TOPIC, Act(1, 30)) == Emptied().covers;
    HighestIsLast(r.editions, 0);
    EditionOfFinds(r.editions, 0, 2);
  }

  lemma EmptiedIsAgreedTo()
    ensures Approved(Emptied(), 2, 30).Ok? && AgreedOverNothing(Approved(Emptied(), 2, 30).value)
  {
    var r := Emptied();
    AgreeingMeans(r, 2, 30);
    assert Stands(Approved(r, 2, 30).value.approvals[0], 3);
    TopicsAreTheLive(r.covers);
  }

  lemma AgreementCanStandOverNothing()
    ensures exists w :: Reachable(w) && AgreedOverNothing(w.record)
  {
    hide Reachable, AgreedOverNothing, Approved, Dropped, Emptied;
    var w := World(AgreedTo().(approvals := []), 20, map[], map[8 := 2], KNOWN);
    AskedIsReachable();
    DroppingEmpties();
    var w1 := World(Emptied(), 30, map[], map[8 := 2], KNOWN);
    assert After(w, Event(10, Drop(1, TOPIC))) == w1;
    StepIsReachable(w, Event(10, Drop(1, TOPIC)));
    EmptiedIsAgreedTo();
    AgreeIsReachable(w1, 8, 0, Approved(Emptied(), 2, 30).value);
    assert Reachable(World(Approved(Emptied(), 2, 30).value, 30, map[], w1.approving - {8}, KNOWN));
  }

  // ----- Who counts as having written it -----

  ghost predicate CoverAuthorAgrees(r: Record) {
    exists i, j :: 0 <= i < |r.covers| && 0 <= j < |r.approvals| && r.editionID.Some?
      && r.covers[i].removed.None? && Stands(r.approvals[j], r.editionID.value)
      && r.covers[i].added.who == r.approvals[j].given.who
  }

  /** Covering what 2 put on at 10, and called "u" by 1 since 20. */
  function Renamed(): Record {
    Record(1, Some(3), None, [Edition(1, "t", Act(1, 0)), Edition(2, "t", Act(2, 10)), Edition(3, "u", Act(1, 20))],
           [], [Cover(TOPIC, Act(2, 10), None)], [], [])
  }

  lemma RenamedIsReachable()
    ensures Reachable(World(Renamed(), 20, map[], map[8 := 2], KNOWN))
  {
    hide Reachable;
    var w0 := Start(1, "t", 0);
    var r1 := Renamed().(editionID := Some(2), editions := Renamed().editions[..2]);
    var entered := World(w0.record, 10, map[], map[], KNOWN);
    var w1, w2 := World(r1, 10, map[], map[], KNOWN), World(Renamed(), 20, map[], map[], KNOWN);
    StartIsReachable(1, "t", 0);
    assert map[][TOPIC := 5] == KNOWN;
    assert After(w0, Event(10, Enter(TOPIC, 5))) == entered;
    StepIsReachable(w0, Event(10, Enter(TOPIC, 5)));
    assert RowOf([], TOPIC) == 0;
    assert After(entered, Event(0, Add(2, TOPIC))) == w1;
    StepIsReachable(entered, Event(0, Add(2, TOPIC)));
    HighestIsLast(r1.editions, 0);
    assert After(w1, Event(10, Retitle(1, "u"))) == w2;
    StepIsReachable(w1, Event(10, Retitle(1, "u")));
    OnlyTopic(Renamed().covers);
    assert After(w2, Event(0, Ask(8, 2))) == World(Renamed(), 20, map[], map[8 := 2], KNOWN);
    StepIsReachable(w2, Event(0, Ask(8, 2)));
  }

  lemma CoverAuthorIsLetAgree()
    ensures Approved(Renamed(), 2, 20).Ok? && CoverAuthorAgrees(Approved(Renamed(), 2, 20).value)
  {
    var r := Renamed();
    AgreeingMeans(r, 2, 20);
    assert !Author(r.editions, 3, 2) by {
      assert r.editions[..3] == r.editions;
      assert !Retained(r.editions, "u", 1) by { assert r.editions[1].title == "t"; }
    }
    var agreed := Approved(r, 2, 20).value;
    assert Stands(agreed.approvals[0], 3) && agreed.covers[0].added.who == agreed.approvals[0].given.who;
  }

  /** Whoever put on what the advisory covers may agree to it once somebody else has retitled it:
      only the editions back to the one that set the title are asked about. */
  lemma AuthorOfTheCoverageMayAgree()
    ensures exists w :: Reachable(w) && CoverAuthorAgrees(w.record)
  {
    hide Reachable, CoverAuthorAgrees, Approved, Renamed;
    RenamedIsReachable();
    CoverAuthorIsLetAgree();
    var w := World(Renamed(), 20, map[], map[8 := 2], KNOWN);
    AgreeIsReachable(w, 8, 0, Approved(Renamed(), 2, 20).value);
    assert Reachable(World(Approved(Renamed(), 2, 20).value, 20, map[], w.approving - {8}, KNOWN));
  }

  // ----- When whoever put on the coverage may agree -----

  ghost predicate WroteAt(editions: seq<Edition>, k: nat, act: Act) {
    k < |editions| && editions[k].written == act
  }

  ghost predicate IsWritten(editions: seq<Edition>, act: Act) {
    exists k: nat :: WroteAt(editions, k, act)
  }

  /** Whoever put a flaw on opened an edition in doing so. */
  ghost predicate CoversAreWritten(r: Record) {
    forall i :: 0 <= i < |r.covers| ==> IsWritten(r.editions, r.covers[i].added)
  }

  lemma WrittenStays(editions: seq<Edition>, more: seq<Edition>, act: Act)
    requires editions <= more && IsWritten(editions, act)
    ensures IsWritten(more, act)
  {
    var k: nat :| WroteAt(editions, k, act);
    assert WroteAt(more, k, act);
  }

  lemma AddingIsWritten(r: Record, who: nat, topic: Topic, now: int)
    requires EditionsSound(r) && CoversAreWritten(r) && Added(r, who, topic, now).Ok?
    ensures CoversAreWritten(Added(r, who, topic, now).value)
  {
    hide IsWritten;
    var r', act := Added(r, who, topic, now).value, Act(who, now);
    NewestIsWritten(r'.editions);
    forall i | 0 <= i < |r'.covers| ensures IsWritten(r'.editions, r'.covers[i].added) {
      if r'.covers[i].added != act { WrittenStays(r.editions, r'.editions, r.covers[i].added); }
    }
  }

  lemma NewestIsWritten(editions: seq<Edition>)
    requires editions != []
    ensures IsWritten(editions, editions[|editions| - 1].written)
  {
    assert WroteAt(editions, |editions| - 1, editions[|editions| - 1].written);
  }

  lemma StepKeepsWritten(w: World, step: Step, now: int)
    requires Sound(w.record, w.clock) && CoversAreWritten(w.record)
    ensures CoversAreWritten(RecordAfter(w, step, now))
  {
    var r, r' := w.record, RecordAfter(w, step, now);
    if step.Add? {
      if r' != r { AddingIsWritten(r, step.who, step.topic, now); }
    } else {
      hide RecordAfter, IsWritten;
      StepKeepsOrMoves(w, step, now);
      forall i | 0 <= i < |r'.covers| ensures IsWritten(r'.editions, r'.covers[i].added) {
        AddedStays(w, step, now, i);
        WrittenStays(r.editions, r'.editions, r.covers[i].added);
      }
    }
  }

  lemma AddedStays(w: World, step: Step, now: int, i: nat)
    requires !step.Add? && i < |RecordAfter(w, step, now).covers|
    ensures i < |w.record.covers| && RecordAfter(w, step, now).covers[i].added == w.record.covers[i].added
  {}

  lemma {:induction false} EveryRunIsWritten(who: nat, title: string, now: int, events: seq<Event>)
    ensures CoversAreWritten(Run(Start(who, title, now), events).record)
  {
    if events != [] {
      hide RecordAfter, CoversAreWritten;
      var n := |events| - 1;
      var before := Run(Start(who, title, now), events[..n]);
      EveryRunIsWritten(who, title, now, events[..n]);
      EveryRunIsSafe(who, title, now, events[..n]);
      StepKeepsWritten(before, events[n].step, before.clock + events[n].tick);
    }
  }

  /** The last edition somebody wrote. */
  ghost predicate LastWrote(editions: seq<Edition>, k: nat, who: nat) {
    && k < |editions| && editions[k].written.who == who
    && forall j :: k < j < |editions| ==> editions[j].written.who != who
  }

  lemma {:induction false} SomeLastWrote(editions: seq<Edition>, k: nat, who: nat) returns (last: nat)
    requires k < |editions| && editions[k].written.who == who
    ensures LastWrote(editions, last, who)
    decreases |editions| - k
  {
    if j :| k < j < |editions| && editions[j].written.who == who {
      last := SomeLastWrote(editions, j, who);
    } else {
      last := k;
    }
  }

  ghost predicate RetitledSince(editions: seq<Edition>, k: nat)
    requires k < |editions|
  {
    exists j :: k < j < |editions| && editions[j].title != editions[k].title
  }

  lemma AuthorUnlessRetitled(editions: seq<Edition>, k: nat, who: nat)
    requires LastWrote(editions, k, who)
    ensures Author(editions, |editions|, who) <==> !RetitledSince(editions, k)
  {
    var n := |editions|;
    var title := editions[n - 1].title;
    assert editions[..n] == editions;
    if Author(editions, n, who) {
      var i :| 0 <= i < n && editions[i].written.who == who && Retained(editions, title, i);
      assert i <= k;
      assert editions[k].title == title;
    }
    if !RetitledSince(editions, k) {
      assert Retained(editions, title, k);
    }
  }

  /** In every run: whoever put on something the advisory covers is let agree to it, asking included,
      exactly when it was retitled since the last edition they wrote, and they neither minted it nor
      agree already. */
  lemma CoverAuthorAgreesExactlyWhen(w: World, i: nat, now: int)
    requires Reachable(w) && i < |w.record.covers| && w.record.covers[i].removed.None?
    ensures var r, who := w.record, w.record.covers[i].added.who;
            exists k: nat :: LastWrote(r.editions, k, who)
              && (Unaskable(r, who).None? && Approved(r, who, now).Ok?
                  <==> RetitledSince(r.editions, k) && who != r.mintedBy && !AgreesTo(r.approvals, |r.editions|, who))
  {
    hide Reachable, Approved, Author, RetitledSince, AgreesTo;
    var r, who := w.record, w.record.covers[i].added.who;
    ReachableIsWritten(w);
    ReachableIsSafe(w);
    var j: nat :| WroteAt(r.editions, j, r.covers[i].added);
    var k := SomeLastWrote(r.editions, j, who);
    AgreeingMeans(r, who, now);
    AuthorUnlessRetitled(r.editions, k, who);
    TopicsAreTheLive(r.covers);
    assert CoversSomething(r.covers);
  }

  lemma ReachableIsWritten(w: World)
    requires Reachable(w)
    ensures CoversAreWritten(w.record)
  {
    var who, title, now, events :| w == Run(Start(who, title, now), events);
    EveryRunIsWritten(who, title, now, events);
  }
}
