/** Whether what an edition covered can be read back from when each issue was added and taken off, as
    the record of editions says it can (internal/advisory/editorial.go:46-49). Putting an issue back
    writes over when it was first added (entity.go:332-345), so it can exactly for the issues not put
    back since. */
module CoverageRecord {
  import opened Common
  import opened Advisories
  import opened AdvisorySafety
  import opened AdvisoryRuns
  import opened AdvisoryLimits

  /** What the rows say was covered at a moment. */
  ghost predicate RecordedAt(covers: seq<Cover>, topic: Topic, at: int) {
    exists i :: 0 <= i < |covers| && RowRecords(covers[i], topic, at)
  }

  ghost predicate RowRecords(c: Cover, topic: Topic, at: int) {
    c.topic == topic && c.added.at <= at && (c.removed.Some? ==> at < c.removed.value.at)
  }

  /** The issue was put on, or put back, after a moment. */
  ghost predicate PutOnSince(covers: seq<Cover>, topic: Topic, at: int) {
    exists i :: 0 <= i < |covers| && covers[i].topic == topic && covers[i].added.at > at
  }

  ghost predicate Dated(covers: seq<Cover>, clock: int) {
    forall i :: 0 <= i < |covers| ==>
      covers[i].added.at <= clock && (covers[i].removed.Some? ==> covers[i].removed.value.at <= clock)
  }

  /** A row as it was at a moment, and as it is since. */
  ghost predicate RowSince(was: Cover, now: Cover, at: int) {
    && now.topic == was.topic
    && (now.added.at <= at ==>
          && now.added == was.added
          && (was.removed.Some? ==> now.removed == was.removed)
          && (was.removed.None? && now.removed.Some? ==> now.removed.value.at > at))
  }

  ghost predicate RowsSince(was: seq<Cover>, now: seq<Cover>, at: int) {
    && |was| <= |now|
    && (forall k :: 0 <= k < |was| ==> RowSince(was[k], now[k], at))
    && (forall k :: |was| <= k < |now| ==> now[k].added.at > at)
  }

  lemma StepKeepsRows(w: World, step: Step, now: int, was: seq<Cover>, at: int)
    requires RowsSince(was, w.record.covers, at) && at < now
    ensures RowsSince(was, RecordAfter(w, step, now).covers, at)
  {}

  lemma StepKeepsDates(w: World, step: Step, now: int)
    requires Dated(w.record.covers, w.clock) && w.clock <= now
    ensures Dated(RecordAfter(w, step, now).covers, now)
  {}

  lemma StartIsDated(who: nat, title: string, now: int)
    ensures Dated(Start(who, title, now).record.covers, Start(who, title, now).clock)
  {}

  lemma {:induction false} EveryRunIsDated(who: nat, title: string, now: int, events: seq<Event>)
    ensures var w := Run(Start(who, title, now), events); Dated(w.record.covers, w.clock)
  {
    hide Dated, RecordAfter, IssuingAfter, ApprovingAfter, Start;
    if events == [] {
      StartIsDated(who, title, now);
    } else {
      var n := |events| - 1;
      EveryRunIsDated(who, title, now, events[..n]);
      var w := Run(Start(who, title, now), events[..n]);
      StepKeepsDates(w, events[n].step, w.clock + events[n].tick);
    }
  }

  /** What follows a moment: time has passed before the first of it. */
  ghost predicate MovesOn(events: seq<Event>) {
    events != [] ==> events[0].tick > 0
  }

  lemma RowsSinceNow(covers: seq<Cover>, at: int)
    ensures RowsSince(covers, covers, at)
  {}

  lemma {:induction false} RunKeepsRows(w: World, events: seq<Event>)
    requires MovesOn(events)
    ensures (if events == [] then w.clock == Run(w, events).clock else w.clock < Run(w, events).clock)
    ensures RowsSince(w.record.covers, Run(w, events).record.covers, w.clock)
  {
    hide RowsSince, RecordAfter, IssuingAfter, ApprovingAfter;
    if events == [] {
      RowsSinceNow(w.record.covers, w.clock);
    } else {
      var n := |events| - 1;
      RunKeepsRows(w, events[..n]);
      var before := Run(w, events[..n]);
      StepKeepsRows(before, events[n].step, before.clock + events[n].tick, w.record.covers, w.clock);
    }
  }

  /** However a run goes on from a moment, the rows say an issue was covered then exactly when it was,
      once everything done at that instant was done, and it has not been put back since. */
  lemma RowsRecoverExactlyWhen(who: nat, title: string, now: int, before: seq<Event>, since: seq<Event>, topic: Topic)
    requires MovesOn(since)
    ensures var w := Run(Start(who, title, now), before);
            var covers := Run(w, since).record.covers;
            RecordedAt(covers, topic, w.clock) <==> OnIt(w.record.covers, topic) && !PutOnSince(covers, topic, w.clock)
  {
    hide Run;
    var w := Run(Start(who, title, now), before);
    var was, covers, at := w.record.covers, Run(w, since).record.covers, w.clock;
    EveryRunIsDated(who, title, now, before);
    RowsApart(who, title, now, before, since);
    RunKeepsRows(w, since);
    RowsTell(was, covers, topic, at);
  }

  lemma RowsApart(who: nat, title: string, now: int, before: seq<Event>, since: seq<Event>)
    ensures var covers := Run(Run(Start(who, title, now), before), since).record.covers;
            forall i, j :: 0 <= i < j < |covers| ==> covers[i].topic != covers[j].topic
  {
    var w := Run(Start(who, title, now), before);
    EveryRunIsSafe(who, title, now, before);
    RunFromSafe(w, since);
  }

  lemma RowsTell(was: seq<Cover>, covers: seq<Cover>, topic: Topic, at: int)
    requires RowsSince(was, covers, at) && Dated(was, at)
    requires forall i, j :: 0 <= i < j < |covers| ==> covers[i].topic != covers[j].topic
    ensures RecordedAt(covers, topic, at) <==> OnIt(was, topic) && !PutOnSince(covers, topic, at)
  {
    if RecordedAt(covers, topic, at) {
      var i :| 0 <= i < |covers| && RowRecords(covers[i], topic, at);
      assert i < |was| && RowSince(was[i], covers[i], at);
      assert was[i].topic == topic && was[i].removed == None;
    }
    if OnIt(was, topic) && !PutOnSince(covers, topic, at) {
      var i :| 0 <= i < |was| && was[i].topic == topic && was[i].removed == None;
      assert RowSince(was[i], covers[i], at);
      assert RowRecords(covers[i], topic, at);
    }
  }

  // ----- The record alone does not say -----

  /** Two histories that leave the very same record, in one of which the second edition covered an
      issue and in the other nothing: no reading of the record tells them apart. */
  lemma TheRecordDoesNotSay()
    ensures var w := Entered();
            var once := [Event(10, Add(2, TOPIC)), Event(10, Drop(2, TOPIC)), Event(10, Add(2, TOPIC))];
            var never := [Event(10, Retitle(2, "t")), Event(10, Retitle(2, "t")), Event(10, Add(2, TOPIC))];
            && Run(w, once).record == Run(w, never).record
            && Run(w, once[..1]).record.editionID == Run(w, never[..1]).record.editionID == Some(2)
            && OnIt(Run(w, once[..1]).record.covers, TOPIC)
            && !OnIt(Run(w, never[..1]).record.covers, TOPIC)
  {
    hide After, Run, Entered, RecordAfter, IssuingAfter, ApprovingAfter, RecordingsAfter;
    var w := Entered();
    var once := [Event(10, Add(2, TOPIC)), Event(10, Drop(2, TOPIC)), Event(10, Add(2, TOPIC))];
    var never := [Event(10, Retitle(2, "t")), Event(10, Retitle(2, "t")), Event(10, Add(2, TOPIC))];
    OnAndOff();
    NeverOn();
    ThreeEvents(w, once[0], once[1], once[2]);
    ThreeEvents(w, never[0], never[1], never[2]);
    assert Live(10)[0].topic == TOPIC && Live(10)[0].removed == None;
  }

  lemma ThreeEvents(w: World, e0: Event, e1: Event, e2: Event)
    ensures Run(w, [e0, e1, e2][..1]) == After(w, e0)
    ensures Run(w, [e0, e1, e2]) == After(After(After(w, e0), e1), e2)
  {
    hide After;
    assert [e0, e1, e2][..1] == [e0] && [e0, e1, e2][..2] == [e0, e1] && [e0, e1][..1] == [e0] && [e0][..0] == [];
  }

  /** Just minted by 1, one flaw recorded. */
  function Entered(): World {
    After(Start(1, "t", 0), Event(0, Enter(TOPIC, 0)))
  }

  function Live(at: int): seq<Cover> {
    [Cover(TOPIC, Act(2, at), None)]
  }

  /** The record after n edits by 2, each leaving the title alone. */
  function Edits(covers: seq<Cover>, n: nat): Record
    requires n <= 3
  {
    Record(1, Some(n + 1), None,
           [Edition(1, "t", Act(1, 0)), Edition(2, "t", Act(2, 10)), Edition(3, "t", Act(2, 20)),
            Edition(4, "t", Act(2, 30))][..n + 1], [], covers, [], [])
  }

  lemma EditOpens(covers: seq<Cover>, n: nat)
    requires n < 3
    ensures OpenEdition(Edits(covers, n), 2, "t", 10 * n + 10) == Edits(covers, n + 1)
    ensures Reopen(Edits(covers, n), 2, 10 * n + 10) == Edits(covers, n + 1)
  {
    var r := Edits(covers, n);
    HighestIsLast(r.editions, 0);
    EditionOfFinds(r.editions, 0, n + 1);
    assert OpenEdition(r, 2, "t", 10 * n + 10).editions == Edits(covers, n + 1).editions;
  }

  lemma StartHasNoEdits()
    ensures Entered() == World(Edits([], 0), 0, map[], map[], map[TOPIC := 0])
  {
    var w := Start(1, "t", 0);
    StartIsEdits();
    assert w.recordings[TOPIC := 0] == map[TOPIC := 0];
    assert RecordAfter(w, Enter(TOPIC, 0), 0) == w.record;
  }

  lemma StartIsEdits()
    ensures Start(1, "t", 0).record == Edits([], 0)
  {
    assert Start(1, "t", 0).record.editions == Edits([], 0).editions;
  }

  lemma OnAndOff()
    ensures var w1 := After(Entered(), Event(10, Add(2, TOPIC)));
            var w2 := After(w1, Event(10, Drop(2, TOPIC)));
            w1.record == Edits(Live(10), 1) && After(w2, Event(10, Add(2, TOPIC))).record == Edits(Live(30), 3)
  {
    StartHasNoEdits();
    var off := [Cover(TOPIC, Act(2, 10), Some(Act(2, 20)))];
    assert RowOf([], TOPIC) == 0;
    assert [] + Live(10) == Live(10);
    EditOpens(Live(10), 0);
    assert Covering(Live(10)[0], TOPIC) && TakenOff(Live(10), TOPIC, Act(2, 20)) == off;
    EditOpens(off, 1);
    assert off[0 := Live(30)[0]] == Live(30);
    EditOpens(Live(30), 2);
  }

  lemma NeverOn()
    ensures var w1 := After(Entered(), Event(10, Retitle(2, "t")));
            var w2 := After(w1, Event(10, Retitle(2, "t")));
            w1.record == Edits([], 1) && After(w2, Event(10, Add(2, TOPIC))).record == Edits(Live(30), 3)
  {
    hide OpenEdition, Reopen, Entered;
    StartHasNoEdits();
    EditOpens([], 0);
    EditOpens([], 1);
    assert RowOf([], TOPIC) == 0;
    assert [] + Live(30) == Live(30);
    EditOpens(Live(30), 2);
  }
}
