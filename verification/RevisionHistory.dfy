/** The revision history a document states about itself, over every run (issuance.go:181-212 and
    423-485; sections 6.1.14, 6.1.16, 6.1.21 and 6.1.22 of CSAF 2.0). */
module RevisionHistory {
  import opened Common
  import opened Advisories
  import opened AdvisorySafety
  import opened AdvisoryRuns

  ghost predicate NumberedFromOne(history: seq<Revision>) {
    forall i :: 0 <= i < |history| ==> history[i].number == i + 1
  }

  ghost predicate DatesDoNotDecrease(history: seq<Revision>) {
    forall i, j :: 0 <= i < j < |history| ==> history[i].date <= history[j].date
  }

  ghost predicate LastIsVersion(doc: Document) {
    doc.history != [] && doc.history[|doc.history| - 1].number == doc.version
  }

  // ----- A document in hand -----

  /** A document generated before it goes out: numbers run 1, 2, 3 with no gap or repeat, the version
      is the last of them, and it is past everything that has gone out. It opens with its recording,
      lists what went out, and where something has, ends with itself, generated now. */
  lemma GeneratedHistory(s: Session)
    requires Assembled(s) && forall i :: 0 <= i < |s.gone| ==> s.gone[i].ordinal == i + 1
    ensures var doc := Assembly(s);
            && NumberedFromOne(doc.history) && LastIsVersion(doc)
            && doc.version == (if s.gone == [] then 1 else |s.gone| + 2)
            && doc.currentRelease == s.at && doc.history[0] == Revision(1, doc.initialRelease, "Recorded in OpenPSIRT")
            && |doc.history| == (if s.gone == [] then 1 else |s.gone| + 2)
            && (forall j :: 0 <= j < |s.gone| ==> EntryOf(doc.history[j + 1], s.gone[j], j + 1))
            && (s.gone != [] ==>
                  doc.history[|s.gone| + 1] == Revision(|s.gone| + 2, s.at, "Generated, not yet issued"))
  {
    var history := Revisions(InitialRelease(s), s.gone, s.at);
    forall i | 0 <= i < |history| ensures history[i].number == i + 1 {
      if 0 < i <= |s.gone| { assert history[i] == RevisionOf(s.gone[i - 1]); }
    }
    forall j | 0 <= j < |s.gone| ensures EntryOf(history[j + 1], s.gone[j], j + 1) {
      assert history[j + 1] == RevisionOf(s.gone[j]);
    }
  }

  // ----- What went out -----

  /** The history a document went out with: the recording, and every issuance up to its own. */
  ghost predicate HistoryIsTheRecord(gone: seq<Issuance>, k: nat)
    requires k < |gone|
  {
    var doc := gone[k].document;
    && gone[k].ordinal == k + 1
    && doc.version == k + 2 && doc.currentRelease == gone[k].issued.at
    && doc.history == History(doc.initialRelease, gone[..k + 1])
  }

  ghost predicate HistoriesAreTheRecord(gone: seq<Issuance>) {
    forall k :: 0 <= k < |gone| ==> HistoryIsTheRecord(gone, k)
  }

  lemma OneMoreGone(gone: seq<Issuance>, one: Issuance, doc: Document, now: int)
    requires HistoriesAreTheRecord(gone)
    requires one.ordinal == |gone| + 1 && one.issued.at == now
    requires one.document == IssuedDocument(doc, gone, one.ordinal, now, one.summary)
    ensures HistoriesAreTheRecord(gone + [one])
  {
    var more := gone + [one];
    forall k | 0 <= k < |more| ensures HistoryIsTheRecord(more, k) {
      if k < |gone| {
        assert HistoryIsTheRecord(gone, k);
        assert more[..k + 1] == gone[..k + 1];
      } else {
        assert more[..k + 1] == more;
        var history, whole := one.document.history, History(doc.initialRelease, more);
        forall i | 0 <= i < |whole| ensures history[i] == whole[i] {
          if 0 < i <= |gone| { assert whole[i] == RevisionOf(more[i - 1]) == RevisionOf(gone[i - 1]); }
        }
        assert history == whole;
      }
    }
  }

  lemma IssuancesAreNumbered(who: nat, title: string, now: int, events: seq<Event>)
    ensures var gone := Run(Start(who, title, now), events).record.issuances;
            forall i :: 0 <= i < |gone| ==> gone[i].ordinal == i + 1
  {
    EveryRunIsSafe(who, title, now, events);
  }

  lemma NothingGoneYet(who: nat, title: string, now: int)
    ensures HistoriesAreTheRecord(Start(who, title, now).record.issuances)
  {}

  lemma {:induction false} EveryRunKeepsHistory(who: nat, title: string, now: int, events: seq<Event>)
    ensures HistoriesAreTheRecord(Run(Start(who, title, now), events).record.issuances)
  {
    hide HistoriesAreTheRecord, RecordAfter, IssuingAfter, ApprovingAfter, Start;
    if events == [] {
      NothingGoneYet(who, title, now);
    } else {
      var n := |events| - 1;
      EveryRunKeepsHistory(who, title, now, events[..n]);
      IssuancesAreNumbered(who, title, now, events[..n]);
      var w := Run(Start(who, title, now), events[..n]);
      StepKeepsHistory(w, events[n].step, w.clock + events[n].tick);
    }
  }

  lemma StepKeepsHistory(w: World, step: Step, now: int)
    requires HistoriesAreTheRecord(w.record.issuances)
    requires forall i :: 0 <= i < |w.record.issuances| ==> w.record.issuances[i].ordinal == i + 1
    ensures HistoriesAreTheRecord(RecordAfter(w, step, now).issuances)
  {
    var r, r' := w.record, RecordAfter(w, step, now);
    if step.Issue? && r' != r {
      var s, one := w.issuing[step.id], r'.issuances[|r.issuances|];
      assert r'.issuances == r.issuances + [one];
      OneMoreGone(r.issuances, one, Assembly(s), now);
    }
  }

  /** Whatever order people issue in: every issued document numbers its revisions 1, 2, 3 with no gap
      or repeat, and states the last of them as its version, one past how many went out before. */
  lemma IssuedHistoriesAreNumbered(who: nat, title: string, now: int, events: seq<Event>, k: nat)
    requires k < |Run(Start(who, title, now), events).record.issuances|
    ensures var doc := Run(Start(who, title, now), events).record.issuances[k].document;
            NumberedFromOne(doc.history) && LastIsVersion(doc) && doc.version == k + 2
  {
    EveryRunKeepsHistory(who, title, now, events);
    var gone := Run(Start(who, title, now), events).record.issuances;
    var history := gone[k].document.history;
    assert HistoryIsTheRecord(gone, k);
    forall i | 0 <= i < |history| ensures history[i].number == i + 1 {
      if i > 0 {
        assert history[i] == RevisionOf(gone[..k + 1][i - 1]);
        assert HistoryIsTheRecord(gone, i - 1);
      }
    }
  }

  /** What an issued document says of itself, in any run: it was released when it went out; it opens with
      its recording; and it lists what went out up to itself, each by its number, its moment and what was
      said of it, its own last. */
  lemma IssuedDocumentsTell(who: nat, title: string, now: int, events: seq<Event>, k: nat)
    requires k < |Run(Start(who, title, now), events).record.issuances|
    ensures var gone := Run(Start(who, title, now), events).record.issuances;
            var doc := gone[k].document;
            && doc.currentRelease == gone[k].issued.at && |doc.history| == k + 2
            && doc.history[0] == Revision(1, doc.initialRelease, "Recorded in OpenPSIRT")
            && (forall j :: 0 <= j <= k ==> EntryOf(doc.history[j + 1], gone[j], j + 1))
            && doc.history[k + 1].date == doc.currentRelease
  {
    hide Run, Start;
    EveryRunKeepsHistory(who, title, now, events);
    var gone := Run(Start(who, title, now), events).record.issuances;
    assert HistoryIsTheRecord(gone, k);
    forall j | 0 <= j <= k ensures EntryOf(gone[k].document.history[j + 1], gone[j], j + 1) {
      assert gone[k].document.history[j + 1] == RevisionOf(gone[..k + 1][j]);
      assert HistoryIsTheRecord(gone, j);
    }
  }

  /** The dates an issued document lists run forwards exactly when the date it opens with is no later
      than the first time the advisory went out. */
  lemma DatesRunForwardsExactlyWhen(r: Record, clock: int, k: nat)
    requires Sound(r, clock) && HistoriesAreTheRecord(r.issuances) && k < |r.issuances|
    ensures var doc := r.issuances[k].document;
            DatesDoNotDecrease(doc.history) <==> doc.initialRelease <= r.issuances[0].issued.at
  {
    var gone, doc := r.issuances, r.issuances[k].document;
    var upto := gone[..k + 1];
    assert HistoryIsTheRecord(gone, k);
    assert doc.history[1] == RevisionOf(upto[0]);
    forall i | 0 < i < |doc.history| ensures doc.history[i].date == gone[i - 1].issued.at {
      assert doc.history[i] == RevisionOf(upto[i - 1]);
    }
  }

  /** One issued document's history extends the one before it by exactly its own entry, exactly when
      both open with the same date. */
  lemma ExtendsExactlyWhen(gone: seq<Issuance>, k: nat)
    requires HistoriesAreTheRecord(gone) && k + 1 < |gone|
    ensures var before, after := gone[k].document, gone[k + 1].document;
            after.history == before.history + [RevisionOf(gone[k + 1])]
            <==> after.initialRelease == before.initialRelease
  {
    assert HistoryIsTheRecord(gone, k) && HistoryIsTheRecord(gone, k + 1);
    var before, after := gone[k].document, gone[k + 1].document;
    var longer := before.history + [RevisionOf(gone[k + 1])];
    assert after.history[0].date == after.initialRelease && longer[0].date == before.initialRelease;
    if after.initialRelease == before.initialRelease {
      forall i | 0 <= i < |longer| ensures after.history[i] == longer[i] {
        if i > 0 { assert after.history[i] == RevisionOf(gone[..k + 2][i - 1]); }
        if 0 < i <= k + 1 { assert before.history[i] == RevisionOf(gone[..k + 1][i - 1]); }
      }
      assert after.history == longer;
    }
  }

  // ----- The date a document opens with -----

  /** The earliest recording among some flaws. */
  function EarliestOf(recordings: map<Topic, int>, topics: seq<Topic>): Option<int>
    decreases |topics|
  {
    if topics == [] then None
    else
      var n := |topics| - 1;
      var before := EarliestOf(recordings, topics[..n]);
      if topics[n] in recordings then Earliest(before, recordings[topics[n]]) else before
  }

  /** One of the moments some flaws were recorded at, and no later than any of them. */
  ghost predicate EarliestAmong(recordings: map<Topic, int>, topics: seq<Topic>, date: int) {
    && (exists i :: 0 <= i < |topics| && topics[i] in recordings && recordings[topics[i]] == date)
    && forall i :: 0 <= i < |topics| && topics[i] in recordings ==> date <= recordings[topics[i]]
  }

  lemma {:induction false} EarliestMeans(recordings: map<Topic, int>, topics: seq<Topic>)
    ensures var date := EarliestOf(recordings, topics);
            if date.Some? then EarliestAmong(recordings, topics, date.value)
            else forall i :: 0 <= i < |topics| ==> topics[i] !in recordings
    decreases |topics|
  {
    if topics != [] {
      var n := |topics| - 1;
      EarliestMeans(recordings, topics[..n]);
      var before, date := EarliestOf(recordings, topics[..n]), EarliestOf(recordings, topics);
      assert forall i :: 0 <= i < n ==> topics[..n][i] == topics[i];
      if date.Some? && (topics[n] !in recordings || date.value != recordings[topics[n]]) {
        var i :| 0 <= i < n && topics[..n][i] in recordings && recordings[topics[..n][i]] == before.value;
        assert topics[i] in recordings && recordings[topics[i]] == date.value;
      }
    }
  }

  ghost predicate AllRecorded(recordings: map<Topic, int>, topics: seq<Topic>) {
    forall i :: 0 <= i < |topics| ==> topics[i] in recordings
  }

  lemma {:induction false} EarliestStays(recordings: map<Topic, int>, more: map<Topic, int>, topics: seq<Topic>)
    requires AllRecorded(recordings, topics) && forall t :: t in recordings ==> t in more && more[t] == recordings[t]
    ensures AllRecorded(more, topics) && EarliestOf(more, topics) == EarliestOf(recordings, topics)
    decreases |topics|
  {
    if topics != [] {
      EarliestStays(recordings, more, topics[..|topics| - 1]);
    }
  }

  lemma {:induction false} EarliestIsPast(recordings: map<Topic, int>, topics: seq<Topic>, clock: int)
    requires forall t :: t in recordings ==> recordings[t] <= clock
    ensures EarliestOf(recordings, topics).Some? ==> EarliestOf(recordings, topics).value <= clock
    decreases |topics|
  {
    if topics != [] {
      EarliestIsPast(recordings, topics[..|topics| - 1], clock);
    }
  }

  /** What an issuing call has worked out so far; and where it read no frozen date but one has been
      frozen since, at the edition it read, the date frozen is the one it will work out. */
  ghost predicate SessionDated(r: Record, recordings: map<Topic, int>, s: Session) {
    && (s.Drafting? ==>
          && |s.marks| <= |s.topics| && AllRecorded(recordings, s.topics[..|s.marks|])
          && s.oldest == EarliestOf(recordings, s.topics[..|s.marks|]))
    && (s.row.frozen.None? && r.releasedFrom.Some? && SameEdition(r, s.row) ==>
          AllRecorded(recordings, TopicsOf(r.covers)) && r.releasedFrom == EarliestOf(recordings, TopicsOf(r.covers)))
  }

  ghost predicate SessionsDated(r: Record, recordings: map<Topic, int>, issuing: map<nat, Session>) {
    forall id :: id in issuing ==> SessionDated(r, recordings, issuing[id])
  }

  /** Every issued document opens with the date frozen, which is no later than the first of them, and
      which is the earliest recording of what that one covers. */
  ghost predicate FrozenOnce(r: Record, recordings: map<Topic, int>) {
    && (r.releasedFrom.Some? <==> r.issuances != [])
    && (forall k :: 0 <= k < |r.issuances| ==> r.releasedFrom == Some(r.issuances[k].document.initialRelease))
    && (r.issuances != [] ==>
          var first := r.issuances[0];
          && first.document.initialRelease <= first.issued.at
          && AllRecorded(recordings, first.document.topics)
          && EarliestOf(recordings, first.document.topics) == r.releasedFrom)
  }

  ghost predicate RecordingsPast(recordings: map<Topic, int>, clock: int) {
    forall t :: t in recordings ==> recordings[t] <= clock
  }

  ghost predicate CoveredAreRecorded(r: Record, recordings: map<Topic, int>) {
    forall i :: 0 <= i < |r.covers| ==> r.covers[i].topic in recordings
  }

  ghost predicate WellDated(w: World) {
    && RecordingsPast(w.recordings, w.clock) && CoveredAreRecorded(w.record, w.recordings)
    && FrozenOnce(w.record, w.recordings) && SessionsDated(w.record, w.recordings, w.issuing)
  }

  ghost predicate Grew(recordings: map<Topic, int>, more: map<Topic, int>) {
    forall t :: t in recordings ==> t in more && more[t] == recordings[t]
  }

  lemma RecordingsGrow(w: World, step: Step, now: int)
    requires RecordingsPast(w.recordings, w.clock) && w.clock <= now && CoveredAreRecorded(w.record, w.recordings)
    ensures var more := RecordingsAfter(w, step, now);
            Grew(w.recordings, more) && RecordingsPast(more, now) && CoveredAreRecorded(RecordAfter(w, step, now), more)
  {}

  lemma SessionStaysDated(r: Record, r': Record, recordings: map<Topic, int>, more: map<Topic, int>, s: Session)
    requires EditionsSound(r) && KeptOrMoved(r, r') && Tracks(r, s) && SessionDated(r, recordings, s) && Grew(recordings, more)
    requires r'.releasedFrom == r.releasedFrom
          || (AllRecorded(recordings, TopicsOf(r.covers)) && r'.releasedFrom == EarliestOf(recordings, TopicsOf(r.covers)))
    ensures SessionDated(r', more, s)
  {
    hide EarliestOf, TopicsOf;
    if s.Drafting? { EarliestStays(recordings, more, s.topics[..|s.marks|]); }
    if s.row.frozen.None? && r'.releasedFrom.Some? && SameEdition(r', s.row) {
      assert r'.covers == r.covers;
      EarliestStays(recordings, more, TopicsOf(r.covers));
    }
  }

  lemma ReadingStaysDated(r: Record, recordings: map<Topic, int>, s: Session, now: int)
    requires Tracks(r, s) && SessionDated(r, recordings, s) && NextRead(s, r, recordings, now).Some?
    ensures SessionDated(r, recordings, NextRead(s, r, recordings, now).value)
  {
    hide TopicsOf, MarksOn, TitleOf;
    if s.Drafting? && |s.marks| < |s.topics| {
      var n := |s.marks|;
      assert s.topics[..n + 1][..n] == s.topics[..n];
    }
  }

  /** What a commit leaves, of what the call committing had read. */
  lemma CommitIs(w: World, step: Step, now: int)
    ensures var r, r' := w.record, RecordAfter(w, step, now);
            if r'.issuances == r.issuances then r'.releasedFrom == r.releasedFrom
            else
              && step.Issue? && step.id in w.issuing && Assembled(w.issuing[step.id])
              && var s := w.issuing[step.id];
                 && SameEdition(r, s.row) && |r'.issuances| == |r.issuances| + 1
                 && r'.issuances[..|r.issuances|] == r.issuances
                 && var one := r'.issuances[|r.issuances|];
                    && one.document.initialRelease == InitialRelease(s) && one.document.topics == s.topics
                    && one.issued.at == now
                    && r'.releasedFrom == if r.releasedFrom.None? then Some(InitialRelease(s)) else r.releasedFrom
  {
    hide TopicsOf, TitleOf, MarksOn, History, Agreed, StatusOf, KeptOrMoved;
  }

  /** What a commit freezes, and what the document it commits opens with. */
  lemma CommitIsDated(w: World, step: Step, now: int)
    requires Safe(w) && WellDated(w) && w.clock <= now
    ensures var r, r' := w.record, RecordAfter(w, step, now);
            if r'.issuances == r.issuances then r'.releasedFrom == r.releasedFrom
            else
              && step.Issue? && |r'.issuances| == |r.issuances| + 1 && r'.issuances[..|r.issuances|] == r.issuances
              && var one := r'.issuances[|r.issuances|];
                 && r'.releasedFrom == Some(one.document.initialRelease)
                 && (r.releasedFrom.Some? ==> r'.releasedFrom == r.releasedFrom)
                 && (r.releasedFrom.None? ==>
                       && one.document.initialRelease <= one.issued.at
                       && one.document.topics == TopicsOf(r.covers) && AllRecorded(w.recordings, TopicsOf(r.covers))
                       && r'.releasedFrom == EarliestOf(w.recordings, TopicsOf(r.covers)))
  {
    hide TopicsOf, EarliestOf, TitleOf, MarksOn, RecordAfter, Sound, AllShow, Shows;
    var r, r' := w.record, RecordAfter(w, step, now);
    CommitIs(w, step, now);
    if r'.issuances != r.issuances {
      var s := w.issuing[step.id];
      assert Tracks(r, s) && SessionDated(r, w.recordings, s) && SameEdition(r, s.row);
      assert s.topics[..|s.marks|] == s.topics;
      EarliestIsPast(w.recordings, s.topics, w.clock);
    }
  }

  lemma FrozenStays(w: World, step: Step, now: int)
    requires Safe(w) && WellDated(w) && w.clock <= now
    ensures FrozenOnce(RecordAfter(w, step, now), RecordingsAfter(w, step, now))
  {
    hide RecordAfter, RecordingsAfter, TopicsOf, EarliestOf, Safe, CoveredAreRecorded, SessionsDated;
    var r, r', more := w.record, RecordAfter(w, step, now), RecordingsAfter(w, step, now);
    CommitIsDated(w, step, now);
    RecordingsGrow(w, step, now);
    if r.issuances != [] {
      assert r'.issuances[0] == r.issuances[0];
      EarliestStays(w.recordings, more, r.issuances[0].document.topics);
    } else if r'.issuances != [] {
      EarliestStays(w.recordings, more, TopicsOf(r.covers));
    }
    forall k | 0 <= k < |r'.issuances| ensures r'.releasedFrom == Some(r'.issuances[k].document.initialRelease) {
      if k < |r.issuances| { assert r'.issuances[k] == r.issuances[k]; }
    }
  }

  lemma SessionsStayDated(w: World, step: Step, now: int)
    requires Safe(w) && WellDated(w) && w.clock <= now
    ensures SessionsDated(RecordAfter(w, step, now), RecordingsAfter(w, step, now), IssuingAfter(w, step, now))
  {
    hide RecordAfter, RecordingsAfter, TopicsOf, EarliestOf, NextRead, KeptOrMoved;
    var r, r', more, issuing := w.record, RecordAfter(w, step, now), RecordingsAfter(w, step, now), IssuingAfter(w, step, now);
    StepKeepsOrMoves(w, step, now);
    CommitIsDated(w, step, now);
    CommittedShows(w, step, now);
    RecordingsGrow(w, step, now);
    forall id | id in issuing ensures SessionDated(r', more, issuing[id]) {
      if id in w.issuing && issuing[id] == w.issuing[id] {
        SessionStaysDated(r, r', w.recordings, more, w.issuing[id]);
      } else if step.Read? {
        ReadingStaysDated(r, w.recordings, w.issuing[id], now);
        ReadingTracks(r, w.issuing[id], w.recordings, now);
        SessionStaysDated(r, r', w.recordings, more, issuing[id]);
      }
    }
  }

  lemma {:induction false} EveryRunIsWellDated(who: nat, title: string, now: int, events: seq<Event>)
    ensures WellDated(Run(Start(who, title, now), events))
  {
    if events == [] {
      StartIsWellDated(who, title, now);
    } else {
      hide WellDated, Safe, RecordAfter, RecordingsAfter, IssuingAfter, ApprovingAfter, Start;
      var n := |events| - 1;
      EveryRunIsWellDated(who, title, now, events[..n]);
      EveryRunIsSafe(who, title, now, events[..n]);
      StepIsWellDated(Run(Start(who, title, now), events[..n]), events[n]);
    }
  }

  lemma StartIsWellDated(who: nat, title: string, now: int)
    ensures WellDated(Start(who, title, now))
  {}

  lemma StepIsWellDated(w: World, e: Event)
    requires Safe(w) && WellDated(w)
    ensures WellDated(After(w, e))
  {
    hide RecordAfter, RecordingsAfter, IssuingAfter, FrozenOnce, SessionsDated, CoveredAreRecorded, RecordingsPast, Safe;
    var now := w.clock + e.tick;
    RecordingsGrow(w, e.step, now);
    FrozenStays(w, e.step, now);
    SessionsStayDated(w, e.step, now);
  }

  /** Over every run and every interleaving: each document that went out opens with the date frozen
      when the first did, whichever call froze it; and that is the earliest moment any flaw the first
      one covers was recorded, and no later than it went out. */
  lemma OpensWithTheFrozenDate(who: nat, title: string, now: int, events: seq<Event>, k: nat)
    requires k < |Run(Start(who, title, now), events).record.issuances|
    ensures var w := Run(Start(who, title, now), events);
            var date, first := w.record.issuances[k].document.initialRelease, w.record.issuances[0];
            && w.record.releasedFrom == Some(date) && date <= first.issued.at
            && EarliestAmong(w.recordings, first.document.topics, date)
            && forall t :: t in first.document.topics ==> t in w.recordings
  {
    hide Run, EarliestOf, EarliestAmong;
    EveryRunIsWellDated(who, title, now, events);
    var w := Run(Start(who, title, now), events);
    EarliestMeans(w.recordings, w.record.issuances[0].document.topics);
  }

  /** The dates an issued document lists never run backwards, in any run. */
  lemma DatesRunForwards(who: nat, title: string, now: int, events: seq<Event>, k: nat)
    requires k < |Run(Start(who, title, now), events).record.issuances|
    ensures DatesDoNotDecrease(Run(Start(who, title, now), events).record.issuances[k].document.history)
  {
    hide Run;
    var w := Run(Start(who, title, now), events);
    EveryRunIsSafe(who, title, now, events);
    EveryRunKeepsHistory(who, title, now, events);
    EveryRunIsWellDated(who, title, now, events);
    DatesRunForwardsExactlyWhen(w.record, w.clock, k);
    assert w.record.releasedFrom == Some(w.record.issuances[0].document.initialRelease);
  }

  /** Each issued document's history is the one before it and its own entry, in any run. */
  lemma EachExtendsTheOneBefore(who: nat, title: string, now: int, events: seq<Event>, k: nat)
    requires k + 1 < |Run(Start(who, title, now), events).record.issuances|
    ensures var gone := Run(Start(who, title, now), events).record.issuances;
            exists entry :: EntryOf(entry, gone[k + 1], k + 2)
                         && gone[k + 1].document.history == gone[k].document.history + [entry]
  {
    hide Run;
    var gone := Run(Start(who, title, now), events).record.issuances;
    EveryRunKeepsHistory(who, title, now, events);
    OpensWithTheFrozenDate(who, title, now, events, k);
    OpensWithTheFrozenDate(who, title, now, events, k + 1);
    ExtendsExactlyWhen(gone, k);
    assert HistoryIsTheRecord(gone, k + 1);
    assert EntryOf(RevisionOf(gone[k + 1]), gone[k + 1], k + 2);
  }
}
