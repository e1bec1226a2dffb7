/** What every act on an advisory keeps: numbered editions, agreements by second persons on the
    edition in force, and issuances each recorded while such an agreement stood. */
module AdvisorySafety {
  import opened Common
  import opened Sorting
  import opened Advisories

  // ----- The rules -----

  ghost predicate Numbered(editions: seq<Edition>) {
    forall i :: 0 <= i < |editions| ==> editions[i].ordinal == i + 1
  }

  ghost predicate Retained(editions: seq<Edition>, title: string, from: nat) {
    forall j :: from <= j < |editions| ==> editions[j].title == title
  }

  /** This person wrote one of the unbroken run of editions, ending at this one, that carry its
      title. */
  ghost predicate Author(editions: seq<Edition>, edition: nat, who: nat)
    requires 1 <= edition <= |editions|
  {
    exists k :: 0 <= k < edition && editions[k].written.who == who
             && Retained(editions[..edition], editions[edition - 1].title, k)
  }

  ghost predicate EditionsSound(r: Record) {
    && r.editions != [] && Numbered(r.editions) && r.editionID == Some(|r.editions|)
  }

  /** A second person's agreement, to an edition there is, standing only while that edition is the
      one in force. */
  ghost predicate ApprovalSound(r: Record, a: Approval, clock: int) {
    && 1 <= a.edition <= |r.editions|
    && a.given.who != r.mintedBy
    && !Author(r.editions, a.edition, a.given.who)
    && a.given.at <= clock
    && (a.withdrawn.None? ==> a.edition == |r.editions|)
    && (a.withdrawn.Some? ==> a.given.at <= a.withdrawn.value.at <= clock)
  }

  ghost predicate OncePerPerson(approvals: seq<Approval>) {
    forall i, j :: 0 <= i < j < |approvals| && approvals[i].withdrawn.None? && approvals[j].withdrawn.None? ==>
      approvals[i].given.who != approvals[j].given.who
  }

  ghost predicate ApprovalsSound(r: Record, clock: int) {
    && (forall i :: 0 <= i < |r.approvals| ==> ApprovalSound(r, r.approvals[i], clock))
    && OncePerPerson(r.approvals)
  }

  ghost predicate StoodAt(a: Approval, edition: nat, at: int) {
    a.edition == edition && a.given.at <= at && (a.withdrawn.Some? ==> at <= a.withdrawn.value.at)
  }

  /** An agreement to the edition that went out stood at the moment it did. */
  ghost predicate Witnessed(approvals: seq<Approval>, one: Issuance) {
    exists i :: 0 <= i < |approvals| && StoodAt(approvals[i], one.edition, one.issued.at)
  }

  ghost predicate IssuancesSound(r: Record, clock: int) {
    && (forall i :: 0 <= i < |r.issuances| ==>
          r.issuances[i].ordinal == i + 1 && 1 <= r.issuances[i].edition <= |r.editions|
          && r.issuances[i].issued.at <= clock && Witnessed(r.approvals, r.issuances[i]))
    && (forall i, j :: 0 <= i < j < |r.issuances| ==> r.issuances[i].issued.at <= r.issuances[j].issued.at)
    && (r.releasedFrom.Some? <==> r.issuances != [])
    && (r.issuances != [] ==> r.releasedFrom == Some(r.issuances[0].document.initialRelease))
  }

  ghost predicate OneRowEach(r: Record) {
    && (forall i, j :: 0 <= i < j < |r.covers| ==> r.covers[i].topic != r.covers[j].topic)
    && (forall i, j :: 0 <= i < j < |r.overrides| ==> r.overrides[i].place != r.overrides[j].place)
  }

  ghost predicate Sound(r: Record, clock: int) {
    EditionsSound(r) && ApprovalsSound(r, clock) && IssuancesSound(r, clock) && OneRowEach(r)
  }

  // ----- Reading the rows of a sound record -----

  lemma {:induction false} HighestIsLast(editions: seq<Edition>, from: nat)
    requires forall i :: 0 <= i < |editions| ==> editions[i].ordinal == from + i + 1
    ensures Highest(editions) == if editions == [] then 0 else from + |editions|
  {
    if editions != [] { HighestIsLast(editions[1..], from + 1); }
  }

  lemma {:induction false} EditionOfFinds(editions: seq<Edition>, from: nat, id: nat)
    requires forall i :: 0 <= i < |editions| ==> editions[i].ordinal == from + i + 1
    ensures EditionOf(editions, id) == if from < id <= from + |editions| then Some(editions[id - from - 1]) else None
  {
    if editions != [] { EditionOfFinds(editions[1..], from + 1, id); }
  }

  lemma {:induction false} UpToIsPrefix(editions: seq<Edition>, from: nat, ordinal: nat)
    requires forall i :: 0 <= i < |editions| ==> editions[i].ordinal == from + i + 1
    ensures UpTo(editions, ordinal) ==
      if ordinal <= from then [] else if ordinal - from <= |editions| then editions[..ordinal - from] else editions
  {
    if editions != [] { UpToIsPrefix(editions[1..], from + 1, ordinal); }
  }

  /** Walking back while the title stays the same finds exactly the authors of the words standing. */
  lemma {:induction false} WroteIsAuthor(editions: seq<Edition>, title: string, who: nat)
    ensures Wrote(editions, title, who) <==>
      exists k :: 0 <= k < |editions| && editions[k].written.who == who && Retained(editions, title, k)
  {
    if editions != [] {
      var n := |editions| - 1;
      var before := editions[..n];
      WroteIsAuthor(before, title, who);
      if editions[n].title == title {
        forall k | 0 <= k < n ensures Retained(before, title, k) <==> Retained(editions, title, k) {
          if Retained(before, title, k) {
            forall j | k <= j < |editions| ensures editions[j].title == title {
              if j < n { assert before[j].title == title; }
            }
          }
          if Retained(editions, title, k) {
            forall j | k <= j < n ensures before[j].title == title { assert editions[j].title == title; }
          }
        }
        if editions[n].written.who == who {
          assert Retained(editions, title, n);
        } else if Wrote(before, title, who) {
          var k :| 0 <= k < |before| && before[k].written.who == who && Retained(before, title, k);
          assert editions[k].written.who == who && Retained(editions, title, k);
        } else {
          forall k | 0 <= k < |editions| && editions[k].written.who == who ensures !Retained(editions, title, k) {
            assert before[k].written.who == who;
          }
        }
      } else {
        forall k | 0 <= k < |editions| ensures !Retained(editions, title, k) {
          assert editions[n].title != title;
        }
      }
    }
  }

  // ----- Every act keeps the rules -----

  lemma AuthorKept(editions: seq<Edition>, next: Edition, edition: nat, who: nat)
    requires 1 <= edition <= |editions|
    ensures Author(editions + [next], edition, who) <==> Author(editions, edition, who)
  {
    var longer := editions + [next];
    assert longer[..edition] == editions[..edition];
    forall k | 0 <= k < edition ensures longer[k] == editions[k] {}
    if Author(longer, edition, who) {
      var k :| 0 <= k < edition && longer[k].written.who == who
            && Retained(longer[..edition], longer[edition - 1].title, k);
      assert editions[k].written.who == who && Retained(editions[..edition], editions[edition - 1].title, k);
    }
    if Author(editions, edition, who) {
      var k :| 0 <= k < edition && editions[k].written.who == who
            && Retained(editions[..edition], editions[edition - 1].title, k);
      assert longer[k].written.who == who && Retained(longer[..edition], longer[edition - 1].title, k);
    }
  }

  lemma WitnessedKept(approvals: seq<Approval>, act: Act, one: Issuance)
    requires Witnessed(approvals, one) && one.issued.at <= act.at
    ensures Witnessed(TakenBack(approvals, act), one)
  {
    var i :| 0 <= i < |approvals| && StoodAt(approvals[i], one.edition, one.issued.at);
    assert StoodAt(TakenBack(approvals, act)[i], one.edition, one.issued.at);
  }

  lemma TakingBackKeeps(r: Record, who: nat, clock: int, now: int)
    requires Sound(r, clock) && clock <= now
    ensures Sound(r.(approvals := TakenBack(r.approvals, Act(who, now))), now)
  {
    var r' := r.(approvals := TakenBack(r.approvals, Act(who, now)));
    forall i | 0 <= i < |r'.approvals| ensures ApprovalSound(r', r'.approvals[i], now) {
      assert ApprovalSound(r, r.approvals[i], clock);
    }
    forall i | 0 <= i < |r.issuances| ensures Witnessed(r'.approvals, r.issuances[i]) {
      WitnessedKept(r.approvals, Act(who, now), r.issuances[i]);
    }
  }

  lemma OpeningKeeps(r: Record, who: nat, title: string, clock: int, now: int)
    requires Sound(r, clock) && clock <= now
    ensures Sound(OpenEdition(r, who, title, now), now)
    ensures OpenEdition(r, who, title, now).editions ==
      r.editions + [Edition(|r.editions| + 1, title, Act(who, now))]
  {
    HighestIsLast(r.editions, 0);
    TakingBackKeeps(r, who, clock, now);
    var r1, r' := r.(approvals := TakenBack(r.approvals, Act(who, now))), OpenEdition(r, who, title, now);
    forall i | 0 <= i < |r'.approvals| ensures ApprovalSound(r', r'.approvals[i], now) {
      assert ApprovalSound(r1, r1.approvals[i], now);
      AuthorKept(r.editions, r'.editions[|r.editions|], r1.approvals[i].edition, r1.approvals[i].given.who);
    }
  }

  lemma MintingIsSound(who: nat, title: string, now: int)
    ensures Sound(Minted(who, title, now), now)
    ensures Minted(who, title, now).editions == [Edition(1, title, Act(who, now))]
  {}

  lemma AddingKeeps(r: Record, who: nat, topic: Topic, clock: int, now: int)
    requires Sound(r, clock) && clock <= now && Added(r, who, topic, now).Ok?
    ensures Sound(Added(r, who, topic, now).value, now)
  {
    var i := RowOf(r.covers, topic);
    var covers := if i == |r.covers| then r.covers + [Cover(topic, Act(who, now), None)]
                  else r.covers[i := Cover(topic, Act(who, now), None)];
    OpeningKeeps(r.(covers := covers), who, TitleOf(r.editions, r.editionID), clock, now);
  }

  lemma DroppingKeeps(r: Record, who: nat, topic: Topic, clock: int, now: int)
    requires Sound(r, clock) && clock <= now && Dropped(r, who, topic, now).Ok?
    ensures Sound(Dropped(r, who, topic, now).value, now)
  {
    OpeningKeeps(r.(covers := TakenOff(r.covers, topic, Act(who, now))), who, TitleOf(r.editions, r.editionID), clock, now);
  }

  lemma MarkingKeeps(r: Record, who: nat, place: Place, affected: bool, clock: int, now: int)
    requires Sound(r, clock) && clock <= now
    ensures Sound(MarkedAffected(r, who, place, affected, now), now)
  {
    var act, i, title := Act(who, now), FirstCleared(r.overrides, place), TitleOf(r.editions, r.editionID);
    if Marked(r.overrides, place) == affected {
      LaterIsSound(r, clock, now);
    } else if affected && i < |r.overrides| {
      OpeningKeeps(r.(overrides := r.overrides[i := Override(place, act, None)]), who, title, clock, now);
    } else if affected {
      forall j | 0 <= j < |r.overrides| ensures r.overrides[j].place != place {
        assert !Cleared(r.overrides[j], place) && !Marking(r.overrides[j], place);
      }
      OpeningKeeps(r.(overrides := r.overrides + [Override(place, act, None)]), who, title, clock, now);
    } else {
      OpeningKeeps(r.(overrides := Unmarked(r.overrides, place, act)), who, title, clock, now);
    }
  }

  lemma LaterIsSound(r: Record, clock: int, now: int)
    requires Sound(r, clock) && clock <= now
    ensures Sound(r, now)
  {
    forall i | 0 <= i < |r.approvals| ensures ApprovalSound(r, r.approvals[i], now) {
      assert ApprovalSound(r, r.approvals[i], clock);
    }
  }

  /** Agreeing is refused to exactly the authors of the words standing, and to whoever has agreed
      already; otherwise one agreement is added, on the edition in force. */
  lemma AgreeingMeans(r: Record, who: nat, now: int)
    requires EditionsSound(r)
    ensures var answer, n := Approved(r, who, now), |r.editions|;
            && (answer == Err(SamePerson) <==> Author(r.editions, n, who))
            && (answer == Err(AlreadyAgreed) <==> !Author(r.editions, n, who) && AgreesTo(r.approvals, n, who))
            && (answer.Ok? <==> !Author(r.editions, n, who) && !AgreesTo(r.approvals, n, who))
            && (answer.Ok? ==>
                  answer.value == r.(approvals := r.approvals + [Approval(n, Act(who, now), None)]))
  {
    var n := |r.editions|;
    EditionOfFinds(r.editions, 0, n);
    UpToIsPrefix(r.editions, 0, n);
    assert r.editions[..n] == r.editions;
    var title := r.editions[n - 1].title;
    WroteIsAuthor(r.editions, title, who);
    assert Wrote(r.editions, title, who) <==> Author(r.editions, n, who);
    AgreedByIs(r.approvals, n, who);
  }

  /** This person's agreement to this edition stands. */
  ghost predicate AgreesTo(approvals: seq<Approval>, edition: nat, who: nat) {
    exists i :: 0 <= i < |approvals|
             && approvals[i].edition == edition && approvals[i].withdrawn == None && approvals[i].given.who == who
  }

  lemma AgreedByIs(approvals: seq<Approval>, edition: nat, who: nat)
    ensures AgreedBy(approvals, edition, who) <==> AgreesTo(approvals, edition, who)
  {
    if AgreesTo(approvals, edition, who) {
      var i :| 0 <= i < |approvals|
            && approvals[i].edition == edition && approvals[i].withdrawn == None && approvals[i].given.who == who;
      assert Stands(approvals[i], edition) && approvals[i].given.who == who;
    }
    if AgreedBy(approvals, edition, who) {
      var i :| 0 <= i < |approvals| && Stands(approvals[i], edition) && approvals[i].given.who == who;
      assert approvals[i].edition == edition && approvals[i].withdrawn == None;
    }
  }

  lemma AgreeingKeeps(r: Record, who: nat, clock: int, now: int)
    requires Sound(r, clock) && clock <= now && who != r.mintedBy && Approved(r, who, now).Ok?
    ensures Sound(Approved(r, who, now).value, now)
  {
    AgreeingMeans(r, who, now);
    LaterIsSound(r, clock, now);
    var r' := Approved(r, who, now).value;
    var n := |r.approvals|;
    forall i | 0 <= i < |r'.approvals| ensures ApprovalSound(r', r'.approvals[i], now) {
      if i < n { assert ApprovalSound(r, r.approvals[i], now); }
    }
    forall i | 0 <= i < n && r.approvals[i].withdrawn.None? ensures r.approvals[i].given.who != who {
      assert ApprovalSound(r, r.approvals[i], now);
      assert !AgreedBy(r.approvals, |r.editions|, who);
      assert Stands(r.approvals[i], |r.editions|);
    }
    forall k | 0 <= k < |r.issuances| ensures Witnessed(r'.approvals, r.issuances[k]) {
      var i :| 0 <= i < n && StoodAt(r.approvals[i], r.issuances[k].edition, r.issuances[k].issued.at);
      assert StoodAt(r'.approvals[i], r.issuances[k].edition, r.issuances[k].issued.at);
    }
  }

  lemma IssuingKeeps(r: Record, doc: Document, against: Option<nat>, who: nat, summary: string, clock: int, now: int)
    requires Sound(r, clock) && clock <= now && Issued(r, doc, against, who, summary, now).Ok?
    ensures Sound(Issued(r, doc, against, who, summary, now).value, now)
  {
    hide Author, History, StatusOf;
    LaterIsSound(r, clock, now);
    var r' := Issued(r, doc, against, who, summary, now).value;
    var n := |r.issuances|;
    forall i | 0 <= i < |r'.approvals| ensures ApprovalSound(r', r'.approvals[i], now) {
      assert ApprovalSound(r, r.approvals[i], now);
    }
    var i :| 0 <= i < |r.approvals| && Stands(r.approvals[i], r.editionID.value);
    assert ApprovalSound(r, r.approvals[i], clock);
    assert StoodAt(r.approvals[i], r'.issuances[n].edition, now);
    forall k | 0 <= k <= n
      ensures r'.issuances[k].ordinal == k + 1 && 1 <= r'.issuances[k].edition <= |r.editions|
           && r'.issuances[k].issued.at <= now && Witnessed(r'.approvals, r'.issuances[k])
    {
      if k < n { assert r'.issuances[k] == r.issuances[k]; }
    }
  }

  // ----- What each act changes, and what it leaves alone -----

  ghost predicate NobodyAgrees(r: Record) {
    forall i :: 0 <= i < |r.approvals| ==> r.approvals[i].withdrawn.Some?
  }

  /** An edit opened one edition, numbered next, carrying this title and written by this person; it took
      back every agreement still standing, in this person's name, and touched no other. */
  ghost predicate Edited(r: Record, r': Record, who: nat, title: string, now: int) {
    && r'.editions == r.editions + [Edition(|r.editions| + 1, title, Act(who, now))]
    && r'.editionID == Some(|r.editions| + 1)
    && AllTakenBack(r.approvals, r'.approvals, Act(who, now))
    && r'.issuances == r.issuances && r'.mintedBy == r.mintedBy && r'.releasedFrom == r.releasedFrom
  }

  ghost predicate AllTakenBack(before: seq<Approval>, after: seq<Approval>, act: Act) {
    && |after| == |before|
    && forall i :: 0 <= i < |before| ==>
         after[i] == if before[i].withdrawn.None? then Approval(before[i].edition, before[i].given, Some(act)) else before[i]
  }

  /** The title of the newest edition. */
  ghost function Title(r: Record): string {
    if r.editions == [] then "" else r.editions[|r.editions| - 1].title
  }

  /** A row, put on and not taken off, says the advisory covers this. */
  ghost predicate OnIt(covers: seq<Cover>, topic: Topic) {
    exists i :: 0 <= i < |covers| && covers[i].topic == topic && covers[i].removed == None
  }

  /** A row, marked and not cleared, says this release is marked affected. */
  ghost predicate MarkedOn(overrides: seq<Override>, place: Place) {
    exists i :: 0 <= i < |overrides| && overrides[i].place == place && overrides[i].removed == None
  }

  lemma RowsTell(r: Record)
    ensures forall t :: Covers(r.covers, t) <==> OnIt(r.covers, t)
    ensures forall place :: Marked(r.overrides, place) <==> MarkedOn(r.overrides, place)
    ensures EditionsSound(r) ==> TitleOf(r.editions, r.editionID) == Title(r)
  {
    forall t ensures Covers(r.covers, t) <==> OnIt(r.covers, t) {
      if OnIt(r.covers, t) {
        var i :| 0 <= i < |r.covers| && r.covers[i].topic == t && r.covers[i].removed == None;
        assert Covering(r.covers[i], t);
      }
      if Covers(r.covers, t) {
        var i :| 0 <= i < |r.covers| && Covering(r.covers[i], t);
        assert r.covers[i].topic == t && r.covers[i].removed == None;
      }
    }
    forall place ensures Marked(r.overrides, place) <==> MarkedOn(r.overrides, place) {
      if MarkedOn(r.overrides, place) {
        var i :| 0 <= i < |r.overrides| && r.overrides[i].place == place && r.overrides[i].removed == None;
        assert Marking(r.overrides[i], place);
      }
      if Marked(r.overrides, place) {
        var i :| 0 <= i < |r.overrides| && Marking(r.overrides[i], place);
        assert r.overrides[i].place == place && r.overrides[i].removed == None;
      }
    }
    if EditionsSound(r) { EditionOfFinds(r.editions, 0, |r.editions|); }
  }

  lemma OpeningEdits(r: Record, who: nat, title: string, now: int)
    requires EditionsSound(r)
    ensures Edited(r, OpenEdition(r, who, title, now), who, title, now)
    ensures var r' := OpenEdition(r, who, title, now); r'.covers == r.covers && r'.overrides == r.overrides
  {
    HighestIsLast(r.editions, 0);
  }

  lemma RetitlingMeans(r: Record, who: nat, title: string, now: int)
    requires EditionsSound(r)
    ensures var r' := Retitled(r, who, title, now);
            Edited(r, r', who, title, now) && r'.covers == r.covers && r'.overrides == r.overrides
  {
    OpeningEdits(r, who, title, now);
  }

  lemma OneRowPerTopic(r: Record, i: nat, j: nat)
    requires OneRowEach(r) && i < |r.covers| && j < |r.covers|
    ensures r.covers[i].topic == r.covers[j].topic <==> i == j
  {
    if i < j { assert r.covers[i].topic != r.covers[j].topic; }
    if j < i { assert r.covers[j].topic != r.covers[i].topic; }
  }

  /** One row is this, and every other is as it was. */
  ghost predicate OnlyRow(before: seq<Cover>, after: seq<Cover>, row: Cover) {
    && row in after && |before| <= |after|
    && (forall i :: 0 <= i < |before| && before[i].topic != row.topic ==> after[i] == before[i])
    && (forall i :: 0 <= i < |after| && after[i].topic == row.topic ==> after[i] == row)
    && (forall i :: 0 <= i < |after| && after[i].topic != row.topic ==> i < |before| && after[i] == before[i])
  }

  /** Naming a flaw is refused exactly where it is covered already; otherwise it is covered, put on by
      this person now, no other row of the coverage or of the marks moves, and an edition opens under
      the title there was. */
  lemma AddingMeans(r: Record, who: nat, topic: Topic, now: int)
    requires EditionsSound(r) && OneRowEach(r)
    ensures Added(r, who, topic, now) == Err(AlreadyCovered) <==> OnIt(r.covers, topic)
    ensures Added(r, who, topic, now).Ok? <==> !OnIt(r.covers, topic)
    ensures Added(r, who, topic, now).Ok? ==>
      var r' := Added(r, who, topic, now).value;
      && OnlyRow(r.covers, r'.covers, Cover(topic, Act(who, now), None)) && r'.overrides == r.overrides
      && Edited(r, r', who, Title(r), now)
  {
    RowsTell(r);
    var i, c := RowOf(r.covers, topic), Cover(topic, Act(who, now), None);
    if OnIt(r.covers, topic) {
      var j :| 0 <= j < |r.covers| && r.covers[j].topic == topic && r.covers[j].removed == None;
      OneRowPerTopic(r, i, j);
    } else {
      var covers := if i == |r.covers| then r.covers + [c] else r.covers[i := c];
      OpeningEdits(r.(covers := covers), who, TitleOf(r.editions, r.editionID), now);
      forall j | 0 <= j < |covers| && j != i ensures covers[j].topic != topic {
        if i < |r.covers| { OneRowPerTopic(r, i, j); }
      }
      assert covers[i] == c;
    }
  }

  lemma OnlyRowAdds(before: seq<Cover>, after: seq<Cover>, row: Cover)
    requires OnlyRow(before, after, row) && row.removed == None && !OnIt(before, row.topic)
    ensures forall t :: OnIt(after, t) <==> t == row.topic || OnIt(before, t)
  {
    var at :| 0 <= at < |after| && after[at] == row;
    forall t ensures OnIt(after, t) <==> t == row.topic || OnIt(before, t) {
      if OnIt(before, t) {
        var i :| 0 <= i < |before| && before[i].topic == t && before[i].removed == None;
        assert before[i].topic != row.topic ==> after[i] == before[i];
      }
    }
  }

  /** Taking a flaw off is refused exactly where it is not covered; otherwise exactly its rows are taken
      off, by this person now, and an edition opens under the title there was. */
  lemma DroppingMeans(r: Record, who: nat, topic: Topic, now: int)
    requires EditionsSound(r)
    ensures Dropped(r, who, topic, now) == Err(NoSuchIssue) <==> !OnIt(r.covers, topic)
    ensures Dropped(r, who, topic, now).Ok? <==> OnIt(r.covers, topic)
    ensures Dropped(r, who, topic, now).Ok? ==>
      var r' := Dropped(r, who, topic, now).value;
      && |r'.covers| == |r.covers| && r'.overrides == r.overrides
      && (forall i :: 0 <= i < |r.covers| ==>
            r'.covers[i] == if r.covers[i].topic == topic && r.covers[i].removed == None
                            then Cover(topic, r.covers[i].added, Some(Act(who, now))) else r.covers[i])
      && Edited(r, r', who, Title(r), now)
  {
    RowsTell(r);
    OpeningEdits(r.(covers := TakenOff(r.covers, topic, Act(who, now))), who, TitleOf(r.editions, r.editionID), now);
  }

  /** A mark is cleared by this act, where it stood. */
  ghost predicate ClearedAs(before: Override, after: Override, act: Act) {
    after == if before.removed == None then Override(before.place, before.marked, Some(act)) else before
  }

  /** Marking leaves the release marked as asked and every other as it was, new marks being this
      person's of now, and opens an edition under the title there was; where it stood so already,
      nothing at all changes. */
  lemma MarkingMeans(r: Record, who: nat, place: Place, affected: bool, now: int)
    requires EditionsSound(r) && OneRowEach(r)
    ensures var r' := MarkedAffected(r, who, place, affected, now);
            && (forall at :: MarkedOn(r'.overrides, at) <==> if at == place then affected else MarkedOn(r.overrides, at))
            && (if MarkedOn(r.overrides, place) == affected then r' == r
                else Edited(r, r', who, Title(r), now) && r'.covers == r.covers && |r.overrides| <= |r'.overrides|
                     && (forall i :: 0 <= i < |r'.overrides| && r'.overrides[i].place != place ==>
                           i < |r.overrides| && r'.overrides[i] == r.overrides[i])
                     && (forall i :: 0 <= i < |r'.overrides| && r'.overrides[i].place == place ==>
                           (affected ==> r'.overrides[i] == Override(place, Act(who, now), None))
                           && (!affected ==> i < |r.overrides| && ClearedAs(r.overrides[i], r'.overrides[i], Act(who, now)))))
  {
    RowsTell(r);
    var act, i, title := Act(who, now), FirstCleared(r.overrides, place), TitleOf(r.editions, r.editionID);
    var r' := MarkedAffected(r, who, place, affected, now);
    RowsTell(r');
    if Marked(r.overrides, place) != affected {
      var on := Override(place, act, None);
      var overrides := if !affected then Unmarked(r.overrides, place, act)
                       else if i < |r.overrides| then r.overrides[i := on] else r.overrides + [on];
      OpeningEdits(r.(overrides := overrides), who, title, now);
      assert r'.overrides == overrides;
      MarksMove(r.overrides, overrides, place, affected, act, i);
    }
  }

  /** The rows after marking or clearing a release. */
  lemma MarksMove(before: seq<Override>, after: seq<Override>, place: Place, affected: bool, act: Act, i: nat)
    requires forall j, k :: 0 <= j < k < |before| ==> before[j].place != before[k].place
    requires Marked(before, place) != affected && i == FirstCleared(before, place)
    requires after == if !affected then Unmarked(before, place, act)
                      else if i < |before| then before[i := Override(place, act, None)]
                      else before + [Override(place, act, None)]
    ensures forall at :: Marked(after, at) <==> if at == place then affected else Marked(before, at)
    ensures forall j :: 0 <= j < |after| && after[j].place == place ==>
      if affected then after[j] == Override(place, act, None) else j < |before| && ClearedAs(before[j], after[j], act)
  {
    var at' := if i < |before| then i else |before|;
    if affected {
      assert Marking(after[at'], place);
      forall j | 0 <= j < |after| && j != at' ensures after[j].place != place {
        if i < |before| {
          if j < i { assert before[j].place != before[i].place; } else { assert before[i].place != before[j].place; }
        } else {
          assert !Cleared(before[j], place) && !Marking(before[j], place);
        }
      }
    }
    forall at ensures Marked(after, at) <==> if at == place then affected else Marked(before, at) {
      if at != place && Marked(before, at) {
        var j :| 0 <= j < |before| && Marking(before[j], at);
        assert Marking(after[j], at);
      }
    }
  }

  /** Taking agreements back is refused exactly where none stands; otherwise every one standing is taken
      back, in this person's name, and nothing else changes. */
  lemma WithdrawingMeans(r: Record, who: nat, now: int)
    ensures Withdrawn(r, who, now) == Err(NothingAgreed) <==> NobodyAgrees(r)
    ensures Withdrawn(r, who, now).Ok? <==> !NobodyAgrees(r)
    ensures Withdrawn(r, who, now).Ok? ==>
      var r' := Withdrawn(r, who, now).value;
      r' == r.(approvals := r'.approvals) && AllTakenBack(r.approvals, r'.approvals, Act(who, now))
  {}

  /** A document goes out exactly when it was assembled against the edition in force and somebody
      agrees to that edition. One issuance is recorded, numbered next, of that edition, by this person
      now; what went out is the document assembled, dated now, its version one past the number and its
      history ending in an entry of that version, this date and what was said of it. The first freezes
      the date its document opens with. Nothing else changes. */
  lemma IssuingMeans(r: Record, doc: Document, against: Option<nat>, who: nat, summary: string, clock: int, now: int)
    requires Sound(r, clock)
    ensures var answer := Issued(r, doc, against, who, summary, now);
            && (answer.Ok? <==> against == r.editionID && !NobodyAgrees(r))
            && (answer.Err? ==> answer.error == NotAgreed)
            && (answer.Ok? ==>
                  && var r', n := answer.value, |r.issuances|;
                  && |r'.issuances| == n + 1 && r'.issuances[..n] == r.issuances
                  && r' == r.(issuances := r'.issuances, releasedFrom := r'.releasedFrom)
                  && r'.releasedFrom == (if r.releasedFrom == None then Some(doc.initialRelease) else r.releasedFrom)
                  && var one := r'.issuances[n];
                  && one.ordinal == n + 1 && one.edition == |r.editions| && one.issued == Act(who, now) && one.summary == summary
                  && one.document == Document(doc.title, doc.topics, doc.marks, doc.status, doc.initialRelease,
                                              now, n + 2, one.document.history)
                  && |one.document.history| == n + 2
                  && one.document.history[0] == Revision(1, doc.initialRelease, "Recorded in OpenPSIRT")
                  && (forall k :: 0 <= k < n ==> EntryOf(one.document.history[k + 1], r.issuances[k], k + 1))
                  && EntryOf(one.document.history[n + 1], one, n + 1))
  {
    hide History, Sound, NobodyAgrees, Agreed;
    AgreedMeans(r, clock);
    HistoryEnters(r, doc.initialRelease, clock);
  }

  lemma AgreedMeans(r: Record, clock: int)
    requires Sound(r, clock)
    ensures r.editionID == Some(|r.editions|) && (Agreed(r.approvals, |r.editions|) <==> !NobodyAgrees(r))
    ensures r.issuances != [] ==> r.issuances[|r.issuances| - 1].ordinal == |r.issuances|
  {
    if !NobodyAgrees(r) {
      var i :| 0 <= i < |r.approvals| && r.approvals[i].withdrawn.None?;
      assert ApprovalSound(r, r.approvals[i], clock);
      assert Stands(r.approvals[i], |r.editions|);
    }
  }

  lemma HistoryEnters(r: Record, recorded: int, clock: int)
    requires Sound(r, clock)
    ensures var history := History(recorded, r.issuances);
            && |history| == |r.issuances| + 1 && history[0] == Revision(1, recorded, "Recorded in OpenPSIRT")
            && forall k :: 0 <= k < |r.issuances| ==> EntryOf(history[k + 1], r.issuances[k], k + 1)
  {
    var history := History(recorded, r.issuances);
    forall k | 0 <= k < |r.issuances| ensures EntryOf(history[k + 1], r.issuances[k], k + 1) {
      assert history[k + 1] == RevisionOf(r.issuances[k]);
    }
  }

  /** The entry of a history for the issuance of this number: numbered one past it, dated the moment it
      went out, and saying what was said of it. */
  ghost predicate EntryOf(entry: Revision, one: Issuance, ordinal: nat) {
    && entry.number == ordinal + 1 && entry.date == one.issued.at
    && entry.summary == if one.summary == "" then "Issued" else one.summary
  }
}
