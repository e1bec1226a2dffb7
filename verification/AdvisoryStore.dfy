/** The acts on an advisory as the store performs them, changing its rows step by step; each is
    proved to make of the rows what Advisories says. */
module AdvisoryStore {
  import opened Common
  import opened Advisories
  import opened AdvisorySafety

  class AdvisoryRows {
    const mintedBy: nat
    var editionID: Option<nat>
    var releasedFrom: Option<int>
    var editions: seq<Edition>
    var approvals: seq<Approval>
    var covers: seq<Cover>
    var overrides: seq<Override>
    var issuances: seq<Issuance>

    function Contents(): Record
      reads this
    {
      Record(mintedBy, editionID, releasedFrom, editions, approvals, covers, overrides, issuances)
    }

    /** What the rows are after an act that answered with a record or a refusal. */
    ghost predicate Became(was: Record, outcome: Result<Record, Refusal>, answer: Result<(), Refusal>)
      reads this
    {
      match outcome
      case Ok(r) => answer.Ok? && Contents() == r
      case Err(refused) => answer == Err(refused) && Contents() == was
    }

    constructor Mint(who: nat, title: string, now: int)
      ensures Contents() == Minted(who, title, now)
      ensures Sound(Contents(), now)
    {
      mintedBy := who;
      editionID, releasedFrom := None, None;
      editions, approvals, covers, overrides, issuances := [], [], [], [], [];
      new;
      Open(who, title, now);
      MintingIsSound(who, title, now);
    }

    method Open(who: nat, title: string, now: int)
      modifies `editions, `editionID, `approvals
      ensures Contents() == OpenEdition(old(Contents()), who, title, now)
      ensures EditionsSound(old(Contents())) ==> Edited(old(Contents()), Contents(), who, title, now)
    {
      ghost var was := Contents();
      var highest := Highest(editions);
      editions := editions + [Edition(highest + 1, title, Act(who, now))];
      editionID := Some(highest + 1);
      approvals := TakenBack(approvals, Act(who, now));
      if EditionsSound(was) { OpeningEdits(was, who, title, now); }
    }

    method Retitle(who: nat, title: string, now: int)
      modifies `editions, `editionID, `approvals
      ensures Contents() == Retitled(old(Contents()), who, title, now)
    {
      Open(who, title, now);
    }

    method ReopenFor(who: nat, now: int)
      modifies `editions, `editionID, `approvals
      ensures Contents() == Reopen(old(Contents()), who, now)
    {
      var title := TitleOf(editions, editionID);
      Open(who, title, now);
    }

    method Add(who: nat, topic: Topic, now: int) returns (answer: Result<(), Refusal>)
      modifies `covers, `editions, `editionID, `approvals
      ensures Became(old(Contents()), Added(old(Contents()), who, topic, now), answer)
    {
      var i := RowOf(covers, topic);
      if i < |covers| && covers[i].removed.None? {
        return Err(AlreadyCovered);
      }
      if i < |covers| {
        covers := covers[i := covers[i].(removed := None, added := Act(who, now))];
      } else {
        covers := covers + [Cover(topic, Act(who, now), None)];
      }
      ReopenFor(who, now);
      answer := Ok(());
    }

    method Drop(who: nat, topic: Topic, now: int) returns (answer: Result<(), Refusal>)
      modifies `covers, `editions, `editionID, `approvals
      ensures Became(old(Contents()), Dropped(old(Contents()), who, topic, now), answer)
    {
      if !Covers(covers, topic) {
        return Err(NoSuchIssue);
      }
      covers := TakenOff(covers, topic, Act(who, now));
      ReopenFor(who, now);
      answer := Ok(());
    }

    method MarkAffected(who: nat, place: Place, affected: bool, now: int)
      modifies `overrides, `editions, `editionID, `approvals
      ensures Contents() == MarkedAffected(old(Contents()), who, place, affected, now)
    {
      var standing, revive, act := false, |overrides|, Act(who, now);
      for i := 0 to |overrides|
        invariant standing <==> exists j :: 0 <= j < i && Marking(overrides[j], place)
        invariant 0 <= revive < i || revive == |overrides|
        invariant revive < |overrides| ==> Cleared(overrides[revive], place)
        invariant forall j :: 0 <= j < i && j < revive ==> !Cleared(overrides[j], place)
      {
        if overrides[i].place == place {
          if overrides[i].removed.None? {
            standing := true;
            assert Marking(overrides[i], place);
          } else if revive == |overrides| {
            revive := i;
          }
        }
      }
      assert revive == FirstCleared(overrides, place);
      if standing == affected {
        return;
      }
      if affected && revive < |overrides| {
        overrides := overrides[revive := overrides[revive].(removed := None, marked := act)];
      } else if affected {
        overrides := overrides + [Override(place, act, None)];
      } else {
        overrides := Unmarked(overrides, place, act);
      }
      ReopenFor(who, now);
    }

    method Approve(who: nat, now: int) returns (answer: Result<(), Refusal>)
      modifies `approvals
      ensures Unaskable(old(Contents()), who).Some? ==>
        answer == Err(Unaskable(old(Contents()), who).value) && Contents() == old(Contents())
      ensures Unaskable(old(Contents()), who).None? ==>
        Became(old(Contents()), Approved(old(Contents()), who, now), answer)
    {
      if TopicsOf(covers) == [] || editionID.None? {
        return Err(NothingToSay);
      }
      if mintedBy == who {
        return Err(SamePerson);
      }
      var at := EditionOf(editions, editionID.value);
      if at.None? {
        return Err(Fault);
      }
      var edition := at.value;
      var written := UpTo(editions, edition.ordinal);
      var i := |written|;
      assert written[..i] == written;
      while i > 0
        invariant 0 <= i <= |written|
        invariant Wrote(written, edition.title, who) <==> Wrote(written[..i], edition.title, who)
      {
        var each := written[i - 1];
        assert written[..i][..i - 1] == written[..i - 1];
        if each.title != edition.title {
          break;
        }
        if each.written.who == who {
          return Err(SamePerson);
        }
        i := i - 1;
      }
      if AgreedBy(approvals, edition.ordinal, who) {
        return Err(AlreadyAgreed);
      }
      approvals := approvals + [Approval(edition.ordinal, Act(who, now), None)];
      answer := Ok(());
    }

    method Withdraw(who: nat, now: int) returns (answer: Result<(), Refusal>)
      modifies `approvals
      ensures Became(old(Contents()), Withdrawn(old(Contents()), who, now), answer)
      ensures (answer == Err(NothingAgreed) <==> old(NobodyAgrees(Contents()))) && NobodyAgrees(Contents())
    {
      if forall i :: 0 <= i < |approvals| ==> approvals[i].withdrawn.Some? {
        return Err(NothingAgreed);
      }
      approvals := TakenBack(approvals, Act(who, now));
      answer := Ok(());
    }

    /** The transaction that records a document went out. */
    method RecordIssuance(doc: Document, against: Option<nat>, who: nat, summary: string, now: int)
      returns (answer: Result<(), Refusal>)
      modifies `issuances, `releasedFrom
      ensures Became(old(Contents()), Issued(old(Contents()), doc, against, who, summary, now), answer)
    {
      if editionID.None? || against.None? || editionID.value != against.value {
        return Err(NotAgreed);
      }
      if !Agreed(approvals, editionID.value) {
        return Err(NotAgreed);
      }
      var gone := issuances;
      var ordinal := 1;
      if |gone| > 0 {
        ordinal := gone[|gone| - 1].ordinal + 1;
      }
      var out := IssuedDocument(doc, gone, ordinal, now, summary);
      if releasedFrom.None? {
        releasedFrom := Some(doc.initialRelease);
      }
      issuances := issuances + [Issuance(ordinal, editionID.value, out, summary, Act(who, now))];
      answer := Ok(());
    }
  }
}
