/** The rows of one advisory, and what each act on it makes of them. Each function below that answers
    a Record is one database transaction of internal/advisory (editorial.go, entity.go, statuses.go,
    issuance.go). An edition's row identifier stands as its ordinal, which is unique within the
    advisory; rows are listed in the order they were inserted. */
module Advisories {
  import opened Common
  import opened Sorting

  datatype Topic = Topic(product: nat, issue: nat)

  datatype Release = Release(branchOrTag: nat, variant: nat)

  datatype Place = Place(topic: Topic, release: Release)

  datatype Act = Act(who: nat, at: int)

  datatype Edition = Edition(ordinal: nat, title: string, written: Act)

  datatype Approval = Approval(edition: nat, given: Act, withdrawn: Option<Act>)

  datatype Cover = Cover(topic: Topic, added: Act, removed: Option<Act>)

  datatype Override = Override(place: Place, marked: Act, removed: Option<Act>)

  datatype Status = Draft | Final | Interim

  datatype Revision = Revision(number: nat, date: int, summary: string)

  /** What a document says that this model follows: its chosen title, the issues it covers in order
      with the releases marked affected under each, and its tracking. */
  datatype Document = Document(title: string, topics: seq<Topic>, marks: seq<set<Release>>, status: Status,
                               initialRelease: int, currentRelease: int, version: nat, history: seq<Revision>)

  datatype Issuance = Issuance(ordinal: nat, edition: nat, document: Document, summary: string, issued: Act)

  datatype Record = Record(mintedBy: nat, editionID: Option<nat>, releasedFrom: Option<int>,
                           editions: seq<Edition>, approvals: seq<Approval>,
                           covers: seq<Cover>, overrides: seq<Override>, issuances: seq<Issuance>)

  datatype Refusal = NotAgreed | SamePerson | AlreadyAgreed | NothingAgreed | NothingToSay
                   | AlreadyCovered | NoSuchIssue | Fault

  // ----- What an advisory says -----

  function LiveCovers(covers: seq<Cover>): seq<Cover> {
    if covers == [] then []
    else (if covers[0].removed.None? then [covers[0]] else []) + LiveCovers(covers[1..])
  }

  function ByAdded(): (Cover, Cover) -> bool {
    (a: Cover, b: Cover) => a.added.at <= b.added.at
  }

  function TopicOf(): Cover -> Topic {
    (c: Cover) => c.topic
  }

  /** What the advisory covers, in the order it was assembled. */
  function TopicsOf(covers: seq<Cover>): seq<Topic> {
    Mapped(Sort(LiveCovers(covers), ByAdded()), TopicOf())
  }

  lemma OnlyTopic(covers: seq<Cover>)
    requires |covers| == 1 && covers[0].removed.None?
    ensures TopicsOf(covers) == [covers[0].topic]
  {
    assert LiveCovers(covers) == covers;
    assert Sort(covers, ByAdded()) == covers;
  }

  /** The releases of one issue the advisory marks affected. */
  function MarksOn(overrides: seq<Override>, topic: Topic): set<Release> {
    set i | 0 <= i < |overrides| && overrides[i].place.topic == topic && overrides[i].removed.None? ::
      overrides[i].place.release
  }

  function EditionOf(editions: seq<Edition>, id: nat): Option<Edition> {
    if editions == [] then None
    else if editions[0].ordinal == id then Some(editions[0])
    else EditionOf(editions[1..], id)
  }

  /** The title the advisory carries: that of the edition it points at, or none. */
  function TitleOf(editions: seq<Edition>, editionID: Option<nat>): string {
    if editionID.None? then ""
    else
      var at := EditionOf(editions, editionID.value);
      if at.None? then "" else at.value.title
  }

  predicate Stands(a: Approval, edition: nat) {
    a.edition == edition && a.withdrawn.None?
  }

  /** An agreement stands on this edition. */
  predicate Agreed(approvals: seq<Approval>, edition: nat) {
    exists i :: 0 <= i < |approvals| && Stands(approvals[i], edition)
  }

  function StatusOf(issued: bool, agreed: bool): Status {
    if agreed then Final else if issued then Interim else Draft
  }

  // ----- Editions -----

  function Highest(editions: seq<Edition>): nat {
    if editions == [] then 0
    else
      var rest := Highest(editions[1..]);
      if rest < editions[0].ordinal then editions[0].ordinal else rest
  }

  /** Every agreement still standing, taken back. */
  function TakenBack(approvals: seq<Approval>, act: Act): (r: seq<Approval>)
    ensures |r| == |approvals|
    ensures forall i :: 0 <= i < |r| ==>
      r[i] == if approvals[i].withdrawn.None? then approvals[i].(withdrawn := Some(act)) else approvals[i]
  {
    seq(|approvals|, i requires 0 <= i < |approvals| =>
      if approvals[i].withdrawn.None? then approvals[i].(withdrawn := Some(act)) else approvals[i])
  }

  function OpenEdition(r: Record, who: nat, title: string, now: int): Record {
    var next := Highest(r.editions) + 1;
    r.(editions := r.editions + [Edition(next, title, Act(who, now))],
       editionID := Some(next),
       approvals := TakenBack(r.approvals, Act(who, now)))
  }

  /** An edition for a change that left the title alone. */
  function Reopen(r: Record, who: nat, now: int): Record {
    OpenEdition(r, who, TitleOf(r.editions, r.editionID), now)
  }

  function Minted(who: nat, title: string, now: int): Record {
    OpenEdition(Record(who, None, None, [], [], [], [], []), who, title, now)
  }

  function Retitled(r: Record, who: nat, title: string, now: int): Record {
    OpenEdition(r, who, title, now)
  }

  // ----- Coverage -----

  /** Where this topic's row is, or past the end. */
  function RowOf(covers: seq<Cover>, topic: Topic): (i: nat)
    ensures i <= |covers|
    ensures i < |covers| ==> covers[i].topic == topic
    ensures forall j :: 0 <= j < i ==> covers[j].topic != topic
  {
    if covers == [] || covers[0].topic == topic then 0 else 1 + RowOf(covers[1..], topic)
  }

  function Added(r: Record, who: nat, topic: Topic, now: int): Result<Record, Refusal> {
    var i, act := RowOf(r.covers, topic), Act(who, now);
    if i == |r.covers| then
      Ok(Reopen(r.(covers := r.covers + [Cover(topic, act, None)]), who, now))
    else if r.covers[i].removed.None? then
      Err(AlreadyCovered)
    else
      Ok(Reopen(r.(covers := r.covers[i := Cover(topic, act, None)]), who, now))
  }

  predicate Covering(c: Cover, topic: Topic) {
    c.topic == topic && c.removed.None?
  }

  function TakenOff(covers: seq<Cover>, topic: Topic, act: Act): (r: seq<Cover>)
    ensures |r| == |covers|
    ensures forall i :: 0 <= i < |r| ==>
      r[i] == if Covering(covers[i], topic) then covers[i].(removed := Some(act)) else covers[i]
  {
    seq(|covers|, i requires 0 <= i < |covers| =>
      if Covering(covers[i], topic) then covers[i].(removed := Some(act)) else covers[i])
  }

  predicate Covers(covers: seq<Cover>, topic: Topic) {
    exists i :: 0 <= i < |covers| && Covering(covers[i], topic)
  }

  function Dropped(r: Record, who: nat, topic: Topic, now: int): Result<Record, Refusal> {
    if Covers(r.covers, topic) then
      Ok(Reopen(r.(covers := TakenOff(r.covers, topic, Act(who, now))), who, now))
    else
      Err(NoSuchIssue)
  }

  // ----- Releases marked affected -----

  predicate Marking(o: Override, place: Place) {
    o.place == place && o.removed.None?
  }

  predicate Cleared(o: Override, place: Place) {
    o.place == place && o.removed.Some?
  }

  predicate Marked(overrides: seq<Override>, place: Place) {
    exists i :: 0 <= i < |overrides| && Marking(overrides[i], place)
  }

  /** The oldest cleared mark on this release, or past the end. */
  function FirstCleared(overrides: seq<Override>, place: Place): (i: nat)
    ensures i <= |overrides|
    ensures i < |overrides| ==> Cleared(overrides[i], place)
    ensures forall j :: 0 <= j < i ==> !Cleared(overrides[j], place)
  {
    if overrides == [] || Cleared(overrides[0], place) then 0 else 1 + FirstCleared(overrides[1..], place)
  }

  function Unmarked(overrides: seq<Override>, place: Place, act: Act): (r: seq<Override>)
    ensures |r| == |overrides|
    ensures forall i :: 0 <= i < |r| ==>
      r[i] == if Marking(overrides[i], place) then overrides[i].(removed := Some(act)) else overrides[i]
  {
    seq(|overrides|, i requires 0 <= i < |overrides| =>
      if Marking(overrides[i], place) then overrides[i].(removed := Some(act)) else overrides[i])
  }

  /** Asking for what already stands changes nothing and opens nothing. */
  function MarkedAffected(r: Record, who: nat, place: Place, affected: bool, now: int): Record {
    var act, i := Act(who, now), FirstCleared(r.overrides, place);
    if Marked(r.overrides, place) == affected then r
    else if affected && i < |r.overrides| then
      Reopen(r.(overrides := r.overrides[i := Override(place, act, None)]), who, now)
    else if affected then
      Reopen(r.(overrides := r.overrides + [Override(place, act, None)]), who, now)
    else
      Reopen(r.(overrides := Unmarked(r.overrides, place, act)), who, now)
  }

  // ----- Agreement -----

  /** The editions up to this one. */
  function UpTo(editions: seq<Edition>, ordinal: nat): seq<Edition> {
    if editions == [] then []
    else (if editions[0].ordinal <= ordinal then [editions[0]] else []) + UpTo(editions[1..], ordinal)
  }

  /** Walking back from the newest while the title stays the same, this person wrote one of them. */
  predicate Wrote(written: seq<Edition>, title: string, who: nat)
    decreases |written|
  {
    written != [] &&
    var newest := written[|written| - 1];
    newest.title == title && (newest.written.who == who || Wrote(written[..|written| - 1], title, who))
  }

  /** What approving asks before its transaction opens. */
  function Unaskable(r: Record, who: nat): Option<Refusal> {
    if TopicsOf(r.covers) == [] then Some(NothingToSay)
    else if r.editionID.None? then Some(NothingToSay)
    else if r.mintedBy == who then Some(SamePerson)
    else None
  }

  predicate AgreedBy(approvals: seq<Approval>, edition: nat, who: nat) {
    exists i :: 0 <= i < |approvals| && Stands(approvals[i], edition) && approvals[i].given.who == who
  }

  function Approved(r: Record, who: nat, now: int): Result<Record, Refusal> {
    if r.editionID.None? then Err(NothingToSay)
    else
      var at := EditionOf(r.editions, r.editionID.value);
      if at.None? then Err(Fault)
      else if Wrote(UpTo(r.editions, at.value.ordinal), at.value.title, who) then Err(SamePerson)
      else if AgreedBy(r.approvals, at.value.ordinal, who) then Err(AlreadyAgreed)
      else Ok(r.(approvals := r.approvals + [Approval(at.value.ordinal, Act(who, now), None)]))
  }

  function Withdrawn(r: Record, who: nat, now: int): Result<Record, Refusal> {
    if exists i :: 0 <= i < |r.approvals| && r.approvals[i].withdrawn.None? then
      Ok(r.(approvals := TakenBack(r.approvals, Act(who, now))))
    else
      Err(NothingAgreed)
  }

  // ----- Going out -----

  const RECORDED := "Recorded in OpenPSIRT"
  const UNISSUED := "Generated, not yet issued"

  function SummaryOrIssued(summary: string): string {
    if summary == "" then "Issued" else summary
  }

  function RevisionOf(one: Issuance): Revision {
    Revision(one.ordinal + 1, one.issued.at, SummaryOrIssued(one.summary))
  }

  function History(initial: int, gone: seq<Issuance>): (r: seq<Revision>)
    ensures |r| == |gone| + 1
    ensures r[0] == Revision(1, initial, RECORDED)
    ensures forall i :: 0 <= i < |gone| ==> r[i + 1] == RevisionOf(gone[i])
  {
    [Revision(1, initial, RECORDED)] + seq(|gone|, i requires 0 <= i < |gone| => RevisionOf(gone[i]))
  }

  /** The history of a document in hand, which names itself once something has gone out before. */
  function Revisions(initial: int, gone: seq<Issuance>, now: int): seq<Revision> {
    History(initial, gone) + if gone == [] then [] else [Revision(|gone| + 2, now, UNISSUED)]
  }

  function IssuedDocument(doc: Document, gone: seq<Issuance>, ordinal: nat, now: int, summary: string): Document {
    doc.(version := ordinal + 1, currentRelease := now,
         history := History(doc.initialRelease, gone) + [Revision(ordinal + 1, now, SummaryOrIssued(summary))])
  }

  /** The transaction that records a document went out. The document was assembled before it opened,
      against the edition the advisory pointed at then. */
  function Issued(r: Record, doc: Document, against: Option<nat>, who: nat, summary: string, now: int)
    : Result<Record, Refusal>
  {
    if r.editionID.None? || against.None? || r.editionID != against then Err(NotAgreed)
    else if !Agreed(r.approvals, r.editionID.value) then Err(NotAgreed)
    else
      var ordinal := if r.issuances == [] then 1 else r.issuances[|r.issuances| - 1].ordinal + 1;
      var out := IssuedDocument(doc, r.issuances, ordinal, now, summary);
      Ok(r.(issuances := r.issuances + [Issuance(ordinal, r.editionID.value, out, summary, Act(who, now))],
            releasedFrom := if r.releasedFrom.None? then Some(doc.initialRelease) else r.releasedFrom))
  }
}
