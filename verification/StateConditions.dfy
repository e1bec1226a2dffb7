/** Where a code finding stands, as the expression that reads it and as the conditions that filter by
    it (internal/analysis/state.go). Tables are lists of rows; a query's set of identifiers is a set. */
module StateConditions {
  import opened Common
  import opened Sorting

  // A state is a word, and three of the words are what a decision answers.
  const DISMISSED := "dismissed"
  const NOT_SECURITY := "not-security"
  const CONFIRMED := "confirmed"
  const ANSWERS := {DISMISSED, NOT_SECURITY, CONFIRMED}

  const OPEN := "open"
  const NO_LONGER_DETECTED := "no-longer-detected"
  const FIXED := "fixed"
  const RECORDED_AS_FLAW := "recorded-as-flaw"
  const STATES := {OPEN, NO_LONGER_DETECTED, FIXED, DISMISSED, NOT_SECURITY, CONFIRMED, RECORDED_AS_FLAW}

  datatype Finding = Finding(id: nat, product: nat, issue: nat, occurrence: string,
                             closed: bool, codeFinding: bool, absent: bool)

  datatype Approval = Proposed | Approved | OtherState

  /** A decision at an occurrence, with the outcome of the decision it belongs to. */
  datatype Decision = Decision(product: nat, issue: nat, occurrence: string, live: bool, state: Approval,
                               needsApproval: bool, sentBack: bool, outcome: string)

  /** The tables: the findings, the decisions, the occurrences recorded as flaws in a product, and the
      findings a suppression rule of a product covers. */
  datatype Tables = Tables(findings: seq<Finding>, decisions: seq<Decision>,
                           flaws: set<(nat, string)>, covered: set<(nat, nat)>)

  /** The product a statement compares with: one bound as a value, or each row's own. */
  datatype Bound = One(product: nat) | Each

  function ProductOf(b: Bound, f: Finding): nat {
    if b.One? then b.product else f.product
  }

  predicate Answers(d: Decision) {
    d.state == Approved || (!d.needsApproval && !d.sentBack)
  }

  predicate Waits(d: Decision) {
    d.state == Proposed && d.needsApproval && !d.sentBack
  }

  predicate At(d: Decision, product: nat, f: Finding) {
    d.product == product && d.live && d.issue == f.issue && d.occurrence == f.occurrence
  }

  function Greater(a: Option<string>, word: string): Option<string> {
    if a.None? || StringLe(a.value, word) then Some(word) else a
  }

  /** The outcome last by name of the decisions standing at the finding's occurrence, or none. */
  function StandingOutcome(decisions: seq<Decision>, product: nat, f: Finding): (o: Option<string>)
    ensures o.Some? <==> exists i :: 0 <= i < |decisions| && At(decisions[i], product, f) && Answers(decisions[i])
    ensures o.Some? ==>
      exists i :: 0 <= i < |decisions| && At(decisions[i], product, f) && Answers(decisions[i]) && decisions[i].outcome == o.value
    decreases |decisions|
  {
    if decisions == [] then None
    else
      var n := |decisions| - 1;
      var before := StandingOutcome(decisions[..n], product, f);
      assert forall i :: 0 <= i < n ==> decisions[..n][i] == decisions[i];
      if At(decisions[n], product, f) && Answers(decisions[n]) then Greater(before, decisions[n].outcome) else before
  }

  /** MAX reads the words by name. */
  lemma {:induction false} StandingOutcomeIsLast(decisions: seq<Decision>, product: nat, f: Finding, i: nat)
    requires i < |decisions| && At(decisions[i], product, f) && Answers(decisions[i])
    ensures StringLe(decisions[i].outcome, StandingOutcome(decisions, product, f).value)
  {
    var n := |decisions| - 1;
    var before, last := StandingOutcome(decisions[..n], product, f), StandingOutcome(decisions, product, f).value;
    StringLeTotal(last, last);
    if i < n {
      StandingOutcomeIsLast(decisions[..n], product, f, i);
      StringLeTotal(before.value, decisions[n].outcome);
      if StringLe(before.value, last) { StringLeTransitive(decisions[i].outcome, before.value, last); }
    } else if before.Some? {
      StringLeTotal(before.value, decisions[n].outcome);
    }
  }

  predicate FlawIn(t: Tables, b: Bound, f: Finding) {
    (ProductOf(b, f), f.occurrence) in t.flaws
  }

  predicate RuledIn(t: Tables, b: Bound, f: Finding) {
    (ProductOf(b, f), f.id) in t.covered
  }

  /** The expression: a flaw record after a closure and before the rest, a standing decision before a
      suppression rule, a rule before absence. Whether a decision stands is asked as given. */
  function DecidedBy(t: Tables, b: Bound, f: Finding, decided: bool): string
    requires decided ==> StandingOutcome(t.decisions, ProductOf(b, f), f).Some?
  {
    if f.closed then FIXED
    else if FlawIn(t, b, f) then RECORDED_AS_FLAW
    else if decided then StandingOutcome(t.decisions, ProductOf(b, f), f).value
    else if RuledIn(t, b, f) then DISMISSED
    else if f.absent then NO_LONGER_DETECTED
    else OPEN
  }

  function StateOf(t: Tables, b: Bound, f: Finding): string {
    DecidedBy(t, b, f, StandingOutcome(t.decisions, ProductOf(b, f), f).Some?)
  }

  // ----- The conditions -----

  /** The products a statement covers, and the product its conditions compare with. */
  datatype Scope = Scope(products: set<nat>, bound: Bound)

  predicate Covers(s: Scope, f: Finding) {
    f.product in s.products && (s.bound.One? ==> s.products == {s.bound.product})
  }

  predicate Reads(d: Decision, waiting: bool) {
    if waiting then Waits(d) else Answers(d)
  }

  predicate Decides(d: Decision, s: Scope, f: Finding, waiting: bool) {
    && d.product in s.products && At(d, f.product, f) && Reads(d, waiting)
    && !f.closed && f.codeFinding
  }

  /** The open code findings that a decision of their own product reaches, read from the decisions. */
  function DecidedIn(t: Tables, s: Scope, waiting: bool): set<nat> {
    set i, j | 0 <= i < |t.decisions| && 0 <= j < |t.findings| && Decides(t.decisions[i], s, t.findings[j], waiting) ::
      t.findings[j].id
  }

  predicate OutcomeIs(t: Tables, b: Bound, f: Finding, o: string) {
    StandingOutcome(t.decisions, ProductOf(b, f), f) == Some(o)
  }

  predicate InState(t: Tables, s: Scope, f: Finding, want: string) {
    var b := s.bound;
    if want == FIXED then f.closed
    else if f.closed then false
    else if want == RECORDED_AS_FLAW then FlawIn(t, b, f)
    else if FlawIn(t, b, f) then false
    else if want == DISMISSED then
      OutcomeIs(t, b, f, DISMISSED) || (f.id !in DecidedIn(t, s, false) && RuledIn(t, b, f))
    else if want == NOT_SECURITY || want == CONFIRMED then OutcomeIs(t, b, f, want)
    else if want == NO_LONGER_DETECTED then f.id !in DecidedIn(t, s, false) && !RuledIn(t, b, f) && f.absent
    else if want == OPEN then f.id !in DecidedIn(t, s, false) && !RuledIn(t, b, f) && !f.absent
    else false
  }

  predicate NotFixed(f: Finding) {
    !f.closed
  }

  // ----- The conditions mean the expression -----

  ghost predicate OneRowEach(findings: seq<Finding>) {
    forall i, j :: 0 <= i < |findings| && 0 <= j < |findings| && findings[i].id == findings[j].id ==>
      findings[i] == findings[j]
  }

  /** A row a statement in this scope reads. */
  ghost predicate Listed(t: Tables, s: Scope, f: Finding) {
    OneRowEach(t.findings) && f in t.findings && Covers(s, f) && f.codeFinding
  }

  /** A decision at the finding's occurrence in a product that answers: agreed to, or waiting on nobody
      and not sent back. */
  ghost predicate StandsAt(d: Decision, product: nat, f: Finding) {
    && d.product == product && d.live && d.issue == f.issue && d.occurrence == f.occurrence
    && (d.state == Approved || (!d.needsApproval && !d.sentBack))
  }

  /** One there that waits on a second person. */
  ghost predicate WaitsAt(d: Decision, product: nat, f: Finding) {
    && d.product == product && d.live && d.issue == f.issue && d.occurrence == f.occurrence
    && d.state == Proposed && d.needsApproval && !d.sentBack
  }

  ghost predicate BearsOn(d: Decision, product: nat, f: Finding, waiting: bool) {
    if waiting then WaitsAt(d, product, f) else StandsAt(d, product, f)
  }

  lemma ReadingIs(d: Decision, product: nat, f: Finding)
    ensures At(d, product, f) && Answers(d) <==> StandsAt(d, product, f)
    ensures At(d, product, f) && Waits(d) <==> WaitsAt(d, product, f)
    ensures At(d, product, f) && Reads(d, false) <==> StandsAt(d, product, f)
    ensures At(d, product, f) && Reads(d, true) <==> WaitsAt(d, product, f)
  {}

  /** What the expression yields, of the rows themselves: fixed where closed; then a recorded flaw; then
      the word, last by name, of the decisions standing there; then dismissed by rule; then absent; then
      open. */
  lemma StateMeans(t: Tables, b: Bound, f: Finding)
    ensures var product := if b.One? then b.product else f.product;
            var state := StateOf(t, b, f);
            && (f.closed ==> state == "fixed")
            && (!f.closed && (product, f.occurrence) in t.flaws ==> state == "recorded-as-flaw")
            && (!f.closed && (product, f.occurrence) !in t.flaws ==>
                  (forall i :: 0 <= i < |t.decisions| && StandsAt(t.decisions[i], product, f) ==>
                     StringLe(t.decisions[i].outcome, state)
                     && exists j :: 0 <= j < |t.decisions| && StandsAt(t.decisions[j], product, f) && t.decisions[j].outcome == state)
                  && ((forall i :: 0 <= i < |t.decisions| ==> !StandsAt(t.decisions[i], product, f)) ==>
                        state == if (product, f.id) in t.covered then "dismissed"
                                 else if f.absent then "no-longer-detected" else "open"))
  {
    hide StringLe;
    var product := ProductOf(b, f);
    forall i | 0 <= i < |t.decisions|
      ensures At(t.decisions[i], product, f) && Answers(t.decisions[i]) <==> StandsAt(t.decisions[i], product, f)
    {
      ReadingIs(t.decisions[i], product, f);
    }
    forall i | 0 <= i < |t.decisions| && StandsAt(t.decisions[i], product, f)
      ensures StringLe(t.decisions[i].outcome, StandingOutcome(t.decisions, product, f).value)
    {
      StandingOutcomeIsLast(t.decisions, product, f, i);
    }
  }

  /** Asking by set is asking of the row: an open code finding is in the set exactly when a decision
      of its own product stands, or waits, at its occurrence. */
  lemma DecidedInIsPerRow(t: Tables, s: Scope, f: Finding, waiting: bool)
    requires Listed(t, s, f)
    ensures f.id in DecidedIn(t, s, waiting) <==>
      !f.closed && exists i :: 0 <= i < |t.decisions| && BearsOn(t.decisions[i], f.product, f, waiting)
  {
    forall i | 0 <= i < |t.decisions|
      ensures At(t.decisions[i], f.product, f) && Reads(t.decisions[i], waiting)
        <==> BearsOn(t.decisions[i], f.product, f, waiting)
    {
      ReadingIs(t.decisions[i], f.product, f);
    }
    if f.id in DecidedIn(t, s, waiting) {
      var i, j :| 0 <= i < |t.decisions| && 0 <= j < |t.findings|
               && Decides(t.decisions[i], s, t.findings[j], waiting) && t.findings[j].id == f.id;
      assert t.findings[j] == f;
    }
    if !f.closed && exists i :: 0 <= i < |t.decisions| && At(t.decisions[i], f.product, f) && Reads(t.decisions[i], waiting) {
      var i :| 0 <= i < |t.decisions| && At(t.decisions[i], f.product, f) && Reads(t.decisions[i], waiting);
      var j :| 0 <= j < |t.findings| && t.findings[j] == f;
      assert Decides(t.decisions[i], s, t.findings[j], waiting);
    }
  }

  /** Reading the state with the set is reading it row by row. */
  lemma StoodIsStateOf(t: Tables, s: Scope, f: Finding)
    requires Listed(t, s, f)
    ensures f.id in DecidedIn(t, s, false) ==> StandingOutcome(t.decisions, ProductOf(s.bound, f), f).Some?
    ensures DecidedBy(t, s.bound, f, f.id in DecidedIn(t, s, false)) == StateOf(t, s.bound, f)
  {
    DecidedInIsPerRow(t, s, f, false);
    var o := StandingOutcome(t.decisions, ProductOf(s.bound, f), f);
    forall i | 0 <= i < |t.decisions| ensures Reads(t.decisions[i], false) <==> Answers(t.decisions[i]) {}
  }

  /** A decision standing at the row says a word that is no answer. */
  predicate Misanswered(t: Tables, b: Bound, f: Finding) {
    var o := StandingOutcome(t.decisions, ProductOf(b, f), f);
    !f.closed && !FlawIn(t, b, f) && o.Some? && o.value !in ANSWERS
  }

  /** Filtering by a state is testing the expression for it, for every state and every row, exactly
      unless a decision standing at the row answers with that state's word, and it is no answer. */
  lemma InStateIsStateOf(t: Tables, s: Scope, f: Finding, want: string)
    requires Listed(t, s, f) && want in STATES
    ensures (InState(t, s, f, want) <==> StateOf(t, s.bound, f) == want)
      <==> !(Misanswered(t, s.bound, f) && OutcomeIs(t, s.bound, f, want))
    ensures Misanswered(t, s.bound, f) ==> !InState(t, s, f, want)
  {
    StoodIsStateOf(t, s, f);
    DecidedInIsPerRow(t, s, f, false);
    forall i | 0 <= i < |t.decisions| ensures Reads(t.decisions[i], false) <==> Answers(t.decisions[i]) {}
  }

  /** The states share out the rows: each is in exactly one of the seven, exactly when no decision
      standing at it, open and recorded as no flaw, says anything but an answer; and not-fixed is the
      other six. */
  lemma StatesPartitionExactlyWhen(t: Tables, s: Scope, f: Finding)
    requires Listed(t, s, f)
    ensures (exists want :: want in STATES && InState(t, s, f, want)) <==> !Misanswered(t, s.bound, f)
    ensures forall a, b :: a in STATES && b in STATES && InState(t, s, f, a) && InState(t, s, f, b) ==> a == b
    ensures (exists want :: want in STATES - {FIXED} && InState(t, s, f, want))
            <==> NotFixed(f) && !Misanswered(t, s.bound, f)
  {
    forall want | want in STATES
      ensures InState(t, s, f, want) <==> !Misanswered(t, s.bound, f) && StateOf(t, s.bound, f) == want
    {
      InStateIsStateOf(t, s, f, want);
    }
    var state := StateOf(t, s.bound, f);
    if !Misanswered(t, s.bound, f) {
      StateIsNamed(t, s, f);
      assert InState(t, s, f, state);
    }
  }

  lemma StateIsNamed(t: Tables, s: Scope, f: Finding)
    requires !Misanswered(t, s.bound, f)
    ensures StateOf(t, s.bound, f) in STATES
    ensures StateOf(t, s.bound, f) == FIXED <==> f.closed
  {}

  /** What nobody is waiting to agree to, asked by set or of the row. */
  lemma NotWaitingIsPerRow(t: Tables, s: Scope, f: Finding)
    requires Listed(t, s, f) && !f.closed
    ensures f.id !in DecidedIn(t, s, true) <==>
      forall i :: 0 <= i < |t.decisions| ==> !WaitsAt(t.decisions[i], f.product, f)
  {
    DecidedInIsPerRow(t, s, f, true);
  }
}
