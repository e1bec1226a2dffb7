# OpenPSIRT, modelled

OpenPSIRT keeps what an organization's scanners and analyzers report about its products, what people
decide about it, and the security advisories it publishes. This project models the parts of it whose
promises are hardest to see by reading one function, and proves them for every input, every run or
every interleaving. `dafny verify dfyconfig.toml` checks all of it.

The model follows five components.

**Matching.** An analyzer run's results are paired one to one with the code findings a build holds
open, on the whole key, then the function, then the nearest line (`Layers`, `LayersImperative`,
`Keys`, `Prints`). `LayersTheorems` and `LayersOffers` prove what the layers promise, `LayersOrder` that
the order of reading does not matter, `Receipts` that a receipt accounts for every result and every
finding, and `Rerun` that running the same results again pairs everything on the whole key.

**Advisories.** `Advisories` says what each act makes of an advisory's rows, one function to a
transaction; `AdvisoryStore` performs the acts in place and is proved against it. `AdvisoryRuns` takes
whole runs in which editing, agreeing and issuing interleave, the reads an issuing call makes before
its transaction being events of their own. `AdvisorySafety`, `RevisionHistory`, `CoverageRecord` and
`AdvisoryLimits` hold what is promised, and runs that show where a promise made in a comment fails.
`Documents` and its companions assemble what a document states, `DocumentLaws` says what that is of
each release in its own fields, and `ProductTree` when the tree it defines names every release as itself.

**Identity and roles.** `Identities`, `IdentityRuns` and `IdentityStore` model names authorized in
advance and pinned to provider identifiers, again with every statement an event. `Modes` and
`ModesStore` model administration and grants derived from groups, and switching between modes.
`GroupRoles` and its companions model the variable that maps groups to roles, written and read back,
and exactly when an entry somebody typed is read.

**Reading.** `Subjects`, `Reading` and `Tokens` model who may read what: asked of a subject, of the
grant tables, of a narrowed query and of a token. `StateConditions` and `Corroboration` prove that the
set and window forms of the queue's queries mean the simple rules.

**Precision.** `Precision` models the tally of what was said of each code finding and its listing.

Modelling conventions: a database transaction is one step over lists or sets of rows, and a lost race
that is retried whole is the step taken later; the clock never goes back; an SHA-256 digest stands as
what it is of; the finding a flaw is dated from is recorded once and for all; a map is read in an
arbitrary order; text is a sequence of characters of which ASCII is folded and trimmed; identifiers and
lines are unbounded integers. A sort stands as an insertion sort,
since a sorted permutation under an order that ties nothing is unique (`Sorting.SortUnique`).

## Where the code and its comments differ

The model follows the code. Each difference is a lemma with the input or the run that shows it, beside
the exact condition under which the comment is right.

- The bytes that go out say final (editorial.go:484-503): `AdvisoryLimits.DraftsGoOut`,
  `AdvisoryLimits.GoesOutFinalExactlyWhen`.
- An advisory covering nothing cannot be agreed to (editorial.go:239-241):
  `AdvisoryLimits.AgreementCanStandOverNothing`, `AdvisoryLimits.AgreesOverNothingExactlyWhen`.
- Whoever wrote what an advisory says may not agree to it (editorial.go:30-31):
  `AdvisoryLimits.AuthorOfTheCoverageMayAgree`, `AdvisoryLimits.CoverAuthorAgreesExactlyWhen`.
- What was covered at any moment is recoverable from when each issue was added and taken off
  (editorial.go:46-49): `CoverageRecord.TheRecordDoesNotSay`, `CoverageRecord.RowsRecoverExactlyWhen`.
- A branch or tag and a variant together name one release (release.go:104-107):
  `DocumentsTheorems.ColonsCanContradict`, `DocumentsTheorems.SharedExactlyWhen` within a product;
  `ProductTree.ColonsCanMisplace`, `ProductTree.SharedAcrossExactlyWhen` and
  `ProductTree.DefinedAsItselfExactlyWhen` across the products a document covers.
- The mappings read from the variable hold each once (mapping.go:95-96): `GroupRolesOnce.ZeroBytesCanTie`,
  `GroupRolesOnce.ZeroBytesCanBeTyped`, `GroupRolesOnce.EachOnceExactlyWhen`.

## Model

| member | source | states |
|---|---|---|
| LayersImperative.Layered | internal/analysis/layers.go:65-178 | The queues, flags and pointers, run in the order the code runs them, list exactly the pairings the layers define, by result |
| LayersImperative.RunKeyLayer | internal/analysis/layers.go:92-111 | Popping one queue per key, result by result, leaves the marks the key layer defines |
| LayersImperative.RunUnique | internal/analysis/layers.go:180-203 | Whatever order the map gives its keys in, exactly the results and code findings alone on their unprinted key are paired |
| LayersImperative.Offer | internal/analysis/layers.go:135-157 | The two pointers walking outwards offer what the window defines, with each offer's distance and rank |
| LayersImperative.TakeClosest | internal/analysis/layers.go:169-175 | Taking pairs closest first, skipping what is taken, leaves the marks of the greedy pass |
| LayersImperative.Pair | internal/analysis/layers.go:50-54 | A run under unchanged fingerprints is matched without the unique layer: no result and no code finding twice, each pair on a key both hold |
| LayersImperative.PairAcross | internal/analysis/layers.go:56-63 | A run across a fingerprint change is matched with it, as one to one and on keys as shared |
| LayersTheorems.OrderIsOrder | internal/analysis/layers.go:70-79 | The order candidates are taken in is all of them, each once, those the last run saw first and older first among them |
| LayersTheorems.KeyLayerAligns | internal/analysis/layers.go:91-110 | Under each key of a layer the j-th result left is paired with the j-th candidate left, as far as the shorter list goes, and nothing else is |
| LayersTheorems.MatchedSound | internal/analysis/layers.go:38-49 | No result and no code finding is paired twice, and both hold the key of the layer they are paired on |
| LayersTheorems.WindowNearest | internal/analysis/layers.go:139-151 | The two pointers take as many candidates as they may, each once, never one further from the line than one left |
| LayersTheorems.OffersNearest | internal/analysis/layers.go:113-158 | Each result left is offered exactly its nearest eight of the candidates left on its line key, or all of them where there are fewer |
| LayersOffers.OffersFirst | internal/analysis/layers.go:126-151 | And ties and all exactly the first eight: nearer first, of those as near the one before the line, and on one line the later in the order before it, the earlier past it |
| LayersOffers.UniquePairsTheLone | internal/analysis/layers.go:180-203 | A result and a candidate are paired across a fingerprint change exactly where each is the only one left holding their unprinted key; what was paired stays |
| LayersTheorems.GreedyStable | internal/analysis/layers.go:159-175 | Every pair the greedy pass skips was blocked before it, or shares its result or candidate with a pair chosen no later in the order |
| LayersTheorems.LineLayerStable | internal/analysis/layers.go:113-175 | Every pair offered and not chosen shares its result or candidate with a pair chosen before it: fewer lines apart, or as many and the candidate earlier in the order, or the same candidate and the result no later |
| LayersTheorems.LoneResultTakesNearest | internal/analysis/layers.go:113-175 | The one result left under a line key is paired, where a candidate is left under it, with one no other is nearer than |
| LayersTheorems.LineLayerPairs | internal/analysis/layers.go:113-175 | With no bound at all, the line layer adds per line key at least the least of results left, candidates left and eight, and at most the lesser of the first two |
| LayersTheorems.MatchingCardinality | internal/analysis/layers.go:65-178 | Where at most eight results or eight candidates of a line key reach the line layer, as many are paired in all as the key holds results or candidates, whichever is fewer |
| LayersTheorems.MatchingTotal | internal/analysis/layers.go:65-178 | Where that holds of every line key, the pairs made in all are the sum over line keys of the fewer of its results and candidates |
| LayersOrder.MatchingIgnoresOrder | internal/analysis/layers.go:44-50 | Reading the same candidates in another order pairs each result with the same code finding on the same layer |
| Keys.DigestShared | internal/analysis/key.go:133-142 | A list of parts shares its digest with another list of its length exactly when it has two parts or more and one of them holds a zero byte |
| Keys.EqualKeys | internal/analysis/key.go:112-142 | Equal keys of any layer are of one rule, path and message and so of one line key, and equal whole keys agree on everything they digest, whatever bytes the path holds, since the reader of documents strips zero bytes from every other part |
| Keys.KeysEqualExactlyWhen | internal/analysis/key.go:112-131 | Each of the four keys is equal exactly where the results agree on what it is of: rule, path and message; with the function; with function and chain; and with the fingerprint, or the line where there is none |
| Keys.BuiltKeysNest | internal/analysis/key.go:117-131 | Keys built so nest as the layers rely on, for any findings and any results, zero bytes in their paths included |
| Keys.WithoutDigits | internal/analysis/key.go:48-70 | The loop over a message computes its digit-free, space-collapsed form |
| Keys.StrippedIsClean | internal/analysis/key.go:48-70 | What is left holds no digit and only single spaces between words |
| Keys.StrippedTwice | internal/analysis/key.go:48-70 | Stripping again changes nothing |
| Keys.DigitsDoNotMatter | internal/analysis/key.go:48-51 | A number quoted in a message may change in any way and the key does not move |
| Prints.Fingerprint | internal/analysis/key.go:27-46 | The fingerprint chosen is the first known scheme carried, else the first by name, whatever order the map is read in, and none exactly where none is carried |
| Prints.PreferredIsOne | internal/analysis/key.go:17-46 | There is one such fingerprint |
| Prints.PreferredMeans | internal/analysis/key.go:17-46 | The client's own scheme is preferred, then the known ones in the order stated |
| Prints.Chain | internal/analysis/key.go:72-86 | The chain joins the functions passed in order, none empty and no two neighbours alike |
| Prints.NamesAreOne | internal/analysis/key.go:72-86 | There is one such list of functions for the steps of a path |
| Prints.PrintsOf | internal/analysis/apply.go:553-583 | What is stored is a run's schemes, or none, and its salts, each once, sorted and joined by commas; nothing for a run that reported nothing |
| Prints.PrintsIgnoreOrder | internal/analysis/apply.go:553-583 | Two runs whose results carry the same schemes under the same salts store the same text, whatever order and number of results carried them |
| Prints.PrintedAlikeExactlyWhen | internal/analysis/apply.go:553-583 | Two runs that reported something store the same text exactly when the same pieces stand between the commas of their sorted marks |
| Prints.PrintsTellMarksApart | internal/analysis/apply.go:553-583 | Without commas in schemes and salts the texts are equal exactly when the marks are; and only a run that reported nothing stores nothing |
| Prints.CommasHideChanges | internal/analysis/apply.go:553-583 | In runs without salts, a scheme named with a comma stores the text of the two schemes around it, for any two in name order |
| Receipts.MatchRun | internal/analysis/match.go:87-150 | Every result is paired or new and every live or returned finding is seen or missed: new and matched add up to the results, and live with returned to matched with missed |
| Receipts.FilePairs | internal/analysis/match.go:115-131 | Each pairing is filed under the one finding it names, with the layer it was made on |
| Receipts.ComparedTo | internal/analysis/apply.go:484-519 | Of the findings missed, exactly those whose last run this one is comparable to are kept, in order; the runs read are exactly those that last saw one, each read once |
| Receipts.HeldOpen.Apply | internal/analysis/apply.go:365-457 | Opened plus Seen is the number of results, and on a comparable run live open plus Returned is Seen plus NoLongerDetected plus Uncompared. Live afterwards is live before with opened and returned and without those no longer detected; what was seen is described again, and what was not is absent exactly if it was or the run is comparable and its last run had the same parameters |
| Receipts.OfferedAsDescribed | internal/analysis/match.go:87-131 | Matching is offered each finding on the keys and at the line it was last described by, zero where none was stated |
| Receipts.PairedAlike | internal/analysis/match.go:87-131 | A result is paired with a finding last described alike on the key of the layer |
| Rerun.RunAgain | internal/analysis/apply.go:273-457 | Applying any permutation of a run's results to exactly what it left open pairs every one on the whole key, opens and returns nothing, and misses nothing exactly when the run let go of all it did not see |
| StateConditions.InStateIsStateOf | internal/analysis/state.go:95-132 | Filtering by a state keeps exactly the rows whose state expression yields it, for every state, row and table, exactly unless a standing decision answers with that state's word and it is no answer |
| StateConditions.StateMeans | internal/analysis/state.go:83-93 | Of the rows: fixed where closed, then a recorded flaw, then the word last by name of the decisions that stand there, then dismissed by rule, absent, open |
| StateConditions.StoodIsStateOf | internal/analysis/state.go:76-93 | Asking whether a decision stands by set gives the state that asking row by row gives |
| StateConditions.StatesPartitionExactlyWhen | internal/analysis/state.go:34-41 | The seven states share out every row, exactly unless a standing decision answers in none of the three words; not-fixed is the other six |
| StateConditions.StandingOutcomeIsLast | internal/analysis/state.go:43-53 | The standing outcome is the last by name of those decisions answer with |
| StateConditions.DecidedInIsPerRow | internal/analysis/state.go:157-190 | The set of decided code findings holds an open one exactly when a decision of its own product stands, or waits, at its occurrence |
| StateConditions.NotWaitingIsPerRow | internal/analysis/state.go:134-141 | Nobody is waited on, asked by set or of the row |
| Corroboration.WindowIsPairwise | internal/analysis/group.go:52-104 | The windowed set is the pairwise rule: a listed row whose window's first or last open tool differs has another analyzer's open finding within two lines in a shared family, and conversely |
| Corroboration.EndsDiffer | internal/analysis/group.go:68-72 | First or last differs from a tool exactly when some tool does |
| Corroboration.ReopenedIsPairwise | internal/analysis/queue.go:563-587 | A closed code finding is told open again exactly when an open one of its occurrence is on its build |
| Precision.Tally | internal/analysis/precision.go:122-164 | Folding the rows in any map order leaves, for every series and every rule, exactly the number of its occurrences in each count |
| Precision.GatheredTells | internal/analysis/precision.go:122-142 | What is gathered of an occurrence is what its rows say, open, closed, covered and recorded as a flaw |
| Precision.GatheredWhateverTheOrder | internal/analysis/precision.go:122-142 | The rows may come in any order |
| Precision.CountMeans | internal/analysis/precision.go:17-47 | An occurrence is counted by what was said of it, else confirmed where recorded as a flaw, else fixed where closed and not open, else ruled, else unjudged |
| Precision.CountsShareOut | internal/analysis/precision.go:17-47 | Each code finding is in one count alone: judged and unjudged add up to the occurrences, and noise is part of the judged |
| Precision.CrossMultiplyingComparesShares | internal/analysis/precision.go:176-181 | Comparing without division compares the shares |
| Precision.NoisiestMeans | internal/analysis/precision.go:176-189 | Listed first is the greater share of dismissed, harmless and ruled among all judged, then more judged, then the name |
| Precision.NoisiestIsAnOrder | internal/analysis/precision.go:176-189 | The listing order is a total order on all rows |
| Precision.ListByRule | internal/analysis/precision.go:165-189 | Exactly the rules with something judged are listed, each once, the noisiest first |
| Precision.ListedWhateverTheOrder | internal/analysis/precision.go:171-189 | The list is the same whatever order the map gave its rows in |
| AdvisorySafety.WroteIsAuthor | internal/advisory/editorial.go:276-296 | Walking back while the title stays the same meets exactly the authors of the unbroken run of editions carrying it |
| AdvisorySafety.AgreeingMeans | internal/advisory/editorial.go:262-318 | Agreeing is refused to exactly the authors of the words standing and to whoever has an agreement standing on this edition; otherwise one agreement is added on the edition in force |
| AdvisorySafety.RetitlingMeans | internal/advisory/editorial.go:83-126 | A new edition under the new title takes back every agreement standing, in the name of who retitled it, and leaves coverage, marks and issuances alone |
| AdvisorySafety.AddingMeans | internal/advisory/entity.go:300-366 | Naming a flaw is refused exactly where it is covered; otherwise its one row says who put it on and when, no other row moves, an edition opens under the newest title, and every agreement is taken back |
| AdvisorySafety.DroppingMeans | internal/advisory/entity.go:384-437 | Taking a flaw off is refused exactly where it is not covered; otherwise exactly its row says who took it off and when, in a new edition nobody agrees to |
| AdvisorySafety.MarkingMeans | internal/advisory/statuses.go:170-287 | The release ends marked as asked, by whom and when, and no other row moves; where it stood so already nothing changes at all |
| AdvisorySafety.WithdrawingMeans | internal/advisory/editorial.go:336-374 | Taking agreements back is refused exactly where none stands; otherwise each standing is taken back in that name and nothing else changes |
| AdvisorySafety.IssuingMeans | internal/advisory/issuance.go:136-231 | A document goes out exactly when assembled against the edition in force and somebody agrees to it; what is recorded is the document, dated now, its version and its history ending in its own number, moment and summary; the first freezes its opening date; nothing else changes |
| AdvisorySafety.OpeningKeeps | internal/advisory/editorial.go:128-177 | Opening an edition keeps every rule: numbering, agreements, issuances |
| AdvisorySafety.AgreeingKeeps | internal/advisory/editorial.go:219-332 | So does an agreement by anybody but the minter |
| AdvisorySafety.IssuingKeeps | internal/advisory/issuance.go:126-234 | So does an issuance |
| AdvisoryStore.AdvisoryRows.Mint | internal/advisory/entity.go:124-198 | Minting leaves the first edition, and every rule holds |
| AdvisoryStore.AdvisoryRows.Open | internal/advisory/editorial.go:137-177 | One edition is opened, numbered next and under the title given, the advisory points at it, and nobody agrees to it |
| AdvisoryStore.AdvisoryRows.Add | internal/advisory/entity.go:321-366 | Inserting, reviving and refusing leave exactly the rows stated |
| AdvisoryStore.AdvisoryRows.Drop | internal/advisory/entity.go:403-430 | Removing or refusing leaves exactly the rows stated |
| AdvisoryStore.AdvisoryRows.MarkAffected | internal/advisory/statuses.go:218-287 | The scan for a standing mark and the oldest cleared one, and the four ways on, leave exactly the rows stated |
| AdvisoryStore.AdvisoryRows.Approve | internal/advisory/editorial.go:229-332 | The checks, the walk back over editions with its early exits, and the insert answer and leave exactly what is stated |
| AdvisoryStore.AdvisoryRows.Withdraw | internal/advisory/editorial.go:344-374 | Taking back is refused exactly where nobody agrees, and leaves nobody agreeing and every other row alone |
| AdvisoryStore.AdvisoryRows.RecordIssuance | internal/advisory/issuance.go:126-234 | The commit re-checks edition and agreement and leaves exactly the rows stated |
| AdvisoryRuns.EveryRunIsSafe | internal/advisory/editorial.go:128-332 | Over every run and interleaving: editions 1 to n with the advisory at n; agreements standing only on n, once per person, never by the minter or an author of the words; every issuance recorded while one stood on its edition |
| AdvisoryRuns.StepIsSafe | internal/advisory/issuance.go:81-239 | Every event, a read of an issuing call included, keeps that, together with what each call part way through may still rely on |
| AdvisoryRuns.CommittedShows | internal/advisory/issuance.go:147-165 | A document read piece by piece says, at the moment it is committed, exactly what the advisory says then |
| AdvisoryRuns.EditionsSayOneThing | internal/advisory/editorial.go:128-177 | Whenever a run is at one edition its title, coverage and marks are the same, and editions never go back |
| AdvisoryRuns.IssuedDocumentsAreTheAgreedOnes | internal/advisory/issuance.go:147-165 | At every point of a run at which the advisory is at the edition an issuance names, the document that went out states what the rows say: the newest edition's title, what is on it, once each in the order put on, and under each exactly the releases marked |
| AdvisoryLimits.GoesOutFinalExactlyWhen | internal/advisory/editorial.go:484-503 | What went out says final exactly when an agreement stood on its edition as its call read the agreements; else interim where something had gone out as the call counted, and draft where nothing had, whatever anybody did in between |
| AdvisoryLimits.DraftsGoOut | internal/advisory/editorial.go:484-503 | A reachable run in which the document that goes out says it is a draft |
| AdvisoryLimits.AgreesOverNothingExactlyWhen | internal/advisory/editorial.go:239-262 | An agreement that lands lands over nothing exactly when, since its giver was asked, every issue covered then was taken off last and no other was put on last |
| AdvisoryLimits.LastWordDecides | internal/advisory/entity.go:300-437 | In every run an issue is covered exactly when the last that was said of it put it on, or nothing was said and it was covered |
| AdvisoryLimits.AgreesOverSomething | internal/advisory/editorial.go:239-262 | So it lands over something wherever nothing is taken off in between |
| AdvisoryLimits.AgreementCanStandOverNothing | internal/advisory/editorial.go:239-262 | A reachable run in which an agreement stands on an edition covering nothing |
| AdvisoryLimits.AuthorOfTheCoverageMayAgree | internal/advisory/editorial.go:25-31 | A reachable run in which whoever put on what is covered agrees to it, after somebody else retitled it |
| AdvisoryLimits.CoverAuthorAgreesExactlyWhen | internal/advisory/editorial.go:249-332 | In every run whoever put on what is covered is let agree exactly when it was retitled since the last edition they wrote, and they neither minted it nor agree already |
| CoverageRecord.RowsRecoverExactlyWhen | internal/advisory/editorial.go:46-49 | What was covered once an instant was over is read back rightly from the rows exactly for the issues not put back since |
| CoverageRecord.TheRecordDoesNotSay | internal/advisory/editorial.go:46-49 | Two runs that leave one record, in which the second edition covered different things |
| RevisionHistory.GeneratedHistory | internal/advisory/issuance.go:468-485 | A document in hand numbers its revisions 1, 2, 3, states the last as its version, lists the recording and what went out, and is dated when it was generated (sections 6.1.14 and 6.1.16 of CSAF 2.0) |
| RevisionHistory.EveryRunKeepsHistory | internal/advisory/issuance.go:423-456 | Each issued history is the recording and every issuance up to its own, in every run |
| RevisionHistory.IssuedHistoriesAreNumbered | internal/advisory/issuance.go:408-456 | Issued histories have no gap or repeat and end in the version, whatever order people issue in (sections 6.1.16, 6.1.21 and 6.1.22) |
| RevisionHistory.IssuedDocumentsTell | internal/advisory/issuance.go:408-485 | In every run an issued document is dated the moment it went out, opens with its recording, and lists each issuance up to its own by number, moment and summary |
| RevisionHistory.DatesRunForwards | internal/advisory/issuance.go:126-133 | The dates an issued document lists never run backwards, in any run and interleaving |
| RevisionHistory.EachExtendsTheOneBefore | internal/advisory/issuance.go:170-200 | Each issued history is the one before it and its own entry, in any run and interleaving |
| RevisionHistory.OpensWithTheFrozenDate | internal/advisory/issuance.go:202-213 | Every issued document opens with the date the first one froze, whichever of two racing calls froze it: the earliest recording of what the first covers |
| RevisionHistory.EveryRunIsWellDated | internal/advisory/advisory.go:280-306 | Over every run what is covered was recorded first, and a call that read no frozen date works out the very date frozen since, as long as it can still commit |
| DocumentsTheorems.DraftTells | internal/advisory/cover.go:129-197 | What is stated of an issue is exactly, in release order, the affected, not affected, fixed and rated releases, one flag per reason, one impact per mitigation, and the affected split by whether a fix is planned |
| DocumentsTheorems.JoiningJoins | internal/advisory/cover.go:242-267 | A release joins the group of its text or opens one, and no other group moves |
| DocumentsTheorems.StatusesDoNotContradictExactlyWhen | internal/advisory/release.go:112-137 | Every release is in one of the three statuses, and in no second, exactly when no two releases sharing an identifier stand differently (section 6.1.6) |
| DocumentsTheorems.SharedExactlyWhen | internal/advisory/release.go:104-110 | Two releases of one product share an identifier exactly when named alike, or when a colon lets one's branch run into the other's variant; never without colons in branches |
| ProductTree.SharedAcrossExactlyWhen | internal/advisory/release.go:104-110 | Releases of any two products share an identifier exactly when the same stands between the colons of product, branch and variant; without colons in products and branches, exactly when all three are the same |
| DocumentsTheorems.ColonsCanContradict | internal/advisory/release.go:104-110 | Two releases of one product, one affected and one fixed, under one identifier |
| ProductTree.ColonsCanMisplace | internal/advisory/cover.go:199-224 | Two products, one with a colon in its name: the release of the second is defined as the first one's, and its own branch is left empty |
| DocumentsTheorems.OneRemedyEach | internal/advisory/content.go:306-378 | Each affected release gets exactly one of vendor fix, none available and no fix planned, and the right one; no other release gets any |
| DocumentsTheorems.EachReleaseStatedOnce | internal/advisory/cover.go:129-197 | Releases of distinct names without colons in their branches: each stands under its own status and no other, exactly the not affected carry a flag and just the one of their reason, and exactly the affected a remedy and just one |
| DocumentLaws.ReleaseIsStated | internal/advisory/cover.go:129-197 | In a release's own fields: affected, fixed or not affected as its builds, its decision and the preparer's mark say; the flag of its reason and the impact of its mitigation exactly where not affected; and of the four remediations exactly those it is owed |
| DocumentLaws.StandingMeans | internal/advisory/release.go:95-137 | Where a release stands, from what it holds, its decision and the mark on it |
| DocumentLaws.RemediesSay | internal/advisory/content.go:339-406 | Each remediation tells its reader what is so: every release that has the fix, in order; that none is available or planned; or some release's own mitigation |
| DocumentsTheorems.EveryIdentifierDefinedOnce | internal/advisory/cover.go:199-224 | The product tree defines exactly the identifiers covered, each once and each product under one branch, and statements name no others (sections 6.1.1 and 6.1.2) |
| ProductTree.DefinedAsItselfExactlyWhen | internal/advisory/cover.go:199-224 | Every covered release is defined by its own name under its own product's branch exactly when no two different ones share an identifier |
| ProductTree.WithoutColonsEachIsItself | internal/advisory/cover.go:199-224 | So is every release where products and branches hold no colon |
| ProductTree.LeafMeans | internal/advisory/cover.go:205-224 | A leaf is named by branch and variant, shown after its product, under its identifier |
| DocumentStore.Join | internal/advisory/cover.go:242-267 | The loop that finds a group by its text or opens one |
| DocumentStore.NoFixes.Add | internal/advisory/content.go:380-407 | Recording a release that will not be fixed keeps its mitigation's group |
| DocumentStore.Remediate | internal/advisory/content.go:339-378 | The remediations listed, in order |
| DocumentStore.Assembling.Place | internal/advisory/cover.go:203-224 | A release is recorded under its product's branch once |
| DocumentStore.Assembling.Cover | internal/advisory/cover.go:123-197 | The loop over releases contributes exactly what is stated of the issue, and its branches |
| DocumentStore.Assembling.Point | internal/advisory/cover.go:226-240 | Each address is carried once, in the order first met, and none is lost |
| Text.FoldedTwice | internal/typedname/typedname.go:11-27 | Folding a stored name changes nothing |
| Text.FoldedMeans | internal/typedname/typedname.go:11-27 | A name is stored without outer blanks and capitals, and otherwise as typed |
| Text.TrimMeans | internal/typedname/typedname.go:11-27 | Trimming takes all the blanks off both ends and nothing else |
| Text.EqualFoldMeans | internal/access/identity.go:263-269 | Comparing folded is comparing all but capitals |
| IdentityRuns.EveryRunKeepsOneEach | internal/access/identity.go:112-269 | Usernames and provider identifiers stay unique over every run and interleaving of claims, sign-ins, renames and unbinding |
| IdentityRuns.RecognizedThroughTheirOwnRow | internal/access/identity.go:161-261 | Whoever is recognized is recognized through a row that at that moment carries exactly the identifier they came with |
| IdentityRuns.PinnedUntilUnbound | internal/access/identity.go:161-261 | Until its person is unbound, whoever is recognized with a pinned identifier is that person whatever name it presents, and no other identifier is recognized through its row |
| IdentityRuns.PinnedIsRecognized | internal/access/identity.go:161-261 | And whoever looks a pinned identifier up then is recognized as that person, exactly where the provider they come through issued it |
| IdentityRuns.OneProviderUntilUnbound | internal/access/identity.go:189-261 | Over every run from rows nobody redeemed: whoever is recognized through a row after somebody was, before unbinding, is that person, with that identifier, through that provider but for capitals |
| IdentityRuns.LapsedAdmitsNobody | internal/access/identity.go:326-335 | An authorization whose window passed unredeemed admits nobody unless its person is authorized afresh |
| IdentityStore.MatchedRecognizes | internal/access/identity.go:171-261 | A whole sign-in keeps both unique and answers the person of the row that then carries the identifier |
| IdentityStore.BearingMeans | internal/access/identity.go:189-217 | An identifier a row bears is refused through another provider, and otherwise is its row's person, whose name follows unless another row has it |
| IdentityStore.UnknownMeans | internal/access/identity.go:218-261 | An identifier no row bears redeems the open authorization under its name, which is then pinned to it as its provider's; otherwise it is refused and nothing moves |
| IdentityStore.UninterruptedIsMatched | internal/access/identity.go:171-261 | A sign-in taken statement by statement with nothing in between is the one taken whole |
| IdentityStore.ArrivingMeans | internal/access/identity.go:171-186 | Blanks around what arrives and capitals in a name make no difference, and nothing arrives without a provider, an identifier and a name |
| IdentityStore.ClaimingMeans | internal/access/identity.go:92-159 | Authorizing is refused exactly for an empty name or one that is another's; otherwise the row is theirs and its window restarts if unredeemed |
| IdentityStore.AuthorizedIsAdmitted | internal/access/identity.go:171-261 | Whoever is authorized is let in, arriving under the name before the window closes with an identifier nothing bears |
| IdentityStore.AssertedMeans | internal/access/identity.go:293-324 | A proxy's name answers exactly the person of the one row under it that is pinned or within its window |
| IdentityStore.IdentityRows.Claim | internal/access/identity.go:112-159 | The rows and the answer are exactly those stated |
| IdentityStore.IdentityRows.MatchProvider | internal/access/identity.go:171-261 | The checks in their order leave and answer exactly what is stated |
| IdentityStore.IdentityRows.MatchProxy | internal/access/identity.go:293-324 | A proxy's name answers who it authorizes, and no row changes |
| IdentityStore.IdentityRows.Rename | internal/access/identity.go:347-369 | A name that moved is followed unless it is another's |
| IdentityStore.UnbindingMeans | internal/access/identity.go:371-406 | Exactly the pins of one person are cleared and their windows opened, and it is refused where there are none |
| IdentityStore.IdentityRows.Unbind | internal/access/identity.go:371-406 | Exactly the pins of one person go, their windows restart, and it is refused where there was none |
| Modes.SigningInMeans | internal/access/binding.go:331-414 | Whoever left is refused and nothing changes; whoever is unknown is let in exactly where a group gives them something |
| Modes.LetInHolds | internal/access/binding.go:490-628 | Whoever is let in holds, derived, exactly what the mappings give their groups, in roles there are, and no other grant or account moves; they administer or audit where a group says so or it was granted here |
| Modes.OutExactlyWhen | internal/access/identity.go:484-528 | Over every run somebody is out exactly when their last leaving or coming back, or being named, says so; no sign-in and no switch does |
| Modes.AdministrationFollowsHistory | internal/access/binding.go:415-481 | Over every run somebody administers exactly when named now, granted here, or said so by the last sign-in since the last switch to direct, and is marked derived exactly when only a group said so; auditing likewise with nobody named |
| Modes.SwitchingIsReversible | internal/access/binding.go:630-657 | Through any switches and sign-ins, a switch back to direct leaves exactly the assigned grants there were, all in force, and nothing derived |
| Modes.GroupsDecideWhatIsHeld | internal/access/binding.go:561-628 | While roles come from groups, whoever signed in since the switch holds exactly what their groups mapped to then |
| Modes.RunRemembers | internal/access/binding.go:658-733 | Between switches the assigned grants are all in force or all set aside, and none is lost |
| ModesStore.RolesFor | internal/access/binding.go:490-550 | The rows of the groups named, trimmed and not blank, give exactly what the mappings give those groups: each known role once on each product and once everywhere, and no product without a role |
| ModesStore.RoleTables.ReplaceDerived | internal/access/binding.go:561-628 | One person's derived grants become exactly what the groups give, whatever order the map is read in |
| ModesStore.RoleTables.Admit | internal/access/binding.go:331-488 | A sign-in leaves the flags and grants stated, and is refused exactly for somebody who left or a stranger given nothing |
| ModesStore.RoleTables.SwitchTo | internal/access/binding.go:658-733 | The statements of a switch, in their order, leave assigned grants active exactly in direct mode, and no derived grant or flag there |
| ModesStore.RoleTables.NameBootstrapAdmins | internal/access/binding.go:787-894 | Exactly the people configured are named, those who left are let back in, and the newly named are answered |
| GroupRolesRoundTrip.SpelledIsParsed | internal/access/mapping.go:66-115 | Parsing what is spelled answers exactly what the entries mean, sorted, each mapping once, separators and percent signs in names included |
| GroupRolesRoundTrip.EscapeIsUndone | internal/access/mapping.go:54-61 | Undoing the percent-encoding of any text gives the text |
| GroupRolesRoundTrip.EntryIsRead | internal/access/mapping.go:117-188 | An entry's group, roles and products are read as written |
| GroupRolesRoundTrip.NameAsTyped | internal/access/mapping.go:117-199 | A name spelled is read without its outer blanks, whatever it holds |
| GroupRolesRoundTrip.ProductAsTyped | internal/access/mapping.go:150-188 | A product spelled is read folded, or refused as empty or too long |
| GroupRolesTyped.EntryIsReadExactlyWhen | internal/access/mapping.go:117-199 | An entry typed in any way is read exactly where its group, words and products are within the limits and go together, and as each word on each product as stored |
| GroupRolesTyped.RolesAsTyped | internal/access/mapping.go:135-160 | Words typed with blanks or separators are read in order, empty ones skipped, or refused as no role |
| GroupRolesTyped.VariableIsRead | internal/access/mapping.go:97-110 | A variable is refused exactly where an entry is, naming the first by its place; otherwise its mappings are what its entries give |
| GroupRolesOnce.EachOnceExactlyWhen | internal/access/mapping.go:95-115 | However a sort breaks ties, what is left holds each mapping once exactly where none is stated twice while another sorts as it does |
| GroupRolesOnce.TiesNeedZeroBytes | internal/access/mapping.go:110-113 | Only names holding a zero byte sort alike |
| GroupRolesOnce.ZeroBytesCanTie | internal/access/mapping.go:95-115 | Two mappings whose names hold one do, and one of them stated twice around the other stays twice |
| GroupRolesOnce.ZeroBytesCanBeTyped | internal/access/mapping.go:189-199 | Such names can be typed, the byte by its code |
| GroupRolesOnce.ReadOnceInOrder | internal/access/mapping.go:110-115 | What is read where no name holds one is ordered by group, product and grant, each mapping once |
| GroupRolesRoundTrip.SeparatorsInRolesAreRefused | internal/access/mapping.go:71-76 | A separator inside a role is refused as no role, and never read as structure |
| GroupRolesRoundTrip.CompactOnce | internal/access/mapping.go:110-115 | Sorted and compacted, each mapping is kept once and none is lost |
| GroupRolesImperative.SpellGroupRoles | internal/access/mapping.go:66-88 | The loop writes what is stated |
| GroupRolesImperative.ReadEntry | internal/access/mapping.go:117-188 | Reading one entry answers its mappings, or the first refusal in the order the parts are read |
| GroupRolesImperative.ParseGroupRoles | internal/access/mapping.go:90-115 | Reading the variable answers the sorted mappings, or the first refusal with the number of its entry |
| Subjects.NarrowingMeansTheRule | internal/access/access.go:672-728 | The condition a query is narrowed by accepts a product and a visibility exactly when the product is listed and the rule allows it |
| Subjects.SplitSorts | internal/access/access.go:672-701 | The groups hold each allowed product under exactly its visibilities, no two groups alike |
| Subjects.SplitInLoop | internal/access/access.go:677-701 | The loop over products and visibilities builds those groups |
| Reading.TablesAgreeExactlyWhen | internal/access/team.go:408-440 | Reading asked of the grant tables and of the resolved subject agree, exactly unless only a role across every product answers for a product not in the catalog |
| Reading.TeamReadsThroughOneMember | internal/access/team.go:502-543 | A team reads in a declared product exactly when one member still here resolves to a subject reading at every visibility |
| Reading.RolesReadingAre | internal/access/team.go:488-500 | Asked of the rule itself, the roles enough to read are the reading and the triage role of the visibility |
| Reading.ResolvedHolds | internal/access/resolve.go:455-500 | The resolved subject holds a role on a product exactly when granted there, or everywhere and the product is in the catalog |
| Reading.ResolvedReads | internal/access/access.go:540-624 | What a resolved person reads, triages, sees and is listed is what the grants in force say of a visibility, and administering only shows |
| Reading.ResolvedReaches | internal/access/access.go:290-341 | What a resolved person may do of cases, code findings and the deployment is what the tables hold of them |
| Reading.RefusedExactlyWhen | internal/access/resolve.go:434-544 | Somebody is refused exactly where they are not here or hold nothing anywhere, products not in the catalog aside |
| Reading.OthersRead | internal/access/access.go:569-585 | Nobody signed in reads what is public of what is published; a pipeline sees its own product and reads nothing |
| Reading.SpreadEstate | internal/access/estate.go:159-180 | Spreading roles over the products as the loops do |
| Reading.ReadGrants | internal/access/resolve.go:455-475 | Reading the active, known grants as the loop does |
| Tokens.TokenIsWithinOwner | internal/access/token.go:192-242 | Every query a token's subject answers yes to, its owner's does, for any narrowing of any resolved subject |
| Tokens.BoundedIsWithin | internal/access/resolve.go:424-545 | Resolving with stale derived rows read past answers nothing a sign-in would not |
| Tokens.StaleIsReadPast | internal/access/resolve.go:455-540 | Through a token a role is held exactly by the rows that are not stale; administering and auditing likewise, and naming by configuration is never stale |
| Tokens.BuiltTokenIsWithinOwner | internal/access/token.go:192-242 | The subject a token is built into, stale rows read past and then narrowed, answers nothing its owner's sign-in would not |
| Tokens.NarrowedToIsWithin | internal/access/token.go:250-300 | Narrowing to a product restricts every subject there is |
| Tokens.NarrowedToRolesIsWithinExactlyWhen | internal/access/token.go:144-190 | Narrowing to roles restricts exactly unless it gives back the write half of a case an earlier narrowing took |
| Tokens.NarrowingIntersects | internal/access/token.go:144-160 | A role is held through a token exactly when its owner holds it and the token covers the product and carries the role |
| Tokens.NarrowingLeaves | internal/access/token.go:160-300 | Cases and code findings are left of the product covered, acting on a case where triage is carried, and nothing over the deployment |
| Tokens.NarrowingCommutes | internal/access/token.go:231-242 | Narrowing to a product and to roles is one narrowing in either order |
| Tokens.NarrowToRoles | internal/access/token.go:160-190 | The map loops compute the narrowed subject |

## Left out

- Authorization of the advisory acts (`byName`, `mayWrite`, `editing`): any act may also be refused outright, which removes runs and adds none; the advisory runs therefore hold for every person.
- MarkAffected's check that the issue is covered and the release exists is made outside its transaction, so the runs let a mark be set on any release at any time.
- Issue merging: each issue stands for itself.
- Which recorded findings a reader may see: the flaw's recording is one moment for everybody who may issue, since somebody who may not see every undisclosed finding of it is refused the document.
- Reading asked of a product that is not in the catalog: its callers take the product from a stored row, so Reading.TablesAgreeExactlyWhen's exception does not arise there.
- Minting an advisory's name from a prefix, a year and a number, and the highest-number race: easy beside what follows it.
- The title a document falls back to when nobody titled it, its notes, references, scores, distribution label, category and publisher: read from data kept elsewhere. The settled digest that says whether a document changed is not modelled either.
- Which releases an issue has, and the decisions they stand under, are inputs to Documents; they change without opening an edition, so AdvisoryRuns speaks of title, coverage and marks and not of statuses.
- JSON of published documents and of placed results: the library does that work.
- The life cycle of a run (queued, waiting, held, superseded), suspicion of a sharp drop, lapsing of dismissals, and carrying decisions from other builds: Receipts starts where matching does.
- Running again with results that moved: the code promises nothing of them, so Rerun takes the very same results in any order.
- Integer widths of lines, ordinals and identifiers: no arithmetic here comes near a bound.
- Non-ASCII folding and spaces: Text knows ASCII; Keys takes the language's tables of digits and spaces as a parameter.
- Percent-encoded bytes above 0x7F: an encoding is read as the character of its code, and SpellGroupRoles writes none of them.
- How an arrival is recorded as a person for the first time, and adopting a person an administrator recorded, in `admit`: Modes takes the person an arrival resolved to.
- NameBootstrapAdmins: names are taken as the people they resolve to; refusing a name written "provider:username" and recording the sign-in authorization are left to Identities' own acts.
- The stamps that say when a group last confirmed administration or auditing: Tokens takes the set of stale rows as given.
- Handing work back when a role is taken away, teams, notification, and who administers at start-up.
- In-app promotion of administrators between group sign-ins: the code defines no law for it.
- Which findings a suppression rule covers and which are recorded as flaws are tables in StateConditions; both forms ask them alike.
- The queue's pages, counts, filters beyond state and its joins for display; KinOf's wider window of possible duplicates.
- Sessions, keys, secrets, randomness, HTTP, redirects, headers, logging and start-up.
- SQL text, dialects, batching and query plans: a query is a comprehension over its rows.
- GroupRolesRoundTrip.SpelledIsParsed: names hold no zero byte, which no environment variable can carry as spelled; GroupRolesOnce takes those typed by code.
