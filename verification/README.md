# A verified model of the governance backend

This project models, in Dafny 4.11, the parts of the repository that hold state or recover structure, and proves what
they are for:

* the Job repository, where many clients read a Job, validate the next state and overwrite it with a put that compares
  nothing but a revision number (`jobs.dfy`, `job_repository.dfy`, `job_runs.dfy`);
* the Rule registry with its four linked stores, the Effective Rule Sets built from it, and the candidate service on top
  (`rules.dfy`, `rule_registry.dfy`, `effective.dfy`, `candidates.dfy`, `candidate_laws.dfy`, `candidate_service.dfy`);
* the HTML tree builder and the table grid (`html_tree.dfy`, `html_nesting.dfy`, `html_parser.dfy`, `html_locators.dfy`,
  `html_table.dfy`, `html_table_laws.dfy`);
* normalisation, slugs, the canonical document builder, locators and segmentation (`normalization.dfy`,
  `slug_laws.dfy`, `documents.dfy`, `locators.dfy`, `segmentation.dfy`, `segmentation_laws.dfy`);
* the Markdown, XLSX and PDF loaders (`markdown.dfy`, `markdown_laws.dfy`, `xlsx_address.dfy`, `xlsx_rows.dfy`,
  `xlsx_sheet.dfy`, `sheet_laws.dfy`, `pdf.dfy`, `pdf_laws.dfy`);
* scoring (`scoring.dfy`, `scoring_laws.dfy`, `calculator.dfy`), freezing, re-ingestion and the index (`ingestion.dfy`,
  `reload.dfy`, `index.dfy`, `index_laws.dfy`).

`wrappers.dfy`, `text.dfy`, `sequences.dfy`, `sorting.dfy`, `sums.dfy` and `extremes.dfy` hold what several of them
share.

Code that changes state step by step is a class or a method with loops, proved against a specification on values: the
DOM nodes are objects whose children grow, the registries are objects with map fields, the loaders fill one
`CanonicalDocumentBuilder` object. The properties are then lemmas about the specification, most of them about every run,
every event sequence or every document. An exception is an outcome of the operation (`None`, `Raised`, `Failure`,
`Refused`), and where the source writes before it may raise, the specification writes too: that no half-written state is
ever left behind is proved, not built in.

What the specification itself decides (which status may follow which, what a rule weighs, where an end tag cuts, which
line begins a table) is stated a second time without it: by sets of legal pairs, by counting, by the marks a line bears,
by the tree that well-nested markup stands for. The lemmas named `...Exactly` are those statements, both ways.

What the model takes as parameters: hashes are functions of the value they are computed from, and a lemma says so where
it needs them to be injective; case folding and the word characters of a regular expression are functions; rounding of a
binary floating point number is a monotone function on `real` that fixes 0 and 100; faults of the table service are
chosen by the environment.

Where code and prose disagree the model follows the code. Some results state where an expectation fails and exactly when
it holds:

* printed XLSX rows read back exactly when they hold neither a written `<br>` nor a carriage return
  (`StoredRowReadsBackExactly`), and two rows print alike exactly when they agree up to written breaks
  (`RowsPrintAlikeExactly`);
* anchors are distinct because slugs hold no tilde, and with a tilde they can collide (`AnchorsAreDistinct`,
  `TildeBasesCollide`);
* locator texts are unique over all schemes without a colon, so over the five formats of the loaders
  (`CanonicalInjective`, `LoaderLocatorsAreUnique`); the checks of `SourceLocator` alone do not exclude collisions,
  which occur exactly between schemes of which one begins with the other and a colon (`SchemesCollideExactly`);
* an HTML block's locator is refused, and the document with it, exactly when a tag on the way to its node holds a
  character locators may not hold; the tokenizer lets an equals sign into a tag (`LocatorValidExactly`);
* a table is lost to an uncaught error exactly when a span attribute consists of digits that `int` does not convert,
  such as a superscript two (`Span`, `SuperscriptSpanRaises`, `RenderTable`);
* a Markdown block keeps its lines exactly when its last line is not blank, which fails only for code left open
  (`SpanTextIsItsLines`);
* an approval registered ahead of its rule, under the version the service would assign next, makes every approval under
  that rule id raise until somebody registers a rule under it directly (`ApprovalAheadBlocks`, `BlockedForGood`).

## Model

| member | source | states |
|---|---|---|
| Jobs.AllowedExactly | apps/backend/jobs/lifecycle.py:17-37 | A status may follow another exactly when the pair is one of the fifteen legal ones, written out as a set. |
| Jobs.FollowsExactly | apps/backend/jobs/lifecycle.py:57-100 | A transition can make one Job of another if and only if the result is valid, has the same id, type and owner and the next revision, keeps every link already set, and the two statuses are a legal pair. |
| Jobs.TransitionOutcome | apps/backend/jobs/lifecycle.py:57-100 | Which error one transition raises for a stale revision and for an illegal pair, and that arguments left out keep the current step and the links while the status, the error and given links are taken over. |
| Jobs.TerminalExactly | apps/backend/jobs/lifecycle.py:17-37 | The terminal statuses are exactly those no legal pair leads on from. |
| JobItems.JobFromItem | apps/backend/repositories/dynamodb.py:136-170 | Whatever an item holds, a decoded Job satisfies the Job invariants. |
| JobItems.DecodesExactly | apps/backend/repositories/dynamodb.py:136-170 | An item decodes to a Job if and only if it says that Job, attribute by attribute with the printed status and step names, and the Job is valid; missing, mistyped or unknown attributes and a revision that is not whole are refused. |
| JobItems.StoredItemSaysJob | apps/backend/repositories/dynamodb.py:118-133 | What is stored says the Job, before and after the number conversion, and has an attribute for a link or error exactly when it is set. |
| JobItems.StoredJobDecodes | apps/backend/repositories/dynamodb.py:118-170 | Storing any valid Job and decoding it, before or after the table's number conversion, gives the Job back. |
| JobStore.UpdateAcceptsExactlyTransitions | apps/backend/repositories/dynamodb.py:79-103 | An update is sent if and only if some transition of the stored Job at the expected revision produces it. |
| JobStore.UpdateAcceptsExactlySteps | apps/backend/repositories/dynamodb.py:79-103 | The same with the lifecycle written out: an update is sent if and only if the Job is a legal step from the stored Job at the expected revision. |
| JobStore.DeliveredJobIsStored | apps/backend/repositories/dynamodb.py:105-115 | A delivered put changes the stored Job exactly when its condition passes, and no other Job ever. |
| JobStore.DynamoDbJobRepository.PutItem | apps/backend/repositories/dynamodb.py:105-115 | The conditional put as one atomic step, under lost requests and lost responses: which faults leave the table changed, and which error the caller sees. |
| JobStore.DynamoDbJobRepository.CreateJob | apps/backend/repositories/dynamodb.py:39-59 | A Job is created exactly as an unlinked QUEUED revision zero under a free id, unless the table fails; otherwise nothing changes. |
| JobStore.DynamoDbJobRepository.GetJob | apps/backend/repositories/dynamodb.py:61-77 | A read returns the stored Job, None only for an absent id, and an error exactly for a failed read or an undecodable item. |
| JobStore.DynamoDbJobRepository.ValidateUpdate | apps/backend/repositories/dynamodb.py:79-103 | Reading, comparing the revision and replaying the lifecycle yield exactly the specified request or error. |
| JobStore.DynamoDbJobRepository.UpdateJob | apps/backend/repositories/dynamodb.py:79-115 | Without interference the update succeeds if and only if the Job is a legal step from the stored one at the expected revision, and then it is what is stored; every refusal has its own error and changes nothing. |
| JobRuns.RunKeepsInv | apps/backend/repositories/dynamodb.py:39-115 | Every interleaving of any number of clients, with puts delivered late, twice, never, or reported wrongly, keeps every stored Job the end of one legal history. |
| JobRuns.HistoryIsLegal | apps/backend/jobs/lifecycle.py:17-100 | After every run the history of each stored Job begins QUEUED, unlinked and at revision zero, goes on by legal steps alone, and ends in what is stored. |
| JobRuns.RevisionCheckIdentifiesJob | apps/backend/repositories/dynamodb.py:105-111 | In every reachable state the revision check passes exactly when the item to be overwritten is the very Job the client validated. |
| JobRuns.CommitOverwritesValidated | apps/backend/repositories/dynamodb.py:86-111 | A committed update replaces the Job it was validated against, and is its legal successor. |
| JobRuns.RevisionCountsCommits | apps/backend/repositories/dynamodb.py:79-115 | The stored revision equals the number of updates committed so far. |
| JobRuns.ExpectedRevisionCommitsOnce | apps/backend/repositories/dynamodb.py:105-115 | Of two commits to one Job the later has the greater expected revision, so one expected revision commits at most once. |
| JobRuns.StoredJobDescends | apps/backend/jobs/lifecycle.py:17-100 | Between any two moments of any run: same owner, type and id, no link altered or dropped, revision not lower, and a terminal Job unchanged. |
| Contracts.ContentIgnoresExactly | packages/governance/rules/registry.py:16-38 | Two rules have the same semantic content if and only if they differ at most in identity, status and the order of their references. |
| Contracts.RuleIdExactly | packages/contracts/governance.py:15-15 | A rule id is GLOBAL or CUSTOMER, two parts of capitals and digits, and three digits, joined by dashes, and nothing else is one. |
| Mappings.SourceControlMappingRegistry.AddSource | packages/governance/sources/registry.py:15-30 | Exactly when a source version is accepted; all versions of a source keep one type and nothing registered is changed. |
| Mappings.SourceControlMappingRegistry.Add | packages/governance/mappings/registry.py:30-36 | A mapping is accepted exactly when its control and source are known and it is new; nothing registered is changed. |
| RuleRegistries.StatusIsNotContent | packages/governance/rules/registry.py:16-42 | The approval hash of a rule does not depend on its lifecycle status. |
| RuleRegistries.CallIsAtomic | packages/governance/rules/registry.py:76-193 | A call that raises, even after its first write, leaves all four stores as they were, and every call keeps rules, approvals and snapshots aligned. |
| RuleRegistries.RunKeepsInv | packages/governance/rules/registry.py:76-193 | Any run of calls, failed ones included and the mappings changing in between, keeps the stores aligned. |
| RuleRegistries.RunIsLater | packages/governance/rules/registry.py:76-193 | Over any run snapshots and approvals never change, a rule changes at most to DEPRECATED, and the audit log only grows. |
| RuleRegistries.CheckReferencesExactly | packages/governance/rules/registry.py:87-92 | The references are accepted if and only if each is mapped for the rule's resource and control and its source has the rule's type. |
| RuleRegistries.RulesStaySupported | packages/governance/rules/registry.py:81-113 | Over every run in which the mappings only grow, every registered rule keeps its references mapped and typed and its id the matching prefix. |
| RuleRegistries.AddApprovalExactly | packages/governance/rules/registry.py:76-79 | When an approval is accepted and what it changes. |
| RuleRegistries.AddRuleExactly | packages/governance/rules/registry.py:81-113 | When a rule is restored, without reference to the validation, and its effect on the four stores. |
| RuleRegistries.ActivateExactly | packages/governance/rules/registry.py:115-151 | When an activation is accepted and its effect on the four stores, the audit entry field by field. |
| RuleRegistries.DeprecateExactly | packages/governance/rules/registry.py:165-193 | When a deprecation is accepted and its effect on the four stores: the status of one rule and one audit entry. |
| RuleRegistries.NextVersion | packages/governance/rules/registry.py:209-211 | The next version is above every registered version of the id, one above the greatest, and 1 if there is none. |
| RuleRegistries.RuleRegistry.AddApproval | packages/governance/rules/registry.py:76-79 | Accepted exactly when the identity has no approval; then the approval is registered and nothing else changes, and a raise changes nothing. |
| RuleRegistries.RuleRegistry.Validate | packages/governance/rules/registry.py:81-101 | The loop over the references finds the error the specification names, or none. |
| RuleRegistries.RuleRegistry.Add | packages/governance/rules/registry.py:103-113 | Accepted exactly when the identity is free, prefix and references agree with the mappings, and the registered approval holds the hash of the content; then the rule is stored as it is and its snapshot as ACTIVE. A raise changes nothing, although the rule is written before the snapshot is built. |
| RuleRegistries.RuleRegistry.Activate | packages/governance/rules/registry.py:115-151 | Accepted exactly when the rule is ACTIVE, has no approval, is well founded and its approval can be built; then rule, approval, snapshot and one audit entry are stored, each field written out. A raise changes nothing. |
| RuleRegistries.RuleRegistry.Deprecate | packages/governance/rules/registry.py:165-193 | Accepted exactly when the three texts are not blank and the stored rule is ACTIVE; then that rule alone becomes DEPRECATED, approvals and snapshots stay, and one audit entry, each field written out, is appended. A raise changes nothing, although the status is written before the approval is looked up. |
| RuleRegistries.RuleRegistry.GetNextVersion | packages/governance/rules/registry.py:209-211 | The search over the rules returns the specified next version. |
| EffectiveRules.BuiltIsReproduced | packages/governance/profiles/effective.py:28-84 | What was built or reproduced at any state is reproduced identically, hash input included, after any later run of registry calls. |
| EffectiveRules.DeprecationIsFinal | packages/governance/profiles/effective.py:28-84 | After a deprecation and any later run the rule stays DEPRECATED, cannot be deprecated again, no new set with its pin can be built, and its approved version can still be reproduced. |
| EffectiveRules.RegisteredProfileReproduces | packages/governance/profiles/registry.py:16-21 | A profile whose pins were all ACTIVE when it was registered can be reproduced in every phase at any later time. |
| EffectiveRules.BuiltRulesAreThePinned | packages/governance/profiles/effective.py:60-84 | A build succeeds exactly when every pin is stored and ACTIVE, or has a snapshot for reproduction; it carries the profile, phase and settings it was built for and their hash, and holds each rule as often as a pin names it if the phase evaluates its type, by id and version. |
| EffectiveRules.InPhaseExactly | packages/governance/profiles/effective.py:16-25 | Which evaluation types a phase evaluates, as a set of pairs. |
| EffectiveRules.PinOrderIsIrrelevant | packages/governance/profiles/effective.py:60-84 | Reordering the pins changes neither whether a set can be built nor the set. |
| EffectiveRules.PolicyProfileRegistry.Add | packages/governance/profiles/registry.py:16-21 | A profile is registered exactly when its identity is new and every pin names a stored rule whose status is ACTIVE at that moment. |
| CandidateLaws.BuiltExactly | packages/governance/rules/candidates.py:156-224 | A candidate is built from exactly the proposals that stand for some rule fields, name by name, over evidence whose sources all have one type and are mapped; it holds those fields, the evidence as it was, and the fingerprint of the fields. |
| CandidateLaws.LimitationsExactly | packages/governance/rules/candidates.py:143-210 | Its limitations are the stripped stated ones and one note for each piece of evidence not of high confidence, each once; so it is open to approval exactly when nothing was stated and all evidence is of high confidence. |
| CandidateLaws.CommonTypeExactly | packages/governance/rules/candidates.py:179-182 | The sources have a common type exactly when there is evidence and every cited source is registered with that type. |
| CandidateLaws.FieldsExactly | packages/governance/rules/candidates.py:185-201 | The fields made of a proposal are exactly the valid ones that hold its texts under their names, its evaluation type and severity by their printed names, and the references of the evidence. |
| CandidateLaws.CreatesExactly | packages/governance/services/rule_candidates.py:38-52 | The service creates exactly the candidates that keep proposal and evidence, limitations included, under a new id and with new content; it adds one such and touches nothing else. |
| CandidateLaws.LimitedIsNeverApproved | packages/governance/services/rule_candidates.py:38-88 | A candidate with a stated limitation, or with evidence that is not of high confidence, is not approved after any later run. |
| Candidates.ApproveIsAllOrNothing | packages/governance/services/rule_candidates.py:54-88 | Assigning the version, activating and binding either all happen or nothing does; on success the new rule has the candidate's stored fields and its snapshot. |
| Candidates.ApproveSucceedsExactly | packages/governance/services/rule_candidates.py:54-88 | The exact condition under which an approval succeeds: among others, the next version has no approval yet and every reference is supported by the mappings. |
| Candidates.ApprovalAheadBlocks | packages/governance/services/rule_candidates.py:54-88 | Where an approval would succeed, registering an approval of the next version first makes it raise. |
| Candidates.BlockedForGood | packages/governance/services/rule_candidates.py:54-88 | It raises after every later run, for every candidate, reviewer and state of the mappings, unless a rule was registered under that id. |
| Candidates.ServiceRunKeepsInv | packages/governance/services/rule_candidates.py:38-88 | Over every run, interleaved with direct registry calls: each candidate yields at most one rule, distinct candidates distinct identities, and the approved snapshot means what the candidate stores, with no limitation open. |
| Candidates.ServiceRunGrows | packages/governance/services/rule_candidates.py:38-88 | Over every run candidates and their bindings are never changed, and each new binding has a version above all earlier ones of its id. |
| Candidates.LaterApprovalHasHigherVersion | packages/governance/rules/registry.py:209-211 | Of two candidates approved under one rule id the later has the higher version. |
| CandidateService.RuleCandidateApplicationService.CreateCandidate | packages/governance/services/rule_candidates.py:38-52 | The object creates exactly the candidates that keep proposal and evidence, limitations included, and are new, adds one such, and is unchanged if it raises. |
| CandidateService.RuleCandidateApplicationService.ApproveCandidate | packages/governance/services/rule_candidates.py:54-77 | The object performs the specified approval, whose exact condition and effect are stated above, and is unchanged if it raises. |
| HtmlTree.FeedKeepsInv | packages/governance/sources/loaders/html.py:163-195 | For every accepted event sequence: nodes form a tree, paths are built from same-tag ranks, the count stack agrees with the children, the open nodes are the right-most branch, depth stays within the cap. |
| HtmlTree.PathResolves | packages/governance/sources/loaders/html.py:172-177 | A path, resolved by counting same-tag siblings from the root, leads back to its own node. |
| HtmlTree.ParsedTreeIsAddressable | packages/governance/sources/loaders/html.py:163-195 | In every parsed document paths are pairwise distinct and resolve, no path is deeper than the cap, and no element stands inside one its start tag closes. |
| HtmlLocators.LocatorValidExactly | packages/governance/sources/loaders/html.py:415-418 | A node's locator is valid if and only if no tag on its path holds an equals sign, a slash or a line break. |
| HtmlLocators.DomLocatorsAreDistinct | packages/governance/sources/loaders/html.py:238-256 | The locators of two nodes of a document never have the same text. |
| HtmlTree.TreeReadsBack | packages/governance/sources/loaders/html.py:163-195 | Reading the tree in pre-order gives back every start and every piece of text, once and in document order. |
| HtmlNesting.EndClosesInnermost | packages/governance/sources/loaders/html.py:187-192 | An end tag closes the innermost open element with its tag and all that was opened since, and nothing if no element but the root has the tag. |
| HtmlNesting.ImpliesCloseExactly | packages/governance/sources/loaders/html.py:113-123 | Which start tags close which open element, as a set of pairs. |
| HtmlNesting.StartOpensChild | packages/governance/sources/loaders/html.py:163-180 | A start tag closes exactly the innermost elements it implies, never the root, is refused exactly when too much stays open, and otherwise becomes the last child of the innermost element left open. |
| HtmlNesting.WellNestedIsRebuilt | packages/governance/sources/loaders/html.py:163-195 | Well-nested markup of any shape is parsed exactly when it is at most 100 deep, leaves nothing open, and is rebuilt under the root, parent by parent, with its tags, attributes and texts in order. |
| HtmlNesting.ParseIsInjective | packages/governance/sources/loaders/html.py:163-195 | Two well-nested documents parse to one tree only if they are the same markup, up to how an element without children is written. |
| HtmlNesting.DroppedAreCounted | packages/governance/sources/loaders/html.py:164-165 | Each dropped tag is counted as often as it starts. |
| HtmlParser.TreeParser.HandleStartTag | packages/governance/sources/loaders/html.py:163-180 | The node objects, the stack of open nodes and the stack of counts show the specified tree after the event; it is refused exactly at the cap. |
| HtmlParser.TreeParser.HandleEndTag | packages/governance/sources/loaders/html.py:187-192 | The object closes the innermost open element with the tag and all opened since, or nothing if there is none; the nodes stay as they are. |
| HtmlParser.TreeParser.HandleStartEndTag | packages/governance/sources/loaders/html.py:182-185 | The same for a self-closing tag. |
| HtmlParser.TreeParser.AddData | packages/governance/sources/loaders/html.py:194-195 | The same for text. |
| HtmlParser.Parse | packages/governance/sources/loaders/html.py:153-195 | A whole parse leaves node objects that show the specified tree, or stops at the cap; for well-nested markup that tree is the markup, and the cap is 100 levels. |
| HtmlTable.Span | packages/governance/sources/loaders/html.py:395-399 | A span lies between 1 and 64, and `int` raises exactly on texts of digits that are not all decimal or are too many. |
| HtmlTable.SpanOfNumeral | packages/governance/sources/loaders/html.py:395-399 | A span written as a numeral is read back, cut to 1..64. |
| HtmlTable.SuperscriptSpanRaises | packages/governance/sources/loaders/html.py:397-399 | A superscript two passes the guard and raises. |
| HtmlTable.PlaceIsWellPlaced | packages/governance/sources/loaders/html.py:369-388 | Every cell of every table is placed exactly once, in reading order, where no other cell's span reaches. |
| TableLaws.CellsTakeFirstFree | packages/governance/sources/loaders/html.py:369-388 | Read in order, each cell starts in its own row at the first column that no cell before it covers. |
| TableLaws.GridIsTight | packages/governance/sources/loaders/html.py:369-389 | The grid has the rows of the table and those its spans reach, each just as wide as the spans that reach it. |
| HtmlTable.LayOutRow | packages/governance/sources/loaders/html.py:369-388 | The loops over one row leave a grid and an occupied set that show the placement so far. |
| HtmlTable.Reserve | packages/governance/sources/loaders/html.py:379-386 | Marking a span adds its rectangle to the occupied set, grows the grid to hold it, and changes no slot that was there. |
| HtmlTable.SkipOccupied | packages/governance/sources/loaders/html.py:374-375 | The skip loop ends at the first column no placed cell covers. |
| HtmlTable.GridHoldsEachTextOnce | packages/governance/sources/loaders/html.py:367-388 | On the finished grid each text stands at its own start, every other slot is empty, and every span lies inside. |
| HtmlTable.PrintedTableIsRectangular | packages/governance/sources/loaders/html.py:389-392 | The printed lines all have one cell per column of the widest row, pipes inside texts being escaped. |
| TableLaws.EscapeIsUndone | packages/governance/sources/loaders/html.py:376-376 | A cell text is recovered from its printed form up to its line breaks, which became spaces. |
| TableLaws.PrintedTableReadsBack | packages/governance/sources/loaders/html.py:361-392 | Read back, the printed table has one cell a column in each line, the text of each cell where the cell starts, line breaks apart, and nothing anywhere else. |
| HtmlTable.RenderTable | packages/governance/sources/loaders/html.py:361-399 | Rendering raises exactly when some span attribute does; otherwise the text is the print of a grid that shows the placement of the cells. |
| Normalization.NormalizeFixesExactlyNormal | packages/governance/sources/normalization.py:15-25 | The fixed points of normalisation are exactly the texts without carriage returns, blanks at line ends, or line breaks at either end. |
| Normalization.NormalizeIdempotent | packages/governance/sources/normalization.py:15-25 | Normalising twice is normalising once. |
| Normalization.NewlineStyleIsIrrelevant | packages/governance/sources/normalization.py:15-25 | LF, CRLF and CR versions of a text have the same lines and the same normal form. |
| Normalization.TrailingBlanksAreIrrelevant | packages/governance/sources/normalization.py:15-25 | Blanks added at the ends of any lines change neither. |
| Normalization.TrailingWhitespaceIsIrrelevant | packages/governance/sources/normalization.py:15-25 | White space added after the end of any text, in any style of line ends, does not change its normal form. |
| Normalization.NormalizeKeepsVisible | packages/governance/sources/normalization.py:15-25 | Normalisation keeps every visible character, in order. |
| Normalization.SlugAlphabet | packages/governance/sources/normalization.py:38-43 | A slug holds only word characters, dashes and dots, whatever is slugified. |
| SlugLaws.SlugIsJoinedWords | packages/governance/sources/normalization.py:38-43 | A slug is the folded words of the heading joined by single dashes, without dashes and dots at its ends; words are the kept characters between white space, underscores and dashes. |
| SlugLaws.SlugifyMakesSlugs | packages/governance/sources/normalization.py:38-43 | Every result is a slug: kept characters, no two dashes in a row, neither dash nor dot at an end. |
| SlugLaws.SlugifyFixesExactly | packages/governance/sources/normalization.py:38-43 | A folded text is left as it is if and only if it is a slug. |
| Normalization.SluggerOf | packages/governance/sources/normalization.py:38-43 | So slugify never puts a tilde into a slug, which is all that anchors need of it. |
| CanonicalDocuments.BlockIdInjective | packages/governance/sources/canonical_document.py:260-262 | No two blocks of a document share an id, past b9999 too. |
| CanonicalDocuments.BlockIdExactly | packages/governance/sources/canonical_document.py:260-262 | An id is a b and at least four digits that say the number, without needless zeros. |
| CanonicalDocuments.NextHeading | packages/governance/sources/canonical_document.py:233-235 | Popping the stack and pushing the new heading computes the headings not followed by one of equal or smaller level. |
| CanonicalDocuments.CanonicalDocumentBuilder.PopDeeper | packages/governance/sources/canonical_document.py:233-234 | The loop leaves exactly the stacked headings above the level. |
| CanonicalDocuments.CanonicalDocumentBuilder.AddHeading | packages/governance/sources/canonical_document.py:226-236 | When a heading is refused, skipped or appended; afterwards every block's heading path is the headings in force up to it, and its text is in normal form. |
| CanonicalDocuments.CanonicalDocumentBuilder.AddBlock | packages/governance/sources/canonical_document.py:238-246 | The same for other blocks; a block is skipped exactly when its text is blank. |
| CanonicalDocuments.CanonicalDocumentBuilder.Warn | packages/governance/sources/canonical_document.py:248-250 | However often messages are given, the warnings stay pairwise distinct, hold exactly the messages given so far, and keep their order. |
| CanonicalDocuments.RenderedBlocksAreNormal | packages/governance/sources/canonical_document.py:150-156 | Any rendering of built blocks is its own normal form. |
| Locators.CanonicalInjective | packages/governance/sources/canonical_document.py:97-120 | Over all schemes without a colon, two valid locators with the same text are equal. |
| Locators.LoaderLocatorsAreUnique | packages/governance/sources/canonical_document.py:85-89 | Over the five formats a locator text names one position. |
| Locators.SchemesCollideExactly | packages/governance/sources/canonical_document.py:97-120 | Two different schemes have some locators with one text if and only if one scheme begins with the other and a colon. |
| Locators.SchemesCanCollide | packages/governance/sources/canonical_document.py:97-120 | Two positions under the schemes `a:b` and `a` that pass all checks and have one text. |
| Anchors.AnchorsAreDistinct | packages/governance/sources/segmentation.py:294-299 | Numbering repeats makes all anchors distinct if no base holds a tilde. |
| SegmentationLaws.AnchorExactly | packages/governance/sources/segmentation.py:294-299 | The first use of a base is the base itself and the n-th the base, a tilde and n. |
| Anchors.TildeBasesCollide | packages/governance/sources/segmentation.py:294-299 | With a tilde in a base two anchors can coincide. |
| Segmentation.SectionsPartitionDocument | packages/governance/sources/segmentation.py:177-201 | The sections are consecutive, hold exactly one heading each, their first block, and together are the document from its first heading on. |
| SegmentationLaws.SectionExactly | packages/governance/sources/segmentation.py:194-220 | The k-th section runs from the k-th heading up to the next and has that heading's path and locator, and the ids and the text of the blocks in between. |
| SegmentationLaws.BaseExactly | packages/governance/sources/segmentation.py:294-295 | The base of an anchor holds the slugs of the heading path between slashes, or the section's number if the only slug is empty. |
| Segmentation.SectionAnchorsAreDistinct | packages/governance/sources/segmentation.py:125-128 | For every document the section anchors are distinct, so the duplicate check never fires. |
| Segmentation.SegmentDocument | packages/governance/sources/segmentation.py:171-217 | The loop with its counter yields the specified sections, and refuses exactly the documents without a heading. |
| Segmentation.CutSection | packages/governance/sources/segmentation.py:190-209 | One turn of the loop yields one specified section and counts one more use of its anchor. |
| Segmentation.SectionTextIsNormal | packages/governance/sources/segmentation.py:113-115 | The text of every section of a built document is its own normal form, so its hash is the hash of exactly that text. |
| MarkdownLines.ShapeIsSane | packages/governance/sources/loaders/markdown.py:26-31 | A heading line is no fence, quote or table row, and a blank line is nothing else at all. |
| MarkdownLaws.HeadingExactly | packages/governance/sources/loaders/markdown.py:26-26 | A heading line is one to six hashes at the start, white space and something more; its level is the number of hashes. |
| MarkdownLaws.FenceExactly | packages/governance/sources/loaders/markdown.py:27-27 | A fence is three backquotes or three tildes after the indent. |
| MarkdownLaws.ClosesExactly | packages/governance/sources/loaders/markdown.py:85-85 | What closes code is its own fence after any indent and before anything. |
| MarkdownLaws.QuoteExactly | packages/governance/sources/loaders/markdown.py:31-31 | A quote line is a greater-than sign after the indent. |
| MarkdownLaws.RowExactly | packages/governance/sources/loaders/markdown.py:29-29 | A table row has two pipes with nothing but white space before the first and after the last. |
| MarkdownLaws.DelimiterExactly | packages/governance/sources/loaders/markdown.py:30-30 | A delimiter is such a row with at least one character between the pipes, all of them white space, colons, pipes or dashes. |
| MarkdownLaws.ItemExactly | packages/governance/sources/loaders/markdown.py:28-28 | A list item is a bullet or a number with a dot or a parenthesis after the indent, white space and something more. |
| MarkdownLaws.KindExactly | packages/governance/sources/loaders/markdown.py:57-79 | What begins a block of which kind: the first that applies of fence, heading, table row above a delimiter, quote, list item, paragraph. |
| MarkdownLaws.SpanExactly | packages/governance/sources/loaders/markdown.py:91-144 | A block other than code is as long as can be: its further lines all go on with its kind and the line after it does not. |
| MarkdownLaws.CodeExactly | packages/governance/sources/loaders/markdown.py:81-89 | Code runs to the first line that begins with its own fence, that line included, or to the end. |
| MarkdownLaws.LineExactly | packages/governance/sources/loaders/markdown.py:147-148 | A block is located at the number of its first line, counted from one. |
| MarkdownScan.BlockEnd | packages/governance/sources/loaders/markdown.py:81-144 | Each scanner's loop stops at the first line that ends its block, and always after the line it began at. |
| Markdown.LoadText | packages/governance/sources/loaders/markdown.py:49-75 | The main loop adds one block per span, in order, each with its lines and its line number. |
| MarkdownScan.LinesArePartitioned | packages/governance/sources/loaders/markdown.py:57-75 | The blocks' line ranges are increasing and disjoint, and each line that is not blank lies in exactly one. |
| Markdown.EveryLineOnce | packages/governance/sources/loaders/markdown.py:57-75 | Every line of a text that is not blank lies in exactly one block. |
| MarkdownScan.CodeSpanShape | packages/governance/sources/loaders/markdown.py:81-89 | A code block begins at a fence, ends with the first line that closes it or with the document, and holds no closing line before. |
| MarkdownScan.HeadingLineIsHeadingOrCode | packages/governance/sources/loaders/markdown.py:57-144 | A line of heading shape becomes a heading block of its own unless a code block holds it. |
| Markdown.HeadingLineBecomesHeading | packages/governance/sources/loaders/markdown.py:57-144 | The same for the lines of a text. |
| MarkdownScan.HeadingBlockIsHeadingLine | packages/governance/sources/loaders/markdown.py:64-66 | A heading block is one heading line. |
| Markdown.HeadingTextIsKept | packages/governance/sources/loaders/markdown.py:64-66 | The builder stores the text of a heading line unchanged. |
| Markdown.SpanTextIsItsLines | packages/governance/sources/loaders/markdown.py:81-144 | The stored text of a block other than a heading splits back into exactly its lines if and only if the last one is not blank; only a code block left open, which runs to the end, can end with a blank line. |
| ColumnNames.NumberOfName | packages/governance/sources/loaders/xlsx.py:550-565 | Every column number is recovered from its name. |
| ColumnNames.NameOfNumber | packages/governance/sources/loaders/xlsx.py:550-565 | Every column name, in either case, is recovered in capitals from its number. |
| ColumnNames.ColumnName | packages/governance/sources/loaders/xlsx.py:557-565 | The division loop returns the name of every positive number and refuses the others. |
| ColumnNames.ColumnNumber | packages/governance/sources/loaders/xlsx.py:550-554 | The loop over the letters returns the number. |
| RowLocators.LocatorValueIsOnePass | packages/governance/sources/loaders/xlsx.py:580-588 | The five replacements in sequence are one character-wise encoding. |
| RowLocators.UnquoteOfLocatorValue | packages/governance/sources/segmentation.py:278-284 | Percent-decoding gives every sheet name back. |
| RowLocators.RowDigitsMatches | packages/governance/sources/segmentation.py:286-291 | Capitals followed by a positive numeral are recognised, with the numeral as the row. |
| RowLocators.RowDigitsOnlyMatches | packages/governance/sources/segmentation.py:286-291 | Nothing else is recognised. |
| RowLocators.RowLocatorRoundTrip | packages/governance/sources/loaders/xlsx.py:172-179 | For every sheet name, row and columns the emitted locator passes the locator checks, and segmentation recovers the same sheet and row. |
| SheetLaws.RangeExactly | packages/governance/sources/loaders/xlsx.py:172-178 | The range of a row locator names the header's first and last column, each as capitals with that number, in the row. |
| RowText.EscapeValueIsOnePass | packages/governance/sources/loaders/xlsx.py:507-511 | The three replacements in sequence are one character-wise encoding. |
| RowText.RowOfRenderRow | packages/governance/sources/loaders/xlsx.py:503-511 | A printed row, split at its bare pipes and unescaped, gives back headers and values up to written breaks. |
| RowText.RowReadsBackExactly | packages/governance/sources/loaders/xlsx.py:503-511 | It gives them back exactly if and only if none holds a written break. |
| RowText.RowsPrintAlikeExactly | packages/governance/sources/loaders/xlsx.py:503-511 | Two rows print alike if and only if their headers and values agree up to written breaks. |
| RowText.PrintedRowIsNormal | packages/governance/sources/loaders/xlsx.py:503-511 | The stored text is the printed one if and only if no header or value holds a carriage return. |
| RowText.StoredRowReadsBackExactly | packages/governance/sources/loaders/xlsx.py:172-179 | The stored text gives headers and values back if and only if they hold neither. |
| RowText.NoValuesPrintLikeAnEmptyOne | packages/governance/sources/loaders/xlsx.py:507-511 | An empty list and a list of one empty value print alike. |
| ControlMatrix.ReadMergedRanges | packages/governance/sources/loaders/xlsx.py:390-420 | Ranges that are no references, stand in the wrong order or reach beyond row 10000 or column 256 are refused; otherwise the collected cells are exactly those of the ranges apart from their starts. |
| ControlMatrix.DropContinuations | packages/governance/sources/loaders/xlsx.py:130-133 | Popping in place leaves every row exactly the cells no merged range continues into. |
| ControlMatrix.FindHeaderRow | packages/governance/sources/loaders/xlsx.py:423-436 | The header is the lowest-numbered row with two populated columns, and none is found only if there is none. |
| ControlMatrix.Headers | packages/governance/sources/loaders/xlsx.py:439-468 | The header spans from the first to the last populated column, and is usable exactly when no name is blank or repeated and no cell is a formula. |
| ControlMatrix.LoadSheet | packages/governance/sources/loaders/xlsx.py:94-181 | A sheet is skipped, refused or loaded exactly as specified, and loading adds one block per data row in row order and nothing else. |
| SheetLaws.HeaderLikeExactly | packages/governance/sources/loaders/xlsx.py:427-435 | A row can be the header exactly when at least two of its cells outside merged continuations show something. |
| SheetLaws.HeaderExactly | packages/governance/sources/loaders/xlsx.py:423-455 | The header is the lowest such row, from its first to its last cell that shows something, with the texts in between as names. |
| SheetLaws.RefusedExactly | packages/governance/sources/loaders/xlsx.py:456-488 | A sheet with a header is refused exactly when a name is blank or repeated, a header cell holds a formula, or a cell below the header shows something outside its columns. |
| SheetLaws.DataRowExactly | packages/governance/sources/loaders/xlsx.py:155-171 | A data row is a row below the header that shows something in the header's columns. |
| ControlMatrix.EveryDataRowOnce | packages/governance/sources/loaders/xlsx.py:155-180 | The data rows are exactly the rows below the header with any value, each once, in increasing order. |
| ControlMatrix.NoCellIsLost | packages/governance/sources/loaders/xlsx.py:154-181 | In a sheet not refused every populated cell below the header lies in a data row and stands at its own column's place. |
| ControlMatrix.CellReadsBack | packages/governance/sources/loaders/xlsx.py:166-179 | The cell can be read out of its row's block text at its column's place. |
| ControlMatrix.RowBlocksAreLocated | packages/governance/sources/segmentation.py:278-291 | Segmentation accepts every block of a loaded sheet and recovers its own sheet and row. |
| SheetLaws.LocationExactly | packages/governance/sources/segmentation.py:278-291 | Segmentation locates exactly the table blocks of a workbook that name a sheet and a range within one row, and finds that sheet and row. |
| ControlMatrixProfile.RowAnchorsAreDistinct | packages/governance/sources/segmentation.py:247-267 | No two rows share an anchor, sheets with one slug included. |
| SheetLaws.RowAnchorExactly | packages/governance/sources/segmentation.py:253-254 | The base of a row anchor is the slug of the sheet, or sheet if it is empty, and the number of the row. |
| ControlMatrixProfile.SegmentRows | packages/governance/sources/segmentation.py:238-275 | One section per row block, in order, with the specified anchor; refused exactly when a block is not located or there is none. |
| PdfLines.GroupFragments | packages/governance/sources/loaders/pdf.py:274-288 | The groups, joined, are the fragments in reading order; each fragment stood on its group's line, and each new group began with one that did not. |
| PdfLines.GroupingIsDetermined | packages/governance/sources/loaders/pdf.py:277-288 | Only one grouping of the fragments is like that. |
| PdfLaws.OnLineExactly | packages/governance/sources/loaders/pdf.py:283-285 | A fragment stands on a line when it is within 1.5 of the mean height of the fragments there, or within 0.35 of the size of one of them. |
| PdfLaws.ReadingOrderExactly | packages/governance/sources/loaders/pdf.py:276-276 | Fragments are grouped from top to bottom, and from left to right at one height. |
| PdfLines.LinesFromFragments | packages/governance/sources/loaders/pdf.py:274-303 | Every group becomes one line, made of its fragments from left to right. |
| PdfLaws.LineMeasures | packages/governance/sources/loaders/pdf.py:295-302 | A line begins where its leftmost fragment does, is as large as its largest and stands at their mean height. |
| PdfLaws.JoinOrderExactly | packages/governance/sources/loaders/pdf.py:292-292 | The fragments of a line are joined from left to right. |
| PdfLines.FragmentsArePartitioned | packages/governance/sources/loaders/pdf.py:274-303 | Every fragment is in exactly one line, and a line shows exactly its fragments' visible characters. |
| PdfLines.JoinedKeepsVisible | packages/governance/sources/loaders/pdf.py:306-317 | Joining fragments adds and drops nothing but spaces. |
| PdfLaws.SpacedExactly | packages/governance/sources/loaders/pdf.py:306-317 | One space separates two fragments, or none where the last character before or the first one after belongs to both. |
| PdfLines.ExtractionOrderIsIrrelevant | packages/governance/sources/loaders/pdf.py:274-303 | Extracting the same fragments in any other order gives the same lines, even between fragments that tie in position and text. |
| PdfBlocks.BodyFontSize | packages/governance/sources/loaders/pdf.py:320-330 | The running total finds a true weighted median: less than half of the characters are smaller, at least half no larger. |
| PdfBlocks.MedianIsUnique | packages/governance/sources/loaders/pdf.py:320-330 | There is at most one such size, so the order of the lines does not matter. |
| PdfLaws.BodySizeExactly | packages/governance/sources/loaders/pdf.py:320-330 | Of all characters less than half are in type smaller than the body size, and at least half in type no larger; some line has that size. |
| PdfBlocks.HeadingSizesAreLargest | packages/governance/sources/loaders/pdf.py:333-341 | The heading sizes fall strictly, are sizes of lines that stand out, and a size left out is smaller than all six. |
| PdfBlocks.LargerTypeIsNeverDeeper | packages/governance/sources/loaders/pdf.py:344-349 | Of two headings the one in larger type is not at a deeper level. |
| PdfLaws.LevelExactly | packages/governance/sources/loaders/pdf.py:333-349 | A size makes headings exactly when it stands out and fewer than six larger ones do, and then the level is one more than their number. |
| PdfBlocks.LogicalBlocks | packages/governance/sources/loaders/pdf.py:352-385 | All lines go into blocks once and in order; neighbouring lines share a block exactly when both are body text, close and aligned. |
| PdfLaws.TogetherExactly | packages/governance/sources/loaders/pdf.py:370-383 | Two neighbouring lines share a paragraph exactly when neither is a heading, the gap is at most 1.8 times the larger of their sizes, and their starts are within 24 or 2.5 times the lower line's size. |
| PdfLaws.BlockText | packages/governance/sources/loaders/pdf.py:359-368 | The text of a block is the texts of its lines, one below the other. |
| PdfLaws.BlockMeasures | packages/governance/sources/loaders/pdf.py:359-368 | A block is as large as its largest line. |
| PdfBlocks.LevelExactlyHeadingLine | packages/governance/sources/loaders/pdf.py:344-385 | A block gets a heading level exactly when it came from a heading line, which is then its only line. |
| Calculator.CalculateSourceMetrics | packages/governance/scoring/calculator.py:80-146 | The loops accept exactly evaluations that do not repeat, agree with their pinned rule and are decided unless they failed; they return one result for each source that has evaluations, in order, each measured by counting. |
| Calculator.Partition | packages/governance/scoring/calculator.py:91-106 | Grouping gives every source its own evaluations, in order, bound to their pinned rules. |
| Calculator.ScoreSource | packages/governance/scoring/calculator.py:108-145 | The running counts and weights of one source are what counting its evaluations by status and severity gives; refused exactly when one that executed has no status. |
| ScoringLaws.ScoresMeasure | packages/governance/scoring/calculator.py:39-50 | A score is the rounding of 100 P / (P + F), with P and F ten, five, two and one times the numbers of a source's PASS and FAIL evaluations of each severity; a coverage that of 100 (pass + fail) / (pass + fail + manual); None exactly when nothing is there to divide by; each count is the number of its own evaluations. Results come by source id, CUSTOMER before GLOBAL. |
| ScoringLaws.AcceptedExactly | packages/governance/scoring/calculator.py:53-106 | Accepted exactly when no resource, rule version and source repeats, and each evaluation has the severity and type of its pinned rule, a source among that rule's references and, unless it failed to execute, a status. |
| Scoring.OrderIsIrrelevant | packages/governance/scoring/calculator.py:80-146 | Reordering the evaluations changes neither acceptance nor any result. |
| Scoring.CountsAddUp | packages/governance/scoring/calculator.py:112-144 | The counts over all sources add up to the number of evaluations. |
| Scoring.ScoresAreBounded | packages/governance/scoring/calculator.py:47-50 | Scores and coverages lie between 0 and 100. |
| Scoring.PassingNeverLowers | packages/governance/scoring/calculator.py:116-144 | Turning a FAIL into a PASS keeps the result acceptable, lowers no score, changes no coverage and no other source. |
| Ingestion.ReingestSucceedsExactly | packages/governance/sources/ingestion.py:252-276 | Re-ingestion succeeds if and only if parser, profile and all section references are unchanged, and returns the frozen document. |
| Ingestion.SameSnapshotSameReferences | packages/governance/sources/ingestion.py:135-158 | Documents with one snapshot hash have the same references. |
| Ingestion.VerifiedStaysVerified | packages/governance/sources/index.py:48-75 | A reference that verified once verifies after every later run of additions, refused ones included. |
| Ingestion.VerifiesExactlyReferences | packages/governance/sources/index.py:64-75 | A reference verifies exactly when it is one of the references of an indexed document. |
| Reload.LinesDetermineDocument | packages/governance/sources/loaders/markdown.py:34-75 | The lines of a text determine its whole document, ids and heading paths included. |
| Reload.SameTextReingests | packages/governance/sources/ingestion.py:135-158 | A text that differs in line ends and in white space after its end gives the same sections and snapshot, and re-ingestion accepts it. |
| Reload.OtherLineEndsReingest | packages/governance/sources/ingestion.py:135-158 | In particular the CRLF and CR versions of a text are accepted. |
| FrozenIndex.ScoreSection | packages/governance/sources/index.py:109-118 | The loop over the token set scores two for each token in the heading path and one for each other token in the text, in any order. |
| IndexLaws.ScoreCounts | packages/governance/sources/index.py:109-118 | The score is the number of tokens that occur at all plus the number of those in the heading path. |
| FrozenIndex.HitsAre | packages/governance/sources/index.py:91-100 | The candidates are exactly the scoring sections of the allowed documents. |
| FrozenIndex.BestAreBest | packages/governance/sources/index.py:102-106 | No section left out sorts strictly before one returned, and something is left out only at the limit. |
| IndexLaws.BestAreRanked | packages/governance/sources/index.py:102-106 | Higher scores come first, then smaller document ids, then smaller anchors; every hit returned outranks every one left out, and as many come as there are or the limit allows. |
| IndexLaws.HitsDiffer | packages/governance/sources/index.py:91-100 | No section is a hit twice. |
| IndexLaws.EvidenceExactly | packages/governance/sources/index.py:131-147 | What a hit cites: document, version, anchor, the hash of the section's text, and where it stands. |
| IndexLaws.DocumentOrderExactly | packages/governance/sources/index.py:58-59 | Documents are gone through by id, then by version. |
| FrozenIndex.EvidenceVerifies | packages/governance/sources/index.py:64-106 | Every hit comes from an allowed source and verifies against the index that returned it. |
| FrozenIndex.FrozenDocumentIndex.Add | packages/governance/sources/index.py:48-56 | A version is replaced only by a document with the same snapshot. |
| FrozenIndex.FrozenDocumentIndex.Search | packages/governance/sources/index.py:77-106 | The loops and the sort return the evidence of the best hits over the documents in key order. |

## Left out

- Normalization.NormalizeFixesExactlyNormal: Unicode normalisation to NFC is the identity in the model, so all results on texts are about texts already in NFC.
- HtmlTable.Span: which characters are digits, and the values of decimal digits, are parameters; the limit on the length of a numeral is the one of the interpreter the repository asks for.
- MarkdownLines.ShapeIsSane: list numbers are ASCII digits; the regular expression accepts every decimal digit.
- RowLocators.UnquoteOfLocatorValue: percent escapes of bytes above 0x7F, which sheet names encoded here never produce, are left as they are instead of being decoded as UTF-8.
- Segmentation.SectionAnchorsAreDistinct: slugs come from any function that never yields a tilde; slugify is one for any case folding and any set of word characters without the tilde.
- Scoring.ScoresAreBounded: rounding to one decimal is any monotone function that fixes 0 and 100; which decimal a quotient rounds to is not modelled.
- PdfBlocks.BodyFontSize: sizes and coordinates are real numbers; sums and averages are exact.
- PdfBlocks.LargerTypeIsNeverDeeper: rounding to two places is any monotone function.
- Ingestion.ReingestSucceedsExactly: the semantic hash is taken to be injective on snapshots.
- Reload.SameTextReingests: covers Markdown and plain text under the heading profile; the HTML, DOCX and PDF loaders are not connected to re-ingestion.
- Segmentation.SectionsPartitionDocument: blocks before the first heading belong to no section, in the source as in the model.
- Candidates.ServiceRunKeepsInv: an invalid proposal raises in the model; the service reports its issues instead and also stores nothing.
- ControlMatrix.LoadSheet: begins at parsed rows, cells and merged ranges; reading the archive, the XML, shared strings and cell types is not modelled, nor are the texts of warnings and errors.
- HtmlParser.Parse: begins at the tokenizer's events; emitting blocks, inline text, lists and links from the tree is not modelled.
- FrozenIndex.BestAreBest: the query comes as its set of tokens; tokenizing and excerpts are not modelled.
- JobRuns.RunKeepsInv: the table service is a map with atomic conditional puts and strongly consistent reads, which is what the repository asks of it.
- PDF page loop: numbering blocks per page and the triage of scanned and encrypted files add only routine steps to the modelled line and block recovery.
- DOCX loading, the official source catalog, readiness and source selection, upload checks, authentication roles, error sanitising and the S3 artifact store: guard lists, filters and formats without a property beyond their own text.
- The assessment start and progress protocol: only its messages are in code.
- Type and emptiness checks of `from_dict` and `__post_init__`: the model's types exclude what they reject, except where a check can fail at run time.
- JSON, SHA-256, ElementTree, zip, pypdf, HTTP and AWS clients, and the user interface.
