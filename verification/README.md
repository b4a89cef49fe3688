# DriftScribe coordinator: models and proofs

DriftScribe watches one deployed service, compares it with an operational contract, and lets an
operator approve what is done about a difference. This project models the parts of its coordinator
whose correctness spans several operations, and proves what they are for:

- **Events** (`EventStore`, `EventProtocol`). A pointer document per event key is claimed if absent,
  filled in one batch with the decision, compared and deleted when stale, and released on failure.
  The protocol is a state machine over the store accesses of any number of runs, interleaved one
  access at a time; a run may stop for good at any point, so every prefix of a run is a crash.
- **Conversations** (`Handoff`, `Conversation`, `ConversationStores`, `ConversationAgreement`,
  `ConversationRuns`, `ConversationAnswers`). A conversation has a bound crew, the crews it has had,
  a transcript, at most one open handoff proposal guarded by a one-shot nonce, and a run lease. Both
  stores are classes proved against what they do to one conversation; a simulation connects them; a
  machine of chat runs, leases and redemptions carries the invariants over whole runs; and what each
  call answers and leaves is stated field by field.
- **Traces** (`TraceFetcher`). A fast, narrow query is shown equal to the retention-deep one.
- **Rendering** (`BoundedText`, `BlockOpeners`, `RollbackBody`, `ApprovalTokens`). Text cut to a
  consumer's bound, the rollback approval body, and the removal of approval tokens from nested
  values.
- **Classifier and gate** (`Classifier`, `Validator`, `GateAnswers`). The loop-built gate equals one
  declarative predicate, and the classifier's proposals pass it exactly under a stated condition.
- **Runbook** (`RunbookPatcher`, `RunbookPattern`, `RunbookIdempotence`, `RunbookOneSection`,
  `RunbookReports`, `RunbookRest`, `RunbookFences`, `RunbookLimits`). Section-targeted patching: the
  line model finds what the pattern matches in the text; what a patched text says of each report and
  what it leaves alone; what idempotence rests on for any patch, exactly when it holds for a patch of
  one section, and exactly when an open fence makes it fail.
- **Adoption pull requests** (`AdoptRecipe`, `PendingApprovals`, `AdoptAnswers`). A printer and its
  parser.

## How the source is represented

- Firestore transactions, batches and single-document calls are one atomic step each; a query is a
  filter over a sequence. A decision log is a sequence in creation order, so "newest" is "last".
- A class stands for each store object, with its dictionaries as `map` fields and methods that
  reassign them. Each method is tied to a specification function of one key or one conversation;
  those rows below are links, not results. What the functions are worth is proved of them in
  `EventProtocol`, `ConversationAgreement`, `ConversationRuns` and `ConversationAnswers`. Loops of the source that update
  variables are methods with invariants, each proved equal to a function or to a declarative
  predicate.
- SHA-256 of a nonce is injective. Fresh identifiers, clocks and randomness are parameters. A run
  mints an approval and its decision identifier is fresh; once a decision is stale it stays stale.
- Times are integers: seconds for leases and proposals, microseconds for traces (a trace bound is
  formatted to whole seconds, which `Truncate` models).
- A runbook is its lines. `\s` may match line ends in the heading pattern, which the model keeps: a
  heading's name may stand below its `##`, and blank lines below a heading belong to it
  (`RunbookPattern` proves the two the same).
- What counts as whitespace in the patcher and in import ids is written out (`IsSpace`); elsewhere
  whitespace and word characters are parameters, so the results hold for any reading of them.
- Secret-likeness of a name, the friendly-name table of resource types, and the list of identities
  no adoption may touch are parameters of the operations that consult them.

## What was found to differ from what the code or its documentation says

- The promise of one live approval per drift needs its two hypotheses. With overlapping runs and a
  record write that commits while reporting failure, two approvals can be live:
  `EventProtocol.OverlapWithAmbiguityMintsTwice`.
- The two conversation stores differ on `last_trace_id` after a redemption
  (`ConversationAgreement.TraceAfterRedeem`), on the fence of an append that creates the document
  (`ConversationAgreement.CreatingAppendAgreesExactly`), and after an id with turns is created again
  (`ConversationAgreement.RecreationPartsTheStores`). Each lemma says exactly when they agree.
- The trace fetch is exact for gaps up to six hours less one second (to the microsecond,
  `TraceFetcher.SAFE_GAP`), and one microsecond more loses an entry
  (`TraceFetcher.WiderGapLosesAnEntry`). A usable hint whose window is empty answers "nothing", even
  when the deep window holds entries.
- The evidence table's greedy loop can drop a whole table that would have fitted, because only the
  last row takes the omission note away. A budget that is exactly the table's length shows it if and
  only if the last row is about as long as the note (`RollbackBody.WholeTableShownExactly`), which
  short rendered rows are not (`RollbackBody.WholeTableMissed`).
- Removing one `<` can complete another block opener, so only code delimiters are promised gone
  (`BoundedText.BlockOpenersMayRemain`). `BlockOpeners.NeutralizedOpenersExactly` says exactly when
  an opener is left.
- The patcher's docstring promises idempotence without conditions. For a patch of one section, on
  any text without code fences, it holds if and only if the section does not run to the end of the
  text with a last line `##` below its first line while a bullet is to be added
  (`RunbookOneSection.PatchRunbookOneSectionExactly`); three times is always twice
  (`RunbookOneSection.ThirdPatchChangesNothing`). Patches of several sections also fail for
  consecutive empty sections (`RunbookLimits.EmptySectionsBreakIt`), when an old bullet carries
  another section's heading (`RunbookLimits.HeadingInBulletIsLost`), and for a blank operator note,
  whose trailing space a later stub strips (`RunbookLimits.BlankNoteBreaksIt`).
- The patcher asserts that it finds the section it has just added. It does not if and only if the
  section is missing from a text with an odd number of fence lines whose last one does not itself
  end in the section's heading (`RunbookFences.UnclosedFenceHidesTheStub`).
- The parser of import ids accepts ids that no adoption produces, contrary to its docstring:
  an accepted id comes from an adoption if and only if its parts are well-formed names
  (`PendingApprovals.AdoptableIdsExactly`). Two adoptions share a file and an address if and only if
  their names agree up to case and punctuation (`PendingApprovals.AdoptionsShareFileExactly`).

## Model

| member | source | states |
|---|---|---|
| EventStore.NewestIsLast | agent/state_store.py:829-881 | the recovery query finds a decision exactly when some decision carries the key, and it is the last of them |
| EventStore.FirestoreEventStore.RecordEvent | agent/state_store.py:805-817 | a claim succeeds exactly when no pointer exists, and then leaves an empty one |
| EventStore.FirestoreEventStore.ReleaseEvent | agent/state_store.py:819-827 | the pointer is gone afterwards and nothing else changes |
| EventStore.FirestoreEventStore.FindDecisionForEvent | agent/state_store.py:829-881 | the pointer's decision when it names one that exists, and the newest decision of the key when the pointer is absent or empty; the loop over the query result is proved against it |
| EventStore.FirestoreEventStore.RecordDecision | agent/state_store.py:883-918 | decision and pointer commit together |
| EventStore.FirestoreEventStore.EvictCachedDecision | agent/state_store.py:938-1012 | compare and delete: an absent pointer is a success, a pointer to anything else a failure that changes nothing |
| EventStore.InMemoryEventStore.RecordEvent | agent/state_store.py:351-355 | the same claim as the Firestore store |
| EventStore.InMemoryEventStore.ReleaseEvent | agent/state_store.py:357-360 | the same release |
| EventStore.InMemoryEventStore.FindDecisionForEvent | agent/state_store.py:362-366 | the pointer's decision if it exists, with no recovery query |
| EventStore.InMemoryEventStore.RecordDecision | agent/state_store.py:368-387 | fills the pointer only if the key is claimed |
| EventStore.InMemoryEventStore.EvictCachedDecision | agent/state_store.py:406-418 | the same compare and delete |
| EventStore.LookupsAgreeExactly | agent/state_store.py:362-366 | the two lookups agree if and only if the key's pointer document holds a decision or no decision carries the key |
| EventStore.Put | agent/state_store.py:883-918 | a new decision document becomes the newest one |
| EventProtocol.ClaimInvStep | agent/main.py:1757-1858 | every store access of every run keeps: a claim is exclusive and its pointer empty, whatever may be served is named by the pointer document, and only stale decisions are evicted |
| EventProtocol.NoDoubleMintUnderOverlap | agent/state_store.py:843-876 | in every interleaving of any number of runs whose failed record writes wrote nothing, each key has at most one servable decision, its pointer document holds it, and nobody mints while one is live or another run holds the claim |
| EventProtocol.SequentialInvStep | agent/state_store.py:955-995 | every access keeps the invariant of runs that do not overlap on the key, ambiguous record writes included |
| EventProtocol.NoDoubleMintUnderAmbiguity | agent/state_store.py:829-881 | for runs that do not overlap, record writes that commit behind a reported failure leave at most one servable decision per key, and the newest-first query finds it |
| EventProtocol.PointersAccountedStep | agent/state_store.py:805-827 | every access of every run keeps: an empty pointer belongs to a run that still holds the claim, and a full one names a decision of its key |
| EventProtocol.QuietKeyIsNeverWedged | agent/state_store.py:955-995 | from every quiescent state of every run, overlapping and ambiguous or not, a fresh run serves a live decision of the key, or evicts a stale one and gets to claim: a failed repair never wedges a key |
| EventProtocol.QuietKeyFindsTheNewest | agent/state_store.py:829-881 | when runs on the key do not overlap, what that run finds is the newest decision |
| EventProtocol.LoneLookup | agent/main.py:2466-2509 | a run alone on its key is led by its lookup to the decision the store finds, or to the claim when there is none |
| EventProtocol.LoneAct | agent/main.py:2645-2676 | a run alone on its key serves what is live, and evicts and claims what is stale |
| EventProtocol.OverlapWithAmbiguityMintsTwice | agent/state_store.py:829-881 | concrete overlapping runs with one ambiguous commit after which two decisions of one key may be served |
| Handoff.ValidateProposal | agent/handoff.py:149-183 | accepted exactly for a known crew other than the current one with a reason that survives cleaning; what is stored comes from the current crew and goes to another |
| Handoff.ValidatedExactly | agent/handoff.py:149-183 | which of the three refusals is given, and that what is stored is the reason cleaned to 200 characters and the brief to 1200 |
| ConversationStores.AppendRows | agent/state_store.py:593-623 | the loop appends the turns numbered from the counter and keeps the last trace id that is given |
| ConversationStores.InMemoryStateStore.CreateConversation | agent/state_store.py:490-509 | a fresh document; an existing turn list stays |
| ConversationStores.InMemoryStateStore.AppendTurns | agent/state_store.py:531-636 | document, turns and answer after an append, with the fence put to the document as it stands, also one just created; no other conversation changes |
| ConversationStores.InMemoryStateStore.BeginChatRun | agent/state_store.py:640-653 | refuses exactly while another lease is live, allows a conversation that does not exist yet, and claims the lease otherwise |
| ConversationStores.InMemoryStateStore.FinishChatRun | agent/state_store.py:655-664 | frees the lease only if this run holds it |
| ConversationStores.InMemoryStateStore.RedeemHandoff | agent/state_store.py:666-701 | a refusal changes nothing; a granted redemption adds one row, closes the proposal, and on acceptance moves the crew and takes the lease |
| ConversationStores.SetTurnDocs | agent/state_store.py:1219-1251 | the loop sets one keyed document per turn from the counter on |
| ConversationStores.FirestoreStateStore.CreateConversation | agent/state_store.py:1119-1136 | a fresh document; the turn collection stays |
| ConversationStores.FirestoreStateStore.AppendTurns | agent/state_store.py:1157-1265 | as in memory, except that a creating append skips the fence |
| ConversationStores.FirestoreStateStore.BeginChatRun | agent/state_store.py:1269-1302 | the same lease decision in a transaction |
| ConversationStores.FirestoreStateStore.FinishChatRun | agent/state_store.py:1304-1322 | the same guarded release |
| ConversationStores.FirestoreStateStore.RedeemHandoff | agent/state_store.py:1324-1393 | as in memory, except that the last trace id stays |
| ConversationAgreement.StepKeepsAgreement | agent/state_store.py:531-701 | one create, append, begin, finish or redeem gets the same answer from both stores and leaves the same document, up to the last trace id, and the same turns |
| ConversationAgreement.StoresAgree | agent/state_store.py:1157-1393 | every sequence of such calls does, provided an id is created while it has no turns and a creating append matches what it creates |
| ConversationAgreement.CreatingAppendAgreesExactly | agent/state_store.py:1208-1258 | a creating append leaves equal documents if and only if its expectations match what it creates |
| ConversationAgreement.TraceAfterRedeem | agent/state_store.py:1358-1376 | a redemption leaves equal documents if and only if it carries no trace id or the stored one |
| ConversationAgreement.RecreationPartsTheStores | agent/state_store.py:490-509 | after creating an id again, a later append leaves the same turns if and only if there were none before |
| ConversationRuns.LegacyCountIsExact | agent/state_store.py:154-178 | the fallback for documents without a counter is exact on alternating user and crew rows |
| ConversationRuns.StepKeeps | agent/main.py:619-700 | every begin, persist, finish, open and redeem keeps numbering, counting, ownership and control of the proposal |
| ConversationRuns.TurnsAreNumberedAndCounted | agent/state_store.py:1194-1251 | in every reachable state the turns are numbered 0 to turn_count-1 and user_turn_count is the number of user rows, legacy starts included |
| ConversationRuns.TranscriptDeterminesOwnership | agent/state_store.py:305-319 | in every reachable state the bound crew is the target of the last crew_change row or the originating crew, and crews is the first-occurrence order of originating crew and accepted targets |
| ConversationRuns.CrewsReadBack | agent/state_store.py:124-146 | a stored crew list without empty names is read back as it is |
| ConversationRuns.JoinedCrews | agent/state_store.py:185-192 | joining keeps the list duplicate-free, in first-occurrence order, and adds the crew exactly if it is new |
| ConversationRuns.NoProposalIsStale | agent/state_store.py:195-230 | when every writer passes the crew and digest it observed, an open proposal's origin is the bound crew in every reachable state, so the stale refusal cannot happen |
| ConversationRuns.UnseenProposalsSurvive | agent/state_store.py:233-280 | no run clears or replaces a proposal it did not observe, also when ownership cycles |
| ConversationRuns.NoncesRedeemOnce | agent/state_store.py:195-230 | in any run each digest is redeemed successfully at most once |
| ConversationRuns.OnlyRedemptionMovesTheCrew | agent/state_store.py:1347-1393 | a change of the bound crew is an accepted redemption of the open proposal by its own nonce before its deadline, and a refused redemption leaves everything as it was |
| ConversationRuns.HeldConversationStands | agent/state_store.py:283-302 | while a live lease is held, no redemption succeeds and the crew is constant, whatever other runs do |
| ConversationRuns.BegunRunKeepsTheConversation | agent/state_store.py:640-664 | from a successful begin until that lease expires or its holder finishes, the conversation stays the run's; a late finish by another run frees nothing |
| ConversationRuns.JoiningRunKeepsTheConversation | agent/state_store.py:666-701 | an accepted redemption with a run id leaves the lease with that run, and the same protection follows |
| ConversationRuns.FirestoreFollows | agent/state_store.py:1157-1393 | the Firestore store follows the machine through every legal run, so the results above hold for it too |
| ConversationAnswers.GrantedExactly | agent/state_store.py:195-230 | a redemption is granted if and only if the open proposal is the nonce's own, its window is readable and still open, it starts from the bound crew, and there is no lease, or one without a run, or one whose deadline is unreadable or has come |
| ConversationAnswers.RefusedExactly | agent/state_store.py:195-230 | each of the six refusals is given if and only if its fault is there and no earlier one |
| ConversationAnswers.RedemptionLeavesExactly | agent/state_store.py:666-701 | one row more, numbered next, with the proposal's reason and route and the crew that now owns the conversation; proposal, crew, crews, lease and answer as accepted or declined |
| ConversationAnswers.FirestoreRedemptionLeavesExactly | agent/state_store.py:1324-1393 | the same but for the last trace id |
| ConversationAnswers.LastTraceExactly | agent/state_store.py:593-623 | the last trace id given among the turns, or the stored one when none is |
| ConversationAnswers.AppendLeavesExactly | agent/state_store.py:551-636 | the rows under the numbers answered, the counters, and the open proposal replaced, retired or kept by a writer that names the bound crew and the open proposal, and kept by any other |
| ConversationAnswers.CreationLeavesExactly | agent/state_store.py:1157-1265 | what an append that creates the conversation leaves in either store, and that without permission to create it nothing changes |
| ConversationAnswers.BeginExactly | agent/state_store.py:640-653 | a run may begin if and only if there is no conversation yet or nobody holds it at that time; then only the lease changes |
| ConversationAnswers.FinishExactly | agent/state_store.py:655-664 | the lease goes if and only if it is the run's own; nothing else changes |
| ConversationAnswers.ExpiredLeaseGivesWay | agent/state_store.py:283-302 | from a lease's deadline on any run can begin, and then holds the conversation until its own |
| ConversationAnswers.OneHolderAtATime | agent/state_store.py:1269-1302 | after a successful begin, in every legal continuation before the deadline without the holder's finish, another run can begin if and only if the deadline has come |
| ConversationAnswers.ProposalWindow | agent/handoff.py:210-246 | over every run: a persisted proposal's nonce is granted if and only if it is still the open one, fewer than 900 seconds have passed, and nobody holds the conversation |
| ConversationAnswers.ClosedWindowRefuses | agent/handoff.py:232-246 | from 900 seconds on it is refused, whatever happened |
| ConversationAnswers.PersistLeavesProposalExactly | agent/main.py:619-700 | a run whose crew is bound and whose seen proposal is the open one puts its own in its place, or retires it if the turn was typed; any other run leaves it; the prompt, if typed, and the reply are added under the run's crew |
| ConversationAnswers.RetiredIsRefused | agent/state_store.py:195-230 | a minted proposal that is no longer open is refused from then on, in every legal continuation |
| ConversationAnswers.AnsweredProposalRetires | agent/state_store.py:624-636 | so a typed turn that saw the open proposal ends it: its nonce is refused whatever follows |
| ConversationAnswers.AnswerAfterReadingRetires | agent/main.py:619-700 | the same from arrival to answer: whatever happens in between, a run that arrived while the proposal was open and whose turn is stored while it and the crew still stand ends it for good |
| ConversationAnswers.RedeemedProposalRetires | agent/state_store.py:666-701 | so does a redemption, accepted or declined |
| TraceFetcher.QueryIsWindow | agent/trace_fetcher.py:182-233 | a query returns a contiguous window of the trace's entries, newest first, cut to the limit |
| TraceFetcher.WideQueryReads | agent/trace_fetcher.py:172-233 | the deep query returns the newest entries of the trace, at most `limit`, and leaves none out above its floor, which is the lookback in days before now, rounded down to a second |
| TraceFetcher.FastIsWide | agent/trace_fetcher.py:246-264 | an unstraddled, non-empty fast window holds all the deep window would return |
| TraceFetcher.HintedIsWide | agent/trace_fetcher.py:266-340 | so does an unstraddled, non-empty hint window |
| TraceFetcher.FetchRefinesWideQuery | agent/trace_fetcher.py:285-384 | for gaps up to six hours less a second, every call returns exactly the newest `limit` entries of the deep window, if and only if it is not a usable hint with an empty window over a non-empty deep one |
| TraceFetcher.WiderGapLosesAnEntry | agent/trace_fetcher.py:79-115 | a gap one microsecond wider, on which the hinted call returns too little |
| TraceFetcher.OtherIdsFindNothing | agent/trace_fetcher.py:342-384 | for an id that is not 32 lower-case hexadecimal digits nothing is returned, whatever the log holds |
| BoundedText.DecimalWidth | agent/renderer.py:340-354 | the marker for fewer characters is never wider than the one reserved |
| BoundedText.DecimalReadsBack | agent/renderer.py:340-354 | a count is written in decimal: reading the digits gives it back |
| BoundedText.ClampFits | agent/renderer.py:295-354 | cuts exactly when the text is over the cap; keeps a prefix and a suffix, states exactly what lies between, stays within cap minus reserve, and gives the odd character to the tail |
| BoundedText.BacktickFreeUnchanged | agent/renderer.py:441-442 | removing backticks changes nothing where there is none |
| BoundedText.TildeFencesGone | agent/renderer.py:441-442 | removing runs of three or more tildes joins no shorter ones into a new fence |
| BoundedText.OpenersKeepTildesApart | agent/renderer.py:472-475 | the later removal of `<` cannot rejoin tildes |
| BoundedText.NothingCanOpenCode | agent/renderer.py:478-534 | the result holds no backtick and no three tildes in a row, and is no longer than the fragment |
| BoundedText.NeutralizingKeepsProse | agent/renderer.py:478-534 | every other character comes through, in order |
| BoundedText.LeftAloneExactly | agent/renderer.py:478-534 | a fragment is unchanged if and only if it holds no backtick, no tilde fence and no block opener |
| BoundedText.BlockOpenersMayRemain | agent/renderer.py:472-475 | `<<!--` becomes `<!--` |
| BlockOpeners.RevivesExactly | agent/renderer.py:472-475 | a `<` that is kept opens a block afterwards if and only if another `<` right after it goes and leaves an opener that stays one, or one goes between `!` or `/` and a tag |
| BlockOpeners.NeutralizedOpenersExactly | agent/renderer.py:478-534 | an opener is left in a neutralized fragment if and only if, with its code delimiters gone, some `<` revives in that way |
| BlockOpeners.ApartAnglesLeaveNone | agent/renderer.py:478-534 | none is left when no `<` follows another at once or after one `!` or `/` |
| BoundedText.ClampNeutralizedIsSafe | agent/renderer.py:568-574 | a clamped, neutralized text is within the cap, whole when it fits, and opens no code when it was cut |
| BoundedText.ClampShows | agent/renderer.py:537-574 | under any cap: the text itself when it fits, else its head and tail around the marker with the exact count, with nothing but delimiters taken from either, or its head alone when no marker fits |
| BoundedText.NotifierBodyIsSafe | agent/renderer.py:537-574 | the same for the notifier's 10000 characters, for every body, with both ends shown around the count of what is missing |
| BoundedText.StripReads | agent/renderer.py:357-396 | stripping takes whitespace off both ends and nothing else |
| BoundedText.ReasonConforms | agent/renderer.py:357-396 | a reason is 1 to cap characters, the disclosure when blank, and stripped and whole when it fits |
| BoundedText.ReasonsDisclosedExactly | agent/renderer.py:385-387 | the disclosure is given if and only if the reason is blank or says just that |
| BoundedText.LongReasonKeepsBothEnds | agent/renderer.py:376-396 | a long reason keeps as much of head and tail as fits around the stated omission |
| BoundedText.RollbackReasonConforms | agent/renderer.py:591-600 | rollback reasons are 1 to 2000 characters and close reasons 1 to 1000, for every input |
| RollbackBody.KeepRows | agent/renderer.py:868-877 | the loop keeps the rows the greedy count allows, whole and in order |
| RollbackBody.BoundedEvidence | agent/renderer.py:859-884 | the table of the kept rows with the note of the rest, or the omission text, or nothing |
| RollbackBody.KeptExactly | agent/renderer.py:870-877 | at least k rows are kept if and only if every cut up to k fits |
| RollbackBody.EvidenceFits | agent/renderer.py:859-890 | never over a non-negative budget, whole rows only, and the full table when all rows are kept |
| RollbackBody.EvidenceShows | agent/renderer.py:859-890 | as text: the header, the first rows in order as long as each cut fits, and how many are missing; or the omission text; or nothing |
| RollbackBody.KeepsAsManyRowsAsFit | agent/renderer.py:859-884 | k rows are kept if and only if the cut after k fits and, when k is all of them, the cut one row shorter fits too |
| RollbackBody.WholeTableShownExactly | agent/renderer.py:859-884 | a budget of the whole table's length shows it if and only if there is one row or the last row and its line end are as long as the note |
| RollbackBody.EscapeIsGuarded | agent/renderer.py:21-35 | in an escaped cell every vertical bar and backtick stands right after a backslash |
| RollbackBody.PlainRowReads | agent/renderer.py:66-73 | the row of a difference with nothing to escape or redact: name, expected, live, status, pull request, debug value, in that order, a dash for none |
| RollbackBody.RowHidesRedacted | agent/renderer.py:38-73 | a row says of a redacted value that it is given and nothing else: differences that agree on the rest have one row |
| RollbackBody.ShortRow | agent/renderer.py:66-73 | the length of the rendered row of a plain violation |
| RollbackBody.WholeTableMissed | agent/renderer.py:872-877 | with the shipped copy: two rendered rows, the last with name and values of nine characters together, of which none is shown though their table fits |
| RollbackBody.BudgetAddsUp | agent/renderer.py:957-968 | rationale and evidence together stay within the room the template leaves; the rationale takes at most half and is whole or opens no code |
| RollbackBody.LinkComesFirst | agent/renderer.py:793-845 | the approval link stands in the body before anything a model wrote |
| RollbackBody.FallbackKeepsLink | agent/renderer.py:970-996 | every fallback is within the cap and holds the whole link whenever link and newline fit |
| RollbackBody.FittingBodyIsUntouched | agent/renderer.py:939-955 | a body that fits is the unbounded one, and only a non-positive cap that does not fit is refused |
| RollbackBody.LinkSurvivesEveryCap | agent/renderer.py:893-996 | a positive cap is never exceeded; the whole link is there whenever it and its newline fit; and a template shorter than the cap is never cut, so the inner length check always succeeds |
| RollbackBody.RollbackBodyIsRight | agent/renderer.py:893-996 | the text of the body under every positive cap: the whole template around rationale and table when it fits; else the template around the rationale shown under half the room it leaves and the table under the rest; else the short body, the link, or its first characters; within the cap, the link whole whenever it fits |
| ApprovalTokens.LinkLengthUnique | agent/renderer.py:605-610 | an approval link at a position has one length |
| ApprovalTokens.MatchesExactly | agent/renderer.py:605-610 | what the pattern matches, spelled out: the path, an id, the token query, and a first token character |
| ApprovalTokens.TokenIsScrubbed | agent/renderer.py:605-636 | a whole token after a link becomes the marker, and what is around it stays or is scrubbed in turn |
| ApprovalTokens.NoTokenizedLink | agent/renderer.py:618-636 | no link with a token character after it occurs anywhere in a scrubbed string |
| ApprovalTokens.AngleFreePrefix | agent/renderer.py:605-610 | the scan's output agrees with its input up to the first `<` it writes |
| ApprovalTokens.NothingLeft | agent/renderer.py:618-636 | the scrubbed string matches nowhere: the leftmost scan makes no new match |
| ApprovalTokens.UnchangedExactly | agent/renderer.py:634-636 | a string is returned as it was if and only if nothing in it matches, and scrubbing twice is scrubbing once |
| ApprovalTokens.OnlyTokensChange | agent/renderer.py:605-610 | input and output are the same pieces, with each whole, maximal token after a link replaced and nothing else |
| ApprovalTokens.RedactedAt | agent/renderer.py:618-645 | position by position: within the depth bound only tokens in strings change, one level below stands the marker, and deeper there is nothing |
| ApprovalTokens.NoTokenAnywhere | agent/renderer.py:618-645 | no string value at any position matches afterwards |
| ApprovalTokens.RedactIdempotent | agent/renderer.py:613-645 | redacting twice is redacting once, at the depth cut-off too |
| Validator.AuthorizeFromLiveEnv | agent/validator.py:40-159 | accepts if and only if there is an observation and some strict variable is readable in it with another value |
| Validator.CheckCoherence | agent/validator.py:277-286 | accepts if and only if no variable is reported with two live values |
| Validator.CheckReported | agent/validator.py:326-360 | accepts if and only if every deviation from the declared value is of a strict variable and there is one |
| Validator.ValidateRollback | agent/validator.py:215-370 | the rollback half of the gate equals its declarative predicate, and every refusal is for a true reason |
| Validator.CheckDocumentable | agent/validator.py:382-399 | accepts if and only if no name is secret-like, undeclared ones have evidence and declared ones allow manual change |
| Validator.CheckDocsTargets | agent/validator.py:401-413 | accepts if and only if every declared variable is documented at the chosen place |
| Validator.ValidateDocsPr | agent/validator.py:372-413 | the docs half of the gate equals its declarative predicate |
| Validator.Validate | agent/validator.py:162-413 | the gate accepts exactly what the predicate describes, and every refusal is for a true reason |
| Validator.RollbackVerdictIgnoresTheRest | agent/validator.py:227-370 | a rollback verdict depends only on the set of claimed live values, the contract and what was observed of strict variables: never on expected values, statuses, pull request or debug fields, order, repetition or rationale |
| Validator.RollbackPossibleExactly | agent/validator.py:114-159 | some rollback can pass the gate if and only if the observed environment shows a strict variable off its declared value |
| GateAnswers.RevisionNamesExactly | agent/validator.py:16 | a revision name: a letter, at most 62 letters, digits and hyphens, a letter or digit |
| GateAnswers.StaysInsideExactly | agent/validator.py:34-38 | a docs path passes if and only if it is relative and none of its parts is `..` |
| GateAnswers.RollbackPassesExactly | agent/validator.py:162-370 | a rollback passes the whole gate if and only if, over its fields: a revision name, a person to review, no variable with two live values, every report agreeing with the contract or of a strict variable and one not agreeing, and a strict variable observed off its value |
| GateAnswers.DocsPrPassesExactly | agent/validator.py:372-413 | a docs pull request passes if and only if it names a place and every report is no secret and either declared, open to manual change and documented there, or undeclared and explained |
| GateAnswers.OthersPassExactly | agent/validator.py:185-211 | everything else passes on action, confidence, reports and path alone |
| Classifier.StrictPrMatch | agent/classifier.py:14-23 | the address of the first merged pull request that mentions the name as a whole token |
| Classifier.SortNames | agent/classifier.py:49 | the names in strict code-point order, each once |
| Classifier.DiffOf | agent/classifier.py:49-82 | a difference exactly for a drifted variable, with its status and evidence |
| Classifier.CollectDrift | agent/classifier.py:42-82 | the loop reports every drifted variable and no other, in order, with what each calls for |
| Classifier.GravestAction | agent/classifier.py:92 | the choice by priority is the gravest action any variable calls for |
| Classifier.Classify | agent/classifier.py:42-110 | the proposal is the classification of its inputs |
| Classifier.ActionExactly | agent/classifier.py:49-91 | from contract and environment alone: a drift issue if and only if some strict declared variable is missing or off its value; else an escalation if and only if some undeclared live one has no evidence; else a docs pull request if and only if they differ |
| Classifier.TargetExactly | agent/classifier.py:93-101 | the target is where the contract documents the first differing variable, or the fixed fallback when it is not declared |
| Classifier.LessExactly | agent/classifier.py:49 | names are ordered by prefix or by the first character that differs |
| Classifier.MentionsExactly | agent/classifier.py:14-23 | a name of word characters is mentioned if and only if it occurs with no word character on either side |
| Classifier.NoOpExactly | agent/classifier.py:84-90 | no-op if and only if the live and the declared environment coincide |
| Classifier.NeverRollsBack | agent/classifier.py:26-33 | a rollback is never proposed |
| Classifier.GateAcceptsExactly | agent/classifier.py:92-110 | the gate accepts a classification if and only if it is no docs pull request, or no drifted name is secret-like and all drifted declared variables have non-empty docs references equal to the chosen target |
| RunbookPatcher.TextOfLines | agent/runbook_patcher.py:27-44 | splitting into lines and joining them gives the text back |
| RunbookPatcher.MaskCodeFences | agent/runbook_patcher.py:27-44 | the loop masks exactly the lines inside fences, and keeps the number of lines |
| RunbookPattern.SectionIsMatch | agent/runbook_patcher.py:47-62 | finding a section among the lines is matching the heading pattern on the text: nothing is found if and only if nothing matches, and what is found is the first match, its heading as long and its body as short as they can be |
| RunbookPattern.FindSectionIsMatch | agent/runbook_patcher.py:27-62 | the whole search: the first match in the masked text, and from its start the match in the text itself |
| RunbookPatcher.PatchRunbook | agent/runbook_patcher.py:89-122 | refuses before any change when a written name is secret-like, and otherwise applies each edit to what the last one left |
| RunbookIdempotence.FindInSound | agent/runbook_patcher.py:47-62 | in fence-free text masking plays no part in finding a section |
| RunbookIdempotence.OneNamePerBullet | agent/runbook_patcher.py:71-86 | no line is a bullet of two variables |
| RunbookIdempotence.ReplacingDoes | agent/runbook_patcher.py:71-86 | replacing the bullets of a variable leaves its section standing with the new line and no other bullet of it |
| RunbookIdempotence.InsertingDoes | agent/runbook_patcher.py:82-86 | appending a bullet does, also to a section without text |
| RunbookIdempotence.ExtendedHasNew | agent/runbook_patcher.py:114-118 | the stub of a missing section is found where it was added |
| RunbookIdempotence.ExtendingKeepsDone | agent/runbook_patcher.py:114-118 | adding a stub undoes no edit, trailing whitespace stripped or not |
| RunbookIdempotence.PatchOneDoes | agent/runbook_patcher.py:104-122 | one edit is made |
| RunbookIdempotence.PatchOneKeepsDone | agent/runbook_patcher.py:104-122 | no later edit undoes it |
| RunbookIdempotence.PatchDoesAll | agent/runbook_patcher.py:104-122 | after the whole patch every edit is done |
| RunbookIdempotence.DoneIsFixed | agent/runbook_patcher.py:71-86 | making a done edit again changes nothing |
| RunbookIdempotence.PatchRunbookIsIdempotent | agent/runbook_patcher.py:89-122 | for patches of any number of sections, patching twice is patching once and shows every edit, given: fence-free text whose last line is not `##` and neither ends in nor names a reported section's heading; distinct names without `=`, line end or backslash; single-line values and non-blank notes without backslash, the notes without `##`; section names that are one line without backtick or `##` and neither start nor end in whitespace; no `##` after the last backtick of an old bullet of a reported variable; and reported sections that do not start with another heading, nor are empty while a section is to be added |
| RunbookIdempotence.OrdinaryTextIsClear | agent/runbook_patcher.py:82-86 | a heading and a line of text meet every condition, with or without a final line end |
| RunbookReports.BulletExactly | agent/runbook_patcher.py:80 | a line is a variable's bullet if and only if it is `- `, the name, `=`, a value in backticks, and anything |
| RunbookReports.PatchShowsReports | agent/runbook_patcher.py:89-122 | under the same conditions: after the patch, the section the contract names for each reported variable, or the default one, holds the observed value and the operator's note on its line, and no other line lists the variable there |
| RunbookReports.OneSectionShowsReportsExactly | agent/runbook_patcher.py:89-122 | for reports of one section on any fence-free text: all of them stand so after the patch if and only if none goes astray |
| RunbookRest.PatchOneKeepsRest | agent/runbook_patcher.py:104-122 | an edit of any text, fences or not, keeps every line but the variable's own, in order and up to trailing whitespace, and adds nothing but a missing section's heading at the end |
| RunbookRest.PatchKeepsTheRest | agent/runbook_patcher.py:89-122 | so does a whole patch that succeeds |
| RunbookOneSection.OneSectionExactly | agent/runbook_patcher.py:104-122 | for edits of one section on any fence-free text, patching twice is patching once if and only if no edit has to add a bullet to a section that runs to the end of the text with a last line `##` below its first |
| RunbookOneSection.OneEditExactly | agent/runbook_patcher.py:104-122 | the same of one edit |
| RunbookOneSection.PatchRunbookOneSectionExactly | agent/runbook_patcher.py:89-122 | the same of the whole patcher on its text, for reports of one section; asks of names only that they hold no `=`, line end or backslash, and of values and notes only that they hold no line end or backslash |
| RunbookOneSection.ThirdPatchChangesNothing | agent/runbook_patcher.py:104-122 | for one edit on any fence-free text, patching three times is patching twice |
| RunbookOneSection.TwiceAsText | agent/runbook_patcher.py:89-122 | patching the text twice is patching it once if and only if it is so of its lines |
| RunbookLimits.EmptySectionsBreakIt | agent/runbook_patcher.py:47-62 | three empty sections and two edits for which the patcher applied twice differs from once |
| RunbookLimits.MissingLineEndBreaksIt | agent/runbook_patcher.py:82-86 | a text that ends in an unfinished line `##`: the first patch puts the bullet below the section, the second puts one inside, and from then on nothing changes |
| RunbookLimits.HeadingInBulletIsLost | agent/runbook_patcher.py:80-81 | replacing a bullet that carries another section's heading takes that section away, and the patcher applied twice differs from once |
| RunbookLimits.BlankNoteBreaksIt | agent/runbook_patcher.py:65-76 | a bullet that ends in a space, as a blank note leaves it, before a section that is still to be added: the patcher applied twice differs from once |
| RunbookLimits.BlankNoteEndsInSpace | agent/runbook_patcher.py:74-76 | an operator note of blanks leaves such a bullet |
| RunbookFences.MaskedExactly | agent/runbook_patcher.py:24-44 | a line that starts with three backticks or tildes, or has an even number of such lines above it, is read as it is; any other one as so many spaces |
| RunbookFences.MaskedHeadingIsReal | agent/runbook_patcher.py:27-62 | what reads as a heading with the fences masked is one in the text itself |
| RunbookFences.StubIsLostExactly | agent/runbook_patcher.py:113-119 | the patcher fails to find the section it added if and only if the text leaves a fence open and, with a line end after it, shows no heading of the section outside its fences |
| RunbookFences.UnclosedFenceHidesTheStub | agent/runbook_patcher.py:113-119 | for a section name that does not itself read as a fence: if and only if the section is missing, the number of fence lines is odd, and the last non-blank line is not a fence ending in the section's heading |
| AdoptRecipe.ShapeOfImportId | driftscribe_lib/adopt_recipe.py:97-107 | an import id has its own kind's shape and no other's |
| AdoptRecipe.TwoSpellings | driftscribe_lib/adopt_recipe.py:391-416 | a topic is accepted in exactly two spellings, short or full path in the same project, and both give the short name |
| AdoptRecipe.ParametersFitExactly | driftscribe_lib/adopt_recipe.py:294-355 | the checks of one kind pass if and only if its own parameters are well formed and the others' are blank |
| AdoptRecipe.RendersExactly | driftscribe_lib/adopt_recipe.py:259-379 | rendering succeeds exactly on well-formed parameters, and the final shape check never fails |
| AdoptAnswers.NamesExactly | driftscribe_lib/adopt_recipe.py:130 | a name: a letter or digit and at most 253 characters of its alphabet |
| AdoptAnswers.LocationsExactly | driftscribe_lib/adopt_recipe.py:132 | the shape of a location |
| AdoptAnswers.ImagesExactly | driftscribe_lib/adopt_recipe.py:134 | the shape of an image reference |
| AdoptAnswers.ProjectsExactly | driftscribe_lib/adopt_recipe.py:136 | the shape of a project id |
| AdoptAnswers.BannedExactly | driftscribe_lib/adopt_recipe.py:141-169 | a parameter is banned if and only if one of the five strings occurs in it |
| AdoptAnswers.RefusalsAreTrue | driftscribe_lib/adopt_recipe.py:259-379 | every refusal gives a reason that is true of the parameters of that kind |
| AdoptAnswers.RenderingReads | driftscribe_lib/adopt_recipe.py:303-379 | path, address, import id, title and body of every accepted adoption, as text |
| AdoptAnswers.SlugReads | driftscribe_lib/adopt_recipe.py:158-160 | a slug character by character |
| PendingApprovals.SkipsUnlabelled | driftscribe_lib/pending_approvals.py:29-34 | nothing above the import id in the body reads as its label |
| AdoptAnswers.ExtractsExactly | driftscribe_lib/pending_approvals.py:29-34 | for any body: an id is found if and only if it stands somewhere in backticks after its label and whitespace, and no labelled id stands before it |
| PendingApprovals.BodyReadsBack | driftscribe_lib/adopt_recipe.py:505-537 | the body gives back the import id it was printed with |
| PendingApprovals.IdReadsBack | driftscribe_lib/pending_approvals.py:37-55 | an import id gives back its asset type and name, across all four shapes |
| AdoptAnswers.IdReadsExactly | driftscribe_lib/pending_approvals.py:37-55 | for any id: it gives a type and a name if and only if it is written for them in one of the four shapes |
| PendingApprovals.AdoptionReadsBack | driftscribe_lib/adopt_recipe.py:259-379 | for every accepted parameter set, body to import id to asset type and name |
| PendingApprovals.ApprovalShowsResource | driftscribe_lib/pending_approvals.py:58-94 | for every accepted parameter set, the approval built from the rendered body shows its asset type and name |
| PendingApprovals.ApprovalFieldsExactly | driftscribe_lib/pending_approvals.py:58-94 | for any body: both resource fields are given if and only if it carries an id of some shape, and then they name that kind and the last segment; a trace id is shown if and only if it has its wire shape |
| PendingApprovals.ImportIdsDiffer | driftscribe_lib/adopt_recipe.py:310-348 | equal import ids mean the same kind, name, project and location |
| PendingApprovals.SlugsExactly | driftscribe_lib/adopt_recipe.py:158-160 | two names have one slug if and only if they are as long and alike in every position, up to case and punctuation |
| PendingApprovals.AdoptionsShareFileExactly | driftscribe_lib/adopt_recipe.py:303-306 | two adoptions of one kind share path and address if and only if their names are so alike |
| PendingApprovals.MadeExactly | driftscribe_lib/pending_approvals.py:37-55 | an id of a kind's shape can be made from well-formed parts if and only if its own segments are well formed |
| PendingApprovals.AdoptableIdsExactly | driftscribe_lib/pending_approvals.py:37-55 | an id is the import id of some accepted adoption if and only if it has the kind's shape, its segments are well formed, and its name is not refused |
| PendingApprovals.ParserAcceptsMore | driftscribe_lib/pending_approvals.py:37-55 | `*` is accepted by the parser and is the id of no adoption of any kind |

## Left out

- RunbookIdempotence.PatchRunbookIsIdempotent: for patches of several sections the conditions on the text are sufficient, not shown necessary for every text: whether a text is fixed then also depends on the order of the edits and on where unanchored headings fall. For one section the condition is exact.
- RunbookFences.UnclosedFenceHidesTheStub: a section name that itself starts like a fence is covered by `RunbookFences.StubIsLostExactly` only.
- RunbookPatcher.PatchRunbook: replacement templates with a backslash stay open (`expand` is a parameter), and operator notes are single-line, as the contract loader demands, so collapsing their line ends is not modelled; section names are single lines that neither start nor end in whitespace.
- EventProtocol.QuietKeyIsNeverWedged: liveness of a key whose holder stops between claim and release is not claimed; the source has no expiry for a held claim.
- PendingApprovals.AdoptionReadsBack: the rendered HCL, the fixed paragraphs below the file's path and the tree checks for existing resources are not part of this model.
- AdoptAnswers.RenderingReads: the body's fixed wording is a parameter (`AdoptRecipe.SHIPPED` holds the shipped one), and so is the table of friendly type names.
- RollbackBody.LinkSurvivesEveryCap: the rationale arrives scrubbed and the rows arrive rendered (`RollbackBody.DiffRow` renders one); prose secret scrubbing, which promises no "no secret remains", is not modelled.
- BoundedText.NothingCanOpenCode: says nothing about HTML block openers, which one pass does not remove to a fixpoint; `BlockOpeners` says which are left.
- Decision payloads, notify outcomes, lookups by trace id or pull request, and the lists: reads and single-field writes.
- Conversation timestamps, titles beyond creation, tool calls and pull request fields on turns, the sorted read of a conversation: passed through unchanged.
- Turn documents are keyed by the sequence number itself, not by its six-digit rendering.
- Pause and autonomy settings, caches, configuration, HTTP endpoints, authentication and model prompts.
- Unknown action strings at the gate: the proposal's type already excludes them.
- Nonce length and token generation, hash collisions.
- Trace entries' payload decoding; an entry without a readable timestamp is kept and counts as straddling.
