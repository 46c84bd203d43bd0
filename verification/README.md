# Verified model of the import back end

The back end imports bank transactions into PostgreSQL, classifies them by stored rules and lets
users correct them.  These Dafny modules model the parts whose correctness spans several steps:
each table is a map or sequence held by a class, each committed transaction is one atomic method,
and unique indexes and CHECK constraints are guards that abort the step.

| modules | what they model |
|---|---|
| `JobQueueModel`, `JobQueueRepository`, `QueueWorker`, `BoundedText` | the durable lease queue: its events and runs, the repository whose methods append lawful events, and the worker on the client side |
| `Digits`, `ExactNumber`, `CanonicalNumber` | exact decimals with exponents and their canonical spelling |
| `JsonText`, `CanonicalJson`, `CanonicalJsonDecoding`, `CanonicalJsonEquality`, `ObjectGraph`, `ObjectGraphProperties` | canonical JSON over UTF-16 text, and the serialiser that walks object graphs with a mutable ancestor set |
| `RuleLanguage`, `ConditionEvaluation`, `RuleEvaluation`, `RuleEvaluationProperties`, `RuleContribution` | the rule language, its bounds, and the in-place evaluator against a declarative semantics |
| `MerchantRewrite`, `RuleDocument`, `MerchantMerge`, `MerchantMergeProperties`, `MerchantMergeAborts` | rewriting stored rules, merging merchants, and resolving merchants by alias and key |
| `UserState`, `ContinuityModel`, `ContinuityProperties`, `TransactionReplacement` | optimistic user state, replacement links and one-time state transfer as interacting state machines |
| `PageImport`, `PageImportProperties` | importing one provider page |
| `CursorTraversal` | exhausting a provider's cursor chain, for syncs and webhooks |
| `KeysetPaging` | the paged transaction list |
| `CategoryForest` | the category hierarchy |
| `Calendar`, `PeriodComparison` | date shifts and period comparison |
| `Outcomes`, `Sequences`, `Sorting` | shared helpers |

A protocol is stated twice and connected: a class whose methods update fields as the statements do,
and a pure state machine (`Step`, `Apply`, `Evaluated`, `Walk`, `ImportItems`, ...) that each method is
proved against.  The properties are lemmas about all runs of the state machine.  Instants and other
callers' clocks are arbitrary integers, never assumed to agree.

Where the code does not do what one would expect, the model follows the code and says exactly when it does:

- The array check of the serialiser counts own keys, so a sparse array whose own properties balance
  its holes passes (`SparseArrayPasses`, `SparseArrayCollides`).
- `decimalUnits` scales wrongly beyond six fraction digits (`UnitsAreExact`); stored rules cannot contain such
  amounts and numeric columns print none.
- A merge can stop a rule from matching.  It does so exactly when the stored tree, its merchant conditions read for
  both merchants at once, fails of the transaction (`MergeReadsThePair`, `MatchSurvivesExactly`); that takes a `neq` on
  one of the two merchants or a pattern that meets a text of more than a thousand units (`MatchesSurviveMerge`), and
  both happen (`ExclusionsDoNotSurvive`, `LongInputsDoNotSurvive`).
- A merge that every check of the code accepts can still be rolled back by the database: when one transaction has a
  MERCHANT decision by each merchant on one fingerprint, or when a rule to be rewritten sets a category that is no
  longer active and visible (`MergeSucceedsExactly`, `CollidingDecisionsAbort`, `HiddenCategoryAborts`).
- Rules applied to a transaction write the tags that detection and transfer read as user data, so a tag set by a rule
  keeps a successor from receiving its predecessor's state (`OwnDataIsNeverOverwritten`, `TransferIsExact`).
- With several candidate keys, the alias a merge creates can overtake a key that used to decide
  (`ManyKeysResolution`, `ThirdMerchantIsOvertaken`).
- Shifting a date into the years 0 to 99 lands in the 1900s, because `Date.UTC` reads two-digit years that way;
  so shifts are not monotone in general (`ShiftIsRightExactly`, `MonotoneExactly`).
- Rules after a matched stopper are never parsed, so an invalid one among them raises nothing (`MatchedIsFilter`).
- The first repeated-cursor check of the page loop is unreachable (`CursorIsNew`).

## Model

| member | source | states |
|---|---|---|
| `JobQueueModel.ReachableIsConsistent` | packages/db/src/job-queue-repository.ts:209-406 | after any interleaving of enqueue, claim, heartbeat, complete, fail, reclaim, operator retry and connection deletion, with arbitrary clocks: lock and lease fields are set exactly when RUNNING, heartbeat before lease expiry; `finishedAt` set exactly when terminal; a waiting job has attempts left; attempts never exceed the maximum; at most one active job per workspace, type and dedupe key |
| `JobQueueModel.ReachableHasUniqueIndex` | packages/db/src/job-queue-insert.ts:139-185 | the partial unique index on (coalesced workspace, type, key) is never violated in a reachable table |
| `JobQueueModel.IndexKeySeparatesWorkspaces` | packages/db/src/job-queue-insert.ts:92-118 | coalescing a null workspace with the zero UUID never identifies two different workspaces, because the zero UUID is not a canonical one |
| `JobQueueModel.AttemptsAreClaims` | packages/db/src/job-queue-repository.ts:236-250 | the attempt counter equals the number of claims, and claims equal dispositions plus one exactly while the job is RUNNING |
| `JobQueueModel.ClaimsWithinBudget` | packages/db/src/sync-operational-repository.ts:281-290 | over any run a job is claimed at most `maxAttempts` as enqueued plus the number of operator retries |
| `JobQueueModel.RunningHasOwner` | packages/db/src/job-queue-repository.ts:236-250 | a running job belongs to the worker of its latest claim, and nothing since took it away |
| `JobQueueModel.OnlyTheLatestClaimantActs` | packages/db/src/job-queue-repository.ts:267-329 | a heartbeat, completion or failure succeeds only for the worker who made the latest claim, with no reclaim or disposition since |
| `JobQueueModel.LeaseExclusion` | packages/db/src/job-queue-repository.ts:356-364 | at any instant a held job is its owner's to complete (from the last heartbeat until the lease expires), the reclaimer's to take (from then on), or, before that heartbeat, nobody's; never both |
| `JobQueueModel.DispositionsAreClaimedApart` | packages/db/src/job-queue-repository.ts:282-406 | whatever the clients do, between two completions, failures or reclaims of a job lies a claim of it: no claim is disposed of twice |
| `JobQueueModel.TerminalUntilRetried` | packages/db/src/sync-operational-repository.ts:242-300 | a finished job changes only by an operator retry of that job |
| `JobQueueRepository.JobQueue.Enqueue` | packages/db/src/job-queue-insert.ts:139-185 | inserts a PENDING row or hands back the one active row with the key; refuses exactly the invalid inputs; a refused or deduplicated call changes nothing |
| `JobQueueRepository.JobQueue.Claim` | packages/db/src/job-queue-repository.ts:209-255 | claims the first runnable unlocked row by priority, creation and id, or none when there is none, as one lawful step |
| `JobQueueRepository.FrontExists` | packages/db/src/job-queue-repository.ts:228-234 | the claim order has a first row among any non-empty set of rows, so a claim never misses one |
| `JobQueueRepository.JobQueue.Heartbeat` | packages/db/src/job-queue-repository.ts:257-280 | succeeds exactly for the holder of a live lease; the lease never gets shorter |
| `JobQueueRepository.JobQueue.Complete` | packages/db/src/job-queue-repository.ts:282-302 | succeeds exactly for the holder of a live lease and is one lawful step; otherwise nothing changes |
| `JobQueueRepository.JobQueue.Fail` | packages/db/src/job-queue-repository.ts:304-341 | goes back to RETRY exactly when a retry time is given and attempts remain, otherwise DEAD; the same holder condition as completion |
| `JobQueueRepository.JobQueue.SelectExpired` | packages/db/src/job-queue-repository.ts:357-365 | selects expired rows by lease expiry and id: all of them, or the first `limit` |
| `JobQueueRepository.ReclaimEach` | packages/db/src/job-queue-repository.ts:366-397 | the reclaim loop: the events it makes are lawful and the reports match them row by row; it gives up exactly when some retry time lies in the past |
| `JobQueueRepository.JobQueue.ReclaimExpired` | packages/db/src/job-queue-repository.ts:343-406 | all or nothing: with a past retry time nothing changes, otherwise every selected lease is reclaimed; with the default back-off it never fails |
| `JobQueueRepository.BackoffIsMonotone` | packages/db/src/job-queue-repository.ts:189-192 | the default back-off never decreases with the attempt count |
| `JobQueueRepository.JobQueue.RetryDeadLetter` | packages/db/src/sync-operational-repository.ts:242-325 | each refusal with its reason and no change; otherwise the dead job is put back with at least one attempt to use |
| `JobQueueRepository.JobQueue.MarkConnectionDeleted` | packages/db/src/reconciliation-repository.ts:163-212 | kills exactly the waiting refresh jobs of the connection or its accounts, in one lawful step; without a connection row nothing changes |
| `QueueWorker.RetryAt` | apps/worker/src/queue-worker.ts:117-123 | a requested retry lies 1 s to 300 s ahead and, between those limits, within a quarter of the exponential back-off |
| `QueueWorker.Process` | apps/worker/src/queue-worker.ts:239-317 | one claim leads to at most one disposition, sent last and matching how the handler ended; none at all, and no further heartbeat, once the lease is known to be lost |
| `QueueWorker.WorkerRetriesAreValid` | apps/worker/src/queue-worker.ts:301-309 | a retry time the worker asks for always passes the queue's own validation |
| `QueueWorker.PersistentQueueWorker.FillCapacity` | apps/worker/src/queue-worker.ts:210-237 | never more tasks than the concurrency, one task per successful claim, no claim after a stop; it stops only when full, empty, failed or stopped |
| `QueueWorker.PersistentQueueWorker.Run` | apps/worker/src/queue-worker.ts:188-208 | only the first call runs; over all its laps it starts exactly one task per successful claim, only the last lap meets a stop and claims nothing after it, and at the end it waits for whatever is in flight |
| `QueueWorker.EarlierLapsMetNoStop` | apps/worker/src/queue-worker.ts:192-205 | every lap but the last met no stop while it reclaimed or claimed, nor while it waited because nothing was claimed |
| `ExactNumber.NormalizeIsExact` | packages/db/src/encryption.ts:75-108 | for every accepted token the output denotes the same exact number and has no superfluous zero and no negative zero |
| `ExactNumber.NormalizeIsIdempotent` | packages/db/src/encryption.ts:75-108 | normalising an output again changes nothing |
| `ExactNumber.NormalizeDecidesEquality` | packages/db/src/encryption.ts:75-108 | two accepted tokens have one output exactly when they denote one number |
| `ExactNumber.CanonicalTokenUnique` | packages/db/src/encryption.ts:100-107 | a number has at most one canonical spelling |
| `ExactNumber.AcceptedExactly` | packages/db/src/encryption.ts:82-106 | a well-formed token is refused exactly when its exponent or its canonical length is beyond ten thousand |
| `CanonicalNumber.CanonicalizeTokenIsExact` | packages/db/src/encryption.ts:110-120 | under the two double assumptions the printed token denotes the same number, is accepted again and normalises alike; exactly the accepted tokens are printed |
| `CanonicalNumber.CanonicalizeTokenDecidesEquality` | packages/db/src/encryption.ts:110-120 | tokens print alike exactly when they denote one number |
| `CanonicalNumber.TokenMeetsDouble` | packages/db/src/encryption.ts:125-129 | a lossless token and a native double print alike exactly when they denote one number |
| `JsonText.QuoteDecodes` | packages/db/src/encryption.ts:124-124 | JSON string escapes (section 7 of RFC 8259, with lone surrogates escaped) are uniquely decodable from any continuation |
| `CanonicalJson.SortMembersSorts` | packages/db/src/encryption.ts:149-149 | the sorted members are a permutation in strictly ascending UTF-16 key order |
| `CanonicalJsonDecoding.PrintDecodes` | packages/db/src/encryption.ts:122-157 | printed values followed by a delimiter determine the value, up to the spelling of numbers, and the continuation |
| `CanonicalJsonEquality.CanonicalTextDecidesEquality` | packages/db/src/encryption.ts:122-161 | two finite JSON values print to one string exactly when they are equal up to key order and numeric equality |
| `CanonicalJsonEquality.CanonicalTextIsSelfDelimiting` | packages/db/src/encryption.ts:122-161 | canonical texts written one after another can be told apart again |
| `ObjectGraph.Serializer.Value` | packages/db/src/encryption.ts:122-157 | on any finite graph the serialiser terminates, its result depends on the value and the ancestors only, and the ancestor set is restored on every exit |
| `ObjectGraph.CanonicalizeValue` | packages/db/src/encryption.ts:159-161 | the whole call computes the walk from an empty ancestor set |
| `ObjectGraphProperties.AcceptedIffNoCycle` | packages/db/src/encryption.ts:130-156 | a graph is accepted exactly when no path from the root repeats a node and every reachable node is admissible; sharing is allowed |
| `ObjectGraphProperties.CycleIsTheOnlyFailure` | packages/db/src/encryption.ts:133-133 | when the reachable nodes are admissible, rejection happens exactly on a reachable cycle, and with the cycle error |
| `ObjectGraphProperties.FailureHasWitness` | packages/db/src/encryption.ts:122-157 | every error has a path that explains it: back into an ancestor, or to an inadmissible node |
| `ObjectGraphProperties.WalkPrintsTheTree` | packages/db/src/encryption.ts:122-161 | a value is accepted with this text, no reachable array hiding holes, exactly when it unfolds to a tree of which this is the canonical text |
| `ObjectGraphProperties.AcceptedTreesAreDense` | packages/db/src/encryption.ts:138-141 | an accepted value unfolds to a tree exactly when no reachable array hides holes |
| `ObjectGraphProperties.FingerprintDecidesEquality` | packages/db/src/encryption.ts:163-165 | two values of possibly different graphs print alike exactly when their trees are equal JSON |
| `ObjectGraphProperties.DenotesUnique` | packages/db/src/encryption.ts:122-157 | a value unfolds to at most one tree |
| `ObjectGraphProperties.SparseArrayPasses` | packages/db/src/encryption.ts:138-140 | the count check misses a sparse or decorated array exactly when its own extra properties are as many as its holes |
| `ObjectGraphProperties.SparseArrayCollides` | packages/db/src/encryption.ts:138-141 | so an array with one hole and one property of its own prints like the empty array |
| `RuleLanguage.InspectMeasures` | packages/classification/src/rule-dsl.ts:297-314 | the recursive fold measures the height and the number of nodes of the tree |
| `RuleLanguage.BoundsAreHeightAndSize` | packages/classification/src/rule-dsl.ts:316-346 | a stored condition is valid exactly when its nodes are, it is at most four levels deep, has at most fifty nodes and fits the document limit |
| `RuleLanguage.CheckUniqueness` | packages/classification/src/rule-dsl.ts:371-405 | the three-set loop accepts exactly the action lists in which each singleton and each tag is changed at most once |
| `ConditionEvaluation.UnitsAreExact` | packages/classification/src/rule-evaluator.ts:130-136 | the integer units are the exact value in millionths exactly when no nonzero digit lies beyond the sixth |
| `ConditionEvaluation.AmountsCompareExactly` | packages/classification/src/rule-evaluator.ts:138-142 | amounts of at most six fraction digits are ordered by their exact values |
| `ConditionEvaluation.GroupDecides` | packages/classification/src/rule-evaluator.ts:193-203 | an ALL or ANY group goes the other way exactly at the first child that decides it, before any failure |
| `ConditionEvaluation.GroupAgrees` | packages/classification/src/rule-evaluator.ts:193-203 | a group keeps its own value exactly when every child does |
| `ConditionEvaluation.FittingPatternsEvaluate` | packages/classification/src/rule-dsl.ts:425-432 | an evaluation can fail only because a pattern meets a text of more than a thousand units |
| `RuleEvaluation.CheckHeaders` | packages/classification/src/rule-evaluator.ts:216-230 | the validation loop reports the first header error in input order |
| `RuleEvaluation.OrderedRules` | packages/classification/src/rule-evaluator.ts:213-238 | valid headers, and only those, give the strictly sorted permutation by priority, creation time and id |
| `RuleEvaluation.Evaluator.ApplyTag` | packages/classification/src/rule-evaluator.ts:331-350 | one tag operation on the mutable maps has the effect and reports the conflict that the history of mentions calls for |
| `RuleEvaluation.Evaluator.ApplyRule` | packages/classification/src/rule-evaluator.ts:293-367 | one rule's operations leave the state that the longer history describes; it contributed exactly when it was the first to mention something or stops |
| `RuleEvaluation.RunRules` | packages/classification/src/rule-evaluator.ts:288-375 | the loop with its break computes the matched rules, their flags and the stopper of the declarative reading |
| `RuleEvaluation.EvaluateClassificationRules` | packages/classification/src/rule-evaluator.ts:244-391 | the in-place evaluator refines the declarative semantics on every input, errors included |
| `RuleEvaluationProperties.MatchedIsFilter` | packages/classification/src/rule-evaluator.ts:288-291 | the matched rules are those that match among the rules up to the first matched stopper; later rules are never parsed |
| `RuleEvaluationProperties.OnlyTheLastStops` | packages/classification/src/rule-evaluator.ts:369-374 | no matched rule but the last one stops |
| `RuleEvaluationProperties.WinnerIsFirst` | packages/classification/src/rule-evaluator.ts:269-286 | each field comes from the first mention of it in rule order |
| `RuleEvaluationProperties.TagsAreFirstMentions` | packages/classification/src/rule-evaluator.ts:331-350 | the applied tag changes are exactly the first mentions of each tag, in the direction of that mention |
| `RuleEvaluationProperties.TagsAreDisjoint` | packages/classification/src/rule-evaluator.ts:331-350 | no tag is both added and removed |
| `RuleEvaluationProperties.ConflictsAreDisagreements` | packages/classification/src/rule-evaluator.ts:276-345 | the conflicts are exactly the later mentions that disagree with the first mention of their slot |
| `RuleEvaluationProperties.ConflictsPointBack` | packages/classification/src/rule-evaluator.ts:276-345 | a conflict never lies within one rule: the winner comes from a strictly earlier matched rule |
| `RuleEvaluationProperties.ConflictsFollowTheOrder` | packages/classification/src/rule-evaluator.ts:231-345 | in every reported conflict the winning rule precedes the losing one by priority, creation time and id |
| `RuleContribution.ContributedExactly` | packages/classification/src/rule-evaluator.ts:293-370 | in every evaluation a matched rule is reported as contributing exactly when it carries STOP_PROCESSING or some applied value or tag of the final result bears its id |
| `RuleEvaluationProperties.OrderOfRulesIsIrrelevant` | packages/classification/src/rule-evaluator.ts:213-238 | any permutation of well-formed rules gives the same evaluation |
| `RuleEvaluationProperties.IrrelevantRuleCanGo` | packages/classification/src/rule-evaluator.ts:288-375 | deleting a rule that does not match, or one ordered after a matched stopper, changes nothing |
| `RuleEvaluationProperties.SilentRuleCanGo` | packages/classification/src/rule-evaluator.ts:288-375 | deleting a matched rule that neither contributed nor stopped keeps the applied actions and the stopper |
| `MerchantRewrite.RewriteFreesNode` | packages/db/src/classification-management-repository.ts:385-403 | a rewritten tree does not mention the source |
| `MerchantRewrite.RewriteFixesFree` | packages/db/src/classification-management-repository.ts:385-403 | a tree is left alone exactly when it does not mention the source |
| `MerchantRewrite.RewriteIsIdempotent` | packages/db/src/classification-management-repository.ts:385-403 | rewriting conditions or actions twice is rewriting once, and rewritten actions are free of the source |
| `MerchantRewrite.RewriteKeepsValidity` | packages/db/src/classification-management-repository.ts:757-762 | rewriting a valid rule to a UUID target gives a valid rule of the same document size |
| `MerchantRewrite.OtherMerchantsUnaffected` | packages/db/src/classification-management-repository.ts:754-773 | facts about neither merchant, or about none, are judged as before, failures included |
| `MerchantRewrite.MergedConditionExactly` | packages/classification/src/rule-evaluator.ts:151-191 | a condition on the merchant survives the merge for both merchants exactly when it does not exclude one of the two |
| `MerchantRewrite.MergeReadsThePair` | packages/db/src/classification-management-repository.ts:754-773 | on every valid tree and fact, failures included: the rewritten tree judges the fact as the target's exactly as the stored tree judges it with every merchant condition read for both merchants at once (one is enough, unless the condition excludes) |
| `MerchantRewrite.MatchSurvivesExactly` | packages/db/src/classification-management-repository.ts:754-773 | a valid rule that matched a fact of either merchant still matches it as the target's exactly when the stored tree, read that way, holds of it |
| `MerchantRewrite.MatchesSurviveMerge` | packages/db/src/classification-management-repository.ts:754-773 | a simple sufficient condition for that: no condition excludes one of the two merchants and no pattern meets an overlong text |
| `MerchantRewrite.ExclusionsDoNotSurvive` | packages/classification/src/rule-evaluator.ts:163-164 | the first exception is real: `neq` source held for the target and no longer does |
| `MerchantRewrite.LongInputsDoNotSurvive` | packages/classification/src/rule-dsl.ts:425-430 | the second exception is real: a pattern that a condition on the source kept from an overlong description now fails the evaluation |
| `RuleDocument.NodeDocumentsAgree` | packages/db/src/classification-management-repository.ts:373-403 | the generic replacement on the JSON document of a valid tree is the document of the rewritten tree |
| `RuleDocument.ActionDocumentsAgree` | packages/db/src/classification-management-repository.ts:385-398 | the generic replacement on the JSON document of an action list is the document of the rewritten list |
| `MerchantMerge.MerchantRepository.MoveRules` | packages/db/src/classification-management-repository.ts:750-773 | the rule loop parses, rewrites, parses again and updates what changed, and stops exactly at a rule that does not parse or that the trigger on rules refuses |
| `MerchantMerge.MerchantRepository.MergeMerchants` | packages/db/src/classification-management-repository.ts:676-808 | the statement-by-statement merge leaves exactly the merged tables, or, when a guard, the unique key on decisions or a rule stops it, every table as it was |
| `MerchantMerge.MerchantRepository.ResolveExact` | packages/db/src/merchant-resolution-repository.ts:229-258 | the two staged loops return what the stages mean |
| `MerchantMergeProperties.MergeSucceedsExactly` | packages/db/src/classification-management-repository.ts:682-762 | a merge commits exactly when no guard refuses it, no transaction has a MERCHANT decision by the source and one by the target on one fingerprint, and every stored rule is valid and, if it names the source, sets only categories that are active and visible |
| `MerchantMergeProperties.RedirectedDecisionsAreUnique` | packages/db/src/schema.ts:1471-1477 | redirected decisions keep their unique key exactly when no two of them collide in that way |
| `MerchantMergeProperties.WritableExactly` | packages/db/src/classification-management-repository.ts:754-772 | a stored rule goes through the rewriting exactly when it is valid and, if it names the source, its categories are visible; the parse after rewriting never fails |
| `MerchantMergeAborts.CollidingDecisionsAbort` | packages/db/src/classification-management-repository.ts:745-749 | consistent tables, accepted by every check of the code, whose merge the unique key on decisions rolls back |
| `MerchantMergeAborts.HiddenCategoryAborts` | packages/db/drizzle/0010_pf053_rule_category_guard.sql:30-56 | consistent tables with a valid rule whose category is no longer visible, whose merge the trigger on rules rolls back |
| `MerchantMergeProperties.MergeLeavesNoReference` | packages/db/src/classification-management-repository.ts:714-790 | after a merge no alias, transaction, override, decision, series or rule names the source |
| `MerchantMergeProperties.MergeRedirectsOnly` | packages/db/src/classification-management-repository.ts:714-790 | in transactions, series, decisions, user states, aliases and merchants every row is the row before with the source's id replaced; beyond that only redirected states count one version, the source's key becomes a live alias of the target, a tax number only the source had moves, and the source row goes |
| `MerchantMergeProperties.MergeKeepsOtherRules` | packages/db/src/classification-management-repository.ts:763-772 | a rule that does not name the source is stored as it was |
| `MerchantMergeProperties.MergeKeepsReferential` | packages/db/src/classification-management-repository.ts:714-790 | every foreign key to a merchant (aliases, transactions, user states, decisions, both series) and the unique keys of merchants and decisions hold again after a merge |
| `MerchantMergeProperties.SingleKeyResolution` | packages/db/src/merchant-resolution-repository.ts:229-258 | for every single key, resolution after the merge is resolution before with the source renamed |
| `MerchantMergeProperties.ResolutionAfterMerge` | packages/db/src/merchant-resolution-repository.ts:229-258 | resolution of any list of keys after a merge, in closed form |
| `MerchantMergeProperties.ManyKeysResolution` | packages/db/src/merchant-resolution-repository.ts:229-258 | several keys resolve as before exactly unless the new alias overtakes a key that led to a third merchant or to none |
| `MerchantMergeProperties.ThirdMerchantIsOvertaken` | packages/db/src/merchant-resolution-repository.ts:229-258 | for any three merchant UUIDs: tables in which a list of keys resolved to the third merchant and, after the merge, resolves to the target |
| `UserState.EditAdvances` | packages/db/src/transaction-user-state-repository.ts:597-666 | an accepted edit was made against the stored version, moves it on by one and keeps the row constraints |
| `UserState.OnlyNotesViolate` | packages/db/src/transaction-user-state-repository.ts:304-337 | patches keep the override rules: the only constraint an edit can break is the length of its notes |
| `UserState.EditTouchesOnlyItsPatches` | packages/db/src/transaction-user-state-repository.ts:268-337 | a field without a patch is left as it was |
| `ContinuityProperties.ReachableIsConsistent` | packages/db/src/transaction-replacement-repository.ts:174-213 | over any interleaving of one detection at a time with reviews, edits, rule application and merges: one confirmed link per predecessor, transferred links are confirmed, user-confirmed links are transferred, rows are valid |
| `ContinuityProperties.StepKeeps` | packages/db/src/transaction-replacement-repository.ts:384-540 | every step keeps that invariant; links, transfers and rejections only accumulate |
| `ContinuityProperties.TransfersAndRejectionsAreFinal` | packages/db/src/transaction-replacement-repository.ts:341-373 | a transferred link stays confirmed forever and REJECTED is absorbing |
| `ContinuityProperties.TransferredAtMostOnce` | packages/db/src/transaction-replacement-repository.ts:406-416 | over any run a link transfers state at most once |
| `ContinuityProperties.TransferIsExact` | packages/db/src/transaction-replacement-repository.ts:428-510 | a transfer copies state and tags to a successor that had neither and touches no other row or link |
| `ContinuityProperties.NewlyConfirmedIsAMatching` | packages/db/src/transaction-replacement-repository.ts:206-214 | links that one detection newly confirms share no transaction, and their successors had no user data |
| `ContinuityProperties.DetectionKeeps` | packages/db/src/transaction-replacement-repository.ts:229-267 | recording candidates never changes a settled link, adds only candidates and keeps one confirmed link per predecessor, as the unique index demands |
| `ContinuityProperties.WorkerNeverAborts` | packages/db/src/transaction-replacement-repository.ts:297-312 | under any interleaving the transfer loop meets only the conflict it handles, never a refusal that would end detection |
| `ContinuityProperties.StateIsFoldOfWrites` | packages/db/src/transaction-user-state-repository.ts:586-666 | no update is lost: the stored row is the fold of its edits, copies and redirections in order, and its version counts them |
| `ContinuityProperties.EditsNameTheirPlace` | packages/db/src/transaction-user-state-repository.ts:597-600 | the edit that is a row's k-th write named version k |
| `ContinuityProperties.ExpectedVersionWinsOnce` | packages/db/src/transaction-user-state-repository.ts:597-600 | each expected version succeeds at most once |
| `ContinuityProperties.DisabledOverridesHoldNull` | packages/db/src/transaction-user-state-repository.ts:268-302 | in every reachable state a disabled override holds null |
| `ContinuityProperties.OwnDataIsNeverOverwritten` | packages/db/src/transaction-replacement-repository.ts:452-454 | once a transaction has user data, its state changes only by its own edits and by a merge's redirection, its tags only by its own edits and by rules applied to it |
| `ContinuityProperties.TagsAreFoldOfWrites` | packages/db/src/classification-rule-repository.ts:519-534 | no tag write is lost: a transaction's tags are the fold of its edits, rule applications and transfer, in order |
| `TransactionReplacement.ReplacementRepository.ApplyRuleTags` | packages/db/src/classification-rule-repository.ts:519-534 | the insertion and deletion loops of rule application are the state machine's tagging step |
| `TransactionReplacement.EligibleIsDistinct` | packages/db/src/transaction-replacement-repository.ts:174-179 | the candidates are exactly the eligible pairs, each once |
| `TransactionReplacement.ReplacementRepository.CountCandidates` | packages/db/src/transaction-replacement-repository.ts:180-191 | the two counting maps hold each transaction's number of candidates |
| `TransactionReplacement.ReplacementRepository.RecordCandidates` | packages/db/src/transaction-replacement-repository.ts:193-287 | the upsert loop: all candidates recorded with the wanted status, counters as counted, or everything rolled back on the unique index |
| `TransactionReplacement.ReplacementRepository.TransferConfirmed` | packages/db/src/transaction-replacement-repository.ts:384-545 | one transfer transaction has the outcome of the state machine and changes nothing unless it transfers |
| `TransactionReplacement.ReplacementRepository.ReviewCandidate` | packages/db/src/transaction-replacement-repository.ts:322-382 | a review is one step of the state machine; confirmed links cannot be rejected |
| `TransactionReplacement.ReplacementRepository.TransferAutomatic` | packages/db/src/transaction-replacement-repository.ts:295-312 | the loop after the commit drains the queue as the state machine's worker does and counts the transfers |
| `TransactionReplacement.ReplacementRepository.DetectForSync` | packages/db/src/transaction-replacement-repository.ts:116-320 | a whole detection refines a run of the state machine, its counters account for every candidate and a failed one changes nothing |
| `TransactionReplacement.ReplacementRepository.Update` | packages/db/src/transaction-user-state-repository.ts:586-703 | an edit through the repository is the state machine's edit step |
| `PageImport.ImportRepository.ImportLoop` | packages/db/src/transaction-import-repository.ts:493-790 | the item loop updates rows, snapshots, revisions, counters and running dates as the fold over the items does |
| `PageImport.ImportRepository.ImportPage` | packages/db/src/transaction-import-repository.ts:398-834 | a page is accepted exactly when its checks pass, the run and account are available and the table constraints admit every row and revision it writes; otherwise nothing changes |
| `PageImportProperties.SecondImportIsQuiet` | packages/db/src/transaction-import-repository.ts:493-832 | importing the same page again, from any state, adds no row, snapshot or revision, adds nothing to any counter and changes only timestamps |
| `PageImportProperties.SecondImportIsAdmitted` | packages/db/src/schema.ts:843-913 | a page the constraints admitted is admitted again: what was imported can be imported again |
| `PageImportProperties.SecondImportKeepsHistory` | packages/db/src/transaction-import-repository.ts:788-825 | nor does it widen the account's history; the run only counts the items as seen again |
| `PageImportProperties.PageGrows` | packages/db/src/transaction-import-repository.ts:679-786 | the tables grow by exactly the counted rows and snapshots; rows keep their account, and duplicate status moves only from NONE to POSSIBLE |
| `PageImportProperties.NewRowSuspicion` | packages/db/src/transaction-import-repository.ts:680-704 | a first import is suspected exactly when the account already holds its fingerprint, and then all holders are |
| `PageImportProperties.RevisionMeansChange` | packages/db/src/transaction-import-repository.ts:90-111 | with a collision-free digest a revision is written exactly when a compared column differs |
| `CursorTraversal.Importer.DrainPages` | apps/worker/src/transaction-import.ts:95-126 | for any provider the page loop terminates within its bound and made exactly the calls of a chain without repeats, with the reason it stopped |
| `CursorTraversal.NoCursorTwice` | apps/worker/src/transaction-import.ts:97-114 | no cursor is requested twice for an account |
| `CursorTraversal.RequestPosition` | apps/worker/src/transaction-import.ts:98-126 | every fetched page is persisted once, right before the next request, which is at that page's cursor |
| `CursorTraversal.CursorIsNew` | apps/worker/src/transaction-import.ts:102-106 | the loop's first repetition check can never fire |
| `CursorTraversal.Importer.ImportTransactions` | apps/worker/src/transaction-import.ts:78-149 | a whole sync against an arbitrary environment: completed accounts, then success, or the first failure and one attempt to record it |
| `CursorTraversal.CompletionMeansAllChainsEnded` | apps/worker/src/transaction-import.ts:134-138 | a sync is completed only after every account's chain ended in null |
| `CursorTraversal.FailureIsRecordedOnce` | apps/worker/src/transaction-import.ts:139-146 | a failed sync attempts one failure recording, as its last call; a completed one none |
| `CursorTraversal.Importer.ProcessTransactionEvent` | apps/worker/src/webhook-event-handler.ts:204-325 | the webhook loop is the same traversal from a hinted cursor with abort checks, completed or failed once; an unreadable hint fails the sync before any page is asked for |
| `KeysetPaging.List` | packages/db/src/transaction-api-repository.ts:427-505 | refuses exactly a reversed range or a bad limit; otherwise the page of the limit-plus-one probe |
| `KeysetPaging.PageMeans` | packages/db/src/transaction-api-repository.ts:454-503 | a page holds selected rows in strictly descending order and there is a next cursor exactly when something selected lies beyond it |
| `KeysetPaging.FixedTable` | packages/db/src/transaction-api-repository.ts:462-503 | on a fixed table following the cursor returns every matching row exactly once in order, and ends |
| `KeysetPaging.ReturnedDescends` | packages/db/src/transaction-api-repository.ts:454-503 | whatever is inserted or deleted between pages, keys come back strictly descending |
| `KeysetPaging.ReturnedIsComplete` | packages/db/src/transaction-api-repository.ts:454-503 | every row present throughout with an unchanged key has been returned once the traversal ends |
| `KeysetPaging.NoRowRepeats` | packages/db/src/transaction-api-repository.ts:454-461 | a row comes back twice only if its date was moved back in between |
| `CategoryForest.MoveClosesCycle` | packages/db/src/classification-management-repository.ts:489-498 | reparenting closes a cycle exactly when the category is the new parent or one of its ancestors |
| `CategoryForest.CategoryRepository.ClosesCycle` | packages/db/src/classification-management-repository.ts:490-503 | the ancestor walk terminates in every valid state and answers that question |
| `CategoryForest.CategoryRepository.CreateCategory` | packages/db/src/classification-management-repository.ts:421-463 | a creation keeps the forest, or changes nothing |
| `CategoryForest.CategoryRepository.UpdateCategory` | packages/db/src/classification-management-repository.ts:465-576 | an update keeps the forest and is refused for the first guard that fails, with no change |
| `CategoryForest.EveryRunIsAForest` | packages/db/src/classification-management-repository.ts:421-576 | over every serial run the parent relation stays acyclic, and a parent is built-in or of the same workspace |
| `CategoryForest.ReparentRefusedExactly` | packages/db/src/classification-management-repository.ts:484-505 | reparenting is refused exactly when the parent is not visible and active or the move would close a cycle |
| `CategoryForest.WalkEndsAtRoot` | packages/db/src/classification-management-repository.ts:490-496 | from every category the walk up ends at a root |
| `Calendar.NumbersFollowOrder` | packages/analytics/src/index.ts:315-317 | day numbers order dates as their texts do, leap years included |
| `Calendar.AddDaysIsExact` | packages/analytics/src/index.ts:319-321 | adding days gives the bank date with that day number, if there is one |
| `Calendar.YearShiftIsTwelveMonths` | packages/analytics/src/index.ts:323-342 | shifting by years is shifting by twelve times as many months |
| `Calendar.ShiftIsRightExactly` | packages/analytics/src/index.ts:323-333 | a month shift lands in the right month with the day clamped exactly when the target year is 100 to 9999; below that it lands 1900 years late, outside it fails |
| `Calendar.ShiftKeepsOrder` | packages/analytics/src/index.ts:323-333 | shifts keep the order of two dates on the same side of year 100 |
| `Calendar.MonotoneExactly` | packages/analytics/src/index.ts:323-333 | a shift is monotone on all bank dates exactly for 0 or more months, or at least 118800 months back |
| `PeriodComparison.PreviousPeriodIsAdjacent` | packages/analytics/src/index.ts:373-375 | the previous period ends the day before, is as long and passes the second range check |
| `PeriodComparison.Prefix` | packages/analytics/src/index.ts:388-395 | clipping a range to its first days gives a range of that length within it |
| `PeriodComparison.NormalizeComparisonInput` | packages/analytics/src/index.ts:344-408 | an input is accepted exactly when none of the stated reasons refuses it; accepted ones have valid identifiers and two ordered ranges of at most 367 days, equal-length prefixes when clipped; PREVIOUS_PERIOD never fails the second check |

## Left out

Properties stated with a limit:

- OnlyTheLatestClaimantActs: ownership is checked by worker id alone, so a worker's own older attempt is not fenced from its newer claim of the same job; the lemma speaks of the claiming worker, not of the attempt.
- Enqueue: the insert and the read-back of the active row are one step; the retry when that row finishes in between appears only as the insert conflict. The payload is two optional ids, without its byte limit and key rules.
- Process: timers, abort signals and operational reports are not modelled; which heartbeats fire before the handler settles is a parameter.
- CanonicalizeTokenIsExact: `Number` and its printing are given functions with two assumptions (conversion depends only on the exact value; printing and converting gives the double back); positive and negative zero are one value.
- CanonicalTextDecidesEquality: conformance with RFC 8785 is not claimed.
- AcceptedIffNoCycle: getters, proxies and symbol keys are not modelled; a prototype is only plain or not.
- WalkPrintsTheTree: says nothing of what accepted values with hidden holes print beyond SparseArrayPasses and SparseArrayCollides.
- AmountsCompareExactly: facts' amounts are plain decimals, as numeric columns print them; the other forms BigInt reads are left out.
- BoundsAreHeightAndSize: UUID, enumeration and date formats and RE2 are given predicates; document bytes are computed.
- MatchesSurviveMerge: a sufficient condition only; the exact one is MatchSurvivesExactly.
- MergeSucceedsExactly: which characters count as control or format in an actor id, and which categories are active and visible, are given predicates; merchant ids are compared as text, so two spellings of one UUID differ.
- ResolutionAfterMerge: only the exact-alias and exact-key stages; identity hashes, patterns, fuzzy matching and provisional merchants come later and are left out.
- DetectForSync: similarity scoring is a given function; confidence, evidence, revisions and audit details are left out, and with them the length limits that a tag list of several hundred ids would exceed; a link is its pair of transactions.
- StateIsFoldOfWrites: actors and timestamps of user state are left out; transactions are never missing.
- SecondImportIsQuiet: column values, hashes, local dates, classification and the bill lookup are given functions of the item, and a stored decimal or date reads back as written; items without a provider identity are refused before the loop, as in the code.
- ImportPage: account type and time zone lookups are folded into one flag; what the constraints of the transaction and revision tables admit is a given predicate on the columns and the revision, which also stands for columns that cannot be derived.
- NormalizeComparisonInput: the date pattern is an option of a date, and identifier checks are one flag.
- List: joined columns and warnings are left out.
- UpdateCategory: names, kinds, icons and audit rows are left out; references from merchants and rules are one flag.

Not modelled:

- Concurrency below committed steps: row locks are the `skipped` sets of the queue, one detection at a time, and serial category updates.
- Manual reconciliation requests: one enqueue with fixed arguments behind a connection check, adding no queue step.
- Deletion of webhook transactions, account completion and the final status of a sync run: single guarded updates.
- The lengths of the worker's polling delays, and the reclaim at the start of each lap of `run`, which is the queue's own step.
- Bill payments, encryption, HTTP routes, provider mapping, SQL views and the other analytics.
- The rule that an active category has an active parent: reactivation does not check it, so it does not hold.
- Duplicate status across updates of existing rows: the collision check runs only on insert.
