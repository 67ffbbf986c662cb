# Rule registry: a verified model

The registry stores rulesets, graphs of decision tables written in a small JSON language, publishes
numbered versions of them and evaluates them on an input. This project models its four hardest parts
and proves what each is for.

* **The rule language and its evaluator.** `Dsl` holds the data model and the two static checks,
  `Acceptance` what they accept, said without them; `Conditions` and `Operators` hold one condition,
  one rule and one table, `Graphs` and `Walk` the walk over the graph. `Walk.IsRun` is a reference
  semantics in which every out-edge is a branch on its own copy of the facts; `Walk.EvalFrom` is the
  program's loop on a mutable fact map, proved against it together with the number of its turns. It
  asks only that the walk ends: `Walk.Ends` says that its length is bounded on these facts, in
  whatever order maps are iterated. `DepthFirst` describes runs again, without recursion.
  `Termination`, `EndsExactly`, `Visits`, `Provenance`, `TypeSoundness`, `NonInterference`,
  `IterationOrder` and `Order` prove properties of every run. Go's map iteration order is left
  arbitrary: loops over maps take any next key, and the semantics is a relation.
* **Publishing.** `Registry` describes each store and blob access of each call; `PublishProtocol`
  runs any number of calls one access at a time, with failures, dying calls and crashes anywhere and
  the publish lock held per service instance. `Repeats` says when adjacent versions differ,
  `Sequential` what calls do when they do not overlap, `Leftovers` what a failing publish leaves
  behind; `ProtocolLimits` shows where the guarantees end. `Service` is the service and its stores as
  objects updated in place, each method proved to do exactly what the machine's call does, under any
  failures. `BlobKeys` is the in-memory blob store's literal key. A document's bytes are its JSON
  tree; parsing and hashing are parameters, and no property needs the hash to be injective.
* **Refresh-token rotation.** `RefreshTokens`: Verify, Refresh and Logout in small steps over the
  token table, again with failures and crashes, for the conditional and the unconditional revoke.
* **Canonical JSON and stored times.** `CanonicalJson` models the normal form whose hash is the
  checksum; `TextOrder`, `Timestamps` and `OneTimeCodes` the comparison of times as text.

## What turned out false of the code

Each of these has a concrete program, run or input, and a lemma that says exactly when the property
does hold.

* A validated program need not terminate: only self-loops are rejected
  (`EndsExactly.ValidatedProgramMayRunForever`); a well-typed one terminates exactly when no cycle
  is reachable (`EndsExactly.EndsIffAcyclic`).
* A published program can answer one input in two ways, by map iteration order alone
  (`IterationOrder.IterationOrderMayShow`); where the walk ends, all runs on an input are equal
  exactly when none crosses an edge that sends two different values to one field
  (`IterationOrder.RunsAgreeIff`).
* With two service instances on one store, the loser of a race for a version number deletes the
  winner's blobs (`ProtocolLimits.TwoInstancesLoseBlobs`); recorded versions keep their blobs in
  every run exactly with at most one instance (`ProtocolLimits.BackedIffOneInstance`).
* The check that a draft differs from the latest version runs before the lock, and a failing lookup
  skips it, so two adjacent versions can be identical (`ProtocolLimits.OverlapRepeats`,
  `ProtocolLimits.LostLookupRepeats`); adjacent versions differ in every run exactly when neither can
  happen (`ProtocolLimits.NeverRepeatsIffNoHazard`).
* A failed publish can leave blobs behind (`ProtocolLimits.BundleIsOrphaned`); which ones, on any
  stores and under any failures, is exactly `Leftovers.FailedPublishLeaves`, and when none
  `Leftovers.FailedPublishLeavesNothingIff`.
* The in-memory store's unconditional revoke lets one refresh token be redeemed twice
  (`RefreshTokens.InMemoryRedeemsTwice`); tokens are single-use in every run exactly when the revoke
  is conditional (`RefreshTokens.SingleUseIffConditional`).
* Times stored as text with trailing zeros cut off sort wrongly within one second
  (`OneTimeCodes.SubSecondMistakes`); `Timestamps.TextOrderIff` says exactly when they sort rightly.
* The in-memory blob store keeps a ruleset's versions apart exactly up to number 55296
  (`BlobKeys.DistinguishedIff`).

The repository's own description of the language and of the directory layout
(`README.md`) is older than its code; where they differ the model follows the code.

## Model

| member | source | states |
|---|---|---|
| Dsl.StrictIffLenientAndComplete | internal/domain/dsl/dsl.go:105-165 | What may be published is exactly what may be saved as a draft and lacks nothing: schema, entry, nodes, and for each rule conditions and outputs that are output fields |
| Dsl.Validate | internal/domain/dsl/dsl.go:105-165 | The nest of early-return loops answers yes exactly for the programs the declarative predicate describes, in whatever order maps are iterated |
| Dsl.ValidateDraft | internal/domain/dsl/dsl.go:245-316 | The same for the lenient check of drafts |
| Dsl.ValidateNode | internal/domain/dsl/dsl.go:191-229 | One node passes exactly when its strategy is known, its rule ids are distinct and not empty, its conditions fit the fields it can see, and each rule is complete |
| Dsl.BuildNodeIncomingFields | internal/domain/dsl/dsl.go:170-189 | Each node's set is exactly the union of what its incoming edges provide |
| Acceptance.ConditionAcceptedIff | internal/domain/dsl/dsl.go:350-423 | A condition is accepted at a node exactly when its field is named in the schema and is an input or written by some edge into the node, its operand is not null and for enums among the options, and evaluating it fails on no fact of the field's type |
| Acceptance.FieldAcceptedIff | internal/domain/dsl/dsl.go:330-348 | A field definition is accepted exactly when its direction is known and some value can be compared with every fact of its type |
| Acceptance.DraftAcceptedIff | internal/domain/dsl/dsl.go:245-316 | A draft is accepted exactly when its version, fields, ids, entry, edges, strategies and conditions are sound, each said in full and without the checks |
| Acceptance.ProgramAcceptedIff | internal/domain/dsl/dsl.go:105-229 | A program may be published exactly when it is a sound draft and every rule tests something and writes output fields |
| Acceptance.ConditionMayBeAdded | internal/domain/dsl/dsl.go:209-213 | A valid program stays valid under one more condition exactly when the condition is acceptable at its node |
| Operators.ContainsCuts | internal/service/evaluate.go:267-268 | contains holds exactly when the operand can be cut out of the fact somewhere |
| Operators.StartsWithCuts | internal/service/evaluate.go:269-270 | starts_with holds exactly when the operand can be cut off its start |
| Operators.EndsWithCuts | internal/service/evaluate.go:271-272 | ends_with holds exactly when the operand can be cut off its end |
| Operators.InIsSomeEq | internal/service/evaluate.go:310-322 | On a list of strings `in` never fails, and holds exactly when `eq` holds of one of them |
| Operators.BoolTestsCompare | internal/service/evaluate.go:277-298 | Boolean `eq` holds exactly when the flags are equal, `ne` exactly when they differ, and an absent or null fact tests as false |
| Operators.EnumNeNegatesEq | internal/service/evaluate.go:310-314 | Enum `eq` is equality and `ne` its negation |
| Operators.ConditionMeaning | internal/service/evaluate.go:189-324 | One meaning for all types: an accepted condition on a fact of its type, or an absent one read as zero, evaluates to what its operator says of fact and operand |
| Conditions.MatchIsConjunction | internal/service/evaluate.go:176-187 | A rule matches exactly when every one of its conditions is evaluated to true |
| Conditions.FirstConditionDecides | internal/service/evaluate.go:176-187 | A rule misses, or fails with an error, exactly when the first condition that does not hold misses, or fails with that error |
| Conditions.EvalNode | internal/service/evaluate.go:128-174 | The loops over rules and outputs compute the node's outcome as the recursive description has it, errors included |
| Conditions.NodeOutcomeReport | internal/service/evaluate.go:128-174 | What a node reports: the i-th trace entry has the i-th rule's id and name, the node's id, and the flag whether all that rule's conditions hold; under first_match the outputs of the first matching rule, where the trace ends; under all_matches under each key the value of the last matching rule that writes it; the default exactly where no rule matched |
| Conditions.NodeFailsIff | internal/service/evaluate.go:134-155 | A node fails exactly when a rule it comes to fails, and with that rule's error: under first_match no rule before it matched, under all_matches none before it failed |
| Graphs.BuildGraph | internal/service/evaluate.go:55-62 | The two index maps built from the listings are those the semantics uses |
| Graphs.EdgesFromConcat | internal/service/evaluate.go:59-62 | A node's out-edges are those of its edges in the order they are listed |
| Graphs.RankDrops | internal/service/evaluate.go:81-124 | Along any edge below an acyclic entry the number of nodes still ahead strictly drops, a measure for both the loop and the recursion |
| Walk.RemapEdge | internal/service/evaluate.go:326-340 | The result is one the edge's map allows, whatever the iteration order |
| Walk.FactMap.Absorb | internal/service/evaluate.go:92-105 | Facts are overwritten in place by what is absorbed and otherwise kept |
| Walk.EvalFrom | internal/service/evaluate.go:71-126 | Whenever the walk ends, the in-place loop with recursion at forks returns the outcome of a run of the reference semantics, where every out-edge, also a lone one, is a branch on its own copy of the facts, merged left to right, stopping at the first error; over all its calls the loop turns once per node the run meets |
| Walk.EvalBranch | internal/service/evaluate.go:108-116 | An edge of a fork is walked on a fresh copy of the facts, leaving the caller's facts alone |
| Walk.EvalFork | internal/service/evaluate.go:107-122 | Trying the edges of a fork in order completes the walk gathered so far, with the turns counted |
| Walk.EvalDsl | internal/service/evaluate.go:54-69 | Whenever the walk on this input ends, evaluating a program answers with the outcome of one of its runs, in as many turns as that run has nodes |
| Visits.InvariantAlongRun | internal/service/evaluate.go:71-126 | Whatever crossing an edge preserves holds at every visit, and at the node and facts where a failing run stops, whose evaluation gives the run's error |
| Visits.AnswerOfVisits | internal/service/evaluate.go:71-126 | The answer is what the visits, in walk order, wrote one over the other, and the trace their traces in that order |
| DepthFirst.RemapsIff | internal/service/evaluate.go:326-340 | An edge without a map carries every output under its own name; with one, exactly the mapped outputs, each destination holding the value of a source mapped to it |
| DepthFirst.FactsAreHandedOn | internal/service/evaluate.go:92-111 | The facts of a visit are, field by field, what the edge carried, else what the visit before wrote, else what that visit had |
| DepthFirst.RunIsDepthFirst | internal/service/evaluate.go:71-126 | An error-free run's visits are those of all edge-paths from the entry, in depth-first order of out-edges, beginning with the input and handing facts on along every edge |
| Termination.EveryPathOnce | internal/service/evaluate.go:81-124 | An error-free run visits every edge-path from its start, each exactly once |
| Termination.IterationsCountPaths | internal/service/evaluate.go:81-124 | An error-free run turns the loop exactly as often as there are edge-paths from the entry |
| Termination.EndingWalkHasRun | internal/service/evaluate.go:71-126 | A walk that ends has a finished run |
| Termination.AcyclicEndsWithin | internal/service/evaluate.go:81-124 | On an acyclic graph no way the walk can take, on any facts, is longer than the number of nodes ahead and one |
| Termination.AcyclicEnds | internal/service/evaluate.go:71-126 | So on an acyclic graph every input's walk ends and has a finished run |
| Termination.ErrorFreeRunMeansAcyclic | internal/service/evaluate.go:71-126 | If some run finishes without error, no cycle can be reached |
| Termination.ChainsAreLinear | internal/service/evaluate.go:101-106 | Where no node has two out-edges, the loop turns at most once per node |
| EndsExactly.EndsIffAcyclic | internal/domain/dsl/dsl.go:147-149 | A validated, well-typed program on a well-typed input ends, in every iteration order, exactly when no cycle can be reached, and has a finished run exactly then |
| EndsExactly.ValidatedProgramMayRunForever | internal/domain/dsl/dsl.go:140-155 | Two nodes pointing at each other pass validation; on no input does their walk end or have a finished run |
| TypeSoundness.CheckedCondition | internal/domain/dsl/dsl.go:350-423 | A condition that passed the check fails exactly when the fact it tests does not fit the field's type, and with that error |
| TypeSoundness.ValidatedRunErrors | internal/service/evaluate.go:300-324 | On any facts at all, a validated program's only error is this: at the reachable node and facts where the run stops, a condition of the node tests a field whose fact does not fit its type. So no failed type assertion, no missing node, no bad operator |
| TypeSoundness.FactsKeep | internal/service/evaluate.go:71-126 | What holds of the input's facts and of every value the program can produce, also where edges carry it, holds of every fact map reached, including where a failing run stops |
| TypeSoundness.TypeSound | internal/service/evaluate.go:71-126 | Where validation passes and input, rule values, defaults and carried values fit the schema, no run fails and every fact map reached fits it |
| TypeSoundness.CarriedIsForeseen | internal/domain/dsl/dsl.go:170-189 | Each field an edge writes on entry to a node is in that node's statically computed set, if defaults name only output fields |
| TypeSoundness.AnalysisCoversRun | internal/domain/dsl/dsl.go:157-162 | So the static analysis over-approximates whole runs |
| Provenance.AnswerIsExplained | internal/service/evaluate.go:71-174 | Every key's value is the one written by the last visit in walk order that writes the key; every visit is to a reachable node and reports as its strategy says; every trace entry has the id and name of a rule of a visited node, that node's id, and whether all the rule's conditions held there |
| NonInterference.UntestedFactsDoNotMatter | internal/service/evaluate.go:176-309 | Inputs that agree on all fields tested at reachable nodes, absent and null counting as zero, have the very same runs, hence answers, traces and errors |
| IterationOrder.RemapIsUniqueIff | internal/service/evaluate.go:334-338 | Iteration order can change what an edge carries exactly when two of its sources give a destination different values |
| IterationOrder.RunsAgreeIff | internal/service/evaluate.go:92-120 | Where the walk ends, all runs on an input are equal exactly when no run crosses an edge with such a conflict |
| IterationOrder.OneRun | internal/service/evaluate.go:54-126 | With injective edge maps a program has one run on each input |
| IterationOrder.IterationOrderMayShow | internal/service/evaluate.go:334-338 | A strictly valid program with two different answers to one input |
| Order.ListingOrderIsIrrelevant | internal/service/evaluate.go:54-69 | Reordering nodes, or edges while keeping each source's own order, changes no run |
| Order.ForkOrderOnlyMovesVisits | internal/service/evaluate.go:107-122 | Permuting one node's out-edges keeps an error-free run's output and, up to order, its visits with their facts and traces, if the branches there write disjoint keys |
| CanonicalJson.DecodeEncode | internal/domain/dsl/dsl.go:425-435 | Reading back what was written gives the same value |
| CanonicalJson.NormalizePreservesMeaning | internal/domain/dsl/dsl.go:425-435 | The normal form has the document's meaning, the last of duplicate members winning |
| CanonicalJson.NormalizeIdempotent | internal/domain/dsl/dsl.go:425-435 | Normalising twice is normalising once |
| CanonicalJson.AlikeIffSameMeaning | internal/domain/dsl/dsl.go:425-435 | Two documents mean the same exactly when they are equal up to member order and shadowed duplicates, at every depth |
| CanonicalJson.NormalFormsAgreeIffAlike | internal/domain/dsl/dsl.go:425-435 | So their normal forms, and the bytes that are hashed, are equal exactly then |
| TextOrder.BeforeIff | internal/domain/dsl/dsl.go:434 | One key comes before another exactly when it is a proper start of it, or has the smaller character where they first differ |
| CanonicalJson.CanonicalIffFixed | internal/domain/dsl/dsl.go:425-435 | The documents left unchanged are exactly those whose member names strictly ascend at every depth |
| CanonicalJson.NormalFormsAscend | internal/domain/dsl/dsl.go:425-435 | In every normal form, at every depth, each member's name comes ahead of the later ones in that sense, and a document in which they do is its own normal form |
| Timestamps.SecondsByFields | internal/adapter/store/sqlite/sqlite.go:553-559 | Times are ordered as their calendar and clock fields are |
| Timestamps.LayoutReadsBack | internal/adapter/store/sqlite/sqlite.go:553-559 | The stored text is a date, a clock and a fraction in the layout of RFC 3339, every field at its place and reading back as it was |
| Timestamps.TextOrderIff | internal/adapter/store/sqlite/sqlite.go:562-569 | For an earlier and a later time, text order is right exactly when they lie in different seconds or the earlier fraction as written is no prefix of the later one |
| Timestamps.TextOrderAfterASecond | internal/adapter/store/sqlite/sqlite.go:562-569 | Times a second or more apart are always ordered rightly |
| Timestamps.WholeSecondSortsLast | internal/adapter/store/sqlite/sqlite.go:553-559 | A full second is written after every later time within it |
| OneTimeCodes.CodeTable.GetUnused | internal/adapter/store/sqlite/sqlite.go:562-579 | The lookup returns an eligible code that no eligible one is ordered after, or none when none is eligible |
| OneTimeCodes.CodeTable.MarkUsed | internal/adapter/store/sqlite/sqlite.go:581-586 | The row of that id becomes used, used before or not, and no other row changes |
| OneTimeCodes.CodeTable.DeleteExpired | internal/adapter/store/sqlite/sqlite.go:588-593 | Exactly the rows whose text expiry is before the clock's text go |
| OneTimeCodes.LookupIsRightToTheSecond | internal/adapter/store/sqlite/sqlite.go:562-579 | No code expired by a second or more is returned, no user with a code good for a second or more is turned away, and the code returned is within a second of the latest |
| OneTimeCodes.ExpiredCodePassesIff | internal/adapter/store/sqlite/sqlite.go:566-569 | An expired code passes exactly when it expired within the current second and its fraction is a prefix of the clock's |
| OneTimeCodes.SubSecondMistakes | internal/adapter/store/sqlite/sqlite.go:562-579 | A code expired for 0.9 s that passes, and one with 0.9 s left that does not |
| RefreshTokens.RotationIsSafe | internal/service/auth.go:168-245 | Over the conditional revoke, under any interleaving of Verify, Refresh and Logout, with any step failing, every token is redeemed at most once and each login's tokens include at most one unrevoked |
| RefreshTokens.OnlyValidTokensAreRedeemed | internal/service/auth.go:180-185 | In every run over either store, a token that is redeemed was unrevoked and unexpired at some point of the run |
| RefreshTokens.SuccessorsAreRight | internal/service/auth.go:210-228 | Each new token has the user and descends from the login of the token it replaces, and a token from Verify begins its own login |
| RefreshTokens.InMemoryRedeemsTwice | internal/mock/store.go:398-408 | Over the unconditional revoke some run redeems a token twice |
| RefreshTokens.SingleUseIffConditional | internal/adapter/store/sqlite/sqlite.go:627-639 | Tokens are single-use in every run exactly when the revoke is conditional |
| RefreshTokens.TokenTable.GetByHash | internal/adapter/store/sqlite/sqlite.go:606-625 | Finds a row with the hash, or says there is none |
| RefreshTokens.TokenTable.RevokeToken | internal/adapter/store/sqlite/sqlite.go:627-639 | Succeeds exactly on an unrevoked row, which it revokes; changes nothing else |
| RefreshTokens.TokenTable.Create | internal/adapter/store/sqlite/sqlite.go:597-604 | Adds the row exactly when neither id nor hash is taken |
| RefreshTokens.Refresh | internal/service/auth.go:169-229 | Run alone, with a fresh id and hash it succeeds exactly for a known, unrevoked, unexpired token, which is then revoked and followed by one of the same user; an unknown, revoked or expired token changes nothing |
| RefreshTokens.SoloRefreshIsRun | internal/service/auth.go:169-229 | What Refresh does alone is a run of the concurrent machine, with the same rows and answer |
| RefreshTokens.Logout | internal/service/auth.go:232-245 | Afterwards the token with that hash is revoked and every other row is as before |
| Registry.StoresAgree | internal/mock/store.go:246-274 | Where versions are numbered 1..n, counting rows and taking the maximum allocate the same unused number, and last row and highest number are the same version |
| Registry.SqlNumberIsNew | internal/adapter/store/sqlite/sqlite.go:445-457 | The SQL allocator's number exceeds every recorded one, by one over the highest |
| Registry.RenameAllowedIff | internal/adapter/store/sqlite/sqlite.go:215-260 | A rename of an existing ruleset is allowed exactly when it loses no ruleset and, in the SQL stores, no draft, and in memory there are no versions and the name is another |
| Registry.RenameMoves | internal/mock/store.go:136-152 | A rename moves the ruleset and its draft and nothing else; renaming back undoes it |
| Registry.ActKeeps | internal/service/ruleset.go:127-229 | Every single access of every call, whatever its fate, keeps the stores sound, leaves recorded versions and their blobs alone and leads to a sound next access |
| Registry.ActSpares | internal/service/ruleset.go:157-159 | What another call in flight relies on survives an access, unless both publish the same ruleset under the lock |
| PublishProtocol.VersionsAreBacked | internal/service/ruleset.go:127-209 | In every reachable state of one instance versions are numbered 1..n, each has both blobs, its bytes hash to the checksum and its bundle holds those bytes and a manifest that repeats the record |
| PublishProtocol.AllocatorsAgree | internal/adapter/store/sqlite/sqlite.go:445-457 | So in every reachable state both kinds of store allocate and find the same version |
| PublishProtocol.HistoryIsImmutable | internal/service/ruleset.go:127-229 | From any point of a run on, recorded versions stay a prefix of the versions and their bytes stay, also across deletion and re-creation of the ruleset |
| PublishProtocol.PublishedProgramLoads | internal/service/evaluate.go:17-44 | Once a version exists, Evaluate finds bytes, they are canonical and they pass strict validation |
| PublishProtocol.EvaluateReadsLatest | internal/service/evaluate.go:17-34 | In every reachable state of one instance, an evaluation goes on to read the blob whose version number is the number of rows, which is there and hashes to the last row's checksum, or with no rows the draft |
| PublishProtocol.PickedVersionLoads | internal/service/evaluate.go:20-26 | Also for an Evaluate under way: the version it picked is a recorded one, and its bytes are there, valid, and hash to its checksum |
| PublishProtocol.PickedVersionWasLatest | internal/service/evaluate.go:20-26 | And it was the latest at some point of the run, with the same bytes then as now |
| PublishProtocol.LoadedOnlyByPublishing | internal/service/evaluate.go:17-44 | What is loaded stays the same over any steps that add no version: drafts, rollback, rename and deletion do not touch it |
| Sequential.HistoryIsRun | internal/service/ruleset.go:90-229 | Every sequence of non-overlapping calls without failures is a run of the concurrent machine, and one without hazards for any ruleset |
| Sequential.FinishAlone | internal/service/ruleset.go:127-229 | A call that goes on undisturbed, under any failures, is a run of the machine that ends as the call does alone |
| Sequential.LockedPart | internal/service/ruleset.go:157-208 | Whatever blobs of the next number earlier failures left, a publish whose writes work adds version n + 1 with both its blobs |
| Sequential.PublishAlone | internal/service/ruleset.go:127-209 | A publish that runs alone, with no failure, changes nothing, or adds exactly version n + 1 with both its blobs |
| Leftovers.FailedPublishLeaves | internal/service/ruleset.go:179-203 | On any stores, a publish that fails under the lock records nothing and changes at most the two blobs of its number; of each it is said exactly whether it stays as it was, is the new one, or is gone |
| Leftovers.FailedPublishLeavesNothingIff | internal/service/ruleset.go:179-203 | After such a failure neither blob of the number is there exactly when each that was there or took effect is deleted again; on stores without them, exactly then are the stores as they were |
| Sequential.AdjacentVersionsDiffer | internal/service/ruleset.go:149-155 | In sequences of non-overlapping calls without failures no two adjacent versions share a checksum |
| Sequential.RollbackThenPublish | internal/service/ruleset.go:211-229 | Rolling back to version v and publishing answers "no changes" exactly when v has the latest checksum, and otherwise adds version n + 1 with v's bytes and checksum |
| Repeats.CalmRunsDoNotRepeat | internal/service/ruleset.go:149-159 | Under any interleaving, failures and crashes of one instance, no two adjacent versions share a checksum so long as no check passes while another publish of the ruleset is between check and record, and none passes because the lookup failed |
| ProtocolLimits.OverlapRepeats | internal/service/ruleset.go:149-159 | A run in which no check passes on a failed lookup, and two overlapping publishes record the same bytes twice |
| ProtocolLimits.LostLookupRepeats | internal/service/ruleset.go:151-155 | A run in which no check passes while another publish is between check and record, and the same bytes are recorded twice because a lookup fails |
| ProtocolLimits.NeverRepeatsIffNoHazard | internal/service/ruleset.go:149-159 | Of the two hazards, whichever are allowed: adjacent versions differ in every run exactly when none is |
| ProtocolLimits.EveryFailureIsReachable | internal/service/ruleset.go:179-203 | Each way of failing under the lock is reached by some run of one instance, with exactly the blobs it leaves and no version |
| ProtocolLimits.BundleIsOrphaned | internal/service/ruleset.go:184-188 | A reachable state with the bundle of a version 1 that was never recorded: the compensation for a failed bundle write deletes only the DSL blob |
| ProtocolLimits.TwoInstancesLoseBlobs | internal/service/ruleset.go:198-203 | Two instances on one store reach a recorded version 1 with neither of its blobs |
| ProtocolLimits.BackedIffOneInstance | internal/service/ruleset.go:22 | Recorded versions keep their blobs in every run exactly when there is at most one instance |
| Service.Datastore.CreateVersion | internal/mock/store.go:256-267 | A number already recorded is refused, otherwise the row is appended; nothing else changes |
| Service.Datastore.GetVersion | internal/mock/store.go:235-244 | Finds a row with the number exactly when one is recorded |
| Service.Datastore.DeleteRuleset | internal/mock/store.go:178-188 | The ruleset goes, versions stay, and its draft goes with it in the in-memory store only |
| Service.Datastore.RenameRuleset | internal/mock/store.go:124-155 | With no failure, succeeds exactly for an existing ruleset without versions whose new key no ruleset has (the SQL store also lets a ruleset keep its key, and refuses to overwrite a draft); the draft moves along, nothing else changes |
| Service.RulesetService.UpsertDraft | internal/service/ruleset.go:90-117 | Does to the stores what the machine's call does alone; with no failure it succeeds exactly for an existing ruleset and a document that passes the lenient check, and what it stores is canonical and means what was sent |
| Service.RulesetService.Rollback | internal/service/ruleset.go:211-229 | Does what the machine's call does alone; with no failure it succeeds exactly when the version has its blob, which becomes the draft |
| Service.RulesetService.WriteBlobs | internal/service/ruleset.go:179-188 | The two blobs and the compensating delete, access by access those of the machine |
| Service.RulesetService.RecordOrUndo | internal/service/ruleset.go:190-205 | The record, or the two compensating deletes, access by access those of the machine |
| Service.RulesetService.PublishLocked | internal/service/ruleset.go:157-208 | The part under the lock: the machine's accesses in order, and an answer with the allocated number exactly when nothing failed and the number was free |
| Service.RulesetService.Publish | internal/service/ruleset.go:127-209 | Whatever fails, the stores end as the machine's publish leaves them when alone; an answer with a version means exactly that row was added, any other that none was; with no failure the answer is determined by the stores before |
| Service.RulesetService.RenameRuleset | internal/service/ruleset.go:41-47 | Does to the stores what the machine's two accesses do alone |
| Service.RulesetService.Evaluate | internal/service/evaluate.go:17-50 | With versions numbered 1..n, the reply is a run of the program of blob n, or of the draft where there are none; not-found or invalid exactly where those bytes are missing or not valid |
| Service.PublishedIsEvaluated | internal/service/ruleset.go:127-209 | After a publish that answers with a version, the bytes evaluation reads are the published draft's, and its reply is a run of that program |
| Service.FitDocuments | internal/domain/dsl/dsl.go:231-240 | What may be published, and saved, are the documents that parse to a sound and complete, and to a sound, program |
| BlobKeys.KeyTextInjective | internal/mock/store.go:47 | Store keys are equal exactly when workspace and key are, for workspaces without NUL |
| BlobKeys.BlobKeysEqualIff | internal/mock/blob.go:24-26 | Without NUL in the names, blob keys are equal exactly when names are equal and versions share a character |
| BlobKeys.VersionChars | internal/mock/blob.go:24-26 | A scalar value's version is its own character, every other version below 2^32 is the replacement character, and versions 2^32 apart share theirs |
| BlobKeys.DistinguishedIff | internal/mock/blob.go:24-26 | Versions 1..n of a ruleset have different keys exactly when n is at most 55296 |
| BlobKeys.MemoryBlobs.PutDsl | internal/mock/blob.go:28-35 | For NUL-free names and versions within that bound, a write changes what is read under its own id only |
| BlobKeys.MemoryBlobs.DeleteDsl | internal/mock/blob.go:48-53 | A delete removes what is read under its own id only |

## Left out

- HTTP handlers, middleware, mail, configuration, user, workspace, role and API-key management, listings, pagination and search: plumbing or one-line members.
- The Postgres and S3 adapters and the SQL engine: each statement or transaction is one atomic step, and a failed recording of a version is taken to have left no row.
- JSON text, zip encoding, SHA-256, JWT signing, random codes and ids: bytes are trees, a bundle is a pair, the hash is any function, and new token ids come from outside.
- Text is compared by characters: for Unicode text that is the byte order in which keys are sorted and stored times compared.
- Numbers are reals: the rounding of decimal literals to 64-bit floats, both in documents and in comparisons, is not modelled.
- Error messages: errors keep their kind, field and offending fact only. Rulesets carry no name, description or dates, drafts no date.
- `json.Number` in validation, which parsing never produces.
- Aliasing of records in the in-memory stores: Publish attaches the bytes to the version record it has just stored, and callers share draft records; here records are values.
- The mutexes inside the in-memory stores: each of their methods is one step.
- One-time codes being used once: marking is unconditional, so this holds only of calls that do not overlap. Login and the code check of Verify happen before the modelled steps.
- Deleting a user, which removes the user's tokens and codes.
- Whether every draft has a ruleset: rollback and deletion do not keep this, and the stores differ.
- Walk.EvalFrom: requires that the walk ends on these facts, in every iteration order, because the program's loop returns nothing otherwise; Walk.EvalFork and Walk.EvalDsl likewise.
- Service.RulesetService.Evaluate: the same requirement, on the program it loads.
- Service.RulesetService.Publish: the lock is not an object here; it is modelled in the concurrent machine.
- RefreshTokens.Logout: requires the unique index on hashes, which every statement on the table keeps.
- BlobKeys.MemoryBlobs.PutDsl: says nothing of names with NUL or versions past the bound, where keys collide.
