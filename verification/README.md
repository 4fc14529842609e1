# go-library-tools: a verified model

This project models the stateful and algorithmic core of the go-library-tools
CI and verification tool, and proves what each part promises. Methods follow the
source step by step; each is proved against a specification, and lemmas
connect that specification to what a user relies on. `dafny verify
dfyconfig.toml` checks everything.

| module | component |
|---|---|
| `FileSystem`, `CatalogSafety`, `CatalogHistory`, `Publication` | all-or-nothing publication of a set of catalogs, with rollback |
| `Framing`, `Evidence`, `WriteOnce` | content digests, evidence records, the write-once stores |
| `Reviews`, `Selections`, `MutationReport`, `Acceptance`, `Campaign` | reviewed survivors, report acceptance and canonical form, resumable campaigns |
| `ActionGraph`, `UsePlaces`, `LocalActions`, `DeepChains` | the memoised walk over local workflow actions, and the chains it accepts |
| `Diagnostics` | the bounded tail of a service's output, and its redaction |
| `CoverageBlocks`, `CoverageReport`, `CoverageExamples`, `Coverage`, `CoverageMeaning` | statement accounting, and bounded diagnostics |
| `Streaming`, `LocationGrammar` | recognisers fed arbitrary chunks of output; overflow notification |
| `Affected`, `AffectedMeaning` | modules affected by a set of changes |
| `Anchors` | heading anchors of a document |
| `Pins`, `PinGrammar`, `Upgrade` | rewriting and applying tooling pins |
| `Sorting`, `Text`, `Wrappers` | sorting by an order, string order and decimals, option and result |

## How failures and orders are modelled

A file operation fails, and a random name is drawn, as two arbitrary functions
of a clock decide. A method proved for all of these functions is proved for
every schedule of failures, including failures while rolling back. Ghost traces
record every state a directory has gone through, so that safety is a statement
about all moments and not only the last one. A ghost history records every
operation asked for and whether it failed. `Explained` and `Course` tie outcomes
to it: which operation is the cause, that nothing failed before it, and what
follows when nothing fails after it. `QuietSince(t)` says that no operation has
failed from time `t` on; it turns "reports an error" into "must succeed"
clauses, so that a method cannot satisfy its contract by always failing.

Go ranges over maps in an arbitrary order. Loops that do so here pick any
remaining element, and their contracts hold for every choice. Hash functions,
path cleaning, regular expressions on single names, and decoders are function
parameters: what is proved holds whatever they are.

Where a method and its specification share a notion (which keys of a document
name an action, which counters agree, which lines are pins), a lemma says what
that notion is in the terms of the data itself: `UsesAreNames`,
`AcceptedIsExact`, `HitIsExact`, `EarnsIsExact`, `RenderingIsExact`,
`PassesIsExact`, `AnswerIsExact`, `MatchingIsExact`.

## What the proofs found

* **A leaked reservation.** When the empty file that reserves a backup name is
  created but cannot be removed, publication rolls back without removing it: the
  directory is restored but for one empty temporary file. `Explained` makes this
  exact: when publication fails before it deletes backups and nothing fails after
  the cause, the directory is exactly as before, unless the cause was this
  removal.
  `LeakedReservation` is a schedule in which it happens.
* **The depth limit bounds the walked chain only.** An action that is already
  complete is accepted before its own chain of uses is looked at. What success
  does give: every reachable action is reached by some chain of at most 32, and
  no chain is longer than the number of actions, so with at most 32 actions all
  chains are bounded. That number is sharp: `LongChainIsAccepted` has, for every
  length from 33 to the last that the file budget allows, a repository of that
  many actions in which a chain of that length is accepted.
* **A second metadata summary can differ from the first.** Asking for a summary
  while a line is still open answers with nothing and forgets the open line; the
  next summary then vouches for the complete lines. The two differ if and only if
  there is an open line, there is a complete one, and all complete lines are good
  and the open one fits (`SecondSummaryDiffers`); `TwoSummariesDiffer` is a stream.
* **Redaction and `*`.** Masked bytes are shown as `*`, so a secret that itself
  contains `*` can be spelled out by the masking of another. `StarDecidesSurvival`:
  a secret never shows, in any text and beside any other secrets, if and only if
  it contains no `*`.
* **Identity strings are not injective.** A mutant's identity joins its fields by
  NUL. `CollisionIsExact` says which coordinates share one, and
  `IdentityDecidesExactly` that an identity decides its coordinate if and only if
  its names hold no NUL. Reviewed survivors are therefore matched exactly, but a
  report may hold two different mutants whose names run together, and is then
  refused as if one occurred twice (`CollidingReportIsRefused`).
  `AcceptanceByCoordinates` is the exact condition.
* **A package can be stuck.** Report files are never replaced. If a run stored its
  report and failed before storing the record, a later run that executes the tool
  without a failing operation succeeds if and only if its report has the digest of
  the one on file (`RunPackage`, `Publish`). `StuckPackage` is a package with one
  report on file whose run fails although the tool's own report is acceptable. If
  the report on file does not parse or is refused by the review, or no execution
  leaves its digest, then the package fails however often it is run, as long as its
  inputs stay the same (`TryAgain`, `StuckIsHopeless`).
* **An upgrade can outgrow its own reader.** Rewriting may lengthen a file past the
  one-mebibyte limit for reading it. Planning the same request again succeeds,
  without changes, if and only if both updated files still fit; `UpdateCanOutgrow`
  is a repository in which one does not.
* **An empty diff selects every module**, so "more changes, more modules" holds for
  nonempty change lists: `MonotoneExactly` is the exact condition and
  `OneChangeSelectsLess` a catalog in which one change selects less than none.

## Model

| member | source | states |
|---|---|---|
| `Publication.Publisher.PublishAggregateArtifacts` | internal/cohesion/aggregate.go:175-202 | For every failure schedule: in every state of the run each target that existed has its old bytes at the target or under a temporary name of its own, until a moment from which all targets hold new bytes. Success means that no operation failed, leaves every catalog as a file of its content and every other name as before, and has this course: every catalog in order looked at and staged (its temporary file created, made readable, written, synced and closed), then every old file given a reserved name and moved there, then every new file moved in, then the backups removed. If some target is no regular file, nothing is moved at all, every target is as before, and without failing operations that refusal is the answer and the directory is untouched, or names ran out. The cause of an error is the first operation that failed, of the kind the error names, or the lookup that found an irregular target; if nothing failed after it, the directory is exactly as before, but for one empty file when the reservation could not be removed; whatever else fails, every target is put back and every new name removed but where an operation on that very name failed (unless backups were already being deleted); errors are counted if and only if an operation restoring a target failed, and a mix of old and new takes one. Without failing operations it succeeds unless a target is not a regular file or no free name can be drawn |
| `Publication.Publisher.PublishCatalogSet` | internal/cohesion/aggregate.go:712-750 | The same for the set already staged, including errors while backups are deleted, which leave all targets new; and when the first reservation cannot be removed and nothing else fails, the leak |
| `Publication.LeakedReservation` | internal/cohesion/aggregate.go:717-728 | A schedule that leaves an empty file behind: creating and closing the reservation succeed, removing it fails, and nothing else does |
| `Publication.Publisher.Rollback` | internal/cohesion/aggregate.go:752-770 | Undoing from the last entry to the first, it keeps every old file safe at each step; errors are counted if and only if an operation restoring a target failed, with none counted all targets are put back; it goes on after errors, so that every target and every new name is restored or removed but where an operation on it failed |
| `Publication.Publisher.PutBack` | internal/cohesion/aggregate.go:760-766 | Putting a backup back restores its target exactly, or leaves the backup where it was and known |
| `Publication.Publisher.SetAside` | internal/cohesion/aggregate.go:713-733 | Every old file moves to a free name of its own; an error is caused by the first operation that failed and loses nothing, and leaves a stray file only if the reservation could not be removed or a later removal failed |
| `Publication.Publisher.MoveIn` | internal/cohesion/aggregate.go:734-740 | Staged files move to their targets one by one while all old bytes stay at their backups; it stops at the first rename that fails |
| `Publication.Publisher.DropBackups` | internal/cohesion/aggregate.go:741-748 | While backups are deleted every target holds its new bytes at each step; success leaves no extra file |
| `Publication.Publisher.CleanUp` | internal/cohesion/aggregate.go:772-778 | Removes staged temporaries and touches nothing else; every one is removed but those whose own removal failed |
| `Publication.Publisher.StageCatalog` | internal/cohesion/aggregate.go:675-707 | A staged temporary holds the whole content under a fresh name, after being created, made readable, written, synced and closed in that order; a failure is caused by the first operation that failed, touches at most one fresh name, and leaves nothing if the removal after it did not fail |
| `Publication.Publisher.Fill` | internal/cohesion/aggregate.go:687-704 | The four operations on a new file in their order; after the first that fails only the file is closed |
| `CatalogHistory.StagedIsNotBarred` | internal/cohesion/aggregate.go:182-196 | Once every catalog is staged, every target that exists is a regular file |
| `CatalogHistory.StagedThenReplaced` | internal/cohesion/aggregate.go:175-202 | Staging followed by replacing is the whole orderly course |
| `CatalogSafety.HeldStep` | internal/cohesion/aggregate.go:712-770 | The invariant of the protocol (all old bytes at known homes, distinct owned names, all new names accounted for) is kept by any step on one entry that keeps that entry's home |
| `CatalogSafety.SecuredPreserves` | internal/cohesion/aggregate.go:709-711 | The invariant implies that no old artifact is lost |
| `LocalActions.LocalActionInspection.CheckWorkflows` | internal/gates/workflows.go:120-183 | With no error, every action reachable from the workflows was finished exactly once, passes the policy, is on no cycle and is reached by a chain within the depth limit; no chain is longer than the number of actions; files and bytes are the exact totals within their limits. All that places in the workflows name, and in the documents of finished actions, is finished before them. A repository with nothing wrong in it is accepted. Every error is justified by the repository: a real cycle, excess or failing action, or a too long chain of unfinished actions from the first use that was not finished |
| `LocalActions.LocalActionInspection.Local` | internal/gates/local_actions.go:96-170 | After success the action is finished; the chain of active actions is as before, completion order stays topological and only grows; each error is justified; the recursion terminates |
| `LocalActions.LocalActionInspection.Walk` | internal/gates/local_actions.go:50-94 | Success means that every local use below the node is finished, in the order in which the document names them, and in an action every image is pinned |
| `LocalActions.LocalActionInspection.Charge` | internal/gates/local_actions.go:136-161 | A descriptor is charged once to the file and byte budgets, and each budget error is exact |
| `ActionGraph.Repository.PathGoesBack` | internal/gates/local_actions.go:162-168 | Along any path of uses the topological order only goes back |
| `ActionGraph.Repository.FinishedIsClosedAndAcyclic` | internal/gates/local_actions.go:96-170 | Everything reachable from finished roots is finished, and none of it is on a cycle |
| `ActionGraph.Repository.ChainCloses` | internal/gates/local_actions.go:104-106 | Meeting an active action proves a cycle through it |
| `ActionGraph.Repository.Finishing` | internal/gates/local_actions.go:164-168 | Marking an action complete keeps completion order topological, closed under uses, free of repetition and within the depth limit of some chain |
| `ActionGraph.Repository.PathFitsOrder` | internal/gates/local_actions.go:101-109 | A chain is no longer than its start is late in completion order, so no chain exceeds the number of actions |
| `ActionGraph.UseListMembers` | internal/gates/local_actions.go:52-93 | The uses met in order are exactly the uses of a document |
| `UsePlaces.UsesAreNames` | internal/gates/local_actions.go:52-93 | A document uses exactly the actions that places in its tree name: `./` texts under the key `uses` of a job, of a job's step or of a composite action's step, reached by keys and items, with merge keys and aliases passed through |
| `UsePlaces.ImagesAreRun` | internal/gates/local_actions.go:68-72 | An action's images are pinned if and only if no `image` key directly under `runs` holds anything but a pinned text |
| `UsePlaces.PassesIsWholesome` | internal/gates/local_actions.go:96-161 | An action passes if and only if its name is canonical and its descriptor can be read, is at most four mebibytes, has no finding and only pinned images |
| `LocalActions.NothingToBlame` | internal/gates/workflows.go:120-183 | If every workflow and every action in use passes, no use leads back, no chain is longer than 32 and the totals fit, no failure can be justified |
| `DeepChains.LongChainIsAccepted` | internal/gates/local_actions.go:101-109 | For every length past the depth limit that the file budget allows, an inspection without error of a repository with a chain of that length |
| `DeepChains.NoFailureJustified` | internal/gates/local_actions.go:96-170 | In that repository no failure could be justified |
| `Framing.Digest` | internal/evidence/evidence.go:151-164 | Whatever order the map is ranged in, the hash is taken of the one pre-image of the identity and the named contents |
| `Framing.DeframeInvertsFrame` | internal/evidence/evidence.go:166-171 | Length-framed parts can be read back from their concatenation |
| `Framing.UnframeInvertsPreimage` | internal/evidence/evidence.go:151-171 | A decoder recovers the identity and the whole map from the pre-image |
| `Framing.PreimageInjective` | internal/evidence/evidence.go:150-171 | Different identities or maps have different pre-images |
| `WriteOnce.RunKeepsInvariant` | internal/evidence/evidence.go:295-335 | Over every interleaving of any number of writers, what each writer has decided agrees with the destination, and at most one reports having stored it |
| `WriteOnce.DestinationIsStable` | internal/evidence/evidence.go:321-325 | Once present, the destination never changes |
| `WriteOnce.DestinationIsWhole` | internal/mutation/report_store.go:87-122 | What appears at the destination is the whole record of exactly one writer, the one that reports having stored it |
| `WriteOnce.SuccessMatches` | internal/evidence/evidence.go:321-334 | A writer that met no failure has succeeded if and only if the destination is valid in its own context and has the key of its record |
| `WriteOnce.SuccessesAgree` | internal/evidence/evidence.go:326-334 | All successful writers hold records with one key, and a writer that met a conflict in the same context as one of them holds another |
| `WriteOnce.VerdictIsFinal` | internal/mutation/report_store.go:109-121 | A writer that met no failure has succeeded exactly if its record matches the destination, then and ever after |
| `WriteOnce.MovesDecide` | internal/evidence/evidence.go:295-335 | A writer none of whose operations has failed has done, in order, as many of them as it has made moves: create, write, sync, close, link, then read if the link found a file, and remove; any other is on its way to giving up |
| `WriteOnce.VerdictIsEarned` | internal/evidence/evidence.go:306-334 | A writer fails if and only if one of its own operations did, other than the last removal; one that met no failure succeeds if and only if its record matches what is there, and otherwise reports a conflict |
| `WriteOnce.Alone` | internal/evidence/evidence.go:321-334 | From wherever others have left it, a writer left alone stores its record if nothing is there, reuses what matches, and meets a conflict in what does not |
| `WriteOnce.StoreThenReuse` | internal/evidence/evidence.go:321-334 | A run of two writers in which the first stores, and the second reuses it if the keys agree and meets a conflict if not |
| `Evidence.RecordWritersAgree` | internal/evidence/evidence.go:295-344 | For the record store: writers that succeed hold equivalent records, and one that meets a conflict holds another |
| `Evidence.ReportWritersAgree` | internal/mutation/report_store.go:61-122 | For the report store, where each writer judges by its own review: writers that succeed hold reports of one canonical digest, and a conflict under the same review means another digest |
| `Evidence.ReportOnFileIsValid` | internal/mutation/report_store.go:71-78 | What is on file is valid under the review of every writer that succeeded |
| `Evidence.EquivalentIsEquivalence` | internal/evidence/evidence.go:337-344 | Comparing records apart from completion time is an equivalence |
| `Evidence.Store.LoadRecord` | internal/evidence/evidence.go:120-148 | A loaded record is valid and filed under its own gate and digest, another gate's record is no hindrance, and a broken answer has a failed operation or a bad file behind it |
| `Evidence.Store.StoreRecord` | internal/evidence/evidence.go:265-335 | It succeeds if and only if no operation fails, the record is valid, and what is on file under its gate and digest, if anything, is valid and equivalent; nothing on file is ever replaced |
| `Evidence.Store.LoadReport` | internal/mutation/report_store.go:150-165 | A loaded report is valid under the review in force now, with the summary that validation gives |
| `Evidence.Store.StoreReport` | internal/mutation/report_store.go:61-83 | It succeeds if and only if no operation fails, the digest is well formed, the review accepts the report, and what is on file, if anything, is a report of the same canonical digest valid under the review; the summary is that of the report on file, and nothing on file is ever replaced |
| `Evidence.ReuseWithReview` | internal/mutation/reuse.go:23-67 | The answer is the pure decision over what is on file, or a refusal when an operation failed |
| `Evidence.HitIsValidated` | internal/mutation/reuse.go:47-54 | A hit stands on a report acceptable now; with no review in force it has no survivor |
| `Evidence.HitIsExact` | internal/mutation/reuse.go:23-67 | Evidence is reused if and only if the record on file is whole, passed, for this repository, module, package and inputs, made by an applicable verifier and on the architecture any scoped candidate asks for, and binds the digest of a report on file that the review accepts; the counts are the numbers of mutations in that report |
| `Evidence.MissIsExact` | internal/mutation/reuse.go:30-33 | The tool is to run if and only if nothing is on file for well-formed inputs and the review is executable |
| `Evidence.HitIsStable` | internal/mutation/reuse.go:15-23 | A hit stays a hit with the same counts, whatever else is filed later |
| `Campaign.Campaign.RunPackage` | internal/mutation/campaign.go:346-459 | Success leaves evidence under which the same inputs and review decide for reuse with the same counts, also under the review in force at the second look. Reuse runs no tool and changes no file. Otherwise exactly one record is new, the one that binds these counts; the report of this very execution is new, or one of its digest was there; the execution ended as allowed, its report is accepted, and neither inputs nor selection changed. Said of the execution itself: it ended clean, or with the efficacy exit under a review, and wrote a report or confirmed that there was nothing to mutate; that report, or one of its digest that was there, is on file, and the counts are its numbers of mutations; any other execution ends with unchanged files. A failed run adds no record and at most the report of an admissible execution. With a miss and an admissible execution, and no failing file operation, it succeeds if its report agrees with any on file; a package with no record whose report on file is refused always fails |
| `Campaign.Campaign.Execute` | internal/mutation/campaign.go:370-449 | The part that executes the tool: an admissible execution has its own report filed, and its record if all goes well; any other changes no file |
| `Campaign.Campaign.RunTool` | internal/mutation/campaign.go:370-414 | The tool runs if and only if it could be prepared, and its report is handed on, unchanged or as empty when there was nothing to mutate, if and only if it ended as the review allows and the review accepts it |
| `Campaign.ProducedIsExact` | internal/mutation/campaign.go:396-410 | A report is handed on if and only if the tool ended as the review allows and wrote it, or wrote none, confirmed so, and it is the empty one |
| `Campaign.Campaign.EarnsIsExact` | internal/mutation/campaign.go:370-425 | An execution is admissible if and only if it was prepared, delivered a report that the review accepts, and a second look finds the same input digest and a review that selects the same |
| `Campaign.Campaign.LookAgain` | internal/mutation/campaign.go:415-425 | Nothing is filed unless a second look finds the same inputs and the same selection |
| `Selections.SameSelectionSameDecision` | internal/mutation/campaign_diagnostic.go:114-131 | Two executable reviews with the same selection accept the same reports, and decide alike about any request and any files |
| `Selections.SelectionIsExact` | internal/mutation/campaign_diagnostic.go:114-131 | Two valid reviews select the same if and only if they agree in everything but the order of their candidates and the reasons given for them |
| `Campaign.Campaign.LaterDecision` | internal/mutation/campaign.go:415-425 | So what the store says under the first look's review it says under that of the second |
| `Campaign.StuckForever` | internal/mutation/report_store.go:114-120 | However the files grow, whether a report agrees with the one on file never changes |
| `Campaign.UnstuckIfAcceptable` | internal/mutation/report_store.go:71-78 | Some acceptable report agrees with the one on file if and only if that one parses and is acceptable under the review |
| `Campaign.Campaign.TryAgain` | internal/mutation/campaign.go:346-459 | A package with no record, whose admissible executions from now on never leave a report of the digest on file, fails at each of any number of runs while its inputs stay the same, and no record is ever filed |
| `Campaign.Campaign.StuckIsHopeless` | internal/mutation/report_store.go:71-78 | A report on file that does not parse or is refused by the review is such a case, whatever the tool leaves |
| `Campaign.StuckPackage` | internal/mutation/campaign.go:426-449 | A store, a policy and a tool with which a run fails although the tool's report is acceptable |
| `Campaign.Campaign.Publish` | internal/mutation/campaign.go:426-449 | Success if and only if no file operation failed, the report is acceptable and agrees with any on file, and the record is valid. Then the given report is on file, or one of its digest was; exactly the record that binds the counts of the report on file is new, and a miss has become a hit with those counts. On failure no record is new, and no report but the given one |
| `Campaign.Campaign.PublishedIsHit` | internal/mutation/campaign.go:441-449 | A record equivalent to the one a run files, with its valid report, decides for reuse |
| `Campaign.Campaign.Run` | internal/mutation/campaign.go:167-187 | Packages run in sorted order, each with inputs seen during the run; each finished one stays evidenced after a later failure, was reused with its counts if it had evidence, and otherwise rests on an admissible execution of the run, with a report on file of the digest that this execution left, and its counts. Every new record binds the evidence of a package executed, every new report is what an admissible execution of this run left, and no decision becomes a hit but through an executed package. The tool ran once for each of these and at most once more. Without failing file operations a run never stops at a package that had evidence for the inputs seen |
| `Campaign.Campaign.NewHitsAreExecuted` | internal/mutation/campaign.go:167-187 | If new records and reports are only those, then a decision that has become a hit is about inputs of an executed package |
| `Campaign.Campaign.Resume` | internal/mutation/campaign.go:161-187 | A run after one that left evidence for its first packages, whether or not it failed: every one of them whose inputs are seen unchanged is reused with the counts it had; if no file operation fails and none of their inputs changes, all of them are passed without running the tool; what it adds for other packages is accounted for as in `Run` |
| `Campaign.Campaign.ReviewIsAdmitted` | internal/mutation/campaign.go:461-466 | A review in force is executable and is for this campaign's architecture |
| `Reviews.Validate` | internal/mutation/equivalent.go:111-143 | Accepts exactly the reviews whose candidates are well formed and have distinct coordinates |
| `Reviews.ValidateExecution` | internal/mutation/equivalent.go:203-214 | Accepts exactly the valid reviews all of whose candidates apply on the review's architecture |
| `Reviews.IdentityDecides` | internal/mutation/equivalent.go:145-147 | An identity equal to one whose names hold no NUL has equal coordinates, even if its own names contain NUL |
| `Reviews.CollisionIsExact` | internal/mutation/equivalent.go:145-147 | Two coordinates share an identity if and only if line and column agree and file name and kind run together to the same string |
| `Reviews.IdentityDecidesExactly` | internal/mutation/equivalent.go:145-147 | An identity decides its coordinate if and only if its file name and kind hold no NUL |
| `Reviews.IdentitiesCollide` | internal/mutation/equivalent.go:145-147 | Two coordinates that share an identity |
| `Reviews.SelectReview` | internal/mutation/equivalent.go:149-190 | The first entry for the package decides: none, a refusal when it is stale, or the review that applies |
| `Reviews.SelectedIsExact` | internal/mutation/equivalent.go:172-183 | Selection keeps exactly the candidates that apply on the architecture |
| `Reviews.ApplicableIsExecutable` | internal/mutation/equivalent.go:169-187 | A review that is handed out passes the check made before execution |
| `MutationReport.ValidateReport` | internal/mutation/bootstrap.go:303-389 | Accepts exactly the reports whose files are distinct, whose mutants have distinct identities and are all killed or survived, whose survivors are the reviewed ones in both directions and whose counters are absent or exact; the summary counts are the true ones |
| `MutationReport.AcceptanceByCoordinates` | internal/mutation/bootstrap.go:323-359 | A report is accepted if and only if it is acceptable by the coordinates of its mutants and no two of them at one position have names that run together |
| `MutationReport.AgreeWithoutNul` | internal/mutation/bootstrap.go:337-341 | If no file name or kind in the report holds a NUL, acceptance is acceptability by coordinates |
| `MutationReport.CollidingReportIsRefused` | internal/mutation/bootstrap.go:337-341 | A report of two different killed mutants that is acceptable by coordinates and refused |
| `MutationReport.AccountingIsExact` | internal/mutation/bootstrap.go:342-354 | Killed and equivalent together are all mutants |
| `Acceptance.AcceptedIsExact` | internal/mutation/bootstrap.go:303-389 | A report is accepted if and only if its file names are nonempty and distinct, every mutation is located and killed or survived, no two have one identity, the survivors are the reviewed mutants, and the counters are absent without survivors or all present: killed, lived and total the numbers of such mutations in the files, the other two zero, coverage 100 and efficacy the killed share up to the tolerance |
| `Acceptance.CountsArePlaces` | internal/mutation/bootstrap.go:342-356 | What is counted is the number of places in the report with that status, and of all places |
| `Acceptance.CountersMeaning` | internal/mutation/bootstrap.go:360-387 | The counters agree if and only if they say this, with efficacy compared without dividing |
| `MutationReport.SurvivorsAreReviewed` | internal/mutation/bootstrap.go:345-359 | In an accepted report the survivors' coordinates are exactly the reviewed ones, even if names contain NUL |
| `MutationReport.AcceptanceForgetsOrder` | internal/mutation/bootstrap.go:325-356 | Acceptance and counts do not depend on elapsed time or on the order of files and mutations |
| `MutationReport.AcceptedHasDistinctKeys` | internal/mutation/bootstrap.go:396-409 | Acceptance makes sort keys unique, so the unstable sorts have one result |
| `MutationReport.CanonicalDecidesContent` | internal/mutation/bootstrap.go:391-425 | Two reports, each accepted under some review, have one canonical value if and only if they differ only in elapsed time and order |
| `Diagnostics.BoundedDiagnosticWriter.Write` | internal/services/services.go:528-541 | The writer holds the last bytes of the whole stream, up to its limit, and knows whether any were dropped |
| `Diagnostics.ChunkingIsIrrelevant` | internal/services/services.go:528-541 | For every chunking the bytes held are the tail of the concatenation |
| `Diagnostics.BoundedDiagnosticWriter.constructor` | internal/services/services.go:516-526 | The limit is what can be shown plus the length of all nonempty secrets, which alone are kept |
| `Diagnostics.BoundedDiagnosticWriter.String` | internal/services/services.go:543-572 | What is shown is the bounded rendering of the redacted tail, and every byte of it that comes from a secret's occurrence in the whole stream is `*` |
| `Diagnostics.RenderingIsBoundedSlice` | internal/services/services.go:555-571 | It fits the limit and is, after the notice of truncation, the slice of the cleaned redaction that starts where `Origin` says |
| `Diagnostics.RenderingIsExact` | internal/services/services.go:545-571 | The text without blanks at its ends is shown whole if it fits in 4096 bytes and nothing was dropped before it, and otherwise its last 4073 bytes after the notice; a carriage return as a line feed, other control characters but line feed and tab as question marks, all else as it is |
| `Diagnostics.RedactDiagnosticSecrets` | internal/services/services.go:574-610 | Exactly the bytes of whole occurrences and of occurrences cut by either edge are masked; length is kept |
| `Diagnostics.MaskIsOverlay` | internal/services/services.go:574-610 | A byte is masked if and only if some secret, laid over the text so that it sticks out at one end at most and agrees wherever the two overlap, covers it |
| `Diagnostics.OccurrenceInStreamIsMasked` | internal/services/services.go:589-602 | Every retained byte of an occurrence in the whole stream is masked, even if the left edge cuts it |
| `Diagnostics.SecretIsShownAsStars` | internal/services/services.go:543-572 | In any rendering of a redacted tail, every shown byte that comes from an occurrence in the stream is `*` |
| `Diagnostics.NoSecretSurvives` | internal/services/services.go:574-610 | No secret without a `*` can be read in a redacted text |
| `Diagnostics.StarDecidesSurvival` | internal/services/services.go:604-608 | A secret can be read in no redaction, beside any other secrets, if and only if it contains no `*` |
| `Coverage.VerifyWithMode` | internal/coverage/profile.go:41-149 | No error if and only if the profile passes; the report is then the summary of true sums in package order; otherwise the first failing check decides the error: the first bad line, a sum that truly overflows, or the first failing package in order, with the bounded diagnostic in exact mode |
| `Coverage.Merge` | internal/coverage/profile.go:56-90 | The map holds exactly what the lines say, duplicates merging by OR; the error names the first line that breaks the profile |
| `Coverage.AddUp` | internal/coverage/profile.go:94-105 | For every order of the map: sums are exact, and refused if and only if the true sum of some package exceeds the largest int |
| `Coverage.OrderExpected` | internal/coverage/profile.go:107-115 | For every order of the set: each expected package once, sorted |
| `Coverage.Judge` | internal/coverage/profile.go:116-136 | The failures are those of the definition; in evidence mode the first package with nothing executed is reported at once |
| `Coverage.VerdictMeaning` | internal/coverage/profile.go:116-142 | An accountable profile passes exact mode if and only if its own lines give every expected package statements and execute every block with statements; evidence mode if and only if they execute some block of each |
| `Coverage.VerdictForgetsOrder` | internal/coverage/profile.go:56-115 | Order and repetition of lines or expected packages cannot change the verdict |
| `CoverageMeaning.PassesIsExact` | internal/coverage/profile.go:41-149 | A check passes if and only if the mode is known, packages are expected, the header names a mode (one of three for evidence), the profile is whole, its lines are fit and never clash, sums can be counted, and every expected package has statements, all executed or for evidence one |
| `CoverageMeaning.ErrorIsMeant` | internal/coverage/profile.go:41-142 | Whatever error is reported is so of the profile's header and lines, a line's error is the first, and of several packages the first in order is named |
| `CoverageMeaning.SummaryIsExact` | internal/coverage/profile.go:143-148 | The summary is one line for each package, with its executed and its total statements |
| `CoverageBlocks.Collect` | internal/coverage/profile.go:181-213 | For every order of the map, the kept locations are the first K of all admissible ones sorted by package and location, and the uncovered blocks are counted exactly |
| `CoverageBlocks.InsertBounded` | internal/coverage/profile.go:201-212 | One bounded insertion is insertion into the whole sorted list, cut to K, including K = 0 and a full buffer |
| `CoverageBlocks.InsertFirst` | internal/coverage/profile.go:205-212 | The first K of the longer sorted list need only the first K of the shorter |
| `CoverageBlocks.Search` | internal/coverage/profile.go:201-204 | The binary search finds the lower bound |
| `CoverageBlocks.KeptForgetsOrder` | internal/coverage/profile.go:183-213 | Two orders of reading the map keep the same locations |
| `CoverageReport.IncompleteReport` | internal/coverage/profile.go:173-271 | For every order of the map, the text is the rendering of the failed packages, each followed by its own kept locations |
| `CoverageReport.PrintSections` | internal/coverage/profile.go:236-263 | Merging the two sorted lists prints each location under its own package, as filtering the locations for each package would |
| `CoverageReport.SectionsHoldAll` | internal/coverage/profile.go:256-261 | The merge consumes every kept location |
| `CoverageReport.RenderedIsBounded` | internal/coverage/profile.go:217-270 | The text never exceeds its limit; with a limit of at least 128 it ends with both omission counts, and printed and omitted blocks together are all uncovered ones |
| `CoverageReport.AllPrintedWhenTheyFit` | internal/coverage/profile.go:236-263 | When there is room and every package can be named, every kept location is printed, in order |
| `CoverageExamples.ListedIsExact` | internal/coverage/profile.go:183-200 | A block is counted if its package failed, it has statements and none was executed, and listed if its name can be shown in 160 bytes |
| `CoverageExamples.NamedIsExact` | internal/coverage/profile.go:240-252 | A package is named by what is shown of it if that has between 1 and 160 bytes, and otherwise counts as omitted |
| `CoverageExamples.OnePackage` | internal/coverage/profile.go:229-235 | The report of one package with one block not executed |
| `CoverageExamples.LittleRoom` | internal/coverage/profile.go:217-228 | With 160 bytes allowed the block no longer fits, and its omission is counted |
| `CoverageExamples.ThreePackages` | internal/coverage/profile.go:236-269 | The report of three packages: one short, one without statements, one that cannot be named |
| `Streaming.BoundedProcessOutput.Write` | internal/gates/runner.go:127-161 | For every chunking: overflow if and only if the total exceeds the limit, exactly one write is the first to overflow, and the write is one step of the callback automaton, with the callback due if and only if that step makes it due |
| `Streaming.BoundedProcessOutput.SetOverflowCallback` | internal/gates/runner.go:163-171 | Registration is one step of the callback automaton, with the call due at once if and only if the output has overflowed |
| `Streaming.BoundedProcessOutput.MatchedTerminalLine` | internal/gates/runner.go:179-183 | True if and only if a line is configured, there was no overflow, and the whole stream ends with exactly that line and a newline |
| `Streaming.BoundedProcessOutput.DidOverflow` | internal/gates/runner.go:173-177 | True if and only if everything written so far exceeds the limit |
| `Streaming.BoundedProcessOutput.FindingMetadata` | internal/gates/runner.go:185-192 | The first answer is the summary of the whole stream, a later one that of what is on account, less forgotten open lines; nothing after an overflow |
| `Streaming.BoundedProcessOutput.FindTwice` | internal/gates/runner.go:185-192 | Asked twice, the second answer is the summary of the stream without its open line |
| `Streaming.SecretMetadata.Write` | internal/gates/secret_metadata.go:26-59 | The collector's state is that of the whole stream, for every chunking |
| `Streaming.SecretMetadata.Summarize` | internal/gates/secret_metadata.go:61-72 | The first 32 lines if every line is complete, valid and within 256 bytes, otherwise nothing |
| `Streaming.SpoiledIsABadLine` | internal/gates/secret_metadata.go:31-50 | The collector gives up if and only if some complete line is no location or the open line is too long |
| `LocationGrammar.LocationIsExact` | internal/gates/secret_metadata.go:15 | A line is a location if and only if it is two digests of 64 lower-case hexadecimal digits, a positive number of at most seven, and a dash or 40 or 64 such digits, with single spaces between |
| `Streaming.SecondSummaryDiffers` | internal/gates/secret_metadata.go:61-66 | For every stream: a second summary differs from the first if and only if the stream is not spoiled, has a complete line, and ends with an open one |
| `Streaming.TwoSummariesDiffer` | internal/gates/secret_metadata.go:61-66 | A stream summarised as nothing the first time and as one location the second |
| `Streaming.LinesRebuildStream` | internal/gates/secret_metadata.go:26-59 | The lines and the open line of the specification are exactly the stream |
| `Streaming.CallbackFiresOnce` | internal/gates/runner.go:127-171 | Over every interleaving of writes with one registration, the callback is called or due exactly once if the limit was exceeded, and otherwise never |
| `Streaming.CallIsMade` | internal/gates/runner.go:127-171 | A call that is due is made by the next call outside the lock, and none is due after it |
| `Affected.ChangedModules` | internal/gates/affected.go:21-128 | Either all modules, exactly when the change cannot be narrowed, or precisely the modules with a chain of dependencies down to an owner of a change, in catalog order; errors are exact |
| `Affected.FindOwner` | internal/gates/affected.go:38-60 | Finds an owner whenever there is one: the deepest containing module, or the root for its own sources |
| `Affected.OwnerIsInnermost` | internal/gates/affected.go:38-43 | Containing directories are nested, so the longest is unique and lies inside all others |
| `Affected.SelectOwners` | internal/gates/affected.go:29-71 | Widens exactly when there is no change, or some change has no owner or a fixture as owner; otherwise selects exactly the owners |
| `Affected.ReadDependencies` | internal/gates/affected.go:78-106 | Collects for each module what its inventory entry and go.mod declare, or refuses at the first one that cannot be read or names another module |
| `Affected.Close` | internal/gates/affected.go:107-120 | Repeating passes until nothing is added yields exactly what reaches an owner, and terminates |
| `Affected.ClosedHoldsChains` | internal/gates/affected.go:107-120 | A closed selection holds the start of every chain to an owner |
| `Affected.MoreChangesMoreModules` | internal/gates/affected.go:30-75 | For nonempty change lists, more changes never drop a module |
| `Affected.MonotoneExactly` | internal/gates/affected.go:30-75 | For any two change lists, one within the other: nothing is dropped if and only if the smaller is not empty, or the larger cannot be narrowed, or every module reaches an owner of one of its changes |
| `Affected.OneChangeSelectsLess` | internal/gates/affected.go:30-75 | A catalog in which no change selects both modules and one change selects one |
| `Affected.ConsumersAreSelected` | internal/gates/affected.go:113-118 | Whatever depends on a selected module is selected |
| `AffectedMeaning.AnswerIsExact` | internal/gates/affected.go:38-120 | A module is in the answer if and only if the change is unbounded (none, or of a file that belongs to no module or to a fixture), or a chain of modules, each asking for the next in the inventory, its go.mod or a local replacement, leads from it to an owner of a changed file |
| `AffectedMeaning.AnswerKeepsOrder` | internal/gates/affected.go:121-127 | The modules selected stand in the order of the catalog, each once |
| `Anchors.Headings.Allocate` | internal/docscheck/navigation.go:175-189 | With the cached suffix, a heading still gets the first free name that a search from the start finds; the search terminates |
| `Anchors.Parse` | internal/docscheck/navigation.go:159-196 | All anchors of a document are those of the memoryless search |
| `Anchors.AnchorsAreDistinct` | internal/docscheck/navigation.go:181-189 | Every heading has an anchor of its own, formed from its own text, whatever the other headings are called |
| `Anchors.AppendingKeepsAnchors` | internal/docscheck/navigation.go:175-189 | Headings added at the end leave the anchors of all earlier ones as they were |
| `Anchors.TakenIsBounded` | internal/docscheck/navigation.go:181-187 | Names are injective in the counter, so a finite set holds only that many of them |
| `Anchors.PlainNameIfFree` | internal/docscheck/navigation.go:175-189 | A heading keeps its plain name if and only if no earlier heading was given it |
| `Pins.RewrittenMatches` | internal/upgrade/upgrade.go:27-30 | A rewritten pin line is recognised as the same pin, with the new value |
| `Pins.ReplaceTwice` | internal/upgrade/upgrade.go:151-159 | Of two replacements of one pin only the last remains |
| `Pins.ReplaceKeepsOther` | internal/upgrade/upgrade.go:180-181 | Replacing one pin changes neither the other pin nor any other line |
| `Pins.ReplaceInserted` | internal/upgrade/upgrade.go:154-159 | Replacing after inserting the digest line is inserting the new one after replacing |
| `PinGrammar.MatchingIsExact` | internal/upgrade/upgrade.go:27-30 | A line is a pin's line, with this value, if and only if it is made of blanks where allowed, the key, blanks, the path, the value, and blanks or a comment where allowed; a value is a version of three numbers, or 64 or 40 lower-case hexadecimal digits |
| `Upgrade.SplitJoin` | internal/upgrade/upgrade.go:27-30 | Lines joined by line feeds split into the same lines |
| `Upgrade.JoinSplit` | internal/upgrade/upgrade.go:27-30 | A text split into lines and joined again is the text, byte by byte |
| `Upgrade.ConfigurationAdmitted` | internal/upgrade/upgrade.go:146-164 | Rewriting the configuration succeeds if and only if exactly one of its lines is a version line and at most one is a digest line |
| `Upgrade.WorkflowAdmitted` | internal/upgrade/upgrade.go:166-183 | Rewriting the workflow succeeds if and only if exactly one of its lines is a use and one an input, of the same commit |
| `Upgrade.ConfigurationPinned` | internal/upgrade/upgrade.go:146-164 | Afterwards both pins are the requested ones, and the other lines are unchanged and in place |
| `Upgrade.WorkflowPinned` | internal/upgrade/upgrade.go:166-183 | Afterwards both commits are the requested one, and the other lines are unchanged and in place |
| `Upgrade.WorkflowLineByLine` | internal/upgrade/upgrade.go:180-182 | In each line of the rewritten workflow everything before a pinned value is kept; the use is given the commit and the version as a comment, the input the commit, and no other line changes |
| `Upgrade.DigestInserted` | internal/upgrade/upgrade.go:151-157 | Without a digest line, the version is replaced in its line, a line with the digest follows right after it, and every other line is kept in its order |
| `Upgrade.DigestReplaced` | internal/upgrade/upgrade.go:151-159 | With a digest line, version and digest are replaced in their lines, and no other line changes |
| `Upgrade.LastRequestWins` | internal/upgrade/upgrade.go:146-183 | Rewriting for one request and then another is rewriting for the other, byte by byte; so rewriting twice is rewriting once |
| `Upgrade.PlanPinsTheRequest` | internal/upgrade/upgrade.go:95-131 | What a plan puts on disk has the requested pins, equal commits and no other changed line |
| `Upgrade.ReplanningChangesNothing` | internal/upgrade/upgrade.go:95-131 | After a plan is on disk, the same request plans no change, if and only if both updated files still fit the read limit |
| `Upgrade.UpdateCanOutgrow` | internal/upgrade/upgrade.go:95-131 | For every request, a repository that can be read and planned for, and whose updated configuration can no longer be read |
| `Upgrade.Apply` | internal/upgrade/upgrade.go:185-203 | Success puts both planned files on disk, each changed one by one whole write; when the workflow's write failed after the configuration's went through, the configuration was written back, and both files are as they were; only when that write was made and failed too does the new configuration stay beside the old workflow; unless a removal failed no temporary is left by an error; at every moment both files are whole; without failing operations it succeeds unless no free name can be drawn |
| `Upgrade.AtomicWrite` | internal/upgrade/upgrade.go:233-272 | The target holds its old bytes or all new ones at every moment; success is exactly the eight operations in their order, the temporary synced and closed before it is renamed; failure over a regular target has a failed operation behind it, and leaves the directory exactly as it was unless a removal failed |

## Left out

- Process execution, Git, Docker, HTTP, signals and timeouts: a tool run is an arbitrary result, and a list of changed files is an input.
- JSON, YAML, go.mod, Markdown and profile-line decoding: models start from decoded values, and a line or file that does not decode is one of the cases.
- SHA-256: a function; collisions are not excluded, and statements are about what is hashed. Canonical JSON text is not modelled, only the value it is written from.
- Path cleaning, symbolic links and inode identity: paths are distinct names; a symbolic link is an irregular entry.
- Crashes and durability: changing a mode, syncing and closing a file are steps that may fail but leave no mark in the model, so nothing is said of what survives a power loss.
- Context cancellation: dropped; where it would stop a step it is one more failure of that step.
- Diagnostics.BoundedDiagnosticWriter.String: for ASCII text; repairing and cutting UTF-8 and Unicode control characters are not modelled.
- MutationReport.ValidateReport: counters are real numbers; rounding, NaN and floating-point comparison are not modelled.
- Evidence.Store.StoreRecord: check and link are one step; interleaved writers are modelled in WriteOnce, and temporary files that a failed removal leaves behind are not.
- UsePlaces.UsesAreNames: an alias stands for a node that is no alias, as the parser guarantees (internal/gates/local_actions.go:48-49); a key `[]` counts like an item of a sequence, as in the source.
- LocalActions.LocalActionInspection.CheckWorkflows: workflow findings and the policy on a single document are given with the document; descriptors do not change during an inspection.
- Streaming.CallbackFiresOnce: critical sections are single steps, and a call made outside the lock is due until it is made.
- Affected.ChangedModules: requires distinct module directories, which the inventory loader enforces (internal/inventory/inventory.go:473).
- Upgrade.Apply: assumes that the files still hold what the plan was made from, as the source asks of its callers.
- Coverage.VerifyWithMode: lines are decoded, and quoting of names is a parameter with ASCII results; header checks are as in the source.
- Legacy checkpoint import, expanded-size bounds, and campaign phases other than running packages: flat checks next to the reuse decision proved here.
- The reachability pass over documentation links and the other worklist searches: the same shape as the affected closure.
- Field-by-field validators, command dispatch, rendering and error texts: each claim can be read from one branch.
