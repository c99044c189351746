# Verified model of the kenaz-ml core

kenaz-ml is a local machine-learning sidecar: a client sends it labels and
feature events, it trains small advice models on them, and it lets a trained
model answer in place of a heuristic when the model has earned it. This project
models the parts of it where state must survive failures, and proves what they
promise. `dafny verify dfyconfig.toml` checks everything.

## What is modelled

| file | system |
|---|---|
| `advice_lifecycle.dfy` | one kind's model pair on disk, its serving keys in the manifest and its entry in the dispatch table, through retrain, reload, flip, rollback, flip-back, demotion, restart and process death in the write window |
| `advice_outcomes.dfy` | what each of these steps leaves in table and manifest, field by field |
| `label_log.dfy`, `label_batch.dfy`, `label_ingest.dfy` | the label log: a revision upsert with an in-memory index, an on-disk file, an ack, and a training mirror guarded by a dirty marker; the loop that classifies a batch; the training-set reader |
| `label_runs.dfy`, `label_failures.dfy`, `label_reads.dfy`, `store_runs.dfy` | whole runs of batches, the event-store reader; batches refused for I/O with part of them in the file, and what sending them again makes of it; what reads of the log that fail cost the mirror; runs of the whole store through all of these |
| `label_meaning.dfy` | what refusals, outcomes, acks, training examples, leaks and training sets mean, over the fields of the rows sent |
| `label_bound.dfy` | the size bound of a label log file |
| `feature_push.dfy` | the pushed-feature store: queues per key and one global arrival order with stale entries, refining one bounded list |
| `feature_meaning.dfy` | what is stored of a wire event, and how many events are retained |
| `poller.dfy` | the event poller's cursor and buffer and the signal engine's two last-seen ids, with a failure at any point of a cycle |
| `object_store.dfy`, `retained_mirror.dfy`, `model_store.dfy` | a versioned S3 bucket; the retained-set mirror's push, pull and purge; the model store's save, load, version purge and delete |
| `leases.dfy` | client leases, the liveness sweep and the idle timer |
| `shadow_join.dfy` | the two-pass join of shadow predictions to label rows |
| `join_meaning.dfy` | the join over the fields of shadows and labels |
| `calibration.dfy` | expected calibration error over the reals |
| `text.dfy`, `type_grammar.dfy` | the wire spec's type expressions: parser, and a printer it inverts |
| `type_meaning.dfy` | what the parser makes of every text |
| `proto_wire.dfy`, `fixture_model.dfy` | the hand-written Protocol Buffers encoder, against a reader written from the "Base 128 Varints" and "Message Structure" sections of the Protocol Buffers Encoding specification |

Code that changes state is a class or a loop proved against a specification
function or predicate; what the code promises is then proved of that
specification, over whole runs where it speaks of runs. What a specification
function means is also said over the fields of what goes in and comes out, without
naming the function, so that code and specification cannot be wrong together
(the `_meaning` and `_outcomes` files, and the lemmas whose name ends in
`Exactly`). Everything outside the
process is a parameter: the clock, whether a write, read, reload, probe or
request succeeds and what a failed one leaves behind, whether the registry
accepts a pair, what a fit or an evaluation returns, whether a process is alive.

## Promises that hold only under a condition

Each has a lemma giving the exact condition, most also one with a concrete case.

- A demoted generation is never served again — exactly as long as no retrain or
  crash in the write window drops the manifest, or writes a new one without having read
  the number of the old, after the demotion. Generations are numbered from the local
  manifest (`src/kenaz_ml/training/trainer.py:205`), and one that cannot be read counts as
  none, so they start again at 1 and the demoted number can come back, with no write
  failing. Only generation 1 stays out, if its mark was read and carried over
  (`AdviceLifecycle.DemotedStaysOutExactly`, `AdviceLifecycle.LostManifestServesDemotedAgain`,
  `AdviceLifecycle.UnreadManifestServesDemotedAgain`).
- What is served is what the manifest declares classic — except after a retrain that
  drops the manifest under it, or could not read its keys or its number
  (`AdviceLifecycle.DeclaredExactly`).
- A retrain never un-flips or un-demotes a kind or lowers its number — exactly unless it
  could not read them (`AdviceLifecycle.RetrainCarriesExactly`).
- A manifest beside an artifact describes it at every point of the write window —
  except when, after a failed manifest write, the artifact could not be restored
  and the manifest then was (`AdviceLifecycle.PairOkThroughoutExactly`,
  `AdviceLifecycle.FailedRestoreMismatchesThePair`).
- Manifest and table agree — except when a flip was written, could not be served,
  and its rollback write failed too (`AdviceLifecycle.AgreementLostExactly`,
  `AdviceLifecycle.FailedRollbackDiverges`).
- An accepted label batch leaves the training mirror exact or marked, whatever a failed
  update leaves, under a condition on what is known before it. If the mirror has work and
  cannot be written: exactly if the marker can be, or is there. Otherwise, unless the
  marker stays: a rebuild must read the log, or find nothing trainable in it; queued
  examples need an index that could be read, or no label of the log sent again beside a
  trainable one, and no rewrite that could not read the log, unless no known label is or
  becomes trainable. A log that cannot be read counts as empty
  (`src/kenaz_ml/advice/label_log.py:184-186`) in all three places
  (`LabelReads.ReconciledExactly`, `LabelReads.FirstLabelCanGoMissing`,
  `LabelReads.UnreadIndexDoublesAnExample`, `LabelReads.UnreadRewriteLeavesAStaleMirror`,
  `LabelReads.UnreadRebuildEmptiesTheMirror`).
- A store in step with its log stays so — exactly through the steps that hold
  (`StoreRuns.InStepExactly`). One that fell out of step knows its log again once its index
  is dropped; its mirror is right again, nothing failing any more, exactly if it was right
  or marked or some later batch has it rebuilt (`StoreRuns.RunHealsExactly`).
- A batch refused for I/O leaves nothing written — exactly when it rewrites the log,
  that is, supersedes a known label. A failed append leaves any first part of its lines
  (`LabelFailures.RefusalIsHarmlessExactly`, `LabelFailures.RefusedRowStays`). Sending
  the rows again heals the labels either way. With the index still cached it heals the
  mirror too, unless a rebuild cannot read the log, but doubles every line that landed (`LabelFailures.ResendHealsLabels`,
  `LabelFailures.DuplicatesExactly`, `LabelFailures.ResendHealsMirror`); with the index
  read again no line is doubled, and the mirror misses, unmarked, every trainable record
  that landed (`LabelFailures.RereadHealsLabels`, `LabelFailures.RereadMissesExactly`).
- An accepted batch is upserted into the log even if the log cannot be read — exactly
  when it rewrites nothing; an unreadable log counts as empty
  (`src/kenaz_ml/advice/label_log.py:184-186`), so a rewrite then loses every label known
  before (`LabelFailures.UnreadRewriteLosesExactly`).
- Every event reaches both signal models once and in order — exactly if no run of the
  engine finds one of them more than one buffer of 200 behind, the engine updating the
  profile as a whole or not at all; after three cycles with a silent engine a hundred events
  reach neither, ever, and an update of the profile that raises midway is given its events
  twice (`Poller.DeliveryExactly`, `Poller.SilentEngineLosesEvents`,
  `Poller.PartialUpdateRepeatsExactly`).
- A version purge that completes never brings a deleted object back — exactly unless a
  key's current version is older than the cutoff and another version of it is not; the
  modification times must not decrease (`ModelStore.PurgeResurfacesExactly`,
  `ModelStore.EarlierMarkerResurfaces`). One that breaks off can — exactly when a key's
  current version is older than the cutoff and is not its only one, ordered times or not
  (`ModelStore.BrokenPurgeResurfacesExactly`, `ModelStore.BrokenPurgeResurfaces`).
- A push that breaks off keeps every retained file readable as its old or new
  bytes, but may show again an older version of a file, until it is rerun — exactly of
  one the directory no longer has and the bucket holds in more than one version
  (`RetainedMirror.BrokenSweepResurfacesExactly`, `RetainedMirror.InterruptedSweepResurfaces`).
- Evicting brings a log file within its bound if the log wrote the file; a file
  of blank lines stays over it; it fails exactly when the file is over the bound
  and its lines are not, or a read or the write fails (`LabelBound.EnforceBound`,
  `LabelBound.OwnFilesAreBounded`, `LabelBound.BlankLinesStayOverTheBound`).

One comment in the code promises more than the code does: an ingest that fails
on I/O is said to leave nothing written (`src/kenaz_ml/advice/label_log.py:17-19`).

## Model

| member | source | states |
|---|---|---|
| AdviceLifecycle.InvPreservedExactly | src/kenaz_ml/advice/dispatch.py:874-1224 | the serving invariant (numbers are at least 1, a manifest that says classic carries no demotion marker, and every demoted generation is kept out: at most the manifest's, marked and not classic while it is the manifest's, and not served) survives a step if and only if the step forgets no demoted generation |
| AdviceLifecycle.RunKeepsInv | src/kenaz_ml/advice/dispatch.py:874-1224 | the invariant over every run that forgets no demoted generation, whatever reads, writes and reloads fail |
| AdviceLifecycle.KeptOutExactly | src/kenaz_ml/advice/dispatch.py:874-1224 | a step keeps one generation out of service if and only if it does not forget it: drop the manifest, or renumber from 1 without carrying that generation's mark |
| AdviceLifecycle.DemotedNeverServedAgain | src/kenaz_ml/advice/dispatch.py:946-971 | a generation demoted in the first part of a run is not served at the end of any continuation that does not forget it, even after later flips cleared the marker and whatever happens to other generations |
| AdviceLifecycle.DemotedStaysOutExactly | src/kenaz_ml/training/trainer.py:205-241 | each demoted generation stays out of service over every continuation that does not forget it if and only if the step does not forget it; after a step that does it can be served again with every later read and write succeeding |
| AdviceLifecycle.NumbersComeBack | src/kenaz_ml/training/trainer.py:205-241 | from a matching pair at or below a number that does not bar it, clean retrains and flips reach and serve that number |
| AdviceLifecycle.NumbersStartAgain | src/kenaz_ml/training/trainer.py:205-241 | and so they do from a slot without a manifest, for any number from 1 |
| AdviceLifecycle.DeclaredExactly | src/kenaz_ml/advice/training.py:462-506 | a step keeps what is served declared classic by the manifest, as its generation or an earlier one, if and only if it is no retrain of a served kind that drops the manifest, or writes one without having read the keys, or the number where it was above 1 |
| AdviceLifecycle.RunKeepsDeclared | src/kenaz_ml/advice/dispatch.py:874-1224 | the same over every run of such steps |
| AdviceLifecycle.LostManifestServesDemotedAgain | src/kenaz_ml/training/trainer.py:205-241 | a run with one lost manifest after which a demoted generation is served again |
| AdviceLifecycle.UnreadManifestServesDemotedAgain | src/kenaz_ml/modelstore/registry/manifest.py:526-542 | from any state with 1 demoted, a retrain that could not read the manifest and a flip serve 1 again, no write having failed |
| AdviceLifecycle.AgreementLostExactly | src/kenaz_ml/advice/dispatch.py:956-993 | with no restart, a manifest that says classic about a kind the table does not serve arises if and only if a flip's reload and its rollback write both fail |
| AdviceLifecycle.FailedRollbackDiverges | src/kenaz_ml/advice/dispatch.py:977-993 | a flip after which the manifest says classic and the table does not serve |
| AdviceLifecycle.FlipOutcome | src/kenaz_ml/advice/dispatch.py:921-1007 | when a flip takes, what it then serves and records, that it clears the demotion marker, and that a flip that does not take leaves the table and, unless the rollback fails, the serving state alone |
| AdviceLifecycle.RollbackRestoresServingKeys | src/kenaz_ml/advice/dispatch.py:956-993 | a rolled-back flip leaves every serving key exactly as it was; only recorded verdict numbers differ |
| AdviceLifecycle.PairOkThroughoutExactly | src/kenaz_ml/advice/training.py:496-506 | after each action of the write window, restores included, a manifest that is present describes the artifact beside it, if and only if the window does not restore the manifest beside an artifact it could not restore |
| AdviceLifecycle.FailedRestoreMismatchesThePair | src/kenaz_ml/advice/training.py:496-506 | a write window that ends with the old manifest beside new bytes |
| AdviceLifecycle.TrainEndsWithAWholePair | src/kenaz_ml/advice/training.py:368-391 | with restores that succeed, a failed write leaves the previous pair unchanged and a successful one a matching pair, classic exactly if the previous was and its keys were read |
| AdviceLifecycle.RetrainCarriesExactly | src/kenaz_ml/advice/training.py:462-474 | a retrain keeps the serving keys if and only if it read them or there were none, raises the number if and only if it read it or it was 0, and serves live exactly if it read that the kind was classic |
| AdviceLifecycle.DemotionOutcome | src/kenaz_ml/advice/dispatch.py:1098-1170 | a demotion that cannot be written changes nothing; otherwise table and manifest both stop saying classic, the generation is marked, and no flip of it is allowed |
| AdviceLifecycle.FlippedKeepsOut | src/kenaz_ml/advice/dispatch.py:921-1007 | a flip, however its write, reload and rollback end, keeps a generation that is kept out so |
| AdviceLifecycle.SettledKeepsOut | src/kenaz_ml/advice/dispatch.py:1016-1070 | so does everything that follows a retrain |
| AdviceLifecycle.EvaluatedKeepsOut | src/kenaz_ml/advice/dispatch.py:1173-1224 | so does a flip-back evaluation with or without a demotion |
| AdviceLifecycle.AdviceKind.TrainKind | src/kenaz_ml/advice/training.py:457-506 | the two reads of the previous manifest, each of which may fail, then the write window, ending in the specified state |
| AdviceLifecycle.AdviceKind.WriteWindow | src/kenaz_ml/advice/training.py:496-506 | the window passes through exactly the specified slots, restores included |
| AdviceLifecycle.AdviceKind.UpdateManifestMetrics | src/kenaz_ml/advice/shadow.py:972-1008 | the merge into the manifest's metrics: what is set, removed and kept, and when it is refused |
| AdviceLifecycle.AdviceKind.ReloadKind | src/kenaz_ml/advice/dispatch.py:874-910 | a reload changes the table entry only for the expected generation and an accepted, matching pair |
| AdviceLifecycle.AdviceKind.ApplyFlip | src/kenaz_ml/advice/dispatch.py:921-1007 | the flip's checks, write, reload and rollback, step by step |
| AdviceLifecycle.AdviceKind.ApplyDemotion | src/kenaz_ml/advice/dispatch.py:1098-1170 | a demotion that cannot be written changes nothing; one that is takes the kind out of service even if its model cannot be read again |
| AdviceLifecycle.AdviceKind.EvaluateFlippedKind | src/kenaz_ml/advice/dispatch.py:1173-1224 | only a kind whose manifest says classic is evaluated; the invariant is kept |
| AdviceLifecycle.AdviceKind.OnTrained | src/kenaz_ml/advice/dispatch.py:1016-1070 | hot reload, verdict, then flip-back or flip, ending in the state whose table entry and manifest `AdviceOutcomes.SettledOutcome` gives; the invariant is kept |
| AdviceOutcomes.ReloadSwaps | src/kenaz_ml/advice/dispatch.py:874-910 | an accepted, matching pair of the expected generation takes over: serving if the manifest says classic, as shadow if it says heuristic or names nothing; any other case leaves the entry |
| AdviceOutcomes.RestartResolves | src/kenaz_ml/advice/dispatch.py:459-519 | a restart resolves a matching pair alike whatever was served; what it cannot serve is not served |
| AdviceOutcomes.MismatchIsNotServed | src/kenaz_ml/advice/dispatch.py:459-519 | a missing pair, or one that does not match, is never swapped in |
| AdviceOutcomes.UpdateMerges | src/kenaz_ml/advice/shadow.py:972-1008 | each metrics key is set, removed or kept on its own, recorded numbers are overlaid, and number, digest and artifact stay |
| AdviceOutcomes.FlipWrites | src/kenaz_ml/advice/dispatch.py:921-1007 | a flip that takes leaves classic, rung R3, its time and generation, no demotion, the verdict beside what was recorded, and the pair served |
| AdviceOutcomes.DemotionWrites | src/kenaz_ml/advice/dispatch.py:1098-1170 | a written demotion leaves heuristic, rung R2, no flip, the generation and time of the demotion, and the pair as shadow, or nothing if it cannot be read |
| AdviceOutcomes.RetrainWrites | src/kenaz_ml/advice/training.py:462-506 | a successful retrain leaves the bytes, their digest, the next number, the carried keys, the rung of its backend and only `flipback_verdict` of what was recorded before the fit |
| AdviceOutcomes.CrashLeaves | src/kenaz_ml/advice/training.py:496-506 | a process that dies in the write window leaves the slot as it was, one without a manifest, the old manifest restored beside new bytes after a failed write, or the new pair whole |
| AdviceOutcomes.SettledWithFlip | src/kenaz_ml/advice/dispatch.py:1016-1070 | after a retrain with a flip written: everything in table and manifest, served, rolled back or diverged |
| AdviceOutcomes.SettledOutcome | src/kenaz_ml/advice/dispatch.py:1016-1070 | for a matching pair, which model the table ends on after a retrain, what the manifest then says and what is demoted |
| AdviceOutcomes.RetrainedModelTakesOver | src/kenaz_ml/advice/dispatch.py:1016-1070 | once its reload is accepted a retrained model ends up serving if the manifest says classic at the end, and as shadow if not, if and only if no demotion could not read it again and no flip diverged |
| AdviceOutcomes.NewBytesAnswer | src/kenaz_ml/advice/dispatch.py:1016-1070 | retrain and everything after it: the table ends on the bytes just trained, or on nothing if the flip-back could not read them |
| AdviceOutcomes.UnmatchedTakesNothingOver | src/kenaz_ml/advice/dispatch.py:1016-1070 | without a pair that matches nothing new is served after a retrain, whatever the verdicts |
| AdviceOutcomes.EvaluationOutcome | src/kenaz_ml/advice/dispatch.py:1173-1224 | what an evaluation leaves of the manifest and the table, demoted or not |
| LabelLog.ReadLabels | src/kenaz_ml/advice/label_log.py:160-173 | the reader's loop yields the labels of the file |
| LabelLog.HighestRevisionFirstSeen | src/kenaz_ml/advice/label_log.py:160-173 | a key is known if and only if some line carries it, and its record is the line of highest revision, the first of a tie |
| LabelLog.Rewrite | src/kenaz_ml/advice/label_log.py:572-590 | the rewriting loop puts, for each key's first line, the current record, and drops stale duplicates |
| LabelLog.LabelsOfCollapse | src/kenaz_ml/advice/label_log.py:572-590 | a rewritten file reads back as the current record of every key it held |
| LabelLog.CollapseInPlace | src/kenaz_ml/advice/label_log.py:572-590 | without stale duplicates a rewrite replaces in place and drops no line |
| LabelLog.FileFollowsIndex | src/kenaz_ml/advice/label_log.py:544-596 | file and index stay equal under any sequence of upserts, one line per key |
| LabelLog.OthersSurviveRewrite | src/kenaz_ml/advice/label_log.py:576-588 | records of other types survive every rewrite, in order |
| LabelLog.ContractRefusal | src/kenaz_ml/advice/label_log.py:434-454 | a batch is refused if and only if some row does not fit the contract, for the reason of the first such row |
| LabelLog.ExtendMirror | src/kenaz_ml/advice/label_log.py:604-609 | appending the examples a mirror lacks keeps it one example per trainable label with the current y |
| LabelLog.MirrorLength | src/kenaz_ml/advice/label_log.py:604-609 | an exact mirror has one example per trainable key, so its length is their number |
| LabelBatch.TakeRow | src/kenaz_ml/advice/label_log.py:527-564 | the loop's body: a row's outcome against everything accepted before it, and what is queued for the log and the mirror afterwards |
| LabelBatch.Classify | src/kenaz_ml/advice/label_log.py:524-564 | the loop over a batch: every row's outcome in order, the last row sent as ack, and new keys, replacements, queued examples and the need of a rebuild as the accepted records determine them |
| LabelBatch.BatchIsDetermined | src/kenaz_ml/advice/label_log.py:527-598 | what the loop collects, and the file then written, depend on the known labels and the accepted records alone |
| LabelBatch.WrittenUpserts | src/kenaz_ml/advice/label_log.py:571-598 | when the index is what the file reads back as, appending or rewriting amounts to upserting the accepted records one by one |
| LabelBatch.WrittenLogInPlace | src/kenaz_ml/advice/label_log.py:571-598 | line for line, in file order, without stale duplicates |
| LabelBatch.WrittenOthers | src/kenaz_ml/advice/label_log.py:571-598 | neither way of writing touches records of other types, whatever the index holds |
| LabelIngest.LabelStore.LoadIndex | src/kenaz_ml/advice/label_log.py:340-346 | the cached index if there is one, else what the log reads back as, or none if it cannot be read, cached from then on |
| LabelIngest.LabelStore.WriteLog | src/kenaz_ml/advice/label_log.py:571-598 | a write that succeeds leaves the old file with the batch written into it, or the new records alone if a rewrite could not read it, and the index with the records upserted; one that fails leaves none of a rewrite and any first part of an append, and the index as it was |
| LabelIngest.LabelStore.UpdateMirror | src/kenaz_ml/advice/label_log.py:613-673 | rebuild or append; it fails exactly when there is work and the mirror cannot be written, leaves anything behind and marks the mirror if the marker can be written; only a rebuild clears the mark, and one that cannot read the log empties the mirror |
| LabelIngest.LabelStore.Reconcile | src/kenaz_ml/advice/label_log.py:600-610 | the mirror step, from the labels known before the batch and its records: untouched without work, failed exactly when there is work and no write, else rebuilt from what can be read of the log or extended by the records now trainable |
| LabelIngest.LabelStore.IngestRows | src/kenaz_ml/advice/label_log.py:508-610 | past contract and probe: every row judged in order against everything accepted before it, the last row acked, log and index written, the mirror brought up to date or its failure marked; refused for I/O exactly when there is a log write and it fails, leaving what landed |
| LabelIngest.LabelStore.Ingest | src/kenaz_ml/advice/label_log.py:457-610 | a batch is refused by the contract exactly if a row does not fit, by the probe exactly if the probe says so, and for I/O if the probe raises or the log write fails; the first three change nothing, and no refusal acks anything; a marker goes only with a mirror rebuilt from what could be read of the log |
| LabelIngest.SyncedLogStep | src/kenaz_ml/advice/label_log.py:566-598 | a store whose index is what its file reads back as keeps it so, the file upserted, unless a rewrite cannot read the log |
| LabelIngest.IncrementalMirror | src/kenaz_ml/advice/label_log.py:552-560 | queueing only newly trainable records is enough when no label changed, features and times being fixed per key |
| LabelIngest.AddsExactly | src/kenaz_ml/advice/label_log.py:600-609 | without a rebuild there is an example to add if and only if some key becomes trainable |
| LabelIngest.RebuiltMirror | src/kenaz_ml/advice/label_log.py:650-665 | a rebuild from the current records gives the exact mirror |
| LabelIngest.CurrentRecords | src/kenaz_ml/advice/label_log.py:657 | the current record of every key of the log, once each, and nothing else |
| LabelIngest.MirrorIsTheLabels | src/kenaz_ml/advice/label_log.py:604-673 | an exact mirror holds an example if and only if it is that of a currently trainable label |
| LabelIngest.LabelStore.LoadTrainingSet | src/kenaz_ml/advice/training.py:237-313 | the loop that drops leaked rows, as far as the log can be read, the refusal while the mirror is marked, and the minimum of 20 rows; what the rows are is `LabelMeaning.TrainingSetInFields` |
| LabelIngest.TrainingRowsAreCurrent | src/kenaz_ml/advice/training.py:237-313 | from a mirror exact or marked every row loaded is a current label and every current label not excluded as leaked is loaded, whether or not the log could be read for the leaks |
| LabelMeaning.SameLabelExactly | src/kenaz_ml/advice/label_log.py:147-149 | rows are of one label if and only if client, kind, hash and time are the same |
| LabelMeaning.RowRefusedExactly | src/kenaz_ml/advice/label_log.py:381-410 | which rows are refused, and for which reason first |
| LabelMeaning.FitsExactly | src/kenaz_ml/advice/label_log.py:434-454 | a row fits the contract if and only if it names its version or none, only its features, and all of them when complete |
| LabelMeaning.AckIsTheLastRow | src/kenaz_ml/advice/label_log.py:527-562 | the ack is time and revision of the last row sent |
| LabelMeaning.StoredRows | src/kenaz_ml/advice/label_log.py:527-562 | exactly the rows not refused are stored, with the stamp of the batch |
| LabelMeaning.HighestSoFar | src/kenaz_ml/advice/label_log.py:544-562 | upserting a stream holds, of each label, a record of the highest revision known or sent |
| LabelMeaning.OutcomeExactly | src/kenaz_ml/advice/label_log.py:527-562 | the outcome of a row: new if and only if no stored row of its label is known or came earlier in the batch, superseding if and only if its revision is beyond all of them |
| LabelMeaning.ExampleIsOfItsRow | src/kenaz_ml/advice/label_log.py:299-316 | a row is trained on if and only if it is complete and was accepted, acted on automatically or dismissed; its example has the features in contract order, the time they were taken, and 0 if it was dismissed, else 1 |
| LabelMeaning.RebuildExactly | src/kenaz_ml/advice/label_log.py:546-560 | a batch has the mirror rebuilt if and only if one of its records supersedes a known label and changes or withdraws what it was trained as at that moment |
| LabelMeaning.QueuedExactly | src/kenaz_ml/advice/label_log.py:552-560 | the examples queued of known labels are those of the records that make one trainable |
| LabelMeaning.NewKeysExactly | src/kenaz_ml/advice/label_log.py:544-549 | the keys appended are those sent and not known, once each |
| LabelMeaning.MirrorInFields | src/kenaz_ml/advice/label_log.py:604-673 | every example of an exact mirror is of a current label, and every complete label acted on has one |
| LabelMeaning.MirrorCounts | src/kenaz_ml/advice/label_log.py:604-673 | in an exact mirror the examples with 1 number the complete labels accepted or acted on automatically, those with 0 the complete ones dismissed, and there are no others |
| LabelMeaning.TrainingSetCounts | src/kenaz_ml/advice/training.py:237-313 | the same of the rows trained on, less the leaked labels |
| LabelMeaning.LeakedExactly | src/kenaz_ml/advice/training.py:208-234 | an example is excluded if and only if it has another length, or an incomplete row taken at its time has its features, or one taken then lacks a feature and no complete row was taken then |
| LabelMeaning.TrainingSetInFields | src/kenaz_ml/advice/training.py:237-313 | a training set is loaded only unmarked and with 20 rows or more, and has those counts, each row the example of a label of the log |
| LabelRuns.FileSplit | src/kenaz_ml/advice/label_log.py:527-598 | upserting two stretches of records one after the other is upserting them together |
| LabelRuns.BatchingIsIrrelevant | src/kenaz_ml/advice/label_log.py:527-598 | any two runs of one client from one file whose rows, one after the other, are the same leave the same records in the same file order, ingest stamps aside, however the rows were cut into batches |
| LabelRuns.ReplayChangesNothing | src/kenaz_ml/advice/label_log.py:546-562 | re-sending rows already ingested, in any order and number, changes neither file nor index |
| LabelRuns.RunIsFold | src/kenaz_ml/advice/label_log.py:481-610 | any run of accepted batches folds its stream of records into the file and leaves other records alone |
| LabelRuns.RunKeepsHighestRevision | src/kenaz_ml/advice/label_log.py:160-173 | from an empty log every run leaves one line per key, holding the highest revision ever sent, the first of a tie |
| LabelRuns.LabelRows | src/kenaz_ml/datastore/advice_events.py:101-138 | the event-store reader's loop is the latest-per-key fold |
| LabelRuns.ReaderAgreesWithIngest | src/kenaz_ml/datastore/advice_events.py:113-138 | for one client, the reader over the accepted rows of any run keeps, per key, the row that the run's last file reads back |
| LabelFailures.RefusalIsHarmlessExactly | src/kenaz_ml/advice/label_log.py:220-237 | a refusal for I/O leaves file and index as they were, however much of a failed write landed, if and only if the batch rewrites the log |
| LabelFailures.SyncLostExactly | src/kenaz_ml/advice/label_log.py:220-237 | after a refusal for I/O index and file still agree if and only if no line landed |
| LabelFailures.RefusedRowStays | src/kenaz_ml/advice/label_log.py:220-237 | a refused row that is in the file and unknown to the store |
| LabelFailures.UnreadRewriteLosesExactly | src/kenaz_ml/advice/label_log.py:571-592 | an accepted batch is upserted into the log whether or not the log can be read again if and only if it rewrites nothing; an unread rewrite loses every label known before |
| LabelFailures.ResendHealsLabels | src/kenaz_ml/advice/label_log.py:457-610 | a failed append's rows sent again: file and index agree, stamps aside, on what the first attempt would have left |
| LabelFailures.DuplicatesExactly | src/kenaz_ml/advice/label_log.py:457-610 | after that the file has one line per key if and only if it had before and no line landed |
| LabelFailures.ResendHealsMirror | src/kenaz_ml/advice/label_log.py:600-673 | with the index still cached the mirror is exact or marked again, if and only if no rebuild fails to read a log with something trainable in it |
| LabelFailures.RereadHealsLabels | src/kenaz_ml/advice/label_log.py:340-346 | the rows sent again over an index read again, by another writer or a new process: the labels heal and no line is doubled |
| LabelFailures.RereadMissesExactly | src/kenaz_ml/advice/label_log.py:600-609 | the mirror then, unmarked as it is, is exact if and only if no record that landed is trainable |
| LabelFailures.CompletesThePart | src/kenaz_ml/advice/label_log.py:546-562 | a stream sent over any part of what it yields that covers what was known still yields the whole, stamps aside |
| LabelReads.ReconciledExactly | src/kenaz_ml/advice/label_log.py:184-186 | whatever a failed update leaves, and whichever of the reads for index, rewrite and rebuild fail, an accepted batch leaves the mirror exact or marked if and only if, from what is known before it, a failing update can be marked, and one that does not fail fits or leaves the marker |
| LabelReads.UpdatedExactly | src/kenaz_ml/advice/label_log.py:600-647 | the same for one batch whose update does not fail |
| LabelReads.TwinsExactly | src/kenaz_ml/advice/label_log.py:340-346 | with an index that could not be read the queued examples fit the log if and only if no key is both in the log and in the batch with the record that does not win trainable |
| LabelReads.UnreadRewriteFitsExactly | src/kenaz_ml/advice/label_log.py:571-592 | after a rewrite that could not read the log they fit if and only if no known label is or becomes trainable |
| LabelReads.UnreadIndexLog | src/kenaz_ml/advice/label_log.py:340-346 | a batch taken for new as a whole leaves, read back, the labels it should |
| LabelReads.FirstLabelCanGoMissing | src/kenaz_ml/advice/label_log.py:613-647 | the first trainable label ever, with neither mirror nor marker writable, may be missing from an unmarked mirror |
| LabelReads.UnreadIndexDoublesAnExample | src/kenaz_ml/advice/label_log.py:340-346 | a trained label sent again over an index that could not be read is in the mirror twice, unmarked |
| LabelReads.UnreadRewriteLeavesAStaleMirror | src/kenaz_ml/advice/label_log.py:571-592 | a rewrite that could not read the log loses a trained label beside it, which the unmarked mirror keeps |
| LabelReads.UnreadRebuildEmptiesTheMirror | src/kenaz_ml/advice/label_log.py:650-665 | a rebuild that could not read the log empties the mirror and clears the marker |
| StoreRuns.InStepExactly | src/kenaz_ml/advice/label_log.py:457-673 | from a store in step with its log, a step (a batch accepted, refused, or refused with lines in the log, under any failing reads, or a dropped index) leaves it in step whatever a failed update leaves if and only if it holds: nothing landed, the index stays what the log reads back as, and the mirror exact or marked |
| StoreRuns.RunStaysInStep | src/kenaz_ml/advice/label_log.py:457-673 | over every run of steps that hold the store is in step at the end |
| StoreRuns.NoStaleLabelIsTrainedOn | src/kenaz_ml/advice/training.py:237-313 | so every training set loaded after such a run holds current labels only, and all of them that are not leaked |
| StoreRuns.KnownExactly | src/kenaz_ml/advice/label_log.py:566-598 | after an accepted batch the index is what the log reads back as if and only if a rewrite read the log, or, over an index that could not be read, every label of the log was sent again and won |
| StoreRuns.RefusedExactly | src/kenaz_ml/advice/label_log.py:220-237 | a batch refused for I/O leaves the store in step if and only if nothing landed and the index could be read |
| StoreRuns.RunHealsExactly | src/kenaz_ml/advice/label_log.py:600-673 | over any run in which nothing fails, from a store that knows its log and any mirror, the store is in step at the end if and only if the mirror was exact or marked or some batch has it rebuilt |
| StoreRuns.StepHealsExactly | src/kenaz_ml/advice/label_log.py:600-673 | the same for one step |
| StoreRuns.AddedChangesNothing | src/kenaz_ml/advice/label_log.py:552-560 | what a batch that changes no label queues makes no wrong mirror right and no right one wrong |
| StoreRuns.ExactMirrorsAgree | src/kenaz_ml/advice/label_log.py:613-673 | two exact mirrors of the same labels hold the same examples, each as often |
| StoreRuns.OrderIsFree | src/kenaz_ml/advice/label_log.py:613-673 | whether a mirror is exact does not depend on its order |
| LabelBound.KeepNewest | src/kenaz_ml/advice/label_log.py:252-261 | the eviction loop keeps the longest affordable tail of the lines |
| LabelBound.EnforceBound | src/kenaz_ml/advice/label_log.py:241-270 | when the file is left as it is, an unreadable one included, and that otherwise exactly its longest affordable tail of lines is read back, within the bound |
| LabelBound.TextReadsBack | src/kenaz_ml/advice/label_log.py:210-218 | what is written reads back line for line |
| LabelBound.UnendedLine | src/kenaz_ml/advice/label_log.py:241-270 | a last line that is not ended is a line all the same |
| LabelBound.OwnFilesAreBounded | src/kenaz_ml/advice/label_log.py:241-270 | a file the log wrote is over the bound if and only if its lines are |
| LabelBound.BlankLinesStayOverTheBound | src/kenaz_ml/advice/label_log.py:251-264 | a file eviction leaves over any given bound |
| FeaturePush.Store.Append | src/kenaz_ml/features_push.py:151-168 | queue, order and total after appending and trimming the key are those of the specified list |
| FeaturePush.Store.PopOldest | src/kenaz_ml/features_push.py:151-191 | taking the oldest order entry drops the oldest event of all, or nothing if the entry is stale |
| FeaturePush.Store.EvictToLimit | src/kenaz_ml/features_push.py:151-191 | the eviction loop ends and leaves the newest events up to the total limit |
| FeaturePush.Store.TidyOrder | src/kenaz_ml/features_push.py:151-191 | stale entries and compaction change no event, and the order stays within twice the total limit |
| FeaturePush.Store.Insert | src/kenaz_ml/features_push.py:151-191 | one insertion refines: append, drop the key's oldest if over its limit, drop the oldest of all if over the total |
| FeaturePush.Store.Push | src/kenaz_ml/features_push.py:140-149 | one batch: the events refused, by index, and the store's contents as every other event pushed in order; what is stored of an event is `FeatureMeaning.StoredInFields` |
| FeaturePush.RefusedOrStored | src/kenaz_ml/features_push.py:140-149 | exactly the invalid events of a batch are refused, once each, and all others stored |
| FeaturePush.Store.PushNext | src/kenaz_ml/features_push.py:142-148 | an invalid event changes nothing and blocks no other |
| FeaturePush.Store.Latest | src/kenaz_ml/features_push.py:195-203 | the most recently pushed event of the key still held |
| FeaturePush.Store.CommitTsMs | src/kenaz_ml/features_push.py:211-223 | the greatest commit time still held for the session, in whatever order commits arrived |
| FeaturePush.SortedLive | src/kenaz_ml/features_push.py:151-191 | sorting every live event of every queue gives exactly the arrival order of the list |
| FeaturePush.HeadIsOldest | src/kenaz_ml/features_push.py:188-191 | an order entry whose queue begins with it stands for the oldest event of all |
| FeaturePush.HeadIsStale | src/kenaz_ml/features_push.py:188-191 | an oldest entry whose queue does not begin with it belongs to no live event |
| FeaturePush.RetainsNewest | src/kenaz_ml/features_push.py:151-191 | over every run each key holds exactly the newest stretch of what was pushed under it, within both limits, and the newest event is always held |
| FeatureMeaning.RefusedExactly | src/kenaz_ml/features_push.py:92-116 | which wire events are refused, and for which reason first |
| FeatureMeaning.StoredInFields | src/kenaz_ml/features_push.py:140-168 | the k-th event stored of a batch comes from its k-th well-formed one, with its class, session and time, the client, and the clock reading as the time of receipt |
| FeatureMeaning.CommitAfterPush | src/kenaz_ml/features_push.py:211-223 | after a batch the commit time answered is one held before or the wire time of a commit of the session in the batch, whatever the clock said |
| FeatureMeaning.NoHeldCommitIsLater | src/kenaz_ml/features_push.py:211-223 | it is no less than the wire time of any commit of the session still held |
| FeatureMeaning.CommitOfOneBatch | src/kenaz_ml/features_push.py:140-223 | for one batch pushed into an empty store within its limits it is the greatest wire time of the session |
| FeatureMeaning.PushedExactly | src/kenaz_ml/features_push.py:151-191 | one push drops the oldest of its key exactly at the limit of the key, then the oldest of all exactly over the limit of the store, and nothing else |
| FeatureMeaning.RetainsExactly | src/kenaz_ml/features_push.py:151-191 | over every run that does not reach the total limit each key holds exactly its newest events up to its own |
| FeatureMeaning.RetainsNewestOfAll | src/kenaz_ml/features_push.py:151-191 | over every run in which no key reaches its limit the store holds exactly the newest events up to the total |
| Poller.PollKeepsIntake | src/kenaz_ml/poller.py:110-163 | every cycle, failing wherever it may, keeps the intake invariant and never moves back |
| Poller.IntakeOverRuns | src/kenaz_ml/poller.py:110-163 | the same over every run of arrivals and cycles |
| Poller.VisibleExactly | src/kenaz_ml/poller.py:40-42 | the query shows exactly the events after the cursor that are of none of five kinds, in id order |
| Poller.CycleTakesIn | src/kenaz_ml/poller.py:110-163 | one cycle takes in everything due up to a hundred events past the cursor unless it fails before buffering, and moves the cursor to the last of them if and only if the commit takes effect |
| Poller.ExactlyOnceIntake | src/kenaz_ml/poller.py:110-163 | what was taken in is a prefix of the non-excluded ledger beyond the starting cursor, once each and in order; the buffer is its last 200; the cursor never passes it and all but its last 100 at most lie up to the cursor |
| Poller.EngineCatchesUpExactly | src/kenaz_ml/signals/engine.py:83-96 | an engine run brings both models up to everything taken in if and only if neither is more than a buffer behind |
| Poller.DeliveryOverRuns | src/kenaz_ml/signals/engine.py:83-96 | with an engine that updates a model as a whole or not at all, and both whenever the cursor moves, both models stay prefixes of the intake, never behind the cursor |
| Poller.DeliveryExactly | src/kenaz_ml/signals/engine.py:83-96 | over every run of cycles failing anywhere and engines that are silent, stop after the profile or run, both models hold a prefix of the intake, each event once and in order, if and only if no engine run finds a model it updates more than a buffer behind |
| Poller.CycleDeliversExactly | src/kenaz_ml/poller.py:110-163 | the same for one cycle; a model too far behind departs from the intake for good |
| Poller.ExactlyOnceDelivery | src/kenaz_ml/signals/engine.py:83-96 | so each event up to the cursor reaches each model exactly once, also across failed cycles |
| Poller.SilentEngineLosesEvents | src/kenaz_ml/signals/engine.py:83-96 | after three cycles without the engine over a backlog of 300 no continuation ever gives either model one of the first hundred events |
| Poller.EvictedIsLost | src/kenaz_ml/signals/engine.py:83-96 | an event neither model was given before 200 later ones were taken in is given to neither in any continuation, whatever the engine does |
| Poller.PartialUpdateRepeatsExactly | src/kenaz_ml/signals/engine.py:85-89 | after a profile update that raises midway the next one gives all its events again; each was given once if and only if none was taken or there was none |
| Poller.FileEventsAfter | src/kenaz_ml/signals/engine.py:83-96 | there are ledgers of any length the poller sees in full, so such a backlog arises |
| Poller.AfterIsBeyond | src/kenaz_ml/datastore/sqlite.py:176-192 | asking again from a later cursor yields what lies beyond it of an earlier answer |
| Poller.EventPoller.ProcessEvents | src/kenaz_ml/signals/engine.py:83-96 | the engine's two filters and last-seen ids, raising within the profile's update, after it, or not at all |
| Poller.EventPoller.PollOnce | src/kenaz_ml/poller.py:110-163 | one cycle, failing at any point, ends in the specified state |
| ObjectStore.Bucket.Put | src/kenaz_ml/modelstore/s3_retained.py:115-116 | a put adds one current version; a failed one may have done so |
| ObjectStore.Bucket.List | src/kenaz_ml/modelstore/s3_retained.py:31-50 | every version and delete marker under a prefix and nothing else, each saying whether it is current |
| ObjectStore.Bucket.Delete | src/kenaz_ml/modelstore/s3_retained.py:53-61 | exactly the named versions go; of a failed request any part |
| ObjectStore.DeleteVersions | src/kenaz_ml/modelstore/s3_retained.py:53-61 | across the batches of 1000 exactly the named versions go; if it gives up, the batches before the one refused are gone, that one in part, and none behind it |
| ObjectStore.LatestSurvives | src/kenaz_ml/modelstore/s3_retained.py:117-120 | deleting other versions leaves the current version of a key current |
| ObjectStore.LatestExactly | src/kenaz_ml/modelstore/s3_retained.py:31-50 | a version is its key's current one if and only if none of the key was written later |
| ObjectStore.ReadExactly | src/kenaz_ml/modelstore/stores.py:154-168 | a key reads as a body if and only if its newest version has that body; deleted, it reads as nothing |
| ObjectStore.RemainingCount | src/kenaz_ml/modelstore/s3_retained.py:53-61 | each version deleted is one less |
| ObjectStore.ResurfacesExactly | src/kenaz_ml/modelstore/s3_retained.py:53-61 | a given set of deletions brings an older version of a key into view if and only if the current one goes and an earlier one stays |
| ObjectStore.MayResurfaceExactly | src/kenaz_ml/modelstore/s3_retained.py:53-61 | a deletion that may break off anywhere can bring an older version of a key back if and only if its current version is to go and is not its only one |
| RetainedMirror.Push | src/kenaz_ml/modelstore/s3_retained.py:108-121 | from any history a completed push leaves exactly the directory's files under the prefix, one version each; one that breaks off is safe; nothing outside the prefix changes |
| RetainedMirror.SweepMirrors | src/kenaz_ml/modelstore/s3_retained.py:117-120 | sweeping after a complete upload leaves exactly the files |
| RetainedMirror.SweepIsSafe | src/kenaz_ml/modelstore/s3_retained.py:117-120 | any part of the sweep leaves every file readable and no version from nowhere |
| RetainedMirror.MirrorsOneVersionEach | src/kenaz_ml/modelstore/s3_retained.py:108-121 | a mirrored prefix holds one version per key |
| RetainedMirror.MirrorsAgree | src/kenaz_ml/modelstore/s3_retained.py:108-121 | a push rerun after an interruption shows the same keys and bytes as one that was not interrupted |
| RetainedMirror.BrokenSweepResurfacesExactly | src/kenaz_ml/modelstore/s3_retained.py:117-120 | a push that breaks off in its sweep can bring an older version of a key back if and only if the directory has no file for it and the bucket holds it in more than one version |
| RetainedMirror.InterruptedSweepResurfaces | src/kenaz_ml/modelstore/s3_retained.py:117-120 | an interrupted sweep that shows an older version of a removed file |
| RetainedMirror.Pull | src/kenaz_ml/modelstore/s3_retained.py:91-106 | name by name: a retained name is in the directory if and only if the bucket reads it under the prefix, with those bytes, and any other name if and only if it was there; the files pulled are counted; a pull that breaks off holds no retained file the bucket lacks |
| RetainedMirror.PushDirectory | src/kenaz_ml/modelstore/s3_retained.py:108-121 | only the retained files of a directory are uploaded, and they are counted |
| RetainedMirror.RetainedNameExactly | src/kenaz_ml/modelstore/s3_retained.py:91-106 | which names under a prefix are retained files |
| RetainedMirror.PushedThenPulled | src/kenaz_ml/modelstore/s3_retained.py:91-121 | after a push, a pull into any directory leaves the pushed files and the files of that directory that are not retained, nothing else |
| RetainedMirror.PushThenPull | src/kenaz_ml/modelstore/s3_retained.py:91-121 | what was pushed is what the bucket yields to a pull |
| RetainedMirror.PurgePrefix | src/kenaz_ml/modelstore/s3_retained.py:64-74 | refused exactly for a prefix that does not end in a slash or is one; otherwise every version under it goes, nothing else, and they are counted |
| ModelStore.Save | src/kenaz_ml/modelstore/stores.py:170-188 | artifact first, then pointer, each under its key; where a failing save can stop |
| ModelStore.SaveThenLoad | src/kenaz_ml/modelstore/stores.py:154-188 | a saved model loads back and is the current version |
| ModelStore.LoadExactly | src/kenaz_ml/modelstore/stores.py:149-168 | what loads is the newest object of the version that the newest `latest` names, spaces stripped |
| ModelStore.CurrentVersionExactly | src/kenaz_ml/modelstore/stores.py:233-249 | the current version is what the newest `latest` names, unless that is nothing |
| Text.StripExactly | src/kenaz_ml/modelstore/stores.py:160 | stripping takes away spaces at either end, all of them and nothing else |
| ModelStore.HalfSaved | src/kenaz_ml/modelstore/stores.py:170-188 | a save stopped before its pointer is visible if and only if it reuses the current version's name |
| ModelStore.SaveLeavesOthers | src/kenaz_ml/modelstore/stores.py:148-188 | saving one model leaves what every other model loads |
| ModelStore.PurgeKeepsLoad | src/kenaz_ml/modelstore/stores.py:284-298 | whatever part of a purge is carried out, the model loads as before |
| ModelStore.PurgeLeavesNothingOld | src/kenaz_ml/modelstore/stores.py:284-298 | exactly which versions a purge leaves: none older than the cutoff but the live pointer and its live artifact |
| ModelStore.PurgeLeavesExactly | src/kenaz_ml/modelstore/stores.py:284-298 | the same over the keys and dates of the versions |
| ModelStore.PurgeResurfacesExactly | src/kenaz_ml/modelstore/stores.py:284-298 | exactly when a completed purge brings an older version back into view |
| ModelStore.BrokenPurgeResurfacesExactly | src/kenaz_ml/modelstore/s3_retained.py:53-61 | exactly when a purge that breaks off can: a key not kept whose current version is older than the cutoff and not its only one |
| ModelStore.BrokenPurgeResurfaces | src/kenaz_ml/modelstore/s3_retained.py:53-61 | a deleted object, dated in order, that a broken-off purge makes readable again |
| ModelStore.PurgeShowsNothingNew | src/kenaz_ml/modelstore/stores.py:284-298 | every key that does not meet the condition, of a completed or a broken-off purge, shows its current version or nothing |
| ModelStore.OrderedDatesNeverResurface | src/kenaz_ml/modelstore/stores.py:284-298 | with modification times that do not decrease per key, no deleted or replaced object comes back from a completed purge |
| ModelStore.EarlierMarkerResurfaces | src/kenaz_ml/modelstore/stores.py:284-298 | a deleted object a purge makes readable again, its marker being dated before it |
| ModelStore.EraseByRetraining | src/kenaz_ml/modelstore/stores.py:261-298 | saving a retrained model after the cutoff and purging leaves the new artifact and pointer and nothing else, and it loads |
| ModelStore.PurgeVersionsBefore | src/kenaz_ml/modelstore/stores.py:261-298 | its refusals, which leave everything; else a version stays if and only if it lies elsewhere, is dated at or after the cutoff, or is the newest of the pointer or of the artifact it names, and the others are counted; a part of them goes when it breaks off, and only keys meeting the exact conditions can show an older version; load and everything outside the model are unchanged |
| ModelStore.DeleteModel | src/kenaz_ml/modelstore/stores.py:251-259 | refused exactly for a name that is not one path segment; else every version under the model goes, nothing else, and they are counted; nothing loads |
| ModelStore.OthersLoadTheSame | src/kenaz_ml/modelstore/stores.py:204-207 | whatever happens under one model's prefix, every other model loads the same |
| Leases.NextStaysBounded | src/kenaz_ml/lifecycle/leases.py:146-185 | no step puts a client over eight leases or a key in twice |
| Leases.RunStaysBounded | src/kenaz_ml/lifecycle/leases.py:146-185 | the same over every run |
| Leases.RenewalDisplacesOnlyTheOldest | src/kenaz_ml/lifecycle/leases.py:150-160 | a renewal takes a lease only at the cap, only from its own client, only the least recently renewed one |
| Leases.ClocksAreLatest | src/kenaz_ml/lifecycle/leases.py:140-190 | the two clocks are the latest sign of life and the latest poll of the whole run |
| Leases.ExitsExactly | src/kenaz_ml/lifecycle/leases.py:207-223 | exiting is due if and only if the install is managed, nothing is held, every sign of life is older than the idle window and every poll older still by the implicit window |
| Leases.AbandonedEngineExits | src/kenaz_ml/lifecycle/leases.py:173-223 | once nothing is held and nothing renews or polls, a managed engine exits when the windows have passed |
| Leases.DeadClientsAreSwept | src/kenaz_ml/lifecycle/leases.py:173-185 | a sweep that finds every pid dead leaves nothing held |
| Leases.LiveLeaseIsHeld | src/kenaz_ml/lifecycle/leases.py:146-185 | of a client with at most eight pids, a renewed lease no sweep finds dead is held to the end of the run |
| Leases.NoExitUnderALiveLease | src/kenaz_ml/lifecycle/leases.py:146-223 | so the engine does not exit under it |
| Leases.DeadFacts | src/kenaz_ml/lifecycle/leases.py:173-185 | a sweep keeps and discards between them every lease, by whether its process is alive |
| Leases.FindOldest | src/kenaz_ml/lifecycle/leases.py:151-153 | the minimum over a client's leases is its first least recently renewed one |
| Leases.RenewalExactly | src/kenaz_ml/lifecycle/leases.py:146-163 | a renewed lease takes the place of its key, or goes to the end, displacing, if its client has eight already, the first of those least recently renewed; nothing else changes |
| Leases.LeaseTable.Renew | src/kenaz_ml/lifecycle/leases.py:146-163 | the lease held has the fields renewed; of the others all stay but, at the cap of eight, the least recently renewed of the same client; the renewal is appended to the history, of which the fields are the outcome |
| Leases.LeaseTable.NoteHealthPoll | src/kenaz_ml/lifecycle/leases.py:165-169 | both clocks read now; the poll is appended to that history |
| Leases.LeaseTable.Sweep | src/kenaz_ml/lifecycle/leases.py:173-185 | exactly the leases of live processes stay and the dead are returned; the idle clock moves if and only if one stays or a poll is recent; the sweep is appended to that history |
| Leases.LeaseTable.RestartCountdown | src/kenaz_ml/lifecycle/leases.py:140-144 | the idle clock never goes back; the restart is appended to that history |
| Leases.LeaseTable.ShouldExit | src/kenaz_ml/lifecycle/leases.py:221-223 | over the table's whole history: with a clock that never went back the answer is yes if and only if the install is managed, nothing is held, every sign of life is at least the idle window old and every poll older still by the implicit window |
| ShadowJoin.JoinIsAMatching | src/kenaz_ml/advice/shadow.py:300-357 | no label is used twice |
| ShadowJoin.UnpairedHasNoFreeCandidate | src/kenaz_ml/advice/shadow.py:325-356 | a shadow stays unpaired only if every label it could take went to a shadow served before it |
| ShadowJoin.JoinIsUnique | src/kenaz_ml/advice/shadow.py:300-357 | the join is determined by shadows and labels alone |
| ShadowJoin.JoinIsDeterministic | src/kenaz_ml/advice/shadow.py:300-357 | so are the list of pairs and its order |
| ShadowJoin.KeyedPairsAreMinimum | src/kenaz_ml/advice/shadow.py:316-334 | for every exact key the pairs number the smaller of its shadows and its labels |
| ShadowJoin.JoinIsMaximumPerKey | src/kenaz_ml/advice/shadow.py:316-334 | no pairing by exact key pairs more |
| ShadowJoin.SortedFacts | src/kenaz_ml/advice/shadow.py:311 | shadows are served by time, those of one instant in log order |
| ShadowJoin.GroupBy | src/kenaz_ml/advice/shadow.py:318-341 | the dictionaries list exactly the positions of each key, ascending |
| ShadowJoin.FirstUnused | src/kenaz_ml/advice/shadow.py:330-334 | the exact pass takes the first unused label of the key in log order |
| ShadowJoin.NearestUnused | src/kenaz_ml/advice/shadow.py:343-353 | the fallback takes, among unused labels of the same hash without a session clash and within tolerance, the nearest in time, the first of a tie |
| ShadowJoin.ExactPass | src/kenaz_ml/advice/shadow.py:316-334 | after pass one every keyed shadow has its choice and no other shadow has any |
| ShadowJoin.FallbackPass | src/kenaz_ml/advice/shadow.py:336-356 | pass two completes the join without disturbing pass one |
| ShadowJoin.Join | src/kenaz_ml/advice/shadow.py:300-357 | the joined pairs are those of the one join, the keyed ones first, each in time order |
| JoinMeaning.MatchesExactly | src/kenaz_ml/advice/shadow.py:316-353 | a shadow that names its label by hash and time takes that one only; another takes labels of its vector hash, of its session or one of them without, at most 120000 ms before or after |
| JoinMeaning.PairedExactly | src/kenaz_ml/advice/shadow.py:300-357 | in the join, and in no other pairing, every shadow has the best label left by those served before it: the first it names, or the nearest in time, the first of a tie |
| JoinMeaning.JoinInFields | src/kenaz_ml/advice/shadow.py:300-357 | the pairs returned match, use no shadow or label twice, give every shadow that best label, and leave no shadow and label alone that match |
| JoinMeaning.JoinOrder | src/kenaz_ml/advice/shadow.py:300-357 | pairs of shadows that name their label come first, each kind in the order served |
| Calibration.ExpectedCalibrationError | src/kenaz_ml/advice/models.py:267-286 | for any number of bins the error lies between the gap of the overall means, either way round, and the mean distance of label and probability, which is at most one |
| Calibration.EceIsBetween | src/kenaz_ml/advice/models.py:267-286 | the same of the specification |
| Calibration.BinIsItsRange | src/kenaz_ml/advice/models.py:279 | every probability is in exactly the bin whose range it lies in, 1 in the last |
| Calibration.BinsPartition | src/kenaz_ml/advice/models.py:279-285 | summing bin by bin is summing over all samples |
| Calibration.TermIsGap | src/kenaz_ml/advice/models.py:281-285 | a bin contributes the size of its summed differences over the number of samples, an empty bin nothing |
| Calibration.OneBinIsTheGapOfMeans | src/kenaz_ml/advice/models.py:267-286 | with one bin the lower bound is attained |
| TypeGrammar.StripBrackets | scripts/gen_typewriter.py:125-132 | the depth-counting loop leaves what is outside brackets |
| TypeGrammar.SplitTopLoop | scripts/gen_typewriter.py:135-146 | the splitting loop cuts at every separator outside brackets and nowhere else |
| TypeGrammar.BarOutsideIffSplits | scripts/gen_typewriter.py:111-146 | a bar survives the bracket strip if and only if the split yields two parts or more, although the two scans treat the brackets themselves differently |
| TypeGrammar.SplitPartsShorter | scripts/gen_typewriter.py:111-146 | the parts of such a split are strictly shorter, so the parser ends on every string |
| TypeGrammar.ParsedIsWellFormed | scripts/gen_typewriter.py:111-122 | whatever parses is well formed: unions of two parts or more, none directly inside another |
| TypeGrammar.RoundTrip | scripts/gen_typewriter.py:111-146 | the parser inverts the canonical printer on every well-formed type expression |
| TypeGrammar.NormalForm | scripts/gen_typewriter.py:111-122 | printing what parsed and parsing again changes nothing |
| TypeGrammar.UnionThatLooksLikeAList | scripts/gen_typewriter.py:111-122 | a union that begins and ends like one list is parsed as a union |
| TypeMeaning.PlainExactly | scripts/gen_typewriter.py:111-122 | a text without brackets or bars is one of six primitives, a capitalised name, or refused |
| TypeMeaning.WrappedExactly | scripts/gen_typewriter.py:111-122 | a balanced text in `list<>` or `map<>` parses as a list or map of what it parses as, and is refused as it is |
| TypeMeaning.UnionExactly | scripts/gen_typewriter.py:111-122 | a union parses if and only if every part does, part by part and in order; else the first bad part is named |
| TypeMeaning.SplitJoins | scripts/gen_typewriter.py:135-146 | joining what a split yields gives the text back |
| TypeMeaning.ParsedReprints | scripts/gen_typewriter.py:111-146 | what a text parses as prints as the text itself, spaces aside, for every text that parses |
| ProtoWire.VarintLoop | src/kenaz_ml/laya/eligibility.py:221-232 | the loop ends and writes the varint of the value, a negative one as its two's complement |
| ProtoWire.ReadsBack | src/kenaz_ml/laya/eligibility.py:221-232 | a varint is read back whatever follows it |
| ProtoWire.VarintLength | src/kenaz_ml/laya/eligibility.py:221-232 | a number takes at most k bytes if and only if it is below 128 to the k |
| ProtoWire.SixtyFourBitsRoundTrip | src/kenaz_ml/laya/eligibility.py:221-232 | every value from -2^63 below 2^64 takes at most ten bytes and reads back modulo 2^64 |
| ProtoWire.MessageRoundTrip | src/kenaz_ml/laya/eligibility.py:235-263 | every message of numbers, byte strings and nested messages reads back field by field at every depth |
| ProtoWire.EncodingIsUnique | src/kenaz_ml/laya/eligibility.py:235-263 | two messages of one shape written the same way are the same message |
| ProtoWire.SpecificationExamples | src/kenaz_ml/laya/eligibility.py:221-245 | the examples of the Protocol Buffers Encoding specification, byte by byte |
| FixtureModel.TensorWrites | src/kenaz_ml/laya/eligibility.py:247-252 | a tensor's bytes are the encoding of its dimensions, type, name and weights |
| FixtureModel.NodeWrites | src/kenaz_ml/laya/eligibility.py:255-257 | a node's bytes are the encoding of its inputs, output, name, operator and attributes |
| FixtureModel.ValueInfoWrites | src/kenaz_ml/laya/eligibility.py:260-263 | a value's bytes are the encoding of its name and shape, three messages deep |
| FixtureModel.FixtureReadsBack | src/kenaz_ml/laya/eligibility.py:266-307 | whatever the weights and the notice, a reader of the fixture's bytes gets exactly the intended model |

## Left out

- The advice lifecycle covers one kind, the local slot and the classic backend; the laya backend, the shipped base slot, the latency rings and the audit events are not modelled.
- Graduation and flip-back verdicts are chosen by the environment: their accept rates, windows and thresholds are not modelled, nor is the retrain scheduler's backoff.
- A digest is an injective constructor and a model is its bytes; manifest versions are compared as numbers.
- Locks and thread interleavings: every operation is one step of a sequential run, also the sweep, which releases its lock midway.
- LabelIngest.LabelStore.Ingest: does not include eviction (proved separately in LabelBound) or process death between the log write and the mirror update; a marker that is there is seen; a line of a failed append that is cut short counts as not landed, since every reader skips it.
- LabelBound.EnforceBound: lines that are not UTF-8 make its rewrite raise an error `ingest` does not catch; texts are taken to be readable.
- LabelIngest.LabelStore.UpdateMirror: the retained set is a list that may be replaced or extended or fail; its own generations, bound and header are not modelled.
- Rows carry the fields the wire model validates; malformed lines, the size of a record's JSON and text encodings are given or not modelled.
- Poller.EventPoller.ProcessEvents: says what each model is given, not what it makes of it; the n-gram model ignores fewer than three tokens.
- Poller.EventPoller.PollOnce: covers the cursor, the buffer and the two signal models; predictions made in a cycle, and the rollback of an uncommitted cursor at a later connection, are not modelled.
- Signal detection itself, task contexts and the limit on signals per window are not modelled.
- ObjectStore.Bucket.List: the listing comes whole; paging adds nothing but concatenation.
- ModelStore.PurgeVersionsBefore: a read of the pointer that fails for another reason than absence, and the check that the cutoff has a time zone, are not modelled.
- RetainedMirror.Pull: a directory is a map of names to bytes; sub-directories and unreadable files are not modelled.
- The in-memory model caches (`src/kenaz_ml/modelstore/cache.py` and the cached store) would only add easy members.
- LabelRuns.LabelRows: gives the rows kept per key; the sort of the returned list is not modelled.
- Leases.ExitsExactly: takes both windows as given numbers, the idle one positive; reading them from environment variables is not modelled.
- Leases.LeaseTable.Sweep: asks about each lease's process once, through a given answer; process identifiers that are reused are not modelled.
- ShadowJoin.Join: label rows without a readable key never leave the log reader and are not modelled, nor is a kind without a contract, which joins nothing.
- Calibration.ExpectedCalibrationError: works over the reals, without floating-point rounding; the mapping of a probability to a decision and a percentage is a few cases and left out.
- TypeGrammar.RoundTrip: the error texts of the parser and the generated Python and Go types are not modelled.
- ProtoWire.VarintLoop: requires a value of at least -2^64, below which the code's loop does not end.
- FixtureModel.FixtureReadsBack: the weights are given as packed bytes, so the generator of noise and the float packing are not modelled; texts are ASCII.
- HTTP routes, the command line, tenants, logging, plugins, the registry and the training of models are not modelled.
