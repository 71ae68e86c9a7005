# Verified model of the MPAS product controller

The product controller turns a subscribed component version into a running product. Its reconcilers
generate a `ProductDeployment` and a pull request, validate the configuration that users propose,
create one pipeline object for each pipeline of the product, localize and configure its resource,
pick a target and deploy. Configuration values are CUE files that are completed from a schema.

This project models that behaviour in Dafny and proves what it keeps, over every input, every
interleaving and every run. Where a promise of the code or its comments does not hold, the code is
modelled as it is, a lemma with a concrete input shows the failure, and the exact condition is
proved.

## Files

| file | models |
|---|---|
| `wrappers.dfy` | Option and Result |
| `cue_slice.dfy` | `removePrivateFields` on slices: backing arrays, lengths, shared pointers |
| `cue_sweep.dfy`, `cue_sweep_marks.dfy`, `cue_sweep_level.dfy`, `cue_sweep_exact.dfy` | what that loop computes on values: one level told apart from those below, one level in closed form, and exactly when whole trees come out as intended |
| `cue_delta.dfy`, `cue_merge.dfy`, `cue_emitted.dfy` | `fieldsDelta`, `makeValues`, `Unify`, `Merge` and their laws; what a merge adds, field by field |
| `cue_file.dfy` | `File` objects that are evaluated and sanitized in place |
| `validation.dfy`, `validation_runs.dfy` | the Validation reconciler; histories with lost patches |
| `deployment.dfy`, `deployment_exact.dfy`, `deployment_runs.dfy` | the ProductDeployment reconciler; every run, object by object; histories of its ConfigMaps and pipelines |
| `propagation.dfy`, `propagation_runs.dfy` | Localizations and Configurations; how new values reach them |
| `targets.dfy`, `pipeline.dfy`, `pipeline_runs.dfy`, `pipeline_exact.dfy` | target selection, pipeline reconciler, scheduler, Kubernetes deployer; both controllers interleaved |
| `semver.dfy` | the precedence order of Semantic Versioning 2.0.0, section 11 |
| `generator_product.dfy`, `product_exact.dfy`, `generator.dfy`, `generator_exact.dfy`, `generator_runs.dfy` | the ProductDeploymentGenerator; every product and every run, part by part; histories of versions, Syncs and Validations |
| `inventory.dfy` | the search for the GitRepository in a project's inventory |
| `target_conditions.dfy` | the Target reconciler as a condition machine |

Code that updates objects is modelled by classes and methods; each is proved against a function on
values, and the laws are lemmas about that function and about histories of it. What a run meets
outside (answers of the API server, of the CUE and OCM libraries, of the Git provider) is passed to
it as a value named `Sights`, so that every success and failure is covered. Hashes, the version
parser and the CUE library are function parameters. Status patches are committed or lost at the end
of a run; for the two pipeline controllers reads may also be stale.

## What does not hold

Each of these comes with a concrete input (the first names) and the exact condition (the last ones).

* `EvalWithoutPrivateFields` says it removes any private fields. The loop ranges over the old slice
  while the list shrinks: it passes over the declaration behind a removed one and comes back to the
  last one, and it slices out of range when the last field of a level is private beside another one.
  `PrivateFieldStays`, `TwoPrivatesPanic`; `RemovalDecided`.
* A path of three labels is never reported as missing, because the absolute path is looked up in a
  schema that is narrowed already. Structs inside a missing root struct come out empty.
  `InnerStructEmpty`; `RestoredInFull`. If, moreover, the CUE library refuses to list the fields of a
  leaf, which the repository does not settle, a struct that repeats its parent's label can make merging
  impossible (`EchoFails`; `EchoExact`); if it lists none, the delta never fails (`NeverFails`).
* A run of the ProductDeployment reconciler that fails once the new ConfigMap is there leaves existing
  pipelines on the old one for as long as the values stay: the next run finds the new ConfigMap in
  place and takes the values as unchanged. `StrandedPipeline`; `CleanUpDecides`, `FailedCleanUpSticks`.
* A change of the spec alone does not reach pipelines that exist. `StalePipeline`; `PipelineCurrent`. Even
  one that is handled keeps its target role if nothing else changed. `RoleKept`; `PipelineCurrent`.
* A pipeline that gains a localization after its Configuration was made crashes its reconciler on
  every run. `LocalizationGained`; `CrashExact`. Its Localization never follows a new version.
  `LocalizationStale`; `LocalizationFrozen`. Without a localization the Configuration does not follow
  new versions, either, as long as three names stay. `ConfigurationStale`; `ConfigurationFollows`.
* Deployed=True of a pipeline need not be about the selected target when a run of the scheduler reads an
  old version and commits only the fields it changed. `MixedRuns`, reached from a fresh pipeline by
  `FailureFirst`; `CommitExact`, `SelectedTargetDeployed`. It always is if every run that changes one of
  the two fields still finds both as it read them. `CurrentRunsHonest`.
* A failed fetch records the digest of the artifact it could not read and leaves Ready=True; the
  artifact is not taken up again. `UnfetchedDigestVouched`; `ReadyVouches`, `RecordedDigestSticks`.
* Ready=True of the generator need not mean that the subscription is ready and its version recorded:
  the caller overwrites what `shouldRun` marked for a subscription that is not ready, and a run that
  panics leaves Ready as it was. `NotReadyReported`, `PanicKeepsReady`; `ReadyExact`, `ReadyVouches`,
  `SincereExact`.
* Two versions with the same short hash share a Sync. `VersionsCollide`; `CollisionExact`.
* With no configuration in the repository yet, the stored schema is not the schema: it is the
  configuration, to the byte. `SchemaLost`; `StoredSchema`.
* A Target with a zero interval and without any access panics and is reported ready all the same,
  because the deferred `setStatus` was given the error before it was known. `ZeroIntervalMisleads`;
  `TargetConditions.ReadyExact`.

## Model

| member | source | states |
|---|---|---|
| Slices.CutAt | internal/cue/cue.go:132 | removing element i shifts the tail down inside the same backing array, keeps the old last element behind the new end, and leaves what was removed detached from the list |
| Slices.Recurse | internal/cue/cue.go:134-136 | recursing into a struct literal changes that one declaration only, also when it was just cut out of the list, and fails exactly when the inner loop slices out of range |
| Slices.RemovePrivateFields | internal/cue/cue.go:128-139 | the loop over the stale slice header, on the heap, computes exactly the value-level sweep and slices out of range exactly when the sweep has no result |
| SweepMarks.SweepsMarks | internal/cue/cue.go:128-139 | any number of sweeps of any tree is told from one level at a time: which declarations stay, how often each is handled, and whether the levels below get through |
| SweepMarks.RunPublics | internal/cue/cue.go:128-139 | no declaration that is not private is ever lost or moved |
| SweepMarks.SurvivesExact | internal/cue/cue.go:128-139 | for every tree and number of sweeps: nothing slices out of range if and only if no level does, in the sweeps that level gets |
| SweepMarks.ClearsExact | internal/cue/cue.go:128-139 | for every tree and number of sweeps: the result is the order-preserving recursive filter if and only if each level that stays loses its private fields in the sweeps it gets |
| SweepLevels.LevelOverruns | internal/cue/cue.go:130-133 | a level slices out of range in its first sweep if and only if its last field is private and another one is, too |
| SweepLevels.LevelExact | internal/cue/cue.go:128-139 | any number of sweeps of any level, in closed form: each sweep halves every run of private declarations, the one behind a run is passed over when the run is odd, and the last one is handled once more for each removal |
| SweepExact.RemovalDecided | internal/cue/cue.go:104-139 | for every tree, in closed form: the loop removes exactly the private fields if and only if one sweep clears the tree, and it panics if and only if the tree does not survive one |
| SweepExact.SweepsDecided | internal/cue/cue.go:128-139 | the same for every number of sweeps in a row |
| SweepExact.SimpleRemoval | internal/cue/cue.go:104-139 | with at most one private field on a level and none below the field behind it (unless that is the last), exactly the private fields are removed and nothing panics |
| SweepExact.PrivateFieldStays | internal/cue/cue.go:104-126 | a tree with one private field on each level whose inner private field is kept |
| SweepExact.TwoPrivatesPanic | internal/cue/cue.go:130-133 | a list of two private fields slices out of range |
| SweepExact.FirstAttributeDecides | internal/cue/cue.go:131 | a field is taken out for its first attribute only, and only if that is `@private(true)` |
| SweepExact.StripExact | internal/cue/cue.go:104-126 | the filter that is meant goes from left to right; `StripOne` says what it makes of one declaration |
| SchemaDelta.AppendPrefixed | internal/cue/cue.go:365-369 | the inner loop puts the parents' labels back in front of every path found below |
| SchemaDelta.FieldsDelta | internal/cue/cue.go:327-375 | the loops return the delta, or fail, as the function on values does that SchemaMerge.DeltaMembers characterizes |
| SchemaDelta.MakeValues | internal/cue/cue.go:391-466 | the loop emits the declarations that SchemaMerge.EmitExact shows to be the completion, and fails exactly when it comes to a value that the library cannot read |
| SchemaMerge.DeltaLengths | internal/cue/cue.go:359-369 | no path has three labels: below the second level the prefix comes twice |
| SchemaMerge.DeltaMembers | internal/cue/cue.go:327-375 | a path of one or two labels is reported if and only if the schema has that field, neither private nor under a private field, and the data lacks it |
| SchemaMerge.WantedOrder | internal/cue/cue.go:327-375 | those paths come without duplicates and parents before children |
| SchemaMerge.EmitNothing | internal/cue/cue.go:377-402 | nothing is ever emitted at the third level |
| SchemaMerge.EmitExact | internal/cue/cue.go:377-466 | for the delta of a schema and any data, exactly the missing non-private root fields are emitted, in schema order, with defaults; missing root structs get all their non-private fields |
| SchemaMerge.LegibleExact | internal/cue/cue.go:391-466 | the emission fails if and only if the library fails on a missing root field that is not private, or on a field that is not private right below one |
| SchemaMerge.Merge | internal/cue/cue.go:143-175 | for every library meet the result is the user's fields untouched, followed by the completion; an error comes exactly from the delta, a schema version that is missing or no string, a value that cannot be read, or the library's validation or export of that result, and never from a conflict |
| SchemaMerge.UnifyDisjoint | internal/cue/cue.go:166-167 | the completion has only labels the configuration lacks, so unification is their disjoint union |
| SchemaMerge.MergeKeepsConfig | internal/cue/cue.go:143-175 | every path that leads to a value in the configuration leads to the same value after the merge |
| SchemaMerge.MergeCompletes | internal/cue/cue.go:143-175 | every non-private root field of the schema is there after the merge |
| SchemaMerge.MergeIdempotent | internal/cue/cue.go:143-175 | merging the result with the same schema again changes nothing |
| SchemaMerge.DeltaFailureBySchema | internal/cue/cue.go:327-375 | whether the delta fails depends on the schema alone, never on the data |
| SchemaMerge.NoEchoSucceeds | internal/cue/cue.go:327-375 | whatever the library makes of leaves: unless a root struct holds a struct under its own label the delta never fails, at any depth |
| SchemaMerge.NeverFails | internal/cue/cue.go:327-375 | if the library lists no fields for a leaf the delta never fails, for any schema at any depth |
| SchemaMerge.EchoExact | internal/cue/cue.go:354-363 | for schemas of up to three levels the delta fails if and only if the library refuses to list the fields of a leaf, and some root struct repeats its label and has a leaf there under the label of one of its structs |
| SchemaMerge.EchoFails | internal/cue/cue.go:354-363 | a small schema that no configuration can be merged with if the library refuses to list the fields of a leaf |
| SchemaMerge.RestoredInFull | internal/cue/cue.go:377-466 | a missing root struct is restored in full if and only if no struct inside it has non-private fields |
| SchemaMerge.InnerStructEmpty | internal/cue/cue.go:327-466 | a small schema whose inner struct comes out empty after the merge |
| SchemaEmitted.VersionExact | internal/cue/cue.go:60-72 | the version of a schema is the string at `#SchemaVersion`, if there is one |
| SchemaEmitted.MergeEmits | internal/cue/cue.go:391-466 | for every schema and configuration: a missing root field that is not private, and what is not private right below it, is in the merged value with its default if it has one and its own syntax if not, its comments, and its attributes with the schema version added |
| SchemaEmitted.MergeAdds | internal/cue/cue.go:143-175 | the configuration comes first, as it is, and behind it only missing root fields that are not private, in the order of the schema |
| CueFile.File.Eval | internal/cue/cue.go:238-269 | the result is the same object, whose declarations are now the evaluated ones; on an error nothing changes |
| CueFile.File.EvalWithoutPrivateFields | internal/cue/cue.go:106-126 | the result is the same object, holding the sweep of the evaluated declarations; fails with the library and panics with the sweep, exactly |
| CueFile.File.Sanitize | internal/cue/cue.go:178-180 | the declarations are cleaned up in place |
| CueFile.File.Unify | internal/cue/cue.go:194-208 | the result is a new object; the files given are left alone |
| Validation.Reconciler.CreateValueFileGitRepository | controllers/validation_controller.go:199-245 | the repository is created if it is not there, and adopted if it is |
| Validation.Reconciler.DeleteGitRepository | controllers/validation_controller.go:247-261 | a repository that is gone already counts as deleted, without a call |
| Validation.Reconciler.ShouldRun | controllers/validation_controller.go:263-362 | says exactly when the run goes on, what it leaves behind when not, and that it goes on only with a tracked repository that exists |
| Validation.Reconciler.Validate | controllers/validation_controller.go:145-196 | a digest is taken up once; Ready and the outcome change only with the verdict, which ValidationRuns.StatusExact ties to the five checks; PassValidation is called only after every check before it passed |
| Validation.Reconciler.Reconcile | controllers/validation_controller.go:92-197 | the whole run, with its patch committed or lost also after a nil dereference, is one step of the state machine; a lost patch is an error |
| ValidationRuns.StatusExact | controllers/validation_controller.go:92-197 | when each field of the status changes: the digest with any artifact that is taken up, Ready to True and the outcome to success only if fetching, both parsings, validation and the Git provider succeed, Ready to False exactly when the project is not found, clean-up fails or an attempt fails past fetching |
| ValidationRuns.EffectsExact | controllers/validation_controller.go:199-362 | when a run creates or deletes the repository, sets the check, or makes an attempt |
| ValidationRuns.ReplyExact | controllers/validation_controller.go:92-362 | when a run fails, asks for another one, or dereferences nil |
| ValidationRuns.Reachable | controllers/validation_controller.go:92-362 | over every history with lost patches: Ready=True means a tracked repository, outcome success and a latest attempt past fetching in which all five checks passed; no Create follows a Delete; no recorded digest is taken up twice in a row |
| ValidationRuns.HistoryKeeps | controllers/validation_controller.go:92-362 | the invariant behind it, for every history from every state that has it |
| ValidationRuns.CleanUpNeverCrashes | controllers/validation_controller.go:314-331 | clean-up never dereferences a nil repository reference in any reachable state |
| ValidationRuns.AttemptsDiffer | controllers/validation_controller.go:152-158 | with no patch lost two attempts in a row never have the same digest |
| ValidationRuns.ReadyVouches | controllers/validation_controller.go:158-193 | Ready=True vouches for the recorded digest, all five checks having passed on it, if and only if the run that recorded it could fetch it |
| ValidationRuns.RecordedDigestSticks | controllers/validation_controller.go:152-163 | a recorded digest is never taken up again while its artifact stays, and Ready does not come back |
| ValidationRuns.UnfetchedDigestVouched | controllers/validation_controller.go:158-193 | five steps to a Ready validation whose recorded digest nobody could fetch |
| ValidationRuns.Quiescent | controllers/validation_controller.go:314-330 | from then on every such run leaves calls, repositories and status alone and returns no requeue |
| ValidationRuns.GoneForGood | controllers/validation_controller.go:332-362 | once the tracked repository is gone, no history creates it, passes a check, or makes the validation Ready again |
| Deployment.Reconciler.GenerateConfigMap | controllers/productdeployment_controller.go:370-413 | names the ConfigMap by its content; new values get a new map and every other owned map is deleted, unless the owner reference fails first; reports an update exactly when that and all deletions succeeded |
| Deployment.Reconciler.CollectGarbage | controllers/productdeployment_controller.go:404-410 | every map that can be deleted is, and it succeeds if and only if all could |
| Deployment.Reconciler.CountExisting | controllers/productdeployment_controller.go:201-208 | the active pipelines start anew with the listed ones that are not ready |
| Deployment.Reconciler.CreateTheRest | controllers/productdeployment_controller.go:210-255 | each entry that is new, or every entry after an update, is written and becomes active, up to the first one that cannot be written; the others stay as they are |
| Deployment.Reconciler.Reconcile | controllers/productdeployment_controller.go:154-263 | says exactly when the run succeeds, and the whole new cluster state and stored list of active pipelines of every run, failed ones and lost status patches included |
| DeploymentExact.SucceedsExact | controllers/productdeployment_controller.go:154-263 | a run succeeds if and only if it comes to the entries and can write every one that is due |
| DeploymentExact.MapsExact | controllers/productdeployment_controller.go:370-413 | what becomes of each ConfigMap in any run: made with the values, removed, or left alone |
| DeploymentExact.StoredExact | controllers/productdeployment_controller.go:210-255 | what becomes of the pipeline of each entry in any run, field by field: a new one is the entry and not ready, one that resembles the entry stays, another gets the spec and keeps its owner and readiness; and it stays if the run does not come to it |
| DeploymentExact.OthersStay | controllers/productdeployment_controller.go:210-255 | no pipeline that no entry names is touched |
| DeploymentExact.ActiveExact | controllers/productdeployment_controller.go:201-252 | a pipeline is active after a run that comes to the entries if and only if it was not ready or was written |
| DeploymentRuns.PipelinesEffect | controllers/productdeployment_controller.go:210-255 | handled entries refer to the new map, all other pipelines stay, none is dropped or handed to another controller |
| DeploymentRuns.RunKeepsLive | controllers/productdeployment_controller.go:183-255 | one successful run keeps exactly one live ConfigMap to which all pipelines refer |
| DeploymentRuns.OneLiveConfigMap | controllers/productdeployment_controller.go:183-255 | after every history of successful runs that drops no pipeline: exactly one owned ConfigMap, named by the hash of the current values, with that content if the hash tells the values seen apart, and every pipeline of the spec exists and refers to it |
| DeploymentRuns.CleanUpDecides | controllers/productdeployment_controller.go:183-255 | a run that makes the map for new values, then any run on them: an existing pipeline refers to the new map if and only if the map got its owner, every old map could be deleted, the pipelines could be listed, and its entry came before the first that could not be written |
| DeploymentRuns.FailedCleanUpSticks | controllers/productdeployment_controller.go:379-383 | once the map of the values is there, no history of runs on them, failed or not, changes the spec of a pipeline that existed or removes an owned map |
| DeploymentRuns.StrandedPipeline | controllers/productdeployment_controller.go:379-413 | a cluster of one pipeline that a failed deletion leaves on the old map for good |
| DeploymentRuns.PipelineCurrent | api/v1alpha1/productdeploymentpipeline_types.go:74-89 | with distinct names: a pipeline has the names, versions and references of its entry after a run if and only if it was handled or had them before; it is the entry, field by field, if and only if it was before, or it was handled and was new or did not have them |
| DeploymentRuns.StalePipeline | controllers/productdeployment_controller.go:211-215 | a successful run that leaves a pipeline at an older version than the spec asks for |
| DeploymentRuns.RoleKept | api/v1alpha1/productdeploymentpipeline_types.go:74-89 | values that change and change back around a failed run, and a new target role that a successful run does not write |
| DeploymentRuns.CompletionSound | api/v1alpha1/productdeployment_types.go:56-59 | a run that succeeds comes to a complete deployment if and only if all owned pipelines were ready, all pipelines of the spec existed and the values had their map; then nothing was written |
| Propagation.Configuration.Mutate | controllers/productdeploymentpipeline_controller.go:212-236 | the closure either leaves the spec or makes it the wanted one as a whole, by three names only; it dereferences nil in exactly the stated cases |
| Propagation.Mutations.CreateOrUpdateLocalization | controllers/productdeploymentpipeline_controller.go:247-297 | a Localization is made once and never changed |
| Propagation.Mutations.CreateOrUpdateConfiguration | controllers/productdeploymentpipeline_controller.go:155-245 | the Configuration is made, kept or replaced, crashes exactly on a nil access, and an error changes nothing |
| Propagation.Mutations.Provide | controllers/productdeploymentpipeline_controller.go:107-129 | both objects after a run, and which of them provides the snapshot |
| PropagationRuns.LocalizationMade | controllers/productdeploymentpipeline_controller.go:247-297 | a new Localization localizes the resource of the pipeline by its localization |
| PropagationRuns.ConfigurationMade | controllers/productdeploymentpipeline_controller.go:155-210 | a new Configuration takes the Localization, or else the resource, and configures it by the rules with the part of the values that has the name of the pipeline |
| PropagationRuns.NothingElseMade | controllers/productdeploymentpipeline_controller.go:107-129 | no other object is made, and no other Configuration changes |
| PropagationRuns.NilAccessExact | controllers/productdeploymentpipeline_controller.go:212-233 | when the closure reads no nil pointer, whatever spec is stored |
| PropagationRuns.OneRun | controllers/productdeploymentpipeline_controller.go:155-245 | a run crashes if and only if the Configuration was made when the pipeline had no localization and now it has one; otherwise the Configuration is the wanted one if and only if it was before or one of three names differs, else it stays, and no other one changes |
| PropagationRuns.CrashExact | controllers/productdeploymentpipeline_controller.go:185-218 | over any sequence of specs the reconciler crashes if and only if the pipeline goes from no localization to one |
| PropagationRuns.LocalizationGained | controllers/productdeploymentpipeline_controller.go:217-220 | two specs, the second with a localization, that crash the reconciler |
| PropagationRuns.LocalizationFrozen | controllers/productdeploymentpipeline_controller.go:281-295 | no sequence of specs changes a Localization that exists |
| PropagationRuns.LocalizationStale | controllers/productdeploymentpipeline_controller.go:281-295 | a new version of the resource that does not reach the Localization |
| PropagationRuns.WrittenFromOpens | controllers/productdeploymentpipeline_controller.go:212-236 | over any sequence of specs, the one last written is the first of the last stretch without localization in which the names of resource, rules and ConfigMap stay the same |
| PropagationRuns.ConfigurationFollows | controllers/productdeploymentpipeline_controller.go:155-245 | over any sequence of specs the Configuration is what that spec asks for; so it is what the current one asks for if and only if there is a localization, or component version, resource and rules are the same as then |
| PropagationRuns.ConfigurationStale | controllers/productdeploymentpipeline_controller.go:212-236 | a new version of resource and rules that does not reach the Configuration |
| PropagationRuns.ReconciledExact | controllers/productdeploymentpipeline_controller.go:155-245 | runs on many pipelines, in any order: one crashes if and only if a pipeline is trapped to begin with; otherwise every Configuration visited is the wanted one if and only if it was before or one of three names differs, and all others stay |
| PropagationRuns.Propagates | controllers/productdeployment_controller.go:211-252 | after a deployment run with new values and a run on each pipeline with rules: the new ConfigMap holds the values, every pipeline that did not refer to it before is its entry field by field, every stored Configuration names it and the wanted rules, and is the wanted one in full if it did not name it before; no nil access unless a pipeline is trapped |
| PropagationRuns.ConfigurationsLive | controllers/productdeploymentpipeline_controller.go:185-236 | after any history of successful deployment runs, a run on each pipeline leaves every Configuration naming the one live ConfigMap |
| Targets.List | controllers/select_target.go:59-81 | the targets of the namespace that the selector matches, and no other |
| Targets.SearchForTargetsInNamespace | controllers/select_target.go:59-81 | fails if and only if the list does or some requirement has values where its operator takes none, or none where it takes some; otherwise returns the targets of the namespace that the selector matches, and no other |
| Targets.RequirementExact | controllers/select_target.go:65-77 | having one of the values is matching one of them as a label, and each operator is the negation of its opposite, also without a label |
| Targets.SelectsExact | controllers/select_target.go:65-77 | a selector selects if the labels have all its pairs and every requirement selects |
| Targets.SelectTarget | controllers/select_target.go:21-57 | finds a target if and only if there is a fit one: of the role's kind and labels, from the namespace, or from the system namespace when nothing in the namespace has the labels |
| Targets.FitExact | controllers/select_target.go:21-57 | a fit target is in the namespace, or in the system namespace when nothing in the namespace is selected |
| Pipeline.ReconcilePipeline | controllers/productdeploymentpipeline_controller.go:61-153 | the status after a run; a run that succeeds with a snapshot leaves Ready=True and the reference to that snapshot |
| Pipeline.GetTarget | pkg/deployers/kubernetes/kubernetes.go:49-55 | the target of that name and namespace, or none if there is none |
| Pipeline.Cluster.Deploy | pkg/deployers/kubernetes/kubernetes.go:44-130 | succeeds exactly when the target can be deployed to, and then makes the FluxDeployer, unless one exists, from the single owner of the snapshot and the namespace and secret of the access; it needs a snapshot reference |
| Pipeline.Cluster.ScheduleReconcile | controllers/productdeploymentpipeline_scheduler.go:54-136 | goes on only with a ready snapshot, picks a fit target, runs Deploy on it, says Deployed=True if and only if that succeeded, and leaves the FluxDeployer that Deploy makes |
| PipelineExact.ReconcileExact | controllers/productdeploymentpipeline_controller.go:61-153 | what becomes of each condition and reference in a run of the reconciler |
| PipelineExact.ScheduleExact | controllers/productdeploymentpipeline_scheduler.go:100-133 | what becomes of each condition and reference in a run of the scheduler |
| PipelineExact.DeployExact | pkg/deployers/kubernetes/kubernetes.go:44-130 | a deployment succeeds if and only if the target is found and can be deployed to, which for a Kubernetes target takes an access that parses and a snapshot with one owner |
| PipelineRuns.HistoryKeeps | controllers/productdeploymentpipeline_scheduler.go:68-133 | every interleaving of the two controllers, with stale reads and lost patches, keeps the invariant |
| PipelineRuns.TwoControllersSafe | controllers/productdeploymentpipeline_scheduler.go:68-133 | in every interleaving: SnapshotRef and SelectedTargetRef never return to nil, Deployed=True implies both, Ready=True implies the first, and Deploy never runs without SnapshotRef |
| PipelineRuns.DeployedBacked | controllers/productdeploymentpipeline_scheduler.go:118-133 | in every interleaving: Deployed=True means that a deployment succeeded; the FluxDeployer is in the cluster if and only if one went to a Kubernetes target, and it takes the one owner of the snapshot that the first of those met to the namespace of its access, with the secret of the access if there is one |
| PipelineRuns.CommitExact | controllers/productdeploymentpipeline_scheduler.go:118-133 | committing a run that read an old version leaves Deployed=True about the selected target if and only if it does not put one run's Deployed beside another run's target |
| PipelineRuns.SelectedTargetDeployed | controllers/productdeploymentpipeline_scheduler.go:118-133 | in every interleaving Deployed=True is about the selected target all the time if and only if no commit mixes two runs of the scheduler |
| PipelineRuns.CurrentRunsHonest | controllers/productdeploymentpipeline_scheduler.go:118-133 | in every interleaving in which each run that changes the selected target or Deployed commits onto the values it read of both, Deployed=True is about the selected target all the time |
| PipelineRuns.FailureFirst | controllers/productdeploymentpipeline_scheduler.go:118-133 | four steps to a pipeline on which deploying to its target failed |
| PipelineRuns.MixedRuns | controllers/productdeploymentpipeline_scheduler.go:118-133 | one more run and its commit, then a run that still reads the version before: Deployed=True beside a target where nothing was deployed |
| SemVer.PrecedenceTotal | controllers/productdeploymentgenerator_controller.go:771-775 | of two versions exactly one is below the other, or they are the same but for build metadata |
| SemVer.PrecedenceTransitive | controllers/productdeploymentgenerator_controller.go:771-775 | the precedence order is transitive |
| SemVer.SeqsTransitive | controllers/productdeploymentgenerator_controller.go:771-775 | lexicographic comparison by any total order is transitive |
| SemVer.PrecedenceExact | controllers/productdeploymentgenerator_controller.go:771-775 | the comparison is the order of section 11 of Semantic Versioning 2.0.0: major, minor, patch, then a pre-release below none, and identifiers by their first difference, numbers below texts |
| Product.FirstRoleAt | controllers/productdeploymentgenerator_controller.go:584-595 | the first role of the name decides |
| Product.CreateProductPipeline | controllers/productdeploymentgenerator_controller.go:571-622 | a pipeline with its role, or unschedulable, or failed, decided in that order, with its schema file if it names one |
| Product.AddPipeline | controllers/productdeploymentgenerator_controller.go:468-487 | the pipeline joins the list, and its schema file, if it names one, the files that are unified; all files stay usable |
| Product.CreatePipelines | controllers/productdeploymentgenerator_controller.go:467-488 | the first pipeline with an error decides; else all pipelines in order, and the schema files of those that have one |
| Product.UnifySchemas | controllers/productdeploymentgenerator_controller.go:490-505 | at least one schema is required; a single file is used itself, several are unified into a new one |
| Product.Configure | controllers/productdeploymentgenerator_controller.go:512-536 | without an existing configuration the configuration is the schema's own object; with one it is a new object and the schema is untouched |
| Product.WriteProduct | controllers/productdeploymentgenerator_controller.go:538-561 | config.cue is written if and only if the configuration is valid, formats and can be written; it is there already when the README cannot be written or the schema turns out not to format, also when both are one object |
| Product.CreateProductDeployment | controllers/productdeploymentgenerator_controller.go:434-567 | the product, or the error, for every description, library and existing file; the schema file returned formats to the stored schema |
| Product.UnschedulableExact | controllers/productdeploymentgenerator_controller.go:571-595 | unschedulable if and only if some pipeline has no role to be scheduled by and all pipelines before it are good |
| Product.RolesResolved | controllers/productdeploymentgenerator_controller.go:584-621 | each pipeline has its description's name and the first role of the name it asks for |
| ProductExact.SchemasConcat | controllers/productdeploymentgenerator_controller.go:467-488 | the schemas come in the order of the pipelines; `SchemasOne` says what one pipeline contributes |
| ProductExact.ProductMade | controllers/productdeploymentgenerator_controller.go:434-567 | a product comes out if and only if every pipeline has a role and a readable schema, and the schemas unify, the configuration can be made, validated, formatted and written, and the schema formatted; it holds exactly these pipelines, this configuration and this schema |
| Product.StoredSchema | controllers/productdeploymentgenerator_controller.go:512-561 | with no configuration yet, stored schema and written configuration are equal to the byte; with one, the stored schema is the unmodified schema |
| Product.SchemaLost | controllers/productdeploymentgenerator_controller.go:512-561 | a schema of one private field that is stored as no schema at all |
| Product.ProductCrash | controllers/productdeploymentgenerator_controller.go:512-518 | the generator crashes on a product if and only if it is the first one and its evaluated schema does not survive one sweep |
| Product.FirstProductFiltered | controllers/productdeploymentgenerator_controller.go:512-561 | whenever the sweep is the filter, both files of a first product hold the evaluated schema without its private fields |
| Generator.Generator.ShouldRun | controllers/productdeploymentgenerator_controller.go:743-778 | goes on if and only if the subscription is ready and its version is above the recorded one in the order of the standard, or none is recorded; an error exactly when a version cannot be parsed; and the Ready condition it leaves in each case |
| Generator.Generator.CreateSync | controllers/productdeploymentgenerator_controller.go:325-432 | the Sync is made once, after the product, with the version as annotation; no product, no Sync |
| Generator.Generator.CreateValidation | controllers/productdeploymentgenerator_controller.go:281-315 | a Validation that exists is left alone |
| Generator.Generator.Generate | controllers/productdeploymentgenerator_controller.go:265-322 | Sync, then Validation, then the record, each only after the one before it succeeded |
| Generator.Generator.Reconcile | controllers/productdeploymentgenerator_controller.go:137-323 | the whole run and how it returns; a subscription that is not ready ends it with Ready=True |
| GeneratorExact.SyncsExact | controllers/productdeploymentgenerator_controller.go:325-432 | the one Sync a run may make, its name, version and snapshot; none that exists is touched |
| GeneratorExact.ValidationsExact | controllers/productdeploymentgenerator_controller.go:281-315 | the one Validation a run may make, its name, version, schema and reference; none that exists is touched |
| GeneratorExact.RecordExact | controllers/productdeploymentgenerator_controller.go:137-323 | when the version is recorded, and when Ready is True or False |
| GeneratorExact.ReturnExact | controllers/productdeploymentgenerator_controller.go:137-379 | when a run ends without an error, panics, or asks for another run |
| GeneratorRuns.VersionMonotone | controllers/productdeploymentgenerator_controller.go:743-778 | over every history with lost patches the recorded version is empty or parseable, and only ever replaced by one above it in the order of the standard |
| GeneratorRuns.NeverGoesBack | controllers/productdeploymentgenerator_controller.go:319 | a version once superseded is never recorded again |
| GeneratorRuns.HistoryKeepsSound | controllers/productdeploymentgenerator_controller.go:265-322 | the invariant that ties Validations, Syncs and the record together, over every history |
| GeneratorRuns.ReferenceIntegrity | controllers/productdeploymentgenerator_controller.go:265-322 | if the short hash tells the versions seen apart: each Validation points to a Sync of its own version, no version has two of either, the recorded version has both, even after lost status updates |
| GeneratorRuns.CollisionExact | controllers/productdeploymentgenerator_controller.go:736-741 | a run that records a version leaves it with a Sync and a Validation of its own if and only if no Sync of another version has its short hash |
| GeneratorRuns.VersionsCollide | controllers/productdeploymentgenerator_controller.go:736-741 | two versions with one short hash, the second recorded without a Sync of its own |
| GeneratorRuns.UnresolvedRoleStops | controllers/productdeploymentgenerator_controller.go:347-359 | a pipeline without a resolvable target role, whatever else is wrong: neither object is made and nothing is recorded; no retry is asked for if and only if such a pipeline comes before all others that fail |
| GeneratorRuns.RetriesAddNothing | controllers/productdeploymentgenerator_controller.go:380-431 | once a version has its objects, no number of runs on it, failed or lost, adds or changes one |
| GeneratorRuns.RecordedIsSettled | controllers/productdeploymentgenerator_controller.go:743-778 | runs on versions not above the recorded one change no object and not the record |
| GeneratorRuns.ReadyExact | controllers/productdeploymentgenerator_controller.go:184-192 | Ready=True after a run means that the subscription is ready and the recorded version not below its applied one, if and only if the subscription was not found to be not ready and the run did not panic on the product of an object that said Ready=True |
| GeneratorRuns.ReadyVouches | controllers/productdeploymentgenerator_controller.go:137-192 | over every history with lost patches: Ready=True means this of what the last committed run met if and only if that run met a ready subscription and did not panic |
| GeneratorRuns.SincereExact | controllers/productdeploymentgenerator_controller.go:137-192 | Ready=True means this in every state of a history if and only if no committed run of it misleads |
| GeneratorRuns.NotReadyReported | controllers/productdeploymentgenerator_controller.go:188-192 | a subscription that is not ready, and a first run that ends with Ready=True |
| GeneratorRuns.PanicKeepsReady | controllers/productdeploymentgenerator_controller.go:512-518 | a newer version whose product panics while Ready stays True |
| Inventory.SplitJoin | controllers/fetch_git_repository_from_project.go:14-23 | splitting undoes joining if and only if no part contains an underscore |
| Inventory.JoinSplit | controllers/fetch_git_repository_from_project.go:22-23 | joining always undoes splitting |
| Inventory.IdExact | controllers/fetch_git_repository_from_project.go:14 | an ID is namespace, name, group and kind with underscores in between |
| Inventory.FetchGitRepository | controllers/fetch_git_repository_from_project.go:13-40 | on any IDs it succeeds if and only if some ID is a named GitRepository and no ID before it is one or has fewer than two parts |
| Inventory.FindsFirst | controllers/fetch_git_repository_from_project.go:13-40 | for entries of underscore-free parts and non-empty names, the namespace and name of the first GitRepository come back |
| Inventory.FailsExactly | controllers/fetch_git_repository_from_project.go:35-37 | for such entries it fails if and only if there is no GitRepository |
| Inventory.OneEntryExact | controllers/fetch_git_repository_from_project.go:14-33 | for one GitRepository entry with any parts, what was joined comes back if and only if namespace and name are free of underscores and there is a name |
| TargetConditions.Target.Work | controllers/target_controller.go:115-179 | the conditions, the requeue interval and the service accounts at each of the six ends of a run |
| TargetConditions.Target.SetStatus | controllers/target_controller.go:181-224 | the last touch to the conditions; an event is sent exactly when Ready turned true or stopped being so, and the Ready condition it is made from is never absent |
| TargetConditions.Target.Reconcile | controllers/target_controller.go:80-179 | the conditions and the observed generation that the final patch carries, and the accounts |
| TargetConditions.EndExact | controllers/target_controller.go:115-179 | when a run ends in which way; it succeeds if and only if the access can be read, the namespace is there, and the account, if one is asked for, finds the secrets that are selected and is right or can be written |
| TargetConditions.HeldExact | controllers/target_controller.go:226-271 | which account a run changes, and to which secrets |
| TargetConditions.ConditionsExact | controllers/target_controller.go:181-224 | when the final patch says Stalled, Reconciling or not Ready, and which generation it records |
| TargetConditions.LostPatch | controllers/target_controller.go:80-134 | what a run leaves whose last patch is lost |
| TargetConditions.EqualSlices | controllers/target_controller.go:284-295 | true if and only if both lists have the same names in the same order |
| TargetConditions.Accounts.ReconcileServiceAccount | controllers/target_controller.go:226-271 | the account's pull secrets become those found, or none without a selector; an account that is right is not written; an error changes nothing |
| TargetConditions.HistoryKeeps | controllers/target_controller.go:80-224 | over every history Stalled excludes Ready and Reconciling, and the observed generation is not in the future |
| TargetConditions.ConditionsVouch | controllers/target_controller.go:80-224 | over every history with lost patches: Stalled=True if and only if the last run that wrote met an unreadable access; with intervals above zero, Ready=True without Reconciling if and only if that run succeeded on the observed generation |
| TargetConditions.ReadyServed | controllers/target_controller.go:159-271 | over every history with lost patches and intervals above zero: a target with Ready=True without Reconciling has an account with exactly the secrets that the last successful run found, which with no patch lost is the run that made it ready |
| TargetConditions.ZeroIntervalMisleads | controllers/target_controller.go:122-201 | a zero interval and a missing access: the run panics, yet the target is reported ready |

## Left out

- The CUE library (parsing, formatting, evaluation, constraints, disjunctions, references, YAML): `cue_file.dfy` takes it as functions, and the merge model uses trees of labelled fields with leaves that may have a default.
- Structs as disjunction defaults, and schemas whose parent path has four labels or more, where slices with spare capacity may share their backing array.
- A lookup that finds nothing is taken to iterate as a struct without fields (internal/cue/cue_test.go:361); whether the fields of a leaf can be listed is a parameter, since the library is not part of this model; a selector is its label; the variadic parents of `Merge` are not used by any caller.
- The comments of CUE files, the README generated from them and its header shifting.
- The Kubernetes client, caches, field indexes, watches, RBAC and event recording; objects are entries of maps from names, and listings may come in any order.
- The condition helpers of Flux and ocm-controller are not part of this model beyond their assumed effect: ProgressiveStatus sets Reconciling, removes Stalled and sets an absent Ready to Unknown; MarkReady and MarkNotReady end Reconciling; UpdateStatus records the generation of a ready object.
- Download, unpacking, temporary folders, snapshots, the OCM registry and Git providers: each is a success or a failure in the `Sights` of a run.
- SHA-1: any function; freedom from collisions is a stated condition where a law needs it.
- Jitter of requeue intervals, and the randomness of target choice (any draw is covered).
- PipelineRuns.TwoControllersSafe: a run's patch is one step, although the library sends conditions and the rest of the status separately.
- Pipeline.ReconcilePipeline: the provider is absent when a pipeline has neither localization nor configuration; in Go it is then an interface that holds a nil pointer, so the check for it does not catch it and reading it panics.
- Pipeline.Cluster.Deploy: an existing FluxDeployer is never updated, as in the code; the next deployer of the chain only accepts or refuses.
- Validation.Reconciler.Reconcile: reads the latest committed status; stale caches are covered only for the two pipeline controllers.
- Generator.Generator.Reconcile: reads the latest committed status, takes the component's version to be the subscription's last applied version, and leaves out the snapshot name and digest it keeps in its status.
- GeneratorRuns.ReferenceIntegrity: nobody deletes Syncs or Validations, and all are made by this generator.
- DeploymentRuns.OneLiveConfigMap: for histories in which every run succeeds and no pipeline name is dropped; `CleanUpDecides` and `FailedCleanUpSticks` say what failures do. Pipelines dropped from the spec are never deleted by the code, so they keep the map they had.
- Deployment.Reconciler.Reconcile: conditions of the ProductDeployment itself, and the run on an empty object after an error of the first read other than not found; a new ConfigMap counts as owned by its label, since the owner reference is set only in memory after the object was created.
- Targets.SearchForTargetsInNamespace: the syntax of label keys and values, which also makes a selector invalid.
- Deployment.Reconciler.GenerateConfigMap: the map is found by its owner label in the listing, in one namespace.
- A definition such as `#SchemaVersion` is a root field like any other, which assumes that the option `cue.Hidden(false)` (internal/cue/cue.go:26-30) does not leave definitions out when fields are listed.
- SchemaMerge.EchoExact: schemas of up to three levels; for deeper ones `NoEchoSucceeds` gives one direction.
- TargetConditions.Target.Reconcile: messages and reasons of conditions.
- TargetConditions.ReadyServed: nobody else edits the service accounts.
- Product.StoredSchema: with a configuration in the repository the merge is the function `complete` of the library; `SchemaMerge` models it on its own, with values instead of syntax trees.
- The ComponentVersion object of a deployment, the header of requests to Git providers, the subscription predicate, `main.go`, getters and generated copies: not modelled.
