# Workflow automation, verified

A Dafny model of the workflow automation engine of Corteza and of four smaller parts beside it,
with proofs of what they promise over all inputs and over whole runs.

- **Conversion.** A workflow definition (steps and paths) becomes an execution graph in repeated
  passes; a join waits for its parents, inclusive and exclusive gateways for their children, an
  iterator for its two children, an error handler with two paths for the second child.
  `Resolution` says what a pass computes and, without reference to any order, when a definition is
  *acceptable*; `Converter` holds the loops; `ResolutionProofs`, `GraphProperties` and `AnyOrder` the
  theorems. `StepMeaning` says what definitions mean without any of this, and that graphs do that.
- **Expressions and parameters.** `Expressions` evaluates a set of expressions over any language
  (`Lang`); `Params` holds the checks made at conversion time and what they guarantee at run time;
  `Denotation` says what each output variable is; `Composition`, `ArgumentTypes` and `Defaults` hold
  the exact conditions of composition, of the argument checks and of defaults.
- **Workflow cache and triggers.** `WorkflowCache` and `Triggers` are transition systems with every
  failure point as part of the event; `ChangeMeaning` says field by field what changes do; `WorkflowService` and `TriggerService` are the classes whose
  methods take their steps; `TriggerRuns` is about runs of entry points, one after another and
  interleaved.
- **Sessions.** `Sessions` models the pool, the flush policy, prompts and nested calls,
  `SessionReports` what a session says about itself, `SessionEnds` what the store learns about its end,
  `SessionService` the handlers.
- **Records.** `Records` says what pages of a table are; `RecordReaders` holds the two buffered
  readers that produce and consume them.
- **Authorization.** `Consent` is the authorization code flow of section 4.1 of RFC 6749 as steps
  over the session, `AuthSession` its setters and handlers, `Subjects` the packed subject.
- **Sequence loop.** `SequenceLoop` counts in 64-bit arithmetic that wraps around.

Where the source changes state in place the model has classes and loops; every such method is
proved equal to a step of a function, and the theorems are about runs of these steps. `dafny verify
dfyconfig.toml` checks everything.

## Where the code differs from what one expects

- A step with ID zero is never indexed (pkg/wfexec/graph.go:31-33), so every pass adds it once more
  and the passes may stop too early (`ZeroIDBreaksOrderIndependence`). `EveryOrderIff` says exactly
  which definitions become a graph in every order of their steps.
- The argument check reads the first argument of a target, evaluation keeps the last
  (`RepeatedTargetIsUnsound`, and `SoundIffLastCompatible` for when it is sound nevertheless).
- An expression without a type of its own takes the type of earlier output, so evaluating two sets
  at once may differ from evaluating one after the other (`CompositionNeedsTypes`,
  `ComposesIffOblivious`).
- An evaluator may return a value together with its error; with a default value on the expression,
  evaluation goes on with the evaluator's value, not with the default (`DefaultIsIgnored`,
  `FailedActsAsDefaultIff`).
- The row of an update is written outside the transaction (automation/service/workflow.go:349), so
  failing labels or a failing commit do not take it back (`FailedUpdateIsStored`, `FailureWritesIff`).
  The cache is updated before the row is written (`TornRenameDisagrees`, `TornIsCoherentIff`).
- A handle of the bus is the address of a handler, so a later handler can get the address of a
  removed one. Calls one after another never leave a stale record and are exact all the same
  (`SerialRunsAreExact`). Two registrations of one workflow at the same time can leave one, and then
  a later registration of that workflow removes a handler of another one when it unregisters
  (`ConcurrentCallsRemoveForeignHandler`). `InterleavedRunsAreExactIff` says exactly when; the
  registered workflow itself comes out right in any case.
- Updating or deleting a trigger never reaches the bus (automation/service/trigger.go:265-306)
  (`DisabledTriggerStaysLive`): `BusAgreesWithStoreIff` and `EditKeepsAgreementIff` say when bus and
  store agree. A new trigger whose transaction fails in the end stays on the bus without a row
  (`UncommittedTriggerIsLive`).
- `unregisterTriggers` returns at the first trigger whose workflow has no entry (`UnregistersAllIff`).
  Nothing in the repository calls it, nor `updateTriggerRegistration`.
- A denied or rejected request does not take an approval back: the next request in the session is
  issued without one (`DenialKeepsApproval`, `ApprovalOutlivesRequestIff`, `IssuesOnlyIff`).
- A session that failed may be collected before its last report, which is then lost
  (`ReportAfterCollectionIsLost`, `EndIsHandedOverIff`).
- A call takes two entries of the call stack, the workflow and the session, so half as many nested
  calls start as the option says (`NestedCallBound`).
- With stack traces disabled, the flush of a traced session replaces its trace by nothing.
- The forward cursor is never nil (store/adapters/rdbms/dal/iterator.go:231-233), so the last
  non-empty page has a next-page cursor too, and the record iterator runs behind its buffer unless
  its limit stops it (`Each`, `LoneRecordPanics`); so it does when a later page fails
  (`BrokenRowPanics`). The drained list also stops at a full page without any passing record,
  though passing records may follow (`RejectedPageHidesRow`, `PagesAreComplete`).
- A Basic authorization header wins over a paused request and puts its own client into it
  (`HeaderOfOtherClient`, `HeaderDecides`).

## Model

| member | source | states |
|---|---|---|
| ResolutionProofs.GraphMeansAcceptable | automation/service/workflow_converter.go:42-156 | every graph returned comes from an acceptable definition: unique IDs, all non-visual steps verify and convert, all paths end at such steps, and some ranking puts every step above those it waits for |
| AnyOrder.GraphIffAcceptable | automation/service/workflow_converter.go:69-131 | the passes reach exactly the least fixpoint: unless a step with ID zero can stop them early, a definition becomes a graph if and only if it is acceptable |
| AnyOrder.GraphIffMeaningful | automation/service/workflow_converter.go:69-131 | the same, told from steps and paths alone: IDs differ, steps are proper for their kind, paths end at steps, and some ranking orders steps by what they wait for |
| StepMeaning.VerifiesIff | automation/service/workflow_converter.go:532-772 | a step verifies if and only if its reference, its numbers of arguments, results and paths, and its named arguments are as its kind wants them |
| StepMeaning.ConvertsIff | automation/service/workflow_converter.go:161-382 | conversion as such succeeds if and only if all expressions parse, the kind is known, gateways have two parsable branches to decide on, functions are registered for the kind and take arguments and results, and error handlers have one or two paths |
| StepMeaning.ParsedIff | automation/service/workflow_converter.go:509-530 | expressions are taken if and only if each is blank or parses, has a registered type, and its tests parse; only type and language change |
| StepMeaning.AwaitsIff | automation/service/workflow_converter.go:226-317 | a join waits for its parents, a deciding gateway for its children, an iterator for both its children, an error handler with two paths for the second child, and nothing else waits |
| StepMeaning.NodesDoWhatStepsSay | automation/service/workflow_converter.go:161-382 | every node does what its step says: a gateway is exclusive, inclusive, fork or join exactly by its reference, with its paths in order; functions and iterators are those registered, with their arguments and results; an error handler with two paths has the second child as handler |
| StepMeaning.GatewayDecides | pkg/wfexec/gateways.go:118-175 | whatever the tests say, an "excl" step continues with the first passing path of the definition that leaves it, and an "incl" step with all passing ones |
| StepMeaning.NodesComeAfterTheirNeeds | automation/service/workflow_converter.go:226-317 | in every graph a node comes after all nodes its join, branches, loop or handler refers to |
| ResolutionProofs.GraphIsFaithful | automation/service/workflow_converter.go:69-156 | the nodes are the non-visual steps, once each, each converted on its own; the links are the definition's paths in order |
| AnyOrder.OrderIndependence | automation/service/workflow_converter.go:78-127 | permuting the steps changes neither success nor the node set nor the links; steps with proper IDs are there once each |
| AnyOrder.EveryOrderIff | automation/service/workflow_converter.go:78-127 | for every definition: it becomes a graph in every order of its steps if and only if it is acceptable and either no step has ID zero, or no path touches ID zero and no step waits for one that waits itself |
| AnyOrder.ChainBlocks | automation/service/workflow_converter.go:78-127 | otherwise, with no path at ID zero, an order that is rejected is constructed: the passes stop with one step unresolved |
| ResolutionProofs.NothingMovesMeansDone | automation/service/workflow_converter.go:118-127 | when a pass adds nothing although the rest is rankable, every step was resolved already |
| ResolutionProofs.AllResolved | automation/service/workflow_converter.go:78-127 | an acceptable definition with proper IDs is resolved completely, each step once, and no pass reports an issue |
| ResolutionProofs.ResolveKeeps | automation/service/workflow_converter.go:78-127 | every node was converted when all it waits for was among the nodes before it |
| Resolution.AttemptMeaning | automation/service/workflow_converter.go:161-317 | one attempt succeeds exactly when everything awaited is resolved and the conversion as such succeeds; a failed attempt fails for good |
| Resolution.PathsAround | automation/service/workflow_converter.go:89-98 | inbound paths are those that end at the step, outbound those that start there and end elsewhere: a self-path is inbound only |
| GraphProperties.Arity | automation/service/workflow_converter.go:532-772 | in a graph an iterator has exactly two other children, termination, error, break and continue none, plain steps at most one, deciding gateways two or more |
| GraphProperties.RoutesAreChildren | pkg/wfexec/session.go:794-806 | whatever a gateway, iterator or error handler routes to is a resolved child of that step and a join expects exactly its parents, so the executor's check for inconsistent relationships never fires on them |
| GraphProperties.HandlersGetWellTypedInput | automation/service/workflow_converter.go:328-382 | from definition to handler: functions and iterators of a graph, with no argument assigned twice, only get input their parameters allow, for every language and scope |
| GraphProperties.OnePassIffListedInOrder | automation/service/workflow_converter.go:82-116 | a pass resolves all remaining steps if and only if each is listed behind those it waits for |
| GraphProperties.StepsExactlyOnce | pkg/wfexec/graph.go:28-44 | a graph has every step exactly once if and only if no step has ID zero or one pass was enough |
| GraphProperties.ZeroIDBreaksOrderIndependence | automation/service/workflow_converter.go:78-127 | four steps, one with ID zero, that are rejected in one order and accepted in another |
| Definitions.Graph.constructor | pkg/wfexec/graph.go:17-26 | a new graph has no steps and no links |
| Definitions.Graph.AddStep | pkg/wfexec/graph.go:28-40 | appends the step and keeps the index to exactly the non-zero IDs |
| Definitions.Graph.AddParent | pkg/wfexec/graph.go:50-53 | adds one link to both directions, in the order of the links |
| Converter.MakeGraph | automation/service/workflow_converter.go:42-156 | returns the graph of the definition or at least one issue, never both; issues are distinct; the loop ends |
| Converter.Convert | automation/service/workflow_converter.go:30-40 | entry point with the same promise, on values |
| Converter.RunPass | automation/service/workflow_converter.go:82-116 | a pass changes the graph as specified, reports progress if and only if it grew, and issues if and only if the pass was not clean |
| Converter.LinkSteps | automation/service/workflow_converter.go:129-149 | reports an issue unless there was none and all ends of paths are steps; otherwise the links are the paths |
| Converter.IndexIDs | automation/service/workflow_converter.go:50-66 | every ID leads to the first step that has it; an issue if and only if some ID repeats, and no issue twice |
| Converter.FilterSteps | automation/service/workflow_converter.go:69-76 | the non-visual steps in order |
| Converter.CollectPaths | automation/service/workflow_converter.go:89-98 | the inbound and outbound paths of a step |
| Converter.StepDefConv | automation/service/workflow_converter.go:161-224 | one attempt, adding exactly the converted step |
| Converter.ConvGateway | automation/service/workflow_converter.go:226-294 | the gateway part of an attempt |
| Converter.ConvFunctionStep | automation/service/workflow_converter.go:328-382 | the function and iterator part of an attempt, with both checks of parameters |
| Converter.ParseExpressions | automation/service/workflow_converter.go:509-530 | all expressions with language and type set, or none if one cannot be |
| Converter.Distinct | automation/types/workflow.go:210-225 | the first occurrence of each issue; empty only for no issues |
| Converter.FirstsKeepEveryIssueOnce | automation/types/workflow.go:210-225 | no issue is lost and none is there twice |
| Expressions.Eval | automation/types/expr.go:107-220 | the evaluation loop computes the output variables or the first failure |
| Denotation.OutputOfOneMore | automation/types/expr.go:125-217 | one more expression adds exactly the variable that the value it copies, selects, evaluates to or is becomes under its type; if that is nothing, or it yields none and has no default, the evaluation fails |
| Denotation.OutputIsWhatLastYields | automation/types/expr.go:125-217 | each output variable is what its last expression yields in input plus earlier output, under its type: the value itself if it has that type, and else its cast |
| Denotation.OneDenotesDeep | automation/types/expr.go:203-217 | a target inside of a variable is assigned to in the scope, and the whole variable is put out |
| Expressions.SequentialComposition | automation/types/expr.go:107-220 | evaluating a and then b at once is evaluating a, then b in the scope a leaves, and merging, failures included, if b takes no type from a variable that a assigned and b did not yet |
| Composition.ComposesIffOblivious | automation/types/expr.go:159-180 | for b with distinct targets the law holds for every language and scope if and only if no expression of b takes its type from output of a |
| Composition.RepeatedTargetsMayCompose | automation/types/expr.go:159-180 | distinct targets are needed for this: two sets that always compose although the second, which repeats targets, takes a type from the first |
| Defaults.FailedActsAsDefaultIff | automation/types/expr.go:132-157 | an expression that fails is evaluated as its default, whatever types and assignments make of it, if and only if its source is unknown, it has no evaluator, or the default itself came with the error |
| Defaults.DefaultIsIgnored | automation/types/expr.go:143-157 | an expression that fails with a default comes out as the nothing its evaluator answered |
| Expressions.CompositionNeedsTypes | automation/types/expr.go:163-176 | one pair of sets for which the law fails: the second reassigns a typed target without a type |
| Expressions.OutputDomain | automation/types/expr.go:198-217 | the variables of a successful evaluation are exactly the targets |
| Expressions.ScopeIsInputPlusOutput | automation/types/expr.go:107-220 | at every point the scope is the input overridden by the output so far |
| Expressions.EarlierOutputPassesThrough | automation/types/expr.go:107-220 | earlier output changes nothing but is passed on underneath |
| Params.GetByTarget | automation/types/expr.go:75-82 | the first expression with the target, or none |
| Params.HasType | automation/types/param.go:49-56 | whether the type is listed |
| Params.HasName | automation/types/param.go:58-65 | whether a parameter has the name |
| Params.VerifyArguments | automation/types/param.go:68-106 | no complaint if and only if all targets are declared, required ones are there and the first argument of each is compatible |
| Params.VerifyResults | automation/types/param.go:109-131 | no complaint if and only if all sources are declared and typed results match |
| Params.TypeSoundness | automation/types/param.go:68-106 | accepted arguments with distinct targets evaluate, for every language and scope, only to declared parameters, all required ones, each with an allowed type |
| ArgumentTypes.AcceptedIffSound | automation/types/param.go:68-106 | for arguments of known types with distinct targets the check is exactly right: it takes them if and only if they always evaluate to allowed input |
| Params.AcceptsArgumentsIff | automation/types/param.go:68-106 | accepted arguments, by position: declared targets, required ones given, the first of each declared with an allowed type or where any is allowed |
| Params.AcceptsResultsIff | automation/types/param.go:109-131 | accepted results, by position |
| Params.AcceptedNames | automation/types/param.go:68-106 | names and required parameters are right whether or not targets repeat |
| ArgumentTypes.SoundIffLastCompatible | automation/types/param.go:68-106 | accepted arguments, of any declared types, are sound if and only if the last argument of every parameter, or the assigned variable it copies, has an allowed type, or any type is allowed |
| ArgumentTypes.StaticHolds | automation/types/expr.go:125-217 | for every language and scope the output has the types that can be told from the expressions alone |
| ArgumentTypes.OpenGetType | automation/types/expr.go:125-217 | where the type cannot be told, some language and scope give it any type wanted |
| ArgumentTypes.RepeatedTargetIsUnsound | automation/types/param.go:80-103 | a text parameter given a text and then a number is accepted and gets the number |
| Params.OutputTypes | automation/types/expr.go:143-217 | the last expression of a target decides the type of the variable |
| Workflows.ValidateWorkflowTriggers | automation/service/trigger.go:684-718 | no issue if and only if a run-as user is set or no active trigger needs one |
| Workflows.NeedsRunAsIff | automation/service/trigger.go:690-697 | requests to a sink, messages of a queue and all timers need a run-as user, and nothing else |
| Workflows.FilterByWorkflowID | automation/types/trigger.go:136-147 | exactly the triggers of the workflow |
| Triggers.RunsNeverLeak | automation/service/trigger.go:518-640 | in every run of register and unregister calls each live handler is recorded under its own workflow and trigger and none has two, even when addresses are used again |
| Triggers.RegistrationIsExact | automation/service/trigger.go:416-513 | in every state without leaks: a successful registerWorkflows makes exactly the expected triggers of the given workflows live and leaves all other handlers alone, if and only if no record met on the way is the live handler of a workflow whose turn does not come later |
| Triggers.OneRegistrationIsExact | automation/service/trigger.go:428-448 | for one workflow its own live triggers are exact in any case, and other handlers are left alone if and only if none of its records is the live handler of another workflow |
| Triggers.SettledIsAliasFree | automation/service/trigger.go:416-513 | when every record is live for its own trigger or dead for good there is no such record, and it stays so |
| Triggers.NewTriggerIsExact | automation/service/trigger.go:188-243 | registering a new trigger adds exactly that trigger, if it is to be live, and touches no other workflow |
| TriggerRuns.SerialRunsAreExact | automation/service/trigger.go:188-451 | in every run of registrations, new triggers and edits one after another there is no stale record and the next registration is exact, even when addresses are used again |
| TriggerRuns.BusAgreesWithStoreIff | automation/service/trigger.go:188-451 | over runs of registrations, new triggers and edits: what is live of a workflow is what the store wanted at its last successful registration and what was created since, so bus and store agree if and only if that is what the store wants now |
| TriggerRuns.EditKeepsAgreementIff | automation/service/trigger.go:265-306 | an edit keeps bus and store in agreement if and only if the workflow cannot be registered anyway, or the trigger is as active and the workflow as free to be registered as before, or nothing was and is wanted |
| TriggerRuns.DisabledTriggerStaysLive | automation/service/trigger.go:265-306 | create, register, disable: the handler is still live |
| TriggerRuns.UncommittedTriggerIsLive | automation/service/trigger.go:188-243 | a new trigger whose transaction fails at the end is live without a row |
| TriggerRuns.BodiesAreRegistration | automation/service/trigger.go:428-448 | the lock-held parts of a registration, run without interruption, are the registration |
| TriggerRuns.InterleavedRunsAreExactIff | automation/service/trigger.go:416-513 | after any interleaving of lock-held parts, with addresses used again: the same two equivalences, without any condition on the registry |
| Triggers.UniqueHandlesAreNeverAliased | automation/service/trigger.go:414-640 | addresses that are never used again are never aliased, after every interleaving of lock-held parts |
| Triggers.PartLeavesOthersIff | automation/service/trigger.go:544-623 | each lock-held part, registering or unregistering, leaves the handlers of all other workflows alone if and only if no record it meets is the live handler of one of them |
| TriggerRuns.ConcurrentCallsRemoveForeignHandler | automation/service/trigger.go:428-448 | with addresses used again: two interleaved registrations of a workflow, before and after its trigger is deleted, leave a stale record, by which a later registration removes a live handler of another workflow |
| Triggers.UnregisterTriggersExact | automation/service/trigger.go:625-640 | exactly the handlers of the triggers before the first unknown workflow are removed; records stay |
| Triggers.UnregistersAllIff | automation/service/trigger.go:625-640 | all given triggers are gone if and only if those behind that point were not live or occur before it |
| Triggers.UnregisterWorkflowExact | automation/service/trigger.go:610-623 | no handler of the workflow stays; those of others stay if and only if no record of the workflow is the live handler of one of them |
| Triggers.RegisterTriggersExact | automation/service/trigger.go:546-607 | triggers not recorded yet become live exactly when they are active and the workflow is registrable |
| TriggerService.LiveAreStoredActive | automation/service/trigger.go:416-451 | bus and store agree after a successful registration without aliases, and after that of a single workflow always: its live triggers are its enabled, undeleted stored triggers, or none if it cannot be registered |
| TriggerService.RegistrationFailsIff | automation/service/trigger.go:466-511 | registering workflows fails if and only if one of those to be registered has a run-as user that is not valid |
| TriggerService.CreationFailsIff | automation/service/trigger.go:466-511 | registering a new trigger fails if and only if it belongs to another workflow or the run-as user is not valid |
| TriggerService.Search | automation/service/trigger.go:418-426 | the enabled triggers of the given workflows, deleted ones included |
| TriggerService.Service.RegisterWorkflows | automation/service/trigger.go:416-451 | takes the specified step over the stored triggers and reports the same failure |
| TriggerService.Service.RegisterWorkflow | automation/service/trigger.go:466-513 | takes the specified step: options, foreign triggers, validation, run-as user, in that order |
| TriggerService.Service.RegisterTriggers | automation/service/trigger.go:518-608 | takes the specified steps, trigger by trigger |
| TriggerService.Service.RegisterOne | automation/service/trigger.go:546-600 | replaces registry entry and handler of one trigger |
| TriggerService.Service.UnregisterWorkflow | automation/service/trigger.go:610-623 | removes all recorded handlers in any order, then the entry |
| TriggerService.Service.UnregisterTriggers | automation/service/trigger.go:625-640 | takes the specified steps up to the early return |
| TriggerService.Service.RegisterHandler | pkg/eventbus/eventbus.go:133-144 | adds one handler under the handle given out |
| TriggerService.Service.Unregister | pkg/eventbus/eventbus.go:147-154 | removes that handler only |
| WorkflowCache.CacheIsCoherent | automation/service/workflow.go:194-259 | over every run of loads, creates, updates, deletes and undeletes, failing anywhere, a workflow whose last load or change got through is cached if and only if its row is enabled and undeleted, with that row; every cached graph is the conversion of the cached definition |
| ChangeMeaning.CachedIffInUse | automation/service/workflow.go:519-530 | the same, field by field: a settled workflow is cached if and only if its row is enabled and not deleted, with that row and its own graph |
| ChangeMeaning.Created | automation/service/workflow.go:208-250 | a committed create stores the row as requested, and caches it if it is enabled |
| ChangeMeaning.Updated | automation/service/workflow.go:370-461 | a committed update stores requested values and keeps the others, dated if anything but labels differs, and caches the row if it is in use |
| ChangeMeaning.Deleted | automation/service/workflow.go:463-475 | a committed delete sets the mark, keeps all else, and takes the workflow out of the cache |
| ChangeMeaning.Undeleted | automation/service/workflow.go:477-489 | a committed undelete clears the mark, keeps all else, and caches the workflow if it is enabled |
| ChangeMeaning.CommittedIff | automation/service/workflow.go:309-361 | exactly when a change gets through, stage by stage; otherwise the store stays as it was |
| WorkflowCache.ExecutesOwnGraph | automation/service/workflow.go:532-560 | a cached workflow without issues is executable and has the graph of its own definition, whatever failed before |
| WorkflowCache.SaveKeeps | automation/service/workflow.go:309-364 | one change settles its own workflow if it commits, changes nothing if rejected, and never unsettles another |
| WorkflowCache.TornIsCoherentIff | automation/service/workflow.go:336-358 | after a change that failed behind the cache update, cache and store agree if and only if nothing had to be written or neither the stored nor the requested row is enabled and undeleted |
| WorkflowCache.TornRenameDisagrees | automation/service/workflow.go:336-358 | renaming an active workflow while the store fails leaves the new name in the cache and the old one in the store |
| WorkflowCache.LoadKeeps | automation/service/workflow.go:491-516 | loading settles every row that validates and unsettles none |
| WorkflowService.HandleUpdate | automation/service/workflow.go:370-461 | the field-by-field edit is the requested row, dated and flagged if and only if something but labels changed |
| WorkflowService.EditNames | automation/service/workflow.go:388-403 | handle, switch and labels of the edit, with a flag for each kind of change |
| WorkflowService.EditTracing | automation/service/workflow.go:405-413 | trace and session keeping of the edit, with the flag |
| WorkflowService.EditDefinition | automation/service/workflow.go:415-441 | meta, scope, steps and paths are replaced only where requested |
| WorkflowService.EditUsers | automation/service/workflow.go:443-453 | run-as user and owner of the edit |
| WorkflowService.Handle | automation/service/workflow.go:463-489 | update, delete and undelete; repeating a delete or an undelete changes nothing |
| WorkflowService.ValidateWorkflow | automation/service/workflow.go:636-674 | no issue if and only if there is a graph, the triggers are clean and the run-as user is valid; fails exactly when triggers or user cannot be found |
| WorkflowService.Service.UpdateCache | automation/service/workflow.go:519-530 | caches executable workflows with their graph and removes all others |
| WorkflowService.Service.Create | automation/service/workflow.go:194-259 | takes the step of a create; success if and only if committed |
| WorkflowService.Service.Updater | automation/service/workflow.go:309-364 | takes the step of a change on the stored row; success is reported if and only if it got through, new labels were stored and the transaction committed |
| WorkflowService.Service.Finish | automation/service/workflow.go:340-358 | the same for everything behind validation: cache, triggers, row and labels |
| WorkflowService.Service.Persist | automation/service/workflow.go:348-358 | the row is written outside the transaction, the labels inside |
| WorkflowCache.FailureWritesIff | automation/service/workflow.go:348-361 | a change reported as failed has changed the stored workflow if and only if it got through to the store with something to write that differs, and only labels or the commit failed |
| WorkflowCache.FailedUpdateIsStored | automation/service/workflow.go:348-358 | an update reported as failed because of its labels whose new handle is stored |
| WorkflowService.Service.LoadOne | automation/service/workflow.go:505-513 | caches one row if it validates |
| WorkflowService.Service.Load | automation/service/workflow.go:491-516 | takes the step of a load; each handle leads to the last loaded row that has it and other handles lead where they did |
| Sessions.FlushLag | automation/service/session.go:476-493 | in every run less than 1000 frames are ahead of the last store attempt, both counts are in the same block, and the trace handed over is a prefix of the runtime trace |
| Sessions.LifecycleOverRuns | automation/service/session.go:443-474 | in every run status and times agree and no prompt is sent twice |
| SessionReports.StatusIsLastReport | automation/service/session.go:441-483 | over runs: a session has the status, times and error that its last pause, last end and last failure gave it, Started before any, and was last handed over with the same |
| SessionReports.HandedOverIff | automation/service/session.go:480-493 | a report hands its session over if and only if it is other than Active or makes the frames a multiple of 1000 |
| SessionReports.SentIff | automation/service/session.go:446-463 | a prompt is sent exactly when its pooled session reports to be at a prompt, if it is not sent yet |
| SessionReports.PromptsAreSent | automation/service/session.go:446-463 | over runs: pending prompts were sent once if marked and else not, and all are after such a report |
| SessionReports.CollectedIff | automation/service/session.go:363-372 | collection removes exactly the sessions that ended or were given up |
| SessionReports.NoTraceWithoutError | automation/types/session.go:186-194 | over runs: without a requested trace and without an error no trace is handed over |
| SessionReports.TraceWithError | automation/types/session.go:186-194 | a session that fails with an error is handed over with all its frames, traced or not |
| Sessions.OverIsForever | automation/service/session.go:458-474 | a completion time is never cleared |
| SessionEnds.EndIsHandedOverIff | automation/service/session.go:363-372 | over runs: the end of a session is handed to the store, and stored if final reports are accepted, if and only if some final report comes before any collection that follows its giving up |
| SessionEnds.LeavesOnlyWhenOver | automation/types/session.go:137-142 | over runs: a session that left the pool without being given up was handed over completed, with every frame up to the report that ended it |
| SessionEnds.StoreKnowsEveryStatus | automation/service/session.go:441-493 | over runs: the last attempt to store a session carries its present status, times and error, or it has just started |
| SessionEnds.TraceKeptIffEnabled | automation/types/session.go:156-194 | over runs: whenever a session spawned with a trace is handed over, its trace is all its frames if stack traces are enabled and gone if not |
| Sessions.ReportAfterCollectionIsLost | automation/service/session.go:363-372 | a run in which a failed session is collected before its report and nothing is stored |
| Sessions.NestedCallBound | automation/service/session.go:187-191 | of any chain of workflows starting workflows exactly the first limit/2 + 1 start, each call stack has at most limit + 1 entries and ends in its own workflow |
| SessionService.Service.Spawn | automation/service/session.go:272-296 | adds a started session with tracing and stack traces as requested |
| SessionService.Service.StateChangeHandler | automation/service/session.go:410-495 | takes the step of a report, flush included |
| SessionService.Service.Flush | automation/service/session.go:481-493 | hands the session over with its trace copied, stored if accepted |
| SessionService.Service.SendUnsent | automation/service/session.go:445-452 | sends and marks exactly the unsent prompts of the session |
| SessionService.MarkAndSend | pkg/wfexec/session.go:300-314 | each unsent prompt once, in any order |
| SessionService.Service.Gc | automation/service/session.go:363-372 | removes exactly the sessions that are over |
| Records.DrainReturnsScannedPassing | compose/dalutils/records.go:130-241 | a successful drain returns exactly the scanned records that pass, in scan order, in a number of rounds bounded by the limit |
| Records.PageSize | compose/dalutils/records.go:203-218 | a page exceeds its limit by less than one refetch: at most limit - 1 plus six fifths of max(limit - 1, 10) records |
| Records.PageWithoutLimit | compose/dalutils/records.go:161-202 | without a limit a page is everything that passes |
| Records.PageOfOneFetch | compose/dalutils/records.go:161-202 | a first fetch that is short, full or without passing rows is the page |
| Records.PageOfTwoFetches | compose/dalutils/records.go:195-217 | otherwise a second fetch asks for a fifth more rows than passed, at least twelve; if that is below the limit the two are the page, though it may be short with more rows behind |
| Records.EmptyPage | compose/dalutils/records.go:188-222 | a page is empty if and only if nothing passes in its first fetch |
| Records.PagesArePrefix | compose/dalutils/records.go:224-240 | the pages together are the passing records in ascending order, each once, up to a fetch in which nothing passes |
| Records.PagesAreComplete | compose/dalutils/records.go:161-217 | the pages from all cursors hold all passing records behind them if and only if behind no cursor a full page without passing records is followed by a passing one |
| Records.CompleteIffNotStopped | compose/dalutils/records.go:161-217 | the pages from one position are complete if and only if they do not end at such a place |
| Records.RejectedPageHidesRow | compose/dalutils/records.go:195-201 | a table of three whose only passing record is on no page |
| RecordReaders.DalIterator.Next | store/adapters/rdbms/dal/iterator.go:34-45 | opens the fetch on first use and then moves by one row until its end |
| RecordReaders.DalIterator.More | store/adapters/rdbms/dal/iterator.go:47-63 | closes the fetch and continues behind the given row |
| RecordReaders.DrainFetch | compose/dalutils/records.go:151-201 | one fetch: what passes, what was counted, and failure if and only if a row is broken |
| RecordReaders.DrainIterator | compose/dalutils/records.go:130-241 | the nested loops return the specified page and the cursor behind its last record |
| RecordReaders.RecordSetIterator.constructor | compose/automation/records_handler.go:169-241 | starts with the first page loaded |
| RecordReaders.RecordSetIterator.Load | compose/automation/records_handler.go:200-238 | moves to the next page, counting what was consumed, or does nothing if none follows |
| RecordReaders.RecordSetIterator.More | compose/automation/records_handler.go:380-382 | below the limit and either buffer left or a next page |
| RecordReaders.RecordSetIterator.Start | compose/automation/records_handler.go:384-384 | moves to the start of the buffer |
| RecordReaders.RecordSetIterator.Next | compose/automation/records_handler.go:386-400 | the next record with its index, across pages; reaches behind the buffer exactly when the cursor leads nowhere |
| RecordReaders.RecordSetIterator.Drive | compose/automation/records_handler.go:380-400 | a whole loop yields the flat list cut at the limit, each record once with indexes 0, 1, 2 and so on, and panics if and only if a dangling cursor is reached below the limit |
| RecordReaders.Each | compose/automation/records_handler.go:169-241 | both readers together, on any table: fails if and only if the first page does; otherwise the reached passing records, in order, cut at the limit, and exactly when the loop panics |
| Records.YieldsAllPassing | compose/automation/records_handler.go:208-241 | with pages of up to 1000, or up to the limit if that is less, that hide nothing, the loop yields all passing rows cut at the limit |
| Records.LoneRecordPanics | compose/automation/records_handler.go:386-400 | the loop over a single record yields it and panics |
| Records.BrokenRowPanics | compose/automation/records_handler.go:386-391 | a page that fails later comes after all records before it |
| Consent.ApprovalBetweenIssuances | auth/oauth2/user_authorizer.go:13-64 | in every run consent is given between any two issuances, by an allow action or for a trusted client |
| Consent.ApprovedIff | auth/handlers/handle_oauth2.go:77-148 | an approval is exactly an allow action on the consent form, or a consent page of a trusted, enabled client for a confirmed user, with roles that allow it; a denial is exactly a refusal |
| Consent.AuthorizedIff | auth/oauth2/user_authorizer.go:40-60 | a session is authorized exactly by consent, until a code is issued, a token requested, or the user leaves |
| Consent.AuthorizeMeans | auth/handlers/handle_oauth2.go:36-75 | what an authorize request comes to: rejected, issued or paused, for which request and with what left in the session |
| Consent.OtherEventsMean | auth/handlers/handle_oauth2.go:77-148 | other events issue nothing and touch request and client only by consent or refusal |
| Consent.UserIs | auth/request/session.go:45-100 | users come and go by login and logout only, and everything goes with the user |
| Consent.NoIssueWithoutApproval | auth/oauth2/user_authorizer.go:13-64 | without authorization consent is given before an issuance |
| Consent.IssuancesNeverExceedApprovals | auth/handlers/handle_oauth2.go:77-148 | issuances never exceed the times consent is given |
| Consent.PausedResumesUnchanged | auth/handlers/handle_oauth2.go:36-75 | as long as a stored request is kept it stays the same, and the next code is for its parameters |
| Consent.HeaderDecides | auth/handlers/handle_oauth2.go:309-332 | an authorize step keeps the stored request if and only if its Basic header, if any, names no other client |
| Consent.HeaderOfOtherClient | auth/handlers/handle_oauth2.go:309-332 | a paused request that meets the header of another client goes on for that client |
| Consent.StoredIsCanonical | auth/handlers/handle_oauth2.go:53-60 | every request ever stored carries the ID of the client it was resolved to |
| Consent.ApprovedIsIssued | auth/handlers/handle_oauth2.go:77-148 | an approval given while a request is paused is spent on that request, if it is neither denied nor, with a known client, rejected in between |
| Consent.ApprovalOutlivesRequestIff | auth/handlers/handle_oauth2.go:123-148 | over runs: an approval not yet spent outlives its request if and only if none was paused when it was given, or the request was denied or rejected with a known client |
| Consent.IssuesOnlyIff | auth/oauth2/user_authorizer.go:21-60 | an authorized session issues for p only if and only if p is stored, or what is stored cannot be issued, or nothing is stored and nothing else can be issued |
| Consent.DenialKeepsApproval | auth/handlers/handle_oauth2.go:134-148 | a run in which one client is approved and denied and another gets the code |
| AuthSession.Session.UserAuthorizer | auth/oauth2/user_authorizer.go:13-64 | takes the step: pause with the request stored, or issue with all keys cleared |
| AuthSession.Session.LoadRequestedClient | auth/handlers/handle_oauth2.go:309-332 | header before form; fails if and only if a named client is unknown |
| AuthSession.Session.Authorize | auth/handlers/handle_oauth2.go:36-75 | takes the authorize step; a failure is a step that keeps the state |
| AuthSession.Session.AuthorizeClient | auth/handlers/handle_oauth2.go:77-121 | takes the step of the consent page |
| AuthSession.Session.AuthorizeClientProc | auth/handlers/handle_oauth2.go:123-148 | takes the step of the consent form |
| AuthSession.Session.Handle | auth/handlers/handler.go:163-235 | takes every step; the session is saved unless the handler fails |
| AuthSession.Session.SetAuthParams | auth/request/session.go:56-62 | sets or deletes the stored request and nothing else |
| AuthSession.Session.SetClient | auth/request/session.go:75-81 | sets or deletes the client and nothing else |
| AuthSession.Session.SetClientAuthorized | auth/request/session.go:94-100 | sets or deletes the authorization and nothing else |
| Subjects.SubjectRoundTrip | auth/handlers/handle_oauth2.go:495-501 | from a packed subject the user ID and the roles come back, in order, for claims and user lookup alike |
| Subjects.UserIDSerializer | auth/oauth2/user_authorizer.go:71-78 | the loop packs user ID and roles |
| AuthSession.Claims.SubSplit | auth/handlers/handle_oauth2.go:495-501 | fills in the claims and keeps all others |
| SequenceLoop.LoopCount | automation/automation/iterators.go:17-34 | with a positive step the loop runs exactly ceil((last - first) / step) times over first + k * step, isFirst and isLast on the ends only, if and only if the counter behind the last round fits in 64 bits |
| SequenceLoop.LoopFromArguments | automation/automation/loop_handler.go:29-54 | from the arguments as given to the counters: defaults, panic on a zero step, refusal of an empty range, and else exactly the counters below the end |
| SequenceLoop.LoopUpTo | automation/automation/loop_handler.go:29-54 | given only its end, the loop counts from zero up to it; given nothing it runs once |
| SequenceLoop.EndsIff | automation/automation/iterators.go:17-34 | in 64 bits an accepted loop, whatever the sign of its step, ends if and only if some value from last on within range differs from first by a multiple of the largest power of two in the step |
| SequenceLoop.EndsIffStepPositive | automation/automation/iterators.go:17-34 | over unbounded integers a loop with something to count ends if and only if its step is positive |
| SequenceLoop.Args.Sequence | automation/automation/loop_handler.go:29-54 | fills in defaults, panics on a zero step, refuses an empty range, else starts the iterator at first |
| SequenceLoop.SequenceIterator.Next | automation/automation/iterators.go:27-34 | the item of this round and the wrapped counter of the next |
| SequenceLoop.SequenceIterator.Drive | automation/automation/iterators.go:17-34 | a loop of at most n rounds sees exactly the specified items and tells whether it ended |

## Left out

- AnyOrder.GraphIffAcceptable: is about definitions that EveryOrderIff accepts in every order; whether one of the others becomes a graph depends on the order of its steps.
- AnyOrder.GraphIffMeaningful: is about the same definitions, for the same reason.
- AnyOrder.OrderIndependence: is about the same definitions, since for the others EveryOrderIff says that the order matters.
- Expressions.SequentialComposition: asks for targets without dots; paths into values are a parameter of the language.
- Denotation.OutputOfOneMore: asks for targets without dots and types as conversion sets them; OneDenotesDeep is about the other targets, and FailedActsAsDefaultIff about expressions that fail with a default.
- ArgumentTypes.AcceptedIffSound: asks for known types and distinct targets; SoundIffLastCompatible is about the others.
- Composition.ComposesIffOblivious: asks for expressions that can be evaluated, for types as conversion sets them, which are never the unresolved type, and for distinct targets in the second set, without which RepeatedTargetsMayCompose shows it false.
- Params.TypeSoundness: asks for distinct targets and for parameters with plain names that do not list the unresolved type; SoundIffLastCompatible covers repeated targets.
- SequenceLoop.EndsIffStepPositive: is about integers without bounds; EndsIff is about those of 64 bits.
- WorkflowCache.CacheIsCoherent: issues and labels of the cached and the stored row may differ, since an update that only clears issues is not written.
- Consent.PausedResumesUnchanged: asks that no Basic header names another client; HeaderDecides shows that this is the exact condition.
- Triggers of a workflow whose write failed, or whose update brought issues: they are not registered again, so the bus keeps what it had; bus and store agree for the workflow as last registered.
- The execution engine (queue, workers, loop stack, join at run time, delays, timing); only its routing, its prompts and its call stack are modelled.
- Expression parsing, evaluation, casts and selections: parameters that may answer anything; a cast yields its type, as the source's types do.
- Deterministic failures of configuration inside prompt, delay and error steps beyond the argument checks.
- Parsed expressions are returned as new values; the source writes language and type into the shared expression.
- Nodes of a graph refer to each other by ID, not by pointer.
- Wording of issues: a problem is a tag and a place, and two issues are the same if both agree.
- Locks and goroutines: every lock-held body is one step. Sharing of call stack slices between sessions is not modelled.
- Access control, staleness, uniqueness and handle checks: one answer of the environment. Action logging and label contents.
- The run-as identity beside a cached workflow, and the deferred check of a definition.
- Trigger constraints and the handler body; a handler is known by its owner.
- Integers other than loop counters are unbounded; IDs are natural numbers.
- The refetch factor 1.2 is six fifths of an integer, rounded down.
- Database errors of a fetch, and total counts and backward cursors of a page.
- The condition, line and collection iterators, and merging of record values.
- Session input, event type, purge time, and the wait for results. Frame contents are opaque.
- Deletion of stored sessions that need not be kept.
- The client that loadRequestedClient returns is taken to be the one its closure stored; the language leaves the order open.
- HTTP routing, templates, alerts, tokens, default client, security roles, and multi-factor status behind one answer whether the user is ready.
