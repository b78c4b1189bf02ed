/**
 Stored workflows and triggers (automation/types/workflow.go:13-45, automation/types/trigger.go)
 and the validation of triggers against a workflow.
 */
module Workflows {
  import opened WorkflowTypes
  import opened Definitions
  import Converter

  datatype WorkflowIssue =
    | ConversionIssue(issue: Converter.Issue)
    | TriggerIssue(position: nat)
    | RunAsIssue

  /** `deletedAt` and `updatedAt` are optional times; `labels` are stored apart from the row. */
  datatype Workflow = Workflow(
    id: nat,
    handle: string,
    labels: map<string, string>,
    meta: string,
    enabled: bool,
    trace: bool,
    keepSessions: int,
    scope: Vars,
    steps: seq<Step>,
    paths: seq<Path>,
    issues: seq<WorkflowIssue>,
    runAs: nat,
    ownedBy: nat,
    updatedAt: Option<nat>,
    deletedAt: Option<nat>)

  /** Valid and enabled (automation/types/workflow.go:120-123). */
  predicate Executable(wf: Workflow) {
    wf.deletedAt.None? && wf.enabled
  }

  datatype Trigger = Trigger(
    id: nat,
    workflowID: nat,
    enabled: bool,
    deletedAt: Option<nat>,
    resourceType: string,
    eventType: string)

  predicate Active(t: Trigger) {
    t.enabled && t.deletedAt.None?
  }

  /** Events that have no invoker of their own, by resource and event (automation/service/trigger.go:690-697). */
  const RUN_AS_EVENTS: seq<(string, string)> := [
    ("system:sink", "onRequest"),
    ("system:queue", "onMessage"),
    ("system", "onInterval"),
    ("system", "onTimestamp"),
    ("compose", "onInterval"),
    ("compose", "onTimestamp")
  ]

  predicate NeedsRunAs(t: Trigger) {
    (t.resourceType, t.eventType) in RUN_AS_EVENTS
  }

  /** Requests to a sink, messages of a queue, and all timers need a run-as user; nothing else does. */
  lemma NeedsRunAsIff(t: Trigger)
    ensures NeedsRunAs(t) <==>
            || (t.eventType == "onRequest" && t.resourceType == "system:sink")
            || (t.eventType == "onMessage" && t.resourceType == "system:queue")
            || (t.eventType in {"onInterval", "onTimestamp"} && t.resourceType in {"system", "compose"})
  {
    assert RUN_AS_EVENTS[0] == ("system:sink", "onRequest") && RUN_AS_EVENTS[1] == ("system:queue", "onMessage");
    assert RUN_AS_EVENTS[2] == ("system", "onInterval") && RUN_AS_EVENTS[3] == ("system", "onTimestamp");
    assert RUN_AS_EVENTS[4] == ("compose", "onInterval") && RUN_AS_EVENTS[5] == ("compose", "onTimestamp");
  }

  predicate TriggersClean(wf: Workflow, tt: seq<Trigger>) {
    wf.runAs == 0 ==> forall t | t in tt :: Active(t) ==> !NeedsRunAs(t)
  }

  method ValidateWorkflowTriggers(wf: Workflow, tt: seq<Trigger>) returns (issues: seq<WorkflowIssue>)
    ensures issues == [] <==> TriggersClean(wf, tt)
  {
    issues := [];
    for i := 0 to |tt|
      invariant issues == [] <==> TriggersClean(wf, tt[..i])
    {
      assert tt[..i + 1] == tt[..i] + [tt[i]];
      assert tt[i] in tt[..i + 1];
      if !Active(tt[i]) {
        continue;
      }
      ghost var before := issues;
      for j := 0 to |RUN_AS_EVENTS|
        invariant |issues| >= |before|
        invariant issues == before <==>
                  wf.runAs != 0 || (tt[i].resourceType, tt[i].eventType) !in RUN_AS_EVENTS[..j]
        invariant issues == [] <==> before == [] && issues == before
      {
        assert RUN_AS_EVENTS[..j + 1] == RUN_AS_EVENTS[..j] + [RUN_AS_EVENTS[j]];
        if tt[i].resourceType == RUN_AS_EVENTS[j].0 && tt[i].eventType == RUN_AS_EVENTS[j].1 {
          if wf.runAs == 0 {
            issues := issues + [TriggerIssue(i)];
          }
        }
      }
      assert RUN_AS_EVENTS[..|RUN_AS_EVENTS|] == RUN_AS_EVENTS;
    }
    assert tt[..|tt|] == tt;
  }

  function FilterByWorkflowID(tt: seq<Trigger>, id: nat): (r: seq<Trigger>)
    ensures forall t :: t in r <==> t in tt && t.workflowID == id
  {
    if tt == [] then []
    else (if tt[0].workflowID == id then [tt[0]] else []) + FilterByWorkflowID(tt[1..], id)
  }

  function WorkflowIDs(wfs: seq<Workflow>): set<nat> {
    set wf | wf in wfs :: wf.id
  }
}
