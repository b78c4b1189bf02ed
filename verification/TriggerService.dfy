/**
 The trigger service (automation/service/trigger.go:414-640): the loops that change the registry
 and the event bus in place, proved to take the steps of module Triggers.
 */
module TriggerService {
  import opened WorkflowTypes
  import opened Workflows
  import Triggers

  /** The enabled triggers of the given workflows, deleted ones included. */
  function Search(stored: seq<Trigger>, ids: set<nat>): (r: seq<Trigger>)
    ensures forall t :: t in r <==> t in stored && t.enabled && t.workflowID in ids
  {
    if stored == [] then []
    else (if stored[0].enabled && stored[0].workflowID in ids then [stored[0]] else []) + Search(stored[1..], ids)
  }

  lemma {:induction false} SearchKeepsDistinct(stored: seq<Trigger>, ids: set<nat>)
    requires Triggers.DistinctTriggers(stored)
    ensures Triggers.DistinctTriggers(Search(stored, ids))
  {
    if stored != [] {
      SearchKeepsDistinct(stored[1..], ids);
      forall t | t in Search(stored[1..], ids)
        ensures t.id != stored[0].id
      {
        var j :| 0 <= j < |stored[1..]| && stored[1..][j] == t;
        assert stored[0].id != stored[j + 1].id;
      }
    }
  }

  predicate Registrable(env: Triggers.Env, wf: Workflow, stored: seq<Trigger>) {
    && env.register && wf.enabled && wf.deletedAt.None? && wf.issues == []
    && (wf.runAs == 0 ==>
          forall t | t in stored ::
            t.workflowID == wf.id && t.enabled && t.deletedAt.None? ==> !NeedsRunAs(t))
  }

  function StoredActive(wf: Workflow, stored: seq<Trigger>): set<nat> {
    set t | t in stored && t.workflowID == wf.id && t.enabled && t.deletedAt.None? :: t.id
  }

  /** The triggers of the workflow that the store wants live. */
  function Wanted(env: Triggers.Env, wf: Workflow, stored: seq<Trigger>): set<nat> {
    if Registrable(env, wf, stored) then StoredActive(wf, stored) else {}
  }

  /**
   The bus agrees with the store: after a successful registration without aliases the live triggers
   of each workflow are its stored triggers that are enabled and not deleted, if it can be
   registered, and none otherwise; after the registration of a single workflow they always are.
   */
  lemma LiveAreStoredActive(env: Triggers.Env, st: Triggers.State, wfs: seq<Workflow>, stored: seq<Trigger>)
    requires Triggers.Fresh(env.alloc) && Triggers.NoLeaks(st)
    requires Triggers.DistinctTriggers(stored) && Triggers.DistinctWorkflows(wfs)
    ensures var tt := Search(stored, WorkflowIDs(wfs));
            var (r, failed) := Triggers.RegisterWorkflows(env, st, wfs, tt);
            !failed && (|wfs| == 1 || Triggers.AliasFree(env, st, wfs, tt)) ==>
              forall wf | wf in wfs :: Triggers.LiveTriggers(r, wf.id) == Wanted(env, wf, stored)
  {
    hide Triggers.NoLeaks, Triggers.LiveTriggers, Triggers.RegisterWorkflows, Triggers.AliasFree, Search,
         FilterByWorkflowID, NeedsRunAs, Triggers.Fresh;
    var tt := Search(stored, WorkflowIDs(wfs));
    SearchKeepsDistinct(stored, WorkflowIDs(wfs));
    Triggers.RegistrationIsExact(env, st, wfs, tt);
    if |wfs| == 1 {
      assert wfs == [wfs[0]];
      Triggers.OneRegistrationIsExact(env, st, wfs[0], tt);
    }
    forall wf | wf in wfs
      ensures Triggers.Expected(env, wf, tt) == Wanted(env, wf, stored)
    {
      var own := FilterByWorkflowID(tt, wf.id);
      assert forall t :: t in own && Active(t) <==> t in stored && t.workflowID == wf.id && Active(t);
      assert Triggers.ActiveIDs(own) == StoredActive(wf, stored);
    }
  }

  /**
   Registering workflows fails if and only if one of those to be registered, by option, switch, deletion and
   issues, has a run-as user that is not valid.
   */
  lemma {:induction false} RegistrationFailsIff(env: Triggers.Env, st: Triggers.State, wfs: seq<Workflow>,
          tt: seq<Trigger>)
    ensures Triggers.RegisterWorkflows(env, st, wfs, tt).1 <==>
            exists wf :: wf in wfs && env.register && wf.enabled && wf.deletedAt.None? && wf.issues == []
                         && wf.runAs > 0 && !env.validUser(wf.runAs)
    decreases |wfs|
  {
    hide Triggers.RegisterTriggers, Triggers.UnregisterWorkflow, FilterByWorkflowID, NeedsRunAs;
    if wfs != [] {
      var wf := wfs[0];
      var (next, failed) := Triggers.RegisterStep(env, st, wf, tt);
      Triggers.StepThenRest(env, st, wfs, tt);
      StepFailsIff(env, st, wf, tt);
      assert forall v :: v in wfs <==> v == wf || v in wfs[1..];
      if !failed {
        RegistrationFailsIff(env, next, wfs[1..], tt);
      }
    }
  }

  lemma StepFailsIff(env: Triggers.Env, st: Triggers.State, wf: Workflow, tt: seq<Trigger>)
    ensures Triggers.RegisterStep(env, st, wf, tt).1 <==>
            env.register && wf.enabled && wf.deletedAt.None? && wf.issues == []
            && wf.runAs > 0 && !env.validUser(wf.runAs)
  {
    hide Triggers.RegisterTriggers, Triggers.UnregisterWorkflow, FilterByWorkflowID, NeedsRunAs;
  }

  /** Registering a new trigger fails if and only if it belongs to another workflow or the run-as user is not valid. */
  lemma CreationFailsIff(env: Triggers.Env, st: Triggers.State, wf: Workflow, t: Trigger)
    ensures Triggers.RegisterWorkflow(env, st, wf, [t]).1 <==>
            env.register && wf.enabled && wf.issues == []
            && (t.workflowID != wf.id || (wf.runAs > 0 && !env.validUser(wf.runAs)))
  {
    hide Triggers.RegisterTriggers, NeedsRunAs;
    assert t in [t];
  }

  class Service {
    var reg: map<nat, map<nat, nat>>
    // handlers of the event bus that this service registered
    var live: map<nat, Triggers.Owner>
    var count: nat

    function State(): Triggers.State
      reads this
    {
      Triggers.State(reg, live, count)
    }

    constructor ()
      ensures State() == Triggers.EMPTY
    {
      reg, live, count := map[], map[], 0;
    }

    method Unregister(ptr: nat)
      modifies this`live
      ensures live == old(live) - {ptr}
    {
      live := live - {ptr};
    }

    method RegisterHandler(alloc: Triggers.Allocator, owner: Triggers.Owner) returns (ptr: nat)
      modifies this`live, this`count
      ensures ptr == alloc(old(live).Keys, old(count))
      ensures live == old(live)[ptr := owner] && count == old(count) + 1
    {
      ptr := alloc(live.Keys, count);
      live := live[ptr := owner];
      count := count + 1;
    }

    /** Replaces the handler of one trigger. */
    method RegisterOne(alloc: Triggers.Allocator, wfID: nat, registrable: bool, t: Trigger)
      modifies this
      ensures State() == Triggers.RegisterOne(alloc, old(State()), wfID, registrable, t)
    {
      ghost var before := State();
      if wfID !in reg {
        reg := reg[wfID := map[]];
      } else if t.id in reg[wfID] && reg[wfID][t.id] != 0 {
        Unregister(reg[wfID][t.id]);
      }
      if !registrable || !t.enabled || t.deletedAt.Some? {
        assert reg == before.reg[wfID := Triggers.Entries(before, wfID)];
        return;
      }
      var ptr := RegisterHandler(alloc, Triggers.Owner(wfID, t.id));
      var entries: map<nat, nat> := reg[wfID];
      reg := reg[wfID := entries[t.id := ptr]];
      assert reg == before.reg[wfID := Triggers.Entries(before, wfID)[t.id := ptr]];
    }

    method RegisterTriggers(env: Triggers.Env, wf: Workflow, tt: seq<Trigger>)
      modifies this
      ensures State() == Triggers.RegisterTriggers(env.alloc, old(State()), wf.id, Executable(wf), tt)
    {
      hide Triggers.RegisterOne;
      var registrable := wf.enabled && wf.deletedAt.None?;
      for i := 0 to |tt|
        invariant Triggers.RegisterTriggers(env.alloc, State(), wf.id, registrable, tt[i..])
                  == Triggers.RegisterTriggers(env.alloc, old(State()), wf.id, registrable, tt)
      {
        assert tt[i..][0] == tt[i] && tt[i..][1..] == tt[i + 1..];
        RegisterOne(env.alloc, wf.id, registrable, tt[i]);
      }
      assert tt[|tt|..] == [];
    }

    method UnregisterWorkflow(wfID: nat)
      modifies this
      ensures State() == Triggers.UnregisterWorkflow(old(State()), wfID)
    {
      var entries := if wfID in reg then reg[wfID] else map[];
      var todo := entries.Keys;
      while todo != {}
        invariant todo <= entries.Keys && reg == old(reg) && count == old(count)
        invariant live == old(live) - (set t | t in entries.Keys - todo :: entries[t])
      {
        var t :| t in todo;
        Unregister(entries[t]);
        todo := todo - {t};
      }
      assert entries.Values == set t | t in entries.Keys :: entries[t];
      reg := reg - {wfID};
    }

    method UnregisterTriggers(tt: seq<Trigger>)
      modifies this`live
      ensures State() == Triggers.UnregisterTriggers(old(State()), tt)
    {
      for i := 0 to |tt|
        invariant Triggers.UnregisterTriggers(State(), tt[i..]) == Triggers.UnregisterTriggers(old(State()), tt)
      {
        var t := tt[i];
        assert tt[i..][0] == t && tt[i..][1..] == tt[i + 1..];
        if t.workflowID !in reg {
          return;
        }
        if t.id in reg[t.workflowID] {
          Unregister(reg[t.workflowID][t.id]);
        }
      }
      assert tt[|tt|..] == [];
    }

    method RegisterWorkflow(env: Triggers.Env, wf: Workflow, tt: seq<Trigger>) returns (failed: bool)
      modifies this
      ensures (State(), failed) == Triggers.RegisterWorkflow(env, old(State()), wf, tt)
    {
      if !env.register {
        return false;
      }
      if !wf.enabled || |wf.issues| > 0 {
        return false;
      }
      for i := 0 to |tt|
        invariant forall t | t in tt[..i] :: t.workflowID == wf.id
      {
        if tt[i].workflowID != wf.id {
          assert tt[i] in tt;
          return true;
        }
      }
      assert tt[..|tt|] == tt;
      var issues := ValidateWorkflowTriggers(wf, tt);
      if |issues| > 0 {
        return false;
      }
      if wf.runAs > 0 && !env.validUser(wf.runAs) {
        return true;
      }
      RegisterTriggers(env, wf, tt);
      return false;
    }

    method RegisterWorkflows(env: Triggers.Env, wfs: seq<Workflow>, stored: seq<Trigger>) returns (failed: bool)
      modifies this
      ensures (State(), failed)
              == Triggers.RegisterWorkflows(env, old(State()), wfs, Search(stored, WorkflowIDs(wfs)))
    {
      var tt := Search(stored, WorkflowIDs(wfs));
      for i := 0 to |wfs|
        invariant Triggers.RegisterWorkflows(env, State(), wfs[i..], tt)
                  == Triggers.RegisterWorkflows(env, old(State()), wfs, tt)
      {
        var wf := wfs[i];
        assert wfs[i..][0] == wf && wfs[i..][1..] == wfs[i + 1..];
        UnregisterWorkflow(wf.id);
        if !wf.enabled {
          continue;
        }
        if wf.deletedAt.Some? {
          continue;
        }
        if |wf.issues| > 0 {
          continue;
        }
        failed := RegisterWorkflow(env, wf, FilterByWorkflowID(tt, wf.id));
        if failed {
          return;
        }
      }
      assert wfs[|wfs|..] == [];
      return false;
    }
  }
}
