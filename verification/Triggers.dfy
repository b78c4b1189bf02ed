/**
 Registration of triggers on the event bus (automation/service/trigger.go:414-640) as a
 transition system over the registry and the live handlers of the bus.

 A handle is the address of a handler (pkg/eventbus/eventbus.go:133-144): it differs from zero
 and from all live handles, but the address of a removed handler may be given out again.
 */
module Triggers {
  import opened WorkflowTypes
  import opened Workflows

  datatype Owner = Owner(workflowID: nat, triggerID: nat)

  /** `reg` is the registry, `live` the bus, `count` the number of registrations so far. */
  datatype State = State(reg: map<nat, map<nat, nat>>, live: map<nat, Owner>, count: nat)

  const EMPTY: State := State(map[], map[], 0)

  /** Chooses the handle of the n-th registration, given the live ones. */
  type Allocator = (set<nat>, nat) -> nat

  ghost predicate Fresh(alloc: Allocator) {
    forall live: set<nat>, n: nat :: alloc(live, n) != 0 && alloc(live, n) !in live
  }

  /** The environment of a registration: the option, the run-as users and the allocator. */
  datatype Env = Env(register: bool, validUser: nat -> bool, alloc: Allocator)

  function Entries(st: State, wfID: nat): map<nat, nat> {
    if wfID in st.reg then st.reg[wfID] else map[]
  }

  // ----- Steps -----

  function RegisterOne(alloc: Allocator, st: State, wfID: nat, registrable: bool, t: Trigger): State {
    var entries := Entries(st, wfID);
    var live := if t.id in entries && entries[t.id] != 0 then st.live - {entries[t.id]} else st.live;
    if !registrable || !Active(t) then State(st.reg[wfID := entries], live, st.count)
    else
      var h := alloc(live.Keys, st.count);
      State(st.reg[wfID := entries[t.id := h]], live[h := Owner(wfID, t.id)], st.count + 1)
  }

  function RegisterTriggers(alloc: Allocator, st: State, wfID: nat, registrable: bool, tt: seq<Trigger>): State
    decreases |tt|
  {
    if tt == [] then st
    else RegisterTriggers(alloc, RegisterOne(alloc, st, wfID, registrable, tt[0]), wfID, registrable, tt[1..])
  }

  function UnregisterWorkflow(st: State, wfID: nat): State {
    State(st.reg - {wfID}, st.live - Entries(st, wfID).Values, st.count)
  }

  /** Stops at the first trigger whose workflow has no registry entry. */
  function UnregisterTriggers(st: State, tt: seq<Trigger>): State
    decreases |tt|
  {
    if tt == [] || tt[0].workflowID !in st.reg then st
    else
      var entries := st.reg[tt[0].workflowID];
      var st' := if tt[0].id in entries then st.(live := st.live - {entries[tt[0].id]}) else st;
      UnregisterTriggers(st', tt[1..])
  }

  /** registerWorkflow: the new state and whether it failed. */
  function RegisterWorkflow(env: Env, st: State, wf: Workflow, tt: seq<Trigger>): (State, bool) {
    if !env.register || !wf.enabled || wf.issues != [] then (st, false)
    else if exists t | t in tt :: t.workflowID != wf.id then (st, true)
    else if !TriggersClean(wf, tt) then (st, false)
    else if wf.runAs > 0 && !env.validUser(wf.runAs) then (st, true)
    else (RegisterTriggers(env.alloc, st, wf.id, Executable(wf), tt), false)
  }

  /** registerWorkflows, given the enabled triggers from the store. */
  function RegisterWorkflows(env: Env, st: State, wfs: seq<Workflow>, tt: seq<Trigger>): (State, bool)
    decreases |wfs|
  {
    if wfs == [] then (st, false)
    else
      var wf := wfs[0];
      var st' := UnregisterWorkflow(st, wf.id);
      if !wf.enabled || wf.deletedAt.Some? || wf.issues != [] then RegisterWorkflows(env, st', wfs[1..], tt)
      else
        var (st'', failed) := RegisterWorkflow(env, st', wf, FilterByWorkflowID(tt, wf.id));
        if failed then (st'', true) else RegisterWorkflows(env, st'', wfs[1..], tt)
  }

  // ----- Invariants -----

  predicate Recorded(st: State, h: nat, o: Owner) {
    && o.workflowID in st.reg && o.triggerID in st.reg[o.workflowID]
    && st.reg[o.workflowID][o.triggerID] == h
  }

  /** Every live handler is recorded under its own workflow and trigger. */
  predicate NoLeaks(st: State) {
    0 !in st.live && forall h | h in st.live :: Recorded(st, h, st.live[h])
  }

  /** Every record is the live handler of its own workflow and trigger. */
  predicate NoStale(st: State) {
    forall w | w in st.reg :: NoStaleEntries(st, w, st.reg[w])
  }

  predicate NoStaleEntries(st: State, w: nat, entries: map<nat, nat>) {
    forall t | t in entries :: entries[t] in st.live && st.live[entries[t]] == Owner(w, t)
  }

  lemma RegisterOneKeepsNoLeaks(alloc: Allocator, st: State, wfID: nat, registrable: bool, t: Trigger)
    requires Fresh(alloc) && NoLeaks(st)
    ensures NoLeaks(RegisterOne(alloc, st, wfID, registrable, t))
  {
    var st' := RegisterOne(alloc, st, wfID, registrable, t);
    forall h | h in st'.live
      ensures Recorded(st', h, st'.live[h])
    {
      if h in st.live && st'.live[h] == st.live[h] {
        assert Recorded(st, h, st.live[h]);
      }
    }
  }

  lemma {:induction false} RegisterTriggersKeepsNoLeaks(alloc: Allocator, st: State, wfID: nat, registrable: bool,
          tt: seq<Trigger>)
    requires Fresh(alloc) && NoLeaks(st)
    ensures NoLeaks(RegisterTriggers(alloc, st, wfID, registrable, tt))
    decreases |tt|
  {
    if tt != [] {
      RegisterOneKeepsNoLeaks(alloc, st, wfID, registrable, tt[0]);
      RegisterTriggersKeepsNoLeaks(alloc, RegisterOne(alloc, st, wfID, registrable, tt[0]), wfID, registrable, tt[1..]);
    }
  }

  lemma UnregisterWorkflowKeepsNoLeaks(st: State, wfID: nat)
    requires NoLeaks(st)
    ensures NoLeaks(UnregisterWorkflow(st, wfID))
  {
    var st' := UnregisterWorkflow(st, wfID);
    forall h | h in st'.live
      ensures Recorded(st', h, st'.live[h])
    {
      assert Recorded(st, h, st.live[h]);
    }
  }

  lemma {:induction false} UnregisterTriggersKeepsNoLeaks(st: State, tt: seq<Trigger>)
    requires NoLeaks(st)
    ensures NoLeaks(UnregisterTriggers(st, tt))
    decreases |tt|
  {
    if tt != [] && tt[0].workflowID in st.reg {
      var entries := st.reg[tt[0].workflowID];
      var st' := if tt[0].id in entries then st.(live := st.live - {entries[tt[0].id]}) else st;
      forall h | h in st'.live
        ensures Recorded(st', h, st'.live[h])
      {
        assert Recorded(st, h, st.live[h]);
      }
      UnregisterTriggersKeepsNoLeaks(st', tt[1..]);
    }
  }

  // ----- Runs -----

  /** The lock-held parts that change the registry, with any arguments and in any interleaving. */
  datatype Call =
    | Register(wfID: nat, registrable: bool, triggers: seq<Trigger>)
    | UnregisterAll(wfID: nat)
    | UnregisterSome(triggers: seq<Trigger>)

  function Apply(alloc: Allocator, st: State, call: Call): State {
    match call
    case Register(w, r, tt) => RegisterTriggers(alloc, st, w, r, tt)
    case UnregisterAll(w) => UnregisterWorkflow(st, w)
    case UnregisterSome(tt) => UnregisterTriggers(st, tt)
  }

  function Run(alloc: Allocator, st: State, calls: seq<Call>): State
    decreases |calls|
  {
    if calls == [] then st else Run(alloc, Apply(alloc, st, calls[0]), calls[1..])
  }

  /**
   No leaked handlers: in every run of register and unregister calls, however handles are
   reused, each live handler is recorded under its own workflow and trigger, and no workflow and
   trigger ever have two.
   */
  lemma {:induction false} RunsNeverLeak(alloc: Allocator, st: State, calls: seq<Call>)
    requires Fresh(alloc) && NoLeaks(st)
    ensures var r := Run(alloc, st, calls);
            && NoLeaks(r)
            && forall g, h | g in r.live && h in r.live :: r.live[g] == r.live[h] ==> g == h
    decreases |calls|
  {
    if calls != [] {
      match calls[0] {
        case Register(w, r, tt) => RegisterTriggersKeepsNoLeaks(alloc, st, w, r, tt);
        case UnregisterAll(w) => UnregisterWorkflowKeepsNoLeaks(st, w);
        case UnregisterSome(tt) => UnregisterTriggersKeepsNoLeaks(st, tt);
      }
      RunsNeverLeak(alloc, Apply(alloc, st, calls[0]), calls[1..]);
    } else {
      forall g, h | g in st.live && h in st.live && st.live[g] == st.live[h]
        ensures g == h
      {
        assert Recorded(st, g, st.live[g]) && Recorded(st, h, st.live[h]);
      }
    }
  }

  // ----- Exact registration -----

  function LiveTriggers(st: State, w: nat): set<nat> {
    set h | h in st.live && st.live[h].workflowID == w :: st.live[h].triggerID
  }

  /** The handlers of one workflow. */
  function HandlersOf(st: State, w: nat): map<nat, Owner> {
    map h | h in st.live && st.live[h].workflowID == w :: st.live[h]
  }

  predicate DistinctTriggers(tt: seq<Trigger>) {
    forall i, j | 0 <= i < j < |tt| :: tt[i].id != tt[j].id
  }

  function ActiveIDs(tt: seq<Trigger>): set<nat> {
    set t | t in tt && Active(t) :: t.id
  }

  /** The n-th and all later registrations do not give out h. */
  ghost predicate NotGivenFrom(alloc: Allocator, n: nat, h: nat) {
    forall live: set<nat>, k: nat | k >= n :: alloc(live, k) != h
  }

  /** No leaks, and every record is live for its own trigger or dead for good. */
  ghost predicate Settled(alloc: Allocator, st: State) {
    NoLeaks(st) && forall w | w in st.reg :: SettledEntries(alloc, st, w, st.reg[w])
  }

  ghost predicate SettledEntries(alloc: Allocator, st: State, w: nat, entries: map<nat, nat>) {
    forall t | t in entries ::
      if entries[t] in st.live then st.live[entries[t]] == Owner(w, t) else NotGivenFrom(alloc, st.count, entries[t])
  }

  // Registering a trigger that is not recorded yet adds its handler and nothing else.
  lemma RegisterOneExact(alloc: Allocator, st: State, wfID: nat, registrable: bool, t: Trigger)
    requires Fresh(alloc) && NoLeaks(st) && t.id !in Entries(st, wfID)
    ensures var r := RegisterOne(alloc, st, wfID, registrable, t);
            && NoLeaks(r) && (Settled(alloc, st) ==> Settled(alloc, r))
            && (forall w | w != wfID :: HandlersOf(r, w) == HandlersOf(st, w))
            && LiveTriggers(r, wfID) == LiveTriggers(st, wfID) + (if registrable && Active(t) then {t.id} else {})
            && (forall id | id in Entries(r, wfID) :: id == t.id || id in Entries(st, wfID))
  {
    var r := RegisterOne(alloc, st, wfID, registrable, t);
    RegisterOneKeepsNoLeaks(alloc, st, wfID, registrable, t);
    if registrable && Active(t) {
      var h := alloc(st.live.Keys, st.count);
      assert r.live == st.live[h := Owner(wfID, t.id)];
      AddedHandler(st, r, h, Owner(wfID, t.id));
    } else {
      assert r.live == st.live;
    }
    if Settled(alloc, st) {
      RegisterOneKeepsSettled(alloc, st, wfID, registrable, t);
    }
  }

  lemma RegisterOneKeepsSettled(alloc: Allocator, st: State, wfID: nat, registrable: bool, t: Trigger)
    requires Fresh(alloc) && Settled(alloc, st) && t.id !in Entries(st, wfID)
    ensures Settled(alloc, RegisterOne(alloc, st, wfID, registrable, t))
  {
    var r := RegisterOne(alloc, st, wfID, registrable, t);
    RegisterOneKeepsNoLeaks(alloc, st, wfID, registrable, t);
    assert registrable && Active(t) ==> alloc(st.live.Keys, st.count) !in st.live;
    hide NoLeaks, Fresh;
    forall w | w in r.reg
      ensures SettledEntries(alloc, r, w, r.reg[w])
    {
      if w in st.reg {
        assert SettledEntries(alloc, st, w, st.reg[w]);
      }
    }
  }

  lemma AddedHandler(a: State, b: State, h: nat, o: Owner)
    requires h !in a.live && b.live == a.live[h := o]
    ensures LiveTriggers(b, o.workflowID) == LiveTriggers(a, o.workflowID) + {o.triggerID}
    ensures forall w | w != o.workflowID :: HandlersOf(b, w) == HandlersOf(a, w)
  {
    assert h in b.live && b.live[h].triggerID == o.triggerID;
    forall id
      ensures id in LiveTriggers(b, o.workflowID) <==> id in LiveTriggers(a, o.workflowID) || id == o.triggerID
    {
      if id in LiveTriggers(a, o.workflowID) {
        var g :| g in a.live && a.live[g].workflowID == o.workflowID && a.live[g].triggerID == id;
        assert g in b.live && b.live[g] == a.live[g];
      }
    }
  }

  lemma {:induction false} RegisterTriggersExact(alloc: Allocator, st: State, wfID: nat, registrable: bool,
          tt: seq<Trigger>)
    requires Fresh(alloc) && NoLeaks(st) && DistinctTriggers(tt)
    requires forall t | t in tt :: t.id !in Entries(st, wfID)
    ensures var r := RegisterTriggers(alloc, st, wfID, registrable, tt);
            && NoLeaks(r) && (Settled(alloc, st) ==> Settled(alloc, r))
            && (forall w | w != wfID :: HandlersOf(r, w) == HandlersOf(st, w))
            && LiveTriggers(r, wfID) == LiveTriggers(st, wfID) + (if registrable then ActiveIDs(tt) else {})
    decreases |tt|
  {
    hide NoLeaks, Settled, HandlersOf, LiveTriggers, RegisterOne, Fresh, Entries;
    if tt != [] {
      var st' := RegisterOne(alloc, st, wfID, registrable, tt[0]);
      assert tt[0] in tt;
      RegisterOneExact(alloc, st, wfID, registrable, tt[0]);
      forall t | t in tt[1..]
        ensures t.id !in Entries(st', wfID)
      {
        var j :| 0 <= j < |tt[1..]| && tt[1..][j] == t;
        assert tt[0].id != tt[j + 1].id;
      }
      RegisterTriggersExact(alloc, st', wfID, registrable, tt[1..]);
      assert ActiveIDs(tt) == (if Active(tt[0]) then {tt[0].id} else {}) + ActiveIDs(tt[1..]) by {
        assert forall t :: t in tt <==> t == tt[0] || t in tt[1..];
      }
    }
  }

  /** No record of the workflow is live for one that is neither the workflow itself nor one of the later ones. */
  predicate Harmless(st: State, w: nat, later: set<nat>) {
    forall t | t in Entries(st, w) && Entries(st, w)[t] in st.live ::
      st.live[Entries(st, w)[t]].workflowID in {w} + later
  }

  /** Handlers of the workflow may be gone, but no other ones are there. */
  predicate Shrinks(a: State, b: State, w: nat) {
    forall h | h in b.live && b.live[h].workflowID == w :: h in a.live && a.live[h] == b.live[h]
  }

  /**
   Unregistering removes all handlers of the workflow, and leaves those of others alone if and only
   if no record of the workflow is, by reuse of the handle, the live handler of one of them.
   */
  lemma UnregisterWorkflowExact(st: State, wfID: nat, later: set<nat>)
    requires NoLeaks(st)
    ensures var r := UnregisterWorkflow(st, wfID);
            && NoLeaks(r) && wfID !in r.reg
            && LiveTriggers(r, wfID) == {}
            && (forall w :: Shrinks(st, r, w))
            && ((forall w | w !in {wfID} + later :: HandlersOf(r, w) == HandlersOf(st, w)) <==>
                Harmless(st, wfID, later))
  {
    var r := UnregisterWorkflow(st, wfID);
    UnregisterWorkflowKeepsNoLeaks(st, wfID);
    var entries := Entries(st, wfID);
    forall h | h in st.live && st.live[h].workflowID == wfID
      ensures h !in r.live
    {
      assert Recorded(st, h, st.live[h]);
    }
    hide NoLeaks;
    if Harmless(st, wfID, later) {
      forall w | w !in {wfID} + later
        ensures HandlersOf(r, w) == HandlersOf(st, w)
      {
        forall h | h in st.live && st.live[h].workflowID == w
          ensures h in r.live
        {
        }
      }
    } else {
      var t :| t in entries && entries[t] in st.live && st.live[entries[t]].workflowID !in {wfID} + later;
      var w := st.live[entries[t]].workflowID;
      assert entries[t] in HandlersOf(st, w) && entries[t] !in HandlersOf(r, w);
    }
  }

  lemma UnregisterWorkflowKeepsSettled(alloc: Allocator, st: State, wfID: nat)
    requires Settled(alloc, st)
    ensures Settled(alloc, UnregisterWorkflow(st, wfID)) && Harmless(st, wfID, {})
  {
    var r := UnregisterWorkflow(st, wfID);
    UnregisterWorkflowKeepsNoLeaks(st, wfID);
    hide NoLeaks;
    assert wfID in st.reg ==> SettledEntries(alloc, st, wfID, st.reg[wfID]);
    forall w | w in r.reg
      ensures SettledEntries(alloc, r, w, r.reg[w])
    {
      assert SettledEntries(alloc, st, w, st.reg[w]);
    }
  }

  /** The triggers of a workflow that should be live. */
  function Expected(env: Env, wf: Workflow, tt: seq<Trigger>): set<nat> {
    var own := FilterByWorkflowID(tt, wf.id);
    if env.register && Executable(wf) && wf.issues == [] && TriggersClean(wf, own) then ActiveIDs(own) else {}
  }

  predicate DistinctWorkflows(wfs: seq<Workflow>) {
    forall i, j | 0 <= i < j < |wfs| :: wfs[i].id != wfs[j].id
  }

  lemma {:induction false} FilterKeepsDistinct(tt: seq<Trigger>, id: nat)
    requires DistinctTriggers(tt)
    ensures DistinctTriggers(FilterByWorkflowID(tt, id))
  {
    if tt != [] {
      FilterKeepsDistinct(tt[1..], id);
      var rest := FilterByWorkflowID(tt[1..], id);
      forall t | t in rest
        ensures t.id != tt[0].id
      {
        var j :| 0 <= j < |tt[1..]| && tt[1..][j] == t;
        assert tt[0].id != tt[j + 1].id;
      }
    }
  }

  /** What happens to one workflow of a registerWorkflows call. */
  function RegisterStep(env: Env, st: State, wf: Workflow, tt: seq<Trigger>): (State, bool) {
    var st' := UnregisterWorkflow(st, wf.id);
    if !wf.enabled || wf.deletedAt.Some? || wf.issues != [] then (st', false)
    else RegisterWorkflow(env, st', wf, FilterByWorkflowID(tt, wf.id))
  }

  lemma RegisterStepExact(env: Env, st: State, wf: Workflow, tt: seq<Trigger>, later: set<nat>)
    requires Fresh(env.alloc) && NoLeaks(st) && DistinctTriggers(tt)
    ensures var (r, failed) := RegisterStep(env, st, wf, tt);
            && NoLeaks(r)
            && LiveTriggers(r, wf.id) == (if failed then {} else Expected(env, wf, tt))
            && (forall w | w != wf.id :: Shrinks(st, r, w))
            && ((forall w | w !in {wf.id} + later :: HandlersOf(r, w) == HandlersOf(st, w)) <==>
                Harmless(st, wf.id, later))
            && (Settled(env.alloc, st) ==> Settled(env.alloc, r))
  {
    hide Settled, HandlersOf, LiveTriggers, ActiveIDs, RegisterTriggers, UnregisterWorkflow, FilterByWorkflowID,
         Fresh, DistinctTriggers, NoLeaks, Harmless, Shrinks, TriggersClean;
    UnregisterWorkflowExact(st, wf.id, later);
    if Settled(env.alloc, st) {
      UnregisterWorkflowKeepsSettled(env.alloc, st, wf.id);
    }
    FilterKeepsDistinct(tt, wf.id);
    var st', own := UnregisterWorkflow(st, wf.id), FilterByWorkflowID(tt, wf.id);
    RegisterTriggersExact(env.alloc, st', wf.id, Executable(wf), own);
    var r := RegisterStep(env, st, wf, tt).0;
    assert forall w | w != wf.id :: HandlersOf(r, w) == HandlersOf(st', w);
    forall w | w != wf.id
      ensures Shrinks(st, r, w)
    {
      SameHandlersShrink(st, st', r, w);
    }
  }

  lemma SameHandlersShrink(a: State, b: State, c: State, w: nat)
    requires Shrinks(a, b, w) && HandlersOf(b, w) == HandlersOf(c, w)
    ensures Shrinks(a, c, w)
  {
    forall h | h in c.live && c.live[h].workflowID == w
      ensures h in a.live && a.live[h] == c.live[h]
    {
      assert h in HandlersOf(c, w) && HandlersOf(c, w)[h] == c.live[h];
      assert h in HandlersOf(b, w) && HandlersOf(b, w)[h] == b.live[h];
    }
  }

  // Handlers that are the same in the end were the same in between.
  lemma SameInBetween(a: State, b: State, c: State, w: nat)
    requires Shrinks(a, b, w) && Shrinks(b, c, w) && HandlersOf(a, w) == HandlersOf(c, w)
    ensures HandlersOf(a, w) == HandlersOf(b, w) == HandlersOf(c, w)
  {
    forall h
      ensures h in HandlersOf(b, w) <==> h in HandlersOf(a, w)
    {
      if h in HandlersOf(a, w) {
        assert h in HandlersOf(c, w);
        assert h in c.live && c.live[h].workflowID == w;
      }
    }
  }

  // As every trigger has one handler, live triggers that stay keep their handlers.
  lemma SameTriggersSameHandlers(a: State, b: State, w: nat)
    requires NoLeaks(a) && Shrinks(a, b, w) && LiveTriggers(a, w) == LiveTriggers(b, w)
    ensures HandlersOf(a, w) == HandlersOf(b, w)
  {
    forall h | h in a.live && a.live[h].workflowID == w
      ensures h in b.live && b.live[h] == a.live[h]
    {
      var id := a.live[h].triggerID;
      assert id in LiveTriggers(a, w);
      var g :| g in b.live && b.live[g].workflowID == w && b.live[g].triggerID == id;
      assert Recorded(a, h, a.live[h]) && Recorded(a, g, a.live[g]);
    }
  }

  lemma SameHandlersSameTriggers(a: State, b: State, w: nat)
    requires HandlersOf(a, w) == HandlersOf(b, w)
    ensures LiveTriggers(a, w) == LiveTriggers(b, w)
  {
    forall id
      ensures id in LiveTriggers(a, w) <==> id in LiveTriggers(b, w)
    {
      if id in LiveTriggers(a, w) {
        var h :| h in a.live && a.live[h].workflowID == w && a.live[h].triggerID == id;
        assert h in HandlersOf(a, w) && HandlersOf(a, w)[h].triggerID == id;
        assert h in HandlersOf(b, w);
      }
      if id in LiveTriggers(b, w) {
        var h :| h in b.live && b.live[h].workflowID == w && b.live[h].triggerID == id;
        assert h in HandlersOf(b, w) && HandlersOf(b, w)[h].triggerID == id;
        assert h in HandlersOf(a, w);
      }
    }
  }

  /** At no point of a registration a stale record belongs to a live handler that is not replaced later. */
  predicate AliasFree(env: Env, st: State, wfs: seq<Workflow>, tt: seq<Trigger>)
    decreases |wfs|
  {
    wfs != [] ==>
      var (next, failed) := RegisterStep(env, st, wfs[0], tt);
      && Harmless(st, wfs[0].id, WorkflowIDs(wfs[1..]))
      && (!failed ==> AliasFree(env, next, wfs[1..], tt))
  }

  /** The handlers of all other workflows are the same. */
  ghost predicate OthersUntouched(a: State, b: State, ids: set<nat>) {
    forall w | w !in ids :: HandlersOf(b, w) == HandlersOf(a, w)
  }

  predicate AllExpected(env: Env, st: State, wfs: seq<Workflow>, tt: seq<Trigger>) {
    forall wf | wf in wfs :: LiveTriggers(st, wf.id) == Expected(env, wf, tt)
  }

  lemma StepThenRest(env: Env, st: State, wfs: seq<Workflow>, tt: seq<Trigger>)
    requires wfs != []
    ensures var (next, failed) := RegisterStep(env, st, wfs[0], tt);
            RegisterWorkflows(env, st, wfs, tt)
            == if failed then (next, true) else RegisterWorkflows(env, next, wfs[1..], tt)
  {
    hide RegisterWorkflow, UnregisterWorkflow, FilterByWorkflowID;
  }

  lemma FirstIsOther(wfs: seq<Workflow>)
    requires wfs != [] && DistinctWorkflows(wfs)
    ensures wfs[0].id !in WorkflowIDs(wfs[1..]) && DistinctWorkflows(wfs[1..])
    ensures WorkflowIDs(wfs) == {wfs[0].id} + WorkflowIDs(wfs[1..])
  {
    forall v | v in wfs[1..]
      ensures v.id != wfs[0].id
    {
      var j :| 0 <= j < |wfs[1..]| && wfs[1..][j] == v;
      assert wfs[0].id != wfs[j + 1].id;
    }
    assert forall v :: v in wfs <==> v == wfs[0] || v in wfs[1..];
  }

  lemma {:induction false} OthersShrink(env: Env, st: State, wfs: seq<Workflow>, tt: seq<Trigger>, w: nat)
    requires Fresh(env.alloc) && NoLeaks(st) && DistinctTriggers(tt) && w !in WorkflowIDs(wfs)
    ensures Shrinks(st, RegisterWorkflows(env, st, wfs, tt).0, w)
    decreases |wfs|
  {
    hide NoLeaks, Fresh, DistinctTriggers, RegisterStep, LiveTriggers, HandlersOf, Shrinks, RegisterWorkflows, Harmless;
    if wfs == [] {
      NothingToRegister(env, st, tt);
      ShrinksToItself(st, w);
    } else {
      var (next, failed) := RegisterStep(env, st, wfs[0], tt);
      assert wfs[0] in wfs && forall v | v in wfs[1..] :: v in wfs;
      RegisterStepExact(env, st, wfs[0], tt, {});
      StepThenRest(env, st, wfs, tt);
      if !failed {
        OthersShrink(env, next, wfs[1..], tt, w);
        ShrinksAgain(st, next, RegisterWorkflows(env, st, wfs, tt).0, w);
      }
    }
  }

  lemma ShrinksToItself(st: State, w: nat)
    ensures Shrinks(st, st, w)
  {
  }

  lemma ShrinksAgain(a: State, b: State, c: State, w: nat)
    requires Shrinks(a, b, w) && Shrinks(b, c, w)
    ensures Shrinks(a, c, w)
  {
  }

  /**
   Exact registration, in every state without leaks: when registerWorkflows succeeds, the live triggers
   of the given workflows are exactly the expected ones and all other handlers are the same as before,
   if and only if at no point a record of a workflow to be unregistered is, by reuse of the handle, the
   live handler of a workflow whose turn does not come later.
   */
  lemma {:induction false} RegistrationIsExact(env: Env, st: State, wfs: seq<Workflow>, tt: seq<Trigger>)
    requires Fresh(env.alloc) && NoLeaks(st) && DistinctTriggers(tt) && DistinctWorkflows(wfs)
    ensures var (r, failed) := RegisterWorkflows(env, st, wfs, tt);
            && NoLeaks(r)
            && (AliasFree(env, st, wfs, tt) ==> OthersUntouched(st, r, WorkflowIDs(wfs)))
            && (!failed ==>
                  (AliasFree(env, st, wfs, tt) <==>
                   OthersUntouched(st, r, WorkflowIDs(wfs)) && AllExpected(env, r, wfs, tt)))
    decreases |wfs|
  {
    hide NoLeaks, Fresh, DistinctTriggers, DistinctWorkflows, RegisterStep, RegisterWorkflows, LiveTriggers, HandlersOf,
         Harmless, Shrinks, Expected, WorkflowIDs;
    if wfs == [] {
      NothingToRegister(env, st, tt);
    } else {
      var wf, rest := wfs[0], wfs[1..];
      var (next, failed) := RegisterStep(env, st, wf, tt);
      FirstIsOther(wfs);
      RegisterStepExact(env, st, wf, tt, WorkflowIDs(rest));
      StepThenRest(env, st, wfs, tt);
      if !failed {
        RegistrationIsExact(env, next, rest, tt);
        ExactStepThenRest(env, st, wfs, tt);
      }
    }
  }

  lemma NothingToRegister(env: Env, st: State, tt: seq<Trigger>)
    ensures RegisterWorkflows(env, st, [], tt) == (st, false)
  {
  }

  // How exactness of the rest and of the first step add up.
  lemma ExactStepThenRest(env: Env, st: State, wfs: seq<Workflow>, tt: seq<Trigger>)
    requires Fresh(env.alloc) && NoLeaks(st) && DistinctTriggers(tt) && DistinctWorkflows(wfs) && wfs != []
    requires !RegisterStep(env, st, wfs[0], tt).1
    ensures var next := RegisterStep(env, st, wfs[0], tt).0;
            var r := RegisterWorkflows(env, next, wfs[1..], tt).0;
            && (OthersUntouched(st, next, WorkflowIDs(wfs)) && OthersUntouched(next, r, WorkflowIDs(wfs[1..]))
                ==> OthersUntouched(st, r, WorkflowIDs(wfs)))
            && (OthersUntouched(next, r, WorkflowIDs(wfs[1..])) && AllExpected(env, r, wfs[1..], tt)
                ==> AllExpected(env, r, wfs, tt))
            && (OthersUntouched(st, r, WorkflowIDs(wfs)) && AllExpected(env, r, wfs, tt) ==>
                  && OthersUntouched(st, next, WorkflowIDs(wfs)) && OthersUntouched(next, r, WorkflowIDs(wfs[1..]))
                  && AllExpected(env, r, wfs[1..], tt))
  {
    hide NoLeaks, Fresh, DistinctTriggers, DistinctWorkflows, RegisterStep, RegisterWorkflows, LiveTriggers, HandlersOf,
         Harmless, Shrinks, Expected, WorkflowIDs;
    var wf, rest := wfs[0], wfs[1..];
    var next := RegisterStep(env, st, wf, tt).0;
    var r := RegisterWorkflows(env, next, rest, tt).0;
    FirstIsOther(wfs);
    RegisterStepExact(env, st, wf, tt, WorkflowIDs(rest));
    assert wf in wfs && forall v :: v in wfs <==> v == wf || v in rest;
    if OthersUntouched(next, r, WorkflowIDs(rest)) {
      SameHandlersSameTriggers(r, next, wf.id);
    }
    if OthersUntouched(st, r, WorkflowIDs(wfs)) && AllExpected(env, r, wfs, tt) {
      OthersShrink(env, next, rest, tt, wf.id);
      SameTriggersSameHandlers(next, r, wf.id);
      forall w | w !in WorkflowIDs(wfs)
        ensures HandlersOf(next, w) == HandlersOf(st, w) == HandlersOf(r, w)
      {
        OthersShrink(env, next, rest, tt, w);
        SameInBetween(st, next, r, w);
      }
    }
  }

  lemma HarmlessAnyway(st: State, w: nat, later: set<nat>)
    requires Harmless(st, w, {})
    ensures Harmless(st, w, later)
  {
  }

  /** A settled registry is free of aliases, and stays settled. */
  lemma {:induction false} SettledIsAliasFree(env: Env, st: State, wfs: seq<Workflow>, tt: seq<Trigger>)
    requires Fresh(env.alloc) && Settled(env.alloc, st) && DistinctTriggers(tt)
    ensures AliasFree(env, st, wfs, tt) && Settled(env.alloc, RegisterWorkflows(env, st, wfs, tt).0)
    decreases |wfs|
  {
    hide Fresh, DistinctTriggers, RegisterStep, LiveTriggers, HandlersOf, Shrinks, Expected, Harmless,
         RegisterWorkflows,
         WorkflowIDs, SettledEntries;
    if wfs == [] {
      NothingToRegister(env, st, tt);
    } else {
      var (next, failed) := RegisterStep(env, st, wfs[0], tt);
      UnregisterWorkflowKeepsSettled(env.alloc, st, wfs[0].id);
      HarmlessAnyway(st, wfs[0].id, WorkflowIDs(wfs[1..]));
      RegisterStepExact(env, st, wfs[0], tt, {});
      StepThenRest(env, st, wfs, tt);
      if !failed {
        SettledIsAliasFree(env, next, wfs[1..], tt);
      }
    }
  }

  /**
   For a single workflow there is nothing to lose but handlers of others: its own live triggers are
   exact in every state without leaks, and the others are untouched if and only if none of its records
   is the live handler of another workflow.
   */
  lemma OneRegistrationIsExact(env: Env, st: State, wf: Workflow, tt: seq<Trigger>)
    requires Fresh(env.alloc) && NoLeaks(st) && DistinctTriggers(tt)
    ensures var (r, failed) := RegisterWorkflows(env, st, [wf], tt);
            && (!failed ==> LiveTriggers(r, wf.id) == Expected(env, wf, tt))
            && (OthersUntouched(st, r, {wf.id}) <==> Harmless(st, wf.id, {}))
  {
    hide NoLeaks, Fresh, DistinctTriggers, RegisterStep, LiveTriggers, HandlersOf, Harmless, Shrinks, Expected;
    assert [wf][1..] == [];
    StepThenRest(env, st, [wf], tt);
    NothingToRegister(env, RegisterStep(env, st, wf, tt).0, tt);
    RegisterStepExact(env, st, wf, tt, {});
    assert {wf.id} + {} == {wf.id};
  }

  /** A new trigger of an existing workflow (automation/service/trigger.go:188-243) is exact too. */
  lemma NewTriggerIsExact(env: Env, st: State, wf: Workflow, t: Trigger)
    requires Fresh(env.alloc) && NoLeaks(st) && t.workflowID == wf.id
    requires forall w | w in st.reg :: t.id !in st.reg[w]
    ensures var (r, failed) := RegisterWorkflow(env, st, wf, [t]);
            && NoLeaks(r) && (Settled(env.alloc, st) ==> Settled(env.alloc, r))
            && (forall w | w != wf.id :: HandlersOf(r, w) == HandlersOf(st, w))
            && (!failed ==>
                  var added := env.register && Executable(wf) && wf.issues == [] && TriggersClean(wf, [t]) && Active(t);
                  LiveTriggers(r, wf.id) == LiveTriggers(st, wf.id) + (if added then {t.id} else {}))
  {
    hide NoLeaks, Settled, HandlersOf, LiveTriggers, RegisterTriggers, Fresh, TriggersClean;
    RegisterTriggersExact(env.alloc, st, wf.id, Executable(wf), [t]);
    assert ActiveIDs([t]) == if Active(t) then {t.id} else {};
  }

  // ----- Stale records -----

  lemma RegisterOneOthers(alloc: Allocator, st: State, w: nat, registrable: bool, t: Trigger)
    requires Fresh(alloc) && NoLeaks(st)
    ensures var r := RegisterOne(alloc, st, w, registrable, t);
            && NoLeaks(r) && (forall v | v != w :: Shrinks(st, r, v))
            && (OthersUntouched(st, r, {w}) <==> RecordHarmless(st, w, t))
  {
    var r := RegisterOne(alloc, st, w, registrable, t);
    RegisterOneKeepsNoLeaks(alloc, st, w, registrable, t);
    assert forall h | h in r.live :: r.live[h] == Owner(w, t.id) || (h in st.live && st.live[h] == r.live[h]);
    hide NoLeaks, Fresh;
    if RecordHarmless(st, w, t) {
      HarmlessRecordLeavesOthers(alloc, st, w, registrable, t);
    } else {
      HarmfulRecordRemoves(alloc, st, w, registrable, t);
    }
  }

  lemma HarmlessRecordLeavesOthers(alloc: Allocator, st: State, w: nat, registrable: bool, t: Trigger)
    requires Fresh(alloc) && NoLeaks(st) && RecordHarmless(st, w, t)
    ensures OthersUntouched(st, RegisterOne(alloc, st, w, registrable, t), {w})
  {
    var r := RegisterOne(alloc, st, w, registrable, t);
    assert forall h | h in r.live :: r.live[h] == Owner(w, t.id) || (h in st.live && st.live[h] == r.live[h]);
    assert forall h | h in st.live && st.live[h].workflowID != w :: h in r.live && r.live[h] == st.live[h];
    hide NoLeaks, Fresh, RegisterOne;
    forall v | v != w
      ensures HandlersOf(r, v) == HandlersOf(st, v)
    {
    }
  }

  lemma HarmfulRecordRemoves(alloc: Allocator, st: State, w: nat, registrable: bool, t: Trigger)
    requires Fresh(alloc) && NoLeaks(st) && !RecordHarmless(st, w, t)
    ensures !OthersUntouched(st, RegisterOne(alloc, st, w, registrable, t), {w})
  {
    var r := RegisterOne(alloc, st, w, registrable, t);
    var h := Entries(st, w)[t.id];
    var v := st.live[h].workflowID;
    assert h in HandlersOf(st, v);
    assert h !in r.live || r.live[h] == Owner(w, t.id);
    assert h !in HandlersOf(r, v);
  }

  /** The record of the trigger is not the live handler of another workflow. */
  predicate RecordHarmless(st: State, w: nat, t: Trigger) {
    var e := Entries(st, w);
    t.id in e && e[t.id] in st.live ==> st.live[e[t.id]].workflowID == w
  }

  predicate RegistersHarmlessly(alloc: Allocator, st: State, w: nat, registrable: bool, tt: seq<Trigger>)
    decreases |tt|
  {
    tt != [] ==>
      && RecordHarmless(st, w, tt[0])
      && RegistersHarmlessly(alloc, RegisterOne(alloc, st, w, registrable, tt[0]), w, registrable, tt[1..])
  }

  lemma {:induction false} RegisterTriggersOthers(alloc: Allocator, st: State, w: nat, registrable: bool,
          tt: seq<Trigger>)
    requires Fresh(alloc) && NoLeaks(st)
    ensures var r := RegisterTriggers(alloc, st, w, registrable, tt);
            && (forall v | v != w :: Shrinks(st, r, v))
            && (OthersUntouched(st, r, {w}) <==> RegistersHarmlessly(alloc, st, w, registrable, tt))
    decreases |tt|
  {
    hide NoLeaks, Fresh, RegisterOne, HandlersOf, Shrinks, RecordHarmless;
    if tt == [] {
      forall v | v != w
        ensures Shrinks(st, st, v)
      {
        ShrinksToItself(st, v);
      }
    } else {
      var next, r := RegisterOne(alloc, st, w, registrable, tt[0]), RegisterTriggers(alloc, st, w, registrable, tt);
      RegisterOneOthers(alloc, st, w, registrable, tt[0]);
      RegisterTriggersOthers(alloc, next, w, registrable, tt[1..]);
      forall v | v != w
        ensures Shrinks(st, r, v)
        ensures HandlersOf(r, v) == HandlersOf(st, v) ==> HandlersOf(next, v) == HandlersOf(st, v) == HandlersOf(r, v)
      {
        ShrinksAgain(st, next, r, v);
        if HandlersOf(r, v) == HandlersOf(st, v) {
          SameInBetween(st, next, r, v);
        }
      }
    }
  }

  /** No record met by a lock-held part is the live handler of another workflow. */
  predicate PartHarmless(alloc: Allocator, st: State, call: Call)
    requires !call.UnregisterSome?
  {
    match call
    case Register(w, registrable, tt) => RegistersHarmlessly(alloc, st, w, registrable, tt)
    case UnregisterAll(w) => Harmless(st, w, {})
  }

  /**
   For each lock-held part of concurrent calls: it leaves the handlers of all other workflows alone if
   and only if no record it meets is, by reuse of the handle, the live handler of one of them.
   */
  lemma PartLeavesOthersIff(alloc: Allocator, st: State, call: Call)
    requires Fresh(alloc) && NoLeaks(st) && !call.UnregisterSome?
    ensures OthersUntouched(st, Apply(alloc, st, call), {call.wfID}) <==> PartHarmless(alloc, st, call)
  {
    hide NoLeaks, Fresh, HandlersOf, Harmless, Shrinks, LiveTriggers, UnregisterWorkflow, RegistersHarmlessly;
    match call {
      case Register(w, registrable, tt) => RegisterTriggersOthers(alloc, st, w, registrable, tt);
      case UnregisterAll(w) =>
        UnregisterWorkflowExact(st, w, {});
        assert {w} + {} == {w};
    }
  }

  // ----- Unregistering single triggers -----

  /** The triggers before the first one whose workflow has no registry entry. */
  function Reached(st: State, tt: seq<Trigger>): (r: seq<Trigger>)
    ensures |r| <= |tt| && r == tt[..|r|]
  {
    if tt == [] || tt[0].workflowID !in st.reg then [] else [tt[0]] + Reached(st, tt[1..])
  }

  predicate IsLive(st: State, t: Trigger) {
    exists h | h in st.live :: st.live[h] == Owner(t.workflowID, t.id)
  }

  /** Records that are live at all are live for their own owner. */
  predicate NoAlias(st: State) {
    forall w | w in st.reg :: NoAliasEntries(st, w, st.reg[w])
  }

  predicate NoAliasEntries(st: State, w: nat, entries: map<nat, nat>) {
    forall t | t in entries && entries[t] in st.live :: st.live[entries[t]] == Owner(w, t)
  }

  function Owners(tt: seq<Trigger>): set<Owner> {
    set t | t in tt :: Owner(t.workflowID, t.id)
  }

  lemma {:induction false} UnregisterTriggersExact(st: State, tt: seq<Trigger>)
    requires NoLeaks(st) && NoAlias(st)
    ensures var r := UnregisterTriggers(st, tt);
            && r.reg == st.reg
            && forall h :: h in r.live <==> h in st.live && st.live[h] !in Owners(Reached(st, tt))
    ensures forall h | h in UnregisterTriggers(st, tt).live :: UnregisterTriggers(st, tt).live[h] == st.live[h]
    decreases |tt|
  {
    if tt != [] && tt[0].workflowID in st.reg {
      var t, entries := tt[0], st.reg[tt[0].workflowID];
      var st' := if t.id in entries then st.(live := st.live - {entries[t.id]}) else st;
      assert NoAliasEntries(st, t.workflowID, entries);
      forall w | w in st'.reg
        ensures NoAliasEntries(st', w, st'.reg[w])
      {
        assert NoAliasEntries(st, w, st.reg[w]);
      }
      forall h | h in st.live
        ensures Recorded(st', h, st.live[h])
        ensures h !in st'.live <==> st.live[h] == Owner(t.workflowID, t.id)
      {
        assert Recorded(st, h, st.live[h]);
      }
      UnregisterTriggersExact(st', tt[1..]);
      SameRegSameReached(st, st', tt[1..]);
      var reached := Reached(st, tt);
      assert Owners(reached) == {Owner(t.workflowID, t.id)} + Owners(Reached(st, tt[1..])) by {
        assert forall x :: x in reached <==> x == t || x in Reached(st, tt[1..]);
      }
    }
  }

  lemma {:induction false} SameRegSameReached(a: State, b: State, tt: seq<Trigger>)
    requires a.reg == b.reg
    ensures Reached(a, tt) == Reached(b, tt)
  {
    if tt != [] {
      SameRegSameReached(a, b, tt[1..]);
    }
  }

  /**
   unregisterTriggers returns early: it removes all given triggers if and only if those behind
   the first trigger of an unknown workflow were not live, or occur before it as well.
   */
  lemma UnregistersAllIff(st: State, tt: seq<Trigger>)
    requires NoLeaks(st) && NoAlias(st)
    ensures (forall t | t in tt :: !IsLive(UnregisterTriggers(st, tt), t)) <==>
            forall t | t in tt[|Reached(st, tt)|..] ::
              IsLive(st, t) ==> Owner(t.workflowID, t.id) in Owners(Reached(st, tt))
  {
    UnregisterTriggersExact(st, tt);
    var k, r := |Reached(st, tt)|, UnregisterTriggers(st, tt);
    forall t | t in tt
      ensures IsLive(r, t) <==> IsLive(st, t) && Owner(t.workflowID, t.id) !in Owners(Reached(st, tt))
    {
      if IsLive(st, t) && Owner(t.workflowID, t.id) !in Owners(Reached(st, tt)) {
        var h :| h in st.live && st.live[h] == Owner(t.workflowID, t.id);
        assert h in r.live;
      }
    }
    assert forall t :: t in tt <==> t in tt[..k] || t in tt[k..] by { assert tt == tt[..k] + tt[k..]; }
    assert forall t | t in tt[..k] :: Owner(t.workflowID, t.id) in Owners(Reached(st, tt));
  }

  // ----- Handles that are never used again -----

  /** Later registrations give out other handles than earlier ones. */
  ghost predicate Unique(alloc: Allocator) {
    forall a: set<nat>, b: set<nat>, m: nat, n: nat | m < n :: alloc(a, m) != alloc(b, n)
  }

  ghost predicate GivenBefore(alloc: Allocator, n: nat, h: nat) {
    exists live: set<nat>, k: nat | k < n :: alloc(live, k) == h
  }

  ghost predicate AllGiven(alloc: Allocator, st: State) {
    forall w | w in st.reg :: AllGivenEntries(alloc, st.count, st.reg[w])
  }

  ghost predicate AllGivenEntries(alloc: Allocator, n: nat, entries: map<nat, nat>) {
    forall t | t in entries :: GivenBefore(alloc, n, entries[t])
  }

  ghost predicate Orderly(alloc: Allocator, st: State) {
    NoLeaks(st) && NoAlias(st) && AllGiven(alloc, st)
  }

  lemma GivenStaysGiven(alloc: Allocator, m: nat, n: nat, entries: map<nat, nat>)
    requires m <= n && AllGivenEntries(alloc, m, entries)
    ensures AllGivenEntries(alloc, n, entries)
  {
    forall t | t in entries
      ensures GivenBefore(alloc, n, entries[t])
    {
      var live: set<nat>, k: nat :| k < m && alloc(live, k) == entries[t];
    }
  }

  /** The state once the recorded handler of a trigger is removed and the workflow has an entry. */
  function Removed(st: State, wfID: nat, id: nat): State {
    var entries := Entries(st, wfID);
    State(st.reg[wfID := entries],
          if id in entries && entries[id] != 0 then st.live - {entries[id]} else st.live,
          st.count)
  }

  lemma RemovingKeepsOrder(alloc: Allocator, st: State, wfID: nat, id: nat)
    requires NoAlias(st) && AllGiven(alloc, st)
    ensures var r := Removed(st, wfID, id); NoAlias(r) && AllGiven(alloc, r) && wfID in r.reg
  {
    hide GivenBefore;
    var r := Removed(st, wfID, id);
    forall w | w in r.reg
      ensures NoAliasEntries(r, w, r.reg[w]) && AllGivenEntries(alloc, r.count, r.reg[w])
    {
      if w in st.reg {
        assert NoAliasEntries(st, w, st.reg[w]) && AllGivenEntries(alloc, st.count, st.reg[w]);
      }
    }
  }

  lemma RegisterOneKeepsOrder(alloc: Allocator, st: State, wfID: nat, registrable: bool, t: Trigger)
    requires Fresh(alloc) && Unique(alloc) && Orderly(alloc, st)
    ensures Orderly(alloc, RegisterOne(alloc, st, wfID, registrable, t))
  {
    hide NoLeaks, NoAlias, AllGiven, Fresh, Unique, RegisterOne, Removed;
    RegisterOneKeepsNoLeaks(alloc, st, wfID, registrable, t);
    RemovingKeepsOrder(alloc, st, wfID, t.id);
    AddingKeepsOrder(alloc, Removed(st, wfID, t.id), Owner(wfID, t.id));
    RemovedThenAdded(alloc, st, wfID, registrable, t);
  }

  lemma RemovedThenAdded(alloc: Allocator, st: State, wfID: nat, registrable: bool, t: Trigger)
    ensures var off := Removed(st, wfID, t.id);
            && wfID in off.reg
            && RegisterOne(alloc, st, wfID, registrable, t) ==
               if !registrable || !Active(t) then off
               else
                 var h, entries: map<nat, nat> := alloc(off.live.Keys, off.count), off.reg[wfID];
                 State(off.reg[wfID := entries[t.id := h]], off.live[h := Owner(wfID, t.id)], off.count + 1)
  {
  }

  lemma AddingKeepsOrder(alloc: Allocator, st: State, o: Owner)
    requires Unique(alloc) && NoAlias(st) && AllGiven(alloc, st) && o.workflowID in st.reg
    ensures var h := alloc(st.live.Keys, st.count);
            var entries: map<nat, nat> := st.reg[o.workflowID];
            var r := State(st.reg[o.workflowID := entries[o.triggerID := h]], st.live[h := o], st.count + 1);
            NoAlias(r) && AllGiven(alloc, r)
  {
    var h := alloc(st.live.Keys, st.count);
    var entries: map<nat, nat> := st.reg[o.workflowID];
    var r := State(st.reg[o.workflowID := entries[o.triggerID := h]], st.live[h := o], st.count + 1);
    assert GivenBefore(alloc, r.count, h);
    forall w | w in r.reg
      ensures NoAliasEntries(r, w, r.reg[w]) && AllGivenEntries(alloc, r.count, r.reg[w])
    {
      assert NoAliasEntries(st, w, st.reg[w]) && AllGivenEntries(alloc, st.count, st.reg[w]);
      GivenStaysGiven(alloc, st.count, r.count, st.reg[w]);
      forall t | t in st.reg[w]
        ensures st.reg[w][t] != h
      {
        assert GivenBefore(alloc, st.count, st.reg[w][t]);
      }
    }
  }

  lemma UnregisterWorkflowKeepsOrder(alloc: Allocator, st: State, wfID: nat)
    requires Orderly(alloc, st)
    ensures Orderly(alloc, UnregisterWorkflow(st, wfID))
  {
    var r := UnregisterWorkflow(st, wfID);
    UnregisterWorkflowKeepsNoLeaks(st, wfID);
    forall w | w in r.reg
      ensures NoAliasEntries(r, w, r.reg[w]) && AllGivenEntries(alloc, r.count, r.reg[w])
    {
      assert NoAliasEntries(st, w, st.reg[w]) && AllGivenEntries(alloc, st.count, st.reg[w]);
    }
  }

  lemma {:induction false} UnregisterTriggersKeepsOrder(alloc: Allocator, st: State, tt: seq<Trigger>)
    requires Orderly(alloc, st)
    ensures Orderly(alloc, UnregisterTriggers(st, tt))
  {
    UnregisterTriggersKeepsNoLeaks(st, tt);
    UnregisterTriggersExact(st, tt);
    var r := UnregisterTriggers(st, tt);
    UnregisterTriggersKeepsCount(st, tt);
    forall w | w in r.reg
      ensures NoAliasEntries(r, w, r.reg[w])
    {
      assert NoAliasEntries(st, w, st.reg[w]);
    }
  }

  lemma {:induction false} UnregisterTriggersKeepsCount(st: State, tt: seq<Trigger>)
    ensures UnregisterTriggers(st, tt).count == st.count
    decreases |tt|
  {
    if tt != [] && tt[0].workflowID in st.reg {
      var entries := st.reg[tt[0].workflowID];
      var next := if tt[0].id in entries then st.(live := st.live - {entries[tt[0].id]}) else st;
      UnregisterTriggersKeepsCount(next, tt[1..]);
    }
  }

  lemma {:induction false} RegisterTriggersKeepsOrder(alloc: Allocator, st: State, wfID: nat, registrable: bool,
          tt: seq<Trigger>)
    requires Fresh(alloc) && Unique(alloc) && Orderly(alloc, st)
    ensures Orderly(alloc, RegisterTriggers(alloc, st, wfID, registrable, tt))
    decreases |tt|
  {
    hide Orderly, RegisterOne, Fresh, Unique;
    if tt != [] {
      RegisterOneKeepsOrder(alloc, st, wfID, registrable, tt[0]);
      RegisterTriggersKeepsOrder(alloc, RegisterOne(alloc, st, wfID, registrable, tt[0]), wfID, registrable, tt[1..]);
    }
  }

  lemma {:induction false} RunsKeepOrder(alloc: Allocator, st: State, calls: seq<Call>)
    requires Fresh(alloc) && Unique(alloc) && Orderly(alloc, st)
    ensures Orderly(alloc, Run(alloc, st, calls))
    decreases |calls|
  {
    hide Orderly, Fresh, Unique;
    if calls != [] {
      match calls[0] {
        case Register(w, r, tt) => RegisterTriggersKeepsOrder(alloc, st, w, r, tt);
        case UnregisterAll(w) => UnregisterWorkflowKeepsOrder(alloc, st, w);
        case UnregisterSome(tt) => UnregisterTriggersKeepsOrder(alloc, st, tt);
      }
      RunsKeepOrder(alloc, Apply(alloc, st, calls[0]), calls[1..]);
    }
  }

  lemma OrderlyIsSettled(alloc: Allocator, st: State)
    requires Unique(alloc) && Orderly(alloc, st)
    ensures Settled(alloc, st)
  {
    forall w | w in st.reg
      ensures SettledEntries(alloc, st, w, st.reg[w])
    {
      assert NoAliasEntries(st, w, st.reg[w]) && AllGivenEntries(alloc, st.count, st.reg[w]);
      forall t | t in st.reg[w]
        ensures NotGivenFrom(alloc, st.count, st.reg[w][t])
      {
        assert GivenBefore(alloc, st.count, st.reg[w][t]);
      }
    }
  }

  /**
   Addresses that are never used again are never aliased: every registration after every interleaving
   of lock-held parts is exact, and unregistering triggers never touches a foreign handler, stale
   records or not.
   */
  lemma UniqueHandlesAreNeverAliased(env: Env, calls: seq<Call>, wfs: seq<Workflow>, tt: seq<Trigger>)
    requires Fresh(env.alloc) && Unique(env.alloc) && DistinctTriggers(tt)
    ensures var st := Run(env.alloc, EMPTY, calls);
            NoLeaks(st) && NoAlias(st) && AliasFree(env, st, wfs, tt)
  {
    var st := Run(env.alloc, EMPTY, calls);
    assert Orderly(env.alloc, EMPTY);
    RunsKeepOrder(env.alloc, EMPTY, calls);
    OrderlyIsSettled(env.alloc, st);
    SettledIsAliasFree(env, st, wfs, tt);
  }
}
