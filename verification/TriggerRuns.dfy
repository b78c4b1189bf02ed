/**
 Runs of the trigger service through its entry points (automation/service/trigger.go:188-306,
 414-513): registering workflows, creating triggers, and editing them. One after another they are
 exact; the lock-held parts of concurrent calls may interleave.
 */
module TriggerRuns {
  import opened WorkflowTypes
  import opened Workflows
  import opened Triggers
  import TriggerService

  // ----- No stale records -----

  lemma RegisterOneKeepsNoStale(alloc: Allocator, st: State, wfID: nat, registrable: bool, t: Trigger)
    requires Fresh(alloc) && NoStale(st) && t.id !in Entries(st, wfID)
    ensures NoStale(RegisterOne(alloc, st, wfID, registrable, t))
    ensures forall id | id in Entries(RegisterOne(alloc, st, wfID, registrable, t), wfID) ::
              id == t.id || id in Entries(st, wfID)
  {
    var r := RegisterOne(alloc, st, wfID, registrable, t);
    forall w | w in r.reg
      ensures NoStaleEntries(r, w, r.reg[w])
    {
      if w in st.reg {
        assert NoStaleEntries(st, w, st.reg[w]);
      }
    }
  }

  lemma {:induction false} RegisterTriggersKeepsNoStale(alloc: Allocator, st: State, wfID: nat, registrable: bool,
          tt: seq<Trigger>)
    requires Fresh(alloc) && NoStale(st) && DistinctTriggers(tt)
    requires forall t | t in tt :: t.id !in Entries(st, wfID)
    ensures NoStale(RegisterTriggers(alloc, st, wfID, registrable, tt))
    decreases |tt|
  {
    hide NoStale, RegisterOne, Fresh, Entries;
    if tt != [] {
      assert tt[0] in tt;
      RegisterOneKeepsNoStale(alloc, st, wfID, registrable, tt[0]);
      var next := RegisterOne(alloc, st, wfID, registrable, tt[0]);
      forall t | t in tt[1..]
        ensures t.id !in Entries(next, wfID)
      {
        var j :| 0 <= j < |tt[1..]| && tt[1..][j] == t;
        assert tt[0].id != tt[j + 1].id;
      }
      RegisterTriggersKeepsNoStale(alloc, next, wfID, registrable, tt[1..]);
    }
  }

  lemma UnregisterWorkflowKeepsNoStale(st: State, wfID: nat)
    requires NoStale(st)
    ensures NoStale(UnregisterWorkflow(st, wfID)) && Entries(UnregisterWorkflow(st, wfID), wfID) == map[]
  {
    var r := UnregisterWorkflow(st, wfID);
    assert wfID in st.reg ==> NoStaleEntries(st, wfID, st.reg[wfID]);
    forall w | w in r.reg
      ensures NoStaleEntries(r, w, r.reg[w])
    {
      assert NoStaleEntries(st, w, st.reg[w]);
    }
  }

  lemma {:induction false} RegisterWorkflowsKeepsNoStale(env: Env, st: State, wfs: seq<Workflow>, tt: seq<Trigger>)
    requires Fresh(env.alloc) && NoStale(st) && DistinctTriggers(tt)
    ensures NoStale(RegisterWorkflows(env, st, wfs, tt).0)
    decreases |wfs|
  {
    hide NoStale, Fresh, DistinctTriggers, UnregisterWorkflow, RegisterTriggers, TriggersClean, Entries;
    if wfs != [] {
      var wf := wfs[0];
      var st' := UnregisterWorkflow(st, wf.id);
      UnregisterWorkflowKeepsNoStale(st, wf.id);
      FilterKeepsDistinct(tt, wf.id);
      RegisterTriggersKeepsNoStale(env.alloc, st', wf.id, Executable(wf), FilterByWorkflowID(tt, wf.id));
      if wf.enabled && wf.deletedAt.None? && wf.issues == [] {
        var next := RegisterWorkflow(env, st', wf, FilterByWorkflowID(tt, wf.id)).0;
        RegisterWorkflowsKeepsNoStale(env, next, wfs[1..], tt);
      } else {
        RegisterWorkflowsKeepsNoStale(env, st', wfs[1..], tt);
      }
    }
  }

  lemma NoStaleIsSettled(alloc: Allocator, st: State)
    requires NoLeaks(st) && NoStale(st)
    ensures Settled(alloc, st)
  {
    forall w | w in st.reg
      ensures SettledEntries(alloc, st, w, st.reg[w])
    {
      assert NoStaleEntries(st, w, st.reg[w]);
    }
  }

  // ----- One entry point after another -----

  /** The bus with its registry, and the stored triggers. */
  datatype System = System(bus: State, stored: seq<Trigger>)

  /**
   Entry points; `users` tells which run-as users are valid at the time, `commits` whether the
   transaction around storing and registering a new trigger commits in the end.
   */
  datatype Entry =
    | RegisterAll(wfs: seq<Workflow>, users: nat -> bool)
    | Create(wf: Workflow, trigger: Trigger, users: nat -> bool, commits: bool)
    | Edit(position: nat, trigger: Trigger)

  function EnvOf(env: Env, e: Entry): Env {
    if e.Edit? then env else env.(validUser := e.users)
  }

  /** The new state and whether the call failed. */
  function EntryStep(env: Env, sys: System, e: Entry): (System, bool) {
    match e
    case RegisterAll(wfs, users) =>
      var tt := TriggerService.Search(sys.stored, WorkflowIDs(wfs));
      var (bus, failed) := RegisterWorkflows(EnvOf(env, e), sys.bus, wfs, tt);
      (System(bus, sys.stored), failed)
    case Create(wf, t, users, commits) =>
      var (bus, failed) := RegisterWorkflow(EnvOf(env, e), sys.bus, wf, [t]);
      if failed || !commits then (System(bus, sys.stored), true) else (System(bus, sys.stored + [t]), false)
    case Edit(k, t) => (if k < |sys.stored| then sys.(stored := sys.stored[k := t]) else sys, false)
  }

  /** Workflows come once each, new triggers have new IDs, and editing keeps ID and workflow. */
  predicate PossibleEntry(sys: System, e: Entry) {
    match e
    case RegisterAll(wfs, _) => DistinctWorkflows(wfs)
    case Create(wf, t, _, _) =>
      && t.workflowID == wf.id
      && (forall w | w in sys.bus.reg :: t.id !in sys.bus.reg[w])
      && (forall s | s in sys.stored :: s.id != t.id)
    case Edit(k, t) => k < |sys.stored| && t.id == sys.stored[k].id && t.workflowID == sys.stored[k].workflowID
  }

  function RunEntries(env: Env, sys: System, entries: seq<Entry>): System
    decreases |entries|
  {
    if entries == [] then sys else RunEntries(env, EntryStep(env, sys, entries[0]).0, entries[1..])
  }

  predicate PossibleEntries(env: Env, sys: System, entries: seq<Entry>)
    decreases |entries|
  {
    entries != [] ==>
      PossibleEntry(sys, entries[0]) && PossibleEntries(env, EntryStep(env, sys, entries[0]).0, entries[1..])
  }

  /** Records and handlers correspond one to one, and stored triggers have their own IDs. */
  predicate InOrder(sys: System) {
    NoLeaks(sys.bus) && NoStale(sys.bus) && DistinctTriggers(sys.stored)
  }

  lemma NoOtherEntries(st: State, w: nat, t: Trigger)
    requires forall v | v in st.reg :: t.id !in st.reg[v]
    ensures t.id !in Entries(st, w)
  {
  }

  lemma CreateKeepsNoStale(env: Env, st: State, wf: Workflow, t: Trigger)
    requires Fresh(env.alloc) && NoStale(st) && forall w | w in st.reg :: t.id !in st.reg[w]
    ensures NoStale(RegisterWorkflow(env, st, wf, [t]).0)
  {
    hide NoStale, Fresh, RegisterTriggers, TriggersClean, Entries;
    NoOtherEntries(st, wf.id, t);
    RegisterTriggersKeepsNoStale(env.alloc, st, wf.id, Executable(wf), [t]);
  }

  lemma EntryStepKeeps(env: Env, sys: System, e: Entry)
    requires Fresh(env.alloc) && InOrder(sys) && PossibleEntry(sys, e)
    ensures InOrder(EntryStep(env, sys, e).0)
  {
    hide NoLeaks, NoStale, RegisterWorkflows, RegisterWorkflow, Fresh, TriggerService.Search;
    NoStaleIsSettled(env.alloc, sys.bus);
    match e {
      case RegisterAll(wfs, _) =>
        var tt := TriggerService.Search(sys.stored, WorkflowIDs(wfs));
        TriggerService.SearchKeepsDistinct(sys.stored, WorkflowIDs(wfs));
        RegisterWorkflowsKeepsNoStale(EnvOf(env, e), sys.bus, wfs, tt);
        RegistrationIsExact(EnvOf(env, e), sys.bus, wfs, tt);
      case Create(wf, t, _, _) =>
        CreateKeepsNoStale(EnvOf(env, e), sys.bus, wf, t);
        NewTriggerIsExact(EnvOf(env, e), sys.bus, wf, t);
      case Edit(_, _) =>
    }
  }

  lemma {:induction false} RunKeepsOrder(env: Env, sys: System, entries: seq<Entry>)
    requires Fresh(env.alloc) && InOrder(sys) && PossibleEntries(env, sys, entries)
    ensures InOrder(RunEntries(env, sys, entries))
    decreases |entries|
  {
    hide InOrder, EntryStep, PossibleEntry, Fresh;
    if entries != [] {
      EntryStepKeeps(env, sys, entries[0]);
      RunKeepsOrder(env, EntryStep(env, sys, entries[0]).0, entries[1..]);
    }
  }

  const NOTHING: System := System(EMPTY, [])

  /**
   Without concurrent calls registration is exact in every run, even when the bus gives out the
   addresses of removed handlers again: there is never a stale record, the next registration makes
   exactly the expected triggers live, and it leaves the handlers of other workflows alone.
   */
  lemma SerialRunsAreExact(env: Env, entries: seq<Entry>, wfs: seq<Workflow>, tt: seq<Trigger>)
    requires Fresh(env.alloc) && PossibleEntries(env, NOTHING, entries)
    requires DistinctTriggers(tt) && DistinctWorkflows(wfs)
    ensures var st := RunEntries(env, NOTHING, entries).bus;
            var (r, failed) := RegisterWorkflows(env, st, wfs, tt);
            && NoLeaks(st) && NoStale(st)
            && OthersUntouched(st, r, WorkflowIDs(wfs)) && (!failed ==> AllExpected(env, r, wfs, tt))
  {
    assert InOrder(NOTHING);
    RunKeepsOrder(env, NOTHING, entries);
    var st := RunEntries(env, NOTHING, entries).bus;
    NoStaleIsSettled(env.alloc, st);
    SettledIsAliasFree(env, st, wfs, tt);
    RegistrationIsExact(env, st, wfs, tt);
  }

  /**
   After any interleaving of lock-held parts, with addresses used again: registering a workflow makes
   exactly the expected triggers of it live, whatever records are stale, and leaves all other handlers
   alone if and only if none of its records is the live handler of another workflow; for several
   workflows at once both hold if and only if there is no such alias at any point.
   */
  lemma InterleavedRunsAreExactIff(env: Env, calls: seq<Call>, wfs: seq<Workflow>, tt: seq<Trigger>)
    requires Fresh(env.alloc) && DistinctTriggers(tt) && DistinctWorkflows(wfs)
    ensures var st := Run(env.alloc, EMPTY, calls);
            var (r, failed) := RegisterWorkflows(env, st, wfs, tt);
            && (|wfs| == 1 ==>
                  && (OthersUntouched(st, r, {wfs[0].id}) <==> Harmless(st, wfs[0].id, {}))
                  && (!failed ==> LiveTriggers(r, wfs[0].id) == Expected(env, wfs[0], tt)))
            && (!failed ==>
                  (AliasFree(env, st, wfs, tt) <==>
                   OthersUntouched(st, r, WorkflowIDs(wfs)) && AllExpected(env, r, wfs, tt)))
  {
    hide Run, RegisterWorkflows, AliasFree, OthersUntouched, AllExpected, LiveTriggers, Harmless, Fresh,
         DistinctTriggers;
    var st := Run(env.alloc, EMPTY, calls);
    assert NoLeaks(EMPTY);
    RunsNeverLeak(env.alloc, EMPTY, calls);
    RegistrationIsExact(env, st, wfs, tt);
    if |wfs| == 1 {
      assert wfs == [wfs[0]];
      OneRegistrationIsExact(env, st, wfs[0], tt);
    }
  }

  // ----- Bus and store -----

  /** The workflow has the triggers live that the store wants. */
  predicate AgreesFor(env: Env, sys: System, wf: Workflow) {
    LiveTriggers(sys.bus, wf.id) == TriggerService.Wanted(env, wf, sys.stored)
  }

  /** A workflow as it was last registered, and the triggers that are live since. */
  datatype Mark = Mark(wf: Workflow, live: set<nat>)

  predicate Marked(sys: System, marks: map<nat, Mark>) {
    forall id | id in marks :: marks[id].wf.id == id && LiveTriggers(sys.bus, id) == marks[id].live
  }

  /** A new trigger that is put on the bus, whether or not its row is kept in the end. */
  predicate Joins(env: Env, sys: System, e: Entry)
    requires e.Create?
  {
    && !RegisterWorkflow(EnvOf(env, e), sys.bus, e.wf, [e.trigger]).1
    && env.register && Executable(e.wf) && e.wf.issues == [] && TriggersClean(e.wf, [e.trigger]) && Active(e.trigger)
  }

  function AllWanted(env: Env, wfs: seq<Workflow>, stored: seq<Trigger>): map<nat, Mark>
    requires DistinctWorkflows(wfs)
  {
    if wfs == [] then map[]
    else
      assert DistinctWorkflows(wfs[1..]);
      AllWanted(env, wfs[1..], stored)[wfs[0].id := Mark(wfs[0], TriggerService.Wanted(env, wfs[0], stored))]
  }

  /**
   What is live after an entry point: what the store wants at a successful registration, and new
   triggers from then on. Edits change nothing, and a failed registration leaves it open.
   */
  function MarksAfter(env: Env, sys: System, marks: map<nat, Mark>, e: Entry): map<nat, Mark>
    requires PossibleEntry(sys, e)
  {
    match e
    case RegisterAll(wfs, _) =>
      if EntryStep(env, sys, e).1 then marks - WorkflowIDs(wfs) else marks + AllWanted(env, wfs, sys.stored)
    case Create(wf, t, _, _) =>
      if wf.id in marks && Joins(env, sys, e) then marks[wf.id := Mark(marks[wf.id].wf, marks[wf.id].live + {t.id})]
      else marks
    case Edit(_, _) => marks
  }

  lemma {:induction false} AllWantedMeaning(env: Env, wfs: seq<Workflow>, stored: seq<Trigger>)
    requires DistinctWorkflows(wfs)
    ensures var m := AllWanted(env, wfs, stored);
            && m.Keys == WorkflowIDs(wfs)
            && (forall wf | wf in wfs :: wf.id in m && m[wf.id] == Mark(wf, TriggerService.Wanted(env, wf, stored)))
            && (forall id | id in m :: m[id].wf in wfs && m[id].wf.id == id)
  {
    hide TriggerService.Wanted;
    if wfs != [] {
      FirstIsOther(wfs);
      AllWantedMeaning(env, wfs[1..], stored);
      assert forall wf :: wf in wfs <==> wf == wfs[0] || wf in wfs[1..];
    }
  }

  lemma RegisterAllMarks(env: Env, sys: System, marks: map<nat, Mark>, e: Entry)
    requires Fresh(env.alloc) && InOrder(sys) && Marked(sys, marks) && PossibleEntry(sys, e) && e.RegisterAll?
    ensures Marked(EntryStep(env, sys, e).0, MarksAfter(env, sys, marks, e))
  {
    hide NoLeaks, NoStale, RegisterWorkflows, Fresh, TriggerService.Search, LiveTriggers, HandlersOf, NeedsRunAs,
         AllWanted, AliasFree, TriggerService.Wanted;
    var env', tt := EnvOf(env, e), TriggerService.Search(sys.stored, WorkflowIDs(e.wfs));
    var (next, failed) := EntryStep(env, sys, e);
    NoStaleIsSettled(env.alloc, sys.bus);
    TriggerService.SearchKeepsDistinct(sys.stored, WorkflowIDs(e.wfs));
    SettledIsAliasFree(env', sys.bus, e.wfs, tt);
    RegistrationIsExact(env', sys.bus, e.wfs, tt);
    TriggerService.LiveAreStoredActive(env', sys.bus, e.wfs, sys.stored);
    AllWantedMeaning(env, e.wfs, sys.stored);
    UsersDoNotMatter(env, env', e.wfs, sys.stored);
    var marks' := MarksAfter(env, sys, marks, e);
    forall id | id in marks'
      ensures marks'[id].wf.id == id && LiveTriggers(next.bus, id) == marks'[id].live
    {
      if id !in WorkflowIDs(e.wfs) {
        SameHandlersSameTriggers(next.bus, sys.bus, id);
      }
    }
  }

  // What the store wants does not depend on which run-as users are valid.
  lemma UsersDoNotMatter(env: Env, env': Env, wfs: seq<Workflow>, stored: seq<Trigger>)
    requires env.register == env'.register
    ensures forall wf | wf in wfs :: TriggerService.Wanted(env, wf, stored) == TriggerService.Wanted(env', wf, stored)
  {
    hide NeedsRunAs, TriggerService.StoredActive;
  }

  lemma CreateMarks(env: Env, sys: System, marks: map<nat, Mark>, e: Entry)
    requires Fresh(env.alloc) && InOrder(sys) && Marked(sys, marks) && PossibleEntry(sys, e) && e.Create?
    ensures Marked(EntryStep(env, sys, e).0, MarksAfter(env, sys, marks, e))
  {
    hide NoLeaks, NoStale, RegisterWorkflow, Fresh, LiveTriggers, HandlersOf, NeedsRunAs;
    var wf, t, env' := e.wf, e.trigger, EnvOf(env, e);
    NewTriggerIsExact(env', sys.bus, wf, t);
    FailedCreateChangesNothing(env', sys.bus, wf, t);
    var next, marks' := EntryStep(env, sys, e).0, MarksAfter(env, sys, marks, e);
    forall id | id in marks'
      ensures LiveTriggers(next.bus, id) == marks'[id].live
    {
      if id != wf.id && next.bus != sys.bus {
        SameHandlersSameTriggers(next.bus, sys.bus, id);
      }
    }
  }

  lemma FailedCreateChangesNothing(env: Env, st: State, wf: Workflow, t: Trigger)
    ensures RegisterWorkflow(env, st, wf, [t]).1 ==> RegisterWorkflow(env, st, wf, [t]).0 == st
  {
  }

  function RunMarks(env: Env, sys: System, marks: map<nat, Mark>, entries: seq<Entry>): map<nat, Mark>
    requires PossibleEntries(env, sys, entries)
    decreases |entries|
  {
    if entries == [] then marks
    else RunMarks(env, EntryStep(env, sys, entries[0]).0, MarksAfter(env, sys, marks, entries[0]), entries[1..])
  }

  lemma {:induction false} RunKeepsMarks(env: Env, sys: System, marks: map<nat, Mark>, entries: seq<Entry>)
    requires Fresh(env.alloc) && InOrder(sys) && Marked(sys, marks) && PossibleEntries(env, sys, entries)
    ensures Marked(RunEntries(env, sys, entries), RunMarks(env, sys, marks, entries))
    decreases |entries|
  {
    hide InOrder, EntryStep, PossibleEntry, Fresh, Marked, MarksAfter;
    if entries != [] {
      var e := entries[0];
      match e {
        case RegisterAll(_, _) => RegisterAllMarks(env, sys, marks, e);
        case Create(_, _, _, _) => CreateMarks(env, sys, marks, e);
        case Edit(_, _) => EditMarks(env, sys, marks, e);
      }
      EntryStepKeeps(env, sys, e);
      RunKeepsMarks(env, EntryStep(env, sys, e).0, MarksAfter(env, sys, marks, e), entries[1..]);
    }
  }

  lemma EditMarks(env: Env, sys: System, marks: map<nat, Mark>, e: Entry)
    requires Marked(sys, marks) && PossibleEntry(sys, e) && e.Edit?
    ensures Marked(EntryStep(env, sys, e).0, MarksAfter(env, sys, marks, e))
  {
    hide LiveTriggers;
  }

  /**
   Bus and store over runs: in every run of registrations, new triggers and edits, the live triggers
   of each workflow are those the store wanted at its last successful registration and those created
   since; so bus and store agree if and only if these are what the store wants now.
   */
  lemma BusAgreesWithStoreIff(env: Env, entries: seq<Entry>)
    requires Fresh(env.alloc) && PossibleEntries(env, NOTHING, entries)
    ensures var sys := RunEntries(env, NOTHING, entries);
            var marks := RunMarks(env, NOTHING, map[], entries);
            && Marked(sys, marks)
            && forall id | id in marks ::
                 AgreesFor(env, sys, marks[id].wf) <==>
                 marks[id].live == TriggerService.Wanted(env, marks[id].wf, sys.stored)
  {
    hide TriggerService.Wanted, LiveTriggers;
    assert InOrder(NOTHING);
    RunKeepsMarks(env, NOTHING, map[], entries);
  }

  // ----- When an edit keeps bus and store in agreement -----

  /** No active stored trigger of the workflow needs a run-as user that it does not have. */
  predicate StoreClean(wf: Workflow, stored: seq<Trigger>) {
    wf.runAs == 0 ==> forall t | t in stored :: t.workflowID == wf.id && Active(t) ==> !NeedsRunAs(t)
  }

  /** What can be told from the store before and after an edit of its k-th trigger. */
  predicate EditHarmless(env: Env, wf: Workflow, stored: seq<Trigger>, k: nat, t: Trigger)
    requires k < |stored|
  {
    env.register && Executable(wf) && wf.issues == [] ==>
      var after := stored[k := t];
      if StoreClean(wf, stored) && StoreClean(wf, after) then Active(t) == Active(stored[k])
      else
        && (StoreClean(wf, stored) ==> TriggerService.StoredActive(wf, stored) == {})
        && (StoreClean(wf, after) ==> TriggerService.StoredActive(wf, after) == {})
  }

  lemma SamePosition(tt: seq<Trigger>, j: nat, k: nat)
    requires DistinctTriggers(tt) && j < |tt| && k < |tt| && tt[j].id == tt[k].id
    ensures j == k
  {
  }

  lemma EditedActive(wf: Workflow, stored: seq<Trigger>, k: nat, t: Trigger)
    requires DistinctTriggers(stored) && k < |stored| && t.id == stored[k].id
    requires t.workflowID == stored[k].workflowID == wf.id
    ensures TriggerService.StoredActive(wf, stored[k := t]) == TriggerService.StoredActive(wf, stored)
            <==> Active(t) == Active(stored[k])
  {
    var after := stored[k := t];
    forall s | s != t && s != stored[k]
      ensures s in after <==> s in stored
    {
      if s in stored {
        var j :| 0 <= j < |stored| && stored[j] == s;
        assert after[j] == s;
      }
    }
    assert after[k] == t;
    forall s | s in after && s.id == t.id
      ensures s == t
    {
      var j :| 0 <= j < |after| && after[j] == s;
      SamePosition(stored, j, k);
    }
    forall s | s in stored && s.id == t.id
      ensures s == stored[k]
    {
      var j :| 0 <= j < |stored| && stored[j] == s;
      SamePosition(stored, j, k);
    }
    assert t.id in TriggerService.StoredActive(wf, after) <==> Active(t);
    assert t.id in TriggerService.StoredActive(wf, stored) <==> Active(stored[k]);
    if Active(t) == Active(stored[k]) {
      forall id
        ensures id in TriggerService.StoredActive(wf, after) <==> id in TriggerService.StoredActive(wf, stored)
      {
        if id != t.id && id in TriggerService.StoredActive(wf, stored) {
          var s :| s in stored && s.workflowID == wf.id && Active(s) && s.id == id;
          assert s in after;
        }
        if id != t.id && id in TriggerService.StoredActive(wf, after) {
          var s :| s in after && s.workflowID == wf.id && Active(s) && s.id == id;
          assert s in stored;
        }
      }
    }
  }

  /**
   An edit never reaches the bus. It keeps bus and store in agreement if and only if the workflow is
   not registered at all, or the edit leaves the trigger as active as it was and the workflow as free
   to be registered, or nothing was and is wanted.
   */
  lemma EditKeepsAgreementIff(env: Env, sys: System, wf: Workflow, e: Entry)
    requires DistinctTriggers(sys.stored) && PossibleEntry(sys, e) && e.Edit? && e.trigger.workflowID == wf.id
    requires AgreesFor(env, sys, wf)
    ensures AgreesFor(env, EntryStep(env, sys, e).0, wf) <==> EditHarmless(env, wf, sys.stored, e.position, e.trigger)
  {
    hide LiveTriggers, NeedsRunAs, TriggerService.StoredActive;
    EditedActive(wf, sys.stored, e.position, e.trigger);
  }

  /** Disabling the only trigger of a workflow leaves its handler live. */
  lemma DisabledTriggerStaysLive(env: Env, wf: Workflow, a: Trigger)
    requires Fresh(env.alloc) && env.register && Plain(wf, a)
    ensures var users := (id: nat) => true;
            var off := a.(enabled := false);
            var run := [Create(wf, a, users, true), RegisterAll([wf], users), Edit(0, off)];
            var sys := RunEntries(env, NOTHING, run);
            && PossibleEntries(env, NOTHING, run) && sys.stored == [off]
            && LiveTriggers(sys.bus, wf.id) == {a.id} && !AgreesFor(env, sys, wf)
  {
    var users := (id: nat) => true;
    var off := a.(enabled := false);
    var e0, e1, e2 := Create(wf, a, users, true), RegisterAll([wf], users), Edit(0, off);
    CreateSucceeds(env, NOTHING, e0);
    var s1 := EntryStep(env, NOTHING, e0).0;
    assert s1.stored == [a];
    EntryStepKeeps(env, NOTHING, e0);
    var s2 := EntryStep(env, s1, e1).0;
    RegisterSucceeds(env, s1, wf, a, users);
    RunThree(env, NOTHING, e0, e1, e2);
    assert TriggerService.StoredActive(wf, [off]) == {};
  }

  lemma RunThree(env: Env, sys: System, e0: Entry, e1: Entry, e2: Entry)
    ensures var s1 := EntryStep(env, sys, e0).0;
            var s2 := EntryStep(env, s1, e1).0;
            && RunEntries(env, sys, [e0, e1, e2]) == EntryStep(env, s2, e2).0
            && (PossibleEntries(env, sys, [e0, e1, e2]) <==>
                PossibleEntry(sys, e0) && PossibleEntry(s1, e1) && PossibleEntry(s2, e2))
  {
    hide EntryStep, PossibleEntry;
    assert [e0, e1, e2][1..] == [e1, e2] && [e1, e2][1..] == [e2] && [e2][1..] == [];
    var s1 := EntryStep(env, sys, e0).0;
    var s2 := EntryStep(env, s1, e1).0;
    assert RunEntries(env, s2, [e2]) == EntryStep(env, s2, e2).0;
    assert RunEntries(env, s1, [e1, e2]) == EntryStep(env, s2, e2).0;
    assert PossibleEntries(env, s2, [e2]) <==> PossibleEntry(s2, e2);
    assert PossibleEntries(env, s1, [e1, e2]) <==> PossibleEntry(s1, e1) && PossibleEntry(s2, e2);
  }

  lemma CreateSucceeds(env: Env, sys: System, e: Entry)
    requires e.Create? && e.commits && Plain(e.wf, e.trigger)
    ensures EntryStep(env, sys, e).0.stored == sys.stored + [e.trigger]
  {
    hide RegisterTriggers;
  }

  lemma RegisterSucceeds(env: Env, sys: System, wf: Workflow, a: Trigger, users: nat -> bool)
    requires Fresh(env.alloc) && env.register && Plain(wf, a) && InOrder(sys) && sys.stored == [a]
    ensures var e := RegisterAll([wf], users);
            var next := EntryStep(env, sys, e).0;
            next.stored == [a] && LiveTriggers(next.bus, wf.id) == {a.id}
  {
    hide LiveTriggers, NoLeaks, NoStale, Fresh, RegisterTriggers, NeedsRunAs;
    var e := RegisterAll([wf], users);
    var env' := EnvOf(env, e);
    assert [wf][1..] == [];
    TriggerService.LiveAreStoredActive(env', sys.bus, [wf], [a]);
    assert wf in [wf];
    assert TriggerService.StoredActive(wf, [a]) == {a.id};
    assert !RegisterWorkflows(env', sys.bus, [wf], TriggerService.Search([a], WorkflowIDs([wf]))).1 by {
      NeverFails(env', sys.bus, wf, TriggerService.Search([a], WorkflowIDs([wf])));
    }
  }

  lemma NeverFails(env: Env, st: State, wf: Workflow, tt: seq<Trigger>)
    requires wf.runAs == 0
    ensures !RegisterWorkflows(env, st, [wf], tt).1
  {
    hide RegisterTriggers, FilterByWorkflowID, TriggersClean, UnregisterWorkflow;
    assert [wf][1..] == [];
    StepThenRest(env, st, [wf], tt);
    NothingToRegister(env, RegisterStep(env, st, wf, tt).0, tt);
  }

  /** A new trigger whose transaction fails in the end is live, though there is no row of it. */
  lemma UncommittedTriggerIsLive(env: Env, wf: Workflow, a: Trigger)
    requires Fresh(env.alloc) && env.register && Plain(wf, a)
    ensures var e := Create(wf, a, (id: nat) => true, false);
            var (sys, failed) := EntryStep(env, NOTHING, e);
            failed && sys.stored == [] && LiveTriggers(sys.bus, wf.id) == {a.id}
  {
    hide LiveTriggers, NeedsRunAs, RegisterTriggers;
    var e := Create(wf, a, (id: nat) => true, false);
    var env' := EnvOf(env, e);
    NewTriggerIsExact(env', EMPTY, wf, a);
    NothingLive(wf.id);
    assert TriggersClean(wf, [a]);
    assert !RegisterWorkflow(env', EMPTY, wf, [a]).1;
  }

  lemma NothingLive(w: nat)
    ensures LiveTriggers(EMPTY, w) == {} && NoLeaks(EMPTY)
  {
  }

  // ----- Concurrent registrations -----

  /** The lock-held parts of one registerWorkflows call, in order. */
  function Bodies(env: Env, wfs: seq<Workflow>, tt: seq<Trigger>): seq<Call>
    decreases |wfs|
  {
    if wfs == [] then []
    else
      var wf, own := wfs[0], FilterByWorkflowID(tt, wfs[0].id);
      var rest := Bodies(env, wfs[1..], tt);
      [UnregisterAll(wf.id)] +
      (if !env.register || !wf.enabled || wf.deletedAt.Some? || wf.issues != [] || !TriggersClean(wf, own) then rest
       else if wf.runAs > 0 && !env.validUser(wf.runAs) then []
       else [Register(wf.id, true, own)] + rest)
  }

  /** Run without interruption the parts are the call. */
  lemma {:induction false} BodiesAreRegistration(env: Env, st: State, wfs: seq<Workflow>, tt: seq<Trigger>)
    ensures Run(env.alloc, st, Bodies(env, wfs, tt)) == RegisterWorkflows(env, st, wfs, tt).0
    decreases |wfs|
  {
    hide RegisterTriggers, UnregisterWorkflow, TriggersClean, FilterByWorkflowID;
    if wfs != [] {
      var wf, own := wfs[0], FilterByWorkflowID(tt, wfs[0].id);
      var st' := UnregisterWorkflow(st, wf.id);
      var rest := Bodies(env, wfs[1..], tt);
      RunCons(env.alloc, st, UnregisterAll(wf.id), rest);
      RunCons(env.alloc, st, UnregisterAll(wf.id), []);
      RunCons(env.alloc, st, UnregisterAll(wf.id), [Register(wf.id, true, own)] + rest);
      RunCons(env.alloc, st', Register(wf.id, true, own), rest);
      var (st'', failed) := RegisterWorkflow(env, st', wf, own);
      if wf.enabled && wf.deletedAt.None? && wf.issues == [] {
        if !failed {
          BodiesAreRegistration(env, st'', wfs[1..], tt);
        }
      } else {
        BodiesAreRegistration(env, st', wfs[1..], tt);
      }
    }
  }

  lemma RunCons(alloc: Allocator, st: State, call: Call, rest: seq<Call>)
    ensures Run(alloc, st, [call] + rest) == Run(alloc, Apply(alloc, st, call), rest)
  {
    assert ([call] + rest)[1..] == rest;
  }

  /** The parts of two calls in some interleaving. */
  predicate Interleaved(a: seq<Call>, b: seq<Call>, c: seq<Call>)
    decreases |c|
  {
    if c == [] then a == [] && b == []
    else
      || (a != [] && a[0] == c[0] && Interleaved(a[1..], b, c[1..]))
      || (b != [] && b[0] == c[0] && Interleaved(a, b[1..], c[1..]))
  }

  lemma RegisterSingle(alloc: Allocator, st: State, wfID: nat, t: Trigger)
    ensures RegisterTriggers(alloc, st, wfID, true, [t]) == RegisterOne(alloc, st, wfID, true, t)
  {
    assert [t][1..] == [];
  }

  /** A workflow with one active trigger that can be registered. */
  predicate Plain(wf: Workflow, t: Trigger) {
    Executable(wf) && wf.issues == [] && wf.runAs == 0 && t.workflowID == wf.id && Active(t) && !NeedsRunAs(t)
  }

  lemma PlainBodies(env: Env, wf: Workflow, t: Trigger, s: Trigger)
    requires env.register && Plain(wf, t) && (s == t || (s.id == t.id && s.workflowID == wf.id && !Active(s)))
    ensures Bodies(env, [wf], [s]) == [UnregisterAll(wf.id), Register(wf.id, true, [s])]
  {
    assert FilterByWorkflowID([s], wf.id) == [s] by {
      assert [s][1..] == [];
    }
    assert [wf][1..] == [] && Bodies(env, [], [s]) == [];
  }

  /**
   Two registrations of a workflow at the same time, before and after its trigger is deleted, leave a
   stale record when both first unregister and then register. If the address of the removed handler
   is given to the trigger of another workflow, the next registration of the first workflow removes
   that live handler.
   */
  lemma ConcurrentCallsRemoveForeignHandler(env: Env, wf: Workflow, a: Trigger, now: nat, other: Workflow, b: Trigger)
    requires env.register && Plain(wf, a) && Plain(other, b) && wf.id != other.id
    requires forall n :: env.alloc({}, n) == 1
    ensures var off := a.(deletedAt := Some(now));
            var both := [UnregisterAll(wf.id), UnregisterAll(wf.id),
                         Register(wf.id, true, [a]), Register(wf.id, true, [off])];
            var s1 := Run(env.alloc, EMPTY, both);
            var s2 := RegisterWorkflows(env, s1, [other], [b]).0;
            var s3 := RegisterWorkflows(env, s2, [wf], [off]).0;
            && Interleaved(Bodies(env, [wf], [a]), Bodies(env, [wf], [off]), both)
            && s1.live == map[] && !NoStale(s1)
            && s2.live == map[1 := Owner(other.id, b.id)] && !Harmless(s2, wf.id, {})
            && s3.live == map[]
  {
    var off := a.(deletedAt := Some(now));
    hide Interleaved, RegisterWorkflows, Run, NoStale, Harmless;
    BothLeaveStaleRecord(env, wf, a, off);
    var s1 := Run(env.alloc, EMPTY, [UnregisterAll(wf.id), UnregisterAll(wf.id),
                                     Register(wf.id, true, [a]), Register(wf.id, true, [off])]);
    HandedOutAgain(env, s1, wf, a, other, b);
    var s2 := RegisterWorkflows(env, s1, [other], [b]).0;
    TakenAway(env, s2, wf, a, off, other, b);
  }

  // Both calls unregister first and register then.
  lemma BothLeaveStaleRecord(env: Env, wf: Workflow, a: Trigger, off: Trigger)
    requires env.register && Plain(wf, a) && off.id == a.id && off.workflowID == a.workflowID && !Active(off)
    requires forall n :: env.alloc({}, n) == 1
    ensures var both := [UnregisterAll(wf.id), UnregisterAll(wf.id),
                         Register(wf.id, true, [a]), Register(wf.id, true, [off])];
            var s1 := Run(env.alloc, EMPTY, both);
            && Interleaved(Bodies(env, [wf], [a]), Bodies(env, [wf], [off]), both)
            && s1.live == map[] && s1.reg.Keys == {wf.id} && s1.reg[wf.id] == map[a.id := 1] && !NoStale(s1)
  {
    var u, r, r' := UnregisterAll(wf.id), Register(wf.id, true, [a]), Register(wf.id, true, [off]);
    var alloc := env.alloc;
    PlainBodies(env, wf, a, a);
    PlainBodies(env, wf, a, off);
    BothInterleave(u, r, r');
    RunFour(alloc, EMPTY, u, u, r, r');
    hide Interleaved, RegisterTriggers, Bodies, Run;
    assert UnregisterWorkflow(EMPTY, wf.id) == EMPTY;
    RegisterSingle(alloc, EMPTY, wf.id, a);
    var t1 := RegisterOne(alloc, EMPTY, wf.id, true, a);
    FirstHandler(alloc, EMPTY, wf.id, a);
    RegisterSingle(alloc, t1, wf.id, off);
    var s1 := RegisterOne(alloc, t1, wf.id, true, off);
    assert s1.live == map[] && s1.reg[wf.id] == map[a.id := 1];
    assert !NoStaleEntries(s1, wf.id, s1.reg[wf.id]);
  }

  // The address goes to the trigger of another workflow.
  lemma HandedOutAgain(env: Env, st: State, wf: Workflow, a: Trigger, other: Workflow, b: Trigger)
    requires env.register && Plain(other, b) && wf.id != other.id
    requires forall n :: env.alloc({}, n) == 1
    requires st.live == map[] && st.reg.Keys == {wf.id} && st.reg[wf.id] == map[a.id := 1]
    ensures var r := RegisterWorkflows(env, st, [other], [b]).0;
            && r.live == map[1 := Owner(other.id, b.id)] && !Harmless(r, wf.id, {})
            && wf.id in r.reg && r.reg[wf.id] == map[a.id := 1]
  {
    PlainBodies(env, other, b, b);
    BodiesAreRegistration(env, st, [other], [b]);
    RunTwo(env.alloc, st, UnregisterAll(other.id), Register(other.id, true, [b]));
    hide RegisterTriggers, Bodies, Run, RegisterWorkflows;
    var t := UnregisterWorkflow(st, other.id);
    assert t.live == map[] && t.reg.Keys == {wf.id} && t.reg[wf.id] == map[a.id := 1];
    RegisterSingle(env.alloc, t, other.id, b);
    FirstHandler(env.alloc, t, other.id, b);
    var r := RegisterOne(env.alloc, t, other.id, true, b);
    assert Entries(r, wf.id) == map[a.id := 1] && a.id in Entries(r, wf.id);
  }

  // The stale record takes it away.
  lemma TakenAway(env: Env, st: State, wf: Workflow, a: Trigger, off: Trigger, other: Workflow, b: Trigger)
    requires env.register && Plain(wf, a) && off.id == a.id && off.workflowID == a.workflowID && !Active(off)
    requires st.live == map[1 := Owner(other.id, b.id)] && wf.id in st.reg && st.reg[wf.id] == map[a.id := 1]
    ensures RegisterWorkflows(env, st, [wf], [off]).0.live == map[]
  {
    PlainBodies(env, wf, a, off);
    BodiesAreRegistration(env, st, [wf], [off]);
    RunTwo(env.alloc, st, UnregisterAll(wf.id), Register(wf.id, true, [off]));
    hide RegisterTriggers, Bodies, Run, RegisterWorkflows;
    var t := UnregisterWorkflow(st, wf.id);
    assert Entries(st, wf.id) == map[a.id := 1];
    assert t.live == map[];
    RegisterSingle(env.alloc, t, wf.id, off);
  }

  // The first handler on an empty bus, for a trigger without a record.
  lemma FirstHandler(alloc: Allocator, st: State, wfID: nat, t: Trigger)
    requires Active(t) && wfID !in st.reg && st.live == map[] && forall n :: alloc({}, n) == 1
    ensures var r := RegisterOne(alloc, st, wfID, true, t);
            && r.live == map[1 := Owner(wfID, t.id)]
            && r.reg.Keys == st.reg.Keys + {wfID} && r.reg[wfID] == map[t.id := 1]
            && forall w | w in st.reg :: r.reg[w] == st.reg[w]
  {
    assert st.live.Keys == {};
  }

  lemma BothInterleave(u: Call, r: Call, r': Call)
    ensures Interleaved([u, r], [u, r'], [u, u, r, r'])
  {
    assert Interleaved([], [], []);
    assert [r'][1..] == [] && Interleaved([], [r'], [r']);
    assert [r, r'][1..] == [r'] && [r][1..] == [] && Interleaved([r], [r'], [r, r']);
    assert [u, r, r'][1..] == [r, r'] && [u, r'][1..] == [r'] && Interleaved([r], [u, r'], [u, r, r']);
    assert [u, u, r, r'][1..] == [u, r, r'] && [u, r][1..] == [r];
  }

  lemma RunTwo(alloc: Allocator, st: State, a: Call, b: Call)
    ensures Run(alloc, st, [a, b]) == Apply(alloc, Apply(alloc, st, a), b)
  {
    hide Apply;
    RunCons(alloc, st, a, [b]);
    RunCons(alloc, Apply(alloc, st, a), b, []);
    assert [a, b] == [a] + [b] && [b] + [] == [b];
  }

  lemma RunFour(alloc: Allocator, st: State, a: Call, b: Call, c: Call, d: Call)
    ensures Run(alloc, st, [a, b, c, d]) == Apply(alloc, Apply(alloc, Apply(alloc, Apply(alloc, st, a), b), c), d)
  {
    hide Apply;
    RunCons(alloc, st, a, [b, c, d]);
    RunCons(alloc, Apply(alloc, st, a), b, [c, d]);
    RunTwo(alloc, Apply(alloc, Apply(alloc, st, a), b), c, d);
    assert [a, b, c, d] == [a] + [b, c, d] && [b, c, d] == [b] + [c, d];
  }
}
