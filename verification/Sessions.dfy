/**
 Workflow sessions (automation/service/session.go:178-495, automation/types/session.go:114-194)
 as a transition system: the pool, what is handed to the store, the pending prompts of the engine
 (pkg/wfexec/session.go, pkg/wfexec/prompt.go) and the messages to users.
 */
module Sessions {
  import opened WorkflowTypes

  const FLUSH_FREQUENCY: nat := 1000

  datatype Status = Started | Prompted | Suspended | Failed | Completed

  /** What the engine reports with a state change. */
  datatype Reported = Active | AtPrompt | Delayed | Failure(error: string) | Completion

  type Frame = nat

  /** `runtime` and `stack` are None while nil; `disabled` is set when stack traces are off. */
  datatype Session = Session(
    workflowID: nat,
    status: Status,
    suspendedAt: Option<nat>,
    completedAt: Option<nat>,
    error: string,
    runtime: Option<seq<Frame>>,
    stack: Option<seq<Frame>>,
    disabled: bool)

  /**
   `offered` holds what was last handed to the store and `stored` what the store accepted;
   `errored` are the sessions the engine gave up; `pending` maps sessions to their prompts and
   whether these are marked as sent; `sent` counts messages; `issued` are all prompts so far.
   */
  datatype State = State(
    pool: map<nat, Session>,
    offered: map<nat, Session>,
    stored: map<nat, Session>,
    errored: set<nat>,
    pending: map<nat, map<nat, bool>>,
    sent: multiset<nat>,
    issued: set<nat>)

  const EMPTY: State := State(map[], map[], map[], {}, map[], multiset{}, {})

  datatype Event =
    | Spawn(id: nat, workflowID: nat, trace: bool, disabled: bool)
    | Change(id: nat, reported: Reported, frame: Frame, now: nat, accepted: bool)
    | Prompt(id: nat, prompt: nat)
    | Answer(id: nat, prompt: nat)
    | GiveUp(id: nat)
    | Collect

  // ----- Transitions -----

  function AppendFrame(s: Session, f: Frame): Session {
    if s.disabled then s else s.(runtime := Some(Frames(s.runtime) + [f]))
  }

  function Frames(trace: Option<seq<Frame>>): seq<Frame> {
    if trace.Some? then trace.value else []
  }

  /** Status and times after a report. */
  function Reflect(s: Session, r: Reported, now: nat): Session {
    match r
    case Active => s
    case AtPrompt => s.(suspendedAt := Some(now), status := Prompted)
    case Delayed => s.(suspendedAt := Some(now), status := Suspended)
    case Completion => s.(suspendedAt := None, completedAt := Some(now), status := Completed)
    case Failure(e) => s.(suspendedAt := None, completedAt := Some(now), error := e, status := Failed)
  }

  predicate Flushes(s: Session, r: Reported) {
    !r.Active? || (s.runtime.Some? && |s.runtime.value| % FLUSH_FREQUENCY == 0)
  }

  function CopyTrace(s: Session): Session {
    if s.stack.Some? || s.error != "" then s.(stack := s.runtime) else s
  }

  function PendingOf(st: State, id: nat): map<nat, bool> {
    if id in st.pending then st.pending[id] else map[]
  }

  function Unsent(prompts: map<nat, bool>): set<nat> {
    set p | p in prompts && !prompts[p]
  }

  function AllSent(prompts: map<nat, bool>): map<nat, bool> {
    map p | p in prompts :: true
  }

  /** All unsent prompts of a session are marked and sent. */
  function SendPrompts(st: State, id: nat): State {
    var prompts := PendingOf(st, id);
    st.(pending := st.pending[id := AllSent(prompts)], sent := st.sent + multiset(Unsent(prompts)))
  }

  function ReportChange(st: State, id: nat, r: Reported, f: Frame, now: nat, accepted: bool): State {
    if id !in st.pool then st
    else
      var s := Reflect(AppendFrame(st.pool[id], f), r, now);
      var st' := if r.AtPrompt? then SendPrompts(st, id) else st;
      if !Flushes(s, r) then st'.(pool := st'.pool[id := s])
      else
        var c := CopyTrace(s);
        st'.(pool := st'.pool[id := c], offered := st'.offered[id := c],
             stored := if accepted then st'.stored[id := c] else st'.stored)
  }

  /** Sessions that are over. */
  predicate Collectable(st: State, id: nat) {
    id in st.pool && (st.pool[id].completedAt.Some? || id in st.errored)
  }

  function Step(st: State, e: Event): State {
    match e
    case Spawn(id, w, trace, disabled) =>
      st.(pool := st.pool[id := Session(w, Started, None, None, "", None, if trace then Some([]) else None, disabled)])
    case Change(id, r, f, now, accepted) => ReportChange(st, id, r, f, now, accepted)
    case Prompt(id, p) => st.(pending := st.pending[id := PendingOf(st, id)[p := false]], issued := st.issued + {p})
    case Answer(id, p) => st.(pending := st.pending[id := PendingOf(st, id) - {p}])
    case GiveUp(id) => st.(errored := st.errored + {id})
    case Collect => st.(pool := map id | id in st.pool && !Collectable(st, id) :: st.pool[id])
  }

  /** Session and prompt IDs are new when they are created. */
  predicate Possible(st: State, e: Event) {
    match e
    case Spawn(id, _, _, _) => id !in st.pool && id !in st.offered
    case Prompt(_, p) => p !in st.issued
    case _ => true
  }

  function Run(st: State, events: seq<Event>): State
    decreases |events|
  {
    if events == [] then st else Run(Step(st, events[0]), events[1..])
  }

  predicate PossibleRun(st: State, events: seq<Event>)
    decreases |events|
  {
    events != [] ==> Possible(st, events[0]) && PossibleRun(Step(st, events[0]), events[1..])
  }

  // ----- Invariants -----

  predicate Lifecycle(s: Session) {
    && (s.status.Completed? || s.status.Failed? ==> s.completedAt.Some? && s.suspendedAt.None?)
    && (s.status.Prompted? || s.status.Suspended? ==> s.suspendedAt.Some?)
  }

  /** The trace at the last attempt to store the session; empty before the first. */
  function OfferedFrames(st: State, id: nat): seq<Frame> {
    if id in st.offered then Frames(st.offered[id].runtime) else []
  }

  /** Less than a block of frames is ahead of the last attempt to store the session. */
  predicate FlushedUpToBlock(st: State, id: nat, s: Session) {
    var all, done := Frames(s.runtime), OfferedFrames(st, id);
    && done <= all
    && |all| / FLUSH_FREQUENCY == |done| / FLUSH_FREQUENCY
    && (s.stack.Some? && id in st.offered ==> s.stack == Some(done) == st.offered[id].stack)
  }

  predicate SessionFine(st: State, id: nat)
    requires id in st.pool
  {
    var s := st.pool[id];
    && Lifecycle(s)
    && (s.disabled ==> s.runtime.None?)
    && (!s.disabled ==> FlushedUpToBlock(st, id, s))
  }

  ghost predicate PromptsFine(st: State) {
    && (forall p :: st.sent[p] <= 1)
    && (forall p | p in st.sent :: p in st.issued)
    && (forall id | id in st.pending :: PendingFine(st, st.pending[id]))
    && (forall i, j, p | i in st.pending && j in st.pending && p in st.pending[i] && p in st.pending[j] :: i == j)
  }

  predicate PendingFine(st: State, prompts: map<nat, bool>) {
    forall p | p in prompts :: p in st.issued && st.sent[p] == (if prompts[p] then 1 else 0)
  }

  ghost predicate Invariant(st: State) {
    && (forall id | id in st.pool :: SessionFine(st, id))
    && PromptsFine(st)
  }

  lemma DivisionByBlock(n: nat, m: nat)
    requires n / FLUSH_FREQUENCY == m / FLUSH_FREQUENCY && (n + 1) % FLUSH_FREQUENCY != 0
    ensures (n + 1) / FLUSH_FREQUENCY == m / FLUSH_FREQUENCY
  {
  }

  lemma ReportedSessionFine(st: State, id: nat, r: Reported, f: Frame, now: nat, accepted: bool)
    requires id in st.pool && SessionFine(st, id)
    ensures SessionFine(ReportChange(st, id, r, f, now, accepted), id)
  {
    var s0 := st.pool[id];
    var s := Reflect(AppendFrame(s0, f), r, now);
    if !s0.disabled && !Flushes(s, r) {
      DivisionByBlock(|Frames(s0.runtime)|, |OfferedFrames(st, id)|);
    }
  }

  lemma SendPromptsFine(st: State, id: nat)
    requires PromptsFine(st)
    ensures PromptsFine(SendPrompts(st, id))
  {
    var prompts := PendingOf(st, id);
    var r := SendPrompts(st, id);
    assert id in st.pending ==> PendingFine(st, st.pending[id]);
    forall p
      ensures r.sent[p] == st.sent[p] + (if p in Unsent(prompts) then 1 else 0)
      ensures r.sent[p] <= 1
    {
    }
    forall i | i in r.pending
      ensures PendingFine(r, r.pending[i])
    {
      if i != id {
        assert PendingFine(st, st.pending[i]);
      }
    }
  }

  lemma PromptEventsFine(st: State, e: Event)
    requires PromptsFine(st) && Possible(st, e) && (e.Prompt? || e.Answer?)
    ensures PromptsFine(Step(st, e))
  {
    var r := Step(st, e);
    forall i | i in r.pending
      ensures PendingFine(r, r.pending[i])
    {
      if i in st.pending {
        assert PendingFine(st, st.pending[i]);
      }
    }
    forall i | i in st.pending
      ensures e.Prompt? ==> e.prompt !in st.pending[i]
    {
      assert PendingFine(st, st.pending[i]);
    }
  }

  lemma StepKeepsPrompts(st: State, e: Event)
    requires PromptsFine(st) && Possible(st, e)
    ensures PromptsFine(Step(st, e))
  {
    hide PromptsFine;
    var r := Step(st, e);
    match e {
      case Change(id, rep, _, _, _) =>
        SendPromptsFine(st, id);
        SamePromptsFine(SendPrompts(st, id), r);
        SamePromptsFine(st, r);
      case Prompt(_, _) => PromptEventsFine(st, e);
      case Answer(_, _) => PromptEventsFine(st, e);
      case _ => SamePromptsFine(st, r);
    }
  }

  lemma StepKeeps(st: State, e: Event)
    requires Invariant(st) && Possible(st, e)
    ensures Invariant(Step(st, e))
  {
    hide PromptsFine, SessionFine;
    var r := Step(st, e);
    StepKeepsPrompts(st, e);
    forall id | id in r.pool
      ensures SessionFine(r, id)
    {
      if e.Change? && e.id == id {
        ReportedSessionFine(st, id, e.reported, e.frame, e.now, e.accepted);
      } else if e.Spawn? && e.id == id {
        SpawnedFine(st, e);
      } else {
        SameSessionFine(st, r, id);
      }
    }
  }

  lemma SamePromptsFine(a: State, b: State)
    ensures PromptsFine(a) && a.sent == b.sent && a.pending == b.pending && a.issued == b.issued ==> PromptsFine(b)
  {
  }

  lemma SameSessionFine(a: State, b: State, id: nat)
    requires id in a.pool && id in b.pool && a.pool[id] == b.pool[id] && SessionFine(a, id)
    requires id in a.offered <==> id in b.offered
    requires id in a.offered ==> a.offered[id] == b.offered[id]
    ensures SessionFine(b, id)
  {
  }

  lemma SpawnedFine(st: State, e: Event)
    requires e.Spawn? && Possible(st, e)
    ensures SessionFine(Step(st, e), e.id)
  {
  }

  lemma {:induction false} RunKeeps(st: State, events: seq<Event>)
    requires Invariant(st) && PossibleRun(st, events)
    ensures Invariant(Run(st, events))
    decreases |events|
  {
    if events != [] {
      StepKeeps(st, events[0]);
      RunKeeps(Step(st, events[0]), events[1..]);
    }
  }

  // ----- Main results -----

  /**
   Flush lag: in every run, a session with stack traces has less than a block of frames that were
   not handed to the store, its stored frames are a prefix of all frames, and for a session that
   keeps its trace the trace handed over is exactly that prefix.
   */
  lemma FlushLag(events: seq<Event>, id: nat)
    requires PossibleRun(EMPTY, events) && id in Run(EMPTY, events).pool
    requires !Run(EMPTY, events).pool[id].disabled
    ensures var st := Run(EMPTY, events);
            var all, done := Frames(st.pool[id].runtime), OfferedFrames(st, id);
            && done <= all && |all| - |done| < 1000
            && |all| / 1000 == |done| / 1000
            && (st.pool[id].stack.Some? && id in st.offered ==> st.offered[id].stack == Some(done))
  {
    RunKeeps(EMPTY, events);
    assert SessionFine(Run(EMPTY, events), id);
  }

  /** Session lifecycle, over all runs; each prompt is sent at most once. */
  lemma LifecycleOverRuns(events: seq<Event>)
    requires PossibleRun(EMPTY, events)
    ensures var st := Run(EMPTY, events);
            && (forall id | id in st.pool :: Lifecycle(st.pool[id]))
            && (forall p :: st.sent[p] <= 1)
  {
    RunKeeps(EMPTY, events);
    forall id | id in Run(EMPTY, events).pool
      ensures Lifecycle(Run(EMPTY, events).pool[id])
    {
      assert SessionFine(Run(EMPTY, events), id);
    }
  }

  /** The session is in the pool before and after each of the events. */
  predicate StaysInPool(st: State, events: seq<Event>, id: nat)
    decreases |events|
  {
    id in st.pool && (events != [] ==> StaysInPool(Step(st, events[0]), events[1..], id))
  }

  lemma OverStays(st: State, e: Event, id: nat)
    requires Possible(st, e) && id in st.pool && id in Step(st, e).pool
    requires st.pool[id].completedAt.Some?
    ensures Step(st, e).pool[id].completedAt.Some?
  {
  }

  /** A session that is over stays over for as long as it is in the pool. */
  lemma {:induction false} OverIsForever(st: State, events: seq<Event>, id: nat)
    requires PossibleRun(st, events) && StaysInPool(st, events, id)
    requires st.pool[id].completedAt.Some?
    ensures id in Run(st, events).pool && Run(st, events).pool[id].completedAt.Some?
    decreases |events|
  {
    hide Step, Possible;
    if events != [] {
      OverStays(st, events[0], id);
      OverIsForever(Step(st, events[0]), events[1..], id);
    }
  }

  /**
   The engine records a failure before it reports it. When the session is collected in between,
   the report finds no session and the store keeps what it had: here, nothing at all.
   */
  lemma ReportAfterCollectionIsLost(id: nat, w: nat, error: string, f: Frame, now: nat)
    ensures var run := [Spawn(id, w, true, false), GiveUp(id), Collect, Change(id, Failure(error), f, now, true)];
            PossibleRun(EMPTY, run) && id !in Run(EMPTY, run).stored && id !in Run(EMPTY, run).pool
  {
    var e0, e1, e2, e3 := Spawn(id, w, true, false), GiveUp(id), Collect, Change(id, Failure(error), f, now, true);
    var s1 := Step(EMPTY, e0);
    var s2 := Step(s1, e1);
    var s3 := Step(s2, e2);
    var run := [e0, e1, e2, e3];
    assert run[1..] == [e1, e2, e3] && [e1, e2, e3][1..] == [e2, e3] && [e2, e3][1..] == [e3] && [e3][1..] == [];
    assert id !in s3.pool && Step(s3, e3) == s3;
    assert Run(s3, [e3]) == s3 && PossibleRun(s3, [e3]);
    assert Run(s2, [e2, e3]) == s3 && PossibleRun(s2, [e2, e3]);
    assert Run(s1, [e1, e2, e3]) == s3 && PossibleRun(s1, [e1, e2, e3]);
  }

  // ----- Nested calls -----

  /** Start refuses a call stack above the limit and appends the workflow (session.go:187-191). */
  function StartStack(limit: int, stack: seq<nat>, workflowID: nat): Option<seq<nat>> {
    if |stack| > limit then None else Some(stack + [workflowID])
  }

  datatype Level = Level(workflowID: nat, sessionID: nat)

  /**
   Call stacks of the sessions that start when each starts the next one of the chain. A new
   session also appends its own ID (pkg/wfexec/session.go:187).
   */
  function Nested(limit: int, stack: seq<nat>, chain: seq<Level>): seq<seq<nat>>
    decreases |chain|
  {
    if chain == [] then []
    else
      match StartStack(limit, stack, chain[0].workflowID)
      case None => []
      case Some(s) => [s] + Nested(limit, s + [chain[0].sessionID], chain[1..])
  }

  function Min(a: int, b: int): int { if a < b then a else b }

  /**
   Nested-call bound: of any chain of workflows that start workflows, self-recursion included,
   exactly the first limit/2 + 1 are started, since each level takes two entries; every call
   stack ends in its own workflow and has at most limit + 1 entries.
   */
  lemma {:induction false} NestedCallBound(limit: nat, stack: seq<nat>, chain: seq<Level>)
    ensures var r := Nested(limit, stack, chain);
            && |r| == (if |stack| > limit then 0 else Min(|chain|, (limit - |stack|) / 2 + 1))
            && forall k | 0 <= k < |r| ::
                 |r[k]| == |stack| + 2 * k + 1 <= limit + 1 && r[k][|r[k]| - 1] == chain[k].workflowID
    decreases |chain|
  {
    if chain != [] && |stack| <= limit {
      NestedCallBound(limit, stack + [chain[0].workflowID] + [chain[0].sessionID], chain[1..]);
    }
  }
}
