/**
 What a session says about itself, told from the reports of the engine alone
 (automation/service/session.go:410-495, automation/types/session.go:137-194).
 */
module SessionReports {
  import opened WorkflowTypes
  import opened Sessions
  import opened SessionEnds

  /** A report that is more than a step being taken. */
  predicate Speaks(e: Event, id: nat) {
    e.Change? && e.id == id && !e.reported.Active?
  }

  /** The last report other than Active. */
  function LastWord(events: seq<Event>, id: nat): (r: Option<Event>)
    ensures r.Some? ==> Speaks(r.value, id)
  {
    if events == [] then None
    else
      var n := |events| - 1;
      if Speaks(events[n], id) then Some(events[n]) else LastWord(events[..n], id)
  }

  /** The last report that ends the session. */
  function LastEnd(events: seq<Event>, id: nat): (r: Option<Event>)
    ensures r.Some? ==> Final(r.value, id)
  {
    if events == [] then None
    else
      var n := |events| - 1;
      if Final(events[n], id) then Some(events[n]) else LastEnd(events[..n], id)
  }

  /** The error of the last failure; empty without one. */
  function LastError(events: seq<Event>, id: nat): string {
    if events == [] then ""
    else
      var n := |events| - 1;
      if Final(events[n], id) && events[n].reported.Failure? then events[n].reported.error
      else LastError(events[..n], id)
  }

  /** The status that goes with the last word. */
  function StatusFor(word: Option<Event>): Status
    requires word.Some? ==> word.value.Change? && !word.value.reported.Active?
  {
    match word
    case None => Started
    case Some(e) =>
      match e.reported
      case AtPrompt => Prompted
      case Delayed => Suspended
      case Failure(_) => Failed
      case Completion => Completed
  }

  /** The session has the status, the times and the error that its reports give. */
  predicate SaysWhatWasReported(s: Session, reports: seq<Event>, id: nat) {
    var word, end := LastWord(reports, id), LastEnd(reports, id);
    && s.status == StatusFor(word)
    && s.suspendedAt == (if word.Some? && (word.value.reported.AtPrompt? || word.value.reported.Delayed?)
                         then Some(word.value.now) else None)
    && s.completedAt == (if end.Some? then Some(end.value.now) else None)
    && s.error == LastError(reports, id)
  }

  lemma OneMoreReport(reports: seq<Event>, e: Event, id: nat)
    ensures LastWord(reports + [e], id) == if Speaks(e, id) then Some(e) else LastWord(reports, id)
    ensures LastEnd(reports + [e], id) == if Final(e, id) then Some(e) else LastEnd(reports, id)
    ensures LastError(reports + [e], id)
            == if Final(e, id) && e.reported.Failure? then e.reported.error else LastError(reports, id)
  {
    assert (reports + [e])[..|reports|] == reports;
  }

  // A step changes nothing but the frames of a session, unless it is a report.
  lemma SessionAfter(st: State, e: Event, id: nat)
    requires id in st.pool && !(e.Spawn? && e.id == id) && id in Step(st, e).pool
    ensures var s := if e.Change? && e.id == id then Reflect(st.pool[id], e.reported, e.now) else st.pool[id];
            SameButFrames(Step(st, e).pool[id], s)
  {
    if e.Change? && e.id == id {
      PoolAfterReport(st, e);
      FramesOnly(st.pool[id], e.frame, e.reported, e.now);
    } else if e.Change? {
      hide SendPrompts, Flushes, CopyTrace, Reflect;
      SendPromptsKeepsSessions(st, e.id);
    }
  }

  lemma PoolAfterReport(st: State, e: Event)
    requires e.Change? && e.id in st.pool
    ensures var s, r := Reflect(AppendFrame(st.pool[e.id], e.frame), e.reported, e.now), Step(st, e);
            e.id in r.pool && (r.pool[e.id] == s || r.pool[e.id] == CopyTrace(s))
  {
    hide SendPrompts, Flushes, CopyTrace, Reflect, AppendFrame;
    SendPromptsKeepsSessions(st, e.id);
  }

  lemma FramesOnly(s: Session, f: Frame, r: Reported, now: nat)
    ensures var t := Reflect(AppendFrame(s, f), r, now);
            SameButFrames(t, Reflect(s, r, now)) && SameButFrames(CopyTrace(t), Reflect(s, r, now))
  {
  }

  lemma ReportSays(st: State, e: Event, id: nat, reports: seq<Event>)
    requires id in st.pool && SaysWhatWasReported(st.pool[id], reports, id)
    requires !(e.Spawn? && e.id == id) && id in Step(st, e).pool
    ensures SaysWhatWasReported(Step(st, e).pool[id], reports + [e], id)
    ensures Step(st, e).pool[id].workflowID == st.pool[id].workflowID
  {
    SessionAfter(st, e, id);
    OneMoreReport(reports, e, id);
    hide Step, LastWord, LastEnd, LastError;
  }

  lemma {:induction false} RunSays(st: State, events: seq<Event>, id: nat)
    requires id in st.pool && SaysWhatWasReported(st.pool[id], [], id)
    requires NotSpawned(events, id) && id in Run(st, events).pool
    ensures SaysWhatWasReported(Run(st, events).pool[id], events, id)
    ensures Run(st, events).pool[id].workflowID == st.pool[id].workflowID
    decreases |events|
  {
    hide Step, SaysWhatWasReported;
    if events != [] {
      var n := |events| - 1;
      var init, e := events[..n], events[n];
      assert events == init + [e] && e in events;
      RunAppend(st, init, [e]);
      assert [e][1..] == [] && Run(Run(st, init), [e]) == Step(Run(st, init), e);
      if id !in Run(st, init).pool {
        GoneStays(Run(st, init), [e], id);
        assert false;
      }
      assert NotSpawned(init, id);
      RunSays(st, init, id);
      ReportSays(Run(st, init), e, id, init);
    }
  }

  /**
   Over runs: a session in the pool has the status its last report other than Active gives it, Started
   without one, the times of its last pause and its last end, and the error of its last failure; and the
   session as it was last handed over says the same.
   */
  lemma StatusIsLastReport(events: seq<Event>, i: nat, id: nat)
    requires PossibleRun(EMPTY, events) && SpawnedOnceAt(events, i, id) && id in Run(EMPTY, events).pool
    ensures var r, reports := Run(EMPTY, events), events[i + 1..];
            && SaysWhatWasReported(r.pool[id], reports, id)
            && r.pool[id].workflowID == events[i].workflowID
            && (id in r.offered ==>
                  SaysWhatWasReported(r.offered[id], reports, id) && r.offered[id].workflowID == events[i].workflowID)
  {
    hide Run, PossibleRun;
    Spawned(events, i, id);
    SpawnedSaysNothing(events, i, id);
    RunSays(Run(EMPTY, events[..i + 1]), events[i + 1..], id);
    StoreKnowsEveryStatus(events, id);
  }

  lemma SpawnedSaysNothing(events: seq<Event>, i: nat, id: nat)
    requires SpawnedOnceAt(events, i, id)
    ensures var st := Run(EMPTY, events[..i + 1]);
            id in st.pool && SaysWhatWasReported(st.pool[id], [], id) && st.pool[id].workflowID == events[i].workflowID
  {
    var before := Run(EMPTY, events[..i]);
    assert events[..i + 1] == events[..i] + [events[i]];
    RunAppend(EMPTY, events[..i], [events[i]]);
    assert [events[i]][1..] == [];
    assert Run(before, [events[i]]) == Step(before, events[i]);
  }

  // ----- Hand-overs, prompts and collection, event by event -----

  /**
   A report hands its session over to the store, just as it is, if and only if it is other than Active or
   makes the number of frames a multiple of 1000; nothing else is ever handed over.
   */
  lemma HandedOverIff(st: State, e: Event)
    ensures var r := Step(st, e);
            var due := e.Change? && e.id in st.pool
                       && (!e.reported.Active?
                           || (!st.pool[e.id].disabled && (|Frames(st.pool[e.id].runtime)| + 1) % 1000 == 0)
                           || (st.pool[e.id].disabled && st.pool[e.id].runtime.Some?
                               && |Frames(st.pool[e.id].runtime)| % 1000 == 0));
            if due then
              && e.id in r.pool && r.offered == st.offered[e.id := r.pool[e.id]]
              && r.stored == (if e.accepted then st.stored[e.id := r.pool[e.id]] else st.stored)
            else r.offered == st.offered && r.stored == st.stored
  {
    hide SendPrompts;
    if e.Change? {
      SendPromptsKeepsSessions(st, e.id);
    }
  }

  /** A prompt is sent exactly when its session, in the pool, reports to be at a prompt, if it is not sent yet. */
  lemma SentIff(st: State, e: Event, p: nat)
    ensures var waiting := e.Change? && e.reported.AtPrompt? && e.id in st.pool && e.id in st.pending
                           && p in st.pending[e.id] && !st.pending[e.id][p];
            Step(st, e).sent[p] == st.sent[p] + if waiting then 1 else 0
  {
    if e.Change? && e.reported.AtPrompt? && e.id in st.pool {
      hide ReportChange, Flushes;
      assert Step(st, e).sent == SendPrompts(st, e.id).sent by {
        SentByReport(st, e);
      }
      assert multiset(Unsent(PendingOf(st, e.id)))[p] == if p in Unsent(PendingOf(st, e.id)) then 1 else 0;
    }
  }

  lemma SentByReport(st: State, e: Event)
    requires e.Change? && e.reported.AtPrompt? && e.id in st.pool
    ensures Step(st, e).sent == SendPrompts(st, e.id).sent && Step(st, e).pending == SendPrompts(st, e.id).pending
  {
    hide SendPrompts;
  }

  /**
   Over runs: each pending prompt was sent once if it is marked, and not at all if not; after its session
   reports to be at a prompt, all its pending prompts are sent.
   */
  lemma PromptsAreSent(events: seq<Event>, id: nat, f: Frame, now: nat, accepted: bool)
    requires PossibleRun(EMPTY, events)
    ensures var st := Run(EMPTY, events);
            var r := Step(st, Change(id, AtPrompt, f, now, accepted));
            && (forall i, p | i in st.pending && p in st.pending[i] :: st.sent[p] == if st.pending[i][p] then 1 else 0)
            && (id in st.pool && id in st.pending ==>
                  forall p | p in st.pending[id] :: id in r.pending && p in r.pending[id] && r.sent[p] == 1)
  {
    var st := Run(EMPTY, events);
    var e := Change(id, AtPrompt, f, now, accepted);
    RunKeeps(EMPTY, events);
    hide Run, PossibleRun, Step;
    forall i, p | i in st.pending && p in st.pending[i]
      ensures st.sent[p] == if st.pending[i][p] then 1 else 0
    {
      assert PendingFine(st, st.pending[i]);
    }
    if id in st.pool && id in st.pending {
      SentByReport(st, e);
      forall p | p in st.pending[id]
        ensures Step(st, e).sent[p] == 1
      {
        SentIff(st, e, p);
      }
    }
  }

  /** Collection removes exactly the sessions that have ended or were given up; nothing else removes one. */
  lemma CollectedIff(st: State, e: Event, id: nat)
    requires id in st.pool
    ensures id !in Step(st, e).pool <==> e.Collect? && (st.pool[id].completedAt.Some? || id in st.errored)
    ensures e.Collect? && id in Step(st, e).pool ==> Step(st, e).pool[id] == st.pool[id]
  {
  }

  // ----- Traces of sessions that do not ask for one -----

  /** A failure report with an error. */
  predicate Complains(e: Event, id: nat) {
    e.Change? && e.id == id && e.reported.Failure? && e.reported.error != ""
  }

  /** No error so far, and no trace, in the pool or handed over. */
  predicate Quiet(st: State, id: nat) {
    && (id in st.pool ==> st.pool[id].error == "" && st.pool[id].stack.None?)
    && (id in st.offered ==> st.offered[id].stack.None?)
  }

  lemma StepStaysQuiet(st: State, e: Event, id: nat)
    requires Quiet(st, id) && !(e.Spawn? && e.id == id) && !Complains(e, id)
    ensures Quiet(Step(st, e), id)
  {
    hide SendPrompts, Flushes;
    if e.Change? {
      SendPromptsKeepsSessions(st, e.id);
    }
  }

  lemma {:induction false} RunStaysQuiet(st: State, events: seq<Event>, id: nat)
    requires Quiet(st, id) && NotSpawned(events, id) && forall e | e in events :: !Complains(e, id)
    ensures Quiet(Run(st, events), id)
    decreases |events|
  {
    hide Step, Quiet;
    if events != [] {
      assert events[0] in events && forall e | e in events[1..] :: e in events;
      StepStaysQuiet(st, events[0], id);
      RunStaysQuiet(Step(st, events[0]), events[1..], id);
    }
  }

  /**
   Over runs: a session that was spawned without a trace and never failed with an error is handed over
   without a trace.
   */
  lemma NoTraceWithoutError(events: seq<Event>, i: nat, id: nat)
    requires SpawnedOnceAt(events, i, id) && !events[i].trace && id in Run(EMPTY, events).offered
    requires forall e | e in events :: !Complains(e, id)
    ensures Run(EMPTY, events).offered[id].stack.None?
  {
    hide Run, Complains, Quiet;
    Spawned(events, i, id);
    SpawnedQuiet(events, i, id);
    assert forall e | e in events[i + 1..] :: e in events;
    RunStaysQuiet(Run(EMPTY, events[..i + 1]), events[i + 1..], id);
    QuietOffered(Run(EMPTY, events), id);
  }

  lemma QuietOffered(st: State, id: nat)
    requires Quiet(st, id) && id in st.offered
    ensures st.offered[id].stack.None?
  {
  }

  lemma SpawnedQuiet(events: seq<Event>, i: nat, id: nat)
    requires SpawnedOnceAt(events, i, id) && !events[i].trace
    ensures Quiet(Run(EMPTY, events[..i + 1]), id)
  {
    var before := Run(EMPTY, events[..i]);
    assert events[..i + 1] == events[..i] + [events[i]];
    RunAppend(EMPTY, events[..i], [events[i]]);
    assert [events[i]][1..] == [];
    assert Run(before, [events[i]]) == Step(before, events[i]);
    GoneStays(EMPTY, events[..i], id);
  }

  /** A session that fails with an error is handed over with all its frames, traced or not. */
  lemma TraceWithError(st: State, e: Event)
    requires e.Change? && Complains(e, e.id) && e.id in st.pool
    ensures var r := Step(st, e);
            && e.id in r.offered && r.offered[e.id].stack == r.offered[e.id].runtime
            && r.offered[e.id].runtime == (if st.pool[e.id].disabled then st.pool[e.id].runtime
                                           else Some(Frames(st.pool[e.id].runtime) + [e.frame]))
  {
    hide SendPrompts;
    SendPromptsKeepsSessions(st, e.id);
  }
}
