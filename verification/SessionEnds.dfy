/**
 What the store learns about the end of a session (automation/service/session.go:363-372, 410-495):
 a session that failed may be collected before its last report, which is then lost.
 */
module SessionEnds {
  import opened WorkflowTypes
  import opened Sessions

  // ----- The store knows every status -----

  /** Equal but for the frames, of which the store may have fewer. */
  predicate SameButFrames(a: Session, b: Session) {
    a.(runtime := None, stack := None) == b.(runtime := None, stack := None)
  }

  predicate IsKnown(st: State, id: nat)
    requires id in st.pool
  {
    if id in st.offered then SameButFrames(st.offered[id], st.pool[id])
    else
      var s := st.pool[id];
      s.status.Started? && s.completedAt.None? && s.suspendedAt.None? && s.error == ""
  }

  lemma StepKeepsKnown(st: State, e: Event, id: nat)
    requires id in Step(st, e).pool && Possible(st, e)
    requires id in st.pool ==> IsKnown(st, id)
    ensures IsKnown(Step(st, e), id)
  {
    hide SendPrompts, Flushes;
    if e.Change? {
      SendPromptsKeepsSessions(st, e.id);
    }
    if e.Change? && e.id == id && id in st.pool {
      var s := Reflect(AppendFrame(st.pool[id], e.frame), e.reported, e.now);
      if !Flushes(s, e.reported) {
        FlushesUnlessActive(s, e.reported);
      }
    }
  }

  lemma SendPromptsKeepsSessions(st: State, id: nat)
    ensures var r := SendPrompts(st, id);
            r.pool == st.pool && r.offered == st.offered && r.stored == st.stored && r.errored == st.errored
  {
  }

  lemma FlushesUnlessActive(s: Session, r: Reported)
    ensures Flushes(s, r) || r.Active?
  {
  }

  lemma {:induction false} RunKeepsKnown(st: State, events: seq<Event>, id: nat)
    requires PossibleRun(st, events) && id in Run(st, events).pool
    requires id in st.pool ==> IsKnown(st, id)
    ensures IsKnown(Run(st, events), id)
    decreases |events|
  {
    hide Step, Possible, IsKnown;
    if events != [] {
      var next := Step(st, events[0]);
      if id in next.pool {
        StepKeepsKnown(st, events[0], id);
      }
      RunKeepsKnown(next, events[1..], id);
    }
  }

  /**
   In every run the last attempt to store a session carries its present status, times and error; a
   session that was never handed over has just started.
   */
  lemma StoreKnowsEveryStatus(events: seq<Event>, id: nat)
    requires PossibleRun(EMPTY, events) && id in Run(EMPTY, events).pool
    ensures IsKnown(Run(EMPTY, events), id)
  {
    RunKeepsKnown(EMPTY, events, id);
  }

  // ----- When the end of a session is handed over -----

  /** The report that ends a session. */
  predicate Final(e: Event, id: nat) {
    e.Change? && e.id == id && (e.reported.Completion? || e.reported.Failure?)
  }

  predicate Ended(sessions: map<nat, Session>, id: nat) {
    id in sessions && sessions[id].completedAt.Some?
  }

  predicate NotSpawned(events: seq<Event>, id: nat) {
    forall e | e in events :: !(e.Spawn? && e.id == id)
  }

  /** The k-th event is a final report, and no collection came between giving up and that report. */
  predicate InTime(events: seq<Event>, id: nat, givenUp: bool, k: nat)
    requires k < |events|
  {
    && Final(events[k], id)
    && forall j | 0 <= j < k && events[j].Collect? :: !givenUp && GiveUp(id) !in events[..j]
  }

  predicate SomeInTime(events: seq<Event>, id: nat, givenUp: bool) {
    exists k | 0 <= k < |events| :: InTime(events, id, givenUp, k)
  }

  lemma InTimeTail(events: seq<Event>, id: nat, givenUp: bool)
    requires events != [] && !Final(events[0], id)
    ensures SomeInTime(events, id, givenUp) <==>
            !(events[0].Collect? && givenUp) && SomeInTime(events[1..], id, givenUp || events[0] == GiveUp(id))
  {
    var rest, givenUp' := events[1..], givenUp || events[0] == GiveUp(id);
    forall j: nat | j < |rest|
      ensures GiveUp(id) in events[..j + 1] <==> events[0] == GiveUp(id) || GiveUp(id) in rest[..j]
    {
      assert events[..j + 1] == [events[0]] + rest[..j];
    }
    if SomeInTime(events, id, givenUp) {
      var k :| 0 <= k < |events| && InTime(events, id, givenUp, k);
      forall j | 0 <= j < k - 1 && rest[j].Collect?
        ensures !givenUp' && GiveUp(id) !in rest[..j]
      {
        assert events[j + 1].Collect?;
      }
      assert InTime(rest, id, givenUp', k - 1);
    }
    if !(events[0].Collect? && givenUp) && SomeInTime(rest, id, givenUp') {
      var k :| 0 <= k < |rest| && InTime(rest, id, givenUp', k);
      forall j | 0 <= j < k + 1 && events[j].Collect?
        ensures !givenUp && GiveUp(id) !in events[..j]
      {
        if j > 0 {
          assert rest[j - 1].Collect?;
        }
      }
      assert InTime(events, id, givenUp, k + 1);
    }
  }

  /** The session is running, and the store does not know otherwise. */
  predicate Running(st: State, id: nat) {
    id in st.pool && st.pool[id].completedAt.None? && !Ended(st.offered, id)
  }

  lemma StepOfRunning(st: State, e: Event, id: nat)
    requires Running(st, id) && !(e.Spawn? && e.id == id)
    ensures var r := Step(st, e);
            && (Final(e, id) ==> Ended(r.offered, id) && Ended(r.pool, id))
            && (e.Collect? && id in st.errored ==> id !in r.pool && !Ended(r.offered, id))
            && (!Final(e, id) && !(e.Collect? && id in st.errored) ==> Running(r, id))
            && (id in r.errored <==> id in st.errored || e == GiveUp(id))
  {
    hide SendPrompts, Flushes;
    SendPromptsKeepsSessions(st, id);
    if e.Change? {
      SendPromptsKeepsSessions(st, e.id);
      if e.id in st.pool {
        FlushesUnlessActive(Reflect(AppendFrame(st.pool[e.id], e.frame), e.reported, e.now), e.reported);
      }
    }
  }

  lemma {:induction false} EndedStays(st: State, events: seq<Event>, id: nat)
    requires NotSpawned(events, id) && Ended(st.offered, id) && (id in st.pool ==> Ended(st.pool, id))
    ensures Ended(Run(st, events).offered, id)
    decreases |events|
  {
    hide SendPrompts;
    if events != [] {
      var e := events[0];
      assert e in events;
      if e.Change? {
        SendPromptsKeepsSessions(st, e.id);
      }
      EndedStays(Step(st, e), events[1..], id);
    }
  }

  lemma {:induction false} GoneStays(st: State, events: seq<Event>, id: nat)
    requires NotSpawned(events, id) && id !in st.pool
    ensures var r := Run(st, events);
            && id !in r.pool
            && (id in r.offered <==> id in st.offered) && (id in r.offered ==> r.offered[id] == st.offered[id])
            && (id in r.stored <==> id in st.stored)
    decreases |events|
  {
    hide SendPrompts;
    if events != [] {
      var e := events[0];
      assert e in events;
      if e.Change? {
        SendPromptsKeepsSessions(st, e.id);
      }
      GoneStays(Step(st, e), events[1..], id);
    }
  }

  /** The end of a running session is handed over if and only if some final report comes in time. */
  lemma {:induction false} RunningEndsIff(st: State, events: seq<Event>, id: nat)
    requires Running(st, id) && NotSpawned(events, id)
    ensures Ended(Run(st, events).offered, id) <==> SomeInTime(events, id, id in st.errored)
    decreases |events|
  {
    hide Step;
    if events != [] {
      var e := events[0];
      assert e in events;
      StepOfRunning(st, e, id);
      if Final(e, id) {
        EndedStays(Step(st, e), events[1..], id);
        assert InTime(events, id, id in st.errored, 0);
      } else {
        InTimeTail(events, id, id in st.errored);
        if e.Collect? && id in st.errored {
          GoneStays(Step(st, e), events[1..], id);
        } else {
          RunningEndsIff(Step(st, e), events[1..], id);
        }
      }
    }
  }

  // ----- From the empty state -----

  lemma {:induction false} RunAppend(st: State, a: seq<Event>, b: seq<Event>)
    ensures Run(st, a + b) == Run(Run(st, a), b)
    decreases |a|
  {
    hide Step;
    if a == [] {
      assert a + b == b;
    } else {
      assert (a + b)[0] == a[0] && (a + b)[1..] == a[1..] + b;
      RunAppend(Step(st, a[0]), a[1..], b);
    }
  }

  lemma {:induction false} ErroredMeansGivenUp(st: State, events: seq<Event>, id: nat)
    ensures id in Run(st, events).errored <==> id in st.errored || GiveUp(id) in events
    decreases |events|
  {
    hide SendPrompts;
    if events != [] {
      if events[0].Change? {
        SendPromptsKeepsSessions(st, events[0].id);
      }
      ErroredMeansGivenUp(Step(st, events[0]), events[1..], id);
    }
  }

  /** The i-th event is the only one that spawns the session. */
  predicate SpawnedOnceAt(events: seq<Event>, i: nat, id: nat) {
    && i < |events| && events[i].Spawn? && events[i].id == id
    && NotSpawned(events[..i], id) && NotSpawned(events[i + 1..], id)
  }

  /** The run up to and with the spawning of the session. */
  lemma Spawned(events: seq<Event>, i: nat, id: nat)
    requires SpawnedOnceAt(events, i, id)
    ensures var st := Run(EMPTY, events[..i + 1]);
            && Run(EMPTY, events) == Run(st, events[i + 1..])
            && Running(st, id) && id !in st.offered && id !in st.stored && Frames(st.pool[id].runtime) == []
            && st.pool[id].disabled == events[i].disabled
            && (id in st.errored <==> GiveUp(id) in events[..i])
  {
    var before := Run(EMPTY, events[..i]);
    assert events == events[..i + 1] + events[i + 1..] && events[..i + 1] == events[..i] + [events[i]];
    RunAppend(EMPTY, events[..i + 1], events[i + 1..]);
    RunAppend(EMPTY, events[..i], [events[i]]);
    assert Run(before, [events[i]]) == Step(before, events[i]);
    GoneStays(EMPTY, events[..i], id);
    ErroredMeansGivenUp(EMPTY, events[..i], id);
  }

  /**
   The k-th event is a final report, and no collection lies between giving the session up and that
   report, in a run that spawns it at i.
   */
  predicate ReportedInTime(events: seq<Event>, i: nat, id: nat, k: nat) {
    && i < k < |events| && Final(events[k], id)
    && forall j | i < j < k && events[j].Collect? :: GiveUp(id) !in events[..j]
  }

  lemma ReportedInTimeTail(events: seq<Event>, i: nat, id: nat, k: nat)
    requires SpawnedOnceAt(events, i, id) && i < k < |events|
    ensures ReportedInTime(events, i, id, k) <==> InTime(events[i + 1..], id, GiveUp(id) in events[..i], k - i - 1)
  {
    var rest := events[i + 1..];
    forall j | i < j < k
      ensures GiveUp(id) in events[..j] <==> GiveUp(id) in events[..i] || GiveUp(id) in rest[..j - i - 1]
    {
      assert events[..j] == events[..i] + [events[i]] + rest[..j - i - 1];
    }
    forall j | 0 <= j < k - i - 1
      ensures rest[j] == events[j + i + 1]
    {
    }
    forall j | i < j < k
      ensures events[j] == rest[j - i - 1]
    {
    }
  }

  /**
   The end of a session is handed to the store if and only if some final report comes before any
   collection that follows its giving up; a store that accepts final reports then has it.
   */
  lemma EndIsHandedOverIff(events: seq<Event>, i: nat, id: nat)
    requires SpawnedOnceAt(events, i, id)
    ensures var r := Run(EMPTY, events);
            && (Ended(r.offered, id) <==> exists k :: ReportedInTime(events, i, id, k))
            && (FinalsAccepted(events, id) ==> (Ended(r.stored, id) <==> exists k :: ReportedInTime(events, i, id, k)))
  {
    var st, rest := Run(EMPTY, events[..i + 1]), events[i + 1..];
    var givenUp := GiveUp(id) in events[..i];
    Spawned(events, i, id);
    RunningEndsIff(st, rest, id);
    forall k | 0 <= k < |rest| && InTime(rest, id, givenUp, k)
      ensures ReportedInTime(events, i, id, k + i + 1)
    {
      ReportedInTimeTail(events, i, id, k + i + 1);
    }
    forall k | ReportedInTime(events, i, id, k)
      ensures SomeInTime(rest, id, givenUp)
    {
      ReportedInTimeTail(events, i, id, k);
    }
    if FinalsAccepted(events, id) {
      assert forall e | e in rest :: e in events;
      EndStaysAgreed(st, rest, id);
    }
  }

  /** The store accepts the reports that end the session; it may refuse others. */
  predicate FinalsAccepted(events: seq<Event>, id: nat) {
    forall e | e in events && Final(e, id) :: e.accepted
  }

  /** Pool, hand-over and store agree on whether the session is over. */
  predicate EndAgreed(st: State, id: nat) {
    && (id in st.pool ==> (Ended(st.pool, id) <==> Ended(st.offered, id)))
    && (Ended(st.offered, id) <==> Ended(st.stored, id))
  }

  lemma {:induction false} EndStaysAgreed(st: State, events: seq<Event>, id: nat)
    requires FinalsAccepted(events, id) && NotSpawned(events, id) && EndAgreed(st, id)
    ensures EndAgreed(Run(st, events), id)
    decreases |events|
  {
    hide Step;
    if events != [] {
      assert events[0] in events;
      EndAgreedStep(st, events[0], id);
      EndStaysAgreed(Step(st, events[0]), events[1..], id);
    }
  }

  lemma EndAgreedStep(st: State, e: Event, id: nat)
    requires EndAgreed(st, id) && !(e.Spawn? && e.id == id) && (Final(e, id) ==> e.accepted)
    ensures EndAgreed(Step(st, e), id)
  {
    hide SendPrompts, Flushes;
    if e.Change? {
      SendPromptsKeepsSessions(st, e.id);
      if e.id in st.pool {
        FlushesUnlessActive(Reflect(AppendFrame(st.pool[e.id], e.frame), e.reported, e.now), e.reported);
      }
    }
  }

  // ----- Frames -----

  /** The frames that come with the reports of a session. */
  function ReportedFrames(events: seq<Event>, id: nat): seq<Frame> {
    if events == [] then []
    else (if events[0].Change? && events[0].id == id then [events[0].frame] else []) + ReportedFrames(events[1..], id)
  }

  lemma {:induction false} OfferedFramesGrow(st: State, events: seq<Event>, id: nat)
    requires Invariant(st) && PossibleRun(st, events) && NotSpawned(events, id)
    requires id in st.pool ==> !st.pool[id].disabled
    ensures OfferedFrames(st, id) <= OfferedFrames(Run(st, events), id)
    decreases |events|
  {
    hide PromptsFine;
    if events != [] {
      var e := events[0];
      assert e in events;
      StepKeeps(st, e);
      OfferedFramesStep(st, e, id);
      OfferedFramesGrow(Step(st, e), events[1..], id);
    }
  }

  lemma OfferedFramesStep(st: State, e: Event, id: nat)
    requires id in st.pool ==> SessionFine(st, id) && !st.pool[id].disabled
    requires !(e.Spawn? && e.id == id)
    ensures var r := Step(st, e);
            && (id in r.pool ==> id in st.pool && !r.pool[id].disabled)
            && OfferedFrames(st, id) <= OfferedFrames(r, id)
  {
    hide SendPrompts;
    if e.Change? {
      SendPromptsKeepsSessions(st, e.id);
    }
  }

  // A session that gets its first final report in time is then handed over with all frames so far.
  lemma {:induction false} FramesAreHandedOver(st: State, events: seq<Event>, id: nat, k: nat)
    requires Invariant(st) && PossibleRun(st, events) && NotSpawned(events, id)
    requires Running(st, id) && !st.pool[id].disabled
    requires k < |events| && InTime(events, id, id in st.errored, k)
    requires forall j | 0 <= j < k :: !Final(events[j], id)
    ensures Frames(st.pool[id].runtime) + ReportedFrames(events[..k + 1], id) <= OfferedFrames(Run(st, events), id)
    decreases k
  {
    hide Invariant, Possible;
    var e := events[0];
    assert e in events;
    StepKeeps(st, e);
    StepOfRunning(st, e, id);
    FramesStep(st, e, id);
    var next := Step(st, e);
    assert events[..k + 1][0] == e && events[..k + 1][1..] == events[1..][..k];
    if k == 0 {
      assert ReportedFrames([], id) == [];
      OfferedFramesGrow(next, events[1..], id);
    } else {
      InTimeLater(events, id, id in st.errored, k);
      FramesAreHandedOver(next, events[1..], id, k - 1);
      FramesAssociative(st, e, id, ReportedFrames(events[1..][..k], id));
    }
  }

  lemma FramesAssociative(st: State, e: Event, id: nat, rest: seq<Frame>)
    requires id in st.pool
    ensures var f := if e.Change? && e.id == id then [e.frame] else [];
            Frames(st.pool[id].runtime) + (f + rest) == (Frames(st.pool[id].runtime) + f) + rest
  {
  }

  lemma InTimeLater(events: seq<Event>, id: nat, givenUp: bool, k: nat)
    requires 0 < k < |events| && InTime(events, id, givenUp, k)
    ensures InTime(events[1..], id, givenUp || events[0] == GiveUp(id), k - 1)
    ensures !(events[0].Collect? && givenUp)
  {
    var rest := events[1..];
    forall j | 0 <= j < k - 1 && rest[j].Collect?
      ensures !givenUp && events[0] != GiveUp(id) && GiveUp(id) !in rest[..j]
    {
      assert events[j + 1].Collect?;
      assert events[..j + 1] == [events[0]] + rest[..j];
    }
  }

  lemma FramesStep(st: State, e: Event, id: nat)
    requires id in st.pool && !st.pool[id].disabled && !(e.Spawn? && e.id == id)
    ensures var r := Step(st, e);
            && (id in r.pool ==>
                  && !r.pool[id].disabled
                  && Frames(r.pool[id].runtime)
                     == Frames(st.pool[id].runtime) + if e.Change? && e.id == id then [e.frame] else [])
            && (Final(e, id) ==> id in r.pool && OfferedFrames(r, id) == Frames(r.pool[id].runtime))
  {
    hide SendPrompts;
    if e.Change? {
      SendPromptsKeepsSessions(st, e.id);
    }
  }

  /** A running session that is never given up leaves the pool only by a final report and a collection. */
  lemma {:induction false} StaysUntilFinal(st: State, events: seq<Event>, id: nat)
    requires Running(st, id) && id !in st.errored && NotSpawned(events, id) && GiveUp(id) !in events
    requires id !in Run(st, events).pool
    ensures exists k | 0 <= k < |events| :: Final(events[k], id) && forall j | 0 <= j < k :: !Final(events[j], id)
    decreases |events|
  {
    hide Step;
    if events != [] {
      var e := events[0];
      assert e in events;
      StepOfRunning(st, e, id);
      if !Final(e, id) {
        StaysUntilFinal(Step(st, e), events[1..], id);
        var rest := events[1..];
        var k :| 0 <= k < |rest| && Final(rest[k], id) && forall j | 0 <= j < k :: !Final(rest[j], id);
        forall j | 0 <= j < k + 1
          ensures !Final(events[j], id)
        {
          if j > 0 {
            assert events[j] == events[1..][j - 1];
          }
        }
        assert Final(events[k + 1], id);
      }
    }
  }

  /**
   A session that left the pool without being given up was handed over completed, and, with stack
   traces, with every frame up to the report that ended it.
   */
  lemma LeavesOnlyWhenOver(events: seq<Event>, i: nat, id: nat)
    requires PossibleRun(EMPTY, events) && SpawnedOnceAt(events, i, id)
    requires GiveUp(id) !in events && id !in Run(EMPTY, events).pool
    ensures exists k ::
              && FirstFinal(events, i, id, k) && Ended(Run(EMPTY, events).offered, id)
              && (!events[i].disabled ==>
                    ReportedFrames(events[i + 1..k + 1], id) <= OfferedFrames(Run(EMPTY, events), id))
  {
    hide Invariant, Run, PossibleRun, Running, Ended, ReportedFrames, OfferedFrames;
    var st, rest := Run(EMPTY, events[..i + 1]), events[i + 1..];
    Spawned(events, i, id);
    NotGivenUp(events, i, rest, id);
    StaysUntilFinal(st, rest, id);
    var k :| 0 <= k < |rest| && Final(rest[k], id) && forall j | 0 <= j < k :: !Final(rest[j], id);
    assert InTime(rest, id, false, k);
    RunningEndsIff(st, rest, id);
    assert rest[..k + 1] == events[i + 1..k + i + 2];
    if !events[i].disabled {
      SpawnedInvariant(events, i, id);
      FramesAreHandedOver(st, rest, id, k);
      assert [] + ReportedFrames(rest[..k + 1], id) == ReportedFrames(rest[..k + 1], id);
    }
    FirstFinalShift(events, i, rest, id, k);
  }

  lemma FirstFinalShift(events: seq<Event>, i: nat, rest: seq<Event>, id: nat, k: nat)
    requires i < |events| && rest == events[i + 1..] && k < |rest|
    requires Final(rest[k], id) && forall j | 0 <= j < k :: !Final(rest[j], id)
    ensures FirstFinal(events, i, id, k + i + 1)
  {
    hide Final;
    forall j | i < j < k + i + 1
      ensures !Final(events[j], id)
    {
      assert events[j] == rest[j - i - 1];
    }
  }

  lemma NotGivenUp(events: seq<Event>, i: nat, rest: seq<Event>, id: nat)
    requires i < |events| && rest == events[i + 1..] && GiveUp(id) !in events
    ensures GiveUp(id) !in events[..i] && GiveUp(id) !in rest
    ensures forall j | 0 <= j <= |rest| :: GiveUp(id) !in rest[..j]
  {
  }

  lemma SpawnedInvariant(events: seq<Event>, i: nat, id: nat)
    requires PossibleRun(EMPTY, events) && i < |events|
    ensures Invariant(Run(EMPTY, events[..i + 1])) && PossibleRun(Run(EMPTY, events[..i + 1]), events[i + 1..])
  {
    hide Run, PossibleRun;
    assert events == events[..i + 1] + events[i + 1..];
    PossibleAppend(EMPTY, events[..i + 1], events[i + 1..]);
    EmptyInvariant();
    RunKeeps(EMPTY, events[..i + 1]);
  }

  predicate FirstFinal(events: seq<Event>, i: nat, id: nat, k: nat) {
    i < k < |events| && Final(events[k], id) && forall j | i < j < k :: !Final(events[j], id)
  }

  lemma EmptyInvariant()
    ensures Invariant(EMPTY)
  {
  }

  lemma {:induction false} PossibleAppend(st: State, a: seq<Event>, b: seq<Event>)
    requires PossibleRun(st, a + b)
    ensures PossibleRun(st, a) && PossibleRun(Run(st, a), b)
    decreases |a|
  {
    hide Step, Possible;
    if a == [] {
      assert a + b == b;
    } else {
      assert (a + b)[0] == a[0] && (a + b)[1..] == a[1..] + b;
      PossibleAppend(Step(st, a[0]), a[1..], b);
    }
  }

  // ----- Traces -----

  /** A session spawned with a trace, in the pool and as it was last handed over. */
  predicate TraceFine(st: State, id: nat, disabled: bool) {
    && (id in st.pool ==>
          var s := st.pool[id];
          s.disabled == disabled && (if disabled then s.runtime.None? else s.stack.Some?))
    && (id in st.offered ==>
          var s := st.offered[id];
          s.stack == s.runtime && (s.stack.Some? <==> !disabled))
  }

  lemma StepKeepsTrace(st: State, e: Event, id: nat, disabled: bool)
    requires TraceFine(st, id, disabled) && !(e.Spawn? && e.id == id)
    ensures TraceFine(Step(st, e), id, disabled)
  {
    hide SendPrompts;
    if e.Change? {
      SendPromptsKeepsSessions(st, e.id);
    }
  }

  lemma {:induction false} RunKeepsTrace(st: State, events: seq<Event>, id: nat, disabled: bool)
    requires TraceFine(st, id, disabled) && NotSpawned(events, id)
    ensures TraceFine(Run(st, events), id, disabled)
    decreases |events|
  {
    hide Step, TraceFine;
    if events != [] {
      assert events[0] in events;
      StepKeepsTrace(st, events[0], id, disabled);
      RunKeepsTrace(Step(st, events[0]), events[1..], id, disabled);
    }
  }

  /**
   Over runs: whenever a session that was spawned with a trace is handed over, its trace is all its
   frames, if stack traces are enabled, and gone, if they are not.
   */
  lemma TraceKeptIffEnabled(events: seq<Event>, i: nat, id: nat)
    requires SpawnedOnceAt(events, i, id) && events[i].trace && id in Run(EMPTY, events).offered
    ensures var s := Run(EMPTY, events).offered[id];
            s.stack == s.runtime && (s.stack.Some? <==> !events[i].disabled)
  {
    hide Run, TraceFine;
    Spawned(events, i, id);
    SpawnedTrace(events, i, id);
    RunKeepsTrace(Run(EMPTY, events[..i + 1]), events[i + 1..], id, events[i].disabled);
    TraceOf(Run(EMPTY, events), id, events[i].disabled);
  }

  lemma TraceOf(st: State, id: nat, disabled: bool)
    requires TraceFine(st, id, disabled) && id in st.offered
    ensures st.offered[id].stack == st.offered[id].runtime && (st.offered[id].stack.Some? <==> !disabled)
  {
  }

  lemma SpawnedTrace(events: seq<Event>, i: nat, id: nat)
    requires SpawnedOnceAt(events, i, id) && events[i].trace
    ensures TraceFine(Run(EMPTY, events[..i + 1]), id, events[i].disabled)
  {
    var before := Run(EMPTY, events[..i]);
    assert events[..i + 1] == events[..i] + [events[i]];
    RunAppend(EMPTY, events[..i], [events[i]]);
    assert Run(before, [events[i]]) == Step(before, events[i]);
    GoneStays(EMPTY, events[..i], id);
  }
}
