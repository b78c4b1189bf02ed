/**
 The session service (automation/service/session.go:178-296, 362-495): the handlers that change
 the pool and the sessions in it, proved to take the steps of module Sessions.
 */
module SessionService {
  import opened WorkflowTypes
  import opened Sessions

  class Service {
    var pool: map<nat, Session>
    // what was last handed to the store, and what the store accepted
    var offered: map<nat, Session>
    var stored: map<nat, Session>
    // state of the engine: failed sessions and pending prompts
    var errored: set<nat>
    var pending: map<nat, map<nat, bool>>
    var issued: set<nat>
    // messages to users
    var sent: multiset<nat>

    function State(): Sessions.State
      reads this
    {
      Sessions.State(pool, offered, stored, errored, pending, sent, issued)
    }

    constructor ()
      ensures State() == EMPTY
    {
      pool, offered, stored, errored, pending, sent, issued := map[], map[], map[], {}, map[], multiset{}, {};
    }

    /** Adds a new session with the requested tracing to the pool. */
    method Spawn(id: nat, workflowID: nat, trace: bool, stackTraceEnabled: bool)
      modifies this`pool
      ensures State() == Step(old(State()), Event.Spawn(id, workflowID, trace, !stackTraceEnabled))
    {
      var s := Session(workflowID, Started, None, None, "", None, None, false);
      if !stackTraceEnabled {
        s := s.(disabled := true);
      }
      if trace {
        s := s.(stack := Some([]));
      }
      pool := pool[id := s];
    }

    /** Marks and sends the prompts of a session that were not sent yet. */
    method SendUnsent(id: nat)
      modifies this`pending, this`sent
      ensures State() == SendPrompts(old(State()), id)
    {
      var prompts: map<nat, bool> := if id in pending then pending[id] else map[];
      var marked, messages := MarkAndSend(prompts);
      sent := sent + messages;
      pending := pending[id := marked];
    }

    /** The handler the engine calls on every state change. */
    method StateChangeHandler(id: nat, reported: Reported, frame: Frame, now: nat, accepted: bool)
      modifies this`pool, this`pending, this`sent, this`offered, this`stored
      ensures State() == Step(old(State()), Change(id, reported, frame, now, accepted))
    {
      hide SendPrompts;
      if id !in pool {
        return;
      }
      var s := pool[id];
      var update := true;
      if !s.disabled {
        s := s.(runtime := Some((if s.runtime.Some? then s.runtime.value else []) + [frame]));
      }
      match reported {
        case AtPrompt =>
          s := s.(suspendedAt := Some(now));
          s := s.(status := Prompted);
          SendUnsent(id);
        case Delayed =>
          s := s.(suspendedAt := Some(now));
          s := s.(status := Suspended);
        case Completion =>
          s := s.(suspendedAt := None);
          s := s.(completedAt := Some(now));
          s := s.(status := Completed);
        case Failure(error) =>
          s := s.(suspendedAt := None);
          s := s.(completedAt := Some(now));
          s := s.(error := error);
          s := s.(status := Failed);
        case Active =>
          update := s.runtime.Some? && |s.runtime.value| % FLUSH_FREQUENCY == 0;
      }
      if !update {
        pool := pool[id := s];
        return;
      }
      Flush(id, s, accepted);
    }

    /** Hands a session to the store, with its trace if it keeps one or has an error. */
    method Flush(id: nat, session: Session, accepted: bool)
      modifies this`pool, this`offered, this`stored
      ensures pool == old(pool)[id := CopyTrace(session)] && offered == old(offered)[id := CopyTrace(session)]
      ensures stored == if accepted then old(stored)[id := CopyTrace(session)] else old(stored)
    {
      var s := session;
      if s.stack.Some? || s.error != "" {
        s := s.(stack := s.runtime);
      }
      pool := pool[id := s];
      offered := offered[id := s];
      if accepted {
        stored := stored[id := s];
      }
    }

    /** Removes the sessions that are over. */
    method Gc()
      modifies this`pool
      ensures State() == Step(old(State()), Collect)
    {
      var todo := pool.Keys;
      while todo != {}
        invariant todo <= old(pool).Keys
        invariant forall id :: id in pool <==> id in old(pool) && (id in todo || !Collectable(old(State()), id))
        invariant forall id | id in pool :: pool[id] == old(pool)[id]
      {
        var id :| id in todo;
        var s := pool[id];
        if s.completedAt.Some? || id in errored {
          pool := pool - {id};
        }
        todo := todo - {id};
      }
    }
  }

  /** Goes over the unsent prompts in any order, marking and sending each. */
  method MarkAndSend(prompts: map<nat, bool>) returns (marked: map<nat, bool>, messages: multiset<nat>)
    ensures marked == AllSent(prompts)
    ensures messages == multiset(Unsent(prompts))
  {
    var todo := Unsent(prompts);
    ghost var all := todo;
    marked, messages := prompts, multiset{};
    while todo != {}
      invariant todo <= all && marked.Keys == prompts.Keys
      invariant forall p | p in prompts :: marked[p] <==> p !in todo
      invariant messages == multiset(all - todo)
    {
      var p :| p in todo;
      OneMoreSent(all, todo, p);
      marked := marked[p := true];
      messages := messages + multiset{p};
      todo := todo - {p};
    }
    assert all - todo == all;
  }

  lemma OneMoreSent(all: set<nat>, todo: set<nat>, p: nat)
    requires p in todo && todo <= all
    ensures multiset(all - (todo - {p})) == multiset(all - todo) + multiset{p}
  {
    assert all - (todo - {p}) == (all - todo) + {p};
  }
}
