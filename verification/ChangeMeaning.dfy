/**
 What changes of a workflow do to the stored row and to the cache, field by field and told without the
 steps that make them (automation/service/workflow.go:194-259, 309-361, 370-489).
 */
module ChangeMeaning {
  import opened WorkflowTypes
  import opened Definitions
  import opened Workflows
  import opened WorkflowCache

  /** The workflow is cached with this row, the issues found and the graph of its own definition. */
  predicate CachedAs(reg: Registry, st: State, row: Workflow, issues: seq<WorkflowIssue>) {
    && row.id in st.cache
    && st.cache[row.id].wf.(issues := row.issues, labels := row.labels) == row
    && st.cache[row.id].wf.issues == issues
    && st.cache[row.id].g == GraphFor(reg, row)
  }

  /** Cached with its row if it is enabled and not deleted, and else not cached. */
  predicate CachedIfInUse(reg: Registry, st: State, row: Workflow, issues: seq<WorkflowIssue>) {
    if row.enabled && row.deletedAt.None? then CachedAs(reg, st, row, issues) else row.id !in st.cache
  }

  /** A committed delete marks the row as deleted, keeps all else, and takes the workflow out of the cache. */
  lemma Deleted(reg: Registry, st: State, id: nat, o: Outcome)
    requires CacheFine(reg, st) && ProgressOf(st, id, Delete, o).Committed?
    ensures var r := Save(reg, st, id, Delete, o);
            && id in st.store && id in r.store && r.store[id].deletedAt.Some?
            && (st.store[id].deletedAt.None? ==> r.store[id].deletedAt == Some(o.now))
            && (st.store[id].deletedAt.Some? ==> r.store[id].deletedAt == st.store[id].deletedAt)
            && r.store[id].(deletedAt := st.store[id].deletedAt, issues := st.store[id].issues) == st.store[id]
            && id !in r.cache
  {
    hide GraphFor, ItemFine;
  }

  /** A committed undelete clears the mark, keeps all else, and caches the workflow if it is enabled. */
  lemma Undeleted(reg: Registry, st: State, id: nat, o: Outcome)
    requires CacheFine(reg, st) && ProgressOf(st, id, Undelete, o).Committed?
    ensures var r := Save(reg, st, id, Undelete, o);
            && id in st.store && id in r.store && r.store[id].deletedAt.None?
            && r.store[id].(deletedAt := st.store[id].deletedAt, issues := st.store[id].issues) == st.store[id]
            && CachedIfInUse(reg, r, r.store[id], o.issues)
  {
    hide ItemFine;
  }

  /** Something but labels differs from the row. */
  predicate Differs(row: Workflow, u: Update) {
    || row.handle != u.handle || row.enabled != u.enabled || row.trace != u.trace || row.keepSessions != u.keepSessions
    || (u.meta.Some? && u.meta.value != row.meta) || (u.scope.Some? && u.scope.value != row.scope)
    || (u.steps.Some? && u.steps.value != row.steps) || (u.paths.Some? && u.paths.value != row.paths)
    || row.runAs != u.runAs || row.ownedBy != u.ownedBy
  }

  /** The row as requested: requested values, and the old ones where nothing is requested. */
  predicate AsRequested(row: Workflow, u: Update, new_: Workflow) {
    && new_.id == row.id && new_.deletedAt == row.deletedAt
    && new_.handle == u.handle && new_.enabled == u.enabled && new_.trace == u.trace
    && new_.keepSessions == u.keepSessions && new_.runAs == u.runAs && new_.ownedBy == u.ownedBy
    && (u.meta.Some? ==> new_.meta == u.meta.value) && (u.meta.None? ==> new_.meta == row.meta)
    && (u.scope.Some? ==> new_.scope == u.scope.value) && (u.scope.None? ==> new_.scope == row.scope)
    && (u.steps.Some? ==> new_.steps == u.steps.value) && (u.steps.None? ==> new_.steps == row.steps)
    && (u.paths.Some? ==> new_.paths == u.paths.value) && (u.paths.None? ==> new_.paths == row.paths)
  }

  lemma ChangedIffDiffers(row: Workflow, u: Update, now: nat)
    ensures Changed(row, Modify(u), now).1 <==> Differs(row, u)
    ensures AsRequested(row, u, Changed(row, Modify(u), now).0)
    ensures Changed(row, Modify(u), now).0.updatedAt == if Differs(row, u) then Some(now) else row.updatedAt
    ensures Changed(row, Modify(u), now).0.labels == if u.labels.Some? then u.labels.value else row.labels
  {
    var m := Merged(row, u);
    assert AsRequested(row, u, m) && m.updatedAt == row.updatedAt && m.issues == row.issues;
    hide Merged;
    SameRowIff(m, row);
  }

  lemma SameRowIff(a: Workflow, b: Workflow)
    ensures SameRow(a, b) <==>
            && a.id == b.id && a.handle == b.handle && a.meta == b.meta && a.enabled == b.enabled && a.trace == b.trace
            && a.keepSessions == b.keepSessions && a.scope == b.scope && a.steps == b.steps && a.paths == b.paths
            && a.runAs == b.runAs && a.ownedBy == b.ownedBy && a.updatedAt == b.updatedAt && a.deletedAt == b.deletedAt
  {
  }

  /**
   A committed update stores exactly what was requested, dated if anything but labels differs, with the
   labels if these got through, and caches it if it is in use.
   */
  lemma Updated(reg: Registry, st: State, id: nat, u: Update, o: Outcome)
    requires CacheFine(reg, st) && ProgressOf(st, id, Modify(u), o).Committed?
    ensures var r := Save(reg, st, id, Modify(u), o);
            && id in st.store && id in r.store && AsRequested(st.store[id], u, r.store[id])
            && r.store[id].updatedAt == (if Differs(st.store[id], u) then Some(o.now) else st.store[id].updatedAt)
            && r.store[id].labels
               == (if u.labels.Some? && o.labelled && o.commits then u.labels.value else st.store[id].labels)
            && CachedIfInUse(reg, r, r.store[id], o.issues)
  {
    ChangedIffDiffers(st.store[id], u, o.now);
    UpdatedStored(st.store[id], u, o);
    hide Changed, Differs, ItemFine, Stored;
    StoredIsSame(st.store[id], Modify(u), o);
    CachesResult(reg, st.cache, Result(st.store[id], Modify(u), o), Stored(st.store[id], Modify(u), o));
  }

  lemma UpdatedStored(row: Workflow, u: Update, o: Outcome)
    ensures var new_ := Stored(row, Modify(u), o);
            && AsRequested(row, u, new_)
            && new_.updatedAt == (if Differs(row, u) then Some(o.now) else row.updatedAt)
            && new_.labels == (if u.labels.Some? && o.labelled && o.commits then u.labels.value else row.labels)
  {
    ChangedIffDiffers(row, u, o.now);
    hide Changed;
  }

  lemma CachesResult(reg: Registry, cache: map<nat, Item>, wf: Workflow, stored: Workflow)
    requires SameRow(wf, stored)
    ensures CachedIfInUse(reg, State(map[], UpdateCache(reg, cache, wf)), stored, wf.issues)
  {
    hide GraphFor;
    SameRowIff(wf, stored);
    assert GraphFor(reg, wf) == GraphFor(reg, stored) by {
      SameGraph(reg, wf, stored);
    }
  }

  lemma SameGraph(reg: Registry, a: Workflow, b: Workflow)
    requires a.steps == b.steps && a.paths == b.paths
    ensures GraphFor(reg, a) == GraphFor(reg, b)
  {
  }

  /** A committed create stores the new row as requested, and caches it if it is enabled. */
  lemma Created(reg: Registry, st: State, id: nat, row: Workflow, o: Outcome)
    requires CacheFine(reg, st) && ProgressOf(st, id, Create(row), o).Committed?
    ensures var r := Save(reg, st, id, Create(row), o);
            && id in r.store
            && r.store[id] == row.(id := id, updatedAt := None, deletedAt := None, issues := o.issues)
            && CachedIfInUse(reg, r, r.store[id], o.issues)
  {
    hide ItemFine;
  }

  /** There is something to write: a new row, a change of the mark, or another value. */
  predicate HasToWrite(row: Workflow, c: Change) {
    match c
    case Create(_) => true
    case Delete => row.deletedAt.None?
    case Undelete => row.deletedAt.Some?
    case Modify(u) => Differs(row, u)
  }

  /**
   A change gets through if and only if it is allowed, the workflow exists or is created, validation does
   not fail, its triggers are registered unless there are issues, and the row is written if there is
   something to write or there are issues; a new row needs its labels and the commit, too. Otherwise the
   store stays as it was.
   */
  lemma CommittedIff(reg: Registry, st: State, id: nat, c: Change, o: Outcome)
    ensures !c.Create? && (id == 0 || id !in st.store) ==> !ProgressOf(st, id, c, o).Committed?
    ensures c.Create? || (id != 0 && id in st.store) ==>
              (ProgressOf(st, id, c, o).Committed? <==>
               && o.allowed && o.validated
               && (o.issues == [] ==> o.registered)
               && (HasToWrite(if c.Create? then c.row else st.store[id], c) || o.issues != [] ==> o.stored)
               && (c.Create? ==> o.labelled && o.commits))
    ensures !ProgressOf(st, id, c, o).Committed? ==> Save(reg, st, id, c, o).store == st.store
  {
    if c.Modify? && id in st.store {
      ChangedIffDiffers(st.store[id], c.upd, o.now);
    }
    hide GraphFor, UpdateCache, Differs, Merged;
  }

  function Enabled(store: map<nat, Workflow>): set<nat> {
    set j | j in store && store[j].enabled && store[j].deletedAt.None?
  }

  /**
   Over runs: a workflow whose last load or change got through is cached if and only if its row is
   enabled and not deleted, and then with that row and its own graph.
   */
  lemma CachedIffInUse(reg: Registry, store: map<nat, Workflow>, events: seq<Event>, id: nat)
    requires forall j | j in store :: store[j].id == j
    requires PossibleRun(reg, State(store, map[]), events)
    requires id !in RunUnsettled(reg, State(store, map[]), events, Enabled(store))
    ensures var r := Run(reg, State(store, map[]), events);
            && (id in r.cache <==> id in r.store && r.store[id].enabled && r.store[id].deletedAt.None?)
            && (id in r.cache ==> CachedAs(reg, r, r.store[id], r.cache[id].wf.issues))
  {
    hide Run, RunUnsettled, PossibleRun, GraphFor;
    assert InUse(store) == Enabled(store);
    CacheIsCoherent(reg, store, events);
    var r := Run(reg, State(store, map[]), events);
    assert Coherent(r, id) && CacheFine(reg, r);
    if id in r.cache {
      SameRowIff(r.cache[id].wf, r.store[id]);
      SameGraph(reg, r.cache[id].wf, r.store[id]);
    }
  }
}
