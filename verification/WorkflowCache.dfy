/**
 The cache of the workflow service and the workflow store (automation/service/workflow.go:194-530)
 as a transition system. An event carries what the environment answers: access checks, found
 issues, and which of the later stages fail.
 */
module WorkflowCache {
  import opened WorkflowTypes
  import opened Definitions
  import opened Workflows
  import Resolution

  datatype Item = Item(wf: Workflow, g: Option<GraphValue>)

  datatype State = State(store: map<nat, Workflow>, cache: map<nat, Item>)

  /**
   `allowed`: access, handle, uniqueness and staleness checks pass; `validated`: validation
   returns no error; `issues`: what it finds; `registered`, `stored`, `labelled`, `commits`: the
   later stages succeed.
   */
  datatype Outcome = Outcome(
    allowed: bool,
    validated: bool,
    issues: seq<WorkflowIssue>,
    registered: bool,
    stored: bool,
    labelled: bool,
    commits: bool,
    now: nat)

  function Def(wf: Workflow): Definition {
    Definition(wf.steps, wf.paths)
  }

  function GraphFor(reg: Registry, wf: Workflow): Option<GraphValue> {
    Resolution.GraphOf(reg, Def(wf))
  }

  /** Validation reports at least the issues of the conversion. */
  predicate Honest(reg: Registry, wf: Workflow, o: Outcome) {
    o.issues == [] ==> GraphFor(reg, wf).Some?
  }

  // ----- Changes -----

  /** The requested values of an update; what is None is left alone. */
  datatype Update = Update(
    handle: string,
    enabled: bool,
    labels: Option<map<string, string>>,
    trace: bool,
    keepSessions: int,
    meta: Option<string>,
    scope: Option<Vars>,
    steps: Option<seq<Step>>,
    paths: Option<seq<Path>>,
    runAs: nat,
    ownedBy: nat)

  datatype Change =
    | Create(row: Workflow)
    | Modify(upd: Update)
    | Delete
    | Undelete

  function OrElse<T>(x: Option<T>, y: T): T {
    if x.Some? then x.value else y
  }

  /** The row with everything but the time of the update set. */
  function Merged(row: Workflow, u: Update): Workflow {
    row.(handle := u.handle, enabled := u.enabled, labels := OrElse(u.labels, row.labels), trace := u.trace,
         keepSessions := u.keepSessions, meta := OrElse(u.meta, row.meta), scope := OrElse(u.scope, row.scope),
         steps := OrElse(u.steps, row.steps), paths := OrElse(u.paths, row.paths), runAs := u.runAs,
         ownedBy := u.ownedBy)
  }

  /** Rows that differ in issues and labels at most. */
  predicate SameRow(a: Workflow, b: Workflow) {
    a.(issues := [], labels := map[]) == b.(issues := [], labels := map[])
  }

  /** What a change makes of a row, and whether the row has to be written. */
  function Changed(row: Workflow, c: Change, now: nat): (Workflow, bool) {
    match c
    case Create(_) => (row, true)
    case Modify(u) =>
      var m := Merged(row, u);
      if SameRow(m, row) then (m, false) else (m.(updatedAt := Some(now)), true)
    case Delete => if row.deletedAt.Some? then (row, false) else (row.(deletedAt := Some(now)), true)
    case Undelete => if row.deletedAt.None? then (row, false) else (row.(deletedAt := None), true)
  }

  // ----- Transitions -----

  function UpdateCache(reg: Registry, cache: map<nat, Item>, wf: Workflow): map<nat, Item> {
    if Executable(wf) then cache[wf.id := Item(wf, GraphFor(reg, wf))] else cache - {wf.id}
  }

  /** The row a change works on: the new one or the stored one. */
  function Row(st: State, id: nat, c: Change): Option<Workflow> {
    if c.Create? then Some(c.row.(id := id, updatedAt := None, deletedAt := None))
    else if id != 0 && id in st.store then Some(st.store[id])
    else None
  }

  /** How far a change gets. */
  datatype Progress = Rejected | Torn | Committed

  function ProgressOf(st: State, id: nat, c: Change, o: Outcome): Progress {
    var row := Row(st, id, c);
    if row.None? || !o.allowed || !o.validated then Rejected
    else
      var (_, write) := Changed(row.value, c, o.now);
      if o.issues == [] && !o.registered then Torn
      else if (write || o.issues != []) && !o.stored then Torn
      else if c.Create? && !(o.labelled && o.commits) then Torn
      else Committed
  }

  /** The row as the change leaves it, with the issues found. */
  function Result(row: Workflow, c: Change, o: Outcome): Workflow {
    Changed(row, c, o.now).0.(issues := o.issues)
  }

  /** The row as it is stored in the end: labels are stored apart, in the transaction. */
  function Stored(row: Workflow, c: Change, o: Outcome): Workflow {
    var wf := Result(row, c, o);
    var written := if Changed(row, c, o.now).1 || o.issues != [] then wf else row;
    written.(labels := if o.labelled && o.commits then wf.labels else row.labels)
  }

  /**
   One create, update, delete or undelete. The cache is updated before triggers are registered
   and the row is written; a failure in between leaves the cache ahead of the store. The row of
   an update is not written in the transaction, so failing labels do not take it back.
   */
  function Save(reg: Registry, st: State, id: nat, c: Change, o: Outcome): State {
    var row := Row(st, id, c);
    var p := ProgressOf(st, id, c, o);
    if p.Rejected? || row.None? then st
    else
      var cache := UpdateCache(reg, st.cache, Result(row.value, c, o));
      if p.Torn? then State(st.store, cache)
      else State(st.store[id := Stored(row.value, c, o)], cache)
  }

  predicate NewLabels(row: Workflow, c: Change, o: Outcome) {
    Result(row, c, o).labels != row.labels
  }

  /** The change is reported as done. */
  predicate ReportedDone(st: State, id: nat, c: Change, o: Outcome) {
    && ProgressOf(st, id, c, o).Committed?
    && (NewLabels(Row(st, id, c).value, c, o) ==> o.labelled)
    && o.commits
  }

  /** The loop of Load over the enabled rows. */
  function LoadRows(reg: Registry, cache: map<nat, Item>, rows: seq<Workflow>, found: map<nat, Outcome>): map<nat, Item>
    decreases |rows|
  {
    if rows == [] then cache
    else
      var wf := rows[0];
      var next := if wf.id in found && found[wf.id].validated
                  then UpdateCache(reg, cache, wf.(issues := found[wf.id].issues)) else cache;
      LoadRows(reg, next, rows[1..], found)
  }

  datatype Event =
    | Change(id: nat, change: Change, outcome: Outcome)
    | Load(rows: seq<Workflow>, found: map<nat, Outcome>)

  predicate WellFormed(st: State) {
    && (forall id | id in st.store :: st.store[id].id == id)
    && (forall id | id in st.cache :: st.cache[id].wf.id == id)
  }

  /** What the environment guarantees: new IDs are fresh, loading sees the enabled rows. */
  predicate Possible(reg: Registry, st: State, e: Event) {
    match e
    case Change(id, c, o) =>
      && (c.Create? ==> id != 0 && id !in st.store && id !in st.cache)
      && (Row(st, id, c).Some? ==> Honest(reg, Result(Row(st, id, c).value, c, o), o))
    case Load(rows, found) =>
      && (forall id | id in st.store && st.store[id].enabled :: st.store[id] in rows)
      && (forall wf | wf in rows :: wf.id in st.store && st.store[wf.id] == wf && wf.enabled)
      && (forall wf | wf in rows && wf.id in found :: Honest(reg, wf, found[wf.id]))
  }

  function Step(reg: Registry, st: State, e: Event): State {
    match e
    case Change(id, c, o) => Save(reg, st, id, c, o)
    case Load(rows, found) => State(st.store, LoadRows(reg, st.cache, rows, found))
  }

  // ----- Coherence -----

  /** Cached graphs belong to the cached definition, and workflows without issues have one. */
  predicate ItemFine(reg: Registry, item: Item) {
    && item.g == GraphFor(reg, item.wf)
    && (item.wf.issues == [] ==> item.g.Some?)
  }

  predicate CacheFine(reg: Registry, st: State) {
    WellFormed(st) && forall id | id in st.cache :: ItemFine(reg, st.cache[id])
  }

  /** Cached exactly when the stored row is enabled and not deleted, and then with that row. */
  predicate Coherent(st: State, id: nat) {
    && (id in st.cache <==> id in st.store && Executable(st.store[id]))
    && (id in st.cache ==> SameRow(st.cache[id].wf, st.store[id]))
  }

  lemma ResultKeepsID(row: Workflow, c: Change, o: Outcome)
    ensures Result(row, c, o).id == row.id
    ensures !Changed(row, c, o.now).1 ==>
              !c.Create? && SameRow(Result(row, c, o), row) && Executable(Result(row, c, o)) == Executable(row)
  {
  }

  lemma UpdateCacheFine(reg: Registry, st: State, wf: Workflow)
    requires CacheFine(reg, st) && (wf.issues == [] ==> GraphFor(reg, wf).Some?)
    ensures var cache := UpdateCache(reg, st.cache, wf);
            && (forall id | id in cache :: cache[id].wf.id == id && ItemFine(reg, cache[id]))
            && (forall id | id != wf.id ::
                  (id in cache <==> id in st.cache) && (id in cache ==> cache[id] == st.cache[id]))
            && (wf.id in cache <==> Executable(wf))
            && (wf.id in cache ==> cache[wf.id].wf == wf)
  {
    hide GraphFor;
  }

  // Caching a row and storing one that is the same.
  lemma CachedRowKeeps(reg: Registry, st: State, wf: Workflow)
    requires CacheFine(reg, st) && (wf.issues == [] ==> GraphFor(reg, wf).Some?)
    ensures var cache := UpdateCache(reg, st.cache, wf);
            && CacheFine(reg, State(st.store, cache))
            && (forall j | j != wf.id :: Coherent(State(st.store, cache), j) <==> Coherent(st, j))
  {
    hide GraphFor, UpdateCache, ItemFine, Executable;
    UpdateCacheFine(reg, st, wf);
  }

  lemma StoredRowKeeps(reg: Registry, st: State, wf: Workflow, stored: Workflow)
    requires CacheFine(reg, st) && (wf.issues == [] ==> GraphFor(reg, wf).Some?)
    requires stored.id == wf.id && SameRow(wf, stored) && Executable(wf) == Executable(stored)
    ensures var r := State(st.store[wf.id := stored], UpdateCache(reg, st.cache, wf));
            && CacheFine(reg, r) && Coherent(r, wf.id)
            && (forall j | j != wf.id :: Coherent(r, j) <==> Coherent(st, j))
  {
    hide GraphFor, UpdateCache, ItemFine, Executable;
    UpdateCacheFine(reg, st, wf);
  }

  lemma StoredIsSame(row: Workflow, c: Change, o: Outcome)
    ensures var wf, stored := Result(row, c, o), Stored(row, c, o);
            stored.id == wf.id == row.id && SameRow(wf, stored) && Executable(wf) == Executable(stored)
  {
    hide Merged;
    MergedKeeps(row, c);
  }

  lemma MergedKeeps(row: Workflow, c: Change)
    ensures c.Modify? ==> Merged(row, c.upd).id == row.id && Merged(row, c.upd).updatedAt == row.updatedAt
    ensures c.Modify? ==> Merged(row, c.upd).issues == row.issues && Merged(row, c.upd).deletedAt == row.deletedAt
  {
  }

  lemma SaveKeeps(reg: Registry, st: State, id: nat, c: Change, o: Outcome)
    requires CacheFine(reg, st) && Possible(reg, st, Change(id, c, o))
    ensures var r := Save(reg, st, id, c, o);
            && CacheFine(reg, r)
            && (forall j | j != id :: Coherent(r, j) <==> Coherent(st, j))
            && (ProgressOf(st, id, c, o).Rejected? ==> r == st)
            && (ProgressOf(st, id, c, o).Committed? ==> Coherent(r, id))
  {
    var row := Row(st, id, c);
    if row.Some? && !ProgressOf(st, id, c, o).Rejected? {
      var wf := Result(row.value, c, o);
      RowHasID(reg, st, id, c);
      hide CacheFine, Coherent, GraphFor, Result, Changed, UpdateCache, Executable, Row, SameRow, Stored;
      StoredIsSame(row.value, c, o);
      GraphIgnoresIssues(reg, row.value, c, o);
      CachedRowKeeps(reg, st, wf);
      StoredRowKeeps(reg, st, wf, Stored(row.value, c, o));
    }
  }

  lemma RowHasID(reg: Registry, st: State, id: nat, c: Change)
    requires CacheFine(reg, st) && Row(st, id, c).Some?
    ensures Row(st, id, c).value.id == id
    ensures !c.Create? ==> id in st.store && Row(st, id, c).value == st.store[id]
  {
    hide ItemFine;
  }

  lemma GraphIgnoresIssues(reg: Registry, row: Workflow, c: Change, o: Outcome)
    requires Honest(reg, Result(row, c, o), o)
    ensures Result(row, c, o).issues == o.issues
    ensures Result(row, c, o).issues == [] ==> GraphFor(reg, Result(row, c, o)).Some?
  {
    hide GraphFor;
  }

  /**
   After a torn change the cache agrees with the store if and only if there was nothing to write, or
   neither the stored row nor what it should become is enabled and not deleted; after a torn create,
   if and only if the new workflow is not enabled.
   */
  lemma TornIsCoherentIff(reg: Registry, st: State, id: nat, c: Change, o: Outcome)
    requires CacheFine(reg, st) && Possible(reg, st, Change(id, c, o))
    requires ProgressOf(st, id, c, o).Torn?
    ensures Coherent(Save(reg, st, id, c, o), id) <==>
            if c.Create? then !c.row.enabled
            else
              var (next, write) := Changed(st.store[id], c, o.now);
              !write || (!Executable(st.store[id]) && !Executable(next))
  {
    hide GraphFor, ItemFine, Honest;
    var row := Row(st, id, c).value;
    ResultKeepsID(row, c, o);
    WrittenRowsDiffer(row, c, o);
  }

  // A change that has to be written leaves another row, or ends or starts the use of the workflow.
  lemma WrittenRowsDiffer(row: Workflow, c: Change, o: Outcome)
    ensures !c.Create? && Changed(row, c, o.now).1 && Executable(row) && Executable(Changed(row, c, o.now).0)
            ==> !SameRow(Result(row, c, o), row)
    ensures Executable(Result(row, c, o)) == Executable(Changed(row, c, o.now).0)
  {
    if c.Modify? {
      var m := Merged(row, c.upd);
      assert m.updatedAt == row.updatedAt;
      hide Merged;
      var blank := row.(issues := [], labels := map[], updatedAt := None);
      if m.(issues := [], labels := map[], updatedAt := None) == blank {
        assert SameRow(m, row);
      }
    }
  }

  /** Renaming an active workflow while the store fails: the cache has the new name, the store the old one. */
  lemma TornRenameDisagrees(reg: Registry, row: Workflow, upd: Update, now: nat)
    requires row.id != 0 && Executable(row) && upd.enabled && upd.handle != row.handle
    ensures var st := State(map[row.id := row], map[]);
            var o := Outcome(true, true, [RunAsIssue], true, false, true, true, now);
            var r := Save(reg, st, row.id, Modify(upd), o);
            && ProgressOf(st, row.id, Modify(upd), o).Torn?
            && row.id in r.cache && r.cache[row.id].wf.handle == upd.handle
            && r.store[row.id].handle == row.handle && !Coherent(r, row.id)
  {
    hide GraphFor;
  }

  /**
   A change of a stored workflow that is reported as failed has changed the stored workflow all the same
   if and only if it got through to the store, with something to write that differs, and only labels or
   the commit failed.
   */
  lemma FailureWritesIff(reg: Registry, st: State, id: nat, c: Change, o: Outcome)
    requires CacheFine(reg, st) && !c.Create? && id in st.store && !ReportedDone(st, id, c, o)
    ensures var row := st.store[id];
            id in Save(reg, st, id, c, o).store &&
            (Save(reg, st, id, c, o).store[id] != row <==>
              && ProgressOf(st, id, c, o).Committed?
              && (Changed(row, c, o.now).1 || (o.issues != [] && o.issues != row.issues))
              && (!o.commits || (NewLabels(row, c, o) && !o.labelled)))
  {
    hide GraphFor, UpdateCache, ItemFine;
    var row := st.store[id];
    if ProgressOf(st, id, c, o).Committed? {
      StoredDiffersIff(row, c, o);
    }
  }

  lemma SameAfterWriting(m: Workflow, row: Workflow, stored: Workflow)
    requires m.updatedAt == row.updatedAt
    requires m.(issues := [], labels := map[], updatedAt := None)
             == stored.(issues := [], labels := map[], updatedAt := None)
    ensures stored == row ==> SameRow(m, row)
  {
  }

  lemma StoredDiffersIff(row: Workflow, c: Change, o: Outcome)
    requires !c.Create? && (!(o.labelled && o.commits) || !NewLabels(row, c, o))
    ensures Stored(row, c, o) != row <==> Changed(row, c, o.now).1 || (o.issues != [] && o.issues != row.issues)
  {
    var (next, write) := Changed(row, c, o.now);
    var stored := Stored(row, c, o);
    if write && c.Modify? {
      MergedKeeps(row, c);
      var m := Merged(row, c.upd);
      hide Merged;
      SameAfterWriting(m, row, stored);
    }
  }

  /** An update of handle and labels that fails at the labels is reported as failed; the new handle is stored. */
  lemma FailedUpdateIsStored(reg: Registry, row: Workflow, upd: Update, now: nat)
    requires row.id != 0 && upd.handle != row.handle && upd.labels.Some? && upd.labels.value != row.labels
    ensures var st := State(map[row.id := row], map[]);
            var o := Outcome(true, true, [RunAsIssue], true, true, false, true, now);
            var r := Save(reg, st, row.id, Modify(upd), o);
            && !ReportedDone(st, row.id, Modify(upd), o)
            && row.id in r.store && r.store[row.id].handle == upd.handle && r.store[row.id].labels == row.labels
  {
    hide GraphFor;
  }

  lemma LoadOneKeeps(reg: Registry, st: State, wf: Workflow, o: Outcome)
    requires CacheFine(reg, st) && wf.id in st.store && st.store[wf.id] == wf && Honest(reg, wf, o)
    ensures var r := State(st.store, UpdateCache(reg, st.cache, wf.(issues := o.issues)));
            && CacheFine(reg, r) && Coherent(r, wf.id)
            && (forall id | Coherent(st, id) :: Coherent(r, id))
  {
    var wf' := wf.(issues := o.issues);
    assert GraphFor(reg, wf') == GraphFor(reg, wf);
    hide GraphFor, UpdateCache, ItemFine;
    UpdateCacheFine(reg, st, wf');
  }

  lemma {:induction false} LoadKeeps(reg: Registry, st: State, cache: map<nat, Item>, rows: seq<Workflow>,
          found: map<nat, Outcome>)
    requires CacheFine(reg, State(st.store, cache))
    requires forall wf | wf in rows :: wf.id in st.store && st.store[wf.id] == wf
    requires forall wf | wf in rows && wf.id in found :: Honest(reg, wf, found[wf.id])
    ensures var r := State(st.store, LoadRows(reg, cache, rows, found));
            && CacheFine(reg, r)
            && (forall id | Coherent(State(st.store, cache), id) :: Coherent(r, id))
            && (forall wf | wf in rows && wf.id in found && found[wf.id].validated :: Coherent(r, wf.id))
    decreases |rows|
  {
    if rows != [] {
      var wf := rows[0];
      assert wf in rows;
      var next := if wf.id in found && found[wf.id].validated
                  then UpdateCache(reg, cache, wf.(issues := found[wf.id].issues)) else cache;
      var before, after := State(st.store, cache), State(st.store, next);
      if wf.id in found && found[wf.id].validated {
        LoadOneKeeps(reg, before, wf, found[wf.id]);
      }
      hide CacheFine, Coherent, UpdateCache, Honest;
      LoadKeeps(reg, st, next, rows[1..], found);
    }
  }

  // ----- Runs -----

  /** IDs whose last load or change did not get through, given those before the event. */
  function Unsettled(st: State, e: Event, before: set<nat>): set<nat> {
    match e
    case Change(id, c, o) =>
      (match ProgressOf(st, id, c, o)
       case Rejected => before
       case Torn => before + {id}
       case Committed => before - {id})
    case Load(rows, found) => before - set wf | wf in rows && wf.id in found && found[wf.id].validated :: wf.id
  }

  function Run(reg: Registry, st: State, events: seq<Event>): State
    decreases |events|
  {
    if events == [] then st else Run(reg, Step(reg, st, events[0]), events[1..])
  }

  function RunUnsettled(reg: Registry, st: State, events: seq<Event>, before: set<nat>): set<nat>
    decreases |events|
  {
    if events == [] then before
    else RunUnsettled(reg, Step(reg, st, events[0]), events[1..], Unsettled(st, events[0], before))
  }

  predicate PossibleRun(reg: Registry, st: State, events: seq<Event>)
    decreases |events|
  {
    events != [] ==> Possible(reg, st, events[0]) && PossibleRun(reg, Step(reg, st, events[0]), events[1..])
  }

  lemma StepKeeps(reg: Registry, st: State, e: Event, unsettled: set<nat>)
    requires CacheFine(reg, st) && Possible(reg, st, e)
    requires forall id | id !in unsettled :: Coherent(st, id)
    ensures var r := Step(reg, st, e);
            && CacheFine(reg, r)
            && forall id | id !in Unsettled(st, e, unsettled) :: Coherent(r, id)
  {
    match e {
      case Change(id, c, o) =>
        SaveKeeps(reg, st, id, c, o);
      case Load(rows, found) =>
        LoadKeeps(reg, st, st.cache, rows, found);
        var settled := set wf | wf in rows && wf.id in found && found[wf.id].validated :: wf.id;
        forall id | id !in unsettled - settled
          ensures Coherent(Step(reg, st, e), id)
        {
          if id in settled {
            var wf :| wf in rows && wf.id in found && found[wf.id].validated && wf.id == id;
          }
        }
    }
  }

  lemma {:induction false} RunKeeps(reg: Registry, st: State, events: seq<Event>, unsettled: set<nat>)
    requires CacheFine(reg, st) && PossibleRun(reg, st, events)
    requires forall id | id !in unsettled :: Coherent(st, id)
    ensures var r := Run(reg, st, events);
            && CacheFine(reg, r)
            && forall id | id !in RunUnsettled(reg, st, events, unsettled) :: Coherent(r, id)
    decreases |events|
  {
    if events != [] {
      StepKeeps(reg, st, events[0], unsettled);
      RunKeeps(reg, Step(reg, st, events[0]), events[1..], Unsettled(st, events[0], unsettled));
    }
  }

  function InUse(store: map<nat, Workflow>): set<nat> {
    set id | id in store && Executable(store[id])
  }

  /**
   Cache coherence: starting with an empty cache over any store, after every run of loads,
   creates, updates, deletes and undeletes, failing anywhere, each workflow whose last load or
   change got through is cached if and only if its stored row is enabled and not deleted, with
   that row; and every cached graph is the conversion of the cached definition.
   */
  lemma CacheIsCoherent(reg: Registry, store: map<nat, Workflow>, events: seq<Event>)
    requires forall id | id in store :: store[id].id == id
    requires PossibleRun(reg, State(store, map[]), events)
    ensures var st := State(store, map[]);
            var r := Run(reg, st, events);
            && CacheFine(reg, r)
            && forall id | id !in RunUnsettled(reg, st, events, InUse(store)) :: Coherent(r, id)
  {
    var st := State(store, map[]);
    RunKeeps(reg, st, events, InUse(store));
  }

  /**
   A workflow that may execute has its graph: whatever failed before, a cached workflow without
   issues comes with a graph whose steps are those of its own definition.
   */
  lemma ExecutesOwnGraph(reg: Registry, store: map<nat, Workflow>, events: seq<Event>, id: nat)
    requires forall j | j in store :: store[j].id == j
    requires PossibleRun(reg, State(store, map[]), events)
    requires id in Run(reg, State(store, map[]), events).cache
    requires Run(reg, State(store, map[]), events).cache[id].wf.issues == []
    ensures var item := Run(reg, State(store, map[]), events).cache[id];
            item.g.Some? && item.g == GraphFor(reg, item.wf) && Executable(item.wf)
  {
    CacheIsCoherent(reg, store, events);
    CachedAreExecutable(reg, State(store, map[]), events);
  }

  predicate AllExecutable(cache: map<nat, Item>) {
    forall id | id in cache :: Executable(cache[id].wf)
  }

  lemma {:induction false} CachedAreExecutable(reg: Registry, st: State, events: seq<Event>)
    requires AllExecutable(st.cache)
    ensures AllExecutable(Run(reg, st, events).cache)
    decreases |events|
  {
    if events != [] {
      match events[0] {
        case Change(id, c, o) =>
          if Row(st, id, c).Some? {
            UpdatedAreExecutable(reg, st.cache, Result(Row(st, id, c).value, c, o));
          }
        case Load(rows, found) => LoadedAreExecutable(reg, st.cache, rows, found);
      }
      CachedAreExecutable(reg, Step(reg, st, events[0]), events[1..]);
    }
  }

  lemma UpdatedAreExecutable(reg: Registry, cache: map<nat, Item>, wf: Workflow)
    requires AllExecutable(cache)
    ensures AllExecutable(UpdateCache(reg, cache, wf))
  {
  }

  lemma {:induction false} LoadedAreExecutable(reg: Registry, cache: map<nat, Item>, rows: seq<Workflow>,
          found: map<nat, Outcome>)
    requires AllExecutable(cache)
    ensures AllExecutable(LoadRows(reg, cache, rows, found))
    decreases |rows|
  {
    if rows != [] {
      var wf := rows[0];
      if wf.id in found {
        UpdatedAreExecutable(reg, cache, wf.(issues := found[wf.id].issues));
      }
      var next := if wf.id in found && found[wf.id].validated
                  then UpdateCache(reg, cache, wf.(issues := found[wf.id].issues)) else cache;
      LoadedAreExecutable(reg, next, rows[1..], found);
    }
  }
}
