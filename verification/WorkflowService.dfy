/**
 The workflow service (automation/service/workflow.go:194-530, 635-674): the methods that edit
 workflows, the store and the cache in place, proved to take the steps of module WorkflowCache.
 */
module WorkflowService {
  import opened WorkflowTypes
  import opened Definitions
  import opened Workflows
  import opened WorkflowCache
  import Converter
  import Resolution

  datatype User = Unknown | Invalid | Valid

  /** Answers of the store and the user service; None is a failed search. */
  datatype World = World(triggers: Option<seq<Trigger>>, user: nat -> User)

  /** Which stages around the cache succeed. */
  datatype Stages = Stages(allowed: bool, registered: bool, stored: bool, labelled: bool, commits: bool,
          now: nat)

  function OutcomeOf(s: Stages, validated: bool, issues: seq<WorkflowIssue>): Outcome {
    Outcome(s.allowed, validated, issues, s.registered, s.stored, s.labelled, s.commits, s.now)
  }

  method EditNames(row: Workflow, upd: Update) returns (res: Workflow, changed: bool, labelsChanged: bool)
    ensures res == row.(handle := upd.handle, enabled := upd.enabled, labels := OrElse(upd.labels, row.labels))
    ensures changed <==> row.handle != upd.handle || row.enabled != upd.enabled
    ensures labelsChanged <==> row.labels != OrElse(upd.labels, row.labels)
  {
    res, changed := row, false;
    labelsChanged := false;
    if res.handle != upd.handle {
      changed := true;
      res := res.(handle := upd.handle);
    }
    if res.enabled != upd.enabled {
      changed := true;
      res := res.(enabled := upd.enabled);
    }
    if upd.labels.Some? {
      if upd.labels.value != res.labels {
        labelsChanged := true;
        res := res.(labels := upd.labels.value);
      }
    }
  }

  method EditTracing(row: Workflow, upd: Update) returns (res: Workflow, changed: bool)
    ensures res == row.(trace := upd.trace, keepSessions := upd.keepSessions)
    ensures changed <==> row.trace != upd.trace || row.keepSessions != upd.keepSessions
  {
    res, changed := row, false;
    if res.trace != upd.trace {
      changed := true;
      res := res.(trace := upd.trace);
    }
    if res.keepSessions != upd.keepSessions {
      changed := true;
      res := res.(keepSessions := upd.keepSessions);
    }
  }

  method EditDefinition(row: Workflow, upd: Update) returns (res: Workflow, changed: bool)
    ensures res == row.(meta := OrElse(upd.meta, row.meta), scope := OrElse(upd.scope, row.scope),
                        steps := OrElse(upd.steps, row.steps), paths := OrElse(upd.paths, row.paths))
    ensures changed <==>
            || row.meta != OrElse(upd.meta, row.meta) || row.scope != OrElse(upd.scope, row.scope)
            || row.steps != OrElse(upd.steps, row.steps) || row.paths != OrElse(upd.paths, row.paths)
  {
    res, changed := row, false;
    if upd.meta.Some? {
      if upd.meta.value != res.meta {
        changed := true;
        res := res.(meta := upd.meta.value);
      }
    }
    if upd.scope.Some? {
      if upd.scope.value != res.scope {
        changed := true;
        res := res.(scope := upd.scope.value);
      }
    }
    if upd.steps.Some? {
      if upd.steps.value != res.steps {
        changed := true;
        res := res.(steps := upd.steps.value);
      }
    }
    if upd.paths.Some? {
      if upd.paths.value != res.paths {
        changed := true;
        res := res.(paths := upd.paths.value);
      }
    }
  }

  method EditUsers(row: Workflow, upd: Update) returns (res: Workflow, changed: bool)
    ensures res == row.(runAs := upd.runAs, ownedBy := upd.ownedBy)
    ensures changed <==> row.runAs != upd.runAs || row.ownedBy != upd.ownedBy
  {
    res, changed := row, false;
    if res.runAs != upd.runAs {
      changed := true;
      res := res.(runAs := upd.runAs);
    }
    if res.ownedBy != upd.ownedBy {
      changed := true;
      res := res.(ownedBy := upd.ownedBy);
    }
  }

  /** Field by field edit of a row, with a flag for every kind of change. */
  method HandleUpdate(row: Workflow, upd: Update, now: nat) returns (res: Workflow, changed: bool, labelsChanged: bool)
    ensures (res, changed) == Changed(row, Modify(upd), now)
    ensures labelsChanged <==> res.labels != row.labels
  {
    var c;
    res, changed, labelsChanged := EditNames(row, upd);
    res, c := EditTracing(res, upd);
    changed := changed || c;
    res, c := EditDefinition(res, upd);
    changed := changed || c;
    res, c := EditUsers(res, upd);
    changed := changed || c;
    assert res == Merged(row, upd);
    if changed {
      res := res.(updatedAt := Some(now));
    }
  }

  /** The changes of updater: what the row becomes and whether it has to be written. */
  method Handle(row: Workflow, c: Change, now: nat) returns (res: Workflow, changed: bool, labelsChanged: bool)
    ensures (res, changed) == Changed(row, c, now)
    ensures !c.Create? ==> (labelsChanged <==> res.labels != row.labels)
  {
    match c {
      case Create(_) =>
        return row, true, true;
      case Modify(upd) =>
        res, changed, labelsChanged := HandleUpdate(row, upd, now);
      case Delete =>
        if row.deletedAt.Some? {
          return row, false, false;
        }
        return row.(deletedAt := Some(now)), true, false;
      case Undelete =>
        if row.deletedAt.None? {
          return row, false, false;
        }
        return row.(deletedAt := None), true, false;
    }
  }

  /** Converts the workflow and checks its active triggers and its run-as user. */
  method ValidateWorkflow(reg: Registry, wf: Workflow, world: World) returns (res: Workflow, g: Option<GraphValue>,
          ok: bool)
    ensures res == wf.(issues := res.issues) && g == GraphFor(reg, wf)
    ensures ok <==> CanValidate(wf, world)
    ensures ok ==> (res.issues == [] <==>
              && g.Some? && TriggersClean(wf, world.triggers.value)
              && (wf.runAs > 0 ==> world.user(wf.runAs).Valid?))
  {
    var found: seq<Converter.Issue>;
    g, found := Converter.Convert(reg, Def(wf));
    var issues: seq<WorkflowIssue> := seq(|found|, i requires 0 <= i < |found| => ConversionIssue(found[i]));
    res := wf.(issues := issues);
    if world.triggers.None? {
      return res, g, false;
    }
    var more := ValidateWorkflowTriggers(wf, world.triggers.value);
    issues := issues + more;
    res := wf.(issues := issues);
    ok := true;
    if wf.runAs > 0 {
      match world.user(wf.runAs) {
        case Unknown =>
          issues := issues + [RunAsIssue];
          ok := false;
        case Invalid =>
          issues := issues + [RunAsIssue];
        case Valid =>
      }
      res := wf.(issues := issues);
    }
  }

  class Service {
    var store: map<nat, Workflow>
    var cache: map<nat, Item>
    var wIndex: map<string, nat>

    function State(): WorkflowCache.State
      reads this
    {
      WorkflowCache.State(store, cache)
    }

    constructor (rows: map<nat, Workflow>)
      ensures State() == WorkflowCache.State(rows, map[])
    {
      store, cache, wIndex := rows, map[], map[];
    }

    method UpdateCache(reg: Registry, wf: Workflow, g: Option<GraphValue>)
      requires g == GraphFor(reg, wf)
      modifies this`cache
      ensures cache == WorkflowCache.UpdateCache(reg, old(cache), wf)
    {
      if wf.deletedAt.None? && wf.enabled {
        cache := cache[wf.id := Item(wf, g)];
      } else {
        cache := cache - {wf.id};
      }
    }

    /** Adds a workflow under a new ID; a failure after the cache update rolls back the store only. */
    method Create(reg: Registry, id: nat, new_: Workflow, world: World, stages: Stages)
      returns (ok: bool, ghost o: Outcome)
      modifies this`store, this`cache
      ensures State() == Save(reg, old(State()), id, Change.Create(new_), o)
      ensures ok <==> ProgressOf(old(State()), id, Change.Create(new_), o).Committed?
      ensures o == OutcomeOf(stages, o.validated, o.issues)
      ensures Honest(reg, new_, o)
    {
      o := OutcomeOf(stages, false, [RunAsIssue]);
      if !stages.allowed {
        return false, o;
      }
      var wf := new_.(id := id, updatedAt := None, deletedAt := None);
      var valid, g, validated := ValidateWorkflow(reg, wf, world);
      if !validated {
        return false, o;
      }
      o := OutcomeOf(stages, true, valid.issues);
      assert GraphFor(reg, wf) == GraphFor(reg, valid) == GraphFor(reg, new_);
      UpdateCache(reg, valid, g);
      if |valid.issues| == 0 {
        if !stages.registered {
          return false, o;
        }
      }
      if !stages.stored {
        return false, o;
      }
      if !stages.labelled {
        return false, o;
      }
      if !stages.commits {
        return false, o;
      }
      store := store[id := valid];
      return true, o;
    }

    /** Update, delete and undelete of a stored workflow. */
    method Updater(reg: Registry, id: nat, c: Change, world: World, stages: Stages)
      returns (ok: bool, ghost o: Outcome)
      requires !c.Create?
      modifies this`store, this`cache
      ensures State() == Save(reg, old(State()), id, c, o)
      ensures ok <==> ReportedDone(old(State()), id, c, o)
      ensures o == OutcomeOf(stages, o.validated, o.issues)
      ensures Row(old(State()), id, c).Some? ==> Honest(reg, Result(Row(old(State()), id, c).value, c, o), o)
    {
      hide Changed, Resolution.GraphOf, CanValidate, WorkflowCache.UpdateCache, TriggersClean, Stored;
      o := OutcomeOf(stages, false, [RunAsIssue]);
      if id == 0 || id !in store {
        return false, o;
      }
      var row := store[id];
      if !stages.allowed {
        return false, o;
      }
      var res, changed, labelsChanged := Handle(row, c, stages.now);
      var valid, g, validated := ValidateWorkflow(reg, res, world);
      if !validated {
        return false, o;
      }
      o := OutcomeOf(stages, true, valid.issues);
      assert valid == Result(row, c, o);
      assert GraphFor(reg, res) == GraphFor(reg, valid);
      hide Save, ProgressOf, ReportedDone;
      ok := Finish(reg, id, row, c, valid, g, changed, labelsChanged, stages);
      return ok, o;
    }

    /** Everything behind validation: the cache, the triggers, the row and its labels. */
    method Finish(reg: Registry, id: nat, row: Workflow, ghost c: Change, valid: Workflow, g: Option<GraphValue>,
          changed: bool, labelsChanged: bool, stages: Stages)
      returns (ok: bool)
      requires !c.Create? && id != 0 && id in store && store[id] == row && stages.allowed
      requires valid == Result(row, c, OutcomeOf(stages, true, valid.issues)) && g == GraphFor(reg, valid)
      requires changed == Changed(row, c, stages.now).1 && (labelsChanged <==> valid.labels != row.labels)
      modifies this`store, this`cache
      ensures State() == Save(reg, old(State()), id, c, OutcomeOf(stages, true, valid.issues))
      ensures ok <==> ReportedDone(old(State()), id, c, OutcomeOf(stages, true, valid.issues))
    {
      hide Changed, GraphFor, WorkflowCache.UpdateCache, Result;
      UpdateCache(reg, valid, g);
      if |valid.issues| == 0 {
        if !stages.registered {
          return false;
        }
      }
      ok := Persist(id, row, valid, changed, labelsChanged, stages);
    }

    /** Writes the row, outside the transaction, and the labels, which are stored apart, inside. */
    method Persist(id: nat, row: Workflow, valid: Workflow, changed: bool, labelsChanged: bool, stages: Stages)
      returns (ok: bool)
      requires id in store && store[id] == row && (labelsChanged <==> valid.labels != row.labels)
      modifies this`store
      ensures ok <==> && (changed || valid.issues != [] ==> stages.stored)
                      && (labelsChanged ==> stages.labelled) && stages.commits
      ensures store == if (changed || valid.issues != []) && !stages.stored then old(store)
                       else
                         var written := if changed || valid.issues != [] then valid else row;
                         var labels := if stages.labelled && stages.commits then valid.labels else row.labels;
                         old(store)[id := written.(labels := labels)]
    {
      if changed || |valid.issues| > 0 {
        if !stages.stored {
          return false;
        }
        store := store[id := valid.(labels := row.labels)];
      }
      if labelsChanged {
        if !stages.labelled {
          return false;
        }
      }
      if !stages.commits {
        return false;
      }
      var written := store[id];
      store := store[id := written.(labels := valid.labels)];
      return true;
    }

    method LoadOne(reg: Registry, wf: Workflow, world: World) returns (ghost o: Outcome)
      modifies this`cache, this`wIndex
      ensures cache == if o.validated then WorkflowCache.UpdateCache(reg, old(cache), wf.(issues := o.issues))
                       else old(cache)
      ensures wIndex == old(wIndex)[wf.handle := wf.id]
      ensures FoundOne(reg, wf, world, o)
    {
      wIndex := wIndex[wf.handle := wf.id];
      var valid, g, validated := ValidateWorkflow(reg, wf, world);
      o := Outcome(true, validated, if validated then valid.issues else [RunAsIssue], true, true, true, true, 0);
      if validated {
        assert GraphFor(reg, wf) == GraphFor(reg, valid);
        UpdateCache(reg, valid, g);
      }
    }

    /** Loads the given rows into the cache; rows that fail to validate are skipped. */
    method Load(reg: Registry, rows: seq<Workflow>, world: nat -> World) returns (ghost found: map<nat, Outcome>)
      requires DistinctRows(rows)
      modifies this`cache, this`wIndex
      ensures State() == WorkflowCache.State(old(store), LoadRows(reg, old(cache), rows, found))
      ensures Found(reg, rows, world, found)
      ensures IndexedBy(old(wIndex), rows, wIndex)
    {
      hide Honest, CanValidate, IndexedBy;
      NothingIndexed(wIndex);
      found := map[];
      for i := 0 to |rows|
        invariant store == old(store)
        invariant cache == LoadRows(reg, old(cache), rows[..i], found)
        invariant Found(reg, rows[..i], world, found)
        invariant IndexedBy(old(wIndex), rows[..i], wIndex)
      {
        var wf := rows[i];
        assert rows[..i + 1] == rows[..i] + [wf];
        IndexedSnoc(old(wIndex), rows[..i], wf, wIndex);
        ghost var o := LoadOne(reg, wf, world(wf.id));
        FoundSnoc(reg, rows[..i], wf, world, found, o);
        LoadSnoc(reg, old(cache), rows[..i], wf, found, found[wf.id := o]);
        found := found[wf.id := o];
      }
      assert rows[..|rows|] == rows;
    }
  }

  /** No later row has the same handle. */
  predicate LastOfHandle(rows: seq<Workflow>, i: nat)
    requires i < |rows|
  {
    forall j | i < j < |rows| :: rows[j].handle != rows[i].handle
  }

  /** Each handle leads to the last row that has it; handles of no row are as before. */
  predicate IndexedBy(before: map<string, nat>, rows: seq<Workflow>, index: map<string, nat>) {
    && (forall wf | wf in rows :: wf.handle in index)
    && (forall i | 0 <= i < |rows| && LastOfHandle(rows, i) :: index[rows[i].handle] == rows[i].id)
    && (forall h | h in index :: OfSomeRow(rows, h) || (h in before && index[h] == before[h]))
    && (forall h | h in before :: h in index)
  }

  predicate OfSomeRow(rows: seq<Workflow>, h: string) {
    exists wf | wf in rows :: wf.handle == h
  }

  lemma NothingIndexed(index: map<string, nat>)
    ensures IndexedBy(index, [], index)
  {
  }

  lemma IndexedSnoc(before: map<string, nat>, rows: seq<Workflow>, wf: Workflow, index: map<string, nat>)
    requires IndexedBy(before, rows, index)
    ensures IndexedBy(before, rows + [wf], index[wf.handle := wf.id])
  {
    var all := rows + [wf];
    forall i | 0 <= i < |all| && LastOfHandle(all, i)
      ensures index[wf.handle := wf.id][all[i].handle] == all[i].id
    {
      if i < |rows| {
        assert all[|rows|].handle != all[i].handle;
        forall j | i < j < |rows|
          ensures rows[j].handle != rows[i].handle
        {
          assert all[j].handle != all[i].handle;
        }
        assert LastOfHandle(rows, i) && rows[i] in rows;
      }
    }
    forall h | h in index[wf.handle := wf.id]
      ensures OfSomeRow(all, h) || (h in before && index[h] == before[h])
    {
      if h == wf.handle {
        assert wf in all;
      } else if OfSomeRow(rows, h) {
        var v :| v in rows && v.handle == h;
        assert v in all;
      }
    }
  }

  predicate DistinctRows(rows: seq<Workflow>) {
    forall i, j | 0 <= i < j < |rows| :: rows[i].id != rows[j].id
  }

  /** Validation needs its triggers and, if one is named, the run-as user. */
  predicate CanValidate(wf: Workflow, world: World) {
    world.triggers.Some? && (wf.runAs > 0 ==> !world.user(wf.runAs).Unknown?)
  }

  /** What loading found out about each row. */
  predicate Found(reg: Registry, rows: seq<Workflow>, world: nat -> World, found: map<nat, Outcome>) {
    forall wf | wf in rows :: wf.id in found && FoundOne(reg, wf, world(wf.id), found[wf.id])
  }

  predicate FoundOne(reg: Registry, wf: Workflow, world: World, o: Outcome) {
    Honest(reg, wf, o) && (o.validated <==> CanValidate(wf, world))
  }

  lemma FoundSnoc(reg: Registry, rows: seq<Workflow>, wf: Workflow, world: nat -> World, found: map<nat, Outcome>,
          o: Outcome)
    requires Found(reg, rows, world, found) && FoundOne(reg, wf, world(wf.id), o)
    requires forall v | v in rows :: v.id != wf.id
    ensures Found(reg, rows + [wf], world, found[wf.id := o])
    ensures forall v | v in rows :: v.id in found && found[wf.id := o][v.id] == found[v.id]
  {
    hide FoundOne;
    forall v | v in rows + [wf]
      ensures v.id in found[wf.id := o] && FoundOne(reg, v, world(v.id), found[wf.id := o][v.id])
    {
      if v in rows {
        assert FoundOne(reg, v, world(v.id), found[v.id]);
      }
    }
  }

  lemma {:induction false} LoadSnoc(reg: Registry, cache: map<nat, Item>, rows: seq<Workflow>, wf: Workflow,
                                    found: map<nat, Outcome>, more: map<nat, Outcome>)
    requires forall v | v in rows :: v.id in found && v.id in more && found[v.id] == more[v.id]
    requires wf.id in more
    ensures LoadRows(reg, cache, rows + [wf], more) ==
            (var before := LoadRows(reg, cache, rows, found);
             if more[wf.id].validated
             then WorkflowCache.UpdateCache(reg, before, wf.(issues := more[wf.id].issues)) else before)
    decreases |rows|
  {
    hide WorkflowCache.UpdateCache;
    if rows == [] {
      assert rows + [wf] == [wf] && [wf][1..] == [];
    } else {
      var v := rows[0];
      assert v in rows;
      assert (rows + [wf])[0] == v && (rows + [wf])[1..] == rows[1..] + [wf];
      var next := if found[v.id].validated
                  then WorkflowCache.UpdateCache(reg, cache, v.(issues := found[v.id].issues)) else cache;
      LoadSnoc(reg, next, rows[1..], wf, found, more);
    }
  }
}
