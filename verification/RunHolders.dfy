/**
 The callers of `RunCopies` as objects: each holds a Run that it moves in place, and
 all share the store object. What they do is what the system of values does.
 */
module RunHolders {
  import opened Wrappers
  import opened StoreErrors
  import opened PaneLayout
  import opened StoreTables
  import opened FactoryRuns
  import opened WorkspaceLedger
  import opened StoreRuns
  import opened RunCopies
  import Store = ProjectStore

  class RunHolders {
    const store: Store.ProjectStore
    var cells: map<Holder, RunCell>
    /** The states each copy went through since it was loaded or last saved. */
    ghost var paths: map<Holder, seq<RunState>>

    ghost function Copies(): map<Holder, Held>
      reads this, cells.Values
    {
      map h | h in cells && h in paths :: Held(cells[h].run, paths[h])
    }

    ghost function Now(): System
      reads this, store, cells.Values
    {
      System(store.db, Copies())
    }

    /** No two holders share a copy. */
    ghost predicate Valid()
      reads this, store, cells.Values
    {
      && store.Valid()
      && cells.Keys == paths.Keys
      && (forall g, h :: g in cells && h in cells && g != h ==> cells[g] != cells[h])
    }

    constructor (store: Store.ProjectStore)
      requires store.Valid()
      ensures Valid() && this.store == store && cells == map[]
    {
      this.store, cells, paths := store, map[], map[];
    }

    method Take(holder: Holder, id: Id)
      requires Valid()
      modifies this
      ensures Valid() && Now() == Taken(old(Now()), holder, id)
      ensures fresh(cells.Values - old(cells.Values))
    {
      hide LoadRun, IsRun, StoreInvariant, WorkspaceInvariant;
      var loaded := LoadRun(store.db, id);
      if loaded.Some? {
        var cell := new RunCell(loaded.value);
        cells, paths := cells[holder := cell], paths[holder := [loaded.value.state]];
      }
    }

    /** A refused transition leaves the copy as it was; an accepted one brings its report. */
    method Step(holder: Holder, to: RunState, report: RunReport) returns (result: Result<Unit, StoreError>)
      requires Valid() && holder in cells
      modifies cells[holder], this`paths
      ensures Valid() && Now() == Stepped(old(Now()), holder, to, report)
      ensures cells == old(cells)
    {
      hide IsRun, StoreInvariant, WorkspaceInvariant, NextState, Store.ProjectStore.Valid;
      ghost var before := Copies();
      var cell := cells[holder];
      result := cell.Transition(to);
      if result.Success? {
        cell.run := cell.run.(report := report);
        paths := paths[holder := paths[holder] + [cell.run.state]];
        assert Copies() == before[holder := Held(cell.run, paths[holder])];
      } else {
        assert Copies() == before;
      }
    }

    method Put(holder: Holder) returns (reply: Store.Reply)
      requires Valid() && holder in cells
      modifies store, this`paths
      ensures Valid() && Now() == Saved(old(Now()), holder)
      ensures cells == old(cells)
    {
      hide IsRun, StoreInvariant, WorkspaceInvariant, SaveRun;
      ghost var before := Copies();
      reply := store.Make(OnRuns(SaveCopy(cells[holder].run)));
      assert Copies() == before;
      if reply.Success? {
        paths := paths[holder := [cells[holder].run.state]];
        assert Copies() == before[holder := Held(cells[holder].run, paths[holder])];
      }
    }

    method Other(call: Call) returns (reply: Store.Reply)
      requires Valid() && Allowed(store.db, call)
      modifies store
      ensures Valid() && WorkspaceInvariant(old(store.db))
      ensures Now() == Acted(old(Now()), Act.Other(call)) && cells == old(cells)
    {
      hide IsRun, WorkspaceInvariant, Perform, Allowed;
      reply := store.Make(call);
    }
  }
}
