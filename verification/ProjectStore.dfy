/**
 The store object and its transactions, statement by statement. A transaction
 reads the tables and ends in the tables to commit or in an error; the store
 assigns them at the end or leaves them as they were, and each call is one step
 of a run of the store. Calls whose statements meet each other's effects, in the rows of
 the panes or in a loop, have a transaction of their own; any other call is the function
 of its ledger module.
 */
module ProjectStore {
  import opened Wrappers
  import opened StoreErrors
  import opened PaneWidths
  import opened PaneLayout
  import opened PaneRows
  import opened StoreTables
  import opened AgentVersions
  import opened DraftLedger
  import opened EnvironmentTable
  import opened FactoryRuns
  import opened WorkspaceLedger
  import opened StoreRuns

  // ------------------------------------------------------------- transactions

  method OpenTransaction(tx: Tables, agent: Id, binding: Id, id: Option<Id>, kind: Option<ItemKind>, toSide: bool,
                         newContext: Id, newPane: Id) returns (outcome: Outcome)
    requires WorkspaceInvariant(tx) && newContext !in tx.contexts && Find(tx.panes, newPane) == MAX_PANES
    ensures outcome == WorkspaceLedger.OpenWorkItem(tx, agent, binding, id, kind, toSide, newContext, newPane)
  {
    var refusal := OpenRefusal(tx, agent, binding, id, kind);
    if refusal.Some? {
      return Aborted(refusal.value);
    }
    var row := ContextRow(binding, ItemOf(id, kind));
    var context := newContext;
    if exists c :: c in tx.contexts && tx.contexts[c] == row {
      context :| context in tx.contexts && tx.contexts[context] == row;
    }
    ContextIs(tx, row, newContext, context);
    var contexts := tx.contexts[context := row];
    if !ContextsLegal(contexts) {
      return Aborted(Constraint);
    }
    StoredWorkspace(tx);
    var shown := ShowPane(tx.panes, context, newPane, toSide);
    OpenOutcome(tx, agent, binding, id, kind, toSide, newContext, newPane, context, shown);
    if shown.Failure? {
      return Aborted(shown.error);
    }
    return Committed(tx.(contexts := contexts, panes := shown.value.0, focus := Some(shown.value.1),
                         revision := tx.revision + 1), context);
  }

  method FocusTransaction(tx: Tables, pane: Id) returns (outcome: Outcome)
    requires WorkspaceInvariant(tx)
    ensures outcome == WorkspaceLedger.FocusWorkspacePane(tx, pane)
  {
    FindStored(LayoutOf(tx.panes), pane);
    if Find(tx.panes, pane) == MAX_PANES {
      return Aborted(NotFound);
    }
    return Committed(tx.(focus := Some(pane), revision := tx.revision + 1), 0);
  }

  method CloseTransaction(tx: Tables, pane: Id) returns (outcome: Outcome)
    requires WorkspaceInvariant(tx)
    ensures outcome == WorkspaceLedger.CloseWorkspacePane(tx, pane)
  {
    StoredWorkspace(tx);
    var closed := PaneRows.ClosePane(tx.panes, pane);
    CloseOutcome(tx, pane, closed);
    if closed.Failure? {
      return Aborted(closed.error);
    }
    return Committed(tx.(panes := closed.value.0, focus := closed.value.1, revision := tx.revision + 1), 0);
  }

  method ResizeTransaction(tx: Tables, request: seq<(Id, nat)>) returns (outcome: Outcome)
    requires WorkspaceInvariant(tx)
    ensures outcome == WorkspaceLedger.ResizeWorkspacePanes(tx, request)
  {
    StoredWorkspace(tx);
    var resized := PaneRows.ResizePanes(tx.panes, request);
    if resized.Failure? {
      return Aborted(resized.error);
    }
    return Committed(tx.(panes := resized.value, revision := tx.revision + 1), 0);
  }

  method MoveTransaction(tx: Tables, pane: Id, destination: nat) returns (outcome: Outcome)
    requires WorkspaceInvariant(tx)
    ensures outcome == WorkspaceLedger.MoveWorkspacePane(tx, pane, destination)
  {
    hide Move, WorkspaceInvariant, Stored, LayoutOf, Holds;
    StoredWorkspace(tx);
    var moved := PaneRows.MovePane(tx.panes, pane, destination);
    MoveOutcome(tx, pane, destination, moved);
    if moved.Failure? {
      return Aborted(moved.error);
    }
    return Committed(tx.(panes := moved.value, focus := Some(pane), revision := tx.revision + 1), 0);
  }

  method ArchiveAgentTransaction(tx: Tables, agent: Id) returns (outcome: Outcome)
    requires WorkspaceInvariant(tx)
    ensures outcome == WorkspaceLedger.ArchiveTargetAgent(tx, agent)
  {
    if !LiveAgent(tx, agent) {
      return Aborted(NotFound);
    }
    StoredWorkspace(tx);
    var panes, focus := ArchivePanes(tx.panes, ContextsOf(tx, agent));
    ArchiveOutcome(tx, agent, panes, focus);
    return Committed(tx.(panes := panes, focus := focus, bindings := ArchivedBindings(tx.bindings, agent),
                         agents := tx.agents[agent := tx.agents[agent].(archived := true)],
                         revision := tx.revision + 1), 0);
  }

  /** The maximum over an Agent's Versions, found by one pass over the rows. */
  method GreatestVersion(versions: map<Id, VersionRow>, agent: Id) returns (winner: Option<Id>)
    ensures winner.None? <==> forall v :: v in versions ==> versions[v].agent != agent
    ensures winner.Some? ==> Wins(versions, agent, winner.value)
  {
    winner := None;
    var rest := versions.Keys;
    while rest != {}
      invariant rest <= versions.Keys
      invariant winner.None? ==> forall v :: v in versions && v !in rest ==> versions[v].agent != agent
      invariant winner.Some? ==>
        winner.value in versions && winner.value !in rest && versions[winner.value].agent == agent
      invariant winner.Some? ==>
        forall v :: v in versions && v !in rest && v != winner.value && versions[v].agent == agent ==>
        Beats(RankOf(versions[winner.value], winner.value), RankOf(versions[v], v))
      decreases rest
    {
      var v :| v in rest;
      rest := rest - {v};
      if versions[v].agent == agent {
        if winner.None? || Beats(RankOf(versions[v], v), RankOf(versions[winner.value], winner.value)) {
          BeatsAll(versions, agent, rest, winner, v);
          winner := Some(v);
        } else {
          BeatsOrder(RankOf(versions[winner.value], winner.value), RankOf(versions[v], v), RankOf(versions[v], v));
        }
      }
    }
  }

  lemma BeatsAll(versions: map<Id, VersionRow>, agent: Id, rest: set<Id>, best: Option<Id>, v: Id)
    requires v in versions && v !in rest
    requires best.None? ==> forall w :: w in versions && w !in rest && w != v ==> versions[w].agent != agent
    requires best.Some? ==>
      && best.value in versions && best.value != v
      && Beats(RankOf(versions[v], v), RankOf(versions[best.value], best.value))
      && forall w :: w in versions && w !in rest && w != v && w != best.value && versions[w].agent == agent ==>
        Beats(RankOf(versions[best.value], best.value), RankOf(versions[w], w))
    ensures forall w :: w in versions && w !in rest && w != v && versions[w].agent == agent ==>
      Beats(RankOf(versions[v], v), RankOf(versions[w], w))
  {
    forall w | w in versions && w !in rest && w != v && versions[w].agent == agent
      ensures Beats(RankOf(versions[v], v), RankOf(versions[w], w))
    {
      BeatsOrder(RankOf(versions[v], v), RankOf(versions[best.value], best.value), RankOf(versions[w], w));
    }
  }

  method FinishTransaction(tx: Tables, id: Id, version: string, commit: string, tag: string, versionId: Id, now: nat)
    returns (outcome: Outcome)
    ensures outcome == FinishPublication(tx, id, version, commit, tag, versionId, now)
  {
    if !IsAgentVersion(version) {
      return Aborted(InvalidInput);
    }
    if id !in tx.drafts {
      return Aborted(NotFound);
    }
    var draft := tx.drafts[id];
    if draft.lifecycle != Publishing {
      return Aborted(InvalidInput);
    }
    var row := VersionRow(draft.agent, version, draft.definition, id, commit, tag, now);
    if VersionConflict(tx, versionId, row) {
      return Aborted(Constraint);
    }
    var versions := tx.versions[versionId := row];
    assert versions[versionId].agent == draft.agent;
    var winner := GreatestVersion(versions, draft.agent);
    PublicationIs(tx, id, version, commit, tag, versionId, now, winner.value);
    var agents := NamedAfter(tx.agents, draft.agent, versions[winner.value]);
    return Committed(tx.(versions := versions, agents := agents,
                         drafts := tx.drafts[id := draft.(lifecycle := Archived, reserved := None)],
                         revision := tx.revision + 1), versionId);
  }

  method SyncTransaction(tx: Tables, list: seq<Environment>) returns (outcome: Outcome)
    ensures outcome == EnvironmentTable.SyncEnvironments(tx, list)
  {
    var upserted := UpsertEnvironments(tx.environments, list);
    if upserted.Failure? {
      return Aborted(upserted.error);
    }
    var (rows, changed) := upserted.value;
    return Committed(tx.(environments := rows, revision := if changed > 0 then tx.revision + 1 else tx.revision),
                     changed);
  }

  method ReconcileTransaction(tx: Tables, list: seq<Environment>) returns (outcome: Outcome)
    ensures outcome == EnvironmentTable.ReconcileEnvironments(tx, list)
  {
    var upserted := UpsertEnvironments(tx.environments, list);
    if upserted.Failure? {
      return Aborted(upserted.error);
    }
    var (rows, changed) := upserted.value;
    var ids := Ids(list);
    changed := changed + |Stale(rows, ids)|;
    rows := Retired(rows, ids);
    var orphans := Orphaned(tx.trust, ids);
    changed := changed + |orphans|;
    return Committed(tx.(environments := rows, trust := tx.trust - orphans,
                         revision := if changed > 0 then tx.revision + 1 else tx.revision), changed);
  }

  // ------------------------------------------------- every call of the store

  method WorkspaceTransaction(tx: Tables, call: WorkspaceCall) returns (outcome: Outcome)
    requires WorkspaceInvariant(tx) && Allowed(tx, OnWorkspace(call))
    ensures outcome == OnWorkspaceOutcome(tx, call)
  {
    match call
    case OpenItem(agent, binding, id, kind, toSide, newContext, newPane) =>
      NowhereFound(tx, newPane);
      outcome := OpenTransaction(tx, agent, binding, id, kind, toSide, newContext, newPane);
    case FocusPane(pane) => outcome := FocusTransaction(tx, pane);
    case ClosePane(pane) => outcome := CloseTransaction(tx, pane);
    case ResizePanes(request) => outcome := ResizeTransaction(tx, request);
    case MovePane(pane, destination) => outcome := MoveTransaction(tx, pane, destination);
    case ArchiveAgent(agent) => outcome := ArchiveAgentTransaction(tx, agent);
    case PutSession(id, row, agent, project) => outcome := SaveSession(tx, id, row, agent, project);
    case DropSession(id) => outcome := DiscardSession(tx, id);
  }

  method DraftTransaction(tx: Tables, call: DraftCall) returns (outcome: Outcome)
    ensures outcome == OnDraftsOutcome(tx, call)
  {
    match call
    case AddAgent(id, name) => outcome := CreateAgent(tx, id, name);
    case AddBinding(id, agent, project, root) => outcome := CreateBinding(tx, id, agent, project, root);
    case MoveBinding(id, root) => outcome := UpdateBindingRoot(tx, id, root);
    case AddDraft(id, draft) => outcome := CreateDraft(tx, id, draft);
    case ChooseEnvironment(id, environment) => outcome := SetDraftEnvironment(tx, id, environment);
    case EditDraft(id, definition, head) => outcome := UpdateDraft(tx, id, definition, head);
    case Reserve(id, version) => outcome := ReserveVersion(tx, id, version);
    case Restore(id) => outcome := RestoreDraft(tx, id);
    case Publish(id, version, commit, tag, versionId, now) =>
      outcome := FinishTransaction(tx, id, version, commit, tag, versionId, now);
    case Cleanup(id, required, guidance) => outcome := SetDraftCleanup(tx, id, required, guidance);
    case DiscardDraft(id) => outcome := DraftLedger.ArchiveDraft(tx, id);
  }

  method CatalogTransaction(tx: Tables, call: CatalogCall) returns (outcome: Outcome)
    ensures outcome == OnCatalogOutcome(tx, call)
  {
    match call
    case Sync(list) => outcome := SyncTransaction(tx, list);
    case Reconcile(list) => outcome := ReconcileTransaction(tx, list);
    case Trust(key, fingerprint) => outcome := TrustServer(tx, key, fingerprint);
    case Revoke(key) => outcome := RevokeTrust(tx, key);
  }

  method RunTransaction(tx: Tables, call: RunCall) returns (outcome: Outcome)
    ensures outcome == OnRunsOutcome(tx, call)
  {
    match call
    case StartRun(run) => outcome := CreateRun(tx, run);
    case Advance(id, to, report) => outcome := AdvanceRun(tx, id, to, report);
    case SaveCopy(run) => outcome := SaveRun(tx, run);
  }

  method Transaction(tx: Tables, call: Call) returns (outcome: Outcome)
    requires WorkspaceInvariant(tx) && Allowed(tx, call)
    ensures outcome == Perform(tx, call)
  {
    match call
    case OnWorkspace(call) => outcome := WorkspaceTransaction(tx, call);
    case OnDrafts(call) => outcome := DraftTransaction(tx, call);
    case OnCatalog(call) => outcome := CatalogTransaction(tx, call);
    case OnRuns(call) => outcome := RunTransaction(tx, call);
  }

  // ---------------------------------------------------------------- the store

  type Reply = Result<nat, StoreError>

  /** From `before` the call committed its tables and its value, or failed and changed nothing. */
  ghost predicate Made(before: Tables, next: Tables, call: Call, reply: Reply)
  {
    WorkspaceInvariant(before)
    && match Perform(before, call)
       case Committed(db, value) => next == db && reply == Success(value)
       case Aborted(error) => next == before && reply == Failure(error)
  }

  class ProjectStore {
    var db: Tables
    /** The calls made so far and the tables before and after each of them. */
    ghost var calls: seq<Call>
    ghost var states: seq<Tables>

    /** The tables are where a run of the store ended, so they satisfy every invariant. */
    ghost predicate Valid()
      reads this
    {
      IsRun(states, calls) && db == states[|calls|] && StoreInvariant(db)
    }

    constructor ()
      ensures Valid() && db == EMPTY_STORE && calls == []
    {
      db, calls, states := EMPTY_STORE, [], [EMPTY_STORE];
      EmptyStoreValid();
    }

    /** One more call of the run: the tables of a committed outcome, or those before. */
    method Commit(ghost call: Call, outcome: Outcome) returns (reply: Reply)
      requires Valid() && Allowed(db, call) && outcome == Perform(db, call)
      modifies this
      ensures Valid() && calls == old(calls) + [call] && states == old(states) + [db]
      ensures Made(old(db), db, call, reply)
    {
      hide IsRun, Perform, Allowed, WorkspaceInvariant, DraftInvariant, RunInvariant;
      ghost var next := After(db, outcome);
      RunGoesOn(states, calls, call);
      assert IsRun(states + [next], calls + [call]) && StoreInvariant(next);
      if outcome.Committed? {
        db := outcome.db;
      }
      calls, states := calls + [call], states + [next];
      assert db == next == states[|calls|];
      return match outcome case Committed(_, value) => Success(value) case Aborted(error) => Failure(error);
    }

    /** Any call the store accepts: its transaction, statement by statement, and the commit. */
    method Make(call: Call) returns (reply: Reply)
      requires Valid() && Allowed(db, call)
      modifies this
      ensures Valid() && calls == old(calls) + [call] && states == old(states) + [db]
      ensures Made(old(db), db, call, reply)
    {
      var outcome := Transaction(db, call);
      reply := Commit(call, outcome);
    }
  }

  lemma NowhereFound(db: Tables, pane: Id)
    requires WorkspaceInvariant(db) && !Shows(LayoutOf(db.panes), pane)
    ensures Find(db.panes, pane) == MAX_PANES
  {
    FindStored(LayoutOf(db.panes), pane);
  }

  lemma StoredWorkspace(db: Tables)
    requires WorkspaceInvariant(db)
    ensures Holds(db.panes, LayoutOf(db.panes))
  {}

  /** What the closed rows mean for the tables. */
  lemma CloseOutcome(db: Tables, pane: Id, closed: Result<(PaneTable, Option<Id>), StoreError>)
    requires WorkspaceInvariant(db)
    requires match Close(Layout(LayoutOf(db.panes), None), pane)
      case Failure(error) => closed == Failure(error)
      case Success(next) => closed == Success((Stored(next.panes), next.focus))
    ensures WorkspaceLedger.CloseWorkspacePane(db, pane) == match closed
      case Failure(error) => Aborted(error)
      case Success((panes, focus)) => Committed(db.(panes := panes, focus := focus, revision := db.revision + 1), 0)
  {
    assert Positive(Widths(LayoutOf(db.panes)));
    hide Close, WorkspaceInvariant, Stored, LayoutOf, Widths, Positive;
    CloseIgnoresFocus(LayoutOf(db.panes), db.focus, pane);
  }

  lemma MoveOutcome(db: Tables, pane: Id, destination: nat, moved: Result<PaneTable, StoreError>)
    requires match Move(Layout(LayoutOf(db.panes), None), pane, destination)
      case Failure(error) => moved == Failure(error)
      case Success(next) => moved == Success(Stored(next.panes))
    ensures WorkspaceLedger.MoveWorkspacePane(db, pane, destination) == match moved
      case Failure(error) => Aborted(error)
      case Success(panes) => Committed(db.(panes := panes, focus := Some(pane), revision := db.revision + 1), 0)
  {
    MoveIgnoresFocus(LayoutOf(db.panes), db.focus, pane, destination);
    hide Move, Stored, LayoutOf;
  }

  lemma MoveIgnoresFocus(panes: seq<Pane>, focus: Option<Id>, pane: Id, destination: nat)
    ensures Move(Layout(panes, focus), pane, destination) == Move(Layout(panes, None), pane, destination)
    ensures Move(Layout(panes, None), pane, destination).Success? ==>
      Move(Layout(panes, None), pane, destination).value.focus == Some(pane)
  {}

  lemma ArchiveOutcome(db: Tables, agent: Id, panes: PaneTable, focus: Option<Id>)
    requires WorkspaceInvariant(db) && LiveAgent(db, agent)
    requires var next := Archive(Layout(LayoutOf(db.panes), None), ContextsOf(db, agent));
      panes == Stored(next.panes) && focus == next.focus
    ensures WorkspaceLedger.ArchiveTargetAgent(db, agent) ==
      Committed(db.(panes := panes, focus := focus, bindings := ArchivedBindings(db.bindings, agent),
                    agents := db.agents[agent := db.agents[agent].(archived := true)], revision := db.revision + 1), 0)
  {
    ArchiveIgnoresFocus(LayoutOf(db.panes), db.focus, ContextsOf(db, agent));
    hide Archive, WorkspaceInvariant, Stored, LayoutOf, ContextsOf, ArchivedBindings;
  }

  lemma ContextIs(db: Tables, row: ContextRow, newContext: Id, context: Id)
    requires ContextsLegal(db.contexts)
    requires if exists c :: c in db.contexts && db.contexts[c] == row
             then context in db.contexts && db.contexts[context] == row else context == newContext
    ensures context == ContextFor(db, row, newContext)
  {}

  /** What the opened rows mean for the tables. */
  lemma OpenOutcome(db: Tables, agent: Id, binding: Id, id: Option<Id>, kind: Option<ItemKind>, toSide: bool,
                    newContext: Id, newPane: Id, context: Id, shown: Result<(PaneTable, Id), StoreError>)
    requires WorkspaceInvariant(db) && OpenRefusal(db, agent, binding, id, kind).None?
    requires context == ContextFor(db, ContextRow(binding, ItemOf(id, kind)), newContext)
    requires ContextsLegal(db.contexts[context := ContextRow(binding, ItemOf(id, kind))])
    requires match Show(Layout(LayoutOf(db.panes), None), context, newPane, toSide)
      case Failure(error) => shown == Failure(error)
      case Success(next) => next.focus.Some? && shown == Success((Stored(next.panes), next.focus.value))
    ensures WorkspaceLedger.OpenWorkItem(db, agent, binding, id, kind, toSide, newContext, newPane) == match shown
      case Failure(error) => Aborted(error)
      case Success((panes, focus)) =>
        Committed(db.(contexts := db.contexts[context := ContextRow(binding, ItemOf(id, kind))],
                      panes := panes, focus := Some(focus), revision := db.revision + 1), context)
  {
    assert Positive(Widths(LayoutOf(db.panes)));
    hide Show, WorkspaceInvariant, Stored, LayoutOf, Widths, Positive, ContextFor, ContextsLegal, OpenRefusal;
    ShowIgnoresFocus(LayoutOf(db.panes), db.focus, context, newPane, toSide);
  }

  /** Where the focus was does not matter to what is shown. */
  lemma ShowIgnoresFocus(panes: seq<Pane>, focus: Option<Id>, context: Id, paneId: Id, toSide: bool)
    requires Positive(Widths(panes))
    ensures Show(Layout(panes, focus), context, paneId, toSide) == Show(Layout(panes, None), context, paneId, toSide)
    ensures Show(Layout(panes, None), context, paneId, toSide).Success? ==>
      Show(Layout(panes, None), context, paneId, toSide).value.focus.Some?
  {}

  lemma CloseIgnoresFocus(panes: seq<Pane>, focus: Option<Id>, id: Id)
    requires Positive(Widths(panes))
    ensures Close(Layout(panes, focus), id) == Close(Layout(panes, None), id)
  {}

  lemma ArchiveIgnoresFocus(panes: seq<Pane>, focus: Option<Id>, gone: set<Id>)
    requires Positive(Widths(panes))
    ensures Archive(Layout(panes, focus), gone) == Archive(Layout(panes, None), gone)
  {}

  /** With the winner of the enlarged table at hand, the committed tables are these. */
  lemma PublicationIs(db: Tables, id: Id, version: string, commit: string, tag: string, versionId: Id,
                      now: nat, winner: Id)
    requires FinishPublication(db, id, version, commit, tag, versionId, now).Committed?
    requires Wins(FinishPublication(db, id, version, commit, tag, versionId, now).db.versions, db.drafts[id].agent,
                  winner)
    ensures var draft := db.drafts[id];
      var versions :=
        db.versions[versionId := VersionRow(draft.agent, version, draft.definition, id, commit, tag, now)];
      FinishPublication(db, id, version, commit, tag, versionId, now) ==
        Committed(db.(versions := versions, agents := NamedAfter(db.agents, draft.agent, versions[winner]),
                      drafts := db.drafts[id := draft.(lifecycle := Archived, reserved := None)],
                      revision := db.revision + 1), versionId)
  {
    var next, row, best := FinishEffect(db, id, version, commit, tag, versionId, now);
    WinnerUnique(next.versions, row.agent, best, winner);
    hide Wins, NamedAfter, VersionConflict;
  }
}
