/**
 The transactions that change what the workspace shows: opening a work item,
 arranging its panes, archiving an Agent, and the sessions behind them.
 */
module WorkspaceLedger {
  import opened Wrappers
  import opened StoreErrors
  import opened Sequences
  import opened Text
  import opened PaneWidths
  import opened PaneLayout
  import opened PaneRows
  import opened StoreTables
  import opened DraftLedger

  datatype ItemKind = DraftKind | ThreadKind(purpose: Purpose) | RunKind

  function LayoutIn(db: Tables): Layout
  {
    Layout(LayoutOf(db.panes), db.focus)
  }

  function Arranged(db: Tables, layout: Layout): Tables
  {
    db.(panes := Stored(layout.panes), focus := layout.focus)
  }

  /** A UNIQUE item per context; a context without item is unique per binding. */
  predicate SameKey(a: ContextRow, b: ContextRow)
  {
    a.item == b.item && (a.item.NoItem? ==> a.binding == b.binding)
  }

  predicate ContextsLegal(contexts: map<Id, ContextRow>)
  {
    forall a, b | a in contexts && b in contexts && a != b :: !SameKey(contexts[a], contexts[b])
  }

  /** The workspace is a valid layout stored without gaps, and every pane shows an existing context. */
  ghost predicate WorkspaceInvariant(db: Tables)
  {
    && ValidLayout(LayoutIn(db))
    && db.panes == Stored(LayoutOf(db.panes))
    && (forall pane :: pane in LayoutOf(db.panes) ==> pane.context in db.contexts)
    && ContextsLegal(db.contexts)
  }

  // ------------------------------------------------------------- transactions

  function ItemOf(id: Option<Id>, kind: Option<ItemKind>): ContextItem
  {
    match (id, kind)
    case (Some(id), Some(DraftKind)) => DraftItem(id)
    case (Some(id), Some(ThreadKind(_))) => SessionItem(id)
    case (Some(id), Some(RunKind)) => RunItem(id)
    case _ => NoItem
  }

  predicate ItemBelongs(db: Tables, agent: Id, binding: Id, id: Option<Id>, kind: Option<ItemKind>)
  {
    match (id, kind)
    case (Some(id), Some(DraftKind)) =>
      id in db.drafts && db.drafts[id].agent == agent && db.drafts[id].binding == binding
    case (Some(id), Some(ThreadKind(purpose))) =>
      id in db.sessions && db.sessions[id].binding == binding && db.sessions[id].purpose == purpose
    case (Some(id), Some(RunKind)) =>
      id in db.runs && db.runs[id].binding == binding
    case _ => true
  }

  /** The checks of `open_work_item`, in its order. */
  function OpenRefusal(db: Tables, agent: Id, binding: Id, id: Option<Id>, kind: Option<ItemKind>): Option<StoreError>
  {
    if id.Some? != kind.Some? then Some(InvalidInput)
    else if !LiveAgent(db, agent) || !LiveBinding(db, binding) then Some(NotFound)
    else if db.bindings[binding].agent != agent || !ItemBelongs(db, agent, binding, id, kind) then Some(InvalidInput)
    else None
  }

  /** The context of the item, or the new one when there is none yet. */
  ghost function ContextFor(db: Tables, row: ContextRow, newContext: Id): Id
  {
    if exists c :: c in db.contexts && db.contexts[c] == row then
      var c :| c in db.contexts && db.contexts[c] == row; c
    else newContext
  }

  ghost function OpenWorkItem(db: Tables, agent: Id, binding: Id, id: Option<Id>, kind: Option<ItemKind>, toSide: bool,
                              newContext: Id, newPane: Id): Outcome
    requires WorkspaceInvariant(db)
  {
    match OpenRefusal(db, agent, binding, id, kind)
    case Some(error) => Aborted(error)
    case None =>
      var row := ContextRow(binding, ItemOf(id, kind));
      var context := ContextFor(db, row, newContext);
      var contexts := db.contexts[context := row];
      if !ContextsLegal(contexts) then Aborted(Constraint)
      else
        match Show(LayoutIn(db), context, newPane, toSide)
        case Failure(error) => Aborted(error)
        case Success(layout) => Committed(Bump(Arranged(db, layout).(contexts := contexts)), context)
  }

  function Rearrange(db: Tables, layout: Result<Layout, StoreError>): Outcome
  {
    match layout
    case Failure(error) => Aborted(error)
    case Success(next) => Committed(Bump(Arranged(db, next)), 0)
  }

  function FocusWorkspacePane(db: Tables, pane: Id): Outcome
  {
    Rearrange(db, Focus(LayoutIn(db), pane))
  }

  function CloseWorkspacePane(db: Tables, pane: Id): Outcome
    requires Positive(Widths(LayoutOf(db.panes)))
  {
    Rearrange(db, Close(LayoutIn(db), pane))
  }

  function ResizeWorkspacePanes(db: Tables, request: seq<(Id, nat)>): Outcome
  {
    Rearrange(db, Resize(LayoutIn(db), request))
  }

  function MoveWorkspacePane(db: Tables, pane: Id, destination: nat): Outcome
  {
    Rearrange(db, Move(LayoutIn(db), pane, destination))
  }

  function ContextsOf(db: Tables, agent: Id): set<Id>
  {
    set c | c in db.contexts && db.contexts[c].binding in db.bindings
      && db.bindings[db.contexts[c].binding].agent == agent
  }

  function ArchivedBindings(bindings: map<Id, BindingRow>, agent: Id): map<Id, BindingRow>
  {
    map b | b in bindings :: if bindings[b].agent == agent then bindings[b].(archived := true) else bindings[b]
  }

  function ArchiveTargetAgent(db: Tables, agent: Id): Outcome
    requires Positive(Widths(LayoutOf(db.panes)))
  {
    if !LiveAgent(db, agent) then Aborted(NotFound)
    else
      Committed(Bump(Arranged(db, Archive(LayoutIn(db), ContextsOf(db, agent))).(
        bindings := ArchivedBindings(db.bindings, agent),
        agents := db.agents[agent := db.agents[agent].(archived := true)])), 0)
  }

  /** Saving an existing session keeps its lineage and never withdraws an outcome. */
  function SavedSession(db: Tables, id: Id, row: SessionRow): SessionRow
  {
    if id in db.sessions then
      db.sessions[id].(environment := row.environment, briefDelivered := row.briefDelivered,
                       hasOutcome := row.hasOutcome || db.sessions[id].hasOutcome)
    else row
  }

  /** The foreign keys of the row to store. A stored session keeps its Run and parent, whatever the given ones are. */
  predicate SessionReferencesExist(db: Tables, id: Id, row: SessionRow)
  {
    && row.environment in db.environments
    && (id !in db.sessions ==>
          && (row.run.Some? ==> row.run.value in db.runs)
          && (row.parent.Some? ==> row.parent.value in db.sessions || row.parent.value == id))
  }

  function SaveSession(db: Tables, id: Id, row: SessionRow, agent: Id, project: Id): Outcome
  {
    if !IsCleanText(row.herdrName, 64) then Aborted(InvalidInput)
    else if row.binding !in db.bindings then Aborted(NotFound)
    else if db.bindings[row.binding].agent != agent || db.bindings[row.binding].project != project then
      Aborted(InvalidInput)
    else if !SessionReferencesExist(db, id, row) then Aborted(Constraint)
    else if exists s | s in db.sessions :: s != id && db.sessions[s].herdrName == SavedSession(db, id, row).herdrName
      then Aborted(Constraint)
    else Committed(Bump(db.(sessions := db.sessions[id := SavedSession(db, id, row)])), 0)
  }

  predicate Discardable(db: Tables, id: Id)
  {
    id in db.sessions && db.sessions[id].run.None? && !db.sessions[id].briefDelivered && !db.sessions[id].hasOutcome
  }

  function ContextsWith(db: Tables, id: Id): set<Id>
  {
    set c | c in db.contexts && db.contexts[c].item == SessionItem(id)
  }

  function WithoutContexts(rows: PaneTable, gone: set<Id>): PaneTable
  {
    seq(MAX_PANES, p requires 0 <= p < MAX_PANES =>
      if rows[p].Some? && rows[p].value.context in gone then None else rows[p])
  }

  /** Deleting the session deletes its context and, through it, its pane, and nothing else moves. */
  function DiscardSession(db: Tables, id: Id): Outcome
  {
    if !Discardable(db, id) then Committed(db, 0)
    else if exists s | s in db.sessions :: s != id && db.sessions[s].parent == Some(id) then Aborted(Constraint)
    else
      var gone := ContextsWith(db, id);
      Committed(Bump(db.(sessions := db.sessions - {id}, contexts := db.contexts - gone,
                         panes := WithoutContexts(db.panes, gone))), 1)
  }

  // --------------------------------------------------------------- invariants

  lemma ArrangedInvariant(db: Tables, layout: Layout, contexts: map<Id, ContextRow>)
    requires ValidLayout(layout) && ContextsLegal(contexts)
    requires forall pane :: pane in layout.panes ==> pane.context in contexts
    ensures LayoutIn(Arranged(db, layout)) == layout
    ensures WorkspaceInvariant(Arranged(db, layout).(contexts := contexts))
  {
    StoredReadBack(layout.panes);
  }

  lemma FocusKeeps(db: Tables, pane: Id)
    requires WorkspaceInvariant(db)
    ensures var next := After(db, FocusWorkspacePane(db, pane)); WorkspaceInvariant(next) && WorkspaceEffect(db, next)
  {
    match Focus(LayoutIn(db), pane)
    case Failure(_) =>
    case Success(next) =>
      assert next.panes[IndexOf(next.panes, pane)].id == pane;
      ArrangedInvariant(db, next, db.contexts);
  }

  /** A pane call fails with the error of the layout operation, or leaves its layout and touches nothing else. */
  ghost predicate Rearranges(db: Tables, outcome: Outcome, layout: Result<Layout, StoreError>)
  {
    match layout
    case Failure(error) => outcome == Aborted(error)
    case Success(next) =>
      && outcome.Committed? && LayoutIn(outcome.db) == next
      && outcome.db == db.(panes := outcome.db.panes, focus := next.focus, revision := db.revision + 1)
  }

  /** Closing, resizing, moving and focusing do to the stored workspace what they do to its layout. */
  lemma PaneCallsExact(db: Tables, pane: Id, destination: nat, request: seq<(Id, nat)>)
    requires WorkspaceInvariant(db)
    ensures Positive(Widths(LayoutIn(db).panes))
    ensures Rearranges(db, CloseWorkspacePane(db, pane), Close(LayoutIn(db), pane))
    ensures Rearranges(db, ResizeWorkspacePanes(db, request), Resize(LayoutIn(db), request))
    ensures Rearranges(db, MoveWorkspacePane(db, pane, destination), Move(LayoutIn(db), pane, destination))
    ensures Rearranges(db, FocusWorkspacePane(db, pane), Focus(LayoutIn(db), pane))
  {
    var layout := LayoutIn(db);
    assert Positive(Widths(layout.panes)) && ValidLayout(layout);
    CloseValid(layout, pane);
    ResizeValid(layout, request);
    MoveValid(layout, pane, destination);
    hide WorkspaceInvariant, ValidLayout, Close, Resize, Move, LayoutIn, Positive, Widths, Focus, Arranged, Stored;
    RearrangedExact(db, Close(layout, pane));
    RearrangedExact(db, Resize(layout, request));
    RearrangedExact(db, Move(layout, pane, destination));
    FocusedExact(db, pane);
  }

  lemma RearrangedExact(db: Tables, layout: Result<Layout, StoreError>)
    requires layout.Success? ==> ValidLayout(layout.value)
    ensures Rearranges(db, Rearrange(db, layout), layout)
  {
    if layout.Success? {
      StoredReadBack(layout.value.panes);
    }
  }

  lemma FocusedExact(db: Tables, pane: Id)
    requires ValidLayout(LayoutIn(db))
    ensures Rearranges(db, FocusWorkspacePane(db, pane), Focus(LayoutIn(db), pane))
  {
    StoredReadBack(LayoutOf(db.panes));
  }

  /** Focusing is accepted exactly for a visible pane, and changes the focus and nothing else. */
  lemma FocusExact(db: Tables, pane: Id)
    requires WorkspaceInvariant(db)
    ensures FocusWorkspacePane(db, pane).Committed? <==> Shows(LayoutOf(db.panes), pane)
    ensures !Shows(LayoutOf(db.panes), pane) ==> FocusWorkspacePane(db, pane) == Aborted(NotFound)
    ensures FocusWorkspacePane(db, pane).Committed? ==>
      FocusWorkspacePane(db, pane).db == db.(focus := Some(pane), revision := db.revision + 1)
  {
    StoredReadBack(LayoutOf(db.panes));
    if Shows(LayoutOf(db.panes), pane) {
      assert IndexOf(LayoutOf(db.panes), pane) < |LayoutOf(db.panes)|;
    }
  }

  /** The invariant is about panes, focus and contexts only. */
  lemma SameWorkspace(db: Tables, next: Tables)
    requires WorkspaceInvariant(db) && next.panes == db.panes && next.focus == db.focus && next.contexts == db.contexts
    ensures WorkspaceInvariant(next)
  {
    hide ValidLayout, ContextsLegal, Stored, LayoutOf;
  }

  /** Any valid layout of known contexts may replace the current one. */
  lemma ReplacedKeeps(db: Tables, layout: Layout, contexts: map<Id, ContextRow>)
    requires WorkspaceInvariant(db) && ValidLayout(layout) && ContextsLegal(contexts)
    requires forall pane :: pane in layout.panes ==> pane.context in contexts
    ensures var next := Bump(Arranged(db, layout).(contexts := contexts));
      WorkspaceInvariant(next) && WorkspaceEffect(db, next)
  {
    hide WorkspaceInvariant, WorkspaceEffect, ValidLayout, ContextsLegal, Stored, Arranged;
    ArrangedInvariant(db, layout, contexts);
    SameWorkspace(Arranged(db, layout).(contexts := contexts), Bump(Arranged(db, layout).(contexts := contexts)));
    ReplacedEffect(db, layout, contexts);
  }

  lemma ReplacedEffect(db: Tables, layout: Layout, contexts: map<Id, ContextRow>)
    ensures WorkspaceEffect(db, Bump(Arranged(db, layout).(contexts := contexts)))
  {
    hide Stored;
  }

  lemma RearrangeKeeps(db: Tables, layout: Result<Layout, StoreError>)
    requires WorkspaceInvariant(db)
    requires layout.Success? ==>
      ValidLayout(layout.value) && forall pane :: pane in layout.value.panes ==> pane.context in db.contexts
    ensures var next := After(db, Rearrange(db, layout)); WorkspaceInvariant(next) && WorkspaceEffect(db, next)
  {
    if layout.Success? {
      assert ContextsLegal(db.contexts);
      hide ValidLayout, ContextsLegal, LayoutIn, Stored, WorkspaceInvariant;
      ReplacedKeeps(db, layout.value, db.contexts);
      assert Arranged(db, layout.value).(contexts := db.contexts) == Arranged(db, layout.value);
    }
  }

  lemma CloseKeeps(db: Tables, pane: Id)
    requires WorkspaceInvariant(db)
    ensures var next := After(db, CloseWorkspacePane(db, pane)); WorkspaceInvariant(next) && WorkspaceEffect(db, next)
  {
    assert Positive(Widths(LayoutIn(db).panes)) && ValidLayout(LayoutIn(db));
    assert forall p :: p in LayoutIn(db).panes ==> p.context in db.contexts.Keys;
    hide WorkspaceInvariant, WorkspaceEffect, Close, ValidLayout, LayoutIn, Widths, Positive, Rearrange;
    CloseValid(LayoutIn(db), pane);
    CloseContexts(LayoutIn(db), pane, db.contexts.Keys);
    RearrangeKeeps(db, Close(LayoutIn(db), pane));
  }

  lemma CloseContexts(layout: Layout, pane: Id, known: set<Id>)
    requires Positive(Widths(layout.panes)) && forall p :: p in layout.panes ==> p.context in known
    ensures var closed := Close(layout, pane);
      closed.Success? ==> forall p :: p in closed.value.panes ==> p.context in known
  {
    var slot := IndexOf(layout.panes, pane);
    if slot < |layout.panes| {
      WithoutPositive(layout.panes, slot);
      FillContexts(Without(layout.panes, slot), layout.panes);
    }
  }

  /** Rescaling shows no context that was not shown before. */
  lemma FillContexts(some: seq<Pane>, all: seq<Pane>)
    requires Positive(Widths(some)) && forall pane :: pane in some ==> pane in all
    ensures forall pane :: pane in Fill(some, TOTAL) ==>
      exists earlier :: earlier in all && earlier.context == pane.context
  {
    forall pane | pane in Fill(some, TOTAL)
      ensures exists earlier :: earlier in all && earlier.context == pane.context {
      var i :| 0 <= i < |some| && Fill(some, TOTAL)[i] == pane;
      assert some[i] in all && some[i].context == pane.context;
    }
  }

  lemma ResizeKeeps(db: Tables, request: seq<(Id, nat)>)
    requires WorkspaceInvariant(db)
    ensures var next := After(db, ResizeWorkspacePanes(db, request));
      WorkspaceInvariant(next) && WorkspaceEffect(db, next)
  {
    match Resize(LayoutIn(db), request)
    case Failure(_) =>
    case Success(next) =>
      ResizeValid(LayoutIn(db), request);
      forall pane | pane in next.panes ensures pane.context in db.contexts {
        var i :| 0 <= i < |next.panes| && next.panes[i] == pane;
        assert LayoutOf(db.panes)[i] in LayoutOf(db.panes);
      }
      ArrangedInvariant(db, next, db.contexts);
  }

  lemma MoveKeeps(db: Tables, pane: Id, destination: nat)
    requires WorkspaceInvariant(db)
    ensures var next := After(db, MoveWorkspacePane(db, pane, destination));
      WorkspaceInvariant(next) && WorkspaceEffect(db, next)
  {
    match Move(LayoutIn(db), pane, destination)
    case Failure(_) =>
    case Success(next) =>
      MoveValid(LayoutIn(db), pane, destination);
      MovePermutes(LayoutIn(db), pane, destination);
      forall p | p in next.panes ensures p.context in db.contexts {
        assert p in multiset(next.panes) && p in multiset(LayoutOf(db.panes));
      }
      ArrangedInvariant(db, next, db.contexts);
  }

  lemma ArchiveAgentKeeps(db: Tables, agent: Id)
    requires WorkspaceInvariant(db)
    ensures Positive(Widths(LayoutOf(db.panes)))
    ensures var next := After(db, ArchiveTargetAgent(db, agent)); WorkspaceInvariant(next) && WorkspaceEffect(db, next)
  {
    hide WorkspaceInvariant, WorkspaceEffect, ValidLayout, Archive, ContextsOf, LayoutIn, LayoutOf, ArchivedBindings;
    ArchiveContexts(db, agent);
    if LiveAgent(db, agent) {
      var layout := Archive(LayoutIn(db), ContextsOf(db, agent));
      RearrangeKeeps(db, Success(layout));
      ArchivedRows(db, Bump(Arranged(db, layout)), agent);
    } else {
      NothingChanges(db);
    }
  }

  /** Marking an Agent and its bindings as archived concerns no pane and no name. */
  lemma ArchivedRows(db: Tables, arranged: Tables, agent: Id)
    requires WorkspaceInvariant(arranged) && WorkspaceEffect(db, arranged) && LiveAgent(db, agent)
    requires arranged.revision > db.revision
    ensures var next := arranged.(bindings := ArchivedBindings(db.bindings, agent),
                                  agents := db.agents[agent := db.agents[agent].(archived := true)]);
      WorkspaceInvariant(next) && WorkspaceEffect(db, next)
  {
    SameWorkspace(arranged, arranged.(bindings := ArchivedBindings(db.bindings, agent),
                                      agents := db.agents[agent := db.agents[agent].(archived := true)]));
    hide WorkspaceInvariant, ArchivedBindings;
  }

  lemma ArchiveContexts(db: Tables, agent: Id)
    requires WorkspaceInvariant(db)
    ensures Positive(Widths(LayoutOf(db.panes))) && Positive(Widths(LayoutIn(db).panes))
    ensures ValidLayout(Archive(LayoutIn(db), ContextsOf(db, agent)))
    ensures forall pane :: pane in Archive(LayoutIn(db), ContextsOf(db, agent)).panes ==> pane.context in db.contexts
  {
    ArchiveValid(LayoutIn(db), ContextsOf(db, agent));
    OutsidePositive(LayoutOf(db.panes), ContextsOf(db, agent));
    hide ValidLayout, Stored, ContextsLegal, ContextsOf;
    FillContexts(Outside(LayoutOf(db.panes), ContextsOf(db, agent)), LayoutOf(db.panes));
  }

  lemma OpenKeeps(db: Tables, agent: Id, binding: Id, id: Option<Id>, kind: Option<ItemKind>, toSide: bool,
                  newContext: Id, newPane: Id)
    requires WorkspaceInvariant(db) && !Shows(LayoutOf(db.panes), newPane)
    ensures var next := After(db, OpenWorkItem(db, agent, binding, id, kind, toSide, newContext, newPane));
      WorkspaceInvariant(next) && WorkspaceEffect(db, next)
  {
    hide WorkspaceInvariant, WorkspaceEffect, OpenWorkItem, ContextFor, ItemOf, ContextsLegal, OpenRefusal;
    hide Show, LayoutIn, LayoutOf, Arranged, Shows;
    var row := ContextRow(binding, ItemOf(id, kind));
    var context := ContextFor(db, row, newContext);
    ShownKeeps(db, context, db.contexts[context := row], toSide, newPane);
    NothingChanges(db);
    OpenOutcome(db, agent, binding, id, kind, toSide, newContext, newPane);
  }

  lemma NothingChanges(db: Tables)
    ensures WorkspaceEffect(db, db)
  {}

  /** Opening either changes nothing or shows the context of the item. */
  lemma OpenOutcome(db: Tables, agent: Id, binding: Id, id: Option<Id>, kind: Option<ItemKind>, toSide: bool,
                    newContext: Id, newPane: Id)
    requires WorkspaceInvariant(db)
    ensures var outcome := OpenWorkItem(db, agent, binding, id, kind, toSide, newContext, newPane);
      outcome.Committed? ==>
        var row := ContextRow(binding, ItemOf(id, kind));
        var context := ContextFor(db, row, newContext);
        var contexts := db.contexts[context := row];
        var shown := Show(LayoutIn(db), context, newPane, toSide);
        ContextsLegal(contexts) && shown.Success?
          && outcome.db == Bump(Arranged(db, shown.value).(contexts := contexts))
  {
    hide WorkspaceInvariant, ContextFor, ItemOf, ContextsLegal, OpenRefusal, Show, LayoutIn, Arranged;
  }

  lemma ShownKeeps(db: Tables, context: Id, contexts: map<Id, ContextRow>, toSide: bool, newPane: Id)
    requires WorkspaceInvariant(db) && !Shows(LayoutOf(db.panes), newPane)
    requires context in contexts && db.contexts.Keys <= contexts.Keys
    ensures var shown := Show(LayoutIn(db), context, newPane, toSide);
      shown.Success? && ContextsLegal(contexts) ==>
        var next := Bump(Arranged(db, shown.value).(contexts := contexts));
        WorkspaceInvariant(next) && WorkspaceEffect(db, next)
  {
    assert Positive(Widths(LayoutIn(db).panes)) && ValidLayout(LayoutIn(db));
    assert forall p :: p in LayoutIn(db).panes ==> p.context in contexts.Keys;
    ShowValid(LayoutIn(db), context, newPane, toSide);
    ShowContexts(LayoutIn(db), context, newPane, toSide, contexts.Keys);
    var shown := Show(LayoutIn(db), context, newPane, toSide);
    if shown.Success? && ContextsLegal(contexts) {
      hide WorkspaceInvariant, WorkspaceEffect, ValidLayout, ContextsLegal, Show, LayoutIn;
      ReplacedKeeps(db, shown.value, contexts);
    }
  }

  lemma ShowContexts(layout: Layout, context: Id, paneId: Id, toSide: bool, known: set<Id>)
    requires Positive(Widths(layout.panes)) && context in known
    requires forall pane :: pane in layout.panes ==> pane.context in known
    ensures var shown := Show(layout, context, paneId, toSide);
      shown.Success? ==> forall pane :: pane in shown.value.panes ==> pane.context in known
  {
    match Show(layout, context, paneId, toSide)
    case Failure(_) =>
    case Success(next) =>
      forall pane | pane in next.panes ensures pane.context in known {
        var i :| 0 <= i < |next.panes| && next.panes[i] == pane;
        if i < |layout.panes| {
          assert layout.panes[i] in layout.panes;
        }
      }
  }

  /** Which item a request names, if any. */
  ghost predicate Names(item: ContextItem, id: Option<Id>, kind: Option<ItemKind>)
  {
    match item
    case NoItem => id.None? || kind.None?
    case DraftItem(draft) => id == Some(draft) && kind == Some(DraftKind)
    case RunItem(run) => id == Some(run) && kind == Some(RunKind)
    case SessionItem(session) => id == Some(session) && kind.Some? && kind.value.ThreadKind?
  }

  lemma ItemNamed(id: Option<Id>, kind: Option<ItemKind>)
    ensures Names(ItemOf(id, kind), id, kind)
  {}

  /** Whether the context exists already. */
  ghost predicate HasContext(db: Tables, row: ContextRow)
  {
    exists c :: c in db.contexts && db.contexts[c] == row
  }

  /**
   A committed open shows the item's context, the one it had or else the new one, as
   `Show` says: in view already, in the first pane without the side, in one more pane
   to the side. That pane has the focus, and nothing but panes, focus and the new
   context changes.
   */
  lemma OpenShowsItem(db: Tables, agent: Id, binding: Id, id: Option<Id>, kind: Option<ItemKind>, toSide: bool,
                      newContext: Id, newPane: Id)
    requires WorkspaceInvariant(db) && !Shows(LayoutOf(db.panes), newPane)
    ensures var outcome := OpenWorkItem(db, agent, binding, id, kind, toSide, newContext, newPane);
      outcome.Committed? ==>
        var row, before, next := ContextRow(binding, ItemOf(id, kind)), LayoutOf(db.panes), outcome.db;
        && outcome.reply in next.contexts && next.contexts[outcome.reply] == row && Names(row.item, id, kind)
        && (HasContext(db, row) ==> next.contexts == db.contexts)
        && (!HasContext(db, row) ==> outcome.reply == newContext && next.contexts == db.contexts[newContext := row])
        && next == db.(contexts := next.contexts, panes := next.panes, focus := next.focus,
                       revision := db.revision + 1)
        && Positive(Widths(before))
        && Show(LayoutIn(db), outcome.reply, newPane, toSide) == Success(LayoutIn(next))
        && (exists pane ::
              pane in LayoutOf(next.panes) && pane.context == outcome.reply && next.focus == Some(pane.id))
        && |LayoutOf(next.panes)| ==
             |before| + if InView(before, outcome.reply) || (!toSide && before != []) then 0 else 1
  {
    hide WorkspaceInvariant, OpenRefusal, ItemOf, ContextsLegal, Show, InView, Names;
    ItemNamed(id, kind);
    var outcome := OpenWorkItem(db, agent, binding, id, kind, toSide, newContext, newPane);
    if outcome.Committed? {
      var row := ContextRow(binding, ItemOf(id, kind));
      ContextChosen(db, row, newContext);
      ShownLayout(db, outcome.reply, newPane, toSide);
    }
  }

  lemma ContextChosen(db: Tables, row: ContextRow, newContext: Id)
    ensures var context := ContextFor(db, row, newContext);
      if HasContext(db, row) then db.contexts[context := row] == db.contexts else context == newContext
  {}

  lemma ShownLayout(db: Tables, context: Id, newPane: Id, toSide: bool)
    requires WorkspaceInvariant(db) && !Shows(LayoutOf(db.panes), newPane)
    ensures Positive(Widths(LayoutOf(db.panes)))
    ensures var before, shown := LayoutOf(db.panes), Show(LayoutIn(db), context, newPane, toSide);
      shown.Success? ==>
        && LayoutOf(Stored(shown.value.panes)) == shown.value.panes
        && |shown.value.panes| == |before| + (if InView(before, context) || (!toSide && before != []) then 0 else 1)
        && exists pane :: pane in shown.value.panes && pane.context == context && shown.value.focus == Some(pane.id)
  {
    PanesOfValid(LayoutIn(db));
    ShowValid(LayoutIn(db), context, newPane, toSide);
    ShowKeepsOthers(LayoutIn(db), context, newPane, toSide);
    var shown := Show(LayoutIn(db), context, newPane, toSide);
    if shown.Success? {
      ShowFocuses(LayoutIn(db), context, newPane, toSide);
      StoredReadBack(shown.value.panes);
    }
    hide Show, WorkspaceInvariant, InView, Stored, LayoutOf;
  }

  /** The item exists and belongs to the workspace; a Draft also to the Agent. */
  ghost predicate ItemThere(db: Tables, agent: Id, binding: Id, id: Option<Id>, kind: Option<ItemKind>)
  {
    && (id.Some? <==> kind.Some?)
    && (kind == Some(DraftKind) ==>
          id.value in db.drafts && db.drafts[id.value].agent == agent && db.drafts[id.value].binding == binding)
    && (kind == Some(RunKind) ==> id.value in db.runs && db.runs[id.value].binding == binding)
    && (kind.Some? && kind.value.ThreadKind? ==>
          && id.value in db.sessions && db.sessions[id.value].binding == binding
          && db.sessions[id.value].purpose == kind.value.purpose)
  }

  /**
   Opening is accepted exactly for a live Agent, a live workspace of it and an item that
   is there, unless another workspace holds the item already, or there is no room to
   the side. The new context and pane come with unused ids.
   */
  lemma OpenAccepted(db: Tables, agent: Id, binding: Id, id: Option<Id>, kind: Option<ItemKind>, toSide: bool,
                     newContext: Id, newPane: Id)
    requires WorkspaceInvariant(db) && newContext !in db.contexts
    ensures Positive(Widths(LayoutOf(db.panes)))
    ensures var row := ContextRow(binding, ItemOf(id, kind));
      OpenWorkItem(db, agent, binding, id, kind, toSide, newContext, newPane).Committed? <==>
        && LiveAgent(db, agent) && LiveBinding(db, binding) && db.bindings[binding].agent == agent
        && ItemThere(db, agent, binding, id, kind)
        && (id.Some? ==>
              forall c :: c in db.contexts && db.contexts[c].item == row.item ==> db.contexts[c].binding == binding)
        && (toSide ==> Show(LayoutIn(db), ContextFor(db, row, newContext), newPane, true).Success?)
    ensures OpenWorkItem(db, agent, binding, id, kind, toSide, newContext, newPane) == Aborted(NotFound) <==>
      id.Some? == kind.Some? && (!LiveAgent(db, agent) || !LiveBinding(db, binding))
  {
    hide Show, LiveAgent, LiveBinding, ContextFor, ContextsLegal, LayoutIn, WorkspaceInvariant, ItemThere, ItemOf;
    hide OpenRefusal, InView, Names, OpenWorkItem;
    ItemNamed(id, kind);
    ItemHeld(db, ContextRow(binding, ItemOf(id, kind)), id, kind);
    OpenErrors(db, agent, binding, id, kind, toSide, newContext, newPane);
    var row := ContextRow(binding, ItemOf(id, kind));
    LegalAndValid(db);
    ContextFits(db, row, newContext);
    NotRefused(db, agent, binding, id, kind);
    ShowKeepsOthers(LayoutIn(db), ContextFor(db, row, newContext), newPane, toSide);
  }

  /** Only a context with an item can be held by another workspace. */
  lemma ItemHeld(db: Tables, row: ContextRow, id: Option<Id>, kind: Option<ItemKind>)
    requires Names(row.item, id, kind)
    ensures (id.Some? <==> kind.Some?) ==>
      ((forall c :: c in db.contexts && SameKey(db.contexts[c], row) ==> db.contexts[c].binding == row.binding) <==>
         (id.Some? ==>
            forall c :: c in db.contexts && db.contexts[c].item == row.item ==> db.contexts[c].binding == row.binding))
  {}

  /** An open in terms of its checks, and where its errors come from. */
  lemma OpenErrors(db: Tables, agent: Id, binding: Id, id: Option<Id>, kind: Option<ItemKind>, toSide: bool,
                   newContext: Id, newPane: Id)
    requires WorkspaceInvariant(db)
    ensures Positive(Widths(LayoutIn(db).panes))
    ensures var outcome := OpenWorkItem(db, agent, binding, id, kind, toSide, newContext, newPane);
      var row := ContextRow(binding, ItemOf(id, kind));
      var context := ContextFor(db, row, newContext);
      && (outcome.Committed? <==>
            && OpenRefusal(db, agent, binding, id, kind).None? && ContextsLegal(db.contexts[context := row])
            && Show(LayoutIn(db), context, newPane, toSide).Success?)
      && (outcome == Aborted(NotFound) <==> OpenRefusal(db, agent, binding, id, kind) == Some(NotFound))
  {
    hide WorkspaceInvariant, OpenRefusal, ItemOf, ContextsLegal, ContextFor, LayoutIn, Show;
    LegalAndValid(db);
    RefusalKinds(db, agent, binding, id, kind);
    ShowErrors(LayoutIn(db), ContextFor(db, ContextRow(binding, ItemOf(id, kind)), newContext), newPane, toSide);
  }

  lemma RefusalKinds(db: Tables, agent: Id, binding: Id, id: Option<Id>, kind: Option<ItemKind>)
    ensures OpenRefusal(db, agent, binding, id, kind).Some? ==>
      OpenRefusal(db, agent, binding, id, kind).value in {InvalidInput, NotFound}
  {}

  lemma ShowErrors(layout: Layout, context: Id, paneId: Id, toSide: bool)
    requires Positive(Widths(layout.panes))
    ensures Show(layout, context, paneId, toSide).Failure? ==>
      Show(layout, context, paneId, toSide).error in {Conflict, Constraint}
  {
    hide Fill;
  }

  lemma LegalAndValid(db: Tables)
    requires WorkspaceInvariant(db)
    ensures ContextsLegal(db.contexts) && ValidLayout(LayoutIn(db))
    ensures Positive(Widths(LayoutOf(db.panes))) && LayoutIn(db).panes == LayoutOf(db.panes)
  {}

  lemma NotRefused(db: Tables, agent: Id, binding: Id, id: Option<Id>, kind: Option<ItemKind>)
    ensures OpenRefusal(db, agent, binding, id, kind).None? <==>
      && LiveAgent(db, agent) && LiveBinding(db, binding) && db.bindings[binding].agent == agent
      && ItemThere(db, agent, binding, id, kind)
    ensures id.Some? != kind.Some? ==> OpenRefusal(db, agent, binding, id, kind) == Some(InvalidInput)
    ensures id.Some? == kind.Some? && (!LiveAgent(db, agent) || !LiveBinding(db, binding)) <==>
      OpenRefusal(db, agent, binding, id, kind) == Some(NotFound)
  {}

  lemma ContextFits(db: Tables, row: ContextRow, newContext: Id)
    requires ContextsLegal(db.contexts) && newContext !in db.contexts
    ensures ContextsLegal(db.contexts[ContextFor(db, row, newContext) := row]) <==>
      forall c :: c in db.contexts && SameKey(db.contexts[c], row) ==> db.contexts[c].binding == row.binding
  {
    ContextChosen(db, row, newContext);
    var next := db.contexts[ContextFor(db, row, newContext) := row];
    if HasContext(db, row) {
      var held :| held in db.contexts && db.contexts[held] == row;
      assert forall c :: c in db.contexts && SameKey(db.contexts[c], row) ==> c == held;
    } else {
      forall c | c in db.contexts ensures next[c] == db.contexts[c] && next[newContext] == row {}
    }
  }

  lemma ShowFocuses(layout: Layout, context: Id, paneId: Id, toSide: bool)
    requires Positive(Widths(layout.panes)) && Show(layout, context, paneId, toSide).Success?
    ensures var next := Show(layout, context, paneId, toSide).value;
      exists pane :: pane in next.panes && pane.context == context && next.focus == Some(pane.id)
  {
    var next := Show(layout, context, paneId, toSide).value;
    var shown := IndexOfContext(layout.panes, context);
    var k := if shown < |layout.panes| then shown else if !toSide && layout.panes != [] then 0 else |layout.panes|;
    assert next.panes[k] in next.panes;
  }

  lemma SaveSessionKeeps(db: Tables, id: Id, row: SessionRow, agent: Id, project: Id)
    requires WorkspaceInvariant(db)
    ensures var next := After(db, SaveSession(db, id, row, agent, project));
      WorkspaceInvariant(next) && WorkspaceEffect(db, next)
  {}

  ghost predicate HerdrNamesUnique(sessions: map<Id, SessionRow>)
  {
    forall a, b :: a in sessions && b in sessions && a != b ==> sessions[a].herdrName != sessions[b].herdrName
  }

  /** Whatever is saved, a stored session keeps its lineage, never loses an outcome, and names stay unique. */
  lemma SessionLineage(db: Tables, id: Id, row: SessionRow, agent: Id, project: Id, s: Id)
    requires HerdrNamesUnique(db.sessions) && s in db.sessions
    ensures var next := After(db, SaveSession(db, id, row, agent, project)).sessions;
      && HerdrNamesUnique(next) && s in next
      && next[s].binding == db.sessions[s].binding && next[s].purpose == db.sessions[s].purpose
      && next[s].run == db.sessions[s].run && next[s].parent == db.sessions[s].parent
      && next[s].herdrName == db.sessions[s].herdrName
      && (db.sessions[s].hasOutcome ==> next[s].hasOutcome)
      && (s != id ==> next[s] == db.sessions[s])
  {}

  /**
   A session is saved exactly with a clean name that no other one bears, in a workspace
   of the given Agent and project, with references that exist. A new one is stored as
   given; a stored one takes environment, brief and outcome, and keeps the rest.
   */
  lemma SaveSessionStores(db: Tables, id: Id, row: SessionRow, agent: Id, project: Id)
    ensures var outcome, known := SaveSession(db, id, row, agent, project), id in db.sessions;
      && (outcome.Committed? <==>
            && IsCleanText(row.herdrName, 64)
            && row.binding in db.bindings && db.bindings[row.binding].agent == agent
            && db.bindings[row.binding].project == project
            && row.environment in db.environments
            && (!known ==>
                  && (row.run.Some? ==> row.run.value in db.runs)
                  && (row.parent.Some? ==> row.parent.value in db.sessions || row.parent.value == id))
            && forall s :: s in db.sessions && s != id ==>
                 db.sessions[s].herdrName != if known then db.sessions[id].herdrName else row.herdrName)
      && (outcome.Aborted? ==>
            outcome.error ==
              if !IsCleanText(row.herdrName, 64) then InvalidInput
              else if row.binding !in db.bindings then NotFound
              else if db.bindings[row.binding].agent != agent || db.bindings[row.binding].project != project then
                InvalidInput
              else Constraint)
      && (outcome.Committed? ==>
            && var next := outcome.db;
            && next == db.(sessions := next.sessions, revision := db.revision + 1)
            && next.sessions.Keys == db.sessions.Keys + {id}
            && (forall s :: s in db.sessions && s != id ==> next.sessions[s] == db.sessions[s])
            && var stored := next.sessions[id];
            && stored.environment == row.environment && stored.briefDelivered == row.briefDelivered
            && (stored.hasOutcome <==> row.hasOutcome || (known && db.sessions[id].hasOutcome))
            && stored == (if known then db.sessions[id] else row).(environment := stored.environment,
                            briefDelivered := stored.briefDelivered, hasOutcome := stored.hasOutcome))
  {
    hide IsCleanText;
  }

  predicate SessionShown(db: Tables, id: Id)
  {
    exists p | 0 <= p < MAX_PANES :: db.panes[p].Some? && db.panes[p].value.context in ContextsWith(db, id)
  }

  /** Whether a discard deletes anything: one that started, ended or has a child stays as it is. */
  predicate DiscardsSession(db: Tables, id: Id)
  {
    Discardable(db, id) && forall s | s in db.sessions && s != id :: db.sessions[s].parent != Some(id)
  }

  /**
   A discard deletes the session exactly if it has no Run, no delivered brief and no
   outcome, and is refused if it then has a child. With it go its contexts and the panes
   on them; every other pane keeps its slot and its width, and the focus stays.
   */
  lemma DiscardStores(db: Tables, id: Id)
    ensures var outcome := DiscardSession(db, id);
      if id !in db.sessions || db.sessions[id].run.Some? || db.sessions[id].briefDelivered || db.sessions[id].hasOutcome
      then outcome == Committed(db, 0)
      else if !DiscardsSession(db, id) then outcome == Aborted(Constraint)
      else
        && outcome.Committed? && outcome.reply == 1
        && var next := outcome.db;
        && id !in next.sessions && next.sessions.Keys == db.sessions.Keys - {id}
        && (forall s :: s in next.sessions ==> next.sessions[s] == db.sessions[s])
        && (forall c :: c in next.contexts <==> c in db.contexts && db.contexts[c].item != SessionItem(id))
        && (forall c :: c in next.contexts ==> next.contexts[c] == db.contexts[c])
        && |next.panes| == MAX_PANES
        && (forall p :: 0 <= p < MAX_PANES ==>
              var gone := db.panes[p].Some? && db.panes[p].value.context in db.contexts.Keys - next.contexts.Keys;
              next.panes[p] == if gone then None else db.panes[p])
        && next == db.(sessions := next.sessions, contexts := next.contexts, panes := next.panes,
                       revision := db.revision + 1)
  {}

  /**
   Discarding a session keeps the workspace valid exactly when no pane shows it:
   the cascade that deletes its pane leaves the other widths and the focus alone.
   */
  lemma DiscardKeepsIff(db: Tables, id: Id)
    requires WorkspaceInvariant(db) && DiscardsSession(db, id)
    ensures DiscardSession(db, id).Committed?
    ensures WorkspaceInvariant(DiscardSession(db, id).db) <==> !SessionShown(db, id)
  {
    if SessionShown(db, id) {
      DiscardShown(db, id);
    } else {
      DiscardHidden(db, id);
    }
  }

  /** The panes that are left no longer fill the row. */
  lemma DiscardShown(db: Tables, id: Id)
    requires WorkspaceInvariant(db) && SessionShown(db, id) && Discardable(db, id) && DiscardSession(db, id).Committed?
    ensures !WorkspaceInvariant(DiscardSession(db, id).db)
  {
    hide ContextsLegal, Sum, Positive, DistinctIds, DistinctContexts;
    var gone, panes := ContextsWith(db, id), LayoutOf(db.panes);
    var p :| 0 <= p < MAX_PANES && db.panes[p].Some? && db.panes[p].value.context in gone;
    assert db.panes == Stored(panes) && p < |panes| && panes[p].context in gone;
    var next := DiscardSession(db, id).db;
    assert next.panes == WithoutContexts(Stored(panes), gone) && next.focus == db.focus;
    assert db.focus.Some?;
    WithoutShown(panes, gone, p);
  }

  lemma DiscardHidden(db: Tables, id: Id)
    requires WorkspaceInvariant(db) && !SessionShown(db, id) && Discardable(db, id) && DiscardSession(db, id).Committed?
    ensures WorkspaceInvariant(DiscardSession(db, id).db)
  {
    hide ValidLayout;
    var next, gone := DiscardSession(db, id).db, ContextsWith(db, id);
    var panes := LayoutOf(db.panes);
    assert next.panes == db.panes && next.contexts == db.contexts - gone;
    forall pane | pane in panes ensures pane.context in next.contexts {
      var i :| 0 <= i < |panes| && panes[i] == pane;
      assert db.panes[i] == Some(pane);
    }
  }

  lemma DiscardKeeps(db: Tables, id: Id)
    requires WorkspaceInvariant(db) && (DiscardsSession(db, id) ==> !SessionShown(db, id))
    ensures var next := After(db, DiscardSession(db, id)); WorkspaceInvariant(next) && WorkspaceEffect(db, next)
  {
    if DiscardsSession(db, id) {
      DiscardKeepsIff(db, id);
    }
  }

  lemma WithoutShown(panes: seq<Pane>, gone: set<Id>, p: nat)
    requires ValidPanes(panes) && p < |panes| && panes[p].context in gone
    ensures var rest := LayoutOf(WithoutContexts(Stored(panes), gone));
      rest != [] ==> Sum(Widths(rest)) < TOTAL
  {
    var rows := WithoutContexts(Stored(panes), gone);
    KeptRows(panes, rows, gone);
    OutsideShorter(panes, gone, p);
  }

  lemma {:induction false} OutsideShorter(panes: seq<Pane>, gone: set<Id>, p: nat)
    requires Positive(Widths(panes)) && p < |panes| && panes[p].context in gone
    ensures Sum(Widths(Outside(panes, gone))) < Sum(Widths(panes))
  {
    var tail := panes[1..];
    assert forall i :: 0 <= i < |tail| ==> Widths(tail)[i] == Widths(panes)[i + 1];
    assert Widths(panes)[0] > 0;
    OutsideSum(panes, gone);
    if p == 0 {
      OutsideTotal(tail, gone);
    } else {
      OutsideShorter(tail, gone, p - 1);
    }
  }

  /** The context belongs to a workspace of the Agent. */
  ghost predicate OfAgent(db: Tables, context: Id, agent: Id)
  {
    && context in db.contexts && db.contexts[context].binding in db.bindings
    && db.bindings[db.contexts[context].binding].agent == agent
  }

  /** Archiving an Agent takes exactly the panes of its work items out of view. */
  lemma ArchiveHidesAgent(db: Tables, agent: Id)
    requires WorkspaceInvariant(db) && LiveAgent(db, agent)
    ensures var before, next := LayoutOf(db.panes), ArchiveTargetAgent(db, agent).db;
      && next.contexts == db.contexts
      && (forall pane :: pane in LayoutOf(next.panes) ==> !OfAgent(next, pane.context, agent))
      && (forall pane :: pane in LayoutOf(next.panes) ==>
            exists earlier :: earlier in before && IsSamePane(pane, earlier))
      && (forall earlier :: earlier in before && !OfAgent(db, earlier.context, agent) ==>
            exists pane :: pane in LayoutOf(next.panes) && IsSamePane(pane, earlier))
  {
    var gone := ContextsOf(db, agent);
    var layout := Archive(LayoutIn(db), gone);
    ArchiveValid(LayoutIn(db), gone);
    StoredReadBack(layout.panes);
    ArchiveKeepsIds(LayoutIn(db), gone);
    ArchivedContexts(db, agent);
    ContextsOfAgent(db, agent);
    ContextsOfAgent(ArchiveTargetAgent(db, agent).db, agent);
    forall earlier | earlier in LayoutOf(db.panes) && !OfAgent(db, earlier.context, agent)
      ensures exists pane :: pane in layout.panes && IsSamePane(pane, earlier)
    {
      ArchiveKeepsPane(LayoutIn(db), gone, earlier);
    }
    hide WorkspaceInvariant, ValidLayout, Archive, ContextsOf, OfAgent, LayoutOf, LayoutIn, ArchiveTargetAgent;
  }

  lemma ContextsOfAgent(db: Tables, agent: Id)
    ensures forall c :: c in ContextsOf(db, agent) <==> OfAgent(db, c, agent)
  {}

  lemma ArchiveKeepsPane(layout: Layout, gone: set<Id>, pane: Pane)
    requires ValidLayout(layout) && pane in layout.panes && pane.context !in gone
    ensures exists kept :: kept in Archive(layout, gone).panes && IsSamePane(kept, pane)
  {
    ArchiveKeepsOthers(layout, gone);
    var rest := Outside(layout.panes, gone);
    var i :| 0 <= i < |rest| && rest[i] == pane;
    assert IsSamePane(Archive(layout, gone).panes[i], pane);
  }

  /**
   An Agent is archived exactly while it is live; with it exactly its workspaces, and
   the layout as `Archive` says. Nothing else changes.
   */
  lemma ArchiveAgentStores(db: Tables, agent: Id)
    requires WorkspaceInvariant(db)
    ensures Positive(Widths(LayoutOf(db.panes))) && Positive(Widths(LayoutIn(db).panes))
    ensures var outcome := ArchiveTargetAgent(db, agent);
      if !LiveAgent(db, agent) then outcome == Aborted(NotFound)
      else
        && outcome.Committed?
        && var next := outcome.db;
        && SameBut(db.agents, next.agents, agent) && next.agents[agent] == AgentRow(db.agents[agent].name, true)
        && next.bindings.Keys == db.bindings.Keys
        && (forall b :: b in db.bindings ==>
              && next.bindings[b].agent == db.bindings[b].agent && next.bindings[b].project == db.bindings[b].project
              && next.bindings[b].root == db.bindings[b].root
              && (next.bindings[b].archived <==> db.bindings[b].archived || db.bindings[b].agent == agent))
        && LayoutIn(next) == Archive(LayoutIn(db), ContextsOf(db, agent))
        && next == db.(agents := next.agents, bindings := next.bindings, panes := next.panes, focus := next.focus,
                       revision := db.revision + 1)
  {
    hide ContextsOf, WorkspaceInvariant, ValidLayout, Archive, Stored;
    LegalAndValid(db);
    ArchiveValid(LayoutIn(db), ContextsOf(db, agent));
    ValidReadBack(Archive(LayoutIn(db), ContextsOf(db, agent)));
  }

  /**
   An archived Agent takes no new workspace, no new Draft and no open, neither under
   itself nor in any of its workspaces, and cannot be archived again.
   */
  lemma ArchivedAgentRefuses(db: Tables, agent: Id, binding: Id, project: Id, root: string, draft: DraftRow, newId: Id,
                             id: Option<Id>, kind: Option<ItemKind>, toSide: bool, newPane: Id)
    requires WorkspaceInvariant(db) && LiveAgent(db, agent) && IsDefinition(draft.definition)
    requires "/" <= draft.worktree && (id.Some? <==> kind.Some?)
    ensures var next := ArchiveTargetAgent(db, agent).db;
      && WorkspaceInvariant(next)
      && ArchiveTargetAgent(next, agent) == Aborted(NotFound)
      && CreateBinding(next, newId, agent, project, root) == Aborted(NotFound)
      && OpenWorkItem(next, agent, binding, id, kind, toSide, newId, newPane) == Aborted(NotFound)
      && (draft.agent == agent || (draft.binding in db.bindings && db.bindings[draft.binding].agent == agent) ==>
            CreateDraft(next, newId, draft) == Aborted(NotFound))
  {
    ArchiveAgentKeeps(db, agent);
    ArchiveAgentStores(db, agent);
    hide WorkspaceInvariant, ArchiveTargetAgent, Archive, LayoutIn, LayoutOf, IsDefinition, Show, ContextFor;
  }

  /** Nor does the workspace of a discarded Draft take a new Draft or an open. */
  lemma DiscardedDraftRefuses(db: Tables, discarded: Id, draft: DraftRow, newId: Id, agent: Id, id: Option<Id>,
                              kind: Option<ItemKind>, toSide: bool, newPane: Id)
    requires WorkspaceInvariant(db) && ArchiveDraft(db, discarded).Committed? && IsDefinition(draft.definition)
    requires "/" <= draft.worktree && (id.Some? <==> kind.Some?)
    requires draft.binding == db.drafts[discarded].binding
    ensures var next := ArchiveDraft(db, discarded).db;
      && WorkspaceInvariant(next)
      && CreateDraft(next, newId, draft) == Aborted(NotFound)
      && OpenWorkItem(next, agent, draft.binding, id, kind, toSide, newId, newPane) == Aborted(NotFound)
  {
    SameWorkspace(db, ArchiveDraft(db, discarded).db);
    ArchiveStores(db, discarded);
    hide WorkspaceInvariant, ArchiveDraft, IsDefinition, Show, ContextFor, LayoutIn;
  }

  lemma ValidReadBack(layout: Layout)
    requires ValidLayout(layout)
    ensures LayoutOf(Stored(layout.panes)) == layout.panes
  {
    StoredReadBack(layout.panes);
  }

  lemma ArchivedContexts(db: Tables, agent: Id)
    requires Positive(Widths(LayoutOf(db.panes))) && LiveAgent(db, agent)
    ensures var next := ArchiveTargetAgent(db, agent).db;
      && next.contexts == db.contexts
      && next.panes == Stored(Archive(LayoutIn(db), ContextsOf(db, agent)).panes)
      && ContextsOf(next, agent) == ContextsOf(db, agent)
  {
    var next := ArchiveTargetAgent(db, agent).db;
    assert forall b :: b in db.bindings ==> b in next.bindings && next.bindings[b].agent == db.bindings[b].agent;
    assert ContextsOf(next, agent) == ContextsOf(db, agent);
  }

  lemma ArchiveKeepsIds(layout: Layout, gone: set<Id>)
    requires Positive(Widths(layout.panes))
    ensures forall pane :: pane in Archive(layout, gone).panes ==>
      exists earlier :: earlier in layout.panes && IsSamePane(pane, earlier)
  {
    var rest, next := Outside(layout.panes, gone), Archive(layout, gone).panes;
    OutsidePositive(layout.panes, gone);
    forall pane | pane in next
      ensures exists earlier :: earlier in layout.panes && IsSamePane(pane, earlier)
    {
      var i :| 0 <= i < |next| && next[i] == pane;
      assert rest[i] in rest && IsSamePane(pane, rest[i]);
    }
  }
}
