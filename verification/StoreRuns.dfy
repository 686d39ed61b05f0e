/**
 Runs of the whole store: any sequence of its calls, refused ones included, from
 an empty store or from any state that satisfies the invariants.
 */
module StoreRuns {
  import opened Wrappers
  import opened Sequences
  import opened Text
  import opened PaneWidths
  import opened PaneLayout
  import opened PaneRows
  import opened StoreTables
  import opened AgentVersions
  import opened DraftLedger
  import opened EnvironmentTable
  import opened FactoryRuns
  import opened WorkspaceLedger

  datatype WorkspaceCall =
    | OpenItem(agent: Id, binding: Id, item: Option<Id>, kind: Option<ItemKind>, toSide: bool, newContext: Id,
               newPane: Id)
    | FocusPane(pane: Id)
    | ClosePane(pane: Id)
    | ResizePanes(request: seq<(Id, nat)>)
    | MovePane(pane: Id, destination: nat)
    | ArchiveAgent(agent: Id)
    | PutSession(id: Id, row: SessionRow, agent: Id, project: Id)
    | DropSession(id: Id)

  datatype DraftCall =
    | AddAgent(id: Id, name: string)
    | AddBinding(id: Id, agent: Id, project: Id, root: string)
    | MoveBinding(id: Id, root: string)
    | AddDraft(id: Id, draft: DraftRow)
    | ChooseEnvironment(id: Id, environment: Option<string>)
    | EditDraft(id: Id, definition: Definition, head: string)
    | Reserve(id: Id, version: string)
    | Restore(id: Id)
    | Publish(id: Id, version: string, commit: string, tag: string, versionId: Id, now: nat)
    | Cleanup(id: Id, required: bool, guidance: Option<string>)
    | DiscardDraft(id: Id)

  datatype CatalogCall =
    | Sync(list: seq<Environment>)
    | Reconcile(list: seq<Environment>)
    | Trust(key: TrustKey, fingerprint: string)
    | Revoke(key: TrustKey)

  datatype RunCall =
    | StartRun(run: FactoryRun)
    | Advance(id: Id, to: RunState, report: RunReport)
    | SaveCopy(run: FactoryRun)

  datatype Call =
    | OnWorkspace(workspace: WorkspaceCall)
    | OnDrafts(drafts: DraftCall)
    | OnCatalog(catalog: CatalogCall)
    | OnRuns(runs: RunCall)

  ghost predicate StoreInvariant(db: Tables)
  {
    WorkspaceInvariant(db) && DraftInvariant(db) && RunInvariant(db.runs)
  }

  /** New ids are unused, and no discard deletes a session that a pane shows. */
  ghost predicate Allowed(db: Tables, call: Call)
  {
    match call
    case OnWorkspace(OpenItem(_, _, _, _, _, newContext, newPane)) =>
      newContext !in db.contexts && !Shows(LayoutOf(db.panes), newPane)
    case OnWorkspace(DropSession(id)) => DiscardsSession(db, id) ==> !SessionShown(db, id)
    case _ => true
  }

  ghost function OnWorkspaceOutcome(db: Tables, call: WorkspaceCall): Outcome
    requires WorkspaceInvariant(db)
  {
    match call
    case OpenItem(agent, binding, id, kind, toSide, newContext, newPane) =>
      OpenWorkItem(db, agent, binding, id, kind, toSide, newContext, newPane)
    case FocusPane(pane) => FocusWorkspacePane(db, pane)
    case ClosePane(pane) => CloseWorkspacePane(db, pane)
    case ResizePanes(request) => ResizeWorkspacePanes(db, request)
    case MovePane(pane, destination) => MoveWorkspacePane(db, pane, destination)
    case ArchiveAgent(agent) => ArchiveTargetAgent(db, agent)
    case PutSession(id, row, agent, project) => SaveSession(db, id, row, agent, project)
    case DropSession(id) => DiscardSession(db, id)
  }

  ghost function OnDraftsOutcome(db: Tables, call: DraftCall): Outcome
  {
    match call
    case AddAgent(id, name) => CreateAgent(db, id, name)
    case AddBinding(id, agent, project, root) => CreateBinding(db, id, agent, project, root)
    case MoveBinding(id, root) => UpdateBindingRoot(db, id, root)
    case AddDraft(id, draft) => CreateDraft(db, id, draft)
    case ChooseEnvironment(id, environment) => SetDraftEnvironment(db, id, environment)
    case EditDraft(id, definition, head) => UpdateDraft(db, id, definition, head)
    case Reserve(id, version) => ReserveVersion(db, id, version)
    case Restore(id) => RestoreDraft(db, id)
    case Publish(id, version, commit, tag, versionId, now) =>
      FinishPublication(db, id, version, commit, tag, versionId, now)
    case Cleanup(id, required, guidance) => SetDraftCleanup(db, id, required, guidance)
    case DiscardDraft(id) => DraftLedger.ArchiveDraft(db, id)
  }

  function OnCatalogOutcome(db: Tables, call: CatalogCall): Outcome
  {
    match call
    case Sync(list) => SyncEnvironments(db, list)
    case Reconcile(list) => ReconcileEnvironments(db, list)
    case Trust(key, fingerprint) => TrustServer(db, key, fingerprint)
    case Revoke(key) => RevokeTrust(db, key)
  }

  function OnRunsOutcome(db: Tables, call: RunCall): Outcome
  {
    match call
    case StartRun(run) => CreateRun(db, run)
    case Advance(id, to, report) => AdvanceRun(db, id, to, report)
    case SaveCopy(run) => SaveRun(db, run)
  }

  ghost function Perform(db: Tables, call: Call): Outcome
    requires WorkspaceInvariant(db)
  {
    match call
    case OnWorkspace(call) => OnWorkspaceOutcome(db, call)
    case OnDrafts(call) => OnDraftsOutcome(db, call)
    case OnCatalog(call) => OnCatalogOutcome(db, call)
    case OnRuns(call) => OnRunsOutcome(db, call)
  }

  // ------------------------------------------------------------------ one call

  lemma WorkspaceCallKeeps(db: Tables, call: WorkspaceCall)
    requires WorkspaceInvariant(db) && Allowed(db, OnWorkspace(call))
    ensures var next := After(db, OnWorkspaceOutcome(db, call)); WorkspaceInvariant(next) && WorkspaceEffect(db, next)
  {
    hide OpenWorkItem, FocusWorkspacePane, CloseWorkspacePane, ResizeWorkspacePanes, MoveWorkspacePane;
    hide ArchiveTargetAgent, SaveSession, DiscardSession, WorkspaceEffect, SessionShown, DiscardsSession;
    match call
    case OpenItem(agent, binding, id, kind, toSide, newContext, newPane) =>
      OpenKeeps(db, agent, binding, id, kind, toSide, newContext, newPane);
    case FocusPane(pane) => FocusKeeps(db, pane);
    case ClosePane(pane) => CloseKeeps(db, pane);
    case ResizePanes(request) => ResizeKeeps(db, request);
    case MovePane(pane, destination) => MoveKeeps(db, pane, destination);
    case ArchiveAgent(agent) => ArchiveAgentKeeps(db, agent);
    case PutSession(id, row, agent, project) => SaveSessionKeeps(db, id, row, agent, project);
    case DropSession(id) => DiscardKeeps(db, id);
  }

  lemma WorkspaceEffectKeeps(db: Tables, next: Tables)
    requires StoreInvariant(db) && WorkspaceInvariant(next) && WorkspaceEffect(db, next)
    ensures StoreInvariant(next) && DraftStep(db, next, None) && RunStep(db.runs, next.runs, None)
      && RevisionStep(db, next)
  {
    hide WorkspaceInvariant, FromClosedDrafts, OnePerDraft;
  }

  lemma DraftEffectKeeps(db: Tables, next: Tables)
    requires StoreInvariant(db) && DraftInvariant(next) && DraftEffect(db, next)
    ensures StoreInvariant(next) && RunStep(db.runs, next.runs, None) && RevisionStep(db, next)
  {
    hide DraftInvariant;
  }

  lemma CatalogEffectKeeps(db: Tables, next: Tables)
    requires StoreInvariant(db) && CatalogEffect(db, next)
    ensures StoreInvariant(next) && DraftStep(db, next, None) && RunStep(db.runs, next.runs, None)
      && RevisionStep(db, next)
  {
    hide FromClosedDrafts, OnePerDraft, Named;
  }

  lemma RunEffectKeeps(db: Tables, next: Tables)
    requires StoreInvariant(db) && RunInvariant(next.runs) && next == db.(runs := next.runs, revision := next.revision)
    ensures StoreInvariant(next) && DraftStep(db, next, None)
  {
    hide FromClosedDrafts, OnePerDraft, Named, RunInvariant;
  }

  function Restored(call: Call): Option<Id>
  {
    match call
    case OnDrafts(Restore(id)) => Some(id)
    case _ => None
  }

  lemma DraftCallKeeps(db: Tables, call: DraftCall)
    requires DraftInvariant(db)
    ensures var next := After(db, OnDraftsOutcome(db, call));
      DraftInvariant(next) && DraftStep(db, next, Restored(OnDrafts(call))) && DraftEffect(db, next)
  {
    hide CreateAgent, CreateBinding, UpdateBindingRoot, CreateDraft, SetDraftEnvironment, UpdateDraft, ReserveVersion,
      RestoreDraft;
    hide FinishPublication, SetDraftCleanup, DraftLedger.ArchiveDraft, DraftInvariant, DraftStep, DraftEffect;
    match call
    case AddAgent(id, name) => CreateAgentKeeps(db, id, name);
    case AddBinding(id, agent, project, root) => CreateBindingKeeps(db, id, agent, project, root);
    case MoveBinding(id, root) => UpdateBindingRootKeeps(db, id, root);
    case AddDraft(id, draft) => CreateDraftKeeps(db, id, draft);
    case ChooseEnvironment(id, environment) => SetEnvironmentKeeps(db, id, environment);
    case EditDraft(id, definition, head) => UpdateDraftKeeps(db, id, definition, head);
    case Reserve(id, version) => ReserveKeeps(db, id, version);
    case Restore(id) => RestoreKeeps(db, id);
    case Publish(id, version, commit, tag, versionId, now) => FinishKeeps(db, id, version, commit, tag, versionId, now);
    case Cleanup(id, required, guidance) => CleanupKeeps(db, id, required, guidance);
    case DiscardDraft(id) => ArchiveKeeps(db, id);
  }

  lemma CatalogCallKeeps(db: Tables, call: CatalogCall)
    ensures CatalogEffect(db, After(db, OnCatalogOutcome(db, call)))
  {
    hide SyncEnvironments, ReconcileEnvironments, TrustServer, RevokeTrust, CatalogEffect;
    match call
    case Sync(list) => SyncKeeps(db, list);
    case Reconcile(list) => ReconcileKeeps(db, list);
    case Trust(key, fingerprint) => TrustKeeps(db, key, fingerprint);
    case Revoke(key) => TrustKeeps(db, key, "");
  }

  /** The copy of a Run that a call writes as it is. */
  function Copied(call: Call): Option<FactoryRun>
  {
    match call
    case OnRuns(SaveCopy(run)) => Some(run)
    case _ => None
  }

  lemma RunCallKeeps(db: Tables, call: RunCall)
    requires RunInvariant(db.runs)
    ensures var next := After(db, OnRunsOutcome(db, call));
      && RunInvariant(next.runs) && RunStep(db.runs, next.runs, Copied(OnRuns(call)))
      && next == db.(runs := next.runs, revision := next.revision) && RevisionStep(db, next)
  {
    hide CreateRun, AdvanceRun, SaveRun, RevisionStep;
    match call
    case StartRun(run) => CreateKeeps(db, run);
    case Advance(id, to, report) => AdvanceKeeps(db, id, to, report);
    case SaveCopy(run) => SaveKeeps(db, run);
  }

  /** Every call keeps every invariant, and treats Drafts, Versions, Runs and the revision lawfully. */
  lemma CallKeeps(db: Tables, call: Call)
    requires StoreInvariant(db) && Allowed(db, call)
    ensures var next := After(db, Perform(db, call));
      && StoreInvariant(next)
      && DraftStep(db, next, Restored(call))
      && RunStep(db.runs, next.runs, Copied(call))
      && RevisionStep(db, next)
  {
    hide OnWorkspaceOutcome, OnDraftsOutcome, OnCatalogOutcome, OnRunsOutcome, Allowed, After, DraftStep, RunStep;
    hide WorkspaceInvariant, DraftInvariant, RunInvariant, WorkspaceEffect, DraftEffect, CatalogEffect, RevisionStep;
    match call
    case OnWorkspace(call) =>
      WorkspaceCallKeeps(db, call);
      WorkspaceEffectKeeps(db, After(db, OnWorkspaceOutcome(db, call)));
    case OnDrafts(call) =>
      DraftCallKeeps(db, call);
      DraftEffectKeeps(db, After(db, OnDraftsOutcome(db, call)));
    case OnCatalog(call) =>
      CatalogCallKeeps(db, call);
      CatalogEffectKeeps(db, After(db, OnCatalogOutcome(db, call)));
    case OnRuns(call) =>
      RunCallKeeps(db, call);
      RunEffectKeeps(db, After(db, OnRunsOutcome(db, call)));
  }

  // ------------------------------------------------------------- whole runs

  /** `states` is a run of the store that makes `calls` in order. */
  ghost predicate IsRun(states: seq<Tables>, calls: seq<Call>)
  {
    && |states| == |calls| + 1
    && StoreInvariant(states[0])
    && forall i :: 0 <= i < |calls| ==>
        WorkspaceInvariant(states[i]) && Allowed(states[i], calls[i])
          && states[i + 1] == After(states[i], Perform(states[i], calls[i]))
  }

  lemma EmptyStoreValid()
    ensures StoreInvariant(EMPTY_STORE)
  {
    assert LayoutOf(EMPTY_TABLE) == [];
  }

  /** Safety over whole runs: every state reached satisfies every invariant. */
  lemma {:induction false} RunKeeps(states: seq<Tables>, calls: seq<Call>, i: nat)
    requires IsRun(states, calls) && i < |states|
    ensures StoreInvariant(states[i])
  {
    hide Perform, Allowed;
    if i > 0 {
      RunKeeps(states, calls, i - 1);
      CallKeeps(states[i - 1], calls[i - 1]);
    }
  }

  /** The layout facts in full, in every state of every run. */
  lemma LayoutAlwaysValid(states: seq<Tables>, calls: seq<Call>, i: nat)
    requires IsRun(states, calls) && i < |states|
    ensures var panes := LayoutOf(states[i].panes);
      && states[i].panes == Stored(panes) && |panes| <= MAX_PANES
      && Positive(Widths(panes)) && (panes != [] ==> Sum(Widths(panes)) == TOTAL)
      && DistinctContexts(panes) && DistinctIds(panes)
      && (states[i].focus.None? <==> panes == [])
      && (states[i].focus.Some? ==> Shows(panes, states[i].focus.value))
  {
    RunKeeps(states, calls, i);
  }

  /** The revision counts at most the calls, and where it stays only trust may have changed. */
  lemma {:induction false} RevisionOrder(states: seq<Tables>, calls: seq<Call>, i: nat, j: nat)
    requires IsRun(states, calls) && i <= j < |states|
    ensures RevisionOrdered(states[i], states[j]) && states[j].revision - states[i].revision <= j - i
    decreases j - i
  {
    hide Perform, Allowed, WorkspaceInvariant, DraftInvariant, RunInvariant, DraftStep, RunStep;
    if i < j {
      RevisionOrder(states, calls, i, j - 1);
      RunKeeps(states, calls, j - 1);
      CallKeeps(states[j - 1], calls[j - 1]);
    }
  }

  /** What a snapshot reads of the tables: everything but trust and the retired Environments. */
  function Snapshot(db: Tables): Tables
  {
    db.(trust := map[],
        environments := map id | id in db.environments && db.environments[id].available :: db.environments[id])
  }

  /** Two snapshots of one run with the same revision are the same snapshot. */
  lemma EqualRevisionEqualSnapshot(states: seq<Tables>, calls: seq<Call>, i: nat, j: nat)
    requires IsRun(states, calls) && i < |states| && j < |states|
    requires states[i].revision == states[j].revision
    ensures Snapshot(states[i]) == Snapshot(states[j])
  {
    if i <= j {
      RevisionOrder(states, calls, i, j);
    } else {
      RevisionOrder(states, calls, j, i);
    }
  }

  /** A Draft that is closed stays closed for the rest of the run, and every Version stays as it is. */
  lemma {:induction false} ClosedForever(states: seq<Tables>, calls: seq<Call>, i: nat, j: nat, draft: Id)
    requires IsRun(states, calls) && i <= j < |states|
    requires draft in states[i].drafts && !IsOpen(states[i].drafts[draft].lifecycle)
    ensures draft in states[j].drafts && !IsOpen(states[j].drafts[draft].lifecycle)
    ensures states[j].drafts[draft].definition == states[i].drafts[draft].definition
    ensures forall v :: v in states[i].versions ==>
      v in states[j].versions && states[j].versions[v] == states[i].versions[v]
    decreases j - i
  {
    hide Perform, Allowed, WorkspaceInvariant, DraftInvariant, RunInvariant, RevisionStep, RunStep;
    if i < j {
      ClosedForever(states, calls, i, j - 1, draft);
      RunKeeps(states, calls, j - 1);
      CallKeeps(states[j - 1], calls[j - 1]);
    }
  }

  ghost predicate NotRestored(calls: seq<Call>, i: nat, j: nat, draft: Id)
    requires j <= |calls|
  {
    forall k :: i <= k < j ==> calls[k] != OnDrafts(Restore(draft))
  }

  /**
   From a reservation on, until the Draft is restored, its definition is fixed;
   so a Version published from it carries the definition it had when reserved.
   */
  lemma {:induction false} PublishedAsReserved(states: seq<Tables>, calls: seq<Call>, i: nat, j: nat, draft: Id)
    requires IsRun(states, calls) && i <= j < |states|
    requires draft in states[i].drafts && states[i].drafts[draft].lifecycle == Publishing
    requires NotRestored(calls, i, j, draft)
    ensures draft in states[j].drafts && states[j].drafts[draft].lifecycle != Active
    ensures states[j].drafts[draft].definition == states[i].drafts[draft].definition
    ensures forall v :: v in states[j].versions && states[j].versions[v].draft == draft ==>
      states[j].versions[v].definition == states[i].drafts[draft].definition
    decreases j - i
  {
    hide Perform, Allowed, WorkspaceInvariant, RunInvariant, OnePerDraft, Named;
    RunKeeps(states, calls, j);
    if i < j {
      PublishedAsReserved(states, calls, i, j - 1, draft);
      RunKeeps(states, calls, j - 1);
      CallKeeps(states[j - 1], calls[j - 1]);
    }
  }

  predicate Reserves(call: Call, draft: Id)
  {
    call.OnDrafts? && call.drafts.Reserve? && call.drafts.id == draft
  }

  /** A stored Draft gets to be published by a reservation only, and a new Version comes from such a Draft as it is. */
  ghost predicate PublishingStep(db: Tables, next: Tables, draft: Id, reserved: bool)
  {
    && (draft in db.drafts && InLifecycle(next, draft, Publishing) && !reserved ==>
          InLifecycle(db, draft, Publishing) && next.drafts[draft].definition == db.drafts[draft].definition)
    && (forall v :: v in next.versions && v !in db.versions && next.versions[v].draft == draft ==>
          && InLifecycle(db, draft, Publishing) && !reserved
          && next.versions[v].definition == db.drafts[draft].definition)
  }

  lemma DraftCallPublishing(db: Tables, call: DraftCall, draft: Id)
    ensures PublishingStep(db, After(db, OnDraftsOutcome(db, call)), draft, Reserves(OnDrafts(call), draft))
  {
    hide CreateAgent, CreateBinding, UpdateBindingRoot, FinishPublication, CreateDraft, UpdateDraft, SetDraftCleanup;
    hide SetDraftEnvironment, ReserveVersion, RestoreDraft, DraftLedger.ArchiveDraft, PublishingStep;
    match call
    case AddAgent(id, name) => AgentAloneAdded(db, id, name, draft);
    case AddBinding(id, agent, project, root) => BindingAloneAdded(db, id, agent, project, root, draft);
    case MoveBinding(id, root) => BindingAloneMoved(db, id, root, draft);
    case Publish(id, version, commit, tag, versionId, now) =>
      PublishPublishes(db, id, version, commit, tag, versionId, now, draft);
    case _ => DraftAloneChanged(db, call, draft);
  }

  lemma AgentAloneAdded(db: Tables, id: Id, name: string, draft: Id)
    ensures PublishingStep(db, After(db, CreateAgent(db, id, name)), draft, false)
  {
    hide IsCleanText, Trim;
  }

  lemma BindingAloneAdded(db: Tables, id: Id, agent: Id, project: Id, root: string, draft: Id)
    ensures PublishingStep(db, After(db, CreateBinding(db, id, agent, project, root)), draft, false)
  {
    var outcome := CreateBinding(db, id, agent, project, root);
    assert outcome.Committed? ==> outcome.db.drafts == db.drafts && outcome.db.versions == db.versions;
    hide CreateBinding;
  }

  lemma BindingAloneMoved(db: Tables, id: Id, root: string, draft: Id)
    ensures PublishingStep(db, After(db, UpdateBindingRoot(db, id, root)), draft, false)
  {
    var outcome := UpdateBindingRoot(db, id, root);
    assert outcome.Committed? ==> outcome.db.drafts == db.drafts && outcome.db.versions == db.versions;
    hide UpdateBindingRoot;
  }

  lemma PublishPublishes(db: Tables, id: Id, version: string, commit: string, tag: string, versionId: Id, now: nat,
                         draft: Id)
    ensures PublishingStep(db, After(db, FinishPublication(db, id, version, commit, tag, versionId, now)), draft, false)
  {
    hide FinishPublication, IsAgentVersion, VersionConflict, Wins, NamedAfter;
    if FinishPublication(db, id, version, commit, tag, versionId, now).Committed? {
      var next, row, _ := FinishEffect(db, id, version, commit, tag, versionId, now);
    }
  }

  lemma DraftAloneChanged(db: Tables, call: DraftCall, draft: Id)
    requires call.AddDraft? || call.ChooseEnvironment? || call.EditDraft? || call.Reserve? || call.Restore?
      || call.Cleanup? || call.DiscardDraft?
    ensures PublishingStep(db, After(db, OnDraftsOutcome(db, call)), draft, Reserves(OnDrafts(call), draft))
  {
    hide CreateDraft, UpdateDraft, SetDraftCleanup, SetDraftEnvironment, ReserveVersion, RestoreDraft;
    hide DraftLedger.ArchiveDraft, PublishingStep, Reserves;
    match call
    case AddDraft(id, row) => DraftAloneAdded(db, id, row, draft);
    case EditDraft(id, definition, head) => DraftAloneEdited(db, id, definition, head, draft);
    case Reserve(id, version) => DraftAloneReserved(db, id, version, draft);
    case _ => DraftAloneMoved(db, call, draft);
  }

  lemma DraftAloneAdded(db: Tables, id: Id, row: DraftRow, draft: Id)
    ensures PublishingStep(db, After(db, CreateDraft(db, id, row)), draft, Reserves(OnDrafts(AddDraft(id, row)), draft))
  {
    hide IsDefinition, LiveAgent, LiveBinding, CreateDraft;
    CreateDraftStores(db, id, row);
  }

  lemma DraftAloneEdited(db: Tables, id: Id, definition: Definition, head: string, draft: Id)
    ensures PublishingStep(db, After(db, UpdateDraft(db, id, definition, head)), draft,
                           Reserves(OnDrafts(EditDraft(id, definition, head)), draft))
  {
    hide IsDefinition, Trimmed, RenamedFirst;
  }

  lemma DraftAloneReserved(db: Tables, id: Id, version: string, draft: Id)
    ensures PublishingStep(db, After(db, ReserveVersion(db, id, version)), draft,
                           Reserves(OnDrafts(Reserve(id, version)), draft))
  {
    hide IsAgentVersion;
  }

  lemma DraftAloneMoved(db: Tables, call: DraftCall, draft: Id)
    requires call.ChooseEnvironment? || call.Restore? || call.Cleanup? || call.DiscardDraft?
    ensures PublishingStep(db, After(db, OnDraftsOutcome(db, call)), draft, Reserves(OnDrafts(call), draft))
  {
    hide ArchiveBindingOf;
  }

  lemma CallPublishing(db: Tables, call: Call, draft: Id)
    requires StoreInvariant(db) && Allowed(db, call)
    ensures PublishingStep(db, After(db, Perform(db, call)), draft, Reserves(call, draft))
  {
    hide OnWorkspaceOutcome, OnDraftsOutcome, OnCatalogOutcome, OnRunsOutcome, Allowed, After;
    hide WorkspaceInvariant, DraftInvariant, RunInvariant, RevisionStep, NamesKept, DraftStep, RunStep;
    match call
    case OnWorkspace(call) => WorkspaceCallKeeps(db, call);
    case OnDrafts(call) => DraftCallPublishing(db, call, draft);
    case OnCatalog(call) => CatalogCallKeeps(db, call);
    case OnRuns(call) => RunCallKeeps(db, call);
  }

  /** The Draft, while it is being published, and its Version carry this definition. */
  ghost predicate Carries(db: Tables, draft: Id, definition: Definition)
  {
    && draft in db.drafts
    && (db.drafts[draft].lifecycle == Publishing ==> db.drafts[draft].definition == definition)
    && (forall v :: v in db.versions && db.versions[v].draft == draft ==> db.versions[v].definition == definition)
  }

  /**
   Whatever happens in between, restorations included: a Version carries the
   definition its Draft had at the last reservation.
   */
  lemma {:induction false} PublishedAsLastReserved(states: seq<Tables>, calls: seq<Call>, i: nat, j: nat, draft: Id)
    requires IsRun(states, calls) && i < j < |states|
    requires Reserves(calls[i], draft) && InLifecycle(states[i], draft, Active)
    requires InLifecycle(states[i + 1], draft, Publishing)
    requires forall k :: i < k < j ==> !Reserves(calls[k], draft)
    ensures Carries(states[j], draft, states[i].drafts[draft].definition)
    decreases j
  {
    hide Perform, Allowed, WorkspaceInvariant, RunInvariant, OnePerDraft, Named, RunStep, RevisionStep, PublishingStep;
    var before := states[j - 1];
    RunKeeps(states, calls, j - 1);
    CallKeeps(before, calls[j - 1]);
    CallPublishing(before, calls[j - 1], draft);
    if j == i + 1 {
      ReservedCarries(before, states[j], calls[j - 1], draft);
    } else {
      PublishedAsLastReserved(states, calls, i, j - 1, draft);
      CarriedOn(before, states[j], draft, Restored(calls[j - 1]), states[i].drafts[draft].definition);
    }
  }

  lemma CarriedOn(db: Tables, next: Tables, draft: Id, restored: Option<Id>, definition: Definition)
    requires Carries(db, draft, definition) && DraftStep(db, next, restored) && PublishingStep(db, next, draft, false)
    ensures Carries(next, draft, definition)
  {}

  lemma ReservedCarries(db: Tables, next: Tables, call: Call, draft: Id)
    requires StoreInvariant(db) && Allowed(db, call) && next == After(db, Perform(db, call))
    requires Reserves(call, draft) && InLifecycle(db, draft, Active) && InLifecycle(next, draft, Publishing)
    ensures Carries(next, draft, db.drafts[draft].definition)
  {
    hide WorkspaceInvariant, RunInvariant, OnePerDraft, Named, IsAgentVersion;
    assert next == After(db, ReserveVersion(db, draft, call.drafts.version));
    forall v | v in db.versions ensures db.versions[v].draft != draft {}
  }

  /**
   A stored terminal Run keeps its state for as long as no call saves a copy of that
   very Run in another state. Any other call may come between, saves of other Runs
   and refused ones included.
   */
  lemma {:induction false} TerminalForever(states: seq<Tables>, calls: seq<Call>, i: nat, j: nat, run: Id,
                                           state: RunState)
    requires IsRun(states, calls) && i <= j < |states|
    requires InState(states[i].runs, run, state) && IsTerminal(state)
    requires forall k :: i <= k < j ==> !SavesOver(calls[k], run) || Copied(calls[k]).value.state == state
    ensures InState(states[j].runs, run, state)
    decreases j - i
  {
    hide Perform, Allowed, WorkspaceInvariant, DraftInvariant, DraftStep, ParseState, RevisionStep;
    if i < j {
      TerminalForever(states, calls, i, j - 1, run, state);
      RunKeeps(states, calls, j - 1);
      CallKeeps(states[j - 1], calls[j - 1]);
    }
  }

  predicate InState(runs: map<Id, RunRow>, run: Id, state: RunState)
  {
    run in runs && ParseState(runs[run].state) == Success(state)
  }

  predicate StoredTerminal(runs: map<Id, RunRow>, run: Id)
  {
    run in runs && ParseState(runs[run].state).Success? && IsTerminal(ParseState(runs[run].state).value)
  }

  predicate SavesOver(call: Call, run: Id)
  {
    Copied(call).Some? && Copied(call).value.id == run
  }

  /** A live copy saved, within its guards, over the terminal Run of its id. */
  predicate Revives(db: Tables, call: Call, run: Id)
  {
    StoredTerminal(db.runs, run) && SavesOver(call, run)
    && !IsTerminal(Copied(call).value.state) && SaveGuards(db, Copied(call).value)
  }

  /** Exactly such a save makes a terminal Run live again. */
  lemma RevivedBy(db: Tables, call: Call, run: Id)
    requires StoreInvariant(db) && Allowed(db, call) && StoredTerminal(db.runs, run)
    ensures var next := After(db, Perform(db, call));
      run in next.runs && (StoredTerminal(next.runs, run) <==> !Revives(db, call, run))
  {
    hide Allowed, SaveGuards, DraftInvariant, WorkspaceInvariant, DraftStep, RevisionStep, ParseState, SaveRun, After;
    CallKeeps(db, call);
    if SavesOver(call, run) {
      assert After(db, Perform(db, call)) == After(db, SaveRun(db, Copied(call).value));
      SaveRevives(db, Copied(call).value);
    }
  }

  /** Over any stretch of any run a terminal Run stays terminal exactly when no call in it revives that Run. */
  lemma {:induction false} TerminalUnlessRevived(states: seq<Tables>, calls: seq<Call>, i: nat, j: nat, run: Id)
    requires IsRun(states, calls) && i <= j < |states| && StoredTerminal(states[i].runs, run)
    ensures (forall m :: i <= m <= j ==> StoredTerminal(states[m].runs, run)) <==>
      (forall k :: i <= k < j ==> !Revives(states[k], calls[k], run))
    decreases j - i
  {
    hide Perform, Allowed, StoreInvariant, WorkspaceInvariant, StoredTerminal, Revives;
    if i < j {
      TerminalUnlessRevived(states, calls, i, j - 1, run);
      if StoredTerminal(states[j - 1].runs, run) {
        RunKeeps(states, calls, j - 1);
        RevivedBy(states[j - 1], calls[j - 1], run);
        assert states[j - 1 + 1] == After(states[j - 1], Perform(states[j - 1], calls[j - 1]));
        assert StoredTerminal(states[j].runs, run) <==> !Revives(states[j - 1], calls[j - 1], run);
      }
    }
  }

  /** A Run that becomes Passed otherwise than by a saved copy comes from one of three states. */
  lemma PassedFrom(states: seq<Tables>, calls: seq<Call>, i: nat, run: Id, state: RunState)
    requires IsRun(states, calls) && i < |calls|
    ensures InState(states[i].runs, run, state) && state != Passed && InState(states[i + 1].runs, run, Passed) ==>
      || state in {Orchestrating, Evaluating, Escalated}
      || (SavesOver(calls[i], run) && Copied(calls[i]).value.state == Passed)
  {
    hide Perform, Allowed, ParseState;
    RunKeeps(states, calls, i);
    CallKeeps(states[i], calls[i]);
    TransitionFacts(state, Passed);
  }

  predicate SharedDraft(runs: map<Id, RunRow>, a: Id, b: Id)
    requires a in runs && b in runs
  {
    a != b && runs[a].draft == runs[b].draft
  }

  /** At every moment of every run, copies included, a Draft has at most one live Run. */
  lemma OneLiveRun(states: seq<Tables>, calls: seq<Call>, i: nat, a: Id, b: Id)
    requires IsRun(states, calls) && i < |states|
    ensures RunInvariant(states[i].runs)
    ensures a in states[i].runs && b in states[i].runs && SharedDraft(states[i].runs, a, b) ==>
      IsTerminal(StateOf(states[i].runs, a)) || IsTerminal(StateOf(states[i].runs, b))
  {
    RunKeeps(states, calls, i);
    if a in states[i].runs && b in states[i].runs {
      ParsedStates(states[i].runs[a].state);
      ParsedStates(states[i].runs[b].state);
      StateNames(StateOf(states[i].runs, a));
      StateNames(StateOf(states[i].runs, b));
    }
  }

  lemma WorkspaceKeepsRoots(db: Tables, call: WorkspaceCall)
    requires WorkspaceInvariant(db) && RootsDistinct(db.bindings)
    ensures RootsDistinct(After(db, OnWorkspaceOutcome(db, call)).bindings)
  {
    hide WorkspaceInvariant, OpenRefusal, Show, Close, Resize, Move, Archive, Stored, ContextFor, ContextsLegal;
  }

  lemma DraftsKeepRoots(db: Tables, call: DraftCall)
    requires RootsDistinct(db.bindings)
    ensures RootsDistinct(After(db, OnDraftsOutcome(db, call)).bindings)
  {
    hide RootsDistinct, UpdateBindingRoot, CreateBinding, ArchiveBindingOf, IsDefinition, NamedAfter, VersionConflict,
      Wins;
    match call
    case AddBinding(id, agent, project, root) => CreatedRootsDistinct(db, id, agent, project, root);
    case MoveBinding(id, root) => MovedRootsDistinct(db, id, root);
    case Cleanup(id, _, _) => ArchivedRootsDistinct(db, id);
    case DiscardDraft(id) => ArchivedRootsDistinct(db, id);
    case _ =>
  }

  /** In every run the roots of an Agent's bindings in a project stay distinct if they were at the start. */
  lemma {:induction false} RootsAlwaysDistinct(states: seq<Tables>, calls: seq<Call>, i: nat)
    requires IsRun(states, calls) && RootsDistinct(states[0].bindings) && i < |states|
    ensures RootsDistinct(states[i].bindings)
  {
    hide Allowed, WorkspaceInvariant, DraftInvariant, RunInvariant, RootsDistinct;
    hide OnWorkspaceOutcome, OnDraftsOutcome, OnCatalogOutcome, OnRunsOutcome;
    if i > 0 {
      var db, call := states[i - 1], calls[i - 1];
      RootsAlwaysDistinct(states, calls, i - 1);
      match call {
        case OnWorkspace(call) => WorkspaceKeepsRoots(db, call);
        case OnDrafts(call) => DraftsKeepRoots(db, call);
        case OnCatalog(call) => CatalogCallKeeps(db, call);
        case OnRuns(call) =>
          RunKeeps(states, calls, i - 1);
          RunCallKeeps(db, call);
      }
    }
  }

  /** In every state of every run each Draft has at most one Version, with its own definition. */
  lemma OneVersionPerDraft(states: seq<Tables>, calls: seq<Call>, i: nat, v: Id, w: Id)
    requires IsRun(states, calls) && i < |states|
    ensures var db := states[i];
      && (v in db.versions && w in db.versions && db.versions[v].draft == db.versions[w].draft ==> v == w)
      && (v in db.versions ==>
            && db.versions[v].draft in db.drafts
            && db.versions[v].definition == db.drafts[db.versions[v].draft].definition)
  {
    RunKeeps(states, calls, i);
  }

  /** In every state of every run an Agent whose Versions are canonical bears the name of the greatest. */
  lemma AgentNamedAfterGreatest(states: seq<Tables>, calls: seq<Call>, i: nat, agent: Id, v: Id)
    requires IsRun(states, calls) && i < |states| && AllCanonical(states[i].versions, agent)
    requires NumericallyGreatest(states[i].versions, agent, v)
    ensures agent in states[i].agents && states[i].agents[agent].name == states[i].versions[v].definition.name
  {
    RunKeeps(states, calls, i);
    NameOfGreatest(states[i].agents, states[i].versions, agent, v);
  }

  /** A run of the store goes on with one more call, and its invariants with it. */
  lemma RunGoesOn(states: seq<Tables>, calls: seq<Call>, call: Call)
    requires IsRun(states, calls) && Allowed(states[|calls|], call)
    ensures |states| == |calls| + 1 && StoreInvariant(states[|calls|])
    ensures var next := After(states[|calls|], Perform(states[|calls|], call));
      IsRun(states + [next], calls + [call]) && StoreInvariant(next)
  {
    hide Perform, Allowed, WorkspaceInvariant, DraftInvariant, RunInvariant, After;
    RunKeeps(states, calls, |calls|);
    CallKeeps(states[|calls|], call);
  }

  // -------------------------------------------------------- reachable stores

  /** A run from the empty store ends here. */
  ghost predicate Reachable(db: Tables)
  {
    exists states, calls :: EndsAt(states, calls, db)
  }

  ghost predicate EndsAt(states: seq<Tables>, calls: seq<Call>, db: Tables)
  {
    IsRun(states, calls) && states[0] == EMPTY_STORE && states[|calls|] == db
  }

  lemma EmptyReachable()
    ensures Reachable(EMPTY_STORE)
  {
    EmptyStoreValid();
    assert EndsAt([EMPTY_STORE], [], EMPTY_STORE);
  }

  lemma ReachableStep(db: Tables, call: Call)
    requires Reachable(db) && Allowed(db, call)
    ensures StoreInvariant(db) && Reachable(After(db, Perform(db, call)))
  {
    hide Perform, Allowed, WorkspaceInvariant, DraftInvariant, RunInvariant, After;
    var states, calls :| EndsAt(states, calls, db);
    RunGoesOn(states, calls, call);
    var next := After(db, Perform(db, call));
    assert (states + [next])[0] == states[0];
    assert EndsAt(states + [next], calls + [call], next);
  }
}
