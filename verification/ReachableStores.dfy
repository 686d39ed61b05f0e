/**
 Stores that runs from the empty store reach, and in which a call does what its
 caller would not expect.
 */
module ReachableStores {
  import opened Wrappers
  import opened Sequences
  import opened Text
  import opened PaneWidths
  import opened PaneLayout
  import opened PaneRows
  import opened StoreTables
  import opened AgentVersions
  import opened DraftLedger
  import opened EnvironmentTable
  import opened FactoryRuns
  import opened WorkspaceLedger
  import opened StoreRuns

  /** A text of one visible character. */
  lemma Letter(text: string)
    requires |text| == 1 && 'a' <= text[0] <= 'z'
    ensures Trim(text) == text && IsCleanText(text, 64) && IsCleanText(text, NAME_BYTES)
      && IsCleanText(text, TEXT_BYTES)
    ensures !IsBlank(text) && IsRunText(text)
  {
    assert text[1..] == "" && ByteLength(text) == 1;
    TrimmedFixed(text);
  }

  /** A call that commits leads on to a reachable store. */
  lemma Onward(db: Tables, call: DraftCall) returns (next: Tables)
    requires Reachable(db) && OnDraftsOutcome(db, call).Committed?
    ensures next == OnDraftsOutcome(db, call).db && Reachable(next)
  {
    hide Reachable, OnDraftsOutcome;
    ReachableStep(db, OnDrafts(call));
    next := OnDraftsOutcome(db, call).db;
  }

  lemma WorkspaceReached(db: Tables, call: WorkspaceCall, next: Tables)
    requires Reachable(db) && WorkspaceInvariant(db) && Allowed(db, OnWorkspace(call))
    requires OnWorkspaceOutcome(db, call).Committed? && OnWorkspaceOutcome(db, call).db == next
    ensures Reachable(next)
  {
    hide Reachable, OnWorkspaceOutcome;
    ReachableStep(db, OnWorkspace(call));
  }

  lemma CatalogReached(db: Tables, call: CatalogCall, next: Tables)
    requires Reachable(db) && OnCatalogOutcome(db, call).Committed? && OnCatalogOutcome(db, call).db == next
    ensures Reachable(next)
  {
    hide Reachable, OnCatalogOutcome;
    ReachableStep(db, OnCatalog(call));
  }

  lemma RunsReached(db: Tables, call: RunCall, next: Tables)
    requires Reachable(db) && OnRunsOutcome(db, call).Committed? && OnRunsOutcome(db, call).db == next
    ensures Reachable(next)
  {
    hide Reachable, OnRunsOutcome;
    ReachableStep(db, OnRuns(call));
  }

  // ---------------------------------------------------------- single steps

  lemma AgentAdded(db: Tables)
    requires db.agents == map[]
    ensures CreateAgent(db, 0, "a") == Committed(Bump(db.(agents := map[0 := AgentRow("a", false)])), 0)
  {
    Letter("a");
    hide IsCleanText, Trim;
  }

  lemma BindingAdded(db: Tables, id: Id, root: string)
    requires LiveAgent(db, 0) && id !in db.bindings
    requires forall b :: b in db.bindings ==> db.bindings[b].root != root
    ensures CreateBinding(db, id, 0, 0, root) ==
      Committed(Bump(db.(bindings := db.bindings[id := BindingRow(0, 0, root, false)])), id)
  {}

  /** A Draft of Agent 0 on a branch, with its own worktree. */
  function DraftOf(binding: Id, name: string, branch: string): DraftRow
  {
    DraftRow(0, binding, Definition(name, "o", ["c"]), None, branch, "/" + branch, "", Active, None, None, None)
  }

  lemma DraftAdded(db: Tables, id: Id, name: string, branch: string)
    requires LiveAgent(db, 0) && LiveBinding(db, id) && id !in db.drafts
    requires |name| == 1 && 'a' <= name[0] <= 'z'
    requires forall d :: d in db.drafts ==>
      db.drafts[d].binding != id && db.drafts[d].branch != branch && db.drafts[d].worktree != "/" + branch
    ensures CreateDraft(db, id, DraftOf(id, name, branch)) ==
      Committed(Bump(db.(drafts := db.drafts[id := DraftOf(id, name, branch)])), id)
  {
    hide IsDefinition, CreateDraft;
    DefinitionAccepted(name);
    DraftAccepted(db, id, DraftOf(id, name, branch));
  }

  lemma DefinitionAccepted(name: string)
    requires |name| == 1 && 'a' <= name[0] <= 'z'
    ensures IsDefinition(Definition(name, "o", ["c"]))
  {
    Letter(name);
    Letter("o");
    Letter("c");
    hide IsCleanText, Trim;
  }

  lemma DraftAccepted(db: Tables, id: Id, draft: DraftRow)
    requires IsDefinition(draft.definition) && "/" <= draft.worktree && draft.reserved.None?
    requires LiveAgent(db, draft.agent) && LiveBinding(db, draft.binding) && id !in db.drafts
    requires forall d :: d in db.drafts ==>
      && db.drafts[d].binding != draft.binding && db.drafts[d].branch != draft.branch
      && db.drafts[d].worktree != draft.worktree
    ensures CreateDraft(db, id, draft) == Committed(Bump(db.(drafts := db.drafts[id := draft])), id)
  {
    hide IsDefinition;
    assert draft.(reserved := None) == draft;
  }

  /** One Agent, one workspace. */
  lemma AgentBound(before: Tables) returns (db: Tables)
    requires before == EMPTY_STORE.(environments := before.environments, revision := before.revision)
    requires Reachable(before)
    ensures Reachable(db)
    ensures db == before.(agents := map[0 := AgentRow("a", false)], bindings := map[0 := BindingRow(0, 0, "r", false)],
                          revision := before.revision + 2)
  {
    hide Reachable, CreateAgent, CreateBinding;
    AgentAdded(before);
    db := Onward(before, AddAgent(0, "a"));
    BindingAdded(db, 0, "r");
    db := Onward(db, AddBinding(0, 0, 0, "r"));
    assert db.bindings == map[0 := BindingRow(0, 0, "r", false)];
  }

  // ------------------------------------------------- a Version under an old name

  /** What is published, and what is left of its Draft. */
  function VersionOfDraft(binding: Id, name: string, version: string, tag: string): VersionRow
  {
    VersionRow(0, version, Definition(name, "o", ["c"]), binding, "", tag, 0)
  }

  lemma FirstReserved(one: string) returns (db: Tables)
    requires IsAgentVersion(one)
    ensures Reachable(db) && db.versions == map[]
    ensures db.agents == map[0 := AgentRow("a", false)] && db.bindings == map[0 := BindingRow(0, 0, "r", false)]
    ensures db.drafts == map[0 := DraftOf(0, "a", "x").(lifecycle := Publishing, reserved := Some(one))]
  {
    hide Reachable, IsAgentVersion, CreateAgent, CreateBinding, CreateDraft;
    EmptyReachable();
    db := AgentBound(EMPTY_STORE);
    DraftAdded(db, 0, "a", "x");
    db := Onward(db, AddDraft(0, DraftOf(0, "a", "x")));
    db := Onward(db, Reserve(0, one));
  }

  lemma FirstPublished(one: string) returns (db: Tables)
    requires IsAgentVersion(one)
    ensures Reachable(db)
    ensures db.agents == map[0 := AgentRow("a", false)] && db.bindings == map[0 := BindingRow(0, 0, "r", false)]
    ensures db.drafts == map[0 := DraftOf(0, "a", "x").(lifecycle := Archived)]
    ensures db.versions == map[0 := VersionOfDraft(0, "a", one, "t")]
  {
    hide Reachable, IsAgentVersion, FinishPublication, Wins;
    db := FirstReserved(one);
    FirstAccepted(db, 0, one, "t");
    var next, row, winner := FinishEffect(db, 0, one, "", "t", 0, 0);
    db := Onward(db, Publish(0, one, "", "t", 0, 0));
    assert next.versions == map[0 := row];
    OnlyWinner(row, winner);
    assert next.versions[winner] == row;
    assert next.agents == map[0 := AgentRow("a", false)];
    assert next.drafts == map[0 := DraftOf(0, "a", "x").(lifecycle := Archived)];
  }

  lemma OnlyWinner(row: VersionRow, winner: Id)
    requires Wins(map[0 := row], row.agent, winner)
    ensures winner == 0
  {}

  lemma FirstAccepted(db: Tables, id: Id, version: string, tag: string)
    requires InLifecycle(db, id, Publishing) && IsAgentVersion(version) && id !in db.versions
    requires forall v :: v in db.versions ==> db.versions[v].tag != tag && db.versions[v].version != version
    ensures FinishPublication(db, id, version, "", tag, id, 0).Committed?
  {
    hide IsAgentVersion, NamedAfter, Wins;
  }

  lemma SecondReserved(one: string, two: string) returns (db: Tables)
    requires IsAgentVersion(one) && IsAgentVersion(two)
    ensures Reachable(db)
    ensures db.agents == map[0 := AgentRow("a", false)]
    ensures db.versions == map[0 := VersionOfDraft(0, "a", one, "t")]
    ensures 1 in db.drafts && db.drafts[1] == DraftOf(1, "b", "y").(lifecycle := Publishing, reserved := Some(two))
  {
    hide Reachable, IsAgentVersion, CreateBinding, CreateDraft;
    db := FirstPublished(one);
    assert "r"[0] != "s"[0] && "x"[0] != "y"[0] && ("/" + "x")[1] != ("/" + "y")[1];
    BindingAdded(db, 1, "s");
    db := Onward(db, AddBinding(1, 0, 0, "s"));
    DraftAdded(db, 1, "b", "y");
    db := Onward(db, AddDraft(1, DraftOf(1, "b", "y")));
    db := Onward(db, Reserve(1, two));
  }

  /**
   Publishing `1.0.0` as a and then, from a second Draft, `02.0.0` as b: every call
   is accepted, the second Version is the numerically greatest, and the Agent keeps
   the name of the first.
   */
  lemma PublishedUnderOldName(one: string, two: string) returns (db: Tables)
    requires one == "1" + "." + "0" + "." + "0" && two == "02" + "." + "0" + "." + "0"
    ensures Reachable(db) && db.versions.Keys == {0, 1}
    ensures db.versions[0].version == one && db.versions[1].version == two
    ensures NumericallyGreatest(db.versions, 0, 1) && !NumericallyGreatest(db.versions, 0, 0)
    ensures db.versions[1].definition.name == "b" && 0 in db.agents && db.agents[0].name == "a"
  {
    hide IsAgentVersion, Triplet, Parsed, FinishPublication, Reachable;
    LeadingZeroLoses(one, two);
    var before := SecondReserved(one, two);
    assert "t"[0] != "u"[0];
    FirstAccepted(before, 1, two, "u");
    var next, row, winner := FinishEffect(before, 1, two, "", "u", 1, 0);
    db := Onward(before, Publish(1, two, "", "u", 1, 0));
    OlderWins(next.versions, before.versions[0], row, winner);
  }

  // ------------------------------------------------------ a discard that breaks

  const COLUMNS: EnvironmentContent := EnvironmentContent("e", [], None, None, false)

  /** One Environment, one Agent, one workspace. */
  lemma WorkspaceReachable() returns (db: Tables)
    ensures Reachable(db) && "e" in db.environments
    ensures db == EMPTY_STORE.(environments := db.environments, agents := map[0 := AgentRow("a", false)],
                               bindings := map[0 := BindingRow(0, 0, "r", false)], revision := 3)
  {
    hide Reachable, SyncEnvironments;
    EmptyReachable();
    EnvironmentSynced();
    var list, rows := [Environment("e", COLUMNS)], map["e" := EnvironmentRow(COLUMNS, true)];
    CatalogReached(EMPTY_STORE, Sync(list), Bump(EMPTY_STORE.(environments := rows)));
    db := AgentBound(Bump(EMPTY_STORE.(environments := rows)));
  }

  lemma EnvironmentSynced()
    ensures SyncEnvironments(EMPTY_STORE, [Environment("e", COLUMNS)]) ==
      Committed(Bump(EMPTY_STORE.(environments := map["e" := EnvironmentRow(COLUMNS, true)])), 1)
  {
    Letter("e");
    var one := Environment("e", COLUMNS);
    hide IsBlank;
    OneUpsert(one);
    hide Upserted, UpsertCount;
  }

  lemma OneUpsert(one: Environment)
    ensures Upserted(map[], [one]) == map[one.id := Listed(one)] && UpsertCount(map[], [one]) == 1
  {
    assert [one][..0] == [];
    assert Upserted(map[], []) == map[] && UpsertCount(map[], []) == 0;
  }

  /** A session that nobody was briefed for. */
  const SESSION: SessionRow := SessionRow(0, CodingThread, "e", None, None, "s", false, false)

  function WithSession(db: Tables): Tables
  {
    Bump(db.(sessions := map[0 := SESSION]))
  }

  /** It is opened in the workspace. */
  function SessionOpened(db: Tables): Tables
  {
    db.(sessions := map[0 := SESSION],
        contexts := map[0 := ContextRow(0, SessionItem(0))],
        panes := [Some(Pane(0, 0, TOTAL)), None, None], focus := Some(0), revision := db.revision + 2)
  }

  lemma SessionSaved(db: Tables)
    requires "e" in db.environments && LiveBinding(db, 0) && db.sessions == map[]
    requires db.bindings[0].agent == 0 && db.bindings[0].project == 0
    ensures SaveSession(db, 0, SESSION, 0, 0) == Committed(WithSession(db), 0)
  {
    Letter("s");
    hide IsCleanText;
    assert db.sessions[0 := SESSION] == map[0 := SESSION];
  }

  lemma SinglePane(id: Id, context: Id)
    ensures ValidLayout(Layout([Pane(id, context, TOTAL)], Some(id)))
    ensures LayoutOf([Some(Pane(id, context, TOTAL)), None, None]) == [Pane(id, context, TOTAL)]
    ensures Stored([Pane(id, context, TOTAL)]) == [Some(Pane(id, context, TOTAL)), None, None]
  {
    var panes := [Pane(id, context, TOTAL)];
    assert Widths(panes) == [TOTAL] && Sum([TOTAL]) == TOTAL;
    assert panes[0].id == id;
  }

  lemma OpensFirst(db: Tables)
    requires WorkspaceInvariant(db) && db.panes == EMPTY_TABLE && db.focus == None && db.contexts == map[]
    requires LiveAgent(db, 0) && LiveBinding(db, 0) && db.bindings[0].agent == 0
    requires 0 in db.sessions && db.sessions[0].binding == 0 && db.sessions[0].purpose == CodingThread
    ensures OpenWorkItem(db, 0, 0, Some(0), Some(ThreadKind(CodingThread)), false, 0, 0) ==
      Committed(Bump(db.(contexts := map[0 := ContextRow(0, SessionItem(0))],
                         panes := [Some(Pane(0, 0, TOTAL)), None, None], focus := Some(0))), 0)
  {
    SinglePane(0, 0);
    assert LayoutOf(EMPTY_TABLE) == [];
    var row := ContextRow(0, SessionItem(0));
    assert ContextFor(db, row, 0) == 0;
    assert map[][0 := row] == map[0 := row];
    hide WorkspaceInvariant, Stored, LayoutOf;
  }

  /**
   Sync, create the Agent and its workspace, save a session, open it: discarding it is
   then accepted and leaves a focus on a pane that is gone.
   */
  lemma DiscardBreaks() returns (db: Tables)
    ensures Reachable(db) && WorkspaceInvariant(db) && DiscardsSession(db, 0)
    ensures var outcome := DiscardSession(db, 0);
      && outcome.Committed? && !WorkspaceInvariant(outcome.db)
      && outcome.db.focus == Some(0) && Find(outcome.db.panes, 0) == MAX_PANES
  {
    hide Reachable, SaveSession, OpenWorkItem;
    var empty := WorkspaceReachable();
    ReachableValid(empty);
    SessionSaved(empty);
    var saved := WithSession(empty);
    WorkspaceReached(empty, PutSession(0, SESSION, 0, 0), saved);
    ReachableValid(saved);
    OpensFirst(saved);
    db := SessionOpened(empty);
    assert LayoutOf(EMPTY_TABLE) == [];
    WorkspaceReached(saved, OpenItem(0, 0, Some(0), Some(ThreadKind(CodingThread)), false, 0, 0), db);
    ReachableValid(db);
    hide WorkspaceInvariant;
    assert DiscardsSession(db, 0);
    DiscardKeepsIff(db, 0);
  }

  lemma ReachableValid(db: Tables)
    requires Reachable(db)
    ensures StoreInvariant(db)
  {
    var states, calls :| EndsAt(states, calls, db);
    hide WorkspaceInvariant, DraftInvariant, RunInvariant, Perform, Allowed;
    RunKeeps(states, calls, |calls|);
  }

  // ------------------------------------------------------------- a Run revived

  const REPORT := RunReport("o", ["c"], [])

  function RunOf(state: RunState): FactoryRun
  {
    FactoryRun(0, 0, 0, 0, 0, "e", REPORT, state)
  }

  function RowOf(state: RunState): RunRow
  {
    RunRow(0, 0, "e", REPORT, StateName(state))
  }

  lemma RunSaved(db: Tables, state: RunState)
    requires "e" in db.environments && 0 in db.bindings && 0 in db.drafts
    requires db.bindings[0].agent == 0 && db.bindings[0].project == 0 && db.drafts[0].agent == 0
    requires db.runs.Keys <= {0} && (0 in db.runs ==> db.runs[0].binding == 0 && db.runs[0].draft == 0)
    ensures SaveRun(db, RunOf(state)) == Committed(Bump(db.(runs := map[0 := RowOf(state)])), 0)
  {
    hide StateName;
    assert db.runs[0 := RowOf(state)] == map[0 := RowOf(state)];
  }

  /** The Run is created and starts coding. */
  lemma RunUnderWay() returns (db: Tables)
    ensures Reachable(db) && "e" in db.environments && 0 in db.bindings && 0 in db.drafts
    ensures db.bindings[0].agent == 0 && db.bindings[0].project == 0 && db.drafts[0].agent == 0
    ensures db.runs == map[0 := RowOf(Coding)]
  {
    hide Reachable, StateName, ParseState, NewRun, SaveRun, CreateDraft;
    db := WorkspaceReachable();
    DraftAdded(db, 0, "a", "x");
    db := Onward(db, AddDraft(0, DraftOf(0, "a", "x")));
    DraftedRun();
    RunSaved(db, Drafted);
    var drafted := Bump(db.(runs := map[0 := RowOf(Drafted)]));
    RunsReached(db, StartRun(RunOf(Drafted)), drafted);
    StateNames(Drafted);
    RunSaved(drafted, Coding);
    db := Bump(drafted.(runs := map[0 := RowOf(Coding)]));
    RunsReached(drafted, Advance(0, Coding, REPORT), db);
  }

  /**
   A Run under way is loaded twice; one copy is cancelled and saved, then the other
   is saved as it was loaded: both saves are accepted, and the cancelled Run goes on.
   */
  lemma CancelledRunRevived() returns (before: Tables, cancelled: Tables, revived: Tables)
    ensures Reachable(before) && Reachable(cancelled) && Reachable(revived)
    ensures LoadRun(before, 0) == Some(RunOf(Coding))
    ensures SaveRun(before, RunOf(Coding).(state := Cancelled)) == Committed(cancelled, 0)
    ensures SaveRun(cancelled, RunOf(Coding)) == Committed(revived, 0)
    ensures LoadRun(cancelled, 0) == Some(RunOf(Cancelled)) && LoadRun(revived, 0) == Some(RunOf(Coding))
  {
    hide Reachable, StateName, ParseState, SaveRun;
    before := RunUnderWay();
    StateNames(Coding);
    StateNames(Cancelled);
    RunSaved(before, Cancelled);
    cancelled := Bump(before.(runs := map[0 := RowOf(Cancelled)]));
    RunsReached(before, SaveCopy(RunOf(Cancelled)), cancelled);
    RunSaved(cancelled, Coding);
    revived := Bump(cancelled.(runs := map[0 := RowOf(Coding)]));
    RunsReached(cancelled, SaveCopy(RunOf(Coding)), revived);
  }

  lemma DraftedRun()
    ensures NewRun(RunOf(Drafted)) == Success(RunOf(Drafted))
  {
    Letter("o");
    Letter("c");
    hide IsRunText;
  }
}
