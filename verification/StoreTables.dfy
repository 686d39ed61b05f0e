/**
 The tables of the project store that the model keeps, and the outcome of one
 transaction over them. UUIDs are numbers and timestamps appear only where a
 query orders by them.
 */
module StoreTables {
  import opened Wrappers
  import opened StoreErrors
  import opened PaneLayout
  import opened PaneRows

  datatype AgentRow = AgentRow(name: string, archived: bool)

  datatype BindingRow = BindingRow(agent: Id, project: Id, root: string, archived: bool)

  datatype Definition = Definition(name: string, objective: string, criteria: seq<string>)

  datatype Lifecycle = Active | Publishing | Archived | CleanupRequired

  datatype DraftRow = DraftRow(agent: Id, binding: Id, definition: Definition, baseVersion: Option<string>,
                               branch: string, worktree: string, head: string, lifecycle: Lifecycle,
                               reserved: Option<string>, guidance: Option<string>, environment: Option<string>)

  datatype VersionRow = VersionRow(agent: Id, version: string, definition: Definition, draft: Id,
                                   commit: string, tag: string, createdAt: nat)

  datatype Purpose = OrchestrationThread | CodingThread | EvaluationThread

  datatype SessionRow = SessionRow(binding: Id, purpose: Purpose, environment: string, run: Option<Id>,
                                   parent: Option<Id>, herdrName: string, briefDelivered: bool, hasOutcome: bool)

  /** What a Run reports besides its state: objective, criteria, heads, files, evidence, verdict. */
  datatype RunReport = RunReport(objective: string, criteria: seq<string>, details: seq<string>)

  /** The state is stored as text. */
  datatype RunRow = RunRow(binding: Id, draft: Id, environment: string, report: RunReport, state: string)

  datatype ContextItem = NoItem | DraftItem(draft: Id) | SessionItem(session: Id) | RunItem(run: Id)

  datatype ContextRow = ContextRow(binding: Id, item: ContextItem)

  /** The columns of an Environment besides its id and availability; JSON columns are kept encoded. */
  datatype EnvironmentContent = EnvironmentContent(name: string, columns: seq<string>, llmPolicy: Option<string>,
                                                   resolvedLlm: Option<string>, llmNeedsSetup: bool)

  datatype EnvironmentRow = EnvironmentRow(content: EnvironmentContent, available: bool)

  datatype TrustKey = TrustKey(environment: string, plugin: string, server: string)

  datatype Tables = Tables(
    agents: map<Id, AgentRow>,
    bindings: map<Id, BindingRow>,
    drafts: map<Id, DraftRow>,
    versions: map<Id, VersionRow>,
    sessions: map<Id, SessionRow>,
    runs: map<Id, RunRow>,
    contexts: map<Id, ContextRow>,
    panes: PaneTable,
    focus: Option<Id>,
    environments: map<string, EnvironmentRow>,
    trust: map<TrustKey, string>,
    revision: nat)

  /** A committed transaction with its reply (an id or a row count), or an abandoned one. */
  datatype Outcome = Committed(db: Tables, reply: nat) | Aborted(error: StoreError)

  const EMPTY_STORE: Tables :=
    Tables(map[], map[], map[], map[], map[], map[], map[], EMPTY_TABLE, None, map[], map[], 0)

  /** Every mutation ends by counting up the revision in the same transaction. */
  function Bump(db: Tables): Tables
  {
    db.(revision := db.revision + 1)
  }

  /** The tables after a call: an abandoned transaction leaves them as they were. */
  function After(db: Tables, outcome: Outcome): Tables
  {
    match outcome
    case Committed(next, _) => next
    case Aborted(_) => db
  }

  /** The revision never falls, and stays only when nothing but trust may have changed. */
  ghost predicate RevisionOrdered(db: Tables, next: Tables)
  {
    next.revision >= db.revision && (next.revision == db.revision ==> next == db.(trust := next.trust))
  }

  /** One call counts it up by at most one. */
  ghost predicate RevisionStep(db: Tables, next: Tables)
  {
    RevisionOrdered(db, next) && next.revision <= db.revision + 1
  }

  ghost predicate NamesKept(before: map<Id, AgentRow>, next: map<Id, AgentRow>)
  {
    next.Keys == before.Keys && forall a :: a in before ==> next[a].name == before[a].name
  }

  /** What arranging the workspace leaves alone. */
  ghost predicate WorkspaceEffect(db: Tables, next: Tables)
  {
    && next.drafts == db.drafts && next.versions == db.versions && next.runs == db.runs
    && NamesKept(db.agents, next.agents)
    && RevisionStep(db, next)
  }

  /** What editing Drafts leaves alone. */
  ghost predicate DraftEffect(db: Tables, next: Tables)
  {
    && next.panes == db.panes && next.focus == db.focus && next.contexts == db.contexts && next.runs == db.runs
    && RevisionStep(db, next)
  }
}
