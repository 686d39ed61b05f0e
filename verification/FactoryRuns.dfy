/**
 Factory Runs: the state machine of one Run, its encoding in the ledger, and the
 ledger's rule that a Draft has at most one live Run.
 */
module FactoryRuns {
  import opened Wrappers
  import opened StoreErrors
  import opened Text
  import opened PaneLayout
  import opened StoreTables

  datatype RunState =
    | Drafted | Orchestrating | Coding | Evaluating | Escalated
    | Passed | Failed | NeedsReview | Cancelled

  datatype FactoryRun = FactoryRun(id: Id, agent: Id, draft: Id, binding: Id, project: Id, environment: string,
                                   report: RunReport, state: RunState)

  predicate IsTerminal(state: RunState)
  {
    state.Passed? || state.Failed? || state.NeedsReview? || state.Cancelled?
  }

  /** The moves of the workflow between different states. */
  predicate IsMove(from: RunState, to: RunState)
  {
    match (from, to)
    case (Drafted, Orchestrating) => true
    case (Drafted, Coding) => true
    case (Orchestrating, Coding) => true
    case (Orchestrating, Evaluating) => true
    case (Orchestrating, Passed) => true
    case (Orchestrating, Failed) => true
    case (Orchestrating, NeedsReview) => true
    case (Orchestrating, Escalated) => true
    case (Coding, Orchestrating) => true
    case (Coding, Evaluating) => true
    case (Coding, NeedsReview) => true
    case (Coding, Escalated) => true
    case (Evaluating, Orchestrating) => true
    case (Evaluating, Coding) => true
    case (Evaluating, Passed) => true
    case (Evaluating, Failed) => true
    case (Evaluating, NeedsReview) => true
    case (Evaluating, Escalated) => true
    case (Escalated, Coding) => true
    case (Escalated, Evaluating) => true
    case (Escalated, Passed) => true
    case (Escalated, Failed) => true
    case (Escalated, NeedsReview) => true
    case (_, Cancelled) => true
    case _ => false
  }

  function NextState(from: RunState, to: RunState): Result<RunState, StoreError>
  {
    if from == to then Success(from)
    else if !IsMove(from, to) || IsTerminal(from) then Failure(InvalidInput)
    else Success(to)
  }

  /** A Run in memory, advanced in place. */
  class RunCell {
    var run: FactoryRun

    constructor (run: FactoryRun)
      ensures this.run == run
    {
      this.run := run;
    }

    method Transition(to: RunState) returns (result: Result<Unit, StoreError>)
      modifies this
      ensures match NextState(old(run.state), to)
        case Success(state) => result == Success(Unit) && run == old(run).(state := state)
        case Failure(error) => result == Failure(error) && run == old(run)
      ensures result.Success? <==> run.state == to
      ensures IsTerminal(old(run.state)) ==> run == old(run)
    {
      if run.state == to {
        return Success(Unit);
      }
      if !IsMove(run.state, to) || IsTerminal(run.state) {
        return Failure(InvalidInput);
      }
      run := run.(state := to);
      return Success(Unit);
    }
  }

  predicate IsRunText(text: string)
  {
    !IsBlank(text) && ByteLength(text) <= TEXT_BYTES
  }

  /** A new Run starts as a draft with an objective and at least one criterion. */
  function NewRun(run: FactoryRun): Result<FactoryRun, StoreError>
  {
    if !IsRunText(run.report.objective) || run.report.criteria == []
       || exists i | 0 <= i < |run.report.criteria| :: !IsRunText(run.report.criteria[i])
    then Failure(InvalidInput)
    else Success(run.(state := Drafted, report := run.report.(details := [])))
  }

  // ----------------------------------------------------------------- encoding

  function StateName(state: RunState): string
  {
    match state
    case Drafted => "draft"
    case Orchestrating => "orchestrating"
    case Coding => "coding"
    case Evaluating => "evaluating"
    case Escalated => "escalated"
    case Passed => "passed"
    case Failed => "failed"
    case NeedsReview => "needs_review"
    case Cancelled => "cancelled"
  }

  function ParseState(name: string): Result<RunState, StoreError>
  {
    if name == "draft" then Success(Drafted)
    else if name == "orchestrating" then Success(Orchestrating)
    else if name == "coding" then Success(Coding)
    else if name == "evaluating" then Success(Evaluating)
    else if name == "escalated" then Success(Escalated)
    else if name == "passed" then Success(Passed)
    else if name == "failed" then Success(Failed)
    else if name == "needs_review" then Success(NeedsReview)
    else if name == "cancelled" then Success(Cancelled)
    else Failure(Corrupt)
  }

  /** The predicate of the unique index over live Runs, on the stored text. */
  predicate IndexedAsLive(name: string)
  {
    name != "passed" && name != "failed" && name != "needs_review" && name != "cancelled"
  }

  /** Names parse back, and the index covers exactly the states that are not terminal. */
  lemma StateNames(state: RunState)
    ensures ParseState(StateName(state)) == Success(state)
    ensures IndexedAsLive(StateName(state)) <==> !IsTerminal(state)
  {
    var name := StateName(state);
    assert |name| == 5 || |name| == 13 || |name| == 6 || |name| == 10 || |name| == 9 || |name| == 12;
    match state {
      case Drafted => assert name[0] == 'd';
      case Orchestrating => assert name[0] == 'o';
      case Coding => assert name[0] == 'c' && |name| == 6;
      case Evaluating => assert name[0] == 'e' && |name| == 10;
      case Escalated => assert name[0] == 'e' && |name| == 9;
      case Passed => assert name[0] == 'p';
      case Failed => assert name[0] == 'f';
      case NeedsReview => assert name[0] == 'n';
      case Cancelled => assert name[0] == 'c' && |name| == 9;
    }
  }

  lemma ParsedStates(name: string)
    ensures ParseState(name).Success? ==> StateName(ParseState(name).value) == name
  {}

  // ------------------------------------------------------------------- ledger

  /** The Run as it is loaded: identity joined from its workspace binding, state parsed. */
  function LoadRun(db: Tables, id: Id): Option<FactoryRun>
  {
    if id !in db.runs || db.runs[id].binding !in db.bindings || ParseState(db.runs[id].state).Failure? then None
    else
      var row, binding := db.runs[id], db.bindings[db.runs[id].binding];
      Some(FactoryRun(id, binding.agent, row.draft, row.binding, binding.project, row.environment,
                      row.report, ParseState(row.state).value))
  }

  /** The row a save leaves: an existing Run keeps its binding and its Draft. */
  function SavedRow(db: Tables, run: FactoryRun): RunRow
  {
    if run.id in db.runs then
      db.runs[run.id].(environment := run.environment, report := run.report, state := StateName(run.state))
    else RunRow(run.binding, run.draft, run.environment, run.report, StateName(run.state))
  }

  predicate LiveConflict(runs: map<Id, RunRow>, id: Id, row: RunRow)
  {
    IndexedAsLive(row.state)
    && exists other | other in runs :: other != id && runs[other].draft == row.draft && IndexedAsLive(runs[other].state)
  }

  function SaveRun(db: Tables, run: FactoryRun): Outcome
  {
    if run.binding !in db.bindings then Aborted(NotFound)
    else if db.bindings[run.binding].agent != run.agent || db.bindings[run.binding].project != run.project then
      Aborted(InvalidInput)
    else if run.draft !in db.drafts || run.environment !in db.environments then Aborted(NotFound)
    else if db.drafts[run.draft].agent != run.agent then Aborted(InvalidInput)
    else if LiveConflict(db.runs, run.id, SavedRow(db, run)) then Aborted(Constraint)
    else Committed(Bump(db.(runs := db.runs[run.id := SavedRow(db, run)])), 0)
  }

  /** Load a Run, make one transition, report, and save it, as one step. */
  function AdvanceRun(db: Tables, id: Id, to: RunState, report: RunReport): Outcome
  {
    match LoadRun(db, id)
    case None => Aborted(NotFound)
    case Some(run) =>
      match NextState(run.state, to)
      case Failure(error) => Aborted(error)
      case Success(state) => SaveRun(db, run.(state := state, report := report))
  }

  /** Create a Run under an unused id. */
  function CreateRun(db: Tables, run: FactoryRun): Outcome
  {
    if run.id in db.runs then Aborted(Constraint)
    else
      match NewRun(run)
      case Failure(error) => Aborted(error)
      case Success(created) => SaveRun(db, created)
  }

  /** No Draft has two live Runs, and every stored state text is one of the nine names. */
  ghost predicate RunInvariant(runs: map<Id, RunRow>)
  {
    && (forall a, b :: a in runs && b in runs && a != b && runs[a].draft == runs[b].draft ==>
          !IndexedAsLive(runs[a].state) || !IndexedAsLive(runs[b].state))
    && (forall id :: id in runs ==> ParseState(runs[id].state).Success?)
  }

  function StateOf(runs: map<Id, RunRow>, id: Id): RunState
    requires id in runs && ParseState(runs[id].state).Success?
  {
    ParseState(runs[id].state).value
  }

  /**
   One step of the Runs in the ledger: each is unchanged, makes a legal transition,
   or takes the state of the copy that was saved over it.
   */
  ghost predicate RunStep(before: map<Id, RunRow>, next: map<Id, RunRow>, copied: Option<FactoryRun>)
    requires RunInvariant(before) && RunInvariant(next)
  {
    forall id :: id in before ==>
      && id in next
      && next[id].draft == before[id].draft
      && (|| NextState(StateOf(before, id), StateOf(next, id)) == Success(StateOf(next, id))
          || (copied.Some? && copied.value.id == id && StateOf(next, id) == copied.value.state))
  }

  /** Any save, whatever copy it writes, keeps at most one live Run per Draft. */
  lemma SaveKeeps(db: Tables, run: FactoryRun)
    requires RunInvariant(db.runs)
    ensures var next := After(db, SaveRun(db, run));
      && RunInvariant(next.runs) && RunStep(db.runs, next.runs, Some(run))
      && next == db.(runs := next.runs, revision := next.revision) && RevisionStep(db, next)
    ensures SaveRun(db, run).Committed? ==>
      var next := SaveRun(db, run).db.runs;
      && StateOf(next, run.id) == run.state
      && next[run.id].report == run.report && next[run.id].environment == run.environment
  {
    StateNames(run.state);
  }

  lemma AdvanceKeeps(db: Tables, id: Id, to: RunState, report: RunReport)
    requires RunInvariant(db.runs)
    ensures var next := After(db, AdvanceRun(db, id, to, report));
      && RunInvariant(next.runs) && RunStep(db.runs, next.runs, None)
      && next == db.(runs := next.runs, revision := next.revision) && RevisionStep(db, next)
  {
    if AdvanceRun(db, id, to, report).Committed? {
      var run := LoadRun(db, id).value;
      SaveKeeps(db, run.(state := NextState(run.state, to).value, report := report));
    }
  }

  lemma CreateKeeps(db: Tables, run: FactoryRun)
    requires RunInvariant(db.runs)
    ensures var next := After(db, CreateRun(db, run));
      && RunInvariant(next.runs) && RunStep(db.runs, next.runs, None)
      && next == db.(runs := next.runs, revision := next.revision) && RevisionStep(db, next)
  {
    if CreateRun(db, run).Committed? {
      SaveKeeps(db, NewRun(run).value);
    }
  }

  /** The states from which a Run may move on to this one. */
  function Predecessors(to: RunState): set<RunState>
  {
    match to
    case Drafted => {}
    case Orchestrating => {Drafted, Coding, Evaluating}
    case Coding => {Drafted, Orchestrating, Evaluating, Escalated}
    case Evaluating => {Orchestrating, Coding, Escalated}
    case Escalated => {Orchestrating, Coding, Evaluating}
    case Passed => {Orchestrating, Evaluating, Escalated}
    case Failed => {Orchestrating, Evaluating, Escalated}
    case NeedsReview => {Orchestrating, Coding, Evaluating, Escalated}
    case Cancelled => {Drafted, Orchestrating, Coding, Evaluating, Escalated}
  }

  /**
   A Run is terminal exactly when no move leads out of its state; every other state
   can be cancelled, nothing leads back to the first one, and the moves into a state
   come from exactly its predecessors.
   */
  lemma TransitionFacts(from: RunState, to: RunState)
    ensures IsTerminal(from) <==> forall other :: NextState(from, other).Success? ==> other == from
    ensures NextState(from, to).Success? && from != to ==> !IsTerminal(from) && to != Drafted
    ensures !IsTerminal(from) ==> NextState(from, Cancelled) == Success(Cancelled)
    ensures from != to && NextState(from, to).Success? <==> from in Predecessors(to)
    ensures NextState(from, to).Success? ==> NextState(from, to).value == to
  {
    assert !IsTerminal(from) ==> NextState(from, Cancelled).Success? && from != Cancelled;
  }

  // ------------------------------------------------------------ saved copies

  /**
   What a save checks before it writes: the binding with its Agent and project, the
   Draft, its Agent, the Environment, and, for a live state, that no other Run of the
   Draft is live. A stored Run counts with the Draft it is stored with.
   */
  predicate SaveGuards(db: Tables, run: FactoryRun)
  {
    && run.binding in db.bindings
    && db.bindings[run.binding].agent == run.agent && db.bindings[run.binding].project == run.project
    && run.draft in db.drafts && db.drafts[run.draft].agent == run.agent
    && run.environment in db.environments
    && (!IsTerminal(run.state) ==>
          NoOtherLive(db.runs, run.id, if run.id in db.runs then db.runs[run.id].draft else run.draft))
  }

  predicate NoOtherLive(runs: map<Id, RunRow>, id: Id, draft: Id)
  {
    forall other | other in runs && other != id && runs[other].draft == draft :: !IndexedAsLive(runs[other].state)
  }

  lemma SaveAccepted(db: Tables, run: FactoryRun)
    ensures SaveRun(db, run).Committed? <==> SaveGuards(db, run)
  {
    StateNames(run.state);
  }

  /** The Run that a copy becomes when it is saved: a stored Run keeps its workspace and its Draft. */
  function AsStored(db: Tables, run: FactoryRun): Option<FactoryRun>
  {
    if run.id !in db.runs then Some(run)
    else if db.runs[run.id].binding !in db.bindings then None
    else
      var row := db.runs[run.id];
      var binding := db.bindings[row.binding];
      Some(run.(binding := row.binding, draft := row.draft, agent := binding.agent, project := binding.project))
  }

  /**
   Whatever copy is saved, loading gives it back: as it is when the Run is new or
   stored with that workspace and Draft, and with the stored ones otherwise. No other
   Run loads differently, and a refused save changes nothing.
   */
  lemma SavedLoads(db: Tables, run: FactoryRun)
    ensures SaveRun(db, run).Committed? <==> SaveGuards(db, run)
    ensures SaveRun(db, run).Committed? ==>
      var next := SaveRun(db, run).db;
      && next.runs.Keys == db.runs.Keys + {run.id} && next.revision == db.revision + 1
      && LoadRun(next, run.id) == AsStored(db, run)
      && (run.id !in db.runs || (db.runs[run.id].binding == run.binding && db.runs[run.id].draft == run.draft) ==>
            LoadRun(next, run.id) == Some(run))
      && forall other :: other != run.id ==> LoadRun(next, other) == LoadRun(db, other)
  {
    SaveAccepted(db, run);
    StateNames(run.state);
    hide StateName, ParseState, LiveConflict, SaveGuards;
  }

  /**
   Why a save is refused: for the live slot only when everything else fits, so that the
   same copy as a cancelled one would be accepted; for rows that are missing, or else for
   rows that do not belong together.
   */
  lemma SaveErrors(db: Tables, run: FactoryRun)
    ensures SaveRun(db, run) == Aborted(Constraint) <==>
      SaveGuards(db, run.(state := Cancelled)) && !SaveGuards(db, run)
    ensures SaveRun(db, run) == Aborted(NotFound) <==>
      || run.binding !in db.bindings
      || (&& db.bindings[run.binding].agent == run.agent && db.bindings[run.binding].project == run.project
          && (run.draft !in db.drafts || run.environment !in db.environments))
    ensures SaveRun(db, run).Aborted? ==> SaveRun(db, run).error in {Constraint, NotFound, InvalidInput}
  {
    StateNames(run.state);
    StateNames(Cancelled);
  }

  /** An accepted advance leaves the Run as it was loaded, but for the new state and report. */
  lemma AdvancedLoads(db: Tables, id: Id, to: RunState, report: RunReport)
    ensures AdvanceRun(db, id, to, report).Committed? <==>
      && LoadRun(db, id).Some? && NextState(LoadRun(db, id).value.state, to).Success?
      && SaveGuards(db, LoadRun(db, id).value.(state := to))
    ensures AdvanceRun(db, id, to, report).Committed? ==>
      LoadRun(AdvanceRun(db, id, to, report).db, id) == Some(LoadRun(db, id).value.(state := to, report := report))
    ensures LoadRun(db, id).None? ==> AdvanceRun(db, id, to, report) == Aborted(NotFound)
  {
    if LoadRun(db, id).Some? && NextState(LoadRun(db, id).value.state, to).Success? {
      SavedLoads(db, LoadRun(db, id).value.(state := to, report := report));
    }
    hide SaveRun, ParseState, IsMove;
  }

  /**
   A Run is created exactly under an unused id, with an objective, at least one
   criterion and texts of the right size, where a save is accepted; it starts as a draft
   that has reported nothing.
   */
  lemma CreatedLoads(db: Tables, run: FactoryRun)
    ensures CreateRun(db, run).Committed? <==>
      && run.id !in db.runs && IsRunText(run.report.objective) && run.report.criteria != []
      && (forall i :: 0 <= i < |run.report.criteria| ==> IsRunText(run.report.criteria[i]))
      && SaveGuards(db, run.(state := Drafted))
    ensures CreateRun(db, run).Committed? ==>
      LoadRun(CreateRun(db, run).db, run.id) ==
        Some(run.(state := Drafted, report := RunReport(run.report.objective, run.report.criteria, [])))
  {
    SavedLoads(db, run.(state := Drafted, report := run.report.(details := [])));
    hide SaveRun, IsRunText, LoadRun;
  }

  /**
   Saving a copy turns a stored terminal Run live again exactly when the Run is
   stored terminal, the copy is live and the save passes its guards. All three can
   be read before the call.
   */
  lemma SaveRevives(db: Tables, run: FactoryRun)
    requires RunInvariant(db.runs) && run.id in db.runs
    ensures var next := After(db, SaveRun(db, run));
      && RunInvariant(next.runs) && run.id in next.runs
      && (IsTerminal(StateOf(db.runs, run.id)) && !IsTerminal(StateOf(next.runs, run.id)) <==>
            IsTerminal(StateOf(db.runs, run.id)) && !IsTerminal(run.state) && SaveGuards(db, run))
      && (forall other :: other in db.runs && other != run.id ==>
          other in next.runs && next.runs[other] == db.runs[other])
  {
    SaveKeeps(db, run);
    SaveAccepted(db, run);
    hide SaveGuards, LiveConflict, StateName, ParseState;
  }

  /** Two callers load the same Run; one cancels and saves, the other saves its stale copy: the Run lives again. */
  lemma StaleCopyRevives(db: Tables, id: Id)
    requires RunInvariant(db.runs) && LoadRun(db, id).Some? && LoadRun(db, id).value.state == Coding
    requires SaveRun(db, LoadRun(db, id).value).Committed?
    ensures var stale := LoadRun(db, id).value;
      var cancelled := SaveRun(db, stale.(state := Cancelled));
      && cancelled.Committed? && id in cancelled.db.runs && cancelled.db.runs[id].state == "cancelled"
      && var revived := SaveRun(cancelled.db, stale);
      && revived.Committed? && id in revived.db.runs && revived.db.runs[id].state == "coding"
  {
    StateNames(Cancelled);
    StateNames(Coding);
  }
}
