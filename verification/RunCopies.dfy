/**
 Copies of Runs in the hands of several callers. A caller loads a Run, moves it
 in memory, and saves it, as three separate acts; between them anything else may
 happen to the store, the saves of other callers included.
 */
module RunCopies {
  import opened Wrappers
  import opened PaneLayout
  import opened StoreTables
  import opened DraftLedger
  import opened FactoryRuns
  import opened WorkspaceLedger
  import opened StoreRuns

  type Holder = nat

  /** A copy and the states it went through since it was loaded or last saved. */
  datatype Held = Held(run: FactoryRun, path: seq<RunState>)

  datatype System = System(db: Tables, held: map<Holder, Held>)

  datatype Act =
    | Take(holder: Holder, run: Id)
    | Step(holder: Holder, to: RunState, report: RunReport)
    | Put(holder: Holder)
    | Other(call: Call)

  /** Each state follows from the one before it by a legal transition. */
  predicate IsPath(path: seq<RunState>)
  {
    path != [] && forall i :: 0 < i < |path| ==> NextState(path[i - 1], path[i]) == Success(path[i])
  }

  ghost predicate SystemInvariant(system: System)
  {
    && StoreInvariant(system.db)
    && forall h :: h in system.held ==>
        IsPath(system.held[h].path) && system.held[h].path[|system.held[h].path| - 1] == system.held[h].run.state
  }

  /** Whole saves of a copy are acts of a holder; every other call of the store is one act. */
  ghost predicate MayAct(system: System, act: Act)
  {
    match act
    case Other(call) => Allowed(system.db, call) && Copied(call).None?
    case _ => true
  }

  function Taken(system: System, holder: Holder, id: Id): System
  {
    match LoadRun(system.db, id)
    case None => system
    case Some(run) => system.(held := system.held[holder := Held(run, [run.state])])
  }

  /** A refused transition leaves the copy as it was; the report may change with an accepted one. */
  function Stepped(system: System, holder: Holder, to: RunState, report: RunReport): System
  {
    if holder !in system.held then system
    else
      var held := system.held[holder];
      match NextState(held.run.state, to)
      case Failure(_) => system
      case Success(state) =>
        system.(held := system.held[holder := Held(held.run.(state := state, report := report), held.path + [state])])
  }

  /** After an accepted save the holder works on from the state it saved. */
  function Saved(system: System, holder: Holder): System
  {
    if holder !in system.held then system
    else
      var run := system.held[holder].run;
      match SaveRun(system.db, run)
      case Aborted(_) => system
      case Committed(next, _) => System(next, system.held[holder := Held(run, [run.state])])
  }

  ghost function Acted(system: System, act: Act): System
    requires WorkspaceInvariant(system.db)
  {
    match act
    case Take(holder, id) => Taken(system, holder, id)
    case Step(holder, to, report) => Stepped(system, holder, to, report)
    case Put(holder) => Saved(system, holder)
    case Other(call) => system.(db := After(system.db, Perform(system.db, call)))
  }

  ghost predicate IsSystemRun(systems: seq<System>, acts: seq<Act>)
  {
    && |systems| == |acts| + 1
    && SystemInvariant(systems[0])
    && forall i :: 0 <= i < |acts| ==>
        WorkspaceInvariant(systems[i].db) && MayAct(systems[i], acts[i]) && systems[i + 1] == Acted(systems[i], acts[i])
  }

  // ---------------------------------------------------------------- one act

  /** The call of the store that an act makes, if it makes one. */
  function CallOf(system: System, act: Act): Option<Call>
  {
    match act
    case Put(holder) => if holder in system.held then Some(OnRuns(SaveCopy(system.held[holder].run))) else None
    case Other(call) => Some(call)
    case _ => None
  }

  /** Seen from the store an act is one of its calls or nothing. */
  lemma ActCalls(system: System, act: Act)
    requires SystemInvariant(system) && MayAct(system, act)
    ensures match CallOf(system, act)
      case None => Acted(system, act).db == system.db
      case Some(call) =>
        Allowed(system.db, call) && Acted(system, act).db == After(system.db, Perform(system.db, call))
  {
    hide WorkspaceInvariant, DraftInvariant, RunInvariant, SaveRun, LoadRun, IsPath;
    hide OnWorkspaceOutcome, OnDraftsOutcome, OnCatalogOutcome;
  }

  lemma ActKeeps(system: System, act: Act)
    requires SystemInvariant(system) && MayAct(system, act)
    ensures SystemInvariant(Acted(system, act))
  {
    ActKeepsPaths(system, act);
    hide IsPath, Acted, Perform, Allowed, StoreInvariant, MayAct;
    ActCalls(system, act);
    match CallOf(system, act)
    case None =>
    case Some(call) => CallKeeps(system.db, call);
  }

  lemma ActKeepsPaths(system: System, act: Act)
    requires SystemInvariant(system)
    ensures var next := Acted(system, act);
      forall h :: h in next.held ==>
        IsPath(next.held[h].path) && next.held[h].path[|next.held[h].path| - 1] == next.held[h].run.state
  {
    hide Perform, StoreInvariant, LoadRun, SaveRun;
  }

  /** Safety over whole runs of the system, however the holders' acts interleave. */
  lemma {:induction false} SystemRunKeeps(systems: seq<System>, acts: seq<Act>, i: nat)
    requires IsSystemRun(systems, acts) && i < |systems|
    ensures SystemInvariant(systems[i])
  {
    hide Acted, MayAct, SystemInvariant, WorkspaceInvariant, Perform, StoreInvariant;
    if i > 0 {
      SystemRunKeeps(systems, acts, i - 1);
      ActKeeps(systems[i - 1], acts[i - 1]);
    }
  }

  // ------------------------------------------------------------ reachability

  /** What a path can lead to: any state but the first one, from any state that is not terminal. */
  predicate Leads(from: RunState, to: RunState)
  {
    from == to || (!IsTerminal(from) && to != Drafted)
  }

  predicate Connects(path: seq<RunState>, from: RunState, to: RunState)
  {
    IsPath(path) && path[0] == from && path[|path| - 1] == to
  }

  lemma {:induction false} PathLeads(path: seq<RunState>)
    requires IsPath(path)
    ensures Leads(path[0], path[|path| - 1])
  {
    if |path| > 1 {
      PathLeads(path[..|path| - 1]);
      TransitionFacts(path[|path| - 2], path[|path| - 1]);
    }
  }

  lemma LeadsExactly(from: RunState, to: RunState)
    ensures Leads(from, to) <==> exists path :: Connects(path, from, to)
  {
    forall path | Connects(path, from, to) ensures Leads(from, to) {
      PathLeads(path);
    }
    if from == to {
      assert Connects([from], from, to);
    } else if Leads(from, to) {
      assert Connects([from, Coding, Evaluating, to], from, to);
    }
  }

  /** A path to Passed takes its last step from one of three states. */
  lemma {:induction false} PathToPassed(path: seq<RunState>) returns (k: nat)
    requires IsPath(path) && path[0] != Passed && path[|path| - 1] == Passed
    ensures k + 1 < |path| && path[k] in {Orchestrating, Evaluating, Escalated} && path[k + 1] == Passed
  {
    k := |path| - 2;
    if path[k] == Passed {
      k := PathToPassed(path[..k + 1]);
    } else {
      TransitionFacts(path[k], Passed);
    }
  }

  // ------------------------------------------------------------ fresh copies

  /** The Run is still stored in the state the copy started from. */
  predicate Fresh(system: System, holder: Holder)
  {
    && holder in system.held && system.held[holder].path != []
    && InState(system.db.runs, system.held[holder].run.id, system.held[holder].path[0])
  }

  /** A save of a live copy that passes its guards. */
  predicate PutsLive(system: System, act: Act, run: Id)
  {
    && act.Put? && act.holder in system.held
    && var copy := system.held[act.holder].run;
       copy.id == run && !IsTerminal(copy.state) && SaveGuards(system.db, copy)
  }

  lemma FreshTerminal(system: System, holder: Holder)
    requires SystemInvariant(system) && Fresh(system, holder)
    requires StoredTerminal(system.db.runs, system.held[holder].run.id)
    ensures IsTerminal(system.held[holder].run.state)
  {
    hide StoreInvariant, IsPath, ParseState;
    PathLeads(system.held[holder].path);
  }

  /** A terminal Run lives again exactly when a holder saves a live copy within the guards; that copy is stale. */
  lemma RevivedByStaleCopy(system: System, act: Act, run: Id)
    requires SystemInvariant(system) && MayAct(system, act) && StoredTerminal(system.db.runs, run)
    ensures var next := Acted(system, act);
      && run in next.db.runs
      && (!StoredTerminal(next.db.runs, run) <==> PutsLive(system, act, run))
      && (!StoredTerminal(next.db.runs, run) ==> !Fresh(system, act.holder))
  {
    hide Acted, Perform, Allowed, StoreInvariant, SaveGuards, IsPath, Fresh, WorkspaceInvariant, ParseState;
    if PutsLive(system, act, run) && Fresh(system, act.holder) {
      FreshTerminal(system, act.holder);
    }
    ActCalls(system, act);
    match CallOf(system, act)
    case None =>
    case Some(call) =>
      RevivedBy(system.db, call, run);
      RevivesMeans(system, act, call, run);
  }

  lemma RevivesMeans(system: System, act: Act, call: Call, run: Id)
    requires SystemInvariant(system) && MayAct(system, act) && CallOf(system, act) == Some(call)
    requires StoredTerminal(system.db.runs, run)
    ensures Revives(system.db, call, run) <==> PutsLive(system, act, run)
  {
    hide Allowed, StoreInvariant, SaveGuards, IsPath, StoredTerminal;
  }

  predicate Harmless(system: System, act: Act)
  {
    act.Put? ==> Fresh(system, act.holder)
  }

  predicate LeadsTo(runs: map<Id, RunRow>, run: Id, state: RunState)
  {
    run in runs && ParseState(runs[run].state).Success? && Leads(state, ParseState(runs[run].state).value)
  }

  lemma CallLeads(db: Tables, call: Call, run: Id, state: RunState)
    requires StoreInvariant(db) && Allowed(db, call) && InState(db.runs, run, state)
    requires SavesOver(call, run) ==> Leads(state, Copied(call).value.state)
    ensures LeadsTo(After(db, Perform(db, call)).runs, run, state)
  {
    CallKeeps(db, call);
    hide Perform, Allowed, WorkspaceInvariant, DraftInvariant, ParseState, DraftStep, RevisionStep, After;
    var next := After(db, Perform(db, call));
    TransitionFacts(state, StateOf(next.runs, run));
  }

  lemma FreshLeads(system: System, holder: Holder, run: Id, state: RunState)
    requires SystemInvariant(system) && Fresh(system, holder) && InState(system.db.runs, run, state)
    requires system.held[holder].run.id == run
    ensures Leads(state, system.held[holder].run.state)
  {
    hide StoreInvariant, IsPath, ParseState;
    PathLeads(system.held[holder].path);
  }

  /** A harmless act takes no Run anywhere but along a path. */
  lemma HarmlessLeads(system: System, act: Act, run: Id, state: RunState)
    requires SystemInvariant(system) && MayAct(system, act) && Harmless(system, act)
    requires InState(system.db.runs, run, state)
    ensures LeadsTo(Acted(system, act).db.runs, run, state)
  {
    hide Perform, Allowed, Acted, StoreInvariant, ParseState, IsPath;
    ActCalls(system, act);
    match CallOf(system, act)
    case None =>
    case Some(call) =>
      if SavesOver(call, run) {
        FreshLeads(system, act.holder, run, state);
      }
      CallLeads(system.db, call, run, state);
  }

  ghost predicate AllHarmless(systems: seq<System>, acts: seq<Act>, i: nat, j: nat)
    requires i <= j <= |acts| <= |systems|
  {
    forall k :: i <= k < j ==> Harmless(systems[k], acts[k])
  }

  /**
   While only fresh copies are saved, every Run moves along paths of the workflow,
   whoever moves it: a terminal Run keeps its state and no Run is drafted again.
   */
  lemma {:induction false} FreshCopiesLead(systems: seq<System>, acts: seq<Act>, i: nat, j: nat, run: Id,
                                           state: RunState)
    requires IsSystemRun(systems, acts) && i <= j < |systems| && AllHarmless(systems, acts, i, j)
    requires InState(systems[i].db.runs, run, state)
    ensures LeadsTo(systems[j].db.runs, run, state)
    ensures var end := ParseState(systems[j].db.runs[run].state).value;
      Leads(state, end) && (IsTerminal(state) ==> end == state) && (end == Drafted ==> state == Drafted)
    decreases j - i
  {
    hide Acted, MayAct, SystemInvariant, Harmless, ParseState;
    if i < j {
      FreshCopiesLead(systems, acts, i, j - 1, run, state);
      SystemRunKeeps(systems, acts, j - 1);
      HarmlessLeads(systems[j - 1], acts[j - 1], run, ParseState(systems[j - 1].db.runs[run].state).value);
    }
  }

  // --------------------------------------------------------- staying fresh

  /** The calls that can write a Run that is already stored. */
  predicate Writes(call: Call, run: Id)
  {
    SavesOver(call, run) || (call.OnRuns? && call.runs.Advance? && call.runs.id == run)
  }

  lemma OtherRunsKeepRun(db: Tables, call: RunCall, run: Id)
    requires run in db.runs && !Writes(OnRuns(call), run)
    ensures var next := After(db, OnRunsOutcome(db, call)); run in next.runs && next.runs[run] == db.runs[run]
  {
    hide SaveGuards, ParseState, StateName, LiveConflict, IsRunText;
  }

  lemma OthersKeepRun(db: Tables, call: Call, run: Id)
    requires StoreInvariant(db) && Allowed(db, call) && run in db.runs && !Writes(call, run)
    ensures var next := After(db, Perform(db, call)); run in next.runs && next.runs[run] == db.runs[run]
  {
    hide Allowed, WorkspaceInvariant, DraftInvariant, RunInvariant, RevisionStep, Writes, DraftStep, NamesKept;
    hide OnWorkspaceOutcome, OnDraftsOutcome, OnCatalogOutcome, OnRunsOutcome, After;
    match call
    case OnWorkspace(call) => WorkspaceCallKeeps(db, call);
    case OnDrafts(call) => DraftCallKeeps(db, call);
    case OnCatalog(call) => CatalogCallKeeps(db, call);
    case OnRuns(call) => OtherRunsKeepRun(db, call, run);
  }

  /** Nobody but the holder itself writes the Run of its copy. */
  predicate LeavesAlone(system: System, act: Act, holder: Holder)
  {
    act == Put(holder) || holder !in system.held || CallOf(system, act).None?
    || !Writes(CallOf(system, act).value, system.held[holder].run.id)
  }

  /** A loaded copy is fresh, and so is a saved one. */
  lemma TakenFresh(system: System, holder: Holder, run: Id)
    ensures LoadRun(system.db, run).Some? || Fresh(system, holder) ==> Fresh(Taken(system, holder, run), holder)
  {}

  lemma SavedFresh(system: System, holder: Holder)
    requires RunInvariant(system.db.runs) && Fresh(system, holder)
    ensures Fresh(Saved(system, holder), holder)
  {
    SaveKeeps(system.db, system.held[holder].run);
    hide ParseState, StateName, LiveConflict;
  }

  lemma HeldKept(system: System, act: Act, holder: Holder)
    requires WorkspaceInvariant(system.db) && holder in system.held && system.held[holder].path != []
    requires (act.Take? || act.Put?) ==> act.holder != holder
    ensures var next := Acted(system, act);
      && holder in next.held && next.held[holder].path != []
      && next.held[holder].run.id == system.held[holder].run.id
      && next.held[holder].path[0] == system.held[holder].path[0]
  {
    hide WorkspaceInvariant, SaveRun, LoadRun, Perform;
  }

  lemma SystemRuns(system: System)
    requires SystemInvariant(system)
    ensures WorkspaceInvariant(system.db) && RunInvariant(system.db.runs)
  {}

  lemma StaysFresh(system: System, act: Act, holder: Holder)
    requires SystemInvariant(system) && MayAct(system, act) && Fresh(system, holder) && LeavesAlone(system, act, holder)
    ensures Fresh(Acted(system, act), holder)
  {
    SystemRuns(system);
    hide Perform, Allowed, StoreInvariant, WorkspaceInvariant, Taken, Saved, Stepped, IsPath, Writes, ParseState;
    if act.Take? && act.holder == holder {
      TakenFresh(system, holder, act.run);
    } else if act == Put(holder) {
      SavedFresh(system, holder);
    } else {
      ActCalls(system, act);
      HeldKept(system, act, holder);
      hide Acted;
      match CallOf(system, act)
      case None =>
      case Some(call) => OthersKeepRun(system.db, call, system.held[holder].run.id);
    }
  }

  ghost predicate LeftAlone(systems: seq<System>, acts: seq<Act>, i: nat, j: nat, holder: Holder)
    requires i <= j <= |acts| <= |systems|
  {
    forall k :: i <= k < j ==> LeavesAlone(systems[k], acts[k], holder)
  }

  /** A fresh copy stays fresh, through its own moves and saves, until somebody else writes the Run. */
  lemma {:induction false} FreshUntilWritten(systems: seq<System>, acts: seq<Act>, i: nat, j: nat, holder: Holder)
    requires IsSystemRun(systems, acts) && i <= j < |systems| && LeftAlone(systems, acts, i, j, holder)
    requires Fresh(systems[i], holder)
    ensures Fresh(systems[j], holder)
    decreases j - i
  {
    hide Acted, MayAct, SystemInvariant, WorkspaceInvariant, Perform, StoreInvariant, Fresh, LeavesAlone;
    if i < j {
      FreshUntilWritten(systems, acts, i, j - 1, holder);
      SystemRunKeeps(systems, acts, j - 1);
      StaysFresh(systems[j - 1], acts[j - 1], holder);
    }
  }

  // ------------------------------------------------------ the way to Passed

  /** Somewhere the path steps from one of the three states to Passed. */
  predicate ThroughThree(path: seq<RunState>)
  {
    exists m :: 0 < m < |path| && path[m] == Passed && path[m - 1] in {Orchestrating, Evaluating, Escalated}
  }

  /**
   A save of a copy that went to Passed through the three states, or a whole
   transition of the Run from one of them.
   */
  predicate MakesPassed(system: System, act: Act, next: System, run: Id)
  {
    match act
    case Put(h) => h in system.held && system.held[h].run.id == run && ThroughThree(system.held[h].path)
    case Other(_) =>
      && InState(next.db.runs, run, Passed)
      && exists state | state in {Orchestrating, Evaluating, Escalated} :: InState(system.db.runs, run, state)
    case _ => false
  }

  ghost predicate MadePassed(systems: seq<System>, acts: seq<Act>, i: nat, run: Id)
    requires i <= |acts| < |systems|
  {
    exists k :: 0 <= k < i && MakesPassed(systems[k], acts[k], systems[k + 1], run)
  }

  /** The Runs that are Passed, and those of which a copy started from Passed. */
  predicate PassedOrCopied(system: System, run: Id)
  {
    InState(system.db.runs, run, Passed)
    || exists h | h in system.held ::
        system.held[h].run.id == run && system.held[h].path != [] && system.held[h].path[0] == Passed
  }

  lemma CallPasses(db: Tables, call: Call, run: Id)
    requires StoreInvariant(db) && Allowed(db, call) && Copied(call).None?
    ensures InState(After(db, Perform(db, call)).runs, run, Passed) && !InState(db.runs, run, Passed) ==>
      exists state | state in {Orchestrating, Evaluating, Escalated} :: InState(db.runs, run, state)
  {
    hide Perform, Allowed, WorkspaceInvariant, DraftInvariant, RunInvariant, DraftStep, RevisionStep, RunStep, After,
      InState;
    CallKeeps(db, call);
    var next := After(db, Perform(db, call));
    if run !in db.runs {
      NewRunDrafted(db, call, run);
    } else if InState(next.runs, run, Passed) && !InState(db.runs, run, Passed) {
      StepPassed(db.runs, next.runs, run);
    }
  }

  lemma StepPassed(before: map<Id, RunRow>, next: map<Id, RunRow>, run: Id)
    requires RunInvariant(before) && RunInvariant(next) && RunStep(before, next, None)
    requires run in before && InState(next, run, Passed) && !InState(before, run, Passed)
    ensures exists state | state in {Orchestrating, Evaluating, Escalated} :: InState(before, run, state)
  {
    hide ParseState;
    var state := StateOf(before, run);
    TransitionFacts(state, Passed);
    assert InState(before, run, state);
  }

  /** Only a save of a copy can store a new Run that is Passed. */
  lemma NewRunDrafted(db: Tables, call: Call, run: Id)
    requires StoreInvariant(db) && Allowed(db, call) && Copied(call).None? && run !in db.runs
    ensures !InState(After(db, Perform(db, call)).runs, run, Passed)
  {
    hide Allowed, WorkspaceInvariant, DraftInvariant, RunInvariant, RevisionStep, DraftStep, NamesKept;
    hide OnWorkspaceOutcome, OnDraftsOutcome, OnCatalogOutcome, OnRunsOutcome, After, ParseState;
    match call
    case OnWorkspace(call) => WorkspaceCallKeeps(db, call);
    case OnDrafts(call) => DraftCallKeeps(db, call);
    case OnCatalog(call) => CatalogCallKeeps(db, call);
    case OnRuns(call) => StartedDrafted(db, call, run);
  }

  lemma StartedDrafted(db: Tables, call: RunCall, run: Id)
    requires !call.SaveCopy? && run !in db.runs
    ensures !InState(After(db, OnRunsOutcome(db, call)).runs, run, Passed)
  {
    StateNames(Drafted);
    hide IsRunText, LiveConflict, ParseState, StateName;
  }

  /** What is Passed after an act was so before, or the act made it so. */
  lemma ActPasses(system: System, act: Act, run: Id)
    requires SystemInvariant(system) && MayAct(system, act)
    ensures PassedOrCopied(Acted(system, act), run) ==>
      PassedOrCopied(system, run) || MakesPassed(system, act, Acted(system, act), run)
  {
    if PassedOrCopied(Acted(system, act), run) {
      match act
      case Take(holder, id) => TakePasses(system, holder, id, run);
      case Step(holder, to, report) => StepPasses(system, holder, to, report, run);
      case Put(holder) => PutPasses(system, holder, run);
      case Other(call) =>
        hide Perform, Allowed, StoreInvariant, WorkspaceInvariant, IsPath, InState;
        if !PassedOrCopied(system, run) {
          assert InState(Acted(system, act).db.runs, run, Passed);
          CallPasses(system.db, call, run);
        }
    }
  }

  lemma TakePasses(system: System, holder: Holder, id: Id, run: Id)
    requires PassedOrCopied(Taken(system, holder, id), run)
    ensures PassedOrCopied(system, run)
  {
    hide ParseState;
  }

  lemma StepPasses(system: System, holder: Holder, to: RunState, report: RunReport, run: Id)
    requires SystemInvariant(system) && PassedOrCopied(Stepped(system, holder, to, report), run)
    ensures PassedOrCopied(system, run)
  {
    hide StoreInvariant, NextState, InState;
  }

  lemma PutPasses(system: System, holder: Holder, run: Id)
    requires SystemInvariant(system) && PassedOrCopied(Saved(system, holder), run)
    ensures PassedOrCopied(system, run) || MakesPassed(system, Put(holder), Saved(system, holder), run)
  {
    if holder in system.held && SaveRun(system.db, system.held[holder].run).Committed? {
      var copy := system.held[holder];
      SystemRuns(system);
      SaveKeeps(system.db, copy.run);
      if copy.run.id == run && copy.run.state == Passed && copy.path[0] != Passed {
        var k := PathToPassed(copy.path);
        assert copy.path[k + 1 - 1] == copy.path[k];
      }
      hide StoreInvariant, IsPath, ParseState, StateName, SaveGuards, LiveConflict;
    }
  }

  /**
   From a store without Passed Runs and without copies: every Run that is Passed got
   there from one of three states, on the way of a saved copy, stale or not, or by a
   whole transition.
   */
  lemma {:induction false} PassedThroughThree(systems: seq<System>, acts: seq<Act>, i: nat, run: Id)
    requires IsSystemRun(systems, acts) && i < |systems|
    requires forall id :: !PassedOrCopied(systems[0], id)
    requires PassedOrCopied(systems[i], run)
    ensures MadePassed(systems, acts, i, run)
  {
    hide Acted, MayAct, SystemInvariant, WorkspaceInvariant, PassedOrCopied, MakesPassed;
    if i > 0 {
      SystemRunKeeps(systems, acts, i - 1);
      ActPasses(systems[i - 1], acts[i - 1], run);
      if PassedOrCopied(systems[i - 1], run) {
        PassedThroughThree(systems, acts, i - 1, run);
      } else {
        assert MakesPassed(systems[i - 1], acts[i - 1], systems[i - 1 + 1], run);
      }
    }
  }
}
