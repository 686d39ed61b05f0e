/**
 Drafts and the Versions published from them.

 Each function is one transaction of the store. The lemmas follow a Draft over
 any number of them.
 */
module DraftLedger {
  import opened Wrappers
  import opened StoreErrors
  import opened Sequences
  import opened Text
  import opened PaneLayout
  import opened StoreTables
  import opened AgentVersions

  const NAME_BYTES: nat := 200

  predicate IsDefinition(definition: Definition)
  {
    && IsCleanText(Trim(definition.name), NAME_BYTES)
    && IsCleanText(Trim(definition.objective), TEXT_BYTES)
    && definition.criteria != []
    && forall i :: 0 <= i < |definition.criteria| ==> IsCleanText(Trim(definition.criteria[i]), TEXT_BYTES)
  }

  function Trimmed(definition: Definition): Definition
  {
    Definition(Trim(definition.name), Trim(definition.objective),
               seq(|definition.criteria|, i requires 0 <= i < |definition.criteria| => Trim(definition.criteria[i])))
  }

  // ------------------------------------------------------------- transactions

  function CreateAgent(db: Tables, id: Id, name: string): Outcome
  {
    if !IsCleanText(Trim(name), NAME_BYTES) then Aborted(InvalidInput)
    else if id in db.agents then Aborted(Constraint)
    else Committed(Bump(db.(agents := db.agents[id := AgentRow(Trim(name), false)])), id)
  }

  predicate LiveAgent(db: Tables, id: Id)
  {
    id in db.agents && !db.agents[id].archived
  }

  predicate LiveBinding(db: Tables, id: Id)
  {
    id in db.bindings && !db.bindings[id].archived
  }

  /** UNIQUE(target_agent_id, project_id, primary_root). */
  predicate SameRoot(a: BindingRow, b: BindingRow)
  {
    a.agent == b.agent && a.project == b.project && a.root == b.root
  }

  function CreateBinding(db: Tables, id: Id, agent: Id, project: Id, root: string): Outcome
  {
    if !LiveAgent(db, agent) then Aborted(NotFound)
    else
      var row := BindingRow(agent, project, root, false);
      if id in db.bindings || exists b | b in db.bindings :: SameRoot(db.bindings[b], row) then Aborted(Constraint)
      else Committed(Bump(db.(bindings := db.bindings[id := row])), id)
  }

  /**
   A binding moves to another root, which no other binding of its Agent and project may
   have. The row of the project, which moves with it, is not part of the model.
   */
  function UpdateBindingRoot(db: Tables, id: Id, root: string): Outcome
  {
    if id !in db.bindings then Aborted(NotFound)
    else
      var row := db.bindings[id].(root := root);
      if exists b | b in db.bindings :: b != id && SameRoot(db.bindings[b], row) then Aborted(Constraint)
      else Committed(Bump(db.(bindings := db.bindings[id := row])), 0)
  }

  /** The definition is checked after trimming and stored as given; the lifecycle is the caller's. */
  function CreateDraft(db: Tables, id: Id, draft: DraftRow): Outcome
  {
    if !IsDefinition(draft.definition) || !("/" <= draft.worktree) then Aborted(InvalidInput)
    else if !LiveAgent(db, draft.agent) || !LiveBinding(db, draft.binding) then Aborted(NotFound)
    else if id in db.drafts || exists d | d in db.drafts ::
        || db.drafts[d].binding == draft.binding
        || db.drafts[d].branch == draft.branch
        || db.drafts[d].worktree == draft.worktree
      then Aborted(Constraint)
    else Committed(Bump(db.(drafts := db.drafts[id := draft.(reserved := None)])), id)
  }

  predicate InLifecycle(db: Tables, id: Id, lifecycle: Lifecycle)
  {
    id in db.drafts && db.drafts[id].lifecycle == lifecycle
  }

  function SetDraftEnvironment(db: Tables, id: Id, environment: Option<string>): Outcome
  {
    if !InLifecycle(db, id, Active) then Aborted(InvalidInput)
    else Committed(Bump(db.(drafts := db.drafts[id := db.drafts[id].(environment := environment)])), id)
  }

  predicate HasVersion(db: Tables, agent: Id)
  {
    exists v | v in db.versions :: db.versions[v].agent == agent
  }

  /** An Agent without a Version bears its first Draft's name. */
  function RenamedFirst(db: Tables, draft: DraftRow): map<Id, AgentRow>
  {
    if draft.agent in db.agents && !HasVersion(db, draft.agent) && draft.baseVersion.None? then
      db.agents[draft.agent := db.agents[draft.agent].(name := draft.definition.name)]
    else db.agents
  }

  /** Whether the Draft is its Agent's first: it has no base, and the Agent no Version. */
  predicate RenamesAgent(db: Tables, id: Id)
    requires id in db.drafts
  {
    db.drafts[id].baseVersion.None? && !HasVersion(db, db.drafts[id].agent)
  }

  /** Editing an active Draft also renames an Agent that has no Version yet. */
  function UpdateDraft(db: Tables, id: Id, definition: Definition, head: string): Outcome
  {
    if !IsDefinition(definition) then Aborted(InvalidInput)
    else if !InLifecycle(db, id, Active) then Aborted(InvalidInput)
    else
      var draft := db.drafts[id].(definition := Trimmed(definition), head := head);
      Committed(Bump(db.(drafts := db.drafts[id := draft], agents := RenamedFirst(db, draft))), id)
  }

  function ReserveVersion(db: Tables, id: Id, version: string): Outcome
  {
    if !IsAgentVersion(version) || !InLifecycle(db, id, Active) then Aborted(InvalidInput)
    else
      var draft := db.drafts[id].(lifecycle := Publishing, reserved := Some(version));
      Committed(Bump(db.(drafts := db.drafts[id := draft])), 0)
  }

  /** Restoring touches only a publishing Draft, but counts as a change either way. */
  function RestoreDraft(db: Tables, id: Id): Outcome
  {
    var drafts :=
      if InLifecycle(db, id, Publishing) then db.drafts[id := db.drafts[id].(lifecycle := Active, reserved := None)]
      else db.drafts;
    Committed(Bump(db.(drafts := drafts)), 0)
  }

  function VersionConflict(db: Tables, id: Id, row: VersionRow): bool
  {
    id in db.versions || exists v | v in db.versions ::
      db.versions[v].tag == row.tag || (db.versions[v].agent == row.agent && db.versions[v].version == row.version)
  }

  function NamedAfter(agents: map<Id, AgentRow>, agent: Id, winner: VersionRow): (named: map<Id, AgentRow>)
    ensures named.Keys == agents.Keys
  {
    if agent in agents then agents[agent := agents[agent].(name := winner.definition.name)] else agents
  }

  /** Publish a reserved Draft. The version text is the caller's, not the reserved one. */
  ghost function FinishPublication(db: Tables, id: Id, version: string, commit: string, tag: string,
                                   versionId: Id, now: nat): Outcome
  {
    if !IsAgentVersion(version) then Aborted(InvalidInput)
    else if id !in db.drafts then Aborted(NotFound)
    else if db.drafts[id].lifecycle != Publishing then Aborted(InvalidInput)
    else
      var draft := db.drafts[id];
      var row := VersionRow(draft.agent, version, draft.definition, id, commit, tag, now);
      if VersionConflict(db, versionId, row) then Aborted(Constraint)
      else
        var versions := db.versions[versionId := row];
        assert versions[versionId].agent == draft.agent;
        WinnerExists(versions, draft.agent, versionId);
        var winner :| Wins(versions, draft.agent, winner);
        Committed(Bump(db.(
          versions := versions, agents := NamedAfter(db.agents, draft.agent, versions[winner]),
          drafts := db.drafts[id := draft.(lifecycle := Archived, reserved := None)])), versionId)
  }

  function ArchiveBindingOf(db: Tables, id: Id): map<Id, BindingRow>
  {
    if id in db.drafts && db.drafts[id].binding in db.bindings then
      db.bindings[db.drafts[id].binding := db.bindings[db.drafts[id].binding].(archived := true)]
    else db.bindings
  }

  /** Sets the lifecycle whatever it was; an unknown Draft changes nothing but the revision. */
  function SetDraftCleanup(db: Tables, id: Id, required: bool, guidance: Option<string>): Outcome
  {
    var drafts :=
      if id in db.drafts then
        db.drafts[id :=
            db.drafts[id].(lifecycle := if required then CleanupRequired else Archived, guidance := guidance)]
      else db.drafts;
    Committed(Bump(db.(drafts := drafts, bindings := if required then db.bindings else ArchiveBindingOf(db, id))), 0)
  }

  function ArchiveDraft(db: Tables, id: Id): Outcome
  {
    if !InLifecycle(db, id, Active) && !InLifecycle(db, id, CleanupRequired) then Aborted(InvalidInput)
    else
      Committed(Bump(db.(
        drafts := db.drafts[id := db.drafts[id].(lifecycle := Archived)],
        bindings := ArchiveBindingOf(db, id))), 0)
  }

  // ------------------------------------------------------------ stored texts

  /** What a text must be for its trimmed form to be stored. */
  predicate IsStorable(text: string, maxBytes: nat)
  {
    && !IsBlank(text) && ByteLength(Trim(text)) <= maxBytes
    && forall i :: 0 <= i < |Trim(text)| ==> !IsControl(Trim(text)[i])
  }

  lemma CleanIsStorable(text: string, maxBytes: nat)
    ensures IsCleanText(Trim(text), maxBytes) <==> IsStorable(text, maxBytes)
  {
    TrimFacts(text);
    hide Trim, ByteLength, IsTrimmed;
  }

  /**
   An Agent is created exactly under an unused id with a name that is not blank, not
   too long and free of control characters.
   */
  lemma CreateAgentAccepted(db: Tables, id: Id, name: string)
    ensures CreateAgent(db, id, name).Committed? <==>
      && id !in db.agents && !IsBlank(name) && ByteLength(Trim(name)) <= NAME_BYTES
      && forall i :: 0 <= i < |Trim(name)| ==> !IsControl(Trim(name)[i])
    ensures CreateAgent(db, id, name) == Aborted(Constraint) <==> id in db.agents && IsStorable(name, NAME_BYTES)
    ensures CreateAgent(db, id, name) == Aborted(InvalidInput) <==> !IsStorable(name, NAME_BYTES)
  {
    CleanIsStorable(name, NAME_BYTES);
    hide Trim, ByteLength, IsTrimmed, IsBlank;
  }

  /** The texts are the given ones, trimmed. */
  ghost predicate TrimmedOf(stored: Definition, given: Definition)
  {
    && stored.name == Trim(given.name) && stored.objective == Trim(given.objective)
    && |stored.criteria| == |given.criteria|
    && forall i :: 0 <= i < |given.criteria| ==> stored.criteria[i] == Trim(given.criteria[i])
  }

  /**
   What an edit stores is trimmed: editing again with the stored text changes the
   revision only. Before its first Version the Agent bears the name of its first Draft.
   */
  lemma EditAgain(db: Tables, id: Id, definition: Definition, head: string)
    requires UpdateDraft(db, id, definition, head).Committed?
    ensures var next := UpdateDraft(db, id, definition, head).db;
      && id in next.drafts && TrimmedOf(next.drafts[id].definition, definition)
      && UpdateDraft(next, id, next.drafts[id].definition, head) == Committed(next.(revision := next.revision + 1), id)
      && (db.drafts[id].agent in db.agents && RenamesAgent(db, id) ==>
            next.agents[db.drafts[id].agent].name == next.drafts[id].definition.name == Trim(definition.name))
  {
    var next := UpdateDraft(db, id, definition, head).db;
    var stored := Trimmed(definition);
    TrimmedAgain(definition);
    assert next.drafts[id].(definition := stored, head := head) == next.drafts[id];
    assert next.drafts[id := next.drafts[id]] == next.drafts;
    hide IsDefinition, Trim, Trimmed, HasVersion;
    assert HasVersion(next, db.drafts[id].agent) <==> HasVersion(db, db.drafts[id].agent);
    assert RenamedFirst(next, next.drafts[id]) == next.agents;
  }

  lemma TrimmedAgain(definition: Definition)
    requires IsDefinition(definition)
    ensures IsDefinition(Trimmed(definition)) && Trimmed(Trimmed(definition)) == Trimmed(definition)
  {
    TrimmedFixed(Trim(definition.name));
    TrimmedFixed(Trim(definition.objective));
    forall i | 0 <= i < |definition.criteria|
      ensures Trim(Trim(definition.criteria[i])) == Trim(definition.criteria[i]) {
      TrimmedFixed(Trim(definition.criteria[i]));
    }
    hide Trim, ByteLength;
    assert Trimmed(Trimmed(definition)).criteria == Trimmed(definition).criteria;
  }

  // ------------------------------------------------- what each call accepts and stores

  /** A definition is acceptable exactly when name, objective and each of at least one criterion are storable. */
  lemma DefinitionAccepted(definition: Definition)
    ensures IsDefinition(definition) <==>
      && IsStorable(definition.name, NAME_BYTES) && IsStorable(definition.objective, TEXT_BYTES)
      && definition.criteria != []
      && forall i :: 0 <= i < |definition.criteria| ==> IsStorable(definition.criteria[i], TEXT_BYTES)
  {
    hide IsCleanText, IsStorable, Trim;
    CleanIsStorable(definition.name, NAME_BYTES);
    CleanIsStorable(definition.objective, TEXT_BYTES);
    forall i | 0 <= i < |definition.criteria|
      ensures IsCleanText(Trim(definition.criteria[i]), TEXT_BYTES) <==> IsStorable(definition.criteria[i], TEXT_BYTES)
    {
      CleanIsStorable(definition.criteria[i], TEXT_BYTES);
    }
  }

  /** The same keys and, but for one of them, the same rows. */
  ghost predicate SameBut<K, V>(before: map<K, V>, next: map<K, V>, id: K)
  {
    next.Keys == before.Keys && forall k :: k in before && k != id ==> next[k] == before[k]
  }

  /** One new row, all others as they were. */
  ghost predicate AddedTo<K, V>(before: map<K, V>, next: map<K, V>, id: K)
  {
    id !in before && next.Keys == before.Keys + {id} && forall k :: k in before ==> next[k] == before[k]
  }

  /** The call changed one row of the Drafts and counted up the revision; nothing else differs. */
  ghost predicate DraftChanged(db: Tables, next: Tables, id: Id)
  {
    && id in db.drafts && SameBut(db.drafts, next.drafts, id)
    && next == db.(drafts := next.drafts, revision := db.revision + 1)
  }

  /**
   An edit is accepted exactly for an active Draft and an acceptable definition. It
   stores the trimmed texts and the given head, and renames the Agent exactly when
   the Draft is its first; no other row and no other column changes.
   */
  lemma UpdateDraftStores(db: Tables, id: Id, definition: Definition, head: string)
    ensures var outcome := UpdateDraft(db, id, definition, head);
      if !IsDefinition(definition) || !InLifecycle(db, id, Active) then outcome == Aborted(InvalidInput)
      else
        && outcome.Committed? && outcome.reply == id
        && var next, agent := outcome.db, db.drafts[id].agent;
        && SameBut(db.drafts, next.drafts, id) && SameBut(db.agents, next.agents, agent)
        && next == db.(drafts := next.drafts, agents := next.agents, revision := db.revision + 1)
        && TrimmedOf(next.drafts[id].definition, definition)
        && next.drafts[id] == db.drafts[id].(definition := next.drafts[id].definition, head := head)
        && (agent in db.agents ==>
              && next.agents[agent].archived == db.agents[agent].archived
              && next.agents[agent].name ==
                if RenamesAgent(db, id) then Trim(definition.name) else db.agents[agent].name)
  {
    hide IsDefinition, Trim, HasVersion;
  }

  /** A reservation is accepted exactly for an active Draft and a version text. It closes the Draft to edits. */
  lemma ReserveStores(db: Tables, id: Id, version: string)
    ensures var outcome := ReserveVersion(db, id, version);
      if !IsAgentVersion(version) || !InLifecycle(db, id, Active) then outcome == Aborted(InvalidInput)
      else
        && outcome.Committed? && DraftChanged(db, outcome.db, id)
        && var before, after := db.drafts[id], outcome.db.drafts[id];
        && after.lifecycle == Publishing && after.reserved == Some(version)
        && after == before.(lifecycle := after.lifecycle, reserved := after.reserved)
  {
    hide IsAgentVersion;
  }

  /** Restoring gives a publishing Draft back to its editor and leaves every other as it is. */
  lemma RestoreStores(db: Tables, id: Id)
    ensures var outcome := RestoreDraft(db, id);
      && outcome.Committed?
      && if !InLifecycle(db, id, Publishing) then outcome.db == db.(revision := db.revision + 1)
         else
           && DraftChanged(db, outcome.db, id)
           && var before, after := db.drafts[id], outcome.db.drafts[id];
           && after.lifecycle == Active && after.reserved == None
           && after == before.(lifecycle := after.lifecycle, reserved := after.reserved)
  {}

  /** The Environment of a Draft can be chosen exactly while it is active. */
  lemma SetEnvironmentStores(db: Tables, id: Id, environment: Option<string>)
    ensures var outcome := SetDraftEnvironment(db, id, environment);
      if !InLifecycle(db, id, Active) then outcome == Aborted(InvalidInput)
      else
        && outcome.Committed? && DraftChanged(db, outcome.db, id)
        && outcome.db.drafts[id].environment == environment
        && outcome.db.drafts[id] == db.drafts[id].(environment := environment)
  {}

  /** The workspace of the Draft is archived, no other. */
  ghost predicate BindingArchived(bindings: map<Id, BindingRow>, next: map<Id, BindingRow>, binding: Id)
  {
    && SameBut(bindings, next, binding)
    && (binding in bindings ==> next[binding].archived && next[binding] == bindings[binding].(archived := true))
  }

  /** A Draft is discarded exactly while active or waiting for cleanup; its workspace is archived with it. */
  lemma ArchiveStores(db: Tables, id: Id)
    ensures var outcome := ArchiveDraft(db, id);
      if !InLifecycle(db, id, Active) && !InLifecycle(db, id, CleanupRequired) then outcome == Aborted(InvalidInput)
      else
        && outcome.Committed?
        && var next := outcome.db;
        && SameBut(db.drafts, next.drafts, id) && BindingArchived(db.bindings, next.bindings, db.drafts[id].binding)
        && next.drafts[id].lifecycle == Archived && next.drafts[id] == db.drafts[id].(lifecycle := Archived)
        && next == db.(drafts := next.drafts, bindings := next.bindings, revision := db.revision + 1)
  {}

  /**
   Recording a cleanup is never refused. It closes a known Draft, whatever its state,
   with the given guidance, and archives its workspace exactly when nothing is left to clean.
   */
  lemma CleanupStores(db: Tables, id: Id, required: bool, guidance: Option<string>)
    ensures var outcome := SetDraftCleanup(db, id, required, guidance);
      && outcome.Committed?
      && if id !in db.drafts then outcome.db == db.(revision := db.revision + 1)
         else
           && var next, before := outcome.db, db.drafts[id];
           && SameBut(db.drafts, next.drafts, id)
           && next.drafts[id].lifecycle == (if required then CleanupRequired else Archived)
           && next.drafts[id] == before.(lifecycle := next.drafts[id].lifecycle, guidance := guidance)
           && (required ==> next.bindings == db.bindings)
           && (!required ==> BindingArchived(db.bindings, next.bindings, before.binding))
           && next == db.(drafts := next.drafts, bindings := next.bindings, revision := db.revision + 1)
  {}

  /**
   A Draft is created exactly with an acceptable definition and an absolute worktree,
   for a live Agent in a live workspace, under an unused id, and when no other Draft has
   its workspace, branch or worktree. It is stored as given, without a reservation.
   */
  lemma CreateDraftStores(db: Tables, id: Id, draft: DraftRow)
    ensures var outcome := CreateDraft(db, id, draft);
      && (outcome.Committed? <==>
            && IsDefinition(draft.definition) && "/" <= draft.worktree
            && LiveAgent(db, draft.agent) && LiveBinding(db, draft.binding)
            && id !in db.drafts
            && forall d :: d in db.drafts ==>
                 && db.drafts[d].binding != draft.binding && db.drafts[d].branch != draft.branch
                 && db.drafts[d].worktree != draft.worktree)
      && (outcome.Aborted? ==>
            outcome.error ==
              if !IsDefinition(draft.definition) || !("/" <= draft.worktree) then InvalidInput
              else if !LiveAgent(db, draft.agent) || !LiveBinding(db, draft.binding) then NotFound else Constraint)
      && (outcome.Committed? ==>
            && outcome.reply == id && AddedTo(db.drafts, outcome.db.drafts, id)
            && outcome.db.drafts[id] == draft.(reserved := None)
            && outcome.db == db.(drafts := outcome.db.drafts, revision := db.revision + 1))
  {
    hide IsDefinition;
  }

  /** A new Agent bears its trimmed name and is not archived. */
  lemma CreateAgentStores(db: Tables, id: Id, name: string)
    requires CreateAgent(db, id, name).Committed?
    ensures var next := CreateAgent(db, id, name).db;
      && AddedTo(db.agents, next.agents, id) && next == db.(agents := next.agents, revision := db.revision + 1)
      && next.agents[id].name == Trim(name) && !next.agents[id].archived
  {
    hide IsCleanText;
  }

  /** A workspace is created exactly for a live Agent, under an unused id, with a root no other one of both has. */
  lemma CreateBindingStores(db: Tables, id: Id, agent: Id, project: Id, root: string)
    ensures var outcome := CreateBinding(db, id, agent, project, root);
      && (outcome.Committed? <==>
            && LiveAgent(db, agent) && id !in db.bindings
            && forall b :: b in db.bindings && db.bindings[b].agent == agent && db.bindings[b].project == project ==>
                 db.bindings[b].root != root)
      && (outcome.Aborted? ==> outcome.error == if LiveAgent(db, agent) then Constraint else NotFound)
      && (outcome.Committed? ==>
            && outcome.reply == id && AddedTo(db.bindings, outcome.db.bindings, id)
            && outcome.db == db.(bindings := outcome.db.bindings, revision := db.revision + 1)
            && var row := outcome.db.bindings[id];
            && row.agent == agent && row.project == project && row.root == root && !row.archived)
  {}

  /** A move changes the root of one binding and nothing else. */
  lemma UpdateBindingRootStores(db: Tables, id: Id, root: string)
    requires UpdateBindingRoot(db, id, root).Committed?
    ensures var next := UpdateBindingRoot(db, id, root).db;
      && id in db.bindings && SameBut(db.bindings, next.bindings, id)
      && next == db.(bindings := next.bindings, revision := db.revision + 1)
      && next.bindings[id].root == root && next.bindings[id] == db.bindings[id].(root := root)
  {}

  // ------------------------------------------------------ the greatest Version

  /** Where a row stands in the maximum: parsed version, then the older row, then the smaller id. */
  datatype Rank = Rank(parsed: Option<Triple>, createdAt: nat, id: Id)

  function RankOf(row: VersionRow, id: Id): Rank
  {
    Rank(if IsAgentVersion(row.version) then Parsed(row.version) else None, row.createdAt, id)
  }

  predicate Beats(a: Rank, b: Rank)
  {
    ParsedLess(b.parsed, a.parsed)
    || (a.parsed == b.parsed && (a.createdAt < b.createdAt || (a.createdAt == b.createdAt && a.id < b.id)))
  }

  /** The row that the maximum over an Agent's Versions ends on. */
  predicate Wins(versions: map<Id, VersionRow>, agent: Id, v: Id)
  {
    && v in versions && versions[v].agent == agent
    && forall other | other in versions && other != v && versions[other].agent == agent ::
        Beats(RankOf(versions[v], v), RankOf(versions[other], other))
  }

  lemma {:induction false} WinnerAmong(versions: map<Id, VersionRow>, ids: set<Id>) returns (winner: Id)
    requires ids != {} && ids <= versions.Keys
    ensures winner in ids
    ensures forall other :: other in ids && other != winner ==>
      Beats(RankOf(versions[winner], winner), RankOf(versions[other], other))
    decreases ids
  {
    var v :| v in ids;
    if ids == {v} {
      winner := v;
    } else {
      assert v in ids && ids - {v} < ids && ids - {v} != {};
      var best := WinnerAmong(versions, ids - {v});
      var b, r := RankOf(versions[best], best), RankOf(versions[v], v);
      if Beats(b, r) {
        winner := best;
      } else {
        winner := v;
        forall other | other in ids && other != v ensures Beats(r, RankOf(versions[other], other)) {
          BeatsOrder(r, b, RankOf(versions[other], other));
        }
      }
    }
  }

  /** Ranks of distinct rows are totally ordered. */
  lemma BeatsOrder(a: Rank, b: Rank, c: Rank)
    ensures a.id != b.id ==> Beats(a, b) || Beats(b, a)
    ensures !(Beats(a, b) && Beats(b, a))
    ensures Beats(a, b) && Beats(b, c) ==> Beats(a, c)
  {}

  lemma WinnerExists(versions: map<Id, VersionRow>, agent: Id, v: Id)
    requires v in versions && versions[v].agent == agent
    ensures exists winner :: Wins(versions, agent, winner)
  {
    var ids := set o | o in versions && versions[o].agent == agent;
    assert v in ids;
    var winner := WinnerAmong(versions, ids);
    assert Wins(versions, agent, winner);
  }

  lemma WinnerUnique(versions: map<Id, VersionRow>, agent: Id, a: Id, b: Id)
    requires Wins(versions, agent, a) && Wins(versions, agent, b)
    ensures a == b
  {
    if a != b {
      BeatsOrder(RankOf(versions[a], a), RankOf(versions[b], b), RankOf(versions[b], b));
    }
  }

  // --------------------------------------------------------------- invariants

  predicate IsOpen(lifecycle: Lifecycle)
  {
    lifecycle == Active || lifecycle == Publishing
  }

  /** A Version repeats the definition of the closed Draft it came from. */
  ghost predicate FromClosedDrafts(drafts: map<Id, DraftRow>, versions: map<Id, VersionRow>)
  {
    forall v :: v in versions ==>
      var row := versions[v];
      && row.draft in drafts
      && !IsOpen(drafts[row.draft].lifecycle)
      && drafts[row.draft].agent == row.agent
      && drafts[row.draft].definition == row.definition
  }

  ghost predicate OnePerDraft(versions: map<Id, VersionRow>)
  {
    && (forall v :: v in versions ==> IsAgentVersion(versions[v].version))
    && (forall v, w :: v in versions && w in versions && v != w ==>
          && versions[v].draft != versions[w].draft
          && (versions[v].agent == versions[w].agent ==> versions[v].version != versions[w].version))
  }

  ghost predicate Named(agents: map<Id, AgentRow>, versions: map<Id, VersionRow>)
  {
    forall agent, v :: Wins(versions, agent, v) ==> agent in agents && agents[agent].name == versions[v].definition.name
  }

  ghost predicate DraftInvariant(db: Tables)
  {
    && FromClosedDrafts(db.drafts, db.versions)
    && OnePerDraft(db.versions)
    && Named(db.agents, db.versions)
    && (forall d :: d in db.drafts ==> db.drafts[d].agent in db.agents)
  }

  /** A closed Draft stays closed, and a Draft that is not active keeps its definition. */
  predicate DraftRowStep(before: DraftRow, next: DraftRow)
  {
    && (!IsOpen(before.lifecycle) ==> !IsOpen(next.lifecycle))
    && (before.lifecycle != Active ==> next.definition == before.definition)
    && next.agent == before.agent
  }

  /** What every transaction does to Drafts and Versions; only `restored` may become active again. */
  ghost predicate DraftStep(before: Tables, next: Tables, restored: Option<Id>)
  {
    && (forall d :: d in before.drafts ==>
          && d in next.drafts
          && DraftRowStep(before.drafts[d], next.drafts[d])
          && (restored != Some(d) && before.drafts[d].lifecycle != Active ==> next.drafts[d].lifecycle != Active))
    && (forall v :: v in before.versions ==> v in next.versions && next.versions[v] == before.versions[v])
  }

  lemma DraftUpdated(drafts: map<Id, DraftRow>, versions: map<Id, VersionRow>, id: Id, row: DraftRow)
    requires FromClosedDrafts(drafts, versions) && (id in drafts ==> DraftRowStep(drafts[id], row))
    ensures FromClosedDrafts(drafts[id := row], versions)
  {}

  lemma AgentRenamed(agents: map<Id, AgentRow>, versions: map<Id, VersionRow>, id: Id, row: AgentRow)
    requires Named(agents, versions)
    requires (forall v :: v in versions ==> versions[v].agent != id) || (id in agents && agents[id].name == row.name)
    ensures Named(agents[id := row], versions)
  {}

  lemma VersionAdded(agents: map<Id, AgentRow>, versions: map<Id, VersionRow>, id: Id, row: VersionRow, winner: Id)
    requires Named(agents, versions) && id !in versions && row.agent in agents
    requires Wins(versions[id := row], row.agent, winner)
    ensures var all := versions[id := row];
      Named(NamedAfter(agents, row.agent, all[winner]), all)
  {
    var all := versions[id := row];
    forall agent, v | Wins(all, agent, v)
      ensures agent in agents && (if agent == row.agent then v == winner else Wins(versions, agent, v))
    {
      if agent == row.agent {
        WinnerUnique(all, agent, v, winner);
      } else {
        assert v != id && all[v] == versions[v];
        forall other | other in versions && other != v && versions[other].agent == agent
          ensures Beats(RankOf(versions[v], v), RankOf(versions[other], other))
        {
          assert all[other] == versions[other];
        }
      }
    }
  }

  lemma CreateDraftKeeps(db: Tables, id: Id, draft: DraftRow)
    requires DraftInvariant(db)
    ensures var next := After(db, CreateDraft(db, id, draft));
      DraftInvariant(next) && DraftStep(db, next, None) && DraftEffect(db, next)
  {
    if CreateDraft(db, id, draft).Committed? {
      DraftUpdated(db.drafts, db.versions, id, draft.(reserved := None));
    }
  }

  lemma UpdateDraftKeeps(db: Tables, id: Id, definition: Definition, head: string)
    requires DraftInvariant(db)
    ensures var next := After(db, UpdateDraft(db, id, definition, head));
      DraftInvariant(next) && DraftStep(db, next, None) && DraftEffect(db, next)
  {
    match UpdateDraft(db, id, definition, head)
    case Aborted(_) =>
    case Committed(next, _) =>
      DraftUpdated(db.drafts, db.versions, id, next.drafts[id]);
      var agent := db.drafts[id].agent;
      if next.agents != db.agents {
        AgentRenamed(db.agents, db.versions, agent, next.agents[agent]);
      }
  }

  /** What a committed publication changes. */
  lemma FinishEffect(db: Tables, id: Id, version: string, commit: string, tag: string, versionId: Id, now: nat)
    returns (next: Tables, row: VersionRow, winner: Id)
    requires FinishPublication(db, id, version, commit, tag, versionId, now).Committed?
    ensures next == FinishPublication(db, id, version, commit, tag, versionId, now).db
    ensures IsAgentVersion(version) && InLifecycle(db, id, Publishing) && versionId !in db.versions
    ensures row == VersionRow(db.drafts[id].agent, version, db.drafts[id].definition, id, commit, tag, now)
    ensures !VersionConflict(db, versionId, row)
    ensures next.versions == db.versions[versionId := row]
    ensures next.drafts == db.drafts[id := db.drafts[id].(lifecycle := Archived, reserved := None)]
    ensures next.bindings == db.bindings
    ensures Wins(next.versions, row.agent, winner)
    ensures next.agents == NamedAfter(db.agents, row.agent, next.versions[winner])
    ensures next == db.(versions := next.versions, drafts := next.drafts, agents := next.agents,
                        revision := db.revision + 1)
    ensures FinishPublication(db, id, version, commit, tag, versionId, now).reply == versionId
  {
    next := FinishPublication(db, id, version, commit, tag, versionId, now).db;
    row := next.versions[versionId];
    WinnerExists(next.versions, row.agent, versionId);
    winner :| Wins(next.versions, row.agent, winner);
    forall w | Wins(next.versions, row.agent, w) ensures w == winner {
      WinnerUnique(next.versions, row.agent, w, winner);
    }
  }

  /**
   A publication is accepted exactly for a publishing Draft, a version text the Agent
   has not used, and an unused tag and id. It adds one Version, with the definition of
   the Draft, closes the Draft and renames at most its Agent; nothing else changes.
   */
  lemma FinishStores(db: Tables, id: Id, version: string, commit: string, tag: string, versionId: Id, now: nat)
    ensures var outcome := FinishPublication(db, id, version, commit, tag, versionId, now);
      && (outcome.Committed? <==>
            && IsAgentVersion(version) && InLifecycle(db, id, Publishing) && versionId !in db.versions
            && forall v :: v in db.versions ==>
                 && db.versions[v].tag != tag
                 && (db.versions[v].agent == db.drafts[id].agent ==> db.versions[v].version != version))
      && (outcome.Committed? ==>
            && var next, draft := outcome.db, db.drafts[id];
            && outcome.reply == versionId
            && AddedTo(db.versions, next.versions, versionId) && SameBut(db.drafts, next.drafts, id)
            && SameBut(db.agents, next.agents, draft.agent)
            && var row := next.versions[versionId];
            && row.agent == draft.agent && row.definition == draft.definition && row.draft == id
            && row.version == version && row.commit == commit && row.tag == tag && row.createdAt == now
            && next.drafts[id].lifecycle == Archived && next.drafts[id].reserved == None
            && next.drafts[id] == draft.(lifecycle := Archived, reserved := None)
            && (draft.agent in db.agents ==> next.agents[draft.agent].archived == db.agents[draft.agent].archived)
            && next == db.(versions := next.versions, drafts := next.drafts, agents := next.agents,
                           revision := db.revision + 1))
  {
    hide IsAgentVersion, FinishPublication, VersionConflict, Wins;
    FinishAccepted(db, id, version, commit, tag, versionId, now);
    if FinishPublication(db, id, version, commit, tag, versionId, now).Committed? {
      var next, row, winner := FinishEffect(db, id, version, commit, tag, versionId, now);
    }
  }

  lemma FinishAccepted(db: Tables, id: Id, version: string, commit: string, tag: string, versionId: Id, now: nat)
    ensures FinishPublication(db, id, version, commit, tag, versionId, now).Committed? <==>
      && IsAgentVersion(version) && InLifecycle(db, id, Publishing) && versionId !in db.versions
      && forall v :: v in db.versions ==>
           && db.versions[v].tag != tag
           && (db.versions[v].agent == db.drafts[id].agent ==> db.versions[v].version != version)
    ensures FinishPublication(db, id, version, commit, tag, versionId, now).Aborted? ==>
      FinishPublication(db, id, version, commit, tag, versionId, now).error ==
        if !IsAgentVersion(version) then InvalidInput
        else if id !in db.drafts then NotFound
        else if db.drafts[id].lifecycle != Publishing then InvalidInput
        else Constraint
  {
    hide IsAgentVersion, Wins, NamedAfter;
  }

  lemma FinishKeeps(db: Tables, id: Id, version: string, commit: string, tag: string, versionId: Id, now: nat)
    requires DraftInvariant(db)
    ensures var next := After(db, FinishPublication(db, id, version, commit, tag, versionId, now));
      DraftInvariant(next) && DraftStep(db, next, None) && DraftEffect(db, next)
  {
    FinishFrame(db, id, version, commit, tag, versionId, now);
    hide FinishPublication, DraftEffect;
    if FinishPublication(db, id, version, commit, tag, versionId, now).Committed? {
      var next, row, winner := FinishEffect(db, id, version, commit, tag, versionId, now);
      VersionUnique(db, id, versionId, row);
      VersionFromDraft(db.drafts, db.versions, id, next.drafts[id], versionId, row);
      VersionAdded(db.agents, db.versions, versionId, row, winner);
      hide FromClosedDrafts, OnePerDraft, Named, Wins, VersionConflict, NamedAfter, IsAgentVersion;
      PublishedKeeps(db, next, id, versionId, row);
    }
  }

  lemma FinishFrame(db: Tables, id: Id, version: string, commit: string, tag: string, versionId: Id, now: nat)
    ensures DraftEffect(db, After(db, FinishPublication(db, id, version, commit, tag, versionId, now)))
  {
    hide Wins, VersionConflict, NamedAfter, IsAgentVersion;
  }

  lemma PublishedKeeps(db: Tables, next: Tables, id: Id, versionId: Id, row: VersionRow)
    requires DraftInvariant(db) && InLifecycle(db, id, Publishing) && versionId !in db.versions
    requires next.versions == db.versions[versionId := row]
    requires next.drafts == db.drafts[id := db.drafts[id].(lifecycle := Archived, reserved := None)]
    requires next.agents.Keys == db.agents.Keys
    requires FromClosedDrafts(next.drafts, next.versions) && OnePerDraft(next.versions)
      && Named(next.agents, next.versions)
    ensures DraftInvariant(next) && DraftStep(db, next, None)
  {
    hide FromClosedDrafts, OnePerDraft, Named;
  }

  /** A Draft closed by the Version made of it. */
  lemma VersionFromDraft(drafts: map<Id, DraftRow>, versions: map<Id, VersionRow>, id: Id, closed: DraftRow,
                         versionId: Id, row: VersionRow)
    requires FromClosedDrafts(drafts, versions) && id in drafts && DraftRowStep(drafts[id], closed)
    requires !IsOpen(closed.lifecycle) && row.draft == id && row.agent == closed.agent
      && row.definition == closed.definition
    ensures FromClosedDrafts(drafts[id := closed], versions[versionId := row])
  {
    DraftUpdated(drafts, versions, id, closed);
  }

  lemma VersionUnique(db: Tables, id: Id, versionId: Id, row: VersionRow)
    requires DraftInvariant(db) && InLifecycle(db, id, Publishing) && row.draft == id && IsAgentVersion(row.version)
    requires !VersionConflict(db, versionId, row)
    ensures OnePerDraft(db.versions[versionId := row])
  {
    forall v | v in db.versions
      ensures db.versions[v].draft != id
        && (db.versions[v].agent == row.agent ==> db.versions[v].version != row.version) {}
  }

  lemma ReplaceDraft(db: Tables, next: Tables, id: Id, row: DraftRow, restored: Option<Id>)
    requires DraftInvariant(db) && id in db.drafts && DraftRowStep(db.drafts[id], row)
    requires restored == Some(id) || db.drafts[id].lifecycle == Active || row.lifecycle != Active
    requires next.drafts == db.drafts[id := row] && next.versions == db.versions && next.agents == db.agents
    ensures DraftInvariant(next) && DraftStep(db, next, restored)
  {
    DraftUpdated(db.drafts, db.versions, id, row);
  }

  lemma ReserveKeeps(db: Tables, id: Id, version: string)
    requires DraftInvariant(db)
    ensures var next := After(db, ReserveVersion(db, id, version));
      DraftInvariant(next) && DraftStep(db, next, None) && DraftEffect(db, next)
  {
    match ReserveVersion(db, id, version)
    case Aborted(_) =>
    case Committed(next, _) => ReplaceDraft(db, next, id, next.drafts[id], None);
  }

  lemma RestoreKeeps(db: Tables, id: Id)
    requires DraftInvariant(db)
    ensures var next := After(db, RestoreDraft(db, id));
      DraftInvariant(next) && DraftStep(db, next, Some(id)) && DraftEffect(db, next)
  {
    if InLifecycle(db, id, Publishing) {
      var next := RestoreDraft(db, id).db;
      ReplaceDraft(db, next, id, next.drafts[id], Some(id));
    }
  }

  /** Restoring undoes a reservation; only the revision tells. */
  lemma RestoreUndoesReserve(db: Tables, id: Id, version: string)
    requires ReserveVersion(db, id, version).Committed? && db.drafts[id].reserved.None?
    ensures RestoreDraft(ReserveVersion(db, id, version).db, id) == Committed(db.(revision := db.revision + 2), 0)
  {
    assert RestoreDraft(ReserveVersion(db, id, version).db, id).db.drafts == db.drafts;
  }

  /** A Draft is published at most once: publishing it again is refused, under whatever version and id. */
  lemma PublishedOnce(db: Tables, id: Id, version: string, commit: string, tag: string, versionId: Id, now: nat,
                      version': string, commit': string, tag': string, versionId': Id, now': nat)
    requires FinishPublication(db, id, version, commit, tag, versionId, now).Committed?
    ensures var next := FinishPublication(db, id, version, commit, tag, versionId, now).db;
      && FinishPublication(next, id, version', commit', tag', versionId', now').Aborted?
      && ReserveVersion(next, id, version') == Aborted(InvalidInput)
      && RestoreDraft(next, id).db.drafts == next.drafts
  {
    var next, row, winner := FinishEffect(db, id, version, commit, tag, versionId, now);
    hide Wins, VersionConflict, NamedAfter, IsAgentVersion;
  }

  lemma ArchiveKeeps(db: Tables, id: Id)
    requires DraftInvariant(db)
    ensures var next := After(db, ArchiveDraft(db, id));
      DraftInvariant(next) && DraftStep(db, next, None) && DraftEffect(db, next)
  {
    match ArchiveDraft(db, id)
    case Aborted(_) =>
    case Committed(next, _) => ReplaceDraft(db, next, id, next.drafts[id], None);
  }

  lemma CleanupKeeps(db: Tables, id: Id, required: bool, guidance: Option<string>)
    requires DraftInvariant(db)
    ensures var next := After(db, SetDraftCleanup(db, id, required, guidance));
      DraftInvariant(next) && DraftStep(db, next, None) && DraftEffect(db, next)
  {
    if id in db.drafts {
      var next := SetDraftCleanup(db, id, required, guidance).db;
      ReplaceDraft(db, next, id, next.drafts[id], None);
    }
  }

  lemma SetEnvironmentKeeps(db: Tables, id: Id, environment: Option<string>)
    requires DraftInvariant(db)
    ensures var next := After(db, SetDraftEnvironment(db, id, environment));
      DraftInvariant(next) && DraftStep(db, next, None) && DraftEffect(db, next)
  {
    match SetDraftEnvironment(db, id, environment)
    case Aborted(_) =>
    case Committed(next, _) => ReplaceDraft(db, next, id, next.drafts[id], None);
  }

  lemma CreateAgentKeeps(db: Tables, id: Id, name: string)
    requires DraftInvariant(db)
    ensures var next := After(db, CreateAgent(db, id, name));
      DraftInvariant(next) && DraftStep(db, next, None) && DraftEffect(db, next)
  {
    if CreateAgent(db, id, name).Committed? {
      forall v | v in db.versions ensures db.versions[v].agent != id {
        assert db.drafts[db.versions[v].draft].agent == db.versions[v].agent;
      }
      AgentRenamed(db.agents, db.versions, id, AgentRow(Trim(name), false));
    }
  }

  lemma CreateBindingKeeps(db: Tables, id: Id, agent: Id, project: Id, root: string)
    requires DraftInvariant(db)
    ensures var next := After(db, CreateBinding(db, id, agent, project, root));
      DraftInvariant(next) && DraftStep(db, next, None) && DraftEffect(db, next)
  {
    hide FromClosedDrafts, OnePerDraft, Named, LiveAgent;
    var outcome := CreateBinding(db, id, agent, project, root);
    if outcome.Committed? {
      assert outcome.db == Bump(db.(bindings := db.bindings[id := BindingRow(agent, project, root, false)]));
      hide CreateBinding;
    }
  }

  lemma UpdateBindingRootKeeps(db: Tables, id: Id, root: string)
    requires DraftInvariant(db)
    ensures var next := After(db, UpdateBindingRoot(db, id, root));
      DraftInvariant(next) && DraftStep(db, next, None) && DraftEffect(db, next)
  {
    hide FromClosedDrafts, OnePerDraft, Named;
    var outcome := UpdateBindingRoot(db, id, root);
    if outcome.Committed? {
      assert outcome.db == Bump(db.(bindings := db.bindings[id := db.bindings[id].(root := root)]));
      hide UpdateBindingRoot;
    }
  }

  /** No two bindings of an Agent and a project share a root. */
  ghost predicate RootsDistinct(bindings: map<Id, BindingRow>)
  {
    forall a, b :: a in bindings && b in bindings && a != b ==> !SameRoot(bindings[a], bindings[b])
  }

  lemma RootChanged(bindings: map<Id, BindingRow>, id: Id, row: BindingRow)
    requires RootsDistinct(bindings)
    ensures RootsDistinct(bindings[id := row]) <==>
      forall b :: b in bindings && b != id ==> !SameRoot(bindings[b], row)
  {
    var next := bindings[id := row];
    forall b | b in bindings && b != id ensures next[b] == bindings[b] {}
    assert next[id] == row;
  }

  lemma CreatedRootsDistinct(db: Tables, id: Id, agent: Id, project: Id, root: string)
    requires RootsDistinct(db.bindings)
    ensures RootsDistinct(After(db, CreateBinding(db, id, agent, project, root)).bindings)
  {
    RootChanged(db.bindings, id, BindingRow(agent, project, root, false));
    hide RootsDistinct, LiveAgent;
  }

  /** Moving a binding is refused exactly when two bindings would share a root. */
  lemma MovedRootsDistinct(db: Tables, id: Id, root: string)
    requires RootsDistinct(db.bindings)
    ensures RootsDistinct(After(db, UpdateBindingRoot(db, id, root)).bindings)
    ensures id !in db.bindings <==> UpdateBindingRoot(db, id, root) == Aborted(NotFound)
    ensures UpdateBindingRoot(db, id, root).Aborted? ==> UpdateBindingRoot(db, id, root).error in {NotFound, Constraint}
    ensures UpdateBindingRoot(db, id, root).Committed? <==>
      id in db.bindings && RootsDistinct(db.bindings[id := db.bindings[id].(root := root)])
  {
    if id in db.bindings {
      RootChanged(db.bindings, id, db.bindings[id].(root := root));
    }
    hide RootsDistinct;
  }

  lemma ArchivedRootsDistinct(db: Tables, id: Id)
    requires RootsDistinct(db.bindings)
    ensures RootsDistinct(ArchiveBindingOf(db, id))
  {
    if id in db.drafts && db.drafts[id].binding in db.bindings {
      var binding := db.drafts[id].binding;
      forall b | b in db.bindings && b != binding ensures !SameRoot(db.bindings[b], db.bindings[binding]) {}
      RootChanged(db.bindings, binding, db.bindings[binding].(archived := true));
    }
  }

  // ------------------------------------------------------------ the name rule

  predicate AllCanonical(versions: map<Id, VersionRow>, agent: Id)
  {
    forall v | v in versions && versions[v].agent == agent :: IsCanonical(versions[v].version)
  }

  function Numbers(row: VersionRow): Triple
  {
    if IsAgentVersion(row.version) then Triplet(row.version) else Triple(0, 0, 0)
  }

  /** `v` denotes numbers at least as great as every Version of its Agent. */
  predicate NumericallyGreatest(versions: map<Id, VersionRow>, agent: Id, v: Id)
  {
    v in versions && versions[v].agent == agent
    && forall other | other in versions && versions[other].agent == agent ::
        !Less(Numbers(versions[v]), Numbers(versions[other]))
  }

  lemma CanonicalRank(row: VersionRow, id: Id)
    requires IsAgentVersion(row.version)
    ensures RankOf(row, id).parsed == if IsCanonical(row.version) then Some(Numbers(row)) else None
  {}

  lemma CanonicalRanks(a: VersionRow, i: Id, b: VersionRow, j: Id)
    requires IsAgentVersion(a.version) && IsCanonical(a.version)
    requires IsAgentVersion(b.version) && IsCanonical(b.version)
    requires a.version != b.version
    ensures Beats(RankOf(a, i), RankOf(b, j)) <==> !Less(Numbers(a), Numbers(b))
    ensures Numbers(a) != Numbers(b)
  {
    CanonicalRank(a, i);
    CanonicalRank(b, j);
    if Numbers(a) == Numbers(b) {
      CanonicalUnique(a.version, b.version);
    }
  }

  /** With canonical version texts the Agent bears the name of the one greatest Version. */
  lemma NameOfGreatest(agents: map<Id, AgentRow>, versions: map<Id, VersionRow>, agent: Id, v: Id)
    requires OnePerDraft(versions) && Named(agents, versions) && AllCanonical(versions, agent)
    ensures NumericallyGreatest(versions, agent, v) <==> Wins(versions, agent, v)
    ensures NumericallyGreatest(versions, agent, v) ==>
      agent in agents && agents[agent].name == versions[v].definition.name
  {
    if v in versions && versions[v].agent == agent {
      forall other | other in versions && other != v && versions[other].agent == agent
        ensures Beats(RankOf(versions[v], v), RankOf(versions[other], other)) <==>
                !Less(Numbers(versions[v]), Numbers(versions[other]))
      {
        CanonicalRanks(versions[v], v, versions[other], other);
      }
    }
  }

  /**
   Publishing `version` beside canonical ones leaves the Agent named after a
   numerically greatest Version exactly when the new text is canonical too, or is
   the first, or does not exceed every existing one.
   */
  lemma PublishNamesGreatest(db: Tables, id: Id, version: string, commit: string, tag: string, versionId: Id,
                             now: nat, winner: Id)
    requires DraftInvariant(db) && id in db.drafts && AllCanonical(db.versions, db.drafts[id].agent)
    requires FinishPublication(db, id, version, commit, tag, versionId, now).Committed?
    requires Wins(FinishPublication(db, id, version, commit, tag, versionId, now).db.versions, db.drafts[id].agent,
                  winner)
    ensures var next, agent := FinishPublication(db, id, version, commit, tag, versionId, now).db, db.drafts[id].agent;
      && agent in next.agents
      && next.agents[agent].name == next.versions[winner].definition.name
      && (NumericallyGreatest(next.versions, agent, winner) <==>
            || IsCanonical(version)
            || !HasVersion(db, agent)
            || exists v :: v in db.versions && db.versions[v].agent == agent
                 && !Less(Numbers(db.versions[v]), Triplet(version)))
  {
    FinishKeeps(db, id, version, commit, tag, versionId, now);
    var next, row, _ := FinishEffect(db, id, version, commit, tag, versionId, now);
    WinnerAfterPublishing(db.agents, db.versions, versionId, row, winner, next.agents);
  }

  lemma WinnerAfterPublishing(agents: map<Id, AgentRow>, versions: map<Id, VersionRow>, id: Id,
                              row: VersionRow, winner: Id,
                              renamed: map<Id, AgentRow>)
    requires OnePerDraft(versions) && Named(agents, versions) && AllCanonical(versions, row.agent)
    requires id !in versions && OnePerDraft(versions[id := row]) && Named(renamed, versions[id := row])
    requires Wins(versions[id := row], row.agent, winner)
    ensures NumericallyGreatest(versions[id := row], row.agent, winner) <==>
      || IsCanonical(row.version)
      || (forall v :: v in versions ==> versions[v].agent != row.agent)
      || exists v :: v in versions && versions[v].agent == row.agent && !Less(Numbers(versions[v]), Numbers(row))
  {
    if IsCanonical(row.version) {
      NameOfGreatest(renamed, versions[id := row], row.agent, winner);
    } else if v :| v in versions && versions[v].agent == row.agent {
      assert versions[id := row][id] == row;
      WinnerStays(agents, versions, id, row, winner, v);
    }
  }

  /** A text that is not canonical cannot displace the winner among canonical ones. */
  lemma WinnerStays(agents: map<Id, AgentRow>, versions: map<Id, VersionRow>, id: Id, row: VersionRow,
                    winner: Id, v: Id)
    requires OnePerDraft(versions) && Named(agents, versions) && AllCanonical(versions, row.agent)
    requires id !in versions && IsAgentVersion(row.version) && !IsCanonical(row.version)
    requires v in versions && versions[v].agent == row.agent
    requires Wins(versions[id := row], row.agent, winner)
    ensures winner != id && NumericallyGreatest(versions, row.agent, winner)
    ensures NumericallyGreatest(versions[id := row], row.agent, winner) <==>
      !Less(Numbers(versions[winner]), Numbers(row))
    ensures (exists w :: w in versions && versions[w].agent == row.agent && !Less(Numbers(versions[w]), Numbers(row)))
      <==> !Less(Numbers(versions[winner]), Numbers(row))
  {
    var all := versions[id := row];
    CanonicalRank(row, id);
    CanonicalRank(versions[v], v);
    hide IsAgentVersion, IsCanonical, Triplet, Parsed;
    assert all[id] == row && all[v] == versions[v];
    assert winner == id ==> Beats(RankOf(all[id], id), RankOf(all[v], v));
    forall other | other in versions && other != winner && versions[other].agent == row.agent
      ensures Beats(RankOf(versions[winner], winner), RankOf(versions[other], other))
    {
      assert all[other] == versions[other] && all[winner] == versions[winner];
    }
    assert Wins(versions, row.agent, winner);
    NameOfGreatest(agents, versions, row.agent, winner);
  }

  /** The text `02.0.0` is accepted, denotes more than `1.0.0`, and yet loses to it. */
  lemma LeadingZeroLoses(one: string, two: string)
    requires one == "1" + "." + "0" + "." + "0" && two == "02" + "." + "0" + "." + "0"
    ensures IsAgentVersion(one) && IsAgentVersion(two)
    ensures Less(Triplet(one), Triplet(two))
    ensures ParsedLess(Parsed(two), Parsed(one))
  {
    SmallNumbers();
    CanonicalParts("1", "0", "0");
    CanonicalParts("02", "0", "0");
  }

  /** Of two Versions of one Agent the one that parses lower loses, whatever it denotes. */
  lemma OlderWins(versions: map<Id, VersionRow>, first: VersionRow, second: VersionRow, winner: Id)
    requires versions == map[0 := first, 1 := second] && first.agent == second.agent
    requires IsAgentVersion(first.version) && IsAgentVersion(second.version)
    requires Less(Triplet(first.version), Triplet(second.version))
    requires ParsedLess(Parsed(second.version), Parsed(first.version))
    requires Wins(versions, first.agent, winner)
    ensures winner == 0
    ensures NumericallyGreatest(versions, first.agent, 1) && !NumericallyGreatest(versions, first.agent, 0)
  {
    hide IsAgentVersion, Triplet, Parsed;
    assert versions[0] == first && versions[1] == second;
    assert winner == 1 ==> Beats(RankOf(versions[1], 1), RankOf(versions[0], 0));
  }

  lemma SmallNumbers()
    ensures IsU32("0") && IsU32("1") && IsU32("02")
    ensures Value(Unsigned("0")) == 0 && Value(Unsigned("1")) == 1 && Value(Unsigned("02")) == 2
    ensures IsCanonicalNumber("0") && IsCanonicalNumber("1") && !IsCanonicalNumber("02")
  {
    assert "02"[..1] == "0" && "0"[..0] == "" && "1"[..0] == "";
    assert Value("02") == 10 * Value("0") + 2;
  }

  lemma CanonicalParts(a: string, b: string, c: string)
    requires '.' !in a && '.' !in b && '.' !in c
    ensures var text := a + "." + b + "." + c;
      && (IsAgentVersion(text) <==> IsU32(a) && IsU32(b) && IsU32(c))
      && (IsAgentVersion(text) ==> Triplet(text) == Triple(Value(Unsigned(a)), Value(Unsigned(b)), Value(Unsigned(c))))
      && (IsCanonical(text) <==> IsCanonicalNumber(a) && IsCanonicalNumber(b) && IsCanonicalNumber(c))
  {
    SplitThree(a, b, c);
    var parts := Split(a + "." + b + "." + c, '.');
    assert parts[0] == a && parts[1] == b && parts[2] == c;
  }

  lemma SplitThree(a: string, b: string, c: string)
    requires '.' !in a && '.' !in b && '.' !in c
    ensures Split(a + "." + b + "." + c, '.') == [a, b, c]
  {
    assert a + "." + b + "." + c == a + ['.'] + (b + ['.'] + c);
    SplitPrefix(a, b + ['.'] + c, '.');
    SplitPrefix(b, c, '.');
    SplitNone(c, '.');
  }
}
