/**
 The stored catalog of Environments and the grants of trust that depend on it.

 `reconcile` makes the available rows match a given list; rows are retired but
 never deleted.
 */
module EnvironmentTable {
  import opened Wrappers
  import opened StoreErrors
  import opened Text
  import opened StoreTables

  type Environments = map<string, EnvironmentRow>

  /** A catalog entry to store. */
  datatype Environment = Environment(id: string, content: EnvironmentContent)

  predicate Acceptable(environment: Environment)
  {
    !IsBlank(environment.id) && !IsBlank(environment.content.name)
  }

  predicate AllAcceptable(list: seq<Environment>)
  {
    forall i :: 0 <= i < |list| ==> Acceptable(list[i])
  }

  function Ids(list: seq<Environment>): set<string>
  {
    set environment | environment in list :: environment.id
  }

  function Listed(environment: Environment): EnvironmentRow
  {
    EnvironmentRow(environment.content, true)
  }

  predicate UpToDate(rows: Environments, environment: Environment)
  {
    environment.id in rows && rows[environment.id] == Listed(environment)
  }

  /** INSERT ... ON CONFLICT DO UPDATE ... WHERE something differs, for one entry after another. */
  function Upserted(rows: Environments, list: seq<Environment>): Environments
  {
    if list == [] then rows
    else
      var last := list[|list| - 1];
      Upserted(rows, list[..|list| - 1])[last.id := Listed(last)]
  }

  function UpsertCount(rows: Environments, list: seq<Environment>): nat
  {
    if list == [] then 0
    else
      var init, last := list[..|list| - 1], list[|list| - 1];
      UpsertCount(rows, init) + if UpToDate(Upserted(rows, init), last) then 0 else 1
  }

  function Stale(rows: Environments, ids: set<string>): set<string>
  {
    set id | id in rows && rows[id].available && id !in ids
  }

  function Retired(rows: Environments, ids: set<string>): Environments
  {
    map id | id in rows :: if id in ids then rows[id] else rows[id].(available := false)
  }

  function Orphaned(trust: map<TrustKey, string>, ids: set<string>): set<TrustKey>
  {
    set key | key in trust && key.environment !in ids
  }

  function BumpIf(db: Tables, changed: nat): Outcome
  {
    Committed(if changed > 0 then Bump(db) else db, changed)
  }

  function SyncEnvironments(db: Tables, list: seq<Environment>): Outcome
  {
    if !AllAcceptable(list) then Aborted(InvalidInput)
    else BumpIf(db.(environments := Upserted(db.environments, list)), UpsertCount(db.environments, list))
  }

  /** The tables after upserting the list, retiring the other rows and purging orphaned trust. */
  function Reconciled(db: Tables, list: seq<Environment>): Tables
  {
    db.(environments := Retired(Upserted(db.environments, list), Ids(list)),
        trust := db.trust - Orphaned(db.trust, Ids(list)))
  }

  function ReconcileCount(db: Tables, list: seq<Environment>): nat
  {
    UpsertCount(db.environments, list) + |Stale(Upserted(db.environments, list), Ids(list))| +
      |Orphaned(db.trust, Ids(list))|
  }

  function ReconcileEnvironments(db: Tables, list: seq<Environment>): Outcome
  {
    if !AllAcceptable(list) then Aborted(InvalidInput) else BumpIf(Reconciled(db, list), ReconcileCount(db, list))
  }

  predicate IsHexDigit(c: char)
  {
    '0' <= c <= '9' || 'a' <= c <= 'f' || 'A' <= c <= 'F'
  }

  /** Granting and revoking trust leaves the revision alone: trust is in no snapshot. */
  function TrustServer(db: Tables, key: TrustKey, fingerprint: string): Outcome
  {
    if !IsCleanText(key.plugin, 64) || !IsCleanText(key.server, 128) then Aborted(InvalidInput)
    else if |fingerprint| != 64 || exists i | 0 <= i < 64 :: !IsHexDigit(fingerprint[i]) then Aborted(InvalidInput)
    else if key.environment !in db.environments then Aborted(NotFound)
    else Committed(db.(trust := db.trust[key := fingerprint]), 0)
  }

  function RevokeTrust(db: Tables, key: TrustKey): Outcome
  {
    Committed(db.(trust := db.trust - {key}), 0)
  }

  // --------------------------------------------------------- the upsert loop

  lemma UpsertStep(rows: Environments, list: seq<Environment>, i: nat)
    requires i < |list|
    ensures var current := Upserted(rows, list[..i]);
      && UpsertCount(rows, list[..i + 1]) == UpsertCount(rows, list[..i]) +
        (if UpToDate(current, list[i]) then 0 else 1)
      && Upserted(rows, list[..i + 1]) == if UpToDate(current, list[i]) then current
                                          else current[list[i].id := Listed(list[i])]
  {
    assert list[..i + 1][..i] == list[..i];
    var current := Upserted(rows, list[..i]);
    if UpToDate(current, list[i]) {
      assert current[list[i].id := Listed(list[i])] == current;
    }
  }

  /** The upsert loop with its row count; an unacceptable entry abandons it. */
  method UpsertEnvironments(rows: Environments, list: seq<Environment>)
    returns (result: Result<(Environments, nat), StoreError>)
    ensures result == if AllAcceptable(list) then Success((Upserted(rows, list), UpsertCount(rows, list)))
                      else Failure(InvalidInput)
  {
    var current, changed := rows, 0;
    for i := 0 to |list|
      invariant forall k :: 0 <= k < i ==> Acceptable(list[k])
      invariant current == Upserted(rows, list[..i]) && changed == UpsertCount(rows, list[..i])
    {
      if !Acceptable(list[i]) {
        return Failure(InvalidInput);
      }
      UpsertStep(rows, list, i);
      if !UpToDate(current, list[i]) {
        current := current[list[i].id := Listed(list[i])];
        changed := changed + 1;
      }
    }
    assert list[..|list|] == list;
    return Success((current, changed));
  }

  // ------------------------------------------------------------- consequences

  /** The last entry of the list with this id. */
  function LastContent(list: seq<Environment>, id: string): (content: EnvironmentContent)
    requires id in Ids(list)
    ensures Environment(id, content) in list
  {
    var init, last := list[..|list| - 1], list[|list| - 1];
    if last.id == id then last.content
    else
      assert forall environment :: environment in list ==> environment in init || environment == last;
      LastContent(init, id)
  }

  lemma {:induction false} UpsertedRows(rows: Environments, list: seq<Environment>)
    ensures Upserted(rows, list).Keys == rows.Keys + Ids(list)
    ensures forall id :: id in Ids(list) ==> Upserted(rows, list)[id] == EnvironmentRow(LastContent(list, id), true)
    ensures forall id :: id in rows && id !in Ids(list) ==> Upserted(rows, list)[id] == rows[id]
  {
    if list != [] {
      var init, last := list[..|list| - 1], list[|list| - 1];
      UpsertedRows(rows, init);
      assert list == init + [last];
      assert Ids(list) == Ids(init) + {last.id};
    }
  }

  /** The count is zero exactly when every entry is already stored as it is. */
  lemma {:induction false} UpsertIdle(rows: Environments, list: seq<Environment>)
    ensures UpsertCount(rows, list) == 0 <==> forall i :: 0 <= i < |list| ==> UpToDate(rows, list[i])
    ensures UpsertCount(rows, list) == 0 ==> Upserted(rows, list) == rows
  {
    if list != [] {
      var init, last := list[..|list| - 1], list[|list| - 1];
      UpsertIdle(rows, init);
      assert list == init + [last];
      assert forall i :: 0 <= i < |init| ==> list[i] == init[i];
      if UpsertCount(rows, init) == 0 && UpToDate(rows, last) {
        assert rows[last.id := Listed(last)] == rows;
      }
    }
  }

  /** Entries that share an id agree. Lists with distinct ids are consistent. */
  ghost predicate Consistent(list: seq<Environment>)
  {
    forall i, j :: 0 <= i < |list| && 0 <= j < |list| && list[i].id == list[j].id ==> list[i] == list[j]
  }

  /**
   After reconciling, the available Environments are exactly the listed ones with
   their last listed content, no row is gone, the others keep their content, and
   trust is left exactly where its Environment is listed.
   */
  lemma ReconcileExact(db: Tables, list: seq<Environment>)
    ensures var next := Reconciled(db, list);
      && next.environments.Keys == db.environments.Keys + Ids(list)
      && (forall id :: id in next.environments ==> (next.environments[id].available <==> id in Ids(list)))
      && (forall id :: id in Ids(list) ==> next.environments[id].content == LastContent(list, id))
      && (forall id :: id in db.environments && id !in Ids(list) ==>
            next.environments[id].content == db.environments[id].content)
      && (forall key :: key in next.trust <==> key in db.trust && key.environment in Ids(list))
      && (forall key :: key in next.trust ==> next.trust[key] == db.trust[key])
  {
    UpsertedRows(db.environments, list);
    RetiredRows(Upserted(db.environments, list), Ids(list));
  }

  lemma RetiredRows(rows: Environments, ids: set<string>)
    ensures Retired(rows, ids).Keys == rows.Keys
    ensures forall id :: id in rows ==>
      Retired(rows, ids)[id] == if id in ids then rows[id] else rows[id].(available := false)
  {}

  /** A zero count means that nothing changed. */
  lemma ReconcileIdle(db: Tables, list: seq<Environment>)
    requires ReconcileCount(db, list) == 0
    ensures Reconciled(db, list) == db
  {
    UpsertIdle(db.environments, list);
    var upserted := Upserted(db.environments, list);
    var stale, orphans := Stale(upserted, Ids(list)), Orphaned(db.trust, Ids(list));
    RetiredRows(upserted, Ids(list));
    forall id | id in upserted && id !in Ids(list) ensures !upserted[id].available {
      assert id !in stale;
    }
    assert Retired(upserted, Ids(list)) == db.environments;
    assert db.trust - orphans == db.trust;
  }

  /** What is stored after reconciling is up to date for an entry exactly when it is the last with its id. */
  lemma StoredLast(db: Tables, list: seq<Environment>, i: nat)
    requires i < |list|
    ensures list[i].id in Ids(list)
    ensures UpToDate(Reconciled(db, list).environments, list[i]) <==> list[i].content == LastContent(list, list[i].id)
  {
    assert list[i] in list;
    ReconcileExact(db, list);
  }

  lemma ConsistentLast(list: seq<Environment>)
    ensures Consistent(list) <==>
      forall i :: 0 <= i < |list| ==> list[i].id in Ids(list) && list[i].content == LastContent(list, list[i].id)
  {
    forall i | 0 <= i < |list|
      ensures list[i].id in Ids(list)
      ensures Consistent(list) ==> list[i].content == LastContent(list, list[i].id)
    {
      assert list[i] in list;
      var last := Environment(list[i].id, LastContent(list, list[i].id));
      var j :| 0 <= j < |list| && list[j] == last;
    }
  }

  /**
   Reconciling again with the same list counts no change exactly when entries of
   the list that share an id agree; the empty list and lists of distinct ids do.
   */
  lemma ReconcileAgain(db: Tables, list: seq<Environment>)
    ensures ReconcileCount(Reconciled(db, list), list) == 0 <==> Consistent(list)
  {
    var next := Reconciled(db, list);
    ReconcileExact(db, list);
    UpsertIdle(next.environments, list);
    ConsistentLast(list);
    forall i | 0 <= i < |list|
      ensures UpToDate(next.environments, list[i]) <==> list[i].content == LastContent(list, list[i].id)
    {
      StoredLast(db, list, i);
    }
    if Consistent(list) {
      assert Upserted(next.environments, list) == next.environments;
      assert Stale(next.environments, Ids(list)) == {};
      assert Orphaned(next.trust, Ids(list)) == {};
    }
  }

  /** So a second identical call reports zero and leaves the store, revision included, as it is. */
  lemma ReconcileTwice(db: Tables, list: seq<Environment>)
    requires AllAcceptable(list)
    ensures ReconcileEnvironments(db, list).Committed?
    ensures var next := ReconcileEnvironments(db, list).db;
      ReconcileEnvironments(next, list) == Committed(next, 0) <==> Consistent(list)
  {
    var next, plain := ReconcileEnvironments(db, list).db, Reconciled(db, list);
    assert next.environments == plain.environments && next.trust == plain.trust;
    assert ReconcileCount(next, list) == ReconcileCount(plain, list) || ReconcileCount(db, list) == 0;
    if ReconcileCount(db, list) == 0 {
      ReconcileIdle(db, list);
    }
    ReconcileAgain(db, list);
    if ReconcileCount(next, list) == 0 {
      ReconcileIdle(next, list);
    }
  }

  /** The rows that are new or different. */
  function ChangedRows(before: Environments, next: Environments): set<string>
  {
    set id | id in next && (id !in before || next[id] != before[id])
  }

  lemma ChangedStep(before: Environments, rows: Environments, id: string, row: EnvironmentRow)
    requires id in rows <==> id in before
    requires id in before ==> rows[id] == before[id] != row
    ensures ChangedRows(before, rows[id := row]) == ChangedRows(before, rows) + {id}
    ensures id !in ChangedRows(before, rows)
  {}

  lemma ConsistentInit(init: seq<Environment>, last: Environment)
    requires Consistent(init + [last])
    ensures Consistent(init)
    ensures forall environment :: environment in init && environment.id == last.id ==> environment == last
  {
    var list := init + [last];
    assert forall i :: 0 <= i < |init| ==> list[i] == init[i];
    assert list[|init|] == last;
  }

  /** An entry that repeats an earlier one of a consistent list finds itself stored. */
  lemma StoredAlready(rows: Environments, init: seq<Environment>, last: Environment)
    requires last.id in Ids(init)
    requires forall environment :: environment in init && environment.id == last.id ==> environment == last
    ensures UpToDate(Upserted(rows, init), last)
  {
    UpsertedRows(rows, init);
    assert Environment(last.id, LastContent(init, last.id)) in init;
  }

  /** For a consistent list the upserts count exactly the rows they insert or change. */
  lemma {:induction false} UpsertCounts(rows: Environments, list: seq<Environment>)
    requires Consistent(list)
    ensures UpsertCount(rows, list) == |ChangedRows(rows, Upserted(rows, list))|
  {
    if list == [] {
      assert ChangedRows(rows, rows) == {};
    } else {
      hide Consistent, ChangedRows;
      var init, last := list[..|list| - 1], list[|list| - 1];
      assert list == init + [last];
      ConsistentInit(init, last);
      UpsertCounts(rows, init);
      var stored := Upserted(rows, init);
      if UpToDate(stored, last) {
        assert stored[last.id := Listed(last)] == stored;
      } else {
        if last.id in Ids(init) {
          StoredAlready(rows, init, last);
        }
        UpsertedRows(rows, init);
        ChangedStep(rows, stored, last.id, Listed(last));
      }
    }
  }

  lemma RetiredChanges(before: Environments, rows: Environments, ids: set<string>)
    requires forall id :: id in rows && id !in ids ==> id in before && rows[id] == before[id]
    ensures ChangedRows(before, Retired(rows, ids)) == ChangedRows(before, rows) + Stale(rows, ids)
    ensures ChangedRows(before, rows) !! Stale(rows, ids)
  {}

  lemma OrphansGone(trust: map<TrustKey, string>, ids: set<string>)
    ensures trust.Keys - (trust - Orphaned(trust, ids)).Keys == Orphaned(trust, ids)
  {}

  /**
   For a consistent list the reply of a reconcile is the number of Environments that
   are new or different afterwards and of grants that are gone.
   */
  lemma ReconcileCounts(db: Tables, list: seq<Environment>)
    requires Consistent(list)
    ensures var next := Reconciled(db, list);
      ReconcileCount(db, list) ==
        |ChangedRows(db.environments, next.environments)| + |db.trust.Keys - next.trust.Keys|
  {
    hide Consistent, Upserted, UpsertCount, ChangedRows, Retired, Stale, Orphaned, Ids;
    UpsertCounts(db.environments, list);
    UpsertedRows(db.environments, list);
    RetiredChanges(db.environments, Upserted(db.environments, list), Ids(list));
    OrphansGone(db.trust, Ids(list));
  }

  /** Both catalog calls are refused exactly for a list with a blank id or name. */
  lemma CatalogAccepted(db: Tables, list: seq<Environment>)
    ensures var refused := exists i :: 0 <= i < |list| && (IsBlank(list[i].id) || IsBlank(list[i].content.name));
      && SyncEnvironments(db, list).Committed? == ReconcileEnvironments(db, list).Committed? == !refused
      && (refused ==>
            SyncEnvironments(db, list) == Aborted(InvalidInput) == ReconcileEnvironments(db, list))
  {
    hide IsBlank, Upserted, UpsertCount, Reconciled, ReconcileCount;
  }

  /**
   A sync makes the listed rows available with their last listed content and leaves
   every other row and all trust alone. The revision moves exactly when the count is
   not zero; for a consistent list it counts the rows that are new or different.
   */
  lemma SyncExact(db: Tables, list: seq<Environment>)
    requires SyncEnvironments(db, list).Committed?
    ensures var outcome := SyncEnvironments(db, list);
      var next := outcome.db;
      && next.environments.Keys == db.environments.Keys + Ids(list)
      && (forall id :: id in Ids(list) ==> next.environments[id] == EnvironmentRow(LastContent(list, id), true))
      && (forall id :: id in db.environments && id !in Ids(list) ==> next.environments[id] == db.environments[id])
      && next == db.(environments := next.environments,
                     revision := if outcome.reply == 0 then db.revision else db.revision + 1)
      && (Consistent(list) ==> outcome.reply == |ChangedRows(db.environments, next.environments)|)
  {
    hide AllAcceptable, Upserted, UpsertCount, LastContent, Consistent, ChangedRows, Ids, SyncEnvironments;
    SyncOutcome(db, list);
    UpsertedRows(db.environments, list);
    if Consistent(list) {
      UpsertCounts(db.environments, list);
    }
  }

  lemma SyncOutcome(db: Tables, list: seq<Environment>)
    requires SyncEnvironments(db, list).Committed?
    ensures var outcome := SyncEnvironments(db, list);
      && outcome.reply == UpsertCount(db.environments, list)
      && outcome.db.environments == Upserted(db.environments, list)
      && outcome.db == db.(environments := outcome.db.environments,
                           revision := if outcome.reply == 0 then db.revision else db.revision + 1)
  {
    hide AllAcceptable, Upserted, UpsertCount;
  }

  const NAMED_ONE: EnvironmentContent := EnvironmentContent("One", [], None, None, false)

  const NAMED_TWO: EnvironmentContent := EnvironmentContent("Two", [], None, None, false)

  /** Two entries share an id and differ: reconciling with them counts two changes, again and again. */
  lemma SameIdTwice(id: string)
    requires !IsBlank(id)
    ensures var list := [Environment(id, NAMED_ONE), Environment(id, NAMED_TWO)];
      var first := ReconcileEnvironments(EMPTY_STORE, list);
      && first.Committed?
      && var second := ReconcileEnvironments(first.db, list);
      && second.Committed? && second.reply == 2 && second.db == first.db.(revision := first.db.revision + 1)
  {
    var one, two := Environment(id, NAMED_ONE), Environment(id, NAMED_TWO);
    var list := [one, two];
    assert !IsWhitespace(NAMED_ONE.name[0]) && !IsWhitespace(NAMED_TWO.name[0]);
    assert one in list && Ids(list) == {id};
    assert NAMED_ONE.name[0] != NAMED_TWO.name[0];
    TwoUpserts(map[], one, two);
    var rows: Environments := map[id := Listed(two)];
    TwoUpserts(rows, one, two);
    hide IsBlank, Upserted, UpsertCount;
    assert Stale(rows, {id}) == {} && Retired(rows, {id}) == rows;
    assert EMPTY_STORE.trust - Orphaned(EMPTY_STORE.trust, {id}) == EMPTY_STORE.trust;
  }

  lemma TwoUpserts(rows: Environments, one: Environment, two: Environment)
    requires one.id == two.id && one != two
    ensures Upserted(rows, [one, two]) == rows[one.id := Listed(two)]
    ensures UpsertCount(rows, [one, two]) == (if UpToDate(rows, one) then 1 else 2)
  {
    assert [one, two][..1] == [one] && [one][..0] == [];
    assert Upserted(rows, [one]) == rows[one.id := Listed(one)];
    assert UpsertCount(rows, [one]) == if UpToDate(rows, one) then 0 else 1;
  }

  /** What a catalog call leaves alone. */
  ghost predicate CatalogEffect(db: Tables, next: Tables)
  {
    && next == db.(environments := next.environments, trust := next.trust, revision := next.revision)
    && RevisionStep(db, next)
  }

  lemma SyncKeeps(db: Tables, list: seq<Environment>)
    ensures CatalogEffect(db, After(db, SyncEnvironments(db, list)))
  {
    UpsertIdle(db.environments, list);
  }

  lemma ReconcileKeeps(db: Tables, list: seq<Environment>)
    ensures CatalogEffect(db, After(db, ReconcileEnvironments(db, list)))
  {
    hide AllAcceptable, ReconcileCount;
    if ReconcileCount(db, list) == 0 {
      ReconcileIdle(db, list);
    }
  }

  /**
   Trust is granted exactly for clean names, a fingerprint of 64 hexadecimal digits and a
   stored Environment, and stored as given. Revoking is never refused. Neither touches
   another grant or anything else.
   */
  lemma TrustExact(db: Tables, key: TrustKey, fingerprint: string)
    ensures var outcome := TrustServer(db, key, fingerprint);
      && (outcome.Committed? <==>
            && IsCleanText(key.plugin, 64) && IsCleanText(key.server, 128)
            && |fingerprint| == 64 && (forall i :: 0 <= i < |fingerprint| ==> IsHexDigit(fingerprint[i]))
            && key.environment in db.environments)
      && (outcome.Aborted? ==> outcome.error in {InvalidInput, NotFound})
      && (outcome == Aborted(NotFound) ==> key.environment !in db.environments)
      && (outcome == Aborted(InvalidInput) ==>
            || !IsCleanText(key.plugin, 64) || !IsCleanText(key.server, 128) || |fingerprint| != 64
            || exists i :: 0 <= i < |fingerprint| && !IsHexDigit(fingerprint[i]))
      && (outcome.Committed? ==>
            && var next := outcome.db;
            && next == db.(trust := next.trust) && next.trust.Keys == db.trust.Keys + {key}
            && next.trust[key] == fingerprint
            && forall other :: other in db.trust && other != key ==> next.trust[other] == db.trust[other])
    ensures var outcome := RevokeTrust(db, key);
      && outcome.Committed?
      && var next := outcome.db;
      && next == db.(trust := next.trust) && next.trust.Keys == db.trust.Keys - {key}
      && forall other :: other in next.trust ==> next.trust[other] == db.trust[other]
  {
    hide IsCleanText, IsHexDigit;
  }

  lemma TrustKeeps(db: Tables, key: TrustKey, fingerprint: string)
    ensures CatalogEffect(db, After(db, TrustServer(db, key, fingerprint)))
    ensures CatalogEffect(db, After(db, RevokeTrust(db, key)))
  {}
}
