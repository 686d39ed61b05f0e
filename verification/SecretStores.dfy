/**
 Secret storage: the plain in-memory store, and the Keychain store that keeps
 values and a metadata catalog as separate items and undoes half-done work.

 A Keychain call may fail without effect. When none does, the Keychain store answers
 as the in-memory one as long as every reference drawn first is unused; and whatever
 fails, a catalogued secret never loses its value.
 */
module SecretStores {
  import opened Wrappers
  import opened Bytes
  import opened Text

  type Reference = nat

  const MAX_SECRET_BYTES: nat := 64 * 1024
  const MAX_LABEL_BYTES: nat := 128
  const CANDIDATES: nat := 10

  /** What the generator of references draws for one create. */
  type Draw = c: seq<Reference> | |c| == CANDIDATES witness seq(CANDIDATES, _ => 0)

  type Secret = v: seq<Byte> | 1 <= |v| <= MAX_SECRET_BYTES witness [0]

  datatype Metadata = Metadata(reference: Reference, caption: string, createdAt: nat, updatedAt: nat)

  datatype SecretError = InvalidLabel | Missing | Backend

  type Catalog = map<Reference, Metadata>

  // -------------------------------------------------------- the simple store

  datatype Record = Record(metadata: Metadata, value: Secret)

  type Entries = map<Reference, Record>

  // ------------------------------------------------------------------- calls

  datatype SecretCall =
    | CreateSecret(caption: string, value: Secret, candidates: Draw, now: nat)
    | ReadSecret(reference: Reference)
    | ReplaceSecret(reference: Reference, value: Secret, now: nat)
    | DeleteSecret(reference: Reference)
    | ListSecrets

  datatype SecretReply = Stored(metadata: Metadata) | Opened(value: Secret) | Done | Listed(catalog: Catalog)
                       | Refused(error: SecretError)

  function AsStored(result: Result<Metadata, SecretError>): SecretReply
  {
    match result
    case Success(metadata) => Stored(metadata)
    case Failure(error) => Refused(error)
  }

  function AsOpened(result: Result<Secret, SecretError>): SecretReply
  {
    match result
    case Success(value) => Opened(value)
    case Failure(error) => Refused(error)
  }

  function AsDone(result: Result<Unit, SecretError>): SecretReply
  {
    match result
    case Success(_) => Done
    case Failure(error) => Refused(error)
  }

  function AsListed(result: Result<Catalog, SecretError>): SecretReply
  {
    match result
    case Success(catalog) => Listed(catalog)
    case Failure(error) => Refused(error)
  }

  /** The in-memory store takes the first reference it draws, used or not. */
  function MemoryStep(entries: Entries, call: SecretCall): (Entries, SecretReply)
  {
    match call
    case CreateSecret(caption, value, candidates, now) =>
      if !IsCleanText(caption, MAX_LABEL_BYTES) then (entries, Refused(InvalidLabel))
      else
        var metadata := Metadata(candidates[0], caption, now, now);
        (entries[candidates[0] := Record(metadata, value)], Stored(metadata))
    case ReadSecret(r) => (entries, if r in entries then Opened(entries[r].value) else Refused(Missing))
    case ReplaceSecret(r, value, now) =>
      if r !in entries then (entries, Refused(Missing))
      else (entries[r := Record(entries[r].metadata.(updatedAt := now), value)], Done)
    case DeleteSecret(r) => (entries - {r}, if r in entries then Done else Refused(Missing))
    case ListSecrets => (entries, Listed(map r | r in entries :: entries[r].metadata))
  }

  function ReadReply(entries: Entries, r: Reference): SecretReply
  {
    MemoryStep(entries, ReadSecret(r)).1
  }

  function ListReply(entries: Entries): SecretReply
  {
    MemoryStep(entries, ListSecrets).1
  }

  /** Reading and listing every other secret gives what it gave before. */
  ghost predicate OthersRead(before: Entries, next: Entries, r: Reference)
  {
    && (forall other :: other != r ==> ReadReply(next, other) == ReadReply(before, other))
    && ListReply(next).catalog - {r} == ListReply(before).catalog - {r}
  }

  /**
   What a call means for the calls after it: a created secret reads back with what it
   was created with, a replaced one with its new value under its old caption, a deleted
   one not at all, and no other secret is touched.
   */
  lemma MemoryLaws(entries: Entries, call: SecretCall)
    ensures var (next, reply) := MemoryStep(entries, call);
      match call
      case CreateSecret(caption, value, candidates, now) =>
        if !IsCleanText(caption, MAX_LABEL_BYTES) then next == entries && reply == Refused(InvalidLabel)
        else
          && reply.Stored? && OthersRead(entries, next, candidates[0])
          && var metadata := reply.metadata;
          && metadata.reference == candidates[0] && metadata.caption == caption
          && metadata.createdAt == now && metadata.updatedAt == now
          && ReadReply(next, metadata.reference) == Opened(value)
          && metadata.reference in ListReply(next).catalog && ListReply(next).catalog[metadata.reference] == metadata
      case ReplaceSecret(r, value, now) =>
        if r !in ListReply(entries).catalog then next == entries && reply == Refused(Missing)
        else
          && reply == Done && OthersRead(entries, next, r) && ReadReply(next, r) == Opened(value)
          && r in ListReply(next).catalog
          && var before, after := ListReply(entries).catalog[r], ListReply(next).catalog[r];
          && after.updatedAt == now && after == before.(updatedAt := now)
      case DeleteSecret(r) =>
        && OthersRead(entries, next, r) && ReadReply(next, r) == Refused(Missing) && r !in ListReply(next).catalog
        && reply == if r in ListReply(entries).catalog then Done else Refused(Missing)
      case ReadSecret(r) => next == entries && (reply == Refused(Missing) <==> r !in ListReply(entries).catalog)
      case ListSecrets => next == entries && reply.Listed?
  {
    hide IsCleanText;
  }

  class InMemorySecretStore {
    var entries: Entries

    constructor ()
      ensures entries == map[]
    {
      entries := map[];
    }

    method Create(caption: string, value: Secret, candidates: Draw, now: nat)
      returns (result: Result<Metadata, SecretError>)
      modifies this
      ensures result.Success? <==> IsCleanText(caption, MAX_LABEL_BYTES)
      ensures (entries, AsStored(result)) == MemoryStep(old(entries), CreateSecret(caption, value, candidates, now))
    {
      if !IsCleanText(caption, MAX_LABEL_BYTES) {
        return Failure(InvalidLabel);
      }
      var metadata := Metadata(candidates[0], caption, now, now);
      entries := entries[candidates[0] := Record(metadata, value)];
      return Success(metadata);
    }

    method Read(reference: Reference) returns (result: Result<Secret, SecretError>)
      ensures (entries, AsOpened(result)) == MemoryStep(entries, ReadSecret(reference))
    {
      result := if reference in entries then Success(entries[reference].value) else Failure(Missing);
    }

    method Replace(reference: Reference, value: Secret, now: nat) returns (result: Result<Unit, SecretError>)
      modifies this
      ensures (entries, AsDone(result)) == MemoryStep(old(entries), ReplaceSecret(reference, value, now))
    {
      if reference !in entries {
        return Failure(Missing);
      }
      var record := entries[reference];
      entries := entries[reference := Record(record.metadata.(updatedAt := now), value)];
      return Success(Unit);
    }

    method Delete(reference: Reference) returns (result: Result<Unit, SecretError>)
      modifies this
      ensures (entries, AsDone(result)) == MemoryStep(old(entries), DeleteSecret(reference))
    {
      if reference !in entries {
        assert entries - {reference} == entries;
        return Failure(Missing);
      }
      entries := entries - {reference};
      return Success(Unit);
    }

    method ListMetadata() returns (catalog: Catalog)
      ensures (entries, Listed(catalog)) == MemoryStep(entries, ListSecrets)
    {
      catalog := map r | r in entries :: entries[r].metadata;
    }

    method Perform(call: SecretCall) returns (reply: SecretReply)
      modifies this
      ensures (entries, reply) == MemoryStep(old(entries), call)
    {
      match call
      case CreateSecret(caption, value, candidates, now) =>
        var result := Create(caption, value, candidates, now);
        return AsStored(result);
      case ReadSecret(reference) =>
        var result := Read(reference);
        return AsOpened(result);
      case ReplaceSecret(reference, value, now) =>
        var result := Replace(reference, value, now);
        return AsDone(result);
      case DeleteSecret(reference) =>
        var result := Delete(reference);
        return AsDone(result);
      case ListSecrets =>
        var catalog := ListMetadata();
        return Listed(catalog);
    }
  }

  // ------------------------------------------------------------ the Keychain

  datatype Answer<T> = Found(value: T) | ItemNotFound | Fault

  /** The items of the Keychain at one moment. */
  datatype Items = Items(values: map<Reference, Secret>, catalog: Catalog)

  /** Every catalogued secret has a value, and the catalog is keyed by reference. */
  ghost predicate Covered(items: Items)
  {
    forall r :: r in items.catalog ==> r in items.values && items.catalog[r].reference == r
  }

  /** No value that was there is gone or different. */
  ghost predicate Preserves(before: Items, items: Items)
  {
    forall r :: r in before.values ==> r in items.values && items.values[r] == before.values[r]
  }

  /** Every value but that of one reference is as it was. */
  ghost predicate KeepsOthers(before: Items, items: Items, reference: Reference)
  {
    forall r :: r in before.values && r != reference ==> r in items.values && items.values[r] == before.values[r]
  }

  /** Every catalogued secret has the value it had. */
  ghost predicate ListedKept(before: Items, items: Items)
  {
    forall r :: r in items.catalog ==>
      r in before.values && r in items.values && items.values[r] == before.values[r]
  }

  /** The history went on from `past`, and every state since then is one of these. */
  ghost predicate Since(past: seq<Items>, history: seq<Items>, safe: iset<Items>)
  {
    past <= history && forall i :: |past| <= i < |history| ==> history[i] in safe
  }

  lemma SinceGrows(past: seq<Items>, history: seq<Items>, items: Items, safe: iset<Items>)
    requires Since(past, history, safe) && items in safe
    ensures Since(past, history + [items], safe)
  {}

  lemma SinceStart(past: seq<Items>, safe: iset<Items>)
    ensures Since(past, past, safe)
  {}

  /** While a secret is created no value is gone or different, and every catalogued secret has its value. */
  ghost function CreateSafe(before: Items): iset<Items>
  {
    iset items | Covered(items) && Preserves(before, items)
  }

  /** While a secret is replaced every secret has a value, and only the replaced one another. */
  ghost function ReplaceSafe(before: Items, reference: Reference): iset<Items>
  {
    iset items | Covered(items) && items.values.Keys == before.values.Keys && KeepsOthers(before, items, reference)
  }

  /** While a secret is deleted every catalogued secret has the value it had, and no other value is gone. */
  ghost function DeleteSafe(before: Items, reference: Reference): iset<Items>
  {
    iset items | Covered(items) && ListedKept(before, items) && KeepsOthers(before, items, reference)
  }

  ghost predicate NoOrphans(items: Items)
  {
    items.values.Keys == items.catalog.Keys
  }

  /** The in-memory entries that the items stand for. */
  ghost function EntriesOf(items: Items): Entries
    requires Covered(items)
  {
    map r | r in items.catalog :: Record(items.catalog[r], items.values[r])
  }

  /** Each call takes the next entry of the schedule: it works or fails without effect. */
  class Keychain {
    const schedule: nat -> bool
    var calls: nat
    var items: Items
    /** The items after every call that changed them. */
    ghost var history: seq<Items>

    constructor (schedule: nat -> bool)
      ensures this.schedule == schedule && calls == 0 && items == Items(map[], map[]) && history == []
    {
      this.schedule, calls := schedule, 0;
      items, history := Items(map[], map[]), [];
    }

    /** `n` calls from `from` on all work. */
    predicate AllWork(from: nat, n: nat)
    {
      forall call | from <= call < from + n :: schedule(call)
    }

    /** Three calls from `from` on work. */
    predicate Work3(from: nat)
    {
      schedule(from) && schedule(from + 1) && schedule(from + 2)
    }

    ghost predicate Reliable()
    {
      forall call: nat :: schedule(call)
    }

    method GetValue(reference: Reference) returns (answer: Answer<Secret>)
      modifies this`calls
      ensures calls == old(calls) + 1
      ensures answer ==
        if !schedule(old(calls)) then Fault
        else if reference in items.values then Found(items.values[reference])
        else ItemNotFound
    {
      calls := calls + 1;
      if !schedule(calls - 1) {
        return Fault;
      }
      answer := if reference in items.values then Found(items.values[reference]) else ItemNotFound;
    }

    method SetValue(reference: Reference, value: Secret) returns (done: bool)
      modifies this
      ensures calls == old(calls) + 1
      ensures done <==> schedule(old(calls))
      ensures done ==>
        items == old(items).(values := old(items).values[reference := value]) && history == old(history) + [items]
      ensures !done ==> items == old(items) && history == old(history)
    {
      calls := calls + 1;
      if !schedule(calls - 1) {
        return false;
      }
      items := items.(values := items.values[reference := value]);
      history := history + [items];
      return true;
    }

    method DeleteValue(reference: Reference) returns (answer: Answer<Unit>)
      modifies this
      ensures calls == old(calls) + 1
      ensures answer ==
        if !schedule(old(calls)) then Fault
        else if reference in old(items).values then Found(Unit)
        else ItemNotFound
      ensures answer.Found? ==>
        items == old(items).(values := old(items).values - {reference}) && history == old(history) + [items]
      ensures !answer.Found? ==> items == old(items) && history == old(history)
    {
      calls := calls + 1;
      if !schedule(calls - 1) {
        return Fault;
      }
      if reference !in items.values {
        return ItemNotFound;
      }
      items := items.(values := items.values - {reference});
      history := history + [items];
      return Found(Unit);
    }

    method GetCatalog() returns (answer: Answer<Catalog>)
      modifies this`calls
      ensures calls == old(calls) + 1
      ensures answer ==
        if !schedule(old(calls)) then Fault
        else if items.catalog == map[] then ItemNotFound
        else Found(items.catalog)
    {
      calls := calls + 1;
      if !schedule(calls - 1) {
        return Fault;
      }
      answer := if items.catalog == map[] then ItemNotFound else Found(items.catalog);
    }

    method SetCatalog(catalog: Catalog) returns (done: bool)
      modifies this
      ensures calls == old(calls) + 1
      ensures done <==> schedule(old(calls))
      ensures done ==> items == old(items).(catalog := catalog) && history == old(history) + [items]
      ensures !done ==> items == old(items) && history == old(history)
    {
      calls := calls + 1;
      if !schedule(calls - 1) {
        return false;
      }
      items := items.(catalog := catalog);
      history := history + [items];
      return true;
    }
  }

  // ------------------------------------------------------ fault-free sequences

  /** The first drawn reference that is not taken. */
  function FirstFree(taken: set<Reference>, candidates: seq<Reference>): (free: Option<Reference>)
    ensures free.None? <==> forall i :: 0 <= i < |candidates| ==> candidates[i] in taken
    ensures free.Some? ==> free.value in candidates && free.value !in taken
  {
    if candidates == [] then None
    else if candidates[0] !in taken then Some(candidates[0])
    else FirstFree(taken, candidates[1..])
  }

  /** A reference is taken by the catalog or by a value, catalogued or not. */
  function Taken(items: Items): set<Reference>
  {
    items.catalog.Keys + items.values.Keys
  }

  /** How many values are asked for until the first free reference is found: the catalog answers for its own. */
  function Asked(items: Items, candidates: seq<Reference>): nat
  {
    if candidates == [] then 0
    else if candidates[0] in items.catalog then Asked(items, candidates[1..])
    else if candidates[0] in items.values then 1 + Asked(items, candidates[1..])
    else 1
  }

  /** What a call leaves in the Keychain and answers when no backend call fails. */
  function KeychainStep(items: Items, call: SecretCall): (Items, SecretReply)
  {
    match call
    case CreateSecret(caption, value, candidates, now) =>
      if !IsCleanText(caption, MAX_LABEL_BYTES) then (items, Refused(InvalidLabel))
      else
        (match FirstFree(Taken(items), candidates)
         case None => (items, Refused(Backend))
         case Some(r) =>
           var metadata := Metadata(r, caption, now, now);
           (Items(items.values[r := value], items.catalog[r := metadata]), Stored(metadata)))
    case ReadSecret(r) => (items, if r in items.values then Opened(items.values[r]) else Refused(Missing))
    case ReplaceSecret(r, value, now) =>
      if r !in items.catalog then (items, Refused(Missing))
      else if r !in items.values then (items, Refused(Backend))
      else (Items(items.values[r := value], items.catalog[r := items.catalog[r].(updatedAt := now)]), Done)
    case DeleteSecret(r) =>
      if r !in items.catalog then (items, Refused(Missing))
      else (Items(items.values - {r}, items.catalog - {r}), Done)
    case ListSecrets => (items, Listed(items.catalog))
  }

  /** A create that gets as far as drawing draws an unused reference at once. */
  predicate DrawsFresh(entries: Entries, call: SecretCall)
  {
    call.CreateSecret? && IsCleanText(call.caption, MAX_LABEL_BYTES) ==> call.candidates[0] !in entries
  }

  /** A Keychain call answers as the in-memory store does exactly when its draw is fresh, and then does the same. */
  lemma StepSimulates(items: Items, call: SecretCall)
    requires Covered(items) && NoOrphans(items)
    ensures var (next, reply) := KeychainStep(items, call);
      var (entries, answer) := MemoryStep(EntriesOf(items), call);
      && Covered(next) && NoOrphans(next)
      && (reply == answer <==> DrawsFresh(EntriesOf(items), call))
      && (reply == answer ==> EntriesOf(next) == entries)
  {
    hide IsCleanText, FirstFree;
    match call
    case CreateSecret(_, _, _, _) => CreateSimulates(items, call);
    case ReadSecret(_) =>
    case ReplaceSecret(_, _, _) => ReplaceSimulates(items, call);
    case DeleteSecret(_) =>
    case ListSecrets =>
      assert (map r | r in EntriesOf(items) :: EntriesOf(items)[r].metadata) == items.catalog;
  }

  lemma CreateSimulates(items: Items, call: SecretCall)
    requires Covered(items) && NoOrphans(items) && call.CreateSecret?
    ensures var (next, reply) := KeychainStep(items, call);
      var (entries, answer) := MemoryStep(EntriesOf(items), call);
      && Covered(next) && NoOrphans(next)
      && (reply == answer <==> DrawsFresh(EntriesOf(items), call))
      && (reply == answer ==> EntriesOf(next) == entries)
  {
    hide IsCleanText;
    assert EntriesOf(items).Keys == Taken(items);
  }

  lemma ReplaceSimulates(items: Items, call: SecretCall)
    requires Covered(items) && NoOrphans(items) && call.ReplaceSecret?
    ensures var (next, reply) := KeychainStep(items, call);
      var (entries, answer) := MemoryStep(EntriesOf(items), call);
      Covered(next) && NoOrphans(next) && reply == answer && EntriesOf(next) == entries
  {
    hide IsCleanText, FirstFree, Taken;
    var next := KeychainStep(items, call).0;
    assert next.values.Keys == items.values.Keys && next.catalog.Keys == items.catalog.Keys;
  }

  /** The state after a sequence of calls, and the replies. */
  function KeychainRun(items: Items, calls: seq<SecretCall>): (run: (Items, seq<SecretReply>))
    ensures |run.1| == |calls|
  {
    if calls == [] then (items, [])
    else
      var (before, replies) := KeychainRun(items, calls[..|calls| - 1]);
      var (next, reply) := KeychainStep(before, calls[|calls| - 1]);
      (next, replies + [reply])
  }

  function MemoryRun(entries: Entries, calls: seq<SecretCall>): (run: (Entries, seq<SecretReply>))
    ensures |run.1| == |calls|
  {
    if calls == [] then (entries, [])
    else
      var (before, replies) := MemoryRun(entries, calls[..|calls| - 1]);
      var (next, reply) := MemoryStep(before, calls[|calls| - 1]);
      (next, replies + [reply])
  }

  predicate AllDrawsFresh(entries: Entries, calls: seq<SecretCall>)
  {
    calls == [] || (AllDrawsFresh(entries, calls[..|calls| - 1])
                    && DrawsFresh(MemoryRun(entries, calls[..|calls| - 1]).0, calls[|calls| - 1]))
  }

  /**
   Over any sequence of calls both stores give the same replies exactly when every
   draw is fresh; they then hold the same.
   */
  lemma {:induction false} RunSimulates(items: Items, calls: seq<SecretCall>)
    requires Covered(items) && NoOrphans(items)
    ensures var (end, replies) := KeychainRun(items, calls);
      var (entries, answers) := MemoryRun(EntriesOf(items), calls);
      && Covered(end) && NoOrphans(end)
      && (replies == answers <==> AllDrawsFresh(EntriesOf(items), calls))
      && (replies == answers ==> EntriesOf(end) == entries)
  {
    hide Covered, NoOrphans, EntriesOf, KeychainStep, MemoryStep, DrawsFresh;
    if calls != [] {
      var before := calls[..|calls| - 1];
      RunSimulates(items, before);
      StepSimulates(KeychainRun(items, before).0, calls[|calls| - 1]);
      var replies, answers := KeychainRun(items, calls).1, MemoryRun(EntriesOf(items), calls).1;
      assert replies[..|calls| - 1] == KeychainRun(items, before).1
        && answers[..|calls| - 1] == MemoryRun(EntriesOf(items), before).1;
    }
  }

  /** What the two writes of a create leave, in turn, and what withdrawing the value gives back. */
  lemma PutStates(items: Items, metadata: Metadata, value: Secret)
    requires Covered(items) && metadata.reference !in items.values
    ensures var r := metadata.reference;
      var stored := items.(values := items.values[r := value]);
      && stored in CreateSafe(items) && items in CreateSafe(items)
      && stored.(catalog := items.catalog[r := metadata]) in CreateSafe(items)
      && stored.(values := stored.values - {r}) == items
  {
    assert items.values[metadata.reference := value] - {metadata.reference} == items.values;
  }

  lemma FreeUntaken(items: Items, candidates: seq<Reference>)
    ensures var free := FirstFree(Taken(items), candidates);
      free.Some? ==> free.value !in items.values && free.value !in items.catalog
  {}

  lemma ReplaceStates(items: Items, reference: Reference, value: Secret, now: nat)
    requires Covered(items) && reference in items.catalog
    ensures reference in items.values
    ensures var stored := items.(values := items.values[reference := value]);
      var listed := stored.(catalog := items.catalog[reference := items.catalog[reference].(updatedAt := now)]);
      && stored in ReplaceSafe(items, reference) && listed in ReplaceSafe(items, reference)
      && items in ReplaceSafe(items, reference)
      && stored.(values := stored.values[reference := items.values[reference]]) == items
      && KeychainStep(items, ReplaceSecret(reference, value, now)) == (listed, Done)
  {
    hide FirstFree, IsCleanText;
    assert items.values[reference := value][reference := items.values[reference]] == items.values;
  }

  lemma DeleteStates(items: Items, reference: Reference)
    requires Covered(items) && reference in items.catalog
    ensures reference in items.values
    ensures var unlisted := items.(catalog := items.catalog - {reference});
      var deleted := unlisted.(values := items.values - {reference});
      && unlisted in DeleteSafe(items, reference) && deleted in DeleteSafe(items, reference)
      && items in DeleteSafe(items, reference)
      && unlisted.(catalog := unlisted.catalog[reference := items.catalog[reference]]) == items
      && KeychainStep(items, DeleteSecret(reference)) == (deleted, Done)
  {
    hide FirstFree, IsCleanText;
    assert (items.catalog - {reference})[reference := items.catalog[reference]] == items.catalog;
  }

  lemma CreateCovered(before: Items)
    ensures forall items :: items in CreateSafe(before) ==> Covered(items)
  {}

  lemma ReplaceCovered(before: Items, reference: Reference)
    ensures forall items :: items in ReplaceSafe(before, reference) ==> Covered(items)
  {}

  lemma DeleteCovered(before: Items, reference: Reference)
    ensures forall items :: items in DeleteSafe(before, reference) ==> Covered(items)
  {}

  class KeychainSecretStore {
    const keychain: Keychain

    ghost predicate Valid()
      reads this, keychain
    {
      Covered(keychain.items)
    }

    constructor (keychain: Keychain)
      requires Covered(keychain.items)
      ensures Valid() && this.keychain == keychain
    {
      this.keychain := keychain;
    }

    /** A missing catalog item is an empty catalog. */
    method LoadCatalog() returns (result: Result<Catalog, SecretError>)
      modifies keychain`calls
      ensures keychain.calls == old(keychain.calls) + 1
      ensures result ==
        if keychain.schedule(old(keychain.calls)) then Success(keychain.items.catalog) else Failure(Backend)
    {
      var answer := keychain.GetCatalog();
      match answer
      case Found(catalog) => return Success(catalog);
      case ItemNotFound => return Success(map[]);
      case Fault => return Failure(Backend);
    }

    /** The first of ten drawn references that neither the catalog nor a value uses. */
    method ChooseReference(catalog: Catalog, candidates: Draw)
      returns (result: Result<Reference, SecretError>)
      requires catalog == keychain.items.catalog
      modifies keychain`calls
      ensures var free := FirstFree(Taken(keychain.items), candidates);
        result == if keychain.AllWork(old(keychain.calls), Asked(keychain.items, candidates)) && free.Some?
                  then Success(free.value) else Failure(Backend)
      ensures result.Success? ==> keychain.calls == old(keychain.calls) + Asked(keychain.items, candidates)
    {
      for i := 0 to CANDIDATES
        invariant old(keychain.calls) <= keychain.calls
        invariant keychain.AllWork(old(keychain.calls), keychain.calls - old(keychain.calls))
        invariant FirstFree(Taken(keychain.items), candidates) == FirstFree(Taken(keychain.items), candidates[i..])
        invariant Asked(keychain.items, candidates) ==
          keychain.calls - old(keychain.calls) + Asked(keychain.items, candidates[i..])
      {
        if candidates[i] !in catalog {
          var answer := keychain.GetValue(candidates[i]);
          if answer.ItemNotFound? {
            return Success(candidates[i]);
          }
          if answer.Fault? {
            return Failure(Backend);
          }
        }
      }
      return Failure(Backend);
    }

    /**
     Store the value, then the catalog; withdraw the value if the catalog fails. The
     new value stays behind exactly when neither works.
     */
    method Put(metadata: Metadata, value: Secret, catalog: Catalog) returns (done: bool)
      requires Valid() && catalog == keychain.items.catalog
      requires metadata.reference !in keychain.items.values
      modifies keychain
      ensures Since(old(keychain.history), keychain.history, CreateSafe(old(keychain.items)))
      ensures keychain.items in CreateSafe(old(keychain.items))
      ensures var before, r, at := old(keychain.items), metadata.reference, old(keychain.calls);
        && (done <==> keychain.schedule(at) && keychain.schedule(at + 1))
        && keychain.items ==
             if done then Items(before.values[r := value], before.catalog[r := metadata])
             else if keychain.schedule(at) && !keychain.schedule(at + 2) then
               before.(values := before.values[r := value])
             else before
    {
      ghost var safe := CreateSafe(keychain.items);
      SinceStart(keychain.history, safe);
      PutStates(keychain.items, metadata, value);
      hide FirstFree, Asked, IsCleanText, Covered, Taken, Since, CreateSafe;
      done := keychain.SetValue(metadata.reference, value);
      if !done {
        return false;
      }
      SinceGrows(old(keychain.history), old(keychain.history), keychain.items, safe);
      ghost var past := keychain.history;
      done := keychain.SetCatalog(catalog[metadata.reference := metadata]);
      SinceGrows(old(keychain.history), past, keychain.items, safe);
      if !done {
        var _ := keychain.DeleteValue(metadata.reference);
        SinceGrows(old(keychain.history), past, keychain.items, safe);
      }
    }

    /**
     Draw an unused reference, then store. No existing value is ever overwritten,
     orphans included, and at no moment is a catalogued secret without its value. A
     failure leaves the new value behind exactly when the catalog could not be written
     and the value not be withdrawn.
     */
    method Create(caption: string, value: Secret, candidates: Draw, now: nat)
      returns (result: Result<Metadata, SecretError>)
      requires Valid()
      modifies keychain
      ensures Valid()
      ensures Since(old(keychain.history), keychain.history, CreateSafe(old(keychain.items)))
      ensures keychain.items in CreateSafe(old(keychain.items))
      ensures result == Failure(InvalidLabel) <==> !IsCleanText(caption, MAX_LABEL_BYTES)
      ensures result.Failure? ==> result.error in {InvalidLabel, Backend}
      ensures var free := FirstFree(Taken(old(keychain.items)), candidates);
        var first, asked := old(keychain.calls) + 1, Asked(old(keychain.items), candidates);
        var drawn := IsCleanText(caption, MAX_LABEL_BYTES) && free.Some? && keychain.schedule(first - 1)
                     && keychain.AllWork(first, asked) && keychain.schedule(first + asked);
        && (result.Success? <==> drawn && keychain.schedule(first + asked + 1))
        && (result.Failure? ==>
              keychain.items ==
                if drawn && !keychain.schedule(first + asked + 1) && !keychain.schedule(first + asked + 2)
                then old(keychain.items).(values := old(keychain.items).values[free.value := value])
                else old(keychain.items))
      ensures result.Success? || keychain.Reliable() ==>
        (keychain.items, AsStored(result)) ==
          KeychainStep(old(keychain.items), CreateSecret(caption, value, candidates, now))
    {
      SinceStart(keychain.history, CreateSafe(keychain.items));
      assert keychain.items in CreateSafe(keychain.items);
      CreateCovered(keychain.items);
      assert keychain.Reliable() ==> keychain.AllWork(keychain.calls + 1, Asked(keychain.items, candidates));
      hide FirstFree, Asked, IsCleanText, Covered, Since, CreateSafe, Keychain.AllWork;
      if !IsCleanText(caption, MAX_LABEL_BYTES) {
        return Failure(InvalidLabel);
      }
      var loaded := LoadCatalog();
      if loaded.Failure? {
        return Failure(Backend);
      }
      var chosen := ChooseReference(loaded.value, candidates);
      if chosen.Failure? {
        return Failure(Backend);
      }
      FreeUntaken(keychain.items, candidates);
      var metadata := Metadata(chosen.value, caption, now, now);
      var done := Put(metadata, value, loaded.value);
      if !done {
        return Failure(Backend);
      }
      return Success(metadata);
    }

    /**
     Reads the value item and does not look at the catalog. So without faults a
     read agrees with the in-memory store for every reference but an orphaned one.
     */
    method Read(reference: Reference) returns (result: Result<Secret, SecretError>)
      requires Valid()
      modifies keychain`calls
      ensures result ==
        if !keychain.schedule(old(keychain.calls)) then Failure(Backend)
        else if reference in keychain.items.values then Success(keychain.items.values[reference])
        else Failure(Missing)
      ensures keychain.schedule(old(keychain.calls)) ==>
        (AsOpened(result) == MemoryStep(EntriesOf(keychain.items), ReadSecret(reference)).1 <==>
          !(reference in keychain.items.values && reference !in keychain.items.catalog))
    {
      var answer := keychain.GetValue(reference);
      match answer
      case Found(value) => return Success(value);
      case ItemNotFound => return Failure(Missing);
      case Fault => return Failure(Backend);
    }

    /**
     Store the new value, then the catalog; put the old value back if the catalog
     fails. A failure leaves the new value exactly when the catalog could not be
     written and the old value not be put back.
     */
    method Replace(reference: Reference, value: Secret, now: nat) returns (result: Result<Unit, SecretError>)
      requires Valid()
      modifies keychain
      ensures Valid()
      ensures Since(old(keychain.history), keychain.history, ReplaceSafe(old(keychain.items), reference))
      ensures var start, listed := old(keychain.calls), reference in old(keychain.items).catalog;
        && (result.Success? <==> listed && keychain.Work3(start) && keychain.schedule(start + 3))
        && (result == Failure(Missing) <==> !listed && keychain.schedule(start))
        && (result.Failure? && result.error != Missing ==> result.error == Backend)
        && (result.Failure? ==>
              keychain.items ==
                if listed && keychain.Work3(start) && !keychain.schedule(start + 3)
                  && !keychain.schedule(start + 4)
                then old(keychain.items).(values := old(keychain.items).values[reference := value])
                else old(keychain.items))
      ensures result.Success? || keychain.Reliable() ==>
        (keychain.items, AsDone(result)) == KeychainStep(old(keychain.items), ReplaceSecret(reference, value, now))
    {
      ghost var safe := ReplaceSafe(keychain.items, reference);
      SinceStart(keychain.history, safe);
      ReplaceCovered(keychain.items, reference);
      hide FirstFree, Taken, IsCleanText, Covered, Since, ReplaceSafe;
      var loaded := LoadCatalog();
      if loaded.Failure? {
        return Failure(Backend);
      }
      if reference !in loaded.value {
        return Failure(Missing);
      }
      ReplaceStates(keychain.items, reference, value, now);
      var previous := keychain.GetValue(reference);
      if !previous.Found? {
        return Failure(Backend);
      }
      var stored := keychain.SetValue(reference, value);
      if !stored {
        return Failure(Backend);
      }
      SinceGrows(old(keychain.history), old(keychain.history), keychain.items, safe);
      ghost var past := keychain.history;
      var listed := keychain.SetCatalog(loaded.value[reference := loaded.value[reference].(updatedAt := now)]);
      SinceGrows(old(keychain.history), past, keychain.items, safe);
      if !listed {
        var _ := keychain.SetValue(reference, previous.value);
        SinceGrows(old(keychain.history), past, keychain.items, safe);
        return Failure(Backend);
      }
      return Success(Unit);
    }

    /**
     Remove the catalog entry, then the value; restore the entry if the value stays.
     A failure orphans the value exactly when it could not be deleted and the entry
     not be restored.
     */
    method Delete(reference: Reference) returns (result: Result<Unit, SecretError>)
      requires Valid()
      modifies keychain
      ensures Valid()
      ensures Since(old(keychain.history), keychain.history, DeleteSafe(old(keychain.items), reference))
      ensures var start, listed := old(keychain.calls), reference in old(keychain.items).catalog;
        && (result.Success? <==> listed && keychain.Work3(start))
        && (result == Failure(Missing) <==> !listed && keychain.schedule(start))
        && (result.Failure? && result.error != Missing ==> result.error == Backend)
        && (result.Failure? ==>
              keychain.items ==
                if listed && keychain.schedule(start) && keychain.schedule(start + 1) && !keychain.schedule(start + 2)
                  && !keychain.schedule(start + 3)
                then old(keychain.items).(catalog := old(keychain.items).catalog - {reference})
                else old(keychain.items))
      ensures result.Success? || keychain.Reliable() ==>
        (keychain.items, AsDone(result)) == KeychainStep(old(keychain.items), DeleteSecret(reference))
    {
      ghost var safe := DeleteSafe(keychain.items, reference);
      SinceStart(keychain.history, safe);
      DeleteCovered(keychain.items, reference);
      hide FirstFree, Taken, IsCleanText, Covered, Since, DeleteSafe;
      var loaded := LoadCatalog();
      if loaded.Failure? {
        return Failure(Backend);
      }
      var catalog := loaded.value;
      if reference !in catalog {
        return Failure(Missing);
      }
      DeleteStates(keychain.items, reference);
      var listed := keychain.SetCatalog(catalog - {reference});
      if !listed {
        return Failure(Backend);
      }
      SinceGrows(old(keychain.history), old(keychain.history), keychain.items, safe);
      ghost var past := keychain.history;
      var answer := keychain.DeleteValue(reference);
      SinceGrows(old(keychain.history), past, keychain.items, safe);
      if answer.Fault? {
        var _ := keychain.SetCatalog((catalog - {reference})[reference := catalog[reference]]);
        SinceGrows(old(keychain.history), past, keychain.items, safe);
        return Failure(Backend);
      }
      return Success(Unit);
    }

    method ListMetadata() returns (result: Result<Catalog, SecretError>)
      requires Valid()
      modifies keychain`calls
      ensures result ==
        if keychain.schedule(old(keychain.calls)) then Success(keychain.items.catalog) else Failure(Backend)
    {
      result := LoadCatalog();
    }

    method Perform(call: SecretCall) returns (reply: SecretReply)
      requires Valid()
      modifies keychain
      ensures Valid()
      ensures keychain.Reliable() ==> (keychain.items, reply) == KeychainStep(old(keychain.items), call)
    {
      match call
      case CreateSecret(caption, value, candidates, now) =>
        var result := Create(caption, value, candidates, now);
        return AsStored(result);
      case ReadSecret(reference) =>
        var result := Read(reference);
        return AsOpened(result);
      case ReplaceSecret(reference, value, now) =>
        var result := Replace(reference, value, now);
        return AsDone(result);
      case DeleteSecret(reference) =>
        var result := Delete(reference);
        return AsDone(result);
      case ListSecrets =>
        var result := ListMetadata();
        return AsListed(result);
    }
  }

  /**
   Both stores make the same calls. Without faults, and from a Keychain without
   orphans that stands for the entries in memory, they give the same replies exactly
   when every draw is fresh, and then end standing for the same entries.
   */
  method RunBoth(store: KeychainSecretStore, memory: InMemorySecretStore, calls: seq<SecretCall>)
    returns (replies: seq<SecretReply>, answers: seq<SecretReply>)
    requires store.Valid() && store.keychain.Reliable() && NoOrphans(store.keychain.items)
    requires memory.entries == EntriesOf(store.keychain.items)
    modifies store.keychain, memory
    ensures store.Valid() && NoOrphans(store.keychain.items)
    ensures replies == answers <==> AllDrawsFresh(old(memory.entries), calls)
    ensures replies == answers ==> memory.entries == EntriesOf(store.keychain.items)
  {
    replies, answers := [], [];
    for i := 0 to |calls|
      invariant store.Valid()
      invariant (store.keychain.items, replies) == KeychainRun(old(store.keychain.items), calls[..i])
      invariant (memory.entries, answers) == MemoryRun(old(memory.entries), calls[..i])
    {
      assert calls[..i + 1][..i] == calls[..i];
      var reply := store.Perform(calls[i]);
      var answer := memory.Perform(calls[i]);
      replies, answers := replies + [reply], answers + [answer];
    }
    assert calls[..|calls|] == calls;
    RunSimulates(old(store.keychain.items), calls);
  }
}
