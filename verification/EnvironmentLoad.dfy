/**
 Loading the catalog of Environments: what the root directory holds, what a load
 finds in it, and when its limits end the load.
 */
module EnvironmentLoad {
  import opened Wrappers
  import opened EnvironmentIds

  /** A descriptor; the sealed columns stay encoded. */
  datatype Descriptor = Descriptor(id: string, configuration: string, permissions: string, harnesses: string)

  /** A complete encoding, or bytes that do not decode: a torn prefix or foreign text of some length. */
  datatype Content = Encoded(descriptor: Descriptor) | Undecodable(length: nat)

  datatype Entry = Directory(descriptor: Option<Content>) | PlainFile(content: Content)

  /** The names under the root and what they are. */
  type Root = map<string, Entry>

  datatype CatalogError = NotFound | Duplicate | InvalidId | InvalidDescriptor | LimitExceeded | Io

  datatype Limits = Limits(maxEnvironments: nat, maxBytes: nat, maxTotalBytes: nat)

  /** What the rest of the program decides about descriptors: validity, encoded size, known harnesses. */
  datatype Rules = Rules(valid: Descriptor -> bool, size: Descriptor -> nat, supported: set<string>)

  type Environments = map<string, Descriptor>

  // --------------------------------------------------------------------- load

  function ContentSize(rules: Rules, content: Content): nat
  {
    match content
    case Encoded(descriptor) => rules.size(descriptor)
    case Undecodable(length) => length
  }

  /** A file is either an entry of the root itself or the descriptor inside a directory. */
  function FileEntry(inDirectory: bool, content: Content): Entry
  {
    if inDirectory then Directory(Some(content)) else PlainFile(content)
  }

  /** The directories that could be Environments; every other entry is skipped. */
  predicate IsCandidate(root: Root, name: string)
  {
    name in root && root[name].Directory? && IsEnvironmentId(name)
  }

  predicate IsLoadable(rules: Rules, root: Root, name: string)
  {
    && IsCandidate(root, name)
    && root[name].descriptor.Some?
    && root[name].descriptor.value.Encoded?
    && var descriptor := root[name].descriptor.value.descriptor;
       rules.valid(descriptor) && descriptor.id == name && descriptor.harnesses in rules.supported
  }

  /** The Environments a complete load finds. */
  function Loadable(rules: Rules, root: Root): Environments
  {
    map name | name in root && IsLoadable(rules, root, name) :: root[name].descriptor.value.descriptor
  }

  /** The first reason for which a descriptor that is read does not become an Environment. */
  datatype Refusal = NotDecoded | NotValid | OtherId | UnknownHarness

  function ReasonFor(rules: Rules, name: string, content: Content): Refusal
  {
    match content
    case Undecodable(_) => NotDecoded
    case Encoded(descriptor) =>
      if !rules.valid(descriptor) then NotValid
      else if descriptor.id != name then OtherId
      else UnknownHarness
  }

  /** The descriptors a load reads and refuses, one by one. */
  function Refusals(rules: Rules, root: Root): map<string, Refusal>
  {
    map name | name in Weights(rules, root) && !IsLoadable(rules, root, name) ::
      ReasonFor(rules, name, root[name].descriptor.value)
  }

  function Candidates(root: Root): set<string>
  {
    set name | name in root && IsCandidate(root, name)
  }

  /** The sizes of the descriptors a load would read. */
  function Weights(rules: Rules, root: Root): map<string, nat>
  {
    map name | name in root && IsCandidate(root, name) && root[name].descriptor.Some? ::
      ContentSize(rules, root[name].descriptor.value)
  }

  ghost function Weight(weights: map<string, nat>): nat
  {
    if weights == map[] then 0
    else
      var name :| name in weights;
      weights[name] + Weight(weights - {name})
  }

  lemma {:induction false} WeightRemove(weights: map<string, nat>, name: string)
    requires name in weights
    ensures Weight(weights) == weights[name] + Weight(weights - {name})
    decreases |weights|
  {
    var first :| first in weights && Weight(weights) == weights[first] + Weight(weights - {first});
    if first != name {
      WeightRemove(weights - {first}, name);
      WeightRemove(weights - {name}, first);
      assert weights - {first} - {name} == weights - {name} - {first};
    }
  }

  lemma {:induction false} WeightMonotone(less: map<string, nat>, more: map<string, nat>)
    requires forall name :: name in less ==> name in more && less[name] <= more[name]
    ensures Weight(less) <= Weight(more)
    decreases |less|
  {
    if less != map[] {
      var name :| name in less;
      WeightRemove(less, name);
      WeightRemove(more, name);
      WeightMonotone(less - {name}, more - {name});
    }
  }

  ghost predicate WithinLimits(rules: Rules, limits: Limits, root: Root)
  {
    && |Candidates(root)| <= limits.maxEnvironments
    && (forall name :: name in Weights(rules, root) ==> Weights(rules, root)[name] <= limits.maxBytes)
    && Weight(Weights(rules, root)) <= limits.maxTotalBytes
  }

  ghost predicate IsListing(names: seq<string>, root: Root)
  {
    && (forall i, j :: 0 <= i < j < |names| ==> names[i] != names[j])
    && (forall name :: name in names <==> name in root)
  }

  function Restricted<T>(m: map<string, T>, names: set<string>): map<string, T>
  {
    map name | name in m && name in names :: m[name]
  }

  lemma RestrictedAppend<T>(m: map<string, T>, names: set<string>, name: string)
    requires name !in names
    ensures name !in Restricted(m, names)
    ensures Restricted(m, names + {name}) ==
      if name in m then Restricted(m, names)[name := m[name]] else Restricted(m, names)
  {}

  lemma WeightAppend(weights: map<string, nat>, names: set<string>, name: string)
    requires name !in names
    ensures Weight(Restricted(weights, names + {name})) ==
      Weight(Restricted(weights, names)) + (if name in weights then weights[name] else 0)
    ensures Weight(Restricted(weights, names + {name})) <= Weight(weights)
  {
    RestrictedAppend(weights, names, name);
    if name in weights {
      var more := Restricted(weights, names + {name});
      assert more - {name} == Restricted(weights, names);
      WeightRemove(more, name);
    }
    WeightMonotone(Restricted(weights, names + {name}), weights);
  }

  /**
   What the load loop knows after the names `seen`, of descriptor sizes `weights`
   and the map `loadable` to find: what it loaded, rejected and counted so far.
   */
  ghost predicate Loaded<T>(weights: map<string, nat>, loadable: map<string, T>, refused: map<string, Refusal>,
                            limits: Limits, seen: set<string>, environments: map<string, T>,
                            rejected: map<string, Refusal>, totalBytes: nat)
  {
    && environments == Restricted(loadable, seen)
    && |environments| <= limits.maxEnvironments
    && rejected == Restricted(refused, seen)
    && (forall name :: name in weights && name in seen ==> weights[name] <= limits.maxBytes)
    && totalBytes == Weight(Restricted(weights, seen)) <= limits.maxTotalBytes
  }

  /** An entry without a descriptor to read changes nothing. */
  lemma LoadedSkip<T>(weights: map<string, nat>, loadable: map<string, T>, refused: map<string, Refusal>,
                      limits: Limits, seen: set<string>, name: string, environments: map<string, T>,
                      rejected: map<string, Refusal>, totalBytes: nat)
    requires Loaded(weights, loadable, refused, limits, seen, environments, rejected, totalBytes)
    requires name !in seen && name !in weights && name !in loadable && name !in refused
    ensures Loaded(weights, loadable, refused, limits, seen + {name}, environments, rejected, totalBytes)
  {
    hide Restricted, Weight;
    RestrictedAppend(loadable, seen, name);
    RestrictedAppend(refused, seen, name);
    WeightAppend(weights, seen, name);
  }

  lemma LoadedRead<T>(weights: map<string, nat>, loadable: map<string, T>, refused: map<string, Refusal>,
                      limits: Limits, seen: set<string>, name: string, environments: map<string, T>,
                      rejected: map<string, Refusal>, totalBytes: nat)
    requires Loaded(weights, loadable, refused, limits, seen, environments, rejected, totalBytes)
    requires name !in seen && name in weights && |environments| < limits.maxEnvironments
    requires weights[name] <= limits.maxBytes && totalBytes + weights[name] <= limits.maxTotalBytes
    requires name in loadable <==> name !in refused
    ensures name in loadable ==>
      Loaded(weights, loadable, refused, limits, seen + {name}, environments[name := loadable[name]], rejected,
             totalBytes + weights[name])
    ensures name !in loadable ==>
      Loaded(weights, loadable, refused, limits, seen + {name}, environments, rejected[name := refused[name]],
             totalBytes + weights[name])
  {
    hide Restricted, Weight;
    RestrictedAppend(loadable, seen, name);
    RestrictedAppend(refused, seen, name);
    WeightAppend(weights, seen, name);
  }

  /** A candidate beyond the last room, too large, or too large together with what was read. */
  predicate EndsLoad(rules: Rules, limits: Limits, root: Root, name: string, loaded: nat, totalBytes: nat)
  {
    && IsCandidate(root, name)
    && (|| loaded >= limits.maxEnvironments
        || (name in Weights(rules, root)
            && (|| Weights(rules, root)[name] > limits.maxBytes
                || totalBytes + Weights(rules, root)[name] > limits.maxTotalBytes)))
  }

  /** The Environments loaded before the entry at `i` is looked at. */
  function LoadedBefore(rules: Rules, root: Root, names: seq<string>, i: nat): set<string>
    requires i <= |names|
  {
    set name | name in names[..i] && IsLoadable(rules, root, name)
  }

  predicate RoomFor(rules: Rules, limits: Limits, root: Root, names: seq<string>, i: nat)
    requires i < |names|
  {
    IsCandidate(root, names[i]) ==> |LoadedBefore(rules, root, names, i)| < limits.maxEnvironments
  }

  /**
   When a load succeeds: no candidate, loadable or not, follows the last Environment
   there is room for, and the descriptors to read keep both size limits.
   */
  ghost predicate LoadSucceeds(rules: Rules, limits: Limits, root: Root, names: seq<string>)
  {
    && (forall i :: 0 <= i < |names| ==> RoomFor(rules, limits, root, names, i))
    && (forall name :: name in Weights(rules, root) ==> Weights(rules, root)[name] <= limits.maxBytes)
    && Weight(Weights(rules, root)) <= limits.maxTotalBytes
  }

  lemma LoadedCount(rules: Rules, limits: Limits, root: Root, names: seq<string>, i: nat, seen: set<string>,
                    environments: Environments, rejected: map<string, Refusal>, totalBytes: nat)
    requires i < |names| && forall name :: name in seen <==> name in names[..i]
    requires Loaded(Weights(rules, root), Loadable(rules, root), Refusals(rules, root), limits, seen, environments,
                    rejected, totalBytes)
    ensures |environments| == |LoadedBefore(rules, root, names, i)|
    ensures !EndsLoad(rules, limits, root, names[i], |environments|, totalBytes) ==>
      RoomFor(rules, limits, root, names, i)
  {
    hide Weights, IsEnvironmentId, Weight, IsCandidate, IsLoadable;
    forall name ensures name in environments <==> name in LoadedBefore(rules, root, names, i) {
      assert name in Loadable(rules, root) ==> IsLoadable(rules, root, name) && name in root;
      LoadableKnown(rules, root, name);
    }
    assert environments.Keys == LoadedBefore(rules, root, names, i);
    assert |environments.Keys| == |environments|;
  }

  lemma LoadableKnown(rules: Rules, root: Root, name: string)
    ensures name in Loadable(rules, root) <==> IsLoadable(rules, root, name)
  {}

  /** An entry that ends the load shows that no load of the root can succeed in this order. */
  lemma LoadedRefused(rules: Rules, limits: Limits, root: Root, names: seq<string>, i: nat, seen: set<string>,
                      environments: Environments, rejected: map<string, Refusal>, totalBytes: nat)
    requires i < |names| && (forall name :: name in seen <==> name in names[..i]) && names[i] !in seen
    requires Loaded(Weights(rules, root), Loadable(rules, root), Refusals(rules, root), limits, seen, environments,
                    rejected, totalBytes)
    requires EndsLoad(rules, limits, root, names[i], |environments|, totalBytes)
    ensures !LoadSucceeds(rules, limits, root, names)
  {
    LoadedCount(rules, limits, root, names, i, seen, environments, rejected, totalBytes);
    WeightAppend(Weights(rules, root), seen, names[i]);
    hide Weight, Weights, IsCandidate, IsLoadable, LoadedBefore, Restricted;
    assert RoomFor(rules, limits, root, names, i) ==> |environments| < limits.maxEnvironments;
  }

  /** Within the limits a load succeeds, and only then when every candidate is loadable. */
  lemma LoadSucceedsWithin(rules: Rules, limits: Limits, root: Root, names: seq<string>)
    requires IsListing(names, root)
    ensures WithinLimits(rules, limits, root) ==> LoadSucceeds(rules, limits, root, names)
    ensures LoadSucceeds(rules, limits, root, names) && Loadable(rules, root).Keys == Candidates(root) ==>
      WithinLimits(rules, limits, root)
  {
    hide IsEnvironmentId, Weight, Weights, IsLoadable;
    forall i | 0 <= i < |names| && IsCandidate(root, names[i])
      ensures |LoadedBefore(rules, root, names, i)| < |Candidates(root)|
    {
      BeforeCandidate(rules, root, names, i);
    }
    hide Candidates, IsCandidate, LoadedBefore, Loadable;
    if LoadSucceeds(rules, limits, root, names) && Loadable(rules, root).Keys == Candidates(root) {
      CandidatesFit(rules, limits, root, names, |names|);
      AllLoaded(rules, root, names);
    }
  }

  lemma BeforeCandidate(rules: Rules, root: Root, names: seq<string>, i: nat)
    requires IsListing(names, root) && i < |names| && IsCandidate(root, names[i])
    ensures |LoadedBefore(rules, root, names, i)| < |Candidates(root)|
  {
    hide IsEnvironmentId;
    var before := LoadedBefore(rules, root, names, i);
    assert names[i] !in names[..i];
    Subset(before + {names[i]}, Candidates(root));
    assert |before + {names[i]}| == |before| + 1;
  }

  lemma AllLoaded(rules: Rules, root: Root, names: seq<string>)
    requires IsListing(names, root) && Loadable(rules, root).Keys == Candidates(root)
    ensures LoadedBefore(rules, root, names, |names|) == Candidates(root)
  {
    hide IsEnvironmentId, IsLoadable, IsCandidate;
    assert names[..|names|] == names;
    forall name ensures name in LoadedBefore(rules, root, names, |names|) <==> name in Candidates(root) {
      LoadableKnown(rules, root, name);
    }
  }

  lemma {:induction false} CandidatesFit(rules: Rules, limits: Limits, root: Root, names: seq<string>, i: nat)
    requires i <= |names| && Loadable(rules, root).Keys == Candidates(root)
    requires forall k :: 0 <= k < |names| ==> RoomFor(rules, limits, root, names, k)
    ensures |LoadedBefore(rules, root, names, i)| <= limits.maxEnvironments
  {
    if i == 0 {
      assert LoadedBefore(rules, root, names, 0) == {};
    } else {
      CandidatesFit(rules, limits, root, names, i - 1);
      assert RoomFor(rules, limits, root, names, i - 1);
      BeforeNext(rules, root, names, i - 1);
    }
  }

  lemma BeforeNext(rules: Rules, root: Root, names: seq<string>, i: nat)
    requires i < |names|
    ensures |LoadedBefore(rules, root, names, i + 1)| <=
      |LoadedBefore(rules, root, names, i)| + (if IsCandidate(root, names[i]) then 1 else 0)
  {
    hide IsEnvironmentId;
    var before := LoadedBefore(rules, root, names, i);
    assert names[..i + 1] == names[..i] + [names[i]];
    if IsLoadable(rules, root, names[i]) {
      assert LoadedBefore(rules, root, names, i + 1) == before + {names[i]};
    } else {
      assert LoadedBefore(rules, root, names, i + 1) == before;
    }
  }

  lemma LoadedAll(rules: Rules, limits: Limits, root: Root, names: seq<string>,
                  environments: Environments, rejected: map<string, Refusal>, totalBytes: nat)
    requires Loaded(Weights(rules, root), Loadable(rules, root), Refusals(rules, root), limits, root.Keys,
                    environments, rejected, totalBytes)
    requires forall i :: 0 <= i < |names| ==> RoomFor(rules, limits, root, names, i)
    ensures environments == Loadable(rules, root) && rejected == Refusals(rules, root)
    ensures LoadSucceeds(rules, limits, root, names)
  {
    hide IsEnvironmentId, RoomFor;
    assert Restricted(Loadable(rules, root), root.Keys) == Loadable(rules, root);
    assert Restricted(Refusals(rules, root), root.Keys) == Refusals(rules, root);
    assert Restricted(Weights(rules, root), root.Keys) == Weights(rules, root);
  }

  /**
   What a load sees of one entry: its size when there is a descriptor to read, and
   the descriptor when it is sound.
   */
  datatype Finding =
    | Skipped
    | NoDescriptor
    | Sound(size: nat, descriptor: Descriptor)
    | Unsound(size: nat, reason: Refusal)

  function Examined(rules: Rules, root: Root, name: string): (finding: Finding)
    requires name in root
    ensures finding.Skipped? <==> !IsCandidate(root, name)
    ensures finding.Sound? || finding.Unsound? <==> name in Weights(rules, root)
    ensures finding.Sound? || finding.Unsound? ==> finding.size == Weights(rules, root)[name]
    ensures finding.Sound? <==> name in Loadable(rules, root)
    ensures finding.Sound? ==> finding.descriptor == Loadable(rules, root)[name]
    ensures finding.Unsound? <==> name in Refusals(rules, root)
    ensures finding.Unsound? ==> finding.reason == Refusals(rules, root)[name]
  {
    if !IsCandidate(root, name) then Skipped
    else if root[name].descriptor.None? then NoDescriptor
    else
      var content := root[name].descriptor.value;
      if IsLoadable(rules, root, name) then Sound(ContentSize(rules, content), content.descriptor)
      else Unsound(ContentSize(rules, content), ReasonFor(rules, name, content))
  }

  /** One turn of the load loop: skip the entry, load it, reject it alone, or end the load at a limit. */
  method LoadEntry(rules: Rules, limits: Limits, root: Root, ghost seen: set<string>, name: string,
                   environments: Environments, rejected: map<string, Refusal>, totalBytes: nat)
    returns (within: bool, environments': Environments, rejected': map<string, Refusal>, totalBytes': nat)
    requires name in root && name !in seen
    requires Loaded(Weights(rules, root), Loadable(rules, root), Refusals(rules, root), limits, seen, environments,
                    rejected, totalBytes)
    ensures within ==>
      Loaded(Weights(rules, root), Loadable(rules, root), Refusals(rules, root), limits, seen + {name}, environments',
             rejected', totalBytes')
    ensures !within <==> EndsLoad(rules, limits, root, name, |environments|, totalBytes)
  {
    environments', rejected', totalBytes' := environments, rejected, totalBytes;
    var finding := Examined(rules, root, name);
    if finding.Skipped? {
      LoadedSkip(Weights(rules, root), Loadable(rules, root), Refusals(rules, root), limits, seen, name, environments,
                 rejected, totalBytes);
      return true, environments', rejected', totalBytes';
    }
    if |environments| >= limits.maxEnvironments {
      return false, environments', rejected', totalBytes';
    }
    if finding.NoDescriptor? {
      LoadedSkip(Weights(rules, root), Loadable(rules, root), Refusals(rules, root), limits, seen, name, environments,
                 rejected, totalBytes);
      return true, environments', rejected', totalBytes';
    }
    if finding.size > limits.maxBytes || totalBytes + finding.size > limits.maxTotalBytes {
      return false, environments', rejected', totalBytes';
    }
    LoadedRead(Weights(rules, root), Loadable(rules, root), Refusals(rules, root), limits, seen, name, environments,
               rejected, totalBytes);
    totalBytes' := totalBytes + finding.size;
    if finding.Sound? {
      environments' := environments[name := finding.descriptor];
    } else {
      rejected' := rejected[name := finding.reason];
    }
    return true, environments', rejected', totalBytes';
  }

  /**
   The load loop. A directory that cannot be understood is rejected alone; a
   limit ends the whole load.
   */
  method LoadRoot(rules: Rules, limits: Limits, root: Root, names: seq<string>)
    returns (result: Result<(Environments, map<string, Refusal>), CatalogError>)
    requires IsListing(names, root)
    ensures result.Success? <==> LoadSucceeds(rules, limits, root, names)
    ensures result.Success? ==>
      && result.value.0 == Loadable(rules, root)
      && result.value.1 == Refusals(rules, root)
    ensures result.Failure? ==> result == Failure(LimitExceeded)
    ensures WithinLimits(rules, limits, root) ==> result.Success?
    ensures result.Success? && Loadable(rules, root).Keys == Candidates(root) ==> WithinLimits(rules, limits, root)
  {
    hide Weight, Weights, Loadable, Refusals, Candidates, Loaded, EndsLoad, RoomFor, LoadSucceeds, WithinLimits;
    LoadSucceedsWithin(rules, limits, root, names);
    var environments: Environments := map[];
    var rejected: map<string, Refusal> := map[];
    var totalBytes: nat := 0;
    ghost var seen: set<string> := {};
    LoadedNone(rules, limits, root);
    for i := 0 to |names|
      invariant forall name :: name in seen <==> name in names[..i]
      invariant Loaded(Weights(rules, root), Loadable(rules, root), Refusals(rules, root), limits, seen, environments,
                       rejected, totalBytes)
      invariant forall k :: 0 <= k < i ==> RoomFor(rules, limits, root, names, k)
    {
      var name := names[i];
      assert name !in names[..i] && names[..i + 1] == names[..i] + [name];
      var within, environments', rejected', totalBytes' :=
        LoadEntry(rules, limits, root, seen, name, environments, rejected, totalBytes);
      if !within {
        LoadedRefused(rules, limits, root, names, i, seen, environments, rejected, totalBytes);
        return Failure(LimitExceeded);
      }
      LoadedCount(rules, limits, root, names, i, seen, environments, rejected, totalBytes);
      environments, rejected, totalBytes := environments', rejected', totalBytes';
      seen := seen + {name};
    }
    assert names[..|names|] == names && seen == root.Keys;
    LoadedAll(rules, limits, root, names, environments, rejected, totalBytes);
    return Success((environments, rejected));
  }

  lemma LoadedNone(rules: Rules, limits: Limits, root: Root)
    ensures Loaded(Weights(rules, root), Loadable(rules, root), Refusals(rules, root), limits, {}, map[], map[], 0)
  {
    assert Restricted(Loadable(rules, root), {}) == map[];
    assert Restricted(Weights(rules, root), {}) == map[];
    assert Restricted(Refusals(rules, root), {}) == map[];
  }

  lemma {:induction false} Subset<T>(a: set<T>, b: set<T>)
    requires a <= b
    ensures |a| <= |b|
  {
    if x :| x in a {
      Subset(a - {x}, b - {x});
    }
  }

  // ------------------------------------------------------------ changed roots

  predicate IsSound(rules: Rules, id: string, descriptor: Descriptor)
  {
    IsEnvironmentId(id) && rules.valid(descriptor) && descriptor.id == id && descriptor.harnesses in rules.supported
  }

  /**
   What a complete load says of one name. A directory with a valid id and a descriptor
   file is an Environment exactly when the descriptor decodes, is valid, bears that id and
   asks for a known harness; otherwise it is refused for the first of these it misses.
   Nothing else is loaded or refused.
   */
  lemma LoadVerdict(rules: Rules, root: Root, name: string)
    ensures var read := name in root && root[name].Directory? && root[name].descriptor.Some? && IsEnvironmentId(name);
      && (!read ==> name !in Loadable(rules, root) && name !in Refusals(rules, root))
      && (read ==>
            match root[name].descriptor.value
            case Undecodable(_) =>
              && name !in Loadable(rules, root)
              && name in Refusals(rules, root) && Refusals(rules, root)[name] == NotDecoded
            case Encoded(d) =>
              && (name in Loadable(rules, root) <==> rules.valid(d) && d.id == name && d.harnesses in rules.supported)
              && (name in Loadable(rules, root) ==> Loadable(rules, root)[name] == d)
              && (name in Refusals(rules, root) <==> name !in Loadable(rules, root))
              && (name in Refusals(rules, root) ==>
                    && (Refusals(rules, root)[name] == NotValid <==> !rules.valid(d))
                    && (Refusals(rules, root)[name] == OtherId <==> rules.valid(d) && d.id != name)
                    && (Refusals(rules, root)[name] == UnknownHarness <==> rules.valid(d) && d.id == name)))
  {
    hide IsEnvironmentId;
  }

  /** A change of an entry that is loadable neither before nor after is invisible to a load. */
  lemma UnseenChange(rules: Rules, root: Root, name: string, entry: Entry)
    requires !IsLoadable(rules, root, name) && !IsLoadable(rules, root[name := entry], name)
    ensures Loadable(rules, root[name := entry]) == Loadable(rules, root)
    ensures Loadable(rules, root - {name}) == Loadable(rules, root)
  {}

  /** A sound descriptor in a directory shows under its id. */
  lemma SeenChange(rules: Rules, root: Root, id: string, descriptor: Descriptor)
    requires IsSound(rules, id, descriptor)
    ensures Loadable(rules, root[id := FileEntry(true, Encoded(descriptor))]) == Loadable(rules, root)[id := descriptor]
  {}

  lemma SeenRemoval(rules: Rules, root: Root, id: string)
    ensures Loadable(rules, root - {id}) == Loadable(rules, root) - {id}
  {}

  /** Nothing is there, or a directory without a descriptor. */
  predicate IsFree(root: Root, id: string)
  {
    id !in root || root[id] == Directory(None)
  }

  lemma WeightsWith(rules: Rules, root: Root, id: string, descriptor: Descriptor)
    requires IsSound(rules, id, descriptor) && IsFree(root, id)
    ensures var next := root[id := FileEntry(true, Encoded(descriptor))];
      && Candidates(next) == Candidates(root) + {id}
      && id !in Weights(rules, root)
      && Weights(rules, next) == Weights(rules, root)[id := rules.size(descriptor)]
      && Weight(Weights(rules, next)) == Weight(Weights(rules, root)) + rules.size(descriptor)
  {
    hide IsEnvironmentId, Weight;
    var next := root[id := FileEntry(true, Encoded(descriptor))];
    var weights := Weights(rules, root);
    assert Weights(rules, next) == weights[id := rules.size(descriptor)];
    assert weights[id := rules.size(descriptor)] - {id} == weights;
    WeightRemove(Weights(rules, next), id);
  }

  /** What one more Environment needs to keep a root within the limits. */
  ghost predicate FitsBeside(rules: Rules, limits: Limits, root: Root, id: string, descriptor: Descriptor)
  {
    && |Candidates(root) + {id}| <= limits.maxEnvironments
    && rules.size(descriptor) <= limits.maxBytes
    && Weight(Weights(rules, root)) + rules.size(descriptor) <= limits.maxTotalBytes
  }

  /** A new Environment keeps the limits exactly when there is room for one more candidate and for its bytes. */
  lemma AddedWithin(rules: Rules, limits: Limits, root: Root, id: string, descriptor: Descriptor)
    requires IsSound(rules, id, descriptor) && IsFree(root, id) && WithinLimits(rules, limits, root)
    ensures WithinLimits(rules, limits, root[id := FileEntry(true, Encoded(descriptor))]) <==>
      FitsBeside(rules, limits, root, id, descriptor)
    ensures id !in root ==> |Candidates(root) + {id}| == |Candidates(root)| + 1
    ensures id in root ==> Candidates(root) + {id} == Candidates(root)
  {
    hide IsEnvironmentId, Weight, Weights, Candidates;
    WeightsWith(rules, root, id, descriptor);
    CandidateAt(root, id);
    var next := root[id := FileEntry(true, Encoded(descriptor))];
    assert id in Weights(rules, next);
    forall name | name in Weights(rules, root)
      ensures name in Weights(rules, next) && Weights(rules, next)[name] == Weights(rules, root)[name] {}
  }

  lemma CandidateAt(root: Root, id: string)
    ensures id in Candidates(root) <==> IsCandidate(root, id)
  {}

  /**
   After a create, loads succeed exactly when the new Environment fits beside the
   others. Before it, every directory that could be an Environment was one, except
   an empty one under the new id.
   */
  lemma LoadAfterCreate(rules: Rules, limits: Limits, root: Root, id: string, descriptor: Descriptor,
                        names: seq<string>)
    requires IsSound(rules, id, descriptor) && IsFree(root, id) && WithinLimits(rules, limits, root)
    requires Loadable(rules, root).Keys == Candidates(root) - {id}
    requires IsListing(names, root[id := FileEntry(true, Encoded(descriptor))])
    ensures LoadSucceeds(rules, limits, root[id := FileEntry(true, Encoded(descriptor))], names) <==>
      FitsBeside(rules, limits, root, id, descriptor)
  {
    hide IsListing, WithinLimits, LoadSucceeds, FitsBeside, IsEnvironmentId, Weight, Weights;
    var next := root[id := FileEntry(true, Encoded(descriptor))];
    AddedWithin(rules, limits, root, id, descriptor);
    SeenChange(rules, root, id, descriptor);
    WeightsWith(rules, root, id, descriptor);
    hide Loadable, Candidates;
    assert Loadable(rules, next).Keys == Candidates(next);
    LoadSucceedsWithin(rules, limits, next, names);
  }
}
