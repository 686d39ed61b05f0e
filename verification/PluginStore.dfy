/**
 The plugin store: installed versions per plugin, the active one and the one a
 rollback returns to. Any file-system call may fail, and the process may stop
 between two of them; removing a directory may even stop half-way.
 */
module PluginStore {
  import opened Wrappers

  datatype Manifest = Manifest(name: string, version: Option<string>, content: string)

  /** The activation record, replaced as a whole through a temporary file. */
  datatype Activation = Activation(active: string, previous: Option<string>)

  /** Installed versions by version text: their storage keys are taken to differ when the texts do. */
  datatype PluginDirectory = PluginDirectory(versions: map<string, Manifest>, state: Option<Activation>)

  type Plugins = map<string, PluginDirectory>

  datatype PluginError =
    | Integrity | Unloadable | RegistryMismatch | InvalidEnvironmentSelection
    | AlreadyInstalled | NotInstalled | NoRollback | Io

  const DEFAULT_VERSION := "0.0.0"
  const MAX_IDENTIFIER_BYTES: nat := 128

  predicate IsIdentifierChar(c: char)
  {
    'a' <= c <= 'z' || 'A' <= c <= 'Z' || '0' <= c <= '9' || c == '-' || c == '_' || c == '.'
  }

  /** ASCII only, so bytes are characters. */
  predicate IsIdentifier(name: string)
  {
    && 1 <= |name| <= MAX_IDENTIFIER_BYTES
    && (forall i :: 0 <= i < |name| ==> IsIdentifierChar(name[i]))
    && name[0] != '.'
    && (forall i :: 0 <= i < |name| - 1 ==> name[i] != '.' || name[i + 1] != '.')
  }

  function VersionOf(manifest: Manifest): string
  {
    if manifest.version.Some? then manifest.version.value else DEFAULT_VERSION
  }

  predicate Carries(manifest: Manifest, name: string, version: string)
  {
    manifest.name == name && VersionOf(manifest) == version
  }

  function DirectoryOf(plugins: Plugins, name: string): PluginDirectory
  {
    if name in plugins then plugins[name] else PluginDirectory(map[], None)
  }

  function StateOf(plugins: Plugins, name: string): Option<Activation>
  {
    DirectoryOf(plugins, name).state
  }

  function ActiveOf(plugins: Plugins, name: string): Option<string>
  {
    if StateOf(plugins, name).Some? then Some(StateOf(plugins, name).value.active) else None
  }

  function Placed(plugins: Plugins, name: string, version: string, manifest: Manifest): Plugins
  {
    var directory := DirectoryOf(plugins, name);
    plugins[name := directory.(versions := directory.versions[version := manifest])]
  }

  function Activated(plugins: Plugins, name: string, activation: Activation): Plugins
  {
    plugins[name := DirectoryOf(plugins, name).(state := Some(activation))]
  }

  // --------------------------------------------------------------- invariants

  /** Every installed directory's manifest carries the name and version it is installed under. */
  ghost predicate Genuine(plugins: Plugins)
  {
    forall name, version :: name in plugins && version in plugins[name].versions ==>
      Carries(plugins[name].versions[version], name, version)
  }

  predicate Recorded(directory: PluginDirectory)
  {
    directory.state.Some? ==>
      && directory.state.value.active in directory.versions
      && (directory.state.value.previous.Some? ==>
            directory.state.value.previous.value in directory.versions
            && directory.state.value.previous.value != directory.state.value.active)
  }

  /** Active and previous versions are installed and differ. */
  ghost predicate AllRecorded(plugins: Plugins)
  {
    forall name :: name in plugins ==> Recorded(plugins[name])
  }

  /** No installed version is gone or different. */
  ghost predicate KeepsVersions(before: Plugins, after: Plugins)
  {
    forall name, version :: name in before && version in before[name].versions ==>
      name in after && version in after[name].versions
        && after[name].versions[version] == before[name].versions[version]
  }

  /** Both invariants, and no installed version lost, in every state from `from` on. */
  ghost predicate Safe(before: Plugins, states: seq<Plugins>)
  {
    forall i :: 0 <= i < |states| ==>
      Genuine(states[i]) && KeepsVersions(before, states[i]) && (AllRecorded(before) ==> AllRecorded(states[i]))
  }

  /** Placing a new version of the right name and version, and recording installed versions, keep everything. */
  lemma PlacedKeeps(plugins: Plugins, name: string, version: string, manifest: Manifest)
    requires Genuine(plugins) && version !in DirectoryOf(plugins, name).versions && Carries(manifest, name, version)
    ensures Genuine(Placed(plugins, name, version, manifest))
    ensures KeepsVersions(plugins, Placed(plugins, name, version, manifest))
    ensures AllRecorded(plugins) ==> AllRecorded(Placed(plugins, name, version, manifest))
  {}

  lemma ActivatedKeeps(plugins: Plugins, name: string, activation: Activation)
    requires Genuine(plugins)
    ensures Genuine(Activated(plugins, name, activation))
      && KeepsVersions(plugins, Activated(plugins, name, activation))
    ensures AllRecorded(plugins) && Recorded(DirectoryOf(plugins, name).(state := Some(activation))) ==>
      AllRecorded(Activated(plugins, name, activation))
  {}

  // -------------------------------------------------- calls when nothing fails

  /** Why an install is refused, in the order of the checks. */
  function InstallRefusal(plugins: Plugins, name: string, version: string, expected: string, actual: string,
                          artifact: Option<Manifest>): Option<PluginError>
  {
    if actual != expected then Some(Integrity)
    else if artifact.None? then Some(Unloadable)
    else if !Carries(artifact.value, name, version) then Some(RegistryMismatch)
    else if !IsIdentifier(name) then Some(InvalidEnvironmentSelection)
    else if version in DirectoryOf(plugins, name).versions then Some(AlreadyInstalled)
    else None
  }

  function Installed(plugins: Plugins, name: string, version: string, expected: string, actual: string,
                     artifact: Option<Manifest>): Result<Plugins, PluginError>
  {
    var refusal := InstallRefusal(plugins, name, version, expected, actual, artifact);
    if refusal.Some? then Failure(refusal.value)
    else Success(Activated(Placed(plugins, name, version, artifact.value), name,
                           Activation(version, ActiveOf(plugins, name))))
  }

  function RolledBack(plugins: Plugins, name: string): Result<Plugins, PluginError>
  {
    if !IsIdentifier(name) then Failure(InvalidEnvironmentSelection)
    else
      match StateOf(plugins, name)
      case None => Failure(NotInstalled)
      case Some(Activation(_, None)) => Failure(NoRollback)
      case Some(Activation(active, Some(previous))) =>
        if previous !in DirectoryOf(plugins, name).versions then Failure(Unloadable)
        else if !Carries(DirectoryOf(plugins, name).versions[previous], name, previous) then Failure(RegistryMismatch)
        else Success(Activated(plugins, name, Activation(previous, Some(active))))
  }

  function Uninstalled(plugins: Plugins, name: string): Result<Plugins, PluginError>
  {
    if !IsIdentifier(name) then Failure(InvalidEnvironmentSelection)
    else if StateOf(plugins, name).None? then Failure(NotInstalled)
    else Success(plugins - {name})
  }

  function ActivePlugin(plugins: Plugins, name: string): Result<Manifest, PluginError>
  {
    if !IsIdentifier(name) then Failure(InvalidEnvironmentSelection)
    else if StateOf(plugins, name).None? then Failure(NotInstalled)
    else
      var active := StateOf(plugins, name).value.active;
      if active !in DirectoryOf(plugins, name).versions then Failure(NotInstalled)
      else if !Carries(DirectoryOf(plugins, name).versions[active], name, active) then Failure(RegistryMismatch)
      else Success(DirectoryOf(plugins, name).versions[active])
  }

  /**
   Under the invariants the active plugin loads exactly when a state is recorded, and
   is the manifest of that name and of the recorded version.
   */
  lemma ActiveLoads(plugins: Plugins, name: string)
    requires Genuine(plugins) && AllRecorded(plugins) && IsIdentifier(name)
    ensures ActivePlugin(plugins, name).Success? <==> ActiveOf(plugins, name).Some?
    ensures ActivePlugin(plugins, name).Success? ==>
      var manifest, active := ActivePlugin(plugins, name).value, ActiveOf(plugins, name).value;
      && manifest.name == name
      && (manifest.version == Some(active) || (manifest.version == None && active == DEFAULT_VERSION))
  {}

  /** A name that is accepted is one component of a path: it has no separator and is no relative step. */
  lemma IdentifierIsComponent(name: string)
    requires IsIdentifier(name)
    ensures '/' !in name && '\\' !in name && name != "." && name != ".." && 1 <= |name| <= MAX_IDENTIFIER_BYTES
    ensures forall i, j :: 0 <= i < j < |name| && name[i] == name[j] == '.' ==> i > 0 && j > i + 1
  {}

  /**
   An install succeeds exactly for the expected digest, a loadable artifact that bears
   the name and version asked for, a valid name, and a version that is not there yet.
   It adds that version and nothing else, and records it with the active one before it.
   */
  lemma InstallAccepted(plugins: Plugins, name: string, version: string, expected: string, actual: string,
                        artifact: Option<Manifest>)
    ensures var installed := Installed(plugins, name, version, expected, actual, artifact);
      && (installed.Success? <==>
            && actual == expected && artifact.Some? && artifact.value.name == name
            && (artifact.value.version == Some(version)
                || (artifact.value.version == None && version == DEFAULT_VERSION))
            && IsIdentifier(name) && (name in plugins ==> version !in plugins[name].versions))
      && (installed.Success? ==>
            && var next := installed.value;
            && next.Keys == plugins.Keys + {name}
            && (forall other :: other in plugins && other != name ==> next[other] == plugins[other])
            && next[name].versions == DirectoryOf(plugins, name).versions[version := artifact.value]
            && next[name].state.Some? && next[name].state.value.active == version
            && next[name].state.value.previous == ActiveOf(plugins, name))
  {
    hide IsIdentifier;
  }

  /** A rollback that succeeds can be rolled back in turn, and that restores the store exactly. */
  lemma RollbackTwice(plugins: Plugins, name: string)
    requires Genuine(plugins) && AllRecorded(plugins) && RolledBack(plugins, name).Success?
    ensures RolledBack(RolledBack(plugins, name).value, name) == Success(plugins)
  {
    var once := RolledBack(plugins, name).value;
    assert RolledBack(once, name).Success?;
    assert RolledBack(once, name).value == plugins;
  }

  /** An upgrade and then a rollback: the earlier version is active again, the newer one is next in line. */
  lemma UpgradeThenRollback(plugins: Plugins, name: string, version: string, expected: string, actual: string,
                            artifact: Option<Manifest>)
    requires Genuine(plugins) && AllRecorded(plugins) && ActiveOf(plugins, name).Some?
    requires Installed(plugins, name, version, expected, actual, artifact).Success?
    ensures var upgraded := Installed(plugins, name, version, expected, actual, artifact).value;
      && ActivePlugin(upgraded, name) == Success(artifact.value)
      && RolledBack(upgraded, name).Success?
      && ActivePlugin(RolledBack(upgraded, name).value, name) == ActivePlugin(plugins, name)
      && StateOf(RolledBack(upgraded, name).value, name) ==
        Some(Activation(ActiveOf(plugins, name).value, Some(version)))
  {}

  /**
   A crash after the version's directory appeared and before it is recorded: the
   activation is the earlier one, the same version cannot be installed again, and a
   plugin that had no record cannot be uninstalled until another version is installed.
   */
  lemma CrashBeforeActivation(plugins: Plugins, name: string, version: string, expected: string, actual: string,
                              artifact: Option<Manifest>)
    requires Genuine(plugins) && AllRecorded(plugins)
    requires Installed(plugins, name, version, expected, actual, artifact).Success?
    ensures var crashed := Placed(plugins, name, version, artifact.value);
      && ActivePlugin(crashed, name) == ActivePlugin(plugins, name)
      && Installed(crashed, name, version, expected, actual, artifact) == Failure(AlreadyInstalled)
      && (Uninstalled(crashed, name).Failure? <==> ActiveOf(plugins, name).None?)
      && forall other, manifest ::
        other != version && other !in DirectoryOf(plugins, name).versions && Carries(manifest, name, other) ==>
           Installed(crashed, name, other, expected, actual, Some(manifest)).Success?
  {}

  // --------------------------------------------------------------------- runs

  datatype StoreCall =
    | Install(name: string, version: string, expected: string, actual: string, artifact: Option<Manifest>)
    | Rollback(name: string)
    | Uninstall(name: string)

  function Applied(plugins: Plugins, call: StoreCall): Plugins
  {
    var outcome := match call
      case Install(name, version, expected, actual, artifact) =>
        Installed(plugins, name, version, expected, actual, artifact)
      case Rollback(name) => RolledBack(plugins, name)
      case Uninstall(name) => Uninstalled(plugins, name);
    if outcome.Success? then outcome.value else plugins
  }

  function AfterCalls(plugins: Plugins, calls: seq<StoreCall>): Plugins
  {
    if calls == [] then plugins else Applied(AfterCalls(plugins, calls[..|calls| - 1]), calls[|calls| - 1])
  }

  lemma AppliedKeeps(plugins: Plugins, call: StoreCall)
    requires Genuine(plugins) && AllRecorded(plugins)
    ensures Genuine(Applied(plugins, call)) && AllRecorded(Applied(plugins, call))
    ensures !call.Uninstall? ==> KeepsVersions(plugins, Applied(plugins, call))
    ensures forall name :: name in plugins && name != call.name ==>
      name in Applied(plugins, call) && Applied(plugins, call)[name] == plugins[name]
  {
    match call
    case Install(name, version, expected, actual, artifact) =>
      if Installed(plugins, name, version, expected, actual, artifact).Success? {
        PlacedKeeps(plugins, name, version, artifact.value);
        ActivatedKeeps(Placed(plugins, name, version, artifact.value), name,
                       Activation(version, ActiveOf(plugins, name)));
      }
    case Rollback(name) =>
      if RolledBack(plugins, name).Success? {
        var state := StateOf(plugins, name).value;
        ActivatedKeeps(plugins, name, Activation(state.previous.value, Some(state.active)));
      }
    case Uninstall(name) =>
  }

  /** Over every run the invariants hold, and a version stays as installed until its plugin is uninstalled. */
  lemma {:induction false} RunsKeep(plugins: Plugins, calls: seq<StoreCall>)
    requires Genuine(plugins) && AllRecorded(plugins)
    ensures Genuine(AfterCalls(plugins, calls)) && AllRecorded(AfterCalls(plugins, calls))
    ensures forall name, version ::
      name in plugins && version in plugins[name].versions && Uninstall(name) !in calls ==>
        && name in AfterCalls(plugins, calls)
        && version in AfterCalls(plugins, calls)[name].versions
        && AfterCalls(plugins, calls)[name].versions[version] == plugins[name].versions[version]
  {
    if calls != [] {
      RunsKeep(plugins, calls[..|calls| - 1]);
      AppliedKeeps(AfterCalls(plugins, calls[..|calls| - 1]), calls[|calls| - 1]);
    }
  }

  // --------------------------------------------------------------- the store

  /** The states of an install past its checks: the directory is there, the version is, the version is active. */
  ghost function InstallStates(plugins: Plugins, name: string, version: string, manifest: Manifest,
                               previous: Option<string>): seq<Plugins>
  {
    var placed := Placed(plugins, name, version, manifest);
    [plugins[name := DirectoryOf(plugins, name)], placed, Activated(placed, name, Activation(version, previous))]
  }

  ghost function LastOf(plugins: Plugins, states: seq<Plugins>): Plugins
  {
    if states == [] then plugins else states[|states| - 1]
  }

  /** Every one of them keeps both invariants and every installed version. */
  lemma InstallSafe(plugins: Plugins, name: string, version: string, manifest: Manifest,
                    previous: Option<string>, states: seq<Plugins>)
    requires Genuine(plugins) && Carries(manifest, name, version)
    requires states <= InstallStates(plugins, name, version, manifest, previous)
    requires version in DirectoryOf(plugins, name).versions ==> |states| <= 1
    requires previous == ActiveOf(plugins, name) || previous == None
    ensures Safe(plugins, states) && Safe(plugins, [LastOf(plugins, states)])
  {
    var ready := plugins[name := DirectoryOf(plugins, name)];
    assert Genuine(ready) && KeepsVersions(plugins, ready) && (AllRecorded(plugins) ==> AllRecorded(ready));
    if version !in DirectoryOf(plugins, name).versions {
      PlacedKeeps(plugins, name, version, manifest);
      ActivatedKeeps(Placed(plugins, name, version, manifest), name, Activation(version, previous));
    }
    hide Genuine, KeepsVersions, AllRecorded, Placed, Activated, Carries;
  }

  /** What a directory removal that stopped half-way can leave. */
  ghost predicate IsRemnant(part: PluginDirectory, whole: PluginDirectory)
  {
    && (forall version :: version in part.versions ==>
        version in whole.versions && part.versions[version] == whole.versions[version])
    && (part.state == whole.state || part.state == None)
  }

  /** One file-system call: whether it works, and what a removal that fails has already taken. */
  datatype Attempt = Attempt(works: bool, versionsGone: set<string>, recordGone: bool)

  /** What is left of a directory when its removal fails. */
  function LeftOf(directory: PluginDirectory, attempt: Attempt): PluginDirectory
  {
    PluginDirectory(directory.versions - attempt.versionsGone, if attempt.recordGone then None else directory.state)
  }

  lemma LeftGenuine(plugins: Plugins, name: string, attempt: Attempt)
    requires Genuine(plugins)
    ensures Genuine(plugins - {name})
    ensures name in plugins ==>
      && Genuine((plugins - {name})[name := LeftOf(plugins[name], attempt)])
      && IsRemnant(LeftOf(plugins[name], attempt), plugins[name]) && IsRemnant(plugins[name], plugins[name])
  {}

  class PluginStore {
    const schedule: nat -> Attempt
    var calls: nat
    var plugins: Plugins
    /** The store after every step that changed it. */
    ghost var history: seq<Plugins>

    ghost predicate Valid()
      reads this
    {
      Genuine(plugins)
    }

    constructor (schedule: nat -> Attempt)
      ensures Valid() && AllRecorded(plugins) && plugins == map[] && history == []
      ensures this.schedule == schedule && calls == 0
    {
      this.schedule, calls, plugins := schedule, 0, map[];
      history := [];
    }

    predicate WorksAt(call: nat)
    {
      schedule(call).works
    }

    /** `n` calls from `from` on all work. */
    predicate AllWork(from: nat, n: nat)
    {
      forall call | from <= call < from + n :: WorksAt(call)
    }

    /** A call that changes nothing: reading or syncing. */
    method Probe() returns (done: bool)
      modifies this`calls
      ensures calls == old(calls) + 1
      ensures done <==> WorksAt(old(calls))
    {
      done := WorksAt(calls);
      calls := calls + 1;
    }

    /** One file-system step: it happens or fails without effect. */
    method Step(next: Plugins) returns (done: bool)
      modifies this
      ensures calls == old(calls) + 1
      ensures done <==> WorksAt(old(calls))
      ensures done ==> plugins == next && history == old(history) + [next]
      ensures !done ==> plugins == old(plugins) && history == old(history)
    {
      done := WorksAt(calls);
      calls := calls + 1;
      if done {
        plugins := next;
        history := history + [next];
      }
    }

    /** Write a temporary file, rename it over the record, sync: the sync can fail after the rename. */
    method WriteState(name: string, activation: Activation) returns (done: bool, ghost states: seq<Plugins>)
      modifies this
      ensures history == old(history) + states
      ensures states == if WorksAt(old(calls)) then [Activated(old(plugins), name, activation)] else []
      ensures plugins == if states == [] then old(plugins) else states[0]
      ensures done <==> AllWork(old(calls), 2)
      ensures done ==> calls == old(calls) + 2
    {
      states := [];
      done := Step(Activated(plugins, name, activation));
      if done {
        states := [plugins];
        done := Probe();
      }
    }

    method ReadState(name: string) returns (result: Result<Activation, PluginError>)
      modifies this`calls
      ensures result ==
        if !IsIdentifier(name) then Failure(InvalidEnvironmentSelection)
        else if !WorksAt(old(calls)) then Failure(Io)
        else if StateOf(plugins, name).None? then Failure(NotInstalled)
        else Success(StateOf(plugins, name).value)
      ensures calls == if IsIdentifier(name) then old(calls) + 1 else old(calls)
    {
      if !IsIdentifier(name) {
        return Failure(InvalidEnvironmentSelection);
      }
      var readable := Probe();
      if !readable {
        return Failure(Io);
      }
      match StateOf(plugins, name)
      case Some(activation) => return Success(activation);
      case None => return Failure(NotInstalled);
    }

    /** Past the checks: make the directory, rename the extracted version into it, record it as active. */
    method PlaceAndActivate(name: string, version: string, manifest: Manifest)
      returns (error: Option<PluginError>, ghost states: seq<Plugins>)
      requires IsIdentifier(name)
      modifies this
      ensures history == old(history) + states && plugins == LastOf(old(plugins), states)
      ensures states <=
        InstallStates(old(plugins), name, version, manifest, PreviousRead(old(plugins), name, old(calls)))
      ensures |states| == PlacedStates(version in DirectoryOf(old(plugins), name).versions, old(calls))
      ensures error ==
        if !WorksAt(old(calls)) then Some(Io)
        else if version in DirectoryOf(old(plugins), name).versions then Some(AlreadyInstalled)
        else if InstallWorks(old(calls)) then None
        else Some(Io)
      ensures error == None ==> calls == old(calls) + 5
    {
      states := [];
      var made := Step(plugins[name := DirectoryOf(plugins, name)]);
      if !made {
        return Some(Io), states;
      }
      states := [plugins];
      if version in plugins[name].versions {
        return Some(AlreadyInstalled), states;
      }
      assert Placed(plugins, name, version, manifest) == Placed(old(plugins), name, version, manifest);
      var placed := Step(Placed(plugins, name, version, manifest));
      if !placed {
        return Some(Io), states;
      }
      states := states + [plugins];
      var recorded := ReadState(name);
      var earlier := if recorded.Success? then Some(recorded.value.active) else None;
      var activated, written := WriteState(name, Activation(version, earlier));
      states := states + written;
      if !activated {
        return Some(Io), states;
      }
      return None, states;
    }

    /**
     Making the directory, placing the version, writing the record and syncing work;
     reading the old record need not.
     */
    predicate InstallWorks(from: nat)
    {
      AllWork(from, 2) && AllWork(from + 3, 2)
    }

    /** The version a rollback will return to: a record that cannot be read is taken for none. */
    function PreviousRead(before: Plugins, name: string, from: nat): Option<string>
    {
      if WorksAt(from + 2) then ActiveOf(before, name) else None
    }

    /** How many states an install goes through before a fault or the installed version stops it. */
    function PlacedStates(there: bool, from: nat): nat
    {
      if !WorksAt(from) then 0
      else if there || !WorksAt(from + 1) then 1
      else if !WorksAt(from + 3) then 2
      else 3
    }

    /**
     The new version's directory appears by one rename, and only then is it made
     active. A crash or fault in between leaves the version installed and the
     activation as it was; a record that cannot be read is taken for none.
     */
    method InstallAndActivate(name: string, version: string, expected: string, actual: string,
                              artifact: Option<Manifest>)
      returns (result: Result<Manifest, PluginError>, ghost states: seq<Plugins>)
      requires Valid()
      modifies this
      ensures Valid() && history == old(history) + states && Safe(old(plugins), states) && Safe(old(plugins), [plugins])
      ensures var refusal := InstallRefusal(old(plugins), name, version, expected, actual, artifact);
        && (refusal.Some? ==> plugins == old(plugins) && result == Failure(
              if refusal.value == AlreadyInstalled && !WorksAt(old(calls)) then Io else refusal.value))
        && (refusal.None? ==>
              && result == (if InstallWorks(old(calls)) then Success(artifact.value) else Failure(Io))
              && plugins == LastOf(old(plugins),
                   InstallStates(old(plugins), name, version, artifact.value,
                                 PreviousRead(old(plugins), name, old(calls)))[..PlacedStates(false, old(calls))]))
      ensures result.Success? ==>
        && ActivePlugin(plugins, name) == result && calls == old(calls) + 5
        && plugins == Activated(Placed(old(plugins), name, version, artifact.value), name,
                                Activation(version, PreviousRead(old(plugins), name, old(calls))))
      ensures result.Success? && WorksAt(old(calls) + 2) ==>
        Installed(old(plugins), name, version, expected, actual, artifact) == Success(plugins)
    {
      states := [];
      if actual != expected {
        return Failure(Integrity), states;
      }
      if artifact.None? {
        return Failure(Unloadable), states;
      }
      var manifest := artifact.value;
      if !Carries(manifest, name, version) {
        return Failure(RegistryMismatch), states;
      }
      if !IsIdentifier(name) {
        return Failure(InvalidEnvironmentSelection), states;
      }
      var error, trace := PlaceAndActivate(name, version, manifest);
      states := trace;
      InstallSafe(old(plugins), name, version, manifest, PreviousRead(old(plugins), name, old(calls)), states);
      if error.Some? {
        return Failure(error.value), states;
      }
      return Success(manifest), states;
    }

    /** Whatever the state, a success is the manifest of the recorded version, under its own name. */
    method Active(name: string) returns (result: Result<Manifest, PluginError>)
      modifies this`calls
      ensures result ==
        if IsIdentifier(name) && !AllWork(old(calls), if StateOf(plugins, name).Some? then 2 else 1) then Failure(Io)
        else ActivePlugin(plugins, name)
      ensures result.Success? ==>
        ActiveOf(plugins, name).Some? && Carries(result.value, name, ActiveOf(plugins, name).value)
    {
      var recorded := ReadState(name);
      if recorded.Failure? {
        return Failure(recorded.error);
      }
      var loaded := Probe();
      if !loaded {
        return Failure(Io);
      }
      var active := recorded.value.active;
      if active !in DirectoryOf(plugins, name).versions {
        return Failure(NotInstalled);
      }
      var manifest := DirectoryOf(plugins, name).versions[active];
      if !Carries(manifest, name, active) {
        return Failure(RegistryMismatch);
      }
      return Success(manifest);
    }

    /** Swap active and previous; the installed versions are not touched at all. */
    method Rollback(name: string) returns (result: Result<string, PluginError>, ghost states: seq<Plugins>)
      requires Valid()
      modifies this
      ensures Valid() && history == old(history) + states && Safe(old(plugins), states) && Safe(old(plugins), [plugins])
      ensures var outcome := RolledBack(old(plugins), name);
        && states == (if outcome.Success? && AllWork(old(calls), 3) then [outcome.value] else [])
        && plugins == LastOf(old(plugins), states)
        && (result.Success? <==> outcome.Success? && AllWork(old(calls), 4))
        && (result.Success? ==> ActiveOf(plugins, name) == Some(result.value))
        && (result.Failure? ==>
              outcome == Failure(result.error) || (result.error == Io && !AllWork(old(calls), 4)))
    {
      states := [];
      var recorded := ReadState(name);
      if recorded.Failure? {
        return Failure(recorded.error), states;
      }
      var state := recorded.value;
      if state.previous.None? {
        return Failure(NoRollback), states;
      }
      var loaded := Probe();
      if !loaded {
        return Failure(Io), states;
      }
      var previous := state.previous.value;
      if previous !in DirectoryOf(plugins, name).versions {
        return Failure(Unloadable), states;
      }
      if !Carries(DirectoryOf(plugins, name).versions[previous], name, previous) {
        return Failure(RegistryMismatch), states;
      }
      ActivatedKeeps(plugins, name, Activation(previous, Some(state.active)));
      var done, written := WriteState(name, Activation(previous, Some(state.active)));
      states := written;
      if !done {
        return Failure(Io), states;
      }
      return Success(previous), states;
    }

    /**
     One rename takes the plugin away. A removal that fails is undone by renaming
     back what it left. So after a failure the plugin is gone exactly when the rename
     back failed as well, or only the final sync did; and it is there but not whole
     exactly when the removal failed and the rename back worked.
     */
    method Uninstall(name: string) returns (result: Result<Unit, PluginError>)
      requires Valid()
      modifies this
      ensures Valid()
      ensures forall other :: other != name ==>
        (other in plugins <==> other in old(plugins)) && DirectoryOf(plugins, other) == DirectoryOf(old(plugins), other)
      ensures var outcome := Uninstalled(old(plugins), name);
        && (result.Success? <==> outcome.Success? && AllWork(old(calls), 4))
        && (outcome.Failure? ==> plugins == old(plugins))
        && (result.Failure? ==> result.error == Io || outcome == Failure(result.error))
        && (outcome.Success? ==>
              && name in old(plugins)
              && (name !in plugins <==>
                    && AllWork(old(calls), 2)
                    && (WorksAt(old(calls) + 2) || !WorksAt(old(calls) + 3)))
              && (name in plugins ==> IsRemnant(plugins[name], old(plugins)[name]))
              && (name in plugins ==>
                    plugins[name] ==
                      (if AllWork(old(calls), 2) then LeftOf(old(plugins)[name], schedule(old(calls) + 2))
                                      else old(plugins)[name])))
      ensures forall i :: |old(history)| <= i < |history| ==> Genuine(history[i])
    {
      LeftGenuine(plugins, name, schedule(calls + 2));
      hide Genuine, IsRemnant, LeftOf;
      var recorded := ReadState(name);
      if recorded.Failure? {
        return Failure(recorded.error);
      }
      var directory := plugins[name];
      var moved := Step(plugins - {name});
      if !moved {
        return Failure(Io);
      }
      var left := LeftOf(directory, schedule(calls));
      var removed := Probe();
      if !removed {
        var _ := Step(plugins[name := left]);
        return Failure(Io);
      }
      var synced := Probe();
      if !synced {
        return Failure(Io);
      }
      return Success(Unit);
    }
  }

  /**
   An upgrade during which the old record cannot be read: it succeeds and forgets the
   version before, so a rollback is refused.
   */
  method ForgottenVersion(name: string, first: Manifest, second: Manifest)
    returns (upgraded: Result<Manifest, PluginError>, back: Result<string, PluginError>)
    requires IsIdentifier(name) && first.name == second.name == name && VersionOf(first) != VersionOf(second)
    ensures upgraded == Success(second) && back == Failure(NoRollback)
  {
    hide Genuine, AllRecorded, KeepsVersions, Safe;
    var store := new PluginStore((call: nat) => Attempt(call != 7, {}, false));
    assert forall call :: store.WorksAt(call) <==> call != 7;
    var installed, states := store.InstallAndActivate(name, VersionOf(first), "", "", Some(first));
    assert StateOf(store.plugins, name) == Some(Activation(VersionOf(first), None));
    assert DirectoryOf(store.plugins, name).versions == map[VersionOf(first) := first];
    upgraded, states := store.InstallAndActivate(name, VersionOf(second), "", "", Some(second));
    assert StateOf(store.plugins, name) == Some(Activation(VersionOf(second), None));
    back, states := store.Rollback(name);
  }
}
