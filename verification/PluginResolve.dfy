/**
 Resolution of an Environment's plugin selection into servers, default skills and
 diagnostics: validated, sorted by plugin name, then entry after entry.
 */
module PluginResolve {
  import opened Wrappers
  import opened Sequences
  import opened Text
  import opened PluginStore

  /** `servers` absent enables every server, an empty list none. */
  datatype Entry = Entry(name: string, servers: Option<seq<string>>, skills: seq<string>)

  datatype Selection = Selection(environment: string, entries: seq<Entry>)

  datatype Server = Server(name: string, definition: string)

  datatype McpComponent = Absent | Disabled(reason: string) | Loaded(servers: seq<Server>)

  /** Skills by name: a skill's name is its directory's. */
  datatype Components = Components(mcp: McpComponent, skills: map<string, string>)

  datatype ResolvedServer = ResolvedServer(plugin: string, name: string, command: string)

  datatype ResolvedSkill = ResolvedSkill(plugin: string, name: string, description: string)

  datatype Diagnostic = McpDisabled(plugin: string, reason: string)

  datatype Plan = Plan(servers: seq<ResolvedServer>, skills: seq<ResolvedSkill>, diagnostics: seq<Diagnostic>)

  /** The installed plugins and what files and paths contribute. */
  datatype World = World(
    plugins: Plugins,
    components: Manifest -> Components,
    dataDirectory: (string, string) -> Result<string, PluginError>,
    command: (string, string, Server) -> Result<string, PluginError>)

  // --------------------------------------------------------------- validation

  ghost predicate NoEmptyNoTwice(values: seq<string>)
  {
    Distinct(values) && "" !in values
  }

  ghost predicate NamesDistinct(entries: seq<Entry>)
  {
    forall i, j :: 0 <= i < j < |entries| ==> entries[i].name != entries[j].name
  }

  ghost predicate IsValidEntry(entry: Entry)
  {
    IsIdentifier(entry.name) && (entry.servers.Some? ==> NoEmptyNoTwice(entry.servers.value))
      && NoEmptyNoTwice(entry.skills)
  }

  ghost predicate IsValidSelection(entries: seq<Entry>)
  {
    NamesDistinct(entries) && forall i :: 0 <= i < |entries| ==> IsValidEntry(entries[i])
  }

  method RejectDuplicates(values: seq<string>) returns (accepted: bool)
    ensures accepted <==> NoEmptyNoTwice(values)
  {
    var unique: set<string> := {};
    for i := 0 to |values|
      invariant Distinct(values[..i]) && "" !in values[..i]
      invariant forall v :: v in unique <==> v in values[..i]
    {
      if values[i] == "" || values[i] in unique {
        return false;
      }
      unique := unique + {values[i]};
      assert values[..i + 1] == values[..i] + [values[i]];
    }
    assert values[..|values|] == values;
    return true;
  }

  method ValidateSelection(entries: seq<Entry>) returns (accepted: bool)
    ensures accepted <==> IsValidSelection(entries)
  {
    var names: set<string> := {};
    for i := 0 to |entries|
      invariant forall k :: 0 <= k < i ==> IsValidEntry(entries[k]) && entries[k].name in names
      invariant forall j, k :: 0 <= j < k < i ==> entries[j].name != entries[k].name
      invariant forall name :: name in names ==> exists k :: 0 <= k < i && entries[k].name == name
    {
      var entry := entries[i];
      if !IsIdentifier(entry.name) || entry.name in names {
        return false;
      }
      names := names + {entry.name};
      if entry.servers.Some? {
        var distinct := RejectDuplicates(entry.servers.value);
        if !distinct {
          return false;
        }
      }
      var distinct := RejectDuplicates(entry.skills);
      if !distinct {
        return false;
      }
    }
    return true;
  }

  // ------------------------------------------------------------------ sorting

  function Inserted(entry: Entry, sorted: seq<Entry>): seq<Entry>
  {
    if sorted == [] then [entry]
    else if Precedes(sorted[0].name, entry.name) then [sorted[0]] + Inserted(entry, sorted[1..])
    else [entry] + sorted
  }

  function SortedByName(entries: seq<Entry>): seq<Entry>
  {
    if entries == [] then [] else Inserted(entries[0], SortedByName(entries[1..]))
  }

  /** Strictly ascending by name. */
  ghost predicate Ascending(entries: seq<Entry>)
  {
    entries == []
      || ((forall entry :: entry in entries[1..] ==> Precedes(entries[0].name, entry.name)) && Ascending(entries[1..]))
  }

  lemma {:induction false} InsertedAscending(entry: Entry, sorted: seq<Entry>)
    requires Ascending(sorted) && forall other :: other in sorted ==> other.name != entry.name
    ensures Ascending(Inserted(entry, sorted))
    ensures multiset(Inserted(entry, sorted)) == multiset(sorted) + multiset{entry}
    ensures forall other :: other in Inserted(entry, sorted) <==> other == entry || other in sorted
  {
    if sorted != [] {
      hide Precedes;
      var head := sorted[0];
      assert sorted == [head] + sorted[1..];
      PrecedesTotal(head.name, entry.name);
      if Precedes(head.name, entry.name) {
        InsertedAscending(entry, sorted[1..]);
        assert Inserted(entry, sorted)[1..] == Inserted(entry, sorted[1..]);
      } else {
        forall other | other in sorted ensures Precedes(entry.name, other.name) {
          if other != head {
            PrecedesTransitive(entry.name, head.name, other.name);
          }
        }
        assert Inserted(entry, sorted)[1..] == sorted;
      }
    }
  }

  lemma {:induction false} SortedAscending(entries: seq<Entry>)
    requires NamesDistinct(entries)
    ensures Ascending(SortedByName(entries)) && multiset(SortedByName(entries)) == multiset(entries)
  {
    if entries != [] {
      SortedAscending(entries[1..]);
      assert entries == [entries[0]] + entries[1..];
      forall other | other in SortedByName(entries[1..]) ensures other.name != entries[0].name {
        assert other in multiset(entries[1..]);
      }
      InsertedAscending(entries[0], SortedByName(entries[1..]));
    }
  }

  lemma HeadIsLeast(entries: seq<Entry>, entry: Entry)
    requires Ascending(entries) && entry in entries
    ensures entry == entries[0] || Precedes(entries[0].name, entry.name)
  {
    assert entries == [entries[0]] + entries[1..];
  }

  lemma RestOf(entries: seq<Entry>)
    requires entries != []
    ensures entries == [entries[0]] + entries[1..] && multiset(entries[1..]) == multiset(entries) - multiset{entries[0]}
  {
    assert entries == [entries[0]] + entries[1..];
  }

  /** There is one ascending arrangement of given entries. */
  lemma {:induction false} AscendingUnique(one: seq<Entry>, other: seq<Entry>)
    requires Ascending(one) && Ascending(other) && multiset(one) == multiset(other)
    ensures one == other
  {
    assert |multiset(one)| == |multiset(other)|;
    if one != [] {
      assert one[0] in multiset(other) && other[0] in multiset(one);
      HeadIsLeast(one, other[0]);
      HeadIsLeast(other, one[0]);
      PrecedesTotal(one[0].name, other[0].name);
      assert one[0] == other[0];
      RestOf(one);
      RestOf(other);
      AscendingUnique(one[1..], other[1..]);
    }
  }

  function Names(entries: seq<Entry>): set<string>
  {
    if entries == [] then {} else Names(entries[..|entries| - 1]) + {entries[|entries| - 1].name}
  }

  lemma {:induction false} NamesHold(entries: seq<Entry>)
    ensures forall entry :: entry in entries ==> entry.name in Names(entries)
    ensures forall name :: name in Names(entries) ==> exists i :: 0 <= i < |entries| && entries[i].name == name
  {
    if entries != [] {
      var rest, last := entries[..|entries| - 1], entries[|entries| - 1];
      NamesHold(rest);
      assert entries == rest + [last];
      forall name | name in Names(entries) ensures exists i :: 0 <= i < |entries| && entries[i].name == name {
        if name != last.name {
          var i :| 0 <= i < |rest| && rest[i].name == name;
          assert entries[i].name == name;
        }
      }
    }
  }

  lemma DistinctAppend(rest: seq<Entry>, last: Entry)
    ensures NamesDistinct(rest + [last]) <==>
      NamesDistinct(rest) && forall i :: 0 <= i < |rest| ==> rest[i].name != last.name
  {
    var all := rest + [last];
    assert forall i :: 0 <= i < |rest| ==> all[i] == rest[i];
    if NamesDistinct(all) {
      assert forall i :: 0 <= i < |rest| ==> all[i].name != all[|rest|].name;
    }
  }

  lemma NoNames()
    ensures NamesDistinct([]) && Names([]) == {}
  {}

  lemma {:induction false} NamesCounted(entries: seq<Entry>)
    ensures |Names(entries)| <= |entries|
    ensures |Names(entries)| == |entries| <==> NamesDistinct(entries)
  {
    hide NamesDistinct;
    if entries == [] {
      NoNames();
    } else {
      var rest, last := entries[..|entries| - 1], entries[|entries| - 1];
      assert entries == rest + [last];
      NamesCounted(rest);
      NamesHold(rest);
      DistinctAppend(rest, last);
      assert last.name in Names(rest) ==> Names(entries) == Names(rest);
      assert last.name !in Names(rest) ==> forall i :: 0 <= i < |rest| ==> rest[i] in rest;
    }
  }

  lemma SameNames(one: seq<Entry>, other: seq<Entry>)
    requires multiset(one) == multiset(other)
    ensures Names(one) <= Names(other)
  {
    NamesHold(one);
    NamesHold(other);
    forall name | name in Names(one) ensures name in Names(other) {
      var i :| 0 <= i < |one| && one[i].name == name;
      assert one[i] in multiset(other);
    }
  }

  /** Validity does not depend on the order of the entries. */
  lemma ValidPermuted(one: seq<Entry>, other: seq<Entry>)
    requires multiset(one) == multiset(other) && IsValidSelection(one)
    ensures IsValidSelection(other)
  {
    assert |multiset(one)| == |multiset(other)|;
    SameNames(one, other);
    SameNames(other, one);
    assert Names(one) == Names(other);
    NamesCounted(one);
    NamesCounted(other);
    forall i | 0 <= i < |other| ensures IsValidEntry(other[i]) {
      assert other[i] in multiset(one);
    }
  }

  // --------------------------------------------------------------- resolution

  predicate IsWanted(requested: Option<seq<string>>, name: string)
  {
    requested.Some? ==> name in requested.value
  }

  /** The wanted servers in the plugin's order, up to the first whose command cannot be resolved. */
  function PickedServers(world: World, entry: Entry, directory: string,
                         servers: seq<Server>): Result<seq<ResolvedServer>, PluginError>
  {
    if servers == [] then Success([])
    else
      var server := servers[|servers| - 1];
      var rest := PickedServers(world, entry, directory, servers[..|servers| - 1]);
      if rest.Failure? || !IsWanted(entry.servers, server.name) then rest
      else
        var command := world.command(entry.name, directory, server);
        if command.Failure? then Failure(command.error)
        else Success(rest.value + [ResolvedServer(entry.name, server.name, command.value)])
  }

  function PickedSkills(entry: Entry, available: map<string, string>,
                        wanted: seq<string>): Result<seq<ResolvedSkill>, PluginError>
  {
    if wanted == [] then Success([])
    else
      var name := wanted[|wanted| - 1];
      var rest := PickedSkills(entry, available, wanted[..|wanted| - 1]);
      if rest.Failure? then rest
      else if name !in available then Failure(InvalidEnvironmentSelection)
      else Success(rest.value + [ResolvedSkill(entry.name, name, available[name])])
  }

  function Available(servers: seq<Server>): set<string>
  {
    set i | 0 <= i < |servers| :: servers[i].name
  }

  function PickedMcp(world: World, entry: Entry, directory: string, mcp: McpComponent)
    : Result<(seq<ResolvedServer>, seq<Diagnostic>), PluginError>
  {
    match mcp
    case Absent =>
      if entry.servers.Some? && entry.servers.value != [] then Failure(InvalidEnvironmentSelection)
        else Success(([], []))
    case Disabled(reason) =>
      Success(([], if entry.servers.None? || entry.servers.value != [] then [McpDisabled(entry.name, reason)] else []))
    case Loaded(servers) =>
      if entry.servers.Some? && exists name :: name in entry.servers.value && name !in Available(servers) then
        Failure(InvalidEnvironmentSelection)
      else
        var picked := PickedServers(world, entry, directory, servers);
        if picked.Failure? then Failure(picked.error) else Success((picked.value, []))
  }

  /** One entry's part of the plan. */
  function PartOf(world: World, environment: string, entry: Entry): Result<Plan, PluginError>
  {
    var manifest := ActivePlugin(world.plugins, entry.name);
    if manifest.Failure? then Failure(manifest.error)
    else
      var components, directory := world.components(manifest.value), world.dataDirectory(environment, entry.name);
      if directory.Failure? then Failure(directory.error)
      else
        var mcp := PickedMcp(world, entry, directory.value, components.mcp);
        if mcp.Failure? then Failure(mcp.error)
        else
          var skills := PickedSkills(entry, components.skills, entry.skills);
          if skills.Failure? then Failure(skills.error) else Success(Plan(mcp.value.0, skills.value, mcp.value.1))
  }

  function Joined(one: Plan, other: Plan): Plan
  {
    Plan(one.servers + other.servers, one.skills + other.skills, one.diagnostics + other.diagnostics)
  }

  /** Entry after entry, up to the first that fails. */
  function PlanOf(world: World, environment: string, entries: seq<Entry>): Result<Plan, PluginError>
  {
    if entries == [] then Success(Plan([], [], []))
    else
      var rest := PlanOf(world, environment, entries[..|entries| - 1]);
      if rest.Failure? then rest
      else
        var part := PartOf(world, environment, entries[|entries| - 1]);
        if part.Failure? then part else Success(Joined(rest.value, part.value))
  }

  ghost function Resolution(world: World, selection: Selection): Result<Plan, PluginError>
  {
    if !IsIdentifier(selection.environment) || !IsValidSelection(selection.entries) then
      Failure(InvalidEnvironmentSelection)
    else PlanOf(world, selection.environment, SortedByName(selection.entries))
  }

  /** The order in which a selection lists its plugins never matters, for its failures either. */
  lemma OrderIrrelevant(world: World, environment: string, one: seq<Entry>, other: seq<Entry>)
    requires multiset(one) == multiset(other)
    ensures Resolution(world, Selection(environment, one)) == Resolution(world, Selection(environment, other))
  {
    if IsValidSelection(one) {
      ValidPermuted(one, other);
      SortedAscending(one);
      SortedAscending(other);
      AscendingUnique(SortedByName(one), SortedByName(other));
    } else if IsValidSelection(other) {
      ValidPermuted(other, one);
    }
  }

  // ------------------------------------------------------ what one entry contributes

  /** The servers an entry asks for, in the plugin's order. */
  function Wanted(servers: seq<Server>, requested: Option<seq<string>>): seq<Server>
  {
    if servers == [] then []
    else
      var init, last := servers[..|servers| - 1], servers[|servers| - 1];
      Wanted(init, requested) + if IsWanted(requested, last.name) then [last] else []
  }

  /** Exactly the servers asked for; without a request all of them, in order. */
  lemma {:induction false} WantedAmong(servers: seq<Server>, requested: Option<seq<string>>)
    ensures forall server :: server in Wanted(servers, requested) <==>
      server in servers && IsWanted(requested, server.name)
    ensures requested.None? ==> Wanted(servers, requested) == servers
  {
    hide IsWanted;
    if servers != [] {
      var init, last := servers[..|servers| - 1], servers[|servers| - 1];
      WantedAmong(init, requested);
      assert servers == init + [last];
      WithoutRequest(requested, last.name);
    }
  }

  lemma WithoutRequest(requested: Option<seq<string>>, name: string)
    ensures requested.None? ==> IsWanted(requested, name)
  {}

  /** The order is the plugin's. */
  lemma {:induction false} WantedJoin(servers: seq<Server>, more: seq<Server>, requested: Option<seq<string>>)
    ensures Wanted(servers + more, requested) == Wanted(servers, requested) + Wanted(more, requested)
  {
    hide IsWanted;
    if more == [] {
      assert servers + more == servers;
    } else {
      assert (servers + more)[..|servers + more| - 1] == servers + more[..|more| - 1];
      WantedJoin(servers, more[..|more| - 1], requested);
    }
  }

  /** The wanted servers, each with the command resolved for it. */
  ghost predicate ServersFor(world: World, entry: Entry, directory: string, wanted: seq<Server>,
                             servers: seq<ResolvedServer>)
  {
    && |servers| == |wanted|
    && forall i :: 0 <= i < |wanted| ==>
      && servers[i].plugin == entry.name && servers[i].name == wanted[i].name
      && world.command(entry.name, directory, wanted[i]) == Success(servers[i].command)
  }

  lemma {:induction false} PickedExactly(world: World, entry: Entry, directory: string, servers: seq<Server>)
    ensures var picked := PickedServers(world, entry, directory, servers);
      && (picked.Success? <==>
            forall server :: server in servers && IsWanted(entry.servers, server.name) ==>
              world.command(entry.name, directory, server).Success?)
      && (picked.Success? ==> ServersFor(world, entry, directory, Wanted(servers, entry.servers), picked.value))
  {
    if servers != [] {
      hide IsWanted;
      var init, last := servers[..|servers| - 1], servers[|servers| - 1];
      PickedExactly(world, entry, directory, init);
      assert servers == init + [last];
    }
  }

  /** The requested skills in the requested order, described by the plugin. */
  ghost predicate SkillsFor(entry: Entry, available: map<string, string>, skills: seq<ResolvedSkill>)
  {
    && |skills| == |entry.skills|
    && forall i :: 0 <= i < |skills| ==>
      && entry.skills[i] in available
      && skills[i] == ResolvedSkill(entry.name, entry.skills[i], available[entry.skills[i]])
  }

  lemma {:induction false} SkillsExactly(entry: Entry, available: map<string, string>, wanted: seq<string>)
    ensures var picked := PickedSkills(entry, available, wanted);
      && (picked.Success? <==> forall name :: name in wanted ==> name in available)
      && (picked.Success? ==>
            && |picked.value| == |wanted|
            && forall i :: 0 <= i < |wanted| ==>
              wanted[i] in available && picked.value[i] == ResolvedSkill(entry.name, wanted[i], available[wanted[i]]))
  {
    if wanted != [] {
      var init, last := wanted[..|wanted| - 1], wanted[|wanted| - 1];
      SkillsExactly(entry, available, init);
      assert wanted == init + [last];
    }
  }

  /** Everything the entry asks for is there, and the command of every wanted server resolves. */
  ghost predicate Resolvable(world: World, environment: string, entry: Entry)
  {
    && ActivePlugin(world.plugins, entry.name).Success? && world.dataDirectory(environment, entry.name).Success?
    && var components := world.components(ActivePlugin(world.plugins, entry.name).value);
    && (forall name :: name in entry.skills ==> name in components.skills)
    && (components.mcp.Absent? ==> entry.servers.None? || entry.servers.value == [])
    && (components.mcp.Loaded? ==>
          && (entry.servers.Some? ==>
                forall name :: name in entry.servers.value ==> name in Available(components.mcp.servers))
          && forall server :: server in components.mcp.servers && IsWanted(entry.servers, server.name) ==>
            world.command(entry.name, world.dataDirectory(environment, entry.name).value, server).Success?)
  }

  /** What an entry adds to the plan: its servers with their commands, its skills, and why servers are missing. */
  ghost predicate Contributes(world: World, environment: string, entry: Entry, part: Plan)
  {
    && ActivePlugin(world.plugins, entry.name).Success? && world.dataDirectory(environment, entry.name).Success?
    && var components := world.components(ActivePlugin(world.plugins, entry.name).value);
    && SkillsFor(entry, components.skills, part.skills)
    && match components.mcp
      case Loaded(servers) =>
        && part.diagnostics == []
        && ServersFor(world, entry, world.dataDirectory(environment, entry.name).value, Wanted(servers, entry.servers),
                      part.servers)
      case Disabled(reason) =>
        && part.servers == []
        && part.diagnostics == if entry.servers == Some([]) then [] else [McpDisabled(entry.name, reason)]
      case Absent => part.servers == [] && part.diagnostics == []
  }

  lemma PartExactly(world: World, environment: string, entry: Entry)
    ensures PartOf(world, environment, entry).Success? <==> Resolvable(world, environment, entry)
    ensures PartOf(world, environment, entry).Success? ==>
      Contributes(world, environment, entry, PartOf(world, environment, entry).value)
  {
    hide PickedServers, PickedSkills, ActivePlugin, Wanted, ServersFor, IsWanted, Available;
    if ActivePlugin(world.plugins, entry.name).Success? && world.dataDirectory(environment, entry.name).Success? {
      var components := world.components(ActivePlugin(world.plugins, entry.name).value);
      SkillsExactly(entry, components.skills, entry.skills);
      if components.mcp.Loaded? {
        PickedExactly(world, entry, world.dataDirectory(environment, entry.name).value, components.mcp.servers);
      }
    }
  }

  // ------------------------------------------------------- what the plan holds

  function PluginOfServer(server: ResolvedServer): string
  {
    server.plugin
  }

  function PluginOfSkill(skill: ResolvedSkill): string
  {
    skill.plugin
  }

  function PluginOfDiagnostic(diagnostic: Diagnostic): string
  {
    diagnostic.plugin
  }

  /** The items of one plugin, in the order of the plan. */
  function OfPlugin<T>(items: seq<T>, plugin: T -> string, name: string): seq<T>
  {
    if items == [] then []
    else
      var last := items[|items| - 1];
      OfPlugin(items[..|items| - 1], plugin, name) + if plugin(last) == name then [last] else []
  }

  lemma {:induction false} OfPluginJoin<T>(one: seq<T>, other: seq<T>, plugin: T -> string, name: string)
    ensures OfPlugin(one + other, plugin, name) == OfPlugin(one, plugin, name) + OfPlugin(other, plugin, name)
  {
    if other == [] {
      assert one + other == one;
    } else {
      assert (one + other)[..|one + other| - 1] == one + other[..|other| - 1];
      OfPluginJoin(one, other[..|other| - 1], plugin, name);
    }
  }

  lemma {:induction false} OfPluginAll<T>(items: seq<T>, plugin: T -> string, owner: string, name: string)
    requires forall item :: item in items ==> plugin(item) == owner
    ensures OfPlugin(items, plugin, name) == if name == owner then items else []
  {
    if items != [] {
      OfPluginAll(items[..|items| - 1], plugin, owner, name);
      assert items == items[..|items| - 1] + [items[|items| - 1]];
    }
  }

  /** The part of a plan that concerns one plugin. */
  function PlanFor(plan: Plan, name: string): Plan
  {
    Plan(OfPlugin(plan.servers, PluginOfServer, name), OfPlugin(plan.skills, PluginOfSkill, name),
         OfPlugin(plan.diagnostics, PluginOfDiagnostic, name))
  }

  lemma PlanForJoin(one: Plan, other: Plan, name: string)
    ensures PlanFor(Joined(one, other), name) == Joined(PlanFor(one, name), PlanFor(other, name))
  {
    OfPluginJoin(one.servers, other.servers, PluginOfServer, name);
    OfPluginJoin(one.skills, other.skills, PluginOfSkill, name);
    OfPluginJoin(one.diagnostics, other.diagnostics, PluginOfDiagnostic, name);
  }

  /** An entry contributes to its own plugin only. */
  lemma PartFor(world: World, environment: string, entry: Entry, name: string)
    requires PartOf(world, environment, entry).Success?
    ensures var part := PartOf(world, environment, entry).value;
      PlanFor(part, name) == if name == entry.name then part else Plan([], [], [])
  {
    hide PartOf, OfPlugin, ActivePlugin, Wanted;
    PartExactly(world, environment, entry);
    var part := PartOf(world, environment, entry).value;
    OfPluginAll(part.servers, PluginOfServer, entry.name, name);
    OfPluginAll(part.skills, PluginOfSkill, entry.name, name);
    OfPluginAll(part.diagnostics, PluginOfDiagnostic, entry.name, name);
  }

  /** A plan of entries with distinct names holds for each plugin what its entry contributes, and nothing for others. */
  lemma {:induction false} PlanHolds(world: World, environment: string, entries: seq<Entry>, name: string)
    requires NamesDistinct(entries) && PlanOf(world, environment, entries).Success?
    ensures forall entry :: entry in entries ==> PartOf(world, environment, entry).Success?
    ensures forall entry :: entry in entries && entry.name == name ==>
      PlanFor(PlanOf(world, environment, entries).value, name) == PartOf(world, environment, entry).value
    ensures (forall entry :: entry in entries ==> entry.name != name) ==>
      PlanFor(PlanOf(world, environment, entries).value, name) == Plan([], [], [])
  {
    hide PartOf, PlanFor, Joined;
    if entries == [] {
      NothingFor(name);
    } else {
      var rest, last := entries[..|entries| - 1], entries[|entries| - 1];
      assert entries == rest + [last];
      DistinctAppend(rest, last);
      PlanHolds(world, environment, rest, name);
      PartFor(world, environment, last, name);
      var before, part := PlanOf(world, environment, rest).value, PartOf(world, environment, last).value;
      PlanForJoin(before, part, name);
      JoinedNothing(PlanFor(before, name));
      JoinedNothing(part);
      assert forall entry :: entry in rest ==> entry.name != last.name;
    }
  }

  lemma NothingFor(name: string)
    ensures PlanFor(Plan([], [], []), name) == Plan([], [], [])
  {}

  lemma JoinedNothing(plan: Plan)
    ensures Joined(plan, Plan([], [], [])) == plan && Joined(Plan([], [], []), plan) == plan
  {}

  lemma {:induction false} PlanSucceeds(world: World, environment: string, entries: seq<Entry>)
    ensures PlanOf(world, environment, entries).Success? <==>
      forall entry :: entry in entries ==> PartOf(world, environment, entry).Success?
  {
    hide PartOf;
    if entries != [] {
      PlanSucceeds(world, environment, entries[..|entries| - 1]);
      assert entries == entries[..|entries| - 1] + [entries[|entries| - 1]];
    }
  }

  lemma SortedHolds(entries: seq<Entry>)
    requires IsValidSelection(entries)
    ensures NamesDistinct(SortedByName(entries))
    ensures forall entry :: entry in SortedByName(entries) <==> entry in entries
  {
    hide SortedByName, IsValidEntry;
    SortedAscending(entries);
    ValidPermuted(entries, SortedByName(entries));
    forall entry ensures entry in SortedByName(entries) <==> entry in entries {
      assert entry in multiset(entries) <==> entry in entries;
      assert entry in multiset(SortedByName(entries)) <==> entry in SortedByName(entries);
    }
  }

  /**
   A selection resolves exactly when it is valid and everything every entry asks for
   is there. The plan then holds, plugin by plugin, exactly what the entry contributes,
   and nothing of a plugin that was not selected.
   */
  lemma PlanExactly(world: World, selection: Selection)
    ensures Resolution(world, selection).Success? <==>
      && IsIdentifier(selection.environment) && IsValidSelection(selection.entries)
      && forall entry :: entry in selection.entries ==> Resolvable(world, selection.environment, entry)
    ensures Resolution(world, selection).Success? ==>
      && (forall entry :: entry in selection.entries ==>
            Contributes(world, selection.environment, entry, PlanFor(Resolution(world, selection).value, entry.name)))
      && forall name :: (forall entry :: entry in selection.entries ==> entry.name != name) ==>
        PlanFor(Resolution(world, selection).value, name) == Plan([], [], [])
  {
    hide PartOf, PlanOf, PlanFor, SortedByName, IsValidSelection, Resolvable, Contributes, IsIdentifier;
    if IsValidSelection(selection.entries) {
      var sorted := SortedByName(selection.entries);
      SortedHolds(selection.entries);
      PlanSucceeds(world, selection.environment, sorted);
      forall entry | entry in selection.entries
        ensures PartOf(world, selection.environment, entry).Success? <==>
                Resolvable(world, selection.environment, entry)
        ensures PartOf(world, selection.environment, entry).Success? ==>
          Contributes(world, selection.environment, entry, PartOf(world, selection.environment, entry).value)
      {
        PartExactly(world, selection.environment, entry);
      }
      if PlanOf(world, selection.environment, sorted).Success? {
        forall name {
          PlanHolds(world, selection.environment, sorted, name);
        }
      }
    }
  }

  /** Plugin names never fall along one component of a plan. */
  ghost predicate InPluginOrder<T>(items: seq<T>, plugin: T -> string)
  {
    forall i, j :: 0 <= i < j < |items| ==>
      plugin(items[i]) == plugin(items[j]) || Precedes(plugin(items[i]), plugin(items[j]))
  }

  ghost predicate OwnedBelow<T>(items: seq<T>, plugin: T -> string, name: string)
  {
    forall item :: item in items ==> Precedes(plugin(item), name)
  }

  lemma OrderedJoin<T>(one: seq<T>, other: seq<T>, plugin: T -> string, owner: string)
    requires InPluginOrder(one, plugin) && OwnedBelow(one, plugin, owner)
    requires forall item :: item in other ==> plugin(item) == owner
    ensures InPluginOrder(one + other, plugin)
    ensures forall name :: Precedes(owner, name) ==> OwnedBelow(one + other, plugin, name)
  {
    forall name, item | Precedes(owner, name) && item in one ensures Precedes(plugin(item), name) {
      PrecedesTransitive(plugin(item), owner, name);
    }
    hide Precedes;
  }

  ghost predicate PlanInOrder(plan: Plan)
  {
    && InPluginOrder(plan.servers, PluginOfServer) && InPluginOrder(plan.skills, PluginOfSkill)
    && InPluginOrder(plan.diagnostics, PluginOfDiagnostic)
  }

  ghost predicate PlanBelow(plan: Plan, name: string)
  {
    && OwnedBelow(plan.servers, PluginOfServer, name) && OwnedBelow(plan.skills, PluginOfSkill, name)
    && OwnedBelow(plan.diagnostics, PluginOfDiagnostic, name)
  }

  lemma PlanOrderedJoin(world: World, environment: string, before: Plan, last: Entry)
    requires PlanInOrder(before) && PlanBelow(before, last.name) && PartOf(world, environment, last).Success?
    ensures var plan := Joined(before, PartOf(world, environment, last).value);
      PlanInOrder(plan) && forall name :: Precedes(last.name, name) ==> PlanBelow(plan, name)
  {
    hide PartOf, Precedes, InPluginOrder, OwnedBelow, ActivePlugin, Wanted;
    PartExactly(world, environment, last);
    var part := PartOf(world, environment, last).value;
    OrderedJoin(before.servers, part.servers, PluginOfServer, last.name);
    OrderedJoin(before.skills, part.skills, PluginOfSkill, last.name);
    OrderedJoin(before.diagnostics, part.diagnostics, PluginOfDiagnostic, last.name);
  }

  lemma AscendingPairs(entries: seq<Entry>, i: nat, j: nat)
    requires Ascending(entries) && i < j < |entries|
    ensures Precedes(entries[i].name, entries[j].name)
  {
    if i == 0 {
      assert entries[j] == entries[1..][j - 1];
    } else {
      AscendingPairs(entries[1..], i - 1, j - 1);
    }
  }

  lemma {:induction false} PlanOrdered(world: World, environment: string, entries: seq<Entry>)
    requires forall i, j :: 0 <= i < j < |entries| ==> Precedes(entries[i].name, entries[j].name)
    requires PlanOf(world, environment, entries).Success?
    ensures PlanInOrder(PlanOf(world, environment, entries).value)
    ensures forall name :: (entries == [] || Precedes(entries[|entries| - 1].name, name)) ==>
      PlanBelow(PlanOf(world, environment, entries).value, name)
  {
    hide PartOf, Precedes, Joined;
    if entries != [] {
      hide PlanInOrder, PlanBelow;
      PlanOrdered(world, environment, entries[..|entries| - 1]);
      PlanOrderedJoin(world, environment, PlanOf(world, environment, entries[..|entries| - 1]).value,
                      entries[|entries| - 1]);
    }
  }

  /** Servers, skills and diagnostics come in the order of the plugins' names. */
  lemma PlanSorted(world: World, selection: Selection)
    requires Resolution(world, selection).Success?
    ensures PlanInOrder(Resolution(world, selection).value)
  {
    hide PlanOf, Precedes, SortedByName, Ascending;
    var sorted := SortedByName(selection.entries);
    SortedAscending(selection.entries);
    forall i, j | 0 <= i < j < |sorted| ensures Precedes(sorted[i].name, sorted[j].name) {
      AscendingPairs(sorted, i, j);
    }
    PlanOrdered(world, selection.environment, sorted);
  }

  /** How often a plan lists a server of a plugin. */
  function Times(servers: seq<ResolvedServer>, plugin: string, name: string): nat
  {
    if servers == [] then 0
    else
      var last := servers[|servers| - 1];
      Times(servers[..|servers| - 1], plugin, name) + (if last.plugin == plugin && last.name == name then 1 else 0)
  }

  lemma {:induction false} TimesOfPlugin(servers: seq<ResolvedServer>, plugin: string, name: string)
    ensures Times(servers, plugin, name) == Times(OfPlugin(servers, PluginOfServer, plugin), plugin, name)
  {
    if servers != [] {
      var init, last := servers[..|servers| - 1], servers[|servers| - 1];
      TimesOfPlugin(init, plugin, name);
      var mine := OfPlugin(init, PluginOfServer, plugin);
      assert (mine + [last])[..|mine|] == mine;
      assert mine + [] == mine;
    }
  }

  ghost predicate ServerNamesDistinct(servers: seq<Server>)
  {
    forall i, j :: 0 <= i < j < |servers| ==> servers[i].name != servers[j].name
  }

  /** Each wanted server once, nothing else. */
  lemma {:induction false} PickedOnce(world: World, entry: Entry, directory: string, servers: seq<Server>,
                                      plugin: string, name: string)
    requires PickedServers(world, entry, directory, servers).Success? && ServerNamesDistinct(servers)
    ensures Times(PickedServers(world, entry, directory, servers).value, plugin, name) ==
      if plugin == entry.name && name in Available(servers) && IsWanted(entry.servers, name) then 1 else 0
  {
    if servers != [] {
      var rest, last := servers[..|servers| - 1], servers[|servers| - 1];
      assert forall i :: 0 <= i < |rest| ==> rest[i] == servers[i];
      PickedOnce(world, entry, directory, rest, plugin, name);
      AvailableAppend(servers);
      assert last.name !in Available(rest);
      hide Available, ServerNamesDistinct, IsWanted;
      var picked := PickedServers(world, entry, directory, servers).value;
      if IsWanted(entry.servers, last.name) {
        assert picked[..|picked| - 1] == PickedServers(world, entry, directory, rest).value;
      }
    }
  }

  lemma AvailableAppend(servers: seq<Server>)
    requires servers != []
    ensures Available(servers) == Available(servers[..|servers| - 1]) + {servers[|servers| - 1].name}
  {
    var rest := servers[..|servers| - 1];
    forall name | name in Available(servers) ensures name in Available(rest) || name == servers[|rest|].name {
      var i :| 0 <= i < |servers| && servers[i].name == name;
      assert i < |rest| ==> rest[i].name == name;
    }
    forall name | name in Available(rest) ensures name in Available(servers) {
      var i :| 0 <= i < |rest| && rest[i].name == name;
      assert servers[i].name == name;
    }
  }

  /** The entry's plugin and its components as the plan saw them. */
  ghost predicate Offers(world: World, name: string, servers: seq<Server>)
  {
    && ActivePlugin(world.plugins, name).Success?
    && world.components(ActivePlugin(world.plugins, name).value).mcp == Loaded(servers)
  }

  /**
   In a resolved plan, for a selected plugin whose servers are loaded: a request
   names only servers the plugin has, each wanted server is listed exactly once, and
   no other server of that plugin is.
   */
  lemma WantedServersOnce(world: World, selection: Selection, entry: Entry, servers: seq<Server>, name: string)
    requires Resolution(world, selection).Success? && entry in selection.entries
    requires Offers(world, entry.name, servers) && ServerNamesDistinct(servers)
    ensures entry.servers.Some? && name in entry.servers.value ==> name in Available(servers)
    ensures Times(Resolution(world, selection).value.servers, entry.name, name) ==
      if name in Available(servers) && (entry.servers.Some? ==> name in entry.servers.value) then 1 else 0
  {
    hide PartOf, PlanOf, SortedByName, Offers, OfPlugin, Times, IsValidEntry;
    var sorted := SortedByName(selection.entries);
    SortedHolds(selection.entries);
    PlanHolds(world, selection.environment, sorted, entry.name);
    TimesOfPlugin(Resolution(world, selection).value.servers, entry.name, name);
    PartPicks(world, selection.environment, entry, servers);
    PickedOnce(world, entry, world.dataDirectory(selection.environment, entry.name).value, servers, entry.name, name);
  }

  lemma PartPicks(world: World, environment: string, entry: Entry, servers: seq<Server>)
    requires PartOf(world, environment, entry).Success? && Offers(world, entry.name, servers)
    ensures world.dataDirectory(environment, entry.name).Success?
    ensures PickedServers(world, entry, world.dataDirectory(environment, entry.name).value, servers) ==
      Success(PartOf(world, environment, entry).value.servers)
    ensures entry.servers.Some? ==> forall name :: name in entry.servers.value ==> name in Available(servers)
  {}

  // ----------------------------------------------------------------- the loops

  method ResolveServers(world: World, entry: Entry, directory: string, servers: seq<Server>)
    returns (result: Result<seq<ResolvedServer>, PluginError>)
    ensures result == PickedServers(world, entry, directory, servers)
  {
    var picked: seq<ResolvedServer> := [];
    for i := 0 to |servers|
      invariant PickedServers(world, entry, directory, servers[..i]) == Success(picked)
    {
      var server := servers[i];
      assert servers[..i + 1][..i] == servers[..i];
      if !IsWanted(entry.servers, server.name) {
        continue;
      }
      var command := world.command(entry.name, directory, server);
      if command.Failure? {
        PickedFails(world, entry, directory, servers, i + 1);
        return Failure(command.error);
      }
      picked := picked + [ResolvedServer(entry.name, server.name, command.value)];
    }
    assert servers[..|servers|] == servers;
    return Success(picked);
  }

  /** A failure in a prefix is the failure of the whole. */
  lemma {:induction false} PickedFails(world: World, entry: Entry, directory: string, servers: seq<Server>, n: nat)
    requires n <= |servers| && PickedServers(world, entry, directory, servers[..n]).Failure?
    ensures PickedServers(world, entry, directory, servers) == PickedServers(world, entry, directory, servers[..n])
    decreases |servers|
  {
    if n == |servers| {
      assert servers[..n] == servers;
    } else {
      assert servers[..|servers| - 1][..n] == servers[..n];
      PickedFails(world, entry, directory, servers[..|servers| - 1], n);
    }
  }

  method ResolveSkills(entry: Entry, available: map<string, string>)
    returns (result: Result<seq<ResolvedSkill>, PluginError>)
    ensures result == PickedSkills(entry, available, entry.skills)
    ensures result.Success? ==>
      && |result.value| == |entry.skills|
      && forall i :: 0 <= i < |entry.skills| ==>
           entry.skills[i] in available
             && result.value[i] == ResolvedSkill(entry.name, entry.skills[i], available[entry.skills[i]])
    ensures result.Failure? ==> exists i :: 0 <= i < |entry.skills| && entry.skills[i] !in available
  {
    var picked: seq<ResolvedSkill> := [];
    for i := 0 to |entry.skills|
      invariant PickedSkills(entry, available, entry.skills[..i]) == Success(picked)
      invariant |picked| == i
      invariant forall k :: 0 <= k < i ==>
        entry.skills[k] in available
          && picked[k] == ResolvedSkill(entry.name, entry.skills[k], available[entry.skills[k]])
    {
      var name := entry.skills[i];
      assert entry.skills[..i + 1][..i] == entry.skills[..i];
      if name !in available {
        SkillsFail(entry, available, entry.skills, i + 1);
        return Failure(InvalidEnvironmentSelection);
      }
      picked := picked + [ResolvedSkill(entry.name, name, available[name])];
    }
    assert entry.skills[..|entry.skills|] == entry.skills;
    return Success(picked);
  }

  lemma {:induction false} SkillsFail(entry: Entry, available: map<string, string>, wanted: seq<string>, n: nat)
    requires n <= |wanted| && PickedSkills(entry, available, wanted[..n]).Failure?
    ensures PickedSkills(entry, available, wanted) == PickedSkills(entry, available, wanted[..n])
    decreases |wanted|
  {
    if n == |wanted| {
      assert wanted[..n] == wanted;
    } else {
      assert wanted[..|wanted| - 1][..n] == wanted[..n];
      SkillsFail(entry, available, wanted[..|wanted| - 1], n);
    }
  }

  method ResolveEntry(world: World, environment: string, entry: Entry) returns (result: Result<Plan, PluginError>)
    ensures result == PartOf(world, environment, entry)
  {
    var manifest := ActivePlugin(world.plugins, entry.name);
    if manifest.Failure? {
      return Failure(manifest.error);
    }
    var components := world.components(manifest.value);
    var directory := world.dataDirectory(environment, entry.name);
    if directory.Failure? {
      return Failure(directory.error);
    }
    var servers: seq<ResolvedServer> := [];
    var diagnostics: seq<Diagnostic> := [];
    match components.mcp {
      case Absent =>
        if entry.servers.Some? && entry.servers.value != [] {
          return Failure(InvalidEnvironmentSelection);
        }
      case Disabled(reason) =>
        if entry.servers.None? || entry.servers.value != [] {
          diagnostics := [McpDisabled(entry.name, reason)];
        }
      case Loaded(available) =>
        if entry.servers.Some? && exists name :: name in entry.servers.value && name !in Available(available) {
          return Failure(InvalidEnvironmentSelection);
        }
        var picked := ResolveServers(world, entry, directory.value, available);
        if picked.Failure? {
          return Failure(picked.error);
        }
        servers := picked.value;
    }
    var skills := ResolveSkills(entry, components.skills);
    if skills.Failure? {
      return Failure(skills.error);
    }
    return Success(Plan(servers, skills.value, diagnostics));
  }

  method ResolveEnvironmentPlugins(world: World, selection: Selection) returns (result: Result<Plan, PluginError>)
    ensures result == Resolution(world, selection)
    ensures result.Success? ==>
      && PlanInOrder(result.value)
      && forall entry :: entry in selection.entries ==>
        Contributes(world, selection.environment, entry, PlanFor(result.value, entry.name))
  {
    hide PartOf, PlanFor, Contributes, PlanInOrder, IsIdentifier, SortedByName, IsValidSelection, Joined;
    PlanExactly(world, selection);
    if Resolution(world, selection).Success? {
      PlanSorted(world, selection);
    }
    if !IsIdentifier(selection.environment) {
      return Failure(InvalidEnvironmentSelection);
    }
    var accepted := ValidateSelection(selection.entries);
    if !accepted {
      return Failure(InvalidEnvironmentSelection);
    }
    var entries := SortedByName(selection.entries);
    var plan := Plan([], [], []);
    for i := 0 to |entries|
      invariant PlanOf(world, selection.environment, entries[..i]) == Success(plan)
    {
      assert entries[..i + 1][..i] == entries[..i];
      var part := ResolveEntry(world, selection.environment, entries[i]);
      if part.Failure? {
        PlanFails(world, selection.environment, entries, i + 1);
        return part;
      }
      plan := Joined(plan, part.value);
    }
    assert entries[..|entries|] == entries;
    return Success(plan);
  }

  lemma {:induction false} PlanFails(world: World, environment: string, entries: seq<Entry>, n: nat)
    requires n <= |entries| && PlanOf(world, environment, entries[..n]).Failure?
    ensures PlanOf(world, environment, entries) == PlanOf(world, environment, entries[..n])
    decreases |entries|
  {
    hide PartOf;
    if n == |entries| {
      assert entries[..n] == entries;
    } else {
      assert entries[..|entries| - 1][..n] == entries[..n];
      PlanFails(world, environment, entries[..|entries| - 1], n);
    }
  }
}
