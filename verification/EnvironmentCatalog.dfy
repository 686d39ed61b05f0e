/**
 The catalog of Environments on disk. Every file-system call may fail, as a
 schedule decides, and the process may stop after any of them; what a later load
 finds is compared with what the catalog held in memory.
 */
module EnvironmentCatalog {
  import opened Wrappers
  import opened EnvironmentIds
  import opened EnvironmentLoad

  // --------------------------------------------------------------------- disk

  /** How a call goes. A write can also fail late, with its content whole and only the sync missing. */
  datatype Fault = Works | Fails | FailsLate

  /** One call: its fault, and the undecodable prefix that a write passes through. */
  datatype Attempt = Attempt(fault: Fault, torn: nat)

  /** `n` calls from `from` on all work. */
  predicate AllWork(schedule: nat -> Attempt, from: nat, n: nat)
  {
    forall call | from <= call < from + n :: schedule(call).fault == Works
  }

  lemma AllWorkMore(schedule: nat -> Attempt, from: nat, n: nat)
    ensures AllWork(schedule, from, 0)
    ensures AllWork(schedule, from, n + 1) <==> AllWork(schedule, from, n) && schedule(from + n).fault == Works
  {}

  lemma AllWorkFew(schedule: nat -> Attempt, from: nat)
    ensures AllWork(schedule, from, 1) <==> schedule(from).fault == Works
    ensures AllWork(schedule, from, 2) <==> schedule(from).fault == Works && schedule(from + 1).fault == Works
    ensures AllWork(schedule, from, 3) <==>
      schedule(from).fault == Works && schedule(from + 1).fault == Works && schedule(from + 2).fault == Works
  {
    AllWorkMore(schedule, from, 0);
    AllWorkMore(schedule, from, 1);
    AllWorkMore(schedule, from, 2);
  }

  /** The user root. Each call takes the next attempt of the schedule. */
  class Disk {
    const schedule: nat -> Attempt
    var calls: nat
    var root: Root
    /** The root after every step that changed it: the states a crash can leave. */
    ghost var history: seq<Root>

    constructor (schedule: nat -> Attempt, root: Root)
      ensures this.schedule == schedule && this.root == root && calls == 0 && history == []
    {
      this.schedule, this.root, calls := schedule, root, 0;
      history := [];
    }

    predicate WorksAt(call: nat)
    {
      schedule(call).fault == Works
    }

    method Put(name: string, entry: Entry) returns (done: bool)
      modifies this
      ensures calls == old(calls) + 1
      ensures done <==> WorksAt(old(calls))
      ensures done ==> root == old(root)[name := entry] && history == old(history) + [root]
      ensures !done ==> root == old(root) && history == old(history)
    {
      done := WorksAt(calls);
      calls := calls + 1;
      if done {
        root := root[name := entry];
        history := history + [root];
      }
    }

    method Remove(name: string) returns (done: bool)
      modifies this
      ensures calls == old(calls) + 1
      ensures done <==> WorksAt(old(calls))
      ensures done ==> root == old(root) - {name} && history == old(history) + [root]
      ensures !done ==> root == old(root) && history == old(history)
    {
      done := WorksAt(calls);
      calls := calls + 1;
      if done {
        root := root - {name};
        history := history + [root];
      }
    }

    /** One atomic step: `source` disappears and `target` is `entry`. */
    method Rename(source: string, target: string, entry: Entry) returns (done: bool)
      modifies this
      ensures calls == old(calls) + 1
      ensures done <==> WorksAt(old(calls))
      ensures done ==> root == (old(root) - {source})[target := entry] && history == old(history) + [root]
      ensures !done ==> root == old(root) && history == old(history)
    {
      done := WorksAt(calls);
      calls := calls + 1;
      if done {
        root := (root - {source})[target := entry];
        history := history + [root];
      }
    }

    /** Resolve a path; nothing changes. */
    method Resolve() returns (done: bool)
      modifies this`calls
      ensures calls == old(calls) + 1
      ensures done <==> WorksAt(old(calls))
    {
      done := WorksAt(calls);
      calls := calls + 1;
    }

    /**
     Write and sync the open file of an entry. A prefix that does not decode comes
     first, then the whole content; a failure strikes before the content is whole or,
     late, after it.
     */
    method Write(name: string, inDirectory: bool, content: Content) returns (done: bool)
      modifies this
      ensures calls == old(calls) + 1
      ensures done <==> WorksAt(old(calls))
      ensures var attempt := schedule(old(calls));
        var partial := old(root)[name := FileEntry(inDirectory, Undecodable(attempt.torn))];
        var whole := old(root)[name := FileEntry(inDirectory, content)];
        if attempt.fault == Fails then root == partial && history == old(history) + [partial]
        else root == whole && history == old(history) + [partial, whole]
    {
      var attempt := schedule(calls);
      ghost var before := root;
      calls := calls + 1;
      root := root[name := FileEntry(inDirectory, Undecodable(attempt.torn))];
      history := history + [root];
      if attempt.fault == Fails {
        return false;
      }
      root := root[name := FileEntry(inDirectory, content)];
      assert root == before[name := FileEntry(inDirectory, content)];
      history := history + [root];
      return attempt.fault == Works;
    }
  }

  // ------------------------------------------------------------------ catalog

  function TemporaryName(id: string, pid: string): string
  {
    ".environment-" + id + ".json.tmp-" + pid
  }

  function TombstoneName(id: string, pid: string): string
  {
    ".deleted-" + id + "-" + pid
  }

  lemma HiddenNames(id: string, pid: string)
    ensures !IsEnvironmentId(TemporaryName(id, pid)) && !IsEnvironmentId(TombstoneName(id, pid))
  {
    assert TemporaryName(id, pid)[0] == '.' && TombstoneName(id, pid)[0] == '.';
  }

  /** The states a crash can leave each load as one of two maps. */
  ghost predicate LoadsAsEither(rules: Rules, states: seq<Root>, before: Environments, after: Environments)
  {
    forall i :: 0 <= i < |states| ==> Loadable(rules, states[i]) == before || Loadable(rules, states[i]) == after
  }

  lemma EitherJoin(rules: Rules, states: seq<Root>, more: seq<Root>, before: Environments, after: Environments)
    requires LoadsAsEither(rules, states, before, after) && LoadsAsEither(rules, more, before, after)
    ensures LoadsAsEither(rules, states + more, before, after)
  {
    hide Loadable;
  }

  /** The calls that make room for a new descriptor: its directory unless it is there, and the empty file. */
  function OpeningCalls(root: Root, id: string): nat
  {
    if id !in root then 2 else 1
  }

  /** Create the directory unless it is there, then its empty descriptor, which must not be. */
  method OpenDescriptor(rules: Rules, disk: Disk, id: string, ghost after: Environments)
    returns (created: bool, ghost states: seq<Root>)
    modifies disk
    ensures disk.history == old(disk.history) + states
    ensures LoadsAsEither(rules, states, Loadable(rules, old(disk.root)), after)
    ensures Loadable(rules, disk.root) == Loadable(rules, old(disk.root))
    ensures created <==>
      IsFree(old(disk.root), id) && AllWork(disk.schedule, old(disk.calls), OpeningCalls(old(disk.root), id))
    ensures created ==>
      && disk.root == old(disk.root)[id := FileEntry(true, Undecodable(0))]
      && disk.calls == old(disk.calls) + OpeningCalls(old(disk.root), id)
    ensures !created ==>
      disk.root - {id} == old(disk.root) - {id} && (IsFree(disk.root, id) <==> IsFree(old(disk.root), id))
    ensures !IsFree(old(disk.root), id) ==> disk.root == old(disk.root)
  {
    AllWorkFew(disk.schedule, disk.calls);
    hide AllWork;
    states := [];
    if id in disk.root && disk.root[id] != Directory(None) {
      return false, states;
    }
    ghost var start := disk.root;
    if id !in disk.root {
      var made := disk.Put(id, Directory(None));
      if !made {
        return false, states;
      }
      UnseenChange(rules, start, id, Directory(None));
      states := [disk.root];
    }
    ghost var empty := FileEntry(true, Undecodable(0));
    UnseenChange(rules, disk.root, id, empty);
    created := disk.Put(id, FileEntry(true, Undecodable(0)));
    if created {
      assert disk.root == start[id := empty];
      states := states + [disk.root];
    }
  }

  /**
   The descriptor is left whole although the call fails: only the sync failed and it
   could not be removed, or its path could not be resolved.
   */
  predicate Strands(schedule: nat -> Attempt, call: nat)
  {
    schedule(call).fault != Fails && schedule(call + 1).fault != Works
  }

  /**
   Write the opened descriptor and sync it; a failed write is removed again, as far
   as the disk allows, and a written file's path is resolved.
   */
  method WriteDescriptor(rules: Rules, disk: Disk, id: string, descriptor: Descriptor)
    returns (written: bool, ghost states: seq<Root>)
    requires id in disk.root && id !in Loadable(rules, disk.root) && IsSound(rules, id, descriptor)
    modifies disk
    ensures disk.history == old(disk.history) + states
    ensures LoadsAsEither(rules, states, Loadable(rules, old(disk.root)),
                          Loadable(rules, old(disk.root))[id := descriptor])
    ensures written <==> AllWork(disk.schedule, old(disk.calls), 2)
    ensures written ==> disk.root == old(disk.root)[id := FileEntry(true, Encoded(descriptor))]
    ensures disk.root - {id} == old(disk.root) - {id}
    ensures IsFree(disk.root, id) <==> !disk.WorksAt(old(disk.calls)) && disk.WorksAt(old(disk.calls) + 1)
    ensures Loadable(rules, disk.root) ==
      if written || Strands(disk.schedule, old(disk.calls)) then Loadable(rules, old(disk.root))[id := descriptor]
      else Loadable(rules, old(disk.root))
  {
    AllWorkFew(disk.schedule, disk.calls);
    hide IsEnvironmentId, IsSound, AllWork;
    ghost var start := disk.root;
    ghost var partial := FileEntry(true, Undecodable(disk.schedule(disk.calls).torn));
    ghost var whole := FileEntry(true, Encoded(descriptor));
    UnseenChange(rules, start, id, partial);
    SeenChange(rules, start, id, descriptor);
    var done := disk.Write(id, true, Encoded(descriptor));
    states := disk.history[|old(disk.history)|..];
    assert states == [start[id := partial]] || states == [start[id := partial], start[id := whole]];
    if !done {
      var removed := disk.Put(id, Directory(None));
      if removed {
        assert disk.root == start[id := Directory(None)];
        UnseenChange(rules, start, id, Directory(None));
        states := states + [disk.root];
      }
      return false, states;
    }
    written := disk.Resolve();
  }

  /** The temporary file stays when it could be created and then neither renamed nor removed. */
  predicate LeavesTemporary(schedule: nat -> Attempt, call: nat)
  {
    && schedule(call).fault == Works && schedule(call + 2).fault != Works
    && (schedule(call + 1).fault == Works ==> schedule(call + 3).fault != Works)
  }

  ghost function LastOf(root: Root, states: seq<Root>): Root
  {
    if states == [] then root else states[|states| - 1]
  }

  /** The states of a new file: created, torn, whole. */
  ghost function FileStates(schedule: nat -> Attempt, call: nat, root: Root, name: string, content: Content): seq<Root>
  {
    var begun := [root[name := FileEntry(false, Undecodable(0))],
                  root[name := FileEntry(false, Undecodable(schedule(call + 1).torn))]];
    if schedule(call).fault != Works then []
    else if schedule(call + 1).fault == Fails then begun
    else begun + [root[name := FileEntry(false, content)]]
  }

  /** A new file in the root: created empty, then written and synced. */
  method WriteFile(disk: Disk, name: string, content: Content)
    returns (created: bool, written: bool, ghost states: seq<Root>)
    requires name !in disk.root
    modifies disk
    ensures disk.history == old(disk.history) + states && disk.root == LastOf(old(disk.root), states)
    ensures states == FileStates(disk.schedule, old(disk.calls), old(disk.root), name, content)
    ensures created <==> disk.WorksAt(old(disk.calls))
    ensures written <==> created && disk.WorksAt(old(disk.calls) + 1)
    ensures created ==> disk.calls == old(disk.calls) + 2 && disk.root - {name} == old(disk.root)
  {
    hide FileEntry;
    ghost var start := disk.root;
    states := [];
    Overwritten(start, name, FileEntry(false, Undecodable(0)),
                FileEntry(false, Undecodable(disk.schedule(disk.calls + 1).torn)));
    Overwritten(start, name, FileEntry(false, Undecodable(0)), FileEntry(false, content));
    created := disk.Put(name, FileEntry(false, Undecodable(0)));
    if !created {
      return false, false, states;
    }
    written := disk.Write(name, false, content);
    states := FileStates(disk.schedule, old(disk.calls), start, name, content);
  }

  /** The states of a replacement: those of the temporary file, and then it is renamed or removed. */
  ghost function ReplacementStates(schedule: nat -> Attempt, call: nat, root: Root, id: string, descriptor: Descriptor,
                                   temporary: string): seq<Root>
  {
    if temporary in root then []
    else
      var file := FileStates(schedule, call, root, temporary, Encoded(descriptor));
      if schedule(call).fault != Works then file
      else if schedule(call + 2).fault == Works then
        file + [if schedule(call + 1).fault == Works then root[id := FileEntry(true, Encoded(descriptor))] else root]
      else if schedule(call + 1).fault == Works && schedule(call + 3).fault == Works then file + [root]
      else file
  }

  /**
   Write a fresh file under a name no load considers, then rename it over the
   descriptor. A file that was there under that name blocks the call and stays.
   */
  method ReplaceDescriptor(disk: Disk, id: string, descriptor: Descriptor, temporary: string)
    returns (replaced: bool, ghost states: seq<Root>)
    modifies disk
    ensures disk.history == old(disk.history) + states && disk.root == LastOf(old(disk.root), states)
    ensures states == ReplacementStates(disk.schedule, old(disk.calls), old(disk.root), id, descriptor, temporary)
    ensures replaced <==> temporary !in old(disk.root) && AllWork(disk.schedule, old(disk.calls), 3)
  {
    AllWorkFew(disk.schedule, disk.calls);
    hide AllWork, FileEntry, FileStates;
    states := [];
    if temporary in disk.root {
      return false, states;
    }
    var created, written, file := WriteFile(disk, temporary, Encoded(descriptor));
    states := file;
    if !created {
      return false, states;
    }
    if written {
      replaced := disk.Rename(temporary, id, FileEntry(true, Encoded(descriptor)));
      if replaced {
        states := states + [disk.root];
        return true, states;
      }
    }
    var removed := disk.Remove(temporary);
    if removed {
      states := states + [disk.root];
    }
    return false, states;
  }

  /** A new entry, written over and removed. */
  lemma Overwritten(root: Root, name: string, first: Entry, second: Entry)
    requires name !in root
    ensures root[name := first][name := second] == root[name := second]
    ensures root[name := second] - {name} == root && root - {name} == root
  {}

  /** At every step a load finds the old or the new map, the new one in the end exactly on success. */
  lemma ReplacementLoads(rules: Rules, schedule: nat -> Attempt, call: nat, root: Root, id: string,
                         descriptor: Descriptor, temporary: string)
    requires IsSound(rules, id, descriptor) && !IsEnvironmentId(temporary)
    ensures var states := ReplacementStates(schedule, call, root, id, descriptor, temporary);
      && LoadsAsEither(rules, states, Loadable(rules, root), Loadable(rules, root)[id := descriptor])
      && Loadable(rules, LastOf(root, states)) ==
           if temporary !in root && AllWork(schedule, call, 3) then Loadable(rules, root)[id := descriptor]
           else Loadable(rules, root)
  {
    AllWorkFew(schedule, call);
    UnseenChange(rules, root, temporary, FileEntry(false, Undecodable(0)));
    UnseenChange(rules, root, temporary, FileEntry(false, Undecodable(schedule(call + 1).torn)));
    UnseenChange(rules, root, temporary, FileEntry(false, Encoded(descriptor)));
    SeenChange(rules, root, id, descriptor);
    hide Loadable, IsEnvironmentId, IsSound, AllWork, FileEntry;
  }

  /**
   The temporary file remains exactly when it was there before or could be neither
   renamed nor removed, and nothing but it and the descriptor changes.
   */
  lemma ReplacementLeaves(schedule: nat -> Attempt, call: nat, root: Root, id: string, descriptor: Descriptor,
                          temporary: string)
    requires temporary != id
    ensures var next := LastOf(root, ReplacementStates(schedule, call, root, id, descriptor, temporary));
      && (temporary in next <==> temporary in root || LeavesTemporary(schedule, call))
      && next - {temporary} ==
           if temporary !in root && AllWork(schedule, call, 3) then
             (root - {temporary})[id := FileEntry(true, Encoded(descriptor))]
           else root - {temporary}
  {
    AllWorkFew(schedule, call);
    if temporary !in root {
      var torn, whole := FileEntry(false, Undecodable(schedule(call + 1).torn)), FileEntry(false, Encoded(descriptor));
      Overwritten(root, temporary, torn, torn);
      Overwritten(root, temporary, whole, whole);
      Overwritten(root[id := FileEntry(true, Encoded(descriptor))], temporary, whole, whole);
      hide AllWork;
    }
  }

  /** The states of a burial: the directory renamed, emptied, removed. */
  ghost function BurialStates(schedule: nat -> Attempt, call: nat, root: Root, id: string, tombstone: string): seq<Root>
    requires id in root
  {
    if !IsFree(root, tombstone) || schedule(call).fault != Works then []
    else
      var buried := [(root - {id})[tombstone := root[id]]];
      if schedule(call + 1).fault != Works then buried
      else
        var emptied := buried + [(root - {id})[tombstone := Directory(None)]];
        if schedule(call + 2).fault != Works then emptied else emptied + [root - {id} - {tombstone}]
  }

  /**
   One rename takes the directory out of every load; emptying and removing it is
   best effort. The directory may be blocked by an earlier tombstone of that name.
   */
  method BuryDirectory(disk: Disk, id: string, tombstone: string) returns (buried: bool, ghost states: seq<Root>)
    requires id in disk.root
    modifies disk
    ensures disk.history == old(disk.history) + states && disk.root == LastOf(old(disk.root), states)
    ensures states == BurialStates(disk.schedule, old(disk.calls), old(disk.root), id, tombstone)
    ensures buried <==> IsFree(old(disk.root), tombstone) && disk.WorksAt(old(disk.calls))
  {
    states := [];
    if tombstone in disk.root && disk.root[tombstone] != Directory(None) {
      return false, states;
    }
    ghost var start := disk.root;
    buried := disk.Rename(id, tombstone, disk.root[id]);
    if !buried {
      return false, states;
    }
    states := [disk.root];
    var emptied := disk.Put(tombstone, Directory(None));
    if emptied {
      assert disk.root == (start - {id})[tombstone := Directory(None)];
      states := states + [disk.root];
      var removed := disk.Remove(tombstone);
      if removed {
        assert disk.root == start - {id} - {tombstone};
        states := states + [disk.root];
      }
    }
  }

  /**
   At every step a load finds the old map or the one without the Environment. A
   tombstone remains when it could not be emptied or not be removed, and blocks the
   next deletion of the id exactly when it could not be emptied.
   */
  lemma BurialSafe(rules: Rules, schedule: nat -> Attempt, call: nat, root: Root, id: string, tombstone: string)
    requires id in root && root[id] != Directory(None) && !IsEnvironmentId(tombstone) && IsEnvironmentId(id)
    ensures var states := BurialStates(schedule, call, root, id, tombstone);
      var next, success := LastOf(root, states), IsFree(root, tombstone) && schedule(call).fault == Works;
      && LoadsAsEither(rules, states, Loadable(rules, root), Loadable(rules, root) - {id})
      && Loadable(rules, next) == Loadable(rules, root) - (if success then {id} else {})
      && (success ==> (tombstone in next <==> !AllWork(schedule, call + 1, 2)))
      && (IsFree(next, tombstone) <==> IsFree(root, tombstone) && (success ==> schedule(call + 1).fault == Works))
      && next - {tombstone} == root - {tombstone} - (if success then {id} else {})
  {
    AllWorkFew(schedule, call + 1);
    SeenRemoval(rules, root, id);
    UnseenChange(rules, root - {id}, tombstone, root[id]);
    UnseenChange(rules, root - {id}, tombstone, Directory(None));
    assert tombstone != id;
    hide Loadable, IsEnvironmentId, AllWork;
    assert (root - {id})[tombstone := root[id]] - {tombstone} == root - {tombstone} - {id};
    assert (root - {id})[tombstone := Directory(None)] - {tombstone} == root - {tombstone} - {id};
    assert root - {id} - {tombstone} - {tombstone} == root - {tombstone} - {id};
  }

  /** Open the descriptor and write it. */
  method CreateDescriptor(rules: Rules, disk: Disk, id: string, descriptor: Descriptor)
    returns (written: bool, ghost states: seq<Root>)
    requires IsSound(rules, id, descriptor)
    modifies disk
    ensures disk.history == old(disk.history) + states
    ensures LoadsAsEither(rules, states, Loadable(rules, old(disk.root)),
                          Loadable(rules, old(disk.root))[id := descriptor])
    ensures var opening, start := OpeningCalls(old(disk.root), id), old(disk.calls);
      var opens := IsFree(old(disk.root), id) && AllWork(disk.schedule, start, opening);
      && (written <==> opens && AllWork(disk.schedule, start + opening, 2))
      && Loadable(rules, disk.root) ==
           (if opens && (written || Strands(disk.schedule, start + opening)) then
              Loadable(rules, old(disk.root))[id := descriptor]
            else Loadable(rules, old(disk.root)))
      && (IsFree(disk.root, id) <==>
            && IsFree(old(disk.root), id)
            && (opens ==> !disk.WorksAt(start + opening) && disk.WorksAt(start + opening + 1)))
    ensures disk.root - {id} == old(disk.root) - {id}
    ensures written ==> disk.root == old(disk.root)[id := FileEntry(true, Encoded(descriptor))]
    ensures !IsFree(old(disk.root), id) ==> disk.root == old(disk.root)
  {
    if IsFree(disk.root, id) {
      FreeNotLoadable(rules, disk.root, id);
    }
    hide Loadable, IsEnvironmentId, IsSound, AllWork, Strands;
    ghost var after := Loadable(rules, disk.root)[id := descriptor];
    var created, trace := OpenDescriptor(rules, disk, id, after);
    states := trace;
    if !created {
      return false, states;
    }
    assert old(disk.root)[id := FileEntry(true, Undecodable(0))] - {id} == old(disk.root) - {id};
    ghost var more;
    written, more := WriteDescriptor(rules, disk, id, descriptor);
    EitherJoin(rules, states, more, Loadable(rules, old(disk.root)), after);
    states := states + more;
  }

  lemma FreeNotLoadable(rules: Rules, root: Root, id: string)
    requires IsFree(root, id)
    ensures id !in Loadable(rules, root)
  {}

  // --------------------------------------------------------- memory and disk

  /** What the catalog holds in memory is on disk; the disk may hold more. */
  ghost predicate Remembers(environments: Environments, loadable: Environments)
  {
    forall id :: id in environments ==> id in loadable && loadable[id] == environments[id]
  }

  datatype CatalogCall =
    | Create(id: string, configuration: string, permissions: string, harnesses: string)
    | Save(id: string, configuration: string)
    | Delete(id: string)

  /** The disk, its place in the schedule, and the memory, at one moment. */
  datatype Moment = Moment(root: Root, calls: nat, environments: Environments)

  /** The descriptor that a create or a save writes. */
  function Written(environments: Environments, call: CatalogCall): Descriptor
    requires call.Create? || call.id in environments
  {
    match call
    case Create(id, configuration, permissions, harnesses) => Descriptor(id, configuration, permissions, harnesses)
    case Save(id, configuration) => environments[id].(configuration := configuration)
    case Delete(id) => environments[id]
  }

  /** A create that passes its checks and that nothing on disk blocks. */
  predicate Opens(rules: Rules, moment: Moment, call: CatalogCall)
  {
    && call.Create? && call.id !in moment.environments && IsFree(moment.root, call.id)
    && IsSound(rules, call.id, Written(moment.environments, call))
  }

  predicate Succeeds(rules: Rules, pid: string, schedule: nat -> Attempt, moment: Moment, call: CatalogCall)
  {
    match call
    case Create(id, _, _, _) =>
      Opens(rules, moment, call) && AllWork(schedule, moment.calls, OpeningCalls(moment.root, id) + 2)
    case Save(id, _) =>
      && id in moment.environments && rules.valid(Written(moment.environments, call))
      && TemporaryName(id, pid) !in moment.root && AllWork(schedule, moment.calls, 3)
    case Delete(id) =>
      && id in moment.environments
      && IsFree(moment.root, TombstoneName(id, pid)) && schedule(moment.calls).fault == Works
  }

  /** A create that is reported as failed and still leaves its whole descriptor. */
  predicate StrandsAt(rules: Rules, schedule: nat -> Attempt, moment: Moment, call: CatalogCall)
  {
    && Opens(rules, moment, call)
    && AllWork(schedule, moment.calls, OpeningCalls(moment.root, call.id))
    && Strands(schedule, moment.calls + OpeningCalls(moment.root, call.id))
  }

  function Updated(environments: Environments, call: CatalogCall, memory: Environments): Environments
    requires call.Create? || call.id in memory
  {
    if call.Delete? then environments - {call.id} else environments[call.id := Written(memory, call)]
  }

  /** What one call does to the memory and to what a load finds. */
  ghost predicate Follows(rules: Rules, pid: string, schedule: nat -> Attempt, moment: Moment, call: CatalogCall,
                          next: Moment)
  {
    var success := Succeeds(rules, pid, schedule, moment, call);
    && next.environments ==
         (if success then Updated(moment.environments, call, moment.environments) else moment.environments)
    && Loadable(rules, next.root) ==
         (if success || StrandsAt(rules, schedule, moment, call) then
            Updated(Loadable(rules, moment.root), call, moment.environments)
          else Loadable(rules, moment.root))
  }

  /** The Environments that a load finds and the memory lacks. */
  function Stranded(rules: Rules, moment: Moment): set<string>
  {
    Loadable(rules, moment.root).Keys - moment.environments.Keys
  }

  ghost predicate IsService(rules: Rules, pid: string, schedule: nat -> Attempt, moments: seq<Moment>,
                            calls: seq<CatalogCall>)
  {
    && |moments| == |calls| + 1
    && Remembers(moments[0].environments, Loadable(rules, moments[0].root))
    && forall i :: 0 <= i < |calls| ==> Follows(rules, pid, schedule, moments[i], calls[i], moments[i + 1])
  }

  /** The ids of the creates that strand their descriptors. */
  function StrandedIds(rules: Rules, schedule: nat -> Attempt, moments: seq<Moment>,
                       calls: seq<CatalogCall>): set<string>
    requires |calls| <= |moments|
  {
    set i | 0 <= i < |calls| && StrandsAt(rules, schedule, moments[i], calls[i]) :: calls[i].id
  }

  /** A create that passed its checks, seen from memory and disk. */
  lemma CreateFollows(rules: Rules, pid: string, schedule: nat -> Attempt, moment: Moment, call: CatalogCall,
                      next: Moment, written: bool)
    requires call.Create? && call.id !in moment.environments
      && IsSound(rules, call.id, Written(moment.environments, call))
    requires Remembers(moment.environments, Loadable(rules, moment.root)) && next.environments == moment.environments
    requires var at := moment.calls + OpeningCalls(moment.root, call.id);
      var opens := IsFree(moment.root, call.id) && AllWork(schedule, moment.calls, OpeningCalls(moment.root, call.id));
      && (written <==> opens && AllWork(schedule, at, 2))
      && Loadable(rules, next.root) ==
           if opens && (written || Strands(schedule, at)) then
             Loadable(rules, moment.root)[call.id := Written(moment.environments, call)]
           else Loadable(rules, moment.root)
    ensures written <==> Succeeds(rules, pid, schedule, moment, call)
    ensures var known :=
      if written then Updated(moment.environments, call, moment.environments) else moment.environments;
      && Follows(rules, pid, schedule, moment, call, next.(environments := known))
      && Remembers(known, Loadable(rules, next.root))
  {
    AllWorkJoin(schedule, moment.calls, OpeningCalls(moment.root, call.id));
    StrandedFails(rules, pid, schedule, moment, call);
    if IsFree(moment.root, call.id) {
      FreeNotLoadable(rules, moment.root, call.id);
    }
    hide Loadable, AllWork, IsSound, IsFree;
    if written {
      assert !Strands(schedule, moment.calls + OpeningCalls(moment.root, call.id)) || written;
    }
  }

  lemma SaveFollows(rules: Rules, pid: string, schedule: nat -> Attempt, moment: Moment, call: CatalogCall,
                    next: Moment, replaced: bool)
    requires call.Save? && call.id in moment.environments && rules.valid(Written(moment.environments, call))
    requires Remembers(moment.environments, Loadable(rules, moment.root)) && next.environments == moment.environments
    requires replaced <==> TemporaryName(call.id, pid) !in moment.root && AllWork(schedule, moment.calls, 3)
    requires Loadable(rules, next.root) ==
      if replaced then Loadable(rules, moment.root)[call.id := Written(moment.environments, call)]
      else Loadable(rules, moment.root)
    ensures replaced <==> Succeeds(rules, pid, schedule, moment, call)
    ensures var known :=
        if replaced then Updated(moment.environments, call, moment.environments) else moment.environments;
      && Follows(rules, pid, schedule, moment, call, next.(environments := known))
      && Remembers(known, Loadable(rules, next.root))
  {
    hide Loadable, AllWork, IsSound, IsFree, TemporaryName;
  }

  lemma FollowsStranded(rules: Rules, pid: string, schedule: nat -> Attempt, moment: Moment, call: CatalogCall,
                        next: Moment)
    requires Follows(rules, pid, schedule, moment, call, next)
    requires Remembers(moment.environments, Loadable(rules, moment.root))
    ensures Remembers(next.environments, Loadable(rules, next.root))
    ensures Stranded(rules, next) ==
      Stranded(rules, moment) + (if StrandsAt(rules, schedule, moment, call) then {call.id} else {})
  {
    if Opens(rules, moment, call) {
      FreeNotLoadable(rules, moment.root, call.id);
    }
    StrandedFails(rules, pid, schedule, moment, call);
    var before, memory, id := Loadable(rules, moment.root), moment.environments, call.id;
    if call.Create? || id in memory {
      KeysMove(memory, before, id, Written(memory, call));
    }
    hide Loadable, IsSound, IsFree, Strands, AllWork, TemporaryName, TombstoneName, Remembers, Written;
  }

  /** A new key on disk alone, or a change on both sides. */
  lemma KeysMove(memory: Environments, loadable: Environments, id: string, descriptor: Descriptor)
    requires Remembers(memory, loadable)
    ensures id !in memory ==>
      && Remembers(memory, loadable[id := descriptor])
      && loadable[id := descriptor].Keys - memory.Keys == loadable.Keys - memory.Keys + {id}
    ensures Remembers(memory[id := descriptor], loadable[id := descriptor])
    ensures id in memory || id !in loadable ==>
      loadable[id := descriptor].Keys - memory[id := descriptor].Keys == loadable.Keys - memory.Keys
    ensures Remembers(memory - {id}, loadable - {id})
    ensures id in memory ==> (loadable - {id}).Keys - (memory - {id}).Keys == loadable.Keys - memory.Keys
  {
    assert loadable[id := descriptor].Keys == loadable.Keys + {id};
    assert memory[id := descriptor].Keys == memory.Keys + {id};
    assert (loadable - {id}).Keys == loadable.Keys - {id} && (memory - {id}).Keys == memory.Keys - {id};
  }

  lemma StrandedFails(rules: Rules, pid: string, schedule: nat -> Attempt, moment: Moment, call: CatalogCall)
    ensures StrandsAt(rules, schedule, moment, call) ==> !Succeeds(rules, pid, schedule, moment, call)
  {
    hide IsSound, IsFree;
    if StrandsAt(rules, schedule, moment, call) {
      var at := moment.calls + OpeningCalls(moment.root, call.id);
      assert schedule(at + 1).fault != Works;
    }
  }

  /**
   Over any sequence of calls and faults the memory stays right about what it holds,
   and a load finds beyond it exactly what a load found before and the Environments
   of the creates that stranded their descriptors.
   */
  lemma {:induction false} StrandedExactly(rules: Rules, pid: string, schedule: nat -> Attempt, moments: seq<Moment>,
                                           calls: seq<CatalogCall>)
    requires IsService(rules, pid, schedule, moments, calls)
    ensures var last := moments[|calls|];
      && Remembers(last.environments, Loadable(rules, last.root))
      && Stranded(rules, last) == Stranded(rules, moments[0]) + StrandedIds(rules, schedule, moments, calls)
  {
    hide Follows, Remembers, Stranded, StrandsAt;
    var n := |calls|;
    if n == 0 {
      assert StrandedIds(rules, schedule, moments, calls) == {};
    } else {
      var before, earlier := moments[..n], calls[..n - 1];
      StrandedExactly(rules, pid, schedule, before, earlier);
      FollowsStranded(rules, pid, schedule, moments[n - 1], calls[n - 1], moments[n]);
      StrandedLast(rules, schedule, moments, calls);
    }
  }

  lemma StrandedLast(rules: Rules, schedule: nat -> Attempt, moments: seq<Moment>, calls: seq<CatalogCall>)
    requires calls != [] && |moments| == |calls| + 1
    ensures var n := |calls| - 1;
      StrandedIds(rules, schedule, moments, calls) ==
        StrandedIds(rules, schedule, moments[..n + 1], calls[..n])
          + (if StrandsAt(rules, schedule, moments[n], calls[n]) then {calls[n].id} else {})
  {
    hide StrandsAt;
    var n := |calls| - 1;
    var all, init :=
      StrandedIds(rules, schedule, moments, calls), StrandedIds(rules, schedule, moments[..n + 1], calls[..n]);
    forall id | id in all
      ensures id in init || (StrandsAt(rules, schedule, moments[n], calls[n]) && id == calls[n].id) {
      var i :| 0 <= i < |calls| && StrandsAt(rules, schedule, moments[i], calls[i]) && calls[i].id == id;
      if i < n {
        assert moments[..n + 1][i] == moments[i] && calls[..n][i] == calls[i];
      }
    }
    forall id | id in init ensures id in all {
      var i :| 0 <= i < n && StrandsAt(rules, schedule, moments[..n + 1][i], calls[..n][i]) && calls[..n][i].id == id;
      assert moments[..n + 1][i] == moments[i] && calls[..n][i] == calls[i];
    }
    assert StrandsAt(rules, schedule, moments[n], calls[n]) ==> calls[n].id in all;
  }

  class EnvironmentCatalog {
    const rules: Rules
    const pid: string
    const disk: Disk
    var environments: Environments

    ghost function Now(): Moment
      reads this, disk
    {
      Moment(disk.root, disk.calls, environments)
    }

    /** What is in memory is what a load would find under the same ids. */
    ghost predicate Valid()
      reads this, disk
    {
      Remembers(environments, Loadable(rules, disk.root))
    }

    /** A new catalog holds everything that a load finds. */
    constructor (rules: Rules, pid: string, disk: Disk)
      ensures Valid() && this.rules == rules && this.pid == pid && this.disk == disk
      ensures environments == Loadable(rules, disk.root) && Stranded(rules, Now()) == {}
    {
      this.rules, this.pid, this.disk := rules, pid, disk;
      environments := Loadable(rules, disk.root);
    }

    /**
     A create that passes its checks succeeds exactly when nothing blocks the new
     directory and every call works. When it strands a whole descriptor, loads find
     the Environment whose creation was reported as failed. A failure blocks the id
     exactly when the descriptor could be opened and then not be removed again.
     */
    method CreateUserEnvironment(id: string, configuration: string, permissions: string, harnesses: string)
      returns (result: Result<Descriptor, CatalogError>, ghost states: seq<Root>)
      requires Valid() && harnesses in rules.supported
      modifies this, disk
      ensures Valid() && disk.history == old(disk.history) + states
      ensures LoadsAsEither(rules, states, Loadable(rules, old(disk.root)),
                            Loadable(rules, old(disk.root))[id :=
                                Descriptor(id, configuration, permissions, harnesses)])
      ensures result == Failure(InvalidId) <==> !IsEnvironmentId(id)
      ensures result == Failure(Duplicate) <==> IsEnvironmentId(id) && id in old(environments)
      ensures result == Failure(InvalidDescriptor) <==>
        && IsEnvironmentId(id) && id !in old(environments)
        && !rules.valid(Descriptor(id, configuration, permissions, harnesses))
      ensures result.Success? <==>
        Succeeds(rules, pid, disk.schedule, old(Now()), Create(id, configuration, permissions, harnesses))
      ensures result.Failure? ==> result.error in {InvalidId, Duplicate, InvalidDescriptor, Io}
      ensures AllWork(disk.schedule, old(disk.calls), 4) ==>
        (result == Failure(Io) <==>
          && IsSound(rules, id, Descriptor(id, configuration, permissions, harnesses)) && id !in old(environments)
          && !IsFree(old(disk.root), id))
      ensures result.Success? ==>
        && result.value == Descriptor(id, configuration, permissions, harnesses)
        && disk.root == old(disk.root)[id := FileEntry(true, Encoded(result.value))]
      ensures disk.root - {id} == old(disk.root) - {id}
      ensures Opens(rules, old(Now()), Create(id, configuration, permissions, harnesses)) ==>
        var at := old(disk.calls) + OpeningCalls(old(disk.root), id);
        (IsFree(disk.root, id) <==>
           || !AllWork(disk.schedule, old(disk.calls), OpeningCalls(old(disk.root), id))
           || (!disk.WorksAt(at) && disk.WorksAt(at + 1)))
      ensures !Opens(rules, old(Now()), Create(id, configuration, permissions, harnesses)) ==>
        disk.root == old(disk.root)
      ensures Follows(rules, pid, disk.schedule, old(Now()), Create(id, configuration, permissions, harnesses), Now())
    {
      ghost var opening := OpeningCalls(disk.root, id);
      AllWorkJoin(disk.schedule, disk.calls, opening);
      assert AllWork(disk.schedule, disk.calls, 4) ==> AllWork(disk.schedule, disk.calls, opening + 2);
      hide Loadable, IsEnvironmentId, AllWork, Strands;
      states := [];
      if !IsEnvironmentId(id) {
        return Failure(InvalidId), states;
      }
      if id in environments {
        return Failure(Duplicate), states;
      }
      var descriptor := Descriptor(id, configuration, permissions, harnesses);
      if !rules.valid(descriptor) {
        return Failure(InvalidDescriptor), states;
      }
      ghost var start := Now();
      var written, trace := CreateDescriptor(rules, disk, id, descriptor);
      states := trace;
      CreateFollows(rules, pid, disk.schedule, start, Create(id, configuration, permissions, harnesses), Now(),
                    written);
      if !written {
        return Failure(Io), states;
      }
      environments := environments[id := descriptor];
      return Success(descriptor), states;
    }

    /** The stored permissions and harnesses stay; everything else is replaced together. */
    method SaveConfiguration(id: string, configuration: string)
      returns (result: Result<Descriptor, CatalogError>, ghost states: seq<Root>)
      requires Valid()
      modifies this, disk
      ensures Valid() && disk.history == old(disk.history) + states
      ensures result == Failure(NotFound) <==> id !in old(environments)
      ensures id !in old(environments) ==> states == []
      ensures id in old(environments) ==> var descriptor := old(environments)[id].(configuration := configuration);
        && LoadsAsEither(rules, states, Loadable(rules, old(disk.root)),
                         Loadable(rules, old(disk.root))[id := descriptor])
        && (result == Failure(InvalidDescriptor) <==> !rules.valid(descriptor))
        && (result.Success? ==> result.value == descriptor)
        && (rules.valid(descriptor) ==>
              (TemporaryName(id, pid) in disk.root <==>
                 TemporaryName(id, pid) in old(disk.root) || LeavesTemporary(disk.schedule, old(disk.calls))))
      ensures result.Success? <==> Succeeds(rules, pid, disk.schedule, old(Now()), Save(id, configuration))
      ensures result.Failure? ==> result.error in {NotFound, InvalidDescriptor, Io}
      ensures Follows(rules, pid, disk.schedule, old(Now()), Save(id, configuration), Now())
    {
      states := [];
      if id !in environments {
        return Failure(NotFound), states;
      }
      var descriptor := environments[id].(configuration := configuration);
      if !rules.valid(descriptor) {
        return Failure(InvalidDescriptor), states;
      }
      var temporary := TemporaryName(id, pid);
      HiddenNames(id, pid);
      RememberedSound(rules, environments, disk.root, id);
      ReplacementLoads(rules, disk.schedule, disk.calls, disk.root, id, descriptor, temporary);
      ReplacementLeaves(disk.schedule, disk.calls, disk.root, id, descriptor, temporary);
      hide Loadable, TemporaryName, IsSound, ReplacementStates, LoadsAsEither, AllWork, LeavesTemporary;
      hide Follows, Remembers, Succeeds;
      ghost var start := Now();
      var replaced, trace := ReplaceDescriptor(disk, id, descriptor, temporary);
      states := trace;
      SaveFollows(rules, pid, disk.schedule, start, Save(id, configuration), Now(), replaced);
      if !replaced {
        return Failure(Io), states;
      }
      environments := environments[id := descriptor];
      return Success(descriptor), states;
    }

    method DeleteUserEnvironment(id: string) returns (result: Result<Unit, CatalogError>, ghost states: seq<Root>)
      requires Valid()
      modifies this, disk
      ensures Valid() && disk.history == old(disk.history) + states
      ensures LoadsAsEither(rules, states, Loadable(rules, old(disk.root)), Loadable(rules, old(disk.root)) - {id})
      ensures result ==
        if id !in old(environments) then Failure(NotFound)
        else if Succeeds(rules, pid, disk.schedule, old(Now()), Delete(id)) then Success(Unit)
        else Failure(Io)
      ensures result.Success? ==>
        (IsFree(disk.root, TombstoneName(id, pid)) <==> disk.WorksAt(old(disk.calls) + 1))
      ensures Follows(rules, pid, disk.schedule, old(Now()), Delete(id), Now())
    {
      states := [];
      if id !in environments {
        return Failure(NotFound), states;
      }
      var tombstone := TombstoneName(id, pid);
      HiddenNames(id, pid);
      RememberedSound(rules, environments, disk.root, id);
      BurialSafe(rules, disk.schedule, disk.calls, disk.root, id, tombstone);
      hide Loadable, TombstoneName, IsSound, BurialStates, LoadsAsEither, AllWork;
      var buried, trace := BuryDirectory(disk, id, tombstone);
      states := trace;
      if !buried {
        return Failure(Io), states;
      }
      environments := environments - {id};
      return Success(Unit), states;
    }

    method Perform(call: CatalogCall)
      requires Valid() && (call.Create? ==> call.harnesses in rules.supported)
      modifies this, disk
      ensures Valid() && Follows(rules, pid, disk.schedule, old(Now()), call, Now())
    {
      hide Follows, Remembers, Loadable;
      match call
      case Create(id, configuration, permissions, harnesses) =>
        var _, _ := CreateUserEnvironment(id, configuration, permissions, harnesses);
      case Save(id, configuration) =>
        var _, _ := SaveConfiguration(id, configuration);
      case Delete(id) =>
        var _, _ := DeleteUserEnvironment(id);
    }
  }

  lemma AllWorkJoin(schedule: nat -> Attempt, from: nat, n: nat)
    ensures AllWork(schedule, from, n + 2) <==> AllWork(schedule, from, n) && AllWork(schedule, from + n, 2)
  {
    AllWorkMore(schedule, from, n);
    AllWorkMore(schedule, from, n + 1);
    AllWorkFew(schedule, from + n);
  }

  lemma RememberedSound(rules: Rules, environments: Environments, root: Root, id: string)
    requires Remembers(environments, Loadable(rules, root)) && id in environments
    ensures id in root && root[id] == Directory(Some(Encoded(environments[id]))) && IsSound(rules, id, environments[id])
    ensures IsEnvironmentId(id)
  {}

  /** Any calls, one after another: their moments are a service, so `StrandedExactly` holds of them. */
  method Serve(catalog: EnvironmentCatalog, calls: seq<CatalogCall>) returns (ghost moments: seq<Moment>)
    requires catalog.Valid()
    requires forall i :: 0 <= i < |calls| && calls[i].Create? ==> calls[i].harnesses in catalog.rules.supported
    modifies catalog, catalog.disk
    ensures catalog.Valid()
    ensures IsService(catalog.rules, catalog.pid, catalog.disk.schedule, moments, calls)
    ensures moments[0] == old(catalog.Now()) && moments[|calls|] == catalog.Now()
    ensures Stranded(catalog.rules, catalog.Now()) ==
      Stranded(catalog.rules, old(catalog.Now())) + StrandedIds(catalog.rules, catalog.disk.schedule, moments, calls)
  {
    hide Follows, Remembers, Loadable, Stranded, StrandedIds;
    moments := [catalog.Now()];
    for i := 0 to |calls|
      invariant catalog.Valid() && |moments| == i + 1
      invariant moments[0] == old(catalog.Now()) && moments[i] == catalog.Now()
      invariant forall k :: 0 <= k < i ==>
        Follows(catalog.rules, catalog.pid, catalog.disk.schedule, moments[k], calls[k], moments[k + 1])
    {
      catalog.Perform(calls[i]);
      moments := moments + [catalog.Now()];
    }
    StrandedExactly(catalog.rules, catalog.pid, catalog.disk.schedule, moments, calls);
  }

  // ------------------------------------------------------------ two failures

  /**
   In an empty root the sync and then the removal fail: the create is reported as
   failed, and the next load finds it.
   */
  method StrandedCreate(rules: Rules, pid: string, descriptor: Descriptor)
    returns (result: Result<Descriptor, CatalogError>, reloaded: Environments)
    requires IsSound(rules, descriptor.id, descriptor)
    ensures result == Failure(Io) && reloaded == map[descriptor.id := descriptor]
  {
    var schedule := (call: nat) => Attempt(if call == 2 then FailsLate else if call == 3 then Fails else Works, 0);
    var disk := new Disk(schedule, map[]);
    var catalog := new EnvironmentCatalog(rules, pid, disk);
    assert catalog.environments == map[];
    assert disk.schedule(2).fault == FailsLate && disk.schedule(3).fault == Fails;
    ghost var states;
    result, states := catalog.CreateUserEnvironment(descriptor.id, descriptor.configuration, descriptor.permissions,
                                                    descriptor.harnesses);
    reloaded := Loadable(rules, disk.root);
  }

  /**
   With room for one Environment, which is there: a second create succeeds on a
   disk where every call works, and every load after it ends at the limit.
   */
  method CreateBeyondLimit(rules: Rules, pid: string, limits: Limits, first: Descriptor, second: Descriptor)
    returns (before: Result<(Environments, map<string, Refusal>), CatalogError>,
             result: Result<Descriptor, CatalogError>,
             after: Result<(Environments, map<string, Refusal>), CatalogError>)
    requires IsSound(rules, first.id, first) && IsSound(rules, second.id, second) && first.id != second.id
    requires limits.maxEnvironments == 1 && rules.size(first) <= limits.maxBytes
      && rules.size(first) <= limits.maxTotalBytes
    ensures before == Success((map[first.id := first], map[]))
    ensures result == Success(second) && after == Failure(LimitExceeded)
  {
    hide IsEnvironmentId, Loadable, Refusals, LoadSucceeds, WithinLimits;
    ghost var root: Root := map[first.id := FileEntry(true, Encoded(first))];
    SingleRoot(rules, limits, first);
    var disk := new Disk((call: nat) => Attempt(Works, 0), map[first.id := FileEntry(true, Encoded(first))]);
    before := LoadRoot(rules, limits, disk.root, [first.id]);
    var catalog := new EnvironmentCatalog(rules, pid, disk);
    ghost var states;
    result, states :=
      catalog.CreateUserEnvironment(second.id, second.configuration, second.permissions, second.harnesses);
    assert {first.id} + {second.id} == {first.id, second.id};
    LoadAfterCreate(rules, limits, root, second.id, second, [first.id, second.id]);
    after := LoadRoot(rules, limits, disk.root, [first.id, second.id]);
  }

  lemma SingleRoot(rules: Rules, limits: Limits, only: Descriptor)
    requires IsSound(rules, only.id, only)
    requires limits.maxEnvironments >= 1 && rules.size(only) <= limits.maxBytes
      && rules.size(only) <= limits.maxTotalBytes
    ensures var root: Root := map[only.id := FileEntry(true, Encoded(only))];
      && Loadable(rules, root) == map[only.id := only] && Refusals(rules, root) == map[]
      && Candidates(root) == {only.id} && WithinLimits(rules, limits, root)
  {
    hide IsEnvironmentId;
    AddedWithin(rules, limits, map[], only.id, only);
    SeenChange(rules, map[], only.id, only);
    assert Candidates(map[]) == {} && Loadable(rules, map[]) == map[] && Weights(rules, map[]) == map[];
  }
}
