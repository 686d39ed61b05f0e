# Agent Factory cores in Dafny

A model of the parts of Agent Factory whose correctness is hardest to see from one
function body, with proofs of what they guarantee. Verify everything with
`dafny verify dfyconfig.toml`.

## What is modelled

**The project store.** `StoreTables` holds the rows, `ProjectStore` the store object.
Its methods run the statement sequence of each transaction on a copy of the tables and
commit the result or leave everything as it was. What each transaction means is stated
as a function in a ledger module (`PaneLayout` and `WorkspaceLedger` for the workspace,
`DraftLedger` for Agents, Drafts and Versions, `EnvironmentTable` for the Environment
catalog, `FactoryRuns` for Runs), and the consequences are proved there. `PaneWidths`
is the arithmetic of pane widths. `PaneRows` is the `workspace_panes` table as three
slots, so that every single UPDATE is checked against UNIQUE(position) and the width
check as it happens. `StoreRuns` joins the ledgers: any sequence of calls, refused ones
included, keeps all invariants at once. The store object carries the run it has made, so
these results hold of it at every moment. `RunCopies` adds callers that load a Run, move
it in memory and save it as separate acts, and `RunHolders` has them as objects.
`ReachableStores` holds runs from the empty store that end where a call disappoints.

**The output ring.** `OutputRing` is the terminal buffer with absolute cursors. It
refines the unbounded stream of pushed bytes for any interleaving of one writer and
polling readers.

**Storage protocols under faults.** `EnvironmentCatalog` (with `EnvironmentLoad` and
`EnvironmentIds`), `SecretStores` and `PluginStore` run against a disk or Keychain object
whose every call may fail, and which records the state after each step. A crash can leave
any recorded state, so what is proved of all of them is proved of every crash. Each follows
a schedule of faults, so that success, failure and what a failure leaves have exact conditions.

**Parsers and codecs.** `FrameCodec` is the length-prefixed frame stream, `CommitTree`
the `ls-tree -z -l` parser, `Placeholders` the single-pass expansion, `Utf8`,
`Utf8Characters` and `TextRead` the bounded text read.

**Selections.** `ReleaseVersions` and `ReleaseSelection` choose an update,
`PluginResolve` resolves an Environment's plugins.

`Wrappers`, `Sequences`, `Bytes`, `Text` and `StoreErrors` hold what several modules share.

## What the proofs show about the code

- After closing a pane the query at `crates/project-store/src/lib.rs:1250-1256` focuses the
  pane whose new position equals the closed slot, which is the right neighbour. The left one
  is focused only when the last pane was closed; the query itself never meets a tie
  (`PaneLayout.FocusAfterClose`).
- `discard_unstarted_agent_session` deletes the pane of an open session through the foreign
  keys and adjusts neither positions nor widths nor focus. The layout survives if and only if
  no pane shows the session (`WorkspaceLedger.DiscardKeepsIff`); the runs of `StoreRuns` contain
  any discard but one that deletes a shown session. `ReachableStores.DiscardBreaks` reaches a
  store where the layout does not survive.
- `finish_agent_draft_publication` does not compare its version with the reserved one, and
  `validate_semver` admits texts such as `02.0.0` that the SemVer parser rejects. Such a Version
  never wins the maximum against a canonical one. `DraftLedger.PublishNamesGreatest` says exactly
  when the Agent still bears the name of a greatest Version, and `ReachableStores.PublishedUnderOldName`
  is a run after which it does not.
- `save_factory_run` overwrites whatever is stored. A stale copy can turn a cancelled Run live
  again (`FactoryRuns.StaleCopyRevives`, `ReachableStores.CancelledRunRevived`);
  `FactoryRuns.SaveRevives` says exactly when, and `StoreRuns.TerminalUnlessRevived` that nothing
  else ever does. A copy that is saved while its Run is still stored as loaded never revives one
  (`RunCopies.RevivedByStaleCopy`), and no save ever gives a Draft two live Runs
  (`StoreRuns.OneLiveRun`).
- `reconcile_environments` is idempotent if and only if list entries with equal ids are equal
  (`EnvironmentTable.ReconcileTwice`); `EnvironmentTable.SameIdTwice` is a list for which it is not.
- `create_user_environment` promises in its comment to land whole or not at all. It can report a
  failure and still leave a complete descriptor: exactly when the content was written whole and
  then either only the sync failed and the file could not be removed, or its path could not be
  resolved (`EnvironmentCatalog.StrandsAt`). From then on memory lags behind the disk by exactly
  those Environments until the next load (`EnvironmentCatalog.StrandedExactly`);
  `EnvironmentCatalog.StrandedCreate` is such a call.
- What a fault leaves can block later calls: a temporary file every save of that Environment by the
  same process, a full tombstone its deletion, an opened descriptor its creation. When each remains
  is exact (`EnvironmentCatalog.ReplacementLeaves`, `EnvironmentCatalog.BurialSafe`,
  `EnvironmentCatalog.EnvironmentCatalog.CreateUserEnvironment`).
- Creating is not limited by the number of Environments or their total size, while loading is.
  `EnvironmentLoad.LoadAfterCreate` says exactly when a create leaves a root that loads, and
  `EnvironmentCatalog.CreateBeyondLimit` is a create that succeeds and after which no load does.
- A crash between placing a plugin version and recording it leaves a version that cannot be
  installed again and, for a plugin without a record, not be uninstalled either; installing
  another version recovers (`PluginStore.CrashBeforeActivation`).
- An upgrade that cannot read the old activation record succeeds and forgets the version to roll back
  to (`PluginStore.ForgottenVersion`).
- `read_text` cuts a buffer that ends inside a character at `min(valid_up_to, max_bytes)` and
  expects the result to convert. It does not when `max_bytes` is the smaller and lies inside a
  character (`TextRead.PanicsOnText`, `TextRead.EuroSigns`).
- `MacOsKeychain::read` does not consult the catalog and therefore reads orphaned values; without
  faults these are the only references for which it and the in-memory store differ
  (`SecretStores.KeychainSecretStore.Read`). Of the creates they differ in exactly those whose first
  draw is taken: the in-memory store overwrites, the Keychain draws again (`SecretStores.StepSimulates`).
- Placeholder expansion distributes over concatenation unless a token straddles the seam, and
  then only if that token is replaced by its own text (`Placeholders.DistributesExactly`).

## Reading the model

UUIDs are natural numbers, assumed unused where the code generates one. Timestamps appear
where a query orders by them or a record returns them. JSON columns are stored as text. SQL
statements fail only by the constraints of the schema. A multi-row position update visits its
rows in ascending order of the position index. JSON in frames is an encoder with a decoder
that undoes it; strict version parsing, URL checks, the encoded size and validity of Environment
descriptors, the components of a plugin and the resolution of its commands are parameters.
The default harness given to created Environments is among the supported ones. Storage keys of
plugin versions differ when the versions differ. Files do not change while `read_text` reads
them. The terminal manager refuses a capacity of zero, so rings have a positive one.

## Model

| member | source | states |
|---|---|---|
| `PaneWidths.ScaleWorkspaceWidths` | crates/project-store/src/lib.rs:3254-3273 | The rescaling loop computes the specification `Rescaled`; no intermediate or final width leaves the 16-bit range, so the subtraction for the last pane cannot wrap |
| `PaneWidths.RescaledTotal` | crates/project-store/src/lib.rs:3254-3273 | The rescaled widths add up to exactly the target, and every width but the last is the floor of its exact share |
| `PaneWidths.RescaledLast` | crates/project-store/src/lib.rs:3262-3268 | The last width is positive, at least its exact share and less than n-1 units above it |
| `PaneWidths.ZeroShare` | crates/project-store/src/lib.rs:3254-3273 | A width vanishes exactly when it is not the last and `width * target < source`; growing never yields zero |
| `PaneWidths.OpenThirdThenClose` | crates/project-store/src/lib.rs:1183-1199 | Narrowing two widths for a third pane and widening them again moves each by at most two basis points, always from left to right |
| `PaneLayout.ShowValid` | crates/project-store/src/lib.rs:1142-1206 | Revealing, retargeting or opening a pane keeps the layout valid: at most three panes, distinct ids and contexts, positive widths totalling 10000, a focus exactly when a pane exists |
| `PaneLayout.CloseValid` | crates/project-store/src/lib.rs:1226-1264 | Closing a pane keeps the layout valid |
| `PaneLayout.ResizeValid` | crates/project-store/src/lib.rs:1266-1297 | An accepted resize keeps the layout valid |
| `PaneLayout.MoveValid` | crates/project-store/src/lib.rs:1299-1355 | An accepted move keeps the layout valid |
| `PaneLayout.ArchiveValid` | crates/project-store/src/lib.rs:929-975 | Archiving an Agent keeps the layout valid and leaves no pane of the given contexts |
| `PaneLayout.CloseKeepsOthers` | crates/project-store/src/lib.rs:1234-1256 | Closing works exactly for a visible pane and keeps every other one with its context and in order; none gets narrower, and each but the last gets exactly the floor of its new share |
| `PaneLayout.ShowKeepsOthers` | crates/project-store/src/lib.rs:1142-1206 | Opening moves no pane and without the side always works: a context in view only gets the focus; otherwise a plain open gives it the first pane, with all widths kept, if there is one; to the side it gets a new last pane of width 10000/(n+1), for which no other gets wider and all but one of the others get exactly the floor of their new share |
| `PaneLayout.FocusAfterClose` | crates/project-store/src/lib.rs:1250-1260 | After a close the focus is the survivor whose new position is nearest the closed slot, which never ties: the right neighbour, or the left one when the closed pane was last |
| `PaneLayout.ResizeExact` | crates/project-store/src/lib.rs:1266-1297 | A resize is accepted exactly for the visible panes in order with positive widths totalling 10000, and sets these widths and nothing else |
| `PaneLayout.ResizeReaches` | crates/project-store/src/lib.rs:1266-1297 | Resizing reaches exactly the valid layouts of the same panes, focus included; so every accepted resize can be undone by asking for the old widths |
| `PaneLayout.MovePermutes` | crates/project-store/src/lib.rs:1299-1355 | Moving works exactly for a visible pane and an occupied slot, is otherwise refused with an error for each, puts the pane at its destination with the focus, and keeps every width and context and the order of the others |
| `PaneLayout.ArchiveKeepsOthers` | crates/project-store/src/lib.rs:937-958 | Archiving removes only panes of the Agent: the others stay in order with id and context, none narrower and each but the last with the floor of its new share, and the first of them gets the focus |
| `PaneLayout.OpenToSideRefused` | crates/project-store/src/lib.rs:1163-1199 | Opening to the side is refused as full if and only if three panes are open, and by the width check if and only if a pane other than the last would shrink to nothing |
| `PaneLayout.OpenThirdThenCloseRestores` | crates/project-store/src/lib.rs:1183-1256 | Opening a third pane and closing it restores the two panes, their order and contexts, with each width within two basis points |
| `PaneRows.UpdateWidths` | crates/project-store/src/lib.rs:3275-3286 | The loop of width updates stores all new widths, or fails if and only if one violates the width check |
| `PaneRows.ShiftDown` | crates/project-store/src/lib.rs:1299-1355 | Shifting the rows behind a gap one position down, in ascending order, never gives two rows one position and closes the gap |
| `PaneRows.ShiftUp` | crates/project-store/src/lib.rs:1299-1355 | The same for shifting up in descending order |
| `PaneRows.ShowPane` | crates/project-store/src/lib.rs:1142-1206 | The statements that reveal, retarget or open a pane leave the rows of the layout that `Show` specifies, or fail with its error |
| `PaneRows.QueryNearest` | crates/project-store/src/lib.rs:1250-1256 | The focus query returns a row nearest the slot, the lower position first among equals, and none exactly for an empty table |
| `PaneRows.ClosePane` | crates/project-store/src/lib.rs:1226-1264 | Delete, shift, rescale and refocus leave the rows and the focus of the closed layout |
| `PaneRows.ResizePanes` | crates/project-store/src/lib.rs:1266-1297 | The resize statements leave the rows of the resized layout or fail with its error |
| `PaneRows.MovePane` | crates/project-store/src/lib.rs:1299-1355 | Deleting, shifting and reinserting the row never breaks UNIQUE(position) on the way and leaves the rows of the moved layout |
| `PaneRows.Renumber` | crates/project-store/src/lib.rs:950-957 | The re-index loop never gives two rows one position and leaves dense positions in the same order |
| `PaneRows.ArchivePanes` | crates/project-store/src/lib.rs:937-962 | Deleting, rescaling and re-indexing leave the rows and focus of the archived layout |
| `DraftLedger.UpdateDraftKeeps` | crates/project-store/src/lib.rs:616-664 | Editing a Draft keeps the ledger invariants (Versions repeat their closed Draft, at most one per Draft, every Agent named after its greatest Version) and never reopens a closed Draft |
| `DraftLedger.ReserveKeeps` | crates/project-store/src/lib.rs:674-695 | Reserving a version keeps them |
| `DraftLedger.RestoreKeeps` | crates/project-store/src/lib.rs:697-706 | Restoring keeps them; only the restored Draft may become active again |
| `DraftLedger.RestoreUndoesReserve` | crates/project-store/src/lib.rs:674-706 | Restoring right after a reservation gives back the store, two revisions later |
| `DraftLedger.FinishKeeps` | crates/project-store/src/lib.rs:742-811 | Finishing a publication keeps them: the new Version carries the definition of its Draft, and the Agent is renamed after the greatest Version |
| `DraftLedger.PublishedOnce` | crates/project-store/src/lib.rs:742-811 | After a publication the same Draft can be neither published nor reserved again, and restoring does not touch it |
| `DraftLedger.ArchiveKeeps` | crates/project-store/src/lib.rs:990-1011 | Archiving a Draft keeps the invariants |
| `DraftLedger.CleanupKeeps` | crates/project-store/src/lib.rs:813-843 | Recording a required cleanup keeps them |
| `DraftLedger.CreateDraftKeeps` | crates/project-store/src/lib.rs:457-503 | Creating a Draft keeps them |
| `DraftLedger.CreateAgentKeeps` | crates/project-store/src/lib.rs:424-455 | Creating an Agent keeps them |
| `DraftLedger.CreateBindingKeeps` | crates/project-store/src/lib.rs:526-590 | Creating a workspace binding keeps them |
| `DraftLedger.UpdateBindingRootKeeps` | crates/project-store/src/lib.rs:845-888 | Moving a binding to another root keeps them |
| `DraftLedger.MovedRootsDistinct` | crates/project-store/src/lib.rs:845-888 | Moving a binding is accepted if and only if it exists and no two bindings of an Agent and project would share a root |
| `DraftLedger.CreateAgentAccepted` | crates/project-store/src/lib.rs:424-455 | An Agent is created if and only if its id is unused and its name is not blank, at most 200 bytes when trimmed, and free of control characters |
| `DraftLedger.EditAgain` | crates/project-store/src/lib.rs:616-664 | An edit stores each given text trimmed, so editing again with the stored text changes the revision only; an Agent without a Version bears the trimmed name of its first Draft |
| `DraftLedger.UpdateDraftStores` | crates/project-store/src/lib.rs:616-664 | An edit is accepted exactly for an active Draft and an acceptable definition; it stores each given text trimmed, in its own column, and the given head, renames the Agent exactly if the Draft is its first, and changes no other column or row |
| `DraftLedger.DefinitionAccepted` | crates/project-store/src/lib.rs:3488-3508 | A definition is acceptable exactly when name, objective and each of at least one criterion are not blank, free of control characters and, trimmed, within their limits |
| `DraftLedger.ReserveStores` | crates/project-store/src/lib.rs:674-695 | A reservation is accepted exactly for an active Draft and a version text and changes lifecycle and reserved version of that Draft only |
| `DraftLedger.RestoreStores` | crates/project-store/src/lib.rs:697-706 | Restoring gives a publishing Draft back to its editor without a reservation, and otherwise changes nothing but the revision |
| `DraftLedger.FinishStores` | crates/project-store/src/lib.rs:742-811 | A publication is accepted exactly for a publishing Draft, a version text new to its Agent, and an unused tag; it adds one Version with what the Draft defines and what the caller gives, closes the Draft, and changes nothing else but the name of its Agent |
| `DraftLedger.CleanupStores` | crates/project-store/src/lib.rs:813-843 | Recording a cleanup is never refused, closes a known Draft in any state with the given guidance, and archives its workspace exactly when nothing is left to clean |
| `DraftLedger.ArchiveStores` | crates/project-store/src/lib.rs:990-1011 | A Draft is discarded exactly while active or waiting for cleanup, and its workspace is archived with it |
| `DraftLedger.CreateDraftStores` | crates/project-store/src/lib.rs:457-503 | A Draft is created exactly with an acceptable definition and an absolute worktree, for a live Agent and workspace, when no other has its workspace, branch or worktree; it is stored as given |
| `DraftLedger.CreateAgentStores` | crates/project-store/src/lib.rs:424-455 | A new Agent bears its trimmed name and is not archived; no other row changes |
| `DraftLedger.CreateBindingStores` | crates/project-store/src/lib.rs:526-590 | A workspace is created exactly for a live Agent with a root that no other workspace of that Agent and project has, and is stored as given |
| `DraftLedger.UpdateBindingRootStores` | crates/project-store/src/lib.rs:845-888 | A move changes the root of one workspace and nothing else |
| `DraftLedger.SetEnvironmentStores` | crates/project-store/src/lib.rs:592-614 | The Environment of a Draft can be chosen exactly while it is active, and nothing else changes |
| `DraftLedger.SetEnvironmentKeeps` | crates/project-store/src/lib.rs:592-614 | Choosing an Environment for a Draft keeps them |
| `DraftLedger.WinnerExists` | crates/project-store/src/lib.rs:794-799 | An Agent with a Version has a row on which the maximum query ends |
| `DraftLedger.WinnerUnique` | crates/project-store/src/lib.rs:794-799 | That row is unique |
| `DraftLedger.NameOfGreatest` | crates/project-store/src/lib.rs:794-799 | Among canonical version texts the row is the numerically greatest Version, and the Agent bears its name |
| `DraftLedger.PublishNamesGreatest` | crates/project-store/src/lib.rs:742-811 | Publishing beside canonical Versions leaves the Agent named after a numerically greatest one if and only if the new text is canonical, or the first, or not above all existing ones |
| `DraftLedger.LeadingZeroLoses` | crates/project-store/src/lib.rs:2452-2464 | The accepted text `02.0.0` denotes more than `1.0.0` and still loses to it |
| `AgentVersions.CanonicalIsDecimal` | crates/project-store/src/lib.rs:2452-2464 | A canonical number is the decimal spelling of the number it denotes |
| `AgentVersions.CanonicalUnique` | crates/project-store/src/lib.rs:2452-2464 | Two canonical version texts that denote the same numbers are the same text |
| `EnvironmentTable.UpsertEnvironments` | crates/project-store/src/lib.rs:2153-2228 | The upsert loop returns the updated rows and the number of rows it changed, or refuses the whole list |
| `EnvironmentTable.ReconcileExact` | crates/project-store/src/lib.rs:1506-1540 | After reconciling, the available Environments are exactly the listed ones with their last listed content, no row is deleted, other content stays, and trust remains exactly for listed ids |
| `EnvironmentTable.ReconcileCounts` | crates/project-store/src/lib.rs:1506-1540 | For a list whose equal ids agree the reply is the number of Environments that are new or different afterwards and of grants that are gone |
| `EnvironmentTable.CatalogAccepted` | crates/project-store/src/lib.rs:2153-2228 | Both catalog calls are refused exactly for a list with a blank id or name |
| `EnvironmentTable.SyncExact` | crates/project-store/src/lib.rs:1484-1504 | A sync makes the listed rows available with their last listed content, leaves all others and all trust alone, and moves the revision exactly when its count is not zero; the count is the number of rows that are new or different |
| `EnvironmentTable.TrustExact` | crates/project-store/src/lib.rs:2066-2115 | Trust is granted exactly for clean names, 64 hexadecimal digits and a stored Environment, and stored as given; revoking is never refused; neither touches another grant |
| `EnvironmentTable.ReconcileIdle` | crates/project-store/src/lib.rs:1506-1540 | A zero count means that nothing changed at all |
| `EnvironmentTable.ReconcileAgain` | crates/project-store/src/lib.rs:1506-1540 | A second identical call counts no change if and only if entries sharing an id agree; lists of distinct ids and the empty list do |
| `EnvironmentTable.ReconcileTwice` | crates/project-store/src/lib.rs:1506-1540 | As a transaction: the second call reports zero and keeps the store and its revision if and only if the list is consistent |
| `EnvironmentTable.SameIdTwice` | crates/project-store/src/lib.rs:1506-1540 | A concrete list of two different entries with one id: the second call counts two changes and moves the revision again |
| `EnvironmentTable.SyncKeeps` | crates/project-store/src/lib.rs:1484-1504 | Syncing changes Environments and revision only, and the revision moves with them |
| `EnvironmentTable.TrustKeeps` | crates/project-store/src/lib.rs:2066-2115 | Granting and revoking trust changes trust only and leaves the revision |
| `FactoryRuns.TransitionFacts` | crates/app-core/src/lib.rs:706-752 | A Run is terminal exactly when no move leads out of its state; every other Run can be cancelled, none is drafted again, and the moves into each state come from exactly its predecessors |
| `FactoryRuns.StateNames` | crates/project-store/src/lib.rs:3510-3537 | State names parse back, and the partial index predicate holds of exactly the names of states that are not terminal |
| `FactoryRuns.SaveKeeps` | crates/project-store/src/lib.rs:1752-1831 | Any accepted save stores state, report and Environment as given and moves no other Run, and any save, accepted or not, keeps at most one live Run per Draft |
| `FactoryRuns.SavedLoads` | crates/project-store/src/lib.rs:1752-1831 | A save is accepted exactly when the referenced rows fit together and the live slot is free; loading then gives back the copy that was saved, report included, but with the stored workspace and Draft if those differ, and no other Run loads differently |
| `FactoryRuns.SaveErrors` | crates/project-store/src/lib.rs:1752-1831 | A save is refused for the live slot exactly when the same copy would be accepted as cancelled, for a missing row exactly as listed, and otherwise for rows that do not belong together |
| `FactoryRuns.AdvancedLoads` | crates/project-store/src/lib.rs:1752-1831 | Load, transition and save as one step is accepted exactly for a loadable Run, a legal move and a save within its guards, and leaves the Run as loaded but for the new state and report |
| `FactoryRuns.CreatedLoads` | crates/app-core/src/lib.rs:676-704 | A Run is created exactly under an unused id with acceptable texts where a save is accepted, and loads as a draft that has reported nothing |
| `FactoryRuns.AdvanceKeeps` | crates/project-store/src/lib.rs:1752-1831 | Load, transition and save as one step moves every stored Run by at most one legal transition |
| `FactoryRuns.CreateKeeps` | crates/app-core/src/lib.rs:676-704 | Creating a Run keeps the invariants and moves no other Run |
| `FactoryRuns.SaveRevives` | crates/project-store/src/lib.rs:1752-1831 | Saving a copy makes a stored terminal Run live if and only if the copy is live and passes those guards, all of which can be read before the call; other Runs stay as they are |
| `FactoryRuns.StaleCopyRevives` | crates/project-store/src/lib.rs:1752-1831 | A stale copy saved after a cancellation makes the Run live again |
| `WorkspaceLedger.OpenKeeps` | crates/project-store/src/lib.rs:1061-1211 | Opening a work item, refused or not, keeps the workspace invariant (valid layout, dense positions, known contexts, one context per item) |
| `WorkspaceLedger.OpenShowsItem` | crates/project-store/src/lib.rs:1061-1211 | An accepted open shows the context of the item, the one it had or else the new one, as the layout operation says: without the side in a pane that was there, unless there was none; to the side in one more pane unless it was in view; that pane is focused, and nothing else changes |
| `WorkspaceLedger.OpenAccepted` | crates/project-store/src/lib.rs:1061-1140 | Opening is accepted exactly for a live Agent, a live workspace of it and an item that is there and belongs to both, unless another workspace holds the item or there is no room to the side |
| `WorkspaceLedger.FocusKeeps` | crates/project-store/src/lib.rs:1213-1224 | Focusing keeps the workspace invariant |
| `WorkspaceLedger.FocusExact` | crates/project-store/src/lib.rs:1213-1224 | Focusing is accepted exactly for a visible pane and changes nothing but focus and revision |
| `WorkspaceLedger.PaneCallsExact` | crates/project-store/src/lib.rs:1213-1355 | Closing, resizing, moving and focusing do to the stored workspace exactly what they do to its layout, with its errors, and touch nothing else |
| `WorkspaceLedger.CloseKeeps` | crates/project-store/src/lib.rs:1226-1264 | Closing keeps it |
| `WorkspaceLedger.ResizeKeeps` | crates/project-store/src/lib.rs:1266-1297 | Resizing keeps it |
| `WorkspaceLedger.MoveKeeps` | crates/project-store/src/lib.rs:1299-1355 | Moving keeps it |
| `WorkspaceLedger.ArchiveAgentKeeps` | crates/project-store/src/lib.rs:929-975 | Archiving an Agent keeps it |
| `WorkspaceLedger.ArchiveHidesAgent` | crates/project-store/src/lib.rs:929-975 | Archiving takes exactly the panes on work items of the Agent out of view; no other is gone and none is new |
| `WorkspaceLedger.ArchiveAgentStores` | crates/project-store/src/lib.rs:929-975 | An Agent is archived exactly while it is live, and with it exactly its workspaces; the layout becomes the archived one, and nothing else changes |
| `WorkspaceLedger.ArchivedAgentRefuses` | crates/project-store/src/lib.rs:929-975 | An archived Agent takes no new workspace, Draft or open, neither under itself nor in any of its workspaces, and cannot be archived again |
| `WorkspaceLedger.DiscardedDraftRefuses` | crates/project-store/src/lib.rs:990-1011 | The workspace of a discarded Draft takes no new Draft and no open |
| `WorkspaceLedger.SaveSessionKeeps` | crates/project-store/src/lib.rs:1555-1622 | Saving a session keeps the workspace invariant |
| `WorkspaceLedger.SessionLineage` | crates/project-store/src/lib.rs:1574-1590 | Whatever is saved, a stored session keeps binding, purpose, Run, parent and agent name, never loses an outcome, and agent names stay unique |
| `WorkspaceLedger.SaveSessionStores` | crates/project-store/src/lib.rs:1555-1622 | A session is saved exactly with a clean name that no other bears, in a workspace of the given Agent and project, with references that exist; a new one is stored as given, a stored one takes Environment, brief and outcome and keeps the rest |
| `WorkspaceLedger.DiscardKeepsIff` | crates/project-store/src/lib.rs:1672-1704 | Discarding a session keeps the workspace invariant if and only if no pane shows the session |
| `WorkspaceLedger.DiscardStores` | crates/project-store/src/lib.rs:1672-1704 | A discard deletes the session exactly if it has no Run, no delivered brief and no outcome, and is refused if it then has a child; its contexts and their panes go with it, every other pane keeps slot and width, and the focus stays |
| `ProjectStore.OpenTransaction` | crates/project-store/src/lib.rs:1061-1211 | The query, the context upsert and the pane statements reach the outcome that the ledger specifies on the layout and the tables, errors included |
| `ProjectStore.FocusTransaction` | crates/project-store/src/lib.rs:1213-1224 | The row lookup and the focus update reach the outcome that the ledger specifies on the layout and the tables, errors included |
| `ProjectStore.CloseTransaction` | crates/project-store/src/lib.rs:1226-1264 | Delete, shift, rescale and refocus reach the outcome that the ledger specifies on the layout and the tables, errors included |
| `ProjectStore.ResizeTransaction` | crates/project-store/src/lib.rs:1266-1297 | The width checks and updates reach the outcome that the ledger specifies on the layout and the tables, errors included |
| `ProjectStore.MoveTransaction` | crates/project-store/src/lib.rs:1299-1355 | Delete, shift and reinsert reach the outcome that the ledger specifies on the layout and the tables, errors included |
| `ProjectStore.ArchiveAgentTransaction` | crates/project-store/src/lib.rs:929-975 | Deleting the panes of an Agent and archiving it reach the outcome that the ledger specifies on the layout and the tables, errors included |
| `ProjectStore.FinishTransaction` | crates/project-store/src/lib.rs:742-811 | The publication with one pass over the Versions for the new name reaches the outcome that the ledger specifies on the layout and the tables, errors included |
| `ProjectStore.GreatestVersion` | crates/project-store/src/lib.rs:794-799 | One pass over the rows finds the winner of the maximum, or none exactly when the Agent has no Version |
| `StoreRuns.RunGoesOn` | crates/project-store/src/lib.rs:250-298 | One more call extends a run of the store by one state, which again satisfies all invariants |
| `ProjectStore.ProjectStore.Make` | crates/project-store/src/lib.rs:2515-2521 | The store object makes any call by its statements and commits or keeps its tables as a whole; it stays where a run of the store that made exactly its calls has come to, so every result about runs holds of the object |
| `StoreRuns.CallKeeps` | crates/project-store/src/lib.rs:250-298 | Every call, refused or not, keeps the workspace, Draft and Run invariants together and moves the revision lawfully |
| `StoreRuns.RootsAlwaysDistinct` | crates/project-store/src/lib.rs:526-590 | In every run the roots of the bindings of an Agent and a project stay distinct |
| `StoreRuns.ReachableStep` | crates/project-store/src/lib.rs:250-298 | From a store that a run from the empty one reaches, any call leads to another such store |
| `StoreRuns.EmptyStoreValid` | crates/project-store/src/lib.rs:68-303 | The empty store satisfies all invariants |
| `StoreRuns.RunKeeps` | crates/project-store/src/lib.rs:250-298 | Every state of every run of calls satisfies all invariants |
| `StoreRuns.LayoutAlwaysValid` | crates/project-store/src/lib.rs:266-272 | In every state of every run: positions 0..n-1 with n at most 3, positive widths totalling 10000, distinct contexts and ids, focus absent exactly without panes and else on a pane |
| `StoreRuns.RevisionOrder` | crates/project-store/src/lib.rs:2515-2521 | Along a run the revision never falls and counts at most the calls, and where it stays, only trust may have changed |
| `StoreRuns.EqualRevisionEqualSnapshot` | crates/project-store/src/lib.rs:1833-1887 | Two snapshots of one run with equal revision are equal over the modelled tables |
| `StoreRuns.ClosedForever` | crates/project-store/src/lib.rs:616-706 | A Draft that leaves {active, publishing} never returns, keeps its definition, and no Version ever changes |
| `StoreRuns.PublishedAsReserved` | crates/project-store/src/lib.rs:674-811 | A Version published from a reserved Draft carries the name, objective and criteria the Draft had at the reservation |
| `StoreRuns.OneVersionPerDraft` | crates/project-store/src/lib.rs:742-811 | In every state of every run a Draft has at most one Version |
| `StoreRuns.AgentNamedAfterGreatest` | crates/project-store/src/lib.rs:794-799 | In every state of every run an Agent with canonical version texts bears the name of its greatest Version |
| `StoreRuns.PublishedAsLastReserved` | crates/project-store/src/lib.rs:674-811 | The same without the assumption that it is not restored: whatever happens after it, until the Draft is reserved again a Version of it carries what the Draft had at its last reservation |
| `StoreRuns.TerminalForever` | crates/project-store/src/lib.rs:1752-1831 | In any run a stored terminal Run keeps its state for as long as no call saves a copy of that very Run in another state |
| `StoreRuns.RevivedBy` | crates/project-store/src/lib.rs:1752-1831 | One call of any kind makes a terminal Run live if and only if it saves a live copy of that Run within the guards of a save |
| `StoreRuns.TerminalUnlessRevived` | crates/project-store/src/lib.rs:1752-1831 | Over any stretch of any run a terminal Run stays terminal if and only if no call in it is such a save |
| `StoreRuns.PassedFrom` | crates/project-store/src/lib.rs:1752-1831 | A Run that becomes Passed was Orchestrating, Evaluating or Escalated just before, or was saved over by a copy that was Passed |
| `StoreRuns.OneLiveRun` | crates/project-store/src/lib.rs:231-233 | In every state of every run, saved copies included, a Draft has at most one live Run |
| `RunCopies.ActCalls` | crates/project-store/src/lib.rs:1752-1831 | Seen from the store, each act of a caller that loads, moves or saves a Run is one of its calls or nothing |
| `RunCopies.SystemRunKeeps` | crates/project-store/src/lib.rs:1752-1831 | However callers interleave loading, moving and saving with other calls, the store keeps its invariants and every copy stands at the end of a path of legal moves |
| `RunCopies.LeadsExactly` | crates/app-core/src/lib.rs:706-752 | Paths of legal moves lead from a state to exactly itself and, unless it is terminal, to every state but the first |
| `RunCopies.PathToPassed` | crates/app-core/src/lib.rs:706-752 | Every path that arrives at Passed takes its last step from Orchestrating, Evaluating or Escalated |
| `RunCopies.RevivedByStaleCopy` | crates/project-store/src/lib.rs:1752-1831 | A terminal Run lives again if and only if a caller saves a live copy within the guards, and that copy is stale: the Run is no longer stored in the state it was loaded or last saved in |
| `RunCopies.FreshCopiesLead` | crates/project-store/src/lib.rs:1752-1831 | While only copies are saved whose Run is still stored as it was loaded, every Run moves along paths: terminal Runs keep their state, none is drafted again |
| `RunCopies.PassedThroughThree` | crates/project-store/src/lib.rs:1752-1831 | Over any interleaving from a store without Passed Runs and copies, every Run that is Passed was made so by a saved copy, stale or not, that went through Orchestrating, Evaluating or Escalated, or by a whole transition from one of them |
| `RunCopies.FreshUntilWritten` | crates/project-store/src/lib.rs:1752-1831 | A copy stays fresh through its own moves and saves until another save or transition writes its Run |
| `RunHolders.RunHolders.Take` | crates/project-store/src/lib.rs:1752-1831 | Loading a Run into an object of its own does to store and copies exactly what the act of the system does, and no two holders share a copy |
| `RunHolders.RunHolders.Step` | crates/app-core/src/lib.rs:706-752 | Moving that object in place does to store and copies exactly what the act of the system does, and no two holders share a copy |
| `RunHolders.RunHolders.Put` | crates/project-store/src/lib.rs:1752-1831 | Saving it through the store object does to store and copies exactly what the act of the system does, and no two holders share a copy |
| `ReachableStores.PublishedUnderOldName` | crates/project-store/src/lib.rs:742-811 | A run from the empty store: an Agent, two workspaces, two Drafts, `1.0.0` published as a and `02.0.0` as b; the second Version is the numerically greatest and the Agent is named a |
| `ReachableStores.DiscardBreaks` | crates/project-store/src/lib.rs:1672-1704 | A run from the empty store that syncs, saves and opens a session: discarding it is accepted and leaves the focus on a pane that is gone |
| `ReachableStores.CancelledRunRevived` | crates/project-store/src/lib.rs:1752-1831 | A run from the empty store: of two copies of a Run under way one is cancelled and saved, then the other is saved, and the cancelled Run goes on |
| `OutputRing.Ring.Push` | crates/terminal-runtime/src/lib.rs:389-398 | Pushing appends to the stream; the ring then holds exactly its last min(capacity, total) bytes and its cursors are the stream offsets |
| `OutputRing.Ring.Read` | crates/terminal-runtime/src/lib.rs:400-417 | Below 2^64 pushed bytes a read of the ring is the read of the stream window, truncated exactly when the cursor is older than it; it never returns more than its limit, and less only at the end of the stream |
| `OutputRing.ReadTerminal` | crates/terminal-runtime/src/lib.rs:211-236 | The manager refuses limits outside 1..262144 and unknown terminals, and otherwise reads at most the limit from the stream window, less only at the end of the stream |
| `OutputRing.PollFollowsOn` | crates/terminal-runtime/src/lib.rs:400-417 | One poll yields the slice of the whole stream at its cursor, a gap exactly when it says so, never more than its limit, less only at the end of the stream, and nothing only when caught up |
| `OutputRing.ReaderSeesStream` | crates/terminal-runtime/src/lib.rs:378-418 | For any interleaving of pushes and polls by any readers, the chunks of one reader are such consecutive slices of everything ever pushed |
| `OutputRing.Drive` | crates/terminal-runtime/src/lib.rs:378-418 | A ring object driven by any pushes and polls gives each reader exactly those sightings |
| `OutputRing.NothingLost` | crates/terminal-runtime/src/lib.rs:378-418 | Without a reported truncation the chunks concatenate to exactly the stretch of the stream they cover |
| `SecretStores.KeychainSecretStore.LoadCatalog` | crates/platform-secrets/src/macos.rs:35-58 | A missing catalog item reads as the empty catalog; a backend error is reported if and only if the call fails |
| `SecretStores.KeychainSecretStore.ChooseReference` | crates/platform-secrets/src/macos.rs:79-94 | The chosen reference is the first of ten that neither catalog nor any value uses, orphans included; it fails if and only if all ten are taken or a call made to look them up fails |
| `SecretStores.KeychainSecretStore.Put` | crates/platform-secrets/src/macos.rs:97-110 | Value, then catalog; when the catalog cannot be written the value is withdrawn again, and it stays behind if and only if that fails as well |
| `SecretStores.KeychainSecretStore.Create` | crates/platform-secrets/src/macos.rs:72-110 | No existing value is overwritten and every catalogued secret has a value at every step; success has an exact condition, and a failure changes nothing except, exactly when catalog and withdrawal both fail, an orphaned new value |
| `SecretStores.KeychainSecretStore.Read` | crates/platform-secrets/src/macos.rs:112-122 | A read returns the stored value; without faults it answers as the in-memory store does if and only if the reference is not an orphaned value |
| `SecretStores.KeychainSecretStore.Replace` | crates/platform-secrets/src/macos.rs:124-142 | At every step every catalogued secret has a value and every value but the replaced one is what it was; success has an exact condition, and a failure changes nothing except, exactly when catalog and putting back both fail, the value |
| `SecretStores.KeychainSecretStore.Delete` | crates/platform-secrets/src/macos.rs:144-161 | At every step every catalogued secret has the value it had; success has an exact condition, and a failure changes nothing except, exactly when deletion and restoring both fail, the entry |
| `SecretStores.StepSimulates` | crates/platform-secrets/src/macos.rs:72-165 | Without faults and orphans a Keychain call gives the reply of the in-memory store if and only if the first reference drawn is unused, and then leaves the same entries |
| `SecretStores.RunSimulates` | crates/platform-secrets/src/macos.rs:72-165 | Over any sequence of creates, reads, replacements, deletions and listings the replies agree if and only if every draw was unused, and then so do the entries |
| `SecretStores.RunBoth` | crates/platform-secrets/src/lib.rs:172-215 | Both store objects, driven with the same calls, give the same replies under exactly that condition and end with the same entries |
| `SecretStores.MemoryLaws` | crates/platform-secrets/src/lib.rs:172-215 | What a call means for later ones: a created secret reads back with its value, label and time, a replaced one with its new value under its old label, a deleted one not at all, and every other secret as before |
| `EnvironmentIds.DeriveIdBase` | crates/environment-runtime/src/model.rs:289-312 | The derivation loop computes the specified slug, and its fallback for an empty truncation is never taken |
| `EnvironmentIds.DerivedIsSlug` | crates/environment-runtime/src/model.rs:281-312 | Every derived id is valid, whatever the name |
| `EnvironmentIds.DerivationFixes` | crates/environment-runtime/src/model.rs:289-338 | Derivation leaves a text unchanged if and only if it is a valid id without doubled or trailing dashes; deriving twice changes nothing |
| `EnvironmentIds.DerivedWords` | crates/environment-runtime/src/model.rs:281-338 | A derived id is the words of the name, the longest stretches of letters and digits, joined by single dashes, behind the fallback if the first does not begin with a letter, cut to 64 characters without a dash at the end; a name without words gives the fallback |
| `EnvironmentLoad.LoadEntry` | crates/environment-runtime/src/loader.rs:374-421 | One turn of the load loop skips, loads or refuses the entry alone; it stops the load exactly at a candidate beyond the last room, too large, or too large together with what was read |
| `EnvironmentLoad.LoadRoot` | crates/environment-runtime/src/loader.rs:333-423 | A load succeeds if and only if no candidate follows the last Environment there is room for and all descriptors keep both size limits; it then returns exactly the loadable directories, and the other descriptors with the first reason to refuse each |
| `EnvironmentLoad.LoadSucceedsWithin` | crates/environment-runtime/src/loader.rs:333-423 | Within the limits a load succeeds in every order; when every candidate is loadable, only then |
| `EnvironmentLoad.LoadVerdict` | crates/environment-runtime/src/loader.rs:374-421 | A directory with a valid id and a descriptor is loaded exactly when the descriptor decodes, is valid, bears that id and asks for a known harness, and is otherwise refused for the first of these it misses; nothing else is loaded or refused |
| `EnvironmentLoad.UnseenChange` | crates/environment-runtime/src/loader.rs:374-415 | An entry that is loadable neither before nor after a change is invisible to a load |
| `EnvironmentLoad.AddedWithin` | crates/environment-runtime/src/loader.rs:246-308 | A new Environment keeps a root within the limits if and only if there is room for one more candidate and for its bytes; an empty directory of its name was a candidate already |
| `EnvironmentLoad.LoadAfterCreate` | crates/environment-runtime/src/loader.rs:246-423 | So after a create loads succeed if and only if the new Environment fits beside the others, which no check of the create asks |
| `EnvironmentCatalog.HiddenNames` | crates/environment-runtime/src/loader.rs:181-219 | Temporary and tombstone names are never valid Environment ids |
| `EnvironmentCatalog.OpenDescriptor` | crates/environment-runtime/src/loader.rs:283-293 | Creating the directory and its empty descriptor never shows in a load; it works if and only if no descriptor is there and each call works |
| `EnvironmentCatalog.WriteDescriptor` | crates/environment-runtime/src/loader.rs:294-302 | At every step a load finds the old or the new map; the end is the new one exactly on success or when the schedule strands a whole descriptor |
| `EnvironmentCatalog.ReplacementLoads` | crates/environment-runtime/src/loader.rs:213-232 | In each of those states a load finds the old or the new map, in the last one the new map exactly on success |
| `EnvironmentCatalog.ReplacementLeaves` | crates/environment-runtime/src/loader.rs:213-232 | The temporary file remains if and only if it was there before or could be neither renamed nor removed; nothing else but the descriptor changes |
| `EnvironmentCatalog.BurialSafe` | crates/environment-runtime/src/loader.rs:180-186 | One rename removes the Environment from every load; a tombstone remains if and only if it could not be emptied or not be removed, and blocks the next deletion of that id exactly when it could not be emptied |
| `EnvironmentCatalog.EnvironmentCatalog.CreateUserEnvironment` | crates/environment-runtime/src/loader.rs:246-308 | Each refusal and the success have exact conditions in the order of the checks, also while memory lags behind the disk; crash after any step: old or new map; a failure blocks the id if and only if the descriptor was opened and could not be removed again |
| `EnvironmentCatalog.EnvironmentCatalog.SaveConfiguration` | crates/environment-runtime/src/loader.rs:121-142 | Success and refusals under exact conditions, also while memory lags behind the disk; crash after any step: old or new map; permissions and harnesses stay as stored |
| `EnvironmentCatalog.EnvironmentCatalog.DeleteUserEnvironment` | crates/environment-runtime/src/loader.rs:151-189 | Success and refusals under exact conditions, also while memory lags behind the disk; crash after any step: old or new map |
| `EnvironmentCatalog.FollowsStranded` | crates/environment-runtime/src/loader.rs:121-308 | One call keeps memory right about what it holds, and a load finds one Environment more beyond it exactly when the call strands a descriptor |
| `EnvironmentCatalog.StrandedExactly` | crates/environment-runtime/src/loader.rs:121-308 | Over any calls and faults memory and a reload differ by exactly what they differed by before and the ids of the creates that stranded their descriptors |
| `EnvironmentCatalog.Serve` | crates/environment-runtime/src/loader.rs:121-308 | A catalog object making any calls does so |
| `EnvironmentCatalog.StrandedCreate` | crates/environment-runtime/src/loader.rs:294-302 | A concrete schedule: the sync and then the removal fail, the create reports a failure, and the next load finds the Environment |
| `EnvironmentCatalog.CreateBeyondLimit` | crates/environment-runtime/src/loader.rs:246-308 | A concrete root that is full: it loads, a second create succeeds, and the load after it ends at the limit |
| `PluginStore.ActiveLoads` | crates/plugin-runtime/src/store.rs:161-179 | Under the invariants the active plugin loads if and only if a state is recorded, as the manifest of that name whose version, 0.0.0 if it has none, is the recorded one |
| `PluginStore.InstallAccepted` | crates/plugin-runtime/src/store.rs:68-122 | An install succeeds exactly for the expected digest, a loadable artifact that bears the name and version asked for, a valid name and a version that is not there; it adds that version, records it with the active one before it, and touches no other plugin |
| `PluginStore.IdentifierIsComponent` | crates/plugin-runtime/src/path.rs:74-88 | An accepted name is a single component of a path: no separator, no relative step, no dot in front or twice in a row |
| `PluginStore.RollbackTwice` | crates/plugin-runtime/src/store.rs:219-246 | A rollback that succeeds can be rolled back, which restores the store exactly |
| `PluginStore.UpgradeThenRollback` | crates/plugin-runtime/src/store.rs:68-122 | An upgrade followed by a rollback makes the earlier version active again and keeps the newer one as the next rollback target |
| `PluginStore.CrashBeforeActivation` | crates/plugin-runtime/src/store.rs:105-116 | A crash between placing a version and recording it keeps the activation; that version can then not be installed again, a plugin without a record not be uninstalled, and another version still be installed |
| `PluginStore.AppliedKeeps` | crates/plugin-runtime/src/store.rs:68-273 | Each call keeps both invariants (manifests carry name and version; active and previous are installed and differ) and other plugins; only uninstalling loses versions |
| `PluginStore.RunsKeep` | crates/plugin-runtime/src/store.rs:68-273 | Over every run the invariants hold and an installed version stays as it is until its plugin is uninstalled |
| `PluginStore.InstallSafe` | crates/plugin-runtime/src/store.rs:95-116 | Every intermediate state of an install keeps both invariants and every installed version |
| `PluginStore.PluginStore.WriteState` | crates/plugin-runtime/src/store.rs:321-344 | The record is replaced as a whole if and only if the rename works; it is reported as written if and only if the sync does too |
| `PluginStore.PluginStore.InstallAndActivate` | crates/plugin-runtime/src/store.rs:68-122 | Refusals, success and the state each fault leaves have exact conditions; every state on the way is safe; an old record that cannot be read is taken for none |
| `PluginStore.PluginStore.Active` | crates/plugin-runtime/src/store.rs:161-179 | In any state, even a damaged one, a success is the manifest of the recorded version under its own name; an I/O error is reported if and only if a call it makes fails |
| `PluginStore.PluginStore.Rollback` | crates/plugin-runtime/src/store.rs:219-246 | The swap happens as a whole if and only if it is allowed and its rename works, and touches no installed version |
| `PluginStore.PluginStore.Uninstall` | crates/plugin-runtime/src/store.rs:248-273 | After a failure the plugin is gone if and only if the rename back failed as well or only the final sync did, and it is there but not whole if and only if the removal failed and the rename back worked; other plugins stay |
| `PluginStore.ForgottenVersion` | crates/plugin-runtime/src/store.rs:105-114 | A concrete schedule: an upgrade during which the old record cannot be read succeeds, and the rollback after it is refused |
| `PluginResolve.RejectDuplicates` | crates/plugin-runtime/src/resolve.rs:131-141 | Accepts a list if and only if it has no empty and no repeated entry |
| `PluginResolve.ValidateSelection` | crates/plugin-runtime/src/resolve.rs:113-129 | Accepts a selection if and only if plugin names are identifiers and distinct and every list of servers and skills is free of empty and repeated entries |
| `PluginResolve.SortedAscending` | crates/plugin-runtime/src/resolve.rs:22-23 | Sorting by name gives the same entries in strictly ascending order |
| `PluginResolve.ResolveServers` | crates/plugin-runtime/src/resolve.rs:66-79 | The server loop computes the picked servers, or the failure of the first that cannot be resolved |
| `PluginResolve.ResolveSkills` | crates/plugin-runtime/src/resolve.rs:84-102 | One resolved skill per requested name, in order, and a failure only if a requested skill is missing |
| `PluginResolve.ResolveEnvironmentPlugins` | crates/plugin-runtime/src/resolve.rs:13-110 | The whole resolution: validate, sort, resolve entry after entry, fail with the first failure; a plan it returns is ordered by plugin and holds for each entry exactly what the entry contributes |
| `PluginResolve.OrderIrrelevant` | crates/plugin-runtime/src/resolve.rs:13-110 | Permuting the plugin entries changes nothing, neither the plan nor the kind of failure |
| `PluginResolve.PlanExactly` | crates/plugin-runtime/src/resolve.rs:13-110 | A selection resolves if and only if it is valid and everything every entry asks for is there; for each entry the plan holds exactly its requested skills in order with their descriptions, its wanted servers in order with the commands resolved for them, and the diagnostic of a disabled component exactly when servers were wanted; of other plugins it holds nothing |
| `PluginResolve.PlanSorted` | crates/plugin-runtime/src/resolve.rs:22-104 | Servers, skills and diagnostics come in the order of the plugin names |
| `PluginResolve.WantedAmong` | crates/plugin-runtime/src/resolve.rs:66-72 | The wanted servers are exactly those asked for, and without a request all of them in order |
| `PluginResolve.WantedServersOnce` | crates/plugin-runtime/src/resolve.rs:50-80 | In a resolved plan a request names only servers the plugin has, each wanted server appears exactly once, and no other server of that plugin |
| `Placeholders.SourcesPieces` | crates/plugin-runtime/src/resolve.rs:272-300 | The one-character scanner cuts the input into literals and tokens that spell the input again, with no literal opening a token |
| `Placeholders.CutIsUnique` | crates/plugin-runtime/src/resolve.rs:272-300 | There is exactly one such cut |
| `Placeholders.NoOverlap` | crates/plugin-runtime/src/resolve.rs:286-300 | Token occurrences never overlap |
| `Placeholders.NextPlaceholder` | crates/plugin-runtime/src/resolve.rs:286-300 | The search finds the leftmost token of either kind, or none exactly when there is none |
| `Placeholders.ExpandPlaceholders` | crates/plugin-runtime/src/resolve.rs:272-284 | The loop terminates and outputs the scanner's pieces, each token replaced once and literals copied, so inserted text is never rescanned |
| `Placeholders.Distributes` | crates/plugin-runtime/src/resolve.rs:272-284 | Expansion distributes over concatenation when no token straddles the seam |
| `Placeholders.DistributesExactly` | crates/plugin-runtime/src/resolve.rs:272-284 | It distributes if and only if every token straddling the seam is replaced by its own text |
| `ReleaseVersions.VersionTotal` | crates/update-runtime/src/manifest.rs:167-171 | The version order is total: different versions compare, one way only |
| `ReleaseVersions.VersionTransitive` | crates/update-runtime/src/manifest.rs:167-171 | and transitive |
| `ReleaseVersions.PrecedenceRefined` | crates/update-runtime/src/manifest.rs:167-171 | It refines the precedence of SemVer 2.0.0 section 11, which leaves undecided exactly versions that differ in build metadata only |
| `ReleaseSelection.ValidateArtifacts` | crates/update-runtime/src/manifest.rs:205-221 | Accepts artifacts if and only if architectures are distinct and each artifact is valid |
| `ReleaseSelection.ValidateReleases` | crates/update-runtime/src/manifest.rs:193-223 | Accepts releases if and only if each is valid and no two share version and channel |
| `ReleaseSelection.ValidateManifest` | crates/update-runtime/src/manifest.rs:173-224 | Accepts a manifest if and only if it meets the declarative description; wrong schema and wrong key are told apart |
| `ReleaseSelection.SortedMatchesSorted` | crates/update-runtime/src/manifest.rs:167 | The stable sort yields the same matches in ascending order |
| `ReleaseSelection.OnePerVersion` | crates/update-runtime/src/manifest.rs:193-210 | In valid releases version and channel name one release, and an architecture one artifact of it |
| `ReleaseSelection.LastIsBest` | crates/update-runtime/src/manifest.rs:167-170 | The last match after sorting is the compatible pair above all others, or there is none |
| `ReleaseSelection.SelectRelease` | crates/update-runtime/src/manifest.rs:126-171 | The answer is an error for malformed versions, a refused downgrade, nothing for the running version, or else the unique best compatible pair, none exactly when there is none |
| `ReleaseSelection.ReleaseOrderIrrelevant` | crates/update-runtime/src/manifest.rs:126-171 | The answer is unique and the same under every permutation of the releases |
| `ReleaseSelection.ArtifactOrderIrrelevant` | crates/update-runtime/src/manifest.rs:126-171 | Version, channel and artifact of the answer are the same under every permutation of artifacts within releases |
| `ReleaseSelection.OlderOnlyAsRollback` | crates/update-runtime/src/manifest.rs:133-156 | An answer older than the running version was requested by exactly that version with rollback allowed; the running version is never an answer |
| `ReleaseSelection.AnswersExactly` | crates/update-runtime/src/manifest.rs:126-171 | In terms of the texts of the request: which answer each malformed version, refused downgrade and running version gets, and otherwise the pair above all others of its channel, architecture and system, newer or as requested |
| `ReleaseSelection.VersionSpellings` | crates/update-runtime/src/manifest.rs:293-305 | A leading v is dropped, one or two missing parts are zero, and a text the strict parser takes is never changed |
| `Utf8.TextIsValid` | crates/filesystem-runtime/src/lib.rs:135-146 | The decoder accepts exactly the byte sequences of section 4 of RFC 3629 |
| `Utf8Characters.CharacterIsEncoded` | crates/filesystem-runtime/src/lib.rs:135-146 | Every character of the byte syntax is the encoding of a Unicode scalar value as in section 3 of RFC 3629, so overlong forms and surrogates are none |
| `Utf8Characters.TextIsEncoded` | crates/filesystem-runtime/src/lib.rs:135-146 | The texts accepted are exactly the encodings of sequences of scalar values |
| `Utf8Characters.EndsEarlyExactly` | crates/filesystem-runtime/src/lib.rs:141-146 | The decoder reports a mere end, an error without a length, exactly for bytes that are no text and could be continued to one |
| `Utf8.ValidIsLongest` | crates/filesystem-runtime/src/lib.rs:135-146 | Its valid prefix is the longest well-formed prefix of any bytes |
| `Utf8.BoundaryIff` | crates/filesystem-runtime/src/lib.rs:137-140 | In a text a position is a character boundary if and only if it is the end or no tail byte follows |
| `TextRead.StepDown` | crates/filesystem-runtime/src/lib.rs:137-140 | The loop stops at the last position within the limit that is not before a tail byte |
| `TextRead.ReadText` | crates/filesystem-runtime/src/lib.rs:110-165 | Refused, binary, text or failed, each under an exact condition; returned text is always the longest well-formed prefix of the file within the limit |
| `TextRead.ProbedExactly` | crates/filesystem-runtime/src/lib.rs:110-134 | The NUL bytes that make a file binary are those within the limit, four bytes behind it, and the first 8192 |
| `TextRead.CutPrefix` | crates/filesystem-runtime/src/lib.rs:143-146 | On a buffer that ends inside a character the prefix converts unless the limit is below the valid length and inside a character |
| `TextRead.CutText` | crates/filesystem-runtime/src/lib.rs:143-146 | A text cut anywhere is a text or ends at most three bytes into a character |
| `TextRead.PanicsOnText` | crates/filesystem-runtime/src/lib.rs:110-165 | On a well-formed file the read fails if and only if the file goes on beyond the buffer and both the limit and the limit plus four fall inside characters |
| `TextRead.EuroSigns` | crates/filesystem-runtime/src/lib.rs:143-146 | Four three-byte characters read with a limit of four: the read fails |
| `CommitTree.ParseCommitTree` | crates/git-runtime/src/lib.rs:1031-1097 | On any bytes: one well-formed entry per non-empty record, in order, or the failure of the first record that does not parse |
| `CommitTree.RecordWellFormed` | crates/git-runtime/src/lib.rs:1009-1097 | A parsed record has a valid path, a 40- or 64-digit id, a 64-bit size, and lacks a size only as a submodule |
| `CommitTree.ParsesExactly` | crates/git-runtime/src/lib.rs:1037-1094 | A record parses as an entry if and only if it is text with four blank-separated fields, a tab and a valid path that say exactly this entry; an invalid path is told apart from every other fault |
| `CommitTree.ObjectIdRefused` | crates/git-runtime/src/lib.rs:1037-1060 | A third field that is no object id is told apart exactly where the header is text of at least three fields |
| `CommitTree.LineParses` | crates/git-runtime/src/lib.rs:1037-1094 | Every rendered line, whatever its mode, reads back as its entry |
| `CommitTree.ParsingUndoesPrinting` | crates/git-runtime/src/lib.rs:1031-1097 | Parsing the NUL-separated rendering of any entries, tabs in paths included, returns the entries |
| `CommitTree.PrintingUndoesParsing` | crates/git-runtime/src/lib.rs:1031-1097 | Whatever bytes parse, the result can be rendered again and parses to the same entries |
| `FrameCodec.HeaderFor` | crates/ipc-contract/src/lib.rs:169 | Four bytes, big end first, from which the length reads back |
| `FrameCodec.WriteFrame` | crates/ipc-contract/src/lib.rs:153-173 | Writes exactly one framed payload if and only if version and size are allowed, otherwise nothing |
| `FrameCodec.ReadFrame` | crates/ipc-contract/src/lib.rs:175-203 | Returns the specified frame, clean end or error, and leaves the specified rest of the stream |
| `FrameCodec.ReadsExactly` | crates/ipc-contract/src/lib.rs:175-203 | On any bytes: a frame exactly when a whole payload of this version that decodes comes first, which is consumed and nothing behind it; too large exactly by the header; end inside a frame told from end before one |
| `FrameCodec.ReadFramed` | crates/ipc-contract/src/lib.rs:153-203 | A written frame is read back and the rest of the stream is left |
| `FrameCodec.ReadCut` | crates/ipc-contract/src/lib.rs:175-194 | A frame cut short reads as an error |
| `FrameCodec.ReadBack` | crates/ipc-contract/src/lib.rs:153-203 | Any sequence of written frames reads back as the same sequence and a clean end |
| `FrameCodec.CutStreamReads` | crates/ipc-contract/src/lib.rs:153-203 | A stream cut anywhere reads as its complete frames, then a clean end between frames and an error inside one |
| `FrameCodec.NeverAWrongFrame` | crates/ipc-contract/src/lib.rs:153-203 | No cut yields a frame that was not written, nor a clean end inside a frame |

## Left out

- SQLite itself, write-ahead logging, prepared statements and the mapping of rows to projections.
- Projects, settings, themes, LLM providers, plugin registries, terminals, control tokens and the dock of a work context: single-row statements.
- The startup marking of running terminals as exited: it bumps no revision, so runs of the store begin after it.
- `agent_draft_has_live_run`: it counts `needs_review` as live, unlike the index and `is_terminal`.
- Session columns that only store what they are given: title, harness, model, prompt, provider snapshot, times.
- Operations on Drafts, sessions, bindings and Runs whose statements do not meet each other's effects are functions only; the imperative forms cover pane rows, loops and queries over many rows.
- Canonical paths, symlinks, file modes and trusted roots.
- Processes, PTYs, sockets, threads and the gateway; the locks around stores make each call one step.
- Cryptography: digests and signatures are compared as texts or taken as verified.
- Percent-decoding and URL parsing of artifact URLs.
- The removal of abandoned temporary files inside an Environment directory during a load.
- `list_installed` of the plugin store and the plugin data directories, beyond their success or failure.
- The text of error messages: failures are compared by kind.
- `EnvironmentCatalog.EnvironmentCatalog.CreateUserEnvironment`: does not model the creation of the user root directory itself.
- `EnvironmentLoad.LoadRoot`: keeps the refused directories by name with the kind of the reason, without the order of the list.
- `DraftLedger.UpdateBindingRoot`: leaves out the row of the project, whose root, unique among projects, and trust the same transaction updates.
- `RunCopies.SystemRunKeeps`: a Run that is not stored yet is created and saved in one act.
- `EnvironmentCatalog.EnvironmentCatalog.SaveConfiguration`: the metadata queries before the first write are not separate calls of the disk; the same holds for a deletion.
- `PluginStore.PluginStore.Uninstall`: the metadata query and the staging directory before the rename are not separate calls of the schedule.
- `PluginResolve.ResolveEnvironmentPlugins`: takes the sort of the standard library as a function that is proved to sort.
- `ReleaseSelection.SelectRelease`: likewise for the stable sort of the matches.
- `FrameCodec.ReadFrame`: leaves out I/O errors of the stream other than its end.
- `TextRead.ReadText`: works on the bytes of the file, so a file that changes between the size query and the read is outside the model.
