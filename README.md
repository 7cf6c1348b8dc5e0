# react-codemirror bridge: a Dafny model

This project models the logic at the heart of a small library that binds a
CodeMirror 6 editor to React components. CodeMirror's `EditorState`,
`Transaction` and `Compartment` and the DOM's parent element are replaced by
opaque values compared by identity (module `Engine`). An `Extension` is a tree
of groups (arrays) and leaves (any other object, known only by identity).

- `Extensions` — `isExtensionArray` (the `Group?` discriminator, `IsExtensionArray`)
  and `extensionIsEqual`, the structural equality over extension trees.
- `UseSyncExtensions` — `useSyncExtensions`: the length check, one reconfigure
  effect per stale compartment in compartment order, and one state update when
  anything was queued. An editor state is seen through its compartments, a
  `map<Compartment, Extension>`; `state.update({ effects }).state` writes each
  effect into that map in order. The thrown `Error` is the `Err(LengthMismatch)`
  result, and the call to `setEditorState` is the `committed` part of the outcome.
- `Tracking` — the `tracking` state field: `create` gives an empty log and
  `update` appends one transaction.
- `UseEditor` — `useEditor`: which state is effective (controlled `state`, else
  the internal store seeded from `defaultState` or the empty state), the
  `dispatchTransactions` closure, the layout effect that clears, creates or
  resets the view, the cleanup keyed on the view that destroys every view it
  replaces, and the module-level warn-once flag. `EditorView` is the class
  `View` with `parent`, `state` and `destroyed` fields; the hook is the class
  `Editor`; the module-level flag is the class `BothPropsWarning`.

`useEditor` resets a mismatched view with `view.setState`
(src/hooks/useEditor.ts:142-144), and nothing reads the `tracking` field, so
the model has no transaction replay and no diff-based patching.

A view keeps the `dispatchTransactions` closure it was built with, because
CodeMirror reads that option only when constructing the view; `View.dispatchOptions`
records the options that closure captured, and `Editor.DispatchTransactions`
reads them rather than the latest render's.

`View.parent` is the element the view was built in, standing for
`view.dom.parentElement` in the test at src/hooks/useEditor.ts:129.

## Model

| member | source | states |
|---|---|---|
| `Extensions.ExtensionIsEqual` | src/hooks/useSyncExtensions.ts:12-31 | Two extensions are equal exactly when they are the same value: leaves only when they are the same object, never a leaf and a group, groups only with the same length and pairwise equal children at every depth; hence reflexive and symmetric, and terminating |
| `Extensions.IsExtensionArray` | src/hooks/useSyncExtensions.ts:8-10 | An extension is an array exactly when it is not a leaf |
| `UseSyncExtensions.IsStale` | src/hooks/useSyncExtensions.ts:108-109 | A compartment is stale exactly when it is not present holding the desired extension |
| `UseSyncExtensions.StaleIndices` | src/hooks/useSyncExtensions.ts:102-112 | The indices queued are, in strictly increasing order, exactly those whose compartment is absent from the state or holds an extension not equal to the desired one |
| `UseSyncExtensions.SyncExtensions` | src/hooks/useSyncExtensions.ts:88-117 | Lists of different length give the error and nothing else; otherwise the effects are those of the stale indices in compartment order, and `setEditorState` is called once with all of them applied when any was queued, never otherwise |
| `UseSyncExtensions.ApplyEffects` | src/hooks/useSyncExtensions.ts:115 | The updated state holds exactly the compartments it held plus those the effects name |
| `UseSyncExtensions.ApplyEffectsElsewhere` | src/hooks/useSyncExtensions.ts:115 | The combined update leaves a compartment that no effect names as it was, present or absent |
| `UseSyncExtensions.ApplyEffectsOnly` | src/hooks/useSyncExtensions.ts:115 | A compartment named by exactly one effect holds that effect's extension after the update |
| `UseSyncExtensions.ApplyEffectsLastWins` | src/hooks/useSyncExtensions.ts:115 | A compartment named by several effects holds the extension of the last of them after the update |
| `UseSyncExtensions.SyncReachesDesiredAt` | src/hooks/useSyncExtensions.ts:108-115 | With distinct compartments, listed compartment i holds extension i after the committed update, whether it was stale or already equal |
| `UseSyncExtensions.SyncReachesDesired` | src/hooks/useSyncExtensions.ts:102-116 | With distinct compartments, every listed compartment holds its desired extension after the committed update |
| `UseSyncExtensions.SyncLeavesUnlisted` | src/hooks/useSyncExtensions.ts:108-115 | A compartment not in the list keeps its value, or stays absent, across the committed update |
| `UseSyncExtensions.NothingQueuedWhenInSync` | src/hooks/useSyncExtensions.ts:109-116 | Nothing is queued, so the state is left untouched, exactly when every listed compartment already holds its desired extension |
| `UseSyncExtensions.SyncIdempotent` | src/hooks/useSyncExtensions.ts:33-43 | With distinct compartments, syncing again against the state just committed queues no effect |
| `UseSyncExtensions.DuplicateCompartmentRequeues` | src/hooks/useSyncExtensions.ts:102-116 | With one compartment listed twice under different extensions, a second sync against the committed state queues an effect again: the source is not idempotent there |
| `UseSyncExtensions.DuplicateCompartmentAlternates` | src/hooks/useSyncExtensions.ts:102-116 | With one compartment listed twice and the state holding the later listing's extension, only the first listing is stale, the commit installs the earlier extension, and the next call finds the later listing stale |
| `Tracking.Create` | src/extensions/tracking.ts:4-6 | A new state starts with an empty log |
| `Tracking.Update` | src/extensions/tracking.ts:7-9 | The new log is one longer, keeps every previous entry in place and in order, and ends with the new transaction |
| `Tracking.ReplayIsLog` | src/extensions/tracking.ts:3-10 | After n updates from `create`, the log is exactly those n transactions in the order applied |
| `Tracking.ReplayExtends` | src/extensions/tracking.ts:7-9 | Later updates only extend the log: what was logged stays unchanged at the front |
| `UseEditor.InitialState` | src/hooks/useEditor.ts:18-50 | The internal store is seeded from `defaultState` when given, and from the empty state otherwise |
| `UseEditor.EffectiveState` | src/hooks/useEditor.ts:51 | The effective state is the supplied `state` whenever one is given, whatever the store holds, and the store otherwise |
| `UseEditor.PlanLifecycle` | src/hooks/useEditor.ts:124-145 | The view is cleared exactly when there is no parent and kept exactly when it already sits in the parent with the effective state; a created view gets the parent and the effective state; a reset happens only to a view already in the parent, with the effective state |
| `UseEditor.ApplyLifecycle` | src/hooks/useEditor.ts:124-145 | Clearing leaves no view, creating leaves a view with the given parent and state, a reset changes only the state, and keeping changes nothing |
| `UseEditor.LifecycleAligns` | src/hooks/useEditor.ts:124-145 | After a lifecycle step there is no view exactly when there is no parent, and otherwise the view sits in the parent and shows the effective state |
| `UseEditor.LifecycleResetsOnlyStale` | src/hooks/useEditor.ts:142-144 | `setState` is chosen exactly when the view already sits in the parent and its state is not the effective state |
| `UseEditor.LifecycleIdempotent` | src/hooks/useEditor.ts:124-145 | A second step with unchanged parent and effective state creates nothing, resets nothing and leaves the view as it is |
| `UseEditor.View.constructor` | src/hooks/useEditor.ts:130-137 | A new view sits in the given parent, shows the given state, is not destroyed, and keeps the options its dispatch closure captured |
| `UseEditor.View.SetState` | src/hooks/useEditor.ts:142-144 | The view shows the new state and stays in its parent, its destroyed flag unchanged |
| `UseEditor.View.Destroy` | src/hooks/useEditor.ts:117-121 | The view is destroyed, one more destroy call is counted, and its parent and state are unchanged |
| `UseEditor.BothPropsWarning.constructor` | src/hooks/useEditor.ts:20 | The flag starts cleared with no warning emitted |
| `UseEditor.BothPropsWarning.Check` | src/hooks/useEditor.ts:26-45 | The warning is emitted exactly when not in production, both `defaultState` and `state` are given and it was never emitted before; at most one warning over the flag's lifetime |
| `UseEditor.Editor.constructor` | src/hooks/useEditor.ts:18-51 | On mount the store holds `defaultState`, or the empty state, there is no view, and the effective state is the supplied `state` if given, else that seed |
| `UseEditor.Editor.Render` | src/hooks/useEditor.ts:22-51 | A render performs the warning check and adopts its options: it warns exactly when in development with both props given and the flag unset, sets the flag when it warns, counts at most one warning overall; a controlled render's effective state is its `state` |
| `UseEditor.Editor.DispatchTransactions` | src/hooks/useEditor.ts:53-82 | An empty list changes nothing and calls nothing; otherwise the store takes the last transaction's state unless the closure's options are controlled, the user callback if any receives the same list and view once, and a controlled editor's effective state does not move |
| `UseEditor.Editor.SetView` | src/hooks/useEditor.ts:115-121 | Changing the view destroys the view it replaces, exactly once, and records the new one |
| `UseEditor.Editor.LifecycleStep` | src/hooks/useEditor.ts:124-145 | The step takes the branch `PlanLifecycle` describes and leaves the view as `ApplyLifecycle` says; a created view is fresh, carries the effective state and the current options, and the view it replaced is destroyed exactly once; a reset or keep step leaves the same view object live, and no other view is touched |
| `UseEditor.Editor.Unmount` | src/hooks/useEditor.ts:117-121 | On unmount the live view is destroyed, so every view the hook created has been destroyed exactly once |

## Left out

- React scheduling: `flushSync` and the `flushSyncRef` flag (src/hooks/useEditor.ts:47, 61-62) only change when React commits; both branches have the same effect on the store and the callback, so the model has one path.
- The before/after slot `ViewPlugin` (src/hooks/useEditor.ts:90-113): DOM element creation for portals.
- The debug `console.log(state)` (src/hooks/useEditor.ts:147): output only.
- The `extensions` passed to the new view and the rest of `EditorViewConfig`: opaque to the bridge.
- React's re-render after `setView` is folded into `Editor.SetView`: the new view is stored and the cleanup keyed on the old one runs in the same step.
- CodeMirror internals (`EditorState.update`, `Compartment.get`/`reconfigure`, view construction and teardown) are the abstract map and identity semantics above; an editor state in `UseSyncExtensions` is only its compartment map, so the fresh identity of the updated state is not modelled.
- `UseSyncExtensions.SyncReachesDesired`: assumes each compartment is listed once. With a compartment listed twice under different extensions, the source queues one effect per listing that is stale, and the last queued effect wins (`ApplyEffectsLastWins`). Which listing that is depends on the current state, so the compartment cannot hold both desired extensions.
- `UseSyncExtensions.SyncReachesDesiredAt`: assumes each compartment is listed once, for the same reason: of two listings of one compartment under different extensions, only the one whose effect is queued last is installed.
- `UseSyncExtensions.SyncIdempotent`: assumes each compartment is listed once, because the source is not idempotent otherwise. With a compartment listed twice under different extensions, a listing is always stale after the commit, so every call commits again: from an empty state the first listing is re-queued (`DuplicateCompartmentRequeues`), and from a state holding one listing's extension successive calls alternate between the two (`DuplicateCompartmentAlternates`).
- `UseSyncExtensions.ApplyEffects` writes a reconfigured compartment into the map even when the state did not hold it; CodeMirror's own `update` keeps only compartments reachable from the configuration, so for a compartment absent from the configuration the absent case of `SyncReachesDesired` and `SyncIdempotent` holds only in this map abstraction.
- A destroyed view detaches its DOM, so the parent test at src/hooks/useEditor.ts:129 would rebuild a destroyed view that React kept; `View.Destroy` keeps `View.parent`, and that path is not modelled.
- `src/hooks/useEditorEventCallback.ts`, `src/hooks/useEffectEvent.ts`, `src/hooks/useCompartment.ts` and `src/hooks/useReconfigure.ts`: stable callback identity through React refs and thin dispatch wrappers, not part of this model.
- The React components and contexts (`src/components`, `src/contexts`, `src/index.ts`), the demo and the lint configuration: wiring with no logic of its own.
