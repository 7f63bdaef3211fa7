# repomix-helper list and command model

A Dafny model of the core of the repomix-helper editor extension: it keeps two
per-workspace lists of workspace-relative paths, "include" and "ignore", always
stored deduplicated and sorted, and turns them into an invocation of the
`repomix` packaging tool — an argument vector for a task runner, and a quoted
command line for display.

Modules, one per part of `src/extension.ts`:

- `Wrappers` — `Option`, for `T | null` and optional parameters.
- `Text` — `join` and `split` on a one-character separator, with JavaScript's semantics, and their round trips.
- `Order` — the lexicographic string order, and `uniqSorted` (`UniqSorted`): canonical form is unique.
- `Paths` — `toWorkspaceRelative`: the containing folder, the relative path, and the separator rewrite to `/`.
- `ListStore` — the `Lists` record and the per-workspace store: `loadLists`, `saveLists`, `clearLists`.
- `ListEditor` — `addPaths`, which is three steps:
  - selection precedence: multi-select, then single item, then active editor;
  - mapping each picked file to a relative path;
  - the counted merge loop (`AddMany`), proved equal, step by step, to its reference fold `Merge`.
- `Commands` — `runRepomix` as a `RunOutcome`, and `exportRepomixCommand` as an `ExportResult`.

The host is modelled as parameters:
- A file reference is its file-system path (`Uri = string`).
- The open workspace folders are a `seq<string>`.
- The host path separator is a `char`.
- The `repomixHelper.repomixCommand` setting is an `Option<string>`.
- The active editor's document is an `Option<Uri>`.
- The extension's workspace state is a `map<WorkspaceId, Lists>`.

Behaviours of the code worth knowing, which the model keeps:

- The workspace root maps to the empty relative path, and `if (!rel)` counts it as skipped rather than adding it (`ListEditor.WorkspaceRootIsSkipped`).
- An empty ignore list emits no `--ignore` flag. A path literally named `--ignore` can still be the include value, so the guarantee is about flag positions only (`Commands.RunArgsShape`).
- Each operation loads, modifies and saves the lists without a lock; the model runs each operation as one sequential step.

## Model

| member | source | states |
|---|---|---|
| `Order.UniqSorted` | src/extension.ts:20-22 | the result is strictly ascending (hence duplicate-free) and has exactly the members of the input |
| `Order.SortedUnique` | src/extension.ts:20-22 | two strictly sorted lists with the same members are equal, so the canonical form of a member set is unique |
| `Order.UniqSortedOrderInsensitive` | src/extension.ts:20-22 | inputs with the same members, in any order and with any repetition, canonicalise to the same list |
| `Order.UniqSortedKeepsCanonical` | src/extension.ts:20-22 | a list already strictly sorted is returned unchanged |
| `Order.UniqSortedIdempotent` | src/extension.ts:20-22 | canonicalising twice equals canonicalising once |
| `Order.UniqSortedDistinct` | src/extension.ts:20-22 | no two positions of the canonical list hold the same path |
| `Text.Join` | src/extension.ts:172-186 | `parts.join(sep)`: the result starts with the first part, and contains the separator exactly when there are two or more parts or some part contains it |
| `Text.Split` | src/extension.ts:29 | `s.split(sep)`: at least one piece, and no piece contains the separator |
| `Text.SplitJoinReplaces` | src/extension.ts:29 | `split(sep).join("/")` has the same length as its input, puts "/" at every separator and keeps every other character in place |
| `Text.JoinSplit` | src/extension.ts:29 | splitting and re-joining on the same separator gives the string back |
| `Text.SplitJoin` | src/extension.ts:131-135 | joining a non-empty list of separator-free parts and splitting again gives the parts back |
| `Text.JoinEmpty` | src/extension.ts:178-183 | a joined list is empty exactly when the list is empty or is the single empty string |
| `Paths.ContainingFolder` | src/extension.ts:25-26 | there is no folder exactly when no open folder contains the path; a found folder is open and contains it |
| `Paths.Relative` | src/extension.ts:27 | the root maps to ""; any other contained path is the root, one separator, then the result |
| `Paths.ToWorkspaceRelative` | src/extension.ts:24-30 | no mapping exactly when no open folder contains the path; otherwise the relative path with each host separator replaced by "/" and every other character kept in order, so no host separator remains |
| `Paths.RootMapsToEmpty` | src/extension.ts:27-29 | the first open folder itself maps to the empty relative path |
| `Paths.ChildOfOnlyFolder` | src/extension.ts:24-30 | with one open folder on a "/" host, the folder, a "/" and a relative part map to exactly that relative part |
| `Paths.SlashHostKeepsRelative` | src/extension.ts:29 | on a "/" host the separator rewrite leaves the relative path unchanged |
| `ListStore.Canonicalize` | src/extension.ts:38-41 | both lists become strictly sorted with their members unchanged |
| `ListStore.Load` | src/extension.ts:32-35 | an absent workspace loads as two empty lists; a well-formed store loads canonical lists |
| `ListStore.Save` | src/extension.ts:37-42 | the saved value is canonical with the given members in each list; other workspaces are untouched; well-formedness is kept |
| `ListStore.Clear` | src/extension.ts:114-115 | afterwards the workspace loads as two empty lists, whatever it held; other workspaces are untouched |
| `ListStore.SaveLoadRoundTrip` | src/extension.ts:32-42 | on a well-formed store, saving what was loaded leaves the loaded lists unchanged |
| `ListStore.SaveStoredIsNoop` | src/extension.ts:37-42 | saving canonical lists that are already stored leaves the store equal |
| `ListStore.ClearIdempotent` | src/extension.ts:114-115 | clearing a cleared workspace gives the same store |
| `ListStore.SaveOrderInsensitive` | src/extension.ts:37-42 | lists with the same members store the same value, so insertion order is not observable |
| `ListEditor.ResolveSelection` | src/extension.ts:73-83 | a non-empty multi-selection is processed exactly, ignoring the single item; else the single item alone; else the active editor; nothing selected exactly when none exists |
| `ListEditor.MultiSelectionWinsScenario` | src/extension.ts:73-74 | with multi-selection `["a.ts","b.ts"]` and single item `"c.ts"` only the two are picked |
| `ListEditor.ValidPathsMembers` | src/extension.ts:91-95 | a path is eligible for adding exactly when it is non-empty and some entry maps to it |
| `ListEditor.Merge` | src/extension.ts:90-102 | the fold of the loop body over a batch: the list only grows by appending, its length grows by `added`, and `added + skipped` is at most the batch size |
| `ListEditor.MergeSound` | src/extension.ts:87-102 | the reference fold of the loop only grows the list, by appending; its members become the old ones plus the non-empty paths; `added` is the number of distinct new paths (batch duplicates count once); `skipped` is the number of falsy entries; `added + skipped` is at most the batch size |
| `ListEditor.MergeAlreadyPresent` | src/extension.ts:98-101 | a batch whose non-empty paths are all already listed leaves the list unchanged with `added = 0` |
| `ListEditor.MergeStepSound` | src/extension.ts:91-101 | one iteration (skip a falsy path, append an unseen path, ignore a present one) preserves those facts |
| `ListEditor.AddMany` | src/extension.ts:87-102 | the loop keeps the other list as it was, extends the chosen list by a suffix whose length is `added` and whose members are exactly the new paths, returns `added` = number of distinct new non-empty paths and `skipped` = number of falsy entries |
| `ListEditor.RelativePaths` | src/extension.ts:90-91 | one entry per picked file, no mapping exactly for files outside every open folder |
| `ListEditor.AddPaths` | src/extension.ts:67-104 | a no-op exactly when nothing is selected; otherwise the store gains no key but this workspace, whose stored lists are canonical, every other workspace keeps its entry, and a well-formed store stays well-formed |
| `ListEditor.AddPathsEffect` | src/extension.ts:85-104 | after an add, the kind's members are the old ones plus the new non-empty paths, the other list's members are unchanged, `added` counts the distinct new paths, `skipped` counts picked files with no usable path, and `added + skipped` is at most the number picked |
| `ListEditor.RepeatAddIsNoop` | src/extension.ts:98-104 | running the same add a second time reports `added = 0`, the same skips, and leaves the store equal |
| `ListEditor.AddPathsKeepsNoEmptyEntries` | src/extension.ts:91-95 | adding never stores the empty path |
| `ListEditor.WorkspaceRootIsSkipped` | src/extension.ts:91-95 | picking the workspace root adds nothing and counts one skip |
| `ListEditor.UnmappableScenario` | src/extension.ts:85-104 | two files inside and one outside the workspace give `added = 2`, `skipped = 1` and the stored include list `["a.ts","b.ts"]` |
| `Commands.Executable` | src/extension.ts:128 | never empty; the setting when it is present and non-empty, else `"repomix"` |
| `Commands.Run` | src/extension.ts:120-143 | refused exactly when the include list is empty, whatever else holds; else refused exactly when no workspace folder is open; a launch uses the configured executable, the first folder as working directory and the include/ignore argument vector |
| `Commands.RunArgsShape` | src/extension.ts:130-137 | the vector is `--include` and the comma-joined include list, followed by `--ignore` and the joined ignore list exactly when that list is non-empty; no flag position holds `--ignore` otherwise |
| `Commands.ListArgRoundTrip` | src/extension.ts:131-135 | splitting a joined list argument at commas gives the list back when no member holds a comma |
| `Commands.EmptyIncludeRefusedRegardless` | src/extension.ts:121-125 | an empty include list is refused whatever the ignore list, setting and folders |
| `Commands.SortedArgsScenario` | src/extension.ts:130-137 | saving include `["x.ts"]` and ignore `["b.ts","a.ts"]` then running gives `["--include","x.ts","--ignore","a.ts,b.ts"]` in `/ws` |
| `Commands.ExportCommand` | src/extension.ts:169-186 | never refuses; warns exactly when the joined include list is empty; the command is the executable, then ` --include "<joined includes>"` only if that join is non-empty, then ` --ignore "<joined ignores>"` only if that join is non-empty, so an empty include list with a non-empty ignore list still shows the ignore segment |
| `Commands.ExportShape` | src/extension.ts:176-186 | joining the executable and the present segments with spaces equals the executable followed by each present segment with one leading space |
| `Commands.Export` | src/extension.ts:166-186 | on the stored lists of the workspace: warns exactly when the joined stored include list is empty, and the command has the same segment shape as `ExportCommand` |
| `Commands.ExportAgreesWithRun` | src/extension.ts:120-186 | when no stored member is empty, export warns exactly when run refuses for an empty include list; when run launches, export is its executable and arguments rendered as `--flag "value"` segments |

## Left out

- Host plumbing is not modelled: status bar items, the status-bar text, output channels, information and warning message texts, command registration in `activate`/`deactivate` (src/extension.ts:44-59, 188-201, 205-245). The warnings survive only as the outcome tags `NoFileSelected`, `IncludeEmpty`, `NoWorkspaceFolder` and `warnIncludeEmpty`.
- Task construction and `executeTask` (src/extension.ts:145-163) are left out; `Run` returns the `RunRequest` that would be handed to the task runner.
- Paths.ContainingFolder: picks the first open folder containing the path, whereas the host picks the innermost one; the two differ only for nested workspace folders.
- Paths.Relative: models `path.relative` as prefix stripping on the host separator. It does not model `..` results, roots with a trailing separator, or case-insensitive comparison on Windows, because `path.relative` is a foreign library.
- Order.Less: orders strings by `char`, while `Array.prototype.sort` compares UTF-16 code units. The two agree except on characters outside the Basic Multilingual Plane.
- The async/await sequencing is not modelled: each command is one sequential step over the store, so interleaved commands (lost updates) are not modelled.
- `dist/extension.js` is an older bundled build (single-path `addPath`, `showLists`) and is not part of this model.
- `Load` returns whatever is stored. Lists come out canonical only from a well-formed store, which every `Save` and `Clear` keeps well-formed.
