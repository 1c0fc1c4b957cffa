# Pending-completion table of the GameFrameX download component

The download component (`DownloadComponent`) is a thin host wrapper around a
download manager. It has one piece of logic of its own: a table `m_Downloads`
that maps each serial id to a `DownloadData` record. The record holds the url,
the tag, the user data and a one-shot completion source (`TaskCompletionSource<bool>`).
Callers of `Download` await that source. The success and failure events from
the manager resolve it to `true` or `false`.

This project models that table as a sequential state machine.

- `wrappers.dfy`, module `Wrappers`: `Option`, and `Reply`, which says whether a call returned or raised.
- `download_component.dfy`, module `DownloadComponent`: the state and one function per operation:
  - the `DownloadData` constructor;
  - the full `AddDownload` and its seven convenience overloads;
  - `Download`, `RemoveDownload`, `RemoveDownloads` and `RemoveAllDownloads`;
  - the success and failure handlers.

  The module also holds the invariant `Valid` and the proofs that each operation preserves it.
- `tag_removal.dfy`, module `TagRemoval`: what removal by tag does to the table. It removes at most one entry, and its behaviour with no match is spelled out.
- `pending_lifecycle.dfy`, module `PendingLifecycle`: arbitrary runs of operations and events. It proves three things:
  - each completion source is resolved at most once;
  - a source is resolved only through its own entry, while that entry is in the table;
  - the source of a removed entry is never resolved.

Modelling choices:

- The download manager is an oracle. Each operation takes the manager's answer as a parameter:
  - for adding, a serial id or an exception;
  - for removing by id, a flag;
  - for the bulk removals, a count.

  Each operation also returns the `ManagerCall` it forwards.
- Completion sources are numbered in creation order. `Component.completions[h]` is `None` while source `h` is unresolved and `Some(b)` once it is resolved to `b`. An awaiter keeps its handle after the table drops the entry, so this sequence only grows.
- C# null references are `None`: null strings are `Option<string>`, and a user-data object is `Option<nat>` (its identity).
- `ConcurrentDictionary` gives no order when it enumerates `Values`. `RemoveDownloads` therefore takes that order as a parameter `order`, which must list exactly the table's keys.

## Model

| member | source | states |
|---|---|---|
| DownloadComponent.Initial | Runtime/Download/DownloadComponent.cs:113 | The table starts empty, in a state satisfying the invariant: every entry is keyed by its own serial id and holds its own unresolved completion source. |
| DownloadComponent.NewDownloadData | Runtime/Download/DownloadComponent.cs:129-136 | The record keeps url, tag, serial id and user data as given. Its completion source is new and unresolved, and no existing entry holds it. The table is untouched. |
| DownloadComponent.AddDownload | Runtime/Download/DownloadComponent.cs:344-350 | Forwards all five arguments to the manager and returns the manager's serial id. If the manager raises, nothing changes. If the id is new, an entry with that uri, tag and user data and a fresh unresolved source is stored under it. If the id is already present, the old entry is kept (TryAdd). No other entry and no existing source changes. |
| DownloadComponent.AddDownloadDefault | Runtime/Download/DownloadComponent.cs:238-241 | Forwards a null tag, priority 0 and null user data. The table effect is the full add with those arguments. |
| DownloadComponent.AddDownloadWithTag | Runtime/Download/DownloadComponent.cs:250-253 | Forwards the tag, priority 0 and null user data. |
| DownloadComponent.AddDownloadWithPriority | Runtime/Download/DownloadComponent.cs:262-265 | Forwards a null tag, the priority and null user data. |
| DownloadComponent.AddDownloadWithUserData | Runtime/Download/DownloadComponent.cs:291-294 | Forwards a null tag, priority 0 and the user data. |
| DownloadComponent.AddDownloadWithTagPriority | Runtime/Download/DownloadComponent.cs:304-307 | Forwards the tag, the priority and null user data. |
| DownloadComponent.AddDownloadWithTagUserData | Runtime/Download/DownloadComponent.cs:317-320 | Forwards the tag, priority 0 and the user data. |
| DownloadComponent.AddDownloadWithPriorityUserData | Runtime/Download/DownloadComponent.cs:330-333 | Forwards a null tag, the priority and the user data. |
| DownloadComponent.Download | Runtime/Download/DownloadComponent.cs:273-282 | Forwards a null tag, priority 0 and null user data, and changes the table exactly as that full add does: for a new id it stores the uri with a null tag and null user data, and no other entry changes. When the manager returns, the task handed back is never null. It is the source stored under the returned id: a fresh one for a new id, the older entry's own for a reused id. It is unresolved, and the invariant is kept. When the manager raises, nothing changes. |
| DownloadComponent.RemoveDownload | Runtime/Download/DownloadComponent.cs:357-361 | The entry for the id is gone, every other entry is unchanged and no source changes. The manager's answer is returned whatever it is. |
| DownloadComponent.FirstTagged | Runtime/Download/DownloadComponent.cs:370-378 | The scan stops at the first enumerated entry whose tag equals the argument (null equals null). It reports no position only when no entry from the start position on matches. |
| DownloadComponent.TaggedEntryIsFound | Runtime/Download/DownloadComponent.cs:370-378 | Over an enumeration of the whole table, the scan finds a position if and only if some entry carries the tag. |
| DownloadComponent.TaggedSerialId | Runtime/Download/DownloadComponent.cs:370-378 | The id chosen is the serial id of the first enumerated entry with the tag, or -1 when no entry has it. |
| DownloadComponent.RemoveDownloads | Runtime/Download/DownloadComponent.cs:368-382 | Only the chosen id is removed. Every other entry and every source is unchanged. The tag goes to the manager, and its count is returned. |
| DownloadComponent.RemoveAllDownloads | Runtime/Download/DownloadComponent.cs:388-392 | The table is empty afterwards. No source is resolved, and the manager's count is returned. |
| DownloadComponent.TrySetResult | Runtime/Download/DownloadComponent.cs:430 | An unresolved source takes the given result. An already resolved source keeps its result. No other source changes. |
| DownloadComponent.Complete | Runtime/Download/DownloadComponent.cs:425-442 | An event for an id with no entry changes nothing. Otherwise the entry is removed, its unresolved source gets the result, and every other entry and source stays as it was. |
| DownloadComponent.OnDownloadSuccess | Runtime/Download/DownloadComponent.cs:425-432 | If the re-broadcast throws, nothing changes. Otherwise the entry for the id is removed and its unresolved source resolves to true; every other entry and every other source keeps its state. With no entry, nothing changes. |
| DownloadComponent.OnDownloadFailure | Runtime/Download/DownloadComponent.cs:434-442 | If the warning log or the re-broadcast throws, nothing changes. Otherwise the entry for the id is removed and its unresolved source resolves to false; every other entry and every other source keeps its state. With no entry, nothing changes. |
| DownloadComponent.AddPreservesValid | Runtime/Download/DownloadComponent.cs:344-350 | Adding keeps every entry keyed by its own id, each with its own unresolved source. |
| DownloadComponent.RemovePreservesValid | Runtime/Download/DownloadComponent.cs:357-361 | Removal by id keeps the invariant. |
| DownloadComponent.RemoveTaggedPreservesValid | Runtime/Download/DownloadComponent.cs:368-382 | Removal by tag keeps the invariant. |
| DownloadComponent.CompletePreservesValid | Runtime/Download/DownloadComponent.cs:425-442 | A success or failure event keeps the invariant. Resolving one entry's source leaves the others unresolved. |
| TagRemoval.RemoveDownloadsRemovesFirstMatch | Runtime/Download/DownloadComponent.cs:368-382 | When some entry carries the tag, the table loses exactly the first such entry in enumeration order. |
| TagRemoval.RemoveDownloadsNoMatch | Runtime/Download/DownloadComponent.cs:370-380 | With no match, only key -1 is removed. The state is unchanged unless an entry is keyed -1; such an entry is removed even though its tag differs. |
| TagRemoval.RemoveDownloadsDropsOneTagged | Runtime/Download/DownloadComponent.cs:368-382 | With a match, exactly one tagged entry leaves the table, however many carry the tag. |
| TagRemoval.RemoveDownloadsLeavesOtherMatch | Runtime/Download/DownloadComponent.cs:380-381 | Of two entries with the tag, at least one stays in the table with its source unresolved, even though the manager was asked to drop every task with that tag. |
| PendingLifecycle.Step | Runtime/Download/DownloadComponent.cs:344-442 | No operation or event changes or undoes a resolved source, and none drops a source. |
| PendingLifecycle.StepPreservesValid | Runtime/Download/DownloadComponent.cs:344-442 | Every operation and event keeps the invariant. |
| PendingLifecycle.StepEntriesOldOrNew | Runtime/Download/DownloadComponent.cs:344-350 | After any step, each entry is either an old one, unchanged, or a new one holding a source created in that step. |
| PendingLifecycle.StepResolvesOnlyPending | Runtime/Download/DownloadComponent.cs:425-442 | A source is resolved in a step only by a success or failure event, for the id whose entry holds it, whose re-broadcast returned. That entry is then gone, and the source holds true for success and false for failure. |
| PendingLifecycle.StepKeepsOrphan | Runtime/Download/DownloadComponent.cs:357-392 | An unresolved source that no entry holds stays that way through any step. |
| PendingLifecycle.RunPreservesValid | Runtime/Download/DownloadComponent.cs:344-442 | The invariant holds after any run of operations and events. |
| PendingLifecycle.RunKeepsResults | Runtime/Download/DownloadComponent.cs:430-440 | Single resolution: after any run, every source resolved at the start still has the same result. |
| PendingLifecycle.OrphanNeverResolved | Runtime/Download/DownloadComponent.cs:425-442 | An unresolved source that no entry holds is still unresolved after any run. |
| PendingLifecycle.RemovedAwaiterNeverResolved | Runtime/Download/DownloadComponent.cs:357-361 | After RemoveDownload of a pending id, that download's awaiter is never resolved, whatever happens later. |
| PendingLifecycle.TagRemovedAwaiterNeverResolved | Runtime/Download/DownloadComponent.cs:368-382 | After RemoveDownloads, the awaiter of the entry it removed is never resolved. |
| PendingLifecycle.ClearedAwaitersNeverResolved | Runtime/Download/DownloadComponent.cs:388-392 | After RemoveAllDownloads, no awaiter of a download pending before it is ever resolved. |
| PendingLifecycle.DownloadAwaiterResolves | Runtime/Download/DownloadComponent.cs:273-282 | The task Download hands back resolves to true on a success event for its id and to false on a failure event, and the entry is removed. |
| PendingLifecycle.UnconcernedEntryPersists | Runtime/Download/DownloadComponent.cs:348 | An entry stays in the table, unchanged and unresolved, while no event, removal by its id, removal by tag or removal of all occurs. A later add that gets the same serial id does not replace it. |

## Left out

- The download manager, with its task queue, agent pool, byte-range transfer and flush logic. It sits behind `IDownloadManager`, whose implementation is not part of this model, so its answers are parameters.
- The manager exception paths in RemoveDownload, RemoveDownloads and RemoveAllDownloads. The table change comes before the manager call, so an exception there would not undo it; the manager's answer is taken as a plain value.
- What `EventComponent.Fire` and `Log.Warning` do. They are side effects on other systems, so the handlers only take a flag `fired` saying whether they returned. When they throw (for example `Fire` on a null `m_EventComponent` after `Start` found no event component, lines 164-168), the exception leaves the handler before `TryRemove`: the entry stays and its source is not resolved. Where that exception goes afterwards is not modelled. The start and update handlers touch no table state.
- The property forwarding (`Paused`, agent and task counts, `Timeout`, `FlushSize`, `CurrentSpeed`) and `GetDownloadInfo`/`GetDownloadInfos`/`GetAllDownloadInfos`. They only delegate, and two of them are floating point.
- Unity lifecycle and object wiring: `Awake`, `Start`, `AddDownloadAgentHelper`, and the helper-preserving `GameFrameXDownloadCroppingHelper`.
- Thread safety of `ConcurrentDictionary` and `Task` awaiting semantics. The table is a sequential map and a source is an `Option<bool>`. `Download`'s null return can only happen if another thread removes the entry between TryAdd and TryGetValue. That interleaving is not modelled, so in the model a returning manager always yields a task.
- C# overload resolution: a call such as `AddDownload(path, uri, null)` binds to the tag overload. The model names each overload separately.
- Serial ids are C# 32-bit `int`s chosen by the manager. Since they arrive as parameters, the model uses unbounded `int` and needs no wrap-around.
- The source's own documentation promises more than the table delivers. `Download`'s returns note (line 272) says the task tells whether the download succeeded, but a download removed before it completes leaves its task unresolved for ever (`RemovedAwaiterNeverResolved`, `TagRemovedAwaiterNeverResolved`, `ClearedAwaitersNeverResolved`). `RemoveDownloads`' summary and returns note (lines 364 and 367) speak of the tasks with the tag and how many were removed, but the table loses only one entry per call (`RemoveDownloadsDropsOneTagged`, `RemoveDownloadsLeavesOtherMatch`); the returned count is the manager's. The model follows the code.
