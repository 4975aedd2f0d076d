# Page replacement in VirtualMemory-Optimizer

VirtualMemory-Optimizer simulates demand paging. A reference string of page
numbers is run against a fixed number of page frames, under one of two
replacement policies:

- **LRU** evicts the resident page whose last reference is oldest.
- **Optimal (Belady)** evicts the resident page whose next reference lies
  farthest ahead. A page that never recurs counts as infinitely far away.

The canonical classes and the two Tkinter simulators report the number of
page faults, the final frame contents and a per-reference history. The web
front end returns only the history and the fault count; its final frames
are the state of the last history entry. `app.py`'s `MemoryManager`
returns only the fault count and the final list of resident pages, with no
history. The repository carries five copies of this core. Four of them
differ from each other in small ways; `original_vm.py` repeats the
`vm_simulator.py` class and differs only in the guard of its
`run_simulation`. This project
models all five and proves each one against a shared specification of the
two policies.

| module | models |
|---|---|
| `FrameTable` | The frame table: a sequence of slots, each holding a page or the sentinel `EMPTY` (`-1`). Also Python's `list.index`, `memory[memory.index(x)] = page`, the pre-step history record and the fault count. |
| `Recency` | The `OrderedDict` used as the LRU tracker: `del` plus re-insert moves a key to the newest end, and `next(iter(...))` yields the oldest key. The tracker's order is proved to be the order of last reference. |
| `Lru` | The LRU policy as functions: the state after k references and the pre-step history of a run. |
| `Belady` | The Optimal victim choice, with both `float('inf')` and first-maximum tie-breaking. Three lookahead forms are covered, and all three are proved to choose the same victim on every fault. Also the Optimal run as functions. |
| `PageReplacement` | `virtual_memory_sim/src/algorithms/page_replacement.py`: the canonical classes, as Dafny classes over an `array` of frames. |
| `WebApp` | `lru_replacement` and `optimal_replacement` of the web front end. These record the frames *after* each step, together with a step index. |
| `VmSimulator` | The simulator class of `vm_simulator.py`. `original_vm.py` contains the same class, so this model covers both files. |
| `OriginalVm` | `run_simulation` of `original_vm.py`: the empty-input guard, and the error that follows from having no frames. |
| `App` | `MemoryManager` of `app.py`. Its resident list is compact and changed with `remove`/`append`. The final list is then padded into a `-1`-filled frame array. |
| `Scenarios` | What the unit tests check: facts that hold for every run, plus the two-page run on three frames. |

The canonical behaviour is the following:

- A fault with a free slot fills the lowest `-1` slot, and nothing else changes.
- A fault on full frames overwrites the first slot that holds the victim.
- A hit leaves the frames alone.
- Each history record holds the page, a copy of the frames taken before the
  step, and a flag that is raised exactly when the page was absent from
  that copy.
- The counter equals the number of raised flags.

Each imperative simulator is a `method` with loop invariants, whose
`ensures` ties its results to specification functions:

- `PageReplacement`'s two `Simulate` methods and `VmSimulator`'s
  `LruReplace`/`OptimalReplace` return the history, counter and final
  frames of `Lru.History`/`Lru.After` or `Belady.History`/`Belady.After`.
- `WebApp.LruReplacement`/`OptimalReplacement` return the post-step trace
  `WebApp.LruTrace`/`OptimalTrace` and its count `WebApp.Faults`. These are
  tied to the canonical run by `WebApp.LruTraceIsShiftedHistory`,
  `LruTraceFaults` and `LruTraceFinalState`, and by their `Optimal`
  counterparts.
- `App.MemoryManager.LruReplace` returns the list and count of
  `App.LruAfter`/`App.LruFaults`, which `App.LruAgrees` and
  `App.LruSameResidents` tie to `Lru.After` and `Lru.History`.
- `App.MemoryManager.OptimalReplace` returns the list and count of
  `App.OptimalAfter`/`App.OptimalFaults`. No lemma ties these to the
  canonical Optimal run (see "Left out"). `App.OptimalReplay` states their
  behaviour step by step instead.

The properties the system promises are proved about these functions.

On `[1,2,3,4,1,2,5,1,2,3,4,5]` with three frames, LRU gives 10 faults (9
is FIFO's count) and Optimal gives 7. These figures are not proved (see
"Left out").

## Model

| member | source | states |
|---|---|---|
| FrameTable.IndexOf | virtual_memory_sim/src/algorithms/page_replacement.py:37 | `list.index`: None exactly when the value is absent; otherwise an index that holds the value, with no earlier index holding it |
| FrameTable.Replace | virtual_memory_sim/src/algorithms/page_replacement.py:44 | `memory[memory.index(victim)] = page` keeps the frame count; `ReplaceChangesFirstMatch` states which slot changes |
| FrameTable.ReplaceChangesFirstMatch | virtual_memory_sim/src/algorithms/page_replacement.py:35-44 | `memory[memory.index(victim)] = page` changes exactly the lowest slot holding `victim`; every other slot keeps its page |
| FrameTable.ReplaceResidents | virtual_memory_sim/src/algorithms/page_replacement.py:31-44 | writing an absent page over the victim keeps pages distinct; the resident set becomes the old one minus the victim plus the page |
| FrameTable.OccupiedUpdate | virtual_memory_sim/src/algorithms/page_replacement.py:44 | overwriting one slot changes the count of occupied slots by what left and what came in |
| FrameTable.EmptyFrames | virtual_memory_sim/src/algorithms/page_replacement.py:8-12 | `[-1] * total_frames`: exactly `total_frames` slots, every one `-1` |
| FrameTable.Record | virtual_memory_sim/src/algorithms/page_replacement.py:25-33 | the `current_state` dict: the page, the copy of the frames taken before the step, and a flag raised exactly when the page is absent from that copy |
| FrameTable.FaultCount | virtual_memory_sim/src/algorithms/page_replacement.py:32 | the number of raised flags never exceeds the number of records |
| FrameTable.FaultCountExtremes | virtual_memory_sim/src/algorithms/page_replacement.py:32 | the count is 0 exactly when no flag is raised, and equals the number of records exactly when every flag is raised |
| FrameTable.FaultCountSnoc | virtual_memory_sim/src/algorithms/page_replacement.py:31-33 | appending a record raises the fault count by exactly its flag |
| FrameTable.RoomStep | virtual_memory_sim/src/algorithms/page_replacement.py:31-44 | if the frames hold exactly the pages referenced so far, one per occupied slot, and the distinct pages still fit, then a miss finds a free slot, and after the reference the frames hold exactly the pages referenced, one per occupied slot |
| FrameTable.FaultCountMonotone | virtual_memory_sim/tests/test_page_replacement.py:17 | a prefix of a history never has more faults than the whole history |
| Recency.Delete | virtual_memory_sim/src/algorithms/page_replacement.py:42 | `del od[x]`: the keys left are exactly the old keys other than `x`, and none is added |
| Recency.DeleteOne | virtual_memory_sim/src/algorithms/page_replacement.py:42 | deleting a present key from a tracker without repeats removes exactly one entry |
| Recency.Touch | virtual_memory_sim/src/algorithms/page_replacement.py:47-49 | delete-then-insert makes the page the newest key, and the key set gains the page |
| Recency.TouchKeepsOrder | virtual_memory_sim/src/algorithms/page_replacement.py:47-49 | if the tracker is ordered by last reference in a prefix, then after touching p it is ordered by last reference in the prefix extended by p |
| Recency.DeleteKeepsOrder | virtual_memory_sim/src/algorithms/page_replacement.py:42 | deleting a key keeps the tracker ordered by last reference |
| Recency.OldestIsLeastRecent | virtual_memory_sim/src/algorithms/page_replacement.py:40 | `next(iter(access_history))` was referenced strictly earlier than every other key |
| Lru.Step | virtual_memory_sim/src/algorithms/page_replacement.py:31-49 | one reference keeps the frames free of duplicates and the tracker keys equal to the resident pages; the page ends up resident and newest |
| Lru.After | virtual_memory_sim/src/algorithms/page_replacement.py:24-49 | after k references the frame count is unchanged, no page sits in two slots, the tracker keys are exactly the resident pages, and the last reference is resident |
| Lru.History | virtual_memory_sim/src/algorithms/page_replacement.py:24-51 | the history has one record per reference |
| Lru.HistoryAt | virtual_memory_sim/src/algorithms/page_replacement.py:25-33 | record j holds reference j, the frames before step j, and a flag raised exactly when the page was absent from them |
| Lru.TrackerOrderedByRecency | virtual_memory_sim/src/algorithms/page_replacement.py:40-49 | after k references the tracker lists the resident pages in the order of their last reference in the first k references |
| Lru.Replay | virtual_memory_sim/src/algorithms/page_replacement.py:31-44 | a hit leaves the frames unchanged; a fault with a free slot fills the lowest one; a fault on full frames overwrites the slot of a resident page whose last reference is older than that of every other resident |
| Lru.FirstReferenceFaults | virtual_memory_sim/src/algorithms/page_replacement.py:31-33 | the first reference to any page faults |
| Lru.RoomForAll | virtual_memory_sim/src/algorithms/page_replacement.py:31-44 | while the distinct pages referenced so far fit in the frames, nothing is evicted: the frames hold exactly the pages referenced, one per occupied slot |
| Lru.FaultsWhenAllFit | virtual_memory_sim/src/algorithms/page_replacement.py:31-33 | while the distinct pages fit, the fault count of the first k references is the number of distinct pages among them |
| Lru.AllFitFaultsOnce | virtual_memory_sim/src/algorithms/page_replacement.py:24-53 | with at least as many frames as distinct pages, the LRU fault count is the number of distinct pages: each page faults exactly once |
| Belady.Distance | virtual_memory_sim/src/algorithms/page_replacement.py:60-66 | `future.index(q) + offset`, or Never exactly when q does not recur; nothing earlier in the future is q |
| Belady.Distances | virtual_memory_sim/src/algorithms/page_replacement.py:60-66 | the `future_use` dict in frame order: one entry per slot, absent exactly for a skipped `-1` slot, and otherwise the slot's page's distance in the lookahead |
| Belady.ScanFarthest | virtual_memory_sim/src/algorithms/page_replacement.py:68 | the left-to-right scan of `max` returns its choice so far or a later entry that has a distance; `ScanFarthestSound` proves it is the first farthest entry |
| Belady.ScanFarthestSound | virtual_memory_sim/src/algorithms/page_replacement.py:68 | a scan started with a first-farthest choice over the entries seen so far ends with the first farthest entry of the whole dictionary |
| Belady.PickFarthest | virtual_memory_sim/src/algorithms/page_replacement.py:68 | `max(..., key=...)` over the stored distances picks the first entry with the greatest distance |
| Belady.FirstFarthestUnique | virtual_memory_sim/src/algorithms/page_replacement.py:68 | the first farthest entry is unique, so the tie-break decides the victim |
| Belady.FarthestPage | web_app.py:265-273 | the chosen page is resident; no candidate lies strictly farther; every candidate in an earlier slot lies strictly nearer |
| Belady.FindOptimalVictim | virtual_memory_sim/src/algorithms/page_replacement.py:59-68 | `find_optimal_victim` skips `-1` and returns a resident page whose next use is farthest, the first such in frame order |
| Belady.ChooseVictim | vm_simulator.py:71-79 | the loop that fills `future_use` and takes its maximum returns the page that `FarthestPage` specifies |
| Belady.Victim | virtual_memory_sim/src/algorithms/page_replacement.py:88-94 | the victim chosen for a fault on full frames is a resident page |
| Belady.OffsetKeepsChoice | web_app.py:268 | on full frames, adding 1 to every distance ranks the pages in the same order, so it picks the same victim as `find_optimal_victim` |
| Belady.CurrentKeepsChoice | vm_simulator.py:74-77 | the faulting page is not resident, so measuring from `page_sequence[i:]` picks the same victim as measuring from `[i+1:]` plus one |
| Belady.VictimChoiceAgrees | web_app.py:265-273 | all three lookahead forms choose the same victim on every fault |
| Belady.Step | virtual_memory_sim/src/algorithms/page_replacement.py:81-96 | one reference keeps the frame count and keeps the frames free of duplicates; afterwards the page is resident |
| Belady.After | virtual_memory_sim/src/algorithms/page_replacement.py:74-96 | after k references there are n frames, no page sits in two slots, and the last reference is resident |
| Belady.History | virtual_memory_sim/src/algorithms/page_replacement.py:74-98 | the history has one record per reference |
| Belady.HistoryAt | virtual_memory_sim/src/algorithms/page_replacement.py:75-83 | record j holds reference j, the frames before step j, and a flag raised exactly when the page was absent |
| Belady.LookaheadIrrelevant | vm_simulator.py:71-79 | every lookahead form leaves the same frames after every prefix |
| Belady.HistoryIrrelevant | vm_simulator.py:57-89 | every lookahead form gives the same history |
| Belady.ResidentsWereReferenced | virtual_memory_sim/src/algorithms/page_replacement.py:85-96 | every resident page occurs among the references made so far |
| Belady.FirstReferenceFaults | virtual_memory_sim/src/algorithms/page_replacement.py:81-83 | the first reference to any page faults |
| Belady.RoomForAll | virtual_memory_sim/src/algorithms/page_replacement.py:81-96 | while the distinct pages referenced so far fit in the frames, nothing is evicted: the frames hold exactly the pages referenced, one per occupied slot |
| Belady.FaultsWhenAllFit | virtual_memory_sim/src/algorithms/page_replacement.py:81-83 | while the distinct pages fit, the fault count of the first k references is the number of distinct pages among them |
| Belady.AllFitFaultsOnce | virtual_memory_sim/src/algorithms/page_replacement.py:70-100 | with at least as many frames as distinct pages, the Optimal fault count is the number of distinct pages: each page faults exactly once |
| Belady.Replay | virtual_memory_sim/src/algorithms/page_replacement.py:81-96 | a hit leaves the frames unchanged; a fault with a free slot fills the lowest one; a fault on full frames overwrites the first slot of a page whose next use in `page_sequence[i+1:]` is farthest, with every earlier slot's page used strictly sooner |
| PageReplacement.PageReplacementAlgorithm.constructor | virtual_memory_sim/src/algorithms/page_replacement.py:5-8 | a new object has zero faults and `total_frames` slots, all `-1` |
| PageReplacement.PageReplacementAlgorithm.Reset | virtual_memory_sim/src/algorithms/page_replacement.py:10-12 | `reset` zeroes the counter and installs a fresh all-`-1` frame array, changing nothing else |
| PageReplacement.LRUAlgorithm.constructor | virtual_memory_sim/src/algorithms/page_replacement.py:15-17 | a new LRU object has a fresh base state and an empty tracker |
| PageReplacement.LRUAlgorithm.Access | virtual_memory_sim/src/algorithms/page_replacement.py:25-51 | one loop iteration moves the frames and tracker one step along the specification run and returns that step's record |
| PageReplacement.LRUAlgorithm.Simulate | virtual_memory_sim/src/algorithms/page_replacement.py:19-53 | from any prior state: the history is `Lru.History`, the counter is its number of raised flags, and the frames and tracker are the final specification state |
| PageReplacement.OptimalAlgorithm.constructor | virtual_memory_sim/src/algorithms/page_replacement.py:56-57 | a new Optimal object has zero faults and all-`-1` frames |
| PageReplacement.OptimalAlgorithm.Access | virtual_memory_sim/src/algorithms/page_replacement.py:75-98 | one loop iteration, with the victim taken from `find_optimal_victim` over `page_sequence[i+1:]`, moves the frames one step along the specification run and returns that step's record |
| PageReplacement.OptimalAlgorithm.Simulate | virtual_memory_sim/src/algorithms/page_replacement.py:70-100 | from any prior state: the history is `Belady.History`, the counter is its number of raised flags, and the frames are the final specification frames |
| WebApp.FaultsAgree | web_app.py:220-222 | two histories whose flags agree record by record have the same fault count |
| WebApp.LruStep | web_app.py:216-243 | one iteration keeps the run invariant: frames and tracker are the specification state after step + 1, and the history is the first step + 1 trace entries with the counter equal to their flags |
| WebApp.LruReplacement | web_app.py:210-245 | the returned history is the LRU trace, and the counter is its number of raised flags |
| WebApp.LruEntryFault | web_app.py:220-222 | entry j's flag is raised exactly when the canonical record j's flag is |
| WebApp.LruEntryState | web_app.py:238-243 | entry j's post-step state is the canonical pre-step snapshot of step j + 1 |
| WebApp.LruTraceEntries | web_app.py:238-243 | entry j has `step == j` and `page == page_sequence[j]`, its flag agrees with the canonical one, and `state` has `frame_count` slots and contains the page |
| WebApp.LruTraceIsShiftedHistory | web_app.py:241 | the post-step states are the canonical pre-step snapshots shifted by one |
| WebApp.LruTraceFaults | web_app.py:221 | the web LRU fault count equals the canonical LRU fault count |
| WebApp.Faults | web_app.py:212-221 | the web `page_faults` counter over a trace never exceeds the number of entries |
| WebApp.FaultsExtremes | web_app.py:212-221 | the count is 0 exactly when no flag is raised, and equals the number of entries exactly when every flag is raised |
| WebApp.LruEntry | web_app.py:238-243 | the dict appended after LRU step j: step j, page j, the n frames after the step with page j resident, and a flag raised exactly when page j was absent before the step |
| WebApp.LruTrace | web_app.py:210-245 | one entry per reference, entry j numbered j, holding page j and n frames |
| WebApp.OptimalEntry | web_app.py:277-282 | the dict appended after Optimal step j: step j, page j, the n frames after the step with page j resident, and a flag raised exactly when page j was absent before the step |
| WebApp.OptimalTrace | web_app.py:246-284 | one entry per reference, entry j numbered j, holding page j and n frames |
| WebApp.FinalState | web_app.py:408-412 | `display_memory_stack` shows nothing for an empty history and otherwise the state of the last entry |
| WebApp.LruTraceFinalState | web_app.py:408-412 | the displayed final state is absent for an empty history and is otherwise the canonical final frames |
| WebApp.OptimalStep | web_app.py:253-282 | one iteration, with distances `index + 1` in `page_sequence[step+1:]`, keeps the run invariant along the canonical Optimal run |
| WebApp.OptimalReplacement | web_app.py:248-284 | the returned history is the Optimal trace, and the counter is its number of raised flags |
| WebApp.OptimalEntryState | web_app.py:275-280 | entry j's state is the canonical frames after j + 1 references |
| WebApp.OptimalEntryFault | web_app.py:257-259 | entry j's flag is raised exactly when the canonical record j's flag is |
| WebApp.OptimalTraceEntries | web_app.py:277-282 | entry j has `step == j` and `page == page_sequence[j]`, its flag agrees, and `state` has `frame_count` slots and contains the page |
| WebApp.OptimalTraceIsShiftedHistory | web_app.py:280 | the post-step states are the canonical pre-step snapshots shifted by one |
| WebApp.OptimalTraceFaults | web_app.py:258 | the web Optimal fault count equals the canonical Optimal fault count |
| WebApp.OptimalTraceFinalState | web_app.py:407-412 | the displayed final state is absent for an empty history and is otherwise the canonical final Optimal frames |
| VmSimulator.PageReplacementAlgorithm.constructor | vm_simulator.py:15-19 | a new simulator has all-`-1` frames, no faults and an empty history |
| VmSimulator.PageReplacementAlgorithm.LruAccess | vm_simulator.py:28-52 | one iteration moves the frames, the local tracker, the history and the counter one step along the canonical LRU run |
| VmSimulator.PageReplacementAlgorithm.LruReplace | vm_simulator.py:22-54 | resets, then returns the live frame array, the canonical LRU history and the count of its raised flags |
| VmSimulator.PageReplacementAlgorithm.OptimalAccess | vm_simulator.py:62-87 | one iteration, with distances measured in `page_sequence[i:]`, moves the object one step along the Optimal run |
| VmSimulator.PageReplacementAlgorithm.OptimalReplace | vm_simulator.py:57-89 | resets, then returns the frames, history and count of the canonical Optimal run, which measures from `page_sequence[i+1:]` |
| OriginalVm.RunSimulation | original_vm.py:153-172 | an empty sequence is refused; a non-empty run with no frames ends in the error dialog; otherwise "LRU" gives the canonical LRU results and any other selection the canonical Optimal results |
| App.Remove | app.py:42 | `list.remove` on a present value drops its first occurrence: the entries before it stay in place and the later entries shift left one slot, in order |
| App.RemoveMembers | app.py:69 | removing a value from a list without repeats leaves exactly the other values, still without repeats |
| App.LruStep | app.py:37-49 | one reference keeps at most `total_frames` pages, none twice, with tracker keys equal to the listed pages; the page ends up listed |
| App.OptimalStep | app.py:58-70 | one reference keeps at most `total_frames` pages, none twice; the page ends up listed |
| App.LruAfter | app.py:36-49 | the state of the `lru_replace` loop after k references: at most n listed pages, none repeated, and tracker keys equal to the listed pages |
| App.OptimalAfter | app.py:57-70 | the list of the `optimal_replace` loop after k references: at most n pages, none repeated |
| App.LruFaults | app.py:37-38 | the miss counter of `lru_replace` after k references is at most k |
| App.OptimalFaults | app.py:58-59 | the miss counter of `optimal_replace` after k references is at most k |
| App.Padded | app.py:141-144 | the display array has exactly `total_frames` slots; slot i holds the i-th listed page while there is one, and `-1` after that |
| App.MemoryManager.constructor | app.py:22-26 | a new manager has `total_frames` slots, all `-1` |
| App.MemoryManager.LruReplace | app.py:31-51 | the loop returns the list and miss count of the `lru_replace` specification run |
| App.MemoryManager.OptimalReplace | app.py:53-72 | the loop returns the list and miss count of the `optimal_replace` specification run |
| App.MemoryManager.LoadFinalMemory | app.py:141-144 | the manager's frame array becomes the final list padded with `-1` to `total_frames` slots |
| App.LruStepMatches | app.py:36-49 | a compact list and tracker that match a canonical state have the same hits, and still match after one reference |
| App.LruAgrees | app.py:31-51 | after every prefix the compact LRU list matches the canonical LRU state, and the miss count equals the canonical fault count |
| App.LruSameResidents | app.py:31-51 | the compact LRU list holds exactly the canonical resident pages, one per occupied slot |
| App.LruTrackerOrdered | app.py:41-49 | the tracker lists the listed pages in the order of their last reference, for any reference string |
| App.LruReplay | app.py:36-44 | a hit leaves the list unchanged and costs no fault; a miss costs exactly one fault; a miss on a list with room appends the page at the end |
| App.LruEvictsLeastRecent | app.py:39-44 | for any reference string, a miss on a full list removes the page whose last reference is oldest, and appends the new page |
| App.OptimalReplay | app.py:57-70 | a hit changes nothing; a miss adds one fault; a miss on a short list appends; a miss on a full list removes a listed page used farthest ahead in `page_sequence[i:]`, every page listed before it being used strictly sooner, and appends the new one |
| App.PaddedOccupied | app.py:141-144 | the padded array has as many occupied slots as the list has entries, capped at `total_frames` |
| App.LruDisplayMatchesCanonical | app.py:136-144 | the array shown after an LRU run holds the same pages as the canonical final frames, in the same number of slots, and the shown fault count is the canonical one |
| Scenarios.LruRunShape | virtual_memory_sim/tests/test_page_replacement.py:11-21 | every non-empty LRU run faults at least once, ends with `total_frames` slots, and has one record per reference |
| Scenarios.OptimalRunShape | virtual_memory_sim/tests/test_page_replacement.py:23-33 | every non-empty Optimal run faults at least once, ends with `total_frames` slots, and has one record per reference |
| Scenarios.LruTwoPages | virtual_memory_sim/tests/test_page_replacement.py:37-42 | two distinct pages on three frames under LRU: two faults, final frames `[a, b, -1]` |
| Scenarios.OptimalTwoPages | virtual_memory_sim/tests/test_page_replacement.py:44-47 | the same two-page run under Optimal: two faults, final frames `[a, b, -1]` |

## Left out

- User interfaces, plotting and visualization are not modelled. This covers the Streamlit and Tkinter front ends, matplotlib/plotly figures, `display_memory_stack` beyond its choice of final state, `memory_viz.py`, `main.py` and `simple_app.py`. They are presentation only and call foreign libraries.
- `get_running_processes` (psutil, operating-system I/O) and `generate_process_page_sequence` (randomness and float locality factors) are not modelled: the reference string is a parameter.
- Fault-rate percentages are not modelled. They are float divisions and divide by zero on an empty sequence; only the integer fault count is modelled.
- Parsing of comma-separated input with `int(x.strip())` is not modelled: the frame count and reference string arrive already parsed. The parse errors that `run_simulation` reports are therefore absent from `OriginalVm.RunSimulation`, and so are exceptions raised by its plotting step.
- `handle_errors` (a logging decorator) and `MemoryManager`'s unused `page_size`, `page_table`, `page_faults` and `access_time` fields carry no paging logic and are not modelled.
- Every frame-array simulator requires that no reference equals `-1` (`ValidSequence`). In the code such a reference would look resident in a free slot; that sentinel clash is not modelled. `App`'s own specification and its eviction lemmas (`App.LruTrackerOrdered`, `App.LruEvictsLeastRecent`, `App.OptimalReplay`) need no such requirement and have none; only the lemmas that compare `App` with the frame-array run (`App.LruAgrees`, `App.LruSameResidents`, `App.LruDisplayMatchesCanonical`) require it, since the frame-array run does.
- PageReplacement.LRUAlgorithm.Simulate: with zero frames and a non-empty sequence the code raises an exception; such a call is excluded by the requires. The same holds for the other `Simulate`, `LruReplace`, `OptimalReplace`, `LruReplacement` and `OptimalReplacement`. Only `OriginalVm.RunSimulation`, whose handler catches the exception, models this case, as `SimulationError`.
- A negative frame count is modelled only in `OriginalVm.RunSimulation`, where `[-1] * frames` gives an empty list. Everywhere else the frame count is a `nat`.
- The canonical subclasses inherit from `PageReplacementAlgorithm`. The model writes this as composition: each algorithm class has a `base` field holding the shared object.
- `original_vm.py` lines 9-79 are not modelled separately, because they are the `vm_simulator.py` class with the same branches and constants. `VmSimulator.PageReplacementAlgorithm` models both copies.
- `App.MemoryManager.OptimalReplace` breaks ties in list order, and after a `remove` the list order is not frame order. So no equality with the canonical Optimal frames is claimed; only its own specification and `App.OptimalReplay` are proved.
- Belady's optimality (Optimal never faults more than any other policy, LRU included) is not proved. It is a claim about every possible replacement policy and needs an exchange argument over arbitrary policies; the code only runs two fixed policies, and the model stays with what they do.
- The 12-reference regression figures (LRU 10 faults, Optimal 7 on `[1,2,3,4,1,2,5,1,2,3,4,5]` with three frames) are not proved; computing the run step by step over that literal string exceeds the verifier's resource limit. The tests' own assertions on that string, which are "faults > 0, three slots, one record per reference", are proved for every sequence by `Scenarios.LruRunShape` and `Scenarios.OptimalRunShape`.
- The scan in `Belady.ScanFarthest` returns 0 when it found no candidate. That case cannot arise (`Belady.PickFarthest` requires a candidate), and the code has no counterpart.
