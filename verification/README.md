# Clustering by distance: connected components of a point set

This project models the core of a small Python clustering program. The
program takes a set of points in the plane and a distance `d`. It reports the
sizes of the connected components of the "within distance `d`" graph, sorted
from largest to smallest. The model covers three pieces of that program.

- **The x-sorted sweep of `connectes.py`.**
  - `comparaison_generator` walks the points in lexicographic order. A
    forward-only cursor skips the points at least `d` to the left.
  - For every point not yet registered, the generator opens a fresh group and
    yields the neighbours inside the ±`d` box that lie within distance `d`.
  - `print_components_sizes` consumes those pairs. It re-points or attaches
    points in a `register` map (point to group id) and a `groups` map (group
    id to member set).
  - It then reports the group sizes in non-increasing order.
  - The generator and its consumer are flattened into one loop (`Sweep`,
    `Partition`, `Components`).
- **The brute-force oracle of `validity.py`** (`Oracle`, `Subsets`).
  - Every non-empty subset of the 16 cells of a 4×4 grid is a separate job.
  - A job decodes its cells into points and starts every point as a singleton
    group.
  - It then merges groups over all index pairs, in `combinations` order,
    whenever the pair is within distance and still in two groups.
- **The work sharing of `graph_multiprocessing.py`** (`Slicing`, `Schedule`,
  `Fusion`, `Pipeline`).
  - The number of worker processes is computed from the number of keys.
  - The key list is cut into one contiguous slice per process.
  - `process_loop` visits a slice in this order: the last two keys, a send to
    the next process, the middle keys, a receive from the previous process,
    then the first two keys.
  - The pipes are wired so that each process receives from the one before it.
  - The returned dictionaries are merged back with `dict.update`.

Some parts of the program are not modelled as running code:
- Concurrency, I/O and plotting. The processes are modelled as running one
  after the other; the order in which the manager dictionary yields the
  returned lists is a parameter (`results` in `Fusion.Fuse`, `order` in
  `Pipeline.GraphMultiprocessing`).
- `cpu_count()` becomes a parameter `cpus`.
- The per-key analysis function is an abstract parameter `analyse`, a
  function from a key and a state to a new state. A run is the sequence of
  events `process_loop` performs. A process's state is its list of copies of
  the caller's dictionaries. The receive updates that list with the
  snapshot that arrives, dictionary by dictionary, as `dict.update` does.

Coordinates are integers. "Within distance `d`" is `dx² + dy² <= d²` with
`d >= 0` (`Geometry.Within`). That is the exact-arithmetic reading of
`distance_to(...) <= d`; the source computes it in floating point. Python's `dict` iteration order is modelled as increasing group id,
because ids are handed out increasingly and only ever deleted.

The code has no band index and no union-by-size, and this model follows the
code. The sweep as written does not always compute the proximity components:
see "## Findings". For `d != 0`, the corrected sweep is proved to compute the
same relation, connectivity in the "within distance `d`" graph
(`Connected(ProximityEdges)`), that `Oracle.MergeAll` proves of the oracle.
At `d == 0` the cursor's strict bound leaves every point alone, even two
points at the same place. No lemma relates the sweep to the oracle's jobs,
which work on decoded grid cells at distance 1.

## Model

| member | source | states |
|---|---|---|
| Geometry.WithinImpliesBox | connectes.py:49-52 | a pair within distance `d` always passes the ±`d` box filter on both coordinates, so the box filter never drops a true neighbour |
| Geometry.WithinSymmetric | connectes.py:52 | the distance test gives the same answer whichever point is asked first |
| Geometry.InclusiveThreshold | connectes.py:52 | the threshold is inclusive: a point exactly `d` away is a neighbour, one at `d + 1` is not |
| Geometry.SortPoints | connectes.py:67 | `points.sort()` returns the same points (as a multiset) in lexicographic (x, y) order |
| Geometry.SortedUnique | connectes.py:67 | two lexicographically sorted arrangements of the same points are identical, so the sorted order is determined by the input |
| Geometry.LexSortedIsSortedByX | connectes.py:67 | lexicographically sorted points are sorted by x, the order the cursor and the inner scan rely on |
| Partition.GroupsDisjoint | connectes.py:74-88 | while register and groups agree, no point is in two groups |
| Partition.NewGroup | connectes.py:43-44 | opening a group for an unregistered point adds the singleton under the fresh id, keeps the register/groups agreement, changes no other group, and relates the new point to nobody else |
| Partition.Attach | connectes.py:87-88 | attaching a neighbour to the current group adds it to that group only, and relates it to exactly that group's members; an already-registered neighbour of that group changes nothing |
| Partition.Merge | connectes.py:74-85 | merging re-points every member of the absorbed group to the surviving one, deletes the absorbed key, lowers the group count by exactly one, leaves every other group as it was, and relates exactly the points of the two groups |
| Partition.Link | connectes.py:73-88 | one consumer step keeps register and groups in agreement, puts both points of the pair in one group, and relates two points afterwards iff they were related or one was in the class of each end of the pair |
| Partition.LinkIdempotent | connectes.py:87-88 | when both points of a pair already share a group, the step leaves register and groups unchanged |
| Partition.LinkAbsorbs | connectes.py:74-85 | when the neighbour is registered in another group, the current group is merged into the neighbour's, its key is removed and no other group changes |
| Partition.LinkAttaches | connectes.py:87-88 | when the neighbour is unregistered, it is added to the current group and no other group changes |
| Partition.GroupSizesCover | connectes.py:100 | the size list has one entry per group and sums to the number of points once every point is registered |
| Partition.GroupSizesAreSizes | connectes.py:100 | every size occurs in the list as often as there are groups of that size |
| Partition.ReportSizes | connectes.py:100-101 | the reported list is non-increasing, holds each group size once per group, and sums to the number of points |
| Sizes.SortDesc | connectes.py:101 | `sort(reverse=True)` returns a non-increasing rearrangement with the same elements and the same sum |
| Sizes.NonIncreasingUnique | connectes.py:101 | two non-increasing arrangements of the same sizes are equal, so the report is determined by the multiset of group sizes |
| Sweep.AdvanceCursor | connectes.py:39-40 | the cursor never moves backwards; it stops at the first point with x greater than x_i - d, and every point it passes has x at most x_i - d |
| Sweep.WindowComplete | connectes.py:48-57 | the inner scan from the cursor to the first point beyond x_i + d sees every point the generator could yield for point i |
| Sweep.ScanWindow | connectes.py:48-57 | scanning from point i registers exactly its yieldable neighbours and records exactly the pairs (i, k) for them, keeping the registry consistent with the recorded pairs |
| Sweep.LinkKeeps | connectes.py:73-88 | applying a yielded pair keeps two facts: groups only join points connected by recorded pairs, and every recorded pair lies in one group |
| Sweep.SkipPoint | connectes.py:35 | an already registered point starts no scan and changes nothing |
| Sweep.StartGroup | connectes.py:35-57 | an unregistered point gets a fresh group id equal to the number of scans so far, and its scan extends the sweep invariant to the next point |
| Sweep.ComponentsOfPairs | connectes.py:73-101 | when every point is registered, two points share a group iff the yielded pairs connect them |
| Sweep.ComparisonSweep | connectes.py:30-88 | the sweep as written: every point is registered, the points that start scans are exactly those not yielded by an earlier scan, the cursor positions never decrease, and the groups are exactly the connected components of the yielded pairs |
| Sweep.SweepSplitsComponent | connectes.py:35 | on four points with threshold 10, the sweep as written leaves two points within distance 10 in different groups |
| Sweep.CorrectedSweep | connectes.py:30-88 | the sweep that scans from every point registers every point, and its groups are exactly the components of all yieldable pairs |
| Sweep.ScanEdgesAreProximity | connectes.py:48-54 | every yielded pair is within distance; when d is not 0, every pair of distinct points within distance is yielded in at least one direction |
| Sweep.ScanAllMatchesProximity | connectes.py:48-54 | for d not 0, connectivity by yielded pairs is connectivity by distance |
| Sweep.ScanAllZeroDistance | connectes.py:39-49 | with d = 0 the cursor passes every point with x at most x_i, so no pair is ever yielded |
| Sweep.CorrectedSweepComponents | connectes.py:63-101 | the corrected sweep's groups are the connected components of the within-distance graph (singletons when d = 0) |
| Sweep.CorrectedSweepJoins | connectes.py:35 | on the same four points, the corrected sweep puts the two close points in one group |
| Components.PrintComponentsSizes | connectes.py:63-101 | `print_components_sizes` as written: it sorts the points, its groups are the components of the yielded pairs, and the size list is non-increasing, one entry per group, summing to the number of points |
| Components.CorrectedComponentsSizes | connectes.py:63-101 | with the corrected sweep, two points share a group iff they are connected within distance `d`, and the size list is the non-increasing list of component sizes |
| Oracle.Decode | validity.py:48 | `value % 4, value // 4` lands in column 0..3, and in row 0..3 for a cell below 16 |
| Oracle.EncodeDecode | validity.py:48 | re-encoding a decoded cell gives the cell number back |
| Oracle.DecodeEncode | validity.py:48 | decoding the number of a grid point gives the point back |
| Oracle.DecodeInjective | validity.py:48 | distinct cell numbers decode to distinct points |
| Oracle.DecodeAll | validity.py:48 | the decoded list has one point per cell, each inside the grid and encoding back to its cell |
| Oracle.Singletons | validity.py:50-55 | every point starts as its own group, with `register[p] = p` and `groups[p] = {p}`, and no two points are related |
| Oracle.FilterPair | validity.py:57-65 | a pair is merged iff its points are in different groups and within distance; a merge moves every member of the second point's group into the first's and deletes the emptied key; otherwise nothing changes |
| Oracle.MergeSound | validity.py:57-65 | merging two groups joined by a close pair only relates points that are connected within distance |
| Oracle.MergeAll | validity.py:53-65 | after all pairs, two points share a group iff they are connected in the within-distance graph |
| Oracle.MergedComponents | validity.py:57-65 | once every pair has been offered to the filter, the groups are exactly the connected components |
| Oracle.ProcessMain | validity.py:45-68 | one validation job: the points are the decoded cells, the groups are the proximity components, and the count list is non-increasing and sums to the number of points |
| Oracle.ValidationJobs | validity.py:30-33 | the validation submits 65535 jobs, one per non-empty strictly increasing cell list, each exactly once |
| Subsets.CombinationsCount | validity.py:32 | `combinations(range(lo, hi), k)` lists each strictly increasing k-list from that range exactly once and nothing else |
| Subsets.CombinationsLength | validity.py:32 | it lists C(hi - lo, k) tuples |
| Subsets.EnumerationExactlyOnce | validity.py:30-32 | the two nested loops list every non-empty strictly increasing list of cells below n exactly once and nothing else |
| Subsets.EnumerationLength | validity.py:30-32 | they list 2^n - 1 cell lists |
| Subsets.SameCellsSameCombination | validity.py:32 | two listed tuples with the same cells are the same tuple |
| Subsets.EachSubsetOnce | validity.py:30-32 | every non-empty set of cells below n is listed exactly once, as its sorted list |
| Slicing.Bound | graph_multiprocessing.py:28 | a Python slice bound: negative bounds count from the end, and out-of-range bounds are clamped to the list |
| Slicing.PyIndex | graph_multiprocessing.py:70-71 | `s[i]` exists iff `-len(s) <= i < len(s)`, counting negative indices from the end; otherwise it is an `IndexError` |
| Slicing.PySliceExact | graph_multiprocessing.py:28 | an in-range slice `s[a:b]` is the sublist from a up to b |
| Slicing.WorkerCount | graph_multiprocessing.py:7 | there is at least one process; more than one only when each gets four keys and there are CPUs for all; otherwise the count is as large as those limits allow |
| Slicing.ShareSplits | graph_multiprocessing.py:9-10 | `count * effectif + rest` is the number of keys with `rest < count` |
| Slicing.ShareAtLeastFour | graph_multiprocessing.py:7-9 | with at least four keys every process gets at least four keys |
| Slicing.SliceStartFormula | graph_multiprocessing.py:27 | the start of slice p is where slice p - 1 ends, and equals `p * effectif + min(rest, p)` |
| Slicing.CodeBounds | graph_multiprocessing.py:27-50 | the bounds the code writes for the workers and for the main process are the start of the slice and the start of the next one |
| Slicing.NoClamping | graph_multiprocessing.py:28 | no slice is clamped; the first `rest` processes get `effectif + 1` keys and the others `effectif` |
| Slicing.SlicesTile | graph_multiprocessing.py:26-50 | the slices, concatenated in process order, give back the key list exactly |
| Slicing.Owner | graph_multiprocessing.py:26-50 | every key lies in the slice of exactly one process |
| Schedule.AnalysedKeys | graph_multiprocessing.py:69-84 | a run that gets past the first two lookups analyses `subkeys[-1]`, `subkeys[-2]`, `subkeys[2:-2]`, `subkeys[0]`, `subkeys[1]`, in that order |
| Schedule.CrashIff | graph_multiprocessing.py:70-71 | `process_loop` stops on an `IndexError` iff it has fewer than two keys; with one key it analyses that key first |
| Schedule.ExactlyOnceIff | graph_multiprocessing.py:69-84 | a run analyses every key of its slice exactly once iff the slice has at least four keys; with two or three it analyses four keys |
| Schedule.ExchangePoints | graph_multiprocessing.py:70-84 | the only send is the third event, right after the last two keys; the only receive, when there is a receive end, comes just before the first two keys |
| Schedule.NoReceiveState | graph_multiprocessing.py:70-75 | events without a receive leave the state of analysing the keys they name, in order; the send changes nothing |
| Schedule.SentLastTwo | graph_multiprocessing.py:70-72 | the snapshot sent is the caller's dictionaries analysed with the slice's last key and then its second-to-last, whether or not the process has a receive end |
| Schedule.FrontEvents | graph_multiprocessing.py:70-84 | before its receive a run analyses the last two keys and the middle ones and receives nothing; its last two events analyse the first two keys |
| Schedule.LoopState | graph_multiprocessing.py:69-92 | the state before the first two keys is the process's own analyses of its last two and middle keys, updated with what arrived when it has a receive end; the first two keys are then analysed from that state |
| Schedule.ReceiverState | graph_multiprocessing.py:74-82 | for a receiving process with at least four keys, the state before its first two keys is its own analyses of all its other keys, updated with the snapshot that arrived |
| Schedule.AnalyseAllKeeps | graph_multiprocessing.py:70-84 | analyses that keep every dictionary and every entry keep them over any sequence of keys |
| Schedule.SnapshotWins | graph_multiprocessing.py:80-81 | when both states come from analyses that keep entries, the receive's update leaves every entry of the caller's dictionaries with the snapshot's value |
| Schedule.WirePipes | graph_multiprocessing.py:24-52 | each process sends on its own pipe; process q receives on the pipe process p sends on iff q = p + 1; the main process has no receive end |
| Fusion.Update | graph_multiprocessing.py:66 | `a.update(b)` has every key of both, with the value of `b` where both have one |
| Fusion.UpdateIdempotent | graph_multiprocessing.py:66 | updating twice with the same dictionary is updating once |
| Fusion.UpdateTwice | graph_multiprocessing.py:64-66 | two updates in a row are one update with the second merged over the first |
| Fusion.UpdateAll | graph_multiprocessing.py:80-81 | the zipped update changes only dictionaries that have a partner, each gaining its partner's keys with the partner's values |
| Fusion.CopiesOverwrite | graph_multiprocessing.py:80-81 | when each copy carries every entry of a base dictionary, the zipped update gives each of those entries the copy's value, whatever the updated dictionary held |
| Fusion.FuseKey | graph_multiprocessing.py:64-66 | after fusion, a dictionary has a key iff it had it or some returned copy of it has it; the value is that of the last copy holding the key, or the original one |
| Fusion.FuseSpec | graph_multiprocessing.py:64-66 | the same for every dictionary and key at once |
| Fusion.FuseReturns | graph_multiprocessing.py:64-66 | the nested fusion loop computes the fold of `update` over the returned lists in iteration order |
| Pipeline.ProcessExact | graph_multiprocessing.py:26-50 | with at least four keys per process, every process runs to the end and analyses each key of its slice once |
| Pipeline.AllAnalysedTiles | graph_multiprocessing.py:69-84 | runs that each analyse their own slice exactly once analyse all the slices together exactly once |
| Pipeline.FlattenSlices | graph_multiprocessing.py:26-50 | the code's slices, concatenated, give the key prefix up to the end of the last of them |
| Pipeline.SingleProcess | graph_multiprocessing.py:7-10 | with fewer than four keys there is one process, and it is handed every key |
| Pipeline.EveryKeyOnceIff | graph_multiprocessing.py:7-84 | all processes run to the end and every key is analysed exactly once iff there are at least four keys |
| Pipeline.Window | graph_multiprocessing.py:27-28 | process p is handed the keys from its start to the next process's start |
| Pipeline.HandOff | graph_multiprocessing.py:24-84 | a worker whose slice runs from key s to key e analyses keys s and s + 1 last. It is sent the caller's dictionaries analysed with keys s - 1 and s - 2. Before its first two keys its state is its own analyses of keys e - 1, e - 2 and s + 2 .. e - 3, updated with that snapshot; entries the snapshot carries take the snapshot's value (`Fusion.UpdateAll`) |
| Pipeline.HandOffWithin | graph_multiprocessing.py:70-84 | the same hand-off for any sharing whose slices end at the last key and hold at least four keys each |
| Pipeline.Seam | graph_multiprocessing.py:70-84 | the same hand-off for any two neighbouring windows of at least four keys |
| Pipeline.OwnEntriesOverwritten | graph_multiprocessing.py:72-90 | when the analysis removes no dictionary and no entry, every entry of the caller's dictionaries holds the previous process's value once a worker has received; the worker's own analyses of those entries are overwritten |
| Pipeline.MainCrashIff | graph_multiprocessing.py:48-71 | the main process stops on an `IndexError` iff there are fewer than two keys |
| Pipeline.GraphMultiprocessing | graph_multiprocessing.py:6-94 | the whole function: `None` iff there are fewer than two keys, the main process's `IndexError`; otherwise one dictionary per caller's dictionary, each keeping all of the caller's keys |
| Pipeline.FusedEntries | graph_multiprocessing.py:60-94 | after the function, a dictionary has an entry iff the caller's had it or some process's final copy has it; the value is that of the last process, in the order `returns` yields them, whose copy holds it, or else the caller's |
| Pipeline.OnlyWorkersReceive | graph_multiprocessing.py:52 | the main process never receives; every other process receives exactly once, just before its first two keys |

## Left out

- File parsing (`load_instance`), the argument loop of `main`, `tycat`, the segment and circle lists, and all `print` calls are I/O and display.
- The progress process, the `Pool`, the `Manager`, `Process` start and join, and the pipes' transport are concurrency. The processes run one after the other; the fusion order is a parameter.
- `cpu_count()` is a parameter.
- The order in which `returns.values()` yields the processes' lists is the parameter `order` of `Pipeline.GraphMultiprocessing`, any order of the process ids.
- `Point.distance_to` uses floating-point `sqrt`. The model uses integer coordinates and squared distances, so rounding is not modelled.
- The ordering of `geo.point.Point` is not part of this model. `points.sort()` is taken to be lexicographic on (x, y).
- `connectes.is_at_distance` and `connectes.main_perfs` are not part of this model. `is_at_distance` is `Geometry.Within`. The comparison at validity.py:77 is not modelled; the oracle's result is stated on its own.
- The shallow `obj.copy()` at graph_multiprocessing.py:90 is not modelled. Its aliasing of inner sets with the caller's objects is a Python object-identity effect.
- `process_main` of graph_multiprocessing.py stores its copies only if `process_loop` returns. Only a single-process run can crash (`Slicing.ShareAtLeastFour`). That process is the main one, running in the caller, so its `IndexError` leaves `graph_multiprocessing` before the fusion; `Pipeline.GraphMultiprocessing` then returns `None`.
- Schedule.WirePipes: numbers the pipes by creation instead of handling pipe objects. Its contract speaks of pipe numbers.
- Pipeline.OwnEntriesOverwritten: stated only for analyses that remove no dictionary and no entry, because what an analysis that deletes entries leaves after the update depends on it; Pipeline.HandOff states the receive for every analysis.
- Sweep.ComparisonSweep, Sweep.CorrectedSweep: the `segments` and `points_comparaison` counters of the generator are dropped.

## Findings

| source | as written | input that shows it | evidently intended | confidence | as-written member | corrected member |
|---|---|---|---|---|---|---|
| connectes.py:35 | `comparaison_generator` scans only from points not yet registered, so a pair of points that were each reached from a different earlier point is never compared | d = 10, points (0,0), (0,19), (5,5), (6,12): (5,5) is reached from (0,0) and (6,12) from (0,19), and the two are 7.07 apart, yet the result is two groups of 2 instead of one group of 4 | for `d != 0`, every pair of points within distance ends up in one group, the relation `Oracle.MergeAll` proves of the brute-force oracle | high, not executed | Sweep.SweepSplitsComponent | Components.CorrectedComponentsSizes |
