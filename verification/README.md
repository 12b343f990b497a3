# Scene building from clustered shots

This project models, in Dafny, the deterministic core of the shot-to-scene stage of a video
annotation pipeline. A video is cut into *shots* named like `shot_12`. The shots are grouped into
*clusters*, a cluster map is kept from integer keys to lists of shot ids, and the map is
reworked until every final *scene* is a run of nearby shots. The model covers these operations:

- `calculate_distance`, `split_cluster`, `reindex_clusters` and `remove_empty_and_reindex`: the
  cluster registry (modules `Shots`, `Splitter`, `Registry`).
- `merge_clusters_if_needed` (module `Merging`) and `merge_small_clusters` (module `Absorbing`).
- `remove_cluster` on a map of linked clusters (module `LinkedClusters`).
- `merge_cluster_data`, which builds one description per cluster from the per-shot descriptions
  (module `Aggregate`).
- `extract_number` and the part of `process_clusters` that follows the machine-learning step.
  That part regroups by label, re-splits, sorts by shot number, merges, absorbs one-shot clusters
  and cleans up (module `Scenes`).
- `format_time` of the shot cutter (module `Timecode`).

Shared modules:

- `Wrappers`: the `Result` type. Each Python exception the code can raise is an `Error`
  constructor.
- `Seqs`: flattening.
- `Sorting`: Python's stable `sorted`, as an insertion sort over a total preorder.
- `Text`: digits, `str(n)`, string order and `', '.join`.

Python dicts keep insertion order, so a cluster map is a sequence of `Entry(key, shots)`.

Where a docstring and the code disagree, the model follows the code. It proves the disagreement
where that can be stated:

- `reindex_clusters` (docstring at lines 339 and 348). The code turns `{'0': [shot_1, shot_2], '1': [shot_10, shot_15]}`
  into two clusters, keys `2` and `3`, because `shot_10` and `shot_15` are 5 apart, within the
  threshold 10. `Registry.ReindexDocSecond` shows that the second cluster is not cut.
- `merge_clusters_if_needed` (docstring at 385-389). The passes continue until nothing changes,
  so the docstring's example ends as one cluster (`Merging.MergeDocExample`).
- `remove_cluster` (docstring at 213 and 222). Removing `cluster_1` from the docstring's map
  records both groups, not one (`LinkedClusters.RemoveClusterDocExample`).
- `merge_small_clusters`. A one-shot cluster with no non-empty neighbour after it is not left in
  place: the code raises or loops forever (`Absorbing.NeverReturns`). In `process_clusters` every
  cluster reaching this step is non-empty, and there the only failing input is a single one-shot
  cluster (`Scenes.Arrange`).

## Model

| member | source | states |
|---|---|---|
| Shots.Ordinal | ml/clastering_clasters.py:141-142 | an id has an ordinal only if it contains `_` (`split('_')[1]` exists only then) |
| Shots.SecondField | ml/clastering_clasters.py:141 | `s.split('_')[1]` exists exactly when `s` contains `_` |
| Shots.Distance | ml/clastering_clasters.py:123-148 | fails with a format error exactly when either id has no integer after its first `_`; otherwise it gives the absolute difference of the two ordinals |
| Shots.OrdinalOfId | ml/clastering_clasters.py:141-142 | for `<p>_<n>` with no `_` in `p`, the ordinal read back is `n`, for every integer `n` |
| Shots.DistanceOfShotIds | ml/clastering_clasters.py:141-148 | the distance between `shot_m` and `shot_n` is `|m - n|` |
| Shots.DistanceSymmetric | ml/clastering_clasters.py:148 | the distance does not depend on the argument order |
| Shots.DistanceExample | ml/clastering_clasters.py:133 | the docstring's example: `shot_1` to `shot_5` is 4 |
| Shots.NoUnderscoreNoOrdinal | ml/clastering_clasters.py:141 | an id without `_` has no ordinal (the source raises IndexError) |
| Shots.FirstNumber | ml/clastering_clasters.py:684-689 | the result is infinite exactly when the string holds no digit |
| Shots.FirstNumberOf | ml/clastering_clasters.py:684-689 | for a string made of a digit-free prefix, the numeral of `n`, then a non-digit, the result is `n` |
| Shots.FirstNumberExamples | ml/clastering_clasters.py:672-674 | the three docstring examples: 10, 15, and infinity |
| Shots.NumberLeIsTotalPreorder | ml/clastering_clasters.py:696 | comparing `extract_number` keys, with infinity last, is a total preorder |
| Sorting.SortBy | ml/clastering_clasters.py:174 | the sorted list is a permutation of its input |
| Sorting.SortBySorted | ml/clastering_clasters.py:174 | the sorted list is ordered by the key |
| Sorting.SortByStable | ml/clastering_clasters.py:174 | elements with equal keys keep their relative order (Python's sort is stable) |
| Splitter.Runs | ml/clastering_clasters.py:178-199 | the scan cuts the shots into non-empty runs that concatenate back to the input, with gaps within the threshold inside a run and above it between runs |
| Splitter.RunPartitionUnique | ml/clastering_clasters.py:178-199 | any partition with those properties is the scan's result |
| Splitter.Split | ml/clastering_clasters.py:150-203 | at most one shot comes back as one group; otherwise it fails exactly when some shot has no ordinal; on success the groups hold the same shots, are the runs of the shots sorted by ordinal, and each is sorted and tight |
| Splitter.SplitThree | ml/clastering_clasters.py:174-199 | three ordered shots whose first gap is within the threshold and whose second is above it split into `[[a, b], [c]]` |
| Splitter.SplitDocExample | ml/clastering_clasters.py:161-162 | the docstring's example gives `[['shot_1', 'shot_2'], ['shot_15']]` |
| Registry.MaxKey | ml/clastering_clasters.py:359 | the result is at least every key |
| Registry.MaxKeyAttained | ml/clastering_clasters.py:359 | the result of `max` is one of the keys |
| Registry.LexSort | ml/clastering_clasters.py:365 | `sorted(shots)` is a permutation in string order |
| Registry.ReindexFrom | ml/clastering_clasters.py:361-374 | the loop fails exactly when some cluster has an unparseable shot. Otherwise its clusters are the pieces `split_cluster` cuts each sorted cluster into, cluster after cluster, keyed `next, next + 1, ...` |
| Registry.Reindex | ml/clastering_clasters.py:333-376 | an empty map fails as `max()` does; otherwise it fails exactly when some cluster has an unparseable shot. On success the new clusters are, in order, the pieces of `split_cluster(sorted(shots))` for each old cluster in turn; their keys count up from the old maximum plus one and exceed every old key; the shots are preserved as a multiset, each new cluster is tight, and the number of empty clusters is unchanged |
| Registry.AllPiecesKeep | ml/clastering_clasters.py:361-374 | when no cluster is rejected, the pieces number at least the clusters, hold the same shots, are each tight, and include one empty piece per empty cluster |
| Registry.PairStays | ml/clastering_clasters.py:365-372 | a two-shot cluster whose gap is within the threshold stays whole |
| Registry.ReindexDocFirst | ml/clastering_clasters.py:339 | the docstring's first cluster `['shot_1', 'shot_2']` stays whole |
| Registry.ReindexDocSecond | ml/clastering_clasters.py:339-348 | the docstring's second cluster `['shot_10', 'shot_15']` also stays whole, contrary to the sample result |
| Registry.ReindexTwoWhole | ml/clastering_clasters.py:359-374 | two clusters keyed 0 and 1 that `split_cluster` keeps whole come back whole, keyed 2 and 3 |
| Registry.ReindexDocExample | ml/clastering_clasters.py:339-348 | the docstring's input gives `{2: ['shot_1', 'shot_2'], 3: ['shot_10', 'shot_15']}` |
| Registry.PruneFrom | ml/clastering_clasters.py:514-524 | from a given next key: one entry per non-empty cluster, keyed consecutively from that key, holding exactly the non-empty clusters in order, with every shot kept in order |
| Registry.PruneAndReindex | ml/clastering_clasters.py:497-528 | the empty clusters go, the rest keep their order and contents, keys run `1..N`, and every shot is kept in order |
| Registry.PruneDocExample | ml/clastering_clasters.py:504-509 | the docstring's example: `{0: [a, b], 1: [], 2: [c]}` gives `{1: [a, b], 2: [c]}` |
| Merging.MergePass | ml/clastering_clasters.py:403-430 | one pass leaves at most as many clusters as it was given and at least half as many (each merge joins exactly two) |
| Merging.MergePassFlatten | ml/clastering_clasters.py:403-430 | one pass only regroups: the shots, in order, are unchanged |
| Merging.MergePassShrinks | ml/clastering_clasters.py:396-433 | a pass never adds clusters. It keeps the count exactly when no two neighbours are both smaller than 4, and then changes nothing |
| Merging.MergePassPieces | ml/clastering_clasters.py:416-424 | every cluster after a pass was there before, or is the concatenation of two neighbouring clusters that were both smaller than 4, so it holds at most 6 shots |
| Merging.MergeFixpoint | ml/clastering_clasters.py:379-437 | the final clusters hold the same shots in order, are no more numerous, and no two neighbours are both small |
| Merging.MergeFixpointNonEmpty | ml/clastering_clasters.py:379-437 | merging non-empty clusters never produces an empty one |
| Merging.Pass | ml/clastering_clasters.py:397-433 | the loop body computes one pass; `changed` is set exactly when the pass merged something |
| Merging.MergeClustersIfNeeded | ml/clastering_clasters.py:379-437 | the `while changed` loop on a list ends at the fixpoint: same shots in order, no two neighbours both small |
| Merging.MergeDocExample | ml/clastering_clasters.py:385-389 | the docstring's input merges into one cluster |
| Merging.MergeOnIndexDict | ml/clastering_clasters.py:403-437 | the call at line 702 on the dict `{i: cluster}`: it can only fail on a non-empty dict, and then with KeyError; when it returns, the clusters hold the same shots in order and no two neighbours are both small |
| Merging.IndexDictDiscrepancy | ml/clastering_clasters.py:429-430 | on the dict `{i: cluster}` the call agrees with the list version when it returns, and raises KeyError on every non-empty input with no two small neighbours |
| Merging.IndexDictSingleCluster | ml/clastering_clasters.py:702 | for one cluster the list version returns it unchanged while the dict call raises |
| Absorbing.Step | ml/clastering_clasters.py:462-491 | one turn of the loop raises IndexError exactly at slot 0 of a one-slot list holding one shot; otherwise it keeps the number of slots and the shots in order |
| Absorbing.MergeSmallClusters | ml/clastering_clasters.py:439-495 | on inputs where the scan stops, it fails with IndexError exactly on a lone one-shot slot. Otherwise the result has the same number of slots, the same shots in order, no slot with one shot; every surviving slot still starts with its own shots and the others are empty |
| Absorbing.AbsorbDocExample | ml/clastering_clasters.py:450-455 | the docstring's example: `[[s1], [s2, s3]]` becomes `[[s1, s2, s3], []]` |
| Absorbing.AbsorbThreeSlots | ml/clastering_clasters.py:472-488 | a later one-shot slot moves into the slot before it: `[[a], [b, c], [d]]` becomes `[[a, b, c, d], [], []]` |
| Absorbing.FirstSlotHang | ml/clastering_clasters.py:475-488 | a one-shot slot 0 before an empty slot 1 is merged with it unchanged and the scan restarts at the same state |
| Absorbing.StuckStep | ml/clastering_clasters.py:462-491 | from a state whose first non-empty slot holds one shot with nothing non-empty it could join, the loop body neither raises nor exits, and the state stays like that |
| Absorbing.NeverReturns | ml/clastering_clasters.py:462-491 | every input that neither settles nor is a lone one-shot slot is still looping, with no error, after any number of turns |
| Absorbing.HangExamples | ml/clastering_clasters.py:462-491 | `[[], [a]]` and `[[a], []]` cycle forever; `[[a]]` raises IndexError |
| LinkedClusters.RemoveCluster | ml/clastering_clasters.py:205-262 | the kept entries are exactly those that are neither the target nor name it. The result is `{}` exactly when nothing was recorded. Otherwise it maps the target to the groups `members + [key]` of its own non-empty entry and of every entry naming it |
| LinkedClusters.RemoveClusterAccounts | ml/clastering_clasters.py:231-256 | every entry is kept, recorded among the removed groups, or is the target's own empty entry |
| LinkedClusters.RemoveClusterIdempotent | ml/clastering_clasters.py:205-262 | removing the same cluster again removes nothing and leaves the map unchanged |
| LinkedClusters.RemoveClusterDocExample | ml/clastering_clasters.py:213-222 | the docstring's map loses both entries, and both groups are recorded |
| Aggregate.MostCommon | ml/clastering_clasters.py:85-88 | `Counter(xs).most_common(1)[0][0]` fails on an empty list. Otherwise it is a most frequent value, the first seen among ties |
| Aggregate.MostCommonUnique | ml/clastering_clasters.py:85-88 | that description fixes the value: any value meeting it is the result |
| Aggregate.MostCommonExamples | ml/clastering_clasters.py:85 | frequency wins, and ties go to the value seen first |
| Aggregate.Mean | ml/clastering_clasters.py:92-94 | for a non-empty list the result times the length is the sum; the empty list gives 0 |
| Aggregate.MeanConstant | ml/clastering_clasters.py:92-94 | the mean of equal values is that value |
| Aggregate.Eligible | ml/clastering_clasters.py:59-61 | the shots the loop keeps are a subsequence of the cluster (cluster order), and each shot occurs in it as often as in the cluster when both the audio and the video data know it, and never otherwise |
| Aggregate.Describe | ml/clastering_clasters.py:59-64 | the loop's descriptions line up one to one with the eligible shots: the `i`-th is `merge_shot_data` of the `i`-th eligible shot's audio and video data |
| Aggregate.ExtendedMembers | ml/clastering_clasters.py:78-79 | the list grown by `extend` with every shot's list holds exactly what some shot's list holds |
| Aggregate.AllObjects | ml/clastering_clasters.py:78-97 | `set(all_video_objects)` of the extended list holds an object exactly when some shot lists it |
| Aggregate.AllEvents | ml/clastering_clasters.py:79-98 | `set(all_video_events)` of the extended list holds an event exactly when some shot lists it |
| Aggregate.Summarise | ml/clastering_clasters.py:85-117 | fails on no descriptions. Otherwise: the most common of each text field, the mean of each numeric field, the union of objects and events, and the moving objects joined with `", "` |
| Aggregate.MergeClusterData | ml/clastering_clasters.py:20-121 | fails exactly when no shot of the cluster is in both data maps; otherwise the description summarises the eligible shots |
| Aggregate.MovingObjectsSplit | ml/clastering_clasters.py:80-102 | the joined moving-objects text splits back into the per-shot texts when none contains a comma |
| Scenes.Distinct | ml/clastering_clasters.py:619-628 | the keys of the label map are the labels, each once, ordered by the position of each label's first occurrence |
| Scenes.GatherMembers | ml/clastering_clasters.py:640-649 | a label's entry holds exactly the shots of the clusters carrying that label |
| Scenes.Regroup | ml/clastering_clasters.py:615-649 | one entry per distinct label, in first-appearance order, with the shots of its clusters; all shots are kept as a multiset |
| Scenes.SortByHead | ml/clastering_clasters.py:692 | the clusters are permuted into order of the `extract_number` of their first shot, and the shots are kept |
| Scenes.SortWithin | ml/clastering_clasters.py:695-696 | each cluster is permuted into `extract_number` order |
| Scenes.Prepare | ml/clastering_clasters.py:692-696 | one cluster per input cluster, each non-empty; the `i`-th is a permutation of the `i`-th cluster in first-shot order, sorted by `extract_number`; the shots are kept as a multiset |
| Scenes.Clean | ml/clastering_clasters.py:709 | the scenes are keyed `1..N`, no more numerous than the slots, each holds at least two shots, and they hold the slots' shots in order |
| Scenes.Arrange | ml/clastering_clasters.py:692-709 | fails with IndexError exactly when some cluster is empty, and with KeyError exactly when there is a single shot. Otherwise the scenes are keyed `1..N`, no more numerous than the clusters, each holds at least two shots, and read in order they hold exactly the shots of the two sorts (`Prepare`) in that order |
| Scenes.ProcessTail | ml/clastering_clasters.py:615-709 | an empty map fails. On success the scenes are keyed `1..N`, each holds at least two shots, together they hold exactly the shots of the labelled clusters, and read in order they are the regrouped, re-split clusters after the two sorts (`Prepare`) |
| Timecode.FormatTime | ml/separating.py:19-55 | the text has at least 8 characters and ends in `:MM:SS` (colons at the sixth and third places from the end); `FormatTimeRoundTrip` pins the fields |
| Timecode.Decompose | ml/separating.py:38-50 | minutes and seconds lie in `0..59`, and hours, minutes and seconds add back up to the input |
| Timecode.DecomposeUnique | ml/separating.py:38-50 | a reading with minutes and seconds in range is the only one for its total |
| Timecode.FormatTimeRoundTrip | ml/separating.py:19-55 | parsing the `HH:MM:SS` text gives back the hours, minutes and seconds, and so the input, for any number of hours or sign |
| Timecode.FormatTimeRealFloor | ml/separating.py:38-50 | for a fractional input the text is that of its floor |
| Timecode.FormatTimeExamples | ml/separating.py:33 | the docstring's `3661 -> '01:01:01'`; 100 hours print as `100:00:00` |

## Left out

- The TF-IDF vectorising, the silhouette search for the cluster count and the agglomerative
  clustering (lines 584-613). Their output, one label per cluster, is the `labels` parameter of
  `Scenes.ProcessTail`. Equal lengths are a precondition, since the label list has one entry per
  description row by construction. The clamp of the cluster count at lines 607-608 only feeds
  that call.
- `merge_shot_data` and `convert_to_serializable`: they live in a module that is not part of this
  model. `merge_shot_data` is the `mergeShot` parameter of `Aggregate.MergeClusterData`.
  `convert_to_serializable` is taken as the identity on integer keys and string lists.
- The first `reindex_clusters` call and the per-cluster `merge_cluster_data` loop (lines 571-579)
  are the modelled `Registry.Reindex` and `Aggregate.MergeClusterData`. Their results only feed
  the left-out clustering.
- Reading and writing JSON files (lines 557-566 and 712-713), `evaluate_clusters` (a float
  score, not part of the scene pipeline) and the scene-cutting script around `format_time` in
  ml/separating.py (video I/O).
- Cluster keys are integers. The source writes `str(new_index)` keys and reads them back with
  `int()`. Keys that are not numerals are not modelled.
- Floating point: means are exact real arithmetic, and `format_time` on floats uses exact reals.
- Shot ordinals follow Python's `int()` on ASCII and Latin-1 whitespace (including U+0085 and
  U+00A0), an optional sign and ASCII digits. Other Unicode whitespace, non-ASCII digits and
  underscores inside numerals are not modelled.
- Shots.FirstNumber: `extract_number`'s `re.search(r'\d+')` also matches non-ASCII decimal
  digits in Python 3; the model reads ASCII digits only.
- LinkedClusters.RemoveCluster: the source visits the entries that name the target in set
  order, which Python does not fix. The model records their groups in map order, and the
  contract states their membership, not their order. The member lists are sets as well, so
  `list(cluster_map[...])` (lines 234 and 253) also orders the members inside each recorded
  group in a way Python does not fix; the model keeps the stored sequence's order.
- Absorbing.MergeSmallClusters: requires an input on which the scan stops (`Settles` or
  `LoneSingleton`). Every other input, such as `[[a], []]`, loops forever in the source
  (`Absorbing.NeverReturns`), so it has no result to model.
- Scenes.ProcessTail: characterises the empty map and the success case. Its other failures
  (an unparseable shot id, an empty regrouped cluster, a single shot) are characterised one step
  at a time by `Registry.Reindex` and `Scenes.Arrange`, not in terms of the original input.
- Scenes.Arrange: uses the list form of `merge_clusters_if_needed`. The source's call on a dict
  raises KeyError on most inputs (see Findings).
- Aggregate.AllObjects, Aggregate.AllEvents: `list(set(...))` has an order Python does not fix,
  so the model returns sets.

## Findings

| source | as written | input that shows it | evidently intended | confidence | as-written member | corrected member |
|---|---|---|---|---|---|---|
| ml/clastering_clasters.py:702 with :430 | `process_clusters` passes the dict `{i: cluster}` to `merge_clusters_if_needed`. The dict has no key -1, so unless the first pass merges the final pair, `clusters[-1]` raises KeyError | `{0: ['shot_1', 'shot_2']}`, a single cluster: the pass does not merge the final pair, so `clusters[-1]` is looked up | merge the list of clusters in order, as the function's docstring describes | not executed | Merging.MergeOnIndexDict, shown by Merging.IndexDictSingleCluster and Merging.IndexDictDiscrepancy | Merging.MergeClustersIfNeeded, used by Scenes.Arrange |
