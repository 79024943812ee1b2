# alife1 core in Dafny

A model of the recurrent neural network that drives the cats of the alife1
simulation (`neural_network.py`), together with three small pure pieces of
the simulation itself (`main.py`): the `H:MM:SS` clock text, the burger
tracker that gives a cat its burger rate, and the clamped movement of a
simulation object.

The network is modelled as an arena. `Graph.Network` holds a heap of node
objects addressed by handle (`heap: seq<Node>`), the `nodes` dict from id to
handle, the dict's insertion order, and the input and output key lists.
Edges are handles, as the Python lists hold node objects. Re-adding an id
replaces the dict entry and leaves the old object in the heap, where other
nodes may still point to it (an *orphan*). `Graph.Valid` is the invariant
every operation keeps:

- keys resolve to objects carrying that id;
- inputs and weights stay paired;
- no object occurs twice in an edge list;
- `inputs` and `dependant_nodes` mirror each other;
- the order lists the keys once each;
- the role lists name keys.

Activation functions are names (`Option<string>`). Evaluating one is a
parameter `f: (string, real) -> real`, and outputs are `real`. Python
exceptions become `Result` failures: the `KeyError` of `set_inputs`, the
`TypeError` of calling a `None` activation, the `ValueError` of
`list.remove` in `break_loops`, and the `KeyError`/`TypeError` of
`load_network`.

Modules:

- `Wrappers`: `Option` and `Result`.
- `Sequences`: `del`, `remove`, `reverse` and deleting several positions.
- `Graph`: nodes, the network and its invariant, paths.
- `NetworkOps`: the `Network` methods.
- `Propagation`: `Node.pre_activate`, `Node.activate` and `Network.activate`.
- `Influence`: `get_influencing_nodes`.
- `LoopBreaking`: `break_loops`.
- `Codec`: `save_network` and `load_network` at the record level.
- `Hms`: `int_to_hms_string`.
- `BurgerTracker`: the burger tracker of `Cat`.
- `Motion`: `increment_position_rotation`.

## Model

| member | source | states |
|---|---|---|
| `NetworkOps.AddHiddenNode` | neural_network.py:102-106 | a fresh object with the given activation is stored under the id at a new handle; other keys keep their objects; the heap only grows; the order gains the id only if it was new; role lists unchanged; validity is kept |
| `NetworkOps.AddInputNode` | neural_network.py:109-112 | as for a hidden node, but with no activation, and the id is appended to the input keys even when already listed |
| `NetworkOps.AddOutputNode` | neural_network.py:114-119 | as for a hidden node, and the id is appended to the output keys even when already listed |
| `NetworkOps.PutNodeOrphans` | neural_network.py:102-119 | after any adder the network is orphan-free exactly when it was before and the id was new |
| `NetworkOps.AddConnection` | neural_network.py:121-137 | a missing key or an already-present edge leaves the network equal to before; otherwise the edge, its weight and the back-link are appended and nothing else changes; validity (pairing, no repeated source) is kept |
| `NetworkOps.AddConnectionIdempotent` | neural_network.py:131-133 | repeating a connection with any weight gives the same network as making it once |
| `NetworkOps.SetInputs` | neural_network.py:140-142 | fails exactly when some input key has no value, naming such a key; on success the output of each input key's object becomes its value, every other key's output and every orphan is unchanged, and no object changes in anything but its output: snapshot, edges, weights, ids and activation stay the same |
| `NetworkOps.AssignInputs` | neural_network.py:141-142 | the loop over a key list: fails exactly when a key lacks a value; on success exactly the live objects of the listed keys get their values |
| `NetworkOps.GetOutputs` | neural_network.py:145-146 | the result has exactly the output keys as domain, each mapped to the output of its object |
| `NetworkOps.Flush` | neural_network.py:158-160 | every live object's output becomes 0; edges, ids and orphans are unchanged; validity is kept |
| `NetworkOps.FlushZeroesOutputs` | neural_network.py:145-160 | after a flush every value that `get_outputs` reports is 0 |
| `Propagation.PreActivate` | neural_network.py:17-20 | the snapshot has one value per input, in input order, each the current output of that input; nothing else in the node changes |
| `Propagation.ActivateNode` | neural_network.py:23-31 | fails exactly when the node has weights but no activation, naming the node; a node with no weights is returned as it is; otherwise only the output changes, to the activation of the weighted sum of the snapshot |
| `Propagation.PreActivateAll` | neural_network.py:17-20 | the first loop: every visited object snapshots the current outputs of its inputs; unvisited ones are unchanged |
| `Propagation.ActivateAll` | neural_network.py:23-31 | the second loop: fails exactly when a visited node has weights but no activation; otherwise each visited node gets the activation of the weighted sum of its snapshot and the rest are unchanged |
| `Propagation.ActivateVisiting` | neural_network.py:148-155 | for any two visiting orders of the live objects, the step fails exactly when a live node needs a missing activation; otherwise every live object becomes `Stepped` (activation of the weighted sum of the pre-step outputs of its inputs; no weights means the output is kept), and the edges are unchanged |
| `Propagation.Activate` | neural_network.py:148-155 | the same for the dict's own order |
| `Propagation.ActivateOrderIndependent` | neural_network.py:148-155 | any two pairs of visiting orders agree on success and give the same network |
| `Influence.GetInfluencingNodes` | neural_network.py:35-54 | terminates (each descent adds a new id to a finite visited set); the result contains the accumulator, contains the start id when it was unvisited, and holds only ids of the heap |
| `Influence.InfluencingReaches` | neural_network.py:35-54 | the search adds to the accumulator exactly the ids reachable from the object by paths that repeat no id and avoid the visited ids |
| `Influence.InfluenceIsReachability` | neural_network.py:35-54 | without orphans, the influence set of an object is exactly the keys whose object it reaches by following `inputs`, itself included |
| `LoopBreaking.LoopIndexes` | neural_network.py:58-76 | the first loop: exactly the positions whose input's influence set holds the node's id, ascending |
| `LoopBreaking.DescendingLoopIndexes` | neural_network.py:58-79 | `delete_indexes` after `reverse()`: the loop-closing positions, each once, strictly descending |
| `LoopBreaking.Sever` | neural_network.py:81-88 | on success the broken pairs are `[source_id, node_id]` for the given positions in loop order, and every object keeps its id; a failure names the node and the source of one given position, that is, one of those pairs |
| `LoopBreaking.SeverEffect` | neural_network.py:81-88 | the second loop fails exactly when some severed source does not list the node as a dependant; otherwise it cuts exactly the given positions from inputs and weights, removes the node from each severed source's dependants, and returns the broken pairs in loop order |
| `LoopBreaking.BreakLoops` | neural_network.py:57-90 | on a valid network it succeeds, cuts exactly the loop-closing positions (survivors keep their order and pairing), unlinks the severed sources, returns `[source_id, node_id]` in descending position order, and keeps validity |
| `LoopBreaking.BreakLoopsCutsEveryLoop` | neural_network.py:57-90 | afterwards no remaining input of the node has the node's id in its influence set |
| `LoopBreaking.BreakLoopsLeavesNoCycle` | neural_network.py:57-90 | without orphans, afterwards no path of two or more objects leads from the node back to it |
| `LoopBreaking.NothingToCut` | neural_network.py:57-90 | when no input position closes a loop, `break_loops` returns the network unchanged and an empty list of broken pairs |
| `LoopBreaking.HiddenLoopSurvives` | neural_network.py:35-54 | on objects `h`, `a`, `c`, `a` wired as the cycle 0 <- 1 <- 2 <- 3 <- 0, the search from the first `a` stops at the second, whose id it has visited, so no input of `h` closes a loop |
| `LoopBreaking.OrphanExample` | neural_network.py:102-137 | adding hidden `h`, `a`, `c`, connecting `a -> h` and `c -> a`, adding `a` again and connecting `a -> c` and `h -> a` yields four objects, `h`, the orphaned first `a`, `c` and the second `a`, with inputs forming that cycle |
| `LoopBreaking.OrphanedCycleSurvives` | neural_network.py:35-90 | on that network, which has an orphan, `break_loops(h)` cuts nothing and a cycle through `h` remains |
| `Codec.SaveNode` | neural_network.py:170-188 | the record carries the object's id, the name of its activation (the no-activation name for none), its weights as they are, at each position the id of the input object at that position (always a key), and at each position the id of the dependant object there |
| `Codec.SaveNetwork` | neural_network.py:163-192 | the key lists as they are and one record per dict entry, in dict order |
| `Codec.AddRecord` | neural_network.py:212-222 | one step of the first loop fails exactly when the record faults (unknown activation name first, then the input-node call), and otherwise stores a fresh object in the role the key lists give, input before output |
| `Codec.CreateNodes` | neural_network.py:212-222 | the first loop succeeds exactly when no record faults, and otherwise fails with the fault of the first faulting record |
| `Codec.CreatedNodes` | neural_network.py:212-222 | a successful first pass leaves a valid network with one fresh object per record, in record order, each with its registry activation (none for input keys) |
| `Codec.CreatedIndex` | neural_network.py:212-222 | with distinct record ids, record `i` is stored at handle `i`, the dict order is the record order, and the role lists are the record ids in those roles, in record order |
| `Codec.ConnectPairs` | neural_network.py:225-226 | the inner loop keeps validity and changes only edges |
| `Codec.ConnectAll` | neural_network.py:224-226 | the second loop keeps validity and changes only edges: the dict, its order, the role lists and every object's id, output, snapshot and activation stay the same |
| `Codec.ConnectAllReplays` | neural_network.py:224-226 | on records with distinct ids whose input ids, among the pairs `zip` reaches, are all record ids and none repeated within a record, the second loop from record `t` on leaves every object linked to exactly its record's pairs in stored order, `zip` stopping at the shorter of inputs and weights |
| `Codec.Load` | neural_network.py:199-228 | load succeeds exactly when no record faults; otherwise it fails with the fault of the first faulting record; on success the network is valid with one object per record |
| `Codec.LoadNetwork` | neural_network.py:199-228 | the source's load succeeds exactly when every record's activation name is registered and no record is an input key; a failure is the unknown name or the input-node call of some record; a success is valid with one object per record |
| `Codec.LoadNetworkCorrected` | neural_network.py:199-228 | with `add_input_node(id)` the load succeeds exactly when every record's activation name is registered, and otherwise fails naming one that is not; a success is valid with one object per record |
| `Codec.LoadReplays` | neural_network.py:199-228 | on records with distinct ids whose input ids, among the pairs `zip` reaches, are all record ids and none repeated within a record, and with every activation name registered, the corrected load rebuilds the records: order and keys from the record ids, role lists from the records, each object's activation from the registry, and at each object exactly its record's input ids and weights as far as `zip` reaches |
| `Codec.LoadRoundTripEdges` | neural_network.py:163-228 | save then corrected load gives a valid, orphan-free network with the same keys in the same dict order, and each node has the same input ids and weights in the same order |
| `Codec.LoadRoundTripActivations` | neural_network.py:180-185 | after the round trip each node has the activation the registry gives its saved name, and none for an input key |
| `Codec.LoadRoundTripRoles` | neural_network.py:217-220 | after the round trip the input keys are the same set, and the output keys are those not also input keys |
| `Codec.NoOrphansInputIds` | neural_network.py:172-174 | without orphans, the saved input ids of every node are distinct, so the round trip applies to every orphan-free network whose activation names are registered |
| `Codec.LoadersAgree` | neural_network.py:217-222 | when no record is an input key the source's load and the corrected one give the same result |
| `Codec.SavedInputsRejected` | neural_network.py:218 | the source's load fails on what `save_network` writes for any network with an input key |
| `Codec.LoadFault` | neural_network.py:213-218 | with every activation name registered, the source's load can fail only with the input-node call, for an input key |
| `Codec.SavedLoadFault` | neural_network.py:213-218 | for a saved network with registered activation names, the source's load fails exactly when the network has an input key, and the failure is the input-node call for one of its input keys |
| `Codec.SingleInputRejected` | neural_network.py:218 | a network holding one input node saves to records the source's load rejects with the input-node error for that id |
| `Codec.SingleInputLoads` | neural_network.py:109-112 | the corrected load accepts those same records |
| `Hms.Split` | main.py:43-47 | the minutes and seconds are in [0, 60), for any integer |
| `Hms.TruncDiv60` | main.py:44 | `int(a / 60)` truncates toward zero |
| `Hms.SplitJoin` | main.py:42-47 | for a non-negative count the hours are non-negative and hours·3600 + minutes·60 + seconds gives the count back |
| `Hms.JoinSplit` | main.py:42-47 | the split is the only one with fields in range |
| `Hms.Digits` | main.py:48 | `str` of a natural number is a non-empty digit string, with no leading zero unless the number is 0 |
| `Hms.DigitsRoundTrip` | main.py:48 | that digit string reads back as the number |
| `Hms.Pad2RoundTrip` | main.py:48 | `{:02d}` of a non-negative field is at least two digits reading back as the field, and exactly two below a hundred |
| `Hms.IntToHmsString` | main.py:42-48 | for a non-negative count the text has the form `H:MM:SS`, with minutes and seconds of exactly two digits below sixty and hours of at least two digits, and it reads back as the count |
| `Hms.ParseHmsInjective` | main.py:42-48 | two texts of the form `H:MM:SS` (hours of at least two digits, no leading zero beyond the second, minutes and seconds below sixty) that read back as the same count are the same text |
| `Hms.HmsTextUnique` | main.py:42-48 | for a non-negative count, the formatted text is the only text of that form reading back as the count |
| `Hms.HmsShortForm` | main.py:42-48 | below a hundred hours the text is exactly eight characters |
| `Hms.NegativeWithinMinute` | main.py:43-46 | truncating division with a floored remainder makes a count in (-60, 0) format like the count sixty seconds later |
| `BurgerTracker.NewCat` | main.py:347-353 | a new cat has lived no seconds, eaten no burgers, tracks 3 minutes (180 seconds), has an empty tracker and rate 0 |
| `BurgerTracker.KeepPositive` | main.py:587 | the filter is the list with exactly the non-positive positions removed, so the positive entries keep their order and multiplicity; it never grows the list |
| `BurgerTracker.CallEverySecond` | main.py:583-587 | alive seconds grow by exactly one; the tracker is the decremented list with exactly the positions that held at most one removed, so survivors keep their order and multiplicity, and it equals the tracker aged by one second; the tracker never grows; other fields are unchanged |
| `BurgerTracker.EatAll` | main.py:575-577 | each eaten burger adds one to the total and appends the tracker period to the tracker |
| `BurgerTracker.Frame` | main.py:575-581 | each burger eaten in the frame adds one to the total and appends the full tracker period after the existing entries; the burger rate becomes the tracker's new length, its old length plus the burgers eaten; the clock fields are unchanged |
| `BurgerTracker.CallEverySecondInvariant` | main.py:583-587 | entries stay in (0, period] and ascending from one second to the next |
| `BurgerTracker.FrameInvariant` | main.py:575-581 | eating keeps entries in (0, period] and ascending |
| `BurgerTracker.KeepPositiveAscending` | main.py:587 | the filter keeps an ascending list ascending |
| `BurgerTracker.RunTracker` | main.py:575-587 | after any run of seconds and meals, the tracker is the old entries aged by the seconds elapsed, followed by one entry per burger eaten within the last period, each showing its remaining seconds |
| `BurgerTracker.BurgerRateCountsRecentBurgers` | main.py:350-351 | from a new cat, the burger rate after a frame is the number of burgers eaten within the last three minutes |
| `Motion.Clamp` | main.py:177-187 | a coordinate within its bounds is unchanged; with ordered bounds the result lies within them; below the minimum it becomes the minimum unless that passes the maximum; past the maximum after the first test it becomes the maximum |
| `Motion.IncrementPositionRotation` | main.py:173-198 | the constraints are kept; the `update` flag is set exactly when some increment is given; no position increment leaves the position alone; with ordered bounds each new coordinate lies within them; a move staying inside is made exactly; the rotation increment is added without clamping or wrapping |

## Left out

- Rendering, events, timers, fonts and surfaces in `main.py`: pygame UI and I/O.
- The scene graph, sensors and the movement and energy physics of `Cat.frame`. These are floating-point trigonometry over global instance lists, so the number of burgers eaten in a frame is a parameter of `BurgerTracker.Frame`.
- `update()` after a move is not modelled; `Motion.IncrementPositionRotation` returns the `update` flag instead.
- A position increment of fewer than two coordinates (`zip` would shorten the list) is not modelled: `Motion.Position` always has two.
- Randomness (names, colours, spawning), the `evolution` module's `Brain` and `EvolutionOptions` (not part of this model), `activation_functions.py` (activations are names evaluated by a parameter) and `cat_picture_downloader.py` (HTTP and files).
- The text layer of the codec (`str`, `ast.literal_eval`) and the file: save and load work on records.
- The recorded `dependand_nodes` list is written but never read back, so it is carried in the record and not checked.
- Floating point: outputs and weights are `real`, and so are the positions, rotation and bounds of `Motion`; `real` is exact, so float rounding in sums and clamping is not modelled. `int(number / 60)` is modelled as exact truncation, ignoring the float rounding of very large counts.
- Partial mutation before an exception: the Python methods leave already-updated fields changed when they raise; the model returns only the error.
- The operations require `Graph.Valid`, which every operation of the model keeps and an empty network has.
- Codec.ConnectAllReplays: describes the second loop only on records with distinct ids whose paired input ids are record ids, none repeated within a record. Otherwise `add_connection` skips a pair or a later record replaces an earlier object, and the result is stated only by `Codec.ConnectAll` (validity kept, only edges change). `Codec.NoOrphansInputIds` shows that what `save_network` writes for an orphan-free network meets these conditions.
- Codec.LoadReplays: carries the same conditions as `Codec.ConnectAllReplays`, for the same reason.
- LoopBreaking.BreakLoopsLeavesNoCycle: requires a network without orphans. The search of `get_influencing_nodes` remembers ids, not objects, so with an orphan sharing an id with a live object it can stop early and `break_loops` can leave a cycle, as `LoopBreaking.OrphanedCycleSurvives` shows.
- Codec.LoadRoundTripRoles: states the role lists as sets; on load they are rebuilt in record order, so their order and repetitions are not promised to match the saved lists.

## Findings

| source | as written | input that shows it | evidently intended | confidence | as-written member | corrected member |
|---|---|---|---|---|---|---|
| neural_network.py:218 | `load_network` calls `add_input_node(id, activation_function)`, but `add_input_node` (109) takes only `node_id`, so the call raises `TypeError` | any saved network with an input key, given a `functions_dict` that has the key `'None'` (what `save_network` writes for an input node, 181-182; without it the lookup at 215 raises `KeyError` first), e.g. one input node `x`: the load fails with the arity error for `x` | `add_input_node(id)`, creating the input node with no activation | not executed | `Codec.SingleInputRejected` | `Codec.LoadRoundTripEdges` |
