# Orgument processing core in Dafny

This project models the signal-processing core of a modular audio
application written in Rust (`src/processing/`). The pieces are:

- **Flows.** A flow is a directed acyclic graph of nodes:
  - graph-local `Input` nodes;
  - graph-local `Output` nodes;
  - element nodes, where an element is either a primitive or a nested flow.

  Edges are typed and join an output slot of one node to an input slot of
  another. Each flow caches a topological visit order and its declared
  input and output slot maps.
- **Flow stores.** An arena of flows keyed by 64-bit ids. The core has two
  variants of the id allocator:
  - a post-increment `next_id` (`flow_store.rs`);
  - a pre-increment `latest_id` (`store.rs`).
- **Buffers.** A buffer is either sampled or an event stream. It supports
  lazy resize, additive merge and clear.
- **Primitives.** The primitive elements are the sine oscillator and the
  constant, described by their slot types. The constant and the pure
  `MultiplyF32` / `AddF32` processors are modelled by their block
  computations.
- **Processors.** A processor keeps one buffer per edge. Block evaluation
  walks the visit order:
  - Input nodes broadcast the caller's input;
  - element nodes sum the fan-in of each input slot into the slot's first
    edge, compute into the first edge of each output slot, and copy that
    result to the slot's other edges;
  - nested flows are evaluated recursively on their own processor;
  - Output nodes mix their fan-in into the caller's output buffers.

The model is functional. Each mutation returns a new value:
- a flow is a record of maps (nodes, edges, slot types) plus the visit
  order;
- a processor is a map from edge ids to buffers;
- an evaluation returns the updated processors and caller outputs.

The flow invariant `Flows.Valid` is preserved by every operation. It
requires:
- ids below the allocation counters;
- both ends of every edge to be nodes;
- a topological order of the current graph to exist;
- the visit order to be sound;
- the declared slot maps to agree with the Input and Output nodes.

Modules:

| module | file | models |
|---|---|---|
| `Wrappers` | wrappers.dfy | `Option`/`Result` |
| `Types` | types.dfy | `mod.rs`: slot numbers, `Type`, `PrimType`, `Value`; `u32`/`u64` wrap-around |
| `Dag` | dag.dfy | reachability, topological orders, Kahn's algorithm (the graph library's `toposort` and cycle check) |
| `Buffers` | buffers.dfy | the buffer half of `processor.rs` |
| `Prims` | prims.dfy | `prim_element/mod.rs`, `constant.rs`, `pure.rs` |
| `Flows` | flow.dfy | `flow.rs` and the slot lookups of `element.rs` |
| `FlowStore` | flow_store.dfy | `flow_store.rs` |
| `PreIncFlowStore` | store.dfy | `store.rs` |
| `Processors` | processor.dfy | the processor half of `processor.rs` and `Element::compute_outplace` |

Modelling choices:
- Structural lookups that the source `unwrap`s or indexes become
  preconditions. These are flow and node ids that must be present, slot
  numbers that must be declared (`[&output_no]` and `[&input_no]`,
  flow.rs:60-61), a buffer per edge, and a flow store without nesting
  cycles.
- Panics that depend on buffer contents become a `None` result. These are
  a merge of mismatched buffers and an `unwrap_match!` on the wrong buffer
  kind.
- Node and edge ids come from fresh counters. The incident edges of a
  node are listed newest first, as the graph library's adjacency lists
  do when ids are never reused.
- The visit order is recomputed by Kahn's algorithm over ascending node
  ids.
- Samples are mathematical integers standing for the primitive values.
- A primitive's own computation is a parameter `prim` of the evaluator.
  `Prims` gives the computations of the constant and the pure
  processors.

The `u32` slot-number successor and the `u64` id successor wrap around
explicitly, as `wrapping_add` does.

## Model

| member | source | states |
|---|---|---|
| Types.SlotNoConversions | src/processing/mod.rs:23-39 | Converting a slot number to `u32` and back is the identity; slot numbers are ordered exactly as their `u32` values |
| Types.AllPrimTypesEnumerated | src/processing/mod.rs:1-9 | The enumeration lists each of the four primitive kinds exactly once, and every kind appears in it |
| Types.TypeEquality | src/processing/mod.rs:42-46 | Two sampled types are equal iff kind and Nyquist frequency agree; a sampled type never equals an event type; event types are equal iff their kinds are |
| Buffers.New | src/processing/processor.rs:153-158 | A new buffer passes the type test for the type it was made for, and is empty |
| Buffers.TestTypeSameShape | src/processing/processor.rs:160-166 | Two buffers that pass the test for the same type have the same kind and primitive type, so merging them cannot hit the unreachable arm |
| Buffers.UpdateSize | src/processing/processor.rs:168-172 | Event buffers are untouched; a sampled buffer gets length `sz`, keeps its old samples up to `sz`, and is padded with zeros; a buffer already of length `sz` is unchanged |
| Buffers.UpdateSizeIdempotent | src/processing/processor.rs:224-228 | Resizing twice to the same size is the same as resizing once |
| Buffers.Merge | src/processing/processor.rs:174-180 | Sampled merge adds the other buffer elementwise over the common prefix and keeps the rest of the receiver; event merge appends the other buffer's events |
| Buffers.Clear | src/processing/processor.rs:182-187 | A cleared sampled buffer keeps its length and holds only zeros; a cleared event buffer is empty |
| Buffers.ClearIdempotent | src/processing/processor.rs:264-266 | Clearing twice equals clearing once, and clearing keeps the buffer's type |
| Buffers.MergeClearedIsIdentity | src/processing/processor.rs:260-266 | Merging a cleared buffer of the same shape leaves the receiver unchanged |
| Buffers.MergeCommutes | src/processing/processor.rs:260-262 | For sampled buffers of equal length, merge is commutative |
| Buffers.MergeAll | src/processing/processor.rs:174-180 | Folding merges over a fan-in keeps the head's kind, type and length |
| Buffers.MergeAllSums | src/processing/processor.rs:260-262 | Merging a sampled fan-in of equal lengths gives, at every index, the head's sample plus the sum of the others |
| Buffers.MergeAllConcatenates | src/processing/processor.rs:316-318 | Merging an event fan-in gives the head's events followed by every other buffer's events, in order |
| Buffers.MergeKeepsType | src/processing/processor.rs:230-235 | Merging two buffers that pass the test for a type gives a buffer that passes it too |
| Buffers.LenAsWrittenOverflows | src/processing/processor.rs:258 | The sampled `len` calls itself, so no call depth ever returns a length |
| Prims.InputTypes | src/processing/prim_element/mod.rs:15-20 | The sine oscillator has exactly input 0, sampled F32 at its Nyquist frequency; the constant has no inputs |
| Prims.OutputTypes | src/processing/prim_element/mod.rs:22-27 | Both primitives have exactly output 0; the oscillator's is sampled F32 and the constant's carries its value's kind, both at the element's Nyquist frequency |
| Prims.SineOscSlotsAgree | src/processing/prim_element/mod.rs:15-27 | The oscillator's input and output slots have the same type |
| Prims.ProcessorMatchesDeclaration | src/processing/prim_element/mod.rs:30-35 | The processor built for an oscillator runs at twice its Nyquist frequency, modulo 2^64. The processor built for a constant, given an output of the constant's declared type, succeeds, keeps the output keys and that type, and fills the block with the constant's value |
| Prims.ConstantKeepsOutputType | src/processing/prim_element/constant.rs:19-28 | A constant computing into an output of its declared type (the value's own primitive type, mod.rs:25 and mod.rs:64-71) succeeds and leaves a buffer of that type holding `sz` copies of the value |
| Prims.ConstantCompute | src/processing/prim_element/constant.rs:19-28 | It panics iff output 0 is present and not sampled; otherwise output 0 is resized to the block and every sample is the constant; other outputs are untouched; without output 0 nothing happens |
| Prims.ConstantIgnoresInputs | src/processing/prim_element/constant.rs:19-28 | The constant's result does not depend on its inputs |
| Prims.MultiplyF32Compute | src/processing/prim_element/pure.rs:14-32 | It panics iff output 0 is present and either it is not sampled F32 or both inputs are present and one of them is not; otherwise output 0 has block length and holds the products where both inputs have samples, its old or zero-padded samples past them, and zeros if an input is missing |
| Prims.AddF32Compute | src/processing/prim_element/pure.rs:38-56 | As for multiplication, with sums in place of products |
| Prims.UnconnectedInputClears | src/processing/prim_element/pure.rs:23-29 | With an input slot missing, the product's output is a block of zeros whatever it held before |
| Prims.PureOverwritesOutput | src/processing/prim_element/pure.rs:19-27 | With both inputs present and long enough, the output does not depend on what the output buffer held before |
| Dag.ReachableFrom | src/processing/flow.rs:65-70 | The closure computed from a node holds exactly the nodes it reaches by a path of arcs; this is the cycle test of `add_edge` |
| Dag.Kahn | src/processing/flow.rs:105-107 | Repeatedly taking the first pending source gives a topological order of the pending nodes whenever one exists |
| Dag.TopoSort | src/processing/flow.rs:105-107 | Sorting the nodes of a graph that has a topological order yields one: every node once, sources before targets |
| Dag.AddArcKeepsOrder | src/processing/flow.rs:65-70 | Adding an arc s→t when t does not reach s keeps the graph sortable, so the graph stays acyclic |
| Dag.TopoOrderIsAcyclic | src/processing/flow.rs:65-70 | A graph with a topological order has no cycle |
| Flows.ValidIsAcyclic | src/processing/flow.rs:11-17 | Every flow satisfying the invariant is acyclic |
| Flows.NewFlow | src/processing/flow.rs:20-27 | A new flow is empty and satisfies the invariant |
| Flows.NextNo | src/processing/flow.rs:133-145 | The corrected next slot number: 0 for an empty map; otherwise the largest number plus one, modulo 2^32, when that is free, and in any case the first free number counting up from there with wrap-around; it is never in use |
| Flows.NextNoAsWrittenHangs | src/processing/flow.rs:137-143 | With 2^32 - 1 and 0 both in use, the loop as written recomputes the same used candidate forever: no number of rounds returns |
| Flows.NextNoAsWrittenAgrees | src/processing/flow.rs:133-145 | The loop as written returns exactly when 2^32 - 1 and 0 are not both in use, and then returns the corrected `NextNo` |
| Flows.AddElement | src/processing/flow.rs:29-31 | Adds exactly one fresh node holding the element; edges, visit order and slot maps are unchanged; the invariant is kept |
| Flows.AddInput | src/processing/flow.rs:33-37 | Adds a fresh `Input` node under a fresh input number with the given type, registers that type, changes nothing else, and keeps the invariant |
| Flows.AddOutput | src/processing/flow.rs:39-43 | Adds a fresh `Output` node under a fresh output number with the given type, registers that type, leaves the visit order as it was, and keeps the invariant |
| Flows.AddOutputSkipsVisit | src/processing/flow.rs:39-43 | The new Output node is the only one with its number and is not in the visit order |
| Flows.AddOutputResorted | src/processing/flow.rs:39-43 | Adding an Output node and then re-sorting gives a visit order that is a topological order of the new graph and contains the new node |
| Flows.ResortedOutputUnfed | src/processing/flow.rs:39-43 | After the re-sort, the new Output node is visited, is the only one with its number, and has no incoming edges |
| Flows.AddEdge | src/processing/flow.rs:57-71 | It fails with `TypeMismatch` iff the slot types differ, and with `WouldCycle` iff they agree and the target already reaches the source. On failure the flow is unchanged. On success one fresh edge with the shared type is added, that type is returned, and the visit order is a topological order of the new graph |
| Flows.RemoveEdge | src/processing/flow.rs:73-79 | Returns true iff the edge existed; it then removes exactly that edge and re-sorts the visit order; otherwise the flow is unchanged |
| Flows.RemoveEdgeUndoesAdd | src/processing/flow.rs:57-79 | Removing an edge that `add_edge` just created succeeds and restores the nodes, edges and slot maps |
| Flows.RemoveNode | src/processing/flow.rs:45-55 | Returns the node iff it existed. It removes the node and every incident edge, drops the Input or Output node's slot type, and re-sorts the visit order; otherwise the flow is unchanged |
| Flows.RemoveNodeUndoesAddInput | src/processing/flow.rs:33-55 | Removing the node that `add_input` just created returns it and restores the nodes, edges and slot maps |
| Flows.ElementSlotNos | src/processing/element.rs:31-37 | In a valid nested flow, the element's input (output) numbers are exactly the numbers of the nested flow's Input (Output) nodes; an oscillator has input 0, a constant none, and every primitive has output 0 |
| Flows.BoundaryNodeSlots | src/processing/flow.rs:159-175 | An Input node has no inputs and one output 0 of its declared type; an Output node has no outputs and one input 0 of its declared type |
| Flows.NestedFlowSlots | src/processing/element.rs:17-29 | A nested flow's input and output slots correspond one-to-one with its Input and Output nodes, type for type |
| Flows.InputEdges | src/processing/flow.rs:115-121 | Lists each edge into the node at the given input slot, exactly once |
| Flows.OutputEdges | src/processing/flow.rs:123-129 | Lists each edge out of the node at the given output slot, exactly once |
| Flows.UpdateVisitOrder | src/processing/flow.rs:105-107 | The recomputed visit order is a topological order of the current graph |
| Flows.PrimElements | src/processing/flow.rs:81-87 | A primitive is listed exactly when it is held by the flow: placed at one of its nodes, or held, at any depth, by a flow nested at one of its nodes (`Flows.Holds`) |
| FlowStore.NewStore | src/processing/flow_store.rs:11-13 | A new store holds no flows and starts allocating at id 0 |
| FlowStore.Get | src/processing/flow_store.rs:15 | Finds a flow iff its id is present, and returns that flow |
| FlowStore.Index | src/processing/flow_store.rs:45-48 | Indexing a present id gives what `get` finds |
| FlowStore.GenNextId | src/processing/flow_store.rs:33-42 | Returns an unused id. It is reached from `next_id` by skipping only used ids, at most as many as there are flows, with wrap-around, and `next_id` moves one past it |
| FlowStore.Add | src/processing/flow_store.rs:18-22 | Stores the flow under a fresh id, which then finds it, and moves `next_id` one past that id; every other flow is still found as before |
| FlowStore.Alter | src/processing/flow_store.rs:24-29 | Only the altered flow changes, to what the callback makes of it given the store without that flow; the callback's result is returned |
| FlowStore.Remove | src/processing/flow_store.rs:31 | Returns what `get` would have found, and the id is gone afterwards |
| FlowStore.AddThenRemove | src/processing/flow_store.rs:18-31 | Removing the id that `add` just returned gives back the flow and the original set of flows |
| PreIncFlowStore.Get | src/processing/store.rs:11 | Finds a flow iff its id is present, and returns that flow |
| PreIncFlowStore.Index | src/processing/store.rs:33-36 | Indexing a present id gives what `get` finds |
| PreIncFlowStore.GenNextId | src/processing/store.rs:21-30 | Returns an unused id at least one step past `latest_id`. Every id skipped on the way is used; at most one more step than there are flows is needed; `latest_id` becomes the returned id |
| PreIncFlowStore.Add | src/processing/store.rs:13-17 | Stores the flow under a fresh id, which then finds it and becomes `latest_id`; every other flow is still found as before |
| PreIncFlowStore.Remove | src/processing/store.rs:19 | Returns what `get` would have found; every other id still finds what it did |
| Processors.AddEdgeBuffer | src/processing/processor.rs:136-139 | Adds exactly one buffer, for the new edge, empty and of the edge's type; all other buffers are untouched |
| Processors.RemoveEdgeBuffer | src/processing/processor.rs:141-143 | Drops exactly the edge's buffer |
| Processors.RemoveUndoesAdd | src/processing/processor.rs:136-143 | Removing an edge buffer just added restores the processor |
| Processors.Gather | src/processing/processor.rs:108-113 | A fan-in can be mixed iff all its buffers have the head's shape, and the mix has that shape |
| Processors.FanInSums | src/processing/processor.rs:62-69 | For sampled fan-in of one type and equal length, the mix at each index is the sum over all incoming edges |
| Processors.FanInConcatenates | src/processing/processor.rs:62-69 | For event fan-in of one type, the mix is every edge's events in edge order |
| Processors.InputStep | src/processing/processor.rs:95-103 | Every edge out of the Input node's output 0 receives the caller's input for that number, or is cleared if there is none; no other buffer changes |
| Processors.OutputStep | src/processing/processor.rs:104-117 | Without a caller buffer for the number nothing changes. Otherwise only that buffer changes: it is resized and cleared when there is no fan-in, and is the fan-in mix, failing exactly when the mix fails, otherwise |
| Processors.ElementInputs | src/processing/processor.rs:62-72 | Exactly the connected input slots are passed to the element, each carrying the mix of its incoming edges |
| Processors.ScatterCopies | src/processing/processor.rs:87-93 | After the fan-out copy, every edge of a connected output slot holds the same buffer as the slot's first edge |
| Processors.ElementStep | src/processing/processor.rs:61-94 | Stepping an element leaves the caller outputs alone and touches only processors of this flow and deeper. Afterwards all edges of each connected output slot are equal, and the first edge of each connected input slot holds the merge (`Gather`) of that slot's edges as they were before the step |
| Processors.HeadsHoldFanIn | src/processing/processor.rs:62-72 | After merging and scattering, the first edge into each connected input slot holds the slot's merged fan-in, taken from the buffers before the step, unless it also leaves the element |
| Processors.ElementCompute | src/processing/element.rs:39-48 | A primitive is computed by the given primitive computation; a nested flow is evaluated on its own processor, keeps the output keys, and touches only processors nested below |
| Processors.Walk | src/processing/processor.rs:59-119 | The walk keeps the caller's output keys, touches only processors of this flow and deeper, and leaves alone every output not reached by an Output node in the order |
| Processors.ComputeFlow | src/processing/processor.rs:20-28 | Evaluating a flow keeps the output keys, and every output that no visited Output node writes is just resized to the block |
| Processors.Compute | src/processing/processor.rs:47-57 | With the inputs and outputs type-checked and sized, each unvisited output keeps its type and has block length |
| Processors.StepAtUnfedOutput | src/processing/processor.rs:114-116 | An Output node without fan-in always steps successfully and clears its caller buffer after resizing it |
| Processors.WalkClearsUnfedOutput | src/processing/processor.rs:59-119 | If an Output node without fan-in is in the order and is the only one with its number, a completed walk leaves its caller buffer resized and cleared |
| Processors.ComputeFlowClearsUnfedOutput | src/processing/processor.rs:104-117 | The same for a whole evaluation: a visited Output node without fan-in yields a cleared buffer |
| Processors.FreshOutputKeepsStaleSamples | src/processing/flow.rs:39-43 | Right after `add_output`, evaluating the flow leaves the stale samples `[5]` in the new output's caller buffer |
| Processors.ResortedOutputIsCleared | src/processing/flow.rs:39-43 | If the visit order is re-sorted after adding the Output node, the same evaluation clears the caller buffer to `[0]` |

## Left out

- `sine_osc.rs` numerics are left out: phase accumulation and the sine are floating point. The sine oscillator appears only through its slot types and processor constructor.
- `audio.rs`, `main.rs` and the UI are left out. They are I/O and presentation, outside this core.
- The top-level `Store` facade, the primitive registry and `compute_outplace_prim` are not part of this model. Primitive evaluation is the parameter `prim` of `Processors.ComputeFlow`, and `Prims` supplies concrete ones for the constant and pure processors.
- `RefCell` borrow tracking is left out; buffers are values.
- `Processors.Compute`: the source checks its types and sizes with `debug_assert!` only. The model makes those checks preconditions of the entry point and evaluates nested flows without them, as a release build does.
- Floating point and complex arithmetic are left out. Samples are mathematical integers, so float rounding, NaN and complex multiplication are not modelled.
- Node and edge index reuse by the graph library is left out. Ids come from fresh counters, and incident edges are listed newest first. This matches the library's behaviour as long as no index is reused.
- `Flows.NextNo`: the source's `assert!` that at most 2^32 - 1 slots exist (flow.rs:134) is kept as the precondition `SlotsLeft`; the source panics when all 2^32 numbers are in use.
- `FlowStore.GenNextId` and `PreIncFlowStore.GenNextId` require fewer than 2^64 flows. The source's `assert!` is vacuous on 64-bit targets, and its loop would not end with every id in use.
- `Prims.ConstantCompute`: `fill` on the sampled buffer is not defined by the source. It is modelled as writing the constant into every sample.
- `Prims.MultiplyF32Compute` and `Prims.AddF32Compute`: `pure.rs` calls `update_size` and reads the private `samples` on a typed `SampledBuffer`, which has neither. They are modelled as the evidently intended resize and sample access.
- `Processors.ElementStep`: a primitive result without an output key that it was given falls back to the direct buffer, since the source's references cannot drop a key.
- `Processors.Walk`, `Processors.ComputeFlow` and `Processors.Compute` state the frame and the untouched outputs, not the full contents of each visited output. The contents are stated per step by `Processors.OutputStep` and `Processors.ElementInputs`.
- The first edge of a connected element input is merged into without being resized (processor.rs:62-72).
- `add_element`, `add_input` and `add_output` do not re-sort the visit order (flow.rs:29-43); see the `add_output` finding below.
- The visit order is computed by Kahn's algorithm over ascending node ids, whereas the graph library's `toposort` (flow.rs:106) is a depth-first search; both are topological orders, but they can differ. The order is observable in two ways the model keeps: nodes that nest the same flow id share that flow's one processor (processor.rs:25-26), so the nested buffers one node leaves are what the next one starts from; and the first edge of an element's output slot is only resized, not cleared, before the primitive writes it (processor.rs:78-79), so `Prims.MultiplyF32Compute` and `Prims.AddF32Compute` keep that edge's stale samples beyond the shorter input. Evaluation results are therefore stated for the model's order, not the library's.
- `Prims.MkPrimElementProcessor` and `Prims.ProcessorMatchesDeclaration`: the oscillator's sample rate is `f_nyq * 2` in the source. It is modelled as the wrapping (release-build) product; the debug-build overflow panic is left out.

## Findings

| source | as written | input that shows it | evidently intended | confidence | as-written member | corrected member |
|---|---|---|---|---|---|---|
| src/processing/processor.rs:258 | `SampledBuffer::len` returns `self.len()`, calling itself, so it never returns | any sampled buffer reaching `update_size` (processor.rs:225), e.g. every caller output at the start of a block | the length of the sample vector, `self.samples.len()` | not executed | Buffers.LenAsWrittenOverflows | Buffers.UpdateSize |
| src/processing/flow.rs:137-143 | `next_no` recomputes the same candidate, the last key plus one with wrap-around, in every round, so the loop runs forever when that candidate is in use | a slot map with keys {0, 4294967295} (two slots) | search on from the candidate until a free number is found, which the `assert!` guarantees exists | not executed | Flows.NextNoAsWrittenHangs | Flows.NextNo |
| src/processing/flow.rs:39-43 | `add_output` (like `add_input` and `add_element`) does not recompute the visit order, so the new Output node is not visited until a later edit re-sorts | a valid flow plus `add_output(ty)` giving number `no`, then evaluation with caller output `no` = sampled F32 `[5]` and block size 1: the output stays `[5]` | call `update_visit_order` after adding a node, so an unconnected output is cleared to `[0]` | not executed | Processors.FreshOutputKeepsStaleSamples | Processors.ResortedOutputIsCleared |
