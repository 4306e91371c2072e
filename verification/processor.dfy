/**
 * Per-flow processors: one buffer per edge, and block evaluation as a fold
 * over the flow's visit order. Input nodes broadcast the caller's input,
 * Output nodes mix their fan-in into the caller's output, and an element
 * node sums the fan-in of each input slot into the slot's first edge,
 * computes into the first edge of each output slot, and copies that result
 * to the slot's other edges. A nested flow is evaluated the same way on its
 * own processor; a primitive is evaluated by a function given as parameter.
 */
module Processors {
  import opened Types
  import opened Wrappers
  import opened Buffers
  import opened Dag
  import opened Flows
  import Prims

  type EdgeBuffers = map<EdgeIx, Buffer>
  type Outs = map<OutputNo, Buffer>
  type Ins = map<InputNo, Buffer>

  /** A primitive's block computation: updated outputs, or None where it would panic. */
  type PrimCompute = (Prims.PrimElement, Outs, Ins, nat) -> Option<Outs>

  datatype Processor = Processor(buffers: EdgeBuffers)

  type ProcessorStore = map<FlowId, Processor>

  function NewProcessor(): (p: Processor)
    ensures p.buffers == map[]
  {
    Processor(map[])
  }

  // ---------------------------------------------------------------------
  // Edge buffers

  /** Installs a fresh buffer of the edge's type; the edge must not have one yet. */
  function AddEdgeBuffer(p: Processor, e: EdgeIx, ty: Type): (q: Processor)
    requires e !in p.buffers
    ensures q.buffers.Keys == p.buffers.Keys + {e}
    ensures TestType(q.buffers[e], ty)
    ensures q.buffers[e].SampledBuf? ==> q.buffers[e].samples == []
    ensures q.buffers[e].EventBuf? ==> q.buffers[e].events == []
    ensures forall x | x in p.buffers :: q.buffers[x] == p.buffers[x]
  {
    Processor(p.buffers[e := New(ty)])
  }

  /** Drops the edge's buffer, which must exist, and only that one. */
  function RemoveEdgeBuffer(p: Processor, e: EdgeIx): (q: Processor)
    requires e in p.buffers
    ensures q.buffers.Keys == p.buffers.Keys - {e}
    ensures forall x | x in q.buffers :: q.buffers[x] == p.buffers[x]
  {
    Processor(p.buffers - {e})
  }

  lemma {:induction false} RemoveUndoesAdd(p: Processor, e: EdgeIx, ty: Type)
    requires e !in p.buffers
    ensures RemoveEdgeBuffer(AddEdgeBuffer(p, e, ty), e) == p
  {
    assert RemoveEdgeBuffer(AddEdgeBuffer(p, e, ty), e).buffers == p.buffers;
  }

  // ---------------------------------------------------------------------
  // Fan-in: the first edge's buffer merged with each further one

  function EdgeBufs(bufs: EdgeBuffers, es: seq<EdgeIx>): (bs: seq<Buffer>)
    requires forall e | e in es :: e in bufs
    ensures |bs| == |es| && forall j | 0 <= j < |es| :: bs[j] == bufs[es[j]]
  {
    seq(|es|, j requires 0 <= j < |es| => bufs[es[j]])
  }

  /** The merge of a non-empty list of edge buffers, or None where a merge would be unreachable. */
  function Gather(bufs: EdgeBuffers, es: seq<EdgeIx>): (r: Option<Buffer>)
    requires es != [] && forall e | e in es :: e in bufs
    ensures r.Some? <==> AllSameShape(bufs[es[0]], EdgeBufs(bufs, es)[1..])
    ensures r.Some? ==> SameShape(r.value, bufs[es[0]])
  {
    var bs := EdgeBufs(bufs, es);
    if AllSameShape(bs[0], bs[1..]) then Some(MergeAll(bs[0], bs[1..])) else None
  }

  /** Fan-in of equal-length sampled buffers of one kind is their elementwise sum. */
  lemma {:induction false} FanInSums(bufs: EdgeBuffers, es: seq<EdgeIx>)
    requires es != [] && forall e | e in es :: e in bufs
    requires bufs[es[0]].SampledBuf?
    requires forall j | 0 <= j < |es| ::
      && bufs[es[j]].SampledBuf? && bufs[es[j]].ty == bufs[es[0]].ty
      && |bufs[es[j]].samples| == |bufs[es[0]].samples|
    ensures Gather(bufs, es).Some?
    ensures |Gather(bufs, es).value.samples| == |bufs[es[0]].samples|
    ensures forall i | 0 <= i < |bufs[es[0]].samples| ::
      Gather(bufs, es).value.samples[i] == SumAt(EdgeBufs(bufs, es), i)
  {
    var bs := EdgeBufs(bufs, es);
    assert AllSameShape(bs[0], bs[1..]);
    MergeAllSums(bs[0], bs[1..]);
  }

  /** Fan-in of event buffers of one kind concatenates their events in edge order. */
  lemma {:induction false} FanInConcatenates(bufs: EdgeBuffers, es: seq<EdgeIx>)
    requires es != [] && forall e | e in es :: e in bufs
    requires forall j | 0 <= j < |es| :: bufs[es[j]].EventBuf? && bufs[es[j]].ty == bufs[es[0]].ty
    ensures Gather(bufs, es).Some?
    ensures Gather(bufs, es).value.events == ConcatEvents(EdgeBufs(bufs, es))
  {
    var bs := EdgeBufs(bufs, es);
    assert AllSameShape(bs[0], bs[1..]);
    MergeAllConcatenates(bs[0], bs[1..]);
  }

  // ---------------------------------------------------------------------
  // Input and Output nodes

  /**
   * An Input node: every edge out of its slot 0 receives the caller's
   * buffer for its number, or is cleared when the caller gave none.
   */
  function InputStep(f: Flow, bufs: EdgeBuffers, n: NodeIx, no: InputNo, input: Ins): (r: EdgeBuffers)
    requires IdsBounded(f)
    ensures r.Keys == bufs.Keys
    ensures forall e | e in bufs ::
      r[e] == if e in f.edges && f.edges[e].source == n && f.edges[e].outputNo == OutputNo(0)
              then (if no in input then input[no] else Clear(bufs[e]))
              else bufs[e]
  {
    var es := OutputEdges(f, n, OutputNo(0));
    map e | e in bufs :: if e in es then (if no in input then input[no] else Clear(bufs[e])) else bufs[e]
  }

  /**
   * An Output node: a caller buffer for its number, if given, becomes the
   * fan-in of the edges into slot 0, or is resized and cleared when there
   * are none. Every other caller buffer is untouched.
   */
  function OutputStep(f: Flow, bufs: EdgeBuffers, n: NodeIx, no: OutputNo, out: Outs, sz: nat): (r: Option<Outs>)
    requires IdsBounded(f) && f.edges.Keys <= bufs.Keys
    ensures no !in out ==> r == Some(out)
    ensures r.Some? ==> r.value.Keys == out.Keys
    ensures r.Some? ==> forall k | k in out && k != no :: r.value[k] == out[k]
    ensures no in out && InputEdges(f, n, InputNo(0)) == [] ==>
      r == Some(out[no := Clear(UpdateSize(out[no], sz))])
    ensures no in out && InputEdges(f, n, InputNo(0)) != [] ==>
      var g := Gather(bufs, InputEdges(f, n, InputNo(0)));
      && (r.Some? <==> g.Some?)
      && (r.Some? ==> r.value[no] == g.value)
  {
    if no !in out then Some(out)
    else
      var sized := UpdateSize(out[no], sz);
      var es := InputEdges(f, n, InputNo(0));
      if es == [] then Some(out[no := Clear(sized)])
      else
        var g :- Gather(bufs, es);
        Some(out[no := g])
  }

  // ---------------------------------------------------------------------
  // Element nodes

  lemma {:induction false} SlotConnected(f: Flow, n: NodeIx)
    requires IdsBounded(f)
    ensures forall k :: InputEdges(f, n, k) != [] <==>
      exists e :: e in f.edges && f.edges[e].target == n && f.edges[e].inputNo == k
    ensures forall k :: OutputEdges(f, n, k) != [] <==>
      exists e :: e in f.edges && f.edges[e].source == n && f.edges[e].outputNo == k
  {
    forall k | InputEdges(f, n, k) != []
      ensures exists e :: e in f.edges && f.edges[e].target == n && f.edges[e].inputNo == k
    {
      assert InputEdges(f, n, k)[0] in InputEdges(f, n, k);
    }
    forall k | OutputEdges(f, n, k) != []
      ensures exists e :: e in f.edges && f.edges[e].source == n && f.edges[e].outputNo == k
    {
      assert OutputEdges(f, n, k)[0] in OutputEdges(f, n, k);
    }
  }

  /** The input slots that have at least one edge into `n`. */
  function LiveInputs(f: Flow, n: NodeIx, slots: set<InputNo>): (live: set<InputNo>)
    requires IdsBounded(f)
    ensures forall k :: k in live <==> k in slots && exists e :: e in f.edges && f.edges[e].target == n && f.edges[e].inputNo == k
  {
    SlotConnected(f, n);
    set k | k in slots && InputEdges(f, n, k) != []
  }

  /** The output slots that have at least one edge out of `n`. */
  function LiveOutputs(f: Flow, n: NodeIx, slots: set<OutputNo>): (live: set<OutputNo>)
    requires IdsBounded(f)
    ensures forall k :: k in live <==> k in slots && exists e :: e in f.edges && f.edges[e].source == n && f.edges[e].outputNo == k
  {
    SlotConnected(f, n);
    set k | k in slots && OutputEdges(f, n, k) != []
  }

  predicate InputsMergeable(f: Flow, bufs: EdgeBuffers, n: NodeIx, slots: set<InputNo>)
    requires IdsBounded(f) && f.edges.Keys <= bufs.Keys
  {
    forall k | k in LiveInputs(f, n, slots) :: Gather(bufs, InputEdges(f, n, k)).Some?
  }

  /** The element's input buffers: the fan-in of each connected slot. */
  function ElementInputs(f: Flow, bufs: EdgeBuffers, n: NodeIx, slots: set<InputNo>): (ins: Ins)
    requires IdsBounded(f) && f.edges.Keys <= bufs.Keys
    requires InputsMergeable(f, bufs, n, slots)
    ensures ins.Keys == LiveInputs(f, n, slots)
    ensures forall k | k in ins :: Gather(bufs, InputEdges(f, n, k)) == Some(ins[k])
  {
    map k | k in LiveInputs(f, n, slots) :: Gather(bufs, InputEdges(f, n, k)).value
  }

  /** The edge is the first of the edges into its slot of `n`. */
  predicate IsInputHead(f: Flow, n: NodeIx, e: EdgeIx)
    requires IdsBounded(f)
  {
    e in f.edges && f.edges[e].target == n && InputEdges(f, n, f.edges[e].inputNo)[0] == e
  }

  /** The first edge of each connected input slot accumulates the slot's fan-in. */
  function WithMergedHeads(f: Flow, bufs: EdgeBuffers, n: NodeIx, ins: Ins): (r: EdgeBuffers)
    requires IdsBounded(f)
    ensures r.Keys == bufs.Keys
    ensures forall e | e in bufs ::
      r[e] == if IsInputHead(f, n, e) && f.edges[e].inputNo in ins then ins[f.edges[e].inputNo] else bufs[e]
  {
    map e | e in bufs :: if IsInputHead(f, n, e) && f.edges[e].inputNo in ins then ins[f.edges[e].inputNo] else bufs[e]
  }

  /** The buffers an element computes into: each connected output slot's first edge, resized. */
  function DirectOutputs(f: Flow, bufs: EdgeBuffers, n: NodeIx, slots: set<OutputNo>, sz: nat): (direct: Outs)
    requires IdsBounded(f) && f.edges.Keys <= bufs.Keys
    ensures direct.Keys == LiveOutputs(f, n, slots)
    ensures forall k | k in direct :: direct[k] == UpdateSize(bufs[OutputEdges(f, n, k)[0]], sz)
  {
    map k | k in LiveOutputs(f, n, slots) :: UpdateSize(bufs[OutputEdges(f, n, k)[0]], sz)
  }

  /** What a connected output slot holds after the element ran. */
  function Written(direct: Outs, res: Outs, k: OutputNo): Buffer
    requires k in direct
  {
    if k in res then res[k] else direct[k]
  }

  /** Every edge out of a connected output slot takes the slot's computed buffer. */
  function Scatter(f: Flow, bufs: EdgeBuffers, n: NodeIx, direct: Outs, res: Outs): (r: EdgeBuffers)
    ensures r.Keys == bufs.Keys
    ensures forall e | e in bufs ::
      r[e] == if e in f.edges && f.edges[e].source == n && f.edges[e].outputNo in direct
              then Written(direct, res, f.edges[e].outputNo) else bufs[e]
  {
    map e | e in bufs ::
      if e in f.edges && f.edges[e].source == n && f.edges[e].outputNo in direct
      then Written(direct, res, f.edges[e].outputNo) else bufs[e]
  }

  /** All edges leaving one of the given output slots of `n` hold equal buffers. */
  ghost predicate FanOutCopied(f: Flow, bufs: EdgeBuffers, n: NodeIx, slots: set<OutputNo>)
  {
    forall e1, e2 | e1 in f.edges && e2 in f.edges && e1 in bufs && e2 in bufs
      && f.edges[e1].source == n && f.edges[e2].source == n
      && f.edges[e1].outputNo == f.edges[e2].outputNo && f.edges[e1].outputNo in slots ::
      bufs[e1] == bufs[e2]
  }

  /** After scattering, the edges of every connected output slot hold one buffer. */
  lemma {:induction false} ScatterCopies(f: Flow, bufs: EdgeBuffers, n: NodeIx, slots: set<OutputNo>, direct: Outs, res: Outs)
    requires IdsBounded(f) && direct.Keys == LiveOutputs(f, n, slots)
    ensures FanOutCopied(f, Scatter(f, bufs, n, direct, res), n, slots)
  {
  }

  /**
   * After the merge and the scatter, the first edge of each connected
   * input slot holds the slot's fan-in as it was before the step (an edge
   * that is also one of the element's output edges would be a self-loop).
   */
  lemma {:induction false} HeadsHoldFanIn(f: Flow, bufs: EdgeBuffers, n: NodeIx, slots: set<InputNo>,
                                          direct: Outs, res: Outs)
    requires IdsBounded(f) && f.edges.Keys <= bufs.Keys && InputsMergeable(f, bufs, n, slots)
    ensures var after := Scatter(f, WithMergedHeads(f, bufs, n, ElementInputs(f, bufs, n, slots)), n, direct, res);
      forall h | IsInputHead(f, n, h) && f.edges[h].source != n && f.edges[h].inputNo in slots ::
        Gather(bufs, InputEdges(f, n, f.edges[h].inputNo)) == Some(after[h])
  {
    var ins := ElementInputs(f, bufs, n, slots);
    forall h | IsInputHead(f, n, h) && f.edges[h].source != n && f.edges[h].inputNo in slots
      ensures f.edges[h].inputNo in ins
    {
      SlotConnected(f, n);
    }
  }

  // ---------------------------------------------------------------------
  // Processor store consistency and framing

  /** What evaluation needs of a flow: bounded ids and a visit order of its own nodes. */
  predicate Runnable(f: Flow)
  {
    IdsBounded(f) && Elems(f.visitOrder) <= f.nodes.Keys
  }

  lemma {:induction false} ValidIsRunnable(f: Flow)
    requires Valid(f)
    ensures Runnable(f)
  {
  }

  /**
   * Nesting is well-founded, every flow is runnable and has a processor,
   * and every edge has a buffer.
   */
  ghost predicate Consistent(flows: map<FlowId, Flow>, procs: ProcessorStore, rank: map<FlowId, nat>)
  {
    && WellNested(flows, rank)
    && forall id | id in flows ::
         && Runnable(flows[id])
         && id in procs
         && flows[id].edges.Keys <= procs[id].buffers.Keys
  }

  /**
   * `procs'` has the same processors and buffer keys as `procs`, and only
   * processors of flows ranked below `r` differ.
   */
  ghost predicate FramedUnder(procs: ProcessorStore, procs': ProcessorStore, rank: map<FlowId, nat>, r: nat)
  {
    && procs'.Keys == procs.Keys
    && forall j | j in procs ::
         && procs'[j].buffers.Keys == procs[j].buffers.Keys
         && ((j in rank && rank[j] < r) || procs'[j] == procs[j])
  }

  lemma {:induction false} FramedKeepsConsistent(flows: map<FlowId, Flow>, procs: ProcessorStore, procs': ProcessorStore, rank: map<FlowId, nat>, r: nat)
    requires Consistent(flows, procs, rank) && FramedUnder(procs, procs', rank, r)
    ensures Consistent(flows, procs', rank)
  {
  }

  lemma {:induction false} FramedTrans(a: ProcessorStore, b: ProcessorStore, c: ProcessorStore, rank: map<FlowId, nat>, r1: nat, r2: nat, r: nat)
    requires FramedUnder(a, b, rank, r1) && FramedUnder(b, c, rank, r2) && r1 <= r && r2 <= r
    ensures FramedUnder(a, c, rank, r)
  {
  }

  /** A flow an element node refers to is stored and ranked below the enclosing flow. */
  lemma {:induction false} NestedRanksBelow(flows: map<FlowId, Flow>, rank: map<FlowId, nat>, id: FlowId, n: NodeIx)
    requires WellNested(flows, rank) && id in flows && n in flows[id].nodes
    ensures id in rank
    ensures flows[id].nodes[n].ElementNode? && flows[id].nodes[n].element.FlowElem? ==>
      var nested := flows[id].nodes[n].element.flow;
      nested in flows && nested in rank && rank[nested] < rank[id]
  {
    assert NestsBelow(flows[id], flows, rank, rank[id] + 1);
  }

  /** Replacing one flow's buffers by buffers on the same edges. */
  lemma {:induction false} ReplaceBuffers(flows: map<FlowId, Flow>, procs: ProcessorStore, rank: map<FlowId, nat>,
                                          id: FlowId, bufs: EdgeBuffers)
    requires Consistent(flows, procs, rank) && id in flows && bufs.Keys == procs[id].buffers.Keys
    ensures id in rank
    ensures FramedUnder(procs, procs[id := Processor(bufs)], rank, rank[id] + 1)
    ensures Consistent(flows, procs[id := Processor(bufs)], rank)
  {
    FramedKeepsConsistent(flows, procs, procs[id := Processor(bufs)], rank, rank[id] + 1);
  }

  /**
   * A nested evaluation framed below the rank of `id` leaves `id`'s
   * processor alone, so writing `id`'s buffers back frames the whole step.
   */
  lemma {:induction false} WriteBackFrame(procs: ProcessorStore, procs1: ProcessorStore, procs2: ProcessorStore,
                                          rank: map<FlowId, nat>, id: FlowId, bufs: EdgeBuffers)
    requires id in procs && id in rank
    requires FramedUnder(procs, procs1, rank, rank[id] + 1) && FramedUnder(procs1, procs2, rank, rank[id])
    requires bufs.Keys == procs[id].buffers.Keys
    ensures FramedUnder(procs, procs2[id := Processor(bufs)], rank, rank[id] + 1)
  {
  }

  /** The visit order passes an Output node of number `k`. */
  ghost predicate VisitsOutput(f: Flow, order: seq<NodeIx>, k: OutputNo)
  {
    exists i | 0 <= i < |order| :: order[i] in f.nodes && f.nodes[order[i]].Output? && f.nodes[order[i]].outNo == k
  }

  /** An Output node is visited at the head of the order or in its tail. */
  lemma {:induction false} VisitsOutputCons(f: Flow, order: seq<NodeIx>, k: OutputNo)
    requires order != [] && order[0] in f.nodes
    ensures VisitsOutput(f, order, k) <==>
      (f.nodes[order[0]].Output? && f.nodes[order[0]].outNo == k) || VisitsOutput(f, order[1..], k)
  {
    if VisitsOutput(f, order[1..], k) {
      var i :| 0 <= i < |order| - 1 && order[1..][i] in f.nodes && f.nodes[order[1..][i]].Output? && f.nodes[order[1..][i]].outNo == k;
      assert order[i + 1] == order[1..][i];
    }
    if VisitsOutput(f, order, k) && !(f.nodes[order[0]].Output? && f.nodes[order[0]].outNo == k) {
      var i :| 0 <= i < |order| && order[i] in f.nodes && f.nodes[order[i]].Output? && f.nodes[order[i]].outNo == k;
      assert i > 0 && order[1..][i - 1] == order[i];
    }
  }

  // ---------------------------------------------------------------------
  // Block evaluation

  /**
   * Evaluates flow `id` for one block of `sz` samples: every caller output
   * is first resized to `sz`, then the nodes are stepped in visit order.
   * Caller outputs for which no Output node is visited end resized only,
   * and only processors of `id` and the flows nested in it change.
   */
  function ComputeFlow(id: FlowId, out: Outs, input: Ins, sz: nat, flows: map<FlowId, Flow>,
                       procs: ProcessorStore, prim: PrimCompute, ghost rank: map<FlowId, nat>)
    : (res: Option<(ProcessorStore, Outs)>)
    requires Consistent(flows, procs, rank) && id in flows
    ensures res.Some? ==> FramedUnder(procs, res.value.0, rank, rank[id] + 1) && res.value.1.Keys == out.Keys
    ensures res.Some? ==> forall k | k in out && !VisitsOutput(flows[id], flows[id].visitOrder, k) ::
      res.value.1[k] == UpdateSize(out[k], sz)
    decreases rank[id], 4, 0
  {
    var sized := map k | k in out :: UpdateSize(out[k], sz);
    Walk(id, flows[id].visitOrder, sized, input, sz, flows, procs, prim, rank)
  }

  /** Steps the nodes of `order` in turn, threading processors and caller outputs. */
  function Walk(id: FlowId, order: seq<NodeIx>, out: Outs, input: Ins, sz: nat, flows: map<FlowId, Flow>,
                procs: ProcessorStore, prim: PrimCompute, ghost rank: map<FlowId, nat>)
    : (res: Option<(ProcessorStore, Outs)>)
    requires Consistent(flows, procs, rank) && id in flows
    requires forall i | 0 <= i < |order| :: order[i] in flows[id].nodes
    ensures res.Some? ==> FramedUnder(procs, res.value.0, rank, rank[id] + 1) && res.value.1.Keys == out.Keys
    ensures res.Some? ==> forall k | k in out && !VisitsOutput(flows[id], order, k) :: res.value.1[k] == out[k]
    decreases rank[id], 3, |order|
  {
    if order == [] then Some((procs, out))
    else
      var s :- Step(id, order[0], out, input, sz, flows, procs, prim, rank);
      FramedKeepsConsistent(flows, procs, s.0, rank, rank[id] + 1);
      var w :- Walk(id, order[1..], s.1, input, sz, flows, s.0, prim, rank);
      assert FramedUnder(procs, w.0, rank, rank[id] + 1) by {
        FramedTrans(procs, s.0, w.0, rank, rank[id] + 1, rank[id] + 1, rank[id] + 1);
      }
      assert forall k | k in out && !VisitsOutput(flows[id], order, k) :: w.1[k] == out[k] by {
        forall k | k in out && !VisitsOutput(flows[id], order, k)
          ensures w.1[k] == out[k]
        {
          VisitsOutputCons(flows[id], order, k);
        }
      }
      Some(w)
  }

  /** Steps one node: dispatches on Input, Output and Element nodes. */
  function Step(id: FlowId, n: NodeIx, out: Outs, input: Ins, sz: nat, flows: map<FlowId, Flow>,
                procs: ProcessorStore, prim: PrimCompute, ghost rank: map<FlowId, nat>)
    : (res: Option<(ProcessorStore, Outs)>)
    requires Consistent(flows, procs, rank) && id in flows && n in flows[id].nodes
    ensures res.Some? ==> FramedUnder(procs, res.value.0, rank, rank[id] + 1) && res.value.1.Keys == out.Keys
    ensures res.Some? ==> forall k | k in out && !(flows[id].nodes[n].Output? && flows[id].nodes[n].outNo == k) ::
      res.value.1[k] == out[k]
    decreases rank[id], 2, 0
  {
    var f := flows[id];
    match f.nodes[n]
    case Input(no, _) =>
      Some((procs[id := Processor(InputStep(f, procs[id].buffers, n, no, input))], out))
    case Output(no, _) =>
      var o :- OutputStep(f, procs[id].buffers, n, no, out, sz);
      Some((procs, o))
    case ElementNode(e) =>
      ElementStep(id, n, e, out, input, sz, flows, procs, prim, rank)
  }

  /**
   * Steps an element node: sums each connected input slot's fan-in into
   * the slot's first edge, computes into the resized first edge of each
   * connected output slot, and copies the result to every edge of that slot.
   * The caller outputs are untouched.
   */
  function ElementStep(id: FlowId, n: NodeIx, e: Element, out: Outs, input: Ins, sz: nat, flows: map<FlowId, Flow>,
                       procs: ProcessorStore, prim: PrimCompute, ghost rank: map<FlowId, nat>)
    : (res: Option<(ProcessorStore, Outs)>)
    requires Consistent(flows, procs, rank) && id in flows && n in flows[id].nodes
    requires flows[id].nodes[n] == ElementNode(e)
    ensures res.Some? ==> FramedUnder(procs, res.value.0, rank, rank[id] + 1) && res.value.1 == out
    ensures res.Some? ==> FanOutCopied(flows[id], res.value.0[id].buffers, n, ElementOutputNos(e, flows))
    ensures res.Some? ==> forall h | IsInputHead(flows[id], n, h) && flows[id].edges[h].source != n
      && flows[id].edges[h].inputNo in ElementInputNos(e, flows) ::
      Gather(procs[id].buffers, InputEdges(flows[id], n, flows[id].edges[h].inputNo)) == Some(res.value.0[id].buffers[h])
    decreases rank[id], 1, 0
  {
    var f := flows[id];
    var bufs := procs[id].buffers;
    NestedRanksBelow(flows, rank, id, n);
    var inSlots := ElementInputNos(e, flows);
    if !InputsMergeable(f, bufs, n, inSlots) then None
    else
      var ins := ElementInputs(f, bufs, n, inSlots);
      var bufs1 := WithMergedHeads(f, bufs, n, ins);
      var direct := DirectOutputs(f, bufs1, n, ElementOutputNos(e, flows), sz);
      var procs1 := procs[id := Processor(bufs1)];
      ReplaceBuffers(flows, procs, rank, id, bufs1);
      var r :- ElementCompute(e, direct, ins, sz, flows, procs1, prim, rank, rank[id]);
      var bufs2 := Scatter(f, bufs1, n, direct, r.1);
      ScatterCopies(f, bufs1, n, ElementOutputNos(e, flows), direct, r.1);
      HeadsHoldFanIn(f, bufs, n, inSlots, direct, r.1);
      WriteBackFrame(procs, procs1, r.0, rank, id, bufs2);
      Some((r.0[id := Processor(bufs2)], out))
  }

  /**
   * An element's computation: a nested flow is evaluated on its own
   * processor, a primitive by `prim`.
   */
  function ElementCompute(e: Element, out: Outs, ins: Ins, sz: nat, flows: map<FlowId, Flow>,
                          procs: ProcessorStore, prim: PrimCompute, ghost rank: map<FlowId, nat>, ghost r: nat)
    : (res: Option<(ProcessorStore, Outs)>)
    requires Consistent(flows, procs, rank)
    requires e.FlowElem? ==> e.flow in flows && e.flow in rank && rank[e.flow] < r
    ensures e.Prim? ==> res == (var o :- prim(e.prim, out, ins, sz); Some((procs, o)))
    ensures res.Some? ==> FramedUnder(procs, res.value.0, rank, r)
    ensures res.Some? && e.FlowElem? ==> res.value.1.Keys == out.Keys
    decreases r, 0, 0
  {
    match e
    case Prim(p) =>
      var o :- prim(p, out, ins, sz);
      Some((procs, o))
    case FlowElem(fid) =>
      ComputeFlow(fid, out, ins, sz, flows, procs, prim, rank)
  }

  // ---------------------------------------------------------------------
  // Entry point

  /** Each given buffer passes the type test for its declared slot. */
  predicate InputTypesMatch(input: Ins, types: map<InputNo, Type>)
  {
    forall k | k in types && k in input :: TestType(input[k], types[k])
  }

  predicate OutputTypesMatch(out: Outs, types: map<OutputNo, Type>)
  {
    forall k | k in types && k in out :: TestType(out[k], types[k])
  }

  /** Every given sampled input holds exactly one block. */
  predicate InputsSized(input: Ins, sz: nat)
  {
    forall k | k in input && input[k].SampledBuf? :: |input[k].samples| == sz
  }

  /**
   * Evaluates flow `id` for one block, given caller buffers that match the
   * flow's declared slots and sampled inputs of length `sz`. Caller outputs
   * keep their slots, an output no Output node writes ends resized to `sz`,
   * and only the processors of `id` and of flows nested in it change.
   */
  function Compute(id: FlowId, out: Outs, input: Ins, sz: nat, flows: map<FlowId, Flow>,
                   procs: ProcessorStore, prim: PrimCompute, ghost rank: map<FlowId, nat>)
    : (res: Option<(ProcessorStore, Outs)>)
    requires Consistent(flows, procs, rank) && id in flows
    requires InputTypesMatch(input, flows[id].inputTypes)
    requires OutputTypesMatch(out, flows[id].outputTypes)
    requires InputsSized(input, sz)
    ensures res.Some? ==> FramedUnder(procs, res.value.0, rank, rank[id] + 1) && res.value.1.Keys == out.Keys
    ensures res.Some? ==> forall k | k in out && !VisitsOutput(flows[id], flows[id].visitOrder, k) ::
      && SameShape(res.value.1[k], out[k])
      && (out[k].SampledBuf? ==> |res.value.1[k].samples| == sz)
  {
    ComputeFlow(id, out, input, sz, flows, procs, prim, rank)
  }

  // ---------------------------------------------------------------------
  // Output nodes without fan-in

  /** Resizing a cleared buffer of the block size and clearing it again changes nothing. */
  lemma {:induction false} ClearSizedIsStable(b: Buffer, sz: nat)
    ensures Clear(UpdateSize(Clear(UpdateSize(b, sz)), sz)) == Clear(UpdateSize(b, sz))
  {
    var c := Clear(UpdateSize(b, sz));
    assert UpdateSize(c, sz) == c;
    ClearIdempotent(UpdateSize(b, sz), Type.Event(PrimType.F32));
  }

  /** Stepping an Output node without incoming edges clears the caller's buffer for it. */
  lemma {:induction false} StepAtUnfedOutput(id: FlowId, n: NodeIx, out: Outs, input: Ins, sz: nat,
                                             flows: map<FlowId, Flow>, procs: ProcessorStore, prim: PrimCompute,
                                             rank: map<FlowId, nat>, no: OutputNo)
    requires Consistent(flows, procs, rank) && id in flows && n in flows[id].nodes
    requires flows[id].nodes[n].Output? && flows[id].nodes[n].outNo == no && no in out
    requires InputEdges(flows[id], n, InputNo(0)) == []
    ensures var s := Step(id, n, out, input, sz, flows, procs, prim, rank);
      s.Some? && s.value.1[no] == Clear(UpdateSize(out[no], sz))
  {
  }

  /** A successful walk is a successful first step followed by a walk of the rest. */
  lemma {:induction false} WalkUnfold(id: FlowId, order: seq<NodeIx>, out: Outs, input: Ins, sz: nat,
                                      flows: map<FlowId, Flow>, procs: ProcessorStore, prim: PrimCompute, rank: map<FlowId, nat>)
    requires Consistent(flows, procs, rank) && id in flows && order != []
    requires forall i | 0 <= i < |order| :: order[i] in flows[id].nodes
    ensures var res := Walk(id, order, out, input, sz, flows, procs, prim, rank);
      var s := Step(id, order[0], out, input, sz, flows, procs, prim, rank);
      res.Some? ==> (s.Some? && Consistent(flows, s.value.0, rank) &&
        res == Walk(id, order[1..], s.value.1, input, sz, flows, s.value.0, prim, rank))
  {
    var s := Step(id, order[0], out, input, sz, flows, procs, prim, rank);
    if s.Some? {
      FramedKeepsConsistent(flows, procs, s.value.0, rank, rank[id] + 1);
    }
  }

  /**
   * A walk that visits the only Output node of number `no`, which has no
   * incoming edges, leaves the caller's buffer `no` resized and cleared,
   * whatever the other nodes do.
   */
  lemma {:induction false} WalkClearsUnfedOutput(id: FlowId, order: seq<NodeIx>, out: Outs, input: Ins, sz: nat,
                                                 flows: map<FlowId, Flow>, procs: ProcessorStore, prim: PrimCompute,
                                                 rank: map<FlowId, nat>, n: NodeIx, no: OutputNo)
    requires Consistent(flows, procs, rank) && id in flows
    requires forall i | 0 <= i < |order| :: order[i] in flows[id].nodes
    requires n in order && flows[id].nodes[n].Output? && flows[id].nodes[n].outNo == no && no in out
    requires InputEdges(flows[id], n, InputNo(0)) == []
    requires forall m | m in flows[id].nodes && flows[id].nodes[m].Output? && flows[id].nodes[m].outNo == no :: m == n
    ensures var res := Walk(id, order, out, input, sz, flows, procs, prim, rank);
      res.Some? ==> res.value.1[no] == Clear(UpdateSize(out[no], sz))
    decreases |order|, 1
  {
    if order[0] == n {
      ClearsAtHead(id, order, out, input, sz, flows, procs, prim, rank, n, no);
    } else {
      ClearsAfterHead(id, order, out, input, sz, flows, procs, prim, rank, n, no);
    }
  }

  /** The walk starts at the unfed Output node: it clears, and a later visit clears again. */
  lemma {:induction false} ClearsAtHead(id: FlowId, order: seq<NodeIx>, out: Outs, input: Ins, sz: nat,
                                                 flows: map<FlowId, Flow>, procs: ProcessorStore, prim: PrimCompute,
                                                 rank: map<FlowId, nat>, n: NodeIx, no: OutputNo)
    requires Consistent(flows, procs, rank) && id in flows
    requires forall i | 0 <= i < |order| :: order[i] in flows[id].nodes
    requires n in order && flows[id].nodes[n].Output? && flows[id].nodes[n].outNo == no && no in out
    requires InputEdges(flows[id], n, InputNo(0)) == []
    requires forall m | m in flows[id].nodes && flows[id].nodes[m].Output? && flows[id].nodes[m].outNo == no :: m == n
    requires order[0] == n
    ensures var res := Walk(id, order, out, input, sz, flows, procs, prim, rank);
      res.Some? ==> res.value.1[no] == Clear(UpdateSize(out[no], sz))
    decreases |order|, 0
  {
    var s := Step(id, order[0], out, input, sz, flows, procs, prim, rank);
    WalkUnfold(id, order, out, input, sz, flows, procs, prim, rank);
    StepAtUnfedOutput(id, n, out, input, sz, flows, procs, prim, rank, no);
    if Walk(id, order, out, input, sz, flows, procs, prim, rank).Some? {
      if n in order[1..] {
        WalkClearsUnfedOutput(id, order[1..], s.value.1, input, sz, flows, s.value.0, prim, rank, n, no);
        ClearSizedIsStable(out[no], sz);
      } else {
        assert !VisitsOutput(flows[id], order[1..], no);
      }
    }
  }

  /** The walk starts elsewhere: the first step leaves buffer `no` alone. */
  lemma {:induction false} ClearsAfterHead(id: FlowId, order: seq<NodeIx>, out: Outs, input: Ins, sz: nat,
                                                 flows: map<FlowId, Flow>, procs: ProcessorStore, prim: PrimCompute,
                                                 rank: map<FlowId, nat>, n: NodeIx, no: OutputNo)
    requires Consistent(flows, procs, rank) && id in flows
    requires forall i | 0 <= i < |order| :: order[i] in flows[id].nodes
    requires n in order && flows[id].nodes[n].Output? && flows[id].nodes[n].outNo == no && no in out
    requires InputEdges(flows[id], n, InputNo(0)) == []
    requires forall m | m in flows[id].nodes && flows[id].nodes[m].Output? && flows[id].nodes[m].outNo == no :: m == n
    requires order[0] != n
    ensures var res := Walk(id, order, out, input, sz, flows, procs, prim, rank);
      res.Some? ==> res.value.1[no] == Clear(UpdateSize(out[no], sz))
    decreases |order|, 0
  {
    var s := Step(id, order[0], out, input, sz, flows, procs, prim, rank);
    WalkUnfold(id, order, out, input, sz, flows, procs, prim, rank);
    if Walk(id, order, out, input, sz, flows, procs, prim, rank).Some? {
      assert s.value.1[no] == out[no];
      PosTail(order, n);
      WalkClearsUnfedOutput(id, order[1..], s.value.1, input, sz, flows, s.value.0, prim, rank, n, no);
    }
  }

  /**
   * Evaluating a flow whose visit order holds the only Output node of
   * number `no`, with no incoming edges, clears the caller's buffer `no`.
   */
  lemma {:induction false} ComputeFlowClearsUnfedOutput(id: FlowId, out: Outs, input: Ins, sz: nat,
                                                        flows: map<FlowId, Flow>, procs: ProcessorStore, prim: PrimCompute,
                                                        rank: map<FlowId, nat>, n: NodeIx, no: OutputNo)
    requires Consistent(flows, procs, rank) && id in flows
    requires n in flows[id].visitOrder && flows[id].nodes[n].Output? && flows[id].nodes[n].outNo == no && no in out
    requires InputEdges(flows[id], n, InputNo(0)) == []
    requires forall m | m in flows[id].nodes && flows[id].nodes[m].Output? && flows[id].nodes[m].outNo == no :: m == n
    ensures var res := ComputeFlow(id, out, input, sz, flows, procs, prim, rank);
      res.Some? ==> res.value.1[no] == Clear(UpdateSize(out[no], sz))
  {
    var order := flows[id].visitOrder;
    var sized := map k | k in out :: UpdateSize(out[k], sz);
    assert forall i | 0 <= i < |order| :: order[i] in flows[id].nodes by {
      assert Elems(order) <= flows[id].nodes.Keys;
    }
    WalkClearsUnfedOutput(id, order, sized, input, sz, flows, procs, prim, rank, n, no);
    UpdateSizeIdempotent(out[no], sz);
  }

  /** The only Output node of number `no`, left out of `order`, is not visited. */
  lemma {:induction false} UnlistedOutputNotVisited(f: Flow, order: seq<NodeIx>, n: NodeIx, no: OutputNo)
    requires n !in order
    requires forall m | m in f.nodes && f.nodes[m].Output? && f.nodes[m].outNo == no :: m == n
    ensures !VisitsOutput(f, order, no)
  {
  }

  /**
   * As written, an Output node added to a flow is not visited until the
   * next re-sort: evaluating the flow right away leaves stale samples in
   * the caller's buffer instead of clearing it.
   */
  lemma {:induction false} FreshOutputKeepsStaleSamples(id: FlowId, f: Flow, ty: Type, input: Ins,
                                                        flows: map<FlowId, Flow>, procs: ProcessorStore, prim: PrimCompute,
                                                        rank: map<FlowId, nat>)
    requires Valid(f) && SlotsLeft(OutputKeys(f.outputTypes))
    requires Consistent(flows, procs, rank) && id in flows && flows[id] == AddOutput(f, ty).0
    ensures var no := AddOutput(f, ty).1;
      var res := ComputeFlow(id, map[no := SampledBuf(PrimType.F32, [5])], input, 1, flows, procs, prim, rank);
      res.Some? ==> res.value.1[no] == SampledBuf(PrimType.F32, [5])
  {
    var added := AddOutput(f, ty);
    AddOutputSkipsVisit(f, ty);
    UnlistedOutputNotVisited(added.0, added.0.visitOrder, added.2, added.1);
    assert UpdateSize(SampledBuf(PrimType.F32, [5]), 1) == SampledBuf(PrimType.F32, [5]);
  }

  /**
   * With the visit order re-sorted after adding the Output node, evaluation
   * clears the caller's buffer for it, as for every Output node without
   * incoming edges.
   */
  lemma {:induction false} ResortedOutputIsCleared(id: FlowId, f: Flow, ty: Type, input: Ins,
                                                   flows: map<FlowId, Flow>, procs: ProcessorStore, prim: PrimCompute,
                                                   rank: map<FlowId, nat>)
    requires Valid(f) && SlotsLeft(OutputKeys(f.outputTypes))
    requires Consistent(flows, procs, rank) && id in flows && flows[id] == AddOutputResorted(f, ty).0
    ensures var no := AddOutputResorted(f, ty).1;
      var res := ComputeFlow(id, map[no := SampledBuf(PrimType.F32, [5])], input, 1, flows, procs, prim, rank);
      res.Some? ==> res.value.1[no] == SampledBuf(PrimType.F32, [0])
  {
    var added := AddOutputResorted(f, ty);
    var out := map[added.1 := SampledBuf(PrimType.F32, [5])];
    ResortedOutputUnfed(f, ty);
    ComputeFlowClearsUnfedOutput(id, out, input, 1, flows, procs, prim, rank, added.2, added.1);
    ClearedSample();
  }

  lemma ClearedSample()
    ensures Clear(UpdateSize(SampledBuf(PrimType.F32, [5]), 1)) == SampledBuf(PrimType.F32, [0])
  {
    assert UpdateSize(SampledBuf(PrimType.F32, [5]), 1) == SampledBuf(PrimType.F32, [5]);
  }
}
