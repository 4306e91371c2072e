/**
 * A flow: a typed directed acyclic graph of nodes (flow-local inputs,
 * flow-local outputs, elements) and edges, with a cached topological visit
 * order and the flow's declared input/output slot maps. Elements are either
 * primitives or references to nested flows, whose slot maps they delegate to.
 *
 * Nodes and edges are kept in maps keyed by ids allocated from counters;
 * the graph's arcs are the (source, target) pairs of the edges.
 */
module Flows {
  import opened Types
  import opened Wrappers
  import opened Dag
  import Prims

  type NodeIx = nat
  type EdgeIx = nat

  /** The identifier of a flow in the flow arena. */
  datatype FlowId = FlowId(id: u64)

  /** A node's payload: a primitive, or a nested flow by reference. */
  datatype Element = FlowElem(flow: FlowId) | Prim(prim: Prims.PrimElement)

  datatype Node =
    | ElementNode(element: Element)
    | Input(inNo: InputNo, ty: Type)
    | Output(outNo: OutputNo, ty: Type)

  /** An edge from `outputNo` of `source` to `inputNo` of `target`, typed once at creation. */
  datatype Edge = Edge(source: NodeIx, target: NodeIx, outputNo: OutputNo, inputNo: InputNo, ty: Type)

  datatype EdgeError = WouldCycle | TypeMismatch

  datatype Flow = Flow(
    nodes: map<NodeIx, Node>,
    edges: map<EdgeIx, Edge>,
    nextNode: nat,
    nextEdge: nat,
    visitOrder: seq<NodeIx>,
    inputTypes: map<InputNo, Type>,
    outputTypes: map<OutputNo, Type>)

  /** The graph's arcs. */
  function ArcsOf(edges: map<EdgeIx, Edge>): Arcs
  {
    set e | e in edges :: (edges[e].source, edges[e].target)
  }

  // ---------------------------------------------------------------------
  // Flow invariant

  /** Each Input node is registered under its number, and numbers are unique. */
  ghost predicate InputsInSync(f: Flow)
  {
    && (forall n | n in f.nodes && f.nodes[n].Input? ::
          f.nodes[n].inNo in f.inputTypes && f.inputTypes[f.nodes[n].inNo] == f.nodes[n].ty)
    && (forall no | no in f.inputTypes :: exists n :: n in f.nodes && f.nodes[n] == Input(no, f.inputTypes[no]))
    && (forall n, m | n in f.nodes && m in f.nodes && f.nodes[n].Input? && f.nodes[m].Input?
          && f.nodes[n].inNo == f.nodes[m].inNo :: n == m)
  }

  /** Each Output node is registered under its number, and numbers are unique. */
  ghost predicate OutputsInSync(f: Flow)
  {
    && (forall n | n in f.nodes && f.nodes[n].Output? ::
          f.nodes[n].outNo in f.outputTypes && f.outputTypes[f.nodes[n].outNo] == f.nodes[n].ty)
    && (forall no | no in f.outputTypes :: exists n :: n in f.nodes && f.nodes[n] == Output(no, f.outputTypes[no]))
    && (forall n, m | n in f.nodes && m in f.nodes && f.nodes[n].Output? && f.nodes[m].Output?
          && f.nodes[n].outNo == f.nodes[m].outNo :: n == m)
  }

  predicate IdsBounded(f: Flow)
  {
    && (forall n | n in f.nodes :: n < f.nextNode)
    && (forall e | e in f.edges :: e < f.nextEdge)
  }

  predicate EdgesWellFormed(f: Flow)
  {
    forall e | e in f.edges :: f.edges[e].source in f.nodes && f.edges[e].target in f.nodes
  }

  /**
   * The visit order lists distinct nodes, sources before targets, and every
   * node that has an edge; a node added since the last re-sort has none.
   */
  predicate VisitOrderSound(f: Flow)
  {
    && Distinct(f.visitOrder)
    && Elems(f.visitOrder) <= f.nodes.Keys
    && Respects(f.visitOrder, ArcsOf(f.edges))
    && forall e | e in f.edges :: f.edges[e].source in f.visitOrder && f.edges[e].target in f.visitOrder
  }

  ghost predicate Valid(f: Flow)
  {
    && IdsBounded(f)
    && EdgesWellFormed(f)
    && HasTopoOrder(f.nodes.Keys, ArcsOf(f.edges))
    && VisitOrderSound(f)
    && InputsInSync(f)
    && OutputsInSync(f)
  }

  lemma {:induction false} ArcsWithin(f: Flow)
    requires EdgesWellFormed(f)
    ensures Within(ArcsOf(f.edges), f.nodes.Keys)
  {
  }

  /** A valid flow never contains a cycle. */
  lemma {:induction false} ValidIsAcyclic(f: Flow)
    requires Valid(f)
    ensures Acyclic(ArcsOf(f.edges))
  {
    ArcsWithin(f);
    HasOrderIsAcyclic(f.nodes.Keys, ArcsOf(f.edges));
  }

  /** A fresh flow: no nodes, no edges, no slots. */
  function NewFlow(): (f: Flow)
    ensures Valid(f)
    ensures f.nodes == map[] && f.edges == map[] && f.inputTypes == map[] && f.outputTypes == map[]
  {
    var f := Flow(map[], map[], 0, 0, [], map[], map[]);
    assert ArcsOf(f.edges) == {} && Elems(f.visitOrder) == {};
    assert IsTopoOrder([], f.nodes.Keys, ArcsOf(f.edges));
    f
  }

  // ---------------------------------------------------------------------
  // Slot numbers

  lemma {:induction false} MaxExists(s: set<u32>)
    requires s != {}
    ensures exists m :: m in s && forall x | x in s :: x <= m
  {
    var m := MaxWitness(s);
  }

  lemma {:induction false} MaxWitness(s: set<u32>) returns (m: u32)
    requires s != {}
    ensures m in s && forall x | x in s :: x <= m
    decreases |s|
  {
    var y :| y in s;
    var rest := s - {y};
    if rest == {} {
      assert s == {y};
      m := y;
    } else {
      var m' := MaxWitness(rest);
      m := if m' < y then y else m';
      assert s == rest + {y};
    }
  }

  /** The largest number in a non-empty set (the last key of an ordered map). */
  function MaxOf(s: set<u32>): (m: u32)
    requires s != {}
    ensures m in s
    ensures forall x | x in s :: x <= m
  {
    MaxExists(s);
    var m :| m in s && forall x | x in s :: x <= m;
    m
  }

  /**
   * At most 2^32 - 1 numbers are in use, so a free one exists (the source
   * asserts this and panics otherwise).
   */
  predicate SlotsLeft(keys: set<u32>)
  {
    |keys| < U32_MODULUS
  }

  /**
   * The search as written: every round recomputes the largest number plus
   * one, wrapping, and repeats while that number is in use. `fuel` bounds
   * the rounds; `None` means the rounds ran out.
   */
  function NextNoAsWritten(keys: set<u32>, fuel: nat): Option<u32>
    decreases fuel
  {
    if keys == {} then Some(0)
    else if fuel == 0 then None
    else
      var next := NoAfter(MaxOf(keys), 1);
      if next in keys then NextNoAsWritten(keys, fuel - 1) else Some(next)
  }

  /** With both 2^32 - 1 and 0 in use, the search as written never returns. */
  lemma {:induction false} NextNoAsWrittenHangs(keys: set<u32>, fuel: nat)
    requires U32_MODULUS - 1 in keys && 0 in keys
    ensures NextNoAsWritten(keys, fuel) == None
    decreases fuel
  {
    if fuel > 0 {
      assert MaxOf(keys) == U32_MODULUS - 1;
      NextNoAsWrittenHangs(keys, fuel - 1);
    }
  }

  /**
   * The first offset `j >= k` from `start` whose number is free, given
   * that the `k` numbers before it are in use (`seen` collects them).
   */
  function FreeOffset(keys: set<u32>, start: u32, k: nat, ghost seen: set<u32>): (j: nat)
    requires SlotsLeft(keys) && seen <= keys && |seen| == k
    requires forall x | x in seen :: DistU32(start, x) < k
    requires forall i | 0 <= i < k :: NoAfter(start, i) in keys
    ensures k <= j < U32_MODULUS
    ensures NoAfter(start, j) !in keys
    ensures forall i | 0 <= i < j :: NoAfter(start, i) in keys
    decreases |keys| - k
  {
    CardSubset(seen, keys);
    var c := NoAfter(start, k);
    if c !in keys then k
    else
      ProbeNo(keys, start, k, seen);
      FreeOffset(keys, start, k + 1, seen + {c})
  }

  /** Probing one more used number keeps the probed numbers distinct and in use. */
  lemma {:induction false} ProbeNo(keys: set<u32>, start: u32, k: nat, seen: set<u32>)
    requires SlotsLeft(keys) && seen <= keys && |seen| == k
    requires NoAfter(start, k) in keys
    requires forall x | x in seen :: DistU32(start, x) < k
    ensures k < |keys|
    ensures seen + {NoAfter(start, k)} <= keys && |seen + {NoAfter(start, k)}| == k + 1
    ensures forall x | x in seen + {NoAfter(start, k)} :: DistU32(start, x) < k + 1
  {
    CardSubset(seen, keys);
    DistOfNoAfter(start, k);
    assert NoAfter(start, k) !in seen;
    CardSubset(seen + {NoAfter(start, k)}, keys);
  }

  /**
   * The next free slot number: 0 on an empty set, otherwise the first free
   * number counting up, with wrap-around, from the largest one plus one.
   */
  function NextNo(keys: set<u32>): (r: u32)
    requires SlotsLeft(keys)
    ensures r !in keys
    ensures keys == {} ==> r == 0
    ensures keys != {} && NoAfter(MaxOf(keys), 1) !in keys ==> r == NoAfter(MaxOf(keys), 1)
    ensures keys != {} ==> forall i | 0 <= i < DistU32(NoAfter(MaxOf(keys), 1), r) ::
      NoAfter(NoAfter(MaxOf(keys), 1), i) in keys
  {
    if keys == {} then 0
    else
      var start := NoAfter(MaxOf(keys), 1);
      var j := FreeOffset(keys, start, 0, {});
      DistOfNoAfter(start, j);
      NoAfter(start, j)
  }

  /**
   * Whenever the search as written returns, it returns the corrected next
   * number; it fails to return exactly when 2^32 - 1 and 0 are both in use.
   */
  lemma {:induction false} NextNoAsWrittenAgrees(keys: set<u32>, fuel: nat)
    requires SlotsLeft(keys) && fuel >= 1
    ensures NextNoAsWritten(keys, fuel).Some? <==> !(U32_MODULUS - 1 in keys && 0 in keys)
    ensures NextNoAsWritten(keys, fuel).Some? ==> NextNoAsWritten(keys, fuel).value == NextNo(keys)
  {
    if U32_MODULUS - 1 in keys && 0 in keys {
      NextNoAsWrittenHangs(keys, fuel);
    } else if keys != {} {
      var m := MaxOf(keys);
      assert NoAfter(m, 1) !in keys by {
        if m < U32_MODULUS - 1 {
          assert NoAfter(m, 1) == m + 1;
        } else {
          assert NoAfter(m, 1) == 0;
        }
      }
    }
  }

  function InputKeys(m: map<InputNo, Type>): set<u32>
  {
    set k | k in m :: k.n
  }

  function OutputKeys(m: map<OutputNo, Type>): set<u32>
  {
    set k | k in m :: k.n
  }

  // ---------------------------------------------------------------------
  // Declared slots of elements and nodes

  /** A nested flow referenced by the node is present in the store. */
  predicate Resolvable(n: Node, flows: map<FlowId, Flow>)
  {
    n.ElementNode? && n.element.FlowElem? ==> n.element.flow in flows
  }

  /** A nested flow declares its own slots; a primitive its descriptor's. */
  function ElementInputTypes(e: Element, flows: map<FlowId, Flow>): (m: map<InputNo, Type>)
    requires e.FlowElem? ==> e.flow in flows
  {
    match e
    case FlowElem(id) => flows[id].inputTypes
    case Prim(p) => Prims.InputTypes(p)
  }

  function ElementOutputTypes(e: Element, flows: map<FlowId, Flow>): (m: map<OutputNo, Type>)
    requires e.FlowElem? ==> e.flow in flows
  {
    match e
    case FlowElem(id) => flows[id].outputTypes
    case Prim(p) => Prims.OutputTypes(p)
  }

  /** The element's input numbers: exactly the keys of its input slot map. */
  function ElementInputNos(e: Element, flows: map<FlowId, Flow>): (r: set<InputNo>)
    requires e.FlowElem? ==> e.flow in flows
    ensures forall k :: k in r <==> k in ElementInputTypes(e, flows)
  {
    ElementInputTypes(e, flows).Keys
  }

  /** The element's output numbers: exactly the keys of its output slot map. */
  function ElementOutputNos(e: Element, flows: map<FlowId, Flow>): (r: set<OutputNo>)
    requires e.FlowElem? ==> e.flow in flows
    ensures forall k :: k in r <==> k in ElementOutputTypes(e, flows)
  {
    ElementOutputTypes(e, flows).Keys
  }

  function NodeInputTypes(n: Node, flows: map<FlowId, Flow>): map<InputNo, Type>
    requires Resolvable(n, flows)
  {
    match n
    case ElementNode(e) => ElementInputTypes(e, flows)
    case Input(_, _) => map[]
    case Output(_, ty) => map[InputNo(0) := ty]
  }

  function NodeOutputTypes(n: Node, flows: map<FlowId, Flow>): map<OutputNo, Type>
    requires Resolvable(n, flows)
  {
    match n
    case ElementNode(e) => ElementOutputTypes(e, flows)
    case Input(_, ty) => map[OutputNo(0) := ty]
    case Output(_, _) => map[]
  }

  /**
   * A flow's Input node declares no inputs and one output, slot 0, of the
   * type the flow registered under its number; an Output node the converse.
   */
  lemma {:induction false} BoundaryNodeSlots(f: Flow, n: NodeIx, flows: map<FlowId, Flow>)
    requires Valid(f) && n in f.nodes
    ensures f.nodes[n].Input? ==>
      && NodeInputTypes(f.nodes[n], flows) == map[]
      && NodeOutputTypes(f.nodes[n], flows) == map[OutputNo(0) := f.inputTypes[f.nodes[n].inNo]]
    ensures f.nodes[n].Output? ==>
      && NodeOutputTypes(f.nodes[n], flows) == map[]
      && NodeInputTypes(f.nodes[n], flows) == map[InputNo(0) := f.outputTypes[f.nodes[n].outNo]]
  {
  }

  /**
   * A nested-flow element declares exactly the slots of the nested flow's
   * Input and Output nodes, with their types.
   */
  lemma {:induction false} NestedFlowSlots(id: FlowId, flows: map<FlowId, Flow>)
    requires id in flows && Valid(flows[id])
    ensures var ins := ElementInputTypes(FlowElem(id), flows);
      && (forall no | no in ins :: exists n :: n in flows[id].nodes && flows[id].nodes[n] == Input(no, ins[no]))
      && (forall n | n in flows[id].nodes && flows[id].nodes[n].Input? ::
            flows[id].nodes[n].inNo in ins && ins[flows[id].nodes[n].inNo] == flows[id].nodes[n].ty)
    ensures var outs := ElementOutputTypes(FlowElem(id), flows);
      && (forall no | no in outs :: exists n :: n in flows[id].nodes && flows[id].nodes[n] == Output(no, outs[no]))
      && (forall n | n in flows[id].nodes && flows[id].nodes[n].Output? ::
            flows[id].nodes[n].outNo in outs && outs[flows[id].nodes[n].outNo] == flows[id].nodes[n].ty)
  {
  }

  /**
   * A nested-flow element's slot numbers are the numbers of the nested
   * flow's Input and Output nodes; a primitive's are the ones it declares.
   */
  lemma {:induction false} ElementSlotNos(e: Element, flows: map<FlowId, Flow>)
    requires e.FlowElem? ==> e.flow in flows && Valid(flows[e.flow])
    ensures e.FlowElem? ==> forall k :: k in ElementInputNos(e, flows) <==>
      exists n | n in flows[e.flow].nodes :: flows[e.flow].nodes[n].Input? && flows[e.flow].nodes[n].inNo == k
    ensures e.FlowElem? ==> forall k :: k in ElementOutputNos(e, flows) <==>
      exists n | n in flows[e.flow].nodes :: flows[e.flow].nodes[n].Output? && flows[e.flow].nodes[n].outNo == k
    ensures e.Prim? && e.prim.SineOscF32? ==> ElementInputNos(e, flows) == {InputNo(0)}
    ensures e.Prim? && e.prim.Constant? ==> ElementInputNos(e, flows) == {}
    ensures e.Prim? ==> ElementOutputNos(e, flows) == {OutputNo(0)}
  {
    if e.FlowElem? {
      NestedFlowSlots(e.flow, flows);
    }
  }

  // ---------------------------------------------------------------------
  // Adding nodes (the visit order is not re-sorted)

  lemma {:induction false} FreshNodeHasNoArcs(f: Flow)
    requires IdsBounded(f) && EdgesWellFormed(f)
    ensures f.nextNode !in f.nodes
    ensures forall p | p in ArcsOf(f.edges) :: p.0 != f.nextNode && p.1 != f.nextNode
  {
  }

  lemma {:induction false} InputsSyncAddNode(f: Flow, g: Flow, ix: NodeIx, node: Node)
    requires InputsInSync(f) && ix !in f.nodes && g.nodes == f.nodes[ix := node]
    requires node.Input? ==> node.inNo !in f.inputTypes && g.inputTypes == f.inputTypes[node.inNo := node.ty]
    requires !node.Input? ==> g.inputTypes == f.inputTypes
    ensures InputsInSync(g)
  {
    forall k | k in g.inputTypes
      ensures exists n :: n in g.nodes && g.nodes[n] == Input(k, g.inputTypes[k])
    {
      if node.Input? && k == node.inNo {
        assert g.nodes[ix] == Input(k, g.inputTypes[k]);
      } else {
        var n :| n in f.nodes && f.nodes[n] == Input(k, f.inputTypes[k]);
        assert g.nodes[n] == Input(k, g.inputTypes[k]);
      }
    }
  }

  lemma {:induction false} OutputsSyncAddNode(f: Flow, g: Flow, ix: NodeIx, node: Node)
    requires OutputsInSync(f) && ix !in f.nodes && g.nodes == f.nodes[ix := node]
    requires node.Output? ==> node.outNo !in f.outputTypes && g.outputTypes == f.outputTypes[node.outNo := node.ty]
    requires !node.Output? ==> g.outputTypes == f.outputTypes
    ensures OutputsInSync(g)
  {
    forall k | k in g.outputTypes
      ensures exists n :: n in g.nodes && g.nodes[n] == Output(k, g.outputTypes[k])
    {
      if node.Output? && k == node.outNo {
        assert g.nodes[ix] == Output(k, g.outputTypes[k]);
      } else {
        var n :| n in f.nodes && f.nodes[n] == Output(k, f.outputTypes[k]);
        assert g.nodes[n] == Output(k, g.outputTypes[k]);
      }
    }
  }

  /**
   * The flow with `node` under the next node index and, for an Input or
   * Output node, its number registered with its type. The visit order is
   * not re-sorted: the new node has no edges yet.
   */
  function PlaceNode(f: Flow, node: Node): (g: Flow)
    requires Valid(f)
    requires node.Input? ==> node.inNo !in f.inputTypes
    requires node.Output? ==> node.outNo !in f.outputTypes
    ensures Valid(g)
    ensures f.nextNode !in f.nodes && g.nodes == f.nodes[f.nextNode := node]
    ensures g.edges == f.edges && g.visitOrder == f.visitOrder
    ensures g.inputTypes == if node.Input? then f.inputTypes[node.inNo := node.ty] else f.inputTypes
    ensures g.outputTypes == if node.Output? then f.outputTypes[node.outNo := node.ty] else f.outputTypes
  {
    var ix := f.nextNode;
    var g := f.(
      nodes := f.nodes[ix := node],
      nextNode := ix + 1,
      inputTypes := if node.Input? then f.inputTypes[node.inNo := node.ty] else f.inputTypes,
      outputTypes := if node.Output? then f.outputTypes[node.outNo := node.ty] else f.outputTypes);
    assert g.nodes.Keys == f.nodes.Keys + {ix};
    assert IdsBounded(g) && EdgesWellFormed(g) && VisitOrderSound(g);
    assert HasTopoOrder(g.nodes.Keys, ArcsOf(g.edges)) by {
      FreshNodeHasNoArcs(f);
      HasOrderAddNode(f.nodes.Keys, ArcsOf(f.edges), ix);
    }
    InputsSyncAddNode(f, g, ix, node);
    OutputsSyncAddNode(f, g, ix, node);
    g
  }

  /** Adds an element node under a fresh index; nothing else changes. */
  function AddElement(f: Flow, e: Element): (res: (Flow, NodeIx))
    requires Valid(f)
    ensures Valid(res.0)
    ensures res.1 !in f.nodes && res.0.nodes == f.nodes[res.1 := ElementNode(e)]
    ensures res.0.edges == f.edges && res.0.visitOrder == f.visitOrder
    ensures res.0.inputTypes == f.inputTypes && res.0.outputTypes == f.outputTypes
  {
    (PlaceNode(f, ElementNode(e)), f.nextNode)
  }

  /**
   * Registers the next free input number with its type and adds the
   * matching Input node under a fresh index.
   */
  function AddInput(f: Flow, ty: Type): (res: (Flow, InputNo, NodeIx))
    requires Valid(f) && SlotsLeft(InputKeys(f.inputTypes))
    ensures Valid(res.0)
    ensures res.1 !in f.inputTypes && res.0.inputTypes == f.inputTypes[res.1 := ty]
    ensures res.2 !in f.nodes && res.0.nodes == f.nodes[res.2 := Input(res.1, ty)]
    ensures res.0.edges == f.edges && res.0.visitOrder == f.visitOrder && res.0.outputTypes == f.outputTypes
  {
    var no := InputNo(NextNo(InputKeys(f.inputTypes)));
    assert no !in f.inputTypes;
    (PlaceNode(f, Input(no, ty)), no, f.nextNode)
  }

  /**
   * Registers the next free output number with its type and adds the
   * matching Output node under a fresh index.
   */
  function AddOutput(f: Flow, ty: Type): (res: (Flow, OutputNo, NodeIx))
    requires Valid(f) && SlotsLeft(OutputKeys(f.outputTypes))
    ensures Valid(res.0)
    ensures res.1 !in f.outputTypes && res.0.outputTypes == f.outputTypes[res.1 := ty]
    ensures res.2 !in f.nodes && res.0.nodes == f.nodes[res.2 := Output(res.1, ty)]
    ensures res.0.edges == f.edges && res.0.visitOrder == f.visitOrder && res.0.inputTypes == f.inputTypes
  {
    var no := OutputNo(NextNo(OutputKeys(f.outputTypes)));
    assert no !in f.outputTypes;
    (PlaceNode(f, Output(no, ty)), no, f.nextNode)
  }

  /**
   * Adding an Output node does not re-sort: the new node is missing from
   * the visit order until the next edge or node removal or edge insertion.
   */
  lemma {:induction false} AddOutputSkipsVisit(f: Flow, ty: Type)
    requires Valid(f) && SlotsLeft(OutputKeys(f.outputTypes))
    ensures var (g, no, n) := AddOutput(f, ty);
      && g.nodes[n] == Output(no, ty)
      && n !in g.visitOrder
      && forall m | m in g.nodes && g.nodes[m].Output? && g.nodes[m].outNo == no :: m == n
  {
    var (g, no, n) := AddOutput(f, ty);
    assert n !in Elems(f.visitOrder);
  }

  /**
   * Adding an Output node and re-sorting, as every other structural change
   * does: the new node is visited.
   */
  function AddOutputResorted(f: Flow, ty: Type): (res: (Flow, OutputNo, NodeIx))
    requires Valid(f) && SlotsLeft(OutputKeys(f.outputTypes))
    ensures Valid(res.0)
    ensures res.1 !in f.outputTypes && res.0.outputTypes == f.outputTypes[res.1 := ty]
    ensures res.2 !in f.nodes && res.0.nodes == f.nodes[res.2 := Output(res.1, ty)]
    ensures res.0.edges == f.edges && res.0.inputTypes == f.inputTypes
    ensures IsTopoOrder(res.0.visitOrder, res.0.nodes.Keys, ArcsOf(res.0.edges))
    ensures res.2 in res.0.visitOrder
  {
    var (g, no, n) := AddOutput(f, ty);
    var h := Resort(g);
    assert n in Elems(h.visitOrder);
    (h, no, n)
  }

  /**
   * The re-sorted flow visits the new Output node, which is the only one of
   * its number and has no incoming edges yet.
   */
  lemma {:induction false} ResortedOutputUnfed(f: Flow, ty: Type)
    requires Valid(f) && SlotsLeft(OutputKeys(f.outputTypes))
    ensures var (g, no, n) := AddOutputResorted(f, ty);
      && n in g.visitOrder && g.nodes[n] == Output(no, ty)
      && IdsBounded(g) && InputEdges(g, n, InputNo(0)) == []
      && (forall m | m in g.nodes && g.nodes[m].Output? && g.nodes[m].outNo == no :: m == n)
  {
    var (g, no, n) := AddOutputResorted(f, ty);
    assert forall e | e in g.edges :: g.edges[e].target != n by {
      assert EdgesWellFormed(f);
    }
    UnfedIsEmpty(g.edges, n, InputNo(0), g.nextEdge);
  }

  // ---------------------------------------------------------------------
  // Edges

  lemma {:induction false} ArcsInsert(edges: map<EdgeIx, Edge>, e: EdgeIx, x: Edge)
    requires e !in edges
    ensures ArcsOf(edges[e := x]) == ArcsOf(edges) + {(x.source, x.target)}
  {
    var m := edges[e := x];
    forall p | p in ArcsOf(edges)
      ensures p in ArcsOf(m)
    {
      var d :| d in edges && p == (edges[d].source, edges[d].target);
      assert m[d] == edges[d];
    }
    assert (m[e].source, m[e].target) in ArcsOf(m);
  }

  lemma {:induction false} ArcsShrink(edges: map<EdgeIx, Edge>, fewer: map<EdgeIx, Edge>)
    requires forall e | e in fewer :: e in edges && fewer[e] == edges[e]
    ensures ArcsOf(fewer) <= ArcsOf(edges)
  {
    forall p | p in ArcsOf(fewer)
      ensures p in ArcsOf(edges)
    {
      var d :| d in fewer && p == (fewer[d].source, fewer[d].target);
      assert p == (edges[d].source, edges[d].target);
    }
  }

  /** The visit order recomputed from scratch: a topological sort of all nodes. */
  function UpdateVisitOrder(f: Flow): (ord: seq<NodeIx>)
    requires IdsBounded(f) && HasTopoOrder(f.nodes.Keys, ArcsOf(f.edges))
    ensures IsTopoOrder(ord, f.nodes.Keys, ArcsOf(f.edges))
  {
    TopoSort(f.nodes.Keys, f.nextNode, ArcsOf(f.edges))
  }

  lemma {:induction false} ResortedIsSound(f: Flow)
    requires EdgesWellFormed(f) && IsTopoOrder(f.visitOrder, f.nodes.Keys, ArcsOf(f.edges))
    ensures VisitOrderSound(f)
  {
    forall e | e in f.edges
      ensures f.edges[e].source in f.visitOrder && f.edges[e].target in f.visitOrder
    {
      assert f.edges[e].source in Elems(f.visitOrder) && f.edges[e].target in Elems(f.visitOrder);
    }
  }

  lemma {:induction false} SyncOnlyOnNodes(f: Flow, g: Flow)
    requires g.nodes == f.nodes && g.inputTypes == f.inputTypes && g.outputTypes == f.outputTypes
    ensures InputsInSync(g) == InputsInSync(f)
    ensures OutputsInSync(g) == OutputsInSync(f)
  {
  }

  /** The visit order recomputed after a structural change that kept the flow well-formed. */
  function Resort(g: Flow): (h: Flow)
    requires IdsBounded(g) && EdgesWellFormed(g) && HasTopoOrder(g.nodes.Keys, ArcsOf(g.edges))
    requires InputsInSync(g) && OutputsInSync(g)
    ensures Valid(h)
    ensures h == g.(visitOrder := h.visitOrder)
    ensures IsTopoOrder(h.visitOrder, h.nodes.Keys, ArcsOf(h.edges))
  {
    var h := g.(visitOrder := UpdateVisitOrder(g));
    ResortedIsSound(h);
    SyncOnlyOnNodes(g, h);
    h
  }

  /** Stores a new edge under the next edge index and re-sorts. */
  function InsertEdge(f: Flow, edge: Edge): (g: Flow)
    requires Valid(f) && edge.source in f.nodes && edge.target in f.nodes
    requires !Reaches(ArcsOf(f.edges), edge.target, edge.source)
    ensures Valid(g)
    ensures f.nextEdge !in f.edges && g.edges == f.edges[f.nextEdge := edge]
    ensures g.nodes == f.nodes && g.inputTypes == f.inputTypes && g.outputTypes == f.outputTypes
    ensures IsTopoOrder(g.visitOrder, g.nodes.Keys, ArcsOf(g.edges))
  {
    var e := f.nextEdge;
    var g := f.(edges := f.edges[e := edge], nextEdge := e + 1);
    assert IdsBounded(g) && EdgesWellFormed(g);
    assert HasTopoOrder(g.nodes.Keys, ArcsOf(g.edges)) by {
      ArcsWithin(f);
      ArcsInsert(f.edges, e, edge);
      HasOrderAddArc(f.nodes.Keys, ArcsOf(f.edges), edge.source, edge.target);
    }
    assert InputsInSync(g) && OutputsInSync(g) by {
      SyncOnlyOnNodes(f, g);
    }
    Resort(g)
  }

  /**
   * Connects `outputNo` of `source` to `inputNo` of `target`. The slot types
   * are compared first; only matching types are then checked for a cycle,
   * which arises exactly when the target already reaches the source. Either
   * error leaves the flow unchanged; success adds one fresh edge carrying the
   * shared type and re-sorts the visit order.
   */
  function AddEdge(f: Flow, source: NodeIx, outputNo: OutputNo, target: NodeIx, inputNo: InputNo, flows: map<FlowId, Flow>)
    : (res: (Flow, Result<(EdgeIx, Type), EdgeError>))
    requires Valid(f) && source in f.nodes && target in f.nodes
    requires Resolvable(f.nodes[source], flows) && Resolvable(f.nodes[target], flows)
    requires outputNo in NodeOutputTypes(f.nodes[source], flows)
    requires inputNo in NodeInputTypes(f.nodes[target], flows)
    ensures Valid(res.0)
    ensures var ty := NodeOutputTypes(f.nodes[source], flows)[outputNo];
      && (res.1 == Failure(TypeMismatch) <==> NodeInputTypes(f.nodes[target], flows)[inputNo] != ty)
      && (res.1 == Failure(WouldCycle) <==>
            NodeInputTypes(f.nodes[target], flows)[inputNo] == ty && Reaches(ArcsOf(f.edges), target, source))
      && (res.1.Failure? ==> res.0 == f)
      && (res.1.Success? ==>
            && res.1.value.1 == ty
            && res.1.value.0 !in f.edges
            && res.0.edges == f.edges[res.1.value.0 := Edge(source, target, outputNo, inputNo, ty)]
            && res.0.nodes == f.nodes
            && res.0.inputTypes == f.inputTypes && res.0.outputTypes == f.outputTypes
            && IsTopoOrder(res.0.visitOrder, res.0.nodes.Keys, ArcsOf(res.0.edges)))
  {
    var ty := NodeOutputTypes(f.nodes[source], flows)[outputNo];
    if NodeInputTypes(f.nodes[target], flows)[inputNo] != ty then (f, Failure(TypeMismatch))
    else
      ArcsWithin(f);
      if source in ReachableFrom(ArcsOf(f.edges), f.nodes.Keys, target) then (f, Failure(WouldCycle))
      else
        var e := f.nextEdge;
        (InsertEdge(f, Edge(source, target, outputNo, inputNo, ty)), Success((e, ty)))
  }

  /** Removes an edge and re-sorts; true exactly when the edge existed. */
  function RemoveEdge(f: Flow, e: EdgeIx): (res: (Flow, bool))
    requires Valid(f)
    ensures Valid(res.0)
    ensures res.1 <==> e in f.edges
    ensures !res.1 ==> res.0 == f
    ensures res.1 ==>
      && res.0.edges == f.edges - {e}
      && res.0.nodes == f.nodes
      && res.0.inputTypes == f.inputTypes && res.0.outputTypes == f.outputTypes
      && IsTopoOrder(res.0.visitOrder, res.0.nodes.Keys, ArcsOf(res.0.edges))
  {
    if e !in f.edges then (f, false)
    else
      var g := f.(edges := f.edges - {e});
      ArcsShrink(f.edges, g.edges);
      HasOrderFewerArcs(f.nodes.Keys, ArcsOf(f.edges), ArcsOf(g.edges));
      var g' := g.(visitOrder := UpdateVisitOrder(g));
      ResortedIsSound(g');
      SyncOnlyOnNodes(f, g');
      (g', true)
  }

  /**
   * Removing the edge a successful connection created gives back the
   * original graph and slot maps.
   */
  lemma {:induction false} RemoveEdgeUndoesAdd(f: Flow, source: NodeIx, outputNo: OutputNo, target: NodeIx, inputNo: InputNo,
                                               flows: map<FlowId, Flow>)
    requires Valid(f) && source in f.nodes && target in f.nodes
    requires Resolvable(f.nodes[source], flows) && Resolvable(f.nodes[target], flows)
    requires outputNo in NodeOutputTypes(f.nodes[source], flows)
    requires inputNo in NodeInputTypes(f.nodes[target], flows)
    requires AddEdge(f, source, outputNo, target, inputNo, flows).1.Success?
    ensures var (g, r) := AddEdge(f, source, outputNo, target, inputNo, flows);
      var h := RemoveEdge(g, r.value.0);
      && h.1
      && h.0.nodes == f.nodes && h.0.edges == f.edges
      && h.0.inputTypes == f.inputTypes && h.0.outputTypes == f.outputTypes
  {
    var res := AddEdge(f, source, outputNo, target, inputNo, flows);
    var e := res.1.value.0;
    assert e !in f.edges && res.0.edges == f.edges[e := res.0.edges[e]];
    UpdateThenRemove(f.edges, e, res.0.edges[e]);
  }

  lemma {:induction false} UpdateThenRemove<K, V>(m: map<K, V>, k: K, v: V)
    requires k !in m
    ensures m[k := v] - {k} == m
  {
    assert (m[k := v] - {k}).Keys == m.Keys;
  }

  /** The edges that do not touch node `n`. */
  function EdgesAvoiding(edges: map<EdgeIx, Edge>, n: NodeIx): (r: map<EdgeIx, Edge>)
    ensures forall e | e in r :: e in edges && r[e] == edges[e]
    ensures forall e | e in edges :: e in r <==> edges[e].source != n && edges[e].target != n
  {
    map e | e in edges && edges[e].source != n && edges[e].target != n :: edges[e]
  }

  lemma {:induction false} InputsSyncRemoveNode(f: Flow, g: Flow, n: NodeIx)
    requires InputsInSync(f) && n in f.nodes && g.nodes == f.nodes - {n}
    requires g.inputTypes == if f.nodes[n].Input? then f.inputTypes - {f.nodes[n].inNo} else f.inputTypes
    ensures InputsInSync(g)
  {
    forall k | k in g.inputTypes
      ensures exists m :: m in g.nodes && g.nodes[m] == Input(k, g.inputTypes[k])
    {
      var m :| m in f.nodes && f.nodes[m] == Input(k, f.inputTypes[k]);
      assert m != n;
      assert g.nodes[m] == Input(k, g.inputTypes[k]);
    }
  }

  lemma {:induction false} OutputsSyncRemoveNode(f: Flow, g: Flow, n: NodeIx)
    requires OutputsInSync(f) && n in f.nodes && g.nodes == f.nodes - {n}
    requires g.outputTypes == if f.nodes[n].Output? then f.outputTypes - {f.nodes[n].outNo} else f.outputTypes
    ensures OutputsInSync(g)
  {
    forall k | k in g.outputTypes
      ensures exists m :: m in g.nodes && g.nodes[m] == Output(k, g.outputTypes[k])
    {
      var m :| m in f.nodes && f.nodes[m] == Output(k, f.outputTypes[k]);
      assert m != n;
      assert g.nodes[m] == Output(k, g.outputTypes[k]);
    }
  }

  lemma {:induction false} AvoidingWellFormed(f: Flow, n: NodeIx)
    requires IdsBounded(f) && EdgesWellFormed(f)
    ensures forall e | e in EdgesAvoiding(f.edges, n) ::
      && e < f.nextEdge
      && EdgesAvoiding(f.edges, n)[e].source in f.nodes - {n}
      && EdgesAvoiding(f.edges, n)[e].target in f.nodes - {n}
  {
  }

  /** The flow without node `n`, its edges and its slot number, not yet re-sorted. */
  function Shrink(f: Flow, n: NodeIx): (g: Flow)
    requires Valid(f) && n in f.nodes
    ensures IdsBounded(g) && EdgesWellFormed(g) && HasTopoOrder(g.nodes.Keys, ArcsOf(g.edges))
    ensures InputsInSync(g) && OutputsInSync(g)
    ensures g.nodes == f.nodes - {n}
    ensures g.edges == EdgesAvoiding(f.edges, n)
    ensures g.inputTypes == (if f.nodes[n].Input? then f.inputTypes - {f.nodes[n].inNo} else f.inputTypes)
    ensures g.outputTypes == (if f.nodes[n].Output? then f.outputTypes - {f.nodes[n].outNo} else f.outputTypes)
  {
    var node := f.nodes[n];
    var g := f.(
      nodes := f.nodes - {n},
      edges := EdgesAvoiding(f.edges, n),
      inputTypes := if node.Input? then f.inputTypes - {node.inNo} else f.inputTypes,
      outputTypes := if node.Output? then f.outputTypes - {node.outNo} else f.outputTypes);
    assert g.nodes.Keys == f.nodes.Keys - {n};
    assert IdsBounded(g) && EdgesWellFormed(g) by {
      AvoidingWellFormed(f, n);
    }
    assert HasTopoOrder(g.nodes.Keys, ArcsOf(g.edges)) by {
      ArcsShrink(f.edges, g.edges);
      HasOrderRemoveNode(f.nodes.Keys, ArcsOf(f.edges), n, ArcsOf(g.edges));
    }
    assert InputsInSync(g) && OutputsInSync(g) by {
      InputsSyncRemoveNode(f, g, n);
      OutputsSyncRemoveNode(f, g, n);
    }
    g
  }

  /**
   * Removes a node with all its edges and re-sorts; an Input or Output node
   * also gives up its slot number. An absent node changes nothing.
   */
  function RemoveNode(f: Flow, n: NodeIx): (res: (Flow, Option<Node>))
    requires Valid(f)
    ensures Valid(res.0)
    ensures res.1.Some? <==> n in f.nodes
    ensures res.1.None? ==> res.0 == f
    ensures res.1.Some? ==>
      && res.1.value == f.nodes[n]
      && res.0.nodes == f.nodes - {n}
      && res.0.edges == EdgesAvoiding(f.edges, n)
      && res.0.inputTypes == (if f.nodes[n].Input? then f.inputTypes - {f.nodes[n].inNo} else f.inputTypes)
      && res.0.outputTypes == (if f.nodes[n].Output? then f.outputTypes - {f.nodes[n].outNo} else f.outputTypes)
      && IsTopoOrder(res.0.visitOrder, res.0.nodes.Keys, ArcsOf(res.0.edges))
  {
    if n !in f.nodes then (f, None)
    else (Resort(Shrink(f, n)), Some(f.nodes[n]))
  }

  /**
   * Removing the Input node just added gives back the original nodes, edges
   * and slot maps: the new slot number is released again.
   */
  lemma {:induction false} RemoveNodeUndoesAddInput(f: Flow, ty: Type)
    requires Valid(f) && SlotsLeft(InputKeys(f.inputTypes))
    ensures var (g, no, n) := AddInput(f, ty);
      var h := RemoveNode(g, n);
      && h.1 == Some(Input(no, ty))
      && h.0.nodes == f.nodes && h.0.edges == f.edges
      && h.0.inputTypes == f.inputTypes && h.0.outputTypes == f.outputTypes
  {
    var (g, no, n) := AddInput(f, ty);
    assert n !in f.nodes && g.nodes == f.nodes[n := Input(no, ty)];
    assert no !in f.inputTypes && g.inputTypes == f.inputTypes[no := ty];
    assert g.edges == f.edges && g.outputTypes == f.outputTypes;
    var h := RemoveNode(g, n);
    assert h.1 == Some(Input(no, ty));
    assert h.0.nodes == f.nodes by {
      UpdateThenRemove(f.nodes, n, Input(no, ty));
    }
    assert h.0.inputTypes == f.inputTypes by {
      UpdateThenRemove(f.inputTypes, no, ty);
    }
    assert h.0.edges == f.edges by {
      AvoidingFresh(f, n);
    }
  }

  /** No edge touches a node index that is not in the flow. */
  lemma {:induction false} AvoidingFresh(f: Flow, n: NodeIx)
    requires EdgesWellFormed(f) && n !in f.nodes
    ensures EdgesAvoiding(f.edges, n) == f.edges
  {
  }

  // ---------------------------------------------------------------------
  // Slot-filtered edge queries (newest edge first)

  function IncomingBelow(edges: map<EdgeIx, Edge>, n: NodeIx, k: InputNo, hi: nat): (r: seq<EdgeIx>)
    ensures Distinct(r)
    ensures forall e :: e in r <==> e < hi && e in edges && edges[e].target == n && edges[e].inputNo == k
  {
    if hi == 0 then []
    else
      var e := hi - 1;
      var rest := IncomingBelow(edges, n, k, e);
      if e in edges && edges[e].target == n && edges[e].inputNo == k then [e] + rest else rest
  }

  /** A node no edge points at has no incoming edges at any slot. */
  lemma {:induction false} UnfedIsEmpty(edges: map<EdgeIx, Edge>, n: NodeIx, k: InputNo, hi: nat)
    requires forall e | e in edges :: edges[e].target != n
    ensures IncomingBelow(edges, n, k, hi) == []
    decreases hi
  {
    if hi > 0 {
      UnfedIsEmpty(edges, n, k, hi - 1);
    }
  }

  function OutgoingBelow(edges: map<EdgeIx, Edge>, n: NodeIx, k: OutputNo, hi: nat): (r: seq<EdgeIx>)
    ensures Distinct(r)
    ensures forall e :: e in r <==> e < hi && e in edges && edges[e].source == n && edges[e].outputNo == k
  {
    if hi == 0 then []
    else
      var e := hi - 1;
      var rest := OutgoingBelow(edges, n, k, e);
      if e in edges && edges[e].source == n && edges[e].outputNo == k then [e] + rest else rest
  }

  /** Exactly the edges into `n` at input slot `k`, each once. */
  function InputEdges(f: Flow, n: NodeIx, k: InputNo): (r: seq<EdgeIx>)
    requires IdsBounded(f)
    ensures Distinct(r)
    ensures forall e :: e in r <==> e in f.edges && f.edges[e].target == n && f.edges[e].inputNo == k
  {
    IncomingBelow(f.edges, n, k, f.nextEdge)
  }

  /** Exactly the edges out of `n` at output slot `k`, each once. */
  function OutputEdges(f: Flow, n: NodeIx, k: OutputNo): (r: seq<EdgeIx>)
    requires IdsBounded(f)
    ensures Distinct(r)
    ensures forall e :: e in r <==> e in f.edges && f.edges[e].source == n && f.edges[e].outputNo == k
  {
    OutgoingBelow(f.edges, n, k, f.nextEdge)
  }

  // ---------------------------------------------------------------------
  // Nesting and the primitives of a flow

  /** Every nested flow referenced by `f` is stored and ranked below `r`. */
  ghost predicate NestsBelow(f: Flow, flows: map<FlowId, Flow>, rank: map<FlowId, nat>, r: nat)
  {
    forall n | n in f.nodes && f.nodes[n].ElementNode? && f.nodes[n].element.FlowElem? ::
      && f.nodes[n].element.flow in flows
      && f.nodes[n].element.flow in rank
      && rank[f.nodes[n].element.flow] < r
  }

  /** Nesting is well-founded: each flow refers only to flows of lower rank. */
  ghost predicate WellNested(flows: map<FlowId, Flow>, rank: map<FlowId, nat>)
  {
    forall id | id in flows :: id in rank && IdsBounded(flows[id]) && NestsBelow(flows[id], flows, rank, rank[id])
  }

  /**
   * `p` sits at node `n` of `f`: the node is the primitive `p`, or a
   * nested flow that holds `p`.
   */
  ghost predicate NodeHolds(p: Prims.PrimElement, f: Flow, n: NodeIx, flows: map<FlowId, Flow>,
                            rank: map<FlowId, nat>, r: nat)
    requires WellNested(flows, rank) && NestsBelow(f, flows, rank, r) && n in f.nodes
    decreases r, 0
  {
    match f.nodes[n]
    case ElementNode(Prim(q)) => q == p
    case ElementNode(FlowElem(id)) => Holds(p, flows[id], flows, rank, rank[id])
    case _ => false
  }

  /** `p` sits at some node of `f`, at any depth of nesting. */
  ghost predicate Holds(p: Prims.PrimElement, f: Flow, flows: map<FlowId, Flow>, rank: map<FlowId, nat>, r: nat)
    requires WellNested(flows, rank) && NestsBelow(f, flows, rank, r)
    decreases r, 1
  {
    exists n | n in f.nodes :: NodeHolds(p, f, n, flows, rank, r)
  }

  /** `p` sits at one of the nodes `ns` of `f`. */
  ghost predicate HeldAt(p: Prims.PrimElement, f: Flow, ns: seq<NodeIx>, flows: map<FlowId, Flow>,
                         rank: map<FlowId, nat>, r: nat)
    requires WellNested(flows, rank) && NestsBelow(f, flows, rank, r)
  {
    exists i | 0 <= i < |ns| :: ns[i] in f.nodes && NodeHolds(p, f, ns[i], flows, rank, r)
  }

  lemma {:induction false} HeldAtCons(p: Prims.PrimElement, f: Flow, ns: seq<NodeIx>, flows: map<FlowId, Flow>,
                                      rank: map<FlowId, nat>, r: nat)
    requires WellNested(flows, rank) && NestsBelow(f, flows, rank, r) && ns != []
    ensures HeldAt(p, f, ns, flows, rank, r) <==>
      (ns[0] in f.nodes && NodeHolds(p, f, ns[0], flows, rank, r)) || HeldAt(p, f, ns[1..], flows, rank, r)
  {
    if HeldAt(p, f, ns[1..], flows, rank, r) {
      var i :| 0 <= i < |ns| - 1 && ns[1..][i] in f.nodes && NodeHolds(p, f, ns[1..][i], flows, rank, r);
      assert ns[i + 1] == ns[1..][i];
    }
    if HeldAt(p, f, ns, flows, rank, r) && !(ns[0] in f.nodes && NodeHolds(p, f, ns[0], flows, rank, r)) {
      var i :| 0 <= i < |ns| && ns[i] in f.nodes && NodeHolds(p, f, ns[i], flows, rank, r);
      assert i > 0 && ns[1..][i - 1] == ns[i];
    }
  }

  /**
   * The primitives of `f`, node by node in index order, descending into
   * nested flows: exactly those held by `f`.
   */
  function PrimElements(f: Flow, flows: map<FlowId, Flow>, ghost rank: map<FlowId, nat>, ghost r: nat)
    : (ps: seq<Prims.PrimElement>)
    requires WellNested(flows, rank) && IdsBounded(f) && NestsBelow(f, flows, rank, r)
    ensures forall p :: p in ps <==> Holds(p, f, flows, rank, r)
    decreases r, 1, 0
  {
    var ns := IdsBelow(f.nodes.Keys, f.nextNode);
    assert Elems(ns) == f.nodes.Keys;
    var ps := PrimsOfNodes(f, flows, rank, r, ns);
    assert forall p :: HeldAt(p, f, ns, flows, rank, r) <==> Holds(p, f, flows, rank, r) by {
      forall p | Holds(p, f, flows, rank, r)
        ensures HeldAt(p, f, ns, flows, rank, r)
      {
        var n :| n in f.nodes && NodeHolds(p, f, n, flows, rank, r);
        assert n in Elems(ns);
      }
    }
    ps
  }

  function PrimsOfNodes(f: Flow, flows: map<FlowId, Flow>, ghost rank: map<FlowId, nat>, ghost r: nat, ns: seq<NodeIx>)
    : (ps: seq<Prims.PrimElement>)
    requires WellNested(flows, rank) && IdsBounded(f) && NestsBelow(f, flows, rank, r)
    ensures forall p :: p in ps <==> HeldAt(p, f, ns, flows, rank, r)
    decreases r, 0, |ns|
  {
    if ns == [] then []
    else
      var rest := PrimsOfNodes(f, flows, rank, r, ns[1..]);
      var n := ns[0];
      assert forall p :: HeldAt(p, f, ns, flows, rank, r) <==>
        (n in f.nodes && NodeHolds(p, f, n, flows, rank, r)) || HeldAt(p, f, ns[1..], flows, rank, r) by {
        forall p { HeldAtCons(p, f, ns, flows, rank, r); }
      }
      if n !in f.nodes then rest
      else
        match f.nodes[n]
        case ElementNode(Prim(q)) => [q] + rest
        case ElementNode(FlowElem(id)) => PrimElements(flows[id], flows, rank, rank[id]) + rest
        case _ => rest
  }
}
