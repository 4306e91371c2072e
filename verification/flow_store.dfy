/**
 * The flow arena: flows stored under generated identifiers. Identifiers
 * are handed out from a wrapping counter that skips occupied ids.
 */
module FlowStore {
  import opened Types
  import opened Wrappers
  import opened Flows

  datatype Store = Store(flows: map<FlowId, Flow>, nextId: u64)

  function NewStore(): (s: Store)
    ensures s.flows == map[] && s.nextId == 0
  {
    Store(map[], 0)
  }

  /** The stored flow, exactly for stored ids. */
  function Get(s: Store, id: FlowId): (r: Option<Flow>)
    ensures r.Some? <==> id in s.flows
    ensures r.Some? ==> r.value == s.flows[id]
  {
    if id in s.flows then Some(s.flows[id]) else None
  }

  /** Indexing: the id must be stored. */
  function Index(s: Store, id: FlowId): (f: Flow)
    requires id in s.flows
    ensures Get(s, id) == Some(f)
  {
    s.flows[id]
  }

  /** Probing one more occupied id keeps the probed ids distinct and stored. */
  lemma {:induction false} Probe(start: u64, k: nat, seen: set<FlowId>, keys: set<FlowId>)
    requires |keys| < U64_MODULUS && seen <= keys && |seen| == k
    requires FlowId(IdAfter(start, k)) in keys
    requires forall x | x in seen :: DistU64(start, x.id) < k
    ensures k < |keys|
    ensures |seen + {FlowId(IdAfter(start, k))}| == k + 1
    ensures forall x | x in seen + {FlowId(IdAfter(start, k))} :: DistU64(start, x.id) < k + 1
    ensures IdAfter(IdAfter(start, k), 1) == IdAfter(start, k + 1)
  {
    CardSubset(seen, keys);
    DistOfWrap(start, k);
    assert FlowId(IdAfter(start, k)) !in seen;
    CardSubset(seen + {FlowId(IdAfter(start, k))}, keys);
    IdAfterStep(start, k);
  }

  /**
   * Returns the first id, counting up from the counter with wrap-around,
   * that is not stored; the counter then points one past it. `skipped`
   * counts the occupied ids passed over.
   */
  method GenNextId(s: Store) returns (id: u64, s': Store, ghost skipped: nat)
    requires |s.flows| < U64_MODULUS
    ensures FlowId(id) !in s.flows
    ensures s'.flows == s.flows && s'.nextId == IdAfter(id, 1)
    ensures skipped <= |s.flows| && id == IdAfter(s.nextId, skipped)
    ensures forall j | 0 <= j < skipped :: FlowId(IdAfter(s.nextId, j)) in s.flows
  {
    var cur := s.nextId;
    skipped := 0;
    ghost var seen: set<FlowId> := {};
    while FlowId(cur) in s.flows
      invariant skipped <= |s.flows|
      invariant cur == IdAfter(s.nextId, skipped)
      invariant |seen| == skipped && seen <= s.flows.Keys
      invariant forall x | x in seen :: DistU64(s.nextId, x.id) < skipped
      invariant forall j | 0 <= j < skipped :: FlowId(IdAfter(s.nextId, j)) in s.flows
      decreases |s.flows| - skipped
    {
      Probe(s.nextId, skipped, seen, s.flows.Keys);
      seen := seen + {FlowId(cur)};
      cur := IdAfter(cur, 1);
      skipped := skipped + 1;
    }
    id := cur;
    s' := s.(nextId := IdAfter(cur, 1));
  }

  /** Stores a flow under a fresh id and moves the counter one past it; every other entry is unchanged. */
  method Add(s: Store, flow: Flow) returns (s': Store, id: FlowId)
    requires |s.flows| < U64_MODULUS
    ensures id !in s.flows
    ensures s'.nextId == IdAfter(id.id, 1)
    ensures s'.flows == s.flows[id := flow]
    ensures Get(s', id) == Some(flow)
    ensures forall k | k in s.flows :: Get(s', k) == Get(s, k)
  {
    var n, s1, _ := GenNextId(s);
    id := FlowId(n);
    s' := s1.(flows := s1.flows[id := flow]);
  }

  /**
   * Takes flow `id` out, lets `f` compute on the remaining store and the
   * flow, and puts the (possibly changed) flow back under the same id.
   */
  function Alter<T>(s: Store, id: FlowId, f: (Store, Flow) -> (Flow, T)): (res: (Store, T))
    requires id in s.flows
    ensures res.0.flows.Keys == s.flows.Keys && res.0.nextId == s.nextId
    ensures forall k | k in s.flows && k != id :: res.0.flows[k] == s.flows[k]
    ensures (res.0.flows[id], res.1) == f(Store(s.flows - {id}, s.nextId), s.flows[id])
  {
    var without := s.(flows := s.flows - {id});
    var (flow, t) := f(without, s.flows[id]);
    (without.(flows := without.flows[id := flow]), t)
  }

  /** Removes an entry, returning the stored flow exactly when it was present. */
  function Remove(s: Store, id: FlowId): (res: (Store, Option<Flow>))
    ensures res.1 == Get(s, id)
    ensures res.0.flows == s.flows - {id} && res.0.nextId == s.nextId
    ensures Get(res.0, id) == None
  {
    (s.(flows := s.flows - {id}), Get(s, id))
  }

  /** Adding and then removing the new id restores the stored flows. */
  method AddThenRemove(s: Store, flow: Flow) returns (back: Option<Flow>, s'': Store)
    requires |s.flows| < U64_MODULUS
    ensures back == Some(flow) && s''.flows == s.flows
  {
    var s', id := Add(s, flow);
    var r := Remove(s', id);
    s'' := r.0;
    back := r.1;
  }
}
