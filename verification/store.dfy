/**
 * The alternate flow arena: the same map of flows, but the counter holds
 * the latest id handed out and is incremented before each probe.
 */
module PreIncFlowStore {
  import opened Types
  import opened Wrappers
  import opened Flows
  import FlowStore

  datatype Store = Store(flows: map<FlowId, Flow>, latestId: u64)

  /** The stored flow, exactly for stored ids. */
  function Get(s: Store, id: FlowId): (r: Option<Flow>)
    ensures r.Some? <==> id in s.flows
    ensures r.Some? ==> r.value == s.flows[id]
  {
    if id in s.flows then Some(s.flows[id]) else None
  }

  /** Indexing: the id must be stored. */
  function Index(s: Store, id: FlowId): (f: Flow)
    requires id in s.flows
    ensures Get(s, id) == Some(f)
  {
    s.flows[id]
  }

  /** Counting `k + 1` ids from `start` is counting `k` from the id after it. */
  lemma {:induction false} ShiftStart(start: u64, k: nat)
    ensures IdAfter(IdAfter(start, 1), k) == IdAfter(start, k + 1)
  {
  }

  /**
   * Increments the latest id (wrapping) until it is not stored, and returns
   * it; `steps` counts the increments, all but the last landing on stored ids.
   */
  method GenNextId(s: Store) returns (id: u64, s': Store, ghost steps: nat)
    requires |s.flows| < U64_MODULUS
    ensures FlowId(id) !in s.flows
    ensures s'.flows == s.flows && s'.latestId == id
    ensures 1 <= steps <= |s.flows| + 1 && id == IdAfter(s.latestId, steps)
    ensures forall j | 1 <= j < steps :: FlowId(IdAfter(s.latestId, j)) in s.flows
  {
    ghost var first := IdAfter(s.latestId, 1);
    var latest := IdAfter(s.latestId, 1);
    steps := 1;
    ghost var seen: set<FlowId> := {};
    while FlowId(latest) in s.flows
      invariant 1 <= steps <= |s.flows| + 1
      invariant latest == IdAfter(first, steps - 1) == IdAfter(s.latestId, steps)
      invariant |seen| == steps - 1 && seen <= s.flows.Keys
      invariant forall x | x in seen :: DistU64(first, x.id) < steps - 1
      invariant forall j | 1 <= j < steps :: FlowId(IdAfter(s.latestId, j)) in s.flows
      decreases |s.flows| + 1 - steps
    {
      FlowStore.Probe(first, steps - 1, seen, s.flows.Keys);
      ShiftStart(s.latestId, steps);
      seen := seen + {FlowId(latest)};
      latest := IdAfter(latest, 1);
      steps := steps + 1;
    }
    id := latest;
    s' := s.(latestId := latest);
  }

  /** Stores a flow under a fresh id, which becomes the latest id; every other entry is unchanged. */
  method Add(s: Store, flow: Flow) returns (s': Store, id: FlowId)
    requires |s.flows| < U64_MODULUS
    ensures id !in s.flows
    ensures s'.latestId == id.id
    ensures s'.flows == s.flows[id := flow]
    ensures Get(s', id) == Some(flow)
    ensures forall k | k in s.flows :: Get(s', k) == Get(s, k)
  {
    var n, s1, _ := GenNextId(s);
    id := FlowId(n);
    s' := s1.(flows := s1.flows[id := flow]);
  }

  /** Removes an entry, returning the stored flow exactly when it was present. */
  function Remove(s: Store, id: FlowId): (res: (Store, Option<Flow>))
    ensures res.1 == Get(s, id)
    ensures res.0.flows == s.flows - {id} && res.0.latestId == s.latestId
    ensures forall k | k != id :: Get(res.0, k) == Get(s, k)
  {
    (s.(flows := s.flows - {id}), Get(s, id))
  }
}
