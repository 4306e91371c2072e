/**
 * Directed graphs over natural-number node ids, given as a set of arcs:
 * paths and reachability, the reachable set computed as a fixpoint,
 * topological orders and Kahn's algorithm. The flow graph's cycle check
 * and its cached visit order are built from these.
 */
module Dag {

  type Arcs = set<(nat, nat)>

  predicate Distinct(s: seq<nat>)
  {
    forall i, j | 0 <= i < j < |s| :: s[i] != s[j]
  }

  function Elems(s: seq<nat>): set<nat>
  {
    set x | x in s
  }

  /** Every arc joins two nodes of `nodes`. */
  predicate Within(arcs: Arcs, nodes: set<nat>)
  {
    forall p | p in arcs :: p.0 in nodes && p.1 in nodes
  }

  /** The index of the first occurrence of `x` in `s`. */
  function Pos(s: seq<nat>, x: nat): (i: nat)
    requires x in s
    ensures i < |s| && s[i] == x
    ensures forall j | 0 <= j < i :: s[j] != x
  {
    if s[0] == x then 0 else 1 + Pos(s[1..], x)
  }

  lemma {:induction false} PosOfDistinct(s: seq<nat>, i: nat)
    requires Distinct(s) && i < |s|
    ensures Pos(s, s[i]) == i
  {
  }

  lemma {:induction false} PosConcat(a: seq<nat>, b: seq<nat>, x: nat)
    requires x in a + b
    ensures x in a ==> Pos(a + b, x) == Pos(a, x)
    ensures x !in a ==> x in b && Pos(a + b, x) == |a| + Pos(b, x)
    decreases |a|
  {
    if a == [] {
      assert a + b == b;
    } else if a[0] != x {
      assert (a + b)[1..] == a[1..] + b;
      PosConcat(a[1..], b, x);
    }
  }

  /** Every arc between two listed nodes points forward in `ord`. */
  predicate Respects(ord: seq<nat>, arcs: Arcs)
  {
    forall p | p in arcs && p.0 in ord && p.1 in ord :: Pos(ord, p.0) < Pos(ord, p.1)
  }

  /** `ord` lists every node of `nodes` exactly once, sources before targets. */
  predicate IsTopoOrder(ord: seq<nat>, nodes: set<nat>, arcs: Arcs)
  {
    Distinct(ord) && Elems(ord) == nodes && Respects(ord, arcs)
  }

  ghost predicate HasTopoOrder(nodes: set<nat>, arcs: Arcs)
  {
    exists ord :: IsTopoOrder(ord, nodes, arcs)
  }

  ghost predicate IsPath(arcs: Arcs, p: seq<nat>)
  {
    |p| >= 1 && forall i | 0 <= i < |p| - 1 :: (p[i], p[i + 1]) in arcs
  }

  /** `b` is reachable from `a` by zero or more arcs. */
  ghost predicate Reaches(arcs: Arcs, a: nat, b: nat)
  {
    exists p :: IsPath(arcs, p) && p[0] == a && p[|p| - 1] == b
  }

  /** No arc closes a cycle: its target never leads back to its source. */
  ghost predicate Acyclic(arcs: Arcs)
  {
    forall p | p in arcs :: !Reaches(arcs, p.1, p.0)
  }

  // ---------------------------------------------------------------------
  // Filtering a sequence of nodes

  /** The elements of `s` that lie in `keep`, in the order of `s`. */
  function Filter(s: seq<nat>, keep: set<nat>): (r: seq<nat>)
    ensures Elems(r) == Elems(s) * keep
    ensures Distinct(s) ==> Distinct(r)
    ensures |r| <= |s|
  {
    if s == [] then []
    else
      var rest := Filter(s[1..], keep);
      assert Elems(s) == {s[0]} + Elems(s[1..]);
      if s[0] in keep then
        assert Elems([s[0]] + rest) == {s[0]} + Elems(rest);
        assert Distinct(s) ==> s[0] !in Elems(s[1..]);
        assert Distinct(s) ==> Distinct(s[1..]);
        [s[0]] + rest
      else rest
  }

  lemma {:induction false} FilterHasKept(s: seq<nat>, keep: set<nat>, x: nat)
    requires x in s && x in keep
    ensures x in Filter(s, keep)
  {
    assert x in Elems(s);
    assert x in Elems(Filter(s, keep));
  }

  lemma {:induction false} FilterCons(s: seq<nat>, keep: set<nat>)
    requires s != []
    ensures Filter(s, keep) == (if s[0] in keep then [s[0]] else []) + Filter(s[1..], keep)
  {
  }

  lemma {:induction false} PosTail(s: seq<nat>, x: nat)
    requires x in s && s[0] != x
    ensures x in s[1..] && Pos(s, x) == 1 + Pos(s[1..], x)
  {
  }

  lemma {:induction false} FilterKeepsOrder(s: seq<nat>, keep: set<nat>, a: nat, b: nat)
    requires Distinct(s) && a in s && b in s && a in keep && b in keep
    requires Pos(s, a) < Pos(s, b)
    ensures a in Filter(s, keep) && b in Filter(s, keep)
    ensures Pos(Filter(s, keep), a) < Pos(Filter(s, keep), b)
    decreases |s|
  {
    FilterHasKept(s, keep, a);
    FilterHasKept(s, keep, b);
    var rest := Filter(s[1..], keep);
    var head: seq<nat> := if s[0] in keep then [s[0]] else [];
    FilterCons(s, keep);
    if s[0] == a {
      assert Filter(s, keep)[0] == a;
    } else {
      assert s[0] != b;
      PosTail(s, a);
      PosTail(s, b);
      assert Distinct(s[1..]);
      FilterKeepsOrder(s[1..], keep, a, b);
      PosConcat(head, rest, a);
      PosConcat(head, rest, b);
    }
  }


  lemma {:induction false} FilterRespects(s: seq<nat>, keep: set<nat>, arcs: Arcs)
    requires Distinct(s) && Respects(s, arcs)
    ensures Respects(Filter(s, keep), arcs)
  {
    var r := Filter(s, keep);
    forall p | p in arcs && p.0 in r && p.1 in r
      ensures Pos(r, p.0) < Pos(r, p.1)
    {
      assert p.0 in Elems(r) && p.1 in Elems(r);
      FilterKeepsOrder(s, keep, p.0, p.1);
    }
  }

  /** Restricting a topological order to a subset of its nodes. */
  lemma {:induction false} RestrictOrder(ord: seq<nat>, nodes: set<nat>, arcs: Arcs, sub: set<nat>)
    requires IsTopoOrder(ord, nodes, arcs) && sub <= nodes
    ensures IsTopoOrder(Filter(ord, sub), sub, arcs)
  {
    FilterRespects(ord, sub, arcs);
  }

  // ---------------------------------------------------------------------
  // Topological orders under graph edits

  /** Dropping arcs keeps an order topological. */
  lemma {:induction false} FewerArcsKeepOrder(ord: seq<nat>, nodes: set<nat>, arcs: Arcs, fewer: Arcs)
    requires IsTopoOrder(ord, nodes, arcs) && fewer <= arcs
    ensures IsTopoOrder(ord, nodes, fewer)
  {
  }

  /** A new node without arcs can be appended to a topological order. */
  lemma {:induction false} AppendNode(ord: seq<nat>, nodes: set<nat>, arcs: Arcs, x: nat)
    requires IsTopoOrder(ord, nodes, arcs) && x !in nodes
    requires forall p | p in arcs :: p.0 != x && p.1 != x
    ensures IsTopoOrder(ord + [x], nodes + {x}, arcs)
  {
    var o := ord + [x];
    assert Elems(o) == nodes + {x};
    forall p | p in arcs && p.0 in o && p.1 in o
      ensures Pos(o, p.0) < Pos(o, p.1)
    {
      assert p.0 in ord && p.1 in ord;
      PosConcat(ord, [x], p.0);
      PosConcat(ord, [x], p.1);
    }
  }

  /** Removing a node and every arc touching it keeps a topological order. */
  lemma {:induction false} RemoveNodeKeepsOrder(ord: seq<nat>, nodes: set<nat>, arcs: Arcs, x: nat, fewer: Arcs)
    requires IsTopoOrder(ord, nodes, arcs) && fewer <= arcs
    ensures HasTopoOrder(nodes - {x}, fewer)
  {
    RestrictOrder(ord, nodes, arcs, nodes - {x});
    FewerArcsKeepOrder(Filter(ord, nodes - {x}), nodes - {x}, arcs, fewer);
  }

  // ---------------------------------------------------------------------
  // Paths and reachability

  lemma {:induction false} ExtendPath(arcs: Arcs, a: nat, b: nat, c: nat)
    requires Reaches(arcs, a, b) && (b, c) in arcs
    ensures Reaches(arcs, a, c)
  {
    var p :| IsPath(arcs, p) && p[0] == a && p[|p| - 1] == b;
    var q := p + [c];
    assert IsPath(arcs, q);
  }

  lemma {:induction false} ReachesSelf(arcs: Arcs, a: nat)
    ensures Reaches(arcs, a, a)
  {
    assert IsPath(arcs, [a]);
  }

  /** The nodes one arc away from `s`. */
  function Succ(arcs: Arcs, s: set<nat>): set<nat>
  {
    set p | p in arcs && p.0 in s :: p.1
  }

  lemma {:induction false} SuccMember(arcs: Arcs, s: set<nat>, p: (nat, nat))
    requires p in arcs && p.0 in s
    ensures p.1 in Succ(arcs, s)
  {
  }

  lemma {:induction false} StrictSubsetSmaller(a: set<nat>, b: set<nat>)
    requires a < b
    ensures |a| < |b|
  {
    assert !(forall x :: x in b ==> x in a);
    var x :| x in b && x !in a;
    assert x in b - a;
    assert b == a + (b - a);
    assert a * (b - a) == {};
  }

  /** The least superset of `s` closed under arcs, computed by iteration. */
  function Closure(arcs: Arcs, nodes: set<nat>, s: set<nat>): (r: set<nat>)
    requires s <= nodes && Within(arcs, nodes)
    ensures s <= r <= nodes
    ensures Succ(arcs, r) <= r
    decreases |nodes - s|
  {
    var next := s + Succ(arcs, s);
    if next == s then s
    else
      StrictSubsetSmaller(nodes - next, nodes - s);
      Closure(arcs, nodes, next)
  }

  lemma {:induction false} ClosureSound(arcs: Arcs, nodes: set<nat>, s: set<nat>, a: nat)
    requires s <= nodes && Within(arcs, nodes)
    requires forall x | x in s :: Reaches(arcs, a, x)
    ensures forall x | x in Closure(arcs, nodes, s) :: Reaches(arcs, a, x)
    decreases |nodes - s|
  {
    var next := s + Succ(arcs, s);
    if next != s {
      forall y | y in next
        ensures Reaches(arcs, a, y)
      {
        if y !in s {
          var p :| p in arcs && p.0 in s && p.1 == y;
          ExtendPath(arcs, a, p.0, y);
        }
      }
      StrictSubsetSmaller(nodes - next, nodes - s);
      ClosureSound(arcs, nodes, next, a);
    }
  }

  lemma {:induction false} ClosedSetHoldsPath(arcs: Arcs, r: set<nat>, p: seq<nat>)
    requires IsPath(arcs, p) && p[0] in r && Succ(arcs, r) <= r
    ensures p[|p| - 1] in r
    decreases |p|
  {
    if |p| > 1 {
      var q := p[..|p| - 1];
      assert IsPath(arcs, q);
      ClosedSetHoldsPath(arcs, r, q);
      SuccMember(arcs, r, (p[|p| - 2], p[|p| - 1]));
    }
  }

  /** The nodes reachable from `a`: exactly those `a` reaches by a path. */
  function ReachableFrom(arcs: Arcs, nodes: set<nat>, a: nat): (r: set<nat>)
    requires a in nodes && Within(arcs, nodes)
    ensures a in r && r <= nodes
    ensures Succ(arcs, r) <= r
    ensures forall b :: b in r <==> Reaches(arcs, a, b)
  {
    ReachesSelf(arcs, a);
    ClosureSound(arcs, nodes, {a}, a);
    var r := Closure(arcs, nodes, {a});
    forall b | Reaches(arcs, a, b)
      ensures b in r
    {
      var p :| IsPath(arcs, p) && p[0] == a && p[|p| - 1] == b;
      ClosedSetHoldsPath(arcs, r, p);
    }
    r
  }

  // ---------------------------------------------------------------------
  // Topological order, acyclicity and arc insertion

  lemma {:induction false} PathMovesForward(ord: seq<nat>, arcs: Arcs, p: seq<nat>)
    requires Distinct(ord) && Respects(ord, arcs) && Within(arcs, Elems(ord))
    requires IsPath(arcs, p) && |p| >= 2
    ensures p[0] in ord && p[|p| - 1] in ord
    ensures Pos(ord, p[0]) < Pos(ord, p[|p| - 1])
    decreases |p|
  {
    assert (p[0], p[1]) in arcs;
    if |p| > 2 {
      var q := p[1..];
      assert IsPath(arcs, q);
      PathMovesForward(ord, arcs, q);
    }
  }

  /** A graph that has a topological order contains no cycle. */
  lemma {:induction false} TopoOrderIsAcyclic(ord: seq<nat>, nodes: set<nat>, arcs: Arcs)
    requires IsTopoOrder(ord, nodes, arcs) && Within(arcs, nodes)
    ensures Acyclic(arcs)
  {
    forall p | p in arcs
      ensures !Reaches(arcs, p.1, p.0)
    {
      if Reaches(arcs, p.1, p.0) {
        var q :| IsPath(arcs, q) && q[0] == p.1 && q[|q| - 1] == p.0;
        assert p.0 in ord && p.1 in ord;
        if |q| >= 2 {
          PathMovesForward(ord, arcs, q);
        }
        assert false;
      }
    }
  }

  lemma {:induction false} ConcatDistinct(a: seq<nat>, b: seq<nat>)
    requires Distinct(a) && Distinct(b) && Elems(a) * Elems(b) == {}
    ensures Distinct(a + b) && Elems(a + b) == Elems(a) + Elems(b)
  {
    var o := a + b;
    forall i, j | 0 <= i < j < |o|
      ensures o[i] != o[j]
    {
      if j < |a| {
        assert o[i] == a[i] && o[j] == a[j] && a[i] != a[j];
      } else if i >= |a| {
        assert o[i] == b[i - |a|] && o[j] == b[j - |a|] && b[i - |a|] != b[j - |a|];
      } else {
        assert o[i] == a[i] && o[j] == b[j - |a|];
        assert a[i] in Elems(a) && b[j - |a|] in Elems(b);
        assert a[i] !in Elems(a) * Elems(b);
      }
    }
  }

  /** An order of the front part is kept in the concatenation. */
  lemma {:induction false} FrontKeepsOrder(front: seq<nat>, back: seq<nat>, u: nat, v: nat)
    requires u in front && v in front && Pos(front, u) < Pos(front, v)
    ensures u in front + back && v in front + back
    ensures Pos(front + back, u) < Pos(front + back, v)
  {
    PosConcat(front, back, u);
    PosConcat(front, back, v);
  }

  /** An order of the back part is kept in the concatenation. */
  lemma {:induction false} BackKeepsOrder(front: seq<nat>, back: seq<nat>, u: nat, v: nat)
    requires u in back && v in back && u !in front && v !in front && Pos(back, u) < Pos(back, v)
    ensures u in front + back && v in front + back
    ensures Pos(front + back, u) < Pos(front + back, v)
  {
    PosConcat(front, back, u);
    PosConcat(front, back, v);
  }

  /**
   * Splitting a topological order into the nodes outside an arc-closed set
   * and the nodes inside it gives a topological order that puts every node
   * outside the set before every node inside it.
   */
  lemma {:induction false} SplitOrder(ord: seq<nat>, nodes: set<nat>, arcs: Arcs, r: set<nat>)
    requires IsTopoOrder(ord, nodes, arcs) && r <= nodes && Succ(arcs, r) <= r
    ensures var o := Filter(ord, nodes - r) + Filter(ord, r);
      && IsTopoOrder(o, nodes, arcs)
      && forall u, v | u in nodes - r && v in r :: u in o && v in o && Pos(o, u) < Pos(o, v)
  {
    var front := Filter(ord, nodes - r);
    var back := Filter(ord, r);
    var o := front + back;
    ConcatDistinct(front, back);
    forall u, v | u in nodes - r && v in r
      ensures u in o && v in o && Pos(o, u) < Pos(o, v)
    {
      assert u in Elems(front) && v in Elems(back) && v !in Elems(front);
      PosConcat(front, back, u);
      PosConcat(front, back, v);
    }
    forall p | p in arcs && p.0 in o && p.1 in o
      ensures Pos(o, p.0) < Pos(o, p.1)
    {
      assert p.0 in Elems(o) && p.1 in Elems(o);
      if p.0 in r {
        SuccMember(arcs, r, p);
        FilterKeepsOrder(ord, r, p.0, p.1);
        assert p.0 !in Elems(front) && p.1 !in Elems(front);
        BackKeepsOrder(front, back, p.0, p.1);
      } else if p.1 !in r {
        FilterKeepsOrder(ord, nodes - r, p.0, p.1);
        FrontKeepsOrder(front, back, p.0, p.1);
      }
    }
  }

  lemma {:induction false} ForwardArcKeepsOrder(o: seq<nat>, nodes: set<nat>, arcs: Arcs, s: nat, t: nat)
    requires IsTopoOrder(o, nodes, arcs) && s in o && t in o && Pos(o, s) < Pos(o, t)
    ensures IsTopoOrder(o, nodes, arcs + {(s, t)})
  {
  }

  /**
   * Inserting the arc (s, t) keeps a topological order when t does not reach s:
   * the nodes not reachable from t, followed by those reachable from t.
   */
  lemma {:induction false} AddArcKeepsOrder(ord: seq<nat>, nodes: set<nat>, arcs: Arcs, s: nat, t: nat)
    requires IsTopoOrder(ord, nodes, arcs) && Within(arcs, nodes)
    requires s in nodes && t in nodes && !Reaches(arcs, t, s)
    ensures HasTopoOrder(nodes, arcs + {(s, t)})
  {
    var r := ReachableFrom(arcs, nodes, t);
    assert s !in r && t in r;
    SplitOrder(ord, nodes, arcs, r);
    var o := Filter(ord, nodes - r) + Filter(ord, r);
    assert s in o && t in o && Pos(o, s) < Pos(o, t);
    ForwardArcKeepsOrder(o, nodes, arcs, s, t);
    assert IsTopoOrder(o, nodes, arcs + {(s, t)});
  }

  // ---------------------------------------------------------------------
  // The same edits stated on the existence of a topological order

  lemma {:induction false} HasOrderAddNode(nodes: set<nat>, arcs: Arcs, x: nat)
    requires HasTopoOrder(nodes, arcs) && x !in nodes
    requires forall p | p in arcs :: p.0 != x && p.1 != x
    ensures HasTopoOrder(nodes + {x}, arcs)
  {
    var w :| IsTopoOrder(w, nodes, arcs);
    AppendNode(w, nodes, arcs, x);
  }

  lemma {:induction false} HasOrderRemoveNode(nodes: set<nat>, arcs: Arcs, x: nat, fewer: Arcs)
    requires HasTopoOrder(nodes, arcs) && fewer <= arcs
    ensures HasTopoOrder(nodes - {x}, fewer)
  {
    var w :| IsTopoOrder(w, nodes, arcs);
    RemoveNodeKeepsOrder(w, nodes, arcs, x, fewer);
  }

  lemma {:induction false} HasOrderFewerArcs(nodes: set<nat>, arcs: Arcs, fewer: Arcs)
    requires HasTopoOrder(nodes, arcs) && fewer <= arcs
    ensures HasTopoOrder(nodes, fewer)
  {
    var w :| IsTopoOrder(w, nodes, arcs);
    FewerArcsKeepOrder(w, nodes, arcs, fewer);
  }

  lemma {:induction false} HasOrderAddArc(nodes: set<nat>, arcs: Arcs, s: nat, t: nat)
    requires HasTopoOrder(nodes, arcs) && Within(arcs, nodes)
    requires s in nodes && t in nodes && !Reaches(arcs, t, s)
    ensures HasTopoOrder(nodes, arcs + {(s, t)})
  {
    var w :| IsTopoOrder(w, nodes, arcs);
    AddArcKeepsOrder(w, nodes, arcs, s, t);
  }

  /** A graph that has a topological order contains no cycle. */
  lemma {:induction false} HasOrderIsAcyclic(nodes: set<nat>, arcs: Arcs)
    requires HasTopoOrder(nodes, arcs) && Within(arcs, nodes)
    ensures Acyclic(arcs)
  {
    var w :| IsTopoOrder(w, nodes, arcs);
    TopoOrderIsAcyclic(w, nodes, arcs);
  }

  // ---------------------------------------------------------------------
  // Kahn's algorithm

  /** No listed node has an arc into `x`. */
  predicate IsSourceIn(pending: seq<nat>, arcs: Arcs, x: nat)
  {
    forall y | y in pending :: (y, x) !in arcs
  }

  /** The first index at or after `k` holding a source, or |pending| if none. */
  function FirstSource(pending: seq<nat>, arcs: Arcs, k: nat): (i: nat)
    requires k <= |pending|
    ensures k <= i <= |pending|
    ensures i < |pending| ==> IsSourceIn(pending, arcs, pending[i])
    ensures forall j | k <= j < i :: !IsSourceIn(pending, arcs, pending[j])
    decreases |pending| - k
  {
    if k == |pending| then k
    else if IsSourceIn(pending, arcs, pending[k]) then k
    else FirstSource(pending, arcs, k + 1)
  }

  /** A node set that has a topological order has a source. */
  lemma {:induction false} SourceExists(pending: seq<nat>, arcs: Arcs)
    requires |pending| > 0 && HasTopoOrder(Elems(pending), arcs)
    ensures FirstSource(pending, arcs, 0) < |pending|
  {
    var w :| IsTopoOrder(w, Elems(pending), arcs);
    assert pending[0] in Elems(w);
    var m := w[0];
    assert m in Elems(pending);
    forall y | y in pending
      ensures (y, m) !in arcs
    {
      assert y in Elems(w);
      assert Pos(w, m) == 0;
    }
    var i := Pos(pending, m);
    assert IsSourceIn(pending, arcs, pending[i]);
  }

  lemma {:induction false} PrependSource(n: nat, rest: seq<nat>, tail: seq<nat>, arcs: Arcs)
    requires IsTopoOrder(tail, Elems(rest), arcs) && n !in rest
    requires (n, n) !in arcs
    requires forall y | y in rest :: (y, n) !in arcs
    ensures IsTopoOrder([n] + tail, Elems(rest) + {n}, arcs)
  {
    var o := [n] + tail;
    assert Elems(o) == Elems(tail) + {n};
    assert n !in Elems(tail);
    forall p | p in arcs && p.0 in o && p.1 in o
      ensures Pos(o, p.0) < Pos(o, p.1)
    {
      assert p.0 in Elems(o);
      assert p.0 == n || p.0 in Elems(rest);
      assert p.1 != n;
      PosConcat([n], tail, p.0);
      PosConcat([n], tail, p.1);
    }
  }

  lemma {:induction false} DeleteAtDistinct(s: seq<nat>, i: nat)
    requires Distinct(s) && i < |s|
    ensures Distinct(s[..i] + s[i + 1..])
  {
    var rest := s[..i] + s[i + 1..];
    forall a, b | 0 <= a < b < |rest|
      ensures rest[a] != rest[b]
    {
      var a' := if a < i then a else a + 1;
      var b' := if b < i then b else b + 1;
      assert rest[a] == s[a'] && rest[b] == s[b'];
    }
  }

  lemma {:induction false} DeleteAtElems(s: seq<nat>, i: nat)
    requires Distinct(s) && i < |s|
    ensures Elems(s[..i] + s[i + 1..]) == Elems(s) - {s[i]}
  {
    var rest := s[..i] + s[i + 1..];
    forall x | x in Elems(s) - {s[i]}
      ensures x in Elems(rest)
    {
      var k := Pos(s, x);
      if k < i {
        assert rest[k] == x;
      } else {
        assert rest[k - 1] == x;
      }
    }
    forall x | x in Elems(rest)
      ensures x in Elems(s) - {s[i]}
    {
      var k := Pos(rest, x);
      if k < i {
        assert s[k] == x;
      } else {
        assert s[k + 1] == x;
      }
    }
  }

  lemma {:induction false} RemoveAt(pending: seq<nat>, i: nat, arcs: Arcs)
    requires Distinct(pending) && i < |pending| && HasTopoOrder(Elems(pending), arcs)
    ensures Distinct(pending[..i] + pending[i + 1..])
    ensures Elems(pending[..i] + pending[i + 1..]) == Elems(pending) - {pending[i]}
    ensures HasTopoOrder(Elems(pending[..i] + pending[i + 1..]), arcs)
  {
    var rest := pending[..i] + pending[i + 1..];
    DeleteAtDistinct(pending, i);
    DeleteAtElems(pending, i);
    var w :| IsTopoOrder(w, Elems(pending), arcs);
    RestrictOrder(w, Elems(pending), arcs, Elems(rest));
  }


  /**
   * Kahn's algorithm: repeatedly take the first pending node that no pending
   * node points to. It succeeds on every node set that admits some
   * topological order, and its result is one.
   */
  function Kahn(pending: seq<nat>, arcs: Arcs): (ord: seq<nat>)
    requires Distinct(pending) && HasTopoOrder(Elems(pending), arcs)
    ensures IsTopoOrder(ord, Elems(pending), arcs)
    decreases |pending|
  {
    if |pending| == 0 then []
    else
      SourceExists(pending, arcs);
      var i := FirstSource(pending, arcs, 0);
      var n := pending[i];
      var rest := pending[..i] + pending[i + 1..];
      RemoveAt(pending, i, arcs);
      var tail := Kahn(rest, arcs);
      assert forall y | y in rest :: y in Elems(pending);
      PrependSource(n, rest, tail, arcs);
      [n] + tail
  }

  /** The members of `keys` below `n`, in ascending order. */
  function IdsBelow(keys: set<nat>, n: nat): (r: seq<nat>)
    ensures Distinct(r)
    ensures Elems(r) == set x | x in keys && x < n
    ensures forall x | x in r :: x < n
  {
    if n == 0 then []
    else
      var r := IdsBelow(keys, n - 1);
      if n - 1 in keys then
        assert Elems(r + [n - 1]) == Elems(r) + {n - 1};
        assert n - 1 !in r;
        r + [n - 1]
      else r
  }

  /** The topological sort used for a flow's visit order. */
  function TopoSort(nodes: set<nat>, bound: nat, arcs: Arcs): (ord: seq<nat>)
    requires forall x | x in nodes :: x < bound
    requires HasTopoOrder(nodes, arcs)
    ensures IsTopoOrder(ord, nodes, arcs)
  {
    var pending := IdsBelow(nodes, bound);
    assert Elems(pending) == nodes;
    Kahn(pending, arcs)
  }
}
