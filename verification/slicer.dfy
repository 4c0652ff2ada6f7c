/** The backward slicer `TrackMemoryLoc` shared (line for line) by DynPass and
    StaPass: from a check's condition it walks back through the dependency graph
    and returns the fingerprint, the set of leaves it reaches.

    A node is expanded when it is not a load, address computation or merge and has
    an instruction operand; expanding it pushes its instruction operands, drops its
    constant operands and adds its opaque operands to the fingerprint. Every other
    node reached is itself a leaf.

    The source runs a worklist over a set without a visited set. Whatever order it
    pops in, it ends with the leaves reachable through expandable nodes, which is
    what `Leaves` defines by recursion on the rank; `TrackMemoryLocWorklist` runs
    the worklist, popping an arbitrary element, and is proved to agree with it.
 */
module Slicer {
  import opened Graph

  predicate Expandable(n: Node) {
    !IsLoad(n) && !IsGep(n) && !IsPhi(n) && HasInstOperand(n)
  }

  /** The fingerprint facts every slice satisfies: no constants, every
      instruction a non-expandable node of the graph, ranks bounded. */
  predicate Fingerprint(g: Graph, r: set<Value>, bound: nat) {
    forall u | u in r ::
      && !IsConstant(u)
      && ValueIn(g, u)
      && Rank(u) <= bound
      && (u.Inst? ==> !Expandable(g[u.id]))
  }

  /** Every element is a value of the graph ranked at most `b`; a fingerprint
      of node `c` is bounded by `c + 1`. */
  predicate Bounded(g: Graph, f: set<Value>, b: nat) {
    forall u | u in f :: ValueIn(g, u) && Rank(u) <= b
  }

  /** What one operand of an expanded node contributes. */
  function OperandLeaves(g: Graph, v: Value): (r: set<Value>)
    requires WF(g) && ValueIn(g, v)
    ensures Fingerprint(g, r, Rank(v))
    ensures v.Opaque? ==> r == {v}
    ensures IsConstant(v) ==> r == {}
    decreases Rank(v), 2, 0
  {
    match v
    case Inst(id) => Leaves(g, id)
    case Opaque(_) => {v}
    case _ => {}
  }

  /** The leaves reachable from node `id` through expandable nodes. */
  function Leaves(g: Graph, id: NodeId): (r: set<Value>)
    requires WF(g) && id in g
    ensures Fingerprint(g, r, id + 1)
    ensures !Expandable(g[id]) ==> r == {Inst(id)}
    decreases id + 1, 1, 0
  {
    if !Expandable(g[id]) then {Inst(id)}
    else PrefixLeaves(g, id, |g[id].operands|)
  }

  /** The union of what the first `k` operands of an expanded node contribute;
      all of it ranks below the node itself. */
  function PrefixLeaves(g: Graph, id: NodeId, k: nat): (r: set<Value>)
    requires WF(g) && id in g && !IsPhi(g[id]) && k <= |g[id].operands|
    ensures Fingerprint(g, r, id)
    decreases id + 1, 0, k
  {
    if k == 0 then {}
    else
      OperandBelow(g, id, k - 1);
      PrefixLeaves(g, id, k - 1) + OperandLeaves(g, g[id].operands[k - 1])
  }

  /** DynPass/StaPass `TrackMemoryLoc`: a branch is sliced from its condition (an
      empty slice when the condition is not an instruction); any other node is
      sliced from itself when it has an instruction operand, otherwise the slice
      is empty. */
  function TrackMemoryLoc(g: Graph, c: NodeId): (r: set<Value>)
    requires WF(g) && c in g
    ensures Fingerprint(g, r, c + 1)
    ensures !IsBr(g[c]) && !HasInstOperand(g[c]) ==> r == {}
    ensures IsBr(g[c]) && !g[c].operands[0].Inst? ==> r == {}
  {
    var n := g[c];
    if IsBr(n) then
      (if n.operands[0].Inst? then Leaves(g, n.operands[0].id) else {})
    else if HasInstOperand(n) then Leaves(g, c)
    else {}
  }

  /** Membership in the union over the first `k` operands. */
  lemma PrefixLeavesMembership(g: Graph, id: NodeId, k: nat, u: Value)
    requires WF(g) && id in g && !IsPhi(g[id]) && k <= |g[id].operands|
    ensures u in PrefixLeaves(g, id, k) <==>
              exists i :: 0 <= i < k && u in OperandLeaves(g, g[id].operands[i])
  {
    if u in PrefixLeaves(g, id, k) {
      var i := PrefixLeavesWitness(g, id, k, u);
    }
    if exists i :: 0 <= i < k && u in OperandLeaves(g, g[id].operands[i]) {
      var i :| 0 <= i < k && u in OperandLeaves(g, g[id].operands[i]);
      PrefixLeavesHas(g, id, k, i, u);
    }
  }

  /** A member of the union comes from one of the first `k` operands. */
  lemma {:induction false} PrefixLeavesWitness(g: Graph, id: NodeId, k: nat, u: Value) returns (i: nat)
    requires WF(g) && id in g && !IsPhi(g[id]) && k <= |g[id].operands|
    requires u in PrefixLeaves(g, id, k)
    ensures i < k && u in OperandLeaves(g, g[id].operands[i])
  {
    OperandBelow(g, id, k - 1);
    if u in OperandLeaves(g, g[id].operands[k - 1]) {
      i := k - 1;
    } else {
      i := PrefixLeavesWitness(g, id, k - 1, u);
    }
  }

  /** What one of the first `k` operands contributes is in the union. */
  lemma {:induction false} PrefixLeavesHas(g: Graph, id: NodeId, k: nat, i: nat, u: Value)
    requires WF(g) && id in g && !IsPhi(g[id]) && i < k <= |g[id].operands|
    requires u in OperandLeaves(g, g[id].operands[i])
    ensures u in PrefixLeaves(g, id, k)
  {
    OperandBelow(g, id, k - 1);
    if i < k - 1 {
      PrefixLeavesHas(g, id, k - 1, i, u);
    }
  }

  /** A node is a leaf of its own slice exactly when it is not expanded; an
      expanded node's slice is the union of its operands' contributions, so its
      opaque operands are in it and its constants are not. */
  lemma LeafClassification(g: Graph, id: NodeId, u: Value)
    requires WF(g) && id in g
    ensures Inst(id) in Leaves(g, id) <==> !Expandable(g[id])
    ensures Expandable(g[id]) ==>
              (u in Leaves(g, id) <==>
                 exists i {:trigger OperandLeaves(g, g[id].operands[i])} :: 0 <= i < |g[id].operands| && u in OperandLeaves(g, g[id].operands[i]))
    ensures Expandable(g[id]) && u in g[id].operands && u.Opaque? ==> u in Leaves(g, id)
  {
    if Expandable(g[id]) {
      PrefixLeavesMembership(g, id, |g[id].operands|, u);
    }
  }

  // ---- the worklist as the source runs it ----

  /** The number of paths below a node through expandable nodes; popping a node
      and pushing its instruction operands lowers the summed count by one. */
  function Paths(g: Graph, id: NodeId): (r: nat)
    requires WF(g) && id in g
    ensures r >= 1
    decreases id + 1, 1
  {
    if !Expandable(g[id]) then 1 else 1 + PrefixPaths(g, id, |g[id].operands|)
  }

  function PrefixPaths(g: Graph, id: NodeId, k: nat): nat
    requires WF(g) && id in g && !IsPhi(g[id]) && k <= |g[id].operands|
    decreases id + 1, 0, k
  {
    if k == 0 then 0
    else
      var v := g[id].operands[k - 1];
      OperandBelow(g, id, k - 1);
      PrefixPaths(g, id, k - 1) + (if v.Inst? then Paths(g, v.id) else 0)
  }

  predicate AllIn(g: Graph, work: seq<NodeId>) {
    forall i | 0 <= i < |work| :: work[i] in g
  }

  function WorkLeaves(g: Graph, work: seq<NodeId>): set<Value>
    requires WF(g) && AllIn(g, work)
  {
    if work == [] then {} else Leaves(g, work[0]) + WorkLeaves(g, work[1..])
  }

  function WorkPaths(g: Graph, work: seq<NodeId>): nat
    requires WF(g) && AllIn(g, work)
  {
    if work == [] then 0 else Paths(g, work[0]) + WorkPaths(g, work[1..])
  }

  lemma {:induction false} WorkConcat(g: Graph, a: seq<NodeId>, b: seq<NodeId>)
    requires WF(g) && AllIn(g, a) && AllIn(g, b)
    ensures AllIn(g, a + b)
    ensures WorkLeaves(g, a + b) == WorkLeaves(g, a) + WorkLeaves(g, b)
    ensures WorkPaths(g, a + b) == WorkPaths(g, a) + WorkPaths(g, b)
  {
    if a != [] {
      assert (a + b)[1..] == a[1..] + b;
      WorkConcat(g, a[1..], b);
    } else {
      assert a + b == b;
    }
  }

  lemma WorkSplit(g: Graph, work: seq<NodeId>, k: nat)
    requires WF(g) && AllIn(g, work) && k < |work|
    ensures AllIn(g, work[..k] + work[k + 1..])
    ensures WorkLeaves(g, work) == Leaves(g, work[k]) + WorkLeaves(g, work[..k] + work[k + 1..])
    ensures WorkPaths(g, work) == Paths(g, work[k]) + WorkPaths(g, work[..k] + work[k + 1..])
  {
    assert work == work[..k] + ([work[k]] + work[k + 1..]);
    WorkConcat(g, [work[k]], work[k + 1..]);
    WorkConcat(g, work[..k], [work[k]] + work[k + 1..]);
    WorkConcat(g, work[..k], work[k + 1..]);
  }

  /** The work list after meeting operand `v`: an instruction is pushed. */
  function Push(pushed: seq<NodeId>, v: Value): seq<NodeId> {
    if v.Inst? then pushed + [v.id] else pushed
  }

  /** The fingerprint after meeting operand `v`: an opaque value joins it. */
  function Collect(added: set<Value>, v: Value): set<Value> {
    if v.Opaque? then added + {v} else added
  }

  /** One operand step of expanding node `x`. */
  lemma ExpandStep(g: Graph, x: NodeId, j: nat, pushed: seq<NodeId>, added: set<Value>)
    requires WF(g) && x in g && Expandable(g[x]) && j < |g[x].operands| && AllIn(g, pushed)
    requires added + WorkLeaves(g, pushed) == PrefixLeaves(g, x, j)
    requires WorkPaths(g, pushed) == PrefixPaths(g, x, j)
    ensures var v := g[x].operands[j];
            && AllIn(g, Push(pushed, v))
            && Collect(added, v) + WorkLeaves(g, Push(pushed, v)) == PrefixLeaves(g, x, j + 1)
            && WorkPaths(g, Push(pushed, v)) == PrefixPaths(g, x, j + 1)
  {
    var v := g[x].operands[j];
    OperandBelow(g, x, j);
    if v.Inst? {
      WorkConcat(g, pushed, [v.id]);
      assert WorkLeaves(g, [v.id]) == Leaves(g, v.id);
      assert WorkPaths(g, [v.id]) == Paths(g, v.id);
    }
  }

  /** Expanding `x` replaces it by its instruction operands and its opaque operands. */
  lemma ExpandDone(g: Graph, x: NodeId, pushed: seq<NodeId>, added: set<Value>)
    requires WF(g) && x in g && Expandable(g[x]) && AllIn(g, pushed)
    requires added + WorkLeaves(g, pushed) == PrefixLeaves(g, x, |g[x].operands|)
    requires WorkPaths(g, pushed) == PrefixPaths(g, x, |g[x].operands|)
    ensures added + WorkLeaves(g, pushed) == Leaves(g, x)
    ensures WorkPaths(g, pushed) < Paths(g, x)
  {
  }

  /** Expanding node `x`: its instruction operands are pushed, its opaque
      operands join the fingerprint and its constants are dropped. Together they
      carry exactly the leaves of `x`, along strictly fewer paths. */
  method Expand(g: Graph, x: NodeId) returns (pushed: seq<NodeId>, added: set<Value>)
    requires WF(g) && x in g && Expandable(g[x])
    ensures AllIn(g, pushed)
    ensures added + WorkLeaves(g, pushed) == Leaves(g, x)
    ensures WorkPaths(g, pushed) < Paths(g, x)
  {
    var ops := g[x].operands;
    var j := 0;
    pushed := [];
    added := {};
    while j < |ops|
      invariant j <= |ops|
      invariant AllIn(g, pushed)
      invariant added + WorkLeaves(g, pushed) == PrefixLeaves(g, x, j)
      invariant WorkPaths(g, pushed) == PrefixPaths(g, x, j)
    {
      ExpandStep(g, x, j, pushed, added);
      pushed, added := Push(pushed, ops[j]), Collect(added, ops[j]);
      j := j + 1;
    }
    ExpandDone(g, x, pushed, added);
  }

  /** One round of the worklist: element `k` is popped; a leaf joins the
      fingerprint, an expandable node is expanded. */
  method WorkStep(g: Graph, work: seq<NodeId>, k: nat) returns (more: set<Value>, work': seq<NodeId>)
    requires WF(g) && AllIn(g, work) && k < |work|
    ensures AllIn(g, work')
    ensures more + WorkLeaves(g, work') == WorkLeaves(g, work)
    ensures WorkPaths(g, work') < WorkPaths(g, work)
  {
    var x := work[k];
    var rest := work[..k] + work[k + 1..];
    WorkSplit(g, work, k);
    if Expandable(g[x]) {
      var pushed;
      pushed, more := Expand(g, x);
      WorkConcat(g, rest, pushed);
      work' := rest + pushed;
    } else {
      more := {Inst(x)};
      work' := rest;
    }
  }

  /** The source's worklist: pop any element; a leaf joins the fingerprint, an
      expandable node is expanded. Its result is the fingerprint `TrackMemoryLoc`
      defines, whatever element is popped at each step. */
  method TrackMemoryLocWorklist(g: Graph, c: NodeId) returns (fp: set<Value>)
    requires WF(g) && c in g
    ensures fp == TrackMemoryLoc(g, c)
  {
    var n := g[c];
    var work: seq<NodeId> := [];
    if IsBr(n) {
      if n.operands[0].Inst? {
        work := [n.operands[0].id];
      }
    } else if HasInstOperand(n) {
      work := [c];
    }
    assert WorkLeaves(g, work) == TrackMemoryLoc(g, c);
    fp := {};
    while work != []
      invariant AllIn(g, work)
      invariant fp + WorkLeaves(g, work) == TrackMemoryLoc(g, c)
      decreases WorkPaths(g, work)
    {
      var k :| 0 <= k < |work|;
      var more;
      more, work := WorkStep(g, work, k);
      fp := fp + more;
    }
  }
}
