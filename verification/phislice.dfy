/** The two slicers that look for loop-carried values (merge nodes, `phi`).

    SafePass and DynPass `findPhiInst` repeatedly replace a non-merge node of the
    slice by its instruction operands until only merge nodes remain, and accept
    when exactly one merge node remains and it is an induction variable.

    DynPass2 `findPhiInst` slices both checks down to their leaf sets: merge
    nodes, opaque operands, and instructions all of whose operands are
    constants; a branch is followed through its condition only. It accepts when
    the two leaf sets have the same size, are not empty and one is contained in
    the other, which `LeafSetsMatchIsEquality` shows is plain equality.
 */
module PhiSlice {
  import opened Graph

  // ---- SafePass / DynPass: the merge nodes reachable through non-merge nodes ----

  function MergeReach(g: Graph, id: NodeId): (r: set<NodeId>)
    requires WF(g) && id in g
    ensures forall p | p in r :: p in g && IsPhi(g[p]) && p <= id
    ensures IsPhi(g[id]) <==> id in r
    decreases id, 1, 0
  {
    if IsPhi(g[id]) then {id} else MergeReachPrefix(g, id, |g[id].operands|)
  }

  function MergeReachPrefix(g: Graph, id: NodeId, k: nat): (r: set<NodeId>)
    requires WF(g) && id in g && !IsPhi(g[id]) && k <= |g[id].operands|
    ensures forall p | p in r :: p in g && IsPhi(g[p]) && p < id
    decreases id, 0, k
  {
    if k == 0 then {}
    else
      var v := g[id].operands[k - 1];
      OperandBelow(g, id, k - 1);
      MergeReachPrefix(g, id, k - 1) + (if v.Inst? then MergeReach(g, v.id) else {})
  }

  /** SafePass and DynPass `findPhiInst`: the slice of the check is one merge node
      named as an induction variable. */
  function FindPhiInstIndVar(g: Graph, sc: NodeId): (r: bool)
    requires WF(g) && sc in g
    ensures r <==> exists p :: MergeReach(g, sc) == {p} && g[p].isIndVar
    ensures r && IsPhi(g[sc]) ==> g[sc].isIndVar
  {
    var s := MergeReach(g, sc);
    if |s| == 1 then
      var p := TheElement(s);
      g[p].isIndVar
    else false
  }

  // ---- DynPass2: leaf sets ----

  /** A leaf of DynPass2's slicer: a merge node, an opaque operand, or a
      non-branch instruction all of whose operands are constants. */
  predicate PhiLeaf(g: Graph, u: Value) {
    || u.Opaque?
    || (u.Inst? && u.id in g && (IsPhi(g[u.id]) || (!IsBr(g[u.id]) && AllConstant(g[u.id]))))
  }

  function PhiLeaves(g: Graph, id: NodeId): (r: set<Value>)
    requires WF(g) && id in g
    ensures forall u | u in r :: PhiLeaf(g, u) && Rank(u) <= id + 1
    ensures IsPhi(g[id]) ==> r == {Inst(id)}
    decreases id, 1, 0
  {
    if IsPhi(g[id]) then {Inst(id)}
    else if IsBr(g[id]) then
      OperandBelow(g, id, 0);
      var c := g[id].operands[0];
      if c.Inst? then PhiLeaves(g, c.id) else {}
    else
      PhiLeavesPrefix(g, id, |g[id].operands|) + (if AllConstant(g[id]) then {Inst(id)} else {})
  }

  /** What the first `k` operands of a non-merge node contribute: the leaves of
      an instruction operand, an opaque operand itself, nothing for a constant. */
  function PhiLeavesPrefix(g: Graph, id: NodeId, k: nat): (r: set<Value>)
    requires WF(g) && id in g && !IsPhi(g[id]) && k <= |g[id].operands|
    ensures forall u | u in r :: PhiLeaf(g, u) && Rank(u) <= id
    decreases id, 0, k
  {
    if k == 0 then {}
    else
      var v := g[id].operands[k - 1];
      OperandBelow(g, id, k - 1);
      PhiLeavesPrefix(g, id, k - 1)
        + (if v.Inst? then PhiLeaves(g, v.id) else if v.Opaque? then {v} else {})
  }

  /** DynPass2 `findPhiInst`'s final test, as written: equal sizes, not empty,
      and every leaf of the check found among the leaves of the other. */
  predicate LeafSetsMatch(g: Graph, a: NodeId, b: NodeId)
    requires WF(g) && a in g && b in g
  {
    var s := PhiLeaves(g, b);
    var u := PhiLeaves(g, a);
    |s| == |u| && s != {} && s <= u
  }

  /** The test accepts exactly when the two leaf sets are equal and not empty;
      so the order of its arguments does not matter. */
  lemma LeafSetsMatchIsEquality(g: Graph, a: NodeId, b: NodeId)
    requires WF(g) && a in g && b in g
    ensures LeafSetsMatch(g, a, b) <==> PhiLeaves(g, a) == PhiLeaves(g, b) != {}
    ensures LeafSetsMatch(g, a, b) == LeafSetsMatch(g, b, a)
  {
    var s := PhiLeaves(g, b);
    var u := PhiLeaves(g, a);
    if |s| == |u| {
      if s <= u {
        SubsetCard(s, u);
      }
      if u <= s {
        SubsetCard(u, s);
      }
    }
  }

  /** The comparison loop of DynPass2 `findPhiInst`: when the sizes agree, take
      the elements of the check's set one at a time and stop at the first one
      missing from the other set. */
  method CompareLeafSets(s: set<Value>, u: set<Value>) returns (flag: bool)
    ensures flag <==> s == u && s != {}
  {
    flag := false;
    if |s| == |u| {
      var rest := s;
      while rest != {}
        invariant rest <= s
        invariant s - rest <= u
        invariant flag <==> s - rest != {}
        decreases |rest|
      {
        var x :| x in rest;
        rest := rest - {x};
        flag := x in u;
        if !flag {
          break;
        }
      }
      if flag {
        assert s - rest == s;
        SubsetCard(s, u);
      }
    }
  }

  /** The merge nodes reached by SafePass/DynPass's slice are exactly the merge
      nodes among DynPass2's leaves, when branches have only their condition as
      an instruction operand. */
  lemma {:induction false} MergeReachIsPhiPart(g: Graph, id: NodeId)
    requires WF(g) && BrConditionOnly(g) && id in g
    ensures MergeReach(g, id) == PhiPart(g, PhiLeaves(g, id))
    decreases id, 1
  {
    if IsPhi(g[id]) {
    } else if IsBr(g[id]) {
      BrReachIsPhiPart(g, id);
      BrPrefix(g, id, |g[id].operands|);
    } else {
      PrefixReachIsPhiPart(g, id, |g[id].operands|);
      PhiPartUnion(g, PhiLeavesPrefix(g, id, |g[id].operands|), if AllConstant(g[id]) then {Inst(id)} else {});
    }
  }

  /** The merge nodes of a set of values. */
  function PhiPart(g: Graph, s: set<Value>): (r: set<NodeId>)
    ensures forall p :: p in r <==> Inst(p) in s && p in g && IsPhi(g[p])
  {
    set u | u in s && u.Inst? && u.id in g && IsPhi(g[u.id]) :: u.id
  }

  lemma PhiPartUnion(g: Graph, a: set<Value>, b: set<Value>)
    ensures PhiPart(g, a + b) == PhiPart(g, a) + PhiPart(g, b)
  {
  }

  /** A branch's slice in SafePass/DynPass goes through its condition only. */
  lemma {:induction false} BrPrefix(g: Graph, id: NodeId, k: nat)
    requires WF(g) && BrConditionOnly(g) && id in g && IsBr(g[id]) && 0 < k <= |g[id].operands|
    ensures MergeReachPrefix(g, id, k) ==
              (OperandBelow(g, id, 0);
               if g[id].operands[0].Inst? then MergeReach(g, g[id].operands[0].id) else {})
  {
    if k > 1 {
      BrPrefix(g, id, k - 1);
    }
  }

  /** For a branch, the merge nodes reached through its condition. */
  lemma BrReachIsPhiPart(g: Graph, id: NodeId)
    requires WF(g) && BrConditionOnly(g) && id in g && IsBr(g[id])
    ensures MergeReachPrefix(g, id, |g[id].operands|) == PhiPart(g, PhiLeaves(g, id))
    decreases id, 0
  {
    BrPrefix(g, id, |g[id].operands|);
    OperandBelow(g, id, 0);
    var c := g[id].operands[0];
    if c.Inst? {
      MergeReachIsPhiPart(g, c.id);
    }
  }

  /** What one operand contributes to either slice. */
  function OperandReach(g: Graph, v: Value): set<NodeId>
    requires WF(g) && ValueIn(g, v)
  {
    if v.Inst? then MergeReach(g, v.id) else {}
  }

  function OperandPhiLeaves(g: Graph, v: Value): set<Value>
    requires WF(g) && ValueIn(g, v)
  {
    if v.Inst? then PhiLeaves(g, v.id) else if v.Opaque? then {v} else {}
  }

  /** For any other node, the merge nodes reached through its first `k`
      operands. */
  lemma {:induction false} PrefixReachIsPhiPart(g: Graph, id: NodeId, k: nat)
    requires WF(g) && BrConditionOnly(g) && id in g && !IsPhi(g[id]) && !IsBr(g[id])
    requires k <= |g[id].operands|
    ensures MergeReachPrefix(g, id, k) == PhiPart(g, PhiLeavesPrefix(g, id, k))
    decreases id, 0, k, 1
  {
    if k > 0 {
      var v := g[id].operands[k - 1];
      OperandBelow(g, id, k - 1);
      PrefixReachIsPhiPart(g, id, k - 1);
      OperandReachIsPhiPart(g, id, v);
      var a := PhiLeavesPrefix(g, id, k - 1);
      calc {
        MergeReachPrefix(g, id, k);
        MergeReachPrefix(g, id, k - 1) + OperandReach(g, v);
        PhiPart(g, a) + PhiPart(g, OperandPhiLeaves(g, v));
        { PhiPartUnion(g, a, OperandPhiLeaves(g, v)); }
        PhiPart(g, a + OperandPhiLeaves(g, v));
        PhiPart(g, PhiLeavesPrefix(g, id, k));
      }
    }
  }

  /** The two slices agree on one operand of node `id`. */
  lemma OperandReachIsPhiPart(g: Graph, id: NodeId, v: Value)
    requires WF(g) && BrConditionOnly(g) && ValueIn(g, v) && Rank(v) <= id
    ensures OperandReach(g, v) == PhiPart(g, OperandPhiLeaves(g, v))
    decreases id, 0, 0, 0
  {
    if v.Inst? {
      MergeReachIsPhiPart(g, v.id);
    }
  }
}
