/** StaPass `SameMemoryLoc` and `findSameSource`. StaPass slices with the same
    `TrackMemoryLoc` as DynPass; its leaf matching is stricter: two distinct
    leaves match only when they have the same opcode, loads must have as many
    operands, address computations must have exactly the opcode
    `getelementptr`, and a leaf is never compared with the operands of the
    other.
 */
module StaMatch {
  import opened Graph
  import opened Slicer

  /** StaPass `findSameSource`. */
  predicate FindSameSource(g: Graph, a: NodeId, b: NodeId)
    requires WF(g) && a in g && b in g
    decreases a + b + 2, 3, 0
  {
    SameMemoryLoc(g, TrackMemoryLoc(g, a), TrackMemoryLoc(g, b), a + 1, b + 1)
  }

  /** StaPass `SameMemoryLoc`: the first fingerprint is not empty, no larger
      than the second, and each of its leaves matches one of the second's. */
  predicate SameMemoryLoc(g: Graph, f1: set<Value>, f2: set<Value>, ghost b1: nat, ghost b2: nat)
    requires WF(g) && Bounded(g, f1, b1) && Bounded(g, f2, b2)
    decreases b1 + b2, 2, 0
  {
    && 0 < |f1| <= |f2|
    && forall x | x in f1 :: HasMatch(g, x, f2, b2)
  }

  predicate HasMatch(g: Graph, x: Value, f: set<Value>, ghost b: nat)
    requires WF(g) && ValueIn(g, x) && Bounded(g, f, b)
    decreases Rank(x) + b, 1, 1
  {
    exists y | y in f :: Match(g, x, y)
  }

  /** StaPass's leaf rule. Two distinct leaves it matches are instructions
      with the same opcode. */
  function Match(g: Graph, x: Value, y: Value): (r: bool)
    requires WF(g) && ValueIn(g, x) && ValueIn(g, y)
    ensures r && x != y ==> x.Inst? && y.Inst? && g[x.id].opcode == g[y.id].opcode
    decreases Rank(x) + Rank(y), 1, 0
  {
    if x == y then true
    else if !x.Inst? || !y.Inst? then false
    else
      var n1 := g[x.id];
      var n2 := g[y.id];
      if n1.opcode != n2.opcode then false
      else if |n1.operands| == 0 && |n2.operands| == 0 then true
      else if IsPhi(n1) then false
      else if IsLoad(n1) && |n1.operands| == |n2.operands| then
        var a1 := n1.operands[0];
        var a2 := n2.operands[0];
        OperandBelow(g, x.id, 0);
        OperandBelow(g, y.id, 0);
        if a1.Inst? then a2.Inst? && FindSameSource(g, a1.id, a2.id)
        else a1 == a2
      else if n1.opcode == GEP && |n1.operands| == |n2.operands| && |n1.operands| > 0 then
        GepOperands(g, x.id, y.id, |n1.operands|)
      else if |n1.operands| == |n2.operands| && |n1.operands| > 0 then
        n1.operands == n2.operands
      else false
  }

  /** The address-computation rule over the first `k` operand pairs: an
      instruction index needs an instruction index with the same source, an
      integer constant index must not exceed an integer constant index in the
      other (any other operand there is accepted), and any other operand must
      be identical. */
  predicate GepOperands(g: Graph, p: NodeId, q: NodeId, k: nat)
    requires WF(g) && p in g && q in g && g[p].opcode == GEP && g[q].opcode == GEP
    requires |g[p].operands| == |g[q].operands| && k <= |g[p].operands|
    decreases p + q + 2, 0, k
  {
    if k == 0 then true
    else
      var o1 := g[p].operands[k - 1];
      var o2 := g[q].operands[k - 1];
      OperandBelow(g, p, k - 1);
      OperandBelow(g, q, k - 1);
      && GepOperands(g, p, q, k - 1)
      && (if o1.Inst? then o2.Inst? && FindSameSource(g, o1.id, o2.id)
          else if o1.ConstInt? then (o2.ConstInt? ==> o1.n <= o2.n)
          else o1 == o2)
  }

  /** Distinct merge leaves never match. */
  lemma DistinctPhisNeverMatch(g: Graph, p: NodeId, q: NodeId)
    requires WF(g) && p in g && q in g && p != q && IsPhi(g[p]) && IsPhi(g[q])
    requires |g[p].operands| != 0
    ensures !Match(g, Inst(p), Inst(q))
  {
  }

  /** Two distinct loads match exactly when they have as many operands and
      either both addresses are instructions with the same source or the two
      addresses are the same non-instruction value. */
  lemma LoadMatch(g: Graph, p: NodeId, q: NodeId)
    requires WF(g) && p in g && q in g && p != q && IsLoad(g[p]) && IsLoad(g[q])
    ensures Match(g, Inst(p), Inst(q)) <==>
              && |g[p].operands| == |g[q].operands|
              && (OperandBelow(g, p, 0);
                  OperandBelow(g, q, 0);
                  var a1 := g[p].operands[0];
                  var a2 := g[q].operands[0];
                  if a1.Inst? then a2.Inst? && FindSameSource(g, a1.id, a2.id) else a1 == a2)
  {
  }

  /** Two distinct address computations do not match when some integer constant
      index of the first exceeds the second's. */
  lemma GepIndexBlocksMatch(g: Graph, p: NodeId, q: NodeId, i: nat)
    requires WF(g) && p in g && q in g && p != q && g[p].opcode == GEP && g[q].opcode == GEP
    requires |g[p].operands| == |g[q].operands| && i < |g[p].operands|
    requires g[p].operands[i].ConstInt? && g[q].operands[i].ConstInt?
    requires g[p].operands[i].n > g[q].operands[i].n
    ensures !Match(g, Inst(p), Inst(q))
  {
    GepOperandsBlocked(g, p, q, i, |g[p].operands|);
  }

  lemma {:induction false} GepOperandsBlocked(g: Graph, p: NodeId, q: NodeId, i: nat, k: nat)
    requires WF(g) && p in g && q in g && g[p].opcode == GEP && g[q].opcode == GEP
    requires |g[p].operands| == |g[q].operands| && i < k <= |g[p].operands|
    requires g[p].operands[i].ConstInt? && g[q].operands[i].ConstInt?
    requires g[p].operands[i].n > g[q].operands[i].n
    ensures !GepOperands(g, p, q, k)
  {
    if i < k - 1 {
      GepOperandsBlocked(g, p, q, i, k - 1);
    }
  }

  /** A non-empty fingerprint contained in another has the same memory
      location as it. */
  lemma SubsetSameMemoryLoc(g: Graph, f1: set<Value>, f2: set<Value>, b1: nat, b2: nat)
    requires WF(g) && Bounded(g, f1, b1) && Bounded(g, f2, b2)
    requires f1 != {} && f1 <= f2
    ensures SameMemoryLoc(g, f1, f2, b1, b2)
  {
    forall x | x in f1
      ensures HasMatch(g, x, f2, b2)
    {
      assert Match(g, x, x);
    }
    assert |f1| <= |f2| by {
      assert f2 == f1 + (f2 - f1);
    }
  }

  /** A check with a non-empty fingerprint has the same source as itself; one
      with an empty fingerprint has the same source as nothing. */
  lemma FindSameSourceReflexive(g: Graph, a: NodeId, b: NodeId)
    requires WF(g) && a in g && b in g
    ensures TrackMemoryLoc(g, a) != {} ==> FindSameSource(g, a, a)
    ensures TrackMemoryLoc(g, a) == {} ==> !FindSameSource(g, a, b)
  {
    if TrackMemoryLoc(g, a) != {} {
      SubsetSameMemoryLoc(g, TrackMemoryLoc(g, a), TrackMemoryLoc(g, a), a + 1, a + 1);
    }
  }
}
