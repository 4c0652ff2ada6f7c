/** `optimizeCheckAway`, identical in the four passes: a redundant check's
    branch gets a constant condition so that it always takes its regular
    successor. `getRegularBranch` is not part of this model; its answer is the
    parameter `regular`.

    A conditional branch takes successor 0 when its condition is true and
    successor 1 when it is false. Regular branch 0 therefore gets the condition
    true, regular branch 1 the condition false, and any other answer leaves the
    branch as it is.
 */
module Rewrite {
  import opened Graph
  import Slicer

  /** The boolean constants as integer constants of width 1. */
  const TRUE: Value := ConstInt(1, 1)
  const FALSE: Value := ConstInt(1, 0)

  /** The successor a branch with constant condition `c` takes. */
  function Taken(c: Value): nat
    requires c.ConstInt?
  {
    if c.n != 0 then 0 else 1
  }

  /** `optimizeCheckAway` on branch `b` whose regular successor is `regular`. */
  function OptimizeCheckAway(g: Graph, b: NodeId, regular: nat): (g': Graph)
    requires b in g && IsBr(g[b]) && |g[b].operands| > 0
    ensures g'.Keys == g.Keys
    ensures forall n | n in g && n != b :: g'[n] == g[n]
    ensures g'[b].opcode == g[b].opcode && g'[b].isIndVar == g[b].isIndVar
    ensures |g'[b].operands| == |g[b].operands| && g'[b].operands[1..] == g[b].operands[1..]
    ensures regular <= 1 ==> g'[b].operands[0].ConstInt? && Taken(g'[b].operands[0]) == regular
    ensures regular > 1 ==> g' == g
  {
    if regular == 0 then SetCondition(g, b, TRUE)
    else if regular == 1 then SetCondition(g, b, FALSE)
    else g
  }

  function SetCondition(g: Graph, b: NodeId, c: Value): Graph
    requires b in g && |g[b].operands| > 0
  {
    g[b := g[b].(operands := g[b].operands[0 := c])]
  }

  /** Rewriting a check again changes nothing. */
  lemma OptimizeCheckAwayIdempotent(g: Graph, b: NodeId, regular: nat)
    requires b in g && IsBr(g[b]) && |g[b].operands| > 0
    ensures OptimizeCheckAway(OptimizeCheckAway(g, b, regular), b, regular) == OptimizeCheckAway(g, b, regular)
  {
    var g1 := OptimizeCheckAway(g, b, regular);
    if regular <= 1 {
      var g2 := OptimizeCheckAway(g1, b, regular);
      assert g2[b] == g1[b] by {
        assert g2[b].operands == g1[b].operands;
      }
      assert g2 == g1;
    }
  }

  /** Rewriting two different checks gives the same graph in either order. */
  lemma OptimizeCheckAwayCommutes(g: Graph, a: NodeId, ra: nat, b: NodeId, rb: nat)
    requires a in g && IsBr(g[a]) && |g[a].operands| > 0
    requires b in g && IsBr(g[b]) && |g[b].operands| > 0
    requires a != b
    ensures OptimizeCheckAway(OptimizeCheckAway(g, a, ra), b, rb) == OptimizeCheckAway(OptimizeCheckAway(g, b, rb), a, ra)
  {
    var g1 := OptimizeCheckAway(OptimizeCheckAway(g, a, ra), b, rb);
    var g2 := OptimizeCheckAway(OptimizeCheckAway(g, b, rb), a, ra);
    assert g1.Keys == g2.Keys;
    forall n | n in g1 ensures g1[n] == g2[n] {
      if n == a || n == b {
        assert g1[n].operands == g2[n].operands;
      }
    }
  }

  /** A rewrite keeps the graph well formed, and keeps branches out of operand
      positions and their labels out of instruction positions. */
  lemma OptimizeCheckAwayPreservesWF(g: Graph, b: NodeId, regular: nat)
    requires WF(g) && b in g && IsBr(g[b])
    ensures WF(OptimizeCheckAway(g, b, regular))
    ensures NoBrOperand(g) ==> NoBrOperand(OptimizeCheckAway(g, b, regular))
    ensures BrConditionOnly(g) ==> BrConditionOnly(OptimizeCheckAway(g, b, regular))
  {
    var g' := OptimizeCheckAway(g, b, regular);
    forall id, i | id in g' && 0 <= i < |g'[id].operands| && g'[id].operands[i].Inst?
      ensures g'[id].operands[i] == g[id].operands[i]
    {
      if id == b && i == 0 {
        assert regular > 1;
      }
    }
  }

  /** After its rewrite a check's fingerprint is empty. */
  lemma RewrittenFingerprintEmpty(g: Graph, b: NodeId, regular: nat)
    requires WF(g) && b in g && IsBr(g[b]) && regular <= 1
    ensures WF(OptimizeCheckAway(g, b, regular))
    ensures Slicer.TrackMemoryLoc(OptimizeCheckAway(g, b, regular), b) == {}
  {
    OptimizeCheckAwayPreservesWF(g, b, regular);
  }

  /** A rewrite leaves the fingerprint of every other check as it was: no slice
      goes through a branch, since no branch is an operand. */
  lemma RewriteKeepsOtherFingerprints(g: Graph, b: NodeId, regular: nat, c: NodeId)
    requires WF(g) && NoBrOperand(g) && b in g && IsBr(g[b]) && c in g && c != b
    ensures WF(OptimizeCheckAway(g, b, regular))
    ensures Slicer.TrackMemoryLoc(OptimizeCheckAway(g, b, regular), c) == Slicer.TrackMemoryLoc(g, c)
  {
    var g' := OptimizeCheckAway(g, b, regular);
    OptimizeCheckAwayPreservesWF(g, b, regular);
    if IsBr(g[c]) {
      if g[c].operands[0].Inst? {
        OperandBelow(g, c, 0);
        LeavesUnchanged(g, g', b, g[c].operands[0].id);
      }
    } else if HasInstOperand(g[c]) {
      LeavesUnchanged(g, g', b, c);
    }
  }

  /** Two graphs that differ only at branch `b`, which is no operand, have the
      same leaves below every other node. */
  lemma {:induction false} LeavesUnchanged(g: Graph, g': Graph, b: NodeId, id: NodeId)
    requires WF(g) && WF(g') && NoBrOperand(g) && b in g && IsBr(g[b])
    requires g'.Keys == g.Keys && forall n | n in g && n != b :: g'[n] == g[n]
    requires id in g && id != b
    ensures Slicer.Leaves(g', id) == Slicer.Leaves(g, id)
    decreases id, 1
  {
    if Slicer.Expandable(g[id]) {
      PrefixLeavesUnchanged(g, g', b, id, |g[id].operands|);
    }
  }

  lemma {:induction false} PrefixLeavesUnchanged(g: Graph, g': Graph, b: NodeId, id: NodeId, k: nat)
    requires WF(g) && WF(g') && NoBrOperand(g) && b in g && IsBr(g[b])
    requires g'.Keys == g.Keys && forall n | n in g && n != b :: g'[n] == g[n]
    requires id in g && id != b && !IsPhi(g[id]) && k <= |g[id].operands|
    ensures Slicer.PrefixLeaves(g', id, k) == Slicer.PrefixLeaves(g, id, k)
    decreases id, 0, k
  {
    if k > 0 {
      PrefixLeavesUnchanged(g, g', b, id, k - 1);
      var v := g[id].operands[k - 1];
      OperandBelow(g, id, k - 1);
      assert v.Inst? ==> v.id != b;
      OperandLeavesUnchanged(g, g', b, id, v);
    }
  }

  /** The contribution of an operand of node `id`, which is not `b`, is the
      same in both graphs. */
  lemma OperandLeavesUnchanged(g: Graph, g': Graph, b: NodeId, id: NodeId, v: Value)
    requires WF(g) && WF(g') && NoBrOperand(g) && b in g && IsBr(g[b])
    requires g'.Keys == g.Keys && forall n | n in g && n != b :: g'[n] == g[n]
    requires ValueIn(g, v) && Rank(v) <= id && (v.Inst? ==> v.id != b)
    ensures Slicer.OperandLeaves(g', v) == Slicer.OperandLeaves(g, v)
    decreases id, 0, 0
  {
    if v.Inst? {
      LeavesUnchanged(g, g', b, v.id);
    }
  }
}
