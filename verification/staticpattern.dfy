/** The structural comparisons of two checks.

    SafePass `SameStaticPattern` calls two instructions alike when they are the
    same instruction, or have the same non-merge opcode and the same non-zero
    number of operands, each pair of operands being identical or two alike
    instructions. `SameStaticPatternIsUnfolding` shows that this is equality of
    the expression trees the two instructions unfold to, stopping at merge nodes
    and at operand-less nodes.

    DynPass `findSameSourceS` is the same test, except that two branches are
    compared through their conditions, at every level of the recursion.
 */
module StaticPattern {
  import opened Graph

  /** The expression an instruction unfolds to. */
  datatype Term = Leaf(v: Value) | App(op: string, args: seq<Term>)

  /** Merge nodes and nodes without operands stay leaves; every other node is
      unfolded through its operands. */
  predicate Unfoldable(n: Node) {
    !IsPhi(n) && |n.operands| != 0
  }

  function Unfold(g: Graph, id: NodeId): (t: Term)
    requires WF(g) && id in g
    ensures t.Leaf? <==> !Unfoldable(g[id])
    ensures t.Leaf? ==> t.v == Inst(id)
    ensures t.App? ==> t.op == g[id].opcode && |t.args| == |g[id].operands|
    decreases id, 1
  {
    if !Unfoldable(g[id]) then Leaf(Inst(id))
    else App(g[id].opcode, UnfoldPrefix(g, id, |g[id].operands|))
  }

  /** The unfolded first `k` operands of node `id`. */
  function UnfoldPrefix(g: Graph, id: NodeId, k: nat): (ts: seq<Term>)
    requires WF(g) && id in g && !IsPhi(g[id]) && k <= |g[id].operands|
    ensures |ts| == k
    decreases id, 0, k
  {
    if k == 0 then []
    else
      var v := g[id].operands[k - 1];
      OperandBelow(g, id, k - 1);
      UnfoldPrefix(g, id, k - 1) + [if v.Inst? then Unfold(g, v.id) else Leaf(v)]
  }

  /** The term an operand stands for. */
  function UnfoldValue(g: Graph, v: Value): Term
    requires WF(g) && ValueIn(g, v)
  {
    if v.Inst? then Unfold(g, v.id) else Leaf(v)
  }

  /** SafePass `SameStaticPattern`. */
  predicate SameStaticPattern(g: Graph, a: NodeId, b: NodeId)
    requires WF(g) && a in g && b in g
    decreases a + b, 1, 0
  {
    || a == b
    || (&& g[a].opcode == g[b].opcode
        && !IsPhi(g[a])
        && |g[a].operands| == |g[b].operands|
        && |g[a].operands| != 0
        && PatternOperands(g, a, b, |g[a].operands|))
  }

  /** The operand loop of `SameStaticPattern` over the first `k` operands; it
      stops at the first pair that is neither identical nor two alike
      instructions. */
  predicate PatternOperands(g: Graph, a: NodeId, b: NodeId, k: nat)
    requires WF(g) && a in g && b in g && !IsPhi(g[a]) && !IsPhi(g[b])
    requires |g[a].operands| == |g[b].operands| && k <= |g[a].operands|
    decreases a + b, 0, k
  {
    if k == 0 then true
    else
      var o1 := g[a].operands[k - 1];
      var o2 := g[b].operands[k - 1];
      OperandBelow(g, a, k - 1);
      OperandBelow(g, b, k - 1);
      && PatternOperands(g, a, b, k - 1)
      && (o1 == o2 || (o1.Inst? && o2.Inst? && SameStaticPattern(g, o1.id, o2.id)))
  }

  lemma SeqSnoc(s1: seq<Term>, x: Term, s2: seq<Term>, y: Term)
    requires |s1| == |s2|
    ensures s1 + [x] == s2 + [y] <==> s1 == s2 && x == y
  {
    if s1 + [x] == s2 + [y] {
      assert s1 == (s1 + [x])[..|s1|] && s2 == (s2 + [y])[..|s2|];
      assert x == (s1 + [x])[|s1|] && y == (s2 + [y])[|s2|];
    }
  }

  /** Two instructions have the same static pattern exactly when they unfold to
      the same expression tree. */
  lemma {:induction false} SameStaticPatternIsUnfolding(g: Graph, a: NodeId, b: NodeId)
    requires WF(g) && a in g && b in g
    ensures SameStaticPattern(g, a, b) <==> Unfold(g, a) == Unfold(g, b)
    decreases a + b, 1, 0
  {
    if a != b && Unfoldable(g[a]) && Unfoldable(g[b])
       && g[a].opcode == g[b].opcode && |g[a].operands| == |g[b].operands| {
      PatternOperandsIsUnfolding(g, a, b, |g[a].operands|);
    }
  }

  lemma {:induction false} PatternOperandsIsUnfolding(g: Graph, a: NodeId, b: NodeId, k: nat)
    requires WF(g) && a in g && b in g && !IsPhi(g[a]) && !IsPhi(g[b])
    requires |g[a].operands| == |g[b].operands| && k <= |g[a].operands|
    ensures PatternOperands(g, a, b, k) <==> UnfoldPrefix(g, a, k) == UnfoldPrefix(g, b, k)
    decreases a + b, 0, k
  {
    if k > 0 {
      var o1 := g[a].operands[k - 1];
      var o2 := g[b].operands[k - 1];
      OperandBelow(g, a, k - 1);
      OperandBelow(g, b, k - 1);
      PatternOperandsIsUnfolding(g, a, b, k - 1);
      if o1.Inst? && o2.Inst? {
        SameStaticPatternIsUnfolding(g, o1.id, o2.id);
      }
      assert UnfoldPrefix(g, a, k) == UnfoldPrefix(g, a, k - 1) + [UnfoldValue(g, o1)];
      assert UnfoldPrefix(g, b, k) == UnfoldPrefix(g, b, k - 1) + [UnfoldValue(g, o2)];
      SeqSnoc(UnfoldPrefix(g, a, k - 1), UnfoldValue(g, o1), UnfoldPrefix(g, b, k - 1), UnfoldValue(g, o2));
    }
  }

  /** Being alike is an equivalence relation. */
  lemma SameStaticPatternEquivalence(g: Graph, a: NodeId, b: NodeId, c: NodeId)
    requires WF(g) && a in g && b in g && c in g
    ensures SameStaticPattern(g, a, a)
    ensures SameStaticPattern(g, a, b) ==> SameStaticPattern(g, b, a)
    ensures SameStaticPattern(g, a, b) && SameStaticPattern(g, b, c) ==> SameStaticPattern(g, a, c)
  {
    SameStaticPatternIsUnfolding(g, a, b);
    SameStaticPatternIsUnfolding(g, b, a);
    SameStaticPatternIsUnfolding(g, b, c);
    SameStaticPatternIsUnfolding(g, a, c);
  }

  // ---- DynPass findSameSourceS ----

  /** DynPass `findSameSourceS`: two branches are compared through their
      conditions (unlike when either condition is not an instruction); any other
      pair is compared as it stands. */
  predicate FindSameSourceS(g: Graph, b1: NodeId, b2: NodeId)
    requires WF(g) && b1 in g && b2 in g
    decreases b1 + b2, 2, 0
  {
    if IsBr(g[b1]) && IsBr(g[b2]) then
      var c1 := g[b1].operands[0];
      var c2 := g[b2].operands[0];
      OperandBelow(g, b1, 0);
      OperandBelow(g, b2, 0);
      c1.Inst? && c2.Inst? && SourceBody(g, c1.id, c2.id)
    else SourceBody(g, b1, b2)
  }

  /** The comparison after the branch step. */
  predicate SourceBody(g: Graph, c1: NodeId, c2: NodeId)
    requires WF(g) && c1 in g && c2 in g
    decreases c1 + c2, 1, 0
  {
    || c1 == c2
    || (&& g[c1].opcode == g[c2].opcode
        && !IsPhi(g[c1])
        && |g[c1].operands| == |g[c2].operands|
        && |g[c1].operands| != 0
        && SourceOperands(g, c1, c2, |g[c1].operands|))
  }

  predicate SourceOperands(g: Graph, c1: NodeId, c2: NodeId, k: nat)
    requires WF(g) && c1 in g && c2 in g && !IsPhi(g[c1]) && !IsPhi(g[c2])
    requires |g[c1].operands| == |g[c2].operands| && k <= |g[c1].operands|
    decreases c1 + c2, 0, k
  {
    if k == 0 then true
    else
      var o1 := g[c1].operands[k - 1];
      var o2 := g[c2].operands[k - 1];
      OperandBelow(g, c1, k - 1);
      OperandBelow(g, c2, k - 1);
      && SourceOperands(g, c1, c2, k - 1)
      && (o1 == o2 || (o1.Inst? && o2.Inst? && FindSameSourceS(g, o1.id, o2.id)))
  }

  /** `findSameSourceS` does not depend on the order of its arguments. */
  lemma {:induction false} FindSameSourceSSymmetric(g: Graph, b1: NodeId, b2: NodeId)
    requires WF(g) && b1 in g && b2 in g
    ensures FindSameSourceS(g, b1, b2) == FindSameSourceS(g, b2, b1)
    decreases b1 + b2, 2, 0
  {
    if IsBr(g[b1]) && IsBr(g[b2]) {
      OperandBelow(g, b1, 0);
      OperandBelow(g, b2, 0);
      var c1 := g[b1].operands[0];
      var c2 := g[b2].operands[0];
      if c1.Inst? && c2.Inst? {
        SourceBodySymmetric(g, c1.id, c2.id);
      }
    } else {
      SourceBodySymmetric(g, b1, b2);
    }
  }

  lemma {:induction false} SourceBodySymmetric(g: Graph, c1: NodeId, c2: NodeId)
    requires WF(g) && c1 in g && c2 in g
    ensures SourceBody(g, c1, c2) == SourceBody(g, c2, c1)
    decreases c1 + c2, 1, 0
  {
    if c1 != c2 && g[c1].opcode == g[c2].opcode && !IsPhi(g[c1]) && |g[c1].operands| == |g[c2].operands| {
      SourceOperandsSymmetric(g, c1, c2, |g[c1].operands|);
    }
  }

  lemma {:induction false} SourceOperandsSymmetric(g: Graph, c1: NodeId, c2: NodeId, k: nat)
    requires WF(g) && c1 in g && c2 in g && !IsPhi(g[c1]) && !IsPhi(g[c2])
    requires |g[c1].operands| == |g[c2].operands| && k <= |g[c1].operands|
    ensures SourceOperands(g, c1, c2, k) == SourceOperands(g, c2, c1, k)
    decreases c1 + c2, 0, k
  {
    if k > 0 {
      var o1 := g[c1].operands[k - 1];
      var o2 := g[c2].operands[k - 1];
      OperandBelow(g, c1, k - 1);
      OperandBelow(g, c2, k - 1);
      SourceOperandsSymmetric(g, c1, c2, k - 1);
      if o1.Inst? && o2.Inst? {
        FindSameSourceSSymmetric(g, o1.id, o2.id);
      }
    }
  }

  /** Constants are compared as operands, by identity: two different branch
      conditions whose operands at some position are different constants (an
      `i32 10` against an `i64 10` included) never have the same source. */
  lemma ConstantOperandSeparates(g: Graph, b1: NodeId, b2: NodeId, i: nat)
    requires WF(g) && b1 in g && b2 in g && IsBr(g[b1]) && IsBr(g[b2])
    requires g[b1].operands[0].Inst? && g[b2].operands[0].Inst?
    requires g[b1].operands[0].id in g && g[b2].operands[0].id in g
    requires g[b1].operands[0].id != g[b2].operands[0].id
    requires i < |g[g[b1].operands[0].id].operands| && i < |g[g[b2].operands[0].id].operands|
    requires IsConstant(g[g[b1].operands[0].id].operands[i])
    requires g[g[b1].operands[0].id].operands[i] != g[g[b2].operands[0].id].operands[i]
    ensures !FindSameSourceS(g, b1, b2)
  {
    var c1 := g[b1].operands[0].id;
    var c2 := g[b2].operands[0].id;
    if g[c1].opcode == g[c2].opcode && !IsPhi(g[c1]) && |g[c1].operands| == |g[c2].operands| {
      DistinctConstantBlocks(g, c1, c2, |g[c1].operands|, i);
    }
  }

  /** A position holding different operands, the first a constant, fails the
      operand loop from there on. */
  lemma {:induction false} DistinctConstantBlocks(g: Graph, c1: NodeId, c2: NodeId, k: nat, i: nat)
    requires WF(g) && c1 in g && c2 in g && !IsPhi(g[c1]) && !IsPhi(g[c2])
    requires |g[c1].operands| == |g[c2].operands| && i < k <= |g[c1].operands|
    requires IsConstant(g[c1].operands[i]) && g[c1].operands[i] != g[c2].operands[i]
    ensures !SourceOperands(g, c1, c2, k)
  {
    if k - 1 != i {
      DistinctConstantBlocks(g, c1, c2, k - 1, i);
    }
  }

  /** Where no branch is used as a value, DynPass `findSameSourceS` on two
      branches is SafePass `SameStaticPattern` on their conditions, and on any
      other pair it is `SameStaticPattern` itself. */
  lemma {:induction false} FindSameSourceSIsStaticPattern(g: Graph, b1: NodeId, b2: NodeId)
    requires WF(g) && NoBrOperand(g) && b1 in g && b2 in g
    ensures IsBr(g[b1]) && IsBr(g[b2]) ==>
              (FindSameSourceS(g, b1, b2) <==>
                 && g[b1].operands[0].Inst? && g[b2].operands[0].Inst?
                 && SameStaticPattern(g, g[b1].operands[0].id, g[b2].operands[0].id))
    ensures !(IsBr(g[b1]) && IsBr(g[b2])) ==> (FindSameSourceS(g, b1, b2) <==> SameStaticPattern(g, b1, b2))
  {
    if IsBr(g[b1]) && IsBr(g[b2]) {
      OperandBelow(g, b1, 0);
      OperandBelow(g, b2, 0);
      var c1 := g[b1].operands[0];
      var c2 := g[b2].operands[0];
      if c1.Inst? && c2.Inst? {
        SourceBodyIsStaticPattern(g, c1.id, c2.id);
      }
    } else {
      SourceBodyIsStaticPattern(g, b1, b2);
    }
  }

  lemma {:induction false} SourceBodyIsStaticPattern(g: Graph, c1: NodeId, c2: NodeId)
    requires WF(g) && NoBrOperand(g) && c1 in g && c2 in g
    ensures SourceBody(g, c1, c2) == SameStaticPattern(g, c1, c2)
    decreases c1 + c2, 1, 0
  {
    if c1 != c2 && g[c1].opcode == g[c2].opcode && !IsPhi(g[c1]) && |g[c1].operands| == |g[c2].operands| {
      SourceOperandsIsStaticPattern(g, c1, c2, |g[c1].operands|);
    }
  }

  lemma {:induction false} SourceOperandsIsStaticPattern(g: Graph, c1: NodeId, c2: NodeId, k: nat)
    requires WF(g) && NoBrOperand(g) && c1 in g && c2 in g && !IsPhi(g[c1]) && !IsPhi(g[c2])
    requires |g[c1].operands| == |g[c2].operands| && k <= |g[c1].operands|
    ensures SourceOperands(g, c1, c2, k) == PatternOperands(g, c1, c2, k)
    decreases c1 + c2, 0, k
  {
    if k > 0 {
      var o1 := g[c1].operands[k - 1];
      var o2 := g[c2].operands[k - 1];
      OperandBelow(g, c1, k - 1);
      OperandBelow(g, c2, k - 1);
      SourceOperandsIsStaticPattern(g, c1, c2, k - 1);
      if o1.Inst? && o2.Inst? {
        assert !IsBr(g[o1.id]) && !IsBr(g[o2.id]);
        SourceBodyIsStaticPattern(g, o1.id, o2.id);
      }
    }
  }
}
