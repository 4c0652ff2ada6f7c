/** DynPass `SameMemoryLoc` and `findSameSource`: do two checks guard the same
    memory location?

    `FindSameSource` slices both checks to their fingerprints and asks
    `SameMemoryLoc`: the first fingerprint is not empty, is no larger than the
    second, and each of its leaves matches some leaf of the second. `Match`
    applies the per-opcode rules of the source, and for loads, address
    computations and nested instructions recurses into `FindSameSource` on
    operands. The recursion terminates because each recursive call replaces at
    least one of the two nodes by one of its operands, which ranks lower; the
    ghost bounds carry the ranks of the fingerprints' leaves.
 */
module DynMatch {
  import opened Graph
  import opened Slicer

  /** DynPass `findSameSource`. */
  predicate FindSameSource(g: Graph, a: NodeId, b: NodeId)
    requires WF(g) && a in g && b in g
    decreases a + b + 2, 3, 0
  {
    SameMemoryLoc(g, TrackMemoryLoc(g, a), TrackMemoryLoc(g, b), a + 1, b + 1)
  }

  /** DynPass `SameMemoryLoc`, order-independent: the source's iteration over
      the two sets is `SameMemoryLocLoop`. */
  predicate SameMemoryLoc(g: Graph, f1: set<Value>, f2: set<Value>, ghost b1: nat, ghost b2: nat)
    requires WF(g) && Bounded(g, f1, b1) && Bounded(g, f2, b2)
    decreases b1 + b2, 2, 0
  {
    && 0 < |f1| <= |f2|
    && forall x | x in f1 :: HasMatch(g, x, f2, b2)
  }

  /** Leaf `x` matches some leaf of `f`. */
  predicate HasMatch(g: Graph, x: Value, f: set<Value>, ghost b: nat)
    requires WF(g) && ValueIn(g, x) && Bounded(g, f, b)
    decreases Rank(x) + b, 1, 1
  {
    exists y | y in f :: Match(g, x, y)
  }

  /** Whether leaf `x` of the first fingerprint matches leaf `y` of the second. */
  predicate Match(g: Graph, x: Value, y: Value)
    requires WF(g) && ValueIn(g, x) && ValueIn(g, y)
    decreases Rank(x) + Rank(y), 1, 0
  {
    if x == y then true
    else if !x.Inst? || !y.Inst? then false
    else
      var n1 := g[x.id];
      var n2 := g[y.id];
      if n1.opcode == n2.opcode && |n1.operands| == 0 && |n2.operands| == 0 then true
      else if n1.opcode == n2.opcode && IsPhi(n1) then false
      else if n1.opcode == n2.opcode && IsLoad(n1) then
        // the addresses loaded from
        var a1 := n1.operands[0];
        var a2 := n2.operands[0];
        OperandBelow(g, x.id, 0);
        OperandBelow(g, y.id, 0);
        if a1.Inst? then a2.Inst? && FindSameSource(g, a1.id, a2.id)
        else if a2.Inst? then FindSameSource(g, x.id, a2.id)
        else a1 == a2
      else if IsGep(n1) && IsGep(n2) && |n1.operands| == |n2.operands| then
        GepOperands(g, x.id, y.id, |n1.operands|)
      else if n1.opcode == n2.opcode && |n1.operands| == |n2.operands| then
        n1.operands == n2.operands
      else if |n2.operands| > 0 && !IsPhi(n2) then
        SomeOperandMatches(g, x.id, y.id, |n2.operands|)
      else false
  }

  /** The address-computation rule over the first `k` operand pairs: an
      instruction index needs an instruction index with the same source, an
      integer constant index must not exceed the other's integer constant index,
      identical operands agree, and any other operand must be a leaf of the
      other's instruction operand. */
  predicate GepOperands(g: Graph, p: NodeId, q: NodeId, k: nat)
    requires WF(g) && p in g && q in g && IsGep(g[p]) && IsGep(g[q])
    requires |g[p].operands| == |g[q].operands| && k <= |g[p].operands|
    decreases p + q + 2, 0, k
  {
    if k == 0 then true
    else
      var o1 := g[p].operands[k - 1];
      var o2 := g[q].operands[k - 1];
      OperandBelow(g, p, k - 1);
      OperandBelow(g, q, k - 1);
      && GepOperands(g, p, q, k - 1)
      && (if o1.Inst? then o2.Inst? && FindSameSource(g, o1.id, o2.id)
          else if o1.ConstInt? then o2.ConstInt? && o1.n <= o2.n
          else if o1 == o2 then true
          else o2.Inst? && o1 in TrackMemoryLoc(g, o2.id))
  }

  /** Some of the first `k` operands of `q` is an instruction with the same
      source as `p`. */
  predicate SomeOperandMatches(g: Graph, p: NodeId, q: NodeId, k: nat)
    requires WF(g) && p in g && q in g && !IsPhi(g[q]) && k <= |g[q].operands|
    decreases p + q + 2, 0, k
  {
    if k == 0 then false
    else
      var o2 := g[q].operands[k - 1];
      OperandBelow(g, q, k - 1);
      || SomeOperandMatches(g, p, q, k - 1)
      || (o2.Inst? && FindSameSource(g, p, o2.id))
  }

  /** The source's two nested loops: take the leaves of the first set one at a
      time, search the second set for a match, and stop at the first leaf
      without one. Whatever order the sets are visited in, the answer is
      `SameMemoryLoc`. */
  method SameMemoryLocLoop(g: Graph, f1: set<Value>, f2: set<Value>, ghost b1: nat, ghost b2: nat)
    returns (flag: bool)
    requires WF(g) && Bounded(g, f1, b1) && Bounded(g, f2, b2)
    ensures flag == SameMemoryLoc(g, f1, f2, b1, b2)
  {
    flag := false;
    if |f1| <= |f2| && |f1| > 0 {
      var rest := f1;
      while rest != {}
        invariant rest <= f1
        invariant forall x | x in f1 - rest :: HasMatch(g, x, f2, b2)
        invariant flag <==> f1 - rest != {}
        decreases |rest|
      {
        var x :| x in rest;
        rest := rest - {x};
        flag := MatchSome(g, x, f2, b2);
        if !flag {
          break;
        }
      }
      if flag {
        assert f1 - rest == f1;
      }
    }
  }

  /** The inner loop: search `f2` for a leaf that `x` matches. */
  method MatchSome(g: Graph, x: Value, f2: set<Value>, ghost b2: nat) returns (flag: bool)
    requires WF(g) && ValueIn(g, x) && Bounded(g, f2, b2)
    ensures flag == HasMatch(g, x, f2, b2)
  {
    flag := false;
    var cands := f2;
    while cands != {}
      invariant cands <= f2
      invariant forall y | y in f2 - cands :: !Match(g, x, y)
      decreases |cands|
    {
      var y :| y in cands;
      cands := cands - {y};
      if Match(g, x, y) {
        flag := true;
        return;
      }
    }
    assert f2 - cands == f2;
  }

  /** Distinct merge leaves never match. */
  lemma DistinctPhisNeverMatch(g: Graph, p: NodeId, q: NodeId)
    requires WF(g) && p in g && q in g && p != q && IsPhi(g[p]) && IsPhi(g[q])
    requires |g[p].operands| != 0
    ensures !Match(g, Inst(p), Inst(q))
  {
  }

  /** Two distinct address computations with the same number of operands do not
      match when some integer constant index of the first exceeds the second's. */
  lemma GepIndexBlocksMatch(g: Graph, p: NodeId, q: NodeId, i: nat)
    requires WF(g) && p in g && q in g && p != q && IsGep(g[p]) && IsGep(g[q])
    requires |g[p].operands| == |g[q].operands| && i < |g[p].operands|
    requires g[p].operands[i].ConstInt? && g[q].operands[i].ConstInt?
    requires g[p].operands[i].n > g[q].operands[i].n
    ensures !Match(g, Inst(p), Inst(q))
  {
    GepOperandsBlocked(g, p, q, i, |g[p].operands|);
    assert !IsPhi(g[p]) && !IsLoad(g[p]) by {
      assert g[p].opcode[..|GEP|] == GEP;
    }
  }

  lemma {:induction false} GepOperandsBlocked(g: Graph, p: NodeId, q: NodeId, i: nat, k: nat)
    requires WF(g) && p in g && q in g && IsGep(g[p]) && IsGep(g[q])
    requires |g[p].operands| == |g[q].operands| && i < k <= |g[p].operands|
    requires g[p].operands[i].ConstInt? && g[q].operands[i].ConstInt?
    requires g[p].operands[i].n > g[q].operands[i].n
    ensures !GepOperands(g, p, q, k)
  {
    if i < k - 1 {
      GepOperandsBlocked(g, p, q, i, k - 1);
    }
  }

  /** A non-empty fingerprint contained in another has the same memory location
      as it: each of its leaves matches itself. */
  lemma SubsetSameMemoryLoc(g: Graph, f1: set<Value>, f2: set<Value>, b1: nat, b2: nat)
    requires WF(g) && Bounded(g, f1, b1) && Bounded(g, f2, b2)
    requires f1 != {} && f1 <= f2
    ensures SameMemoryLoc(g, f1, f2, b1, b2)
  {
    forall x | x in f1
      ensures HasMatch(g, x, f2, b2)
    {
      assert Match(g, x, x);
    }
    assert |f1| <= |f2| by {
      assert f2 == f1 + (f2 - f1);
    }
  }

  /** A check whose fingerprint is not empty has the same source as itself; one
      whose fingerprint is empty has the same source as nothing. */
  lemma FindSameSourceReflexive(g: Graph, a: NodeId, b: NodeId)
    requires WF(g) && a in g && b in g
    ensures TrackMemoryLoc(g, a) != {} ==> FindSameSource(g, a, a)
    ensures TrackMemoryLoc(g, a) == {} ==> !FindSameSource(g, a, b)
  {
    if TrackMemoryLoc(g, a) != {} {
      SubsetSameMemoryLoc(g, TrackMemoryLoc(g, a), TrackMemoryLoc(g, a), a + 1, a + 1);
    }
  }
}
