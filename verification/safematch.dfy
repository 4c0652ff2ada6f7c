/** SafePass's slicer and matcher, parameterised by the check type and the
    optimisation level.

    SafePass `findSameSource` returns true before calling either of them, so in
    SafePass the structural test never rejects a pair; `TrackMemoryLoc` and
    `SameMemoryLoc` are modelled as the functions they are.

    Slices are sets of instructions (constants and opaque operands are dropped).
    An address-sanitizer slice stops at address computations, merges and
    instructions without instruction operands; the slice used for the other
    check types stops only at merges and instructions without instruction
    operands.
 */
module SafeMatch {
  import opened Graph
  import StaticPattern

  /** The optimisation level names the source compares against; `LIndex` is the
      level "L" that selects the index expansion of an address-sanitizer slice. */
  datatype Level = L0 | L1 | L2 | L3 | LIndex | OtherLevel

  /** The check type names the slicer distinguishes. */
  datatype Kind = Asan | Ubsan | Uc | OtherKind

  /** SafePass `findSameSource`: it returns true whatever its arguments. */
  function FindSameSource(g: Graph, a: NodeId, b: NodeId, kind: Kind, level: Level): (r: bool)
    ensures r
  {
    true
  }

  predicate AsanExpandable(n: Node) {
    !IsGep(n) && !IsPhi(n) && HasInstOperand(n)
  }

  predicate UcExpandable(n: Node) {
    !IsPhi(n) && HasInstOperand(n)
  }

  /** The leaves of an address-sanitizer slice from node `id`. */
  function AsanLeaves(g: Graph, id: NodeId): (r: set<NodeId>)
    requires WF(g) && id in g
    ensures forall l | l in r :: l in g && l <= id && !AsanExpandable(g[l])
    ensures !AsanExpandable(g[id]) ==> r == {id}
    decreases id, 1
  {
    if !AsanExpandable(g[id]) then {id} else AsanPrefix(g, id, |g[id].operands|)
  }

  function AsanPrefix(g: Graph, id: NodeId, k: nat): (r: set<NodeId>)
    requires WF(g) && id in g && !IsPhi(g[id]) && k <= |g[id].operands|
    ensures forall l | l in r :: l in g && l < id && !AsanExpandable(g[l])
    decreases id, 0, k
  {
    if k == 0 then {}
    else
      var v := g[id].operands[k - 1];
      OperandBelow(g, id, k - 1);
      AsanPrefix(g, id, k - 1) + (if v.Inst? then AsanLeaves(g, v.id) else {})
  }

  /** The leaves of the slice used for the other check types. */
  function UcLeaves(g: Graph, id: NodeId): (r: set<NodeId>)
    requires WF(g) && id in g
    ensures forall l | l in r :: l in g && l <= id && !UcExpandable(g[l])
    ensures !UcExpandable(g[id]) ==> r == {id}
    decreases id, 1
  {
    if !UcExpandable(g[id]) then {id} else UcPrefix(g, id, |g[id].operands|)
  }

  function UcPrefix(g: Graph, id: NodeId, k: nat): (r: set<NodeId>)
    requires WF(g) && id in g && !IsPhi(g[id]) && k <= |g[id].operands|
    ensures forall l | l in r :: l in g && l < id && !UcExpandable(g[l])
    decreases id, 0, k
  {
    if k == 0 then {}
    else
      var v := g[id].operands[k - 1];
      OperandBelow(g, id, k - 1);
      UcPrefix(g, id, k - 1) + (if v.Inst? then UcLeaves(g, v.id) else {})
  }

  /** The union of the slices of the instruction operands of `id` from index 1
      up to `k`: the indices of an address computation, without its base. */
  function IndexLeaves(g: Graph, id: NodeId, k: nat): (r: set<NodeId>)
    requires WF(g) && id in g && !IsPhi(g[id]) && k <= |g[id].operands|
    ensures forall l | l in r :: l in g && l < id
    decreases k
  {
    if k <= 1 then {}
    else
      var v := g[id].operands[k - 1];
      OperandBelow(g, id, k - 1);
      IndexLeaves(g, id, k - 1) + (if v.Inst? then UcLeaves(g, v.id) else {})
  }

  /** SafePass `TrackMemoryLoc`. At levels L0 and L1 the slice is the condition
      when it is an instruction, else the check itself. An address-sanitizer
      slice at level "L" that is a single address computation is replaced by
      the slices of its indices, unless they are empty. An unknown check type
      gives the empty slice. */
  function TrackMemoryLoc(g: Graph, c: NodeId, kind: Kind, level: Level): (r: set<NodeId>)
    requires WF(g) && c in g
    requires (level == L0 || level == L1) ==> |g[c].operands| > 0
    ensures forall l | l in r :: l in g
    ensures !IsPhi(g[c]) ==> forall l | l in r :: l <= c
    ensures (level == L0 || level == L1) ==> |r| == 1
    ensures level != L0 && level != L1 && (kind == Ubsan || kind == Uc) ==>
              forall l | l in r :: !UcExpandable(g[l])
    ensures level != L0 && level != L1 && kind == OtherKind ==> r == {}
  {
    if level == L0 || level == L1 then
      OperandIn(g, c, 0);
      var v := g[c].operands[0];
      if v.Inst? then {v.id} else {c}
    else if kind == Asan then
      var s := AsanLeaves(g, c);
      if level == LIndex && |s| == 1 then
        var i := TheElement(s);
        var t := if IsGep(g[i]) then IndexLeaves(g, i, |g[i].operands|) else {};
        if t == {} then {i} else t
      else s
    else if kind == Ubsan || kind == Uc then UcLeaves(g, c)
    else {}
  }

  /** The union of the other-type slices of a set of nodes. */
  function UcOfAll(g: Graph, s: set<NodeId>): (r: set<NodeId>)
    requires WF(g) && forall l | l in s :: l in g
  {
    set l, u | l in s && u in UcLeaves(g, l) :: u
  }

  /** The other-type slice refines the address-sanitizer slice: slicing every
      address-sanitizer leaf further gives the other-type slice. */
  lemma {:induction false} UcRefinesAsan(g: Graph, id: NodeId)
    requires WF(g) && id in g
    ensures UcLeaves(g, id) == UcOfAll(g, AsanLeaves(g, id))
    decreases id, 1
  {
    if AsanExpandable(g[id]) {
      UcRefinesAsanPrefix(g, id, |g[id].operands|);
    }
  }

  lemma {:induction false} UcRefinesAsanPrefix(g: Graph, id: NodeId, k: nat)
    requires WF(g) && id in g && AsanExpandable(g[id]) && k <= |g[id].operands|
    ensures UcPrefix(g, id, k) == UcOfAll(g, AsanPrefix(g, id, k))
    decreases id, 0, k, 1
  {
    if k > 0 {
      UcRefinesAsanPrefixStep(g, id, k);
    }
  }

  lemma {:induction false} UcRefinesAsanPrefixStep(g: Graph, id: NodeId, k: nat)
    requires WF(g) && id in g && AsanExpandable(g[id]) && 0 < k <= |g[id].operands|
    ensures UcPrefix(g, id, k) == UcOfAll(g, AsanPrefix(g, id, k))
    decreases id, 0, k, 0
  {
    var v := g[id].operands[k - 1];
    OperandBelow(g, id, k - 1);
    UcRefinesAsanPrefix(g, id, k - 1);
    var a := AsanPrefix(g, id, k - 1);
    var b := if v.Inst? then AsanLeaves(g, v.id) else {};
    var x := if v.Inst? then UcLeaves(g, v.id) else {};
    UcRefinesOperand(g, id, v);
    calc {
      UcOfAll(g, AsanPrefix(g, id, k));
      { assert AsanPrefix(g, id, k) == a + b; }
      UcOfAll(g, a + b);
      { UcOfAllUnion(g, a, b); }
      UcOfAll(g, a) + UcOfAll(g, b);
      { assert UcOfAll(g, a) == UcPrefix(g, id, k - 1); assert UcOfAll(g, b) == x; }
      UcPrefix(g, id, k - 1) + x;
    }
  }

  /** The refinement for the slice of one operand of `id`. */
  lemma UcRefinesOperand(g: Graph, id: NodeId, v: Value)
    requires WF(g) && (v.Inst? ==> v.id in g && v.id < id)
    ensures (if v.Inst? then UcLeaves(g, v.id) else {}) ==
            UcOfAll(g, if v.Inst? then AsanLeaves(g, v.id) else {})
    decreases id, 0, 0
  {
    if v.Inst? {
      UcRefinesAsan(g, v.id);
    }
  }

  lemma UcOfAllUnion(g: Graph, a: set<NodeId>, b: set<NodeId>)
    requires WF(g) && (forall l | l in a :: l in g) && (forall l | l in b :: l in g)
    ensures UcOfAll(g, a + b) == UcOfAll(g, a) + UcOfAll(g, b)
  {
  }

  // ---- SameMemoryLoc ----

  /** Every node of `s` is a node of the graph below `b`. */
  predicate Below(g: Graph, s: set<NodeId>, b: nat) {
    forall l | l in s :: l in g && l < b
  }

  /** SafePass `SameMemoryLoc` at levels L0, L1 and L2 (the source returns no
      value at any other level). At L0 and L1 the slices are single nodes and
      are compared by `SameStaticPattern`. At L2 the first slice is not empty,
      no larger than the second, and each of its nodes matches one of the
      second's; identical nodes are not accepted as such, only as two address
      computations that pass the operand rule. */
  predicate SameMemoryLoc(g: Graph, c1: set<NodeId>, c2: set<NodeId>, level: Level, ghost b1: nat, ghost b2: nat)
    requires WF(g) && Below(g, c1, b1) && Below(g, c2, b2)
    requires level == L0 || level == L1 || level == L2
    requires level != L2 ==> |c1| == 1 && |c2| == 1
    decreases b1 + b2, 2, 0
  {
    if level == L0 || level == L1 then
      StaticPattern.SameStaticPattern(g, TheElement(c1), TheElement(c2))
    else
      && 0 < |c1| <= |c2|
      && forall x | x in c1 :: HasMatch(g, x, c2, b2)
  }

  predicate HasMatch(g: Graph, x: NodeId, c: set<NodeId>, ghost b: nat)
    requires WF(g) && x in g && Below(g, c, b)
    decreases x + 1 + b, 1, 1
  {
    exists y | y in c :: Match(g, x, y)
  }

  /** The L2 rule for two nodes: two address computations with as many operands
      whose operand pairs all pass. */
  predicate Match(g: Graph, x: NodeId, y: NodeId)
    requires WF(g) && x in g && y in g
    decreases x + y + 2, 1, 0
  {
    && IsGep(g[x]) && IsGep(g[y])
    && |g[x].operands| == |g[y].operands|
    && GepOperands(g, x, y, |g[x].operands|)
  }

  /** The operand rule over the first `k` pairs: two instruction operands need
      matching other-type slices at L2 (an instruction against anything else
      passes); an integer constant must not exceed an integer constant (passes
      against anything else); any other operand must be identical. */
  predicate GepOperands(g: Graph, p: NodeId, q: NodeId, k: nat)
    requires WF(g) && p in g && q in g && IsGep(g[p]) && IsGep(g[q])
    requires |g[p].operands| == |g[q].operands| && k <= |g[p].operands|
    decreases p + q + 2, 0, k
  {
    if k == 0 then true
    else
      var o1 := g[p].operands[k - 1];
      var o2 := g[q].operands[k - 1];
      assert !IsPhi(g[p]) && !IsPhi(g[q]) by {
        assert g[p].opcode[..|GEP|] == GEP && g[q].opcode[..|GEP|] == GEP;
      }
      OperandBelow(g, p, k - 1);
      OperandBelow(g, q, k - 1);
      && GepOperands(g, p, q, k - 1)
      && (if o1.Inst? then
            (o2.Inst? ==> SameMemoryLoc(g, UcLeaves(g, o1.id), UcLeaves(g, o2.id), L2, o1.id + 1, o2.id + 1))
          else if o1.ConstInt? then (o2.ConstInt? ==> o1.n <= o2.n)
          else o1 == o2)
  }

  /** At L2 a slice holding a node that is not an address computation never
      matches, not even itself. */
  lemma NonGepBlocksL2(g: Graph, c1: set<NodeId>, c2: set<NodeId>, x: NodeId, b1: nat, b2: nat)
    requires WF(g) && Below(g, c1, b1) && Below(g, c2, b2)
    requires x in c1 && !IsGep(g[x])
    ensures !SameMemoryLoc(g, c1, c2, L2, b1, b2)
  {
    assert !HasMatch(g, x, c2, b2);
  }

  /** At L0 and L1 the test does not depend on the order of the two slices. */
  lemma SameMemoryLocSymmetricL01(g: Graph, a: NodeId, b: NodeId, level: Level)
    requires WF(g) && a in g && b in g && (level == L0 || level == L1)
    ensures SameMemoryLoc(g, {a}, {b}, level, a + 1, b + 1) == SameMemoryLoc(g, {b}, {a}, level, b + 1, a + 1)
  {
    assert TheElement({a}) == a && TheElement({b}) == b;
    StaticPattern.SameStaticPatternEquivalence(g, a, b, b);
    StaticPattern.SameStaticPatternEquivalence(g, b, a, a);
  }

  /** Two address computations do not match at L2 when some integer constant
      operand of the first exceeds the second's. */
  lemma GepIndexBlocksMatch(g: Graph, p: NodeId, q: NodeId, i: nat)
    requires WF(g) && p in g && q in g && IsGep(g[p]) && IsGep(g[q])
    requires |g[p].operands| == |g[q].operands| && i < |g[p].operands|
    requires g[p].operands[i].ConstInt? && g[q].operands[i].ConstInt?
    requires g[p].operands[i].n > g[q].operands[i].n
    ensures !Match(g, p, q)
  {
    GepOperandsBlocked(g, p, q, i, |g[p].operands|);
  }

  lemma {:induction false} GepOperandsBlocked(g: Graph, p: NodeId, q: NodeId, i: nat, k: nat)
    requires WF(g) && p in g && q in g && IsGep(g[p]) && IsGep(g[q])
    requires |g[p].operands| == |g[q].operands| && i < k <= |g[p].operands|
    requires g[p].operands[i].ConstInt? && g[q].operands[i].ConstInt?
    requires g[p].operands[i].n > g[q].operands[i].n
    ensures !GepOperands(g, p, q, k)
  {
    if i < k - 1 {
      GepOperandsBlocked(g, p, q, i, k - 1);
    }
  }
}
