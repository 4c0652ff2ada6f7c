/** The abstract dependency graph the redundancy passes work on.

    An instruction is identified by a `NodeId`; its operands are edges to other
    instructions, to integer constants, to other constants (globals, null, undef)
    or to opaque non-constant values (arguments, basic-block labels). Identity of
    a node is identity of its id, as pointer identity is in the compiler IR.
 */
module Graph {

  type NodeId = nat

  /** One operand edge. `ConstInt` is an integer constant of width `bits` with
      its zero-extended value `n`; the IR keeps one such constant per type and
      value, so two integer constants are the same operand exactly when both
      width and value agree. `OtherConst` is any other constant, `Opaque` a
      value that is neither an instruction nor a constant. */
  datatype Value = Inst(id: NodeId) | ConstInt(bits: nat, n: nat) | OtherConst(cid: nat) | Opaque(vid: nat)

  /** `isIndVar` abstracts "the instruction's name starts with `indvars`". */
  datatype Node = Node(opcode: string, operands: seq<Value>, isIndVar: bool)

  type Graph = map<NodeId, Node>

  const PHI: string := "phi"
  const LOAD: string := "load"
  const BR: string := "br"
  const GEP: string := "getelementptr"

  predicate IsConstant(v: Value) {
    v.ConstInt? || v.OtherConst?
  }

  predicate IsPhi(n: Node) {
    n.opcode == PHI
  }

  predicate IsLoad(n: Node) {
    n.opcode == LOAD
  }

  predicate IsBr(n: Node) {
    n.opcode == BR
  }

  /** The opcode name starts with "getelementptr". */
  predicate IsGep(n: Node) {
    |n.opcode| >= |GEP| && n.opcode[..|GEP|] == GEP
  }

  predicate HasInstOperand(n: Node) {
    exists i :: 0 <= i < |n.operands| && n.operands[i].Inst?
  }

  /** Every operand of `n` is a constant (vacuously true without operands). */
  predicate AllConstant(n: Node) {
    forall i :: 0 <= i < |n.operands| ==> IsConstant(n.operands[i])
  }

  /** The rank of a value: an instruction ranks one above its id, every other
      value ranks 0; an operand of a non-phi node `id` ranks at most `id`. */
  function Rank(v: Value): nat {
    if v.Inst? then v.id + 1 else 0
  }

  /** An instruction operand refers to a node of the graph. */
  predicate ValueIn(g: Graph, v: Value) {
    v.Inst? ==> v.id in g
  }

  /** Well-formedness. Every instruction operand is a node of the graph.
      Single-assignment form makes the dependency graph acyclic except through
      merge (phi) nodes, so the ids can be chosen as a topological rank: every
      instruction operand of a non-phi node has a smaller id. Every traversal of
      the passes stops at phi nodes, so this is what makes them terminate.
      Branches and loads carry at least one operand. */
  predicate WF(g: Graph) {
    forall id | id in g ::
      && (forall i | 0 <= i < |g[id].operands| && g[id].operands[i].Inst? ::
            && g[id].operands[i].id in g
            && (!IsPhi(g[id]) ==> g[id].operands[i].id < id))
      && ((IsBr(g[id]) || IsLoad(g[id])) ==> |g[id].operands| > 0)
  }

  /** The facts of `WF` about one operand of any node. */
  lemma OperandIn(g: Graph, id: NodeId, i: nat)
    requires WF(g) && id in g && i < |g[id].operands|
    ensures ValueIn(g, g[id].operands[i])
    ensures !IsPhi(g[id]) ==> Rank(g[id].operands[i]) <= id
  {
  }

  /** The facts of `WF` about one operand of a non-phi node. */
  lemma OperandBelow(g: Graph, id: NodeId, i: nat)
    requires WF(g) && id in g && !IsPhi(g[id]) && i < |g[id].operands|
    ensures ValueIn(g, g[id].operands[i]) && Rank(g[id].operands[i]) <= id
  {
  }

  /** No instruction operand names a branch: a branch produces no value, so in
      the compiler IR it is never an operand. */
  predicate NoBrOperand(g: Graph) {
    forall id, i | id in g && 0 <= i < |g[id].operands| && g[id].operands[i].Inst? && g[id].operands[i].id in g ::
      !IsBr(g[g[id].operands[i].id])
  }

  /** A branch has at most one instruction operand, its condition: its other
      operands are basic-block labels. */
  predicate BrConditionOnly(g: Graph) {
    forall id, i | id in g && IsBr(g[id]) && 0 < i < |g[id].operands| :: !g[id].operands[i].Inst?
  }

  /** A subset is no larger, and equal when it is as large. */
  lemma SubsetCard<T>(a: set<T>, b: set<T>)
    requires a <= b
    ensures |a| <= |b|
    ensures |a| == |b| ==> a == b
  {
    assert b == a + (b - a);
    assert |b| == |a| + |b - a|;
    if |a| == |b| {
      assert |b - a| == 0;
      assert b - a == {};
    }
  }

  /** The element of a singleton set. */
  function TheElement<T>(s: set<T>): (x: T)
    requires |s| == 1
    ensures s == {x}
  {
    var x :| x in s;
    assert |s - {x}| == 0;
    assert s == {x} + (s - {x});
    x
  }
}
