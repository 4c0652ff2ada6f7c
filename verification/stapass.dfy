/** StaPass: the static reduction. Coverage only supplies each SC's reach
    count; removal is decided by program structure alone.

    Each SC gets its enumeration index. The UC loop marks SCs that a UC in the
    same function dominates or post-dominates and that share its source. Then
    every SC is compared with every other SC of its function: SC `i` is marked
    when `j`'s representative block dominates `i`'s, or does not dominate-from
    `i` but post-dominates it, and the two checks have the same source. The
    representative of a check is the last branch in its cone other than the
    check itself, or the check when there is none. Finally the marked SCs are
    rewritten.

    Functions, blocks, the dominator and post-dominator trees and the cones are
    not part of this model; the parameter `o` answers for them.
 */
module StaPass {
  import opened Graph
  import Slicer
  import StaMatch
  import Rewrite

  datatype Oracle = Oracle(
    fn: NodeId -> nat,            // the enclosing function
    block: NodeId -> nat,         // the enclosing basic block
    dom: (nat, nat) -> bool,      // `DT.dominates(a, b)`
    pdom: (nat, nat) -> bool,     // `PostDT.dominates(a, b)`
    cone: NodeId -> seq<NodeId>)  // `getInstructionsBySanityCheck`

  /** The SCs and UCs are branches of a well-formed graph, and cones are in it. */
  predicate Ready(g: Graph, o: Oracle, scs: seq<NodeId>, ucs: seq<NodeId>) {
    && WF(g)
    && ConesIn(g, o, scs)
    && (forall s | s in scs :: s in g && IsBr(g[s]))
    && (forall u | u in ucs :: u in g && IsBr(g[u]))
  }

  /** The cones of the SCs lie in the graph. */
  predicate ConesIn(g: Graph, o: Oracle, scs: seq<NodeId>) {
    forall s | s in scs :: forall c | c in o.cone(s) :: c in g
  }

  /** StaPass `findSameSource` as a pair test; the loops below take the test
      as a parameter so that their proofs do not depend on its definition. */
  function SameSource(g: Graph): (NodeId, NodeId) -> bool {
    (a: NodeId, b: NodeId) => WF(g) && a in g && b in g && StaMatch.FindSameSource(g, a, b)
  }

  /** The reach counts of the SCs: left + right from the trace, or zero when
      there is no trace. */
  function Reach(trace: seq<(nat, nat)>, read: bool, n: nat): (t: seq<nat>)
    requires read ==> |trace| >= n
    ensures |t| == n
    ensures forall i | 0 <= i < n :: t[i] == (if read then trace[i].0 + trace[i].1 else 0)
  {
    if n == 0 then [] else Reach(trace, read, n - 1) + [if read then trace[n - 1].0 + trace[n - 1].1 else 0]
  }

  /** The sum of `w[i]` over the indices `i < n` in `s`. */
  function IndexSum(w: seq<nat>, s: set<nat>, n: nat): nat
    requires n <= |w|
  {
    if n == 0 then 0 else IndexSum(w, s, n - 1) + (if n - 1 in s then w[n - 1] else 0)
  }

  /** The sum of all of `w[..n]` (`costflagSC`). */
  function Sum(w: seq<nat>, n: nat): nat
    requires n <= |w|
  {
    if n == 0 then 0 else Sum(w, n - 1) + w[n - 1]
  }

  lemma {:induction false} IndexSumBound(w: seq<nat>, s: set<nat>, n: nat)
    requires n <= |w|
    ensures IndexSum(w, s, n) <= Sum(w, n)
  {
    if n > 0 {
      IndexSumBound(w, s, n - 1);
    }
  }


  /** The last branch among `cone[..n]` other than `sc`, or `sc` if none. */
  function LastBranch(g: Graph, cone: seq<NodeId>, sc: NodeId, n: nat): (r: NodeId)
    requires n <= |cone| && forall c | c in cone :: c in g
    ensures r == sc <==> forall j | 0 <= j < n :: cone[j] == sc || !IsBr(g[cone[j]])
    ensures r != sc ==> exists i | 0 <= i < n :: cone[i] == r && IsBr(g[r]) &&
                          forall j | i < j < n :: cone[j] == sc || !IsBr(g[cone[j]])
  {
    if n == 0 then sc
    else if cone[n - 1] != sc && IsBr(g[cone[n - 1]]) then cone[n - 1]
    else LastBranch(g, cone, sc, n - 1)
  }

  /** `SC_tmp`, the check's representative. */
  function Rep(g: Graph, o: Oracle, sc: NodeId): NodeId
    requires forall c | c in o.cone(sc) :: c in g
  {
    LastBranch(g, o.cone(sc), sc, |o.cone(sc)|)
  }

  /** The phase-3 pair rule: SC `j` lets SC `i` go. */
  predicate Covers(g: Graph, o: Oracle, same: (NodeId, NodeId) -> bool, scs: seq<NodeId>, i: nat, j: nat)
    requires ConesIn(g, o, scs) && i < |scs| && j < |scs|
  {
    var r1 := Rep(g, o, scs[i]);
    var r2 := Rep(g, o, scs[j]);
    && o.fn(scs[i]) == o.fn(scs[j])
    && o.fn(r1) == o.fn(r2)
    && (o.dom(o.block(r2), o.block(r1)) || (!o.dom(o.block(r1), o.block(r2)) && o.pdom(o.block(r2), o.block(r1))))
    && scs[i] != scs[j]
    && same(scs[i], scs[j])
  }

  predicate Removable(g: Graph, o: Oracle, same: (NodeId, NodeId) -> bool, scs: seq<NodeId>, i: nat)
    requires ConesIn(g, o, scs) && i < |scs|
  {
    exists j | 0 <= j < |scs| :: Covers(g, o, same, scs, i, j)
  }

  /** The SCs below `n` that phase 3 marks, one index at a time as the
      outer loop visits them. */
  function NewlyMarked(g: Graph, o: Oracle, same: (NodeId, NodeId) -> bool, scs: seq<NodeId>, marked0: set<nat>, n: nat): (r: set<nat>)
    requires ConesIn(g, o, scs) && n <= |scs|
    ensures forall k | k in r :: k < n
  {
    if n == 0 then {}
    else NewlyMarked(g, o, same, scs, marked0, n - 1) +
         (if n - 1 !in marked0 && Removable(g, o, same, scs, n - 1) then {n - 1} else {})
  }

  /** Phase 3 marks exactly the SCs not marked before that another SC of the
      function covers. */
  lemma {:induction false} NewlyMarkedIff(g: Graph, o: Oracle, same: (NodeId, NodeId) -> bool, scs: seq<NodeId>,
                                          marked0: set<nat>, n: nat, k: nat)
    requires ConesIn(g, o, scs) && n <= |scs|
    ensures k in NewlyMarked(g, o, same, scs, marked0, n) <==>
            k < n && k !in marked0 && Removable(g, o, same, scs, k)
  {
    if n > 0 {
      NewlyMarkedIff(g, o, same, scs, marked0, n - 1, k);
    }
  }

  /** The phase-3 test of the pair (`i`, `j`) as the source nests it: an
      if and an else-if, each also asking that `i` is not yet marked. */
  function PairRule(g: Graph, o: Oracle, same: (NodeId, NodeId) -> bool, scs: seq<NodeId>,
                    i: nat, j: nat, isMarked: bool): (hit: bool)
    requires ConesIn(g, o, scs) && i < |scs| && j < |scs|
    ensures hit == (!isMarked && Covers(g, o, same, scs, i, j))
  {
    var r1 := Rep(g, o, scs[i]);
    var r2 := Rep(g, o, scs[j]);
    if o.fn(scs[i]) == o.fn(scs[j]) && o.fn(r1) == o.fn(r2) then
      if o.dom(o.block(r2), o.block(r1)) && !isMarked then
        scs[i] != scs[j] && same(scs[i], scs[j])
      else if !o.dom(o.block(r1), o.block(r2)) && o.pdom(o.block(r2), o.block(r1)) && !isMarked then
        scs[i] != scs[j] && same(scs[i], scs[j])
      else false
    else false
  }

  /** The inner loop of phase 3 for SC `i`: `isMarked` is `reducedSC[i]`,
      which a covering SC sets and which then stops further tests. */
  method Phase3Row(g: Graph, o: Oracle, same: (NodeId, NodeId) -> bool, scs: seq<NodeId>, i: nat, isMarked0: bool)
    returns (isMarked: bool)
    requires ConesIn(g, o, scs) && i < |scs|
    ensures isMarked == (isMarked0 || Removable(g, o, same, scs, i))
  {
    isMarked := isMarked0;
    var j := 0;
    while j < |scs|
      invariant 0 <= j <= |scs|
      invariant isMarked == (isMarked0 || exists k | 0 <= k < j :: Covers(g, o, same, scs, i, k))
    {
      if PairRule(g, o, same, scs, i, j, isMarked) {
        isMarked := true;
      }
      j := j + 1;
    }
  }

  /** One step of the outer loop of phase 3. */
  lemma NewlyMarkedStep(g: Graph, o: Oracle, same: (NodeId, NodeId) -> bool, scs: seq<NodeId>,
                        marked0: set<nat>, i: nat, hit: bool)
    requires ConesIn(g, o, scs) && i < |scs|
    requires hit == (i in marked0 || Removable(g, o, same, scs, i))
    ensures i !in NewlyMarked(g, o, same, scs, marked0, i)
    ensures NewlyMarked(g, o, same, scs, marked0, i + 1) ==
            NewlyMarked(g, o, same, scs, marked0, i) + (if hit && i !in marked0 then {i} else {})
  {
  }

  /** The pair loops of phase 3: every SC not yet marked that some SC of its
      function covers gets marked. `newly` is what this phase adds to the
      marks `marked0` of the UC loop. */
  method Phase3(g: Graph, o: Oracle, same: (NodeId, NodeId) -> bool, scs: seq<NodeId>, marked0: set<nat>)
    returns (newly: set<nat>)
    requires ConesIn(g, o, scs)
    ensures newly == NewlyMarked(g, o, same, scs, marked0, |scs|)
  {
    newly := {};
    var i := 0;
    while i < |scs|
      invariant 0 <= i <= |scs|
      invariant newly == NewlyMarked(g, o, same, scs, marked0, i)
    {
      var hit := Phase3Row(g, o, same, scs, i, i in marked0 || i in newly);
      NewlyMarkedStep(g, o, same, scs, marked0, i, hit);
      if hit && i !in marked0 && i !in newly {
        newly := newly + {i};
      }
      i := i + 1;
    }
  }

  /** The UC loop's pair rule: UC `u` lets SC `s` go. */
  predicate UcCovers(o: Oracle, same: (NodeId, NodeId) -> bool, u: NodeId, s: NodeId) {
    && o.fn(u) == o.fn(s)
    && (o.dom(o.block(u), o.block(s)) || o.pdom(o.block(u), o.block(s)))
    && same(u, s)
  }

  /** The SCs some UC of `us` lets go, UC by UC as the outer loop visits them. */
  function UcMarks(o: Oracle, same: (NodeId, NodeId) -> bool, scs: seq<NodeId>, us: seq<NodeId>): (r: set<nat>)
    ensures forall k | k in r :: k < |scs|
  {
    if us == [] then {}
    else UcMarks(o, same, scs, us[..|us| - 1]) + CoveredBy(o, same, scs, us[|us| - 1], |scs|)
  }

  /** The SCs below `n` that UC `u` lets go. */
  function CoveredBy(o: Oracle, same: (NodeId, NodeId) -> bool, scs: seq<NodeId>, u: NodeId, n: nat): (r: set<nat>)
    requires n <= |scs|
    ensures forall k | k in r :: k < n
  {
    if n == 0 then {}
    else CoveredBy(o, same, scs, u, n - 1) + (if UcCovers(o, same, u, scs[n - 1]) then {n - 1} else {})
  }

  lemma {:induction false} CoveredByIff(o: Oracle, same: (NodeId, NodeId) -> bool, scs: seq<NodeId>, u: NodeId, n: nat, k: nat)
    requires n <= |scs|
    ensures k in CoveredBy(o, same, scs, u, n) <==> k < n && UcCovers(o, same, u, scs[k])
  {
    if n > 0 {
      CoveredByIff(o, same, scs, u, n - 1, k);
    }
  }

  /** The UC loop marks exactly the SCs that some UC lets go. */
  lemma {:induction false} UcMarksIff(o: Oracle, same: (NodeId, NodeId) -> bool, scs: seq<NodeId>, us: seq<NodeId>, k: nat)
    ensures k in UcMarks(o, same, scs, us) <==> k < |scs| && exists u | u in us :: UcCovers(o, same, u, scs[k])
  {
    if us != [] {
      var front, last := us[..|us| - 1], us[|us| - 1];
      assert us == front + [last];
      UcMarksIff(o, same, scs, front, k);
      CoveredByIff(o, same, scs, last, |scs|, k);
      if k < |scs| && exists u | u in us :: UcCovers(o, same, u, scs[k]) {
        var u :| u in us && UcCovers(o, same, u, scs[k]);
        if u != last {
          assert u in front;
        }
      }
    }
  }

  /** The inner loop for one UC. */
  method UcRow(o: Oracle, same: (NodeId, NodeId) -> bool, scs: seq<NodeId>, u: NodeId, marked0: set<nat>)
    returns (marked: set<nat>)
    ensures marked == marked0 + CoveredBy(o, same, scs, u, |scs|)
  {
    marked := marked0;
    var b := 0;
    while b < |scs|
      invariant 0 <= b <= |scs|
      invariant marked == marked0 + CoveredBy(o, same, scs, u, b)
    {
      if b !in marked && UcCovers(o, same, u, scs[b]) {
        marked := marked + {b};
      }
      b := b + 1;
    }
  }

  /** The UC loop comparing each UC with the SCs of its function. */
  method UcLoop(o: Oracle, same: (NodeId, NodeId) -> bool, scs: seq<NodeId>, ucs: seq<NodeId>)
    returns (marked: set<nat>)
    ensures marked == UcMarks(o, same, scs, ucs)
  {
    marked := {};
    var a := 0;
    while a < |ucs|
      invariant 0 <= a <= |ucs|
      invariant marked == UcMarks(o, same, scs, ucs[..a])
    {
      assert ucs[..a + 1][..a] == ucs[..a];
      marked := UcRow(o, same, scs, ucs[a], marked);
      a := a + 1;
    }
    assert ucs[..|ucs|] == ucs;
  }


  /** The UC loop as written: its inner loop walks the UCs again, and the
      record it reads for each of them is the default one, whose index is 0. */
  function UcMarksAsWritten(o: Oracle, same: (NodeId, NodeId) -> bool, ucs: seq<NodeId>, outer: nat): (marked: set<nat>)
    requires outer <= |ucs|
    ensures marked <= {0}
  {
    if outer == 0 then {}
    else UcMarksAsWritten(o, same, ucs, outer - 1) + InnerAsWritten(o, same, ucs, ucs[outer - 1], |ucs|)
  }

  function InnerAsWritten(o: Oracle, same: (NodeId, NodeId) -> bool, ucs: seq<NodeId>, u: NodeId, inner: nat): (marked: set<nat>)
    requires inner <= |ucs|
    ensures marked <= {0}
    ensures marked == {0} <==> exists b | 0 <= b < inner :: UcCovers(o, same, u, ucs[b])
  {
    if inner == 0 then {}
    else InnerAsWritten(o, same, ucs, u, inner - 1) + (if UcCovers(o, same, u, ucs[inner - 1]) then {0} else {})
  }

  /** As written, a UC with a non-empty slice whose block dominates itself
      marks the SC with index 0, even one in another function than every UC,
      which the corrected loop never marks. */
  lemma UcLoopMarksFirstSc(g: Graph, o: Oracle, scs: seq<NodeId>, ucs: seq<NodeId>, a: nat)
    requires Ready(g, o, scs, ucs) && a < |ucs| && scs != []
    requires Slicer.TrackMemoryLoc(g, ucs[a]) != {} && o.dom(o.block(ucs[a]), o.block(ucs[a]))
    requires forall u | u in ucs :: o.fn(u) != o.fn(scs[0])
    ensures 0 in UcMarksAsWritten(o, SameSource(g), ucs, |ucs|)
    ensures 0 !in UcMarks(o, SameSource(g), scs, ucs)
  {
    var same := SameSource(g);
    UcMarksIff(o, same, scs, ucs, 0);
    StaMatch.FindSameSourceReflexive(g, ucs[a], ucs[a]);
    assert UcCovers(o, same, ucs[a], ucs[a]);
    assert 0 in InnerAsWritten(o, same, ucs, ucs[a], |ucs|);
    MarksGrow(o, same, ucs, a + 1, |ucs|);
  }

  lemma {:induction false} MarksGrow(o: Oracle, same: (NodeId, NodeId) -> bool, ucs: seq<NodeId>, m: nat, n: nat)
    requires m <= n <= |ucs|
    ensures UcMarksAsWritten(o, same, ucs, m) <= UcMarksAsWritten(o, same, ucs, n)
  {
    if m < n {
      MarksGrow(o, same, ucs, m, n - 1);
    }
  }

  /** The written loop takes one off `flagSC_opt` per matching pair of UCs,
      with no test that the pair's record was already marked. */
  function UcDropsAsWritten(o: Oracle, same: (NodeId, NodeId) -> bool, ucs: seq<NodeId>, outer: nat): (d: nat)
    requires outer <= |ucs|
    ensures d <= outer * |ucs|
    ensures d == 0 <==> UcMarksAsWritten(o, same, ucs, outer) == {}
  {
    if outer == 0 then 0
    else
      var rest := UcDropsAsWritten(o, same, ucs, outer - 1);
      assert rest <= (outer - 1) * |ucs|;
      assert (outer - 1) * |ucs| + |ucs| == outer * |ucs|;
      rest + InnerDropsAsWritten(o, same, ucs, ucs[outer - 1], |ucs|)
  }

  function InnerDropsAsWritten(o: Oracle, same: (NodeId, NodeId) -> bool, ucs: seq<NodeId>, u: NodeId, inner: nat): (d: nat)
    requires inner <= |ucs|
    ensures d <= inner
    ensures d == 0 <==> InnerAsWritten(o, same, ucs, u, inner) == {}
  {
    if inner == 0 then 0
    else InnerDropsAsWritten(o, same, ucs, u, inner - 1) + (if UcCovers(o, same, u, ucs[inner - 1]) then 1 else 0)
  }

  /** 2^64: the counters are `uint64_t`. */
  const WORD: nat := 0x1_0000_0000_0000_0000

  /** `flagSC_opt` after the written loop: `flagSC` less one per matching pair,
      wrapping as unsigned 64-bit arithmetic does. (`costflagSC_opt` is left
      alone: the default record's count is 0.) */
  function KeptAfterUcsAsWritten(o: Oracle, same: (NodeId, NodeId) -> bool, nScs: nat, ucs: seq<NodeId>): nat {
    Wrap64(nScs - UcDropsAsWritten(o, same, ucs, |ucs|))
  }

  /** An integer as a `uint64_t`. */
  function Wrap64(x: int): nat {
    x % WORD
  }

  /** As written, a module without SCs and with a UC whose slice is non-empty
      and whose block dominates itself ends the UC loop with more kept SCs than
      it has: the counter wraps below zero, to 2^64 - 1 for a lone UC. */
  lemma UcCounterWrapsAsWritten(g: Graph, o: Oracle, ucs: seq<NodeId>, a: nat)
    requires Ready(g, o, [], ucs) && a < |ucs| && |ucs| < 0x1_0000_0000
    requires Slicer.TrackMemoryLoc(g, ucs[a]) != {} && o.dom(o.block(ucs[a]), o.block(ucs[a]))
    ensures KeptAfterUcsAsWritten(o, SameSource(g), 0, ucs) > 0
    ensures |ucs| == 1 ==> KeptAfterUcsAsWritten(o, SameSource(g), 0, ucs) == WORD - 1
  {
    var same := SameSource(g);
    StaMatch.FindSameSourceReflexive(g, ucs[a], ucs[a]);
    assert UcCovers(o, same, ucs[a], ucs[a]);
    assert 0 in InnerAsWritten(o, same, ucs, ucs[a], |ucs|);
    MarksGrow(o, same, ucs, a + 1, |ucs|);
    var d := UcDropsAsWritten(o, same, ucs, |ucs|);
    SquareBelowWord(|ucs|, |ucs|);
    KeptWraps(o, same, ucs);
  }

  lemma KeptWraps(o: Oracle, same: (NodeId, NodeId) -> bool, ucs: seq<NodeId>)
    requires 0 < UcDropsAsWritten(o, same, ucs, |ucs|) < WORD
    ensures KeptAfterUcsAsWritten(o, same, 0, ucs) == WORD - UcDropsAsWritten(o, same, ucs, |ucs|)
  {
    WrapNegative(UcDropsAsWritten(o, same, ucs, |ucs|));
  }

  lemma {:induction false} SquareBelowWord(n: nat, m: nat)
    requires n < 0x1_0000_0000 && m <= n
    ensures m * n <= 0xFFFF_FFFF * n < WORD
  {
    if m > 0 {
      SquareBelowWord(n, m - 1);
      assert m * n == (m - 1) * n + n;
    }
  }

  /** Taking `d` from zero in 64-bit arithmetic leaves 2^64 - d. */
  lemma WrapNegative(d: nat)
    requires 0 < d < WORD
    ensures Wrap64(0 - d) == WORD - d
  {
    assert 0 - d == -1 * WORD + (WORD - d);
  }

  /** The branches of the marked SCs below `n`. */
  function MarkedNodes(scs: seq<NodeId>, marked: set<nat>, n: nat): set<NodeId>
    requires n <= |scs|
  {
    if n == 0 then {}
    else MarkedNodes(scs, marked, n - 1) + (if n - 1 in marked then {scs[n - 1]} else {})
  }

  lemma {:induction false} MarkedNodesIff(scs: seq<NodeId>, marked: set<nat>, n: nat, x: NodeId)
    requires n <= |scs|
    ensures x in MarkedNodes(scs, marked, n) <==> exists i :: 0 <= i < n && i in marked && scs[i] == x
  {
    if n > 0 {
      MarkedNodesIff(scs, marked, n - 1, x);
    }
  }

  /** Every SC is a branch of `g` with a condition operand. */
  predicate Checks(g: Graph, scs: seq<NodeId>) {
    forall s | s in scs :: s in g && IsBr(g[s]) && |g[s].operands| > 0
  }

  /** One round of the final loop: SC `i` is rewritten when it is marked. */
  function RewriteOne(g: Graph, scs: seq<NodeId>, marked: set<nat>, regular: NodeId -> nat, i: nat): (g': Graph)
    requires i < |scs| && Checks(g, scs)
    ensures g'.Keys == g.Keys
    ensures forall x | x in g :: g'[x].opcode == g[x].opcode && |g'[x].operands| == |g[x].operands|
    ensures forall x | x in g && (i !in marked || x != scs[i]) :: g'[x] == g[x]
    ensures i in marked && regular(scs[i]) <= 1 ==>
              g'[scs[i]].operands[0].ConstInt? && Rewrite.Taken(g'[scs[i]].operands[0]) == regular(scs[i])
    ensures WF(g) ==> WF(g')
  {
    assert scs[i] in scs;
    if i in marked then
      var g' := Rewrite.OptimizeCheckAway(g, scs[i], regular(scs[i]));
      assert WF(g) ==> WF(g') by {
        if WF(g) {
          Rewrite.OptimizeCheckAwayPreservesWF(g, scs[i], regular(scs[i]));
        }
      }
      g'
    else g
  }

  /** The final loop: rewrite each marked SC, in enumeration order. */
  function RewriteMarked(g: Graph, scs: seq<NodeId>, marked: set<nat>, regular: NodeId -> nat, n: nat): (g': Graph)
    requires n <= |scs| && Checks(g, scs)
    ensures g'.Keys == g.Keys
    ensures forall x | x in g :: g'[x].opcode == g[x].opcode && |g'[x].operands| == |g[x].operands|
    ensures forall x | x in g && x !in MarkedNodes(scs, marked, n) :: g'[x] == g[x]
    ensures forall i | 0 <= i < n && i in marked && regular(scs[i]) <= 1 ::
              g'[scs[i]].operands[0].ConstInt? && Rewrite.Taken(g'[scs[i]].operands[0]) == regular(scs[i])
  {
    if n == 0 then g
    else
      var g1 := RewriteMarked(g, scs, marked, regular, n - 1);
      assert Checks(g1, scs);
      RewriteOne(g1, scs, marked, regular, n - 1)
  }

  /** The rewrites keep the graph well formed. */
  lemma {:induction false} RewriteMarkedKeepsWF(g: Graph, scs: seq<NodeId>, marked: set<nat>, regular: NodeId -> nat, n: nat)
    requires n <= |scs| && Checks(g, scs) && WF(g)
    ensures WF(RewriteMarked(g, scs, marked, regular, n))
  {
    if n > 0 {
      RewriteMarkedKeepsWF(g, scs, marked, regular, n - 1);
    }
  }

  /** The counters StaPass reports and its outcome. */
  datatype Report = Report(g: Graph, marked: set<nat>, scCount: nat, scWeight: nat, ucCount: nat,
                           keptAfterUcs: int, weightAfterUcs: int, keptAfterScs: int, weightAfterScs: int)

  /** The whole pass, with the UC loop as evidently intended. */
  method Run(g: Graph, o: Oracle, scs: seq<NodeId>, ucs: seq<NodeId>, trace: seq<(nat, nat)>, read: bool,
             regular: NodeId -> nat) returns (r: Report)
    requires Ready(g, o, scs, ucs) && (read ==> |trace| >= |scs|)
    ensures var reach := Reach(trace, read, |scs|);
            var m1 := UcMarks(o, SameSource(g), scs, ucs);
            && r.marked == m1 + NewlyMarked(g, o, SameSource(g), scs, m1, |scs|)
            && r.scCount == |scs| && r.scWeight == Sum(reach, |scs|)
            && r.ucCount == |ucs|
            && r.keptAfterUcs == |scs| - |m1|
            && r.weightAfterUcs == r.scWeight - IndexSum(reach, m1, |scs|)
            && r.keptAfterScs == |scs| - |r.marked|
            && r.weightAfterScs == r.scWeight - IndexSum(reach, r.marked, |scs|)
            && 0 <= r.keptAfterScs <= r.keptAfterUcs <= |scs|
            && 0 <= r.weightAfterScs <= r.weightAfterUcs <= r.scWeight
            && r.g == RewriteMarked(g, scs, r.marked, regular, |scs|) && WF(r.g)
  {
    var same := SameSource(g);
    var reach := Reach(trace, read, |scs|);
    var weight := Sum(reach, |scs|);
    var m1 := UcLoop(o, same, scs, ucs);
    assert ConesIn(g, o, scs);
    var m2 := Phase3(g, o, same, scs, m1);
    NewlyMarkedApart(g, o, same, scs, m1);
    Tally(reach, m1, m2);
    assert Checks(g, scs);
    var g' := RewriteMarked(g, scs, m1 + m2, regular, |scs|);
    RewriteMarkedKeepsWF(g, scs, m1 + m2, regular, |scs|);
    // The counters drop once per newly marked SC: by the mark counts.
    var n1, w1 := |m1|, IndexSum(reach, m1, |scs|);
    var n2, w2 := |m2|, IndexSum(reach, m2, |scs|);
    r := Report(g', m1 + m2, |scs|, weight, |ucs|, |scs| - n1, weight - w1, |scs| - n1 - n2, weight - w1 - w2);
  }

  /** Phase 3 marks only SCs the UC loop left unmarked. */
  lemma NewlyMarkedApart(g: Graph, o: Oracle, same: (NodeId, NodeId) -> bool, scs: seq<NodeId>, marked0: set<nat>)
    requires ConesIn(g, o, scs)
    ensures marked0 !! NewlyMarked(g, o, same, scs, marked0, |scs|)
  {
    forall k | k in NewlyMarked(g, o, same, scs, marked0, |scs|)
      ensures k !in marked0
    {
      NewlyMarkedIff(g, o, same, scs, marked0, |scs|, k);
    }
  }

  /** The counter arithmetic of `Run`: marks are SC indices, the phase-3 marks
      extend the UC marks. */
  lemma Tally(reach: seq<nat>, m1: set<nat>, m2: set<nat>)
    requires m1 !! m2 && forall k | k in m1 + m2 :: k < |reach|
    ensures |m1 + m2| == |m1| + |m2| <= |reach|
    ensures IndexSum(reach, m1 + m2, |reach|) == IndexSum(reach, m1, |reach|) + IndexSum(reach, m2, |reach|)
    ensures IndexSum(reach, m1 + m2, |reach|) <= Sum(reach, |reach|)
  {
    SplitSum(reach, m1, m2, |reach|);
    IndexSumBound(reach, m1 + m2, |reach|);
    RangeCard(m1 + m2, |reach|);
  }

  lemma {:induction false} RangeCard(s: set<nat>, n: nat)
    requires forall k | k in s :: k < n
    ensures |s| <= n
  {
    if n > 0 {
      RangeCard(s - {n - 1}, n - 1);
    }
  }

  lemma {:induction false} SplitSum(w: seq<nat>, a: set<nat>, b: set<nat>, n: nat)
    requires n <= |w| && a !! b
    ensures IndexSum(w, a + b, n) == IndexSum(w, a, n) + IndexSum(w, b, n)
  {
    if n > 0 {
      SplitSum(w, a, b, n - 1);
    }
  }
}
