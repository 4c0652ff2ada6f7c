/** SafePass: the coverage-driven reduction whose same-source test answers
    true. Phase 1 removes every SC whose counts are a UC's counts; at levels
    above L0 it also removes every SC in the UC's bucket whose slice reaches a
    single induction-variable phi. Phase 2 compares each SC with the SCs kept
    so far (`SC_Pattern_opt`), so the first SC of each total is never removed
    by it.
 */
module SafePass {
  import opened Graph
  import opened Coverage
  import opened Engine
  import SafeMatch

  function Configure(level: SafeMatch.Level): Config {
    Config(Always, level != SafeMatch.L0, Always, Survivors)
  }

  /** The engine's always-true test is SafePass `findSameSource`, whatever the
      check type and level it is called with. */
  lemma AlwaysIsFindSameSource(g: Graph, sc: NodeId, other: NodeId, kind: SafeMatch.Kind, level: SafeMatch.Level)
    requires WF(g) && sc in g && other in g
    ensures Holds(Always, g, sc, other) == SafeMatch.FindSameSource(g, sc, other, kind, level)
  {
  }

  lemma {:induction false} Phase1RemovesPairs(st: Tally, ucs: seq<Check>, table: Table, phiSweep: bool,
                                              regular: NodeId -> nat)
    requires WF(st.g) && ChecksOk(st.g, ucs) && TableOk(st.g, table)
    ensures forall u, s | u in ucs && u.rec.count0 in table && u.rec.count0 > 0 &&
                          s in table[u.rec.count0] && Passes(SamePair(u.rec.left, u.rec.right), s) ::
              s.id in Phase1(st, ucs, table, Always, phiSweep, regular).reduced
    decreases |ucs|
  {
    if ucs != [] {
      var st1 := UcStep(st, ucs[0], table, Always, phiSweep, regular);
      KeepsOk(st.g, st1.g, table, ucs[1..]);
      Phase1RemovesPairs(st1, ucs[1..], table, phiSweep, regular);
    }
  }

  /** Every SC whose left and right counts are a UC's left and right counts
      (in either order), with a non-zero total, is removed. */
  lemma PairsRemoved(g: Graph, scs: seq<Check>, ucs: seq<Check>, level: SafeMatch.Level,
                     regular: NodeId -> nat, u: Check, c: Check)
    requires Ready(g, scs, ucs)
    requires u in ucs && c in scs
    requires u.rec.count0 == Total(c) > 0
    requires (c.rec.left == u.rec.left && c.rec.right == u.rec.right) ||
             (c.rec.left == u.rec.right && c.rec.right == u.rec.left)
    ensures c.rec.id in Run(g, scs, ucs, Configure(level), regular).reduced
  {
    var table := Ingest(scs);
    IngestOk(g, scs);
    IngestIsBucket(scs);
    var i :| 0 <= i < |scs| && scs[i] == c;
    assert Total(c) in Totals(scs);
    BucketContains(scs, Total(c), i);
    Phase1RemovesPairs(Start(g, scs), ucs, table, level != SafeMatch.L0, regular);
  }

  /** The head SC, whose total is not yet in the survivors table, finds no
      partner and is never removed later. */
  lemma Phase2KeepsHead(p: Phase2State, scs: seq<Check>, full: Table, regular: NodeId -> nat)
    requires WF(p.t.g) && ChecksOk(p.t.g, scs) && TableOk(p.t.g, full) && TableOk(p.t.g, p.opt)
    requires Distinct(scs) && scs != [] && Total(scs[0]) !in p.opt && scs[0].rec.id !in p.t.reduced
    ensures scs[0].rec.id !in Phase2(p, scs, full, Always, Survivors, regular).t.reduced
  {
    var p1 := ScStep(p, scs[0], full, Always, Survivors, regular);
    KeepsOk(p.t.g, p1.t.g, full, scs[1..]);
    assert !Matched(p, scs[0], full, Always, Survivors);
    forall c | c in scs[1..] ensures c.rec.id != scs[0].rec.id {
      var j :| 0 <= j < |scs[1..]| && scs[1..][j] == c;
      assert scs[j + 1] == c;
    }
    Phase2NotAdded(p1, scs[1..], full, Always, Survivors, regular, scs[0].rec.id);
    assert Phase2(p, scs, full, Always, Survivors, regular) == Phase2(p1, scs[1..], full, Always, Survivors, regular);
  }

  /** Phase 2 never removes an SC whose total no earlier SC had and whose
      total is not yet in the survivors table. */
  lemma {:induction false} Phase2KeepsFirst(p: Phase2State, scs: seq<Check>, full: Table,
                                            regular: NodeId -> nat, i: nat)
    requires WF(p.t.g) && ChecksOk(p.t.g, scs) && TableOk(p.t.g, full) && TableOk(p.t.g, p.opt)
    requires Distinct(scs)
    requires i < |scs| && Total(scs[i]) !in p.opt
    requires forall j | 0 <= j < i :: Total(scs[j]) != Total(scs[i])
    requires scs[i].rec.id !in p.t.reduced
    ensures scs[i].rec.id !in Phase2(p, scs, full, Always, Survivors, regular).t.reduced
    decreases |scs|, 1
  {
    if i == 0 {
      Phase2KeepsHead(p, scs, full, regular);
    } else {
      Phase2KeepsLater(p, scs, full, regular, i);
    }
  }

  /** The step case of `Phase2KeepsFirst`: the head SC has another total, so
      its step leaves the SC `i` unrecorded and its total out of the table. */
  lemma {:induction false} Phase2KeepsLater(p: Phase2State, scs: seq<Check>, full: Table,
                                            regular: NodeId -> nat, i: nat)
    requires WF(p.t.g) && ChecksOk(p.t.g, scs) && TableOk(p.t.g, full) && TableOk(p.t.g, p.opt)
    requires Distinct(scs)
    requires 0 < i < |scs| && Total(scs[i]) !in p.opt
    requires forall j | 0 <= j < i :: Total(scs[j]) != Total(scs[i])
    requires scs[i].rec.id !in p.t.reduced
    ensures scs[i].rec.id !in Phase2(p, scs, full, Always, Survivors, regular).t.reduced
    decreases |scs|, 0
  {
    var p1 := ScStep(p, scs[0], full, Always, Survivors, regular);
    LaterReady(p, scs, full, regular, i);
    Phase2KeepsFirst(p1, scs[1..], full, regular, i - 1);
    Phase2Unfold(p, scs, full, Always, Survivors, regular);
  }

  /** After the step on the first SC, the later SC still meets the
      conditions of `Phase2KeepsFirst` on the rest of the list. */
  lemma LaterReady(p: Phase2State, scs: seq<Check>, full: Table, regular: NodeId -> nat, i: nat)
    requires WF(p.t.g) && ChecksOk(p.t.g, scs) && TableOk(p.t.g, full) && TableOk(p.t.g, p.opt)
    requires Distinct(scs)
    requires 0 < i < |scs| && Total(scs[i]) !in p.opt
    requires forall j | 0 <= j < i :: Total(scs[j]) != Total(scs[i])
    requires scs[i].rec.id !in p.t.reduced
    ensures var p1 := ScStep(p, scs[0], full, Always, Survivors, regular);
            var rest := scs[1..];
            && WF(p1.t.g) && ChecksOk(p1.t.g, rest) && TableOk(p1.t.g, full) && TableOk(p1.t.g, p1.opt)
            && Distinct(rest) && rest[i - 1] == scs[i]
            && Total(rest[i - 1]) !in p1.opt && rest[i - 1].rec.id !in p1.t.reduced
            && (forall j | 0 <= j < i - 1 :: Total(rest[j]) != Total(rest[i - 1]))
  {
    var p1 := ScStep(p, scs[0], full, Always, Survivors, regular);
    var rest := scs[1..];
    KeepsOk(p.t.g, p1.t.g, full, rest);
    DistinctTail(scs);
    assert rest[i - 1] == scs[i];
    assert scs[0].rec.id != scs[i].rec.id;
    ScStepSpares(p, scs[0], scs[i], full, Always, Survivors, regular);
    forall j | 0 <= j < i - 1 ensures Total(rest[j]) != Total(rest[i - 1]) {
      assert rest[j] == scs[j + 1];
    }
  }


  /** The first SC of each total is removed only if phase 1 removed it. */
  lemma FirstOfTotalKept(g: Graph, scs: seq<Check>, ucs: seq<Check>, level: SafeMatch.Level,
                         regular: NodeId -> nat, i: nat)
    requires Ready(g, scs, ucs) && Distinct(scs)
    requires i < |scs| && forall j | 0 <= j < i :: Total(scs[j]) != Total(scs[i])
    requires scs[i].rec.id !in RunPhase1(g, scs, ucs, Configure(level), regular).reduced
    ensures scs[i].rec.id !in Run(g, scs, ucs, Configure(level), regular).reduced
  {
    var st1 := RunPhase1(g, scs, ucs, Configure(level), regular);
    Phase2KeepsFirst(Phase2State(st1, map[], 0, 0), scs, Ingest(scs), regular, i);
  }
}
