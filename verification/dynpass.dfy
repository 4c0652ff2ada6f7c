/** DynPass: the coverage-driven reduction whose test is `findSameSourceS`,
    the static-pattern comparison. Phase 2 compares each SC with every other
    SC of the full table, never with its own entry, so an SC that no other SC
    shares a total with is never removed by phase 2.
 */
module DynPass {
  import opened Graph
  import opened Coverage
  import opened Engine

  const Configuration: Config := Config(StaticSource, false, StaticSource, AllOthers)

  /** Phase 2 never removes an SC every entry of whose bucket is its own. */
  lemma Phase2SkipsSelf(p: Phase2State, scs: seq<Check>, full: Table, regular: NodeId -> nat, i: nat)
    requires WF(p.t.g) && ChecksOk(p.t.g, scs) && TableOk(p.t.g, full) && TableOk(p.t.g, p.opt)
    requires Distinct(scs)
    requires i < |scs| && scs[i].rec.id !in p.t.reduced
    requires Total(scs[i]) in full ==> forall s | s in full[Total(scs[i])] :: s.id == scs[i].rec.id
    ensures scs[i].rec.id !in Phase2(p, scs, full, StaticSource, AllOthers, regular).t.reduced
    decreases |scs|, 1
  {
    if i == 0 {
      SkipsSelfHead(p, scs, full, regular);
    } else {
      SkipsSelfLater(p, scs, full, regular, i);
    }
  }

  /** The first SC finds no partner, and no later SC has its id. */
  lemma SkipsSelfHead(p: Phase2State, scs: seq<Check>, full: Table, regular: NodeId -> nat)
    requires WF(p.t.g) && ChecksOk(p.t.g, scs) && TableOk(p.t.g, full) && TableOk(p.t.g, p.opt)
    requires Distinct(scs)
    requires 0 < |scs| && scs[0].rec.id !in p.t.reduced
    requires Total(scs[0]) in full ==> forall s | s in full[Total(scs[0])] :: s.id == scs[0].rec.id
    ensures scs[0].rec.id !in Phase2(p, scs, full, StaticSource, AllOthers, regular).t.reduced
  {
    var p1 := ScStep(p, scs[0], full, StaticSource, AllOthers, regular);
    KeepsOk(p.t.g, p1.t.g, full, scs[1..]);
    assert !Matched(p, scs[0], full, StaticSource, AllOthers);
    forall c | c in scs[1..] ensures c.rec.id != scs[0].rec.id {
      var j :| 0 <= j < |scs[1..]| && scs[1..][j] == c;
      assert scs[j + 1] == c;
    }
    Phase2NotAdded(p1, scs[1..], full, StaticSource, AllOthers, regular, scs[0].rec.id);
  }

  lemma {:induction false} SkipsSelfLater(p: Phase2State, scs: seq<Check>, full: Table,
                                          regular: NodeId -> nat, i: nat)
    requires WF(p.t.g) && ChecksOk(p.t.g, scs) && TableOk(p.t.g, full) && TableOk(p.t.g, p.opt)
    requires Distinct(scs)
    requires 0 < i < |scs| && scs[i].rec.id !in p.t.reduced
    requires Total(scs[i]) in full ==> forall s | s in full[Total(scs[i])] :: s.id == scs[i].rec.id
    ensures scs[i].rec.id !in Phase2(p, scs, full, StaticSource, AllOthers, regular).t.reduced
    decreases |scs|, 0
  {
    var p1 := ScStep(p, scs[0], full, StaticSource, AllOthers, regular);
    LaterReady(p, scs, full, regular, i);
    Phase2SkipsSelf(p1, scs[1..], full, regular, i - 1);
    Phase2Unfold(p, scs, full, StaticSource, AllOthers, regular);
  }

  /** After the step on the first SC, the later SC still meets the
      conditions of `Phase2SkipsSelf` on the rest of the list. */
  lemma LaterReady(p: Phase2State, scs: seq<Check>, full: Table, regular: NodeId -> nat, i: nat)
    requires WF(p.t.g) && ChecksOk(p.t.g, scs) && TableOk(p.t.g, full) && TableOk(p.t.g, p.opt)
    requires Distinct(scs)
    requires 0 < i < |scs| && scs[i].rec.id !in p.t.reduced
    ensures var p1 := ScStep(p, scs[0], full, StaticSource, AllOthers, regular);
            var rest := scs[1..];
            && WF(p1.t.g) && ChecksOk(p1.t.g, rest) && TableOk(p1.t.g, full) && TableOk(p1.t.g, p1.opt)
            && Distinct(rest) && rest[i - 1] == scs[i] && rest[i - 1].rec.id !in p1.t.reduced
  {
    var p1 := ScStep(p, scs[0], full, StaticSource, AllOthers, regular);
    KeepsOk(p.t.g, p1.t.g, full, scs[1..]);
    DistinctTail(scs);
    assert scs[1..][i - 1] == scs[i];
    assert scs[0].rec.id != scs[i].rec.id;
    ScStepSpares(p, scs[0], scs[i], full, StaticSource, AllOthers, regular);
  }


  /** An SC whose total no other SC has is removed only if phase 1 removed it. */
  lemma LoneTotalKept(g: Graph, scs: seq<Check>, ucs: seq<Check>, regular: NodeId -> nat, i: nat)
    requires Ready(g, scs, ucs) && Distinct(scs)
    requires i < |scs| && forall j | 0 <= j < |scs| && j != i :: Total(scs[j]) != Total(scs[i])
    requires scs[i].rec.id !in RunPhase1(g, scs, ucs, Configuration, regular).reduced
    ensures scs[i].rec.id !in Run(g, scs, ucs, Configuration, regular).reduced
  {
    var st1 := RunPhase1(g, scs, ucs, Configuration, regular);
    var full := Ingest(scs);
    IngestIsBucket(scs);
    if Total(scs[i]) in full {
      BucketMembers(scs, Total(scs[i]));
      forall s: Stat | s in full[Total(scs[i])] ensures s.id == scs[i].rec.id {
        var j :| 0 <= j < |scs| && Total(scs[j]) == Total(scs[i]) && StatOf(scs[j]) == s;
      }
    }
    Phase2SkipsSelf(Phase2State(st1, map[], 0, 0), scs, full, regular, i);
  }
}
