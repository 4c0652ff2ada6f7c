/** DynPass2: the coverage-driven reduction whose test compares the leaf sets
    of two checks' slices (`findPhiInst`), extended with an execution-cost
    estimate. Each SC costs, per instruction of its cone, the cost model's
    price (1 when the model cannot price it) times the SC's total; the pass
    sums the costs of all SCs and of the SCs kept, and counts (`test3`) the SCs
    found removed right after their phase-2 step.

    The cone of a check and the cost model are not part of this model; the
    prices of a check's cone instructions are the parameter `prices`.
 */
module DynPass2 {
  import opened Graph
  import opened Coverage
  import opened Engine

  const Configuration: Config := Config(LeafSets, false, LeafSets, AllOthers)

  /** `(unsigned)(-1)`, the cost model's answer for an instruction it cannot price. */
  const UNKNOWN_COST: nat := 0xFFFF_FFFF

  function InstrCost(c: nat): nat {
    if c == UNKNOWN_COST then 1 else c
  }

  /** The summed per-execution price of a cone. */
  function Price(prices: seq<nat>): nat {
    if prices == [] then 0 else Price(prices[..|prices| - 1]) + InstrCost(prices[|prices| - 1])
  }

  /** The loop that accumulates a check's cost, one instruction at a time. */
  function CheckCost(prices: seq<nat>, total: nat): (cost: nat)
    ensures cost == Price(prices) * total
  {
    if prices == [] then 0
    else
      var cost := CheckCost(prices[..|prices| - 1], total) + InstrCost(prices[|prices| - 1]) * total;
      assert cost == (Price(prices[..|prices| - 1]) + InstrCost(prices[|prices| - 1])) * total;
      cost
  }

  /** `Total_Cost`, `Total_Cost_Opt` and `test3`. */
  datatype Costs = Costs(total: nat, totalOpt: int, removed: nat)

  datatype CostState = CostState(p: Phase2State, c: Costs)

  function Cost(prices: NodeId -> seq<nat>, sc: Check): nat {
    CheckCost(prices(sc.node), Total(sc))
  }

  /** The cost of all the given SCs. */
  function AllCost(scs: seq<Check>, prices: NodeId -> seq<nat>): nat {
    if scs == [] then 0 else AllCost(scs[..|scs| - 1], prices) + Cost(prices, scs[|scs| - 1])
  }

  /** The cost of the given SCs whose id is in `removed`. */
  function RemovedCost(scs: seq<Check>, removed: set<nat>, prices: NodeId -> seq<nat>): nat {
    if scs == [] then 0
    else
      RemovedCost(scs[..|scs| - 1], removed, prices)
      + (if scs[|scs| - 1].rec.id in removed then Cost(prices, scs[|scs| - 1]) else 0)
  }

  /** The cost bookkeeping for one SC of cost `cost`: both sums take it,
      and when the SC is found removed the reduced sum gives it back and
      `test3` counts it. */
  function Charge(c: Costs, cost: nat, gone: bool): Costs {
    Costs(c.total + cost, c.totalOpt + cost - (if gone then cost else 0), c.removed + (if gone then 1 else 0))
  }

  /** The phase-2 work for one SC, with its cost. */
  function CostStep(q: CostState, sc: Check, full: Table, regular: NodeId -> nat,
                    prices: NodeId -> seq<nat>): (r: CostState)
    requires WF(q.p.t.g) && sc.node in q.p.t.g && IsBr(q.p.t.g[sc.node])
    requires TableOk(q.p.t.g, full) && TableOk(q.p.t.g, q.p.opt)
    ensures r.p == ScStep(q.p, sc, full, LeafSets, AllOthers, regular)
    ensures r.c == Charge(q.c, Cost(prices, sc), sc.rec.id in r.p.t.reduced)
  {
    var p := ScStep(q.p, sc, full, LeafSets, AllOthers, regular);
    CostState(p, Charge(q.c, Cost(prices, sc), sc.rec.id in p.t.reduced))
  }

  /** Phase 2 with costs, over the SCs in order. */
  function CostPhase2(q: CostState, scs: seq<Check>, full: Table, regular: NodeId -> nat,
                      prices: NodeId -> seq<nat>): (r: CostState)
    requires WF(q.p.t.g) && ChecksOk(q.p.t.g, scs) && TableOk(q.p.t.g, full) && TableOk(q.p.t.g, q.p.opt)
    ensures r.p == Phase2(q.p, scs, full, LeafSets, AllOthers, regular)
    decreases |scs|
  {
    if scs == [] then q
    else
      var q1 := CostStep(q, scs[0], full, regular, prices);
      KeepsOk(q.p.t.g, q1.p.t.g, full, scs[1..]);
      CostPhase2(q1, scs[1..], full, regular, prices)
  }

  lemma IdsSnoc(done: seq<Check>, c: Check)
    ensures Ids(done + [c]) == Ids(done) + {c.rec.id}
  {
    var s := done + [c];
    forall k | k in Ids(s) ensures k in Ids(done) + {c.rec.id} {
      var i :| 0 <= i < |s| && s[i].rec.id == k;
      if i < |done| {
        assert s[i] == done[i];
      }
    }
    forall k | k in Ids(done) ensures k in Ids(s) {
      var i :| 0 <= i < |done| && done[i].rec.id == k;
      assert s[i] == done[i];
    }
    assert s[|done|] == c;
  }

  /** The removed cost of `done` depends only on which of its ids are removed. */
  lemma {:induction false} RemovedCostAgree(done: seq<Check>, a: set<nat>, b: set<nat>,
                                            prices: NodeId -> seq<nat>)
    requires forall k | k in Ids(done) :: k in a <==> k in b
    ensures RemovedCost(done, a, prices) == RemovedCost(done, b, prices)
  {
    if done != [] {
      var init := done[..|done| - 1];
      var last := done[|done| - 1];
      assert done == init + [last];
      IdsSnoc(init, last);
      RemovedCostAgree(init, a, b, prices);
    }
  }

  /** One step's effect on the removed ids among the SCs walked so far. */
  lemma CountStep(a: set<nat>, b: set<nat>, done: set<nat>, id: nat)
    requires a <= b <= a + {id} && id !in done
    ensures forall k | k in done :: k in a <==> k in b
    ensures |b * (done + {id})| == |a * done| + (if id in b then 1 else 0)
  {
    if id in b {
      assert b * (done + {id}) == (a * done) + {id};
    } else {
      assert b * (done + {id}) == a * done;
    }
  }

  lemma {:induction false} RemovedCostBound(done: seq<Check>, a: set<nat>, prices: NodeId -> seq<nat>)
    ensures RemovedCost(done, a, prices) <= AllCost(done, prices)
  {
    if done != [] {
      RemovedCostBound(done[..|done| - 1], a, prices);
    }
  }

  /** The bookkeeping after the SCs `done`, with `reduced` the removed ids:
      `test3` counts the removed ids among them, and the two cost sums differ
      by the cost of those SCs. */
  ghost predicate Booked(c: Costs, reduced: set<nat>, done: seq<Check>, prices: NodeId -> seq<nat>) {
    && c.removed == |reduced * Ids(done)|
    && c.total == AllCost(done, prices)
    && c.totalOpt == c.total - RemovedCost(done, reduced, prices)
  }

  /** Charging one more SC, whose step may only have removed that SC, keeps
      the books. */
  lemma ChargeBooks(c: Costs, a: set<nat>, b: set<nat>, done: seq<Check>, sc: Check, prices: NodeId -> seq<nat>)
    requires Booked(c, a, done, prices) && sc.rec.id !in Ids(done) && a <= b <= a + {sc.rec.id}
    ensures Booked(Charge(c, Cost(prices, sc), sc.rec.id in b), b, done + [sc], prices)
  {
    IdsSnoc(done, sc);
    CountStep(a, b, Ids(done), sc.rec.id);
    RemovedCostAgree(done, a, b, prices);
    var all := done + [sc];
    assert all[..|all| - 1] == done && all[|all| - 1] == sc;
  }

  /** The bookkeeping invariant holds over the whole of phase 2. */
  lemma {:induction false} CostPhase2Books(q: CostState, done: seq<Check>, rest: seq<Check>, full: Table,
                                           regular: NodeId -> nat, prices: NodeId -> seq<nat>)
    requires WF(q.p.t.g) && ChecksOk(q.p.t.g, rest) && TableOk(q.p.t.g, full) && TableOk(q.p.t.g, q.p.opt)
    requires Distinct(done + rest) && Booked(q.c, q.p.t.reduced.Keys, done, prices)
    ensures var r := CostPhase2(q, rest, full, regular, prices);
            Booked(r.c, r.p.t.reduced.Keys, done + rest, prices)
    decreases |rest|
  {
    if rest != [] {
      NextIsNew(done, rest);
      var q1 := CostStep(q, rest[0], full, regular, prices);
      ChargeBooks(q.c, q.p.t.reduced.Keys, q1.p.t.reduced.Keys, done, rest[0], prices);
      KeepsOk(q.p.t.g, q1.p.t.g, full, rest[1..]);
      assert CostPhase2(q, rest, full, regular, prices) == CostPhase2(q1, rest[1..], full, regular, prices);
      CostPhase2Books(q1, done + [rest[0]], rest[1..], full, regular, prices);
    } else {
      assert done + rest == done;
    }
  }

  datatype Outcome = Outcome(report: Report, costs: Costs)

  /** Both phases, with the cost estimate. */
  function Run(g: Graph, scs: seq<Check>, ucs: seq<Check>, regular: NodeId -> nat,
               prices: NodeId -> seq<nat>): (r: Outcome)
    requires Ready(g, scs, ucs)
    ensures r.report == Engine.Run(g, scs, ucs, Configuration, regular)
  {
    var st1 := RunPhase1(g, scs, ucs, Configuration, regular);
    var q := CostPhase2(CostState(Phase2State(st1, map[], 0, 0), Costs(0, 0, 0)), scs, Ingest(scs), regular, prices);
    Phase2ByCheck(scs, st1, LeafSets, AllOthers, regular);
    Outcome(Finish(g, scs, ucs, st1, q.p), q.c)
  }

  /** With distinct ids the whole run keeps the books over all SCs. */
  lemma RunBooked(g: Graph, scs: seq<Check>, ucs: seq<Check>, regular: NodeId -> nat,
                  prices: NodeId -> seq<nat>)
    requires Ready(g, scs, ucs) && Distinct(scs)
    ensures var r := Run(g, scs, ucs, regular, prices);
            Booked(r.costs, r.report.reduced.Keys, scs, prices)
  {
    var st1 := RunPhase1(g, scs, ucs, Configuration, regular);
    var q0 := CostState(Phase2State(st1, map[], 0, 0), Costs(0, 0, 0));
    assert Booked(q0.c, q0.p.t.reduced.Keys, [], prices) by {
      assert Ids([]) == {};
    }
    assert [] + scs == scs;
    CostPhase2Books(q0, [], scs, Ingest(scs), regular, prices);
    var q := CostPhase2(q0, scs, Ingest(scs), regular, prices);
    Phase2ByCheck(scs, st1, LeafSets, AllOthers, regular);
    assert Run(g, scs, ucs, regular, prices) == Outcome(Finish(g, scs, ucs, st1, q.p), q.c);
  }

  /** With distinct ids, `test3` equals `flagSC - flagSC_opts`, the reduced
      cost is the total cost less the cost of the removed SCs, and it lies
      between zero and the total cost. */
  lemma RemovedCounted(g: Graph, scs: seq<Check>, ucs: seq<Check>, regular: NodeId -> nat,
                       prices: NodeId -> seq<nat>)
    requires Ready(g, scs, ucs) && Distinct(scs)
    ensures var r := Run(g, scs, ucs, regular, prices);
            && r.costs.removed == r.report.scCount - r.report.keptAfterScs
            && r.costs.total == AllCost(scs, prices)
            && r.costs.totalOpt == r.costs.total - RemovedCost(scs, r.report.reduced.Keys, prices)
            && 0 <= r.costs.totalOpt <= r.costs.total
  {
    var r := Run(g, scs, ucs, regular, prices);
    RunBooked(g, scs, ucs, regular, prices);
    var k := r.report.reduced.Keys;
    KeysAreIds(scs, r.report.reduced);
    assert k * Ids(scs) == k;
    RemovedCostBound(scs, k, prices);
  }
}
