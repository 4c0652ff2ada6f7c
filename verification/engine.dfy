/** The coverage-driven two-phase reduction shared by SafePass, DynPass and
    DynPass2.

    Phase 1 walks the unsanitized checks (UCs). A UC whose reach count is a key
    of the table removes every table entry with the same left/right counts (in
    either order) that passes the pass's test; otherwise a UC whose left, or
    else right, count is a key removes every entry with a zero side that passes
    the test. Phase 2 walks the sanitizer checks (SCs) again and removes an SC
    when some other entry with its total and a shared left count passes the
    test. A removed check is rewritten to always take its regular branch, its
    id is recorded with the count that justified it, and the kept count and
    kept weight (`flagSC_opt`, `costflagSC_opt` and their phase-2 successors)
    drop by one and by that count.

    The order in which the source visits the checks is the order of the
    sequences given here; the regular-branch oracle is the parameter `regular`.
 */
module Engine {
  import opened Graph
  import opened Coverage
  import StaticPattern
  import PhiSlice
  import Rewrite

  /** The program, the removed checks (id to justifying count), and the number
      and summed totals of the checks still kept. */
  datatype Tally = Tally(g: Graph, reduced: map<nat, nat>, kept: int, keptWeight: int)

  /** Which predicate a pass asks of a candidate pair. */
  datatype Test =
    | Always        // SafePass: `findSameSource` answers true
    | StaticSource  // DynPass: `findSameSourceS`
    | IndVarPhi     // SafePass' induction-variable sweep: `findPhiInst`
    | LeafSets      // DynPass2: `findPhiInst`

  /** Which entries a left/right filter admits in phase 1. */
  datatype Filter = SamePair(a: nat, b: nat) | ZeroSide | AnyStat

  /** Which table phase 2 searches: the survivors so far (SafePass) or every
      SC except the check itself (DynPass, DynPass2). */
  datatype Against = Survivors | AllOthers

  /** The sum of the justifying counts of the removed checks. */
  ghost function MapSum(m: map<nat, nat>): nat
    decreases |m.Keys|
  {
    if m == map[] then 0
    else
      var k :| k in m;
      assert (m - {k}).Keys == m.Keys - {k};
      m[k] + MapSum(m - {k})
  }

  lemma {:induction false} MapSumRemove(m: map<nat, nat>, k: nat)
    requires k in m
    ensures MapSum(m) == m[k] + MapSum(m - {k})
    decreases |m.Keys|
  {
    var j :| j in m && MapSum(m) == m[j] + MapSum(m - {j});
    if j != k {
      assert (m - {j}).Keys == m.Keys - {j};
      assert (m - {k}).Keys == m.Keys - {k};
      MapSumRemove(m - {j}, k);
      MapSumRemove(m - {k}, j);
      assert m - {j} - {k} == m - {k} - {j};
    }
  }

  lemma MapSumAdd(m: map<nat, nat>, k: nat, v: nat)
    requires k !in m
    ensures MapSum(m[k := v]) == MapSum(m) + v
    ensures |m[k := v].Keys| == |m.Keys| + 1
  {
    MapSumRemove(m[k := v], k);
    assert m[k := v] - {k} == m;
    assert m[k := v].Keys == m.Keys + {k};
  }

  /** What a rewrite keeps of the program: its nodes, their opcodes and the
      structural invariants. */
  predicate Keeps(g: Graph, g': Graph) {
    && g'.Keys == g.Keys
    && (forall n | n in g :: g'[n].opcode == g[n].opcode)
    && (WF(g) ==> WF(g'))
    && (NoBrOperand(g) ==> NoBrOperand(g'))
    && (BrConditionOnly(g) ==> BrConditionOnly(g'))
  }

  /** `b` follows `a`: the program only had checks rewritten, a check is
      recorded at most once and its justification never changes, and every
      new record was paid for by one kept check and its justifying count. */
  ghost predicate Evolves(a: Tally, b: Tally) {
    && Keeps(a.g, b.g)
    && a.reduced.Keys <= b.reduced.Keys
    && (forall k | k in a.reduced :: b.reduced[k] == a.reduced[k])
    && b.kept + |b.reduced.Keys| == a.kept + |a.reduced.Keys|
    && b.keptWeight + MapSum(b.reduced) == a.keptWeight + MapSum(a.reduced)
  }

  lemma EvolvesTrans(a: Tally, b: Tally, c: Tally)
    requires Evolves(a, b) && Evolves(b, c)
    ensures Evolves(a, c)
  {
  }

  predicate StatsOk(g: Graph, bucket: seq<Stat>) {
    forall s | s in bucket :: s.sc in g && IsBr(g[s.sc])
  }

  predicate TableOk(g: Graph, t: Table) {
    forall key | key in t :: StatsOk(g, t[key])
  }

  predicate ChecksOk(g: Graph, cs: seq<Check>) {
    forall c | c in cs :: c.node in g && IsBr(g[c.node])
  }

  lemma KeepsOk(g: Graph, g': Graph, t: Table, cs: seq<Check>)
    requires Keeps(g, g')
    ensures TableOk(g, t) ==> TableOk(g', t)
    ensures ChecksOk(g, cs) ==> ChecksOk(g', cs)
  {
  }

  lemma AppendOk(g: Graph, t: Table, key: nat, s: Stat)
    requires TableOk(g, t) && s.sc in g && IsBr(g[s.sc])
    ensures TableOk(g, Append(t, key, s))
  {
    forall k | k in Append(t, key, s) ensures StatsOk(g, Append(t, key, s)[k]) {
      if k == key {
        var b := if key in t then t[key] else [];
        assert Append(t, key, s)[k] == b + [s];
      }
    }
  }

  /** Removes check `id` on branch `sc` with justification `just`. */
  function Reduce(st: Tally, id: nat, sc: NodeId, just: nat, regular: NodeId -> nat): (r: Tally)
    requires WF(st.g) && sc in st.g && IsBr(st.g[sc]) && id !in st.reduced
    ensures Evolves(st, r)
    ensures r.reduced == st.reduced[id := just]
    ensures regular(sc) <= 1 ==> r.g[sc].operands[0].ConstInt?
  {
    var g' := Rewrite.OptimizeCheckAway(st.g, sc, regular(sc));
    Rewrite.OptimizeCheckAwayPreservesWF(st.g, sc, regular(sc));
    MapSumAdd(st.reduced, id, just);
    Tally(g', st.reduced[id := just], st.kept - 1, st.keptWeight - just)
  }

  /** The test asked of check `sc` (the one to be removed) against `other`
      (the UC in phase 1, the table entry in phase 2), each argument in the
      position the source passes it. */
  predicate Holds(test: Test, g: Graph, sc: NodeId, other: NodeId)
    requires WF(g) && sc in g && other in g
  {
    match test
    case Always => true
    case StaticSource => StaticPattern.FindSameSourceS(g, sc, other)
    case IndVarPhi => PhiSlice.FindPhiInstIndVar(g, sc)
    case LeafSets => PhiSlice.LeafSetsMatch(g, other, sc)
  }

  predicate Passes(f: Filter, s: Stat) {
    match f
    case SamePair(a, b) => (s.lb == a && s.rb == b) || (s.lb == b && s.rb == a)
    case ZeroSide => s.lb == 0 || s.rb == 0
    case AnyStat => true
  }

  /** One phase-1 iteration: entry `s` is removed when it passes the filter
      and the test and is not yet removed. */
  function SweepOne(st: Tally, s: Stat, f: Filter, test: Test, uc: NodeId, just: nat,
                    regular: NodeId -> nat): (r: Tally)
    requires WF(st.g) && uc in st.g && s.sc in st.g && IsBr(st.g[s.sc])
    ensures Evolves(st, r)
    ensures r.reduced == if Passes(f, s) && Holds(test, st.g, s.sc, uc) && s.id !in st.reduced
                         then st.reduced[s.id := just] else st.reduced
  {
    if Passes(f, s) && Holds(test, st.g, s.sc, uc) && s.id !in st.reduced
    then Reduce(st, s.id, s.sc, just, regular) else st
  }

  /** One phase-1 loop over a bucket on behalf of the UC on branch `uc`. */
  function Sweep(st: Tally, bucket: seq<Stat>, f: Filter, test: Test, uc: NodeId, just: nat,
                 regular: NodeId -> nat): (r: Tally)
    requires WF(st.g) && uc in st.g && StatsOk(st.g, bucket)
    ensures Evolves(st, r)
    ensures forall k | k in r.reduced && k !in st.reduced ::
              r.reduced[k] == just && exists s | s in bucket :: s.id == k && Passes(f, s)
    ensures test == Always ==> forall s | s in bucket && Passes(f, s) :: s.id in r.reduced
    decreases |bucket|
  {
    if bucket == [] then st
    else
      var st1 := SweepOne(st, bucket[0], f, test, uc, just, regular);
      assert StatsOk(st1.g, bucket[1..]);
      var r := Sweep(st1, bucket[1..], f, test, uc, just, regular);
      EvolvesTrans(st, st1, r);
      r
  }

  /** When a phase-1 removal of check `k` with justification `j` is allowed by
      UC record `u`: an entry of check `k` sits in the bucket the UC selects,
      the exact bucket when its reach count is a key and otherwise the bucket
      of its left count, or else of its right count, and the entry has the
      UC's counts (or, for the induction-variable sweep, any counts), or a zero
      side on the fallback buckets. */
  predicate Phase1Justified(table: Table, u: Record, phiSweep: bool, k: nat, j: nat) {
    if u.count0 in table && u.count0 > 0 then
      j == u.count0 &&
      exists s | s in table[u.count0] :: s.id == k && (phiSweep || Passes(SamePair(u.left, u.right), s))
    else if u.left in table && u.left > 0 then
      j == u.left && exists s | s in table[u.left] :: s.id == k && Passes(ZeroSide, s)
    else if u.right in table && u.right > 0 then
      j == u.right && exists s | s in table[u.right] :: s.id == k && Passes(ZeroSide, s)
    else false
  }

  /** The phase-1 work for a UC whose reach count is a key: the pair sweep,
      then for SafePass above level 0 the induction-variable sweep. */
  function ExactStep(st: Tally, uc: Check, table: Table, test: Test, phiSweep: bool,
                     regular: NodeId -> nat): (r: Tally)
    requires WF(st.g) && uc.node in st.g && TableOk(st.g, table) && uc.rec.count0 in table
    ensures Evolves(st, r)
    ensures forall k | k in r.reduced && k !in st.reduced ::
              r.reduced[k] == uc.rec.count0 &&
              exists s | s in table[uc.rec.count0] :: s.id == k && (phiSweep || Passes(SamePair(uc.rec.left, uc.rec.right), s))
    ensures test == Always ==>
              forall s | s in table[uc.rec.count0] && Passes(SamePair(uc.rec.left, uc.rec.right), s) :: s.id in r.reduced
  {
    var u := uc.rec;
    var st1 := Sweep(st, table[u.count0], SamePair(u.left, u.right), test, uc.node, u.count0, regular);
    if phiSweep then
      KeepsOk(st.g, st1.g, table, []);
      var r := Sweep(st1, table[u.count0], AnyStat, IndVarPhi, uc.node, u.count0, regular);
      EvolvesTrans(st, st1, r);
      r
    else st1
  }

  /** The phase-1 work for one UC. */
  function UcStep(st: Tally, uc: Check, table: Table, test: Test, phiSweep: bool,
                  regular: NodeId -> nat): (r: Tally)
    requires WF(st.g) && uc.node in st.g && TableOk(st.g, table)
    ensures Evolves(st, r)
    ensures forall k | k in r.reduced && k !in st.reduced ::
              Phase1Justified(table, uc.rec, phiSweep, k, r.reduced[k])
    ensures test == Always && uc.rec.count0 in table && uc.rec.count0 > 0 ==>
              forall s | s in table[uc.rec.count0] && Passes(SamePair(uc.rec.left, uc.rec.right), s) ::
                s.id in r.reduced
  {
    var u := uc.rec;
    if u.count0 in table && u.count0 > 0 then
      ExactStep(st, uc, table, test, phiSweep, regular)
    else if u.left in table && u.left > 0 then
      Sweep(st, table[u.left], ZeroSide, test, uc.node, u.left, regular)
    else if u.right in table && u.right > 0 then
      Sweep(st, table[u.right], ZeroSide, test, uc.node, u.right, regular)
    else st
  }

  /** Phase 1 over the UCs in order. */
  function Phase1(st: Tally, ucs: seq<Check>, table: Table, test: Test, phiSweep: bool,
                  regular: NodeId -> nat): (r: Tally)
    requires WF(st.g) && ChecksOk(st.g, ucs) && TableOk(st.g, table)
    ensures Evolves(st, r)
    ensures forall k | k in r.reduced && k !in st.reduced ::
              exists u | u in ucs :: Phase1Justified(table, u.rec, phiSweep, k, r.reduced[k])
    decreases |ucs|
  {
    if ucs == [] then st
    else
      var st1 := UcStep(st, ucs[0], table, test, phiSweep, regular);
      KeepsOk(st.g, st1.g, table, ucs[1..]);
      var r := Phase1(st1, ucs[1..], table, test, phiSweep, regular);
      EvolvesTrans(st, st1, r);
      r
  }

  /** Entry `s` is a phase-2 partner of the current check `cur`: the same left
      count on either side of `cur`, another check unless the survivors are
      searched, and the pass's test. */
  predicate Candidate(g: Graph, s: Stat, cur: Stat, test: Test, against: Against)
    requires WF(g) && s.sc in g && cur.sc in g
  {
    && (cur.lb == s.lb || cur.rb == s.lb)
    && (against == AllOthers ==> s.id != cur.id)
    && Holds(test, g, cur.sc, s.sc)
  }

  datatype ScanResult = ScanResult(t: Tally, matched: bool)

  /** The phase-2 loop over a bucket for the current check `cur`: `matched`
      is `is_reduced`. */
  function Scan(st: Tally, bucket: seq<Stat>, cur: Stat, total: nat, test: Test, against: Against,
                regular: NodeId -> nat): (r: ScanResult)
    requires WF(st.g) && cur.sc in st.g && IsBr(st.g[cur.sc]) && StatsOk(st.g, bucket)
    ensures Evolves(st, r.t)
    ensures r.matched <==> exists s | s in bucket :: Candidate(st.g, s, cur, test, against)
    ensures r.t.reduced == if r.matched && cur.id !in st.reduced then st.reduced[cur.id := total]
                           else st.reduced
    decreases |bucket|
  {
    if bucket == [] then ScanResult(st, false)
    else
      var s := bucket[0];
      if Candidate(st.g, s, cur, test, against) then
        var st1 := if cur.id !in st.reduced then Reduce(st, cur.id, cur.sc, total, regular) else st;
        assert StatsOk(st1.g, bucket[1..]);
        var r := Scan(st1, bucket[1..], cur, total, test, against, regular);
        EvolvesTrans(st, st1, r.t);
        ScanResult(r.t, true)
      else
        Scan(st, bucket[1..], cur, total, test, against, regular)
  }

  /** The phase-2 state: the tally, the survivors table `SC_Pattern_opt`, and
      the count and summed totals of the checks that found no partner and were
      not removed in phase 1 (`test1`, `test2`). */
  datatype Phase2State = Phase2State(t: Tally, opt: Table, unmatched: nat, unmatchedWeight: nat)

  /** The table phase 2 searches for a check. */
  function Searched(p: Phase2State, full: Table, against: Against): Table {
    if against == Survivors then p.opt else full
  }

  /** Some partner of check `sc` exists in the searched bucket of its total. */
  predicate Matched(p: Phase2State, sc: Check, full: Table, test: Test, against: Against)
    requires WF(p.t.g) && sc.node in p.t.g && TableOk(p.t.g, Searched(p, full, against))
  {
    var table := Searched(p, full, against);
    && Total(sc) in table && Total(sc) > 0
    && exists s | s in table[Total(sc)] :: Candidate(p.t.g, s, StatOf(sc), test, against)
  }

  /** The search for a partner of check `sc` in the bucket of its total. */
  function Search(p: Phase2State, sc: Check, full: Table, test: Test, against: Against,
                  regular: NodeId -> nat): (r: ScanResult)
    requires WF(p.t.g) && sc.node in p.t.g && IsBr(p.t.g[sc.node])
    requires TableOk(p.t.g, Searched(p, full, against))
    ensures Evolves(p.t, r.t)
    ensures r.matched == Matched(p, sc, full, test, against)
    ensures r.t.reduced == if r.matched && sc.rec.id !in p.t.reduced
                           then p.t.reduced[sc.rec.id := Total(sc)] else p.t.reduced
  {
    var table := Searched(p, full, against);
    if Total(sc) in table && Total(sc) > 0
    then Scan(p.t, table[Total(sc)], StatOf(sc), Total(sc), test, against, regular)
    else ScanResult(p.t, false)
  }

  /** The phase-2 work for one SC. */
  function ScStep(p: Phase2State, sc: Check, full: Table, test: Test, against: Against,
                  regular: NodeId -> nat): (r: Phase2State)
    requires WF(p.t.g) && sc.node in p.t.g && IsBr(p.t.g[sc.node])
    requires TableOk(p.t.g, full) && TableOk(p.t.g, p.opt)
    ensures Evolves(p.t, r.t)
    ensures r.t.reduced == if Matched(p, sc, full, test, against) && sc.rec.id !in p.t.reduced
                           then p.t.reduced[sc.rec.id := Total(sc)] else p.t.reduced
    ensures r.opt == if against == Survivors && !Matched(p, sc, full, test, against)
                     then Append(p.opt, Total(sc), StatOf(sc)) else p.opt
    ensures var lone := !Matched(p, sc, full, test, against) && sc.rec.id !in p.t.reduced;
            && r.unmatched == p.unmatched + (if lone then 1 else 0)
            && r.unmatchedWeight == p.unmatchedWeight + (if lone then Total(sc) else 0)
    ensures TableOk(r.t.g, full) && TableOk(r.t.g, r.opt)
  {
    var s := Search(p, sc, full, test, against, regular);
    KeepsOk(p.t.g, s.t.g, full, []);
    KeepsOk(p.t.g, s.t.g, p.opt, []);
    var opt := if !s.matched && against == Survivors then
                 AppendOk(s.t.g, p.opt, Total(sc), StatOf(sc));
                 Append(p.opt, Total(sc), StatOf(sc))
               else p.opt;
    var lone := !s.matched && sc.rec.id !in s.t.reduced;
    Phase2State(s.t, opt, p.unmatched + (if lone then 1 else 0),
                p.unmatchedWeight + (if lone then Total(sc) else 0))
  }

  /** A step on one SC removes no other SC, and adds no total but its own
      to the kept table. */
  lemma ScStepSpares(p: Phase2State, sc: Check, c: Check, full: Table, test: Test, against: Against,
                     regular: NodeId -> nat)
    requires WF(p.t.g) && sc.node in p.t.g && IsBr(p.t.g[sc.node])
    requires TableOk(p.t.g, full) && TableOk(p.t.g, p.opt)
    ensures var r := ScStep(p, sc, full, test, against, regular);
            c.rec.id != sc.rec.id && c.rec.id !in p.t.reduced ==> c.rec.id !in r.t.reduced
    ensures var r := ScStep(p, sc, full, test, against, regular);
            Total(c) != Total(sc) && Total(c) !in p.opt ==> Total(c) !in r.opt
  {
  }

  /** Phase 2 over the SCs in order. */
  function Phase2(p: Phase2State, scs: seq<Check>, full: Table, test: Test, against: Against,
                  regular: NodeId -> nat): (r: Phase2State)
    requires WF(p.t.g) && ChecksOk(p.t.g, scs) && TableOk(p.t.g, full) && TableOk(p.t.g, p.opt)
    ensures Evolves(p.t, r.t)
    ensures forall k | k in r.t.reduced && k !in p.t.reduced ::
              exists c | c in scs :: c.rec.id == k && r.t.reduced[k] == Total(c)
    ensures p.unmatched <= r.unmatched <= p.unmatched + |scs|
    decreases |scs|
  {
    if scs == [] then p
    else
      var p1 := ScStep(p, scs[0], full, test, against, regular);
      KeepsOk(p.t.g, p1.t.g, full, scs[1..]);
      var r := Phase2(p1, scs[1..], full, test, against, regular);
      EvolvesTrans(p.t, p1.t, r.t);
      forall k | k in r.t.reduced && k !in p.t.reduced
        ensures exists c | c in scs :: c.rec.id == k && r.t.reduced[k] == Total(c)
      {
        if k in p1.t.reduced {
          assert scs[0] in scs;
        } else {
          var c :| c in scs[1..] && c.rec.id == k && r.t.reduced[k] == Total(c);
          assert c in scs;
        }
      }
      r
  }

  /** Every bucket of `t` is a prefix of the same bucket of `u`. */
  predicate Extends(t: Table, u: Table) {
    forall key | key in t :: key in u && t[key] <= u[key]
  }

  lemma ExtendsTrans(t: Table, u: Table, v: Table)
    requires Extends(t, u) && Extends(u, v)
    ensures Extends(t, v)
  {
    forall key | key in t ensures key in v && t[key] <= v[key] {
      assert u[key] <= v[key];
    }
  }

  /** One phase-2 step leaves the survivors table alone or appends to it. */
  lemma ScStepOptGrows(p: Phase2State, sc: Check, full: Table, test: Test, against: Against,
                       regular: NodeId -> nat)
    requires WF(p.t.g) && sc.node in p.t.g && IsBr(p.t.g[sc.node])
    requires TableOk(p.t.g, full) && TableOk(p.t.g, p.opt)
    ensures Extends(p.opt, ScStep(p, sc, full, test, against, regular).opt)
  {
  }

  /** The survivors table only grows in phase 2, and stays as it was when
      every other check is searched. */
  lemma {:induction false} Phase2OptGrows(p: Phase2State, scs: seq<Check>, full: Table, test: Test,
                                          against: Against, regular: NodeId -> nat)
    requires WF(p.t.g) && ChecksOk(p.t.g, scs) && TableOk(p.t.g, full) && TableOk(p.t.g, p.opt)
    ensures against == AllOthers ==> Phase2(p, scs, full, test, against, regular).opt == p.opt
    ensures Extends(p.opt, Phase2(p, scs, full, test, against, regular).opt)
    decreases |scs|
  {
    if scs != [] {
      var p1 := ScStep(p, scs[0], full, test, against, regular);
      KeepsOk(p.t.g, p1.t.g, full, scs[1..]);
      ScStepOptGrows(p, scs[0], full, test, against, regular);
      Phase2OptGrows(p1, scs[1..], full, test, against, regular);
      ExtendsTrans(p.opt, p1.opt, Phase2(p1, scs[1..], full, test, against, regular).opt);
    }
  }

  /** Phase 2 over a non-empty list is the step for its first SC, then the rest. */
  lemma Phase2Unfold(p: Phase2State, scs: seq<Check>, full: Table, test: Test, against: Against,
                     regular: NodeId -> nat)
    requires WF(p.t.g) && ChecksOk(p.t.g, scs) && TableOk(p.t.g, full) && TableOk(p.t.g, p.opt)
    requires scs != []
    ensures var p1 := ScStep(p, scs[0], full, test, against, regular);
            && WF(p1.t.g) && ChecksOk(p1.t.g, scs[1..]) && TableOk(p1.t.g, full) && TableOk(p1.t.g, p1.opt)
            && Phase2(p, scs, full, test, against, regular) == Phase2(p1, scs[1..], full, test, against, regular)
  {
    var p1 := ScStep(p, scs[0], full, test, against, regular);
    KeepsOk(p.t.g, p1.t.g, full, scs[1..]);
  }

  /** Phase 2 records only ids of the SCs it walks. */
  lemma Phase2NotAdded(p: Phase2State, scs: seq<Check>, full: Table, test: Test, against: Against,
                       regular: NodeId -> nat, k: nat)
    requires WF(p.t.g) && ChecksOk(p.t.g, scs) && TableOk(p.t.g, full) && TableOk(p.t.g, p.opt)
    requires k !in p.t.reduced && forall c | c in scs :: c.rec.id != k
    ensures k !in Phase2(p, scs, full, test, against, regular).t.reduced
  {
  }

  /** What a pass is made of. */
  datatype Config = Config(phase1: Test, phiSweep: bool, phase2: Test, against: Against)

  /** The outcome of a pass: the rewritten program, the removed checks, and
      the counters it reports (`flagSC`, `costflagSC`, `flagUC`, `costflagUC`,
      `flagSC_opt`, `costflagSC_opt`, `flagSC_opts`, `costflagSC_opts`, `test1`,
      `test2`). */
  datatype Report = Report(
    g: Graph, reduced: map<nat, nat>,
    scCount: nat, scWeight: nat, ucCount: nat, ucWeight: nat,
    keptAfterUcs: int, weightAfterUcs: int, keptAfterScs: int, weightAfterScs: int,
    unmatched: nat, unmatchedWeight: nat)

  /** The summed reach counts of the UCs as read (`costflagUC`). */
  function SumReach(ucs: seq<Check>): nat {
    if ucs == [] then 0 else SumReach(ucs[..|ucs| - 1]) + ucs[|ucs| - 1].rec.count0
  }

  /** The program the passes start from: well formed, every check a branch. */
  predicate Ready(g: Graph, scs: seq<Check>, ucs: seq<Check>) {
    WF(g) && ChecksOk(g, scs) && ChecksOk(g, ucs)
  }

  /** `k` was justified with `j` by some SC: one with id `k` and total `j`. */
  predicate ByCheck(scs: seq<Check>, k: nat, j: nat) {
    exists c | c in scs :: c.rec.id == k && Total(c) == j
  }

  lemma IngestOk(g: Graph, scs: seq<Check>)
    requires ChecksOk(g, scs)
    ensures TableOk(g, Ingest(scs))
  {
    IngestIsBucket(scs);
    forall key | key in Ingest(scs) ensures StatsOk(g, Ingest(scs)[key]) {
      BucketMembers(scs, key);
    }
  }

  /** A phase-1 justification names an entry of the table, hence an SC with
      that id whose total is the justifying count. */
  lemma JustifiedByCheck(scs: seq<Check>, u: Record, phiSweep: bool, k: nat, j: nat)
    requires Phase1Justified(Ingest(scs), u, phiSweep, k, j)
    ensures ByCheck(scs, k, j)
  {
    var table := Ingest(scs);
    IngestIsBucket(scs);
    BucketMembers(scs, j);
    var s: Stat :| s in table[j] && s.id == k;
    var i :| 0 <= i < |scs| && Total(scs[i]) == j && StatOf(scs[i]) == s;
    assert scs[i] in scs;
  }

  /** The tally before phase 1: nothing removed, every SC kept. */
  function Start(g: Graph, scs: seq<Check>): (st: Tally)
    ensures st.g == g && st.reduced == map[] && MapSum(st.reduced) == 0
    ensures st.kept == |scs| && st.keptWeight == SumTotals(scs)
  {
    Tally(g, map[], |scs|, SumTotals(scs))
  }

  /** Phase 1 from the start: every record names an SC whose total justified it. */
  function RunPhase1(g: Graph, scs: seq<Check>, ucs: seq<Check>, cfg: Config, regular: NodeId -> nat): (st: Tally)
    requires Ready(g, scs, ucs)
    ensures Evolves(Start(g, scs), st)
    ensures forall k | k in st.reduced :: ByCheck(scs, k, st.reduced[k])
    ensures TableOk(st.g, Ingest(scs)) && ChecksOk(st.g, scs)
  {
    var table := Ingest(scs);
    IngestOk(g, scs);
    var st1 := Phase1(Start(g, scs), ucs, table, cfg.phase1, cfg.phiSweep, regular);
    forall k | k in st1.reduced ensures ByCheck(scs, k, st1.reduced[k]) {
      var u :| u in ucs && Phase1Justified(table, u.rec, cfg.phiSweep, k, st1.reduced[k]);
      JustifiedByCheck(scs, u.rec, cfg.phiSweep, k, st1.reduced[k]);
    }
    KeepsOk(g, st1.g, table, scs);
    st1
  }

  /** After phase 2 from a phase-1 tally whose records all name SCs, every
      record still names an SC whose total justified it. */
  lemma Phase2ByCheck(scs: seq<Check>, st1: Tally, test: Test, against: Against, regular: NodeId -> nat)
    requires WF(st1.g) && ChecksOk(st1.g, scs) && TableOk(st1.g, Ingest(scs))
    requires forall k | k in st1.reduced :: ByCheck(scs, k, st1.reduced[k])
    ensures var p := Phase2(Phase2State(st1, map[], 0, 0), scs, Ingest(scs), test, against, regular);
            && Evolves(st1, p.t)
            && forall k | k in p.t.reduced :: ByCheck(scs, k, p.t.reduced[k])
  {
    var p := Phase2(Phase2State(st1, map[], 0, 0), scs, Ingest(scs), test, against, regular);
    forall k | k in p.t.reduced ensures ByCheck(scs, k, p.t.reduced[k]) {
      if k !in st1.reduced {
        var c :| c in scs && c.rec.id == k && p.t.reduced[k] == Total(c);
      }
    }
  }

  /** The records justified by SCs name SC ids, so there are at most as many
      as there are SCs. */
  lemma KeysAreIds(scs: seq<Check>, m: map<nat, nat>)
    requires forall k | k in m :: ByCheck(scs, k, m[k])
    ensures m.Keys <= Ids(scs) && |m.Keys| <= |scs|
  {
    forall k | k in m ensures k in Ids(scs) {
      var c :| c in scs && c.rec.id == k && Total(c) == m[k];
      var i :| 0 <= i < |scs| && scs[i] == c;
    }
    SubsetCard(m.Keys, Ids(scs));
    IdsCard(scs);
  }

  /** The report once both phases are done; the counters never drop below
      zero, so the source's unsigned counters do not wrap. */
  function Finish(g: Graph, scs: seq<Check>, ucs: seq<Check>, st1: Tally, p: Phase2State): (r: Report)
    requires WF(g) && Evolves(Start(g, scs), st1) && Evolves(st1, p.t)
    requires forall k | k in p.t.reduced :: ByCheck(scs, k, p.t.reduced[k])
    ensures Keeps(g, r.g) && WF(r.g) && r.reduced == p.t.reduced && r.scCount == |scs|
    ensures forall k | k in r.reduced :: ByCheck(scs, k, r.reduced[k])
    ensures r.keptAfterScs == |scs| - |r.reduced.Keys|
    ensures r.weightAfterScs == SumTotals(scs) - MapSum(r.reduced)
    ensures r.keptAfterUcs == |scs| - |st1.reduced.Keys|
    ensures r.weightAfterUcs == SumTotals(scs) - MapSum(st1.reduced)
    ensures st1.reduced.Keys <= r.reduced.Keys
    ensures 0 <= r.keptAfterScs <= r.keptAfterUcs <= |scs|
    ensures r.scWeight == SumTotals(scs) && r.ucCount == |ucs| && r.ucWeight == SumReach(ucs)
  {
    assert |st1.reduced.Keys| <= |p.t.reduced.Keys| by {
      SubsetCard(st1.reduced.Keys, p.t.reduced.Keys);
    }
    KeysAreIds(scs, p.t.reduced);
    Report(p.t.g, p.t.reduced, |scs|, SumTotals(scs), |ucs|, SumReach(ucs),
           st1.kept, st1.keptWeight, p.t.kept, p.t.keptWeight, p.unmatched, p.unmatchedWeight)
  }

  /** Both phases of a pass over the SCs and UCs in enumeration order. */
  function Run(g: Graph, scs: seq<Check>, ucs: seq<Check>, cfg: Config, regular: NodeId -> nat): (r: Report)
    requires Ready(g, scs, ucs)
    ensures Keeps(g, r.g) && WF(r.g) && r.scCount == |scs|
    ensures forall k | k in r.reduced :: ByCheck(scs, k, r.reduced[k])
    ensures r.keptAfterScs == |scs| - |r.reduced.Keys|
    ensures r.weightAfterScs == SumTotals(scs) - MapSum(r.reduced)
    ensures var st1 := RunPhase1(g, scs, ucs, cfg, regular);
            && r.keptAfterUcs == |scs| - |st1.reduced.Keys|
            && r.weightAfterUcs == SumTotals(scs) - MapSum(st1.reduced)
            && st1.reduced.Keys <= r.reduced.Keys
    ensures 0 <= r.keptAfterScs <= r.keptAfterUcs <= |scs|
    ensures r.scWeight == SumTotals(scs) && r.ucCount == |ucs| && r.ucWeight == SumReach(ucs)
    ensures r.unmatched <= |scs|
  {
    var st1 := RunPhase1(g, scs, ucs, cfg, regular);
    Phase2ByCheck(scs, st1, cfg.phase2, cfg.against, regular);
    Finish(g, scs, ucs, st1, Phase2(Phase2State(st1, map[], 0, 0), scs, Ingest(scs), cfg.phase2, cfg.against, regular))
  }
}
