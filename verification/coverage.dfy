/** Coverage records and the pattern table the coverage-driven passes build.

    Every check has a record of three counts: how often it was reached, and how
    often it took its left and its right successor. On ingestion a sanitizer
    check's reach count is overwritten with left + right, and the check's entry
    (`stat`: id, left, right, branch) is appended to the table bucket keyed by
    that total. `Ingest` is that loop; `Bucket` is the bucket read off the
    checks directly, and `IngestIsBucket` shows that the two agree.

    Counts are unsigned 64-bit in the source; here they are unbounded.
 */
module Coverage {
  import opened Graph

  /** A record as read: the check id and its counts (reach, left, right). */
  datatype Record = Record(id: nat, count0: nat, left: nat, right: nat)

  /** A check in enumeration order: its branch and its record. */
  datatype Check = Check(node: NodeId, rec: Record)

  /** A table entry: the check id, its left and right counts, and its branch. */
  datatype Stat = Stat(id: nat, lb: nat, rb: nat, sc: NodeId)

  type Table = map<nat, seq<Stat>>

  /** The recomputed reach count of a sanitizer check. */
  function Total(c: Check): nat {
    c.rec.left + c.rec.right
  }

  function StatOf(c: Check): Stat {
    Stat(c.rec.id, c.rec.left, c.rec.right, c.node)
  }

  /** `SC_Pattern[key].push_back(s)`. */
  function Append(t: Table, key: nat, s: Stat): (r: Table)
    ensures r.Keys == t.Keys + {key}
    ensures r[key] == (if key in t then t[key] else []) + [s]
    ensures forall k | k in t && k != key :: r[k] == t[k]
  {
    t[key := (if key in t then t[key] else []) + [s]]
  }

  /** The ingestion loop over the sanitizer checks in enumeration order. */
  function Ingest(scs: seq<Check>): Table
  {
    if scs == [] then map[]
    else
      var last := scs[|scs| - 1];
      Append(Ingest(scs[..|scs| - 1]), Total(last), StatOf(last))
  }

  /** The entries of the checks whose total is `key`, in enumeration order. */
  function Bucket(scs: seq<Check>, key: nat): seq<Stat>
  {
    if scs == [] then []
    else (if Total(scs[0]) == key then [StatOf(scs[0])] else []) + Bucket(scs[1..], key)
  }

  /** The totals that occur. */
  function Totals(scs: seq<Check>): set<nat> {
    set i | 0 <= i < |scs| :: Total(scs[i])
  }

  /** The ids that occur. */
  function Ids(scs: seq<Check>): set<nat> {
    set i | 0 <= i < |scs| :: scs[i].rec.id
  }

  /** The summed totals (`costflagSC`). */
  function SumTotals(scs: seq<Check>): nat {
    if scs == [] then 0 else SumTotals(scs[..|scs| - 1]) + Total(scs[|scs| - 1])
  }

  lemma {:induction false} BucketSnoc(scs: seq<Check>, c: Check, key: nat)
    ensures Bucket(scs + [c], key) == Bucket(scs, key) + (if Total(c) == key then [StatOf(c)] else [])
  {
    if scs != [] {
      assert (scs + [c])[1..] == scs[1..] + [c];
      BucketSnoc(scs[1..], c, key);
    } else {
      assert scs + [c] == [c];
    }
  }

  /** The table holds a bucket for exactly the totals that occur, and each
      bucket lists the entries of the checks with that total in enumeration
      order. */
  lemma {:induction false} IngestIsBucket(scs: seq<Check>)
    ensures Ingest(scs).Keys == Totals(scs)
    ensures forall key | key in Ingest(scs) :: Ingest(scs)[key] == Bucket(scs, key)
  {
    if scs != [] {
      var init := scs[..|scs| - 1];
      var last := scs[|scs| - 1];
      assert scs == init + [last];
      IngestIsBucket(init);
      forall key ensures Bucket(scs, key) == Bucket(init, key) + (if Total(last) == key then [StatOf(last)] else []) {
        BucketSnoc(init, last, key);
      }
      forall key | key !in Ingest(init) ensures Bucket(init, key) == [] {
        BucketEmpty(init, key);
      }
      assert Totals(scs) == Totals(init) + {Total(last)} by {
        forall k | k in Totals(scs) ensures k in Totals(init) + {Total(last)} {
          var i :| 0 <= i < |scs| && Total(scs[i]) == k;
          if i < |init| {
            assert scs[i] == init[i];
          }
        }
        forall k | k in Totals(init) ensures k in Totals(scs) {
          var i :| 0 <= i < |init| && Total(init[i]) == k;
          assert scs[i] == init[i];
        }
      }
    }
  }

  /** A total that does not occur has an empty bucket. */
  lemma {:induction false} BucketEmpty(scs: seq<Check>, key: nat)
    requires key !in Totals(scs)
    ensures Bucket(scs, key) == []
  {
    if scs != [] {
      assert Totals(scs[1..]) <= Totals(scs) by {
        forall k | k in Totals(scs[1..]) ensures k in Totals(scs) {
          var i :| 0 <= i < |scs[1..]| && Total(scs[1..][i]) == k;
          assert scs[i + 1] == scs[1..][i];
        }
      }
      assert Total(scs[0]) in Totals(scs);
      BucketEmpty(scs[1..], key);
    }
  }

  /** Every entry of a bucket is the entry of some check with that total. */
  lemma {:induction false} BucketMembers(scs: seq<Check>, key: nat)
    ensures forall s | s in Bucket(scs, key) ::
              exists i :: 0 <= i < |scs| && Total(scs[i]) == key && StatOf(scs[i]) == s
  {
    if scs != [] {
      BucketMembers(scs[1..], key);
      forall s | s in Bucket(scs, key)
        ensures exists i :: 0 <= i < |scs| && Total(scs[i]) == key && StatOf(scs[i]) == s
      {
        if !(Total(scs[0]) == key && s == StatOf(scs[0])) {
          assert s in Bucket(scs[1..], key);
          var i :| 0 <= i < |scs[1..]| && Total(scs[1..][i]) == key && StatOf(scs[1..][i]) == s;
          assert scs[i + 1] == scs[1..][i];
        }
      }
    }
  }

  /** No two checks share an id. */
  predicate Distinct(scs: seq<Check>) {
    forall i, j | 0 <= i < j < |scs| :: scs[i].rec.id != scs[j].rec.id
  }

  lemma {:induction false} IdsCard(scs: seq<Check>)
    ensures |Ids(scs)| <= |scs|
  {
    if scs != [] {
      var init := scs[..|scs| - 1];
      IdsCard(init);
      assert Ids(scs) <= Ids(init) + {scs[|scs| - 1].rec.id} by {
        forall k | k in Ids(scs) ensures k in Ids(init) + {scs[|scs| - 1].rec.id} {
          var i :| 0 <= i < |scs| && scs[i].rec.id == k;
          if i < |init| {
            assert init[i] == scs[i];
          }
        }
      }
      SubsetCard(Ids(scs), Ids(init) + {scs[|scs| - 1].rec.id});
    }
  }

  /** Every check with total `key` has its entry in the bucket of `key`. */
  lemma {:induction false} BucketContains(scs: seq<Check>, key: nat, i: nat)
    requires i < |scs| && Total(scs[i]) == key
    ensures StatOf(scs[i]) in Bucket(scs, key)
  {
    if i > 0 {
      BucketContains(scs[1..], key, i - 1);
      assert scs[1..][i - 1] == scs[i];
    }
  }

  lemma DistinctTail(scs: seq<Check>)
    requires Distinct(scs) && scs != []
    ensures Distinct(scs[1..])
  {
    forall i, j | 0 <= i < j < |scs[1..]| ensures scs[1..][i].rec.id != scs[1..][j].rec.id {
      assert scs[1..][i] == scs[i + 1] && scs[1..][j] == scs[j + 1];
    }
  }

  /** The next check's id is not among the ids walked so far. */
  lemma NextIsNew(done: seq<Check>, rest: seq<Check>)
    requires Distinct(done + rest) && rest != []
    ensures rest[0].rec.id !in Ids(done)
    ensures (done + [rest[0]]) + rest[1..] == done + rest
  {
    var all := done + rest;
    assert rest[0] == all[|done|];
    forall i | 0 <= i < |done| ensures done[i].rec.id != rest[0].rec.id {
      assert all[i] == done[i];
    }
  }
}
