/** Seeding the table with a fixed list of postings, saving each in turn and
    counting the saves that report success. */
module Seed {
  import opened Listing
  import opened Store

  /** How one call of `save_job` goes: whether the upsert and the index
      insertion succeed. */
  datatype SaveOutcome = SaveOutcome(writeOk: bool, indexOk: bool)

  /** The number of saves among the first `n` whose both writes succeed. */
  function Successes(outcome: nat -> SaveOutcome, n: nat): nat {
    if n == 0 then 0
    else Successes(outcome, n - 1) + if outcome(n - 1).writeOk && outcome(n - 1).indexOk then 1 else 0
  }

  /** The table after saving the first `n` postings, the `k`-th save going
      as `outcome(k)` says. */
  function Seeded(db: Db, jobs: seq<JobListing>, outcome: nat -> SaveOutcome, n: nat): Db
    requires n <= |jobs|
  {
    if n == 0 then db
    else SaveJob(Seeded(db, jobs, outcome, n - 1), jobs[n - 1], outcome(n - 1).writeOk, outcome(n - 1).indexOk).0
  }

  /** Seeding keeps the table's constraints. */
  lemma {:induction false} SeedKeepsValid(db: Db, jobs: seq<JobListing>, outcome: nat -> SaveOutcome, n: nat)
    requires Valid(db) && n <= |jobs|
    ensures Valid(Seeded(db, jobs, outcome, n))
  {
    if n > 0 {
      SeedKeepsValid(db, jobs, outcome, n - 1);
      UpsertKeepsValid(Seeded(db, jobs, outcome, n - 1), jobs[n - 1]);
    }
  }

  /** `seed_mock_data`: saves every posting in order and returns the table and
      the number of saves that reported success. */
  method SeedMockData(db: Db, jobs: seq<JobListing>, outcome: nat -> SaveOutcome)
    returns (result: Db, count: nat)
    ensures result == Seeded(db, jobs, outcome, |jobs|)
    ensures count == Successes(outcome, |jobs|)
    ensures count <= |jobs|
  {
    result := db;
    count := 0;
    var i := 0;
    while i < |jobs|
      invariant 0 <= i <= |jobs|
      invariant result == Seeded(db, jobs, outcome, i)
      invariant count == Successes(outcome, i) <= i
    {
      var step := SaveJob(result, jobs[i], outcome(i).writeOk, outcome(i).indexOk);
      result := step.0;
      if step.1 {
        count := count + 1;
      }
      i := i + 1;
    }
  }

  /** The table holds a row for requisition `reqId`. */
  predicate Holds(db: Db, reqId: string) {
    Find(db.rows, reqId).Some?
  }

  /** Saving never removes a requisition from the table. */
  lemma SaveKeepsHeld(db: Db, job: JobListing, writeOk: bool, indexOk: bool, reqId: string)
    requires Holds(db, reqId)
    ensures Holds(SaveJob(db, job, writeOk, indexOk).0, reqId)
  {
    if writeOk {
      var i := Find(db.rows, reqId).value;
      var r := Upsert(db, job);
      match Find(db.rows, job.reqId)
      case Some(k) =>
        RefreshKeepsBlob(db.rows[k].job, job);
        assert r.rows[i].job.reqId == reqId;
      case None =>
        assert r.rows[i] == db.rows[i];
    }
  }

  /** Saving a posting whose requisition is held adds no row. */
  lemma SaveHeldKeepsCount(db: Db, job: JobListing, writeOk: bool, indexOk: bool)
    requires Holds(db, job.reqId)
    ensures |SaveJob(db, job, writeOk, indexOk).0.rows| == |db.rows|
  {
  }

  /** Seeding keeps every requisition already held, and it holds every seeded
      posting's whose upsert went through. */
  lemma {:induction false} SeedHolds(db: Db, jobs: seq<JobListing>, outcome: nat -> SaveOutcome, n: nat, reqId: string)
    requires n <= |jobs|
    requires Holds(db, reqId)
      || (exists k :: 0 <= k < n && jobs[k].reqId == reqId && outcome(k).writeOk)
    ensures Holds(Seeded(db, jobs, outcome, n), reqId)
  {
    if n > 0 {
      var d := Seeded(db, jobs, outcome, n - 1);
      var o := outcome(n - 1);
      if Holds(db, reqId) || (exists k :: 0 <= k < n - 1 && jobs[k].reqId == reqId && outcome(k).writeOk) {
        SeedHolds(db, jobs, outcome, n - 1, reqId);
        SaveKeepsHeld(d, jobs[n - 1], o.writeOk, o.indexOk, reqId);
      } else {
        assert jobs[n - 1].reqId == reqId && o.writeOk;
        SaveStoresJob(d, jobs[n - 1]);
      }
    }
  }

  /** A successful upsert leaves the posting's requisition held. */
  lemma SaveStoresJob(db: Db, job: JobListing)
    ensures Holds(Upsert(db, job), job.reqId)
  {
    var r := Upsert(db, job);
    match Find(db.rows, job.reqId)
    case Some(k) =>
      RefreshKeepsBlob(db.rows[k].job, job);
      assert r.rows[k].job.reqId == job.reqId;
    case None =>
      assert r.rows[|db.rows|].job.reqId == job.reqId;
  }

  /** Saving postings whose requisitions are all held adds no row. */
  lemma {:induction false} SeedHeldKeepsCount(db: Db, jobs: seq<JobListing>, outcome: nat -> SaveOutcome, n: nat)
    requires n <= |jobs|
    requires forall k :: 0 <= k < n ==> Holds(db, jobs[k].reqId)
    ensures |Seeded(db, jobs, outcome, n).rows| == |db.rows|
  {
    if n > 0 {
      SeedHeldKeepsCount(db, jobs, outcome, n - 1);
      var d := Seeded(db, jobs, outcome, n - 1);
      var o := outcome(n - 1);
      SeedHolds(db, jobs, outcome, n - 1, jobs[n - 1].reqId);
      SaveHeldKeepsCount(d, jobs[n - 1], o.writeOk, o.indexOk);
      assert Seeded(db, jobs, outcome, n) == SaveJob(d, jobs[n - 1], o.writeOk, o.indexOk).0;
    }
  }

  /** Seeding a second time adds no row, provided every upsert of the first
      run went through; however the second run's saves go. */
  lemma SeedTwiceKeepsCount(db: Db, jobs: seq<JobListing>, first: nat -> SaveOutcome, second: nat -> SaveOutcome)
    requires forall k :: 0 <= k < |jobs| ==> first(k).writeOk
    ensures var once := Seeded(db, jobs, first, |jobs|);
      |Seeded(once, jobs, second, |jobs|).rows| == |once.rows|
  {
    var once := Seeded(db, jobs, first, |jobs|);
    forall k | 0 <= k < |jobs|
      ensures Holds(once, jobs[k].reqId)
    {
      SeedHolds(db, jobs, first, |jobs|, jobs[k].reqId);
    }
    SeedHeldKeepsCount(once, jobs, second, |jobs|);
  }

  /** A requisition that no earlier posting carries is not yet in a table
      built only from those postings. */
  lemma NotYetHeld(d: Db, jobs: seq<JobListing>, n: nat)
    requires 0 < n <= |jobs|
    requires forall i, j :: 0 <= i < j < |jobs| ==> jobs[i].reqId != jobs[j].reqId
    requires forall row :: row in d.rows ==> exists k :: 0 <= k < n - 1 && row.job == jobs[k]
    ensures !Holds(d, jobs[n - 1].reqId)
  {
    forall i | 0 <= i < |d.rows|
      ensures d.rows[i].job.reqId != jobs[n - 1].reqId
    {
      assert d.rows[i] in d.rows;
      var k :| 0 <= k < n - 1 && d.rows[i].job == jobs[k];
    }
  }

  /** Saving a posting whose requisition is not held, with the upsert going
      through, appends one row with the next id. */
  lemma SaveAppends(d: Db, job: JobListing, indexOk: bool)
    requires !Holds(d, job.reqId)
    ensures SaveJob(d, job, true, indexOk).0 == Db(d.rows + [Row(d.nextId, job, SearchBlob(job))], d.nextId + 1)
  {
  }

  /** When every save succeeds, the count is the number of saves. */
  lemma {:induction false} AllSucceed(outcome: nat -> SaveOutcome, n: nat)
    requires forall k :: 0 <= k < n ==> outcome(k).writeOk && outcome(k).indexOk
    ensures Successes(outcome, n) == n
  {
    if n > 0 {
      AllSucceed(outcome, n - 1);
    }
  }

  /** Into an empty table, postings with distinct requisitions whose saves all
      succeed give one row each, and the count says so. */
  lemma {:induction false} SeedFreshTable(jobs: seq<JobListing>, outcome: nat -> SaveOutcome, n: nat)
    requires n <= |jobs|
    requires forall i, j :: 0 <= i < j < |jobs| ==> jobs[i].reqId != jobs[j].reqId
    requires forall k :: 0 <= k < |jobs| ==> outcome(k).writeOk && outcome(k).indexOk
    ensures Successes(outcome, n) == n
    ensures |Seeded(Empty, jobs, outcome, n).rows| == n
    ensures forall row :: row in Seeded(Empty, jobs, outcome, n).rows ==>
      exists k :: 0 <= k < n && row.job == jobs[k]
  {
    AllSucceed(outcome, n);
    if n > 0 {
      SeedFreshTable(jobs, outcome, n - 1);
      var d := Seeded(Empty, jobs, outcome, n - 1);
      var job := jobs[n - 1];
      NotYetHeld(d, jobs, n);
      SaveAppends(d, job, outcome(n - 1).indexOk);
      var r := d.rows + [Row(d.nextId, job, SearchBlob(job))];
      assert Seeded(Empty, jobs, outcome, n).rows == r;
      forall row | row in r
        ensures exists k :: 0 <= k < n && row.job == jobs[k]
      {
        if row !in d.rows {
          assert row.job == jobs[n - 1];
        }
      }
    }
  }
}
