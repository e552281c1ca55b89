/** The `jobs` table as the crawler uses it: one row per requisition ID, an
    upsert that refreshes a posting without touching its classification, and
    the newest-first listing. Rows are kept in rowid order. */
module Store {
  import opened Wrappers
  import opened StringOrder
  import opened Listing

  /** A stored row: the auto-increment id, the posting's columns and the
      combined text used for searching. */
  datatype Row = Row(id: nat, job: JobListing, searchBlob: string)

  /** The table: its rows in rowid order and the next id AUTOINCREMENT hands out. */
  datatype Db = Db(rows: seq<Row>, nextId: nat)

  /** A table with no rows; AUTOINCREMENT starts at 1. */
  const Empty: Db := Db([], 1)

  /** The search text of a posting: title, description, qualifications,
      keyword tags and location, separated by single spaces. */
  function SearchBlob(job: JobListing): (b: string)
    ensures |b| == |job.title| + |job.description| + |job.qualifications|
      + |job.techKeywords| + |job.location| + 4
    ensures b[..|job.title|] == job.title
    ensures var o := |job.title|;
      b[o] == ' ' && b[o + 1..o + 1 + |job.description|] == job.description
    ensures var o := |job.title| + 1 + |job.description|;
      b[o] == ' ' && b[o + 1..o + 1 + |job.qualifications|] == job.qualifications
    ensures var o := |job.title| + |job.description| + |job.qualifications| + 2;
      b[o] == ' ' && b[o + 1..o + 1 + |job.techKeywords|] == job.techKeywords
    ensures var o := |b| - |job.location| - 1;
      b[o] == ' ' && b[o + 1..] == job.location
  {
    job.title + " " + job.description + " " + job.qualifications + " " + job.techKeywords + " " + job.location
  }

  /** The table's constraints: `req_id` is UNIQUE, ids are strictly increasing
      and below the next id, and every search text matches its row. */
  predicate Valid(db: Db) {
    && (forall i, j :: 0 <= i < j < |db.rows| ==>
          db.rows[i].job.reqId != db.rows[j].job.reqId && db.rows[i].id < db.rows[j].id)
    && (forall i :: 0 <= i < |db.rows| ==>
          db.rows[i].id < db.nextId && db.rows[i].searchBlob == SearchBlob(db.rows[i].job))
  }

  /** The first position from `k` on of a row holding requisition `reqId`. */
  function FindFrom(rows: seq<Row>, reqId: string, k: nat): (r: Option<nat>)
    decreases |rows| - k
    ensures r.Some? ==> k <= r.value < |rows| && rows[r.value].job.reqId == reqId
    ensures r.None? ==> forall i :: k <= i < |rows| ==> rows[i].job.reqId != reqId
  {
    if k >= |rows| then None
    else if rows[k].job.reqId == reqId then Some(k)
    else FindFrom(rows, reqId, k + 1)
  }

  /** The position of the row holding requisition `reqId`, if there is one. */
  function Find(rows: seq<Row>, reqId: string): (r: Option<nat>)
    ensures r.Some? ==> r.value < |rows| && rows[r.value].job.reqId == reqId
    ensures r.None? ==> forall i :: 0 <= i < |rows| ==> rows[i].job.reqId != reqId
  {
    FindFrom(rows, reqId, 0)
  }

  /** The ON CONFLICT(req_id) DO UPDATE clause: the new title, location, pay
      range, description, qualifications, scrape time and keyword tags; the
      stored requisition ID, category, position type, deadline and URL stay. */
  function Refresh(stored: JobListing, incoming: JobListing): JobListing {
    stored.(title := incoming.title, location := incoming.location, payRange := incoming.payRange,
            description := incoming.description, qualifications := incoming.qualifications,
            scrapedAt := incoming.scrapedAt, techKeywords := incoming.techKeywords)
  }

  /** The updated columns are the ones the search text is made of, so a
      refreshed row's search text is the new posting's. */
  lemma RefreshKeepsBlob(stored: JobListing, incoming: JobListing)
    ensures SearchBlob(Refresh(stored, incoming)) == SearchBlob(incoming)
    ensures Refresh(stored, incoming).reqId == stored.reqId
  {
  }

  /** The INSERT ... ON CONFLICT statement of `save_job`. */
  function Upsert(db: Db, job: JobListing): Db {
    match Find(db.rows, job.reqId)
    case Some(i) =>
      db.(rows := db.rows[i := Row(db.rows[i].id, Refresh(db.rows[i].job, job), SearchBlob(job))])
    case None =>
      Db(db.rows + [Row(db.nextId, job, SearchBlob(job))], db.nextId + 1)
  }

  /** The upsert keeps the table's constraints, and it adds a row exactly
      when the requisition was not yet stored. */
  lemma UpsertKeepsValid(db: Db, job: JobListing)
    requires Valid(db)
    ensures Valid(Upsert(db, job))
    ensures Find(db.rows, job.reqId).Some? ==>
      |Upsert(db, job).rows| == |db.rows| && Upsert(db, job).nextId == db.nextId
    ensures Find(db.rows, job.reqId).None? ==>
      |Upsert(db, job).rows| == |db.rows| + 1 && Upsert(db, job).nextId == db.nextId + 1
  {
    match Find(db.rows, job.reqId)
    case Some(i) =>
      UpdateKeepsValid(db, i, job);
    case None =>
      AppendKeepsValid(db, job);
  }

  /** Refreshing the row that holds the posting's requisition keeps the
      constraints. */
  lemma UpdateKeepsValid(db: Db, i: nat, job: JobListing)
    requires Valid(db) && i < |db.rows| && db.rows[i].job.reqId == job.reqId
    ensures Valid(db.(rows := db.rows[i := Row(db.rows[i].id, Refresh(db.rows[i].job, job), SearchBlob(job))]))
  {
    RefreshKeepsBlob(db.rows[i].job, job);
  }

  /** Appending a row for a requisition not yet held, with the next id, keeps
      the constraints. */
  lemma AppendKeepsValid(db: Db, job: JobListing)
    requires Valid(db)
    requires forall i :: 0 <= i < |db.rows| ==> db.rows[i].job.reqId != job.reqId
    ensures Valid(Db(db.rows + [Row(db.nextId, job, SearchBlob(job))], db.nextId + 1))
  {
  }

  /** After the upsert exactly one row holds the requisition; its updated
      columns are the new posting's and its other columns are the stored row's
      (or the new posting's when there was none). A refreshed row keeps its
      id, and a new row gets the next one. */
  lemma UpsertStoresJob(db: Db, job: JobListing)
    requires Valid(db)
    ensures var r := Upsert(db, job);
      var i := Find(r.rows, job.reqId);
      && i.Some?
      && (forall j :: 0 <= j < |r.rows| && r.rows[j].job.reqId == job.reqId ==> j == i.value)
      && r.rows[i.value].job == (match Find(db.rows, job.reqId)
           case Some(k) => Refresh(db.rows[k].job, job)
           case None => job)
      && r.rows[i.value].searchBlob == SearchBlob(job)
      && r.rows[i.value].id == (match Find(db.rows, job.reqId)
           case Some(k) => db.rows[k].id
           case None => db.nextId)
  {
    var r := Upsert(db, job);
    match Find(db.rows, job.reqId)
    case Some(k) =>
      assert r.rows[k].job.reqId == job.reqId;
      var i := Find(r.rows, job.reqId).value;
      assert i == k;
    case None =>
      var n := |db.rows|;
      assert r.rows[n].job.reqId == job.reqId;
      var i := Find(r.rows, job.reqId).value;
      assert i == n;
  }

  /** The upsert leaves every row of another requisition as it was, and adds
      no row except the one for the new posting. */
  lemma UpsertKeepsOthers(db: Db, job: JobListing)
    requires Valid(db)
    ensures forall row :: row in db.rows && row.job.reqId != job.reqId ==> row in Upsert(db, job).rows
    ensures forall row :: row in Upsert(db, job).rows && row.job.reqId != job.reqId ==> row in db.rows
  {
    match Find(db.rows, job.reqId)
    case Some(k) =>
      RefreshKeepsBlob(db.rows[k].job, job);
      ReplaceKeepsOthers(db.rows, k, Row(db.rows[k].id, Refresh(db.rows[k].job, job), SearchBlob(job)), job.reqId);
    case None =>
  }

  /** Replacing the row at `k` by one of the same requisition leaves the rows
      of every other requisition. */
  lemma ReplaceKeepsOthers(rows: seq<Row>, k: nat, replacement: Row, reqId: string)
    requires k < |rows| && rows[k].job.reqId == reqId && replacement.job.reqId == reqId
    ensures forall row :: row in rows && row.job.reqId != reqId ==> row in rows[k := replacement]
    ensures forall row :: row in rows[k := replacement] && row.job.reqId != reqId ==> row in rows
  {
    var r := rows[k := replacement];
    forall row | row in rows && row.job.reqId != reqId
      ensures row in r
    {
      var j :| 0 <= j < |rows| && rows[j] == row;
      assert r[j] == row;
    }
    forall row | row in r && row.job.reqId != reqId
      ensures row in rows
    {
      var j :| 0 <= j < |r| && r[j] == row;
      assert rows[j] == row;
    }
  }

  /** Saving the same posting twice in a row changes nothing the second time. */
  lemma UpsertIdempotent(db: Db, job: JobListing)
    requires Valid(db)
    ensures Upsert(Upsert(db, job), job) == Upsert(db, job)
  {
    var r := Upsert(db, job);
    UpsertStoresJob(db, job);
    var i := Find(r.rows, job.reqId).value;
    assert Refresh(r.rows[i].job, job) == r.rows[i].job;
    assert r.rows[i := Row(r.rows[i].id, r.rows[i].job, SearchBlob(job))] == r.rows;
  }

  /** The row holds the posting's requisition, and the columns the upsert
      writes (title, location, pay range, description, qualifications, scrape
      time, keyword tags and search text) are the posting's. */
  predicate Carries(row: Row, job: JobListing) {
    && row.job.reqId == job.reqId
    && row.job.title == job.title && row.job.location == job.location
    && row.job.payRange == job.payRange && row.job.description == job.description
    && row.job.qualifications == job.qualifications && row.job.scrapedAt == job.scrapedAt
    && row.job.techKeywords == job.techKeywords && row.searchBlob == SearchBlob(job)
  }

  /** The table holds a row for the posting's requisition carrying the
      columns the upsert writes. */
  predicate Stored(db: Db, job: JobListing) {
    Find(db.rows, job.reqId).Some? && Carries(db.rows[Find(db.rows, job.reqId).value], job)
  }

  /** `save_job`, with the table as the crawler's connection sees it. The
      upsert statement and the full-text index insertion run one after the
      other, each followed by a commit: `writeOk` says whether the upsert is
      in effect on the connection afterwards, `indexOk` whether the first
      commit, the index insertion and the second commit all went through. A
      failed statement changes nothing. A commit that fails with SQLITE_BUSY
      leaves the transaction open, so the upsert stays in effect; a failure
      that rolls the transaction back is the `writeOk = false` outcome.
      Returns the table afterwards and the reported result. */
  function SaveJob(db: Db, job: JobListing, writeOk: bool, indexOk: bool): (r: (Db, bool))
    ensures r.1 <==> writeOk && indexOk
    ensures !writeOk ==> r.0 == db
    ensures writeOk ==> r.0 == Upsert(db, job)
  {
    if !writeOk then (db, false) else (Upsert(db, job), indexOk)
  }

  /** What `save_job` does to a table that keeps its constraints: they still
      hold; a reported success means the posting is stored, and a reported
      failure means the table is unchanged or the posting is stored; a row is
      added only for a new requisition; rows of other requisitions stay. */
  lemma SaveJobEffect(db: Db, job: JobListing, writeOk: bool, indexOk: bool)
    requires Valid(db)
    ensures var (after, ok) := SaveJob(db, job, writeOk, indexOk);
      && Valid(after)
      && (ok ==> Stored(after, job))
      && (!ok ==> after == db || Stored(after, job))
      && (writeOk ==> Stored(after, job))
      && (!writeOk ==> after == db)
      && |after.rows| == |db.rows| + (if writeOk && Find(db.rows, job.reqId).None? then 1 else 0)
      && (forall row :: row in db.rows && row.job.reqId != job.reqId ==> row in after.rows)
      && (forall row :: row in after.rows && row.job.reqId != job.reqId ==> row in db.rows)
  {
    if writeOk {
      UpsertKeepsValid(db, job);
      UpsertStoresJob(db, job);
      UpsertKeepsOthers(db, job);
    }
  }

  /** A reported failure does not mean the table is unchanged: when the
      upsert stays in effect but a later step fails, the posting is stored all
      the same. */
  lemma FailureAfterCommit(db: Db, job: JobListing)
    requires Valid(db)
    ensures var (after, ok) := SaveJob(db, job, true, false);
      !ok && Stored(after, job)
  {
    SaveJobEffect(db, job, true, false);
  }

  // ---------------------------------------------------------------------
  // `get_all_jobs`: every row, newest scrape first.

  /** The rows are ordered by `scraped_at`, newest (greatest) first. */
  predicate NewestFirst(rows: seq<Row>) {
    forall i, j :: 0 <= i < j < |rows| ==> AtMost(rows[j].job.scrapedAt, rows[i].job.scrapedAt)
  }

  /** Puts `x` into a newest-first list before the first row that is not newer. */
  function InsertNewest(x: Row, rows: seq<Row>): seq<Row> {
    if |rows| == 0 then [x]
    else if AtMost(rows[0].job.scrapedAt, x.job.scrapedAt) then [x] + rows
    else [rows[0]] + InsertNewest(x, rows[1..])
  }

  /** Every row of a newest-first list is no newer than its head. */
  lemma HeadIsNewest(rows: seq<Row>, y: Row)
    requires NewestFirst(rows) && |rows| > 0 && y in multiset(rows)
    ensures AtMost(y.job.scrapedAt, rows[0].job.scrapedAt)
  {
    var j :| 0 <= j < |rows| && rows[j] == y;
    if j == 0 {
    }
  }

  /** A row no older than every row of a newest-first list can go in front. */
  lemma ConsNewest(x: Row, rows: seq<Row>)
    requires NewestFirst(rows)
    requires forall k :: 0 <= k < |rows| ==> AtMost(rows[k].job.scrapedAt, x.job.scrapedAt)
    ensures NewestFirst([x] + rows)
  {
    var r := [x] + rows;
    forall i, j | 0 <= i < j < |r|
      ensures AtMost(r[j].job.scrapedAt, r[i].job.scrapedAt)
    {
      assert r[j] == rows[j - 1];
      if i > 0 {
        assert r[i] == rows[i - 1];
      }
    }
  }

  /** Insertion keeps the list newest first and adds exactly `x`. */
  lemma {:induction false} InsertNewestSorted(x: Row, rows: seq<Row>)
    requires NewestFirst(rows)
    ensures NewestFirst(InsertNewest(x, rows))
    ensures multiset(InsertNewest(x, rows)) == multiset(rows) + multiset{x}
    decreases |rows|
  {
    if |rows| > 0 {
      var head := rows[0];
      assert rows == [head] + rows[1..];
      if AtMost(head.job.scrapedAt, x.job.scrapedAt) {
        forall j | 0 <= j < |rows|
          ensures AtMost(rows[j].job.scrapedAt, x.job.scrapedAt)
        {
          AtMostTransitive(rows[j].job.scrapedAt, head.job.scrapedAt, x.job.scrapedAt);
        }
        ConsNewest(x, rows);
      } else {
        LessTotal(head.job.scrapedAt, x.job.scrapedAt);
        var rest := InsertNewest(x, rows[1..]);
        InsertNewestSorted(x, rows[1..]);
        forall k | 0 <= k < |rest|
          ensures AtMost(rest[k].job.scrapedAt, head.job.scrapedAt)
        {
          assert rest[k] in multiset(rest);
          if rest[k] != x {
            HeadIsNewest(rows, rest[k]);
          }
        }
        ConsNewest(head, rest);
        assert InsertNewest(x, rows) == [head] + rest;
      }
    }
  }

  /** The rows reordered newest first. */
  function SortNewest(rows: seq<Row>): seq<Row> {
    if |rows| == 0 then [] else InsertNewest(rows[0], SortNewest(rows[1..]))
  }

  lemma {:induction false} SortNewestSorted(rows: seq<Row>)
    ensures NewestFirst(SortNewest(rows))
    ensures multiset(SortNewest(rows)) == multiset(rows)
    decreases |rows|
  {
    if |rows| > 0 {
      SortNewestSorted(rows[1..]);
      InsertNewestSorted(rows[0], SortNewest(rows[1..]));
      assert rows == [rows[0]] + rows[1..];
    }
  }

  /** `get_all_jobs`: every row exactly once, newest scrape first. The order
      of rows scraped at the same instant is not specified by the query; this
      model keeps them in rowid order. */
  function GetAllJobs(db: Db): (r: seq<Row>)
    ensures NewestFirst(r)
    ensures multiset(r) == multiset(db.rows)
  {
    SortNewestSorted(db.rows);
    SortNewest(db.rows)
  }
}
