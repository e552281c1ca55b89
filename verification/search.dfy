/** The two searches over the stored postings: the full-text query string the
    crawler hands to the FTS5 index, and the fallback LIKE search. */
module Search {
  import opened Text
  import opened StringOrder
  import opened Listing
  import opened Store

  // ---------------------------------------------------------------------
  // `search_jobs`: only the query sanitisation is modelled.

  predicate IsQuote(c: char) {
    c == '"' || c == '\''
  }

  /** `query.replace('"', '').replace("'", "")`. */
  function RemoveQuotes(q: string): (r: string)
    ensures |r| <= |q|
    ensures forall k :: 0 <= k < |r| ==> !IsQuote(r[k])
    ensures forall c :: !IsQuote(c) ==> multiset(r)[c] == multiset(q)[c]
  {
    if |q| == 0 then ""
    else
      assert q == [q[0]] + q[1..];
      (if IsQuote(q[0]) then "" else [q[0]]) + RemoveQuotes(q[1..])
  }

  /** `r` is `q` with some elements left out, the rest in their order. */
  predicate SubsequenceOf<T(==)>(r: seq<T>, q: seq<T>)
    decreases |q|
  {
    |r| == 0 || (|q| > 0 && (if r[0] == q[0] then SubsequenceOf(r[1..], q[1..]) else SubsequenceOf(r, q[1..])))
  }

  lemma {:induction false} RemoveQuotesKeepsOrder(q: string)
    ensures SubsequenceOf(RemoveQuotes(q), q)
    decreases |q|
  {
    if |q| > 0 {
      RemoveQuotesKeepsOrder(q[1..]);
      var rest := RemoveQuotes(q[1..]);
      if !IsQuote(q[0]) {
        assert RemoveQuotes(q) == [q[0]] + rest;
        assert ([q[0]] + rest)[1..] == rest;
      } else {
        assert RemoveQuotes(q) == rest;
        RestNotQuoteStart(q, rest);
      }
    }
  }

  /** A quote-free text skips the quote at the head of `q`. */
  lemma RestNotQuoteStart(q: string, rest: string)
    requires |q| > 0 && IsQuote(q[0]) && SubsequenceOf(rest, q[1..])
    requires forall k :: 0 <= k < |rest| ==> !IsQuote(rest[k])
    ensures SubsequenceOf(rest, q)
  {
    if |rest| > 0 {
      assert rest[0] != q[0];
    }
  }

  /** The FTS5 MATCH argument of `search_jobs`: the query without quote
      characters, with a trailing `*` that makes its last term a prefix. */
  function FtsQuery(query: string): (r: string)
    ensures |r| > 0 && r[|r| - 1] == '*'
    ensures forall k :: 0 <= k < |r| ==> !IsQuote(r[k])
    ensures SubsequenceOf(r[..|r| - 1], query)
    ensures forall c :: !IsQuote(c) ==> multiset(r)[c] == multiset(query)[c] + (if c == '*' then 1 else 0)
  {
    var body := RemoveQuotes(query);
    RemoveQuotesKeepsOrder(query);
    assert (body + "*")[..|body|] == body;
    body + "*"
  }

  /** A query with no quotes reaches the index unchanged but for the `*`. */
  lemma QuoteFreeQueryKept(query: string)
    requires forall k :: 0 <= k < |query| ==> !IsQuote(query[k])
    ensures FtsQuery(query) == query + "*"
  {
    QuoteFreeUnchanged(query);
  }

  lemma {:induction false} QuoteFreeUnchanged(q: string)
    requires forall k :: 0 <= k < |q| ==> !IsQuote(q[k])
    ensures RemoveQuotes(q) == q
    decreases |q|
  {
    if |q| > 0 {
      QuoteFreeUnchanged(q[1..]);
      assert q == [q[0]] + q[1..];
    }
  }

  // ---------------------------------------------------------------------
  // `search_jobs_simple`: SQLite LIKE.

  /** SQLite's `s LIKE p` with no ESCAPE clause: `%` matches any run of
      characters, `_` any one character, and other characters match
      themselves ignoring ASCII case. */
  predicate Like(p: string, s: string)
    decreases |p| + |s|
  {
    if |p| == 0 then |s| == 0
    else if p[0] == '%' then Like(p[1..], s) || (|s| > 0 && Like(p, s[1..]))
    else |s| > 0 && (p[0] == '_' || ToLower(p[0]) == ToLower(s[0])) && Like(p[1..], s[1..])
  }

  /** A wildcard-free pattern: every character stands for itself. */
  predicate Plain(w: string) {
    forall k :: 0 <= k < |w| ==> w[k] != '%' && w[k] != '_'
  }

  /** Two texts of equal length that agree ignoring ASCII case. */
  predicate FoldedEqual(a: string, b: string) {
    |a| == |b| && Lower(a) == Lower(b)
  }

  /** `w%` matches exactly the texts that begin with `w`, ignoring case. */
  lemma {:induction false} LikeTrailingPercent(w: string, s: string)
    requires Plain(w)
    ensures Like(w + "%", s) <==> |w| <= |s| && FoldedEqual(w, s[..|w|])
    decreases |w|
  {
    if |w| == 0 {
      assert w + "%" == "%";
      LikeAnything(s);
    } else {
      var p := w + "%";
      assert p[0] == w[0] && p[1..] == w[1..] + "%";
      assert w[0] != '%' && w[0] != '_';
      if |s| > 0 {
        LikeTrailingPercent(w[1..], s[1..]);
        if |w| <= |s| {
          FoldedEqualCons(w, s);
        }
      }
    }
  }

  /** Folded equality with a prefix of `s`, one character at a time. */
  lemma FoldedEqualCons(w: string, s: string)
    requires 0 < |w| <= |s|
    ensures FoldedEqual(w, s[..|w|]) <==>
      ToLower(w[0]) == ToLower(s[0]) && FoldedEqual(w[1..], s[1..][..|w| - 1])
  {
    assert Lower(w) == [ToLower(w[0])] + Lower(w[1..]);
    assert s[..|w|][1..] == s[1..][..|w| - 1];
    assert Lower(s[..|w|]) == [ToLower(s[0])] + Lower(s[1..][..|w| - 1]);
  }

  /** `%` alone matches every text. */
  lemma {:induction false} LikeAnything(s: string)
    ensures Like("%", s)
    decreases |s|
  {
    if |s| > 0 {
      LikeAnything(s[1..]);
    }
  }

  /** `%v` matches exactly the texts some suffix of which `v` matches. */
  lemma {:induction false} LikeLeadingPercent(v: string, s: string)
    ensures Like("%" + v, s) <==> exists i :: 0 <= i <= |s| && Like(v, s[i..])
    decreases |s|
  {
    var p := "%" + v;
    assert p[1..] == v;
    assert s[0..] == s;
    if |s| > 0 {
      LikeLeadingPercent(v, s[1..]);
      if exists i :: 0 <= i <= |s| && Like(v, s[i..]) {
        var i :| 0 <= i <= |s| && Like(v, s[i..]);
        if i > 0 {
          assert s[1..][i - 1..] == s[i..];
        }
      }
      if exists i :: 0 <= i <= |s[1..]| && Like(v, s[1..][i..]) {
        var i :| 0 <= i <= |s[1..]| && Like(v, s[1..][i..]);
        assert s[1..][i..] == s[i + 1..];
      }
    }
  }

  /** `%w%` with a wildcard-free `w` is a case-insensitive substring test. */
  lemma LikeIsSubstring(w: string, s: string)
    requires Plain(w)
    ensures Like("%" + w + "%", s) <==> Contains(Lower(s), Lower(w))
  {
    assert "%" + w + "%" == "%" + (w + "%");
    LikeLeadingPercent(w + "%", s);
    if Like("%" + w + "%", s) {
      var i :| 0 <= i <= |s| && Like(w + "%", s[i..]);
      LikeAtIsStart(w, s, i);
    }
    if Contains(Lower(s), Lower(w)) {
      var i: nat :| i + |Lower(w)| <= |Lower(s)| && StartsAt(Lower(s), i, Lower(w));
      LikeAtIsStart(w, s, i);
    }
  }

  /** `w%` matches the text from position `i` on exactly when the lowered `w`
      occurs there in the lowered text. */
  lemma LikeAtIsStart(w: string, s: string, i: nat)
    requires Plain(w) && i <= |s|
    ensures Like(w + "%", s[i..]) <==> StartsAt(Lower(s), i, Lower(w))
  {
    LikeTrailingPercent(w, s[i..]);
    if i + |w| <= |s| {
      assert s[i..][..|w|] == s[i..i + |w|];
      LowerSlice(s, i, i + |w|);
    }
  }

  /** The WHERE clause of `search_jobs_simple` for one row: the lowered title,
      description, keyword tags or location is LIKE `%<lowered query>%`. The
      qualifications are not searched. */
  predicate SimpleMatch(row: Row, query: string) {
    var pattern := "%" + Lower(query) + "%";
    Like(pattern, Lower(row.job.title)) || Like(pattern, Lower(row.job.description))
    || Like(pattern, Lower(row.job.techKeywords)) || Like(pattern, Lower(row.job.location))
  }

  /** The rows of `rows` that match, in their order. */
  function Filter(rows: seq<Row>, query: string): (r: seq<Row>)
    ensures forall row :: row in r <==> row in rows && SimpleMatch(row, query)
    ensures SubsequenceOf(r, rows)
    ensures NewestFirst(rows) ==> NewestFirst(r)
  {
    if |rows| == 0 then []
    else
      var rest := Filter(rows[1..], query);
      assert rows == [rows[0]] + rows[1..];
      if SimpleMatch(rows[0], query) then
        assert ([rows[0]] + rest)[1..] == rest;
        assert NewestFirst(rows) ==> NewestFirst([rows[0]] + rest) by {
          if NewestFirst(rows) {
            forall k | 0 <= k < |rest|
              ensures AtMost(rest[k].job.scrapedAt, rows[0].job.scrapedAt)
            {
              assert rest[k] in rest;
              var b :| 0 <= b < |rows[1..]| && rows[1..][b] == rest[k];
              assert rows[b + 1] == rest[k];
            }
          }
        }
        [rows[0]] + rest
      else
        assert |rest| > 0 ==> rest[0] in rows[1..];
        SkipHead(rest, rows);
        rest
  }

  /** Dropping an element of `q` that is not the head of `r` keeps `r` a
      subsequence. */
  lemma SkipHead<T>(r: seq<T>, q: seq<T>)
    requires |q| > 0 && SubsequenceOf(r, q[1..])
    requires |r| > 0 ==> r[0] != q[0] || SubsequenceOf(r[1..], q[1..])
    ensures SubsequenceOf(r, q)
  {
  }

  /** `search_jobs_simple`: the matching rows, newest scrape first. */
  function SearchJobsSimple(db: Db, query: string): (r: seq<Row>)
    ensures forall row :: row in r <==> row in db.rows && SimpleMatch(row, query)
    ensures NewestFirst(r)
    ensures SubsequenceOf(r, GetAllJobs(db))
  {
    var all := GetAllJobs(db);
    var r := Filter(all, query);
    assert forall row :: row in all <==> row in db.rows by {
      forall row
        ensures row in all <==> row in db.rows
      {
        assert row in all <==> row in multiset(all);
      }
    }
    r
  }

  /** For a query without `%` or `_`, a row is found exactly when the query
      occurs, ignoring case, in its title, description, keyword tags or
      location. */
  lemma SimpleSearchIsSubstring(db: Db, query: string, row: Row)
    requires Plain(query)
    ensures row in SearchJobsSimple(db, query) <==>
      row in db.rows &&
      (Contains(Lower(row.job.title), Lower(query)) || Contains(Lower(row.job.description), Lower(query))
       || Contains(Lower(row.job.techKeywords), Lower(query)) || Contains(Lower(row.job.location), Lower(query)))
  {
    var w := Lower(query);
    assert Plain(w);
    LowerIdempotent(query);
    LikeIsSubstring(w, Lower(row.job.title));
    LikeIsSubstring(w, Lower(row.job.description));
    LikeIsSubstring(w, Lower(row.job.techKeywords));
    LikeIsSubstring(w, Lower(row.job.location));
    LowerIdempotent(row.job.title);
    LowerIdempotent(row.job.description);
    LowerIdempotent(row.job.techKeywords);
    LowerIdempotent(row.job.location);
  }
}
