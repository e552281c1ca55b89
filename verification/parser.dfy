/** Page parsing: the string logic that turns the text of the elements found on
    one posting page (plus the raw markup, its URL and the clock) into a
    posting record. Finding the elements in the HTML is not modelled; what the
    lookups found arrives as `PageLookups`. */
module PageParser {
  import opened Wrappers
  import opened Text
  import opened StringOrder
  import opened Keywords
  import opened Listing

  /** The text of the elements the page lookups found, `None` where nothing
      was found. */
  datatype PageLookups = PageLookups(
    heading: Option<string>,      // the first <h1>
    requisition: Option<string>,  // <span class="job-id">, else the first text mentioning "Requisition ID"
    salary: Option<string>,       // <span class="job-salary">, else the first text mentioning "Pay range"
    location: Option<string>,     // <span class="job-location">
    description: Option<string>)  // <div class="ats-description">, else <div class="job-description">

  const UnknownTitle: string := "Unknown Position"
  const DefaultLocation: string := "Multiple Locations"
  const PayNotSpecified: string := "Not Specified"
  const EngineeringCategory: string := "Engineering & Software Development"
  const RegularPosition: string := "Regular"
  const UnknownPrefix: string := "UNKNOWN-"
  const PayLabel: string := "Pay range"
  const DescriptionCap: nat := 2000
  const QualificationsCap: nat := 1000

  /** The stripped text of an element, or `default` when it was not found. */
  function StrippedOr(e: Option<string>, default: string): string {
    match e
    case Some(s) => Strip(s)
    case None => default
  }

  // ---------------------------------------------------------------------
  // Requisition ID: the first match of `(\d{4}-\d+)`.

  /** `\d{4}-\d` matches at position `i`; the `\d+` then runs on greedily. */
  predicate ReqIdAt(t: string, i: nat) {
    i + 6 <= |t|
    && IsDigit(t[i]) && IsDigit(t[i + 1]) && IsDigit(t[i + 2]) && IsDigit(t[i + 3])
    && t[i + 4] == '-' && IsDigit(t[i + 5])
  }

  /** Four digits, a dash and one or more digits. */
  predicate IsReqId(s: string) {
    |s| >= 6 && AllDigits(s[..4]) && s[4] == '-' && AllDigits(s[5..])
  }

  /** The match that starts at `i`: `\d{4}-` and the whole digit run after
      the dash. */
  function IdAt(t: string, i: nat): (id: string)
    requires ReqIdAt(t, i)
    ensures IsReqId(id) && StartsAt(t, i, id)
    ensures i + |id| == |t| || !IsDigit(t[i + |id|])
  {
    var n := SpanFrom(t, i + 5, IsDigit);
    var id := t[i..i + 5 + n];
    assert id[..4] == t[i..i + 4];
    assert forall k :: 5 <= k < |id| ==> id[k] == t[i + k];
    id
  }

  /** The requisition ID written in `t`: the leftmost match, with its digit
      run after the dash taken as far as it goes. */
  function FindReqId(t: string): (r: Option<string>)
    ensures r.Some? <==> exists i: nat :: ReqIdAt(t, i)
    ensures r.Some? ==> IsReqId(r.value)
    ensures r.Some? ==>
      exists i: nat :: ReqIdAt(t, i) && StartsAt(t, i, r.value)
        && (forall j: nat :: j < i ==> !ReqIdAt(t, j))
        && (i + |r.value| == |t| || !IsDigit(t[i + |r.value|]))
  {
    var P := (i: nat) => ReqIdAt(t, i);
    assert forall i: nat :: P(i) == ReqIdAt(t, i);
    match FirstFrom(0, |t|, P)
    case None => None
    case Some(i) => Some(IdAt(t, i))
  }

  /** `req_id`: the ID found in the requisition element's text, else
      "UNKNOWN-" followed by the clock's whole seconds. */
  function RequisitionId(text: Option<string>, unixTime: nat): (r: string)
    ensures |r| > 0
    ensures IsReqId(r) <==> text.Some? && FindReqId(text.value).Some?
    ensures IsReqId(r) ==> r == FindReqId(text.value).value
    ensures !IsReqId(r) ==> r == UnknownPrefix + NatToString(unixTime)
  {
    var unknown := UnknownPrefix + NatToString(unixTime);
    assert !IsDigit(unknown[0]) && unknown[..4][0] == unknown[0];
    match text
    case None => unknown
    case Some(t) => FindReqId(t).GetOr(unknown)
  }

  // ---------------------------------------------------------------------
  // Pay range: `re.sub(r'Pay range\s*', '', text).strip()`.

  /** Deletes, scanning left to right, every "Pay range" together with the
      whitespace that follows it. */
  function RemovePayLabel(s: string): (r: string)
    decreases |s|
    ensures |r| <= |s|
    ensures (forall i: nat :: !StartsAt(s, i, PayLabel)) ==> r == s
  {
    if |s| == 0 then ""
    else if StartsAt(s, 0, PayLabel) then
      RemovePayLabel(s[9 + SpanFrom(s, 9, IsSpace)..])
    else
      assert forall i: nat :: StartsAt(s[1..], i, PayLabel) ==> StartsAt(s, i + 1, PayLabel) by {
        forall i: nat | StartsAt(s[1..], i, PayLabel)
          ensures StartsAt(s, i + 1, PayLabel)
        {
          assert s[1..][i..i + 9] == s[i + 1..i + 10];
        }
      }
      assert s == [s[0]] + s[1..];
      [s[0]] + RemovePayLabel(s[1..])
  }

  /** The removal only deletes characters: every character of the result
      occurs in the text at least as often. */
  lemma {:induction false} PayLabelOnlyDeletes(s: string)
    ensures multiset(RemovePayLabel(s)) <= multiset(s)
    decreases |s|
  {
    if |s| > 0 {
      if StartsAt(s, 0, PayLabel) {
        var k := 9 + SpanFrom(s, 9, IsSpace);
        PayLabelOnlyDeletes(s[k..]);
        DropLabel(s);
        SuffixMultiset(s, k);
      } else {
        PayLabelOnlyDeletes(s[1..]);
        KeepUnlabelled(s);
        ConsMultiset(s, RemovePayLabel(s[1..]));
      }
    }
  }

  lemma SuffixMultiset(s: string, k: nat)
    requires k <= |s|
    ensures multiset(s[k..]) <= multiset(s)
  {
    assert s == s[..k] + s[k..];
  }

  lemma ConsMultiset(s: string, x: string)
    requires |s| > 0 && multiset(x) <= multiset(s[1..])
    ensures multiset([s[0]] + x) <= multiset(s)
  {
    assert s == [s[0]] + s[1..];
  }

  /** `pay_range`: the label-free, stripped salary text, or "Not Specified"
      when no salary element was found. */
  function PayRange(text: Option<string>): (r: string)
    ensures text.None? ==> r == PayNotSpecified
    ensures text.Some? ==> r == Strip(RemovePayLabel(text.value))
    ensures text.Some? && |r| > 0 ==> !IsSpace(r[0]) && !IsSpace(r[|r| - 1])
  {
    match text
    case Some(t) => Strip(RemovePayLabel(t))
    case None => PayNotSpecified
  }

  // ---------------------------------------------------------------------
  // Qualifications: `(Required|Minimum)\s*Qualifications?[:\s]*(.*?)(?=Preferred|What you|$)`,
  // case-insensitive, `.` matching newlines, searched in the description.

  predicate IsColonOrSpace(c: char) {
    c == ':' || IsSpace(c)
  }

  /** The length of the opening word ("required" or "minimum") at `i`. */
  function OpeningLength(t: string, i: nat): nat {
    if StartsAtFolded(t, i, "required") then 8 else 7
  }

  /** Where "qualification" must start after the opening word at `i`. */
  function NounStart(t: string, i: nat): nat
    requires StartsAtFolded(t, i, "required") || StartsAtFolded(t, i, "minimum")
  {
    i + OpeningLength(t, i) + SpanFrom(t, i + OpeningLength(t, i), IsSpace)
  }

  /** The section marker matches at position `i`. */
  predicate QualMarkerAt(t: string, i: nat) {
    (StartsAtFolded(t, i, "required") || StartsAtFolded(t, i, "minimum"))
    && StartsAtFolded(t, NounStart(t, i), "qualification")
  }

  /** Where the captured text starts: after the marker, an optional "s" and
      the run of colons and whitespace. */
  function ContentStart(t: string, i: nat): (c: nat)
    requires QualMarkerAt(t, i)
    ensures i < c <= |t|
  {
    var q := NounStart(t, i) + 13;
    var q' := if q < |t| && ToLower(t[q]) == 's' then q + 1 else q;
    q' + SpanFrom(t, q', IsColonOrSpace)
  }

  /** The lookahead `(?=Preferred|What you|$)` holds at `k`; `$` also matches
      just before a final newline. */
  predicate SectionEndAt(t: string, k: nat) {
    StartsAtFolded(t, k, "preferred") || StartsAtFolded(t, k, "what you")
    || k == |t| || (k + 1 == |t| && t[k] == '\n')
  }

  /** Where the lazy capture stops: the first position from `c` on at which
      the lookahead holds. */
  function SectionEnd(t: string, c: nat): (e: nat)
    requires c <= |t|
    ensures c <= e <= |t| && SectionEndAt(t, e)
    ensures forall k: nat :: c <= k < e ==> !SectionEndAt(t, k)
  {
    var P := (k: nat) => SectionEndAt(t, k);
    assert forall k: nat :: P(k) == SectionEndAt(t, k);
    assert P(|t|);
    FirstFrom(c, |t|, P).value
  }

  lemma FoldedInSlice(d: string, off: nat, r: string, p: nat, lit: string)
    requires off + |r| <= |d| && r == d[off..off + |r|]
    requires StartsAtFolded(r, p, lit)
    ensures StartsAtFolded(d, off + p, lit)
  {
    var a := r[p..p + |lit|];
    var b := d[off + p..off + p + |lit|];
    forall k | 0 <= k < |a|
      ensures a[k] == b[k]
    {
      assert a[k] == r[p + k];
    }
    assert a == b;
  }

  /** The leftmost position at which the section marker matches. */
  function FirstMarker(d: string): (r: Option<nat>)
    ensures r.None? ==> forall i: nat :: !QualMarkerAt(d, i)
    ensures r.Some? ==> QualMarkerAt(d, r.value) && forall j: nat :: j < r.value ==> !QualMarkerAt(d, j)
  {
    var P := (i: nat) => QualMarkerAt(d, i);
    assert forall i: nat :: P(i) == QualMarkerAt(d, i);
    FirstFrom(0, |d|, P)
  }

  /** The stripped lazy capture starting at `c`: a piece of `d` in which no
      later section begins. */
  function Capture(d: string, c: nat): (r: string)
    requires c <= |d|
    ensures Contains(d, r)
    ensures forall p: nat :: !StartsAtFolded(r, p, "preferred") && !StartsAtFolded(r, p, "what you")
  {
    var e := SectionEnd(d, c);
    var body := d[c..e];
    var r := Strip(body);
    StartsAtPiece(d, c, e, body, Indent(body), r);
    NoEndInside(d, c + Indent(body), r, c, e);
    r
  }

  /** A piece `r` of the piece `body == d[c..e]`, at offset `a`, sits in `d`
      at `c + a`. */
  lemma StartsAtPiece(d: string, c: nat, e: nat, body: string, a: nat, r: string)
    requires c <= e <= |d| && body == d[c..e]
    requires a + |r| <= |body| && r == body[a..a + |r|]
    ensures c + a + |r| <= e && StartsAt(d, c + a, r)
  {
    PieceOfPiece(d, c, e, a, |r|);
  }

  /** A piece of the piece `d[c..e]` is a piece of `d`. */
  lemma PieceOfPiece(d: string, c: nat, e: nat, a: nat, n: nat)
    requires c <= e <= |d| && a + n <= e - c
    ensures d[c..e][a..a + n] == d[c + a..c + a + n]
  {
    var x := d[c..e][a..a + n];
    forall k | 0 <= k < n
      ensures x[k] == d[c + a + k]
    {
      assert d[c..e][a + k] == d[c + a + k];
    }
  }

  /** A piece of `d` lying where no section end matches contains no start
      of "Preferred" or "What you". */
  lemma NoEndInside(d: string, off: nat, r: string, c: nat, e: nat)
    requires c <= off && off + |r| <= e <= |d| && r == d[off..off + |r|]
    requires forall k: nat :: c <= k < e ==> !SectionEndAt(d, k)
    ensures forall p: nat :: !StartsAtFolded(r, p, "preferred") && !StartsAtFolded(r, p, "what you")
  {
    forall p: nat
      ensures !StartsAtFolded(r, p, "preferred") && !StartsAtFolded(r, p, "what you")
    {
      if StartsAtFolded(r, p, "preferred") {
        FoldedInSlice(d, off, r, p, "preferred");
        assert SectionEndAt(d, off + p);
      }
      if StartsAtFolded(r, p, "what you") {
        FoldedInSlice(d, off, r, p, "what you");
        assert SectionEndAt(d, off + p);
      }
    }
  }

  /** `qualifications` before truncation: the stripped text between the first
      marker and the next "Preferred" / "What you" (or the end); "" without a
      marker. */
  function Qualifications(d: string): (r: string)
    ensures (forall i: nat :: !QualMarkerAt(d, i)) ==> r == ""
    ensures forall i: nat :: QualMarkerAt(d, i) && (forall j: nat :: j < i ==> !QualMarkerAt(d, j)) ==>
      r == Strip(d[ContentStart(d, i)..SectionEnd(d, ContentStart(d, i))])
    ensures Contains(d, r)
    ensures forall p: nat :: !StartsAtFolded(r, p, "preferred") && !StartsAtFolded(r, p, "what you")
  {
    match FirstMarker(d)
    case None =>
      assert StartsAt(d, 0, "");
      ""
    case Some(i) =>
      var c := ContentStart(d, i);
      assert Capture(d, c) == Strip(d[c..SectionEnd(d, c)]);
      assert forall j: nat :: QualMarkerAt(d, j) && (forall k: nat :: k < j ==> !QualMarkerAt(d, k)) ==> j == i;
      Capture(d, c)
  }

  // ---------------------------------------------------------------------
  // Deadline: `deadline[:\s]*(\d{4}-\d{2}-\d{2})`, case-insensitive, in the raw markup.

  /** `\d{4}-\d{2}-\d{2}` matches at position `j`. */
  predicate DateAt(t: string, j: nat) {
    j + 10 <= |t|
    && IsDigit(t[j]) && IsDigit(t[j + 1]) && IsDigit(t[j + 2]) && IsDigit(t[j + 3])
    && t[j + 4] == '-' && IsDigit(t[j + 5]) && IsDigit(t[j + 6])
    && t[j + 7] == '-' && IsDigit(t[j + 8]) && IsDigit(t[j + 9])
  }

  /** Where the date must start after a "deadline" label at `i`. */
  function DateStart(t: string, i: nat): nat
    requires i + 8 <= |t|
  {
    i + 8 + SpanFrom(t, i + 8, IsColonOrSpace)
  }

  /** The whole deadline pattern matches at position `i`. */
  predicate DeadlineAt(t: string, i: nat) {
    StartsAtFolded(t, i, "deadline") && DateAt(t, DateStart(t, i))
  }

  /** `deadline`: the date after the leftmost labelled date in the markup, or "". */
  function Deadline(html: string): (r: string)
    ensures r == "" <==> forall i: nat :: !DeadlineAt(html, i)
    ensures r != "" ==> |r| == 10 && DateAt(r, 0)
    ensures r != "" ==>
      exists i: nat :: DeadlineAt(html, i) && (forall j: nat :: j < i ==> !DeadlineAt(html, j))
        && StartsAt(html, DateStart(html, i), r)
  {
    var P := (i: nat) => DeadlineAt(html, i);
    assert forall i: nat :: P(i) == DeadlineAt(html, i);
    match FirstFrom(0, |html|, P)
    case None => ""
    case Some(i) => DateOf(html, i)
  }

  /** The ten characters of the date that follows the label at `i`. */
  function DateOf(html: string, i: nat): (r: string)
    requires DeadlineAt(html, i)
    ensures |r| == 10 && DateAt(r, 0)
    ensures StartsAt(html, DateStart(html, i), r)
  {
    var j := DateStart(html, i);
    var r := html[j..j + 10];
    assert forall k :: 0 <= k < 10 ==> r[k] == html[j + k];
    r
  }

  // ---------------------------------------------------------------------
  // The record.

  /** The description text before truncation. */
  function FullDescription(page: PageLookups): string {
    StrippedOr(page.description, "")
  }

  /** `parse_job_listing_page` once the element lookups are done: each field
      with its fallback, the keyword tags computed on the untruncated title,
      description and qualifications, and only then the description and
      qualifications cut to 2000 and 1000 characters. */
  function ParseJobListingPage(html: string, url: string, page: PageLookups, unixTime: nat, now: string): (job: JobListing)
    ensures |job.reqId| > 0
    ensures job.reqId == RequisitionId(page.requisition, unixTime)
    ensures job.title == StrippedOr(page.heading, UnknownTitle)
    ensures job.location == StrippedOr(page.location, DefaultLocation)
    ensures job.payRange == PayRange(page.salary)
    ensures job.category == EngineeringCategory && job.positionType == RegularPosition
    ensures job.deadline == Deadline(html)
    ensures job.url == url && job.scrapedAt == now
    ensures |job.description| == (if |FullDescription(page)| <= DescriptionCap then |FullDescription(page)| else DescriptionCap)
    ensures IsPrefix(job.description, FullDescription(page))
    ensures |job.qualifications| == (if |Qualifications(FullDescription(page))| <= QualificationsCap
      then |Qualifications(FullDescription(page))| else QualificationsCap)
    ensures IsPrefix(job.qualifications, Qualifications(FullDescription(page)))
    ensures forall k :: k in SplitKeywords(job.techKeywords) <==>
      k in TechKeywords
      && Occurs(Lower(job.title + " " + FullDescription(page) + " " + Qualifications(FullDescription(page))), k)
    ensures StrictlyAscending(SplitKeywords(job.techKeywords))
    ensures job.techKeywords == ExtractTechKeywords(job.title + " " + FullDescription(page) + " " + Qualifications(FullDescription(page)))
  {
    var title := StrippedOr(page.heading, UnknownTitle);
    var description := FullDescription(page);
    var qualifications := Qualifications(description);
    JobListing(
      reqId := RequisitionId(page.requisition, unixTime),
      title := title,
      location := StrippedOr(page.location, DefaultLocation),
      category := EngineeringCategory,
      payRange := PayRange(page.salary),
      positionType := RegularPosition,
      deadline := Deadline(html),
      description := Truncate(description, DescriptionCap),
      qualifications := Truncate(qualifications, QualificationsCap),
      url := url,
      scrapedAt := now,
      techKeywords := ExtractTechKeywords(title + " " + description + " " + qualifications))
  }

  // ---------------------------------------------------------------------
  // Properties of the record.

  /** A page on which no element was found still yields a complete record:
      every documented fallback literal, and a synthesized requisition ID
      "UNKNOWN-" followed by digits that read back as the clock value. */
  lemma FallbackCompleteness(html: string, url: string, unixTime: nat, now: string)
    ensures var job := ParseJobListingPage(html, url, PageLookups(None, None, None, None, None), unixTime, now);
      && job.title == "Unknown Position"
      && job.location == "Multiple Locations"
      && job.payRange == "Not Specified"
      && job.description == "" && job.qualifications == ""
      && job.category == "Engineering & Software Development"
      && job.positionType == "Regular"
      && |job.reqId| > 8 && job.reqId[..8] == "UNKNOWN-"
      && AllDigits(job.reqId[8..]) && ParseDecimal(job.reqId[8..]) == unixTime
  {
    var job := ParseJobListingPage(html, url, PageLookups(None, None, None, None, None), unixTime, now);
    assert Indent("") == 0;
    assert job.reqId == UnknownPrefix + NatToString(unixTime);
    assert job.reqId[8..] == NatToString(unixTime);
    DecimalRoundTrip(unixTime);
  }

  /** The salary label and the whitespace after it are removed, and nothing
      else is: "Pay range " followed by a label-free, already trimmed
      figure is stored as that figure. */
  lemma PayLabelRemoved(figure: string)
    requires |figure| > 0 && !IsSpace(figure[0]) && !IsSpace(figure[|figure| - 1])
    requires forall i: nat :: !StartsAt(figure, i, PayLabel)
    ensures PayRange(Some(PayLabel + " " + figure)) == figure
  {
    var s := PayLabel + " " + figure;
    assert s[..9] == PayLabel;
    assert StartsAt(s, 0, PayLabel);
    assert SpanFrom(s, 9, IsSpace) == 1;
    assert s[10..] == figure;
    assert RemovePayLabel(s) == RemovePayLabel(figure);
    assert RemovePayLabel(figure) == figure;
    StripUntouched(figure);
    assert PayRange(Some(s)) == Strip(RemovePayLabel(s));
  }

  /** Each label is removed with the whitespace run after it, and the text
      before it is kept: when no label starts inside `a`, the label and the
      whitespace `w` after it go, and the removal carries on with `b`. */
  lemma {:induction false} PayLabelDropped(a: string, w: string, b: string)
    requires forall i: nat :: i < |a| ==> !StartsAt(a + PayLabel + w + b, i, PayLabel)
    requires forall k :: 0 <= k < |w| ==> IsSpace(w[k])
    requires |b| > 0 ==> !IsSpace(b[0])
    ensures RemovePayLabel(a + PayLabel + w + b) == a + RemovePayLabel(b)
    decreases |a|
  {
    var s := a + PayLabel + w + b;
    if |a| == 0 {
      assert s == PayLabel + w + b;
      LabelThenSpace(w, b);
    } else {
      var s' := a[1..] + PayLabel + w + b;
      assert s[0] == a[0] && s[1..] == s';
      NoLabelShift(s, |a|);
      PayLabelDropped(a[1..], w, b);
      KeepFirst(s, s', a, RemovePayLabel(b));
    }
  }

  /** Keeping an unlabelled first character in front of what the rest gives. */
  lemma KeepFirst(s: string, s': string, kept: string, removed: string)
    requires |s| > 0 && !StartsAt(s, 0, PayLabel) && s[1..] == s'
    requires |kept| > 0 && kept[0] == s[0]
    requires RemovePayLabel(s') == kept[1..] + removed
    ensures RemovePayLabel(s) == kept + removed
  {
    KeepUnlabelled(s);
    ConsAppend(s[0], kept, removed);
  }

  lemma ConsAppend(c: char, kept: string, removed: string)
    requires |kept| > 0 && kept[0] == c
    ensures [c] + (kept[1..] + removed) == kept + removed
  {
    assert kept == [c] + kept[1..];
  }

  /** Without a label at the start, the first character stays. */
  lemma KeepUnlabelled(s: string)
    requires |s| > 0 && !StartsAt(s, 0, PayLabel)
    ensures RemovePayLabel(s) == [s[0]] + RemovePayLabel(s[1..])
  {
  }

  /** No label in the first `n` positions of `s` leaves none in the first
      `n - 1` positions of `s[1..]`. */
  lemma NoLabelShift(s: string, n: nat)
    requires 0 < n <= |s|
    requires forall i: nat :: i < n ==> !StartsAt(s, i, PayLabel)
    ensures forall i: nat :: i < n - 1 ==> !StartsAt(s[1..], i, PayLabel)
  {
    forall i: nat | i < n - 1
      ensures !StartsAt(s[1..], i, PayLabel)
    {
      if StartsAt(s[1..], i, PayLabel) {
        assert s[1..][i..i + 9] == s[i + 1..i + 10];
        assert StartsAt(s, i + 1, PayLabel);
      }
    }
  }

  /** A label at the start is removed with exactly the whitespace `w` that
      follows it. */
  lemma LabelThenSpace(w: string, b: string)
    requires forall k :: 0 <= k < |w| ==> IsSpace(w[k])
    requires |b| > 0 ==> !IsSpace(b[0])
    ensures RemovePayLabel(PayLabel + w + b) == RemovePayLabel(b)
  {
    LabelLayout(w, b);
    DropLabel(PayLabel + w + b);
  }

  /** Where the pieces of a labelled text sit. */
  lemma LabelLayout(w: string, b: string)
    requires forall k :: 0 <= k < |w| ==> IsSpace(w[k])
    requires |b| > 0 ==> !IsSpace(b[0])
    ensures var s := PayLabel + w + b;
      StartsAt(s, 0, PayLabel) && SpanFrom(s, 9, IsSpace) == |w| && s[9 + |w|..] == b
  {
    var s := PayLabel + w + b;
    var n := |w|;
    assert s[..9] == PayLabel;
    assert forall k :: 9 <= k < 9 + n ==> s[k] == w[k - 9];
    var m := SpanFrom(s, 9, IsSpace);
    assert s[9 + n..] == b;
  }

  /** A label at the start goes together with the whitespace run after it. */
  lemma DropLabel(s: string)
    requires StartsAt(s, 0, PayLabel)
    ensures RemovePayLabel(s) == RemovePayLabel(s[9 + SpanFrom(s, 9, IsSpace)..])
  {
  }

  /** The leftmost match wins, even inside a longer digit run: in "12345-6"
      the pattern first fits at the second digit. */
  lemma LeftmostRequisition()
    ensures FindReqId("12345-6") == Some("2345-6")
  {
    var t := "12345-6";
    assert !ReqIdAt(t, 0);
    assert ReqIdAt(t, 1);
    var r := FindReqId(t);
    var i: nat :| ReqIdAt(t, i) && StartsAt(t, i, r.value) && (forall j: nat :: j < i ==> !ReqIdAt(t, j));
    assert i == 1;
    assert |r.value| == 6;
    assert r.value == t[1..7];
    assert t[1..7] == "2345-6";
  }

  /** "Required Qualifications: " at `i` is a marker whose noun starts at
      `i + 9`. */
  lemma RequiredOpening(d: string, i: nat)
    requires i + 25 <= |d| && d[i..i + 25] == "Required Qualifications: "
    ensures QualMarkerAt(d, i) && NounStart(d, i) == i + 9
  {
    OpeningWords(d, i);
    assert d[i + 8] == d[i..i + 25][8] == ' ' && d[i + 9] == d[i..i + 25][9] == 'Q';
    assert SpanFrom(d, i + 8, IsSpace) == 1;
  }

  lemma OpeningWords(d: string, i: nat)
    requires i + 25 <= |d| && d[i..i + 25] == "Required Qualifications: "
    ensures StartsAtFolded(d, i, "required") && StartsAtFolded(d, i + 9, "qualification")
  {
    var m := d[i..i + 25];
    forall k | 0 <= k < 8
      ensures ToLower(d[i + k]) == "required"[k]
    {
      assert d[i + k] == m[k];
    }
    FoldedByChars(d, i, "required");
    forall k | 0 <= k < 13
      ensures ToLower(d[i + 9 + k]) == "qualification"[k]
    {
      assert d[i + 9 + k] == m[9 + k];
    }
    FoldedByChars(d, i + 9, "qualification");
  }

  /** A literal matches ignoring case when each character does. */
  lemma FoldedByChars(d: string, i: nat, lit: string)
    requires i + |lit| <= |d|
    requires forall k :: 0 <= k < |lit| ==> ToLower(d[i + k]) == lit[k]
    ensures StartsAtFolded(d, i, lit)
  {
    var w := Lower(d[i..i + |lit|]);
    forall k | 0 <= k < |lit|
      ensures w[k] == lit[k]
    {
      assert d[i..i + |lit|][k] == d[i + k];
    }
  }

  /** After "Required Qualifications: " at `i` the capture starts at the
      first character that is not a colon or a space. */
  lemma RequiredMarkerAt(d: string, i: nat)
    requires i + 25 <= |d| && d[i..i + 25] == "Required Qualifications: "
    requires |d| > i + 25 ==> !IsColonOrSpace(d[i + 25])
    ensures QualMarkerAt(d, i) && ContentStart(d, i) == i + 25
  {
    RequiredOpening(d, i);
    assert d[i + 22] == d[i..i + 25][22] == 's';
    assert d[i + 23] == d[i..i + 25][23] == ':' && d[i + 24] == d[i..i + 25][24] == ' ';
    assert SpanFrom(d, i + 23, IsColonOrSpace) == 2;
  }

  /** The section that starts at `c` with `body` ends where "Preferred"
      follows, when no "Preferred" or "What you" starts inside `body`. */
  lemma SectionEndsAtPreferred(d: string, c: nat, body: string)
    requires c + |body| + 9 <= |d| && d[c..c + |body|] == body
    requires d[c + |body|..c + |body| + 9] == "Preferred"
    requires forall p: nat :: !StartsAtFolded(body, p, "preferred") && !StartsAtFolded(body, p, "what you")
    ensures SectionEnd(d, c) == c + |body|
  {
    var e := c + |body|;
    assert d[e] == d[e..e + 9][0] == 'P';
    assert forall m :: 0 < m < 9 ==> "preferred"[m] != 'p';
    assert forall m :: 0 < m < 8 ==> "what you"[m] != 'p';
    forall k: nat | c <= k < e
      ensures !SectionEndAt(d, k)
    {
      NotStartedInBody(d, c, body, k, "preferred");
      NotStartedInBody(d, c, body, k, "what you");
    }
    assert Lower(d[e..e + 9]) == "preferred";
    assert SectionEndAt(d, e);
  }

  /** A literal whose only "p" is its first letter does not start inside
      `body` when a "P" follows `body` and the literal does not start in
      `body` itself. */
  lemma NotStartedInBody(d: string, c: nat, body: string, k: nat, lit: string)
    requires c <= k < c + |body| < |d| && d[c..c + |body|] == body
    requires d[c + |body|] == 'P'
    requires !StartsAtFolded(body, k - c, lit)
    requires forall m :: 0 < m < |lit| ==> lit[m] != 'p'
    ensures !StartsAtFolded(d, k, lit)
  {
    var e := c + |body|;
    if k + |lit| <= e {
      var x := d[k..k + |lit|];
      var y := body[k - c..k - c + |lit|];
      forall j | 0 <= j < |lit|
        ensures x[j] == y[j]
      {
        assert d[k + j] == d[c..e][k - c + j];
      }
      assert x == y;
    } else if k + |lit| <= |d| {
      var m := e - k;
      assert Lower(d[k..k + |lit|])[m] == ToLower(d[k..k + |lit|][m]) == ToLower(d[e]);
    }
  }

  /** The qualifications section runs from the first marker to the next
      "Preferred", trimmed: when no marker matches before it, and no
      "Preferred" or "What you" starts inside `body`, the text
      `pre` + "Required Qualifications: " + `body` + "Preferred" + `tail`
      yields the trimmed `body`. */
  lemma QualificationsSection(pre: string, body: string, tail: string)
    requires forall j: nat :: j < |pre| ==>
      !QualMarkerAt(pre + "Required Qualifications: " + body + "Preferred" + tail, j)
    requires forall p: nat :: !StartsAtFolded(body, p, "preferred") && !StartsAtFolded(body, p, "what you")
    requires |body| > 0 ==> !IsColonOrSpace(body[0])
    ensures Qualifications(pre + "Required Qualifications: " + body + "Preferred" + tail) == Strip(body)
  {
    var d := pre + "Required Qualifications: " + body + "Preferred" + tail;
    SectionLayout(pre, body, tail);
    RequiredMarkerAt(d, |pre|);
    SectionAfterMarker(d, |pre|, body);
  }

  /** Where the pieces of the text sit. */
  lemma SectionLayout(pre: string, body: string, tail: string)
    requires |body| > 0 ==> !IsColonOrSpace(body[0])
    ensures var d := pre + "Required Qualifications: " + body + "Preferred" + tail;
      var i := |pre|;
      && |d| == i + 25 + |body| + 9 + |tail|
      && d[i..i + 25] == "Required Qualifications: "
      && (|d| > i + 25 ==> !IsColonOrSpace(d[i + 25]))
      && d[i + 25..i + 25 + |body|] == body
      && d[i + 25 + |body|..i + 25 + |body| + 9] == "Preferred"
  {
    var d := pre + "Required Qualifications: " + body + "Preferred" + tail;
    var i := |pre|;
    if |body| > 0 {
      assert d[i + 25] == body[0];
    } else {
      assert d[i + 25] == 'P';
    }
  }

  /** With the first marker at `i` and its content `body` followed by
      "Preferred", the section is the trimmed `body`. */
  lemma SectionAfterMarker(d: string, i: nat, body: string)
    requires QualMarkerAt(d, i) && ContentStart(d, i) == i + 25
    requires forall j: nat :: j < i ==> !QualMarkerAt(d, j)
    requires i + 25 + |body| + 9 <= |d| && d[i + 25..i + 25 + |body|] == body
    requires d[i + 25 + |body|..i + 25 + |body| + 9] == "Preferred"
    requires forall p: nat :: !StartsAtFolded(body, p, "preferred") && !StartsAtFolded(body, p, "what you")
    ensures Qualifications(d) == Strip(body)
  {
    var c := i + 25;
    SectionEndsAtPreferred(d, c, body);
    assert d[ContentStart(d, i)..SectionEnd(d, ContentStart(d, i))] == body;
    QualificationsAtFirst(d, i);
  }

  /** The first marker decides the section. */
  lemma QualificationsAtFirst(d: string, i: nat)
    requires QualMarkerAt(d, i)
    requires forall j: nat :: j < i ==> !QualMarkerAt(d, j)
    ensures Qualifications(d) == Strip(d[ContentStart(d, i)..SectionEnd(d, ContentStart(d, i))])
  {
  }
}
