/** The keyword extractor: which terms of the fixed technology vocabulary occur
    in a text as whole words, reported sorted, without repetition, joined
    with ", ". */
module Keywords {
  import opened Wrappers
  import opened Text
  import opened StringOrder

  const Languages: seq<string> := [
    "java", "python", "javascript", "typescript", "c#", "c++", "go", "rust",
    "ruby", "scala", "kotlin", "swift", "php", "perl", "r"]
  const Frameworks: seq<string> := [
    "react", "angular", "vue", "node.js", "nodejs", "spring", "django", "flask",
    ".net", "dotnet", "express", "fastapi", "rails", "nextjs", "next.js"]
  const CloudDevOps: seq<string> := [
    "aws", "azure", "gcp", "google cloud", "kubernetes", "k8s", "docker",
    "terraform", "jenkins", "ci/cd", "ansible", "cloudformation"]
  const Databases: seq<string> := [
    "sql", "postgresql", "mysql", "mongodb", "redis", "elasticsearch",
    "oracle", "dynamodb", "cassandra", "snowflake", "databricks"]
  const BigDataMl: seq<string> := [
    "spark", "hadoop", "kafka", "airflow", "machine learning", "ml",
    "ai", "tensorflow", "pytorch", "pandas", "numpy", "scikit-learn"]
  const FinancialTrading: seq<string> := [
    "fix protocol", "trading", "risk management", "fintech", "securities",
    "order management", "market data", "algorithmic trading"]
  const Other: seq<string> := [
    "api", "rest", "graphql", "microservices", "agile", "scrum", "git"]

  /** The vocabulary, in the order the extractor tries its terms. */
  const TechKeywords: seq<string> :=
    Languages + Frameworks + CloudDevOps + Databases + BigDataMl + FinancialTrading + Other

  /** A term can sit in a ", "-joined list and be split back out. */
  predicate Listable(k: string) {
    |k| > 0 && ',' !in k
  }

  lemma LanguagesListable() ensures forall k :: k in Languages ==> Listable(k) {}
  lemma FrameworksListable() ensures forall k :: k in Frameworks ==> Listable(k) {}
  lemma CloudDevOpsListable() ensures forall k :: k in CloudDevOps ==> Listable(k) {}
  lemma DatabasesListable() ensures forall k :: k in Databases ==> Listable(k) {}
  lemma BigDataMlListable() ensures forall k :: k in BigDataMl ==> Listable(k) {}
  lemma FinancialTradingListable() ensures forall k :: k in FinancialTrading ==> Listable(k) {}
  lemma OtherListable() ensures forall k :: k in Other ==> Listable(k) {}

  lemma VocabularyWellFormed()
    ensures forall k :: k in TechKeywords ==> Listable(k)
  {
    LanguagesListable();
    FrameworksListable();
    CloudDevOpsListable();
    DatabasesListable();
    BigDataMlListable();
    FinancialTradingListable();
    OtherListable();
  }

  /** The character before position `i` of `t` is a word character. */
  predicate WordBefore(t: string, i: nat) {
    0 < i <= |t| && IsWordChar(t[i - 1])
  }

  /** The character at position `i` of `t` is a word character. */
  predicate WordAfter(t: string, i: nat) {
    i < |t| && IsWordChar(t[i])
  }

  /** `\b` at position `i`: word-ness differs on the two sides, and a side
      outside the text counts as non-word. */
  predicate IsBoundary(t: string, i: nat) {
    WordBefore(t, i) != WordAfter(t, i)
  }

  /** The pattern `\b<term>\b` (with the term escaped, so matched literally)
      matches `t` at position `i`. */
  predicate MatchesAt(t: string, term: string, i: nat) {
    StartsAt(t, i, term) && IsBoundary(t, i) && IsBoundary(t, i + |term|)
  }

  /** The reference meaning of a hit: a whole-word occurrence somewhere. */
  ghost predicate Occurs(t: string, term: string) {
    exists i: nat :: MatchesAt(t, term, i)
  }

  /** `re.search(r'\b' + re.escape(term) + r'\b', t)`: the leftmost match
      position, if there is one. */
  function FirstWholeWordMatch(t: string, term: string): (r: Option<nat>)
    ensures r.Some? <==> Occurs(t, term)
    ensures r.Some? ==> MatchesAt(t, term, r.value)
    ensures r.Some? ==> forall j: nat :: j < r.value ==> !MatchesAt(t, term, j)
  {
    var P := (i: nat) => MatchesAt(t, term, i);
    assert forall i: nat :: P(i) == MatchesAt(t, term, i);
    FirstFrom(0, |t|, P)
  }

  /** The loop over the vocabulary: the terms that the search finds, in
      vocabulary order. */
  function Found(t: string, terms: seq<string>): (r: seq<string>)
    ensures forall k :: k in r <==> k in terms && Occurs(t, k)
  {
    if |terms| == 0 then []
    else (if FirstWholeWordMatch(t, terms[0]).Some? then [terms[0]] else []) + Found(t, terms[1..])
  }

  /** The list the extractor joins: `sorted(set(found))` over the lowered text. */
  function KeywordHits(text: string): (ks: seq<string>)
    ensures StrictlyAscending(ks)
    ensures forall k :: k in ks <==> k in TechKeywords && Occurs(Lower(text), k)
  {
    SortedSet(Found(Lower(text), TechKeywords))
  }

  /** `", ".join(xs)`. */
  function Join(xs: seq<string>): string {
    if |xs| == 0 then ""
    else if |xs| == 1 then xs[0]
    else xs[0] + ", " + Join(xs[1..])
  }

  /** The position of the first ", " in `s`, or `|s|` if there is none. */
  function FirstSeparator(s: string): (i: nat)
    ensures i <= |s|
    ensures i < |s| ==> StartsAt(s, i, ", ")
    ensures forall j: nat :: j < i ==> !StartsAt(s, j, ", ")
  {
    var P := (j: nat) => StartsAt(s, j, ", ");
    assert forall j: nat :: P(j) == StartsAt(s, j, ", ");
    match FirstFrom(0, |s|, P)
    case Some(j) => j
    case None => |s|
  }

  /** The pieces of `s` between ", " separators; at least one piece. */
  function SplitFields(s: string): seq<string>
    decreases |s|
  {
    var i := FirstSeparator(s);
    if i == |s| then [s] else [s[..i]] + SplitFields(s[i + 2..])
  }

  /** Reads a stored keyword list back into its terms; "" holds none. */
  function SplitKeywords(s: string): seq<string> {
    if |s| == 0 then [] else SplitFields(s)
  }

  /** No ", " starts inside a listable term, whatever follows it. */
  lemma NoSeparatorInTerm(x: string, y: string)
    requires Listable(x)
    ensures forall j: nat :: j < |x| ==> !StartsAt(x + y, j, ", ")
  {
    forall j: nat | j < |x|
      ensures !StartsAt(x + y, j, ", ")
    {
      if j + 2 <= |x + y| {
        assert (x + y)[j..j + 2][0] == x[j];
      }
    }
  }

  lemma {:induction false} SplitJoinFields(xs: seq<string>)
    requires |xs| > 0
    requires forall x :: x in xs ==> Listable(x)
    ensures |Join(xs)| > 0
    ensures SplitFields(Join(xs)) == xs
    decreases |xs|
  {
    var x := xs[0];
    if |xs| == 1 {
      NoSeparatorInTerm(x, "");
      assert x + "" == x;
    } else {
      var rest := xs[1..];
      var s := Join(xs);
      assert s == x + (", " + Join(rest));
      NoSeparatorInTerm(x, ", " + Join(rest));
      var i := FirstSeparator(s);
      assert StartsAt(s, |x|, ", ");
      assert i == |x|;
      assert s[..i] == x;
      assert s[i + 2..] == Join(rest);
      SplitJoinFields(rest);
    }
  }

  /** Splitting a joined list of comma-free, non-empty terms gives the list back. */
  lemma JoinRoundTrip(xs: seq<string>)
    requires forall x :: x in xs ==> Listable(x)
    ensures SplitKeywords(Join(xs)) == xs
  {
    if |xs| > 0 {
      SplitJoinFields(xs);
    }
  }

  /** `extract_tech_keywords`: the stored string decodes to exactly the
      vocabulary terms that occur as whole words in the lowered text, in
      strictly ascending order. */
  function ExtractTechKeywords(text: string): (r: string)
    ensures StrictlyAscending(SplitKeywords(r))
    ensures forall k :: k in SplitKeywords(r) <==> k in TechKeywords && Occurs(Lower(text), k)
  {
    var ks := KeywordHits(text);
    VocabularyWellFormed();
    JoinRoundTrip(ks);
    Join(ks)
  }

  /** Every reported term is a vocabulary term, and the report is the only
      strictly ascending list of the terms that occur. */
  lemma ExtractIsExact(text: string, ks: seq<string>)
    requires StrictlyAscending(ks)
    requires forall k :: k in ks <==> k in TechKeywords && Occurs(Lower(text), k)
    ensures ExtractTechKeywords(text) == Join(ks)
  {
    AscendingUnique(ks, KeywordHits(text));
  }

  /** A single-letter term is not found inside a longer word: "react" does
      not report "r", but does report "react". */
  lemma ReactIsNotR()
    ensures "r" !in KeywordHits("react")
    ensures "react" in KeywordHits("react")
  {
    var t := Lower("react");
    assert t == "react";
    forall i: nat
      ensures !MatchesAt(t, "r", i)
    {
      if StartsAt(t, i, "r") {
        assert t[i] == "r"[0];
        assert i == 0;
        assert !IsBoundary(t, 1);
      }
    }
    assert MatchesAt(t, "react", 0);
  }

  /** A term that ends in a word character is not matched where a word
      character follows it: "r" is not found inside "react". */
  lemma NoHitInsideWord(t: string, term: string, i: nat)
    requires |term| > 0 && IsWordChar(term[|term| - 1])
    requires StartsAt(t, i, term) && WordAfter(t, i + |term|)
    ensures !MatchesAt(t, term, i)
  {
    assert t[i + |term| - 1] == t[i..i + |term|][|term| - 1];
  }

  /** After a term that ends in a non-word character, `\b` holds exactly
      where a word character follows, since the character before it is not
      one: "c++" is reported in "c++11" but not in "c++ developer". */
  lemma TrailingSymbolNeedsWordAfter(t: string, term: string, i: nat)
    requires |term| > 0 && !IsWordChar(term[|term| - 1])
    requires StartsAt(t, i, term)
    ensures IsBoundary(t, i + |term|) <==> WordAfter(t, i + |term|)
  {
    assert t[i + |term| - 1] == t[i..i + |term|][|term| - 1];
  }

  /** Matching ignores case: texts that agree once lowered give the same
      keywords, so "Java", "java" and "JAVA" are the same hit. */
  lemma HitsIgnoreCase(a: string, b: string)
    requires Lower(a) == Lower(b)
    ensures ExtractTechKeywords(a) == ExtractTechKeywords(b)
  {
  }

  /** Each term is reported at most once, however often it occurs. */
  lemma HitsOnce(text: string)
    ensures var ks := KeywordHits(text);
      forall i, j :: 0 <= i < j < |ks| ==> ks[i] != ks[j]
  {
    var ks := KeywordHits(text);
    forall i, j | 0 <= i < j < |ks|
      ensures ks[i] != ks[j]
    {
      LessIrreflexive(ks[i]);
    }
  }
}
