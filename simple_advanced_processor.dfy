/** `SimpleAdvancedProcessor`: keyword and regular-expression analysis of a
    paper's text (citation counts, methodology keywords, a lexical search,
    research-gap sentences, a co-occurrence concept map and the mocked list
    of related papers). Float constants of the source are written in
    hundredths. */
module SimpleAdvanced {
  import opened Wrappers
  import opened Text
  import opened Regex
  import opened Ranking

  // ---------------------------------------------------------------------------
  // Pattern loops shared by extract_citations and create_concept_map

  /** The `re.findall` results of the patterns `ps` on `s`, one pattern after
      the other. */
  function MatchesOf(ps: seq<Pattern>, s: string): seq<string>
    requires forall k :: 0 <= k < |ps| ==> WellFormed(ps[k])
  {
    if ps == [] then [] else MatchesOf(ps[..|ps| - 1], s) + FindAll(ps[|ps| - 1], s)
  }

  /** The loop `for pattern in patterns: xs.extend(re.findall(pattern, s))`. */
  method CollectMatches(ps: seq<Pattern>, s: string) returns (r: seq<string>)
    requires forall k :: 0 <= k < |ps| ==> WellFormed(ps[k])
    ensures r == MatchesOf(ps, s)
  {
    r := [];
    for k := 0 to |ps|
      invariant r == MatchesOf(ps[..k], s)
    {
      assert ps[..k + 1][..k] == ps[..k];
      r := r + FindAll(ps[k], s);
    }
    assert ps[..|ps|] == ps;
  }

  /** `len(set(xs))` */
  function DistinctCount(xs: seq<string>): (n: nat)
    ensures n == |Dedup(xs)|
    ensures n <= |xs|
  {
    DistinctCardinality(Dedup(xs));
    assert (set x | x in xs) == (set x | x in Dedup(xs));
    |set x | x in xs|
  }

  // ---------------------------------------------------------------------------
  // extract_citations

  const CitationPatterns: seq<Pattern> := [BracketNumber, ParenthesisedYear, EtAlCitation]

  /** The citations are the bracketed numbers, then the parenthesised years,
      then the `et al.` citations. */
  lemma CitationMatches(text: string)
    ensures MatchesOf(CitationPatterns, text) ==
      FindAll(BracketNumber, text) + FindAll(ParenthesisedYear, text) + FindAll(EtAlCitation, text)
  {
    var ps := CitationPatterns;
    assert ps[..2] == [BracketNumber, ParenthesisedYear];
    assert ps[..2][..1] == [BracketNumber];
    assert [BracketNumber][..0] == [];
    assert MatchesOf([BracketNumber], text) == FindAll(BracketNumber, text);
    assert MatchesOf(ps[..2], text) == MatchesOf([BracketNumber], text) + FindAll(ParenthesisedYear, text);
    assert MatchesOf(ps, text) == MatchesOf(ps[..2], text) + FindAll(EtAlCitation, text);
  }

  /** Python's `a <= b` on strings: by code point, a prefix first. */
  predicate LexLessEq(a: string, b: string)
    decreases |a|
  {
    a == [] || (b != [] && (a[0] < b[0] || (a[0] == b[0] && LexLessEq(a[1..], b[1..]))))
  }

  lemma {:induction false} LexTotal(a: string, b: string)
    ensures LexLessEq(a, b) || LexLessEq(b, a)
    decreases |a|
  {
    if a != [] && b != [] && a[0] == b[0] {
      LexTotal(a[1..], b[1..]);
    }
  }

  lemma {:induction false} LexReflexive(a: string)
    ensures LexLessEq(a, a)
    decreases |a|
  {
    if a != [] {
      LexReflexive(a[1..]);
    }
  }

  lemma {:induction false} LexTransitive(a: string, b: string, c: string)
    requires LexLessEq(a, b) && LexLessEq(b, c)
    ensures LexLessEq(a, c)
    decreases |a|
  {
    if a != [] && a[0] == b[0] && b[0] == c[0] {
      LexTransitive(a[1..], b[1..], c[1..]);
    }
  }

  /** `max(xs)`, which keeps the first of equal maxima. */
  function MaxString(xs: seq<string>): (r: string)
    requires xs != []
    ensures r in xs
    ensures forall x :: x in xs ==> LexLessEq(x, r)
  {
    if |xs| == 1 then
      LexReflexive(xs[0]);
      xs[0]
    else
      var m := MaxString(xs[..|xs| - 1]);
      var x := xs[|xs| - 1];
      assert xs == xs[..|xs| - 1] + [x];
      LexTotal(x, m);
      if LexLessEq(x, m) then m
      else
        assert forall y :: y in xs[..|xs| - 1] ==> LexLessEq(y, x) by {
          forall y | y in xs[..|xs| - 1]
            ensures LexLessEq(y, x)
          {
            LexTransitive(y, m, x);
          }
        }
        LexReflexive(x);
        x
  }

  /** `int(c)` for a digit character. */
  function DigitValue(c: char): int {
    c as int - '0' as int
  }

  /** `avg_citation_age` as written: the century pattern reports only `19`
      or `20`, the largest of them loses all but its first character, and
      that digit is taken from 2024. */
  function CitationAgeAsWritten(text: string): (r: int)
    ensures r == 4 || r == 2022 || r == 2023
    ensures r == 4 <==> FindAll(YearCentury, text) == []
  {
    var centuries := FindAll(YearCentury, text);
    if centuries == [] then 4
    else
      YearCenturies(text);
      var m := MaxString(centuries);
      assert m == "19" || m == "20";
      2024 - DigitValue(m[0])
  }

  /** As written, the age depends only on whether some year of the 2000s is
      cited: it is 2022 then, 2023 when all cited years are of the 1900s, and
      4 without years. */
  lemma CitationAgeAsWrittenValues(text: string)
    ensures var centuries := FindAll(YearCentury, text);
      CitationAgeAsWritten(text) == if centuries == [] then 4 else if "20" in centuries then 2022 else 2023
  {
    var centuries := FindAll(YearCentury, text);
    YearCenturies(text);
    if centuries != [] {
      var m := MaxString(centuries);
      if "20" in centuries {
        assert LexLessEq("20", m);
        assert !LexLessEq("20", "19");
      }
    }
  }

  /** The value of a year the whole-year pattern reports. */
  function YearValue(y: string): (v: int)
    requires YearText(y)
    ensures 1900 <= v <= 2099
  {
    assert y[0] == y[..2][0] && y[1] == y[..2][1];
    1000 * DigitValue(y[0]) + 100 * DigitValue(y[1]) + 10 * DigitValue(y[2]) + DigitValue(y[3])
  }

  /** The latest of some years. */
  function LatestYear(years: seq<string>): (v: int)
    requires years != [] && forall y :: y in years ==> YearText(y)
    ensures exists y :: y in years && v == YearValue(y)
    ensures forall y :: y in years ==> YearValue(y) <= v
  {
    var last := years[|years| - 1];
    if |years| == 1 then YearValue(last)
    else
      assert years == years[..|years| - 1] + [last];
      var v := LatestYear(years[..|years| - 1]);
      if YearValue(last) <= v then v else YearValue(last)
  }

  /** `avg_citation_age` as evidently intended: the years from the latest
      cited year to 2024, and 4 when no year is cited. */
  function CitationAge(text: string): (r: int)
    ensures FindAll(YearFull, text) == [] ==> r == 4
    ensures FindAll(YearFull, text) != [] ==> -75 <= r <= 124
    ensures forall y :: y in FindAll(YearFull, text) ==> YearText(y) && r <= 2024 - YearValue(y)
    ensures FindAll(YearFull, text) != [] ==> exists y :: y in FindAll(YearFull, text) && YearText(y) && r == 2024 - YearValue(y)
  {
    var years := FindAll(YearFull, text);
    FullYears(text);
    if years == [] then 4 else 2024 - LatestYear(years)
  }

  /** The text "2020" cites one year, four years before 2024; as written the
      age comes out as 2022. */
  lemma CitationAgeOfOneYear(text: string)
    requires text == "2020"
    ensures CitationAgeAsWritten(text) == 2022
    ensures CitationAge(text) == 4
  {
    assert YearAt(text, 0);
    assert text[0..4] == "2020" && text[0..2] == "20";
    assert MatchAt(YearFull, text, 0) == Some(Match(4, "2020"));
    assert MatchAt(YearCentury, text, 0) == Some(Match(4, "20"));
    assert FindAllFrom(YearFull, text, 4) == [] && FindAllFrom(YearCentury, text, 4) == [];
    assert FindAll(YearFull, text) == ["2020"];
    assert FindAll(YearCentury, text) == ["20"];
    CitationAgeAsWrittenValues(text);
    assert YearValue("2020") == 2020;
  }

  datatype CitationNetwork = CitationNetwork(nodes: nat, edges: nat)

  datatype CitationAnalysis = CitationAnalysis(avgCitationAge: int, citationDiversity: nat, selfCitations: nat)

  datatype CitationReport = CitationReport(
    totalCitations: nat,
    network: CitationNetwork,
    mostCitedAuthors: seq<string>,
    publicationYears: seq<string>,
    analysis: CitationAnalysis)

  /** `extract_citations`, with the citation age as written. */
  method ExtractCitations(text: string) returns (report: CitationReport)
    ensures var citations := FindAll(BracketNumber, text) + FindAll(ParenthesisedYear, text) + FindAll(EtAlCitation, text);
      && report.totalCitations == |citations|
      && report.analysis.citationDiversity == DistinctCount(citations)
      && report.network.nodes == Min(DistinctCount(citations), 20)
      && report.network.edges == Min(|citations| / 2, 15)
    ensures report.network.nodes <= 20 && report.network.edges <= 15
    ensures report.network.nodes <= report.totalCitations
    ensures report.analysis.selfCitations == 0
    ensures report.mostCitedAuthors == Take(Dedup(FindAll(AuthorYear, text)), 5)
    ensures Distinct(report.mostCitedAuthors)
    ensures report.publicationYears == Take(Dedup(FindAll(YearCentury, text)), 10)
    ensures Distinct(report.publicationYears)
    ensures forall y :: y in report.publicationYears ==> y == "19" || y == "20"
    ensures report.analysis.avgCitationAge == CitationAgeAsWritten(text)
    ensures report.analysis.avgCitationAge ==
      if report.publicationYears == [] then 4 else if "20" in FindAll(YearCentury, text) then 2022 else 2023
  {
    var citations := CollectMatches(CitationPatterns, text);
    CitationMatches(text);
    var centuries := FindAll(YearCentury, text);
    YearCenturies(text);
    var authors := FindAll(AuthorYear, text);
    var diversity := DistinctCount(citations);
    TakeDistinct(Dedup(authors), 5);
    TakeDistinct(Dedup(centuries), 10);
    CitationAgeAsWrittenValues(text);
    assert centuries != [] ==> centuries[0] in Dedup(centuries);
    report := CitationReport(
      |citations|,
      CitationNetwork(Min(diversity, 20), Min(|citations| / 2, 15)),
      Take(Dedup(authors), 5),
      Take(Dedup(centuries), 10),
      CitationAnalysis(CitationAgeAsWritten(text), diversity, 0));
  }

  // ---------------------------------------------------------------------------
  // extract_methodology

  /** The keywords, all in lower case, so `keyword.lower()` is the keyword. */
  const MethodKeywords: seq<string> := [
    "experiment", "survey", "analysis", "model", "algorithm",
    "approach", "method", "technique", "framework", "system",
    "machine learning", "deep learning", "neural network",
    "regression", "classification", "clustering"
  ]

  /** `w in t` as a test on `w`. */
  function OccursIn(t: string): string -> bool {
    w => Contains(t, w)
  }

  /** The words of `ws` that occur in `t`, in list order. */
  function Present(ws: seq<string>, t: string): seq<string> {
    Filter(ws, OccursIn(t))
  }

  /** The words present are those of `ws` that occur in `t`, in list order. */
  lemma PresentWords(ws: seq<string>, t: string)
    ensures forall w :: w in Present(ws, t) <==> w in ws && Contains(t, w)
    ensures SubsequenceOf(Present(ws, t), ws)
  {
    FilterMembers(ws, OccursIn(t));
    FilterSubsequence(ws, OccursIn(t));
  }

  /** `any(w in t for w in ws)` */
  predicate AnyIn(t: string, ws: seq<string>) {
    exists k :: 0 <= k < |ws| && Contains(t, ws[k])
  }

  /** The research-design buckets and their trigger words. */
  const DesignPatterns: seq<(string, seq<string>)> := [
    ("experimental", ["experiment", "trial", "test", "control group"]),
    ("observational", ["observe", "survey", "questionnaire", "interview"]),
    ("theoretical", ["theory", "model", "framework", "conceptual"]),
    ("computational", ["algorithm", "simulation", "computation", "software"])
  ]

  /** The names of the buckets of `bs` that some trigger word of theirs
      selects in `t`, in bucket order. */
  function DesignsOf(bs: seq<(string, seq<string>)>, t: string): seq<string> {
    if bs == [] then []
    else
      var b := bs[|bs| - 1];
      DesignsOf(bs[..|bs| - 1], t) + if AnyIn(t, b.1) then [b.0] else []
  }

  /** The design loop of `extract_methodology` over the lowered text. */
  method ResearchDesign(lowered: string) returns (design: seq<string>)
    ensures design == DesignsOf(DesignPatterns, lowered)
  {
    design := [];
    for k := 0 to |DesignPatterns|
      invariant design == DesignsOf(DesignPatterns[..k], lowered)
    {
      assert DesignPatterns[..k + 1][..k] == DesignPatterns[..k];
      if AnyIn(lowered, DesignPatterns[k].1) {
        design := design + [DesignPatterns[k].0];
      }
    }
    assert DesignPatterns[..|DesignPatterns|] == DesignPatterns;
  }

  /** Each design appears at most once, in the order experimental,
      observational, theoretical, computational, exactly when one of its
      trigger words occurs. */
  lemma ResearchDesignCases(t: string)
    ensures DesignsOf(DesignPatterns, t) ==
      (if AnyIn(t, DesignPatterns[0].1) then ["experimental"] else [])
      + (if AnyIn(t, DesignPatterns[1].1) then ["observational"] else [])
      + (if AnyIn(t, DesignPatterns[2].1) then ["theoretical"] else [])
      + (if AnyIn(t, DesignPatterns[3].1) then ["computational"] else [])
  {
    var ps := DesignPatterns;
    assert ps[..1][..0] == [];
    assert DesignsOf(ps[..1], t) == if AnyIn(t, ps[0].1) then [ps[0].0] else [];
    assert ps[..2][..1] == ps[..1];
    assert DesignsOf(ps[..2], t) == DesignsOf(ps[..1], t) + if AnyIn(t, ps[1].1) then [ps[1].0] else [];
    assert ps[..3][..2] == ps[..2];
    assert DesignsOf(ps[..3], t) == DesignsOf(ps[..2], t) + if AnyIn(t, ps[2].1) then [ps[2].0] else [];
    assert ps[..|ps| - 1] == ps[..3];
    assert DesignsOf(ps, t) == DesignsOf(ps[..3], t) + if AnyIn(t, ps[3].1) then [ps[3].0] else [];
  }

  /** The data-collection line of the narrative. */
  function DataCollection(t: string): string {
    if AnyIn(t, ["survey", "questionnaire"]) then "Survey/Questionnaire based"
    else if AnyIn(t, ["experiment", "algorithm"]) then "Experimental/Computational"
    else "Mixed methods"
  }

  /** The tools line of the narrative; `ai` is a plain substring test. */
  function ToolsUsed(t: string): string {
    if AnyIn(t, ["machine learning", "ai", "neural"]) then "Machine Learning/AI"
    else if AnyIn(t, ["statistical", "regression"]) then "Statistical Analysis"
    else "General computational tools"
  }

  /** The sample-size line of the narrative. */
  function SampleSize(t: string): string {
    if AnyIn(t, ["large", "big data", "dataset"]) then "Large scale" else "Standard sample size"
  }

  /** The `methodology_analysis` narrative after `strip()`, which removes only
      the newline before its first line and the indentation after its last. */
  function MethodologyText(design: seq<string>, found: seq<string>, t: string): string {
    "Research Design: " + (if design == [] then "Not clearly identified" else Join(design, ", "))
    + "\n\nData Collection Methods: " + DataCollection(t)
    + "\n\nAnalysis Techniques: " + (if found == [] then "Standard analytical methods" else Join(Take(found, 5), ", "))
    + "\n\nTools and Technologies: " + ToolsUsed(t)
    + "\n\nSample Size: " + SampleSize(t)
  }

  datatype MethodologyReport = MethodologyReport(
    analysis: string, researchMethods: seq<string>, confidencePercent: nat, techniques: seq<string>)

  /** `extract_methodology` */
  method ExtractMethodology(text: string) returns (report: MethodologyReport)
    ensures var found := Present(MethodKeywords, Lower(text));
      && report.researchMethods == Take(found, 10)
      && report.techniques == Take(found, 5)
      && report.analysis == MethodologyText(DesignsOf(DesignPatterns, Lower(text)), found, Lower(text))
    ensures report.confidencePercent == 70
  {
    var lowered := Lower(text);
    var found := FindWords(MethodKeywords, lowered);
    var design := ResearchDesign(lowered);
    report := MethodologyReport(MethodologyText(design, found, lowered), Take(found, 10), 70, Take(found, 5));
  }

  /** The loop that appends the words of `ws` found in `t`. */
  method FindWords(ws: seq<string>, t: string) returns (found: seq<string>)
    ensures found == Present(ws, t)
  {
    found := KeepWhere(ws, OccursIn(t));
  }

  /** What is reported from the keyword list `ws`: at most `n` words, each a
      word of `ws` that occurs in `t`, in the order of `ws`; and when no more
      than `n` of them occur, every one of them. */
  lemma {:induction false} ReportedKeywords(ws: seq<string>, t: string, n: nat)
    ensures |Take(Present(ws, t), n)| <= n
    ensures forall m :: m in Take(Present(ws, t), n) ==> m in ws && Contains(t, m)
    ensures SubsequenceOf(Take(Present(ws, t), n), ws)
    ensures |Present(ws, t)| <= n ==> forall m :: m in ws && Contains(t, m) ==> m in Take(Present(ws, t), n)
  {
    PresentWords(ws, t);
    SubsequenceOfTake(Present(ws, t), ws, n);
  }

  // ---------------------------------------------------------------------------
  // semantic_search

  /** A search result. Its similarity is `score / words`, where `words` is the
      number of query words. */
  datatype SearchHit = SearchHit(text: string, score: nat, words: nat, chunkIndex: nat)

  datatype SearchReport = SearchReport(query: string, results: seq<SearchHit>, totalChunks: nat)

  /** The relevance loop: how many of the query words `qs`, repeats included,
      occur in `t`. */
  method CountPresent(qs: seq<string>, t: string) returns (score: nat)
    ensures score == |Present(qs, t)|
  {
    score := 0;
    assert qs[0..] == qs;
    for k := 0 to |qs|
      invariant score + |Filter(qs[k..], OccursIn(t))| == |Present(qs, t)|
    {
      assert qs[k..][1..] == qs[k + 1..];
      if Contains(t, qs[k]) {
        score := score + 1;
      }
    }
  }

  /** The result that piece `i` of the split text gives for the query words
      `qs`: it needs at least 20 characters after stripping, a positive score
      and a similarity above 0.3. */
  function HitAt(piece: string, i: nat, qs: seq<string>): Option<SearchHit> {
    var text := Strip(piece);
    var score := |Present(qs, Lower(text))|;
    if |text| >= 20 && score > 0 && 10 * score > 3 * |qs| then Some(SearchHit(text, score, |qs|, i))
    else None
  }

  /** The values that `f` gives for the items of `xs` with their indices,
      in order, skipping `None`. */
  function Collect<A, B>(xs: seq<A>, f: (A, nat) -> Option<B>): seq<B> {
    if xs == [] then []
    else
      var i := |xs| - 1;
      Collect(xs[..i], f) + if f(xs[i], i).Some? then [f(xs[i], i).value] else []
  }

  /** Every value that `f` gives is collected. */
  lemma {:induction false} CollectComplete<A, B>(xs: seq<A>, f: (A, nat) -> Option<B>, i: nat)
    requires i < |xs| && f(xs[i], i).Some?
    ensures f(xs[i], i).value in Collect(xs, f)
  {
    var last := |xs| - 1;
    if i < last {
      assert xs[..last][i] == xs[i];
      CollectComplete(xs[..last], f, i);
    }
  }

  lemma {:induction false} CollectNone<A, B>(xs: seq<A>, f: (A, nat) -> Option<B>)
    requires forall i :: 0 <= i < |xs| ==> f(xs[i], i).None?
    ensures Collect(xs, f) == []
  {
    if xs != [] {
      var last := |xs| - 1;
      assert forall i :: 0 <= i < last ==> xs[..last][i] == xs[i];
      CollectNone(xs[..last], f);
    }
  }
  /** Each collected value comes from the item at the index `idx` reads off
      it, and the indices increase along the result. */
  lemma {:induction false} CollectSound<A, B>(xs: seq<A>, f: (A, nat) -> Option<B>, idx: B -> nat)
    requires forall x, i :: f(x, i).Some? ==> idx(f(x, i).value) == i
    ensures forall k :: 0 <= k < |Collect(xs, f)| ==>
      && idx(Collect(xs, f)[k]) < |xs|
      && f(xs[idx(Collect(xs, f)[k])], idx(Collect(xs, f)[k])) == Some(Collect(xs, f)[k])
    ensures forall k, l :: 0 <= k < l < |Collect(xs, f)| ==> idx(Collect(xs, f)[k]) < idx(Collect(xs, f)[l])
  {
    if xs != [] {
      var i := |xs| - 1;
      var front := xs[..i];
      CollectSound(front, f, idx);
      var hs := Collect(front, f);
      forall k | 0 <= k < |hs|
        ensures idx(hs[k]) < i && f(xs[idx(hs[k])], idx(hs[k])) == Some(hs[k])
      {
        assert xs[idx(hs[k])] == front[idx(hs[k])];
      }
    }
  }

  function HitFor(qs: seq<string>): (string, nat) -> Option<SearchHit> {
    (piece: string, i: nat) => HitAt(piece, i, qs)
  }

  /** The results list of `semantic_search` before sorting. */
  function HitsOf(pieces: seq<string>, qs: seq<string>): seq<SearchHit> {
    Collect(pieces, HitFor(qs))
  }

  /** `h` is the result of piece `h.chunkIndex` of `pieces`. */
  predicate ValidHit(h: SearchHit, pieces: seq<string>, qs: seq<string>) {
    h.chunkIndex < |pieces| && HitAt(pieces[h.chunkIndex], h.chunkIndex, qs) == Some(h)
  }

  /** What a result says about its piece. */
  predicate Relevant(h: SearchHit, pieces: seq<string>, qs: seq<string>) {
    && h.chunkIndex < |pieces|
    && h.text == Strip(pieces[h.chunkIndex])
    && |h.text| >= 20
    && h.words == |qs|
    && h.score == |Present(qs, Lower(h.text))|
    && h.score > 0
    && 10 * h.score > 3 * h.words
  }

  lemma ValidHitRelevant(h: SearchHit, pieces: seq<string>, qs: seq<string>)
    requires ValidHit(h, pieces, qs)
    ensures Relevant(h, pieces, qs)
  {
  }

  predicate ValidHits(hits: seq<SearchHit>, pieces: seq<string>, qs: seq<string>) {
    forall k :: 0 <= k < |hits| ==> ValidHit(hits[k], pieces, qs)
  }

  /** Results are listed by strictly increasing piece index. */
  predicate IncreasingChunks(hits: seq<SearchHit>) {
    forall k, l :: 0 <= k < l < |hits| ==> hits[k].chunkIndex < hits[l].chunkIndex
  }

  /** Each unsorted result is the result of its piece, and they come in text
      order. */
  lemma {:induction false} HitsOfSound(pieces: seq<string>, qs: seq<string>)
    ensures ValidHits(HitsOf(pieces, qs), pieces, qs)
    ensures IncreasingChunks(HitsOf(pieces, qs))
  {
    HitIndex(qs);
    CollectSound(pieces, HitFor(qs), ChunkOf);
  }

  function ChunkOf(h: SearchHit): nat {
    h.chunkIndex
  }

  /** Every result of piece `i` records `i` as its piece index. */
  lemma HitIndex(qs: seq<string>)
    ensures forall x, i :: HitFor(qs)(x, i).Some? ==> ChunkOf(HitFor(qs)(x, i).value) == i
  {
  }

  /** Every piece that passes the tests gives a result. */
  lemma HitsOfComplete(pieces: seq<string>, qs: seq<string>, i: nat)
    requires i < |pieces| && HitAt(pieces[i], i, qs).Some?
    ensures HitAt(pieces[i], i, qs).value in HitsOf(pieces, qs)
  {
    CollectComplete(pieces, HitFor(qs), i);
  }

  /** The ranking key of a hit. The similarity `score / words` has the same
      denominator for every hit of one query, so ranking by score is ranking
      by similarity. */
  const HitScore: SearchHit -> int := (h: SearchHit) => h.score

  /** `sorted(results, key=similarity, reverse=True)[:5]` */
  function TopHits(hits: seq<SearchHit>): seq<SearchHit> {
    Top(hits, HitScore, 5)
  }

  /** The results are ordered by descending score and, between equal scores,
      by ascending piece index. */
  lemma TopHitsOrdered(hits: seq<SearchHit>)
    requires IncreasingChunks(hits)
    ensures var res := TopHits(hits);
      forall i, j :: 0 <= i < j < |res| ==>
        res[i].score > res[j].score || (res[i].score == res[j].score && res[i].chunkIndex < res[j].chunkIndex)
  {
    var res := TopHits(hits);
    TopOrdered(hits, HitScore, 5);
    forall i, j | 0 <= i < j < |res|
      ensures res[i].score > res[j].score || (res[i].score == res[j].score && res[i].chunkIndex < res[j].chunkIndex)
    {
      assert HitScore(res[i]) == res[i].score && HitScore(res[j]) == res[j].score;
      if res[i].score == res[j].score {
        var p, q :| 0 <= p < q < |hits| && hits[p] == res[i] && hits[q] == res[j];
      }
    }
  }

  /** `semantic_search` */
  method SemanticSearch(query: string, paperText: string) returns (report: SearchReport)
    ensures report.query == query
    ensures report.results == TopHits(HitsOf(Split(paperText, '.'), Words(Lower(query))))
    ensures report.totalChunks == |Split(paperText, '.')|
  {
    var sentences := Split(paperText, '.');
    var qs := Words(Lower(query));
    var hits: seq<SearchHit> := [];
    for i := 0 to |sentences|
      invariant hits == HitsOf(sentences[..i], qs)
    {
      assert sentences[..i + 1][..i] == sentences[..i];
      var sentence := Strip(sentences[i]);
      if |sentence| < 20 {
        continue;
      }
      var score := CountPresent(qs, Lower(sentence));
      if score > 0 && 10 * score > 3 * |qs| {
        hits := hits + [SearchHit(sentence, score, |qs|, i)];
      }
    }
    assert sentences[..|sentences|] == sentences;
    report := SearchReport(query, TopHits(hits), |sentences|);
  }

  /** What `semantic_search` reports: at most five results, ranked as stated,
      each a stripped piece of at least 20 characters at its own index that
      passes the similarity threshold. */
  lemma SearchResultsValid(pieces: seq<string>, qs: seq<string>)
    ensures var res := TopHits(HitsOf(pieces, qs));
      && |res| <= 5
      && (forall r :: r in res ==> Relevant(r, pieces, qs))
      && (forall i, j :: 0 <= i < j < |res| ==>
            res[i].score > res[j].score || (res[i].score == res[j].score && res[i].chunkIndex < res[j].chunkIndex))
  {
    var hits := HitsOf(pieces, qs);
    HitsOfSound(pieces, qs);
    TopFrom(hits, HitScore, 5);
    TopHitsOrdered(hits);
    forall r | r in TopHits(hits)
      ensures Relevant(r, pieces, qs)
    {
      var k :| 0 <= k < |hits| && hits[k] == r;
      ValidHitRelevant(r, pieces, qs);
    }
  }

  /** A piece that passes the tests is shown, unless five results score at
      least as high. */
  lemma SearchResultsComplete(pieces: seq<string>, qs: seq<string>, i: nat)
    requires i < |pieces| && HitAt(pieces[i], i, qs).Some?
    ensures var res := TopHits(HitsOf(pieces, qs));
      var h := HitAt(pieces[i], i, qs).value;
      h in res || (|res| == 5 && h.score <= res[4].score)
  {
    HitsOfComplete(pieces, qs, i);
    TopBest(HitsOf(pieces, qs), HitScore, 5, HitAt(pieces[i], i, qs).value);
  }

  /** A query none of whose words occurs in any piece finds nothing. */
  lemma NoMatchNoHits(pieces: seq<string>, qs: seq<string>)
    requires forall i, w :: 0 <= i < |pieces| && w in qs ==> !Contains(Lower(Strip(pieces[i])), w)
    ensures HitsOf(pieces, qs) == []
  {
    forall i | 0 <= i < |pieces|
      ensures HitFor(qs)(pieces[i], i).None?
    {
      NothingPresent(qs, Lower(Strip(pieces[i])));
    }
    CollectNone(pieces, HitFor(qs));
  }

  lemma NothingPresent(qs: seq<string>, t: string)
    requires forall w :: w in qs ==> !Contains(t, w)
    ensures Present(qs, t) == []
  {
    FilterNone(qs, OccursIn(t));
  }

  /** An empty query, or one sharing no substring with any piece, gives an
      empty result list. */
  lemma NoMatchNoResults(pieces: seq<string>, qs: seq<string>)
    requires forall i, w :: 0 <= i < |pieces| && w in qs ==> !Contains(Lower(Strip(pieces[i])), w)
    ensures TopHits(HitsOf(pieces, qs)) == []
  {
    NoMatchNoHits(pieces, qs);
  }

  lemma EmptyQueryNoResults(paperText: string)
    ensures TopHits(HitsOf(Split(paperText, '.'), Words(Lower("")))) == []
  {
    assert Words(Lower("")) == [];
    NoMatchNoResults(Split(paperText, '.'), []);
  }

  // ---------------------------------------------------------------------------
  // find_related_papers

  /** Capitalised words the filter of `find_related_papers` drops. */
  const TitleStopWords: seq<string> := ["The", "This", "That", "With", "From", "For"]

  /** `len(term) > 2 and term not in [...]` */
  predicate KeptTerm(t: string) {
    |t| > 2 && t !in TitleStopWords
  }

  /** The distinct technical terms of the title and the first 1000 characters
      of the text. */
  function TermsOfPaper(paperText: string, title: string): (r: set<string>)
    ensures forall t :: t in r <==> t in FindAll(AcronymOrPhrase, title + " " + Take(paperText, 1000)) && KeptTerm(t)
  {
    set t | t in FindAll(AcronymOrPhrase, title + " " + Take(paperText, 1000)) && KeptTerm(t)
  }

  datatype PaperStub = PaperStub(title: string, authors: seq<string>, summary: string, url: string, published: string)

  datatype RelatedReport = RelatedReport(
    arxiv: seq<PaperStub>, semanticScholar: seq<string>, keyConcepts: seq<string>, searchStrategy: string)

  /** The address prefix of the mock arXiv links. */
  const ArxivAbstracts: string := "https:" + ['/', '/'] + "arxiv.org/abs/"

  /** The mocked listing built from the key concepts. */
  function RelatedPapersFor(keyConcepts: seq<string>): (r: RelatedReport)
    ensures r.keyConcepts == keyConcepts && r.searchStrategy == "keyword_based"
    ensures r.arxiv == [] <==> keyConcepts == []
    ensures keyConcepts != [] ==>
      && |r.arxiv| == 2
      && r.arxiv[0].title == "Related Research on " + keyConcepts[0]
      && r.arxiv[1].title == "Advances in " + (if |keyConcepts| > 1 then keyConcepts[1] else "Related Field")
    ensures r.semanticScholar == ["Semantic Scholar integration requires API key"]
  {
    var arxiv :=
      if keyConcepts == [] then []
      else
        [ PaperStub("Related Research on " + keyConcepts[0], ["Smith, J.", "Johnson, A."],
            "This paper explores similar concepts related to " + Join(Take(keyConcepts, 2), ", ") + "...",
            ArxivAbstracts + "example1", "2023-01-15"),
          PaperStub("Advances in " + (if |keyConcepts| > 1 then keyConcepts[1] else "Related Field"), ["Brown, K.", "Davis, M."],
            "Recent developments in " + keyConcepts[0] + " with applications...",
            ArxivAbstracts + "example2", "2023-03-22") ];
    RelatedReport(arxiv, ["Semantic Scholar integration requires API key"], keyConcepts, "keyword_based")
  }

  /** `find_related_papers`. The order of the key concepts is that of a Python
      set, which the model leaves open. */
  method FindRelatedPapers(paperText: string, title: string) returns (report: RelatedReport)
    ensures report == RelatedPapersFor(report.keyConcepts)
    ensures Distinct(report.keyConcepts)
    ensures |report.keyConcepts| == Min(10, |TermsOfPaper(paperText, title)|)
    ensures forall c :: c in report.keyConcepts ==> c in TermsOfPaper(paperText, title)
  {
    var terms := Enumerate(TermsOfPaper(paperText, title));
    TakeDistinct(terms, 10);
    report := RelatedPapersFor(Take(terms, 10));
  }

  // ---------------------------------------------------------------------------
  // identify_research_gaps

  /** The limitation and future-work indicators. */
  const GapIndicators: seq<string> := [
    "limitation", "constraint", "drawback", "shortcoming", "weakness",
    "challenge", "future work", "future research", "further study",
    "not addressed", "remains unclear", "needs investigation"
  ]

  /** The test of the indicator loop for one `.`-piece: some indicator occurs
      in the lowered piece and the stripped piece is longer than 30. */
  predicate IsGap(piece: string, ws: seq<string>) {
    |Strip(piece)| > 30 && AnyIn(Lower(piece), ws)
  }

  function GapTest(ws: seq<string>): string -> bool {
    piece => IsGap(piece, ws)
  }

  const Stripped: string -> string := s => Strip(s)

  /** `gap_sentences`: the pieces that pass the test, stripped, in text order. */
  function GapsOf(pieces: seq<string>, ws: seq<string>): seq<string> {
    Map(Filter(pieces, GapTest(ws)), Stripped)
  }

  /** The indicator loop: it stops at the first word of `ws` that occurs in
      `t`. */
  method FirstOccurring(t: string, ws: seq<string>) returns (found: bool)
    ensures found == AnyIn(t, ws)
  {
    found := false;
    var k := 0;
    while k < |ws|
      invariant k <= |ws|
      invariant forall j :: 0 <= j < k ==> !Contains(t, ws[j])
    {
      if Contains(t, ws[k]) {
        found := true;
        break;
      }
      k := k + 1;
    }
  }

  /** The test of one piece: the indicator loop over the lowered piece, with
      the length test that guards the append. */
  method GapPiece(piece: string, ws: seq<string>) returns (gap: bool)
    ensures gap == IsGap(piece, ws)
  {
    var found := FirstOccurring(Lower(piece), ws);
    gap := found && |Strip(piece)| > 30;
  }

  /** The gap-sentence loop. */
  method CollectGaps(pieces: seq<string>, ws: seq<string>) returns (gaps: seq<string>)
    ensures gaps == GapsOf(pieces, ws)
  {
    gaps := [];
    assert pieces[0..] == pieces;
    for i := 0 to |pieces|
      invariant GapsOf(pieces, ws) == gaps + Map(Filter(pieces[i..], GapTest(ws)), Stripped)
    {
      var gap := GapPiece(pieces[i], ws);
      GapsStep(pieces, ws, i, gaps);
      if gap {
        gaps := gaps + [Strip(pieces[i])];
      }
    }
  }

  /** One step of the gap-sentence loop: piece `i` adds its stripped text
      exactly when it is a gap. */
  lemma GapsStep(pieces: seq<string>, ws: seq<string>, i: nat, gaps: seq<string>)
    requires i < |pieces|
    requires GapsOf(pieces, ws) == gaps + Map(Filter(pieces[i..], GapTest(ws)), Stripped)
    ensures GapsOf(pieces, ws) == (if IsGap(pieces[i], ws) then gaps + [Strip(pieces[i])] else gaps)
                                  + Map(Filter(pieces[i + 1..], GapTest(ws)), Stripped)
  {
    MapFilterStep(pieces[i..], GapTest(ws), Stripped);
    assert pieces[i..][1..] == pieces[i + 1..];
    assert GapTest(ws)(pieces[i]) == IsGap(pieces[i], ws);
    ConcatAssoc(gaps, [Strip(pieces[i])], Map(Filter(pieces[i + 1..], GapTest(ws)), Stripped));
  }

  /** A gap sentence is a stripped piece longer than 30 characters in which
      some indicator occurs, and every such piece gives one; each piece gives
      at most one, in text order. */
  lemma GapSentences(pieces: seq<string>, ws: seq<string>)
    ensures forall g :: g in GapsOf(pieces, ws) <==> exists i :: 0 <= i < |pieces| && IsGap(pieces[i], ws) && g == Strip(pieces[i])
    ensures GapsOf(pieces, ws) == Map(Filter(pieces, GapTest(ws)), Stripped)
    ensures SubsequenceOf(Filter(pieces, GapTest(ws)), pieces)
    ensures forall p :: p in Filter(pieces, GapTest(ws)) <==> p in pieces && IsGap(p, ws)
  {
    MapFilterMembers(pieces, GapTest(ws), Stripped);
    FilterMembers(pieces, GapTest(ws));
    FilterSubsequence(pieces, GapTest(ws));
  }

  /** `any(word in s.lower() for s in gaps)` */
  predicate Mentioned(gaps: seq<string>, word: string) {
    exists k :: 0 <= k < |gaps| && Contains(Lower(gaps[k]), word)
  }

  const GapLabels: seq<string> := ["Methodological", "Theoretical", "Empirical", "Technological"]

  /** The four tests of `identify_research_gaps`, in order. */
  function GapFlags(gaps: seq<string>): (r: seq<bool>)
    ensures |r| == 4
  {
    [Mentioned(gaps, "method"), Mentioned(gaps, "theory"), Mentioned(gaps, "data"), Mentioned(gaps, "technology")]
  }

  /** `categories`, before `or ['General']`. */
  function GapCategories(gaps: seq<string>): seq<string> {
    Select(GapFlags(gaps), GapLabels)
  }

  /** `gap_categories`: `General` alone exactly when no gap sentence mentions
      any stem; otherwise the categories whose stem some gap sentence
      mentions, in the fixed order. */
  lemma GapCategoriesCases(gaps: seq<string>)
    ensures var c := SelectOr(GapFlags(gaps), GapLabels, "General");
      && (c == ["General"] <==> !Mentioned(gaps, "method") && !Mentioned(gaps, "theory")
                                && !Mentioned(gaps, "data") && !Mentioned(gaps, "technology"))
      && ("Methodological" in c <==> Mentioned(gaps, "method"))
      && ("Theoretical" in c <==> Mentioned(gaps, "theory"))
      && ("Empirical" in c <==> Mentioned(gaps, "data"))
      && ("Technological" in c <==> Mentioned(gaps, "technology"))
      && (c == ["General"] || SubsequenceOf(c, GapLabels))
  {
    LabelsDistinct(GapLabels);
    SelectOrFour(GapFlags(gaps), GapLabels, "General");
  }

  lemma LabelsDistinct(labels: seq<string>)
    requires labels == GapLabels
    ensures Distinct(labels) && "General" !in labels
  {
  }

  /** `'Present' if name in categories else 'Not identified'` */
  function Presence(categories: seq<string>, name: string): string {
    if name in categories then "Present" else "Not identified"
  }

  /** The bullet of one gap sentence. */
  function GapBullet(s: string): string {
    "\U{2022} " + Take(s, 100) + "..."
  }

  /** The `research_gaps` narrative after `strip()`, which removes only the
      newline before its first line and the indentation after its last. */
  function GapNarrative(categories: seq<string>, gaps: seq<string>): string {
    "Identified Research Gaps:\n\n1. Methodological Gaps: " + Presence(categories, "Methodological")
    + "\n2. Theoretical Gaps: " + Presence(categories, "Theoretical")
    + "\n3. Empirical Gaps: " + Presence(categories, "Empirical")
    + "\n4. Technological Gaps: " + Presence(categories, "Technological")
    + "\n\nKey Limitations Found:\n"
    + (if gaps == [] then "\U{2022} No explicit limitations mentioned"
       else Join(Map(Take(gaps, 3), GapBullet), "\n"))
    + "\n\nFuture Research Directions:\n\U{2022} Extend current methodology to larger datasets"
    + "\n\U{2022} Investigate alternative approaches\n\U{2022} Address identified limitations"
    + "\n\U{2022} Explore cross-domain applications"
  }

  datatype GapReport = GapReport(
    researchGaps: string, identifiedLimitations: seq<string>, gapCategories: seq<string>, confidencePercent: nat)

  /** The report built from the gap sentences. */
  function GapReportOf(gaps: seq<string>): (r: GapReport)
    ensures r.identifiedLimitations == Take(gaps, 5)
    ensures r.gapCategories == SelectOr(GapFlags(gaps), GapLabels, "General")
    ensures r.confidencePercent == 60 <==> gaps != []
    ensures r.confidencePercent == 30 <==> gaps == []
  {
    GapReport(
      GapNarrative(GapCategories(gaps), gaps), Take(gaps, 5),
      SelectOr(GapFlags(gaps), GapLabels, "General"),
      if gaps != [] then 60 else 30)
  }

  /** `identify_research_gaps` */
  method IdentifyResearchGaps(text: string) returns (report: GapReport)
    ensures report == GapReportOf(GapsOf(Split(text, '.'), GapIndicators))
  {
    var gaps := CollectGaps(Split(text, '.'), GapIndicators);
    report := GapReportOf(gaps);
  }

  // ---------------------------------------------------------------------------
  // create_concept_map

  /** Proper nouns, acronyms and words with a common noun ending. */
  const ConceptPatterns: seq<Pattern> := [CapitalisedPhrase, Acronym, NounEnding]

  const ConceptStopWords: seq<string> := ["The", "This", "That", "With", "From", "For", "And", "Or", "But"]

  /** `len(concept) > 2 and concept not in stop_words and len(concept) < 30` */
  predicate KeptConcept(c: string) {
    |c| > 2 && c !in ConceptStopWords && |c| < 30
  }

  const KeepConcept: string -> bool := c => KeptConcept(c)

  /** The distinct concepts that pass the filter; the patterns see only the
      first 2000 characters. */
  function ConceptsOf(text: string): (r: set<string>)
    ensures forall c :: c in r <==> c in MatchesOf(ConceptPatterns, Take(text, 2000)) && KeptConcept(c)
  {
    set c | c in MatchesOf(ConceptPatterns, Take(text, 2000)) && KeptConcept(c)
  }

  /** `{'source': a, 'target': b}` */
  datatype Link = Link(source: string, target: string)

  datatype ConceptMap = ConceptMap(nodes: seq<string>, edges: seq<Link>, totalConcepts: nat, totalConnections: nat)

  /** Row `i` of the pair loops, up to (not including) `cs[j]`: a link from
      `cs[i]` to each later concept it is related to. */
  function RowLinks(cs: seq<string>, i: nat, j: nat, related: (string, string) -> bool): seq<Link>
    requires i < j <= |cs|
    decreases j
  {
    if j == i + 1 then []
    else RowLinks(cs, i, j - 1, related) + if related(cs[i], cs[j - 1]) then [Link(cs[i], cs[j - 1])] else []
  }

  /** The links of the first `n` rows of the pair loops. */
  function Links(cs: seq<string>, n: nat, related: (string, string) -> bool): seq<Link>
    requires n <= |cs|
  {
    if n == 0 then [] else Links(cs, n - 1, related) + RowLinks(cs, n - 1, |cs|, related)
  }

  /** `l` joins `cs[i]` to a later `cs[j]` it is related to. */
  predicate LinkAt(l: Link, cs: seq<string>, i: int, j: int, related: (string, string) -> bool) {
    0 <= i < j < |cs| && l == Link(cs[i], cs[j]) && related(cs[i], cs[j])
  }

  lemma {:induction false} RowLinksSound(cs: seq<string>, i: nat, j: nat, related: (string, string) -> bool)
    requires i < j <= |cs|
    ensures forall l :: l in RowLinks(cs, i, j, related) ==> exists m: int :: i < m < j && LinkAt(l, cs, i, m, related)
    decreases j
  {
    if j > i + 1 {
      RowLinksSound(cs, i, j - 1, related);
      forall l | l in RowLinks(cs, i, j, related)
        ensures exists m: int :: i < m < j && LinkAt(l, cs, i, m, related)
      {
        if l !in RowLinks(cs, i, j - 1, related) {
          assert LinkAt(l, cs, i, j - 1, related);
        }
      }
    }
  }

  lemma {:induction false} RowLinksComplete(cs: seq<string>, i: nat, j: nat, related: (string, string) -> bool, m: nat)
    requires i < m < j <= |cs| && related(cs[i], cs[m])
    ensures Link(cs[i], cs[m]) in RowLinks(cs, i, j, related)
    decreases j
  {
    if m < j - 1 {
      RowLinksComplete(cs, i, j - 1, related, m);
    }
  }

  lemma {:induction false} RowLinksDistinct(cs: seq<string>, i: nat, j: nat, related: (string, string) -> bool)
    requires i < j <= |cs| && Distinct(cs)
    ensures Distinct(RowLinks(cs, i, j, related))
    decreases j
  {
    if j > i + 1 {
      RowLinksDistinct(cs, i, j - 1, related);
      RowLinksSound(cs, i, j - 1, related);
      var front := RowLinks(cs, i, j - 1, related);
      assert Link(cs[i], cs[j - 1]) !in front;
    }
  }

  /** Every link of the first `n` rows joins a concept to a later one it is
      related to. */
  lemma {:induction false} LinksSound(cs: seq<string>, n: nat, related: (string, string) -> bool)
    requires n <= |cs|
    ensures forall l :: l in Links(cs, n, related) ==> exists i: int, j: int :: i < n && LinkAt(l, cs, i, j, related)
  {
    if n > 0 {
      LinksSound(cs, n - 1, related);
      RowLinksSound(cs, n - 1, |cs|, related);
    }
  }

  /** Every related pair of the first `n` rows is linked. */
  lemma {:induction false} LinksComplete(cs: seq<string>, n: nat, related: (string, string) -> bool, i: nat, j: nat)
    requires n <= |cs| && i < n && i < j < |cs| && related(cs[i], cs[j])
    ensures Link(cs[i], cs[j]) in Links(cs, n, related)
  {
    if i == n - 1 {
      RowLinksComplete(cs, i, |cs|, related, j);
    } else {
      LinksComplete(cs, n - 1, related, i, j);
    }
  }

  /** With distinct concepts, no link is repeated. */
  lemma {:induction false} LinksDistinct(cs: seq<string>, n: nat, related: (string, string) -> bool)
    requires n <= |cs| && Distinct(cs)
    ensures Distinct(Links(cs, n, related))
  {
    if n > 0 {
      LinksDistinct(cs, n - 1, related);
      RowLinksDistinct(cs, n - 1, |cs|, related);
      LinksSound(cs, n - 1, related);
      RowLinksSound(cs, n - 1, |cs|, related);
      var front := Links(cs, n - 1, related);
      var row := RowLinks(cs, n - 1, |cs|, related);
      forall a, b | 0 <= a < |front| && 0 <= b < |row|
        ensures front[a] != row[b]
      {
        assert front[a] in front && row[b] in row;
        var i, j :| i < n - 1 && LinkAt(front[a], cs, i, j, related);
      }
      var all := front + row;
      forall a, b | 0 <= a < b < |all|
        ensures all[a] != all[b]
      {
        if b < |front| {
          assert all[a] == front[a] && all[b] == front[b];
        } else if a >= |front| {
          assert all[a] == row[a - |front|] && all[b] == row[b - |front|];
        } else {
          assert all[a] == front[a] && all[b] == row[b - |front|];
        }
      }
    }
  }

  /** With distinct concepts, a link never joins a concept to itself and
      never appears in both directions. */
  lemma LinksOneWay(cs: seq<string>, n: nat, related: (string, string) -> bool)
    requires n <= |cs| && Distinct(cs)
    ensures forall l :: l in Links(cs, n, related) ==> l.source != l.target
    ensures forall l :: l in Links(cs, n, related) ==> Link(l.target, l.source) !in Links(cs, n, related)
  {
    LinksSound(cs, n, related);
    forall l | l in Links(cs, n, related)
      ensures l.source != l.target && Link(l.target, l.source) !in Links(cs, n, related)
    {
      var i, j :| i < n && LinkAt(l, cs, i, j, related);
    }
  }

  /** `concept1.lower() in sentence.lower() and concept2.lower() in
      sentence.lower()` for some sentence. */
  predicate CoOccur(a: string, b: string, sentences: seq<string>) {
    exists k :: 0 <= k < |sentences| && Contains(Lower(sentences[k]), Lower(a)) && Contains(Lower(sentences[k]), Lower(b))
  }

  function CoOccurIn(sentences: seq<string>): (string, string) -> bool {
    (a: string, b: string) => CoOccur(a, b, sentences)
  }

  /** The sentence loop, which stops at the first sentence holding both. */
  method CoOccurring(a: string, b: string, sentences: seq<string>) returns (found: bool)
    ensures found == CoOccur(a, b, sentences)
  {
    found := false;
    var k := 0;
    while k < |sentences|
      invariant k <= |sentences|
      invariant forall j :: 0 <= j < k ==> !(Contains(Lower(sentences[j]), Lower(a)) && Contains(Lower(sentences[j]), Lower(b)))
    {
      if Contains(Lower(sentences[k]), Lower(a)) && Contains(Lower(sentences[k]), Lower(b)) {
        found := true;
        break;
      }
      k := k + 1;
    }
  }

  /** The pair loops of `create_concept_map`. */
  method LinkConcepts(cs: seq<string>, sentences: seq<string>) returns (links: seq<Link>)
    ensures links == Links(cs, |cs|, CoOccurIn(sentences))
  {
    links := [];
    for i := 0 to |cs|
      invariant links == Links(cs, i, CoOccurIn(sentences))
    {
      var row := LinkRow(cs, i, sentences);
      links := links + row;
    }
  }

  /** The inner loop: concept `i` against each later one. */
  method LinkRow(cs: seq<string>, i: nat, sentences: seq<string>) returns (row: seq<Link>)
    requires i < |cs|
    ensures row == RowLinks(cs, i, |cs|, CoOccurIn(sentences))
  {
    row := [];
    var rel := CoOccurIn(sentences);
    for j := i + 1 to |cs|
      invariant row == RowLinks(cs, i, j, rel)
    {
      var related := CoOccurring(cs[i], cs[j], sentences);
      row := row + if related then [Link(cs[i], cs[j])] else [];
    }
  }

  /** The concepts that pass the filter, listed once each. */
  method ConceptNodes(text: string) returns (unique: seq<string>)
    ensures Distinct(unique)
    ensures |unique| == Min(15, |ConceptsOf(text)|)
    ensures forall c :: c in unique ==> c in ConceptsOf(text)
  {
    var concepts := CollectMatches(ConceptPatterns, Take(text, 2000));
    var filtered := KeepWhere(concepts, KeepConcept);
    FilterMembers(concepts, KeepConcept);
    var kept := set c | c in filtered;
    assert kept == ConceptsOf(text);
    var listed := Enumerate(kept);
    TakeDistinct(listed, 15);
    unique := Take(listed, 15);
  }

  /** `create_concept_map` */
  method CreateConceptMap(text: string) returns (m: ConceptMap)
    ensures Distinct(m.nodes)
    ensures |m.nodes| == Min(15, |ConceptsOf(text)|)
    ensures forall c :: c in m.nodes ==> c in ConceptsOf(text)
    ensures m.edges == Take(Links(m.nodes, |m.nodes|, CoOccurIn(Take(Split(text, '.'), 20))), 10)
    ensures m.totalConcepts == |m.nodes| && m.totalConnections == |m.edges|
  {
    var unique := ConceptNodes(text);
    var sentences := Take(Split(text, '.'), 20);
    var links := LinkConcepts(unique, sentences);
    m := ConceptMap(unique, Take(links, 10), |unique|, |Take(links, 10)|);
  }

  /** The edges of the map: at most ten, none repeated, none joining a node
      to itself or appearing in both directions, each joining two nodes that
      occur together in one of the first 20 pieces; and when no more than ten
      pairs do, every such pair. */
  lemma ConceptMapEdges(nodes: seq<string>, sentences: seq<string>)
    requires Distinct(nodes)
    ensures var edges := Take(Links(nodes, |nodes|, CoOccurIn(sentences)), 10);
      && |edges| <= 10
      && Distinct(edges)
      && (forall e :: e in edges ==> e.source in nodes && e.target in nodes && e.source != e.target)
      && (forall e :: e in edges ==> CoOccur(e.source, e.target, sentences))
      && (forall e :: e in edges ==> Link(e.target, e.source) !in edges)
  {
    var rel := CoOccurIn(sentences);
    var all := Links(nodes, |nodes|, rel);
    LinksSound(nodes, |nodes|, rel);
    LinksDistinct(nodes, |nodes|, rel);
    LinksOneWay(nodes, |nodes|, rel);
    TakeDistinct(all, 10);
    forall e | e in Take(all, 10)
      ensures e.source in nodes && e.target in nodes && CoOccur(e.source, e.target, sentences)
    {
      var i, j :| i < |nodes| && LinkAt(e, nodes, i, j, rel);
    }
  }

  /** Every pair of nodes that occurs together is linked, so an edge is left
      out only when ten come before it. */
  lemma ConceptMapComplete(nodes: seq<string>, sentences: seq<string>, i: nat, j: nat)
    requires i < j < |nodes| && CoOccur(nodes[i], nodes[j], sentences)
    ensures Link(nodes[i], nodes[j]) in Links(nodes, |nodes|, CoOccurIn(sentences))
  {
    LinksComplete(nodes, |nodes|, CoOccurIn(sentences), i, j);
  }
}
