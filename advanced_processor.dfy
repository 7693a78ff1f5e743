/** The deterministic helpers of `AdvancedPaperProcessor`: gap categories,
    sentence co-occurrence, technique and limitation spotting, the year and
    author summaries of parsed references, the citation graph and the entity
    concept graph. The language models, spaCy and refextract that feed them
    are not modelled: their outputs are parameters. */
module Advanced {
  import opened Wrappers
  import opened Text
  import opened Regex
  import opened Ranking
  import opened Graphs
  import opened SimpleAdvanced

  // ---------------------------------------------------------------------------
  // _categorize_gaps

  /** The four substring tests of `_categorize_gaps`, in order. */
  function CategoryFlags(gapsText: string): (r: seq<bool>)
    ensures |r| == 4
  {
    var t := Lower(gapsText);
    [Contains(t, "methodological"), Contains(t, "theoretical"), Contains(t, "empirical"), Contains(t, "technological")]
  }

  /** `_categorize_gaps` */
  method CategorizeGaps(gapsText: string) returns (categories: seq<string>)
    ensures categories == SelectOr(CategoryFlags(gapsText), GapLabels, "General")
  {
    var t := Lower(gapsText);
    ghost var f := CategoryFlags(gapsText);
    categories := [];
    if Contains(t, "methodological") {
      categories := categories + ["Methodological"];
    }
    if Contains(t, "theoretical") {
      categories := categories + ["Theoretical"];
    }
    if Contains(t, "empirical") {
      categories := categories + ["Empirical"];
    }
    if Contains(t, "technological") {
      categories := categories + ["Technological"];
    }
    SelectFour(f, GapLabels);
    if categories == [] {
      categories := ["General"];
    }
  }

  /** `Select` over four flags, written out. */
  lemma SelectFour<T>(f: seq<bool>, labels: seq<T>)
    requires |f| == 4 && |labels| == 4
    ensures Select(f, labels) ==
      (if f[0] then [labels[0]] else []) + ((if f[1] then [labels[1]] else [])
      + ((if f[2] then [labels[2]] else []) + (if f[3] then [labels[3]] else [])))
  {
    assert Select(f[3..], labels[3..]) == if f[3] then [labels[3]] else [] by {
      assert labels[3..][1..] == [];
    }
    assert Select(f[2..], labels[2..]) == (if f[2] then [labels[2]] else []) + Select(f[3..], labels[3..]) by {
      assert f[2..][1..] == f[3..] && labels[2..][1..] == labels[3..];
    }
    assert Select(f[1..], labels[1..]) == (if f[1] then [labels[1]] else []) + Select(f[2..], labels[2..]) by {
      assert f[1..][1..] == f[2..] && labels[1..][1..] == labels[2..];
    }
  }

  /** A category is listed exactly when its word occurs, ignoring case; the
      categories keep their fixed order; `General` stands alone when no word
      occurs. */
  lemma CategorizeGapsCases(gapsText: string)
    ensures var t := Lower(gapsText);
      var c := SelectOr(CategoryFlags(gapsText), GapLabels, "General");
      && (c == ["General"] <==> !Contains(t, "methodological") && !Contains(t, "theoretical")
                                && !Contains(t, "empirical") && !Contains(t, "technological"))
      && ("Methodological" in c <==> Contains(t, "methodological"))
      && ("Theoretical" in c <==> Contains(t, "theoretical"))
      && ("Empirical" in c <==> Contains(t, "empirical"))
      && ("Technological" in c <==> Contains(t, "technological"))
      && (c == ["General"] || SubsequenceOf(c, GapLabels))
  {
    LabelsDistinct(GapLabels);
    SelectOrFour(CategoryFlags(gapsText), GapLabels, "General");
  }

  // ---------------------------------------------------------------------------
  // _concepts_related

  /** `_concepts_related`: true exactly when some `.`-piece of the text holds
      both concepts, ignoring case, so the order of the two does not matter. */
  method ConceptsRelated(a: string, b: string, text: string) returns (related: bool)
    ensures related == CoOccur(a, b, Split(text, '.'))
    ensures related == CoOccur(b, a, Split(text, '.'))
  {
    var sentences := Split(text, '.');
    related := CoOccurring(a, b, sentences);
  }

  // ---------------------------------------------------------------------------
  // _identify_techniques

  const TechniquePatterns: seq<string> := [
    "machine learning", "deep learning", "neural network", "regression",
    "classification", "clustering", "statistical analysis", "correlation",
    "ANOVA", "t-test", "chi-square", "factor analysis"
  ]

  /** `re.search(pattern, text, re.IGNORECASE)` for a pattern without
      special characters. */
  function UsedIn(text: string): string -> bool {
    (p: string) => Contains(Lower(text), Lower(p))
  }

  /** `_identify_techniques` */
  method IdentifyTechniques(text: string) returns (techniques: seq<string>)
    ensures techniques == Filter(TechniquePatterns, UsedIn(text))
  {
    techniques := KeepWhere(TechniquePatterns, UsedIn(text));
  }

  /** The techniques found are the patterns the text mentions, ignoring case,
      each once and in the order of the list. */
  lemma TechniquesFound(ps: seq<string>, text: string)
    requires ps == TechniquePatterns
    ensures var r := Filter(ps, UsedIn(text));
      && (forall p :: p in r <==> p in ps && Contains(Lower(text), Lower(p)))
      && SubsequenceOf(r, ps)
      && Distinct(r)
  {
    var r := Filter(ps, UsedIn(text));
    FilterMembers(ps, UsedIn(text));
    FilterSubsequence(ps, UsedIn(text));
    TechniquePatternsDistinct(ps);
    SubsequenceOfDistinct(r, ps);
  }

  lemma TechniquePatternsDistinct(ps: seq<string>)
    requires ps == TechniquePatterns
    ensures Distinct(ps)
  {
  }

  // ---------------------------------------------------------------------------
  // _extract_limitations

  const LimitationKeywords: seq<string> := ["limitation", "constraint", "drawback", "shortcoming", "weakness", "challenge"]

  /** The six patterns `.{0,50}keyword[…]?.{0,50}` under `re.IGNORECASE`. */
  const LimitationPatterns: seq<Pattern> := [
    LimitationContext("limitation", "s"), LimitationContext("constraint", "s"),
    LimitationContext("drawback", "s"), LimitationContext("shortcoming", "s"),
    LimitationContext("weakness", "es"), LimitationContext("challenge", "s")
  ]

  lemma LimitationPatternsWellFormed(ps: seq<Pattern>)
    requires ps == LimitationPatterns
    ensures |ps| == |LimitationKeywords|
    ensures forall k :: 0 <= k < |ps| ==> WellFormed(ps[k])
    ensures forall k :: 0 <= k < |ps| ==> ps[k] == LimitationContext(LimitationKeywords[k], ps[k].suffixes)
  {
    forall k | 0 <= k < |ps|
      ensures WellFormed(ps[k])
    {
      LowerLetters(ps[k].keyword);
      LowerLetters(ps[k].suffixes);
    }
  }

  /** A word of lower-case ASCII letters is its own lower case. */
  lemma LowerLetters(w: string)
    requires forall j :: 0 <= j < |w| ==> 'a' <= w[j] <= 'z'
    ensures Lower(w) == w
    ensures forall j :: 0 <= j < |w| ==> w[j] != '\n'
  {
  }

  /** The matches of the six patterns, pattern by pattern. */
  function LimitationMatches(text: string): seq<string> {
    LimitationPatternsWellFormed(LimitationPatterns);
    MatchesOf(LimitationPatterns, text)
  }

  /** `_extract_limitations` */
  method ExtractLimitations(text: string) returns (limitations: seq<string>)
    ensures limitations == Take(LimitationMatches(text), 5)
  {
    LimitationPatternsWellFormed(LimitationPatterns);
    var all := CollectMatches(LimitationPatterns, text);
    limitations := Take(all, 5);
  }

  /** `kw` occurs in `g`, ignoring case. */
  predicate ContainsIgnoringCase(g: string, kw: string) {
    exists k: nat :: k <= |g| && StartsWithAtIgnoringCase(g, k, kw)
  }

  /** Each match of one limitation pattern is a piece of the text that holds
      the keyword, ignoring case. */
  lemma {:induction false} ContextMatchesFrom(kw: string, suffixes: string, s: string, i: nat)
    requires WellFormed(LimitationContext(kw, suffixes)) && i <= |s|
    ensures forall g :: g in FindAllFrom(LimitationContext(kw, suffixes), s, i) ==>
      Contains(s, g) && ContainsIgnoringCase(g, kw)
    decreases |s| - i
  {
    var p := LimitationContext(kw, suffixes);
    if i < |s| {
      match MatchAt(p, s, i)
      case Some(m) =>
        ContextMatchesFrom(kw, suffixes, s, m.end);
        assert FindAllFrom(p, s, i) == [m.group] + FindAllFrom(p, s, m.end);
        ContextMatch(kw, s, i, m);
      case None =>
        ContextMatchesFrom(kw, suffixes, s, i + 1);
    }
  }

  /** A context match read off the text holds the keyword it was found by. */
  lemma ContextMatch(kw: string, s: string, i: nat, m: Match)
    requires i + |kw| <= m.end <= |s| && m.group == s[i..m.end]
    requires exists k :: i <= k && k + |kw| <= m.end && StartsWithAtIgnoringCase(s, k, kw)
    ensures Contains(s, m.group) && ContainsIgnoringCase(m.group, kw)
  {
    var k :| i <= k && k + |kw| <= m.end && StartsWithAtIgnoringCase(s, k, kw);
    assert m.group[k - i..k - i + |kw|] == s[k..k + |kw|];
    assert StartsWithAtIgnoringCase(m.group, k - i, kw);
    assert StartsWithAt(s, i, m.group);
  }

  /** Each match of a list of limitation patterns holds one of their keywords. */
  lemma {:induction false} ContextMatchesOf(ps: seq<Pattern>, s: string)
    requires forall k :: 0 <= k < |ps| ==> WellFormed(ps[k]) && ps[k].LimitationContext?
    ensures forall g :: g in MatchesOf(ps, s) ==>
      Contains(s, g) && exists k :: 0 <= k < |ps| && ContainsIgnoringCase(g, ps[k].keyword)
  {
    if ps != [] {
      var last := ps[|ps| - 1];
      ContextMatchesOf(ps[..|ps| - 1], s);
      ContextMatchesFrom(last.keyword, last.suffixes, s, 0);
      forall g | g in MatchesOf(ps, s)
        ensures Contains(s, g) && exists k :: 0 <= k < |ps| && ContainsIgnoringCase(g, ps[k].keyword)
      {
        if g in MatchesOf(ps[..|ps| - 1], s) {
          var k :| 0 <= k < |ps| - 1 && ContainsIgnoringCase(g, ps[..|ps| - 1][k].keyword);
          assert ps[..|ps| - 1][k] == ps[k];
        } else {
          assert g in FindAll(last, s);
          assert ContainsIgnoringCase(g, ps[|ps| - 1].keyword);
        }
      }
    }
  }

  /** At most five snippets, each a piece of the text that holds one of the
      six keywords, ignoring case. */
  lemma LimitationsFound(text: string)
    ensures var r := Take(LimitationMatches(text), 5);
      && |r| <= 5
      && forall g :: g in r ==>
        Contains(text, g) && exists kw :: kw in LimitationKeywords && ContainsIgnoringCase(g, kw)
  {
    var ps := LimitationPatterns;
    LimitationPatternsWellFormed(ps);
    ContextMatchesOf(ps, text);
    var all := LimitationMatches(text);
    forall g | g in Take(all, 5)
      ensures Contains(text, g) && exists kw :: kw in LimitationKeywords && ContainsIgnoringCase(g, kw)
    {
      assert g in all;
      var k :| 0 <= k < |ps| && ContainsIgnoringCase(g, ps[k].keyword);
      assert LimitationKeywords[k] in LimitationKeywords;
    }
  }

  // ---------------------------------------------------------------------------
  // Parsed references

  /** A field value of a parsed reference: a string, an integer or a list of
      strings. */
  datatype Value = Str(s: string) | Int(n: int) | StrList(items: seq<string>)

  /** A reference is a dictionary from field names to values. */
  type Reference = map<string, Value>

  /** Python truthiness of a field value. */
  predicate Truthy(v: Value) {
    match v
    case Str(s) => s != []
    case Int(n) => n != 0
    case StrList(xs) => xs != []
  }

  // ---------------------------------------------------------------------------
  // int() on strings

  /** ASCII digits with single underscores between them. */
  predicate DigitGroups(s: string) {
    && s != [] && IsDigit(s[0]) && IsDigit(s[|s| - 1])
    && (forall j :: 0 <= j < |s| ==> IsDigit(s[j]) || s[j] == '_')
    && (forall j :: 0 <= j < |s| - 1 && s[j] == '_' ==> s[j + 1] != '_')
  }

  function DigitValue(c: char): nat {
    if IsDigit(c) then c as int - '0' as int else 0
  }

  /** The number the digits of `s` spell, underscores skipped. */
  function DigitsValue(s: string): nat {
    if s == [] then 0
    else if s[|s| - 1] == '_' then DigitsValue(s[..|s| - 1])
    else 10 * DigitsValue(s[..|s| - 1]) + DigitValue(s[|s| - 1])
  }

  /** Digits with an optional leading sign. */
  predicate Numeral(t: string) {
    DigitGroups(t) || (t != [] && (t[0] == '+' || t[0] == '-') && DigitGroups(t[1..]))
  }

  /** `int(s)` for a string: surrounding whitespace, an optional sign and
      decimal digits; `None` where Python raises `ValueError`. */
  function ParseInt(s: string): (r: Option<int>)
    ensures r.Some? <==> Numeral(Strip(s))
    ensures r.Some? && r.value < 0 ==> Strip(s)[0] == '-'
  {
    var t := Strip(s);
    if t != [] && (t[0] == '+' || t[0] == '-') then
      var v: int := DigitsValue(t[1..]);
      if DigitGroups(t[1..]) then Some(if t[0] == '-' then -v else v) else None
    else if DigitGroups(t) then Some(DigitsValue(t))
    else None
  }

  function DigitChar(d: nat): (c: char)
    requires d < 10
    ensures IsDigit(c) && DigitValue(c) == d
  {
    ('0' as int + d) as char
  }

  /** `str(n)` for `n >= 0`. */
  function Decimal(n: nat): string {
    if n < 10 then [DigitChar(n)] else Decimal(n / 10) + [DigitChar(n % 10)]
  }

  /** `str(n)` */
  function IntText(n: int): string {
    if n < 0 then "-" + Decimal(-n) else Decimal(n)
  }

  lemma {:induction false} DecimalDigits(n: nat)
    ensures DigitGroups(Decimal(n))
    ensures DigitsValue(Decimal(n)) == n
  {
    if n >= 10 {
      DecimalDigits(n / 10);
      var d := Decimal(n);
      assert d[..|d| - 1] == Decimal(n / 10);
    }
  }

  /** `int(str(n)) == n` */
  lemma ParseIntText(n: int)
    ensures ParseInt(IntText(n)) == Some(n)
  {
    if n < 0 {
      DecimalDigits(-n);
      ParseIntSigned(Decimal(-n));
    } else {
      DecimalDigits(n);
      ParseIntUnsigned(Decimal(n));
    }
  }

  lemma ParseIntUnsigned(d: string)
    requires DigitGroups(d)
    ensures ParseInt(d) == Some(DigitsValue(d))
  {
    PrintableNotSpace(d[0]);
    PrintableNotSpace(d[|d| - 1]);
    StripNoop(d);
  }

  lemma ParseIntSigned(d: string)
    requires DigitGroups(d)
    ensures ParseInt("-" + d).Some? && ParseInt("-" + d).value + DigitsValue(d) == 0
  {
    var t := "-" + d;
    PrintableNotSpace(t[0]);
    assert t[|t| - 1] == d[|d| - 1];
    PrintableNotSpace(d[|d| - 1]);
    StripNoop(t);
    assert t[1..] == d;
  }

  /** `int()` ignores whitespace around the number. */
  lemma ParseIntStripped(s: string)
    ensures ParseInt(Strip(s)) == ParseInt(s)
  {
    StripIdempotent(s);
  }

  // ---------------------------------------------------------------------------
  // _extract_years

  /** `int(value)`, or `None` where it raises and the bare `except` skips the
      reference: an unparsable string or a list. */
  function YearOf(v: Value): Option<int> {
    match v
    case Str(s) => ParseInt(s)
    case Int(n) => Some(n)
    case StrList(_) => None
  }

  /** The year one reference contributes, if any. */
  function YearOfRef(r: Reference): Option<int> {
    if "year" in r && Truthy(r["year"]) then YearOf(r["year"]) else None
  }

  /** The years in reference order, before sorting. */
  function YearsOf(refs: seq<Reference>): seq<int> {
    if refs == [] then []
    else
      var y := YearOfRef(refs[|refs| - 1]);
      YearsOf(refs[..|refs| - 1]) + (if y.Some? then [y.value] else [])
  }

  /** `_extract_years` */
  method ExtractYears(refs: seq<Reference>) returns (years: seq<int>)
    ensures years == SortAscending(YearsOf(refs))
  {
    years := [];
    for k := 0 to |refs|
      invariant years == YearsOf(refs[..k])
    {
      assert refs[..k + 1][..k] == refs[..k];
      var ref := refs[k];
      if "year" in ref && Truthy(ref["year"]) {
        match ref["year"]
        case Str(s) =>
          var y := ParseInt(s);
          if y.Some? {
            years := years + [y.value];
          }
        case Int(n) =>
          years := years + [n];
        case StrList(_) =>
      }
    }
    assert refs[..|refs|] == refs;
    years := SortAscending(years);
  }

  lemma {:induction false} YearsOfMembers(refs: seq<Reference>)
    ensures |YearsOf(refs)| <= |refs|
    ensures forall y :: y in YearsOf(refs) <==> exists k :: 0 <= k < |refs| && YearOfRef(refs[k]) == Some(y)
  {
    if refs != [] {
      var init := refs[..|refs| - 1];
      YearsOfMembers(init);
      forall y
        ensures y in YearsOf(refs) <==> exists k :: 0 <= k < |refs| && YearOfRef(refs[k]) == Some(y)
      {
        if y in YearsOf(init) {
          var k :| 0 <= k < |init| && YearOfRef(init[k]) == Some(y);
          assert refs[k] == init[k];
        }
        if exists k :: 0 <= k < |refs| && YearOfRef(refs[k]) == Some(y) {
          var k :| 0 <= k < |refs| && YearOfRef(refs[k]) == Some(y);
          if k < |init| {
            assert init[k] == refs[k];
          }
        }
      }
    }
  }

  /** The years come sorted ascending, at most one per reference, and a year
      is reported exactly when some reference has a truthy `year` that `int()`
      accepts. */
  lemma YearsReported(refs: seq<Reference>)
    ensures var r := SortAscending(YearsOf(refs));
      && Ascending(r)
      && |r| <= |refs|
      && forall y :: y in r <==> exists k :: 0 <= k < |refs| && YearOfRef(refs[k]) == Some(y)
  {
    var r := SortAscending(YearsOf(refs));
    YearsOfMembers(refs);
    assert |r| == |multiset(r)| == |multiset(YearsOf(refs))|;
    forall y
      ensures y in r <==> y in YearsOf(refs)
    {
      assert y in r <==> y in multiset(r);
    }
  }

  // ---------------------------------------------------------------------------
  // _extract_top_authors

  /** `authors.extend(v)`: a list gives its items and a string its characters;
      `None` for a number, which is not iterable. */
  function AuthorItems(v: Value): (r: Option<seq<string>>)
    ensures r.None? <==> v.Int?
    ensures r.Some? && v.Str? ==> |r.value| == |v.s| && forall k :: 0 <= k < |v.s| ==> r.value[k] == [v.s[k]]
  {
    match v
    case StrList(xs) => Some(xs)
    case Str(s) => Some(Map(s, (c: char) => [c]))
    case Int(_) => None
  }

  /** `'author' in ref and ref['author']` */
  predicate HasAuthors(r: Reference) {
    "author" in r && Truthy(r["author"])
  }

  /** The `authors` list, or `None` when `extend` raises on some reference;
      nothing catches that error. */
  function AuthorsOf(refs: seq<Reference>): Option<seq<string>> {
    if refs == [] then Some([])
    else
      var last := refs[|refs| - 1];
      match AuthorsOf(refs[..|refs| - 1])
      case None => None
      case Some(a) =>
        if !HasAuthors(last) then Some(a)
        else match AuthorItems(last["author"])
          case None => None
          case Some(xs) => Some(a + xs)
  }

  /** `Counter(authors)` */
  function Occurrences(authors: seq<string>): string -> int {
    (a: string) => multiset(authors)[a]
  }

  /** `[author for author, count in Counter(authors).most_common(5)]`: the
      counter holds the authors in order of first appearance and
      `most_common` sorts it stably by descending count. */
  function TopAuthors(authors: seq<string>): seq<string> {
    Top(Dedup(authors), Occurrences(authors), 5)
  }

  /** `_extract_top_authors`, `None` where it raises. */
  method ExtractTopAuthors(refs: seq<Reference>) returns (r: Option<seq<string>>)
    ensures r == if AuthorsOf(refs).Some? then Some(TopAuthors(AuthorsOf(refs).value)) else None
  {
    var authors: seq<string> := [];
    for k := 0 to |refs|
      invariant AuthorsOf(refs[..k]) == Some(authors)
    {
      assert refs[..k + 1][..k] == refs[..k];
      var ref := refs[k];
      if "author" in ref && Truthy(ref["author"]) {
        match ref["author"]
        case StrList(xs) =>
          authors := authors + xs;
        case Str(s) =>
          authors := authors + Map(s, (c: char) => [c]);
        case Int(_) =>
          AuthorsOfFails(refs, k + 1);
          return None;
      }
    }
    assert refs[..|refs|] == refs;
    r := Some(TopAuthors(authors));
  }

  /** Once `extend` has raised, the rest of the references do not matter. */
  lemma {:induction false} AuthorsOfFails(refs: seq<Reference>, k: nat)
    requires k <= |refs| && AuthorsOf(refs[..k]).None?
    ensures AuthorsOf(refs).None?
    decreases |refs| - k
  {
    if k < |refs| {
      assert refs[..k + 1][..k] == refs[..k];
      AuthorsOfFails(refs, k + 1);
    } else {
      assert refs[..k] == refs;
    }
  }

  /** `_extract_top_authors` raises exactly when some reference has a truthy
      number as its `author`. */
  lemma {:induction false} AuthorsOfNone(refs: seq<Reference>)
    ensures AuthorsOf(refs).None? <==> exists k :: 0 <= k < |refs| && HasAuthors(refs[k]) && refs[k]["author"].Int?
  {
    if refs != [] {
      var init := refs[..|refs| - 1];
      AuthorsOfNone(init);
      if exists k :: 0 <= k < |init| && HasAuthors(init[k]) && init[k]["author"].Int? {
        var k :| 0 <= k < |init| && HasAuthors(init[k]) && init[k]["author"].Int?;
        assert refs[k] == init[k];
      }
      if exists k :: 0 <= k < |refs| && HasAuthors(refs[k]) && refs[k]["author"].Int? {
        var k :| 0 <= k < |refs| && HasAuthors(refs[k]) && refs[k]["author"].Int?;
        if k < |init| {
          assert init[k] == refs[k];
        }
      }
    }
  }

  /** At most five distinct authors, each one listed, by descending count;
      of two with the same count the one that appears first comes first; an
      author left out is counted no more often than the fifth. */
  lemma TopAuthorsRanked(authors: seq<string>)
    ensures var top := TopAuthors(authors);
      && Distinct(top)
      && |top| == Min(5, |Dedup(authors)|)
      && (forall a :: a in top ==> a in authors)
      && (forall i, j :: 0 <= i < j < |top| ==>
            multiset(authors)[top[i]] > multiset(authors)[top[j]]
            || (multiset(authors)[top[i]] == multiset(authors)[top[j]]
                && exists k :: 0 <= k < |authors| && authors[k] == top[i] && top[j] !in authors[..k + 1]))
      && (forall a :: a in authors && a !in top ==> |top| == 5 && multiset(authors)[a] <= multiset(authors)[top[4]])
  {
    var xs := Dedup(authors);
    var key := Occurrences(authors);
    var top := TopAuthors(authors);
    TopFrom(xs, key, 5);
    TopDistinct(xs, key, 5);
    TopOrdered(xs, key, 5);
    forall i, j | 0 <= i < j < |top|
      ensures multiset(authors)[top[i]] > multiset(authors)[top[j]]
        || (multiset(authors)[top[i]] == multiset(authors)[top[j]]
            && exists k :: 0 <= k < |authors| && authors[k] == top[i] && top[j] !in authors[..k + 1])
    {
      assert key(top[i]) == multiset(authors)[top[i]] && key(top[j]) == multiset(authors)[top[j]];
      if key(top[i]) == key(top[j]) {
        var p, q :| 0 <= p < q < |xs| && xs[p] == top[i] && xs[q] == top[j];
        DedupFirstAppearance(authors, p, q);
      }
    }
    forall a | a in authors && a !in top
      ensures |top| == 5 && multiset(authors)[a] <= multiset(authors)[top[4]]
    {
      TopBest(xs, key, 5, a);
    }
  }

  // ---------------------------------------------------------------------------
  // _build_citation_network

  /** `{'nodes': …, 'edges': …, 'network_data': …}`, each node with its
      `title` attribute. */
  datatype CitationGraph = CitationGraph(nodes: nat, edges: nat, networkData: seq<(string, Value)>)

  /** `ref.get('author', ['Unknown'])[0] if ref.get('author') else 'Unknown'`
      for a present `author`; `None` where indexing a number raises. */
  function AuthorNode(v: Value): (r: Option<string>)
    ensures r.None? <==> v.Int? && v.n != 0
    ensures !Truthy(v) ==> r == Some("Unknown")
    ensures r.Some? && Truthy(v) && v.StrList? ==> r.value == v.items[0]
    ensures r.Some? && Truthy(v) && v.Str? ==> r.value == v.s[..1]
  {
    if !Truthy(v) then Some("Unknown")
    else match v
      case StrList(xs) => Some(xs[0])
      case Str(s) => Some([s[0]])
      case Int(_) => None
  }

  /** The nodes added, in order, with their titles; `None` when the loop
      raises. */
  function Entries(refs: seq<Reference>): Option<seq<(string, Value)>> {
    if refs == [] then Some([])
    else
      var last := refs[|refs| - 1];
      match Entries(refs[..|refs| - 1])
      case None => None
      case Some(es) =>
        if "author" in last && "title" in last then
          match AuthorNode(last["author"])
          case None => None
          case Some(a) => Some(es + [(a, last["title"])])
        else Some(es)
  }

  const EntryName: ((string, Value)) -> string := (e: (string, Value)) => e.0

  /** The title attribute left on each node: the title of its last addition. */
  function Titles(es: seq<(string, Value)>): map<string, Value> {
    if es == [] then map[]
    else Titles(es[..|es| - 1])[es[|es| - 1].0 := es[|es| - 1].1]
  }

  /** Every node added has a title and no other name has one. */
  lemma {:induction false} TitlesKeys(es: seq<(string, Value)>)
    ensures forall n :: n in Titles(es) <==> n in Map(es, EntryName)
  {
    if es != [] {
      var init := es[..|es| - 1];
      var e := es[|es| - 1];
      TitlesKeys(init);
      assert Map(es, EntryName) == Map(init, EntryName) + [e.0] by {
        MapAppend(init, [e], EntryName);
        assert init + [e] == es;
      }
      assert Titles(es) == Titles(init)[e.0 := e.1];
    }
  }

  /** `list(G.nodes(data=True))` */
  function NodeData(ns: seq<string>, titles: map<string, Value>): (r: seq<(string, Value)>)
    requires forall n :: n in ns ==> n in titles
  {
    seq(|ns|, i requires 0 <= i < |ns| => (ns[i], titles[ns[i]]))
  }

  /** The network a run of additions gives. */
  function NetworkOf(es: seq<(string, Value)>): CitationGraph {
    var ns := Dedup(Map(es, EntryName));
    TitlesKeys(es);
    CitationGraph(|ns|, 0, Take(NodeData(ns, Titles(es)), 10))
  }

  /** `_build_citation_network`, `None` where it raises. */
  method BuildCitationNetwork(refs: seq<Reference>) returns (r: Option<CitationGraph>)
    ensures r == match Entries(Take(refs, 10)) case None => None case Some(es) => Some(NetworkOf(es))
  {
    var g := new Graph<Value>();
    var rs := Take(refs, 10);
    ghost var es: seq<(string, Value)> := [];
    for k := 0 to |rs|
      invariant Entries(rs[..k]) == Some(es)
      invariant g.Valid() && g.nodes == Dedup(Map(es, EntryName)) && g.titles == Titles(es) && g.edges == []
    {
      EntriesStep(rs, k);
      var ref := rs[k];
      if "author" in ref && "title" in ref {
        var author := AuthorNode(ref["author"]);
        if author.None? {
          EntriesFail(rs, k + 1);
          return None;
        }
        g.AddNodeWithTitle(author.value, ref["title"]);
        AddedEntry(es, (author.value, ref["title"]));
        es := es + [(author.value, ref["title"])];
      }
    }
    assert rs[..|rs|] == rs;
    TitlesKeys(es);
    r := Some(CitationGraph(|g.nodes|, |g.edges|, Take(NodeData(g.nodes, g.titles), 10)));
  }

  lemma EntriesStep(refs: seq<Reference>, k: nat)
    requires k < |refs|
    ensures Entries(refs[..k + 1]) ==
      match Entries(refs[..k])
      case None => None
      case Some(es) =>
        if "author" in refs[k] && "title" in refs[k] then
          match AuthorNode(refs[k]["author"])
          case None => None
          case Some(a) => Some(es + [(a, refs[k]["title"])])
        else Some(es)
  {
    assert refs[..k + 1][..k] == refs[..k];
  }

  /** One more addition to the graph. */
  lemma AddedEntry(es: seq<(string, Value)>, e: (string, Value))
    ensures var d := Dedup(Map(es, EntryName));
      Dedup(Map(es + [e], EntryName)) == if e.0 in d then d else d + [e.0]
    ensures Titles(es + [e]) == Titles(es)[e.0 := e.1]
  {
    var ns := Map(es + [e], EntryName);
    assert ns[..|ns| - 1] == Map(es, EntryName);
    assert (es + [e])[..|es|] == es;
  }

  lemma {:induction false} EntriesFail(refs: seq<Reference>, k: nat)
    requires k <= |refs| && Entries(refs[..k]).None?
    ensures Entries(refs).None?
    decreases |refs| - k
  {
    if k < |refs| {
      assert refs[..k + 1][..k] == refs[..k];
      EntriesFail(refs, k + 1);
    } else {
      assert refs[..k] == refs;
    }
  }

  lemma {:induction false} EntriesLength(refs: seq<Reference>)
    requires Entries(refs).Some?
    ensures |Entries(refs).value| <= |refs|
  {
    if refs != [] {
      EntriesLength(refs[..|refs| - 1]);
    }
  }

  /** The title kept on a node is that of the last addition of that name. */
  lemma {:induction false} TitlesLast(es: seq<(string, Value)>, n: string)
    requires n in Titles(es)
    ensures exists k :: 0 <= k < |es| && es[k] == (n, Titles(es)[n]) && forall l :: k < l < |es| ==> es[l].0 != n
  {
    assert es != [];
    var last := |es| - 1;
    var init := es[..last];
    var t := Titles(init);
    assert Titles(es) == t[es[last].0 := es[last].1];
    if es[last].0 != n {
      assert n in t && Titles(es)[n] == t[n];
      TitlesLast(init, n);
      var k :| 0 <= k < |init| && init[k] == (n, t[n]) && forall l :: k < l < |init| ==> init[l].0 != n;
      assert es[k] == (n, Titles(es)[n]) by {
        assert es[k] == init[k];
      }
      forall l | k < l < |es|
        ensures es[l].0 != n
      {
        if l < last {
          assert es[l] == init[l];
        }
      }
    } else {
      assert es[last] == (n, Titles(es)[n]);
    }
  }

  /** The network has no edges and at most ten nodes, each listed once with
      the title of the last of the first ten references that named it. */
  lemma CitationNetworkShape(refs: seq<Reference>)
    requires Entries(Take(refs, 10)).Some?
    ensures var es := Entries(Take(refs, 10)).value;
      var net := NetworkOf(es);
      && net.edges == 0
      && net.nodes <= 10
      && |net.networkData| == net.nodes
      && (forall i :: 0 <= i < |net.networkData| ==>
            exists k :: 0 <= k < |es| && es[k] == net.networkData[i] && (forall l :: k < l < |es| ==> es[l].0 != net.networkData[i].0))
  {
    var es := Entries(Take(refs, 10)).value;
    var net := NetworkOf(es);
    var ns := Dedup(Map(es, EntryName));
    EntriesLength(Take(refs, 10));
    TitlesKeys(es);
    var data := NodeData(ns, Titles(es));
    assert |ns| <= 10;
    assert net.networkData == data;
    forall i | 0 <= i < |net.networkData|
      ensures exists k :: 0 <= k < |es| && es[k] == net.networkData[i] && (forall l :: k < l < |es| ==> es[l].0 != net.networkData[i].0)
    {
      assert ns[i] in ns;
      assert net.networkData[i] == (ns[i], Titles(es)[ns[i]]);
      TitlesLast(es, ns[i]);
    }
  }

  /** The network fails exactly when one of the first ten references with
      both fields has a truthy number as its author. */
  lemma {:induction false} EntriesNone(refs: seq<Reference>)
    ensures Entries(refs).None? <==>
      exists k :: 0 <= k < |refs| && "author" in refs[k] && "title" in refs[k] && AuthorNode(refs[k]["author"]).None?
  {
    if refs != [] {
      var init := refs[..|refs| - 1];
      EntriesNone(init);
      if exists k :: 0 <= k < |init| && "author" in init[k] && "title" in init[k] && AuthorNode(init[k]["author"]).None? {
        var k :| 0 <= k < |init| && "author" in init[k] && "title" in init[k] && AuthorNode(init[k]["author"]).None?;
        assert refs[k] == init[k];
      }
      if exists k :: 0 <= k < |refs| && "author" in refs[k] && "title" in refs[k] && AuthorNode(refs[k]["author"]).None? {
        var k :| 0 <= k < |refs| && "author" in refs[k] && "title" in refs[k] && AuthorNode(refs[k]["author"]).None?;
        if k < |init| {
          assert init[k] == refs[k];
        }
      }
    }
  }

  // ---------------------------------------------------------------------------
  // create_concept_map over the entity list

  const ConceptLabels: seq<string> := ["PERSON", "ORG", "PRODUCT", "EVENT"]

  /** `ent[1] in ['PERSON', 'ORG', 'PRODUCT', 'EVENT']` */
  const IsConceptEntity: ((string, string)) -> bool := (e: (string, string)) => e.1 in ConceptLabels

  const EntityText: ((string, string)) -> string := (e: (string, string)) => e.0

  /** `concepts`: the texts of the entities with one of the four labels, in
      entity order, repeats kept. */
  function EntityConcepts(entities: seq<(string, string)>): seq<string> {
    Map(Filter(entities, IsConceptEntity), EntityText)
  }

  /** `{'nodes': …, 'edges': …, 'stats': {…}}`, each node's id and label
      being its text. */
  datatype EntityMap = EntityMap(nodes: seq<string>, edges: seq<(string, string)>, totalConcepts: nat, totalConnections: nat)

  /** `e` is, in either orientation, the pair of some `cs[p]` and a later
      `cs[q]` that share a sentence. */
  predicate JoinsPair(e: (string, string), cs: seq<string>, sentences: seq<string>) {
    exists p, q :: 0 <= p < q < |cs| && SameEdge(e, (cs[p], cs[q])) && CoOccur(cs[p], cs[q], sentences)
  }

  /** Every edge joins two positions `p < q` of `cs` that share a sentence,
      so a self-loop comes only from a concept listed twice. */
  predicate SoundEdges(edges: seq<(string, string)>, cs: seq<string>, sentences: seq<string>) {
    forall e :: e in edges ==> JoinsPair(e, cs, sentences)
  }

  /** A sound self-loop `(c, c)` needs `c` at two positions of `cs`. */
  lemma SelfLoopsRepeated(edges: seq<(string, string)>, cs: seq<string>, sentences: seq<string>, c: string)
    requires SoundEdges(edges, cs, sentences) && (c, c) in edges
    ensures exists p, q :: 0 <= p < q < |cs| && cs[p] == c && cs[q] == c
  {
    assert JoinsPair((c, c), cs, sentences);
  }

  /** `create_concept_map`, given spaCy's `(text, label)` entity list: the
      nodes are the first twenty concepts without repeats; an edge joins two of
      them that share a `.`-piece of the text, each pair that does is joined,
      and no pair twice. */
  method CreateConceptMap(entities: seq<(string, string)>, text: string) returns (m: EntityMap)
    ensures var cs := Take(EntityConcepts(entities), 20);
      && m.nodes == Dedup(cs)
      && |m.nodes| <= 20
      && SoundEdges(m.edges, cs, Split(text, '.'))
      && (forall p, q :: 0 <= p < q < |cs| && CoOccur(cs[p], cs[q], Split(text, '.')) ==>
            (cs[p], cs[q]) in m.edges || (cs[q], cs[p]) in m.edges)
      && (forall i, j :: 0 <= i < j < |m.edges| ==> !SameEdge(m.edges[i], m.edges[j]))
      && m.totalConcepts == |m.nodes| && m.totalConnections == |m.edges|
  {
    var concepts := EntityConcepts(entities);
    var cs := Take(concepts, 20);
    ghost var ss := Split(text, '.');
    var g := new Graph<string>();
    for k := 0 to |cs|
      invariant g.Valid() && g.nodes == Dedup(cs[..k]) && g.edges == []
    {
      assert cs[..k + 1][..k] == cs[..k];
      g.AddNode(cs[k]);
    }
    assert cs[..|cs|] == cs;
    for i := 0 to |cs|
      invariant g.Valid() && g.nodes == Dedup(cs)
      invariant SoundEdges(g.edges, cs, ss)
      invariant Linked(g.edges, cs, ss, i, 0)
    {
      EdgeRow(g, cs, i, text);
    }
    LinkedAll(g.edges, cs, ss);
    m := EntityMap(g.nodes, g.edges, |g.nodes|, |g.edges|);
  }

  /** Every pair `p < q` of `cs` before `(i, j)` in row order that shares a
      sentence is joined by an edge. */
  predicate Linked(edges: seq<(string, string)>, cs: seq<string>, sentences: seq<string>, i: nat, j: nat) {
    forall p, q :: 0 <= p < q < |cs| && (p < i || (p == i && q < j)) && CoOccur(cs[p], cs[q], sentences) ==>
      (cs[p], cs[q]) in edges || (cs[q], cs[p]) in edges
  }

  /** The inner loop of `create_concept_map`: concept `i` against each later
      one among the first twenty. */
  method EdgeRow(g: Graph<string>, cs: seq<string>, i: nat, text: string)
    requires g.Valid() && g.nodes == Dedup(cs) && i < |cs|
    requires SoundEdges(g.edges, cs, Split(text, '.')) && Linked(g.edges, cs, Split(text, '.'), i, 0)
    modifies g
    ensures g.Valid() && g.nodes == Dedup(cs)
    ensures SoundEdges(g.edges, cs, Split(text, '.')) && Linked(g.edges, cs, Split(text, '.'), i + 1, 0)
  {
    ghost var ss := Split(text, '.');
    LinkedRowStart(g.edges, cs, ss, i);
    for j := i + 1 to |cs|
      invariant g.Valid() && g.nodes == Dedup(cs)
      invariant SoundEdges(g.edges, cs, ss) && Linked(g.edges, cs, ss, i, j)
    {
      var related := ConceptsRelated(cs[i], cs[j], text);
      ghost var before := g.edges;
      if related {
        JoinedPair(cs, ss, i, j);
        assert cs[i] in g.nodes && cs[j] in g.nodes;
        g.AddEdge(cs[i], cs[j]);
        SoundAppend(before, g.edges, cs, ss, (cs[i], cs[j]));
      }
      LinkedStep(before, g.edges, cs, ss, i, j);
    }
    LinkedRowEnd(g.edges, cs, ss, i);
  }

  /** A related pair `i < j` is a sound edge. */
  lemma JoinedPair(cs: seq<string>, sentences: seq<string>, i: nat, j: nat)
    requires i < j < |cs| && CoOccur(cs[i], cs[j], sentences)
    ensures JoinsPair((cs[i], cs[j]), cs, sentences)
  {
    assert SameEdge((cs[i], cs[j]), (cs[i], cs[j]));
  }

  /** Adding a sound edge, or nothing, keeps the edges sound. */
  lemma SoundAppend(before: seq<(string, string)>, after: seq<(string, string)>, cs: seq<string>, sentences: seq<string>, e: (string, string))
    requires SoundEdges(before, cs, sentences) && JoinsPair(e, cs, sentences)
    requires after == before || after == before + [e]
    ensures SoundEdges(after, cs, sentences)
  {
  }

  lemma LinkedRowStart(edges: seq<(string, string)>, cs: seq<string>, sentences: seq<string>, i: nat)
    requires Linked(edges, cs, sentences, i, 0)
    ensures Linked(edges, cs, sentences, i, i + 1)
  {
  }

  lemma LinkedRowEnd(edges: seq<(string, string)>, cs: seq<string>, sentences: seq<string>, i: nat)
    requires Linked(edges, cs, sentences, i, |cs|)
    ensures Linked(edges, cs, sentences, i + 1, 0)
  {
  }

  lemma LinkedStep(before: seq<(string, string)>, after: seq<(string, string)>, cs: seq<string>, sentences: seq<string>, i: nat, j: nat)
    requires i < j < |cs|
    requires Linked(before, cs, sentences, i, j)
    requires forall e :: e in before ==> e in after
    requires CoOccur(cs[i], cs[j], sentences) ==> (cs[i], cs[j]) in after || (cs[j], cs[i]) in after
    ensures Linked(after, cs, sentences, i, j + 1)
  {
  }

  lemma LinkedAll(edges: seq<(string, string)>, cs: seq<string>, sentences: seq<string>)
    requires Linked(edges, cs, sentences, |cs|, 0)
    ensures forall p, q :: 0 <= p < q < |cs| && CoOccur(cs[p], cs[q], sentences) ==>
      (cs[p], cs[q]) in edges || (cs[q], cs[p]) in edges
  {
  }
}
