/** The regular expressions of the analysis code, each written out as a
    scanner that decides where a match starting at a given position ends and
    what `re.findall` reports for it. `FindAll` and `Sub` then follow Python's
    `re.findall` and `re.sub`: the leftmost match wins, the scan resumes at the
    end of the previous match, matches never overlap, and `findall` returns
    the capture group when the pattern has one and the whole match otherwise.
    Every pattern here matches at least one character, so the empty-match
    rules of `re` never apply. */
module Regex {
  import opened Wrappers
  import opened Text

  /** Where a match ends, and what `findall` reports for it. */
  datatype Match = Match(end: nat, group: string)

  datatype Pattern =
    /** `\[(\d+)\]`, reporting the digits. */
    | BracketNumber
    /** `\(([^)]+\d{4}[^)]*)\)`, reporting the text between the parentheses. */
    | ParenthesisedYear
    /** `([A-Z][a-z]+ et al\.?, \d{4})` */
    | EtAlCitation
    /** `\b(19|20)\d{2}\b`, reporting only the century group. */
    | YearCentury
    /** `\b(?:19|20)\d{2}\b`, the whole year. */
    | YearFull
    /** `([A-Z][a-z]+(?:\s+[A-Z][a-z]+)*)\s+(?:et\s+al\.?)?\s*\(?\d{4}\)?`,
        reporting the run of capitalised words. */
    | AuthorYear
    /** `\b[A-Z]{2,}\b` */
    | Acronym
    /** `\b[A-Z][a-z]+(?:\s+[A-Z][a-z]+)*\b` */
    | CapitalisedPhrase
    /** `\b[A-Z]{2,}\b|\b[A-Z][a-z]+(?:\s+[A-Z][a-z]+)*\b` */
    | AcronymOrPhrase
    /** `\b\w+(?:ing|tion|ness|ment|ity)\b` */
    | NounEnding
    /** `\b\w*[Uu]rest\w*\b` for an upper and lower case initial and the rest
        of a stem (`\b\w*[Mm]odel\w*\b` is `WordContaining('M', 'm', "odel")`). */
    | WordContaining(upper: char, lower: char, rest: string)
    /** `\n\s*\n` */
    | BlankLines
    /** `c{min,}`: ` +` is `CharRun(' ', 1)`, `[.]{3,}` is `CharRun('.', 3)`. */
    | CharRun(c: char, min: nat)
    /** `\n\d+\n` */
    | PageNumber
    /** `\nPage \d+\n` */
    | PageLabel
    /** The URL pattern of the text cleaner (`http[s]?:` with two slashes, then a run of URL characters). */
    | Url
    /** `\S+@\S+\.\S+` */
    | Email
    /** A character class holding the single character `c`. */
    | OneChar(c: char)
    /** `[\x00-\x08\x0b\x0c\x0e-\x1f\x7f-\x84\x86-\x9f]` */
    | ControlChar
    /** `.{0,50}keyword[suffixes]?.{0,50}` under `re.IGNORECASE`, with the
        keyword and the optional suffix characters given in lower case. */
    | LimitationContext(keyword: string, suffixes: string)

  /** The patterns are constants of the source; these are the shapes it uses. */
  predicate WellFormed(p: Pattern) {
    match p
    case CharRun(_, min) => min >= 1
    case LimitationContext(keyword, suffixes) =>
      keyword != [] && keyword == Lower(keyword) && suffixes == Lower(suffixes)
        && (forall j :: 0 <= j < |keyword| ==> keyword[j] != '\n')
    case _ => true
  }

  /** A lower bound on the length of every match of `p`. */
  function MinLength(p: Pattern): nat {
    match p
    case BracketNumber => 3
    case ParenthesisedYear => 7
    case EtAlCitation => 14
    case YearCentury => 4
    case YearFull => 4
    case AuthorYear => 7
    case Acronym => 2
    case CapitalisedPhrase => 2
    case AcronymOrPhrase => 2
    case NounEnding => 4
    case WordContaining(_, _, rest) => 1 + |rest|
    case BlankLines => 2
    case CharRun(_, min) => min
    case PageNumber => 3
    case PageLabel => 8
    case Url => 8
    case Email => 5
    case OneChar(_) => 1
    case ControlChar => 1
    case LimitationContext(keyword, _) => |keyword|
  }

  // ---------------------------------------------------------------------------
  // Character classes used only by the patterns

  const OpenParen: char := '\U{28}'
  const CloseParen: char := '\U{29}'

  predicate IsControl(c: char) {
    || ('\U{0}' <= c <= '\U{8}')
    || c == '\U{b}'
    || c == '\U{c}'
    || ('\U{e}' <= c <= '\U{1f}')
    || ('\U{7f}' <= c <= '\U{84}')
    || ('\U{86}' <= c <= '\U{9f}')
  }

  /** `[a-zA-Z]|[0-9]|[$-_@.&+]|[!*\(\),]`: the range `$-_` already holds the
      upper-case letters, the digits and every other listed character except
      `!` and the lower-case letters. */
  predicate IsUrlChar(c: char) {
    IsLower(c) || ('$' <= c <= '_') || c == '!'
  }

  /** `.` without `re.DOTALL` */
  predicate NotNewline(c: char) {
    c != '\n'
  }

  /** `\b` between `s[k - 1]` and `s[k]` when one side is known to be a word character. */
  predicate NonWordAt(s: string, k: nat) {
    k >= |s| || !IsWordChar(s[k])
  }

  predicate NonWordBefore(s: string, k: nat)
    requires k <= |s|
  {
    k == 0 || !IsWordChar(s[k - 1])
  }

  /** Four digits at `k`. */
  predicate FourDigitsAt(s: string, k: nat) {
    k + 4 <= |s| && forall j :: k <= j < k + 4 ==> IsDigit(s[j])
  }

  /** `s[k:].lower().startswith(w)` for a lower-case `w`. */
  predicate StartsWithAtIgnoringCase(s: string, k: nat, w: string) {
    k + |w| <= |s| && Lower(s[k..k + |w|]) == w
  }

  // ---------------------------------------------------------------------------
  // One scanner per pattern

  function MatchBracketNumber(s: string, i: nat): (m: Option<Match>)
    requires i < |s|
    ensures m.Some? ==> i + 3 <= m.value.end <= |s|
    ensures m.Some? ==> m.value.group != [] && forall j :: 0 <= j < |m.value.group| ==> IsDigit(m.value.group[j])
  {
    if s[i] != '[' then None
    else
      var n := Run(s, i + 1, IsDigit);
      if n >= 1 && i + 1 + n < |s| && s[i + 1 + n] == ']' then Some(Match(i + 2 + n, s[i + 1..i + 1 + n]))
      else None
  }

  /** The parenthesis must close at the first `)`, because neither `[^)]` can
      pass one; what lies between must hold four digits after its first character. */
  function MatchParenthesisedYear(s: string, i: nat): (m: Option<Match>)
    requires i < |s|
    ensures m.Some? ==> i + 7 <= m.value.end <= |s|
    ensures m.Some? ==> m.value.end == i + 2 + |m.value.group| && m.value.group == s[i + 1..i + 1 + |m.value.group|] && CloseParen !in m.value.group
    ensures m.Some? ==> s[i] == OpenParen && s[m.value.end - 1] == CloseParen
    ensures m.Some? ==> exists k :: 1 <= k <= |m.value.group| - 4 && FourDigitsAt(m.value.group, k)
  {
    if s[i] != OpenParen then None
    else
      var close := i + 1 + FirstIndex(s[i + 1..], CloseParen);
      if close == |s| then None
      else
        var inner := s[i + 1..close];
        if exists k :: 1 <= k <= |inner| - 4 && FourDigitsAt(inner, k) then Some(Match(close + 1, inner))
        else None
  }

  function MatchEtAlCitation(s: string, i: nat): (m: Option<Match>)
    requires i < |s|
    ensures m.Some? ==> i + 14 <= m.value.end <= |s|
    ensures m.Some? ==> m.value.end == i + |m.value.group| && m.value.group == s[i..i + |m.value.group|] && IsUpper(m.value.group[0])
  {
    if !IsUpper(s[i]) then None
    else
      var n := Run(s, i + 1, IsLower);
      var q := i + 1 + n;
      if n == 0 || !StartsWithAt(s, q, " et al") then None
      else
        var r := if q + 6 < |s| && s[q + 6] == '.' then q + 7 else q + 6;
        if StartsWithAt(s, r, ", ") && FourDigitsAt(s, r + 2) then Some(Match(r + 6, s[i..r + 6]))
        else None
  }

  /** The century and the whole year, when a year starts at `i`. */
  predicate YearAt(s: string, i: nat)
    requires i < |s|
  {
    NonWordBefore(s, i) && FourDigitsAt(s, i)
      && (s[i..i + 2] == "19" || s[i..i + 2] == "20") && NonWordAt(s, i + 4)
  }

  function MatchYear(s: string, i: nat, wholeYear: bool): (m: Option<Match>)
    requires i < |s|
    ensures m.Some? <==> YearAt(s, i)
    ensures m.Some? ==> m.value.end == i + 4 <= |s|
    ensures m.Some? && !wholeYear ==> m.value.group == "19" || m.value.group == "20"
    ensures m.Some? && wholeYear ==> m.value.group == s[i..i + 4]
  {
    if YearAt(s, i) then Some(Match(i + 4, if wholeYear then s[i..i + 4] else s[i..i + 2])) else None
  }

  /** What may stand at `j` inside `[A-Z][a-z]+(?:\s+[A-Z][a-z]+)*` spanning
      `s[lo..hi]`: a capital first or after whitespace and followed by a
      lower-case letter, a lower-case letter after a non-space, or whitespace
      after the start. */
  predicate PhraseCharAt(s: string, lo: nat, hi: nat, j: nat)
    requires lo <= j < hi <= |s|
  {
    || (IsUpper(s[j]) && (j == lo || IsSpace(s[j - 1])) && j + 1 < hi && IsLower(s[j + 1]))
    || (IsLower(s[j]) && lo < j && !IsSpace(s[j - 1]))
    || (IsSpace(s[j]) && lo < j)
  }

  /** `s[lo..hi]` is a run of capitalised words `[A-Z][a-z]+` separated by
      whitespace. */
  predicate CapitalisedWords(s: string, lo: nat, hi: nat) {
    && lo < hi <= |s| && IsUpper(s[lo]) && IsLower(s[hi - 1])
    && forall j :: lo <= j < hi ==> PhraseCharAt(s, lo, hi, j)
  }

  /** ASCII word characters are not whitespace. */
  lemma {:induction false} WordCharNotSpace(c: char)
    requires IsWordChar(c)
    ensures !IsSpace(c)
  {
    PrintableNotSpace(c);
  }

  /** A single capitalised word is a run of capitalised words. */
  lemma {:induction false} WordPhrase(s: string, k: nat)
    requires k <= |s| && CapitalisedWord(s, k).Some?
    ensures CapitalisedWords(s, k, CapitalisedWord(s, k).value)
  {
    var e := CapitalisedWord(s, k).value;
    forall j | k <= j < e
      ensures PhraseCharAt(s, k, e, j)
    {
      if j > k {
        WordCharNotSpace(s[j - 1]);
      }
    }
  }

  /** Two runs of capitalised words with whitespace between make one. */
  lemma {:induction false} PhraseConcat(s: string, lo: nat, e: nat, p: nat, hi: nat)
    requires CapitalisedWords(s, lo, e) && CapitalisedWords(s, p, hi)
    requires e < p && forall j :: e <= j < p ==> IsSpace(s[j])
    ensures CapitalisedWords(s, lo, hi)
  {
    forall j | lo <= j < hi
      ensures PhraseCharAt(s, lo, hi, j)
    {
      if j < e {
        assert PhraseCharAt(s, lo, e, j);
      } else if j >= p {
        assert PhraseCharAt(s, p, hi, j);
      }
    }
  }

  /** The next word of the chain extends the run. */
  lemma {:induction false} PhraseNextWord(s: string, lo: nat, e: nat)
    requires CapitalisedWords(s, lo, e) && NextWord(s, e).Some?
    ensures CapitalisedWords(s, lo, NextWord(s, e).value)
  {
    var w := Run(s, e, IsSpace);
    WordPhrase(s, e + w);
    PhraseConcat(s, lo, e, e + w, NextWord(s, e).value);
  }

  /** `[A-Z][a-z]+` at `k`: the end of the word, if there is one. */
  function CapitalisedWord(s: string, k: nat): (e: Option<nat>)
    requires k <= |s|
    ensures e.Some? ==> k + 2 <= e.value <= |s| && IsUpper(s[k])
    ensures e.Some? && e.value < |s| ==> !IsLower(s[e.value])
  {
    if k < |s| && IsUpper(s[k]) && Run(s, k + 1, IsLower) >= 1 then Some(k + 1 + Run(s, k + 1, IsLower)) else None
  }

  /** `(?:\s+[A-Z][a-z]+)` after a word ending at `e`: the end of the next word. */
  function NextWord(s: string, e: nat): (x: Option<nat>)
    requires e <= |s|
    ensures x.Some? ==> e + 3 <= x.value <= |s| && IsSpace(s[e])
  {
    var w := Run(s, e, IsSpace);
    if w >= 1 then CapitalisedWord(s, e + w) else None
  }

  /** The end of the greedy chain `(?:\s+[A-Z][a-z]+)*` after a word ending at `e`. */
  function ChainEnd(s: string, e: nat): (x: nat)
    requires e <= |s|
    ensures e <= x <= |s|
    decreases |s| - e
  {
    match NextWord(s, e)
    case Some(e2) => ChainEnd(s, e2)
    case None => e
  }

  /** `\b[A-Z][a-z]+(?:\s+[A-Z][a-z]+)*\b` for the words after one ending at `e`:
      the chain is taken as far as it goes and gives back its last word when no
      word boundary follows it; whitespace always follows a word the chain
      went past, so only a match of the first word alone can fail. */
  function PhraseEnd(s: string, e: nat): (x: Option<nat>)
    requires e <= |s|
    ensures x.Some? ==> e <= x.value <= |s|
    decreases |s| - e
  {
    match NextWord(s, e)
    case Some(e2) => Some(PhraseEnd(s, e2).GetOr(e))
    case None => if NonWordAt(s, e) then Some(e) else None
  }

  /** The greedy chain keeps a run of capitalised words. */
  lemma {:induction false} ChainEndPhrase(s: string, lo: nat, e: nat)
    requires CapitalisedWords(s, lo, e)
    ensures CapitalisedWords(s, lo, ChainEnd(s, e))
    decreases |s| - e
  {
    if NextWord(s, e).Some? {
      PhraseNextWord(s, lo, e);
      ChainEndPhrase(s, lo, NextWord(s, e).value);
    }
  }

  /** Where the phrase ends, a run of capitalised words ends at a word boundary. */
  lemma {:induction false} PhraseEndPhrase(s: string, lo: nat, e: nat)
    requires CapitalisedWords(s, lo, e)
    ensures PhraseEnd(s, e).Some? ==> CapitalisedWords(s, lo, PhraseEnd(s, e).value) && NonWordAt(s, PhraseEnd(s, e).value)
    decreases |s| - e
  {
    if NextWord(s, e).Some? {
      PhraseNextWord(s, lo, e);
      PhraseEndPhrase(s, lo, NextWord(s, e).value);
      if !IsSpace(s[e]) {
        assert false;
      }
      if IsWordChar(s[e]) {
        WordCharNotSpace(s[e]);
      }
    }
  }

  function MatchCapitalisedPhrase(s: string, i: nat): (m: Option<Match>)
    requires i < |s|
    ensures m.Some? ==> i + 2 <= m.value.end <= |s|
    ensures m.Some? ==> m.value.end == i + |m.value.group| && m.value.group == s[i..i + |m.value.group|] && IsUpper(m.value.group[0])
    ensures m.Some? ==> NonWordBefore(s, i) && NonWordAt(s, m.value.end) && CapitalisedWords(s, i, m.value.end)
  {
    if !NonWordBefore(s, i) then None
    else match CapitalisedWord(s, i)
      case None => None
      case Some(e) =>
        WordPhrase(s, i);
        PhraseEndPhrase(s, i, e);
        match PhraseEnd(s, e)
        case None => None
        case Some(x) => Some(Match(x, s[i..x]))
  }

  function MatchAcronym(s: string, i: nat): (m: Option<Match>)
    requires i < |s|
    ensures m.Some? ==> i + 2 <= m.value.end <= |s|
    ensures m.Some? ==> m.value.end == i + |m.value.group| && m.value.group == s[i..i + |m.value.group|]
    ensures m.Some? ==> forall j :: 0 <= j < |m.value.group| ==> IsUpper(m.value.group[j])
  {
    var n := Run(s, i, IsUpper);
    if NonWordBefore(s, i) && n >= 2 && NonWordAt(s, i + n) then Some(Match(i + n, s[i..i + n])) else None
  }

  /** `(?:et\s+al\.?)?` at `p`: where it ends, or `p` when it is absent. */
  function AfterEtAl(s: string, p: nat): (q: nat)
    requires p <= |s|
    ensures p <= q <= |s|
  {
    if StartsWithAt(s, p, "et") && Run(s, p + 2, IsSpace) >= 1
      && StartsWithAt(s, p + 2 + Run(s, p + 2, IsSpace), "al")
    then
      var a := p + 2 + Run(s, p + 2, IsSpace) + 2;
      if a < |s| && s[a] == '.' then a + 1 else a
    else p
  }

  /** `\s*\(?\d{4}\)?` at `q`: where it ends, if it matches. */
  function YearTail(s: string, q: nat): (x: Option<nat>)
    requires q <= |s|
    ensures x.Some? ==> q + 4 <= x.value <= |s|
    ensures x.Some? && s[x.value - 1] == CloseParen ==> q + 5 <= x.value && FourDigitsAt(s, x.value - 5)
    ensures x.Some? && s[x.value - 1] != CloseParen ==> FourDigitsAt(s, x.value - 4)
  {
    var q2 := q + Run(s, q, IsSpace);
    var d := if q2 < |s| && s[q2] == OpenParen then q2 + 1 else q2;
    if !FourDigitsAt(s, d) then None
    else if d + 4 < |s| && s[d + 4] == CloseParen then Some(d + 5)
    else Some(d + 4)
  }

  /** The tail `\s+(?:et\s+al\.?)?\s*\(?\d{4}\)?` after a chain ending at `e`:
      where it ends, if it matches. Each optional part is taken when present,
      and giving it back never helps, so the tail is deterministic. */
  function AuthorTail(s: string, e: nat): (x: Option<nat>)
    requires e <= |s|
    ensures x.Some? ==> e + 5 <= x.value <= |s| && IsSpace(s[e])
    ensures x.Some? && s[x.value - 1] == CloseParen ==> FourDigitsAt(s, x.value - 5)
    ensures x.Some? && s[x.value - 1] != CloseParen ==> FourDigitsAt(s, x.value - 4)
  {
    var w := Run(s, e, IsSpace);
    if w == 0 then None
    else YearTail(s, AfterEtAl(s, e + w))
  }

  /** A shorter chain would leave a capital letter where the tail needs
      whitespace, a digit or `(`, so only the longest chain can match. */
  function MatchAuthorYear(s: string, i: nat): (m: Option<Match>)
    requires i < |s|
    ensures m.Some? ==> i + 7 <= m.value.end <= |s|
    ensures m.Some? ==> 2 <= |m.value.group| && i + |m.value.group| < m.value.end
    ensures m.Some? ==> m.value.group == s[i..i + |m.value.group|]
    ensures m.Some? ==> IsUpper(m.value.group[0])
    ensures m.Some? ==> IsSpace(s[i + |m.value.group|])
    ensures m.Some? ==> CapitalisedWord(s, i).Some? && i + |m.value.group| == ChainEnd(s, CapitalisedWord(s, i).value)
  {
    var w := CapitalisedWord(s, i);
    if w.None? then None
    else
      var e := ChainEnd(s, w.value);
      var t := AuthorTail(s, e);
      if t.None? then None else Some(Match(t.value, s[i..e]))
  }

  /** The reported group of an author-year match is a run of capitalised words. */
  lemma {:induction false} AuthorYearWords(s: string, i: nat)
    requires i < |s| && MatchAuthorYear(s, i).Some?
    ensures var g := MatchAuthorYear(s, i).value.group;
      i + |g| <= |s| && CapitalisedWords(s, i, i + |g|)
  {
    WordPhrase(s, i);
    ChainEndPhrase(s, i, CapitalisedWord(s, i).value);
  }

  /** The suffixes of `\w+(?:ing|tion|ness|ment|ity)`. */
  const NounSuffixes: seq<string> := ["ing", "tion", "ness", "ment", "ity"]

  /** The whole word must be taken, because `\b` cannot fall inside it. */
  function MatchNounEnding(s: string, i: nat): (m: Option<Match>)
    requires i < |s|
    ensures m.Some? ==> i + 4 <= m.value.end <= |s|
    ensures m.Some? ==> m.value.end == i + |m.value.group| && m.value.group == s[i..i + |m.value.group|]
    ensures m.Some? ==> exists k :: 0 <= k < |NounSuffixes| && |NounSuffixes[k]| < |m.value.group|
                                  && EndsWith(m.value.group, NounSuffixes[k])
    ensures m.Some? ==> NonWordBefore(s, i) && NonWordAt(s, m.value.end)
    ensures m.Some? ==> forall j :: i <= j < m.value.end ==> IsWordChar(s[j])
  {
    var n := Run(s, i, IsWordChar);
    var w := s[i..i + n];
    if NonWordBefore(s, i) && exists k :: 0 <= k < |NounSuffixes| && |NounSuffixes[k]| < n && EndsWith(w, NounSuffixes[k])
    then Some(Match(i + n, w))
    else None
  }

  function MatchWordContaining(s: string, i: nat, upper: char, lower: char, rest: string): (m: Option<Match>)
    requires i < |s|
    ensures m.Some? ==> i + 1 + |rest| <= m.value.end <= |s|
    ensures m.Some? ==> m.value.end == i + |m.value.group| && m.value.group == s[i..i + |m.value.group|]
    ensures m.Some? ==> Contains(m.value.group, [upper] + rest) || Contains(m.value.group, [lower] + rest)
    ensures m.Some? ==> NonWordBefore(s, i) && NonWordAt(s, m.value.end)
    ensures m.Some? ==> forall j :: i <= j < m.value.end ==> IsWordChar(s[j])
  {
    var n := Run(s, i, IsWordChar);
    var w := s[i..i + n];
    if NonWordBefore(s, i) && (Contains(w, [upper] + rest) || Contains(w, [lower] + rest)) then Some(Match(i + n, w))
    else None
  }

  /** The last `\n` in `s[lo..hi]`. */
  function LastNewline(s: string, lo: nat, hi: nat): (k: Option<nat>)
    requires lo <= hi <= |s|
    ensures k.Some? ==> lo <= k.value < hi && s[k.value] == '\n'
    ensures k.Some? ==> forall j :: k.value < j < hi ==> s[j] != '\n'
    ensures k.None? ==> forall j :: lo <= j < hi ==> s[j] != '\n'
    decreases hi - lo
  {
    if lo == hi then None
    else if s[hi - 1] == '\n' then Some(hi - 1)
    else LastNewline(s, lo, hi - 1)
  }

  /** `\s*` is greedy and gives back characters until the second `\n`, so the
      match ends just after the last newline of the whitespace run. */
  function MatchBlankLines(s: string, i: nat): (m: Option<Match>)
    requires i < |s|
    ensures m.Some? ==> i + 2 <= m.value.end <= |s|
    ensures m.Some? ==> s[i] == '\n' && s[m.value.end - 1] == '\n'
    ensures m.Some? ==> forall j :: i <= j < m.value.end ==> IsSpace(s[j])
  {
    if s[i] != '\n' then None
    else
      var w := Run(s, i + 1, IsSpace);
      match LastNewline(s, i + 1, i + 1 + w)
      case None => None
      case Some(k) => Some(Match(k + 1, s[i..k + 1]))
  }

  function MatchCharRun(s: string, i: nat, c: char, min: nat): (m: Option<Match>)
    requires i < |s|
    ensures m.Some? <==> RunOf(s, i, c) >= min
    ensures m.Some? ==> m.value.end == i + RunOf(s, i, c)
    ensures m.Some? ==> i + min <= m.value.end <= |s| && m.value.end == i + |m.value.group| && m.value.group == s[i..i + |m.value.group|]
  {
    var n := RunOf(s, i, c);
    if n >= min then Some(Match(i + n, s[i..i + n])) else None
  }

  function MatchPageNumber(s: string, i: nat): (m: Option<Match>)
    requires i < |s|
    ensures m.Some? ==> i + 3 <= m.value.end <= |s|
    ensures m.Some? ==> m.value.end == i + |m.value.group| && m.value.group == s[i..i + |m.value.group|]
    ensures m.Some? ==> s[i] == '\n' && s[m.value.end - 1] == '\n'
    ensures m.Some? ==> forall j :: i < j < m.value.end - 1 ==> IsDigit(s[j])
  {
    var n := if s[i] == '\n' then Run(s, i + 1, IsDigit) else 0;
    if s[i] == '\n' && n >= 1 && i + 1 + n < |s| && s[i + 1 + n] == '\n' then Some(Match(i + 2 + n, s[i..i + 2 + n]))
    else None
  }

  function MatchPageLabel(s: string, i: nat): (m: Option<Match>)
    requires i < |s|
    ensures m.Some? ==> i + 8 <= m.value.end <= |s|
    ensures m.Some? ==> m.value.end == i + |m.value.group| && m.value.group == s[i..i + |m.value.group|]
    ensures m.Some? ==> StartsWithAt(s, i, "\nPage ") && s[m.value.end - 1] == '\n'
    ensures m.Some? ==> forall j :: i + 6 <= j < m.value.end - 1 ==> IsDigit(s[j])
  {
    if !StartsWithAt(s, i, "\nPage ") then None
    else
      var n := Run(s, i + 6, IsDigit);
      if n >= 1 && i + 6 + n < |s| && s[i + 6 + n] == '\n' then Some(Match(i + 7 + n, s[i..i + 7 + n]))
      else None
  }

  /** A newline, one or more digits and a newline at `i` are matched whole. */
  lemma {:induction false} MatchPageNumberComplete(s: string, i: nat, e: nat)
    requires i + 3 <= e <= |s|
    requires s[i] == '\n' && s[e - 1] == '\n'
    requires forall j :: i < j < e - 1 ==> IsDigit(s[j])
    ensures MatchPageNumber(s, i) == Some(Match(e, s[i..e]))
  {
    RunUnique(s, i + 1, IsDigit, e - i - 2);
  }

  /** `\nPage `, one or more digits and a newline at `i` are matched whole. */
  lemma {:induction false} MatchPageLabelComplete(s: string, i: nat, e: nat)
    requires i + 8 <= e <= |s|
    requires StartsWithAt(s, i, "\nPage ") && s[e - 1] == '\n'
    requires forall j :: i + 6 <= j < e - 1 ==> IsDigit(s[j])
    ensures MatchPageLabel(s, i) == Some(Match(e, s[i..e]))
  {
    RunUnique(s, i + 6, IsDigit, e - i - 7);
  }

  /** The colon and two slashes after a URL scheme. */
  const SchemeEnd: string := [':', '/', '/']

  /** `http[s]?:` with two slashes, followed by the longest run of URL characters. */
  function MatchUrl(s: string, i: nat): (m: Option<Match>)
    requires i < |s|
    ensures m.Some? ==> i + 8 <= m.value.end <= |s|
  {
    var h :=
      if StartsWithAt(s, i, "https" + SchemeEnd) then i + 8
      else if StartsWithAt(s, i, "http" + SchemeEnd) then i + 7
      else 0;
    if h == 0 then None
    else
      var n := Run(s, h, IsUrlChar);
      if n >= 1 then Some(Match(h + n, s[i..h + n])) else None
  }

  /** The separator of an e-mail address's user and domain. */
  const AtSign: char := '\U{40}'

  /** The length of the run of non-whitespace characters starting at `i`. */
  function NonSpaceRun(s: string, i: nat): nat
    requires i <= |s|
  {
    Run(s, i, IsNonSpace)
  }

  /** All three `\S+` stay inside the run of non-whitespace starting at `i`, and
      the last one runs to its end, so a match is that whole run. */
  function MatchEmail(s: string, i: nat): (m: Option<Match>)
    requires i < |s|
    ensures m.Some? ==> i + 5 <= m.value.end <= |s|
    ensures m.Some? ==> m.value.end == i + NonSpaceRun(s, i)
    ensures m.Some? ==> m.value.end == i + |m.value.group| && m.value.group == s[i..i + |m.value.group|]
  {
    var e := i + NonSpaceRun(s, i);
    if exists a, d :: i < a && a + 2 <= d && d + 2 <= e && s[a] == AtSign && s[d] == '.'
    then Some(Match(e, s[i..e]))
    else None
  }

  /** The largest `k <= top` at which `keyword` starts at `i + k`, ignoring case. */
  function LastKeyword(s: string, i: nat, keyword: string, top: nat): (k: Option<nat>)
    ensures k.Some? ==> k.value <= top && StartsWithAtIgnoringCase(s, i + k.value, keyword)
    ensures k.Some? ==> forall j :: i + k.value < j <= i + top ==> !StartsWithAtIgnoringCase(s, j, keyword)
    ensures k.None? ==> forall j :: i <= j <= i + top ==> !StartsWithAtIgnoringCase(s, j, keyword)
  {
    if StartsWithAtIgnoringCase(s, i + top, keyword) then Some(top)
    else if top == 0 then None
    else LastKeyword(s, i, keyword, top - 1)
  }

  /** The leading `.{0,50}` is greedy, so it keeps the last occurrence of the
      keyword within fifty characters of the current line; the optional suffix
      character is taken when present and the trailing `.{0,50}` takes as much
      of the line as it may. */
  function MatchLimitationContext(s: string, i: nat, keyword: string, suffixes: string): (m: Option<Match>)
    requires i < |s|
    requires keyword != []
    ensures m.Some? ==> i + |keyword| <= m.value.end <= |s|
    ensures m.Some? ==> m.value.end == i + |m.value.group| && m.value.group == s[i..i + |m.value.group|]
    ensures m.Some? ==> exists k :: i <= k && k + |keyword| <= m.value.end && StartsWithAtIgnoringCase(s, k, keyword)
  {
    match LastKeyword(s, i, keyword, Min(50, Run(s, i, NotNewline)))
    case None => None
    case Some(k) =>
      var p := i + k + |keyword|;
      var q := if p < |s| && LowerChar(s[p]) in suffixes then p + 1 else p;
      var e := q + Min(50, Run(s, q, NotNewline));
      Some(Match(e, s[i..e]))
  }

  /** `[c]` for a single character `c`. */
  function MatchOneChar(s: string, i: nat, c: char): (m: Option<Match>)
    requires i < |s|
    ensures (m.Some? <==> s[i] == c) && (m.Some? ==> m.value.end == i + 1 && m.value.group == s[i..i + 1])
  {
    if s[i] == c then Some(Match(i + 1, [c])) else None
  }

  /** The control-character class. */
  function MatchControlChar(s: string, i: nat): (m: Option<Match>)
    requires i < |s|
    ensures (m.Some? <==> IsControl(s[i])) && (m.Some? ==> m.value.end == i + 1 && m.value.group == s[i..i + 1])
  {
    if IsControl(s[i]) then Some(Match(i + 1, [s[i]])) else None
  }

  /** The match of `p` that starts at `i`, if any. */
  function MatchAt(p: Pattern, s: string, i: nat): (m: Option<Match>)
    requires WellFormed(p) && i < |s|
    ensures m.Some? ==> i + MinLength(p) <= m.value.end <= |s|
  {
    match p
    case BracketNumber => MatchBracketNumber(s, i)
    case ParenthesisedYear => MatchParenthesisedYear(s, i)
    case EtAlCitation => MatchEtAlCitation(s, i)
    case YearCentury => MatchYear(s, i, false)
    case YearFull => MatchYear(s, i, true)
    case AuthorYear => MatchAuthorYear(s, i)
    case Acronym => MatchAcronym(s, i)
    case CapitalisedPhrase => MatchCapitalisedPhrase(s, i)
    case AcronymOrPhrase =>
      var a := MatchAcronym(s, i);
      if a.Some? then a else MatchCapitalisedPhrase(s, i)
    case NounEnding => MatchNounEnding(s, i)
    case WordContaining(upper, lower, rest) => MatchWordContaining(s, i, upper, lower, rest)
    case BlankLines => MatchBlankLines(s, i)
    case CharRun(c, min) => MatchCharRun(s, i, c, min)
    case PageNumber => MatchPageNumber(s, i)
    case PageLabel => MatchPageLabel(s, i)
    case Url => MatchUrl(s, i)
    case Email => MatchEmail(s, i)
    case OneChar(c) => MatchOneChar(s, i, c)
    case ControlChar => MatchControlChar(s, i)
    case LimitationContext(keyword, suffixes) => MatchLimitationContext(s, i, keyword, suffixes)
  }

  // ---------------------------------------------------------------------------
  // re.findall and re.sub

  /** `re.findall(p, s[i:])`, scanning from `i`. */
  function FindAllFrom(p: Pattern, s: string, i: nat): (r: seq<string>)
    requires WellFormed(p) && i <= |s|
    ensures |r| <= |s| - i
    decreases |s| - i
  {
    if i == |s| then []
    else match MatchAt(p, s, i)
      case Some(m) => [m.group] + FindAllFrom(p, s, m.end)
      case None => FindAllFrom(p, s, i + 1)
  }

  function FindAll(p: Pattern, s: string): (r: seq<string>)
    requires WellFormed(p)
    ensures |r| <= |s|
  {
    FindAllFrom(p, s, 0)
  }

  /** `re.sub(p, repl, s[i:])`, scanning from `i`. */
  function SubFrom(p: Pattern, s: string, i: nat, repl: string): (r: string)
    requires WellFormed(p) && i <= |s|
    ensures |repl| <= MinLength(p) ==> |r| <= |s| - i
    decreases |s| - i
  {
    if i == |s| then []
    else match MatchAt(p, s, i)
      case Some(m) => repl + SubFrom(p, s, m.end, repl)
      case None => [s[i]] + SubFrom(p, s, i + 1, repl)
  }

  function Sub(p: Pattern, s: string, repl: string): (r: string)
    requires WellFormed(p)
    ensures |repl| <= MinLength(p) ==> |r| <= |s|
  {
    SubFrom(p, s, 0, repl)
  }

  // ---------------------------------------------------------------------------
  // Properties of findall

  /** Every year that `\b(19|20)\d{2}\b` reports is a century. */
  lemma {:induction false} YearCenturiesFrom(s: string, i: nat)
    requires i <= |s|
    ensures forall g :: g in FindAllFrom(YearCentury, s, i) ==> g == "19" || g == "20"
    decreases |s| - i
  {
    if i < |s| {
      match MatchAt(YearCentury, s, i)
      case Some(m) => YearCenturiesFrom(s, m.end);
      case None => YearCenturiesFrom(s, i + 1);
    }
  }

  lemma YearCenturies(s: string)
    ensures forall g :: g in FindAll(YearCentury, s) ==> g == "19" || g == "20"
  {
    YearCenturiesFrom(s, 0);
  }

  /** A year as the whole-year pattern reports it: four digits starting with
      19 or 20. */
  predicate YearText(y: string) {
    |y| == 4 && (forall j :: 0 <= j < 4 ==> IsDigit(y[j])) && (y[..2] == "19" || y[..2] == "20")
  }

  lemma {:induction false} FullYearsFrom(s: string, i: nat)
    requires i <= |s|
    ensures forall y :: y in FindAllFrom(YearFull, s, i) ==> YearText(y)
    decreases |s| - i
  {
    if i < |s| {
      if YearAt(s, i) {
        FullYearsFrom(s, i + 4);
        var y := s[i..i + 4];
        assert forall j :: 0 <= j < 4 ==> y[j] == s[i + j];
        assert y[..2] == s[i..i + 2];
      } else {
        FullYearsFrom(s, i + 1);
      }
    }
  }

  lemma FullYears(s: string)
    ensures forall y :: y in FindAll(YearFull, s) ==> YearText(y)
  {
    FullYearsFrom(s, 0);
  }

  /** The whole-year pattern matches exactly where the century pattern does,
      so the two report the same number of years, the centuries being the
      first two characters of the years. */
  lemma {:induction false} YearsAndCenturiesFrom(s: string, i: nat)
    requires i <= |s|
    ensures |FindAllFrom(YearFull, s, i)| == |FindAllFrom(YearCentury, s, i)|
    ensures forall k :: 0 <= k < |FindAllFrom(YearFull, s, i)| ==>
      |FindAllFrom(YearFull, s, i)[k]| == 4 && FindAllFrom(YearFull, s, i)[k][..2] == FindAllFrom(YearCentury, s, i)[k]
    decreases |s| - i
  {
    if i < |s| {
      if YearAt(s, i) {
        YearsAndCenturiesFrom(s, i + 4);
      } else {
        YearsAndCenturiesFrom(s, i + 1);
      }
    }
  }

  // ---------------------------------------------------------------------------
  // Properties of sub

  /** A substitution that puts back what it matched changes nothing. */
  lemma {:induction false} SubOneCharIdentityFrom(s: string, i: nat, c: char)
    requires i <= |s|
    ensures SubFrom(OneChar(c), s, i, [c]) == s[i..]
    decreases |s| - i
  {
    if i < |s| {
      SubOneCharIdentityFrom(s, i + 1, c);
      assert s[i..] == [s[i]] + s[i + 1..];
    }
  }

  lemma SubOneCharIdentity(s: string, c: char)
    ensures Sub(OneChar(c), s, [c]) == s
  {
    SubOneCharIdentityFrom(s, 0, c);
  }

  /** Deleting the matches of a one-character class deletes exactly the
      characters of that class. */
  lemma {:induction false} SubControlFrom(s: string, i: nat)
    requires i <= |s|
    ensures forall j :: 0 <= j < |SubFrom(ControlChar, s, i, "")| ==> !IsControl(SubFrom(ControlChar, s, i, "")[j])
    ensures multiset(SubFrom(ControlChar, s, i, "")) <= multiset(s[i..])
    decreases |s| - i
  {
    if i < |s| {
      SubControlFrom(s, i + 1);
      var rest := SubFrom(ControlChar, s, i + 1, "");
      assert s[i..] == [s[i]] + s[i + 1..];
      if IsControl(s[i]) {
        assert SubFrom(ControlChar, s, i, "") == rest;
      } else {
        assert SubFrom(ControlChar, s, i, "") == [s[i]] + rest;
      }
    }
  }

  lemma SubControl(s: string)
    ensures forall j :: 0 <= j < |Sub(ControlChar, s, "")| ==> !IsControl(Sub(ControlChar, s, "")[j])
    ensures multiset(Sub(ControlChar, s, "")) <= multiset(s)
  {
    SubControlFrom(s, 0);
    assert s[0..] == s;
  }

  /** No run of `c` longer than `n` anywhere in `s`. */
  predicate NoRunLonger(s: string, c: char, n: nat) {
    forall j :: 0 <= j <= |s| ==> RunOf(s, j, c) <= n
  }

  /** The run of `c` at position `j` of a concatenation. */
  lemma {:induction false} RunOfConcat(a: string, b: string, j: nat, c: char)
    requires j <= |a|
    requires forall k :: j <= k < |a| ==> a[k] == c
    ensures RunOf(a + b, j, c) == |a| - j + RunOf(b, 0, c)
    decreases |a| - j
  {
    if j < |a| {
      RunOfConcat(a, b, j + 1, c);
    } else {
      RunOfShift(a, b, 0, c);
    }
  }

  /** Runs inside the right operand of a concatenation are unaffected. */
  lemma {:induction false} RunOfShift(a: string, b: string, j: nat, c: char)
    requires j <= |b|
    ensures RunOf(a + b, |a| + j, c) == RunOf(b, j, c)
    decreases |b| - j
  {
    if j < |b| {
      RunOfShift(a, b, j + 1, c);
    }
  }

  /** A run that starts at a character other than `c` is empty. */
  lemma RunOfNone(a: string, b: string, c: char)
    requires a != [] && a[0] != c
    ensures RunOf(a + b, 0, c) == 0
  {
  }

  /** After collapsing, the run of `c` at the front is the input's run capped at `n`. */
  lemma {:induction false} CollapsedLeadFrom(s: string, i: nat, c: char, n: nat)
    requires n >= 1 && i <= |s|
    ensures RunOf(SubFrom(CharRun(c, n), s, i, Repeat(c, n)), 0, c) == Min(RunOf(s, i, c), n)
    decreases |s| - i
  {
    var r := SubFrom(CharRun(c, n), s, i, Repeat(c, n));
    if i < |s| {
      var l := RunOf(s, i, c);
      if l >= n {
        var rest := SubFrom(CharRun(c, n), s, i + l, Repeat(c, n));
        assert r == Repeat(c, n) + rest;
        CollapsedLeadFrom(s, i + l, c, n);
        RunOfConcat(Repeat(c, n), rest, 0, c);
      } else {
        var rest := SubFrom(CharRun(c, n), s, i + 1, Repeat(c, n));
        assert r == [s[i]] + rest;
        if l > 0 {
          CollapsedLeadFrom(s, i + 1, c, n);
          RunOfConcat([s[i]], rest, 0, c);
        }
      }
    }
  }

  /** `re.sub('c{n,}', c * n, s)` leaves no run of `c` longer than `n`. */
  lemma {:induction false} CollapsedRunsFrom(s: string, i: nat, c: char, n: nat)
    requires n >= 1 && i <= |s|
    ensures NoRunLonger(SubFrom(CharRun(c, n), s, i, Repeat(c, n)), c, n)
    decreases |s| - i
  {
    var r := SubFrom(CharRun(c, n), s, i, Repeat(c, n));
    if i < |s| {
      var l := RunOf(s, i, c);
      var head := if l >= n then Repeat(c, n) else [s[i]];
      var next := if l >= n then i + l else i + 1;
      var rest := SubFrom(CharRun(c, n), s, next, Repeat(c, n));
      assert r == head + rest;
      CollapsedRunsFrom(s, next, c, n);
      CollapsedLeadFrom(s, next, c, n);
      forall j | 0 <= j <= |r|
        ensures RunOf(r, j, c) <= n
      {
        if j >= |head| {
          RunOfShift(head, rest, j - |head|, c);
        } else if head[0] != c {
          RunOfNone(head, rest, c);
        } else {
          RunOfConcat(head, rest, j, c);
          if l >= n {
            assert RunOf(s, i + l, c) == 0;
          } else {
            assert RunOf(s, i, c) == 1 + RunOf(s, i + 1, c);
          }
        }
      }
    }
  }

  lemma CollapsedRuns(s: string, c: char, n: nat)
    requires n >= 1
    ensures NoRunLonger(Sub(CharRun(c, n), s, Repeat(c, n)), c, n)
  {
    CollapsedRunsFrom(s, 0, c, n);
  }

  /** Collapsing text whose runs are already short changes nothing; in
      particular the collapsing passes are idempotent. */
  lemma {:induction false} CollapseNoopFrom(s: string, i: nat, c: char, n: nat)
    requires n >= 1 && i <= |s|
    requires NoRunLonger(s, c, n)
    ensures SubFrom(CharRun(c, n), s, i, Repeat(c, n)) == s[i..]
    decreases |s| - i
  {
    if i < |s| {
      var l := RunOf(s, i, c);
      var m := MatchAt(CharRun(c, n), s, i);
      assert m.Some? <==> l >= n;
      if l >= n {
        assert l == n && m.value.end == i + n;
        CollapseNoopFrom(s, i + l, c, n);
        assert s[i..i + n] == Repeat(c, n);
        assert s[i..] == s[i..i + n] + s[i + n..];
      } else {
        CollapseNoopFrom(s, i + 1, c, n);
        assert s[i..] == [s[i]] + s[i + 1..];
      }
    }
  }

  lemma CollapseIdempotent(s: string, c: char, n: nat)
    requires n >= 1
    ensures Sub(CharRun(c, n), Sub(CharRun(c, n), s, Repeat(c, n)), Repeat(c, n))
         == Sub(CharRun(c, n), s, Repeat(c, n))
  {
    var once := Sub(CharRun(c, n), s, Repeat(c, n));
    CollapsedRuns(s, c, n);
    CollapseNoopFrom(once, 0, c, n);
    assert once[0..] == once;
  }
}
