/** The parts of Python's `str` and `list` behaviour that the analysis code
    relies on: character classes, case mapping, `in`, `strip()`, `split(sep)`,
    `split()`, `join`, slicing and de-duplication. Strings are sequences of
    Unicode scalar values, as Python's are of code points. */
module Text {

  // ---------------------------------------------------------------------------
  // Character classes

  /** The code-point ranges of the characters `str.isspace()` accepts; `\s`
      matches the same set. */
  const SpaceRanges: seq<(char, char)> := [
    (' ', ' '), ('\t', '\r'), ('\U{1c}', '\U{1f}'), ('\U{85}', '\U{85}'), ('\U{a0}', '\U{a0}'),
    ('\U{1680}', '\U{1680}'), ('\U{2000}', '\U{200a}'), ('\U{2028}', '\U{2029}'),
    ('\U{202f}', '\U{202f}'), ('\U{205f}', '\U{205f}'), ('\U{3000}', '\U{3000}')
  ]

  /** `c` lies in one of the space ranges from the `k`-th on. */
  predicate InSpaceRanges(c: char, k: nat)
    decreases |SpaceRanges| - k
  {
    k < |SpaceRanges| && (SpaceRanges[k].0 <= c <= SpaceRanges[k].1 || InSpaceRanges(c, k + 1))
  }

  /** `str.isspace()` for one character. */
  predicate IsSpace(c: char) {
    InSpaceRanges(c, 0)
  }

  /** The whitespace set written out. */
  lemma IsSpaceCases(c: char)
    ensures IsSpace(c) <==>
      || c == ' '
      || ('\t' <= c <= '\r')
      || ('\U{1c}' <= c <= '\U{1f}')
      || c == '\U{85}'
      || c == '\U{a0}'
      || c == '\U{1680}'
      || ('\U{2000}' <= c <= '\U{200a}')
      || c == '\U{2028}' || c == '\U{2029}'
      || c == '\U{202f}'
      || c == '\U{205f}'
      || c == '\U{3000}'
  {
    assert InSpaceRanges(c, 0) == (c == ' ' || InSpaceRanges(c, 1));
    assert InSpaceRanges(c, 1) == ('\t' <= c <= '\r' || InSpaceRanges(c, 2));
    assert InSpaceRanges(c, 2) == ('\U{1c}' <= c <= '\U{1f}' || InSpaceRanges(c, 3));
    assert InSpaceRanges(c, 3) == (c == '\U{85}' || InSpaceRanges(c, 4));
    assert InSpaceRanges(c, 4) == (c == '\U{a0}' || InSpaceRanges(c, 5));
    assert InSpaceRanges(c, 5) == (c == '\U{1680}' || InSpaceRanges(c, 6));
    assert InSpaceRanges(c, 6) == ('\U{2000}' <= c <= '\U{200a}' || InSpaceRanges(c, 7));
    assert InSpaceRanges(c, 7) == ('\U{2028}' <= c <= '\U{2029}' || InSpaceRanges(c, 8));
    assert InSpaceRanges(c, 8) == (c == '\U{202f}' || InSpaceRanges(c, 9));
    assert InSpaceRanges(c, 9) == (c == '\U{205f}' || InSpaceRanges(c, 10));
    assert InSpaceRanges(c, 10) == (c == '\U{3000}' || InSpaceRanges(c, 11));
    assert !InSpaceRanges(c, 11);
  }

  /** Printable ASCII other than the space is not whitespace. */
  lemma PrintableNotSpace(c: char)
    requires '!' <= c <= '~'
    ensures !IsSpace(c)
  {
    IsSpaceCases(c);
  }

  /** `\S` */
  predicate IsNonSpace(c: char) {
    !IsSpace(c)
  }

  /** `\d`, ASCII digits. */
  predicate IsDigit(c: char) {
    '0' <= c <= '9'
  }

  /** `[A-Z]` */
  predicate IsUpper(c: char) {
    'A' <= c <= 'Z'
  }

  /** `[a-z]` */
  predicate IsLower(c: char) {
    'a' <= c <= 'z'
  }

  /** `\w`, ASCII word characters. */
  predicate IsWordChar(c: char) {
    IsDigit(c) || IsUpper(c) || IsLower(c) || c == '_'
  }

  /** `c.lower()` */
  function LowerChar(c: char): (r: char)
    ensures !IsUpper(r)
    ensures !IsUpper(c) ==> r == c
    ensures IsSpace(r) == IsSpace(c)
  {
    if IsUpper(c) then (c as int + 32) as char else c
  }

  /** `c.upper()` */
  function UpperChar(c: char): (r: char)
    ensures !IsLower(r)
    ensures !IsLower(c) ==> r == c
    ensures IsSpace(r) == IsSpace(c)
  {
    if IsLower(c) then (c as int - 32) as char else c
  }

  /** `s.lower()` */
  function Lower(s: string): (r: string)
    ensures |r| == |s|
    ensures forall i :: 0 <= i < |s| ==> r[i] == LowerChar(s[i])
  {
    seq(|s|, i requires 0 <= i < |s| => LowerChar(s[i]))
  }

  /** `s[0].upper() + s[1:]` when `s and s[0].islower()`, else `s`. */
  function Capitalize(s: string): (r: string)
    ensures |r| == |s|
    ensures r != [] ==> !IsLower(r[0]) && r[1..] == s[1..]
    ensures r != [] ==> IsSpace(r[0]) == IsSpace(s[0])
    ensures r != [] ==> r[0] == UpperChar(s[0])
  {
    if s != [] && IsLower(s[0]) then [UpperChar(s[0])] + s[1..] else s
  }

  lemma CapitalizeIdempotent(s: string)
    ensures Capitalize(Capitalize(s)) == Capitalize(s)
  {
  }

  // ---------------------------------------------------------------------------
  // Runs of characters of one class

  /** The length of the longest run of characters satisfying `P` from `i`. */
  function Run(s: string, i: nat, P: char -> bool): (n: nat)
    requires i <= |s|
    ensures i + n <= |s|
    ensures forall j :: i <= j < i + n ==> P(s[j])
    ensures i + n < |s| ==> !P(s[i + n])
    decreases |s| - i
  {
    if i == |s| || !P(s[i]) then 0 else 1 + Run(s, i + 1, P)
  }

  /** The run length is determined by the two properties in Run's contract. */
  lemma {:induction false} RunUnique(s: string, i: nat, P: char -> bool, n: nat)
    requires i + n <= |s|
    requires forall j :: i <= j < i + n ==> P(s[j])
    requires i + n < |s| ==> !P(s[i + n])
    ensures Run(s, i, P) == n
    decreases n
  {
    if n > 0 {
      RunUnique(s, i + 1, P, n - 1);
    }
  }

  /** The length of the run of copies of `c` from `i`. */
  function RunOf(s: string, i: nat, c: char): (n: nat)
    requires i <= |s|
    ensures i + n <= |s|
    ensures forall j :: i <= j < i + n ==> s[j] == c
    ensures i + n < |s| ==> s[i + n] != c
    decreases |s| - i
  {
    if i == |s| || s[i] != c then 0 else 1 + RunOf(s, i + 1, c)
  }

  lemma {:induction false} RunOfUnique(s: string, i: nat, c: char, n: nat)
    requires i + n <= |s|
    requires forall j :: i <= j < i + n ==> s[j] == c
    requires i + n < |s| ==> s[i + n] != c
    ensures RunOf(s, i, c) == n
    decreases n
  {
    if n > 0 {
      RunOfUnique(s, i + 1, c, n - 1);
    }
  }

  /** `n` copies of `c`. */
  function Repeat(c: char, n: nat): (r: string)
    ensures |r| == n
    ensures forall j :: 0 <= j < n ==> r[j] == c
  {
    seq(n, _ => c)
  }

  // ---------------------------------------------------------------------------
  // Substrings

  /** `s[i:].startswith(p)` */
  predicate StartsWithAt(s: string, i: nat, p: string) {
    i + |p| <= |s| && s[i..i + |p|] == p
  }

  predicate StartsWith(s: string, p: string) {
    StartsWithAt(s, 0, p)
  }

  predicate EndsWith(s: string, p: string) {
    |p| <= |s| && s[|s| - |p|..] == p
  }

  /** Python's `p in s` for strings. */
  predicate Contains(s: string, p: string) {
    exists i :: 0 <= i <= |s| - |p| && StartsWithAt(s, i, p)
  }

  // ---------------------------------------------------------------------------
  // strip()

  function LeadingSpaces(s: string): (k: nat)
    ensures k <= |s|
    ensures forall j :: 0 <= j < k ==> IsSpace(s[j])
    ensures k < |s| ==> !IsSpace(s[k])
  {
    if s == [] || !IsSpace(s[0]) then 0 else 1 + LeadingSpaces(s[1..])
  }

  function TrailingSpaces(s: string): (k: nat)
    ensures k <= |s|
    ensures forall j :: |s| - k <= j < |s| ==> IsSpace(s[j])
    ensures k < |s| ==> !IsSpace(s[|s| - 1 - k])
  {
    if s == [] || !IsSpace(s[|s| - 1]) then 0 else 1 + TrailingSpaces(s[..|s| - 1])
  }

  /** `s.strip()`: the slice of `s` left after removing whitespace at both ends. */
  function Strip(s: string): (r: string)
    ensures |r| <= |s|
    ensures r != [] ==> !IsSpace(r[0]) && !IsSpace(r[|r| - 1])
    ensures LeadingSpaces(s) + |r| <= |s|
    ensures r == s[LeadingSpaces(s)..LeadingSpaces(s) + |r|]
    ensures forall j :: 0 <= j < LeadingSpaces(s) ==> IsSpace(s[j])
    ensures forall j :: LeadingSpaces(s) + |r| <= j < |s| ==> IsSpace(s[j])
  {
    var t := s[LeadingSpaces(s)..];
    t[..|t| - TrailingSpaces(t)]
  }

  /** What strip() keeps is exactly what is left between whitespace margins. */
  lemma {:induction false} StripUnique(s: string, a: nat, b: nat)
    requires a <= b <= |s|
    requires forall j :: 0 <= j < a ==> IsSpace(s[j])
    requires forall j :: b <= j < |s| ==> IsSpace(s[j])
    requires a < b ==> !IsSpace(s[a]) && !IsSpace(s[b - 1])
    ensures Strip(s) == s[a..b]
  {
    var r := Strip(s);
    var l := LeadingSpaces(s);
    if a < b {
      assert l == a;
      assert !IsSpace(s[b - 1]);
      assert l + |r| >= b;
      assert r[|r| - 1] == s[l + |r| - 1];
    } else {
      assert l == |s|;
    }
  }

  lemma StripNoop(s: string)
    requires s != [] ==> !IsSpace(s[0]) && !IsSpace(s[|s| - 1])
    ensures Strip(s) == s
  {
    StripUnique(s, 0, |s|);
  }

  lemma StripIdempotent(s: string)
    ensures Strip(Strip(s)) == Strip(s)
  {
    StripNoop(Strip(s));
  }

  /** Every character strip() keeps comes from its input. */
  lemma StripSubset(s: string)
    ensures forall j :: 0 <= j < |Strip(s)| ==> Strip(s)[j] in s
  {
    var l := LeadingSpaces(s);
    forall j | 0 <= j < |Strip(s)|
      ensures Strip(s)[j] in s
    {
      assert Strip(s)[j] == s[l + j];
    }
  }

  // ---------------------------------------------------------------------------
  // split(sep) and join

  /** The index of the first `c` in `s`, or `|s|`. */
  function FirstIndex(s: string, c: char): (k: nat)
    ensures k <= |s|
    ensures forall j :: 0 <= j < k ==> s[j] != c
    ensures k < |s| ==> s[k] == c
  {
    if s == [] || s[0] == c then 0 else 1 + FirstIndex(s[1..], c)
  }

  lemma {:induction false} FirstIndexUnique(s: string, c: char, k: nat)
    requires k <= |s|
    requires forall j :: 0 <= j < k ==> s[j] != c
    requires k < |s| ==> s[k] == c
    ensures FirstIndex(s, c) == k
    decreases k
  {
    if k > 0 {
      FirstIndexUnique(s[1..], c, k - 1);
    }
  }

  /** `s.split(sep)` for a one-character separator. */
  function Split(s: string, sep: char): (r: seq<string>)
    ensures |r| >= 1
    ensures forall k :: 0 <= k < |r| ==> sep !in r[k]
    decreases |s|
  {
    var k := FirstIndex(s, sep);
    if k == |s| then [s] else [s[..k]] + Split(s[k + 1..], sep)
  }

  /** `sep.join(xs)` */
  function Join(xs: seq<string>, sep: string): string {
    if |xs| == 0 then "" else if |xs| == 1 then xs[0] else xs[0] + sep + Join(xs[1..], sep)
  }

  /** Joining the pieces of a split with the separator gives the text back. */
  lemma {:induction false} JoinSplit(s: string, sep: char)
    ensures Join(Split(s, sep), [sep]) == s
    decreases |s|
  {
    var k := FirstIndex(s, sep);
    if k < |s| {
      JoinSplit(s[k + 1..], sep);
      assert s == s[..k] + [sep] + s[k + 1..];
    }
  }

  /** Splitting a join of separator-free pieces gives the pieces back. */
  lemma {:induction false} SplitJoin(xs: seq<string>, sep: char)
    requires |xs| >= 1
    requires forall k :: 0 <= k < |xs| ==> sep !in xs[k]
    ensures Split(Join(xs, [sep]), sep) == xs
    decreases |xs|
  {
    var s := Join(xs, [sep]);
    if |xs| == 1 {
      assert FirstIndex(s, sep) == |s|;
    } else {
      var rest := Join(xs[1..], [sep]);
      assert s == xs[0] + [sep] + rest;
      assert s[|xs[0]|] == sep;
      assert forall j :: 0 <= j < |xs[0]| ==> s[j] == xs[0][j];
      assert FirstIndex(s, sep) == |xs[0]|;
      assert s[..|xs[0]|] == xs[0];
      assert s[|xs[0]| + 1..] == rest;
      SplitJoin(xs[1..], sep);
    }
  }

  /** A trailing separator adds one empty piece to a split. */
  lemma {:induction false} SplitSnoc(s: string, sep: char)
    ensures Split(s + [sep], sep) == Split(s, sep) + [""]
    decreases |s|
  {
    var t := s + [sep];
    var k := FirstIndex(s, sep);
    if k < |s| {
      FirstIndexUnique(t, sep, k);
      assert t[..k] == s[..k];
      assert t[k + 1..] == s[k + 1..] + [sep];
      SplitSnoc(s[k + 1..], sep);
    } else {
      FirstIndexUnique(t, sep, |s|);
      assert t[..|s|] == s;
      assert t[|s| + 1..] == [];
    }
  }

  /** Joining splits off the last piece. */
  lemma {:induction false} JoinLast(xs: seq<string>, sep: string)
    requires |xs| >= 2
    ensures Join(xs, sep) == Join(xs[..|xs| - 1], sep) + sep + xs[|xs| - 1]
    decreases |xs|
  {
    if |xs| > 2 {
      JoinLast(xs[1..], sep);
      assert xs[1..][..|xs[1..]| - 1] == xs[..|xs| - 1][1..];
    }
  }

  // ---------------------------------------------------------------------------
  // split() and ' '.join

  /** A whitespace-free, non-empty word. */
  predicate IsToken(w: string) {
    w != [] && forall j :: 0 <= j < |w| ==> !IsSpace(w[j])
  }

  /** `s.split()`: the maximal runs of non-whitespace characters, in order. */
  function Words(s: string): (r: seq<string>)
    ensures forall k :: 0 <= k < |r| ==> IsToken(r[k])
    decreases |s|
  {
    var t := s[LeadingSpaces(s)..];
    if t == [] then []
    else
      var n := Run(t, 0, IsNonSpace);
      [t[..n]] + Words(t[n..])
  }

  lemma WordsAfterSpace(s: string)
    requires s != [] && IsSpace(s[0])
    ensures Words(s) == Words(s[1..])
  {
    assert LeadingSpaces(s) == 1 + LeadingSpaces(s[1..]);
    assert s[LeadingSpaces(s)..] == s[1..][LeadingSpaces(s[1..])..];
  }

  /** Splitting a space-joined list of words gives the words back. */
  lemma {:induction false} WordsOfJoin(ws: seq<string>)
    requires forall k :: 0 <= k < |ws| ==> IsToken(ws[k])
    ensures Words(Join(ws, " ")) == ws
    decreases |ws|
  {
    if |ws| == 0 {
    } else {
      var w := ws[0];
      var s := Join(ws, " ");
      var rest := if |ws| == 1 then "" else " " + Join(ws[1..], " ");
      assert s == w + rest;
      assert LeadingSpaces(s) == 0;
      assert forall j :: 0 <= j < |w| ==> s[j] == w[j];
      assert |w| < |s| ==> s[|w|] == ' ';
      RunUnique(s, 0, IsNonSpace, |w|);
      assert s[..|w|] == w;
      assert s[|w|..] == rest;
      if |ws| > 1 {
        WordsAfterSpace(rest);
        assert rest[1..] == Join(ws[1..], " ");
        WordsOfJoin(ws[1..]);
      }
    }
  }

  /** The first character of a space-joined list of words is a word character,
      and so is the last. */
  lemma {:induction false} JoinEnds(ws: seq<string>)
    requires |ws| >= 1
    requires forall k :: 0 <= k < |ws| ==> IsToken(ws[k])
    requires IsToken(ws[0]) && IsToken(ws[|ws| - 1])
    ensures |Join(ws, " ")| >= |ws[0]|
    ensures Join(ws, " ")[0] == ws[0][0]
    ensures Join(ws, " ")[|Join(ws, " ")| - 1] == ws[|ws| - 1][|ws[|ws| - 1]| - 1]
    decreases |ws|
  {
    if |ws| > 1 {
      assert IsToken(ws[1..][0]);
      JoinEnds(ws[1..]);
      var rest := Join(ws[1..], " ");
      assert Join(ws, " ") == ws[0] + " " + rest;
    }
  }

  /** A space-joined list of words has nothing for strip() to remove. */
  lemma JoinIsStripped(ws: seq<string>)
    requires forall k :: 0 <= k < |ws| ==> IsToken(ws[k])
    ensures Strip(Join(ws, " ")) == Join(ws, " ")
  {
    if |ws| > 0 {
      JoinEndsNotSpace(ws);
    }
    StripNoop(Join(ws, " "));
  }

  lemma JoinEndsNotSpace(ws: seq<string>)
    requires |ws| > 0
    requires forall k :: 0 <= k < |ws| ==> IsToken(ws[k])
    ensures var s := Join(ws, " "); s != [] && !IsSpace(s[0]) && !IsSpace(s[|s| - 1])
  {
    var a, z := ws[0], ws[|ws| - 1];
    assert IsToken(a) && IsToken(z);
    JoinEnds(ws);
  }

  // ---------------------------------------------------------------------------
  // Lists

  function Min(a: nat, b: nat): nat {
    if a <= b then a else b
  }

  predicate Distinct<T(==)>(s: seq<T>) {
    forall i, j :: 0 <= i < j < |s| ==> s[i] != s[j]
  }

  /** `s[:n]` for `n >= 0`. */
  function Take<T>(s: seq<T>, n: nat): (r: seq<T>)
    ensures |r| == if n < |s| then n else |s|
    ensures r == s[..|r|]
  {
    if n < |s| then s[..n] else s
  }

  /** A prefix keeps its items distinct and drawn from the whole. */
  lemma TakeDistinct<T>(s: seq<T>, n: nat)
    requires Distinct(s)
    ensures Distinct(Take(s, n))
    ensures forall x :: x in Take(s, n) ==> x in s
  {
  }

  /** `s[:stop]` for any integer `stop`; a negative stop counts from the end. */
  function PrefixTo<T>(s: seq<T>, stop: int): (r: seq<T>)
    ensures |r| <= |s|
    ensures r == s[..|r|]
    ensures stop >= 0 ==> r == Take(s, stop)
  {
    if stop >= 0 then Take(s, stop)
    else if |s| + stop <= 0 then []
    else s[..|s| + stop]
  }

  /** The distinct elements of `s` in the order of their first appearance
      (`list(dict.fromkeys(s))`, the key order of a `Counter`). */
  function Dedup<T(==,!new)>(s: seq<T>): (r: seq<T>)
    ensures Distinct(r)
    ensures forall x :: x in r <==> x in s
    ensures |r| <= |s|
  {
    if s == [] then []
    else
      var d := Dedup(s[..|s| - 1]);
      if s[|s| - 1] in d then d else d + [s[|s| - 1]]
  }

  /** `Dedup` lists the items in the order of their first appearance: an
      item listed earlier occurs in `s` before any occurrence of a later one. */
  lemma {:induction false} DedupFirstAppearance<T(!new)>(s: seq<T>, p: nat, q: nat)
    requires p < q < |Dedup(s)|
    ensures exists i :: 0 <= i < |s| && s[i] == Dedup(s)[p] && Dedup(s)[q] !in s[..i + 1]
  {
    var init := s[..|s| - 1];
    var d := Dedup(init);
    if q < |d| {
      DedupFirstAppearance(init, p, q);
      var i :| 0 <= i < |init| && init[i] == d[p] && d[q] !in init[..i + 1];
      assert s[..i + 1] == init[..i + 1];
    } else {
      assert d[p] in init;
      var i :| 0 <= i < |init| && init[i] == d[p];
      assert Dedup(s)[q] == s[|s| - 1] && s[|s| - 1] !in init;
      assert s[..i + 1] == init[..i + 1];
    }
  }

  /** Lists the elements of a set in an order the caller cannot know, as
      `list(s)` does for a Python set. */
  method Enumerate<T(==)>(s: set<T>) returns (r: seq<T>)
    ensures Distinct(r)
    ensures forall x :: x in r <==> x in s
    ensures |r| == |s|
  {
    r := [];
    var rest := s;
    while rest != {}
      invariant rest !! (set x | x in r)
      invariant forall x :: x in s <==> x in rest || x in r
      invariant Distinct(r)
      invariant |r| + |rest| == |s|
      decreases |rest|
    {
      var x :| x in rest;
      r := r + [x];
      rest := rest - {x};
    }
  }

  /** A distinct sequence whose elements are exactly those of `s` has the
      size of `s`. */
  lemma DistinctCardinality<T>(r: seq<T>)
    requires Distinct(r)
    ensures |set x | x in r| == |r|
  {
    if r != [] {
      var t := r[..|r| - 1];
      var last := r[|r| - 1];
      DistinctCardinality(t);
      assert (set x | x in r) == (set x | x in t) + {last};
      assert last !in t;
    }
  }

  /** `r` lists the elements of `r` in the order they have in `xs`. */
  predicate SubsequenceOf<T(==)>(r: seq<T>, xs: seq<T>)
    decreases |xs|
  {
    if r == [] then true
    else if xs == [] then false
    else if r[0] == xs[0] then SubsequenceOf(r[1..], xs[1..])
    else SubsequenceOf(r, xs[1..])
  }

  lemma {:induction false} SubsequenceOfMembers<T>(r: seq<T>, xs: seq<T>)
    requires SubsequenceOf(r, xs)
    ensures forall x :: x in r ==> x in xs
    decreases |xs|
  {
    if r != [] {
      if r[0] == xs[0] {
        SubsequenceOfMembers(r[1..], xs[1..]);
        assert r == [r[0]] + r[1..];
        assert xs == [xs[0]] + xs[1..];
      } else {
        SubsequenceOfMembers(r, xs[1..]);
      }
    }
  }

  lemma {:induction false} SubsequenceOfDistinct<T>(r: seq<T>, xs: seq<T>)
    requires SubsequenceOf(r, xs) && Distinct(xs)
    ensures Distinct(r)
    decreases |xs|
  {
    if r != [] {
      if r[0] == xs[0] {
        SubsequenceOfDistinct(r[1..], xs[1..]);
        SubsequenceOfMembers(r[1..], xs[1..]);
        assert xs[0] !in xs[1..];
      } else {
        SubsequenceOfDistinct(r, xs[1..]);
      }
    }
  }

  lemma {:induction false} SubsequenceOfTake<T>(r: seq<T>, xs: seq<T>, n: nat)
    requires SubsequenceOf(r, xs)
    ensures SubsequenceOf(Take(r, n), xs)
    decreases |xs|
  {
    if n < |r| && r != [] && n > 0 {
      if r[0] == xs[0] {
        assert Take(r, n)[1..] == Take(r[1..], n - 1);
        SubsequenceOfTake(r[1..], xs[1..], n - 1);
      } else {
        SubsequenceOfTake(r, xs[1..], n);
      }
    }
  }

  // ---------------------------------------------------------------------------
  // Filtering comprehensions

  /** `[x for x in xs if keep(x)]` */
  function Filter<T>(xs: seq<T>, keep: T -> bool): (r: seq<T>)
    ensures |r| <= |xs|
  {
    if xs == [] then [] else (if keep(xs[0]) then [xs[0]] else []) + Filter(xs[1..], keep)
  }

  /** The filter keeps exactly the items that pass. */
  lemma {:induction false} FilterMembers<T>(xs: seq<T>, keep: T -> bool)
    ensures forall x :: x in Filter(xs, keep) <==> x in xs && keep(x)
  {
    if xs != [] {
      FilterMembers(xs[1..], keep);
      assert xs == [xs[0]] + xs[1..];
    }
  }

  /** Nothing is kept when no item passes. */
  lemma {:induction false} FilterNone<T>(xs: seq<T>, keep: T -> bool)
    requires forall x :: x in xs ==> !keep(x)
    ensures Filter(xs, keep) == []
  {
    if xs != [] {
      assert xs[0] in xs;
      FilterNone(xs[1..], keep);
    }
  }

  /** The filter keeps the items in their order. */
  lemma {:induction false} FilterSubsequence<T>(xs: seq<T>, keep: T -> bool)
    ensures SubsequenceOf(Filter(xs, keep), xs)
  {
    if xs != [] {
      FilterSubsequence(xs[1..], keep);
      if keep(xs[0]) {
        assert Filter(xs, keep)[1..] == Filter(xs[1..], keep);
      } else {
        assert Filter(xs, keep) == Filter(xs[1..], keep);
        SubsequenceOfSkip(Filter(xs, keep), xs);
      }
    }
  }

  /** An item of `xs` may be skipped. */
  lemma {:induction false} SubsequenceOfSkip<T>(r: seq<T>, xs: seq<T>)
    requires xs != [] && SubsequenceOf(r, xs[1..])
    ensures SubsequenceOf(r, xs)
    decreases |xs|, 0
  {
    if r != [] && r[0] == xs[0] {
      SubsequenceOfDropHead(r, xs[1..]);
    }
  }

  lemma {:induction false} SubsequenceOfDropHead<T>(r: seq<T>, ys: seq<T>)
    requires r != [] && SubsequenceOf(r, ys)
    ensures SubsequenceOf(r[1..], ys)
    decreases |ys|, 1
  {
    if r[0] == ys[0] {
      SubsequenceOfSkip(r[1..], ys);
    } else {
      SubsequenceOfDropHead(r, ys[1..]);
      SubsequenceOfSkip(r[1..], ys);
    }
  }

  /** The loop that appends the items that pass. */
  method KeepWhere<T>(xs: seq<T>, keep: T -> bool) returns (r: seq<T>)
    ensures r == Filter(xs, keep)
  {
    r := [];
    for k := 0 to |xs|
      invariant Filter(xs, keep) == r + Filter(xs[k..], keep)
    {
      assert xs[k..][1..] == xs[k + 1..];
      if keep(xs[k]) {
        r := r + [xs[k]];
      }
    }
  }

  lemma ConcatAssoc<T>(a: seq<T>, b: seq<T>, c: seq<T>)
    ensures (a + b) + c == a + (b + c)
  {
  }

  /** `[f(x) for x in xs]` */
  function Map<A, B>(xs: seq<A>, f: A -> B): (r: seq<B>)
    ensures |r| == |xs|
    ensures forall i :: 0 <= i < |xs| ==> r[i] == f(xs[i])
  {
    seq(|xs|, i requires 0 <= i < |xs| => f(xs[i]))
  }

  lemma MapAppend<A, B>(a: seq<A>, b: seq<A>, f: A -> B)
    ensures Map(a + b, f) == Map(a, f) + Map(b, f)
  {
  }

  /** One step of `[f(x) for x in xs if keep(x)]`: the first item's image, if
      it is kept, then the rest. */
  lemma MapFilterStep<A, B>(xs: seq<A>, keep: A -> bool, f: A -> B)
    requires xs != []
    ensures Map(Filter(xs, keep), f) == (if keep(xs[0]) then [f(xs[0])] else []) + Map(Filter(xs[1..], keep), f)
  {
    var head := if keep(xs[0]) then [xs[0]] else [];
    assert Filter(xs, keep) == head + Filter(xs[1..], keep);
    MapAppend(head, Filter(xs[1..], keep), f);
    if keep(xs[0]) {
      assert Map(head, f) == [f(xs[0])];
    } else {
      assert Map(head, f) == [];
    }
  }

  /** `[f(x) for x in xs if keep(x)]` holds the images of the items kept. */
  lemma MapFilterMembers<A, B>(xs: seq<A>, keep: A -> bool, f: A -> B)
    ensures forall y :: y in Map(Filter(xs, keep), f) <==> exists i :: 0 <= i < |xs| && keep(xs[i]) && y == f(xs[i])
  {
    var kept := Filter(xs, keep);
    FilterMembers(xs, keep);
    forall y | y in Map(kept, f)
      ensures exists i :: 0 <= i < |xs| && keep(xs[i]) && y == f(xs[i])
    {
      var k :| 0 <= k < |kept| && y == f(kept[k]);
      assert kept[k] in kept;
      var i :| 0 <= i < |xs| && xs[i] == kept[k];
    }
    forall i | 0 <= i < |xs| && keep(xs[i])
      ensures f(xs[i]) in Map(kept, f)
    {
      assert xs[i] in kept;
      var k :| 0 <= k < |kept| && kept[k] == xs[i];
      assert Map(kept, f)[k] == f(xs[i]);
    }
  }

  // ---------------------------------------------------------------------------
  // Sequential `if ...: xs.append(label)` tests

  /** The labels whose flag is set, in label order. */
  function Select<T>(flags: seq<bool>, labels: seq<T>): (r: seq<T>)
    requires |flags| == |labels|
    ensures |r| <= |labels|
  {
    if labels == [] then [] else (if flags[0] then [labels[0]] else []) + Select(flags[1..], labels[1..])
  }

  /** With distinct labels, a label is selected exactly when its flag is set,
      and the labels selected keep their order. */
  lemma {:induction false} SelectMembers<T>(flags: seq<bool>, labels: seq<T>)
    requires |flags| == |labels| && Distinct(labels)
    ensures forall k :: 0 <= k < |labels| ==> (labels[k] in Select(flags, labels) <==> flags[k])
    ensures forall x :: x in Select(flags, labels) ==> x in labels
    ensures SubsequenceOf(Select(flags, labels), labels)
  {
    if labels != [] {
      SelectMembers(flags[1..], labels[1..]);
      var rest := Select(flags[1..], labels[1..]);
      assert labels[0] !in rest;
      forall k | 1 <= k < |labels|
        ensures labels[k] in Select(flags, labels) <==> flags[k]
      {
        assert labels[1..][k - 1] == labels[k];
      }
      if !flags[0] {
        assert Select(flags, labels) == rest;
        SubsequenceOfSkip(rest, labels);
      } else {
        assert Select(flags, labels)[1..] == rest;
      }
    }
  }

  /** `selected or [default]` */
  function SelectOr<T>(flags: seq<bool>, labels: seq<T>, default: T): (r: seq<T>)
    requires |flags| == |labels|
  {
    if Select(flags, labels) == [] then [default] else Select(flags, labels)
  }

  /** No label is selected exactly when no flag is set. */
  lemma {:induction false} SelectEmpty<T>(flags: seq<bool>, labels: seq<T>)
    requires |flags| == |labels|
    ensures Select(flags, labels) == [] <==> forall k :: 0 <= k < |flags| ==> !flags[k]
  {
    if labels != [] {
      SelectEmpty(flags[1..], labels[1..]);
      assert forall k :: 1 <= k < |flags| ==> flags[1..][k - 1] == flags[k];
    }
  }

  /** The result of `selected or [default]`: the default alone exactly when no
      flag is set; otherwise the labels whose flag is set, in order. */
  lemma SelectOrCases<T>(flags: seq<bool>, labels: seq<T>, default: T)
    requires |flags| == |labels| && Distinct(labels) && default !in labels
    ensures SelectOr(flags, labels, default) == [default] <==> forall k :: 0 <= k < |flags| ==> !flags[k]
    ensures forall k :: 0 <= k < |labels| ==> (labels[k] in SelectOr(flags, labels, default) <==> flags[k])
    ensures SelectOr(flags, labels, default) == [default] || SubsequenceOf(SelectOr(flags, labels, default), labels)
  {
    SelectMembers(flags, labels);
    SelectEmpty(flags, labels);
    var sel := Select(flags, labels);
    if sel != [] {
      assert sel[0] in labels;
    }
  }

  /** `SelectOrCases` for four labels, item by item. */
  lemma SelectOrFour<T>(flags: seq<bool>, labels: seq<T>, default: T)
    requires |flags| == 4 && |labels| == 4 && Distinct(labels) && default !in labels
    ensures var c := SelectOr(flags, labels, default);
      && (c == [default] <==> !flags[0] && !flags[1] && !flags[2] && !flags[3])
      && (labels[0] in c <==> flags[0]) && (labels[1] in c <==> flags[1])
      && (labels[2] in c <==> flags[2]) && (labels[3] in c <==> flags[3])
      && (c == [default] || SubsequenceOf(c, labels))
  {
    SelectOrCases(flags, labels, default);
    assert (forall k :: 0 <= k < |flags| ==> !flags[k]) <==> !flags[0] && !flags[1] && !flags[2] && !flags[3];
  }
}
