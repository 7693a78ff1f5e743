/** The deterministic parts of `AIModelManager`: the three cleaners applied to
    generated text, the word-window chunker, the technical-term extractor, and
    the loops of `generate_flashcards` and `generate_glossary`. The Flan-T5
    pipeline is a parameter `generate(n, prompt)`, an arbitrary text supplier
    whose `n` counts the calls made so far; `None` stands for a call that
    raised, which both loops catch and skip. */
module AiModels {
  import opened Wrappers
  import opened Text
  import opened Regex

  // ---------------------------------------------------------------------------
  // _clean_question and _clean_answer

  /** `_clean_question` */
  function CleanQuestion(question: string): (r: string)
    ensures r != [] && r[|r| - 1] == '?'
    ensures !IsLower(r[0]) && !IsSpace(r[0])
    ensures var t := Strip(question); |r| == if EndsWith(t, "?") then |t| else |t| + 1
    ensures var t := Strip(question); t != [] ==> r[0] == UpperChar(t[0]) && r[1..|t|] == t[1..]
    ensures Strip(question) == [] ==> r == "?"
  {
    PrintableNotSpace('?');
    var t := Strip(question);
    var u := if EndsWith(t, "?") then t else t + "?";
    QuestionMarked(t, u);
    CapitalizedQuestion(t, u);
    Capitalize(u)
  }

  /** What capitalising keeps of the marked question. */
  lemma CapitalizedQuestion(t: string, u: string)
    requires u != [] && u[|u| - 1] == '?' && !IsSpace(u[0])
    requires |t| <= |u| && u[..|t|] == t
    ensures var r := Capitalize(u);
      && r != [] && r[|r| - 1] == '?' && !IsLower(r[0]) && !IsSpace(r[0]) && |r| == |u|
      && (t != [] ==> r[0] == UpperChar(t[0]) && r[1..|t|] == t[1..])
  {
    var r := Capitalize(u);
    if |u| > 1 {
      assert r[|r| - 1] == r[1..][|r| - 2];
    } else {
      assert !IsLower('?');
    }
    if t != [] {
      assert r[1..|t|] == r[1..][..|t| - 1];
      assert t[1..] == u[..|t|][1..];
    }
  }

  /** The text `_clean_question` capitalises: the stripped question, closed
      with `?` when it is not already. */
  lemma QuestionMarked(t: string, u: string)
    requires t != [] ==> !IsSpace(t[0])
    requires u == if EndsWith(t, "?") then t else t + "?"
    ensures u != [] && u[|u| - 1] == '?' && !IsSpace(u[0])
    ensures |u| == if EndsWith(t, "?") then |t| else |t| + 1
    ensures |t| <= |u| && u[..|t|] == t
  {
    PrintableNotSpace('?');
    if !EndsWith(t, "?") {
      assert u[..|t|] == t;
      if t != [] {
        assert u[0] == t[0];
      }
    }
  }

  lemma CleanQuestionIdempotent(question: string)
    ensures CleanQuestion(CleanQuestion(question)) == CleanQuestion(question)
  {
    var r := CleanQuestion(question);
    StripNoop(r);
    assert EndsWith(r, "?");
  }

  /** `_clean_answer` */
  function CleanAnswer(answer: string): (r: string)
    ensures r == [] <==> Strip(answer) == []
    ensures r != [] ==> r[|r| - 1] in ".!?"
    ensures r != [] ==> !IsLower(r[0]) && !IsSpace(r[0]) && !IsSpace(r[|r| - 1])
    ensures |Strip(answer)| <= |r| <= |Strip(answer)| + 1
    ensures var t := Strip(answer); r[..|t|] == Capitalize(t)
    ensures var t := Strip(answer); |r| > |t| <==> t != [] && t[|t| - 1] !in ".!?"
    ensures var t := Strip(answer); |r| > |t| ==> r[|t|] == '.'
  {
    var t := Capitalize(Strip(answer));
    assert t != [] ==> !IsSpace(t[|t| - 1]) && (t[|t| - 1] in ".!?" <==> Strip(answer)[|t| - 1] in ".!?") by {
      if t != [] && |t| > 1 {
        assert t[|t| - 1] == t[1..][|t| - 2];
      }
    }
    if t != [] && t[|t| - 1] !in ".!?" then t + "." else t
  }

  lemma CleanAnswerIdempotent(answer: string)
    ensures CleanAnswer(CleanAnswer(answer)) == CleanAnswer(answer)
  {
    var r := CleanAnswer(answer);
    StripNoop(r);
  }

  // ---------------------------------------------------------------------------
  // _clean_definition

  /** `definition.split('.')`, and when there are several pieces and the last
      is shorter than ten characters once stripped, the pieces before it joined
      with `.` and closed with `.`. */
  function DropTrailingFragment(d: string): (r: string)
    ensures |r| <= |d| && r == d[..|r|]
    ensures r != d ==> r != [] && r[|r| - 1] == '.'
    ensures r != d ==> '.' !in d[|r|..] && |Strip(d[|r|..])| < 10
  {
    var pieces := Split(d, '.');
    if |pieces| > 1 && |Strip(pieces[|pieces| - 1])| < 10 then
      SplitLast(d, '.');
      Join(pieces[..|pieces| - 1], ".") + "."
    else d
  }

  /** With several pieces, the text is the pieces before the last joined with
      the separator, the separator, and the last piece. */
  lemma SplitLast(d: string, sep: char)
    requires |Split(d, sep)| > 1
    ensures var pieces := Split(d, sep);
      var init := Join(pieces[..|pieces| - 1], [sep]) + [sep];
      && d == init + pieces[|pieces| - 1]
      && d[..|init|] == init && d[|init|..] == pieces[|pieces| - 1]
  {
    var pieces := Split(d, sep);
    JoinSplit(d, sep);
    JoinLast(pieces, [sep]);
  }

  /** When the last `.` of the definition sits at `k`, the definition is cut
      just after it exactly when what follows strips to fewer than ten
      characters. */
  lemma DropTrailingFragmentCut(d: string, k: nat)
    requires k < |d| && d[k] == '.' && '.' !in d[k + 1..]
    ensures DropTrailingFragment(d) == if |Strip(d[k + 1..])| < 10 then d[..k + 1] else d
  {
    var pieces := Split(d, '.');
    JoinSplit(d, '.');
    if |pieces| > 1 {
      SplitLast(d, '.');
      var init := Join(pieces[..|pieces| - 1], ".") + ".";
      var last := pieces[|pieces| - 1];
      forall j | k < j < |d|
        ensures d[j] != '.'
      {
        assert d[j] == d[k + 1..][j - k - 1];
      }
      forall j | |init| <= j < |d|
        ensures d[j] != '.'
      {
        assert d[j] == last[j - |init|];
      }
      assert d[|init| - 1] == '.';
      assert k == |init| - 1;
    }
  }

  /** A definition without a `.` is kept whole. */
  lemma DropTrailingFragmentNoDot(d: string)
    requires '.' !in d
    ensures DropTrailingFragment(d) == d
  {
    JoinSplit(d, '.');
    if |Split(d, '.')| > 1 {
      SplitLast(d, '.');
    }
  }

  /** A definition that already ends a sentence loses nothing. */
  lemma DropTrailingFragmentKeepsSentence(d: string)
    requires d != [] && d[|d| - 1] == '.'
    ensures DropTrailingFragment(d) == d
  {
    var init := d[..|d| - 1];
    assert d == init + ['.'];
    SplitSnoc(init, '.');
    var pieces := Split(d, '.');
    assert pieces[|pieces| - 1] == "";
    assert pieces[..|pieces| - 1] == Split(init, '.');
    JoinSplit(init, '.');
  }

  /** The leading-term step of `_clean_definition`: when the definition starts
      with the term, ignoring case, the term is cut off and the rest stripped;
      then a leading `:` loses one character and a leading `is` loses `isWidth`
      characters (the source drops one, the whole word is two). */
  function AfterTerm(definition: string, term: string, isWidth: nat): (r: string)
    requires isWidth <= 2
  {
    if StartsWith(Lower(definition), Lower(term)) then
      var d := Strip(definition[|term|..]);
      if StartsWith(d, ":") then Strip(d[1..])
      else if StartsWith(d, "is") then Strip(d[isWidth..])
      else d
    else definition
  }

  /** The leading-term step only removes: a definition without the term is
      kept, and once the term is cut off what is left is stripped. */
  lemma AfterTermShape(definition: string, term: string, isWidth: nat)
    requires isWidth <= 2
    ensures |AfterTerm(definition, term, isWidth)| <= |definition|
    ensures !StartsWith(Lower(definition), Lower(term)) ==> AfterTerm(definition, term, isWidth) == definition
    ensures var r := AfterTerm(definition, term, isWidth);
      StartsWith(Lower(definition), Lower(term)) && r != [] ==> !IsSpace(r[0]) && !IsSpace(r[|r| - 1])
  {
    if StartsWith(Lower(definition), Lower(term)) {
      var d := Strip(definition[|term|..]);
      if StartsWith(d, ":") {
        assert AfterTerm(definition, term, isWidth) == Strip(d[1..]);
      } else if StartsWith(d, "is") {
        assert AfterTerm(definition, term, isWidth) == Strip(d[isWidth..]);
      } else {
        assert AfterTerm(definition, term, isWidth) == d;
      }
    }
  }

  /** The capitalising and trailing-fragment steps and the final `strip()`. */
  function FinishDefinition(d: string): (r: string)
    ensures r != [] ==> !IsSpace(r[0]) && !IsSpace(r[|r| - 1])
    ensures |r| <= |d|
  {
    Strip(DropTrailingFragment(Capitalize(d)))
  }

  /** `_clean_definition` as the source writes it. */
  function CleanDefinitionAsWritten(definition: string, term: string): (r: string)
    ensures r != [] ==> !IsSpace(r[0]) && !IsSpace(r[|r| - 1])
  {
    FinishDefinition(AfterTerm(definition, term, 1))
  }

  /** `_clean_definition` with the leading `is` removed whole. */
  function CleanDefinition(definition: string, term: string): (r: string)
    ensures r != [] ==> !IsSpace(r[0]) && !IsSpace(r[|r| - 1])
  {
    FinishDefinition(AfterTerm(definition, term, 2))
  }

  /** `text` with a non-space first and last character is left alone by strip(). */
  lemma StripTrimmed(x: string)
    requires x != [] && !IsSpace(x[0]) && !IsSpace(x[|x| - 1])
    ensures Strip(x) == x
  {
    StripNoop(x);
  }

  /** One leading blank before a stripped text is all strip() removes. */
  lemma StripLeadingBlank(x: string)
    requires x != [] && !IsSpace(x[0]) && !IsSpace(x[|x| - 1])
    ensures Strip(" " + x) == x
  {
    var s := " " + x;
    assert s[1..] == x;
    assert s[|s| - 1] == x[|x| - 1];
    StripUnique(s, 1, |s|);
  }

  /** A definition that repeats the term and goes on with " is " has the term
      cut off and the blank after it stripped. */
  lemma TermCut(term: string, x: string)
    requires x != [] && !IsSpace(x[0]) && !IsSpace(x[|x| - 1])
    ensures StartsWith(Lower(term + " is " + x), Lower(term))
    ensures Strip((term + " is " + x)[|term|..]) == "is " + x
  {
    var d := term + " is " + x;
    assert Lower(d)[..|term|] == Lower(term);
    var rest := "is " + x;
    assert d[|term|..] == " " + rest;
    PrintableNotSpace('i');
    assert rest[|rest| - 1] == x[|x| - 1];
    StripLeadingBlank(rest);
  }

  /** Once the term is cut off, a leading "is" loses `isWidth` characters. */
  lemma AfterTermIs(definition: string, term: string, isWidth: nat, rest: string)
    requires isWidth <= 2
    requires StartsWith(Lower(definition), Lower(term))
    requires Strip(definition[|term|..]) == rest
    requires StartsWith(rest, "is")
    ensures AfterTerm(definition, term, isWidth) == Strip(rest[isWidth..])
  {
    assert rest[0] == "is"[0];
    assert !StartsWith(rest, ":");
  }

  /** Once the term is cut off, a leading `:` loses that one character,
      whatever the width taken from "is". */
  lemma AfterTermColon(definition: string, term: string, isWidth: nat, rest: string)
    requires isWidth <= 2
    requires StartsWith(Lower(definition), Lower(term))
    requires Strip(definition[|term|..]) == rest
    requires StartsWith(rest, ":")
    ensures AfterTerm(definition, term, isWidth) == Strip(rest[1..])
  {
  }

  /** A definition that repeats the term and goes on with ": " has the term
      cut off and nothing else stripped. */
  lemma TermCutColon(term: string, x: string)
    requires x != [] && !IsSpace(x[0]) && !IsSpace(x[|x| - 1])
    ensures StartsWith(Lower(term + ": " + x), Lower(term))
    ensures Strip((term + ": " + x)[|term|..]) == ": " + x
  {
    var d := term + ": " + x;
    assert Lower(d)[..|term|] == Lower(term);
    var rest := ": " + x;
    assert d[|term|..] == rest;
    PrintableNotSpace(':');
    assert rest[|rest| - 1] == x[|x| - 1];
    StripNoop(rest);
  }

  /** After a repeated term and a colon, the written and the corrected code
      agree: "term: x." comes out as x capitalised. */
  lemma ColonAfterTerm(term: string, x: string)
    requires x != [] && !IsSpace(x[0]) && x[|x| - 1] == '.'
    ensures CleanDefinitionAsWritten(term + ": " + x, term) == Capitalize(x)
    ensures CleanDefinition(term + ": " + x, term) == Capitalize(x)
  {
    PrintableNotSpace('.');
    AfterColon(term, x, 1);
    AfterColon(term, x, 2);
    FinishSentence(x);
  }

  /** What the leading-term step leaves of "term: x": x itself. */
  lemma AfterColon(term: string, x: string, isWidth: nat)
    requires isWidth <= 2
    requires x != [] && !IsSpace(x[0]) && !IsSpace(x[|x| - 1])
    ensures AfterTerm(term + ": " + x, term, isWidth) == x
  {
    TermCutColon(term, x);
    var rest := ": " + x;
    assert rest[1..] == " " + x;
    StripLeadingBlank(x);
    AfterTermColon(term + ": " + x, term, isWidth, rest);
  }

  /** The definition "GAN: a model." of "GAN" comes out as "A model.",
      as written and corrected alike. */
  lemma CleanDefinitionColonExample(definition: string, term: string)
    requires definition == "GAN: a model." && term == "GAN"
    ensures CleanDefinitionAsWritten(definition, term) == "A model."
    ensures CleanDefinition(definition, term) == "A model."
  {
    var x := definition[5..];
    assert x == "a model.";
    assert definition == term + ": " + x;
    PrintableNotSpace('a');
    ColonAfterTerm(term, x);
    CapitalizeExample(x);
  }

  /** What strip() leaves of "is " + x without its first one or two letters. */
  lemma StripIsTail(x: string)
    requires x != [] && !IsSpace(x[0]) && !IsSpace(x[|x| - 1])
    ensures Strip(("is " + x)[1..]) == "s " + x
    ensures Strip(("is " + x)[2..]) == x
  {
    var rest := "is " + x;
    var one := "s " + x;
    assert rest[1..] == one;
    assert one[|one| - 1] == x[|x| - 1];
    PrintableNotSpace('s');
    StripNoop(one);
    assert rest[2..] == " " + x;
    StripLeadingBlank(x);
  }

  /** What the leading-term step leaves of such a definition: as written
      `"s " + x`, and `x` once the whole word is removed. */
  lemma AfterRepeatedTerm(term: string, x: string)
    requires x != [] && !IsSpace(x[0]) && !IsSpace(x[|x| - 1])
    ensures AfterTerm(term + " is " + x, term, 1) == "s " + x
    ensures AfterTerm(term + " is " + x, term, 2) == x
  {
    TermCut(term, x);
    var rest := "is " + x;
    assert StartsWith(rest, "is");
    AfterTermIs(term + " is " + x, term, 1, rest);
    AfterTermIs(term + " is " + x, term, 2, rest);
    StripIsTail(x);
  }

  /** A stripped definition that ends a sentence is only capitalised. */
  lemma FinishSentence(d: string)
    requires d != [] && !IsSpace(d[0]) && d[|d| - 1] == '.'
    ensures FinishDefinition(d) == Capitalize(d)
  {
    var c := Capitalize(d);
    assert c[|c| - 1] == '.' by {
      if |d| > 1 {
        assert c[|c| - 1] == c[1..][|c| - 2];
      }
    }
    DropTrailingFragmentKeepsSentence(c);
    PrintableNotSpace('.');
    StripNoop(c);
  }

  lemma CapitalizeS(x: string)
    ensures Capitalize("s " + x) == "S " + x
  {
    var one := "s " + x;
    assert one[1..] == " " + x;
    assert UpperChar('s') == 'S';
  }

  /** After a repeated term, "is" loses only its first letter as written,
      and the whole word once corrected. */
  lemma IsAfterTerm(term: string, x: string)
    requires x != [] && !IsSpace(x[0]) && x[|x| - 1] == '.'
    ensures CleanDefinitionAsWritten(term + " is " + x, term) == "S " + x
    ensures CleanDefinition(term + " is " + x, term) == Capitalize(x)
  {
    PrintableNotSpace('.');
    AfterRepeatedTerm(term, x);
    var one := "s " + x;
    assert one[0] == 's' && one[|one| - 1] == x[|x| - 1];
    PrintableNotSpace('s');
    FinishSentence(one);
    CapitalizeS(x);
    FinishSentence(x);
  }

  /** The pieces of the example below. */
  lemma ExamplePieces(definition: string, term: string, x: string)
    requires definition == "GAN is a model." && term == "GAN"
    requires x == "a model."
    ensures definition == term + " is " + x
    ensures x != [] && x[0] == 'a' && x[|x| - 1] == '.'
    ensures "S " + x == "S a model."
  {
  }

  lemma CapitalizeExample(x: string)
    requires x == "a model."
    ensures Capitalize(x) == "A model."
  {
    assert UpperChar('a') == 'A';
  }

  /** The definition "GAN is a model." of "GAN" comes
      out as written as "S a model.". */
  lemma CleanDefinitionDropsOneLetterOfIs(definition: string, term: string)
    requires definition == "GAN is a model." && term == "GAN"
    ensures CleanDefinitionAsWritten(definition, term) == "S a model."
    ensures CleanDefinition(definition, term) == "A model."
  {
    var x := definition[7..];
    ExamplePieces(definition, term, x);
    PrintableNotSpace('a');
    IsAfterTerm(term, x);
    CapitalizeExample(x);
  }

  /** A definition that does not start with the term, is stripped, capitalised
      and ends a sentence is returned unchanged. */
  lemma CleanDefinitionKeepsCleanText(definition: string, term: string)
    requires !StartsWith(Lower(definition), Lower(term))
    requires definition != [] && !IsSpace(definition[0]) && !IsLower(definition[0])
    requires definition[|definition| - 1] == '.'
    ensures CleanDefinition(definition, term) == definition
    ensures CleanDefinitionAsWritten(definition, term) == definition
  {
    DropTrailingFragmentKeepsSentence(definition);
    StripTrimmed(definition);
  }

  // ---------------------------------------------------------------------------
  // _split_text_into_chunks

  /** `' '.join(words[start:start + size])` */
  function Window(words: seq<string>, start: nat, size: nat): string
    requires start <= |words|
  {
    Join(words[start..Min(start + size, |words|)], " ")
  }

  /** `len(chunk.strip()) > 50` */
  predicate Substantial(chunk: string) {
    |Strip(chunk)| > 50
  }

  /** The start of window number `m` when windows start at `first`: `size`
      added `m` times. */
  function Step(first: nat, m: nat, size: nat): nat
    decreases m
  {
    if m == 0 then first else Step(first + size, m - 1, size)
  }

  /** Window number `m` starts `m * size` words after `first`. */
  lemma {:induction false} StepIsMultiple(first: nat, m: nat, size: nat)
    ensures Step(first, m, size) == first + m * size
    decreases m
  {
    if m > 0 {
      StepIsMultiple(first + size, m - 1, size);
      assert m * size == (m - 1) * size + size;
    }
  }

  /** The starts `first`, `first + size`, ... below `|words|` whose windows
      pass `keep`. */
  function KeptStarts(words: seq<string>, size: nat, first: nat, keep: string -> bool): (r: seq<nat>)
    requires size > 0
    ensures forall k :: 0 <= k < |r| ==> first <= r[k] < |words|
    decreases |words| - first
  {
    if first >= |words| then []
    else
      var rest := KeptStarts(words, size, first + size, keep);
      if keep(Window(words, first, size)) then [first] + rest else rest
  }

  predicate Increasing(r: seq<nat>) {
    forall k, l :: 0 <= k < l < |r| ==> r[k] < r[l]
  }

  /** `x` is `first`, or `size` more than a point of the same grid. */
  predicate OnGrid(x: nat, first: nat, size: nat)
    decreases x
  {
    x == first || (size > 0 && x >= first + size && OnGrid(x - size, first, size))
  }

  /** Every element of `r` is `first` plus a multiple of `size`. */
  predicate AlignedFrom(r: seq<nat>, first: nat, size: nat) {
    forall k :: 0 <= k < |r| ==> OnGrid(r[k], first, size)
  }

  /** Every window start lies on the grid. */
  lemma {:induction false} StepOnGrid(first: nat, m: nat, size: nat)
    requires size > 0
    ensures OnGrid(Step(first, m, size), first, size)
    decreases m
  {
    if m > 0 {
      StepOnGrid(first + size, m - 1, size);
      OnGridShift(Step(first, m, size), first, size);
    }
  }

  /** A point of the grid from `first + size` lies on the grid from `first`. */
  lemma {:induction false} OnGridShift(x: nat, first: nat, size: nat)
    requires OnGrid(x, first + size, size)
    ensures OnGrid(x, first, size)
    decreases x
  {
    if x != first + size {
      OnGridShift(x - size, first, size);
    }
  }

  /** The kept starts come in increasing order and their windows pass `keep`. */
  lemma {:induction false} KeptStartsIncreasing(words: seq<string>, size: nat, first: nat, keep: string -> bool)
    requires size > 0
    ensures Increasing(KeptStarts(words, size, first, keep))
    ensures forall s :: s in KeptStarts(words, size, first, keep) ==> keep(Window(words, s, size))
    decreases |words| - first
  {
    if first < |words| {
      var r := KeptStarts(words, size, first, keep);
      var rest := KeptStarts(words, size, first + size, keep);
      KeptStartsIncreasing(words, size, first + size, keep);
      if keep(Window(words, first, size)) {
        assert r == [first] + rest;
        forall k, l | 0 <= k < l < |r|
          ensures r[k] < r[l]
        {
          if k > 0 {
            assert r[k] == rest[k - 1] && r[l] == rest[l - 1];
          } else {
            assert r[l] == rest[l - 1];
          }
        }
      } else {
        assert r == rest;
      }
    }
  }

  /** Every kept start is `first` plus a multiple of `size`. */
  lemma {:induction false} KeptStartsAligned(words: seq<string>, size: nat, first: nat, keep: string -> bool)
    requires size > 0
    ensures AlignedFrom(KeptStarts(words, size, first, keep), first, size)
    decreases |words| - first
  {
    if first < |words| {
      var rest := KeptStarts(words, size, first + size, keep);
      KeptStartsAligned(words, size, first + size, keep);
      AlignedShift(rest, first, size);
      if keep(Window(words, first, size)) {
        AlignedCons(rest, first, size);
      }
    }
  }

  /** Starts aligned from the next window are aligned from this one. */
  lemma AlignedShift(r: seq<nat>, first: nat, size: nat)
    requires AlignedFrom(r, first + size, size)
    ensures AlignedFrom(r, first, size)
  {
    forall k | 0 <= k < |r|
      ensures OnGrid(r[k], first, size)
    {
      OnGridShift(r[k], first, size);
    }
  }

  /** Window 0 may be put in front of aligned starts. */
  lemma AlignedCons(r: seq<nat>, first: nat, size: nat)
    requires AlignedFrom(r, first, size)
    ensures AlignedFrom([first] + r, first, size)
  {
    var r' := [first] + r;
    forall k | 0 < k < |r'|
      ensures OnGrid(r'[k], first, size)
    {
      assert r'[k] == r[k - 1];
    }
  }

  /** Every aligned start whose window passes `keep` is kept. */
  lemma {:induction false} KeptStartsComplete(words: seq<string>, size: nat, first: nat, keep: string -> bool)
    requires size > 0
    ensures forall m: nat ::
      Step(first, m, size) < |words| && keep(Window(words, Step(first, m, size), size)) ==>
        Step(first, m, size) in KeptStarts(words, size, first, keep)
    decreases |words| - first
  {
    if first < |words| {
      KeptStartsComplete(words, size, first + size, keep);
      forall m: nat | Step(first, m, size) < |words| && keep(Window(words, Step(first, m, size), size))
        ensures Step(first, m, size) in KeptStarts(words, size, first, keep)
      {
        if m > 0 {
          assert Step(first, m, size) == Step(first + size, m - 1, size);
        }
      }
    } else {
      forall m: nat
        ensures Step(first, m, size) >= first
      {
        StepIsMultiple(first, m, size);
      }
    }
  }

  /** The windows from word `first` on that pass `keep`, as text. */
  function ChunksFrom(words: seq<string>, size: nat, first: nat, keep: string -> bool): (r: seq<string>)
    requires size > 0
    decreases |words| - first
  {
    if first >= |words| then []
    else
      var w := Window(words, first, size);
      (if keep(w) then [w] else []) + ChunksFrom(words, size, first + size, keep)
  }

  /** The chunks are the windows at the kept starts. */
  lemma {:induction false} ChunksAtKeptStarts(words: seq<string>, size: nat, first: nat, keep: string -> bool)
    requires size > 0
    ensures var ms := KeptStarts(words, size, first, keep);
      |ChunksFrom(words, size, first, keep)| == |ms| &&
      forall k :: 0 <= k < |ms| ==> ChunksFrom(words, size, first, keep)[k] == Window(words, ms[k], size)
    decreases |words| - first
  {
    if first < |words| {
      ChunksAtKeptStarts(words, size, first + size, keep);
      var w := Window(words, first, size);
      var ms := KeptStarts(words, size, first, keep);
      var rest := KeptStarts(words, size, first + size, keep);
      var cs := ChunksFrom(words, size, first, keep);
      var tail := ChunksFrom(words, size, first + size, keep);
      if keep(w) {
        assert ms == [first] + rest && cs == [w] + tail;
        forall k | 1 <= k < |ms|
          ensures cs[k] == Window(words, ms[k], size)
        {
          assert cs[k] == tail[k - 1] && ms[k] == rest[k - 1];
        }
      } else {
        assert ms == rest && cs == tail;
      }
    }
  }

  lemma ChunksFromStep(words: seq<string>, size: nat, first: nat, keep: string -> bool)
    requires size > 0 && first < |words|
    ensures ChunksFrom(words, size, first, keep) ==
      (if keep(Window(words, first, size)) then [Window(words, first, size)] else [])
      + ChunksFrom(words, size, first + size, keep)
  {
  }

  /** The loop of `_split_text_into_chunks`: the windows of `size` words
      that pass `keep`, in order. */
  method KeepWindows(words: seq<string>, size: nat, keep: string -> bool) returns (chunks: seq<string>)
    requires size > 0
    ensures chunks == ChunksFrom(words, size, 0, keep)
  {
    chunks := [];
    var i: nat := 0;
    while i < |words|
      invariant ChunksFrom(words, size, 0, keep) == chunks + ChunksFrom(words, size, i, keep)
      decreases |words| - i
    {
      var chunk := Window(words, i, size);
      KeepWindowsStep(words, size, i, keep, chunks);
      if keep(chunk) {
        chunks := chunks + [chunk];
      }
      i := i + size;
    }
  }

  /** One step of the window loop: the window at `i` is added exactly when
      it passes `keep`. */
  lemma KeepWindowsStep(words: seq<string>, size: nat, i: nat, keep: string -> bool, chunks: seq<string>)
    requires size > 0 && i < |words|
    requires ChunksFrom(words, size, 0, keep) == chunks + ChunksFrom(words, size, i, keep)
    ensures var w := Window(words, i, size);
      ChunksFrom(words, size, 0, keep) == (if keep(w) then chunks + [w] else chunks) + ChunksFrom(words, size, i + size, keep)
  {
    var w := Window(words, i, size);
    ChunksFromStep(words, size, i, keep);
    ConcatAssoc(chunks, [w], ChunksFrom(words, size, i + size, keep));
  }

  /** `_split_text_into_chunks`: the windows of the text's words whose
      stripped text is longer than fifty characters, at most ten of them. A
      step of zero makes `range` raise, so the caller must pass a non-zero
      size; a negative size gives no windows. */
  method SplitTextIntoChunks(text: string, chunkSize: int) returns (chunks: seq<string>)
    requires chunkSize != 0
    ensures chunkSize < 0 ==> chunks == []
    ensures chunkSize > 0 ==> chunks == Take(ChunksFrom(Words(text), chunkSize, 0, Substantial), 10)
    ensures |chunks| <= 10
  {
    chunks := [];
    if chunkSize < 0 {
      return;
    }
    chunks := KeepWindows(Words(text), chunkSize, Substantial);
    chunks := Take(chunks, 10);
  }

  /** Chunk `k` is the window at the `k`-th kept start, a multiple of the
      size, and later chunks start later. */
  lemma ChunkIsWindow(words: seq<string>, size: nat, k: nat)
    requires size > 0 && k < |ChunksFrom(words, size, 0, Substantial)|
    ensures var starts := KeptStarts(words, size, 0, Substantial);
      && k < |starts|
      && ChunksFrom(words, size, 0, Substantial)[k] == Window(words, starts[k], size)
      && OnGrid(starts[k], 0, size)
      && (forall l :: k < l < |starts| ==> starts[k] < starts[l])
  {
    KeptStartsIncreasing(words, size, 0, Substantial);
    KeptStartsAligned(words, size, 0, Substantial);
    ChunksAtKeptStarts(words, size, 0, Substantial);
  }

  /** Every chunk is longer than fifty characters once stripped. */
  lemma ChunkIsSubstantial(words: seq<string>, size: nat, k: nat)
    requires size > 0 && k < |ChunksFrom(words, size, 0, Substantial)|
    ensures Substantial(ChunksFrom(words, size, 0, Substantial)[k])
  {
    var starts := KeptStarts(words, size, 0, Substantial);
    ChunksAtKeptStarts(words, size, 0, Substantial);
    KeptStartsIncreasing(words, size, 0, Substantial);
    assert starts[k] in starts;
  }

  /** Splitting a chunk gives back the at most `size` words it was made of. */
  lemma ChunkWords(words: seq<string>, size: nat, k: nat)
    requires forall j :: 0 <= j < |words| ==> IsToken(words[j])
    requires size > 0 && k < |ChunksFrom(words, size, 0, Substantial)|
    ensures var starts := KeptStarts(words, size, 0, Substantial);
      var chunk := ChunksFrom(words, size, 0, Substantial)[k];
      && k < |starts|
      && Words(chunk) == words[starts[k]..Min(starts[k] + size, |words|)]
      && |Words(chunk)| <= size
  {
    var starts := KeptStarts(words, size, 0, Substantial);
    ChunksAtKeptStarts(words, size, 0, Substantial);
    WindowWords(words, starts[k], size);
  }

  /** The words of a window are the words it was joined from. */
  lemma WindowWords(words: seq<string>, start: nat, size: nat)
    requires start <= |words|
    requires forall k :: 0 <= k < |words| ==> IsToken(words[k])
    ensures Words(Window(words, start, size)) == words[start..Min(start + size, |words|)]
  {
    var window := words[start..Min(start + size, |words|)];
    assert forall j :: 0 <= j < |window| ==> IsToken(window[j]);
    WordsOfJoin(window);
  }

  // ---------------------------------------------------------------------------
  // _extract_technical_terms

  const TermPatterns: seq<Pattern> := [
    Acronym,
    CapitalisedPhrase,
    WordContaining('A', 'a', "lgorithm"),
    WordContaining('M', 'm', "odel"),
    WordContaining('N', 'n', "etwork"),
    WordContaining('L', 'l', "earning")
  ]

  const CommonWords: set<string> :=
    {"The", "This", "That", "And", "Or", "But", "In", "On", "At", "To", "For", "Of", "With", "By"}

  /** `t.isdigit()` for ASCII digits. */
  predicate AllDigits(t: string) {
    t != [] && forall j :: 0 <= j < |t| ==> IsDigit(t[j])
  }

  /** The filter of `_extract_technical_terms`. */
  predicate KeepTerm(t: string) {
    |t| > 2 && t !in CommonWords && !AllDigits(t) && |t| < 30
  }

  /** `set(xs)` */
  function Elements(xs: seq<string>): (r: set<string>)
    ensures forall t :: t in r <==> t in xs
  {
    set t | t in xs
  }

  /** Everything the patterns `ps` find in `text`. */
  function FoundBy(ps: seq<Pattern>, text: string): set<string>
    requires forall k :: 0 <= k < |ps| ==> WellFormed(ps[k])
  {
    if ps == [] then {}
    else FoundBy(ps[..|ps| - 1], text) + Elements(FindAll(ps[|ps| - 1], text))
  }

  /** The candidate terms of `text`. */
  function Candidates(text: string): set<string> {
    FoundBy(TermPatterns, text)
  }

  /** The candidates that pass the filter. */
  function KeptCandidates(text: string): (r: set<string>)
    ensures forall t :: t in r <==> t in Candidates(text) && KeepTerm(t)
  {
    set t | t in Candidates(text) && KeepTerm(t)
  }

  /** The pattern loop of `_extract_technical_terms`: the union of the
      matches of every pattern. */
  method CollectCandidates(text: string) returns (found: set<string>)
    ensures found == Candidates(text)
  {
    found := {};
    for k := 0 to |TermPatterns|
      invariant found == FoundBy(TermPatterns[..k], text)
    {
      assert TermPatterns[..k + 1][..k] == TermPatterns[..k];
      found := found + Elements(FindAll(TermPatterns[k], text));
    }
    assert TermPatterns[..|TermPatterns|] == TermPatterns;
  }

  /** `_extract_technical_terms`: up to twenty of the candidates that pass the
      filter, all of them when there are at most twenty; which twenty depends
      on the iteration order of a Python set. */
  method ExtractTechnicalTerms(text: string) returns (terms: seq<string>)
    ensures Distinct(terms)
    ensures forall t :: t in terms ==> t in KeptCandidates(text)
    ensures |terms| == Min(20, |KeptCandidates(text)|)
  {
    var found := CollectCandidates(text);
    var listed := Enumerate(found);
    var filtered := KeepWhere(listed, KeepTerm);
    FilterMembers(listed, KeepTerm);
    var kept := Elements(filtered);
    assert kept == KeptCandidates(text);
    var unique := Enumerate(kept);
    terms := Take(unique, 20);
  }

  // ---------------------------------------------------------------------------
  // generate_flashcards

  datatype Flashcard = Flashcard(id: int, question: string, answer: string, kind: string)

  function QuestionPrompt(chunk: string): string {
    "Generate a clear question about this text: " + chunk
  }

  function AnswerPrompt(question: string, chunk: string): string {
    "Answer this question based on the text: " + question + "\n\nText: " + chunk
  }

  /** A card the loop may keep. */
  predicate GoodCard(card: Flashcard) {
    && card.kind == "short_answer"
    && |card.question| > 5 && card.question[|card.question| - 1] == '?'
    && |card.answer| > 10 && card.answer[|card.answer| - 1] in ".!?"
  }

  /** The end of the `try` block of `generate_flashcards`: both texts are
      cleaned and kept as a card only when the question is longer than five
      characters and the answer longer than ten. */
  function CardFrom(question: string, answer: string, id: int): (r: Option<Flashcard>)
    ensures r.Some? ==> r.value.id == id && GoodCard(r.value)
    ensures r.Some? <==> |CleanQuestion(question)| > 5 && |CleanAnswer(answer)| > 10
  {
    var question := CleanQuestion(question);
    var answer := CleanAnswer(answer);
    if question != "" && answer != "" && |question| > 5 && |answer| > 10 then
      Some(Flashcard(id, question, answer, "short_answer"))
    else None
  }

  /** The `try` block of `generate_flashcards` for one chunk: the card it
      keeps, if any, and the number of pipeline calls made so far. The first
      call asks for a question, the second, made only when the first
      returned, for its answer. */
  method FlashcardFor(chunk: string, id: int, calls: nat, generate: (nat, string) -> Option<string>)
    returns (card: Option<Flashcard>, callsAfter: nat)
    ensures card.Some? ==> card.value.id == id && GoodCard(card.value)
    ensures var questionResponse := generate(calls, QuestionPrompt(chunk));
      questionResponse.None? ==> card.None? && callsAfter == calls + 1
    ensures var questionResponse := generate(calls, QuestionPrompt(chunk));
      questionResponse.Some? ==>
        var question := Strip(questionResponse.value);
        var answerResponse := generate(calls + 1, AnswerPrompt(question, chunk));
        && callsAfter == calls + 2
        && card == (if answerResponse.None? then None else CardFrom(question, Strip(answerResponse.value), id))
  {
    card := None;
    var questionResponse := generate(calls, QuestionPrompt(chunk));
    callsAfter := calls + 1;
    if questionResponse.None? {
      return;
    }
    var question := Strip(questionResponse.value);
    var answerResponse := generate(callsAfter, AnswerPrompt(question, chunk));
    callsAfter := callsAfter + 1;
    if answerResponse.None? {
      return;
    }
    var answer := Strip(answerResponse.value);
    card := CardFrom(question, answer, id);
  }

  /** Good cards numbered from one. */
  predicate NumberedCards(cards: seq<Flashcard>) {
    forall k :: 0 <= k < |cards| ==> cards[k].id == k + 1 && GoodCard(cards[k])
  }

  lemma NumberedCardsSnoc(cards: seq<Flashcard>, card: Flashcard)
    requires NumberedCards(cards) && card.id == |cards| + 1 && GoodCard(card)
    ensures NumberedCards(cards + [card])
  {
  }

  /** The loop of `generate_flashcards` over the chunks of `text` (chunk size
      300), for any pipeline output. */
  method GenerateFlashcards(text: string, numCards: int, generate: (nat, string) -> Option<string>)
    returns (cards: seq<Flashcard>)
    ensures |cards| <= 10
    ensures numCards <= 0 ==> cards == []
    ensures numCards > 0 ==> |cards| <= numCards
    ensures NumberedCards(cards)
  {
    var chunks := SplitTextIntoChunks(text, 300);
    cards := [];
    var questionsGenerated := 0;
    var calls: nat := 0;
    for c := 0 to |chunks|
      invariant questionsGenerated == |cards| <= c
      invariant cards == [] || |cards| <= numCards
      invariant NumberedCards(cards)
    {
      if questionsGenerated >= numCards {
        break;
      }
      var card;
      card, calls := FlashcardFor(chunks[c], questionsGenerated + 1, calls, generate);
      if card.Some? {
        NumberedCardsSnoc(cards, card.value);
        cards := cards + [card.value];
        questionsGenerated := questionsGenerated + 1;
      }
    }
  }

  // ---------------------------------------------------------------------------
  // generate_glossary

  datatype GlossaryEntry = GlossaryEntry(term: string, definition: string)

  function DefinitionPrompt(term: string): string {
    "Define the technical term '" + term + "' in simple language for a general audience:"
  }

  function TermsOf(glossary: seq<GlossaryEntry>): (r: seq<string>)
    ensures |r| == |glossary|
    ensures forall k :: 0 <= k < |glossary| ==> r[k] == glossary[k].term
  {
    seq(|glossary|, k requires 0 <= k < |glossary| => glossary[k].term)
  }

  /** The `try` block of `generate_glossary` for one term, given what the
      pipeline returned (`None` when it raised): the definition is stripped,
      cleaned by `_clean_definition` as written and kept when it is longer
      than ten characters. */
  function EntryFor(term: string, response: Option<string>): (r: Option<GlossaryEntry>)
    ensures r.Some? ==> r.value.term == term && |r.value.definition| > 10
    ensures r.Some? ==> response.Some? && r.value.definition == CleanDefinitionAsWritten(Strip(response.value), term)
    ensures r.Some? <==> response.Some? && |CleanDefinitionAsWritten(Strip(response.value), term)| > 10
  {
    if response.None? then None
    else
      var definition := CleanDefinitionAsWritten(Strip(response.value), term);
      if definition != "" && |definition| > 10 then Some(GlossaryEntry(term, definition)) else None
  }

  /** A response that repeats the term before "is" keeps the letter `s` in
      the glossary entry, and the entry is dropped when what is left after
      that letter is not longer than eight characters. */
  lemma EntryKeepsOneLetterOfIs(term: string, x: string)
    requires term != [] && !IsSpace(term[0])
    requires x != [] && !IsSpace(x[0]) && x[|x| - 1] == '.'
    ensures EntryFor(term, Some(term + " is " + x)) == if |x| > 8 then Some(GlossaryEntry(term, "S " + x)) else None
  {
    var d := term + " is " + x;
    assert d[0] == term[0] && d[|d| - 1] == x[|x| - 1];
    PrintableNotSpace('.');
    StripTrimmed(d);
    IsAfterTerm(term, x);
  }

  /** Entries for distinct terms taken from `terms`, each with a definition
      longer than ten characters. */
  predicate GlossaryOf(glossary: seq<GlossaryEntry>, terms: seq<string>) {
    && Distinct(TermsOf(glossary))
    && forall j :: 0 <= j < |glossary| ==> glossary[j].term in terms && |glossary[j].definition| > 10
  }

  lemma GlossaryOfSnoc(glossary: seq<GlossaryEntry>, terms: seq<string>, term: string, entry: Option<GlossaryEntry>)
    requires GlossaryOf(glossary, terms) && term !in terms
    requires entry.Some? ==> entry.value.term == term && |entry.value.definition| > 10
    ensures GlossaryOf(if entry.Some? then glossary + [entry.value] else glossary, terms + [term])
  {
    if entry.Some? {
      assert TermsOf(glossary + [entry.value]) == TermsOf(glossary) + [term];
    }
  }

  /** The kept entries of `terms`, in term order, `entry(n, terms[n])` being
      the outcome for the `n`-th term. */
  function KeptEntries<E>(terms: seq<string>, entry: (nat, string) -> Option<E>): (r: seq<E>)
    ensures |r| <= |terms|
  {
    if terms == [] then []
    else
      var n := |terms| - 1;
      KeptEntries(terms[..n], entry) + if entry(n, terms[n]).Some? then [entry(n, terms[n]).value] else []
  }

  /** Exactly the kept outcomes are listed. */
  lemma {:induction false} KeptEntriesMembers<E>(terms: seq<string>, entry: (nat, string) -> Option<E>)
    ensures forall e :: e in KeptEntries(terms, entry) <==> exists n :: 0 <= n < |terms| && entry(n, terms[n]) == Some(e)
  {
    if terms != [] {
      var n := |terms| - 1;
      var init := terms[..n];
      KeptEntriesMembers(init, entry);
      assert forall k :: 0 <= k < n ==> init[k] == terms[k];
    }
  }

  /** The `try` block for the `n`-th term, whose prompt is the `n`-th
      pipeline call. */
  function EntryOf(generate: (nat, string) -> Option<string>): (nat, string) -> Option<GlossaryEntry> {
    (n: nat, term: string) => EntryFor(term, generate(n, DefinitionPrompt(term)))
  }

  /** The entries `generate_glossary` keeps for `terms`, the `k`-th term
      being the `k`-th pipeline call. */
  function Definitions(terms: seq<string>, generate: (nat, string) -> Option<string>): (r: seq<GlossaryEntry>)
    ensures |r| <= |terms|
  {
    KeptEntries(terms, EntryOf(generate))
  }

  /** The glossary holds exactly the kept entries of the terms: each entry is
      the entry of some term, and every kept entry is in it. */
  lemma DefinitionsEntries(terms: seq<string>, generate: (nat, string) -> Option<string>)
    ensures forall e :: e in Definitions(terms, generate) <==>
      exists n :: 0 <= n < |terms| && EntryFor(terms[n], generate(n, DefinitionPrompt(terms[n]))) == Some(e)
  {
    KeptEntriesMembers(terms, EntryOf(generate));
  }

  /** Distinct terms give a glossary of distinct terms drawn from them, each
      with a long enough definition. */
  lemma {:induction false} DefinitionsAreGlossary(terms: seq<string>, generate: (nat, string) -> Option<string>)
    requires Distinct(terms)
    ensures GlossaryOf(Definitions(terms, generate), terms)
  {
    if terms != [] {
      var n := |terms| - 1;
      assert terms == terms[..n] + [terms[n]];
      DefinitionsAreGlossary(terms[..n], generate);
      var entry := EntryFor(terms[n], generate(n, DefinitionPrompt(terms[n])));
      assert EntryOf(generate)(n, terms[n]) == entry;
      GlossaryOfSnoc(Definitions(terms[..n], generate), terms[..n], terms[n], entry);
    }
  }

  /** The loop of `generate_glossary` over the selected terms. */
  method DefineTerms(terms: seq<string>, generate: (nat, string) -> Option<string>)
    returns (glossary: seq<GlossaryEntry>)
    ensures glossary == Definitions(terms, generate)
  {
    glossary := [];
    for k := 0 to |terms|
      invariant glossary == Definitions(terms[..k], generate)
    {
      var response := generate(k, DefinitionPrompt(terms[k]));
      var entry := EntryFor(terms[k], response);
      assert terms[..k + 1][..k] == terms[..k];
      if entry.Some? {
        glossary := glossary + [entry.value];
      }
    }
    assert terms[..|terms|] == terms;
  }

  /** `generate_glossary` over `technical_terms[:max_terms]`, for any pipeline
      output. Definitions go through `_clean_definition` as written. */
  method GenerateGlossary(text: string, maxTerms: int, generate: (nat, string) -> Option<string>)
    returns (glossary: seq<GlossaryEntry>)
    ensures |glossary| <= 20
    ensures maxTerms >= 0 ==> |glossary| <= maxTerms
    ensures maxTerms < 0 ==> |glossary| <= if 20 + maxTerms > 0 then 20 + maxTerms else 0
    ensures Distinct(TermsOf(glossary))
    ensures forall k :: 0 <= k < |glossary| ==>
      glossary[k].term in KeptCandidates(text) && |glossary[k].definition| > 10
    ensures forall e :: e in glossary ==> exists n: nat ::
      && generate(n, DefinitionPrompt(e.term)).Some?
      && e.definition == CleanDefinitionAsWritten(Strip(generate(n, DefinitionPrompt(e.term)).value), e.term)
  {
    var terms := ExtractTechnicalTerms(text);
    var selected := PrefixTo(terms, maxTerms);
    assert Distinct(selected);
    glossary := DefineTerms(selected, generate);
    DefinitionsAreGlossary(selected, generate);
    DefinitionsEntries(selected, generate);
    assert forall t :: t in selected ==> t in terms;
  }
}
