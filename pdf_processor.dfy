/** `PDFProcessor`: the text cleaner, a fixed chain of eleven substitutions
    followed by `strip()`, and the choice between the two extractors' raw
    texts. The extractors themselves read PDF files and are inputs here. */
module PdfProcessor {
  import opened Wrappers
  import opened Text
  import opened Regex

  /** `self.min_text_length` */
  const MinTextLength: nat := 100

  // ---------------------------------------------------------------------------
  // The passes of _clean_text, in order

  /** `re.sub(r'\n\s*\n', '\n\n', text)` */
  function CollapseBlankLines(s: string): (r: string)
    ensures |r| <= |s|
  {
    Sub(BlankLines, s, "\n\n")
  }

  /** `re.sub(r' +', ' ', text)` */
  function CollapseSpaces(s: string): (r: string)
    ensures |r| <= |s|
    ensures NoRunLonger(r, ' ', 1)
  {
    CollapsedRuns(s, ' ', 1);
    Sub(CharRun(' ', 1), s, Repeat(' ', 1))
  }

  /** `re.sub(r'\n\d+\n', '\n', text)` */
  function DropPageNumbers(s: string): (r: string)
    ensures |r| <= |s|
  {
    Sub(PageNumber, s, "\n")
  }

  /** `re.sub(r'\nPage \d+\n', '\n', text)` */
  function DropPageLabels(s: string): (r: string)
    ensures |r| <= |s|
  {
    Sub(PageLabel, s, "\n")
  }

  /** The URL substitution, which deletes every match. */
  function DropUrls(s: string): (r: string)
    ensures |r| <= |s|
  {
    Sub(Url, s, "")
  }

  /** `re.sub(r'\S+@\S+\.\S+', '', text)` */
  function DropEmails(s: string): (r: string)
    ensures |r| <= |s|
  {
    Sub(Email, s, "")
  }

  /** `re.sub(r'[.]{3,}', '...', text)` */
  function CollapseDots(s: string): (r: string)
    ensures |r| <= |s|
    ensures NoRunLonger(r, '.', 3)
  {
    CollapsedRuns(s, '.', 3);
    Sub(CharRun('.', 3), s, Repeat('.', 3))
  }

  /** `re.sub(r'[-]{3,}', '---', text)` */
  function CollapseDashes(s: string): (r: string)
    ensures |r| <= |s|
    ensures NoRunLonger(r, '-', 3)
  {
    CollapsedRuns(s, '-', 3);
    Sub(CharRun('-', 3), s, Repeat('-', 3))
  }

  /** The double-quote pass: its class holds only the ASCII `"` and it puts
      back `"`, so it changes nothing. */
  function NormaliseDoubleQuotes(s: string): (r: string)
    ensures r == s
  {
    SubOneCharIdentity(s, '"');
    Sub(OneChar('"'), s, ['"'])
  }

  /** The single-quote pass, an identity for the same reason. */
  function NormaliseSingleQuotes(s: string): (r: string)
    ensures r == s
  {
    SubOneCharIdentity(s, '\'');
    Sub(OneChar('\''), s, ['\''])
  }

  /** The control-character pass. */
  function DropControlChars(s: string): (r: string)
    ensures |r| <= |s|
    ensures forall j :: 0 <= j < |r| ==> !IsControl(r[j])
    ensures multiset(r) <= multiset(s)
  {
    SubControl(s);
    Sub(ControlChar, s, "")
  }

  /** `_clean_text` */
  function CleanText(text: string): (r: string)
    ensures |r| <= |text|
    ensures r != [] ==> !IsSpace(r[0]) && !IsSpace(r[|r| - 1])
    ensures forall j :: 0 <= j < |r| ==> !IsControl(r[j])
    ensures text == "" ==> r == ""
  {
    if text == "" then ""
    else
      var t := CollapseBlankLines(text);
      var t := CollapseSpaces(t);
      var t := DropPageNumbers(t);
      var t := DropPageLabels(t);
      var t := DropUrls(t);
      var t := DropEmails(t);
      var t := CollapseDots(t);
      var t := CollapseDashes(t);
      var t := NormaliseDoubleQuotes(t);
      var t := NormaliseSingleQuotes(t);
      var t := DropControlChars(t);
      StripSubset(t);
      Strip(t)
  }

  // ---------------------------------------------------------------------------
  // Properties of the passes

  lemma CollapseSpacesIdempotent(s: string)
    ensures CollapseSpaces(CollapseSpaces(s)) == CollapseSpaces(s)
  {
    CollapseIdempotent(s, ' ', 1);
  }

  lemma CollapseDotsIdempotent(s: string)
    ensures CollapseDots(CollapseDots(s)) == CollapseDots(s)
  {
    CollapseIdempotent(s, '.', 3);
  }

  lemma CollapseDashesIdempotent(s: string)
    ensures CollapseDashes(CollapseDashes(s)) == CollapseDashes(s)
  {
    CollapseIdempotent(s, '-', 3);
  }

  /** Tabs, newlines, carriage returns and `\x85` are not control characters to
      the cleaner, so they survive its last pass. */
  lemma KeptByControlPass(s: string)
    ensures forall j :: 0 <= j < |s| && (s[j] == '\t' || s[j] == '\n' || s[j] == '\r' || s[j] == '\U{85}') ==>
      s[j] in DropControlChars(s)
  {
    SubKeepsOthers(s, 0);
  }

  lemma {:induction false} SubKeepsOthers(s: string, i: nat)
    requires i <= |s|
    ensures forall j :: i <= j < |s| && !IsControl(s[j]) ==> s[j] in SubFrom(ControlChar, s, i, "")
    decreases |s| - i
  {
    if i < |s| {
      SubKeepsOthers(s, i + 1);
    }
  }

  // ---------------------------------------------------------------------------
  // extract_text

  /** `text and len(text.strip()) >= self.min_text_length` */
  predicate Sufficient(text: Option<string>) {
    text.Some? && |Strip(text.value)| >= MinTextLength
  }

  /** `extract_text`, given what PyMuPDF and pdfplumber returned (`None` when
      an extractor failed). The length test is made on the raw text, before
      cleaning. */
  function ExtractText(pymupdf: Option<string>, pdfplumber: Option<string>): (r: Option<string>)
    ensures r.Some? <==> Sufficient(pymupdf) || Sufficient(pdfplumber)
    ensures Sufficient(pymupdf) ==> r == Some(CleanText(pymupdf.value))
    ensures !Sufficient(pymupdf) && Sufficient(pdfplumber) ==> r == Some(CleanText(pdfplumber.value))
  {
    if Sufficient(pymupdf) then Some(CleanText(pymupdf.value))
    else if Sufficient(pdfplumber) then Some(CleanText(pdfplumber.value))
    else None
  }

  /** Whatever is returned is cleaned text: stripped, free of control
      characters and no longer than the raw text it came from. */
  lemma ExtractTextIsClean(pymupdf: Option<string>, pdfplumber: Option<string>)
    requires ExtractText(pymupdf, pdfplumber).Some?
    ensures var t := ExtractText(pymupdf, pdfplumber).value;
      t != [] ==> !IsSpace(t[0]) && !IsSpace(t[|t| - 1])
    ensures var t := ExtractText(pymupdf, pdfplumber).value;
      forall j :: 0 <= j < |t| ==> !IsControl(t[j])
    ensures var t := ExtractText(pymupdf, pdfplumber).value;
      (Sufficient(pymupdf) && |t| <= |pymupdf.value|) || (Sufficient(pdfplumber) && |t| <= |pdfplumber.value|)
  {
    var raw := if Sufficient(pymupdf) then pymupdf.value else pdfplumber.value;
    assert ExtractText(pymupdf, pdfplumber).value == CleanText(raw);
  }
}
