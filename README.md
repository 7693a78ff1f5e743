# PaperMind text heuristics in Dafny

PaperMind is a research-paper assistant. Its backend pulls text out of a PDF,
cleans it, and answers questions about the paper. Many of those answers come
from plain keyword and regular-expression heuristics, not from a language
model. This project models those deterministic heuristics and proves what they
compute:

- **SimpleAdvancedProcessor** (`simple_advanced_processor.dfy`, module
  `SimpleAdvanced`): citation counting, methodology keyword buckets, the
  sentence-level lexical search with its threshold and top-5 ranking,
  research-gap detection and categorisation, the co-occurrence concept map and
  the mocked related-papers report.
- **AIModels helpers** (`ai_models.dfy`, module `AiModels`): the question, answer
  and definition cleaners, the word-window chunker, technical-term extraction,
  and the counting and filtering loops of flashcard and glossary generation.
  The Flan-T5 pipeline is a parameter `generate(callNumber, prompt)` that may
  return any text, or `None` where the pipeline raises.
- **PDFProcessor** (`pdf_processor.dfy`, module `PdfProcessor`): `_clean_text` as
  a composition of one function per substitution pass. Also the threshold and
  fallback decision of `extract_text`, taking the two extractors' raw results
  as inputs.
- **AdvancedPaperProcessor helpers** (`advanced_processor.dfy`, module
  `Advanced`): gap categories, concept co-occurrence, technique detection,
  limitation snippets, publication years with Python's `int()`, the top-5
  authors of `Counter.most_common`, the citation network, and the graph loop
  of `create_concept_map` over a given spaCy entity list.

Supporting modules:

- `text.dfy` (`Text`): the Python `str` and list operations the code relies on.
  These are `lower`, `strip`, `split(sep)`, `split()`, `join` and slicing,
  plus order-preserving deduplication (a `Counter`'s or dict's keys).
- `regex.dfy` (`Regex`): each regular expression written out as a scanner.
  `FindAll` and `Sub` follow `re.findall` and `re.sub`: the leftmost match wins,
  matches never overlap, and the capture group is reported when there is one.
- `ranking.dfy` (`Ranking`): Python's stable `sorted(..., reverse=True)` on an
  integer key, and `sorted` on integers.
- `graphs.dfy` (`Graphs`): the part of a networkx graph the code uses, as a
  class whose methods update its node list, title attributes and edge list in
  place.
- `wrappers.dfy` (`Wrappers`): `Option`.

Where the code rebinds one local string step by step, the model is a function.
Where it builds lists in loops, the model is a method with loop invariants,
proved against a specification function. A method that calls the pipeline
takes a numbered call sequence, so every possible model output is covered.

## Model

| member | source | states |
|---|---|---|
| SimpleAdvanced.CollectMatches | backend/simple_advanced_processor.py:22-25 | the `extend` loop yields exactly the matches of each pattern in turn, in pattern order |
| SimpleAdvanced.CitationMatches | backend/simple_advanced_processor.py:16-25 | the citation list is the bracket-number matches, then the parenthesised-year matches, then the et-al matches |
| SimpleAdvanced.DistinctCount | backend/simple_advanced_processor.py:39 | `len(set(citations))` is the number of distinct matches and never exceeds the number of matches |
| SimpleAdvanced.LexTotal | backend/simple_advanced_processor.py:45 | Python's string order, used by `max`, relates any two strings |
| SimpleAdvanced.LexReflexive | backend/simple_advanced_processor.py:45 | the string order is reflexive |
| SimpleAdvanced.LexTransitive | backend/simple_advanced_processor.py:45 | the string order is transitive |
| SimpleAdvanced.MaxString | backend/simple_advanced_processor.py:45 | `max` over a non-empty list returns one of its items, and no item is greater |
| SimpleAdvanced.CitationAgeAsWrittenValues | backend/simple_advanced_processor.py:28-45 | the age as written is 4 with no years, 2022 when some year is in the 2000s, and 2023 otherwise: it subtracts the first digit of a century, not a year |
| SimpleAdvanced.YearValue | backend/simple_advanced_processor.py:28 | every matched year lies in 1900..2099 |
| SimpleAdvanced.LatestYear | backend/simple_advanced_processor.py:45 | the latest year is one of the years and no year is later |
| SimpleAdvanced.CitationAgeAsWritten | backend/simple_advanced_processor.py:28-45 | the age as written is 4, 2022 or 2023, and it is 4 exactly when no year matches |
| SimpleAdvanced.CitationAge | backend/simple_advanced_processor.py:45 | the intended age is 4 with no year in the text, otherwise 2024 minus the latest matched year |
| SimpleAdvanced.CitationAgeOfOneYear | backend/simple_advanced_processor.py:45 | for the text "2020", the age as written is 2022, while the intended result is 4 |
| SimpleAdvanced.ExtractCitations | backend/simple_advanced_processor.py:12-49 | total = number of matches of the three patterns; nodes = min(distinct, 20); edges = min(total // 2, 15); diversity = distinct; self-citations 0; authors = first 5 distinct author matches in order of first appearance; years = first 10 distinct centuries, each "19" or "20"; age = line 45 as written: 4 without years, 2022 when some year of the 2000s is cited, 2023 otherwise |
| SimpleAdvanced.PresentWords | backend/simple_advanced_processor.py:71-74 | a keyword is found iff it is in the list and occurs in the text; the found keywords keep list order |
| SimpleAdvanced.FindWords | backend/simple_advanced_processor.py:71-74 | the keyword loop collects exactly the keywords present in the lowered text |
| SimpleAdvanced.ResearchDesign | backend/simple_advanced_processor.py:77-87 | the design loop collects exactly the design labels whose bucket triggers |
| SimpleAdvanced.ResearchDesignCases | backend/simple_advanced_processor.py:77-87 | each of experimental, observational, theoretical and computational appears at most once, in that order, iff one of its trigger words occurs in the lowered text |
| SimpleAdvanced.ExtractMethodology | backend/simple_advanced_processor.py:60-106 | research methods = the first 10 keywords present; techniques = the first 5; the narrative is built from the designs and keywords found; confidence 0.7 |
| SimpleAdvanced.ReportedKeywords | backend/simple_advanced_processor.py:103-105 | at most n keywords are reported, each in the list and in the text, in list order; when no more than n are present, all of them are reported |
| SimpleAdvanced.CountPresent | backend/simple_advanced_processor.py:131-134 | the score counts the query words, repeats included, that occur in the piece |
| SimpleAdvanced.CollectComplete | backend/simple_advanced_processor.py:124-143 | every item that produces a result is in the collected results |
| SimpleAdvanced.CollectNone | backend/simple_advanced_processor.py:124-143 | when no item produces a result, nothing is collected |
| SimpleAdvanced.CollectSound | backend/simple_advanced_processor.py:124-143 | every collected result comes from the item at its own index, and the indices increase along the list |
| SimpleAdvanced.HitsOfSound | backend/simple_advanced_processor.py:124-143 | every candidate result is a stripped piece of length at least 20 at its own chunk index, passing the 0.3 threshold; chunk indices increase |
| SimpleAdvanced.HitsOfComplete | backend/simple_advanced_processor.py:124-143 | every piece that passes the length and threshold tests is a candidate result |
| SimpleAdvanced.TopHitsOrdered | backend/simple_advanced_processor.py:146 | results are in descending score, with ties in ascending chunk index, as a stable sort leaves them |
| SimpleAdvanced.SemanticSearch | backend/simple_advanced_processor.py:116-152 | the query is echoed; the results are the top 5 candidates over the `.`-pieces and the lowered query words; total chunks = number of pieces |
| SimpleAdvanced.SearchResultsValid | backend/simple_advanced_processor.py:120-146 | at most 5 results; each is a stripped piece of length at least 20 at its chunk index, with 10·score > 3·(number of query words); they are ordered by score, then by chunk index |
| SimpleAdvanced.SearchResultsComplete | backend/simple_advanced_processor.py:124-146 | a passing piece is either among the results or there are five results, each scoring at least as high |
| SimpleAdvanced.NoMatchNoHits | backend/simple_advanced_processor.py:132-143 | a query sharing no word with any piece gives no candidates |
| SimpleAdvanced.NothingPresent | backend/simple_advanced_processor.py:132-134 | with no query word in the piece, the score is 0 |
| SimpleAdvanced.NoMatchNoResults | backend/simple_advanced_processor.py:132-146 | a query sharing no word with any piece yields an empty result list |
| SimpleAdvanced.EmptyQueryNoResults | backend/simple_advanced_processor.py:121-146 | an empty query yields an empty result list, not a division error |
| SimpleAdvanced.TermsOfPaper | backend/simple_advanced_processor.py:168-169 | a term is kept iff the acronym-or-phrase pattern matches it in the title, a space and the first 1000 characters, it is longer than two characters and it is not a stop word |
| SimpleAdvanced.RelatedPapersFor | backend/simple_advanced_processor.py:174-198 | the arxiv list is empty iff there are no key concepts, and otherwise holds the two mock titles built from the first two concepts; the semantic scholar part is the one note; the strategy is keyword_based |
| SimpleAdvanced.FindRelatedPapers | backend/simple_advanced_processor.py:161-198 | key concepts are distinct kept terms, min(10, number of kept terms) of them, reported through the mock builder |
| SimpleAdvanced.FirstOccurring | backend/simple_advanced_processor.py:222-225 | the indicator loop with `break` finds a hit iff some indicator occurs in the lowered piece |
| SimpleAdvanced.GapPiece | backend/simple_advanced_processor.py:221-225 | a piece is recorded iff its stripped text is longer than 30 characters and it holds an indicator |
| SimpleAdvanced.CollectGaps | backend/simple_advanced_processor.py:217-225 | the gap loop records exactly the stripped gap pieces, in text order, each piece at most once |
| SimpleAdvanced.GapSentences | backend/simple_advanced_processor.py:217-225 | a gap sentence is the stripped text of a piece that is a gap; the gap pieces are an ordered subsequence of the pieces |
| SimpleAdvanced.GapFlags | backend/simple_advanced_processor.py:229-236 | there is one flag per category |
| SimpleAdvanced.GapCategoriesCases | backend/simple_advanced_processor.py:228-259 | each category is reported iff some gap sentence mentions its word; the result is an ordered subsequence of the four, or exactly ['General'] iff none is mentioned |
| SimpleAdvanced.GapReportOf | backend/simple_advanced_processor.py:238-261 | limitations = first 5 gap sentences; categories as above; confidence 0.6 iff a gap was found, 0.3 iff none |
| SimpleAdvanced.IdentifyResearchGaps | backend/simple_advanced_processor.py:207-261 | the report is the gap report of the gap sentences of the `.`-pieces |
| SimpleAdvanced.ConceptsOf | backend/simple_advanced_processor.py:277-296 | a concept is kept iff a concept pattern matches it in the first 2000 characters, it is 3 to 29 characters long and it is not a stop word |
| SimpleAdvanced.ConceptNodes | backend/simple_advanced_processor.py:289-296 | nodes are distinct kept concepts, min(15, number of kept concepts) of them |
| SimpleAdvanced.RowLinksSound | backend/simple_advanced_processor.py:303-308 | every link of a row joins concept i to a later concept that is related to it |
| SimpleAdvanced.RowLinksComplete | backend/simple_advanced_processor.py:303-308 | every later concept related to concept i is linked from it |
| SimpleAdvanced.RowLinksDistinct | backend/simple_advanced_processor.py:303-308 | a row never repeats a link when the concepts are distinct |
| SimpleAdvanced.LinksSound | backend/simple_advanced_processor.py:302-308 | every link joins an earlier concept to a later related one |
| SimpleAdvanced.LinksComplete | backend/simple_advanced_processor.py:302-308 | every related pair, taken in order, is linked |
| SimpleAdvanced.LinksDistinct | backend/simple_advanced_processor.py:302-308 | no link appears twice |
| SimpleAdvanced.LinksOneWay | backend/simple_advanced_processor.py:302-308 | no link joins a concept to itself, and no pair is linked in both directions |
| SimpleAdvanced.CoOccurring | backend/simple_advanced_processor.py:305-308 | the sentence loop with `break` succeeds iff both concepts occur, ignoring case, in one sentence |
| SimpleAdvanced.LinkRow | backend/simple_advanced_processor.py:303-308 | the inner loop builds exactly the row's links |
| SimpleAdvanced.LinkConcepts | backend/simple_advanced_processor.py:302-308 | the nested loops build exactly the links of all rows |
| SimpleAdvanced.CreateConceptMap | backend/simple_advanced_processor.py:271-319 | nodes as above; edges = the first 10 links among the nodes over the first 20 `.`-pieces; the totals are the node and edge counts |
| SimpleAdvanced.ConceptMapEdges | backend/simple_advanced_processor.py:299-315 | at most 10 distinct edges; each joins two distinct nodes that co-occur in one sentence; no pair appears in both directions |
| SimpleAdvanced.ConceptMapComplete | backend/simple_advanced_processor.py:302-308 | every co-occurring pair of nodes is linked before the cut to 10 |
| AiModels.CleanQuestion | backend/ai_models.py:301-313 | the result ends in '?'; '?' is appended only when the stripped input lacks it; the first character is the upper case of the stripped input's first character and the rest of the stripped text is kept; a blank question gives "?" |
| AiModels.CleanQuestionIdempotent | backend/ai_models.py:301-313 | cleaning a cleaned question changes nothing |
| AiModels.CleanAnswer | backend/ai_models.py:315-327 | the result is empty iff the input is blank; it starts with the capitalised stripped input, and is one character longer, that character being '.', exactly when the stripped input is non-empty and does not end in '.', '!' or '?'; a non-empty result ends in one of them and has no surrounding whitespace |
| AiModels.CleanAnswerIdempotent | backend/ai_models.py:315-327 | cleaning a cleaned answer changes nothing |
| AiModels.DropTrailingFragment | backend/ai_models.py:294-297 | the fragment step keeps a prefix; when it cuts, the prefix ends in '.' and what it drops has no '.' and strips to fewer than ten characters |
| AiModels.SplitLast | backend/ai_models.py:294-296 | with several '.'-pieces the text is the earlier pieces joined with '.', a '.', and the last piece |
| AiModels.DropTrailingFragmentCut | backend/ai_models.py:294-297 | with the last '.' at k, the result is the text up to and including k when what follows strips to fewer than ten characters, and the whole text otherwise |
| AiModels.DropTrailingFragmentNoDot | backend/ai_models.py:294-297 | a definition without '.' has one piece and is kept whole |
| AiModels.DropTrailingFragmentKeepsSentence | backend/ai_models.py:295-297 | a definition ending in '.' is left unchanged |
| AiModels.FinishDefinition | backend/ai_models.py:290-299 | the finished definition is stripped and no longer than its input |
| AiModels.CleanDefinitionAsWritten | backend/ai_models.py:282-299 | the definition as written is stripped; its `:` and "is" branches are stated by ColonAfterTerm and IsAfterTerm |
| AiModels.CleanDefinition | backend/ai_models.py:282-299 | the corrected definition, which drops all of a leading "is", is stripped |
| AiModels.AfterTermShape | backend/ai_models.py:285-288 | the leading-term step never lengthens; a definition not starting with the term is kept; once the term is cut off, what is left is stripped |
| AiModels.AfterTermIs | backend/ai_models.py:285-288 | unfolding step of the leading-term step: a stripped remainder starting with "is" loses its first `isWidth` characters and is stripped again |
| AiModels.AfterTermColon | backend/ai_models.py:285-288 | unfolding step of the leading-term step: a stripped remainder starting with ":" loses that one character and is stripped again |
| AiModels.AfterColon | backend/ai_models.py:285-288 | for "term: x" the leading-term step leaves exactly x, whichever width is taken from "is" |
| AiModels.ColonAfterTerm | backend/ai_models.py:282-299 | for "term: x." both the written and the corrected code return x capitalised: the `:` branch drops the colon and the blank |
| AiModels.CleanDefinitionColonExample | backend/ai_models.py:285-288 | for "GAN: a model." and term "GAN", the written and the corrected code both give "A model." |
| AiModels.AfterRepeatedTerm | backend/ai_models.py:285-288 | for "term is x", the written code leaves "s x", while dropping both letters leaves x |
| AiModels.FinishSentence | backend/ai_models.py:290-299 | a definition already ending in '.' only gets its first letter capitalised |
| AiModels.IsAfterTerm | backend/ai_models.py:282-299 | for "term is x." the written code returns "S x." and the corrected code returns x capitalised |
| AiModels.CleanDefinitionDropsOneLetterOfIs | backend/ai_models.py:287-288 | for "GAN is a model." and term "GAN", the written code gives "S a model." and the corrected code "A model." |
| AiModels.CleanDefinitionKeepsCleanText | backend/ai_models.py:282-299 | a capitalised, stripped definition ending in '.' that does not start with the term is returned unchanged |
| AiModels.KeptStarts | backend/ai_models.py:334-337 | every kept window starts inside the word list |
| AiModels.KeptStartsIncreasing | backend/ai_models.py:334-337 | kept starts increase and their windows pass the length test |
| AiModels.StepIsMultiple | backend/ai_models.py:334 | window m starts m times the chunk size after the first start, as range(0, n, size) steps |
| AiModels.StepOnGrid | backend/ai_models.py:334 | every start visited by range(0, n, size) lies on the grid of multiples of the chunk size |
| AiModels.OnGridShift | backend/ai_models.py:334 | a grid point after the first step is a grid point from the start |
| AiModels.KeptStartsAligned | backend/ai_models.py:334 | every kept start is a multiple of the chunk size |
| AiModels.KeptStartsComplete | backend/ai_models.py:334-337 | every window at a multiple of the chunk size that passes the test is kept |
| AiModels.ChunksAtKeptStarts | backend/ai_models.py:334-337 | chunk k is the joined window at the k-th kept start |
| AiModels.ChunksFromStep | backend/ai_models.py:334-337 | unfolding step of the chunk definition, used by the loop proof: one step adds the current window iff it passes the test |
| AiModels.KeepWindows | backend/ai_models.py:331-337 | the stepped loop builds exactly the substantial windows |
| AiModels.SplitTextIntoChunks | backend/ai_models.py:329-339 | at most 10 chunks: the first 10 substantial windows for a positive size, none for a negative size |
| AiModels.ChunkIsWindow | backend/ai_models.py:334-337 | each chunk is the window at a multiple of the size, and windows keep text order |
| AiModels.ChunkIsSubstantial | backend/ai_models.py:336 | each chunk is longer than 50 characters once stripped |
| AiModels.ChunkWords | backend/ai_models.py:331-335 | a chunk's words are exactly its window of the text's words, at most `chunk_size` of them |
| AiModels.WindowWords | backend/ai_models.py:335 | splitting a joined window gives back its words |
| AiModels.KeptCandidates | backend/ai_models.py:272-278 | a term survives iff some pattern found it and it is 3 to 29 characters long, not a common word and not all digits |
| AiModels.CollectCandidates | backend/ai_models.py:264-266 | the pattern loop collects exactly the set of all matches of the six patterns |
| Text.KeepWhere | backend/ai_models.py:272-278 | the filter loop of `_extract_technical_terms` (and the other append-if loops) equals the order-keeping filter of its input, which keeps exactly the passing items (FilterMembers) in their order (FilterSubsequence) |
| AiModels.ExtractTechnicalTerms | backend/ai_models.py:252-280 | distinct surviving terms, min(20, number of surviving terms) of them |
| AiModels.CardFrom | backend/ai_models.py:230-239 | a card is kept iff the cleaned question is longer than 5 characters and the cleaned answer longer than 10; a kept card has the given id, type short_answer, a question ending in '?' and an answer ending in punctuation |
| AiModels.FlashcardFor | backend/ai_models.py:204-244 | one chunk makes one question call, or a question and an answer call, and yields the card of the stripped responses; a failed call yields no card |
| AiModels.NumberedCardsSnoc | backend/ai_models.py:233-240 | appending a good card numbered one past the end keeps the ids consecutive |
| AiModels.GenerateFlashcards | backend/ai_models.py:182-250 | for any pipeline output: at most 10 cards, none when num_cards ≤ 0, at most num_cards; ids run 1..k and every card is good |
| AiModels.TermsOf | backend/ai_models.py:167-170 | the glossary's terms, one per entry |
| AiModels.EntryFor | backend/ai_models.py:161-170 | an entry is kept iff the response exists and its definition, stripped and cleaned by `_clean_definition` as written, is longer than 10 characters; the entry holds the term and that definition |
| AiModels.EntryKeepsOneLetterOfIs | backend/ai_models.py:161-170 | a response "term is x." gives the entry "S x." as written, and none when x has at most 8 characters |
| AiModels.GlossaryOfSnoc | backend/ai_models.py:148-174 | one step for a new term keeps the terms distinct and the definitions long |
| AiModels.Definitions | backend/ai_models.py:148-174 | there is at most one entry per term |
| AiModels.KeptEntriesMembers | backend/ai_models.py:148-174 | the loop's list holds exactly the kept outcomes of its terms |
| AiModels.DefinitionsEntries | backend/ai_models.py:148-174 | the glossary holds exactly the entries of the terms whose numbered pipeline call gives a kept definition |
| AiModels.DefinitionsAreGlossary | backend/ai_models.py:148-174 | for distinct terms, the entries have distinct terms from the list and definitions longer than 10 characters |
| AiModels.DefineTerms | backend/ai_models.py:147-176 | the definition loop builds exactly the entries of the term list |
| AiModels.GenerateGlossary | backend/ai_models.py:132-180 | at most min(max_terms, 20) entries, and for a negative max_terms at most 20 + max_terms; terms are distinct extracted terms; definitions are longer than 10 characters, each the as-written cleaning of a pipeline response for its term |
| PdfProcessor.CollapseBlankLines | backend/pdf_processor.py:97 | the blank-line pass never lengthens the text |
| PdfProcessor.CollapseSpaces | backend/pdf_processor.py:98 | after the space pass no two consecutive spaces remain, and the text is no longer |
| PdfProcessor.CollapseSpacesIdempotent | backend/pdf_processor.py:98 | the space pass is idempotent |
| PdfProcessor.DropPageNumbers | backend/pdf_processor.py:101 | the page-number pass never lengthens the text |
| PdfProcessor.DropPageLabels | backend/pdf_processor.py:102 | the "Page n" pass never lengthens the text |
| PdfProcessor.DropUrls | backend/pdf_processor.py:105 | the URL pass never lengthens the text |
| PdfProcessor.DropEmails | backend/pdf_processor.py:106 | the e-mail pass never lengthens the text |
| PdfProcessor.CollapseDots | backend/pdf_processor.py:109 | no run of four dots remains |
| PdfProcessor.CollapseDotsIdempotent | backend/pdf_processor.py:109 | the dot pass is idempotent |
| PdfProcessor.CollapseDashes | backend/pdf_processor.py:110 | no run of four dashes remains |
| PdfProcessor.CollapseDashesIdempotent | backend/pdf_processor.py:110 | the dash pass is idempotent |
| PdfProcessor.NormaliseDoubleQuotes | backend/pdf_processor.py:113 | as written, the double-quote pass is the identity |
| PdfProcessor.NormaliseSingleQuotes | backend/pdf_processor.py:114 | as written, the single-quote pass is the identity |
| PdfProcessor.DropControlChars | backend/pdf_processor.py:117 | no character of the control ranges remains, and only characters of the input survive |
| PdfProcessor.KeptByControlPass | backend/pdf_processor.py:117 | tab, newline, carriage return and \x85 survive the control pass |
| PdfProcessor.SubKeepsOthers | backend/pdf_processor.py:117 | every character outside the control ranges survives the control pass |
| PdfProcessor.CleanText | backend/pdf_processor.py:83-119 | the result is no longer than the input, has no surrounding whitespace and no control character, and is empty for an empty input |
| PdfProcessor.ExtractText | backend/pdf_processor.py:15-46 | the cleaned PyMuPDF text when its stripped raw length is at least 100, otherwise the cleaned pdfplumber text under the same test, otherwise None |
| PdfProcessor.ExtractTextIsClean | backend/pdf_processor.py:27-42 | whatever is returned is stripped, has no control character, and is no longer than the raw text that passed the test |
| Advanced.CategoryFlags | backend/advanced_processor.py:369-376 | there is one flag per category |
| Advanced.CategorizeGaps | backend/advanced_processor.py:366-378 | the sequential ifs select the flagged labels, or ['General'] |
| Advanced.SelectFour | backend/advanced_processor.py:368-376 | selecting four labels is the four conditional appends in order |
| Advanced.CategorizeGapsCases | backend/advanced_processor.py:366-378 | each category is reported iff its lower-case word occurs in the lowered text; the result is an ordered subsequence of the four, or exactly ['General'] iff none occurs |
| Advanced.ConceptsRelated | backend/advanced_processor.py:380-387 | true iff some `.`-piece contains both concepts, ignoring case; hence symmetric |
| Advanced.IdentifyTechniques | backend/advanced_processor.py:297-310 | the loop keeps exactly the techniques that occur in the text ignoring case |
| Advanced.TechniquesFound | backend/advanced_processor.py:297-310 | a technique is reported iff it occurs in the text ignoring case; results keep list order and have no repeats |
| Advanced.TechniquePatternsDistinct | backend/advanced_processor.py:300-303 | the technique list has no repeats |
| Advanced.LimitationPatternsWellFormed | backend/advanced_processor.py:354-357 | there is one context pattern per limitation keyword, and each is well formed |
| Advanced.LowerLetters | backend/advanced_processor.py:354-357 | a lower-case keyword is its own lower case and holds no newline |
| Advanced.ExtractLimitations | backend/advanced_processor.py:352-364 | the result is the first 5 snippets of all the keywords' context matches, in keyword order |
| Advanced.ContextMatchesFrom | backend/advanced_processor.py:361 | every context match of a keyword is a substring of the text containing the keyword, ignoring case |
| Advanced.ContextMatch | backend/advanced_processor.py:361 | one context match is a substring of the text containing the keyword, ignoring case |
| Advanced.ContextMatchesOf | backend/advanced_processor.py:359-362 | every collected snippet is a substring of the text containing one of the keywords |
| Advanced.LimitationsFound | backend/advanced_processor.py:352-364 | at most 5 snippets, each a substring of the text containing a limitation keyword, ignoring case |
| Advanced.DigitChar | backend/advanced_processor.py:273 | a digit character has its digit value |
| Advanced.DecimalDigits | backend/advanced_processor.py:273 | the decimal text of a number is a valid digit string that spells it |
| Advanced.ParseInt | backend/advanced_processor.py:273 | `int(s)` succeeds iff the stripped text is an optionally signed run of digits; a negative value needs a leading `-` |
| Advanced.ParseIntText | backend/advanced_processor.py:273 | `int(str(n)) == n` for every integer n |
| Advanced.ParseIntUnsigned | backend/advanced_processor.py:273 | `int` of a digit string is the number it spells |
| Advanced.ParseIntSigned | backend/advanced_processor.py:273 | `int` of a minus sign and digits is the negated number |
| Advanced.ParseIntStripped | backend/advanced_processor.py:273 | `int` ignores surrounding whitespace |
| Advanced.ExtractYears | backend/advanced_processor.py:267-276 | the result is the parsable years sorted ascending |
| Advanced.YearsOfMembers | backend/advanced_processor.py:269-275 | a year is collected iff some reference has a present, truthy, parsable year with that value; there is at most one per reference |
| Advanced.YearsReported | backend/advanced_processor.py:267-276 | the result is sorted ascending, has at most one year per reference, and holds exactly the parsable years |
| Advanced.ExtractTopAuthors | backend/advanced_processor.py:259-265 | the result is the top authors of the collected author list, or None where `extend` raises |
| Advanced.AuthorsOfFails | backend/advanced_processor.py:262-264 | once `extend` has raised, the whole call raises |
| Advanced.AuthorsOfNone | backend/advanced_processor.py:262-264 | the call raises iff some reference has a truthy author that is a number |
| Advanced.AuthorItems | backend/advanced_processor.py:264 | `extend` raises exactly on a number; a string contributes its characters one by one |
| Advanced.TopAuthorsRanked | backend/advanced_processor.py:265 | at most 5 distinct authors, min(5, number of distinct authors) of them, ordered by descending count with ties by first appearance; an author left out is outnumbered by or tied with all five listed |
| Advanced.TitlesKeys | backend/advanced_processor.py:251 | exactly the added nodes carry a title |
| Advanced.BuildCitationNetwork | backend/advanced_processor.py:244-257 | over the first 10 references, the nodes are the authors added without repeats; their titles are the last ones given; edges 0; None where indexing the author raises |
| Advanced.AuthorNode | backend/advanced_processor.py:249 | the node name is "Unknown" for a falsy author, the first item of a list, the first character of a string; indexing raises only on a non-zero number |
| Advanced.EntriesStep | backend/advanced_processor.py:247-251 | unfolding step of the node-list definition, used by the loop proof: one step adds a node iff the reference has author and title |
| Advanced.AddedEntry | backend/advanced_processor.py:251 | `add_node` adds a new name at the end, keeps an existing one, and overwrites its title |
| Advanced.EntriesFail | backend/advanced_processor.py:247-251 | once the loop has raised, the whole call raises |
| Advanced.EntriesLength | backend/advanced_processor.py:247-251 | at most one node is added per reference |
| Advanced.TitlesLast | backend/advanced_processor.py:251 | a node's title is the one from its last addition |
| Advanced.CitationNetworkShape | backend/advanced_processor.py:253-257 | edges 0, at most 10 nodes, one data entry per node, each the last addition of that name |
| Advanced.EntriesNone | backend/advanced_processor.py:247-251 | the loop raises iff a reference with author and title has a truthy numeric author |
| Advanced.CreateConceptMap | backend/advanced_processor.py:210-240 | nodes are the first 20 concepts without repeats; every edge joins the concepts at two positions p < q that share a `.`-piece; every such pair is joined; no pair appears twice; the totals are the node and edge counts |
| Advanced.SelfLoopsRepeated | backend/advanced_processor.py:225-228 | under that soundness, a self-loop (c, c) needs c listed twice among the first 20 concepts |
| Advanced.EdgeRow | backend/advanced_processor.py:226-228 | the inner loop keeps the nodes and edge soundness, and joins concept i to every later related concept |
| Advanced.LinkedRowStart | backend/advanced_processor.py:226 | the inner loop starts right after concept i |
| Advanced.LinkedRowEnd | backend/advanced_processor.py:225-226 | a finished row moves the outer loop on |
| Advanced.LinkedStep | backend/advanced_processor.py:227-228 | one related pair handled extends the linked region |
| Advanced.LinkedAll | backend/advanced_processor.py:225-228 | unfolding step of the linked-region predicate, used by the loop proof: a region covering both loops joins every related pair |
| Graphs.Graph.constructor | backend/advanced_processor.py:218 | a new graph has no nodes, titles or edges |
| Graphs.Graph.AddNode | backend/advanced_processor.py:222 | `add_node` appends a new node, keeps an existing one, and changes nothing else |
| Graphs.Graph.AddNodeWithTitle | backend/advanced_processor.py:251 | `add_node(n, title=t)` appends a new node and sets its title |
| Graphs.Graph.AddEdge | backend/advanced_processor.py:228 | `add_edge` adds missing endpoints at the end, `u` before `v`, and adds the edge unless the same undirected edge exists |
| Regex.MatchBracketNumber | backend/simple_advanced_processor.py:17 | a match spans at least three characters and reports a non-empty run of digits |
| Regex.MatchParenthesisedYear | backend/simple_advanced_processor.py:18 | a match opens with '(' at the position and closes at the next ')', spans at least seven characters, and reports the text between the parentheses, which holds no ')' and has four digits after at least one other character |
| Regex.MatchEtAlCitation | backend/simple_advanced_processor.py:19 | a match spans at least fourteen characters, starts with a capital and is reported whole |
| Regex.MatchYear | backend/simple_advanced_processor.py:28 | a year matches iff four digits starting 19 or 20 stand between word boundaries; the group is the century, or the whole year |
| Regex.MatchCapitalisedPhrase | backend/ai_models.py:257 | a match stands between word boundaries and is reported whole; it is one or more capitalised words (a capital then lower-case letters) separated by whitespace (`CapitalisedWords`) |
| Regex.MatchAcronym | backend/ai_models.py:256 | a match is at least two capitals, all upper case |
| Regex.MatchAuthorYear | backend/simple_advanced_processor.py:32-33 | a match spans at least seven characters; its group is the text from the position to where the chain of capitalised words ends, starts with a capital and is followed by whitespace, and the year tail follows it |
| Regex.AuthorYearWords | backend/simple_advanced_processor.py:32 | the author group of a match is one or more capitalised words separated by whitespace (`CapitalisedWords`) |
| Regex.AuthorTail | backend/simple_advanced_processor.py:32 | the tail after the words starts with whitespace, spans at least five characters and ends in four digits, or in four digits and ')' |
| Regex.YearTail | backend/simple_advanced_processor.py:32 | the year tail ends after four digits, or after four digits and ')' |
| Regex.WordPhrase | backend/ai_models.py:257 | one capitalised word is a capitalised phrase |
| Regex.PhraseConcat | backend/ai_models.py:257 | two capitalised phrases joined by whitespace are one phrase |
| Regex.PhraseNextWord | backend/ai_models.py:257 | a phrase followed by whitespace and a capitalised word is still a phrase |
| Regex.ChainEndPhrase | backend/simple_advanced_processor.py:32 | the greedy chain of further words keeps a capitalised phrase a phrase |
| Regex.PhraseEndPhrase | backend/ai_models.py:257 | where the phrase scanner succeeds, it ends a capitalised phrase at a word boundary |
| Regex.MatchNounEnding | backend/simple_advanced_processor.py:280 | a match is a whole word: word characters only, between word boundaries, ending in one of the five suffixes after at least one more character |
| Regex.MatchWordContaining | backend/ai_models.py:258-261 | a match is a whole word: word characters only, between word boundaries, containing the stem with either initial |
| Regex.MatchBlankLines | backend/pdf_processor.py:97 | a match runs from a newline to a newline through whitespace only |
| Regex.MatchCharRun | backend/pdf_processor.py:98-110 | a run matches iff it is at least `min` long, and the match takes the whole run |
| Regex.MatchPageNumber | backend/pdf_processor.py:101 | a match is a newline, one or more digits and a newline, reported whole |
| Regex.MatchPageNumberComplete | backend/pdf_processor.py:101 | every newline, digits, newline at the position is matched whole |
| Regex.MatchPageLabel | backend/pdf_processor.py:102 | a match is a newline, "Page ", one or more digits and a newline, reported whole |
| Regex.MatchPageLabelComplete | backend/pdf_processor.py:102 | every newline, "Page ", digits, newline at the position is matched whole |
| Regex.MatchUrl | backend/pdf_processor.py:105 | a match spans at least eight characters |
| Regex.MatchEmail | backend/pdf_processor.py:106 | a match is a whole run of non-space characters of at least five |
| Regex.MatchLimitationContext | backend/advanced_processor.py:361 | a match contains the keyword ignoring case and is reported whole |
| Regex.MatchOneChar | backend/pdf_processor.py:113-114 | a one-character class matches exactly its character |
| Regex.MatchControlChar | backend/pdf_processor.py:117 | the control class matches exactly the listed ranges |
| Regex.MatchAt | backend/simple_advanced_processor.py:24 | every match is at least the pattern's minimum length and stays in the text |
| Regex.FindAll | backend/simple_advanced_processor.py:24 | `findall` reports no more matches than there are characters |
| Regex.Sub | backend/pdf_processor.py:96-117 | `sub` with a replacement no longer than any match never lengthens the text |
| Regex.YearCenturies | backend/simple_advanced_processor.py:28 | every reported year group is "19" or "20" |
| Regex.YearCenturiesFrom | backend/simple_advanced_processor.py:28 | every reported year group from a position on is "19" or "20" |
| Regex.FullYears | backend/simple_advanced_processor.py:28 | without the group, every match is a four-digit year of the 1900s or 2000s |
| Regex.FullYearsFrom | backend/simple_advanced_processor.py:28 | the same from any position on |
| Regex.YearsAndCenturiesFrom | backend/simple_advanced_processor.py:28-45 | the grouped and ungrouped year patterns match at the same places; each century is its year's first two characters |
| Regex.SubOneCharIdentity | backend/pdf_processor.py:113-114 | replacing a character by itself leaves the text unchanged |
| Regex.SubControl | backend/pdf_processor.py:117 | deleting the control class leaves no control character and only input characters |
| Regex.CollapsedRuns | backend/pdf_processor.py:98-110 | replacing runs of at least n by n leaves no run longer than n |
| Regex.CollapseIdempotent | backend/pdf_processor.py:98-110 | the run-collapsing substitution is idempotent |
| Text.IsSpaceCases | backend/ai_models.py:303 | `str.strip` removes exactly Python's whitespace characters |
| Text.Lower | backend/simple_advanced_processor.py:73 | lower-casing keeps the length and maps each character |
| Text.Capitalize | backend/ai_models.py:310-311 | only the first character changes, and it becomes its own upper case |
| Text.CapitalizeIdempotent | backend/ai_models.py:310-311 | capitalising twice equals capitalising once |
| Text.Strip | backend/ai_models.py:303 | the result is the middle slice between leading and trailing whitespace, with no whitespace at either end |
| Text.StripUnique | backend/ai_models.py:303 | any slice framed by whitespace with non-space ends is the strip |
| Text.StripIdempotent | backend/ai_models.py:303 | stripping twice equals stripping once |
| Text.Split | backend/simple_advanced_processor.py:120 | `split('.')` gives at least one piece, none holding the separator |
| Text.JoinSplit | backend/simple_advanced_processor.py:120 | joining the pieces with the separator gives back the text |
| Text.SplitJoin | backend/ai_models.py:295-297 | splitting a join of separator-free pieces gives them back |
| Text.Words | backend/ai_models.py:331 | `split()` gives non-empty tokens without whitespace |
| Text.WordsOfJoin | backend/ai_models.py:335 | splitting a space-joined word list gives it back |
| Text.JoinIsStripped | backend/ai_models.py:335-336 | a space-joined list of tokens is its own strip |
| Text.Take | backend/simple_advanced_processor.py:258 | `xs[:n]` is the prefix of length min(n, len(xs)) |
| Text.PrefixTo | backend/ai_models.py:148 | `xs[:k]` for any integer k is a prefix of xs, and for k ≥ 0 it is the first k items |
| Text.Dedup | backend/simple_advanced_processor.py:42-43 | a `Counter`'s keys are the distinct items in order of first appearance |
| Text.DedupFirstAppearance | backend/advanced_processor.py:265 | in the key order, an earlier key first appears before a later one |
| Text.Enumerate | backend/simple_advanced_processor.py:171 | `list(set(...))` lists each member exactly once, in some order |
| Text.FilterMembers | backend/advanced_processor.py:221 | a comprehension with a condition keeps exactly the items that pass |
| Text.FilterSubsequence | backend/advanced_processor.py:221 | the kept items keep their order |
| Text.SelectMembers | backend/advanced_processor.py:368-376 | a label is selected iff its flag is set, in label order |
| Text.SelectOrCases | backend/advanced_processor.py:378 | `categories or ['General']` is ['General'] iff no flag is set |
| Ranking.SortDescending | backend/simple_advanced_processor.py:146 | the sort is ordered by key descending, then by position, and is a permutation |
| Ranking.OrderedUnique | backend/simple_advanced_processor.py:146 | a stable sort has only one possible result |
| Ranking.SortAscending | backend/advanced_processor.py:276 | `sorted` returns an ascending permutation |
| Ranking.TopFrom | backend/simple_advanced_processor.py:146 | the top n has min(n, len) items, all from the input |
| Ranking.TopOrdered | backend/simple_advanced_processor.py:146 | the top n are by descending key, with ties in input order |
| Ranking.TopBest | backend/simple_advanced_processor.py:146 | an item left out is keyed no higher than the n-th of n results |
| Ranking.TopDistinct | backend/advanced_processor.py:265 | the top n of distinct items are distinct |

## Left out

- Language models and network calls are not modelled: T5, BART and Flan-T5 generation, sentence-transformer search, spaCy, OpenAI, refextract, arxiv and chromadb. Their outputs are inputs to the model, and `generate` is an arbitrary function.
- The Flask route files and the setup and test scripts are not part of this model. The routes only parse requests and return JSON.
- PDF reading is not modelled: `_extract_with_pymupdf`, `_extract_with_pdfplumber`, `extract_metadata` and `get_page_count` do file I/O. `ExtractText` takes their results as inputs.
- Logging and the `except Exception` fallback dictionaries are not modelled, because the modelled code does not raise. Where a modelled step does raise, the model returns `None`; this covers `extend` on a number and indexing a numeric author.
- Floats are not modelled. Confidence scores are hundredths (70, 60, 30). The similarity test `score / n > 0.3` is `10·score > 3·n`, and the similarity value itself is represented by the score.
- Case folding covers ASCII only. `lower`, `upper`, `islower` and `re.IGNORECASE` leave non-ASCII letters alone in the model. The regex classes `\d` and `\w` cover only ASCII digits and word characters, while `\s` and `strip` use Python's full whitespace set.
- Advanced.ParseIntText: `int()` of non-ASCII Unicode digits is not modelled; such strings fail to parse.
- Python `set` iteration order is not modelled. `Text.Enumerate` picks some order, and no ordering property is stated for key concepts, concept nodes or technical terms.
- Regex.MatchUrl: the URL pattern is written out as a scanner. Only its length bound is stated, so the URL pass is proved to shorten the text and nothing more.
- Regex.MatchEmail: only the length bound and the non-space run are stated, so the e-mail pass is proved to shorten the text and nothing more.
- SimpleAdvanced.GapPiece: the indicator loop with `break` is split into its own method, FirstOccurring, and the length test is taken outside it. The recorded pieces are proved the same.
- `_extract_methodology_keywords` is not modelled, because it depends on spaCy part-of-speech tags.
- `_analyze_citations` is not modelled, because it is a floating-point `np.mean`.
- `_extract_key_concepts`, `_search_arxiv` and `_search_semantic_scholar` are not modelled, because they call spaCy or the network.
- Advanced.CreateConceptMap: the order and orientation of networkx's `G.edges()` are not stated. The model states which pairs are joined, not the listed order.
- Advanced.BuildCitationNetwork: each `network_data` entry is shown as the node with its `title` value, not as an attribute dictionary. The source's `DiGraph` is the same undirected class here, which is harmless because no edge is ever added.
- Advanced.ExtractTopAuthors: reference fields are strings, integers or lists of strings. Other value types that refextract could produce are not modelled.
- AiModels.SplitTextIntoChunks: it requires `chunk_size != 0`, because `range` with step 0 raises. Every caller passes 300.
- AiModels.GenerateFlashcards: it states bounds and card properties for any pipeline output, not which chunks produced the cards. FlashcardFor states the per-chunk result exactly.
- AiModels.GenerateGlossary: it states bounds and entry properties, because the term order comes from a `set`. DefineTerms states the definition loop exactly.
- The narrative strings in methodology and gap reports are built in the model but stated only through the values they are built from.

## Findings

| source | as written | input that shows it | evidently intended | confidence | as-written member | corrected member |
|---|---|---|---|---|---|---|
| backend/simple_advanced_processor.py:45 | `2024 - int(max(years)[0])`, where `years` holds the century groups "19"/"20", so it subtracts one digit | the text "2020" gives 2022 | 2024 minus the latest year mentioned (2020 gives 4) | not executed | SimpleAdvanced.CitationAgeOfOneYear | SimpleAdvanced.CitationAge |
| backend/ai_models.py:287-288 | after a repeated term, a remainder starting with "is" loses only its first character | definition "GAN is a model.", term "GAN" gives "S a model." | drop the whole "is" ("A model.") | not executed | AiModels.CleanDefinitionDropsOneLetterOfIs | AiModels.CleanDefinition |

The operations follow the code as written: `SimpleAdvanced.ExtractCitations` reports `CitationAgeAsWritten`, and the glossary entries of `AiModels.EntryFor` go through `CleanDefinitionAsWritten`. The corrected members are proved beside them.
