# sango-action-bible scripts, modelled in Dafny

The sango-action-bible repository holds the command-line scripts that move the text of a bilingual
(English and Sango) comic-strip Bible between its working formats: Paratext SFM files, OpenDocument
(ODT) files and an XML file of reviewers' comments. This project models the core of eight of those
scripts as Dafny functions, methods and classes, and proves what each one promises.

| Dafny file (module) | script modelled |
|---|---|
| `sfm_info.dfy` (`SfmInfo`), `paragraph_check.dfy` (`ParagraphCheck`) | the SFM chapter parser (`get_info_dict`) and the paragraph-count check shared by `harmonize-verse-markers.py` and `compare-markers.py` |
| `harmonize.dfy` (`Harmonize`) | `harmonize-verse-markers.py`: copies the verse markers of the Sango SFM file onto the English one |
| `compare_markers.dfy` (`CompareMarkers`) | `compare-markers.py`: reports the chapters whose paragraph counts differ |
| `classifier.dfy` (`Classifier`) | the word-by-language counting and language decision shared by `update-odt-lg.py` and `split-by-language.py` |
| `update_odt_lg.dfy` (`UpdateOdtLang`) | `update-odt-lg.py`: sets the language style of each ODT paragraph |
| `split_by_language.dfy` (`SplitByLanguage`) | `split-by-language.py`: files each unit of a bilingual text under one language |
| `hs.dfy` (`Hunspell`) | `hs.py`: the Hunspell dictionary lookup |
| `action_bible.dfy` (`ActionBible`) | `action-bible-conv.py`: restyles the English paragraphs of the XML text |
| `set_structure.dfy` (`SetStructure`) | `set-structure.py`: copies the panel labels of one text into another |
| `odt_comments.dfy` (`OdtComments`) | `convert-odt-comments-to-xml.py`: extracts the ODT comments as note records |
| `wrappers.dfy`, `ordered.dfy`, `text.dfy` | `Option`/`Result`; Python's insertion-ordered `dict`; the Python string operations the scripts use (`split()`, `strip()`, `join`, `int()`, `str()`, `lower()`, `find`, `replace(…, 1)`) |

Conventions used throughout:

- A Python `dict` whose order matters is an `Ordered.OrdMap`: the keys in insertion order plus a map.
- A crash that a reachable input can cause is a `Failure` value: an `IndexError` on a blank SFM line,
  a `\v` before any `\p`, a missing chapter, a panel before any page, a missing verse cell.
- Files, `print`, `sys.argv` and `exit` are not modelled. Each script's `main` becomes a method.
  It takes the lines or values that main would read, and returns an outcome datatype in place of
  what main would print.
- Python's `str.split()` with no argument is `Text.Words`: it splits on runs of white space and
  drops the empty pieces.
- The white space it splits on is the set of characters `str.isspace` accepts (`Text.IsSpace`).

## Model

| member | source | states |
|---|---|---|
| Ordered.Put | harmonize-verse-markers.py:26 | a `dict` assignment maps the key to the value; a new key goes last, and an existing key keeps its place |
| Text.Words | harmonize-verse-markers.py:20 | `str.split()` yields only words: non-empty, with no white space |
| Text.WordsOfJoin | convert-odt-comments-to-xml.py:121 | splitting the space-joined words gives the words back |
| Text.JoinLength | convert-odt-comments-to-xml.py:46 | `len(' '.join(ws))` is the words' letters plus one separator between each two |
| Text.WordsOfStrip | split-by-language.py:42 | `strip().split()` is `split()` |
| Text.StripChars | compare-markers.py:77 | `strip('94XXA')` leaves neither end in the stripped set |
| Text.StripCharsSlice | compare-markers.py:77 | the stripped stem is a slice of the stem |
| Text.StripCharsIdempotent | compare-markers.py:77 | stripping twice is stripping once |
| Text.ParseIntOfIntToStr | convert-odt-comments-to-xml.py:43 | `int(str(i)) == i`, for the numbers line 172 writes into a reference |
| Text.Find | convert-odt-comments-to-xml.py:52 | the first occurrence of the pattern, where `replace(…, 1)` acts; none when it does not occur |
| Text.Lower | update-odt-lg.py:66 | lower-casing keeps the length |
| SfmInfo.Kinds | harmonize-verse-markers.py:19-20 | one classification per SFM line, the line's first token deciding it |
| SfmInfo.FailureStays | harmonize-verse-markers.py:40-46 | once a line has stopped the parse, the later lines leave that error unchanged |
| SfmInfo.ReadLine | harmonize-verse-markers.py:20-48 | one pass of the loop body is `Step`: the record of the current chapter is created when missing, then a `\c` line changes the chapter, a paragraph line is counted and kept, a `\v` line records its verse and rewrites the last paragraph; a blank line, a marker without its number, a verse number `int()` rejects and a verse before any paragraph each give an error |
| SfmInfo.GetInfoDict | harmonize-verse-markers.py:16-49 | the loop returns exactly `InfoOf(lines, markers)`: the chapter dictionary, or the error of the first line that stops the parse (the copy in `compare-markers.py`, lines 10-44, is the same loop with `\ip` also a paragraph marker) |
| SfmInfo.FirstLineOf | harmonize-verse-markers.py:25-27 | the first line at which chapter `c` is the current chapter, and that no earlier line has it current |
| SfmInfo.WithRecordWellFormed | harmonize-verse-markers.py:25-31 | a new chapter record keeps every record well formed |
| SfmInfo.AddParagraphWellFormed | harmonize-verse-markers.py:37-39 | counting and keeping a paragraph keeps `paragraph-count == len(paragraphs)` and the verse indexes in range |
| SfmInfo.AddVerseWellFormed | harmonize-verse-markers.py:47-48 | recording a verse at `paragraph-count - 1` keeps the record well formed |
| SfmInfo.StepWellFormed | harmonize-verse-markers.py:25-48 | a step that does not fail keeps the dictionary well formed |
| SfmInfo.ParseWellFormed | harmonize-verse-markers.py:16-49 | every dictionary the parse reaches is well formed: the keys are distinct and mapped, each paragraph count is the number of kept paragraphs, and each verse points at one of them |
| SfmInfo.ParseChapter | harmonize-verse-markers.py:32-36 | the current chapter after `n` lines is the number of the last `\c` line before them that `int()` accepts, or 0 |
| SfmInfo.StepRecords | harmonize-verse-markers.py:25-31 | a step adds the current chapter's record only when it is missing, with the step's line number; no other record's line number changes |
| SfmInfo.StepRecordsFrom | harmonize-verse-markers.py:25-31 | the records after `i + 1` lines are exactly the chapters current at some earlier line, each with the first such line |
| SfmInfo.ParseRecords | harmonize-verse-markers.py:25-31 | the same, for every prefix the parse reaches |
| SfmInfo.WithRecordTotal | harmonize-verse-markers.py:25-31 | creating a record leaves the total paragraph count unchanged |
| SfmInfo.AddParagraphTotal | harmonize-verse-markers.py:38 | a paragraph line adds one to the total paragraph count |
| SfmInfo.AddVerseTotal | harmonize-verse-markers.py:47-48 | a verse line leaves the total paragraph count unchanged |
| SfmInfo.StepTotal | harmonize-verse-markers.py:32-48 | a step adds one to the total exactly when its line is a paragraph line |
| SfmInfo.ParseTotal | harmonize-verse-markers.py:87-91 | the parsed dictionary is valid and its total paragraph count is the number of paragraph lines read |
| SfmInfo.VerseParagraphOfVerseLine | harmonize-verse-markers.py:48 | `\p` + newline + a `\v` line is a verse paragraph |
| SfmInfo.AddParagraphMarked | harmonize-verse-markers.py:39 | appending a paragraph keeps each recorded verse on a verse paragraph |
| SfmInfo.AddVerseMarked | harmonize-verse-markers.py:47-48 | after a verse line, each verse of the chapter indexes a paragraph that begins `\p` + newline + `\v` |
| SfmInfo.StepVersesMarked | harmonize-verse-markers.py:32-48 | a step keeps every recorded verse on a verse paragraph |
| SfmInfo.ParseVersesMarked | harmonize-verse-markers.py:16-49 | in the parsed dictionary every verse number indexes a paragraph that begins with its `\v` line |
| SfmInfo.InfoOfFacts | harmonize-verse-markers.py:16-49 | a successful parse is well formed, has a record for exactly the chapters current at some line, each with its first line number, counts every paragraph line, and keeps each verse on its paragraph |
| ParagraphCheck.Differing | harmonize-verse-markers.py:71-85 | a chapter is listed exactly when it is a base chapter whose paragraph counts differ |
| ParagraphCheck.DifferingBackwards | harmonize-verse-markers.py:73-84 | the same membership, for the backward walk over the base chapters |
| ParagraphCheck.DifferingBackwardsReversed | harmonize-verse-markers.py:127-129 | reversing the keys of the backward-built dictionary gives the mismatched chapters in base-file order |
| ParagraphCheck.VerifyParagraphCount | harmonize-verse-markers.py:71-85 | the error case first: a base chapter the target lacks stops the check, and it is the last such chapter in base order, the first one the backward walk meets; otherwise the keys are the mismatched chapters in backward order, each mapped to base, target and `diff = base - target` |
| ParagraphCheck.ReportInBaseOrder | harmonize-verse-markers.py:127-129 | the report walks the mismatched chapters in base-file order |
| ParagraphCheck.GetTotalParagraphCount | harmonize-verse-markers.py:87-91 | the loop returns the sum of the paragraph counts of all chapters |
| ParagraphCheck.MismatchRows | harmonize-verse-markers.py:129-131 | one report row per mismatched chapter, in report order, each carrying that chapter's entry |
| ParagraphCheck.NoMismatchIffCountsAgree | harmonize-verse-markers.py:125-126 | no mismatch is reported if and only if every base chapter has the same paragraph count in the target |
| ParagraphCheck.ReportRowsInBaseOrder | harmonize-verse-markers.py:127-131 | the rows are the mismatched chapters in base order, each with its base count, target count and difference |
| Harmonize.VerseMarkedParagraph | harmonize-verse-markers.py:67 | the rewritten paragraph begins with `\p` + newline + `\v` |
| Harmonize.FirstVerseFrom | harmonize-verse-markers.py:64-68 | the first verse, in dictionary order from position `j`, whose paragraph index is `i`; none when no later verse has it |
| Harmonize.MarkParagraphUnchanged | harmonize-verse-markers.py:64-68 | a paragraph is left as it is if and only if it already begins with a verse marker or no verse points at it |
| Harmonize.MarkedWithFirstVerse | harmonize-verse-markers.py:64-68 | an unmarked paragraph gets the first verse, in dictionary order, that points at it (the loop breaks there) |
| Harmonize.MarkedText | harmonize-verse-markers.py:64-68 | the inner loop computes `MarkParagraph` |
| Harmonize.AddVerseMarkersToParagraphs | harmonize-verse-markers.py:62-69 | the list, updated in place, becomes `MarkParagraphs` of its old contents |
| Harmonize.MarkParagraphsCoverVerses | harmonize-verse-markers.py:62-69 | afterwards every paragraph some verse points at begins with a verse marker |
| Harmonize.MarkParagraphsIdempotent | harmonize-verse-markers.py:65 | marking twice is marking once |
| Harmonize.AddVerseMarkers | harmonize-verse-markers.py:51-60 | the backward walk over the base chapters returns `MarkChapters(binfo, tinfo)` |
| Harmonize.MarkChaptersKeeps | harmonize-verse-markers.py:51-60 | nothing but the paragraph texts changes: same chapters in the same order, same line numbers, counts, verses and numbers of paragraphs; chapters the base lacks are untouched |
| Harmonize.MarkChaptersWellFormed | harmonize-verse-markers.py:51-60 | the marked target stays well formed and keeps its total paragraph count |
| Harmonize.MarkChaptersIdempotent | harmonize-verse-markers.py:51-60 | harmonizing an already harmonized target changes nothing |
| Harmonize.HarmonizedVersesMarked | harmonize-verse-markers.py:125-141 | when the paragraph counts agree, every base verse lands on a target paragraph that begins with a verse marker |
| Harmonize.PrintOutput | harmonize-verse-markers.py:93-98 | the printed lines are, per chapter in order, `\c n` (left out for chapter 0) and then its paragraphs |
| Harmonize.OutputLinesLength | harmonize-verse-markers.py:93-98 | one line per chapter other than 0, plus one per paragraph |
| Harmonize.HarmonizeVerseMarkers | harmonize-verse-markers.py:100-141 | `main`: a parse error of either file is reported; a base chapter missing from the target is reported if and only if one exists; the output is produced if and only if the counts agree, and it is the harmonized target; otherwise the mismatch rows in base order, both totals and both line counts |
| CompareMarkers.CompareMarkersMain | compare-markers.py:68-101 | `main`: the names are the file stems stripped of `9`, `4`, `X`, `A`; parse errors and a missing chapter are reported; otherwise the rows are the mismatched chapters in base order (none if and only if the counts agree), with both totals and both line counts |
| Classifier.GetHsDics | update-odt-lg.py:53-57 | one entry per configured language, in configuration order when the codes are distinct, each the dictionary `get_hs_dic` loads for it or `None` |
| Classifier.CountFor | update-odt-lg.py:64-71 | a language's count never exceeds the number of words |
| Classifier.CountWord | update-odt-lg.py:66-71 | one word adds one to the count of each language whose dictionary exists and accepts the lower-cased word, and nothing to the others; the languages and their order are kept |
| Classifier.CountOccurrencesByLg | update-odt-lg.py:59-72 | `'words'` is the number of words; the per-language counts keep the dictionary order and are exactly the number of lower-cased words each dictionary accepts, so at most `'words'` (the loop of `split-by-language.py`, lines 80-93, is the same) |
| Classifier.ZeroCounts | update-odt-lg.py:60-63 | every configured language starts at 0, in dictionary order |
| Classifier.CountsAfterAll | update-odt-lg.py:64-72 | after all words the counts are `CountsOf(words)` and each is at most the number of words |
| Classifier.NoDictionaryCountsZero | update-odt-lg.py:68-69 | a language without a dictionary always counts 0 |
| Classifier.CountForAccepted | update-odt-lg.py:64-71 | a language's count is the number of word positions whose lower-cased word its dictionary accepts |
| Classifier.MaxCount | update-odt-lg.py:29 | `max` of the counts: one language has it and none exceeds it |
| Classifier.WithCountMembers | update-odt-lg.py:30-33 | a language is collected if and only if it is configured and has the given count; distinct codes stay distinct |
| Classifier.TiedLanguages | update-odt-lg.py:30-33 | the loop collects the languages with the maximum count, in dictionary order |
| Classifier.FirstWithCount | update-odt-lg.py:30-33 | the first collected language is the first in dictionary order with that count |
| Classifier.TiedMembers | update-odt-lg.py:29-33 | the tied list is never empty, and holds exactly the languages whose count no other exceeds |
| Classifier.TiedFirst | update-odt-lg.py:29-33 | its first entry is the first top-ranked language in dictionary order |
| Classifier.TiedSize | update-odt-lg.py:34 | `len(lang_codes) >= 2` exactly when two distinct languages share the top count |
| Classifier.RankingFacts | update-odt-lg.py:27-34 | the ranking of a word list is non-empty and without repeats; it holds exactly the top-ranked languages, starts with the first of them in dictionary order, and has two or more entries exactly when two languages tie |
| Classifier.RankedIff | update-odt-lg.py:29-33 | a language is ranked if and only if it is top-ranked |
| Classifier.RankedTwo | update-odt-lg.py:34 | two distinct top-ranked languages make the ranking at least two long |
| Classifier.RankedFirst | update-odt-lg.py:38 | `lang_codes[0]` is the first top-ranked language in dictionary order |
| Hunspell.LastNamed | hs.py:8-13 | the index of the last file with that stem and suffix: a later match overwrites an earlier one; none when no file matches |
| Hunspell.LastNamedStep | hs.py:8-13 | one more file either becomes the match or leaves the earlier one |
| Hunspell.GetHsDic | hs.py:4-16 | a dictionary is loaded if and only if both a `.aff` and a `.dic` file have the language code as stem, and it is built from the last of each |
| Hunspell.EntryOfFacts | hs.py:27-34 | a line is skipped if and only if it is blank once stripped; a line with no token before the first `/` is reported with its stripped text; otherwise its entry is a word without `/` |
| Hunspell.Entries | hs.py:27-34 | one entry per line, each the line's own reading |
| Hunspell.ReadWordFile | hs.py:26-34 | the loop over one file's lines adds that file's entries to the set and its unreadable lines, in order, to the report |
| Hunspell.BuildWordlist | hs.py:21-35 | the word list is exactly `Wordlist(files, lang)` and the report is `Reported(files, lang)`: the entries and unreadable lines of the files whose stem's first five characters (the whole stem, if shorter) are `lang` |
| Hunspell.EntryWordsMembers | hs.py:32 | a word is in the set if and only if some line's entry is that word |
| Hunspell.FileWordsMembers | hs.py:27-34 | the same, for the lines of one file |
| Hunspell.WordlistMembers | hs.py:23-35 | a word is listed if and only if some file with a matching stem has a line whose entry is that word; the result is a set, so each word once |
| Hunspell.WordlistWords | hs.py:32 | every listed word is a single token without `/` |
| Hunspell.EntryOfDictionaryLine | hs.py:32 | a dictionary line `word` or `word/flags` yields `word` |
| UpdateOdtLang.DetermineLanguage | update-odt-lg.py:24-51 | the method returns `Judged(words, last)`: the carry-forward rule applied to the counts |
| UpdateOdtLang.NoWordsCarries | update-odt-lg.py:35-36 | with no words the previous language is returned |
| UpdateOdtLang.UniqueTopChosen | update-odt-lg.py:37-38 | a language alone at the maximum is chosen |
| UpdateOdtLang.OneWordTieCarries | update-odt-lg.py:41-44 | a tie over a single word returns the previous language |
| UpdateOdtLang.TieOfManyWords | update-odt-lg.py:45-50 | a tie over two or more words gives `en_US` when it is tied, and otherwise the first tied language in dictionary order |
| UpdateOdtLang.NothingAccepted | update-odt-lg.py:29-50 | when no dictionary accepts any of two or more words, every language ties at 0 and the result is `en_US` if configured, else the first language |
| UpdateOdtLang.JudgedIsCarriedOrTop | update-odt-lg.py:24-51 | the result is either the previous language or a configured, top-ranked language |
| UpdateOdtLang.Paragraph.constructor | update-odt-lg.py:92 | a paragraph with its child texts and its style name |
| UpdateOdtLang.ParagraphWords | update-odt-lg.py:101-106 | the words of the children with text, in order; children without text are skipped |
| UpdateOdtLang.ChildWordsFrom | update-odt-lg.py:101-106 | a word is collected if and only if it is a word of some child's text |
| UpdateOdtLang.LabelReadsFirstWords | update-odt-lg.py:108 | the label is the first four words (fewer if there are fewer), space-joined, then ` ...`, and splitting that text gives those words back |
| UpdateOdtLang.Results | update-odt-lg.py:88-119 | one result row per paragraph |
| UpdateOdtLang.ResultsAt | update-odt-lg.py:107-117 | row `i` is decided from the language of row `i - 1` (None for the first); an empty paragraph's language is None |
| UpdateOdtLang.ResultsConfigured | update-odt-lg.py:107-117 | every language a row names is a configured one |
| UpdateOdtLang.ParagraphsWords | update-odt-lg.py:101-106 | one word list per paragraph |
| UpdateOdtLang.UpdateParagraphStyle | update-odt-lg.py:100-117 | one paragraph: its row is `RowFor(its words, the previous language)`, and its style becomes the language only when that is truthy |
| UpdateOdtLang.UpdateParagraphsStyles | update-odt-lg.py:88-119 | the rows are `Results` of the paragraphs' words, and each paragraph's style is its row's language when that is truthy and is otherwise unchanged |
| UpdateOdtLang.ResultsStep | update-odt-lg.py:116-117 | the results of one more paragraph extend the earlier ones by its row, decided from the last row's language |
| SplitByLanguage.GetLines | split-by-language.py:38-43 | one unit per line |
| SplitByLanguage.GetLinesWords | split-by-language.py:42 | each unit is the line's whitespace-split words after stripping |
| SplitByLanguage.DetermineLanguage | split-by-language.py:45-72 | the method returns `Decided(words)`: the None-or-default rule applied to the counts |
| SplitByLanguage.NoneIffNoWords | split-by-language.py:56-57 | the result is None if and only if there are no words |
| SplitByLanguage.OrDefaultNone | split-by-language.py:56-57 | the rule gives None exactly when there are no words or no tied language |
| SplitByLanguage.UniqueTopChosen | split-by-language.py:58-59 | a language alone at the maximum is chosen |
| SplitByLanguage.OneWordTieDefault | split-by-language.py:62-65 | a tie over a single word returns the default language |
| SplitByLanguage.TieOfManyWords | split-by-language.py:66-71 | a tie over two or more words gives `en_US` when it is tied and the default otherwise, not the first tied language |
| SplitByLanguage.NothingAccepted | split-by-language.py:50-71 | when no dictionary accepts any of two or more words, the result is `en_US` if configured, else the default |
| SplitByLanguage.DecidedIsTopOrDefault | split-by-language.py:45-72 | for words, the result is the default or a configured, top-ranked language |
| SplitByLanguage.TargetConfigured | split-by-language.py:181-184 | the bucket a unit goes to is always a configured one |
| SplitByLanguage.UnknownNeverChosen | split-by-language.py:150-184 | with `unknown` configured without a dictionary and a non-empty default, no unit with words is filed under `unknown` |
| SplitByLanguage.EmptyBuckets | split-by-language.py:152 | one empty bucket per configured language, in order |
| SplitByLanguage.UnitTarget | split-by-language.py:181-183 | the bucket of one unit is its language, or `unknown` when that is falsy |
| SplitByLanguage.FileUnit | split-by-language.py:176-184 | one pass: a unit without words is skipped; any other is appended, space-joined, to its bucket |
| SplitByLanguage.SplitUnits | split-by-language.py:174-185 | each bucket ends up holding, in input order, the space-joined units with words whose target it is; the buckets keep the configured order |
| SplitByLanguage.BucketMembers | split-by-language.py:175-184 | a text is in a bucket if and only if it is the space-joined words of a non-empty unit filed there |
| SplitByLanguage.FiledOneMore | split-by-language.py:175-184 | one more unit is filed once exactly when it has words and its target is a bucket |
| SplitByLanguage.EveryUnitFiledOnce | split-by-language.py:175-184 | when every target is a bucket, the buckets hold one entry per unit with words |
| SplitByLanguage.SplitFilesEveryUnit | split-by-language.py:150-185 | with the default and `unknown` configured, every unit with words is filed exactly once |
| SplitByLanguage.UnknownBucketEmpty | split-by-language.py:129-185 | with the languages `main` configures, the `unknown` bucket always stays empty when the dictionary directory has no `unknown` dictionary |
| ActionBible.WordOfDictionaryLine | action-bible-conv.py:23 | a dictionary line `word` or `word/flags` yields `word` |
| ActionBible.WordOfBlank | action-bible-conv.py:23 | a blank line is not skipped: it yields the empty word |
| ActionBible.ReadLines | action-bible-conv.py:21-23 | the loop over one file's lines adds the entry of every line |
| ActionBible.BuildWordlist | action-bible-conv.py:16-24 | the list is exactly `WordlistOf(files, lang)`: the entries of every line of the files whose stem's first two characters match those of `lang`, without duplicates |
| ActionBible.LinesWordsMembers | action-bible-conv.py:21-23 | a word is listed for a file if and only if some line's entry is that word |
| ActionBible.WordlistMembers | action-bible-conv.py:16-24 | a word is listed if and only if some file whose stem matches has it |
| ActionBible.EnglishOnly | action-bible-conv.py:55 | exactly the English words that are not Sango words |
| ActionBible.EnglishCount | action-bible-conv.py:88-92 | the number of English-only words in a paragraph is at most its number of words |
| ActionBible.EnglishCountPrefix | action-bible-conv.py:88-97 | a prefix of the words has no more English-only words than the whole |
| ActionBible.ScanWords | action-bible-conv.py:86-97 | the scan, which stops at the third hit, finds English if and only if at least three of the lower-cased words are English-only |
| ActionBible.Element.constructor | action-bible-conv.py:82 | a paragraph element with its attributes and its text |
| ActionBible.Paras | action-bible-conv.py:82 | one snapshot per paragraph |
| ActionBible.ParasAt | action-bible-conv.py:82-84 | each snapshot holds that paragraph's attributes and text |
| ActionBible.RestyleIdempotent | action-bible-conv.py:96 | restyling a restyled paragraph changes nothing more |
| ActionBible.TallyBalance | action-bible-conv.py:77-103 | `ct` is the number of paragraphs, empty + other = `ct`, English paragraphs are counted among the other ones, and `total` is the container's length |
| ActionBible.TaggedBelowNext | action-bible-conv.py:93-97 | one more paragraph adds its own index to the English ones exactly when it is tagged |
| ActionBible.TallyEnglish | action-bible-conv.py:93-97 | the English counter is the number of distinct paragraphs tagged English: at most one count per paragraph |
| ActionBible.CheckParagraph | action-bible-conv.py:83-103 | one paragraph: the counters advance by `Count`, and the style becomes `P2` exactly when the paragraph is checked and has three English-only words |
| ActionBible.CheckParagraphs | action-bible-conv.py:76-103 | one container: the counters start from zero and end at `Tally` of its paragraphs, and every paragraph gets its new attributes |
| ActionBible.AllParas | action-bible-conv.py:76-82 | one snapshot list per container, holding each paragraph's attributes and text |
| ActionBible.CheckContainer | action-bible-conv.py:76-103 | one container is converted and no paragraph of another container changes |
| ActionBible.ConvertStep | action-bible-conv.py:76-103 | the containers before and including `i` are converted; the ones after are untouched |
| ActionBible.ConvertBody | action-bible-conv.py:75-109 | every paragraph of every container is restyled; the counters printed at the end are those of the last container only, and there are none when the body is empty |
| SetStructure.PageMatch | set-structure.py:26-34 | a line matches the page pattern exactly when it starts with `P` and two digits; the match is `P` and its two or three leading digits, a prefix of the line |
| SetStructure.PageMatchOfLabel | set-structure.py:34-39 | a page label read back is matched whole |
| SetStructure.PanelsFromNext | set-structure.py:42-46 | one more line adds its offset to the current page's panels exactly when it is a panel line with no page line between it and the page |
| SetStructure.NoPageFirst | set-structure.py:35-40 | a stretch holds no page line when its first line is none and the rest hold none |
| SetStructure.PanelsFromFacts | set-structure.py:42-46 | every recorded offset points at a panel line after its page, with no page line in between, and the offsets strictly increase |
| SetStructure.RecordKept | set-structure.py:32-46 | a line that neither re-opens the page nor is one of its panels leaves its record unchanged |
| SetStructure.RecordExtended | set-structure.py:42-45 | a panel line below the page appends `i - last_pg_line` |
| SetStructure.CoveredNext | set-structure.py:35-39 | every page line read so far has its key |
| SetStructure.RecordOfOtherPage | set-structure.py:42-45 | a panel line belongs to the current page only; the records of the other pages stay as they are |
| SetStructure.PageRecords | set-structure.py:35-40 | a page line restarts its key's value as `[i]`, so a repeated page overwrites the earlier record |
| SetStructure.PageStep | set-structure.py:35-40 | after a page line, that line is `last_pg_line` and its label is `this_pg` |
| SetStructure.PanelRecords | set-structure.py:42-46 | a panel line after a page appends its offset to that page's record |
| SetStructure.PanelStep | set-structure.py:42-46 | the loop state is kept after a panel line |
| SetStructure.OtherRecords | set-structure.py:32-46 | a line that is neither a page nor a panel leaves the dictionary unchanged |
| SetStructure.OtherStep | set-structure.py:32-46 | the loop state is kept after such a line |
| SetStructure.ReadLine | set-structure.py:33-46 | one pass of the loop: it fails exactly on a panel line with no page line before it, and otherwise keeps the loop state |
| SetStructure.GetPageAndPanelDict | set-structure.py:24-48 | it fails if and only if some panel line comes before any page line (`this_pg` is None); otherwise every page line has its key, each key maps to its last page line and the offsets of the panel lines after it |
| SetStructure.RecordedOffsets | set-structure.py:24-48 | each key is a page label; its first entry is a line matching it, and the offsets are at least 1, strictly increasing, and point at panel lines that are not page lines |
| SetStructure.Label | set-structure.py:63 | `Panel n` is a panel label |
| SetStructure.LabelNotPage | set-structure.py:58-59 | a stripped panel label never equals a page key |
| SetStructure.Matches | set-structure.py:57-59 | the number of lines matching a key is at most the number of lines |
| SetStructure.MatchesAppend | set-structure.py:57-59 | the matches of two joined lists add up |
| SetStructure.KeepAppend | set-structure.py:57-63 | the original lines of two joined lists are those of each, in order |
| SetStructure.MatchesKeep | set-structure.py:57-63 | the inserted labels add no match of a page key |
| SetStructure.Insert | set-structure.py:63 | `list.insert`: one more element; the elements before the index are kept; the new one sits at the index, or at the end when the index is past it |
| SetStructure.InsertKeep | set-structure.py:63 | an insertion keeps every original line in order |
| SetStructure.InsertAfter | set-structure.py:57-63 | an insertion below line `i` leaves the lines up to `i` as they were |
| SetStructure.PlacedNext | set-structure.py:61-63 | label `j + 1` lands at `i + pal`, with the labels already placed still in place |
| SetStructure.InsertLabelKeeps | set-structure.py:57-63 | an inserted label keeps the lines up to `i`, the original lines, and the matches below `i` |
| SetStructure.WithLabels | set-structure.py:61-63 | the labels of one page line add one line per offset |
| SetStructure.LabelsUpToPlaced | set-structure.py:61-63 | with strictly increasing offsets, after the first `j` labels each `Panel t + 1` sits at `i + pals[t]`, or at the end of the list when that is past it |
| SetStructure.WithLabelsPlaced | set-structure.py:61-63 | the labels of page line `i` leave the lines up to `i` in place and, with strictly increasing offsets, each `Panel t + 1` sits at `i + pals[t]` (or the end) |
| SetStructure.InsertLabels | set-structure.py:61-63 | the inner loop computes `WithLabels`: it adds `n` lines, keeps the lines up to `i` and every original line in order, adds no match below `i`, and puts each label at its offset from `i` |
| SetStructure.InsertMatches | set-structure.py:59-63 | inserting a label does not change how many lines match a page key |
| SetStructure.MatchesFrom | set-structure.py:57-59 | the matches from line `i` on are those of line `i` plus those after it |
| SetStructure.LabelPage | set-structure.py:55-65 | one page: the result is reached by one `WithLabels` step at each line reading as the page, found from the top in strictly increasing positions, as many steps as the input has such lines (`PageLabeled`); every original line survives in order, and the list grows by matches × panels |
| SetStructure.AddedNext | set-structure.py:53-63 | one more page adds its matches × its panels to the growth |
| SetStructure.InsertPanelLabels | set-structure.py:50-67 | the copy goes through one list per page of the dictionary, in its order, each reached from the one before by `PageLabeled` for that page and its offsets; the original lines survive, in order, and nothing else but labels is added; its length is the original length plus, over the pages, matches × panels |
| SetStructure.LabelNthPage | set-structure.py:53-65 | the loop over pages labels page `n` as `PageLabeled` states, keeps the original lines and adds page `n`'s growth |
| SetStructure.KeepNone | set-structure.py:51 | the copy with no insertion yet is the original list |
| SetStructure.RecordedInsertable | set-structure.py:83-87 | every record the dictionary builder returns is one the inserter accepts |
| OdtComments.HasCommentIff | convert-odt-comments-to-xml.py:33-39 | `has_comment` is true if and only if some proper descendant of the node is an `office:annotation` |
| OdtComments.CommentPath | convert-odt-comments-to-xml.py:33-39 | when `has_comment` is true, it names the path to an annotation below the node |
| OdtComments.CommentPathFrom | convert-odt-comments-to-xml.py:34-38 | when the loop from child `k` on returns true, there is an annotation below child `k` or a later one |
| OdtComments.CommentFound | convert-odt-comments-to-xml.py:33-39 | an annotation below the node makes `has_comment` true |
| OdtComments.AnyCommentReaches | convert-odt-comments-to-xml.py:34-38 | the loop returns true once it reaches a child that is an annotation or holds one |
| OdtComments.HasCommentCount | convert-odt-comments-to-xml.py:33-39 | `has_comment` is true if and only if the number of annotations below the node is positive |
| OdtComments.AnyCommentCount | convert-odt-comments-to-xml.py:34-38 | the loop from child `k` on returns true if and only if children `k` onwards hold annotations |
| OdtComments.AnnotatedUpToMonotone | convert-odt-comments-to-xml.py:59-62 | counting over more children never gives fewer annotations |
| OdtComments.Split | convert-odt-comments-to-xml.py:42 | `str.split(':')` yields at least one part |
| OdtComments.GetVerseText | convert-odt-comments-to-xml.py:41-43 | a text it returns is the text of some cell of the document; it raises `IndexError` exactly when the reference has fewer than two tokens |
| OdtComments.GetVerseTextMissingChapter | convert-odt-comments-to-xml.py:41-43 | the chapter is looked up before the verse is converted: with the chapter missing, any verse text, integer or not, gives `KeyError` |
| OdtComments.RefPosition | convert-odt-comments-to-xml.py:132-133 | the chapter and verse read from a reference; none unless it has at least two tokens |
| OdtComments.UpToAbsent | convert-odt-comments-to-xml.py:42 | a text without the separator is one part |
| OdtComments.UpToBefore | convert-odt-comments-to-xml.py:42 | the first part ends at the first separator |
| OdtComments.NoColonInInt | convert-odt-comments-to-xml.py:172 | the decimal form of an integer has no `:` |
| OdtComments.SplitPosition | convert-odt-comments-to-xml.py:42 | splitting `chapter:verse` at `:` gives back the two numbers' texts |
| OdtComments.VerseRefWords | convert-odt-comments-to-xml.py:172 | a reference built for a book that is one word splits into the book and `chapter:verse` |
| OdtComments.GetVerseTextOfVerseRef | convert-odt-comments-to-xml.py:41-43 | round trip: for a one-word book, the reference built from a chapter and verse as line 172 builds it reads that cell of the document, or raises `KeyError` when the cell is missing |
| OdtComments.RefPositionOfVerseRef | convert-odt-comments-to-xml.py:132-133 | round trip: reading the reference line 172 builds gives back its chapter and verse |
| OdtComments.StartPosition | convert-odt-comments-to-xml.py:45-46 | the start position is a non-empty string of decimal digits |
| OdtComments.StartPositionValue | convert-odt-comments-to-xml.py:45-46 | read back, it is the length of the space-joined words: their letters plus one separator between each two, and `"0"` for no words |
| OdtComments.FirstPage | convert-odt-comments-to-xml.py:144-156 | the leftmost place where `P` or `p` and two digits occur, after from; none when there is no such place (the leading `\s*` of the pattern only widens the match) |
| OdtComments.SpaceRun | convert-odt-comments-to-xml.py:145 | the run of white space starting at `i` |
| OdtComments.DigitRun | convert-odt-comments-to-xml.py:144-145 | the run of digits starting at `i` |
| OdtComments.FirstPanel | convert-odt-comments-to-xml.py:145-157 | the leftmost place where `Panel`, any white space and a digit occur; none when there is no such place |
| OdtComments.ConvertToSfm | convert-odt-comments-to-xml.py:48-55 | a text in which neither pattern is found is returned unchanged |
| OdtComments.ReplaceFirstAt | convert-odt-comments-to-xml.py:52-54 | `replace(old, new, 1)` replaces the first occurrence and keeps the rest |
| OdtComments.ConvertPage | convert-odt-comments-to-xml.py:51-52 | with a page found at the first capital `P` and no panel, that `P` becomes `\c ` |
| OdtComments.ConvertPanel | convert-odt-comments-to-xml.py:53-54 | with a panel found and no page, the first `Panel` becomes `\v ` |
| OdtComments.Renumber | convert-odt-comments-to-xml.py:161-164 | pages 317 and 318 move up by 2 and page 748 by 1; other pages keep their number; no result is 317, 318 or 748 |
| OdtComments.Track | convert-odt-comments-to-xml.py:159-169 | the current cell exists afterwards whenever it existed before or either pattern was found; only the current chapter's verse map can change, and the only chapter added is the current one |
| OdtComments.TrackPage | convert-odt-comments-to-xml.py:159-166 | a page makes its renumbered number the chapter and starts a fresh verse map; without a panel, the verse is 1 and the map is `{1: []}` |
| OdtComments.TrackPanel | convert-odt-comments-to-xml.py:167-169 | a panel makes its number the verse and empties that verse's cell; without a page, the chapter and its other cells are kept |
| OdtComments.TrackNeither | convert-odt-comments-to-xml.py:159-169 | a paragraph with neither pattern changes neither the position nor the document |
| OdtComments.AnnotationIndicesFacts | convert-odt-comments-to-xml.py:59-61 | the collected indexes increase, and an index is collected if and only if that child is an annotation |
| OdtComments.GetParagraphCommentList | convert-odt-comments-to-xml.py:57-63 | the annotation indexes are appended in increasing order and the count grows by exactly their number |
| OdtComments.Neighbours | convert-odt-comments-to-xml.py:74-83 | for an annotation at position `j` of the increasing list, the previous one (0 for the first) and the next one (-1 for the last); `(0, -1)` when `i` is not listed |
| OdtComments.Bound | convert-odt-comments-to-xml.py:87-101 | a slice bound is clipped into the list; a bound already inside is kept |
| OdtComments.Slice | convert-odt-comments-to-xml.py:87-101 | Python's slice, the ordinary slice for bounds in range |
| OdtComments.SliceToLast | convert-odt-comments-to-xml.py:75-101 | a slice ending at -1 stops before the last child |
| OdtComments.NodeWords | convert-odt-comments-to-xml.py:87-102 | the words of a run of children are words |
| OdtComments.CollectWords | convert-odt-comments-to-xml.py:87-88 | the loop collects the split text of each child in turn |
| OdtComments.ContextWindow | convert-odt-comments-to-xml.py:74-102 | the selected text is child `i + 1` exactly when child `i + 2` is an annotation end; the context before runs from the previous annotation to `i`; the context after starts at `i + 3` when text is selected, else at `i + 1`, and ends at the next annotation, or before the last child when there is none |
| OdtComments.AllConformAppend | convert-odt-comments-to-xml.py:114-128 | records that all conform still do when appended |
| OdtComments.MakeComment | convert-odt-comments-to-xml.py:113-127 | the record has the reference, `unknownConflictType`, an empty verse, `false` for hiding, the selected text, date and contents, and a start position that reads back as the length of its context before; the joined contexts split back into the same words |
| OdtComments.WordsOfJoinAll | convert-odt-comments-to-xml.py:121-122 | joining words with spaces and splitting again gives the words back |
| OdtComments.AddNote | convert-odt-comments-to-xml.py:107-114 | the note is appended to its user's list, created when missing; the other users' lists are unchanged |
| OdtComments.AddNotesAppend | convert-odt-comments-to-xml.py:107-128 | adding notes in two runs is adding them in one |
| OdtComments.AddNotesKeeps | convert-odt-comments-to-xml.py:107-128 | notes are only appended: every earlier list survives as a prefix |
| OdtComments.AppendAt | convert-odt-comments-to-xml.py:131-134 | extending a cell keeps every chapter and verse key, and the cell exists afterwards exactly when it did before |
| OdtComments.AppendAtNothing | convert-odt-comments-to-xml.py:134 | extending by no words changes nothing |
| OdtComments.AppendAtAppend | convert-odt-comments-to-xml.py:134 | extending twice is extending once by both lists |
| OdtComments.WellFormedChild | convert-odt-comments-to-xml.py:106-112 | a well-formed node's annotation children have the four children the record reads, and its children are well formed |
| OdtComments.Selection | convert-odt-comments-to-xml.py:89-97 | the selected text is child `i + 1` and the selection ends at `i + 2` exactly when child `i + 2` is an annotation end; otherwise no text, ending at `i` |
| OdtComments.WindowBetween | convert-odt-comments-to-xml.py:85-102 | given the neighbouring annotations, the context before is the words of the children from the previous one to `i`, and the context after those from past the selection to the next one |
| OdtComments.AnnotationIndicesAt | convert-odt-comments-to-xml.py:59-61 | the place of annotation `i` in `p_comments` is the number of annotations before it |
| OdtComments.NoteAt | convert-odt-comments-to-xml.py:106-128 | the record of an annotation carries the reference, `unknownConflictType`, an empty verse and `false` for hiding |
| OdtComments.NoteAtFields | convert-odt-comments-to-xml.py:106-128 | the record is filed under child 0's text and holds child 1 as its date, child 3 as its contents, the selected text, and contexts that split back into the words of the annotation's window |
| OdtComments.NotesUpTo | convert-odt-comments-to-xml.py:70-137 | one record per annotation among the first `k` children and below them, in the order the recursion meets them |
| OdtComments.NotesUpToConform | convert-odt-comments-to-xml.py:114-128 | every record added carries the reference and the fixed fields |
| OdtComments.WordsUpTo | convert-odt-comments-to-xml.py:105-137 | the words added to the cell are words, and none are added where there is no annotation |
| OdtComments.RecordComment | convert-odt-comments-to-xml.py:85-134 | one annotation: it fails exactly when the annotation has fewer than four children or the reference's cell is missing; otherwise exactly `NoteAt` is added under its author and the cell is extended by exactly the annotation's window (`WindowAt`) |
| OdtComments.AppendComment | convert-odt-comments-to-xml.py:65-139 | the count grows by the number of annotations below the paragraph; the notes gain exactly `NotesBelow`, in order, and the reference's cell exactly `WordsBelow`; a paragraph without annotations changes nothing; a well-formed paragraph whose cell exists never fails |
| OdtComments.AppendBelow | convert-odt-comments-to-xml.py:65-139 | the same, with the chapter and verse of the reference already read |
| OdtComments.ReachedNext | convert-odt-comments-to-xml.py:70-137 | the count, notes and cell reached after child `i` and what it adds are those reached after child `i + 1` |
| OdtComments.AppendChild | convert-odt-comments-to-xml.py:70-137 | one child: the count, notes and cell reached before child `i` become those reached after it; a child without annotations changes nothing |
| OdtComments.AnnotationStep | convert-odt-comments-to-xml.py:76-134 | an annotation child adds exactly its `NoteAt` record and its window's words, or fails as `RecordComment` does |
| OdtComments.SubtreeStep | convert-odt-comments-to-xml.py:137 | the recursion adds exactly the annotations, `NotesBelow` and `WordsBelow` of the child's subtree |
| OdtComments.Recorded | convert-odt-comments-to-xml.py:171-175 | a recorded paragraph keeps the position and its cell, and adds its annotations to the count |
| OdtComments.Commented | convert-odt-comments-to-xml.py:171-173 | a paragraph with comments adds its annotations to the count and keeps the cell of the position |
| OdtComments.Uncommented | convert-odt-comments-to-xml.py:174-175 | a paragraph without comments keeps the notes and the count, and only extends the current cell |
| OdtComments.ExtractStep | convert-odt-comments-to-xml.py:153-175 | one paragraph: a blank one changes nothing; any other keeps a current cell and adds its annotations to the count |
| OdtComments.ExtractAll | convert-odt-comments-to-xml.py:141-177 | after any paragraphs the current cell exists and the count is the number of annotations in the non-blank paragraphs |
| OdtComments.RecordComments | convert-odt-comments-to-xml.py:171-173 | `append_comment` under the reference of the position gives `Commented`, and never fails for a one-word book and a well-formed paragraph |
| OdtComments.RecordParagraph | convert-odt-comments-to-xml.py:171-175 | the paragraph is recorded as `Recorded` states, and never fails for a one-word book and a well-formed paragraph |
| OdtComments.ExtractParagraph | convert-odt-comments-to-xml.py:153-175 | one pass of the loop gives `ExtractStep`'s records, cells, count and new position; with a one-word book and a well-formed paragraph it never fails |
| OdtComments.ExtractComments | convert-odt-comments-to-xml.py:141-177 | what it returns is `ExtractAll` over the paragraphs: their notes, cells and comment count; for a one-word book and well-formed paragraphs it never fails |

## Left out

- Reading and writing files, `sys.argv`, `print`, `input`, `exit` codes, the overwrite prompt and the progress dots: I/O. A script's `main` becomes a method. It takes the lines or values `main` reads, and returns what it would print or write as a value.
- `str.splitlines()`: every parser takes the list of lines.
- Hunspell's `spell` (`hs.lookup_word`): it is the function parameter `Classifier.Spell`. Loading a dictionary is the value `HunSpell(dic, aff)` made from the chosen files.
- The punctuation regex passed to `count_occurrences_by_lg`: the function never uses it.
- `update_autostyles` (update-odt-lg.py): it builds styles that it never attaches to the document.
- `get_paragraphs` (split-by-language.py): it navigates odfpy objects. The ODT units are given as word lists, gathered the way `UpdateOdtLang.ParagraphWords` gathers them.
- `print_summary` and `print_results`: they only print counts derived from the result rows.
- `main` of update-odt-lg.py: it only copies, loads and saves files around `update_paragraphs_styles`.
- In action-bible-conv.py:
  - the XML parse and write;
  - the scan of the root's children by tag name, and the `automatic-styles` branch, which does nothing;
  - the per-paragraph and summary prints.

  The body's children are given as a sequence of paragraph containers. A container with no body yields no summary: in Python, `total` is then undefined when the summary is printed.
- `ActionBible.BuildWordlist`: returns a set where the source returns `list(set(...))`. The order of that list is arbitrary and only membership is ever used.
- The `Thread` field of a comment record: a random 8-digit hex number.
- The `initials` child of an annotation: it is read but unused.
- `main` of convert-odt-comments-to-xml.py:
  - the ODT load and the Paratext XML output;
  - the loop that fills each record's `Verse` from the document, which is modelled only through `OdtComments.GetVerseText` and its round trip with the reference format.
- odfpy nodes: they are the `OdtComments.Node` datatype. Its tag is an `OdtComments.Tag`, which tells `office:annotation` and `office:annotation-end` from any other name, the only distinction the script makes. `str(node)` is the node's own text followed by its children's. `getElementsByType(P)` is given as the sequence of paragraphs.
- `OdtComments.ConvertToSfm`: its own contract states only the case where neither pattern is found. The rewrite is stated by `ConvertPage` when only a page is found at the first capital `P`, and by `ConvertPanel` when only a panel is found.
- `OdtComments.GetVerseText`: its own contract states only that a result is some cell of the document and when `IndexError` is raised. The exact cell is stated by `GetVerseTextOfVerseRef` for references built as `extract_comments` builds them, and the order of the lookups by `GetVerseTextMissingChapter`.
- `Text.Lower`: lower-cases only the ASCII and Latin-1 capitals. Python's `str.lower` covers all of Unicode.
- `Text.ParseInt`: accepts ASCII digits only. Python's `int()` also accepts other Unicode decimal digits.

## Modelling notes

- Behaviour that looks accidental is modelled as written:
  - A lowercase `p` page match still makes `convert_to_sfm` replace the first capital `P`, wherever it is.
  - A `Panel` earlier in the text than the matched panel pattern is the one replaced.
  - Pages 317 and 319 both become chapter 319.
  - A repeated chapter starts a fresh verse map, dropping the earlier cells.
  - `prev_comment = i` after a record has no effect, because the variable is reset for every child.
  - The `unknown` bucket of split-by-language.py can never receive a unit when the dictionary directory has no `unknown` dictionary. `SplitByLanguage.UnknownBucketEmpty` proves this.
- `append_comment` reads the chapter and verse from its reference once per call (`OdtComments.AppendComment`). Python reads them again at every annotation, which gives the same values.
- A crash of a script is a `Failure` or `None` value in the model. The cases are:
  - `IndexError`, `KeyError` or `ValueError` in get_info_dict, get_page_and_panel_dict (a panel before any page), get_verse_text and append_comment;
  - `AttributeError` in verify_paragraph_count, for a chapter the target lacks.
