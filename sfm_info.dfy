/** The chapter/verse/paragraph structure of a Paratext SFM file, as `get_info_dict` of
    harmonize-verse-markers.py and compare-markers.py builds it, and the two read-only
    summaries both scripts compute from it (`verify_paragraph_count`,
    `get_total_paragraph_count`). The two copies of `get_info_dict` differ only in the
    set of markers that open a paragraph, which is a parameter here. */
module SfmInfo {
  import opened Wrappers
  import opened Ordered
  import opened Text

  /** The record kept per chapter: `line-number`, `paragraph-count`, `paragraphs`, `verses`
      (verse number to the index of its paragraph, in insertion order). */
  datatype ChapterRecord = ChapterRecord(
    lineNumber: nat,
    paragraphCount: nat,
    paragraphs: seq<string>,
    verses: OrdMap<int, int>)

  /** Chapter number to chapter record, in the order the records were created. */
  type Info = OrdMap<int, ChapterRecord>

  /** What ends `get_info_dict` early. */
  datatype ParseError =
    | BlankLine(line: nat)             // `line.split()[0]` of a blank line raises IndexError
    | MissingChapterNumber(line: nat)  // a `\c` line with one token: `split()[1]` raises IndexError
    | MissingVerseNumber(line: nat)    // a `\v` line with one token: the same
    | BadVerseNumber(line: nat)        // `int()` of the verse number raises ValueError: exit(1)
    | VerseBeforeParagraph(line: nat)  // `paragraphs[-1]` of an empty list raises IndexError

  /** The markers that open a paragraph in harmonize-verse-markers.py. */
  const HarmonizeMarkers: set<string> := {"\\p", "\\id"}

  /** The markers that open a paragraph in compare-markers.py. */
  const CompareMarkers: set<string> := {"\\p", "\\id", "\\ip"}

  /** A verse line replaces the last paragraph by `\p`, a newline and the verse line. */
  const VerseParagraphHead: string := "\\p\n"

  /** The invariant of one chapter record: the paragraph count is the number of paragraphs
      kept, and every verse points at one of them. */
  ghost predicate RecordOk(rec: ChapterRecord) {
    && rec.paragraphCount == |rec.paragraphs|
    && rec.verses.Valid()
    && forall vn | vn in rec.verses.m :: 0 <= rec.verses.m[vn] < rec.paragraphCount
  }

  /** The invariant of the chapter records. */
  ghost predicate WellFormed(info: Info) {
    info.Valid() && forall c | c in info.m :: RecordOk(info.m[c])
  }

  /** The state of the line loop of `get_info_dict`: the current chapter `ch` and `text_info`. */
  datatype ParseState = ParseState(ch: int, info: Info)

  function NewRecord(i: nat): ChapterRecord {
    ChapterRecord(i, 0, [], Empty())
  }

  /** `text_info[ch]` is created, with line `i` as its `line-number`, when it is missing. */
  function WithRecord(info: Info, ch: int, i: nat): (r: Info)
    ensures ch in r.m
  {
    if ch in info.m then info else Put(info, ch, NewRecord(i))
  }

  /** A paragraph-marker line: counted and kept. */
  function AddParagraph(info: Info, ch: int, line: string): Info
    requires ch in info.m
  {
    var rec := info.m[ch];
    Put(info, ch, rec.(paragraphCount := rec.paragraphCount + 1, paragraphs := rec.paragraphs + [line]))
  }

  /** A verse line: the verse points at the last paragraph counted, and the line replaces the
      last paragraph kept. */
  function AddVerse(info: Info, ch: int, vn: int, line: string): Info
    requires ch in info.m && info.m[ch].paragraphs != []
  {
    var rec := info.m[ch];
    var last := |rec.paragraphs| - 1;
    Put(info, ch, rec.(verses := Put(rec.verses, vn, rec.paragraphCount - 1),
                       paragraphs := rec.paragraphs[last := VerseParagraphHead + line]))
  }

  /** Which branch of the loop body a line takes, decided by its tokens in the order the
      branches are tested: `\c` first, then the paragraph markers, then `\v`. */
  datatype LineKind =
    | Blank                          // no token at all
    | Chapter(number: Option<int>)   // `\c` and a second token; None when `int()` rejects it
    | ChapterWithoutNumber           // `\c` alone
    | Paragraph                      // the first token is a paragraph marker
    | Verse(number: Option<int>)     // `\v` and a second token
    | VerseWithoutNumber             // `\v` alone
    | Other                          // anything else: only the record creation applies

  function Classify(line: string, markers: set<string>): LineKind {
    var toks := Words(line);
    if toks == [] then Blank
    else if toks[0] == "\\c" then
      if |toks| < 2 then ChapterWithoutNumber else Chapter(ParseInt(toks[1]))
    else if toks[0] in markers then Paragraph
    else if toks[0] == "\\v" then
      if |toks| < 2 then VerseWithoutNumber else Verse(ParseInt(toks[1]))
    else Other
  }

  /** The kind of every line. */
  function Kinds(lines: seq<string>, markers: set<string>): (ks: seq<LineKind>)
    ensures |ks| == |lines|
  {
    seq(|lines|, i requires 0 <= i < |lines| => Classify(lines[i], markers))
  }

  /** Why line `i`, of kind `kind`, stops the loop in state `st`, if it does. A verse line
      fails when the record of the current chapter has no paragraph yet (or is only being
      created by this very line). */
  function StepError(st: ParseState, i: nat, kind: LineKind): Option<ParseError> {
    match kind
    case Blank => Some(BlankLine(i))
    case ChapterWithoutNumber => Some(MissingChapterNumber(i))
    case VerseWithoutNumber => Some(MissingVerseNumber(i))
    case Verse(None) => Some(BadVerseNumber(i))
    case Verse(Some(_)) =>
      if st.ch !in st.info.m || st.info.m[st.ch].paragraphs == [] then Some(VerseBeforeParagraph(i)) else None
    case _ => None
  }

  /** The current chapter after a line of kind `kind`: a `\c` line with an integer argument
      switches to it, every other line keeps it. */
  function NextChapter(ch: int, kind: LineKind): int {
    match kind
    case Chapter(Some(c)) => c
    case _ => ch
  }

  /** The records after line `i` when it does not stop the loop: the record of the current
      chapter is created if missing, then a paragraph or verse line updates it. */
  function StepInfo(info: Info, ch: int, i: nat, line: string, kind: LineKind): Info
    requires StepError(ParseState(ch, info), i, kind).None?
  {
    var info' := WithRecord(info, ch, i);
    match kind
    case Paragraph => AddParagraph(info', ch, line)
    case Verse(Some(vn)) => AddVerse(info', ch, vn, line)
    case _ => info'
  }

  /** The state after line `i` when it does not stop the loop. */
  function After(st: ParseState, i: nat, line: string, kind: LineKind): ParseState
    requires StepError(st, i, kind).None?
  {
    ParseState(NextChapter(st.ch, kind), StepInfo(st.info, st.ch, i, line, kind))
  }

  /** One turn of the line loop of `get_info_dict`, on line `i` of kind `kind`. */
  function Step(st: ParseState, i: nat, line: string, kind: LineKind): Result<ParseState, ParseError> {
    match StepError(st, i, kind)
    case Some(e) => Failure(e)
    case None => Success(After(st, i, line, kind))
  }

  /** The loop of `get_info_dict` run over the first `n` lines, whose kinds are `kinds`. */
  function ParsePrefix(lines: seq<string>, kinds: seq<LineKind>, n: nat): Result<ParseState, ParseError>
    requires n <= |lines| == |kinds|
    decreases n, 1
  {
    if n == 0 then Success(ParseState(0, Empty())) else Next(lines, kinds, n)
  }

  function Next(lines: seq<string>, kinds: seq<LineKind>, n: nat): Result<ParseState, ParseError>
    requires 0 < n <= |lines| == |kinds|
    decreases n, 0
  {
    match ParsePrefix(lines, kinds, n - 1)
    case Failure(e) => Failure(e)
    case Success(st) => Step(st, n - 1, lines[n - 1], kinds[n - 1])
  }

  /** `get_info_dict(text)` for the lines of `text`. */
  function InfoOf(lines: seq<string>, markers: set<string>): Result<Info, ParseError> {
    match ParsePrefix(lines, Kinds(lines, markers), |lines|)
    case Failure(e) => Failure(e)
    case Success(st) => Success(st.info)
  }

  lemma {:induction false} FailureStays(lines: seq<string>, kinds: seq<LineKind>, k: nat, n: nat)
    requires k <= n <= |lines| == |kinds|
    requires ParsePrefix(lines, kinds, k).Failure?
    ensures ParsePrefix(lines, kinds, n) == ParsePrefix(lines, kinds, k)
    decreases n
  {
    if n > k {
      FailureStays(lines, kinds, k, n - 1);
    }
  }

  /** The body of the line loop of `get_info_dict`: the record of the current chapter is
      created if needed, then the branch the line's kind selects updates it in place. */
  method ReadLine(textInfo: Info, ch: int, i: nat, line: string, kind: LineKind)
    returns (r: Result<ParseState, ParseError>)
    ensures r == Step(ParseState(ch, textInfo), i, line, kind)
  {
    if kind == Blank {
      return Failure(BlankLine(i));
    }
    var info := textInfo;
    if ch !in info.m {
      info := Put(info, ch, NewRecord(i));
    }
    match kind {
      case ChapterWithoutNumber =>
        return Failure(MissingChapterNumber(i));
      case Chapter(c) =>
        if c.Some? {
          return Success(ParseState(c.value, info));
        }
      case Paragraph =>
        var rec := info.m[ch];
        info := Put(info, ch, rec.(paragraphCount := rec.paragraphCount + 1,
                                   paragraphs := rec.paragraphs + [line]));
      case VerseWithoutNumber =>
        return Failure(MissingVerseNumber(i));
      case Verse(vn) =>
        if vn.None? {
          return Failure(BadVerseNumber(i));
        }
        var rec := info.m[ch];
        if rec.paragraphs == [] {
          return Failure(VerseBeforeParagraph(i));
        }
        var verses := Put(rec.verses, vn.value, rec.paragraphCount - 1);
        var ps := rec.paragraphs[|rec.paragraphs| - 1 := VerseParagraphHead + line];
        info := Put(info, ch, rec.(verses := verses, paragraphs := ps));
      case _ =>
    }
    return Success(ParseState(ch, info));
  }

  /** `get_info_dict`: one pass over the lines, growing the chapter records; the first line
      that makes the script stop is reported. */
  method GetInfoDict(lines: seq<string>, markers: set<string>) returns (r: Result<Info, ParseError>)
    ensures r == InfoOf(lines, markers)
  {
    ghost var kinds := Kinds(lines, markers);
    var textInfo: Info := Empty();
    var ch := 0;
    var i := 0;
    while i < |lines|
      invariant 0 <= i <= |lines|
      invariant ParsePrefix(lines, kinds, i) == Success(ParseState(ch, textInfo))
    {
      var next := ReadLine(textInfo, ch, i, lines[i], Classify(lines[i], markers));
      ParseNext(lines, kinds, i + 1);
      if next.Failure? {
        FailureStays(lines, kinds, i + 1, |lines|);
        return Failure(next.error);
      }
      ch, textInfo := next.value.ch, next.value.info;
      i := i + 1;
    }
    return Success(textInfo);
  }

  // ---------------------------------------------------------------------------------------
  // What the parse computes, stated independently of the loop.

  /** The chapter current when line `n` is read: the number carried by the last `\c` line
      before it whose argument is an integer, or 0 when there is none. */
  function ChapterBefore(kinds: seq<LineKind>, n: nat): int
    requires n <= |kinds|
  {
    if n == 0 then 0
    else
      match kinds[n - 1]
      case Chapter(Some(c)) => c
      case _ => ChapterBefore(kinds, n - 1)
  }

  /** The first of the first `n` lines read while chapter `c` is current. */
  function FirstLineOf(kinds: seq<LineKind>, c: int, n: nat): (r: Option<nat>)
    requires n <= |kinds|
    ensures r.Some? ==> r.value < n && ChapterBefore(kinds, r.value) == c
    ensures r.Some? ==> forall j | 0 <= j < r.value :: ChapterBefore(kinds, j) != c
    ensures r.None? ==> forall j | 0 <= j < n :: ChapterBefore(kinds, j) != c
  {
    if n == 0 then None
    else
      match FirstLineOf(kinds, c, n - 1)
      case Some(j) => Some(j)
      case None => if ChapterBefore(kinds, n - 1) == c then Some(n - 1) else None
  }

  /** The number of paragraph-marker lines among the first `n`. */
  function MarkerLines(kinds: seq<LineKind>, n: nat): nat
    requires n <= |kinds|
  {
    if n == 0 then 0 else MarkerLines(kinds, n - 1) + if kinds[n - 1] == Paragraph then 1 else 0
  }

  /** The sum of the paragraph counts of the chapters `keys`. */
  function SumCounts(keys: seq<int>, m: map<int, ChapterRecord>): nat {
    if keys == [] then 0
    else
      var k := keys[|keys| - 1];
      SumCounts(keys[..|keys| - 1], m) + if k in m then m[k].paragraphCount else 0
  }

  /** The number of paragraphs in all chapters. */
  function TotalCount(info: Info): nat {
    SumCounts(info.keys, info.m)
  }

  lemma {:induction false} SumCountsOfOtherKey(keys: seq<int>, m: map<int, ChapterRecord>, k: int, v: ChapterRecord)
    requires k !in keys
    ensures SumCounts(keys, m[k := v]) == SumCounts(keys, m)
  {
    if keys != [] {
      SumCountsOfOtherKey(keys[..|keys| - 1], m, k, v);
    }
  }

  lemma {:induction false} SumCountsOfUpdate(keys: seq<int>, m: map<int, ChapterRecord>, k: int, v: ChapterRecord)
    requires forall i | 0 <= i < |keys| :: keys[i] in m
    requires forall i, j | 0 <= i < j < |keys| :: keys[i] != keys[j]
    requires k in keys
    ensures SumCounts(keys, m[k := v]) + m[k].paragraphCount == SumCounts(keys, m) + v.paragraphCount
  {
    var init := keys[..|keys| - 1];
    if keys[|keys| - 1] == k {
      assert k !in init;
      SumCountsOfOtherKey(init, m, k, v);
    } else {
      assert k in init;
      SumCountsOfUpdate(init, m, k, v);
    }
  }

  /** Two maps that agree on the paragraph counts of `keys` give the same sum. */
  lemma {:induction false} SumCountsOfSameCounts(keys: seq<int>, m: map<int, ChapterRecord>, m': map<int, ChapterRecord>)
    requires forall i | 0 <= i < |keys| :: (keys[i] in m <==> keys[i] in m')
    requires forall i | 0 <= i < |keys| && keys[i] in m :: m[keys[i]].paragraphCount == m'[keys[i]].paragraphCount
    ensures SumCounts(keys, m) == SumCounts(keys, m')
  {
    if keys != [] {
      SumCountsOfSameCounts(keys[..|keys| - 1], m, m');
    }
  }

  /** `Put` changes the total by the difference of the two paragraph counts. */
  lemma TotalCountOfPut(info: Info, k: int, v: ChapterRecord)
    requires info.Valid()
    ensures TotalCount(Put(info, k, v)) + (if k in info.m then info.m[k].paragraphCount else 0)
            == TotalCount(info) + v.paragraphCount
  {
    if k in info.m {
      SumCountsOfUpdate(info.keys, info.m, k, v);
    } else {
      SumCountsOfOtherKey(info.keys, info.m, k, v);
      assert (info.keys + [k])[..|info.keys|] == info.keys;
    }
  }

  /** A paragraph that a verse line has replaced: `\p`, a newline, and a line whose first
      token is `\v`. */
  predicate IsVerseParagraph(p: string) {
    var toks := Words(Drop(p, |VerseParagraphHead|));
    StartsWith(p, VerseParagraphHead) && toks != [] && toks[0] == "\\v"
  }

  /** In one chapter record, every verse points at a paragraph that a verse line replaced. */
  ghost predicate RecordMarked(rec: ChapterRecord) {
    forall vn | vn in rec.verses.m ::
      var k := rec.verses.m[vn];
      0 <= k < |rec.paragraphs| && IsVerseParagraph(rec.paragraphs[k])
  }

  /** Every paragraph a verse points at has been replaced by a verse line. */
  ghost predicate VersesMarked(info: Info) {
    forall c | c in info.m :: RecordMarked(info.m[c])
  }

  lemma WithRecordWellFormed(info: Info, ch: int, i: nat)
    requires WellFormed(info)
    ensures WellFormed(WithRecord(info, ch, i))
  {
    if ch !in info.m {
      PutValid(info, ch, NewRecord(i));
    }
  }

  lemma AddParagraphWellFormed(info: Info, ch: int, line: string)
    requires WellFormed(info) && ch in info.m
    ensures WellFormed(AddParagraph(info, ch, line))
  {
    var rec := info.m[ch];
    PutValid(info, ch, rec.(paragraphCount := rec.paragraphCount + 1, paragraphs := rec.paragraphs + [line]));
  }

  lemma AddVerseWellFormed(info: Info, ch: int, vn: int, line: string)
    requires WellFormed(info) && ch in info.m && info.m[ch].paragraphs != []
    ensures WellFormed(AddVerse(info, ch, vn, line))
  {
    var rec := info.m[ch];
    PutValid(rec.verses, vn, rec.paragraphCount - 1);
    var rec' := AddVerse(info, ch, vn, line).m[ch];
    assert RecordOk(rec');
    PutValid(info, ch, rec');
  }

  /** One line keeps the invariant of the records. */
  lemma StepWellFormed(info: Info, ch: int, i: nat, line: string, kind: LineKind)
    requires WellFormed(info) && StepError(ParseState(ch, info), i, kind).None?
    ensures WellFormed(StepInfo(info, ch, i, line, kind))
  {
    var info' := WithRecord(info, ch, i);
    WithRecordWellFormed(info, ch, i);
    match kind
    case Paragraph => AddParagraphWellFormed(info', ch, line);
    case Verse(Some(vn)) => AddVerseWellFormed(info', ch, vn, line);
    case _ =>
  }

  lemma ParseNext(lines: seq<string>, kinds: seq<LineKind>, n: nat)
    requires 0 < n <= |lines| == |kinds|
    ensures ParsePrefix(lines, kinds, n)
            == match ParsePrefix(lines, kinds, n - 1)
               case Failure(e) => Failure(e)
               case Success(st) => Step(st, n - 1, lines[n - 1], kinds[n - 1])
  {
  }

  /** Induction over the lines a successful parse has read: a property of the state that
      holds at the start and that every line which does not stop the loop preserves holds
      after the first `n` lines. */
  lemma {:induction false} ParseInduction(lines: seq<string>, kinds: seq<LineKind>, n: nat, P: (ParseState, nat) -> bool)
    requires n <= |lines| == |kinds| && ParsePrefix(lines, kinds, n).Success?
    requires P(ParseState(0, Empty()), 0)
    requires forall st: ParseState, i: nat | i < |lines| && P(st, i) && StepError(st, i, kinds[i]).None? ::
               P(After(st, i, lines[i], kinds[i]), i + 1)
    ensures P(ParsePrefix(lines, kinds, n).value, n)
  {
    if n > 0 {
      ParseInduction(lines, kinds, n - 1, P);
    }
  }

  /** The records the loop builds keep their invariant. */
  lemma ParseWellFormed(lines: seq<string>, kinds: seq<LineKind>, n: nat)
    requires n <= |lines| == |kinds| && ParsePrefix(lines, kinds, n).Success?
    ensures WellFormed(ParsePrefix(lines, kinds, n).value.info)
  {
    var P := (st: ParseState, i: nat) => WellFormed(st.info);
    forall st: ParseState, i: nat | i < |lines| && P(st, i) && StepError(st, i, kinds[i]).None?
      ensures P(After(st, i, lines[i], kinds[i]), i + 1)
    {
      StepWellFormed(st.info, st.ch, i, lines[i], kinds[i]);
    }
    ParseInduction(lines, kinds, n, P);
  }

  /** After the first `n` lines the current chapter is the last integer `\c` argument. */
  lemma ParseChapter(lines: seq<string>, kinds: seq<LineKind>, n: nat)
    requires n <= |lines| == |kinds| && ParsePrefix(lines, kinds, n).Success?
    ensures ParsePrefix(lines, kinds, n).value.ch == ChapterBefore(kinds, n)
  {
    var P := (st: ParseState, i: nat) => i <= |kinds| && st.ch == ChapterBefore(kinds, i);
    var init: ParseState := ParseState(0, Empty());
    assert ChapterBefore(kinds, 0) == 0;
    assert P(init, 0);
    forall st: ParseState, i: nat | i < |lines| && P(st, i) && StepError(st, i, kinds[i]).None?
      ensures P(After(st, i, lines[i], kinds[i]), i + 1)
    {
      assert ChapterBefore(kinds, i + 1) == NextChapter(st.ch, kinds[i]);
    }
    ParseInduction(lines, kinds, n, P);
  }

  lemma StepRecords(info: Info, ch: int, i: nat, line: string, kind: LineKind)
    requires StepError(ParseState(ch, info), i, kind).None?
    ensures var info' := StepInfo(info, ch, i, line, kind);
      && (forall c :: c in info'.m <==> c in info.m || c == ch)
      && (forall c | c in info.m :: info'.m[c].lineNumber == info.m[c].lineNumber)
      && (ch !in info.m ==> info'.m[ch].lineNumber == i)
  {
  }

  /** The records present after the first `n` lines, with their line numbers. */
  ghost predicate RecordsFrom(kinds: seq<LineKind>, info: Info, n: nat)
    requires n <= |kinds|
  {
    && (forall c :: c in info.m <==> FirstLineOf(kinds, c, n).Some?)
    && (forall c | c in info.m :: info.m[c].lineNumber == FirstLineOf(kinds, c, n).value)
  }

  /** One line extends the records to the chapters current at the first `i + 1` lines. */
  lemma StepRecordsFrom(kinds: seq<LineKind>, st: ParseState, i: nat, line: string)
    requires i < |kinds| && st.ch == ChapterBefore(kinds, i) && RecordsFrom(kinds, st.info, i)
    requires StepError(st, i, kinds[i]).None?
    ensures RecordsFrom(kinds, StepInfo(st.info, st.ch, i, line, kinds[i]), i + 1)
  {
    StepRecords(st.info, st.ch, i, line, kinds[i]);
  }

  /** A record exists exactly for the chapters current at one of the first `n` lines, and its
      `line-number` is the first such line. */
  lemma ParseRecords(lines: seq<string>, kinds: seq<LineKind>, n: nat)
    requires n <= |lines| == |kinds| && ParsePrefix(lines, kinds, n).Success?
    ensures RecordsFrom(kinds, ParsePrefix(lines, kinds, n).value.info, n)
  {
    var P := (st: ParseState, i: nat) => i <= |kinds| && st.ch == ChapterBefore(kinds, i) && RecordsFrom(kinds, st.info, i);
    var init: ParseState := ParseState(0, Empty());
    assert ChapterBefore(kinds, 0) == 0;
    assert forall c :: FirstLineOf(kinds, c, 0).None?;
    assert P(init, 0);
    forall st: ParseState, i: nat | i < |lines| && P(st, i) && StepError(st, i, kinds[i]).None?
      ensures P(After(st, i, lines[i], kinds[i]), i + 1)
    {
      StepRecordsFrom(kinds, st, i, lines[i]);
      assert ChapterBefore(kinds, i + 1) == NextChapter(st.ch, kinds[i]);
    }
    ParseInduction(lines, kinds, n, P);
  }

  lemma WithRecordTotal(info: Info, ch: int, i: nat)
    requires info.Valid()
    ensures WithRecord(info, ch, i).Valid() && TotalCount(WithRecord(info, ch, i)) == TotalCount(info)
  {
    if ch !in info.m {
      TotalCountOfPut(info, ch, NewRecord(i));
      PutValid(info, ch, NewRecord(i));
    }
  }

  lemma AddParagraphTotal(info: Info, ch: int, line: string)
    requires info.Valid() && ch in info.m
    ensures TotalCount(AddParagraph(info, ch, line)) == TotalCount(info) + 1
  {
    var rec := info.m[ch];
    TotalCountOfPut(info, ch, rec.(paragraphCount := rec.paragraphCount + 1, paragraphs := rec.paragraphs + [line]));
  }

  lemma AddVerseTotal(info: Info, ch: int, vn: int, line: string)
    requires info.Valid() && ch in info.m && info.m[ch].paragraphs != []
    ensures TotalCount(AddVerse(info, ch, vn, line)) == TotalCount(info)
  {
    TotalCountOfPut(info, ch, AddVerse(info, ch, vn, line).m[ch]);
  }

  lemma StepTotal(info: Info, ch: int, i: nat, line: string, kind: LineKind)
    requires info.Valid() && StepError(ParseState(ch, info), i, kind).None?
    ensures TotalCount(StepInfo(info, ch, i, line, kind)) == TotalCount(info) + if kind == Paragraph then 1 else 0
  {
    var info' := WithRecord(info, ch, i);
    WithRecordTotal(info, ch, i);
    match kind
    case Paragraph =>
      assert StepInfo(info, ch, i, line, kind) == AddParagraph(info', ch, line);
      AddParagraphTotal(info', ch, line);
    case Verse(Some(vn)) =>
      assert StepInfo(info, ch, i, line, kind) == AddVerse(info', ch, vn, line);
      AddVerseTotal(info', ch, vn, line);
    case Chapter(_) =>
      assert StepInfo(info, ch, i, line, kind) == info';
    case Other =>
      assert StepInfo(info, ch, i, line, kind) == info';
    case _ =>
  }

  /** One line keeps the chapters listed once each. */
  lemma StepValid(info: Info, ch: int, i: nat, line: string, kind: LineKind)
    requires info.Valid() && StepError(ParseState(ch, info), i, kind).None?
    ensures StepInfo(info, ch, i, line, kind).Valid()
  {
    var info' := WithRecord(info, ch, i);
    WithRecordTotal(info, ch, i);
    match kind
    case Paragraph =>
      assert StepInfo(info, ch, i, line, kind) == AddParagraph(info', ch, line);
      AddParagraphValid(info', ch, line);
    case Verse(Some(vn)) =>
      assert StepInfo(info, ch, i, line, kind) == AddVerse(info', ch, vn, line);
      AddVerseValid(info', ch, vn, line);
    case Chapter(_) =>
      assert StepInfo(info, ch, i, line, kind) == info';
    case Other =>
      assert StepInfo(info, ch, i, line, kind) == info';
    case _ =>
  }

  lemma AddParagraphValid(info: Info, ch: int, line: string)
    requires info.Valid() && ch in info.m
    ensures AddParagraph(info, ch, line).Valid()
  {
    var rec := info.m[ch];
    PutValid(info, ch, rec.(paragraphCount := rec.paragraphCount + 1, paragraphs := rec.paragraphs + [line]));
  }

  lemma AddVerseValid(info: Info, ch: int, vn: int, line: string)
    requires info.Valid() && ch in info.m && info.m[ch].paragraphs != []
    ensures AddVerse(info, ch, vn, line).Valid()
  {
    PutValid(info, ch, AddVerse(info, ch, vn, line).m[ch]);
  }

  /** One line adds to the total exactly when it is a paragraph-marker line. */
  lemma StepMarkerLines(kinds: seq<LineKind>, st: ParseState, i: nat, line: string)
    requires i < |kinds| && st.info.Valid() && TotalCount(st.info) == MarkerLines(kinds, i)
    requires StepError(st, i, kinds[i]).None?
    ensures var st' := After(st, i, line, kinds[i]);
      st'.info.Valid() && TotalCount(st'.info) == MarkerLines(kinds, i + 1)
  {
    StepValid(st.info, st.ch, i, line, kinds[i]);
    StepTotal(st.info, st.ch, i, line, kinds[i]);
  }

  /** The paragraph counts add up to the number of paragraph-marker lines. */
  lemma {:induction false} ParseTotal(lines: seq<string>, kinds: seq<LineKind>, n: nat)
    requires n <= |lines| == |kinds| && ParsePrefix(lines, kinds, n).Success?
    ensures ParsePrefix(lines, kinds, n).value.info.Valid()
    ensures TotalCount(ParsePrefix(lines, kinds, n).value.info) == MarkerLines(kinds, n)
  {
    if n == 0 {
      assert TotalCount(Empty()) == 0 == MarkerLines(kinds, 0);
    } else {
      var st := ParsePrefix(lines, kinds, n - 1).value;
      ParseTotal(lines, kinds, n - 1);
      StepMarkerLines(kinds, st, n - 1, lines[n - 1]);
    }
  }

  lemma VerseParagraphOfVerseLine(line: string, markers: set<string>)
    requires Classify(line, markers).Verse?
    ensures IsVerseParagraph(VerseParagraphHead + line)
  {
    assert (VerseParagraphHead + line)[..|VerseParagraphHead|] == VerseParagraphHead;
    assert Drop(VerseParagraphHead + line, |VerseParagraphHead|) == line;
  }

  lemma AddParagraphMarked(rec: ChapterRecord, line: string)
    requires RecordMarked(rec)
    ensures RecordMarked(rec.(paragraphCount := rec.paragraphCount + 1, paragraphs := rec.paragraphs + [line]))
  {
    var rec' := rec.(paragraphCount := rec.paragraphCount + 1, paragraphs := rec.paragraphs + [line]);
    forall vn | vn in rec'.verses.m
      ensures IsVerseParagraph(rec'.paragraphs[rec'.verses.m[vn]])
    {
      assert rec'.paragraphs[rec'.verses.m[vn]] == rec.paragraphs[rec.verses.m[vn]];
    }
  }

  lemma AddVerseMarked(info: Info, ch: int, vn: int, line: string)
    requires ch in info.m && RecordOk(info.m[ch]) && RecordMarked(info.m[ch]) && info.m[ch].paragraphs != []
    requires IsVerseParagraph(VerseParagraphHead + line)
    ensures RecordMarked(AddVerse(info, ch, vn, line).m[ch])
  {
    var rec := info.m[ch];
    var rec' := AddVerse(info, ch, vn, line).m[ch];
    var last := |rec.paragraphs| - 1;
    forall x | x in rec'.verses.m
      ensures var k := rec'.verses.m[x];
        0 <= k < |rec'.paragraphs| && IsVerseParagraph(rec'.paragraphs[k])
    {
      if x != vn && rec'.verses.m[x] != last {
        assert rec'.paragraphs[rec'.verses.m[x]] == rec.paragraphs[rec.verses.m[x]];
      }
    }
  }

  lemma StepVersesMarked(info: Info, ch: int, i: nat, line: string, kind: LineKind)
    requires kind.Verse? ==> IsVerseParagraph(VerseParagraphHead + line)
    requires WellFormed(info) && VersesMarked(info) && StepError(ParseState(ch, info), i, kind).None?
    ensures VersesMarked(StepInfo(info, ch, i, line, kind))
  {
    var info' := WithRecord(info, ch, i);
    WithRecordWellFormed(info, ch, i);
    match kind
    case Paragraph => AddParagraphMarked(info'.m[ch], line);
    case Verse(Some(vn)) => AddVerseMarked(info', ch, vn, line);
    case _ =>
  }

  /** Every verse points at a paragraph that its verse line replaced. */
  lemma ParseVersesMarked(lines: seq<string>, kinds: seq<LineKind>, n: nat)
    requires n <= |lines| == |kinds| && ParsePrefix(lines, kinds, n).Success?
    requires forall j | 0 <= j < |kinds| :: kinds[j].Verse? ==> IsVerseParagraph(VerseParagraphHead + lines[j])
    ensures VersesMarked(ParsePrefix(lines, kinds, n).value.info)
  {
    var P := (st: ParseState, i: nat) => WellFormed(st.info) && VersesMarked(st.info);
    forall st: ParseState, i: nat | i < |lines| && P(st, i) && StepError(st, i, kinds[i]).None?
      ensures P(After(st, i, lines[i], kinds[i]), i + 1)
    {
      StepWellFormed(st.info, st.ch, i, lines[i], kinds[i]);
      StepVersesMarked(st.info, st.ch, i, lines[i], kinds[i]);
    }
    ParseInduction(lines, kinds, n, P);
  }

  /** What `get_info_dict` gives for a whole file: well-formed records, one per chapter that
      was current at some line, carrying the first such line; paragraph counts that add up to
      the number of paragraph-marker lines; verses pointing at replaced paragraphs. */
  lemma InfoOfFacts(lines: seq<string>, markers: set<string>)
    requires InfoOf(lines, markers).Success?
    ensures var info := InfoOf(lines, markers).value;
      var kinds := Kinds(lines, markers);
      && WellFormed(info)
      && (forall c :: c in info.m <==> FirstLineOf(kinds, c, |lines|).Some?)
      && (forall c | c in info.m :: info.m[c].lineNumber == FirstLineOf(kinds, c, |lines|).value)
      && TotalCount(info) == MarkerLines(kinds, |lines|)
      && VersesMarked(info)
  {
    var kinds := Kinds(lines, markers);
    ParseWellFormed(lines, kinds, |lines|);
    ParseRecords(lines, kinds, |lines|);
    ParseTotal(lines, kinds, |lines|);
    forall j | 0 <= j < |kinds| && kinds[j].Verse?
      ensures IsVerseParagraph(VerseParagraphHead + lines[j])
    {
      VerseParagraphOfVerseLine(lines[j], markers);
    }
    ParseVersesMarked(lines, kinds, |lines|);
  }
}
