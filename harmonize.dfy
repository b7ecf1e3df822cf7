/** harmonize-verse-markers.py: the verse markers of a base SFM file are carried over to the
    paragraphs of a target file, chapter by chapter, once both files are known to have the
    same number of paragraphs in every base chapter. */
module Harmonize {
  import opened Wrappers
  import opened Ordered
  import opened Text
  import opened SfmInfo
  import opened ParagraphCheck

  /** The five characters `\p`, newline, `\v` that open a paragraph already carrying a verse. */
  const MarkedPrefix: string := "\\p\n\\v"

  /** The paragraph `ptext` rewritten to carry verse `vn`: `\p`, newline, `\v`, the verse
      number, and `ptext` without its first three characters. */
  function VerseMarkedParagraph(vn: int, ptext: string): (r: string)
    ensures StartsWith(r, MarkedPrefix)
  {
    var r := MarkedPrefix + " " + IntToStr(vn) + " " + Drop(ptext, 3);
    assert r[..|MarkedPrefix|] == MarkedPrefix;
    r
  }

  /** The first verse, at or after position `j` of the insertion order, that points at
      paragraph `i`. */
  function FirstVerseFrom(verses: OrdMap<int, int>, i: int, j: nat): (r: Option<int>)
    requires verses.Valid() && j <= |verses.keys|
    ensures r.Some? ==> exists k | j <= k < |verses.keys| :: verses.keys[k] == r.value && verses.m[r.value] == i
                          && forall l | j <= l < k :: verses.m[verses.keys[l]] != i
    ensures r.None? ==> forall l | j <= l < |verses.keys| :: verses.m[verses.keys[l]] != i
    decreases |verses.keys| - j
  {
    if j == |verses.keys| then None
    else if verses.m[verses.keys[j]] == i then Some(verses.keys[j])
    else FirstVerseFrom(verses, i, j + 1)
  }

  /** The first verse, in insertion order, that points at paragraph `i`. */
  function FirstVerseAt(verses: OrdMap<int, int>, i: int): Option<int>
    requires verses.Valid()
  {
    FirstVerseFrom(verses, i, 0)
  }

  /** What `add_verse_markers_to_paragraphs` makes of paragraph `i`. */
  function MarkParagraph(ptext: string, i: int, verses: OrdMap<int, int>): string
    requires verses.Valid()
  {
    if StartsWith(ptext, MarkedPrefix) then ptext
    else
      match FirstVerseAt(verses, i)
      case None => ptext
      case Some(vn) => VerseMarkedParagraph(vn, ptext)
  }

  /** The scan stopping at position `j` of the verses rewrites the paragraph with that verse. */
  lemma MarkParagraphFound(ptext: string, i: int, verses: OrdMap<int, int>, j: nat)
    requires verses.Valid() && j < |verses.keys| && verses.m[verses.keys[j]] == i
    requires !StartsWith(ptext, MarkedPrefix) && FirstVerseAt(verses, i) == FirstVerseFrom(verses, i, j)
    ensures MarkParagraph(ptext, i, verses) == VerseMarkedParagraph(verses.keys[j], ptext)
  {
  }

  /** The scan running to the end of the verses leaves the paragraph as it was. */
  lemma MarkParagraphNotFound(ptext: string, i: int, verses: OrdMap<int, int>)
    requires verses.Valid()
    requires !StartsWith(ptext, MarkedPrefix) ==> FirstVerseAt(verses, i) == FirstVerseFrom(verses, i, |verses.keys|)
    ensures MarkParagraph(ptext, i, verses) == ptext
  {
  }

  /** What `add_verse_markers_to_paragraphs` makes of the whole list. */
  function MarkParagraphs(ps: seq<string>, verses: OrdMap<int, int>): (r: seq<string>)
    requires verses.Valid()
    ensures |r| == |ps|
  {
    seq(|ps|, i requires 0 <= i < |ps| => MarkParagraph(ps[i], i, verses))
  }

  /** The inner loop of `add_verse_markers_to_paragraphs` for paragraph `i`: the verses are
      scanned in insertion order and the first one pointing at the paragraph rewrites it,
      unless it already starts with `\p`, newline, `\v`. */
  method MarkedText(ptext: string, i: int, bverses: OrdMap<int, int>) returns (text: string)
    requires bverses.Valid()
    ensures text == MarkParagraph(ptext, i, bverses)
  {
    text := ptext;
    var j := 0;
    while j < |bverses.keys|
      invariant 0 <= j <= |bverses.keys|
      invariant !StartsWith(ptext, MarkedPrefix) ==> FirstVerseAt(bverses, i) == FirstVerseFrom(bverses, i, j)
    {
      var vn := bverses.keys[j];
      var vpi := bverses.m[vn];
      if i == vpi && !StartsWith(ptext, MarkedPrefix) {
        text := VerseMarkedParagraph(vn, ptext);
        MarkParagraphFound(ptext, i, bverses, j);
        return;
      }
      j := j + 1;
    }
    MarkParagraphNotFound(ptext, i, bverses);
  }

  /** `add_verse_markers_to_paragraphs(paragraphs, bverses)`: for each paragraph, the verses
      are scanned in insertion order and the first one pointing at it rewrites it, unless it
      already starts with `\p`, newline, `\v`. The list is updated in place. */
  method AddVerseMarkersToParagraphs(paragraphs: array<string>, bverses: OrdMap<int, int>)
    requires bverses.Valid()
    modifies paragraphs
    ensures paragraphs[..] == MarkParagraphs(old(paragraphs[..]), bverses)
  {
    var copy := paragraphs[..];
    var i := 0;
    while i < paragraphs.Length
      invariant 0 <= i <= paragraphs.Length
      invariant forall k | 0 <= k < i :: paragraphs[k] == MarkParagraph(copy[k], k, bverses)
      invariant forall k | i <= k < paragraphs.Length :: paragraphs[k] == copy[k]
    {
      var text := MarkedText(copy[i], i, bverses);
      paragraphs[i] := text;
      i := i + 1;
    }
    assert paragraphs[..] == MarkParagraphs(copy, bverses);
  }

  // ---------------------------------------------------------------------------------------
  // What marking does to one list of paragraphs.

  /** A paragraph is left as it was exactly when it already carries a verse or no verse
      points at it. */
  lemma MarkParagraphUnchanged(ptext: string, i: int, verses: OrdMap<int, int>)
    requires verses.Valid()
    ensures MarkParagraph(ptext, i, verses) == ptext
            <==> StartsWith(ptext, MarkedPrefix) || FirstVerseAt(verses, i).None?
  {
    if !StartsWith(ptext, MarkedPrefix) && FirstVerseAt(verses, i).Some? {
      assert StartsWith(MarkParagraph(ptext, i, verses), MarkedPrefix);
    }
  }

  /** A paragraph that does not yet carry a verse is rewritten with the verse that comes
      first, in insertion order, among those pointing at it. */
  lemma MarkedWithFirstVerse(ptext: string, i: int, verses: OrdMap<int, int>, k: nat)
    requires verses.Valid() && k < |verses.keys| && verses.m[verses.keys[k]] == i
    requires forall l | 0 <= l < k :: verses.m[verses.keys[l]] != i
    requires !StartsWith(ptext, MarkedPrefix)
    ensures MarkParagraph(ptext, i, verses) == VerseMarkedParagraph(verses.keys[k], ptext)
  {
    var r := FirstVerseAt(verses, i);
    assert r.Some?;
    var k' :| 0 <= k' < |verses.keys| && verses.keys[k'] == r.value && verses.m[r.value] == i
              && forall l | 0 <= l < k' :: verses.m[verses.keys[l]] != i;
    assert k' == k;
  }

  /** Every paragraph some verse points at carries a verse once marked. */
  lemma MarkParagraphsCoverVerses(ps: seq<string>, verses: OrdMap<int, int>)
    requires verses.Valid()
    ensures forall vn | vn in verses.m && 0 <= verses.m[vn] < |ps| ::
              StartsWith(MarkParagraphs(ps, verses)[verses.m[vn]], MarkedPrefix)
  {
    forall vn | vn in verses.m && 0 <= verses.m[vn] < |ps|
      ensures StartsWith(MarkParagraphs(ps, verses)[verses.m[vn]], MarkedPrefix)
    {
      var i := verses.m[vn];
      var k :| 0 <= k < |verses.keys| && verses.keys[k] == vn;
      assert FirstVerseAt(verses, i).Some?;
    }
  }

  /** Marking a second time changes nothing. */
  lemma MarkParagraphsIdempotent(ps: seq<string>, verses: OrdMap<int, int>)
    requires verses.Valid()
    ensures MarkParagraphs(MarkParagraphs(ps, verses), verses) == MarkParagraphs(ps, verses)
  {
    var once := MarkParagraphs(ps, verses);
    forall i | 0 <= i < |ps|
      ensures MarkParagraph(once[i], i, verses) == once[i]
    {
      MarkParagraphUnchanged(ps[i], i, verses);
      MarkParagraphUnchanged(once[i], i, verses);
    }
  }

  // ---------------------------------------------------------------------------------------
  // `add_verse_markers`: every base chapter's verses marked into the target chapter.

  /** A target chapter with its paragraphs marked by the verses of the base chapter. */
  function MarkChapter(rec: ChapterRecord, bverses: OrdMap<int, int>): ChapterRecord
    requires bverses.Valid()
  {
    rec.(paragraphs := MarkParagraphs(rec.paragraphs, bverses))
  }

  /** What `add_verse_markers` makes of the target records: the chapters the base also has
      are marked with the base chapter's verses, the others are left alone. */
  function MarkChapters(binfo: Info, tinfo: Info): Info
    requires WellFormed(binfo)
  {
    OrdMap(tinfo.keys, map c | c in tinfo.m ::
      if c in binfo.m then MarkChapter(tinfo.m[c], binfo.m[c].verses) else tinfo.m[c])
  }

  /** The target records once the base chapters `binfo.keys[j..]` have been marked. */
  ghost predicate MarkedFrom(binfo: Info, tinfo: Info, t: Info, j: nat)
    requires WellFormed(binfo) && j <= |binfo.keys|
  {
    && t.keys == tinfo.keys && t.m.Keys == tinfo.m.Keys
    && forall c | c in tinfo.m :: t.m[c] ==
         if c in binfo.m && c in binfo.keys[j..] then MarkChapter(tinfo.m[c], binfo.m[c].verses) else tinfo.m[c]
  }

  /** Marking base chapter `j - 1` extends the marked suffix by one. */
  lemma MarkedFromStep(binfo: Info, tinfo: Info, t: Info, j: nat)
    requires WellFormed(binfo) && 0 < j <= |binfo.keys| && binfo.keys[j - 1] in tinfo.m
    requires MarkedFrom(binfo, tinfo, t, j)
    ensures var bc := binfo.keys[j - 1];
      MarkedFrom(binfo, tinfo, Put(t, bc, MarkChapter(t.m[bc], binfo.m[bc].verses)), j - 1)
  {
    var chs := binfo.keys;
    var bc := chs[j - 1];
    assert chs[j - 1..] == [bc] + chs[j..];
    assert bc !in chs[j..];
  }

  /** With every base chapter marked, the records are those of `MarkChapters`. */
  lemma MarkedFromAll(binfo: Info, tinfo: Info, t: Info)
    requires WellFormed(binfo) && MarkedFrom(binfo, tinfo, t, 0)
    ensures t == MarkChapters(binfo, tinfo)
  {
    assert binfo.keys[0..] == binfo.keys;
    forall c | c in tinfo.m
      ensures t.m[c] == MarkChapters(binfo, tinfo).m[c]
    {
      if c in binfo.m {
        assert c in binfo.keys;
      }
    }
    assert t.m == MarkChapters(binfo, tinfo).m;
  }

  /** `add_verse_markers(binfo, tinfo)`: the base chapters are visited last to first; the
      paragraph list of the target chapter is marked in place and stored back under the same
      chapter, which keeps its place. The target must have every base chapter (the script
      calls it only once `verify_paragraph_count` has found them all). */
  method AddVerseMarkers(binfo: Info, tinfo: Info) returns (t: Info)
    requires WellFormed(binfo)
    requires forall c | c in binfo.m :: c in tinfo.m
    ensures t == MarkChapters(binfo, tinfo)
  {
    var chs := binfo.keys;
    t := tinfo;
    var j := |chs|;
    assert MarkedFrom(binfo, tinfo, t, j);
    while j > 0
      invariant 0 <= j <= |chs|
      invariant MarkedFrom(binfo, tinfo, t, j)
    {
      var bc := chs[j - 1];
      var ps := t.m[bc].paragraphs;
      var tps := new string[|ps|](k requires 0 <= k < |ps| => ps[k]);
      assert tps[..] == ps;
      AddVerseMarkersToParagraphs(tps, binfo.m[bc].verses);
      MarkedFromStep(binfo, tinfo, t, j);
      t := Put(t, bc, t.m[bc].(paragraphs := tps[..]));
      j := j - 1;
    }
    MarkedFromAll(binfo, tinfo, t);
  }

  /** Marking keeps the chapters, their order, and every field but the paragraph texts;
      chapters the base lacks are untouched. */
  lemma MarkChaptersKeeps(binfo: Info, tinfo: Info)
    requires WellFormed(binfo)
    ensures var r := MarkChapters(binfo, tinfo);
      && r.keys == tinfo.keys && r.m.Keys == tinfo.m.Keys
      && (forall c | c in tinfo.m ::
            && r.m[c].lineNumber == tinfo.m[c].lineNumber
            && r.m[c].paragraphCount == tinfo.m[c].paragraphCount
            && r.m[c].verses == tinfo.m[c].verses
            && |r.m[c].paragraphs| == |tinfo.m[c].paragraphs|)
      && (forall c | c in tinfo.m && c !in binfo.m :: r.m[c] == tinfo.m[c])
  {
  }

  /** Well-formed target records stay well-formed, with the same total paragraph count. */
  lemma MarkChaptersWellFormed(binfo: Info, tinfo: Info)
    requires WellFormed(binfo) && WellFormed(tinfo)
    ensures WellFormed(MarkChapters(binfo, tinfo))
    ensures TotalCount(MarkChapters(binfo, tinfo)) == TotalCount(tinfo)
  {
    var r := MarkChapters(binfo, tinfo);
    MarkChaptersKeeps(binfo, tinfo);
    forall c | c in r.m
      ensures RecordOk(r.m[c])
    {
      assert RecordOk(tinfo.m[c]);
    }
    forall i | 0 <= i < |tinfo.keys|
      ensures tinfo.keys[i] in r.m && r.m[tinfo.keys[i]].paragraphCount == tinfo.m[tinfo.keys[i]].paragraphCount
    {
      var c := tinfo.keys[i];
      assert c in tinfo.m;
      assert r.m[c] == if c in binfo.m then MarkChapter(tinfo.m[c], binfo.m[c].verses) else tinfo.m[c];
    }
    SumCountsOfSameCounts(tinfo.keys, r.m, tinfo.m);
  }

  /** Harmonizing a second time changes nothing. */
  lemma MarkChaptersIdempotent(binfo: Info, tinfo: Info)
    requires WellFormed(binfo)
    ensures MarkChapters(binfo, MarkChapters(binfo, tinfo)) == MarkChapters(binfo, tinfo)
  {
    var once := MarkChapters(binfo, tinfo);
    forall c | c in binfo.m && c in tinfo.m
      ensures MarkChapter(once.m[c], binfo.m[c].verses) == once.m[c]
    {
      MarkParagraphsIdempotent(tinfo.m[c].paragraphs, binfo.m[c].verses);
    }
    assert MarkChapters(binfo, once).m == once.m;
  }

  /** When every base chapter is in the target with as many paragraphs, every base verse
      ends up carried by the target paragraph at the same position. */
  lemma HarmonizedVersesMarked(binfo: Info, tinfo: Info)
    requires WellFormed(binfo) && WellFormed(tinfo)
    requires forall c | c in binfo.m :: c in tinfo.m && binfo.m[c].paragraphCount == tinfo.m[c].paragraphCount
    ensures forall c, vn | c in binfo.m && vn in binfo.m[c].verses.m ::
              var k := binfo.m[c].verses.m[vn];
              0 <= k < |MarkChapters(binfo, tinfo).m[c].paragraphs|
              && StartsWith(MarkChapters(binfo, tinfo).m[c].paragraphs[k], MarkedPrefix)
  {
    forall c | c in binfo.m
      ensures forall vn | vn in binfo.m[c].verses.m ::
                var k := binfo.m[c].verses.m[vn];
                0 <= k < |MarkChapters(binfo, tinfo).m[c].paragraphs|
                && StartsWith(MarkChapters(binfo, tinfo).m[c].paragraphs[k], MarkedPrefix)
    {
      MarkParagraphsCoverVerses(tinfo.m[c].paragraphs, binfo.m[c].verses);
    }
  }

  // ---------------------------------------------------------------------------------------
  // `print_output` and `main`.

  /** The lines printed for one chapter: `\c` and the chapter number, except for the
      chapter 0 that holds what precedes the first `\c` line, then the paragraphs. */
  function ChapterLines(ch: int, rec: ChapterRecord): seq<string> {
    ChapterHead(ch) + rec.paragraphs
  }

  /** The `\c` line printed before the paragraphs of chapter `ch`, if any. */
  function ChapterHead(ch: int): seq<string> {
    if ch != 0 then ["\\c " + IntToStr(ch)] else []
  }

  /** The lines printed for the chapters `keys`, in their order. */
  function OutputOf(keys: seq<int>, m: map<int, ChapterRecord>): seq<string>
    requires forall k | 0 <= k < |keys| :: keys[k] in m
  {
    if keys == [] then []
    else OutputOf(keys[..|keys| - 1], m) + ChapterLines(keys[|keys| - 1], m[keys[|keys| - 1]])
  }

  lemma OutputOfNext(keys: seq<int>, m: map<int, ChapterRecord>, j: nat)
    requires j < |keys| && forall k | 0 <= k < |keys| :: keys[k] in m
    ensures OutputOf(keys[..j + 1], m) == OutputOf(keys[..j], m) + ChapterLines(keys[j], m[keys[j]])
  {
    assert keys[..j + 1][..j] == keys[..j];
  }

  lemma AppendNext<T>(head: seq<T>, s: seq<T>, k: nat)
    requires k < |s|
    ensures head + s[..k] + [s[k]] == head + s[..k + 1]
  {
    assert s[..k + 1] == s[..k] + [s[k]];
  }

  /** What `print_output(info)` prints, one element per `print` call. */
  function OutputLines(info: Info): seq<string>
    requires forall k | 0 <= k < |info.keys| :: info.keys[k] in info.m
  {
    OutputOf(info.keys, info.m)
  }

  /** `print_output(info_dict)`: for each chapter in order, its `\c` line unless it is
      chapter 0, then each of its paragraphs. */
  method PrintOutput(info: Info) returns (out: seq<string>)
    requires forall k | 0 <= k < |info.keys| :: info.keys[k] in info.m
    ensures out == OutputLines(info)
  {
    out := [];
    var j := 0;
    while j < |info.keys|
      invariant 0 <= j <= |info.keys|
      invariant out == OutputOf(info.keys[..j], info.m)
    {
      var ch := info.keys[j];
      var ps := info.m[ch].paragraphs;
      var head := ChapterHead(ch);
      var lines := head;
      var k := 0;
      while k < |ps|
        invariant 0 <= k <= |ps|
        invariant lines == head + ps[..k]
      {
        AppendNext(head, ps, k);
        lines := lines + [ps[k]];
        k := k + 1;
      }
      assert ps[..k] == ps;
      out := out + lines;
      OutputOfNext(info.keys, info.m, j);
      j := j + 1;
    }
    assert info.keys[..j] == info.keys;
  }

  /** The number of chapters among `keys` other than chapter 0. */
  function NumberedChapters(keys: seq<int>): nat {
    if keys == [] then 0
    else NumberedChapters(keys[..|keys| - 1]) + if keys[|keys| - 1] != 0 then 1 else 0
  }

  /** One line per numbered chapter and one per paragraph. */
  lemma {:induction false} OutputOfLength(keys: seq<int>, m: map<int, ChapterRecord>)
    requires forall k | 0 <= k < |keys| :: keys[k] in m && RecordOk(m[keys[k]])
    ensures |OutputOf(keys, m)| == NumberedChapters(keys) + SumCounts(keys, m)
  {
    if keys != [] {
      OutputOfLength(keys[..|keys| - 1], m);
    }
  }

  /** The printed file has one line per numbered chapter and one per paragraph kept. */
  lemma OutputLinesLength(info: Info)
    requires WellFormed(info)
    ensures |OutputLines(info)| == NumberedChapters(info.keys) + TotalCount(info)
  {
    forall k | 0 <= k < |info.keys|
      ensures info.keys[k] in info.m && RecordOk(info.m[info.keys[k]])
    {
      var c := info.keys[k];
      assert c in info.m;
      assert RecordOk(info.m[c]);
    }
    OutputOfLength(info.keys, info.m);
  }

  /** How a run of harmonize-verse-markers.py ends. */
  datatype HarmonizeOutcome =
    | BaseUnreadable(error: ParseError)      // `get_info_dict` of the base file stopped
    | TargetUnreadable(error: ParseError)    // `get_info_dict` of the target file stopped
    | ChapterMissing(ch: int)                // `verify_paragraph_count` met a base chapter the target lacks
    | Mismatched(rows: seq<MismatchLine>, totalBase: nat, totalTarget: nat, linesBase: nat, linesTarget: nat)
    | Harmonized(output: seq<string>)

  /** `main` after the two files have been read: both files are parsed, the target must have
      every base chapter, and only when every base chapter has as many paragraphs in the
      target are the verse markers carried over and the target printed; otherwise the
      differing chapters are reported in base order with the paragraph and line totals, and
      the script exits with status 1. The lines of each file are parameters. */
  method HarmonizeVerseMarkers(baseLines: seq<string>, targetLines: seq<string>) returns (r: HarmonizeOutcome)
    ensures InfoOf(baseLines, HarmonizeMarkers).Failure? ==>
              r == BaseUnreadable(InfoOf(baseLines, HarmonizeMarkers).error)
    ensures InfoOf(baseLines, HarmonizeMarkers).Success? && InfoOf(targetLines, HarmonizeMarkers).Failure? ==>
              r == TargetUnreadable(InfoOf(targetLines, HarmonizeMarkers).error)
    ensures InfoOf(baseLines, HarmonizeMarkers).Success? && InfoOf(targetLines, HarmonizeMarkers).Success? ==>
              var binfo := InfoOf(baseLines, HarmonizeMarkers).value;
              var tinfo := InfoOf(targetLines, HarmonizeMarkers).value;
              && WellFormed(binfo) && WellFormed(tinfo)
              && !r.BaseUnreadable? && !r.TargetUnreadable?
              && (r.ChapterMissing? <==> exists c :: c in binfo.m && c !in tinfo.m)
              && (r.ChapterMissing? ==> r.ch in binfo.m && r.ch !in tinfo.m)
              && (r.Harmonized? <==> CountsAgree(binfo, tinfo))
              && (r.Harmonized? ==> r.output == OutputLines(MarkChapters(binfo, tinfo)))
              && (r.Mismatched? ==>
                    && (forall k | 0 <= k < |binfo.keys| :: binfo.keys[k] in tinfo.m)
                    && var d := Differing(binfo.keys, binfo, tinfo);
                    && |r.rows| == |d| > 0
                    && (forall i | 0 <= i < |d| ::
                          r.rows[i].ch == d[i] && d[i] in binfo.m && d[i] in tinfo.m
                          && r.rows[i].entry == MismatchOf(binfo.m[d[i]], tinfo.m[d[i]]))
                    && r.totalBase == TotalCount(binfo) && r.totalTarget == TotalCount(tinfo)
                    && r.linesBase == |baseLines| && r.linesTarget == |targetLines|)
  {
    var b := GetInfoDict(baseLines, HarmonizeMarkers);
    if b.Failure? {
      return BaseUnreadable(b.error);
    }
    var t := GetInfoDict(targetLines, HarmonizeMarkers);
    if t.Failure? {
      return TargetUnreadable(t.error);
    }
    var binfo, tinfo := b.value, t.value;
    InfoOfFacts(baseLines, HarmonizeMarkers);
    InfoOfFacts(targetLines, HarmonizeMarkers);
    var v := VerifyParagraphCount(binfo, tinfo);
    if v.Failure? {
      return ChapterMissing(v.error);
    }
    var mismatched := v.value;
    NoMismatchIffCountsAgree(binfo, tinfo);
    if |mismatched.keys| > 0 {
      var rows := MismatchRows(mismatched);
      ReportRowsInBaseOrder(binfo, tinfo, mismatched, rows);
      var totalBase := GetTotalParagraphCount(binfo);
      var totalTarget := GetTotalParagraphCount(tinfo);
      return Mismatched(rows, totalBase, totalTarget, |baseLines|, |targetLines|);
    }
    var marked := AddVerseMarkers(binfo, tinfo);
    MarkChaptersKeeps(binfo, tinfo);
    var out := PrintOutput(marked);
    return Harmonized(out);
  }
}
