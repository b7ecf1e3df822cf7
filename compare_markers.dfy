/** compare-markers.py: the paragraph counts of a base and a target SFM file are compared
    chapter by chapter and reported, whatever they are; the script always exits with
    status 1. */
module CompareMarkers {
  import opened Wrappers
  import opened Text
  import opened SfmInfo
  import opened ParagraphCheck

  /** The characters `main` strips from both ends of a file's stem to name it. */
  const StemChars: set<char> := {'9', '4', 'X', 'A'}

  /** How a run of compare-markers.py ends. */
  datatype CompareOutcome =
    | BaseUnreadable(error: ParseError)      // `get_info_dict` of the base file stopped
    | TargetUnreadable(error: ParseError)    // `get_info_dict` of the target file stopped
    | ChapterMissing(ch: int)                // `verify_paragraph_count` met a base chapter the target lacks
    | Compared(baseName: string, targetName: string, rows: seq<MismatchLine>,
               totalBase: nat, totalTarget: nat, linesBase: nat, linesTarget: nat)

  /** `main` after the two files have been read: the files are named after their stems,
      parsed with `\p`, `\id` and `\ip` opening paragraphs, and every base chapter whose
      paragraph count differs in the target is reported in base order, followed by the
      paragraph and line totals. The stems and the lines of each file are parameters. */
  method CompareMarkersMain(baseStem: string, targetStem: string, baseLines: seq<string>, targetLines: seq<string>)
    returns (r: CompareOutcome)
    ensures InfoOf(baseLines, CompareMarkers).Failure? ==>
              r == BaseUnreadable(InfoOf(baseLines, CompareMarkers).error)
    ensures InfoOf(baseLines, CompareMarkers).Success? && InfoOf(targetLines, CompareMarkers).Failure? ==>
              r == TargetUnreadable(InfoOf(targetLines, CompareMarkers).error)
    ensures InfoOf(baseLines, CompareMarkers).Success? && InfoOf(targetLines, CompareMarkers).Success? ==>
              var binfo := InfoOf(baseLines, CompareMarkers).value;
              var tinfo := InfoOf(targetLines, CompareMarkers).value;
              && WellFormed(binfo) && WellFormed(tinfo)
              && (r.ChapterMissing? || r.Compared?)
              && (r.ChapterMissing? <==> exists c :: c in binfo.m && c !in tinfo.m)
              && (r.ChapterMissing? ==> r.ch in binfo.m && r.ch !in tinfo.m)
              && (r.Compared? ==>
                    && (forall k | 0 <= k < |binfo.keys| :: binfo.keys[k] in tinfo.m)
                    && r.baseName == StripChars(baseStem, StemChars)
                    && r.targetName == StripChars(targetStem, StemChars)
                    && (r.rows == [] <==> CountsAgree(binfo, tinfo))
                    && var d := Differing(binfo.keys, binfo, tinfo);
                    && |r.rows| == |d|
                    && (forall i | 0 <= i < |d| ::
                          r.rows[i].ch == d[i] && d[i] in binfo.m && d[i] in tinfo.m
                          && r.rows[i].entry == MismatchOf(binfo.m[d[i]], tinfo.m[d[i]]))
                    && r.totalBase == TotalCount(binfo) && r.totalTarget == TotalCount(tinfo)
                    && r.linesBase == |baseLines| && r.linesTarget == |targetLines|)
  {
    var baseName := StripChars(baseStem, StemChars);
    var targetName := StripChars(targetStem, StemChars);
    var b := GetInfoDict(baseLines, CompareMarkers);
    if b.Failure? {
      return BaseUnreadable(b.error);
    }
    var t := GetInfoDict(targetLines, CompareMarkers);
    if t.Failure? {
      return TargetUnreadable(t.error);
    }
    var binfo, tinfo := b.value, t.value;
    InfoOfFacts(baseLines, CompareMarkers);
    InfoOfFacts(targetLines, CompareMarkers);
    var v := VerifyParagraphCount(binfo, tinfo);
    if v.Failure? {
      return ChapterMissing(v.error);
    }
    var mismatched := v.value;
    NoMismatchIffCountsAgree(binfo, tinfo);
    var rows := MismatchRows(mismatched);
    ReportRowsInBaseOrder(binfo, tinfo, mismatched, rows);
    var totalBase := GetTotalParagraphCount(binfo);
    var totalTarget := GetTotalParagraphCount(tinfo);
    return Compared(baseName, targetName, rows, totalBase, totalTarget, |baseLines|, |targetLines|);
  }
}
