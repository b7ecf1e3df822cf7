/** action-bible-conv.py: in the content XML of the Action Bible, a paragraph with at least three
    words from the English-only word list gets the English paragraph style `P2`; the
    paragraphs of each child of the body are counted as empty, English and other. */
module ActionBible {
  import opened Wrappers
  import opened Text
  import opened Hunspell

  /** The qualified name of the paragraph style attribute. */
  const PStyle: string := "{urn:oasis:names:tc:opendocument:xmlns:text:1.0}style-name"

  /** The style given to English paragraphs. */
  const EnglishStyle: string := "P2"

  /** The word a word-list line gives: the text before its first `/`, stripped. */
  function WordOf(line: string): string {
    Strip(UpTo(line, '/'))
  }

  /** A dictionary line `word/FLAGS`, or a bare `word`, gives the word. */
  lemma WordOfDictionaryLine(w: string, flags: string)
    requires IsWord(w) && '/' !in w
    ensures WordOf(w) == w
    ensures WordOf(w + "/" + flags) == w
  {
    var line := w + "/" + flags;
    UpToAt(w, '/', |w|);
    assert line[..|w|] == w;
    UpToAt(line, '/', |w|);
    assert LStrip(w) == w;
    assert RStrip(w) == w;
  }

  /** A line holding only whitespace before its first `/` gives the empty word: blank lines
      are not skipped. */
  lemma WordOfBlank(line: string)
    requires forall i | 0 <= i < |line| :: IsSpace(line[i])
    ensures WordOf(line) == ""
  {
    var u := UpTo(line, '/');
    UpToPrefix(line, '/');
    assert forall i | 0 <= i < |u| :: u[i] == line[i];
    LStripSuffix(u);
  }

  /** The words of one file's lines. */
  function LinesWords(lines: seq<string>): set<string> {
    if lines == [] then {} else LinesWords(lines[..|lines| - 1]) + {WordOf(lines[|lines| - 1])}
  }

  /** Whether `build_wordlist` reads a file for `lang`: the first two characters of its stem
      are the first two of `lang`. */
  predicate ReadFor(f: WordFile, lang: string) {
    Take(f.name.stem, 2) == Take(lang, 2)
  }

  /** The words `build_wordlist(dir, lang)` gathers from the files of the directory. */
  function WordlistOf(files: seq<WordFile>, lang: string): set<string> {
    if files == [] then {}
    else
      var f := files[|files| - 1];
      WordlistOf(files[..|files| - 1], lang) + if ReadFor(f, lang) then LinesWords(f.lines) else {}
  }

  /** The loop of `build_wordlist` over the lines of one file. */
  method ReadLines(lines: seq<string>, wordlist0: set<string>) returns (wordlist: set<string>)
    ensures wordlist == wordlist0 + LinesWords(lines)
  {
    wordlist := wordlist0;
    var j := 0;
    while j < |lines|
      invariant 0 <= j <= |lines|
      invariant wordlist == wordlist0 + LinesWords(lines[..j])
    {
      assert lines[..j + 1][..j] == lines[..j];
      wordlist := wordlist + {WordOf(lines[j])};
      j := j + 1;
    }
    assert lines[..j] == lines;
  }

  /** `build_wordlist(dir, lang)`, the directory given as its files in iteration order. The list
      made into a set and back is modelled as the set: only membership is used. */
  method BuildWordlist(files: seq<WordFile>, lang: string) returns (wordlist: set<string>)
    ensures wordlist == WordlistOf(files, lang)
  {
    wordlist := {};
    var i := 0;
    while i < |files|
      invariant 0 <= i <= |files|
      invariant wordlist == WordlistOf(files[..i], lang)
    {
      assert files[..i + 1][..i] == files[..i];
      var f := files[i];
      if ReadFor(f, lang) {
        wordlist := ReadLines(f.lines, wordlist);
      }
      i := i + 1;
    }
    assert files[..i] == files;
  }

  /** The words of one file are exactly the words of its lines. */
  lemma {:induction false} LinesWordsMembers(lines: seq<string>, w: string)
    ensures w in LinesWords(lines) <==> exists j | 0 <= j < |lines| :: WordOf(lines[j]) == w
  {
    if lines != [] {
      var init := lines[..|lines| - 1];
      LinesWordsMembers(init, w);
      assert forall j | 0 <= j < |init| :: init[j] == lines[j];
    }
  }

  /** A word is in the word list exactly when a line of a file read for `lang` gives it. */
  lemma {:induction false} WordlistMembers(files: seq<WordFile>, lang: string, w: string)
    ensures w in WordlistOf(files, lang) <==>
              exists i | 0 <= i < |files| :: ReadFor(files[i], lang) && w in LinesWords(files[i].lines)
  {
    if files != [] {
      var init := files[..|files| - 1];
      WordlistMembers(init, lang, w);
      assert forall i | 0 <= i < |init| :: init[i] == files[i];
    }
  }

  /** `eng_uniq_wordlist`: the English words that are not Sango words. */
  function EnglishOnly(eng: set<string>, sag: set<string>): (r: set<string>)
    ensures r <= eng && r !! sag
    ensures forall w | w in eng && w !in sag :: w in r
  {
    set w | w in eng && w !in sag
  }

  /** How many of `words`, lower-cased, are in the English-only list; a word counts each time
      it occurs. */
  function EnglishCount(words: seq<string>, engUniq: set<string>): (n: nat)
    ensures n <= |words|
  {
    if words == [] then 0
    else EnglishCount(words[..|words| - 1], engUniq) + if Lower(words[|words| - 1]) in engUniq then 1 else 0
  }

  /** Counting over a prefix never gives more than counting over all the words. */
  lemma {:induction false} EnglishCountPrefix(words: seq<string>, k: nat, engUniq: set<string>)
    requires k <= |words|
    ensures EnglishCount(words[..k], engUniq) <= EnglishCount(words, engUniq)
    decreases |words|
  {
    if k < |words| {
      var init := words[..|words| - 1];
      assert words[..k] == init[..k];
      EnglishCountPrefix(init, k, engUniq);
    } else {
      assert words[..k] == words;
    }
  }

  /** The scan of one paragraph's words: whether at least three are in the English-only list.
      The scan stops at the third. */
  method ScanWords(text: string, engUniq: set<string>) returns (english: bool)
    ensures english <==> EnglishCount(Words(text), engUniq) >= 3
  {
    var words := Words(text);
    var engWordCt := 0;
    english := false;
    var i := 0;
    while i < |words|
      invariant 0 <= i <= |words|
      invariant engWordCt == EnglishCount(words[..i], engUniq) && engWordCt <= 2
    {
      assert words[..i + 1][..i] == words[..i];
      if Lower(words[i]) in engUniq {
        engWordCt := engWordCt + 1;
        if engWordCt > 2 {
          EnglishCountPrefix(words, i + 1, engUniq);
          english := true;
          break;
        }
      }
      i := i + 1;
    }
    if !english {
      assert words[..i] == words;
    }
  }

  /** An XML paragraph element: its attributes, which the script may change, and its text, the
      empty string standing for no text. */
  class Element {
    var attrib: map<string, string>
    const text: string

    constructor (attrib: map<string, string>, text: string)
      ensures this.attrib == attrib && this.text == text
    {
      this.attrib := attrib;
      this.text := text;
    }
  }

  /** What the script reads of a paragraph: its attributes and text. */
  datatype Para = Para(attrib: map<string, string>, text: string)

  /** The paragraphs' attributes and texts, in order. */
  function Paras(ps: seq<Element>): (r: seq<Para>)
    reads set p | p in ps
    ensures |r| == |ps|
  {
    if ps == [] then [] else Paras(ps[..|ps| - 1]) + [Para(ps[|ps| - 1].attrib, ps[|ps| - 1].text)]
  }

  lemma {:induction false} ParasAt(ps: seq<Element>, i: nat)
    requires i < |ps|
    ensures Paras(ps)[i] == Para(ps[i].attrib, ps[i].text)
  {
    if i < |ps| - 1 {
      ParasAt(ps[..|ps| - 1], i);
    }
  }

  /** A paragraph the script looks at: it has attributes and text. */
  predicate Checked(p: Para) {
    |p.attrib| > 0 && p.text != ""
  }

  /** A paragraph the script marks as English. */
  predicate Tagged(p: Para, engUniq: set<string>) {
    Checked(p) && EnglishCount(Words(p.text), engUniq) >= 3
  }

  /** A paragraph's attributes after the script: the style set to `P2` when it is tagged. */
  function NewAttrib(p: Para, engUniq: set<string>): map<string, string> {
    if Tagged(p, engUniq) then p.attrib[PStyle := EnglishStyle] else p.attrib
  }

  /** Running the script again on its output restyles nothing more. */
  lemma RestyleIdempotent(p: Para, engUniq: set<string>)
    ensures NewAttrib(Para(NewAttrib(p, engUniq), p.text), engUniq) == NewAttrib(p, engUniq)
  {
    if Tagged(p, engUniq) {
      var m := NewAttrib(p, engUniq);
      assert PStyle in m;
      assert |m| > 0 by {
        assert m.Keys != {};
      }
    }
  }

  /** The counters of one child of the body: `total`, `ct`, `eng_paragraph_ct`,
      `null_paragraph_ct` and `other_paragraph_ct`. */
  datatype Stats = Stats(total: nat, ct: nat, english: nat, empty: nat, other: nat)

  /** The counters after one more paragraph `p`. */
  function Count(s: Stats, p: Para, engUniq: set<string>): Stats {
    if !Checked(p) then s.(ct := s.ct + 1, empty := s.empty + 1)
    else if Tagged(p, engUniq) then s.(ct := s.ct + 1, english := s.english + 1, other := s.other + 1)
    else s.(ct := s.ct + 1, other := s.other + 1)
  }

  /** The counters after paragraphs `ps`. */
  function Tally(ps: seq<Para>, total: nat, engUniq: set<string>): Stats {
    if ps == [] then Stats(total, 0, 0, 0, 0)
    else Count(Tally(ps[..|ps| - 1], total, engUniq), ps[|ps| - 1], engUniq)
  }

  /** Every paragraph is counted once, as empty or as other, and the English ones are among the
      others. */
  lemma {:induction false} TallyBalance(ps: seq<Para>, total: nat, engUniq: set<string>)
    ensures var s := Tally(ps, total, engUniq);
      s.ct == |ps| && s.empty + s.other == s.ct && s.english <= s.other && s.total == total
  {
    if ps != [] {
      TallyBalance(ps[..|ps| - 1], total, engUniq);
    }
  }

  /** The indices of the tagged paragraphs among the first `n`. */
  ghost function TaggedBelow(ps: seq<Para>, n: nat, engUniq: set<string>): set<nat>
    requires n <= |ps|
  {
    set i: nat | i < n && Tagged(ps[i], engUniq)
  }

  lemma TaggedBelowNext(ps: seq<Para>, n: nat, engUniq: set<string>)
    requires n < |ps|
    ensures TaggedBelow(ps, n + 1, engUniq) == TaggedBelow(ps, n, engUniq) + if Tagged(ps[n], engUniq) then {n} else {}
    ensures n !in TaggedBelow(ps, n, engUniq)
  {
  }

  lemma TaggedBelowPrefix(ps: seq<Para>, n: nat, engUniq: set<string>)
    requires n <= |ps|
    ensures TaggedBelow(ps[..n], n, engUniq) == TaggedBelow(ps, n, engUniq)
  {
    assert forall i | 0 <= i < n :: ps[..n][i] == ps[i];
  }

  /** The English count is the number of tagged paragraphs. */
  lemma {:induction false} TallyEnglish(ps: seq<Para>, total: nat, engUniq: set<string>)
    ensures Tally(ps, total, engUniq).english == |TaggedBelow(ps, |ps|, engUniq)|
  {
    if ps != [] {
      var n := |ps| - 1;
      var init := ps[..n];
      TallyEnglish(init, total, engUniq);
      TaggedBelowPrefix(ps, n, engUniq);
      TaggedBelowNext(ps, n, engUniq);
    }
  }

  /** One paragraph of the loop: scanned when it has attributes and text, and set to style `P2`
      when English. */
  method CheckParagraph(p: Element, stats0: Stats, engUniq: set<string>) returns (stats: Stats)
    modifies p
    ensures stats == Count(stats0, Para(old(p.attrib), p.text), engUniq)
    ensures p.attrib == NewAttrib(Para(old(p.attrib), p.text), engUniq)
  {
    stats := stats0.(ct := stats0.ct + 1);
    if |p.attrib| > 0 && p.text != "" {
      var english := ScanWords(p.text, engUniq);
      if english {
        stats := stats.(english := stats.english + 1);
        p.attrib := p.attrib[PStyle := EnglishStyle];
      }
      stats := stats.(other := stats.other + 1);
    } else {
      stats := stats.(empty := stats.empty + 1);
    }
  }

  /** The loop over the paragraphs of one child of the body: the counters restart, every
      paragraph with attributes and text is scanned and, when English, set to style `P2`. The
      paragraphs are distinct elements. */
  method CheckParagraphs(paragraphs: seq<Element>, engUniq: set<string>) returns (stats: Stats)
    requires forall i, j | 0 <= i < j < |paragraphs| :: paragraphs[i] != paragraphs[j]
    modifies set p | p in paragraphs
    ensures stats == Tally(old(Paras(paragraphs)), |paragraphs|, engUniq)
    ensures forall i | 0 <= i < |paragraphs| ::
              paragraphs[i].attrib == NewAttrib(old(Paras(paragraphs))[i], engUniq)
  {
    ghost var ps := Paras(paragraphs);
    forall i | 0 <= i < |paragraphs|
      ensures ps[i] == Para(paragraphs[i].attrib, paragraphs[i].text)
    {
      ParasAt(paragraphs, i);
    }
    stats := Stats(|paragraphs|, 0, 0, 0, 0);
    var i := 0;
    while i < |paragraphs|
      invariant 0 <= i <= |paragraphs|
      invariant stats == Tally(ps[..i], |paragraphs|, engUniq)
      invariant forall k | 0 <= k < |paragraphs| ::
                  paragraphs[k].attrib == if k < i then NewAttrib(ps[k], engUniq) else ps[k].attrib
    {
      assert ps[..i + 1][..i] == ps[..i];
      label Before:
      stats := CheckParagraph(paragraphs[i], stats, engUniq);
      forall k | 0 <= k < |paragraphs| && k != i
        ensures paragraphs[k].attrib == old@Before(paragraphs[k].attrib)
      {
        assert paragraphs[k] != paragraphs[i];
      }
      i := i + 1;
    }
    assert ps[..i] == ps;
  }

  /** No element appears twice among the children of the body. */
  predicate DistinctElements(containers: seq<seq<Element>>) {
    forall i, a, j, b | 0 <= i < |containers| && 0 <= a < |containers[i]| && 0 <= j < |containers| && 0 <= b < |containers[j]| ::
      (i, a) != (j, b) ==> containers[i][a] != containers[j][b]
  }

  /** Elements whose attributes and texts are those of `expected` read as `expected`. */
  lemma {:induction false} ParasOf(ps: seq<Element>, expected: seq<Para>)
    requires |expected| == |ps|
    requires forall a | 0 <= a < |ps| :: expected[a] == Para(ps[a].attrib, ps[a].text)
    ensures Paras(ps) == expected
  {
    if ps != [] {
      var n := |ps| - 1;
      ParasOf(ps[..n], expected[..n]);
    }
  }

  /** The attributes and texts of the paragraphs of every child of the body. */
  ghost function AllParas(cs: seq<seq<Element>>): (r: seq<seq<Para>>)
    reads set i, a | 0 <= i < |cs| && 0 <= a < |cs[i]| :: cs[i][a]
    ensures |r| == |cs|
    ensures forall k | 0 <= k < |cs| :: |r[k]| == |cs[k]|
    ensures forall k, a | 0 <= k < |cs| && 0 <= a < |cs[k]| :: r[k][a] == Para(cs[k][a].attrib, cs[k][a].text)
  {
    if cs == [] then []
    else
      var n := |cs| - 1;
      forall a | 0 <= a < |cs[n]| ensures Paras(cs[n])[a] == Para(cs[n][a].attrib, cs[n][a].text) {
        ParasAt(cs[n], a);
      }
      AllParas(cs[..n]) + [Paras(cs[n])]
  }

  /** One child of the body, checked by `CheckParagraphs`; the other children are untouched. */
  method CheckContainer(containers: seq<seq<Element>>, i: nat, engUniq: set<string>, ghost ps: seq<Para>)
    returns (stats: Stats)
    requires DistinctElements(containers) && i < |containers|
    requires ps == Paras(containers[i])
    modifies set p | p in containers[i]
    ensures stats == Tally(ps, |containers[i]|, engUniq)
    ensures forall a | 0 <= a < |containers[i]| :: containers[i][a].attrib == NewAttrib(ps[a], engUniq)
    ensures forall k, a | 0 <= k < |containers| && k != i && 0 <= a < |containers[k]| ::
              containers[k][a].attrib == old(containers[k][a].attrib)
  {
    var c := containers[i];
    assert forall a, b | 0 <= a < b < |c| :: c[a] != c[b] by {
      forall a, b | 0 <= a < b < |c| ensures c[a] != c[b] {
        assert (i, a) != (i, b);
      }
    }
    stats := CheckParagraphs(c, engUniq);
    forall k, a | 0 <= k < |containers| && k != i && 0 <= a < |containers[k]|
      ensures containers[k][a] !in c
    {
      forall b | 0 <= b < |c| ensures containers[k][a] != c[b] {
        assert (k, a) != (i, b);
      }
    }
  }

  /** `before` has the shape and the texts of the children of the body. */
  predicate SameTexts(containers: seq<seq<Element>>, before: seq<seq<Para>>) {
    |before| == |containers| &&
    forall k | 0 <= k < |containers| ::
      |before[k]| == |containers[k]| && forall a | 0 <= a < |containers[k]| :: before[k][a].text == containers[k][a].text
  }

  /** The first `i` children of the body are restyled from `before`, the others untouched. */
  ghost predicate ConvertedUpTo(containers: seq<seq<Element>>, before: seq<seq<Para>>, i: nat, engUniq: set<string>)
    requires SameTexts(containers, before)
    reads set k, a | 0 <= k < |containers| && 0 <= a < |containers[k]| :: containers[k][a]
  {
    forall k, a | 0 <= k < |containers| && 0 <= a < |containers[k]| ::
      containers[k][a].attrib == if k < i then NewAttrib(before[k][a], engUniq) else before[k][a].attrib
  }

  /** One turn of the loop over the children of the body. */
  method ConvertStep(containers: seq<seq<Element>>, i: nat, engUniq: set<string>, ghost before: seq<seq<Para>>)
    returns (stats: Stats)
    requires DistinctElements(containers) && i < |containers|
    requires SameTexts(containers, before) && ConvertedUpTo(containers, before, i, engUniq)
    modifies set k, a | 0 <= k < |containers| && 0 <= a < |containers[k]| :: containers[k][a]
    ensures ConvertedUpTo(containers, before, i + 1, engUniq)
    ensures stats == Tally(before[i], |containers[i]|, engUniq)
  {
    ParasOf(containers[i], before[i]);
    stats := CheckContainer(containers, i, engUniq, before[i]);
  }

  /** The loop over the children of the body. Every paragraph is checked and restyled as in
      `CheckParagraphs`; the counters printed at the end are those of the last child, and there
      are none when the body has no children. */
  method ConvertBody(containers: seq<seq<Element>>, engUniq: set<string>) returns (summary: Option<Stats>)
    requires DistinctElements(containers)
    modifies set i, a | 0 <= i < |containers| && 0 <= a < |containers[i]| :: containers[i][a]
    ensures containers == [] ==> summary == None
    ensures containers != [] ==>
              summary == Some(Tally(old(Paras(containers[|containers| - 1])), |containers[|containers| - 1]|, engUniq))
    ensures forall i, a | 0 <= i < |containers| && 0 <= a < |containers[i]| ::
              containers[i][a].attrib == NewAttrib(old(Paras(containers[i]))[a], engUniq)
  {
    ghost var before := AllParas(containers);
    forall k | 0 <= k < |containers| ensures before[k] == old(Paras(containers[k])) {
      ParasOf(containers[k], before[k]);
    }
    summary := None;
    var i := 0;
    while i < |containers|
      invariant 0 <= i <= |containers|
      invariant i == 0 ==> summary == None
      invariant i > 0 ==> summary == Some(Tally(before[i - 1], |containers[i - 1]|, engUniq))
      invariant ConvertedUpTo(containers, before, i, engUniq)
    {
      var stats := ConvertStep(containers, i, engUniq, before);
      summary := Some(stats);
      ghost var ps, n := before[i], |containers[i]|;
      i := i + 1;
      assert before[i - 1] == ps && |containers[i - 1]| == n;
    }
  }
}
