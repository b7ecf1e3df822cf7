/** update-odt-lg.py: every paragraph of an ODT document gets the paragraph style named after
    the language its words are judged to be in. A paragraph whose words rank no language
    clearly keeps the language of the paragraph before it. */
module UpdateOdtLang {
  import opened Wrappers
  import opened Ordered
  import opened Text
  import opened Hunspell
  import opened Classifier

  /** The languages `main` configures, in this order. */
  const Languages: seq<string> := ["en_US", "fr_FR", "sg_CF"]

  /** The choice `determine_language` makes from the number of words, the top-ranked
      languages and the language carried from the previous paragraph. */
  function CarryForward(total: nat, tied: seq<string>, last: Option<string>): Option<string> {
    if |tied| == 0 || total == 0 then last
    else if |tied| == 1 then Some(tied[0])
    else if total == 1 then last
    else if "en_US" in tied then Some("en_US")
    else Some(tied[0])
  }

  /** The language `determine_language` gives `words` after a paragraph in `last`. */
  function Judged(words: seq<string>, last: Option<string>, hsDics: Dictionaries, spell: Spell): Option<string>
    requires hsDics.Valid() && hsDics.keys != []
  {
    CarryForward(|words|, Ranking(words, hsDics, spell), last)
  }

  /** `determine_language(words, last_text_lang, hs_dics)`. Python's `max` of no counts would
      raise, so at least one language is configured. */
  method DetermineLanguage(words: seq<string>, last: Option<string>, hsDics: Dictionaries, spell: Spell)
    returns (langCode: Option<string>)
    requires hsDics.Valid() && hsDics.keys != []
    ensures langCode == Judged(words, last, hsDics, spell)
  {
    var total, counts := CountOccurrencesByLg(words, hsDics, spell);
    var maxCount := MaxCount(counts.keys, counts.m);
    var langCodes := TiedLanguages(counts, maxCount);
    var lcLength := |langCodes|;
    if lcLength == 0 || total == 0 {
      langCode := last;
    } else if lcLength == 1 {
      langCode := Some(langCodes[0]);
    } else if total == 1 {
      // One word several languages accept: keep the previous language.
      langCode := last;
    } else if "en_US" in langCodes {
      langCode := Some("en_US");
    } else {
      langCode := Some(langCodes[0]);
    }
  }

  /** A paragraph without words keeps the carried language. */
  lemma NoWordsCarries(last: Option<string>, hsDics: Dictionaries, spell: Spell)
    requires hsDics.Valid() && hsDics.keys != []
    ensures Judged([], last, hsDics, spell) == last
  {
  }

  /** A language no other equals or outcounts is chosen. */
  lemma UniqueTopChosen(words: seq<string>, last: Option<string>, hsDics: Dictionaries, spell: Spell, lc: string)
    requires hsDics.Valid() && hsDics.keys != [] && words != []
    requires TopRanked(lc, words, hsDics, spell)
    requires forall o | TopRanked(o, words, hsDics, spell) :: o == lc
    ensures Judged(words, last, hsDics, spell) == Some(lc)
  {
    var r := Ranking(words, hsDics, spell);
    var i := RankedFirst(words, hsDics, spell);
    if |r| >= 2 {
      RankedIff(words, hsDics, spell, r[1]);
      assert r[1] in r;
      assert Distinct(r) by {
        RankingFacts(words, hsDics, spell);
      }
    }
  }

  /** A single word that two languages share keeps the carried language. */
  lemma OneWordTieCarries(words: seq<string>, last: Option<string>, hsDics: Dictionaries, spell: Spell, a: string, b: string)
    requires hsDics.Valid() && hsDics.keys != [] && |words| == 1
    requires a != b && TopRanked(a, words, hsDics, spell) && TopRanked(b, words, hsDics, spell)
    ensures Judged(words, last, hsDics, spell) == last
  {
    RankedTwo(words, hsDics, spell, a, b);
  }

  /** Two or more words with two languages tied at the top: `en_US` when it is among them,
      otherwise the first of them in configuration order. */
  lemma TieOfManyWords(words: seq<string>, last: Option<string>, hsDics: Dictionaries, spell: Spell, a: string, b: string)
    requires hsDics.Valid() && hsDics.keys != [] && |words| >= 2
    requires a != b && TopRanked(a, words, hsDics, spell) && TopRanked(b, words, hsDics, spell)
    ensures TopRanked("en_US", words, hsDics, spell) ==> Judged(words, last, hsDics, spell) == Some("en_US")
    ensures !TopRanked("en_US", words, hsDics, spell) ==>
              exists i | 0 <= i < |hsDics.keys| :: Judged(words, last, hsDics, spell) == Some(hsDics.keys[i])
                && TopRanked(hsDics.keys[i], words, hsDics, spell)
                && forall k | 0 <= k < i :: !TopRanked(hsDics.keys[k], words, hsDics, spell)
  {
    RankedTwo(words, hsDics, spell, a, b);
    RankedIff(words, hsDics, spell, "en_US");
    var i := RankedFirst(words, hsDics, spell);
    var r := Ranking(words, hsDics, spell);
    if "en_US" in r {
      assert Judged(words, last, hsDics, spell) == Some("en_US");
    } else {
      assert Judged(words, last, hsDics, spell) == Some(hsDics.keys[i]);
    }
  }

  /** When no dictionary accepts any of two or more words and two or more languages are
      configured, every language ties at 0: the choice is `en_US` when configured, otherwise
      the first configured language. */
  lemma NothingAccepted(words: seq<string>, last: Option<string>, hsDics: Dictionaries, spell: Spell)
    requires hsDics.Valid() && |hsDics.keys| >= 2 && |words| >= 2
    requires forall lc | lc in hsDics.m :: CountFor(words, hsDics.m[lc], spell) == 0
    ensures Judged(words, last, hsDics, spell) == Some(if "en_US" in hsDics.m then "en_US" else hsDics.keys[0])
  {
    var k0, k1 := hsDics.keys[0], hsDics.keys[1];
    assert TopRanked(k0, words, hsDics, spell) && TopRanked(k1, words, hsDics, spell);
    RankedTwo(words, hsDics, spell, k0, k1);
    var i := RankedFirst(words, hsDics, spell);
    var r := Ranking(words, hsDics, spell);
    RankedIff(words, hsDics, spell, "en_US");
    if "en_US" in hsDics.m {
      assert TopRanked("en_US", words, hsDics, spell);
      assert "en_US" in r;
    } else {
      assert "en_US" !in r;
      assert i == 0;
      assert r[0] == hsDics.keys[0];
    }
  }

  /** The language chosen is the carried one or a configured language no other outcounts. */
  lemma JudgedIsCarriedOrTop(words: seq<string>, last: Option<string>, hsDics: Dictionaries, spell: Spell)
    requires hsDics.Valid() && hsDics.keys != []
    ensures var j := Judged(words, last, hsDics, spell);
      j == last || (j.Some? && j.value in hsDics.m && TopRanked(j.value, words, hsDics, spell))
  {
    var i := RankedFirst(words, hsDics, spell);
    RankedIff(words, hsDics, spell, "en_US");
  }

  /** A `text:p` element: its child nodes, each the text of a node that has `data` or `None`
      for one that has not, and its paragraph style. */
  class Paragraph {
    const children: seq<Option<string>>
    var styleName: string

    constructor (children: seq<Option<string>>, styleName: string)
      ensures this.children == children && this.styleName == styleName
    {
      this.children := children;
      this.styleName := styleName;
    }
  }

  /** The words of a paragraph: the split text of its child nodes that have text, in order. */
  function ChildWords(children: seq<Option<string>>): seq<string> {
    if children == [] then []
    else
      var n := children[|children| - 1];
      ChildWords(children[..|children| - 1]) + if n.Some? then Words(n.value) else []
  }

  /** The loop of `update_paragraphs_styles` that gathers a paragraph's words, skipping nodes
      without `data`. */
  method ParagraphWords(children: seq<Option<string>>) returns (words: seq<string>)
    ensures words == ChildWords(children)
  {
    words := [];
    var i := 0;
    while i < |children|
      invariant 0 <= i <= |children|
      invariant words == ChildWords(children[..i])
    {
      assert children[..i + 1][..i] == children[..i];
      var n := children[i];
      if n.Some? {
        words := words + Words(n.value);
      }
      i := i + 1;
    }
    assert children[..i] == children;
  }

  /** Every gathered word is a word of one of the text nodes. */
  lemma {:induction false} ChildWordsFrom(children: seq<Option<string>>, w: string)
    ensures w in ChildWords(children) <==> exists i | 0 <= i < |children| :: children[i].Some? && w in Words(children[i].value)
  {
    if children != [] {
      var init := children[..|children| - 1];
      ChildWordsFrom(init, w);
      assert forall i | 0 <= i < |init| :: init[i] == children[i];
    }
  }

  /** One row of the results: `f"{first_words} ..."` and the language. */
  datatype ResultRow = ResultRow(firstWords: string, langCode: Option<string>)

  /** `' '.join(words[:4])` for a paragraph with words, `None` for one without. */
  function FirstWordsLabel(words: seq<string>): string {
    (if words == [] then "None" else Join(words[..if |words| < 4 then |words| else 4])) + " ..."
  }

  /** The label of a paragraph with words splits back into its first four words. */
  lemma LabelReadsFirstWords(words: seq<string>)
    requires words != [] && forall w | w in words :: IsWord(w)
    ensures var n := if |words| < 4 then |words| else 4;
      exists s :: FirstWordsLabel(words) == s + " ..." && Words(s) == words[..n]
  {
    var n := if |words| < 4 then |words| else 4;
    assert forall w | w in words[..n] :: w in words;
    WordsOfJoin(words[..n]);
  }

  /** The language carried out of a list of results: the last one's, `None` before any. */
  function LastLang(rows: seq<ResultRow>): Option<string> {
    if rows == [] then None else rows[|rows| - 1].langCode
  }

  /** The row for one paragraph after a paragraph in `last`. */
  function RowFor(words: seq<string>, last: Option<string>, hsDics: Dictionaries, spell: Spell): ResultRow
    requires hsDics.Valid() && hsDics.keys != []
  {
    if words == [] then ResultRow(FirstWordsLabel(words), None)
    else ResultRow(FirstWordsLabel(words), Judged(words, last, hsDics, spell))
  }

  /** The rows `update_paragraphs_styles` produces for paragraphs with words `ws`. */
  function Results(ws: seq<seq<string>>, hsDics: Dictionaries, spell: Spell): (rows: seq<ResultRow>)
    requires hsDics.Valid() && hsDics.keys != []
    ensures |rows| == |ws|
  {
    if ws == [] then []
    else
      var prev := Results(ws[..|ws| - 1], hsDics, spell);
      prev + [RowFor(ws[|ws| - 1], LastLang(prev), hsDics, spell)]
  }

  /** Each paragraph is judged after the language of the paragraph just before it, the first
      after none; a paragraph without words yields `None`, which the next one then carries. */
  lemma {:induction false} ResultsAt(ws: seq<seq<string>>, hsDics: Dictionaries, spell: Spell, i: nat)
    requires hsDics.Valid() && hsDics.keys != [] && i < |ws|
    ensures var rows := Results(ws, hsDics, spell);
      rows[i] == RowFor(ws[i], if i == 0 then None else rows[i - 1].langCode, hsDics, spell)
    ensures ws[i] == [] ==> Results(ws, hsDics, spell)[i].langCode == None
  {
    var rows := Results(ws, hsDics, spell);
    var init := ws[..|ws| - 1];
    var prev := Results(init, hsDics, spell);
    assert rows == prev + [RowFor(ws[|ws| - 1], LastLang(prev), hsDics, spell)];
    if i < |ws| - 1 {
      ResultsAt(init, hsDics, spell, i);
      assert init[i] == ws[i];
      assert rows[i] == prev[i];
    } else {
      assert rows[i] == RowFor(ws[i], LastLang(prev), hsDics, spell);
    }
    if i > 0 {
      assert rows[i - 1] == prev[i - 1];
    }
  }

  /** Every language in the results is a configured one. */
  lemma {:induction false} ResultsConfigured(ws: seq<seq<string>>, hsDics: Dictionaries, spell: Spell)
    requires hsDics.Valid() && hsDics.keys != []
    ensures forall r | r in Results(ws, hsDics, spell) && r.langCode.Some? :: r.langCode.value in hsDics.m
  {
    if ws != [] {
      var init := ws[..|ws| - 1];
      var prev := Results(init, hsDics, spell);
      ResultsConfigured(init, hsDics, spell);
      if ws[|ws| - 1] != [] {
        JudgedIsCarriedOrTop(ws[|ws| - 1], LastLang(prev), hsDics, spell);
      }
    }
  }

  /** A language Python treats as true: present and not the empty string. */
  predicate Truthy(lang: Option<string>) {
    lang.Some? && lang.value != ""
  }

  /** The words of every paragraph. */
  function ParagraphsWords(paragraphs: seq<Paragraph>): (ws: seq<seq<string>>)
    ensures |ws| == |paragraphs|
  {
    seq(|paragraphs|, i requires 0 <= i < |paragraphs| => ChildWords(paragraphs[i].children))
  }

  /** One pass of the paragraph loop of `update_paragraphs_styles`: the paragraph's row, and
      its style set to the language found when that is truthy. */
  method UpdateParagraphStyle(p: Paragraph, lastTextLang: Option<string>, hsDics: Dictionaries, spell: Spell)
    returns (row: ResultRow)
    requires hsDics.Valid() && hsDics.keys != []
    modifies p
    ensures row == RowFor(ChildWords(p.children), lastTextLang, hsDics, spell)
    ensures p.styleName == if Truthy(row.langCode) then row.langCode.value else old(p.styleName)
  {
    var words := ParagraphWords(p.children);
    var langCode: Option<string>;
    if words != [] {
      langCode := DetermineLanguage(words, lastTextLang, hsDics, spell);
      if Truthy(langCode) {
        p.styleName := langCode.value;
      }
    } else {
      langCode := None;
    }
    row := ResultRow(FirstWordsLabel(words), langCode);
  }

  /** `update_paragraphs_styles(doc, hs_dics)`: one row per paragraph, in document order; a
      paragraph whose language is truthy takes the style named after it, every other keeps
      its style. The paragraphs are the distinct `text:p` elements of the document. */
  method UpdateParagraphsStyles(paragraphs: seq<Paragraph>, hsDics: Dictionaries, spell: Spell)
    returns (results: seq<ResultRow>)
    requires hsDics.Valid() && hsDics.keys != []
    requires forall i, j | 0 <= i < j < |paragraphs| :: paragraphs[i] != paragraphs[j]
    modifies set p | p in paragraphs
    ensures results == Results(ParagraphsWords(paragraphs), hsDics, spell)
    ensures forall i | 0 <= i < |paragraphs| ::
              paragraphs[i].styleName == StyleAfter(old(paragraphs[i].styleName), results, i)
  {
    ghost var ws := ParagraphsWords(paragraphs);
    results := [];
    var lastTextLang: Option<string> := None;
    var i := 0;
    while i < |paragraphs|
      invariant 0 <= i <= |paragraphs|
      invariant results == Results(ws[..i], hsDics, spell)
      invariant lastTextLang == LastLang(results)
      invariant forall k | 0 <= k < |paragraphs| ::
                  paragraphs[k].styleName == StyleAfter(old(paragraphs[k].styleName), results, k)
    {
      ResultsStep(ws, hsDics, spell, i);
      label Before:
      var row := UpdateParagraphStyle(paragraphs[i], lastTextLang, hsDics, spell);
      forall k | 0 <= k < |paragraphs| && k != i
        ensures paragraphs[k].styleName == old@Before(paragraphs[k].styleName)
      {
        assert paragraphs[k] != paragraphs[i];
      }
      ghost var rows0 := results;
      lastTextLang := row.langCode;
      results := results + [row];
      forall k | 0 <= k < |paragraphs|
        ensures paragraphs[k].styleName == StyleAfter(old(paragraphs[k].styleName), results, k)
      {
        if k != i {
          assert StyleAfter(old(paragraphs[k].styleName), results, k) == StyleAfter(old(paragraphs[k].styleName), rows0, k);
        }
      }
      i := i + 1;
    }
    assert ws[..i] == ws;
  }

  /** A paragraph's style once the rows `rows` are out: the language of its row when that row
      exists and is truthy, otherwise the style it had. */
  function StyleAfter(style0: string, rows: seq<ResultRow>, k: nat): string {
    if k < |rows| && Truthy(rows[k].langCode) then rows[k].langCode.value else style0
  }

  lemma ResultsStep(ws: seq<seq<string>>, hsDics: Dictionaries, spell: Spell, i: nat)
    requires hsDics.Valid() && hsDics.keys != [] && i < |ws|
    ensures Results(ws[..i + 1], hsDics, spell)
              == Results(ws[..i], hsDics, spell) + [RowFor(ws[i], LastLang(Results(ws[..i], hsDics, spell)), hsDics, spell)]
  {
    assert ws[..i + 1][..i] == ws[..i];
  }
}
