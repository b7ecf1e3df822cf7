/** hs.py: choosing the two files a hunspell dictionary is loaded from, and reading a plain
    word list. Hunspell itself is not part of this model: a loaded dictionary is named by the
    files it was loaded from, and whether it accepts a word is left to the classifier's
    `spell` parameter. A directory is the list of its entries in the order `iterdir` yields
    them; a file is the list of its lines. */
module Hunspell {
  import opened Wrappers
  import opened Text

  /** A directory entry as `Path.stem` and `Path.suffix` see it. */
  datatype FileName = FileName(stem: string, suffix: string)

  /** `hunspell.HunSpell(dic, aff)`: a dictionary loaded from a `.dic` and an `.aff` file. */
  datatype Dictionary = HunSpell(dic: FileName, aff: FileName)

  predicate Named(f: FileName, langCode: string, suffix: string) {
    f.stem == langCode && f.suffix == suffix
  }

  /** The position of the last entry of `files` with the given stem and suffix: a later
      entry replaces an earlier one. */
  function LastNamed(files: seq<FileName>, langCode: string, suffix: string): (r: Option<nat>)
    ensures r.None? ==> forall i | 0 <= i < |files| :: !Named(files[i], langCode, suffix)
    ensures r.Some? ==> r.value < |files| && Named(files[r.value], langCode, suffix)
                          && forall j | r.value < j < |files| :: !Named(files[j], langCode, suffix)
  {
    if files == [] then None
    else if Named(files[|files| - 1], langCode, suffix) then Some(|files| - 1)
    else LastNamed(files[..|files| - 1], langCode, suffix)
  }

  lemma LastNamedStep(files: seq<FileName>, i: nat, langCode: string, suffix: string)
    requires i < |files|
    ensures LastNamed(files[..i + 1], langCode, suffix)
            == if Named(files[i], langCode, suffix) then Some(i) else LastNamed(files[..i], langCode, suffix)
  {
    assert files[..i + 1][..i] == files[..i];
  }

  /** The entry at a position found, if one was. */
  function Found(files: seq<FileName>, at: Option<nat>): Option<FileName> {
    if at.Some? && at.value < |files| then Some(files[at.value]) else None
  }

  /** `get_hs_dic(dir, lang_code)`: a dictionary is loaded only when the directory holds both
      a `.aff` and a `.dic` file whose stem is `lang_code`; of several, the last listed wins. */
  method GetHsDic(files: seq<FileName>, langCode: string) returns (hsDic: Option<Dictionary>)
    ensures hsDic.Some? <==> LastNamed(files, langCode, ".aff").Some? && LastNamed(files, langCode, ".dic").Some?
    ensures hsDic.Some? ==>
              hsDic.value == HunSpell(files[LastNamed(files, langCode, ".dic").value], files[LastNamed(files, langCode, ".aff").value])
  {
    var aff: Option<FileName> := None;
    var dic: Option<FileName> := None;
    var i := 0;
    while i < |files|
      invariant 0 <= i <= |files|
      invariant aff == Found(files, LastNamed(files[..i], langCode, ".aff"))
      invariant dic == Found(files, LastNamed(files[..i], langCode, ".dic"))
    {
      var f := files[i];
      LastNamedStep(files, i, langCode, ".aff");
      LastNamedStep(files, i, langCode, ".dic");
      if f.stem == langCode {
        if f.suffix == ".aff" {
          aff := Some(f);
        } else if f.suffix == ".dic" {
          dic := Some(f);
        }
      }
      i := i + 1;
    }
    assert files[..i] == files;
    if aff.Some? && dic.Some? {
      hsDic := Some(HunSpell(dic.value, aff.value));
    } else {
      hsDic := None;
    }
  }

  /** A file of a word-list directory: its name and its lines. */
  datatype WordFile = WordFile(name: FileName, lines: seq<string>)

  /** What `build_wordlist` makes of one line: nothing for a blank line, a reported
      `IndexError` for a line with no word before its first `/`, or a word. */
  datatype LineEntry = Blank | Unreadable(line: string) | Entry(word: string)

  /** The first whitespace-separated token of the stripped line's text before its first `/`. */
  function EntryOf(line: string): LineEntry {
    var l := Strip(line);
    if l == [] then Blank
    else
      var tokens := Words(UpTo(l, '/'));
      if tokens == [] then Unreadable(l) else Entry(tokens[0])
  }

  /** Blank lines are skipped, an unreadable line is reported stripped, and an entry is a
      word without whitespace or `/`. */
  lemma EntryOfFacts(line: string)
    ensures EntryOf(line).Blank? <==> Strip(line) == []
    ensures EntryOf(line).Unreadable? ==> EntryOf(line).line == Strip(line) && Words(UpTo(Strip(line), '/')) == []
    ensures EntryOf(line).Entry? ==> IsWord(EntryOf(line).word) && '/' !in EntryOf(line).word
  {
    var l := Strip(line);
    if l != [] {
      var tokens := Words(UpTo(l, '/'));
      if tokens != [] {
        WordsWithin(UpTo(l, '/'));
        UpToPrefix(l, '/');
        assert tokens[0] in tokens;
      }
    }
  }

  /** What each line of a file yields. */
  function Entries(lines: seq<string>): (es: seq<LineEntry>)
    ensures |es| == |lines| && forall j | 0 <= j < |lines| :: es[j] == EntryOf(lines[j])
  {
    seq(|lines|, j requires 0 <= j < |lines| => EntryOf(lines[j]))
  }

  /** The words a run of lines contributes. */
  function EntryWords(es: seq<LineEntry>): set<string> {
    if es == [] then {}
    else EntryWords(es[..|es| - 1]) + if es[|es| - 1].Entry? then {es[|es| - 1].word} else {}
  }

  /** The lines a run of lines reports, in order. */
  function EntryReported(es: seq<LineEntry>): seq<string> {
    if es == [] then []
    else EntryReported(es[..|es| - 1]) + if es[|es| - 1].Unreadable? then [es[|es| - 1].line] else []
  }

  /** One more line read onto what was gathered so far. */
  lemma EntriesStep(es: seq<LineEntry>, k: nat, words0: set<string>, reported0: seq<string>)
    requires k < |es|
    ensures words0 + EntryWords(es[..k + 1]) == (words0 + EntryWords(es[..k])) + if es[k].Entry? then {es[k].word} else {}
    ensures reported0 + EntryReported(es[..k + 1])
            == (reported0 + EntryReported(es[..k])) + if es[k].Unreadable? then [es[k].line] else []
  {
    assert es[..k + 1][..k] == es[..k];
    Associative(reported0, EntryReported(es[..k]), if es[k].Unreadable? then [es[k].line] else []);
  }

  lemma Associative<T>(a: seq<T>, b: seq<T>, c: seq<T>)
    ensures a + (b + c) == (a + b) + c
  {
  }

  /** The words a file contributes. */
  function FileWords(lines: seq<string>): set<string> {
    EntryWords(Entries(lines))
  }

  /** The lines a file reports, in order. */
  function FileReported(lines: seq<string>): seq<string> {
    EntryReported(Entries(lines))
  }

  /** `f.stem[:5] == lang`: the files `build_wordlist` reads. */
  predicate ListsLanguage(f: WordFile, lang: string) {
    Take(f.name.stem, 5) == lang
  }

  function Wordlist(files: seq<WordFile>, lang: string): set<string> {
    if files == [] then {}
    else
      var f := files[|files| - 1];
      Wordlist(files[..|files| - 1], lang) + if ListsLanguage(f, lang) then FileWords(f.lines) else {}
  }

  function Reported(files: seq<WordFile>, lang: string): seq<string> {
    if files == [] then []
    else
      var f := files[|files| - 1];
      Reported(files[..|files| - 1], lang) + if ListsLanguage(f, lang) then FileReported(f.lines) else []
  }

  /** The lines of one file added to the word set; unreadable lines are reported and skipped. */
  method ReadWordFile(lines: seq<string>, wordlist0: set<string>, reported0: seq<string>)
    returns (wordlist: set<string>, reported: seq<string>)
    ensures wordlist == wordlist0 + FileWords(lines)
    ensures reported == reported0 + FileReported(lines)
  {
    wordlist, reported := wordlist0, reported0;
    ghost var es := Entries(lines);
    var k := 0;
    while k < |lines|
      invariant 0 <= k <= |lines|
      invariant wordlist == wordlist0 + EntryWords(es[..k])
      invariant reported == reported0 + EntryReported(es[..k])
    {
      var e := EntryOf(lines[k]);
      EntriesStep(es, k, wordlist0, reported0);
      if e.Unreadable? {
        reported := reported + [e.line];
      } else if e.Entry? {
        wordlist := wordlist + {e.word};
      }
      k := k + 1;
    }
    assert es[..k] == es;
  }

  /** `build_wordlist(dir, lang)`: the words of the files whose stem's first five characters
      (the whole stem, if it is shorter) are `lang`, together with the lines reported as
      unreadable. */
  method BuildWordlist(files: seq<WordFile>, lang: string) returns (wordlist: set<string>, reported: seq<string>)
    ensures wordlist == Wordlist(files, lang)
    ensures reported == Reported(files, lang)
  {
    wordlist, reported := {}, [];
    var i := 0;
    while i < |files|
      invariant 0 <= i <= |files|
      invariant wordlist == Wordlist(files[..i], lang)
      invariant reported == Reported(files[..i], lang)
    {
      assert files[..i + 1][..i] == files[..i];
      var f := files[i];
      if Take(f.name.stem, 5) == lang {
        wordlist, reported := ReadWordFile(f.lines, wordlist, reported);
      }
      i := i + 1;
    }
    assert files[..i] == files;
  }

  /** A word is among the words of a run of lines exactly when one of them yields it. */
  lemma {:induction false} EntryWordsMembers(es: seq<LineEntry>, w: string)
    ensures w in EntryWords(es) <==> exists j | 0 <= j < |es| :: es[j] == Entry(w)
  {
    if es != [] {
      var init := es[..|es| - 1];
      EntryWordsMembers(init, w);
      assert forall j | 0 <= j < |init| :: init[j] == es[j];
    }
  }

  /** A word is in a file's list exactly when one of its lines yields it. */
  lemma FileWordsMembers(lines: seq<string>, w: string)
    ensures w in FileWords(lines) <==> exists j | 0 <= j < |lines| :: EntryOf(lines[j]) == Entry(w)
  {
    EntryWordsMembers(Entries(lines), w);
  }

  /** The word list holds exactly the words of the files of `lang`: only those files are
      read, and a word met twice is kept once. */
  lemma {:induction false} WordlistMembers(files: seq<WordFile>, lang: string, w: string)
    ensures w in Wordlist(files, lang) <==>
              exists i | 0 <= i < |files| :: ListsLanguage(files[i], lang) && w in FileWords(files[i].lines)
  {
    if files != [] {
      var init := files[..|files| - 1];
      WordlistMembers(init, lang, w);
      assert forall i | 0 <= i < |init| :: init[i] == files[i];
    }
  }

  /** Every word of the list is a word without whitespace or `/`. */
  lemma {:induction false} WordlistWords(files: seq<WordFile>, lang: string)
    ensures forall w | w in Wordlist(files, lang) :: IsWord(w) && '/' !in w
  {
    forall w | w in Wordlist(files, lang)
      ensures IsWord(w) && '/' !in w
    {
      WordlistMembers(files, lang, w);
      var i :| 0 <= i < |files| && ListsLanguage(files[i], lang) && w in FileWords(files[i].lines);
      FileWordsMembers(files[i].lines, w);
      var j :| 0 <= j < |files[i].lines| && EntryOf(files[i].lines[j]) == Entry(w);
      EntryOfFacts(files[i].lines[j]);
    }
  }

  /** A dictionary line `word/FLAGS`, or a bare `word`, yields the word. */
  lemma EntryOfDictionaryLine(w: string, flags: string)
    requires IsWord(w) && '/' !in w
    ensures EntryOf(w) == Entry(w)
    ensures EntryOf(w + "/" + flags) == Entry(w)
  {
    WordsOfWord(w);
    assert LStrip(w) == w;
    assert RStrip(w) == w;
    UpToAt(w, '/', |w|);
    var line := w + "/" + flags;
    assert LStrip(line) == line;
    var r := RStrip(line);
    assert |r| > |w| by {
      assert line[|w|] == '/';
    }
    RStripPrefix(line);
    assert r[..|w|] == w && r[|w|] == '/';
    UpToAt(r, '/', |w|);
  }

  /** `s.split(c)[0]` is the text before the first `c`. */
  lemma UpToAt(s: string, c: char, k: nat)
    requires k <= |s| && c !in s[..k] && (k == |s| || s[k] == c)
    ensures UpTo(s, c) == s[..k]
  {
    UpToPrefix(s, c);
  }
}
