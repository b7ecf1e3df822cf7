/** The dictionary-based language classifier that update-odt-lg.py and split-by-language.py
    share: `get_hs_dics`, `count_occurrences_by_lg` and the collection of the top-ranked
    languages in `determine_language` are the same in the two scripts; what each script then
    chooses is modelled in its own module. Whether a dictionary accepts a word is hunspell's
    `spell`, a parameter here. */
module Classifier {
  import opened Wrappers
  import opened Ordered
  import opened Text
  import opened Hunspell

  /** Hunspell's `spell(word)`: whether a loaded dictionary accepts a word. */
  type Spell = (Dictionary, string) -> bool

  /** The languages in configuration order, each with its dictionary or `None` where none
      could be loaded. */
  type Dictionaries = OrdMap<string, Option<Dictionary>>

  /** The dictionary `get_hs_dic` loads for a language. */
  function LoadedDic(files: seq<FileName>, langCode: string): Option<Dictionary> {
    var aff, dic := LastNamed(files, langCode, ".aff"), LastNamed(files, langCode, ".dic");
    if aff.Some? && dic.Some? then Some(HunSpell(files[dic.value], files[aff.value])) else None
  }

  /** `get_hs_dics(dir, lang_codes)`: one entry per configured language, in configuration
      order, holding the dictionary loaded for it. */
  method GetHsDics(files: seq<FileName>, langCodes: seq<string>) returns (hsDics: Dictionaries)
    ensures hsDics.Valid()
    ensures forall lc :: lc in hsDics.m <==> lc in langCodes
    ensures forall lc | lc in hsDics.m :: hsDics.m[lc] == LoadedDic(files, lc)
    ensures Distinct(langCodes) ==> hsDics.keys == langCodes
  {
    hsDics := Empty();
    var i := 0;
    while i < |langCodes|
      invariant 0 <= i <= |langCodes|
      invariant hsDics.Valid()
      invariant forall lc :: lc in hsDics.m <==> lc in langCodes[..i]
      invariant forall lc | lc in hsDics.m :: hsDics.m[lc] == LoadedDic(files, lc)
      invariant Distinct(langCodes) ==> hsDics.keys == langCodes[..i]
    {
      var lc := langCodes[i];
      var d := GetHsDic(files, lc);
      assert langCodes[..i + 1] == langCodes[..i] + [lc];
      PutValid(hsDics, lc, d);
      hsDics := Put(hsDics, lc, d);
      i := i + 1;
    }
    assert langCodes[..i] == langCodes;
  }

  /** 1 when the dictionary is loaded and accepts the word, else 0. */
  function Hit(dic: Option<Dictionary>, word: string, spell: Spell): nat {
    if dic.Some? && spell(dic.value, word) then 1 else 0
  }

  /** A language's count: how many of `words`, lower-cased, its dictionary accepts. */
  function CountFor(words: seq<string>, dic: Option<Dictionary>, spell: Spell): (n: nat)
    ensures n <= |words|
  {
    if words == [] then 0
    else CountFor(words[..|words| - 1], dic, spell) + Hit(dic, Lower(words[|words| - 1]), spell)
  }

  /** The count of every configured language. */
  function CountsOf(words: seq<string>, hsDics: Dictionaries, spell: Spell): map<string, nat> {
    map lc | lc in hsDics.m :: CountFor(words, hsDics.m[lc], spell)
  }

  /** The counts after one more word: each language whose dictionary accepts the
      lower-cased word gains one. */
  method CountWord(t: string, hsDics: Dictionaries, spell: Spell, counts0: OrdMap<string, nat>)
    returns (counts: OrdMap<string, nat>)
    requires hsDics.Valid() && counts0.Valid() && counts0.keys == hsDics.keys
    ensures counts.Valid() && counts.keys == counts0.keys
    ensures forall lc | lc in counts.m :: counts.m[lc] == counts0.m[lc] + Hit(hsDics.m[lc], Lower(t), spell)
  {
    var word := Lower(t);
    counts := counts0;
    var j := 0;
    while j < |hsDics.keys|
      invariant CountedTo(counts, counts0, hsDics, word, spell, j)
    {
      var lc := hsDics.keys[j];
      var d := hsDics.m[lc];
      if d.None? {
        CountedSkip(counts, counts0, hsDics, word, spell, j);
      } else if spell(d.value, word) {
        CountedHit(counts, counts0, hsDics, word, spell, j);
        counts := Put(counts, lc, counts.m[lc] + 1);
      } else {
        CountedSkip(counts, counts0, hsDics, word, spell, j);
      }
      j := j + 1;
    }
    CountedAll(counts, counts0, hsDics, word, spell);
  }

  /** The first `j` languages have had the word counted, the others not yet. */
  ghost predicate CountedTo(counts: OrdMap<string, nat>, counts0: OrdMap<string, nat>, hsDics: Dictionaries,
                            word: string, spell: Spell, j: int) {
    && hsDics.Valid() && counts0.Valid() && counts0.keys == hsDics.keys
    && 0 <= j <= |hsDics.keys| && counts.keys == counts0.keys && counts.m.Keys == counts0.m.Keys
    && (forall k | 0 <= k < j :: counts.m[hsDics.keys[k]] == counts0.m[hsDics.keys[k]] + Hit(hsDics.m[hsDics.keys[k]], word, spell))
    && (forall k | j <= k < |hsDics.keys| :: counts.m[hsDics.keys[k]] == counts0.m[hsDics.keys[k]])
  }

  lemma CountedHit(counts: OrdMap<string, nat>, counts0: OrdMap<string, nat>, hsDics: Dictionaries,
                   word: string, spell: Spell, j: int)
    requires CountedTo(counts, counts0, hsDics, word, spell, j) && j < |hsDics.keys|
    requires Hit(hsDics.m[hsDics.keys[j]], word, spell) == 1
    ensures var lc := hsDics.keys[j];
      CountedTo(Put(counts, lc, counts.m[lc] + 1), counts0, hsDics, word, spell, j + 1)
  {
  }

  lemma CountedSkip(counts: OrdMap<string, nat>, counts0: OrdMap<string, nat>, hsDics: Dictionaries,
                    word: string, spell: Spell, j: int)
    requires CountedTo(counts, counts0, hsDics, word, spell, j) && j < |hsDics.keys|
    requires Hit(hsDics.m[hsDics.keys[j]], word, spell) == 0
    ensures CountedTo(counts, counts0, hsDics, word, spell, j + 1)
  {
  }

  lemma CountedAll(counts: OrdMap<string, nat>, counts0: OrdMap<string, nat>, hsDics: Dictionaries,
                   word: string, spell: Spell)
    requires CountedTo(counts, counts0, hsDics, word, spell, |hsDics.keys|)
    ensures counts.Valid() && counts.keys == counts0.keys
    ensures forall lc | lc in counts.m :: counts.m[lc] == counts0.m[lc] + Hit(hsDics.m[lc], word, spell)
  {
    forall lc | lc in counts.m
      ensures counts.m[lc] == counts0.m[lc] + Hit(hsDics.m[lc], word, spell)
    {
      var k :| 0 <= k < |hsDics.keys| && hsDics.keys[k] == lc;
    }
  }

  /** `count_occurrences_by_lg(text_words, regex, hs_dics)`: the number of words, and for every
      language, in configuration order, how many of the lower-cased words its dictionary
      accepts, 0 when it has none. The `regex` argument is never used and is left out. */
  method CountOccurrencesByLg(textWords: seq<string>, hsDics: Dictionaries, spell: Spell)
    returns (total: nat, counts: OrdMap<string, nat>)
    requires hsDics.Valid()
    ensures total == |textWords|
    ensures counts.Valid() && counts.keys == hsDics.keys
    ensures counts.m == CountsOf(textWords, hsDics, spell)
    ensures forall lc | lc in counts.m :: counts.m[lc] <= total
  {
    total := 0;
    counts := ZeroCounts(hsDics);
    var i := 0;
    while i < |textWords|
      invariant 0 <= i <= |textWords| && total == i
      invariant CountsAfter(counts, hsDics, textWords, spell, i)
    {
      total := total + 1;
      var next := CountWord(textWords[i], hsDics, spell, counts);
      CountsAfterStep(counts, next, hsDics, textWords, spell, i);
      counts := next;
      i := i + 1;
    }
    CountsAfterAll(counts, hsDics, textWords, spell);
  }

  /** The loop of `count_occurrences_by_lg` that starts every language at 0. */
  method ZeroCounts(hsDics: Dictionaries) returns (counts: OrdMap<string, nat>)
    requires hsDics.Valid()
    ensures counts.Valid() && counts.keys == hsDics.keys
    ensures forall lc | lc in counts.m :: counts.m[lc] == 0
  {
    counts := Empty();
    var j := 0;
    while j < |hsDics.keys|
      invariant 0 <= j <= |hsDics.keys|
      invariant counts.Valid() && counts.keys == hsDics.keys[..j]
      invariant forall lc | lc in counts.m :: counts.m[lc] == 0
    {
      assert hsDics.keys[..j + 1] == hsDics.keys[..j] + [hsDics.keys[j]];
      PutValid(counts, hsDics.keys[j], 0);
      counts := Put(counts, hsDics.keys[j], 0);
      j := j + 1;
    }
    assert hsDics.keys[..j] == hsDics.keys;
  }

  /** Every language holds its count over the first `i` words. */
  ghost predicate CountsAfter(counts: OrdMap<string, nat>, hsDics: Dictionaries, words: seq<string>, spell: Spell, i: int) {
    && hsDics.Valid() && 0 <= i <= |words|
    && counts.Valid() && counts.keys == hsDics.keys
    && forall lc | lc in counts.m :: lc in hsDics.m && counts.m[lc] == CountFor(words[..i], hsDics.m[lc], spell)
  }

  lemma CountsAfterStep(counts: OrdMap<string, nat>, next: OrdMap<string, nat>, hsDics: Dictionaries,
                        words: seq<string>, spell: Spell, i: int)
    requires CountsAfter(counts, hsDics, words, spell, i) && i < |words|
    requires next.Valid() && next.keys == counts.keys
    requires forall lc | lc in next.m :: next.m[lc] == counts.m[lc] + Hit(hsDics.m[lc], Lower(words[i]), spell)
    ensures CountsAfter(next, hsDics, words, spell, i + 1)
  {
    assert words[..i + 1][..i] == words[..i];
  }

  lemma CountsAfterAll(counts: OrdMap<string, nat>, hsDics: Dictionaries, words: seq<string>, spell: Spell)
    requires CountsAfter(counts, hsDics, words, spell, |words|)
    ensures counts.Valid() && counts.keys == hsDics.keys
    ensures counts.m == CountsOf(words, hsDics, spell)
    ensures forall lc | lc in counts.m :: counts.m[lc] <= |words|
  {
    assert words[..|words|] == words;
    assert counts.m.Keys == hsDics.m.Keys;
  }

  /** A language without a dictionary counts 0, whatever the words. */
  lemma {:induction false} NoDictionaryCountsZero(words: seq<string>, spell: Spell)
    ensures CountFor(words, None, spell) == 0
  {
    if words != [] {
      NoDictionaryCountsZero(words[..|words| - 1], spell);
    }
  }

  /** The positions of the words the dictionary accepts once lower-cased. */
  function AcceptedAt(words: seq<string>, d: Dictionary, spell: Spell): set<nat> {
    set i: nat | i < |words| && spell(d, Lower(words[i]))
  }

  /** A language's count is the number of positions whose lower-cased word its dictionary
      accepts. */
  lemma {:induction false} CountForAccepted(words: seq<string>, d: Dictionary, spell: Spell)
    ensures CountFor(words, Some(d), spell) == |AcceptedAt(words, d, spell)|
  {
    if words != [] {
      var init := words[..|words| - 1];
      CountForAccepted(init, d, spell);
      var last := |words| - 1;
      var before := AcceptedAt(init, d, spell);
      assert AcceptedAt(words, d, spell) == before + if spell(d, Lower(words[last])) then {last} else {} by {
        assert forall i | 0 <= i < last :: words[i] == init[i];
      }
      assert last !in before;
    }
  }

  /** The highest count among the languages: Python's `max` over the counts. */
  function MaxCount(keys: seq<string>, m: map<string, nat>): (mx: nat)
    requires keys != [] && forall k | 0 <= k < |keys| :: keys[k] in m
    ensures exists k | 0 <= k < |keys| :: m[keys[k]] == mx
    ensures forall k | 0 <= k < |keys| :: m[keys[k]] <= mx
  {
    if |keys| == 1 then m[keys[0]]
    else
      var rest := MaxCount(keys[1..], m);
      assert forall k | 1 <= k < |keys| :: keys[k] == keys[1..][k - 1];
      if m[keys[0]] >= rest then m[keys[0]] else rest
  }

  /** The languages among `keys`, in their order, whose count is `mx`. */
  function WithCount(keys: seq<string>, m: map<string, nat>, mx: nat): (t: seq<string>)
    requires forall k | 0 <= k < |keys| :: keys[k] in m
  {
    if keys == [] then []
    else WithCount(keys[..|keys| - 1], m, mx) + if m[keys[|keys| - 1]] == mx then [keys[|keys| - 1]] else []
  }

  /** The languages with count `mx` are exactly those listed, each once when the keys are
      distinct. */
  lemma {:induction false} WithCountMembers(keys: seq<string>, m: map<string, nat>, mx: nat)
    requires forall k | 0 <= k < |keys| :: keys[k] in m
    ensures forall lc :: lc in WithCount(keys, m, mx) <==> lc in keys && m[lc] == mx
    ensures Distinct(keys) ==> Distinct(WithCount(keys, m, mx))
  {
    if keys != [] {
      var init := keys[..|keys| - 1];
      WithCountMembers(init, m, mx);
      assert keys == init + [keys[|keys| - 1]];
      if Distinct(keys) {
        assert Distinct(init);
        assert keys[|keys| - 1] !in init;
      }
    }
  }

  predicate Distinct(s: seq<string>) {
    forall i, j | 0 <= i < j < |s| :: s[i] != s[j]
  }

  /** The top-ranked languages: those with the highest count, in configuration order. */
  function Tied(keys: seq<string>, m: map<string, nat>): (t: seq<string>)
    requires keys != [] && forall k | 0 <= k < |keys| :: keys[k] in m
  {
    WithCount(keys, m, MaxCount(keys, m))
  }

  /** The loop of `determine_language` that collects the languages whose count is the maximum,
      in dictionary order. */
  method TiedLanguages(counts: OrdMap<string, nat>, maxCount: nat) returns (langCodes: seq<string>)
    requires counts.Valid()
    ensures langCodes == WithCount(counts.keys, counts.m, maxCount)
  {
    langCodes := [];
    var j := 0;
    while j < |counts.keys|
      invariant 0 <= j <= |counts.keys|
      invariant langCodes == WithCount(counts.keys[..j], counts.m, maxCount)
    {
      assert counts.keys[..j + 1][..j] == counts.keys[..j];
      var lg := counts.keys[j];
      if counts.m[lg] == maxCount {
        langCodes := langCodes + [lg];
      }
      j := j + 1;
    }
    assert counts.keys[..j] == counts.keys;
  }

  lemma {:induction false} FirstWithCount(keys: seq<string>, m: map<string, nat>, mx: nat)
    requires forall k | 0 <= k < |keys| :: keys[k] in m
    requires forall k | 0 <= k < |keys| :: m[keys[k]] <= mx
    requires WithCount(keys, m, mx) != []
    ensures exists i | 0 <= i < |keys| :: keys[i] == WithCount(keys, m, mx)[0] && forall k | 0 <= k < i :: m[keys[k]] < mx
  {
    var init := keys[..|keys| - 1];
    var last := keys[|keys| - 1];
    var before := WithCount(init, m, mx);
    assert WithCount(keys, m, mx) == before + if m[last] == mx then [last] else [];
    if before == [] {
      var i := |keys| - 1;
      assert WithCount(keys, m, mx)[0] == last;
      WithCountMembers(init, m, mx);
      forall k | 0 <= k < i
        ensures m[keys[k]] < mx
      {
        assert keys[k] == init[k];
        assert keys[k] !in before;
      }
    } else {
      assert WithCount(keys, m, mx)[0] == before[0];
      FirstWithCount(init, m, mx);
      var i :| 0 <= i < |init| && init[i] == before[0] && forall k | 0 <= k < i :: m[init[k]] < mx;
      assert keys[i] == init[i];
      assert forall k | 0 <= k < i :: keys[k] == init[k];
    }
  }

  /** The languages whose count is the highest, in configuration order. */
  function Ranking(words: seq<string>, hsDics: Dictionaries, spell: Spell): seq<string>
    requires hsDics.Valid() && hsDics.keys != []
  {
    Tied(hsDics.keys, CountsOf(words, hsDics, spell))
  }

  /** A language of `m` whose count no other language exceeds. */
  ghost predicate TopIn(lc: string, m: map<string, nat>) {
    lc in m && forall o | o in m :: m[o] <= m[lc]
  }

  /** For counts over exactly the `keys`: the languages tied at the highest count are the
      languages no other outcounts, and there is at least one. */
  lemma TiedMembers(keys: seq<string>, m: map<string, nat>)
    requires keys != [] && (forall k | 0 <= k < |keys| :: keys[k] in m) && forall lc | lc in m :: lc in keys
    ensures Tied(keys, m) != []
    ensures forall lc :: lc in Tied(keys, m) <==> TopIn(lc, m)
  {
    var mx := MaxCount(keys, m);
    WithCountMembers(keys, m, mx);
    var k :| 0 <= k < |keys| && m[keys[k]] == mx;
    assert keys[k] in Tied(keys, m);
    forall lc | lc in Tied(keys, m)
      ensures TopIn(lc, m)
    {
      forall o | o in m
        ensures m[o] <= m[lc]
      {
        var j :| 0 <= j < |keys| && keys[j] == o;
      }
    }
  }

  /** The first language of the tie comes before every other language no other outcounts. */
  lemma TiedFirst(keys: seq<string>, m: map<string, nat>)
    requires keys != [] && (forall k | 0 <= k < |keys| :: keys[k] in m) && forall lc | lc in m :: lc in keys
    ensures Tied(keys, m) != []
    ensures exists i | 0 <= i < |keys| :: keys[i] == Tied(keys, m)[0] && forall k | 0 <= k < i :: !TopIn(keys[k], m)
  {
    var mx := MaxCount(keys, m);
    TiedMembers(keys, m);
    FirstWithCount(keys, m, mx);
    var i :| 0 <= i < |keys| && keys[i] == Tied(keys, m)[0] && forall k | 0 <= k < i :: m[keys[k]] < mx;
    assert forall k | 0 <= k < i :: !TopIn(keys[k], m);
  }

  /** Over distinct keys, the tie lists each language once, and holds two or more languages
      exactly when two languages share the highest count. */
  lemma TiedSize(keys: seq<string>, m: map<string, nat>)
    requires keys != [] && Distinct(keys)
    requires (forall k | 0 <= k < |keys| :: keys[k] in m) && forall lc | lc in m :: lc in keys
    ensures Distinct(Tied(keys, m))
    ensures (exists a, b | a != b :: TopIn(a, m) && TopIn(b, m)) <==> |Tied(keys, m)| >= 2
  {
    var t := Tied(keys, m);
    WithCountMembers(keys, m, MaxCount(keys, m));
    TiedMembers(keys, m);
    TwoMembers(t);
  }

  /** A sequence holds two different elements exactly when it has two or more entries,
      provided it lists no element twice. */
  lemma TwoMembers(t: seq<string>)
    requires Distinct(t)
    ensures (exists a, b | a != b :: a in t && b in t) <==> |t| >= 2
  {
    if exists a, b | a != b :: a in t && b in t {
      var a, b :| a != b && a in t && b in t;
      var i :| 0 <= i < |t| && t[i] == a;
      var j :| 0 <= j < |t| && t[j] == b;
      assert i != j;
    }
    if |t| >= 2 {
      assert t[0] in t && t[1] in t;
    }
  }

  /** A configured language no other configured language outcounts on `words`. */
  ghost predicate TopRanked(lc: string, words: seq<string>, hsDics: Dictionaries, spell: Spell) {
    TopIn(lc, CountsOf(words, hsDics, spell))
  }

  /** The ranking of `words` lists every top-ranked language once and nothing else; it is never
      empty; its first language comes before every other top-ranked one in configuration
      order; and it holds two or more languages exactly when two share the top count. */
  lemma RankingFacts(words: seq<string>, hsDics: Dictionaries, spell: Spell)
    requires hsDics.Valid() && hsDics.keys != []
    ensures var r := Ranking(words, hsDics, spell);
      && r != [] && Distinct(r)
      && (forall lc :: lc in r <==> TopRanked(lc, words, hsDics, spell))
      && (exists i | 0 <= i < |hsDics.keys| :: hsDics.keys[i] == r[0]
            && forall k | 0 <= k < i :: !TopRanked(hsDics.keys[k], words, hsDics, spell))
      && ((exists a, b | a != b :: TopRanked(a, words, hsDics, spell) && TopRanked(b, words, hsDics, spell)) <==> |r| >= 2)
  {
    var m := CountsOf(words, hsDics, spell);
    TiedMembers(hsDics.keys, m);
    TiedFirst(hsDics.keys, m);
    TiedSize(hsDics.keys, m);
  }

  /** One language is in the ranking exactly when no configured language outcounts it. */
  lemma RankedIff(words: seq<string>, hsDics: Dictionaries, spell: Spell, lc: string)
    requires hsDics.Valid() && hsDics.keys != []
    ensures lc in Ranking(words, hsDics, spell) <==> TopRanked(lc, words, hsDics, spell)
  {
    TiedMembers(hsDics.keys, CountsOf(words, hsDics, spell));
  }

  /** Two languages sharing the top count make a ranking of two or more. */
  lemma RankedTwo(words: seq<string>, hsDics: Dictionaries, spell: Spell, a: string, b: string)
    requires hsDics.Valid() && hsDics.keys != []
    requires a != b && TopRanked(a, words, hsDics, spell) && TopRanked(b, words, hsDics, spell)
    ensures |Ranking(words, hsDics, spell)| >= 2
  {
    var m := CountsOf(words, hsDics, spell);
    TiedMembers(hsDics.keys, m);
    TiedSize(hsDics.keys, m);
  }

  /** The first language of the ranking is the first top-ranked language in configuration
      order; `i` is its position. */
  lemma RankedFirst(words: seq<string>, hsDics: Dictionaries, spell: Spell) returns (i: nat)
    requires hsDics.Valid() && hsDics.keys != []
    ensures Ranking(words, hsDics, spell) != []
    ensures i < |hsDics.keys| && hsDics.keys[i] == Ranking(words, hsDics, spell)[0]
    ensures TopRanked(hsDics.keys[i], words, hsDics, spell)
    ensures forall k | 0 <= k < i :: !TopRanked(hsDics.keys[k], words, hsDics, spell)
  {
    var m := CountsOf(words, hsDics, spell);
    TiedFirst(hsDics.keys, m);
    i :| 0 <= i < |hsDics.keys| && hsDics.keys[i] == Tied(hsDics.keys, m)[0] && forall k | 0 <= k < i :: !TopIn(hsDics.keys[k], m);
    TiedMembers(hsDics.keys, m);
    assert Tied(hsDics.keys, m)[0] in Tied(hsDics.keys, m);
  }
}
