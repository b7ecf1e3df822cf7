/** split-by-language.py: the lines (or paragraphs) of a document are sorted into one text per
    language, each unit going whole to the language its words are judged to be in. */
module SplitByLanguage {
  import opened Wrappers
  import opened Ordered
  import opened Text
  import opened Hunspell
  import opened Classifier

  /** The languages `main` configures, in this order; the first is the default. */
  const Languages: seq<string> := ["en_US", "fr_FR", "sg_CF"]

  /** The extra bucket `main` appends to the languages before loading dictionaries. */
  const Unknown: string := "unknown"

  /** The languages dictionaries are loaded for and buckets are made for. */
  const Configured: seq<string> := Languages + [Unknown]

  /** `get_lines`: each line of the file, stripped and split on whitespace. */
  function GetLines(lines: seq<string>): (parts: seq<seq<string>>)
    ensures |parts| == |lines|
  {
    seq(|lines|, i requires 0 <= i < |lines| => Words(Strip(lines[i])))
  }

  /** Stripping before splitting changes nothing: each unit is the words of its line. */
  lemma GetLinesWords(lines: seq<string>)
    ensures forall i | 0 <= i < |lines| :: GetLines(lines)[i] == Words(lines[i])
  {
    forall i | 0 <= i < |lines|
      ensures GetLines(lines)[i] == Words(lines[i])
    {
      WordsOfStrip(lines[i]);
    }
  }

  /** The choice `determine_language` makes from the number of words, the top-ranked
      languages and the default language. */
  function OrDefault(total: nat, tied: seq<string>, default: string): Option<string> {
    if |tied| == 0 || total == 0 then None
    else if |tied| == 1 then Some(tied[0])
    else if total == 1 then Some(default)
    else if "en_US" in tied then Some("en_US")
    else Some(default)
  }

  /** The language `determine_language` gives `words`. */
  function Decided(words: seq<string>, hsDics: Dictionaries, default: string, spell: Spell): Option<string>
    requires hsDics.Valid() && hsDics.keys != []
  {
    OrDefault(|words|, Ranking(words, hsDics, spell), default)
  }

  /** `determine_language(words, hs_dics, default_lang)`. Python's `max` of no counts would
      raise, so at least one language is configured. */
  method DetermineLanguage(words: seq<string>, hsDics: Dictionaries, default: string, spell: Spell)
    returns (langCode: Option<string>)
    requires hsDics.Valid() && hsDics.keys != []
    ensures langCode == Decided(words, hsDics, default, spell)
  {
    var total, counts := CountOccurrencesByLg(words, hsDics, spell);
    var maxCount := MaxCount(counts.keys, counts.m);
    var langCodes := TiedLanguages(counts, maxCount);
    var lcLength := |langCodes|;
    if lcLength == 0 || total == 0 {
      langCode := None;
    } else if lcLength == 1 {
      langCode := Some(langCodes[0]);
    } else if total == 1 {
      langCode := Some(default);
    } else if "en_US" in langCodes {
      langCode := Some("en_US");
    } else {
      langCode := Some(default);
    }
  }

  /** Only a unit without words gets no language. */
  lemma NoneIffNoWords(words: seq<string>, hsDics: Dictionaries, default: string, spell: Spell)
    requires hsDics.Valid() && hsDics.keys != []
    ensures Decided(words, hsDics, default, spell) == None <==> words == []
  {
    var i := RankedFirst(words, hsDics, spell);
    OrDefaultNone(|words|, Ranking(words, hsDics, spell), default);
  }

  lemma OrDefaultNone(total: nat, tied: seq<string>, default: string)
    ensures OrDefault(total, tied, default) == None <==> total == 0 || tied == []
  {
  }

  /** A language no other equals or outcounts is chosen. */
  lemma UniqueTopChosen(words: seq<string>, hsDics: Dictionaries, default: string, spell: Spell, lc: string)
    requires hsDics.Valid() && hsDics.keys != [] && words != []
    requires TopRanked(lc, words, hsDics, spell)
    requires forall o | TopRanked(o, words, hsDics, spell) :: o == lc
    ensures Decided(words, hsDics, default, spell) == Some(lc)
  {
    var r := Ranking(words, hsDics, spell);
    var i := RankedFirst(words, hsDics, spell);
    if |r| >= 2 {
      RankedIff(words, hsDics, spell, r[1]);
      assert r[1] in r;
      assert Distinct(r) by {
        RankingFacts(words, hsDics, spell);
      }
    }
  }

  /** A single word that two languages share goes to the default language. */
  lemma OneWordTieDefault(words: seq<string>, hsDics: Dictionaries, default: string, spell: Spell, a: string, b: string)
    requires hsDics.Valid() && hsDics.keys != [] && |words| == 1
    requires a != b && TopRanked(a, words, hsDics, spell) && TopRanked(b, words, hsDics, spell)
    ensures Decided(words, hsDics, default, spell) == Some(default)
  {
    RankedTwo(words, hsDics, spell, a, b);
  }

  /** Two or more words with two languages tied at the top: `en_US` when it is among them,
      otherwise the default language, whichever languages are tied. */
  lemma TieOfManyWords(words: seq<string>, hsDics: Dictionaries, default: string, spell: Spell, a: string, b: string)
    requires hsDics.Valid() && hsDics.keys != [] && |words| >= 2
    requires a != b && TopRanked(a, words, hsDics, spell) && TopRanked(b, words, hsDics, spell)
    ensures Decided(words, hsDics, default, spell)
              == Some(if TopRanked("en_US", words, hsDics, spell) then "en_US" else default)
  {
    RankedTwo(words, hsDics, spell, a, b);
    RankedIff(words, hsDics, spell, "en_US");
  }

  /** When no dictionary accepts any of two or more words and two or more languages are
      configured, every language ties at 0: the choice is `en_US` when configured, otherwise
      the default. */
  lemma NothingAccepted(words: seq<string>, hsDics: Dictionaries, default: string, spell: Spell)
    requires hsDics.Valid() && |hsDics.keys| >= 2 && |words| >= 2
    requires forall lc | lc in hsDics.m :: CountFor(words, hsDics.m[lc], spell) == 0
    ensures Decided(words, hsDics, default, spell) == Some(if "en_US" in hsDics.m then "en_US" else default)
  {
    var k0, k1 := hsDics.keys[0], hsDics.keys[1];
    assert TopRanked(k0, words, hsDics, spell) && TopRanked(k1, words, hsDics, spell);
    TieOfManyWords(words, hsDics, default, spell, k0, k1);
    if "en_US" in hsDics.m {
      assert TopRanked("en_US", words, hsDics, spell);
    }
  }

  /** A unit with words goes to a configured language no other outcounts, or to the default. */
  lemma DecidedIsTopOrDefault(words: seq<string>, hsDics: Dictionaries, default: string, spell: Spell)
    requires hsDics.Valid() && hsDics.keys != [] && words != []
    ensures var d := Decided(words, hsDics, default, spell);
      d.Some? && (d.value == default || (d.value in hsDics.m && TopRanked(d.value, words, hsDics, spell)))
  {
    var i := RankedFirst(words, hsDics, spell);
    var r := Ranking(words, hsDics, spell);
    if |r| == 1 {
      assert Decided(words, hsDics, default, spell) == Some(hsDics.keys[i]);
    } else if |words| >= 2 && "en_US" in r {
      RankedIff(words, hsDics, spell, "en_US");
    }
  }

  /** The bucket `main` files a unit under: its language, or `unknown` when that is falsy. */
  function Target(words: seq<string>, hsDics: Dictionaries, default: string, spell: Spell): string
    requires hsDics.Valid() && hsDics.keys != []
  {
    var d := Decided(words, hsDics, default, spell);
    if d.Some? && d.value != "" then d.value else Unknown
  }

  /** When the default and `unknown` are configured, every unit with words has a bucket. */
  lemma TargetConfigured(words: seq<string>, hsDics: Dictionaries, default: string, spell: Spell)
    requires hsDics.Valid() && hsDics.keys != [] && words != []
    requires default in hsDics.m && Unknown in hsDics.m
    ensures Target(words, hsDics, default, spell) in hsDics.m
  {
    DecidedIsTopOrDefault(words, hsDics, default, spell);
  }

  /** With `unknown` configured without a dictionary beside another language, a default
      other than `unknown` and no language named by the empty string, no unit with words is
      ever filed under `unknown`: it never outcounts the other language, and ties go to
      `en_US` or the default. */
  lemma UnknownNeverChosen(words: seq<string>, hsDics: Dictionaries, default: string, spell: Spell)
    requires hsDics.Valid() && words != []
    requires Unknown in hsDics.m && hsDics.m[Unknown] == None && |hsDics.keys| >= 2
    requires default != Unknown && default != "" && "" !in hsDics.m
    ensures Target(words, hsDics, default, spell) != Unknown
  {
    var other := if hsDics.keys[0] == Unknown then hsDics.keys[1] else hsDics.keys[0];
    assert other != Unknown && other in hsDics.m;
    NoDictionaryCountsZero(words, spell);
    var d := Decided(words, hsDics, default, spell);
    DecidedIsTopOrDefault(words, hsDics, default, spell);
    if d.value == Unknown {
      assert TopRanked(Unknown, words, hsDics, spell);
      assert CountsOf(words, hsDics, spell)[other] == 0;
      assert TopRanked(other, words, hsDics, spell);
      RankedTwo(words, hsDics, spell, Unknown, other);
      RankedIff(words, hsDics, spell, "en_US");
      assert false;
    }
  }

  /** `targets` lists the bucket of each of the first `n` units. */
  ghost predicate TargetsOf(parts: seq<seq<string>>, n: nat, targets: seq<string>, hsDics: Dictionaries,
                            default: string, spell: Spell)
    requires hsDics.Valid() && hsDics.keys != []
  {
    n <= |parts| && |targets| == n && forall k | 0 <= k < n :: targets[k] == Target(parts[k], hsDics, default, spell)
  }

  lemma TargetsOfNext(parts: seq<seq<string>>, n: nat, targets: seq<string>, hsDics: Dictionaries,
                      default: string, spell: Spell, target: string)
    requires hsDics.Valid() && hsDics.keys != []
    requires TargetsOf(parts, n, targets, hsDics, default, spell) && n < |parts|
    requires target == Target(parts[n], hsDics, default, spell)
    ensures TargetsOf(parts, n + 1, targets + [target], hsDics, default, spell)
  {
    var ts := targets + [target];
    assert forall k | 0 <= k < n :: ts[k] == targets[k];
  }

  /** The texts `main` files under bucket `l` for units `parts` with buckets `targets`, in input
      order: each unit with words whose bucket is `l`, space-joined. */
  function Bucket(parts: seq<seq<string>>, targets: seq<string>, l: string): seq<string>
    requires |targets| == |parts|
  {
    if parts == [] then []
    else
      var n := |parts| - 1;
      Bucket(parts[..n], targets[..n], l) + if parts[n] != [] && targets[n] == l then [Join(parts[n])] else []
  }

  /** `{l: [] for l in languages}` */
  function EmptyBuckets(keys: seq<string>): (b: OrdMap<string, seq<string>>)
    requires Distinct(keys)
    ensures b.Valid() && b.keys == keys && forall l | l in b.m :: b.m[l] == []
  {
    OrdMap(keys, map l | l in keys :: [])
  }

  /** Every bucket holds what the units `parts`, with buckets `targets`, put in it. */
  ghost predicate FiledUpTo(outtext: OrdMap<string, seq<string>>, keys: seq<string>, parts: seq<seq<string>>,
                            targets: seq<string>)
  {
    && |targets| == |parts|
    && outtext.Valid() && outtext.keys == keys
    && forall l | l in outtext.m :: outtext.m[l] == Bucket(parts, targets, l)
  }

  lemma FiledSkip(outtext: OrdMap<string, seq<string>>, keys: seq<string>, parts: seq<seq<string>>, i: nat,
                  targets: seq<string>, target: string)
    requires i < |parts| && parts[i] == [] && FiledUpTo(outtext, keys, parts[..i], targets)
    ensures FiledUpTo(outtext, keys, parts[..i + 1], targets + [target])
  {
    assert parts[..i + 1][..i] == parts[..i];
    assert (targets + [target])[..i] == targets;
  }

  lemma FiledNext(outtext: OrdMap<string, seq<string>>, keys: seq<string>, parts: seq<seq<string>>, i: nat,
                  targets: seq<string>, target: string)
    requires i < |parts| && parts[i] != [] && FiledUpTo(outtext, keys, parts[..i], targets) && target in outtext.m
    ensures FiledUpTo(Put(outtext, target, outtext.m[target] + [Join(parts[i])]), keys, parts[..i + 1], targets + [target])
  {
    assert parts[..i + 1][..i] == parts[..i];
    assert (targets + [target])[..i] == targets;
    PutValid(outtext, target, outtext.m[target] + [Join(parts[i])]);
  }

  /** The bucket of a unit with words: `determine_language`'s result, `unknown` when falsy. */
  method UnitTarget(words: seq<string>, hsDics: Dictionaries, default: string, spell: Spell) returns (target: string)
    requires hsDics.Valid() && hsDics.keys != [] && words != []
    requires default in hsDics.m && Unknown in hsDics.m
    ensures target == Target(words, hsDics, default, spell) && target in hsDics.m
  {
    var langCode := DetermineLanguage(words, hsDics, default, spell);
    target := if langCode.Some? && langCode.value != "" then langCode.value else Unknown;
    TargetConfigured(words, hsDics, default, spell);
  }

  /** One pass of the loop of `main`: unit `i` is skipped when it has no words, and otherwise
      added, space-joined, to the end of its bucket. */
  method FileUnit(outtext: OrdMap<string, seq<string>>, parts: seq<seq<string>>, i: nat, hsDics: Dictionaries,
                  default: string, spell: Spell, ghost targets: seq<string>)
    returns (next: OrdMap<string, seq<string>>, ghost targets': seq<string>)
    requires hsDics.Valid() && hsDics.keys != [] && i < |parts|
    requires default in hsDics.m && Unknown in hsDics.m
    requires TargetsOf(parts, i, targets, hsDics, default, spell)
    requires FiledUpTo(outtext, hsDics.keys, parts[..i], targets)
    ensures TargetsOf(parts, i + 1, targets', hsDics, default, spell)
    ensures FiledUpTo(next, hsDics.keys, parts[..i + 1], targets')
  {
    var words := parts[i];
    ghost var target := Target(words, hsDics, default, spell);
    if words == [] {
      FiledSkip(outtext, hsDics.keys, parts, i, targets, target);
      next := outtext;
    } else {
      var t := UnitTarget(words, hsDics, default, spell);
      FiledNext(outtext, hsDics.keys, parts, i, targets, t);
      next := Put(outtext, t, outtext.m[t] + [Join(words)]);
    }
    TargetsOfNext(parts, i, targets, hsDics, default, spell, target);
    targets' := targets + [target];
  }

  /** The loop of `main` that files every unit: units without words are skipped, every other
      unit goes, space-joined, to the end of the bucket of its language, or of `unknown` when
      the language is falsy. `main` makes the buckets from the same languages as the
      dictionaries, the default being the first of them. */
  method SplitUnits(parts: seq<seq<string>>, hsDics: Dictionaries, default: string, spell: Spell)
    returns (outtext: OrdMap<string, seq<string>>, ghost targets: seq<string>)
    requires hsDics.Valid() && hsDics.keys != []
    requires default in hsDics.m && Unknown in hsDics.m
    ensures TargetsOf(parts, |parts|, targets, hsDics, default, spell)
    ensures outtext.Valid() && outtext.keys == hsDics.keys
    ensures forall l | l in outtext.m :: outtext.m[l] == Bucket(parts, targets, l)
  {
    targets := [];
    outtext := EmptyBuckets(hsDics.keys);
    var i := 0;
    while i < |parts|
      invariant i <= |parts|
      invariant TargetsOf(parts, i, targets, hsDics, default, spell)
      invariant FiledUpTo(outtext, hsDics.keys, parts[..i], targets)
    {
      outtext, targets := FileUnit(outtext, parts, i, hsDics, default, spell, targets);
      i := i + 1;
    }
    assert parts[..i] == parts;
  }

  /** A text is in a bucket exactly when some unit with words filed there joins to it. */
  lemma {:induction false} BucketMembers(parts: seq<seq<string>>, targets: seq<string>, l: string, text: string)
    requires |targets| == |parts|
    ensures text in Bucket(parts, targets, l) <==>
              exists i | 0 <= i < |parts| :: parts[i] != [] && targets[i] == l && Join(parts[i]) == text
  {
    if parts != [] {
      var n := |parts| - 1;
      BucketMembers(parts[..n], targets[..n], l, text);
      assert forall i | 0 <= i < n :: parts[..n][i] == parts[i] && targets[..n][i] == targets[i];
    }
  }

  /** The number of units with words. */
  function NonEmptyCount(parts: seq<seq<string>>): nat {
    if parts == [] then 0 else NonEmptyCount(parts[..|parts| - 1]) + if parts[|parts| - 1] != [] then 1 else 0
  }

  /** The number of texts in the buckets `keys`. */
  function Filed(parts: seq<seq<string>>, targets: seq<string>, keys: seq<string>): nat
    requires |targets| == |parts|
  {
    if keys == [] then 0 else |Bucket(parts, targets, keys[0])| + Filed(parts, targets, keys[1..])
  }

  /** Over distinct buckets, a unit adds one text to the bucket count when its bucket is among
      them. */
  lemma {:induction false} FiledOneMore(parts: seq<seq<string>>, targets: seq<string>, keys: seq<string>)
    requires |targets| == |parts| && parts != [] && Distinct(keys)
    ensures var n := |parts| - 1;
      Filed(parts, targets, keys)
        == Filed(parts[..n], targets[..n], keys) + if parts[n] != [] && targets[n] in keys then 1 else 0
  {
    if keys != [] {
      assert Distinct(keys[1..]) by {
        assert forall i | 0 <= i < |keys[1..]| :: keys[1..][i] == keys[i + 1];
      }
      assert keys[0] !in keys[1..];
      FiledOneMore(parts, targets, keys[1..]);
    }
  }

  lemma {:induction false} EmptyFiled(keys: seq<string>)
    ensures Filed([], [], keys) == 0
  {
    if keys != [] {
      EmptyFiled(keys[1..]);
    }
  }

  /** When every unit with words has a bucket among the distinct `keys`, the buckets together
      hold as many texts as there are units with words: each is filed exactly once. */
  lemma {:induction false} EveryUnitFiledOnce(parts: seq<seq<string>>, targets: seq<string>, keys: seq<string>)
    requires |targets| == |parts| && Distinct(keys)
    requires forall i | 0 <= i < |parts| && parts[i] != [] :: targets[i] in keys
    ensures Filed(parts, targets, keys) == NonEmptyCount(parts)
  {
    if parts == [] {
      EmptyFiled(keys);
    } else {
      var n := |parts| - 1;
      assert forall i | 0 <= i < n :: parts[..n][i] == parts[i] && targets[..n][i] == targets[i];
      EveryUnitFiledOnce(parts[..n], targets[..n], keys);
      FiledOneMore(parts, targets, keys);
    }
  }

  /** With the default and `unknown` configured, `main` files every unit with words in exactly
      one of its buckets. */
  lemma SplitFilesEveryUnit(parts: seq<seq<string>>, targets: seq<string>, hsDics: Dictionaries, default: string, spell: Spell)
    requires hsDics.Valid() && hsDics.keys != []
    requires default in hsDics.m && Unknown in hsDics.m
    requires TargetsOf(parts, |parts|, targets, hsDics, default, spell)
    ensures Filed(parts, targets, hsDics.keys) == NonEmptyCount(parts)
  {
    forall i | 0 <= i < |parts| && parts[i] != []
      ensures targets[i] in hsDics.keys
    {
      TargetConfigured(parts[i], hsDics, default, spell);
    }
    EveryUnitFiledOnce(parts, targets, hsDics.keys);
  }

  /** With the languages `main` configures, `unknown` having no dictionary, the `unknown`
      bucket stays empty whatever the units. */
  lemma UnknownBucketEmpty(parts: seq<seq<string>>, targets: seq<string>, hsDics: Dictionaries, spell: Spell)
    requires hsDics.Valid() && hsDics.keys == Configured && Unknown in hsDics.m && hsDics.m[Unknown] == None
    requires TargetsOf(parts, |parts|, targets, hsDics, Languages[0], spell)
    ensures Bucket(parts, targets, Unknown) == []
  {
    var b := Bucket(parts, targets, Unknown);
    if b != [] {
      BucketMembers(parts, targets, Unknown, b[0]);
      assert b[0] in b;
      var i :| 0 <= i < |parts| && parts[i] != [] && targets[i] == Unknown;
      assert "" !in hsDics.m by {
        assert forall k | 0 <= k < |Configured| :: Configured[k] != "";
      }
      UnknownNeverChosen(parts[i], hsDics, Languages[0], spell);
    }
  }
}
