/** The few Python string operations the scripts rely on, stated over `seq<char>`:
    `str.isspace`, `str.split()`, `str.strip()`, `str.lower()`, `' '.join`, `str(int)`,
    `int(token)`, `str.startswith`, `str.find` and `str.replace(old, new, 1)`. */
module Text {
  import opened Wrappers

  /** The characters Python's `str.split()` and `str.strip()` treat as whitespace. */
  predicate IsSpace(c: char) {
    var n := c as int;
    n == 0x20 || 0x09 <= n <= 0x0d || 0x1c <= n <= 0x1f || n == 0x85 || n == 0xa0 || n == 0x1680
    || 0x2000 <= n <= 0x200a || n == 0x2028 || n == 0x2029 || n == 0x202f || n == 0x205f || n == 0x3000
  }

  predicate IsDigit(c: char) {
    '0' <= c <= '9'
  }

  predicate NoSpace(s: string) {
    forall i | 0 <= i < |s| :: !IsSpace(s[i])
  }

  /** A word as `str.split()` yields it: not empty, no whitespace inside. */
  predicate IsWord(w: string) {
    w != [] && NoSpace(w)
  }

  /** The length of the run of non-whitespace characters at the start of `s`. */
  function WordLength(s: string): (n: nat)
    ensures n <= |s|
    ensures forall i | 0 <= i < n :: !IsSpace(s[i])
    ensures n == |s| || IsSpace(s[n])
  {
    if s == [] || IsSpace(s[0]) then 0 else 1 + WordLength(s[1..])
  }

  /** `s.split()`: the maximal runs of non-whitespace characters, in order. */
  function Words(s: string): (ws: seq<string>)
    ensures forall w | w in ws :: IsWord(w)
    decreases |s|
  {
    if s == [] then []
    else if IsSpace(s[0]) then Words(s[1..])
    else
      var n := WordLength(s);
      [s[..n]] + Words(s[n..])
  }

  /** `' '.join(ws)`. */
  function Join(ws: seq<string>): (s: string)
    ensures |ws| == 1 ==> s == ws[0]
  {
    if ws == [] then "" else if |ws| == 1 then ws[0] else ws[0] + " " + Join(ws[1..])
  }

  /** The total length of the words. */
  function TotalLength(ws: seq<string>): nat {
    if ws == [] then 0 else |ws[0]| + TotalLength(ws[1..])
  }

  /** `len(' '.join(ws))`: the characters of the words plus one separator between each two. */
  lemma {:induction false} JoinLength(ws: seq<string>)
    ensures |Join(ws)| == if ws == [] then 0 else TotalLength(ws) + |ws| - 1
  {
    if |ws| > 1 {
      JoinLength(ws[1..]);
    }
  }

  lemma {:induction false} WordLengthOfWordThenSpace(w: string, rest: string)
    requires IsWord(w) && rest != [] && IsSpace(rest[0])
    ensures WordLength(w + rest) == |w|
  {
    if |w| > 1 {
      assert (w + rest)[1..] == w[1..] + rest;
      WordLengthOfWordThenSpace(w[1..], rest);
    } else {
      assert (w + rest)[1..] == rest;
    }
  }

  /** Splitting a space-joined list of words gives the words back. */
  lemma {:induction false} WordsOfJoin(ws: seq<string>)
    requires forall w | w in ws :: IsWord(w)
    ensures Words(Join(ws)) == ws
  {
    if ws == [] {
    } else if |ws| == 1 {
      WordsOfWord(ws[0]);
    } else {
      var w, rest := ws[0], " " + Join(ws[1..]);
      var s := w + rest;
      assert Join(ws) == s;
      WordLengthOfWordThenSpace(w, rest);
      assert s[..|w|] == w;
      assert s[|w|..] == rest;
      assert Words(rest) == Words(Join(ws[1..])) by {
        assert rest[1..] == Join(ws[1..]);
      }
      WordsOfJoin(ws[1..]);
    }
  }

  lemma WordsOfWord(w: string)
    requires IsWord(w)
    ensures Words(w) == [w]
  {
    assert !IsSpace(w[0]);
    var n := WordLength(w);
    assert n == |w|;
    assert w[..n] == w;
    assert w[n..] == [];
  }

  /** `s.lstrip()` */
  function LStrip(s: string): (r: string)
    ensures r == [] || !IsSpace(r[0])
    ensures |r| <= |s|
    ensures forall i | 0 <= i < |s| - |r| :: IsSpace(s[i])
  {
    if s != [] && IsSpace(s[0]) then LStrip(s[1..]) else s
  }

  /** `s.lstrip()` is a suffix of `s`. */
  lemma {:induction false} LStripSuffix(s: string)
    ensures LStrip(s) == s[|s| - |LStrip(s)|..]
  {
    if s != [] && IsSpace(s[0]) {
      LStripSuffix(s[1..]);
    }
  }

  /** `s.rstrip()` */
  function RStrip(s: string): (r: string)
    ensures r == [] || !IsSpace(r[|r| - 1])
    ensures |r| <= |s|
    ensures forall i | |r| <= i < |s| :: IsSpace(s[i])
  {
    if s != [] && IsSpace(s[|s| - 1]) then RStrip(s[..|s| - 1]) else s
  }

  /** `s.rstrip()` is a prefix of `s`. */
  lemma {:induction false} RStripPrefix(s: string)
    ensures RStrip(s) == s[..|RStrip(s)|]
  {
    if s != [] && IsSpace(s[|s| - 1]) {
      RStripPrefix(s[..|s| - 1]);
    }
  }

  /** `s.strip()`: `s` without its leading and trailing whitespace. */
  function Strip(s: string): string {
    RStrip(LStrip(s))
  }

  /** `s.strip()` is a slice of `s` that neither starts nor ends with whitespace. */
  lemma StripSlice(s: string)
    ensures var i := |s| - |LStrip(s)|; i + |Strip(s)| <= |s| && Strip(s) == s[i..i + |Strip(s)|]
    ensures Strip(s) == [] || (!IsSpace(Strip(s)[0]) && !IsSpace(Strip(s)[|Strip(s)| - 1]))
  {
    var l := LStrip(s);
    LStripSuffix(s);
    RStripPrefix(l);
    assert Strip(s) == l[..|Strip(s)|];
  }

  /** `s.lstrip(chars)` */
  function LStripChars(s: string, chars: set<char>): (r: string)
    ensures r == [] || r[0] !in chars
    ensures |r| <= |s| && r == s[|s| - |r|..]
    ensures forall i | 0 <= i < |s| - |r| :: s[i] in chars
  {
    if s != [] && s[0] in chars then LStripChars(s[1..], chars) else s
  }

  /** `s.rstrip(chars)` */
  function RStripChars(s: string, chars: set<char>): (r: string)
    ensures r == [] || r[|r| - 1] !in chars
    ensures |r| <= |s| && r == s[..|r|]
    ensures forall i | |r| <= i < |s| :: s[i] in chars
  {
    if s != [] && s[|s| - 1] in chars then RStripChars(s[..|s| - 1], chars) else s
  }

  /** `s.strip(chars)`: `s` without its leading and trailing characters from `chars`. */
  function StripChars(s: string, chars: set<char>): (r: string)
    ensures r == [] || (r[0] !in chars && r[|r| - 1] !in chars)
  {
    RStripChars(LStripChars(s, chars), chars)
  }

  /** `s.strip(chars)` keeps a contiguous part of `s` and removes only characters of `chars`. */
  lemma StripCharsSlice(s: string, chars: set<char>)
    ensures exists i, j | 0 <= i <= j <= |s| :: StripChars(s, chars) == s[i..j]
              && (forall k | 0 <= k < i :: s[k] in chars) && (forall k | j <= k < |s| :: s[k] in chars)
  {
    var l := LStripChars(s, chars);
    var r := RStripChars(l, chars);
    var i := |s| - |l|;
    var j := i + |r|;
    assert l == s[i..];
    assert r == l[..|r|];
    assert r == s[i..j];
    forall k | j <= k < |s|
      ensures s[k] in chars
    {
      assert s[k] == l[k - i];
    }
  }

  /** Stripping twice is stripping once. */
  lemma StripCharsIdempotent(s: string, chars: set<char>)
    ensures StripChars(StripChars(s, chars), chars) == StripChars(s, chars)
  {
  }

  lemma {:induction false} WordsOfLeadingSpace(s: string)
    ensures Words(LStrip(s)) == Words(s)
    decreases |s|
  {
    if s != [] && IsSpace(s[0]) {
      WordsOfLeadingSpace(s[1..]);
    }
  }

  lemma {:induction false} WordLengthOfPrefix(s: string, k: nat)
    requires WordLength(s) <= k <= |s|
    ensures WordLength(s[..k]) == WordLength(s)
  {
    if s != [] && !IsSpace(s[0]) {
      assert s[..k][1..] == s[1..][..k - 1];
      WordLengthOfPrefix(s[1..], k - 1);
    }
  }

  /** Whitespace at the end of a string adds no word. */
  lemma {:induction false} WordsOfTrailingSpace(s: string)
    requires s != [] && IsSpace(s[|s| - 1])
    ensures Words(s[..|s| - 1]) == Words(s)
    decreases |s|, 1
  {
    if |s| == 1 {
    } else if IsSpace(s[0]) {
      assert s[..|s| - 1][1..] == s[1..][..|s| - 2];
      WordsOfTrailingSpace(s[1..]);
    } else {
      WordsOfWordThenTrailingSpace(s);
    }
  }

  lemma {:induction false} WordsOfWordThenTrailingSpace(s: string)
    requires |s| > 1 && !IsSpace(s[0]) && IsSpace(s[|s| - 1])
    ensures Words(s[..|s| - 1]) == Words(s)
    decreases |s|, 0
  {
    var t := s[..|s| - 1];
    var n := WordLength(s);
    WordLengthOfPrefix(s, |s| - 1);
    assert t[..n] == s[..n];
    if n < |s| - 1 {
      assert t[n..] == s[n..][..|s| - n - 1];
      WordsOfTrailingSpace(s[n..]);
    } else {
      assert Words(s[n..]) == Words(s[n + 1..]);
    }
  }

  lemma {:induction false} WordsOfRStrip(s: string)
    ensures Words(RStrip(s)) == Words(s)
    decreases |s|
  {
    if s != [] && IsSpace(s[|s| - 1]) {
      WordsOfTrailingSpace(s);
      WordsOfRStrip(s[..|s| - 1]);
    }
  }

  /** `s.strip().split() == s.split()`. */
  lemma WordsOfStrip(s: string)
    ensures Words(Strip(s)) == Words(s)
  {
    WordsOfRStrip(LStrip(s));
    WordsOfLeadingSpace(s);
  }

  /** `c.lower()` for the ASCII and Latin-1 capitals. */
  function LowerChar(c: char): char {
    if 'A' <= c <= 'Z' || (0xc0 <= c as int <= 0xde && c as int != 0xd7) then (c as int + 32) as char else c
  }

  /** `s.lower()`, character by character. */
  function Lower(s: string): (r: string)
    ensures |r| == |s|
  {
    seq(|s|, i requires 0 <= i < |s| => LowerChar(s[i]))
  }

  function DigitChar(d: nat): (c: char)
    requires d < 10
    ensures IsDigit(c)
  {
    ('0' as int + d) as char
  }

  function DigitValue(c: char): nat
    requires IsDigit(c)
  {
    c as int - '0' as int
  }

  /** `str(n)` for a natural number: its decimal digits, without leading zeros. */
  function NatToStr(n: nat): (s: string)
    ensures s != [] && forall i | 0 <= i < |s| :: IsDigit(s[i])
  {
    if n < 10 then [DigitChar(n)] else NatToStr(n / 10) + [DigitChar(n % 10)]
  }

  /** `str(i)` for any integer. */
  function IntToStr(i: int): (s: string)
    ensures s != [] && NoSpace(s)
  {
    if i < 0 then "-" + NatToStr(-i) else NatToStr(i)
  }

  /** An integer literal as Python's `int()` reads one: decimal digits, with single underscores
      allowed between two digits. */
  predicate IsDecimalLiteral(s: string) {
    && s != [] && IsDigit(s[0]) && IsDigit(s[|s| - 1])
    && (forall i | 0 <= i < |s| :: IsDigit(s[i]) || s[i] == '_')
    && (forall i, j | 0 <= i && j == i + 1 < |s| :: IsDigit(s[i]) || IsDigit(s[j]))
  }

  /** The value of a decimal literal; underscores are ignored. */
  function DigitsValue(s: string): nat
    requires forall i | 0 <= i < |s| :: IsDigit(s[i]) || s[i] == '_'
  {
    if s == [] then 0
    else if s[|s| - 1] == '_' then DigitsValue(s[..|s| - 1])
    else 10 * DigitsValue(s[..|s| - 1]) + DigitValue(s[|s| - 1])
  }

  /** `int(token)` for a token without whitespace: an optional sign and a decimal literal;
      anything else raises ValueError, here `None`. */
  function ParseInt(s: string): (r: Option<int>)
    ensures r.Some? ==> s != [] && (IsDigit(s[0]) || s[0] == '+' || s[0] == '-')
  {
    if s != [] && (s[0] == '+' || s[0] == '-') then
      if IsDecimalLiteral(s[1..]) then
        var v: int := DigitsValue(s[1..]);
        Some(if s[0] == '-' then -v else v)
      else None
    else if IsDecimalLiteral(s) then Some(DigitsValue(s))
    else None
  }

  lemma {:induction false} DigitsValueOfNatToStr(n: nat)
    ensures DigitsValue(NatToStr(n)) == n
  {
    var s := NatToStr(n);
    if n >= 10 {
      DigitsValueOfNatToStr(n / 10);
      assert s[..|s| - 1] == NatToStr(n / 10);
    }
  }

  /** `int(str(i)) == i`. */
  lemma ParseIntOfIntToStr(i: int)
    ensures ParseInt(IntToStr(i)) == Some(i)
  {
    var d := if i < 0 then -i else i;
    DigitsValueOfNatToStr(d);
    if i < 0 {
      assert IntToStr(i)[1..] == NatToStr(d);
    }
  }

  /** `s.startswith(p)`; also Python's `s[:len(p)] == p`. */
  predicate StartsWith(s: string, p: string) {
    |p| <= |s| && s[..|p|] == p
  }

  /** `s[n:]`: empty when `n` is past the end. */
  function Drop(s: string, n: nat): (r: string)
    ensures |r| == if n <= |s| then |s| - n else 0
  {
    if n <= |s| then s[n..] else []
  }

  /** `s.find(pat)`: the first index at which `pat` occurs in `s`, if any. */
  function Find(s: string, pat: string): (r: Option<nat>)
    ensures r.Some? ==> r.value + |pat| <= |s| && s[r.value..r.value + |pat|] == pat
    ensures r.Some? ==> forall k | 0 <= k < r.value :: !StartsWith(s[k..], pat)
    ensures r.None? ==> forall k | 0 <= k <= |s| :: !StartsWith(s[k..], pat)
  {
    FindFrom(s, pat, 0)
  }

  /** The first index at or after `i` at which `pat` occurs in `s`, if any. */
  function FindFrom(s: string, pat: string, i: nat): (r: Option<nat>)
    requires i <= |s|
    ensures r.Some? ==> i <= r.value && r.value + |pat| <= |s| && s[r.value..r.value + |pat|] == pat
    ensures r.Some? ==> forall k | i <= k < r.value :: !StartsWith(s[k..], pat)
    ensures r.None? ==> forall k | i <= k <= |s| :: !StartsWith(s[k..], pat)
    decreases |s| - i
  {
    if StartsWith(s[i..], pat) then Some(i)
    else if i == |s| then None
    else FindFrom(s, pat, i + 1)
  }

  /** `s.replace(old, new, 1)`: the first occurrence of `old` replaced by `new`. */
  function ReplaceFirst(s: string, pat: string, rep: string): string {
    match Find(s, pat)
    case None => s
    case Some(k) => s[..k] + rep + s[k + |pat|..]
  }

  /** `s[:n]`: the whole of `s` when `n` is past its end. */
  function Take(s: string, n: nat): (r: string)
    ensures |r| == if n <= |s| then n else |s|
    ensures r == s[..|r|]
  {
    if n <= |s| then s[..n] else s
  }

  /** `s.split(c)[0]`: the text before the first `c`, or all of `s` when it has none. */
  function UpTo(s: string, c: char): (h: string)
    ensures |h| <= |s|
  {
    if s == [] || s[0] == c then [] else [s[0]] + UpTo(s[1..], c)
  }

  /** `s.split(c)[0]` is the longest prefix of `s` without `c`. */
  lemma {:induction false} UpToPrefix(s: string, c: char)
    ensures UpTo(s, c) == s[..|UpTo(s, c)|] && c !in UpTo(s, c)
    ensures |UpTo(s, c)| < |s| ==> s[|UpTo(s, c)|] == c
  {
    if s != [] && s[0] != c {
      UpToPrefix(s[1..], c);
      assert s[1..][..|UpTo(s[1..], c)|] == s[1..|UpTo(s[1..], c)| + 1];
    }
  }

  /** Every character of a word of `s.split()` is a character of `s`. */
  lemma {:induction false} WordsWithin(s: string)
    ensures forall w, ch | w in Words(s) && ch in w :: ch in s
    decreases |s|
  {
    if s == [] {
    } else if IsSpace(s[0]) {
      WordsWithin(s[1..]);
    } else {
      var n := WordLength(s);
      WordsWithin(s[n..]);
      assert forall ch | ch in s[..n] :: ch in s;
      assert forall ch | ch in s[n..] :: ch in s;
    }
  }
}
