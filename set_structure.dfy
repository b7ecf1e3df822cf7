/** set-structure.py: the page lines (`P` and two or three digits) and the panel lines (`Kapa`
    and a number) of the Sango text give, for every page, the line offsets of its panels; the
    English text then gets a `Panel n` line at the same offsets after each of its page lines. */
module SetStructure {
  import opened Wrappers
  import opened Ordered
  import opened Text

  /** A page label: `P` and then two or three digits. */
  predicate IsPageLabel(k: string) {
    (|k| == 3 || |k| == 4) && k[0] == 'P' && forall i | 1 <= i < |k| :: IsDigit(k[i])
  }

  /** `page_c.match(l)`: the page label at the start of `l`; the repetition takes a third digit
      when there is one. */
  function PageMatch(l: string): (r: Option<string>)
    ensures r.Some? ==> IsPageLabel(r.value) && StartsWith(l, r.value)
    ensures r.None? <==> !(|l| >= 3 && l[0] == 'P' && IsDigit(l[1]) && IsDigit(l[2]))
  {
    if |l| >= 3 && l[0] == 'P' && IsDigit(l[1]) && IsDigit(l[2]) then
      var k := if |l| >= 4 && IsDigit(l[3]) then l[..4] else l[..3];
      assert forall i | 0 <= i < |k| :: k[i] == l[i];
      Some(k)
    else None
  }

  /** A page label read at the start of a line is the label itself. */
  lemma PageMatchOfLabel(k: string)
    requires IsPageLabel(k)
    ensures PageMatch(k) == Some(k)
  {
    assert k[..|k|] == k;
  }

  predicate IsPage(l: string) {
    PageMatch(l).Some?
  }

  /** `panel_c.match(l)`: the line starts with `Kapa`, at most one whitespace character and a
      digit. */
  predicate IsPanel(l: string) {
    |l| >= 5 && l[..4] == "Kapa" && (IsDigit(l[4]) || (|l| >= 6 && IsSpace(l[4]) && IsDigit(l[5])))
  }

  /** No page line among `lines[a..b]`. */
  ghost predicate NoPage(lines: seq<string>, a: nat, b: nat)
    requires a <= b <= |lines|
  {
    forall j | a <= j < b :: !IsPage(lines[j])
  }

  /** The offsets from line `i` of the panel lines among the first `n` lines, from line `j` up to
      the next page line: what the script records after the page line `i`. */
  function PanelsFrom(lines: seq<string>, n: nat, i: nat, j: nat): seq<int>
    requires n <= |lines|
    decreases n - j
  {
    if j >= n || IsPage(lines[j]) then []
    else (if IsPanel(lines[j]) then [j - i] else []) + PanelsFrom(lines, n, i, j + 1)
  }

  /** Reading one more line extends the offsets after a page line only when that line is a panel
      line and no page line came in between. */
  lemma {:induction false} PanelsFromNext(lines: seq<string>, n: nat, i: nat, j: nat)
    requires j <= n < |lines|
    ensures PanelsFrom(lines, n + 1, i, j)
            == PanelsFrom(lines, n, i, j) + if NoPage(lines, j, n + 1) && IsPanel(lines[n]) then [n - i] else []
    decreases n - j
  {
    var tail := if NoPage(lines, j, n + 1) && IsPanel(lines[n]) then [n - i] else [];
    if j == n {
      assert NoPage(lines, j, n + 1) == !IsPage(lines[n]);
      assert PanelsFrom(lines, n + 1, i, n + 1) == [];
    } else if IsPage(lines[j]) {
      assert !NoPage(lines, j, n + 1);
    } else {
      NoPageFirst(lines, j, n + 1);
      PanelsFromNext(lines, n, i, j + 1);
      var head: seq<int> := if IsPanel(lines[j]) then [j - i] else [];
      assert PanelsFrom(lines, n + 1, i, j) == head + (PanelsFrom(lines, n, i, j + 1) + tail);
      assert PanelsFrom(lines, n, i, j) == head + PanelsFrom(lines, n, i, j + 1);
    }
  }

  /** A stretch without page lines starts with a line that is not one. */
  lemma NoPageFirst(lines: seq<string>, a: nat, b: nat)
    requires a < b <= |lines|
    ensures NoPage(lines, a, b) == (!IsPage(lines[a]) && NoPage(lines, a + 1, b))
  {
  }

  /** Offset `o` leads from line `i` to a panel line among the first `n` that is not a page line,
      with no page line from line `j` up to it. */
  ghost predicate PanelOffset(lines: seq<string>, n: nat, i: nat, j: nat, o: int)
    requires n <= |lines|
  {
    j - i <= o && i + o < n && IsPanel(lines[i + o]) && !IsPage(lines[i + o]) && NoPage(lines, j, i + o)
  }

  /** The recorded offsets are at least `j - i`, strictly increasing, and each leads from line `i`
      to a panel line that is not a page line, with no page line in between. */
  lemma {:induction false} PanelsFromFacts(lines: seq<string>, n: nat, i: nat, j: nat)
    requires n <= |lines| && i < j
    ensures forall t | 0 <= t < |PanelsFrom(lines, n, i, j)| :: PanelOffset(lines, n, i, j, PanelsFrom(lines, n, i, j)[t])
    ensures forall s, t | 0 <= s < t < |PanelsFrom(lines, n, i, j)| :: PanelsFrom(lines, n, i, j)[s] < PanelsFrom(lines, n, i, j)[t]
    decreases n - j
  {
    if j < n && !IsPage(lines[j]) {
      PanelsFromFacts(lines, n, i, j + 1);
      var rest := PanelsFrom(lines, n, i, j + 1);
      var head: seq<int> := if IsPanel(lines[j]) then [j - i] else [];
      var o := head + rest;
      assert o == PanelsFrom(lines, n, i, j);
      forall t | 0 <= t < |o| ensures PanelOffset(lines, n, i, j, o[t]) {
        if t < |head| {
          assert o[t] == j - i;
        } else {
          assert o[t] == rest[t - |head|];
          assert PanelOffset(lines, n, i, j + 1, rest[t - |head|]);
        }
      }
      forall s, t | 0 <= s < t < |o| ensures o[s] < o[t] {
        if s >= |head| {
          assert o[s] == rest[s - |head|] && o[t] == rest[t - |head|];
        } else {
          assert o[t] == rest[t - |head|];
          assert PanelOffset(lines, n, i, j + 1, rest[t - |head|]);
        }
      }
    }
  }

  /** What the dictionary holds for page `k` after the first `n` lines: the index of the last
      page line labelled `k`, then the offsets of the panel lines after it. */
  ghost predicate PageRecord(lines: seq<string>, n: nat, k: string, v: seq<int>)
    requires n <= |lines|
  {
    && |v| >= 1 && 0 <= v[0] < n
    && PageMatch(lines[v[0]]) == Some(k)
    && (forall j | v[0] < j < n :: PageMatch(lines[j]) != Some(k))
    && v[1..] == PanelsFrom(lines, n, v[0], v[0] + 1)
  }

  /** A record is kept as it is by a line that neither carries its label nor adds a panel to it. */
  lemma RecordKept(lines: seq<string>, n: nat, k: string, v: seq<int>)
    requires n < |lines| && PageRecord(lines, n, k, v)
    requires PageMatch(lines[n]) != Some(k)
    requires IsPage(lines[n]) || !IsPanel(lines[n]) || !NoPage(lines, v[0] + 1, n)
    ensures PageRecord(lines, n + 1, k, v)
  {
    PanelsFromNext(lines, n, v[0], v[0] + 1);
  }

  /** A panel line after page line `v[0]`, with no page line in between, adds its offset. */
  lemma RecordExtended(lines: seq<string>, n: nat, k: string, v: seq<int>)
    requires n < |lines| && PageRecord(lines, n, k, v)
    requires !IsPage(lines[n]) && IsPanel(lines[n]) && NoPage(lines, v[0] + 1, n)
    ensures PageRecord(lines, n + 1, k, v + [n - v[0]])
  {
    PanelsFromNext(lines, n, v[0], v[0] + 1);
    assert (v + [n - v[0]])[1..] == v[1..] + [n - v[0]];
  }

  /** The page being read after the first `n` lines: none before the first page line, otherwise
      the label of the last page line, whose record starts at that line. */
  ghost predicate Current(lines: seq<string>, n: nat, d: OrdMap<string, seq<int>>, lastPgLine: int, thisPg: Option<string>)
    requires n <= |lines|
  {
    && (thisPg.None? ==> NoPage(lines, 0, n) && d.m == map[])
    && (thisPg.Some? ==>
          && 0 <= lastPgLine < n && PageMatch(lines[lastPgLine]) == thisPg
          && NoPage(lines, lastPgLine + 1, n)
          && thisPg.value in d.m && |d.m[thisPg.value]| >= 1 && d.m[thisPg.value][0] == lastPgLine)
  }

  /** Every page label among the first `n` lines is a key. */
  ghost predicate Covered(lines: seq<string>, n: nat, d: OrdMap<string, seq<int>>)
    requires n <= |lines|
  {
    forall j | 0 <= j < n && IsPage(lines[j]) :: PageMatch(lines[j]).value in d.m
  }

  /** Every key's record is as `PageRecord` says. */
  ghost predicate Records(lines: seq<string>, n: nat, d: OrdMap<string, seq<int>>)
    requires n <= |lines|
  {
    forall k | k in d.m :: PageRecord(lines, n, k, d.m[k])
  }

  /** Keys are never removed, so every page line read so far stays covered. */
  lemma CoveredNext(lines: seq<string>, n: nat, d: OrdMap<string, seq<int>>, d': OrdMap<string, seq<int>>)
    requires n < |lines| && Covered(lines, n, d) && d.m.Keys <= d'.m.Keys
    requires IsPage(lines[n]) ==> PageMatch(lines[n]).value in d'.m
    ensures Covered(lines, n + 1, d')
  {
    forall j | 0 <= j < n + 1 && IsPage(lines[j]) ensures PageMatch(lines[j]).value in d'.m {
      if j < n {
        assert PageMatch(lines[j]).value in d.m;
      }
    }
  }

  /** The state of `get_page_and_panel_dict` after the first `n` lines. */
  ghost predicate Scanned(lines: seq<string>, n: nat, d: OrdMap<string, seq<int>>, lastPgLine: int, thisPg: Option<string>)
    requires n <= |lines|
  {
    d.Valid() && Current(lines, n, d, lastPgLine, thisPg) && Covered(lines, n, d) && Records(lines, n, d)
  }

  /** A line after page line `lastPgLine`, labelled `pg`, keeps the record of any other label. */
  lemma RecordOfOtherPage(lines: seq<string>, n: nat, k: string, v: seq<int>, lastPgLine: nat, pg: string)
    requires n < |lines| && PageRecord(lines, n, k, v) && k != pg
    requires lastPgLine < n && PageMatch(lines[lastPgLine]) == Some(pg) && NoPage(lines, lastPgLine + 1, n)
    requires PageMatch(lines[n]) != Some(k)
    ensures PageRecord(lines, n + 1, k, v)
  {
    assert v[0] < lastPgLine;
    assert !NoPage(lines, v[0] + 1, n) by {
      assert IsPage(lines[lastPgLine]);
    }
    RecordKept(lines, n, k, v);
  }

  /** A page line labelled `pg` starts a new record for `pg` and keeps the others. */
  lemma PageRecords(lines: seq<string>, n: nat, d: OrdMap<string, seq<int>>, pg: string)
    requires n < |lines| && Records(lines, n, d) && PageMatch(lines[n]) == Some(pg)
    ensures Records(lines, n + 1, Put(d, pg, [n]))
  {
    var d' := Put(d, pg, [n]);
    forall k | k in d'.m ensures PageRecord(lines, n + 1, k, d'.m[k]) {
      if k != pg {
        RecordKept(lines, n, k, d.m[k]);
      }
    }
  }

  /** A page line starts a new record for its label. */
  lemma PageStep(lines: seq<string>, n: nat, d: OrdMap<string, seq<int>>, lastPgLine: int, thisPg: Option<string>, pg: string)
    requires n < |lines| && Scanned(lines, n, d, lastPgLine, thisPg) && PageMatch(lines[n]) == Some(pg)
    ensures Scanned(lines, n + 1, Put(d, pg, [n]), n, Some(pg))
  {
    var d' := Put(d, pg, [n]);
    PutValid(d, pg, [n]);
    PageRecords(lines, n, d, pg);
    CoveredNext(lines, n, d, d');
    assert Current(lines, n + 1, d', n, Some(pg));
  }

  /** A panel line after page line `lastPgLine`, labelled `pg`, extends the record of `pg` and
      keeps the others. */
  lemma PanelRecords(lines: seq<string>, n: nat, d: OrdMap<string, seq<int>>, lastPgLine: nat, pg: string)
    requires n < |lines| && Records(lines, n, d) && !IsPage(lines[n]) && IsPanel(lines[n])
    requires lastPgLine < n && PageMatch(lines[lastPgLine]) == Some(pg) && NoPage(lines, lastPgLine + 1, n)
    requires pg in d.m && |d.m[pg]| >= 1 && d.m[pg][0] == lastPgLine
    ensures Records(lines, n + 1, Put(d, pg, d.m[pg] + [n - lastPgLine]))
  {
    var d' := Put(d, pg, d.m[pg] + [n - lastPgLine]);
    forall k | k in d'.m ensures PageRecord(lines, n + 1, k, d'.m[k]) {
      if k == pg {
        RecordExtended(lines, n, k, d.m[k]);
      } else {
        RecordOfOtherPage(lines, n, k, d.m[k], lastPgLine, pg);
      }
    }
  }

  /** A panel line after a page line adds its offset to that page. */
  lemma PanelStep(lines: seq<string>, n: nat, d: OrdMap<string, seq<int>>, lastPgLine: int, pg: string)
    requires n < |lines| && Scanned(lines, n, d, lastPgLine, Some(pg))
    requires !IsPage(lines[n]) && IsPanel(lines[n])
    ensures Scanned(lines, n + 1, Put(d, pg, d.m[pg] + [n - lastPgLine]), lastPgLine, Some(pg))
  {
    var d' := Put(d, pg, d.m[pg] + [n - lastPgLine]);
    PutValid(d, pg, d.m[pg] + [n - lastPgLine]);
    PanelRecords(lines, n, d, lastPgLine, pg);
    CoveredNext(lines, n, d, d');
    assert Current(lines, n + 1, d', lastPgLine, Some(pg));
  }

  /** A line that is neither a page line nor a panel line keeps every record. */
  lemma OtherRecords(lines: seq<string>, n: nat, d: OrdMap<string, seq<int>>)
    requires n < |lines| && Records(lines, n, d) && !IsPage(lines[n]) && !IsPanel(lines[n])
    ensures Records(lines, n + 1, d)
  {
    forall k | k in d.m ensures PageRecord(lines, n + 1, k, d.m[k]) {
      RecordKept(lines, n, k, d.m[k]);
    }
  }

  /** Any other line changes nothing. */
  lemma OtherStep(lines: seq<string>, n: nat, d: OrdMap<string, seq<int>>, lastPgLine: int, thisPg: Option<string>)
    requires n < |lines| && Scanned(lines, n, d, lastPgLine, thisPg)
    requires !IsPage(lines[n]) && !IsPanel(lines[n])
    ensures Scanned(lines, n + 1, d, lastPgLine, thisPg)
  {
    OtherRecords(lines, n, d);
    CoveredNext(lines, n, d, d);
    assert Current(lines, n + 1, d, lastPgLine, thisPg);
  }

  /** What the dictionary holds after all the lines: every page label read is a key, and each
      key's record is as `PageRecord` says. */
  ghost predicate Recorded(lines: seq<string>, d: OrdMap<string, seq<int>>) {
    d.Valid() && Covered(lines, |lines|, d) && Records(lines, |lines|, d)
  }

  /** A panel line before any page line: the script then looks up the page `None`. */
  ghost predicate OrphanPanel(lines: seq<string>, j: nat)
    requires j < |lines|
  {
    IsPanel(lines[j]) && !IsPage(lines[j]) && NoPage(lines, 0, j)
  }

  /** No panel line among the first `n` comes before every page line. */
  ghost predicate NoOrphanBefore(lines: seq<string>, n: nat)
    requires n <= |lines|
  {
    forall j | 0 <= j < n :: !OrphanPanel(lines, j)
  }

  /** One turn of the loop of `get_page_and_panel_dict`: line `i` read in the state after the
      lines before it; `failed` when the line looks up the page `None`. */
  method ReadLine(lines: seq<string>, i: nat, ppDict: OrdMap<string, seq<int>>, lastPgLine: int, thisPg: Option<string>)
    returns (failed: bool, ppDict': OrdMap<string, seq<int>>, lastPgLine': int, thisPg': Option<string>)
    requires i < |lines| && Scanned(lines, i, ppDict, lastPgLine, thisPg) && NoOrphanBefore(lines, i)
    ensures failed <==> OrphanPanel(lines, i)
    ensures !failed ==> Scanned(lines, i + 1, ppDict', lastPgLine', thisPg') && NoOrphanBefore(lines, i + 1)
  {
    failed, ppDict', lastPgLine', thisPg' := false, ppDict, lastPgLine, thisPg;
    var pgM := PageMatch(lines[i]);
    if pgM.Some? {
      var pg := pgM.value;
      PageStep(lines, i, ppDict, lastPgLine, thisPg, pg);
      lastPgLine' := i;
      thisPg' := Some(pg);
      ppDict' := Put(ppDict, pg, [i]);
    } else if IsPanel(lines[i]) {
      if thisPg.None? {
        failed := true;
      } else {
        PanelStep(lines, i, ppDict, lastPgLine, thisPg.value);
        assert IsPage(lines[lastPgLine]);
        ppDict' := Put(ppDict, thisPg.value, ppDict.m[thisPg.value] + [i - lastPgLine]);
      }
    } else {
      OtherStep(lines, i, ppDict, lastPgLine, thisPg);
    }
  }

  /** `get_page_and_panel_dict(lines)`: fails exactly when a panel line comes before every page
      line, and otherwise records every page as `Recorded` says. */
  method GetPageAndPanelDict(lines: seq<string>) returns (r: Result<OrdMap<string, seq<int>>, string>)
    ensures r.Failure? <==> exists j | 0 <= j < |lines| :: OrphanPanel(lines, j)
    ensures r.Success? ==> Recorded(lines, r.value)
  {
    var ppDict: OrdMap<string, seq<int>> := Empty();
    var lastPgLine := 0;
    var thisPg: Option<string> := None;
    for i := 0 to |lines|
      invariant Scanned(lines, i, ppDict, lastPgLine, thisPg)
      invariant NoOrphanBefore(lines, i)
    {
      var failed;
      failed, ppDict, lastPgLine, thisPg := ReadLine(lines, i, ppDict, lastPgLine, thisPg);
      if failed {
        return Failure("KeyError: None");
      }
    }
    return Success(ppDict);
  }

  /** Every recorded page is a page label whose value starts with its last line index and then
      lists panel offsets that are at least 1, strictly increasing and lead to panel lines. */
  lemma RecordedOffsets(lines: seq<string>, d: OrdMap<string, seq<int>>, k: string)
    requires Recorded(lines, d) && k in d.m
    ensures IsPageLabel(k)
    ensures var v := d.m[k];
      && 0 <= v[0] < |lines| && PageMatch(lines[v[0]]) == Some(k)
      && (forall t | 1 <= t < |v| ::
            1 <= v[t] && v[0] + v[t] < |lines| && IsPanel(lines[v[0] + v[t]]) && !IsPage(lines[v[0] + v[t]]))
      && (forall s, t | 1 <= s < t < |v| :: v[s] < v[t])
  {
    var v := d.m[k];
    var o := PanelsFrom(lines, |lines|, v[0], v[0] + 1);
    PanelsFromFacts(lines, |lines|, v[0], v[0] + 1);
    assert v[1..] == o;
    forall t | 1 <= t < |v|
      ensures 1 <= v[t] && v[0] + v[t] < |lines| && IsPanel(lines[v[0] + v[t]]) && !IsPage(lines[v[0] + v[t]])
    {
      assert v[t] == o[t - 1];
      assert PanelOffset(lines, |lines|, v[0], v[0] + 1, o[t - 1]);
    }
    forall s, t | 1 <= s < t < |v| ensures v[s] < v[t] {
      assert v[s] == o[s - 1] && v[t] == o[t - 1];
    }
  }

  /** `f"Panel {n}\n"` */
  function Label(n: nat): (l: string)
    ensures IsLabel(l)
  {
    var l := "Panel " + NatToStr(n) + "\n";
    assert l[..6] == "Panel " && l[6] == NatToStr(n)[0];
    l
  }

  /** The shape of an inserted line: `Panel ` and then a digit. */
  predicate IsLabel(l: string) {
    |l| >= 7 && l[..6] == "Panel " && IsDigit(l[6])
  }

  /** An inserted line, stripped, is never a page label: it cannot be mistaken for a page line. */
  lemma LabelNotPage(l: string, p: string)
    requires IsLabel(l) && IsPageLabel(p)
    ensures Strip(l) != p
  {
    assert l[0] == 'P';
    assert LStrip(l) == l;
    var r := RStrip(l);
    RStripPrefix(l);
    assert !IsSpace(l[6]);
    assert |r| > 6;
    assert r[1] == l[1] == 'a';
  }

  /** The number of lines whose stripped text is `p`. */
  function Matches(s: seq<string>, p: string): (c: nat)
    ensures c <= |s|
  {
    if s == [] then 0 else (if Strip(s[0]) == p then 1 else 0) + Matches(s[1..], p)
  }

  lemma {:induction false} MatchesAppend(a: seq<string>, b: seq<string>, p: string)
    ensures Matches(a + b, p) == Matches(a, p) + Matches(b, p)
  {
    if a == [] {
      assert a + b == b;
    } else {
      assert (a + b)[0] == a[0] && (a + b)[1..] == a[1..] + b;
      MatchesAppend(a[1..], b, p);
    }
  }

  /** The lines of `s` not flagged in `f`: erasing the inserted lines. */
  function Keep(s: seq<string>, f: seq<bool>): seq<string>
    requires |f| == |s|
  {
    if s == [] then [] else (if f[0] then [] else [s[0]]) + Keep(s[1..], f[1..])
  }

  lemma {:induction false} KeepAppend(a: seq<string>, fa: seq<bool>, b: seq<string>, fb: seq<bool>)
    requires |fa| == |a| && |fb| == |b|
    ensures Keep(a + b, fa + fb) == Keep(a, fa) + Keep(b, fb)
  {
    if a == [] {
      assert a + b == b && fa + fb == fb;
    } else {
      assert (a + b)[0] == a[0] && (a + b)[1..] == a[1..] + b;
      assert (fa + fb)[0] == fa[0] && (fa + fb)[1..] == fa[1..] + fb;
      KeepAppend(a[1..], fa[1..], b, fb);
    }
  }

  /** Every flagged line is an inserted `Panel` line. */
  ghost predicate Labeled(s: seq<string>, f: seq<bool>)
    requires |f| == |s|
  {
    forall j | 0 <= j < |s| && f[j] :: IsLabel(s[j])
  }

  /** Counting the page label `p` sees through the flagged lines. */
  lemma {:induction false} MatchesKeep(s: seq<string>, f: seq<bool>, p: string)
    requires |f| == |s| && Labeled(s, f) && IsPageLabel(p)
    ensures Matches(Keep(s, f), p) == Matches(s, p)
  {
    if s != [] {
      if f[0] {
        LabelNotPage(s[0], p);
      }
      assert Labeled(s[1..], f[1..]) by {
        forall j | 0 <= j < |s| - 1 && f[1..][j] ensures IsLabel(s[1..][j]) {
          assert s[1..][j] == s[j + 1];
        }
      }
      MatchesKeep(s[1..], f[1..], p);
      MatchesAppend(if f[0] then [] else [s[0]], Keep(s[1..], f[1..]), p);
    }
  }

  /** `s.insert(k, x)` for `k >= 0`: past the end it appends. */
  function Insert<T>(s: seq<T>, k: nat, x: T): (r: seq<T>)
    ensures |r| == |s| + 1
    ensures forall m | 0 <= m < k && m < |s| :: r[m] == s[m]
    ensures r[if k < |s| then k else |s|] == x
  {
    if k >= |s| then s + [x] else s[..k] + [x] + s[k..]
  }

  /** Inserting a flagged line leaves the unflagged lines as they were. */
  lemma InsertKeep(s: seq<string>, f: seq<bool>, k: nat, x: string)
    requires |f| == |s|
    ensures Keep(Insert(s, k, x), Insert(f, k, true)) == Keep(s, f)
  {
    var c := if k < |s| then k else |s|;
    var a, fa, b, fb := s[..c], f[..c], s[c..], f[c..];
    assert Insert(s, k, x) == a + ([x] + b);
    assert Insert(f, k, true) == fa + ([true] + fb);
    KeepAppend(a, fa, [x] + b, [true] + fb);
    KeepFlagged(b, fb, x);
    SplitAt(s, c);
    SplitAt(f, c);
    KeepAppend(a, fa, b, fb);
  }

  lemma SplitAt<T>(s: seq<T>, c: nat)
    requires c <= |s|
    ensures s[..c] + s[c..] == s
  {
  }

  /** A flagged first line is erased. */
  lemma KeepFlagged(s: seq<string>, f: seq<bool>, x: string)
    requires |f| == |s|
    ensures Keep([x] + s, [true] + f) == Keep(s, f)
  {
    assert ([x] + s)[1..] == s && ([true] + f)[1..] == f;
  }

  /** An insertion after line `i` leaves lines `..i` in place and inserts into the rest. */
  lemma InsertAfter<T>(s: seq<T>, i: nat, k: nat, x: T)
    requires i < |s| && i < k
    ensures Insert(s, k, x)[..i + 1] == s[..i + 1]
    ensures Insert(s, k, x)[i + 1..] == Insert(s[i + 1..], k - i - 1, x)
  {
  }

  /** Where `Panel t + 1` goes for page line `i` in a list of `n` lines: at `i + pals[t]`, or at
      the end of the list as it is by then. */
  function Place(n: nat, i: nat, pals: seq<int>, t: nat): int
    requires t < |pals|
  {
    if i + pals[t] < n + t then i + pals[t] else n + t
  }

  /** `Panel 1` … `Panel j` are at their places. */
  ghost predicate Placed(lines: seq<string>, n: nat, i: nat, pals: seq<int>, j: nat)
    requires j <= |pals|
  {
    forall t | 0 <= t < j :: 0 <= Place(n, i, pals, t) < |lines| && lines[Place(n, i, pals, t)] == Label(t + 1)
  }

  /** With strictly increasing offsets, a further label lands after those already placed. */
  lemma PlacedNext(lines: seq<string>, n: nat, i: nat, pals: seq<int>, j: nat)
    requires j < |pals| && |lines| == n + j && i < n
    requires forall t | 0 <= t < |pals| :: pals[t] >= 1
    requires forall s, t | 0 <= s < t < |pals| :: pals[s] < pals[t]
    requires Placed(lines, n, i, pals, j)
    ensures Placed(Insert(lines, i + pals[j], Label(j + 1)), n, i, pals, j + 1)
  {
    var r := Insert(lines, i + pals[j], Label(j + 1));
    forall t | 0 <= t < j + 1 ensures 0 <= Place(n, i, pals, t) < |r| && r[Place(n, i, pals, t)] == Label(t + 1) {
      if t < j {
        assert Place(n, i, pals, t) < Place(n, i, pals, j);
      }
    }
  }

  /** One insertion after page line `i` keeps the lines up to `i`, the unflagged lines and the
      count of lines reading as `p` after `i`. */
  lemma InsertLabelKeeps(lines: seq<string>, flags: seq<bool>, i: nat, k: nat, x: string, p: string)
    requires |flags| == |lines| && i < |lines| && i < k && IsLabel(x) && IsPageLabel(p) && Labeled(lines, flags)
    ensures Insert(lines, k, x)[..i + 1] == lines[..i + 1]
    ensures Labeled(Insert(lines, k, x), Insert(flags, k, true))
    ensures Keep(Insert(lines, k, x), Insert(flags, k, true)) == Keep(lines, flags)
    ensures Matches(Insert(lines, k, x)[i + 1..], p) == Matches(lines[i + 1..], p)
  {
    InsertKeep(lines, flags, k, x);
    InsertAfter(lines, i, k, x);
    InsertMatches(lines[i + 1..], k - i - 1, x, p);
    var r := Insert(lines, k, x);
    var f := Insert(flags, k, true);
    var c := if k < |lines| then k else |lines|;
    forall m | 0 <= m < |r| && f[m] ensures IsLabel(r[m]) {
      if m < c {
        assert f[m] == flags[m] && r[m] == lines[m];
      } else if m > c {
        assert f[m] == flags[m - 1] && r[m] == lines[m - 1];
      }
    }
  }

  /** The list after the labels of page line `i` go in: `Panel t + 1` at `i + pals[t]` of the list
      as it is by then, for each offset in turn. */
  function WithLabels(lines: seq<string>, i: nat, pals: seq<int>): (r: seq<string>)
    requires forall t | 0 <= t < |pals| :: pals[t] >= 1
    ensures |r| == |lines| + |pals|
  {
    LabelsUpTo(lines, i, pals, |pals|)
  }

  /** The list once the labels of the first `j` offsets are in. */
  function LabelsUpTo(lines: seq<string>, i: nat, pals: seq<int>, j: nat): (r: seq<string>)
    requires j <= |pals| && forall t | 0 <= t < |pals| :: pals[t] >= 1
    ensures |r| == |lines| + j
  {
    if j == 0 then lines
    else Insert(LabelsUpTo(lines, i, pals, j - 1), i + pals[j - 1], Label(j))
  }

  /** The labels of the first `j` offsets keep the lines up to `i`. */
  lemma {:induction false} LabelsUpToPrefix(lines: seq<string>, i: nat, pals: seq<int>, j: nat)
    requires i < |lines| && j <= |pals| && forall t | 0 <= t < |pals| :: pals[t] >= 1
    ensures LabelsUpTo(lines, i, pals, j)[..i + 1] == lines[..i + 1]
  {
    if j > 0 {
      var prev := LabelsUpTo(lines, i, pals, j - 1);
      LabelsUpToPrefix(lines, i, pals, j - 1);
      InsertAfter(prev, i, i + pals[j - 1], Label(j));
    }
  }

  /** With strictly increasing offsets, the labels of the first `j` offsets are at their places. */
  lemma {:induction false} LabelsUpToPlaced(lines: seq<string>, i: nat, pals: seq<int>, j: nat)
    requires i < |lines| && j <= |pals| && forall t | 0 <= t < |pals| :: pals[t] >= 1
    requires forall s, t | 0 <= s < t < |pals| :: pals[s] < pals[t]
    ensures Placed(LabelsUpTo(lines, i, pals, j), |lines|, i, pals, j)
  {
    if j > 0 {
      var prev := LabelsUpTo(lines, i, pals, j - 1);
      assert LabelsUpTo(lines, i, pals, j) == Insert(prev, i + pals[j - 1], Label(j));
      LabelsUpToPlaced(lines, i, pals, j - 1);
      PlacedNext(prev, |lines|, i, pals, j - 1);
    }
  }

  /** All the labels of page line `i` keep the lines up to `i` and, with strictly increasing
      offsets, each `Panel t + 1` is at its `Place`. */
  lemma WithLabelsPlaced(lines: seq<string>, i: nat, pals: seq<int>)
    requires i < |lines| && forall t | 0 <= t < |pals| :: pals[t] >= 1
    ensures WithLabels(lines, i, pals)[..i + 1] == lines[..i + 1]
    ensures (forall s, t | 0 <= s < t < |pals| :: pals[s] < pals[t]) ==> Placed(WithLabels(lines, i, pals), |lines|, i, pals, |pals|)
  {
    LabelsUpToPrefix(lines, i, pals, |pals|);
    if forall s, t | 0 <= s < t < |pals| :: pals[s] < pals[t] {
      LabelsUpToPlaced(lines, i, pals, |pals|);
    }
  }

  /** The labels of the first `j` offsets are in: what the loop of `InsertLabels` keeps. */
  ghost predicate LabelsSoFar(lines: seq<string>, flags: seq<bool>, i: nat, pals: seq<int>, p: string, j: nat,
                              lines': seq<string>, flags': seq<bool>)
    requires |flags| == |lines| && i < |lines| && j <= |pals| && forall t | 0 <= t < |pals| :: pals[t] >= 1
  {
    && lines' == LabelsUpTo(lines, i, pals, j) && |flags'| == |lines'|
    && Labeled(lines', flags') && Keep(lines', flags') == Keep(lines, flags)
    && Matches(lines'[i + 1..], p) == Matches(lines[i + 1..], p)
  }

  /** The label of offset `j` goes in. */
  lemma LabelsSoFarNext(lines: seq<string>, flags: seq<bool>, i: nat, pals: seq<int>, p: string, j: nat,
                        lines': seq<string>, flags': seq<bool>)
    requires |flags| == |lines| && i < |lines| && IsPageLabel(p) && Labeled(lines, flags)
    requires j < |pals| && forall t | 0 <= t < |pals| :: pals[t] >= 1
    requires LabelsSoFar(lines, flags, i, pals, p, j, lines', flags')
    ensures LabelsSoFar(lines, flags, i, pals, p, j + 1,
                        Insert(lines', i + pals[j], Label(j + 1)), Insert(flags', i + pals[j], true))
  {
    assert |lines'| == |lines| + j;
    InsertLabelKeeps(lines', flags', i, i + pals[j], Label(j + 1), p);
  }

  /** The lines inserted for one page line `i`: `Panel 1`, `Panel 2`, … at `i` plus each offset of
      the list as updated so far. The lines up to `i` stay in place, the unflagged lines are kept,
      and with strictly increasing offsets each label lands at its `Place`. */
  method InsertLabels(lines: seq<string>, ghost flags: seq<bool>, i: nat, pals: seq<int>, ghost p: string)
    returns (lines': seq<string>, ghost flags': seq<bool>)
    requires |flags| == |lines| && i < |lines| && IsPageLabel(p) && Labeled(lines, flags)
    requires forall t | 0 <= t < |pals| :: pals[t] >= 1
    ensures lines' == WithLabels(lines, i, pals) && |flags'| == |lines'|
    ensures lines'[..i + 1] == lines[..i + 1]
    ensures Labeled(lines', flags') && Keep(lines', flags') == Keep(lines, flags)
    ensures Matches(lines'[i + 1..], p) == Matches(lines[i + 1..], p)
    ensures (forall s, t | 0 <= s < t < |pals| :: pals[s] < pals[t]) ==> Placed(lines', |lines|, i, pals, |pals|)
  {
    lines', flags' := lines, flags;
    for j := 0 to |pals|
      invariant LabelsSoFar(lines, flags, i, pals, p, j, lines', flags')
    {
      LabelsSoFarNext(lines, flags, i, pals, p, j, lines', flags');
      lines' := Insert(lines', i + pals[j], Label(j + 1));
      flags' := Insert(flags', i + pals[j], true);
    }
    WithLabelsPlaced(lines, i, pals);
  }

  /** Inserting a `Panel` line does not change how many lines read as page label `p`. */
  lemma InsertMatches(s: seq<string>, k: nat, x: string, p: string)
    requires IsLabel(x) && IsPageLabel(p)
    ensures Matches(Insert(s, k, x), p) == Matches(s, p)
  {
    var c := if k < |s| then k else |s|;
    assert s == s[..c] + s[c..];
    assert Insert(s, k, x) == s[..c] + ([x] + s[c..]);
    MatchesAppend(s[..c], [x] + s[c..], p);
    MatchesAppend(s[..c], s[c..], p);
    LabelNotPage(x, p);
    assert ([x] + s[c..])[1..] == s[c..];
  }

  /** Counting from line `i`: that line, then the rest. */
  lemma MatchesFrom(s: seq<string>, i: nat, p: string)
    requires i < |s|
    ensures Matches(s[i..], p) == (if Strip(s[i]) == p then 1 else 0) + Matches(s[i + 1..], p)
  {
    assert s[i..][1..] == s[i + 1..];
  }

  /** One turn of the loop that inserts labels: line `i` of `before` reads as page label `p`, and
      `after` is `before` with the labels of that line inserted. */
  ghost predicate Step(before: seq<string>, after: seq<string>, i: nat, p: string, pals: seq<int>) {
    && (forall t | 0 <= t < |pals| :: pals[t] >= 1)
    && i < |before| && Strip(before[i]) == p
    && after == WithLabels(before, i, pals)
  }

  /** The lists `states` the loop goes through, from `lines` on, one `Step` per page line found,
      at the strictly increasing indexes `found`. */
  ghost predicate Trace(lines: seq<string>, found: seq<nat>, states: seq<seq<string>>, p: string, pals: seq<int>) {
    && |states| == |found| + 1 && states[0] == lines
    && (forall k | 0 <= k < |found| :: Step(states[k], states[k + 1], found[k], p, pals))
    && (forall k, l | 0 <= k < l < |found| :: found[k] < found[l])
  }

  /** `after` is `before` once the labels of every line reading as `p` are in, one line after the
      other from the top. */
  ghost predicate PageLabeled(before: seq<string>, after: seq<string>, p: string, pals: seq<int>) {
    exists found: seq<nat>, states: seq<seq<string>> ::
      Trace(before, found, states, p, pals) && states[|found|] == after && |found| == Matches(before, p)
  }

  /** A further step, at a line below all those found so far, extends a trace. */
  lemma TraceNext(lines: seq<string>, found: seq<nat>, states: seq<seq<string>>, p: string, pals: seq<int>,
                  i: nat, after: seq<string>)
    requires Trace(lines, found, states, p, pals)
    requires Step(states[|found|], after, i, p, pals)
    requires forall k | 0 <= k < |found| :: found[k] < i
    ensures Trace(lines, found + [i], states + [after], p, pals)
  {
    var found', states' := found + [i], states + [after];
    forall k | 0 <= k < |found'| ensures Step(states'[k], states'[k + 1], found'[k], p, pals) {
      assert states'[k] == states[k];
      if k < |found| {
        assert states'[k + 1] == states[k + 1];
      }
    }
  }

  /** What the loop of `LabelPage` keeps once it has looked at the lines before `i`. */
  ghost predicate LabeledTo(lines: seq<string>, flags: seq<bool>, p: string, pals: seq<int>, i: nat,
                            lines': seq<string>, flags': seq<bool>, found: seq<nat>, states: seq<seq<string>>)
    requires |flags| == |lines|
  {
    && i <= |lines'| && |flags'| == |lines'|
    && Labeled(lines', flags') && Keep(lines', flags') == Keep(lines, flags)
    && |lines'| + Mul(Matches(lines'[i..], p), |pals|) == |lines| + Mul(Matches(lines, p), |pals|)
    && Trace(lines, found, states, p, pals) && states[|found|] == lines'
    && (forall k | 0 <= k < |found| :: found[k] < i)
    && |found| + Matches(lines'[i..], p) == Matches(lines, p)
  }

  /** Line `i` reads as `p` and gets its labels. */
  lemma LabeledToMatch(lines: seq<string>, flags: seq<bool>, p: string, pals: seq<int>, i: nat,
                       lines': seq<string>, flags': seq<bool>, found: seq<nat>, states: seq<seq<string>>,
                       lines'': seq<string>, flags'': seq<bool>)
    requires |flags| == |lines| && LabeledTo(lines, flags, p, pals, i, lines', flags', found, states)
    requires i < |lines'| && Strip(lines'[i]) == p && forall t | 0 <= t < |pals| :: pals[t] >= 1
    requires lines'' == WithLabels(lines', i, pals) && |flags''| == |lines''|
    requires Labeled(lines'', flags'') && Keep(lines'', flags'') == Keep(lines', flags')
    requires Matches(lines''[i + 1..], p) == Matches(lines'[i + 1..], p)
    ensures LabeledTo(lines, flags, p, pals, i + 1, lines'', flags'', found + [i], states + [lines''])
  {
    MatchesFrom(lines', i, p);
    var rest := Matches(lines'[i + 1..], p);
    assert Mul(rest + 1, |pals|) == Mul(rest, |pals|) + |pals|;
    assert Step(states[|found|], lines'', i, p, pals);
    TraceNext(lines, found, states, p, pals, i, lines'');
  }

  /** Line `i` does not read as `p` and stays as it is. */
  lemma LabeledToOther(lines: seq<string>, flags: seq<bool>, p: string, pals: seq<int>, i: nat,
                       lines': seq<string>, flags': seq<bool>, found: seq<nat>, states: seq<seq<string>>)
    requires |flags| == |lines| && LabeledTo(lines, flags, p, pals, i, lines', flags', found, states)
    requires i < |lines'| && Strip(lines'[i]) != p
    ensures LabeledTo(lines, flags, p, pals, i + 1, lines', flags', found, states)
  {
    MatchesFrom(lines', i, p);
  }

  /** The loop over the lines, as updated, for page `p`: every line reading as `p`, including
      those moved along by earlier insertions, gets its labels, one line after the other from the
      top, so the list grows by `|pals|` per such line. */
  method LabelPage(lines: seq<string>, ghost flags: seq<bool>, p: string, pals: seq<int>)
    returns (lines': seq<string>, ghost flags': seq<bool>)
    requires |flags| == |lines| && IsPageLabel(p) && Labeled(lines, flags)
    requires forall t | 0 <= t < |pals| :: pals[t] >= 1
    ensures |flags'| == |lines'| && Labeled(lines', flags') && Keep(lines', flags') == Keep(lines, flags)
    ensures |lines'| == |lines| + Matches(lines, p) * |pals|
    ensures PageLabeled(lines, lines', p, pals)
  {
    lines', flags' := lines, flags;
    ghost var found: seq<nat>, states := [], [lines];
    var i := 0;
    while i < |lines'|
      invariant LabeledTo(lines, flags, p, pals, i, lines', flags', found, states)
      decreases Matches(lines'[i..], p), |lines'| - i
    {
      MatchesFrom(lines', i, p);
      if Strip(lines'[i]) == p {
        var lines'', flags'' := InsertLabels(lines', flags', i, pals, p);
        LabeledToMatch(lines, flags, p, pals, i, lines', flags', found, states, lines'', flags'');
        lines', flags', found, states := lines'', flags'', found + [i], states + [lines''];
      } else {
        LabeledToOther(lines, flags, p, pals, i, lines', flags', found, states);
      }
      i := i + 1;
    }
    MulIsProduct(Matches(lines, p), |pals|);
    assert Trace(lines, found, states, p, pals) && states[|found|] == lines' && |found| == Matches(lines, p);
  }

  /** `a * b` by repeated addition, which keeps the loop above linear. */
  function Mul(a: nat, b: nat): nat {
    if a == 0 then 0 else Mul(a - 1, b) + b
  }

  lemma {:induction false} MulIsProduct(a: nat, b: nat)
    ensures Mul(a, b) == a * b
  {
    if a > 0 {
      MulIsProduct(a - 1, b);
      assert (a - 1) * b + b == a * b;
    }
  }

  /** The labels each page of the dictionary adds to `lines`: its panel count for every line
      reading as it. */
  function Added(keys: seq<string>, m: map<string, seq<int>>, lines: seq<string>): nat
    decreases |keys|
  {
    if keys == [] then 0
    else
      var k := keys[|keys| - 1];
      var panels := if k in m && |m[k]| >= 1 then |m[k]| - 1 else 0;
      Added(keys[..|keys| - 1], m, lines) + Matches(lines, k) * panels
  }

  /** One more page of the dictionary adds its own labels. */
  lemma AddedNext(keys: seq<string>, m: map<string, seq<int>>, lines: seq<string>, n: nat)
    requires n < |keys| && keys[n] in m && |m[keys[n]]| >= 1
    ensures Added(keys[..n + 1], m, lines) == Added(keys[..n], m, lines) + Matches(lines, keys[n]) * (|m[keys[n]]| - 1)
  {
    assert keys[..n + 1][..n] == keys[..n];
  }

  /** The panel offsets of a dictionary entry: all but its first element, the page's line index. */
  function Offsets(v: seq<int>): seq<int> {
    if v == [] then [] else v[1..]
  }

  /** What `insert_panel_labels` needs of a dictionary entry: a page label, a first line index, and
      panel offsets of at least 1. */
  predicate Insertable(k: string, v: seq<int>) {
    IsPageLabel(k) && |v| >= 1 && forall t | 1 <= t < |v| :: v[t] >= 1
  }

  /** `pages`, of `n + 1` lists, goes through the first `n` pages of the dictionary: each list is
      the one before with the labels of one page inserted. */
  ghost predicate PagesLabeled(d: OrdMap<string, seq<int>>, pages: seq<seq<string>>, n: nat) {
    && |pages| == n + 1 && n <= |d.keys|
    && forall j | 0 <= j < n :: d.keys[j] in d.m && PageLabeled(pages[j], pages[j + 1], d.keys[j], Offsets(d.m[d.keys[j]]))
  }

  /** `insert_panel_labels(pp_dict, out_lines)`: a copy of the lines with the `Panel` lines of
      every page inserted, page after page in the order of the dictionary (`pages` lists the copy
      after each). Erasing the inserted lines, which are all `Panel` lines, gives back the input in
      order, and each page adds its number of panels for every line reading as it. */
  method InsertPanelLabels(ppDict: OrdMap<string, seq<int>>, outLines: seq<string>)
    returns (updatedLines: seq<string>, ghost inserted: seq<bool>, ghost pages: seq<seq<string>>)
    requires ppDict.Valid() && forall k | k in ppDict.m :: Insertable(k, ppDict.m[k])
    ensures |inserted| == |updatedLines| && Labeled(updatedLines, inserted)
    ensures Keep(updatedLines, inserted) == outLines
    ensures |updatedLines| == |outLines| + Added(ppDict.keys, ppDict.m, outLines)
    ensures PagesLabeled(ppDict, pages, |ppDict.keys|) && pages[0] == outLines && pages[|ppDict.keys|] == updatedLines
  {
    updatedLines := outLines;
    inserted := seq(|outLines|, _ => false);
    pages := [outLines];
    assert Keep(updatedLines, inserted) == outLines by {
      KeepNone(outLines, inserted);
    }
    for n := 0 to |ppDict.keys|
      invariant |inserted| == |updatedLines| && Labeled(updatedLines, inserted)
      invariant Keep(updatedLines, inserted) == outLines
      invariant |updatedLines| == |outLines| + Added(ppDict.keys[..n], ppDict.m, outLines)
      invariant PagesLabeled(ppDict, pages, n) && pages[0] == outLines && pages[n] == updatedLines
    {
      updatedLines, inserted := LabelNthPage(ppDict, n, outLines, updatedLines, inserted);
      PagesNext(ppDict, pages, n, updatedLines);
      pages := pages + [updatedLines];
    }
    assert ppDict.keys[..|ppDict.keys|] == ppDict.keys;
  }

  /** One more page of the dictionary extends `pages`. */
  lemma PagesNext(d: OrdMap<string, seq<int>>, pages: seq<seq<string>>, n: nat, after: seq<string>)
    requires PagesLabeled(d, pages, n) && n < |d.keys| && d.keys[n] in d.m
    requires PageLabeled(pages[n], after, d.keys[n], Offsets(d.m[d.keys[n]]))
    ensures PagesLabeled(d, pages + [after], n + 1) && (pages + [after])[0] == pages[0]
  {
    var pages' := pages + [after];
    forall j | 0 <= j < n + 1
      ensures d.keys[j] in d.m && PageLabeled(pages'[j], pages'[j + 1], d.keys[j], Offsets(d.m[d.keys[j]]))
    {
      assert pages'[j] == pages[j];
    }
  }

  /** One turn of the loop of `insert_panel_labels`: the `Panel` lines of the `n`-th page. */
  method LabelNthPage(ppDict: OrdMap<string, seq<int>>, n: nat, outLines: seq<string>,
                      lines: seq<string>, ghost flags: seq<bool>)
    returns (lines': seq<string>, ghost flags': seq<bool>)
    requires ppDict.Valid() && forall k | k in ppDict.m :: Insertable(k, ppDict.m[k])
    requires n < |ppDict.keys|
    requires |flags| == |lines| && Labeled(lines, flags) && Keep(lines, flags) == outLines
    requires |lines| == |outLines| + Added(ppDict.keys[..n], ppDict.m, outLines)
    ensures |flags'| == |lines'| && Labeled(lines', flags') && Keep(lines', flags') == outLines
    ensures |lines'| == |outLines| + Added(ppDict.keys[..n + 1], ppDict.m, outLines)
    ensures PageLabeled(lines, lines', ppDict.keys[n], Offsets(ppDict.m[ppDict.keys[n]]))
  {
    var p := ppDict.keys[n];
    var v := ppDict.m[p];
    assert Insertable(p, v);
    var pals := Offsets(v);
    MatchesKeep(lines, flags, p);
    lines', flags' := LabelPage(lines, flags, p, pals);
    AddedGrows(ppDict.keys, ppDict.m, outLines, n, |lines|, |lines'|, Matches(lines, p));
  }

  /** The length after page `n`, from the length before it and that page's growth. */
  lemma AddedGrows(keys: seq<string>, m: map<string, seq<int>>, outLines: seq<string>, n: nat,
                   before: nat, after: nat, matches: nat)
    requires n < |keys| && keys[n] in m && |m[keys[n]]| >= 1
    requires before == |outLines| + Added(keys[..n], m, outLines)
    requires matches == Matches(outLines, keys[n]) && after == before + matches * |m[keys[n]][1..]|
    ensures after == |outLines| + Added(keys[..n + 1], m, outLines)
  {
    AddedNext(keys, m, outLines, n);
  }

  /** With nothing flagged, nothing is erased. */
  lemma {:induction false} KeepNone(s: seq<string>, f: seq<bool>)
    requires |f| == |s| && forall j | 0 <= j < |f| :: !f[j]
    ensures Keep(s, f) == s
  {
    if s != [] {
      KeepNone(s[1..], f[1..]);
    }
  }

  /** The dictionary `get_page_and_panel_dict` builds is one `insert_panel_labels` accepts. */
  lemma RecordedInsertable(lines: seq<string>, d: OrdMap<string, seq<int>>)
    requires Recorded(lines, d)
    ensures forall k | k in d.m :: Insertable(k, d.m[k])
  {
    forall k | k in d.m ensures Insertable(k, d.m[k]) {
      RecordedOffsets(lines, d, k);
    }
  }
}
