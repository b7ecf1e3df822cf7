/** `verify_paragraph_count` and `get_total_paragraph_count`, which harmonize-verse-markers.py
    and compare-markers.py define identically: the chapters whose paragraph counts differ
    between a base and a target file, and the number of paragraphs of a file. */
module ParagraphCheck {
  import opened Wrappers
  import opened Ordered
  import opened SfmInfo

  /** The entry recorded for a chapter whose counts differ: `base`, `target`, `diff`. */
  datatype Mismatch = Mismatch(base: nat, target: nat, diff: int)

  function MismatchOf(b: ChapterRecord, t: ChapterRecord): (m: Mismatch)
    ensures m.diff == m.base - m.target
  {
    Mismatch(b.paragraphCount, t.paragraphCount, b.paragraphCount - t.paragraphCount)
  }

  /** `s[::-1]` */
  function Reverse<T>(s: seq<T>): (r: seq<T>)
    ensures |r| == |s|
  {
    if s == [] then [] else Reverse(s[1..]) + [s[0]]
  }

  lemma {:induction false} ReverseAppend<T>(s: seq<T>, t: seq<T>)
    ensures Reverse(s + t) == Reverse(t) + Reverse(s)
  {
    if s == [] {
      assert s + t == t;
    } else {
      assert (s + t)[1..] == s[1..] + t;
      ReverseAppend(s[1..], t);
    }
  }

  /** Position `i` of the reverse holds position `|s| - 1 - i` of `s`. */
  lemma {:induction false} ReverseIndex<T>(s: seq<T>)
    ensures forall i | 0 <= i < |s| :: Reverse(s)[i] == s[|s| - 1 - i]
  {
    if s != [] {
      ReverseIndex(s[1..]);
    }
  }

  /** The chapters among `chs`, in their order, whose paragraph counts differ. */
  function Differing(chs: seq<int>, binfo: Info, tinfo: Info): (r: seq<int>)
    requires forall k | 0 <= k < |chs| :: chs[k] in binfo.m && chs[k] in tinfo.m
    ensures forall c :: c in r <==> c in chs && binfo.m[c].paragraphCount != tinfo.m[c].paragraphCount
  {
    if chs == [] then []
    else
      var c := chs[0];
      (if binfo.m[c].paragraphCount != tinfo.m[c].paragraphCount then [c] else [])
      + Differing(chs[1..], binfo, tinfo)
  }

  /** The same chapters met walking `chs` from its end: the order in which
      `verify_paragraph_count` records them. */
  function DifferingBackwards(chs: seq<int>, binfo: Info, tinfo: Info): (r: seq<int>)
    requires forall k | 0 <= k < |chs| :: chs[k] in binfo.m && chs[k] in tinfo.m
    ensures forall c :: c in r <==> c in chs && binfo.m[c].paragraphCount != tinfo.m[c].paragraphCount
  {
    if chs == [] then []
    else
      var c := chs[0];
      DifferingBackwards(chs[1..], binfo, tinfo)
      + (if binfo.m[c].paragraphCount != tinfo.m[c].paragraphCount then [c] else [])
  }

  /** Walking backwards gives the chapters in reverse. */
  lemma {:induction false} DifferingBackwardsReversed(chs: seq<int>, binfo: Info, tinfo: Info)
    requires forall k | 0 <= k < |chs| :: chs[k] in binfo.m && chs[k] in tinfo.m
    ensures Reverse(DifferingBackwards(chs, binfo, tinfo)) == Differing(chs, binfo, tinfo)
  {
    if chs != [] {
      var c := chs[0];
      var x := if binfo.m[c].paragraphCount != tinfo.m[c].paragraphCount then [c] else [];
      ReverseAppend(DifferingBackwards(chs[1..], binfo, tinfo), x);
      DifferingBackwardsReversed(chs[1..], binfo, tinfo);
      assert Reverse(x) == x by {
        if x != [] {
          assert x[1..] == [];
        }
      }
    }
  }

  /** `verify_paragraph_count(binfo, tinfo)`: the base chapters are visited last to first;
      a base chapter the target lacks stops the script (`None.get`), and the first one met,
      that is the last in base order, is reported. Otherwise the result holds an entry for
      exactly the base chapters whose counts differ, keyed in the order they were visited. */
  method VerifyParagraphCount(binfo: Info, tinfo: Info) returns (r: Result<OrdMap<int, Mismatch>, int>)
    requires binfo.Valid()
    ensures r.Failure? ==> exists k | 0 <= k < |binfo.keys| :: binfo.keys[k] == r.error && r.error !in tinfo.m
                                      && forall j | k < j < |binfo.keys| :: binfo.keys[j] in tinfo.m
    ensures r.Success? ==> (forall c | c in binfo.m :: c in tinfo.m)
                           && (forall k | 0 <= k < |binfo.keys| :: binfo.keys[k] in tinfo.m)
                           && r.value.Valid() && r.value.keys == DifferingBackwards(binfo.keys, binfo, tinfo)
    ensures r.Success? ==> forall c | c in r.value.m ::
              c in binfo.m && c in tinfo.m && r.value.m[c] == MismatchOf(binfo.m[c], tinfo.m[c])
  {
    var chs := binfo.keys;
    var mismatched: OrdMap<int, Mismatch> := Empty();
    var j := |chs|;
    while j > 0
      invariant 0 <= j <= |chs|
      invariant forall k | j <= k < |chs| :: chs[k] in tinfo.m
      invariant mismatched.Valid() && mismatched.keys == DifferingBackwards(chs[j..], binfo, tinfo)
      invariant forall c | c in mismatched.m ::
                  c in binfo.m && c in tinfo.m && mismatched.m[c] == MismatchOf(binfo.m[c], tinfo.m[c])
    {
      j := j - 1;
      var bc := chs[j];
      if bc !in tinfo.m {
        return Failure(bc);
      }
      assert chs[j..][1..] == chs[j + 1..];
      if tinfo.m[bc].paragraphCount != binfo.m[bc].paragraphCount {
        assert bc !in chs[j + 1..];
        PutValid(mismatched, bc, MismatchOf(binfo.m[bc], tinfo.m[bc]));
        mismatched := Put(mismatched, bc, MismatchOf(binfo.m[bc], tinfo.m[bc]));
      }
    }
    assert chs[0..] == chs;
    return Success(mismatched);
  }

  /** The report of `main`: the mismatch entries taken in reverse of the order they were
      recorded in. */
  function Report(mismatched: OrdMap<int, Mismatch>): (r: seq<int>)
    ensures |r| == |mismatched.keys|
  {
    Reverse(mismatched.keys)
  }

  /** Recorded last to first and printed reversed, the mismatches come out in base order. */
  lemma ReportInBaseOrder(binfo: Info, tinfo: Info, mismatched: OrdMap<int, Mismatch>)
    requires forall k | 0 <= k < |binfo.keys| :: binfo.keys[k] in binfo.m && binfo.keys[k] in tinfo.m
    requires mismatched.keys == DifferingBackwards(binfo.keys, binfo, tinfo)
    ensures Report(mismatched) == Differing(binfo.keys, binfo, tinfo)
  {
    DifferingBackwardsReversed(binfo.keys, binfo, tinfo);
  }

  /** `get_total_paragraph_count(info)`: the paragraph counts summed over the chapters. */
  method GetTotalParagraphCount(info: Info) returns (pct: nat)
    requires info.Valid()
    ensures pct == TotalCount(info)
  {
    pct := 0;
    var j := 0;
    while j < |info.keys|
      invariant 0 <= j <= |info.keys|
      invariant pct == SumCounts(info.keys[..j], info.m)
    {
      assert info.keys[..j + 1][..j] == info.keys[..j];
      pct := pct + info.m[info.keys[j]].paragraphCount;
      j := j + 1;
    }
    assert info.keys[..j] == info.keys;
  }

  /** One line of the mismatch report: a chapter and its entry. */
  datatype MismatchLine = MismatchLine(ch: int, entry: Mismatch)

  /** Every base chapter is in the target with as many paragraphs. */
  ghost predicate CountsAgree(binfo: Info, tinfo: Info) {
    forall c | c in binfo.m :: c in tinfo.m && binfo.m[c].paragraphCount == tinfo.m[c].paragraphCount
  }

  /** The report loop of `main`: the mismatch entries taken in the reverse of their
      recording order. */
  method MismatchRows(mismatched: OrdMap<int, Mismatch>) returns (rows: seq<MismatchLine>)
    requires mismatched.Valid()
    ensures |rows| == |Report(mismatched)|
    ensures forall l | 0 <= l < |rows| ::
              rows[l].ch == Report(mismatched)[l] && rows[l].ch in mismatched.m && rows[l].entry == mismatched.m[rows[l].ch]
  {
    var order := Report(mismatched);
    ReverseIndex(mismatched.keys);
    assert forall l | 0 <= l < |order| :: order[l] in mismatched.m;
    rows := [];
    var i := 0;
    while i < |order|
      invariant 0 <= i <= |order|
      invariant |rows| == i && forall l | 0 <= l < i :: rows[l] == MismatchLine(order[l], mismatched.m[order[l]])
    {
      var mp := order[i];
      rows := rows + [MismatchLine(mp, mismatched.m[mp])];
      i := i + 1;
    }
  }

  /** Verification of paragraph counts found nothing to report exactly when the counts agree. */
  lemma NoMismatchIffCountsAgree(binfo: Info, tinfo: Info)
    requires binfo.Valid() && forall k | 0 <= k < |binfo.keys| :: binfo.keys[k] in tinfo.m
    ensures DifferingBackwards(binfo.keys, binfo, tinfo) == [] <==> CountsAgree(binfo, tinfo)
  {
    var d := DifferingBackwards(binfo.keys, binfo, tinfo);
    if d != [] {
      assert d[0] in d;
    }
    if !CountsAgree(binfo, tinfo) {
      var c :| c in binfo.m && !(c in tinfo.m && binfo.m[c].paragraphCount == tinfo.m[c].paragraphCount);
      assert c in binfo.keys;
      assert c in d;
    }
  }

  /** The rows built by `MismatchRows` are the differing chapters in base order, each with
      its entry. */
  lemma ReportRowsInBaseOrder(binfo: Info, tinfo: Info, mismatched: OrdMap<int, Mismatch>, rows: seq<MismatchLine>)
    requires binfo.Valid() && forall k | 0 <= k < |binfo.keys| :: binfo.keys[k] in tinfo.m
    requires mismatched.keys == DifferingBackwards(binfo.keys, binfo, tinfo)
    requires forall c | c in mismatched.m :: c in binfo.m && c in tinfo.m && mismatched.m[c] == MismatchOf(binfo.m[c], tinfo.m[c])
    requires |rows| == |Report(mismatched)|
    requires forall l | 0 <= l < |rows| ::
               rows[l].ch == Report(mismatched)[l] && rows[l].ch in mismatched.m && rows[l].entry == mismatched.m[rows[l].ch]
    ensures var d := Differing(binfo.keys, binfo, tinfo);
      |rows| == |d| && forall i | 0 <= i < |d| ::
        rows[i].ch == d[i] && d[i] in binfo.m && d[i] in tinfo.m && rows[i].entry == MismatchOf(binfo.m[d[i]], tinfo.m[d[i]])
  {
    ReportInBaseOrder(binfo, tinfo, mismatched);
  }
}
