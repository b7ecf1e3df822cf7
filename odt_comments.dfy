/** convert-odt-comments-to-xml.py: the reviewer comments anchored in the paragraphs of an ODT
    document become Paratext comment records, each with the verse reference of the page and
    panel it sits in and the words around it; the text of every panel is collected on the side
    to fill in each record's verse text. */
module OdtComments {
  import opened Wrappers
  import opened Text

  /** A node of the document tree: its tag, its own character data (text nodes carry text,
      elements none) and its children. */
  datatype Node = Node(tag: Tag, data: string, children: seq<Node>)

  /** The tag name of a node, as far as the script tells tags apart: `office:annotation`,
      `office:annotation-end`, or any other name. */
  datatype Tag = AnnotationTag | AnnotationEndTag | OtherTag(name: string)

  /** `str(node)`: a node's own data followed by the text of its children, in order. */
  function Str(n: Node): string
    decreases n, 1
  {
    n.data + StrFrom(n, 0)
  }

  /** The text of the children of `n` from the `k`-th on. */
  function StrFrom(n: Node, k: nat): string
    decreases n, 0, |n.children| - k
  {
    if k >= |n.children| then "" else Str(n.children[k]) + StrFrom(n, k + 1)
  }

  // ---------------------------------------------------------------------------------------
  // has_comment

  /** `has_comment(node)`: some child is an annotation, or has one below it. */
  function HasComment(n: Node): bool
    decreases n, 1
  {
    AnyComment(n, 0)
  }

  /** The loop of `has_comment` from the `k`-th child on, returning at the first hit. */
  function AnyComment(n: Node, k: nat): bool
    decreases n, 0, |n.children| - k
  {
    if k >= |n.children| then false
    else n.children[k].tag == AnnotationTag || HasComment(n.children[k]) || AnyComment(n, k + 1)
  }

  /** The node reached from `n` by following child indices. */
  function At(n: Node, path: seq<nat>): Option<Node>
    decreases |path|
  {
    if path == [] then Some(n)
    else if path[0] < |n.children| then At(n.children[path[0]], path[1..])
    else None
  }

  /** `path` leads from `n` to a proper descendant tagged as an annotation. */
  ghost predicate AnnotationAt(n: Node, path: seq<nat>) {
    path != [] && At(n, path).Some? && At(n, path).value.tag == AnnotationTag
  }

  /** `has_comment` holds exactly when some proper descendant is an annotation. */
  lemma HasCommentIff(n: Node)
    ensures HasComment(n) <==> exists path :: AnnotationAt(n, path)
  {
    if HasComment(n) {
      var path := CommentPath(n);
    }
    if path :| AnnotationAt(n, path) {
      CommentFound(n, path);
    }
  }

  /** A path to an annotation the search of `has_comment` finds. */
  lemma {:induction false} CommentPath(n: Node) returns (path: seq<nat>)
    requires HasComment(n)
    ensures AnnotationAt(n, path)
    decreases n, 1
  {
    path := CommentPathFrom(n, 0);
  }

  lemma {:induction false} CommentPathFrom(n: Node, k: nat) returns (path: seq<nat>)
    requires AnyComment(n, k)
    ensures AnnotationAt(n, path) && path[0] >= k
    decreases n, 0, |n.children| - k
  {
    var c := n.children[k];
    if c.tag == AnnotationTag {
      path := [k];
      assert At(n, path) == At(c, []);
    } else if HasComment(c) {
      var sub := CommentPath(c);
      path := [k] + sub;
      assert path[1..] == sub;
    } else {
      path := CommentPathFrom(n, k + 1);
    }
  }

  /** Any annotation below `n` is found by `has_comment`. */
  lemma {:induction false} CommentFound(n: Node, path: seq<nat>)
    requires AnnotationAt(n, path)
    ensures HasComment(n)
    decreases |path|
  {
    var c := n.children[path[0]];
    if |path| > 1 {
      assert AnnotationAt(c, path[1..]);
      CommentFound(c, path[1..]);
    }
    AnyCommentReaches(n, 0, path[0]);
  }

  lemma {:induction false} AnyCommentReaches(n: Node, k: nat, c: nat)
    requires k <= c < |n.children|
    requires n.children[c].tag == AnnotationTag || HasComment(n.children[c])
    ensures AnyComment(n, k)
    decreases c - k
  {
    if k < c {
      AnyCommentReaches(n, k + 1, c);
    }
  }

  // ---------------------------------------------------------------------------------------
  // Annotations counted by append_comment

  /** The number of annotations among the proper descendants of `n`: what `append_comment`
      adds to `comment_count` for the paragraph `n`. */
  function Annotated(n: Node): nat
    decreases n, 1
  {
    AnnotatedUpTo(n, |n.children|)
  }

  /** The annotations among the first `k` children of `n` and below them. */
  function AnnotatedUpTo(n: Node, k: nat): nat
    requires k <= |n.children|
    decreases n, 0, k
  {
    if k == 0 then 0
    else
      var c := n.children[k - 1];
      AnnotatedUpTo(n, k - 1) + (if c.tag == AnnotationTag then 1 else 0) + Annotated(c)
  }

  /** `has_comment` holds exactly when `append_comment` would count some comment. */
  lemma {:induction false} HasCommentCount(n: Node)
    ensures HasComment(n) <==> Annotated(n) > 0
    decreases n, 1
  {
    AnyCommentCount(n, 0);
  }

  lemma {:induction false} AnyCommentCount(n: Node, k: nat)
    requires k <= |n.children|
    ensures AnyComment(n, k) <==> AnnotatedUpTo(n, |n.children|) > AnnotatedUpTo(n, k)
    decreases n, 0, |n.children| - k
  {
    if k < |n.children| {
      HasCommentCount(n.children[k]);
      AnyCommentCount(n, k + 1);
      AnnotatedUpToMonotone(n, k + 1, |n.children|);
    }
  }

  lemma {:induction false} AnnotatedUpToMonotone(n: Node, j: nat, k: nat)
    requires j <= k <= |n.children|
    ensures AnnotatedUpTo(n, j) <= AnnotatedUpTo(n, k)
    decreases k - j
  {
    if j < k {
      AnnotatedUpToMonotone(n, j, k - 1);
    }
  }

  // ---------------------------------------------------------------------------------------
  // Verse references

  /** The text of each panel, by chapter and verse: `doc_content`. */
  type Doc = map<int, map<int, seq<string>>>

  /** `f"{book} {chapter}:{verse}"` */
  function VerseRef(book: string, chapter: int, verse: int): string {
    book + " " + IntToStr(chapter) + ":" + IntToStr(verse)
  }

  /** `s.split(sep)`: the pieces between the separators, empty ones included. */
  function Split(s: string, sep: char): (parts: seq<string>)
    ensures |parts| >= 1
    decreases |s|
  {
    var h := UpTo(s, sep);
    if |h| == |s| then [s] else [h] + Split(s[|h| + 1..], sep)
  }

  /** `get_verse_text(doc_content, ref)`: the second word of the reference, split at `:` into
      exactly two integers, names the cell; a missing word is an IndexError and a different
      number of pieces a ValueError. Then, in Python's order of evaluation, the chapter is
      converted and looked up before the verse is: a chapter that is no integer is a ValueError,
      a missing chapter a KeyError, and only then a verse that is no integer a ValueError and a
      missing verse a KeyError. */
  function GetVerseText(doc: Doc, ref: string): (r: Result<seq<string>, string>)
    ensures r.Success? ==> exists c, v :: c in doc && v in doc[c] && r.value == doc[c][v]
    ensures |Words(ref)| < 2 <==> r == Failure("IndexError")
  {
    var ws := Words(ref);
    if |ws| < 2 then Failure("IndexError")
    else
      var parts := Split(ws[1], ':');
      if |parts| != 2 then Failure("ValueError")
      else match ParseInt(parts[0])
        case None => Failure("ValueError")
        case Some(c) =>
          if c !in doc then Failure("KeyError")
          else match ParseInt(parts[1])
            case None => Failure("ValueError")
            case Some(v) => if v in doc[c] then Success(doc[c][v]) else Failure("KeyError")
  }

  /** The chapter and verse `append_comment` reads back from a reference: the first two pieces
      of its second word split at `:`, each converted to an integer (further pieces are not
      looked at); `None` where Python raises. */
  function RefPosition(ref: string): (r: Option<(int, int)>)
    ensures r.Some? ==> |Words(ref)| >= 2
  {
    var ws := Words(ref);
    if |ws| < 2 then None
    else
      var parts := Split(ws[1], ':');
      if |parts| < 2 then None
      else match (ParseInt(parts[0]), ParseInt(parts[1]))
        case (Some(c), Some(v)) => Some((c, v))
        case _ => None
  }

  lemma {:induction false} UpToAbsent(s: string, c: char)
    requires c !in s
    ensures UpTo(s, c) == s
  {
    if s != [] {
      UpToAbsent(s[1..], c);
      assert [s[0]] + s[1..] == s;
    }
  }

  lemma {:induction false} UpToBefore(a: string, c: char, b: string)
    requires c !in a
    ensures UpTo(a + [c] + b, c) == a
  {
    if a != [] {
      assert (a + [c] + b)[1..] == a[1..] + [c] + b;
      UpToBefore(a[1..], c, b);
      assert [a[0]] + a[1..] == a;
    }
  }

  lemma NoColonInInt(i: int)
    ensures ':' !in IntToStr(i)
  {
    var d := if i < 0 then -i else i;
    assert forall t | 0 <= t < |NatToStr(d)| :: IsDigit(NatToStr(d)[t]);
  }

  /** The second word of a reference splits into the chapter and the verse. */
  lemma SplitPosition(c: int, v: int)
    ensures Split(IntToStr(c) + ":" + IntToStr(v), ':') == [IntToStr(c), IntToStr(v)]
  {
    var a, b := IntToStr(c), IntToStr(v);
    NoColonInInt(c);
    NoColonInInt(v);
    var s := a + ":" + b;
    UpToBefore(a, ':', b);
    assert s[|a| + 1..] == b;
    UpToAbsent(b, ':');
  }

  /** For a book name without whitespace, the reference has two words: the book and
      `chapter:verse`. */
  lemma VerseRefWords(book: string, c: int, v: int)
    requires IsWord(book)
    ensures Words(VerseRef(book, c, v)) == [book, IntToStr(c) + ":" + IntToStr(v)]
  {
    var pos := IntToStr(c) + ":" + IntToStr(v);
    PositionWord(c, v);
    assert Join([book, pos]) == VerseRef(book, c, v);
    WordsOfJoin([book, pos]);
  }

  /** `chapter:verse` is one word. */
  lemma PositionWord(c: int, v: int)
    ensures IsWord(IntToStr(c) + ":" + IntToStr(v))
  {
    assert NoSpace(":");
    NoSpaceConcat(IntToStr(c), ":");
    NoSpaceConcat(IntToStr(c) + ":", IntToStr(v));
  }

  lemma NoSpaceConcat(a: string, b: string)
    requires NoSpace(a) && NoSpace(b)
    ensures NoSpace(a + b)
  {
    forall t | 0 <= t < |a + b| ensures !IsSpace((a + b)[t]) {
      if t < |a| {
        assert (a + b)[t] == a[t];
      } else {
        assert (a + b)[t] == b[t - |a|];
      }
    }
  }

  /** Round trip: reading back a reference built from a chapter and a verse looks up exactly
      that cell. */
  lemma {:induction false} GetVerseTextOfVerseRef(doc: Doc, book: string, c: int, v: int)
    requires IsWord(book)
    ensures GetVerseText(doc, VerseRef(book, c, v))
            == if c in doc && v in doc[c] then Success(doc[c][v]) else Failure("KeyError")
  {
    VerseRefWords(book, c, v);
    SplitPosition(c, v);
    ParseIntOfIntToStr(c);
    ParseIntOfIntToStr(v);
  }

  /** The chapter is looked up before the verse is converted: with the chapter missing from the
      document, any verse text, even one that is no integer, gives a KeyError. */
  lemma GetVerseTextMissingChapter(doc: Doc, book: string, c: int, verse: string)
    requires IsWord(book) && c !in doc && NoSpace(verse) && ':' !in verse
    ensures GetVerseText(doc, book + " " + IntToStr(c) + ":" + verse) == Failure("KeyError")
  {
    var a := IntToStr(c);
    var pos := a + ":" + verse;
    assert IsWord(pos) by {
      assert NoSpace(":");
      NoSpaceConcat(a, ":");
      NoSpaceConcat(a + ":", verse);
    }
    assert book + " " + a + ":" + verse == book + " " + pos;
    TwoWords(book, pos);
    NoColonInInt(c);
    SplitAtColon(a, verse);
    ParseIntOfIntToStr(c);
  }

  /** Two words joined by a space split back into those two words. */
  lemma TwoWords(w: string, x: string)
    requires IsWord(w) && IsWord(x)
    ensures Words(w + " " + x) == [w, x]
  {
    assert Join([w, x]) == w + " " + x;
    WordsOfJoin([w, x]);
  }

  /** Two pieces without `:` joined by one `:` split back into those pieces. */
  lemma SplitAtColon(a: string, b: string)
    requires ':' !in a && ':' !in b
    ensures Split(a + ":" + b, ':') == [a, b]
  {
    UpToBefore(a, ':', b);
    assert (a + ":" + b)[|a| + 1..] == b;
    UpToAbsent(b, ':');
  }

  /** Round trip: `append_comment` reads back the chapter and verse the reference was built
      from. */
  lemma {:induction false} RefPositionOfVerseRef(book: string, c: int, v: int)
    requires IsWord(book)
    ensures RefPosition(VerseRef(book, c, v)) == Some((c, v))
  {
    VerseRefWords(book, c, v);
    SplitPosition(c, v);
    ParseIntOfIntToStr(c);
    ParseIntOfIntToStr(v);
  }

  // ---------------------------------------------------------------------------------------
  // parse_start_position

  /** `parse_start_position(words_before)`: the length of the words joined by single spaces,
      in decimal. */
  function StartPosition(wordsBefore: seq<string>): (s: string)
    ensures s != [] && forall t | 0 <= t < |s| :: IsDigit(s[t])
  {
    NatToStr(|Join(wordsBefore)|)
  }

  /** The start position reads back as the number of characters of the words plus one space
      between each two, and as `0` when there are no words. */
  lemma {:induction false} StartPositionValue(ws: seq<string>)
    ensures ParseInt(StartPosition(ws)) == Some(if ws == [] then 0 else TotalLength(ws) + |ws| - 1)
    ensures ws == [] ==> StartPosition(ws) == "0"
  {
    JoinLength(ws);
    ParseIntOfIntToStr(|Join(ws)|);
  }

  // ---------------------------------------------------------------------------------------
  // The page and panel patterns and convert_to_sfm

  /** The page pattern `\s*[Pp][0-9]{2,3}` matches with its letter at `q`. Leading whitespace
      only moves where a match starts, never which letter it takes, so the leftmost match takes
      the leftmost letter at which this holds. */
  predicate PageAt(s: string, q: nat) {
    q + 3 <= |s| && (s[q] == 'P' || s[q] == 'p') && IsDigit(s[q + 1]) && IsDigit(s[q + 2])
  }

  /** The letter of the first match of the page pattern at or after `from`. */
  function FirstPage(s: string, from: nat): (r: Option<nat>)
    ensures r.Some? ==> from <= r.value && PageAt(s, r.value)
    ensures r.Some? ==> forall k | from <= k < r.value :: !PageAt(s, k)
    ensures r.None? ==> forall k | from <= k :: !PageAt(s, k)
    decreases |s| - from
  {
    if from + 3 > |s| then None
    else if PageAt(s, from) then Some(from)
    else FirstPage(s, from + 1)
  }

  /** `int(match.group().replace('P', '', 1).replace('p', '', 1))`: the two or three digits
      after the letter, the third taken when there is one. */
  function PageNumber(s: string, q: nat): nat
    requires PageAt(s, q)
  {
    var end := if q + 3 < |s| && IsDigit(s[q + 3]) then q + 4 else q + 3;
    DigitsValue(s[q + 1..end])
  }

  /** The length of the run of whitespace starting at `i`. */
  function SpaceRun(s: string, i: nat): (n: nat)
    requires i <= |s|
    ensures i + n <= |s| && (i + n == |s| || !IsSpace(s[i + n]))
    ensures forall t | i <= t < i + n :: IsSpace(s[t])
    decreases |s| - i
  {
    if i == |s| || !IsSpace(s[i]) then 0 else 1 + SpaceRun(s, i + 1)
  }

  /** The length of the run of digits starting at `i`. */
  function DigitRun(s: string, i: nat): (n: nat)
    requires i <= |s|
    ensures i + n <= |s| && (i + n == |s| || !IsDigit(s[i + n]))
    ensures forall t | i <= t < i + n :: IsDigit(s[t])
    decreases |s| - i
  {
    if i == |s| || !IsDigit(s[i]) then 0 else 1 + DigitRun(s, i + 1)
  }

  /** The panel pattern `Panel\s*[0-9]+` matches at `q`: `Panel`, any whitespace, a digit. */
  predicate PanelAt(s: string, q: nat) {
    q + 5 <= |s| && s[q..q + 5] == "Panel"
    && var d := q + 5 + SpaceRun(s, q + 5); d < |s| && IsDigit(s[d])
  }

  /** The first match of the panel pattern at or after `from`. */
  function FirstPanel(s: string, from: nat): (r: Option<nat>)
    ensures r.Some? ==> from <= r.value && PanelAt(s, r.value)
    ensures r.Some? ==> forall k | from <= k < r.value :: !PanelAt(s, k)
    ensures r.None? ==> forall k | from <= k :: !PanelAt(s, k)
    decreases |s| - from
  {
    if from + 5 > |s| then None
    else if PanelAt(s, from) then Some(from)
    else FirstPanel(s, from + 1)
  }

  /** `int(match.group().replace('Panel', '', 1).replace('Panel ', '', 1))`: the digits after
      the whitespace. */
  function PanelNumber(s: string, q: nat): nat
    requires PanelAt(s, q)
  {
    var d := q + 5 + SpaceRun(s, q + 5);
    DigitsValue(s[d..d + DigitRun(s, d)])
  }

  /** `convert_to_sfm(text, ...)`: when the page pattern is found, the first capital `P` of the
      text becomes `\c `; then, when the panel pattern is found in the original text, the first
      `Panel` of the result becomes `\v `. */
  function ConvertToSfm(text: string): (r: string)
    ensures FirstPage(text, 0).None? && FirstPanel(text, 0).None? ==> r == text
  {
    var t := if FirstPage(text, 0).Some? then ReplaceFirst(text, "P", "\\c ") else text;
    if FirstPanel(text, 0).Some? then ReplaceFirst(t, "Panel", "\\v ") else t
  }

  /** `s.replace(pat, rep, 1)` at a known first occurrence. */
  lemma {:induction false} ReplaceFirstAt(s: string, pat: string, rep: string, q: nat)
    requires q + |pat| <= |s| && s[q..q + |pat|] == pat
    requires forall k | 0 <= k < q :: !StartsWith(s[k..], pat)
    ensures ReplaceFirst(s, pat, rep) == s[..q] + rep + s[q + |pat|..]
  {
    assert StartsWith(s[q..], pat);
    match Find(s, pat)
    case None =>
      assert false;
    case Some(k) =>
      assert s[k..][..|pat|] == s[k..k + |pat|];
      assert StartsWith(s[k..], pat);
  }

  /** A page line whose match starts at its first capital `P`, and no panel in it: that `P`
      becomes the chapter marker `\c `. */
  lemma {:induction false} ConvertPage(text: string, q: nat)
    requires FirstPage(text, 0) == Some(q) && text[q] == 'P' && 'P' !in text[..q]
    requires FirstPanel(text, 0).None?
    ensures ConvertToSfm(text) == text[..q] + "\\c " + text[q + 1..]
  {
    forall k | 0 <= k < q ensures !StartsWith(text[k..], "P") {
      assert text[k] == text[..q][k];
    }
    ReplaceFirstAt(text, "P", "\\c ", q);
  }

  /** A panel line with no page in it and no earlier `Panel`: that `Panel` becomes the verse
      marker `\v `. */
  lemma {:induction false} ConvertPanel(text: string, q: nat)
    requires FirstPage(text, 0).None? && FirstPanel(text, 0) == Some(q)
    requires forall k | 0 <= k < q :: !StartsWith(text[k..], "Panel")
    ensures ConvertToSfm(text) == text[..q] + "\\v " + text[q + 5..]
  {
    ReplaceFirstAt(text, "Panel", "\\v ", q);
  }

  // ---------------------------------------------------------------------------------------
  // Chapter and verse tracking in extract_comments

  /** The renumbering of two page ranges: pages 317 and 318 move up by two, page 748 by one. */
  function Renumber(page: int): (chapter: int)
    ensures page <= chapter <= page + 2
    ensures chapter != 317 && chapter != 318 && chapter != 748
    ensures page != 317 && page != 318 && page != 748 ==> chapter == page
  {
    if page == 317 || page == 318 then page + 2
    else if page == 748 then page + 1
    else page
  }

  /** The current page and panel of `extract_comments`. */
  datatype Position = Position(chapter: int, verse: int)

  /** The initial state: chapter 0, verse 1, with an empty cell for it. */
  const StartPos: Position := Position(0, 1)
  const StartDoc: Doc := map[0 := map[1 := []]]

  /** The current cell exists. */
  ghost predicate HasCell(doc: Doc, pos: Position) {
    pos.chapter in doc && pos.verse in doc[pos.chapter]
  }

  /** Lines 156-169 of the paragraph loop: a page match starts chapter `Renumber(page)` at verse
      1 with a fresh map of verses, discarding any earlier text of that chapter; a panel match
      then moves to its verse with an empty cell. */
  function Track(text: string, pos: Position, doc: Doc): (r: (Position, Doc))
    requires pos.chapter in doc
    ensures HasCell(doc, pos) || FirstPage(text, 0).Some? || FirstPanel(text, 0).Some? ==> HasCell(r.1, r.0)
    ensures doc.Keys <= r.1.Keys && r.1.Keys == doc.Keys + {r.0.chapter}
    ensures forall c | c in doc && c != r.0.chapter :: r.1[c] == doc[c]
  {
    var (pos1, doc1) :=
      match FirstPage(text, 0)
      case Some(q) =>
        var chapter := Renumber(PageNumber(text, q));
        (Position(chapter, 1), doc[chapter := map[1 := []]])
      case None => (pos, doc);
    match FirstPanel(text, 0)
    case Some(q) =>
      var verse := PanelNumber(text, q);
      (Position(pos1.chapter, verse), doc1[pos1.chapter := doc1[pos1.chapter][verse := []]])
    case None => (pos1, doc1)
  }

  /** A page line: the chapter is the renumbered page and its verses start afresh, holding only
      an empty verse 1, or only the empty verse of a panel on the same line. */
  lemma TrackPage(text: string, pos: Position, doc: Doc, q: nat)
    requires pos.chapter in doc && FirstPage(text, 0) == Some(q)
    ensures Track(text, pos, doc).0.chapter == Renumber(PageNumber(text, q))
    ensures FirstPanel(text, 0).None? ==>
              Track(text, pos, doc).0.verse == 1 && Track(text, pos, doc).1[Track(text, pos, doc).0.chapter] == map[1 := []]
    ensures FirstPanel(text, 0).Some? ==>
              Track(text, pos, doc).1[Track(text, pos, doc).0.chapter].Keys == {1, Track(text, pos, doc).0.verse}
  {
  }

  /** A panel line: the verse is the panel's number with an empty cell; without a page on the
      line the chapter and its other verses are kept. */
  lemma TrackPanel(text: string, pos: Position, doc: Doc, q: nat)
    requires pos.chapter in doc && FirstPanel(text, 0) == Some(q)
    ensures Track(text, pos, doc).0.verse == PanelNumber(text, q)
    ensures Track(text, pos, doc).1[Track(text, pos, doc).0.chapter][Track(text, pos, doc).0.verse] == []
    ensures FirstPage(text, 0).None? ==>
              Track(text, pos, doc).0.chapter == pos.chapter
              && forall v | v in doc[pos.chapter] && v != PanelNumber(text, q) ::
                   v in Track(text, pos, doc).1[pos.chapter] && Track(text, pos, doc).1[pos.chapter][v] == doc[pos.chapter][v]
  {
  }

  /** A line with neither a page nor a panel leaves the position and the cells alone. */
  lemma TrackNeither(text: string, pos: Position, doc: Doc)
    requires pos.chapter in doc && FirstPage(text, 0).None? && FirstPanel(text, 0).None?
    ensures Track(text, pos, doc) == (pos, doc)
  {
  }

  // ---------------------------------------------------------------------------------------
  // get_paragraph_comment_list

  /** The indices of the annotations among the first `k` children, in order. */
  function AnnotationIndices(cs: seq<Node>, k: nat): seq<nat>
    requires k <= |cs|
  {
    if k == 0 then []
    else AnnotationIndices(cs, k - 1) + (if cs[k - 1].tag == AnnotationTag then [k - 1] else [])
  }

  predicate Increasing(xs: seq<nat>) {
    forall s, t | 0 <= s < t < |xs| :: xs[s] < xs[t]
  }

  /** The collected indices are increasing and are exactly those of the annotations. */
  lemma {:induction false} AnnotationIndicesFacts(cs: seq<Node>, k: nat)
    requires k <= |cs|
    ensures Increasing(AnnotationIndices(cs, k))
    ensures forall i: nat :: i in AnnotationIndices(cs, k) <==> i < k && cs[i].tag == AnnotationTag
  {
    if k > 0 {
      AnnotationIndicesFacts(cs, k - 1);
      var prior := AnnotationIndices(cs, k - 1);
      forall t | 0 <= t < |prior| ensures prior[t] < k - 1 {
        assert prior[t] in prior;
      }
    }
  }

  /** `get_paragraph_comment_list(paragraph, comment_count, p_comments)`: appends the index of
      every annotation among the children and counts them. */
  method GetParagraphCommentList(paragraph: Node, commentCount: nat, pComments: seq<nat>)
    returns (count: nat, comments: seq<nat>)
    ensures comments == pComments + AnnotationIndices(paragraph.children, |paragraph.children|)
    ensures count == commentCount + |AnnotationIndices(paragraph.children, |paragraph.children|)|
  {
    var cs := paragraph.children;
    count, comments := commentCount, pComments;
    for i := 0 to |cs|
      invariant comments == pComments + AnnotationIndices(cs, i)
      invariant count == commentCount + |AnnotationIndices(cs, i)|
    {
      if cs[i].tag == AnnotationTag {
        comments := comments + [i];
        count := count + 1;
      }
    }
  }

  // ---------------------------------------------------------------------------------------
  // The context window of append_comment

  /** The annotation before the `j`-th, or 0 for the first. */
  function PrevOf(pComments: seq<nat>, j: nat): int
    requires j < |pComments|
  {
    if j > 0 then pComments[j - 1] else 0
  }

  /** The annotation after the `j`-th, or -1 for the last. */
  function NextOf(pComments: seq<nat>, j: nat): int
    requires j < |pComments|
  {
    if j + 1 < |pComments| then pComments[j + 1] else -1
  }

  /** The scan of `p_comments` for the `i`-th child: its neighbouring annotations, `0` before
      the first and `-1` after the last. */
  method Neighbours(pComments: seq<nat>, i: nat) returns (prev: int, next: int)
    ensures i !in pComments ==> prev == 0 && next == -1
    ensures Increasing(pComments) ==>
              forall j | 0 <= j < |pComments| && pComments[j] == i :: prev == PrevOf(pComments, j) && next == NextOf(pComments, j)
  {
    prev, next := 0, -1;
    for j := 0 to |pComments|
      invariant i !in pComments[..j] ==> prev == 0 && next == -1
      invariant Increasing(pComments) ==>
                  forall t | 0 <= t < j && pComments[t] == i :: prev == PrevOf(pComments, t) && next == NextOf(pComments, t)
    {
      if pComments[j] == i {
        if |pComments| >= 1 + j + 1 {
          next := pComments[j + 1];
        }
        if j > 0 {
          prev := pComments[j - 1];
        }
      }
      assert pComments[..j + 1] == pComments[..j] + [pComments[j]];
    }
    assert pComments[..|pComments|] == pComments;
  }

  /** Where a slice bound `x` falls in a list of length `n`: a negative bound counts from the
      end, and the result is clamped to the list. */
  function Bound(x: int, n: nat): (b: nat)
    ensures b <= n
    ensures 0 <= x <= n ==> b == x
  {
    var y := if x < 0 then x + n else x;
    if y < 0 then 0 else if y > n then n else y
  }

  /** `s[a:b]` */
  function Slice<T>(s: seq<T>, a: int, b: int): (r: seq<T>)
    ensures 0 <= a <= b <= |s| ==> r == s[a..b]
  {
    var lo, hi := Bound(a, |s|), Bound(b, |s|);
    if lo < hi then s[lo..hi] else []
  }

  /** With no annotation after it, the words after a comment stop before the last child. */
  lemma SliceToLast<T>(s: seq<T>, a: nat)
    requires a < |s|
    ensures Slice(s, a, -1) == s[a..|s| - 1]
  {
  }

  /** The words of the text of each node, in order. */
  function NodeWords(ns: seq<Node>): (ws: seq<string>)
    ensures forall w | w in ws :: IsWord(w)
  {
    if ns == [] then [] else NodeWords(ns[..|ns| - 1]) + Words(Str(ns[|ns| - 1]))
  }

  /** `for n in nodes: words.extend(str(n).split())` */
  method CollectWords(ns: seq<Node>) returns (ws: seq<string>)
    ensures ws == NodeWords(ns)
  {
    ws := [];
    for k := 0 to |ns|
      invariant ws == NodeWords(ns[..k])
    {
      assert ns[..k + 1][..k] == ns[..k];
      ws := ws + Words(Str(ns[k]));
    }
    assert ns[..|ns|] == ns;
  }

  /** What `append_comment` gathers around an annotation: the words before it, the selected
      text and the words after it. */
  datatype Window = Window(before: seq<string>, selected: string, after: seq<string>)

  /** The selection is closed when the child after next is the annotation end. */
  predicate Closed(cs: seq<Node>, i: nat) {
    i + 2 < |cs| && cs[i + 2].tag == AnnotationEndTag
  }

  /** Lines 71-105 for the annotation at child `i`: the words of the children from the previous
      annotation (or the start) up to it; the text of child `i + 1` as the selection when the
      selection is closed, none otherwise; and the words of the children from after the end of
      the selection up to the next annotation, or up to but not including the last child when
      there is no next annotation. */
  method ContextWindow(cs: seq<Node>, i: nat, pComments: seq<nat>) returns (w: Window)
    requires i < |cs|
    ensures w.selected == if Closed(cs, i) then Str(cs[i + 1]) else ""
    ensures Increasing(pComments) ==>
              forall j | 0 <= j < |pComments| && pComments[j] == i ::
                && w.before == NodeWords(Slice(cs, PrevOf(pComments, j), i))
                && w.after == NodeWords(Slice(cs, if Closed(cs, i) then i + 3 else i + 1, NextOf(pComments, j)))
    ensures i !in pComments ==>
              && w.before == NodeWords(cs[..i])
              && w.after == NodeWords(Slice(cs, if Closed(cs, i) then i + 3 else i + 1, -1))
  {
    var prev, next := Neighbours(pComments, i);
    w := WindowBetween(cs, i, prev, next);
    if Increasing(pComments) {
      forall j | 0 <= j < |pComments| && pComments[j] == i
        ensures prev == PrevOf(pComments, j) && next == NextOf(pComments, j)
      {
      }
    }
  }

  /** Lines 85-102 once the neighbouring annotations `prev` and `next` are known. */
  method WindowBetween(cs: seq<Node>, i: nat, prev: int, next: int) returns (w: Window)
    requires i < |cs|
    ensures w.selected == if Closed(cs, i) then Str(cs[i + 1]) else ""
    ensures w.before == NodeWords(Slice(cs, prev, i))
    ensures w.after == NodeWords(Slice(cs, if Closed(cs, i) then i + 3 else i + 1, next))
  {
    var before := CollectWords(Slice(cs, prev, i));
    var selected, commentEnd := Selection(cs, i);
    var after := CollectWords(Slice(cs, commentEnd + 1, next));
    w := Window(before, selected, after);
  }

  /** Lines 89-97: the text of child `i + 1` and the end of the selection at `i + 2` when the
      selection is closed; no text and the annotation itself as the end otherwise. */
  method Selection(cs: seq<Node>, i: nat) returns (selected: string, commentEnd: nat)
    requires i < |cs|
    ensures selected == if Closed(cs, i) then Str(cs[i + 1]) else ""
    ensures commentEnd + 1 == if Closed(cs, i) then i + 3 else i + 1
  {
    selected := "";
    commentEnd := i;
    if |cs| >= 1 + i + 2 {
      if cs[i + 2].tag == AnnotationEndTag {
        selected := Str(cs[i + 1]);
        commentEnd := i + 2;
      }
    }
  }

  /** The words of a comment that go into its verse text: `pwords`. */
  function PWords(w: Window): seq<string> {
    w.before + Words(w.selected) + w.after
  }

  // ---------------------------------------------------------------------------------------
  // Comment records

  /** A comment record as `append_comment` builds it, without its random thread id. */
  datatype Comment = Comment(
    verseRef: string, date: string, selectedText: string, startPosition: string,
    contextBefore: string, contextAfter: string, conflictType: string, verse: string,
    hideInTextWindow: string, contents: string)

  /** The comments of each user, in the order they were found. */
  type Notes = map<string, seq<Comment>>

  /** A record of the reference `verseRef`: the fixed conflict type and visibility, the verse
      text still empty, and a start position giving the length of the context before. */
  ghost predicate Conforms(c: Comment, verseRef: string) {
    && c.verseRef == verseRef
    && c.conflictType == "unknownConflictType"
    && c.verse == ""
    && c.hideInTextWindow == "false"
    && ParseInt(c.startPosition) == Some(|c.contextBefore|)
  }

  /** Every added record conforms. */
  ghost predicate AllConform(added: seq<(string, Comment)>, verseRef: string) {
    forall t | 0 <= t < |added| :: Conforms(added[t].1, verseRef)
  }

  lemma AllConformAppend(a: seq<(string, Comment)>, b: seq<(string, Comment)>, verseRef: string)
    requires AllConform(a, verseRef) && AllConform(b, verseRef)
    ensures AllConform(a + b, verseRef)
  {
    forall t | 0 <= t < |a + b| ensures Conforms((a + b)[t].1, verseRef) {
      if t < |a| {
        assert (a + b)[t] == a[t];
      } else {
        assert (a + b)[t] == b[t - |a|];
      }
    }
  }

  /** Lines 113-128: the record of one comment. */
  function MakeComment(verseRef: string, date: string, w: Window, contents: string): (c: Comment)
    ensures Conforms(c, verseRef)
    ensures c.selectedText == w.selected && c.date == date && c.contents == contents
    ensures (forall x | x in w.before :: IsWord(x)) ==> Words(c.contextBefore) == w.before
    ensures (forall x | x in w.after :: IsWord(x)) ==> Words(c.contextAfter) == w.after
  {
    ParseIntOfIntToStr(|Join(w.before)|);
    WordsOfJoinAll(w.before);
    WordsOfJoinAll(w.after);
    Comment(verseRef, date, w.selected, StartPosition(w.before), Join(w.before), Join(w.after),
            "unknownConflictType", "", "false", contents)
  }

  lemma WordsOfJoinAll(ws: seq<string>)
    ensures (forall x | x in ws :: IsWord(x)) ==> Words(Join(ws)) == ws
  {
    if forall x | x in ws :: IsWord(x) {
      WordsOfJoin(ws);
    }
  }

  /** `comments[user].append(record)`, creating the user's list first when needed. */
  function AddNote(notes: Notes, user: string, c: Comment): (r: Notes)
    ensures r.Keys == notes.Keys + {user}
    ensures r[user] == (if user in notes then notes[user] else []) + [c]
    ensures forall u | u in notes && u != user :: r[u] == notes[u]
  {
    notes[user := (if user in notes then notes[user] else []) + [c]]
  }

  /** The records added in order, each to its user's list. */
  function AddNotes(notes: Notes, added: seq<(string, Comment)>): Notes {
    if added == [] then notes
    else
      var (u, c) := added[|added| - 1];
      AddNote(AddNotes(notes, added[..|added| - 1]), u, c)
  }

  lemma {:induction false} AddNotesAppend(notes: Notes, a: seq<(string, Comment)>, b: seq<(string, Comment)>)
    ensures AddNotes(notes, a + b) == AddNotes(AddNotes(notes, a), b)
  {
    if b != [] {
      assert (a + b)[..|a + b| - 1] == a + b[..|b| - 1];
      AddNotesAppend(notes, a, b[..|b| - 1]);
    } else {
      assert a + b == a;
    }
  }

  /** Adding records only lengthens each user's list: the earlier records stay in front. */
  lemma {:induction false} AddNotesKeeps(notes: Notes, added: seq<(string, Comment)>)
    ensures forall u | u in notes :: u in AddNotes(notes, added) && notes[u] <= AddNotes(notes, added)[u]
  {
    if added != [] {
      AddNotesKeeps(notes, added[..|added| - 1]);
    }
  }

  // ---------------------------------------------------------------------------------------
  // The verse text collected for each cell

  /** The cell at a position read back from a reference exists. */
  ghost predicate CellOf(doc: Doc, pos: Option<(int, int)>) {
    pos.Some? && HasCell(doc, Position(pos.value.0, pos.value.1))
  }

  /** `doc_content[chapter][verse].extend(words)` at the chapter and verse read back from a
      reference; unchanged when that cell does not exist. */
  function AppendAt(doc: Doc, pos: Option<(int, int)>, ws: seq<string>): (r: Doc)
    ensures r.Keys == doc.Keys && forall c | c in doc :: r[c].Keys == doc[c].Keys
    ensures CellOf(r, pos) == CellOf(doc, pos)
  {
    match pos
    case Some((c, v)) =>
      if c in doc && v in doc[c] then doc[c := doc[c][v := doc[c][v] + ws]] else doc
    case None => doc
  }

  /** Extending by no words changes nothing. */
  lemma AppendAtNothing(doc: Doc, pos: Option<(int, int)>)
    ensures AppendAt(doc, pos, []) == doc
  {
    if CellOf(doc, pos) {
      var (c, v) := pos.value;
      assert doc[c][v] + [] == doc[c][v];
      assert doc[c][v := doc[c][v]] == doc[c];
    }
  }

  /** Two extensions of the same cell are one extension by both. */
  lemma AppendAtAppend(doc: Doc, pos: Option<(int, int)>, a: seq<string>, b: seq<string>)
    ensures AppendAt(AppendAt(doc, pos, a), pos, b) == AppendAt(doc, pos, a + b)
  {
    if CellOf(doc, pos) {
      var (c, v) := pos.value;
      var d1 := doc[c := doc[c][v := doc[c][v] + a]];
      assert AppendAt(doc, pos, a) == d1;
      assert d1[c][v] == doc[c][v] + a;
      assert AppendAt(d1, pos, b) == d1[c := d1[c][v := d1[c][v] + b]];
      assert doc[c][v] + a + b == doc[c][v] + (a + b);
      assert d1[c][v := d1[c][v] + b] == doc[c][v := doc[c][v] + (a + b)];
    }
  }

  // ---------------------------------------------------------------------------------------
  // append_comment

  /** Every annotation below `n` has the four children a record is read from: its author, its
      date, the author's initials and its contents. */
  ghost predicate WellFormed(n: Node) {
    forall path | AnnotationAt(n, path) :: |At(n, path).value.children| >= 4
  }

  lemma WellFormedChild(n: Node, k: nat)
    requires WellFormed(n) && k < |n.children|
    ensures n.children[k].tag == AnnotationTag ==> |n.children[k].children| >= 4
    ensures WellFormed(n.children[k])
  {
    var c := n.children[k];
    if c.tag == AnnotationTag {
      assert At(n, [k]) == At(c, []);
      assert AnnotationAt(n, [k]);
    }
    forall path | AnnotationAt(c, path) ensures |At(c, path).value.children| >= 4 {
      assert ([k] + path)[1..] == path;
      assert AnnotationAt(n, [k] + path);
    }
  }

  /** The number of annotations before child `i` is the place of child `i` in `p_comments`. */
  lemma {:induction false} AnnotationIndicesAt(cs: seq<Node>, i: nat)
    requires i < |cs| && cs[i].tag == AnnotationTag
    ensures |AnnotationIndices(cs, i)| < |AnnotationIndices(cs, |cs|)|
    ensures AnnotationIndices(cs, |cs|)[|AnnotationIndices(cs, i)|] == i
  {
    AnnotationIndicesPrefix(cs, i + 1, |cs|);
    assert AnnotationIndices(cs, i + 1) == AnnotationIndices(cs, i) + [i];
  }

  lemma {:induction false} AnnotationIndicesPrefix(cs: seq<Node>, k: nat, m: nat)
    requires k <= m <= |cs|
    ensures AnnotationIndices(cs, k) <= AnnotationIndices(cs, m)
    decreases m - k
  {
    if k < m {
      AnnotationIndicesPrefix(cs, k, m - 1);
    }
  }

  /** The context window of the annotation at child `i`, with `p_comments` as
      `get_paragraph_comment_list` collects it for the same children. */
  function WindowAt(cs: seq<Node>, i: nat): Window
    requires i < |cs| && cs[i].tag == AnnotationTag
  {
    AnnotationIndicesAt(cs, i);
    var pComments, j := AnnotationIndices(cs, |cs|), |AnnotationIndices(cs, i)|;
    Window(NodeWords(Slice(cs, PrevOf(pComments, j), i)),
           if Closed(cs, i) then Str(cs[i + 1]) else "",
           NodeWords(Slice(cs, if Closed(cs, i) then i + 3 else i + 1, NextOf(pComments, j))))
  }

  /** `str(c.childNodes[k])`, or "" when `c` has no `k`-th child. */
  function ChildText(c: Node, k: nat): string {
    if k < |c.children| then Str(c.children[k]) else ""
  }

  /** Lines 106-128 for the annotation at child `i`: its author (child 0) and the record built
      from its date (child 1), its context window and its contents (child 3). */
  function NoteAt(cs: seq<Node>, i: nat, verseRef: string): (note: (string, Comment))
    requires i < |cs| && cs[i].tag == AnnotationTag
    ensures Conforms(note.1, verseRef)
  {
    var c := cs[i];
    (ChildText(c, 0), MakeComment(verseRef, ChildText(c, 1), WindowAt(cs, i), ChildText(c, 3)))
  }

  /** The record of an annotation with its four children is filed under the author and holds
      the date, the contents, the selected text and the contexts of its window. */
  lemma NoteAtFields(cs: seq<Node>, i: nat, verseRef: string)
    requires i < |cs| && cs[i].tag == AnnotationTag && |cs[i].children| >= 4
    ensures NoteAt(cs, i, verseRef).0 == Str(cs[i].children[0])
    ensures NoteAt(cs, i, verseRef).1.date == Str(cs[i].children[1])
    ensures NoteAt(cs, i, verseRef).1.contents == Str(cs[i].children[3])
    ensures NoteAt(cs, i, verseRef).1.selectedText == WindowAt(cs, i).selected
    ensures Words(NoteAt(cs, i, verseRef).1.contextBefore) == WindowAt(cs, i).before
    ensures Words(NoteAt(cs, i, verseRef).1.contextAfter) == WindowAt(cs, i).after
  {
  }

  /** The records `append_comment` adds for the first `k` children of `n` and everything below
      them, in the order it adds them: a child's own record before the records below it. */
  function NotesUpTo(n: Node, k: nat, verseRef: string): (added: seq<(string, Comment)>)
    requires k <= |n.children|
    ensures |added| == AnnotatedUpTo(n, k)
    decreases n, k
  {
    if k == 0 then []
    else
      var c := n.children[k - 1];
      var here := if c.tag == AnnotationTag then [NoteAt(n.children, k - 1, verseRef)] else [];
      NotesUpTo(n, k - 1, verseRef) + here + NotesUpTo(c, |c.children|, verseRef)
  }

  /** Every record added carries the reference and the fixed fields. */
  lemma {:induction false} NotesUpToConform(n: Node, k: nat, verseRef: string)
    requires k <= |n.children|
    ensures AllConform(NotesUpTo(n, k, verseRef), verseRef)
    decreases n, k
  {
    if k > 0 {
      var c := n.children[k - 1];
      NotesUpToConform(n, k - 1, verseRef);
      NotesUpToConform(c, |c.children|, verseRef);
      NotesUpToConformStep(n, k, verseRef);
    }
  }

  /** Child `k - 1`'s own record and those below it keep the records added conforming. */
  lemma NotesUpToConformStep(n: Node, k: nat, verseRef: string)
    requires 0 < k <= |n.children|
    requires AllConform(NotesUpTo(n, k - 1, verseRef), verseRef)
    requires AllConform(NotesBelow(n.children[k - 1], verseRef), verseRef)
    ensures AllConform(NotesUpTo(n, k, verseRef), verseRef)
  {
    var c := n.children[k - 1];
    var here := if c.tag == AnnotationTag then [NoteAt(n.children, k - 1, verseRef)] else [];
    assert NotesUpTo(n, k, verseRef) == NotesUpTo(n, k - 1, verseRef) + here + NotesBelow(c, verseRef);
    HereConforms(n.children, k - 1, verseRef);
    AllConformJoin(NotesUpTo(n, k - 1, verseRef), here, NotesBelow(c, verseRef), verseRef);
  }

  /** The record of child `i`, if it is an annotation, conforms. */
  lemma HereConforms(cs: seq<Node>, i: nat, verseRef: string)
    requires i < |cs|
    ensures AllConform(if cs[i].tag == AnnotationTag then [NoteAt(cs, i, verseRef)] else [], verseRef)
  {
  }

  lemma AllConformJoin(a: seq<(string, Comment)>, b: seq<(string, Comment)>, c: seq<(string, Comment)>, verseRef: string)
    requires AllConform(a, verseRef) && AllConform(b, verseRef) && AllConform(c, verseRef)
    ensures AllConform(a + b + c, verseRef)
  {
    AllConformAppend(a, b, verseRef);
    AllConformAppend(a + b, c, verseRef);
  }

  /** The records added for everything below `n`. */
  function NotesBelow(n: Node, verseRef: string): seq<(string, Comment)> {
    NotesUpTo(n, |n.children|, verseRef)
  }

  /** The words `append_comment` adds to the cell of the reference for the first `k` children of
      `n` and everything below them, in order: the context window of each annotation. */
  function WordsUpTo(n: Node, k: nat): (words: seq<string>)
    requires k <= |n.children|
    ensures AnnotatedUpTo(n, k) == 0 ==> words == []
    ensures forall w | w in words :: IsWord(w)
    decreases n, k
  {
    if k == 0 then []
    else
      var c := n.children[k - 1];
      var here := if c.tag == AnnotationTag then PWords(WindowAt(n.children, k - 1)) else [];
      assert Annotated(c) == AnnotatedUpTo(c, |c.children|);
      WordsUpTo(n, k - 1) + here + WordsUpTo(c, |c.children|)
  }

  /** The words added for everything below `n`. */
  function WordsBelow(n: Node): seq<string> {
    WordsUpTo(n, |n.children|)
  }

  /** Lines 85-134 for the annotation at child `i`: its record, added to the list of its
      author, and its context window, added to the cell of the reference. It fails on an
      annotation with fewer than four children and on a reference that names no cell. */
  method RecordComment(cs: seq<Node>, i: nat, pComments: seq<nat>, verseRef: string, pos: Option<(int, int)>,
                       notes: Notes, doc: Doc)
    returns (r: Option<(Notes, Doc)>)
    requires i < |cs| && cs[i].tag == AnnotationTag
    requires pComments == AnnotationIndices(cs, |cs|)
    ensures r.None? <==> |cs[i].children| < 4 || !CellOf(doc, pos)
    ensures r.Some? ==> r.value.0 == AddNote(notes, NoteAt(cs, i, verseRef).0, NoteAt(cs, i, verseRef).1)
    ensures r.Some? ==> r.value.1 == AppendAt(doc, pos, PWords(WindowAt(cs, i)))
  {
    var c := cs[i];
    AnnotationIndicesFacts(cs, |cs|);
    AnnotationIndicesAt(cs, i);
    var w := ContextWindow(cs, i, pComments);
    assert w == WindowAt(cs, i);
    var pwords := PWords(w);
    if |c.children| < 4 {
      return None;
    }
    var user := Str(c.children[0]);
    var date := Str(c.children[1]);
    var contents := Str(c.children[3]);
    var record := MakeComment(verseRef, date, w, contents);
    var notes' := AddNote(notes, user, record);
    if pos.None? || pos.value.0 !in doc || pos.value.1 !in doc[pos.value.0] {
      return None;
    }
    var (chapter, verse) := pos.value;
    r := Some((notes', doc[chapter := doc[chapter][verse := doc[chapter][verse] + pwords]]));
  }

  /** What `append_comment` returns: the comment count, the records and the verse texts. */
  datatype Extraction = Extraction(count: nat, notes: Notes, doc: Doc)

  /** `append_comment(comment_count, comments, paragraph, verse_ref, doc_content)`: a record for
      every annotation below the paragraph, each added to its author's list and counted, and the
      context window of each added to the cell of the reference, all in document order. It
      fails (Python raises) on an annotation with fewer than four children, or when the
      reference does not name an existing cell. */
  method AppendComment(count: nat, notes: Notes, paragraph: Node, verseRef: string, doc: Doc)
    returns (r: Option<Extraction>)
    ensures r.Some? ==> r.value.count == count + Annotated(paragraph)
    ensures r.Some? ==> r.value.notes == AddNotes(notes, NotesBelow(paragraph, verseRef))
    ensures r.Some? ==> r.value.doc == AppendAt(doc, RefPosition(verseRef), WordsBelow(paragraph))
    ensures Annotated(paragraph) == 0 ==> r == Some(Extraction(count, notes, doc))
    ensures WellFormed(paragraph) && (Annotated(paragraph) > 0 ==> CellOf(doc, RefPosition(verseRef))) ==> r.Some?
  {
    var pos := RefPosition(verseRef);
    r := AppendBelow(count, notes, paragraph, verseRef, pos, doc);
  }

  /** `append_comment` with the chapter and verse of the reference read back once: `pos`. */
  method AppendBelow(count: nat, notes: Notes, paragraph: Node, verseRef: string, pos: Option<(int, int)>, doc: Doc)
    returns (r: Option<Extraction>)
    ensures r.Some? ==> r.value.count == count + Annotated(paragraph)
    ensures r.Some? ==> r.value.notes == AddNotes(notes, NotesBelow(paragraph, verseRef))
    ensures r.Some? ==> r.value.doc == AppendAt(doc, pos, WordsBelow(paragraph))
    ensures Annotated(paragraph) == 0 ==> r == Some(Extraction(count, notes, doc))
    ensures WellFormed(paragraph) && (Annotated(paragraph) > 0 ==> CellOf(doc, pos)) ==> r.Some?
    decreases paragraph, 1
  {
    var cs := paragraph.children;
    var n, pComments := GetParagraphCommentList(paragraph, count, []);
    assert pComments == AnnotationIndices(cs, |cs|);
    var st := Extraction(n, notes, doc);
    ReachedStart(paragraph, count, notes, doc, verseRef, pos);
    for i := 0 to |cs|
      invariant Reached(paragraph, i, count, notes, doc, verseRef, pos, st)
    {
      var next := AppendChild(paragraph, i, pComments, verseRef, pos, st, count, notes, doc);
      if next.None? {
        return None;
      }
      st := next.value;
    }
    ReachedEnd(paragraph, count, notes, doc, verseRef, pos, st);
    r := Some(st);
  }

  /** The state of `append_comment` after the first `i` children of the paragraph: every
      annotation among them and below them counted, its record added and its words added to the
      cell of the reference; the annotations among the remaining children are counted already. */
  ghost predicate Reached(paragraph: Node, i: nat, count: nat, notes: Notes, doc: Doc, verseRef: string,
                          pos: Option<(int, int)>, st: Extraction)
    requires i <= |paragraph.children|
  {
    var cs := paragraph.children;
    && |AnnotationIndices(cs, i)| <= AnnotatedUpTo(paragraph, i)
    && st.count == count + |AnnotationIndices(cs, |cs|)| - |AnnotationIndices(cs, i)| + AnnotatedUpTo(paragraph, i)
    && st.notes == AddNotes(notes, NotesUpTo(paragraph, i, verseRef))
    && st.doc == AppendAt(doc, pos, WordsUpTo(paragraph, i))
  }

  /** Before the first child, only the annotations of the paragraph's children are counted. */
  lemma ReachedStart(paragraph: Node, count: nat, notes: Notes, doc: Doc, verseRef: string, pos: Option<(int, int)>)
    ensures Reached(paragraph, 0, count, notes, doc, verseRef, pos,
                    Extraction(count + |AnnotationIndices(paragraph.children, |paragraph.children|)|, notes, doc))
  {
    AppendAtNothing(doc, pos);
  }

  /** After the last child, the whole paragraph is counted, recorded and added. */
  lemma ReachedEnd(paragraph: Node, count: nat, notes: Notes, doc: Doc, verseRef: string, pos: Option<(int, int)>,
                   st: Extraction)
    requires Reached(paragraph, |paragraph.children|, count, notes, doc, verseRef, pos, st)
    ensures st.count == count + Annotated(paragraph)
    ensures st.notes == AddNotes(notes, NotesBelow(paragraph, verseRef))
    ensures st.doc == AppendAt(doc, pos, WordsBelow(paragraph))
    ensures Annotated(paragraph) == 0 ==> st == Extraction(count, notes, doc)
  {
    if Annotated(paragraph) == 0 {
      AppendAtNothing(doc, pos);
    }
  }

  /** One turn of the loop of `append_comment`, at child `i` of the paragraph: the record of the
      child when it is an annotation, then everything below the child. `st` is the state reached
      from `count0`, `notes0` and `doc0` by the children before `i`. */
  method AppendChild(paragraph: Node, i: nat, pComments: seq<nat>, verseRef: string, pos: Option<(int, int)>,
                     st: Extraction, ghost count0: nat, ghost notes0: Notes, ghost doc0: Doc)
    returns (r: Option<Extraction>)
    requires i < |paragraph.children|
    requires pComments == AnnotationIndices(paragraph.children, |paragraph.children|)
    requires Reached(paragraph, i, count0, notes0, doc0, verseRef, pos, st)
    ensures r.Some? ==> Reached(paragraph, i + 1, count0, notes0, doc0, verseRef, pos, r.value)
    ensures AnnotatedUpTo(paragraph, i + 1) == AnnotatedUpTo(paragraph, i) ==> r == Some(st)
    ensures Annotated(paragraph) == 0 ==> r.Some?
    ensures WellFormed(paragraph) && (AnnotatedUpTo(paragraph, |paragraph.children|) > 0 ==> CellOf(doc0, pos))
            ==> r.Some?
    decreases paragraph, 0
  {
    var c := paragraph.children[i];
    var here := st;
    ghost var added, words := NotesUpTo(paragraph, i, verseRef), WordsUpTo(paragraph, i);
    AnnotatedUpToMonotone(paragraph, i + 1, |paragraph.children|);
    if WellFormed(paragraph) {
      WellFormedChild(paragraph, i);
    }
    if c.tag == AnnotationTag {
      var one := AnnotationStep(paragraph.children, i, pComments, verseRef, pos, st, notes0, doc0, added, words);
      if one.None? {
        return None;
      }
      here := one.value;
      added, words := added + [NoteAt(paragraph.children, i, verseRef)], words + PWords(WindowAt(paragraph.children, i));
    } else {
      assert added + [] == added && words + [] == words;
    }
    r := SubtreeStep(c, verseRef, pos, here, notes0, doc0, added, words);
    if r.Some? {
      ReachedNext(paragraph, i, count0, notes0, doc0, verseRef, pos, st, r.value);
    }
  }

  /** Child `i`'s own record and window, then everything below it, take the state reached
      before child `i` to the state reached after it. */
  lemma ReachedNext(paragraph: Node, i: nat, count0: nat, notes0: Notes, doc0: Doc, verseRef: string,
                    pos: Option<(int, int)>, st: Extraction, st': Extraction)
    requires i < |paragraph.children|
    requires Reached(paragraph, i, count0, notes0, doc0, verseRef, pos, st)
    requires var c := paragraph.children[i];
             && st'.count == st.count + Annotated(c)
             && st'.notes == AddNotes(notes0, NotesUpTo(paragraph, i, verseRef)
                                              + (if c.tag == AnnotationTag then [NoteAt(paragraph.children, i, verseRef)] else [])
                                              + NotesBelow(c, verseRef))
             && st'.doc == AppendAt(doc0, pos, WordsUpTo(paragraph, i)
                                               + (if c.tag == AnnotationTag then PWords(WindowAt(paragraph.children, i)) else [])
                                               + WordsBelow(c))
    ensures Reached(paragraph, i + 1, count0, notes0, doc0, verseRef, pos, st')
  {
    var cs, c := paragraph.children, paragraph.children[i];
    assert AnnotationIndices(cs, i + 1) == AnnotationIndices(cs, i) + if c.tag == AnnotationTag then [i] else [];
    assert AnnotatedUpTo(paragraph, i + 1) == AnnotatedUpTo(paragraph, i) + (if c.tag == AnnotationTag then 1 else 0) + Annotated(c);
  }

  /** The record of the annotation at child `i`, with the bookkeeping of `AppendChild`: `st` is
      reached from `notes0` and `doc0` by the records `added` and the words `words`. */
  method AnnotationStep(cs: seq<Node>, i: nat, pComments: seq<nat>, verseRef: string, pos: Option<(int, int)>,
                        st: Extraction, ghost notes0: Notes, ghost doc0: Doc,
                        ghost added: seq<(string, Comment)>, ghost words: seq<string>)
    returns (r: Option<Extraction>)
    requires i < |cs| && cs[i].tag == AnnotationTag
    requires pComments == AnnotationIndices(cs, |cs|)
    requires st.notes == AddNotes(notes0, added) && st.doc == AppendAt(doc0, pos, words)
    ensures r.None? <==> |cs[i].children| < 4 || !CellOf(doc0, pos)
    ensures r.Some? ==> r.value.count == st.count
    ensures r.Some? ==> r.value.notes == AddNotes(notes0, added + [NoteAt(cs, i, verseRef)])
    ensures r.Some? ==> r.value.doc == AppendAt(doc0, pos, words + PWords(WindowAt(cs, i)))
  {
    var one := RecordComment(cs, i, pComments, verseRef, pos, st.notes, st.doc);
    if one.None? {
      return None;
    }
    assert (added + [NoteAt(cs, i, verseRef)])[..|added|] == added;
    AppendAtAppend(doc0, pos, words, PWords(WindowAt(cs, i)));
    r := Some(Extraction(st.count, one.value.0, one.value.1));
  }

  /** Everything below child `c`, with the bookkeeping of `AppendChild`. */
  method SubtreeStep(c: Node, verseRef: string, pos: Option<(int, int)>, st: Extraction,
                     ghost notes0: Notes, ghost doc0: Doc, ghost added: seq<(string, Comment)>, ghost words: seq<string>)
    returns (r: Option<Extraction>)
    requires st.notes == AddNotes(notes0, added) && st.doc == AppendAt(doc0, pos, words)
    ensures r.Some? ==> r.value.count == st.count + Annotated(c)
    ensures r.Some? ==> r.value.notes == AddNotes(notes0, added + NotesBelow(c, verseRef))
    ensures r.Some? ==> r.value.doc == AppendAt(doc0, pos, words + WordsBelow(c))
    ensures Annotated(c) == 0 ==> r == Some(st)
    ensures WellFormed(c) && (Annotated(c) > 0 ==> CellOf(doc0, pos)) ==> r.Some?
    decreases c, 2
  {
    r := AppendBelow(st.count, st.notes, c, verseRef, pos, st.doc);
    if r.Some? {
      AddNotesAppend(notes0, added, NotesBelow(c, verseRef));
      AppendAtAppend(doc0, pos, words, WordsBelow(c));
    }
  }

  // ---------------------------------------------------------------------------------------
  // extract_comments

  /** The annotations in the paragraphs that have some text. */
  function TotalAnnotated(ps: seq<Node>): nat {
    if ps == [] then 0
    else
      var p := ps[|ps| - 1];
      TotalAnnotated(ps[..|ps| - 1]) + if Str(p) == "" then 0 else Annotated(p)
  }

  /** What `extract_comments` returns: the records of each user, the verse texts and the
      number of comments. */
  datatype Extracted = Extracted(notes: Notes, doc: Doc, count: nat)

  /** One pass of the paragraph loop of `extract_comments` (lines 154-175) as it ends when
      nothing raises: a blank paragraph is skipped; any other first moves the position, then is
      recorded by `Recorded`. */
  function ExtractStep(p: Node, book: string, pos: Position, st: Extracted): (r: (Extracted, Position))
    requires HasCell(st.doc, pos)
    ensures HasCell(r.0.doc, r.1)
    ensures r.0.count == st.count + if Str(p) == "" then 0 else Annotated(p)
  {
    if Str(p) == "" then (st, pos)
    else
      var moved := Track(Str(p), pos, st.doc);
      Recorded(p, book, moved.0, moved.1, st)
  }

  /** Lines 171-175 for a non-blank paragraph at the new position `pos` with the cells `doc`:
      a paragraph with an annotation below it has its comments recorded by `Commented`; any
      other adds the words of its converted text to the current cell. */
  function Recorded(p: Node, book: string, pos: Position, doc: Doc, st: Extracted): (r: (Extracted, Position))
    requires HasCell(doc, pos)
    ensures HasCell(r.0.doc, r.1) && r.1 == pos
    ensures r.0.count == st.count + Annotated(p)
  {
    if HasComment(p) then (Commented(p, book, pos, doc, st), pos)
    else
      HasCommentCount(p);
      (Uncommented(p, pos, doc, st), pos)
  }

  /** Lines 172-173: the records and context windows of the annotations below the paragraph
      added under the reference of `pos`, and the annotations counted. */
  function Commented(p: Node, book: string, pos: Position, doc: Doc, st: Extracted): (r: Extracted)
    requires HasCell(doc, pos)
    ensures HasCell(r.doc, pos)
    ensures r.count == st.count + Annotated(p)
  {
    var verseRef := VerseRef(book, pos.chapter, pos.verse);
    Extracted(AddNotes(st.notes, NotesBelow(p, verseRef)), AppendAt(doc, RefPosition(verseRef), WordsBelow(p)),
              st.count + Annotated(p))
  }

  /** Line 175: the words of the converted text added to the cell of `pos`. */
  function Uncommented(p: Node, pos: Position, doc: Doc, st: Extracted): (r: Extracted)
    requires HasCell(doc, pos)
    ensures HasCell(r.doc, pos)
    ensures r.notes == st.notes && r.count == st.count
  {
    var cell := doc[pos.chapter][pos.verse] + Words(ConvertToSfm(Str(p)));
    st.(doc := doc[pos.chapter := doc[pos.chapter][pos.verse := cell]])
  }

  /** The records, verse texts, count and position after the given paragraphs, starting from
      chapter 0, verse 1 and no records. */
  function ExtractAll(ps: seq<Node>, book: string): (r: (Extracted, Position))
    ensures HasCell(r.0.doc, r.1)
    ensures r.0.count == TotalAnnotated(ps)
  {
    if ps == [] then (Extracted(map[], StartDoc, 0), StartPos)
    else
      var (st, pos) := ExtractAll(ps[..|ps| - 1], book);
      ExtractStep(ps[|ps| - 1], book, pos, st)
  }

  /** `extract_comments(doc, book)` over the paragraphs of the document in order: what it
      returns when nothing raises is `ExtractAll`; with a book name that is one word, only an
      annotation with fewer than four children makes it raise. */
  method ExtractComments(paragraphs: seq<Node>, book: string) returns (r: Option<Extracted>)
    ensures r.Some? ==> r.value == ExtractAll(paragraphs, book).0
    ensures IsWord(book) && (forall k | 0 <= k < |paragraphs| :: WellFormed(paragraphs[k])) ==> r.Some?
  {
    var st := Extracted(map[], StartDoc, 0);
    var pos := StartPos;
    for k := 0 to |paragraphs|
      invariant (st, pos) == ExtractAll(paragraphs[..k], book)
    {
      assert paragraphs[..k + 1][..k] == paragraphs[..k];
      var res;
      res, pos := ExtractParagraph(paragraphs[k], book, pos, st);
      if res.None? {
        return None;
      }
      st := res.value;
    }
    assert paragraphs[..|paragraphs|] == paragraphs;
    r := Some(st);
  }

  /** One pass of the loop of `extract_comments`: a blank paragraph is skipped; any other first
      moves the position, then has its comments recorded or its converted words added to the
      current cell. */
  method ExtractParagraph(p: Node, book: string, pos: Position, st: Extracted)
    returns (r: Option<Extracted>, pos': Position)
    requires HasCell(st.doc, pos)
    ensures r.Some? ==> (r.value, pos') == ExtractStep(p, book, pos, st)
    ensures IsWord(book) && WellFormed(p) ==> r.Some?
  {
    var text := Str(p);
    if text == "" {
      return Some(st), pos;
    }
    var moved := Track(text, pos, st.doc);
    pos' := moved.0;
    r := RecordParagraph(p, book, pos', moved.1, st);
  }

  /** Lines 171-175: the comments of the paragraph recorded under the reference of `pos`, or
      its converted words added to the cell of `pos`. */
  method RecordParagraph(p: Node, book: string, pos: Position, doc: Doc, st: Extracted) returns (r: Option<Extracted>)
    requires HasCell(doc, pos)
    ensures r.Some? ==> (r.value, pos) == Recorded(p, book, pos, doc, st)
    ensures IsWord(book) && WellFormed(p) ==> r.Some?
  {
    if HasComment(p) {
      r := RecordComments(p, book, pos, doc, st);
    } else {
      var ptext := ConvertToSfm(Str(p));
      var cell := doc[pos.chapter][pos.verse] + Words(ptext);
      r := Some(st.(doc := doc[pos.chapter := doc[pos.chapter][pos.verse := cell]]));
    }
  }

  /** Lines 172-173: `append_comment` under the reference of `pos`. */
  method RecordComments(p: Node, book: string, pos: Position, doc: Doc, st: Extracted) returns (r: Option<Extracted>)
    requires HasCell(doc, pos)
    ensures r.Some? ==> r.value == Commented(p, book, pos, doc, st)
    ensures IsWord(book) && WellFormed(p) ==> r.Some?
  {
    var verseRef := VerseRef(book, pos.chapter, pos.verse);
    var res := AppendComment(st.count, st.notes, p, verseRef, doc);
    if IsWord(book) {
      RefPositionOfVerseRef(book, pos.chapter, pos.verse);
    }
    if res.None? {
      return None;
    }
    r := Some(Extracted(res.value.notes, res.value.doc, res.value.count));
  }
}
