/**
 * The written forms of the three citation-bearing matches, and what the
 * parser makes of each: a chapter list `12-15; 17` gives one citation per
 * item, a span `3:16a-4:2b` one citation carrying both endpoints, a verse list
 * `3:16-17, 20a` one citation per verse item sharing the chapter.  The forms
 * allow any amount of space around every mark, as the patterns do.
 */
module MatchForms {
  import opened Text
  import opened Books
  import opened RangeCodec
  import opened Scanner
  import opened Citations
  import opened Parser

  // ---------------------------------------------------------------------------
  // Separators and joined pieces
  // ---------------------------------------------------------------------------

  /** `\s*X\s*` written out: spaces, one mark, spaces. */
  datatype Gap = Gap(before: nat, mark: char, after: nat)

  function Blanks(n: nat): (r: string)
    ensures |r| == n && forall i :: 0 <= i < n ==> r[i] == ' '
  {
    seq(n, _ => ' ')
  }

  function GapText(g: Gap): (r: string)
    ensures |r| == g.before + 1 + g.after
  {
    Blanks(g.before) + [g.mark] + Blanks(g.after)
  }

  /** A mark of one of the separator classes. */
  predicate Mark(c: char)
  {
    IsDash(c) || c == ':' || c == ',' || c == ';'
  }

  predicate GapOf(cls: MarkClass, g: Gap)
  {
    InClass(cls, g.mark) && Mark(g.mark)
  }

  /** No character of a gap is a digit. */
  lemma GapNoDigits(g: Gap)
    requires Mark(g.mark)
    ensures forall i :: 0 <= i < |GapText(g)| ==> !IsDigit(GapText(g)[i])
  {
    var t := GapText(g);
    forall i | 0 <= i < |t|
      ensures !IsDigit(t[i])
    {
      if i < g.before {
        assert t[i] == ' ';
      } else if i == g.before {
        assert t[i] == g.mark;
      } else {
        assert t[i] == Blanks(g.after)[i - g.before - 1];
      }
    }
  }

  /** A piece a split hands back whole: non-empty, no mark of the class, no space at either end. */
  predicate Piece(cls: MarkClass, p: string)
  {
    |p| > 0 && !IsSpace(p[0]) && !IsSpace(p[|p| - 1])
    && forall i :: 0 <= i < |p| ==> !InClass(cls, p[i])
  }

  /** The pieces with a gap between each two. */
  function Join(parts: seq<string>, gaps: seq<Gap>): (r: string)
    requires |parts| == |gaps| + 1
    ensures |r| >= |parts[0]| && r[..|parts[0]|] == parts[0]
    decreases |gaps|
  {
    if gaps == [] then parts[0]
    else parts[0] + GapText(gaps[0]) + Join(parts[1..], gaps[1..])
  }

  /** `\s*X\s*` at the start of a gap ends at its end, when the gap's mark is in X. */
  lemma SepAtGap(pre: string, g: Gap, post: string, cls: MarkClass)
    requires Mark(g.mark)
    requires post == [] || !IsSpace(post[0])
    ensures var s := pre + GapText(g) + post;
      SepAt(s, |pre|, cls) == if InClass(cls, g.mark) then Some(|pre| + |GapText(g)|) else None
  {
    var s := pre + GapText(g) + post;
    var m := |pre| + g.before;
    var e := m + 1 + g.after;
    forall i | |pre| <= i < m
      ensures IsSpace(s[i])
    {
      assert s[i] == GapText(g)[i - |pre|] == ' ';
    }
    assert s[m] == g.mark;
    SpacesFromExact(s, |pre|, m);
    forall i | m + 1 <= i < e
      ensures IsSpace(s[i])
    {
      assert s[i] == GapText(g)[i - |pre|] == Blanks(g.after)[i - m - 1];
    }
    if e < |s| {
      assert s[e] == post[0];
    }
    SpacesFromExact(s, m + 1, e);
  }

  /** Inside a piece no separator of its class starts. */
  lemma NoSepInPiece(s: string, a: string, cls: MarkClass, i: nat)
    requires |a| <= |s| && s[..|a|] == a && Piece(cls, a) && i < |a|
    ensures SepAt(s, i, cls).None?
  {
    var j := SpacesFrom(s, i);
    assert s[|a| - 1] == a[|a| - 1];
    assert j < |a|;
    assert s[j] == a[j];
  }

  /** A piece followed by a gap of the class splits off at that gap. */
  lemma {:induction false} SplitAroundAfterPiece(a: string, g: Gap, b: string, cls: MarkClass)
    requires Piece(cls, a) && GapOf(cls, g)
    requires b == [] || !IsSpace(b[0])
    ensures SplitAround(a + GapText(g) + b, cls) == [a] + SplitAround(b, cls)
  {
    var s := a + GapText(g) + b;
    var e := |a| + |GapText(g)|;
    SepAtGap(a, g, b, cls);
    assert s[..|a|] == a;
    forall i | 0 <= i < |a|
      ensures SepAt(s, i, cls).None?
    {
      NoSepInPiece(s, a, cls, i);
    }
    assert SepAt(s, |a|, cls) == Some(e);
    var r := FirstSep(s, cls, 0);
    assert r.Some?;
    assert r.value.0 >= |a|;
    assert r.value.0 == |a|;
    assert s[e..] == b;
  }

  /** A piece alone is not split. */
  lemma SplitAroundPiece(a: string, cls: MarkClass)
    requires Piece(cls, a)
    ensures SplitAround(a, cls) == [a]
  {
    forall i | 0 <= i < |a|
      ensures SepAt(a, i, cls).None?
    {
      assert a[..|a|] == a;
      NoSepInPiece(a, a, cls, i);
    }
  }

  /** Splitting the joined pieces around their gaps gives back the pieces. */
  lemma {:induction false} SplitJoin(parts: seq<string>, gaps: seq<Gap>, cls: MarkClass)
    requires |parts| == |gaps| + 1
    requires forall i :: 0 <= i < |parts| ==> Piece(cls, parts[i])
    requires forall i :: 0 <= i < |gaps| ==> GapOf(cls, gaps[i])
    ensures SplitAround(Join(parts, gaps), cls) == parts
    decreases |gaps|
  {
    if gaps == [] {
      SplitAroundPiece(parts[0], cls);
    } else {
      var ps := parts[1..];
      var gs := gaps[1..];
      assert forall i :: 0 <= i < |ps| ==> ps[i] == parts[i + 1];
      assert forall i :: 0 <= i < |gs| ==> gs[i] == gaps[i + 1];
      var rest := Join(ps, gs);
      assert rest[0] == ps[0][0];
      SplitAroundAfterPiece(parts[0], gaps[0], rest, cls);
      SplitJoin(ps, gs, cls);
      HeadTail(parts);
    }
  }

  // ---------------------------------------------------------------------------
  // Numbers and fragments
  // ---------------------------------------------------------------------------

  /** `''` or one letter `a`-`f`. */
  predicate Fragment(f: string)
  {
    f == [] || (|f| == 1 && IsFragmentLetter(f[0]))
  }

  /** A verse's digits split from its fragment letter. */
  lemma SplitAfterDigitsOf(d: string, f: string)
    requires DigitString(d) && Fragment(f)
    ensures SplitAfterDigits(d + f) == if f == [] then [d] else [d, f]
  {
    var s := d + f;
    var i := DigitEndFrom(s, 1);
    if f == [] {
      assert s == d;
    } else {
      assert IsDigit(s[|d| - 1]) && !IsDigit(s[|d|]);
      assert i == |d|;
      assert s[..i] == d && s[i..] == f;
      assert SplitAfterDigits(f) == [f] by {
        assert DigitEndFrom(f, 1) == 1;
      }
    }
  }

  /** A number alone splits to itself around non-digits. */
  lemma SplitNonDigitsOne(d: string)
    requires DigitString(d)
    ensures SplitNonDigits(d) == [d]
  {
    DigitsFromExact(d, 0, |d|);
  }

  /** Two numbers around a gap split into the two numbers. */
  lemma SplitNonDigitsTwo(d1: string, g: Gap, d2: string)
    requires DigitString(d1) && DigitString(d2) && Mark(g.mark)
    ensures SplitNonDigits(d1 + GapText(g) + d2) == [d1, d2]
  {
    var s := d1 + GapText(g) + d2;
    var q := |d1|;
    var e := q + |GapText(g)|;
    GapNoDigits(g);
    assert s[q] == GapText(g)[0];
    DigitsFromExact(s, 0, q);
    var n := NonDigitsFrom(s, q);
    forall i | q <= i < e
      ensures !IsDigit(s[i])
    {
      assert s[i] == GapText(g)[i - q];
    }
    assert s[e] == d2[0];
    assert n == e;
    assert s[..q] == d1 && s[e..] == d2;
    SplitNonDigitsOne(d2);
  }

  /** DigitsFrom across a number followed by a non-digit or the end. */
  lemma NumberEnds(pre: string, d: string, post: string)
    requires DigitString(d)
    requires post == [] || !IsDigit(post[0])
    ensures DigitsFrom(pre + d + post, |pre|) == |pre| + |d|
  {
    var s := pre + d + post;
    forall i | |pre| <= i < |pre| + |d|
      ensures IsDigit(s[i])
    {
      assert s[i] == d[i - |pre|];
    }
    if post != [] {
      assert s[|pre| + |d|] == post[0];
    }
    DigitsFromExact(s, |pre|, |pre| + |d|);
  }

  // ---------------------------------------------------------------------------
  // Chapter lists: `12`, `12-15; 17`
  // ---------------------------------------------------------------------------

  /** One item of a chapter list as written. */
  datatype ChapterItemForm = Chapter(n: string) | Chapters(first: string, dash: Gap, last: string)

  predicate WellFormedChapterItem(it: ChapterItemForm)
  {
    match it
    case Chapter(n) => DigitString(n)
    case Chapters(a, g, b) => DigitString(a) && DigitString(b) && GapOf(Dashes, g)
  }

  function ChapterItemText(it: ChapterItemForm): string
  {
    match it
    case Chapter(n) => n
    case Chapters(a, g, b) => a + GapText(g) + b
  }

  function FirstChapter(it: ChapterItemForm): nat
    requires WellFormedChapterItem(it)
  {
    match it
    case Chapter(n) => DigitsValue(n)
    case Chapters(a, _, _) => DigitsValue(a)
  }

  function LastChapter(it: ChapterItemForm): nat
    requires WellFormedChapterItem(it)
  {
    match it
    case Chapter(n) => DigitsValue(n)
    case Chapters(_, _, b) => DigitsValue(b)
  }

  function ChapterTexts(items: seq<ChapterItemForm>): (r: seq<string>)
    ensures |r| == |items| && forall i :: 0 <= i < |items| ==> r[i] == ChapterItemText(items[i])
  {
    seq(|items|, i requires 0 <= i < |items| => ChapterItemText(items[i]))
  }

  /** The items joined by `\s*[;,]\s*` gaps. */
  function ChapterListText(items: seq<ChapterItemForm>, gaps: seq<Gap>): string
    requires |items| == |gaps| + 1
  {
    Join(ChapterTexts(items), gaps)
  }

  /** An item's first and last numbers are the ones it was written with. */
  lemma ItemBoundsOf(it: ChapterItemForm)
    requires WellFormedChapterItem(it)
    ensures ItemBounds(ChapterItemText(it)) == (FirstChapter(it), LastChapter(it))
  {
    match it
    case Chapter(n) =>
      SplitNonDigitsOne(n);
      ParseIntOfDigits(n);
    case Chapters(a, g, b) =>
      SplitNonDigitsTwo(a, g, b);
      ParseIntOfDigits(a);
      ParseIntOfDigits(b);
  }

  /** Characters that are not digits are passed over between items. */
  lemma {:induction false} ChapterItemsSkip(nd: string, rest: string)
    requires forall i :: 0 <= i < |nd| ==> !IsDigit(nd[i])
    ensures ChapterItems(nd + rest) == ChapterItems(rest)
    decreases |nd|
  {
    if nd != [] {
      assert (nd + rest)[1..] == nd[1..] + rest;
      ChapterItemsSkip(nd[1..], rest);
    } else {
      assert nd + rest == rest;
    }
  }

  /** Where an item's match ends when what follows it is `post`. */
  lemma ChapterItemEnd(it: ChapterItemForm, post: string)
    requires WellFormedChapterItem(it)
    requires post == [] || (!IsDigit(post[0]) && SepAt(post, 0, Dashes).None?)
    ensures var s := ChapterItemText(it) + post;
      ChapterRangeTail(s, DigitsFrom(s, 0)) == |ChapterItemText(it)|
  {
    match it
    case Chapter(n) => SingleChapterEnd(n, post);
    case Chapters(a, g, b) => ChapterRunEnd(a, g, b, post);
  }

  lemma SingleChapterEnd(n: string, post: string)
    requires DigitString(n)
    requires post == [] || (!IsDigit(post[0]) && SepAt(post, 0, Dashes).None?)
    ensures ChapterRangeTail(n + post, DigitsFrom(n + post, 0)) == |n|
  {
    assert n + post == [] + n + post;
    NumberEnds([], n, post);
    SepAtShift(n, post);
  }

  lemma ChapterRunEnd(a: string, g: Gap, b: string, post: string)
    requires DigitString(a) && DigitString(b) && GapOf(Dashes, g)
    requires post == [] || !IsDigit(post[0])
    ensures var s := a + GapText(g) + b + post;
      ChapterRangeTail(s, DigitsFrom(s, 0)) == |s| - |post|
  {
    RunFirstNumber(a, g, b, post);
    RunDash(a, g, b, post);
    RunLastNumber(a, g, b, post);
  }

  lemma RunFirstNumber(a: string, g: Gap, b: string, post: string)
    requires DigitString(a) && GapOf(Dashes, g)
    ensures DigitsFrom(a + GapText(g) + b + post, 0) == |a|
  {
    GapNoDigits(g);
    assert a + GapText(g) + b + post == [] + a + (GapText(g) + b + post);
    NumberEnds([], a, GapText(g) + b + post);
  }

  lemma RunDash(a: string, g: Gap, b: string, post: string)
    requires DigitString(b) && GapOf(Dashes, g)
    ensures SepAt(a + GapText(g) + b + post, |a|, Dashes) == Some(|a| + |GapText(g)|)
  {
    assert a + GapText(g) + b + post == a + GapText(g) + (b + post);
    SepAtGap(a, g, b + post, Dashes);
  }

  lemma RunLastNumber(a: string, g: Gap, b: string, post: string)
    requires DigitString(b)
    requires post == [] || !IsDigit(post[0])
    ensures var k := |a| + |GapText(g)|;
      NumberAt(a + GapText(g) + b + post, k) == Some(k + |b|)
  {
    assert a + GapText(g) + b + post == (a + GapText(g)) + b + post;
    NumberEnds(a + GapText(g), b, post);
  }

  /** At the end of a text, `\s*[–—-]\s*` sees only what follows. */
  lemma SepAtShift(t: string, post: string)
    requires post == [] || SepAt(post, 0, Dashes).None?
    ensures SepAt(t + post, |t|, Dashes).None?
  {
    var s := t + post;
    var j := SpacesFrom(post, 0);
    forall i | |t| <= i < |t| + j
      ensures IsSpace(s[i])
    {
      assert s[i] == post[i - |t|];
    }
    if |t| + j < |s| {
      assert s[|t| + j] == post[j];
    }
    SpacesFromExact(s, |t|, |t| + j);
  }

  /** A list gap is neither a digit nor the start of a dash separator. */
  lemma ListGapFollows(g: Gap, rest: string)
    requires GapOf(ListMarks, g)
    requires rest == [] || !IsSpace(rest[0])
    ensures var post := GapText(g) + rest;
      !IsDigit(post[0]) && SepAt(post, 0, Dashes).None?
  {
    GapNoDigits(g);
    assert GapText(g) + rest == [] + GapText(g) + rest;
    SepAtGap([], g, rest, Dashes);
  }

  /** The global match over a chapter list finds its items. */
  lemma {:induction false} ChapterItemsOfList(items: seq<ChapterItemForm>, gaps: seq<Gap>)
    requires |items| == |gaps| + 1
    requires forall i :: 0 <= i < |items| ==> WellFormedChapterItem(items[i])
    requires forall i :: 0 <= i < |gaps| ==> GapOf(ListMarks, gaps[i])
    ensures ChapterItems(ChapterListText(items, gaps)) == ChapterTexts(items)
    decreases |gaps|
  {
    var t := ChapterItemText(items[0]);
    if gaps == [] {
      ChapterItemHead(items[0], []);
      assert t + [] == t;
      assert ChapterTexts(items) == [t];
    } else {
      var rest := ChapterListText(items[1..], gaps[1..]);
      var post := GapText(gaps[0]) + rest;
      ChapterListUnfold(items, gaps);
      ChapterItemStartsWithDigit(items[1]);
      assert rest[0] == ChapterItemText(items[1])[0];
      ListGapFollows(gaps[0], rest);
      ChapterItemHead(items[0], post);
      GapNoDigits(gaps[0]);
      ChapterItemsSkip(GapText(gaps[0]), rest);
      ChapterItemsOfList(items[1..], gaps[1..]);
      assert ChapterTexts(items) == [t] + ChapterTexts(items[1..]);
    }
  }

  lemma ChapterItemStartsWithDigit(it: ChapterItemForm)
    requires WellFormedChapterItem(it)
    ensures |ChapterItemText(it)| > 0 && IsDigit(ChapterItemText(it)[0])
  {
    match it
    case Chapter(n) =>
    case Chapters(a, g, b) => assert ChapterItemText(it)[0] == a[0];
  }

  /** The match over an item followed by `post` takes the whole item first. */
  lemma ChapterItemHead(it: ChapterItemForm, post: string)
    requires WellFormedChapterItem(it)
    requires post == [] || (!IsDigit(post[0]) && SepAt(post, 0, Dashes).None?)
    ensures ChapterItems(ChapterItemText(it) + post) == [ChapterItemText(it)] + ChapterItems(post)
  {
    var t := ChapterItemText(it);
    var s := t + post;
    ChapterItemStartsWithDigit(it);
    ChapterItemEnd(it, post);
    assert s[..|t|] == t && s[|t|..] == post;
  }

  lemma ChapterListUnfold(items: seq<ChapterItemForm>, gaps: seq<Gap>)
    requires |items| == |gaps| + 1 && gaps != []
    ensures ChapterListText(items, gaps)
      == ChapterItemText(items[0]) + (GapText(gaps[0]) + ChapterListText(items[1..], gaps[1..]))
  {
    assert ChapterTexts(items)[1..] == ChapterTexts(items[1..]);
  }

  /**
   * A chapter list gives one citation per item, in order, each from the
   * item's first number to its last (a single number is both).
   */
  lemma ChapterListCitations(books: seq<Book>, id: nat, items: seq<ChapterItemForm>, gaps: seq<Gap>)
    requires id < |books|
    requires |items| == |gaps| + 1
    requires forall i :: 0 <= i < |items| ==> WellFormedChapterItem(items[i])
    requires forall i :: 0 <= i < |gaps| ==> GapOf(ListMarks, gaps[i])
    ensures var cs := TokenCitations(books, id, Token(ChapterList, ChapterListText(items, gaps)));
      |cs| == |items|
      && forall i :: 0 <= i < |items| ==>
           cs[i] == ChapterItemCitation(books, id, FirstChapter(items[i]), LastChapter(items[i]))
  {
    ChapterItemsOfList(items, gaps);
    forall i | 0 <= i < |items|
      ensures ItemBounds(ChapterTexts(items)[i]) == (FirstChapter(items[i]), LastChapter(items[i]))
    {
      ItemBoundsOf(items[i]);
    }
  }

  /**
   * What a chapter-list item cites.  In a one-chapter book the numbers are
   * verses of chapter 1, and the packed range runs from the first to the
   * last; otherwise they are chapters with no verse, and the packed range
   * runs from verse 0 of the first chapter to verse 255 of the last, so that
   * it covers the whole of both.
   */
  lemma ChapterItemCites(books: seq<Book>, id: nat, first: nat, last: nat)
    requires id < |books|
    ensures var c := ChapterItemCitation(books, id, first, last);
      c.book == books[id].name
      && (books[id].oneChapter ==>
            c.kind == VerseRange && c.from == Endpoint(1, Verse(first), "") && c.to == Endpoint(1, Verse(last), ""))
      && (!books[id].oneChapter ==>
            c.kind == ChapterRange && c.from == Endpoint(first, NoVerse, "") && c.to == Endpoint(last, NoVerse, ""))
    ensures InField(id, first, 0) && InField(id, last, 0) ==>
      var c := ChapterItemCitation(books, id, first, last);
      var lo := RangeToReference(books, c.range.0);
      var hi := RangeToReference(books, c.range.1);
      (books[id].oneChapter ==>
         lo == Reference(Some(books[id]), 1, first) && hi == Reference(Some(books[id]), 1, last))
      && (!books[id].oneChapter ==>
         lo == Reference(Some(books[id]), first, 0) && hi == Reference(Some(books[id]), last, 255))
  {
    if InField(id, first, 0) && InField(id, last, 0) {
      if books[id].oneChapter {
        RoundTrip(books, ById(id), 1, first);
        RoundTrip(books, ById(id), 1, last);
      } else {
        RoundTrip(books, ById(id), first, 0);
        RoundTrip(books, ById(id), last, 255);
      }
    }
  }

  // ---------------------------------------------------------------------------
  // Spans: `3:16a-4:2b`
  // ---------------------------------------------------------------------------

  /** One side of a span as written: chapter, colon gap, verse, fragment. */
  datatype SpanEnd = SpanEnd(chapter: string, colon: Gap, verse: string, fragment: string)

  predicate WellFormedSpanEnd(e: SpanEnd)
  {
    DigitString(e.chapter) && GapOf(Colons, e.colon) && DigitString(e.verse) && Fragment(e.fragment)
  }

  function SpanEndText(e: SpanEnd): string
  {
    e.chapter + GapText(e.colon) + (e.verse + e.fragment)
  }

  /** The endpoint a span side denotes. */
  function SpanEndpointOf(e: SpanEnd): Endpoint
    requires WellFormedSpanEnd(e)
  {
    Endpoint(DigitsValue(e.chapter), Verse(DigitsValue(e.verse)), e.fragment)
  }

  function SpanText(from: SpanEnd, dash: Gap, to: SpanEnd): string
  {
    SpanEndText(from) + GapText(dash) + SpanEndText(to)
  }

  /** Digits and an optional fragment letter hold no mark and no space. */
  lemma VersePiece(d: string, f: string, cls: MarkClass)
    requires DigitString(d) && Fragment(f)
    ensures Piece(cls, d + f)
  {
    var p := d + f;
    assert p[0] == d[0];
    forall i | 0 <= i < |p|
      ensures !InClass(cls, p[i]) && !IsSpace(p[i])
    {
      if i < |d| {
        assert p[i] == d[i];
      } else {
        assert p[i] == f[i - |d|];
      }
    }
  }

  /** A span side splits at its colon into chapter, verse and fragment. */
  lemma SpanSideOf(e: SpanEnd)
    requires WellFormedSpanEnd(e)
    ensures var pieces := SpanSide(SpanEndText(e));
      pieces[0] == e.chapter && pieces[1] == e.verse && PieceOr(pieces, 2) == e.fragment
  {
    SpanSideColon(e);
    SplitAfterDigitsOf(e.verse, e.fragment);
  }

  /** A span side splits at its colon into the chapter and the verse with its fragment. */
  lemma SpanSideColon(e: SpanEnd)
    requires WellFormedSpanEnd(e)
    ensures var cv := SplitAround(SpanEndText(e), Colons);
      cv[0] == e.chapter && PieceOr(cv, 1) == e.verse + e.fragment
  {
    var vf := e.verse + e.fragment;
    VersePiece(e.chapter, [], Colons);
    assert e.chapter + [] == e.chapter;
    VersePiece(e.verse, e.fragment, Colons);
    assert Join([e.chapter, vf], [e.colon]) == e.chapter + GapText(e.colon) + Join([vf], []);
    assert SpanEndText(e) == Join([e.chapter, vf], [e.colon]);
    SplitJoin([e.chapter, vf], [e.colon], Colons);
  }

  /** The endpoint the parser reads from a span side, and the numbers it packs. */
  lemma SpanEndpointRead(e: SpanEnd)
    requires WellFormedSpanEnd(e)
    ensures var pieces := SpanSide(SpanEndText(e));
      SpanEndpoint(pieces) == SpanEndpointOf(e)
      && ParseInt(pieces[0]) == DigitsValue(e.chapter) && ParseInt(pieces[1]) == DigitsValue(e.verse)
  {
    SpanSideOf(e);
    ParseIntOfDigits(e.chapter);
    ParseIntOfDigits(e.verse);
  }

  lemma SpanEndPiece(e: SpanEnd)
    requires WellFormedSpanEnd(e)
    ensures Piece(Dashes, SpanEndText(e))
  {
    var t := SpanEndText(e);
    VersePiece(e.verse, e.fragment, Dashes);
    VersePiece(e.chapter, [], Dashes);
    assert e.chapter + [] == e.chapter;
    assert t[0] == e.chapter[0];
    assert t[|t| - 1] == (e.verse + e.fragment)[|e.verse + e.fragment| - 1];
    forall i | 0 <= i < |t|
      ensures !InClass(Dashes, t[i])
    {
      var c := |e.chapter|;
      var g := |GapText(e.colon)|;
      if i < c {
        assert t[i] == e.chapter[i];
      } else if i < c + g {
        assert t[i] == GapText(e.colon)[i - c];
        assert GapText(e.colon)[i - c] == ' ' || GapText(e.colon)[i - c] == ':' by {
          if i - c < e.colon.before {
            assert GapText(e.colon)[i - c] == Blanks(e.colon.before)[i - c];
          } else if i - c > e.colon.before {
            assert GapText(e.colon)[i - c] == Blanks(e.colon.after)[i - c - e.colon.before - 1];
          }
        }
      } else {
        assert t[i] == (e.verse + e.fragment)[i - c - g];
      }
    }
  }

  /**
   * A span gives one 'cv-cv' citation whose endpoints carry their own
   * chapter, verse and fragment, packed from each side's chapter and verse.
   */
  lemma SpanCitationOf(books: seq<Book>, id: nat, from: SpanEnd, dash: Gap, to: SpanEnd)
    requires id < |books|
    requires WellFormedSpanEnd(from) && WellFormedSpanEnd(to) && GapOf(Dashes, dash)
    ensures var a := SpanEndpointOf(from);
      var b := SpanEndpointOf(to);
      TokenCitations(books, id, Token(ChapterVerseSpan, SpanText(from, dash, to)))
        == [Citation(ChapterVerseRange, books[id].name, a, b,
                     (RangeFormat(books, ById(id), a.chapter, a.verse.n),
                      RangeFormat(books, ById(id), b.chapter, b.verse.n)))]
  {
    var text := SpanText(from, dash, to);
    SpanSides(from, dash, to);
    SpanCitationFromSides(books, id, text, SpanEndText(from), SpanEndText(to));
    SpanEndpointRead(from);
    SpanEndpointRead(to);
  }

  /** A span splits at its dash into its two sides. */
  lemma SpanSides(from: SpanEnd, dash: Gap, to: SpanEnd)
    requires WellFormedSpanEnd(from) && WellFormedSpanEnd(to) && GapOf(Dashes, dash)
    ensures var sides := SplitAround(SpanText(from, dash, to), Dashes);
      sides[0] == SpanEndText(from) && PieceOr(sides, 1) == SpanEndText(to)
  {
    var f := SpanEndText(from);
    var t := SpanEndText(to);
    SpanEndPiece(from);
    SpanEndPiece(to);
    assert Join([f, t], [dash]) == f + GapText(dash) + Join([t], []);
    assert SpanText(from, dash, to) == Join([f, t], [dash]);
    SplitJoin([f, t], [dash], Dashes);
  }

  /** The citation of a span, in terms of the pieces of its two sides. */
  lemma SpanCitationFromSides(books: seq<Book>, id: nat, text: string, f: string, t: string)
    requires id < |books|
    requires var sides := SplitAround(text, Dashes);
      sides[0] == f && PieceOr(sides, 1) == t
    ensures var from := SpanSide(f);
      var to := SpanSide(t);
      TokenCitations(books, id, Token(ChapterVerseSpan, text))
        == [Citation(ChapterVerseRange, books[id].name, SpanEndpoint(from), SpanEndpoint(to),
                     (RangeFormat(books, ById(id), ParseInt(from[0]), ParseInt(from[1])),
                      RangeFormat(books, ById(id), ParseInt(to[0]), ParseInt(to[1]))))]
  {
  }

  // ---------------------------------------------------------------------------
  // Verse lists: `3:16-17, 20a`
  // ---------------------------------------------------------------------------

  /** One item of a verse list as written: a verse, or a verse range; each with a fragment. */
  datatype VerseItemForm =
    | OneVerse(verse: string, fragment: string)
    | Verses(first: string, firstFragment: string, dash: Gap, last: string, lastFragment: string)

  predicate WellFormedVerseItem(it: VerseItemForm)
  {
    match it
    case OneVerse(v, f) => DigitString(v) && Fragment(f)
    case Verses(v1, f1, g, v2, f2) =>
      DigitString(v1) && Fragment(f1) && GapOf(Dashes, g) && DigitString(v2) && Fragment(f2)
  }

  function VerseItemText(it: VerseItemForm): string
  {
    match it
    case OneVerse(v, f) => v + f
    case Verses(v1, f1, g, v2, f2) => (v1 + f1) + GapText(g) + (v2 + f2)
  }

  /** The endpoints an item denotes in chapter `ch`; a single verse is both. */
  function VerseItemFrom(ch: nat, it: VerseItemForm): Endpoint
    requires WellFormedVerseItem(it)
  {
    match it
    case OneVerse(v, f) => Endpoint(ch, Verse(DigitsValue(v)), f)
    case Verses(v1, f1, _, _, _) => Endpoint(ch, Verse(DigitsValue(v1)), f1)
  }

  function VerseItemTo(ch: nat, it: VerseItemForm): Endpoint
    requires WellFormedVerseItem(it)
  {
    match it
    case OneVerse(v, f) => Endpoint(ch, Verse(DigitsValue(v)), f)
    case Verses(_, _, _, v2, f2) => Endpoint(ch, Verse(DigitsValue(v2)), f2)
  }

  function VerseTexts(items: seq<VerseItemForm>): (r: seq<string>)
    ensures |r| == |items| && forall i :: 0 <= i < |items| ==> r[i] == VerseItemText(items[i])
  {
    seq(|items|, i requires 0 <= i < |items| => VerseItemText(items[i]))
  }

  /** `3:16-17, 20a`: the chapter, a colon gap, then the items with comma gaps between. */
  function VerseListText(chapter: string, colon: Gap, items: seq<VerseItemForm>, gaps: seq<Gap>): string
    requires |items| == |gaps| + 1
  {
    Join([chapter] + VerseTexts(items), [colon] + gaps)
  }

  /** A verse item is a piece of the split on `[:,;]`. */
  lemma VerseItemPiece(it: VerseItemForm)
    requires WellFormedVerseItem(it)
    ensures Piece(VerseMarks, VerseItemText(it))
  {
    match it
    case OneVerse(v, f) =>
      VersePiece(v, f, VerseMarks);
    case Verses(v1, f1, g, v2, f2) =>
      VersePiece(v1, f1, VerseMarks);
      VersePiece(v2, f2, VerseMarks);
      var t := VerseItemText(it);
      var a := v1 + f1;
      var n := |GapText(g)|;
      assert t[0] == a[0];
      assert t[|t| - 1] == (v2 + f2)[|v2 + f2| - 1];
      forall i | 0 <= i < |t|
        ensures !InClass(VerseMarks, t[i])
      {
        if i < |a| {
          assert t[i] == a[i];
        } else if i < |a| + n {
          assert t[i] == GapText(g)[i - |a|];
          assert GapText(g)[i - |a|] == ' ' || IsDash(GapText(g)[i - |a|]) by {
            if i - |a| < g.before {
              assert GapText(g)[i - |a|] == Blanks(g.before)[i - |a|];
            } else if i - |a| > g.before {
              assert GapText(g)[i - |a|] == Blanks(g.after)[i - |a| - g.before - 1];
            }
          }
        } else {
          assert t[i] == (v2 + f2)[i - |a| - n];
        }
      }
  }

  /** What one verse item cites in chapter `ch`. */
  lemma VerseItemOf(books: seq<Book>, id: nat, ch: nat, it: VerseItemForm)
    requires id < |books| && WellFormedVerseItem(it)
    ensures var a := VerseItemFrom(ch, it);
      var b := VerseItemTo(ch, it);
      VerseItemCitation(books, id, ch, VerseItemText(it))
        == Citation(VerseRange, books[id].name, a, b,
                    (RangeFormat(books, ById(id), ch, a.verse.n), RangeFormat(books, ById(id), ch, b.verse.n)))
  {
    match it
    case OneVerse(v, f) =>
      VersePiece(v, f, Dashes);
      SplitAroundPiece(v + f, Dashes);
      SplitAfterDigitsOf(v, f);
      ParseIntOfDigits(v);
    case Verses(v1, f1, g, v2, f2) =>
      VersePiece(v1, f1, Dashes);
      VersePiece(v2, f2, Dashes);
      assert VerseItemText(it) == Join([v1 + f1, v2 + f2], [g]) by {
        assert Join([v1 + f1, v2 + f2], [g]) == (v1 + f1) + GapText(g) + Join([v2 + f2], []);
      }
      SplitJoin([v1 + f1, v2 + f2], [g], Dashes);
      SplitAfterDigitsOf(v1, f1);
      SplitAfterDigitsOf(v2, f2);
      ParseIntOfDigits(v1);
      ParseIntOfDigits(v2);
  }

  lemma VerseListToken(books: seq<Book>, id: nat, text: string)
    requires id < |books|
    ensures var pieces := SplitAround(text, VerseMarks);
      TokenCitations(books, id, Token(ChapterVerseList, text))
        == VerseItemsCitations(books, id, ParseInt(pieces[0]), pieces[1..])
  {
  }

  /**
   * A verse list gives one 'cv-v' citation per item, in order, all in the
   * chapter before the colon; a single verse is its own start and end,
   * fragment included, and the two ends of a range keep their own fragments.
   */
  lemma VerseListCitations(books: seq<Book>, id: nat, chapter: string, colon: Gap,
                           items: seq<VerseItemForm>, gaps: seq<Gap>)
    requires id < |books|
    requires DigitString(chapter) && GapOf(Colons, colon)
    requires |items| == |gaps| + 1
    requires forall i :: 0 <= i < |items| ==> WellFormedVerseItem(items[i])
    requires forall i :: 0 <= i < |gaps| ==> GapOf(Commas, gaps[i])
    ensures var ch := DigitsValue(chapter);
      var cs := TokenCitations(books, id, Token(ChapterVerseList, VerseListText(chapter, colon, items, gaps)));
      |cs| == |items|
      && forall i :: 0 <= i < |items| ==>
           var a := VerseItemFrom(ch, items[i]);
           var b := VerseItemTo(ch, items[i]);
           cs[i] == Citation(VerseRange, books[id].name, a, b,
                             (RangeFormat(books, ById(id), ch, a.verse.n), RangeFormat(books, ById(id), ch, b.verse.n)))
  {
    var ch := DigitsValue(chapter);
    var text := VerseListText(chapter, colon, items, gaps);
    VerseListPieces(chapter, colon, items, gaps);
    ParseIntOfDigits(chapter);
    VerseListToken(books, id, text);
    var cs := VerseItemsCitations(books, id, ch, VerseTexts(items));
    forall i | 0 <= i < |items|
      ensures var a := VerseItemFrom(ch, items[i]);
        var b := VerseItemTo(ch, items[i]);
        cs[i] == Citation(VerseRange, books[id].name, a, b,
                          (RangeFormat(books, ById(id), ch, a.verse.n), RangeFormat(books, ById(id), ch, b.verse.n)))
    {
      VerseItemOf(books, id, ch, items[i]);
    }
  }

  // `ch_vs.split(/\s*[:,;]\s*/)` on a verse list: the chapter, then the items.
  lemma VerseListPieces(chapter: string, colon: Gap, items: seq<VerseItemForm>, gaps: seq<Gap>)
    requires DigitString(chapter) && GapOf(Colons, colon)
    requires |items| == |gaps| + 1
    requires forall i :: 0 <= i < |items| ==> WellFormedVerseItem(items[i])
    requires forall i :: 0 <= i < |gaps| ==> GapOf(Commas, gaps[i])
    ensures var pieces := SplitAround(VerseListText(chapter, colon, items, gaps), VerseMarks);
      pieces[0] == chapter && pieces[1..] == VerseTexts(items)
  {
    var parts := [chapter] + VerseTexts(items);
    var seps := [colon] + gaps;
    VersePiece(chapter, [], VerseMarks);
    assert chapter + [] == chapter;
    forall i | 0 <= i < |parts|
      ensures Piece(VerseMarks, parts[i])
    {
      if i > 0 {
        VerseItemPiece(items[i - 1]);
      }
    }
    SplitJoin(parts, seps, VerseMarks);
  }
}
