/**
 * The recognition grammar of index.js:5-10 and the `rx.exec` search that
 * parseScripture repeats.  The composite pattern is an alternation of four
 * groups tried in order at each position, leftmost position first:
 *
 *   1. bookRx    a known alias between word boundaries;
 *   2. chchRx    a chapter list `12`, `12-15; 3` (no item followed by `:`,
 *                no later item that is the start of a book alias);
 *   3. chvchvRx  a span `3:16a-4:2b`;
 *   4. chvRx     a verse list `3:16-17, 20a` (later items as in 2).
 *
 * Each recognizer below returns where the first match JavaScript's
 * backtracking matcher finds at a position ends.  Apart from the digit run
 * before a `(?!\s*:)` lookahead, every quantifier in these patterns either
 * keeps its greedy choice or fails whatever it backtracks to, so the first
 * match is the greedy one.  The exception is the subject of `Lookahead`.
 */
module Scanner {
  import opened Text
  import opened Books

  /** Which capture group of the composite pattern matched. */
  datatype Alternative = BookName | ChapterList | ChapterVerseSpan | ChapterVerseList

  /**
   * How `\d+(?!\s*:)` treats a digit run followed by `:`.  As written, the
   * matcher backtracks into the run and accepts all digits but the last
   * (the next character is then a digit, which is not `\s*:`).  Atomic is the
   * evidently intended reading: a run followed by `:` is rejected whole.
   */
  datatype Lookahead = Backtracking | Atomic

  /** One result of `rx.exec`: the group that matched and the matched span. */
  datatype Match = Match(alt: Alternative, start: nat, end: nat)

  /** A match with its text, as the parser reads it. */
  datatype Token = Token(alt: Alternative, text: string)

  // ---------------------------------------------------------------------------
  // Book names (index.js:3-5)
  // ---------------------------------------------------------------------------

  /** `Array.prototype.concat(...books.map((b) => b.aka))` */
  function Aliases(books: seq<Book>): (r: seq<string>)
    ensures forall a :: a in r <==> exists i :: 0 <= i < |books| && a in books[i].aka
  {
    if books == [] then []
    else
      var r := books[0].aka + Aliases(books[1..]);
      assert forall i :: 1 <= i < |books| ==> books[i] == books[1..][i - 1];
      r
  }

  lemma ValidAliasesNonEmpty(books: seq<Book>, a: string)
    requires ValidRegistry(books) && a in Aliases(books)
    ensures a != []
  {
    var i :| 0 <= i < |books| && a in books[i].aka;
    var j :| 0 <= j < |books[i].aka| && books[i].aka[j] == a;
  }

  /** `\b` at position `p`. */
  predicate WordBoundary(s: string, p: nat)
    requires p <= |s|
  {
    (p > 0 && IsWordChar(s[p - 1])) != (p < |s| && IsWordChar(s[p]))
  }

  /** `\b` alias `\b` matches at `p`, ignoring case. */
  predicate AliasAt(s: string, p: nat, a: string)
    requires p <= |s|
  {
    p + |a| <= |s| && EqualsIgnoringCase(s[p..p + |a|], a)
    && WordBoundary(s, p) && WordBoundary(s, p + |a|)
  }

  /**
   * The length of the longest alias that matches at `p`.  The aliases are
   * joined longest first (index.js:5), so the first alternative that matches
   * is one of the longest that match; all of them match the same text.
   */
  function LongestAliasAt(aliases: seq<string>, s: string, p: nat): (r: Option<nat>)
    requires p <= |s|
    ensures r.None? <==> forall a :: a in aliases ==> !AliasAt(s, p, a)
    ensures r.Some? ==> exists a :: a in aliases && AliasAt(s, p, a) && |a| == r.value
    ensures r.Some? ==> forall a :: a in aliases && AliasAt(s, p, a) ==> |a| <= r.value
    decreases |aliases|
  {
    if aliases == [] then None
    else
      var rest := LongestAliasAt(aliases[1..], s, p);
      assert forall a :: a in aliases <==> a == aliases[0] || a in aliases[1..];
      if AliasAt(s, p, aliases[0]) && (rest.None? || rest.value < |aliases[0]|)
      then Some(|aliases[0]|)
      else rest
  }

  /** bookRx at `p`: where the matched alias ends. */
  function BookAt(books: seq<Book>, s: string, p: nat): (r: Option<nat>)
    requires p <= |s|
    ensures r.Some? ==> p <= r.value <= |s|
  {
    match LongestAliasAt(Aliases(books), s, p)
    case None => None
    case Some(n) => Some(p + n)
  }

  // ---------------------------------------------------------------------------
  // Pieces shared by the chapter and verse patterns (index.js:6-8)
  // ---------------------------------------------------------------------------

  /** The separator classes of the patterns and of the parser's splits. */
  datatype MarkClass = Dashes | Colons | Commas | ListMarks | VerseMarks

  predicate InClass(cls: MarkClass, c: char)
  {
    match cls
    case Dashes => IsDash(c)
    case Colons => c == ':'
    case Commas => c == ','
    case ListMarks => c == ';' || c == ','
    case VerseMarks => c == ':' || c == ',' || c == ';'
  }

  /** `\s*[X]\s*` at `q`: where it ends. */
  function SepAt(s: string, q: nat, cls: MarkClass): (r: Option<nat>)
    requires q <= |s|
    ensures r.Some? ==> q < r.value <= |s|
  {
    var j := SpacesFrom(s, q);
    if j < |s| && InClass(cls, s[j]) then Some(SpacesFrom(s, j + 1)) else None
  }

  /** `\d+` at `p`. */
  function NumberAt(s: string, p: nat): (r: Option<nat>)
    requires p <= |s|
    ensures r.Some? ==> p < r.value <= |s|
  {
    var e := DigitsFrom(s, p);
    if e > p then Some(e) else None
  }

  /** `\s*:` matches at `q` (the body of the negative lookahead). */
  predicate ColonAhead(s: string, q: nat)
    requires q <= |s|
  {
    var j := SpacesFrom(s, q);
    j < |s| && s[j] == ':'
  }

  /** `\d+(?!\s*:)` at `p`. */
  function NumberNotBeforeColon(mode: Lookahead, s: string, p: nat): (r: Option<nat>)
    requires p <= |s|
    ensures r.Some? ==> p < r.value <= |s|
  {
    var e := DigitsFrom(s, p);
    if e == p then None
    else if !ColonAhead(s, e) then Some(e)
    else if mode == Backtracking && e - p >= 2 then Some(e - 1)
    else None
  }

  /** `[a-f]?` at `q`. */
  function FragmentAt(s: string, q: nat): (r: nat)
    requires q <= |s|
    ensures q <= r <= q + 1 && r <= |s|
  {
    if q < |s| && IsFragmentLetter(s[q]) then q + 1 else q
  }

  // ---------------------------------------------------------------------------
  // What the citation groups consume
  // ---------------------------------------------------------------------------

  /** The characters the chapter-list, span and verse-list patterns are built from. */
  datatype Alphabet = ChapterListChars | SpanChars | VerseListChars

  predicate InAlphabet(al: Alphabet, c: char)
  {
    IsDigit(c) || IsSpace(c) || IsDash(c)
    || (match al
        case ChapterListChars => c == ';' || c == ','
        case SpanChars => c == ':' || IsFragmentLetter(c)
        case VerseListChars => c == ':' || c == ',' || IsFragmentLetter(c))
  }

  /** Every character of `s[a..b]` belongs to the alphabet. */
  predicate MadeOf(s: string, a: nat, b: nat, al: Alphabet)
    requires a <= b <= |s|
  {
    forall i :: a <= i < b ==> InAlphabet(al, s[i])
  }

  /**
   * `s[a..b]` is made of the alphabet and, unless empty, ends on a digit or,
   * where the pattern allows one, on a fragment letter.
   */
  predicate Shaped(s: string, a: nat, b: nat, al: Alphabet)
    requires a <= b <= |s|
  {
    MadeOf(s, a, b, al)
    && (b > a ==> IsDigit(s[b - 1]) || (al != ChapterListChars && IsFragmentLetter(s[b - 1])))
  }

  /** Two shaped pieces in a row make one. */
  lemma ShapedJoin(s: string, a: nat, b: nat, c: nat, al: Alphabet)
    requires a <= b <= c <= |s| && Shaped(s, a, b, al) && Shaped(s, b, c, al)
    ensures Shaped(s, a, c, al)
  {
  }

  /** The separator classes each pattern uses. */
  predicate MarksIn(cls: MarkClass, al: Alphabet)
  {
    cls == Dashes
    || (cls == ListMarks && al == ChapterListChars)
    || (cls == Colons && al != ChapterListChars)
    || (cls == Commas && al == VerseListChars)
  }

  /** A separator followed by a shaped piece makes a shaped piece. */
  lemma SepThenShaped(s: string, q: nat, cls: MarkClass, k: nat, r: nat, al: Alphabet)
    requires q <= |s| && SepAt(s, q, cls) == Some(k) && MarksIn(cls, al)
    requires k < r <= |s| && Shaped(s, k, r, al)
    ensures Shaped(s, q, r, al)
  {
  }

  /** `\d+` and `\d+(?!\s*:)` consume digits only. */
  lemma NumberShape(mode: Lookahead, s: string, p: nat, al: Alphabet)
    requires p <= |s|
    ensures NumberAt(s, p).Some? ==> IsDigit(s[p]) && Shaped(s, p, NumberAt(s, p).value, al)
    ensures NumberNotBeforeColon(mode, s, p).Some? ==>
      IsDigit(s[p]) && Shaped(s, p, NumberNotBeforeColon(mode, s, p).value, al)
  {
  }

  /** `[a-f]?` after a number keeps the piece shaped. */
  lemma FragmentShape(s: string, p: nat, e: nat, al: Alphabet)
    requires p < e <= |s| && al != ChapterListChars && Shaped(s, p, e, al)
    ensures Shaped(s, p, FragmentAt(s, e), al)
  {
  }

  /** `\d+\s*:\s*\d+` at `p`: a chapter, a colon and a verse number. */
  function ChapterVerseAt(s: string, p: nat): (r: Option<nat>)
    requires p <= |s|
    ensures r.Some? ==> p < r.value <= |s|
    ensures r.Some? ==> IsDigit(s[p]) && Shaped(s, p, r.value, SpanChars) && Shaped(s, p, r.value, VerseListChars)
  {
    match NumberAt(s, p)
    case None => None
    case Some(e) =>
      match SepAt(s, e, Colons)
      case None => None
      case Some(k) =>
        match NumberAt(s, k)
        case None => None
        case Some(e2) =>
          NumberShape(Atomic, s, p, SpanChars);
          NumberShape(Atomic, s, k, SpanChars);
          SepThenShaped(s, e, Colons, k, e2, SpanChars);
          ShapedJoin(s, p, e, e2, SpanChars);
          NumberShape(Atomic, s, p, VerseListChars);
          NumberShape(Atomic, s, k, VerseListChars);
          SepThenShaped(s, e, Colons, k, e2, VerseListChars);
          ShapedJoin(s, p, e, e2, VerseListChars);
          Some(e2)
  }

  // ---------------------------------------------------------------------------
  // chchRx (index.js:6)
  // ---------------------------------------------------------------------------

  /** `(?:\s*[–—-]\s*\d+)?` at `q`. */
  function ChapterRangeTail(s: string, q: nat): (r: nat)
    requires q <= |s|
    ensures q <= r <= |s|
    ensures Shaped(s, q, r, ChapterListChars)
  {
    match SepAt(s, q, Dashes)
    case None => q
    case Some(k) =>
      match NumberAt(s, k)
      case None => q
      case Some(e) =>
        NumberShape(Atomic, s, k, ChapterListChars);
        SepThenShaped(s, q, Dashes, k, e, ChapterListChars);
        e
  }

  /**
   * `(?:\s*[;,]\s*(?!bookRx)\d+(?!\s*:)(?:\s*[–—-]\s*\d+)?)*` at `q`: the
   * further items of a chapter list.  What the lookahead on a book name
   * excludes is stated by MoreChaptersStopsAtBook.
   */
  function MoreChapters(mode: Lookahead, books: seq<Book>, s: string, q: nat): (r: nat)
    requires q <= |s|
    ensures q <= r <= |s|
    ensures Shaped(s, q, r, ChapterListChars)
    decreases |s| - q
  {
    match SepAt(s, q, ListMarks)
    case None => q
    case Some(k) =>
      if BookAt(books, s, k).Some? then q
      else
        match NumberNotBeforeColon(mode, s, k)
        case None => q
        case Some(e) =>
          var t := ChapterRangeTail(s, e);
          var r := MoreChapters(mode, books, s, t);
          NumberShape(mode, s, k, ChapterListChars);
          ShapedJoin(s, k, e, t, ChapterListChars);
          ShapedJoin(s, k, t, r, ChapterListChars);
          SepThenShaped(s, q, ListMarks, k, r, ChapterListChars);
          r
  }

  /**
   * chchRx at `p`: a chapter list starts and ends with a digit and holds only
   * digits, white space, dashes, `;` and `,`.  With the corrected lookahead
   * its first number, whole, is not followed by a colon.
   */
  function ChapterListAt(mode: Lookahead, books: seq<Book>, s: string, p: nat): (r: Option<nat>)
    requires p <= |s|
    ensures r.Some? ==> p < r.value <= |s|
    ensures r.Some? && mode == Atomic ==> !ColonAhead(s, DigitsFrom(s, p))
    ensures r.Some? ==> IsDigit(s[p]) && Shaped(s, p, r.value, ChapterListChars)
  {
    match NumberNotBeforeColon(mode, s, p)
    case None => None
    case Some(e) =>
      var t := ChapterRangeTail(s, e);
      var r := MoreChapters(mode, books, s, t);
      NumberShape(mode, s, p, ChapterListChars);
      ShapedJoin(s, p, e, t, ChapterListChars);
      ShapedJoin(s, p, t, r, ChapterListChars);
      Some(r)
  }


  // ---------------------------------------------------------------------------
  // chvchvRx (index.js:7)
  // ---------------------------------------------------------------------------

  /**
   * chvchvRx at `p`: a span starts with a digit, ends with a digit or a
   * fragment letter, and holds only digits, white space, dashes, colons and
   * fragment letters.
   */
  function SpanAt(s: string, p: nat): (r: Option<nat>)
    requires p <= |s|
    ensures r.Some? ==> p < r.value <= |s|
    ensures r.Some? ==> IsDigit(s[p]) && Shaped(s, p, r.value, SpanChars)
  {
    match ChapterVerseAt(s, p)
    case None => None
    case Some(e) =>
      var f := FragmentAt(s, e);
      match SepAt(s, f, Dashes)
      case None => None
      case Some(k) =>
        match ChapterVerseAt(s, k)
        case None => None
        case Some(e2) =>
          var r := FragmentAt(s, e2);
          FragmentShape(s, p, e, SpanChars);
          FragmentShape(s, k, e2, SpanChars);
          SepThenShaped(s, f, Dashes, k, r, SpanChars);
          ShapedJoin(s, p, f, r, SpanChars);
          Some(r)
  }


  // ---------------------------------------------------------------------------
  // chvRx (index.js:8)
  // ---------------------------------------------------------------------------

  /** `(?:\s*[–—-]\s*\d+[a-f]?)?` after the first verse. */
  function FirstVerseTail(s: string, q: nat): (r: nat)
    requires q <= |s|
    ensures q <= r <= |s|
    ensures Shaped(s, q, r, VerseListChars)
  {
    match SepAt(s, q, Dashes)
    case None => q
    case Some(k) =>
      match NumberAt(s, k)
      case None => q
      case Some(e) =>
        NumberShape(Atomic, s, k, VerseListChars);
        FragmentShape(s, k, e, VerseListChars);
        SepThenShaped(s, q, Dashes, k, FragmentAt(s, e), VerseListChars);
        FragmentAt(s, e)
  }

  /** `(?:\s*[–—-]\s*\d+(?!\s*:)[a-f]?)?` after a later verse. */
  function ListedVerseTail(mode: Lookahead, s: string, q: nat): (r: nat)
    requires q <= |s|
    ensures q <= r <= |s|
    ensures Shaped(s, q, r, VerseListChars)
  {
    match SepAt(s, q, Dashes)
    case None => q
    case Some(k) =>
      match NumberNotBeforeColon(mode, s, k)
      case None => q
      case Some(e) =>
        NumberShape(mode, s, k, VerseListChars);
        FragmentShape(s, k, e, VerseListChars);
        SepThenShaped(s, q, Dashes, k, FragmentAt(s, e), VerseListChars);
        FragmentAt(s, e)
  }

  /**
   * `(?:\s*,\s*(?!bookRx)\d+(?!\s*:)[a-f]?(?:…)?)*` at `q`: the further items
   * of a verse list.  What the lookahead on a book name excludes is stated
   * by MoreVersesStopsAtBook.
   */
  function MoreVerses(mode: Lookahead, books: seq<Book>, s: string, q: nat): (r: nat)
    requires q <= |s|
    ensures q <= r <= |s|
    ensures Shaped(s, q, r, VerseListChars)
    decreases |s| - q
  {
    match SepAt(s, q, Commas)
    case None => q
    case Some(k) =>
      if BookAt(books, s, k).Some? then q
      else
        match NumberNotBeforeColon(mode, s, k)
        case None => q
        case Some(e) =>
          var f := FragmentAt(s, e);
          var t := ListedVerseTail(mode, s, f);
          var r := MoreVerses(mode, books, s, t);
          NumberShape(mode, s, k, VerseListChars);
          FragmentShape(s, k, e, VerseListChars);
          ShapedJoin(s, k, f, t, VerseListChars);
          ShapedJoin(s, k, t, r, VerseListChars);
          SepThenShaped(s, q, Commas, k, r, VerseListChars);
          r
  }

  /**
   * chvRx at `p`: a verse list starts with a digit, ends with a digit or a
   * fragment letter, and holds only digits, white space, dashes, colons,
   * commas and fragment letters.
   */
  function VerseListAt(mode: Lookahead, books: seq<Book>, s: string, p: nat): (r: Option<nat>)
    requires p <= |s|
    ensures r.Some? ==> p < r.value <= |s|
    ensures r.Some? ==> IsDigit(s[p]) && Shaped(s, p, r.value, VerseListChars)
  {
    match ChapterVerseAt(s, p)
    case None => None
    case Some(e) =>
      var f := FragmentAt(s, e);
      var t := FirstVerseTail(s, f);
      var r := MoreVerses(mode, books, s, t);
      FragmentShape(s, p, e, VerseListChars);
      ShapedJoin(s, p, f, t, VerseListChars);
      ShapedJoin(s, p, t, r, VerseListChars);
      Some(r)
  }


  // ---------------------------------------------------------------------------
  // The composite pattern and the search (index.js:10, 36)
  // ---------------------------------------------------------------------------

  /** Where group `alt` alone matches at `p`, if it does. */
  function GroupAt(mode: Lookahead, books: seq<Book>, s: string, p: nat, alt: Alternative): (r: Option<nat>)
    requires p <= |s|
    ensures r.Some? ==> p <= r.value <= |s|
  {
    match alt
    case BookName => BookAt(books, s, p)
    case ChapterList => ChapterListAt(mode, books, s, p)
    case ChapterVerseSpan => SpanAt(s, p)
    case ChapterVerseList => VerseListAt(mode, books, s, p)
  }

  /** The position of a group in the alternation of index.js:10. */
  function Rank(alt: Alternative): nat
  {
    match alt
    case BookName => 0
    case ChapterList => 1
    case ChapterVerseSpan => 2
    case ChapterVerseList => 3
  }

  /** The quantified clauses of AltAt's contract, spelled out group by group. */
  lemma GroupCases(mode: Lookahead, books: seq<Book>, s: string, p: nat)
    requires p <= |s|
    ensures forall alt :: Rank(alt) < Rank(BookName) ==> GroupAt(mode, books, s, p, alt).None?
    ensures GroupAt(mode, books, s, p, BookName).None?
      ==> (forall alt :: Rank(alt) < Rank(ChapterList) ==> GroupAt(mode, books, s, p, alt).None?)
    ensures (GroupAt(mode, books, s, p, BookName).None? && GroupAt(mode, books, s, p, ChapterList).None?)
      ==> (forall alt :: Rank(alt) < Rank(ChapterVerseSpan) ==> GroupAt(mode, books, s, p, alt).None?)
    ensures (GroupAt(mode, books, s, p, BookName).None? && GroupAt(mode, books, s, p, ChapterList).None?
             && GroupAt(mode, books, s, p, ChapterVerseSpan).None?)
      ==> (forall alt :: Rank(alt) < Rank(ChapterVerseList) ==> GroupAt(mode, books, s, p, alt).None?)
    ensures (GroupAt(mode, books, s, p, BookName).None? && GroupAt(mode, books, s, p, ChapterList).None?
             && GroupAt(mode, books, s, p, ChapterVerseSpan).None? && GroupAt(mode, books, s, p, ChapterVerseList).None?)
      ==> (forall alt :: GroupAt(mode, books, s, p, alt).None?)
  {
    forall alt: Alternative
      ensures Rank(alt) < Rank(ChapterList) ==> alt == BookName
      ensures Rank(alt) < Rank(ChapterVerseSpan) ==> alt == BookName || alt == ChapterList
      ensures Rank(alt) < Rank(ChapterVerseList) ==> alt != ChapterVerseList
      ensures alt == BookName || alt == ChapterList || alt == ChapterVerseSpan || alt == ChapterVerseList
    {
    }
  }

  /**
   * The four groups tried in order at position `p`: the match is that of the
   * first group that matches there, and there is none iff no group matches.
   */
  function AltAt(mode: Lookahead, books: seq<Book>, s: string, p: nat): (r: Option<Match>)
    requires p <= |s|
    ensures r.Some? ==> r.value.start == p && p <= r.value.end <= |s|
    ensures r.Some? ==> GroupAt(mode, books, s, p, r.value.alt) == Some(r.value.end)
    ensures r.Some? ==> forall alt :: Rank(alt) < Rank(r.value.alt) ==> GroupAt(mode, books, s, p, alt).None?
    ensures r.None? <==> forall alt :: GroupAt(mode, books, s, p, alt).None?
  {
    var book := GroupAt(mode, books, s, p, BookName);
    var chapters := GroupAt(mode, books, s, p, ChapterList);
    var span := GroupAt(mode, books, s, p, ChapterVerseSpan);
    var verses := GroupAt(mode, books, s, p, ChapterVerseList);
    GroupCases(mode, books, s, p);
    if book.Some? then Some(Match(BookName, p, book.value))
    else if chapters.Some? then Some(Match(ChapterList, p, chapters.value))
    else if span.Some? then Some(Match(ChapterVerseSpan, p, span.value))
    else if verses.Some? then Some(Match(ChapterVerseList, p, verses.value))
    else None
  }

  /** With no empty alias, every match consumes at least one character. */
  lemma AltAtProgress(mode: Lookahead, books: seq<Book>, s: string, p: nat)
    requires ValidRegistry(books) && p <= |s|
    ensures AltAt(mode, books, s, p).Some? ==> p < AltAt(mode, books, s, p).value.end
  {
    var n := LongestAliasAt(Aliases(books), s, p);
    if n.Some? {
      var a :| a in Aliases(books) && AliasAt(s, p, a) && |a| == n.value;
      ValidAliasesNonEmpty(books, a);
    }
  }

  /**
   * `rx.exec(input)` with `lastIndex == from`: the match at the leftmost
   * position at or after `from` where some group matches.
   */
  function Exec(mode: Lookahead, books: seq<Book>, s: string, from: nat): (r: Option<Match>)
    requires from <= |s|
    ensures r.Some? ==> from <= r.value.start < |s| && AltAt(mode, books, s, r.value.start) == r
    ensures r.Some? ==> forall q :: from <= q < r.value.start ==> AltAt(mode, books, s, q).None?
    ensures r.None? ==> forall q :: from <= q < |s| ==> AltAt(mode, books, s, q).None?
    decreases |s| - from
  {
    if from == |s| then None
    else
      var here := AltAt(mode, books, s, from);
      if here.Some? then here else Exec(mode, books, s, from + 1)
  }

  /**
   * The matches the parse loop visits, `while (rx.lastIndex < len && (match =
   * rx.exec(input)))`, each resuming where the previous one ended.
   */
  function Scan(mode: Lookahead, books: seq<Book>, s: string, cursor: nat): (r: seq<Token>)
    requires ValidRegistry(books) && cursor <= |s|
    ensures r == [] <==> forall q :: cursor <= q < |s| ==> AltAt(mode, books, s, q).None?
    ensures forall i :: 0 <= i < |r| ==> r[i].text != []
    ensures |r| <= |s| - cursor
    decreases |s| - cursor
  {
    if cursor == |s| then []
    else
      match Exec(mode, books, s, cursor)
      case None => []
      case Some(m) =>
        AltAtProgress(mode, books, s, m.start);
        [Token(m.alt, s[m.start..m.end])] + Scan(mode, books, s, m.end)
  }

  // ---------------------------------------------------------------------------
  // Lists stop before a book name: the `(?!bookRx)` of index.js:6 and 8
  // ---------------------------------------------------------------------------

  /** No separator of the class starts inside `s[a..b]`. */
  predicate NoSepIn(s: string, a: nat, b: nat, cls: MarkClass)
    requires a <= b <= |s|
  {
    forall j :: a <= j < b ==> SepAt(s, j, cls).None?
  }

  /** Every separator of the class that starts inside `s[a..b]` is followed by no book name. */
  predicate NoBookAfterSep(books: seq<Book>, s: string, a: nat, b: nat, cls: MarkClass)
    requires a <= b <= |s|
  {
    forall j :: a <= j < b ==> (SepAt(s, j, cls).Some? ==> BookAt(books, s, SepAt(s, j, cls).value).None?)
  }

  lemma NoBookJoin(books: seq<Book>, s: string, a: nat, b: nat, c: nat, cls: MarkClass)
    requires a <= b <= c <= |s|
    requires NoBookAfterSep(books, s, a, b, cls) && NoSepIn(s, b, c, cls)
    ensures NoBookAfterSep(books, s, a, c, cls)
  {
  }

  lemma NoBookJoinAfter(books: seq<Book>, s: string, a: nat, b: nat, c: nat, cls: MarkClass)
    requires a <= b <= c <= |s|
    requires NoBookAfterSep(books, s, a, b, cls) && NoBookAfterSep(books, s, b, c, cls)
    ensures NoBookAfterSep(books, s, a, c, cls)
  {
  }

  lemma NoSepJoin(s: string, a: nat, b: nat, c: nat, cls: MarkClass)
    requires a <= b <= c <= |s| && NoSepIn(s, a, b, cls) && NoSepIn(s, b, c, cls)
    ensures NoSepIn(s, a, c, cls)
  {
  }

  /** Inside a run of white space every position sees the same end of the run. */
  lemma SpacesFromInside(s: string, p: nat, j: nat)
    requires p <= |s| && p <= j <= SpacesFrom(s, p)
    ensures SpacesFrom(s, j) == SpacesFrom(s, p)
  {
    SpacesFromExact(s, j, SpacesFrom(s, p));
  }

  /**
   * A position inside a separator `\s*X\s*` sees, for any class, either no
   * separator or the one seen from its start, provided what follows it is
   * not a mark of that class.
   */
  lemma SepWithin(s: string, q: nat, sep: MarkClass, k: nat, cls: MarkClass)
    requires q <= |s| && SepAt(s, q, sep) == Some(k)
    requires k < |s| && !InClass(cls, s[k])
    ensures forall j :: q <= j < k ==> SepAt(s, j, cls).None? || SepAt(s, j, cls) == SepAt(s, q, cls)
  {
    var m := SpacesFrom(s, q);
    forall j | q <= j < k
      ensures SepAt(s, j, cls).None? || SepAt(s, j, cls) == SepAt(s, q, cls)
    {
      if j <= m {
        SpacesFromInside(s, q, j);
      } else {
        SpacesFromInside(s, m + 1, j);
      }
    }
  }

  /** No separator starts at a digit or a fragment letter. */
  lemma PlainNoSep(s: string, a: nat, b: nat, cls: MarkClass)
    requires a <= b <= |s|
    requires forall i :: a <= i < b ==> IsDigit(s[i]) || IsFragmentLetter(s[i])
    ensures NoSepIn(s, a, b, cls)
  {
    forall j | a <= j < b
      ensures SepAt(s, j, cls).None?
    {
      assert SpacesFrom(s, j) == j;
    }
  }

  /** A number, and a fragment letter after it, hold no separator. */
  lemma NumberNoSep(mode: Lookahead, s: string, p: nat, cls: MarkClass)
    requires p <= |s|
    ensures NumberAt(s, p).Some? ==> NoSepIn(s, p, FragmentAt(s, NumberAt(s, p).value), cls)
    ensures NumberNotBeforeColon(mode, s, p).Some? ==>
      NoSepIn(s, p, FragmentAt(s, NumberNotBeforeColon(mode, s, p).value), cls)
  {
    if NumberAt(s, p).Some? {
      PlainNoSep(s, p, FragmentAt(s, NumberAt(s, p).value), cls);
    }
    if NumberNotBeforeColon(mode, s, p).Some? {
      PlainNoSep(s, p, FragmentAt(s, NumberNotBeforeColon(mode, s, p).value), cls);
    }
  }

  /** A dash separator holds no list separator. */
  lemma DashNoSep(s: string, q: nat, k: nat, cls: MarkClass)
    requires q <= |s| && SepAt(s, q, Dashes) == Some(k)
    requires k < |s| && IsDigit(s[k]) && (cls == ListMarks || cls == Commas)
    ensures NoSepIn(s, q, k, cls)
  {
    SepWithin(s, q, Dashes, k, cls);
  }

  lemma ChapterRangeTailNoSep(s: string, e: nat)
    requires e <= |s|
    ensures NoSepIn(s, e, ChapterRangeTail(s, e), ListMarks)
  {
    match SepAt(s, e, Dashes)
    case None =>
    case Some(k) =>
      if NumberAt(s, k).Some? {
        var n := NumberAt(s, k).value;
        DashNoSep(s, e, k, ListMarks);
        NumberNoSep(Atomic, s, k, ListMarks);
        PlainNoSep(s, k, n, ListMarks);
        NoSepJoin(s, e, k, n, ListMarks);
      }
  }

  lemma ListedVerseTailNoSep(mode: Lookahead, s: string, q: nat)
    requires q <= |s|
    ensures NoSepIn(s, q, ListedVerseTail(mode, s, q), Commas)
  {
    match SepAt(s, q, Dashes)
    case None =>
    case Some(k) =>
      if NumberNotBeforeColon(mode, s, k).Some? {
        DashNoSep(s, q, k, Commas);
        NumberNoSep(mode, s, k, Commas);
        NoSepJoin(s, q, k, ListedVerseTail(mode, s, q), Commas);
      }
  }

  /**
   * The `(?!bookRx)` lookahead of the chapter list (index.js:6): the list
   * stops at a `[;,]` separator that is followed by a book name, and no
   * separator it consumes is followed by one, so a chapter list never runs
   * into the next book ("Genesis 1; Exodus 2").
   */
  lemma {:induction false} MoreChaptersStopsAtBook(mode: Lookahead, books: seq<Book>, s: string, q: nat)
    requires q <= |s|
    ensures SepAt(s, q, ListMarks).Some? && BookAt(books, s, SepAt(s, q, ListMarks).value).Some?
      ==> MoreChapters(mode, books, s, q) == q
    ensures NoBookAfterSep(books, s, q, MoreChapters(mode, books, s, q), ListMarks)
    decreases |s| - q
  {
    var cls := ListMarks;
    match SepAt(s, q, cls)
    case None =>
      assert MoreChapters(mode, books, s, q) == q;
    case Some(k) =>
      if BookAt(books, s, k).Some? {
        assert MoreChapters(mode, books, s, q) == q;
      } else {
        match NumberNotBeforeColon(mode, s, k)
        case None =>
          assert MoreChapters(mode, books, s, q) == q;
        case Some(e) =>
          var t := ChapterRangeTail(s, e);
          var r := MoreChapters(mode, books, s, t);
          assert MoreChapters(mode, books, s, q) == r;
          NumberShape(mode, s, k, ChapterListChars);
          SepWithin(s, q, cls, k, cls);
          assert NoBookAfterSep(books, s, q, k, cls);
          PlainNoSep(s, k, e, cls);
          ChapterRangeTailNoSep(s, e);
          NoSepJoin(s, k, e, t, cls);
          NoBookJoin(books, s, q, k, t, cls);
          MoreChaptersStopsAtBook(mode, books, s, t);
          NoBookJoinAfter(books, s, q, t, r, cls);
      }
  }

  /**
   * The same lookahead in the verse list (index.js:8): the list stops at a
   * `,` that is followed by a book name, and no `,` it consumes is followed
   * by one (with `1 john` an alias, "John 3:16, 1 John 4:8" leaves "1 John"
   * to the book group).
   */
  lemma {:induction false} MoreVersesStopsAtBook(mode: Lookahead, books: seq<Book>, s: string, q: nat)
    requires q <= |s|
    ensures SepAt(s, q, Commas).Some? && BookAt(books, s, SepAt(s, q, Commas).value).Some?
      ==> MoreVerses(mode, books, s, q) == q
    ensures NoBookAfterSep(books, s, q, MoreVerses(mode, books, s, q), Commas)
    decreases |s| - q
  {
    var cls := Commas;
    match SepAt(s, q, cls)
    case None =>
      assert MoreVerses(mode, books, s, q) == q;
    case Some(k) =>
      if BookAt(books, s, k).Some? {
        assert MoreVerses(mode, books, s, q) == q;
      } else {
        match NumberNotBeforeColon(mode, s, k)
        case None =>
          assert MoreVerses(mode, books, s, q) == q;
        case Some(e) =>
          var f := FragmentAt(s, e);
          var t := ListedVerseTail(mode, s, f);
          var r := MoreVerses(mode, books, s, t);
          assert MoreVerses(mode, books, s, q) == r;
          NumberShape(mode, s, k, VerseListChars);
          SepWithin(s, q, cls, k, cls);
          assert NoBookAfterSep(books, s, q, k, cls);
          NumberNoSep(mode, s, k, cls);
          ListedVerseTailNoSep(mode, s, f);
          NoSepJoin(s, k, f, t, cls);
          NoBookJoin(books, s, q, k, t, cls);
          MoreVersesStopsAtBook(mode, books, s, t);
          NoBookJoinAfter(books, s, q, t, r, cls);
      }
  }

  /** In "Genesis 1; Exodus 2" the chapter list after "Genesis" is "1" alone. */
  lemma ChapterListStopsBeforeExodus()
    ensures ChapterListAt(Atomic, [Book("Genesis", ["genesis"], false), Book("Exodus", ["exodus"], false)],
                          "Genesis 1; Exodus 2", 8) == Some(9)
  {
    var books := [Book("Genesis", ["genesis"], false), Book("Exodus", ["exodus"], false)];
    var s := "Genesis 1; Exodus 2";
    DigitsFromExact(s, 8, 9);
    assert SpacesFrom(s, 9) == 9;
    assert NumberNotBeforeColon(Atomic, s, 8) == Some(9);
    assert ChapterRangeTail(s, 9) == 9;
    SpacesFromExact(s, 10, 11);
    assert SepAt(s, 9, ListMarks) == Some(11);
    ExodusNamedAt(books, s);
    MoreChaptersStopsAtBook(Atomic, books, s, 9);
  }

  lemma ExodusNamedAt(books: seq<Book>, s: string)
    requires books == [Book("Genesis", ["genesis"], false), Book("Exodus", ["exodus"], false)]
    requires s == "Genesis 1; Exodus 2"
    ensures BookAt(books, s, 11).Some?
  {
    assert "exodus" in books[1].aka;
    assert "exodus" in Aliases(books);
    assert s[11..17] == "Exodus";
    assert EqualsIgnoringCase(s[11..17], "exodus");
    assert AliasAt(s, 11, "exodus");
  }

  // ---------------------------------------------------------------------------
  // Numbers are not cut: the corrected lookahead against the one as written
  // ---------------------------------------------------------------------------

  /** Position `e` does not fall between two digits of one number. */
  predicate NotInsideNumber(s: string, e: nat)
    requires e <= |s|
  {
    !(0 < e < |s| && IsDigit(s[e - 1]) && IsDigit(s[e]))
  }

  lemma AtomicNumberEnds(s: string, p: nat)
    requires p <= |s|
    ensures NumberAt(s, p).Some? ==> NotInsideNumber(s, NumberAt(s, p).value)
    ensures NumberNotBeforeColon(Atomic, s, p).Some? ==> NotInsideNumber(s, NumberNotBeforeColon(Atomic, s, p).value)
  {
  }

  lemma FragmentEnds(s: string, q: nat)
    requires q <= |s| && NotInsideNumber(s, q)
    ensures NotInsideNumber(s, FragmentAt(s, q))
  {
  }

  lemma {:induction false} AtomicMoreChaptersEnds(books: seq<Book>, s: string, q: nat)
    requires q <= |s| && NotInsideNumber(s, q)
    ensures NotInsideNumber(s, MoreChapters(Atomic, books, s, q))
    decreases |s| - q
  {
    match SepAt(s, q, ListMarks)
    case None =>
    case Some(k) =>
      if BookAt(books, s, k).None? {
        match NumberNotBeforeColon(Atomic, s, k)
        case None =>
        case Some(e) =>
          AtomicNumberEnds(s, k);
          var t := ChapterRangeTail(s, e);
          assert NotInsideNumber(s, t) by {
            match SepAt(s, e, Dashes)
            case None =>
            case Some(k2) => AtomicNumberEnds(s, k2);
          }
          AtomicMoreChaptersEnds(books, s, t);
      }
  }

  lemma {:induction false} AtomicMoreVersesEnds(books: seq<Book>, s: string, q: nat)
    requires q <= |s| && NotInsideNumber(s, q)
    ensures NotInsideNumber(s, MoreVerses(Atomic, books, s, q))
    decreases |s| - q
  {
    match SepAt(s, q, Commas)
    case None =>
    case Some(k) =>
      if BookAt(books, s, k).None? {
        match NumberNotBeforeColon(Atomic, s, k)
        case None =>
        case Some(e) =>
          AtomicNumberEnds(s, k);
          var f := FragmentAt(s, e);
          FragmentEnds(s, e);
          AtomicListedVerseTailEnds(s, f);
          AtomicMoreVersesEnds(books, s, ListedVerseTail(Atomic, s, f));
      }
  }

  lemma AtomicListedVerseTailEnds(s: string, f: nat)
    requires f <= |s| && NotInsideNumber(s, f)
    ensures NotInsideNumber(s, ListedVerseTail(Atomic, s, f))
  {
    match SepAt(s, f, Dashes)
    case None =>
    case Some(k) =>
      AtomicNumberEnds(s, k);
      if NumberNotBeforeColon(Atomic, s, k).Some? {
        FragmentEnds(s, NumberNotBeforeColon(Atomic, s, k).value);
      }
  }

  lemma BookEnds(books: seq<Book>, s: string, p: nat)
    requires p <= |s|
    ensures BookAt(books, s, p).Some? ==> NotInsideNumber(s, BookAt(books, s, p).value)
  {
    var aliases := Aliases(books);
    var n := LongestAliasAt(aliases, s, p);
    if n.Some? {
      var a :| a in aliases && AliasAt(s, p, a) && |a| == n.value;
      BoundaryKeepsNumbersWhole(s, p + |a|);
    }
  }

  lemma BoundaryKeepsNumbersWhole(s: string, e: nat)
    requires e <= |s| && WordBoundary(s, e)
    ensures NotInsideNumber(s, e)
  {
  }

  lemma AtomicChapterListEnds(books: seq<Book>, s: string, p: nat)
    requires p <= |s|
    ensures ChapterListAt(Atomic, books, s, p).Some? ==> NotInsideNumber(s, ChapterListAt(Atomic, books, s, p).value)
  {
    if ChapterListAt(Atomic, books, s, p).Some? {
      var e := NumberNotBeforeColon(Atomic, s, p).value;
      AtomicNumberEnds(s, p);
      var t := ChapterRangeTail(s, e);
      assert NotInsideNumber(s, t) by {
        match SepAt(s, e, Dashes)
        case None =>
        case Some(k2) => AtomicNumberEnds(s, k2);
      }
      AtomicMoreChaptersEnds(books, s, t);
    }
  }

  lemma ChapterVerseEnds(s: string, p: nat)
    requires p <= |s|
    ensures ChapterVerseAt(s, p).Some? ==> NotInsideNumber(s, ChapterVerseAt(s, p).value)
  {
    if ChapterVerseAt(s, p).Some? {
      var k := SepAt(s, NumberAt(s, p).value, Colons).value;
      AtomicNumberEnds(s, k);
    }
  }

  lemma SpanEnds(s: string, p: nat)
    requires p <= |s|
    ensures SpanAt(s, p).Some? ==> NotInsideNumber(s, SpanAt(s, p).value)
  {
    if SpanAt(s, p).Some? {
      var e := ChapterVerseAt(s, p).value;
      var k := SepAt(s, FragmentAt(s, e), Dashes).value;
      ChapterVerseEnds(s, k);
      FragmentEnds(s, ChapterVerseAt(s, k).value);
    }
  }

  lemma AtomicVerseListEnds(books: seq<Book>, s: string, p: nat)
    requires p <= |s|
    ensures VerseListAt(Atomic, books, s, p).Some? ==> NotInsideNumber(s, VerseListAt(Atomic, books, s, p).value)
  {
    if VerseListAt(Atomic, books, s, p).Some? {
      var e := ChapterVerseAt(s, p).value;
      ChapterVerseEnds(s, p);
      FragmentEnds(s, e);
      var f := FragmentAt(s, e);
      var t := FirstVerseTail(s, f);
      assert NotInsideNumber(s, t) by {
        match SepAt(s, f, Dashes)
        case None =>
        case Some(k2) =>
          AtomicNumberEnds(s, k2);
          if NumberAt(s, k2).Some? { FragmentEnds(s, NumberAt(s, k2).value); }
      }
      AtomicMoreVersesEnds(books, s, t);
    }
  }

  /** With the corrected lookahead, no match of any group ends inside a number. */
  lemma AtomicMatchEnds(books: seq<Book>, s: string, p: nat)
    requires p <= |s|
    ensures AltAt(Atomic, books, s, p).Some? ==> NotInsideNumber(s, AltAt(Atomic, books, s, p).value.end)
  {
    var r := AltAt(Atomic, books, s, p);
    if r.Some? {
      AtomicGroupEnds(books, s, p, r.value.alt);
    }
  }

  /** AtomicMatchEnds for one group. */
  lemma AtomicGroupEnds(books: seq<Book>, s: string, p: nat, alt: Alternative)
    requires p <= |s|
    ensures GroupAt(Atomic, books, s, p, alt).Some? ==> NotInsideNumber(s, GroupAt(Atomic, books, s, p, alt).value)
  {
    match alt
    case BookName => BookEnds(books, s, p);
    case ChapterList => AtomicChapterListEnds(books, s, p);
    case ChapterVerseSpan => SpanEnds(s, p);
    case ChapterVerseList => AtomicVerseListEnds(books, s, p);
  }

  /**
   * Inside a run of digits no group matches that would not already have
   * matched one digit earlier: the book group needs a word boundary, and every
   * other group reads the same digit run to the same end.
   */
  lemma GroupStartsOutsideNumber(mode: Lookahead, books: seq<Book>, s: string, p: nat, alt: Alternative)
    requires 0 < p < |s|
    ensures GroupAt(mode, books, s, p, alt).Some? && GroupAt(mode, books, s, p - 1, alt).None?
        ==> NotInsideNumber(s, p)
  {
    var q := p - 1;
    if IsDigit(s[q]) && IsDigit(s[p]) {
      assert DigitsFrom(s, q) == DigitsFrom(s, p);
      match alt
      case BookName =>
        assert !WordBoundary(s, p);
        assert BookAt(books, s, p).None?;
      case ChapterList =>
        assert NumberNotBeforeColon(mode, s, p).Some? ==> NumberNotBeforeColon(mode, s, q).Some?;
      case ChapterVerseSpan =>
        assert ChapterVerseAt(s, p) == ChapterVerseAt(s, q);
      case ChapterVerseList =>
        assert ChapterVerseAt(s, p) == ChapterVerseAt(s, q);
    }
  }

  /** A match that did not already match one position earlier does not start inside a number. */
  lemma MatchStartsOutsideNumber(mode: Lookahead, books: seq<Book>, s: string, p: nat)
    requires 0 < p < |s|
    requires AltAt(mode, books, s, p).Some? && AltAt(mode, books, s, p - 1).None?
    ensures NotInsideNumber(s, p)
  {
    GroupStartsOutsideNumber(mode, books, s, p, AltAt(mode, books, s, p).value.alt);
  }

  /**
   * The property the chapter-list lookahead is there for, with the corrected
   * lookahead: resuming where a previous match ended, the next match neither
   * starts nor ends inside a number.
   */
  lemma AtomicExecKeepsNumbersWhole(books: seq<Book>, s: string, from: nat)
    requires from <= |s| && NotInsideNumber(s, from)
    ensures Exec(Atomic, books, s, from).Some? ==>
      NotInsideNumber(s, Exec(Atomic, books, s, from).value.start)
      && NotInsideNumber(s, Exec(Atomic, books, s, from).value.end)
  {
    var r := Exec(Atomic, books, s, from);
    if r.Some? {
      var m := r.value;
      AtomicMatchEnds(books, s, m.start);
      if from < m.start {
        assert AltAt(Atomic, books, s, m.start - 1).None?;
        MatchStartsOutsideNumber(Atomic, books, s, m.start);
      }
    }
  }

  /**
   * As written, `\d+(?!\s*:)` backtracks: in "Psalm 119:105" the chapter-list
   * group matches "11", which ends inside the number 119.
   */
  lemma BacktrackingCutsChapterNumber()
    ensures Exec(Backtracking, [Book("Psalms", ["psalm"], false)], "Psalm 119:105", 5)
         == Some(Match(ChapterList, 6, 8))
    ensures !NotInsideNumber("Psalm 119:105", 8)
  {
    PsalmNoMatchAtSpace();
    PsalmBacktrackingChapter();
  }

  /** Nothing of the pattern starts at the space after the book name. */
  lemma PsalmNoMatchAtSpace()
    ensures AltAt(Backtracking, [Book("Psalms", ["psalm"], false)], "Psalm 119:105", 5) == None
  {
    var books := [Book("Psalms", ["psalm"], false)];
    var s := "Psalm 119:105";
    assert Aliases(books) == ["psalm"];
    assert s[5] == ' ' && s[5..10][0] == ' ';
    assert !AliasAt(s, 5, "psalm");
    assert forall a :: a in ["psalm"] ==> !AliasAt(s, 5, a);
    assert BookAt(books, s, 5) == None;
    assert DigitsFrom(s, 5) == 5;
  }

  /** At the digits, backtracking gives up the last digit and matches "11" as a chapter. */
  lemma PsalmBacktrackingChapter()
    ensures AltAt(Backtracking, [Book("Psalms", ["psalm"], false)], "Psalm 119:105", 6) == Some(Match(ChapterList, 6, 8))
  {
    PsalmNoBookAtDigits();
    PsalmBacktrackingChapterList();
  }

  lemma PsalmNoBookAtDigits()
    ensures BookAt([Book("Psalms", ["psalm"], false)], "Psalm 119:105", 6) == None
  {
    var books := [Book("Psalms", ["psalm"], false)];
    var s := "Psalm 119:105";
    assert Aliases(books) == ["psalm"];
    assert s[6] == '1' && s[6..11][0] == '1';
    assert !AliasAt(s, 6, "psalm");
    assert forall a :: a in ["psalm"] ==> !AliasAt(s, 6, a);
  }

  lemma PsalmBacktrackingChapterList()
    ensures ChapterListAt(Backtracking, [Book("Psalms", ["psalm"], false)], "Psalm 119:105", 6) == Some(8)
  {
    var books := [Book("Psalms", ["psalm"], false)];
    var s := "Psalm 119:105";
    PsalmBacktrackingNumber();
    assert SpacesFrom(s, 8) == 8;
    assert ChapterRangeTail(s, 8) == 8;
    assert MoreChapters(Backtracking, books, s, 8) == 8;
  }

  /** `\d+(?!\s*:)` with backtracking: "119" is followed by a colon, so it settles on "11". */
  lemma PsalmBacktrackingNumber()
    ensures NumberNotBeforeColon(Backtracking, "Psalm 119:105", 6) == Some(8)
  {
    var s := "Psalm 119:105";
    DigitsFromExact(s, 6, 9);
    assert SpacesFrom(s, 9) == 9;
  }
}
