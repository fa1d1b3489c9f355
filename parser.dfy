/**
 * parseScripture (index.js:28-85): collapse whitespace, run the composite
 * pattern over the text, keep the current book, and turn every chapter or
 * verse match into citation records in text order.
 */
module Parser {
  import opened Text
  import opened Books
  import opened RangeCodec
  import opened Scanner
  import opened Citations

  // ---------------------------------------------------------------------------
  // The string splits the interpretation of a match uses
  // ---------------------------------------------------------------------------

  /** The leftmost separator `\s*[X]\s*` at or after `q`: where it starts and ends. */
  function FirstSep(s: string, cls: MarkClass, q: nat): (r: Option<(nat, nat)>)
    requires q <= |s|
    ensures r.Some? ==> q <= r.value.0 < r.value.1 <= |s| && SepAt(s, r.value.0, cls) == Some(r.value.1)
    ensures r.Some? ==> forall i :: q <= i < r.value.0 ==> SepAt(s, i, cls).None?
    ensures r.None? ==> forall i :: q <= i <= |s| ==> SepAt(s, i, cls).None?
    decreases |s| - q
  {
    if q == |s| then None
    else
      var here := SepAt(s, q, cls);
      if here.Some? then Some((q, here.value)) else FirstSep(s, cls, q + 1)
  }

  // `s.split(/\s*[X]\s*/)`
  function SplitAround(s: string, cls: MarkClass): (r: seq<string>)
    ensures |r| >= 1
    decreases |s|
  {
    match FirstSep(s, cls, 0)
    case None => [s]
    case Some((q, e)) => [s[..q]] + SplitAround(s[e..], cls)
  }

  /** The end of the run of non-digits that starts at `q`. */
  function NonDigitsFrom(s: string, q: nat): (e: nat)
    requires q <= |s|
    ensures q <= e <= |s|
    ensures forall i :: q <= i < e ==> !IsDigit(s[i])
    ensures e == |s| || IsDigit(s[e])
    decreases |s| - q
  {
    if q < |s| && !IsDigit(s[q]) then NonDigitsFrom(s, q + 1) else q
  }

  /** `s.split(/\D+/)` */
  function SplitNonDigits(s: string): (r: seq<string>)
    ensures |r| >= 1
    decreases |s|
  {
    var q := DigitsFrom(s, 0);
    if q == |s| then [s] else [s[..q]] + SplitNonDigits(s[NonDigitsFrom(s, q)..])
  }

  /** The first position `i >= q` that follows a digit and precedes a non-digit. */
  function DigitEndFrom(s: string, q: nat): (i: nat)
    requires 1 <= q <= |s|
    ensures q <= i <= |s|
    ensures i < |s| ==> IsDigit(s[i - 1]) && !IsDigit(s[i])
    ensures forall j :: q <= j < i ==> !(IsDigit(s[j - 1]) && !IsDigit(s[j]))
    decreases |s| - q
  {
    if q == |s| || (IsDigit(s[q - 1]) && !IsDigit(s[q])) then q else DigitEndFrom(s, q + 1)
  }

  /** `s.split(/(?<=\d)(?!\d)/)`: the digits of a verse apart from its fragment letter. */
  function SplitAfterDigits(s: string): (r: seq<string>)
    ensures |r| >= 1
    decreases |s|
  {
    if |s| == 0 then [s]
    else
      var i := DigitEndFrom(s, 1);
      if i == |s| then [s] else [s[..i]] + SplitAfterDigits(s[i..])
  }

  /** `xs[i] || ''` */
  function PieceOr(xs: seq<string>, i: nat): string
  {
    if i < |xs| then xs[i] else ""
  }

  /** `ch_ch.match(/\d+\s*[–—-]\s*\d+|\d+/g)`: the items of a chapter list. */
  function ChapterItems(s: string): seq<string>
    decreases |s|
  {
    if s == [] then []
    else if !IsDigit(s[0]) then ChapterItems(s[1..])
    else
      var e := ChapterRangeTail(s, DigitsFrom(s, 0));
      [s[..e]] + ChapterItems(s[e..])
  }

  // ---------------------------------------------------------------------------
  // Citations built from one match (index.js:47-81)
  // ---------------------------------------------------------------------------

  /**
   * `items.forEach((x) => parts.push(f(x)))`: `f` of each item, in order,
   * built up one push at a time.
   */
  function Map<A, B>(f: A --> B, xs: seq<A>): (r: seq<B>)
    requires forall i :: 0 <= i < |xs| ==> f.requires(xs[i])
    ensures |r| == |xs|
    ensures forall i :: 0 <= i < |xs| ==> r[i] == f(xs[i])
    decreases |xs|
  {
    if xs == [] then []
    else
      var n := |xs| - 1;
      var init := xs[..n];
      assert forall i :: 0 <= i < n ==> init[i] == xs[i];
      Map(f, init) + [f(xs[n])]
  }

  /**
   * One chapter-list item from `first` to `last`.  In a one-chapter book it
   * is a verse range of chapter 1; otherwise a chapter range whose packed
   * range runs from verse 0 of the first chapter to verse 255 of the last.
   */
  function ChapterItemCitation(books: seq<Book>, bookId: nat, first: nat, last: nat): (c: Citation)
    requires bookId < |books|
    ensures c.book == books[bookId].name
    ensures c.kind == (if books[bookId].oneChapter then VerseRange else ChapterRange)
  {
    var b := books[bookId];
    if b.oneChapter then
      Citation(VerseRange, b.name, Endpoint(1, Verse(first), ""), Endpoint(1, Verse(last), ""),
               (RangeFormat(books, ById(bookId), 1, first), RangeFormat(books, ById(bookId), 1, last)))
    else
      Citation(ChapterRange, b.name, Endpoint(first, NoVerse, ""), Endpoint(last, NoVerse, ""),
               (RangeFormat(books, ById(bookId), first, 0), RangeFormat(books, ById(bookId), last, 255)))
  }

  /** An item's first and last numbers: `p.split(/\D+/).map(parseInt)`, first and last entries. */
  function ItemBounds(item: string): (nat, nat)
  {
    var chs := SplitNonDigits(item);
    (ParseInt(chs[0]), ParseInt(chs[|chs| - 1]))
  }

  /** The citation of one chapter item. */
  function ItemCitation(books: seq<Book>, bookId: nat, item: string): Citation
    requires bookId < |books|
  {
    var bounds := ItemBounds(item);
    ChapterItemCitation(books, bookId, bounds.0, bounds.1)
  }

  /** `item => citation of item`, for one book. */
  function ChapterItemFn(books: seq<Book>, bookId: nat): string --> Citation
  {
    item requires bookId < |books| => ItemCitation(books, bookId, item)
  }

  /** The citations of a list of chapter items, one per item, in order. */
  function ChapterItemsCitations(books: seq<Book>, bookId: nat, items: seq<string>): seq<Citation>
    requires bookId < |books|
  {
    Map(ChapterItemFn(books, bookId), items)
  }

  /** The endpoint pieces of one side of a span: `[cv[0], ...cv[1].split(/(?<=\d)(?!\d)/)]`. */
  function SpanSide(side: string): (r: seq<string>)
    ensures |r| >= 2
  {
    var cv := SplitAround(side, Colons);
    [cv[0]] + SplitAfterDigits(PieceOr(cv, 1))
  }

  function SpanEndpoint(pieces: seq<string>): Endpoint
    requires |pieces| >= 2
  {
    Endpoint(ParseInt(pieces[0]), Verse(ParseInt(pieces[1])), PieceOr(pieces, 2))
  }

  /** A `ch:v-ch:v` match: one 'cv-cv' citation. */
  function SpanCitation(books: seq<Book>, bookId: nat, text: string): (c: Citation)
    requires bookId < |books|
    ensures c.book == books[bookId].name && c.kind == ChapterVerseRange
  {
    var sides := SplitAround(text, Dashes);
    var from := SpanSide(sides[0]);
    var to := SpanSide(PieceOr(sides, 1));
    Citation(ChapterVerseRange, books[bookId].name, SpanEndpoint(from), SpanEndpoint(to),
             (RangeFormat(books, ById(bookId), ParseInt(from[0]), ParseInt(from[1])),
              RangeFormat(books, ById(bookId), ParseInt(to[0]), ParseInt(to[1]))))
  }

  /** One item of a verse list (index.js:73-79): `v1` or `v1-v2`, fragments kept apart. */
  function VerseItemCitation(books: seq<Book>, bookId: nat, chapter: nat, item: string): (c: Citation)
    requires bookId < |books|
    ensures c.book == books[bookId].name && c.kind == VerseRange
    ensures c.from.chapter == chapter && c.to.chapter == chapter
  {
    var sides := SplitAround(item, Dashes);
    var v1 := SplitAfterDigits(sides[0]);
    var v2 := if |sides| >= 2 then SplitAfterDigits(sides[1]) else v1;
    Citation(VerseRange, books[bookId].name,
             Endpoint(chapter, Verse(ParseInt(v1[0])), PieceOr(v1, 1)),
             Endpoint(chapter, Verse(ParseInt(v2[0])), PieceOr(v2, 1)),
             (RangeFormat(books, ById(bookId), chapter, ParseInt(v1[0])),
              RangeFormat(books, ById(bookId), chapter, ParseInt(v2[0]))))
  }

  /** `v => citation of v`, for one book and chapter. */
  function VerseItemFn(books: seq<Book>, bookId: nat, chapter: nat): string --> Citation
  {
    item requires bookId < |books| => VerseItemCitation(books, bookId, chapter, item)
  }

  /** The citations of a list of verse items, one per item, in order. */
  function VerseItemsCitations(books: seq<Book>, bookId: nat, chapter: nat, items: seq<string>): seq<Citation>
    requires bookId < |books|
  {
    Map(VerseItemFn(books, bookId, chapter), items)
  }

  /** The citations of one chapter or verse match, in the order the source pushes them. */
  function TokenCitations(books: seq<Book>, bookId: nat, t: Token): (r: seq<Citation>)
    requires bookId < |books|
    ensures forall c :: c in r ==> c.book == books[bookId].name
  {
    match t.alt
    case BookName => []
    case ChapterList => ChapterItemsCitations(books, bookId, ChapterItems(t.text))
    case ChapterVerseSpan => [SpanCitation(books, bookId, t.text)]
    case ChapterVerseList =>
      var parts := SplitAround(t.text, VerseMarks);
      VerseItemsCitations(books, bookId, ParseInt(parts[0]), parts[1..])
  }

  // ---------------------------------------------------------------------------
  // The scan (index.js:33-84)
  // ---------------------------------------------------------------------------

  /** `akaToBookId[bk.toLowerCase()]` for a matched book name. */
  function ResolveBook(books: seq<Book>, text: string): (r: Option<nat>)
    ensures r.Some? ==> r.value < |books| && ToLower(text) in books[r.value].aka
    ensures r.Some? ==> forall j :: r.value < j < |books| ==> ToLower(text) !in books[j].aka
    ensures r.None? <==> forall i :: 0 <= i < |books| ==> ToLower(text) !in books[i].aka
  {
    var key := ToLower(text);
    AkaToBookIdSpec(books, key);
    if key in AkaToBookId(books) then Some(AkaToBookId(books)[key]) else None
  }

  predicate InRegistry(books: seq<Book>, bookId: Option<nat>)
  {
    bookId.Some? ==> bookId.value < |books|
  }

  /** What one token emits under the current book: nothing for a book name or without a book. */
  function Emitted(books: seq<Book>, t: Token, bookId: Option<nat>): seq<Citation>
    requires InRegistry(books, bookId)
  {
    if t.alt == BookName || bookId.None? then [] else TokenCitations(books, bookId.value, t)
  }

  /** The current book after a token: a book name switches it (possibly to none). */
  function NextBook(books: seq<Book>, t: Token, bookId: Option<nat>): (r: Option<nat>)
    ensures InRegistry(books, bookId) ==> InRegistry(books, r)
  {
    if t.alt == BookName then ResolveBook(books, t.text) else bookId
  }

  /** The loop body of index.js:36-82 run over a sequence of matches. */
  function Interpret(books: seq<Book>, tokens: seq<Token>, bookId: Option<nat>): seq<Citation>
    requires InRegistry(books, bookId)
    decreases |tokens|
  {
    if tokens == [] then []
    else Emitted(books, tokens[0], bookId) + Interpret(books, tokens[1..], NextBook(books, tokens[0], bookId))
  }

  /** The current book after a sequence of tokens. */
  function BookAfter(books: seq<Book>, tokens: seq<Token>, bookId: Option<nat>): (r: Option<nat>)
    ensures InRegistry(books, bookId) ==> InRegistry(books, r)
    decreases |tokens|
  {
    if tokens == [] then bookId else BookAfter(books, tokens[1..], NextBook(books, tokens[0], bookId))
  }

  /** parseScripture as a function of the input text, for either reading of the lookahead. */
  function ParseSpec(mode: Lookahead, books: seq<Book>, input: string): seq<Citation>
    requires ValidRegistry(books)
  {
    var s := CollapseWhitespace(input);
    Interpret(books, Scan(mode, books, s, 0), None)
  }

  /**
   * Text order: the citations of two consecutive stretches of matches are
   * those of the first followed by those of the second, read under the book
   * the first one leaves current.
   */
  lemma {:induction false} InterpretAppend(books: seq<Book>, t1: seq<Token>, t2: seq<Token>, bookId: Option<nat>)
    requires InRegistry(books, bookId)
    ensures Interpret(books, t1 + t2, bookId)
         == Interpret(books, t1, bookId) + Interpret(books, t2, BookAfter(books, t1, bookId))
    decreases |t1|
  {
    if t1 == [] {
      assert t1 + t2 == t2;
    } else {
      var next := NextBook(books, t1[0], bookId);
      var emitted := Emitted(books, t1[0], bookId);
      assert (t1 + t2)[0] == t1[0];
      assert (t1 + t2)[1..] == t1[1..] + t2;
      InterpretUnfold(books, t1 + t2, bookId);
      InterpretUnfold(books, t1, bookId);
      InterpretAppend(books, t1[1..], t2, next);
      ConcatAssoc(emitted, Interpret(books, t1[1..], next), Interpret(books, t2, BookAfter(books, t1, bookId)));
    }
  }

  lemma InterpretUnfold(books: seq<Book>, tokens: seq<Token>, bookId: Option<nat>)
    requires InRegistry(books, bookId) && tokens != []
    ensures Interpret(books, tokens, bookId)
         == Emitted(books, tokens[0], bookId) + Interpret(books, tokens[1..], NextBook(books, tokens[0], bookId))
  {
  }

  /** Chapter and verse matches read before any book name are discarded. */
  lemma {:induction false} NoBookNoCitations(books: seq<Book>, tokens: seq<Token>)
    requires forall i :: 0 <= i < |tokens| ==> tokens[i].alt != BookName
    ensures Interpret(books, tokens, None) == []
    ensures BookAfter(books, tokens, None) == None
    decreases |tokens|
  {
    if tokens != [] {
      NoBookNoCitations(books, tokens[1..]);
    }
  }

  /**
   * A book name sets the current book to the book listing it in lower case
   * and emits nothing itself; the book stays current for the matches after it
   * until the next book name.
   */
  lemma {:induction false} BookNameSetsContext(books: seq<Book>, name: string, rest: seq<Token>, bookId: Option<nat>)
    requires InRegistry(books, bookId)
    requires forall i :: 0 <= i < |rest| ==> rest[i].alt != BookName
    ensures var id := ResolveBook(books, name);
      Interpret(books, [Token(BookName, name)] + rest, bookId) == Interpret(books, rest, id)
      && BookAfter(books, [Token(BookName, name)] + rest, bookId) == id
      && (id.Some? <==> exists i :: 0 <= i < |books| && ToLower(name) in books[i].aka)
      && (id.Some? ==> ToLower(name) in books[id.value].aka)
  {
    var t := Token(BookName, name);
    assert ([t] + rest)[1..] == rest;
    BookAfterNoBooks(books, rest, ResolveBook(books, name));
  }

  lemma {:induction false} BookAfterNoBooks(books: seq<Book>, tokens: seq<Token>, bookId: Option<nat>)
    requires forall i :: 0 <= i < |tokens| ==> tokens[i].alt != BookName
    ensures BookAfter(books, tokens, bookId) == bookId
    decreases |tokens|
  {
    if tokens != [] {
      BookAfterNoBooks(books, tokens[1..], bookId);
    }
  }

  /** Every citation names a book of the registry. */
  lemma {:induction false} CitationsNameRegisteredBooks(books: seq<Book>, tokens: seq<Token>, bookId: Option<nat>)
    requires InRegistry(books, bookId)
    ensures forall c :: c in Interpret(books, tokens, bookId) ==> exists i :: 0 <= i < |books| && c.book == books[i].name
    decreases |tokens|
  {
    if tokens != [] {
      CitationsNameRegisteredBooks(books, tokens[1..], NextBook(books, tokens[0], bookId));
    }
  }

  /** One step of the loop: the first token emits, then the rest runs under the updated book. */
  lemma InterpretStep(books: seq<Book>, t: Token, rest: seq<Token>, bookId: Option<nat>)
    requires InRegistry(books, bookId)
    ensures Interpret(books, [t] + rest, bookId)
         == Emitted(books, t, bookId) + Interpret(books, rest, NextBook(books, t, bookId))
  {
    assert ([t] + rest)[1..] == rest;
  }

  /** One turn of the parse loop: the match's citations are emitted, then the rest is read. */
  lemma ParseAdvance(mode: Lookahead, books: seq<Book>, s: string, cursor: nat, bookId: Option<nat>, parts: seq<Citation>, spec: seq<Citation>)
    requires ValidRegistry(books) && cursor < |s| && InRegistry(books, bookId)
    requires Exec(mode, books, s, cursor).Some?
    requires parts + Interpret(books, Scan(mode, books, s, cursor), bookId) == spec
    ensures var m := Exec(mode, books, s, cursor).value;
      var token := Token(m.alt, s[m.start..m.end]);
      (parts + Emitted(books, token, bookId)) + Interpret(books, Scan(mode, books, s, m.end), NextBook(books, token, bookId)) == spec
  {
    var m := Exec(mode, books, s, cursor).value;
    var token := Token(m.alt, s[m.start..m.end]);
    var rest := Scan(mode, books, s, m.end);
    ScanStep(mode, books, s, cursor);
    InterpretStep(books, token, rest, bookId);
    ConcatAssoc(parts, Emitted(books, token, bookId), Interpret(books, rest, NextBook(books, token, bookId)));
  }

  /** The scan resumes at the end of the match it found. */
  lemma ScanStep(mode: Lookahead, books: seq<Book>, s: string, cursor: nat)
    requires ValidRegistry(books) && cursor < |s|
    requires Exec(mode, books, s, cursor).Some?
    ensures var m := Exec(mode, books, s, cursor).value;
      m.start < m.end <= |s|
      && Scan(mode, books, s, cursor) == [Token(m.alt, s[m.start..m.end])] + Scan(mode, books, s, m.end)
  {
    AltAtProgress(mode, books, s, Exec(mode, books, s, cursor).value.start);
  }

  /** The citations of one chapter or verse match, pushed item by item (index.js:47-81). */
  method PushCitations(books: seq<Book>, id: nat, token: Token) returns (cs: seq<Citation>)
    requires id < |books| && token.alt != BookName
    ensures cs == TokenCitations(books, id, token)
  {
    if token.alt == ChapterList {
      cs := PushChapterItems(books, id, ChapterItems(token.text));
    } else if token.alt == ChapterVerseSpan {
      cs := [SpanCitation(books, id, token.text)];
    } else {
      var pieces := SplitAround(token.text, VerseMarks);
      cs := PushVerseItems(books, id, ParseInt(pieces[0]), pieces[1..]);
    }
  }

  /** `chapters.forEach(...)`: one citation per chapter item (index.js:48-59). */
  method PushChapterItems(books: seq<Book>, id: nat, items: seq<string>) returns (cs: seq<Citation>)
    requires id < |books|
    ensures cs == ChapterItemsCitations(books, id, items)
  {
    cs := [];
    var i := 0;
    while i < |items|
      invariant i <= |items|
      invariant cs == ChapterItemsCitations(books, id, items[..i])
    {
      var bounds := ItemBounds(items[i]);
      cs := cs + [ChapterItemCitation(books, id, bounds.0, bounds.1)];
      assert items[..i + 1][..i] == items[..i];
      i := i + 1;
    }
    assert items[..i] == items;
  }

  /** `verses.forEach(...)`: one citation per verse item (index.js:70-80). */
  method PushVerseItems(books: seq<Book>, id: nat, chapter: nat, vs: seq<string>) returns (cs: seq<Citation>)
    requires id < |books|
    ensures cs == VerseItemsCitations(books, id, chapter, vs)
  {
    cs := [];
    var i := 0;
    while i < |vs|
      invariant i <= |vs|
      invariant cs == VerseItemsCitations(books, id, chapter, vs[..i])
    {
      cs := cs + [VerseItemCitation(books, id, chapter, vs[i])];
      assert vs[..i + 1][..i] == vs[..i];
      i := i + 1;
    }
    assert vs[..i] == vs;
  }

  /**
   * parseScripture: the scan loop of index.js:36-82 with the cursor held
   * locally; a book name switches the current book, a chapter or verse match
   * without a book is skipped.  `mode` chooses the reading of
   * `\d+(?!\s*:)`: Backtracking is the code as written, Atomic the corrected
   * scan.
   */
  method ParseScripture(mode: Lookahead, books: seq<Book>, input: string) returns (parts: seq<Citation>)
    requires ValidRegistry(books)
    ensures parts == ParseSpec(mode, books, input)
  {
    var s := CollapseWhitespace(input);
    ghost var spec := Interpret(books, Scan(mode, books, s, 0), None);
    assert spec == ParseSpec(mode, books, input);
    var cursor := 0;
    var bookId: Option<nat> := None;
    parts := [];
    while cursor < |s|
      invariant cursor <= |s|
      invariant InRegistry(books, bookId)
      invariant parts + Interpret(books, Scan(mode, books, s, cursor), bookId) == spec
      decreases |s| - cursor
    {
      var found := Exec(mode, books, s, cursor);
      if found.None? {
        assert Scan(mode, books, s, cursor) == [];
        assert parts + [] == parts;
        return;
      }
      var m := found.value;
      ScanStep(mode, books, s, cursor);
      var token := Token(m.alt, s[m.start..m.end]);
      ParseAdvance(mode, books, s, cursor, bookId, parts, spec);
      ghost var emitted := Emitted(books, token, bookId);
      ghost var next := NextBook(books, token, bookId);
      cursor := m.end;
      if m.alt == BookName {
        assert emitted == [] && parts + emitted == parts;
        bookId := ResolveBook(books, token.text);
      } else if bookId.Some? {
        var cs := PushCitations(books, bookId.value, token);
        assert cs == emitted;
        parts := parts + cs;
      } else {
        assert emitted == [] && parts + emitted == parts;
      }
      assert bookId == next;
    }
    assert parts + [] == parts;
  }
}
