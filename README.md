# Scripture citations: parser, range codec and normalizer

This project models the core of a small scripture-citation library (a single
module, `index.js`):

- `parseScripture` scans free text such as `Genesis 1; Exodus 2:3-5a, 7` for
  book names and chapter/verse forms, and turns it into citation records.
- `normalizeScripture` renders a sequence of citations as display strings.
  Consecutive citations of one book share one string, joined by `, ` or `; `.
- `rangeFormat` and `rangeToReference` pack (book, chapter, verse) into one
  integer and unpack it again.
- `getBookById` and `getBookByName` look books up in the registry.

The book registry, which the library loads from `books.json`, is a parameter
`books: seq<Book>` everywhere.

The modules follow the code's structure:

- `Text` holds the character classes, `parseInt` of digit strings,
  number-to-string, and the white-space collapsing of `input.replace(/\s+/g, ' ')`.
- `Books` holds the registry, the alias table `akaToBookId` and the two lookups.
- `RangeCodec` holds `rangeFormat` and `rangeToReference`, with JavaScript's
  32-bit shift semantics written out.
- `Scanner` holds the combined pattern of index.js:5-10, written as
  recognizers for its four alternatives:
  - a book name;
  - a chapter list `12-15; 17`;
  - a chapter:verse span `3:16a-4:2b`;
  - a verse list `3:16-17, 20a`.

  It also holds `exec`'s leftmost-first search and the token stream of the
  global scan.
- `Citations` holds the citation record.
- `Parser` holds:
  - the splitting the loop body does on each match;
  - the citations each match yields;
  - the specification `ParseSpec`, which interprets the token stream with the
    current book as context;
  - the method `ParseScripture`, with its `while` loop and its `forEach`
    loops, proved equal to `ParseSpec`.
- `MatchForms` states what the parser yields for each written form of a
  match: the chapter list, the span and the verse list.
- `Normalizer` holds:
  - the rendering rules;
  - the fold of the `forEach` callback;
  - an independent description of its result (one string per maximal run of
    one book);
  - the method `NormalizeScripture`.

The recognizers, the scan, `ParseScripture` and `NormalizeScripture` take a
`mode` that chooses the reading of `\d+(?!\s*:)`. `Backtracking` is the code
as written, and `Atomic` is the corrected reading (see Findings).

Some behaviour of the code that the model keeps:

- An alias listed by two books maps to the later one, because `Object.fromEntries` keeps the last entry (index.js:3).
- A book name alone yields no citation, so there is no whole-book citation type (index.js:39-43).
- `normalizeScripture` takes no options. It always merges citations of one book, and it returns the references as they were given, not grouped (index.js:87-134).
- A continuation is written with a space after the separator, as in `John 3:16-17, 20` (index.js:125).

Integers are unbounded. The one place where width matters is the packing in
`rangeFormat`, and there the conversion to 32 bits is explicit (`ToInt32`).

## Model

| member | source | states |
|---|---|---|
| Books.AkaToBookIdSpec | index.js:3 | an alias is in the table iff some book lists it; the id it maps to belongs to a book that lists it, and no later book lists it, so when two books share an alias the last one wins |
| Books.GetBookById | index.js:136 | a book is returned exactly when the id indexes the registry, and it is the book at that index |
| Books.GetBookByName | index.js:138 | a book is returned iff some book lists the lower-cased name as an alias; the book returned lists it, and no later book does, so the last book listing the alias wins |
| RangeCodec.ToInt32 | index.js:18 | the operand conversion of `<<` and `>>`: the result lies in [-2^31, 2^31) and is congruent to the input modulo 2^32 |
| RangeCodec.RangeToReference | index.js:20-26 | chapter and verse are always bytes (0..255); a book is found iff the top field `range >> 16` indexes the registry |
| RangeCodec.RangeFormatExact | index.js:18 | with verse and chapter below 256 and book below 32768, the packed value is exactly verse + 256·chapter + 65536·book, and it is non-negative and below 2^31 |
| RangeCodec.RoundTrip | index.js:18-26 | unpacking a packed in-range (book, chapter, verse) gives back that book's record, that chapter and that verse |
| RangeCodec.PackUnpack | index.js:18-26 | every range in [0, 2^31) unpacks to in-range fields, and packing those fields gives back the same range |
| RangeCodec.RangeFormatOrder | index.js:18 | one packed value is below another iff its (book, chapter, verse) is lexicographically smaller, so ranges sort in canonical reading order |
| RangeCodec.UnknownAliasIsBookZero | index.js:18 | an alias missing from the table packs as book 0, because `undefined << 16` is 0 |
| Text.CollapseWhitespace | index.js:31 | the result has no two adjacent white-space characters, keeps the non-space characters in their order, is no longer than the input, and starts with a space iff the input does |
| Text.CollapseRun | index.js:31 | a run of white space between two pieces becomes exactly one space, and the pieces on either side are collapsed on their own, so no run is deleted and none is lengthened |
| Text.CollapseIdempotent | index.js:31 | collapsing white space twice gives the same text as collapsing it once |
| Text.ParseIntOfDigits | index.js:50 | `parseInt` of a digit string is the decimal value of the digits |
| Text.NatToString | index.js:97 | a number prints as digits whose decimal value is the number; `0` prints as `0`, and no other number has a leading `0` |
| Scanner.Aliases | index.js:5 | the alternation holds exactly the aliases of all books |
| Scanner.LongestAliasAt | index.js:5 | there is no match iff no alias matches at that position; otherwise the match is the length of the longest matching alias, which the longest-first sort makes the alternation pick |
| Scanner.ChapterListAt | index.js:6 | a chapter list is non-empty, starts and ends with a digit, and holds only digits, white space, dashes, `;` and `,`; with the corrected lookahead its first number, read whole, is not followed by a colon |
| Scanner.MoreChapters | index.js:6 | the further items of a chapter list stay within the text and hold only digits, white space, dashes, `;` and `,`, ending on a digit when any item is taken |
| Scanner.MoreChaptersStopsAtBook | index.js:6 | the `(?!bookRx)` lookahead: the further items stop at a `;` or `,` separator followed by a book name, and no separator they consume is followed by one |
| Scanner.ChapterListStopsBeforeExodus | index.js:6 | in `Genesis 1; Exodus 2` the chapter list after `Genesis` is `1` alone and does not run into `Exodus` |
| Scanner.SpanAt | index.js:7 | a span is non-empty, starts with a digit, ends with a digit or a fragment letter, and holds only digits, white space, dashes, colons and fragment letters |
| Scanner.MoreVerses | index.js:8 | the further items of a verse list stay within the text and hold only digits, white space, dashes, colons, commas and fragment letters, ending on a digit or a fragment letter when any item is taken |
| Scanner.MoreVersesStopsAtBook | index.js:8 | the `(?!bookRx)` lookahead: the further verses stop at a `,` followed by a book name, and no `,` they consume is followed by one |
| Scanner.VerseListAt | index.js:8 | a verse list is non-empty, starts with a digit, ends with a digit or a fragment letter, and holds only digits, white space, dashes, colons, commas and fragment letters |
| Scanner.AltAt | index.js:10 | the alternation at one position: the match is that of the first group, in the order book name, chapter list, span, verse list, that matches there, and no earlier group matches; there is no match iff no group matches |
| Scanner.Exec | index.js:36 | `rx.exec` from `lastIndex` reports the first position where one of the four alternatives matches, and none matches before it; there is no match iff none matches anywhere from `lastIndex` on |
| Scanner.Scan | index.js:36 | the matches the loop visits: there are none iff no group matches anywhere from the cursor on; every match is non-empty, so there are at most as many as characters left |
| Scanner.AltAtProgress | index.js:36 | with a registry of non-empty aliases every match is non-empty, so the scan loop advances |
| Scanner.AtomicExecKeepsNumbersWhole | index.js:6 | when `\d+(?!\s*:)` does not give back digits, a match found from a number boundary starts and ends on number boundaries, so no number is cut in two |
| Scanner.BacktrackingCutsChapterNumber | index.js:6 | with the pattern as written, the scan of `Psalm 119:105` after the book name finds a chapter list `11` that ends inside `119` |
| Parser.ResolveBook | index.js:40 | the id of the lower-cased book name is a book listing it, and no later book lists it; there is no id iff no book lists it |
| Parser.ChapterItemCitation | index.js:51-59 | a chapter-list item cites the current book, as `cv-v` in a single-chapter book and `c-c` otherwise |
| MatchForms.ItemBoundsOf | index.js:50 | splitting an item `N` or `N-M` on non-digits yields its first and its last number |
| MatchForms.ChapterItemCites | index.js:51-59 | an item of a single-chapter book cites verses `first..last` of chapter 1, and its ranges decode to (1, first) and (1, last); otherwise it cites chapters `first..last` with no verses, and its ranges decode to (first, 0) and (last, 255) |
| MatchForms.ChapterListCitations | index.js:47-61 | a chapter list gives one citation per item, in order, built from the item's first and last numbers |
| MatchForms.SplitJoin | index.js:71 | splitting text on `\s*[:,;]\s*` (or another mark class) gives back exactly the pieces it was joined from |
| MatchForms.SpanCitationOf | index.js:62-69 | a span gives one `cv-cv` citation whose endpoints are the written chapter, verse and fragment (`''` if there is none) on each side, with both ranges packed from them |
| MatchForms.VerseItemOf | index.js:72-79 | a verse item `v`, `va`, `v-w` or `va-wb` cites that verse range of the list's chapter; a single verse has to equal to from, and each side keeps its own fragment |
| MatchForms.VerseListCitations | index.js:70-81 | a verse list gives one `cv-v` citation per item, in order, all in the chapter written before the colon |
| Parser.TokenCitations | index.js:45-81 | every citation made from a match names the current book |
| Parser.InterpretAppend | index.js:36-82 | interpreting two token streams one after the other equals interpreting their concatenation, with the book that the first leaves current carried into the second |
| Parser.NoBookNoCitations | index.js:43 | matches before any book name yield no citation, and the current book stays unset |
| Parser.BookNameSetsContext | index.js:39-42 | a book name yields nothing and makes its resolved book current for the matches that follow; the book is unset when the name is not in the registry |
| Parser.BookAfterNoBooks | index.js:39-43 | matches other than book names leave the current book unchanged |
| Parser.CitationsNameRegisteredBooks | index.js:45 | every citation produced names a book of the registry |
| Parser.PushChapterItems | index.js:49-60 | the `forEach` over chapter items pushes exactly the per-item citations, in order |
| Parser.PushVerseItems | index.js:72-80 | the `forEach` over verse items pushes exactly the per-item citations, in order |
| Parser.PushCitations | index.js:47-81 | the citations pushed for one match are the ones its alternative yields |
| Parser.ParseScripture | index.js:28-85 | the loop returns the interpretation of the whole token stream of the white-space-collapsed input, starting with no current book, in either scan mode (`Backtracking` as written, `Atomic` corrected) |
| Normalizer.Suffix | index.js:99-112 | the range end is empty iff the two endpoints are equal, and otherwise starts with `-`; what follows the `-` on each branch is stated by the `SuffixReads` lemmas below |
| Normalizer.PrefixReadsChapter | index.js:97 | the start of a rendering reads back as the from-chapter, and carries more than the chapter iff the from-verse is truthy (set and not 0) |
| Normalizer.PrefixReadsVerse | index.js:97 | with a truthy from-verse, the start is the chapter, `:`, text that reads back as the from-verse, and the fragment at the end |
| Normalizer.SuffixReadsChapter | index.js:100-102 | across chapters the end is `-` and text that reads back as the to-chapter; a to-verse of 0 glues a `0` on, so it then reads back as ten times the to-chapter |
| Normalizer.SuffixReadsChapterVerse | index.js:101 | across chapters with a truthy to-verse, the end is `-chapter:`, text that reads back as the to-verse, and the to-fragment at the end |
| Normalizer.SuffixReadsVerse | index.js:105-107 | in one chapter with different verses, the end is `-`, text that reads back as the to-verse, and the to-fragment at the end; with no to-verse it is `-` and the fragment only |
| Normalizer.SuffixReadsFragment | index.js:110-112 | in one chapter and verse with different fragments, the end is `-` and the to-fragment |
| Normalizer.JointRule | index.js:114-125 | an appended citation is preceded by `, ` when its type equals the previous one's and by `; ` otherwise; when both are single-chapter citations of the same chapter, it is its standalone text without the leading `chapter:` (with a truthy from-verse) or without the leading chapter (with no from-verse and no fragment); otherwise it is its standalone text |
| Normalizer.FoldSnocJoin | index.js:114-125 | a citation of the previous citation's book extends the last string, and adds no new one |
| Normalizer.FoldSnocOpen | index.js:127-128 | any other citation pushes a new string `{book} {norm}` |
| Normalizer.RunsFlatten | index.js:94-131 | cut into runs, the citations put back together are the input, in order |
| Normalizer.RunsOneBook | index.js:114 | every run holds citations of a single book |
| Normalizer.RunsMaximal | index.js:114 | neighbouring runs have different books, so every run is maximal |
| Normalizer.NormalizedRuns | index.js:91-131 | the strings returned are exactly one rendering per maximal same-book run, in order |
| Normalizer.NormalizedStrings | index.js:91-131 | there is one string per maximal run, the i-th string is the text of the i-th run, and it opens with `{book} ` and the rendering of the run's first citation |
| Normalizer.RunTextStarts | index.js:128 | the string of a run starts with `{book} ` followed by the rendering of its first citation |
| Normalizer.OneBookOneString | index.js:114-128 | a non-empty sequence of citations of one book gives exactly one string |
| Normalizer.AddReference | index.js:96-130 | the callback for one reference performs one step of the fold (`Step`), the fold whose result `NormalizedRuns` and `JointRule` describe |
| Normalizer.NormalizeReferences | index.js:91-133 | the `forEach` fails on the first value that is not a ScriptureReference, with the message `{value} is not a ScriptureReference`; otherwise it returns the references unchanged and the strings of the fold over their citations |
| Normalizer.NormalizeScripture | index.js:87-134 | text is parsed first, in either scan mode (`Backtracking` as written, `Atomic` corrected); if some value is not a ScriptureReference, the call fails with `{value} is not a ScriptureReference` for the first such value; otherwise it returns the references unchanged together with the merged strings |

## Left out

- The registry file `books.json` is not part of this model; it is the parameter `books`, required to have non-empty aliases (`ValidRegistry`).
- JavaScript's regular-expression engine is not modelled in general. The combined pattern (index.js:5-10) is written as four recognizers that follow JavaScript's first-path backtracking for these patterns. Alias text is taken literally, so alias metacharacters are not modelled.
- The global `rx.lastIndex` (index.js:29, 36) is the local cursor of the scan loop. Its sharing between calls is not modelled.
- Case folding (`toLowerCase`, the `i` flag) is ASCII only.
- `parseInt` is applied only to digit strings in the model, because the patterns guarantee them; `NaN` and the loss of precision beyond 2^53 are not modelled. Verse and chapter numbers are unbounded naturals.
- The identity of `ScriptureReference` objects, the `constructor.name` test (index.js:95) and the printing of `${ref}` are modelled as a `Value` that is either a citation or another value with its printed text. A `null` or `undefined` reference, which raises a TypeError before that test, is not distinguished.
- `normalizeScripture` applied to something that is neither a string nor an array is not modelled: the array test on index.js:89 is always false, and `forEach` then fails on a non-array.
- The export list on index.js:140 is not modelled.
- Parser.ParseScripture: it is stated against the specification `ParseSpec` (the interpretation of the scan's tokens). The properties of written forms are stated match by match (`MatchForms`), not for a whole input text.
- Normalizer.JointRule: when the continuation's from-verse is 0, or its from-endpoint has no verse but has a fragment, the relation between the appended text and the standalone text is not stated. In those cases the appended text prints the `0` or the fragment, and the standalone text prints neither.
- The read-back lemmas (`PrefixReadsVerse`, `SuffixReadsChapterVerse`, `SuffixReadsVerse`) require that a fragment does not start with a digit. The parser only produces fragments of letters `a` to `f`.

## Findings

| source | as written | input that shows it | evidently intended | confidence | as-written member | corrected member |
|---|---|---|---|---|---|---|
| index.js:6 | `\d+(?!\s*:)` may give back digits until the look-ahead succeeds, so a chapter list can end inside a number that is followed by a colon | `Psalm 119:105`: after the book name the chapter-list alternative matches `11`, and the scan continues with `9:105` | a number followed by a colon is never read as a chapter-list number, so `119:105` is read whole as chapter 119, verse 105 | high; not executed | Scanner.BacktrackingCutsChapterNumber | Scanner.AtomicExecKeepsNumbersWhole |
