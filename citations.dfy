/**
 * The citation records parseScripture builds and normalizeScripture reads
 * (index.js:51-78, 96): a type tag, the book's display name, the two
 * endpoints `[chapter, verse, fragment]`, and the packed `range` pair.
 */
module Citations {

  /** `type`: 'c-c', 'cv-v' or 'cv-cv'.  There is no whole-book type. */
  datatype CitationType = ChapterRange | VerseRange | ChapterVerseRange

  /** An endpoint's verse: the empty string `''` of a chapter range, or a number. */
  datatype Verse = NoVerse | Verse(n: nat)

  /** `[chapter, verse, fragment]`; the fragment is `''` or the letters after the verse digits. */
  datatype Endpoint = Endpoint(chapter: nat, verse: Verse, fragment: string)

  /** `{ type, parameters: { book, from, to }, range: [low, high] }` */
  datatype Citation = Citation(kind: CitationType, book: string, from: Endpoint, to: Endpoint, range: (int, int))

  /**
   * A value handed to normalizeScripture: a ScriptureReference, or anything
   * else (identified only by how it prints).
   */
  datatype Value = ScriptureReference(citation: Citation) | OtherValue(printed: string)
}
