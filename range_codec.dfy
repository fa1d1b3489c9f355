/**
 * The packed reference `verse + (chapter << 8) + (bookId << 16)` of
 * `rangeFormat`, and its unpacking `rangeToReference`.  JavaScript's `<<` and
 * `>>` work on 32-bit two's-complement integers; that conversion is written
 * out here as ToInt32.
 */
module RangeCodec {
  import opened Books

  const TwoTo31: int := 0x8000_0000
  const TwoTo32: int := 0x1_0000_0000

  /** ECMAScript ToInt32 on an integer value. */
  function ToInt32(x: int): (r: int)
    ensures -TwoTo31 <= r < TwoTo31
    ensures (r - x) % TwoTo32 == 0
  {
    var m := x % TwoTo32;
    if m >= TwoTo31 then m - TwoTo32 else m
  }

  lemma ToInt32Small(x: int)
    requires -TwoTo31 <= x < TwoTo31
    ensures ToInt32(x) == x
  {
  }

  /** `x << 8` */
  function Shl8(x: int): int { ToInt32(ToInt32(x) * 256) }

  /** `x << 16` */
  function Shl16(x: int): int { ToInt32(ToInt32(x) * 65536) }

  /** How `rangeFormat` is told the book: an integer id, or an alias. */
  datatype BookKey = ById(id: int) | ByAlias(alias: string)

  /**
   * The book id `rangeFormat` shifts: the id itself, or `akaToBookId[alias]`
   * (the alias is not lower-cased).  An unknown alias is `undefined`, which
   * `<<` converts to 0.
   */
  function KeyId(books: seq<Book>, key: BookKey): int
  {
    match key
    case ById(id) => id
    case ByAlias(a) => if a in AkaToBookId(books) then AkaToBookId(books)[a] else 0
  }

  /** `rangeFormat(book, ch, v)` on already-parsed integers. */
  function RangeFormat(books: seq<Book>, key: BookKey, ch: int, v: int): int
  {
    v + Shl8(ch) + Shl16(KeyId(books, key))
  }

  /** What `rangeToReference` returns: `[books[bookId], chapter, verse]`. */
  datatype Reference = Reference(book: Option<Book>, chapter: int, verse: int)

  /** `range >> 16` */
  function RangeBookId(range: int): int { ToInt32(range) / 65536 }

  /** `(range >> 8) & 255` */
  function RangeChapter(range: int): int { (ToInt32(range) / 256) % 256 }

  /** `range & 255` */
  function RangeVerse(range: int): int { ToInt32(range) % 256 }

  function RangeToReference(books: seq<Book>, range: int): (r: Reference)
    ensures 0 <= r.chapter < 256 && 0 <= r.verse < 256
    ensures r.book.Some? <==> 0 <= RangeBookId(range) < |books|
  {
    Reference(GetBookById(books, RangeBookId(range)), RangeChapter(range), RangeVerse(range))
  }

  /** The fields a packing keeps apart: book below 2^15, chapter and verse a byte each. */
  predicate InField(bookId: int, ch: int, v: int)
  {
    0 <= bookId < 0x8000 && 0 <= ch < 256 && 0 <= v < 256
  }

  /** Within the fields, the shifts are plain multiplications. */
  lemma {:induction false} RangeFormatExact(books: seq<Book>, key: BookKey, ch: int, v: int)
    requires InField(KeyId(books, key), ch, v)
    ensures RangeFormat(books, key, ch, v) == v + ch * 256 + KeyId(books, key) * 65536
    ensures 0 <= RangeFormat(books, key, ch, v) < TwoTo31
  {
    var b := KeyId(books, key);
    ToInt32Small(ch);
    ToInt32Small(ch * 256);
    ToInt32Small(b);
    assert b * 65536 <= 0x7fff * 65536;
    ToInt32Small(b * 65536);
  }

  /** Unpacking the three fields of a packed reference. */
  lemma {:induction false} UnpackFields(b: int, ch: int, v: int)
    requires InField(b, ch, v)
    ensures var x := v + ch * 256 + b * 65536;
      RangeBookId(x) == b && RangeChapter(x) == ch && RangeVerse(x) == v
  {
    var x := v + ch * 256 + b * 65536;
    assert 0 <= x < TwoTo31 by {
      assert b * 65536 <= 0x7fff * 65536;
      assert ch * 256 <= 255 * 256;
    }
    ToInt32Small(x);
    assert x == (ch + b * 256) * 256 + v;
    assert x / 256 == ch + b * 256;
    assert x % 256 == v;
    assert (ch + b * 256) % 256 == ch;
    assert x == b * 65536 + (ch * 256 + v);
    assert ch * 256 + v < 65536;
    assert x / 65536 == b;
  }

  /**
   * Round trip: a reference packed from a registered book id and in-field
   * chapter and verse unpacks to that book, chapter and verse.
   */
  lemma RoundTrip(books: seq<Book>, key: BookKey, ch: int, v: int)
    requires 0 <= KeyId(books, key) < |books|
    requires InField(KeyId(books, key), ch, v)
    ensures RangeToReference(books, RangeFormat(books, key, ch, v))
         == Reference(Some(books[KeyId(books, key)]), ch, v)
  {
    RangeFormatExact(books, key, ch, v);
    UnpackFields(KeyId(books, key), ch, v);
  }

  /**
   * The other direction: every non-negative 32-bit packed reference is the
   * packing of the fields it unpacks to.
   */
  lemma {:induction false} PackUnpack(books: seq<Book>, range: int)
    requires 0 <= range < TwoTo31
    ensures InField(RangeBookId(range), RangeChapter(range), RangeVerse(range))
    ensures RangeFormat(books, ById(RangeBookId(range)), RangeChapter(range), RangeVerse(range)) == range
  {
    ToInt32Small(range);
    var b, ch, v := range / 65536, (range / 256) % 256, range % 256;
    assert range / 256 == b * 256 + ch by {
      assert range == (range / 256) * 256 + v;
      assert range == b * 65536 + range % 65536;
      assert range % 65536 == ch * 256 + v by {
        assert range / 256 == (range / 256 / 256) * 256 + ch;
        assert range / 256 / 256 == b;
      }
    }
    assert range == v + ch * 256 + b * 65536;
    assert b < 0x8000;
    RangeFormatExact(books, ById(b), ch, v);
  }

  /** Lexicographic order on (book, chapter, verse). */
  predicate LexLess(b1: int, c1: int, v1: int, b2: int, c2: int, v2: int)
  {
    b1 < b2 || (b1 == b2 && (c1 < c2 || (c1 == c2 && v1 < v2)))
  }

  /**
   * The packing is order-preserving: within the fields, comparing packed
   * references compares (book, chapter, verse) lexicographically, which is
   * what makes the `range` pair of a citation comparable.
   */
  lemma {:induction false} RangeFormatOrder(books: seq<Book>, k1: BookKey, c1: int, v1: int,
                                            k2: BookKey, c2: int, v2: int)
    requires InField(KeyId(books, k1), c1, v1) && InField(KeyId(books, k2), c2, v2)
    ensures RangeFormat(books, k1, c1, v1) < RangeFormat(books, k2, c2, v2)
        <==> LexLess(KeyId(books, k1), c1, v1, KeyId(books, k2), c2, v2)
  {
    var b1, b2 := KeyId(books, k1), KeyId(books, k2);
    RangeFormatExact(books, k1, c1, v1);
    RangeFormatExact(books, k2, c2, v2);
    var x1, x2 := v1 + c1 * 256 + b1 * 65536, v2 + c2 * 256 + b2 * 65536;
    UnpackFields(b1, c1, v1);
    UnpackFields(b2, c2, v2);
    if b1 < b2 {
      assert x1 < (b1 + 1) * 65536 <= b2 * 65536 <= x2;
    } else if b1 > b2 {
      assert x2 < (b2 + 1) * 65536 <= b1 * 65536 <= x1;
    } else if c1 < c2 {
      assert x1 - b1 * 65536 < (c1 + 1) * 256 <= c2 * 256 <= x2 - b2 * 65536;
    } else if c1 > c2 {
      assert x2 - b2 * 65536 < (c2 + 1) * 256 <= c1 * 256 <= x1 - b1 * 65536;
    }
  }

  /** An alias the table does not hold packs as book 0.  Stated for reference: it only unfolds `KeyId`. */
  lemma UnknownAliasIsBookZero(books: seq<Book>, a: string, ch: int, v: int)
    requires a !in AkaToBookId(books)
    ensures RangeFormat(books, ByAlias(a), ch, v) == RangeFormat(books, ById(0), ch, v)
  {
  }
}
