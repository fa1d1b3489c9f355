/**
 * The book registry index.js reads from books.json, the alias table built
 * from it (`akaToBookId`), and the two lookups `getBookById` and
 * `getBookByName`.  The registry itself is a parameter: an ordered sequence of
 * books whose position is the book id.
 */
module Books {
  import opened Text

  datatype Option<T> = None | Some(value: T)

  /** One entry of books.json: display name, aliases (`aka`) and the `oneChapter` flag. */
  datatype Book = Book(name: string, aka: seq<string>, oneChapter: bool)

  /**
   * What index.js relies on in books.json: no alias is empty (an empty
   * alternative in the book pattern would match the empty string, and the scan
   * loop would then make no progress).
   */
  predicate ValidRegistry(books: seq<Book>)
  {
    forall i, j :: 0 <= i < |books| && 0 <= j < |books[i].aka| ==> books[i].aka[j] != []
  }

  /** The entries `[alias, id]` that one book contributes. */
  function BookEntries(aka: seq<string>, id: nat): (m: map<string, nat>)
    ensures forall a :: a in m <==> a in aka
    ensures forall a :: a in m ==> m[a] == id
  {
    map a | a in aka :: id
  }

  /**
   * `akaToBookId`: `Object.fromEntries` over every book's aliases in registry
   * order, so an alias listed by several books maps to the last of them.
   */
  function AkaToBookId(books: seq<Book>): map<string, nat>
    decreases |books|
  {
    if books == [] then map[]
    else AkaToBookId(books[..|books| - 1]) + BookEntries(books[|books| - 1].aka, |books| - 1)
  }

  /** Which aliases the table holds, and which book each one names. */
  lemma {:induction false} AkaToBookIdSpec(books: seq<Book>, a: string)
    ensures a in AkaToBookId(books) <==> exists i :: 0 <= i < |books| && a in books[i].aka
    ensures a in AkaToBookId(books) ==>
      var id := AkaToBookId(books)[a];
      id < |books| && a in books[id].aka
      && forall j :: id < j < |books| ==> a !in books[j].aka
    decreases |books|
  {
    if books != [] {
      var n := |books| - 1;
      var prefix := books[..n];
      AkaToBookIdSpec(prefix, a);
      if a in books[n].aka {
        assert AkaToBookId(books)[a] == n;
      } else {
        assert a in AkaToBookId(books) <==> a in AkaToBookId(prefix);
        if a in AkaToBookId(books) {
          assert AkaToBookId(books)[a] == AkaToBookId(prefix)[a];
        }
        assert (exists i :: 0 <= i < |books| && a in books[i].aka)
           ==> (exists i :: 0 <= i < |prefix| && a in prefix[i].aka);
      }
    }
  }

  /** Every id in the table is the position of a book. */
  lemma AkaToBookIdInRange(books: seq<Book>, a: string)
    requires a in AkaToBookId(books)
    ensures AkaToBookId(books)[a] < |books|
  {
    AkaToBookIdSpec(books, a);
  }

  /** `getBookById`: `books[id]`, undefined outside the registry. */
  function GetBookById(books: seq<Book>, id: int): (r: Option<Book>)
    ensures r.Some? <==> 0 <= id < |books|
    ensures r.Some? ==> r.value == books[id]
  {
    if 0 <= id < |books| then Some(books[id]) else None
  }

  /**
   * `getBookByName`: the book whose alias list holds the lower-cased name
   * (the last such book), undefined when no book lists it.
   */
  function GetBookByName(books: seq<Book>, aka: string): (r: Option<Book>)
    ensures r.Some? <==> exists i :: 0 <= i < |books| && ToLower(aka) in books[i].aka
    ensures r.Some? ==>
      exists i :: 0 <= i < |books| && r.value == books[i] && ToLower(aka) in books[i].aka
        && forall j :: i < j < |books| ==> ToLower(aka) !in books[j].aka
  {
    var key := ToLower(aka);
    AkaToBookIdSpec(books, key);
    if key in AkaToBookId(books) then GetBookById(books, AkaToBookId(books)[key]) else None
  }
}
