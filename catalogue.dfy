/**
 * The in-memory book catalogue and its three searches. Every comparison is
 * exact string equality, as JavaScript's `===` on strings.
 */
module Catalogue {
  import opened Wrappers
  import opened ArrayOps

  /** A catalogue entry; only `review` ever changes after start-up. */
  datatype Book = Book(isbn: string, title: string, author: string, review: string)

  /** The two books the catalogue is seeded with when the server starts. */
  const SeedBooks: seq<Book> := [
    Book("1234567890", "Node.js Programming", "John Doe", "Great book!"),
    Book("0987654321", "Learning JavaScript", "Jane Doe", "Very informative!")
  ]

  /** Why a search rejected. */
  datatype SearchError = BookNotFound | NoBooksByAuthor | NoBooksWithTitle

  /** No two books share an ISBN. */
  ghost predicate UniqueIsbns(books: seq<Book>)
  {
    forall i, j :: 0 <= i < j < |books| ==> books[i].isbn != books[j].isbn
  }

  /**
   * `after` holds the same books as `before`, in the same positions, with the
   * same ISBN, title and author; only reviews may differ.
   */
  ghost predicate SameEntries(before: seq<Book>, after: seq<Book>)
  {
    && |after| == |before|
    && forall i :: 0 <= i < |before| ==>
         && after[i].isbn == before[i].isbn
         && after[i].title == before[i].title
         && after[i].author == before[i].author
  }

  function HasIsbn(isbn: string): Book -> bool { (b: Book) => b.isbn == isbn }
  function WrittenBy(author: string): Book -> bool { (b: Book) => b.author == author }
  function Titled(title: string): Book -> bool { (b: Book) => b.title == title }

  /** `books.find(b => b.isbn === isbn)`, as the position of the book found. */
  function IndexOfIsbn(books: seq<Book>, isbn: string): (r: Option<nat>)
    ensures r.None? <==> forall i :: 0 <= i < |books| ==> books[i].isbn != isbn
    ensures r.Some? ==> r.value < |books| && books[r.value].isbn == isbn
    ensures r.Some? ==> forall j :: 0 <= j < r.value ==> books[j].isbn != isbn
  {
    FindIndex(books, HasIsbn(isbn))
  }

  /** In a catalogue with unique ISBNs the book found is the only one with that ISBN. */
  lemma IndexOfUniqueIsbn(books: seq<Book>, isbn: string, k: nat)
    requires UniqueIsbns(books)
    requires k < |books| && books[k].isbn == isbn
    ensures IndexOfIsbn(books, isbn) == Some(k)
  {
  }

  /**
   * `searchByISBN`: resolves with the first book whose ISBN equals `isbn`,
   * rejects with "Book not found" when there is none.
   */
  function SearchByIsbn(books: seq<Book>, isbn: string): (r: Result<Book, SearchError>)
    ensures r.Failure? <==> forall i :: 0 <= i < |books| ==> books[i].isbn != isbn
    ensures r.Failure? ==> r.error == BookNotFound
    ensures r.Success? ==>
              exists k :: 0 <= k < |books| && r.value == books[k] && r.value.isbn == isbn &&
                          forall j :: 0 <= j < k ==> books[j].isbn != isbn
  {
    match IndexOfIsbn(books, isbn)
    case None => Failure(BookNotFound)
    case Some(k) => Success(books[k])
  }

  /**
   * `searchByAuthor`: resolves with exactly the books by `author`, in
   * catalogue order; rejects with "No books found by this author" exactly
   * when there are none.
   */
  function SearchByAuthor(books: seq<Book>, author: string): (r: Result<seq<Book>, SearchError>)
    ensures r.Failure? <==> forall i :: 0 <= i < |books| ==> books[i].author != author
    ensures r.Failure? ==> r.error == NoBooksByAuthor
    ensures r.Success? ==> r.value != [] && IsFilterOf(r.value, books, WrittenBy(author))
    ensures r.Success? ==> forall b :: b in r.value ==> b.author == author
  {
    var found := Filter(books, WrittenBy(author));
    if |found| > 0 then Success(found) else Failure(NoBooksByAuthor)
  }

  /**
   * `searchByTitle`: resolves with exactly the books titled `title`, in
   * catalogue order; rejects with "No books found with this title" exactly
   * when there are none.
   */
  function SearchByTitle(books: seq<Book>, title: string): (r: Result<seq<Book>, SearchError>)
    ensures r.Failure? <==> forall i :: 0 <= i < |books| ==> books[i].title != title
    ensures r.Failure? ==> r.error == NoBooksWithTitle
    ensures r.Success? ==> r.value != [] && IsFilterOf(r.value, books, Titled(title))
    ensures r.Success? ==> forall b :: b in r.value ==> b.title == title
  {
    var found := Filter(books, Titled(title));
    if |found| > 0 then Success(found) else Failure(NoBooksWithTitle)
  }

  /** Changing reviews does not change where an ISBN is found. */
  lemma SameEntriesSameIndex(before: seq<Book>, after: seq<Book>, isbn: string)
    requires SameEntries(before, after)
    ensures IndexOfIsbn(after, isbn) == IndexOfIsbn(before, isbn)
  {
  }

  /** Overwriting one review keeps the entries and hence ISBN uniqueness. */
  lemma SetReviewKeepsEntries(books: seq<Book>, k: nat, text: string)
    requires k < |books|
    ensures SameEntries(books, books[k := books[k].(review := text)])
    ensures UniqueIsbns(books) ==> UniqueIsbns(books[k := books[k].(review := text)])
  {
  }
}
