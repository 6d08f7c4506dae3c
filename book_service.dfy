/**
 * The HTTP routes of the book service, with the framework removed: each
 * handler is a method on the store that owns the two collections, and
 * returns the status code and body it would send.
 */
module BookService {
  import opened Wrappers
  import opened Catalogue
  import opened Accounts
  import opened ArrayOps

  const OK := 200
  const CREATED := 201
  const BAD_REQUEST := 400
  const UNAUTHORIZED := 401
  const FORBIDDEN := 403
  const NOT_FOUND := 404

  /** The `error` member of a failure body. */
  datatype ErrorTag =
    | Search(cause: SearchError)   // "Book not found", "No books found by this author", ...
    | CredentialsRequired          // "Username and password are required"
    | UserAlreadyExists            // "User already exists"
    | InvalidCredentials           // "Invalid username or password"
    | ReviewRequired               // "Review is required"
    | UsernameRequired             // "Username is required"
    | NotAuthorized                // "You are not authorized to delete this review"

  /** The `message` member of a success body. */
  datatype Notice = UserRegistered | LoginSuccessful | ReviewUpdated | ReviewDeleted

  /** The JSON body of a response. */
  datatype Body =
    | Books(books: seq<Book>)
    | OneBook(book: Book)
    | Message(notice: Notice)
    | MessageWithBook(notice: Notice, book: Book)
    | Error(tag: ErrorTag)

  datatype Reply = Reply(status: int, body: Body)

  /**
   * JavaScript truthiness of a request-body string field: an absent field
   * and the empty string are both falsy.
   */
  predicate Truthy(field: Option<string>)
  {
    field.Some? && field.value != ""
  }

  /** The process-wide store the route handlers share. */
  class Store {
    var books: seq<Book>
    var users: seq<User>

    /** ISBNs and usernames each identify one entry. */
    ghost predicate Valid()
      reads this
    {
      UniqueIsbns(books) && UniqueUsernames(users)
    }

    /** The store at start-up: the seeded catalogue and no users. */
    constructor ()
      ensures Valid()
      ensures books == SeedBooks && users == []
    {
      books := SeedBooks;
      users := [];
    }

    /** GET /books: every book, in catalogue order. */
    method ListBooks() returns (r: Reply)
      ensures r.status == OK && r.body.Books?
      ensures r.body.books == books
    {
      r := Reply(OK, Books(books));
    }

    /** GET /books/isbn/:isbn: the first book with that ISBN, or 404. */
    method GetBookByIsbn(isbn: string) returns (r: Reply)
      ensures r.status == OK || r == Reply(NOT_FOUND, Error(Search(BookNotFound)))
      ensures r.status == OK <==> exists i :: 0 <= i < |books| && books[i].isbn == isbn
      ensures r.status == OK ==>
                IndexOfIsbn(books, isbn).Some? &&
                r.body == OneBook(books[IndexOfIsbn(books, isbn).value])
    {
      match SearchByIsbn(books, isbn)
      case Success(book) =>
        r := Reply(OK, OneBook(book));
      case Failure(e) =>
        r := Reply(NOT_FOUND, Error(Search(e)));
    }

    /** GET /books/author/:author: all books by that author, or 404 when there are none. */
    method GetBooksByAuthor(author: string) returns (r: Reply)
      ensures r.status == OK || r == Reply(NOT_FOUND, Error(Search(NoBooksByAuthor)))
      ensures r.status == OK <==> exists i :: 0 <= i < |books| && books[i].author == author
      ensures r.status == OK ==> r.body.Books? && IsFilterOf(r.body.books, books, WrittenBy(author))
    {
      match SearchByAuthor(books, author)
      case Success(found) =>
        r := Reply(OK, Books(found));
      case Failure(e) =>
        r := Reply(NOT_FOUND, Error(Search(e)));
    }

    /** GET /books/title/:title: all books with that title, or 404 when there are none. */
    method GetBooksByTitle(title: string) returns (r: Reply)
      ensures r.status == OK || r == Reply(NOT_FOUND, Error(Search(NoBooksWithTitle)))
      ensures r.status == OK <==> exists i :: 0 <= i < |books| && books[i].title == title
      ensures r.status == OK ==> r.body.Books? && IsFilterOf(r.body.books, books, Titled(title))
    {
      match SearchByTitle(books, title)
      case Success(found) =>
        r := Reply(OK, Books(found));
      case Failure(e) =>
        r := Reply(NOT_FOUND, Error(Search(e)));
    }

    /**
     * POST /register: both fields must be truthy and the username new; then
     * the user is appended. No other outcome changes the store.
     */
    method Register(username: Option<string>, password: Option<string>) returns (r: Reply)
      requires Valid()
      modifies this`users
      ensures Valid()
      ensures old(users) <= users
      ensures !Truthy(username) || !Truthy(password) ==>
                r == Reply(BAD_REQUEST, Error(CredentialsRequired)) && users == old(users)
      ensures Truthy(username) && Truthy(password) && UsernameTaken(old(users), username.value) ==>
                r == Reply(BAD_REQUEST, Error(UserAlreadyExists)) && users == old(users)
      ensures Truthy(username) && Truthy(password) && !UsernameTaken(old(users), username.value) ==>
                r == Reply(CREATED, Message(UserRegistered)) &&
                users == old(users) + [User(username.value, password.value)]
    {
      if !Truthy(username) || !Truthy(password) {
        return Reply(BAD_REQUEST, Error(CredentialsRequired));
      }
      if UsernameTaken(users, username.value) {
        return Reply(BAD_REQUEST, Error(UserAlreadyExists));
      }
      AppendFreshKeepsUnique(users, User(username.value, password.value));
      users := users + [User(username.value, password.value)];
      r := Reply(CREATED, Message(UserRegistered));
    }

    /** POST /login: 200 exactly when a stored user has both credentials. */
    method Login(username: Option<string>, password: Option<string>) returns (r: Reply)
      ensures !Truthy(username) || !Truthy(password) ==>
                r == Reply(BAD_REQUEST, Error(CredentialsRequired))
      ensures Truthy(username) && Truthy(password) ==>
                (r.status == OK <==>
                 exists i :: 0 <= i < |users| && users[i] == User(username.value, password.value))
      ensures Truthy(username) && Truthy(password) ==>
                r == Reply(OK, Message(LoginSuccessful)) ||
                r == Reply(UNAUTHORIZED, Error(InvalidCredentials))
    {
      if !Truthy(username) || !Truthy(password) {
        return Reply(BAD_REQUEST, Error(CredentialsRequired));
      }
      if HasAccount(users, username.value, password.value) {
        r := Reply(OK, Message(LoginSuccessful));
      } else {
        r := Reply(UNAUTHORIZED, Error(InvalidCredentials));
      }
    }

    /**
     * PUT /books/review/:isbn: the review is checked before the book is
     * looked up; on success the first book with that ISBN gets the new review
     * and nothing else changes.
     */
    method UpdateReview(isbn: string, review: Option<string>) returns (r: Reply)
      requires Valid()
      modifies this`books
      ensures Valid()
      ensures SameEntries(old(books), books)
      ensures !Truthy(review) ==>
                r == Reply(BAD_REQUEST, Error(ReviewRequired)) && books == old(books)
      ensures Truthy(review) && IndexOfIsbn(old(books), isbn).None? ==>
                r == Reply(NOT_FOUND, Error(Search(BookNotFound))) && books == old(books)
      ensures Truthy(review) && IndexOfIsbn(old(books), isbn).Some? ==>
                var k := IndexOfIsbn(old(books), isbn).value;
                && books == old(books)[k := old(books)[k].(review := review.value)]
                && r == Reply(OK, MessageWithBook(ReviewUpdated, books[k]))
    {
      if !Truthy(review) {
        return Reply(BAD_REQUEST, Error(ReviewRequired));
      }
      match IndexOfIsbn(books, isbn)
      case None =>
        r := Reply(NOT_FOUND, Error(Search(BookNotFound)));
      case Some(k) =>
        SetReviewKeepsEntries(books, k, review.value);
        books := books[k := books[k].(review := review.value)];
        r := Reply(OK, MessageWithBook(ReviewUpdated, books[k]));
    }

    /**
     * DELETE /books/review/:isbn: the username is checked before the book is
     * looked up; the review is cleared only when it is non-empty and the
     * username belongs to some registered user (any user, not an owner).
     */
    method DeleteReview(isbn: string, username: Option<string>) returns (r: Reply)
      requires Valid()
      modifies this`books
      ensures Valid()
      ensures SameEntries(old(books), books)
      ensures !Truthy(username) ==>
                r == Reply(BAD_REQUEST, Error(UsernameRequired)) && books == old(books)
      ensures Truthy(username) && IndexOfIsbn(old(books), isbn).None? ==>
                r == Reply(NOT_FOUND, Error(Search(BookNotFound))) && books == old(books)
      ensures Truthy(username) && IndexOfIsbn(old(books), isbn).Some? ==>
                var k := IndexOfIsbn(old(books), isbn).value;
                if old(books)[k].review != "" && UsernameTaken(users, username.value) then
                  && books == old(books)[k := old(books)[k].(review := "")]
                  && r == Reply(OK, MessageWithBook(ReviewDeleted, books[k]))
                else
                  && r == Reply(FORBIDDEN, Error(NotAuthorized))
                  && books == old(books)
    {
      if !Truthy(username) {
        return Reply(BAD_REQUEST, Error(UsernameRequired));
      }
      match IndexOfIsbn(books, isbn)
      case None =>
        r := Reply(NOT_FOUND, Error(Search(BookNotFound)));
      case Some(k) =>
        if books[k].review != "" && UsernameTaken(users, username.value) {
          SetReviewKeepsEntries(books, k, "");
          books := books[k := books[k].(review := "")];
          r := Reply(OK, MessageWithBook(ReviewDeleted, books[k]));
        } else {
          r := Reply(FORBIDDEN, Error(NotAuthorized));
        }
    }
  }
}
