/**
 * Request sequences against the store, proved from the handlers' contracts
 * alone: what a client of the service can rely on across calls.
 */
module Scenarios {
  import opened Wrappers
  import opened Catalogue
  import opened Accounts
  import opened BookService

  /** At start-up the first seeded ISBN is found and an unknown one is not. */
  method SeededLookups() returns (all: Reply, found: Reply, missing: Reply)
    ensures all == Reply(OK, Books(SeedBooks))
    ensures found.status == OK && found.body.OneBook?
    ensures found.body.book.title == "Node.js Programming"
    ensures missing == Reply(NOT_FOUND, Error(Search(BookNotFound)))
  {
    var s := new Store();
    all := s.ListBooks();
    assert s.books[0].isbn == "1234567890";
    found := s.GetBookByIsbn("1234567890");
    missing := s.GetBookByIsbn("doesnotexist");
  }

  /** Registering a username a second time is refused, whatever the first call did. */
  method RegisterTwice(s: Store, username: string, password: string) returns (first: Reply, second: Reply)
    requires s.Valid()
    requires username != "" && password != ""
    modifies s
    ensures s.Valid()
    ensures second == Reply(BAD_REQUEST, Error(UserAlreadyExists))
  {
    first := s.Register(Some(username), Some(password));
    if first.status == CREATED {
      assert s.users[|s.users| - 1].username == username;
    }
    second := s.Register(Some(username), Some(password));
  }

  /** A user just registered can log in with the same credentials. */
  method RegisterThenLogin(s: Store, username: string, password: string) returns (first: Reply, second: Reply)
    requires s.Valid()
    modifies s
    ensures s.Valid()
    ensures first.status == CREATED ==> second == Reply(OK, Message(LoginSuccessful))
  {
    first := s.Register(Some(username), Some(password));
    if first.status == CREATED {
      assert s.users[|s.users| - 1] == User(username, password);
    }
    second := s.Login(Some(username), Some(password));
  }

  /** On a fresh store nobody can log in. */
  method LoginBeforeRegistering(username: string, password: string) returns (r: Reply)
    requires username != "" && password != ""
    ensures r == Reply(UNAUTHORIZED, Error(InvalidCredentials))
  {
    var s := new Store();
    r := s.Login(Some(username), Some(password));
  }

  /** After a successful review update, a lookup by the same ISBN shows the new review. */
  method UpdateThenGet(s: Store, isbn: string, text: string) returns (first: Reply, second: Reply)
    requires s.Valid()
    requires text != ""
    modifies s
    ensures s.Valid()
    ensures first.status == OK ==>
              second.status == OK && second.body.OneBook? && second.body.book.review == text
    ensures first.status == NOT_FOUND <==> second.status == NOT_FOUND
  {
    ghost var before := s.books;
    first := s.UpdateReview(isbn, Some(text));
    SameEntriesSameIndex(before, s.books, isbn);
    second := s.GetBookByIsbn(isbn);
  }

  /** A successful delete leaves an empty review, so deleting again is forbidden. */
  method DeleteTwice(s: Store, isbn: string, username: string) returns (first: Reply, second: Reply)
    requires s.Valid()
    modifies s
    ensures s.Valid()
    ensures first.status == OK ==> second == Reply(FORBIDDEN, Error(NotAuthorized))
  {
    ghost var before := s.books;
    first := s.DeleteReview(isbn, Some(username));
    SameEntriesSameIndex(before, s.books, isbn);
    second := s.DeleteReview(isbn, Some(username));
  }

  /**
   * On a fresh store: a review update shows up in the next lookup, and an
   * unregistered user cannot delete the (non-empty) review.
   */
  method SeededReviewEdits(username: string) returns (update: Reply, lookup: Reply, delete: Reply)
    requires username != ""
    ensures update.status == OK
    ensures lookup.status == OK && lookup.body == OneBook(Book("1234567890", "Node.js Programming", "John Doe", "x"))
    ensures delete == Reply(FORBIDDEN, Error(NotAuthorized))
  {
    var s := new Store();
    update := s.UpdateReview("1234567890", Some("x"));
    lookup := s.GetBookByIsbn("1234567890");
    delete := s.DeleteReview("1234567890", Some(username));
  }
}
