# Book catalogue service — Dafny model

The service keeps two in-memory collections for the lifetime of the process:
a catalogue of books (`isbn`, `title`, `author`, `review`), seeded with two
entries, and a list of registered users (`username`, `password`). Its HTTP
routes are thin handlers over these collections: three exact-match searches,
listing the catalogue, registering and logging in users, and updating or
deleting a book's review. Each handler answers with a status code (200, 201,
400, 401, 403 or 404) and a JSON body. Its checks run in a fixed order.

This project models that core:

- `ArrayOps` (`array_ops.dfy`): JavaScript's `find`, `some` and `filter` as
  recursive scans whose contracts state the first match, existence, and the
  exact order-preserving selection. It also proves that this selection is
  unique.
- `Catalogue` (`catalogue.dfy`): the `Book` record, the seed catalogue, and
  `searchByISBN`, `searchByAuthor` and `searchByTitle` as functions on the
  catalogue returning a `Result`.
- `Accounts` (`accounts.dfy`): the `User` record and the two scans over users
  (username taken; exact credentials present).
- `BookService` (`book_service.dfy`): a `Store` class that owns `books` and
  `users` and has one method per route. A request-body field is an
  `Option<string>`, and "falsy" means absent or `""`. Methods that change the
  store say exactly what the new `books` or `users` is for every outcome. Each
  also preserves `Valid()`: ISBNs are unique and usernames are unique.
- `Scenarios` (`scenarios.dfy`): request sequences proved from the handlers'
  contracts alone. They cover the seeded lookups, a second registration being
  refused, login after registration, an update being visible to the next
  lookup, and a second delete being forbidden.

## Model

| member | source | states |
|---|---|---|
| `ArrayOps.FindIndex` | src/index.ts:47 | `find` yields None exactly when no element satisfies the predicate; otherwise a position whose element satisfies it and before which none does |
| `ArrayOps.Any` | src/index.ts:109 | `some` is true exactly when some element satisfies the predicate |
| `ArrayOps.Filter` | src/index.ts:65 | `filter` is an order-preserving subsequence holding each satisfying element as often as the input and nothing else; it is empty exactly when nothing satisfies |
| `ArrayOps.FilterIsUnique` | src/index.ts:85 | any sequence meeting that characterisation is the filter result, so "exactly the matches, in catalogue order" determines the answer |
| `Catalogue.IndexOfIsbn` | src/index.ts:138 | the book lookup by ISBN finds the first book with an exactly equal ISBN, or nothing when no ISBN is equal |
| `Catalogue.IndexOfUniqueIsbn` | src/index.ts:10-14 | in a catalogue with unique ISBNs the lookup finds the one book carrying that ISBN |
| `Catalogue.SameEntriesSameIndex` | src/index.ts:154 | changing reviews never changes where an ISBN lookup lands |
| `Catalogue.SetReviewKeepsEntries` | src/index.ts:140 | overwriting one review keeps every ISBN, title and author, and keeps ISBNs unique |
| `Catalogue.SearchByIsbn` | src/index.ts:45-53 | resolves with the first book whose ISBN equals the argument; rejects with BookNotFound exactly when none does |
| `Catalogue.SearchByAuthor` | src/index.ts:64-71 | resolves with exactly the books by that author, in catalogue order; rejects with NoBooksByAuthor exactly when there are none |
| `Catalogue.SearchByTitle` | src/index.ts:84-91 | resolves with exactly the books with that title, in catalogue order; rejects with NoBooksWithTitle exactly when there are none |
| `Accounts.UsernameTaken` | src/index.ts:156 | true exactly when some stored user has that username |
| `Accounts.HasAccount` | src/index.ts:123 | true exactly when some stored user has both that username and that password |
| `Accounts.AppendFreshKeepsUnique` | src/index.ts:109-113 | appending a user whose name is not taken keeps usernames unique |
| `BookService.Store.constructor` | src/index.ts:10-21 | the store starts with the two seeded books, no users, and its invariant established |
| `BookService.Store.ListBooks` | src/index.ts:24-42 | GET /books answers 200 with the whole catalogue |
| `BookService.Store.GetBookByIsbn` | src/index.ts:56-61 | 200 with the first book of that ISBN exactly when one exists, else 404 BookNotFound |
| `BookService.Store.GetBooksByAuthor` | src/index.ts:73-81 | 200 with exactly the author's books in order when there is one, else 404 |
| `BookService.Store.GetBooksByTitle` | src/index.ts:93-101 | 200 with exactly the books of that title in order when there is one, else 404 |
| `BookService.Store.Register` | src/index.ts:104-115 | missing or empty field: 400 and users unchanged; taken username: 400 and users unchanged; otherwise 201 and exactly one user appended at the end; usernames stay unique and users only grow |
| `BookService.Store.Login` | src/index.ts:118-129 | missing or empty field: 400; otherwise 200 if and only if a stored user matches both fields, else 401; the store is not modified |
| `BookService.Store.UpdateReview` | src/index.ts:132-145 | falsy review: 400 before any lookup; unknown ISBN: 404; both leave books unchanged; otherwise only the first matching book's review becomes the new text and the reply carries that book |
| `BookService.Store.DeleteReview` | src/index.ts:148-165 | falsy username: 400 before any lookup; unknown ISBN: 404; empty review or unregistered username: 403; all leave books unchanged; otherwise that book's review becomes "" and 200 |
| `Scenarios.SeededLookups` | src/index.ts:10-14 | on a fresh store the list is the seed, ISBN 1234567890 is "Node.js Programming", and an unknown ISBN is 404 |
| `Scenarios.RegisterTwice` | src/index.ts:109-111 | registering a username again is always 400 UserAlreadyExists |
| `Scenarios.RegisterThenLogin` | src/index.ts:113 | after a 201 registration the same credentials log in with 200 |
| `Scenarios.LoginBeforeRegistering` | src/index.ts:21 | with no users, every login with both fields is 401 |
| `Scenarios.UpdateThenGet` | src/index.ts:132-140 | after a successful update the next lookup by that ISBN shows the new review; both calls agree on 404 |
| `Scenarios.DeleteTwice` | src/index.ts:156-160 | after a successful delete, a second delete on that ISBN is 403 |
| `Scenarios.SeededReviewEdits` | src/index.ts:148-165 | on a fresh store, updating the first book's review is visible to the lookup, and a delete by an unregistered user is 403 |

## Left out

- Express setup, JSON body parsing, route and parameter extraction, and `app.listen` with its log line are framework I/O. Route parameters are plain strings here, and body fields are `Option<string>`.
- Request-body values that are not strings (numbers, booleans, objects) are not modelled. JavaScript truthiness is modelled only for strings: absent and `""` are falsy.
- The `setTimeout` delay and the callback, Promise and async wrapping of the searches and of the catalogue listing are incidental asynchrony. A search is a function returning `Result`. The 500 branch of GET /books cannot be reached and is not modelled.
- Response bodies are modelled as tags (`ErrorTag`, `Notice`) standing for their fixed message strings, not as the literal JSON text.
- The book returned by `find` is the stored object itself, and handlers mutate it in place. The model uses its position and replaces that entry of the `books` sequence. The reply carries the updated value, which is what the immediately serialised response shows. Aliasing beyond that is not modelled.
- Concurrent requests are not modelled; each handler is treated as atomic. In the original, GET /books replies only after a 100 ms timer, so a review changed by a PUT or DELETE in that window shows in its reply. `BookService.Store.ListBooks` replies with the catalogue as it is at the time of the call.
- `dist/index.js` is the compiled form of `src/index.ts` and adds no behaviour.
