# Library lending service — a Dafny model

This project models the lending core of a small library web backend. The backend stores
books, book categories and loan records ("picked books"). A logged-in user picks a book up
and later drops it off. A pick-up opens a loan record and marks the book unavailable. A
drop-off closes the user's open loan and marks the book available again. Around this state
machine sit a few catalogue operations (create a category, create a book) and read-only
queries (the user's current picks, the user's history, search by name and category with or
without author).

Layout:

- `types.dfy`, module `LibraryTypes`: identifiers, the `Book` and `PickedBook` entities, the
  response kinds (`Status`: `Ok`, `NotFound`, `Unavailable` (451), `Unauthorized`,
  `AlreadyHeld`, `NoActiveLoan`), `Reply<T>` for endpoints with a body, and `HttpCode`.
- `loans.dfy`, module `Loans`: the repository lookups over the loan records. These are the
  open loan of (book, user), the open loans of a user and all loans of a user. The module
  also holds the count of open loans per book and its lemmas.
- `library.dfy`, module `Library`: the whole store as a value (`Store`). For each endpoint it
  has the ordered checks (`PickupStatus`, `DropOffStatus`, `CreateBookStatus`) and the
  resulting store (`AfterPickup`, `AfterDropOff`, `AfterCreateBook`, `AfterCreateCategory`).
  It also has the queries and the invariant `Consistent`:
  - loans reference stored books, and ids are below their counters;
  - no book has two open loans;
  - a book is available exactly when no open loan references it.
  The lemmas here state the error paths, the effects of success, the frame conditions and the
  preservation of the invariant.
- `service.dfy`, module `Controller`: class `LibraryWebService`. Its fields stand for the
  repositories. Its methods `CreateCategory`, `CreateBook`, `PickupBook` and `DropOffBook`
  update them step by step, in the order the service does. Each method's `ensures` ties the
  status and the new state to the `Library` functions of the old state. Each method also keeps
  `Valid()` (the invariant `Consistent`).
- `scenarios.dfy`, module `Scenarios`: one book's life cycle, step by step through the class.

The logged-in user is an explicit `Option<UserId>` parameter (`None` when nobody is logged in
or the account cannot be resolved). The pick-up time is an opaque `nat` parameter. Record
identifiers come from counters in the store.

## Model

| member | source | states |
|---|---|---|
| `LibraryTypes.HttpCode` | webmidtermhw/src/main/java/com/webmidtermhw/controller/LibraryWebService.java:72-89 | Only `Ok` answers 200. Unavailable answers 451 and unauthenticated answers 401. An unknown book, an already-held book and a missing loan all answer 404. |
| `Loans.FindOpenLoan` | webmidtermhw/src/main/java/com/webmidtermhw/controller/LibraryWebService.java:87 | The lookup by book, user and open flag finds an open loan of that (book, user) exactly when one exists. |
| `Loans.OpenLoansOf` | webmidtermhw/src/main/java/com/webmidtermhw/controller/LibraryWebService.java:151 | It holds exactly the user's loans that are not dropped off. |
| `Loans.LoansOf` | webmidtermhw/src/main/java/com/webmidtermhw/controller/LibraryWebService.java:163 | It holds exactly the user's loans, open or closed. |
| `Library.CreateCategoryFresh` | webmidtermhw/src/main/java/com/webmidtermhw/controller/LibraryWebService.java:44-47 | A created category gets an id that is not yet used. That id is added and nothing else changes. |
| `Library.CreateCategoryPreservesConsistent` | webmidtermhw/src/main/java/com/webmidtermhw/controller/LibraryWebService.java:44-47 | Creating a category keeps the store consistent. |
| `Library.CreateBookUnknownCategory` | webmidtermhw/src/main/java/com/webmidtermhw/controller/LibraryWebService.java:59-61 | An unknown category id is refused with NotFound and nothing is stored. |
| `Library.CreateBookStoresAvailable` | webmidtermhw/src/main/java/com/webmidtermhw/controller/LibraryWebService.java:58-64 | With a known category the book gets a new id and is stored as given with `available == true`. Every other book, the loans and the categories stay unchanged. |
| `Library.CreateBookPreservesConsistent` | webmidtermhw/src/main/java/com/webmidtermhw/controller/LibraryWebService.java:62-64 | A new book is available and no loan references it, so the invariant holds afterwards. |
| `Library.PickupUnknownBook` | webmidtermhw/src/main/java/com/webmidtermhw/controller/LibraryWebService.java:71-74 | An unknown book id gives NotFound for any user, and the store is unchanged. |
| `Library.PickupUnavailable` | webmidtermhw/src/main/java/com/webmidtermhw/controller/LibraryWebService.java:77-78 | An unavailable book gives Unavailable for every user, including no user. The availability check comes before authentication, and the store is unchanged. |
| `Library.PickupUnauthorized` | webmidtermhw/src/main/java/com/webmidtermhw/controller/LibraryWebService.java:81-84 | Picking up an available book with no logged-in user gives Unauthorized, and the store is unchanged. |
| `Library.PickupAlreadyHeld` | webmidtermhw/src/main/java/com/webmidtermhw/controller/LibraryWebService.java:87-89 | If the user already holds an open loan of the book, the result is AlreadyHeld and nothing changes. |
| `Library.PickupSucceedsIff` | webmidtermhw/src/main/java/com/webmidtermhw/controller/LibraryWebService.java:71-92 | A pick-up succeeds exactly when the book exists, is available, a user is logged in, and that user holds no open loan of the book. |
| `Library.PickupNeverAlreadyHeld` | webmidtermhw/src/main/java/com/webmidtermhw/controller/LibraryWebService.java:77-89 | On a consistent store the already-held check can never fire. It is defensive, because an available book has no open loan at all. |
| `Library.PickupSuccess` | webmidtermhw/src/main/java/com/webmidtermhw/controller/LibraryWebService.java:92-106 | A successful pick-up appends exactly one record, which is open and for (book, user). Earlier records are kept. The book becomes unavailable with its other fields unchanged. Other books, categories and the book counter stay the same. |
| `Library.PickupLeavesOneOpenLoan` | webmidtermhw/src/main/java/com/webmidtermhw/controller/LibraryWebService.java:92-104 | After a successful pick-up on a consistent store the book has exactly one open loan. |
| `Library.PickupTwiceUnavailable` | webmidtermhw/src/main/java/com/webmidtermhw/controller/LibraryWebService.java:77-78 | After a successful pick-up, any second pick-up of the same book, by anyone, gives Unavailable and changes nothing. |
| `Library.PickupPreservesConsistent` | webmidtermhw/src/main/java/com/webmidtermhw/controller/LibraryWebService.java:92-104 | Every pick-up outcome keeps the invariant: at most one open loan per book, availability matching open loans, references and ids well formed. |
| `Library.DropOffUnknownBook` | webmidtermhw/src/main/java/com/webmidtermhw/controller/LibraryWebService.java:113-116 | An unknown book id gives NotFound for any user, and the store is unchanged. |
| `Library.DropOffUnauthorized` | webmidtermhw/src/main/java/com/webmidtermhw/controller/LibraryWebService.java:119-122 | Dropping off an existing book with no logged-in user gives Unauthorized, and the store is unchanged. |
| `Library.DropOffNoActiveLoan` | webmidtermhw/src/main/java/com/webmidtermhw/controller/LibraryWebService.java:125-127 | If the user holds no open loan of the book, the result is NoActiveLoan and nothing changes. This covers another user's loan, a book never picked and a book already returned. |
| `Library.DropOffSucceedsIff` | webmidtermhw/src/main/java/com/webmidtermhw/controller/LibraryWebService.java:113-127 | A drop-off succeeds exactly when the book exists, a user is logged in, and that user holds an open loan of the book. |
| `Library.DropOffSuccess` | webmidtermhw/src/main/java/com/webmidtermhw/controller/LibraryWebService.java:129-139 | A successful drop-off closes one open loan of (book, user) and keeps its other fields. Every other record keeps its value and the number of records is unchanged. The book becomes available and other books, categories and counters stay the same. |
| `Library.DropOffTwice` | webmidtermhw/src/main/java/com/webmidtermhw/controller/LibraryWebService.java:125-137 | On a consistent store, a second drop-off right after a successful one, by the same user, gives NoActiveLoan and changes nothing. |
| `Library.DropOffPreservesConsistent` | webmidtermhw/src/main/java/com/webmidtermhw/controller/LibraryWebService.java:129-137 | Every drop-off outcome keeps the invariant. |
| `Library.DropOffLeavesNoCurrentPick` | webmidtermhw/src/main/java/com/webmidtermhw/controller/LibraryWebService.java:129-151 | After a successful drop-off on a consistent store, the user's current picks contain no loan of that book. |
| `Library.StepsKeepHistory` | webmidtermhw/src/main/java/com/webmidtermhw/controller/LibraryWebService.java:92-137 | No endpoint removes a loan record or changes its id, book, user or pick date. No endpoint reopens a closed record. |
| `Library.CurrentPicks` | webmidtermhw/src/main/java/com/webmidtermhw/controller/LibraryWebService.java:143-152 | With no logged-in user the answer is Unauthorized. Otherwise it is exactly that user's open loans. |
| `Library.UserHistory` | webmidtermhw/src/main/java/com/webmidtermhw/controller/LibraryWebService.java:155-164 | With no logged-in user the answer is Unauthorized. Otherwise it is exactly all of that user's loans. |
| `Library.CurrentPicksWithinHistory` | webmidtermhw/src/main/java/com/webmidtermhw/controller/LibraryWebService.java:143-164 | Every current pick of a user is also in that user's history. |
| `Library.PickupShowsInCurrentPicks` | webmidtermhw/src/main/java/com/webmidtermhw/controller/LibraryWebService.java:92-151 | The loan a successful pick-up opens appears in the user's current picks and in the user's history. |
| `Library.FirstMatch` | webmidtermhw/src/main/java/com/webmidtermhw/controller/LibraryWebService.java:173 | The result, if any, is a stored book that matches, and no lower id matches. No result means no book in the range matches. |
| `Library.FindByNameAndCategoryId` | webmidtermhw/src/main/java/com/webmidtermhw/controller/LibraryWebService.java:167-175 | An unknown category gives NotFound. Otherwise the result is a stored book with that name and category, or none when no stored book matches. |
| `Library.FindByNameAndCategoryIdAndAuthor` | webmidtermhw/src/main/java/com/webmidtermhw/controller/LibraryWebService.java:178-186 | The same as the search above, with the author also required to match. |
| `Controller.LibraryWebService.CreateCategory` | webmidtermhw/src/main/java/com/webmidtermhw/controller/LibraryWebService.java:44-47 | It returns the new category id. The new state is `AfterCreateCategory` of the old one, and `Valid()` is kept. |
| `Controller.LibraryWebService.CreateBook` | webmidtermhw/src/main/java/com/webmidtermhw/controller/LibraryWebService.java:56-65 | It answers NotFound for an unknown category. Otherwise it returns the new id, whose book is stored available. The new state is `AfterCreateBook` of the old one, and `Valid()` is kept. |
| `Controller.LibraryWebService.PickupBook` | webmidtermhw/src/main/java/com/webmidtermhw/controller/LibraryWebService.java:68-107 | The status is `PickupStatus` and the new state is `AfterPickup` of the old state. `Valid()` is kept. |
| `Controller.LibraryWebService.DropOffBook` | webmidtermhw/src/main/java/com/webmidtermhw/controller/LibraryWebService.java:110-140 | The status is `DropOffStatus` and the new state is `AfterDropOff` of the old state. `Valid()` is kept. |
| `Scenarios.LendingLifeCycle` | webmidtermhw/src/main/java/com/webmidtermhw/controller/LibraryWebService.java:68-140 | Take a consistent store with an available book and two users A and B. A's pick-up succeeds. B's pick-up is then Unavailable and B's drop-off is NoActiveLoan, and neither changes anything. A's drop-off succeeds and makes the book available. A's second drop-off is NoActiveLoan. |
| `Scenarios.DuneScenario` | webmidtermhw/src/main/java/com/webmidtermhw/controller/LibraryWebService.java:56-140 | A category and one book are created. Then: A picks it up (Ok), B's pick-up is Unavailable, B's drop-off is NoActiveLoan, A's drop-off is Ok, and A's second drop-off is NoActiveLoan. The book ends available, and a book in an unknown category is NotFound. |

## Left out

- The Spring layer is not modelled: routing, annotations, `ResponseEntity` and the message bodies. Each response is a `Status` or a `Reply<T>`.
- Resolving the logged-in user is not modelled: the security context, the `UserDetails` cast and the lookup by e-mail. The user is a parameter, and `None` stands for every case in which that lookup yields no user.
- `listBookCategories` and `listAllBooks` are not modelled. They return repository contents unchanged, here the `categories` and `books` fields.
- The category's name and the `BookModel` request class are not part of this model. A category is only an id. A book is created from its name, author and category id.
- `createCategory` always gets a fresh id here. A request body that carries an existing id, which the repository's save would treat as an update, is not modelled.
- The pick date comes from the wall clock, so it is a parameter here.
- Persistence is left out. Repositories are in-memory maps and sequences, and each request is one atomic step. The read-then-write race between concurrent pick-ups is outside the model, and so are store failures and rollback.
- Identifiers are unbounded `nat`s. Overflow of the 64-bit ids is not modelled.
- The open-loan lookup returns a single record. If two open records matched, the repository would raise an error. The model returns the last matching record instead. Under `Consistent` at most one can match, so the choice does not matter there.
- Library.FirstMatch: the repository's "first" match is decided by the database and is not visible in the source. The model returns the matching book with the lowest id.
- Library.FindByNameAndCategoryId: the "no book found" case is stated only for well-formed stores, where every book id is below the book counter the scan stops at.
- Library.FindByNameAndCategoryIdAndAuthor: the "no book found" case is restricted in the same way.
- The searches return the found book's id rather than the book entity. The entity is `books[id]`.
- A successful pick-up answers only "Book picked" in the code. It does not return the new loan record's id, and the model follows the code.
- The code answers the already-held refusal with 404 (`AlreadyHeld`), not with a conflict status. The model follows the code.
