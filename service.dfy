/** The web service's mutating endpoints, as a class whose fields stand for the
    repositories. Each request is one atomic step. */
module Controller {
  import opened LibraryTypes
  import opened Loans
  import opened Library

  class LibraryWebService {
    var books: map<BookId, Book>
    var loans: seq<PickedBook>
    var categories: set<CategoryId>
    var nextBookId: nat
    var nextLoanId: nat
    var nextCategoryId: nat

    /** The stored state as a value. */
    function State(): Store
      reads this
    {
      Store(books, loans, categories, nextBookId, nextLoanId, nextCategoryId)
    }

    ghost predicate Valid()
      reads this
    {
      Consistent(State())
    }

    constructor ()
      ensures State() == EmptyStore() && Valid()
    {
      books, loans, categories := map[], [], {};
      nextBookId, nextLoanId, nextCategoryId := 0, 0, 0;
    }

    /** Saves a new category and answers with its id. */
    method CreateCategory() returns (id: CategoryId)
      modifies this
      ensures id == old(nextCategoryId) && id in categories
      ensures State() == AfterCreateCategory(old(State()))
      ensures old(Valid()) ==> Valid()
    {
      ghost var s0 := State();
      id := nextCategoryId;
      categories := categories + {id};
      nextCategoryId := nextCategoryId + 1;
      if Consistent(s0) {
        CreateCategoryPreservesConsistent(s0);
      }
    }

    /** Saves a new, available book in a known category and answers with its id. */
    method CreateBook(name: string, author: string, categoryId: CategoryId) returns (reply: Reply<BookId>)
      modifies this
      ensures reply == if categoryId in old(categories) then Success(old(nextBookId)) else Failure(NotFound)
      ensures reply.Success? ==> reply.value in books && books[reply.value] == Book(name, author, categoryId, true)
      ensures State() == AfterCreateBook(old(State()), name, author, categoryId)
      ensures old(Valid()) ==> Valid()
    {
      ghost var s0 := State();
      if categoryId !in categories {
        return Failure(NotFound);
      }
      var id := nextBookId;
      books := books[id := Book(name, author, categoryId, true)];
      nextBookId := nextBookId + 1;
      reply := Success(id);
      if Consistent(s0) {
        CreateBookPreservesConsistent(s0, name, author, categoryId);
      }
    }

    /** The logged-in user (if any) picks up a book, at time `pickDate`. */
    method PickupBook(bookId: BookId, user: Option<UserId>, pickDate: nat) returns (status: Status)
      modifies this
      ensures status == PickupStatus(old(State()), bookId, user)
      ensures State() == AfterPickup(old(State()), bookId, user, pickDate)
      ensures old(Valid()) ==> Valid()
    {
      ghost var s0 := State();
      if bookId !in books {
        return NotFound;
      }
      var book := books[bookId];
      if !book.available {
        return Unavailable;
      }
      if user.None? {
        return Unauthorized;
      }
      var held := FindOpenLoan(loans, bookId, user.value);
      if held.Some? {
        return AlreadyHeld;
      }
      loans := loans + [PickedBook(nextLoanId, bookId, user.value, pickDate, false)];
      nextLoanId := nextLoanId + 1;
      books := books[bookId := book.(available := false)];
      status := Ok;
      if Consistent(s0) {
        PickupPreservesConsistent(s0, bookId, user, pickDate);
      }
    }

    /** The logged-in user (if any) drops off a book. */
    method DropOffBook(bookId: BookId, user: Option<UserId>) returns (status: Status)
      modifies this
      ensures status == DropOffStatus(old(State()), bookId, user)
      ensures State() == AfterDropOff(old(State()), bookId, user)
      ensures old(Valid()) ==> Valid()
    {
      ghost var s0 := State();
      if bookId !in books {
        return NotFound;
      }
      if user.None? {
        return Unauthorized;
      }
      var held := FindOpenLoan(loans, bookId, user.value);
      if held.None? {
        return NoActiveLoan;
      }
      var i := held.value;
      loans := loans[i := loans[i].(droppedOff := true)];
      books := books[bookId := books[bookId].(available := true)];
      status := Ok;
      if Consistent(s0) {
        DropOffPreservesConsistent(s0, bookId, user);
      }
    }
  }
}
