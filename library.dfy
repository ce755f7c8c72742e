/** The lending state machine of the library web service, on values:
    the stored catalogue and loan records, the ordered checks of each
    endpoint, the effect of a successful request, the read-only queries,
    and the consistency invariant the mutating endpoints preserve. */
module Library {
  import opened LibraryTypes
  import opened Loans

  /** Everything the repositories hold, plus the next identifiers the store hands out. */
  datatype Store = Store(
    books: map<BookId, Book>,
    loans: seq<PickedBook>,
    categories: set<CategoryId>,
    nextBookId: nat,
    nextLoanId: nat,
    nextCategoryId: nat)

  // ---------------------------------------------------------------------------
  // Invariant

  /** Identifiers are below their counters, loan ids increase along the records,
      and every reference points at a stored entity. */
  ghost predicate WellFormed(s: Store)
  {
    && (forall id :: id in s.books ==> id < s.nextBookId && s.books[id].categoryId in s.categories)
    && (forall c :: c in s.categories ==> c < s.nextCategoryId)
    && (forall i :: 0 <= i < |s.loans| ==> s.loans[i].bookId in s.books && s.loans[i].id < s.nextLoanId)
    && (forall i, j :: 0 <= i < j < |s.loans| ==> s.loans[i].id < s.loans[j].id)
  }

  /** No book has two open loans at once. */
  ghost predicate AtMostOneOpenLoan(s: Store)
  {
    forall b :: b in s.books ==> OpenLoanCount(s.loans, b) <= 1
  }

  /** A book is available exactly when no open loan references it. */
  ghost predicate AvailabilityMatchesLoans(s: Store)
  {
    forall b :: b in s.books ==> (s.books[b].available <==> OpenLoanCount(s.loans, b) == 0)
  }

  ghost predicate Consistent(s: Store)
  {
    WellFormed(s) && AtMostOneOpenLoan(s) && AvailabilityMatchesLoans(s)
  }

  /** Loan records are never removed or rewritten, and a closed one is never reopened. */
  ghost predicate HistoryKept(before: seq<PickedBook>, after: seq<PickedBook>)
  {
    && |before| <= |after|
    && forall i :: 0 <= i < |before| ==>
         && after[i].(droppedOff := before[i].droppedOff) == before[i]
         && (before[i].droppedOff ==> after[i].droppedOff)
  }

  /** The store before any request. */
  function EmptyStore(): Store
  {
    Store(map[], [], {}, 0, 0, 0)
  }

  lemma EmptyStoreConsistent()
    ensures Consistent(EmptyStore())
  {
  }

  // ---------------------------------------------------------------------------
  // Creating categories and books

  /** Saving a new category: it receives the next category id. */
  function AfterCreateCategory(s: Store): Store
  {
    s.(categories := s.categories + {s.nextCategoryId}, nextCategoryId := s.nextCategoryId + 1)
  }

  function CreateBookStatus(s: Store, categoryId: CategoryId): Status
  {
    if categoryId !in s.categories then NotFound else Ok
  }

  /** Saving a new book: it receives the next book id and is always available. */
  function AfterCreateBook(s: Store, name: string, author: string, categoryId: CategoryId): Store
  {
    if CreateBookStatus(s, categoryId) != Ok then s
    else s.(books := s.books[s.nextBookId := Book(name, author, categoryId, true)],
            nextBookId := s.nextBookId + 1)
  }

  lemma CreateCategoryFresh(s: Store)
    requires WellFormed(s)
    ensures s.nextCategoryId !in s.categories
    ensures AfterCreateCategory(s).categories == s.categories + {s.nextCategoryId}
    ensures AfterCreateCategory(s).(categories := s.categories, nextCategoryId := s.nextCategoryId) == s
  {
  }

  lemma CreateBookUnknownCategory(s: Store, name: string, author: string, categoryId: CategoryId)
    requires categoryId !in s.categories
    ensures CreateBookStatus(s, categoryId) == NotFound
    ensures AfterCreateBook(s, name, author, categoryId) == s
  {
  }

  /** A created book is new, stored as given and available; nothing else changes. */
  lemma CreateBookStoresAvailable(s: Store, name: string, author: string, categoryId: CategoryId)
    requires WellFormed(s) && categoryId in s.categories
    ensures CreateBookStatus(s, categoryId) == Ok
    ensures var s' := AfterCreateBook(s, name, author, categoryId);
      && s.nextBookId !in s.books
      && s'.books.Keys == s.books.Keys + {s.nextBookId}
      && s'.books[s.nextBookId] == Book(name, author, categoryId, true)
      && (forall id :: id in s.books ==> s'.books[id] == s.books[id])
      && s'.(books := s.books, nextBookId := s.nextBookId) == s
  {
  }

  // ---------------------------------------------------------------------------
  // Picking up a book

  /** The checks of a pick-up, in the order the service makes them. */
  function PickupStatus(s: Store, bookId: BookId, user: Option<UserId>): Status
  {
    if bookId !in s.books then NotFound
    else if !s.books[bookId].available then Unavailable
    else if user.None? then Unauthorized
    else if FindOpenLoan(s.loans, bookId, user.value).Some? then AlreadyHeld
    else Ok
  }

  /** The store after a pick-up: a new open loan record and the book marked unavailable. */
  function AfterPickup(s: Store, bookId: BookId, user: Option<UserId>, pickDate: nat): Store
  {
    if PickupStatus(s, bookId, user) != Ok then s
    else s.(loans := s.loans + [PickedBook(s.nextLoanId, bookId, user.value, pickDate, false)],
            nextLoanId := s.nextLoanId + 1,
            books := s.books[bookId := s.books[bookId].(available := false)])
  }

  lemma PickupUnknownBook(s: Store, bookId: BookId, user: Option<UserId>, pickDate: nat)
    requires bookId !in s.books
    ensures PickupStatus(s, bookId, user) == NotFound
    ensures AfterPickup(s, bookId, user, pickDate) == s
  {
  }

  /** An unavailable book is refused to everyone, logged in or not. */
  lemma PickupUnavailable(s: Store, bookId: BookId, user: Option<UserId>, pickDate: nat)
    requires bookId in s.books && !s.books[bookId].available
    ensures PickupStatus(s, bookId, user) == Unavailable
    ensures AfterPickup(s, bookId, user, pickDate) == s
  {
  }

  lemma PickupUnauthorized(s: Store, bookId: BookId, pickDate: nat)
    requires bookId in s.books && s.books[bookId].available
    ensures PickupStatus(s, bookId, None) == Unauthorized
    ensures AfterPickup(s, bookId, None, pickDate) == s
  {
  }

  lemma PickupAlreadyHeld(s: Store, bookId: BookId, u: UserId, i: nat, pickDate: nat)
    requires bookId in s.books && s.books[bookId].available
    requires i < |s.loans| && OpenFor(s.loans[i], bookId, u)
    ensures PickupStatus(s, bookId, Some(u)) == AlreadyHeld
    ensures AfterPickup(s, bookId, Some(u), pickDate) == s
  {
  }

  /** The pick-up succeeds exactly when all four checks pass. */
  lemma PickupSucceedsIff(s: Store, bookId: BookId, user: Option<UserId>)
    ensures PickupStatus(s, bookId, user) == Ok <==>
      && bookId in s.books
      && s.books[bookId].available
      && user.Some?
      && forall i :: 0 <= i < |s.loans| ==> !OpenFor(s.loans[i], bookId, user.value)
  {
  }

  /** On a consistent store the already-held check never fires: an available
      book has no open loan at all. */
  lemma {:induction false} PickupNeverAlreadyHeld(s: Store, bookId: BookId, user: Option<UserId>)
    requires Consistent(s)
    ensures PickupStatus(s, bookId, user) != AlreadyHeld
  {
    if bookId in s.books && s.books[bookId].available && user.Some? {
      OpenLoanCountZero(s.loans, bookId);
    }
  }

  /** A successful pick-up appends one open loan of (book, user), marks the book
      unavailable, and changes no other book and no earlier record. */
  lemma PickupSuccess(s: Store, bookId: BookId, u: UserId, pickDate: nat)
    requires PickupStatus(s, bookId, Some(u)) == Ok
    ensures var s' := AfterPickup(s, bookId, Some(u), pickDate);
      && |s'.loans| == |s.loans| + 1
      && s'.loans[..|s.loans|] == s.loans
      && s'.loans[|s.loans|] == PickedBook(s.nextLoanId, bookId, u, pickDate, false)
      && s'.books.Keys == s.books.Keys
      && s'.books[bookId] == s.books[bookId].(available := false)
      && !s'.books[bookId].available
      && (forall b :: b in s.books && b != bookId ==> s'.books[b] == s.books[b])
      && s'.(loans := s.loans, books := s.books, nextLoanId := s.nextLoanId) == s
  {
  }

  /** After a successful pick-up on a consistent store, the book has exactly one open loan. */
  lemma {:induction false} PickupLeavesOneOpenLoan(s: Store, bookId: BookId, u: UserId, pickDate: nat)
    requires Consistent(s) && PickupStatus(s, bookId, Some(u)) == Ok
    ensures OpenLoanCount(AfterPickup(s, bookId, Some(u), pickDate).loans, bookId) == 1
  {
    var x := PickedBook(s.nextLoanId, bookId, u, pickDate, false);
    OpenLoanCountAppend(s.loans, x, bookId);
  }

  /** The second of two pick-ups of a book is refused as unavailable, whoever asks. */
  lemma PickupTwiceUnavailable(s: Store, bookId: BookId, u: UserId, other: Option<UserId>, d1: nat, d2: nat)
    requires PickupStatus(s, bookId, Some(u)) == Ok
    ensures var s' := AfterPickup(s, bookId, Some(u), d1);
      PickupStatus(s', bookId, other) == Unavailable && AfterPickup(s', bookId, other, d2) == s'
  {
  }

  lemma {:induction false} PickupPreservesConsistent(s: Store, bookId: BookId, user: Option<UserId>, pickDate: nat)
    requires Consistent(s)
    ensures Consistent(AfterPickup(s, bookId, user, pickDate))
  {
    if PickupStatus(s, bookId, user) == Ok {
      var s' := AfterPickup(s, bookId, user, pickDate);
      var x := PickedBook(s.nextLoanId, bookId, user.value, pickDate, false);
      assert s'.loans == s.loans + [x];
      forall b | b in s'.books
        ensures OpenLoanCount(s'.loans, b) == OpenLoanCount(s.loans, b) + (if b == bookId then 1 else 0)
      {
        OpenLoanCountAppend(s.loans, x, b);
      }
      assert WellFormed(s') by {
        forall i, j | 0 <= i < j < |s'.loans| ensures s'.loans[i].id < s'.loans[j].id {
          assert s'.loans[i] == s.loans[i];
        }
      }
    }
  }

  // ---------------------------------------------------------------------------
  // Dropping off a book

  /** The checks of a drop-off, in the order the service makes them. */
  function DropOffStatus(s: Store, bookId: BookId, user: Option<UserId>): Status
  {
    if bookId !in s.books then NotFound
    else if user.None? then Unauthorized
    else if FindOpenLoan(s.loans, bookId, user.value).None? then NoActiveLoan
    else Ok
  }

  /** The store after a drop-off: the user's open loan closed and the book available. */
  function AfterDropOff(s: Store, bookId: BookId, user: Option<UserId>): Store
  {
    if DropOffStatus(s, bookId, user) != Ok then s
    else
      var i := FindOpenLoan(s.loans, bookId, user.value).value;
      s.(loans := s.loans[i := s.loans[i].(droppedOff := true)],
         books := s.books[bookId := s.books[bookId].(available := true)])
  }

  lemma DropOffUnknownBook(s: Store, bookId: BookId, user: Option<UserId>)
    requires bookId !in s.books
    ensures DropOffStatus(s, bookId, user) == NotFound
    ensures AfterDropOff(s, bookId, user) == s
  {
  }

  lemma DropOffUnauthorized(s: Store, bookId: BookId)
    requires bookId in s.books
    ensures DropOffStatus(s, bookId, None) == Unauthorized
    ensures AfterDropOff(s, bookId, None) == s
  {
  }

  /** Without an open loan of its own for the book (another user's loan, a book never
      picked, a book already returned) the user is refused and nothing changes. */
  lemma DropOffNoActiveLoan(s: Store, bookId: BookId, u: UserId)
    requires bookId in s.books
    requires forall i :: 0 <= i < |s.loans| ==> !OpenFor(s.loans[i], bookId, u)
    ensures DropOffStatus(s, bookId, Some(u)) == NoActiveLoan
    ensures AfterDropOff(s, bookId, Some(u)) == s
  {
  }

  /** The drop-off succeeds exactly when the book exists, a user is logged in and
      that user holds an open loan of the book. */
  lemma DropOffSucceedsIff(s: Store, bookId: BookId, user: Option<UserId>)
    ensures DropOffStatus(s, bookId, user) == Ok <==>
      && bookId in s.books
      && user.Some?
      && exists i :: 0 <= i < |s.loans| && OpenFor(s.loans[i], bookId, user.value)
  {
    if bookId in s.books && user.Some? && FindOpenLoan(s.loans, bookId, user.value).Some? {
      var i := FindOpenLoan(s.loans, bookId, user.value).value;
      assert OpenFor(s.loans[i], bookId, user.value);
    }
  }

  /** A successful drop-off closes one open loan of (book, user), keeping its other
      fields, marks the book available, and changes no other record and no other book. */
  lemma DropOffSuccess(s: Store, bookId: BookId, u: UserId)
    requires DropOffStatus(s, bookId, Some(u)) == Ok
    ensures var s' := AfterDropOff(s, bookId, Some(u));
      && |s'.loans| == |s.loans|
      && (exists i :: 0 <= i < |s.loans| && OpenFor(s.loans[i], bookId, u)
            && s'.loans[i] == s.loans[i].(droppedOff := true)
            && forall j :: 0 <= j < |s.loans| && j != i ==> s'.loans[j] == s.loans[j])
      && s'.books.Keys == s.books.Keys
      && s'.books[bookId] == s.books[bookId].(available := true)
      && (forall b :: b in s.books && b != bookId ==> s'.books[b] == s.books[b])
      && s'.(loans := s.loans, books := s.books) == s
  {
    var i := FindOpenLoan(s.loans, bookId, u).value;
    assert OpenFor(s.loans[i], bookId, u);
  }

  /** Of two drop-offs in a row by the same user, the second is refused. */
  lemma {:induction false} DropOffTwice(s: Store, bookId: BookId, u: UserId)
    requires Consistent(s) && DropOffStatus(s, bookId, Some(u)) == Ok
    ensures var s' := AfterDropOff(s, bookId, Some(u));
      DropOffStatus(s', bookId, Some(u)) == NoActiveLoan && AfterDropOff(s', bookId, Some(u)) == s'
  {
    var s' := AfterDropOff(s, bookId, Some(u));
    DropOffPreservesConsistent(s, bookId, Some(u));
    OpenLoanCountZero(s'.loans, bookId);
  }

  lemma {:induction false} DropOffPreservesConsistent(s: Store, bookId: BookId, user: Option<UserId>)
    requires Consistent(s)
    ensures Consistent(AfterDropOff(s, bookId, user))
  {
    if DropOffStatus(s, bookId, user) == Ok {
      var s' := AfterDropOff(s, bookId, user);
      var i := FindOpenLoan(s.loans, bookId, user.value).value;
      var x := s.loans[i].(droppedOff := true);
      assert s'.loans == s.loans[i := x];
      forall b | b in s'.books
        ensures OpenLoanCount(s'.loans, b) + (if b == bookId then 1 else 0) == OpenLoanCount(s.loans, b)
      {
        OpenLoanCountUpdate(s.loans, i, x, b);
      }
      OpenLoanCountZero(s.loans, bookId);
      assert WellFormed(s') by {
        forall j | 0 <= j < |s'.loans| ensures s'.loans[j].id == s.loans[j].id && s'.loans[j].bookId == s.loans[j].bookId {
        }
      }
    }
  }

  /** After a successful drop-off on a consistent store, the user holds no open loan of the book. */
  lemma {:induction false} DropOffLeavesNoCurrentPick(s: Store, bookId: BookId, u: UserId)
    requires Consistent(s) && DropOffStatus(s, bookId, Some(u)) == Ok
    ensures var s' := AfterDropOff(s, bookId, Some(u));
      CurrentPicks(s', Some(u)).Success? && forall l :: l in CurrentPicks(s', Some(u)).value ==> l.bookId != bookId
  {
    var s' := AfterDropOff(s, bookId, Some(u));
    DropOffPreservesConsistent(s, bookId, Some(u));
    OpenLoanCountZero(s'.loans, bookId);
    forall l | l in CurrentPicks(s', Some(u)).value ensures l.bookId != bookId {
      var i :| 0 <= i < |s'.loans| && s'.loans[i] == l;
      assert !OpenOn(s'.loans[i], bookId);
    }
  }

  lemma {:induction false} CreateBookPreservesConsistent(s: Store, name: string, author: string, categoryId: CategoryId)
    requires Consistent(s)
    ensures Consistent(AfterCreateBook(s, name, author, categoryId))
  {
    if CreateBookStatus(s, categoryId) == Ok {
      OpenLoanCountZero(s.loans, s.nextBookId);
    }
  }

  lemma CreateCategoryPreservesConsistent(s: Store)
    requires Consistent(s)
    ensures Consistent(AfterCreateCategory(s))
  {
  }

  /** No mutating endpoint removes, rewrites or reopens a loan record. */
  lemma StepsKeepHistory(s: Store, bookId: BookId, user: Option<UserId>, pickDate: nat,
                         name: string, author: string, categoryId: CategoryId)
    ensures HistoryKept(s.loans, AfterPickup(s, bookId, user, pickDate).loans)
    ensures HistoryKept(s.loans, AfterDropOff(s, bookId, user).loans)
    ensures HistoryKept(s.loans, AfterCreateBook(s, name, author, categoryId).loans)
    ensures HistoryKept(s.loans, AfterCreateCategory(s).loans)
  {
    if PickupStatus(s, bookId, user) == Ok {
      var s' := AfterPickup(s, bookId, user, pickDate);
      assert forall i :: 0 <= i < |s.loans| ==> s'.loans[i] == s.loans[i];
    }
  }

  // ---------------------------------------------------------------------------
  // Read-only queries

  /** The logged-in user's open loans. */
  function CurrentPicks(s: Store, user: Option<UserId>): (r: Reply<seq<PickedBook>>)
    ensures user.None? <==> r == Failure(Unauthorized)
    ensures user.Some? ==> r.Success? && forall l :: l in r.value <==> l in s.loans && l.userId == user.value && !l.droppedOff
  {
    if user.None? then Failure(Unauthorized) else Success(OpenLoansOf(s.loans, user.value))
  }

  /** Every loan record of the logged-in user, open or closed. */
  function UserHistory(s: Store, user: Option<UserId>): (r: Reply<seq<PickedBook>>)
    ensures user.None? <==> r == Failure(Unauthorized)
    ensures user.Some? ==> r.Success? && forall l :: l in r.value <==> l in s.loans && l.userId == user.value
  {
    if user.None? then Failure(Unauthorized) else Success(LoansOf(s.loans, user.value))
  }

  lemma CurrentPicksWithinHistory(s: Store, u: UserId)
    ensures forall l :: l in CurrentPicks(s, Some(u)).value ==> l in UserHistory(s, Some(u)).value
  {
  }

  /** The loan a successful pick-up opens shows among the user's current picks and history. */
  lemma PickupShowsInCurrentPicks(s: Store, bookId: BookId, u: UserId, pickDate: nat)
    requires PickupStatus(s, bookId, Some(u)) == Ok
    ensures var s' := AfterPickup(s, bookId, Some(u), pickDate);
      var l := PickedBook(s.nextLoanId, bookId, u, pickDate, false);
      l in CurrentPicks(s', Some(u)).value && l in UserHistory(s', Some(u)).value
  {
    var s' := AfterPickup(s, bookId, Some(u), pickDate);
    assert s'.loans[|s.loans|] == PickedBook(s.nextLoanId, bookId, u, pickDate, false);
  }

  /** A book matches a search by name and category, and by author when one is given. */
  predicate Matches(book: Book, name: string, categoryId: CategoryId, author: Option<string>)
  {
    book.name == name && book.categoryId == categoryId && (author.None? || book.author == author.value)
  }

  /** The lowest book id in [from, to) whose book matches, if any. */
  function FirstMatch(books: map<BookId, Book>, name: string, categoryId: CategoryId, author: Option<string>,
                      from: nat, to: nat): (r: Option<BookId>)
    decreases to - from
    ensures r.Some? ==> from <= r.value < to && r.value in books && Matches(books[r.value], name, categoryId, author)
    ensures r.Some? ==> forall id :: from <= id < r.value && id in books ==> !Matches(books[id], name, categoryId, author)
    ensures r.None? ==> forall id :: from <= id < to && id in books ==> !Matches(books[id], name, categoryId, author)
  {
    if from >= to then None
    else if from in books && Matches(books[from], name, categoryId, author) then Some(from)
    else FirstMatch(books, name, categoryId, author, from + 1, to)
  }

  /** Search by name within a category: an unknown category is refused; otherwise
      some matching book, or none when no book matches. */
  function FindByNameAndCategoryId(s: Store, name: string, categoryId: CategoryId): (r: Reply<Option<BookId>>)
    ensures categoryId !in s.categories <==> r == Failure(NotFound)
    ensures r.Success? && r.value.Some? ==>
      r.value.value in s.books && s.books[r.value.value].name == name && s.books[r.value.value].categoryId == categoryId
    ensures WellFormed(s) && r == Success(None) ==>
      forall id :: id in s.books ==> !(s.books[id].name == name && s.books[id].categoryId == categoryId)
  {
    if categoryId !in s.categories then Failure(NotFound)
    else Success(FirstMatch(s.books, name, categoryId, None, 0, s.nextBookId))
  }

  /** Search by name and author within a category, with the same refusal. */
  function FindByNameAndCategoryIdAndAuthor(s: Store, name: string, categoryId: CategoryId, author: string)
    : (r: Reply<Option<BookId>>)
    ensures categoryId !in s.categories <==> r == Failure(NotFound)
    ensures r.Success? && r.value.Some? ==>
      r.value.value in s.books && Matches(s.books[r.value.value], name, categoryId, Some(author))
    ensures WellFormed(s) && r == Success(None) ==>
      forall id :: id in s.books ==>
        !(s.books[id].name == name && s.books[id].categoryId == categoryId && s.books[id].author == author)
  {
    if categoryId !in s.categories then Failure(NotFound)
    else Success(FirstMatch(s.books, name, categoryId, Some(author), 0, s.nextBookId))
  }
}
