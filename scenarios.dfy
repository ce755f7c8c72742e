/** A walk through the lending life cycle of one book, against the service class. */
module Scenarios {
  import opened LibraryTypes
  import opened Loans
  import opened Library
  import opened Controller

  /** One available book on a consistent store: A picks it up; B is refused it and cannot
      drop it off; A drops it off; A's second drop-off is refused; the book is available again. */
  lemma {:induction false} LendingLifeCycle(s: Store, book: BookId, a: UserId, b: UserId, d1: nat, d2: nat)
    requires Consistent(s) && book in s.books && s.books[book].available && a != b
    ensures PickupStatus(s, book, Some(a)) == Ok
    ensures var s1 := AfterPickup(s, book, Some(a), d1);
      && PickupStatus(s1, book, Some(b)) == Unavailable
      && AfterPickup(s1, book, Some(b), d2) == s1
      && DropOffStatus(s1, book, Some(b)) == NoActiveLoan
      && AfterDropOff(s1, book, Some(b)) == s1
      && DropOffStatus(s1, book, Some(a)) == Ok
      && var s2 := AfterDropOff(s1, book, Some(a));
         && s2.books[book].available
         && DropOffStatus(s2, book, Some(a)) == NoActiveLoan
  {
    PickupNeverAlreadyHeld(s, book, Some(a));
    var s1 := AfterPickup(s, book, Some(a), d1);
    PickupPreservesConsistent(s, book, Some(a), d1);
    PickupSuccess(s, book, a, d1);
    var n := |s.loans|;
    assert OpenFor(s1.loans[n], book, a);
    forall i | 0 <= i < |s1.loans| ensures !OpenFor(s1.loans[i], book, b) {
      if OpenFor(s1.loans[i], book, b) {
        OpenLoanUnique(s1.loans, book, i, n);
      }
    }
    DropOffNoActiveLoan(s1, book, b);
    DropOffSucceedsIff(s1, book, Some(a));
    DropOffSuccess(s1, book, a);
    DropOffTwice(s1, book, a);
  }

  /** A category and "Dune" are created; user A picks the book up, user B is refused it
      (451) and cannot drop it off (404), A drops it off, A's second drop-off is refused,
      and the book is available again. A book in an unknown category is refused (404). */
  method DuneScenario(userA: UserId, userB: UserId) returns (statuses: seq<Status>, availableAgain: bool)
    requires userA != userB
    ensures statuses == [Ok, Unavailable, NoActiveLoan, Ok, NoActiveLoan, NotFound]
    ensures availableAgain
  {
    var service := new LibraryWebService();
    var cat := service.CreateCategory();
    var created := service.CreateBook("Dune", "Frank Herbert", cat);
    var dune := created.value;
    ghost var st0 := service.State();
    LendingLifeCycle(st0, dune, userA, userB, 1, 2);
    var s1 := service.PickupBook(dune, Some(userA), 1);
    var s2 := service.PickupBook(dune, Some(userB), 2);
    var s3 := service.DropOffBook(dune, Some(userB));
    var s4 := service.DropOffBook(dune, Some(userA));
    var s5 := service.DropOffBook(dune, Some(userA));
    var unknown := service.CreateBook("Dune", "Frank Herbert", cat + 999);
    statuses := [s1, s2, s3, s4, s5, unknown.status];
    availableAgain := service.books[dune].available;
  }
}
