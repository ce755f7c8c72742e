/** Queries over the sequence of loan records (the picked-book repository). */
module Loans {
  import opened LibraryTypes

  /** `l` is an open loan of book `b`. */
  predicate OpenOn(l: PickedBook, b: BookId)
  {
    l.bookId == b && !l.droppedOff
  }

  /** `l` is an open loan of book `b` held by user `u`. */
  predicate OpenFor(l: PickedBook, b: BookId, u: UserId)
  {
    OpenOn(l, b) && l.userId == u
  }

  /** Number of open loans of book `b`. */
  function OpenLoanCount(loans: seq<PickedBook>, b: BookId): nat
  {
    if loans == [] then 0
    else OpenLoanCount(loans[..|loans| - 1], b) + (if OpenOn(loans[|loans| - 1], b) then 1 else 0)
  }

  /** The open loan of (book, user), by position, if there is one:
      the lookup by book, user and drop-off flag false. */
  function FindOpenLoan(loans: seq<PickedBook>, b: BookId, u: UserId): (r: Option<nat>)
    ensures r.Some? ==> r.value < |loans| && OpenFor(loans[r.value], b, u)
    ensures r.None? ==> forall i :: 0 <= i < |loans| ==> !OpenFor(loans[i], b, u)
  {
    if loans == [] then None
    else if OpenFor(loans[|loans| - 1], b, u) then Some(|loans| - 1)
    else FindOpenLoan(loans[..|loans| - 1], b, u)
  }

  /** The open loans of user `u`, in record order: the lookup by user and drop-off flag false. */
  function OpenLoansOf(loans: seq<PickedBook>, u: UserId): (r: seq<PickedBook>)
    ensures |r| <= |loans|
    ensures forall l :: l in r <==> l in loans && l.userId == u && !l.droppedOff
  {
    if loans == [] then []
    else (if loans[0].userId == u && !loans[0].droppedOff then [loans[0]] else []) + OpenLoansOf(loans[1..], u)
  }

  /** Every loan of user `u`, open or closed, in record order: the lookup by user. */
  function LoansOf(loans: seq<PickedBook>, u: UserId): (r: seq<PickedBook>)
    ensures |r| <= |loans|
    ensures forall l :: l in r <==> l in loans && l.userId == u
  {
    if loans == [] then []
    else (if loans[0].userId == u then [loans[0]] else []) + LoansOf(loans[1..], u)
  }

  lemma OpenLoanCountAppend(loans: seq<PickedBook>, x: PickedBook, b: BookId)
    ensures OpenLoanCount(loans + [x], b) == OpenLoanCount(loans, b) + (if OpenOn(x, b) then 1 else 0)
  {
    assert (loans + [x])[..|loans|] == loans;
  }

  lemma {:induction false} OpenLoanCountUpdate(loans: seq<PickedBook>, i: nat, x: PickedBook, b: BookId)
    requires i < |loans|
    ensures OpenLoanCount(loans[i := x], b) + (if OpenOn(loans[i], b) then 1 else 0)
         == OpenLoanCount(loans, b) + (if OpenOn(x, b) then 1 else 0)
  {
    var n := |loans| - 1;
    if i == n {
      assert loans[i := x][..n] == loans[..n];
    } else {
      assert loans[i := x][..n] == loans[..n][i := x];
      OpenLoanCountUpdate(loans[..n], i, x, b);
    }
  }

  /** No open loan of `b` exactly when the count is zero. */
  lemma {:induction false} OpenLoanCountZero(loans: seq<PickedBook>, b: BookId)
    ensures OpenLoanCount(loans, b) == 0 <==> forall i :: 0 <= i < |loans| ==> !OpenOn(loans[i], b)
  {
    if loans != [] {
      var n := |loans| - 1;
      OpenLoanCountZero(loans[..n], b);
      assert forall i :: 0 <= i < n ==> loans[..n][i] == loans[i];
    }
  }

  /** Two distinct open loans of `b` make the count at least two. */
  lemma {:induction false} OpenLoanCountTwo(loans: seq<PickedBook>, b: BookId, i: nat, j: nat)
    requires i < j < |loans| && OpenOn(loans[i], b) && OpenOn(loans[j], b)
    ensures OpenLoanCount(loans, b) >= 2
  {
    var n := |loans| - 1;
    assert loans[..n][i] == loans[i];
    if j == n {
      OpenLoanCountZero(loans[..n], b);
    } else {
      assert loans[..n][j] == loans[j];
      OpenLoanCountTwo(loans[..n], b, i, j);
    }
  }

  /** With at most one open loan of `b`, an open loan of `b` is unique. */
  lemma OpenLoanUnique(loans: seq<PickedBook>, b: BookId, i: nat, j: nat)
    requires OpenLoanCount(loans, b) <= 1
    requires i < |loans| && j < |loans| && OpenOn(loans[i], b) && OpenOn(loans[j], b)
    ensures i == j
  {
    if i < j {
      OpenLoanCountTwo(loans, b, i, j);
    } else if j < i {
      OpenLoanCountTwo(loans, b, j, i);
    }
  }
}
