/** Entities and response kinds of the library web service. */
module LibraryTypes {

  type BookId = nat
  type UserId = nat
  type CategoryId = nat
  type LoanId = nat

  datatype Option<T> = None | Some(value: T)

  /** A catalogue entry. `available` is false while some user holds the book. */
  datatype Book = Book(name: string, author: string, categoryId: CategoryId, available: bool)

  /** A loan record: opened at pick-up, closed (droppedOff) at drop-off.
      `pickDate` stands for the wall-clock time of the pick-up. */
  datatype PickedBook = PickedBook(id: LoanId, bookId: BookId, userId: UserId, pickDate: nat, droppedOff: bool)

  /** The outcome of a request, one constructor per distinct response of the service. */
  datatype Status = Ok | NotFound | Unavailable | Unauthorized | AlreadyHeld | NoActiveLoan

  /** The response of an endpoint that returns a body on success. */
  datatype Reply<T> = Success(value: T) | Failure(status: Status)

  /** The HTTP status code the service answers with. The already-held and the
      no-active-loan refusals share 404 with an unknown book. */
  function HttpCode(s: Status): (code: nat)
    ensures code == 200 <==> s == Ok
    ensures code == 451 <==> s == Unavailable
    ensures code == 401 <==> s == Unauthorized
    ensures code == 404 <==> s in {NotFound, AlreadyHeld, NoActiveLoan}
  {
    match s
    case Ok => 200
    case NotFound => 404
    case Unavailable => 451
    case Unauthorized => 401
    case AlreadyHeld => 404
    case NoActiveLoan => 404
  }
}
