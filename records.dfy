/** The three tables of the library database and the values that cross the
    request boundary. Timestamps are integer milliseconds. */
module Records {

  datatype Option<T> = None | Some(value: T)

  /** A row of the books table. */
  datatype Book = Book(
    id: int,
    title: string,
    author: string,
    isbn: string,
    publicationYear: int,
    totalCopies: int,
    availableCopies: int)

  /** A row of the members table. */
  datatype Member = Member(
    id: int,
    name: string,
    email: string,
    phone: string,
    address: string)

  /** A row of the borrowings table. The status column is free text; the
      operations modelled here write only `Borrowed`; the return route, left
      out, writes `Returned`. */
  datatype Borrowing = Borrowing(
    id: int,
    bookId: int,
    memberId: int,
    borrowDate: int,
    dueDate: int,
    returnDate: Option<int>,
    status: string)

  const Borrowed: string := "borrowed"
  const Returned: string := "returned"

  function BookKey(b: Book): int { b.id }
  function MemberKey(m: Member): int { m.id }
  function BorrowingKey(b: Borrowing): int { b.id }

  /** An HTTP reply: a status code with either the entity or `{ error }`. */
  datatype Response<T> = Success(status: int, value: T) | Failure(status: int, error: string)

  /** What a page has after `await res.json()`: a JSON array, some other JSON
      value (the `{ error }` object of a failed request), or an exception. */
  datatype Fetched<T> = JsonArray(items: seq<T>) | JsonOther | Threw

  /** `Array.isArray(data) ? data : []`, with an exception also giving `[]`. */
  function ArrayOrEmpty<T>(res: Fetched<T>): seq<T>
  {
    if res.JsonArray? then res.items else []
  }
}
