/** The lending store behind the REST routes: the books, members and
    borrowings tables, the two create operations, checkout, and the
    newest-first listings. A thrown database error is an input flag. */
module Store {
  import opened Records
  import opened Seqs

  /** The position of the book whose id is `id`, as `findUnique` looks it up. */
  function FindBook(books: seq<Book>, id: int): (r: Option<nat>)
    ensures r.Some? ==> r.value < |books| && books[r.value].id == id
    ensures r.None? ==> forall i :: 0 <= i < |books| ==> books[i].id != id
  {
    if books == [] then None
    else if books[0].id == id then Some(0)
    else match FindBook(books[1..], id)
      case None => None
      case Some(k) => Some(k + 1)
  }

  /** The availability guard of checkout: the book exists and has a free copy. */
  predicate CanCheckOut(books: seq<Book>, bookId: int)
  {
    match FindBook(books, bookId)
    case None => false
    case Some(i) => books[i].availableCopies > 0
  }

  /** With unique ids the guard passes exactly when some book with that id has a copy left. */
  lemma CanCheckOutIff(books: seq<Book>, bookId: int)
    requires StrictlyAscending(books, BookKey)
    ensures CanCheckOut(books, bookId) <==>
      exists i :: 0 <= i < |books| && books[i].id == bookId && books[i].availableCopies > 0
  {
    if i :| 0 <= i < |books| && books[i].id == bookId && books[i].availableCopies > 0 {
      var k := FindBook(books, bookId).value;
      assert k == i;
    }
  }

  /** The table after the decrement of checkout: book `i` has one copy fewer. */
  function TakeCopy(books: seq<Book>, i: nat): (r: seq<Book>)
    requires i < |books|
    ensures |r| == |books|
    ensures r[i].availableCopies == books[i].availableCopies - 1
    ensures r[i] == books[i].(availableCopies := r[i].availableCopies)
    ensures forall j :: 0 <= j < |books| && j != i ==> r[j] == books[j]
  {
    books[i := books[i].(availableCopies := books[i].availableCopies - 1)]
  }

  /** No book has more copies available than it owns. */
  predicate AvailableAtMostTotal(books: seq<Book>)
  {
    forall i :: 0 <= i < |books| ==> books[i].availableCopies <= books[i].totalCopies
  }

  /** Every book has between none and all of its copies available. */
  predicate CopiesInRange(books: seq<Book>)
  {
    forall i :: 0 <= i < |books| ==> 0 <= books[i].availableCopies <= books[i].totalCopies
  }

  /** Taking a copy that the guard has seen keeps every book in range. */
  lemma TakeCopyKeepsRange(books: seq<Book>, i: nat)
    requires i < |books| && books[i].availableCopies > 0
    ensures AvailableAtMostTotal(books) ==> AvailableAtMostTotal(TakeCopy(books, i))
    ensures CopiesInRange(books) ==> CopiesInRange(TakeCopy(books, i))
  {
  }

  /** A borrowing is returned exactly when it carries a return date. */
  predicate ReturnDateMatchesStatus(borrowings: seq<Borrowing>)
  {
    forall i :: 0 <= i < |borrowings| ==>
      (borrowings[i].status == Returned <==> borrowings[i].returnDate.Some?)
  }

  class LendingStore {
    var books: seq<Book>
    var members: seq<Member>
    var borrowings: seq<Borrowing>
    /** The autoincrement counters of the three tables. */
    var nextBookId: int
    var nextMemberId: int
    var nextBorrowingId: int

    /** Ids grow with creation and stay below each table's counter. */
    ghost predicate Valid()
      reads this
    {
      && StrictlyAscending(books, BookKey)
      && (forall i :: 0 <= i < |books| ==> books[i].id < nextBookId)
      && StrictlyAscending(members, MemberKey)
      && (forall i :: 0 <= i < |members| ==> members[i].id < nextMemberId)
      && StrictlyAscending(borrowings, BorrowingKey)
      && (forall i :: 0 <= i < |borrowings| ==> borrowings[i].id < nextBorrowingId)
      && ReturnDateMatchesStatus(borrowings)
    }

    /** An empty database whose ids start at 1. */
    constructor ()
      ensures Valid()
      ensures books == [] && members == [] && borrowings == []
      ensures nextBookId == 1 && nextMemberId == 1 && nextBorrowingId == 1
    {
      books, members, borrowings := [], [], [];
      nextBookId, nextMemberId, nextBorrowingId := 1, 1, 1;
    }

    /** `POST /api/books`: a new book whose copies are all available. */
    method CreateBook(title: string, author: string, isbn: string, publicationYear: int,
                      totalCopies: int, fails: bool)
      returns (res: Response<Book>)
      requires Valid()
      modifies this
      ensures Valid()
      ensures fails ==> res == Failure(500, "Failed to create book") && unchanged(this)
      ensures !fails ==>
        var b := Book(old(nextBookId), title, author, isbn, publicationYear, totalCopies, totalCopies);
        && res == Success(201, b)
        && books == old(books) + [b]
        && members == old(members) && borrowings == old(borrowings)
        && nextBookId == old(nextBookId) + 1
        && nextMemberId == old(nextMemberId) && nextBorrowingId == old(nextBorrowingId)
      ensures AvailableAtMostTotal(old(books)) ==> AvailableAtMostTotal(books)
      ensures CopiesInRange(old(books)) && totalCopies >= 0 ==> CopiesInRange(books)
    {
      if fails {
        res := Failure(500, "Failed to create book");
        return;
      }
      var b := Book(nextBookId, title, author, isbn, publicationYear, totalCopies, totalCopies);
      books := books + [b];
      nextBookId := nextBookId + 1;
      res := Success(201, b);
    }

    /** `POST /api/members`: a new member holding the given contact fields. */
    method CreateMember(name: string, email: string, phone: string, address: string, fails: bool)
      returns (res: Response<Member>)
      requires Valid()
      modifies this
      ensures Valid()
      ensures fails ==> res == Failure(500, "Failed to create member") && unchanged(this)
      ensures !fails ==>
        var m := Member(old(nextMemberId), name, email, phone, address);
        && res == Success(201, m)
        && members == old(members) + [m]
        && books == old(books) && borrowings == old(borrowings)
        && nextMemberId == old(nextMemberId) + 1
        && nextBookId == old(nextBookId) && nextBorrowingId == old(nextBorrowingId)
    {
      if fails {
        res := Failure(500, "Failed to create member");
        return;
      }
      var m := Member(nextMemberId, name, email, phone, address);
      members := members + [m];
      nextMemberId := nextMemberId + 1;
      res := Success(201, m);
    }

    /** `POST /api/borrowings`: check a copy of book `bookId` out to `memberId`.
        `lookupFails` is an exception before the transaction, `txFails` one
        inside it; the member is not looked up. */
    method Checkout(bookId: int, memberId: int, dueDate: int, now: int,
                    lookupFails: bool, txFails: bool)
      returns (res: Response<Borrowing>)
      requires Valid()
      modifies this
      ensures Valid()
      ensures lookupFails ==> res == Failure(500, "Failed to create borrowing") && unchanged(this)
      ensures !lookupFails && !CanCheckOut(old(books), bookId) ==>
        res == Failure(400, "Book is not available") && unchanged(this)
      ensures !lookupFails && CanCheckOut(old(books), bookId) && txFails ==>
        res == Failure(500, "Failed to create borrowing") && unchanged(this)
      ensures !lookupFails && CanCheckOut(old(books), bookId) && !txFails ==>
        var i := FindBook(old(books), bookId).value;
        var b := Borrowing(old(nextBorrowingId), bookId, memberId, now, dueDate, None, Borrowed);
        && res == Success(201, b)
        && borrowings == old(borrowings) + [b]
        && books == TakeCopy(old(books), i)
        && members == old(members)
        && nextBorrowingId == old(nextBorrowingId) + 1
        && nextBookId == old(nextBookId) && nextMemberId == old(nextMemberId)
      ensures AvailableAtMostTotal(old(books)) ==> AvailableAtMostTotal(books)
      ensures CopiesInRange(old(books)) ==> CopiesInRange(books)
    {
      if lookupFails {
        res := Failure(500, "Failed to create borrowing");
        return;
      }
      var found := FindBook(books, bookId);
      if found.None? || books[found.value].availableCopies <= 0 {
        res := Failure(400, "Book is not available");
        return;
      }
      if txFails {
        res := Failure(500, "Failed to create borrowing");
        return;
      }
      var i := found.value;
      var b := Borrowing(nextBorrowingId, bookId, memberId, now, dueDate, None, Borrowed);
      TakeCopyKeepsRange(books, i);
      borrowings := borrowings + [b];
      books := TakeCopy(books, i);
      nextBorrowingId := nextBorrowingId + 1;
      res := Success(201, b);
    }

    /** `GET /api/books`: every book, newest first. */
    method ListBooks(fails: bool) returns (res: Response<seq<Book>>)
      requires Valid()
      ensures fails ==> res == Failure(500, "Failed to fetch books")
      ensures !fails ==> res.Success? && res.status == 200
      ensures !fails ==> multiset(res.value) == multiset(books)
      ensures !fails ==> StrictlyDescending(res.value, BookKey)
      ensures !fails ==> (|res.value| == |books| &&
        forall k :: 0 <= k < |books| ==> res.value[k] == books[|books| - 1 - k])
    {
      if fails {
        res := Failure(500, "Failed to fetch books");
        return;
      }
      NewestFirstPermutes(books);
      NewestFirstDescending(books, BookKey);
      forall k | 0 <= k < |books| ensures NewestFirst(books)[k] == books[|books| - 1 - k] {
        NewestFirstAt(books, k);
      }
      res := Success(200, NewestFirst(books));
    }

    /** `GET /api/members`: every member, newest first. */
    method ListMembers(fails: bool) returns (res: Response<seq<Member>>)
      requires Valid()
      ensures fails ==> res == Failure(500, "Failed to fetch members")
      ensures !fails ==> res.Success? && res.status == 200
      ensures !fails ==> multiset(res.value) == multiset(members)
      ensures !fails ==> StrictlyDescending(res.value, MemberKey)
      ensures !fails ==> (|res.value| == |members| &&
        forall k :: 0 <= k < |members| ==> res.value[k] == members[|members| - 1 - k])
    {
      if fails {
        res := Failure(500, "Failed to fetch members");
        return;
      }
      NewestFirstPermutes(members);
      NewestFirstDescending(members, MemberKey);
      forall k | 0 <= k < |members| ensures NewestFirst(members)[k] == members[|members| - 1 - k] {
        NewestFirstAt(members, k);
      }
      res := Success(200, NewestFirst(members));
    }

    /** `GET /api/borrowings`: every borrowing, newest first. */
    method ListBorrowings(fails: bool) returns (res: Response<seq<Borrowing>>)
      requires Valid()
      ensures fails ==> res == Failure(500, "Failed to fetch borrowings")
      ensures !fails ==> res.Success? && res.status == 200
      ensures !fails ==> multiset(res.value) == multiset(borrowings)
      ensures !fails ==> StrictlyDescending(res.value, BorrowingKey)
      ensures !fails ==> (|res.value| == |borrowings| &&
        forall k :: 0 <= k < |borrowings| ==> res.value[k] == borrowings[|borrowings| - 1 - k])
    {
      if fails {
        res := Failure(500, "Failed to fetch borrowings");
        return;
      }
      NewestFirstPermutes(borrowings);
      NewestFirstDescending(borrowings, BorrowingKey);
      forall k | 0 <= k < |borrowings| ensures NewestFirst(borrowings)[k] == borrowings[|borrowings| - 1 - k] {
        NewestFirstAt(borrowings, k);
      }
      res := Success(200, NewestFirst(borrowings));
    }
  }

  /** The scenario of a book with two copies: two checkouts succeed, the
      third is refused and changes nothing. Only the contracts are used. */
  method TwoCopiesScenario()
  {
    var store := new LendingStore();
    var created := store.CreateBook("Dune", "Frank Herbert", "978-0-441-17271-9", 1965, 2, false);
    assert created == Success(201, Book(1, "Dune", "Frank Herbert", "978-0-441-17271-9", 1965, 2, 2));
    assert FindBook(store.books, 1) == Some(0);
    var first := store.Checkout(1, 7, 1000, 0, false, false);
    assert first.Success? && store.books[0].availableCopies == 1;
    assert FindBook(store.books, 1) == Some(0);
    var second := store.Checkout(1, 8, 2000, 0, false, false);
    assert second.Success? && store.books[0].availableCopies == 0;
    assert FindBook(store.books, 1) == Some(0);
    var before := store.borrowings;
    var third := store.Checkout(1, 9, 3000, 0, false, false);
    assert third == Failure(400, "Book is not available");
    assert store.borrowings == before && |store.borrowings| == 2;
    assert CopiesInRange(store.books);
  }
}
