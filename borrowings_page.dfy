/** The values the borrowings page derives from the fetched lists: the
    overdue test, the days until the due date, the status badge, and the
    active, returned, overdue and selectable-book lists. `now` is the
    page's clock reading in milliseconds. */
module BorrowingsPage {
  import opened Records
  import opened Seqs
  import opened Store

  /** Milliseconds in a day, `1000 * 60 * 60 * 24`. */
  const DayMs: int := 86400000

  /** A borrowing is overdue when it is not returned and its due time has passed. */
  predicate IsOverdue(dueDate: int, status: string, now: int)
  {
    if status == Returned then false else dueDate < now
  }

  /** `Math.ceil((due - now) / DayMs)`: the least whole number of days that
      reaches the due time. */
  function DaysUntilDue(dueDate: int, now: int): (days: int)
    ensures DayMs * (days - 1) < dueDate - now <= DayMs * days
  {
    -((now - dueDate) / DayMs)
  }

  /** The overdue test is a strict comparison, and never holds of a returned loan. */
  lemma OverdueIff(dueDate: int, status: string, now: int)
    ensures IsOverdue(dueDate, status, now) <==> status != Returned && dueDate < now
    ensures status == Returned ==> !IsOverdue(dueDate, status, now)
    ensures status != Returned && dueDate == now ==> !IsOverdue(dueDate, status, now)
  {
  }

  /** A loan due later has at least one day left; one due now or earlier has none. */
  lemma DaysUntilDueSign(dueDate: int, now: int)
    ensures dueDate > now ==> DaysUntilDue(dueDate, now) >= 1
    ensures dueDate <= now ==> DaysUntilDue(dueDate, now) <= 0
    ensures DaysUntilDue(dueDate, now) == 0 <==> now - DayMs < dueDate <= now
  {
  }

  /** A later due date never has fewer days left. */
  lemma DaysUntilDueMonotone(due1: int, due2: int, now: int)
    requires due1 <= due2
    ensures DaysUntilDue(due1, now) <= DaysUntilDue(due2, now)
  {
  }

  /** Moving the due date by whole days moves the count by the same number. */
  lemma DaysUntilDueShift(dueDate: int, now: int, k: int)
    ensures DaysUntilDue(dueDate + k * DayMs, now) == DaysUntilDue(dueDate, now) + k
  {
    var d := DaysUntilDue(dueDate, now);
    var e := DaysUntilDue(dueDate + k * DayMs, now);
    assert DayMs * (e - 1) < dueDate - now + k * DayMs <= DayMs * e;
    assert DayMs * (e - k - 1) < dueDate - now <= DayMs * (e - k);
  }

  /** The badge at the right of a borrowing row. */
  datatype Badge = ReturnedBadge | OverdueBadge(daysOverdue: int) | DaysLeftBadge(daysLeft: int)

  function Abs(x: int): int { if x < 0 then -x else x }

  function StatusBadge(b: Borrowing, now: int): Badge
  {
    var days := DaysUntilDue(b.dueDate, now);
    if b.status == Returned then ReturnedBadge
    else if IsOverdue(b.dueDate, b.status, now) then OverdueBadge(Abs(days))
    else DaysLeftBadge(days)
  }

  /** What the badge says: "Returned" exactly for returned loans; for an
      overdue loan the whole days past due (so 0 during its first day
      overdue), which is minus the days until due; otherwise the days left,
      which is 0 only when the loan is due this very millisecond. */
  lemma StatusBadgeMeaning(b: Borrowing, now: int)
    ensures StatusBadge(b, now).ReturnedBadge? <==> b.status == Returned
    ensures StatusBadge(b, now).OverdueBadge? <==> b.status != Returned && b.dueDate < now
    ensures StatusBadge(b, now).OverdueBadge? ==>
      && StatusBadge(b, now).daysOverdue == -DaysUntilDue(b.dueDate, now)
      && StatusBadge(b, now).daysOverdue == (now - b.dueDate) / DayMs
    ensures StatusBadge(b, now).DaysLeftBadge? ==>
      && StatusBadge(b, now).daysLeft >= 0
      && (StatusBadge(b, now).daysLeft == 0 <==> b.dueDate == now)
  {
    DaysUntilDueSign(b.dueDate, now);
  }

  predicate IsActive(b: Borrowing) { b.status == Borrowed }
  predicate IsReturned(b: Borrowing) { b.status == Returned }
  predicate HasFreeCopy(b: Book) { b.availableCopies > 0 }

  function ActiveBorrowings(bs: seq<Borrowing>): seq<Borrowing> { Filter(bs, IsActive) }
  function ReturnedBorrowings(bs: seq<Borrowing>): seq<Borrowing> { Filter(bs, IsReturned) }
  function OverdueBorrowings(bs: seq<Borrowing>, now: int): seq<Borrowing>
  {
    Filter(ActiveBorrowings(bs), (b: Borrowing) => IsOverdue(b.dueDate, b.status, now))
  }

  /** The active and returned lists keep the order of the fetched list,
      share no entry, and together are no longer than it. */
  lemma ActiveReturnedPartition(bs: seq<Borrowing>)
    ensures IsSubsequence(ActiveBorrowings(bs), bs)
    ensures IsSubsequence(ReturnedBorrowings(bs), bs)
    ensures forall i :: 0 <= i < |ActiveBorrowings(bs)| ==> ActiveBorrowings(bs)[i] !in ReturnedBorrowings(bs)
    ensures |ActiveBorrowings(bs)| + |ReturnedBorrowings(bs)| <= |bs|
  {
    FilterIsSubsequence(bs, IsActive);
    FilterIsSubsequence(bs, IsReturned);
    assert Borrowed[0] != Returned[0];
    DisjointFiltersLength(bs, IsActive, IsReturned);
  }

  /** The overdue list is drawn from the active list in its order, and each
      of its entries is borrowed and past due. */
  lemma OverdueWithinActive(bs: seq<Borrowing>, now: int)
    ensures IsSubsequence(OverdueBorrowings(bs, now), ActiveBorrowings(bs))
    ensures |OverdueBorrowings(bs, now)| <= |ActiveBorrowings(bs)|
    ensures forall i :: 0 <= i < |OverdueBorrowings(bs, now)| ==>
      OverdueBorrowings(bs, now)[i].status == Borrowed && OverdueBorrowings(bs, now)[i].dueDate < now
  {
    var p := (b: Borrowing) => IsOverdue(b.dueDate, b.status, now);
    FilterIsSubsequence(ActiveBorrowings(bs), p);
    SubsequenceLength(OverdueBorrowings(bs, now), ActiveBorrowings(bs));
    assert Borrowed[0] != Returned[0];
  }

  /** The lists the page holds after `fetchData`. */
  datatype PageData = PageData(borrowings: seq<Borrowing>, books: seq<Book>, members: seq<Member>)

  /** The books offered in the checkout form: those with a free copy, from an array response. */
  function SelectableBooks(res: Fetched<Book>): seq<Book>
  {
    if res.JsonArray? then Filter(res.items, HasFreeCopy) else []
  }

  /** `fetchData`: an exception anywhere empties all three lists. */
  function FetchData(borrowingsRes: Fetched<Borrowing>, booksRes: Fetched<Book>,
                     membersRes: Fetched<Member>): PageData
  {
    if borrowingsRes.Threw? || booksRes.Threw? || membersRes.Threw? then PageData([], [], [])
    else PageData(ArrayOrEmpty(borrowingsRes), SelectableBooks(booksRes), ArrayOrEmpty(membersRes))
  }

  /** The selectable books are exactly the fetched books with a free copy,
      in their fetched order; anything but an array offers none. */
  lemma SelectableBooksMeaning(res: Fetched<Book>)
    ensures !res.JsonArray? ==> SelectableBooks(res) == []
    ensures res.JsonArray? ==> IsSubsequence(SelectableBooks(res), res.items)
    ensures forall i :: 0 <= i < |SelectableBooks(res)| ==>
      SelectableBooks(res)[i].availableCopies > 0 && SelectableBooks(res)[i] in ArrayOrEmpty(res)
    ensures res.JsonArray? ==> forall i :: 0 <= i < |res.items| && res.items[i].availableCopies > 0 ==>
      res.items[i] in SelectableBooks(res)
  {
    if res.JsonArray? {
      FilterIsSubsequence(res.items, HasFreeCopy);
    }
  }

  /** The page's lists after a fetch in which nothing threw. */
  lemma FetchDataMeaning(borrowingsRes: Fetched<Borrowing>, booksRes: Fetched<Book>,
                         membersRes: Fetched<Member>)
    ensures var d := FetchData(borrowingsRes, booksRes, membersRes);
      if borrowingsRes.Threw? || booksRes.Threw? || membersRes.Threw? then
        d.borrowings == [] && d.books == [] && d.members == []
      else
        && d.borrowings == ArrayOrEmpty(borrowingsRes)
        && d.members == ArrayOrEmpty(membersRes)
        && d.books == SelectableBooks(booksRes)
        && forall i :: 0 <= i < |d.books| ==> d.books[i].availableCopies > 0
  {
    SelectableBooksMeaning(booksRes);
  }

  /** Fetched from `GET /api/books`, the form offers exactly the books of the
      table that the checkout guard accepts. */
  lemma SelectableMatchesGuard(books: seq<Book>)
    requires StrictlyAscending(books, BookKey)
    ensures forall i :: 0 <= i < |books| ==>
      (books[i] in SelectableBooks(JsonArray(NewestFirst(books))) <==> CanCheckOut(books, books[i].id))
  {
    var listed := NewestFirst(books);
    NewestFirstPermutes(books);
    forall i | 0 <= i < |books|
      ensures books[i] in SelectableBooks(JsonArray(listed)) <==> CanCheckOut(books, books[i].id)
    {
      assert books[i] in multiset(listed);
      var k :| 0 <= k < |listed| && listed[k] == books[i];
      CanCheckOutIff(books, books[i].id);
      if CanCheckOut(books, books[i].id) {
        var j :| 0 <= j < |books| && books[j].id == books[i].id && books[j].availableCopies > 0;
        assert j == i;
      }
    }
  }
}
