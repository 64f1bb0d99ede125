/** The three counters of the home page. */
module Dashboard {
  import opened Records
  import opened Seqs
  import opened BorrowingsPage

  datatype Stats = Stats(books: int, members: int, activeBorrowings: int)

  /** The counters shown before any fetch has completed. */
  const InitialStats: Stats := Stats(0, 0, 0)

  /** `fetchStats`: the list lengths of array responses and the number of
      borrowed entries; when a fetch or a parse throws, the counters stay. */
  function FetchStats(current: Stats, booksRes: Fetched<Book>, membersRes: Fetched<Member>,
                      borrowingsRes: Fetched<Borrowing>): Stats
  {
    if booksRes.Threw? || membersRes.Threw? || borrowingsRes.Threw? then current
    else Stats(|ArrayOrEmpty(booksRes)|, |ArrayOrEmpty(membersRes)|,
               |Filter(ArrayOrEmpty(borrowingsRes), IsActive)|)
  }

  /** What each counter means after a fetch. */
  lemma FetchStatsMeaning(current: Stats, booksRes: Fetched<Book>, membersRes: Fetched<Member>,
                          borrowingsRes: Fetched<Borrowing>)
    ensures InitialStats.books == 0 && InitialStats.members == 0 && InitialStats.activeBorrowings == 0
    ensures var s := FetchStats(current, booksRes, membersRes, borrowingsRes);
      if booksRes.Threw? || membersRes.Threw? || borrowingsRes.Threw? then s == current
      else
        && s.books == (if booksRes.JsonArray? then |booksRes.items| else 0)
        && s.members == (if membersRes.JsonArray? then |membersRes.items| else 0)
        && s.activeBorrowings == |ActiveBorrowings(ArrayOrEmpty(borrowingsRes))|
        && 0 <= s.activeBorrowings <= |ArrayOrEmpty(borrowingsRes)|
        && (borrowingsRes.JsonOther? ==> s.activeBorrowings == 0)
  {
  }

  /** Fetched from `GET /api/borrowings`, newest first, the active count is
      that of the table, so each successful checkout raises it by one. */
  lemma CheckoutRaisesActiveLoans(table: seq<Borrowing>, b: Borrowing, current: Stats,
                                  booksRes: Fetched<Book>, membersRes: Fetched<Member>)
    requires b.status == Borrowed
    requires !booksRes.Threw? && !membersRes.Threw?
    ensures FetchStats(current, booksRes, membersRes, JsonArray(NewestFirst(table + [b]))).activeBorrowings
         == FetchStats(current, booksRes, membersRes, JsonArray(NewestFirst(table))).activeBorrowings + 1
  {
    FilterNewestFirstLength(table + [b], IsActive);
    FilterNewestFirstLength(table, IsActive);
    FilterSnoc(table, b, IsActive);
  }

  /** Fetched from the three listings of a store, the counters are the
      number of books, the number of members and the number of `borrowed`
      rows in the borrowings table. */
  lemma StatsMatchStore(current: Stats, books: seq<Book>, members: seq<Member>,
                        borrowings: seq<Borrowing>)
    ensures FetchStats(current, JsonArray(NewestFirst(books)), JsonArray(NewestFirst(members)),
                       JsonArray(NewestFirst(borrowings)))
         == Stats(|books|, |members|, |ActiveBorrowings(borrowings)|)
  {
    FilterNewestFirstLength(borrowings, IsActive);
  }
}
