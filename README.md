# LibMS lending store, modelled in Dafny

LibMS is a small library-management web application: a books table, a
members table and a borrowings table behind REST routes, plus pages that
derive counts, badges and filtered lists from what those routes return.
This project models the part with real invariants:

- **The lending store** (`store.dfy`, module `Store`): class `LendingStore`
  holds the three tables as sequences in creation order, with one
  autoincrement counter per table. Its methods are `POST /api/books`,
  `POST /api/members` and `POST /api/borrowings` (checkout), and the three
  newest-first `GET` listings. Checkout looks the book up. It refuses with
  400 "Book is not available" when the book is missing or has no free
  copy. Otherwise it appends a `borrowed` row and takes one copy off the
  book, in one step. An exception thrown by the database is an input flag
  (`fails`, `lookupFails`, `txFails`). Every such failure leaves the store
  exactly as it was (`unchanged(this)`).
- **The store invariant**: no book has more copies available than it owns
  (`AvailableAtMostTotal`), and every count lies in `0..totalCopies`
  (`CopiesInRange`). Checkout keeps both. Book creation keeps the first
  always. It keeps the second only for a non-negative `totalCopies`,
  because the route does not reject a negative count.
- **The derived views** (pure functions): the overdue test,
  days-until-due and status badge of the borrowings page, with its active,
  returned, overdue and selectable-book lists (`borrowings_page.dfy`); the
  availability tier, summary noun and copies total of the books page
  (`books_page.dfy`); the home page counters (`dashboard.dfy`).
  `seqs.dfy` holds JavaScript's `filter`, the newest-first order and
  subsequences. `records.dfy` holds the rows, the HTTP reply and the parsed
  fetch result (`JsonArray`, `JsonOther`, `Threw`). `ArrayOrEmpty` is the
  `Array.isArray(data) ? data : []` pattern the three pages share
  (app/books/page.tsx:36-44, app/borrowings/page.tsx:63-65, app/page.tsx:30-31).

Time is integer milliseconds and "now" is a parameter. `TwoCopiesScenario`
is a client of the store's contracts: two checkouts of a two-copy book
succeed, and a third is refused without changing the table.

Three behaviours of the code the model keeps as they are:
- Book creation accepts any parsed `totalCopies`, negative ones included; nothing validates it.
- Checkout never looks up the member.
- A missing book and a book with no free copy get the same 400 reply.

## Model

| member | source | states |
|---|---|---|
| `Store.CanCheckOut` | app/api/borrowings/route.ts:30-39 | the checkout guard: the looked-up book exists and has `availableCopies > 0`; its meaning is stated by `CanCheckOutIff` |
| `Store.FindBook` | app/api/borrowings/route.ts:30-32 | finds a position holding a book with that id, or reports that no book has it |
| `Store.CanCheckOutIff` | app/api/borrowings/route.ts:34 | with unique ids, the checkout guard passes exactly when a book with that id has `availableCopies > 0` |
| `Store.TakeCopy` | app/api/borrowings/route.ts:55-62 | exactly the chosen book's `availableCopies` drops by one; every other book and field is untouched |
| `Store.TakeCopyKeepsRange` | app/api/borrowings/route.ts:34-60 | taking a copy from a book with at least one keeps `available <= total` and `0 <= available <= total` |
| `Store.LendingStore.CreateBook` | app/api/books/route.ts:20-43 | 201 with a new row (next id, title/author/isbn/year as given, `availableCopies == totalCopies`) appended, other tables unchanged; 500 "Failed to create book" and nothing changed on failure; the invariant is kept (the lower bound only for `totalCopies >= 0`) |
| `Store.LendingStore.CreateMember` | app/api/members/route.ts:20-41 | 201 with a new row (next id, name/email/phone/address as given) appended, other tables unchanged; 500 "Failed to create member" and nothing changed on failure |
| `Store.LendingStore.Checkout` | app/api/borrowings/route.ts:24-72 | 400 "Book is not available" with no change when the book is missing or has no free copy; 500 "Failed to create borrowing" with no change when the lookup or the transaction throws; otherwise 201 with a `borrowed` row (given bookId, memberId, dueDate, no return date) appended and that one book decremented, members unchanged; the member is never consulted; both invariants are kept |
| `Store.LendingStore.ListBooks` | app/api/books/route.ts:5-17 | 200 with every book exactly once (same multiset), ids strictly descending, position k holding the k-th newest; 500 "Failed to fetch books" on failure |
| `Store.LendingStore.ListMembers` | app/api/members/route.ts:5-17 | the same for members, 500 "Failed to fetch members" on failure |
| `Store.LendingStore.ListBorrowings` | app/api/borrowings/route.ts:5-21 | the same for borrowings, 500 "Failed to fetch borrowings" on failure |
| `Seqs.Filter` | app/borrowings/page.tsx:134-136 | a filter keeps only entries satisfying the test, keeps every entry that does, and is no longer than its input |
| `Seqs.FilterIsSubsequence` | app/borrowings/page.tsx:134-136 | a filter keeps the relative order of the entries it keeps |
| `Seqs.NewestFirst` | app/api/borrowings/route.ts:7-13 | a creation-ordered table listed newest first, of the same length; its meaning is stated by the three lemmas below |
| `Seqs.NewestFirstAt` | app/api/borrowings/route.ts:12 | position k of a newest-first listing holds the record created k-th from last |
| `Seqs.NewestFirstPermutes` | app/api/books/route.ts:7-9 | a listing holds every record of the table, as often as the table does |
| `Seqs.NewestFirstDescending` | app/api/members/route.ts:7-9 | ids that grow with creation fall strictly along the listing |
| `Records.ArrayOrEmpty` | app/borrowings/page.tsx:63-65 | an array response is kept as it is; an error object or an exception gives an empty list |
| `BorrowingsPage.IsOverdue` | app/borrowings/page.tsx:110-113 | the overdue test; its meaning is stated by `OverdueIff` |
| `BorrowingsPage.OverdueIff` | app/borrowings/page.tsx:110-113 | overdue exactly when the status is not `returned` and `due < now`; a returned loan never is, nor is one due exactly now |
| `BorrowingsPage.DaysUntilDue` | app/borrowings/page.tsx:115-121 | the result is the ceiling of `(due - now) / 86400000`: the least whole day count `d` with `due - now <= 86400000 * d` |
| `BorrowingsPage.DaysUntilDueSign` | app/borrowings/page.tsx:115-120 | at least 1 when `due > now`, at most 0 when `due <= now`, and 0 exactly for due times in `(now - 1 day, now]` |
| `BorrowingsPage.DaysUntilDueMonotone` | app/borrowings/page.tsx:115-120 | a later due date never has fewer days until due |
| `BorrowingsPage.DaysUntilDueShift` | app/borrowings/page.tsx:118-119 | moving the due date by k whole days moves the count by exactly k |
| `BorrowingsPage.StatusBadge` | app/borrowings/page.tsx:402-423 | the badge choice; its meaning is stated by `StatusBadgeMeaning` |
| `BorrowingsPage.StatusBadgeMeaning` | app/borrowings/page.tsx:402-423 | "Returned" exactly for returned loans; the overdue badge exactly for unreturned loans past due, showing minus the days until due, that is the whole days elapsed since the due time; otherwise the days-left badge, never negative and 0 only when due now |
| `BorrowingsPage.ActiveBorrowings` | app/borrowings/page.tsx:134 | the entries whose status is `borrowed`, in order |
| `BorrowingsPage.ReturnedBorrowings` | app/borrowings/page.tsx:135 | the entries whose status is `returned`, in order |
| `BorrowingsPage.OverdueBorrowings` | app/borrowings/page.tsx:136 | the active entries that are overdue at `now`, in order |
| `BorrowingsPage.ActiveReturnedPartition` | app/borrowings/page.tsx:134-135 | the active and returned lists keep the fetched order, share no entry, and have total length at most that of the fetched list |
| `BorrowingsPage.OverdueWithinActive` | app/borrowings/page.tsx:136 | the overdue list is a subsequence of the active list, no longer than it, and holds only borrowed entries past due |
| `BorrowingsPage.SelectableBooks` | app/borrowings/page.tsx:64 | the books offered in the checkout form; their meaning is stated by `SelectableBooksMeaning` |
| `BorrowingsPage.FetchData` | app/borrowings/page.tsx:51-74 | the three lists the page holds after a fetch; stated by `FetchDataMeaning` |
| `BorrowingsPage.SelectableBooksMeaning` | app/borrowings/page.tsx:64 | the form offers exactly the fetched books with `availableCopies > 0`, in fetched order; a non-array response offers none |
| `BorrowingsPage.SelectableMatchesGuard` | app/borrowings/page.tsx:64 | fetched from the books listing, the form offers a book of the table exactly when the checkout guard of app/api/borrowings/route.ts:34 accepts it |
| `BorrowingsPage.FetchDataMeaning` | app/borrowings/page.tsx:51-74 | an exception in any fetch empties all three lists; otherwise array responses are kept (books filtered to those with a free copy) and anything else becomes `[]` |
| `BooksPage.FetchBooks` | app/books/page.tsx:32-48 | the book list the page keeps after a fetch |
| `BooksPage.FetchBooksMeaning` | app/books/page.tsx:36-44 | an array response is kept as it is; an error object or an exception leaves no books, a total of 0 and the plural summary |
| `BooksPage.AvailabilityTier` | app/books/page.tsx:299-305 | the colour of a book's availability bar and count; stated by `AvailabilityTierIff` |
| `BooksPage.AvailabilityTierIff` | app/books/page.tsx:299-305 | red iff no copy is available; amber iff some are but `2 * available < total`; emerald iff some are and `2 * available >= total`; so exactly one tier applies |
| `BooksPage.FullyStockedTier` | app/books/page.tsx:310-314 | a book with all copies available (as created) is emerald, or red when it owns none |
| `BooksPage.TakeCopyNeverRaisesTier` | app/books/page.tsx:299-305 | after a checkout's decrement a book's tier stays or drops (emerald, amber, red), and taking the last copy makes it red |
| `BooksPage.BookNoun` | app/books/page.tsx:404 | the noun of the summary line; stated by `BookNounPlural` |
| `BooksPage.BookNounPlural` | app/books/page.tsx:404 | the summary says "book" exactly when the count is 1, "books" otherwise |
| `BooksPage.SumAvailable` | app/books/page.tsx:405 | the left fold adding each book's available count to an accumulator |
| `BooksPage.TotalAvailable` | app/books/page.tsx:405 | the fold started from 0: the footer total; stated by the lemmas below |
| `BooksPage.SumAvailableStart` | app/books/page.tsx:405 | the `reduce` fold from any start value adds that value to the total |
| `BooksPage.TotalAvailableAppend` | app/books/page.tsx:405 | the total of two lists put together is the sum of their totals |
| `BooksPage.TotalAvailableSnoc` | app/books/page.tsx:405 | the empty list totals 0, and appending a book adds its available count |
| `BooksPage.TotalAvailableNewestFirst` | app/books/page.tsx:405 | the footer total is the same whether the books are listed newest first or in creation order |
| `BooksPage.ListingFooter` | app/books/page.tsx:404-405 | fetched from the books listing, the page shows one entry per book of the table and the table's total of available copies |
| `BooksPage.TakeCopyLowersTotal` | app/books/page.tsx:405 | after a successful checkout's decrement, the footer total is exactly one lower |
| `BooksPage.TotalAvailableNonNegative` | app/books/page.tsx:405 | when every count is in range, the total is not negative |
| `Dashboard.FetchStats` | app/page.tsx:17-41 | the counters after a fetch; stated by `FetchStatsMeaning` |
| `Dashboard.FetchStatsMeaning` | app/page.tsx:13-38 | all counters start at 0; after a fetch in which nothing throws, books and members are the list lengths of array responses (else 0), and the active count is the number of `borrowed` entries, between 0 and the list length; when anything throws, the counters stay as they were |
| `Dashboard.StatsMatchStore` | app/page.tsx:29-35 | fetched from the three listings of a store, the counters are the number of books, of members and of `borrowed` rows in the table |
| `Dashboard.CheckoutRaisesActiveLoans` | app/page.tsx:32-34 | counted over the newest-first listing, the active count equals the table's and rises by exactly one when a checkout appends a `borrowed` row |

## Left out

- The per-id routes are not part of this model: return, update, delete and get-by-id (app/api/books/[id]/route.ts, app/api/members/[id]/route.ts, app/api/borrowings/[id]/route.ts). So the model has no return operation and no increment of `availableCopies`.
- Prisma, Next.js and JSON are abstract. A reply is a status code with the entity or an error string. The `include: { book, member }` join is not modelled, so a checkout replies with the borrowing row alone.
- Store.LendingStore.Checkout: the member is not looked up, as in the code. A foreign-key rejection of an unknown member depends on the database schema, which is not part of this model. If it happens, it is one of the ways `txFails` is true.
- `createdAt`, `updatedAt` and `membershipDate` timestamps are not modelled. `borrowDate` is the `now` argument; in the application the database sets it by default. "Newest first" is taken as reverse creation order, with ids strictly increasing. Rows with equal `createdAt` values would come back in an order the database chooses.
- `parseInt` quirks (NaN, hex prefixes, trailing text), `new Date(...)` parsing and `toLocaleDateString` are left out. Every input arrives as an already-parsed integer.
- BorrowingsPage.DaysUntilDue: the JavaScript division is floating point. The model uses exact integer ceiling division, which agrees for any realistic date range.
- The progress-bar width `(available / total) * 100%` is floating point and is left out. So is the condition that hides the books footer for an empty list (app/books/page.tsx:402).
- Concurrency is left out. The availability check (line 30) and the transaction (line 42) are separate database calls, so two simultaneous checkouts of a last copy could both pass. The model runs one request at a time and claims nothing about such races.
- `fetch`, React state, loading flags, JSX and styling are left out. So are app/members/page.tsx and app/layout.tsx, which hold no logic to model.
- prisma/seed.js is a one-off data-loading script and is not modelled. The constructor starts from an empty database whose ids start at 1.
