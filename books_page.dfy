/** The values the books page derives from the fetched book list: the
    colour tier of each availability bar, the "Showing N books" summary and
    the footer total of available copies. */
module BooksPage {
  import opened Records
  import opened Seqs
  import opened Store

  /** The list `fetchBooks` keeps: an array response as it is, and an empty
      list for an error object or an exception. */
  function FetchBooks(res: Fetched<Book>): seq<Book>
  {
    ArrayOrEmpty(res)
  }

  /** Anything but an array response leaves the page with no books. */
  lemma FetchBooksMeaning(res: Fetched<Book>)
    ensures res.JsonArray? ==> FetchBooks(res) == res.items
    ensures !res.JsonArray? ==> FetchBooks(res) == [] && TotalAvailable(FetchBooks(res)) == 0
    ensures !res.JsonArray? ==> BookNoun(|FetchBooks(res)|) == "books"
  {
  }

  /** The three colours of the availability bar and count. */
  datatype Tier = Red | Amber | Emerald

  /** Red when no copy is left, amber when fewer than half are, emerald
      otherwise. The page compares the available count with half the total;
      for integers that is exactly `2 * availableCopies < totalCopies`. */
  function AvailabilityTier(b: Book): Tier
  {
    if b.availableCopies == 0 then Red
    else if 2 * b.availableCopies < b.totalCopies then Amber
    else Emerald
  }

  /** Each tier's condition; the conditions are mutually exclusive and
      cover every book. */
  lemma AvailabilityTierIff(b: Book)
    ensures AvailabilityTier(b) == Red <==> b.availableCopies == 0
    ensures AvailabilityTier(b) == Amber <==> b.availableCopies != 0 && 2 * b.availableCopies < b.totalCopies
    ensures AvailabilityTier(b) == Emerald <==> b.availableCopies != 0 && 2 * b.availableCopies >= b.totalCopies
  {
  }

  /** A book with all of its copies on the shelf is never amber, and is red
      only when it owns none. */
  lemma FullyStockedTier(b: Book)
    requires b.availableCopies == b.totalCopies >= 0
    ensures AvailabilityTier(b) == (if b.totalCopies == 0 then Red else Emerald)
  {
  }

  /** The noun of the summary line: "book" with an "s" appended unless the count is one. */
  function BookNoun(count: int): string
  {
    "book" + (if count != 1 then "s" else "")
  }

  /** The summary is singular for exactly one book. */
  lemma BookNounPlural(count: int)
    ensures BookNoun(count) == "book" <==> count == 1
    ensures BookNoun(count) == "books" <==> count != 1
  {
    assert |BookNoun(count)| == if count == 1 then 4 else 5;
  }

  /** A left fold that adds each book's available count to the accumulator. */
  function SumAvailable(books: seq<Book>, acc: int): int
  {
    if books == [] then acc else SumAvailable(books[1..], acc + books[0].availableCopies)
  }

  /** The footer total: the fold above started from zero over the whole list. */
  function TotalAvailable(books: seq<Book>): int
  {
    SumAvailable(books, 0)
  }

  /** The fold adds its starting value to the total. */
  lemma {:induction false} SumAvailableStart(books: seq<Book>, acc: int)
    ensures SumAvailable(books, acc) == acc + TotalAvailable(books)
  {
    if books != [] {
      SumAvailableStart(books[1..], acc + books[0].availableCopies);
      SumAvailableStart(books[1..], books[0].availableCopies);
    }
  }

  /** Putting a book in front adds its count. */
  lemma TotalAvailableCons(b: Book, s: seq<Book>)
    ensures TotalAvailable([b] + s) == b.availableCopies + TotalAvailable(s)
  {
    assert ([b] + s)[1..] == s;
    SumAvailableStart(s, b.availableCopies);
  }

  /** The total of two lists put together is the sum of their totals. */
  lemma {:induction false} TotalAvailableAppend(s: seq<Book>, t: seq<Book>)
    ensures TotalAvailable(s + t) == TotalAvailable(s) + TotalAvailable(t)
  {
    if s == [] {
      assert s + t == t;
    } else {
      TotalAvailableAppend(s[1..], t);
      assert s + t == [s[0]] + (s[1..] + t);
      assert s == [s[0]] + s[1..];
      TotalAvailableCons(s[0], s[1..] + t);
      TotalAvailableCons(s[0], s[1..]);
    }
  }

  /** The empty list totals 0 and appending a book adds its count. */
  lemma TotalAvailableSnoc(s: seq<Book>, b: Book)
    ensures TotalAvailable([]) == 0
    ensures TotalAvailable(s + [b]) == TotalAvailable(s) + b.availableCopies
  {
    TotalAvailableAppend(s, [b]);
    TotalAvailableCons(b, []);
    assert [b] + [] == [b];
  }

  /** The footer total does not depend on the order the books are listed in. */
  lemma {:induction false} TotalAvailableNewestFirst(books: seq<Book>)
    ensures TotalAvailable(NewestFirst(books)) == TotalAvailable(books)
  {
    if books != [] {
      var init, last := books[..|books| - 1], books[|books| - 1];
      TotalAvailableNewestFirst(init);
      TotalAvailableCons(last, NewestFirst(init));
      assert books == init + [last];
      TotalAvailableSnoc(init, last);
    }
  }

  /** Fetched from `GET /api/books`, the page shows one entry per book of the
      table and the table's total of available copies. */
  lemma ListingFooter(books: seq<Book>)
    ensures |FetchBooks(JsonArray(NewestFirst(books)))| == |books|
    ensures TotalAvailable(FetchBooks(JsonArray(NewestFirst(books)))) == TotalAvailable(books)
  {
    TotalAvailableNewestFirst(books);
  }

  /** The ordering red, amber, emerald of the tiers. */
  function TierRank(t: Tier): nat
  {
    match t
    case Red => 0
    case Amber => 1
    case Emerald => 2
  }

  /** A checkout never moves a book to a better tier: it can only stay or drop. */
  lemma TakeCopyNeverRaisesTier(books: seq<Book>, i: nat)
    requires i < |books| && books[i].availableCopies > 0
    ensures TierRank(AvailabilityTier(TakeCopy(books, i)[i])) <= TierRank(AvailabilityTier(books[i]))
    ensures books[i].availableCopies == 1 ==> AvailabilityTier(TakeCopy(books, i)[i]) == Red
  {
  }

  /** A successful checkout lowers the footer total by exactly one copy. */
  lemma TakeCopyLowersTotal(books: seq<Book>, i: nat)
    requires i < |books|
    ensures TotalAvailable(TakeCopy(books, i)) == TotalAvailable(books) - 1
  {
    var after := TakeCopy(books, i);
    assert books == books[..i] + ([books[i]] + books[i + 1..]);
    assert after == books[..i] + ([after[i]] + books[i + 1..]);
    TotalAvailableAppend(books[..i], [books[i]] + books[i + 1..]);
    TotalAvailableAppend(books[..i], [after[i]] + books[i + 1..]);
    TotalAvailableCons(books[i], books[i + 1..]);
    TotalAvailableCons(after[i], books[i + 1..]);
  }

  /** When every count is in range the total is not negative. */
  lemma {:induction false} TotalAvailableNonNegative(books: seq<Book>)
    requires CopiesInRange(books)
    ensures TotalAvailable(books) >= 0
  {
    if books != [] {
      assert CopiesInRange(books[1..]) by {
        forall i | 0 <= i < |books[1..]| ensures 0 <= books[1..][i].availableCopies {
          assert books[1..][i] == books[i + 1];
        }
      }
      TotalAvailableNonNegative(books[1..]);
      SumAvailableStart(books[1..], books[0].availableCopies);
    }
  }
}
