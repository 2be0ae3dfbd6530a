/**
 * `InventoryManager`: the availability ledger as an object whose two maps are
 * updated in place. Every mutator is proved to leave exactly the state the
 * matching function of module Ledger computes, so the invariants proved there
 * (single holder, mirrored maps, checkout undone by return) carry over.
 */
module Inventory {
  import opened Errors
  import opened Collections
  import opened Books
  import L = Ledger

  class InventoryManager {
    /** ISBN -> ids of the patrons holding it. */
    var borrowedBooks: map<string, seq<string>>
    /** Patron id -> ISBNs that patron holds. */
    var patronBorrowedBooks: map<string, seq<string>>

    /** The ledger value the two maps stand for. */
    function State(): L.Ledger
      reads this
    {
      L.Ledger(borrowedBooks, patronBorrowedBooks)
    }

    constructor ()
      ensures State() == L.Empty
    {
      borrowedBooks := map[];
      patronBorrowedBooks := map[];
    }

    /** `initializeBookInventory`: throws on an empty ISBN, otherwise `putIfAbsent(isbn, [])`. */
    method InitializeBookInventory(isbn: string) returns (r: Outcome)
      modifies this
      ensures L.Initialize(old(State()), isbn).Err? ==> r == Thrown(IllegalArgument) && State() == old(State())
      ensures L.Initialize(old(State()), isbn).Ok? ==> r == Done && State() == L.Initialize(old(State()), isbn).value
    {
      if isbn == "" {
        return Thrown(IllegalArgument);
      }
      if isbn !in borrowedBooks {
        borrowedBooks := borrowedBooks[isbn := []];
      }
      return Done;
    }

    /** `removeBookFromInventory`: throws on an empty ISBN, otherwise drops the ISBN's entry. */
    method RemoveBookFromInventory(isbn: string) returns (r: Outcome)
      modifies this
      ensures L.Remove(old(State()), isbn).Err? ==> r == Thrown(IllegalArgument) && State() == old(State())
      ensures L.Remove(old(State()), isbn).Ok? ==> r == Done && State() == L.Remove(old(State()), isbn).value
    {
      if isbn == "" {
        return Thrown(IllegalArgument);
      }
      borrowedBooks := borrowedBooks - {isbn};
      return Done;
    }

    /** `recordCheckout`: the answer and the new maps are those of `Ledger.Checkout`. */
    method RecordCheckout(isbn: string, patronId: string) returns (r: Result<bool>)
      modifies this
      ensures L.Checkout(old(State()), isbn, patronId).Err? ==> r == Err(IllegalArgument) && State() == old(State())
      ensures L.Checkout(old(State()), isbn, patronId).Ok? ==>
                r == Ok(L.Checkout(old(State()), isbn, patronId).value.ok) &&
                State() == L.Checkout(old(State()), isbn, patronId).value.ledger
    {
      if isbn == "" || patronId == "" {
        return Err(IllegalArgument);
      }
      if isbn !in borrowedBooks {
        borrowedBooks := borrowedBooks[isbn := []];
      }
      if patronId !in patronBorrowedBooks {
        patronBorrowedBooks := patronBorrowedBooks[patronId := []];
      }
      if borrowedBooks[isbn] != [] {
        return Ok(false);
      }
      borrowedBooks := borrowedBooks[isbn := borrowedBooks[isbn] + [patronId]];
      patronBorrowedBooks := patronBorrowedBooks[patronId := patronBorrowedBooks[patronId] + [isbn]];
      return Ok(true);
    }

    /** `recordReturn`: the answer and the new maps are those of `Ledger.Return`. */
    method RecordReturn(isbn: string, patronId: string) returns (r: Result<bool>)
      modifies this
      ensures L.Return(old(State()), isbn, patronId).Err? ==> r == Err(IllegalArgument) && State() == old(State())
      ensures L.Return(old(State()), isbn, patronId).Ok? ==>
                r == Ok(L.Return(old(State()), isbn, patronId).value.ok) &&
                State() == L.Return(old(State()), isbn, patronId).value.ledger
    {
      if isbn == "" || patronId == "" {
        return Err(IllegalArgument);
      }
      if isbn !in borrowedBooks || patronId !in borrowedBooks[isbn] {
        return Ok(false);
      }
      borrowedBooks := borrowedBooks[isbn := RemoveFirst(borrowedBooks[isbn], patronId)];
      if patronId in patronBorrowedBooks {
        patronBorrowedBooks := patronBorrowedBooks[patronId := RemoveFirst(patronBorrowedBooks[patronId], isbn)];
      }
      return Ok(true);
    }

    /**
     * `isBookAvailable`: a non-empty ISBN that is tracked and whose
     * `getBorrowers` list is empty; then a checkout of it by any patron succeeds.
     */
    predicate IsBookAvailable(isbn: string): (b: bool)
      reads this
      ensures b <==> isbn != "" && isbn in borrowedBooks && L.Borrowers(State(), isbn) == []
      ensures b ==> forall patronId :: patronId != "" ==> L.Checkout(State(), isbn, patronId).Ok? && L.Checkout(State(), isbn, patronId).value.ok
    {
      L.IsAvailable(State(), isbn)
    }

    /** `getAvailableCount`: 1 exactly when the book is available. */
    function GetAvailableCount(isbn: string): (n: int)
      reads this
      ensures n == 1 <==> IsBookAvailable(isbn)
      ensures n == 0 <==> !IsBookAvailable(isbn)
    {
      L.AvailableCount(State(), isbn)
    }

    /** `getBorrowers`: a copy of the ISBN's holders. */
    function GetBorrowers(isbn: string): (r: seq<string>)
      reads this
      ensures L.SingleHolder(State()) ==> |r| <= 1
      ensures IsBookAvailable(isbn) ==> r == []
    {
      L.Borrowers(State(), isbn)
    }

    /** `getBorrowedBooksByPatron`: a copy of the patron's ISBNs. */
    function GetBorrowedBooksByPatron(patronId: string): (r: seq<string>)
      reads this
      ensures L.Mirrored(State()) ==> forall isbn :: isbn in r && isbn != "" ==> GetBorrowers(isbn) == [patronId]
    {
      L.BorrowedBooksByPatron(State(), patronId)
    }

    /**
     * The shared loop of `getBorrowedBooks` (`held`) and `getAvailableBooks`
     * (`!held`): walks the tracked ISBNs in the map's iteration order `isbns`
     * and keeps the catalog book of each one whose holder list is non-empty
     * exactly when `held` is.
     */
    method CollectBooks(allBooks: map<string, Book>, held: bool) returns (books: seq<Book>, ghost isbns: seq<string>)
      ensures |books| == |isbns| && NoDuplicates(isbns)
      ensures forall i :: 0 <= i < |isbns| ==> isbns[i] in allBooks && books[i] == allBooks[isbns[i]]
      ensures forall isbn :: isbn in isbns <==>
                isbn in borrowedBooks && isbn in allBooks && (borrowedBooks[isbn] != []) == held
    {
      books, isbns := [], [];
      var rest := borrowedBooks.Keys;
      while rest != {}
        invariant rest <= borrowedBooks.Keys
        invariant |books| == |isbns| && NoDuplicates(isbns)
        invariant forall i :: 0 <= i < |isbns| ==> isbns[i] in allBooks && books[i] == allBooks[isbns[i]]
        invariant forall isbn :: isbn in isbns <==>
                    isbn in borrowedBooks && isbn !in rest && isbn in allBooks && (borrowedBooks[isbn] != []) == held
        decreases rest
      {
        var isbn :| isbn in rest;
        if (borrowedBooks[isbn] != []) == held && isbn in allBooks {
          books, isbns := books + [allBooks[isbn]], isbns + [isbn];
        }
        rest := rest - {isbn};
      }
    }

    /**
     * `getBorrowedBooks`: the catalog books of the ISBNs somebody holds, one
     * per ISBN, in the map's iteration order `isbns`.
     */
    method GetBorrowedBooks(allBooks: map<string, Book>) returns (borrowed: seq<Book>, ghost isbns: seq<string>)
      ensures |borrowed| == |isbns| && NoDuplicates(isbns)
      ensures forall i :: 0 <= i < |isbns| ==> isbns[i] in allBooks && borrowed[i] == allBooks[isbns[i]]
      ensures (set isbn | isbn in isbns) == L.BorrowedIsbns(State(), allBooks.Keys)
    {
      borrowed, isbns := CollectBooks(allBooks, true);
    }

    /**
     * `getAvailableBooks`: the catalog books of the tracked ISBNs nobody holds,
     * one per ISBN, in the map's iteration order `isbns`.
     */
    method GetAvailableBooks(allBooks: map<string, Book>) returns (available: seq<Book>, ghost isbns: seq<string>)
      ensures |available| == |isbns| && NoDuplicates(isbns)
      ensures forall i :: 0 <= i < |isbns| ==> isbns[i] in allBooks && available[i] == allBooks[isbns[i]]
      ensures (set isbn | isbn in isbns) == L.AvailableIsbns(State(), allBooks.Keys)
      ensures forall i :: 0 <= i < |isbns| ==> IsBookAvailable(isbns[i]) || isbns[i] == ""
    {
      available, isbns := CollectBooks(allBooks, false);
    }
  }
}
